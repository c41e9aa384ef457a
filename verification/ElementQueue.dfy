/**
 * The element queue as it is coded: a struct of cursors over a shared block,
 * a length array and a byte buffer, updated in place (util/element_queue.c,
 * util/element_queue.h, util/element_queue_cpp.h, util/element_queue_writer.cc).
 *
 * Every method is tied to the cursor functions that the protocol steps use.
 * Module ElementQueueChannel runs these methods on two attached objects and
 * keeps the state they hold reachable in the protocol.
 */
module ElementQueueImpl {
  import opened Bits
  import opened Common
  import opened ElementQueueLayout
  import opened ElementQueueProtocol
  import opened ElementQueueTheorems

  /** `struct element_queue_shared`. */
  class SharedBlock {
    var elemHead: nat
    var bufHead: nat
    var elemTail: nat
    var bufTail: nat

    constructor ()
      ensures View() == Shared(0, 0, 0, 0)
    {
      elemHead, bufHead, elemTail, bufTail := 0, 0, 0, 0;
    }

    function View(): Shared
      reads this
    {
      Shared(elemHead, bufHead, elemTail, bufTail)
    }
  }

  /** Return code, cursors and length array after `eq_write` of `len` bytes from the given ones. */
  predicate Claimed(w: Cursors, elems: seq<nat>, len: nat, res: int, w': Cursors, elems': seq<nat>) {
    match WriteCursors(w, len)
    case Invalid => res == -EINVAL && w' == w && elems' == elems
    case NoSpace => res == -ENOSPC && w' == w && elems' == elems
    case Placed(offset, slot, next) => res == offset && w' == next && slot < |elems| && elems' == elems[slot := len]
  }

  /** `struct element_queue`. */
  class ElementQueue {
    const elemMask: nat
    const bufMask: nat
    var elemHead: nat
    var bufHead: nat
    var elemTail: nat
    var bufTail: nat
    const shared: SharedBlock
    const elems: array<nat>
    const data: array<Byte>

    constructor (n: nat, b: nat, shared: SharedBlock, elems: array<nat>, data: array<Byte>)
      ensures this.shared == shared && this.elems == elems && this.data == data
      ensures View() == Cursors(Word(n - 1), Word(b - 1), shared.elemHead, shared.bufHead, shared.elemTail,
          shared.bufTail)
    {
      this.shared, this.elems, this.data := shared, elems, data;
      elemMask, bufMask := Word(n - 1), Word(b - 1);
      elemHead, elemTail := shared.elemHead, shared.elemTail;
      bufHead, bufTail := shared.bufHead, shared.bufTail;
    }

    /** `eq_init_contig`: fails on null pointers and on sizes that are neither zero nor powers of two. */
    static method InitContig(n: nat, b: nat, shared: SharedBlock?, elems: array<nat>, data: array<Byte>)
      returns (res: int, eq: ElementQueue?)
      requires n < U32 && b < U32
      ensures res == 0 || res == -EINVAL
      ensures res == 0 <==> shared != null && (n == 0 || IsPow2(n)) && (b == 0 || IsPow2(b))
      ensures res == 0 <==> eq != null
      ensures eq != null ==> fresh(eq) && eq.shared == shared && eq.elems == elems && eq.data == data
      ensures eq != null ==>
                eq.View() == Cursors(Word(n - 1), Word(b - 1), shared.elemHead, shared.bufHead, shared.elemTail,
                    shared.bufTail)
    {
      eq := null;
      if shared == null { return -EINVAL, null; }
      if n > 0 { AndPred(n); }
      if b > 0 { AndPred(b); }
      if And(n, Word(n - 1)) != 0 { return -EINVAL, null; }
      if And(b, Word(b - 1)) != 0 { return -EINVAL, null; }
      eq := new ElementQueue(n, b, shared, elems, data);
      return 0, eq;
    }

    function View(): Cursors
      reads this
    {
      Cursors(elemMask, bufMask, elemHead, bufHead, elemTail, bufTail)
    }

    /** The arrays have the sizes the masks stand for, and the cursors are words. */
    predicate Valid()
      reads this
    {
      && ValidSizes(elemMask + 1, bufMask + 1)
      && elems.Length == elemMask + 1 && data.Length == bufMask + 1 && elems as object != data
      && elemHead < U32 && bufHead < U32 && elemTail < U32 && bufTail < U32
    }

    function Arrays(): set<object> {
      {elems as object, data as object}
    }

    /** `eq_start_write_batch`: load the heads, element head first. */
    method StartWriteBatch()
      modifies this
      ensures View() == old(View()).(elemHead := shared.elemHead, bufHead := shared.bufHead)
    {
      elemHead := shared.elemHead;
      bufHead := shared.bufHead;
    }

    /** `eq_write`: claim space and store the length, or leave everything alone. */
    method Write(len: nat) returns (res: int)
      requires Valid() && len < U32
      modifies this, elems
      ensures Valid() && Claimed(old(View()), old(elems[..]), len, res, View(), elems[..])
    {
      hide IsPow2, Mod, And, Word, AndNot, NextOffsetWord;
      var alignedLen := AndNot(Word(len + 7), 7);
      if alignedLen > bufMask { return -EINVAL; }
      if Word(elemTail - elemHead) >= Word(elemMask + 1) { return -ENOSPC; }
      var tail := NextOffsetWord(bufTail, bufMask, alignedLen);
      if Word(tail + alignedLen - bufHead) > Word(bufMask + 1) { return -ENOSPC; }
      bufTail := Word(tail + alignedLen);
      elems[And(elemTail, elemMask)] := len;
      elemTail := Word(elemTail + 1);
      return And(tail, bufMask);
    }

    /** `eq_finish_write_batch`: publish the tails, element tail last. */
    method FinishWriteBatch()
      modifies shared
      ensures shared.View() == old(shared.View()).(bufTail := bufTail, elemTail := elemTail)
    {
      shared.bufTail := bufTail;
      shared.elemTail := elemTail;
    }

    /** `eq_start_read_batch`. */
    method StartReadBatch()
      modifies this
      ensures View() == old(View()).(elemTail := shared.elemTail)
    {
      elemTail := shared.elemTail;
    }

    /** `eq_peek`: the length of the head element. */
    method Peek() returns (res: int)
      requires Valid()
      ensures elemTail == elemHead ==> res == -ENOENT
      ensures elemTail != elemHead ==> And(elemHead, elemMask) < elems.Length && res == elems[And(elemHead, elemMask)]
    {
      hide IsPow2, And;
      if elemTail == elemHead { return -ENOENT; }
      return elems[And(elemHead, elemMask)];
    }

    /** `eq_peek_offset`: where the head element starts, and its length. */
    method PeekOffset() returns (res: int, len: nat)
      requires Valid()
      ensures elemTail == elemHead ==> res == -ENOENT
      ensures elemTail != elemHead ==>
                && And(elemHead, elemMask) < elems.Length && len == elems[And(elemHead, elemMask)]
                && res == ReadCursors(View(), len).0
    {
      hide IsPow2, And, Mod;
      len := 0;
      if elemTail == elemHead { return -ENOENT, 0; }
      len := elems[And(elemHead, elemMask)];
      var offset := NextOffsetWord(bufHead, bufMask, AndNot(Word(len + 7), 7));
      return And(offset, bufMask), len;
    }

    /** `eq_read`: take the head element. */
    method Read() returns (res: int, len: nat)
      requires Valid()
      modifies this
      ensures old(elemTail) == old(elemHead) ==> res == -EAGAIN && View() == old(View())
      ensures old(elemTail) != old(elemHead) ==>
                && And(old(elemHead), elemMask) < elems.Length && len == elems[And(old(elemHead), elemMask)]
                && (res, View()) == ReadCursors(old(View()), len)
    {
      hide IsPow2, And, Mod;
      len := 0;
      if elemTail == elemHead { return -EAGAIN, 0; }
      len := elems[And(elemHead, elemMask)];
      elemHead := Word(elemHead + 1);
      var alignedLen := AndNot(Word(len + 7), 7);
      var offset := NextOffsetWord(bufHead, bufMask, alignedLen);
      bufHead := Word(offset + alignedLen);
      return And(offset, bufMask), len;
    }

    /** `eq_finish_read_batch`: release what was read, element head last. */
    method FinishReadBatch()
      modifies shared
      ensures shared.View() == old(shared.View()).(bufHead := bufHead, elemHead := elemHead)
    {
      shared.bufHead := bufHead;
      shared.elemHead := elemHead;
    }

    /** `ElementQueue::write`: claim space and copy the payload there. */
    method WriteBytes(bytes: seq<Byte>) returns (res: int)
      requires Valid() && |bytes| <= U32 - 8
      modifies this, elems, data
      ensures res < 0 ==> View() == old(View()) && elems[..] == old(elems[..]) && data[..] == old(data[..])
      ensures match WriteCursors(old(View()), |bytes|)
              case Invalid => res == -EINVAL
              case NoSpace => res == -ENOSPC
              case Placed(offset, slot, next) =>
                && res == 0 && View() == next && slot < elems.Length && offset + |bytes| <= data.Length
                && elems[..] == old(elems[..])[slot := |bytes|]
                && data[..] == Splice(old(data[..]), offset, bytes)
    {
      hide IsPow2, And, Mod, WriteCursors, Word;
      var offset := Write(|bytes|);
      if offset < 0 { return offset; }
      WriteInside(old(View()), |bytes|);
      Memcpy(data, offset, bytes);
      return 0;
    }

    /** `ElementQueue::read`: `None` stands for the exception thrown on an empty queue. */
    method ReadBytes() returns (bytes: Option<seq<Byte>>)
      requires Valid() && HeadFits()
      modifies this
      ensures bytes.None? <==> old(elemTail) == old(elemHead)
      ensures bytes.None? ==> View() == old(View())
      ensures bytes.Some? ==>
                && And(old(elemHead), elemMask) < elems.Length
                && var len := elems[And(old(elemHead), elemMask)];
                   var (offset, next) := ReadCursors(old(View()), len);
                   View() == next && offset + len <= data.Length && bytes.value == data[offset..offset + len]
    {
      hide IsPow2, And, Mod, ReadCursors;
      var offset, len := Read();
      if offset < 0 { return None; }
      ReadInside(old(View()), len);
      return Some(data[offset..offset + len]);
    }

    /** The reader trusts that the stored length passed the writer's size check. */
    predicate HeadFits()
      reads this, elems
      requires Valid()
    {
      elemTail != elemHead ==>
        And(elemHead, elemMask) < elems.Length && Align8(elems[And(elemHead, elemMask)]) <= bufMask
    }

    /** `eq_move`: move the head element of `from` to the tail of this queue, or change nothing. */
    method MoveFrom(from: ElementQueue) returns (res: int)
      requires Valid() && from.Valid() && from.HeadFits()
      requires this != from && Arrays() !! from.Arrays()
      modifies this, elems, data, from
      ensures res < 0 ==> View() == old(View()) && from.View() == old(from.View())
      ensures res < 0 ==> elems[..] == old(elems[..]) && data[..] == old(data[..])
      ensures old(from.elemTail) == old(from.elemHead) ==> res == -ENOENT
      ensures old(from.elemTail) != old(from.elemHead) ==>
                && And(old(from.elemHead), from.elemMask) < from.elems.Length
                && var len := from.elems[And(old(from.elemHead), from.elemMask)];
                   var (src, after) := ReadCursors(old(from.View()), len);
                   match WriteCursors(old(View()), len)
                   case Invalid => res == -ENOSYS
                   case NoSpace => res == -ENOSPC
                   case Placed(dst, slot, next) =>
                     && res == len && View() == next && from.View() == after
                     && slot < elems.Length && elems[..] == old(elems[..])[slot := len]
                     && src + len <= from.data.Length && dst + len <= data.Length
                     && data[..] == Splice(old(data[..]), dst, from.data[src..src + len])
    {
      hide IsPow2, And, Mod, ReadCursors, WriteCursors, Align8, Word;
      var peekLen := from.Peek();
      if peekLen < 0 { return -ENOENT; }
      assert Align8(peekLen) <= from.bufMask;
      var dst := Write(peekLen);
      if dst == -ENOSPC { return -ENOSPC; } else if dst < 0 { return -ENOSYS; }
      var src, len := from.Read();
      ReadInside(old(from.View()), len);
      WriteInside(old(View()), len);
      Memcpy(data, dst, from.data[src..src + len]);
      return len;
    }
  }

  /** The pause after the i-th refusal, in units of the retry interval: doubling, up to the limit. */
  function Backoff(i: nat): nat {
    if i >= 9 then 512 else Pow2(i)
  }

  lemma BackoffStep(i: nat)
    ensures Backoff(i + 1) == if 2 * Backoff(i) > 512 then 512 else 2 * Backoff(i)
  {
    Pow2Small();
    if i < 9 { Pow2Monotone(i, 8); }
  }

  /** The cursors of a writer that has just loaded the given heads. */
  function WithHeads(w: Cursors, heads: (nat, nat)): Cursors {
    w.(elemHead := heads.0, bufHead := heads.1)
  }

  class ElementQueueWriter {
    const queue: ElementQueue
    var numWriteStalls: nat

    constructor (queue: ElementQueue)
      ensures this.queue == queue && numWriteStalls == 0
    {
      this.queue := queue;
      numWriteStalls := 0;
    }

    /**
     * `start_write`: retry until there is space. The reader runs while the
     * writer sleeps; `published[i]` are the heads it has published by the time
     * the i-th write batch starts. The loop leaves at the first batch that is
     * not refused for lack of space, which must come for it to end.
     */
    method StartWrite(len: nat, published: seq<(nat, nat)>) returns (res: int, naps: seq<nat>)
      requires queue.Valid() && len < U32
      requires forall i :: 0 <= i < |published| ==> published[i].0 < U32 && published[i].1 < U32
      requires exists i :: 0 <= i < |published| && !WriteCursors(WithHeads(queue.View(), published[i]), len).NoSpace?
      modifies this, queue, queue.shared, queue.elems
      ensures |naps| < |published| && numWriteStalls == old(numWriteStalls) + |naps|
      ensures forall i :: 0 <= i < |naps| ==> naps[i] == 1000 * Backoff(i)
      ensures forall i :: 0 <= i < |naps| ==> WriteCursors(WithHeads(old(queue.View()), published[i]), len).NoSpace?
      ensures var w := WithHeads(old(queue.View()), published[|naps|]);
              !WriteCursors(w, len).NoSpace? && Claimed(w, old(queue.elems[..]), len, res, queue.View(),
                  queue.elems[..])
    {
      hide WriteCursors, IsPow2, Pow2, And, Mod, Word, Claimed;
      ghost var w, elems := queue.View(), queue.elems[..];
      ghost var first :| 0 <= first < |published| && !WriteCursors(WithHeads(w, published[first]), len).NoSpace?;
      naps := [];
      res := Attempt(len, published[0]);
      var backoff := 1;
      assert Backoff(0) == 1 by { BackoffStart(); }
      while res == -ENOSPC
        invariant |naps| <= first && backoff == Backoff(|naps|)
        invariant numWriteStalls == old(numWriteStalls) + |naps|
        invariant forall i :: 0 <= i < |naps| ==> naps[i] == 1000 * Backoff(i)
        invariant forall i :: 0 <= i < |naps| ==> WriteCursors(WithHeads(w, published[i]), len).NoSpace?
        invariant queue.Valid()
        invariant Claimed(WithHeads(w, published[|naps|]), elems, len, res, queue.View(), queue.elems[..])
        decreases first - |naps|
      {
        ClaimedCode(WithHeads(w, published[|naps|]), elems, len, res, queue.View(), queue.elems[..]);
        queue.FinishWriteBatch();
        BackoffStep(|naps|);
        naps := naps + [1000 * backoff];
        backoff := 2 * backoff;
        if backoff > 512 {
          backoff := 512;
        }
        numWriteStalls := numWriteStalls + 1;
        res := Attempt(len, published[|naps|]);
      }
      ClaimedCode(WithHeads(w, published[|naps|]), elems, len, res, queue.View(), queue.elems[..]);
    }

    /** Start a write batch when the reader has published the given heads, and try to claim space. */
    method Attempt(len: nat, heads: (nat, nat)) returns (res: int)
      requires queue.Valid() && len < U32 && heads.0 < U32 && heads.1 < U32
      modifies queue, queue.shared, queue.elems
      ensures queue.Valid()
      ensures Claimed(WithHeads(old(queue.View()), heads), old(queue.elems[..]), len, res, queue.View(),
          queue.elems[..])
    {
      hide IsPow2, Claimed;
      queue.shared.elemHead, queue.shared.bufHead := heads.0, heads.1;
      queue.StartWriteBatch();
      assert queue.View() == WithHeads(old(queue.View()), heads);
      res := queue.Write(len);
    }
  }

  lemma ClaimedCode(w: Cursors, elems: seq<nat>, len: nat, res: int, w': Cursors, elems': seq<nat>)
    requires Claimed(w, elems, len, res, w', elems')
    ensures res == -ENOSPC <==> WriteCursors(w, len).NoSpace?
    ensures res == -ENOSPC ==> w' == w && elems' == elems
  {
    hide WriteCursors;
  }

  lemma BackoffStart()
    ensures Backoff(0) == 1
  {}

  /** A published pair of heads that equals the writer's tails ends the retry loop for half-buffer elements. */
  lemma RetryEnds(w: Cursors, len: nat)
    requires ValidSizes(w.elemMask + 1, w.bufMask + 1) && w.elemTail < U32 && w.bufTail < U32
    requires len <= U32 - 8 && 2 * Align8(len) <= w.bufMask + 1
    ensures WriteCursors(WithHeads(w, (w.elemTail, w.bufTail)), len).Placed?
  {
    hide WriteCursors, IsPow2, And, Mod, Word, Align8;
    HalfAlwaysFits(WithHeads(w, (w.elemTail, w.bufTail)), len);
  }

  /** Whatever the cursors, a claimed run lies inside the buffer. */
  lemma WriteInside(w: Cursors, len: nat)
    requires ValidSizes(w.elemMask + 1, w.bufMask + 1) && w.bufTail < U32 && len <= U32 - 8
    requires WriteCursors(w, len).Placed?
    ensures WriteCursors(w, len).offset + len <= w.bufMask + 1
  {
    hide IsPow2, Mod, And, NextOffset, Align8;
    Align8WordExact(len);
    NextOffsetWordCorrect(w.bufTail, w.bufMask + 1, Align8(len));
    WordMask(NextOffset(w.bufTail, w.bufMask + 1, Align8(len)), w.bufMask + 1);
  }

  /** Whatever the cursors, an element that passed the writer's size check is read inside the buffer. */
  lemma ReadInside(r: Cursors, len: nat)
    requires ValidSizes(r.elemMask + 1, r.bufMask + 1) && r.bufHead < U32 && Align8(len) <= r.bufMask
    ensures ReadCursors(r, len).0 + len <= r.bufMask + 1
  {
    hide IsPow2, Mod, And, NextOffset, Align8;
    Align8WordExact(len);
    NextOffsetWordCorrect(r.bufHead, r.bufMask + 1, Align8(len));
    WordMask(NextOffset(r.bufHead, r.bufMask + 1, Align8(len)), r.bufMask + 1);
  }
}

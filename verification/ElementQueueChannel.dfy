/**
 * A writer and a reader object over one shared block (util/element_queue.h,
 * util/element_queue_cpp.h), tied to a state of the protocol: every call keeps
 * the pair reachable, so what holds of all runs holds of the objects.
 */
module ElementQueueChannel {
  import opened Bits
  import opened Common
  import opened ElementQueueLayout
  import opened ElementQueueProtocol
  import opened ElementQueueTheorems
  import opened ElementQueueImpl

  /** In a reachable state the cursors are words, and the arrays have the sizes of the masks. */
  lemma WordsInRange(n: nat, b: nat, c: Queue, h: History)
    requires ValidSizes(n, b) && Reachable(n, b, c, h)
    ensures c.w.elemHead < U32 && c.w.bufHead < U32 && c.w.elemTail < U32 && c.w.bufTail < U32
    ensures c.r.elemHead < U32 && c.r.bufHead < U32 && c.r.elemTail < U32
  {
    hide Run, IsPow2, Slots, Live, Laid, Word, And, Mod, Calls;
    ReachableInv(n, b, c, h);
    LaidShape(h, b);
  }

  /** The length the reader is about to load passed the writer's size check. */
  lemma HeadLengthFits(n: nat, b: nat, c: Queue, h: History)
    requires ValidSizes(n, b) && Reachable(n, b, c, h) && c.r.elemTail != c.r.elemHead
    ensures And(c.r.elemHead, c.r.elemMask) < |c.elems| && h.rd < |h.written|
    ensures c.elems[And(c.r.elemHead, c.r.elemMask)] == |h.written[h.rd]| <= U32 - 8
    ensures Align8(|h.written[h.rd]|) <= c.r.bufMask
  {
    hide Run, IsPow2, Live, Word, And, Mod, Calls, Align8, NextOffset, Space;
    ReachableInv(n, b, c, h);
    EmptyExactly(n, b, c, h);
    WordMask(h.rd, n);
    assert SlotHolds(c, h, n, h.rd);
    assert Chained(h, b, h.rd);
  }

  function EndOf(h: History, i: nat): nat {
    if i < |h.ends| then h.ends[i] else 0
  }

  /**
   * The code for a write of `len` bytes after some history, by unbounded
   * positions: too long for the buffer, no slot or no room left among the
   * elements not known to be released, or accepted.
   */
  function Admits(n: nat, b: nat, h: History, len: nat): int
    requires b > 0
  {
    var size := Align8(len);
    var start := NextOffset(EndOf(h, |h.written|), b, size);
    if size >= b then -EINVAL
    else if |h.written| - h.wElem >= n || start + size - EndOf(h, h.wBuf) > b then -ENOSPC
    else 0
  }

  /** In a reachable state the cursor words decide by the history. */
  lemma DecidedByHistory(n: nat, b: nat, c: Queue, h: History, len: nat)
    requires ValidSizes(n, b) && Reachable(n, b, c, h) && len <= U32 - 8
    ensures Admits(n, b, h, len) ==
            match WriteCursors(c.w, len) case Invalid => -EINVAL case NoSpace => -ENOSPC case Placed(_, _, _) => 0
  {
    hide Run, IsPow2, Live, Word, And, Mod, Calls, Slots, Align8, NextOffset, WriteCursors;
    ReachableInv(n, b, c, h);
    LaidMonotone(h, b, h.wBuf, |h.written|);
    WriteDecision(c.w, n, b, |h.written|, h.wElem, h.ends[|h.written|], h.ends[h.wBuf], len);
  }

  class Channel {
    const n: nat
    const b: nat
    const shared: SharedBlock
    const elems: array<nat>
    const data: array<Byte>
    const writer: ElementQueue
    const reader: ElementQueue
    /** The protocol state the objects are in, and what led there. */
    ghost var c: Queue
    ghost var h: History

    /** One shared block and two arrays under two different structs. */
    ghost predicate Wired() {
      && ValidSizes(n, b) && writer != reader
      && writer.shared == reader.shared == shared
      && writer.elems == reader.elems == elems && writer.data == reader.data == data
      && elems.Length == n && data.Length == b && elems as object != data
      && writer.elemMask == reader.elemMask == n - 1 && writer.bufMask == reader.bufMask == b - 1
    }

    /** The objects hold what the state says. */
    ghost predicate Shows(c: Queue)
      reads writer, reader, shared, elems, data
    {
      && Wired() && c.shared == shared.View() && c.elems == elems[..] && c.data == data[..]
      && c.w == writer.View() && c.r == reader.View() && reader.bufTail < U32
    }

    ghost predicate Valid()
      reads this, writer, reader, shared, elems, data
    {
      Shows(c) && Reachable(n, b, c, h)
    }

    /** Writer and reader attached to zeroed shared memory. */
    constructor (n: nat, b: nat)
      requires ValidSizes(n, b)
      ensures Valid() && this.n == n && this.b == b && h == NoHistory && c.wpc.WIdle? && c.rpc.RIdle?
      ensures fresh(writer) && fresh(reader) && fresh(shared) && fresh(elems) && fresh(data)
    {
      hide IsPow2, Reachable;
      var block := new SharedBlock();
      var lengths := new nat[n];
      var bytes := new Byte[b];
      var w := new ElementQueue(n, b, block, lengths, bytes);
      var r := new ElementQueue(n, b, block, lengths, bytes);
      this.n, this.b, shared, elems, data, writer, reader := n, b, block, lengths, bytes, w, r;
      c := Queue(block.View(), lengths[..], bytes[..], w.View(), WIdle, r.View(), RIdle, [], [], []);
      h := NoHistory;
      new;
      SizesAreWords(n, b);
      Start0(n, b, c);
    }

    /** What has been delivered is always an in-order prefix of what was accepted. */
    lemma Delivered()
      requires Valid()
      ensures c.output <= h.written
    {
      hide Reachable;
      FifoDelivery(n, b, c, h);
    }

    method StartWriteBatch()
      requires Valid() && c.wpc.WIdle?
      modifies this, writer
      ensures Valid() && c.wpc.WBatch? && c.rpc == old(c.rpc) && c.output == old(c.output)
      ensures h == old(h).(wElem := old(h.sElem), wBuf := old(h.sBuf))
    {
      hide Reachable, ValidSizes, Inv;
      ghost var c1, h1 := Take(n, b, c, h, WLoadElemHead);
      c, h := Take(n, b, c1, h1, WLoadBufHead);
      writer.StartWriteBatch();
    }

    /** A write is accepted exactly when the history leaves room, and otherwise changes nothing. */
    method Write(bytes: seq<Byte>) returns (res: int)
      requires Valid() && c.wpc.WBatch? && |bytes| <= U32 - 8
      modifies this, writer, elems, data
      ensures Valid() && c.wpc.WBatch? && c.rpc == old(c.rpc) && c.output == old(c.output)
      ensures res == Admits(n, b, old(h), |bytes|)
      ensures res == 0 ==> h.written == old(h.written) + [bytes]
      ensures res != 0 ==> h == old(h)
    {
      hide Reachable, ValidSizes, Inv, WriteCursors, Admits;
      WordsInRange(n, b, c, h);
      DecidedByHistory(n, b, c, h, |bytes|);
      ghost var c0 := c;
      if WriteCursors(c.w, |bytes|).Placed? {
        ghost var h1 := WholeWrite(n, b, c, h, bytes);
        var placed := WriteCursors(c0.w, |bytes|);
        c := c0.(w := placed.next, elems := c0.elems[placed.slot := |bytes|],
                 data := Splice(c0.data, placed.offset, bytes), placed := c0.placed + [placed.offset]);
        h := h1;
      }
      res := writer.WriteBytes(bytes);
    }

    method FinishWriteBatch()
      requires Valid() && c.wpc.WBatch?
      modifies this, shared
      ensures Valid() && c.wpc.WIdle? && c.rpc == old(c.rpc) && c.output == old(c.output)
      ensures h == old(h).(sTail := |old(h.written)|)
    {
      hide Reachable, ValidSizes, Inv;
      ghost var c1, h1 := Take(n, b, c, h, WStoreBufTail);
      c, h := Take(n, b, c1, h1, WStoreElemTail);
      writer.FinishWriteBatch();
    }

    method StartReadBatch()
      requires Valid() && c.rpc.RIdle?
      modifies this, reader
      ensures Valid() && c.rpc.RBatch? && c.wpc == old(c.wpc) && c.output == old(c.output)
      ensures h == old(h).(rTail := old(h.sTail))
    {
      hide Reachable, ValidSizes, Inv;
      c, h := Take(n, b, c, h, RLoadElemTail);
      reader.StartReadBatch();
    }

    /** A read returns the oldest accepted element not yet read, byte for byte, or nothing when the batch is read. */
    method Read() returns (bytes: Option<seq<Byte>>)
      requires Valid() && c.rpc.RBatch?
      modifies this, reader
      ensures Valid() && c.rpc.RBatch? && c.wpc == old(c.wpc)
      ensures bytes.None? <==> old(h.rd) == old(h.rTail)
      ensures bytes.None? ==> h == old(h) && c.output == old(c.output)
      ensures bytes.Some? ==> old(h.rd) < |h.written| && bytes.value == h.written[old(h.rd)]
      ensures bytes.Some? ==> h == old(h).(rd := old(h.rd) + 1) && c.output == old(c.output) + [bytes.value]
    {
      hide Reachable, ValidSizes, Inv, ReadCursors, And, Align8;
      WordsInRange(n, b, c, h);
      EmptyExactly(n, b, c, h);
      ghost var c0 := c;
      if reader.elemTail != reader.elemHead {
        HeadLengthFits(n, b, c, h);
        WholeRead(n, b, c, h);
        ghost var len := c0.elems[And(c0.r.elemHead, c0.r.elemMask)];
        ghost var (offset, next) := ReadCursors(c0.r, len);
        c := c0.(r := next, found := c0.found + [offset], output := c0.output + [c0.data[offset..offset + len]]);
        h := h.(rd := h.rd + 1);
        ReadKeepsTail(c0.r, len);
      }
      bytes := reader.ReadBytes();
    }

    /** The two channels have no struct and no array in common. */
    ghost predicate Apart(to: Channel) {
      && this != to && reader != to.writer && reader != to.reader && writer != to.writer
      && elems != to.elems && data != to.data && elems as object != to.data && data as object != to.elems
    }

    /** The call logs are not part of what the objects show. */
    lemma SameShow(c1: Queue, c2: Queue)
      requires Shows(c1) && c2 == c1.(found := c2.found, output := c2.output, placed := c2.placed)
      ensures Shows(c2)
    {}

    /** A reader in a reachable state is a valid struct, and its head element fits the buffer. */
    lemma ReadyToRead()
      requires Valid()
      ensures reader.Valid() && reader.HeadFits() && reader.View() == c.r && Wired()
    {
      hide Reachable, And, Align8;
      WordsInRange(n, b, c, h);
      if c.r.elemTail != c.r.elemHead { HeadLengthFits(n, b, c, h); }
    }

    lemma ReadyToWrite()
      requires Valid()
      ensures writer.Valid() && Wired()
    {
      hide Reachable, IsPow2;
      WordsInRange(n, b, c, h);
    }

    /** The move on the objects alone: the head element of state `c0` goes to the tail of state `d0`. */
    method MoveObjects(to: Channel, ghost c0: Queue, ghost d0: Queue) returns (res: int)
      requires Shows(c0) && to.Shows(d0) && Apart(to)
      requires reader.Valid() && to.writer.Valid() && reader.HeadFits()
      modifies reader, to.writer, to.elems, to.data
      ensures c0.r.elemTail == c0.r.elemHead <==> res == -ENOENT
      ensures res < 0 ==> Shows(c0) && to.Shows(d0)
      ensures res != -ENOENT ==> And(c0.r.elemHead, c0.r.elemMask) < |c0.elems|
      ensures res != -ENOENT ==>
                var len := c0.elems[And(c0.r.elemHead, c0.r.elemMask)];
                res == match WriteCursors(d0.w, len) case Invalid => -ENOSYS case NoSpace => -ENOSPC case _ => len
      ensures res >= 0 ==>
                var len := c0.elems[And(c0.r.elemHead, c0.r.elemMask)];
                var (offset, next), placed := ReadCursors(c0.r, len), WriteCursors(d0.w, len);
                && res == len && placed.Placed? && Shows(c0.(r := next))
                && placed.slot < |d0.elems| && offset + len <= |c0.data| && placed.offset + len <= |d0.data|
                && to.Shows(d0.(w := placed.next, elems := d0.elems[placed.slot := len],
                                data := Splice(d0.data, placed.offset, c0.data[offset..offset + len])))
    {
      hide ValidSizes, ReadCursors, WriteCursors, And, Align8;
      res := to.writer.MoveFrom(reader);
      if res >= 0 { ReadKeepsTail(c0.r, c0.elems[And(c0.r.elemHead, c0.r.elemMask)]); }
    }

    /**
     * Moving an element to another channel: it leaves here and arrives there
     * whole, exactly when the history there leaves room; otherwise both stay as
     * they are.
     */
    method MoveTo(to: Channel) returns (res: int)
      requires Valid() && to.Valid() && Apart(to) && c.rpc.RBatch? && to.c.wpc.WBatch?
      modifies this, reader, to, to.writer, to.elems, to.data
      ensures Valid() && to.Valid() && c.rpc.RBatch? && to.c.wpc.WBatch?
      ensures old(h.rd) == old(h.rTail) <==> res == -ENOENT
      ensures res < 0 ==> h == old(h) && to.h == old(to.h)
      ensures res != -ENOENT ==> old(h.rd) < |h.written|
      ensures res != -ENOENT ==>
                var len := |h.written[old(h.rd)]|;
                var code := Admits(to.n, to.b, old(to.h), len);
                res == if code == -EINVAL then -ENOSYS else if code == -ENOSPC then -ENOSPC else len
      ensures res >= 0 ==> h == old(h).(rd := old(h.rd) + 1)
      ensures res >= 0 ==> to.h.written == old(to.h.written) + [h.written[old(h.rd)]]
    {
      hide Reachable, ValidSizes, Inv, ReadCursors, WriteCursors, And, Align8, AfterRead, Shows, Admits;
      ghost var c0, h0, d0, g0 := c, h, to.c, to.h;
      ReadyToRead();
      to.ReadyToWrite();
      EmptyExactly(n, b, c0, h0);
      if c0.r.elemTail != c0.r.elemHead {
        HeadLengthFits(n, b, c0, h0);
        DecidedByHistory(to.n, to.b, d0, g0, |h0.written[h0.rd]|);
      }
      res := MoveObjects(to, c0, d0);
      if res >= 0 {
        c := AfterRead(c0);
        h := h0.(rd := h0.rd + 1);
        to.c, to.h := MoveArrives(n, b, c0, h0, to.n, to.b, d0, g0);
        SameShow(c0.(r := c.r), c);
        to.SameShow(to.c.(placed := d0.placed), to.c);
      }
    }

    method FinishReadBatch()
      requires Valid() && c.rpc.RBatch?
      modifies this, shared
      ensures Valid() && c.rpc.RIdle? && c.wpc == old(c.wpc) && c.output == old(c.output)
      ensures h == old(h).(sBuf := old(h.rd), sElem := old(h.rd))
    {
      hide Reachable, ValidSizes, Inv;
      ghost var c1, h1 := Take(n, b, c, h, RStoreBufHead);
      c, h := Take(n, b, c1, h1, RStoreElemHead);
      reader.FinishReadBatch();
    }
  }

  /** The state after the reader has taken its head element. */
  ghost function AfterRead(c: Queue): Queue
    requires And(c.r.elemHead, c.r.elemMask) < |c.elems|
  {
    var len := c.elems[And(c.r.elemHead, c.r.elemMask)];
    var (offset, next) := ReadCursors(c.r, len);
    if offset + len <= |c.data|
    then c.(r := next, found := c.found + [offset], output := c.output + [c.data[offset..offset + len]]) else c
  }

  /** A move is a read on one queue and a write of the same bytes on the other. */
  lemma MoveArrives(n: nat, b: nat, c: Queue, h: History, m: nat, a: nat, d: Queue, g: History)
    returns (d': Queue, g': History)
    requires ValidSizes(n, b) && Reachable(n, b, c, h) && c.rpc.RBatch? && c.r.elemTail != c.r.elemHead
    requires ValidSizes(m, a) && Reachable(m, a, d, g) && d.wpc.WBatch?
    requires h.rd < |h.written| && WriteCursors(d.w, |h.written[h.rd]|).Placed? && |h.written[h.rd]| <= U32 - 8
    requires And(c.r.elemHead, c.r.elemMask) < |c.elems|
    ensures Reachable(n, b, AfterRead(c), h.(rd := h.rd + 1)) && AfterRead(c).r.bufTail == c.r.bufTail
    ensures AfterRead(c) == c.(r := AfterRead(c).r, found := AfterRead(c).found, output := AfterRead(c).output)
    ensures AfterRead(c).r == ReadCursors(c.r, c.elems[And(c.r.elemHead, c.r.elemMask)]).1
    ensures Reachable(m, a, d', g') && g'.written == g.written + [h.written[h.rd]]
    ensures var res, bytes := WriteCursors(d.w, |h.written[h.rd]|), h.written[h.rd];
            && res.slot < |d.elems| && res.offset + |bytes| <= |d.data|
            && d' == d.(w := res.next, elems := d.elems[res.slot := |bytes|],
                        data := Splice(d.data, res.offset, bytes), placed := d.placed + [res.offset])
    ensures var len := c.elems[And(c.r.elemHead, c.r.elemMask)];
            var offset := ReadCursors(c.r, len).0;
            offset + len <= |c.data| && c.data[offset..offset + len] == h.written[h.rd]
  {
    hide Reachable, ValidSizes, Inv, ReadCursors, WriteCursors, And;
    WholeRead(n, b, c, h);
    ReadKeepsTail(c.r, c.elems[And(c.r.elemHead, c.r.elemMask)]);
    var bytes := h.written[h.rd];
    g' := WholeWrite(m, a, d, g, bytes);
    var res := WriteCursors(d.w, |bytes|);
    d' := d.(w := res.next, elems := d.elems[res.slot := |bytes|],
             data := Splice(d.data, res.offset, bytes), placed := d.placed + [res.offset]);
  }

  lemma ReadKeepsTail(r: Cursors, len: nat)
    ensures var next := ReadCursors(r, len).1; next.bufTail == r.bufTail && next.elemTail == r.elemTail
  {}

  lemma SizesAreWords(n: nat, b: nat)
    requires ValidSizes(n, b)
    ensures Word(n - 1) == n - 1 && Word(b - 1) == b - 1
  {}
}

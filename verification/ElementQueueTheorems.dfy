/**
 * What every run of the element queue guarantees: first-in first-out delivery,
 * no overwriting of elements still held by the reader, agreement of the two
 * sides on offsets, and progress once the reader has drained the queue.
 */
module ElementQueueTheorems {
  import opened Bits
  import opened Common
  import opened ElementQueueLayout
  import opened ElementQueueProtocol

  lemma ReachableInv(n: nat, b: nat, c: Queue, h: History)
    requires ValidSizes(n, b) && Reachable(n, b, c, h)
    ensures Inv(c, h, n, b)
  {
    hide Inv, Run;
    var acts :| Run(n, b, acts, c, h);
    RunInv(n, b, acts, c, h);
  }

  /** The byte strings read are an in-order prefix of those accepted, at the offsets the writer was given. */
  lemma FifoDelivery(n: nat, b: nat, c: Queue, h: History)
    requires ValidSizes(n, b) && Reachable(n, b, c, h)
    ensures c.output <= h.written
    ensures c.found <= c.placed
    ensures |c.output| == h.rd || (c.rpc.RCopying? && |c.output| == h.rd - 1)
  {
    hide Run, Mod, Word, IsPow2, NextOffset, Align8, Words, Live, Slots, Laid;
    ReachableInv(n, b, c, h);
  }

  /**
   * Until the reader publishes its head, every complete element it has not yet
   * released sits unharmed in one aligned run of the buffer: those handed out
   * in the current read batch as well as those still waiting.
   */
  lemma NeverOverwritten(n: nat, b: nat, c: Queue, h: History, i: nat)
    requires ValidSizes(n, b) && Reachable(n, b, c, h)
    requires h.sBuf <= i < h.sTail
    ensures i < |h.written| == |c.placed|
    ensures c.placed[i] % 8 == 0
    ensures c.placed[i] + |h.written[i]| <= |c.data|
    ensures c.data[c.placed[i]..c.placed[i] + |h.written[i]|] == h.written[i]
  {
    hide Run, Mod, Word, IsPow2, NextOffset, Align8, Words, Slots, Calls, Space;
    ReachableInv(n, b, c, h);
    assert c.placed[i] == Mod(h.starts[i], b) && |c.placed| == |h.written| by { CallsPlaced(c, h, b, i); }
    assert Intact(c, h, b, i);
    LaidBounds(h, b, i);
    LaidAligned(h, b, i);
    forall k | 0 <= k < |h.written[i]| ensures c.data[c.placed[i] + k] == h.written[i][k] {
      assert ByteHolds(c, h, b, i, k);
      LaidContiguous(h, b, i, k);
    }
  }

  lemma CallsPlaced(c: Queue, h: History, b: nat, i: nat)
    requires b > 0 && Ordered(c, h) && |h.written| == |h.starts| && Calls(c, h, b) && i < |h.written|
    ensures |c.placed| == |h.written| && c.placed[i] == Mod(h.starts[i], b)
  {}

  lemma LaidBounds(h: History, b: nat, i: nat)
    requires b > 0 && Laid(h, b) && i < |h.written|
    ensures Mod(h.starts[i], b) + |h.written[i]| <= b
  {
    hide Mod;
    assert Chained(h, b, i);
  }

  lemma LaidAligned(h: History, b: nat, i: nat)
    requires ValidBuf(b) && Laid(h, b) && i < |h.written|
    ensures Mod(h.starts[i], b) % 8 == 0
  {
    hide Mod, IsPow2, End, NextOffset;
    assert Fits(Lens(h.written), b) by {
      forall j | 0 <= j < |h.written| ensures Align8(Lens(h.written)[j]) < b { assert Chained(h, b, j); }
    }
    LaidIsLayout(h, b, i);
    Aligned(Lens(h.written), b, i);
    OffsetAligned(h.starts[i], b);
  }

  /** The buffer offset of an aligned position is aligned, also when the buffer is shorter than eight bytes. */
  lemma OffsetAligned(x: nat, b: nat)
    requires ValidBuf(b) && x % 8 == 0
    ensures Mod(x, b) % 8 == 0
  {
    hide Mod, IsPow2;
    EightIsPow2();
    ModIsRemainder(x, 8);
    if b >= 8 {
      Pow2Divides(8, b);
      ModOfMod(x, b, 8);
      ModIsRemainder(Mod(x, b), 8);
    } else {
      Pow2Divides(b, 8);
      ModOfMod(x, 8, b);
    }
  }

  /** Occupancy, in elements and in bytes, never exceeds either capacity. */
  lemma Occupancy(n: nat, b: nat, c: Queue, h: History)
    requires ValidSizes(n, b) && Reachable(n, b, c, h)
    ensures |h.written| - h.sElem <= n
    ensures h.sBuf <= |h.written|
    ensures EndAt(Lens(h.written), b, |h.written|) - EndAt(Lens(h.written), b, h.sBuf) <= b
  {
    hide Run, Mod, Word, IsPow2, NextOffset, Align8, Words, Slots, Live, Laid, Calls, End;
    ReachableInv(n, b, c, h);
    LaidShape(h, b);
    LaidMonotone(h, b, h.wBuf, h.sBuf);
    LaidIsLayout(h, b, |h.written|);
    LaidIsLayout(h, b, h.sBuf);
  }

  /** Two unreleased elements share no byte of the buffer. */
  lemma PairwiseDisjoint(n: nat, b: nat, c: Queue, h: History, i: nat, j: nat, k: nat, l: nat)
    requires ValidSizes(n, b) && Reachable(n, b, c, h)
    requires h.sBuf <= i < j < |h.written| && k < |h.written[i]| && l < |h.written[j]|
    ensures |c.placed| == |h.written| && c.placed[i] + k != c.placed[j] + l
  {
    hide Run, Mod, Word, IsPow2, NextOffset, Align8, Words, Slots, Live, Laid, Calls, Space;
    ReachableInv(n, b, c, h);
    LaidShape(h, b);
    CallsPlaced(c, h, b, i);
    CallsPlaced(c, h, b, j);
    LaidContiguous(h, b, i, k);
    LaidContiguous(h, b, j, l);
    LaidDisjoint(h, n, b, i, j, k, l);
  }

  lemma LaidShape(h: History, b: nat)
    requires b > 0 && Laid(h, b)
    ensures |h.ends| == |h.written| + 1 && |h.starts| == |h.written|
  {}

  /** No step of a run touches memory outside the two arrays. */
  lemma InBounds(n: nat, b: nat, c: Queue, h: History)
    requires ValidSizes(n, b) && Reachable(n, b, c, h)
    ensures And(c.w.elemTail, c.w.elemMask) < |c.elems| && And(c.r.elemHead, c.r.elemMask) < |c.elems|
    ensures Enabled(c, WCopyByte) ==> c.wpc.wOffset + c.wpc.done < |c.data|
    ensures Enabled(c, RCopyByte) ==> c.rpc.rOffset + |c.rpc.got| < |c.data|
  {
    hide Run, And, Mod, Word, IsPow2, NextOffset, Align8, Words, Slots, Live, Laid, Calls, Next;
    ReachableInv(n, b, c, h);
    if Enabled(c, WCopyByte) { CopyStep(c, h, n, b); }
    if Enabled(c, RCopyByte) { CopyOutStep(c, h, n, b); }
  }

  /** The reader finds its batch empty exactly when it has read everything that was published to it. */
  lemma EmptyExactly(n: nat, b: nat, c: Queue, h: History)
    requires ValidSizes(n, b) && Reachable(n, b, c, h)
    ensures c.r.elemTail == c.r.elemHead <==> h.rd == h.rTail
  {
    hide Run, And, Mod, Word, IsPow2, NextOffset, Align8, Slots, Live, Laid, Calls;
    ReachableInv(n, b, c, h);
    assert |h.ends| == |h.written| + 1 by { LaidShape(h, b); }
    if h.rd < h.rTail { WordDistinct(h.rd, h.rTail); }
  }

  lemma WordDistinct(x: nat, y: nat)
    requires x < y < x + U32
    ensures Word(x) != Word(y)
  {
    ModDistinct(x, y, U32);
  }

  // ---------------------------------------------------------------- progress

  /** The writer has loaded heads that equal its own tails. */
  predicate Drained(w: Cursors) {
    w.elemHead == w.elemTail < U32 && w.bufHead == w.bufTail < U32
  }

  /** A drained writer is granted exactly the elements that fit after its cursor, or before it. */
  lemma DrainedAcceptance(w: Cursors, len: nat)
    requires ValidSizes(w.elemMask + 1, w.bufMask + 1) && Drained(w) && len <= U32 - 8
    ensures var pos, size, b := And(w.bufTail, w.bufMask), Align8(len), w.bufMask + 1;
            WriteCursors(w, len).Placed? <==> size < b && (pos + size <= b || size <= pos)
    ensures WriteCursors(w, len).Invalid? <==> Align8(len) > w.bufMask
  {
    hide And, Mod, Word, IsPow2, Align8, WriteCursors;
    var b := w.bufMask + 1;
    WriteDecision(w, w.elemMask + 1, b, w.elemTail, w.elemTail, w.bufTail, w.bufTail, len);
    WordMask(w.bufTail, b);
  }

  /** A length above 2^32 - 8 rounds to zero: it is accepted, and no space is claimed for it. */
  lemma OversizedAccepted(w: Cursors, len: nat)
    requires ValidSizes(w.elemMask + 1, w.bufMask + 1) && Drained(w) && U32 - 8 < len < U32
    ensures WriteCursors(w, len) ==
            Placed(And(w.bufTail, w.bufMask), And(w.elemTail, w.elemMask), w.(elemTail := Word(w.elemTail + 1)))
  {
    hide And, Mod, IsPow2, Align8Word, NextOffsetWord;
    var b := w.bufMask + 1;
    Align8WordExact(len);
    NextOffsetWordCorrect(w.bufTail, b, 0);
    ModSmall(w.bufTail, U32);
    ModSmall(0, U32);
    ModSmall(w.elemMask + 1, U32);
    ModSmall(b, U32);
  }

  /** So what a drained queue accepts fits where it was placed exactly up to that length. */
  lemma AcceptedFitsExactly(w: Cursors, len: nat)
    requires ValidSizes(w.elemMask + 1, w.bufMask + 1) && Drained(w) && len < U32 && WriteCursors(w, len).Placed?
    ensures WriteCursors(w, len).offset + len <= w.bufMask + 1 <==> len <= U32 - 8
  {
    hide And, Mod, Word, IsPow2, WriteCursors, Align8;
    if len <= U32 - 8 {
      var b := w.bufMask + 1;
      WriteDecision(w, w.elemMask + 1, b, w.elemTail, w.elemTail, w.bufTail, w.bufTail, len);
    } else {
      OversizedAccepted(w, len);
    }
  }

  /** Once the reader has drained the queue, every element of at most half the buffer is accepted. */
  lemma HalfAlwaysFits(w: Cursors, len: nat)
    requires ValidSizes(w.elemMask + 1, w.bufMask + 1) && Drained(w) && len <= U32 - 8
    requires 2 * Align8(len) <= w.bufMask + 1
    ensures WriteCursors(w, len).Placed?
  {
    hide And, Mod, Word, IsPow2, Align8, WriteCursors;
    DrainedAcceptance(w, len);
  }

  lemma Take(n: nat, b: nat, c: Queue, h: History, a: Action) returns (c': Queue, h': History)
    requires ValidSizes(n, b) && Reachable(n, b, c, h) && Enabled(c, a)
    ensures c' == Next(c, a) && h' == Remember(c, h, a)
    ensures Reachable(n, b, c', h') && Inv(c', h', n, b)
  {
    hide Inv, Next, Remember, Enabled, ValidSizes;
    c', h' := Next(c, a), Remember(c, h, a);
    var acts :| Run(n, b, acts, c, h);
    assert (acts + [a])[..|acts|] == acts;
    assert Follows(c, h, a, c', h');
    assert Run(n, b, acts + [a], c', h');
    ReachableInv(n, b, c', h');
  }

  lemma {:induction false} CopyIn(n: nat, b: nat, c: Queue, h: History) returns (c': Queue)
    requires ValidSizes(n, b) && Reachable(n, b, c, h) && c.wpc.WCopying? && c.wpc.done <= |c.wpc.payload|
    requires c.wpc.wOffset + |c.wpc.payload| <= |c.data|
    ensures Reachable(n, b, c', h)
    ensures c' == c.(wpc := WBatch, data := Splice(c.data, c.wpc.wOffset + c.wpc.done, c.wpc.payload[c.wpc.done..]))
    decreases |c.wpc.payload| - c.wpc.done
  {
    hide Inv, Reachable, ValidSizes;
    var at, p := c.wpc.wOffset + c.wpc.done, c.wpc.payload[c.wpc.done..];
    if c.wpc.done == |c.wpc.payload| {
      var h';
      c', h' := Take(n, b, c, h, WCopyDone);
      assert Splice(c.data, at, p) == c.data;
    } else {
      var c1, h1 := Take(n, b, c, h, WCopyByte);
      c' := CopyIn(n, b, c1, h);
      assert Splice(c1.data, at + 1, p[1..]) == Splice(c.data, at, p);
    }
  }

  lemma {:induction false} CopyOut(n: nat, b: nat, c: Queue, h: History) returns (c': Queue)
    requires ValidSizes(n, b) && Reachable(n, b, c, h) && c.rpc.RCopying? && |c.rpc.got| <= c.rpc.len
    requires c.rpc.rOffset + c.rpc.len <= |c.data|
    ensures Reachable(n, b, c', h)
    ensures var rest := c.data[c.rpc.rOffset + |c.rpc.got|..c.rpc.rOffset + c.rpc.len];
            c' == c.(rpc := RBatch, output := c.output + [c.rpc.got + rest])
    decreases c.rpc.len - |c.rpc.got|
  {
    hide Inv, Reachable, ValidSizes;
    var at, end := c.rpc.rOffset + |c.rpc.got|, c.rpc.rOffset + c.rpc.len;
    if |c.rpc.got| == c.rpc.len {
      var h';
      c', h' := Take(n, b, c, h, RDeliver);
      assert c.rpc.got + c.data[at..end] == c.rpc.got;
    } else {
      var c1, h1 := Take(n, b, c, h, RCopyByte);
      c' := CopyOut(n, b, c1, h);
      assert c1.rpc.got + c.data[at + 1..end] == c.rpc.got + c.data[at..end];
    }
  }

  /** A whole write call, payload copy included, is a run of steps; nothing else of the state changes. */
  lemma WholeWrite(n: nat, b: nat, c: Queue, h: History, bytes: seq<Byte>) returns (h': History)
    requires ValidSizes(n, b) && Reachable(n, b, c, h) && c.wpc.WBatch? && |bytes| <= U32 - 8
    requires WriteCursors(c.w, |bytes|).Placed?
    ensures var res := WriteCursors(c.w, |bytes|);
            && res.offset + |bytes| <= |c.data| && res.slot < |c.elems|
            && h'.written == h.written + [bytes]
            && Reachable(n, b, c.(w := res.next, elems := c.elems[res.slot := |bytes|],
                                  data := Splice(c.data, res.offset, bytes), placed := c.placed + [res.offset]), h')
  {
    hide Inv, Reachable, ValidSizes, WriteCursors;
    var res := WriteCursors(c.w, |bytes|);
    var c1;
    c1, h' := Take(n, b, c, h, WWrite(bytes));
    assert res.offset + |bytes| <= |c.data| && res.slot < |c.elems| by { PlacedInside(n, b, c, h, bytes); }
    var c2 := CopyIn(n, b, c1, h');
    assert bytes[0..] == bytes;
  }

  lemma PlacedInside(n: nat, b: nat, c: Queue, h: History, bytes: seq<Byte>)
    requires ValidSizes(n, b) && Reachable(n, b, c, h) && |bytes| <= U32 - 8
    requires WriteCursors(c.w, |bytes|).Placed?
    ensures WriteCursors(c.w, |bytes|).offset + |bytes| <= |c.data| && WriteCursors(c.w, |bytes|).slot < |c.elems|
  {
    hide Run, IsPow2, Align8, Slots, Live, Laid, Calls, WriteCursors, Word, And, Mod;
    ReachableInv(n, b, c, h);
    LaidShape(h, b);
    LaidMonotone(h, b, h.wBuf, |h.written|);
    WriteDecision(c.w, n, b, |h.written|, h.wElem, h.ends[|h.written|], h.ends[h.wBuf], |bytes|);
  }

  /** A whole read call is a run of steps, and what it returns is the next accepted byte string. */
  lemma WholeRead(n: nat, b: nat, c: Queue, h: History)
    requires ValidSizes(n, b) && Reachable(n, b, c, h) && c.rpc.RBatch? && c.r.elemTail != c.r.elemHead
    ensures And(c.r.elemHead, c.r.elemMask) < |c.elems| && h.rd < |h.written|
    ensures var len := c.elems[And(c.r.elemHead, c.r.elemMask)];
            var (offset, next) := ReadCursors(c.r, len);
            && offset + len <= |c.data|
            && c.data[offset..offset + len] == h.written[h.rd]
            && Reachable(n, b, c.(r := next, found := c.found + [offset],
                                  output := c.output + [c.data[offset..offset + len]]), h.(rd := h.rd + 1))
  {
    hide Inv, Reachable, ValidSizes, ReadCursors, And;
    InBounds(n, b, c, h);
    var len := c.elems[And(c.r.elemHead, c.r.elemMask)];
    var (offset, next) := ReadCursors(c.r, len);
    var c1, h1 := Take(n, b, c, h, RRead);
    assert offset + len <= |c.data| by { FoundInside(n, b, c1, h1); }
    var c2 := CopyOut(n, b, c1, h1);
    assert [] + c.data[offset..offset + len] == c.data[offset..offset + len];
    assert |c.output| == h.rd by { FifoDelivery(n, b, c, h); }
    assert c2.output <= h.written by { FifoDelivery(n, b, c2, h1); }
    assert c2.output[h.rd] == h.written[h.rd];
  }

  lemma FoundInside(n: nat, b: nat, c: Queue, h: History)
    requires ValidSizes(n, b) && Reachable(n, b, c, h) && c.rpc.RCopying?
    ensures c.rpc.rOffset + c.rpc.len <= |c.data|
  {
    hide Run, IsPow2, Slots, Live, Laid, Word, And, Mod, Words;
    ReachableInv(n, b, c, h);
    LaidShape(h, b);
    LaidBounds(h, b, h.rd - 1);
  }

  /** One element of `len` bytes is written and published. */
  lemma PassIn(n: nat, b: nat, c: Queue, len: nat) returns (c': Queue, h': History)
    requires ValidSizes(n, b) && Initial(c, n, b) && Align8(len) < b && len <= U32 - 8
    ensures Reachable(n, b, c', h') && c'.wpc.WIdle? && c'.rpc.RIdle?
    ensures |h'.written| == 1 == h'.sTail && h'.rd == 0 && h'.ends == [0, Align8(len)]
  {
    hide Inv, Reachable, ValidSizes, WriteCursors, ReadCursors, Store, Load, NextOffset, Align8, Mod, Word;
    var h := NoHistory;
    assert Reachable(n, b, c, h) by { Start0(n, b, c); }
    var c1, h1 := Take(n, b, c, h, WLoadElemHead);
    var c2, h2 := Take(n, b, c1, h1, WLoadBufHead);
    var bytes: seq<Byte> := seq(len, _ => 0);
    assert WriteCursors(c2.w, len).Placed? && c2.w.bufMask + 1 == b by { FirstFits(n, b, c2, h2, len); }
    var c3, h3 := Take(n, b, c2, h2, WWrite(bytes));
    assert h3.ends == [0, Align8(len)] by { FirstPlace(b, len, bytes); }
    PlacedInside(n, b, c2, h2, bytes);
    var c4 := CopyIn(n, b, c3, h3);
    var c5, h5 := Take(n, b, c4, h3, WStoreBufTail);
    c', h' := Take(n, b, c5, h5, WStoreElemTail);
  }

  /** The published element is read and released, and the writer loads the new heads. */
  lemma PassOut(n: nat, b: nat, c: Queue, h: History) returns (c': Queue, h': History)
    requires ValidSizes(n, b) && Reachable(n, b, c, h) && c.wpc.WIdle? && c.rpc.RIdle?
    requires |h.written| == 1 == h.sTail && h.rd == 0
    ensures Reachable(n, b, c', h') && c'.wpc.WBatch?
    ensures h'.written == h.written && h'.ends == h.ends && h'.wElem == h'.wBuf == 1
  {
    hide Inv, Reachable, ValidSizes, WriteCursors, ReadCursors, Store, Load;
    var c1, h1 := Take(n, b, c, h, RLoadElemTail);
    assert c1.r.elemTail != c1.r.elemHead by { EmptyExactly(n, b, c1, h1); }
    var c2, h2 := Take(n, b, c1, h1, RRead);
    FoundInside(n, b, c2, h2);
    var c3 := CopyOut(n, b, c2, h2);
    var c4, h4 := Take(n, b, c3, h2, RStoreBufHead);
    var c5, h5 := Take(n, b, c4, h4, RStoreElemHead);
    var c6, h6 := Take(n, b, c5, h5, WLoadElemHead);
    c', h' := Take(n, b, c6, h6, WLoadBufHead);
  }

  lemma Start0(n: nat, b: nat, c: Queue)
    requires Initial(c, n, b)
    ensures Reachable(n, b, c, NoHistory)
  {
    assert Run(n, b, [], c, NoHistory);
  }

  lemma FirstPlace(b: nat, len: nat, bytes: seq<Byte>)
    requires b > 0 && |bytes| == len && Align8(len) < b
    ensures Append(NoHistory, b, bytes).ends == [0, Align8(len)]
  {
    hide Align8;
  }

  lemma FirstFits(n: nat, b: nat, c: Queue, h: History, len: nat)
    requires ValidSizes(n, b) && Inv(c, h, n, b) && h == NoHistory && Align8(len) < b && len <= U32 - 8
    ensures WriteCursors(c.w, len).Placed? && c.w.bufMask + 1 == b
  {
    hide IsPow2, Align8, Slots, Live, Laid, Calls, WriteCursors, Word;
    LaidShape(h, b);
    WriteDecision(c.w, n, b, 0, 0, 0, 0, len);
  }

  /** The bound is tight: from 32 bytes on, some reachable drained state refuses half the buffer plus eight. */
  lemma HalfIsTight(n: nat, b: nat, start: Queue) returns (c: Queue, h: History)
    requires ValidSizes(n, b) && b >= 32 && Initial(start, n, b)
    ensures Reachable(n, b, c, h) && Drained(c.w)
    ensures WriteCursors(c.w, b / 2 + 8) == NoSpace
  {
    hide IsPow2, Slots, Live, Laid, Calls, WriteCursors, Word, And, Mod, NextOffset, Reachable;
    HalfIsAligned(b);
    c, h := PassIn(n, b, start, b / 2);
    c, h := PassOut(n, b, c, h);
    ReachableInv(n, b, c, h);
    LaidShape(h, b);
    DrainedAcceptance(c.w, b / 2 + 8);
    WordMask(b / 2, b);
  }

  lemma HalfIsAligned(b: nat)
    requires ValidBuf(b) && b >= 32
    ensures Align8(b / 2) == b / 2 && Align8(b / 2 + 8) == b / 2 + 8 && b == 2 * (b / 2)
  {
    hide Mod;
    EightIsPow2();
    assert IsPow2(16);
    Pow2Divides(16, b);
    ModIsRemainder(b, 16);
  }
}

/**
 * Progress of the element queue: from every reachable state the reader alone
 * can drain what was published, and the writer then finds room again.
 */
module ElementQueueProgress {
  import opened Bits
  import opened ElementQueueLayout
  import opened ElementQueueProtocol
  import opened ElementQueueTheorems

  /** Only the reader moved: the writer and everything accepted are as before. */
  predicate WriterKept(c: Queue, h: History, c': Queue, h': History) {
    c'.w == c.w && c'.wpc == c.wpc && h'.written == h.written && h'.sTail == h.sTail && h'.rd >= h.rd
  }

  /** The reader finishes the call it is in. */
  lemma FinishCall(n: nat, b: nat, c: Queue, h: History) returns (c': Queue)
    requires ValidSizes(n, b) && Reachable(n, b, c, h) && c.rpc.RCopying?
    ensures Reachable(n, b, c', h) && WriterKept(c, h, c', h) && c'.rpc.RBatch?
  {
    hide Reachable, ValidSizes, Inv;
    FoundInside(n, b, c, h);
    GotFits(n, b, c, h);
    c' := CopyOut(n, b, c, h);
  }

  lemma GotFits(n: nat, b: nat, c: Queue, h: History)
    requires ValidSizes(n, b) && Reachable(n, b, c, h) && c.rpc.RCopying?
    ensures |c.rpc.got| <= c.rpc.len
  {
    hide Run, IsPow2, Slots, Live, Laid, Word, And, Mod, Words;
    ReachableInv(n, b, c, h);
  }

  /** The reader ends its batch and releases what it has read. */
  lemma Release(n: nat, b: nat, c: Queue, h: History) returns (c': Queue, h': History)
    requires ValidSizes(n, b) && Reachable(n, b, c, h) && c.rpc.RBatch?
    ensures Reachable(n, b, c', h') && WriterKept(c, h, c', h') && c'.rpc.RIdle?
    ensures h'.rd == h'.sBuf == h'.sElem == h.rd && h'.rTail == h.rTail
  {
    hide Reachable, ValidSizes, Inv;
    var c1, h1 := Take(n, b, c, h, RStoreBufHead);
    c', h' := Take(n, b, c1, h1, RStoreElemHead);
  }

  /** Wherever the reader is, it can start a batch on all that is published. */
  lemma NewBatch(n: nat, b: nat, c: Queue, h: History) returns (c': Queue, h': History)
    requires ValidSizes(n, b) && Reachable(n, b, c, h)
    ensures Reachable(n, b, c', h') && WriterKept(c, h, c', h') && c'.rpc.RBatch? && h'.rTail == h.sTail
  {
    hide Reachable, ValidSizes, Inv;
    c', h' := c, h;
    if c'.rpc.RCopying? { c' := FinishCall(n, b, c', h'); }
    if c'.rpc.RBatch? { c', h' := Release(n, b, c', h'); }
    if c'.rpc.RBufHeadStored? { c', h' := Take(n, b, c', h', RStoreElemHead); }
    c', h' := Take(n, b, c', h', RLoadElemTail);
  }

  /** In a batch the reader can read on to its end. */
  lemma {:induction false} ReadAll(n: nat, b: nat, c: Queue, h: History) returns (c': Queue, h': History)
    requires ValidSizes(n, b) && Reachable(n, b, c, h) && c.rpc.RBatch?
    ensures Reachable(n, b, c', h') && WriterKept(c, h, c', h') && c'.rpc.RBatch? && h'.rd == h'.rTail == h.rTail
    decreases h.rTail - h.rd
  {
    hide Reachable, ValidSizes, Inv, ReadCursors, And;
    EmptyExactly(n, b, c, h);
    ReaderBehind(n, b, c, h);
    if h.rd == h.rTail {
      c', h' := c, h;
    } else {
      WholeRead(n, b, c, h);
      var len := c.elems[And(c.r.elemHead, c.r.elemMask)];
      var (offset, next) := ReadCursors(c.r, len);
      var c1 := c.(r := next, found := c.found + [offset], output := c.output + [c.data[offset..offset + len]]);
      c', h' := ReadAll(n, b, c1, h.(rd := h.rd + 1));
    }
  }

  lemma ReaderBehind(n: nat, b: nat, c: Queue, h: History)
    requires ValidSizes(n, b) && Reachable(n, b, c, h)
    ensures h.rd <= h.rTail <= h.sTail <= |h.written|
  {
    hide Run, IsPow2, Slots, Live, Laid, Word, And, Mod, Words, Calls;
    ReachableInv(n, b, c, h);
  }

  /** Once everything is published, the reader alone reads and releases all of it. */
  lemma ReaderDrains(n: nat, b: nat, c: Queue, h: History) returns (c': Queue, h': History)
    requires ValidSizes(n, b) && Reachable(n, b, c, h) && h.sTail == |h.written|
    ensures Reachable(n, b, c', h') && WriterKept(c, h, c', h')
    ensures h'.rd == h'.sBuf == h'.sElem == |h'.written|
  {
    hide Reachable, ValidSizes, Inv;
    var c1, h1 := NewBatch(n, b, c, h);
    var c2, h2 := ReadAll(n, b, c1, h1);
    c', h' := Release(n, b, c2, h2);
  }

  /**
   * From every reachable state in a write batch: the writer ends its batch, the
   * reader drains the queue, and the writer starts the next batch drained, with
   * nothing lost or added.
   */
  lemma WriterDrains(n: nat, b: nat, c: Queue, h: History) returns (c': Queue, h': History)
    requires ValidSizes(n, b) && Reachable(n, b, c, h) && c.wpc.WBatch?
    ensures Reachable(n, b, c', h') && c'.wpc.WBatch? && h'.written == h.written && Drained(c'.w)
  {
    hide Reachable, ValidSizes, Inv, Drained;
    var c1, h1 := Take(n, b, c, h, WStoreBufTail);
    var c2, h2 := Take(n, b, c1, h1, WStoreElemTail);
    var c3, h3 := ReaderDrains(n, b, c2, h2);
    var c4, h4 := Take(n, b, c3, h3, WLoadElemHead);
    c', h' := Take(n, b, c4, h4, WLoadBufHead);
    LoadedAll(n, b, c', h');
  }

  lemma LoadedAll(n: nat, b: nat, c: Queue, h: History)
    requires Inv(c, h, n, b) && h.wElem == h.wBuf == |h.written|
    ensures Drained(c.w) && c.w.elemMask == n - 1 && c.w.bufMask == b - 1
  {
    hide IsPow2, Slots, Live, Laid, Word, And, Mod, Calls;
    LaidShape(h, b);
  }

  /**
   * The retry loop of the writer can always end: whatever the queue holds, an
   * element of at most half the buffer is accepted after the reader has drained it.
   */
  lemma RetryCanEnd(n: nat, b: nat, c: Queue, h: History, len: nat) returns (c': Queue, h': History)
    requires ValidSizes(n, b) && Reachable(n, b, c, h) && c.wpc.WBatch? && len <= U32 - 8 && 2 * Align8(len) <= b
    ensures Reachable(n, b, c', h') && c'.wpc.WBatch? && h'.written == h.written && WriteCursors(c'.w, len).Placed?
  {
    hide Reachable, Run, Drained, WriteCursors, IsPow2, Slots, Live, Laid, Word, And, Mod, Calls, Words, Align8;
    c', h' := WriterDrains(n, b, c, h);
    ReachableInv(n, b, c', h');
    HalfAlwaysFits(c'.w, len);
  }
}

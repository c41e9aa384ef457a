/**
 * The element queue as a protocol between one writer and one reader
 * (util/element_queue.c, util/element_queue.h, util/element_queue_cpp.h).
 *
 * Each side owns a private copy of the cursors; the shared block, the length
 * array and the data bytes are common. A step performs at most one load or
 * store of shared memory, so a run is any interleaving under sequential
 * consistency. The concrete state never looks at the history record, which
 * only remembers what was written and which element each cursor stands for.
 */
module ElementQueueProtocol {
  import opened Bits
  import opened ElementQueueLayout

  // ---------------------------------------------------------------- cursor arithmetic

  /** The cursor words of `struct element_queue`. */
  datatype Cursors = Cursors(elemMask: nat, bufMask: nat, elemHead: nat, bufHead: nat, elemTail: nat, bufTail: nat)

  /** Outcome of `eq_write`: an error code, or the offset, the slot of the length array and the moved cursors. */
  datatype WriteResult = Invalid | NoSpace | Placed(offset: nat, slot: nat, next: Cursors)

  function WriteCursors(c: Cursors, len: nat): WriteResult {
    var size := Align8Word(len);
    if size > c.bufMask then Invalid
    else if Word(c.elemTail - c.elemHead) >= Word(c.elemMask + 1) then NoSpace
    else
      var start := NextOffsetWord(c.bufTail, c.bufMask, size);
      if Word(start + size - c.bufHead) > Word(c.bufMask + 1) then NoSpace
      else Placed(And(start, c.bufMask), And(c.elemTail, c.elemMask),
                  c.(bufTail := Word(start + size), elemTail := Word(c.elemTail + 1)))
  }

  /** `eq_read` once the length of the head element has been loaded: its start and the moved cursors. */
  function ReadCursors(c: Cursors, len: nat): (nat, Cursors) {
    var size := Align8Word(len);
    var start := NextOffsetWord(c.bufHead, c.bufMask, size);
    (And(start, c.bufMask), c.(elemHead := Word(c.elemHead + 1), bufHead := Word(start + size)))
  }

  // ---------------------------------------------------------------- states and steps

  datatype Shared = Shared(elemHead: nat, bufHead: nat, elemTail: nat, bufTail: nat)

  datatype WriterPc =
    | WIdle
    | WElemHeadLoaded
    | WBatch
    | WCopying(payload: seq<Byte>, wOffset: nat, done: nat)
    | WBufTailStored

  datatype ReaderPc =
    | RIdle
    | RBatch
    | RCopying(len: nat, rOffset: nat, got: seq<Byte>)
    | RBufHeadStored

  /** The lists `placed`, `found` and `output` log what the calls returned; no step reads them. */
  datatype Queue = Queue(
    shared: Shared, elems: seq<nat>, data: seq<Byte>,
    w: Cursors, wpc: WriterPc, r: Cursors, rpc: ReaderPc,
    placed: seq<nat>, found: seq<nat>, output: seq<seq<Byte>>)

  datatype Action =
    | WLoadElemHead | WLoadBufHead
    | WWrite(bytes: seq<Byte>) | WCopyByte | WCopyDone
    | WStoreBufTail | WStoreElemTail
    | RLoadElemTail
    | RRead | RCopyByte | RDeliver
    | RStoreBufHead | RStoreElemHead

  /** Program order of the two sides; a payload must be short enough for its length to round up in 32 bits. */
  predicate Enabled(c: Queue, a: Action) {
    match a
    case WLoadElemHead => c.wpc.WIdle?
    case WLoadBufHead => c.wpc.WElemHeadLoaded?
    case WWrite(bytes) => c.wpc.WBatch? && |bytes| <= U32 - 8
    case WCopyByte => c.wpc.WCopying? && c.wpc.done < |c.wpc.payload|
    case WCopyDone => c.wpc.WCopying? && c.wpc.done == |c.wpc.payload|
    case WStoreBufTail => c.wpc.WBatch?
    case WStoreElemTail => c.wpc.WBufTailStored?
    case RLoadElemTail => c.rpc.RIdle?
    case RRead => c.rpc.RBatch? && c.r.elemTail != c.r.elemHead
    case RCopyByte => c.rpc.RCopying? && |c.rpc.got| < c.rpc.len
    case RDeliver => c.rpc.RCopying? && |c.rpc.got| == c.rpc.len
    case RStoreBufHead => c.rpc.RBatch?
    case RStoreElemHead => c.rpc.RBufHeadStored?
  }

  /** A shared-memory store; InBounds below shows that no reachable step misses the array. */
  function Store<T>(s: seq<T>, i: nat, v: T): seq<T> {
    if i < |s| then s[i := v] else s
  }

  function Load<T>(s: seq<T>, i: nat, default: T): T {
    if i < |s| then s[i] else default
  }

  function Next(c: Queue, a: Action): Queue
    requires Enabled(c, a)
  {
    match a
    case WLoadElemHead => c.(w := c.w.(elemHead := c.shared.elemHead), wpc := WElemHeadLoaded)
    case WLoadBufHead => c.(w := c.w.(bufHead := c.shared.bufHead), wpc := WBatch)
    case WWrite(bytes) => (
      match WriteCursors(c.w, |bytes|)
      case Placed(offset, slot, next) =>
        c.(w := next, elems := Store(c.elems, slot, |bytes|), wpc := WCopying(bytes, offset, 0),
            placed := c.placed + [offset])
      case _ => c)
    case WCopyByte =>
      c.(data := Store(c.data, c.wpc.wOffset + c.wpc.done, c.wpc.payload[c.wpc.done]),
          wpc := c.wpc.(done := c.wpc.done + 1))
    case WCopyDone => c.(wpc := WBatch)
    case WStoreBufTail => c.(shared := c.shared.(bufTail := c.w.bufTail), wpc := WBufTailStored)
    case WStoreElemTail => c.(shared := c.shared.(elemTail := c.w.elemTail), wpc := WIdle)
    case RLoadElemTail => c.(r := c.r.(elemTail := c.shared.elemTail), rpc := RBatch)
    case RRead =>
      var len := Load(c.elems, And(c.r.elemHead, c.r.elemMask), 0);
      var (offset, next) := ReadCursors(c.r, len);
      c.(r := next, rpc := RCopying(len, offset, []), found := c.found + [offset])
    case RCopyByte =>
      c.(rpc := c.rpc.(got := c.rpc.got + [Load(c.data, c.rpc.rOffset + |c.rpc.got|, 0)]))
    case RDeliver => c.(output := c.output + [c.rpc.got], rpc := RBatch)
    case RStoreBufHead => c.(shared := c.shared.(bufHead := c.r.bufHead), rpc := RBufHeadStored)
    case RStoreElemHead => c.(shared := c.shared.(elemHead := c.r.elemHead), rpc := RIdle)
  }

  /** Both sides attached to zeroed shared memory. */
  predicate Initial(c: Queue, n: nat, b: nat) {
    && n > 0 && b > 0
    && |c.elems| == n && |c.data| == b
    && c.shared == Shared(0, 0, 0, 0)
    && c.w == c.r == Cursors(n - 1, b - 1, 0, 0, 0, 0)
    && c.wpc.WIdle? && c.rpc.RIdle?
    && c.placed == c.found == [] && c.output == []
  }

  /** Sizes accepted by `eq_init_contig`, non-zero and within the range of the signed comparison. */
  predicate ValidSizes(n: nat, b: nat) {
    0 < n < U32 && IsPow2(n) && ValidBuf(b)
  }

  // ---------------------------------------------------------------- history

  /**
   * What was accepted and where it was laid out, in unbounded positions, and
   * the element each cursor word stands for: the heads the writer loaded, the
   * shared heads and tail, and the reader's position.
   */
  datatype History = History(
    written: seq<seq<Byte>>, starts: seq<nat>, ends: seq<nat>,
    wElem: nat, wBuf: nat, sElem: nat, sBuf: nat, sTail: nat, rd: nat, rTail: nat)

  const NoHistory := History([], [], [0], 0, 0, 0, 0, 0, 0, 0)

  function Remember(c: Queue, h: History, a: Action): History
    requires Enabled(c, a)
  {
    match a
    case WLoadElemHead => h.(wElem := h.sElem)
    case WLoadBufHead => h.(wBuf := h.sBuf)
    case WWrite(bytes) => if WriteCursors(c.w, |bytes|).Placed? then Append(h, c.w.bufMask + 1, bytes) else h
    case WStoreElemTail => h.(sTail := |h.written|)
    case RLoadElemTail => h.(rTail := h.sTail)
    case RRead => h.(rd := h.rd + 1)
    case RStoreBufHead => h.(sBuf := h.rd)
    case RStoreElemHead => h.(sElem := h.rd)
    case _ => h
  }

  function Append(h: History, b: nat, bytes: seq<Byte>): History
    requires b > 0
  {
    var size := Align8(|bytes|);
    var start := NextOffset(Load(h.ends, |h.written|, 0), b, size);
    h.(written := h.written + [bytes], starts := h.starts + [start], ends := h.ends + [start + size])
  }

  predicate Follows(c0: Queue, h0: History, a: Action, c: Queue, h: History) {
    Enabled(c0, a) && c == Next(c0, a) && h == Remember(c0, h0, a)
  }

  /** A run: states and histories linked by enabled steps. */
  ghost predicate Run(n: nat, b: nat, acts: seq<Action>, c: Queue, h: History)
  {
    if acts == [] then Initial(c, n, b) && h == NoHistory
    else
      var init, a := acts[..|acts| - 1], acts[|acts| - 1];
      exists c0, h0 :: Run(n, b, init, c0, h0) && Follows(c0, h0, a, c, h)
  }

  ghost predicate Reachable(n: nat, b: nat, c: Queue, h: History) {
    exists acts :: Run(n, b, acts, c, h)
  }

  // ---------------------------------------------------------------- invariant

  function Lens(written: seq<seq<Byte>>): (r: seq<nat>)
    ensures |r| == |written|
  {
    seq(|written|, i requires 0 <= i < |written| => |written[i]|)
  }

  predicate Shape(c: Queue, n: nat, b: nat) {
    && ValidSizes(n, b)
    && |c.elems| == n && |c.data| == b
    && c.w.elemMask == c.r.elemMask == n - 1
    && c.w.bufMask == c.r.bufMask == b - 1
  }

  /** No cursor runs ahead of the one it was copied from. */
  predicate Ordered(c: Queue, h: History) {
    && h.wElem <= h.sElem <= h.rd
    && h.wBuf <= h.sBuf <= h.rd
    && h.rd <= h.rTail <= h.sTail <= |h.written|
    && (c.wpc.WCopying? ==> h.sTail < |h.written|)
    && (c.rpc.RCopying? ==> h.sBuf < h.rd && h.sElem < h.rd)
  }

  /** Element `i` was accepted and placed right after element `i - 1`. */
  predicate Chained(h: History, b: nat, i: nat)
    requires b > 0 && i < |h.written| == |h.starts| && |h.ends| == |h.written| + 1
  {
    var size := Align8(|h.written[i]|);
    && |h.written[i]| <= U32 - 8
    && size < b
    && h.starts[i] == NextOffset(h.ends[i], b, size)
    && h.ends[i + 1] == h.starts[i] + size
  }

  predicate Laid(h: History, b: nat)
    requires b > 0
  {
    && |h.starts| == |h.written| && |h.ends| == |h.written| + 1
    && h.ends[0] == 0
    && forall i :: 0 <= i < |h.written| ==> Chained(h, b, i)
  }

  /** What the writer took counts against the heads it last loaded. */
  predicate Space(h: History, n: nat, b: nat)
    requires |h.ends| == |h.written| + 1 && h.wBuf <= |h.written|
  {
    && |h.written| <= h.wElem + n
    && h.ends[|h.written|] <= h.ends[h.wBuf] + b
  }

  /** Every word is the position it stands for, modulo 2^32. */
  predicate Words(c: Queue, h: History)
    requires Ordered(c, h) && |h.ends| == |h.written| + 1
  {
    && c.w.elemHead == Word(h.wElem) && c.w.bufHead == Word(h.ends[h.wBuf])
    && c.w.elemTail == Word(|h.written|) && c.w.bufTail == Word(h.ends[|h.written|])
    && c.shared.elemHead == Word(h.sElem) && c.shared.bufHead == Word(h.ends[h.sBuf])
    && c.shared.elemTail == Word(h.sTail)
    && c.r.elemHead == Word(h.rd) && c.r.bufHead == Word(h.ends[h.rd])
    && c.r.elemTail == Word(h.rTail)
  }

  predicate SlotHolds(c: Queue, h: History, n: nat, i: nat)
    requires |c.elems| == n > 0 && i < |h.written|
  {
    c.elems[Mod(i, n)] == |h.written[i]|
  }

  /** The length array holds the length of every element whose slot is not yet released. */
  predicate Slots(c: Queue, h: History, n: nat)
    requires |c.elems| == n > 0
  {
    forall i :: h.sElem <= i < |h.written| ==> SlotHolds(c, h, n, i)
  }

  /** How many payload bytes of element `i` have been stored. */
  function Copied(c: Queue, h: History, i: nat): nat
    requires i < |h.written|
  {
    if c.wpc.WCopying? && i == |h.written| - 1 then c.wpc.done else |h.written[i]|
  }

  predicate ByteHolds(c: Queue, h: History, b: nat, i: nat, k: nat)
    requires |c.data| == b > 0 && i < |h.written| == |h.starts| && k < |h.written[i]|
  {
    c.data[Mod(h.starts[i] + k, b)] == h.written[i][k]
  }

  /** The copied bytes of element `i` are in the buffer. */
  predicate Intact(c: Queue, h: History, b: nat, i: nat)
    requires |c.data| == b > 0 && i < |h.written| == |h.starts|
  {
    && Copied(c, h, i) <= |h.written[i]|
    && forall k :: 0 <= k < Copied(c, h, i) ==> ByteHolds(c, h, b, i, k)
  }

  /** Every element not yet released by the reader is in the buffer, as far as it was copied. */
  predicate Live(c: Queue, h: History, b: nat)
    requires |c.data| == b > 0 && |h.written| == |h.starts|
  {
    forall i :: h.sBuf <= i < |h.written| ==> Intact(c, h, b, i)
  }

  /** Offsets handed out by write and read, the copies under way and the elements delivered. */
  predicate Calls(c: Queue, h: History, b: nat)
    requires b > 0 && Ordered(c, h) && |h.written| == |h.starts|
  {
    && |c.placed| == |h.written| && |c.found| == h.rd
    && (forall i :: 0 <= i < |h.written| ==> c.placed[i] == Mod(h.starts[i], b))
    && (forall i :: 0 <= i < h.rd ==> c.found[i] == Mod(h.starts[i], b))
    && (c.wpc.WCopying? ==>
          var last := |h.written| - 1;
          c.wpc.payload == h.written[last] && c.wpc.wOffset == Mod(h.starts[last], b))
    && (c.rpc.RCopying? ==>
          var e := h.written[h.rd - 1];
          c.rpc.len == |e| && c.rpc.rOffset == Mod(h.starts[h.rd - 1], b) && c.rpc.got <= e)
    && c.output == h.written[..if c.rpc.RCopying? then h.rd - 1 else h.rd]
  }

  predicate Inv(c: Queue, h: History, n: nat, b: nat) {
    && Shape(c, n, b)
    && Ordered(c, h)
    && Laid(h, b)
    && Space(h, n, b)
    && Words(c, h)
    && Slots(c, h, n)
    && Live(c, h, b)
    && Calls(c, h, b)
  }

  // ---------------------------------------------------------------- arithmetic of one call

  /** With cursor words that stand for unbounded positions, `eq_write` decides by the unbounded layout. */
  lemma WriteDecision(w: Cursors, n: nat, b: nat, count: nat, freed: nat, tail: nat, head: nat, len: nat)
    requires ValidSizes(n, b) && len <= U32 - 8
    requires freed <= count <= freed + n && head <= tail <= head + b
    requires w == Cursors(n - 1, b - 1, Word(freed), Word(head), Word(count), Word(tail))
    ensures var size := Align8(len);
            var start := NextOffset(tail, b, size);
            var res := WriteCursors(w, len);
            if size >= b then res == Invalid
            else if count - freed >= n || start + size - head > b then res == NoSpace
            else res == Placed(Mod(start, b), Mod(count, n),
                               w.(bufTail := Word(start + size), elemTail := Word(count + 1)))
  {
    hide Mod, Word, IsPow2, And, Align8, Align8Word, NextOffset, NextOffsetWord;
    var size := Align8(len);
    Align8WordExact(len);
    if size < b {
      var start := NextOffset(tail, b, size);
      WordDiff(count, freed, 0);
      NextOffsetWordCorrect(tail, b, size);
      WordDiff(start, head, size);
      WordMask(start, b);
      WordMask(count, n);
      WordAdd(start, size);
      WordAdd(count, 1);
    }
  }

  lemma WordAdd(x: int, k: int)
    ensures Word(Word(x) + k) == Word(x + k)
  {
    ModAdd(x, k, U32);
  }

  /** `eq_read` recomputes the start the writer chose, from the length alone. */
  lemma ReadDecision(r: Cursors, n: nat, b: nat, rd: nat, pos: nat, len: nat)
    requires ValidSizes(n, b) && len <= U32 - 8 && Align8(len) < b
    requires r.elemMask == n - 1 && r.bufMask == b - 1 && r.elemHead == Word(rd) && r.bufHead == Word(pos)
    ensures And(r.elemHead, r.elemMask) == Mod(rd, n)
    ensures var start := NextOffset(pos, b, Align8(len));
            ReadCursors(r, len) == (Mod(start, b), r.(elemHead := Word(rd + 1), bufHead := Word(start + Align8(len))))
  {
    hide Mod, Word, IsPow2, And, Align8, Align8Word, NextOffset, NextOffsetWord;
    Align8WordExact(len);
    NextOffsetWordCorrect(pos, b, Align8(len));
    var start := NextOffset(pos, b, Align8(len));
    WordMask(start, b);
    WordMask(rd, n);
    WordAdd(start, Align8(len));
    WordAdd(rd, 1);
  }

  // ---------------------------------------------------------------- the history is the layout

  lemma {:induction false} LaidMonotone(h: History, b: nat, i: nat, j: nat)
    requires b > 0 && Laid(h, b) && i <= j <= |h.written|
    ensures h.ends[i] <= h.ends[j]
  {
    hide Mod, NextOffset, Align8;
    if i < j {
      LaidMonotone(h, b, i, j - 1);
      assert Chained(h, b, j - 1);
    }
  }

  /** The positions in a history are a function of the lengths. */
  lemma {:induction false} LaidIsLayout(h: History, b: nat, i: nat)
    requires b > 0 && Laid(h, b) && i <= |h.written|
    ensures h.ends[i] == EndAt(Lens(h.written), b, i)
    ensures i < |h.written| ==> h.starts[i] == Start(Lens(h.written), b, i)
  {
    hide Mod, NextOffset, Align8;
    if i > 0 {
      LaidIsLayout(h, b, i - 1);
      EndStep(Lens(h.written), b, i - 1);
      assert Chained(h, b, i - 1);
    }
    if i < |h.written| { assert Chained(h, b, i); }
  }

  lemma LaidContiguous(h: History, b: nat, i: nat, k: nat)
    requires b > 0 && Laid(h, b) && i < |h.written| && k < |h.written[i]|
    ensures Mod(h.starts[i] + k, b) == Mod(h.starts[i], b) + k < b
  {
    hide Mod, NextOffset, Align8;
    assert Chained(h, b, i);
    ModWithin(h.starts[i], b, k);
  }

  /** Live elements never share a byte of the buffer. */
  lemma LaidDisjoint(h: History, n: nat, b: nat, i: nat, j: nat, k: nat, l: nat)
    requires b > 0 && h.wBuf <= i < j < |h.written| && Laid(h, b) && Space(h, n, b)
    requires k < |h.written[i]| && l < |h.written[j]|
    ensures Mod(h.starts[i] + k, b) != Mod(h.starts[j] + l, b)
  {
    hide Mod, NextOffset, Align8;
    LaidMonotone(h, b, h.wBuf, i);
    LaidMonotone(h, b, i + 1, j);
    LaidMonotone(h, b, j + 1, |h.written|);
    assert Chained(h, b, i) && Chained(h, b, j);
    ModDistinct(h.starts[i] + k, h.starts[j] + l, b);
  }

  lemma LaidAppend(h: History, b: nat, bytes: seq<Byte>)
    requires b > 0 && Laid(h, b) && |bytes| <= U32 - 8 && Align8(|bytes|) < b
    ensures Laid(Append(h, b, bytes), b)
  {
    hide Mod, NextOffset, Align8;
    var h' := Append(h, b, bytes);
    forall i | 0 <= i < |h'.written| ensures Chained(h', b, i) {
      if i < |h.written| { assert Chained(h, b, i); }
    }
  }

  // ---------------------------------------------------------------- every step keeps the invariant

  lemma InitialInv(c: Queue, n: nat, b: nat)
    requires ValidSizes(n, b) && Initial(c, n, b)
    ensures Inv(c, NoHistory, n, b)
  {}

  lemma WriteStep(c: Queue, h: History, n: nat, b: nat, bytes: seq<Byte>)
    requires Inv(c, h, n, b) && Enabled(c, WWrite(bytes))
    ensures Inv(Next(c, WWrite(bytes)), Remember(c, h, WWrite(bytes)), n, b)
  {
    hide Mod, Word, IsPow2, And, Align8, Align8Word, NextOffset, NextOffsetWord, WriteCursors, ReadCursors;
    LaidMonotone(h, b, h.wBuf, |h.written|);
    WriteDecision(c.w, n, b, |h.written|, h.wElem, h.ends[|h.written|], h.ends[h.wBuf], |bytes|);
    if WriteCursors(c.w, |bytes|).Placed? {
      var c', h' := Next(c, WWrite(bytes)), Remember(c, h, WWrite(bytes));
      LaidAppend(h, b, bytes);
      WriteSlots(c, h, c', h', n, b);
      WriteLive(c, h, c', h', b);
    }
  }

  lemma WriteSlots(c: Queue, h: History, c': Queue, h': History, n: nat, b: nat)
    requires |c.elems| == n > 0 && |h.ends| == |h.written| + 1 && h.wBuf <= |h.written|
    requires Slots(c, h, n) && Space(h, n, b) && h.wElem <= h.sElem == h'.sElem
    requires |h'.written| == |h.written| + 1 <= h.wElem + n && h.written <= h'.written
    requires c'.elems == c.elems[Mod(|h.written|, n) := |h'.written[|h.written|]|]
    ensures Slots(c', h', n)
  {
    hide Mod;
    forall i | h'.sElem <= i < |h'.written| ensures SlotHolds(c', h', n, i) {
      if i < |h.written| {
        assert SlotHolds(c, h, n, i);
        ModDistinct(i, |h.written|, n);
      }
    }
  }

  lemma WriteLive(c: Queue, h: History, c': Queue, h': History, b: nat)
    requires |c.data| == b > 0 && c'.data == c.data && |h.starts| == |h.written|
    requires Live(c, h, b) && h'.sBuf == h.sBuf && !c.wpc.WCopying? && c'.wpc.WCopying? && c'.wpc.done == 0
    requires |h'.starts| == |h'.written| == |h.written| + 1 && h.written <= h'.written && h.starts <= h'.starts
    ensures Live(c', h', b)
  {
    hide Mod;
    forall i | h'.sBuf <= i < |h'.written| ensures Intact(c', h', b, i) {
      if i < |h.written| {
        assert Intact(c, h, b, i);
        forall k | 0 <= k < Copied(c', h', i) ensures ByteHolds(c', h', b, i, k) {
          assert ByteHolds(c, h, b, i, k);
        }
      }
    }
  }

  lemma CopyStep(c: Queue, h: History, n: nat, b: nat)
    requires Inv(c, h, n, b) && Enabled(c, WCopyByte)
    ensures Inv(Next(c, WCopyByte), h, n, b)
    ensures c.wpc.wOffset + c.wpc.done < |c.data|
  {
    hide Mod, Word, IsPow2, And, Align8, Align8Word, NextOffset, NextOffsetWord, WriteCursors, ReadCursors;
    var c' := Next(c, WCopyByte);
    var last, k0 := |h.written| - 1, c.wpc.done;
    LaidContiguous(h, b, last, k0);
    forall i | h.sBuf <= i < |h.written| ensures Intact(c', h, b, i) {
      assert Intact(c, h, b, i);
      forall k | 0 <= k < Copied(c', h, i) ensures ByteHolds(c', h, b, i, k) {
        if i < last {
          assert ByteHolds(c, h, b, i, k);
          LaidDisjoint(h, n, b, i, last, k, k0);
        } else if k < k0 {
          assert ByteHolds(c, h, b, i, k);
          ModDistinct(h.starts[i] + k, h.starts[i] + k0, b);
        }
      }
    }
    forall i | h.sElem <= i < |h.written| ensures SlotHolds(c', h, n, i) {
      assert SlotHolds(c, h, n, i);
    }
  }

  lemma ReadStep(c: Queue, h: History, n: nat, b: nat)
    requires Inv(c, h, n, b) && Enabled(c, RRead)
    ensures Inv(Next(c, RRead), Remember(c, h, RRead), n, b)
  {
    hide Mod, Word, IsPow2, And, Align8, Align8Word, NextOffset, NextOffsetWord, WriteCursors, ReadCursors;
    assert SlotHolds(c, h, n, h.rd) && Chained(h, b, h.rd);
    ReadDecision(c.r, n, b, h.rd, h.ends[h.rd], |h.written[h.rd]|);
    KeepsMemory(c, h, Next(c, RRead), Remember(c, h, RRead), n, b);
  }

  lemma CopyOutStep(c: Queue, h: History, n: nat, b: nat)
    requires Inv(c, h, n, b) && Enabled(c, RCopyByte)
    ensures Inv(Next(c, RCopyByte), h, n, b)
    ensures c.rpc.rOffset + |c.rpc.got| < |c.data|
  {
    hide Mod, Word, IsPow2, And, Align8, Align8Word, NextOffset, NextOffsetWord, WriteCursors, ReadCursors;
    assert Intact(c, h, b, h.rd - 1);
    assert ByteHolds(c, h, b, h.rd - 1, |c.rpc.got|);
    LaidContiguous(h, b, h.rd - 1, |c.rpc.got|);
    KeepsMemory(c, h, Next(c, RCopyByte), h, n, b);
  }

  /** Steps that store neither a length nor a payload byte keep what memory holds of the elements. */
  lemma KeepsMemory(c: Queue, h: History, c': Queue, h': History, n: nat, b: nat)
    requires |c.elems| == n > 0 && |c.data| == b > 0 && Laid(h, b)
    requires Slots(c, h, n) && Live(c, h, b)
    requires c'.elems == c.elems && c'.data == c.data
    requires h'.written == h.written && h'.starts == h.starts && h'.ends == h.ends
    requires h'.sElem >= h.sElem && h'.sBuf >= h.sBuf
    requires forall i :: 0 <= i < |h.written| ==> Copied(c', h', i) == Copied(c, h, i)
    ensures Laid(h', b) && Slots(c', h', n) && Live(c', h', b)
  {
    hide Mod, Word, IsPow2, And, Align8, Align8Word, NextOffset, NextOffsetWord, WriteCursors, ReadCursors;
    forall i | 0 <= i < |h'.written| ensures Chained(h', b, i) {
      assert Chained(h, b, i);
    }
    forall i | h'.sElem <= i < |h'.written| ensures SlotHolds(c', h', n, i) {
      assert SlotHolds(c, h, n, i);
    }
    forall i | h'.sBuf <= i < |h'.written| ensures Intact(c', h', b, i) {
      assert Intact(c, h, b, i);
      forall k | 0 <= k < Copied(c', h', i) ensures ByteHolds(c', h', b, i, k) {
        assert ByteHolds(c, h, b, i, k);
      }
    }
  }

  /** The writer's loads of the shared heads. */
  lemma LoadHeadsStep(c: Queue, h: History, n: nat, b: nat, a: Action)
    requires Inv(c, h, n, b) && Enabled(c, a) && (a.WLoadElemHead? || a.WLoadBufHead?)
    ensures Inv(Next(c, a), Remember(c, h, a), n, b)
  {
    hide Mod, Word, IsPow2, And, Align8, Align8Word, NextOffset, NextOffsetWord, WriteCursors, ReadCursors;
    LaidMonotone(h, b, h.wBuf, h.sBuf);
    KeepsMemory(c, h, Next(c, a), Remember(c, h, a), n, b);
  }

  /** The end of a write, and the writer's stores of the shared tails. */
  lemma StoreTailsStep(c: Queue, h: History, n: nat, b: nat, a: Action)
    requires Inv(c, h, n, b) && Enabled(c, a) && (a.WCopyDone? || a.WStoreBufTail? || a.WStoreElemTail?)
    ensures Inv(Next(c, a), Remember(c, h, a), n, b)
  {
    hide Mod, Word, IsPow2, And, Align8, Align8Word, NextOffset, NextOffsetWord, WriteCursors, ReadCursors;
    LaidMonotone(h, b, h.wBuf, h.sBuf);
    KeepsMemory(c, h, Next(c, a), Remember(c, h, a), n, b);
  }

  /** The reader's load of the shared tail, and the end of a read. */
  lemma LoadTailStep(c: Queue, h: History, n: nat, b: nat, a: Action)
    requires Inv(c, h, n, b) && Enabled(c, a) && (a.RLoadElemTail? || a.RDeliver?)
    ensures Inv(Next(c, a), Remember(c, h, a), n, b)
  {
    hide Mod, Word, IsPow2, And, Align8, Align8Word, NextOffset, NextOffsetWord, WriteCursors, ReadCursors;
    LaidMonotone(h, b, h.wBuf, h.sBuf);
    assert a.RDeliver? ==> c.rpc.got == h.written[h.rd - 1];
    KeepsMemory(c, h, Next(c, a), Remember(c, h, a), n, b);
  }

  /** The reader's stores of the shared heads. */
  lemma StoreHeadsStep(c: Queue, h: History, n: nat, b: nat, a: Action)
    requires Inv(c, h, n, b) && Enabled(c, a) && (a.RStoreBufHead? || a.RStoreElemHead?)
    ensures Inv(Next(c, a), Remember(c, h, a), n, b)
  {
    hide Mod, Word, IsPow2, And, Align8, Align8Word, NextOffset, NextOffsetWord, WriteCursors, ReadCursors;
    LaidMonotone(h, b, h.wBuf, h.sBuf);
    KeepsMemory(c, h, Next(c, a), Remember(c, h, a), n, b);
  }

  lemma StepInv(c: Queue, h: History, n: nat, b: nat, a: Action)
    requires Inv(c, h, n, b) && Enabled(c, a)
    ensures Inv(Next(c, a), Remember(c, h, a), n, b)
  {
    hide Inv, Next;
    match a {
      case WWrite(bytes) => WriteStep(c, h, n, b, bytes);
      case WCopyByte => CopyStep(c, h, n, b);
      case RRead => ReadStep(c, h, n, b);
      case RCopyByte => CopyOutStep(c, h, n, b);
      case WLoadElemHead | WLoadBufHead => LoadHeadsStep(c, h, n, b, a);
      case WCopyDone | WStoreBufTail | WStoreElemTail => StoreTailsStep(c, h, n, b, a);
      case RLoadElemTail | RDeliver => LoadTailStep(c, h, n, b, a);
      case RStoreBufHead | RStoreElemHead => StoreHeadsStep(c, h, n, b, a);
    }
  }

  lemma {:induction false} RunInv(n: nat, b: nat, acts: seq<Action>, c: Queue, h: History)
    requires ValidSizes(n, b) && Run(n, b, acts, c, h)
    ensures Inv(c, h, n, b)
  {
    hide Inv, Next, Remember, Enabled;
    if acts == [] {
      InitialInv(c, n, b);
    } else {
      var c0, h0 :| Run(n, b, acts[..|acts| - 1], c0, h0) && Follows(c0, h0, acts[|acts| - 1], c, h);
      RunInv(n, b, acts[..|acts| - 1], c0, h0);
      StepInv(c0, h0, n, b, acts[|acts| - 1]);
    }
  }
}

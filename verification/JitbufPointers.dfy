/**
 * What a transform leaves in the destination where it stored the pointer of a
 * blob, and exactly when the pointer is still there (jitbuf/transformer.cc,
 * `struct jb_blob` in jitbuf/jb.h).
 */
module JitbufPointers {
  import opened Bits
  import opened Common
  import opened LittleEndian
  import opened JitbufLayout
  import opened JitbufProgram
  import opened JitbufMeaning
  import opened JitbufTheorems
  import opened JitbufExact

  // ---------------------------------------------------------------- what a run leaves

  /** Memory after the copies and the blob stores of a plan. */
  ghost function Left(fixed: seq<Copy>, blobs: seq<Blob>, src: seq<Byte>, size: nat, base: nat, mem: Memory): Memory
    requires CopiesFit(fixed + LengthCopies(blobs), src)
  {
    ApplyEvents(CopyMem(mem, fixed + LengthCopies(blobs), src), base, EventsOf(blobs, src, size, TotalLength(src, 2)))
  }

  /** The field copies of a plan. */
  function Fixed(from: Desc, to: Desc): seq<Copy> {
    FieldCopies(to.fields, FixedMap(from.fields, |from.fields|), |to.fields|)
  }

  lemma RunLeaves(from: Desc, fields: seq<Field>, to: Desc, src: seq<Byte>, base: nat, mem: Memory)
    requires Described(from, fields, true) && BuildPlan(from, to).Some? && from.size <= |src|
    requires WantedBlobs(from, to) != []
    ensures CopiesFit(Fixed(from, to) + LengthCopies(WantedBlobs(from, to)), src)
    ensures var run := RunProgram(Emit(BuildPlan(from, to).value), src, base, mem);
            run.Some? && run.value.0.mem == Left(Fixed(from, to), WantedBlobs(from, to), src, from.size, base, mem)
  {
    hide RunProgram, Emit, EventsOf, ApplyEvents, CopyMem, Described, PlanFits, HasTotal;
    hide FieldCopies, LengthCopies, FixedMap, MinSize, DropTail, TotalLength, AllBlobs;
    var plan, blobs := BuildPlan(from, to).value, WantedBlobs(from, to);
    BuiltPlanFits(from, fields, to, src);
    FitsCopies(plan, src);
    var m := PlanRuns(plan, src, base, mem);
    DropTailEvents(blobs, src, from.size, TotalLength(src, 2));
  }

  /** Length words lie behind the header, in order and apart; only the last blob takes what remains. */
  predicate WordsPlaced(blobs: seq<Blob>, size: nat) {
    && 4 <= size < U16
    && (forall i :: 0 <= i < |blobs| && !blobs[i].isRemainder ==> 4 <= blobs[i].srcPos <= size - 2)
    && (forall i, j :: 0 <= i < j < |blobs| && !blobs[j].isRemainder ==>
          !blobs[i].isRemainder && blobs[i].srcPos + 2 <= blobs[j].srcPos)
    && (forall i :: 0 <= i < |blobs| - 1 ==> !blobs[i].isRemainder)
  }

  lemma WantedPlaced(from: Desc, fields: seq<Field>, to: Desc)
    requires Described(from, fields, true) && WantedBlobs(from, to) != []
    ensures WordsPlaced(WantedBlobs(from, to), from.size)
  {
    hide LayoutEnd, WordPos, CountVar, AllBlobs, VarMap;
    var blobs, places := WantedBlobs(from, to), VarMap(to.fields, |to.fields|);
    DescribedSafe(from, fields, true);
    AllPlaced(from, fields, places, |fields|);
    AllBlobsCount(from, fields, places, |fields|);
    assert fields[..|fields|] == fields;
    forall i | 0 <= i < |blobs| - 1 ensures !blobs[i].isRemainder {
      RemainderLast(from, fields, places, |fields|, i);
    }
  }

  lemma {:induction false} AllPlaced(from: Desc, fields: seq<Field>, to: map<nat, nat>, n: nat)
    requires Described(from, fields, true) && from.nVar > 0 && n <= |fields|
    ensures var blobs := AllBlobs(from.fields, from.nVar, to, n);
            && (forall i :: 0 <= i < |blobs| && !blobs[i].isRemainder ==>
                  4 <= blobs[i].srcPos && blobs[i].srcPos + 2 <= LayoutEnd(fields, true, n) <= from.size)
            && (forall i, j :: 0 <= i < j < |blobs| && !blobs[j].isRemainder ==>
                  !blobs[i].isRemainder && blobs[i].srcPos + 2 <= blobs[j].srcPos)
  {
    hide LayoutEnd, LayoutStart, WordPos, CountVar, Positioned, FieldBytes, HeaderSize, Half;
    LayoutMonotone(fields, true, n, |fields|);
    if n > 0 {
      AllPlaced(from, fields, to, n - 1);
      LayoutMonotone(fields, true, n - 1, n);
      AllBlobsCount(from, fields, to, n - 1);
      CountVarSteps(fields, n - 1);
      var prev := AllBlobs(from.fields, from.nVar, to, n - 1);
      if fields[n - 1].ftype.VAR? && |prev| != from.nVar - 1 {
        WordBehind(from, fields, n - 1);
      }
      CountVarGrows(fields, n, |fields|);
      assert fields[..|fields|] == fields;
      forall i | 0 <= i < |prev| ensures prev[i].isRemainder ==> i == from.nVar - 1 {
        RemainderLast(from, fields, to, n - 1, i);
      }
    }
  }

  lemma {:induction false} CountVarGrows(fields: seq<Field>, i: nat, j: nat)
    requires i <= j <= |fields|
    ensures CountVar(fields[..i]) <= CountVar(fields[..j])
  {
    hide CountVar;
    if i < j {
      CountVarGrows(fields, i, j - 1);
      CountVarSteps(fields, j - 1);
    }
  }

  /** A length word starts behind everything placed before it. */
  lemma WordBehind(from: Desc, fields: seq<Field>, i: nat)
    requires Described(from, fields, true) && from.nVar > 0 && i < |fields| && fields[i].ftype.VAR?
    requires CountVar(fields[..i]) != from.nVar - 1
    ensures 4 <= from.fields[i].pos && LayoutEnd(fields, true, i) <= from.fields[i].pos
    ensures from.fields[i].pos + 2 <= LayoutEnd(fields, true, i + 1)
  {
    hide LayoutEnd, LayoutStart, CountVar;
    CountVarSteps(fields, i);
    assert Positioned(fields, true, i);
    StartInside(fields, true, i);
    LayoutMonotone(fields, true, i + 1, |fields|);
  }

  /** Only the last variable field of the source takes what remains. */
  lemma {:induction false} RemainderLast(from: Desc, fields: seq<Field>, to: map<nat, nat>, k: nat, i: nat)
    requires HasPositions(fields, true, from.fields) && k <= |fields| && i < |AllBlobs(from.fields, from.nVar, to, k)|
    ensures |AllBlobs(from.fields, from.nVar, to, k)| == CountVar(fields[..k])
    ensures AllBlobs(from.fields, from.nVar, to, k)[i].isRemainder <==> i == from.nVar - 1
  {
    hide WordPos, CountVar;
    CountVarSteps(fields, k - 1);
    AllBlobsCount(from, fields, to, k - 1);
    if i < |AllBlobs(from.fields, from.nVar, to, k - 1)| { RemainderLast(from, fields, to, k - 1, i); }
  }

  lemma {:induction false} AllBlobsCount(from: Desc, fields: seq<Field>, to: map<nat, nat>, k: nat)
    requires HasPositions(fields, true, from.fields) && k <= |fields|
    ensures |AllBlobs(from.fields, from.nVar, to, k)| == CountVar(fields[..k])
  {
    hide WordPos, CountVar;
    if k == 0 {
      CountVarSteps(fields, 0);
      assert fields[..0] == [];
    } else {
      AllBlobsCount(from, fields, to, k - 1);
      CountVarSteps(fields, k - 1);
    }
  }

  // ---------------------------------------------------------------- stores behind a pointer store

  /** The stores made after the pointer store of blob `i`. */
  function After(blobs: seq<Blob>, src: seq<Byte>, size: nat, total: nat, i: nat): seq<Event>
    requires i < |blobs|
  {
    var init, b := blobs[..|blobs| - 1], blobs[|blobs| - 1];
    var offset := OffsetAfter(init, src, size);
    if i < |blobs| - 1 then After(init, src, size, total, i) + BlobEvents(b, offset, total)
    else if b.isRemainder then [Len(b.dstPos + 2, Half(total - offset))]
    else []
  }

  /** The pointer store of blob `i`. */
  function Pointer(blobs: seq<Blob>, src: seq<Byte>, size: nat, i: nat): Event
    requires i < |blobs|
  {
    Ptr(blobs[i].dstPos, SignExtend(Half(OffsetAfter(blobs[..i], src, size))))
  }

  lemma {:induction false} EventsSplit(blobs: seq<Blob>, src: seq<Byte>, size: nat, total: nat, i: nat)
    requires i < |blobs| && blobs[i].shouldWrite
    ensures EventsOf(blobs, src, size, total)
            == EventsOf(blobs[..i], src, size, total) + [Pointer(blobs, src, size, i)]
               + After(blobs, src, size, total, i)
  {
    hide Half, SignExtend, OffsetAfter, BlobEvents, Pointer;
    var init := blobs[..|blobs| - 1];
    if i < |blobs| - 1 {
      EventsSplit(init, src, size, total, i);
      assert init[..i] == blobs[..i];
      assert Pointer(init, src, size, i) == Pointer(blobs, src, size, i) by { PointerOfPrefix(blobs, src, size, i); }
    } else {
      LastSplit(blobs, src, size, total);
    }
  }

  lemma PointerOfPrefix(blobs: seq<Blob>, src: seq<Byte>, size: nat, i: nat)
    requires i < |blobs| - 1
    ensures Pointer(blobs[..|blobs| - 1], src, size, i) == Pointer(blobs, src, size, i)
  {
    hide Half, SignExtend, OffsetAfter;
    assert blobs[..|blobs| - 1][..i] == blobs[..i];
  }

  lemma LastSplit(blobs: seq<Blob>, src: seq<Byte>, size: nat, total: nat)
    requires blobs != [] && blobs[|blobs| - 1].shouldWrite
    ensures var i := |blobs| - 1;
            BlobEvents(blobs[i], OffsetAfter(blobs[..i], src, size), total)
            == [Pointer(blobs, src, size, i)] + After(blobs, src, size, total, i)
  {
    hide Half, SignExtend, OffsetAfter;
  }

  /** The pointer of blob `k` covers the address. */
  predicate PointerOver(b: Blob, a: nat) {
    b.shouldWrite && b.dstPos <= a < b.dstPos + 8
  }

  ghost predicate SomeCovers(events: seq<Event>, a: nat) {
    exists e :: e in events && EventCovers(e, a)
  }

  lemma SomeCoversConcat(x: seq<Event>, y: seq<Event>, a: nat)
    ensures SomeCovers(x + y, a) <==> SomeCovers(x, a) || SomeCovers(y, a)
  {
    hide EventCovers;
    if SomeCovers(x, a) {
      var e :| e in x && EventCovers(e, a);
      assert e in x + y;
    } else if SomeCovers(y, a) {
      var e :| e in y && EventCovers(e, a);
      assert e in x + y;
    }
  }

  lemma BlobEventsCover(b: Blob, offset: nat, total: nat, a: nat)
    ensures SomeCovers(BlobEvents(b, offset, total), a) <==> PointerOver(b, a)
  {
    hide Half, SignExtend;
    if PointerOver(b, a) {
      BlobEventsHas(b, offset, total);
      assert EventCovers(Ptr(b.dstPos, SignExtend(Half(offset))), a);
    }
  }

  /** Which addresses the later stores reach. */
  lemma {:induction false} AfterCovers(blobs: seq<Blob>, src: seq<Byte>, size: nat, total: nat, i: nat, a: nat)
    requires i < |blobs| && forall j :: 0 <= j < |blobs| - 1 ==> !blobs[j].isRemainder
    ensures SomeCovers(After(blobs, src, size, total, i), a) <==>
            || (blobs[i].isRemainder && blobs[i].dstPos + 2 <= a < blobs[i].dstPos + 4)
            || exists k :: i < k < |blobs| && PointerOver(blobs[k], a)
  {
    hide Half, OffsetAfter, BlobEvents, PointerOver, EventCovers;
    var n := |blobs| - 1;
    var init, b, offset := blobs[..n], blobs[n], OffsetAfter(blobs[..n], src, size);
    if i < n {
      AfterCovers(init, src, size, total, i, a);
      SomeCoversConcat(After(init, src, size, total, i), BlobEvents(b, offset, total), a);
      BlobEventsCover(b, offset, total, a);
      OverLast(blobs, init, i, a);
    } else if b.isRemainder {
      var e := Len(b.dstPos + 2, Half(total - offset));
      assert After(blobs, src, size, total, i) == [e] && e in [e];
      LengthCovers(e, a);
    }
  }

  lemma LengthCovers(e: Event, a: nat)
    requires e.Len?
    ensures EventCovers(e, a) <==> e.dst <= a < e.dst + 2
  {}

  lemma OverLast(blobs: seq<Blob>, init: seq<Blob>, i: nat, a: nat)
    requires i < |blobs| - 1 && init == blobs[..|blobs| - 1]
    ensures (exists k :: i < k < |blobs| && PointerOver(blobs[k], a)) <==>
            || PointerOver(blobs[|blobs| - 1], a)
            || exists k :: i < k < |init| && PointerOver(init[k], a)
  {
    hide PointerOver;
    if k :| i < k < |init| && PointerOver(blobs[k], a) { assert PointerOver(init[k], a); }
  }

  lemma {:induction false} ApplyConcat(mem: Memory, base: nat, x: seq<Event>, y: seq<Event>)
    ensures ApplyEvents(mem, base, x + y) == ApplyEvents(ApplyEvents(mem, base, x), base, y)
  {
    hide Write, EventBytes;
    if y == [] {
      assert x + y == x;
    } else {
      assert (x + y)[..|x + y| - 1] == x + y[..|y| - 1];
      ApplyConcat(mem, base, x, y[..|y| - 1]);
    }
  }

  lemma NoneCovers(mem: Memory, base: nat, events: seq<Event>, a: nat)
    requires !SomeCovers(events, a)
    ensures ApplyEvents(mem, base, events)(a) == mem(a)
  {
    hide EventCovers, ApplyEvents;
    forall i | 0 <= i < |events| ensures !EventCovers(events[i], a) { assert events[i] in events; }
    EventsOutside(mem, base, events, a);
  }

  /** All bytes a store writes are `y`. */
  ghost predicate Fills(base: nat, e: Event, y: Byte) {
    forall k :: 0 <= k < |EventBytes(base, e)| ==> EventBytes(base, e)[k] == y
  }

  ghost predicate AllFill(base: nat, events: seq<Event>, y: Byte) {
    forall e :: e in events ==> Fills(base, e, y)
  }

  /** Stores of one byte value leave it wherever they reach. */
  lemma {:induction false} FilledByte(mem: Memory, base: nat, events: seq<Event>, a: nat, y: Byte)
    requires AllFill(base, events, y) && SomeCovers(events, a)
    ensures ApplyEvents(mem, base, events)(a) == y
  {
    hide EventBytes;
    var n := |events| - 1;
    EventLength(base, events[n]);
    assert Fills(base, events[n], y);
    if !EventCovers(events[n], a) {
      var e :| e in events && EventCovers(e, a);
      assert e in events[..n];
      FilledByte(mem, base, events[..n], a, y);
    }
  }

  // ---------------------------------------------------------------- messages that tell stores apart

  /** The 16-bit word `w` stored at `at`. */
  function PutWord(src: seq<Byte>, at: nat, w: nat): (r: seq<Byte>)
    requires at + 2 <= |src| && w < U16
    ensures |r| == |src|
  {
    src[at := w % 256][at + 1 := w / 256]
  }

  lemma PutWordReads(src: seq<Byte>, at: nat, w: nat, p: nat)
    requires at + 2 <= |src| && w < U16 && p + 2 <= |src|
    ensures Word16(PutWord(src, at, w), at) == w
    ensures p + 2 <= at || at + 2 <= p ==> Word16(PutWord(src, at, w), p) == Word16(src, p)
  {}

  /** Every length word is zero, except that of blob `i`, which is `w`. */
  predicate OneWord(blobs: seq<Blob>, src: seq<Byte>, i: nat, w: nat) {
    forall j :: 0 <= j < |blobs| ==> BlobLen(blobs[j], src) == if j == i then w else 0
  }

  lemma {:induction false} OneWordOffset(blobs: seq<Blob>, src: seq<Byte>, size: nat, i: nat, w: nat, k: nat)
    requires OneWord(blobs, src, i, w) && k <= |blobs|
    ensures OffsetAfter(blobs[..k], src, size) == size + if i < k then w else 0
  {
    hide BlobLen;
    if k > 0 {
      OneWordOffset(blobs, src, size, i, w, k - 1);
      assert blobs[..k][..k - 1] == blobs[..k - 1];
    }
  }

  /** A store that points at `disp`, or stores the length `len`. */
  predicate Plain(e: Event, disp: int, len: nat) {
    (e.Ptr? ==> e.disp == disp) && (e.Len? ==> e.len == len)
  }

  lemma BlobEventsPlain(b: Blob, offset: nat, total: nat)
    ensures forall e :: e in BlobEvents(b, offset, total) ==> Plain(e, SignExtend(Half(offset)), Half(total - offset))
  {
    hide Half, SignExtend;
  }

  /** Then all stores behind that blob's pointer store the same displacement and length. */
  lemma {:induction false} AfterPlain(blobs: seq<Blob>, src: seq<Byte>, size: nat, total: nat, i: nat, w: nat, n: nat)
    requires i < n <= |blobs| && OneWord(blobs, src, i, w)
    ensures forall e :: e in After(blobs[..n], src, size, total, i) ==>
              Plain(e, SignExtend(Half(size + w)), Half(total - (size + if blobs[i].isRemainder then 0 else w)))
  {
    hide Half, SignExtend, BlobEvents, BlobLen, OffsetAfter;
    assert blobs[..n][..n - 1] == blobs[..n - 1];
    OneWordOffset(blobs, src, size, i, w, n - 1);
    if blobs[i].isRemainder { assert w == 0 by { RemainderHasNone(blobs[i], src); } }
    if i < n - 1 {
      AfterPlain(blobs, src, size, total, i, w, n - 1);
      BlobEventsPlain(blobs[n - 1], OffsetAfter(blobs[..n - 1], src, size), total);
    }
  }

  lemma RemainderHasNone(b: Blob, src: seq<Byte>)
    requires b.isRemainder
    ensures BlobLen(b, src) == 0
  {}

  /** With zero length words, all stores are alike. */
  lemma {:induction false} EventsPlain(blobs: seq<Blob>, src: seq<Byte>, size: nat, total: nat, n: nat)
    requires n <= |blobs| && OneWord(blobs, src, 0, 0)
    ensures forall e :: e in EventsOf(blobs[..n], src, size, total) ==>
              Plain(e, SignExtend(Half(size)), Half(total - size))
  {
    hide Half, SignExtend, BlobEvents, BlobLen, OffsetAfter;
    if n > 0 {
      assert blobs[..n][..n - 1] == blobs[..n - 1];
      EventsPlain(blobs, src, size, total, n - 1);
      OneWordOffset(blobs, src, size, 0, 0, n - 1);
      BlobEventsPlain(blobs[n - 1], OffsetAfter(blobs[..n - 1], src, size), total);
    }
  }

  lemma {:induction false} ZerosFill(n: nat, k: nat)
    requires k < n
    ensures ToBytes(0, n)[k] == 0
  {
    if k > 0 { ZerosFill(n - 1, k - 1); }
  }

  lemma {:induction false} OnesFill(n: nat, k: nat)
    requires k < n
    ensures Pow2(8 * n) >= 1 && ToBytes(Pow2(8 * n) - 1, n)[k] == 255
  {
    hide Pow2;
    Pow2Small();
    Pow2Add(8, 8 * (n - 1));
    Digit(255, Pow2(8 * (n - 1)) - 1);
    if k > 0 { OnesFill(n - 1, k - 1); }
  }

  /** `y` repeated over a 64-bit and a 16-bit word. */
  function Wide(y: Byte): nat {
    if y == 0 then 0 else U64 - 1
  }

  function Narrow(y: Byte): nat {
    if y == 0 then 0 else U16 - 1
  }

  lemma PlainFills(base: nat, e: Event, disp: int, len: nat, y: Byte)
    requires Plain(e, disp, len) && y in {0, 255}
    requires e.Ptr? ==> (base + disp) % U64 == Wide(y)
    requires e.Len? ==> len == Narrow(y)
    ensures Fills(base, e, y)
  {
    hide ToBytes, Pow2;
    Pow2Values();
    Pow2Add(32, 32);
    var n := if e.Ptr? then 8 else 2;
    forall k | 0 <= k < n ensures EventBytes(base, e)[k] == y {
      if y == 0 { ZerosFill(n, k); } else { OnesFill(n, k); }
    }
  }

  /**
   * For any fixed size there are a length, a total and a message address for
   * which the pointer before and all stores behind are opposite bytes.
   */
  lemma Opposite(size: nat, last: bool) returns (w: nat, total: nat, base: nat, y: Byte)
    requires size < U16
    ensures w < U16 && total < U16 && y in {0, 255} && (last ==> w == 0)
    ensures Half(total - (size + w)) == Narrow(y)
    ensures (base + SignExtend(Half(size))) % U64 == Wide(255 - y)
    ensures !last ==> (base + SignExtend(Half(size + w))) % U64 == Wide(y)
  {
    hide Mod, Half;
    if !last && size == 0x7fff {
      w, total, base, y := 0xffff, 0x7ffd, U64 - 0x7fff, 255;
    } else {
      w, base, y := if last then 0 else 1, U64 - 1 - SignExtend(size), 0;
      total := (size + w) % U16;
    }
    HalfIs(size);
    HalfIs(size + w);
    HalfIs(total - (size + w));
  }

  lemma HalfIs(x: int)
    ensures Half(x) == x % U16
  {
    ModIsRemainder(x, U16);
  }

  // ---------------------------------------------------------------- exactly when a pointer is held

  /** The `n` bytes at an address. */
  ghost function Bytes(mem: Memory, at: nat, n: nat): (r: seq<Byte>)
    ensures |r| == n && forall k :: 0 <= k < n ==> r[k] == mem(at + k)
  {
    seq(n, k requires 0 <= k < n => mem(at + k))
  }

  /** Nothing is stored over the pointer of blob `i`: neither its own length nor a later pointer. */
  predicate PointerClear(blobs: seq<Blob>, i: nat)
    requires i < |blobs|
  {
    && !blobs[i].isRemainder
    && forall k :: i < k < |blobs| && blobs[k].shouldWrite ==>
         blobs[k].dstPos + 8 <= blobs[i].dstPos || blobs[i].dstPos + 8 <= blobs[k].dstPos
  }

  /** Behind the pointer store of blob `i`, memory is what the later stores make of it. */
  lemma LeftAfter(fixed: seq<Copy>, blobs: seq<Blob>, src: seq<Byte>, size: nat, base: nat, mem: Memory, i: nat)
    returns (before: Memory)
    requires CopiesFit(fixed + LengthCopies(blobs), src) && i < |blobs| && blobs[i].shouldWrite
    ensures var p, after := Pointer(blobs, src, size, i), After(blobs, src, size, TotalLength(src, 2), i);
            && Bytes(before, p.dst, 8) == EventBytes(base, p)
            && Left(fixed, blobs, src, size, base, mem) == ApplyEvents(before, base, after)
  {
    hide EventsOf, ApplyEvents, After, CopyMem, LengthCopies, TotalLength, EventBytes;
    var total, m := TotalLength(src, 2), CopyMem(mem, fixed + LengthCopies(blobs), src);
    var pre, p := EventsOf(blobs[..i], src, size, total), Pointer(blobs, src, size, i);
    EventsSplit(blobs, src, size, total, i);
    ApplyConcat(m, base, pre + [p], After(blobs, src, size, total, i));
    before := ApplyEvents(m, base, pre + [p]);
    ApplySnoc(m, base, pre, p);
    EventLength(base, p);
  }

  lemma PointerStays(fixed: seq<Copy>, blobs: seq<Blob>, src: seq<Byte>, size: nat, base: nat, mem: Memory, i: nat)
    requires CopiesFit(fixed + LengthCopies(blobs), src) && WordsPlaced(blobs, size)
    requires i < |blobs| && blobs[i].shouldWrite && PointerClear(blobs, i)
    ensures Bytes(Left(fixed, blobs, src, size, base, mem), blobs[i].dstPos, 8)
            == EventBytes(base, Pointer(blobs, src, size, i))
  {
    hide *;
    var before := LeftAfter(fixed, blobs, src, size, base, mem, i);
    var left, d := Left(fixed, blobs, src, size, base, mem), blobs[i].dstPos;
    forall k | 0 <= k < 8 ensures Bytes(left, d, 8)[k] == Bytes(before, d, 8)[k] {
      ClearMisses(blobs, src, size, TotalLength(src, 2), i, d + k);
      NoneCovers(before, base, After(blobs, src, size, TotalLength(src, 2), i), d + k);
    }
    assert Bytes(left, d, 8) == Bytes(before, d, 8);
    assert Pointer(blobs, src, size, i).dst == d by { PointerAt(blobs, src, size, i); }
  }

  lemma PointerAt(blobs: seq<Blob>, src: seq<Byte>, size: nat, i: nat)
    requires i < |blobs|
    ensures Pointer(blobs, src, size, i).dst == blobs[i].dstPos
  {}

  lemma ClearMisses(blobs: seq<Blob>, src: seq<Byte>, size: nat, total: nat, i: nat, a: nat)
    requires WordsPlaced(blobs, size) && i < |blobs| && PointerClear(blobs, i)
    requires blobs[i].dstPos <= a < blobs[i].dstPos + 8
    ensures !SomeCovers(After(blobs, src, size, total, i), a)
  {
    hide After, SomeCovers;
    AfterCovers(blobs, src, size, total, i, a);
  }

  /** A message and an address for which everything stored behind the pointer differs from it in every byte. */
  lemma OppositeMessage(blobs: seq<Blob>, size: nat, i: nat) returns (src: seq<Byte>, base: nat, y: Byte)
    requires WordsPlaced(blobs, size) && i < |blobs| && blobs[i].shouldWrite
    ensures |src| == size && y in {0, 255}
    ensures Fills(base, Pointer(blobs, src, size, i), 255 - y)
    ensures AllFill(base, After(blobs, src, size, TotalLength(src, 2), i), y)
  {
    hide Half, SignExtend, After, Fills, OffsetAfter, TotalLength;
    var w, total;
    w, total, base, y := Opposite(size, blobs[i].isRemainder);
    src := WordMessage(blobs, size, i, w, total);
    OneWordOffset(blobs, src, size, i, w, i);
    PlainFills(base, Pointer(blobs, src, size, i), SignExtend(Half(size)), 0, 255 - y);
    AfterPlain(blobs, src, size, total, i, w, |blobs|);
    assert blobs[..|blobs|] == blobs;
    var after := After(blobs, src, size, total, i);
    forall e | e in after ensures Fills(base, e, y) {
      if blobs[i].isRemainder { AfterLast(blobs, src, size, total, i); }
      PlainFills(base, e, SignExtend(Half(size + w)), Half(total - (size + w)), y);
    }
  }

  lemma AfterLast(blobs: seq<Blob>, src: seq<Byte>, size: nat, total: nat, i: nat)
    requires WordsPlaced(blobs, size) && i < |blobs| && blobs[i].isRemainder
    ensures forall e :: e in After(blobs, src, size, total, i) ==> e.Len?
  {}

  /** A message with one length word and a total. */
  lemma WordMessage(blobs: seq<Blob>, size: nat, i: nat, w: nat, total: nat) returns (src: seq<Byte>)
    requires WordsPlaced(blobs, size) && i < |blobs| && w < U16 && total < U16 && (blobs[i].isRemainder ==> w == 0)
    ensures |src| == size && TotalLength(src, 2) == total && OneWord(blobs, src, i, w)
  {
    hide PutWord;
    var zero := Zeros(size);
    var head := PutWord(zero, 2, total);
    src := if blobs[i].isRemainder then head else PutWord(head, blobs[i].srcPos, w);
    PutWordReads(zero, 2, total, 2);
    if !blobs[i].isRemainder { PutWordReads(head, blobs[i].srcPos, w, 2); }
    forall j | 0 <= j < |blobs| ensures BlobLen(blobs[j], src) == if j == i then w else 0 {
      if !blobs[j].isRemainder {
        PutWordReads(zero, 2, total, blobs[j].srcPos);
        if !blobs[i].isRemainder { PutWordReads(head, blobs[i].srcPos, w, blobs[j].srcPos); }
      }
    }
  }

  /** The pointer of blob `i` is in the destination after the transform. */
  ghost predicate PointerHeld(from: Desc, to: Desc, src: seq<Byte>, base: nat, mem: Memory, i: nat)
    requires BuildPlan(from, to).Some? && i < |WantedBlobs(from, to)|
  {
    var run, blobs := RunProgram(Emit(BuildPlan(from, to).value), src, base, mem), WantedBlobs(from, to);
    run.Some? &&
    Bytes(run.value.0.mem, blobs[i].dstPos, 8) == EventBytes(base, Pointer(blobs, src, from.size, i))
  }

  /**
   * From every message, wherever it lies, into every memory, the pointer stored
   * for a wanted blob is still there after the transform, exactly when the blob
   * is not the last of the sender and no later pointer overlaps it.
   */
  lemma PointerHeldExactly(from: Desc, fields: seq<Field>, to: Desc, i: nat)
    requires Described(from, fields, true) && BuildPlan(from, to).Some?
    requires i < |WantedBlobs(from, to)| && WantedBlobs(from, to)[i].shouldWrite
    ensures
      (forall src: seq<Byte>, base: nat, mem: Memory | from.size <= |src| :: PointerHeld(from, to, src, base, mem, i))
      <==> PointerClear(WantedBlobs(from, to), i)
  {
    hide RunProgram, Emit, Described, BuildPlan, WantedBlobs, Left, WordsPlaced, PointerClear, EventBytes, Fixed;
    hide LengthCopies;
    var blobs := WantedBlobs(from, to);
    WantedPlaced(from, fields, to);
    if PointerClear(blobs, i) {
      forall src: seq<Byte>, base: nat, mem: Memory | from.size <= |src|
        ensures PointerHeld(from, to, src, base, mem, i)
      {
        RunLeaves(from, fields, to, src, base, mem);
        PointerStays(Fixed(from, to), blobs, src, from.size, base, mem, i);
      }
    } else {
      var src, base, y := OppositeMessage(blobs, from.size, i);
      RunLeaves(from, fields, to, src, base, _ => 0);
      PointerLost(Fixed(from, to), blobs, src, from.size, base, _ => 0, i, y);
      assert !PointerHeld(from, to, src, base, _ => 0, i);
    }
  }

  lemma PointerLost(fixed: seq<Copy>, blobs: seq<Blob>, src: seq<Byte>, size: nat, base: nat, mem: Memory, i: nat,
                    y: Byte)
    requires CopiesFit(fixed + LengthCopies(blobs), src) && WordsPlaced(blobs, size) && |src| == size
    requires i < |blobs| && blobs[i].shouldWrite && !PointerClear(blobs, i) && y in {0, 255}
    requires Fills(base, Pointer(blobs, src, size, i), 255 - y)
    requires AllFill(base, After(blobs, src, size, TotalLength(src, 2), i), y)
    ensures Bytes(Left(fixed, blobs, src, size, base, mem), blobs[i].dstPos, 8)
            != EventBytes(base, Pointer(blobs, src, size, i))
  {
    hide After, Left, LengthCopies, EventBytes, TotalLength, ApplyEvents, OffsetAfter, SomeCovers, AllFill;
    var before := LeftAfter(fixed, blobs, src, size, base, mem, i);
    var a := OverlapAt(blobs, i);
    AfterCovers(blobs, src, size, TotalLength(src, 2), i, a);
    FilledByte(before, base, After(blobs, src, size, TotalLength(src, 2), i), a, y);
    EventLength(base, Pointer(blobs, src, size, i));
    assert EventBytes(base, Pointer(blobs, src, size, i))[a - blobs[i].dstPos] == 255 - y;
    assert Bytes(Left(fixed, blobs, src, size, base, mem), blobs[i].dstPos, 8)[a - blobs[i].dstPos] == y;
  }

  /** An address of the pointer under a later store. */
  lemma OverlapAt(blobs: seq<Blob>, i: nat) returns (a: nat)
    requires i < |blobs| && !PointerClear(blobs, i)
    ensures blobs[i].dstPos <= a < blobs[i].dstPos + 8
    ensures || (blobs[i].isRemainder && blobs[i].dstPos + 2 <= a < blobs[i].dstPos + 4)
            || exists k :: i < k < |blobs| && PointerOver(blobs[k], a)
  {
    if blobs[i].isRemainder {
      a := blobs[i].dstPos + 2;
    } else {
      var k :| i < k < |blobs| && blobs[k].shouldWrite &&
               !(blobs[k].dstPos + 8 <= blobs[i].dstPos || blobs[i].dstPos + 8 <= blobs[k].dstPos);
      a := if blobs[k].dstPos < blobs[i].dstPos then blobs[i].dstPos else blobs[k].dstPos;
      assert PointerOver(blobs[k], a);
    }
  }

  // ---------------------------------------------------------------- the last blob

  /** The length a blob is handed out with. */
  function GivenLength(blobs: seq<Blob>, src: seq<Byte>, srcSize: nat, total: nat, i: nat): nat
    requires i < |blobs|
  {
    if blobs[i].isRemainder then Half(total - OffsetAfter(blobs[..i], src, srcSize)) else BlobLen(blobs[i], src)
  }

  /** The events of a remainder end with its pointer and its length. */
  lemma AfterRemainder(blobs: seq<Blob>, src: seq<Byte>, size: nat, total: nat, i: nat)
    requires i == |blobs| - 1 && blobs[i].isRemainder
    ensures After(blobs, src, size, total, i)
            == [Len(blobs[i].dstPos + 2, Half(total - OffsetAfter(blobs[..i], src, size)))]
  {}

  /**
   * After every transform that wants the sender's last blob, the length of that
   * blob lies in the middle of its pointer. So the pointer is there exactly
   * when its bytes 2 and 3, from the address of the message, happen to be the
   * length.
   */
  lemma RemainderInsidePointer(from: Desc, fields: seq<Field>, to: Desc, src: seq<Byte>, base: nat, mem: Memory, i: nat)
    requires Described(from, fields, true) && BuildPlan(from, to).Some? && from.size <= |src|
    requires i < |WantedBlobs(from, to)| && WantedBlobs(from, to)[i].shouldWrite && WantedBlobs(from, to)[i].isRemainder
    ensures var run, blobs := RunProgram(Emit(BuildPlan(from, to).value), src, base, mem), WantedBlobs(from, to);
            var p := EventBytes(base, Pointer(blobs, src, from.size, i));
            var len := ToBytes(GivenLength(blobs, src, from.size, TotalLength(src, 2), i), 2);
            && run.Some? && |p| == 8
            && Bytes(run.value.0.mem, blobs[i].dstPos, 8) == p[..2] + len + p[4..]
            && (PointerHeld(from, to, src, base, mem, i) <==> p[2..4] == len)
  {
    hide RunProgram, Emit, Described, BuildPlan, WantedBlobs, Left, EventBytes, LengthCopies, Fixed, ToBytes, Half;
    hide OffsetAfter, TotalLength, After;
    var blobs, total := WantedBlobs(from, to), TotalLength(src, 2);
    WantedPlaced(from, fields, to);
    assert i == |blobs| - 1;
    RunLeaves(from, fields, to, src, base, mem);
    var before := LeftAfter(Fixed(from, to), blobs, src, from.size, base, mem, i);
    AfterRemainder(blobs, src, from.size, total, i);
    var p, d := EventBytes(base, Pointer(blobs, src, from.size, i)), blobs[i].dstPos;
    var e := Len(d + 2, GivenLength(blobs, src, from.size, total, i));
    LenBytes(base, d + 2, e.len);
    StoreInside(before, base, e, d, p);
  }

  lemma LenBytes(base: nat, d: nat, len: nat)
    ensures EventBytes(base, Len(d, len)) == ToBytes(len, 2)
  {}

  lemma StoreInside(before: Memory, base: nat, e: Event, d: nat, p: seq<Byte>)
    requires e.Len? && e.dst == d + 2 && |p| == 8 && Bytes(before, d, 8) == p && |EventBytes(base, e)| == 2
    ensures Bytes(ApplyEvents(before, base, [e]), d, 8) == p[..2] + EventBytes(base, e) + p[4..]
    ensures p == p[..2] + p[2..4] + p[4..]
    ensures p == p[..2] + EventBytes(base, e) + p[4..] <==> p[2..4] == EventBytes(base, e)
  {
    hide EventBytes;
    assert [] + [e] == [e];
    ApplySnoc(before, base, [], e);
    var q := p[..2] + EventBytes(base, e) + p[4..];
    forall k | 0 <= k < 8 ensures Bytes(ApplyEvents(before, base, [e]), d, 8)[k] == q[k] {}
    if p == q { assert p[2..4] == q[2..4] == EventBytes(base, e); }
  }
}

/**
 * What a transform leaves in the destination where the length of a blob
 * belongs, and exactly when the length is there (jitbuf/transform_builder.cc,
 * jitbuf/transformer.cc, `struct jb_blob` in jitbuf/jb.h).
 */
module JitbufLengths {
  import opened Bits
  import opened Common
  import opened LittleEndian
  import opened JitbufLayout
  import opened JitbufProgram
  import opened JitbufMeaning
  import opened JitbufTheorems
  import opened JitbufExact
  import opened JitbufPointers

  // ---------------------------------------------------------------- exactly when a length is held

  /** Nothing is stored over the length of blob `i`, and it is stored at all. */
  predicate LengthClear(blobs: seq<Blob>, i: nat)
    requires i < |blobs|
  {
    && !blobs[i].isRemainder
    && (forall k :: 0 <= k < |blobs| && k != i && blobs[k].shouldWrite ==>
          blobs[k].dstPos <= blobs[i].dstPos || blobs[i].dstPos + 10 <= blobs[k].dstPos)
    && (forall k :: i < k < |blobs| && blobs[k].shouldWrite && !blobs[k].isRemainder ==>
          blobs[k].dstPos + 2 <= blobs[i].dstPos || blobs[i].dstPos + 2 <= blobs[k].dstPos)
  }

  function LengthCopy(b: Blob): Copy {
    Copy(b.srcPos, b.dstPos + 8, 2)
  }

  /** The length copies made after that of blob `i`. */
  function CopiesAfter(blobs: seq<Blob>, i: nat): seq<Copy>
    requires i < |blobs|
  {
    var b := blobs[|blobs| - 1];
    if i < |blobs| - 1 then
      CopiesAfter(blobs[..|blobs| - 1], i) + if b.shouldWrite && !b.isRemainder then [LengthCopy(b)] else []
    else []
  }

  lemma {:induction false} CopiesSplit(blobs: seq<Blob>, i: nat)
    requires i < |blobs| && blobs[i].shouldWrite && !blobs[i].isRemainder
    ensures LengthCopies(blobs) == LengthCopies(blobs[..i]) + [LengthCopy(blobs[i])] + CopiesAfter(blobs, i)
  {
    var init := blobs[..|blobs| - 1];
    if i < |blobs| - 1 {
      CopiesSplit(init, i);
      assert init[..i] == blobs[..i];
    }
  }

  /** The length of blob `k` covers the address. */
  predicate LengthOver(b: Blob, a: nat) {
    b.shouldWrite && !b.isRemainder && b.dstPos + 8 <= a < b.dstPos + 10
  }

  ghost predicate SomeCopies(copies: seq<Copy>, a: nat) {
    exists c :: c in copies && Covers(c, a)
  }

  lemma {:induction false} CopiesAfterCover(blobs: seq<Blob>, i: nat, a: nat)
    requires i < |blobs|
    ensures SomeCopies(CopiesAfter(blobs, i), a) <==> exists k :: i < k < |blobs| && LengthOver(blobs[k], a)
  {
    hide Covers;
    var n := |blobs| - 1;
    if i < n {
      var init, b := blobs[..n], blobs[n];
      CopiesAfterCover(init, i, a);
      assert Covers(LengthCopy(b), a) <==> b.dstPos + 8 <= a < b.dstPos + 10 by { LengthCopyCovers(b, a); }
      if k :| i < k < n && LengthOver(blobs[k], a) { assert LengthOver(init[k], a); }
      if c :| c in CopiesAfter(init, i) && Covers(c, a) { assert c in CopiesAfter(blobs, i); }
      if LengthOver(b, a) { assert LengthCopy(b) in CopiesAfter(blobs, i); }
    }
  }

  lemma LengthCopyCovers(b: Blob, a: nat)
    ensures Covers(LengthCopy(b), a) <==> b.dstPos + 8 <= a < b.dstPos + 10
  {}

  lemma {:induction false} EventsCover(blobs: seq<Blob>, src: seq<Byte>, size: nat, total: nat, a: nat)
    ensures SomeCovers(EventsOf(blobs, src, size, total), a) <==>
            exists k :: 0 <= k < |blobs| && PointerOver(blobs[k], a)
  {
    hide BlobEvents, OffsetAfter, PointerOver;
    if blobs != [] {
      var n := |blobs| - 1;
      var init, offset := blobs[..n], OffsetAfter(blobs[..n], src, size);
      EventsCover(init, src, size, total, a);
      SomeCoversConcat(EventsOf(init, src, size, total), BlobEvents(blobs[n], offset, total), a);
      BlobEventsCover(blobs[n], offset, total, a);
      if k :| 0 <= k < n && PointerOver(blobs[k], a) { assert PointerOver(init[k], a); }
    }
  }

  /** Behind the length copy of blob `i`, memory is what the later copies make of it. */
  lemma CopiedAfter(fixed: seq<Copy>, blobs: seq<Blob>, src: seq<Byte>, mem: Memory, i: nat) returns (before: Memory)
    requires CopiesFit(fixed + LengthCopies(blobs), src)
    requires i < |blobs| && blobs[i].shouldWrite && !blobs[i].isRemainder
    ensures blobs[i].srcPos + 2 <= |src| && CopiesFit(CopiesAfter(blobs, i), src)
    ensures Bytes(before, blobs[i].dstPos + 8, 2) == src[blobs[i].srcPos..blobs[i].srcPos + 2]
    ensures CopyMem(mem, fixed + LengthCopies(blobs), src) == CopyMem(before, CopiesAfter(blobs, i), src)
  {
    hide CopyMem, LengthCopies, CopiesAfter, CopiesFit;
    var all, c, later := fixed + LengthCopies(blobs), LengthCopy(blobs[i]), CopiesAfter(blobs, i);
    CopiesSplit(blobs, i);
    var pre := fixed + LengthCopies(blobs[..i]);
    assert all == (pre + [c]) + later;
    SuffixFits(pre + [c], later, all, src);
    SuffixFits(pre, [c], pre + [c], src);
    CopyMemConcat(mem, pre + [c], later, src);
    CopyMemConcat(mem, pre, [c], src);
    before := CopyMem(mem, pre + [c], src);
    OneCopy(CopyMem(mem, pre, src), c, src);
  }

  lemma OneCopy(mem: Memory, c: Copy, src: seq<Byte>)
    requires CopiesFit([c], src)
    ensures c.src + c.size <= |src| && Bytes(CopyMem(mem, [c], src), c.dst, c.size) == src[c.src..c.src + c.size]
  {
    assert [c][0] == c && [c][1..] == [];
  }

  lemma LengthStays(fixed: seq<Copy>, blobs: seq<Blob>, src: seq<Byte>, size: nat, base: nat, mem: Memory, i: nat)
    requires CopiesFit(fixed + LengthCopies(blobs), src)
    requires i < |blobs| && blobs[i].shouldWrite && LengthClear(blobs, i)
    ensures Bytes(Left(fixed, blobs, src, size, base, mem), blobs[i].dstPos + 8, 2)
            == ToBytes(BlobLen(blobs[i], src), 2)
  {
    hide *;
    assert !blobs[i].isRemainder by { ClearIsNotLast(blobs, i); }
    var before := CopiedAfter(fixed, blobs, src, mem, i);
    var left, d := Left(fixed, blobs, src, size, base, mem), blobs[i].dstPos + 8;
    forall k | 0 <= k < 2 ensures Bytes(left, d, 2)[k] == Bytes(before, d, 2)[k] {
      LengthMisses(blobs, src, size, TotalLength(src, 2), i, d + k);
      LeftUncovered(fixed, blobs, src, size, base, mem, d + k);
      NoneCopies(before, CopiesAfter(blobs, i), src, d + k);
    }
    assert Bytes(left, d, 2) == Bytes(before, d, 2);
    WordBytes(blobs[i], src);
  }

  lemma ClearIsNotLast(blobs: seq<Blob>, i: nat)
    requires i < |blobs| && LengthClear(blobs, i)
    ensures !blobs[i].isRemainder
  {}

  lemma LeftUncovered(fixed: seq<Copy>, blobs: seq<Blob>, src: seq<Byte>, size: nat, base: nat, mem: Memory, a: nat)
    requires CopiesFit(fixed + LengthCopies(blobs), src)
    requires !SomeCovers(EventsOf(blobs, src, size, TotalLength(src, 2)), a)
    ensures Left(fixed, blobs, src, size, base, mem)(a) == CopyMem(mem, fixed + LengthCopies(blobs), src)(a)
  {
    hide EventsOf, ApplyEvents, CopyMem, LengthCopies, TotalLength, SomeCovers;
    var events := EventsOf(blobs, src, size, TotalLength(src, 2));
    NoneCovers(CopyMem(mem, fixed + LengthCopies(blobs), src), base, events, a);
  }

  lemma WordBytes(b: Blob, src: seq<Byte>)
    requires !b.isRemainder && b.srcPos + 2 <= |src|
    ensures ToBytes(BlobLen(b, src), 2) == src[b.srcPos..b.srcPos + 2]
  {
    hide ToBytes, FromBytes;
    BytesRoundTrip(src[b.srcPos..b.srcPos + 2]);
  }

  lemma LengthMisses(blobs: seq<Blob>, src: seq<Byte>, size: nat, total: nat, i: nat, a: nat)
    requires i < |blobs| && LengthClear(blobs, i) && blobs[i].dstPos + 8 <= a < blobs[i].dstPos + 10
    ensures !SomeCovers(EventsOf(blobs, src, size, total), a) && !SomeCopies(CopiesAfter(blobs, i), a)
  {
    hide EventsOf, SomeCovers, SomeCopies, CopiesAfter;
    EventsCover(blobs, src, size, total, a);
    CopiesAfterCover(blobs, i, a);
  }

  lemma NoneCopies(mem: Memory, copies: seq<Copy>, src: seq<Byte>, a: nat)
    requires CopiesFit(copies, src) && !SomeCopies(copies, a)
    ensures CopyMem(mem, copies, src)(a) == mem(a)
  {
    hide Covers, CopyMem;
    forall i | 0 <= i < |copies| ensures !Covers(copies[i], a) { assert copies[i] in copies; }
    CopyMemOutside(mem, copies, src, a);
  }

  /** All bytes copied are 255. */
  ghost predicate CopyOnes(copies: seq<Copy>, src: seq<Byte>) {
    forall c, k :: c in copies && c.src <= k < c.src + c.size ==> k < |src| && src[k] == 255
  }

  /** Copies of bytes 255 leave it wherever they reach. */
  lemma {:induction false} CopiedByte(mem: Memory, copies: seq<Copy>, src: seq<Byte>, a: nat)
    requires CopiesFit(copies, src) && SomeCopies(copies, a) && CopyOnes(copies, src)
    ensures CopyMem(mem, copies, src)(a) == 255
  {
    var c := copies[0];
    var mem' := Write(mem, c.dst, src[c.src..c.src + c.size]);
    if SomeCopies(copies[1..], a) {
      CopiedByte(mem', copies[1..], src, a);
    } else {
      NoneCopies(mem', copies[1..], src, a);
      var c' :| c' in copies && Covers(c', a);
      assert c' == c;
      assert c in copies && c.src <= c.src + (a - c.dst) < c.src + c.size;
    }
  }

  /** The length of blob `i` is in the destination after the transform. */
  ghost predicate LengthHeld(from: Desc, to: Desc, src: seq<Byte>, base: nat, mem: Memory, i: nat)
    requires BuildPlan(from, to).Some? && i < |WantedBlobs(from, to)|
  {
    var run, blobs := RunProgram(Emit(BuildPlan(from, to).value), src, base, mem), WantedBlobs(from, to);
    run.Some? && Bytes(run.value.0.mem, blobs[i].dstPos + 8, 2)
                 == ToBytes(GivenLength(blobs, src, from.size, TotalLength(src, 2), i), 2)
  }

  /**
   * From every message into every memory, the length of a wanted blob is in its
   * struct after the transform, exactly when the blob is not the last of the
   * sender and neither a pointer nor a later length overlaps it.
   */
  lemma LengthHeldExactly(from: Desc, fields: seq<Field>, to: Desc, i: nat)
    requires Described(from, fields, true) && BuildPlan(from, to).Some?
    requires i < |WantedBlobs(from, to)| && WantedBlobs(from, to)[i].shouldWrite
    ensures
      (forall src: seq<Byte>, base: nat, mem: Memory | from.size <= |src| :: LengthHeld(from, to, src, base, mem, i))
      <==> LengthClear(WantedBlobs(from, to), i)
  {
    hide RunProgram, Emit, Described, BuildPlan, WantedBlobs, Left, WordsPlaced, LengthClear, Fixed, LengthCopies;
    hide BlobLen, ToBytes;
    var blobs := WantedBlobs(from, to);
    WantedPlaced(from, fields, to);
    if LengthClear(blobs, i) {
      ClearIsNotLast(blobs, i);
      forall src: seq<Byte>, base: nat, mem: Memory | from.size <= |src|
        ensures LengthHeld(from, to, src, base, mem, i)
      {
        RunLeaves(from, fields, to, src, base, mem);
        LengthStays(Fixed(from, to), blobs, src, from.size, base, mem, i);
      }
    } else if blobs[i].isRemainder {
      RemainderUnheld(from, fields, to, i);
    } else if p :| PointerOnLength(blobs, i, p) {
      PointerUnheld(from, fields, to, i, p);
    } else {
      LengthUnheld(from, fields, to, i);
    }
  }

  /** Address `a` of the length of blob `i` is under a pointer. */
  predicate PointerOnLength(blobs: seq<Blob>, i: nat, a: nat)
    requires i < |blobs|
  {
    blobs[i].dstPos + 8 <= a < blobs[i].dstPos + 10 && exists k :: 0 <= k < |blobs| && PointerOver(blobs[k], a)
  }

  /** With zero lengths and an address that makes all stores 255, a length under a pointer is not zero. */
  lemma PointerUnheld(from: Desc, fields: seq<Field>, to: Desc, i: nat, a: nat)
    requires Described(from, fields, true) && BuildPlan(from, to).Some?
    requires i < |WantedBlobs(from, to)| && !WantedBlobs(from, to)[i].isRemainder
    requires PointerOnLength(WantedBlobs(from, to), i, a)
    ensures exists src: seq<Byte>, base: nat, mem: Memory ::
              from.size <= |src| && !LengthHeld(from, to, src, base, mem, i)
  {
    hide RunProgram, Emit, Described, BuildPlan, WantedBlobs, Left, WordsPlaced, Fixed, LengthCopies;
    hide BlobLen, ToBytes, TotalLength, PointerOver;
    var blobs, size, mem: Memory := WantedBlobs(from, to), from.size, _ => 0;
    WantedPlaced(from, fields, to);
    var src, base := FullMessage(blobs, size);
    RunLeaves(from, fields, to, src, base, mem);
    EventsCover(blobs, src, size, TotalLength(src, 2), a);
    FilledLeft(Fixed(from, to), blobs, src, size, base, mem, a);
    var at := blobs[i].dstPos + 8;
    assert Bytes(Left(Fixed(from, to), blobs, src, size, base, mem), at, 2)[a - at] == 255;
    ZerosFill(2, a - at);
    assert !LengthHeld(from, to, src, base, mem, i);
  }

  lemma FilledLeft(fixed: seq<Copy>, blobs: seq<Blob>, src: seq<Byte>, size: nat, base: nat, mem: Memory, a: nat)
    requires CopiesFit(fixed + LengthCopies(blobs), src)
    requires var events := EventsOf(blobs, src, size, TotalLength(src, 2));
             AllFill(base, events, 255) && SomeCovers(events, a)
    ensures Left(fixed, blobs, src, size, base, mem)(a) == 255
  {
    hide EventsOf, ApplyEvents, CopyMem, LengthCopies, TotalLength, SomeCovers, AllFill;
    var events := EventsOf(blobs, src, size, TotalLength(src, 2));
    FilledByte(CopyMem(mem, fixed + LengthCopies(blobs), src), base, events, a, 255);
  }

  lemma FullMessage(blobs: seq<Blob>, size: nat) returns (src: seq<Byte>, base: nat)
    requires WordsPlaced(blobs, size) && blobs != []
    ensures |src| == size && OneWord(blobs, src, 0, 0)
    ensures AllFill(base, EventsOf(blobs, src, size, TotalLength(src, 2)), 255)
  {
    hide EventsOf, Fills, TotalLength, Half, BlobLen;
    var total := (size + U16 - 1) % U16;
    base := U64 - 1 - SignExtend(size);
    src := WordMessage(blobs, size, 0, 0, total);
    HalfIs(size);
    HalfIs(total - size);
    EventsPlain(blobs, src, size, total, |blobs|);
    assert blobs[..|blobs|] == blobs;
    forall e | e in EventsOf(blobs, src, size, total) ensures Fills(base, e, 255) {
      PlainFills(base, e, SignExtend(Half(size)), Half(total - size), 255);
    }
  }

  /** With a zero length among lengths of 2^16 - 1, a length under a later one is not zero. */
  lemma LengthUnheld(from: Desc, fields: seq<Field>, to: Desc, i: nat)
    requires Described(from, fields, true) && BuildPlan(from, to).Some?
    requires i < |WantedBlobs(from, to)| && !WantedBlobs(from, to)[i].isRemainder
    requires WantedBlobs(from, to)[i].shouldWrite
    requires !LengthClear(WantedBlobs(from, to), i) && forall a :: !PointerOnLength(WantedBlobs(from, to), i, a)
    ensures exists src: seq<Byte>, base: nat, mem: Memory ::
              from.size <= |src| && !LengthHeld(from, to, src, base, mem, i)
  {
    hide RunProgram, Emit, Described, BuildPlan, WantedBlobs, Left, WordsPlaced, Fixed, LengthCopies;
    hide BlobLen, ToBytes, TotalLength, PointerOver, LengthOver, EventsOf, SomeCovers, CopyMem, CopyOnes;
    var blobs, size, mem: Memory := WantedBlobs(from, to), from.size, _ => 0;
    WantedPlaced(from, fields, to);
    var a := LengthOverlapAt(blobs, i);
    var src := OnesMessage(blobs, size, i);
    RunLeaves(from, fields, to, src, 0, mem);
    EventsCover(blobs, src, size, TotalLength(src, 2), a);
    assert !PointerOnLength(blobs, i, a);
    LeftUncovered(Fixed(from, to), blobs, src, size, 0, mem, a);
    CopiedLeft(Fixed(from, to), blobs, src, mem, i, a);
    var at := blobs[i].dstPos + 8;
    assert Bytes(Left(Fixed(from, to), blobs, src, size, 0, mem), at, 2)[a - at] == 255;
    ZerosFill(2, a - at);
    assert !LengthHeld(from, to, src, 0, mem, i);
  }

  /** An address of the length under a later length. */
  lemma LengthOverlapAt(blobs: seq<Blob>, i: nat) returns (a: nat)
    requires i < |blobs| && !blobs[i].isRemainder && !LengthClear(blobs, i) && forall a :: !PointerOnLength(blobs, i, a)
    ensures blobs[i].dstPos + 8 <= a < blobs[i].dstPos + 10 && exists k :: i < k < |blobs| && LengthOver(blobs[k], a)
  {
    var d := blobs[i].dstPos;
    forall k | 0 <= k < |blobs| && k != i && blobs[k].shouldWrite
      ensures blobs[k].dstPos <= d || d + 10 <= blobs[k].dstPos
    {
      if d < blobs[k].dstPos < d + 10 {
        var p := if blobs[k].dstPos < d + 8 then d + 8 else blobs[k].dstPos;
        assert PointerOver(blobs[k], p);
        assert PointerOnLength(blobs, i, p);
      }
    }
    var k :| i < k < |blobs| && blobs[k].shouldWrite && !blobs[k].isRemainder &&
             !(blobs[k].dstPos + 2 <= d || d + 2 <= blobs[k].dstPos);
    a := if blobs[k].dstPos < d then d + 8 else blobs[k].dstPos + 8;
    assert LengthOver(blobs[k], a);
  }

  /** Bytes 255, except for a zero length word of blob `i`. */
  lemma OnesMessage(blobs: seq<Blob>, size: nat, i: nat) returns (src: seq<Byte>)
    requires WordsPlaced(blobs, size) && i < |blobs| && !blobs[i].isRemainder
    ensures |src| == size && BlobLen(blobs[i], src) == 0
    ensures CopyOnes(CopiesAfter(blobs, i), src)
  {
    var ones: seq<Byte> := seq(size, _ => 255);
    src := PutWord(ones, blobs[i].srcPos, 0);
    PutWordReads(ones, blobs[i].srcPos, 0, 2);
    forall c | c in CopiesAfter(blobs, i)
      ensures c.size == 2 && blobs[i].srcPos + 2 <= c.src <= size - 2
    {
      CopiesAfterFrom(blobs, i, c);
    }
  }

  lemma {:induction false} CopiesAfterFrom(blobs: seq<Blob>, i: nat, c: Copy)
    requires i < |blobs| && c in CopiesAfter(blobs, i)
    ensures exists k :: i < k < |blobs| && !blobs[k].isRemainder && c == LengthCopy(blobs[k])
  {
    var n := |blobs| - 1;
    if c in CopiesAfter(blobs[..n], i) {
      CopiesAfterFrom(blobs[..n], i, c);
      var k :| i < k < n && !blobs[..n][k].isRemainder && c == LengthCopy(blobs[..n][k]);
      assert blobs[..n][k] == blobs[k];
    } else {
      assert c == LengthCopy(blobs[n]);
    }
  }

  lemma CopiedLeft(fixed: seq<Copy>, blobs: seq<Blob>, src: seq<Byte>, mem: Memory, i: nat, a: nat)
    requires CopiesFit(fixed + LengthCopies(blobs), src)
    requires i < |blobs| && blobs[i].shouldWrite && !blobs[i].isRemainder
    requires exists k :: i < k < |blobs| && LengthOver(blobs[k], a)
    requires CopyOnes(CopiesAfter(blobs, i), src)
    ensures CopyMem(mem, fixed + LengthCopies(blobs), src)(a) == 255
  {
    hide CopyMem, LengthCopies, CopiesAfter, LengthOver, SomeCopies;
    var before := CopiedAfter(fixed, blobs, src, mem, i);
    CopiesAfterCover(blobs, i, a);
    CopiedByte(before, CopiesAfter(blobs, i), src, a);
  }

  // ---------------------------------------------------------------- the length of the last blob

  /** Field copies read behind the header. */
  lemma {:induction false} FixedMapBehind(from: Desc, fields: seq<Field>, n: nat, id: nat)
    requires Described(from, fields, true) && from.nVar > 0 && n <= |fields| && id in FixedMap(from.fields, n)
    ensures FixedMap(from.fields, n)[id] >= 4
  {
    hide Described, FieldBytes;
    assert |from.fields| == |fields| by { SameFields(from, fields, 0); }
    if !from.fields[n - 1].ftype.VAR? && id == from.fields[n - 1].id {
      SameFields(from, fields, n - 1);
      FieldBehindHeader(from, fields, n - 1, 0);
    } else {
      FixedMapBehind(from, fields, n - 1, id);
    }
  }

  lemma SameFields(from: Desc, fields: seq<Field>, i: nat)
    requires Described(from, fields, true)
    ensures |from.fields| == |fields|
    ensures i < |fields| ==> from.fields[i].ftype == fields[i].ftype && FieldBytes(fields[i], true) > 0
  {}

  lemma FixedBehind(from: Desc, fields: seq<Field>, to: Desc, i: nat)
    requires Described(from, fields, true) && from.nVar > 0 && i < |Fixed(from, to)|
    ensures Fixed(from, to)[i].src >= 4
  {
    hide Described, FieldCopies, MatchedIndices, FixedMap, FieldBytes;
    assert |from.fields| == |fields| by { SameFields(from, fields, 0); }
    var sources := FixedMap(from.fields, |from.fields|);
    CopiesByIndex(to.fields, sources, |to.fields|);
    var f := to.fields[MatchedIndices(to.fields, sources, |to.fields|)[i]];
    FixedMapBehind(from, fields, |fields|, f.id);
  }

  /** Without a remainder, the stores do not depend on the total. */
  lemma {:induction false} EventsWithoutTotal(blobs: seq<Blob>, src: seq<Byte>, size: nat, t1: nat, t2: nat)
    requires forall i :: 0 <= i < |blobs| ==> !blobs[i].isRemainder
    ensures EventsOf(blobs, src, size, t1) == EventsOf(blobs, src, size, t2)
  {
    hide Half, SignExtend, OffsetAfter;
    if blobs != [] { EventsWithoutTotal(blobs[..|blobs| - 1], src, size, t1, t2); }
  }

  /** Nothing but the length of the remainder depends on the total of the message. */
  lemma TotalUnseen(fixed: seq<Copy>, blobs: seq<Blob>, src1: seq<Byte>, src2: seq<Byte>, size: nat, base: nat,
                    mem: Memory, a: nat)
    requires CopiesFit(fixed + LengthCopies(blobs), src1) && CopiesFit(fixed + LengthCopies(blobs), src2)
    requires WordsPlaced(blobs, size) && blobs != [] && |src1| == |src2| == size
    requires forall i :: 0 <= i < |fixed| ==> fixed[i].src >= 4
    requires forall k :: 4 <= k < size ==> src1[k] == src2[k]
    requires var b := blobs[|blobs| - 1]; b.isRemainder && b.shouldWrite && !(b.dstPos + 2 <= a < b.dstPos + 4)
    ensures Left(fixed, blobs, src1, size, base, mem)(a) == Left(fixed, blobs, src2, size, base, mem)(a)
  {
    hide EventsOf, ApplyEvents, CopyMem, LengthCopies, TotalLength;
    hide OffsetAfter, After, EventCovers, EventBytes, BlobLen;
    var i, t1, t2 := |blobs| - 1, TotalLength(src1, 2), TotalLength(src2, 2);
    var copies, p1, p2 := fixed + LengthCopies(blobs), Pointer(blobs, src1, size, i), Pointer(blobs, src2, size, i);
    WordsSame(blobs, src1, src2, size);
    CopiesSame(fixed, blobs, src1, src2, mem);
    var m := CopyMem(mem, copies, src1);
    PrefixSame(blobs, src1, src2, size, t1, t2);
    var pre := EventsOf(blobs[..i], src1, size, t1) + [p1];
    EventsSplit(blobs, src1, size, t1, i);
    EventsSplit(blobs, src2, size, t2, i);
    AfterRemainder(blobs, src1, size, t1, i);
    AfterRemainder(blobs, src2, size, t2, i);
    TailUnseen(m, base, pre, After(blobs, src1, size, t1, i), blobs[i].dstPos + 2, a);
    TailUnseen(m, base, pre, After(blobs, src2, size, t2, i), blobs[i].dstPos + 2, a);
  }

  lemma TailUnseen(m: Memory, base: nat, pre: seq<Event>, tail: seq<Event>, d: nat, a: nat)
    requires |tail| == 1 && tail[0].Len? && tail[0].dst == d && !(d <= a < d + 2)
    ensures ApplyEvents(m, base, pre + tail)(a) == ApplyEvents(m, base, pre)(a)
  {
    hide ApplyEvents;
    ApplyConcat(m, base, pre, tail);
    NoneCovers(ApplyEvents(m, base, pre), base, tail, a);
  }

  lemma WordsSame(blobs: seq<Blob>, src1: seq<Byte>, src2: seq<Byte>, size: nat)
    requires WordsPlaced(blobs, size) && |src1| == |src2| == size
    requires forall k :: 4 <= k < size ==> src1[k] == src2[k]
    ensures SameWords(blobs, src1, src2)
  {}

  lemma CopiesSame(fixed: seq<Copy>, blobs: seq<Blob>, src1: seq<Byte>, src2: seq<Byte>, mem: Memory)
    requires CopiesFit(fixed + LengthCopies(blobs), src1) && CopiesFit(fixed + LengthCopies(blobs), src2)
    requires SameWords(blobs, src1, src2) && forall i :: 0 <= i < |fixed| ==> fixed[i].src >= 4
    requires forall k :: 4 <= k < |src1| ==> src1[k] == src2[k]
    ensures CopyMem(mem, fixed + LengthCopies(blobs), src1) == CopyMem(mem, fixed + LengthCopies(blobs), src2)
  {
    hide CopyMem, LengthCopies;
    var copies := fixed + LengthCopies(blobs);
    forall j | 0 <= j < |copies| ensures SameBytes(copies[j], src1, src2) {
      if j >= |fixed| { LengthCopiesSame(blobs, src1, src2, j - |fixed|); }
    }
    CopyMemSame(mem, copies, src1, src2);
  }

  lemma PrefixSame(blobs: seq<Blob>, src1: seq<Byte>, src2: seq<Byte>, size: nat, t1: nat, t2: nat)
    requires WordsPlaced(blobs, size) && blobs != [] && SameWords(blobs, src1, src2)
    ensures var i := |blobs| - 1;
            && EventsOf(blobs[..i], src1, size, t1) == EventsOf(blobs[..i], src2, size, t2)
            && Pointer(blobs, src1, size, i) == Pointer(blobs, src2, size, i)
            && OffsetAfter(blobs[..i], src1, size) == OffsetAfter(blobs[..i], src2, size)
  {
    hide EventsOf, OffsetAfter, SameWord;
    var init := blobs[..|blobs| - 1];
    EventsSame(init, src1, src2, size, t1);
    EventsWithoutTotal(init, src2, size, t1, t2);
  }

  /** Two messages that differ in the total only: the length of the last blob is wrong in one of them. */
  lemma RemainderUnheld(from: Desc, fields: seq<Field>, to: Desc, i: nat)
    requires Described(from, fields, true) && BuildPlan(from, to).Some?
    requires i < |WantedBlobs(from, to)|
    requires WantedBlobs(from, to)[i].shouldWrite && WantedBlobs(from, to)[i].isRemainder
    ensures exists src: seq<Byte>, base: nat, mem: Memory ::
              from.size <= |src| && !LengthHeld(from, to, src, base, mem, i)
  {
    hide RunProgram, Emit, Described, BuildPlan, Left, Fixed, LengthCopies, AllBlobs, VarMap;
    hide BlobLen, ToBytes, TotalLength, OffsetAfter, Half, PutWord;
    var blobs, size, mem: Memory := WantedBlobs(from, to), from.size, _ => 0;
    WantedPlaced(from, fields, to);
    assert i == |blobs| - 1;
    var zero, one := TotalMessages(size);
    RunLeaves(from, fields, to, zero, 0, mem);
    RunLeaves(from, fields, to, one, 0, mem);
    forall j | 0 <= j < |Fixed(from, to)| ensures Fixed(from, to)[j].src >= 4 { FixedBehind(from, fields, to, j); }
    var at := blobs[i].dstPos + 8;
    TotalUnseen(Fixed(from, to), blobs, zero, one, size, 0, mem, at);
    WordsSame(blobs, zero, one, size);
    PrefixSame(blobs, zero, one, size, 0, 0);
    var offset := OffsetAfter(blobs[..i], zero, size);
    LowBytesDiffer(offset);
    assert !LengthHeld(from, to, zero, 0, mem, i) || !LengthHeld(from, to, one, 0, mem, i);
  }

  lemma TotalMessages(size: nat) returns (zero: seq<Byte>, one: seq<Byte>)
    requires size >= 4
    ensures |zero| == |one| == size && TotalLength(zero, 2) == 0 && TotalLength(one, 2) == 1
    ensures forall k :: 4 <= k < size ==> zero[k] == one[k]
  {
    zero, one := Zeros(size), PutWord(Zeros(size), 2, 1);
    PutWordReads(zero, 2, 1, 2);
  }

  lemma LowBytesDiffer(offset: nat)
    ensures ToBytes(Half(0 - offset), 2)[0] != ToBytes(Half(1 - offset), 2)[0]
  {
    hide Half;
    HalfIs(0 - offset);
    HalfIs(1 - offset);
  }
}

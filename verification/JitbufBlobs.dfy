/**
 * Exactly when the blob structs that a transform hands out point into the
 * message (jitbuf/transformer.cc, jitbuf/handler.cc).
 */
module JitbufBlobs {
  import opened Bits
  import opened Common
  import opened LittleEndian
  import opened JitbufLayout
  import opened JitbufProgram
  import opened JitbufMeaning
  import opened JitbufTheorems
  import opened JitbufExact
  import opened JitbufPointers
  import opened JitbufLengths

  // ---------------------------------------------------------------- the values stored

  /** The pointer stored for blob `i` is its place in the message, and the length given with it stays inside. */
  predicate InPlace(blobs: seq<Blob>, src: seq<Byte>, srcSize: nat, total: nat, i: nat)
    requires i < |blobs|
  {
    var offset, n := OffsetAfter(blobs[..i], src, srcSize), GivenLength(blobs, src, srcSize, total, i);
    && SignExtend(Half(offset)) == offset && offset + n <= |src|
    && (blobs[i].isRemainder ==> offset + n == total)
  }

  /** What the length words and the total must satisfy for that. */
  predicate WordsAgree(blobs: seq<Blob>, src: seq<Byte>, srcSize: nat, total: nat, i: nat)
    requires i < |blobs|
  {
    var offset := OffsetAfter(blobs[..i], src, srcSize);
    && offset < 0x8000
    && if blobs[i].isRemainder then offset <= total <= |src| else offset + BlobLen(blobs[i], src) <= |src|
  }

  lemma InPlaceExactly(blobs: seq<Blob>, src: seq<Byte>, srcSize: nat, total: nat, i: nat)
    requires i < |blobs| && total < U16
    ensures InPlace(blobs, src, srcSize, total, i) <==> WordsAgree(blobs, src, srcSize, total, i)
  {
    hide OffsetAfter, BlobLen, Half, SignExtend;
    var offset := OffsetAfter(blobs[..i], src, srcSize);
    PointerExact(offset);
    if offset < 0x8000 { HalfOfDifference(total, offset); }
  }

  lemma HalfOfDifference(total: nat, offset: nat)
    requires total < U16 && offset < U16
    ensures Half(total - offset) == if offset <= total then total - offset else total - offset + U16
  {}

  lemma {:induction false} OffsetsGrow(blobs: seq<Blob>, src: seq<Byte>, srcSize: nat, i: nat, k: nat)
    requires i < k <= |blobs|
    ensures OffsetAfter(blobs[..i], src, srcSize) + BlobLen(blobs[i], src) <= OffsetAfter(blobs[..k], src, srcSize)
  {
    hide BlobLen;
    var init := blobs[..k];
    assert init[..k - 1] == blobs[..k - 1];
    if i < k - 1 { OffsetsGrow(blobs, src, srcSize, i, k - 1); }
  }

  /** All written blobs lie in the message exactly when the last one does. */
  lemma AllInPlaceExactly(blobs: seq<Blob>, src: seq<Byte>, srcSize: nat, total: nat)
    requires blobs != [] && blobs[|blobs| - 1].shouldWrite && total < U16
    requires forall i :: 0 <= i < |blobs| - 1 ==> !blobs[i].isRemainder
    ensures (forall i | 0 <= i < |blobs| && blobs[i].shouldWrite :: InPlace(blobs, src, srcSize, total, i))
            <==> WordsAgree(blobs, src, srcSize, total, |blobs| - 1)
  {
    hide OffsetAfter, BlobLen, InPlace;
    var last := |blobs| - 1;
    InPlaceExactly(blobs, src, srcSize, total, last);
    if WordsAgree(blobs, src, srcSize, total, last) {
      forall i | 0 <= i < |blobs| && blobs[i].shouldWrite ensures InPlace(blobs, src, srcSize, total, i) {
        if i < last { OffsetsGrow(blobs, src, srcSize, i, last); }
        InPlaceExactly(blobs, src, srcSize, total, i);
      }
    }
  }

  /**
   * Every pointer and length that a transform stores is, as it is stored, that
   * of the blob's place in the message, exactly when the offset of the last
   * wanted blob is below 2^15 and its end, by its length word or by the total,
   * is inside. What later stores leave of them is another matter.
   */
  lemma StoredValuesExactly(from: Desc, fields: seq<Field>, to: Desc, src: seq<Byte>)
    requires Described(from, fields, true) && BuildPlan(from, to).Some? && from.size <= |src|
    requires BuildPlan(from, to).value.blobs != []
    ensures var blobs, total := BuildPlan(from, to).value.blobs, TotalLength(src, 2);
            (forall i | 0 <= i < |blobs| && blobs[i].shouldWrite :: InPlace(blobs, src, from.size, total, i))
            <==> WordsAgree(blobs, src, from.size, total, |blobs| - 1)
  {
    hide AllBlobs, VarMap, FieldCopies, FixedMap, MinSize, LengthCopies;
    hide InPlace, WordsAgree, CountVar, LayoutEnd, WordPos;
    var all, blobs, total := WantedBlobs(from, to), BuildPlan(from, to).value.blobs, TotalLength(src, 2);
    DropTailEnds(all);
    AllBlobsCount(from, fields, VarMap(to.fields, |to.fields|), |fields|);
    assert fields[..|fields|] == fields;
    forall i | 0 <= i < |blobs| - 1 ensures !blobs[i].isRemainder {
      RemainderLast(from, fields, VarMap(to.fields, |to.fields|), |fields|, i);
    }
    TotalIsWord(src);
    AllInPlaceExactly(blobs, src, from.size, total);
  }

  lemma {:induction false} DropTailEnds(blobs: seq<Blob>)
    ensures DropTail(blobs) != [] ==> DropTail(blobs)[|DropTail(blobs)| - 1].shouldWrite
  {
    if blobs != [] && !blobs[|blobs| - 1].shouldWrite { DropTailEnds(blobs[..|blobs| - 1]); }
  }

  lemma TotalIsWord(src: seq<Byte>)
    ensures TotalLength(src, 2) < U16
  {
    hide FromBytes;
  }

  // ---------------------------------------------------------------- the structs handed out

  /** Pointer and length of every wanted blob survive the transform. */
  predicate AllClear(blobs: seq<Blob>) {
    forall i :: 0 <= i < |blobs| && blobs[i].shouldWrite ==> PointerClear(blobs, i) && LengthClear(blobs, i)
  }

  /** The struct of blob `i` points at the blob in the message at `base`, with a length that stays inside. */
  ghost predicate GoodStruct(mem: Memory, base: nat, blobs: seq<Blob>, src: seq<Byte>, size: nat, i: nat)
    requires i < |blobs|
  {
    var offset, d := OffsetAfter(blobs[..i], src, size), blobs[i].dstPos;
    && Bytes(mem, d, 8) == ToBytes((base + offset) % U64, 8)
    && FromBytes(Bytes(mem, d + 8, 2)) == BlobLen(blobs[i], src) && offset + BlobLen(blobs[i], src) <= |src|
  }

  lemma SameAddress(base: nat, offset: nat)
    requires offset < U32
    ensures ToBytes((base + SignExtend(Half(offset))) % U64, 8) == ToBytes((base + offset) % U64, 8)
            <==> offset < 0x8000
  {
    hide ToBytes, FromBytes, Half, Pow2;
    Pow2Values();
    Pow2Add(32, 32);
    HalfIs(offset);
    PointerExact(offset);
    NumberRoundTrip((base + SignExtend(Half(offset))) % U64, 8);
    NumberRoundTrip((base + offset) % U64, 8);
  }

  lemma GoodStructExactly(mem: Memory, base: nat, blobs: seq<Blob>, src: seq<Byte>, size: nat, total: nat, i: nat)
    requires i < |blobs| && !blobs[i].isRemainder && |src| < U32
    requires Bytes(mem, blobs[i].dstPos, 8) == EventBytes(base, Pointer(blobs, src, size, i))
    requires Bytes(mem, blobs[i].dstPos + 8, 2) == ToBytes(BlobLen(blobs[i], src), 2)
    ensures GoodStruct(mem, base, blobs, src, size, i) <==> WordsAgree(blobs, src, size, total, i)
  {
    hide ToBytes, FromBytes, Half, OffsetAfter, Pow2, SignExtend;
    Pow2Values();
    NumberRoundTrip(BlobLen(blobs[i], src), 2);
    var offset := OffsetAfter(blobs[..i], src, size);
    if offset < U32 { SameAddress(base, offset); }
  }

  /**
   * Where no blob store lies over another: after the transform of any message,
   * all structs handed out point at their blobs and stay inside the message,
   * exactly when the offset of the last wanted blob is below 2^15 and its
   * length word ends it inside.
   */
  lemma MessageBlobsExactly(from: Desc, fields: seq<Field>, to: Desc, src: seq<Byte>, base: nat, mem: Memory)
    requires Described(from, fields, true) && BuildPlan(from, to).Some? && from.size <= |src| < U32
    requires BuildPlan(from, to).value.blobs != [] && AllClear(WantedBlobs(from, to))
    ensures var run, blobs := RunProgram(Emit(BuildPlan(from, to).value), src, base, mem), WantedBlobs(from, to);
            var last := |BuildPlan(from, to).value.blobs| - 1;
            && run.Some? && last < |blobs| && blobs[last].shouldWrite
            && ((forall i | 0 <= i < |blobs| && blobs[i].shouldWrite ::
                   GoodStruct(run.value.0.mem, base, blobs, src, from.size, i))
                <==> WordsAgree(blobs, src, from.size, TotalLength(src, 2), last))
  {
    hide RunProgram, Emit, Described, Left, Fixed, LengthCopies, AllBlobs, VarMap, MinSize, FieldCopies, FixedMap;
    hide TotalLength, GoodStruct, WordsAgree, PointerClear, LengthClear, ToBytes, EventBytes, OffsetAfter;
    var blobs, total := WantedBlobs(from, to), TotalLength(src, 2);
    LastWanted(blobs);
    WantedPlaced(from, fields, to);
    RunLeaves(from, fields, to, src, base, mem);
    var m, last := Left(Fixed(from, to), blobs, src, from.size, base, mem), |BuildPlan(from, to).value.blobs| - 1;
    forall i | 0 <= i < |blobs| && blobs[i].shouldWrite
      ensures GoodStruct(m, base, blobs, src, from.size, i) <==> WordsAgree(blobs, src, from.size, total, i)
    {
      ClearIsNotLast(blobs, i);
      PointerStays(Fixed(from, to), blobs, src, from.size, base, mem, i);
      LengthStays(Fixed(from, to), blobs, src, from.size, base, mem, i);
      GoodStructExactly(m, base, blobs, src, from.size, total, i);
    }
    if WordsAgree(blobs, src, from.size, total, last) {
      forall i | 0 <= i < |blobs| && blobs[i].shouldWrite ensures WordsAgree(blobs, src, from.size, total, i) {
        ClearIsNotLast(blobs, i);
        ClearIsNotLast(blobs, last);
        if i < last { EarlierAgrees(blobs, src, from.size, total, i, last); }
      }
    }
  }

  lemma EarlierAgrees(blobs: seq<Blob>, src: seq<Byte>, size: nat, total: nat, i: nat, k: nat)
    requires i < k < |blobs| && !blobs[i].isRemainder && !blobs[k].isRemainder && WordsAgree(blobs, src, size, total, k)
    ensures WordsAgree(blobs, src, size, total, i)
  {
    hide OffsetAfter, BlobLen;
    OffsetsGrow(blobs, src, size, i, k);
  }

  /** The plan ends with the last wanted blob. */
  lemma {:induction false} LastWanted(blobs: seq<Blob>)
    requires DropTail(blobs) != []
    ensures var last := |DropTail(blobs)| - 1;
            last < |blobs| && blobs[last].shouldWrite && forall i :: last < i < |blobs| ==> !blobs[i].shouldWrite
  {
    if !blobs[|blobs| - 1].shouldWrite { LastWanted(blobs[..|blobs| - 1]); }
  }
}

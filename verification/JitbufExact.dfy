/**
 * Exactly when a compiled transform keeps its promises: which bytes the blob
 * stores disturb, and inputs where they do.
 */
module JitbufExact {
  import opened Bits
  import opened Common
  import opened LittleEndian
  import opened JitbufLayout
  import opened JitbufProgram
  import opened JitbufMeaning
  import opened JitbufTheorems

  // ---------------------------------------------------------------- when blob stores disturb fields

  lemma {:induction false} CopyMemForgets(mem1: Memory, mem2: Memory, copies: seq<Copy>, src: seq<Byte>, a: nat)
    requires CopiesFit(copies, src)
    requires mem1(a) == mem2(a) || exists i :: 0 <= i < |copies| && Covers(copies[i], a)
    ensures CopyMem(mem1, copies, src)(a) == CopyMem(mem2, copies, src)(a)
  {
    if copies != [] {
      var c := copies[0];
      var bytes := src[c.src..c.src + c.size];
      if !Covers(c, a) && mem1(a) != mem2(a) {
        var i :| 0 <= i < |copies| && Covers(copies[i], a);
        assert Covers(copies[1..][i - 1], a);
      }
      CopyMemForgets(Write(mem1, c.dst, bytes), Write(mem2, c.dst, bytes), copies[1..], src, a);
    }
  }

  lemma {:induction false} EventsForget(mem1: Memory, mem2: Memory, base: nat, events: seq<Event>, a: nat)
    requires mem1(a) == mem2(a) || exists i :: 0 <= i < |events| && EventCovers(events[i], a)
    ensures ApplyEvents(mem1, base, events)(a) == ApplyEvents(mem2, base, events)(a)
  {
    hide EventBytes;
    if events != [] {
      var n := |events| - 1;
      EventLength(base, events[n]);
      if !EventCovers(events[n], a) {
        if mem1(a) != mem2(a) {
          var i :| 0 <= i < |events| && EventCovers(events[i], a);
          assert EventCovers(events[..n][i], a);
        }
        EventsForget(mem1, mem2, base, events[..n], a);
      }
    }
  }

  lemma {:induction false} LengthCopyListed(blobs: seq<Blob>, i: nat)
    requires i < |blobs| && blobs[i].shouldWrite && !blobs[i].isRemainder
    ensures Copy(blobs[i].srcPos, blobs[i].dstPos + 8, 2) in LengthCopies(blobs)
  {
    if i < |blobs| - 1 { LengthCopyListed(blobs[..|blobs| - 1], i); }
  }

  lemma WordsOfOne(blobs: seq<Blob>, src: seq<Byte>)
    requires BlobsFit(blobs, 2, src)
    ensures SameWords(blobs, src, src)
  {
    forall i | 0 <= i < |blobs| ensures SameWord(blobs[i], src, src) {
      assert BlobFits(blobs[i], 2, src);
    }
  }

  /**
   * A destination byte that no field copy fills is kept, whatever it holds,
   * exactly when no written blob's pointer or length lies over it.
   */
  lemma UnfilledKeptExactly(from: Desc, fields: seq<Field>, to: Desc, src: seq<Byte>, base: nat, a: nat)
    requires Described(from, fields, true) && BuildPlan(from, to).Some? && from.size <= |src|
    requires forall i | 0 <= i < |FieldCopies(to.fields, FixedMap(from.fields, |from.fields|), |to.fields|)| ::
               !Covers(FieldCopies(to.fields, FixedMap(from.fields, |from.fields|), |to.fields|)[i], a)
    ensures (forall mem: Memory :: var run := RunProgram(Emit(BuildPlan(from, to).value), src, base, mem);
               run.Some? && run.value.0.mem(a) == mem(a))
            <==> Untouched(WantedBlobs(from, to), a)
  {
    hide RunProgram, Emit, EventsOf, ApplyEvents, CopyMem, Described, PlanFits, HasTotal;
    hide FieldCopies, LengthCopies, FixedMap, MinSize, Covers, EventCovers, DropTail, TotalLength, WantedBlobs;
    var fixed := FieldCopies(to.fields, FixedMap(from.fields, |from.fields|), |to.fields|);
    var blobs := WantedBlobs(from, to);
    var plan := BuildPlan(from, to).value;
    var events := EventsOf(plan.blobs, src, plan.srcSize, TotalLength(src, plan.lenPos));
    BuiltPlanFits(from, fields, to, src);
    FitsCopies(plan, src);
    if Untouched(blobs, a) {
      forall mem: Memory
        ensures var run := RunProgram(Emit(plan), src, base, mem); run.Some? && run.value.0.mem(a) == mem(a)
      {
        var m := PlanRuns(plan, src, base, mem);
        UntouchedByte(plan, fixed, blobs, src, base, mem, a);
        forall l | 0 <= l < |plan.copies| ensures !Covers(plan.copies[l], a) {
          if l < |fixed| { assert plan.copies[l] == fixed[l]; }
        }
        CopyMemOutside(mem, plan.copies, src, a);
      }
    } else {
      var mem1: Memory, mem2: Memory := _ => 0, _ => 1;
      var m1 := PlanRuns(plan, src, base, mem1);
      var m2 := PlanRuns(plan, src, base, mem2);
      WordsOfOne(blobs, src);
      TouchedForgets(plan, fixed, blobs, src, src, base, mem1, mem2, a);
    }
  }

  /** The blob code sees the same in both messages: equal length words. */
  predicate SameWord(b: Blob, src1: seq<Byte>, src2: seq<Byte>) {
    !b.isRemainder ==>
      b.srcPos + 2 <= |src1| == |src2| && src1[b.srcPos..b.srcPos + 2] == src2[b.srcPos..b.srcPos + 2]
  }

  predicate SameWords(blobs: seq<Blob>, src1: seq<Byte>, src2: seq<Byte>) {
    |src1| == |src2| && forall i :: 0 <= i < |blobs| ==> SameWord(blobs[i], src1, src2)
  }

  /** The stores of the blob code depend on the length words only. */
  lemma {:induction false} EventsSame(blobs: seq<Blob>, src1: seq<Byte>, src2: seq<Byte>, srcSize: nat, total: nat)
    requires SameWords(blobs, src1, src2)
    ensures OffsetAfter(blobs, src1, srcSize) == OffsetAfter(blobs, src2, srcSize)
    ensures EventsOf(blobs, src1, srcSize, total) == EventsOf(blobs, src2, srcSize, total)
  {
    hide BlobEvents, SameWord, BlobLen;
    if blobs != [] {
      EventsSame(blobs[..|blobs| - 1], src1, src2, srcSize, total);
      SameLength(blobs[|blobs| - 1], src1, src2);
    }
  }

  lemma SameLength(b: Blob, src1: seq<Byte>, src2: seq<Byte>)
    requires |src1| == |src2| && SameWord(b, src1, src2)
    ensures BlobLen(b, src1) == BlobLen(b, src2)
  {
    hide FromBytes;
  }

  lemma {:induction false} CopyMemConcat(mem: Memory, a: seq<Copy>, b: seq<Copy>, src: seq<Byte>)
    requires CopiesFit(a, src) && CopiesFit(b, src) && CopiesFit(a + b, src)
    ensures CopyMem(mem, a + b, src) == CopyMem(CopyMem(mem, a, src), b, src)
  {
    hide Write;
    if a == [] {
      assert a + b == b;
    } else {
      assert (a + b)[1..] == a[1..] + b;
      CopyMemConcat(Write(mem, a[0].dst, src[a[0].src..a[0].src + a[0].size]), a[1..], b, src);
    }
  }

  /** Copies of equal bytes leave the same memory. */
  lemma {:induction false} CopyMemSame(mem: Memory, copies: seq<Copy>, src1: seq<Byte>, src2: seq<Byte>)
    requires CopiesFit(copies, src1) && CopiesFit(copies, src2)
    requires forall i :: 0 <= i < |copies| ==> SameBytes(copies[i], src1, src2)
    ensures CopyMem(mem, copies, src1) == CopyMem(mem, copies, src2)
  {
    hide Write;
    if copies != [] {
      var c := copies[0];
      assert SameBytes(c, src1, src2);
      CopyMemSame(Write(mem, c.dst, src1[c.src..c.src + c.size]), copies[1..], src1, src2);
    }
  }

  predicate SameBytes(c: Copy, src1: seq<Byte>, src2: seq<Byte>) {
    c.src + c.size <= |src1| && c.src + c.size <= |src2| && src1[c.src..c.src + c.size] == src2[c.src..c.src + c.size]
  }

  lemma {:induction false} LengthCopiesSame(blobs: seq<Blob>, src1: seq<Byte>, src2: seq<Byte>, i: nat)
    requires SameWords(blobs, src1, src2) && i < |LengthCopies(blobs)|
    ensures SameBytes(LengthCopies(blobs)[i], src1, src2)
  {
    if i < |LengthCopies(blobs[..|blobs| - 1])| {
      LengthCopiesSame(blobs[..|blobs| - 1], src1, src2, i);
    } else {
      assert SameWord(blobs[|blobs| - 1], src1, src2);
    }
  }

  /** A byte under a blob store ends up the same whatever memory and fields held before. */
  lemma TouchedForgets(plan: Plan, fixed: seq<Copy>, blobs: seq<Blob>, src1: seq<Byte>, src2: seq<Byte>,
                       base: nat, mem1: Memory, mem2: Memory, a: nat)
    requires CopiesFit(plan.copies, src1) && CopiesFit(plan.copies, src2) && !Untouched(blobs, a)
    requires SameWords(blobs, src1, src2) && TotalLength(src1, plan.lenPos) == TotalLength(src2, plan.lenPos)
    requires plan.copies == fixed + LengthCopies(blobs) && plan.blobs == DropTail(blobs)
    ensures var total := TotalLength(src1, plan.lenPos);
            var events1 := EventsOf(plan.blobs, src1, plan.srcSize, total);
            var events2 := EventsOf(plan.blobs, src2, plan.srcSize, total);
            ApplyEvents(CopyMem(mem1, plan.copies, src1), base, events1)(a)
            == ApplyEvents(CopyMem(mem2, plan.copies, src2), base, events2)(a)
  {
    hide EventsOf, ApplyEvents, CopyMem, LengthCopies, DropTail, TotalLength, SameWords, Untouched;
    var total := TotalLength(src1, plan.lenPos);
    var events := EventsOf(blobs, src1, plan.srcSize, total);
    DropTailEvents(blobs, src1, plan.srcSize, total);
    DropTailEvents(blobs, src2, plan.srcSize, total);
    EventsSame(blobs, src1, src2, plan.srcSize, total);
    var x, y := CopyMem(mem1, plan.copies, src1), CopyMem(mem2, plan.copies, src2);
    if exists i :: 0 <= i < |events| && EventCovers(events[i], a) {
      EventsForget(x, y, base, events, a);
    } else {
      LengthForgets(plan, fixed, blobs, src1, src2, mem1, mem2, events, a);
      EventsForget(x, y, base, events, a);
    }
  }

  /** A touched byte that no pointer store reaches is filled by a length copy. */
  lemma LengthForgets(plan: Plan, fixed: seq<Copy>, blobs: seq<Blob>, src1: seq<Byte>, src2: seq<Byte>,
                      mem1: Memory, mem2: Memory, events: seq<Event>, a: nat)
    requires CopiesFit(plan.copies, src1) && CopiesFit(plan.copies, src2) && !Untouched(blobs, a)
    requires SameWords(blobs, src1, src2) && plan.copies == fixed + LengthCopies(blobs)
    requires events == EventsOf(blobs, src1, plan.srcSize, TotalLength(src1, plan.lenPos))
    requires !exists i :: 0 <= i < |events| && EventCovers(events[i], a)
    ensures CopyMem(mem1, plan.copies, src1)(a) == CopyMem(mem2, plan.copies, src2)(a)
  {
    hide EventsOf, CopyMem, LengthCopies, TotalLength, SameWords, SignExtend, Half, OffsetAfter, SameBytes;
    var lengths := LengthCopies(blobs);
    var i :| 0 <= i < |blobs| && BlobCovers(blobs[i], a);
    CoveredByLength(blobs, src1, plan.srcSize, TotalLength(src1, plan.lenPos), i, a);
    var j :| 0 <= j < |lengths| && Covers(lengths[j], a);
    SuffixFits(fixed, lengths, plan.copies, src1);
    SuffixFits(fixed, lengths, plan.copies, src2);
    CopyMemConcat(mem1, fixed, lengths, src1);
    CopyMemConcat(mem2, fixed, lengths, src2);
    forall l | 0 <= l < |lengths| ensures SameBytes(lengths[l], src1, src2) {
      LengthCopiesSame(blobs, src1, src2, l);
    }
    CopyMemSame(CopyMem(mem2, fixed, src2), lengths, src1, src2);
    CopyMemForgets(CopyMem(mem1, fixed, src1), CopyMem(mem2, fixed, src2), lengths, src1, a);
  }

  lemma SuffixFits(a: seq<Copy>, b: seq<Copy>, copies: seq<Copy>, src: seq<Byte>)
    requires copies == a + b && CopiesFit(copies, src)
    ensures CopiesFit(a, src) && CopiesFit(b, src)
  {
    forall i | 0 <= i < |a| ensures a[i].src + a[i].size <= |src| { assert copies[i] == a[i]; }
    forall i | 0 <= i < |b| ensures b[i].src + b[i].size <= |src| { assert copies[|a| + i] == b[i]; }
  }

  /** A byte of a written blob is under its pointer store or under its length copy. */
  lemma CoveredByLength(blobs: seq<Blob>, src: seq<Byte>, srcSize: nat, total: nat, i: nat, a: nat)
    requires i < |blobs| && BlobCovers(blobs[i], a)
    ensures var events := EventsOf(blobs, src, srcSize, total);
            || (exists l :: 0 <= l < |events| && EventCovers(events[l], a))
            || (exists l :: 0 <= l < |LengthCopies(blobs)| && Covers(LengthCopies(blobs)[l], a))
  {
    hide EventsOf, LengthCopies, SignExtend, Half, OffsetAfter;
    var b, events, lengths := blobs[i], EventsOf(blobs, src, srcSize, total), LengthCopies(blobs);
    if a < b.dstPos + 8 {
      BlobPointer(blobs, src, srcSize, total, i);
      var p := Ptr(b.dstPos, SignExtend(Half(OffsetAfter(blobs[..i], src, srcSize))));
      var l :| 0 <= l < |events| && events[l] == p;
      assert EventCovers(events[l], a);
    } else {
      LengthCopyListed(blobs, i);
      var l :| 0 <= l < |lengths| && lengths[l] == Copy(b.srcPos, b.dstPos + 8, 2);
      assert Covers(lengths[l], a);
    }
  }

  // ---------------------------------------------------------------- exactly when a matched field arrives

  function Zeros(n: nat): (r: seq<Byte>)
    ensures |r| == n
  {
    seq(n, _ => 0)
  }

  /** A length word of the message shares no byte with a fixed field. */
  lemma WordApart(from: Desc, fields: seq<Field>, i: nat, j: nat, k: nat)
    requires Described(from, fields, true) && i < |fields| && j < |fields|
    requires fields[i].ftype.VAR? && CountVar(fields[..i]) != from.nVar - 1
    requires !fields[j].ftype.VAR? && k < FieldBytes(fields[j], true)
    ensures var p, s := from.fields[i].pos, from.fields[j].pos + k;
            p + 2 <= from.size && s < from.size && !(p <= s < p + 2)
  {
    hide LayoutEnd, WordPos, CountVar;
    DescribedSafe(from, fields, true);
    CountVarSteps(fields, i);
    assert Positioned(fields, true, i) && Positioned(fields, true, j);
    assert Inside(fields, true, from.fields, from.size, i) && Inside(fields, true, from.fields, from.size, j);
    var lo, hi := if i < j then i else j, if i < j then j else i;
    assert Apart(fields, true, from.fields, lo, hi);
  }

  /** Nor does the total, which lies in the header. */
  lemma FieldBehindHeader(from: Desc, fields: seq<Field>, j: nat, k: nat)
    requires Described(from, fields, true) && j < |fields| && !fields[j].ftype.VAR? && k < FieldBytes(fields[j], true)
    ensures from.fields[j].pos + k < from.size && (from.nVar > 0 ==> from.fields[j].pos >= 4)
  {
    hide LayoutEnd, WordPos, CountVar;
    DescribedSafe(from, fields, true);
    assert Positioned(fields, true, j);
    assert Inside(fields, true, from.fields, from.size, j);
  }

  /** Changing a byte of a fixed field changes no length word. */
  lemma {:induction false} WordsKept(from: Desc, fields: seq<Field>, to: map<nat, nat>, src: seq<Byte>, j: nat,
      k: nat, n: nat)
    requires Described(from, fields, true) && from.nVar > 0 && |src| == from.size && n <= |fields|
    requires j < |fields| && !fields[j].ftype.VAR? && k < FieldBytes(fields[j], true)
    ensures from.fields[j].pos + k < |src|
    ensures |AllBlobs(from.fields, from.nVar, to, n)| == CountVar(fields[..n])
    ensures SameWords(AllBlobs(from.fields, from.nVar, to, n), src, src[from.fields[j].pos + k := 1])
  {
    hide LayoutEnd, WordPos, CountVar, FieldBytes;
    FieldBehindHeader(from, fields, j, k);
    AllBlobsFit(from, fields, to, src, n);
    if n > 0 {
      WordsKept(from, fields, to, src, j, k, n - 1);
      AllBlobsFit(from, fields, to, src, n - 1);
      CountVarSteps(fields, n - 1);
      if fields[n - 1].ftype.VAR? && CountVar(fields[..n - 1]) != from.nVar - 1 {
        WordApart(from, fields, n - 1, j, k);
      }
    }
  }

  /** Byte `k` of source field `j` reaches destination field `i`. */
  ghost predicate Arrives(from: Desc, to: Desc, src: seq<Byte>, base: nat, mem: Memory, j: nat, i: nat, k: nat)
    requires BuildPlan(from, to).Some? && j < |from.fields| && i < |to.fields|
  {
    var run := RunProgram(Emit(BuildPlan(from, to).value), src, base, mem);
    run.Some? && from.fields[j].pos + k < |src| && run.value.0.mem(to.fields[i].pos + k) == src[from.fields[j].pos + k]
  }

  /**
   * A field with equal id, type and element count on both sides arrives, at byte
   * `k`, from every message into every memory, exactly when no written blob's
   * pointer or length lies over that byte.
   */
  lemma MatchedArrivesExactly(from: Desc, fields: seq<Field>, to: Desc, tofields: seq<Field>, j: nat, i: nat, k: nat)
    requires Described(from, fields, true) && Described(to, tofields, false) && BuildPlan(from, to).Some?
    requires i < |to.fields| && j < |from.fields|
    requires to.fields[i].id == from.fields[j].id && to.fields[i].ftype == from.fields[j].ftype
    requires !to.fields[i].ftype.VAR?
    requires to.fields[i].nElems == from.fields[j].nElems && k < FieldBytes(from.fields[j], true)
    requires forall l :: j < l < |from.fields| && !from.fields[l].ftype.VAR? ==> from.fields[l].id != from.fields[j].id
    ensures
      (forall src: seq<Byte>, base: nat, mem: Memory | from.size <= |src| :: Arrives(from, to, src, base, mem, j, i, k))
      <==> Untouched(WantedBlobs(from, to), to.fields[i].pos + k)
  {
    hide RunProgram, Emit, Described, BuildPlan, Untouched, WantedBlobs, FieldBytes;
    if Untouched(WantedBlobs(from, to), to.fields[i].pos + k) {
      forall src: seq<Byte>, base: nat, mem: Memory | from.size <= |src|
        ensures Arrives(from, to, src, base, mem, j, i, k)
      {
        MatchingFieldArrives(from, fields, to, tofields, src, base, mem, j, i, k);
      }
    } else {
      TouchedCannotTell(from, fields, to, j, i, k);
    }
  }

  /** Two messages that differ in a field byte under a blob store leave the same byte there. */
  lemma TouchedCannotTell(from: Desc, fields: seq<Field>, to: Desc, j: nat, i: nat, k: nat)
    requires Described(from, fields, true) && BuildPlan(from, to).Some?
    requires i < |to.fields| && j < |from.fields| && !from.fields[j].ftype.VAR? && k < FieldBytes(from.fields[j], true)
    requires !Untouched(WantedBlobs(from, to), to.fields[i].pos + k)
    ensures from.fields[j].pos + k < from.size
    ensures var zero: seq<Byte>, one: seq<Byte>, mem: Memory :=
              Zeros(from.size), Zeros(from.size)[from.fields[j].pos + k := 1], (_: nat) => 0;
            !Arrives(from, to, zero, 0, mem, j, i, k) || !Arrives(from, to, one, 0, mem, j, i, k)
  {
    hide RunProgram, Emit, EventsOf, ApplyEvents, CopyMem, PlanFits, HasTotal, FieldBytes;
    hide FieldCopies, LengthCopies, FixedMap, MinSize, DropTail, AllBlobs;
    hide VarMap, LayoutEnd, WordPos, CountVar, Untouched;
    var mem: Memory := (_: nat) => 0;
    var s, a, plan := from.fields[j].pos + k, to.fields[i].pos + k, BuildPlan(from, to).value;
    SameFieldBytes(fields[j], from.fields[j]);
    FieldBehindHeader(from, fields, j, k);
    NoBlobsUntouched(a);
    var zero: seq<Byte>, one: seq<Byte> := Zeros(from.size), Zeros(from.size)[s := 1];
    WordsKept(from, fields, VarMap(to.fields, |to.fields|), zero, j, k, |fields|);
    BuiltPlanFits(from, fields, to, zero);
    BuiltPlanFits(from, fields, to, one);
    FitsCopies(plan, zero);
    FitsCopies(plan, one);
    var m0 := PlanRuns(plan, zero, 0, mem);
    var m1 := PlanRuns(plan, one, 0, mem);
    TotalKept(zero, s);
    var fixed := FieldCopies(to.fields, FixedMap(from.fields, |from.fields|), |to.fields|);
    TouchedForgets(plan, fixed, WantedBlobs(from, to), zero, one, 0, mem, mem, a);
  }

  lemma SameFieldBytes(f: Field, g: Field)
    requires g == f.(pos := g.pos)
    ensures FieldBytes(f, true) == FieldBytes(g, true)
  {}

  lemma NoBlobsUntouched(a: nat)
    ensures Untouched([], a)
  {}

  lemma TotalKept(src: seq<Byte>, s: nat)
    requires 4 <= s < |src|
    ensures TotalLength(src[s := 1], 2) == TotalLength(src, 2)
  {
    hide FromBytes;
  }
}

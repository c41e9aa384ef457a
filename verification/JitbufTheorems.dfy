/**
 * The meaning of a compiled transform, stated on descriptors: matching fields
 * are copied, other bytes stay, blobs are found where the message has them,
 * and a message of at least the fixed size is never read out of bounds.
 */
module JitbufTheorems {
  import opened Bits
  import opened Common
  import opened LittleEndian
  import opened JitbufLayout
  import opened JitbufProgram
  import opened JitbufMeaning

  // ---------------------------------------------------------------- a whole program

  /** The total length is in reach of the generator's size test, or a blob needs it anyway. */
  predicate HasTotal(plan: Plan) {
    plan.srcSize < 2 || plan.lenPos <= plan.srcSize - 2
  }

  predicate PlanFits(plan: Plan, src: seq<Byte>) {
    && CopiesFit(plan.copies, src) && BlobsFit(plan.blobs, plan.lenPos, src)
    && (HasTotal(plan) ==> plan.lenPos + 2 <= |src|)
    && (!HasTotal(plan) ==> plan.blobs == [])
  }

  /** A program that fits its message runs, and leaves what the plan calls for. */
  lemma PlanRuns(plan: Plan, src: seq<Byte>, base: nat, mem: Memory) returns (m: Machine)
    requires PlanFits(plan, src)
    ensures var total := TotalLength(src, plan.lenPos);
            var events := EventsOf(plan.blobs, src, plan.srcSize, total);
            && RunProgram(Emit(plan), src, base, mem) == Some((m, if HasTotal(plan) then total else Half(plan.srcSize)))
            && m.log == events
            && m.mem == ApplyEvents(CopyMem(mem, plan.copies, src), base, events)
  {
    hide Exec, EmitBlobs, EmitCopies, EventsOf, ApplyEvents, CopyMem, Half, OffsetAfter, Word16, BlobsFit;
    var total := TotalLength(src, plan.lenPos);
    var m0 := Machine(mem, map[], []);
    var m1 := m0.(mem := CopyMem(mem, plan.copies, src));
    CopiesRun(plan.copies, src, base, m0);
    var g := EmitBlobs(plan.blobs, plan.lenPos, plan.srcSize);
    var m2 := BlobsRun(plan.blobs, plan.lenPos, plan.srcSize, src, base, m1);
    var tail := EmitReturn(g, plan.lenPos, plan.srcSize);
    ExecConcat(EmitCopies(plan.copies), tail.code, src, base, m0);
    var events := EventsOf(plan.blobs, src, plan.srcSize, total);
    assert [] + events == events;
    m := m2;
    if g.ret.None? && HasTotal(plan) {
      ExecSnoc(g.code, Load16(g.next, plan.lenPos), src, base, m1, m2);
      m := m2.(regs := m2.regs[g.next := total]);
    } else if g.ret.Some? && !HasTotal(plan) {
      NoBlobsNoReturn(plan.lenPos, plan.srcSize);
    }
  }

  lemma NoBlobsNoReturn(lenPos: nat, srcSize: nat)
    ensures EmitBlobs([], lenPos, srcSize).ret.None?
  {}

  // ---------------------------------------------------------------- bytes the events reach

  predicate EventCovers(e: Event, a: nat) {
    e.dst <= a < e.dst + if e.Ptr? then 8 else 2
  }

  lemma EventLength(base: nat, e: Event)
    ensures |EventBytes(base, e)| == if e.Ptr? then 8 else 2
  {}

  lemma {:induction false} EventsOutside(mem: Memory, base: nat, events: seq<Event>, a: nat)
    requires forall i :: 0 <= i < |events| ==> !EventCovers(events[i], a)
    ensures ApplyEvents(mem, base, events)(a) == mem(a)
  {
    hide EventBytes;
    if events != [] {
      EventsOutside(mem, base, events[..|events| - 1], a);
      EventLength(base, events[|events| - 1]);
    }
  }

  /** A byte reached by several stores keeps the last one. */
  lemma {:induction false} EventsInside(mem: Memory, base: nat, events: seq<Event>, a: nat, k: nat)
    requires k < |events| && EventCovers(events[k], a)
    requires forall i :: k < i < |events| ==> !EventCovers(events[i], a)
    ensures |EventBytes(base, events[k])| > a - events[k].dst
    ensures ApplyEvents(mem, base, events)(a) == EventBytes(base, events[k])[a - events[k].dst]
  {
    hide EventBytes;
    EventLength(base, events[|events| - 1]);
    if k < |events| - 1 { EventsInside(mem, base, events[..|events| - 1], a, k); }
  }

  /** The bytes a written blob touches in the destination: pointer, then length. */
  predicate BlobCovers(b: Blob, a: nat) {
    b.shouldWrite && b.dstPos <= a < b.dstPos + if b.isRemainder then 8 else 10
  }

  predicate Untouched(blobs: seq<Blob>, a: nat) {
    forall i :: 0 <= i < |blobs| ==> !BlobCovers(blobs[i], a)
  }

  lemma {:induction false} EventsWithinBlobs(blobs: seq<Blob>, src: seq<Byte>, srcSize: nat, total: nat, a: nat, i: nat)
    requires Untouched(blobs, a) && i < |EventsOf(blobs, src, srcSize, total)|
    ensures !EventCovers(EventsOf(blobs, src, srcSize, total)[i], a)
  {
    hide Half, SignExtend, OffsetAfter;
    var init := blobs[..|blobs| - 1];
    if i < |EventsOf(init, src, srcSize, total)| {
      EventsWithinBlobs(init, src, srcSize, total, a, i);
    } else {
      assert !BlobCovers(blobs[|blobs| - 1], a);
    }
  }

  lemma {:induction false} LengthsWithinBlobs(blobs: seq<Blob>, a: nat, i: nat)
    requires Untouched(blobs, a) && i < |LengthCopies(blobs)|
    ensures !Covers(LengthCopies(blobs)[i], a)
  {
    var init := blobs[..|blobs| - 1];
    if i < |LengthCopies(init)| {
      LengthsWithinBlobs(init, a, i);
    } else {
      assert !BlobCovers(blobs[|blobs| - 1], a);
    }
  }

  // ---------------------------------------------------------------- dropping trailing blobs

  /** Blobs behind the last written one store nothing. */
  lemma {:induction false} DropTailEvents(blobs: seq<Blob>, src: seq<Byte>, srcSize: nat, total: nat)
    ensures EventsOf(DropTail(blobs), src, srcSize, total) == EventsOf(blobs, src, srcSize, total)
  {
    hide Half, SignExtend, OffsetAfter;
    if blobs != [] && !blobs[|blobs| - 1].shouldWrite {
      DropTailEvents(blobs[..|blobs| - 1], src, srcSize, total);
    }
  }

  /** Truncating the blob list changes neither memory, nor the stores made, nor the returned length. */
  lemma TruncationHarmless(plan: Plan, src: seq<Byte>, base: nat, mem: Memory)
    requires PlanFits(plan, src)
    ensures RunProgram(Emit(plan), src, base, mem).Some?
    ensures RunProgram(Emit(plan.(blobs := DropTail(plan.blobs))), src, base, mem).Some?
    ensures var (m, ret) := RunProgram(Emit(plan), src, base, mem).value;
            var (m', ret') := RunProgram(Emit(plan.(blobs := DropTail(plan.blobs))), src, base, mem).value;
            m'.mem == m.mem && m'.log == m.log && ret' == ret
  {
    hide RunProgram, EventsOf, ApplyEvents, CopyMem, Half, Emit;
    var short := plan.(blobs := DropTail(plan.blobs));
    assert BlobsFit(short.blobs, plan.lenPos, src);
    var m := PlanRuns(plan, src, base, mem);
    var m' := PlanRuns(short, src, base, mem);
    DropTailEvents(plan.blobs, src, plan.srcSize, TotalLength(src, plan.lenPos));
  }

  // ---------------------------------------------------------------- descriptors

  /** A descriptor as `compute_positions` leaves it, for a message whose layout fits in 16 bits. */
  predicate Described(d: Desc, fields: seq<Field>, packed: bool) {
    && HasPositions(fields, packed, d.fields)
    && LayoutSize(fields, packed) < U16 && d.size == LayoutSize(fields, packed)
    && d.nVar == CountVar(fields)
    && forall i :: 0 <= i < |fields| ==> fields[i].nElems >= 1
  }

  lemma DescribedSafe(d: Desc, fields: seq<Field>, packed: bool)
    requires Described(d, fields, packed)
    ensures SafePositions(fields, packed, d.fields, d.size)
    ensures HeaderSize(fields, packed) <= d.size
  {
    hide SafePositions, LayoutEnd, Half;
    FittingIsSafe(fields, packed, d.fields);
    LayoutMonotone(fields, packed, 0, |fields|);
    HeaderFirst(fields, packed);
  }

  lemma HeaderFirst(fields: seq<Field>, packed: bool)
    ensures LayoutEnd(fields, packed, 0) == HeaderSize(fields, packed)
  {}

  /** Every length word the blob code may load lies in the fixed part of the message. */
  lemma {:induction false} AllBlobsFit(from: Desc, fields: seq<Field>, to: map<nat, nat>, src: seq<Byte>, k: nat)
    requires Described(from, fields, true) && k <= |fields| && from.size <= |src| && from.nVar > 0
    ensures |AllBlobs(from.fields, from.nVar, to, k)| == CountVar(fields[..k])
    ensures BlobsFit(AllBlobs(from.fields, from.nVar, to, k), 2, src)
  {
    hide LayoutEnd, WordPos, CountVar, SafePositions, HeaderSize;
    if k == 0 {
      CountVarSteps(fields, 0);
      assert fields[..0] == [];
    } else {
      AllBlobsFit(from, fields, to, src, k - 1);
      CountVarSteps(fields, k - 1);
      if fields[k - 1].ftype.VAR? { VarFits(from, fields, src, k - 1); }
    }
  }

  lemma VarFits(from: Desc, fields: seq<Field>, src: seq<Byte>, i: nat)
    requires Described(from, fields, true) && i < |fields| && fields[i].ftype.VAR? && from.size <= |src|
    requires from.nVar > 0
    ensures 4 <= |src|
    ensures CountVar(fields[..i]) != from.nVar - 1 ==> from.fields[i].pos + 2 <= |src|
  {
    hide LayoutEnd, WordPos, CountVar;
    DescribedSafe(from, fields, true);
    CountVarSteps(fields, i);
    if CountVar(fields[..i]) != from.nVar - 1 {
      assert Positioned(fields, true, i);
      assert Inside(fields, true, from.fields, from.size, i);
    }
  }

  /** Indices of the destination fields that have a source. */
  function MatchedIndices(fields: seq<Field>, from: map<nat, nat>, k: nat): seq<nat>
    requires k <= |fields|
  {
    if k == 0 then []
    else if Matched(fields[k - 1], from) then MatchedIndices(fields, from, k - 1) + [k - 1]
    else MatchedIndices(fields, from, k - 1)
  }

  lemma {:induction false} CopiesByIndex(fields: seq<Field>, from: map<nat, nat>, k: nat)
    requires k <= |fields|
    ensures |FieldCopies(fields, from, k)| == |MatchedIndices(fields, from, k)|
    ensures forall j :: 0 <= j < |MatchedIndices(fields, from, k)| ==>
              var i := MatchedIndices(fields, from, k)[j];
              i < k && Matched(fields[i], from) && FieldCopies(fields, from, k)[j] == FieldCopy(fields[i], from)
    ensures forall i, j :: 0 <= i < j < |MatchedIndices(fields, from, k)| ==>
              MatchedIndices(fields, from, k)[i] != MatchedIndices(fields, from, k)[j]
    ensures forall i :: 0 <= i < k && Matched(fields[i], from) ==> i in MatchedIndices(fields, from, k)
  {
    hide Matched, FieldCopy;
    if k > 0 { CopiesByIndex(fields, from, k - 1); }
  }

  lemma {:induction false} MinSizeBounds(copies: seq<Copy>, i: nat)
    requires i < |copies|
    ensures copies[i].src + copies[i].size <= MinSize(copies)
  {
    if i < |copies| - 1 { MinSizeBounds(copies[..|copies| - 1], i); }
  }

  lemma {:induction false} LengthCopiesFit(blobs: seq<Blob>, lenPos: nat, src: seq<Byte>)
    requires BlobsFit(blobs, lenPos, src)
    ensures CopiesFit(LengthCopies(blobs), src)
  {
    if blobs != [] {
      LengthCopiesFit(blobs[..|blobs| - 1], lenPos, src);
      assert BlobFits(blobs[|blobs| - 1], lenPos, src);
    }
  }

  lemma CopiesFitConcat(a: seq<Copy>, b: seq<Copy>, src: seq<Byte>)
    requires CopiesFit(a, src) && CopiesFit(b, src)
    ensures CopiesFit(a + b, src)
  {}

  /** The plan built for a message that reaches the fixed size never reads beyond it. */
  lemma BuiltPlanFits(from: Desc, fields: seq<Field>, to: Desc, src: seq<Byte>)
    requires Described(from, fields, true) && BuildPlan(from, to).Some? && from.size <= |src|
    ensures PlanFits(BuildPlan(from, to).value, src)
    ensures BlobsFit(WantedBlobs(from, to), 2, src)
    ensures HasTotal(BuildPlan(from, to).value) <==> from.nVar > 0
  {
    hide FieldCopies, MinSize, LengthCopies, AllBlobs, FixedMap, VarMap;
    hide DropTail, LayoutEnd, CountVar, WordPos, BlobFits;
    var plan := BuildPlan(from, to).value;
    var copies := FieldCopies(to.fields, FixedMap(from.fields, |from.fields|), |to.fields|);
    var blobs := WantedBlobs(from, to);
    DescribedSafe(from, fields, true);
    if from.nVar > 0 { AllBlobsFit(from, fields, VarMap(to.fields, |to.fields|), src, |fields|); }
    LengthCopiesFit(blobs, 2, src);
    forall i | 0 <= i < |copies| ensures copies[i].src + copies[i].size <= |src| {
      MinSizeBounds(copies, i);
    }
    CopiesFitConcat(copies, LengthCopies(blobs), src);
    DropTailPrefix(blobs, 2, src);
  }

  lemma DropTailPrefix(blobs: seq<Blob>, lenPos: nat, src: seq<Byte>)
    requires BlobsFit(blobs, lenPos, src)
    ensures BlobsFit(DropTail(blobs), lenPos, src)
  {
    hide BlobFits;
  }

  /** A message of at least the fixed size is transformed without reading outside it, and its length is returned. */
  lemma TransformSafe(from: Desc, fields: seq<Field>, to: Desc, src: seq<Byte>, base: nat, mem: Memory)
    requires Described(from, fields, true) && BuildPlan(from, to).Some? && from.size <= |src|
    ensures var run := RunProgram(Emit(BuildPlan(from, to).value), src, base, mem);
            run.Some? && run.value.1 == if from.nVar > 0 then TotalLength(src, 2) else from.size
  {
    hide RunProgram, Emit, EventsOf, ApplyEvents, CopyMem, Described, PlanFits, HasTotal;
    BuiltPlanFits(from, fields, to, src);
    var m := PlanRuns(BuildPlan(from, to).value, src, base, mem);
    DescribedSize(from, fields);
  }

  lemma DescribedSize(from: Desc, fields: seq<Field>)
    requires Described(from, fields, true)
    ensures from.size < U16 && Half(from.size) == from.size
  {}

  // ---------------------------------------------------------------- fields

  /** At a byte no blob store reaches, only the field copies matter. */
  lemma UntouchedByte(plan: Plan, fixed: seq<Copy>, blobs: seq<Blob>, src: seq<Byte>, base: nat, mem: Memory, a: nat)
    requires PlanFits(plan, src)
    requires plan.copies == fixed + LengthCopies(blobs) && plan.blobs == DropTail(blobs) && Untouched(blobs, a)
    ensures var events := EventsOf(plan.blobs, src, plan.srcSize, TotalLength(src, plan.lenPos));
            ApplyEvents(CopyMem(mem, plan.copies, src), base, events)(a) == CopyMem(mem, plan.copies, src)(a)
    ensures forall i :: |fixed| <= i < |plan.copies| ==> !Covers(plan.copies[i], a)
  {
    hide EventsOf, ApplyEvents, CopyMem, LengthCopies, Covers, EventCovers, BlobCovers, DropTail, TotalLength;
    var events := EventsOf(plan.blobs, src, plan.srcSize, TotalLength(src, plan.lenPos));
    forall i | 0 <= i < |events| ensures !EventCovers(events[i], a) {
      EventsWithinBlobs(plan.blobs, src, plan.srcSize, TotalLength(src, plan.lenPos), a, i);
    }
    EventsOutside(CopyMem(mem, plan.copies, src), base, events, a);
    forall i | |fixed| <= i < |plan.copies| ensures !Covers(plan.copies[i], a) {
      LengthsWithinBlobs(blobs, a, i - |fixed|);
    }
  }

  /** Byte `k` of destination field `i` is reached by no other field's copy. */
  lemma OnlyOwnCopy(to: Desc, tofields: seq<Field>, from: map<nat, nat>, i: nat, k: nat, j: nat)
    requires Described(to, tofields, false) && i < |to.fields| && k < FieldBytes(to.fields[i], false)
    requires j < |FieldCopies(to.fields, from, |to.fields|)|
    requires |MatchedIndices(to.fields, from, |to.fields|)| == |FieldCopies(to.fields, from, |to.fields|)|
    requires var o := MatchedIndices(to.fields, from, |to.fields|)[j];
             o < |to.fields| && Matched(to.fields[o], from) && o != i
             && FieldCopies(to.fields, from, |to.fields|)[j] == FieldCopy(to.fields[o], from)
    ensures !Covers(FieldCopies(to.fields, from, |to.fields|)[j], to.fields[i].pos + k)
  {
    hide LayoutEnd, WordPos, CountVar, FieldCopies, MatchedIndices, Positioned;
    var o := MatchedIndices(to.fields, from, |to.fields|)[j];
    DescribedSafe(to, tofields, false);
    AllPositioned(tofields, i);
    AllPositioned(tofields, o);
    var lo, hi := if i < o then i else o, if i < o then o else i;
    assert Apart(tofields, false, to.fields, lo, hi);
  }

  lemma AllPositioned(fields: seq<Field>, i: nat)
    requires i < |fields|
    ensures Positioned(fields, false, i)
  {}

  /**
   * The compiled transform, interpreted: a destination field whose id the
   * source has receives the source's bytes, any other fixed field keeps its
   * bytes, at every byte that no blob store reaches.
   */
  lemma TransformCopiesFields(from: Desc, fields: seq<Field>, to: Desc, tofields: seq<Field>,
                              src: seq<Byte>, base: nat, mem: Memory, i: nat, k: nat)
    requires Described(from, fields, true) && Described(to, tofields, false)
    requires BuildPlan(from, to).Some? && from.size <= |src|
    requires i < |to.fields| && !to.fields[i].ftype.VAR? && k < FieldBytes(to.fields[i], false)
    requires Untouched(WantedBlobs(from, to), to.fields[i].pos + k)
    ensures var run := RunProgram(Emit(BuildPlan(from, to).value), src, base, mem);
            var sources, f := FixedMap(from.fields, |from.fields|), to.fields[i];
            && run.Some?
            && (f.id in sources ==> sources[f.id] + k < |src| && run.value.0.mem(f.pos + k) == src[sources[f.id] + k])
            && (f.id !in sources ==> run.value.0.mem(f.pos + k) == mem(f.pos + k))
  {
    hide RunProgram, Emit, EventsOf, ApplyEvents, CopyMem, Described, PlanFits, HasTotal;
    hide FieldCopies, LengthCopies, FixedMap, MinSize, FieldBytes, Covers;
    var sources, f, a := FixedMap(from.fields, |from.fields|), to.fields[i], to.fields[i].pos + k;
    var fixed := FieldCopies(to.fields, sources, |to.fields|);
    var plan := BuildPlan(from, to).value;
    BuiltPlanFits(from, fields, to, src);
    var m := PlanRuns(plan, src, base, mem);
    assert CopiesFit(fixed, src) by {
      forall j | 0 <= j < |fixed| ensures fixed[j].src + fixed[j].size <= |src| { MinSizeBounds(fixed, j); }
    }
    assert CopiesFit(plan.copies, src) by { FitsCopies(plan, src); }
    UntouchedByte(plan, fixed, WantedBlobs(from, to), src, base, mem, a);
    var j := OwnCopy(to, tofields, sources, i, k);
    MissesMore(fixed, plan.copies, j, a);
    if f.id in sources {
      assert plan.copies[j] == fixed[j];
      CopyMemInside(mem, plan.copies, src, a, j);
    } else {
      CopyMemOutside(mem, plan.copies, src, a);
    }
  }

  lemma FitsCopies(plan: Plan, src: seq<Byte>)
    requires PlanFits(plan, src)
    ensures CopiesFit(plan.copies, src)
  {}

  /** No copy but the given one reaches address `a`. */
  ghost predicate Misses(copies: seq<Copy>, own: int, a: nat) {
    forall j :: 0 <= j < |copies| && j != own ==> !Covers(copies[j], a)
  }

  lemma MissesMore(fixed: seq<Copy>, copies: seq<Copy>, own: int, a: nat)
    requires |fixed| <= |copies| && copies[..|fixed|] == fixed && Misses(fixed, own, a)
    requires forall i :: |fixed| <= i < |copies| ==> !Covers(copies[i], a)
    ensures Misses(copies, own, a)
  {
    hide Covers;
    forall j | 0 <= j < |copies| && j != own ensures !Covers(copies[j], a) {
      if j < |fixed| { assert copies[j] == copies[..|fixed|][j] == fixed[j]; }
    }
  }

  /**
   * Among the field copies, only the field's own one reaches its bytes, and it exists
   * exactly when the field is matched.
   */
  lemma OwnCopy(to: Desc, tofields: seq<Field>, from: map<nat, nat>, i: nat, k: nat) returns (own: int)
    requires Described(to, tofields, false) && i < |to.fields| && !to.fields[i].ftype.VAR?
    requires k < FieldBytes(to.fields[i], false)
    ensures var fixed, f := FieldCopies(to.fields, from, |to.fields|), to.fields[i];
            && Misses(fixed, own, f.pos + k)
            && (f.id in from ==> 0 <= own < |fixed| && fixed[own] == FieldCopy(f, from))
            && (f.id in from ==> Covers(fixed[own], f.pos + k))
            && (f.id !in from ==> own == -1)
  {
    hide FieldCopies, MatchedIndices, Described, FieldBytes;
    CopiesByIndex(to.fields, from, |to.fields|);
    var fixed, owners := FieldCopies(to.fields, from, |to.fields|), MatchedIndices(to.fields, from, |to.fields|);
    own := -1;
    if to.fields[i].id in from {
      assert Matched(to.fields[i], from);
      own :| 0 <= own < |owners| && owners[own] == i;
    }
    forall j | 0 <= j < |fixed| && j != own ensures !Covers(fixed[j], to.fields[i].pos + k) {
      assert owners[j] != i;
      OnlyOwnCopy(to, tofields, from, i, k, j);
    }
  }

  /** With unique ids, the source of a field is the field with that id. */
  lemma {:induction false} FixedMapFinds(fields: seq<Field>, j: nat, k: nat)
    requires j < k <= |fields| && !fields[j].ftype.VAR?
    requires forall i :: j < i < k && !fields[i].ftype.VAR? ==> fields[i].id != fields[j].id
    ensures fields[j].id in FixedMap(fields, k) && FixedMap(fields, k)[fields[j].id] == fields[j].pos
  {
    if k - 1 > j { FixedMapFinds(fields, j, k - 1); }
  }

  /** Same id, type and element count on both sides: every byte of the field arrives. */
  lemma MatchingFieldArrives(from: Desc, fields: seq<Field>, to: Desc, tofields: seq<Field>,
                             src: seq<Byte>, base: nat, mem: Memory, j: nat, i: nat, k: nat)
    requires Described(from, fields, true) && Described(to, tofields, false)
    requires BuildPlan(from, to).Some? && from.size <= |src|
    requires i < |to.fields| && j < |from.fields|
    requires to.fields[i].id == from.fields[j].id && to.fields[i].ftype == from.fields[j].ftype
    requires !to.fields[i].ftype.VAR?
    requires to.fields[i].nElems == from.fields[j].nElems
    requires forall l :: j < l < |from.fields| && !from.fields[l].ftype.VAR? ==> from.fields[l].id != from.fields[j].id
    requires k < FieldBytes(from.fields[j], true) && Untouched(WantedBlobs(from, to), to.fields[i].pos + k)
    ensures FieldBytes(to.fields[i], false) == FieldBytes(from.fields[j], true)
    ensures var run := RunProgram(Emit(BuildPlan(from, to).value), src, base, mem);
            && run.Some? && from.fields[j].pos + k < |src|
            && run.value.0.mem(to.fields[i].pos + k) == src[from.fields[j].pos + k]
  {
    hide RunProgram, Emit, Described, BuildPlan, FixedMap, Untouched, WantedBlobs;
    FixedMapFinds(from.fields, j, |from.fields|);
    TransformCopiesFields(from, fields, to, tofields, src, base, mem, i, k);
  }

  // ---------------------------------------------------------------- which transforms are built

  /** The source of an id: the last fixed field that has it. */
  predicate IsSource(fields: seq<Field>, id: nat, j: nat, k: nat)
    requires k <= |fields|
  {
    && j < k && !fields[j].ftype.VAR? && fields[j].id == id
    && forall l :: j < l < k && !fields[l].ftype.VAR? ==> fields[l].id != id
  }

  lemma {:induction false} FixedMapSource(fields: seq<Field>, id: nat, k: nat) returns (j: nat)
    requires k <= |fields| && id in FixedMap(fields, k)
    ensures IsSource(fields, id, j, k) && FixedMap(fields, k)[id] == fields[j].pos
  {
    if !fields[k - 1].ftype.VAR? && fields[k - 1].id == id {
      j := k - 1;
    } else {
      j := FixedMapSource(fields, id, k - 1);
    }
  }

  lemma {:induction false} MinSizeExactly(copies: seq<Copy>, size: nat)
    ensures MinSize(copies) <= size <==> forall i :: 0 <= i < |copies| ==> copies[i].src + copies[i].size <= size
  {
    if copies != [] {
      var init := copies[..|copies| - 1];
      MinSizeExactly(init, size);
      if forall i :: 0 <= i < |init| ==> init[i].src + init[i].size <= size {
      } else {
        var i :| 0 <= i < |init| && init[i].src + init[i].size > size;
        assert copies[i] == init[i];
      }
    }
  }

  /**
   * A transform is built exactly when every destination field that has a source
   * finds all its bytes in the fixed part of the message.
   */
  lemma BuildsExactly(from: Desc, to: Desc)
    ensures BuildPlan(from, to).Some? <==>
            forall i, j :: 0 <= i < |to.fields| && !to.fields[i].ftype.VAR?
                           && 0 <= j < |from.fields| && IsSource(from.fields, to.fields[i].id, j, |from.fields|) ==>
              from.fields[j].pos + FieldBytes(to.fields[i], false) <= from.size
  {
    hide FieldCopies, MatchedIndices, FixedMap, MinSize, FieldBytes, LengthCopies, WantedBlobs, DropTail, IsSource;
    var sources := FixedMap(from.fields, |from.fields|);
    var copies, owners := FieldCopies(to.fields, sources, |to.fields|), MatchedIndices(to.fields, sources, |to.fields|);
    CopiesByIndex(to.fields, sources, |to.fields|);
    MinSizeExactly(copies, from.size);
    if BuildPlan(from, to).Some? {
      forall i, j | 0 <= i < |to.fields| && !to.fields[i].ftype.VAR?
                    && 0 <= j < |from.fields| && IsSource(from.fields, to.fields[i].id, j, |from.fields|)
        ensures from.fields[j].pos + FieldBytes(to.fields[i], false) <= from.size
      {
        SourceFound(from.fields, to.fields[i].id, j);
        var k :| 0 <= k < |owners| && owners[k] == i;
        assert copies[k].src + copies[k].size <= from.size;
      }
    } else {
      var k :| 0 <= k < |copies| && copies[k].src + copies[k].size > from.size;
      var f := to.fields[owners[k]];
      var j := FixedMapSource(from.fields, f.id, |from.fields|);
    }
  }

  lemma SourceFound(fields: seq<Field>, id: nat, j: nat)
    requires IsSource(fields, id, j, |fields|)
    ensures id in FixedMap(fields, |fields|) && FixedMap(fields, |fields|)[id] == fields[j].pos
  {
    hide FixedMap;
    FixedMapFinds(fields, j, |fields|);
  }

  /** So a transform is always built when the fields in common agree in type and count. */
  lemma AgreeingBuilds(from: Desc, fields: seq<Field>, to: Desc)
    requires Described(from, fields, true)
    requires forall i, j :: 0 <= i < |to.fields| && !to.fields[i].ftype.VAR?
                            && 0 <= j < |from.fields| && IsSource(from.fields, to.fields[i].id, j, |from.fields|) ==>
               to.fields[i].ftype == from.fields[j].ftype && to.fields[i].nElems == from.fields[j].nElems
    ensures BuildPlan(from, to).Some?
  {
    hide BuildPlan, IsSource, LayoutEnd, WordPos, CountVar;
    BuildsExactly(from, to);
    DescribedSafe(from, fields, true);
    forall i, j | 0 <= i < |to.fields| && !to.fields[i].ftype.VAR?
                  && 0 <= j < |from.fields| && IsSource(from.fields, to.fields[i].id, j, |from.fields|)
      ensures from.fields[j].pos + FieldBytes(to.fields[i], false) <= from.size
    {
      SourceIsFixed(from.fields, to.fields[i].id, j);
      assert Positioned(fields, true, j);
      assert Inside(fields, true, from.fields, from.size, j);
    }
  }

  lemma SourceIsFixed(fields: seq<Field>, id: nat, j: nat)
    requires IsSource(fields, id, j, |fields|)
    ensures j < |fields| && !fields[j].ftype.VAR?
  {}

  // ---------------------------------------------------------------- which blobs are listed

  /** The place of a blob id in the destination: the last variable field that has it. */
  predicate IsTarget(fields: seq<Field>, id: nat, j: nat, k: nat)
    requires k <= |fields|
  {
    && j < k && fields[j].ftype.VAR? && fields[j].id == id
    && forall l :: j < l < k && fields[l].ftype.VAR? ==> fields[l].id != id
  }

  lemma {:induction false} VarMapTarget(fields: seq<Field>, id: nat, k: nat) returns (j: nat)
    requires k <= |fields|
    ensures id in VarMap(fields, k) ==> IsTarget(fields, id, j, k) && VarMap(fields, k)[id] == fields[j].pos
    ensures id !in VarMap(fields, k) ==> forall l :: 0 <= l < k && fields[l].ftype.VAR? ==> fields[l].id != id
  {
    j := 0;
    if k > 0 {
      if fields[k - 1].ftype.VAR? && fields[k - 1].id == id {
        j := k - 1;
      } else {
        j := VarMapTarget(fields, id, k - 1);
      }
    }
  }

  lemma {:induction false} BlobListed(fields: seq<Field>, nVar: nat, to: map<nat, nat>, s: nat, k: nat)
    requires s < k <= |fields| && fields[s].ftype.VAR?
    ensures |AllBlobs(fields, nVar, to, k)| == CountVar(fields[..k])
    ensures var i, blobs := CountVar(fields[..s]), AllBlobs(fields, nVar, to, k);
            i < |blobs| && blobs[i] == MakeBlob(fields[s], i == nVar - 1, to)
    decreases k
  {
    hide CountVar, MakeBlob;
    CountVarSteps(fields, k - 1);
    BlobsCounted(fields, nVar, to, k - 1);
    if s < k - 1 { BlobListed(fields, nVar, to, s, k - 1); }
  }

  lemma {:induction false} BlobsCounted(fields: seq<Field>, nVar: nat, to: map<nat, nat>, k: nat)
    requires k <= |fields|
    ensures |AllBlobs(fields, nVar, to, k)| == CountVar(fields[..k])
  {
    hide CountVar, MakeBlob;
    if k == 0 {
      CountVarSteps(fields, 0);
      assert fields[..0] == [];
    } else {
      BlobsCounted(fields, nVar, to, k - 1);
      CountVarSteps(fields, k - 1);
    }
  }

  /**
   * The i-th variable field of the source is the i-th blob: it is written exactly
   * when the destination has a variable field with its id, to the last such one;
   * its length is at its own place, or what remains for the sender's last.
   */
  lemma BlobTargets(from: Desc, to: Desc, s: nat) returns (j: nat)
    requires s < |from.fields| && from.fields[s].ftype.VAR? && from.nVar > 0 && to.nVar > 0
    ensures |WantedBlobs(from, to)| == CountVar(from.fields) && CountVar(from.fields[..s]) < |WantedBlobs(from, to)|
    ensures var i, f := CountVar(from.fields[..s]), from.fields[s];
            var b := WantedBlobs(from, to)[i];
            && (b.isRemainder <==> i == from.nVar - 1) && (!b.isRemainder ==> b.srcPos == f.pos)
            && (b.shouldWrite ==> IsTarget(to.fields, f.id, j, |to.fields|) && b.dstPos == to.fields[j].pos)
            && (!b.shouldWrite ==>
                  forall l :: 0 <= l < |to.fields| && to.fields[l].ftype.VAR? ==> to.fields[l].id != f.id)
  {
    hide CountVar, AllBlobs, VarMap;
    var places := VarMap(to.fields, |to.fields|);
    assert from.fields[..|from.fields|] == from.fields;
    BlobListed(from.fields, from.nVar, places, s, |from.fields|);
    j := VarMapTarget(to.fields, from.fields[s].id, |to.fields|);
  }

  // ---------------------------------------------------------------- blobs

  /** The i-th blob's pointer store is in the log, with the offset of the fixed part and all earlier blobs. */
  lemma {:induction false} BlobPointer(blobs: seq<Blob>, src: seq<Byte>, srcSize: nat, total: nat, i: nat)
    requires i < |blobs| && blobs[i].shouldWrite
    ensures var offset, events := OffsetAfter(blobs[..i], src, srcSize), EventsOf(blobs, src, srcSize, total);
            && Ptr(blobs[i].dstPos, SignExtend(Half(offset))) in events
            && (blobs[i].isRemainder ==> Len(blobs[i].dstPos + 2, Half(total - offset)) in events)
  {
    hide Half, SignExtend, OffsetAfter, BlobEvents;
    var init := blobs[..|blobs| - 1];
    if i < |blobs| - 1 {
      BlobPointer(init, src, srcSize, total, i);
      assert init[..i] == blobs[..i];
    } else {
      BlobEventsHas(blobs[i], OffsetAfter(init, src, srcSize), total);
    }
  }

  lemma BlobEventsHas(blob: Blob, offset: nat, total: nat)
    requires blob.shouldWrite
    ensures Ptr(blob.dstPos, SignExtend(Half(offset))) in BlobEvents(blob, offset, total)
    ensures blob.isRemainder ==> Len(blob.dstPos + 2, Half(total - offset)) in BlobEvents(blob, offset, total)
  {
    hide Half, SignExtend;
    var e := BlobEvents(blob, offset, total);
    assert e[0] in e && (blob.isRemainder ==> e[1] in e);
  }

  /** The stored pointer is the blob's place exactly for offsets below 2^15: the 16-bit index is signed. */
  lemma PointerExact(offset: nat)
    ensures SignExtend(Half(offset)) == offset <==> offset < 0x8000
  {}
}

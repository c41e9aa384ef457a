/**
 * Concrete descriptors and messages for which the transforms do less than
 * their callers expect.
 */
module JitbufExamples {
  import opened Bits
  import opened Common
  import opened LittleEndian
  import opened JitbufLayout
  import opened JitbufProgram
  import opened JitbufMeaning
  import opened JitbufTheorems
  import opened JitbufHandler

  /** A string followed by a 32-bit field, on both sides: the string's pointer is stored over the field. */
  lemma ClobberExample(mem: Memory) returns (from: Desc, to: Desc, src: seq<Byte>)
    ensures Described(from, [Field(1, VAR, 1, 0), Field(2, INT32, 1, 0)], true)
    ensures Described(to, [Field(1, VAR, 1, 0), Field(2, INT32, 1, 0)], false)
    ensures |from.fields| == |to.fields| == 2 && from.fields[1].pos == 4 && to.fields[1].pos == 8
    ensures BuildPlan(from, to).Some? && |src| == from.size == 8 && src[4] == 1
    ensures var run := RunProgram(Emit(BuildPlan(from, to).value), src, 0, mem);
            run.Some? && run.value.0.mem(8) == 0
  {
    hide RunProgram, Emit, ApplyEvents, CopyMem, Described, BuildPlan, EventsOf;
    var fields := [Field(1, VAR, 1, 0), Field(2, INT32, 1, 0)];
    from := Desc(7, [Field(1, VAR, 1, 0), Field(2, INT32, 1, 4)], 8, 1);
    to := Desc(7, [Field(1, VAR, 1, 2), Field(2, INT32, 1, 8)], 12, 1);
    src := [7, 0, 8, 0, 1, 1, 1, 1];
    ExamplePacked(fields, from);
    ExampleUnpacked(fields, to);
    ExamplePlan(from, to);
    var plan := BuildPlan(from, to).value;
    BuiltPlanFits(from, fields, to, src);
    var m := PlanRuns(plan, src, 0, mem);
    ExampleEvents(src);
    EventsInside(CopyMem(mem, plan.copies, src), 0, [Ptr(2, 8), Len(4, 0)], 8, 0);
    assert EventBytes(0, Ptr(2, 8))[6] == 0 by { EighthByte(); }
  }

  /**
   * The same message at address 0x1_0000: the pointer to its string should be
   * 0x1_0008, and the string's length, which is zero, lies over the one.
   */
  lemma RemainderExample(mem: Memory) returns (from: Desc, to: Desc, src: seq<Byte>)
    ensures Described(from, [Field(1, VAR, 1, 0), Field(2, INT32, 1, 0)], true)
    ensures Described(to, [Field(1, VAR, 1, 0), Field(2, INT32, 1, 0)], false)
    ensures BuildPlan(from, to).Some? && |src| == from.size == 8
    ensures WantedBlobs(from, to) == [Blob(0, 2, true, true)] && OffsetAfter([], src, from.size) == 8
    ensures EventBytes(0x1_0000, Ptr(2, 8))[2] == 1
    ensures var run := RunProgram(Emit(BuildPlan(from, to).value), src, 0x1_0000, mem);
            run.Some? && run.value.0.mem(4) == 0
  {
    hide RunProgram, Emit, ApplyEvents, CopyMem, Described, BuildPlan, EventsOf;
    var fields := [Field(1, VAR, 1, 0), Field(2, INT32, 1, 0)];
    from := Desc(7, [Field(1, VAR, 1, 0), Field(2, INT32, 1, 4)], 8, 1);
    to := Desc(7, [Field(1, VAR, 1, 2), Field(2, INT32, 1, 8)], 12, 1);
    src := [7, 0, 8, 0, 1, 1, 1, 1];
    ExamplePacked(fields, from);
    ExampleUnpacked(fields, to);
    ExamplePlan(from, to);
    var plan := BuildPlan(from, to).value;
    BuiltPlanFits(from, fields, to, src);
    var m := PlanRuns(plan, src, 0x1_0000, mem);
    ExampleEvents(src);
    EventsInside(CopyMem(mem, plan.copies, src), 0x1_0000, [Ptr(2, 8), Len(4, 0)], 4, 1);
    ThirdByte();
  }

  lemma ThirdByte()
    ensures EventBytes(0x1_0000, Ptr(2, 8))[2] == 1 && EventBytes(0x1_0000, Len(4, 0))[0] == 0
  {
    assert ToBytes(0x1_0008, 8) == [8] + ToBytes(0x100, 7);
    assert ToBytes(0x100, 7) == [0] + ToBytes(1, 6);
    assert ToBytes(1, 6) == [1] + ToBytes(0, 5);
    assert ToBytes(0, 2) == [0] + ToBytes(0, 1);
  }

  lemma EighthByte()
    ensures EventBytes(0, Ptr(2, 8))[6] == 0
  {
    assert ToBytes(8, 8) == [8] + ToBytes(0, 7);
    assert ToBytes(0, 7) == [0] + ToBytes(0, 6);
    assert ToBytes(0, 6) == [0] + ToBytes(0, 5);
    assert ToBytes(0, 5) == [0] + ToBytes(0, 4);
    assert ToBytes(0, 4) == [0] + ToBytes(0, 3);
    assert ToBytes(0, 3) == [0] + ToBytes(0, 2);
    assert ToBytes(0, 2) == [0] + ToBytes(0, 1);
  }

  lemma ExampleEvents(src: seq<Byte>)
    requires src == [7, 0, 8, 0, 1, 1, 1, 1]
    ensures EventsOf([Blob(0, 2, true, true)], src, 8, TotalLength(src, 2)) == [Ptr(2, 8), Len(4, 0)]
  {
    var b := Blob(0, 2, true, true);
    assert TotalLength(src, 2) == 8;
    assert [b][..0] == [];
    assert EventsOf([], src, 8, 8) == [] && OffsetAfter([], src, 8) == 8;
    assert BlobEvents(b, 8, 8) == [Ptr(2, 8)] + [Len(4, 0)];
  }

  lemma ExamplePacked(fields: seq<Field>, d: Desc)
    requires fields == [Field(1, VAR, 1, 0), Field(2, INT32, 1, 0)]
    requires d == Desc(7, [Field(1, VAR, 1, 0), Field(2, INT32, 1, 4)], 8, 1)
    ensures Described(d, fields, true)
  {
    hide CountVar, LayoutEnd, LayoutStart, Half, Positioned;
    ExampleCounts(fields);
    ExamplePackedLayout(fields);
  }

  lemma ExamplePackedLayout(fields: seq<Field>)
    requires fields == [Field(1, VAR, 1, 0), Field(2, INT32, 1, 0)]
    ensures !Positioned(fields, true, 0) && Positioned(fields, true, 1)
    ensures LayoutStart(fields, true, 1) == 4 && LayoutEnd(fields, true, 2) == 8
  {
    hide *;
    ExamplePositioned(fields);
    ExampleParts(fields);
    HeaderFirst(fields, true);
    LayoutStep(fields, true, 0);
    LayoutStep(fields, true, 1);
  }

  lemma ExampleParts(fields: seq<Field>)
    requires fields == [Field(1, VAR, 1, 0), Field(2, INT32, 1, 0)]
    ensures HeaderSize(fields, true) == 4 && AlignUp(4, 4) == 4
    ensures FieldBytes(fields[1], true) == 4 && Alignment(fields[1].ftype, true) == 4
  {
    hide *;
    ExampleHeader(fields);
    ExampleAlign();
    ExampleField(fields[1]);
  }

  lemma ExampleHeader(fields: seq<Field>)
    requires fields == [Field(1, VAR, 1, 0), Field(2, INT32, 1, 0)]
    ensures HeaderSize(fields, true) == 4
  {
    hide CountVar;
    ExampleCounts(fields);
  }

  lemma ExampleAlign()
    ensures AlignUp(4, 4) == 4
  {
    hide Mod;
    ModIsRemainder(7, 4);
  }

  lemma ExampleField(f: Field)
    requires f == Field(2, INT32, 1, 0)
    ensures FieldBytes(f, true) == 4 && Alignment(f.ftype, true) == 4
  {}

  lemma ExamplePositioned(fields: seq<Field>)
    requires fields == [Field(1, VAR, 1, 0), Field(2, INT32, 1, 0)]
    ensures !Positioned(fields, true, 0) && Positioned(fields, true, 1)
  {
    hide CountVar;
    ExampleCounts(fields);
    assert fields[..0 + 1] == fields[..1];
  }

  lemma LayoutStep(fields: seq<Field>, packed: bool, i: nat)
    requires i < |fields|
    ensures LayoutStart(fields, packed, i) == AlignUp(LayoutEnd(fields, packed, i), Alignment(fields[i].ftype, packed))
    ensures LayoutEnd(fields, packed, i + 1) ==
            if Positioned(fields, packed, i) then LayoutStart(fields, packed, i) + FieldBytes(fields[i], packed)
            else LayoutEnd(fields, packed, i)
  {
    hide AlignUp, Positioned, FieldBytes, Alignment;
  }

  lemma ExampleUnpacked(fields: seq<Field>, d: Desc)
    requires fields == [Field(1, VAR, 1, 0), Field(2, INT32, 1, 0)]
    requires d == Desc(7, [Field(1, VAR, 1, 2), Field(2, INT32, 1, 8)], 12, 1)
    ensures Described(d, fields, false)
  {
    hide Mod, CountVar, LayoutEnd, LayoutStart;
    ExampleCounts(fields);
    ModIsRemainder(3, 2);
    ModIsRemainder(9, 4);
    HeaderFirst(fields, false);
    LayoutStep(fields, false, 0);
    LayoutStep(fields, false, 1);
    assert LayoutEnd(fields, false, 2) == 12;
  }

  lemma ExampleCounts(fields: seq<Field>)
    requires fields == [Field(1, VAR, 1, 0), Field(2, INT32, 1, 0)]
    ensures CountVar(fields[..1]) == CountVar(fields[..2]) == CountVar(fields) == 1
  {
    hide CountVar;
    CountVarSteps(fields, 0);
    CountVarSteps(fields, 1);
    assert fields[..0] == [] && fields[..2] == fields;
  }

  lemma ExamplePlan(from: Desc, to: Desc)
    requires from == Desc(7, [Field(1, VAR, 1, 0), Field(2, INT32, 1, 4)], 8, 1)
    requires to == Desc(7, [Field(1, VAR, 1, 2), Field(2, INT32, 1, 8)], 12, 1)
    ensures BuildPlan(from, to) == Some(Plan([Copy(4, 8, 4)], 2, 8, [Blob(0, 2, true, true)]))
    ensures WantedBlobs(from, to) == [Blob(0, 2, true, true)]
  {
    assert FixedMap(from.fields, 1) == map[];
    assert FixedMap(from.fields, 2) == map[2 := 4];
    assert VarMap(to.fields, 1) == map[1 := 2];
    assert VarMap(to.fields, 2) == map[1 := 2];
    var sources, b := map[2 := 4], Blob(0, 2, true, true);
    assert FieldCopies(to.fields, sources, 1) == [];
    assert FieldCopies(to.fields, sources, 2) == [] + [Copy(4, 8, 4)];
    assert MinSize([Copy(4, 8, 4)]) == 8;
    assert AllBlobs(from.fields, 1, map[1 := 2], 1) == [] + [b];
    assert AllBlobs(from.fields, 1, map[1 := 2], 2) == [b];
    assert LengthCopies([b]) == [] + [] && DropTail([b]) == [b];
    assert [Copy(4, 8, 4)] + [] == [Copy(4, 8, 4)];
  }

  // ---------------------------------------------------------------- a field of every type

  function EveryType(pos: seq<nat>): seq<Field>
    requires |pos| == 7
  {
    [Field(1, INT8, 1, pos[0]), Field(2, INT16, 3, pos[1]), Field(3, INT32, 1, pos[2]), Field(4, INT64, 1, pos[3]),
     Field(5, VAR, 1, pos[4]), Field(6, INT128, 1, pos[5]), Field(7, VAR, 1, pos[6])]
  }

  /** Positions and sizes in numbers: packed with a header of four bytes and a last blob without place, and unpacked. */
  lemma EveryTypeExample(fields: seq<Field>)
    requires fields == EveryType([0, 0, 0, 0, 0, 0, 0])
    ensures HasPositions(fields, true, EveryType([4, 6, 12, 16, 24, 32, 0])) && LayoutSize(fields, true) == 48
    ensures HasPositions(fields, false, EveryType([2, 4, 12, 16, 24, 32, 48])) && LayoutSize(fields, false) == 52
  {
    hide LayoutEnd, LayoutStart, CountVar, Half, Positioned;
    EveryTypePacked(fields);
    EveryTypeUnpacked(fields);
    forall x: nat | x <= 48 ensures Half(x) == x { HalfSmall(x); }
  }

  lemma EveryTypeCounts(fields: seq<Field>)
    requires fields == EveryType([0, 0, 0, 0, 0, 0, 0])
    ensures forall i :: 0 <= i <= 7 ==> CountVar(fields[..i]) == if i < 5 then 0 else if i < 7 then 1 else 2
    ensures CountVar(fields) == 2
  {
    hide CountVar;
    assert fields[..0] == [] && fields[..7] == fields;
    CountVarSteps(fields, 0);
    CountVarSteps(fields, 1);
    CountVarSteps(fields, 2);
    CountVarSteps(fields, 3);
    CountVarSteps(fields, 4);
    CountVarSteps(fields, 5);
    CountVarSteps(fields, 6);
  }

  /** The position after `end` for an alignment, in numbers. */
  lemma AlignTo(end: nat, a: nat, pos: nat)
    requires a in {1, 2, 4, 8, 16} && pos % a == 0 && end <= pos < end + a
    ensures AlignUp(end, a) == pos
  {
    hide Mod;
    ModIsRemainder(end + a - 1, a);
  }

  lemma EveryTypePacked(fields: seq<Field>)
    requires fields == EveryType([0, 0, 0, 0, 0, 0, 0])
    ensures forall i :: 0 <= i < 7 ==> (Positioned(fields, true, i) <==> i < 6)
    ensures forall i :: 0 <= i < 6 ==> LayoutStart(fields, true, i) == [4, 6, 12, 16, 24, 32][i]
    ensures LayoutSize(fields, true) == 48
  {
    hide LayoutEnd, LayoutStart, CountVar, AlignUp;
    EveryTypeCounts(fields);
    HeaderFirst(fields, true);
    var ends, starts := [4, 5, 12, 16, 24, 26, 48], [4, 6, 12, 16, 24, 32];
    EveryStep(fields, true, 0, ends, starts);
    EveryStep(fields, true, 1, ends, starts);
    EveryStep(fields, true, 2, ends, starts);
    EveryStep(fields, true, 3, ends, starts);
    EveryStep(fields, true, 4, ends, starts);
    EveryStep(fields, true, 5, ends, starts);
    LayoutStep(fields, true, 6);
  }

  lemma EveryTypeUnpacked(fields: seq<Field>)
    requires fields == EveryType([0, 0, 0, 0, 0, 0, 0])
    ensures forall i :: 0 <= i < 7 ==> Positioned(fields, false, i)
    ensures forall i :: 0 <= i < 7 ==> LayoutStart(fields, false, i) == [2, 4, 12, 16, 24, 32, 48][i]
    ensures LayoutSize(fields, false) == 52
  {
    hide LayoutEnd, LayoutStart, CountVar, AlignUp;
    HeaderFirst(fields, false);
    var ends, starts := [2, 3, 10, 16, 24, 28, 48, 52], [2, 4, 12, 16, 24, 32, 48];
    EveryStep(fields, false, 0, ends, starts);
    EveryStep(fields, false, 1, ends, starts);
    EveryStep(fields, false, 2, ends, starts);
    EveryStep(fields, false, 3, ends, starts);
    EveryStep(fields, false, 4, ends, starts);
    EveryStep(fields, false, 5, ends, starts);
    EveryStep(fields, false, 6, ends, starts);
  }

  lemma EveryStep(fields: seq<Field>, packed: bool, i: nat, ends: seq<nat>, starts: seq<nat>)
    requires i < |fields| && i + 1 < |ends| && i < |starts| && Positioned(fields, packed, i)
    requires LayoutEnd(fields, packed, i) == ends[i]
    requires starts[i] % Alignment(fields[i].ftype, packed) == 0
    requires ends[i] <= starts[i] < ends[i] + Alignment(fields[i].ftype, packed)
    requires ends[i + 1] == starts[i] + FieldBytes(fields[i], packed)
    ensures LayoutStart(fields, packed, i) == starts[i] && LayoutEnd(fields, packed, i + 1) == ends[i + 1]
  {
    hide LayoutEnd, LayoutStart, Positioned, AlignUp, FieldBytes;
    LayoutStep(fields, packed, i);
    AlignTo(ends[i], Alignment(fields[i].ftype, packed), starts[i]);
  }

  // ---------------------------------------------------------------- positions that wrap

  /** One 128-bit field of 4096 elements: its 65536 bytes wrap, and the size comes out as 16. */
  lemma OverflowExample()
    ensures var fields, placed := [Field(1, INT128, 4096, 0)], [Field(1, INT128, 4096, 16)];
            && HasPositions(fields, false, placed) && Half(LayoutSize(fields, false)) == 16
            && !SafePositions(fields, false, placed, 16)
  {
    hide Mod, LayoutEnd, LayoutStart, SafePositions, CountVar;
    var fields := [Field(1, INT128, 4096, 0)];
    ModIsRemainder(17, 16);
    HeaderFirst(fields, false);
    LayoutStep(fields, false, 0);
    assert LayoutEnd(fields, false, 1) == 65552;
    ModIsRemainder(65552, U16);
    ModSmall(16, U16);
    OverflowIsUnsafe(fields, false, [Field(1, INT128, 4096, 16)]);
  }

  // ---------------------------------------------------------------- a pointer in front of the message

  /**
   * Two strings, the first of 2^15 bytes: the second lies at 0x8006 in the
   * message, and the pointer stored for it is 32762 bytes in front of the message.
   */
  lemma PointerExample(mem: Memory) returns (from: Desc, to: Desc, src: seq<Byte>)
    ensures Described(from, [Field(1, VAR, 1, 0), Field(2, VAR, 1, 0)], true)
    ensures Described(to, [Field(1, VAR, 1, 0), Field(2, VAR, 1, 0)], false)
    ensures BuildPlan(from, to).Some? && from.size == 6 && |src| == 0x8008
    ensures TotalLength(src, 2) == |src| && Word16(src, 4) == 0x8000
    ensures var run := RunProgram(Emit(BuildPlan(from, to).value), src, 0, mem);
            run.Some? && run.value.0.log == [Ptr(2, 6), Ptr(6, -32762), Len(8, 2)]
  {
    hide RunProgram, Emit, ApplyEvents, CopyMem, Described, BuildPlan, EventsOf, FromBytes;
    var fields := [Field(1, VAR, 1, 0), Field(2, VAR, 1, 0)];
    from := Desc(7, [Field(1, VAR, 1, 4), Field(2, VAR, 1, 0)], 6, 2);
    to := Desc(7, [Field(1, VAR, 1, 2), Field(2, VAR, 1, 6)], 10, 2);
    src := [7, 0, 8, 0x80, 0, 0x80] + seq(0x8002, _ => 0);
    StringsPacked(fields, from);
    StringsUnpacked(fields, to);
    StringsPlan(from, to);
    BuiltPlanFits(from, fields, to, src);
    var m := PlanRuns(BuildPlan(from, to).value, src, 0, mem);
    assert Word16(src, 2) == 0x8008 && Word16(src, 4) == 0x8000;
    StringsEvents(src);
  }

  lemma StringsCounts(fields: seq<Field>)
    requires fields == [Field(1, VAR, 1, 0), Field(2, VAR, 1, 0)]
    ensures CountVar(fields[..1]) == 1 && CountVar(fields[..2]) == CountVar(fields) == 2
  {
    hide CountVar;
    CountVarSteps(fields, 0);
    CountVarSteps(fields, 1);
    assert fields[..0] == [] && fields[..2] == fields;
  }

  lemma StringsPacked(fields: seq<Field>, d: Desc)
    requires fields == [Field(1, VAR, 1, 0), Field(2, VAR, 1, 0)]
    requires d == Desc(7, [Field(1, VAR, 1, 4), Field(2, VAR, 1, 0)], 6, 2)
    ensures Described(d, fields, true)
  {
    hide Mod, CountVar, LayoutEnd, LayoutStart, Half;
    StringsCounts(fields);
    ModIsRemainder(5, 2);
    HeaderFirst(fields, true);
    assert fields[..0 + 1] == fields[..1] && fields[..1 + 1] == fields[..2];
    LayoutStep(fields, true, 0);
    LayoutStep(fields, true, 1);
    assert LayoutEnd(fields, true, 2) == 6;
    HalfSmall(4);
  }

  lemma StringsUnpacked(fields: seq<Field>, d: Desc)
    requires fields == [Field(1, VAR, 1, 0), Field(2, VAR, 1, 0)]
    requires d == Desc(7, [Field(1, VAR, 1, 2), Field(2, VAR, 1, 6)], 10, 2)
    ensures Described(d, fields, false)
  {
    hide Mod, CountVar, LayoutEnd, LayoutStart, Half;
    StringsCounts(fields);
    ModIsRemainder(3, 2);
    ModIsRemainder(7, 2);
    HeaderFirst(fields, false);
    LayoutStep(fields, false, 0);
    LayoutStep(fields, false, 1);
    assert LayoutEnd(fields, false, 2) == 10;
    HalfSmall(2);
    HalfSmall(6);
  }

  lemma HalfSmall(x: nat)
    requires x < U16
    ensures Half(x) == x
  {}

  lemma StringsPlan(from: Desc, to: Desc)
    requires from == Desc(7, [Field(1, VAR, 1, 4), Field(2, VAR, 1, 0)], 6, 2)
    requires to == Desc(7, [Field(1, VAR, 1, 2), Field(2, VAR, 1, 6)], 10, 2)
    ensures BuildPlan(from, to) == Some(Plan([Copy(4, 10, 2)], 2, 6, [Blob(4, 2, true, false), Blob(0, 6, true, true)]))
  {
    hide FixedMap, VarMap, FieldCopies, AllBlobs, LengthCopies, DropTail, MinSize;
    var b, c := Blob(4, 2, true, false), Blob(0, 6, true, true);
    StringsSources(from.fields);
    StringsTargets(to.fields);
    StringsBlobs(from.fields);
    StringsLengths(b, c);
    var none: seq<Copy> := [];
    assert none + [Copy(4, 10, 2)] == [Copy(4, 10, 2)];
  }

  lemma StringsSources(fields: seq<Field>)
    requires fields == [Field(1, VAR, 1, 4), Field(2, VAR, 1, 0)]
    ensures FixedMap(fields, 2) == map[]
  {
    assert FixedMap(fields, 1) == map[];
  }

  lemma StringsTargets(fields: seq<Field>)
    requires fields == [Field(1, VAR, 1, 2), Field(2, VAR, 1, 6)]
    ensures VarMap(fields, 2) == map[1 := 2, 2 := 6] && FieldCopies(fields, map[], 2) == [] && MinSize([]) == 0
  {
    assert VarMap(fields, 1) == map[1 := 2];
    assert FieldCopies(fields, map[], 1) == [];
  }

  lemma StringsBlobs(fields: seq<Field>)
    requires fields == [Field(1, VAR, 1, 4), Field(2, VAR, 1, 0)]
    ensures AllBlobs(fields, 2, map[1 := 2, 2 := 6], 2) == [Blob(4, 2, true, false), Blob(0, 6, true, true)]
  {
    assert AllBlobs(fields, 2, map[1 := 2, 2 := 6], 1) == [] + [Blob(4, 2, true, false)];
  }

  lemma StringsLengths(b: Blob, c: Blob)
    requires b == Blob(4, 2, true, false) && c == Blob(0, 6, true, true)
    ensures LengthCopies([b, c]) == [Copy(4, 10, 2)] && DropTail([b, c]) == [b, c]
  {
    assert [b, c][..1] == [b] && [b][..0] == [];
    assert LengthCopies([b]) == [] + [Copy(4, 10, 2)];
    assert LengthCopies([b, c]) == [Copy(4, 10, 2)] + [];
  }

  lemma StringsEvents(src: seq<Byte>)
    requires |src| == 0x8008 && TotalLength(src, 2) == 0x8008 && Word16(src, 4) == 0x8000
    ensures EventsOf([Blob(4, 2, true, false), Blob(0, 6, true, true)], src, 6, 0x8008)
            == [Ptr(2, 6), Ptr(6, -32762), Len(8, 2)]
  {
    hide Half, Word16, FromBytes;
    var b, c := Blob(4, 2, true, false), Blob(0, 6, true, true);
    assert [b, c][..1] == [b] && [b][..0] == [];
    assert EventsOf([], src, 6, 0x8008) == [] && OffsetAfter([], src, 6) == 6;
    assert OffsetAfter([b], src, 6) == 0x8006;
    HalfSmall(6);
    HalfSmall(0x8006);
    HalfSmall(2);
    assert BlobEvents(b, 6, 0x8008) == [Ptr(2, 6)] + [];
    assert BlobEvents(c, 0x8006, 0x8008) == [Ptr(6, -32762)] + [Len(8, 2)];
    assert EventsOf([b], src, 6, 0x8008) == [] + [Ptr(2, 6)];
  }

  // ---------------------------------------------------------------- a buffer of messages

  /** The length that the transform returns. */
  function TransformLength(body: seq<Byte>, run: Option<(Machine, nat)>): nat {
    if run.Some? then run.value.1 else 0
  }

  /** A message whose total is zero, for a handler that reports what the transform returns: the loop stays on it. */
  lemma StallExample(s: Setting, from: Desc, to: Desc, buf: seq<Byte>)
    requires from == Desc(7, [Field(1, VAR, 1, 0), Field(2, INT32, 1, 4)], 8, 1)
    requires to == Desc(7, [Field(1, VAR, 1, 2), Field(2, INT32, 1, 8)], 12, 1)
    requires BuildPlan(from, to).Some? && !s.timestamped && buf == [7, 0, 0, 0, 1, 1, 1, 1]
    requires s.handlers == map[7 := Record(8, Emit(BuildPlan(from, to).value), TransformLength)]
    ensures Compiled(s.handlers[7]) && Reply(s, buf, 0) == Handled(0)
    ensures !Progresses(s, buf, 0, 0) && forall k :: Turns(s, buf, 0, k).Going?
  {
    hide RunProgram, Emit, Described, BuildPlan, Turns;
    var fields := [Field(1, VAR, 1, 0), Field(2, INT32, 1, 0)];
    ExamplePacked(fields, from);
    assert CompiledFrom(s.handlers[7], from, fields, to);
    TransformSafe(from, fields, to, buf, 0, s.mem);
    assert buf[0..] == buf && buf[0..0 + 8] == buf;
    assert TotalLength(buf, 2) == 0;
    EndsExactly(s, buf, 0);
  }

  /** A buffer of one byte: `handle` rejects it, and `handle_multiple` returns zero, whatever is registered. */
  lemma HiddenErrorExample(s: Setting, base: nat)
    ensures Reply(s, [7], base) == Rejected(-EINVAL) && Turns(s, [7], base, 1) == Done(0)
  {
    hide Reply;
    var buf: seq<Byte> := [7];
    assert buf[0..0 + 1] == buf;
    ShortRejected(s, buf, base);
    assert Turns(s, buf, base, 0) == Going(0);
  }

  lemma ShortRejected(s: Setting, msg: seq<Byte>, base: nat)
    requires |msg| < 2
    ensures Reply(s, msg, base) == Rejected(-EINVAL)
  {}
}

/**
 * Jitbuf message descriptors and the placement of their fields
 * (jitbuf/descriptor.h, jitbuf/descriptor_reader.cc).
 *
 * Positions are 16-bit words that wrap. The unbounded layout next to them says
 * what they are meant to be, and when the words are safe to use.
 */
module JitbufLayout {
  import opened Bits

  datatype FType = INT8 | INT16 | INT32 | INT64 | VAR | INT128

  datatype Field = Field(id: nat, ftype: FType, nElems: nat, pos: nat)

  /** `Field::size`: bytes of one element. */
  function ElemSize(t: FType, packed: bool): (r: nat)
    ensures r in {1, 2, 4, 8, 16}
  {
    match t
    case INT8 => 1
    case INT16 => 2
    case INT32 => 4
    case INT64 => 8
    case VAR => if packed then 2 else 4
    case INT128 => 16
  }

  function Alignment(t: FType, packed: bool): (r: nat)
    ensures r in {1, 2, 4, 8, 16}
  {
    if t.VAR? then 2 else ElemSize(t, packed)
  }

  /** Bytes of a whole field. */
  function FieldBytes(f: Field, packed: bool): nat {
    match ElemSize(f.ftype, packed)
    case 1 => f.nElems
    case 2 => 2 * f.nElems
    case 4 => 4 * f.nElems
    case 8 => 8 * f.nElems
    case _ => 16 * f.nElems
  }

  lemma FieldBytesIsProduct(f: Field, packed: bool)
    ensures FieldBytes(f, packed) == ElemSize(f.ftype, packed) * f.nElems
  {}

  function CountVar(fields: seq<Field>): (n: nat)
    ensures n <= |fields|
  {
    if fields == [] then 0
    else CountVar(fields[..|fields| - 1]) + if fields[|fields| - 1].ftype.VAR? then 1 else 0
  }

  /** The last variable-length field of a packed message has no length word: the total length stands in for it. */
  predicate Positioned(fields: seq<Field>, packed: bool, i: nat)
    requires i < |fields|
  {
    !(packed && fields[i].ftype.VAR? && CountVar(fields[..i + 1]) == CountVar(fields))
  }

  function HeaderSize(fields: seq<Field>, packed: bool): nat {
    if packed && CountVar(fields) > 0 then 4 else 2
  }

  // ---------------------------------------------------------------- unbounded layout

  function AlignUp(x: nat, a: nat): (r: nat)
    requires a > 0
    ensures x <= r < x + a
  {
    x + a - 1 - Mod(x + a - 1, a)
  }

  /** Position after the first `k` fields. */
  function LayoutEnd(fields: seq<Field>, packed: bool, k: nat): nat
    requires k <= |fields|
    decreases k, 0
  {
    if k == 0 then HeaderSize(fields, packed)
    else if Positioned(fields, packed, k - 1) then
      LayoutStart(fields, packed, k - 1) + FieldBytes(fields[k - 1], packed)
    else LayoutEnd(fields, packed, k - 1)
  }

  function LayoutStart(fields: seq<Field>, packed: bool, i: nat): nat
    requires i < |fields|
    decreases i, 1
  {
    AlignUp(LayoutEnd(fields, packed, i), Alignment(fields[i].ftype, packed))
  }

  function LayoutSize(fields: seq<Field>, packed: bool): nat {
    LayoutEnd(fields, packed, |fields|)
  }

  // ---------------------------------------------------------------- words

  /** A 16-bit word. */
  function Half(x: int): (r: nat)
    ensures r < U16
    ensures 0 <= x < U16 ==> r == x
  {
    Mod(x, U16)
  }

  /** The position the code stores for field `i`. */
  function WordPos(fields: seq<Field>, packed: bool, i: nat): nat
    requires i < |fields|
  {
    if Positioned(fields, packed, i) then Half(LayoutStart(fields, packed, i)) else 0
  }

  /** The fields with their positions filled in. */
  predicate HasPositions(fields: seq<Field>, packed: bool, placed: seq<Field>) {
    && |placed| == |fields|
    && forall i :: 0 <= i < |fields| ==> placed[i] == fields[i].(pos := WordPos(fields, packed, i))
  }

  lemma AlignIsPow2(a: nat)
    requires a in {1, 2, 4, 8, 16}
    ensures IsPow2(a)
  {
    assert IsPow2(2) && IsPow2(4);
    assert IsPow2(8) && IsPow2(16);
  }

  lemma AlignDivides(a: nat)
    requires a in {1, 2, 4, 8, 16}
    ensures IsPow2(a) && Mod(U16, a) == 0
  {
    AlignIsPow2(a);
    Pow2Values();
    Pow2IsPow2(16);
    Pow2Divides(a, U16);
  }

  /** Aligning a wrapped position is aligning the unbounded one. */
  lemma AlignWord(x: nat, a: nat)
    requires 0 < a && IsPow2(a) && Mod(U16, a) == 0
    ensures Half(AndNot(Half(x) + a - 1, a - 1)) == Half(AlignUp(x, a))
  {
    hide Mod, IsPow2, And;
    AndMask(Half(x) + a - 1, a);
    ModOfMod(x, U16, a);
    ModAdd(Half(x), a - 1, a);
    ModAdd(x, a - 1, a);
    var m: int := Mod(x + a - 1, a);
    ModAdd(x, a - 1 - m, U16);
  }

  lemma AlignUpIsMultiple(x: nat, a: nat)
    requires a > 0
    ensures Mod(AlignUp(x, a), a) == 0
  {
    hide Mod;
    var y, m: int := x + a - 1, Mod(x + a - 1, a);
    ModWithin(y, a, -m);
  }

  /** No multiple between `x` and its alignment is passed over. */
  lemma AlignUpLeast(x: nat, a: nat, m: nat)
    requires a > 0 && x <= m && Mod(m, a) == 0
    ensures AlignUp(x, a) <= m
  {
    hide Mod, AlignUp;
    AlignUpIsMultiple(x, a);
    var r := AlignUp(x, a);
    if r > m { ModWithin(m, a, r - m); }
  }

  class Descriptor {
    var rpcId: nat
    var fields: seq<Field>
    var dynamicSize: bool
    var size: nat
    var nVarFields: nat

    constructor (rpcId: nat, fields: seq<Field>)
      ensures this.rpcId == rpcId && this.fields == fields
    {
      this.rpcId, this.fields := rpcId, fields;
      dynamicSize, size, nVarFields := false, 0, 0;
    }

    /** `compute_positions`: every stored position is the unbounded one modulo 2^16. */
    method ComputePositions(packed: bool)
      requires |fields| < U16
      modifies this
      ensures rpcId == old(rpcId)
      ensures HasPositions(old(fields), packed, fields)
      ensures nVarFields == CountVar(old(fields)) && dynamicSize == (packed && nVarFields > 0)
      ensures size == Half(LayoutSize(old(fields), packed))
    {
      hide Mod, And, LayoutStart, AlignUp, FieldBytes, ElemSize, Positioned, WordPos, Half, CountVar;
      ghost var fs := fields;
      var n := CountVarFields();
      nVarFields := n;
      dynamicSize := packed && n > 0;
      var pos := if dynamicSize then 4 else 2;
      assert pos == Half(LayoutEnd(fs, packed, 0));
      var seen := 0;
      assert fs[..0] == [] && CountVar([]) == 0 by { CountVarSteps(fs, 0); }
      for i := 0 to |fields|
        invariant |fields| == |fs| && rpcId == old(rpcId) && nVarFields == n && dynamicSize == (packed && n > 0)
        invariant forall j :: i <= j < |fs| ==> fields[j] == fs[j]
        invariant forall j :: 0 <= j < i ==> fields[j] == fs[j].(pos := WordPos(fs, packed, j))
        invariant packed ==> seen == CountVar(fs[..i])
        invariant pos == Half(LayoutEnd(fs, packed, i))
      {
        hide LayoutEnd;
        CountVarSteps(fs, i);
        PlaceStep(fs, packed, i);
        var f := fields[i];
        var esize := ElemSize(f.ftype, packed);
        var align := if f.ftype.VAR? then 2 else esize;
        if packed && f.ftype.VAR? {
          seen := seen + 1;
        }
        if packed && f.ftype.VAR? && seen == n {
          fields := fields[i := f.(pos := 0)];
        } else {
          pos := Half(AndNot(pos + align - 1, align - 1));
          fields := fields[i := f.(pos := pos)];
          pos := Half(pos + esize * f.nElems);
        }
      }
      size := pos;
    }

    method CountVarFields() returns (n: nat)
      ensures n == CountVar(fields)
    {
      hide CountVar;
      n := 0;
      assert fields[..0] == [] && CountVar([]) == 0 by { CountVarSteps(fields, 0); }
      for i := 0 to |fields|
        invariant n == CountVar(fields[..i])
      {
        CountVarSteps(fields, i);
        if fields[i].ftype.VAR? { n := n + 1; }
      }
      assert fields[..|fields|] == fields;
    }
  }

  lemma CountVarSteps(fields: seq<Field>, i: nat)
    requires i <= |fields|
    ensures CountVar([]) == 0
    ensures i < |fields| ==> CountVar(fields[..i + 1]) == CountVar(fields[..i]) + if fields[i].ftype.VAR? then 1 else 0
  {
    if i < |fields| { assert fields[..i + 1][..i] == fields[..i]; }
  }

  /** One field of the loop, in terms of the unbounded layout. */
  lemma PlaceStep(fields: seq<Field>, packed: bool, i: nat)
    requires i < |fields|
    ensures var f := fields[i];
            var pos, align := Half(LayoutEnd(fields, packed, i)), Alignment(f.ftype, packed);
            if packed && f.ftype.VAR? && CountVar(fields[..i + 1]) == CountVar(fields)
            then WordPos(fields, packed, i) == 0 && LayoutEnd(fields, packed, i + 1) == LayoutEnd(fields, packed, i)
            else var start := Half(AndNot(pos + align - 1, align - 1));
                 && WordPos(fields, packed, i) == start
                 && Half(LayoutEnd(fields, packed, i + 1)) == Half(start + ElemSize(f.ftype, packed) * f.nElems)
  {
    hide Mod, And, AndNot, AlignUp, FieldBytes, ElemSize, CountVar, Half, IsPow2;
    var f := fields[i];
    AlignDivides(Alignment(f.ftype, packed));
    AlignWord(LayoutEnd(fields, packed, i), Alignment(f.ftype, packed));
    FieldBytesIsProduct(f, packed);
    HalfAdd(LayoutStart(fields, packed, i), FieldBytes(f, packed));
  }

  lemma HalfAdd(x: int, k: int)
    ensures Half(Half(x) + k) == Half(x + k)
  {
    ModAdd(x, k, U16);
  }

  // ---------------------------------------------------------------- when the positions are safe

  lemma {:induction false} LayoutMonotone(fields: seq<Field>, packed: bool, i: nat, j: nat)
    requires i <= j <= |fields|
    ensures LayoutEnd(fields, packed, i) <= LayoutEnd(fields, packed, j)
  {
    hide AlignUp, FieldBytes, Positioned, Alignment;
    if i < j { LayoutMonotone(fields, packed, i, j - 1); }
  }

  /** Field `i` is aligned, behind the header and inside the message. */
  predicate Inside(fields: seq<Field>, packed: bool, placed: seq<Field>, size: nat, i: nat)
    requires i < |fields| == |placed|
  {
    && HeaderSize(fields, packed) <= placed[i].pos
    && Mod(placed[i].pos, Alignment(fields[i].ftype, packed)) == 0
    && placed[i].pos + FieldBytes(fields[i], packed) <= size
  }

  predicate Apart(fields: seq<Field>, packed: bool, placed: seq<Field>, i: nat, j: nat)
    requires i < |fields| == |placed| && j < |fields|
  {
    || placed[i].pos + FieldBytes(fields[i], packed) <= placed[j].pos
    || placed[j].pos + FieldBytes(fields[j], packed) <= placed[i].pos
  }

  /** Every positioned field is inside, and no two overlap. */
  predicate SafePositions(fields: seq<Field>, packed: bool, placed: seq<Field>, size: nat) {
    && |placed| == |fields|
    && (forall i :: 0 <= i < |fields| && Positioned(fields, packed, i) ==> Inside(fields, packed, placed, size, i))
    && (forall i, j :: 0 <= i < j < |fields| && Positioned(fields, packed, i) && Positioned(fields, packed, j) ==>
          Apart(fields, packed, placed, i, j))
  }

  lemma StartInside(fields: seq<Field>, packed: bool, i: nat)
    requires i < |fields| && Positioned(fields, packed, i)
    ensures HeaderSize(fields, packed) <= LayoutStart(fields, packed, i)
    ensures Mod(LayoutStart(fields, packed, i), Alignment(fields[i].ftype, packed)) == 0
    ensures LayoutStart(fields, packed, i) + FieldBytes(fields[i], packed) == LayoutEnd(fields, packed, i + 1)
    ensures LayoutEnd(fields, packed, i) <= LayoutStart(fields, packed, i)
  {
    hide AlignUp, FieldBytes, Positioned, Alignment, CountVar, Mod;
    LayoutMonotone(fields, packed, 0, i);
    AlignUpIsMultiple(LayoutEnd(fields, packed, i), Alignment(fields[i].ftype, packed));
  }

  /** A layout that fits in 16 bits is stored unchanged and is safe. */
  lemma FittingIsSafe(fields: seq<Field>, packed: bool, placed: seq<Field>)
    requires HasPositions(fields, packed, placed) && LayoutSize(fields, packed) < U16
    ensures SafePositions(fields, packed, placed, Half(LayoutSize(fields, packed)))
  {
    hide LayoutEnd, LayoutStart, FieldBytes, Positioned, Alignment, CountVar, Mod, HeaderSize, Half;
    var size := LayoutSize(fields, packed);
    forall i | 0 <= i < |fields| && Positioned(fields, packed, i)
      ensures Inside(fields, packed, placed, Half(size), i) && placed[i].pos == LayoutStart(fields, packed, i)
    {
      StartInside(fields, packed, i);
      LayoutMonotone(fields, packed, i + 1, |fields|);
    }
    forall i, j | 0 <= i < j < |fields| && Positioned(fields, packed, i) && Positioned(fields, packed, j)
      ensures Apart(fields, packed, placed, i, j)
    {
      StartInside(fields, packed, i);
      StartInside(fields, packed, j);
      LayoutMonotone(fields, packed, i + 1, j);
    }
  }

  /** The first field that reaches 2^16 is stored over the header or runs past the stored size. */
  lemma OverflowIsUnsafe(fields: seq<Field>, packed: bool, placed: seq<Field>)
    requires HasPositions(fields, packed, placed) && LayoutSize(fields, packed) >= U16
    ensures !SafePositions(fields, packed, placed, Half(LayoutSize(fields, packed)))
  {
    hide LayoutStart, AlignUp, FieldBytes, Alignment, CountVar, Mod, Half, Positioned;
    var i := 0;
    while LayoutEnd(fields, packed, i + 1) < U16
      invariant 0 <= i < |fields| && LayoutEnd(fields, packed, i) < U16
      decreases |fields| - i
    {
      i := i + 1;
    }
    assert Positioned(fields, packed, i);
    StartInside(fields, packed, i);
    var a := Alignment(fields[i].ftype, packed);
    AlignDivides(a);
    AlignUpLeast(LayoutEnd(fields, packed, i), a, U16);
    StartUnfold(fields, packed, i);
    assert !Inside(fields, packed, placed, Half(LayoutSize(fields, packed)), i) by { WrapToZero(); }
  }

  lemma StartUnfold(fields: seq<Field>, packed: bool, i: nat)
    requires i < |fields|
    ensures LayoutStart(fields, packed, i) == AlignUp(LayoutEnd(fields, packed, i), Alignment(fields[i].ftype, packed))
  {}

  lemma WrapToZero()
    ensures Half(U16) == 0
  {}

  /** `compute_positions` gives usable positions exactly when the unbounded layout fits in 16 bits. */
  lemma PositionsSafeExactly(fields: seq<Field>, packed: bool, placed: seq<Field>)
    requires HasPositions(fields, packed, placed)
    ensures
      SafePositions(fields, packed, placed, Half(LayoutSize(fields, packed))) <==> LayoutSize(fields, packed) < U16
  {
    hide SafePositions, HasPositions, LayoutSize;
    if LayoutSize(fields, packed) < U16 {
      FittingIsSafe(fields, packed, placed);
    } else {
      OverflowIsUnsafe(fields, packed, placed);
    }
  }
}

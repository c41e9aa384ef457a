/**
 * The transform compiler of jitbuf: from two message descriptors to a
 * straight-line program (jitbuf/transform_builder.cc, jitbuf/transformer.cc).
 *
 * `Plan` is what the builder hands to the code generator, `Program` is the
 * emitted instruction list. Optimisation passes and execution by the JIT
 * engine are not part of this model; the meaning of a program is given by an
 * interpreter in the next module.
 */
module JitbufProgram {
  import opened Bits
  import opened Common
  import opened JitbufLayout

  /** A descriptor after `compute_positions`. */
  datatype Desc = Desc(rpcId: nat, fields: seq<Field>, size: nat, nVar: nat)

  datatype Copy = Copy(src: nat, dst: nat, size: nat)

  /** `BlobDetails`; positions that the code leaves unset are zero here. */
  datatype Blob = Blob(srcPos: nat, dstPos: nat, shouldWrite: bool, isRemainder: bool)

  datatype Plan = Plan(copies: seq<Copy>, lenPos: nat, srcSize: nat, blobs: seq<Blob>)

  const NoLength: nat := 0xffff_ffff

  // ---------------------------------------------------------------- the builder's result

  /** Position of the last non-VAR field with each id. */
  function FixedMap(fields: seq<Field>, k: nat): map<nat, nat>
    requires k <= |fields|
  {
    if k == 0 then map[]
    else if fields[k - 1].ftype.VAR? then FixedMap(fields, k - 1)
    else FixedMap(fields, k - 1)[fields[k - 1].id := fields[k - 1].pos]
  }

  /** Position of the last VAR field with each id. */
  function VarMap(fields: seq<Field>, k: nat): map<nat, nat>
    requires k <= |fields|
  {
    if k == 0 then map[]
    else if !fields[k - 1].ftype.VAR? then VarMap(fields, k - 1)
    else VarMap(fields, k - 1)[fields[k - 1].id := fields[k - 1].pos]
  }

  /** A destination field is filled when the source has a fixed field with its id. */
  predicate Matched(f: Field, from: map<nat, nat>) {
    !f.ftype.VAR? && f.id in from
  }

  function FieldCopy(f: Field, from: map<nat, nat>): Copy
    requires Matched(f, from)
  {
    Copy(from[f.id], f.pos, FieldBytes(f, false))
  }

  /** One copy for each matched destination field among the first `k`. */
  function FieldCopies(fields: seq<Field>, from: map<nat, nat>, k: nat): seq<Copy>
    requires k <= |fields|
  {
    if k == 0 then []
    else if Matched(fields[k - 1], from) then FieldCopies(fields, from, k - 1) + [FieldCopy(fields[k - 1], from)]
    else FieldCopies(fields, from, k - 1)
  }

  /** The number of source bytes the copies need. */
  function MinSize(copies: seq<Copy>): nat {
    if copies == [] then 0
    else
      var c := copies[|copies| - 1];
      var rest := MinSize(copies[..|copies| - 1]);
      if c.src + c.size > rest then c.src + c.size else rest
  }

  function MakeBlob(f: Field, isLast: bool, to: map<nat, nat>): Blob {
    Blob(if isLast then 0 else f.pos, if f.id in to then to[f.id] else 0, f.id in to, isLast)
  }

  /** One blob for each VAR field among the first `k` of the source. */
  function AllBlobs(fields: seq<Field>, nVar: nat, to: map<nat, nat>, k: nat): seq<Blob>
    requires k <= |fields|
  {
    if k == 0 then []
    else
      var prev := AllBlobs(fields, nVar, to, k - 1);
      if fields[k - 1].ftype.VAR? then prev + [MakeBlob(fields[k - 1], |prev| == nVar - 1, to)] else prev
  }

  /** Lengths of written blobs go through the field copies, behind the pointer. */
  function LengthCopies(blobs: seq<Blob>): seq<Copy> {
    if blobs == [] then []
    else
      var b := blobs[|blobs| - 1];
      LengthCopies(blobs[..|blobs| - 1]) +
      if b.shouldWrite && !b.isRemainder then [Copy(b.srcPos, b.dstPos + 8, 2)] else []
  }

  /** Blobs behind the last written one are dropped. */
  function DropTail(blobs: seq<Blob>): (r: seq<Blob>)
    ensures r <= blobs
  {
    if blobs == [] || blobs[|blobs| - 1].shouldWrite then blobs else DropTail(blobs[..|blobs| - 1])
  }

  function WantedBlobs(from: Desc, to: Desc): seq<Blob> {
    if from.nVar > 0 && to.nVar > 0 then
      AllBlobs(from.fields, from.nVar, VarMap(to.fields, |to.fields|), |from.fields|)
    else []
  }

  /** What `get_xform_to` hands to the code generator, or `None` when it throws. */
  function BuildPlan(from: Desc, to: Desc): Option<Plan> {
    var copies := FieldCopies(to.fields, FixedMap(from.fields, |from.fields|), |to.fields|);
    if MinSize(copies) > from.size then None
    else
      var blobs := WantedBlobs(from, to);
      Some(Plan(copies + LengthCopies(blobs), if from.nVar > 0 then 2 else NoLength, from.size, DropTail(blobs)))
  }

  // ---------------------------------------------------------------- the builder

  /** `get_xform_to`, loop by loop. */
  method GetXformTo(from: Desc, to: Desc) returns (plan: Option<Plan>)
    ensures plan == BuildPlan(from, to)
  {
    hide Matched, FieldCopy, MakeBlob;
    var fromMap := map[];
    for i := 0 to |from.fields|
      invariant fromMap == FixedMap(from.fields, i)
    {
      var f := from.fields[i];
      if !f.ftype.VAR? { fromMap := fromMap[f.id := f.pos]; }
    }
    var copies, minSize := CopyFields(to.fields, fromMap);
    if minSize > from.size { return None; }
    var lenPos := NoLength;
    if from.nVar > 0 { lenPos := 2; }
    var blobs: seq<Blob> := [];
    if from.nVar > 0 && to.nVar > 0 {
      var toMap := map[];
      for i := 0 to |to.fields|
        invariant toMap == VarMap(to.fields, i)
      {
        var f := to.fields[i];
        if f.ftype.VAR? { toMap := toMap[f.id := f.pos]; }
      }
      var lengths;
      blobs, lengths := ListBlobs(from, toMap);
      copies := copies + lengths;
    } else {
      assert copies + LengthCopies([]) == copies;
    }
    return Some(Plan(copies, lenPos, from.size, blobs));
  }

  method CopyFields(fields: seq<Field>, fromMap: map<nat, nat>) returns (copies: seq<Copy>, minSize: nat)
    ensures copies == FieldCopies(fields, fromMap, |fields|) && minSize == MinSize(copies)
  {
    copies, minSize := [], 0;
    for i := 0 to |fields|
      invariant copies == FieldCopies(fields, fromMap, i) && minSize == MinSize(copies)
    {
      hide FieldBytes;
      var f := fields[i];
      if f.ftype.VAR? { continue; }
      if f.id !in fromMap { continue; }
      var size := FieldBytes(f, false);
      var c := Copy(fromMap[f.id], f.pos, size);
      assert (copies + [c])[..|copies|] == copies;
      copies := copies + [c];
      minSize := if minSize < c.src + size then c.src + size else minSize;
    }
  }

  method ListBlobs(from: Desc, toMap: map<nat, nat>) returns (blobs: seq<Blob>, lengths: seq<Copy>)
    ensures var all := AllBlobs(from.fields, from.nVar, toMap, |from.fields|);
            blobs == DropTail(all) && lengths == LengthCopies(all)
  {
    blobs, lengths := [], [];
    var lastWritten := -1;
    for k := 0 to |from.fields|
      invariant blobs == AllBlobs(from.fields, from.nVar, toMap, k) && lengths == LengthCopies(blobs)
      invariant LastWritten(blobs, lastWritten)
    {
      var f := from.fields[k];
      if !f.ftype.VAR? { continue; }
      var b := MakeBlob(f, |blobs| == from.nVar - 1, toMap);
      if b.shouldWrite {
        lastWritten := |blobs|;
        if !b.isRemainder {
          lengths := lengths + [Copy(b.srcPos, b.dstPos + 8, 2)];
        }
      }
      assert (blobs + [b])[..|blobs|] == blobs;
      blobs := blobs + [b];
    }
    DropTailIs(blobs, lastWritten);
    blobs := blobs[..lastWritten + 1];
  }

  predicate LastWritten(blobs: seq<Blob>, last: int) {
    && -1 <= last < |blobs|
    && (last >= 0 ==> blobs[last].shouldWrite)
    && forall i :: last < i < |blobs| ==> !blobs[i].shouldWrite
  }

  lemma {:induction false} DropTailIs(blobs: seq<Blob>, last: int)
    requires LastWritten(blobs, last)
    ensures DropTail(blobs) == blobs[..last + 1]
  {
    if last < |blobs| - 1 {
      var init := blobs[..|blobs| - 1];
      DropTailIs(init, last);
      assert init[..last + 1] == blobs[..last + 1];
    } else {
      assert blobs[..last + 1] == blobs;
    }
  }

  // ---------------------------------------------------------------- emitted code

  datatype Val = Imm(v: nat) | Reg(r: nat)

  /** The instructions the generator emits; registers hold 16-bit values. */
  datatype Instr =
    | LoadStore(src: nat, dst: nat, size: nat)
    | Memcpy(src: nat, dst: nat, size: nat)
    | StorePtr(dst: nat, offset: Val)
    | Load16(r: nat, src: nat)
    | Add16(r: nat, a: Val, b: Val)
    | Sub16(r: nat, a: Val, b: Val)
    | Store16(dst: nat, v: Val)

  datatype Program = Program(code: seq<Instr>, ret: Val)

  /** A register move when the size has a register type and both ends are aligned, a memcpy otherwise. */
  function EmitCopy(c: Copy): Instr {
    if c.size in {1, 2, 4, 8, 16} && And(Or(c.src, c.dst), c.size - 1) == 0 then LoadStore(c.src, c.dst, c.size)
    else Memcpy(c.src, c.dst, c.size)
  }

  function EmitCopies(copies: seq<Copy>): (code: seq<Instr>)
    ensures |code| == |copies|
  {
    seq(|copies|, i requires 0 <= i < |copies| => EmitCopy(copies[i]))
  }

  /** Generator state: code so far, next free register, current offset, return value if known. */
  datatype Gen = Gen(code: seq<Instr>, next: nat, offset: Val, ret: Option<Val>)

  function EmitPointer(g: Gen, b: Blob): Gen {
    if b.shouldWrite then g.(code := g.code + [StorePtr(b.dstPos, g.offset)]) else g
  }

  function EmitRemainder(g: Gen, b: Blob, lenPos: nat): Gen {
    if b.shouldWrite && b.isRemainder then
      g.(code := g.code + [Load16(g.next, lenPos), Sub16(g.next + 1, Reg(g.next), g.offset), Store16(b.dstPos + 2,
          Reg(g.next + 1))],
         next := g.next + 2, ret := Some(Reg(g.next)))
    else g
  }

  function EmitAdvance(g: Gen, b: Blob): Gen {
    if b.isRemainder then g
    else g.(code := g.code + [Load16(g.next, b.srcPos), Add16(g.next + 1, g.offset, Reg(g.next))],
            next := g.next + 2, offset := Reg(g.next + 1))
  }

  function EmitBlob(g: Gen, b: Blob, lenPos: nat): Gen {
    EmitAdvance(EmitRemainder(EmitPointer(g, b), b, lenPos), b)
  }

  function EmitBlobs(blobs: seq<Blob>, lenPos: nat, srcSize: nat): Gen {
    if blobs == [] then Gen([], 0, Imm(Half(srcSize)), None)
    else EmitBlob(EmitBlobs(blobs[..|blobs| - 1], lenPos, srcSize), blobs[|blobs| - 1], lenPos)
  }

  /** Without a returned total so far: load it when the message carries one, else the fixed size. */
  function EmitReturn(g: Gen, lenPos: nat, srcSize: nat): Program {
    if g.ret.Some? then Program(g.code, g.ret.value)
    else if srcSize < 2 || lenPos <= srcSize - 2 then Program(g.code + [Load16(g.next, lenPos)], Reg(g.next))
    else Program(g.code, Imm(Half(srcSize)))
  }

  function Emit(plan: Plan): Program {
    var tail := EmitReturn(EmitBlobs(plan.blobs, plan.lenPos, plan.srcSize), plan.lenPos, plan.srcSize);
    Program(EmitCopies(plan.copies) + tail.code, tail.ret)
  }

  /** `Transformer::get_xform`, as far as it builds code. */
  method GetXform(plan: Plan) returns (p: Program)
    ensures p == Emit(plan)
  {
    hide EmitBlob, EmitCopy;
    var code: seq<Instr> := [];
    for i := 0 to |plan.copies|
      invariant code == EmitCopies(plan.copies)[..i]
    {
      code := code + [EmitCopy(plan.copies[i])];
    }
    var g := Gen([], 0, Imm(Half(plan.srcSize)), None);
    for i := 0 to |plan.blobs|
      invariant g == EmitBlobs(plan.blobs[..i], plan.lenPos, plan.srcSize)
    {
      assert plan.blobs[..i + 1][..i] == plan.blobs[..i];
      g := EmitBlob(g, plan.blobs[i], plan.lenPos);
    }
    assert plan.blobs[..|plan.blobs|] == plan.blobs;
    var tail := EmitReturn(g, plan.lenPos, plan.srcSize);
    p := Program(code + tail.code, tail.ret);
  }
}

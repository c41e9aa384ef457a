/**
 * What the emitted transform does: an interpreter for the instruction list, and
 * the proof that running a compiled transform copies every matching field,
 * points every wanted blob at its place in the message, and reads nothing
 * outside the message (jitbuf/transform_builder.cc, jitbuf/transformer.cc,
 * jitbuf/handler.cc).
 */
module JitbufMeaning {
  import opened Bits
  import opened Common
  import opened LittleEndian
  import opened JitbufLayout
  import opened JitbufProgram

  /** The destination struct, as a total map from offsets to bytes. */
  type Memory = nat -> Byte

  function Write(mem: Memory, at: nat, bytes: seq<Byte>): Memory {
    (a: nat) => if at <= a < at + |bytes| then bytes[a - at] else mem(a)
  }

  /** A 16-bit index is sign-extended when it is added to a pointer. */
  function SignExtend(v: nat): int {
    if v < 0x8000 then v else v - U16
  }

  // ---------------------------------------------------------------- interpreter

  /** Stores of blob pointers and lengths, in order. */
  datatype Event = Ptr(dst: nat, disp: int) | Len(dst: nat, len: nat)

  datatype Machine = Machine(mem: Memory, regs: map<nat, nat>, log: seq<Event>)

  function EventBytes(base: nat, e: Event): seq<Byte> {
    match e
    case Ptr(_, disp) => ToBytes((base + disp) % U64, 8)
    case Len(_, len) => ToBytes(len, 2)
  }

  function Eval(m: Machine, v: Val): Option<nat> {
    match v
    case Imm(n) => Some(n)
    case Reg(r) => if r in m.regs then Some(m.regs[r]) else None
  }

  function Emits(m: Machine, base: nat, e: Event): Machine {
    m.(mem := Write(m.mem, e.dst, EventBytes(base, e)), log := m.log + [e])
  }

  /**
   * One instruction. `None` is undefined behaviour: a read outside the message, a
   * move at misaligned offsets, an undefined register. Offsets are judged within
   * message and destination, not their addresses. The alignment of pointer
   * stores and of 16-bit loads and stores is not judged.
   */
  function Step(i: Instr, src: seq<Byte>, base: nat, m: Machine): Option<Machine> {
    match i
    case LoadStore(s, d, n) =>
      if s + n <= |src| && n > 0 && Mod(s, n) == 0 && Mod(d, n) == 0
      then Some(m.(mem := Write(m.mem, d, ToBytes(FromBytes(src[s..s + n]), n))))
      else None
    case Memcpy(s, d, n) =>
      if s + n <= |src| then Some(m.(mem := Write(m.mem, d, src[s..s + n]))) else None
    case StorePtr(d, off) => (
      match Eval(m, off)
      case Some(v) => Some(Emits(m, base, Ptr(d, SignExtend(v))))
      case None => None)
    case Load16(r, s) =>
      if s + 2 <= |src| then Some(m.(regs := m.regs[r := Word16(src, s)])) else None
    case Add16(r, a, b) => (
      match (Eval(m, a), Eval(m, b))
      case (Some(x), Some(y)) => Some(m.(regs := m.regs[r := Half(x + y)]))
      case _ => None)
    case Sub16(r, a, b) => (
      match (Eval(m, a), Eval(m, b))
      case (Some(x), Some(y)) => Some(m.(regs := m.regs[r := Half(x - y)]))
      case _ => None)
    case Store16(d, v) => (
      match Eval(m, v)
      case Some(x) => Some(Emits(m, base, Len(d, x)))
      case None => None)
  }

  function Exec(code: seq<Instr>, src: seq<Byte>, base: nat, m: Machine): Option<Machine> {
    if code == [] then Some(m)
    else
      match Step(code[0], src, base, m)
      case None => None
      case Some(m') => Exec(code[1..], src, base, m')
  }

  /** A run of a program from empty registers: the destination it leaves, what it logged, and what it returns. */
  function RunProgram(p: Program, src: seq<Byte>, base: nat, mem: Memory): Option<(Machine, nat)> {
    match Exec(p.code, src, base, Machine(mem, map[], []))
    case None => None
    case Some(m) =>
      match Eval(m, p.ret)
      case None => None
      case Some(v) => Some((m, v))
  }

  lemma {:induction false} ExecConcat(a: seq<Instr>, b: seq<Instr>, src: seq<Byte>, base: nat, m: Machine)
    ensures Exec(a + b, src, base, m) ==
            match Exec(a, src, base, m) case None => None case Some(m') => Exec(b, src, base, m')
  {
    hide Step;
    if a == [] {
      assert a + b == b;
    } else {
      assert (a + b)[1..] == a[1..] + b;
      match Step(a[0], src, base, m) {
        case None =>
        case Some(m') => ExecConcat(a[1..], b, src, base, m');
      }
    }
  }

  // ---------------------------------------------------------------- the copies

  /** Memory after a list of plain copies. */
  ghost function CopyMem(mem: Memory, copies: seq<Copy>, src: seq<Byte>): Memory
    requires forall i :: 0 <= i < |copies| ==> copies[i].src + copies[i].size <= |src|
  {
    if copies == [] then mem
    else CopyMem(Write(mem, copies[0].dst, src[copies[0].src..copies[0].src + copies[0].size]), copies[1..], src)
  }

  predicate CopiesFit(copies: seq<Copy>, src: seq<Byte>) {
    forall i :: 0 <= i < |copies| ==> copies[i].src + copies[i].size <= |src|
  }

  /** Whichever instruction was chosen, it copies the bytes. */
  lemma CopyStep(c: Copy, src: seq<Byte>, base: nat, m: Machine)
    requires c.src + c.size <= |src|
    ensures Step(EmitCopy(c), src, base, m) == Some(m.(mem := Write(m.mem, c.dst, src[c.src..c.src + c.size])))
  {
    hide Mod, And, Or, ToBytes, FromBytes, IsPow2;
    if EmitCopy(c).LoadStore? {
      AlignIsPow2(c.size);
      OrMask(c.src, c.dst, c.size);
      BytesRoundTrip(src[c.src..c.src + c.size]);
    }
  }

  /** A copy is a register move exactly when there is a register of its size and both ends are multiples of it. */
  lemma MovesExactly(c: Copy)
    ensures EmitCopy(c).LoadStore? <==>
            c.size in {1, 2, 4, 8, 16} && c.src % c.size == 0 && c.dst % c.size == 0
    ensures EmitCopy(c).LoadStore? || EmitCopy(c) == Memcpy(c.src, c.dst, c.size)
  {
    hide Mod, And, Or, IsPow2;
    if c.size in {1, 2, 4, 8, 16} {
      AlignIsPow2(c.size);
      OrMask(c.src, c.dst, c.size);
      ModIsRemainder(c.src, c.size);
      ModIsRemainder(c.dst, c.size);
    }
  }

  /** A mask of `x | y` is zero exactly when both are aligned. */
  lemma OrMask(x: nat, y: nat, n: nat)
    requires IsPow2(n) && n > 0
    ensures And(Or(x, y), n - 1) == 0 <==> Mod(x, n) == 0 && Mod(y, n) == 0
  {
    hide Mod, Or;
    AndMask(Or(x, y), n);
    OrAligned(x, y, n);
  }

  lemma {:induction false} OrAligned(x: nat, y: nat, n: nat)
    requires IsPow2(n) && n > 0
    ensures Mod(Or(x, y), n) == 0 <==> Mod(x, n) == 0 && Mod(y, n) == 0
  {
    hide Mod;
    if x == 0 || y == 0 {
      ModSmall(0, n);
    } else if n == 1 {
      assert Mod(x, 1) < 1 && Mod(y, 1) < 1 && Mod(Or(x, y), 1) < 1;
    } else {
      ModHalf(Or(x, y), n / 2);
      ModHalf(x, n / 2);
      ModHalf(y, n / 2);
      OrAligned(x / 2, y / 2, n / 2);
    }
  }

  lemma {:induction false} CopiesRun(copies: seq<Copy>, src: seq<Byte>, base: nat, m: Machine)
    requires CopiesFit(copies, src)
    ensures Exec(EmitCopies(copies), src, base, m) == Some(m.(mem := CopyMem(m.mem, copies, src)))
  {
    hide Step, EmitCopy, Write;
    if copies != [] {
      CopyStep(copies[0], src, base, m);
      assert EmitCopies(copies)[1..] == EmitCopies(copies[1..]);
      CopiesRun(copies[1..], src, base, m.(mem := Write(m.mem, copies[0].dst,
          src[copies[0].src..copies[0].src + copies[0].size])));
    }
  }

  predicate Covers(c: Copy, a: nat) {
    c.dst <= a < c.dst + c.size
  }

  lemma {:induction false} CopyMemOutside(mem: Memory, copies: seq<Copy>, src: seq<Byte>, a: nat)
    requires CopiesFit(copies, src) && forall i :: 0 <= i < |copies| ==> !Covers(copies[i], a)
    ensures CopyMem(mem, copies, src)(a) == mem(a)
  {
    if copies != [] {
      var c := copies[0];
      CopyMemOutside(Write(mem, c.dst, src[c.src..c.src + c.size]), copies[1..], src, a);
    }
  }

  /** A byte covered by exactly one copy ends up as that copy's source byte. */
  lemma {:induction false} CopyMemInside(mem: Memory, copies: seq<Copy>, src: seq<Byte>, a: nat, k: nat)
    requires CopiesFit(copies, src) && k < |copies| && Covers(copies[k], a)
    requires forall i :: 0 <= i < |copies| && i != k ==> !Covers(copies[i], a)
    ensures CopyMem(mem, copies, src)(a) == src[copies[k].src + (a - copies[k].dst)]
  {
    var c := copies[0];
    var mem' := Write(mem, c.dst, src[c.src..c.src + c.size]);
    if k == 0 {
      CopyMemOutside(mem', copies[1..], src, a);
    } else {
      CopyMemInside(mem', copies[1..], src, a, k - 1);
    }
  }

  // ---------------------------------------------------------------- the blobs

  /** Length words of the listed blobs lie inside the message, and so does the total when it is needed. */
  predicate BlobsFit(blobs: seq<Blob>, lenPos: nat, src: seq<Byte>) {
    forall i :: 0 <= i < |blobs| ==> BlobFits(blobs[i], lenPos, src)
  }

  predicate BlobFits(b: Blob, lenPos: nat, src: seq<Byte>) {
    && (!b.isRemainder ==> b.srcPos + 2 <= |src|)
    && (b.shouldWrite && b.isRemainder ==> lenPos + 2 <= |src|)
  }

  /** Bytes a blob takes, as the message says; the last one takes what remains. */
  function BlobLen(b: Blob, src: seq<Byte>): nat {
    if !b.isRemainder && b.srcPos + 2 <= |src| then Word16(src, b.srcPos) else 0
  }

  /** Where the blob after the given ones starts: the fixed part and all earlier blobs come before it. */
  function OffsetAfter(blobs: seq<Blob>, src: seq<Byte>, srcSize: nat): nat {
    if blobs == [] then srcSize
    else OffsetAfter(blobs[..|blobs| - 1], src, srcSize) + BlobLen(blobs[|blobs| - 1], src)
  }

  function BlobEvents(b: Blob, offset: nat, total: nat): seq<Event> {
    (if b.shouldWrite then [Ptr(b.dstPos, SignExtend(Half(offset)))] else []) +
    (if b.shouldWrite && b.isRemainder then [Len(b.dstPos + 2, Half(total - offset))] else [])
  }

  /** The pointer and length stores a message calls for, blob by blob. */
  function EventsOf(blobs: seq<Blob>, src: seq<Byte>, srcSize: nat, total: nat): seq<Event> {
    if blobs == [] then []
    else
      var init := blobs[..|blobs| - 1];
      EventsOf(init, src, srcSize, total) + BlobEvents(blobs[|blobs| - 1], OffsetAfter(init, src, srcSize), total)
  }

  ghost function ApplyEvents(mem: Memory, base: nat, events: seq<Event>): Memory {
    if events == [] then mem
    else
      var e := events[|events| - 1];
      Write(ApplyEvents(mem, base, events[..|events| - 1]), e.dst, EventBytes(base, e))
  }

  function TotalLength(src: seq<Byte>, lenPos: nat): nat {
    if lenPos + 2 <= |src| then Word16(src, lenPos) else 0
  }

  /** Generator and machine agree after some blobs. */
  ghost predicate InStep(g: Gen, m: Machine, m': Machine, base: nat, events: seq<Event>, offset: nat, total: nat) {
    && (g.offset.Reg? ==> g.offset.r < g.next)
    && (g.ret.Some? ==> g.ret.value.Reg? && g.ret.value.r < g.next && Eval(m', g.ret.value) == Some(total))
    && Eval(m', g.offset) == Some(Half(offset))
    && m'.log == m.log + events && m'.mem == ApplyEvents(m.mem, base, events)
  }

  lemma ApplySnoc(mem: Memory, base: nat, events: seq<Event>, e: Event)
    ensures ApplyEvents(mem, base, events + [e]) == Write(ApplyEvents(mem, base, events), e.dst, EventBytes(base, e))
  {
    assert (events + [e])[..|events|] == events;
  }

  lemma ExecOne(i: Instr, src: seq<Byte>, base: nat, m: Machine)
    ensures Exec([i], src, base, m) == Step(i, src, base, m)
  {
    hide Step;
    assert [i][1..] == [];
  }

  /** Appending one instruction to code that ran. */
  lemma ExecSnoc(code: seq<Instr>, i: Instr, src: seq<Byte>, base: nat, m: Machine, m': Machine)
    requires Exec(code, src, base, m) == Some(m')
    ensures Exec(code + [i], src, base, m) == Step(i, src, base, m')
  {
    hide Step, Exec;
    ExecConcat(code, [i], src, base, m);
    ExecOne(i, src, base, m');
  }

  lemma PointerRun(g: Gen, b: Blob, src: seq<Byte>, base: nat, m: Machine, m': Machine, events: seq<Event>,
      offset: nat, total: nat)
    returns (m2: Machine, events2: seq<Event>)
    requires Exec(g.code, src, base, m) == Some(m') && InStep(g, m, m', base, events, offset, total)
    ensures Exec(EmitPointer(g, b).code, src, base, m) == Some(m2)
    ensures events2 == events + if b.shouldWrite then [Ptr(b.dstPos, SignExtend(Half(offset)))] else []
    ensures InStep(EmitPointer(g, b), m, m2, base, events2, offset, total)
  {
    hide Exec, Half, SignExtend, EventBytes, Write, ApplyEvents;
    if b.shouldWrite {
      var e := Ptr(b.dstPos, SignExtend(Half(offset)));
      ExecSnoc(g.code, StorePtr(b.dstPos, g.offset), src, base, m, m');
      m2, events2 := Emits(m', base, e), events + [e];
      ApplySnoc(m.mem, base, events, e);
    } else {
      m2, events2 := m', events;
      assert events + [] == events;
    }
  }

  lemma RemainderRun(g: Gen, b: Blob, lenPos: nat, src: seq<Byte>, base: nat,
                     m: Machine, m': Machine, events: seq<Event>, offset: nat, total: nat)
    returns (m2: Machine, events2: seq<Event>)
    requires Exec(g.code, src, base, m) == Some(m') && InStep(g, m, m', base, events, offset, total)
    requires BlobFits(b, lenPos, src) && total == TotalLength(src, lenPos)
    ensures Exec(EmitRemainder(g, b, lenPos).code, src, base, m) == Some(m2)
    ensures events2 == events + if b.shouldWrite && b.isRemainder then [Len(b.dstPos + 2, Half(total - offset))] else []
    ensures InStep(EmitRemainder(g, b, lenPos), m, m2, base, events2, offset, total)
  {
    hide Exec, Half, EventBytes, Write, ApplyEvents, Word16;
    if b.shouldWrite && b.isRemainder {
      var r := g.next;
      var i1, i2, i3 := Load16(r, lenPos), Sub16(r + 1, Reg(r), g.offset), Store16(b.dstPos + 2, Reg(r + 1));
      var m1 := m'.(regs := m'.regs[r := total]);
      ExecSnoc(g.code, i1, src, base, m, m');
      HalfSub(total, offset);
      var v := Half(total - offset);
      assert Eval(m1, g.offset) == Some(Half(offset));
      var m1' := m1.(regs := m1.regs[r + 1 := v]);
      ExecSnoc(g.code + [i1], i2, src, base, m, m1);
      var e := Len(b.dstPos + 2, v);
      ExecSnoc(g.code + [i1] + [i2], i3, src, base, m, m1');
      assert g.code + [i1] + [i2] + [i3] == g.code + [i1, i2, i3];
      m2, events2 := Emits(m1', base, e), events + [e];
      ApplySnoc(m.mem, base, events, e);
    } else {
      m2, events2 := m', events;
      assert events + [] == events;
    }
  }

  lemma HalfSub(x: int, y: int)
    ensures Half(x - Half(y)) == Half(x - y)
  {
    ModSub(x, y, U16);
  }

  lemma AdvanceRun(g: Gen, b: Blob, src: seq<Byte>, base: nat, m: Machine, m': Machine, events: seq<Event>,
      offset: nat, total: nat)
    returns (m2: Machine)
    requires Exec(g.code, src, base, m) == Some(m') && InStep(g, m, m', base, events, offset, total)
    requires !b.isRemainder ==> b.srcPos + 2 <= |src|
    ensures Exec(EmitAdvance(g, b).code, src, base, m) == Some(m2)
    ensures InStep(EmitAdvance(g, b), m, m2, base, events, offset + BlobLen(b, src), total)
  {
    hide Exec, Half, EventBytes, Write, ApplyEvents, Word16;
    if b.isRemainder {
      m2 := m';
    } else {
      var r := g.next;
      var len := Word16(src, b.srcPos);
      var i1, i2 := Load16(r, b.srcPos), Add16(r + 1, g.offset, Reg(r));
      var m1 := m'.(regs := m'.regs[r := len]);
      ExecSnoc(g.code, i1, src, base, m, m');
      HalfAdd(offset, len);
      assert Eval(m1, g.offset) == Some(Half(offset));
      m2 := m1.(regs := m1.regs[r + 1 := Half(offset + len)]);
      ExecSnoc(g.code + [i1], i2, src, base, m, m1);
      assert g.code + [i1] + [i2] == g.code + [i1, i2];
    }
  }

  /**
   * The blob code stores, for every wanted blob, the offset of its bytes behind the fixed
   * part and all earlier blobs.
   */
  lemma {:induction false} BlobsRun(blobs: seq<Blob>, lenPos: nat, srcSize: nat, src: seq<Byte>, base: nat, m: Machine)
    returns (m': Machine)
    requires BlobsFit(blobs, lenPos, src)
    ensures Exec(EmitBlobs(blobs, lenPos, srcSize).code, src, base, m) == Some(m')
    ensures var total := TotalLength(src, lenPos);
            var events, offset := EventsOf(blobs, src, srcSize, total), OffsetAfter(blobs, src, srcSize);
            InStep(EmitBlobs(blobs, lenPos, srcSize), m, m', base, events, offset, total)
  {
    hide EmitPointer, EmitRemainder, EmitAdvance, BlobFits, TotalLength, Half, Write, Step, BlobLen, InStep;
    var total := TotalLength(src, lenPos);
    if blobs == [] {
      m' := m;
      StartInStep(lenPos, srcSize, m, base, total);
    } else {
      var init, b := blobs[..|blobs| - 1], blobs[|blobs| - 1];
      var g := EmitBlobs(init, lenPos, srcSize);
      var events, offset := EventsOf(init, src, srcSize, total), OffsetAfter(init, src, srcSize);
      var m0 := BlobsRun(init, lenPos, srcSize, src, base, m);
      assert BlobFits(b, lenPos, src);
      var m1, ev1 := PointerRun(g, b, src, base, m, m0, events, offset, total);
      var m2, ev2 := RemainderRun(EmitPointer(g, b), b, lenPos, src, base, m, m1, ev1, offset, total);
      assert !b.isRemainder ==> b.srcPos + 2 <= |src| by { FitsLength(b, lenPos, src); }
      m' := AdvanceRun(EmitRemainder(EmitPointer(g, b), b, lenPos), b, src, base, m, m2, ev2, offset, total);
      assert ev2 == events + BlobEvents(b, offset, total);
    }
  }

  lemma FitsLength(b: Blob, lenPos: nat, src: seq<Byte>)
    requires BlobFits(b, lenPos, src)
    ensures !b.isRemainder ==> b.srcPos + 2 <= |src|
  {}

  lemma StartInStep(lenPos: nat, srcSize: nat, m: Machine, base: nat, total: nat)
    ensures InStep(EmitBlobs([], lenPos, srcSize), m, m, base, [], srcSize, total)
  {
    assert m.log + [] == m.log;
  }
}

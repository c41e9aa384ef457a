/**
 * The message handler of jitbuf (`Handler::handle` in jitbuf/handler.cc): the
 * length guard that runs before a transform, and what it protects.
 */
module JitbufHandler {
  import opened Bits
  import opened Common
  import opened LittleEndian
  import opened JitbufLayout
  import opened JitbufProgram
  import opened JitbufMeaning
  import opened JitbufTheorems

  /**
   * The user's handler function: the length it returns for a message, given the
   * outcome of the transform on that message, which it may use or ignore.
   */
  type HandlerFunc = (seq<Byte>, Option<(Machine, nat)>) -> nat

  /** A registered transform: the fixed size of the sender's messages, the compiled program, the handler function. */
  datatype Record = Record(size: nat, program: Program, func: HandlerFunc)

  datatype Outcome = Handled(consumed: nat) | Rejected(code: int) | Thrown

  /** The record was compiled from a described sender format. */
  ghost predicate Compiled(rec: Record) {
    exists from: Desc, fields: seq<Field>, to: Desc ::
      CompiledFrom(rec, from, fields, to)
  }

  predicate CompiledFrom(rec: Record, from: Desc, fields: seq<Field>, to: Desc) {
    && Described(from, fields, true) && BuildPlan(from, to).Some?
    && rec.size == from.size && rec.program == Emit(BuildPlan(from, to).value)
  }

  /** A record is safe to run on any message that reaches its size. */
  lemma CompiledRuns(rec: Record, src: seq<Byte>, base: nat, mem: Memory)
    requires Compiled(rec) && rec.size <= |src|
    ensures RunProgram(rec.program, src, base, mem).Some?
  {
    hide RunProgram, Emit, Described, BuildPlan;
    var from: Desc, fields, to: Desc :| CompiledFrom(rec, from, fields, to);
    TransformSafe(from, fields, to, src, base, mem);
  }

  // ---------------------------------------------------------------- one message

  /** What the handler works with: its registrations, the flags and the destination of the transforms. */
  datatype Setting = Setting(handlers: map<nat, Record>, failUnadded: bool, timestamped: bool, mem: Memory)

  /** The outcome of `handle` for a message at address `base`. */
  function Reply(s: Setting, msg: seq<Byte>, base: nat): Outcome {
    var skip := if s.timestamped then 8 else 0;
    if |msg| < skip + 2 then Rejected(-EINVAL)
    else
      var body := msg[skip..];
      var id := Word16(body, 0);
      if id !in s.handlers then (if s.failUnadded then Thrown else Rejected(-EINVAL))
      else if |body| < s.handlers[id].size then Rejected(-EINVAL)
      else
        var size := Half(s.handlers[id].func(body, RunProgram(s.handlers[id].program, body, base + skip, s.mem)));
        if size > |body| then Rejected(-EINVAL) else Handled(size + skip)
  }

  lemma ReplyFacts(s: Setting, msg: seq<Byte>, base: nat)
    ensures var r := Reply(s, msg, base);
            && (r.Handled? ==> r.consumed <= |msg| && (s.timestamped ==> 8 <= r.consumed))
            && (r.Rejected? ==> r.code == -EINVAL) && (r.Thrown? ==> s.failUnadded)
  {
    hide RunProgram, Word16, Half;
  }

  // ---------------------------------------------------------------- a buffer of messages

  /** `handle_multiple` between two turns of its loop, at its return, or left by an exception. */
  datatype Loop = Going(processed: nat) | Done(result: int) | Failed

  /** The outcome of `handle` at position `p` of a buffer; the length it is given is cut to 32 bits. */
  function ReplyAt(s: Setting, buf: seq<Byte>, base: nat, p: nat): Outcome
    requires p < |buf|
  {
    var n := if |buf| - p > U32 - 1 then U32 - 1 else |buf| - p;
    Reply(s, buf[p..p + n], base + p)
  }

  /** The conversion of a 64-bit count to the `int` returned. */
  function IntOf(x: nat): int {
    if Word(x) < 0x8000_0000 then Word(x) else Word(x) - U32
  }

  /**
   * One turn. The code returned by `handle` is kept in a variable of the loop
   * body, so without progress the outer one, which is zero, is returned.
   */
  function Turn(s: Setting, buf: seq<Byte>, base: nat, l: Loop): Loop {
    if !l.Going? then l
    else if |buf| <= l.processed then Done(IntOf(l.processed))
    else
      match ReplyAt(s, buf, base, l.processed)
      case Rejected(_) => Done(if l.processed > 0 then IntOf(l.processed) else 0)
      case Thrown => Failed
      case Handled(n) => if n + l.processed > |buf| then Failed else Going(l.processed + n)
  }

  /** The loop after `k` turns. */
  function Turns(s: Setting, buf: seq<Byte>, base: nat, k: nat): Loop {
    if k == 0 then Going(0) else Turn(s, buf, base, Turns(s, buf, base, k - 1))
  }

  /** From position `p` on, every message before the first one not handled reports a positive length. */
  predicate Progresses(s: Setting, buf: seq<Byte>, base: nat, p: nat)
    decreases |buf| - p
  {
    p < |buf| ==>
      match ReplyAt(s, buf, base, p)
      case Handled(n) => n > 0 && Progresses(s, buf, base, p + n)
      case _ => true
  }

  /** Where the messages handled from position `p` on end. */
  function StopAt(s: Setting, buf: seq<Byte>, base: nat, p: nat): (r: nat)
    requires Progresses(s, buf, base, p)
    ensures p <= r
    decreases |buf| - p
  {
    if p >= |buf| then p
    else
      match ReplyAt(s, buf, base, p)
      case Handled(n) => StopAt(s, buf, base, p + n)
      case _ => p
  }

  /** The sanity check of the loop never fires: it fails only when `handle` throws. */
  lemma {:induction false} NeverOverruns(s: Setting, buf: seq<Byte>, base: nat, k: nat)
    ensures var l := Turns(s, buf, base, k);
            (l.Going? ==> l.processed <= |buf|) && (l.Failed? ==> s.failUnadded)
  {
    hide Reply, IntOf;
    if k > 0 {
      NeverOverruns(s, buf, base, k - 1);
      var l := Turns(s, buf, base, k - 1);
      if l.Going? && l.processed < |buf| { PieceFacts(s, buf, base, l.processed); }
    }
  }

  lemma PieceFacts(s: Setting, buf: seq<Byte>, base: nat, p: nat)
    requires p < |buf|
    ensures var r := ReplyAt(s, buf, base, p);
            (r.Handled? ==> p + r.consumed <= |buf|) && (r.Thrown? ==> s.failUnadded)
    ensures var r := ReplyAt(s, buf, base, p); r.Handled? && s.timestamped ==> r.consumed >= 8
  {
    hide Reply;
    var n := if |buf| - p > U32 - 1 then U32 - 1 else |buf| - p;
    ReplyFacts(s, buf[p..p + n], base + p);
  }

  /** A loop that makes progress ends, at the position where the messages stop. */
  lemma {:induction false} ProgressEnds(s: Setting, buf: seq<Byte>, base: nat, k: nat, p: nat) returns (n: nat)
    requires Turns(s, buf, base, k) == Going(p) && Progresses(s, buf, base, p)
    ensures var l := Turns(s, buf, base, n);
            !l.Going? && (l.Done? ==> l.result == IntOf(StopAt(s, buf, base, p)))
    decreases |buf| - p
  {
    hide ReplyAt, IntOf;
    n := k + 1;
    if p < |buf| {
      PieceFacts(s, buf, base, p);
      if ReplyAt(s, buf, base, p).Handled? {
        n := ProgressEnds(s, buf, base, k + 1, p + ReplyAt(s, buf, base, p).consumed);
      } else if p == 0 {
        IntOfZero();
      }
    }
  }

  lemma IntOfZero()
    ensures IntOf(0) == 0
  {}

  /** The `int` is the one number of 32 bits, with sign, that the count is congruent to. */
  lemma IntOfIs(x: nat)
    ensures -0x8000_0000 <= IntOf(x) < 0x8000_0000 && Word(IntOf(x)) == Word(x)
    ensures x < 0x8000_0000 ==> IntOf(x) == x
  {
    hide Mod;
    var w := Word(x);
    ModSmall(w, U32);
    ModPlus(w - U32, U32);
    if x < 0x8000_0000 { ModSmall(x, U32); }
  }

  /** A loop without progress goes on. */
  lemma {:induction false} StallGoesOn(s: Setting, buf: seq<Byte>, base: nat, k: nat)
    requires !Progresses(s, buf, base, 0)
    ensures var l := Turns(s, buf, base, k); l.Going? && !Progresses(s, buf, base, l.processed)
  {
    hide ReplyAt, IntOf;
    if k > 0 {
      StallGoesOn(s, buf, base, k - 1);
      PieceFacts(s, buf, base, Turns(s, buf, base, k - 1).processed);
    }
  }

  /**
   * `handle_multiple` returns or throws exactly when every message before the
   * first one not handled reports a positive length.
   */
  lemma EndsExactly(s: Setting, buf: seq<Byte>, base: nat)
    ensures (exists k :: !Turns(s, buf, base, k).Going?) <==> Progresses(s, buf, base, 0)
  {
    if Progresses(s, buf, base, 0) {
      var n := ProgressEnds(s, buf, base, 0, 0);
    } else {
      forall k ensures Turns(s, buf, base, k).Going? { StallGoesOn(s, buf, base, k); }
    }
  }

  /** With timestamps it always does. */
  lemma {:induction false} TimestampsProgress(s: Setting, buf: seq<Byte>, base: nat, p: nat)
    requires s.timestamped
    ensures Progresses(s, buf, base, p)
    decreases |buf| - p
  {
    hide ReplyAt;
    if p < |buf| {
      PieceFacts(s, buf, base, p);
      if ReplyAt(s, buf, base, p).Handled? {
        TimestampsProgress(s, buf, base, p + ReplyAt(s, buf, base, p).consumed);
      }
    }
  }

  lemma {:induction false} EndStays(s: Setting, buf: seq<Byte>, base: nat, i: nat, k: nat)
    requires i <= k && !Turns(s, buf, base, i).Going?
    ensures Turns(s, buf, base, k) == Turns(s, buf, base, i)
  {
    hide Turn;
    if i < k {
      EndStays(s, buf, base, i, k - 1);
      TurnStays(s, buf, base, Turns(s, buf, base, i));
    }
  }

  lemma TurnStays(s: Setting, buf: seq<Byte>, base: nat, l: Loop)
    requires !l.Going?
    ensures Turn(s, buf, base, l) == l
  {}

  /**
   * Whatever it returns is the count of bytes handled, as an `int`. So an error
   * is never reported: it returns zero exactly for an empty buffer, for a
   * rejected first message, and for a positive count that is a multiple of 2^32.
   */
  lemma ResultExactly(s: Setting, buf: seq<Byte>, base: nat, k: nat)
    requires Turns(s, buf, base, k).Done?
    ensures Progresses(s, buf, base, 0)
    ensures var stop, result := StopAt(s, buf, base, 0), Turns(s, buf, base, k).result;
            && result == IntOf(stop)
            && -0x8000_0000 <= result < 0x8000_0000 && Word(result) == Word(stop)
            && (stop < 0x8000_0000 ==> result == stop)
            && (stop == 0 <==> buf == [] || ReplyAt(s, buf, base, 0).Rejected?)
            && (result == 0 <==> stop == 0 || (stop >= U32 && Word(stop) == 0))
  {
    hide ReplyAt, Turn, Word, IntOf;
    EndsExactly(s, buf, base);
    var n := ProgressEnds(s, buf, base, 0, 0);
    if n <= k { EndStays(s, buf, base, n, k); } else { EndStays(s, buf, base, k, n); }
    StopExactly(s, buf, base, k);
    IntOfIs(StopAt(s, buf, base, 0));
    IntOfNone(StopAt(s, buf, base, 0));
  }

  lemma IntOfNone(x: nat)
    ensures IntOf(x) == 0 <==> Word(x) == 0
    ensures x < U32 ==> Word(x) == x
  {
    hide Mod;
    if x < U32 { ModSmall(x, U32); }
  }

  lemma StopExactly(s: Setting, buf: seq<Byte>, base: nat, k: nat)
    requires Turns(s, buf, base, k).Done? && Progresses(s, buf, base, 0)
    ensures StopAt(s, buf, base, 0) == 0 <==> buf == [] || ReplyAt(s, buf, base, 0).Rejected?
  {
    hide ReplyAt;
    if buf != [] && ReplyAt(s, buf, base, 0).Thrown? {
      assert Turns(s, buf, base, 0) == Going(0);
      assert Turns(s, buf, base, 1) == Failed;
      if k >= 1 { EndStays(s, buf, base, 1, k); }
    }
  }

  // ---------------------------------------------------------------- the handler

  class Handler {
    const failUnadded: bool
    var remoteTimestamp: nat
    var handlers: map<nat, Record>

    constructor (failUnadded: bool)
      ensures this.failUnadded == failUnadded && remoteTimestamp == 0 && handlers == map[]
    {
      this.failUnadded, remoteTimestamp, handlers := failUnadded, 0, map[];
    }

    ghost predicate Valid()
      reads this
    {
      forall id :: id in handlers ==> Compiled(handlers[id])
    }

    /** `add`: a second registration for the same id is refused. */
    method Add(id: nat, rec: Record) returns (ok: bool)
      requires Valid() && Compiled(rec)
      modifies this
      ensures Valid() && ok == (id !in old(handlers))
      ensures handlers == if ok then old(handlers)[id := rec] else old(handlers)
      ensures remoteTimestamp == old(remoteTimestamp)
    {
      hide Compiled;
      ok := id !in handlers;
      if ok { handlers := handlers[id := rec]; }
    }

    /**
     * `handle`: the handler function may run the transform on the message into
     * `mem`, which no message of the guarded length makes fail, and its length
     * is cut to 16 bits.
     */
    method Handle(msg: seq<Byte>, timestamped: bool, base: nat, mem: Memory) returns (res: Outcome, ran: bool)
      requires Valid() && |msg| < U32
      modifies this
      ensures Valid() && handlers == old(handlers)
      ensures timestamped && |msg| >= 8 ==> remoteTimestamp == FromBytes(msg[..8])
      ensures !timestamped || |msg| < 8 ==> remoteTimestamp == old(remoteTimestamp)
      ensures timestamped && |msg| < 8 ==> res == Rejected(-EINVAL)
      ensures !timestamped || |msg| >= 8 ==>
                var skip := if timestamped then 8 else 0;
                var body := msg[skip..];
                if |body| < 2 then res == Rejected(-EINVAL) && !ran
                else if Word16(body, 0) !in handlers then
                  !ran && res == if failUnadded then Thrown else Rejected(-EINVAL)
                else
                  var rec := handlers[Word16(body, 0)];
                  && ran == (|body| >= rec.size)
                  && (!ran ==> res == Rejected(-EINVAL))
                  && (ran ==>
                        var run := RunProgram(rec.program, body, base + skip, mem);
                        var size := Half(rec.func(body, run));
                        run.Some? && res == if size > |body| then Rejected(-EINVAL) else Handled(size + skip))
      ensures res == Reply(Setting(handlers, failUnadded, timestamped, mem), msg, base)
    {
      hide RunProgram, Compiled, Word16, FromBytes;
      ran := false;
      var body, processed := msg, 0;
      if timestamped {
        if |body| < 8 { return Rejected(-EINVAL), false; }
        remoteTimestamp := FromBytes(body[..8]);
        body := body[8..];
        processed := 8;
      }
      assert body == msg[processed..];
      if |body| < 2 { return Rejected(-EINVAL), false; }
      var id := Word16(body, 0);
      if id !in handlers {
        return (if failUnadded then Thrown else Rejected(-EINVAL)), false;
      }
      var rec := handlers[id];
      if |body| < rec.size { return Rejected(-EINVAL), false; }
      CompiledRuns(rec, body, base + processed, mem);
      var run := RunProgram(rec.program, body, base + processed, mem);
      ran := true;
      var size := Half(rec.func(body, run));
      if size > |body| { return Rejected(-EINVAL), true; }
      return Handled(size + processed), true;
    }

    /**
     * `handle_multiple`, for a buffer on which its loop ends; `EndsExactly` says
     * which those are.
     */
    method HandleMultiple(buf: seq<Byte>, timestamped: bool, base: nat, mem: Memory) returns (r: Loop)
      requires Valid() && Progresses(Setting(handlers, failUnadded, timestamped, mem), buf, base, 0)
      modifies this
      ensures Valid() && handlers == old(handlers) && !r.Going?
      ensures !timestamped ==> remoteTimestamp == old(remoteTimestamp)
      ensures exists k :: r == Turns(Setting(handlers, failUnadded, timestamped, mem), buf, base, k)
      ensures r.Done? ==>
                var stop := StopAt(Setting(handlers, failUnadded, timestamped, mem), buf, base, 0);
                r.result == IntOf(stop) && (stop < 0x8000_0000 ==> r.result == stop)
    {
      hide Compiled, Reply, IntOf, FromBytes, RunProgram, Word16;
      ghost var s, k := Setting(handlers, failUnadded, timestamped, mem), 0;
      var processed := 0;
      while |buf| > processed
        invariant Valid() && handlers == old(handlers) && Progresses(s, buf, base, processed)
        invariant !timestamped ==> remoteTimestamp == old(remoteTimestamp)
        invariant Turns(s, buf, base, k) == Going(processed)
        invariant StopAt(s, buf, base, processed) == StopAt(s, buf, base, 0)
        decreases |buf| - processed
      {
        var n := if |buf| - processed > U32 - 1 then U32 - 1 else |buf| - processed;
        var res, ran := Handle(buf[processed..processed + n], timestamped, base + processed, mem);
        assert res == ReplyAt(s, buf, base, processed);
        PieceFacts(s, buf, base, processed);
        assert Turns(s, buf, base, k + 1) == Turn(s, buf, base, Going(processed));
        if res.Thrown? { return Failed; }
        if res.Rejected? { break; }
        if res.consumed + processed > |buf| { return Failed; }
        processed, k := processed + res.consumed, k + 1;
      }
      assert Turns(s, buf, base, k + 1) == Turn(s, buf, base, Going(processed));
      IntOfZero();
      IntOfIs(processed);
      r := Done(if processed > 0 then IntOf(processed) else 0);
    }
  }
}

/**
 * The rotating window of change queues as values (util/metric_store.h): what
 * enqueueing, popping and advancing do to the queues, and what holds over
 * every run of them.
 */
module MetricWindow {
  import opened Bits

  /** One queue per epoch, most recent first. */
  datatype Window = Window(queues: seq<seq<nat>>, current: nat)

  ghost predicate Distinct(q: seq<nat>) {
    forall i, j :: 0 <= i < j < |q| ==> q[i] != q[j]
  }

  ghost predicate GoodQueue(q: seq<nat>, size: nat) {
    Distinct(q) && forall i :: 0 <= i < |q| ==> q[i] < size
  }

  ghost predicate Good(w: Window, size: nat) {
    && 0 < |w.queues| && w.current < |w.queues|
    && forall e :: 0 <= e < |w.queues| ==> GoodQueue(w.queues[e], size)
  }

  /** The epoch `bin` slots ahead of the current one. */
  function Epoch(w: Window, bin: nat): (e: nat)
    requires 0 < |w.queues|
    ensures e < |w.queues|
  {
    Mod(bin + w.current, |w.queues|)
  }

  function Enqueued(w: Window, e: nat, index: nat): Window
    requires e < |w.queues|
  {
    if index in w.queues[e] then w else w.(queues := w.queues[e := [index] + w.queues[e]])
  }

  function Popped(w: Window): Window
    requires w.current < |w.queues| && w.queues[w.current] != []
  {
    w.(queues := w.queues[w.current := w.queues[w.current][1..]])
  }

  function Advanced(w: Window): Window
    requires 0 < |w.queues|
  {
    w.(current := Mod(w.current + 1, |w.queues|))
  }

  lemma EnqueuedGood(w: Window, size: nat, e: nat, index: nat)
    requires Good(w, size) && e < |w.queues| && index < size
    ensures Good(Enqueued(w, e, index), size)
  {}

  lemma PoppedGood(w: Window, size: nat)
    requires Good(w, size) && w.queues[w.current] != []
    ensures Good(Popped(w), size)
  {
    assert GoodQueue(w.queues[w.current], size);
  }

  // ---------------------------------------------------------------- runs

  datatype Op = Lookup(index: nat, bin: nat, enqueue: bool) | Pop | Advance

  predicate Legal(w: Window, size: nat, op: Op)
    requires w.current < |w.queues|
  {
    match op
    case Lookup(index, bin, _) => index < size && bin < |w.queues|
    case Pop => w.queues[w.current] != []
    case Advance => true
  }

  function Apply(w: Window, size: nat, op: Op): (w': Window)
    requires w.current < |w.queues| && Legal(w, size, op)
    ensures w'.current < |w'.queues| == |w.queues|
  {
    match op
    case Lookup(index, bin, enqueue) => if enqueue then Enqueued(w, Epoch(w, bin), index) else w
    case Pop => Popped(w)
    case Advance => Advanced(w)
  }

  predicate LegalRun(w: Window, size: nat, ops: seq<Op>)
    requires w.current < |w.queues|
    decreases |ops|
  {
    ops == [] || (Legal(w, size, ops[0]) && LegalRun(Apply(w, size, ops[0]), size, ops[1..]))
  }

  function Run(w: Window, size: nat, ops: seq<Op>): (w': Window)
    requires w.current < |w.queues| && LegalRun(w, size, ops)
    ensures w'.current < |w'.queues| == |w.queues|
    decreases |ops|
  {
    if ops == [] then w else Run(Apply(w, size, ops[0]), size, ops[1..])
  }

  lemma ApplyGood(w: Window, size: nat, op: Op)
    requires Good(w, size) && Legal(w, size, op)
    ensures Good(Apply(w, size, op), size)
  {
    match op
    case Lookup(index, bin, _) => EnqueuedGood(w, size, Epoch(w, bin), index);
    case Pop => PoppedGood(w, size);
    case Advance =>
  }

  /** Every queue stays free of duplicates. */
  lemma {:induction false} RunGood(w: Window, size: nat, ops: seq<Op>)
    requires Good(w, size) && LegalRun(w, size, ops)
    ensures Good(Run(w, size, ops), size)
    decreases |ops|
  {
    hide GoodQueue, Legal, Apply;
    if ops != [] {
      ApplyGood(w, size, ops[0]);
      RunGood(Apply(w, size, ops[0]), size, ops[1..]);
    }
  }

  // ---------------------------------------------------------------- every enqueue is popped once

  function Member(w: Window, e: nat, index: nat): nat
    requires e < |w.queues|
  {
    if index in w.queues[e] then 1 else 0
  }

  /** Whether this operation puts `index` into the queue of epoch `e`. */
  predicate Enqueues(w: Window, size: nat, op: Op, e: nat, index: nat)
    requires w.current < |w.queues| && Legal(w, size, op) && e < |w.queues|
  {
    op.Lookup? && op.enqueue && op.index == index && Epoch(w, op.bin) == e && index !in w.queues[e]
  }

  /** Whether this operation takes `index` out of the queue of epoch `e`. */
  predicate Pops(w: Window, size: nat, op: Op, e: nat, index: nat)
    requires w.current < |w.queues| && Legal(w, size, op) && e < |w.queues|
  {
    op.Pop? && w.current == e && w.queues[e][0] == index
  }

  function EnqueueCount(w: Window, size: nat, ops: seq<Op>, e: nat, index: nat): nat
    requires w.current < |w.queues| && LegalRun(w, size, ops) && e < |w.queues|
    decreases |ops|
  {
    if ops == [] then 0
    else
      (if Enqueues(w, size, ops[0], e, index) then 1 else 0)
      + EnqueueCount(Apply(w, size, ops[0]), size, ops[1..], e, index)
  }

  function PopCount(w: Window, size: nat, ops: seq<Op>, e: nat, index: nat): nat
    requires w.current < |w.queues| && LegalRun(w, size, ops) && e < |w.queues|
    decreases |ops|
  {
    if ops == [] then 0
    else
      (if Pops(w, size, ops[0], e, index) then 1 else 0)
      + PopCount(Apply(w, size, ops[0]), size, ops[1..], e, index)
  }

  lemma MemberStep(w: Window, size: nat, op: Op, e: nat, index: nat)
    requires Good(w, size) && Legal(w, size, op) && e < |w.queues|
    ensures
      var out, in' := if Pops(w, size, op, e, index) then 1 else 0, if Enqueues(w, size, op, e, index) then 1 else 0;
      Member(Apply(w, size, op), e, index) + out == Member(w, e, index) + in'
  {
    match op
    case Lookup(i, bin, _) => assert i in [i] + w.queues[Epoch(w, bin)];
    case Pop =>
      var q := w.queues[w.current];
      assert GoodQueue(q, size);
      assert q == [q[0]] + q[1..];
      assert q[0] !in q[1..];
    case Advance =>
  }

  /** Over every run: what is in a queue is what was put in and not yet popped, index by index. */
  lemma {:induction false} PoppedOncePerEnqueue(w: Window, size: nat, ops: seq<Op>, e: nat, index: nat)
    requires Good(w, size) && LegalRun(w, size, ops) && e < |w.queues|
    ensures
      Member(Run(w, size, ops), e, index) + PopCount(w, size, ops, e, index)
      == Member(w, e, index) + EnqueueCount(w, size, ops, e, index)
    decreases |ops|
  {
    hide GoodQueue, Legal, Apply, Member, Pops, Enqueues;
    if ops != [] {
      ApplyGood(w, size, ops[0]);
      MemberStep(w, size, ops[0], e, index);
      PoppedOncePerEnqueue(Apply(w, size, ops[0]), size, ops[1..], e, index);
    }
  }

  // ---------------------------------------------------------------- arriving after as many advances as the bin

  function Advances(ops: seq<Op>): nat {
    if ops == [] then 0 else (if ops[0].Advance? then 1 else 0) + Advances(ops[1..])
  }

  /** An epoch ahead of the current one is not touched by pops, and each advance brings it closer. */
  lemma AheadStep(w: Window, size: nat, op: Op, index: nat, bin: nat)
    requires Good(w, size) && Legal(w, size, op) && 0 < bin < |w.queues| && index in w.queues[Epoch(w, bin)]
    ensures
      var w' := Apply(w, size, op);
      if op.Advance? then Epoch(w', bin - 1) == Epoch(w, bin) && index in w'.queues[Epoch(w', bin - 1)]
      else Epoch(w', bin) == Epoch(w, bin) && index in w'.queues[Epoch(w', bin)]
  {
    hide Mod, GoodQueue;
    var n := |w.queues|;
    if op.Advance? {
      ModAdd(w.current + 1, bin - 1, n);
    } else {
      ModDistinct(w.current, w.current + bin, n);
      EpochNow(w);
    }
  }

  /**
   * An index queued at bin `b` is in the current queue right after the b-th
   * advance, whatever lookups and pops happen in between.
   */
  lemma {:induction false} ArrivesAfterAdvances(w: Window, size: nat, ops: seq<Op>, index: nat, bin: nat)
    requires Good(w, size) && bin < |w.queues| && index in w.queues[Epoch(w, bin)] && LegalRun(w, size, ops)
    requires Advances(ops) == bin && (ops == [] || ops[|ops| - 1] == Advance)
    ensures var w' := Run(w, size, ops); index in w'.queues[w'.current]
    decreases |ops|
  {
    hide GoodQueue, Legal, Apply, Epoch;
    if bin == 0 {
      NoAdvance(ops);
      EpochNow(w);
    } else {
      AheadStep(w, size, ops[0], index, bin);
      ApplyGood(w, size, ops[0]);
      var rest := ops[1..];
      if rest == [] { assert Advances(rest) == 0; }
      ArrivesAfterAdvances(Apply(w, size, ops[0]), size, rest, index, Advances(rest));
    }
  }

  lemma EpochNow(w: Window)
    requires w.current < |w.queues|
    ensures Epoch(w, 0) == w.current
  {}

  lemma {:induction false} NoAdvance(ops: seq<Op>)
    requires Advances(ops) == 0 && (ops == [] || ops[|ops| - 1] == Advance)
    ensures ops == []
  {
    if |ops| > 1 { NoAdvance(ops[1..]); }
  }

  /** Looking an index up with `enqueue` leaves it queued at that bin. */
  lemma LookupQueues(w: Window, size: nat, index: nat, bin: nat)
    requires w.current < |w.queues| && index < size && bin < |w.queues|
    ensures
      var w' := Apply(w, size, Lookup(index, bin, true));
      w'.current == w.current && index in w'.queues[Epoch(w', bin)]
  {
    hide Mod;
  }
}

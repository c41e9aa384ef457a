/**
 * The metric store (util/metric_store.h): per-epoch queues threaded through
 * the `next` links of the elements, addressed by 16-bit time slots.
 */
module MetricStore {
  import opened Bits
  import opened Common
  import opened FastDiv
  import opened Histogram
  import opened MetricWindow

  /** The largest value of the index type that `size` selects; it marks an element that is not queued. */
  function Invalid(size: nat): nat {
    if size >= U16 - 2 then U32 - 1 else U16 - 1
  }

  /** Ends a list. */
  function ListEnd(size: nat): nat {
    Invalid(size) - 1
  }

  /** The two marks are the largest values of the index type, and no index; 65534 elements need the larger type. */
  lemma IndexMarks(size: nat)
    requires size < U32 - 2
    ensures size <= ListEnd(size) == Invalid(size) - 1
    ensures size < 65534 ==> Invalid(size) + 1 == U16
    ensures size >= 65534 ==> Invalid(size) + 1 == U32
  {}

  // ---------------------------------------------------------------- one intrusive list

  ghost function LinkAt(q: seq<nat>, i: nat, end: nat): nat {
    if i < |q| then q[i] else end
  }

  /** The list from `head` through the links is `q`, and only its members are linked. */
  ghost predicate Threaded(links: seq<nat>, head: nat, q: seq<nat>, size: nat) {
    && |links| == size && size <= ListEnd(size)
    && GoodQueue(q, size)
    && head == LinkAt(q, 0, ListEnd(size))
    && (forall i :: 0 <= i < |q| ==> links[q[i]] == LinkAt(q, i + 1, ListEnd(size)))
    && (forall x :: 0 <= x < size ==> (links[x] != Invalid(size) <==> x in q))
  }

  lemma ThreadedPush(links: seq<nat>, head: nat, q: seq<nat>, size: nat, x: nat)
    requires Threaded(links, head, q, size) && x < size && x !in q
    ensures Threaded(links[x := head], x, [x] + q, size)
  {
    var links', q' := links[x := head], [x] + q;
    forall i | 0 <= i < |q'| ensures links'[q'[i]] == LinkAt(q', i + 1, ListEnd(size)) {
      if i > 0 { assert q'[i] == q[i - 1] != x; }
    }
    assert head != Invalid(size);
    forall y | 0 <= y < size ensures links'[y] != Invalid(size) <==> y in q' {}
  }

  /** Taking the first entry off. */
  lemma TailGood(q: seq<nat>, size: nat)
    requires GoodQueue(q, size) && q != []
    ensures GoodQueue(q[1..], size) && q[0] !in q[1..]
    ensures forall y :: y in q <==> y == q[0] || y in q[1..]
  {
    assert q == [q[0]] + q[1..];
  }

  lemma ThreadedPop(links: seq<nat>, head: nat, q: seq<nat>, size: nat)
    requires Threaded(links, head, q, size) && q != []
    ensures head == q[0] < size
    ensures Threaded(links[head := Invalid(size)], links[head], q[1..], size)
  {
    assert head == q[0] < size;
    TailGood(q, size);
    ThreadedRest(links, head, q, q[1..], size);
  }

  lemma ThreadedRest(links: seq<nat>, head: nat, q: seq<nat>, q': seq<nat>, size: nat)
    requires Threaded(links, head, q, size) && q != [] && head == q[0] < size && q' == q[1..]
    requires GoodQueue(q', size) && head !in q' && forall y :: y in q <==> y == head || y in q'
    ensures Threaded(links[head := Invalid(size)], links[head], q', size)
  {
    hide Distinct;
    var links', end := links[head := Invalid(size)], ListEnd(size);
    assert links[q[0]] == LinkAt(q, 1, end) == LinkAt(q', 0, end);
    forall i | 0 <= i < |q'| ensures links'[q'[i]] == LinkAt(q', i + 1, end) {
      assert q'[i] == q[i + 1];
      assert q'[i] in q';
    }
    forall y | 0 <= y < size ensures links'[y] != Invalid(size) <==> y in q' {}
  }

  // ---------------------------------------------------------------- 16-bit slots

  /** A value cast to `s16`. */
  function S16(x: int): (r: int)
    ensures -0x8000 <= r < 0x8000
  {
    var m := Mod(x, U16);
    if m < 0x8000 then m else m - U16
  }

  /** The difference of two 16-bit slots is the difference of the slots exactly when that fits in 16 bits. */
  lemma RelativeExact(slot: nat, current: nat)
    ensures S16(Mod(slot, U16) - Mod(current, U16)) == slot - current <==> -0x8000 <= slot - current < 0x8000
  {
    hide Mod, S16;
    ModAdd(slot, 0 - Mod(current, U16), U16);
    ModSub(slot, current, U16);
    S16Same(Mod(slot, U16) - Mod(current, U16), slot - current);
    ModSigned(slot - current);
  }

  lemma S16Same(x: int, y: int)
    requires Mod(x, U16) == Mod(y, U16)
    ensures S16(x) == S16(y)
  {}

  lemma ModSigned(d: int)
    ensures -0x8000 <= d < 0x8000 ==> S16(d) == d
  {}

  // ---------------------------------------------------------------- the object

  class MetricStore {
    const size: nat
    const divisor: FastDiv
    /** `arr_[index].next[epoch]`. */
    const next: array2<nat>
    /** `queue_[epoch].head_`. */
    const heads: array<nat>
    var current: nat
    var timeslot: Option<nat>
    /** The contents of the queues. */
    ghost var queues: seq<seq<nat>>
    /** The current slot before reduction to 16 bits. */
    ghost var slot: nat

    ghost function Links(e: nat): (r: seq<nat>)
      requires next.Length0 == size && e < next.Length1
      reads next
      ensures |r| == size && forall x :: 0 <= x < size ==> r[x] == next[x, e]
    {
      seq(size, x requires 0 <= x < size reads next => next[x, e])
    }

    ghost predicate Shape() {
      next.Length0 == size && next.Length1 == heads.Length && IsPow2(heads.Length) && heads.Length <= 0x4000_0000
      && next as object != heads
    }

    ghost predicate Linked(e: nat)
      requires Shape() && e < heads.Length
      reads this`queues, next, heads
    {
      |queues| == heads.Length && Threaded(Links(e), heads[e], queues[e], size)
    }

    ghost predicate Valid()
      reads this, next, heads
    {
      && Shape() && current < heads.Length && |queues| == heads.Length
      && (forall e :: 0 <= e < heads.Length ==> Linked(e))
      && (timeslot.Some? ==> timeslot.value == Mod(slot, U16))
    }

    ghost function View(): Window
      reads this
    {
      Window(queues, current)
    }

    constructor (size: nat, epochs: nat, divisor: FastDiv)
      requires size < U32 - 1 && IsPow2(epochs) && epochs <= 0x4000_0000
      ensures Valid() && heads.Length == epochs && this.size == size && this.divisor == divisor
      ensures View() == Window(seq(epochs, _ => []), 0) && timeslot == None
    {
      this.size, this.divisor, current, timeslot := size, divisor, 0, None;
      next := new nat[size, epochs]((_, _) => Invalid(size));
      heads := new nat[epochs](_ => ListEnd(size));
      queues := seq(epochs, _ => []);
    }

    /** The value-level invariant follows from the links. */
    lemma ViewGood()
      requires Valid()
      ensures Good(View(), size)
    {
      forall e | 0 <= e < |queues| ensures GoodQueue(queues[e], size) {
        assert Linked(e);
      }
    }

    /** Rewriting the links and the head of one epoch leaves the others threaded. */
    twostate lemma OthersLinked(e: nat)
      requires old(Valid()) && e < heads.Length && |queues| == heads.Length
      requires forall x, k :: 0 <= x < size && 0 <= k < heads.Length && k != e ==> next[x, k] == old(next[x, k])
      requires forall k :: 0 <= k < heads.Length && k != e ==> heads[k] == old(heads[k]) && queues[k] == old(queues[k])
      requires Linked(e)
      ensures forall k :: 0 <= k < heads.Length ==> Linked(k)
    {
      hide Threaded;
      forall k | 0 <= k < heads.Length && k != e ensures Linked(k) {
        assert old(Linked(k));
        assert Links(k) == old(Links(k));
      }
    }

    method Push(index: nat, epoch: nat)
      requires Valid() && index < size && epoch < heads.Length && index !in queues[epoch]
      modifies this`queues, next, heads
      ensures Valid() && queues == old(queues)[epoch := [index] + old(queues[epoch])]
    {
      hide Threaded;
      assert Linked(epoch);
      ghost var links := Links(epoch);
      ThreadedPush(links, heads[epoch], queues[epoch], size, index);
      ghost var head := heads[epoch];
      next[index, epoch] := heads[epoch];
      heads[epoch] := index;
      queues := queues[epoch := [index] + queues[epoch]];
      assert Links(epoch) == links[index := head];
      OthersLinked(epoch);
    }

    /** `lookup_relative`: whether the element was queued, and the epoch of the metric. */
    method LookupRelative(index: nat, bin: nat, enqueue: bool) returns (wasQueued: bool, epoch: nat)
      requires Valid() && index < size && bin < heads.Length
      modifies this`queues, next, heads
      ensures Valid() && epoch == Epoch(old(View()), bin)
      ensures wasQueued <==> index in old(queues[epoch])
      ensures View() == Apply(old(View()), size, Lookup(index, bin, enqueue))
    {
      hide And, Mod;
      AndMask(bin + current, heads.Length);
      epoch := And(bin + current, heads.Length - 1);
      wasQueued := IsQueued(index, epoch);
      if enqueue && !wasQueued { Push(index, epoch); }
    }

    method IsQueued(index: nat, epoch: nat) returns (b: bool)
      requires Valid() && index < size && epoch < heads.Length
      ensures b <==> index in queues[epoch]
    {
      assert Linked(epoch);
      assert Links(epoch)[index] == next[index, epoch];
      b := next[index, epoch] != Invalid(size);
    }

    /** `current_queue().empty()`. */
    method Empty() returns (b: bool)
      requires Valid()
      ensures b <==> queues[current] == []
    {
      assert Linked(current);
      b := heads[current] == ListEnd(size);
    }

    /** `current_queue().peek()` and `pop()`. */
    method Pop() returns (index: nat)
      requires Valid() && queues[current] != []
      modifies this`queues, next, heads
      ensures Valid() && index == old(queues[current][0])
      ensures View() == Apply(old(View()), size, MetricWindow.Pop)
    {
      hide Threaded;
      assert Linked(current);
      ghost var links := Links(current);
      ThreadedPop(links, heads[current], queues[current], size);
      index := heads[current];
      var rest := next[index, current];
      next[index, current] := Invalid(size);
      heads[current] := rest;
      queues := queues[current := queues[current][1..]];
      assert Links(current) == links[index := Invalid(size)];
      OthersLinked(current);
    }

    /** `advance`. */
    method Advance()
      requires Valid()
      modifies this`current, this`timeslot, this`slot
      ensures Valid() && View() == Apply(old(View()), size, MetricWindow.Advance)
      ensures timeslot.Some? == old(timeslot.Some?) && slot == old(slot) + if timeslot.Some? then 1 else 0
    {
      hide And, Mod, Linked;
      AndMask(current + 1, heads.Length);
      current := And(current + 1, heads.Length - 1);
      if timeslot.Some? {
        ModAdd(slot, 1, U16);
        timeslot := Some(Mod(timeslot.value + 1, U16));
        slot := slot + 1;
      }
    }

    /** `relative_timeslot`: the first call fixes the current slot. */
    method RelativeTimeslot(t: nat) returns (relative: int)
      requires Valid() && t < U64
      modifies this`timeslot, this`slot
      ensures Valid() && timeslot.Some? && -0x8000 <= relative < 0x8000
      ensures old(timeslot.Some?) ==> timeslot == old(timeslot) && slot == old(slot)
      ensures divisor.shift <= 48 && old(timeslot.None?) ==> slot == Exact(t, divisor)
      ensures divisor.shift <= 48 ==>
                (relative == Exact(t, divisor) - slot <==> -0x8000 <= Exact(t, divisor) - slot < 0x8000)
    {
      hide Mod, Linked, Divide, Exact, S16, Pow2;
      var now := Mod(Divide(t, divisor), U16);
      if divisor.shift <= 48 {
        Pow2Values();
        LowBits(t, divisor, 16);
      }
      if timeslot.None? {
        timeslot := Some(now);
        slot := if divisor.shift <= 48 then Exact(t, divisor) else now;
        if divisor.shift > 48 { ModSmall(now, U16); }
      }
      relative := S16(S16(now) - timeslot.value);
      S16Nested(now, timeslot.value);
      RelativeExact(Exact(t, divisor), slot);
    }

    /** `lookup`: the bin is the distance of the slots, clamped to the window. */
    method LookupAt(index: nat, t: nat, enqueue: bool) returns (wasQueued: bool, ghost bin: nat)
      requires Valid() && index < size && t < U64
      modifies this, next, heads
      ensures Valid() && bin < heads.Length && timeslot.Some?
      ensures View() == Apply(old(View()), size, Lookup(index, bin, enqueue))
      ensures wasQueued <==> index in old(queues)[Epoch(old(View()), bin)]
      ensures old(timeslot.Some?) ==> timeslot == old(timeslot) && slot == old(slot)
      ensures divisor.shift <= 48 && old(timeslot.None?) ==> slot == Exact(t, divisor)
      ensures divisor.shift <= 48 && -0x8000 <= Exact(t, divisor) - slot < 0x8000 ==>
                bin == Clamp(Exact(t, divisor) - slot, 0, heads.Length - 1)
    {
      hide Mod, Linked, Exact, Bin, Epoch, Apply;
      var relative := RelativeTimeslot(t);
      BinClamps(heads.Length, relative);
      var b := Bin(heads.Length, relative);
      bin := b;
      var epoch: nat;
      wasQueued, epoch := LookupRelative(index, b, enqueue);
    }
  }

  /** The signed cast of the slot before the subtraction makes no difference after the second cast. */
  lemma S16Nested(now: nat, current: nat)
    requires now < U16
    ensures S16(S16(now) - current) == S16(now - current)
  {
    ModPlus(now - U16 - current, U16);
  }
}

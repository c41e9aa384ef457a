/**
 * The bitmap object and its iterator (util/iterable_bitmap.h), updating five
 * fixed arrays of words in place.
 */
module Bitmap {
  import opened Bits
  import opened WordBits
  import opened BitmapSpec
  import opened BitmapIterator

  /** `__set_bit64`. */
  method SetBit64(nr: nat, addr: array<nat>)
    requires nr / 64 < addr.Length
    modifies addr
    ensures addr[..] == SetIn(old(addr[..]), nr)
  {
    addr[nr / 64] := Or(addr[nr / 64], Pow2(nr % 64));
  }

  /** `__clear_bit64`. */
  method ClearBit64(nr: nat, addr: array<nat>)
    requires nr / 64 < addr.Length
    modifies addr
    ensures addr[..] == ClearIn(old(addr[..]), nr)
  {
    addr[nr / 64] := AndNot(addr[nr / 64], Pow2(nr % 64));
  }

  /** Levels above and including one of `n` words. */
  function LevelCount(n: nat): nat {
    if n <= 1 then 1 else 1 + LevelCount(WordsFor(n))
  }

  /** The code's level sizes and its level count, spelled out: at most five levels for at most 2^30 bits. */
  lemma FiveLevels(size: nat, l0: nat, l1: nat, l2: nat, l3: nat, l4: nat)
    requires 0 < size <= 0x4000_0000 && l0 == WordsFor(size)
    requires l1 == (if l0 == 1 then 0 else WordsFor(l0)) && l2 == (if l1 == 1 then 0 else WordsFor(l1))
    requires l3 == (if l2 == 1 then 0 else WordsFor(l2)) && l4 == (if l3 == 1 then 0 else WordsFor(l3))
    ensures l4 <= 1
    ensures LevelCount(l0) == if l4 > 0 then 5 else if l3 > 0 then 4 else if l2 > 0 then 3 else if l1 > 0 then 2 else 1
  {
    assert l0 <= 0x100_0000;
    assert l1 <= 0x4_0000;
    assert l2 <= 0x1000;
    assert l3 <= 0x40;
    assert LevelCount(1) == 1;
    assert l4 > 0 ==> LevelCount(l3) == 2;
    assert l3 > 1 ==> LevelCount(l2) == 1 + LevelCount(l3);
    assert l2 > 1 ==> LevelCount(l1) == 1 + LevelCount(l2);
    assert l1 > 1 ==> LevelCount(l0) == 1 + LevelCount(l1);
  }

  /** Zeroed words for every level, from `n` words up to a single one. */
  method AllocateLevels(n: nat) returns (ms: seq<array<nat>>)
    requires n > 0
    ensures |ms| == LevelCount(n) > 0 && ms[0].Length == n && ms[|ms| - 1].Length == 1
    ensures forall l {:trigger ms[l]} :: 0 < l < |ms| ==> ms[l].Length == WordsFor(ms[l - 1].Length)
    ensures forall l :: 0 <= l < |ms| ==> fresh(ms[l])
    ensures forall l, w :: 0 <= l < |ms| && 0 <= w < ms[l].Length ==> ms[l][w] == 0
    ensures forall k, l :: 0 <= k < l < |ms| ==> ms[k] != ms[l]
    decreases n
  {
    var a := new nat[n](_ => 0);
    if n == 1 {
      ms := [a];
    } else {
      var rest := AllocateLevels(WordsFor(n));
      ms := [a] + rest;
    }
  }

  class IterableBitmap {
    const size: nat
    /** `mask[l]` are the words of level `l`. */
    const mask: seq<array<nat>>

    constructor (size: nat)
      requires 0 < size
      ensures this.size == size && |mask| == LevelCount(WordsFor(size)) && Valid() && fresh(mask)
      ensures Elements(View()) == {}
    {
      this.size := size;
      var ms := AllocateLevels(WordsFor(size));
      mask := ms;
      new;
      hide WordsFor, Summary, Elements, Shaped, View, LevelCount;
      ZeroMasks(View(), size);
    }

    /** The words of all levels. */
    ghost function View(): (ms: Masks)
      reads mask
      ensures |ms| == |mask|
      ensures forall l :: 0 <= l < |ms| ==> ms[l] == mask[l][..]
    {
      seq(|mask|, l requires 0 <= l < |mask| reads mask => mask[l][..])
    }

    ghost predicate Valid()
      reads mask
    {
      && (forall k, l :: 0 <= k < l < |mask| ==> mask[k] != mask[l])
      && Shaped(View(), size) && Summary(View(), size)
    }

    /** `set`. */
    method Set(index: nat)
      requires Valid() && index < size
      modifies mask
      ensures Valid() && Elements(View()) == old(Elements(View())) + {index}
    {
      hide SetIn, Summary, Elements, BitAt, Shift, View, Shaped;
      ghost var ms := View();
      SetCorrect(ms, size, index);
      ShiftZero(index);
      var at := index;
      for l := 0 to |mask|
        invariant at == Shift(index, l)
        invariant forall k :: 0 <= k < l ==> Shift(index, k) / 64 < |ms[k]|
        invariant forall k :: 0 <= k < l ==> mask[k][..] == SetIn(ms[k], Shift(index, k))
        invariant forall k :: l <= k < |mask| ==> mask[k][..] == ms[k]
      {
        ShiftInRange(ms, size, index, l);
        SetBit64(at, mask[l]);
        at := at / 64;
      }
      assert View() == SetSpec(ms, size, index);
    }

    /** One level of `clear`, above the first: its bit goes when the word below has become zero. */
    method ClearAbove(ghost ms: Masks, index: nat, l: nat, at: nat)
      requires Shaped(ms, size) && index < size && 0 < l < |ms| == |mask| && at == Shift(index, l)
      requires mask[l - 1][..] == ClearLevel(ms, size, index, l - 1) && mask[l][..] == ms[l] && mask[l - 1] != mask[l]
      modifies mask[l]
      ensures mask[l][..] == ClearLevel(ms, size, index, l)
    {
      hide ClearIn, ClearLevel, Shift, Shaped;
      ClearLevelStep(ms, size, index, l);
      assert mask[l - 1][at] == mask[l - 1][..][at];
      if mask[l - 1][at] == 0 { ClearBit64(at, mask[l]); }
    }

    /** The levels of `clear`, one after the other. */
    method ClearLevels(ghost ms: Masks, index: nat)
      requires forall k, l :: 0 <= k < l < |mask| ==> mask[k] != mask[l]
      requires Shaped(ms, size) && index < size && 0 < |ms| == |mask|
      requires forall k :: 0 <= k < |mask| ==> mask[k][..] == ms[k]
      modifies mask
      ensures forall k :: 0 <= k < |mask| ==> mask[k][..] == ClearLevel(ms, size, index, k)
    {
      hide ClearIn, ClearLevel, Shift, Shaped;
      ClearLevelStep(ms, size, index, 0);
      ShiftZero(index);
      ClearBit64(index, mask[0]);
      var at := index;
      for l := 1 to |mask|
        invariant at == Shift(index, l - 1)
        invariant forall k :: 0 <= k < l ==> mask[k][..] == ClearLevel(ms, size, index, k)
        invariant forall k :: l <= k < |mask| ==> mask[k][..] == ms[k]
      {
        ShiftInRange(ms, size, index, l - 1);
        at := at / 64;
        ClearAbove(ms, index, l, at);
      }
    }

    /** `clear`. */
    method Clear(index: nat)
      requires Valid() && index < size
      modifies mask
      ensures Valid() && Elements(View()) == old(Elements(View())) - {index}
    {
      assert |mask| > 0;
      hide Summary, Elements, ClearLevel, View, Shaped;
      ghost var ms := View();
      ClearLevels(ms, index);
      ClearCorrect(ms, size, index);
      assert View() == ClearSpec(ms, size, index);
    }

    /** `get`. */
    method Get(index: nat) returns (b: bool)
      requires Valid() && index < size
      ensures b <==> index in Elements(View())
    {
      ShiftZero(index);
      ShiftInRange(View(), size, index, 0);
      b := Bit(mask[0][index / 64], index % 64);
    }

    /** Point level `l + 1` of an iterator at its lowest bit and load the word below it. */
    method Load(it: Iter, l: nat) returns (r: Iter)
      requires Valid() && ShapedIter(View(), it) && l + 1 < |mask|
      ensures r == Descend(View(), it, l)
    {
      hide Shaped, Summary, LowBit;
      var at := LowBit(it.mask[l + 1]) + if l + 2 < |mask| then it.idx[l + 2] else 0;
      var word := if at < mask[l].Length then mask[l][at] else 0;
      r := Iter(it.idx[l + 1 := 64 * at], it.mask[l := word]);
    }

    /** The nested blocks of `operator++`, from level `l` on. */
    method AdvanceFrom(it: Iter, l: nat) returns (r: Iter)
      requires Valid() && ShapedIter(View(), it) && l < |mask|
      ensures r == Advance(View(), it, l)
      decreases |mask| - l
    {
      hide Shaped, Summary, DropLow, Descend;
      r := it.(mask := it.mask[l := DropLow(it.mask[l])]);
      if r.mask[l] != 0 || l + 1 == |mask| { return; }
      r := AdvanceFrom(r, l + 1);
      if r.mask[|mask| - 1] == 0 { return; }
      r := Load(r, l);
    }

    /** `operator++`. */
    method Increment(it: Iter) returns (r: Iter)
      requires Valid() && ShapedIter(View(), it)
      ensures r == Next(View(), it)
    {
      hide Shaped, Summary, LowBit, Advance;
      r := AdvanceFrom(it, 0);
      if r.mask[|mask| - 1] == 0 { return; }
      r := r.(idx := r.idx[0 := LowBit(r.mask[0]) + if |mask| > 1 then r.idx[1] else 0]);
    }

    /** `begin`. */
    method First() returns (r: Iter)
      requires Valid()
      ensures r == Begin(View())
    {
      hide Summary, LowBit, Descend, View, Shaped;
      ghost var ms := View();
      RootWord(ms, size);
      var top := |mask| - 1;
      r := Iter(seq(|mask|, _ => 0), seq(top, _ => 0) + [mask[top][0]]);
      assert r == AtRoot(ms);
      if r.mask[top] == 0 { return; }
      var l := top;
      while l > 0
        invariant 0 <= l < |ms| && ShapedIter(ms, r)
        invariant DescendAll(ms, r, l) == Begin(ms)
      {
        r := Load(r, l - 1);
        l := l - 1;
      }
      r := r.(idx := r.idx[0 := LowBit(r.mask[0]) + if |mask| > 1 then r.idx[1] else 0]);
    }

    /** A full iteration, as in a range-based for loop: every element once, in ascending order. */
    method Enumerate() returns (out: seq<nat>)
      requires Valid()
      ensures forall i, j :: 0 <= i < j < |out| ==> out[i] < out[j]
      ensures forall x :: x in out <==> x in Elements(View())
    {
      hide Summary, Bit, Elements, Shows, Begin, Next, Shaped, Visited;
      ghost var ms := View();
      ghost var p := BeginCorrect(ms, size);
      out := [];
      var it := First();
      FirstVisit(ms, p);
      if !Ended(it) { ShownInRange(ms, it, p); }
      while !Ended(it)
        invariant ShapedIter(ms, it)
        invariant if Ended(it) then NoneLeft(ms, out) else Shows(ms, it, p) && Visited(ms, out, p)
        invariant !Ended(it) ==> p <= 64 * |ms[0]|
        decreases !Ended(it), 64 * |ms[0]| - p
      {
        ghost var q := NextCorrect(ms, size, it, p);
        VisitOne(ms, it, out, p, q);
        out := out + [it.idx[0]];
        it := Increment(it);
        if !Ended(it) { ShownInRange(ms, it, q); }
        p := q;
      }
    }
  }

  lemma ShownInRange(ms: Masks, it: Iter, p: nat)
    requires |ms| > 0 && ShapedIter(ms, it) && Shows(ms, it, p)
    ensures p < 64 * |ms[0]|
  {}

  lemma FirstVisit(ms: Masks, p: nat)
    requires |ms| > 0
    ensures NoneBetween(ms[0], -1, 64 * |ms[0]|) ==> NoneLeft(ms, [])
    ensures NoneBetween(ms[0], -1, p) ==> Visited(ms, [], p)
  {
    hide BitAt;
  }

  /** Showing `p` after visiting everything below it, and moving on to `q` or the end. */
  lemma VisitOne(ms: Masks, it: Iter, out: seq<nat>, p: nat, q: nat)
    requires |ms| > 0 && ShapedIter(ms, it) && Shows(ms, it, p) && Visited(ms, out, p)
    ensures p < 64 * |ms[0]| && it.idx[0] == p
    ensures NoneBetween(ms[0], p, 64 * |ms[0]|) ==> NoneLeft(ms, out + [p])
    ensures p < q && NoneBetween(ms[0], p, q) ==> Visited(ms, out + [p], q)
  {
    hide BitAt, Tail;
    assert p in Elements(ms);
    forall x ensures x in out + [p] <==> x in out || x == p {}
    forall x | x in Elements(ms) ensures x < p || x == p || (x > p && 0 <= x < 64 * |ms[0]|) {}
    var all := out + [p];
    forall i, j | 0 <= i < j < |all| ensures all[i] < all[j] {
      if j == |out| { assert out[i] in out; }
    }
  }

  /** The output so far is the elements below `p`, ascending. */
  ghost predicate Visited(ms: Masks, out: seq<nat>, p: nat)
    requires |ms| > 0
  {
    && (forall i, j :: 0 <= i < j < |out| ==> out[i] < out[j])
    && (forall x :: x in out <==> x < p && x in Elements(ms))
  }

  ghost predicate NoneLeft(ms: Masks, out: seq<nat>)
    requires |ms| > 0
  {
    && (forall i, j :: 0 <= i < j < |out| ==> out[i] < out[j])
    && (forall x :: x in out <==> x in Elements(ms))
  }

  lemma ZeroMasks(ms: Masks, size: nat)
    requires size > 0 && |ms| > 0 && |ms[0]| == WordsFor(size) && |ms[|ms| - 1]| == 1
    requires forall l {:trigger ms[l]} :: 0 < l < |ms| ==> |ms[l]| == WordsFor(|ms[l - 1]|)
    requires forall l, w :: 0 <= l < |ms| && 0 <= w < |ms[l]| ==> ms[l][w] == 0
    ensures Shaped(ms, size) && Summary(ms, size) && Elements(ms) == {}
  {
    hide Bit;
    forall l, i | 0 <= l < |ms| && 0 <= i < 64 * |ms[l]| ensures !BitAt(ms[l], i) {
      ZeroBits(i % 64);
    }
  }
}

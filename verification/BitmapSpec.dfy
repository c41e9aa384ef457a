/**
 * The hierarchical bitmap as values (util/iterable_bitmap.h): words per level,
 * the rule that ties a summary bit to the word below it, and what setting,
 * clearing and moving an iterator do to them.
 */
module BitmapSpec {
  import opened Bits
  import opened WordBits

  type Masks = seq<seq<nat>>

  function WordsFor(n: nat): nat {
    (n + 63) / 64
  }

  /** `index >> 6 * l`. */
  function Shift(index: nat, l: nat): nat {
    if l == 0 then index else Shift(index, l - 1) / 64
  }

  predicate BitAt(words: seq<nat>, i: nat)
    requires i / 64 < |words|
  {
    Bit(words[i / 64], i % 64)
  }

  /** Each level has one bit per word below, up to a single root word. */
  predicate Shaped(ms: Masks, size: nat) {
    && size > 0 && |ms| > 0
    && |ms[0]| == WordsFor(size) && |ms[|ms| - 1]| == 1
    && (forall l {:trigger ms[l]} :: 0 < l < |ms| ==> |ms[l]| == WordsFor(|ms[l - 1]|))
    && (forall l, w :: 0 <= l < |ms| && 0 <= w < |ms[l]| ==> ms[l][w] < U64)
  }

  /** Bit `i` of level `l + 1` says whether word `i` of level `l` is non-zero. */
  predicate Summarizes(ms: Masks, l: nat, i: nat)
    requires l + 1 < |ms| && i / 64 < |ms[l + 1]|
  {
    BitAt(ms[l + 1], i) <==> i < |ms[l]| && ms[l][i] != 0
  }

  predicate Summary(ms: Masks, size: nat)
    requires |ms| > 0
  {
    && (forall l, i :: 0 <= l < |ms| - 1 && 0 <= i < 64 * |ms[l + 1]| ==> Summarizes(ms, l, i))
    && (forall i :: size <= i < 64 * |ms[0]| ==> !BitAt(ms[0], i))
  }

  /** The plain set the bitmap stands for. */
  ghost function Elements(ms: Masks): set<nat>
    requires |ms| > 0
  {
    set i: nat | i < 64 * |ms[0]| && BitAt(ms[0], i)
  }

  lemma RootWord(ms: Masks, size: nat)
    requires Shaped(ms, size)
    ensures |ms| > 0 && |ms[|ms| - 1]| == 1
  {}

  lemma {:induction false} ShiftInRange(ms: Masks, size: nat, index: nat, l: nat)
    requires Shaped(ms, size) && index < size && l < |ms|
    ensures Shift(index, l) < 64 * |ms[l]|
    ensures Shift(index, l + 1) == Shift(index, l) / 64 < |ms[l]|
  {
    if l > 0 { ShiftInRange(ms, size, index, l - 1); }
  }

  // ---------------------------------------------------------------- set

  /** `__set_bit64`. */
  function SetIn(words: seq<nat>, i: nat): (r: seq<nat>)
    requires i / 64 < |words|
    ensures |r| == |words|
  {
    words[i / 64 := Or(words[i / 64], Pow2(i % 64))]
  }

  function SetSpec(ms: Masks, size: nat, index: nat): (r: Masks)
    requires Shaped(ms, size) && index < size
    ensures |r| == |ms|
    ensures forall l :: 0 <= l < |ms| ==> |r[l]| == |ms[l]|
  {
    seq(|ms|, l requires 0 <= l < |ms| => ShiftInRange(ms, size, index, l); SetIn(ms[l], Shift(index, l)))
  }

  lemma SetInBits(words: seq<nat>, i: nat, j: nat)
    requires i / 64 < |words| && j / 64 < |words|
    ensures BitAt(SetIn(words, i), j) <==> BitAt(words, j) || i == j
    ensures SetIn(words, i)[i / 64] != 0
  {
    hide Bit, Or, Pow2;
    SetBit(words[i / 64], i % 64, j % 64);
    Pow2IsPositive(i % 64);
  }

  lemma Pow2IsPositive(k: nat)
    ensures Pow2(k) > 0
  {}

  lemma SetInFits(words: seq<nat>, i: nat, w: nat)
    requires i / 64 < |words| && w < |words| && words[w] < U64
    ensures SetIn(words, i)[w] < U64
  {
    hide Or, Pow2;
    Pow2Width();
    if w == i / 64 { SetBitFits(words[w], i % 64, 64); }
  }

  /** Setting a bit keeps the shape and the summaries and adds exactly that element. */
  lemma SetCorrect(ms: Masks, size: nat, index: nat)
    requires Shaped(ms, size) && Summary(ms, size) && index < size
    ensures Shaped(SetSpec(ms, size, index), size) && Summary(SetSpec(ms, size, index), size)
    ensures Elements(SetSpec(ms, size, index)) == Elements(ms) + {index}
  {
    hide BitAt, SetIn, Shift;
    var ms' := SetSpec(ms, size, index);
    ShiftInRange(ms, size, index, 0);
    assert Shift(index, 0) == index by { ShiftZero(index); }
    forall l, w | 0 <= l < |ms'| && 0 <= w < |ms'[l]| ensures ms'[l][w] < U64 {
      ShiftInRange(ms, size, index, l);
      SetInFits(ms[l], Shift(index, l), w);
    }
    forall l, i | 0 <= l < |ms'| - 1 && 0 <= i < 64 * |ms'[l + 1]| ensures Summarizes(ms', l, i) {
      assert Summarizes(ms, l, i);
      ShiftInRange(ms, size, index, l);
      ShiftInRange(ms, size, index, l + 1);
      SetInBits(ms[l + 1], Shift(index, l + 1), i);
      SetInBits(ms[l], Shift(index, l), 0);
      SetInOther(ms[l], Shift(index, l), i);
    }
    forall i | 0 <= i < 64 * |ms'[0]| ensures BitAt(ms'[0], i) <==> BitAt(ms[0], i) || i == index {
      SetInBits(ms[0], index, i);
    }
  }

  lemma ShiftZero(index: nat)
    ensures Shift(index, 0) == index
  {}

  lemma SetInOther(words: seq<nat>, i: nat, w: nat)
    requires i / 64 < |words|
    ensures w < |words| && w != i / 64 ==> SetIn(words, i)[w] == words[w]
  {}

  // ---------------------------------------------------------------- clear

  /** `__clear_bit64`. */
  function ClearIn(words: seq<nat>, i: nat): (r: seq<nat>)
    requires i / 64 < |words|
    ensures |r| == |words|
  {
    words[i / 64 := AndNot(words[i / 64], Pow2(i % 64))]
  }

  /** Level `l` after clearing: its bit goes when the word below has become zero. */
  function ClearLevel(ms: Masks, size: nat, index: nat, l: nat): (r: seq<nat>)
    requires Shaped(ms, size) && index < size && l < |ms|
    ensures |r| == |ms[l]|
  {
    ShiftInRange(ms, size, index, l);
    if l == 0 then ClearIn(ms[0], index)
    else
      ShiftInRange(ms, size, index, l - 1);
      if ClearLevel(ms, size, index, l - 1)[Shift(index, l)] == 0 then ClearIn(ms[l], Shift(index, l)) else ms[l]
  }

  function ClearSpec(ms: Masks, size: nat, index: nat): (r: Masks)
    requires Shaped(ms, size) && index < size
    ensures |r| == |ms|
    ensures forall l :: 0 <= l < |ms| ==> |r[l]| == |ms[l]|
  {
    seq(|ms|, l requires 0 <= l < |ms| => ClearLevel(ms, size, index, l))
  }

  lemma ClearInBits(words: seq<nat>, i: nat, j: nat)
    requires i / 64 < |words| && j / 64 < |words|
    ensures BitAt(ClearIn(words, i), j) <==> BitAt(words, j) && i != j
  {
    hide Bit, AndNot, Pow2;
    ClearBit(words[i / 64], i % 64, j % 64);
  }

  lemma ClearInOther(words: seq<nat>, i: nat, w: nat)
    requires i / 64 < |words| && w < |words|
    ensures ClearIn(words, i)[w] <= words[w]
    ensures w != i / 64 ==> ClearIn(words, i)[w] == words[w]
  {
    hide And, Pow2;
  }

  /** What clearing does to one level: its bit is cleared or the level stays. */
  lemma ClearLevelStep(ms: Masks, size: nat, index: nat, l: nat)
    requires Shaped(ms, size) && index < size && l < |ms|
    ensures Shift(index, l) / 64 < |ms[l]|
    ensures l == 0 ==> ClearLevel(ms, size, index, l) == ClearIn(ms[0], index)
    ensures l > 0 ==> Shift(index, l) < |ms[l - 1]|
    ensures l > 0 ==>
              var gone := ClearLevel(ms, size, index, l - 1)[Shift(index, l)] == 0;
              ClearLevel(ms, size, index, l) == if gone then ClearIn(ms[l], Shift(index, l)) else ms[l]
  {
    hide ClearIn, Shaped;
    ShiftInRange(ms, size, index, l);
    if l > 0 { ShiftInRange(ms, size, index, l - 1); }
  }

  /** ... and what that means for its words. */
  lemma ClearLevelCases(ms: Masks, size: nat, index: nat, l: nat)
    requires Shaped(ms, size) && index < size && l < |ms|
    ensures Shift(index, l) / 64 < |ms[l]|
    ensures l == 0 ==> ClearLevel(ms, size, index, l) == ClearIn(ms[0], index)
    ensures l > 0 ==> Shift(index, l) < |ms[l - 1]|
    ensures l > 0 ==>
              var gone := ClearLevel(ms, size, index, l - 1)[Shift(index, l)] == 0;
              ClearLevel(ms, size, index, l) == if gone then ClearIn(ms[l], Shift(index, l)) else ms[l]
    ensures forall w :: 0 <= w < |ms[l]| ==> ClearLevel(ms, size, index, l)[w] <= ms[l][w]
    ensures forall w :: 0 <= w < |ms[l]| && w != Shift(index, l + 1) ==> ClearLevel(ms, size, index, l)[w] == ms[l][w]
  {
    hide ClearIn, Shaped;
    ClearLevelStep(ms, size, index, l);
    ShiftInRange(ms, size, index, l);
    if l == 0 { ShiftZero(index); }
    forall w | 0 <= w < |ms[l]|
      ensures ClearIn(ms[l], Shift(index, l))[w] <= ms[l][w]
      ensures w != Shift(index, l + 1) ==> ClearIn(ms[l], Shift(index, l))[w] == ms[l][w]
    {
      ClearInOther(ms[l], Shift(index, l), w);
    }
  }

  lemma ClearShaped(ms: Masks, size: nat, index: nat)
    requires Shaped(ms, size) && index < size
    ensures Shaped(ClearSpec(ms, size, index), size)
  {
    hide BitAt, ClearIn, Shift, ClearLevel;
    var ms' := ClearSpec(ms, size, index);
    forall l, w | 0 <= l < |ms'| && 0 <= w < |ms'[l]| ensures ms'[l][w] < U64 {
      ClearLevelCases(ms, size, index, l);
    }
  }

  /** A summary bit goes exactly when the word below it has become zero. */
  lemma ClearSummarizes(ms: Masks, size: nat, index: nat, l: nat, i: nat)
    requires Shaped(ms, size) && index < size && l + 1 < |ms| && i < 64 * |ms[l + 1]| && Summarizes(ms, l, i)
    ensures Summarizes(ClearSpec(ms, size, index), l, i)
  {
    hide BitAt, ClearIn, Shift, ClearLevel, Shaped;
    ClearLevelCases(ms, size, index, l);
    ClearLevelStep(ms, size, index, l + 1);
    ClearInBits(ms[l + 1], Shift(index, l + 1), i);
  }

  /** Clearing a bit keeps the shape and the summaries and removes exactly that element. */
  lemma ClearCorrect(ms: Masks, size: nat, index: nat)
    requires Shaped(ms, size) && Summary(ms, size) && index < size
    ensures Shaped(ClearSpec(ms, size, index), size) && Summary(ClearSpec(ms, size, index), size)
    ensures Elements(ClearSpec(ms, size, index)) == Elements(ms) - {index}
  {
    hide BitAt, ClearIn, Shift, ClearLevel, Summarizes, Shaped;
    var ms' := ClearSpec(ms, size, index);
    RootWord(ms, size);
    ClearShaped(ms, size, index);
    forall l, i | 0 <= l < |ms'| - 1 && 0 <= i < 64 * |ms'[l + 1]| ensures Summarizes(ms', l, i) {
      assert Summarizes(ms, l, i);
      ClearSummarizes(ms, size, index, l, i);
    }
    ClearLevelStep(ms, size, index, 0);
    ShiftZero(index);
    forall i | 0 <= i < 64 * |ms'[0]| ensures BitAt(ms'[0], i) <==> BitAt(ms[0], i) && i != index {
      ClearInBits(ms[0], index, i);
    }
  }
}

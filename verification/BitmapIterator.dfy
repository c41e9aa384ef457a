/**
 * The bitmap iterator as values (util/iterable_bitmap.h): at every level it
 * keeps the unvisited rest of one word and the base of that word.
 */
module BitmapIterator {
  import opened Bits
  import opened WordBits
  import opened BitmapSpec

  datatype Iter = Iter(idx: seq<nat>, mask: seq<nat>)

  predicate ShapedIter(ms: Masks, it: Iter) {
    |it.idx| == |it.mask| == |ms| > 0
  }

  /** `!=` against the end: something is left at the root. */
  predicate Ended(it: Iter)
    requires |it.mask| > 0
  {
    it.mask[|it.mask| - 1] == 0
  }

  function WordAt(words: seq<nat>, i: nat): nat {
    if i < |words| then words[i] else 0
  }

  function LowBit(w: nat): nat {
    if w > 0 then Ctz(w) else 0
  }

  /** `w & (w - 1)`. */
  function DropLow(w: nat): nat {
    if w > 0 then And(w, w - 1) else 0
  }

  /** Position that level `l` points at: base from the level above plus the lowest bit left. */
  function Position(ms: Masks, it: Iter, l: nat): nat
    requires ShapedIter(ms, it) && l < |ms|
  {
    LowBit(it.mask[l]) + if l + 1 < |ms| then it.idx[l + 1] else 0
  }

  /** Load the word that level `l + 1` points at into level `l`. */
  function Descend(ms: Masks, it: Iter, l: nat): (r: Iter)
    requires ShapedIter(ms, it) && l + 1 < |ms|
    ensures ShapedIter(ms, r)
  {
    var at := Position(ms, it, l + 1);
    Iter(it.idx[l + 1 := 64 * at], it.mask[l := WordAt(ms[l], at)])
  }

  /** `operator++` from level `l` upwards. */
  function Advance(ms: Masks, it: Iter, l: nat): (r: Iter)
    requires ShapedIter(ms, it) && l < |ms|
    ensures ShapedIter(ms, r)
    decreases |ms| - l
  {
    var it1 := it.(mask := it.mask[l := DropLow(it.mask[l])]);
    if it1.mask[l] != 0 || l + 1 == |ms| then it1
    else
      var up := Advance(ms, it1, l + 1);
      if Ended(up) then up else Descend(ms, up, l)
  }

  function Next(ms: Masks, it: Iter): (r: Iter)
    requires ShapedIter(ms, it)
    ensures ShapedIter(ms, r)
  {
    var it' := Advance(ms, it, 0);
    if Ended(it') then it' else it'.(idx := it'.idx[0 := Position(ms, it', 0)])
  }

  // ---------------------------------------------------------------- where an iterator stands

  /** The bits of `word` from `k` on. */
  ghost predicate Tail(mask: nat, word: nat, k: nat) {
    mask < U64 && forall j: nat :: Bit(mask, j) <==> j >= k && Bit(word, j)
  }

  /** Levels `l` and up stand at element `p` of level `l`. */
  ghost predicate At(ms: Masks, it: Iter, l: nat, p: nat)
    requires ShapedIter(ms, it) && l < |ms|
    decreases |ms| - l
  {
    && p / 64 < |ms[l]| && BitAt(ms[l], p) && Tail(it.mask[l], ms[l][p / 64], p % 64)
    && (l + 1 < |ms| ==> it.idx[l + 1] == 64 * (p / 64) && At(ms, it, l + 1, p / 64))
  }

  lemma {:induction false} AtFrame(ms: Masks, it: Iter, it': Iter, l: nat, p: nat)
    requires ShapedIter(ms, it) && ShapedIter(ms, it') && l < |ms| && At(ms, it, l, p)
    requires forall k :: l <= k < |ms| ==> it'.mask[k] == it.mask[k]
    requires forall k :: l < k < |ms| ==> it'.idx[k] == it.idx[k]
    ensures At(ms, it', l, p)
    decreases |ms| - l
  {
    hide BitAt, Tail;
    if l + 1 < |ms| { AtFrame(ms, it, it', l + 1, p / 64); }
  }

  lemma TailLowest(mask: nat, word: nat, k: nat)
    requires Tail(mask, word, k) && Bit(word, k)
    ensures mask > 0 && Ctz(mask) == k
  {
    hide Bit, Ctz;
    assert Bit(mask, k);
    if mask == 0 { ZeroBits(k); }
    CtzIsLowest(mask);
  }

  /** Dropping the lowest bit leaves the tail behind it. */
  lemma TailDrop(mask: nat, word: nat, k: nat)
    requires Tail(mask, word, k) && Bit(word, k)
    ensures Tail(DropLow(mask), word, k + 1)
  {
    hide Bit, Ctz, And;
    TailLowest(mask, word, k);
    forall j: nat ensures Bit(DropLow(mask), j) <==> j >= k + 1 && Bit(word, j) {
      ClearLowest(mask, j);
    }
  }

  /** A non-zero tail starts at its lowest bit. */
  lemma TailStart(mask: nat, word: nat, k: nat)
    requires Tail(mask, word, k) && mask > 0
    ensures k <= Ctz(mask) < 64 && Bit(word, Ctz(mask)) && Tail(mask, word, Ctz(mask))
    ensures forall j :: k <= j < Ctz(mask) ==> !Bit(word, j)
  {
    hide Bit, Ctz;
    Pow2Width();
    NonZeroHasBit(mask, 64);
    CtzIsLowest(mask);
    forall j: nat ensures Bit(mask, j) <==> j >= Ctz(mask) && Bit(word, j) {}
  }

  lemma TailEmpty(word: nat, k: nat, j: nat)
    requires Tail(0, word, k) && j >= k
    ensures !Bit(word, j)
  {
    hide Bit;
    ZeroBits(j);
  }

  lemma WholeWordTail(word: nat)
    requires word < U64
    ensures Tail(word, word, 0)
  {}

  // ---------------------------------------------------------------- moving on

  predicate NoneBetween(words: seq<nat>, p: int, q: int) {
    forall i :: p < i < q && 0 <= i < 64 * |words| ==> !BitAt(words, i)
  }

  /** Level `l` has more bits left in its word: the next one is the next element. */
  lemma SameWord(ms: Masks, it: Iter, it': Iter, l: nat, p: nat)
    requires ShapedIter(ms, it) && l < |ms| && At(ms, it, l, p)
    requires it' == it.(mask := it.mask[l := DropLow(it.mask[l])]) && it'.mask[l] != 0
    ensures var q := 64 * (p / 64) + Ctz(it'.mask[l]);
            p < q && At(ms, it', l, q) && NoneBetween(ms[l], p, q)
  {
    hide Bit, Ctz, DropLow, Tail;
    var word := ms[l][p / 64];
    TailDrop(it.mask[l], word, p % 64);
    TailStart(it'.mask[l], word, p % 64 + 1);
    var q := 64 * (p / 64) + Ctz(it'.mask[l]);
    assert q / 64 == p / 64 && q % 64 == Ctz(it'.mask[l]);
    if l + 1 < |ms| { AtFrame(ms, it, it', l + 1, p / 64); }
  }

  /** The word that the level above points at is not empty. */
  lemma PointsAtWord(ms: Masks, size: nat, it: Iter, l: nat, w: nat)
    requires Shaped(ms, size) && Summary(ms, size) && ShapedIter(ms, it) && l + 1 < |ms| && At(ms, it, l + 1, w)
    ensures Position(ms, it, l + 1) == w < |ms[l]| && 0 < ms[l][w] < U64
  {
    hide Bit, Ctz, Tail;
    TailLowest(it.mask[l + 1], ms[l + 1][w / 64], w % 64);
    if l + 2 == |ms| { assert w / 64 == 0; }
    assert Summarizes(ms, l, w);
  }

  /** Loading the word found above puts level `l` at its first element. */
  lemma DescendTo(ms: Masks, size: nat, it: Iter, l: nat, w: nat)
    requires Shaped(ms, size) && Summary(ms, size) && ShapedIter(ms, it) && l + 1 < |ms| && At(ms, it, l + 1, w)
    ensures Position(ms, it, l + 1) == w < |ms[l]| && ms[l][w] > 0
    ensures At(ms, Descend(ms, it, l), l, 64 * w + Ctz(ms[l][w]))
    ensures NoneBetween(ms[l], 64 * w - 1, 64 * w + Ctz(ms[l][w]))
  {
    hide Bit, Ctz, Tail, Shaped, Summary, LowBit;
    PointsAtWord(ms, size, it, l, w);
    WholeWordTail(ms[l][w]);
    TailStart(ms[l][w], ms[l][w], 0);
    var q := 64 * w + Ctz(ms[l][w]);
    assert q / 64 == w && q % 64 == Ctz(ms[l][w]);
    AtFrame(ms, it, Descend(ms, it, l), l + 1, w);
  }

  /** An empty rest of the word, and nothing in later words, leaves nothing in the level. */
  lemma NothingLater(ms: Masks, size: nat, l: nat, p: nat, w: nat)
    requires Shaped(ms, size) && Summary(ms, size) && l + 1 < |ms|
    requires p / 64 < |ms[l]| && p / 64 < w <= 64 * |ms[l + 1]|
    requires NoneBetween(ms[l], p, 64 * (p / 64) + 64) && NoneBetween(ms[l + 1], p / 64, w)
    ensures NoneBetween(ms[l], p, 64 * w)
  {
    hide Bit;
    forall i | p < i < 64 * w && 0 <= i < 64 * |ms[l]| ensures !BitAt(ms[l], i) {
      if i / 64 > p / 64 {
        assert |ms[l + 1]| == WordsFor(|ms[l]|);
        assert Summarizes(ms, l, i / 64);
        assert !BitAt(ms[l + 1], i / 64);
        ZeroBits(i % 64);
      }
    }
  }

  lemma RestEmpty(ms: Masks, it: Iter, l: nat, p: nat)
    requires ShapedIter(ms, it) && l < |ms| && At(ms, it, l, p) && DropLow(it.mask[l]) == 0
    ensures NoneBetween(ms[l], p, 64 * (p / 64) + 64)
  {
    hide Bit, Tail, DropLow;
    TailDrop(it.mask[l], ms[l][p / 64], p % 64);
    forall i | p < i < 64 * (p / 64) + 64 && 0 <= i < 64 * |ms[l]| ensures !BitAt(ms[l], i) {
      TailEmpty(ms[l][p / 64], p % 64 + 1, i % 64);
    }
  }

  /** `operator++` moves to the next element of the level, or ends when there is none. */
  lemma {:induction false} AdvanceCorrect(ms: Masks, size: nat, it: Iter, l: nat, p: nat) returns (q: nat)
    requires Shaped(ms, size) && Summary(ms, size) && ShapedIter(ms, it) && l < |ms| && At(ms, it, l, p)
    ensures var it' := Advance(ms, it, l);
            if Ended(it') then NoneBetween(ms[l], p, 64 * |ms[l]|)
            else p < q && At(ms, it', l, q) && NoneBetween(ms[l], p, q)
    decreases |ms| - l
  {
    hide Bit, Ctz, Tail, DropLow, BitAt, Descend, Summary, Position;
    var it1 := it.(mask := it.mask[l := DropLow(it.mask[l])]);
    if it1.mask[l] != 0 {
      q := 64 * (p / 64) + Ctz(it1.mask[l]);
      SameWord(ms, it, it1, l, p);
      AtNotEnded(ms, it1, l, q);
    } else {
      RestEmpty(ms, it, l, p);
      if l + 1 == |ms| {
        q := 0;
      } else {
        AtFrame(ms, it, it1, l + 1, p / 64);
        var up := Advance(ms, it1, l + 1);
        var w := AdvanceCorrect(ms, size, it1, l + 1, p / 64);
        if Ended(up) {
          q := 0;
          LevelCovered(ms, size, l);
          NothingLater(ms, size, l, p, 64 * |ms[l + 1]|);
        } else {
          DescendTo(ms, size, up, l, w);
          q := 64 * w + Ctz(ms[l][w]);
          AtNotEnded(ms, Descend(ms, up, l), l, q);
          LevelCovered(ms, size, l);
          NothingLater(ms, size, l, p, w);
          JoinNone(ms[l], p, 64 * w, q);
        }
      }
    }
  }

  lemma LevelCovered(ms: Masks, size: nat, l: nat)
    requires Shaped(ms, size) && l + 1 < |ms|
    ensures |ms[l]| <= 64 * |ms[l + 1]|
  {
    assert |ms[l + 1]| == WordsFor(|ms[l]|);
  }

  lemma JoinNone(words: seq<nat>, p: int, m: int, q: int)
    requires NoneBetween(words, p, m) && NoneBetween(words, m - 1, q)
    ensures NoneBetween(words, p, q)
  {
    hide BitAt;
  }

  lemma {:induction false} AtNotEnded(ms: Masks, it: Iter, l: nat, p: nat)
    requires ShapedIter(ms, it) && l < |ms| && At(ms, it, l, p)
    ensures !Ended(it)
    decreases |ms| - l
  {
    hide Bit, Tail;
    if l + 1 < |ms| {
      AtNotEnded(ms, it, l + 1, p / 64);
    } else {
      TailLowest(it.mask[l], ms[l][p / 64], p % 64);
    }
  }

  /** The iterator shows element `p`. */
  ghost predicate Shows(ms: Masks, it: Iter, p: nat)
    requires ShapedIter(ms, it)
  {
    At(ms, it, 0, p) && it.idx[0] == p
  }

  /** One increment: the next larger element, or the end when there is none. */
  lemma NextCorrect(ms: Masks, size: nat, it: Iter, p: nat) returns (q: nat)
    requires Shaped(ms, size) && Summary(ms, size) && ShapedIter(ms, it) && Shows(ms, it, p)
    ensures var it' := Next(ms, it);
            if Ended(it') then NoneBetween(ms[0], p, 64 * |ms[0]|)
            else p < q && Shows(ms, it', q) && NoneBetween(ms[0], p, q)
  {
    hide Bit, Ctz, Tail, BitAt, Advance, Summary;
    q := AdvanceCorrect(ms, size, it, 0, p);
    var it1 := Advance(ms, it, 0);
    if !Ended(it1) {
      var it2 := Next(ms, it);
      AtFrame(ms, it1, it2, 0, q);
      AtPosition(ms, it1, 0, q);
    }
  }

  lemma AtPosition(ms: Masks, it: Iter, l: nat, p: nat)
    requires ShapedIter(ms, it) && l < |ms| && At(ms, it, l, p) && |ms[|ms| - 1]| == 1
    ensures Position(ms, it, l) == p
  {
    hide Bit, Ctz, Tail;
    TailLowest(it.mask[l], ms[l][p / 64], p % 64);
  }

  // ---------------------------------------------------------------- begin

  /** Descend from level `l` to level 0. */
  function DescendAll(ms: Masks, it: Iter, l: nat): (r: Iter)
    requires ShapedIter(ms, it) && l < |ms|
    ensures ShapedIter(ms, r)
    decreases l
  {
    if l == 0 then it.(idx := it.idx[0 := Position(ms, it, 0)])
    else DescendAll(ms, Descend(ms, it, l - 1), l - 1)
  }

  /** `begin`: the root word, then down to the first element. */
  function Begin(ms: Masks): (r: Iter)
    requires |ms| > 0
    ensures ShapedIter(ms, r)
  {
    var it := AtRoot(ms);
    if it.mask[|ms| - 1] == 0 then it else DescendAll(ms, it, |ms| - 1)
  }

  /** A fresh iterator that holds the root word only. */
  function AtRoot(ms: Masks): (r: Iter)
    requires |ms| > 0
    ensures ShapedIter(ms, r) && r.mask[|ms| - 1] == WordAt(ms[|ms| - 1], 0)
  {
    Iter(seq(|ms|, _ => 0), seq(|ms| - 1, _ => 0) + [WordAt(ms[|ms| - 1], 0)])
  }

  lemma {:induction false} DescendAllCorrect(ms: Masks, size: nat, it: Iter, l: nat, p: nat) returns (q: nat)
    requires Shaped(ms, size) && Summary(ms, size) && ShapedIter(ms, it) && l < |ms| && At(ms, it, l, p)
    requires NoneBetween(ms[l], -1, p)
    ensures Shows(ms, DescendAll(ms, it, l), q) && NoneBetween(ms[0], -1, q)
    decreases l
  {
    hide Bit, Ctz, Tail, BitAt, Descend, Summary, Position, NoneBetween, Shaped;
    if l == 0 {
      q := p;
      RootWord(ms, size);
      AtPosition(ms, it, 0, p);
      AtFrame(ms, it, DescendAll(ms, it, 0), 0, p);
    } else {
      DescendTo(ms, size, it, l - 1, p);
      var p' := 64 * p + Ctz(ms[l - 1][p]);
      NothingBefore(ms, size, l - 1, p);
      JoinNone(ms[l - 1], -1, 64 * p, p');
      q := DescendAllCorrect(ms, size, Descend(ms, it, l - 1), l - 1, p');
    }
  }

  lemma NothingBefore(ms: Masks, size: nat, l: nat, w: nat)
    requires Shaped(ms, size) && Summary(ms, size) && l + 1 < |ms| && NoneBetween(ms[l + 1], -1, w)
    ensures NoneBetween(ms[l], -1, 64 * w)
  {
    hide Bit;
    forall i | -1 < i < 64 * w && 0 <= i < 64 * |ms[l]| ensures !BitAt(ms[l], i) {
      assert |ms[l + 1]| == WordsFor(|ms[l]|);
      assert Summarizes(ms, l, i / 64);
      assert !BitAt(ms[l + 1], i / 64);
      ZeroBits(i % 64);
    }
  }

  /** A zero root means an empty level 0. */
  lemma {:induction false} ZeroRootEmpty(ms: Masks, size: nat, l: nat)
    requires Shaped(ms, size) && Summary(ms, size) && l < |ms| && ms[|ms| - 1][0] == 0
    ensures NoneBetween(ms[l], -1, 64 * |ms[l]|)
    decreases |ms| - l
  {
    hide Bit;
    if l + 1 == |ms| {
      forall i | 0 <= i < 64 * |ms[l]| ensures !BitAt(ms[l], i) { ZeroBits(i % 64); }
    } else {
      ZeroRootEmpty(ms, size, l + 1);
      LevelCovered(ms, size, l);
      NothingBefore(ms, size, l, 64 * |ms[l + 1]|);
    }
  }

  /** `begin` shows the smallest element, or is the end of an empty bitmap. */
  lemma BeginCorrect(ms: Masks, size: nat) returns (q: nat)
    requires Shaped(ms, size) && Summary(ms, size)
    ensures if Ended(Begin(ms)) then NoneBetween(ms[0], -1, 64 * |ms[0]|)
            else Shows(ms, Begin(ms), q) && NoneBetween(ms[0], -1, q)
  {
    hide Bit, Ctz, Tail, Summary, DescendAll;
    var top := |ms| - 1;
    var root := ms[top][0];
    if root == 0 {
      q := 0;
      ZeroRootEmpty(ms, size, 0);
    } else {
      var it := AtRoot(ms);
      WholeWordTail(root);
      TailStart(root, root, 0);
      var p := Ctz(root);
      assert At(ms, it, top, p);
      q := DescendAllCorrect(ms, size, it, top, p);
      AtNotEnded(ms, Begin(ms), 0, q);
    }
  }
}

/**
 * Weighted centroids and the compression rule of the t-digest (util/tdigest.cc,
 * util/tdigest.h), over the reals.
 *
 * A merge is described in two steps that the code interleaves: two runs sorted
 * by mean are merged into one, and the result is compressed left to right into
 * centroids whose cumulative weight respects the scale function.
 */
module TDigestSpec {

  const MaxCentroids := 100
  const ValueBuffer := 500

  datatype Centroid = Centroid(mean: real, weight: real)

  function Prod(x: real, w: real): real {
    x * w
  }

  /** The sum a centroid stands for. */
  function Mass(c: Centroid): real {
    Prod(c.mean, c.weight)
  }

  /** `Centroid::add`: absorb a further sum and weight. */
  function Absorb(c: Centroid, sum: real, weight: real): Centroid
    requires c.weight > 0.0 && weight >= 0.0
  {
    Centroid((sum + Prod(c.mean, c.weight)) / (c.weight + weight), c.weight + weight)
  }

  function Scale(x: real): real {
    if x >= 0.5 then 1.0 - 2.0 * (1.0 - x) * (1.0 - x) else 2.0 * x * x
  }

  /** `k_to_q`: the quantile at which centroid number `k` of `d` must end. */
  function KToQ(k: real, d: real): real
    requires d > 0.0
  {
    Scale(k / d)
  }

  /** Cumulative weight at which centroid `j` must be closed, for `total` values. */
  function Limit(j: nat, total: real): real {
    KToQ((j + 1) as real, MaxCentroids as real) * total
  }

  function Weights(cs: seq<Centroid>): real {
    if cs == [] then 0.0 else Weights(cs[..|cs| - 1]) + cs[|cs| - 1].weight
  }

  function Masses(cs: seq<Centroid>): real {
    if cs == [] then 0.0 else Masses(cs[..|cs| - 1]) + Mass(cs[|cs| - 1])
  }

  predicate Positive(cs: seq<Centroid>) {
    forall i :: 0 <= i < |cs| ==> cs[i].weight > 0.0
  }

  predicate Sorted(cs: seq<Centroid>) {
    forall i, j :: 0 <= i < j < |cs| ==> cs[i].mean <= cs[j].mean
  }

  predicate AtLeast(cs: seq<Centroid>, lo: real) {
    forall i :: 0 <= i < |cs| ==> lo <= cs[i].mean
  }

  predicate AtMost(cs: seq<Centroid>, hi: real) {
    forall i :: 0 <= i < |cs| ==> cs[i].mean <= hi
  }

  // ---------------------------------------------------------------- sums

  lemma {:induction false} SumsCons(c: Centroid, cs: seq<Centroid>)
    ensures Weights([c] + cs) == c.weight + Weights(cs)
    ensures Masses([c] + cs) == Mass(c) + Masses(cs)
  {
    hide Mass, Weights, Masses;
    if cs == [] {
      SumsSnoc([], c);
      EmptySums();
      assert [c] + cs == [] + [c];
    } else {
      var init, last := cs[..|cs| - 1], cs[|cs| - 1];
      SumsCons(c, init);
      SumsSnoc(init, last);
      SumsSnoc([c] + init, last);
      assert cs == init + [last];
      assert [c] + cs == [c] + init + [last];
    }
  }

  lemma SumsSnoc(cs: seq<Centroid>, c: Centroid)
    ensures Weights(cs + [c]) == Weights(cs) + c.weight
    ensures Masses(cs + [c]) == Masses(cs) + Mass(c)
  {
    hide Mass;
    assert (cs + [c])[..|cs|] == cs;
  }

  // ---------------------------------------------------------------- merging two runs

  /** Smaller mean first; on equal means the right run goes first, as in the code. */
  function MergeRuns(l: seq<Centroid>, r: seq<Centroid>): (m: seq<Centroid>)
    ensures |m| == |l| + |r|
  {
    if l != [] && (r == [] || l[0].mean < r[0].mean) then [l[0]] + MergeRuns(l[1..], r)
    else if r != [] then [r[0]] + MergeRuns(l, r[1..])
    else []
  }

  lemma {:induction false} MergeRunsBounds(l: seq<Centroid>, r: seq<Centroid>, lo: real, hi: real)
    ensures AtLeast(l, lo) && AtLeast(r, lo) ==> AtLeast(MergeRuns(l, r), lo)
    ensures AtMost(l, hi) && AtMost(r, hi) ==> AtMost(MergeRuns(l, r), hi)
    ensures Positive(l) && Positive(r) ==> Positive(MergeRuns(l, r))
  {
    if l != [] && (r == [] || l[0].mean < r[0].mean) {
      MergeRunsBounds(l[1..], r, lo, hi);
    } else if r != [] {
      MergeRunsBounds(l, r[1..], lo, hi);
    }
  }

  /** Merging sorted runs gives a sorted run of the same total weight and sum. */
  lemma MergeRunsCorrect(l: seq<Centroid>, r: seq<Centroid>)
    requires Sorted(l) && Sorted(r)
    ensures Sorted(MergeRuns(l, r))
    ensures Weights(MergeRuns(l, r)) == Weights(l) + Weights(r)
    ensures Masses(MergeRuns(l, r)) == Masses(l) + Masses(r)
  {
    hide Weights, Masses, MergeRuns;
    MergeRunsSorted(l, r);
    MergeRunsSums(l, r);
  }

  lemma {:induction false} MergeRunsSorted(l: seq<Centroid>, r: seq<Centroid>)
    requires Sorted(l) && Sorted(r)
    ensures Sorted(MergeRuns(l, r))
  {
    if l != [] && (r == [] || l[0].mean < r[0].mean) {
      MergeRunsSorted(l[1..], r);
      MergeRunsBounds(l[1..], r, l[0].mean, 0.0);
    } else if r != [] {
      MergeRunsSorted(l, r[1..]);
      MergeRunsBounds(l, r[1..], r[0].mean, 0.0);
    }
  }

  lemma {:induction false} MergeRunsSums(l: seq<Centroid>, r: seq<Centroid>)
    ensures Weights(MergeRuns(l, r)) == Weights(l) + Weights(r)
    ensures Masses(MergeRuns(l, r)) == Masses(l) + Masses(r)
  {
    hide Mass, Weights, Masses;
    if l != [] && (r == [] || l[0].mean < r[0].mean) {
      MergeRunsSums(l[1..], r);
      SumsCons(l[0], MergeRuns(l[1..], r));
      SumsCons(l[0], l[1..]);
      assert l == [l[0]] + l[1..];
    } else if r != [] {
      MergeRunsSums(l, r[1..]);
      SumsCons(r[0], MergeRuns(l, r[1..]));
      SumsCons(r[0], r[1..]);
      assert r == [r[0]] + r[1..];
    } else {
      EmptySums();
    }
  }

  /** The items with mean `m`, in order. */
  function WithMean(cs: seq<Centroid>, m: real): seq<Centroid> {
    if cs == [] then [] else (if cs[0].mean == m then [cs[0]] else []) + WithMean(cs[1..], m)
  }

  lemma {:induction false} NoneWithMean(cs: seq<Centroid>, m: real)
    requires forall i :: 0 <= i < |cs| ==> cs[i].mean != m
    ensures WithMean(cs, m) == []
  {
    if cs != [] { NoneWithMean(cs[1..], m); }
  }

  /** Nothing is lost or invented, and among equal means the right run comes first, in its order. */
  lemma {:induction false} MergeRunsTies(l: seq<Centroid>, r: seq<Centroid>, m: real)
    requires Sorted(l) && Sorted(r)
    ensures WithMean(MergeRuns(l, r), m) == WithMean(r, m) + WithMean(l, m)
  {
    if l != [] && (r == [] || l[0].mean < r[0].mean) {
      MergeRunsTies(l[1..], r, m);
      if l[0].mean == m { NoneWithMean(r, m); }
    } else if r != [] {
      MergeRunsTies(l, r[1..], m);
    }
  }

  lemma EmptySums()
    ensures Weights([]) == 0.0 && Masses([]) == 0.0
  {}

  // ---------------------------------------------------------------- compression

  /**
   * The state of the compression loop: centroids already closed, the open one
   * and what waits to be absorbed by it, the weight seen so far, and where in
   * the input each group starts.
   */
  datatype Comp = Comp(closed: seq<Centroid>, curr: Centroid, sum: real, weight: real, soFar: real, cuts: seq<nat>,
      taken: nat)

  function Begin(first: Centroid): Comp {
    Comp([], first, 0.0, 0.0, first.weight, [0], 1)
  }

  function Step(s: Comp, x: Centroid, total: real): Comp
    requires s.curr.weight > 0.0 && s.weight >= 0.0
  {
    var soFar := s.soFar + x.weight;
    if soFar <= Limit(|s.closed|, total) then
      s.(sum := s.sum + Mass(x), weight := s.weight + x.weight, soFar := soFar, taken := s.taken + 1)
    else
      Comp(s.closed + [Absorb(s.curr, s.sum, s.weight)], x, 0.0, 0.0, soFar, s.cuts + [s.taken], s.taken + 1)
  }

  function CompRun(items: seq<Centroid>, total: real): (s: Comp)
    requires items != [] && Positive(items)
    ensures s.curr.weight > 0.0 && s.weight >= 0.0
  {
    var n := |items| - 1;
    if n == 0 then Begin(items[0]) else Step(CompRun(items[..n], total), items[n], total)
  }

  function Finish(s: Comp): seq<Centroid>
    requires s.curr.weight > 0.0 && s.weight >= 0.0
  {
    s.closed + [Absorb(s.curr, s.sum, s.weight)]
  }

  function Compress(items: seq<Centroid>, total: real): seq<Centroid>
    requires items != [] && Positive(items)
  {
    Finish(CompRun(items, total))
  }

  // ---------------------------------------------------------------- absorbing

  lemma AbsorbMass(c: Centroid, sum: real, weight: real)
    requires c.weight > 0.0 && weight >= 0.0
    ensures Mass(Absorb(c, sum, weight)) == Mass(c) + sum
    ensures weight == 0.0 && sum == 0.0 ==> Absorb(c, sum, weight) == c
  {
    hide Prod;
    DivMul(sum + Prod(c.mean, c.weight), c.weight + weight);
    if weight == 0.0 && sum == 0.0 { MulDiv(c.mean, c.weight); }
  }

  lemma DivMul(x: real, y: real)
    requires y != 0.0
    ensures Prod(x / y, y) == x
  {}

  lemma MulDiv(x: real, y: real)
    requires y != 0.0
    ensures Prod(x, y) / y == x
  {}

  lemma ProdZero(x: real)
    ensures Prod(x, 0.0) == 0.0
  {}

  lemma MulMono(x: real, y: real, w: real)
    requires x <= y && w >= 0.0
    ensures Prod(x, w) <= Prod(y, w)
  {}

  lemma DivBounds(x: real, w: real, lo: real, hi: real)
    requires w > 0.0 && Prod(lo, w) <= x <= Prod(hi, w)
    ensures lo <= x / w <= hi
  {}

  /** The mean after absorbing stays between the means absorbed. */
  lemma AbsorbBounds(c: Centroid, sum: real, weight: real, hi: real)
    requires c.weight > 0.0 && weight >= 0.0 && c.mean <= hi
    requires Prod(c.mean, weight) <= sum <= Prod(hi, weight)
    ensures c.mean <= Absorb(c, sum, weight).mean <= hi
  {
    hide Prod;
    MulMono(c.mean, hi, c.weight);
    Distribute(c.mean, c.weight, weight);
    Distribute(hi, c.weight, weight);
    DivBounds(sum + Prod(c.mean, c.weight), c.weight + weight, c.mean, hi);
  }

  lemma Distribute(x: real, v: real, w: real)
    ensures Prod(x, v + w) == Prod(x, v) + Prod(x, w)
  {}

  // ---------------------------------------------------------------- what compression keeps

  /** At every cut the closed centroids carry exactly the weight and the sum of the items before it. */
  predicate SameSums(s: Comp, items: seq<Centroid>, j: nat)
    requires |s.cuts| == |s.closed| + 1 && j <= |s.closed| && s.cuts[j] <= |items|
  {
    && Weights(s.closed[..j]) == Weights(items[..s.cuts[j]])
    && Masses(s.closed[..j]) == Masses(items[..s.cuts[j]])
  }

  predicate Conserves(s: Comp, items: seq<Centroid>) {
    && |s.cuts| == |s.closed| + 1 && s.cuts[0] == 0 && s.taken == |items|
    && (forall j :: 0 <= j <= |s.closed| ==> s.cuts[j] < |items|)
    && (forall j :: 0 <= j < |s.closed| ==> s.cuts[j] < s.cuts[j + 1])
    && (forall j :: 0 <= j <= |s.closed| ==> SameSums(s, items, j))
    && Positive(s.closed)
    && s.curr == items[s.cuts[|s.closed|]] && s.curr.weight > 0.0 && s.weight >= 0.0
    && Weights(items) == Weights(s.closed) + s.curr.weight + s.weight == s.soFar
    && Masses(items) == Masses(s.closed) + Mass(s.curr) + s.sum
  }

  /** Centroid `j` is one input item, or ends within its limit. */
  predicate Small(s: Comp, items: seq<Centroid>, total: real, j: nat)
    requires |s.cuts| == |s.closed| + 1 && j < |s.closed|
  {
    || (s.cuts[j] < |items| && s.closed[j] == items[s.cuts[j]] && s.cuts[j + 1] == s.cuts[j] + 1)
    || Weights(s.closed[..j + 1]) <= Limit(j, total)
  }

  predicate Limited(s: Comp, items: seq<Centroid>, total: real) {
    && |s.cuts| == |s.closed| + 1 <= MaxCentroids
    && (forall j :: 0 <= j < |s.closed| ==> Small(s, items, total, j))
    && (s.weight == 0.0 ==> s.sum == 0.0 && s.taken == s.cuts[|s.closed|] + 1)
    && (s.weight != 0.0 ==> s.soFar <= Limit(|s.closed|, total))
  }

  /** Closed means are sorted and the open centroid lies between them and the last item. */
  predicate InOrder(s: Comp, items: seq<Centroid>) {
    && items != [] && s.weight >= 0.0
    && Sorted(s.closed) && AtLeast(s.closed, items[0].mean) && AtMost(s.closed, s.curr.mean)
    && var last := items[|items| - 1].mean;
       items[0].mean <= s.curr.mean <= last && Prod(s.curr.mean, s.weight) <= s.sum <= Prod(last, s.weight)
  }

  /** The scale function runs from 0 to 1, is increasing, and treats both tails alike. */
  lemma KToQShape(j: real, k: real, d: real)
    requires 0.0 <= j < k <= d
    ensures KToQ(0.0, d) == 0.0 && KToQ(d, d) == 1.0
    ensures KToQ(j, d) < KToQ(k, d)
    ensures KToQ(d - k, d) == 1.0 - KToQ(k, d)
  {
    hide Scale;
    DivFacts(j, k, d);
    ScaleShape(j / d, k / d);
  }

  /** In its lower half the scale function is quadratic, and it reaches one half in the middle. */
  lemma KToQQuadratic(k: real, d: real)
    requires d > 0.0 && 0.0 <= 2.0 * k <= d
    ensures KToQ(d / 2.0, d) == 0.5
    ensures Prod(KToQ(k, d), Prod(d, d)) == 2.0 * Prod(k, k)
    ensures 4.0 * k <= d ==> KToQ(2.0 * k, d) == 4.0 * KToQ(k, d)
  {
    hide Scale;
    var x := k / d;
    DivMul(k, d);
    assert Prod(x, d) == k;
    HalfRatio(x, d);
    ScaleLower(x);
    SquareRatio(x, d);
    assert (d / 2.0) / d == 0.5;
    ScaleLower(0.5);
    if 4.0 * k <= d {
      assert (2.0 * k) / d == 2.0 * x;
      HalfRatio(2.0 * x, d);
      ScaleLower(2.0 * x);
    }
  }

  lemma HalfRatio(x: real, d: real)
    requires d > 0.0 && 0.0 <= 2.0 * Prod(x, d) <= d
    ensures 0.0 <= x <= 0.5
  {}

  lemma ScaleLower(x: real)
    requires 0.0 <= x <= 0.5
    ensures Scale(x) == 2.0 * Prod(x, x)
  {
    assert Prod(0.5, 0.5) == 0.25;
  }

  lemma SquareRatio(x: real, d: real)
    ensures Prod(2.0 * Prod(x, x), Prod(d, d)) == 2.0 * Prod(Prod(x, d), Prod(x, d))
  {}

  lemma DivFacts(j: real, k: real, d: real)
    requires 0.0 <= j < k <= d
    ensures 0.0 <= j / d < k / d <= 1.0
    ensures 0.0 / d == 0.0 && d / d == 1.0 && (d - k) / d == 1.0 - k / d
  {
    DivMul(j, d);
    DivMul(k, d);
    DivMul(d - k, d);
    DivOrder(j / d, k / d, d);
    assert Prod(1.0 - k / d, d) == d - Prod(k / d, d);
    DivUnique((d - k) / d, 1.0 - k / d, d);
  }

  lemma DivOrder(x: real, y: real, d: real)
    requires d > 0.0 && 0.0 <= Prod(x, d) < Prod(y, d) <= d
    ensures 0.0 <= x < y <= 1.0
  {}

  lemma DivUnique(x: real, y: real, d: real)
    requires d > 0.0 && Prod(x, d) == Prod(y, d)
    ensures x == y
  {}

  lemma ScaleShape(x: real, y: real)
    requires 0.0 <= x < y <= 1.0
    ensures Scale(0.0) == 0.0 && Scale(1.0) == 1.0
    ensures Scale(x) < Scale(y)
    ensures Scale(1.0 - y) == 1.0 - Scale(y)
  {
    assert Prod(0.5, 0.5) == 0.25 && Scale(0.0) == 0.0 && Scale(1.0) == 1.0;
    hide Scale, Prod;
    ScaleValue(x);
    ScaleValue(y);
    ScaleValue(1.0 - y);
    SquareOrder(x, y);
    SquareOrder(1.0 - y, 1.0 - x);
    if x < 0.5 { SquareOrder(x, 0.5); }
    if y > 0.5 { SquareOrder(1.0 - y, 0.5); }
  }

  lemma ScaleValue(x: real)
    ensures Scale(x) == if x >= 0.5 then 1.0 - 2.0 * Prod(1.0 - x, 1.0 - x) else 2.0 * Prod(x, x)
  {}

  lemma PosProd(u: real, v: real)
    requires u > 0.0 && v > 0.0
    ensures u * v > 0.0
  {}

  lemma SquareOrder(x: real, y: real)
    requires 0.0 <= x < y
    ensures Prod(x, x) < Prod(y, y)
  {
    var u, v := y - x, y + x;
    assert u * v > 0.0 by { PosProd(u, v); }
    assert Prod(y, y) - Prod(x, x) == u * v;
  }

  lemma LimitReachesTotal(total: real)
    ensures Limit(99, total) == total
  {
    assert 100 as real / MaxCentroids as real == 1.0;
  }

  function Square(n: nat): real {
    Prod(n as real, n as real)
  }

  /** The limits in numbers: squares of a hundredth, mirrored in the upper half. */
  lemma LimitIs(j: nat, total: real)
    requires j < 100
    ensures j < 50 ==> Limit(j, total) == Square(j + 1) / 5000.0 * total
    ensures j >= 49 ==> Limit(j, total) == (1.0 - Square(99 - j) / 5000.0) * total
  {
    if j < 50 { LowerLimit(j, total); }
    if j >= 49 { UpperLimit(j, total); }
  }

  lemma LowerLimit(j: nat, total: real)
    requires j < 50
    ensures Limit(j, total) == Square(j + 1) / 5000.0 * total
  {
    hide KToQ, Square;
    QuantileIs(j + 1);
  }

  lemma UpperLimit(j: nat, total: real)
    requires 49 <= j < 100
    ensures Limit(j, total) == (1.0 - Square(99 - j) / 5000.0) * total
  {
    hide KToQ, Square;
    UpperQuantileIs(99 - j);
    assert (100 - (99 - j)) as real == (j + 1) as real;
  }

  lemma UpperQuantileIs(n: nat)
    requires n <= 50
    ensures KToQ((100 - n) as real, MaxCentroids as real) == 1.0 - Square(n) / 5000.0
  {
    hide KToQ;
    QuantileIs(n);
    KToQMirror(n as real);
    assert 100.0 - n as real == (100 - n) as real;
  }

  lemma QuantileIs(n: nat)
    requires n <= 50
    ensures KToQ(n as real, MaxCentroids as real) == Square(n) / 5000.0
  {
    hide KToQ;
    KToQQuadratic(n as real, 100.0);
    assert Prod(100.0, 100.0) == 10000.0;
  }

  lemma KToQMirror(k: real)
    requires 0.0 <= k <= 100.0
    ensures KToQ(100.0 - k, 100.0) == 1.0 - KToQ(k, 100.0)
  {
    hide KToQ;
    KToQShape(0.0, 100.0, 100.0);
    if k > 0.0 { KToQShape(0.0, k, 100.0); }
  }

  lemma {:induction false} CompConserves(items: seq<Centroid>, total: real)
    requires items != [] && Positive(items)
    ensures Conserves(CompRun(items, total), items)
  {
    hide Mass, Limit, Absorb, Conserves, Step, Begin;
    var n := |items| - 1;
    if n == 0 {
      assert items == [items[0]];
      ConserveFirst(items[0]);
    } else {
      var init, x := items[..n], items[n];
      CompConserves(init, total);
      ConserveStep(CompRun(init, total), init, x, total);
      assert items == init + [x];
    }
  }

  lemma ConserveFirst(x: Centroid)
    requires x.weight > 0.0
    ensures Conserves(Begin(x), [x])
  {
    hide Mass, Limit, Absorb, Weights, Masses;
    assert [x] == [] + [x];
    SumsSnoc([], x);
    EmptySums();
  }

  lemma ConserveStep(s: Comp, items: seq<Centroid>, x: Centroid, total: real)
    requires Conserves(s, items) && x.weight > 0.0
    ensures Conserves(Step(s, x, total), items + [x])
  {
    hide Mass, Limit, Weights, Masses, Absorb;
    var s', items' := Step(s, x, total), items + [x];
    SumsSnoc(items, x);
    forall j | 0 <= j <= |s.closed| ensures SameSums(s', items', j) {
      assert SameSums(s, items, j);
      assert items'[..s.cuts[j]] == items[..s.cuts[j]];
      assert s'.closed[..j] == s.closed[..j];
    }
    if s'.closed != s.closed {
      var a := Absorb(s.curr, s.sum, s.weight);
      AbsorbMass(s.curr, s.sum, s.weight);
      AbsorbWeight(s.curr, s.sum, s.weight);
      SumsSnoc(s.closed, a);
      assert s'.closed[..|s'.closed|] == s'.closed && items'[..|items|] == items;
      assert SameSums(s', items', |s'.closed|);
    }
  }

  lemma AbsorbWeight(c: Centroid, sum: real, weight: real)
    requires c.weight > 0.0 && weight >= 0.0
    ensures Absorb(c, sum, weight).weight == c.weight + weight
  {}

  lemma {:induction false} CompLimited(items: seq<Centroid>, total: real)
    requires items != [] && Positive(items) && Weights(items) <= total
    ensures Limited(CompRun(items, total), items, total)
  {
    hide Mass, Limit, Absorb, Weights;
    var n := |items| - 1;
    if n > 0 {
      var init, x := items[..n], items[n];
      assert items == init + [x];
      SumsSnoc(init, x);
      CompLimited(init, total);
      CompConserves(init, total);
      LimitStep(CompRun(init, total), init, x, total);
    }
  }

  lemma LimitStep(s: Comp, items: seq<Centroid>, x: Centroid, total: real)
    requires Conserves(s, items) && Limited(s, items, total) && x.weight > 0.0
    requires Weights(items) + x.weight <= total
    ensures Limited(Step(s, x, total), items + [x], total)
  {
    hide Mass, Limit, Weights, Masses, Absorb;
    var s', items' := Step(s, x, total), items + [x];
    LimitReachesTotal(total);
    forall j | 0 <= j < |s.closed| ensures Small(s', items', total, j) {
      assert Small(s, items, total, j);
      assert s'.closed[..j + 1] == s.closed[..j + 1];
    }
    if s'.closed != s.closed {
      var a := Absorb(s.curr, s.sum, s.weight);
      AbsorbMass(s.curr, s.sum, s.weight);
      AbsorbWeight(s.curr, s.sum, s.weight);
      SumsSnoc(s.closed, a);
      assert s'.closed[..|s.closed| + 1] == s.closed + [a];
      assert Small(s', items', total, |s.closed|);
    }
  }

  /** The item that opens group `j` would have taken the group before it past its limit. */
  predicate Opens(s: Comp, items: seq<Centroid>, total: real, j: nat)
    requires j < |s.cuts|
  {
    j > 0 ==> s.cuts[j] < |items| && Weights(items[..s.cuts[j] + 1]) > Limit(j - 1, total)
  }

  lemma {:induction false} CompGreedy(items: seq<Centroid>, total: real, j: nat)
    requires items != [] && Positive(items) && j < |CompRun(items, total).cuts|
    ensures Opens(CompRun(items, total), items, total, j)
  {
    hide Mass, Limit, Absorb, Weights, Masses;
    var n := |items| - 1;
    if n > 0 {
      var init, x := items[..n], items[n];
      var s := CompRun(init, total);
      CompConserves(init, total);
      assert items == init + [x] && items[..n + 1] == items;
      SumsSnoc(init, x);
      if j < |s.cuts| {
        CompGreedy(init, total, j);
        if j > 0 { assert items[..s.cuts[j] + 1] == init[..s.cuts[j] + 1]; }
      }
    }
  }

  lemma {:induction false} CompInOrder(items: seq<Centroid>, total: real)
    requires items != [] && Positive(items) && Sorted(items)
    ensures InOrder(CompRun(items, total), items)
  {
    hide Limit, Absorb, Weights, Masses, Prod;
    var n := |items| - 1;
    if n > 0 {
      var init, x := items[..n], items[n];
      CompInOrder(init, total);
      OrderStep(CompRun(init, total), init, x, total);
      assert items == init + [x];
    } else {
      ProdZero(items[0].mean);
    }
  }

  lemma OrderStep(s: Comp, items: seq<Centroid>, x: Centroid, total: real)
    requires InOrder(s, items) && items[|items| - 1].mean <= x.mean && x.weight > 0.0 && s.curr.weight > 0.0
    ensures InOrder(Step(s, x, total), items + [x])
  {
    hide Limit, Absorb, Weights, Masses, Prod;
    var last := items[|items| - 1].mean;
    ProdZero(x.mean);
    AbsorbBounds(s.curr, s.sum, s.weight, last);
    MulMono(last, x.mean, s.weight);
    MulMono(s.curr.mean, x.mean, x.weight);
    Distribute(s.curr.mean, s.weight, x.weight);
    Distribute(x.mean, s.weight, x.weight);
  }

  // ---------------------------------------------------------------- compression as a whole

  /** Compression keeps the total weight and the total sum, and yields positive weights. */
  lemma CompressConserves(items: seq<Centroid>, total: real)
    requires items != [] && Positive(items)
    ensures Weights(Compress(items, total)) == Weights(items)
    ensures Masses(Compress(items, total)) == Masses(items)
    ensures Positive(Compress(items, total))
  {
    hide Mass, Limit, Weights, Masses, Absorb;
    var s := CompRun(items, total);
    CompConserves(items, total);
    AbsorbMass(s.curr, s.sum, s.weight);
    AbsorbWeight(s.curr, s.sum, s.weight);
    SumsSnoc(s.closed, Absorb(s.curr, s.sum, s.weight));
  }

  /** Where the groups of items start that make up the centroids, and where the last one ends. */
  function Cuts(items: seq<Centroid>, total: real): seq<nat>
    requires items != [] && Positive(items)
  {
    CompRun(items, total).cuts + [|items|]
  }

  /** Each centroid is one consecutive group of items: sums agree up to every cut. */
  lemma CompressGroups(items: seq<Centroid>, total: real)
    requires items != [] && Positive(items)
    ensures var cuts, out := Cuts(items, total), Compress(items, total);
            && |cuts| == |out| + 1 && cuts[0] == 0 && cuts[|out|] == |items|
            && (forall j :: 0 <= j < |out| ==> cuts[j] < cuts[j + 1])
            && (forall j :: 0 <= j < |cuts| ==> cuts[j] <= |items|)
            && (forall j :: 0 <= j < |cuts| ==> Weights(out[..j]) == Weights(items[..cuts[j]]))
            && (forall j :: 0 <= j < |cuts| ==> Masses(out[..j]) == Masses(items[..cuts[j]]))
  {
    hide Mass, Limit, Weights, Masses, Absorb;
    var s := CompRun(items, total);
    CompConserves(items, total);
    CompressConserves(items, total);
    var cuts, out := Cuts(items, total), Compress(items, total);
    forall j | 0 <= j < |cuts|
      ensures cuts[j] <= |items|
      ensures Weights(out[..j]) == Weights(items[..cuts[j]]) && Masses(out[..j]) == Masses(items[..cuts[j]])
    {
      if j <= |s.closed| {
        assert SameSums(s, items, j) && out[..j] == s.closed[..j];
      } else {
        assert out[..j] == out && items[..|items|] == items;
      }
    }
  }

  /** Centroid `j` is a group of one item, unchanged. */
  predicate Single(items: seq<Centroid>, out: seq<Centroid>, cuts: seq<nat>, j: nat) {
    j < |out| && j + 1 < |cuts| && cuts[j] < |items| && out[j] == items[cuts[j]] && cuts[j + 1] == cuts[j] + 1
  }

  /** At most 100 centroids, each a single input item or ending within its limit. */
  lemma CompressLimited(items: seq<Centroid>, total: real)
    requires items != [] && Positive(items) && Weights(items) <= total
    ensures 1 <= |Compress(items, total)| <= MaxCentroids
    ensures var out, cuts := Compress(items, total), Cuts(items, total);
            forall j :: 0 <= j < |out| ==> Single(items, out, cuts, j) || Weights(out[..j + 1]) <= Limit(j, total)
  {
    hide Mass, Limit, Weights, Masses, Absorb;
    var s := CompRun(items, total);
    CompConserves(items, total);
    CompLimited(items, total);
    CompressConserves(items, total);
    var out, cuts := Compress(items, total), Cuts(items, total);
    AbsorbMass(s.curr, s.sum, s.weight);
    forall j | 0 <= j < |out| ensures Single(items, out, cuts, j) || Weights(out[..j + 1]) <= Limit(j, total) {
      if j < |s.closed| {
        assert Small(s, items, total, j) && out[..j + 1] == s.closed[..j + 1];
      } else {
        assert out[..j + 1] == out;
      }
    }
  }

  /** Compression is greedy: a group ends only where its next item would take it past its limit. */
  lemma CompressGreedy(items: seq<Centroid>, total: real, j: nat)
    requires items != [] && Positive(items) && 0 < j < |Compress(items, total)|
    ensures var cuts := Cuts(items, total);
            j < |cuts| && cuts[j] < |items| && Weights(items[..cuts[j] + 1]) > Limit(j - 1, total)
  {
    hide Mass, Limit, Absorb, Weights, Masses;
    CompConserves(items, total);
    CompGreedy(items, total, j);
  }

  /**
   * The tails are kept apart: the first item stays alone unless the first two
   * weigh at most a 5000th of all, and the last one when it weighs as much.
   */
  lemma TailsAlone(items: seq<Centroid>, total: real)
    requires |items| >= 2 && Positive(items) && Weights(items) == total
    ensures |Cuts(items, total)| >= 2
    ensures items[0].weight + items[1].weight > total / 5000.0 ==>
              Cuts(items, total)[1] == 1 && Compress(items, total)[0] == items[0]
    ensures items[|items| - 1].weight >= total / 5000.0 ==>
              var cuts, out := Cuts(items, total), Compress(items, total);
              |cuts| == |out| + 1 && cuts[|out| - 1] == |items| - 1 && out[|out| - 1] == items[|items| - 1]
  {
    hide Mass, Limit, Absorb, Weights, Masses;
    CompressGroups(items, total);
    CompressLimited(items, total);
    if items[0].weight + items[1].weight > total / 5000.0 { FirstAlone(items, total); }
    if items[|items| - 1].weight >= total / 5000.0 { LastAlone(items, total); }
  }

  lemma FirstAlone(items: seq<Centroid>, total: real)
    requires |items| >= 2 && Positive(items) && Weights(items) == total
    requires items[0].weight + items[1].weight > total / 5000.0
    ensures var cuts := Cuts(items, total);
            |cuts| >= 2 && cuts[1] == 1 && Compress(items, total) != [] && Compress(items, total)[0] == items[0]
  {
    hide Mass, Limit, Absorb, Weights, Masses, Compress, Cuts;
    var cuts, out := Cuts(items, total), Compress(items, total);
    CompressGroups(items, total);
    CompressLimited(items, total);
    LimitIs(0, total);
    assert Square(0 + 1) == 1.0;
    assert out[..0 + 1] == out[..1];
    if cuts[1] >= 2 {
      PairWeight(items);
      PrefixGrows(items, 2, cuts[1]);
    } else {
      GroupOfOne(items, total, 0);
    }
  }

  lemma LastAlone(items: seq<Centroid>, total: real)
    requires |items| >= 2 && Positive(items) && Weights(items) == total
    requires items[|items| - 1].weight >= total / 5000.0
    ensures var cuts, out := Cuts(items, total), Compress(items, total);
            |cuts| == |out| + 1 >= 2 && cuts[|out| - 1] == |items| - 1 && out[|out| - 1] == items[|items| - 1]
  {
    hide Mass, Limit, Absorb, Weights, Masses, Compress, Cuts;
    var n, cuts, out := |items| - 1, Cuts(items, total), Compress(items, total);
    var j := |out| - 1;
    CompressGroups(items, total);
    CompressLimited(items, total);
    CompressConserves(items, total);
    assert out[..j + 1] == out && items[..n + 1] == items;
    PrefixStep(items, n);
    PrefixGrows(items, 0, n);
    EmptySums();
    assert items[..0] == [];
    if cuts[j] < n {
      assert !Single(items, out, cuts, j);
      if j < 99 { LimitBelow(j, total); }
      CompressGreedy(items, total, j);
      LastLimit(total);
      PrefixGrows(items, cuts[j] + 1, n);
    } else {
      GroupOfOne(items, total, j);
    }
  }

  lemma LastLimit(total: real)
    ensures Limit(98, total) == total - total / 5000.0
  {
    hide Limit;
    LimitIs(98, total);
    assert Square(99 - 98) == 1.0;
    assert (1.0 - 1.0 / 5000.0) * total == total - total / 5000.0;
  }

  lemma LimitBelow(j: nat, total: real)
    requires j < 99 && total > 0.0
    ensures Limit(j, total) < total
  {
    hide KToQ;
    var q := KToQ((j + 1) as real, 100.0);
    KToQShape((j + 1) as real, 100.0, 100.0);
    PosProd(1.0 - q, total);
    assert (1.0 - q) * total == total - q * total;
  }

  lemma PrefixStep(items: seq<Centroid>, i: nat)
    requires i < |items|
    ensures Weights(items[..i + 1]) == Weights(items[..i]) + items[i].weight
    ensures Masses(items[..i + 1]) == Masses(items[..i]) + Mass(items[i])
  {
    hide Weights, Masses, Mass;
    assert items[..i + 1] == items[..i] + [items[i]];
    SumsSnoc(items[..i], items[i]);
  }

  lemma {:induction false} PrefixGrows(items: seq<Centroid>, i: nat, j: nat)
    requires Positive(items) && i <= j <= |items|
    ensures Weights(items[..i]) <= Weights(items[..j])
  {
    hide Weights, Masses;
    if i < j {
      PrefixGrows(items, i, j - 1);
      PrefixStep(items, j - 1);
    }
  }

  lemma PairWeight(items: seq<Centroid>)
    requires |items| >= 2
    ensures Weights(items[..2]) == items[0].weight + items[1].weight
  {
    hide Weights, Masses;
    EmptySums();
    assert items[..0] == [];
    PrefixStep(items, 0);
    PrefixStep(items, 1);
  }

  /** A group of one item is that item. */
  lemma GroupOfOne(items: seq<Centroid>, total: real, j: nat)
    requires items != [] && Positive(items) && j < |Compress(items, total)|
    requires |Cuts(items, total)| == |Compress(items, total)| + 1
    requires Cuts(items, total)[j] < |items| && Cuts(items, total)[j + 1] == Cuts(items, total)[j] + 1
    ensures Compress(items, total)[j] == items[Cuts(items, total)[j]]
  {
    hide Weights, Masses, Compress, Cuts, Prod;
    var cuts, out := Cuts(items, total), Compress(items, total);
    CompressGroups(items, total);
    PrefixStep(out, j);
    PrefixStep(items, cuts[j]);
    DivUnique(out[j].mean, items[cuts[j]].mean, out[j].weight);
  }

  /** Compressing a sorted run gives sorted means within its range: the final sort finds nothing to do. */
  lemma CompressSorted(items: seq<Centroid>, total: real)
    requires items != [] && Positive(items) && Sorted(items)
    ensures Sorted(Compress(items, total))
    ensures AtLeast(Compress(items, total), items[0].mean)
    ensures AtMost(Compress(items, total), items[|items| - 1].mean)
  {
    hide Limit, Absorb, Weights, Masses, Prod;
    var s := CompRun(items, total);
    CompInOrder(items, total);
    AbsorbBounds(s.curr, s.sum, s.weight, items[|items| - 1].mean);
  }
}

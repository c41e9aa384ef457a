/**
 * The t-digest objects (util/tdigest.cc, util/tdigest.h): the digest, the
 * merger with its scratch buffer, the accumulator, and the quantile estimate.
 *
 * Each digest remembers, for specification only, the values it has consumed.
 */
module TDigestImpl {
  import opened Common
  import opened TDigestSpec

  // ---------------------------------------------------------------- sorting and sums

  function SumBy<T>(s: seq<T>, f: T -> real): real {
    if s == [] then 0.0 else SumBy(s[..|s| - 1], f) + f(s[|s| - 1])
  }

  lemma {:induction false} SumByConcat<T>(a: seq<T>, b: seq<T>, f: T -> real)
    ensures SumBy(a + b, f) == SumBy(a, f) + SumBy(b, f)
  {
    if b == [] {
      assert a + b == a;
    } else {
      var init := b[..|b| - 1];
      SumByConcat(a, init, f);
      assert (a + b)[..|a + b| - 1] == a + init;
    }
  }

  lemma SumByRemove<T>(s: seq<T>, k: nat, f: T -> real)
    requires k < |s|
    ensures SumBy(s, f) == SumBy(s[..k] + s[k + 1..], f) + f(s[k])
  {
    SumByConcat(s[..k], s[k + 1..], f);
    SumByConcat(s[..k + 1], s[k + 1..], f);
    assert s[..k + 1] + s[k + 1..] == s;
    assert s[..k + 1][..k] == s[..k];
  }

  /** A reordering goes on without an element of its choice. */
  lemma PermuteRest<T>(a: seq<T>, b: seq<T>) returns (k: nat)
    requires a != [] && multiset(a) == multiset(b)
    ensures k < |b| && b[k] == a[|a| - 1] && multiset(a[..|a| - 1]) == multiset(b[..k] + b[k + 1..])
  {
    var n := |a| - 1;
    assert a[n] in multiset(a);
    k :| 0 <= k < |b| && b[k] == a[n];
    assert b == b[..k] + [b[k]] + b[k + 1..];
    assert a == a[..n] + [a[n]];
    assert multiset(a[..n]) == multiset(a) - multiset{a[n]};
  }

  /** Reordering does not change a sum. */
  lemma {:induction false} SumByPermute<T>(a: seq<T>, b: seq<T>, f: T -> real)
    requires multiset(a) == multiset(b)
    ensures SumBy(a, f) == SumBy(b, f)
  {
    if a == [] {
      assert |multiset(b)| == |b|;
    } else {
      var k := PermuteRest(a, b);
      SumByPermute(a[..|a| - 1], b[..k] + b[k + 1..], f);
      SumByRemove(b, k, f);
    }
  }

  function WeightOf(c: Centroid): real { c.weight }

  lemma {:induction false} SumsAsSumBy(cs: seq<Centroid>)
    ensures Weights(cs) == SumBy(cs, WeightOf) && Masses(cs) == SumBy(cs, Mass)
  {
    if cs != [] { SumsAsSumBy(cs[..|cs| - 1]); }
  }

  /** `std::sort` by mean: only what any implementation promises is used, a sorted permutation. */
  method Sort(s: seq<Centroid>) returns (t: seq<Centroid>)
    ensures Sorted(t) && multiset(t) == multiset(s) && |t| == |s|
  {
    hide Sorted;
    t := [];
    assert Sorted(t) by { EmptySorted(); }
    for n := 0 to |s|
      invariant |t| == n && Sorted(t) && multiset(t) == multiset(s[..n])
    {
      assert s[..n + 1] == s[..n] + [s[n]];
      t := Insert(t, s[n]);
    }
    assert s[..|s|] == s;
  }

  lemma EmptySorted()
    ensures Sorted([])
  {}

  method Insert(t: seq<Centroid>, x: Centroid) returns (u: seq<Centroid>)
    requires Sorted(t)
    ensures Sorted(u) && multiset(u) == multiset(t) + multiset{x} && |u| == |t| + 1
  {
    hide Sorted;
    var p := |t|;
    while p > 0 && t[p - 1].mean > x.mean
      invariant 0 <= p <= |t|
      invariant AtLeast(t[p..], x.mean)
    {
      p := p - 1;
    }
    u := t[..p] + [x] + t[p..];
    InsertSorted(t, x, p);
    assert t == t[..p] + t[p..];
  }

  lemma InsertSorted(t: seq<Centroid>, x: Centroid, p: nat)
    requires Sorted(t) && p <= |t|
    requires p > 0 ==> t[p - 1].mean <= x.mean
    requires AtLeast(t[p..], x.mean)
    ensures Sorted(t[..p] + [x] + t[p..])
  {
    var l, r := t[..p], t[p..];
    assert Sorted(l) && Sorted(r);
    assert AtMost(l, x.mean);
    SortedConcat(l, [x], x.mean);
    assert AtMost(l + [x], x.mean);
    SortedConcat(l + [x], r, x.mean);
  }

  lemma SortedConcat(l: seq<Centroid>, r: seq<Centroid>, x: real)
    requires Sorted(l) && Sorted(r) && AtMost(l, x) && AtLeast(r, x)
    ensures Sorted(l + r)
  {
    forall i, j | 0 <= i < j < |l + r| ensures (l + r)[i].mean <= (l + r)[j].mean {
      if i < |l| <= j { assert l[i].mean <= x <= r[j - |l|].mean; }
    }
  }

  function Identity(x: real): real { x }

  function Sum(v: seq<real>): real {
    SumBy(v, Identity)
  }

  /** Raw values are centroids of weight one. */
  function Units(v: seq<real>): (cs: seq<Centroid>)
    ensures |cs| == |v| && forall i :: 0 <= i < |v| ==> cs[i] == Centroid(v[i], 1.0)
  {
    seq(|v|, i requires 0 <= i < |v| => Centroid(v[i], 1.0))
  }

  lemma {:induction false} UnitSums(v: seq<real>)
    ensures Weights(Units(v)) == |v| as real && Masses(Units(v)) == Sum(v)
  {
    if v != [] {
      var n := |v| - 1;
      UnitSums(v[..n]);
      assert Units(v)[..n] == Units(v[..n]);
      assert Mass(Centroid(v[n], 1.0)) == v[n];
    }
  }

  function Means(cs: seq<Centroid>): (v: seq<real>)
    ensures |v| == |cs| && forall i :: 0 <= i < |cs| ==> v[i] == cs[i].mean
  {
    seq(|cs|, i requires 0 <= i < |cs| => cs[i].mean)
  }

  lemma {:induction false} UnitCount(v: seq<real>, x: real)
    ensures multiset(v)[x] == multiset(Units(v))[Centroid(x, 1.0)]
  {
    if v != [] {
      var n := |v| - 1;
      UnitCount(v[..n], x);
      assert v == v[..n] + [v[n]];
      assert Units(v) == Units(v[..n]) + [Centroid(v[n], 1.0)];
    }
  }

  /** Sorting unit centroids is sorting the values. */
  lemma UnitsBack(v: seq<real>, cs: seq<Centroid>)
    requires multiset(cs) == multiset(Units(v))
    ensures Units(Means(cs)) == cs && multiset(Means(cs)) == multiset(v)
  {
    forall i | 0 <= i < |cs| ensures cs[i].weight == 1.0 {
      assert cs[i] in multiset(Units(v));
    }
    assert Units(Means(cs)) == cs;
    forall x ensures multiset(Means(cs))[x] == multiset(v)[x] {
      UnitCount(v, x);
      UnitCount(Means(cs), x);
    }
  }

  // ---------------------------------------------------------------- the digest

  class TDigest {
    var valueCount: nat
    var sum: real
    var min: real
    var max: real
    var centroidCount: nat
    const centroids: array<Centroid>
    ghost var vals: seq<real>

    constructor ()
      ensures Valid() && vals == [] && fresh(centroids)
    {
      valueCount, sum, min, max, centroidCount := 0, 0.0, 0.0, 0.0, 0;
      centroids := new Centroid[MaxCentroids](_ => Centroid(0.0, 1.0));
      vals := [];
    }

    /** The centroids in use. */
    function Cs(): seq<Centroid>
      reads this, centroids
      requires centroidCount <= centroids.Length
    {
      centroids[..centroidCount]
    }

    ghost predicate Valid()
      reads this, centroids
    {
      && centroids.Length == MaxCentroids && centroidCount <= MaxCentroids
      && Consistent(Cs(), valueCount, sum, min, max, vals)
    }
  }

  /** Counts, sums and bounds agree with the consumed values; centroids are sorted and within the bounds. */
  ghost predicate Consistent(cs: seq<Centroid>, count: nat, sum: real, min: real, max: real, vals: seq<real>) {
    && count == |vals| && (cs == [] <==> vals == [])
    && Positive(cs) && Sorted(cs)
    && Weights(cs) == count as real && Masses(cs) == sum == Sum(vals)
    && (vals != [] ==> AtLeast(cs, min) && AtMost(cs, max) && Extremes(vals, min, max))
  }

  /** The exact minimum and maximum of the values. */
  predicate Extremes(vals: seq<real>, min: real, max: real) {
    min in vals && max in vals && forall i :: 0 <= i < |vals| ==> min <= vals[i] <= max
  }

  // ---------------------------------------------------------------- merging

  class TDigestMerger {
    /** One slot more than a digest can hold, for the candidate under consideration. */
    const buffer: array<Centroid>

    constructor ()
      ensures buffer.Length == MaxCentroids + 1 && fresh(buffer)
    {
      buffer := new Centroid[MaxCentroids + 1](_ => Centroid(0.0, 1.0));
    }

    /** Sort the scratch buffer's first `n` slots and copy them into the digest. */
    method Install(d: TDigest, n: nat)
      requires buffer.Length == MaxCentroids + 1 && d.centroids.Length == MaxCentroids && d.centroids != buffer
      requires n <= MaxCentroids
      modifies d`centroidCount, d.centroids, buffer
      ensures d.centroidCount == n && Sorted(d.Cs()) && multiset(d.Cs()) == multiset(old(buffer[..n]))
    {
      hide Sorted;
      var t := Sort(buffer[..n]);
      Memcpy(buffer, 0, t);
      Memcpy(d.centroids, 0, t);
      d.centroidCount := n;
      assert d.Cs() == t;
    }

    /** Merge a sorted run, standing for the values `rVals`, into the digest. */
    method MergeRun(d: TDigest, r: seq<Centroid>, rCount: nat, rMin: real, rMax: real, ghost rSum: real,
        ghost rVals: seq<real>)
      requires buffer.Length == MaxCentroids + 1 && d.Valid() && d.centroids != buffer
      requires Consistent(r, rCount, rSum, rMin, rMax, rVals) && r != []
      modifies d, d.centroids, buffer
      ensures d.Valid() && d.vals == old(d.vals) + rVals
      ensures Positive(MergeRuns(old(d.Cs()), r))
      ensures multiset(d.Cs()) == multiset(Compress(MergeRuns(old(d.Cs()), r), d.valueCount as real))
    {
      hide Limit, Weights, Masses, Mass, Prod, Compress, MergeRuns, Sorted;
      hide Sum, Positive, Extremes, AtLeast, AtMost, Consistent;
      var l := d.centroids[..d.centroidCount];
      ghost var count := (d.valueCount + rCount) as real;
      MergeReady(l, d.valueCount, d.sum, d.min, d.max, d.vals, r, rCount, rSum, rMin, rMax, rVals);
      d.min := if d.valueCount == 0 then rMin else Min(d.min, rMin);
      d.max := if d.valueCount == 0 then rMax else Max(d.max, rMax);
      d.valueCount := d.valueCount + rCount;
      var n, sum := MergeLoop(l, r, d.valueCount as real);
      d.sum := sum;
      Install(d, n);
      MergedConsistent(l, old(d.valueCount), old(d.sum), old(d.min), old(d.max), old(d.vals), r, rCount, rSum, rMin,
          rMax, rVals,
                       d.Cs(), d.sum, d.min, d.max);
      d.vals := d.vals + rVals;
    }

    /** `merge_from_values`: consume a buffer of raw values, sorting it in place. */
    method MergeFromValues(d: TDigest, values: array<real>, n: nat)
      requires buffer.Length == MaxCentroids + 1 && d.Valid() && n <= values.Length && n <= ValueBuffer
      requires d.centroids != buffer && values as object !in {d.centroids as object, buffer as object}
      modifies d, d.centroids, buffer, values
      ensures d.Valid() && d.vals == old(d.vals) + old(values[..n])
      ensures multiset(values[..n]) == old(multiset(values[..n])) && values[n..] == old(values[n..])
      ensures n > 0 ==> Positive(MergeRuns(old(d.Cs()), Units(values[..n])))
      ensures n > 0 ==>
                multiset(d.Cs()) == multiset(Compress(MergeRuns(old(d.Cs()), Units(values[..n])), d.valueCount as real))
    {
      hide Limit, Weights, Masses, Mass, Prod, Compress, MergeRuns, Sorted, Consistent, Units, Sum, Means, Positive;
      ghost var v := values[..n];
      if n == 0 {
        assert old(d.vals) + v == d.vals;
        return;
      }
      var us := Sort(Units(values[..n]));
      UnitsBack(v, us);
      Memcpy(values, 0, Means(us));
      assert values[..n] == Means(us);
      UnitsConsistent(v, us);
      MergeRun(d, us, n, values[0], values[n - 1], Sum(v), v);
    }

    /** `merge`: merge another digest, or the same one, in place. */
    method Merge(left: TDigest, right: TDigest)
      requires buffer.Length == MaxCentroids + 1 && left.Valid() && right.Valid()
      requires left != right ==> left.centroids != right.centroids
      requires buffer != left.centroids && buffer != right.centroids
      modifies left, left.centroids, buffer
      ensures left.Valid() && left.vals == old(left.vals) + old(right.vals)
      ensures old(right.vals) != [] && old(left.vals) != [] ==>
                var items := MergeRuns(old(left.Cs()), old(right.Cs()));
                Positive(items) && multiset(left.Cs()) == multiset(Compress(items, left.valueCount as real))
      ensures old(right.vals) != [] && old(left.vals) == [] ==> left.Cs() == old(right.Cs())
      ensures left != right ==> right.Cs() == old(right.Cs()) && right.vals == old(right.vals)
    {
      hide Limit, Weights, Masses, Mass, Prod, Compress, MergeRuns, Sorted, Sum, Positive, Extremes, AtLeast, AtMost;
      if right.valueCount == 0 {
        assert old(left.vals) + old(right.vals) == left.vals;
        return;
      }
      if left.valueCount == 0 {
        left.valueCount, left.sum, left.min, left.max := right.valueCount, right.sum, right.min, right.max;
        Memcpy(left.centroids, 0, right.centroids[..]);
        left.centroidCount := right.centroidCount;
        left.vals := right.vals;
        assert left.centroids[..] == right.centroids[..];
        assert left.Cs() == left.centroids[..][..left.centroidCount] == right.Cs();
        assert old(left.vals) + old(right.vals) == right.vals;
        return;
      }
      MergeRun(left, right.centroids[..right.centroidCount], right.valueCount, right.min, right.max, right.sum,
          right.vals);
    }

    /** One round: put the candidate next to the open centroid, then absorb it or close the open one. */
    method Consider(x: Centroid, curr: nat, sums: real, weights: real, soFar: real, sum: real, limit: real,
                    ghost s: Comp, ghost count: real)
      returns (closed: bool, sums': real, weights': real, soFar': real, sum': real)
      requires curr + 1 < buffer.Length && x.weight > 0.0 && limit == Limit(curr, count)
      requires Mirrors(s, buffer[..curr], buffer[curr], sums, weights, soFar, sum)
      modifies buffer
      ensures s.curr.weight > 0.0 && s.weight >= 0.0
      ensures var curr' := if closed then curr + 1 else curr;
              && |Step(s, x, count).closed| == curr'
              && Mirrors(Step(s, x, count), buffer[..curr'], buffer[curr'], sums', weights', soFar', sum')
    {
      hide Limit, Weights, Masses, Absorb, Mass, Prod, Step, Mirrors;
      MirrorsStep(s, buffer[..curr], buffer[curr], sums, weights, soFar, sum, x, count);
      ghost var prefix := buffer[..curr];
      buffer[curr + 1] := x;
      assert buffer[..curr] == prefix;
      var nextSum := Mass(buffer[curr + 1]);
      soFar' := soFar + buffer[curr + 1].weight;
      if soFar' <= limit {
        return false, sums + nextSum, weights + buffer[curr + 1].weight, soFar', sum;
      } else {
        sum' := sum + (sums + Mass(buffer[curr]));
        buffer[curr] := Absorb(buffer[curr], sums, weights);
        assert buffer[..curr + 1] == prefix + [buffer[curr]];
        return true, 0.0, 0.0, soFar', sum';
      }
    }

    /**
     * The loop shared by both merges: take the smaller mean of the two runs,
     * absorb it or close the open centroid, never leaving the scratch buffer.
     */
    method MergeLoop(l: seq<Centroid>, r: seq<Centroid>, count: real) returns (n: nat, sum: real)
      requires buffer.Length == MaxCentroids + 1
      requires Positive(l) && Positive(r) && r != []
      requires Weights(MergeRuns(l, r)) <= count
      modifies buffer
      ensures Positive(MergeRuns(l, r)) && n <= MaxCentroids
      ensures buffer[..n] == Compress(MergeRuns(l, r), count)
      ensures sum == Masses(Compress(MergeRuns(l, r), count))
    {
      hide Limit, KToQ, Weights, Masses, Absorb, Mass, Prod, Step, CompAt, MergeRuns, Mirrors, Rest, Positive, Compress;
      ghost var m := MergeRuns(l, r);
      RestStart(l, r, m);
      var i, j := 0, 0;
      var kLimit := 1;
      var limit := LimitAt(kLimit, count);
      kLimit := kLimit + 1;
      var curr := 0;
      RestPick(l, r, m, 0, 0);
      if l != [] && l[0].mean < r[0].mean {
        buffer[0] := l[0];
        i := 1;
      } else {
        buffer[0] := r[0];
        j := 1;
      }
      var soFar := buffer[0].weight;
      var sums, weights := 0.0, 0.0;
      sum := 0.0;
      MirrorsStart(m, count);
      assert buffer[..0] == [];
      while i < |l| || j < |r|
        invariant i <= |l| && j <= |r| && 1 <= i + j && Rest(l, r, m, i, j)
        invariant curr < MaxCentroids && kLimit == curr + 2 && limit == Limit(curr, count)
        invariant Mirrors(CompAt(m, count, i + j), buffer[..curr], buffer[curr], sums, weights, soFar, sum)
        decreases |l| - i + |r| - j
      {
        ghost var s := CompAt(m, count, i + j);
        RestPick(l, r, m, i, j);
        StepAt(m, count, i + j);
        var x;
        if i < |l| && (j == |r| || l[i].mean < r[j].mean) {
          x := l[i];
          i := i + 1;
        } else {
          x := r[j];
          j := j + 1;
        }
        var closed;
        closed, sums, weights, soFar, sum := Consider(x, curr, sums, weights, soFar, sum, limit, s, count);
        if closed {
          curr := curr + 1;
          limit := LimitAt(kLimit, count);
          kLimit := kLimit + 1;
        }
      }
      MirrorsFinish(m, count, buffer[..curr], buffer[curr], sums, weights, soFar, sum);
      sum := sum + (sums + Mass(buffer[curr]));
      buffer[curr] := Absorb(buffer[curr], sums, weights);
      n := curr + 1;
      assert buffer[..n] == buffer[..curr] + [buffer[curr]];
    }
  }

  function Min(x: real, y: real): real { if y < x then y else x }

  function Max(x: real, y: real): real { if x < y then y else x }

  /** The compression state after the first `k` items. */
  ghost function CompAt(m: seq<Centroid>, count: real, k: nat): Comp
    requires Positive(m) && 1 <= k <= |m|
  {
    CompRun(m[..k], count)
  }

  /** What is left of the two runs merges to what is left of the merged run. */
  predicate Rest(l: seq<Centroid>, r: seq<Centroid>, m: seq<Centroid>, i: nat, j: nat) {
    && i <= |l| && j <= |r| && |m| == |l| + |r| && Positive(m)
    && m[i + j..] == MergeRuns(l[i..], r[j..])
  }

  lemma RestStart(l: seq<Centroid>, r: seq<Centroid>, m: seq<Centroid>)
    requires m == MergeRuns(l, r) && Positive(l) && Positive(r)
    ensures Rest(l, r, m, 0, 0) && Positive(m)
  {
    MergeRunsBounds(l, r, 0.0, 0.0);
    assert l[0..] == l && r[0..] == r && m[0..] == m;
  }

  /** The code's choice between the two runs is the next item of the merged run. */
  lemma RestPick(l: seq<Centroid>, r: seq<Centroid>, m: seq<Centroid>, i: nat, j: nat)
    requires Rest(l, r, m, i, j) && (i < |l| || j < |r|)
    ensures i + j < |m| && m[i + j].weight > 0.0
    ensures if i < |l| && (j == |r| || l[i].mean < r[j].mean)
            then m[i + j] == l[i] && Rest(l, r, m, i + 1, j)
            else j < |r| && m[i + j] == r[j] && Rest(l, r, m, i, j + 1)
  {
    var rest := m[i + j..];
    assert rest[0] == m[i + j] && rest[1..] == m[i + j + 1..];
    if i < |l| { assert l[i..][1..] == l[i + 1..]; }
    if j < |r| { assert r[j..][1..] == r[j + 1..]; }
  }

  /** The loop variables hold the compression state. */
  predicate Mirrors(s: Comp, closed: seq<Centroid>, curr: Centroid, sums: real, weights: real, soFar: real, sum: real) {
    && closed == s.closed && curr == s.curr && sums == s.sum && weights == s.weight && soFar == s.soFar
    && curr.weight > 0.0 && weights >= 0.0
    && sum == Masses(closed)
  }

  lemma MirrorsStart(m: seq<Centroid>, count: real)
    requires m != [] && Positive(m)
    ensures Mirrors(CompAt(m, count, 1), [], m[0], 0.0, 0.0, m[0].weight, 0.0)
  {
    EmptySums();
  }

  lemma MirrorsStep(s: Comp, closed: seq<Centroid>, curr: Centroid, sums: real, weights: real,
                    soFar: real, sum: real, x: Centroid, count: real)
    requires Mirrors(s, closed, curr, sums, weights, soFar, sum) && x.weight > 0.0
    ensures curr.weight == s.curr.weight > 0.0 && weights == s.weight >= 0.0
    ensures soFar + x.weight <= Limit(|closed|, count) ==>
              Mirrors(Step(s, x, count), closed, curr, sums + Mass(x), weights + x.weight, soFar + x.weight, sum)
    ensures soFar + x.weight > Limit(|closed|, count) ==>
              Mirrors(Step(s, x, count), closed + [Absorb(curr, sums, weights)], x, 0.0, 0.0, soFar + x.weight,
                  sum + (sums + Mass(curr)))
    ensures |Step(s, x, count).closed| == if soFar + x.weight <= Limit(|closed|, count) then |closed| else |closed| + 1
  {
    hide Limit, Weights, Masses, Absorb, Mass, Prod;
    AbsorbMass(curr, sums, weights);
    SumsSnoc(closed, Absorb(curr, sums, weights));
  }

  lemma MirrorsFinish(m: seq<Centroid>, count: real, closed: seq<Centroid>, curr: Centroid,
                      sums: real, weights: real, soFar: real, sum: real)
    requires m != [] && Positive(m) && Mirrors(CompAt(m, count, |m|), closed, curr, sums, weights, soFar, sum)
    ensures curr.weight > 0.0 && weights >= 0.0
    ensures Compress(m, count) == closed + [Absorb(curr, sums, weights)]
    ensures Masses(Compress(m, count)) == sum + (sums + Mass(curr))
  {
    hide Limit, Weights, Masses, Absorb, Mass, Prod, CompRun;
    assert m[..|m|] == m;
    AbsorbMass(curr, sums, weights);
    SumsSnoc(closed, Absorb(curr, sums, weights));
  }

  /** The limit as the code computes it, from its running counter. */
  function LimitAt(k: nat, count: real): (r: real)
    requires k > 0
    ensures r == Limit(k - 1, count)
  {
    KToQ(k as real, MaxCentroids as real) * count
  }

  /** One more item, one more step; the number of closed centroids stays below the maximum. */
  lemma StepAt(m: seq<Centroid>, count: real, k: nat)
    requires Positive(m) && 1 <= k < |m| && Weights(m) <= count
    ensures CompAt(m, count, k).curr.weight > 0.0 && CompAt(m, count, k).weight >= 0.0
    ensures CompAt(m, count, k + 1) == Step(CompAt(m, count, k), m[k], count)
    ensures |CompAt(m, count, k + 1).closed| < MaxCentroids
  {
    hide Limit, Weights, Masses, Absorb, Mass, Prod;
    assert m[..k + 1][..k] == m[..k];
    WeightsPrefix(m, k + 1);
    CompLimited(m[..k + 1], count);
  }

  lemma {:induction false} WeightsPrefix(m: seq<Centroid>, k: nat)
    requires Positive(m) && k <= |m|
    ensures Weights(m[..k]) <= Weights(m)
  {
    if k < |m| {
      var init := m[..|m| - 1];
      WeightsPrefix(init, k);
      assert init[..k] == m[..k];
    } else {
      assert m[..k] == m;
    }
  }

  // ---------------------------------------------------------------- what a merge leaves behind

  /** Whatever order the final sort gives to equal means, the result is a consistent list of at most 100 centroids. */
  lemma MergeResult(l: seq<Centroid>, r: seq<Centroid>, count: real, t: seq<Centroid>, lo: real, hi: real)
    requires Positive(l) && Positive(r) && Sorted(l) && Sorted(r) && r != []
    requires Weights(l) + Weights(r) == count
    requires AtLeast(l, lo) && AtLeast(r, lo) && AtMost(l, hi) && AtMost(r, hi)
    requires Positive(MergeRuns(l, r)) && multiset(t) == multiset(Compress(MergeRuns(l, r), count))
    ensures Sorted(Compress(MergeRuns(l, r), count))
    ensures Masses(Compress(MergeRuns(l, r), count)) == Masses(l) + Masses(r)
    ensures Positive(t) && AtLeast(t, lo) && AtMost(t, hi)
    ensures Weights(t) == count && Masses(t) == Masses(l) + Masses(r)
    ensures 1 <= |t| <= MaxCentroids
  {
    hide Limit, Weights, Masses, Mass, Prod, Compress, MergeRuns, Sorted;
    var m := MergeRuns(l, r);
    var out := Compress(m, count);
    MergeRunsCorrect(l, r);
    MergeRunsBounds(l, r, lo, hi);
    CompressConserves(m, count);
    CompressSorted(m, count);
    CompressLimited(m, count);
    SumsAsSumBy(t);
    SumsAsSumBy(out);
    SumByPermute(t, out, WeightOf);
    SumByPermute(t, out, Mass);
    assert |t| == |multiset(t)| == |out|;
    forall i | 0 <= i < |t| ensures t[i] in out {
      assert t[i] in multiset(t);
    }
  }

  predicate DistinctMeans(cs: seq<Centroid>) {
    forall i, j :: 0 <= i < j < |cs| ==> cs[i].mean != cs[j].mean
  }

  /** Without equal means there is only one way to sort. */
  lemma {:induction false} SortUnique(s: seq<Centroid>, t: seq<Centroid>)
    requires Sorted(s) && Sorted(t) && DistinctMeans(s) && multiset(s) == multiset(t)
    ensures s == t
    decreases |s|
  {
    hide Sorted, DistinctMeans;
    assert |s| == |multiset(s)| == |multiset(t)| == |t|;
    if s != [] {
      SameFirst(s, t);
      SortedTail(s);
      SortedTail(t);
      assert s == [s[0]] + s[1..] && t == [t[0]] + t[1..];
      assert multiset(s[1..]) == multiset(s) - multiset{s[0]};
      assert multiset(t[1..]) == multiset(t) - multiset{t[0]};
      SortUnique(s[1..], t[1..]);
    }
  }

  lemma SortedTail(s: seq<Centroid>)
    requires Sorted(s) && s != []
    ensures Sorted(s[1..]) && (DistinctMeans(s) ==> DistinctMeans(s[1..]))
  {}

  lemma SameFirst(s: seq<Centroid>, t: seq<Centroid>)
    requires s != [] && t != [] && Sorted(s) && Sorted(t) && DistinctMeans(s) && multiset(s) == multiset(t)
    ensures s[0] == t[0]
  {
    assert s[0] in multiset(t) && t[0] in multiset(s);
    var i :| 0 <= i < |s| && s[i] == t[0];
    var j :| 0 <= j < |t| && t[j] == s[0];
  }

  /** So a merged digest whose means differ is the compression itself, and obeys its limits index by index. */
  lemma InstalledLimited(items: seq<Centroid>, count: real, t: seq<Centroid>)
    requires items != [] && Positive(items) && Sorted(items) && Weights(items) <= count
    requires Sorted(t) && multiset(t) == multiset(Compress(items, count)) && DistinctMeans(t)
    ensures t == Compress(items, count)
    ensures forall j :: 0 <= j < |t| ==>
              Single(items, t, Cuts(items, count), j) || Weights(t[..j + 1]) <= Limit(j, count)
  {
    hide Compress, Sorted, Weights, Limit, Cuts;
    CompressSorted(items, count);
    SortUnique(t, Compress(items, count));
    CompressLimited(items, count);
  }

  lemma UnitsConsistent(v: seq<real>, us: seq<Centroid>)
    requires v != [] && Sorted(us) && multiset(us) == multiset(Units(v)) && |us| == |v|
    requires Units(Means(us)) == us && multiset(Means(us)) == multiset(v)
    ensures Consistent(us, |v|, Sum(v), us[0].mean, us[|v| - 1].mean, v)
  {
    hide Weights, Masses, Mass, SumBy;
    var w := Means(us);
    UnitSums(w);
    SumByPermute(w, v, Identity);
    assert Extremes(v, us[0].mean, us[|v| - 1].mean) by {
      assert w[0] in multiset(w) && w[|w| - 1] in multiset(w);
      forall i | 0 <= i < |v| ensures us[0].mean <= v[i] <= us[|v| - 1].mean {
        assert v[i] in multiset(v);
        assert v[i] in w;
      }
    }
  }

  /** Two consistent runs can be merged: their weights add up to the number of values. */
  lemma MergeReady(l: seq<Centroid>, lCount: nat, lSum: real, lMin: real, lMax: real, lVals: seq<real>,
                   r: seq<Centroid>, rCount: nat, rSum: real, rMin: real, rMax: real, rVals: seq<real>)
    requires Consistent(l, lCount, lSum, lMin, lMax, lVals) && Consistent(r, rCount, rSum, rMin, rMax, rVals)
    ensures Positive(l) && Positive(r)
    ensures Weights(MergeRuns(l, r)) == (lCount + rCount) as real
  {
    hide Weights, Masses, MergeRuns, Sum;
    MergeRunsCorrect(l, r);
  }

  /** The digest after a merge is consistent with the values of both sides. */
  lemma MergedConsistent(l: seq<Centroid>, lCount: nat, lSum: real, lMin: real, lMax: real, lVals: seq<real>,
                         r: seq<Centroid>, rCount: nat, rSum: real, rMin: real, rMax: real, rVals: seq<real>,
                         t: seq<Centroid>, sum: real, min: real, max: real)
    requires Consistent(l, lCount, lSum, lMin, lMax, lVals) && Consistent(r, rCount, rSum, rMin, rMax, rVals) && r != []
    requires Positive(MergeRuns(l, r)) && Sorted(t)
    requires multiset(t) == multiset(Compress(MergeRuns(l, r), (lCount + rCount) as real))
    requires sum == Masses(Compress(MergeRuns(l, r), (lCount + rCount) as real))
    requires min == if lCount == 0 then rMin else Min(lMin, rMin)
    requires max == if lCount == 0 then rMax else Max(lMax, rMax)
    ensures Consistent(t, lCount + rCount, sum, min, max, lVals + rVals)
    ensures |t| <= MaxCentroids
  {
    hide Weights, Masses, MergeRuns, SumBy, Compress, Sorted, Positive;
    MergeResult(l, r, (lCount + rCount) as real, t, min, max);
    SumByConcat(lVals, rVals, Identity);
    assert Extremes(lVals + rVals, min, max) by { ExtremesConcat(lVals, lMin, lMax, rVals, rMin, rMax, min, max); }
  }

  lemma ExtremesConcat(a: seq<real>, aMin: real, aMax: real, b: seq<real>, bMin: real, bMax: real, min: real, max: real)
    requires (a != [] ==> Extremes(a, aMin, aMax)) && Extremes(b, bMin, bMax)
    requires min == (if a == [] then bMin else Min(aMin, bMin)) && max == (if a == [] then bMax else Max(aMax, bMax))
    ensures Extremes(a + b, min, max)
  {
    assert forall x :: x in a + b <==> x in a || x in b;
  }

  // ---------------------------------------------------------------- accumulating

  /** Buffers values and merges them into the digest whenever the buffer is full. */
  class TDigestAccumulator {
    const digest: TDigest
    const merger: TDigestMerger
    var valueCount: nat
    const buffer: array<real>

    constructor (digest: TDigest, merger: TDigestMerger)
      requires digest.Valid() && merger.buffer.Length == MaxCentroids + 1 && digest.centroids != merger.buffer
      ensures this.digest == digest && this.merger == merger && valueCount == 0
      ensures fresh(buffer) && buffer.Length == ValueBuffer
    {
      this.digest, this.merger, valueCount := digest, merger, 0;
      buffer := new real[ValueBuffer](_ => 0.0);
    }

    ghost predicate Valid()
      reads this, digest, digest.centroids
    {
      && digest.Valid() && merger.buffer.Length == MaxCentroids + 1 && digest.centroids != merger.buffer
      && buffer.Length == ValueBuffer && valueCount < ValueBuffer
      && buffer as object !in {digest.centroids as object, merger.buffer as object}
    }

    /** Every value added so far: those in the digest, then those still buffered. */
    ghost function Added(): seq<real>
      reads this, digest, buffer
      requires valueCount <= buffer.Length
    {
      digest.vals + buffer[..valueCount]
    }

    /** `add`: no value is lost; every 500th value flushes the buffer, the others leave the digest alone. */
    method Add(value: real)
      requires Valid()
      modifies this, digest, digest.centroids, merger.buffer, buffer
      ensures Valid() && Added() == old(Added()) + [value]
      ensures old(valueCount) < 499 ==> valueCount == old(valueCount) + 1
      ensures old(valueCount) < 499 ==> digest.vals == old(digest.vals) && digest.Cs() == old(digest.Cs())
      ensures old(valueCount) >= 499 ==> valueCount == 0 && digest.vals == old(Added()) + [value]
    {
      hide Consistent;
      buffer[valueCount] := value;
      valueCount := valueCount + 1;
      assert buffer[..valueCount] == old(buffer[..valueCount]) + [value];
      if valueCount == ValueBuffer {
        FlushFull();
      }
    }

    /** `flush`: afterwards the digest alone accounts for everything added. */
    method Flush()
      requires Valid()
      modifies this, digest, digest.centroids, merger.buffer, buffer
      ensures Valid() && valueCount == 0 && digest.vals == old(Added())
    {
      hide Consistent;
      FlushFull();
    }

    method FlushFull()
      requires digest.Valid() && merger.buffer.Length == MaxCentroids + 1 && digest.centroids != merger.buffer
      requires buffer.Length == ValueBuffer && valueCount <= ValueBuffer
      requires buffer as object !in {digest.centroids as object, merger.buffer as object}
      modifies this, digest, digest.centroids, merger.buffer, buffer
      ensures Valid() && valueCount == 0 && digest.vals == Added() == old(Added())
    {
      hide Consistent, MergeRuns, Compress;
      if valueCount == 0 {
        assert Added() == digest.vals;
        return;
      }
      merger.MergeFromValues(digest, buffer, valueCount);
      valueCount := 0;
      assert Added() == digest.vals;
    }
  }

  // ---------------------------------------------------------------- quantiles

  function Clamp(v: real, lo: real, hi: real): real {
    if v > hi then hi else if v < lo then lo else v
  }

  /** The rank falls into the weight interval of centroid `pos`. */
  predicate InSlot(cs: seq<Centroid>, rank: real, pos: nat) {
    pos < |cs| && Weights(cs[..pos]) <= rank < Weights(cs[..pos + 1])
  }

  /** Bounds of the estimate: the neighbouring means, or the extremes at either end. */
  function Lower(cs: seq<Centroid>, pos: nat, min: real): real
    requires pos < |cs|
  {
    if pos > 0 then cs[pos - 1].mean else min
  }

  function Upper(cs: seq<Centroid>, pos: nat, max: real): real
    requires pos < |cs|
  {
    if pos + 1 < |cs| then cs[pos + 1].mean else max
  }

  /** How far the mean moves across the slot of centroid `pos`. */
  function Slope(cs: seq<Centroid>, pos: nat): real
    requires pos < |cs|
  {
    if |cs| == 1 then 0.0
    else if pos == 0 then cs[1].mean - cs[0].mean
    else if pos == |cs| - 1 then cs[pos].mean - cs[pos - 1].mean
    else (cs[pos + 1].mean - cs[pos - 1].mean) / 2.0
  }

  /** Linear interpolation inside the slot, clamped to the neighbours. */
  function Interpolate(cs: seq<Centroid>, rank: real, pos: nat, min: real, max: real): real
    requires pos < |cs| && cs[pos].weight > 0.0
  {
    var within := (rank - Weights(cs[..pos])) / cs[pos].weight - 0.5;
    Clamp(cs[pos].mean + Prod(within, Slope(cs, pos)), Lower(cs, pos, min), Upper(cs, pos, max))
  }

  /** The slots partition the ranks below the total weight: at most one contains a given rank. */
  lemma SlotUnique(cs: seq<Centroid>, rank: real, p: nat, q: nat)
    requires Positive(cs) && InSlot(cs, rank, p) && InSlot(cs, rank, q)
    ensures p == q
  {
    hide Weights;
    if p < q { PrefixMonotone(cs, p + 1, q); } else if q < p { PrefixMonotone(cs, q + 1, p); }
  }

  lemma PrefixMonotone(cs: seq<Centroid>, i: nat, j: nat)
    requires Positive(cs) && i <= j <= |cs|
    ensures Weights(cs[..i]) <= Weights(cs[..j])
  {
    hide Weights;
    WeightsPrefix(cs[..j], i);
    assert cs[..j][..i] == cs[..i];
  }

  /** The search: from the right, the first centroid whose left edge does not exceed the rank. */
  method FindSlot(d: TDigest, rank: real) returns (pos: nat, t: real)
    requires d.Valid() && d.centroidCount > 0 && 0.0 <= rank < d.valueCount as real
    ensures InSlot(d.Cs(), rank, pos) && t == Weights(d.Cs()[..pos])
  {
    hide Weights, Masses, Sum, Sorted, Positive, Extremes;
    ghost var cs := d.Cs();
    t := d.valueCount as real;
    pos := d.centroidCount;
    assert cs[..pos] == cs && cs[..0] == [];
    EmptySums();
    while true
      invariant 0 < pos <= d.centroidCount && t == Weights(cs[..pos]) && rank < t
      decreases pos
    {
      pos := pos - 1;
      assert cs[..pos + 1] == cs[..pos] + [cs[pos]];
      SumsSnoc(cs[..pos], cs[pos]);
      t := t - d.centroids[pos].weight;
      if rank >= t { break; }
    }
  }

  /** The estimate for quantile `q` comes from centroid `pos` and stays between its neighbours. */
  ghost predicate Estimates(cs: seq<Centroid>, rank: real, min: real, max: real, pos: nat, v: real) {
    && InSlot(cs, rank, pos) && cs[pos].weight > 0.0
    && v == Interpolate(cs, rank, pos, min, max)
    && Lower(cs, pos, min) <= v <= Upper(cs, pos, max)
  }

  /** `estimate_value_at_quantile`. */
  method EstimateValueAtQuantile(d: TDigest, q: real) returns (v: real)
    requires d.Valid()
    ensures d.vals == [] ==> v == 0.0
    ensures d.vals != [] ==> d.min <= v <= d.max
    ensures d.vals != [] && q >= 1.0 ==> v == d.max
    ensures d.vals != [] && q <= 0.0 ==> v == d.min
    ensures d.vals != [] && 0.0 < q < 1.0 ==>
              var cs, rank, min, max := d.Cs(), Prod(q, d.valueCount as real), d.min, d.max;
              exists pos: nat :: Estimates(cs, rank, min, max, pos, v)
  {
    hide Weights, Masses, Sum, Clamp, Prod, Extremes;
    assert d.vals != [] ==> d.min <= d.max by { ExtremesOrder(d.vals, d.min, d.max); }
    if d.centroidCount == 0 { return 0.0; }
    if q >= 1.0 { return d.max; }
    if q <= 0.0 { return d.min; }
    ghost var cs := d.Cs();
    var rank := Prod(q, d.valueCount as real);
    RankBelow(q, d.valueCount as real);
    var pos, t := FindSlot(d, rank);
    var delta, min, max := 0.0, d.min, d.max;
    if d.centroidCount > 1 {
      if pos == 0 {
        delta := d.centroids[pos + 1].mean - d.centroids[pos].mean;
        max := d.centroids[pos + 1].mean;
      } else if pos == d.centroidCount - 1 {
        delta := d.centroids[pos].mean - d.centroids[pos - 1].mean;
        min := d.centroids[pos - 1].mean;
      } else {
        delta := (d.centroids[pos + 1].mean - d.centroids[pos - 1].mean) / 2.0;
        min := d.centroids[pos - 1].mean;
        max := d.centroids[pos + 1].mean;
      }
    }
    var value := d.centroids[pos].mean + Prod((rank - t) / d.centroids[pos].weight - 0.5, delta);
    v := Clamp(value, min, max);
    ClampBounds(value, min, max);
    assert Estimates(cs, rank, d.min, d.max, pos, v);
  }

  lemma ClampBounds(v: real, lo: real, hi: real)
    requires lo <= hi
    ensures lo <= Clamp(v, lo, hi) <= hi
  {}

  lemma ExtremesOrder(vals: seq<real>, min: real, max: real)
    requires vals != [] ==> Extremes(vals, min, max)
    ensures vals != [] ==> min <= max
  {
    if vals != [] { assert min <= vals[0] <= max; }
  }

  lemma RankBelow(q: real, n: real)
    requires 0.0 < q < 1.0 && n > 0.0
    ensures 0.0 <= Prod(q, n) < n
  {}
}

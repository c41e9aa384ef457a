/**
 * Exactly when the quantile estimate grows with the quantile
 * (`estimate_value_at_quantile` in util/tdigest.cc).
 */
module TDigestMonotone {
  import opened TDigestSpec
  import opened TDigestImpl

  /** The digest's estimate for quantile `q` is `v`. */
  ghost predicate EstimateIs(cs: seq<Centroid>, min: real, max: real, q: real, v: real) {
    if q >= 1.0 then v == max
    else if q <= 0.0 then v == min
    else exists pos: nat :: Estimates(cs, Prod(q, Weights(cs)), min, max, pos, v)
  }

  /** A larger quantile never has a smaller estimate. */
  ghost predicate Grows(cs: seq<Centroid>, min: real, max: real) {
    forall q1, q2, v1, v2 :: q1 <= q2 && EstimateIs(cs, min, max, q1, v1) && EstimateIs(cs, min, max, q2, v2) ==>
      v1 <= v2
  }

  /**
   * The gap behind centroid `p` is empty, or as wide as the estimate moves in
   * half of the slot before it and half of the slot behind it.
   */
  predicate Even(cs: seq<Centroid>, p: nat)
    requires p + 1 < |cs|
  {
    var gap := cs[p + 1].mean - cs[p].mean;
    gap == 0.0 || Slope(cs, p) + Slope(cs, p + 1) <= 2.0 * gap
  }

  /** The centroids of a digest, and its extremes. */
  predicate Digest(cs: seq<Centroid>, min: real, max: real) {
    cs != [] && Sorted(cs) && Positive(cs) && min <= max && AtLeast(cs, min) && AtMost(cs, max)
  }

  // ---------------------------------------------------------------- inside a slot

  /** The estimate at a fraction of the slot of centroid `p`. */
  function At(cs: seq<Centroid>, min: real, max: real, p: nat, f: real): real
    requires p < |cs|
  {
    Clamp(cs[p].mean + Prod(f - 0.5, Slope(cs, p)), Lower(cs, p, min), Upper(cs, p, max))
  }

  lemma SlopeGrows(cs: seq<Centroid>, p: nat)
    requires Sorted(cs) && p < |cs|
    ensures Slope(cs, p) >= 0.0
    ensures p + 1 < |cs| ==> 2.0 * Slope(cs, p) >= cs[p + 1].mean - cs[p].mean
    ensures p > 0 ==> 2.0 * Slope(cs, p) >= cs[p].mean - cs[p - 1].mean
  {}

  lemma ProdOrder(x: real, y: real, s: real)
    requires x <= y && s >= 0.0
    ensures Prod(x, s) <= Prod(y, s)
  {}

  lemma ProdStrict(x: real, y: real, s: real)
    requires x < y && s > 0.0
    ensures Prod(x, s) < Prod(y, s)
  {}

  lemma AtOrder(cs: seq<Centroid>, min: real, max: real, p: nat, f: real, g: real)
    requires Sorted(cs) && p < |cs| && f <= g
    requires Lower(cs, p, min) <= Upper(cs, p, max)
    ensures At(cs, min, max, p, f) <= At(cs, min, max, p, g)
  {
    hide Prod, Slope, Lower, Upper;
    SlopeGrows(cs, p);
    ProdOrder(f - 0.5, g - 0.5, Slope(cs, p));
  }

  lemma BoundsOrder(cs: seq<Centroid>, min: real, max: real, p: nat)
    requires Digest(cs, min, max) && p < |cs|
    ensures Lower(cs, p, min) <= cs[p].mean <= Upper(cs, p, max)
  {}

  lemma HalfOf(s: real)
    ensures Prod(1.0 - 0.5, s) == s / 2.0 && Prod(0.0 - 0.5, s) == -(s / 2.0)
  {}

  /** Neighbouring slots join without a step down exactly at an even gap. */
  lemma JoinsExactly(cs: seq<Centroid>, min: real, max: real, p: nat)
    requires Digest(cs, min, max) && p + 1 < |cs|
    ensures At(cs, min, max, p, 1.0) <= At(cs, min, max, p + 1, 0.0) <==> Even(cs, p)
    ensures cs[p].mean <= At(cs, min, max, p + 1, 0.0) <= cs[p + 1].mean
    ensures At(cs, min, max, p, 1.0) <= cs[p + 1].mean
    ensures At(cs, min, max, p, 1.0) <= cs[p].mean + Prod(0.5, Slope(cs, p))
  {
    hide Prod, Slope;
    BoundsOrder(cs, min, max, p);
    BoundsOrder(cs, min, max, p + 1);
    SlopeGrows(cs, p);
    SlopeGrows(cs, p + 1);
    HalfOf(Slope(cs, p));
    HalfOf(Slope(cs, p + 1));
    assert 1.0 - 0.5 == 0.5;
  }

  // ---------------------------------------------------------------- across slots

  lemma {:induction false} StartsOrder(cs: seq<Centroid>, min: real, max: real, p: nat, q: nat)
    requires Digest(cs, min, max) && p <= q < |cs|
    requires forall i :: 0 <= i < |cs| - 1 ==> Even(cs, i)
    ensures At(cs, min, max, p, 0.0) <= At(cs, min, max, q, 0.0)
  {
    hide At, Even;
    if p < q {
      StartsOrder(cs, min, max, p, q - 1);
      BoundsOrder(cs, min, max, q - 1);
      AtOrder(cs, min, max, q - 1, 0.0, 1.0);
      JoinsExactly(cs, min, max, q - 1);
    }
  }

  /** The fraction of a rank in its slot. */
  function Fraction(cs: seq<Centroid>, rank: real, p: nat): real
    requires p < |cs| && cs[p].weight > 0.0
  {
    (rank - Weights(cs[..p])) / cs[p].weight
  }

  lemma InterpolateIsAt(cs: seq<Centroid>, rank: real, p: nat, min: real, max: real)
    requires p < |cs| && cs[p].weight > 0.0
    ensures Interpolate(cs, rank, p, min, max) == At(cs, min, max, p, Fraction(cs, rank, p))
  {}

  lemma QuotientOrder(x: real, y: real, w: real)
    requires w > 0.0 && x <= y
    ensures x / w <= y / w
  {}

  lemma QuotientUnit(x: real, w: real)
    requires w > 0.0 && 0.0 <= x <= w
    ensures 0.0 <= x / w <= 1.0
  {
    QuotientOrder(0.0, x, w);
    QuotientOrder(x, w, w);
  }

  lemma SlotWidth(cs: seq<Centroid>, p: nat)
    requires p < |cs|
    ensures Weights(cs[..p + 1]) == Weights(cs[..p]) + cs[p].weight
  {
    hide Weights;
    assert cs[..p + 1] == cs[..p] + [cs[p]];
    SumsSnoc(cs[..p], cs[p]);
  }

  lemma FractionOfSlot(cs: seq<Centroid>, rank: real, p: nat)
    requires InSlot(cs, rank, p) && cs[p].weight > 0.0
    ensures 0.0 <= Fraction(cs, rank, p) <= 1.0
  {
    hide Weights;
    SlotWidth(cs, p);
    QuotientUnit(rank - Weights(cs[..p]), cs[p].weight);
  }

  /** With even gaps, ranks in order have estimates in order. */
  lemma RanksOrder(cs: seq<Centroid>, min: real, max: real, r1: real, p1: nat, r2: real, p2: nat)
    requires Digest(cs, min, max) && r1 <= r2 && InSlot(cs, r1, p1) && InSlot(cs, r2, p2)
    requires forall i :: 0 <= i < |cs| - 1 ==> Even(cs, i)
    ensures Interpolate(cs, r1, p1, min, max) <= Interpolate(cs, r2, p2, min, max)
  {
    hide At, Even, Weights, Interpolate;
    InterpolateIsAt(cs, r1, p1, min, max);
    InterpolateIsAt(cs, r2, p2, min, max);
    FractionOfSlot(cs, r1, p1);
    FractionOfSlot(cs, r2, p2);
    BoundsOrder(cs, min, max, p1);
    BoundsOrder(cs, min, max, p2);
    if p1 == p2 {
      QuotientOrder(r1 - Weights(cs[..p1]), r2 - Weights(cs[..p1]), cs[p1].weight);
      AtOrder(cs, min, max, p1, Fraction(cs, r1, p1), Fraction(cs, r2, p2));
    } else {
      if p2 < p1 { PrefixMonotone(cs, p2 + 1, p1); }
      AtOrder(cs, min, max, p1, Fraction(cs, r1, p1), 1.0);
      JoinsExactly(cs, min, max, p1);
      StartsOrder(cs, min, max, p1 + 1, p2);
      AtOrder(cs, min, max, p2, 0.0, Fraction(cs, r2, p2));
    }
  }

  lemma EstimateWithin(cs: seq<Centroid>, min: real, max: real, q: real, v: real)
    requires Digest(cs, min, max) && EstimateIs(cs, min, max, q, v)
    ensures min <= v <= max
  {
    hide Weights, Interpolate, Prod;
    if 0.0 < q < 1.0 {
      var pos: nat :| Estimates(cs, Prod(q, Weights(cs)), min, max, pos, v);
    }
  }

  lemma EvenGrows(cs: seq<Centroid>, min: real, max: real, q1: real, q2: real, v1: real, v2: real)
    requires Digest(cs, min, max) && forall i :: 0 <= i < |cs| - 1 ==> Even(cs, i)
    requires q1 <= q2 && EstimateIs(cs, min, max, q1, v1) && EstimateIs(cs, min, max, q2, v2)
    ensures v1 <= v2
  {
    hide Weights, Interpolate, Prod, Even;
    if 0.0 < q1 && q2 < 1.0 {
      var p1: nat :| Estimates(cs, Prod(q1, Weights(cs)), min, max, p1, v1);
      var p2: nat :| Estimates(cs, Prod(q2, Weights(cs)), min, max, p2, v2);
      TotalPositive(cs);
      ProdOrder(q1, q2, Weights(cs));
      RanksOrder(cs, min, max, Prod(q1, Weights(cs)), p1, Prod(q2, Weights(cs)), p2);
    } else {
      EstimateWithin(cs, min, max, q1, v1);
      EstimateWithin(cs, min, max, q2, v2);
    }
  }

  lemma TotalPositive(cs: seq<Centroid>)
    requires Positive(cs) && cs != []
    ensures Weights(cs) > 0.0
  {
    hide Weights;
    EmptySums();
    assert cs[..0] == [] && cs[..|cs|] == cs;
    SlotWidth(cs, 0);
    PrefixMonotone(cs, 1, |cs|);
  }

  // ---------------------------------------------------------------- a gap that is not even

  /** A fraction of slot `p` whose estimate is above the start of the next slot. */
  lemma StepDown(cs: seq<Centroid>, min: real, max: real, p: nat) returns (f: real)
    requires Digest(cs, min, max) && p + 1 < |cs| && !Even(cs, p)
    ensures 0.0 < f < 1.0 && At(cs, min, max, p, f) > At(cs, min, max, p + 1, 0.0)
  {
    hide Prod, Slope, At;
    var s, t, m := Slope(cs, p), At(cs, min, max, p + 1, 0.0), cs[p].mean;
    JoinsExactly(cs, min, max, p);
    SlopeGrows(cs, p);
    f := Between(s, t - m);
    AboveStart(cs, min, max, p, f, t);
  }

  lemma Between(s: real, x: real) returns (f: real)
    requires s > 0.0 && 0.0 <= x < Prod(0.5, s)
    ensures 0.0 < f < 1.0 && Prod(f - 0.5, s) > x
  {
    var u := x / s;
    assert Prod(u, s) == x;
    if u >= 0.5 { ProdOrder(0.5, u, s); }
    if u < 0.0 { ProdStrict(u, 0.0, s); }
    f := (u + 0.5) / 2.0 + 0.5;
    ProdStrict(u, f - 0.5, s);
  }

  lemma AboveStart(cs: seq<Centroid>, min: real, max: real, p: nat, f: real, t: real)
    requires Digest(cs, min, max) && p + 1 < |cs|
    requires cs[p].mean + Prod(f - 0.5, Slope(cs, p)) > t && cs[p].mean <= t < cs[p + 1].mean
    ensures At(cs, min, max, p, f) > t
  {
    hide Prod, Slope;
    BoundsOrder(cs, min, max, p);
  }

  /** Every rank strictly inside the total is that of a quantile. */
  lemma QuantileOf(cs: seq<Centroid>, min: real, max: real, rank: real, p: nat) returns (q: real)
    requires Digest(cs, min, max) && InSlot(cs, rank, p) && rank > 0.0
    ensures Weights(cs) > 0.0 && q == rank / Weights(cs) && 0.0 < q < 1.0
    ensures EstimateIs(cs, min, max, q, At(cs, min, max, p, Fraction(cs, rank, p)))
  {
    hide Weights, At, Interpolate, Fraction;
    TotalPositive(cs);
    var w := Weights(cs);
    q := rank / w;
    PrefixMonotone(cs, p + 1, |cs|);
    assert cs[..|cs|] == cs;
    QuotientInside(rank, w);
    InterpolateIsAt(cs, rank, p, min, max);
    AtWithin(cs, min, max, p, Fraction(cs, rank, p));
    assert Estimates(cs, Prod(q, w), min, max, p, Interpolate(cs, rank, p, min, max));
  }

  lemma QuotientInside(rank: real, w: real)
    requires 0.0 < rank < w
    ensures 0.0 < rank / w < 1.0 && Prod(rank / w, w) == rank
  {
    var q := rank / w;
    assert Prod(q, w) == rank;
    if q <= 0.0 { ProdOrder(q, 0.0, w); }
    if q >= 1.0 { ProdOrder(1.0, q, w); }
  }

  lemma AtWithin(cs: seq<Centroid>, min: real, max: real, p: nat, f: real)
    requires Digest(cs, min, max) && p < |cs|
    ensures Lower(cs, p, min) <= At(cs, min, max, p, f) <= Upper(cs, p, max)
  {
    hide Prod, Slope, Lower, Upper;
    BoundsOrder(cs, min, max, p);
  }

  lemma UnevenFalls(cs: seq<Centroid>, min: real, max: real, p: nat)
    requires Digest(cs, min, max) && p + 1 < |cs| && !Even(cs, p)
    ensures !Grows(cs, min, max)
  {
    hide Weights, At, Even, EstimateIs;
    var f := StepDown(cs, min, max, p);
    var w := cs[p].weight;
    var r1, r2 := Weights(cs[..p]) + Prod(f, w), Weights(cs[..p + 1]);
    SlotWidth(cs, p);
    SlotWidth(cs, p + 1);
    ProdStrict(0.0, f, w);
    ProdStrict(f, 1.0, w);
    PrefixMonotone(cs, 0, p);
    EmptySums();
    assert cs[..0] == [];
    FractionIs(cs, p, f);
    FractionIs(cs, p + 1, 0.0);
    var q1 := QuantileOf(cs, min, max, r1, p);
    var q2 := QuantileOf(cs, min, max, r2, p + 1);
    TotalPositive(cs);
    QuotientOrder(r1, r2, Weights(cs));
    assert q1 <= q2;
  }

  lemma FractionIs(cs: seq<Centroid>, p: nat, f: real)
    requires p < |cs| && cs[p].weight > 0.0
    ensures Fraction(cs, Weights(cs[..p]) + Prod(f, cs[p].weight), p) == f
  {
    hide Weights;
  }

  /**
   * The estimate grows with the quantile, over all quantiles, exactly when every
   * gap between neighbouring means is empty or as wide as the estimate moves in
   * the two half slots beside it.
   */
  lemma GrowsExactly(cs: seq<Centroid>, min: real, max: real)
    requires Digest(cs, min, max)
    ensures Grows(cs, min, max) <==> forall p :: 0 <= p < |cs| - 1 ==> Even(cs, p)
  {
    hide EstimateIs, Even;
    if forall p :: 0 <= p < |cs| - 1 ==> Even(cs, p) {
      forall q1, q2, v1, v2
        | q1 <= q2 && EstimateIs(cs, min, max, q1, v1) && EstimateIs(cs, min, max, q2, v2)
        ensures v1 <= v2
      {
        EvenGrows(cs, min, max, q1, q2, v1, v2);
      }
    } else {
      var p :| 0 <= p < |cs| - 1 && !Even(cs, p);
      UnevenFalls(cs, min, max, p);
    }
  }

  /** Two estimates of one digest, as coded: in order for every pair of quantiles when all gaps are even. */
  method EstimateTwice(d: TDigest, q1: real, q2: real) returns (v1: real, v2: real)
    requires d.Valid() && d.vals != []
    ensures Digest(d.Cs(), d.min, d.max)
    ensures EstimateIs(d.Cs(), d.min, d.max, q1, v1) && EstimateIs(d.Cs(), d.min, d.max, q2, v2)
    ensures q1 <= q2 && (forall p :: 0 <= p < |d.Cs()| - 1 ==> Even(d.Cs(), p)) ==> v1 <= v2
  {
    hide Even, Estimates, Weights, Masses, Sum, Prod;
    v1 := EstimateValueAtQuantile(d, q1);
    v2 := EstimateValueAtQuantile(d, q2);
    GrowsExactly(d.Cs(), d.min, d.max);
  }

  /** The values 0, 1 and 10: quantile 0.3 is estimated as 0.4, and quantile 0.4 as 0. */
  lemma FallingExample(cs: seq<Centroid>)
    requires cs == [Centroid(0.0, 1.0), Centroid(1.0, 1.0), Centroid(10.0, 1.0)]
    ensures Digest(cs, 0.0, 10.0)
    ensures EstimateIs(cs, 0.0, 10.0, 0.3, 0.4) && EstimateIs(cs, 0.0, 10.0, 0.4, 0.0)
  {
    assert cs[..0] == [];
    SlotWidth(cs, 0);
    SlotWidth(cs, 1);
    SlotWidth(cs, 2);
    assert cs[..3] == cs;
    assert Estimates(cs, Prod(0.3, Weights(cs)), 0.0, 10.0, 0, 0.4);
    assert Estimates(cs, Prod(0.4, Weights(cs)), 0.0, 10.0, 1, 0.0);
  }

  // ---------------------------------------------------------------- evenly spaced centroids

  /** Centroids of equal weight with means `m`, `m + h`, `m + 2h` and so on. */
  predicate Spaced(cs: seq<Centroid>, m: real, h: real, w: real) {
    cs != [] && h >= 0.0 && w > 0.0 && forall i :: 0 <= i < |cs| ==> cs[i] == Centroid(m + Prod(h, i as real), w)
  }

  /** The straight line through the middle of the slots, kept between the first and the last mean. */
  function OnLine(cs: seq<Centroid>, m: real, h: real, x: real): real {
    Clamp(m + Prod(h, x - 0.5), m, m + Prod(h, (|cs| - 1) as real))
  }

  lemma {:induction false} SpacedWeights(cs: seq<Centroid>, m: real, h: real, w: real, p: nat)
    requires Spaced(cs, m, h, w) && p <= |cs|
    ensures Weights(cs[..p]) == Prod(p as real, w)
  {
    hide Weights;
    if p == 0 {
      EmptySums();
      assert cs[..0] == [];
    } else {
      SpacedWeights(cs, m, h, w, p - 1);
      SlotWidth(cs, p - 1);
      assert Prod(p as real, w) == Prod((p - 1) as real, w) + w;
    }
  }

  lemma Distributes(h: real, x: real, y: real)
    ensures Prod(h, x + y) == Prod(h, x) + Prod(h, y) && Prod(h, x) == Prod(x, h) && Prod(h, 1.0) == h
  {}

  /** Across every slot the mean moves by one distance, if there is more than one. */
  lemma SpacedSlope(cs: seq<Centroid>, m: real, h: real, w: real, p: nat)
    requires Spaced(cs, m, h, w) && p < |cs|
    ensures Slope(cs, p) == if |cs| == 1 then 0.0 else h
    ensures p > 0 ==> cs[p - 1].mean == cs[p].mean - h
    ensures p + 1 < |cs| ==> cs[p + 1].mean == cs[p].mean + h
  {
    hide Prod;
    if p > 0 { Distributes(h, (p - 1) as real, 1.0); }
    Distributes(h, p as real, 1.0);
  }

  /** At a fraction of slot `p` the estimate is on the line, that far behind the start of the slot. */
  lemma SpacedAt(cs: seq<Centroid>, m: real, h: real, w: real, p: nat, f: real)
    requires Spaced(cs, m, h, w) && p < |cs| && 0.0 <= f <= 1.0
    ensures At(cs, m, m + Prod(h, (|cs| - 1) as real), p, f) == OnLine(cs, m, h, p as real + f)
  {
    hide Prod, Slope;
    var n := |cs| - 1;
    SpacedSlope(cs, m, h, w, p);
    Distributes(h, p as real, f - 0.5);
    assert p as real + f - 0.5 == p as real + (f - 0.5);
    ProdOrder(f - 0.5, 0.5, h);
    ProdOrder(-0.5, f - 0.5, h);
    HalfOf(h);
    assert 1.0 - 0.5 == 0.5 && 0.0 - 0.5 == -0.5;
    ZeroProd(h, f - 0.5);
    Distributes(h, f - 0.5, 0.0);
    if 0 < p { MeanSteps(h, 1, p); }
    if p < n { MeanSteps(h, p + 1, n); Distributes(h, p as real, 1.0); }
  }

  lemma ZeroProd(h: real, x: real)
    ensures Prod(h, 0.0) == Prod(0.0, h) == 0.0 && Prod(x, 0.0) == Prod(0.0, x) == 0.0
  {}

  lemma MeanSteps(h: real, i: nat, j: nat)
    requires h >= 0.0 && i <= j
    ensures Prod(h, i as real) <= Prod(h, j as real)
  {
    hide Prod;
    ProdOrder(i as real, j as real, h);
    Distributes(h, i as real, 0.0);
    Distributes(h, j as real, 0.0);
  }

  /**
   * On evenly spaced centroids of equal weight, the estimate of every quantile
   * is linear in the quantile, shifted by half a slot, and clamped to the extremes.
   */
  lemma SpacedEstimate(cs: seq<Centroid>, m: real, h: real, w: real, q: real, v: real)
    requires Spaced(cs, m, h, w) && EstimateIs(cs, m, m + Prod(h, (|cs| - 1) as real), q, v)
    ensures v == OnLine(cs, m, h, Prod(q, |cs| as real))
  {
    hide Weights, Prod, Slope, Interpolate, At, OnLine;
    var n, max := |cs| as real, m + Prod(h, (|cs| - 1) as real);
    if q >= 1.0 || q <= 0.0 {
      SpacedEnds(cs, m, h, w, q);
    } else {
      var rank := Prod(q, Weights(cs));
      var p: nat :| Estimates(cs, rank, m, max, p, v);
      assert cs[..|cs|] == cs;
      SpacedWeights(cs, m, h, w, |cs|);
      SpacedWeights(cs, m, h, w, p);
      InterpolateIsAt(cs, rank, p, m, max);
      FractionOfSlot(cs, rank, p);
      RankFraction(q, n, p as real, w);
      SpacedAt(cs, m, h, w, p, Fraction(cs, rank, p));
    }
  }

  lemma RankFraction(q: real, n: real, p: real, w: real)
    requires w > 0.0
    ensures (Prod(q, Prod(n, w)) - Prod(p, w)) / w == Prod(q, n) - p
  {
    assert Prod(q, Prod(n, w)) - Prod(p, w) == Prod(Prod(q, n) - p, w);
    MulDiv(Prod(q, n) - p, w);
  }

  lemma SpacedEnds(cs: seq<Centroid>, m: real, h: real, w: real, q: real)
    requires Spaced(cs, m, h, w) && (q >= 1.0 || q <= 0.0)
    ensures OnLine(cs, m, h, Prod(q, |cs| as real)) == if q >= 1.0 then m + Prod(h, (|cs| - 1) as real) else m
  {
    hide Prod;
    var n := |cs| as real;
    Distributes(n, 1.0, 0.0);
    Distributes(q, n, 0.0);
    ZeroProd(h, n);
    var x := Prod(q, n) - 0.5;
    MeanSteps(h, 0, |cs| - 1);
    Distributes(h, x, 0.0);
    if q >= 1.0 {
      ProdOrder(1.0, q, n);
      Distributes(h, n - 1.0, 0.0);
      ProdOrder(n - 1.0, x, h);
      assert (|cs| - 1) as real == n - 1.0;
    } else {
      ProdOrder(q, 0.0, n);
      ProdOrder(x, 0.0, h);
    }
  }
}

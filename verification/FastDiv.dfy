/**
 * Approximate division by multiplying and shifting (util/fast_div.h). The
 * divisor is a real number; words are naturals with explicit wrap-around.
 */
module FastDiv {
  import opened Bits

  datatype FastDiv = FastDiv(mul: nat, shift: nat)

  /** `(uint32_t)log2(amt)`, for divisors of at least one. */
  function FloorLog2(amt: real): (k: nat)
    requires amt >= 1.0
    ensures Pow2(k) as real <= amt < 2.0 * Pow2(k) as real
    decreases amt.Floor
  {
    if amt < 2.0 then 0 else FloorLog2(amt / 2.0) + 1
  }

  function ShiftFor(amt: real, bits: nat): nat
    requires amt >= 1.0 && 1 <= bits <= 64
  {
    var most := 64 - bits;
    if most < 32 + FloorLog2(amt) then most else 32 + FloorLog2(amt)
  }

  /** The multiplier before it is cast to 32 bits. */
  function Multiplier(amt: real, bits: nat): (m: nat)
    requires amt >= 1.0 && 1 <= bits <= 64
    ensures m as real <= Pow2(ShiftFor(amt, bits)) as real / amt < m as real + 1.0
  {
    var q := Pow2(ShiftFor(amt, bits)) as real / amt;
    assert q >= 0.0 by { QuotientPositive(Pow2(ShiftFor(amt, bits)) as real, amt); }
    q.Floor
  }

  /** The cast of the multiplier to 32 bits: a value out of range may become any word. */
  predicate CastsTo(m: nat, word: nat) {
    word < U32 && (m < U32 ==> word == m)
  }

  /** What `fast_div(amt, required_bits)` may leave in its two fields. */
  predicate Made(amt: real, bits: nat, d: FastDiv)
    requires amt >= 1.0 && 1 <= bits <= 64
  {
    d.shift == ShiftFor(amt, bits) && CastsTo(Multiplier(amt, bits), d.mul)
  }

  /** `x / divisor`: a 64-bit product, shifted and cast to 32 bits. */
  function Divide(x: nat, d: FastDiv): (r: nat)
    ensures r < U32
  {
    Word(Shr(Mod(x * d.mul, U64), d.shift))
  }

  /** The same without wrap-around. */
  function Exact(x: nat, d: FastDiv): nat {
    Shr(x * d.mul, d.shift)
  }

  // ---------------------------------------------------------------- the multiplier

  lemma QuotientPositive(a: real, b: real)
    requires a >= 0.0 && b > 0.0
    ensures a / b >= 0.0
  {}

  lemma QuotientAtMost(a: real, b: real, c: real)
    requires b > 0.0
    ensures a / b <= c <==> a <= b * c
    ensures a / b < c <==> a < b * c
  {
    assert a == b * (a / b);
    ScaleOrder(a / b, c, b);
  }

  lemma ScaleOrder(x: real, y: real, b: real)
    requires b > 0.0
    ensures x <= y <==> b * x <= b * y
    ensures x < y <==> b * x < b * y
  {
    assert y * b - x * b == (y - x) * b;
    assert b * x == x * b && b * y == y * b;
  }

  /** The multiplier fits in 32 bits, except for an exact power of two with the largest shift. */
  lemma MultiplierFits(amt: real, bits: nat)
    requires amt >= 1.0 && 1 <= bits <= 64
    ensures
      var k := FloorLog2(amt);
      Multiplier(amt, bits) < U32 <==> !(amt == Pow2(k) as real && 32 + k <= 64 - bits)
    ensures Multiplier(amt, bits) <= U32
  {
    hide Pow2, FloorLog2, Multiplier;
    var k, s := FloorLog2(amt), ShiftFor(amt, bits);
    var p := Pow2(s) as real;
    ShiftReaches(s, k);
    QuotientAtMost(p, amt, U32 as real);
    assert amt * U32 as real >= U32 as real * Pow2(k) as real;
  }

  /** Against the shift that would give a full 32-bit multiplier. */
  lemma ShiftReaches(s: nat, k: nat)
    requires s <= 32 + k
    ensures Pow2(s) as real <= U32 as real * Pow2(k) as real
    ensures s < 32 + k ==> Pow2(s) as real < U32 as real * Pow2(k) as real
    ensures s == 32 + k ==> Pow2(s) as real == U32 as real * Pow2(k) as real
  {
    hide Pow2;
    Pow2Values();
    Pow2Add(32, k);
    RealProduct(U32, Pow2(k));
    Pow2Monotone(s, 32 + k);
    if s < 32 + k {
      Pow2Monotone(s, 31 + k);
      Pow2Next(31 + k);
    }
  }

  lemma Pow2Next(k: nat)
    ensures Pow2(k + 1) == 2 * Pow2(k)
  {}

  // ---------------------------------------------------------------- wrap-around

  /** Wrapping before the shift loses nothing of the low bits. */
  lemma {:induction false} ShrWraps(x: nat, s: nat, w: nat)
    ensures Shr(Mod(x, Pow2(s + w)), s) == Mod(Shr(x, s), Pow2(w))
  {
    hide Mod, Pow2;
    if s > 0 {
      Pow2Next(s - 1 + w);
      ModHalf(x, Pow2(s - 1 + w));
      ShrWraps(x / 2, s - 1, w);
      assert Mod(x, Pow2(s + w)) / 2 == Mod(x / 2, Pow2(s - 1 + w));
      ShrStep(Mod(x, Pow2(s + w)), s);
      ShrStep(x, s);
    }
  }

  lemma ShrStep(x: nat, s: nat)
    requires s > 0
    ensures Shr(x, s) == Shr(x / 2, s - 1)
  {}

  lemma Pow2Mod(j: nat, k: nat)
    requires j <= k
    ensures Mod(Pow2(k), Pow2(j)) == 0
  {
    Pow2IsPow2(j);
    Pow2IsPow2(k);
    Pow2Monotone(j, k);
    Pow2Divides(Pow2(j), Pow2(k));
  }

  /** The 64-bit wrap and the 32-bit cast keep exactly the low bits that both leave. */
  lemma DivideIs(x: nat, d: FastDiv)
    requires d.shift <= 64
    ensures Divide(x, d) == Mod(Exact(x, d), Pow2(if d.shift < 32 then 32 else 64 - d.shift))
  {
    var left := 64 - d.shift;
    Pow2Width();
    Pow2Values();
    hide Pow2, Mod, Shr;
    ShrWraps(x * d.mul, d.shift, left);
    if left >= 32 {
      Pow2Mod(32, left);
      ModOfMod(Exact(x, d), Pow2(left), U32);
    } else {
      Pow2Monotone(left, 32);
      WordOfMod(Exact(x, d), Pow2(left));
    }
  }

  lemma WordOfMod(x: nat, n: nat)
    requires 0 < n <= U32
    ensures Word(Mod(x, n)) == Mod(x, n)
  {}

  /** The required bits come out as if nothing had wrapped. */
  lemma LowBits(x: nat, d: FastDiv, bits: nat)
    requires bits <= 32 && d.shift <= 64 - bits
    ensures Mod(Divide(x, d), Pow2(bits)) == Mod(Exact(x, d), Pow2(bits))
  {
    DivideIs(x, d);
    hide Pow2, Mod, Shr, Exact;
    var left := if d.shift < 32 then 32 else 64 - d.shift;
    Pow2Mod(bits, left);
    ModOfMod(Exact(x, d), Pow2(left), Pow2(bits));
  }

  /** More than 32 required bits survive exactly when the product has no bit that the cast to 32 bits drops. */
  lemma HighBits(x: nat, d: FastDiv, bits: nat)
    requires 32 < bits && d.shift <= 64 - bits
    ensures
      Mod(Divide(x, d), Pow2(bits)) == Mod(Exact(x, d), Pow2(bits))
      <==> Mod(x * d.mul, Pow2(d.shift + bits)) < Pow2(d.shift + 32)
  {
    hide Pow2, Mod, Shr, Exact, Divide;
    DivideIs(x, d);
    Pow2Values();
    Pow2Mod(32, bits);
    Pow2Monotone(32, bits);
    var e := Exact(x, d);
    ModOfMod(e, Pow2(bits), U32);
    ModSmall(Mod(e, U32), Pow2(bits));
    if Mod(e, Pow2(bits)) < U32 { ModSmall(Mod(e, Pow2(bits)), U32); }
    ExactLow(x, d, bits);
    ShrBelow(Mod(x * d.mul, Pow2(d.shift + bits)), d.shift, 32);
  }

  lemma ExactLow(x: nat, d: FastDiv, bits: nat)
    ensures Mod(Exact(x, d), Pow2(bits)) == Shr(Mod(x * d.mul, Pow2(d.shift + bits)), d.shift)
  {
    hide Pow2, Mod, Shr;
    ShrWraps(x * d.mul, d.shift, bits);
  }

  lemma {:induction false} ShrBelow(x: nat, s: nat, w: nat)
    ensures Shr(x, s) < Pow2(w) <==> x < Pow2(s + w)
  {
    hide Pow2;
    if s > 0 {
      ShrBelow(x / 2, s - 1, w);
      Pow2Next(s - 1 + w);
    }
  }

  /** Dividing 2^32 by one with 40 required bits gives zero: bit 32 is cut by the cast. */
  lemma WideExample()
    ensures Made(1.0, 40, FastDiv(0x100_0000, 24))
    ensures Exact(U32, FastDiv(0x100_0000, 24)) == U32 && Divide(U32, FastDiv(0x100_0000, 24)) == 0
  {
    hide Pow2, Shr, Mod, Multiplier;
    var d := FastDiv(0x100_0000, 24);
    UnitLog();
    Pow2Values();
    Pow2Small();
    Pow2Add(16, 8);
    assert Pow2(24) as real / 1.0 == 16777216.0;
    ShlIsProduct(U32, 24);
    ShrOfShl(U32, 24);
    DivideIs(U32, d);
    ModPlus(0, U32);
    ModSmall(0, U32);
  }

  // ---------------------------------------------------------------- how approximate

  /** A right shift is the floor of a division. */
  lemma {:induction false} ShrFloor(x: nat, s: nat)
    ensures Shl(Shr(x, s), s) <= x < Shl(Shr(x, s) + 1, s)
  {
    if s > 0 { ShrFloor(x / 2, s - 1); }
  }

  lemma {:induction false} RealProduct(a: nat, b: nat)
    ensures (a * b) as real == a as real * b as real
  {
    if a > 0 {
      RealProduct(a - 1, b);
      assert a * b == (a - 1) * b + b;
      assert a as real * b as real == (a - 1) as real * b as real + b as real;
    }
  }

  /** Over the reals: multiplying by a truncated reciprocal is low by less than the given amount. */
  lemma Truncation(x: real, amt: real, p: real, m: real, q: real)
    requires x >= 0.0 && amt >= 1.0 && p > 0.0
    requires m <= p / amt <= m + 1.0
    requires p * q <= x * m < p * (q + 1.0)
    ensures x / amt - x / p - 1.0 < q <= x / amt
  {
    var r, y, z := p / amt, x / amt, x / p;
    assert p * z == x;
    CrossProducts(x, y, r, p, amt);
    var n, l := x * m, p * y;
    OrderedProducts(x, m, r, n, l);
    assert p * q <= n < p * (q + 1.0);
    ScaleOrder(q, y, p);
    BelowByScale(p, q, y, z, n);
  }

  lemma CrossProducts(x: real, y: real, r: real, p: real, amt: real)
    requires amt > 0.0 && r == p / amt && y == x / amt
    ensures x * r == p * y
  {
    assert y * amt == x && r * amt == p;
    assert (y * amt) * r == (r * amt) * y;
  }

  lemma OrderedProducts(x: real, m: real, r: real, n: real, l: real)
    requires x >= 0.0 && m <= r <= m + 1.0 && n == x * m && l == x * r
    ensures n <= l <= n + x
  {
    NonNegativeProduct(x, r - m);
    NonNegativeProduct(x, m + 1.0 - r);
    assert x * (r - m) == x * r - x * m;
    assert x * (m + 1.0 - r) == x * m + x - x * r;
  }

  lemma NonNegativeProduct(a: real, b: real)
    requires a >= 0.0 && b >= 0.0
    ensures a * b >= 0.0
  {}

  lemma BelowByScale(p: real, q: real, y: real, z: real, n: real)
    requires p > 0.0 && p * y - p * z <= n < p * (q + 1.0)
    ensures y - z - 1.0 < q
  {
    assert p * (y - z) == p * y - p * z;
    ScaleOrder(y - z, q + 1.0, p);
  }

  /** A multiplier next to 2^shift / amt never gives more than x / amt, and less by no more than the given amount. */
  lemma Accuracy(x: nat, amt: real, d: FastDiv)
    requires amt >= 1.0 && d.mul as real <= Pow2(d.shift) as real / amt <= d.mul as real + 1.0
    ensures Close(x, amt, d)
  {
    hide Pow2, Shr, Shl;
    var q, p := Exact(x, d), Pow2(d.shift);
    ShrFloor(x * d.mul, d.shift);
    ShlIsProduct(q, d.shift);
    ShlIsProduct(q + 1, d.shift);
    RealProduct(p, q);
    RealProduct(p, q + 1);
    RealProduct(x, d.mul);
    Truncation(x as real, amt, p as real, d.mul as real, q as real);
  }

  /** The unwrapped result never exceeds the true quotient and is short by less than x / 2^shift + 1. */
  ghost predicate Close(x: nat, amt: real, d: FastDiv)
    requires amt >= 1.0
  {
    var q, p := Exact(x, d) as real, Pow2(d.shift) as real;
    x as real / amt - x as real / p - 1.0 < q <= x as real / amt
  }

  /** What a caller is promised: the required low bits of a close quotient. */
  ghost predicate Promised(x: nat, amt: real, bits: nat, d: FastDiv)
    requires amt >= 1.0
  {
    Mod(Divide(x, d), Pow2(bits)) == Mod(Exact(x, d), Pow2(bits)) && Close(x, amt, d)
  }

  /** No larger shift keeps both the required bits and a 32-bit multiplier. */
  lemma ShiftIsLargest(amt: real, bits: nat, s: nat)
    requires amt >= 1.0 && 1 <= bits <= 64 && ShiftFor(amt, bits) < s <= 64 - bits
    ensures Pow2(s) as real / amt > U32 as real
  {
    hide Pow2, FloorLog2;
    var k := FloorLog2(amt);
    Pow2Monotone(33 + k, s);
    Pow2Next(32 + k);
    ShiftReaches(32 + k, k);
    QuotientAtMost(Pow2(s) as real, amt, U32 as real);
    assert amt * U32 as real < U32 as real * (2.0 * Pow2(k) as real);
  }

  /** An exact power of two whose multiplier would be 2^32. */
  predicate Overflows(amt: real, bits: nat)
    requires amt >= 1.0 && 1 <= bits <= 64
  {
    var k := FloorLog2(amt);
    amt == Pow2(k) as real && 32 + k <= 64 - bits
  }

  /** A multiplier that fits keeps the promise. */
  lemma FittingKeeps(x: nat, amt: real, bits: nat, d: FastDiv)
    requires amt >= 1.0 && 1 <= bits <= 32 && !Overflows(amt, bits) && Made(amt, bits, d)
    ensures Promised(x, amt, bits, d)
  {
    hide Pow2, Mod, Divide, Exact, Multiplier, FloorLog2, Close;
    MultiplierFits(amt, bits);
    LowBits(x, d, bits);
    Accuracy(x, amt, d);
  }

  /** For an exact power of two the promise depends on what the cast makes of 2^32: only 2^32 - 1 keeps it. */
  lemma PowerOfTwoExactly(amt: real, bits: nat, mul: nat)
    requires amt >= 1.0 && 1 <= bits <= 32 && Overflows(amt, bits) && mul < U32
    ensures Made(amt, bits, FastDiv(mul, ShiftFor(amt, bits)))
    ensures (forall x: nat | x < U64 :: Promised(x, amt, bits, FastDiv(mul, ShiftFor(amt, bits)))) <==> mul == U32 - 1
  {
    hide Pow2, Mod, Divide, Exact, Multiplier, FloorLog2, Close;
    var k := FloorLog2(amt);
    var d := FastDiv(mul, 32 + k);
    MultiplierFits(amt, bits);
    OverflowQuotient(amt, k);
    if mul == U32 - 1 {
      forall x: nat | x < U64 ensures Promised(x, amt, bits, d) {
        LowBits(x, d, bits);
        Accuracy(x, amt, d);
      }
    } else {
      Pow2Width();
      Pow2Monotone(33 + k, 64);
      Pow2Next(32 + k);
      FarOff(amt, d, k);
      assert !Promised(Pow2(32 + k), amt, bits, d);
    }
  }

  lemma OverflowQuotient(amt: real, k: nat)
    requires amt == Pow2(k) as real && amt >= 1.0
    ensures Pow2(32 + k) as real / amt == U32 as real
  {
    hide Pow2;
    ShiftReaches(32 + k, k);
    assert Pow2(32 + k) as real == U32 as real * amt;
  }

  /** At x = 2^shift a multiplier below 2^32 - 1 is short by two or more. */
  lemma FarOff(amt: real, d: FastDiv, k: nat)
    requires amt >= 1.0 && amt == Pow2(k) as real && d.shift == 32 + k && d.mul < U32 - 1
    ensures !Close(Pow2(d.shift), amt, d)
  {
    hide Pow2, Exact;
    OverflowQuotient(amt, k);
    ExactAtPower(d);
    SelfQuotient(Pow2(d.shift) as real);
  }

  lemma ExactAtPower(d: FastDiv)
    ensures Exact(Pow2(d.shift), d) == d.mul
  {
    hide Pow2, Shr, Shl;
    ShlIsProduct(d.mul, d.shift);
    ShrOfShl(d.mul, d.shift);
  }

  lemma SelfQuotient(p: real)
    requires p > 0.0
    ensures p / p == 1.0
  {}

  lemma {:induction false} ShrOfShl(x: nat, s: nat)
    ensures Shr(Shl(x, s), s) == x
  {
    if s > 0 { ShrOfShl(x, s - 1); }
  }

  /**
   * Whatever the compiler makes of a cast out of range: every division by `amt`
   * is as promised, exactly when `amt` is not a power of two with the largest shift.
   */
  lemma DividesExactly(amt: real, bits: nat)
    requires amt >= 1.0 && 1 <= bits <= 32
    ensures
      (forall d: FastDiv, x: nat | Made(amt, bits, d) && x < U64 :: Promised(x, amt, bits, d))
      <==> !Overflows(amt, bits)
  {
    hide Promised, Made, Overflows;
    if Overflows(amt, bits) {
      PowerOfTwoExactly(amt, bits, 0);
    } else {
      forall d: FastDiv, x: nat | Made(amt, bits, d) && x < U64 ensures Promised(x, amt, bits, d) {
        FittingKeeps(x, amt, bits, d);
      }
    }
  }

  lemma UnitLog()
    ensures FloorLog2(1.0) == 0 && Pow2(0) == 1
  {}

  /**
   * Dividing by one and asking for 16 bits: the multiplier needs 33 bits, and a cast to
   * zero makes every result zero.
   */
  lemma UnitDivisor(x: nat)
    ensures Multiplier(1.0, 16) == U32 && Made(1.0, 16, FastDiv(0, 32)) && Divide(x, FastDiv(0, 32)) == 0
  {
    hide Pow2, Multiplier, FloorLog2;
    UnitLog();
    MultiplierFits(1.0, 16);
    ShrOfShl(0, 32);
    ShlZero(32);
  }

  lemma {:induction false} ShlZero(s: nat)
    ensures Shl(0, s) == 0
  {
    if s > 0 { ShlZero(s - 1); }
  }
}

/**
 * Machine words as naturals.
 *
 * Every fixed-width operation of the modelled code is written out: sums and
 * differences are reduced modulo the width, and `&`, `|` and `& ~` are the
 * bitwise functions below, defined on naturals of any width. Remainders by a
 * variable power of two go through `Mod`, and the lemmas turn masks into them.
 */
module Bits {

  const U16 := 0x1_0000
  const U32 := 0x1_0000_0000
  const U64 := 0x1_0000_0000_0000_0000

  type Byte = x: nat | x < 0x100

  function Pow2(k: nat): (r: nat)
    ensures r > 0
  {
    if k == 0 then 1 else 2 * Pow2(k - 1)
  }

  /** Bitwise and. */
  function And(x: nat, y: nat): (r: nat)
    ensures r <= x && r <= y
  {
    if x == 0 || y == 0 then 0
    else (if x % 2 == 1 && y % 2 == 1 then 1 else 0) + 2 * And(x / 2, y / 2)
  }

  /** Bitwise or. */
  function Or(x: nat, y: nat): (r: nat)
    ensures x <= r && y <= r
  {
    if x == 0 then y else if y == 0 then x
    else (if x % 2 == 1 || y % 2 == 1 then 1 else 0) + 2 * Or(x / 2, y / 2)
  }

  /** `x & ~m`: the bits of `x` outside the mask. */
  function AndNot(x: nat, m: nat): (r: nat)
    ensures r <= x
  {
    x - And(x, m)
  }

  /** `x >> s`. */
  function Shr(x: nat, s: nat): nat {
    if s == 0 then x else Shr(x / 2, s - 1)
  }

  /** `x << s`, in unbounded width. */
  function Shl(x: nat, s: nat): nat {
    if s == 0 then x else 2 * Shl(x, s - 1)
  }

  /** The remainder of `x` by `n`, by repeated subtraction; ModIsRemainder relates it to `%`. */
  function Mod(x: int, n: nat): (r: nat)
    requires n > 0
    ensures r < n
    ensures 0 <= x < n ==> r == x
    ensures x >= 0 ==> r <= x
    decreases if x < 0 then n - x else x
  {
    if x < 0 then Mod(x + n, n) else if x < n then x else Mod(x - n, n)
  }

  /** A 32-bit word: arithmetic wraps. */
  function Word(x: int): (r: nat)
    ensures r < U32
    ensures 0 <= x < U32 ==> r == x
  {
    Mod(x, U32)
  }

  /** Powers of two, by repeated halving. */
  predicate IsPow2(n: nat) {
    n == 1 || (n > 1 && n % 2 == 0 && IsPow2(n / 2))
  }

  // ---------------------------------------------------------------- remainders

  lemma {:induction false} ModIsRemainder(x: int, n: nat)
    requires n > 0
    ensures Mod(x, n) == x % n
    decreases if x < 0 then n - x else x
  {
    if x < 0 {
      ModIsRemainder(x + n, n);
      RemainderShift(x + n, n);
    } else if x >= n {
      ModIsRemainder(x - n, n);
      RemainderShift(x, n);
    }
  }

  lemma RemainderShift(x: int, n: int)
    requires n > 0
    ensures (x - n) % n == x % n
  {
    var d := x / n - 1 - (x - n) / n;
    assert n * d == (x - n) % n - x % n;
    assert d >= 1 ==> n * d >= n;
    assert d <= -1 ==> n * d <= -n;
  }

  lemma ModSmall(x: nat, n: nat)
    requires x < n
    ensures Mod(x, n) == x
  {}

  lemma ModPlus(x: int, n: nat)
    requires n > 0
    ensures Mod(x + n, n) == Mod(x, n)
  {}

  /** Remainders of a sum depend on the remainder of a summand only. */
  lemma {:induction false} ModAdd(x: int, y: int, n: nat)
    requires n > 0
    ensures Mod(Mod(x, n) + y, n) == Mod(x + y, n)
    decreases if x < 0 then n - x else x
  {
    if x < 0 {
      ModAdd(x + n, y, n);
      ModPlus(x + y, n);
    } else if x >= n {
      ModAdd(x - n, y, n);
      ModPlus(x - n + y, n);
    }
  }

  /** Within one block remainders add up. */
  lemma ModWithin(x: int, n: nat, k: int)
    requires n > 0 && 0 <= Mod(x, n) + k < n
    ensures Mod(x + k, n) == Mod(x, n) + k
  {
    ModAdd(x, k, n);
  }

  /** Two numbers less than `n` apart have different remainders. */
  lemma ModDistinct(x: int, y: int, n: nat)
    requires n > 0 && x < y < x + n
    ensures Mod(x, n) != Mod(y, n)
  {
    ModAdd(x, y - x, n);
  }

  lemma {:induction false} ModDouble(x: int, n: nat)
    requires n > 0
    ensures Mod(2 * x, 2 * n) == 2 * Mod(x, n)
    decreases if x < 0 then n - x else x
  {
    if x < 0 { ModDouble(x + n, n); } else if x >= n { ModDouble(x - n, n); }
  }

  lemma ModHalf(x: nat, n: nat)
    requires n > 0
    ensures Mod(x, 2 * n) == x % 2 + 2 * Mod(x / 2, n)
  {
    ModDouble(x / 2, n);
    ModWithin(2 * (x / 2), 2 * n, x % 2);
  }

  /** Reducing by a multiple of `n` first does not change the remainder by `n`. */
  lemma {:induction false} ModOfMod(x: nat, m: nat, n: nat)
    requires n > 0 && m > 0 && Mod(m, n) == 0
    ensures Mod(Mod(x, m), n) == Mod(x, n)
  {
    if x >= m {
      ModOfMod(x - m, m, n);
      ModAdd(m, x - m, n);
    }
  }

  lemma ModOfWord(x: nat, n: nat)
    requires n > 0 && Mod(U32, n) == 0
    ensures Mod(Word(x), n) == Mod(x, n)
  {
    ModOfMod(x, U32, n);
  }

  /** Differences of words are exact as long as the unbounded difference fits in a word. */
  lemma WordDiff(x: int, y: int, k: int)
    requires 0 <= x + k - y < U32
    ensures Word(Word(x) + k - Word(y)) == x + k - y
  {
    hide Mod;
    ModAdd(x, k - Word(y), U32);
    ModSub(x + k, y, U32);
  }

  lemma ModSub(x: int, y: int, n: nat)
    requires n > 0
    ensures Mod(x - Mod(y, n), n) == Mod(x - y, n)
    decreases if y < 0 then n - y else y
  {
    if y < 0 {
      ModSub(x, y + n, n);
      ModPlus(x - y - n, n);
    } else if y >= n {
      ModSub(x, y - n, n);
      ModPlus(x - y, n);
    }
  }

  // ---------------------------------------------------------------- powers of two

  lemma {:induction false} IsPow2Exponent(n: nat) returns (k: nat)
    requires IsPow2(n)
    ensures n == Pow2(k)
  {
    if n == 1 {
      k := 0;
    } else {
      k := IsPow2Exponent(n / 2);
      k := k + 1;
    }
  }

  lemma {:induction false} Pow2IsPow2(k: nat)
    ensures IsPow2(Pow2(k))
  {
    if k > 0 { Pow2IsPow2(k - 1); }
  }

  lemma {:induction false} Pow2Add(j: nat, k: nat)
    ensures Pow2(j + k) == Pow2(j) * Pow2(k)
  {
    if j > 0 {
      Pow2Add(j - 1, k);
      MulDouble(Pow2(j - 1), Pow2(k));
    }
  }

  lemma MulDouble(a: nat, b: nat)
    ensures (2 * a) * b == 2 * (a * b)
  {}

  lemma {:induction false} Pow2Monotone(j: nat, k: nat)
    requires j <= k
    ensures Pow2(j) <= Pow2(k)
  {
    if j < k { Pow2Monotone(j, k - 1); }
  }

  lemma Pow2Small()
    ensures Pow2(3) == 8 && Pow2(6) == 64 && Pow2(8) == 256
  {
    assert Pow2(2) == 4;
    assert Pow2(4) == 16;
    assert Pow2(6) == 64;
  }

  lemma Pow2Values()
    ensures Pow2(15) == 0x8000 && Pow2(16) == U16
    ensures Pow2(30) == 0x4000_0000 && Pow2(31) == 0x8000_0000 && Pow2(32) == U32
  {
    Pow2Small();
    assert Pow2(10) == 0x400;
    assert Pow2(12) == 0x1000;
    assert Pow2(14) == 0x4000;
    Pow2Add(16, 14);
  }

  lemma Pow2Width()
    ensures Pow2(64) == U64
  {
    Pow2Values();
    Pow2Add(32, 32);
  }

  /** Of two powers of two the smaller divides the larger. */
  lemma {:induction false} Pow2Divides(n: nat, m: nat)
    requires IsPow2(n) && IsPow2(m) && n <= m
    ensures Mod(m, n) == 0
  {
    if n > 1 {
      Pow2Divides(n / 2, m / 2);
      ModDouble(m / 2, n / 2);
    }
  }

  lemma DividesWord(n: nat)
    requires IsPow2(n) && n <= U32
    ensures Mod(U32, n) == 0
  {
    Pow2Values();
    Pow2IsPow2(32);
    Pow2Divides(n, U32);
  }

  /** The only power of two above 2^30 in 32 bits. */
  lemma Pow2Largest(n: nat)
    requires IsPow2(n) && 0x4000_0000 < n < U32
    ensures n == 0x8000_0000
  {
    var k := IsPow2Exponent(n);
    Pow2Values();
    if k <= 30 { Pow2Monotone(k, 30); } else if k >= 32 { Pow2Monotone(32, k); }
  }

  // ---------------------------------------------------------------- masks

  /** Masking with `n - 1` is the remainder modulo the power of two `n`. */
  lemma {:induction false} AndMask(x: nat, n: nat)
    requires IsPow2(n)
    ensures And(x, n - 1) == Mod(x, n)
  {
    if n > 1 && x > 0 {
      AndMask(x / 2, n / 2);
      ModHalf(x, n / 2);
    }
  }

  lemma {:induction false} AndSelf(x: nat)
    ensures And(x, x) == x
  {
    if x > 0 { AndSelf(x / 2); }
  }

  /** `n & (n - 1)` is zero exactly for the powers of two. */
  lemma {:induction false} AndPred(n: nat)
    requires n > 0
    ensures And(n, n - 1) == 0 <==> IsPow2(n)
  {
    if n > 1 {
      if n % 2 == 1 {
        AndSelf(n / 2);
      } else {
        AndPred(n / 2);
      }
    }
  }

  /** A left shift is a product with a power of two. */
  lemma {:induction false} ShlIsProduct(x: nat, s: nat)
    ensures Shl(x, s) == Pow2(s) * x
  {
    if s > 0 {
      ShlIsProduct(x, s - 1);
      assert Pow2(s) * x == 2 * (Pow2(s - 1) * x);
    }
  }
}

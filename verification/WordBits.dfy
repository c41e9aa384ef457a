/**
 * Single bits of a word, for the bitmap: setting, clearing, clearing the lowest
 * set bit with `w & (w - 1)`, and counting trailing zeros.
 */
module WordBits {
  import opened Bits

  predicate Bit(w: nat, i: nat) {
    if i == 0 then w % 2 == 1 else Bit(w / 2, i - 1)
  }

  /** `__builtin_ctzll`. */
  function Ctz(w: nat): nat
    requires w > 0
  {
    if w % 2 == 1 then 0 else 1 + Ctz(w / 2)
  }

  lemma {:induction false} ZeroBits(i: nat)
    ensures !Bit(0, i)
  {
    if i > 0 { ZeroBits(i - 1); }
  }

  lemma {:induction false} BitBelow(w: nat, n: nat, i: nat)
    requires w < Pow2(n) && Bit(w, i)
    ensures i < n
  {
    if n == 0 { ZeroBits(i); } else if i > 0 { BitBelow(w / 2, n - 1, i - 1); }
  }

  /** The lowest set bit. */
  lemma {:induction false} CtzIsLowest(w: nat)
    requires w > 0
    ensures Bit(w, Ctz(w))
    ensures forall j :: 0 <= j < Ctz(w) ==> !Bit(w, j)
  {
    if w % 2 == 0 { CtzIsLowest(w / 2); }
  }

  lemma {:induction false} BitOfPow2(i: nat, j: nat)
    ensures Bit(Pow2(i), j) <==> i == j
  {
    if i == 0 {
      if j > 0 { ZeroBits(j - 1); }
    } else if j > 0 {
      BitOfPow2(i - 1, j - 1);
    }
  }

  /** `w | (1 << i)` sets bit `i` and no other. */
  lemma {:induction false} SetBit(w: nat, i: nat, j: nat)
    ensures Bit(Or(w, Pow2(i)), j) <==> Bit(w, j) || i == j
  {
    if w == 0 {
      BitOfPow2(i, j);
      ZeroBits(j);
    } else if j > 0 {
      if i == 0 {
        assert Or(w / 2, 0) == w / 2;
      } else {
        SetBit(w / 2, i - 1, j - 1);
      }
    }
  }

  lemma {:induction false} SetBitFits(w: nat, i: nat, n: nat)
    requires w < Pow2(n) && i < n
    ensures Or(w, Pow2(i)) < Pow2(n)
  {
    if w == 0 {
      Pow2Monotone(i + 1, n);
    } else if i > 0 {
      SetBitFits(w / 2, i - 1, n - 1);
    } else {
      assert Or(w / 2, 0) == w / 2;
    }
  }

  lemma {:induction false} AndPow2(w: nat, i: nat)
    ensures And(w, Pow2(i)) == if Bit(w, i) then Pow2(i) else 0
  {
    if w == 0 { ZeroBits(i); } else if i > 0 { AndPow2(w / 2, i - 1); } else { assert And(w / 2, 0) == 0; }
  }

  /** `w & ~(1 << i)` clears bit `i` and no other. */
  lemma {:induction false} ClearBit(w: nat, i: nat, j: nat)
    ensures Bit(AndNot(w, Pow2(i)), j) <==> Bit(w, j) && i != j
  {
    AndPow2(w, i);
    if Bit(w, i) { SubtractBit(w, i, j); }
  }

  lemma {:induction false} SubtractBit(w: nat, i: nat, j: nat)
    requires Bit(w, i)
    ensures Pow2(i) <= w
    ensures Bit(w - Pow2(i), j) <==> Bit(w, j) && i != j
  {
    if i > 0 {
      SubtractBit(w / 2, i - 1, if j > 0 then j - 1 else 0);
      assert w - Pow2(i) == 2 * (w / 2 - Pow2(i - 1)) + w % 2;
    } else if j > 0 {
      assert (w - 1) / 2 == w / 2;
    }
  }

  /** `w & (w - 1)` clears the lowest set bit and no other. */
  lemma {:induction false} ClearLowest(w: nat, j: nat)
    requires w > 0
    ensures Bit(And(w, w - 1), j) <==> Bit(w, j) && j != Ctz(w)
  {
    if w == 1 {
      ZeroBits(j);
      if j > 0 { ZeroBits(j - 1); }
    } else if w % 2 == 1 {
      AndSelf(w / 2);
      assert (w - 1) / 2 == w / 2;
    } else {
      assert (w - 1) / 2 == w / 2 - 1;
      if j > 0 { ClearLowest(w / 2, j - 1); }
    }
  }

  /** A non-zero word has a set bit. */
  lemma NonZeroHasBit(w: nat, n: nat)
    requires 0 < w < Pow2(n)
    ensures Ctz(w) < n && Bit(w, Ctz(w))
  {
    CtzIsLowest(w);
    BitBelow(w, n, Ctz(w));
  }

  // ---------------------------------------------------------------- bits of the word operations

  lemma {:induction false} OrBit(x: nat, y: nat, i: nat)
    ensures Bit(Or(x, y), i) <==> Bit(x, i) || Bit(y, i)
  {
    if x == 0 || y == 0 { ZeroBits(i); } else if i > 0 { OrBit(x / 2, y / 2, i - 1); }
  }

  lemma {:induction false} ShrBit(x: nat, s: nat, i: nat)
    ensures Bit(Shr(x, s), i) <==> Bit(x, i + s)
  {
    if s > 0 { ShrBit(x / 2, s - 1, i); }
  }

  lemma {:induction false} ShlBit(x: nat, s: nat, i: nat)
    ensures Bit(Shl(x, s), i) <==> i >= s && Bit(x, i - s)
  {
    if s > 0 && i > 0 { ShlBit(x, s - 1, i - 1); }
  }

  lemma {:induction false} ModBit(x: nat, n: nat, i: nat)
    ensures Bit(Mod(x, Pow2(n)), i) <==> i < n && Bit(x, i)
  {
    hide Mod;
    if n == 0 {
      assert Mod(x, 1) < 1;
      ZeroBits(i);
    } else {
      ModHalf(x, Pow2(n - 1));
      if i > 0 { ModBit(x / 2, n - 1, i - 1); }
    }
  }
}

/**
 * Choosing a histogram bin without branches (util/histogram.h).
 */
module Histogram {
  import opened Bits

  const INT_MAX: int := 0x7FFF_FFFF

  function Clamp(x: int, lo: int, hi: int): int {
    if x < lo then lo else if x > hi then hi else x
  }

  /** `x >> 31` of a 32-bit integer that wraps around, as an unsigned word: all ones when negative. */
  function SignMask(x: int): nat {
    if Word(x) > INT_MAX then U32 - 1 else 0
  }

  /** `histogram_bin`. */
  function Bin(bins: nat, item: int): nat
    requires 0 < bins <= 0x8000_0000 && -INT_MAX - 1 <= item <= INT_MAX
  {
    var mask := bins - 1;
    var overflow := SignMask(mask - item);
    var negative := SignMask(item);
    var clasped := Or(And(Word(item), U32 - 1 - negative), overflow);
    And(clasped, mask)
  }

  lemma SignMaskIs(x: int)
    requires -INT_MAX - 1 <= x < U32
    ensures SignMask(x) == if 0 <= x <= INT_MAX then 0 else U32 - 1
  {
    if x < 0 { ModPlus(x, U32); ModSmall(x + U32, U32); } else { ModSmall(x, U32); }
  }

  lemma {:induction false} OrOnes(x: nat, n: nat)
    requires IsPow2(n) && x < n
    ensures Or(x, n - 1) == n - 1
  {
    if n > 1 && x > 0 { OrOnes(x / 2, n / 2); }
  }

  lemma {:induction false} OnesModPow2(n: nat, m: nat)
    requires IsPow2(n) && IsPow2(m) && n <= m
    ensures Mod(m - 1, n) == n - 1
  {
    Pow2Divides(n, m);
    ModSub(m - 1, m, n);
    ModAdd(m, -1, n);
    ModPlus(-1, n);
  }

  /**
   * The masks clamp the item to the bins exactly when the subtraction does not
   * overflow, or there is one bin: a more negative item lands in the last bin.
   */
  lemma BinClamps(bins: nat, item: int)
    requires IsPow2(bins) && bins <= 0x8000_0000 && -INT_MAX - 1 <= item <= INT_MAX
    ensures Bin(bins, item) == Clamp(item, 0, bins - 1) <==> bins == 1 || bins - 1 - item <= INT_MAX
  {
    hide And, Or, Mod, IsPow2, SignMask;
    Pow2Values();
    Pow2IsPow2(32);
    SignMaskIs(item);
    SignMaskIs(bins - 1 - item);
    var overflow := SignMask(bins - 1 - item);
    var kept := And(Word(item), U32 - 1 - SignMask(item));
    if item < 0 {
      AndZero(Word(item));
    } else {
      AndMask(Word(item), U32);
      ModSmall(item, U32);
    }
    assert kept == if item < 0 then 0 else item;
    if overflow == 0 { OrZero(kept); } else { OrOnes(kept, U32); }
    AndMask(Or(kept, overflow), bins);
    if overflow == 0 { ModSmall(kept, bins); } else { OnesModPow2(bins, U32); }
  }

  /** The smallest item with two bins: the subtraction wraps, and it lands in the last bin. */
  lemma LastBinExample()
    ensures Bin(2, -INT_MAX - 1) == 1 && Clamp(-INT_MAX - 1, 0, 1) == 0
  {
    hide Mod, Or;
    var item := -INT_MAX - 1;
    SignMaskIs(item);
    SignMaskIs(1 - item);
    AndZero(Word(item));
    Pow2Values();
    Pow2IsPow2(32);
    OrOnes(0, U32);
    assert IsPow2(2);
    AndMask(U32 - 1, 2);
    OnesModPow2(2, U32);
  }

  lemma AndZero(x: nat)
    ensures And(x, 0) == 0
  {}

  lemma OrZero(x: nat)
    ensures Or(x, 0) == x
  {}
}

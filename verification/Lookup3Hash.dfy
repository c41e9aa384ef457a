/**
 * The hash functions of util/lookup3.c over memory, and the reference they
 * share.
 */
module Lookup3Hash {
  import opened Bits
  import opened LittleEndian
  import opened Lookup3

  const GOLDEN: Word32 := 0xdead_beef

  // ---------------------------------------------------------------- the reference

  /** A byte of the key, zero past its end. */
  function ByteAt(key: seq<Byte>, i: nat): Byte {
    if i < |key| then key[i] else 0
  }

  function WordAt(key: seq<Byte>, i: nat): Word32 {
    Le(ByteAt(key, i), ByteAt(key, i + 1), ByteAt(key, i + 2), ByteAt(key, i + 3))
  }

  /** Add the first twelve bytes, or what there is, to the state. */
  function Absorb(s: Abc, key: seq<Byte>): Abc {
    Abc(Add(s.a, WordAt(key, 0)), Add(s.b, WordAt(key, 4)), Add(s.c, WordAt(key, 8)))
  }

  /** The hash of a key: twelve bytes at a time, the last block mixed more thoroughly, an empty key not at all. */
  function HashKey(key: seq<Byte>, s: Abc): Abc
    decreases |key|
  {
    if |key| > 12 then HashKey(key[12..], Mix(Absorb(s, key)))
    else if key == [] then s
    else Final(Absorb(s, key))
  }

  /** The state before the first byte. */
  function Start(length: nat, pc: Word32, pb: Word32): Abc {
    var x := Add(Add(GOLDEN, Word(length)), pc);
    Abc(x, x, Add(x, pb))
  }

  // ---------------------------------------------------------------- memory

  /** A 16-bit read on a little-endian machine. */
  function Load16(buf: seq<Byte>, o: nat): (r: nat)
    requires o + 2 <= |buf|
    ensures r == Le(buf[o], buf[o + 1], 0, 0)
  {
    Word16(buf, o)
  }

  /** A 32-bit read on a little-endian machine. */
  function Load32(buf: seq<Byte>, o: nat): Word32
    requires o + 4 <= |buf|
  {
    Le(buf[o], buf[o + 1], buf[o + 2], buf[o + 3])
  }

  /** Two 16-bit reads put together: `k[0] + (((uint32_t)k[1]) << 16)`. */
  function Pair16(buf: seq<Byte>, o: nat): (r: Word32)
    requires o + 4 <= |buf|
    ensures r == Load32(buf, o)
  {
    Load16(buf, o) + 0x1_0000 * Load16(buf, o + 2)
  }

  /** The end of the aligned word that holds the last byte. */
  function WordEnd(length: nat): (r: nat)
    ensures r % 4 == 0 && length <= r < length + 4
  {
    (length + 3) / 4 * 4
  }

  lemma {:induction false} ModBlocks(r: nat, q: nat, n: nat, x: nat)
    requires r < n && x == r + n * q
    ensures Mod(x, n) == r
  {
    if q > 0 {
      assert n * q == n * (q - 1) + n;
      ModBlocks(r, q - 1, n, x - n);
      ModPlus(x - n, n);
    }
  }

  lemma MaskLow(r: nat, q: nat, k: nat, x: nat)
    requires r < Pow2(k) && x == r + Pow2(k) * q
    ensures And(x, Pow2(k) - 1) == r
  {
    hide And, Mod, IsPow2, Pow2;
    Pow2IsPow2(k);
    AndMask(x, Pow2(k));
    ModBlocks(r, q, Pow2(k), x);
  }

  /** Masking a read keeps its low bytes. */
  lemma Masked(b0: Byte, b1: Byte, b2: Byte, b3: Byte)
    ensures And(Le(b0, b1, b2, b3), 0xff) == Le(b0, 0, 0, 0)
    ensures And(Le(b0, b1, b2, b3), 0xffff) == Le(b0, b1, 0, 0)
    ensures And(Le(b0, b1, b2, b3), 0xff_ffff) == Le(b0, b1, b2, 0)
  {
    hide And, Pow2;
    Pow2Small();
    Pow2Values();
    Pow2Add(16, 8);
    var w := Le(b0, b1, b2, b3);
    MaskLow(b0, b1 as int + 0x100 * b2 as int + 0x1_0000 * b3 as int, 8, w);
    MaskLow(Le(b0, b1, 0, 0), b2 as int + 0x100 * b3 as int, 16, w);
    MaskLow(Le(b0, b1, b2, 0), b3, 24, w);
  }

  /** All masks of the read at `o`. */
  lemma MaskedAt(buf: seq<Byte>, o: nat)
    requires o + 4 <= |buf|
    ensures And(Load32(buf, o), 0xff) == Le(buf[o], 0, 0, 0)
    ensures And(Load32(buf, o), 0xffff) == Le(buf[o], buf[o + 1], 0, 0)
    ensures And(Load32(buf, o), 0xff_ffff) == Le(buf[o], buf[o + 1], buf[o + 2], 0)
  {
    hide And, Le;
    Masked(buf[o], buf[o + 1], buf[o + 2], buf[o + 3]);
  }

  lemma AddTwice(x: Word32, y: nat, z: nat)
    ensures Add(Add(x, y), z) == Add(x, y + z)
  {
    hide Mod;
    ModAdd(x + y, z, U32);
  }

  // ---------------------------------------------------------------- the last block

  /** The last block by aligned 32-bit reads; bytes past the key are masked off. */
  method Last32(buf: seq<Byte>, o: nat, left: nat, s: Abc) returns (r: Abc)
    requires 0 < left <= 12 && o + WordEnd(left) <= |buf|
    ensures r == Absorb(s, buf[o..o + left])
  {
    hide Add, And, Le;
    LeNone();
    AddNothing(s.b);
    AddNothing(s.c);
    if left >= 9 {
      MaskedAt(buf, o + 8);
    } else if 5 <= left < 8 {
      MaskedAt(buf, o + 4);
    } else if left < 4 {
      MaskedAt(buf, o);
    }
    var a, b, c := s.a, s.b, s.c;
    if left == 12 {
      c := Add(c, Load32(buf, o + 8));
      b := Add(b, Load32(buf, o + 4));
      a := Add(a, Load32(buf, o));
    } else if left == 11 {
      c := Add(c, And(Load32(buf, o + 8), 0xff_ffff));
      b := Add(b, Load32(buf, o + 4));
      a := Add(a, Load32(buf, o));
    } else if left == 10 {
      c := Add(c, And(Load32(buf, o + 8), 0xffff));
      b := Add(b, Load32(buf, o + 4));
      a := Add(a, Load32(buf, o));
    } else if left == 9 {
      c := Add(c, And(Load32(buf, o + 8), 0xff));
      b := Add(b, Load32(buf, o + 4));
      a := Add(a, Load32(buf, o));
    } else if left == 8 {
      b := Add(b, Load32(buf, o + 4));
      a := Add(a, Load32(buf, o));
    } else if left == 7 {
      b := Add(b, And(Load32(buf, o + 4), 0xff_ffff));
      a := Add(a, Load32(buf, o));
    } else if left == 6 {
      b := Add(b, And(Load32(buf, o + 4), 0xffff));
      a := Add(a, Load32(buf, o));
    } else if left == 5 {
      b := Add(b, And(Load32(buf, o + 4), 0xff));
      a := Add(a, Load32(buf, o));
    } else if left == 4 {
      a := Add(a, Load32(buf, o));
    } else if left == 3 {
      a := Add(a, And(Load32(buf, o), 0xff_ffff));
    } else if left == 2 {
      a := Add(a, And(Load32(buf, o), 0xffff));
    } else {
      a := Add(a, And(Load32(buf, o), 0xff));
    }
    r := Abc(a, b, c);
  }

  lemma LeNone()
    ensures Le(0, 0, 0, 0) == 0
  {}

  lemma AddNothing(x: Word32)
    ensures Add(x, 0) == x
  {}

  lemma LeParts(b0: Byte, b1: Byte, b2: Byte)
    ensures Le(b0, 0, 0, 0) == b0
    ensures 0x1_0000 * b2 as int + Le(b0, b1, 0, 0) == Le(b0, b1, b2, 0)
  {}

  /** An odd byte above a 16-bit read. */
  lemma AddOdd(x: Word32, b0: Byte, b1: Byte, b2: Byte)
    ensures Add(Add(x, 0x1_0000 * b2 as int), Le(b0, b1, 0, 0)) == Add(x, Le(b0, b1, b2, 0))
    ensures Add(x, b0) == Add(x, Le(b0, 0, 0, 0))
  {
    hide Add;
    LeParts(b0, b1, b2);
    AddTwice(x, 0x1_0000 * b2 as int, Le(b0, b1, 0, 0));
  }

  /** The last block by 16-bit reads, with single bytes at odd ends. */
  method Last16(buf: seq<Byte>, o: nat, left: nat, s: Abc) returns (r: Abc)
    requires 0 < left <= 12 && o + left <= |buf|
    ensures r == Absorb(s, buf[o..o + left])
  {
    hide Add, Le, Pair16, Load16;
    LeNone();
    AddNothing(s.b);
    AddNothing(s.c);
    var a, b, c := s.a, s.b, s.c;
    if left == 12 {
      c := Add(c, Pair16(buf, o + 8));
      b := Add(b, Pair16(buf, o + 4));
      a := Add(a, Pair16(buf, o));
    } else if left >= 10 {
      if left == 11 {
        AddOdd(c, buf[o + 8], buf[o + 9], buf[o + 10]);
        c := Add(c, 0x1_0000 * buf[o + 10] as int);
      }
      c := Add(c, Load16(buf, o + 8));
      b := Add(b, Pair16(buf, o + 4));
      a := Add(a, Pair16(buf, o));
    } else if left >= 8 {
      if left == 9 {
        AddOdd(c, buf[o + 8], 0, 0);
        c := Add(c, buf[o + 8]);
      }
      b := Add(b, Pair16(buf, o + 4));
      a := Add(a, Pair16(buf, o));
    } else if left >= 6 {
      if left == 7 {
        AddOdd(b, buf[o + 4], buf[o + 5], buf[o + 6]);
        b := Add(b, 0x1_0000 * buf[o + 6] as int);
      }
      b := Add(b, Load16(buf, o + 4));
      a := Add(a, Pair16(buf, o));
    } else if left >= 4 {
      if left == 5 {
        AddOdd(b, buf[o + 4], 0, 0);
        b := Add(b, buf[o + 4]);
      }
      a := Add(a, Pair16(buf, o));
    } else if left >= 2 {
      if left == 3 {
        AddOdd(a, buf[o], buf[o + 1], buf[o + 2]);
        a := Add(a, 0x1_0000 * buf[o + 2] as int);
      }
      a := Add(a, Load16(buf, o));
    } else {
      AddOdd(a, buf[o], 0, 0);
      a := Add(a, buf[o]);
    }
    r := Abc(a, b, c);
  }

  /** Byte by byte, in either order, is the whole word. */
  lemma Bytewise(x: Word32, b0: Byte, b1: Byte, b2: Byte, b3: Byte)
    ensures
      var y := Add(Add(x, 0x100_0000 * b3 as int), 0x1_0000 * b2 as int);
      Add(Add(y, 0x100 * b1 as int), b0) == Add(x, Le(b0, b1, b2, b3))
    ensures
      var y := Add(Add(x, b0), 0x100 * b1 as int);
      Add(Add(y, 0x1_0000 * b2 as int), 0x100_0000 * b3 as int) == Add(x, Le(b0, b1, b2, b3))
  {
    hide Add;
    var p0, p1, p2, p3 := b0 as int, 0x100 * b1 as int, 0x1_0000 * b2 as int, 0x100_0000 * b3 as int;
    AddTwice(x, p3, p2);
    AddTwice(x, p3 + p2, p1);
    AddTwice(x, p3 + p2 + p1, p0);
    AddTwice(x, p0, p1);
    AddTwice(x, p0 + p1, p2);
    AddTwice(x, p0 + p1 + p2, p3);
  }

  /** The fall-through cases of one word: its bytes from the highest one present. */
  method AddBytes(x: Word32, buf: seq<Byte>, o: nat, n: nat) returns (y: Word32)
    requires o + (if n < 4 then n else 4) <= |buf|
    ensures y == Add(x, WordAt(buf[o..o + if n < 4 then n else 4], 0))
  {
    hide Add, Le;
    ghost var key := buf[o..o + if n < 4 then n else 4];
    ghost var b1, b2, b3 := ByteAt(key, 1), ByteAt(key, 2), ByteAt(key, 3);
    Bytewise(x, ByteAt(key, 0), b1, b2, b3);
    AddNothing(x);
    AddNothing(Add(x, 0x100_0000 * b3 as int));
    AddNothing(Add(Add(x, 0x100_0000 * b3 as int), 0x1_0000 * b2 as int));
    AddNothing(Add(Add(Add(x, 0x100_0000 * b3 as int), 0x1_0000 * b2 as int), 0x100 * b1 as int));
    y := x;
    if n >= 4 { y := Add(y, 0x100_0000 * buf[o + 3] as int); }
    if n >= 3 { y := Add(y, 0x1_0000 * buf[o + 2] as int); }
    if n >= 2 { y := Add(y, 0x100 * buf[o + 1] as int); }
    if n >= 1 { y := Add(y, buf[o]); }
  }

  /** The last block byte by byte. */
  method Last8(buf: seq<Byte>, o: nat, left: nat, s: Abc) returns (r: Abc)
    requires 0 < left <= 12 && o + left <= |buf|
    ensures r == Absorb(s, buf[o..o + left])
  {
    hide Add, Le;
    LeNone();
    AddNothing(s.b);
    AddNothing(s.c);
    var a, b, c := s.a, s.b, s.c;
    if left > 8 { c := AddBytes(c, buf, o + 8, left - 8); }
    if left > 4 { b := AddBytes(b, buf, o + 4, left - 4); }
    a := AddBytes(a, buf, o, left);
    r := Abc(a, b, c);
  }

  // ---------------------------------------------------------------- the three readers

  /** One turn of a reader's main loop. */
  lemma BlockStep(buf: seq<Byte>, o: nat, left: nat, s: Abc)
    requires left > 12 && o + left <= |buf|
    ensures
      var s' := Mix(Abc(Add(s.a, Load32(buf, o)), Add(s.b, Load32(buf, o + 4)), Add(s.c, Load32(buf, o + 8))));
      HashKey(buf[o..o + left], s) == HashKey(buf[o + 12..o + left], s')
  {
    hide Mix, Add, Le;
    assert buf[o..o + left][12..] == buf[o + 12..o + left];
  }

  /** The state after the whole key, read in 32-bit chunks. */
  method Hash32(buf: seq<Byte>, length: nat, init: Abc) returns (s: Abc)
    requires WordEnd(length) <= |buf|
    ensures s == HashKey(buf[..length], init)
  {
    hide Mix, Add, Le, Absorb, Final, WordEnd;
    s := init;
    var o: nat, left: nat := 0, length;
    WordEndCovers(length);
    assert buf[0..length] == buf[..length];
    while left > 12
      invariant o + left == length && o + WordEnd(left) == WordEnd(length)
      invariant HashKey(buf[o..o + left], s) == HashKey(buf[..length], init)
    {
      BlockStep(buf, o, left, s);
      s := Mix(Abc(Add(s.a, Load32(buf, o)), Add(s.b, Load32(buf, o + 4)), Add(s.c, Load32(buf, o + 8))));
      WordEndStep(left);
      o, left := o + 12, left - 12;
    }
    if left == 0 { return; }
    s := Last32(buf, o, left, s);
    s := Final(s);
  }

  lemma WordEndCovers(length: nat)
    ensures length <= WordEnd(length)
  {}

  lemma WordEndStep(left: nat)
    requires left > 12
    ensures WordEnd(left) == 12 + WordEnd(left - 12)
  {}

  /** ... in 16-bit chunks. */
  method Hash16(buf: seq<Byte>, length: nat, init: Abc) returns (s: Abc)
    requires length <= |buf|
    ensures s == HashKey(buf[..length], init)
  {
    hide Mix, Add, Le, Absorb, Final, Pair16;
    s := init;
    var o, left := 0, length;
    assert buf[0..length] == buf[..length];
    while left > 12
      invariant o + left == length
      invariant HashKey(buf[o..o + left], s) == HashKey(buf[..length], init)
    {
      BlockStep(buf, o, left, s);
      s := Mix(Abc(Add(s.a, Pair16(buf, o)), Add(s.b, Pair16(buf, o + 4)), Add(s.c, Pair16(buf, o + 8))));
      o, left := o + 12, left - 12;
    }
    if left == 0 { return; }
    s := Last16(buf, o, left, s);
    s := Final(s);
  }

  /** Four bytes added in turn. */
  function AddFour(x: Word32, buf: seq<Byte>, o: nat): (r: Word32)
    requires o + 4 <= |buf|
    ensures r == Add(x, Load32(buf, o))
  {
    Bytewise(x, buf[o], buf[o + 1], buf[o + 2], buf[o + 3]);
    Add(Add(Add(Add(x, buf[o]), 0x100 * buf[o + 1] as int), 0x1_0000 * buf[o + 2] as int),
        0x100_0000 * buf[o + 3] as int)
  }

  /** ... byte by byte. */
  method Hash8(buf: seq<Byte>, length: nat, init: Abc) returns (s: Abc)
    requires length <= |buf|
    ensures s == HashKey(buf[..length], init)
  {
    hide Mix, Add, Le, Absorb, Final, AddFour;
    s := init;
    var o, left := 0, length;
    assert buf[0..length] == buf[..length];
    while left > 12
      invariant o + left == length
      invariant HashKey(buf[o..o + left], s) == HashKey(buf[..length], init)
    {
      BlockStep(buf, o, left, s);
      s := Mix(Abc(AddFour(s.a, buf, o), AddFour(s.b, buf, o + 4), AddFour(s.c, buf, o + 8)));
      o, left := o + 12, left - 12;
    }
    if left == 0 { return; }
    s := Last8(buf, o, left, s);
    s := Final(s);
  }

  // ---------------------------------------------------------------- the functions

  /** The reader that the machine and the address of the key select. */
  method HashBytes(buf: seq<Byte>, length: nat, little: bool, address: nat, init: Abc) returns (s: Abc)
    requires length <= |buf|
    requires little && address % 4 == 0 ==> WordEnd(length) <= |buf|
    ensures s == HashKey(buf[..length], init)
  {
    if little && address % 4 == 0 {
      s := Hash32(buf, length, init);
    } else if little && address % 2 == 0 {
      s := Hash16(buf, length, init);
    } else {
      s := Hash8(buf, length, init);
    }
  }

  /** `hashlittle`: the key is the first `length` bytes of `buf`. */
  method HashLittle(buf: seq<Byte>, length: nat, little: bool, address: nat, initval: Word32) returns (hash: Word32)
    requires length <= |buf|
    requires little && address % 4 == 0 ==> WordEnd(length) <= |buf|
    ensures hash == HashKey(buf[..length], Start(length, initval, 0)).c
  {
    hide HashKey, Add;
    var x := Add(Add(GOLDEN, Word(length)), initval);
    AddNothing(x);
    var s := HashBytes(buf, length, little, address, Abc(x, x, x));
    hash := s.c;
  }

  /** `hashlittle2`: two seeds in, two hashes out. */
  method HashLittle2(buf: seq<Byte>, length: nat, little: bool, address: nat, pc: Word32, pb: Word32)
    returns (pc': Word32, pb': Word32)
    requires length <= |buf|
    requires little && address % 4 == 0 ==> WordEnd(length) <= |buf|
    ensures pc' == HashKey(buf[..length], Start(length, pc, pb)).c
    ensures pb' == HashKey(buf[..length], Start(length, pc, pb)).b
  {
    hide HashKey, Add;
    var x := Add(Add(GOLDEN, Word(length)), pc);
    var s := HashBytes(buf, length, little, address, Abc(x, x, Add(x, pb)));
    pc', pb' := s.c, s.b;
  }

  // ---------------------------------------------------------------- keys of whole words

  /** The bytes of a word, lowest first. */
  function Split(w: Word32): (r: seq<Byte>)
    ensures |r| == 4 && Le(r[0], r[1], r[2], r[3]) == w
  {
    var w1 := w / 0x100;
    var w2 := w1 / 0x100;
    var w3 := w2 / 0x100;
    SplitDigits(w, w1, w2, w3);
    [w % 0x100, w1 % 0x100, w2 % 0x100, w3]
  }

  lemma SplitDigits(w: Word32, w1: nat, w2: nat, w3: nat)
    requires w1 == w / 0x100 && w2 == w1 / 0x100 && w3 == w2 / 0x100
    ensures w3 < 0x100 && w == w % 0x100 + 0x100 * (w1 % 0x100) + 0x1_0000 * (w2 % 0x100) + 0x100_0000 * w3
  {
    assert w == w % 0x100 + 0x100 * w1;
    assert w1 == w1 % 0x100 + 0x100 * w2;
    assert w2 == w2 % 0x100 + 0x100 * w3;
    hide *;
  }

  /** Words as a little-endian machine stores them. */
  function Bytes(k: seq<Word32>): (r: seq<Byte>)
    ensures |r| == 4 * |k|
  {
    if k == [] then [] else Split(k[0]) + Bytes(k[1..])
  }

  lemma WordAtShift(first: seq<Byte>, rest: seq<Byte>, i: nat)
    requires |first| == 4
    ensures WordAt(first + rest, i + 4) == WordAt(rest, i)
    ensures WordAt(first + rest, 0) == Le(first[0], first[1], first[2], first[3])
  {
    hide Le;
  }

  lemma {:induction false} WordOfBytes(k: seq<Word32>, j: nat)
    requires j < |k|
    ensures WordAt(Bytes(k), 4 * j) == k[j]
  {
    hide Split, Le, WordAt;
    if j == 0 {
      WordAtShift(Split(k[0]), Bytes(k[1..]), 0);
    } else {
      WordOfBytes(k[1..], j - 1);
      WordAtShift(Split(k[0]), Bytes(k[1..]), 4 * (j - 1));
    }
  }

  lemma WordPastBytes(k: seq<Word32>, j: nat)
    requires j >= |k|
    ensures WordAt(Bytes(k), 4 * j) == 0
  {}

  lemma {:induction false} DropBytes(k: seq<Word32>, n: nat)
    requires n <= |k|
    ensures Bytes(k)[4 * n..] == Bytes(k[n..])
  {
    hide Split;
    if n > 0 {
      DropBytes(k[1..], n - 1);
      assert k[1..][n - 1..] == k[n..];
      assert Bytes(k)[4 * n..] == Bytes(k[1..])[4 * (n - 1)..];
    }
  }

  /** `length << 2` wraps to the same 32 bits before and after the cast. */
  lemma LengthInBytes(n: nat)
    ensures Word(Shl(Word(n), 2)) == Word(4 * n)
  {
    hide Mod;
    var w := Word(n);
    ShlTwo(w);
    ModDoubled(n);
    ModDoubled(2 * n);
    ModDoubled(2 * w);
  }

  lemma ShlTwo(x: nat)
    ensures Shl(x, 2) == 4 * x
  {
    assert Shl(x, 1) == 2 * x;
  }

  lemma ModDoubled(n: nat)
    ensures Word(2 * Word(n)) == Word(2 * n)
  {
    hide Mod;
    ModAdd(n, Word(n), U32);
    ModAdd(n, n, U32);
  }

  /** What `hashword` and `hashword2` do after setting up the state. */
  method HashWords(k: seq<Word32>, init: Abc) returns (s: Abc)
    ensures s == HashKey(Bytes(k), init)
  {
    hide Mix, Add, Final, Bytes, WordAt;
    s := init;
    var o := 0;
    assert k[0..] == k;
    while |k| - o > 3
      invariant o <= |k|
      invariant HashKey(Bytes(k[o..]), s) == HashKey(Bytes(k), init)
    {
      ghost var rest := k[o..];
      WordOfBytes(rest, 0);
      WordOfBytes(rest, 1);
      WordOfBytes(rest, 2);
      DropBytes(rest, 3);
      assert rest[3..] == k[o + 3..];
      s := Mix(Abc(Add(s.a, k[o]), Add(s.b, k[o + 1]), Add(s.c, k[o + 2])));
      o := o + 3;
    }
    if o == |k| { return; }
    ghost var rest := k[o..];
    LastWords(rest, s);
    var a, b, c := s.a, s.b, s.c;
    if |k| - o == 3 { c := Add(c, k[o + 2]); }
    if |k| - o >= 2 { b := Add(b, k[o + 1]); }
    a := Add(a, k[o]);
    s := Final(Abc(a, b, c));
  }

  lemma LastWords(k: seq<Word32>, s: Abc)
    requires 0 < |k| <= 3
    ensures
      var b := if |k| >= 2 then Add(s.b, k[1]) else s.b;
      var c := if |k| == 3 then Add(s.c, k[2]) else s.c;
      Absorb(s, Bytes(k)) == Abc(Add(s.a, k[0]), b, c)
  {
    hide Add, Bytes, WordAt;
    AddNothing(s.b);
    AddNothing(s.c);
    WordOfBytes(k, 0);
    if |k| >= 2 { WordOfBytes(k, 1); } else { WordPastBytes(k, 1); }
    if |k| == 3 { WordOfBytes(k, 2); } else { WordPastBytes(k, 2); }
  }

  /** `hashword`: the same as `hashlittle` on the bytes of the words. */
  method HashWord(k: seq<Word32>, initval: Word32) returns (hash: Word32)
    ensures hash == HashKey(Bytes(k), Start(4 * |k|, initval, 0)).c
  {
    hide HashKey, Add, Bytes, Word, Shl;
    var x := Add(Add(GOLDEN, Word(Shl(Word(|k|), 2))), initval);
    LengthInBytes(|k|);
    AddNothing(x);
    var s := HashWords(k, Abc(x, x, x));
    hash := s.c;
  }

  /** `hashword2`. */
  method HashWord2(k: seq<Word32>, pc: Word32, pb: Word32) returns (pc': Word32, pb': Word32)
    ensures pc' == HashKey(Bytes(k), Start(4 * |k|, pc, pb)).c
    ensures pb' == HashKey(Bytes(k), Start(4 * |k|, pc, pb)).b
  {
    hide HashKey, Add, Bytes, Word, Shl;
    ShlTwo(|k|);
    var x := Add(Add(GOLDEN, Word(Shl(|k|, 2))), pc);
    var s := HashWords(k, Abc(x, x, Add(x, pb)));
    pc', pb' := s.c, s.b;
  }
}

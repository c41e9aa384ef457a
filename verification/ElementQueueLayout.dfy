/**
 * Where the element queue places its elements (util/element_queue.c).
 *
 * The code keeps 32-bit cursors that wrap. Next to the word-level functions
 * stands an unbounded layout: the start and end of the i-th element as natural
 * numbers that depend on the history of lengths only. The lemmas show that the
 * words are that layout modulo 2^32, so writer and reader agree forever.
 */
module ElementQueueLayout {
  import opened Bits

  /** The power-of-two geometry that the signed comparison of the offset helper supports. */
  predicate ValidBuf(b: nat) {
    0 < b <= 0x4000_0000 && IsPow2(b)
  }

  // ---------------------------------------------------------------- words

  /** `(len + 7) & ~7` on 32-bit words. */
  function Align8Word(len: nat): nat {
    AndNot(Word(len + 7), 7)
  }

  /** The helper that skips to the next buffer start when an element would straddle the end. */
  function NextOffsetWord(offset: nat, mask: nat, len: nat): nat {
    var last := AndNot(Word(offset + len - 1), mask);
    var diff := Word(last - AndNot(offset, mask));
    if 0 < diff < 0x8000_0000 then last else offset
  }

  // ---------------------------------------------------------------- unbounded layout

  function Align8(len: nat): (r: nat)
    ensures len <= r < len + 8 && r % 8 == 0
  {
    (len + 7) / 8 * 8
  }

  function NextOffset(offset: nat, b: nat, len: nat): (r: nat)
    requires b > 0
    ensures offset <= r <= offset + b
    ensures len <= b ==> r < offset + b && Mod(r, b) + len <= b
  {
    if Mod(offset, b) + len > b then
      BlockStart(offset, b);
      offset - Mod(offset, b) + b
    else offset
  }

  lemma BlockStart(x: nat, b: nat)
    requires b > 0
    ensures Mod(x - Mod(x, b) + b, b) == 0
  {
    var r: int := Mod(x, b);
    ModWithin(x, b, -r);
    ModPlus(x - Mod(x, b), b);
  }

  /** Cursor position after the given history of element lengths. */
  function End(lens: seq<nat>, b: nat): nat
    requires b > 0
  {
    if lens == [] then 0
    else
      var prev := End(lens[..|lens| - 1], b);
      var size := Align8(lens[|lens| - 1]);
      NextOffset(prev, b, size) + size
  }

  /** Cursor position after the first `i` elements. */
  function EndAt(lens: seq<nat>, b: nat, i: nat): nat
    requires b > 0 && i <= |lens|
  {
    End(lens[..i], b)
  }

  /** First byte of the i-th element. */
  function Start(lens: seq<nat>, b: nat, i: nat): nat
    requires b > 0 && i < |lens|
  {
    NextOffset(EndAt(lens, b, i), b, Align8(lens[i]))
  }

  /** Every element passed the size check of the write operation. */
  predicate Fits(lens: seq<nat>, b: nat) {
    forall i :: 0 <= i < |lens| ==> Align8(lens[i]) < b
  }

  lemma EndStep(lens: seq<nat>, b: nat, i: nat)
    requires b > 0 && i < |lens|
    ensures EndAt(lens, b, i + 1) == Start(lens, b, i) + Align8(lens[i])
    ensures EndAt(lens, b, i) <= Start(lens, b, i)
  {
    assert lens[..i + 1][..i] == lens[..i];
  }

  lemma {:induction false} EndMonotone(lens: seq<nat>, b: nat, i: nat, j: nat)
    requires b > 0 && i <= j <= |lens|
    ensures EndAt(lens, b, i) <= EndAt(lens, b, j)
  {
    hide NextOffset, End;
    if i < j {
      EndMonotone(lens, b, i, j - 1);
      EndStep(lens, b, j - 1);
    }
  }

  /** Every cursor position and element start is 8-aligned. */
  lemma {:induction false} Aligned(lens: seq<nat>, b: nat, i: nat)
    requires ValidBuf(b) && Fits(lens, b) && i <= |lens|
    ensures EndAt(lens, b, i) % 8 == 0
    ensures i < |lens| ==> Start(lens, b, i) % 8 == 0
  {
    hide Mod, IsPow2, NextOffset;
    if i > 0 {
      Aligned(lens, b, i - 1);
      EndStep(lens, b, i - 1);
      SumAligned(Start(lens, b, i - 1), Align8(lens[i - 1]));
    }
    if i < |lens| {
      NextOffsetAligned(EndAt(lens, b, i), b, Align8(lens[i]));
    }
  }

  lemma SumAligned(x: nat, y: nat)
    requires x % 8 == 0 && y % 8 == 0
    ensures (x + y) % 8 == 0
  {}

  lemma EightIsPow2()
    ensures IsPow2(8)
  {
    assert IsPow2(4) by { assert IsPow2(2); }
  }

  lemma NextOffsetAligned(x: nat, b: nat, size: nat)
    requires ValidBuf(b) && x % 8 == 0 && size % 8 == 0 && size < b
    ensures NextOffset(x, b, size) % 8 == 0
  {
    hide Mod, IsPow2;
    if Mod(x, b) + size > b {
      EightIsPow2();
      Pow2Divides(8, b);
      ModOfMod(x, b, 8);
      ModIsRemainder(x, 8);
      ModIsRemainder(b, 8);
      ModIsRemainder(Mod(x, b), 8);
    }
  }

  /** An element occupies one contiguous run of the buffer. */
  lemma Contiguous(lens: seq<nat>, b: nat, i: nat, k: nat)
    requires b > 0 && Fits(lens, b) && i < |lens| && k < Align8(lens[i])
    ensures Mod(Start(lens, b, i) + k, b) == Mod(Start(lens, b, i), b) + k < b
  {
    hide Mod, End;
    ModWithin(Start(lens, b, i), b, k);
  }

  /** Elements that fit together in one buffer length are pairwise disjoint in the buffer. */
  lemma LiveDisjoint(lens: seq<nat>, b: nat, h: nat, i: nat, j: nat, k: nat, l: nat)
    requires b > 0 && Fits(lens, b) && h <= i < j < |lens|
    requires EndAt(lens, b, |lens|) - EndAt(lens, b, h) <= b
    requires k < Align8(lens[i]) && l < Align8(lens[j])
    ensures Mod(Start(lens, b, i), b) + k != Mod(Start(lens, b, j), b) + l
  {
    hide Mod, End, NextOffset, Align8;
    Contiguous(lens, b, i, k);
    Contiguous(lens, b, j, l);
    EndMonotone(lens, b, h, i);
    EndStep(lens, b, i);
    EndMonotone(lens, b, i + 1, j);
    EndStep(lens, b, j);
    EndMonotone(lens, b, j + 1, |lens|);
    ModDistinct(Start(lens, b, i) + k, Start(lens, b, j) + l, b);
  }

  // ---------------------------------------------------------------- words refine the layout

  /** Rounding a 32-bit length up never loses bytes, except when it wraps to zero. */
  lemma Align8WordExact(len: nat)
    requires len < U32
    ensures Align8Word(len) == Align8(len) <==> len <= U32 - 8
    ensures len > U32 - 8 ==> Align8Word(len) == 0
  {
    hide IsPow2, And;
    EightIsPow2();
    AndMask(Word(len + 7), 8);
    ModIsRemainder(Word(len + 7), 8);
    ModPlus(len + 7 - U32, U32);
  }

  lemma WordMask(x: nat, b: nat)
    requires IsPow2(b) && b < U32
    ensures And(Word(x), b - 1) == Mod(Word(x), b) == Mod(x, b)
  {
    DividesWord(b);
    AndMask(Word(x), b);
    ModOfWord(x, b);
  }

  /** The block that holds the last byte, relative to the block of the cursor. */
  lemma LastBlock(x: nat, b: nat, len: nat)
    requires IsPow2(b) && b < U32
    ensures var last := Word(Word(x) + len - 1);
            AndNot(last, b - 1) == last - Mod(Mod(x, b) + len - 1, b)
  {
    hide Mod, IsPow2, And;
    var sum := Word(x) + len - 1;
    WordMask(Word(sum), b);
    WordMask(x, b);
    assert Mod(Word(sum), b) == Mod(sum, b) by {
      DividesWord(b);
      if sum >= 0 { ModOfWord(sum, b); } else { ModPlus(sum, U32); ModAdd(U32, sum, b); }
    }
    ModAdd(Word(x), len - 1, b);
  }

  /** How far, in whole blocks, the last byte lies from the cursor. */
  function BlocksAhead(x: nat, b: nat, len: nat): int
    requires b > 0
  {
    var e := Mod(x, b) + len - 1;
    if e >= b then b else if e >= 0 then 0 else 0 - b
  }

  lemma BlockDistance(x: nat, b: nat, len: nat)
    requires IsPow2(b) && 0 < b < U32 && len < b
    ensures AndNot(Word(x), b - 1) == Word(x) - Mod(x, b)
    ensures AndNot(Word(Word(x) + len - 1), b - 1) == Word(x - Mod(x, b) + BlocksAhead(x, b, len))
    ensures Word(AndNot(Word(Word(x) + len - 1), b - 1) - AndNot(Word(x), b - 1)) == Word(BlocksAhead(x, b, len))
  {
    hide Mod, IsPow2, And, Word;
    LastBlock(x, b, len);
    WordMask(x, b);
    var e, d := Mod(x, b) + len - 1, BlocksAhead(x, b, len);
    BlockOf(e, b);
    var last := Word(Word(x) + len - 1);
    assert AndNot(last, b - 1) == last - (e - d);
    LastWord(x, len, e - d);
    DistanceWord(x, Mod(x, b), d);
  }

  lemma DistanceWord(x: nat, m: nat, d: int)
    ensures Word(Word(x - m + d) - (Word(x) - m)) == Word(d)
  {
    hide Mod;
    ModAdd(x - m + d, m - Word(x), U32);
    ModSub(x + d, x, U32);
  }

  lemma LastWord(x: nat, len: nat, k: nat)
    requires k <= Word(Word(x) + len - 1)
    ensures Word(Word(x) + len - 1) - k == Word(x + len - 1 - k)
  {
    hide Mod;
    ModAdd(x, len - 1, U32);
    ModWithin(x + len - 1, U32, -(k as int));
  }

  lemma BlockOf(e: int, b: nat)
    requires b > 0 && -1 <= e < 2 * b
    ensures e - Mod(e, b) == if e >= b then b else if e >= 0 then 0 else 0 - b
  {}

  /** A signed comparison of words sees a distance of one block exactly when it is below 2^31. */
  lemma SignedDistance(d: int, b: nat)
    requires 0 < b <= 0x8000_0000 && (d == b || d == 0 || d == 0 - b)
    ensures 0 < Word(d) < 0x8000_0000 <==> d == b && b < 0x8000_0000
  {
    ModPlus(d, U32);
  }

  /** The offset helper on wrapped words is the unbounded skip modulo 2^32. */
  lemma NextOffsetWordCorrect(x: nat, b: nat, len: nat)
    requires ValidBuf(b) && len < b
    ensures NextOffsetWord(Word(x), b - 1, len) == Word(NextOffset(x, b, len))
  {
    hide Mod, IsPow2, And, AndNot, Word;
    BlockDistance(x, b, len);
    SignedDistance(BlocksAhead(x, b, len), b);
  }

  /** A buffer of 2^31 bytes defeats the signed comparison: an element that straddles the end is not moved. */
  lemma NextOffsetWordFails(b: nat)
    requires IsPow2(b) && b == 0x8000_0000
    ensures NextOffsetWord(Word(b - 8), b - 1, 16) == b - 8
    ensures Word(NextOffset(b - 8, b, 16)) == b
  {
    hide Mod, IsPow2, And, AndNot, Word;
    BlockDistance(b - 8, b, 16);
    SignedDistance(BlocksAhead(b - 8, b, 16), b);
  }

  /** The word-level helper computes the layout for every cursor and size exactly up to 2^30. */
  lemma NextOffsetWordExact(b: nat)
    requires IsPow2(b) && 0 < b < U32
    ensures (forall x: nat, len: nat {:trigger NextOffset(x, b, len)} | len < b ::
               NextOffsetWord(Word(x), b - 1, len) == Word(NextOffset(x, b, len)))
            <==> b <= 0x4000_0000
  {
    hide Mod, IsPow2, NextOffset, NextOffsetWord, Word;
    if b <= 0x4000_0000 {
      forall x: nat, len: nat {:trigger NextOffset(x, b, len)} | len < b
        ensures NextOffsetWord(Word(x), b - 1, len) == Word(NextOffset(x, b, len))
      {
        NextOffsetWordCorrect(x, b, len);
      }
    } else {
      Pow2Largest(b);
      NextOffsetWordFails(b);
    }
  }
}

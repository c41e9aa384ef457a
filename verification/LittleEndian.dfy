/** Numbers as bytes in memory, lowest byte first. */
module LittleEndian {
  import opened Bits

  function FromBytes(bytes: seq<Byte>): nat {
    if bytes == [] then 0 else bytes[0] as int + 256 * FromBytes(bytes[1..])
  }

  function ToBytes(v: nat, n: nat): (r: seq<Byte>)
    ensures |r| == n
  {
    if n == 0 then [] else [v % 256] + ToBytes(v / 256, n - 1)
  }

  /** Loading bytes into a register and storing it again is copying them. */
  lemma {:induction false} BytesRoundTrip(bytes: seq<Byte>)
    ensures ToBytes(FromBytes(bytes), |bytes|) == bytes
  {
    if bytes != [] {
      BytesRoundTrip(bytes[1..]);
      var rest := FromBytes(bytes[1..]);
      Digit(bytes[0], rest);
    }
  }

  lemma Digit(low: nat, rest: nat)
    requires low < 256
    ensures (low + 256 * rest) % 256 == low && (low + 256 * rest) / 256 == rest
  {}

  /** Storing a number that fits and loading it again gives the number. */
  lemma {:induction false} NumberRoundTrip(v: nat, n: nat)
    requires v < Pow2(8 * n)
    ensures FromBytes(ToBytes(v, n)) == v
  {
    hide Pow2;
    if n == 0 {
      PowZero();
    } else {
      Pow2Small();
      Pow2Add(8, 8 * (n - 1));
      NumberRoundTrip(v / 256, n - 1);
      assert ToBytes(v, n)[1..] == ToBytes(v / 256, n - 1);
    }
  }

  /** A 16-bit read. */
  function Word16(src: seq<Byte>, at: nat): (r: nat)
    requires at + 2 <= |src|
    ensures r < U16 && r == FromBytes(src[at..at + 2])
  {
    Pair(src[at], src[at + 1]);
    assert src[at..at + 2] == [src[at], src[at + 1]];
    src[at] as int + 256 * src[at + 1] as int
  }

  /** Four bytes as a word. */
  function Le(b0: Byte, b1: Byte, b2: Byte, b3: Byte): (r: nat)
    ensures r < U32 && r == FromBytes([b0, b1, b2, b3])
  {
    Pair(b2, b3);
    assert [b0, b1, b2, b3][1..] == [b1, b2, b3] && [b1, b2, b3][1..] == [b2, b3];
    b0 as int + 0x100 * b1 as int + 0x1_0000 * b2 as int + 0x100_0000 * b3 as int
  }

  lemma Pair(b0: Byte, b1: Byte)
    ensures FromBytes([b0, b1]) == b0 as int + 256 * b1 as int
  {
    var s: seq<Byte>, t: seq<Byte>, u: seq<Byte> := [b0, b1], [b1], [];
    assert s[1..] == t && t[1..] == u;
    assert FromBytes(u) == 0;
    assert FromBytes(t) == b1 as int;
  }

  lemma PowZero()
    ensures Pow2(0) == 1
  {}
}

/**
 * The perf ring as it is coded (util/perf_ring.c, util/perf_ring_cpp.h):
 * 32-bit cursors over a byte ring with an 8-byte header in front of every
 * record.
 */
module PerfRing {
  import opened Bits
  import opened Common
  import opened LittleEndian
  import opened PerfRingSpec
  import EQ = ElementQueueLayout

  /** A 32-bit cursor moves and wraps into the ring like the position it stands for. */
  lemma CursorMoves(p: nat, k: nat, b: nat)
    requires IsPow2(b) && b <= 0x8000_0000
    ensures Word(Word(p) + k) == Word(p + k)
    ensures Mod(Word(p + k), b) == Mod(p + k, b)
  {
    hide Mod, IsPow2;
    ModAdd(p, k, U32);
    DividesWord(b);
    ModOfWord(p + k, b);
  }

  class PerfRing {
    const data: array<Byte>
    const bufMask: nat
    var bufHead: nat
    var bufTail: nat
    /** The cursors before reduction to 32 bits, and the records between them. */
    ghost var head: nat
    ghost var tail: nat
    ghost var records: seq<Record>

    ghost predicate Valid()
      reads this, data
    {
      && data.Length == bufMask + 1 && Inv(data[..], head, tail, records)
      && bufHead == Word(head) && bufTail == Word(tail)
    }

    /** A ring over the records that its page already holds. */
    constructor (data: array<Byte>, dataTail: nat, dataHead: nat, ghost records: seq<Record>)
      requires Inv(data[..], dataTail, dataHead, records)
      ensures Valid() && this.data == data && this.records == records && head == dataTail && tail == dataHead
    {
      this.data, bufMask, bufHead, bufTail := data, data.Length - 1, Word(dataTail), Word(dataHead);
      head, tail, this.records := dataTail, dataHead, records;
    }

    /**
     * `pr_init_contig`: powers of two from 8 bytes on. `dataTail` and `dataHead`
     * are the 64-bit cursors of the shared page, between which lie `records`.
     */
    static method Init(data: array?<Byte>, dataTail: nat, dataHead: nat, ghost records: seq<Record>)
      returns (error: int, ring: PerfRing?)
      requires data != null && IsPow2(data.Length) && data.Length >= 8 ==> Inv(data[..], dataTail, dataHead, records)
      ensures error == 0 <==> data != null && IsPow2(data.Length) && data.Length >= 8
      ensures error == 0 ==> ring != null && fresh(ring) && ring.Valid() && ring.data == data
      ensures error == 0 ==> ring.records == records && ring.head == dataTail && ring.tail == dataHead
      ensures error != 0 ==> error == -EINVAL && ring == null
    {
      if data == null { return -EINVAL, null; }
      var len := data.Length;
      if len > 0 { AndPred(len); }
      if len < 8 || And(len, len - 1) != 0 { return -EINVAL, null; }
      error := 0;
      ring := new PerfRing(data, dataTail, dataHead, records);
    }

    /** The copy of `PerfRing::write`: in one piece or in two. */
    method CopyIn(offset: nat, bytes: seq<Byte>)
      requires data.Length == bufMask + 1 && IsPow2(data.Length) && data.Length <= 0x8000_0000
      requires offset < data.Length && |bytes| <= data.Length
      modifies data
      ensures Stored(old(data[..]), data[..], offset, bytes)
    {
      hide And, Mod, IsPow2, Stored;
      ghost var before := data[..];
      if |bytes| == 0 {
        StoredWhole(before, data[..], offset, bytes);
        return;
      }
      AndMask(offset + |bytes| - 1, data.Length);
      WrapCases(data.Length, offset, |bytes| - 1);
      var end := And(offset + |bytes| - 1, bufMask);
      if end < offset {
        var toEnd := bufMask + 1 - offset;
        Memcpy(data, offset, bytes[..toEnd]);
        ghost var middle := data[..];
        Memcpy(data, 0, bytes[toEnd..]);
        TwoCopies(before, middle, data[..], offset, bytes);
        StoredSplit(before, data[..], offset, bytes);
      } else {
        Memcpy(data, offset, bytes);
        StoredWhole(before, data[..], offset, bytes);
      }
    }

    /** The stretch of `n` bytes from position `p` on, split where it wraps. */
    method Pieces(ghost p: nat, cursor: nat, n: nat) returns (first: seq<Byte>, second: seq<Byte>)
      requires data.Length == bufMask + 1 && IsPow2(data.Length) && 0 < data.Length <= 0x8000_0000
      requires n <= data.Length && cursor == Word(p)
      ensures first + second == Slice(data[..], p, n)
    {
      hide And, Mod, IsPow2;
      if n == 0 { return [], []; }
      var b := data.Length;
      var begin := Masked(cursor);
      var end := Masked(Word(cursor + n - 1));
      CursorMoves(p, 0, b);
      CursorMoves(p, n - 1, b);
      ModAdd(p, n - 1, b);
      WrapCases(b, begin, n - 1);
      if end < begin {
        SliceSplit(data[..], p, n, begin);
        first, second := data[begin..], data[..end + 1];
      } else {
        SliceWhole(data[..], p, n, begin);
        first, second := data[begin..begin + n], [];
      }
    }

    /** `x & buf_mask`. */
    function Masked(x: nat): (r: nat)
      requires data.Length == bufMask + 1 && IsPow2(data.Length)
      ensures r == Mod(x, data.Length)
    {
      AndMask(x, data.Length);
      And(x, bufMask)
    }

    /** Store the header of a record of `size` bytes at the tail. */
    method PutHeader(size: nat, kind: nat)
      requires Valid() && size < U16 && kind < U32 && tail + HEADER <= head + data.Length
      modifies data
      ensures Valid() && Slice(data[..], tail, 4) == ToBytes(kind, 4)
      ensures Slice(data[..], tail + 6, 2) == ToBytes(size, 2)
      ensures data[..] == WithHeader(old(data[..]), tail, size, kind)
    {
      hide Mod, IsPow2, Slice, Stored, Inv, ToBytes, Store;
      ghost var ring := data[..];
      RingShape(ring, head, tail, records);
      HeaderInside(data.Length, tail);
      var at := Masked(bufTail);
      DividesWord(data.Length);
      ModOfWord(tail, data.Length);
      Memcpy(data, at + 6, ToBytes(size, 2));
      ghost var ring1 := data[..];
      ModWithin(tail, data.Length, 6);
      StoredWhole(ring, ring1, at + 6, ToBytes(size, 2));
      StoredAt(ring, ring1, tail + 6, ToBytes(size, 2));
      FreeStore(ring, ring1, head, tail, records, tail + 6, ToBytes(size, 2));
      Memcpy(data, at, ToBytes(kind, 4));
      ghost var ring2 := data[..];
      StoredWhole(ring1, ring2, at, ToBytes(kind, 4));
      StoredAt(ring1, ring2, tail, ToBytes(kind, 4));
      FreeStore(ring1, ring2, head, tail, records, tail, ToBytes(kind, 4));
      StoredSlice(ring, ring1, tail + 6, ToBytes(size, 2));
      StoredSlice(ring1, ring2, tail, ToBytes(kind, 4));
      SliceKept(ring1, ring2, tail, ToBytes(kind, 4), tail + 6, 2);
      StoredIsStore(ring, ring1, tail + 6, ToBytes(size, 2));
      StoredIsStore(ring1, ring2, tail, ToBytes(kind, 4));
    }

    /** `pr_write`: reserve a record; its payload is what the ring holds there. */
    method Reserve(len: nat, kind: nat) returns (res: int)
      requires Valid() && len < U16 && kind < U32
      modifies this`bufTail, this`tail, this`records, data
      ensures Valid() && head == old(head)
      ensures res == -EINVAL <==> Reserved(len) > bufMask || Reserved(len) >= U16
      ensures res == -ENOSPC <==>
                Reserved(len) <= bufMask && Reserved(len) < U16 && old(tail) + Reserved(len) > head + data.Length
      ensures res < 0 ==> res == -EINVAL || res == -ENOSPC
      ensures res < 0 ==> data[..] == old(data[..]) && records == old(records) && tail == old(tail)
      ensures res >= 0 ==> res == Mod(old(tail) + HEADER, data.Length) && tail == old(tail) + Reserved(len)
      ensures res >= 0 ==> data[..] == WithHeader(old(data[..]), old(tail), Reserved(len), kind)
      ensures res >= 0 ==> records == old(records) + [Record(old(tail), Slice(data[..], old(tail) + HEADER, len), kind)]
    {
      hide Mod, Word, IsPow2, Slice, Inv, ToBytes, Chained, AndNot, And, WithHeader;
      RingShape(data[..], head, tail, records);
      EQ.Align8WordExact(len + HEADER);
      var aligned := AndNot(Word(len + HEADER + 7), 7);
      if aligned > bufMask || aligned >= U16 { return -EINVAL; }
      WordDiff(tail, head, aligned);
      if Word(bufTail + aligned - bufHead) > bufMask + 1 { return -ENOSPC; }
      PutHeader(aligned, kind);
      ghost var rec := Record(tail, Slice(data[..], tail + HEADER, len), kind);
      Append(data[..], head, tail, records, rec);
      CursorMoves(tail, HEADER, data.Length);
      res := Masked(Word(bufTail + HEADER));
      CursorMoves(tail, aligned, data.Length);
      bufTail := Word(bufTail + aligned);
      tail, records := tail + aligned, records + [rec];
    }

    /**
     * `PerfRing::write`; a negative result stands for the exception. The length
     * passed on is cast to 16 bits, the copy takes the whole element. While the
     * copy stays in free space the ring holds the records as before and one more.
     * Any element may be refused; only an accepted one must not exceed the ring.
     */
    method Write(elem: seq<Byte>, kind: nat) returns (res: int)
      requires Valid() && kind < U32
      requires var size := Reserved(CastLength(elem));
               size <= bufMask && size < U16 && tail + size <= head + data.Length ==> |elem| <= data.Length
      modifies this`bufTail, this`tail, this`records, data
      ensures head == old(head)
      ensures var size := Reserved(CastLength(elem));
              && (res == -EINVAL <==> size > bufMask || size >= U16)
              && (res == -ENOSPC <==> size <= bufMask && size < U16 && old(tail) + size > head + data.Length)
              && (res >= 0 ==> tail == old(tail) + size && bufTail == Word(tail))
      ensures res < 0 ==> Valid() && records == old(records) && tail == old(tail) && data[..] == old(data[..])
      ensures res >= 0 ==> data[..] == Written(old(data[..]), old(tail), elem, kind)
      ensures res >= 0 ==> (Returned(data[..], old(tail), elem) <==> |elem| < U16)
      ensures res >= 0 && old(tail) + HEADER + |elem| <= head + data.Length ==>
                Valid() && records == old(records) + [Record(old(tail), elem[..CastLength(elem)], kind)]
      ensures res >= 0 && |elem| < U16 ==> Valid() && records == old(records) + [Record(old(tail), elem, kind)]
    {
      hide Mod, IsPow2, Slice, Inv, Stored, Chained, WithHeader, Store, Returned;
      ghost var before := data[..];
      RingShape(before, head, tail, records);
      CastLengthIs(elem);
      res := Reserve(CastLength(elem), kind);
      if res < 0 { return; }
      ghost var ring, q := data[..], records[..|records| - 1];
      ghost var rec := records[|records| - 1];
      assert records == q + [rec];
      RingShape(ring, head, tail, records);
      CopyIn(res, elem);
      StoredAt(ring, data[..], rec.start + HEADER, elem);
      StoredIsStore(ring, data[..], rec.start + HEADER, elem);
      ReturnedExactly(before, rec.start, elem, kind);
      if rec.start + HEADER + |elem| <= head + data.Length { Fill(ring, data[..], head, tail, q, rec, elem); }
      records := q + [rec.(payload := elem[..CastLength(elem)])];
      assert |elem| < U16 ==> elem[..|elem|] == elem;
    }

    /** `pr_peek_size`. */
    method PeekSize() returns (size: int)
      requires Valid()
      ensures size == if records == [] then -ENOENT else Reserved(|records[0].payload|) - HEADER
    {
      hide Mod, IsPow2, Slice, Inv, ToBytes, Pow2;
      RingShape(data[..], head, tail, records);
      WordDiff(tail, head, 0);
      if bufTail == bufHead { return -ENOENT; }
      Pop(data[..], head, tail, records);
      HeaderInside(data.Length, head);
      DividesWord(data.Length);
      ModOfWord(head, data.Length);
      var at := Masked(bufHead);
      ModWithin(head, data.Length, 6);
      SliceWhole(data[..], head + 6, 2, at + 6);
      Pow2Values();
      NumberRoundTrip(Reserved(|records[0].payload|), 2);
      size := FromBytes(data[at + 6..at + 8]) - HEADER;
    }

    /** `pr_peek_aligned_u32`: four bytes of the first payload, at an aligned offset. */
    method PeekAligned(offset: nat) returns (n: nat)
      requires Valid() && records != [] && offset % 4 == 0 && offset + 4 <= |records[0].payload|
      ensures n == FromBytes(records[0].payload[offset..offset + 4])
    {
      hide Mod, IsPow2, Inv, Word, FromBytes;
      RingShape(data[..], head, tail, records);
      Pop(data[..], head, tail, records);
      WordInside(data.Length, head + HEADER + offset);
      CursorMoves(head, HEADER + offset, data.Length);
      var at := Masked(Word(bufHead + HEADER + offset));
      SliceWhole(data[..], head + HEADER + offset, 4, at);
      SliceWithin(data[..], head + HEADER, records[0].payload, offset, 4);
      n := FromBytes(data[at..at + 4]);
    }

    /** `pr_peek`: the event behind the two length words of a payload, as one piece or two. */
    method Peek() returns (first: seq<Byte>, second: seq<Byte>)
      requires Valid() && records != [] && |records[0].payload| >= 8
      requires FromBytes(records[0].payload[4..8]) + 8 <= Reserved(|records[0].payload|) - HEADER
      ensures |first + second| == FromBytes(records[0].payload[4..8])
      ensures var payload, n := records[0].payload, FromBytes(records[0].payload[4..8]);
              8 + n <= |payload| ==> first + second == payload[8..8 + n]
    {
      hide Mod, IsPow2, Inv, Word, FromBytes;
      RingShape(data[..], head, tail, records);
      Pop(data[..], head, tail, records);
      ChainFits(data[..], head, tail, records);
      var n := PeekAligned(4);
      CursorMoves(head, HEADER + 8, data.Length);
      first, second := Pieces(head + HEADER + 8, Word(bufHead + HEADER + 8), n);
      if 8 + n <= |records[0].payload| { SliceWithin(data[..], head + HEADER, records[0].payload, 8, n); }
    }

    /** `pr_read`: pop the first record. */
    method PopRecord() returns (res: int, len: nat)
      requires Valid()
      modifies this`bufHead, this`head, this`records
      ensures Valid() && tail == old(tail)
      ensures old(records) == [] ==> res == -EAGAIN && records == [] && head == old(head)
      ensures old(records) != [] ==> records == old(records)[1..] && head == old(head) + HEADER + len
      ensures old(records) != [] ==>
                len == Reserved(|old(records)[0].payload|) - HEADER && res == Mod(old(head) + HEADER, data.Length)
    {
      hide Mod, Word, IsPow2, Slice, Inv, Holds, Sized;
      RingShape(data[..], head, tail, records);
      WordDiff(tail, head, 0);
      if bufTail == bufHead { return -EAGAIN, 0; }
      Pop(data[..], head, tail, records);
      var size := PeekSize();
      len := size;
      CursorMoves(head, HEADER, data.Length);
      res := Masked(Word(bufHead + HEADER));
      CursorMoves(head, HEADER + len, data.Length);
      bufHead := Word(bufHead + (HEADER + len));
      head, records := head + HEADER + len, records[1..];
    }

    /**
     * `PerfRing::read`: the payload of the first record, followed by fewer than
     * eight bytes of padding; `None` stands for the exception of an empty ring.
     */
    method Read() returns (r: Option<seq<Byte>>)
      requires Valid()
      modifies this`bufHead, this`head, this`records
      ensures Valid() && tail == old(tail)
      ensures r == None <==> old(records) == []
      ensures r == None ==> records == [] && head == old(head)
      ensures r.Some? ==> records == old(records)[1..]
      ensures r.Some? ==>
                var payload := old(records)[0].payload;
                |payload| <= |r.value| < |payload| + 8 && r.value[..|payload|] == payload
      ensures r.Some? ==> r.value == ReadAt(data[..], old(head))
    {
      hide Mod, IsPow2, Inv, Sized, Slice, FromBytes, ReadAt;
      RingShape(data[..], head, tail, records);
      var size := PeekSize();
      if size < 0 { return None; }
      Pop(data[..], head, tail, records);
      ReadAtRecord(data[..], records[0]);
      ChainFits(data[..], head, tail, records);
      ModAdd(head, HEADER, U32);
      var first, second := Pieces(head + HEADER, Word(bufHead + HEADER), size);
      SlicePrefix(data[..], head + HEADER, |records[0].payload|, size);
      r := Some(first + second);
      var res, len := PopRecord();
    }
  }

  /** What two copies leave: the end of the bytes in front, the start of them at the end. */
  lemma TwoCopies(before: seq<Byte>, middle: seq<Byte>, after: seq<Byte>, o: nat, bytes: seq<Byte>)
    requires o < |before| < o + |bytes| <= o + |before|
    requires var n := |before| - o; middle == before[..o] + bytes[..n] + before[o + n..]
    requires var n := |before| - o; after == middle[..0] + bytes[n..] + middle[|bytes| - n..]
    ensures var n := |before| - o; after == bytes[n..] + before[|bytes| - n..o] + bytes[..n]
  {
    var n := |before| - o;
    assert before[o + n..] == [];
    assert middle[|bytes| - n..] == before[|bytes| - n..o] + bytes[..n];
  }

  /** Part of a stored stretch. */
  lemma SliceWithin(ring: seq<Byte>, p: nat, bytes: seq<Byte>, o: nat, n: nat)
    requires |ring| > 0 && Slice(ring, p, |bytes|) == bytes && o + n <= |bytes|
    ensures Slice(ring, p + o, n) == bytes[o..o + n]
  {
    hide Mod;
    var part, want := Slice(ring, p + o, n), bytes[o..o + n];
    forall j | 0 <= j < n ensures part[j] == want[j] {
      assert Slice(ring, p, |bytes|)[o + j] == ring[Mod(p + (o + j), |ring|)];
    }
  }

  /** A read where a record starts returns its padded payload. */
  lemma ReadAtRecord(ring: seq<Byte>, rec: Record)
    requires |ring| > 0 && Holds(ring, rec) && Sized(rec)
    ensures ReadAt(ring, rec.start) == Slice(ring, rec.start + HEADER, Reserved(|rec.payload|) - HEADER)
  {
    hide Slice, ToBytes, FromBytes, Pow2;
    Pow2Values();
    NumberRoundTrip(Reserved(|rec.payload|), 2);
  }

  /** An aligned word never straddles the end of the ring. */
  lemma WordInside(b: nat, p: nat)
    requires IsPow2(b) && b >= 8 && p % 4 == 0
    ensures Mod(p, b) + 4 <= b
  {
    hide Mod, IsPow2;
    FourDivides(b);
    ModOfMod(p, b, 4);
    ModIsRemainder(p, 4);
    ModIsRemainder(Mod(p, b), 4);
    ModIsRemainder(b, 4);
  }

  lemma FourDivides(b: nat)
    requires IsPow2(b) && b >= 4
    ensures Mod(b, 4) == 0
  {
    Pow2IsPow2(2);
    assert Pow2(2) == 4;
    Pow2Divides(4, b);
  }

  lemma CastLengthIs(elem: seq<Byte>)
    ensures CastLength(elem) <= |elem| && (|elem| < U16 ==> CastLength(elem) == |elem|)
  {}

  lemma ChainFits(ring: seq<Byte>, head: nat, tail: nat, q: seq<Record>)
    requires Inv(ring, head, tail, q) && q != []
    ensures End(q[0]) <= tail <= head + |ring|
  {
    ChainedBounds(q, head, tail, 0);
  }

  /** The parts of the invariant that the code relies on. */
  lemma RingShape(ring: seq<Byte>, head: nat, tail: nat, q: seq<Record>)
    requires Inv(ring, head, tail, q)
    ensures IsPow2(|ring|) && 8 <= |ring| <= 0x8000_0000 && tail % 8 == 0 && head % 8 == 0
    ensures head <= tail <= head + |ring|
    ensures q == [] <==> head == tail
  {
    EmptyExactly(q, head, tail);
  }
}

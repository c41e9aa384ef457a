/**
 * The perf ring as values (util/perf_ring.c): bytes at unbounded positions,
 * stored modulo the ring size, and the records laid out on them.
 */
module PerfRingSpec {
  import opened Bits
  import opened LittleEndian
  import EQ = ElementQueueLayout

  /** `sizeof(struct perf_event_header)`. */
  const HEADER: nat := 8

  /** `n` bytes from position `p` on. */
  function Slice(ring: seq<Byte>, p: nat, n: nat): (r: seq<Byte>)
    requires |ring| > 0
    ensures |r| == n
  {
    seq(n, j requires 0 <= j < n => ring[Mod(p + j, |ring|)])
  }

  /** Whether index `j` of the ring lies in the `n` bytes from `p` on. */
  predicate Inside(b: nat, p: nat, n: nat, j: int)
    requires b > 0
  {
    Mod(j - p, b) < n
  }

  /** `after` is `before` with `bytes` stored from `p` on and nothing else changed. */
  ghost predicate Stored(before: seq<Byte>, after: seq<Byte>, p: nat, bytes: seq<Byte>)
    requires |before| > 0
  {
    && |after| == |before| && Slice(after, p, |bytes|) == bytes
    && forall j :: 0 <= j < |before| && !Inside(|before|, p, |bytes|, j) ==> after[j] == before[j]
  }

  /** Positions before a stored range, and less than a ring away from its end, are outside it. */
  lemma OutsideRange(b: nat, p: nat, n: nat, x: nat)
    requires 0 < b && n <= b && (p + n <= x < p + b || p + n <= x + b < p + b)
    ensures !Inside(b, p, n, Mod(x, b))
  {
    ModAdd(x, 0 - p, b);
    if x < p { ModPlus(x - p, b); }
  }

  /** What lies outside a stored range is still there. */
  lemma SliceKept(before: seq<Byte>, after: seq<Byte>, p: nat, bytes: seq<Byte>, q: nat, m: nat)
    requires |before| > 0 && |bytes| <= |before| && Stored(before, after, p, bytes)
    requires q + m <= p <= p + |bytes| <= q + |before| || p + |bytes| <= q <= q + m <= p + |before|
    ensures Slice(after, q, m) == Slice(before, q, m)
  {
    hide Inside, Mod;
    forall j | 0 <= j < m ensures Slice(after, q, m)[j] == Slice(before, q, m)[j] {
      OutsideRange(|before|, p, |bytes|, q + j);
    }
  }

  /** Only the position modulo the ring size matters. */
  lemma StoredAt(before: seq<Byte>, after: seq<Byte>, p: nat, bytes: seq<Byte>)
    requires |before| > 0 && Stored(before, after, Mod(p, |before|), bytes)
    ensures Stored(before, after, p, bytes)
  {
    hide Mod, Slice, Inside;
    var b := |before|;
    SliceAt(after, p, |bytes|);
    forall j | 0 <= j < b && !Inside(b, p, |bytes|, j) ensures after[j] == before[j] {
      InsideAt(b, p, |bytes|, j);
    }
  }

  lemma SliceAt(ring: seq<Byte>, p: nat, n: nat)
    requires |ring| > 0
    ensures Slice(ring, Mod(p, |ring|), n) == Slice(ring, p, n)
  {
    hide Mod;
    forall j | 0 <= j < n ensures Slice(ring, Mod(p, |ring|), n)[j] == Slice(ring, p, n)[j] {
      ModAdd(p, j, |ring|);
    }
  }

  lemma InsideAt(b: nat, p: nat, n: nat, j: nat)
    requires b > 0
    ensures Inside(b, Mod(p, b), n, j) <==> Inside(b, p, n, j)
  {
    hide Mod;
    ModSub(j, p, b);
  }

  /** Where a range from `o` on lies, index by index. */
  lemma InsideCases(b: nat, o: nat, n: nat, j: nat)
    requires o < b && j < b
    ensures Inside(b, o, n, j) <==> if o <= j then j - o < n else j - o + b < n
  {
    if j < o { ModPlus(j - o, b); }
  }

  lemma WrapCases(b: nat, o: nat, j: nat)
    requires o < b && j < b
    ensures Mod(o + j, b) == if o + j < b then o + j else o + j - b
  {
    if o + j >= b { ModPlus(o + j - b, b); }
  }

  /** A store that ends before the end of the ring. */
  lemma StoredWhole(before: seq<Byte>, after: seq<Byte>, o: nat, bytes: seq<Byte>)
    requires o < |before| && o + |bytes| <= |before|
    requires after == before[..o] + bytes + before[o + |bytes|..]
    ensures Stored(before, after, o, bytes)
  {
    hide Mod, Inside;
    var b := |before|;
    forall j | 0 <= j < |bytes| ensures Slice(after, o, |bytes|)[j] == bytes[j] {
      WrapCases(b, o, j);
      assert after[o + j] == bytes[j];
    }
    forall j | 0 <= j < b && !Inside(b, o, |bytes|, j) ensures after[j] == before[j] {
      InsideCases(b, o, |bytes|, j);
    }
  }

  /** A store in two pieces, the second at the start of the ring. */
  lemma StoredSplit(before: seq<Byte>, after: seq<Byte>, o: nat, bytes: seq<Byte>)
    requires o < |before| < o + |bytes| <= o + |before|
    requires var n := |before| - o; after == bytes[n..] + before[|bytes| - n..o] + bytes[..n]
    ensures Stored(before, after, o, bytes)
  {
    hide Mod, Inside;
    var b := |before|;
    var n := b - o;
    forall j | 0 <= j < |bytes| ensures Slice(after, o, |bytes|)[j] == bytes[j] {
      WrapCases(b, o, j);
      if j < n { assert after[o + j] == bytes[j]; } else { assert after[j - n] == bytes[j]; }
    }
    forall j | 0 <= j < b && !Inside(b, o, |bytes|, j) ensures after[j] == before[j] {
      InsideCases(b, o, |bytes|, j);
    }
  }

  /** Reading a range in one piece or in two. */
  lemma SliceWhole(ring: seq<Byte>, p: nat, n: nat, o: nat)
    requires |ring| > 0 && o == Mod(p, |ring|) && o + n <= |ring|
    ensures Slice(ring, p, n) == ring[o..o + n]
  {
    forall j | 0 <= j < n ensures Slice(ring, p, n)[j] == ring[o + j] {
      ModWithin(p, |ring|, j);
    }
  }

  lemma SliceSplit(ring: seq<Byte>, p: nat, n: nat, o: nat)
    requires |ring| > 0 && o == Mod(p, |ring|) && |ring| < o + n <= o + |ring|
    ensures Slice(ring, p, n) == ring[o..] + ring[..o + n - |ring|]
  {
    var b := |ring|;
    forall j | 0 <= j < n ensures Slice(ring, p, n)[j] == (ring[o..] + ring[..o + n - b])[j] {
      ModAdd(p, j, b);
      if o + j >= b { ModPlus(o + j - b, b); }
    }
  }

  // ---------------------------------------------------------------- records

  /** A record: its position, its payload and its type. */
  datatype Record = Record(start: nat, payload: seq<Byte>, kind: nat)

  /** Bytes that a payload of this length occupies with its header. */
  function Reserved(len: nat): (r: nat)
    ensures len + HEADER <= r < len + HEADER + 8 && r % 8 == 0
  {
    EQ.Align8(len + HEADER)
  }

  /** The record is in the ring: type and size in the header, the payload behind it. */
  ghost predicate Holds(ring: seq<Byte>, rec: Record)
    requires |ring| > 0
  {
    && Slice(ring, rec.start, 4) == ToBytes(rec.kind, 4)
    && Slice(ring, rec.start + 6, 2) == ToBytes(Reserved(|rec.payload|), 2)
    && Slice(ring, rec.start + HEADER, |rec.payload|) == rec.payload
  }

  function End(rec: Record): nat {
    rec.start + Reserved(|rec.payload|)
  }

  /** Records one behind the other from `head` to `tail`. */
  ghost predicate Chained(q: seq<Record>, head: nat, tail: nat) {
    && (q == [] ==> head == tail)
    && (q != [] ==> q[0].start == head && End(q[|q| - 1]) == tail)
    && (forall i :: 0 < i < |q| ==> Follows(q, i))
  }

  ghost predicate Follows(q: seq<Record>, i: nat)
    requires 0 < i < |q|
  {
    q[i].start == End(q[i - 1])
  }

  ghost predicate Sized(rec: Record) {
    Reserved(|rec.payload|) < 0x1_0000 && rec.kind < U32 && rec.start % 8 == 0
  }

  /** The ring between the cursors `head` and `tail` is exactly the records. */
  ghost predicate Inv(ring: seq<Byte>, head: nat, tail: nat, q: seq<Record>) {
    && IsPow2(|ring|) && 8 <= |ring| <= 0x8000_0000
    && head <= tail <= head + |ring| && head % 8 == 0 && tail % 8 == 0
    && Chained(q, head, tail)
    && (forall i :: 0 <= i < |q| ==> Sized(q[i]))
    && (forall i :: 0 <= i < |q| ==> Holds(ring, q[i]))
  }

  lemma {:induction false} ChainedBounds(q: seq<Record>, head: nat, tail: nat, i: nat)
    requires Chained(q, head, tail) && i < |q|
    ensures head <= q[i].start && End(q[i]) <= tail
    ensures 0 < i ==> End(q[0]) <= q[i].start
  {
    ChainedAbove(q, head, tail, i);
    if i > 0 {
      ChainedBounds(q, head, tail, i - 1);
      assert Follows(q, i);
    }
  }

  lemma {:induction false} ChainedAbove(q: seq<Record>, head: nat, tail: nat, i: nat)
    requires Chained(q, head, tail) && i < |q|
    ensures End(q[i]) <= tail
    decreases |q| - i
  {
    if i + 1 < |q| {
      ChainedAbove(q, head, tail, i + 1);
      assert Follows(q, i + 1);
    }
  }

  /** The queue is empty exactly when the cursors meet. */
  lemma EmptyExactly(q: seq<Record>, head: nat, tail: nat)
    requires Chained(q, head, tail)
    ensures q == [] <==> head == tail
  {
    if q != [] { ChainedBounds(q, head, tail, 0); }
  }

  /** A header never straddles the end of the ring. */
  lemma HeaderInside(b: nat, p: nat)
    requires IsPow2(b) && b >= 8 && p % 8 == 0
    ensures Mod(p, b) + HEADER <= b
  {
    hide Mod, Pow2, IsPow2;
    Pow2Small();
    Pow2IsPow2(3);
    Pow2Divides(8, b);
    ModOfMod(p, b, 8);
    ModIsRemainder(p, 8);
    ModIsRemainder(Mod(p, b), 8);
    ModIsRemainder(b, 8);
  }

  // ---------------------------------------------------------------- what each step keeps

  /** Storing outside a record leaves the record. */
  lemma HoldsKept(before: seq<Byte>, after: seq<Byte>, p: nat, bytes: seq<Byte>, rec: Record)
    requires |before| > 0 && |bytes| <= |before| && Stored(before, after, p, bytes) && Holds(before, rec)
    requires End(rec) <= p <= p + |bytes| <= rec.start + |before|
    ensures Holds(after, rec)
  {
    hide Stored, Slice;
    SliceKept(before, after, p, bytes, rec.start, 4);
    SliceKept(before, after, p, bytes, rec.start + 6, 2);
    SliceKept(before, after, p, bytes, rec.start + HEADER, |rec.payload|);
  }

  /** Storing into free space keeps every record. */
  lemma FreeStore(before: seq<Byte>, after: seq<Byte>, head: nat, tail: nat, q: seq<Record>, p: nat, bytes: seq<Byte>)
    requires Inv(before, head, tail, q) && Stored(before, after, p, bytes)
    requires tail <= p <= p + |bytes| <= head + |before|
    ensures Inv(after, head, tail, q)
  {
    hide Stored, Holds, Chained, Sized, IsPow2;
    assert |after| == |before| by { StoredLength(before, after, p, bytes); }
    forall i | 0 <= i < |q| ensures Holds(after, q[i]) {
      ChainedBounds(q, head, tail, i);
      HoldsKept(before, after, p, bytes, q[i]);
    }
  }

  lemma StoredLength(before: seq<Byte>, after: seq<Byte>, p: nat, bytes: seq<Byte>)
    requires |before| > 0 && Stored(before, after, p, bytes)
    ensures |after| == |before|
  {}

  /** A record behind the last one. */
  lemma Append(ring: seq<Byte>, head: nat, tail: nat, q: seq<Record>, rec: Record)
    requires Inv(ring, head, tail, q) && rec.start == tail && Sized(rec) && Holds(ring, rec)
    requires End(rec) <= head + |ring|
    ensures Inv(ring, head, End(rec), q + [rec])
  {
    hide Holds, Sized, Reserved, IsPow2;
    var q' := q + [rec];
    assert End(rec) % 8 == 0 by { EndAligned(rec); }
    forall i | 0 < i < |q'| ensures Follows(q', i) {
      if i < |q| { assert Follows(q, i); }
    }
  }

  lemma EndAligned(rec: Record)
    requires Sized(rec)
    ensures End(rec) % 8 == 0 && End(rec) > rec.start
  {}

  /** Writing from the payload of the last record on, at most up to the head: the record gets what its size takes. */
  lemma Fill(before: seq<Byte>, after: seq<Byte>, head: nat, tail: nat, q: seq<Record>, rec: Record, bytes: seq<Byte>)
    requires Inv(before, head, tail, q + [rec]) && |rec.payload| <= |bytes| <= |before|
    requires rec.start + HEADER + |bytes| <= head + |before|
    requires Stored(before, after, rec.start + HEADER, bytes)
    ensures Inv(after, head, tail, q + [rec.(payload := bytes[..|rec.payload|])])
  {
    hide Stored, Holds, Sized, Slice, IsPow2;
    var filled := rec.(payload := bytes[..|rec.payload|]);
    var p, old', new' := rec.start + HEADER, q + [rec], q + [filled];
    StoredLength(before, after, p, bytes);
    ChainedBounds(old', head, tail, |q|);
    forall i | 0 < i < |new'| ensures Follows(new', i) {
      assert Follows(old', i);
    }
    forall i | 0 <= i < |new'| ensures Sized(new'[i]) && Holds(after, new'[i]) {
      ChainedBounds(old', head, tail, i);
      assert Sized(old'[i]) && Holds(before, old'[i]);
      if i < |q| {
        ChainedOrder(old', head, tail, i, |q|);
        HoldsKept(before, after, p, bytes, q[i]);
      } else {
        FilledHolds(before, after, rec, bytes);
      }
    }
  }

  lemma {:induction false} ChainedOrder(q: seq<Record>, head: nat, tail: nat, i: nat, j: nat)
    requires Chained(q, head, tail) && i < j < |q|
    ensures End(q[i]) <= q[j].start
    decreases j
  {
    assert Follows(q, j);
    if i < j - 1 { ChainedOrder(q, head, tail, i, j - 1); }
  }

  lemma FilledHolds(before: seq<Byte>, after: seq<Byte>, rec: Record, bytes: seq<Byte>)
    requires |before| > 0 && HEADER + |bytes| <= |before| && |rec.payload| <= |bytes|
    requires Stored(before, after, rec.start + HEADER, bytes) && Holds(before, rec) && Sized(rec)
    ensures var filled := rec.(payload := bytes[..|rec.payload|]); Holds(after, filled) && Sized(filled)
  {
    SliceKept(before, after, rec.start + HEADER, bytes, rec.start, 4);
    SliceKept(before, after, rec.start + HEADER, bytes, rec.start + 6, 2);
    SlicePrefix(after, rec.start + HEADER, |rec.payload|, |bytes|);
  }

  lemma SlicePrefix(ring: seq<Byte>, p: nat, m: nat, n: nat)
    requires |ring| > 0 && m <= n
    ensures Slice(ring, p, n)[..m] == Slice(ring, p, m)
  {}

  /** Dropping the first record. */
  lemma Pop(ring: seq<Byte>, head: nat, tail: nat, q: seq<Record>)
    requires Inv(ring, head, tail, q) && q != []
    ensures Inv(ring, End(q[0]), tail, q[1..]) && head == q[0].start && Sized(q[0]) && Holds(ring, q[0])
  {
    hide Holds, Sized, Reserved, IsPow2;
    var q' := q[1..];
    assert Sized(q[0]);
    EndAligned(q[0]);
    ChainedBounds(q, head, tail, 0);
    if q' != [] { assert Follows(q, 1); }
    forall i | 0 < i < |q'| ensures Follows(q', i) {
      assert Follows(q, i + 1);
    }
  }

  // ---------------------------------------------------------------- a write and what reads back

  /** The ring with `bytes` stored from `p` on. */
  function Store(ring: seq<Byte>, p: nat, bytes: seq<Byte>): (r: seq<Byte>)
    requires 0 < |ring| && |bytes| <= |ring|
    ensures |r| == |ring|
  {
    seq(|ring|, j requires 0 <= j < |ring| =>
      if Inside(|ring|, p, |bytes|, j) then bytes[Mod(j - p, |ring|)] else ring[j])
  }

  /** Store is the only ring that is stored in this sense. */
  lemma StoredIsStore(before: seq<Byte>, after: seq<Byte>, p: nat, bytes: seq<Byte>)
    requires 0 < |before| && |bytes| <= |before| && Stored(before, after, p, bytes)
    ensures after == Store(before, p, bytes)
  {
    hide Mod;
    var b, want := |before|, Store(before, p, bytes);
    forall j | 0 <= j < b ensures after[j] == want[j] {
      if Inside(b, p, |bytes|, j) {
        var k := Mod(j - p, b);
        ModAdd(j - p, p, b);
        ModSmall(j, b);
        assert Slice(after, p, |bytes|)[k] == bytes[k];
      }
    }
  }

  lemma StoreStores(ring: seq<Byte>, p: nat, bytes: seq<Byte>)
    requires 0 < |ring| && |bytes| <= |ring|
    ensures Stored(ring, Store(ring, p, bytes), p, bytes)
  {
    hide Mod;
    var b, after := |ring|, Store(ring, p, bytes);
    forall k | 0 <= k < |bytes| ensures Slice(after, p, |bytes|)[k] == bytes[k] {
      ModAdd(p + k, 0 - p, b);
      ModSmall(k, b);
    }
  }

  /** The length of an element, as the 16-bit parameter of `pr_write` receives it. */
  function CastLength(elem: seq<Byte>): (n: nat)
    ensures n < U16
  {
    Mod(|elem|, U16)
  }

  /** The ring after writing a header for `size` bytes at `p`. */
  function WithHeader(ring: seq<Byte>, p: nat, size: nat, kind: nat): (r: seq<Byte>)
    requires HEADER <= |ring|
    ensures |r| == |ring|
  {
    Store(Store(ring, p + 6, ToBytes(size, 2)), p, ToBytes(kind, 4))
  }

  /** The ring after writing an element at `p`: the header has the cast length, the copy takes the whole element. */
  function Written(ring: seq<Byte>, p: nat, elem: seq<Byte>, kind: nat): (r: seq<Byte>)
    requires HEADER <= |ring| && |elem| <= |ring|
    ensures |r| == |ring|
  {
    Store(WithHeader(ring, p, Reserved(CastLength(elem)), kind), p + HEADER, elem)
  }

  /** What a read at `p` returns: as many bytes as the size in the header says. */
  function ReadAt(ring: seq<Byte>, p: nat): seq<Byte>
    requires |ring| > 0
  {
    var size := FromBytes(Slice(ring, p + 6, 2));
    Slice(ring, p + HEADER, if size >= HEADER then size - HEADER else 0)
  }

  /** The element comes back, followed by fewer than 8 bytes. */
  predicate Returned(ring: seq<Byte>, p: nat, elem: seq<Byte>)
    requires |ring| > 0
  {
    var r := ReadAt(ring, p);
    |elem| <= |r| < |elem| + 8 && r[..|elem|] == elem
  }

  /** The size in the header survives the copy of the element, unless the copy comes around to it. */
  lemma SizeSurvives(ring: seq<Byte>, p: nat, elem: seq<Byte>, kind: nat)
    requires HEADER <= |ring| && |elem| + 2 <= |ring| && Reserved(CastLength(elem)) < U16
    ensures FromBytes(Slice(Written(ring, p, elem, kind), p + 6, 2)) == Reserved(CastLength(elem))
  {
    hide Mod, Slice, Store, Stored, ToBytes, FromBytes, Pow2, Reserved;
    var size, head := Reserved(CastLength(elem)), ToBytes(kind, 4);
    var ring1 := Store(ring, p + 6, ToBytes(size, 2));
    var ring2 := Store(ring1, p, head);
    StoreStores(ring, p + 6, ToBytes(size, 2));
    StoredSlice(ring, ring1, p + 6, ToBytes(size, 2));
    StoreStores(ring1, p, head);
    SliceKept(ring1, ring2, p, head, p + 6, 2);
    StoreStores(ring2, p + HEADER, elem);
    SliceKept(ring2, Store(ring2, p + HEADER, elem), p + HEADER, elem, p + 6, 2);
    Pow2Values();
    NumberRoundTrip(size, 2);
  }

  lemma StoredSlice(before: seq<Byte>, after: seq<Byte>, p: nat, bytes: seq<Byte>)
    requires |before| > 0 && Stored(before, after, p, bytes)
    ensures |after| == |before| && Slice(after, p, |bytes|) == bytes
  {}

  /** A size field has 16 bits, so no read returns 2^16 bytes. */
  lemma ReadAtShort(ring: seq<Byte>, p: nat)
    requires |ring| > 0
    ensures |ReadAt(ring, p)| < U16 - HEADER
  {
    hide FromBytes, Slice;
    var s := Slice(ring, p + 6, 2);
    assert s == [s[0], s[1]];
    Pair(s[0], s[1]);
  }

  /** An accepted element comes back exactly when it is shorter than 2^16 bytes. */
  lemma ReturnedExactly(ring: seq<Byte>, p: nat, elem: seq<Byte>, kind: nat)
    requires HEADER <= |ring| && |elem| <= |ring|
    requires Reserved(CastLength(elem)) < |ring| && Reserved(CastLength(elem)) < U16
    ensures Returned(Written(ring, p, elem, kind), p, elem) <==> |elem| < U16
  {
    hide Mod, Slice, Store, Stored, FromBytes, WithHeader;
    var after := Written(ring, p, elem, kind);
    ReadAtShort(after, p);
    if |elem| < U16 {
      ModSmall(|elem|, U16);
      SizeSurvives(ring, p, elem, kind);
      var ring2 := WithHeader(ring, p, Reserved(CastLength(elem)), kind);
      StoreStores(ring2, p + HEADER, elem);
      StoredSlice(ring2, after, p + HEADER, elem);
      SlicePrefix(after, p + HEADER, |elem|, Reserved(|elem|) - HEADER);
    }
  }

  /** Three bytes of kind 9 in an empty ring: kind, two unused bytes, size with padding, then the bytes. */
  lemma ShortExample(ring: seq<Byte>)
    requires ring == [0, 0, 0, 0, 0, 0, 0, 0, 0, 0, 0, 0, 0, 0, 0, 0]
    ensures Written(ring, 0, [1, 2, 3], 9) == [9, 0, 0, 0, 0, 0, 16, 0, 1, 2, 3, 0, 0, 0, 0, 0]
  {
    hide Mod, Store, ToBytes, Reserved;
    ModSmall(3, U16);
    assert Reserved(3) == 16 by { ReservedBounds(3); }
    ShortHeader();
    var sized: seq<Byte> := [0, 0, 0, 0, 0, 0, 16, 0, 0, 0, 0, 0, 0, 0, 0, 0];
    var headed: seq<Byte> := [9, 0, 0, 0, 0, 0, 16, 0, 0, 0, 0, 0, 0, 0, 0, 0];
    StoreInside(ring, 6, [16, 0]);
    assert Store(ring, 6, [16, 0]) == sized;
    StoreInside(sized, 0, [9, 0, 0, 0]);
    assert Store(sized, 0, [9, 0, 0, 0]) == headed;
    StoreInside(headed, 8, [1, 2, 3]);
  }

  lemma ReservedBounds(len: nat)
    ensures len + 8 <= Reserved(len) < len + 16 && Reserved(len) % 8 == 0
  {}

  lemma ShortHeader()
    ensures ToBytes(16, 2) == [16, 0] && ToBytes(9, 4) == [9, 0, 0, 0]
  {
    assert ToBytes(0, 1) == [0];
    assert ToBytes(0, 2) == [0, 0];
    assert ToBytes(0, 3) == [0, 0, 0];
  }

  /** A store that does not wrap. */
  lemma StoreInside(ring: seq<Byte>, p: nat, bytes: seq<Byte>)
    requires p + |bytes| <= |ring| && ring != []
    ensures Store(ring, p, bytes) == ring[..p] + bytes + ring[p + |bytes|..]
  {
    hide Mod;
    var want := ring[..p] + bytes + ring[p + |bytes|..];
    forall j: nat | j < |ring| ensures Store(ring, p, bytes)[j] == want[j] {
      OffsetInside(j, p, |ring|);
    }
  }

  lemma OffsetInside(j: nat, p: nat, b: nat)
    requires j < b && p <= b
    ensures Mod(j - p, b) == if p <= j then j - p else j - p + b
  {
    hide Mod;
    if p <= j {
      ModSmall(j - p, b);
    } else {
      ModPlus(j - p, b);
      ModSmall(j - p + b, b);
    }
  }

  /** An element of 2^16 bytes in a ring of 2^17: it is accepted, and a read returns nothing. */
  lemma LongExample(ring: seq<Byte>, elem: seq<Byte>)
    requires ring == seq(0x2_0000, _ => 0) && elem == seq(0x1_0000, _ => 1)
    ensures Inv(ring, 0, 0, []) && CastLength(elem) == 0 && Reserved(0) == 8
    ensures ReadAt(Written(ring, 0, elem, 0), 0) == []
  {
    hide Written, Slice, FromBytes, Mod, Pow2, IsPow2;
    Pow2Values();
    Pow2Add(16, 1);
    PowOne();
    Pow2IsPow2(17);
    ModPlus(0, U16);
    ModSmall(0, U16);
    SizeSurvives(ring, 0, elem, 0);
  }

  lemma PowOne()
    ensures Pow2(1) == 2
  {}
}

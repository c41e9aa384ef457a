/**
 * The element pool and the fixed-capacity hash built on it (util/pool.h,
 * util/fixed_hash.h): a free-list allocator, a bitmap, a counter and a key
 * index that are kept in step, also when constructing an element fails.
 */
module Pool {
  import opened Common
  import PA = PoolAllocator
  import BS = BitmapSpec
  import opened Bitmap

  const U16_MAX: nat := 0xFFFF
  /** The largest bitmap. */
  const MAX_SIZE: nat := 0x4000_0000

  /** `invalid` of the index type that a pool of `n` elements uses. */
  function Invalid(n: nat): nat {
    if n >= U16_MAX then PA.NULL_ELEM else U16_MAX
  }

  /** The mark is the largest value of its type, and no index of the pool; 65535 elements need the larger type. */
  lemma InvalidMark(n: nat)
    requires n < 0x1_0000_0000
    ensures n <= Invalid(n)
    ensures n < 65535 ==> Invalid(n) + 1 == 0x1_0000
    ensures n >= 65535 ==> Invalid(n) + 1 == 0x1_0000_0000
  {}

  /** How a call that may construct an element ends. */
  datatype Outcome = At(index: nat) | Refused | Thrown

  /** Every held slot holds an element. */
  ghost predicate Holds<T>(slots: seq<PA.Slot<T>>, held: set<nat>) {
    forall i :: i in held ==> i < |slots| && slots[i].Used?
  }

  /** The elements in the held slots. */
  ghost function Values<T>(slots: seq<PA.Slot<T>>, held: set<nat>): (r: map<nat, T>)
    requires Holds(slots, held)
    ensures r.Keys == held && |r| == |held|
  {
    var r := map i | i in held :: slots[i].value;
    assert r.Keys == held;
    r
  }

  ghost predicate SameBut<T>(slots: seq<PA.Slot<T>>, slots': seq<PA.Slot<T>>, index: nat) {
    |slots'| == |slots| && forall i :: 0 <= i < |slots| && i != index ==> slots'[i] == slots[i]
  }

  lemma ValuesKeep<T>(slots: seq<PA.Slot<T>>, slots': seq<PA.Slot<T>>, held: set<nat>, index: nat)
    requires Holds(slots, held) && SameBut(slots, slots', index) && index !in held
    ensures Holds(slots', held) && Values(slots', held) == Values(slots, held)
  {}

  lemma ValuesAdd<T>(slots: seq<PA.Slot<T>>, slots': seq<PA.Slot<T>>, held: set<nat>, index: nat, value: T)
    requires Holds(slots, held) && SameBut(slots, slots', index) && index !in held
    requires index < |slots'| && slots'[index] == PA.Used(value)
    ensures Holds(slots', held + {index}) && Values(slots', held + {index}) == Values(slots, held)[index := value]
  {}

  class Pool<T> {
    const alloc: PA.Allocator<T>
    const bitmap: IterableBitmap
    const elements: array<PA.Slot<T>>
    var elemCount: nat
    var maxElemCount: nat

    /** One storage for pool and allocator, none of it shared with the bitmap. */
    ghost predicate Separate() {
      && alloc.pool == elements
      && forall l :: 0 <= l < |bitmap.mask| ==> bitmap.mask[l] as object != elements
    }

    /** The allocator, the bitmap, the counter and the storage agree. */
    ghost predicate Valid()
      reads this, alloc, elements, bitmap.mask
    {
      && Separate()
      && alloc.Valid() && bitmap.Valid() && bitmap.size == elements.Length <= MAX_SIZE
      && BS.Elements(bitmap.View()) == alloc.Held()
      && |alloc.Held()| == elemCount <= maxElemCount <= elements.Length
      && Holds(elements[..], alloc.Held())
    }

    /** The live elements by index. */
    ghost function Contents(): map<nat, T>
      requires Valid()
      reads this, alloc, elements, bitmap.mask
    {
      Values(elements[..], alloc.Held())
    }

    constructor (n: nat)
      requires 0 < n <= 0x4000_0000
      ensures Valid() && elements.Length == n && Contents() == map[] && maxElemCount == 0
      ensures fresh(alloc) && fresh(elements) && fresh(bitmap.mask)
    {
      hide BS.Elements, PA.Inv, PA.Live, PA.Allocator.Valid, PA.Allocator.View, PA.Allocator.Held;
      hide IterableBitmap.Valid, IterableBitmap.View;
      var slots := new PA.Slot<T>[n](_ => PA.Raw);
      var a := new PA.Allocator<T>(slots);
      var b := new IterableBitmap(n);
      alloc, bitmap, elements, elemCount, maxElemCount := a, b, slots, 0, 0;
    }

    /** `full`. */
    predicate Full()
      reads this
    {
      elemCount == elements.Length
    }

    /** `operator[]`. */
    method Get(index: nat) returns (value: T)
      requires Valid() && index in Contents()
      ensures value == Contents()[index]
    {
      value := elements[index].value;
    }

    /** Construct an element in a slot that the allocator handed out. */
    method Construct(index: nat, value: T)
      requires alloc.pool == elements && alloc.Valid() && index in alloc.Held()
      modifies elements
      ensures alloc.Valid() && alloc.Held() == old(alloc.Held())
      ensures index < elements.Length && elements[..] == old(elements[..])[index := PA.Used(value)]
    {
      ghost var s := alloc.View();
      PA.LiveWrite(s, alloc.chain, index, PA.Used(value));
      hide PA.Inv, PA.Live;
      elements[index] := PA.Used(value);
      assert alloc.View() == s.(slots := s.slots[index := PA.Used(value)]);
    }

    /** Take a slot and construct in it; a constructor that throws gives the slot back. */
    method Acquire(make: Option<T>) returns (index: nat)
      requires alloc.pool == elements && alloc.Valid() && |alloc.Held()| < elements.Length
      modifies alloc, elements
      ensures alloc.Valid() && index < elements.Length && index !in old(alloc.Held())
      ensures alloc.Held() == if make.Some? then old(alloc.Held()) + {index} else old(alloc.Held())
      ensures make.Some? ==> elements[index] == PA.Used(make.value)
      ensures SameBut(old(elements[..]), elements[..], index)
    {
      hide PA.Inv, PA.Live, PA.Allocator.Valid, PA.Allocator.View, PA.Allocator.Held;
      ghost var s := elements[..];
      index := alloc.Alloc();
      ghost var s1 := elements[..];
      if make.None? { alloc.Free(index); } else { Construct(index, make.value); }
      assert elements[..] == s1[index := elements[index]];
    }

    /** The bitmap depends on its own words only. */
    twostate lemma BitmapKept()
      requires old(bitmap.Valid()) && forall l :: 0 <= l < |bitmap.mask| ==> unchanged(bitmap.mask[l])
      ensures bitmap.Valid() && bitmap.View() == old(bitmap.View())
    {
      hide BS.Shaped, BS.Summary;
      assert bitmap.View() == old(bitmap.View());
    }

    /** ... and the allocator on its own fields and the storage. */
    twostate lemma AllocatorKept()
      requires alloc.pool == elements && unchanged(alloc) && unchanged(elements) && old(alloc.Valid())
      ensures alloc.Valid() && alloc.Held() == old(alloc.Held()) && elements[..] == old(elements[..])
    {
      assert alloc.View() == old(alloc.View());
    }

    /** Account for a newly constructed element. */
    method Commit(index: nat)
      requires bitmap.Valid() && index < bitmap.size
      modifies this, bitmap.mask
      ensures bitmap.Valid() && BS.Elements(bitmap.View()) == old(BS.Elements(bitmap.View())) + {index}
      ensures elemCount == old(elemCount) + 1
      ensures maxElemCount == if elemCount > old(maxElemCount) then elemCount else old(maxElemCount)
    {
      hide BS.Elements, IterableBitmap.Valid, IterableBitmap.View;
      elemCount := elemCount + 1;
      bitmap.Set(index);
      if elemCount > maxElemCount { maxElemCount := elemCount; }
    }

    /** `emplace`; constructing the element yields `make`, or throws when that is `None`. */
    method Emplace(make: Option<T>) returns (r: Outcome)
      requires Valid()
      modifies this, alloc, elements, bitmap.mask
      ensures Valid()
      ensures r == Refused <==> |old(Contents())| == elements.Length
      ensures r == Thrown <==> |old(Contents())| < elements.Length && make.None?
      ensures !r.At? ==> Contents() == old(Contents()) && maxElemCount == old(maxElemCount)
      ensures r.At? ==> r.index < elements.Length && r.index !in old(Contents()) && r.index != Invalid(elements.Length)
      ensures r.At? ==> make.Some? && Contents() == old(Contents())[r.index := make.value]
      ensures r.At? ==> maxElemCount == if elemCount > old(maxElemCount) then elemCount else old(maxElemCount)
    {
      hide BS.Elements, PA.Inv, PA.Live, PA.Allocator.Valid, PA.Allocator.View, PA.Allocator.Held;
      assert alloc.pool == elements;
      hide IterableBitmap.Valid, IterableBitmap.View, Holds, Values, SameBut;
      if Full() { return Refused; }
      ghost var slots, held := elements[..], alloc.Held();
      var index := Acquire(make);
      BitmapKept();
      if make.None? {
        ValuesKeep(slots, elements[..], held, index);
        return Thrown;
      }
      ValuesAdd(slots, elements[..], held, index, make.value);
      label constructed:
      Commit(index);
      AllocatorKept@constructed();
      hide Separate;
      r := At(index);
    }

    /** `remove`. */
    method Remove(index: nat)
      requires Valid() && index in Contents()
      modifies this, alloc, elements, bitmap.mask
      ensures Valid() && Contents() == old(Contents()) - {index} && maxElemCount == old(maxElemCount)
    {
      hide BS.Elements, PA.Inv, PA.Live, PA.Allocator.Valid, PA.Allocator.View, PA.Allocator.Held;
      hide IterableBitmap.Valid, IterableBitmap.View;
      alloc.Free(index);
      elemCount := elemCount - 1;
      bitmap.Clear(index);
    }
  }
}

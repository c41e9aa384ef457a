/**
 * The fixed-capacity hash (util/fixed_hash.h): a key index over an element
 * pool. The index and the pool change together, and an insertion that fails
 * half-way is undone.
 */
module FixedHash {
  import opened Common
  import BS = BitmapSpec
  import opened P = Pool

  /** Keys and held indices correspond one to one. */
  ghost predicate OneToOne<K>(index: map<K, nat>, held: set<nat>) {
    && (forall k :: k in index ==> index[k] in held)
    && (forall i :: i in held ==> exists k :: k in index && index[k] == i)
    && (forall j, k :: j in index && k in index && index[j] == index[k] ==> j == k)
  }

  /** Hence there are as many keys as held indices. */
  lemma {:induction false} SameCount<K>(index: map<K, nat>, held: set<nat>)
    requires OneToOne(index, held)
    ensures |index| == |held|
    decreases |index|
  {
    if |index| == 0 {
      assert held == {};
    } else {
      var key :| key in index;
      OneToOneErase(index, held, key);
      assert index.Keys == (index - {key}).Keys + {key};
      SameCount(index - {key}, held - {index[key]});
    }
  }

  lemma OneToOneAdd<K>(index: map<K, nat>, held: set<nat>, key: K, i: nat)
    requires OneToOne(index, held) && key !in index && i !in held
    ensures OneToOne(index[key := i], held + {i})
  {
    var index' := index[key := i];
    forall j | j in held + {i} ensures exists k :: k in index' && index'[k] == j {
      if j == i {
        assert index'[key] == i;
      } else {
        var k :| k in index && index[k] == j;
        assert index'[k] == j;
      }
    }
  }

  lemma OneToOneErase<K>(index: map<K, nat>, held: set<nat>, key: K)
    requires OneToOne(index, held) && key in index
    ensures OneToOne(index - {key}, held - {index[key]})
  {
    var index' := index - {key};
    forall j | j in held - {index[key]} ensures exists k :: k in index' && index'[k] == j {
      var k :| k in index && index[k] == j;
      assert index'[k] == j;
    }
  }

  /** What the hash stands for. */
  ghost function Bindings<K, T>(index: map<K, nat>, elements: map<nat, T>): (r: map<K, T>)
    requires OneToOne(index, elements.Keys)
    ensures r.Keys == index.Keys
  {
    map k | k in index :: elements[index[k]]
  }

  lemma BindingsAdd<K, T>(index: map<K, nat>, elements: map<nat, T>, key: K, i: nat, value: T)
    requires OneToOne(index, elements.Keys) && key !in index && i !in elements
    ensures OneToOne(index[key := i], elements[i := value].Keys)
    ensures Bindings(index[key := i], elements[i := value]) == Bindings(index, elements)[key := value]
  {
    OneToOneAdd(index, elements.Keys, key, i);
    assert elements[i := value].Keys == elements.Keys + {i};
  }

  lemma BindingsErase<K, T>(index: map<K, nat>, elements: map<nat, T>, key: K)
    requires OneToOne(index, elements.Keys) && key in index
    ensures index[key] in elements
    ensures OneToOne(index - {key}, (elements - {index[key]}).Keys)
    ensures Bindings(index - {key}, elements - {index[key]}) == Bindings(index, elements) - {key}
  {
    OneToOneErase(index, elements.Keys, key);
    assert (elements - {index[key]}).Keys == elements.Keys - {index[key]};
  }

  class FixedHash<K(==), T> {
    var index: map<K, nat>
    const pool: Pool<T>

    ghost predicate Valid()
      reads this, pool, pool.alloc, pool.elements, pool.bitmap.mask
    {
      pool.Valid() && OneToOne(index, pool.Contents().Keys)
    }

    ghost function Map(): map<K, T>
      requires Valid()
      reads this, pool, pool.alloc, pool.elements, pool.bitmap.mask
    {
      Bindings(index, pool.Contents())
    }

    constructor (n: nat)
      requires 0 < n <= MAX_SIZE
      ensures Valid() && Map() == map[] && pool.elements.Length == n
    {
      index := map[];
      pool := new Pool<T>(n);
    }

    /** Bind a key in the key index; the pool does not notice. */
    method Bind(key: K, i: nat)
      requires pool.Valid()
      modifies this
      ensures index == old(index)[key := i]
      ensures pool.Valid() && pool.Contents() == old(pool.Contents())
    {
      hide Pool.Valid, Pool.Contents;
      index := index[key := i];
    }

    /** Drop a key from the key index. */
    method Unbind(key: K)
      requires pool.Valid()
      modifies this
      ensures index == old(index) - {key}
      ensures pool.Valid() && pool.Contents() == old(pool.Contents())
    {
      hide Pool.Valid, Pool.Contents;
      index := index - {key};
    }

    /** The size, the number of keys and the number of bits set are the same. */
    lemma Sizes()
      requires Valid()
      ensures |Map()| == |index| == |pool.Contents()| == pool.elemCount <= pool.elements.Length
      ensures |BS.Elements(pool.bitmap.View())| == pool.elemCount
    {
      SameCount(index, pool.Contents().Keys);
      assert Map().Keys == index.Keys;
    }

    /** `find`. */
    method Find(key: K) returns (r: Outcome)
      requires Valid()
      ensures r.At? <==> key in Map()
      ensures !r.At? ==> r == Refused
      ensures r.At? ==> key in index && r.index == index[key]
      ensures r.At? ==> r.index in pool.Contents() && pool.Contents()[r.index] == Map()[key]
    {
      if key !in index { return Refused; }
      r := At(index[key]);
    }

    /** `insert`; constructing the element yields `make`, or throws when that is `None`. */
    method Insert(key: K, make: Option<T>) returns (r: Outcome)
      requires Valid()
      modifies this, pool, pool.alloc, pool.elements, pool.bitmap.mask
      ensures Valid()
      ensures r == Refused <==> |old(Map())| == pool.elements.Length || key in old(Map())
      ensures r == Thrown <==> |old(Map())| < pool.elements.Length && key !in old(Map()) && make.None?
      ensures !r.At? ==> Map() == old(Map()) && index == old(index) && pool.Contents() == old(pool.Contents())
      ensures r.At? ==> make.Some? && Map() == old(Map())[key := make.value]
      ensures r.At? ==> key in index && index[key] == r.index
    {
      hide Pool.Valid, Pool.Contents, OneToOne, Bindings;
      Sizes();
      if pool.Full() || key in index { return Refused; }
      ghost var was, elements := index, pool.Contents();
      Bind(key, Invalid(pool.elements.Length));
      r := pool.Emplace(make);
      if !r.At? {
        Unbind(key);
        assert index == was;
        return;
      }
      Bind(key, r.index);
      assert index == was[key := r.index];
      BindingsAdd(was, elements, key, r.index, make.value);
    }

    /** `erase`. */
    method Erase(key: K) returns (found: bool)
      requires Valid()
      modifies this, pool, pool.alloc, pool.elements, pool.bitmap.mask
      ensures Valid()
      ensures found <==> key in old(Map())
      ensures Map() == old(Map()) - {key}
    {
      hide Pool.Valid, Pool.Contents, OneToOne, Bindings;
      if key !in index { return false; }
      BindingsErase(index, pool.Contents(), key);
      pool.Remove(index[key]);
      Unbind(key);
      found := true;
    }
  }
}

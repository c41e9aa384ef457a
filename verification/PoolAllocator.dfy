/**
 * The lazy free-list allocator (util/pool_allocator.h, util/pool_allocator.c).
 * Freed slots are threaded into a list through their own storage; slots that
 * were never allocated form a frontier behind that list.
 */
module PoolAllocator {
  import opened Common

  /** `POOL_ALLOCATOR_NULL_ELEM`. */
  const NULL_ELEM: nat := 0xFFFF_FFFF
  const SIZEOF_U32: nat := 4

  /** What the storage of one slot holds. */
  datatype Slot<T> = Raw | Link(next: nat) | Zeroed | Used(value: T)

  datatype State<T> = State(slots: seq<Slot<T>>, freeList: nat, allocEnd: nat)

  /** Slots below the frontier were allocated at least once. */
  function Frontier<T>(s: State<T>): nat {
    if s.allocEnd == NULL_ELEM then |s.slots| else s.allocEnd
  }

  /** Where the list goes after element `i` of the chain. */
  ghost function After<T>(s: State<T>, chain: seq<nat>, i: nat): nat {
    if i < |chain| then chain[i] else s.allocEnd
  }

  /**
   * `chain` is the list from `freeList`: distinct slots below the frontier,
   * each linking to the next, the last one to the frontier.
   */
  ghost predicate Inv<T>(s: State<T>, chain: seq<nat>) {
    && 0 < |s.slots| <= NULL_ELEM
    && (s.allocEnd < |s.slots| || s.allocEnd == NULL_ELEM)
    && s.freeList == After(s, chain, 0)
    && (forall i :: 0 <= i < |chain| ==> chain[i] < Frontier(s))
    && (forall i :: 0 <= i < |chain| ==> s.slots[chain[i]] == Link(After(s, chain, i + 1)))
    && (forall i, j :: 0 <= i < j < |chain| ==> chain[i] != chain[j])
  }

  /** The slots handed out and not yet returned. */
  ghost function Live<T>(s: State<T>, chain: seq<nat>): set<nat> {
    set i: nat | i < Frontier(s) && i !in chain
  }

  /** `pool_allocator_alloc`. */
  function AllocStep<T>(s: State<T>): (State<T>, nat)
    requires s.freeList == NULL_ELEM || s.freeList < |s.slots|
    requires s.freeList != NULL_ELEM && s.freeList != s.allocEnd ==> s.slots[s.freeList].Link?
  {
    var id := s.freeList;
    if id == NULL_ELEM then (s, NULL_ELEM)
    else if id == s.allocEnd then
      var next := if id < |s.slots| - 1 then id + 1 else NULL_ELEM;
      (State(s.slots[id := Zeroed], next, next), id)
    else (State(s.slots[id := Zeroed], s.slots[id].next, s.allocEnd), id)
  }

  /** `pool_allocator_free`. */
  function FreeStep<T>(s: State<T>, id: nat): State<T>
    requires id < |s.slots|
  {
    s.(slots := s.slots[id := Link(s.freeList)], freeList := id)
  }

  /** The head is what allocation expects, and never beyond the frontier. */
  lemma HeadReady<T>(s: State<T>, chain: seq<nat>)
    requires Inv(s, chain)
    ensures s.freeList == NULL_ELEM || s.freeList < |s.slots|
    ensures s.freeList <= s.allocEnd
    ensures s.freeList != NULL_ELEM && s.freeList != s.allocEnd ==> s.slots[s.freeList].Link?
    ensures s.freeList == s.allocEnd <==> chain == []
  {
    if chain != [] { assert chain[0] < Frontier(s); }
  }

  /** Allocation never hands out a live slot, and fails exactly when every slot is live. */
  lemma AllocKeeps<T>(s: State<T>, chain: seq<nat>) returns (chain': seq<nat>)
    requires Inv(s, chain)
    ensures s.freeList == NULL_ELEM || s.freeList < |s.slots|
    ensures s.freeList != NULL_ELEM && s.freeList != s.allocEnd ==> s.slots[s.freeList].Link?
    ensures
      var (s', id) := AllocStep(s);
      && Inv(s', chain') && |s'.slots| == |s.slots|
      && (id == NULL_ELEM <==> |Live(s, chain)| == |s.slots|)
      && (id == NULL_ELEM ==> s' == s && chain' == chain)
      && (id != NULL_ELEM ==> id < |s.slots| && id !in Live(s, chain) && Live(s', chain') == Live(s, chain) + {id})
      && (id != NULL_ELEM ==> s'.slots == s.slots[id := Zeroed])
    ensures
      var s' := AllocStep(s).0;
      Frontier(s') == if chain == [] && s.allocEnd != NULL_ELEM then Frontier(s) + 1 else Frontier(s)
  {
    HeadReady(s, chain);
    CountLive(s, chain);
    var (s', id) := AllocStep(s);
    if chain == [] {
      chain' := [];
    } else {
      chain' := chain[1..];
      ChainTail(s, chain);
    }
  }

  /** Taking the first freed slot off the list. */
  lemma ChainTail<T>(s: State<T>, chain: seq<nat>)
    requires Inv(s, chain) && chain != []
    requires s.freeList < |s.slots| && s.freeList != s.allocEnd && s.freeList != NULL_ELEM && s.slots[s.freeList].Link?
    ensures Inv(AllocStep(s).0, chain[1..])
    ensures Live(AllocStep(s).0, chain[1..]) == Live(s, chain) + {chain[0]} && chain[0] !in Live(s, chain)
  {
    var s', rest := AllocStep(s).0, chain[1..];
    forall i | 0 <= i < |rest| ensures s'.slots[rest[i]] == Link(After(s', rest, i + 1)) {
      assert rest[i] == chain[i + 1] != chain[0];
    }
    forall i: nat | i < Frontier(s) ensures i in rest <==> i in chain && i != chain[0] {
      if i in chain && i != chain[0] {
        var k :| 0 <= k < |chain| && chain[k] == i;
        assert rest[k - 1] == i;
      }
    }
  }

  /** Returning a live slot puts it at the head of the list. */
  lemma FreeKeeps<T>(s: State<T>, chain: seq<nat>, id: nat)
    requires Inv(s, chain) && id in Live(s, chain)
    ensures id < |s.slots|
    ensures Inv(FreeStep(s, id), [id] + chain)
    ensures Live(FreeStep(s, id), [id] + chain) == Live(s, chain) - {id}
  {
    var s', chain' := FreeStep(s, id), [id] + chain;
    forall i | 0 <= i < |chain'| ensures s'.slots[chain'[i]] == Link(After(s', chain', i + 1)) {
      if i > 0 { assert chain'[i] == chain[i - 1] != id; }
    }
  }

  /** What the user stores in a live slot does not touch the list. */
  lemma LiveWrite<T>(s: State<T>, chain: seq<nat>, id: nat, slot: Slot<T>)
    requires Inv(s, chain) && id in Live(s, chain)
    ensures id < |s.slots|
    ensures var s' := s.(slots := s.slots[id := slot]); Inv(s', chain) && Live(s', chain) == Live(s, chain)
  {}

  /** A slot freed is the next one allocated, and both together leave the allocator as it was. */
  lemma FreeThenAlloc<T>(s: State<T>, chain: seq<nat>, id: nat)
    requires Inv(s, chain) && id in Live(s, chain)
    ensures id < |s.slots| && id != s.allocEnd && id != NULL_ELEM
    ensures AllocStep(FreeStep(s, id)) == (s.(slots := s.slots[id := Zeroed]), id)
  {
    assert s.slots[id := Link(s.freeList)][id := Zeroed] == s.slots[id := Zeroed];
  }

  // ---------------------------------------------------------------- counting

  ghost function Below(n: nat): (r: set<nat>)
    ensures |r| == n && forall i: nat :: i in r <==> i < n
  {
    if n == 0 then {} else Below(n - 1) + {n - 1}
  }

  ghost function Members(chain: seq<nat>): set<nat> {
    set i | i in chain
  }

  lemma {:induction false} CountChain(chain: seq<nat>)
    requires forall i, j :: 0 <= i < j < |chain| ==> chain[i] != chain[j]
    ensures |Members(chain)| == |chain|
  {
    if chain != [] {
      CountChain(chain[1..]);
      assert Members(chain) == Members(chain[1..]) + {chain[0]};
    }
  }

  /** Live and freed slots together are exactly the slots below the frontier. */
  lemma CountLive<T>(s: State<T>, chain: seq<nat>)
    requires Inv(s, chain)
    ensures |Live(s, chain)| + |chain| == Frontier(s) <= |s.slots|
    ensures |Live(s, chain)| == |s.slots| <==> s.freeList == NULL_ELEM
  {
    CountChain(chain);
    assert Members(chain) <= Below(Frontier(s));
    HeadReady(s, chain);
    hide After, Frontier, Inv;
    assert Live(s, chain) == Below(Frontier(s)) - Members(chain);
  }

  // ---------------------------------------------------------------- whole runs

  datatype Op = Alloc | Free(id: nat)

  /** `pool_allocator_init` on a pool of `n` slots. */
  function Initial<T>(slots: seq<Slot<T>>): State<T> {
    State(slots, 0, 0)
  }

  lemma InitialInv<T>(slots: seq<Slot<T>>)
    requires 0 < |slots| <= NULL_ELEM
    ensures Inv(Initial(slots), []) && Live(Initial(slots), []) == {}
  {}

  /** What a caller knows: the indices it holds and how many it held at most. */
  datatype Caller = Caller(held: set<nat>, peak: nat)

  /** One call as the caller sees it: `got` is what an allocation returned. */
  function Call(c: Caller, op: Op, got: nat): Caller {
    match op
    case Alloc =>
      var held := c.held + {got};
      if got == NULL_ELEM then c else Caller(held, if |held| > c.peak then |held| else c.peak)
    case Free(id) => Caller(c.held - {id}, c.peak)
  }

  /** A run of calls in which only held indices are returned: the states after each call agree with the caller. */
  ghost predicate Run<T>(states: seq<State<T>>, callers: seq<Caller>, ops: seq<Op>) {
    && |states| == |callers| == |ops| + 1
    && 0 < |states[0].slots| <= NULL_ELEM && states[0] == Initial(states[0].slots) && callers[0] == Caller({}, 0)
    && forall i :: 0 <= i < |ops| ==> RunStep(states[i], callers[i], ops[i], states[i + 1], callers[i + 1])
  }

  ghost predicate RunStep<T>(s: State<T>, c: Caller, op: Op, s': State<T>, c': Caller) {
    match op
    case Alloc =>
      && (s.freeList == NULL_ELEM || s.freeList < |s.slots|)
      && (s.freeList != NULL_ELEM && s.freeList != s.allocEnd ==> s.slots[s.freeList].Link?)
      && (s', c') == (AllocStep(s).0, Call(c, op, AllocStep(s).1))
    case Free(id) =>
      id in c.held && id < |s.slots| && (s', c') == (FreeStep(s, id), Call(c, op, NULL_ELEM))
  }

  /** What every reachable state satisfies; `chain` is the free list. */
  ghost predicate Sound<T>(s: State<T>, c: Caller, chain: seq<nat>, n: nat) {
    Inv(s, chain) && |s.slots| == n && Live(s, chain) == c.held && Frontier(s) == c.peak
  }

  lemma SoundStep<T>(s: State<T>, c: Caller, op: Op, s': State<T>, c': Caller, chain: seq<nat>,
      n: nat) returns (chain': seq<nat>)
    requires Sound(s, c, chain, n) && RunStep(s, c, op, s', c')
    ensures Sound(s', c', chain', n)
  {
    CountLive(s, chain);
    match op
    case Alloc =>
      chain' := AllocKeeps(s, chain);
      CountLive(s', chain');
    case Free(id) =>
      FreeKeeps(s, chain, id);
      chain' := [id] + chain;
  }

  /**
   * Every run: the free list is acyclic, holds exactly the freed slots and ends
   * at the frontier; the live slots are exactly those the caller holds; and the
   * frontier is the largest number of slots that were ever held at once.
   */
  lemma {:induction false} RunSound<T>(states: seq<State<T>>, callers: seq<Caller>, ops: seq<Op>,
      k: nat) returns (chain: seq<nat>)
    requires Run(states, callers, ops) && k < |states|
    ensures Sound(states[k], callers[k], chain, |states[0].slots|)
  {
    hide Inv, RunStep;
    if k == 0 {
      InitialInv(states[0].slots);
      chain := [];
    } else {
      var before := RunSound(states, callers, ops, k - 1);
      assert RunStep(states[k - 1], callers[k - 1], ops[k - 1], states[k - 1 + 1], callers[k - 1 + 1]);
      chain := SoundStep(states[k - 1], callers[k - 1], ops[k - 1], states[k], callers[k], before, |states[0].slots|);
    }
  }

  /** In every run an allocation returns an index the caller does not hold, or fails because it holds all of them. */
  lemma RunAlloc<T>(states: seq<State<T>>, callers: seq<Caller>, ops: seq<Op>, k: nat)
    requires Run(states, callers, ops) && k < |states|
    ensures
      var s := states[k];
      && (s.freeList == NULL_ELEM || s.freeList < |s.slots|)
      && (s.freeList != NULL_ELEM && s.freeList != s.allocEnd ==> s.slots[s.freeList].Link?)
      && var got := AllocStep(s).1;
      if |callers[k].held| == |states[0].slots| then got == 0xFFFF_FFFF
      else got < |states[0].slots| && got !in callers[k].held
  {
    hide Run;
    var chain := RunSound(states, callers, ops, k);
    var _ := AllocKeeps(states[k], chain);
  }

  // ---------------------------------------------------------------- the object

  class Allocator<T> {
    const pool: array<Slot<T>>
    var freeList: nat
    var allocEnd: nat
    /** The free list. */
    ghost var chain: seq<nat>

    ghost function View(): State<T>
      reads this, pool
    {
      State(pool[..], freeList, allocEnd)
    }

    ghost predicate Valid()
      reads this, pool
    {
      Inv(View(), chain)
    }

    ghost function Held(): set<nat>
      reads this, pool
    {
      Live(View(), chain)
    }

    constructor (pool: array<Slot<T>>)
      requires 0 < pool.Length <= NULL_ELEM
      ensures Valid() && Held() == {} && this.pool == pool
    {
      this.pool, freeList, allocEnd, chain := pool, 0, 0, [];
    }

    /** `pool_allocator_alloc`. */
    method Alloc() returns (id: nat)
      requires Valid()
      modifies this`freeList, this`allocEnd, this`chain, pool
      ensures Valid()
      ensures id == NULL_ELEM <==> |old(Held())| == pool.Length
      ensures id == NULL_ELEM ==> pool[..] == old(pool[..]) && Held() == old(Held()) && chain == old(chain)
      ensures id != NULL_ELEM ==> id < pool.Length && id !in old(Held()) && Held() == old(Held()) + {id}
      ensures id != NULL_ELEM ==> pool[..] == old(pool[..])[id := Zeroed]
    {
      ghost var s := View();
      ghost var rest := AllocKeeps(s, chain);
      HeadReady(s, chain);
      hide Inv, Live;
      if freeList == NULL_ELEM { return NULL_ELEM; }
      id := freeList;
      var next: nat;
      if id == allocEnd {
        next := if id < pool.Length - 1 then id + 1 else NULL_ELEM;
        allocEnd := next;
      } else {
        next := pool[id].next;
      }
      freeList := next;
      pool[id] := Zeroed;
      chain := rest;
      assert View() == AllocStep(s).0;
    }

    /** `pool_allocator_free`. */
    method Free(id: nat)
      requires Valid() && id in Held()
      modifies this`freeList, this`chain, pool
      ensures Valid() && id < pool.Length
      ensures Held() == old(Held()) - {id}
      ensures pool[..] == old(pool[..])[id := Link(old(freeList))]
    {
      ghost var s := View();
      FreeKeeps(s, chain, id);
      hide Inv, Live;
      pool[id] := Link(freeList);
      freeList := id;
      chain := [id] + chain;
      assert View() == FreeStep(s, id);
    }
  }
  /** `pool_allocator_init`; `elemSize` is the size of an element in bytes. */
  method Init<T>(pool: array?<Slot<T>>, elemSize: nat) returns (error: int, map': Allocator?<T>)
    requires pool != null ==> pool.Length <= NULL_ELEM
    ensures error == 0 <==> pool != null && pool.Length > 0 && elemSize >= 4
    ensures error == 0 ==> map' != null && fresh(map') && map'.pool == pool && map'.Valid() && map'.Held() == {}
    ensures error != 0 ==> error == -EINVAL && map' == null
  {
    if pool == null || pool.Length == 0 || elemSize < SIZEOF_U32 { return -EINVAL, null; }
    error := 0;
    map' := new Allocator(pool);
  }
}

/**
 * `Pools`: the static registry from a class (here a `kind`) to its pool. `get` creates a
 * pool on first use, `free` and `freeAll` route objects to their class's pool, and
 * `clearAll` empties every pool and then the registry.
 */
module Pools {
  import opened Wrappers
  import opened Pool

  /** The max of the pools `get(type)` creates. */
  const DefaultMax := 100
  /** The initial capacity of the pools `get` creates, only a size hint. */
  const InitialCapacity := 4

  /**
   * The pool `freeAll` delivers an entry to, given the pool it is holding: none for a
   * null entry; the held pool if there is one; otherwise the pool registered for the
   * entry's class, or none when its class has none.
   */
  function Chosen(held: Pool?, o: Poolable?, registry: map<int, Pool>): (p: Pool?)
    ensures p != null ==> o != null && (p == held || (o.kind in registry && p == registry[o.kind]))
  {
    if o == null then null
    else if held != null then held
    else if o.kind in registry then registry[o.kind]
    else null
  }

  /** The pool `freeAll` holds after one entry: kept only with `samePool`, and skipped nulls keep it. */
  function After(held: Pool?, o: Poolable?, registry: map<int, Pool>, samePool: bool): Pool? {
    if o == null then held
    else if samePool then Chosen(held, o, registry)
    else null
  }

  /** The pool `freeAll` holds when it reaches entry `i`. */
  function HeldAt(list: seq<Poolable?>, registry: map<int, Pool>, samePool: bool, i: nat): Pool?
    requires i <= |list|
  {
    if i == 0 then null
    else After(HeldAt(list, registry, samePool, i - 1), list[i - 1], registry, samePool)
  }

  /** The pool entry `i` is delivered to, or null when it is skipped. */
  function TargetAt(list: seq<Poolable?>, registry: map<int, Pool>, samePool: bool, i: nat): Pool?
    requires i < |list|
  {
    Chosen(HeldAt(list, registry, samePool, i), list[i], registry)
  }

  /** The objects among the first `n` entries delivered to pool `p`, in order. */
  function DeliveredTo(list: seq<Poolable?>, registry: map<int, Pool>, samePool: bool, p: Pool, n: nat): seq<Poolable>
    requires n <= |list|
  {
    if n == 0 then []
    else
      var t := TargetAt(list, registry, samePool, n - 1);
      DeliveredTo(list, registry, samePool, p, n - 1) + (if t == p && list[n - 1] != null then [list[n - 1]] else [])
  }

  /** One more entry adds itself to what its target pool is delivered, and nothing to any other pool. */
  lemma DeliveredStep(list: seq<Poolable?>, registry: map<int, Pool>, samePool: bool, p: Pool, i: nat)
    requires i < |list|
    ensures TargetAt(list, registry, samePool, i) == p ==>
              list[i] != null && DeliveredTo(list, registry, samePool, p, i + 1) == DeliveredTo(list, registry, samePool, p, i) + [list[i]]
    ensures TargetAt(list, registry, samePool, i) != p ==>
              DeliveredTo(list, registry, samePool, p, i + 1) == DeliveredTo(list, registry, samePool, p, i)
  {
    assert DeliveredTo(list, registry, samePool, p, i) + [] == DeliveredTo(list, registry, samePool, p, i);
  }

  /** How many of the first `n` entries are `o` and delivered somewhere. */
  function DeliveredCount(list: seq<Poolable?>, registry: map<int, Pool>, samePool: bool, o: Poolable, n: nat): nat
    requires n <= |list|
  {
    if n == 0 then 0
    else
      DeliveredCount(list, registry, samePool, o, n - 1) +
      (if list[n - 1] == o && TargetAt(list, registry, samePool, n - 1) != null then 1 else 0)
  }

  /** Every pool of the registry is among `pools`. */
  ghost predicate Covers(registry: map<int, Pool>, pools: set<Pool>) {
    forall k :: k in registry ==> registry[k] in pools
  }

  /** The held pool is always a registered one, and without `samePool` there is none. */
  lemma {:induction false} HeldRegistered(list: seq<Poolable?>, registry: map<int, Pool>, pools: set<Pool>, samePool: bool, i: nat)
    requires i <= |list| && Covers(registry, pools)
    ensures HeldAt(list, registry, samePool, i) == null || HeldAt(list, registry, samePool, i) in pools
    ensures !samePool ==> HeldAt(list, registry, samePool, i) == null
  {
    if i > 0 {
      HeldRegistered(list, registry, pools, samePool, i - 1);
    }
  }

  /** Without `samePool` every non-null entry goes to the pool of its own class, if any. */
  lemma OwnPool(list: seq<Poolable?>, registry: map<int, Pool>, i: nat)
    requires i < |list| && list[i] != null
    ensures TargetAt(list, registry, false, i) == if list[i].kind in registry then registry[list[i].kind] else null
  {
    HeldRegistered(list, registry, set k | k in registry :: registry[k], false, i);
  }

  /** With `samePool`, the pool an entry is delivered to is held from then on. */
  lemma {:induction false} HeldFromThenOn(list: seq<Poolable?>, registry: map<int, Pool>, i: nat, j: nat)
    requires i < j <= |list|
    requires TargetAt(list, registry, true, i) != null
    ensures HeldAt(list, registry, true, j) == TargetAt(list, registry, true, i)
  {
    if j > i + 1 {
      HeldFromThenOn(list, registry, i, j - 1);
    }
  }

  /**
   * With `samePool`, once an entry has been delivered every later non-null entry goes to
   * the same pool, whatever its class.
   */
  lemma SamePoolSticks(list: seq<Poolable?>, registry: map<int, Pool>, i: nat, j: nat)
    requires i < j < |list| && list[j] != null
    requires TargetAt(list, registry, true, i) != null
    ensures TargetAt(list, registry, true, j) == TargetAt(list, registry, true, i)
  {
    HeldFromThenOn(list, registry, i, j);
  }

  /** Delivering nothing more past the end: the last count covers the whole list. */
  lemma {:induction false} DeliveredCountBound(list: seq<Poolable?>, registry: map<int, Pool>, samePool: bool, o: Poolable, n: nat)
    requires n <= |list|
    ensures DeliveredCount(list, registry, samePool, o, n) <= multiset(list[..n])[o]
  {
    if n > 0 {
      DeliveredCountBound(list, registry, samePool, o, n - 1);
      assert list[..n] == list[..n - 1] + [list[n - 1]];
    }
  }

  /** Every pool of a set is sound. */
  ghost predicate PoolsValid(pools: set<Pool>)
    reads pools
  {
    forall p :: p in pools ==> p.Valid()
  }

  /** What `freeAll` has done to the pools after its first `i` entries. */
  ghost predicate PoolsDelivered(registry: map<int, Pool>, pools: set<Pool>, list: seq<Poolable?>, samePool: bool, i: nat,
                                 oldFree: map<Pool, seq<Poolable>>, oldPeak: map<Pool, int>)
    requires i <= |list|
    reads pools
  {
    forall p :: p in pools ==>
      p in oldFree && p in oldPeak &&
      p.freeObjects == PushAllCapped(oldFree[p], DeliveredTo(list, registry, samePool, p, i), p.max) &&
      |p.freeObjects| >= |oldFree[p]| &&
      p.peak == (if |p.freeObjects| == |oldFree[p]| then oldPeak[p] else MaxOf(oldPeak[p], |p.freeObjects|))
  }

  /** What `freeAll` has done to the objects after its first `i` entries: one reset per delivery. */
  ghost predicate ResetsDelivered(registry: map<int, Pool>, list: seq<Poolable?>, samePool: bool, i: nat, oldResets: seq<int>)
    requires i <= |list|
    reads list
  {
    |oldResets| == |list| &&
    forall k :: 0 <= k < |list| && list[k] != null ==>
      list[k].resets == oldResets[k] + DeliveredCount(list, registry, samePool, list[k], i)
  }

  /** The reset counts of a list's entries, taken before `freeAll` starts. */
  ghost method Snapshot(list: seq<Poolable?>) returns (r: seq<int>)
    ensures |r| == |list|
    ensures forall k :: 0 <= k < |list| && list[k] != null ==> r[k] == list[k].resets
  {
    r := [];
    while |r| < |list|
      invariant |r| <= |list|
      invariant forall k :: 0 <= k < |r| && list[k] != null ==> r[k] == list[k].resets
    {
      r := r + [if list[|r|] == null then 0 else list[|r|].resets];
    }
  }

  /** One entry of `freeAll`: deliver it to the pool it is routed to, and move on the held pool. */
  method FreeEntry(registry: map<int, Pool>, ghost pools: set<Pool>, list: seq<Poolable?>, samePool: bool, i: nat, held: Pool?,
                   ghost oldFree: map<Pool, seq<Poolable>>, ghost oldPeak: map<Pool, int>, ghost oldResets: seq<int>)
    returns (next: Pool?)
    requires i < |list| && Covers(registry, pools) && PoolsValid(pools)
    requires held == HeldAt(list, registry, samePool, i) && (held == null || held in pools)
    requires PoolsDelivered(registry, pools, list, samePool, i, oldFree, oldPeak)
    requires ResetsDelivered(registry, list, samePool, i, oldResets)
    modifies pools, if list[i] != null then {list[i]} else {}
    ensures PoolsValid(pools)
    ensures next == HeldAt(list, registry, samePool, i + 1)
    ensures PoolsDelivered(registry, pools, list, samePool, i + 1, oldFree, oldPeak)
    ensures ResetsDelivered(registry, list, samePool, i + 1, oldResets)
  {
    var target := Chosen(held, list[i], registry);
    if target != null {
      label before:
      Deliver(registry, pools, list, samePool, i, target, oldFree, oldPeak);
      forall k | 0 <= k < |list| && list[k] != null
        ensures list[k].resets == oldResets[k] + DeliveredCount(list, registry, samePool, list[k], i + 1)
      {
        assert list[k].resets == old@before(list[k].resets) + (if list[k] == list[i] then 1 else 0);
      }
    } else {
      forall p | p in pools
        ensures p.freeObjects == PushAllCapped(oldFree[p], DeliveredTo(list, registry, samePool, p, i + 1), p.max)
      {
        DeliveredStep(list, registry, samePool, p, i);
      }
    }
    next := After(held, list[i], registry, samePool);
  }

  /** A delivered entry of `freeAll`: `free` on its pool, which changes that pool and the entry only. */
  method Deliver(registry: map<int, Pool>, ghost pools: set<Pool>, list: seq<Poolable?>, samePool: bool, i: nat, target: Pool,
                 ghost oldFree: map<Pool, seq<Poolable>>, ghost oldPeak: map<Pool, int>)
    requires i < |list| && PoolsValid(pools)
    requires target == TargetAt(list, registry, samePool, i) && target in pools
    requires PoolsDelivered(registry, pools, list, samePool, i, oldFree, oldPeak)
    modifies target, list[i]
    ensures PoolsValid(pools)
    ensures PoolsDelivered(registry, pools, list, samePool, i + 1, oldFree, oldPeak)
    ensures list[i] != null && list[i].resets == old(list[i].resets) + 1
  {
    var o := list[i];
    var ignored := target.Free(o);
    PushAllSnoc(oldFree[target], DeliveredTo(list, registry, samePool, target, i), o, target.max);
    forall p | p in pools
      ensures p.Valid() && p in oldFree && p in oldPeak
      ensures p.freeObjects == PushAllCapped(oldFree[p], DeliveredTo(list, registry, samePool, p, i + 1), p.max)
      ensures |p.freeObjects| >= |oldFree[p]|
      ensures p.peak == (if |p.freeObjects| == |oldFree[p]| then oldPeak[p] else MaxOf(oldPeak[p], |p.freeObjects|))
    {
      DeliveredStep(list, registry, samePool, p, i);
      if p != target {
        assert p.freeObjects == old(p.freeObjects) && p.peak == old(p.peak);
      }
    }
  }

  /** The loop of `freeAll` over a registry that it does not change. */
  method FreeList(registry: map<int, Pool>, ghost pools: set<Pool>, list: seq<Poolable?>, samePool: bool,
                  ghost oldFree: map<Pool, seq<Poolable>>, ghost oldPeak: map<Pool, int>)
    requires Covers(registry, pools) && PoolsValid(pools)
    requires PoolsDelivered(registry, pools, list, samePool, 0, oldFree, oldPeak)
    modifies pools, list
    ensures PoolsValid(pools)
    ensures PoolsDelivered(registry, pools, list, samePool, |list|, oldFree, oldPeak)
    ensures forall k :: 0 <= k < |list| && list[k] != null ==>
              list[k].resets == old(list[k].resets) + DeliveredCount(list, registry, samePool, list[k], |list|)
  {
    ghost var oldResets := Snapshot(list);
    var pool: Pool? := null;
    var i := 0;
    while i < |list|
      invariant 0 <= i <= |list| && PoolsValid(pools)
      invariant pool == HeldAt(list, registry, samePool, i)
      invariant PoolsDelivered(registry, pools, list, samePool, i, oldFree, oldPeak)
      invariant ResetsDelivered(registry, list, samePool, i, oldResets)
    {
      HeldRegistered(list, registry, pools, samePool, i);
      pool := FreeEntry(registry, pools, list, samePool, i, pool, oldFree, oldPeak, oldResets);
      i := i + 1;
    }
  }

  class Pools {
    /** `typePools`: class to pool. */
    var typePools: map<int, Pool>

    /** Every registered pool is sound and makes objects of the class it is registered for. */
    ghost predicate Valid()
      reads this, typePools.Values
    {
      forall k :: k in typePools ==> typePools[k].Valid() && typePools[k].kind == k
    }

    /** The registry as the class initialiser leaves it: empty. */
    constructor ()
      ensures Valid() && typePools == map[]
    {
      typePools := map[];
    }

    /**
     * `get(type, max)`: the registered pool, or a new one with initial capacity 4 and
     * this max, registered under the class. A registered pool is never replaced, and
     * the max is then ignored.
     */
    method Get(kind: int, max: int) returns (pool: Pool)
      requires Valid()
      modifies this
      ensures Valid() && kind in typePools && typePools[kind] == pool
      ensures kind in old(typePools) ==> pool == old(typePools[kind]) && typePools == old(typePools)
      ensures kind !in old(typePools) ==>
                fresh(pool) && typePools == old(typePools)[kind := pool] &&
                pool.kind == kind && pool.max == max && pool.freeObjects == [] && pool.peak == 0
    {
      if kind in typePools {
        return typePools[kind];
      }
      pool := new Pool(kind, InitialCapacity, max);
      typePools := typePools[kind := pool];
    }

    /** `get(type)`: `get` with max 100. */
    method GetDefault(kind: int) returns (pool: Pool)
      requires Valid()
      modifies this
      ensures Valid() && kind in typePools && typePools[kind] == pool
      ensures kind in old(typePools) ==> pool == old(typePools[kind]) && typePools == old(typePools)
      ensures kind !in old(typePools) ==>
                fresh(pool) && typePools == old(typePools)[kind := pool] &&
                pool.kind == kind && pool.max == DefaultMax && pool.freeObjects == [] && pool.peak == 0
    {
      pool := Get(kind, DefaultMax);
    }

    /** `set`: register a pool for a class, replacing any pool it had. */
    method Set(kind: int, pool: Pool)
      requires Valid() && pool.Valid() && pool.kind == kind
      modifies this
      ensures Valid() && typePools == old(typePools)[kind := pool]
    {
      typePools := typePools[kind := pool];
    }

    /** `obtain(type)`: an object from the class's pool, which `get(type)` registers if need be. */
    method Obtain(kind: int) returns (o: Poolable)
      requires Valid()
      modifies this, if kind in typePools then {typePools[kind]} else {}
      ensures Valid() && kind in typePools
      ensures kind in old(typePools) ==> typePools == old(typePools)
      ensures kind !in old(typePools) ==>
                fresh(typePools[kind]) && typePools == old(typePools)[kind := typePools[kind]] &&
                typePools[kind].max == DefaultMax && typePools[kind].freeObjects == [] &&
                fresh(o) && o.kind == kind
      ensures kind in old(typePools) && old(typePools[kind].freeObjects) == [] ==>
                fresh(o) && o.kind == kind && typePools[kind].freeObjects == []
      ensures kind in old(typePools) && old(typePools[kind].freeObjects) != [] ==>
                var stack := old(typePools[kind].freeObjects);
                o == stack[|stack| - 1] && typePools[kind].freeObjects == stack[..|stack| - 1]
    {
      var pool := GetDefault(kind);
      o := pool.Obtain();
    }

    /**
     * `free`: null is rejected; an object whose class has no pool is ignored; otherwise
     * the object goes to its class's pool.
     */
    method Free(o: Poolable?) returns (r: Outcome<string>)
      requires Valid()
      modifies if o != null && o.kind in typePools then {typePools[o.kind], o} else {}
      ensures Valid() && typePools == old(typePools)
      ensures o == null <==> r.Fail?
      ensures o == null ==> r == Fail("Object cannot be null.")
      ensures o != null && o.kind in typePools ==>
                var pool := typePools[o.kind];
                pool.freeObjects == PushCapped(old(pool.freeObjects), o, pool.max) &&
                o.resets == old(o.resets) + 1 &&
                pool.peak == (if |old(pool.freeObjects)| < pool.max then MaxOf(old(pool.peak), |pool.freeObjects|) else old(pool.peak))
    {
      if o == null {
        return Fail("Object cannot be null.");
      }
      if o.kind !in typePools {
        return Pass;
      }
      var pool := typePools[o.kind];
      r := pool.Free(o);
    }

    /**
     * `freeAll(objects, samePool)`: a null stack is rejected; null entries and entries
     * whose class has no pool are skipped; every other entry is freed into the pool it
     * is routed to: the pool of its own class, or with `samePool` the first pool found.
     */
    method FreeAll(objects: Option<seq<Poolable?>>, samePool: bool) returns (r: Outcome<string>)
      requires Valid()
      modifies typePools.Values, if objects.Some? then objects.value else []
      ensures Valid() && typePools == old(typePools)
      ensures objects.None? <==> r.Fail?
      ensures objects.None? ==> r == Fail("Objects cannot be null.")
      ensures objects.Some? ==>
                forall c :: c in typePools ==>
                  var p := typePools[c];
                  p.freeObjects == PushAllCapped(old(p.freeObjects), DeliveredTo(objects.value, typePools, samePool, p, |objects.value|), p.max) &&
                  p.peak == (if |p.freeObjects| == |old(p.freeObjects)| then old(p.peak) else MaxOf(old(p.peak), |p.freeObjects|))
      ensures objects.Some? ==>
                forall k :: 0 <= k < |objects.value| && objects.value[k] != null ==>
                  objects.value[k].resets == old(objects.value[k].resets) +
                    DeliveredCount(objects.value, typePools, samePool, objects.value[k], |objects.value|)
    {
      if objects.None? {
        return Fail("Objects cannot be null.");
      }
      var list := objects.value;
      ghost var pools: set<Pool> := set k | k in typePools :: typePools[k];
      ghost var oldFree: map<Pool, seq<Poolable>> := map p | p in pools :: p.freeObjects;
      ghost var oldPeak: map<Pool, int> := map p | p in pools :: p.peak;
      FreeList(typePools, pools, list, samePool, oldFree, oldPeak);
      assert forall c :: c in typePools ==> typePools[c] in pools;
      r := Pass;
    }

    /** `clearAll`: clear every registered pool, then empty the registry. */
    method ClearAll()
      requires Valid()
      modifies this, typePools.Values
      ensures Valid() && typePools == map[]
      ensures forall p :: p in old(typePools.Values) ==> p.freeObjects == [] && p.peak == old(p.peak)
    {
      ghost var pools := typePools.Values;
      var remaining := typePools.Values;
      while remaining != {}
        invariant remaining <= pools && typePools.Values == pools
        invariant forall p :: p in pools && p !in remaining ==> p.freeObjects == []
        invariant forall p :: p in pools ==> p.peak == old(p.peak)
        decreases remaining
      {
        var pool :| pool in remaining;
        pool.Clear();
        remaining := remaining - {pool};
      }
      typePools := map[];
    }
  }
}

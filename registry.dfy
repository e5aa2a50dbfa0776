/**
 * The out-of-line build's process-wide state: the map of pools keyed by
 * block size, whose budget per pool is the configured pool size as given,
 * and the teardown observer slot that every pool reports to when the map is
 * destroyed.
 */
module Registry {
  import opened IntLog
  import opened SizeClass
  import opened Stats
  import opened Diagnostics
  import opened Pool

  /** p is a consistent pool of `key`-byte blocks, a power of two at least pointer-sized, holding poolSize / key blocks. */
  ghost predicate Holds(p: MemoryPool, key: nat, poolSize: nat, ptrSize: nat)
    reads p, p.links
  {
    p.Valid() && p.info.size == key && key > 0 &&
    key == Pow(2, LogCeilOf(key, 2)) && ptrSize <= key &&
    p.info.count == CppCapacity(poolSize, key)
  }

  class PoolRegistry {
    /** The configured byte budget of one pool. */
    const poolSize: nat
    /** The width of a pointer. */
    const ptrSize: nat
    /** The observer slot consulted by pool teardown. */
    const hub: Hub
    var pools: map<nat, MemoryPool>
    ghost var Repr: set<object>
    /** The key of the pool each pool object and each link array belongs to. */
    ghost var owner: map<object, nat>

    ghost predicate Valid()
      reads this, Repr
    {
      this in Repr && owner.Keys <= Repr &&
      forall k :: k in pools ==>
        pools[k] in Repr && pools[k].links in Repr &&
        pools[k] in owner && owner[pools[k]] == k &&
        pools[k].links in owner && owner[pools[k].links] == k &&
        Holds(pools[k], k, poolSize, ptrSize)
    }

    /** No pools yet and the printing observer installed. */
    constructor (poolSize: nat, ptrSize: nat)
      ensures Valid() && fresh(Repr) && fresh(hub)
      ensures this.poolSize == poolSize && this.ptrSize == ptrSize && pools == map[]
      ensures hub.observer == PrintPoolInfo && hub.log == []
    {
      this.poolSize := poolSize;
      this.ptrSize := ptrSize;
      hub := new Hub();
      pools := map[];
      Repr := {this};
      owner := map[];
    }

    /**
     * The pool for `size`-byte requests, keyed by the rounded block size and
     * created on first use with poolSize / blockSize blocks at addr. A class
     * whose block exceeds the budget gets a pool with no buffer, so all of its
     * requests go to the platform allocator.
     */
    method Get(size: nat, addr: nat) returns (pool: MemoryPool)
      requires Valid()
      requires ClassSize(size, ptrSize) !in pools ==> 0 < addr && addr + poolSize <= AddressSpace
      modifies this
      ensures Valid() && fresh(Repr - old(Repr))
      ensures ClassSize(size, ptrSize) in pools && pool == pools[ClassSize(size, ptrSize)]
      ensures pool.info.size == ClassSize(size, ptrSize) && size <= pool.info.size && ptrSize <= pool.info.size
      ensures ClassSize(size, ptrSize) in old(pools) ==> pools == old(pools) && Repr == old(Repr)
      ensures ClassSize(size, ptrSize) !in old(pools) ==>
        fresh(pool) && pools == old(pools)[ClassSize(size, ptrSize) := pool] &&
        pool.View() == Initial(pool.info.size, CppCapacity(poolSize, pool.info.size),
                               if CppCapacity(poolSize, pool.info.size) == 0 then 0 else addr)
    {
      var log, realSize := Route(size, ptrSize);
      if realSize !in pools {
        NewPool(realSize, addr);
      }
      pool := pools[realSize];
    }

    /** Builds and files the pool for block size key; a linked buffer when at least one block fits, none otherwise. */
    method NewPool(key: nat, addr: nat)
      requires Valid() && key !in pools
      requires key > 0 && key == Pow(2, LogCeilOf(key, 2)) && ptrSize <= key
      requires 0 < addr && addr + poolSize <= AddressSpace
      modifies this
      ensures Valid() && fresh(Repr - old(Repr))
      ensures key in pools && fresh(pools[key]) && pools == old(pools)[key := pools[key]]
      ensures pools[key].View() ==
        Initial(key, CppCapacity(poolSize, key), if CppCapacity(poolSize, key) == 0 then 0 else addr)
    {
      var count := poolSize / key;
      CppCapacityBounds(poolSize, key);
      var p;
      if count >= 1 {
        p := new MemoryPool.Linked(key, count, addr);
        assert Holds(p, key, poolSize, ptrSize);
      } else {
        p := new MemoryPool(key, count, addr);
        assert Holds(p, key, poolSize, ptrSize);
      }
      AddPool(key, p);
    }

    /** Files a freshly built pool under a key that was absent; every other entry stays. */
    method AddPool(key: nat, p: MemoryPool)
      requires Valid() && key !in pools && p !in Repr && p.links !in Repr
      requires Holds(p, key, poolSize, ptrSize)
      modifies this
      ensures Valid() && pools == old(pools)[key := p] && Repr == old(Repr) + {p, p.links}
    {
      pools := pools[key := p];
      Repr := Repr + {p, p.links};
      owner := owner[p := key][p.links := key];
      forall k | k in pools && k != key
        ensures pools[k] in Repr && pools[k].links in Repr
        ensures pools[k] in owner && owner[pools[k]] == k
        ensures pools[k].links in owner && owner[pools[k].links] == k
        ensures Holds(pools[k], k, poolSize, ptrSize)
      {
        assert pools[k] == old(pools[k]) && pools[k].links == old(pools[k].links);
        assert pools[k] != p && pools[k].links != p.links;
      }
    }

    /** Installs a new teardown observer; every later teardown reports to it. */
    method SetOnPoolDest(o: Observer)
      modifies hub
      ensures hub.observer == o && hub.log == old(hub.log)
    {
      hub.SetOnPoolDest(o);
    }

    /** The pools by block size: every key is a pointer-sized power of two and names the block size of its pool. */
    function GetPools(): (m: map<nat, MemoryPool>)
      requires Valid()
      reads this, Repr
      ensures m.Keys == pools.Keys
      ensures forall k :: k in m ==> m[k].info.size == k && ptrSize <= k && k == Pow(2, LogCeilOf(k, 2))
      ensures forall k :: k in m ==> m[k].info.count * k <= poolSize
    {
      CountsFit(pools, poolSize);
      pools
    }

    /**
     * Destruction of the map at exit: every pool is destroyed, in no
     * particular order. Each pool that owns a buffer reports its final record
     * to the current observer exactly once, in the order given by `order`;
     * the others report nothing.
     */
    method Teardown() returns (ghost order: seq<nat>)
      modifies hub
      ensures hub.observer == old(hub.observer)
      ensures Distinct(order) && forall k :: k in order <==> k in pools && pools[k].base != 0
      ensures |hub.log| == |old(hub.log)| + |order| && hub.log[..|old(hub.log)|] == old(hub.log)
      ensures forall i :: 0 <= i < |order| ==>
        hub.log[|old(hub.log)| + i] == Report(hub.observer, pools[order[i]].info)
    {
      var keys := pools.Keys;
      order := [];
      ghost var n0 := |hub.log|;
      while keys != {}
        invariant keys <= pools.Keys && hub.observer == old(hub.observer)
        invariant Distinct(order)
        invariant forall k :: k in order <==> k in pools && k !in keys && pools[k].base != 0
        invariant |hub.log| == n0 + |order| && hub.log[..n0] == old(hub.log)
        invariant forall i :: 0 <= i < |order| ==> hub.log[n0 + i] == Report(hub.observer, pools[order[i]].info)
        decreases |keys|
      {
        var k :| k in keys;
        ghost var before := order;
        pools[k].Destroy(hub);
        if pools[k].base != 0 {
          order := order + [k];
          assert Distinct(order) by {
            assert k !in before;
          }
        }
        keys := keys - {k};
      }
    }
  }

  /** Every pool's blocks fit in the budget. */
  lemma CountsFit(pools: map<nat, MemoryPool>, poolSize: nat)
    requires forall k :: k in pools ==> k > 0 && pools[k].info.count == CppCapacity(poolSize, k)
    ensures forall k :: k in pools ==> pools[k].info.count * k <= poolSize
  {
    forall k | k in pools ensures pools[k].info.count * k <= poolSize {
      CppCapacityBounds(poolSize, k);
    }
  }
}

/**
 * The header's pool manager: one pool per size class, created on first use
 * and keyed by the exponent of its block size. Its byte budget per pool is
 * the configured pool size rounded up to a power of two.
 */
module Manager {
  import opened IntLog
  import opened SizeClass
  import opened Pool

  class MemoryPoolManager {
    /** The configured byte budget of one pool. */
    const poolSize: nat
    /** The width of a pointer, which every block must be able to hold. */
    const ptrSize: nat
    var pools: map<nat, MemoryPool>
    ghost var Repr: set<object>
    /** The key of the pool each pool object and each link array belongs to. */
    ghost var owner: map<object, nat>

    /** Every pool is consistent, serves blocks of 2^key bytes, and owns its own storage. */
    ghost predicate Valid()
      reads this, Repr
    {
      this in Repr && owner.Keys <= Repr &&
      forall k :: k in pools ==>
        pools[k] in Repr && pools[k].links in Repr &&
        pools[k] in owner && owner[pools[k]] == k &&
        pools[k].links in owner && owner[pools[k].links] == k &&
        Serves(pools[k], k, poolSize, ptrSize)
    }

    /** The state of the pool that serves `size`-byte requests, or the pool Get would create for them. */
    ghost function ClassView(size: nat, addr: nat): PoolView
      requires Valid()
      reads this, Repr
    {
      var log := ClassLog(size, ptrSize);
      if log in pools then pools[log].View()
      else Initial(Pow(2, log), HeaderCapacity(poolSize, log), if HeaderCapacity(poolSize, log) == 0 then 0 else addr)
    }

    constructor (poolSize: nat, ptrSize: nat)
      ensures Valid() && fresh(Repr)
      ensures this.poolSize == poolSize && this.ptrSize == ptrSize && pools == map[]
    {
      this.poolSize := poolSize;
      this.ptrSize := ptrSize;
      pools := map[];
      Repr := {this};
      owner := map[];
    }

    /**
     * The pool for `size`-byte requests: the key is the exponent of the
     * rounded block size, and a pool is created, with the buffer at addr
     * that the platform allocator returned, only when the key is absent.
     * Existing pools are never replaced and the map only grows.
     */
    method Get(size: nat, addr: nat) returns (pool: MemoryPool)
      requires Valid()
      requires ClassLog(size, ptrSize) !in pools ==> 0 < addr && addr + HeaderPoolBytes(poolSize) <= AddressSpace
      modifies this
      ensures Valid() && fresh(Repr - old(Repr))
      ensures ClassLog(size, ptrSize) in pools && pool == pools[ClassLog(size, ptrSize)]
      ensures pool.info.size == ClassSize(size, ptrSize) && size <= pool.info.size && ptrSize <= pool.info.size
      ensures ClassLog(size, ptrSize) in old(pools) ==> pools == old(pools) && Repr == old(Repr)
      ensures ClassLog(size, ptrSize) !in old(pools) ==>
        fresh(pool) && pools == old(pools)[ClassLog(size, ptrSize) := pool]
      ensures pool.View() == old(ClassView(size, addr))
    {
      var log, realSize := Route(size, ptrSize);
      if log !in pools {
        NewPool(log, addr);
      }
      pool := pools[log];
    }

    /**
     * Builds the pool for key log, of 2^log-byte blocks filling the rounded
     * budget, with its buffer at addr, and files it under log.
     */
    method NewPool(log: nat, addr: nat)
      requires Valid() && log !in pools && LogCeilOf(ptrSize, 2) <= log
      requires 0 < addr && addr + HeaderPoolBytes(poolSize) <= AddressSpace
      modifies this
      ensures Valid() && fresh(Repr - old(Repr))
      ensures log in pools && fresh(pools[log]) && pools == old(pools)[log := pools[log]]
      ensures pools[log].View() ==
        Initial(Pow(2, log), HeaderCapacity(poolSize, log), if HeaderCapacity(poolSize, log) == 0 then 0 else addr)
    {
      var budgetLog := LogCeil(poolSize, 2);
      var realSize := Pow(2, log);
      var count := Pow(2, budgetLog) / realSize;
      HeaderCapacityFits(poolSize, log);
      var p := new MemoryPool(realSize, count, addr);
      AddPool(log, p);
    }

    /** Files a freshly built pool under a key that was absent; every other entry stays. */
    method AddPool(log: nat, p: MemoryPool)
      requires Valid() && log !in pools && p !in Repr && p.links !in Repr
      requires Serves(p, log, poolSize, ptrSize)
      modifies this
      ensures Valid() && pools == old(pools)[log := p] && Repr == old(Repr) + {p, p.links}
    {
      pools := pools[log := p];
      Repr := Repr + {p, p.links};
      owner := owner[p := log][p.links := log];
      forall k | k in pools && k != log
        ensures pools[k] in Repr && pools[k].links in Repr
        ensures pools[k] in owner && owner[pools[k]] == k
        ensures pools[k].links in owner && owner[pools[k].links] == k
        ensures Serves(pools[k], k, poolSize, ptrSize)
      {
        assert pools[k] == old(pools[k]) && pools[k].links == old(pools[k].links);
        assert pools[k] != p && pools[k].links != p.links;
      }
    }

    /** Allocates from the pool of the request's size class. */
    method Alloc(size: nat, addr: nat, platform: nat) returns (p: nat)
      requires Valid()
      requires ClassLog(size, ptrSize) !in pools ==> 0 < addr && addr + HeaderPoolBytes(poolSize) <= AddressSpace
      requires PlatformFresh(ClassView(size, addr), platform)
      modifies this, Repr
      ensures Valid() && fresh(Repr - old(Repr))
      ensures ClassLog(size, ptrSize) in pools
      ensures pools[ClassLog(size, ptrSize)].View() == AllocSpec(old(ClassView(size, addr)), platform).view
      ensures p == AllocSpec(old(ClassView(size, addr)), platform).addr
      ensures pools.Keys == old(pools.Keys) + {ClassLog(size, ptrSize)}
      ensures forall k :: k in old(pools) && k != ClassLog(size, ptrSize) ==>
        k in pools && pools[k].View() == old(pools[k].View())
    {
      var pool := Get(size, addr);
      assert pools.Keys == old(pools.Keys) + {ClassLog(size, ptrSize)};
      p := AllocAt(ClassLog(size, ptrSize), platform);
    }

    /** Allocates from the pool filed under key log; every other pool is left as it was. */
    method AllocAt(log: nat, platform: nat) returns (p: nat)
      requires Valid() && log in pools && PlatformFresh(pools[log].View(), platform)
      modifies Repr
      ensures Valid() && Repr == old(Repr) && pools == old(pools)
      ensures pools[log].View() == AllocSpec(old(pools[log].View()), platform).view
      ensures p == AllocSpec(old(pools[log].View()), platform).addr
      ensures forall k :: k in pools && k != log ==> pools[k].View() == old(pools[k].View())
    {
      var pool := pools[log];
      p := pool.Alloc(platform);
      forall k | k in pools && k != log
        ensures Serves(pools[k], k, poolSize, ptrSize) && pools[k].View() == old(pools[k].View())
      {
        assert owner[pools[k]] != owner[pool];
      }
    }

    /** Returns p to the pool of the request's size class, the same pool Alloc drew it from. */
    method Free(p: nat, size: nat)
      requires Valid()
      requires ClassLog(size, ptrSize) in pools && Live(pools[ClassLog(size, ptrSize)].View(), p)
      modifies Repr
      ensures Valid() && Repr == old(Repr) && pools == old(pools)
      ensures old(pools[ClassLog(size, ptrSize)].info.cur) >= 1
      ensures pools[ClassLog(size, ptrSize)].View() == FreeSpec(old(pools[ClassLog(size, ptrSize)].View()), p)
      ensures forall k :: k in pools && k != ClassLog(size, ptrSize) ==> pools[k].View() == old(pools[k].View())
    {
      var pool := Get(size, 0);
      assert forall k :: k in pools ==> pools[k].View() == old(pools[k].View());
      FreeAt(ClassLog(size, ptrSize), p);
    }

    /** Returns p to the pool filed under key log; every other pool is left as it was. */
    method FreeAt(log: nat, p: nat)
      requires Valid() && log in pools && Live(pools[log].View(), p)
      modifies Repr
      ensures Valid() && Repr == old(Repr) && pools == old(pools)
      ensures old(pools[log].info.cur) >= 1
      ensures pools[log].View() == FreeSpec(old(pools[log].View()), p)
      ensures forall k :: k in pools && k != log ==> pools[k].View() == old(pools[k].View())
    {
      var pool := pools[log];
      pool.Free(p);
      forall k | k in pools && k != log
        ensures Serves(pools[k], k, poolSize, ptrSize) && pools[k].View() == old(pools[k].View())
      {
        assert owner[pools[k]] != owner[pool];
      }
    }

    /** Storage for one object of typeSize bytes; constructing the object itself is not modelled. */
    method New(typeSize: nat, addr: nat, platform: nat) returns (p: nat)
      requires Valid()
      requires ClassLog(typeSize, ptrSize) !in pools ==> 0 < addr && addr + HeaderPoolBytes(poolSize) <= AddressSpace
      requires PlatformFresh(ClassView(typeSize, addr), platform)
      modifies this, Repr
      ensures Valid() && fresh(Repr - old(Repr))
      ensures ClassLog(typeSize, ptrSize) in pools
      ensures pools[ClassLog(typeSize, ptrSize)].View() == AllocSpec(old(ClassView(typeSize, addr)), platform).view
      ensures p == AllocSpec(old(ClassView(typeSize, addr)), platform).addr
      ensures pools.Keys == old(pools.Keys) + {ClassLog(typeSize, ptrSize)}
      ensures forall k :: k in old(pools) && k != ClassLog(typeSize, ptrSize) ==>
        k in pools && pools[k].View() == old(pools[k].View())
    {
      p := Alloc(typeSize, addr, platform);
    }

    /** Storage for n objects of typeSize bytes each, drawn from the class of n * typeSize. */
    method NewArr(n: nat, typeSize: nat, addr: nat, platform: nat) returns (p: nat)
      requires Valid()
      requires ClassLog(n * typeSize, ptrSize) !in pools ==> 0 < addr && addr + HeaderPoolBytes(poolSize) <= AddressSpace
      requires PlatformFresh(ClassView(n * typeSize, addr), platform)
      modifies this, Repr
      ensures Valid() && fresh(Repr - old(Repr))
      ensures ClassLog(n * typeSize, ptrSize) in pools
      ensures pools[ClassLog(n * typeSize, ptrSize)].View() == AllocSpec(old(ClassView(n * typeSize, addr)), platform).view
      ensures p == AllocSpec(old(ClassView(n * typeSize, addr)), platform).addr
      ensures pools.Keys == old(pools.Keys) + {ClassLog(n * typeSize, ptrSize)}
      ensures forall k :: k in old(pools) && k != ClassLog(n * typeSize, ptrSize) ==>
        k in pools && pools[k].View() == old(pools[k].View())
    {
      p := Alloc(n * typeSize, addr, platform);
    }

    /** Returns the storage of one object to the class of its size. */
    method Delete(p: nat, typeSize: nat)
      requires Valid()
      requires ClassLog(typeSize, ptrSize) in pools && Live(pools[ClassLog(typeSize, ptrSize)].View(), p)
      modifies Repr
      ensures Valid() && Repr == old(Repr) && pools == old(pools)
      ensures old(pools[ClassLog(typeSize, ptrSize)].info.cur) >= 1
      ensures pools[ClassLog(typeSize, ptrSize)].View() == FreeSpec(old(pools[ClassLog(typeSize, ptrSize)].View()), p)
      ensures forall k :: k in pools && k != ClassLog(typeSize, ptrSize) ==> pools[k].View() == old(pools[k].View())
    {
      Free(p, typeSize);
    }

    /** Returns the storage of n objects to the class of n * typeSize. */
    method DeleteArr(p: nat, n: nat, typeSize: nat)
      requires Valid()
      requires ClassLog(n * typeSize, ptrSize) in pools && Live(pools[ClassLog(n * typeSize, ptrSize)].View(), p)
      modifies Repr
      ensures Valid() && Repr == old(Repr) && pools == old(pools)
      ensures old(pools[ClassLog(n * typeSize, ptrSize)].info.cur) >= 1
      ensures pools[ClassLog(n * typeSize, ptrSize)].View() == FreeSpec(old(pools[ClassLog(n * typeSize, ptrSize)].View()), p)
      ensures forall k :: k in pools && k != ClassLog(n * typeSize, ptrSize) ==> pools[k].View() == old(pools[k].View())
    {
      Free(p, n * typeSize);
    }

    /** The class pool's state, existing or about to be built, satisfies the pool invariant. */
    lemma ClassViewValid(size: nat, addr: nat)
      requires Valid()
      requires ClassLog(size, ptrSize) !in pools ==> 0 < addr && addr + HeaderPoolBytes(poolSize) <= AddressSpace
      ensures ValidView(ClassView(size, addr))
    {
      var log := ClassLog(size, ptrSize);
      if log !in pools {
        ClassSizeFits(size, ptrSize);
        HeaderCapacityFits(poolSize, log);
        InitialIsValid(Pow(2, log), HeaderCapacity(poolSize, log), if HeaderCapacity(poolSize, log) == 0 then 0 else addr);
      }
    }

    /**
     * A matched allocation and release of one size: the class pool gets its
     * block or platform pointer back and its cur returns to where it was;
     * only peak and the fault count remember the round trip.
     */
    method AllocThenFree(size: nat, addr: nat, platform: nat) returns (p: nat)
      requires Valid()
      requires ClassLog(size, ptrSize) !in pools ==> 0 < addr && addr + HeaderPoolBytes(poolSize) <= AddressSpace
      requires PlatformFresh(ClassView(size, addr), platform)
      modifies this, Repr
      ensures Valid() && fresh(Repr - old(Repr))
      ensures ClassLog(size, ptrSize) in pools
      ensures pools.Keys == old(pools.Keys) + {ClassLog(size, ptrSize)}
      ensures pools[ClassLog(size, ptrSize)].info.cur == old(ClassView(size, addr)).info.cur
      ensures var v := old(ClassView(size, addr));
        pools[ClassLog(size, ptrSize)].View() ==
          v.(info := v.info.(peak := Max(v.info.peak, v.info.cur + 1),
                             fault := v.info.fault + if v.free == [] then 1 else 0))
      ensures forall k :: k in old(pools) && k != ClassLog(size, ptrSize) ==>
        k in pools && pools[k].View() == old(pools[k].View())
    {
      ghost var v := ClassView(size, addr);
      ghost var a := AllocSpec(v, platform);
      ghost var back := v.(info := v.info.(peak := Max(v.info.peak, v.info.cur + 1),
                                           fault := v.info.fault + if v.free == [] then 1 else 0));
      ClassViewValid(size, addr);
      AllocHandsOutLive(v, platform);
      AllocThenFreeRestores(v, platform);
      assert FreeSpec(a.view, a.addr) == back;
      p := Alloc(size, addr, platform);
      Free(p, size);
      assert pools[ClassLog(size, ptrSize)].View() == back;
    }

    /** The pools by key: each key k names a pool of 2^k-byte blocks, at least pointer-sized. */
    function Pools(): (m: map<nat, MemoryPool>)
      requires Valid()
      reads this, Repr
      ensures forall k :: k in m ==> m[k].info.size == Pow(2, k) && ptrSize <= m[k].info.size
      ensures forall k :: k in m ==> m[k].info.count == HeaderCapacity(poolSize, k)
    {
      PoolsFit(pools, ptrSize);
      pools
    }
  }

  /** p is a consistent pool of 2^k-byte blocks with the header's capacity, at or above the pointer class. */
  ghost predicate Serves(p: MemoryPool, k: nat, poolSize: nat, ptrSize: nat)
    reads p, p.links
  {
    p.Valid() && p.info.size == Pow(2, k) && p.info.count == HeaderCapacity(poolSize, k) &&
    LogCeilOf(ptrSize, 2) <= k
  }

  /** A pool keyed at or above the pointer class has blocks that hold a pointer. */
  lemma PoolsFit(pools: map<nat, MemoryPool>, ptrSize: nat)
    requires forall k :: k in pools ==> LogCeilOf(ptrSize, 2) <= k
    ensures forall k :: k in pools ==> ptrSize <= Pow(2, k)
  {
    forall k | k in pools ensures ptrSize <= Pow(2, k) {
      LogCeilBase2(ptrSize);
      PowGrows(2, LogCeilOf(ptrSize, 2), k);
    }
  }
}

/**
 * The fixed-size pool: one buffer of `count` blocks of `size` bytes whose free
 * blocks form a singly linked list, with allocations the list cannot serve
 * handed to the platform allocator and counted as faults.
 *
 * Addresses are machine words (naturals below 2^64); block i lives at
 * base + i * size. The list links the source keeps inside the free blocks are
 * kept here in a side array with one link word per block.
 */
module Pool {
  import opened IntLog
  import opened Stats
  import opened Diagnostics

  const AddressSpace: nat := 0x1_0000_0000_0000_0000

  /** The null link that ends the free list. */
  const Nil: int := -1

  /**
   * What a pool is, abstractly: its statistics, the address of its buffer (0
   * when it has none), the indices of its free blocks from head to tail, and
   * the addresses of the live blocks it obtained from the platform allocator.
   */
  datatype PoolView = PoolView(info: PoolInfo, base: nat, free: seq<nat>, faults: set<nat>)

  /** The result of one allocation: the new state and the address handed out. */
  datatype Allocation = Allocation(view: PoolView, addr: nat)

  /** The indices 0, 1, ..., n - 1 in order. */
  function Range(n: nat): (s: seq<nat>)
    ensures |s| == n && forall i :: 0 <= i < n ==> s[i] == i
  {
    seq(n, i requires 0 <= i => i)
  }

  ghost predicate Distinct(s: seq<nat>)
  {
    forall j, k :: 0 <= j < k < |s| ==> s[j] != s[k]
  }

  /** The distance from the buffer to p as an unsigned word: pointer difference cast to size_t. */
  function Offset(base: nat, p: nat): (d: nat)
    requires base < AddressSpace && p < AddressSpace
    ensures d < AddressSpace
    ensures base <= p ==> d == p - base
    ensures p < base ==> d == AddressSpace - (base - p)
  {
    (p - base) % AddressSpace
  }

  /** The header's ownership test in Free: the unsigned offset is below count * size. */
  predicate InBuffer(v: PoolView, p: nat)
  {
    v.base < AddressSpace && p < AddressSpace &&
    Offset(v.base, p) < v.info.count * v.info.size
  }

  /** The out-of-line ownership test in Free: the block index offset / size is below count. */
  predicate InBufferByIndex(v: PoolView, p: nat)
  {
    v.base < AddressSpace && p < AddressSpace && v.info.size > 0 &&
    Offset(v.base, p) / v.info.size < v.info.count
  }

  function BlockAddr(v: PoolView, i: nat): (r: nat)
  {
    v.base + i * v.info.size
  }

  /** The first address past the buffer. */
  function End(v: PoolView): (r: nat)
  {
    v.base + v.info.count * v.info.size
  }

  /** a lies in the buffer's address range. */
  predicate Within(v: PoolView, a: nat)
  {
    v.base <= a < End(v)
  }

  /** The pool's consistency: the free list, the platform blocks and the statistics agree. */
  ghost predicate ValidView(v: PoolView)
  {
    var n, sz := v.info.count, v.info.size;
    (n > 0 ==> sz > 0) &&
    v.base < AddressSpace && v.base + n * sz <= AddressSpace &&
    (v.base == 0 <==> n == 0) &&
    Distinct(v.free) && (forall i :: i in v.free ==> i < n) && |v.free| <= n &&
    (forall a :: a in v.faults ==> a < AddressSpace && !Within(v, a)) &&
    v.info.cur == n - |v.free| + |v.faults| &&
    v.info.cur <= v.info.peak
  }

  /** p is handed out: a platform block, or a buffer block that is not on the free list. */
  ghost predicate Live(v: PoolView, p: nat)
  {
    p in v.faults ||
    exists i :: 0 <= i < v.info.count && i !in v.free && p == BlockAddr(v, i)
  }

  /** What the platform allocator returns: a non-null word outside the buffer and not already live. */
  ghost predicate PlatformFresh(v: PoolView, a: nat)
  {
    0 < a < AddressSpace && a !in v.faults && !Within(v, a)
  }

  /** A freshly built pool: no statistics yet, every block free, in address order. */
  function Initial(size: nat, count: nat, base: nat): (r: PoolView)
  {
    PoolView(PoolInfo(size, count, 0, 0, 0), base, Range(count), {})
  }

  /** The pool left behind by a move that empties its source. */
  const Emptied := PoolView(NoInfo, 0, [], {})

  /**
   * Alloc: cur goes up by one and peak follows it; the head of the free list
   * is handed out, or, when the list is empty, a platform block is, and the
   * fault counter goes up.
   */
  ghost function AllocSpec(v: PoolView, platform: nat): (r: Allocation)
  {
    var cur := v.info.cur + 1;
    var info := v.info.(cur := cur, peak := Max(v.info.peak, cur));
    if v.free != [] then
      Allocation(v.(info := info, free := v.free[1..]), BlockAddr(v, v.free[0]))
    else
      Allocation(v.(info := info.(fault := info.fault + 1), faults := v.faults + {platform}), platform)
  }

  /**
   * Free: a pointer the ownership test places in the buffer is pushed onto the
   * head of the free list; any other is released to the platform. Either way
   * cur goes down by one.
   */
  ghost function FreeSpec(v: PoolView, p: nat): (r: PoolView)
    requires v.info.cur >= 1
  {
    var info := v.info.(cur := v.info.cur - 1);
    if InBuffer(v, p) && v.info.size > 0 then
      v.(info := info, free := [Offset(v.base, p) / v.info.size] + v.free)
    else
      v.(info := info, faults := v.faults - {p})
  }

  // ---------------------------------------------------------------------------
  // Arithmetic of addresses

  /** Block i of a pool with n blocks lies in the buffer at offset i * size. */
  lemma BlockInBuffer(v: PoolView, i: nat)
    requires ValidView(v) && i < v.info.count
    ensures BlockAddr(v, i) < AddressSpace
    ensures Offset(v.base, BlockAddr(v, i)) == i * v.info.size
    ensures InBuffer(v, BlockAddr(v, i))
    ensures Offset(v.base, BlockAddr(v, i)) / v.info.size == i
  {
    MulLt(i, v.info.count, v.info.size);
    DivModUnique(i * v.info.size, v.info.size, i, 0);
  }

  /** With the buffer inside the address space, the unsigned offset test is plain range containment. */
  lemma InBufferIff(v: PoolView, p: nat)
    requires v.base < AddressSpace && End(v) <= AddressSpace
    requires p < AddressSpace
    ensures InBuffer(v, p) <==> Within(v, p)
  {
  }

  /** The out-of-line index test and the header's offset test accept exactly the same pointers. */
  lemma ClassifiersAgree(v: PoolView, p: nat)
    requires v.info.size > 0
    ensures InBuffer(v, p) <==> InBufferByIndex(v, p)
  {
    if v.base < AddressSpace && p < AddressSpace {
      var d, sz, n := Offset(v.base, p), v.info.size, v.info.count;
      var q := d / sz;
      assert d == q * sz + d % sz;
      if q < n {
        MulLe(q + 1, n, sz);
      } else {
        MulLe(n, q, sz);
      }
    }
  }

  /** Every live buffer address is one the ownership test accepts, at the index it names. */
  lemma LiveBlockIndex(v: PoolView, p: nat) returns (i: nat)
    requires ValidView(v) && Live(v, p) && p !in v.faults
    ensures i < v.info.count && i !in v.free && p == BlockAddr(v, i)
    ensures InBuffer(v, p) && Offset(v.base, p) / v.info.size == i
  {
    i :| 0 <= i < v.info.count && i !in v.free && p == BlockAddr(v, i);
    BlockInBuffer(v, i);
  }

  // ---------------------------------------------------------------------------
  // Counting distinct indices

  /** The set of values in a sequence. */
  ghost function Elems(s: seq<nat>): (e: set<nat>)
    ensures forall x :: x in e <==> x in s
  {
    if s == [] then {} else
      assert forall x :: x in s <==> x == s[0] || x in s[1..];
      {s[0]} + Elems(s[1..])
  }

  /** Dropping the head of a list of distinct values leaves distinct values, none equal to the head. */
  lemma DistinctTail(s: seq<nat>)
    requires Distinct(s) && s != []
    ensures Distinct(s[1..]) && s[0] !in s[1..]
  {
    var t := s[1..];
    forall j, k | 0 <= j < k < |t| ensures t[j] != t[k] {
      assert t[j] == s[j + 1] && t[k] == s[k + 1];
    }
    forall k | 0 <= k < |t| ensures t[k] != s[0] {
      assert t[k] == s[k + 1];
    }
  }

  lemma {:induction false} DistinctCard(s: seq<nat>)
    requires Distinct(s)
    ensures |Elems(s)| == |s|
  {
    if s != [] {
      DistinctTail(s);
      DistinctCard(s[1..]);
      assert Elems(s) == {s[0]} + Elems(s[1..]);
    }
  }

  lemma {:induction false} SubsetCard(a: set<nat>, b: set<nat>)
    requires a <= b
    ensures |a| <= |b|
    decreases |b|
  {
    if a != {} {
      var x :| x in a;
      SubsetCard(a - {x}, b - {x});
    }
  }

  /**
   * Distinct indices below n number at most n, and fewer than n when one of
   * them is missing; they number exactly n when none is missing.
   */
  lemma DistinctBelow(s: seq<nat>, n: nat)
    requires Distinct(s) && forall i :: i in s ==> i < n
    ensures |s| <= n
    ensures (exists m: nat :: m < n && m !in s) ==> |s| < n
    ensures (forall m: nat :: m < n ==> m in s) ==> |s| == n
  {
    var elems, below := Elems(s), Elems(Range(n));
    assert forall x: nat :: x in below <==> x < n by {
      forall x: nat ensures x in below <==> x < n {
        if x < n { assert Range(n)[x] == x; }
      }
    }
    DistinctCard(s);
    DistinctCard(Range(n));
    SubsetCard(elems, below);
    if m: nat :| m < n && m !in s {
      SubsetCard(elems, below - {m});
    }
    if forall m: nat :: m < n ==> m in s {
      SubsetCard(below, elems);
    }
  }

  // ---------------------------------------------------------------------------
  // Properties of the operations

  /** A freshly built pool is consistent, whether or not it has a buffer. */
  lemma InitialIsValid(size: nat, count: nat, base: nat)
    requires count > 0 ==> size > 0 && 0 < base && base + count * size <= AddressSpace
    requires count == 0 ==> base == 0
    ensures ValidView(Initial(size, count, base))
  {
  }

  /** Alloc served from the free list: the head block is handed out and the fault count stays. */
  lemma AllocFromList(v: PoolView, platform: nat)
    requires ValidView(v) && v.free != []
    ensures var r := AllocSpec(v, platform);
      ValidView(r.view) && r.addr == BlockAddr(v, v.free[0]) &&
      InBuffer(v, r.addr) && !Live(v, r.addr) && Live(r.view, r.addr) &&
      r.view.info.fault == v.info.fault
  {
    var r := AllocSpec(v, platform);
    var i := v.free[0];
    assert i in v.free;
    BlockInBuffer(v, i);
    DistinctTail(v.free);
    assert r.view.free == v.free[1..];
    assert forall j :: j in r.view.free ==> j in v.free by {
      forall j | j in r.view.free ensures j in v.free {
        var k :| 0 <= k < |r.view.free| && r.view.free[k] == j;
        assert v.free[k + 1] == j;
      }
    }
    assert BlockAddr(r.view, i) == r.addr;
    if Live(v, r.addr) {
      if r.addr !in v.faults {
        var j := LiveBlockIndex(v, r.addr);
      }
    }
  }

  /** Alloc with an empty free list: the platform block is handed out and counted as a fault. */
  lemma AllocFromPlatform(v: PoolView, platform: nat)
    requires ValidView(v) && PlatformFresh(v, platform) && v.free == []
    ensures var r := AllocSpec(v, platform);
      ValidView(r.view) && r.addr == platform &&
      !InBuffer(v, r.addr) && !Live(v, r.addr) && Live(r.view, r.addr) &&
      r.view.info.fault == v.info.fault + 1
  {
    if Live(v, platform) {
      var j := LiveBlockIndex(v, platform);
    }
  }

  /**
   * Alloc keeps the pool consistent and never lowers peak. The address handed
   * out was not live and now is; it is in the buffer exactly when the free list
   * was not empty, in which case it is the head block and the fault count is
   * unchanged; otherwise the fault count goes up by exactly one.
   */
  lemma AllocKeepsValid(v: PoolView, platform: nat)
    requires ValidView(v) && PlatformFresh(v, platform)
    ensures var r := AllocSpec(v, platform);
      ValidView(r.view) &&
      r.view.info.cur == v.info.cur + 1 && r.view.info.peak >= v.info.peak &&
      Live(r.view, r.addr) && !Live(v, r.addr) &&
      (InBuffer(v, r.addr) <==> v.free != []) &&
      (v.free != [] ==> r.addr == BlockAddr(v, v.free[0]) && r.view.info.fault == v.info.fault) &&
      (v.free == [] ==> r.view.info.fault == v.info.fault + 1)
  {
    if v.free != [] {
      AllocFromList(v, platform);
    } else {
      AllocFromPlatform(v, platform);
    }
  }

  /**
   * Free keeps the pool consistent: the ownership test accepts exactly the
   * buffer blocks (never a platform block), the pushed index names the freed
   * block, and the pointer is no longer live.
   */
  lemma FreeKeepsValid(v: PoolView, p: nat)
    requires ValidView(v) && Live(v, p)
    ensures p < AddressSpace && v.info.cur >= 1
    ensures InBuffer(v, p) <==> p !in v.faults
    ensures InBuffer(v, p) ==>
      (v.info.size > 0 &&
       Offset(v.base, p) / v.info.size < v.info.count &&
       Offset(v.base, p) / v.info.size !in v.free &&
       p == BlockAddr(v, Offset(v.base, p) / v.info.size))
    ensures v.info.cur >= 1 && ValidView(FreeSpec(v, p)) && !Live(FreeSpec(v, p), p)
  {
    if p in v.faults {
      assert |v.faults| >= 1 by { assert v.faults == (v.faults - {p}) + {p}; }
      var r := FreeSpec(v, p);
      if j :| 0 <= j < r.info.count && j !in r.free && p == BlockAddr(r, j) {
        BlockInBuffer(v, j);
      }
    } else {
      var i := LiveBlockIndex(v, p);
      DistinctBelow(v.free, v.info.count);
      var r := FreeSpec(v, p);
      assert r.free == [i] + v.free;
      assert Distinct(r.free) by {
        forall j, k | 0 <= j < k < |r.free| ensures r.free[j] != r.free[k] {
          assert r.free[k] == v.free[k - 1];
          if j > 0 { assert r.free[j] == v.free[j - 1]; }
        }
      }
      if j :| 0 <= j < r.info.count && j !in r.free && p == BlockAddr(r, j) {
        BlockInBuffer(v, j);
      }
    }
  }

  /** Freeing a buffer block and allocating again hands out that same block and restores the free list. */
  lemma FreeThenAllocReturnsSame(v: PoolView, p: nat, platform: nat)
    requires ValidView(v) && Live(v, p) && p !in v.faults
    ensures v.info.cur >= 1 && var w := FreeSpec(v, p);
      AllocSpec(w, platform).addr == p && AllocSpec(w, platform).view.free == v.free
  {
    FreeKeepsValid(v, p);
  }

  /** What a caller needs to free an allocation at once: the address handed out is live. */
  lemma AllocHandsOutLive(v: PoolView, platform: nat)
    requires ValidView(v) && PlatformFresh(v, platform)
    ensures Live(AllocSpec(v, platform).view, AllocSpec(v, platform).addr)
  {
    AllocKeepsValid(v, platform);
  }

  /**
   * An allocation immediately freed leaves the pool as it was, except that
   * peak records the extra block and a platform allocation stays counted as
   * a fault.
   */
  lemma AllocThenFreeRestores(v: PoolView, platform: nat)
    requires ValidView(v) && PlatformFresh(v, platform)
    ensures var r := AllocSpec(v, platform);
      r.view.info.cur >= 1 &&
      FreeSpec(r.view, r.addr) ==
        v.(info := v.info.(peak := Max(v.info.peak, v.info.cur + 1),
                           fault := v.info.fault + if v.free == [] then 1 else 0))
  {
    if v.free != [] {
      ListRoundTrip(v, platform);
    } else {
      PlatformRoundTrip(v, platform);
    }
  }

  lemma ListRoundTrip(v: PoolView, platform: nat)
    requires ValidView(v) && v.free != []
    ensures var r := AllocSpec(v, platform);
      r.view.info.cur >= 1 &&
      FreeSpec(r.view, r.addr) == v.(info := v.info.(peak := Max(v.info.peak, v.info.cur + 1)))
  {
    var r := AllocSpec(v, platform);
    var i := v.free[0];
    assert i in v.free;
    BlockInBuffer(v, i);
    assert r.addr == BlockAddr(v, i);
    assert r.view.base == v.base && r.view.info.size == v.info.size && r.view.info.count == v.info.count;
    assert InBuffer(r.view, r.addr);
    assert Offset(r.view.base, r.addr) / r.view.info.size == i;
    assert [i] + v.free[1..] == v.free;
    var f := FreeSpec(r.view, r.addr);
    assert f.free == v.free;
  }

  lemma PlatformRoundTrip(v: PoolView, platform: nat)
    requires ValidView(v) && PlatformFresh(v, platform) && v.free == []
    ensures var r := AllocSpec(v, platform);
      r.view.info.cur >= 1 &&
      FreeSpec(r.view, r.addr) == v.(info := v.info.(peak := Max(v.info.peak, v.info.cur + 1), fault := v.info.fault + 1))
  {
    var r := AllocSpec(v, platform);
    assert r.view.base == v.base && r.view.info.size == v.info.size && r.view.info.count == v.info.count;
    assert !InBuffer(r.view, r.addr);
    assert v.faults + {platform} - {platform} == v.faults;
  }

  /** cur is zero exactly when nothing is handed out: every block is free and no platform block is live. */
  lemma IdleIffNothingLive(v: PoolView)
    requires ValidView(v)
    ensures v.info.cur == 0 <==> forall p :: !Live(v, p)
  {
    var n := v.info.count;
    if v.info.cur == 0 {
      DistinctBelow(v.free, n);
      forall p ensures !Live(v, p) {
        if i :| 0 <= i < n && i !in v.free && p == BlockAddr(v, i) {
          DistinctBelow(v.free, n);
        }
      }
    } else {
      if v.faults != {} {
        var a :| a in v.faults;
        assert Live(v, a);
      } else {
        DistinctBelow(v.free, n);
        assert !(forall m: nat :: m < n ==> m in v.free);
        var m: nat :| m < n && m !in v.free;
        assert Live(v, BlockAddr(v, m));
      }
    }
  }

  /**
   * A moved-to pool as the move constructor leaves it: the buffer and free
   * list of the source with an all-zero record. Its ownership test then
   * rejects its own first block, so Free would hand that block to the
   * platform allocator instead of the free list.
   */
  lemma MovedPoolDisownsBlocks(v: PoolView)
    requires ValidView(v) && v.info.count > 0
    ensures InBuffer(v, v.base) && !InBuffer(v.(info := NoInfo), v.base)
    ensures Live(v, v.base) <==> 0 !in v.free
  {
    BlockInBuffer(v, 0);
    assert BlockAddr(v, 0) == v.base;
    if Live(v, v.base) && v.base !in v.faults {
      var i := LiveBlockIndex(v, v.base);
    }
  }

  // ---------------------------------------------------------------------------
  // The pool object

  /** Links block i to block i + 1 for every block and ends the chain at the last one. */
  ghost predicate LinkedInOrder(a: seq<int>)
  {
    forall j :: 0 <= j < |a| ==> a[j] == if j + 1 < |a| then j + 1 else Nil
  }

  /**
   * The constructor's linking loop: each block points at the next one, and
   * the link of the last block is written unconditionally, so the buffer
   * must hold at least one block.
   */
  method LinkBlocks(a: array<int>)
    requires a.Length >= 1
    modifies a
    ensures LinkedInOrder(a[..])
  {
    var next := 0;
    for i := 1 to a.Length
      invariant next == i - 1
      invariant forall j :: 0 <= j < next ==> a[j] == j + 1
    {
      a[next] := i;
      next := i;
    }
    a[next] := Nil;
  }

  /** Starting at head and following the links visits exactly the indices of free, in order, then Nil. */
  ghost predicate ChainOf(links: seq<int>, head: int, free: seq<nat>)
    decreases |free|
  {
    if free == [] then head == Nil
    else head == free[0] && free[0] < |links| && ChainOf(links, links[free[0]], free[1..])
  }

  /** Rewriting the link of a block that is not on the list leaves the list intact. */
  lemma {:induction false} ChainFrame(links: seq<int>, head: int, free: seq<nat>, i: nat, x: int)
    requires ChainOf(links, head, free) && i < |links| && i !in free
    ensures ChainOf(links[i := x], head, free)
    decreases |free|
  {
    if free != [] {
      assert free[0] != i && i !in free[1..];
      ChainFrame(links, links[free[0]], free[1..], i, x);
    }
  }

  /** Pushing a block that is not on the list: its link takes the old head. */
  lemma ChainPush(links: seq<int>, head: int, free: seq<nat>, i: nat)
    requires ChainOf(links, head, free) && i < |links| && i !in free
    ensures ChainOf(links[i := head], i, [i] + free)
  {
    ChainFrame(links, head, free, i, head);
    assert ([i] + free)[1..] == free;
  }

  /** The constructor's links chain blocks k, k + 1, ..., n - 1 in address order. */
  lemma {:induction false} ChainFrom(links: seq<int>, k: nat)
    requires LinkedInOrder(links) && k <= |links|
    ensures ChainOf(links, if k < |links| then k else Nil, Range(|links|)[k..])
    decreases |links| - k
  {
    if k < |links| {
      ChainFrom(links, k + 1);
      assert Range(|links|)[k..][1..] == Range(|links|)[k + 1..];
    }
  }

  class MemoryPool {
    var info: PoolInfo
    /** The buffer's address, 0 when the pool has none. */
    var base: nat
    /** The index of the first free block, or Nil. */
    var head: int
    /** The link word of each block: the index of the next free block, or Nil. */
    var links: array<int>
    ghost var free: seq<nat>
    ghost var faults: set<nat>

    ghost function View(): PoolView
      reads this
    {
      PoolView(info, base, free, faults)
    }

    /** The link words spell out the free list from head to tail. */
    ghost predicate Chained()
      reads this, links
    {
      links.Length == info.count && ChainOf(links[..], head, free)
    }

    ghost predicate Valid()
      reads this, links
    {
      ValidView(View()) && Chained()
    }

    /**
     * The header's constructor: with no blocks the pool owns no buffer;
     * otherwise addr is the buffer the platform allocator returned and all
     * blocks are threaded onto the free list in address order.
     */
    constructor (size: nat, count: nat, addr: nat)
      requires size > 0
      requires count > 0 ==> 0 < addr && addr + count * size <= AddressSpace
      ensures Valid() && fresh(links)
      ensures View() == Initial(size, count, if count == 0 then 0 else addr)
      ensures count > 0 ==> head == 0 && LinkedInOrder(links[..])
    {
      var a := new int[count];
      if count > 0 {
        LinkBlocks(a);
        ChainFrom(a[..], 0);
      }
      info := PoolInfo(size, count, 0, 0, 0);
      base := if count == 0 then 0 else addr;
      head := if count == 0 then Nil else 0;
      links := a;
      free := Range(count);
      faults := {};
      InitialIsValid(size, count, if count == 0 then 0 else addr);
    }

    /**
     * The out-of-line constructor: always takes a buffer and links every block,
     * writing the last link unconditionally, so it needs at least one block.
     */
    constructor Linked(size: nat, count: nat, addr: nat)
      requires count >= 1 && size > 0
      requires 0 < addr && addr + count * size <= AddressSpace
      ensures Valid() && fresh(links)
      ensures View() == Initial(size, count, addr)
      ensures head == 0 && LinkedInOrder(links[..])
    {
      var a := new int[count];
      LinkBlocks(a);
      ChainFrom(a[..], 0);
      info := PoolInfo(size, count, 0, 0, 0);
      base := addr;
      head := 0;
      links := a;
      free := Range(count);
      faults := {};
      InitialIsValid(size, count, addr);
    }

    /**
     * The move constructor as written: this pool takes the source's buffer
     * and free list but then clears its own record instead of the source's.
     * The source keeps its record while owning no buffer.
     */
    constructor MoveFrom(r: MemoryPool)
      modifies r
      ensures info == NoInfo
      ensures base == old(r.base) && head == old(r.head) && links == old(r.links)
      ensures free == old(r.free) && faults == old(r.faults)
      ensures r.info == old(r.info) && r.base == 0 && r.head == Nil && r.free == []
      ensures fresh(r.links) && r.links.Length == 0
    {
      info := NoInfo;
      base := r.base;
      head := r.head;
      links := r.links;
      free := r.free;
      faults := r.faults;
      new;
      r.base := 0;
      r.head := Nil;
      r.links := new int[0];
      r.free := [];
      r.faults := {};
    }

    /** The move constructor with the record moved along with the buffer and the source left empty. */
    constructor MoveFixed(r: MemoryPool)
      requires r.Valid()
      modifies r
      ensures Valid() && r.Valid()
      ensures View() == old(r.View()) && links == old(r.links)
      ensures r.View() == Emptied && fresh(r.links)
    {
      info := r.info;
      base := r.base;
      head := r.head;
      links := r.links;
      free := r.free;
      faults := r.faults;
      new;
      assert Valid();
      r.info := NoInfo;
      r.base := 0;
      r.head := Nil;
      r.links := new int[0];
      r.free := [];
      r.faults := {};
    }

    /** Exchanges the whole state of two pools. */
    method Swap(r: MemoryPool)
      modifies this, r
      ensures info == old(r.info) && base == old(r.base) && head == old(r.head) && links == old(r.links)
      ensures free == old(r.free) && faults == old(r.faults)
      ensures r.info == old(info) && r.base == old(base) && r.head == old(head) && r.links == old(links)
      ensures r.free == old(free) && r.faults == old(faults)
    {
      info, r.info := r.info, info;
      base, r.base := r.base, base;
      head, r.head := r.head, head;
      links, r.links := r.links, links;
      free, r.free := r.free, free;
      faults, r.faults := r.faults, faults;
    }

    /**
     * Move assignment as written: a temporary is move-constructed from the
     * source and swapped with this pool, so this pool ends up with the
     * source's buffer under an all-zero record. Assigning a pool to itself
     * keeps its buffer and list but zeroes its record just the same.
     */
    method MoveAssign(r: MemoryPool)
      modifies this, r
      ensures info == NoInfo
      ensures base == old(r.base) && head == old(r.head) && links == old(r.links)
      ensures free == old(r.free) && faults == old(r.faults)
      ensures r != this ==> r.info == old(r.info) && r.base == 0 && r.head == Nil
    {
      var tmp := new MemoryPool.MoveFrom(r);
      Swap(tmp);
    }

    /**
     * Move assignment with the record moved along: this pool becomes the
     * source, which is left empty; the buffer this pool owned before is
     * released. Assigning a pool to itself leaves it as it was.
     */
    method MoveAssignFixed(r: MemoryPool)
      requires r.Valid()
      modifies this, r
      ensures Valid() && r.Valid()
      ensures View() == old(r.View()) && links == old(r.links)
      ensures r != this ==> r.View() == Emptied && fresh(r.links)
    {
      if r == this {
        return;
      }
      ghost var v := r.View();
      var empty := new int[0];
      info := r.info;
      base := r.base;
      head := r.head;
      links := r.links;
      free := r.free;
      faults := r.faults;
      assert View() == v;
      assert Chained();
      r.info := NoInfo;
      r.base := 0;
      r.head := Nil;
      r.links := empty;
      r.free := [];
      r.faults := {};
    }

    /**
     * Hands out the head of the free list, or, when it is empty, the block the
     * platform allocator returned; cur and peak follow, and a platform block
     * counts as a fault.
     */
    method Alloc(platform: nat) returns (p: nat)
      requires Valid() && PlatformFresh(View(), platform)
      modifies this
      ensures Valid() && links == old(links) && info.size == old(info.size) && info.count == old(info.count)
      ensures View() == AllocSpec(old(View()), platform).view
      ensures p == AllocSpec(old(View()), platform).addr
    {
      ghost var v := View();
      AllocKeepsValid(v, platform);
      var cur := info.cur + 1;
      info := info.(cur := cur, peak := Max(info.peak, cur));
      if head != Nil {
        p := base + head * info.size;
        head := links[head];
        free := free[1..];
      } else {
        info := info.(fault := info.fault + 1);
        p := platform;
        faults := faults + {platform};
      }
    }

    /**
     * The header's Free: a pointer whose unsigned offset from the buffer is
     * below count * size is pushed onto the free list, any other is released
     * to the platform; cur goes down by one.
     */
    method Free(ptr: nat)
      requires Valid() && Live(View(), ptr)
      modifies this, links
      ensures Valid() && links == old(links) && info.size == old(info.size) && info.count == old(info.count)
      ensures old(info.cur) >= 1 && View() == FreeSpec(old(View()), ptr)
    {
      ghost var v := View();
      FreeKeepsValid(v, ptr);
      ghost var w := FreeSpec(v, ptr);
      var diff := Offset(base, ptr);
      if diff < info.count * info.size {
        var idx := diff / info.size;
        assert InBuffer(v, ptr) && w.free == [idx] + free;
        ChainPush(links[..], head, free, idx);
        links[idx] := head;
        head := idx;
      } else {
        assert !InBuffer(v, ptr) && w.free == free;
      }
      info := info.(cur := info.cur - 1);
      free, faults := w.free, w.faults;
    }

    /**
     * The out-of-line Free: the pointer is in the buffer when its block index,
     * the unsigned offset divided by size, is below count.
     */
    method FreeByIndex(ptr: nat)
      requires Valid() && Live(View(), ptr) && info.size > 0
      modifies this, links
      ensures Valid() && links == old(links) && info.size == old(info.size) && info.count == old(info.count)
      ensures old(info.cur) >= 1 && View() == FreeSpec(old(View()), ptr)
    {
      ghost var v := View();
      FreeKeepsValid(v, ptr);
      ClassifiersAgree(v, ptr);
      ghost var w := FreeSpec(v, ptr);
      var idx := Offset(base, ptr) / info.size;
      if idx < info.count {
        assert InBuffer(v, ptr) && w.free == [idx] + free;
        ChainPush(links[..], head, free, idx);
        links[idx] := head;
        head := idx;
      } else {
        assert !InBuffer(v, ptr) && w.free == free;
      }
      info := info.(cur := info.cur - 1);
      free, faults := w.free, w.faults;
    }

    /** The statistics record; cur never exceeds peak and is zero exactly when nothing is handed out. */
    function GetInfo(): (i: PoolInfo)
      requires Valid()
      reads this, links
      ensures i.cur <= i.peak && i.size == View().info.size && i.count == links.Length
      ensures i.cur == 0 <==> forall p :: !Live(View(), p)
    {
      IdleIffNothingLive(View());
      info
    }

    /**
     * The out-of-line destructor: a pool that owns a buffer releases it and
     * reports its final record to the current observer exactly once, any
     * exception from the observer being swallowed; a pool without a buffer
     * reports nothing.
     */
    method Destroy(hub: Hub)
      modifies hub
      ensures hub.observer == old(hub.observer)
      ensures hub.log == old(hub.log) + if base != 0 then [Report(hub.observer, info)] else []
    {
      if base != 0 {
        var _ := hub.Notify(info);
      }
    }
  }
}

# omem: a verified model of the fixed-size pool allocator

omem serves small allocations out of pools of equal-sized blocks. A request
of `size` bytes is rounded to a size class: a power of two that also holds
a pointer. Each size class has one `MemoryPool`. The pool owns one buffer of
`count` blocks, threaded onto an intrusive singly linked free list. `Alloc`
pops the head of that list. When the list is empty, `Alloc` falls back to
the platform allocator and counts a *fault*. `Free` decides from the
pointer's offset whether the block belongs to the buffer. A buffer block is
pushed back onto the list; any other block goes back to the platform. Every
pool keeps a `PoolInfo` record `{size, count, cur, peak, fault}`. In the
out-of-line build, a pool that owns a buffer reports this record to a
replaceable observer when it is destroyed.

The repository ships two variants of the pool map, and both are modelled:

- the header's `MemoryPoolManager` keys pools by the exponent of the block
  size and rounds the pool budget up to a power of two;
- the out-of-line registry keys pools by the block size itself and divides
  the budget as given.

Modules, from the leaves up:

| file | module | what it holds |
|---|---|---|
| `int_log.dfy` | `IntLog` | the `LogCeil` loop, proved against a closed-form `LogCeilOf` and against the reference ceiling logarithm `IsCeilLog` |
| `size_class.dfy` | `SizeClass` | size-class rounding (`ClassLog`, `ClassSize`, `Route`) and pool capacity in both variants |
| `stats.dfy` | `Stats` | the `PoolInfo` record |
| `diagnostics.dfy` | `Diagnostics` | the teardown observer slot (`Hub`) with a ghost log of every report |
| `pool.dfy` | `Pool` | the `MemoryPool` class and its pure specification `PoolView` / `AllocSpec` / `FreeSpec` |
| `manager.dfy` | `Manager` | the header's `MemoryPoolManager` |
| `registry.dfy` | `Registry` | the out-of-line map, its observer slot and its teardown |

Representation choices:

- Addresses are naturals below `AddressSpace` (2^64). Block `i` of a pool
  lives at `base + i * size`. A pool without a buffer has `base == 0`, which
  plays the role of the null pointer.
- The unsigned pointer difference the source computes is `Offset`, taken
  modulo 2^64.
- The intrusive free list is a `links: array<int>` holding one link word per
  block, plus a `head` index, with `Nil` (-1) standing for null. A ghost
  `free: seq<nat>` lists the free indices from head to tail; `ChainOf` ties
  the two together.
- Blocks handed out by the platform allocator are a ghost set `faults`.
  `ValidView` keeps that set outside the buffer.
- The platform allocator is never called. The address it would return is a
  parameter instead: `addr` for a new pool's buffer, `platform` for a fault
  block. Preconditions say what the platform guarantees: the address is
  non-null, inside the address space, and not already live.
- `OMEM_POOL_SIZE` is the parameter `poolSize` and `sizeof(void*)` is
  `ptrSize`.
- The source's global state (the out-of-line pool map and the observer slot)
  is an explicit `PoolRegistry` object that owns a `Hub`.

The model follows the code. Each defect listed under Findings is modelled
twice, as written and corrected. For rows 1 and 2 the rest of the model uses
the corrected member. For row 3 it uses the as-written `IntLog.LogCeil`,
because every call passes base 2, where the loop is exact
(`IntLog.LogCeilBase2`). A class whose block exceeds the budget gets
`count == 0`. The header constructor then builds a pool with no buffer, and
the out-of-line constructor misbehaves (Findings, row 2). The out-of-line
registry builds the buffer-less pool for that class, as the header does.
What the code as written does instead is under "## Left out".

## Model

| member | source | states |
|---|---|---|
| IntLog.LogCeil | include/omem.hpp:10-22 | the loop's result equals `LogCeilOf(x, base)`: the number of divisions until the quotient is zero, plus one if any division left a remainder |
| IntLog.LogCeilBase2 | include/omem.hpp:10-22 | in base 2 the loop's result is the ceiling logarithm for every x: the least k with 2^k >= x |
| IntLog.LogCeilOfZeroAndOne | include/omem.hpp:15 | x = 0 and x = 1 give 0 in every base, because the loop body never runs |
| IntLog.LogCeilOfPower | include/omem.hpp:10-22 | an exact power b^k gives exactly k, both from the loop's formula and from the reference ceiling logarithm |
| IntLog.CeilLogOfIsLeast | include/omem.hpp:10-22 | the reference `CeilLogOf` is the least exponent whose power reaches x, for every base |
| IntLog.FloorLogBounds | include/omem.hpp:15-18 | the number of divisions k brackets x: b^k <= x < b^(k+1) |
| IntLog.LogCeilMissesNonBinaryBases | include/omem.hpp:21 | as written, base 3 and x = 2 give 0 although 3^0 < 2; the ceiling logarithm is 1 |
| IntLog.LogCeilExact | include/omem.hpp:10-22 | the loop with the missing case added returns the ceiling logarithm in every base |
| SizeClass.Route | include/omem.hpp:174-176 | the block size is 2^max(LogCeil(size,2), LogCeil(ptrSize,2)); it holds both the request and a pointer and is its own power-of-two class |
| SizeClass.ClassSizeFits | include/omem.hpp:174-176 | the block size holds the request and a pointer, is at least 2^LogCeil(ptrSize,2), and no smaller power of two holds both |
| SizeClass.ClassSizeIdempotent | include/omem.hpp:175-176 | rounding a block size again gives the same class and the same exponent |
| SizeClass.KeysAgree | src/omem.cpp:39-43 | two requests share a block size exactly when they share an exponent, so both keyings group the same requests |
| SizeClass.HeaderCapacityExact | include/omem.hpp:173-177 | a class no larger than the rounded budget gets 2^(t-log) blocks that fill the budget exactly; a larger class gets 0 blocks |
| SizeClass.HeaderCapacityFits | include/omem.hpp:173-177 | a header pool's blocks never exceed the rounded budget |
| SizeClass.CppCapacityBounds | src/omem.cpp:43 | an out-of-line pool's blocks fit in the budget, and there are none exactly when the block is larger than the budget |
| SizeClass.OversizeRequestGetsNoBlocks | src/omem.cpp:39-43 | a request one byte over the budget routes to a class with zero blocks |
| Diagnostics.Hub.constructor | src/omem.cpp:30 | the slot starts with the printing observer and no reports |
| Diagnostics.Hub.SetOnPoolDest | src/omem.cpp:108-116 | the observer is replaced and no report is produced |
| Diagnostics.Hub.Notify | src/omem.cpp:68 | the current observer receives exactly one report with the record; an exception is swallowed exactly when the observer throws |
| Pool.Offset | include/omem.hpp:98 | the unsigned pointer difference is p - base when p >= base, and wraps modulo 2^64 otherwise |
| Pool.InBufferIff | include/omem.hpp:98-99 | with the buffer inside the address space, the unsigned offset test is exactly base <= p < base + count*size |
| Pool.ClassifiersAgree | src/omem.cpp:94-95 | the out-of-line test offset/size < count accepts exactly the pointers the header's test offset < count*size accepts |
| Pool.BlockInBuffer | include/omem.hpp:51-55 | block i lies at offset i*size, passes the ownership test, and its index is recovered as offset/size |
| Pool.LiveBlockIndex | include/omem.hpp:97-103 | a live buffer address passes the ownership test and names a block that is not on the free list |
| Pool.LinkBlocks | include/omem.hpp:51-57 | the linking loop leaves every block pointing at the next one and the last one at null |
| Pool.InitialIsValid | include/omem.hpp:43-58 | a new pool, with or without a buffer, satisfies the pool invariant, including peak >= cur |
| Pool.AllocFromList | include/omem.hpp:85-90 | with a non-empty list, Alloc returns the head block, the list becomes its tail, and fault is unchanged |
| Pool.AllocFromPlatform | include/omem.hpp:91-92 | with an empty list, Alloc returns the platform block outside the buffer and fault grows by exactly one |
| Pool.AllocKeepsValid | include/omem.hpp:82-93 | Alloc keeps the invariant, raises cur by one, never lowers peak, and hands out an address that was not live and now is |
| Pool.FreeKeepsValid | include/omem.hpp:95-110 | the ownership test accepts exactly the buffer blocks; a buffer block is pushed at the head, a platform block leaves the list alone; cur drops by one and the pointer is no longer live |
| Pool.FreeThenAllocReturnsSame | include/omem.hpp:82-110 | after freeing a buffer block, the next Alloc returns that same block and restores the free list |
| Pool.AllocHandsOutLive | include/omem.hpp:82-93 | the address an allocation hands out is live in the new state, so it may be freed at once |
| Pool.AllocThenFreeRestores | include/omem.hpp:82-110 | an allocation freed at once restores the pool, except that peak records it and a platform allocation stays counted as a fault |
| Pool.ListRoundTrip | include/omem.hpp:85-104 | the round trip through the free list restores list, cur and fault exactly |
| Pool.PlatformRoundTrip | include/omem.hpp:91-108 | the round trip through the platform restores list, cur and the fault set, and fault stays one higher |
| Pool.IdleIffNothingLive | include/omem.hpp:84-109 | cur is zero exactly when no address is live in the pool |
| Pool.MovedPoolDisownsBlocks | include/omem.hpp:60-66 | a pool whose record was zeroed by the move rejects its own first block, so Free would send that block to the platform |
| Pool.MemoryPool.constructor | include/omem.hpp:43-58 | count == 0 gives no buffer and an empty list; otherwise all blocks are on the list in address order, ending in null, with cur = peak = fault = 0 |
| Pool.MemoryPool.Linked | src/omem.cpp:46-53 | the out-of-line constructor, which always takes a buffer and writes the last link unconditionally, so it needs count >= 1 |
| Pool.MemoryPool.MoveFrom | include/omem.hpp:60-66 | as written: the new pool takes the source's buffer and list under an all-zero record; the source keeps its record but has no buffer and no list |
| Pool.MemoryPool.MoveFixed | include/omem.hpp:60-66 | corrected move: the new pool is exactly the source's old state and the source is left empty and consistent |
| Pool.MemoryPool.Swap | include/omem.hpp:114-120 | the whole state of the two pools is exchanged |
| Pool.MemoryPool.MoveAssign | include/omem.hpp:73-77 | as written: the destination ends with the source's buffer under an all-zero record, and a distinct source loses its buffer; assigning a pool to itself keeps its buffer and list but zeroes its record too |
| Pool.MemoryPool.MoveAssignFixed | include/omem.hpp:73-77 | corrected move assignment: the destination becomes the source's old state and the source is left empty; assigning a pool to itself leaves it as it was; both stay consistent |
| Pool.MemoryPool.Alloc | include/omem.hpp:82-93 | the new state and the address follow `AllocSpec` on the old state; the invariant is kept |
| Pool.MemoryPool.Free | include/omem.hpp:95-110 | the new state follows `FreeSpec` on the old state; cur was at least one; the invariant is kept |
| Pool.MemoryPool.FreeByIndex | src/omem.cpp:88-106 | the out-of-line Free, with the index test, reaches the same `FreeSpec` state |
| Pool.MemoryPool.GetInfo | include/omem.hpp:112 | the record has cur <= peak, and cur is zero exactly when nothing is live |
| Pool.MemoryPool.Destroy | src/omem.cpp:63-70 | a pool with a buffer reports its final record to the current observer exactly once; a pool without one, such as a moved-from pool, reports nothing |
| Manager.MemoryPoolManager.constructor | include/omem.hpp:182-183 | the manager starts with no pools |
| Manager.MemoryPoolManager.Get | include/omem.hpp:171-178 | the pool keyed by the exponent of the class; it is created only when the key is absent, existing pools are never replaced, and other entries are unchanged |
| Manager.MemoryPoolManager.NewPool | include/omem.hpp:173-177 | builds a pool of 2^log-byte blocks with the header's capacity and files it under log |
| Manager.MemoryPoolManager.AddPool | include/omem.hpp:177 | the map gains exactly the new entry |
| Manager.MemoryPoolManager.Alloc | include/omem.hpp:161-164 | the class pool moves as `AllocSpec` says; the map gains no key but the class's, and every other pool is unchanged |
| Manager.MemoryPoolManager.AllocAt | include/omem.hpp:163 | allocates from one keyed pool and leaves every other pool unchanged |
| Manager.MemoryPoolManager.Free | include/omem.hpp:166-169 | the pool of the same class moves as `FreeSpec` says and every other pool is unchanged |
| Manager.MemoryPoolManager.FreeAt | include/omem.hpp:168 | frees into one keyed pool and leaves every other pool unchanged |
| Manager.MemoryPoolManager.New | include/omem.hpp:131-137 | the storage for one object comes from the class of its size, as Alloc; the map gains no key but that class's, and every other pool is unchanged |
| Manager.MemoryPoolManager.NewArr | include/omem.hpp:139-145 | the storage for n objects comes from the class of n * size, as Alloc; the map gains no key but that class's, and every other pool is unchanged |
| Manager.MemoryPoolManager.Delete | include/omem.hpp:147-152 | the storage of one object returns to the class of its size, as Free; every other pool is unchanged |
| Manager.MemoryPoolManager.DeleteArr | include/omem.hpp:154-159 | the storage of n objects returns to the class of n * size, as Free; every other pool is unchanged |
| Manager.MemoryPoolManager.ClassViewValid | include/omem.hpp:171-178 | the state of the class pool, existing or about to be built by Get, satisfies the pool invariant |
| Manager.MemoryPoolManager.AllocThenFree | include/omem.hpp:161-169 | an Alloc of some size followed by the Free of the returned pointer with the same size returns the class pool's cur to its old value and restores its list and faults; only peak and the fault count keep a trace; the map gains no key but the class's, and every other pool is unchanged |
| Manager.MemoryPoolManager.Pools | include/omem.hpp:180 | every key k names a pool of 2^k-byte blocks that holds a pointer, with the header's capacity |
| Manager.PoolsFit | include/omem.hpp:174-176 | a pool keyed at or above the pointer's exponent has blocks that hold a pointer |
| Registry.PoolRegistry.constructor | src/omem.cpp:30-31 | no pools yet, and the printing observer installed with no reports |
| Registry.PoolRegistry.Get | src/omem.cpp:37-44 | the pool keyed by the block size; it is created only when the key is absent, with budget / block-size blocks |
| Registry.PoolRegistry.NewPool | src/omem.cpp:43 | builds the pool with budget / block-size blocks; a class over the budget gets a pool without a buffer, the correction of Findings row 2 |
| Registry.PoolRegistry.AddPool | src/omem.cpp:43 | the map gains exactly the new entry |
| Registry.PoolRegistry.SetOnPoolDest | src/omem.cpp:108-116 | the observer is replaced and no report is produced |
| Registry.PoolRegistry.GetPools | src/omem.cpp:118-121 | every key is a power of two at least pointer-sized, names its pool's block size, and the pool's blocks fit in the budget |
| Registry.PoolRegistry.Teardown | src/omem.cpp:31 | destroying the map reports each pool that owns a buffer exactly once, with its final record, to the current observer, in some order; the others, including the buffer-less pool the corrected `NewPool` builds for a class over the budget, report nothing |
| Registry.CountsFit | src/omem.cpp:43 | every out-of-line pool's blocks fit in the budget |

## Left out

- Printing: the default observer `PrintPoolInfo` writes to standard output (src/omem.cpp:22-28). It is an abstract observer value here.
- Locking: the `OMEM_THREADSAFE` mutexes (src/omem.cpp:33-35, 41, 75, 91) are not modelled. Each call is one atomic step.
- Platform allocation: `operator new` and `operator delete` are not called. Their results are the `addr` and `platform` parameters, and releasing a block removes it from the ghost `faults` set. Running out of memory is not modelled.
- Object construction: placement construction, destructor calls and the exception rethrow in `New`, `NewArr`, `Delete` and `DeleteArr` are not modelled. Only the `Alloc`/`Free` of `size` or `n * size` bytes is.
- Machine-word overflow: the `1 << log` shift and the product `n * sizeof(T)` are unbounded here. `cur` cannot wrap below zero, because `Free` requires a live pointer.
- Iteration order: `Registry.PoolRegistry.Teardown` picks keys in an unspecified order, standing in for the hash map's destruction order.
- Header destructor: it only releases the buffer (include/omem.hpp:68-71). Release is not modelled, so it has no counterpart.
- Test harness and allocator adapter: tests/omem_test.cpp is a benchmark without assertions. The `Allocator` adapter it uses is not part of this model.
- Pool.MemoryPool.constructor: the source asserts `size >= sizeof(Block)`. The model requires only `size > 0`; every pool the managers build has `size >= ptrSize` (`SizeClass.Route`).
- Pool.MemoryPool.MoveAssignFixed: the release of the destination's previous buffer is not modelled, because releases are not modelled.
- Pool.MemoryPool.Free: requires a live pointer. Freeing anything else is undefined behaviour in the source.
- Registry.PoolRegistry.NewPool: for a class over the budget (count 0) it builds the corrected pool without a buffer, not what src/omem.cpp:43,46-53 builds. As written, `operator new(0)` returns a non-null buffer that becomes the list head. The first `Alloc` then hands out that 0-byte buffer (src/omem.cpp:78-82). `Free` of it computes index 0, fails `idx < count` and passes the buffer to `operator delete` (src/omem.cpp:94-103). The destructor then deletes the buffer a second time and reports the pool (src/omem.cpp:65-68). `Registry.PoolRegistry.Teardown` therefore speaks of the corrected registry.
- IntLog.LogCeil: requires `base >= 2`. In the source, base 1 never terminates for x >= 1 and base 0 divides by zero (include/omem.hpp:15). Every call passes base 2 (include/omem.hpp:173-175, src/omem.cpp:39).
- Manager.MemoryPoolManager.Free: requires the class pool to exist and the pointer to be live in it. Both hold for any pointer an earlier `Alloc` of the same size returned.

## Findings

| source | as written | input that shows it | evidently intended | confidence | as-written member | corrected member |
|---|---|---|---|---|---|---|
| include/omem.hpp:60-66 | the move constructor clears `info_` of the new pool (`info_ = {}`), not of the source; src/omem.cpp:55-61 and move assignment (include/omem.hpp:73-77) inherit this | any pool with count > 0 moved into a new pool: its count and size become 0, so Free of its own first block fails the offset test and goes to the platform allocator; in the out-of-line Free the zeroed size is the divisor of the index test (src/omem.cpp:94) | the record moves with the buffer and the source is left empty | not executed | Pool.MemoryPool.MoveFrom, Pool.MovedPoolDisownsBlocks, Pool.MemoryPool.MoveAssign | Pool.MemoryPool.MoveFixed, Pool.MemoryPool.MoveAssignFixed |
| src/omem.cpp:43 | capacity is `OMEM_POOL_SIZE / real_size`, and the constructor (src/omem.cpp:46-53) always writes the last block's link | a request of OMEM_POOL_SIZE + 1 bytes: count is 0, the buffer has 0 bytes, and `next->next = nullptr` writes into it; the buffer becomes the list head, so the first Alloc hands out the 0-byte buffer (src/omem.cpp:78-82), its Free fails `idx < count` and releases the buffer (src/omem.cpp:94-103), and the destructor releases it again and reports (src/omem.cpp:65-68) | a class over the budget gets a pool without a buffer, as the header constructor does | not executed | Pool.MemoryPool.Linked, SizeClass.OversizeRequestGetsNoBlocks | Registry.PoolRegistry.NewPool |
| include/omem.hpp:21 | `cnt + remain` misses the case where the last nonzero quotient is above 1 | base 3, x = 2: no division runs, so the result is 0, but 3^0 = 1 < 2 | the least k with base^k >= x, which base 2 happens to get right | not executed | IntLog.LogCeil, IntLog.LogCeilMissesNonBinaryBases | IntLog.LogCeilExact |

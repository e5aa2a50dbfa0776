/** The statistics record every pool keeps and reports at teardown. */
module Stats {

  /**
   * size and count are fixed when the pool is built; cur counts the blocks
   * handed out and not yet returned, peak is the largest value cur has had,
   * and fault counts the allocations the free list could not serve.
   */
  datatype PoolInfo = PoolInfo(size: nat, count: nat, cur: nat, peak: nat, fault: nat)

  /** The default-constructed record. */
  const NoInfo := PoolInfo(0, 0, 0, 0, 0)
}

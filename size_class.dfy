/**
 * Size-class routing: a request of `size` bytes is served from blocks of
 * 2^max(LogCeil(size, 2), LogCeil(ptrSize, 2)) bytes, where ptrSize is the
 * width of a pointer, so that a free block can always hold its list link.
 */
module SizeClass {
  import opened IntLog

  /** Exponent of the block size that serves `size`-byte requests. */
  function ClassLog(size: nat, ptrSize: nat): (r: nat)
  {
    Max(LogCeilOf(size, 2), LogCeilOf(ptrSize, 2))
  }

  /** Block size that serves `size`-byte requests. */
  function ClassSize(size: nat, ptrSize: nat): (r: nat)
  {
    Pow(2, ClassLog(size, ptrSize))
  }

  /**
   * The block size is a power of two that holds the request and a pointer,
   * and it is the least such power of two.
   */
  lemma ClassSizeFits(size: nat, ptrSize: nat)
    ensures size <= ClassSize(size, ptrSize) && ptrSize <= ClassSize(size, ptrSize)
    ensures Pow(2, LogCeilOf(ptrSize, 2)) <= ClassSize(size, ptrSize)
    ensures forall k :: size <= Pow(2, k) && ptrSize <= Pow(2, k) ==> ClassSize(size, ptrSize) <= Pow(2, k)
  {
    var a, c := LogCeilOf(size, 2), LogCeilOf(ptrSize, 2);
    var m := ClassLog(size, ptrSize);
    LogCeilBase2(size);
    LogCeilBase2(ptrSize);
    PowGrows(2, a, m);
    PowGrows(2, c, m);
    forall k | size <= Pow(2, k) && ptrSize <= Pow(2, k) ensures Pow(2, m) <= Pow(2, k) {
      assert a <= k && c <= k;
      PowGrows(2, m, k);
    }
  }

  /**
   * Computes the size class of a request the way both routers do: the
   * larger of the ceiling logarithms of the request and of the pointer width,
   * and two to that power.
   */
  method Route(size: nat, ptrSize: nat) returns (log: nat, realSize: nat)
    ensures log == ClassLog(size, ptrSize) && realSize == ClassSize(size, ptrSize)
    ensures size <= realSize && ptrSize <= realSize && realSize > 0
    ensures LogCeilOf(ptrSize, 2) <= log && realSize == Pow(2, LogCeilOf(realSize, 2))
  {
    var minLog := LogCeil(ptrSize, 2);
    var sizeLog := LogCeil(size, 2);
    log := Max(sizeLog, minLog);
    realSize := Pow(2, log);
    ClassSizeFits(size, ptrSize);
    LogCeilOfPower(2, log);
  }

  /** Rounding is idempotent: a block-sized request maps to its own block size. */
  lemma ClassSizeIdempotent(size: nat, ptrSize: nat)
    ensures ClassLog(ClassSize(size, ptrSize), ptrSize) == ClassLog(size, ptrSize)
    ensures ClassSize(ClassSize(size, ptrSize), ptrSize) == ClassSize(size, ptrSize)
  {
    LogCeilOfPower(2, ClassLog(size, ptrSize));
  }

  /**
   * Keying pools by exponent (the header) or by block size (the out-of-line
   * registry) groups exactly the same requests together.
   */
  lemma KeysAgree(s1: nat, s2: nat, ptrSize: nat)
    ensures ClassSize(s1, ptrSize) == ClassSize(s2, ptrSize) <==> ClassLog(s1, ptrSize) == ClassLog(s2, ptrSize)
  {
    var l1, l2 := ClassLog(s1, ptrSize), ClassLog(s2, ptrSize);
    if l1 < l2 { PowStrictlyGrows(2, l1, l2); }
    if l2 < l1 { PowStrictlyGrows(2, l2, l1); }
  }

  // ---------------------------------------------------------------------------
  // Pool capacity in the header: the byte budget is first rounded up to a power of two

  function HeaderPoolBytes(poolSize: nat): (r: nat)
  {
    Pow(2, LogCeilOf(poolSize, 2))
  }

  /** Number of blocks of 2^log bytes in a header pool. */
  function HeaderCapacity(poolSize: nat, log: nat): (r: nat)
  {
    HeaderPoolBytes(poolSize) / Pow(2, log)
  }

  /**
   * A class no larger than the rounded budget gets exactly budget / block-size
   * blocks, with no bytes left over; a larger class gets no buffer at all.
   */
  lemma HeaderCapacityExact(poolSize: nat, log: nat)
    ensures log <= LogCeilOf(poolSize, 2) ==>
      HeaderCapacity(poolSize, log) == Pow(2, LogCeilOf(poolSize, 2) - log) >= 1 &&
      HeaderCapacity(poolSize, log) * Pow(2, log) == HeaderPoolBytes(poolSize)
    ensures log > LogCeilOf(poolSize, 2) ==> HeaderCapacity(poolSize, log) == 0
  {
    var t := LogCeilOf(poolSize, 2);
    if log <= t {
      PowAdd(2, t - log, log);
      DivModUnique(Pow(2, t), Pow(2, log), Pow(2, t - log), 0);
    } else {
      PowStrictlyGrows(2, t, log);
      DivModUnique(Pow(2, t), Pow(2, log), 0, Pow(2, t));
    }
  }

  /** The blocks of a header pool fit in the rounded budget. */
  lemma HeaderCapacityFits(poolSize: nat, log: nat)
    ensures HeaderCapacity(poolSize, log) * Pow(2, log) <= HeaderPoolBytes(poolSize)
  {
    var b, s := HeaderPoolBytes(poolSize), Pow(2, log);
    assert b == (b / s) * s + b % s;
  }

  // ---------------------------------------------------------------------------
  // Pool capacity in the out-of-line registry: the budget is divided as given

  /** Number of blocks of `blockSize` bytes in an out-of-line pool. */
  function CppCapacity(poolSize: nat, blockSize: nat): (r: nat)
    requires blockSize > 0
  {
    poolSize / blockSize
  }

  /** The blocks fit in the budget, and none are created exactly when the block exceeds the budget. */
  lemma CppCapacityBounds(poolSize: nat, blockSize: nat)
    requires blockSize > 0
    ensures CppCapacity(poolSize, blockSize) * blockSize <= poolSize
    ensures CppCapacity(poolSize, blockSize) == 0 <==> poolSize < blockSize
  {
    var q := poolSize / blockSize;
    assert poolSize == q * blockSize + poolSize % blockSize;
    if q >= 1 {
      MulLe(1, q, blockSize);
    }
  }

  /** Any request above the budget routes to a class with no blocks. */
  lemma OversizeRequestGetsNoBlocks(poolSize: nat, ptrSize: nat)
    ensures CppCapacity(poolSize, ClassSize(poolSize + 1, ptrSize)) == 0
  {
    ClassSizeFits(poolSize + 1, ptrSize);
    CppCapacityBounds(poolSize, ClassSize(poolSize + 1, ptrSize));
  }
}

/** Integer logarithms: the LogCeil loop used to round request sizes to size classes. */
module IntLog {

  function Max(a: nat, b: nat): (m: nat)
    ensures a <= m && b <= m && (m == a || m == b)
  {
    if a < b then b else a
  }

  /** b raised to the k-th power. */
  function Pow(b: nat, k: nat): (r: nat)
    ensures b >= 1 ==> r >= 1
  {
    if k == 0 then 1 else b * Pow(b, k - 1)
  }

  lemma {:induction false} PowStrictlyGrows(b: nat, j: nat, k: nat)
    requires b >= 2 && j < k
    ensures Pow(b, j) < Pow(b, k)
  {
    if k == j + 1 {
      assert Pow(b, k) == b * Pow(b, j);
    } else {
      PowStrictlyGrows(b, j, k - 1);
      assert Pow(b, k) == b * Pow(b, k - 1);
    }
  }

  lemma PowGrows(b: nat, j: nat, k: nat)
    requires b >= 2 && j <= k
    ensures Pow(b, j) <= Pow(b, k)
  {
    if j < k { PowStrictlyGrows(b, j, k); }
  }

  lemma {:induction false} PowAdd(b: nat, m: nat, n: nat)
    ensures Pow(b, m + n) == Pow(b, m) * Pow(b, n)
  {
    if n > 0 {
      PowAdd(b, m, n - 1);
      assert Pow(b, m + n) == b * Pow(b, m + n - 1);
      assert Pow(b, n) == b * Pow(b, n - 1);
      MulAssoc(b, Pow(b, m), Pow(b, n - 1));
    }
  }

  lemma MulAssoc(a: nat, c: nat, d: nat)
    ensures a * (c * d) == c * (a * d)
  {
  }

  /** Number of times x can be divided by b before the quotient drops to zero. */
  function FloorLog(x: nat, b: nat): (r: nat)
    requires b >= 2
    decreases x
  {
    if x / b == 0 then 0 else DivShrinks(x, b); 1 + FloorLog(x / b, b)
  }

  /** k is the least exponent with b^k >= x: the ceiling of log_b x. */
  ghost predicate IsCeilLog(x: nat, b: nat, k: nat)
  {
    x <= Pow(b, k) && forall j :: 0 <= j < k ==> Pow(b, j) < x
  }

  /**
   * What the LogCeil loop returns: the number of divisions it performs, plus one
   * when some division left a remainder, i.e. when x is not a multiple of b^FloorLog(x).
   */
  function LogCeilOf(x: nat, b: nat): (r: nat)
    requires b >= 2
  {
    var f := FloorLog(x, b);
    if x % Pow(b, f) == 0 then f else f + 1
  }

  /** The ceiling logarithm for every base: one more than FloorLog unless x is at most b^FloorLog(x). */
  function CeilLogOf(x: nat, b: nat): (r: nat)
    requires b >= 2
  {
    var f := FloorLog(x, b);
    if x <= Pow(b, f) then f else f + 1
  }

  // ---------------------------------------------------------------------------
  // Arithmetic helpers (each a single nonlinear step)

  lemma MulLe(a: nat, b: nat, c: nat)
    requires a <= b
    ensures a * c <= b * c
  {
  }

  lemma MulLt(a: nat, b: nat, c: nat)
    requires a < b && c > 0
    ensures a * c < b * c
  {
  }

  lemma DivModUnique(x: nat, d: nat, q: nat, m: nat)
    requires d > 0 && m < d && x == q * d + m
    ensures x / d == q && x % d == m
  {
    var q', m' := x / d, x % d;
    assert x == q' * d + m';
    if q' < q {
      MulLe(q' + 1, q, d);
    } else if q' > q {
      MulLe(q + 1, q', d);
    }
  }

  lemma DivShrinks(x: nat, b: nat)
    requires b >= 2 && x / b != 0
    ensures x / b < x
  {
    var q := x / b;
    assert x == q * b + x % b;
    MulLe(2, b, q);
  }

  /** One step of the loop: dividing the remaining value by b keeps it bracketing x. */
  lemma DivStep(x: nat, p: nat, y: nat, b: nat)
    requires b >= 2 && p >= 1
    requires p * y <= x < p * (y + 1)
    ensures (p * b) * (y / b) <= x < (p * b) * (y / b + 1)
    ensures (p * b) * (y / b) == x <==> p * y == x && y % b == 0
  {
    var q, m := y / b, y % b;
    assert y == b * q + m;
    assert (p * b) * q == p * (b * q);
    MulLe(b * q, y, p);
    assert p * (b * q) <= p * y;
    MulLe(y + 1, b * q + b, p);
    assert (p * b) * (q + 1) == p * (b * q + b);
    if m != 0 {
      MulLt(b * q, y, p);
    }
  }

  lemma {:induction false} FloorLogBounds(x: nat, b: nat)
    requires b >= 2 && x >= 1
    ensures Pow(b, FloorLog(x, b)) <= x < Pow(b, FloorLog(x, b) + 1)
  {
    if x / b == 0 {
      SmallQuotient(x, b);
    } else {
      var y := x / b;
      DivShrinks(x, b);
      FloorLogBounds(y, b);
      var f := FloorLog(y, b);
      BracketStep(x, b, y, Pow(b, f), Pow(b, f + 1));
    }
  }

  lemma SmallQuotient(x: nat, b: nat)
    requires b >= 2 && x / b == 0
    ensures x < b && FloorLog(x, b) == 0 && Pow(b, 1) == b
  {
    assert x == (x / b) * b + x % b;
  }

  lemma BracketStep(x: nat, b: nat, y: nat, p: nat, p1: nat)
    requires b >= 2 && y == x / b && p <= y < p1 && p1 == b * p
    ensures p1 <= x < b * p1
  {
    assert b * y <= x < b * (y + 1) by {
      assert x == y * b + x % b;
    }
    MulLe(p, y, b);
    MulLe(y + 1, p1, b);
  }

  lemma FloorLogUnique(x: nat, b: nat, k: nat)
    requires b >= 2 && Pow(b, k) <= x < Pow(b, k + 1)
    ensures FloorLog(x, b) == k
  {
    FloorLogBounds(x, b);
    var f := FloorLog(x, b);
    if f < k { PowGrows(b, f + 1, k); }
    if k < f { PowGrows(b, k + 1, f); }
  }

  // ---------------------------------------------------------------------------
  // The loop, as the source writes it

  /**
   * What stays true while the loop runs: after cnt divisions the remaining value y
   * brackets x between b^cnt * y and b^cnt * (y + 1); remain records whether x left
   * the lower end; the divisions still to come make up the rest of FloorLog(x).
   */
  ghost predicate Bracketed(x: nat, b: nat, cnt: nat, y: nat, remain: bool)
    requires b >= 2
  {
    Pow(b, cnt) * y <= x < Pow(b, cnt) * (y + 1) &&
    (remain <==> Pow(b, cnt) * y != x) &&
    FloorLog(x, b) == cnt + FloorLog(y, b)
  }

  lemma LoopStep(x: nat, b: nat, cnt: nat, y: nat, remain: bool)
    requires b >= 2 && y / b > 0 && Bracketed(x, b, cnt, y, remain)
    ensures Bracketed(x, b, cnt + 1, y / b, remain || y % b != 0)
    ensures y / b < y
  {
    DivStep(x, Pow(b, cnt), y, b);
    DivShrinks(y, b);
    assert Pow(b, cnt + 1) == Pow(b, cnt) * b;
  }

  lemma LoopExit(x: nat, b: nat, cnt: nat, y: nat, remain: bool)
    requires b >= 2 && y / b == 0 && Bracketed(x, b, cnt, y, remain)
    ensures cnt + (if remain then 1 else 0) == LogCeilOf(x, b)
    ensures cnt + (if remain || y > 1 then 1 else 0) == CeilLogOf(x, b)
  {
    SmallQuotient(y, b);
    assert FloorLog(x, b) == cnt;
    if x >= 1 {
      FloorLogBounds(x, b);
    }
    ExitArith(x, Pow(b, cnt), y, remain);
  }

  lemma ExitArith(x: nat, p: nat, y: nat, remain: bool)
    requires p >= 1 && p * y <= x < p * (y + 1) && (remain <==> p * y != x)
    requires x >= 1 ==> p <= x
    ensures (x % p == 0) == !remain
    ensures (x <= p) == !(remain || y > 1)
  {
    assert p * (y + 1) == p * y + p;
    DivModUnique(x, p, y, x - p * y);
    if y == 0 {
      assert p * y == 0;
    } else if y == 1 {
      assert p * y == p;
    } else {
      MulLe(2, y, p);
    }
  }

  /**
   * Divides x by base until the quotient is zero, counting the divisions and
   * remembering whether any of them left a remainder.
   */
  method LogCeil(x: nat, base: nat) returns (r: nat)
    requires base >= 2
    ensures r == LogCeilOf(x, base)
  {
    var cnt: nat := 0;
    var remain := false;
    var y: nat := x;
    while y / base > 0
      invariant Bracketed(x, base, cnt, y, remain)
      decreases y
    {
      LoopStep(x, base, cnt, y, remain);
      remain := remain || y % base != 0;
      y := y / base;
      cnt := cnt + 1;
    }
    LoopExit(x, base, cnt, y, remain);
    r := cnt + (if remain then 1 else 0);
  }

  /** The loop with the missing case added: a final quotient above one also needs one more power. */
  method LogCeilExact(x: nat, base: nat) returns (r: nat)
    requires base >= 2
    ensures IsCeilLog(x, base, r)
  {
    var cnt: nat := 0;
    var remain := false;
    var y: nat := x;
    while y / base > 0
      invariant Bracketed(x, base, cnt, y, remain)
      decreases y
    {
      LoopStep(x, base, cnt, y, remain);
      remain := remain || y % base != 0;
      y := y / base;
      cnt := cnt + 1;
    }
    LoopExit(x, base, cnt, y, remain);
    r := cnt + (if remain || y > 1 then 1 else 0);
    CeilLogOfIsLeast(x, base);
  }

  // ---------------------------------------------------------------------------
  // Properties

  /** CeilLogOf is the least exponent whose power reaches x, for every base. */
  lemma CeilLogOfIsLeast(x: nat, b: nat)
    requires b >= 2
    ensures IsCeilLog(x, b, CeilLogOf(x, b))
  {
    if x >= 1 {
      var f := FloorLog(x, b);
      FloorLogBounds(x, b);
      if x <= Pow(b, f) {
        AllBelow(x, b, f, f);
      } else {
        AllBelow(x, b, f, f + 1);
      }
    }
  }

  /** Every power below exponent k is below x, given that b^(k-1) is. */
  lemma AllBelow(x: nat, b: nat, f: nat, k: nat)
    requires b >= 2 && (k == f || k == f + 1)
    requires k == f ==> Pow(b, f) == x
    requires k == f + 1 ==> Pow(b, f) < x
    ensures forall j :: 0 <= j < k ==> Pow(b, j) < x
  {
    forall j | 0 <= j < k ensures Pow(b, j) < x {
      PowGrows(b, j, f);
      if k == f { PowStrictlyGrows(b, j, f); }
    }
  }

  /** For base 2, what the loop returns is the ceiling of log2 x, for every x. */
  lemma LogCeilBase2(x: nat)
    ensures LogCeilOf(x, 2) == CeilLogOf(x, 2)
    ensures IsCeilLog(x, 2, LogCeilOf(x, 2))
  {
    CeilLogOfIsLeast(x, 2);
    if x >= 1 {
      var f := FloorLog(x, 2);
      FloorLogBounds(x, 2);
      var p := Pow(2, f);
      assert Pow(2, f + 1) == 2 * p;
      DivModUnique(x, p, 1, x - p);
    }
  }

  /** Zero and one need no division: both map to exponent 0 in every base. */
  lemma LogCeilOfZeroAndOne(b: nat)
    requires b >= 2
    ensures LogCeilOf(0, b) == 0 && LogCeilOf(1, b) == 0
  {
    assert FloorLog(1, b) == 0 by { assert 1 / b == 0; }
  }

  /** Exact powers map to their own exponent. */
  lemma LogCeilOfPower(b: nat, k: nat)
    requires b >= 2
    ensures LogCeilOf(Pow(b, k), b) == k && CeilLogOf(Pow(b, k), b) == k
  {
    PowStrictlyGrows(b, k, k + 1);
    FloorLogUnique(Pow(b, k), b, k);
    DivModUnique(Pow(b, k), Pow(b, k), 1, 0);
  }

  /** In base 3 the loop answers 0 for x == 2, although 3^0 < 2. */
  lemma LogCeilMissesNonBinaryBases()
    ensures LogCeilOf(2, 3) == 0 && Pow(3, 0) < 2
    ensures !IsCeilLog(2, 3, LogCeilOf(2, 3)) && CeilLogOf(2, 3) == 1
  {
    assert FloorLog(2, 3) == 0;
  }
}

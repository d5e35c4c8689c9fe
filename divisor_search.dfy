// The method-based search shared, line for line, by
// multiplicative_optimal_partitions/conjecture_analyzer.py and
// multiplicative_optimal_partitions/basic_graphs.py: trial-division
// divisors, the k-factor test with its k = 1 and k = 2 special cases, the
// pruned recursive check and the upward scan over k.
module DivisorSearch {
  import opened Sorting
  import opened Partitions

  /** The cofactor of a divisor d of n >= 1 is a divisor whose cofactor is d. */
  lemma Cofactor(n: int, d: int)
    requires n >= 1 && 1 <= d <= n && n % d == 0
    ensures 1 <= n / d <= n && n % (n / d) == 0 && n / (n / d) == d && d * (n / d) == n
  {
    var q := n / d;
    DivExact(n, d);
    assert d * q == n;
    MulSign(d, q);
    assert q != 0;
    assert q >= 1;
    MulPositive(d, q);
    assert q * d == n;
    MulDivExact(q, d);
  }

  /** Of a divisor pair (d, n / d) at least one is at most isqrt(n). */
  lemma SqrtSplit(n: int, d: int)
    requires n >= 1 && 1 <= d <= n && n % d == 0
    ensures d <= IRoot(n, 2) || n / d <= IRoot(n, 2)
  {
    var s := IRoot(n, 2);
    Cofactor(n, d);
    if d > s && n / d > s {
      MulMono(s + 1, d, s + 1, n / d);
      PowTwo(s + 1);
    }
  }

  /** A divisor i <= isqrt(n) has cofactor at least i. */
  lemma SmallDivisor(n: int, i: int)
    requires n >= 1 && 1 <= i <= IRoot(n, 2) && n % i == 0
    ensures n / i >= i
  {
    var s := IRoot(n, 2);
    MulMono(i, s, i, s);
    PowTwo(s);
    MulLeDiv(i, i, n);
  }

  /** get_divisors: trial division up to isqrt(n), adding each divisor i
      and its cofactor n / i (once, for a perfect square), then sorting. */
  method GetDivisors(n: int) returns (divisors: seq<int>)
    requires n >= 0
    ensures StrictlyAscending(divisors)
    ensures forall d :: d in divisors ==> 1 <= d <= n && n % d == 0
    ensures forall d :: 1 <= d <= n && n % d == 0 ==> d in divisors
  {
    var s := IRoot(n, 2);
    var raw: seq<int> := [];
    var i := 1;
    while i <= s
      invariant 1 <= i <= s + 1
      invariant DivisorsFound(raw, n, i)
    {
      if n % i == 0 {
        var q := n / i;
        DivisorsFoundStep(raw, n, i);
        ghost var next := raw + [i] + (if i != q then [q] else []);
        raw := raw + [i];
        if i != q {
          raw := raw + [q];
        }
        assert raw == next;
      } else {
        DivisorsFoundSkip(raw, n, i);
      }
      i := i + 1;
    }
    DivisorsFoundAll(raw, n);
    SortDistinct(raw);
    SortMembers(raw);
    divisors := Sort(raw);
  }

  /** After trial division up to i - 1, raw holds without repetition exactly
      the divisors d of n with d < i or n / d < i. */
  ghost predicate DivisorsFound(raw: seq<int>, n: int, i: int)
  {
    Distinct(raw) &&
    (forall d :: d in raw ==> 1 <= d <= n && n % d == 0 && (d < i || n / d < i)) &&
    (forall d :: 1 <= d <= n && n % d == 0 && (d < i || n / d < i) ==> d in raw)
  }

  /** A divisor i <= isqrt(n) adds i and, unless i * i = n, its cofactor. */
  lemma DivisorsFoundStep(raw: seq<int>, n: int, i: int)
    requires n >= 1 && 1 <= i <= IRoot(n, 2) && n % i == 0 && DivisorsFound(raw, n, i)
    ensures DivisorsFound(raw + [i] + (if i != n / i then [n / i] else []), n, i + 1)
  {
    Cofactor(n, i);
    SmallDivisor(n, i);
    var q := n / i;
    var next := raw + [i] + (if i != q then [q] else []);
    assert i !in raw && q !in raw;
    forall d | d in next ensures 1 <= d <= n && n % d == 0 && (d < i + 1 || n / d < i + 1) {
      if d !in raw {
        assert d == i || d == q;
      }
    }
    forall d | 1 <= d <= n && n % d == 0 && (d < i + 1 || n / d < i + 1) ensures d in next {
      if n / d == i {
        Cofactor(n, d);
      }
    }
  }

  /** A non-divisor i adds nothing: no divisor has cofactor i. */
  lemma DivisorsFoundSkip(raw: seq<int>, n: int, i: int)
    requires n >= 1 && 1 <= i && n % i != 0 && DivisorsFound(raw, n, i)
    ensures DivisorsFound(raw, n, i + 1)
  {
    forall d | 1 <= d <= n && n % d == 0 && n / d == i ensures false {
      Cofactor(n, d);
    }
  }

  /** Past isqrt(n) every divisor has been found. */
  lemma DivisorsFoundAll(raw: seq<int>, n: int)
    requires n >= 0 && DivisorsFound(raw, n, IRoot(n, 2) + 1)
    ensures Distinct(raw)
    ensures forall d :: d in raw ==> 1 <= d <= n && n % d == 0
    ensures forall d :: 1 <= d <= n && n % d == 0 ==> d in raw
  {
    forall d | 1 <= d <= n && n % d == 0 ensures d in raw {
      SqrtSplit(n, d);
    }
  }

  /** The largest candidate factor the recursive check tries:
      min(r // m^(f-1), floor(r^(1/f)) + 1), with the floating-point root
      replaced by the exact integer root. */
  function MaxFactor(r: int, f: int, m: int): (x: int)
    requires r >= 0 && f >= 1 && m >= 1
    ensures Pow(m, f - 1) >= 1 && x <= r / Pow(m, f - 1) && x <= IRoot(r, f) + 1
  {
    PowPositive(m, f - 1);
    var a, b := r / Pow(m, f - 1), IRoot(r, f) + 1;
    if a <= b then a else b
  }

  /** Limiting the candidates to [m, MaxFactor(r, f, m)] loses no solution:
      a feasible state has a usable first factor in that range. */
  lemma CandidateBound(r: int, f: int, m: int) returns (a: int)
    requires f >= 1 && m >= 1 && Feasible(r, f, m)
    ensures r >= 1 && m <= a <= MaxFactor(r, f, m)
    ensures r % a == 0 && Feasible(r / a, f - 1, m)
  {
    FeasiblePrune(r, f, m);
    a := FeasibleMinFactor(r, f, m);
    PowPositive(m, f - 1);
    MulLeDiv(a, Pow(m, f - 1), r);
    var s := IRoot(r, f);
    if a > s + 1 {
      PowMonoBase(s + 1, a, f);
    }
  }

  /** _recursive_partition_check(remaining, factors_left, min_factor). */
  method RecursivePartitionCheck(remaining: int, factorsLeft: int, minFactor: int) returns (ok: bool)
    requires factorsLeft >= 0 && minFactor >= 1
    ensures ok <==> Feasible(remaining, factorsLeft, minFactor)
    ensures factorsLeft == 0 ==> (ok <==> remaining == 1)
    ensures factorsLeft == 1 ==> (ok <==> remaining >= minFactor)
    ensures Pow(minFactor, factorsLeft) > remaining ==> !ok
    decreases factorsLeft
  {
    if factorsLeft == 0 {
      FeasibleZero(remaining, minFactor);
      return remaining == 1;
    }
    if factorsLeft == 1 {
      FeasibleOne(remaining, minFactor);
      assert Pow(minFactor, 1) == minFactor;
      return remaining >= minFactor;
    }
    if Pow(minFactor, factorsLeft) > remaining {
      if Feasible(remaining, factorsLeft, minFactor) {
        FeasiblePrune(remaining, factorsLeft, minFactor);
      }
      return false;
    }
    PowPositive(minFactor, factorsLeft);
    var maxFactor := MaxFactor(remaining, factorsLeft, minFactor);
    var factor := minFactor;
    while factor <= maxFactor
      invariant minFactor <= factor
      invariant forall a :: minFactor <= a < factor && remaining % a == 0 ==>
        !Feasible(remaining / a, factorsLeft - 1, minFactor)
    {
      if remaining % factor == 0 {
        var sub := RecursivePartitionCheck(remaining / factor, factorsLeft - 1, minFactor);
        if sub {
          FeasibleStep(remaining, factorsLeft, minFactor, factor);
          return true;
        }
      }
      factor := factor + 1;
    }
    if Feasible(remaining, factorsLeft, minFactor) {
      var a := CandidateBound(remaining, factorsLeft, minFactor);
    }
    return false;
  }

  /** Some divisor d >= 2 of n has cofactor n / d >= 2. */
  predicate HasProperSplit(n: int)
  {
    exists d :: 2 <= d <= n && n % d == 0 && n / d >= 2
  }

  /** A two-factor partition is exactly a divisor split with both parts >= 2. */
  lemma TwoFactors(n: int)
    ensures Feasible(n, 2, 2) <==> HasProperSplit(n)
  {
    if Feasible(n, 2, 2) {
      var a := FeasibleFirst(n, 2, 2);
      FeasibleOne(n / a, 2);
      assert 2 <= a <= n && n % a == 0 && n / a >= 2;
    }
    if HasProperSplit(n) {
      var d :| 2 <= d <= n && n % d == 0 && n / d >= 2;
      FeasibleOne(n / d, 2);
      FeasibleStep(n, 2, 2, d);
    }
  }

  /** A scan of all divisors that finds no d >= 2 with n / d >= 2 shows
      that no such split exists. */
  lemma NoSplitInScan(n: int, divisors: seq<int>)
    requires forall d :: 1 <= d <= n && n % d == 0 ==> d in divisors
    requires forall j :: 0 <= j < |divisors| ==> !(divisors[j] >= 2 && n / divisors[j] >= 2)
    ensures !HasProperSplit(n)
  {
    forall d | 2 <= d <= n && n % d == 0 ensures n / d < 2 {
      assert d in divisors;
    }
  }

  /** can_partition_with_k_factors(n, k). */
  method CanPartitionWithKFactors(n: int, k: int) returns (ok: bool)
    requires k >= 1
    ensures ok <==> Feasible(n, k, k)
    ensures k == 1 ==> (ok <==> n >= 1)
    ensures Pow(k, k) > n ==> !ok
    ensures k == 2 ==> (ok <==> HasProperSplit(n))
  {
    if k == 1 {
      FeasibleOne(n, 1);
      return n >= 1;
    }
    if Pow(k, k) > n {
      if Feasible(n, k, k) { FeasiblePrune(n, k, k); }
      return false;
    }
    if k == 2 {
      TwoFactors(n);
      var divisors := GetDivisors(n);
      var i := 0;
      while i < |divisors|
        invariant 0 <= i <= |divisors|
        invariant forall j :: 0 <= j < i ==> !(divisors[j] >= 2 && n / divisors[j] >= 2)
      {
        var d := divisors[i];
        if d >= 2 && n / d >= 2 {
          assert d in divisors;
          assert 2 <= d <= n && n % d == 0 && n / d >= 2;
          return true;
        }
        i := i + 1;
      }
      NoSplitInScan(n, divisors);
      return false;
    }
    ok := RecursivePartitionCheck(n, k, k);
  }

  /** partition_function(n): the last k with k^k <= n that passes the test,
      scanning k upwards from 1; 1 for n = 1. */
  method PartitionFunction(n: int) returns (p: int)
    ensures p >= 1
    ensures n <= 1 ==> p == 1
    ensures n >= 1 ==> IsPartitionNumber(n, p)
  {
    if n == 1 {
      FeasibleTrivial(1);
      assert Pow(2, 2) > 1;
      NoneFromPowBound(1, 2);
      return 1;
    }
    var maxK := 1;
    var k := 1;
    if n >= 1 { FeasibleTrivial(n); }
    while Pow(k, k) <= n
      invariant 1 <= maxK <= k
      invariant n < 1 ==> maxK == 1
      invariant n >= 1 ==> Feasible(n, maxK, maxK)
      invariant forall j :: maxK < j < k ==> !Feasible(n, j, j)
      decreases n - k
    {
      PowAtLeastBase(k, k);
      PowPositive(k, k);
      var ok := CanPartitionWithKFactors(n, k);
      if ok {
        maxK := k;
      }
      k := k + 1;
    }
    NoneFromPowBound(n, k);
    return maxK;
  }
}

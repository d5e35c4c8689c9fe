// multiplicative_optimal_partitions/optimal_partitions_chunked_fixed.c: the
// heuristic engine. find_partition_k tries k = 1 directly, k = 2 by trial
// division, k = 3 by a bounded double loop and k >= 4 by a greedy rule;
// calculate_P_pi_optimized stops at the first k in 2..4 that fails. Every
// answer is backed by a witness (soundness), the result is at most 4 and
// at most the true partition number, but it is not always equal to it.
module ChunkedFixed {
  import opened Partitions
  import opened DivisorSearch
  import opened Classification
  import opened ChunkCommon

  /** MAX_FACTORS of this engine. */
  const MaxFactors := 16

  /** 46340 * 46340: below this bound the k = 2 loop ends before d * d
      leaves the int range (46341 * 46341 > INT_MAX). */
  const SquareSafe := 2147395600

  /** sizeof(fact_str) in process_chunk. */
  const FactStrSize := 64

  // ---------------------------------------------------------------------
  // fast_pow_small.

  /** fast_pow_small(base, exp): exp 0, 1, 2, 3 directly, otherwise square
      and multiply; exp < 0 skips the loop and gives 1. Every product that
      reaches result fits in an int when base^exp does. */
  method FastPowSmall(base: int, exp: int) returns (r: int)
    requires exp <= 0 || (base >= 1 && Pow(base, exp) <= IntMax)
    ensures r == if exp <= 0 then 1 else Pow(base, exp)
  {
    if exp == 0 {
      return 1;
    }
    if exp == 1 {
      return base;
    }
    if exp == 2 {
      PowTwo(base);
      return base * base;
    }
    if exp == 3 {
      assert Pow(base, 1) == base;
      assert Pow(base, 3) == base * (base * base);
      return base * base * base;
    }
    if exp < 0 {
      return 1;
    }
    r := SmallSquareAndMultiply(base, exp);
  }

  /** The loop of fast_pow_small: result collects base^exp; base is squared
      on every pass, also on the last one, whose square is never used. */
  method SmallSquareAndMultiply(base: int, exp: int) returns (r: int)
    requires base >= 1 && exp >= 0 && Pow(base, exp) <= IntMax
    ensures r == Pow(base, exp)
  {
    ghost var p := Pow(base, exp);
    var result := 1;
    var b := base;
    var e := exp;
    while e > 0
      invariant e >= 0 && result >= 1 && b >= 1
      invariant result * Pow(b, e) == p
      decreases e
    {
      BinaryPowStep(result, b, e, p);
      if e % 2 == 1 {
        assert result * b <= IntMax;
        result := result * b;
      }
      b := b * b;
      e := e / 2;
    }
    r := result;
  }

  /** k^k fits in an int for every k up to 9: 9^9 = 387420489. */
  lemma SelfPowerFits(k: int)
    requires 1 <= k <= 9
    ensures Pow(k, k) <= Pow(9, 9) == 387420489 <= IntMax
  {
    PowSelfMono(k, 9);
  }

  // ---------------------------------------------------------------------
  // The k = 3 case.

  /** The k = 3 loops accept (d1, d2): 3 <= d1 <= 100 with d1^3 <= n
      dividing n, and d1 <= d2 <= 1000 with d2^2 <= n / d1 dividing
      n / d1 with a cofactor of at least 3. */
  predicate ThreeSplitAt(n: int, d1: int, d2: int)
  {
    3 <= d1 <= 100 && d1 * d1 * d1 <= n && n % d1 == 0 &&
    d1 <= d2 <= 1000 && d2 * d2 <= n / d1 && (n / d1) % d2 == 0 && (n / d1) / d2 >= 3
  }

  /** Some pair in the search space of the k = 3 loops is accepted. */
  ghost predicate ThreeSplitWithin(n: int)
  {
    exists d1, d2 :: ThreeSplitAt(n, d1, d2)
  }

  /** An accepted pair gives an ordered witness d1 <= d2 <= d3. */
  lemma ThreeSplitSound(n: int, d1: int, d2: int)
    requires ThreeSplitAt(n, d1, d2)
    ensures var d3 := (n / d1) / d2;
      IsWitness([d1, d2, d3], n, 3, 3) && d1 <= d2 <= d3
  {
    var rem := n / d1;
    var d3 := rem / d2;
    DivExact(n, d1);
    DivExact(rem, d2);
    MulLeDiv(d2, d2, rem);
    ProductCons(d2, [d3]);
    ProductCons(d1, [d2, d3]);
  }

  /** Once x * x exceeds r, every larger y does too. */
  lemma SquareExhausted(r: int, x: int, y: int)
    requires 0 <= x <= y && x * x > r
    ensures y * y > r
  {
    MulMono(x, y, x, y);
  }

  /** Once x^3 exceeds r, every larger y does too. */
  lemma CubeExhausted(r: int, x: int, y: int)
    requires 0 <= x <= y && x * x * x > r
    ensures y * y * y > r
  {
    MulMono(x, y, x, y);
    MulMono(x * x, y * y, x, y);
  }

  /** The nested loops of the k = 3 case: the first accepted pair (d1, d2)
      in the order the loops visit them, and d3 = (n / d1) / d2. */
  method TripleScan(n: int) returns (found: bool, d1: int, d2: int, d3: int)
    ensures found <==> ThreeSplitWithin(n)
    ensures found ==> ThreeSplitAt(n, d1, d2) && d3 == (n / d1) / d2
    ensures found ==> forall a, b :: 3 <= a < d1 ==> !ThreeSplitAt(n, a, b)
    ensures found ==> forall b :: d1 <= b < d2 ==> !ThreeSplitAt(n, d1, b)
  {
    d1 := 3;
    while d1 * d1 * d1 <= n && d1 <= 100
      invariant 3 <= d1 <= 101
      invariant forall a, b :: 3 <= a < d1 ==> !ThreeSplitAt(n, a, b)
      decreases 101 - d1
    {
      if n % d1 == 0 {
        var found2;
        found2, d2, d3 := SecondFactorScan(n, d1);
        if found2 {
          return true, d1, d2, d3;
        }
      }
      d1 := d1 + 1;
    }
    forall a, b | d1 <= a ensures !ThreeSplitAt(n, a, b) {
      if d1 <= 100 && a <= 100 {
        CubeExhausted(n, d1, a);
      }
    }
    return false, 0, 0, 0;
  }

  /** The inner loop of the k = 3 case for one d1 dividing n: the first
      accepted d2, and d3 = (n / d1) / d2. */
  method SecondFactorScan(n: int, d1: int) returns (found: bool, d2: int, d3: int)
    requires 3 <= d1 <= 100 && d1 * d1 * d1 <= n && n % d1 == 0
    ensures found <==> exists b :: ThreeSplitAt(n, d1, b)
    ensures found ==> ThreeSplitAt(n, d1, d2) && d3 == (n / d1) / d2
    ensures found ==> forall b :: d1 <= b < d2 ==> !ThreeSplitAt(n, d1, b)
  {
    var remaining := n / d1;
    d2 := d1;
    while d2 * d2 <= remaining && d2 <= 1000
      invariant d1 <= d2 <= 1001
      invariant forall b :: d1 <= b < d2 ==> !ThreeSplitAt(n, d1, b)
      decreases 1001 - d2
    {
      if remaining % d2 == 0 {
        d3 := remaining / d2;
        if d3 >= 3 {
          assert ThreeSplitAt(n, d1, d2);
          return true, d2, d3;
        }
      }
      d2 := d2 + 1;
    }
    forall b | d2 <= b ensures !ThreeSplitAt(n, d1, b) {
      if d2 <= 1000 && b <= 1000 {
        SquareExhausted(remaining, d2, b);
      }
    }
    return false, 0, 0;
  }

  /** The stores of a found k = 3 split. */
  method StoreTriple(result: Factorization, d1: int, d2: int, d3: int)
    requires result.factors.Length >= 3
    modifies result, result.factors
    ensures result.factors[..3] == [d1, d2, d3] && result.count == 3
    ensures result.factors[3..] == old(result.factors[3..])
  {
    result.factors[0] := d1;
    result.factors[1] := d2;
    result.factors[2] := d3;
    result.count := 3;
  }

  // ---------------------------------------------------------------------
  // The greedy rule for k >= 4.

  /** The inner while loop of the greedy rule: the first factor >= f that
      divides r, or the first value above r when none does. */
  function NextFactor(r: int, f: int): (d: int)
    requires f >= 1
    ensures d >= f && (d <= r ==> r % d == 0)
    ensures d > r ==> d == (if f > r then f else r + 1)
    ensures forall x :: f <= x < d ==> r % x != 0
    decreases r - f
  {
    if f <= r && r % f != 0 then NextFactor(r, f + 1) else f
  }

  /** The outcome of the greedy rule: it gets stuck, or builds factors. */
  datatype Greedy = Stuck | Built(factors: seq<int>)

  /** p followed by the factors that g builds. */
  function Prefixed(p: seq<int>, g: Greedy): (h: Greedy)
    ensures h.Built? <==> g.Built?
    ensures h.Built? ==> h.factors == p + g.factors
  {
    match g
    case Stuck => Stuck
    case Built(fs) => Built(p + fs)
  }

  /** The greedy rule on r with `steps` factors still to take: each step
      takes the smallest factor >= k dividing what remains, and the last
      factor is what remains, which must be at least k. */
  function GreedySplit(r: int, k: int, steps: nat): (g: Greedy)
    requires k >= 1
    ensures g.Built? ==> |g.factors| == steps + 1
    decreases steps
  {
    if steps == 0 then
      if r >= k then Built([r]) else Stuck
    else
      var f := NextFactor(r, k);
      if f > r then Stuck else Prefixed([f], GreedySplit(r / f, k, steps - 1))
  }

  /** The greedy rule is sound: what it builds is a witness. */
  lemma {:induction false} GreedySound(r: int, k: int, steps: nat)
    requires k >= 1 && GreedySplit(r, k, steps).Built?
    ensures IsWitness(GreedySplit(r, k, steps).factors, r, steps + 1, k)
    decreases steps
  {
    if steps > 0 {
      var f := NextFactor(r, k);
      var g := GreedySplit(r / f, k, steps - 1);
      assert GreedySplit(r, k, steps) == Prefixed([f], g);
      GreedySound(r / f, k, steps - 1);
      ProductCons(f, g.factors);
      DivExact(r, f);
    }
  }

  lemma PrefixedStep(p: seq<int>, f: int, g: Greedy)
    ensures Prefixed(p, Prefixed([f], g)) == Prefixed(p + [f], g)
  {
    if g.Built? {
      assert p + ([f] + g.factors) == (p + [f]) + g.factors;
    }
  }

  /** The greedy loop of find_partition_k for k >= 4 on a temporary array
      of MAX_FACTORS entries, which is copied into result only when the
      last factor is at least k. */
  method GreedyScan(n: int, k: int) returns (found: bool, fs: seq<int>)
    requires 4 <= k <= MaxFactors
    ensures found <==> GreedySplit(n, k, k - 1).Built?
    ensures found ==> fs == GreedySplit(n, k, k - 1).factors
  {
    var temp := new int[MaxFactors];
    var remaining := n;
    var i := 0;
    while i < k - 1
      invariant 0 <= i <= k - 1
      invariant GreedySplit(n, k, k - 1) == Prefixed(temp[..i], GreedySplit(remaining, k, k - 1 - i))
    {
      var factor := k;
      while factor <= remaining && remaining % factor != 0
        invariant k <= factor && NextFactor(remaining, factor) == NextFactor(remaining, k)
        decreases remaining - factor
      {
        factor := factor + 1;
      }
      if factor > remaining {
        return false, [];
      }
      PrefixedStep(temp[..i], factor, GreedySplit(remaining / factor, k, k - 2 - i));
      temp[i] := factor;
      assert temp[..i + 1] == temp[..i] + [factor];
      remaining := remaining / factor;
      i := i + 1;
    }
    if remaining >= k {
      temp[k - 1] := remaining;
      assert temp[..k] == temp[..k - 1] + [remaining];
      return true, temp[..k];
    }
    return false, [];
  }

  /** The copy of the greedy factors into result. */
  method StoreFactors(result: Factorization, fs: seq<int>)
    requires |fs| <= result.factors.Length
    modifies result, result.factors
    ensures result.factors[..|fs|] == fs && result.count == |fs|
    ensures result.factors[|fs|..] == old(result.factors[|fs|..])
  {
    var i := 0;
    while i < |fs|
      invariant 0 <= i <= |fs|
      invariant forall j :: 0 <= j < i ==> result.factors[j] == fs[j]
      invariant forall j :: i <= j < result.factors.Length ==> result.factors[j] == old(result.factors[j])
    {
      result.factors[i] := fs[i];
      i := i + 1;
    }
    result.count := |fs|;
  }

  // ---------------------------------------------------------------------
  // find_partition_k and calculate_P_pi_optimized.

  /** Exactly when find_partition_k(n, k) succeeds. */
  ghost predicate FixedFinds(n: int, k: int)
  {
    if k == 1 then n >= 1
    else if k < 1 || k > 12 || Pow(k, k) > n then false
    else if k == 2 then Feasible(n, 2, 2)
    else if k == 3 then ThreeSplitWithin(n)
    else GreedySplit(n, k, k - 1).Built?
  }

  /** The search is sound: every success is backed by a partition. */
  lemma FixedFindsSound(n: int, k: int)
    requires FixedFinds(n, k)
    ensures Feasible(n, k, k)
  {
    if k == 1 {
      FeasibleTrivial(n);
    } else if k == 3 {
      var d1, d2 :| ThreeSplitAt(n, d1, d2);
      ThreeSplitSound(n, d1, d2);
    } else if k >= 4 {
      GreedySound(n, k, k - 1);
    }
  }

  /** The k = 2 search is exact, so a failure there rules out every k >= 2
      and the partition number is 1. */
  lemma FixedTwoExact(n: int)
    requires n >= 1 && !FixedFinds(n, 2)
    ensures IsPartitionNumber(n, 1)
  {
    PowTwo(2);
    if Pow(2, 2) > n {
      NoneFromPowBound(n, 2);
    }
    PartitionNumberOne(n);
  }

  /** find_partition_k(n, k, result): count is reset to 0 and set to k only
      on success, when factors[0..k) hold a witness; a failure leaves the
      factors alone. */
  method FindPartitionK(n: int, k: int, result: Factorization) returns (ok: bool)
    requires result.factors.Length == MaxFactors
    requires k <= 9 || k > 12
    requires k == 2 ==> n < SquareSafe
    modifies result, result.factors
    ensures ok == FixedFinds(n, k)
    ensures result.count == (if ok then k else 0)
    ensures ok ==> 1 <= k <= 9 && IsWitness(result.factors[..k], n, k, k)
    ensures ok ==> result.factors[k..] == old(result.factors[k..])
    ensures !ok ==> result.factors[..] == old(result.factors[..])
    ensures ok && k == 2 ==> result.factors[0] <= result.factors[1]
    ensures ok && k == 3 ==>
      result.factors[0] <= result.factors[1] <= result.factors[2] &&
      ThreeSplitAt(n, result.factors[0], result.factors[1])
    ensures ok && k >= 4 ==> result.factors[..k] == GreedySplit(n, k, k - 1).factors
  {
    result.count := 0;
    if k == 1 {
      if n >= 1 {
        result.factors[0] := n;
        result.count := 1;
        assert result.factors[..1] == [n];
        return true;
      }
      return false;
    }
    var kToK := 1;
    if k <= 12 {
      if k >= 1 {
        SelfPowerFits(k);
      }
      kToK := FastPowSmall(k, k);
    }
    if k > 12 || kToK > n {
      return false;
    }
    if k == 2 {
      PowTwo(2);
      ok := TwoFactorScan(n, result);
      return;
    }
    if k == 3 {
      var d1, d2, d3;
      ok, d1, d2, d3 := TripleScan(n);
      if ok {
        ThreeSplitSound(n, d1, d2);
        StoreTriple(result, d1, d2, d3);
      }
      return;
    }
    if k >= 4 {
      var fs;
      ok, fs := GreedyScan(n, k);
      if ok {
        GreedySound(n, k, k - 1);
        StoreFactors(result, fs);
      }
      return;
    }
    return false;
  }

  /** calculate_P_pi_optimized(n): 1 for n <= 3; otherwise the last k in
      2, 3, 4 before the first failure of find_partition_k. */
  method CalculatePPiOptimized(n: int) returns (maxK: int)
    requires n < SquareSafe
    ensures 1 <= maxK <= 4
    ensures n <= 3 ==> maxK == 1
    ensures n > 3 ==> forall j :: 2 <= j <= maxK ==> FixedFinds(n, j)
    ensures n > 3 && maxK < 4 ==> !FixedFinds(n, maxK + 1)
  {
    if n == 1 {
      return 1;
    }
    if n <= 3 {
      return 1;
    }
    var temp := new Factorization(MaxFactors);
    maxK := 1;
    var k := 2;
    while k <= 4
      invariant 2 <= k <= 5 && maxK == k - 1
      invariant forall j :: 2 <= j <= maxK ==> FixedFinds(n, j)
      decreases 5 - k
    {
      var ok := FindPartitionK(n, k, temp);
      if ok {
        maxK := k;
      } else {
        break;
      }
      k := k + 1;
    }
  }

  /** What calculate_P_pi_optimized promises about P(n): its answer p is
      realised by a partition, is at most the partition number, and is
      the partition number whenever it is 1. */
  lemma OptimizedMeaning(n: int, p: int)
    requires 1 <= n && 1 <= p <= 4
    requires forall j :: 2 <= j <= p ==> FixedFinds(n, j)
    requires n > 3 && p < 4 ==> !FixedFinds(n, p + 1)
    ensures Feasible(n, p, p)
    ensures forall q :: IsPartitionNumber(n, q) ==> p <= q
    ensures p == 1 ==> IsPartitionNumber(n, 1)
  {
    if p == 1 {
      FeasibleTrivial(n);
      if n > 3 {
        FixedTwoExact(n);
      } else {
        assert Pow(2, 2) == 4;
        NoneFromPowBound(n, 2);
      }
    } else {
      FixedFindsSound(n, p);
    }
  }

  /** The cap of 4 is real: 5^5 = 3125 is a product of five 5s, so its
      partition number is at least 5, yet the answer is at most 4. */
  lemma CapBelowPartitionNumber()
    ensures Feasible(3125, 5, 5)
  {
    assert IsWitness([5, 5, 5, 5, 5], 3125, 5, 5);
  }

  /** No divisor of n lies in [lo, hi]. */
  predicate NoDivisorIn(n: int, lo: int, hi: int)
    requires lo >= 1
    decreases hi - lo
  {
    lo > hi || (n % lo != 0 && NoDivisorIn(n, lo + 1, hi))
  }

  lemma {:induction false} NoDivisorInMeans(n: int, lo: int, hi: int, d: int)
    requires lo >= 1 && NoDivisorIn(n, lo, hi) && lo <= d <= hi
    ensures n % d != 0
    decreases hi - lo
  {
    if lo < d {
      NoDivisorInMeans(n, lo + 1, hi, d);
    }
  }

  /** No d in 3..100 divides n, given ten ranges of ten values each. */
  lemma NoDivisorInTens(n: int)
    requires NoDivisorIn(n, 3, 10) && NoDivisorIn(n, 11, 20) && NoDivisorIn(n, 21, 30)
    requires NoDivisorIn(n, 31, 40) && NoDivisorIn(n, 41, 50) && NoDivisorIn(n, 51, 60)
    requires NoDivisorIn(n, 61, 70) && NoDivisorIn(n, 71, 80) && NoDivisorIn(n, 81, 90)
    requires NoDivisorIn(n, 91, 100)
    ensures forall d :: 3 <= d <= 100 ==> n % d != 0
  {
    forall d | 3 <= d <= 100 ensures n % d != 0 {
      if d <= 10 {
        NoDivisorInMeans(n, 3, 10, d);
      } else if d <= 20 {
        NoDivisorInMeans(n, 11, 20, d);
      } else if d <= 30 {
        NoDivisorInMeans(n, 21, 30, d);
      } else if d <= 40 {
        NoDivisorInMeans(n, 31, 40, d);
      } else if d <= 50 {
        NoDivisorInMeans(n, 41, 50, d);
      } else if d <= 60 {
        NoDivisorInMeans(n, 51, 60, d);
      } else if d <= 70 {
        NoDivisorInMeans(n, 61, 70, d);
      } else if d <= 80 {
        NoDivisorInMeans(n, 71, 80, d);
      } else if d <= 90 {
        NoDivisorInMeans(n, 81, 90, d);
      } else {
        NoDivisorInMeans(n, 91, 100, d);
      }
    }
  }

  /** No d in 3..100 divides 101^2 = 10201. */
  lemma NoSmallDivisorOfSquare()
    ensures forall d :: 3 <= d <= 100 ==> 10201 % d != 0
  {
    assert NoDivisorIn(10201, 3, 10);
    assert NoDivisorIn(10201, 11, 20);
    assert NoDivisorIn(10201, 21, 30);
    assert NoDivisorIn(10201, 31, 40);
    assert NoDivisorIn(10201, 41, 50);
    assert NoDivisorIn(10201, 51, 60);
    assert NoDivisorIn(10201, 61, 70);
    assert NoDivisorIn(10201, 71, 80);
    assert NoDivisorIn(10201, 81, 90);
    assert NoDivisorIn(10201, 91, 100);
    NoDivisorInTens(10201);
  }

  /** No d in 3..100 divides 101^3 = 1030301. */
  lemma NoSmallDivisorOfCube()
    ensures forall d :: 3 <= d <= 100 ==> 1030301 % d != 0
  {
    assert NoDivisorIn(1030301, 3, 10);
    assert NoDivisorIn(1030301, 11, 20);
    assert NoDivisorIn(1030301, 21, 30);
    assert NoDivisorIn(1030301, 31, 40);
    assert NoDivisorIn(1030301, 41, 50);
    assert NoDivisorIn(1030301, 51, 60);
    assert NoDivisorIn(1030301, 61, 70);
    assert NoDivisorIn(1030301, 71, 80);
    assert NoDivisorIn(1030301, 81, 90);
    assert NoDivisorIn(1030301, 91, 100);
    NoDivisorInTens(1030301);
  }

  /** No d in 3..100 divides 101^4 = 104060401. */
  lemma NoSmallDivisorOfFourth()
    ensures forall d :: 3 <= d <= 100 ==> 104060401 % d != 0
  {
    assert NoDivisorIn(104060401, 3, 10);
    assert NoDivisorIn(104060401, 11, 20);
    assert NoDivisorIn(104060401, 21, 30);
    assert NoDivisorIn(104060401, 31, 40);
    assert NoDivisorIn(104060401, 41, 50);
    assert NoDivisorIn(104060401, 51, 60);
    assert NoDivisorIn(104060401, 61, 70);
    assert NoDivisorIn(104060401, 71, 80);
    assert NoDivisorIn(104060401, 81, 90);
    assert NoDivisorIn(104060401, 91, 100);
    NoDivisorInTens(104060401);
  }

  /** The k = 3 search is incomplete: 101^3 = 1030301 is a product of three
      101s, but no d1 in 3..100 divides it, so find_partition_k(1030301, 3)
      fails and calculate_P_pi_optimized stops at 2. */
  lemma ThreeSearchMisses()
    ensures Feasible(1030301, 3, 3) && !FixedFinds(1030301, 3)
    ensures FixedFinds(1030301, 2)
  {
    assert IsWitness([101, 101, 101], 1030301, 3, 3);
    NoSmallDivisorOfCube();
    assert !ThreeSplitWithin(1030301);
    assert IsWitness([101, 10201], 1030301, 2, 2);
    assert Pow(2, 2) == 4;
  }

  /** The smallest factor >= 4 of a multiple of 101 with no divisor in
      3..100 is 101. */
  lemma NextFactorIs101(r: int)
    requires r >= 101 && r % 101 == 0
    requires forall d :: 3 <= d <= 100 ==> r % d != 0
    ensures NextFactor(r, 4) == 101
  {
  }

  /** calculate_P_pi_optimized scans k upward and stops at the first
      failure, so the k = 3 miss hides a greedy k = 4 success: on
      n = 101^4 = 104060401 it answers 2, whereas find_partition_k succeeds
      at k = 4 and the partition number is at least 4. */
  lemma UpwardScanStopsEarly(p: int)
    requires 1 <= p <= 4
    requires forall j :: 2 <= j <= p ==> FixedFinds(104060401, j)
    requires p < 4 ==> !FixedFinds(104060401, p + 1)
    ensures p == 2
    ensures FixedFinds(104060401, 4) && Feasible(104060401, 4, 4)
  {
    var n := 104060401;
    NoSmallDivisorOfFourth();
    assert !ThreeSplitWithin(n);
    assert Pow(3, 3) == 27;
    assert !FixedFinds(n, 3);
    assert IsWitness([101, 1030301], n, 2, 2);
    assert Pow(2, 2) == 4;
    assert FixedFinds(n, 2);
    NoSmallDivisorOfCube();
    NoSmallDivisorOfSquare();
    NextFactorIs101(n);
    NextFactorIs101(1030301);
    NextFactorIs101(10201);
    assert GreedySplit(101, 4, 0) == Built([101]);
    assert GreedySplit(10201, 4, 1) == Built([101, 101]);
    assert GreedySplit(1030301, 4, 2) == Built([101, 101, 101]);
    assert GreedySplit(n, 4, 3) == Built([101, 101, 101, 101]);
    assert Pow(4, 4) == 256;
    assert FixedFinds(n, 4);
    FixedFindsSound(n, 4);
  }

  // ---------------------------------------------------------------------
  // The fill loop of process_chunk.

  /** The fill loop of process_chunk for this engine: P(n) by
      calculate_P_pi_optimized and the factorization by find_partition_k
      with that k, then P(end_n + 1) for the boundary. */
  method FillChunk(startN: int, endN: int) returns (pValues: array<int>, facts: seq<seq<int>>)
    requires 1 <= startN <= endN && endN + 1 < SquareSafe
    ensures fresh(pValues) && pValues.Length == endN - startN + 2 && |facts| == endN - startN + 1
    ensures forall i :: 0 <= i < pValues.Length ==> IsResult(startN + i, pValues[i])
    ensures forall i :: 0 <= i < |facts| ==> IsWitness(facts[i], startN + i, pValues[i], pValues[i])
  {
    var chunkSize := endN - startN + 1;
    pValues := new int[chunkSize + 1];
    facts := [];
    var i := 0;
    while i < chunkSize
      invariant 0 <= i <= chunkSize && |facts| == i
      invariant forall j :: 0 <= j < i ==> IsResult(startN + j, pValues[j])
      invariant forall j :: 0 <= j < i ==> IsWitness(facts[j], startN + j, pValues[j], pValues[j])
    {
      var p, fs := FillOne(startN + i);
      pValues[i] := p;
      facts := facts + [fs];
      i := i + 1;
    }
    var last := CalculatePPiOptimized(endN + 1);
    pValues[chunkSize] := last;
  }

  /** One pass of the fill loop: P(n) and the factorization that
      find_partition_k(n, P(n)) stores, which always succeeds. */
  method FillOne(n: int) returns (p: int, fs: seq<int>)
    requires 1 <= n < SquareSafe
    ensures IsResult(n, p) && IsWitness(fs, n, p, p)
  {
    p := CalculatePPiOptimized(n);
    var fact := new Factorization(MaxFactors);
    var ok := FindPartitionK(n, p, fact);
    assert ok;
    fs := fact.factors[..fact.count];
  }

  /** p is what calculate_P_pi_optimized answers for n. */
  ghost predicate IsResult(n: int, p: int)
  {
    1 <= p <= 4 && (n <= 3 ==> p == 1) &&
    (n > 3 ==> forall j :: 2 <= j <= p ==> FixedFinds(n, j)) &&
    (n > 3 && p < 4 ==> !FixedFinds(n, p + 1))
  }

  /** process_chunk of this engine without its file output: the P values
      of the chunk and its boundary, the rows of the classification block
      and the factorization texts in the 64-byte fact_str. */
  method ProcessChunk(startN: int, endN: int, isFirst: bool, prevP: int, counters: Counters)
    returns (ps: seq<int>, rows: seq<Row>, texts: seq<string>, lastP: int)
    requires 1 <= startN <= endN && endN + 1 < SquareSafe
    modifies counters
    ensures |ps| == endN - startN + 2 && |texts| == |rows| == endN - startN + 1
    ensures forall i :: 0 <= i < |ps| ==> IsResult(startN + i, ps[i])
    ensures forall i :: 0 <= i < |texts| ==> ShowsPartition(texts[i], startN + i, ps[i])
    ensures RowsFit(rows, ps, ChunkTrends(ps, isFirst, prevP), startN, isFirst, prevP,
                    old(counters.decrease), old(counters.equality), old(counters.increase))
    ensures var ts := ChunkTrends(ps, isFirst, prevP);
      counters.decrease == old(counters.decrease) + Occurrences(ts, Decrease) &&
      counters.equality == old(counters.equality) + Occurrences(ts, Equality) &&
      counters.increase == old(counters.increase) + Occurrences(ts, Increase)
    ensures lastP == ps[|ps| - 2]
  {
    var pValues, facts := FillChunk(startN, endN);
    ps := pValues[..];
    texts := ChunkTexts(startN, ps, facts);
    rows, lastP := ClassifyChunk(pValues, startN, isFirst, prevP, counters);
  }

  /** The second loop of process_chunk: each factorization rendered into
      the 64-byte fact_str; four factors of at most 10 digits always fit. */
  method ChunkTexts(startN: int, ps: seq<int>, facts: seq<seq<int>>) returns (texts: seq<string>)
    requires 1 <= startN && startN + |facts| - 1 <= IntMax && |facts| <= |ps|
    requires forall i :: 0 <= i < |facts| ==> 1 <= ps[i] <= 4
    requires forall i :: 0 <= i < |facts| ==> IsWitness(facts[i], startN + i, ps[i], ps[i])
    ensures |texts| == |facts|
    ensures forall i :: 0 <= i < |texts| ==> ShowsPartition(texts[i], startN + i, ps[i])
  {
    texts := seq(|facts|, j requires 0 <= j < |facts| => Compact(facts[j], FactStrSize));
    forall j | 0 <= j < |texts|
      ensures ShowsPartition(texts[j], startN + j, ps[j])
    {
      CompactShowsPartition(facts[j], startN + j, ps[j], FactStrSize);
    }
  }
}

// multiplicative_optimal_partitions/optimal_partitions_exact_chunked.c: the
// exact C engine. A saturating power, the recursive check that records its
// witness in the fixed factors[MAX_FACTORS] array, the k = 2 fast path, the
// maximum-k loop and the per-chunk fill of P values and factorizations.
module ExactChunked {
  import opened Partitions
  import opened DivisorSearch
  import opened ChunkCommon
  import opened Classification

  /** MAX_FACTORS: the capacity of Factorization.factors. */
  const MaxFactors := 20
  /** The practical limit on candidate factors. */
  const CandidateCap := 1000000
  /** The safety limit of the maximum-k loop. */
  const SafetyLimit := 50
  /** Below this bound the search is exact: the candidate cap never bites. */
  const ExactBound := 1000000000000

  // ---------------------------------------------------------------------
  // fast_pow_safe.

  /** The early overflow answers of fast_pow_safe, reached once exp >= 2
      and base != 1. */
  predicate EarlyCutOff(base: int, exp: int)
  {
    exp >= 2 && base != 1 &&
    ((base >= 100 && exp >= 4) || (base >= 1000 && exp >= 3) || (base >= 10000 && exp >= 2))
  }

  /** Comparing x with M / b decides whether x * b exceeds M. */
  lemma DivCompare(x: int, b: int, m: int)
    requires b >= 1 && x >= 0 && m >= 0
    ensures x > m / b <==> x * b > m
  {
    var q := m / b;
    assert m == q * b + m % b && 0 <= m % b < b;
    if x > q {
      MulMono(q + 1, x, b, b);
    } else {
      MulMono(x, q, b, b);
    }
  }

  /** The overflow test x > LLONG_MAX / b of fast_pow_safe. */
  function Overflows(x: int, b: int): (o: bool)
    requires b >= 1 && x >= 0
    ensures o <==> x * b > LLongMax
  {
    DivCompare(x, b, LLongMax);
    x > LLongMax / b
  }

  /** fast_pow_safe(base, exp): base^exp, or LLONG_MAX when it would not
      fit in a long long or when one of the early cut-offs applies. */
  method FastPowSafe(base: int, exp: int) returns (r: int)
    requires 1 <= base <= IntMax && exp >= 0
    ensures exp == 0 ==> r == 1
    ensures exp == 1 ==> r == base
    ensures base == 1 ==> r == 1
    ensures 1 <= r <= LLongMax
    ensures r != LLongMax ==> r == Pow(base, exp)
    ensures Pow(base, exp) >= LLongMax ==> r == LLongMax
    ensures EarlyCutOff(base, exp) ==> r == LLongMax
    ensures r == LLongMax ==> EarlyCutOff(base, exp) || Pow(base, exp) >= LLongMax
  {
    if exp == 0 {
      return 1;
    }
    if exp == 1 {
      return base;
    }
    if base == 1 {
      PowOfOne(exp);
      return 1;
    }
    if base >= 100 && exp >= 4 {
      return LLongMax;
    }
    if base >= 1000 && exp >= 3 {
      return LLongMax;
    }
    if base >= 10000 && exp >= 2 {
      return LLongMax;
    }
    r := SquareAndMultiply(base, exp);
  }

  /** The square-and-multiply loop of fast_pow_safe, with its two overflow
      checks. */
  method SquareAndMultiply(base: int, exp: int) returns (r: int)
    requires base >= 2 && exp >= 0
    ensures 1 <= r <= LLongMax
    ensures r != LLongMax ==> r == Pow(base, exp)
    ensures r == LLongMax ==> Pow(base, exp) >= LLongMax
  {
    ghost var p := Pow(base, exp);
    var result := 1;
    var b := base;
    var e := exp;
    while e > 0
      invariant e >= 0 && 1 <= result <= LLongMax && 2 <= b
      invariant result * Pow(b, e) == p
      decreases e
    {
      if e % 2 == 1 {
        OddStep(result, b, e, p);
        if Overflows(result, b) {
          return LLongMax;
        }
        result := result * b;
      }
      ghost var even := e - e % 2;
      assert result * Pow(b, even) == p;
      if e > 1 {
        SquareStep(result, b, even, p);
        if Overflows(b, b) {
          return LLongMax;
        }
        b := b * b;
        MulPositive(b, 1);
      }
      e := e / 2;
    }
    r := result;
  }

  /** The cut-offs are not exact: 100^4 = 10^8 fits, yet fast_pow_safe
      answers LLONG_MAX; and 10^8 is a product of 4 factors each >= 100,
      so a check started with min_factor = 100 would miss it. */
  lemma CutOffTooEarly()
    ensures EarlyCutOff(100, 4) && Pow(100, 4) == 100000000 < LLongMax
    ensures Feasible(100000000, 4, 100)
  {
    assert IsWitness([100, 100, 100, 100], 100000000, 4, 100);
  }

  // ---------------------------------------------------------------------
  // recursive_partition_check and can_partition_with_k_factors.

  /** Inputs on which the C search is exact: below 10^12 the candidate cap
      of 10^6 never cuts off a usable factor, and with min_factor < 100 the
      early cut-offs of fast_pow_safe never apply. */
  predicate ExactRange(remaining: int, minFactor: int)
  {
    remaining < ExactBound && minFactor < 100
  }

  /** a agrees with before outside [lo, hi). */
  predicate Untouched(a: seq<int>, before: seq<int>, lo: int, hi: int)
  {
    |a| == |before| && forall j :: 0 <= j < |a| && !(lo <= j < hi) ==> a[j] == before[j]
  }

  lemma SquareBound(a: int, c: int, r: int)
    requires 0 <= a && 0 <= c && a * a <= r && r < (c + 1) * (c + 1)
    ensures a <= c
  {
    if a > c {
      MulMono(c + 1, a, c + 1, a);
    }
  }

  /** In the exact range the smallest factor of a solution is a candidate
      the loop tries: it lies in [min_factor, max_factor] and under the cap. */
  lemma CappedCandidate(r: int, f: int, m: int) returns (a: int)
    requires f >= 2 && m >= 1 && 0 <= r < ExactBound && Feasible(r, f, m)
    ensures m <= a <= CappedMaxFactor(r, f, m)
    ensures r % a == 0 && Feasible(r / a, f - 1, m)
  {
    FeasiblePrune(r, f, m);
    a := FeasibleMinFactor(r, f, m);
    PowPositive(m, f - 1);
    MulLeDiv(a, Pow(m, f - 1), r);
    var s := IRoot(r, f);
    if a > s + 1 {
      PowMonoBase(s + 1, a, f);
    }
    PowMonoExp(a, 2, f);
    PowTwo(a);
    SquareBound(a, CandidateCap, r);
  }

  /** A factor at position depth followed by a witness of the quotient is a
      witness of the whole. */
  lemma WitnessCons(a: seq<int>, depth: int, f: int, factor: int, r: int, m: int)
    requires 0 <= depth && f >= 1 && depth + f <= |a| && a[depth] == factor
    requires factor >= m && factor >= 1 && r % factor == 0
    requires IsWitness(a[depth + 1..depth + f], r / factor, f - 1, m)
    ensures IsWitness(a[depth..depth + f], r, f, m)
  {
    assert a[depth..depth + f] == [factor] + a[depth + 1..depth + f];
    ProductCons(factor, a[depth + 1..depth + f]);
    DivExact(r, factor);
  }

  /** The power test comes out the same whichever form it takes: the
      answer of fast_pow_safe saturates or exceeds remaining exactly when
      the early cut-off applies or the true power exceeds remaining (for
      remaining below LLONG_MAX). */
  lemma PowTest(m: int, f: int, remaining: int, kToK: int)
    requires 1 <= m && f >= 0 && 0 <= remaining < LLongMax
    requires kToK != LLongMax ==> kToK == Pow(m, f)
    requires Pow(m, f) >= LLongMax ==> kToK == LLongMax
    requires EarlyCutOff(m, f) ==> kToK == LLongMax
    requires kToK == LLongMax ==> EarlyCutOff(m, f) || Pow(m, f) >= LLongMax
    ensures (kToK >= LLongMax || kToK > remaining) <==> (EarlyCutOff(m, f) || Pow(m, f) > remaining)
  {
  }

  /** max_factor after both caps: at most remaining and at most 10^6. */
  function CappedMaxFactor(r: int, f: int, m: int): (x: int)
    requires r >= 0 && f >= 1 && m >= 1
    ensures x <= MaxFactor(r, f, m) && x <= r && x <= CandidateCap
    ensures x == MaxFactor(r, f, m) || x == r || x == CandidateCap
  {
    var x := MaxFactor(r, f, m);
    var y := if x > r then r else x;
    if y > CandidateCap then CandidateCap else y
  }

  /** The power prune and the candidate bound of recursive_partition_check
      for factors_left >= 2: proceed is false where the C code returns
      false before its loop. */
  method CandidateLimit(remaining: int, factorsLeft: int, minFactor: int)
    returns (proceed: bool, maxFactor: int)
    requires 0 <= remaining < LLongMax && factorsLeft >= 2 && 1 <= minFactor <= IntMax
    ensures proceed ==> maxFactor == CappedMaxFactor(remaining, factorsLeft, minFactor)
    ensures EarlyCutOff(minFactor, factorsLeft) || Pow(minFactor, factorsLeft) > remaining ==> !proceed
    ensures !proceed ==>
      EarlyCutOff(minFactor, factorsLeft) || EarlyCutOff(minFactor, factorsLeft - 1) ||
      Pow(minFactor, factorsLeft) > remaining
  {
    var minProduct := FastPowSafe(minFactor, factorsLeft);
    PowTest(minFactor, factorsLeft, remaining, minProduct);
    if minProduct >= LLongMax || minProduct > remaining {
      return false, 0;
    }
    var denominator := FastPowSafe(minFactor, factorsLeft - 1);
    PowMonoExp(minFactor, factorsLeft - 1, factorsLeft);
    if denominator >= LLongMax || denominator == 0 {
      return false, 0;
    }
    var bound1 := remaining / denominator;
    var bound2 := IRoot(remaining, factorsLeft) + 1;
    maxFactor := if bound1 < bound2 then bound1 else bound2;
    assert maxFactor == MaxFactor(remaining, factorsLeft, minFactor);
    if maxFactor > remaining {
      maxFactor := remaining;
    }
    if maxFactor > CandidateCap {
      maxFactor := CandidateCap;
    }
    proceed := true;
  }

  /** recursive_partition_check(remaining, factors_left, min_factor,
      result, depth): is remaining a product of factors_left factors, each
      >= min_factor? On success result->factors[depth ..] holds them. */
  method RecursivePartitionCheck(remaining: int, factorsLeft: int, minFactor: int,
                                 result: Factorization?, depth: int)
    returns (ok: bool)
    requires 0 <= remaining < LLongMax && factorsLeft >= 0 && 1 <= minFactor <= IntMax && depth >= 0
    requires result != null ==> result.factors.Length == MaxFactors && remaining <= IntMax
    modifies if result != null then {result.factors} else {}
    ensures ok ==> Feasible(remaining, factorsLeft, minFactor)
    ensures ExactRange(remaining, minFactor) && Feasible(remaining, factorsLeft, minFactor) ==> ok
    ensures factorsLeft == 0 ==> (ok <==> remaining == 1)
    ensures factorsLeft == 1 ==> (ok <==> remaining >= minFactor)
    ensures factorsLeft >= 2 && (EarlyCutOff(minFactor, factorsLeft) || Pow(minFactor, factorsLeft) > remaining) ==> !ok
    ensures result != null ==> Untouched(result.factors[..], old(result.factors[..]), depth, depth + factorsLeft)
    ensures result != null && ok && depth + factorsLeft <= MaxFactors ==>
      IsWitness(result.factors[depth..depth + factorsLeft], remaining, factorsLeft, minFactor)
    decreases factorsLeft, 2
  {
    if factorsLeft == 0 {
      FeasibleZero(remaining, minFactor);
      if result != null && depth <= MaxFactors {
        assert result.factors[depth..depth] == [];
      }
      return remaining == 1;
    }
    if factorsLeft == 1 {
      FeasibleOne(remaining, minFactor);
      if remaining >= minFactor {
        if result != null && depth < MaxFactors {
          result.factors[depth] := remaining;
          assert result.factors[depth..depth + 1] == [remaining];
        }
        return true;
      }
      return false;
    }
    var proceed, maxFactor := CandidateLimit(remaining, factorsLeft, minFactor);
    if !proceed {
      if ExactRange(remaining, minFactor) && Feasible(remaining, factorsLeft, minFactor) {
        FeasiblePrune(remaining, factorsLeft, minFactor);
      }
      return false;
    }
    ok := TryCandidates(remaining, factorsLeft, minFactor, result, depth, maxFactor);
  }

  /** The candidate loop of recursive_partition_check: every factor in
      [min_factor, max_factor] that divides remaining is recorded at
      factors[depth] and the rest is searched from depth + 1. */
  method TryCandidates(remaining: int, factorsLeft: int, minFactor: int,
                       result: Factorization?, depth: int, maxFactor: int)
    returns (ok: bool)
    requires 0 <= remaining < LLongMax && factorsLeft >= 2 && 1 <= minFactor <= IntMax && depth >= 0
    requires result != null ==> result.factors.Length == MaxFactors && remaining <= IntMax
    requires maxFactor <= CandidateCap
    modifies if result != null then {result.factors} else {}
    ensures ok ==> Feasible(remaining, factorsLeft, minFactor)
    ensures maxFactor == CappedMaxFactor(remaining, factorsLeft, minFactor) ==>
      (ExactRange(remaining, minFactor) && Feasible(remaining, factorsLeft, minFactor) ==> ok)
    ensures result != null ==> Untouched(result.factors[..], old(result.factors[..]), depth, depth + factorsLeft)
    ensures result != null && ok && depth + factorsLeft <= MaxFactors ==>
      IsWitness(result.factors[depth..depth + factorsLeft], remaining, factorsLeft, minFactor)
    decreases factorsLeft, 1
  {
    var factor := minFactor;
    while factor <= maxFactor
      invariant minFactor <= factor
      invariant ExactRange(remaining, minFactor) ==>
        forall a :: minFactor <= a < factor && remaining % a == 0 ==> !Feasible(remaining / a, factorsLeft - 1, minFactor)
      invariant result != null ==> Untouched(result.factors[..], old(result.factors[..]), depth, depth + factorsLeft)
      decreases maxFactor - factor
    {
      if remaining % factor == 0 {
        var sub := TryFactor(remaining, factorsLeft, minFactor, result, depth, factor);
        if sub {
          return true;
        }
      }
      factor := factor + 1;
    }
    if ExactRange(remaining, minFactor) && Feasible(remaining, factorsLeft, minFactor) &&
       maxFactor == CappedMaxFactor(remaining, factorsLeft, minFactor) {
      var a := CappedCandidate(remaining, factorsLeft, minFactor);
    }
    return false;
  }

  /** Two stretches of untouched positions make one. */
  lemma UntouchedWiden(a: seq<int>, mid: seq<int>, before: seq<int>, lo: int, hi: int)
    requires lo < hi && Untouched(a, mid, lo + 1, hi) && Untouched(mid, before, lo, lo + 1)
    ensures Untouched(a, before, lo, hi)
  {
  }

  lemma QuotientAtMost(r: int, d: int)
    requires r >= 0 && d >= 1
    ensures 0 <= r / d <= r
  {
    MulMono(1, d, r / d, r / d);
  }

  /** One candidate of the loop: factor is recorded at factors[depth] and
      remaining / factor is searched with one factor fewer. */
  method TryFactor(remaining: int, factorsLeft: int, minFactor: int,
                   result: Factorization?, depth: int, factor: int)
    returns (ok: bool)
    requires 0 <= remaining < LLongMax && factorsLeft >= 2 && 1 <= minFactor <= factor && depth >= 0
    requires minFactor <= IntMax && remaining % factor == 0
    requires result != null ==> result.factors.Length == MaxFactors && remaining <= IntMax
    modifies if result != null then {result.factors} else {}
    ensures ok ==> Feasible(remaining, factorsLeft, minFactor)
    ensures ExactRange(remaining, minFactor) && !ok ==> !Feasible(remaining / factor, factorsLeft - 1, minFactor)
    ensures result != null ==> Untouched(result.factors[..], old(result.factors[..]), depth, depth + factorsLeft)
    ensures result != null && ok && depth + factorsLeft <= MaxFactors ==>
      IsWitness(result.factors[depth..depth + factorsLeft], remaining, factorsLeft, minFactor)
    decreases factorsLeft, 0
  {
    ghost var before := if result != null then result.factors[..] else [];
    if result != null && depth < MaxFactors {
      result.factors[depth] := factor;
    }
    ghost var mid := if result != null then result.factors[..] else [];
    assert Untouched(mid, before, depth, depth + 1);
    QuotientAtMost(remaining, factor);
    ok := RecursivePartitionCheck(remaining / factor, factorsLeft - 1, minFactor, result, depth + 1);
    if result != null {
      UntouchedWiden(result.factors[..], mid, before, depth, depth + factorsLeft);
    }
    if ok {
      FeasibleStep(remaining, factorsLeft, minFactor, factor);
      if result != null && depth + factorsLeft <= MaxFactors {
        assert result.factors[depth] == mid[depth] == factor;
        WitnessCons(result.factors[..], depth, factorsLeft, factor, remaining, minFactor);
        assert result.factors[..][depth..depth + factorsLeft] == result.factors[depth..depth + factorsLeft];
      }
    }
  }

  /** can_partition_with_k_factors(n, k, result): the k = 1 and k = 2 fast
      paths and the recursive check for k >= 3; result, when given, gets
      the factors and count k on success, and count 0 otherwise. */
  method CanPartitionWithKFactors(n: int, k: int, result: Factorization?) returns (found: bool)
    requires 0 <= n < LLongMax && 1 <= k <= IntMax
    requires k == 2 ==> n < SplitBound || Feasible(n, 2, 2)
    requires result != null ==> result.factors.Length == MaxFactors && n <= IntMax
    modifies if result != null then {result, result.factors} else {}
    ensures found ==> Feasible(n, k, k)
    ensures k == 1 ==> (found <==> n >= 1)
    ensures k == 2 ==> (found <==> Feasible(n, 2, 2))
    ensures ExactRange(n, k) ==> (found <==> Feasible(n, k, k))
    ensures k >= 2 && (EarlyCutOff(k, k) || Pow(k, k) > n) ==> !found
    ensures result != null ==> result.count == (if found then k else 0)
    ensures result != null && found && k <= MaxFactors ==> IsWitness(result.factors[..k], n, k, k)
    ensures result != null && found && k == 2 ==> result.factors[0] <= result.factors[1]
  {
    if result != null {
      result.count := 0;
    }
    if k == 1 {
      FeasibleOne(n, 1);
      if n >= 1 {
        if result != null {
          result.factors[0] := n;
          result.count := 1;
          assert result.factors[..1] == [n];
        }
        return true;
      }
      return false;
    }
    var kToK := FastPowSafe(k, k);
    PowTest(k, k, n, kToK);
    if kToK >= LLongMax || kToK > n {
      if !EarlyCutOff(k, k) && Feasible(n, k, k) {
        FeasiblePrune(n, k, k);
      }
      return false;
    }
    if k == 2 {
      found := TwoFactorScan(n, result);
      return;
    }
    found := RecursivePartitionCheck(n, k, k, result, 0);
    if found && result != null {
      result.count := k;
    }
  }

  // ---------------------------------------------------------------------
  // calculate_P_pi_exact, get_optimal_factorization and the fill loop of
  // process_chunk.

  lemma PowThirteen()
    ensures Pow(13, 13) == 302875106592253 > ExactBound
  {
  }

  /** Below 10^12 the partition number is at most 12, since 13^13 > 10^12;
      for an int it is at most 9, since 10^10 > INT_MAX. */
  lemma PartitionNumberSmall(n: int, k: int)
    requires IsPartitionNumber(n, k) && n < ExactBound
    ensures k <= 12 && (n <= IntMax ==> k <= 9)
  {
    PartitionNumberBound(n, k);
    PowThirteen();
    if k >= 13 {
      PowSelfMono(13, k);
    }
    assert Pow(10, 10) == 10000000000;
    if n <= IntMax && k >= 10 {
      PowSelfMono(10, k);
    }
  }

  /** calculate_P_pi_exact(n): scan k = 1, 2, ... while k^k fits and is at
      most n, keeping the last k that can_partition_with_k_factors accepts,
      and stop after k = 50. */
  method CalculatePPiExact(n: int) returns (maxK: int)
    requires 1 <= n < LLongMax && (n < SplitBound || Feasible(n, 2, 2))
    ensures 1 <= maxK <= SafetyLimit
    ensures n == 1 ==> maxK == 1
    ensures Feasible(n, maxK, maxK)
    ensures n < ExactBound ==> IsPartitionNumber(n, maxK)
  {
    FeasibleTrivial(n);
    if n == 1 {
      assert Pow(2, 2) > 1;
      NoneFromPowBound(1, 2);
      return 1;
    }
    maxK := 1;
    var k := 1;
    while true
      invariant 1 <= k <= SafetyLimit
      invariant 1 <= maxK <= k && (maxK < k || k == 1)
      invariant Feasible(n, maxK, maxK)
      invariant n < ExactBound ==> forall j :: maxK < j < k ==> !Feasible(n, j, j)
      decreases SafetyLimit - k
    {
      var kToK := FastPowSafe(k, k);
      PowTest(k, k, n, kToK);
      if kToK >= LLongMax || kToK > n {
        NoneFromPowBound(n, k);
        break;
      }
      var ok := CanPartitionWithKFactors(n, k, null);
      if ok {
        maxK := k;
      }
      k := k + 1;
      if k > SafetyLimit {
        if n < ExactBound {
          PowThirteen();
          PowSelfMono(13, 51);
          NoneFromPowBound(n, 51);
        }
        break;
      }
    }
  }

  /** get_optimal_factorization(n, max_k, result): the factors of a
      max_k-partition of n, with the fallback count 1, factors [n] when the
      search fails. */
  method GetOptimalFactorization(n: int, maxK: int, result: Factorization)
    requires 1 <= n <= IntMax && maxK <= IntMax && result.factors.Length == MaxFactors
    modifies result, result.factors
    ensures maxK <= 0 ==> result.count == 0
    ensures maxK >= 1 ==> result.count == maxK || (result.count == 1 && result.factors[0] == n)
    ensures 1 <= maxK <= MaxFactors && result.count == maxK ==>
      IsWitness(result.factors[..maxK], n, maxK, maxK)
    ensures IsPartitionNumber(n, maxK) ==> result.count == maxK
  {
    if maxK <= 0 {
      result.count := 0;
      return;
    }
    var found := CanPartitionWithKFactors(n, maxK, result);
    if IsPartitionNumber(n, maxK) {
      PartitionNumberSmall(n, maxK);
    }
    if found {
      return;
    }
    result.count := 1;
    result.factors[0] := n;
  }

  /** The fill loop of process_chunk: P(n) and the optimal factorization
      for n = start_n .. end_n, then P(end_n + 1) for the boundary. */
  method FillChunk(startN: int, endN: int) returns (pValues: array<int>, facts: seq<seq<int>>)
    requires 1 <= startN <= endN <= IntMax
    ensures fresh(pValues) && pValues.Length == endN - startN + 2 && |facts| == endN - startN + 1
    ensures forall i :: 0 <= i < pValues.Length ==> IsPartitionNumber(startN + i, pValues[i])
    ensures forall i :: 0 <= i < |facts| ==> IsWitness(facts[i], startN + i, pValues[i], pValues[i])
  {
    var chunkSize := endN - startN + 1;
    pValues := new int[chunkSize + 1];
    facts := [];
    var i := 0;
    while i < chunkSize
      invariant 0 <= i <= chunkSize && |facts| == i
      invariant forall j :: 0 <= j < i ==> IsPartitionNumber(startN + j, pValues[j])
      invariant forall j :: 0 <= j < i ==> IsWitness(facts[j], startN + j, pValues[j], pValues[j])
    {
      var n := startN + i;
      var p := CalculatePPiExact(n);
      pValues[i] := p;
      var fact := new Factorization(MaxFactors);
      GetOptimalFactorization(n, p, fact);
      PartitionNumberSmall(n, p);
      facts := facts + [fact.factors[..fact.count]];
      i := i + 1;
    }
    pValues[chunkSize] := CalculatePPiExact(endN + 1);
  }

  /** process_chunk without its file output: the P values of the chunk and
      its boundary, the CSV rows of the classification block and the
      factorization texts, written into the 128-byte fact_str. */
  method ProcessChunk(startN: int, endN: int, isFirst: bool, prevP: int, counters: Counters)
    returns (ps: seq<int>, rows: seq<Row>, texts: seq<string>, lastP: int)
    requires 1 <= startN <= endN <= IntMax
    modifies counters
    ensures |ps| == endN - startN + 2 && |texts| == |rows| == endN - startN + 1
    ensures forall i :: 0 <= i < |ps| ==> IsPartitionNumber(startN + i, ps[i])
    ensures forall i :: 0 <= i < |texts| ==> ShowsPartition(texts[i], startN + i, ps[i])
    ensures RowsFit(rows, ps, ChunkTrends(ps, isFirst, prevP), startN, isFirst, prevP,
                    old(counters.decrease), old(counters.equality), old(counters.increase))
    ensures var ts := ChunkTrends(ps, isFirst, prevP);
      counters.decrease == old(counters.decrease) + Occurrences(ts, Decrease) &&
      counters.equality == old(counters.equality) + Occurrences(ts, Equality) &&
      counters.increase == old(counters.increase) + Occurrences(ts, Increase)
    ensures lastP == ps[|ps| - 2]
  {
    var pValues, facts := FillChunk(startN, endN);
    ps := pValues[..];
    texts := ChunkTexts(startN, ps, facts);
    rows, lastP := ClassifyChunk(pValues, startN, isFirst, prevP, counters);
  }

  /** The second loop of process_chunk: each factorization rendered into
      the 128-byte fact_str. */
  method ChunkTexts(startN: int, ps: seq<int>, facts: seq<seq<int>>) returns (texts: seq<string>)
    requires 1 <= startN && startN + |facts| - 1 <= IntMax && |facts| <= |ps|
    requires forall i :: 0 <= i < |facts| ==> IsPartitionNumber(startN + i, ps[i])
    requires forall i :: 0 <= i < |facts| ==> IsWitness(facts[i], startN + i, ps[i], ps[i])
    ensures |texts| == |facts|
    ensures forall i :: 0 <= i < |texts| ==> ShowsPartition(texts[i], startN + i, ps[i])
  {
    texts := seq(|facts|, j requires 0 <= j < |facts| => Compact(facts[j], 128));
    forall j | 0 <= j < |texts|
      ensures ShowsPartition(texts[j], startN + j, ps[j])
    {
      PartitionNumberSmall(startN + j, ps[j]);
      PartitionNumberBound(startN + j, ps[j]);
      CompactShowsPartition(facts[j], startN + j, ps[j], 128);
    }
  }
}

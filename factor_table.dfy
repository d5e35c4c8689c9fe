// The dictionary-based search of factor_ge_n_factor/f_n.py: a multiples
// sieve builds, for every m, the ascending list of its divisors >= 2, and a
// backtracking helper searches that table for k factors each at least k.
// factor_ge_n_factor/count_le_n.py carries identical copies of
// build_factors and find_multiset; both are modelled here once.
module FactorTable {
  import opened Sorting
  import opened Partitions

  datatype Option<T> = None | Some(value: T)

  /** The divisors d of m with 2 <= d < i, in ascending order. */
  function DivisorsBelow(m: int, i: int): seq<int>
    decreases i
  {
    if i <= 2 then []
    else DivisorsBelow(m, i - 1) + (if m % (i - 1) == 0 then [i - 1] else [])
  }

  /** The factor list the table holds for m: its divisors in [2, m]. */
  function Factors(m: int): seq<int>
  {
    DivisorsBelow(m, m + 1)
  }

  lemma {:induction false} DivisorsBelowSpec(m: int, i: int)
    ensures StrictlyAscending(DivisorsBelow(m, i))
    ensures forall d :: d in DivisorsBelow(m, i) <==> 2 <= d < i && m % d == 0
    decreases i
  {
    if i > 2 {
      var pre := DivisorsBelow(m, i - 1);
      DivisorsBelowSpec(m, i - 1);
      if m % (i - 1) == 0 {
        assert forall x :: x in pre ==> x < i - 1;
        var r := pre + [i - 1];
        forall a, b | 0 <= a < b < |r| ensures r[a] < r[b] {
          if b == |pre| { assert r[a] in pre; }
        }
      }
    }
  }

  /** No divisor of m >= 1 exceeds m, so enlarging the bound past m + 1
      changes nothing. */
  lemma {:induction false} DivisorsBelowStable(m: int, i: int)
    requires m >= 1 && i >= m + 1
    ensures DivisorsBelow(m, i) == Factors(m)
    decreases i
  {
    if i > m + 1 {
      DivisorsBelowStable(m, i - 1);
      ModBelow(m, i - 1);
    }
  }

  /** factors[m] is exactly the ascending list of divisors of m in [2, m]. */
  lemma FactorsSpec(m: int)
    requires m >= 1
    ensures StrictlyAscending(Factors(m))
    ensures forall d :: d in Factors(m) <==> 2 <= d <= m && m % d == 0
    ensures m == 1 ==> Factors(m) == []
  {
    DivisorsBelowSpec(m, m + 1);
  }

  /** The table is correct for every m in [1, nMax]. */
  ghost predicate Covers(factors: map<int, seq<int>>, nMax: int)
  {
    forall m :: 1 <= m <= nMax ==> m in factors && factors[m] == Factors(m)
  }

  lemma NextMultiple(j: int, i: int)
    requires i > 0 && j % i == 0
    ensures (j + i) % i == 0
  {
    DivExact(j, i);
    assert j + i == i * (j / i + 1);
    MulDivExact(i, j / i + 1);
  }

  /** Two multiples m, j of i with j <= m < j + i coincide. */
  lemma SameMultiple(m: int, j: int, i: int)
    requires i > 0 && m % i == 0 && j % i == 0 && j <= m < j + i
    ensures m == j
  {
    DivExact(m, i);
    DivExact(j, i);
    assert i * (m / i - j / i) == m - j;
    MulSign(i, m / i - j / i);
  }

  /** The multiples sieve: for i = 2 .. nMax, append i to the list of every
      multiple of i. */
  method BuildFactors(nMax: int) returns (factors: map<int, seq<int>>)
    ensures forall m :: m in factors <==> 1 <= m <= nMax
    ensures Covers(factors, nMax)
  {
    factors := map[];
    var n := 1;
    while n <= nMax
      invariant 1 <= n <= if nMax >= 1 then nMax + 1 else 1
      invariant forall m :: m in factors <==> 1 <= m < n
      invariant forall m :: m in factors ==> factors[m] == []
    {
      factors := factors[n := []];
      n := n + 1;
    }
    forall m | 1 <= m <= nMax ensures factors[m] == DivisorsBelow(m, 2) {
      assert factors[m] == [];
    }
    var i := 2;
    while i <= nMax
      invariant 2 <= i && (nMax >= 1 ==> i <= nMax + 1)
      invariant forall m :: m in factors <==> 1 <= m <= nMax
      invariant forall m :: 1 <= m <= nMax ==> factors[m] == DivisorsBelow(m, i)
    {
      factors := AppendToMultiples(factors, nMax, i);
      i := i + 1;
    }
    forall m | 1 <= m <= nMax ensures factors[m] == Factors(m) {
      DivisorsBelowStable(m, i);
    }
  }

  /** The inner loop of the sieve: append i to the list of every multiple
      of i up to nMax. */
  method AppendToMultiples(factors0: map<int, seq<int>>, nMax: int, i: int) returns (factors: map<int, seq<int>>)
    requires 2 <= i <= nMax
    requires forall m :: m in factors0 <==> 1 <= m <= nMax
    requires forall m :: 1 <= m <= nMax ==> factors0[m] == DivisorsBelow(m, i)
    ensures forall m :: m in factors <==> 1 <= m <= nMax
    ensures forall m :: 1 <= m <= nMax ==> factors[m] == DivisorsBelow(m, i + 1)
  {
    factors := factors0;
    var j := i;
    while j <= nMax
      invariant i <= j <= nMax + i && j % i == 0
      invariant forall m :: m in factors <==> 1 <= m <= nMax
      invariant forall m :: 1 <= m <= nMax ==>
        factors[m] == if m < j && m % i == 0 then DivisorsBelow(m, i + 1) else DivisorsBelow(m, i)
    {
      MultiplesStep(factors, nMax, i, j);
      DivisorsBelowNext(j, i);
      NextMultiple(j, i);
      var old_factors := factors;
      factors := factors[j := factors[j] + [i]];
      forall m | 1 <= m <= nMax
        ensures factors[m] == if m < j + i && m % i == 0 then DivisorsBelow(m, i + 1) else DivisorsBelow(m, i)
      {
        if m != j {
          assert factors[m] == old_factors[m];
        }
      }
      j := j + i;
    }
    forall m | 1 <= m <= nMax ensures factors[m] == DivisorsBelow(m, i + 1) {
      assert m < j;
    }
  }

  lemma DivisorsBelowNext(m: int, i: int)
    requires i >= 2
    ensures DivisorsBelow(m, i + 1) == DivisorsBelow(m, i) + (if m % i == 0 then [i] else [])
  {
  }

  /** Between j and the next multiple j + i, only j itself is a multiple of i. */
  lemma MultiplesStep(factors: map<int, seq<int>>, nMax: int, i: int, j: int)
    requires 2 <= i <= j <= nMax && j % i == 0
    ensures forall m :: 1 <= m <= nMax && m % i == 0 && m < j + i ==> m < j || m == j
  {
    forall m | 1 <= m <= nMax && m % i == 0 && m < j + i
      ensures m < j || m == j
    {
      if m >= j { SameMultiple(m, j, i); }
    }
  }

  /** factors.get(r, []) */
  function Candidates(factors: map<int, seq<int>>, r: int): seq<int>
  {
    if r in factors then factors[r] else []
  }

  /** The memoised helper(remaining, depth) of find_multiset for a fixed k:
      a witness of k - depth factors, each at least k, of remaining. */
  function Helper(factors: map<int, seq<int>>, k: int, remaining: int, depth: int): (r: Option<seq<int>>)
    requires 1 <= k && 0 <= depth <= k
    ensures r.Some? ==> IsWitness(r.value, remaining, k - depth, k)
    decreases k - depth, 1, 0
  {
    if depth == k then
      if remaining == 1 then Some([]) else None
    else if remaining < Pow(k, k - depth) then None
    else TryCandidates(factors, k, remaining, depth, 0)
  }

  /** The loop over the candidate list from index i on: the first candidate
      a >= k dividing remaining whose quotient the helper can complete. */
  function TryCandidates(factors: map<int, seq<int>>, k: int, remaining: int, depth: int, i: nat): (r: Option<seq<int>>)
    requires 1 <= k && 0 <= depth < k
    ensures r.Some? ==> IsWitness(r.value, remaining, k - depth, k)
    decreases k - depth, 0, |Candidates(factors, remaining)| - i
  {
    var cands := Candidates(factors, remaining);
    if i >= |cands| then None
    else
      var a := cands[i];
      if a < k || remaining % a != 0 then TryCandidates(factors, k, remaining, depth, i + 1)
      else
        var res := Helper(factors, k, remaining / a, depth + 1);
        if res.Some? then
          ProductCons(a, res.value);
          DivExact(remaining, a);
          Some([a] + res.value)
        else TryCandidates(factors, k, remaining, depth, i + 1)
  }

  /** find_multiset(n, k, factors) */
  function FindMultiset(n: int, k: int, factors: map<int, seq<int>>): (r: Option<seq<int>>)
    requires k >= 1
    ensures r.Some? ==> IsWitness(r.value, n, k, k)
  {
    Helper(factors, k, n, 0)
  }

  /** At depth k the helper returns [] exactly when remaining is 1. */
  lemma HelperAtFullDepth(factors: map<int, seq<int>>, k: int, remaining: int)
    requires k >= 1
    ensures Helper(factors, k, remaining, k) == if remaining == 1 then Some([]) else None
  {
  }

  /** The prune fires exactly below k^(k - depth), and it never discards a
      feasible state. */
  lemma HelperPrune(factors: map<int, seq<int>>, k: int, remaining: int, depth: int)
    requires 1 <= k && 0 <= depth < k && remaining < Pow(k, k - depth)
    ensures Helper(factors, k, remaining, depth) == None
    ensures !Feasible(remaining, k - depth, k)
  {
    if Feasible(remaining, k - depth, k) {
      FeasiblePrune(remaining, k - depth, k);
    }
  }

  /** Completeness of the helper on a correct table. */
  lemma {:induction false} HelperComplete(factors: map<int, seq<int>>, nMax: int, k: int, remaining: int, depth: int)
    requires Covers(factors, nMax) && 2 <= k && 0 <= depth <= k
    requires 1 <= remaining <= nMax && Feasible(remaining, k - depth, k)
    ensures Helper(factors, k, remaining, depth).Some?
    decreases k - depth, 1, 0
  {
    if depth == k {
      FeasibleZero(remaining, k);
    } else {
      FeasiblePrune(remaining, k - depth, k);
      var a := FeasibleFirst(remaining, k - depth, k);
      FactorsSpec(remaining);
      var cands := Candidates(factors, remaining);
      assert a in cands;
      var j :| 0 <= j < |cands| && cands[j] == a;
      TryComplete(factors, nMax, k, remaining, depth, 0, j);
    }
  }

  /** The candidate loop succeeds when a usable candidate lies at j >= i. */
  lemma {:induction false} TryComplete(factors: map<int, seq<int>>, nMax: int, k: int, remaining: int, depth: int, i: nat, j: nat)
    requires Covers(factors, nMax) && 2 <= k && 0 <= depth < k && 1 <= remaining <= nMax
    requires i <= j < |Candidates(factors, remaining)|
    requires var a := Candidates(factors, remaining)[j];
      k <= a && remaining % a == 0 && Feasible(remaining / a, k - depth - 1, k)
    ensures TryCandidates(factors, k, remaining, depth, i).Some?
    decreases k - depth, 0, |Candidates(factors, remaining)| - i
  {
    var cands := Candidates(factors, remaining);
    var a := cands[i];
    if a < k || remaining % a != 0 {
      TryComplete(factors, nMax, k, remaining, depth, i + 1, j);
    } else {
      if i == j {
        FactorsSpec(remaining);
        assert 2 <= a <= remaining;
        DivExact(remaining, a);
        MulPositive(a, remaining / a);
        HelperComplete(factors, nMax, k, remaining / a, depth + 1);
      } else if Helper(factors, k, remaining / a, depth + 1).None? {
        TryComplete(factors, nMax, k, remaining, depth, i + 1, j);
      }
    }
  }

  /** find_multiset succeeds exactly when a k-factor partition exists. */
  lemma FindMultisetCorrect(factors: map<int, seq<int>>, nMax: int, n: int, k: int)
    requires Covers(factors, nMax) && 2 <= k && 1 <= n <= nMax
    ensures FindMultiset(n, k, factors).Some? <==> Feasible(n, k, k)
  {
    if Feasible(n, k, k) {
      HelperComplete(factors, nMax, k, n, 0);
    }
  }

  /** No j > floor(log2 n) + 1 can succeed, so starting the scan there
      loses nothing. */
  lemma AboveMaxK(n: int, j: int)
    requires n >= 1 && j > Log2Floor(n) + 1
    ensures !Feasible(n, j, j)
  {
    if Feasible(n, j, j) {
      FeasiblePrune(n, j, j);
      KBelowLog2(n, j);
    }
  }

  /** The upper end of the descending scan over k. */
  function MaxK(n: int): (r: int)
    ensures r >= 1
    ensures n > 1 ==> r >= 2
  {
    if n > 1 then Log2Floor(n) + 1 else 1
  }

  /** best_multiset_for: scan k downwards from max_k, keep the first
      success, fall back to (1, [n]), and return the factors sorted. */
  method BestMultisetFor(n: int, factors: map<int, seq<int>>) returns (bestK: int, bestA: seq<int>)
    ensures bestK >= 1 && |bestA| == bestK && Product(bestA) == n && Ascending(bestA)
    ensures n >= 1 ==> AllAtLeast(bestA, bestK)
    ensures bestK >= 2 ==> Pow(bestK, bestK) <= n && Feasible(n, bestK, bestK)
    ensures bestK == 1 ==> bestA == [n]
    ensures Covers(factors, n) && n >= 1 ==> IsPartitionNumber(n, bestK)
  {
    var maxK := MaxK(n);
    bestK := 1;
    bestA := [n];
    assert Product([n]) == n;
    var k := maxK;
    if n >= 1 {
      forall j | j > k ensures !Feasible(n, j, j) { AboveMaxK(n, j); }
    }
    while k > 1
      invariant 1 <= k <= maxK
      invariant bestK == 1 && bestA == [n]
      invariant Covers(factors, n) && n >= 1 ==> forall j :: j > k ==> !Feasible(n, j, j)
    {
      if n < Pow(k, k) {
        if Feasible(n, k, k) { FeasiblePrune(n, k, k); }
      } else {
        var a := FindMultiset(n, k, factors);
        if a.Some? && a.value != [] {
          bestK := k;
          bestA := a.value;
          break;
        }
        if Covers(factors, n) && n >= 1 {
          FindMultisetCorrect(factors, n, n, k);
        }
      }
      k := k - 1;
    }
    if bestK == 1 && n >= 1 {
      FeasibleTrivial(n);
    }
    if bestK >= 2 {
      SortKeepsWitness(bestA, n, bestK, bestK);
    } else {
      assert Sort([n]) == [n];
    }
    bestA := Sort(bestA);
  }
}

// factor_ge_n_factor/count_le_n.py: T(n) for every n up to N_max + 1 from
// the factor table, and the list of n with T(n) = T(n + 1).
module CountLeN {
  import opened Sorting
  import opened Partitions
  import opened FactorTable

  /** T_of: the first k, scanning down from floor(log2 n) + 1, for which
      find_multiset succeeds; 1 when none does and for n <= 1. */
  method TOf(n: int, factors: map<int, seq<int>>) returns (t: int)
    ensures t >= 1
    ensures n <= 1 ==> t == 1
    ensures t >= 2 ==> Pow(t, t) <= n && Feasible(n, t, t)
    ensures Covers(factors, n) && n >= 1 ==> IsPartitionNumber(n, t)
  {
    if n <= 1 {
      if n == 1 {
        FeasibleTrivial(1);
        assert Pow(2, 2) > 1;
        NoneFromPowBound(1, 2);
      }
      return 1;
    }
    var k := Log2Floor(n) + 1;
    forall j | j > k ensures !Feasible(n, j, j) { AboveMaxK(n, j); }
    while k > 1
      invariant 1 <= k
      invariant Covers(factors, n) ==> forall j :: j > k ==> !Feasible(n, j, j)
    {
      if n < Pow(k, k) {
        if Feasible(n, k, k) { FeasiblePrune(n, k, k); }
      } else {
        var a := FindMultiset(n, k, factors);
        if a.Some? && a.value != [] {
          return k;
        }
        if Covers(factors, n) {
          FindMultisetCorrect(factors, n, n, k);
        }
      }
      k := k - 1;
    }
    FeasibleTrivial(n);
    return 1;
  }

  /** The table T of main: factors up to N_max + 1, then T[n] = T_of(n) for
      n = 1 .. N_max + 1, with T[0] left at 0. */
  method ComputeT(nMax: int) returns (t: array<int>)
    requires nMax >= -1
    ensures t.Length == nMax + 2 && t[0] == 0
    ensures forall n :: 1 <= n <= nMax + 1 ==> IsPartitionNumber(n, t[n])
  {
    var factors := BuildFactors(nMax + 1);
    t := new int[nMax + 2](_ => 0);
    var n := 1;
    while n <= nMax + 1
      invariant 1 <= n <= nMax + 2
      invariant t[0] == 0
      invariant forall m :: 1 <= m < n ==> IsPartitionNumber(m, t[m])
    {
      t[n] := TOf(n, factors);
      n := n + 1;
    }
  }

  /** The comprehension equal_consec over n in [1, nMax). */
  function EqualConsec(t: seq<int>, nMax: int): (r: seq<int>)
    requires nMax <= 1 || nMax < |t|
    ensures StrictlyAscending(r)
    ensures forall n :: n in r ==> 1 <= n < nMax && t[n] == t[n + 1]
    ensures forall n :: 1 <= n < nMax && t[n] == t[n + 1] ==> n in r
    decreases nMax
  {
    if nMax <= 1 then []
    else
      var pre := EqualConsec(t, nMax - 1);
      var r := pre + (if t[nMax - 1] == t[nMax] then [nMax - 1] else []);
      assert forall a, b :: 0 <= a < b < |r| ==> r[a] < r[b] by {
        forall a, b | 0 <= a < b < |r| ensures r[a] < r[b] {
          if b < |pre| {
            assert r[a] == pre[a] && r[b] == pre[b];
          } else {
            assert r[a] == pre[a] && pre[a] in pre;
          }
        }
      }
      r
  }

  /** On the table ComputeT fills, equal_consec lists exactly the n in
      [1, N_max) whose partition number equals that of n + 1. */
  lemma EqualConsecMeansEqualP(t: seq<int>, nMax: int, n: int)
    requires |t| == nMax + 2 && nMax >= -1
    requires forall m :: 1 <= m <= nMax + 1 ==> IsPartitionNumber(m, t[m])
    ensures n in EqualConsec(t, nMax) <==>
      1 <= n < nMax && exists k :: IsPartitionNumber(n, k) && IsPartitionNumber(n + 1, k)
  {
    if 1 <= n < nMax {
      if t[n] == t[n + 1] {
        assert IsPartitionNumber(n, t[n]) && IsPartitionNumber(n + 1, t[n]);
      }
      if exists k :: IsPartitionNumber(n, k) && IsPartitionNumber(n + 1, k) {
        var k :| IsPartitionNumber(n, k) && IsPartitionNumber(n + 1, k);
        PartitionNumberUnique(n, k, t[n]);
        PartitionNumberUnique(n + 1, k, t[n + 1]);
      }
    }
  }
}

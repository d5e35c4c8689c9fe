// multiplicative_optimal_partitions/conjecture_analyzer.py: the analyzer
// object that fills the table of partition numbers in batches, splits
// [1, max_n) into decrease, increase and equality lists, and reads off the
// counting index j_M and its boundary element for each M.
module ConjectureAnalyzer {
  import opened Sorting
  import opened Partitions
  import opened DivisorSearch
  import opened Classification

  /** The batch size of the fill loop. */
  const BatchSize := 10000

  /** The integer part of one row of compute_conjecture_values. */
  datatype JRecord = JRecord(
    m: int,
    jMinus: int, dMinus: int,
    jZero: int, eZero: int,
    jPlus: int, iPlus: int)

  /** j is the length of the longest prefix of s whose elements are at most
      bound, and b is its last element (0 for an empty prefix). */
  predicate IsJM(s: seq<int>, bound: int, j: int, b: int)
  {
    0 <= j <= |s| && (forall i :: 0 <= i < j ==> s[i] <= bound) &&
    (j < |s| ==> s[j] > bound) &&
    b == (if j > 0 then s[j - 1] else 0)
  }

  /** On an ascending list, j_M counts the elements at most M and the
      boundary element is the largest of them (0 when there is none). */
  lemma JMOnAscending(s: seq<int>, bound: int, j: int, b: int)
    requires Ascending(s) && IsJM(s, bound, j, b)
    ensures j == CountAtMost(s, bound)
    ensures j > 0 ==> b <= bound && b in s && forall x :: x in s && x <= bound ==> x <= b
    ensures j == 0 ==> b == 0 && forall x :: x in s ==> x > bound
  {
    CountAtMostPrefix(s, bound, j);
    forall x | x in s && (j == 0 || x <= bound) ensures if j > 0 then x <= b else x > bound {
      var i :| 0 <= i < |s| && s[i] == x;
      if i >= j {
        assert s[i] >= s[j];
      }
    }
  }

  /** On an ascending list, j_M is non-decreasing in M, and so is the
      boundary element once there is one. */
  lemma JMMonotone(s: seq<int>, m1: int, j1: int, b1: int, m2: int, j2: int, b2: int)
    requires Ascending(s) && m1 <= m2
    requires IsJM(s, m1, j1, b1) && IsJM(s, m2, j2, b2)
    ensures j1 <= j2 && (j1 > 0 ==> b1 <= b2)
  {
    JMOnAscending(s, m1, j1, b1);
    JMOnAscending(s, m2, j2, b2);
    CountAtMostMono(s, m1, m2);
    if j1 > 0 {
      assert s[j1 - 1] <= s[j2 - 1];
    }
  }

  /** Read on a list that a classification pass produced, j_M counts the m
      in [1, maxN) of trend t with m <= M, and the boundary element is the
      largest of them (0 when there is none). */
  lemma JMOfTrendList(pv: map<int, int>, maxN: int, t: Trend, bound: int, j: int, b: int)
    requires Defined(pv, 1, maxN) && IsJM(Indices(pv, 1, maxN, t), bound, j, b)
    ensures j == CountAtMost(Indices(pv, 1, maxN, t), bound)
    ensures j > 0 ==> 1 <= b <= bound && b < maxN && TrendAt(pv, b) == t
    ensures j > 0 ==> forall m :: 1 <= m < maxN && m <= bound && TrendAt(pv, m) == t ==> m <= b
    ensures j == 0 ==> b == 0 && forall m :: 1 <= m < maxN && m <= bound ==> TrendAt(pv, m) != t
  {
    var s := Indices(pv, 1, maxN, t);
    assert Ascending(s) by {
      forall a, c | 0 <= a < c < |s| ensures s[a] <= s[c] { }
    }
    JMOnAscending(s, bound, j, b);
  }

  /** pv and pv0 agree (in keys and values) outside [lo, hi]. */
  ghost predicate SameOutside(pv: map<int, int>, pv0: map<int, int>, lo: int, hi: int)
  {
    forall n :: !(lo <= n <= hi) ==>
      (n in pv <==> n in pv0) && (n in pv ==> pv[n] == pv0[n])
  }

  class StatisticalConjectureAnalyzer {
    const maxN: int
    var partitionValues: map<int, int>
    var decreaseSeq: seq<int>
    var increaseSeq: seq<int>
    var equalitySeq: seq<int>

    constructor (maxN: int)
      ensures this.maxN == maxN && partitionValues == map[]
      ensures decreaseSeq == [] && increaseSeq == [] && equalitySeq == []
    {
      this.maxN := maxN;
      partitionValues := map[];
      decreaseSeq := [];
      increaseSeq := [];
      equalitySeq := [];
    }

    /** compute_sequences: fill P(n) for n = 1 .. max_n batch by batch,
        then append every m in [1, max_n) to the list of its trend. */
    method ComputeSequences()
      modifies this
      ensures forall n :: 1 <= n <= maxN ==> n in partitionValues && IsPartitionNumber(n, partitionValues[n])
      ensures SameOutside(partitionValues, old(partitionValues), 1, maxN)
      ensures Defined(partitionValues, 1, maxN)
      ensures decreaseSeq == old(decreaseSeq) + Indices(partitionValues, 1, maxN, Decrease)
      ensures increaseSeq == old(increaseSeq) + Indices(partitionValues, 1, maxN, Increase)
      ensures equalitySeq == old(equalitySeq) + Indices(partitionValues, 1, maxN, Equality)
    {
      var start := 1;
      while start <= maxN
        invariant start >= 1
        invariant forall n :: 1 <= n < start && n <= maxN ==> n in partitionValues && IsPartitionNumber(n, partitionValues[n])
        invariant SameOutside(partitionValues, old(partitionValues), 1, maxN)
        invariant decreaseSeq == old(decreaseSeq) && increaseSeq == old(increaseSeq) && equalitySeq == old(equalitySeq)
      {
        var end := if start + BatchSize - 1 < maxN then start + BatchSize - 1 else maxN;
        FillBatch(start, end);
        start := start + BatchSize;
      }
      Classify();
    }

    /** One batch of the fill loop: P(n) for n = start .. end. */
    method FillBatch(start: int, end: int)
      requires 1 <= start && end <= maxN
      modifies this`partitionValues
      ensures forall n :: start <= n <= end ==> n in partitionValues && IsPartitionNumber(n, partitionValues[n])
      ensures SameOutside(partitionValues, old(partitionValues), start, end)
    {
      var n := start;
      while n <= end
        invariant start <= n && (start <= end ==> n <= end + 1)
        invariant forall j :: start <= j < n && j <= end ==> j in partitionValues && IsPartitionNumber(j, partitionValues[j])
        invariant SameOutside(partitionValues, old(partitionValues), start, end)
      {
        var p := PartitionFunction(n);
        partitionValues := partitionValues[n := p];
        n := n + 1;
      }
    }

    /** The classification loop of compute_sequences over m in [1, max_n). */
    method Classify()
      requires Defined(partitionValues, 1, maxN)
      modifies this`decreaseSeq, this`increaseSeq, this`equalitySeq
      ensures decreaseSeq == old(decreaseSeq) + Indices(partitionValues, 1, maxN, Decrease)
      ensures increaseSeq == old(increaseSeq) + Indices(partitionValues, 1, maxN, Increase)
      ensures equalitySeq == old(equalitySeq) + Indices(partitionValues, 1, maxN, Equality)
    {
      ghost var pv := partitionValues;
      var dec, inc, eq := decreaseSeq, increaseSeq, equalitySeq;
      var m := 1;
      while m < maxN
        invariant 1 <= m && (m <= maxN || m == 1)
        invariant Defined(pv, 1, m)
        invariant dec == old(decreaseSeq) + Indices(pv, 1, m, Decrease)
        invariant inc == old(increaseSeq) + Indices(pv, 1, m, Increase)
        invariant eq == old(equalitySeq) + Indices(pv, 1, m, Equality)
      {
        DefinedPrefix(pv, 1, maxN, m + 1);
        AppendStep(pv, 1, m, Decrease, old(decreaseSeq), dec);
        AppendStep(pv, 1, m, Increase, old(increaseSeq), inc);
        AppendStep(pv, 1, m, Equality, old(equalitySeq), eq);
        var pM := partitionValues[m];
        var pNext := partitionValues[m + 1];
        if pM > pNext {
          dec := dec + [m];
        } else if pM < pNext {
          inc := inc + [m];
        } else {
          eq := eq + [m];
        }
        m := m + 1;
      }
      decreaseSeq, increaseSeq, equalitySeq := dec, inc, eq;
    }

    /** find_j_M: count the leading elements at most bound, stopping at the
        first one above it. */
    method FindJM(sequence: seq<int>, bound: int) returns (count: int)
      ensures 0 <= count <= |sequence|
      ensures forall i :: 0 <= i < count ==> sequence[i] <= bound
      ensures count < |sequence| ==> sequence[count] > bound
      ensures Ascending(sequence) ==> count == CountAtMost(sequence, bound)
    {
      count := 0;
      while count < |sequence|
        invariant 0 <= count <= |sequence|
        invariant forall i :: 0 <= i < count ==> sequence[i] <= bound
      {
        if sequence[count] <= bound {
          count := count + 1;
        } else {
          break;
        }
      }
      if Ascending(sequence) {
        CountAtMostPrefix(sequence, bound, count);
      }
    }

    /** r holds, for its M, the three counting indices of the current lists
        and their boundary elements. */
    ghost predicate RowHolds(r: JRecord)
      reads this
    {
      IsJM(decreaseSeq, r.m, r.jMinus, r.dMinus) &&
      IsJM(equalitySeq, r.m, r.jZero, r.eZero) &&
      IsJM(increaseSeq, r.m, r.jPlus, r.iPlus)
    }

    /** One row of compute_conjecture_values. */
    method ConjectureRow(bound: int) returns (r: JRecord)
      ensures r.m == bound && RowHolds(r)
    {
      var jMinus := FindJM(decreaseSeq, bound);
      var jZero := FindJM(equalitySeq, bound);
      var jPlus := FindJM(increaseSeq, bound);
      var dMinus := if jMinus > 0 then decreaseSeq[jMinus - 1] else 0;
      var eZero := if jZero > 0 then equalitySeq[jZero - 1] else 0;
      var iPlus := if jPlus > 0 then increaseSeq[jPlus - 1] else 0;
      r := JRecord(bound, jMinus, dMinus, jZero, eZero, jPlus, iPlus);
    }

    /** The integer part of compute_conjecture_values: for each M the three
        counting indices and their boundary elements. */
    method ComputeConjectureValues(mValues: seq<int>) returns (results: seq<JRecord>)
      ensures |results| == |mValues|
      ensures forall i :: 0 <= i < |mValues| ==> results[i].m == mValues[i] && RowHolds(results[i])
    {
      results := [];
      var i := 0;
      while i < |mValues|
        invariant 0 <= i <= |mValues| && |results| == i
        invariant forall k :: 0 <= k < i ==> results[k].m == mValues[k] && RowHolds(results[k])
      {
        var row := ConjectureRow(mValues[i]);
        results := results + [row];
        i := i + 1;
      }
    }
  }
}

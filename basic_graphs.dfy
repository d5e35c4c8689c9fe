// multiplicative_optimal_partitions/basic_graphs.py: the analyzer object
// that fills the table of partition numbers, splits [1, max_n) into the
// decrease, increase and equality lists, and keeps a per-level histogram of
// the three trends. Its search methods are those of DivisorSearch.
module BasicGraphs {
  import opened Partitions
  import opened DivisorSearch
  import opened Classification

  class PartitionAnalyzer {
    const maxN: int
    var partitionValues: map<int, int>
    var decreaseSeq: seq<int>
    var increaseSeq: seq<int>
    var equalitySeq: seq<int>
    /** The defaultdict of per-level counters; a missing level reads as
        all zeros (Classification.Level). */
    var levelFrequencies: map<int, LevelCounts>

    constructor (maxN: int)
      ensures this.maxN == maxN && partitionValues == map[] && levelFrequencies == map[]
      ensures decreaseSeq == [] && increaseSeq == [] && equalitySeq == []
    {
      this.maxN := maxN;
      partitionValues := map[];
      decreaseSeq := [];
      increaseSeq := [];
      equalitySeq := [];
      levelFrequencies := map[];
    }

    /** compute_all_values: P(n) for n = 1 .. max_n, then one pass over
        m in [1, max_n) that appends m to the list of its trend and counts
        that trend at level P(m). */
    method ComputeAllValues()
      modifies this
      ensures forall n :: 1 <= n <= maxN ==> n in partitionValues && IsPartitionNumber(n, partitionValues[n])
      ensures forall n :: !(1 <= n <= maxN) ==> (n in partitionValues <==> n in old(partitionValues))
      ensures forall n :: !(1 <= n <= maxN) && n in partitionValues ==> partitionValues[n] == old(partitionValues)[n]
      ensures Defined(partitionValues, 1, maxN)
      ensures decreaseSeq == old(decreaseSeq) + Indices(partitionValues, 1, maxN, Decrease)
      ensures increaseSeq == old(increaseSeq) + Indices(partitionValues, 1, maxN, Increase)
      ensures equalitySeq == old(equalitySeq) + Indices(partitionValues, 1, maxN, Equality)
      ensures forall l, u ::
        Get(Level(levelFrequencies, l), u) == Get(Level(old(levelFrequencies), l), u) + Tally(partitionValues, 1, maxN, l, u)
      ensures forall l :: l in levelFrequencies ==> l in old(levelFrequencies) || LevelTotal(partitionValues, 1, maxN, l) > 0
      ensures forall l :: LevelTotal(partitionValues, 1, maxN, l) > 0 ==> l in levelFrequencies
    {
      FillValues();
      ClassifyAndCount();
    }

    /** The fill loop of compute_all_values. */
    method FillValues()
      modifies this`partitionValues
      ensures forall n :: 1 <= n <= maxN ==> n in partitionValues && IsPartitionNumber(n, partitionValues[n])
      ensures forall n :: !(1 <= n <= maxN) ==> (n in partitionValues <==> n in old(partitionValues))
      ensures forall n :: !(1 <= n <= maxN) && n in partitionValues ==> partitionValues[n] == old(partitionValues)[n]
    {
      var n := 1;
      while n <= maxN
        invariant 1 <= n && (n <= maxN + 1 || n == 1)
        invariant forall j :: 1 <= j < n ==> j in partitionValues && IsPartitionNumber(j, partitionValues[j])
        invariant forall j :: !(1 <= j < n) ==> (j in partitionValues <==> j in old(partitionValues))
        invariant forall j :: !(1 <= j < n) && j in partitionValues ==> partitionValues[j] == old(partitionValues)[j]
      {
        var p := PartitionFunction(n);
        partitionValues := partitionValues[n := p];
        n := n + 1;
      }
    }

    /** The classification and histogram loop of compute_all_values. */
    method ClassifyAndCount()
      requires Defined(partitionValues, 1, maxN)
      modifies this`decreaseSeq, this`increaseSeq, this`equalitySeq, this`levelFrequencies
      ensures decreaseSeq == old(decreaseSeq) + Indices(partitionValues, 1, maxN, Decrease)
      ensures increaseSeq == old(increaseSeq) + Indices(partitionValues, 1, maxN, Increase)
      ensures equalitySeq == old(equalitySeq) + Indices(partitionValues, 1, maxN, Equality)
      ensures forall l, u ::
        Get(Level(levelFrequencies, l), u) == Get(Level(old(levelFrequencies), l), u) + Tally(partitionValues, 1, maxN, l, u)
      ensures forall l :: l in levelFrequencies ==> l in old(levelFrequencies) || LevelTotal(partitionValues, 1, maxN, l) > 0
      ensures forall l :: LevelTotal(partitionValues, 1, maxN, l) > 0 ==> l in levelFrequencies
    {
      ghost var pv := partitionValues;
      ghost var freq0 := levelFrequencies;
      var dec, inc, eq, freq := decreaseSeq, increaseSeq, equalitySeq, levelFrequencies;
      var m := 1;
      while m < maxN
        invariant 1 <= m && (m <= maxN || m == 1)
        invariant Defined(pv, 1, m)
        invariant dec == old(decreaseSeq) + Indices(pv, 1, m, Decrease)
        invariant inc == old(increaseSeq) + Indices(pv, 1, m, Increase)
        invariant eq == old(equalitySeq) + Indices(pv, 1, m, Equality)
        invariant forall l, u :: Get(Level(freq, l), u) == Get(Level(freq0, l), u) + Tally(pv, 1, m, l, u)
        invariant forall l :: l in freq ==> l in freq0 || LevelTotal(pv, 1, m, l) > 0
        invariant forall l :: LevelTotal(pv, 1, m, l) > 0 ==> l in freq
      {
        DefinedPrefix(pv, 1, maxN, m + 1);
        assert m in pv && m + 1 in pv;
        AppendStep(pv, 1, m, Decrease, old(decreaseSeq), dec);
        AppendStep(pv, 1, m, Increase, old(increaseSeq), inc);
        AppendStep(pv, 1, m, Equality, old(equalitySeq), eq);
        var pM := partitionValues[m];
        var pNext := partitionValues[m + 1];
        CountStep(pv, m, m + 1, freq0, freq, Record(freq, pM, TrendOf(pM, pNext)));
        if pM > pNext {
          dec := dec + [m];
          freq := Record(freq, pM, Decrease);
        } else if pM < pNext {
          inc := inc + [m];
          freq := Record(freq, pM, Increase);
        } else {
          eq := eq + [m];
          freq := Record(freq, pM, Equality);
        }
        m := m + 1;
      }
      decreaseSeq, increaseSeq, equalitySeq, levelFrequencies := dec, inc, eq, freq;
    }
  }

  /** The histogram part of one step of the classification loop, for every
      level and trend at once, and for the set of levels present: r is the
      histogram after recording m, and next is m + 1. */
  lemma CountStep(pv: map<int, int>, m: int, next: int, freq0: map<int, LevelCounts>,
                  freq: map<int, LevelCounts>, r: map<int, LevelCounts>)
    requires 1 <= m && next == m + 1 && Defined(pv, 1, next) && Defined(pv, 1, m) && m in pv && next in pv
    requires r == Record(freq, pv[m], TrendOf(pv[m], pv[next]))
    requires forall l, u :: Get(Level(freq, l), u) == Get(Level(freq0, l), u) + Tally(pv, 1, m, l, u)
    requires forall l :: l in freq ==> l in freq0 || LevelTotal(pv, 1, m, l) > 0
    requires forall l :: LevelTotal(pv, 1, m, l) > 0 ==> l in freq
    ensures forall l, u :: Get(Level(r, l), u) == Get(Level(freq0, l), u) + Tally(pv, 1, next, l, u)
    ensures forall l :: l in r ==> l in freq0 || LevelTotal(pv, 1, next, l) > 0
    ensures forall l :: LevelTotal(pv, 1, next, l) > 0 ==> l in r
  {
    forall l, u ensures Get(Level(r, l), u) == Get(Level(freq0, l), u) + Tally(pv, 1, next, l, u) {
      RecordStep(pv, 1, m, freq0, freq, l, u);
    }
    forall l ensures (l in r ==> l in freq0 || LevelTotal(pv, 1, next, l) > 0)
                  && (LevelTotal(pv, 1, next, l) > 0 ==> l in r) {
      LevelTotalStep(pv, 1, m, l);
    }
  }

  /** The sum of the trend-u counters of the levels a .. b-1. */
  function SumCounts(freq: map<int, LevelCounts>, a: int, b: int, u: Trend): int
    decreases b - a
  {
    if b <= a then 0 else SumCounts(freq, a, b - 1, u) + Get(Level(freq, b - 1), u)
  }

  lemma {:induction false} SumCountsIsSumTally(pv: map<int, int>, lo: int, hi: int,
                                               freq: map<int, LevelCounts>, a: int, b: int, u: Trend)
    requires Defined(pv, lo, hi)
    requires forall l :: Get(Level(freq, l), u) == Tally(pv, lo, hi, l, u)
    ensures SumCounts(freq, a, b, u) == SumTally(pv, lo, hi, a, b, u)
    decreases b - a
  {
    if b > a {
      SumCountsIsSumTally(pv, lo, hi, freq, a, b - 1, u);
    }
  }

  /** On the histogram of a fresh analyzer after compute_all_values: at
      every level the three counters add up to the number of m in
      [1, max_n) at that level; summed over the levels 1 .. max_n the
      trend-u counters give the length of the list of trend u, and all
      counters together give max_n - 1. */
  lemma HistogramTotals(pv: map<int, int>, maxN: int, freq: map<int, LevelCounts>)
    requires maxN >= 1
    requires forall n :: 1 <= n <= maxN ==> n in pv && IsPartitionNumber(n, pv[n])
    requires forall l, u :: Get(Level(freq, l), u) == Tally(pv, 1, maxN, l, u)
    ensures forall l :: Level(freq, l).decrease + Level(freq, l).increase + Level(freq, l).equality
                        == LevelTotal(pv, 1, maxN, l)
    ensures SumCounts(freq, 1, maxN + 1, Decrease) == |Indices(pv, 1, maxN, Decrease)|
    ensures SumCounts(freq, 1, maxN + 1, Increase) == |Indices(pv, 1, maxN, Increase)|
    ensures SumCounts(freq, 1, maxN + 1, Equality) == |Indices(pv, 1, maxN, Equality)|
    ensures SumCounts(freq, 1, maxN + 1, Decrease) + SumCounts(freq, 1, maxN + 1, Increase)
          + SumCounts(freq, 1, maxN + 1, Equality) == maxN - 1
  {
    forall l ensures Level(freq, l).decrease + Level(freq, l).increase + Level(freq, l).equality
                     == LevelTotal(pv, 1, maxN, l) {
      assert Get(Level(freq, l), Decrease) == Tally(pv, 1, maxN, l, Decrease);
      assert Get(Level(freq, l), Increase) == Tally(pv, 1, maxN, l, Increase);
      assert Get(Level(freq, l), Equality) == Tally(pv, 1, maxN, l, Equality);
      LevelTalliesAddUp(pv, 1, maxN, l);
    }
    forall m | 1 <= m < maxN ensures 1 <= pv[m] < maxN + 1 {
      PartitionNumberBound(m, pv[m]);
      PowAtLeastBase(pv[m], pv[m]);
    }
    forall u ensures SumCounts(freq, 1, maxN + 1, u) == |Indices(pv, 1, maxN, u)| {
      SumCountsIsSumTally(pv, 1, maxN, freq, 1, maxN + 1, u);
      SumTallyIsLength(pv, 1, maxN, 1, maxN + 1, u);
    }
    TrendLengths(pv, 1, maxN);
  }
}

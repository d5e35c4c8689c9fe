// The three-way classification of consecutive partition numbers shared by
// the Python analyzers and the C chunk processors, stated once: every m is
// a decrease, an equality or an increase according to P(m) against P(m+1);
// the per-level histogram of basic_graphs.py; and the counting index j_M
// of conjecture_analyzer.py.
module Classification {
  import opened Sorting

  datatype Trend = Decrease | Equality | Increase

  /** The trend from P(m) = p to P(m+1) = q. */
  function TrendOf(p: int, q: int): (t: Trend)
    ensures t == Decrease <==> p > q
    ensures t == Increase <==> p < q
    ensures t == Equality <==> p == q
  {
    if p > q then Decrease else if p < q then Increase else Equality
  }

  /** For a non-empty range [lo, hi), P(m) is recorded for every m in
      [lo, hi], so every m in the range has both P(m) and P(m+1). */
  predicate Defined(pv: map<int, int>, lo: int, hi: int)
  {
    hi <= lo || forall m :: lo <= m <= hi ==> m in pv
  }

  /** The trend at m. */
  function TrendAt(pv: map<int, int>, m: int): Trend
    requires m in pv && m + 1 in pv
  {
    TrendOf(pv[m], pv[m + 1])
  }

  /** The ascending list of the m in [lo, hi) whose trend is t. */
  function Indices(pv: map<int, int>, lo: int, hi: int, t: Trend): (r: seq<int>)
    requires Defined(pv, lo, hi)
    ensures StrictlyAscending(r)
    ensures forall m :: m in r ==> lo <= m < hi && TrendAt(pv, m) == t
    ensures forall m :: lo <= m < hi && TrendAt(pv, m) == t ==> m in r
    decreases hi - lo
  {
    if hi <= lo then []
    else
      var pre := Indices(pv, lo, hi - 1, t);
      var r := pre + (if TrendAt(pv, hi - 1) == t then [hi - 1] else []);
      assert StrictlyAscending(r) by {
        forall a, b | 0 <= a < b < |r| ensures r[a] < r[b] {
          if b < |pre| {
            assert r[a] == pre[a] && r[b] == pre[b];
          } else {
            assert r[a] == pre[a] && pre[a] in pre;
          }
        }
      }
      r
  }

  /** Extending the range by one appends hi to the list of its trend and
      leaves the other two lists as they are. */
  lemma IndicesStep(pv: map<int, int>, lo: int, hi: int, t: Trend)
    requires lo <= hi && Defined(pv, lo, hi + 1)
    ensures Defined(pv, lo, hi)
    ensures Indices(pv, lo, hi + 1, t) ==
      Indices(pv, lo, hi, t) + (if TrendOf(pv[hi], pv[hi + 1]) == t then [hi] else [])
  {
  }

  /** The loop step of a classification pass: a list that holds s0 followed
      by the indices of trend t in [lo, hi) gets hi appended exactly when hi
      has trend t, and then holds s0 followed by those of [lo, hi + 1). */
  lemma AppendStep(pv: map<int, int>, lo: int, hi: int, t: Trend, s0: seq<int>, s: seq<int>)
    requires lo <= hi && Defined(pv, lo, hi + 1)
    requires Defined(pv, lo, hi) && s == s0 + Indices(pv, lo, hi, t)
    ensures (if TrendOf(pv[hi], pv[hi + 1]) == t then s + [hi] else s) == s0 + Indices(pv, lo, hi + 1, t)
  {
    IndicesStep(pv, lo, hi, t);
    assert s0 + Indices(pv, lo, hi, t) + [hi] == s0 + (Indices(pv, lo, hi, t) + [hi]);
  }

  /** The three lists partition [lo, hi): every m lies in exactly one. */
  lemma ExactlyOneTrend(pv: map<int, int>, lo: int, hi: int, m: int)
    requires Defined(pv, lo, hi) && lo <= m < hi
    ensures m in Indices(pv, lo, hi, TrendAt(pv, m))
    ensures forall t :: t != TrendAt(pv, m) ==> m !in Indices(pv, lo, hi, t)
  {
  }

  /** The three lists together have hi - lo elements. */
  lemma {:induction false} TrendLengths(pv: map<int, int>, lo: int, hi: int)
    requires Defined(pv, lo, hi) && lo <= hi
    ensures |Indices(pv, lo, hi, Decrease)| + |Indices(pv, lo, hi, Equality)|
          + |Indices(pv, lo, hi, Increase)| == hi - lo
    decreases hi - lo
  {
    if hi > lo {
      TrendLengths(pv, lo, hi - 1);
    }
  }

  /** A Defined range stays Defined when shrunk. */
  lemma DefinedPrefix(pv: map<int, int>, lo: int, hi: int, hi2: int)
    requires Defined(pv, lo, hi) && hi2 <= hi
    ensures Defined(pv, lo, hi2)
  {
  }

  // ---------------------------------------------------------------------
  // The per-level histogram.

  /** The decrease/increase/equality counters of one level. */
  datatype LevelCounts = LevelCounts(decrease: int, increase: int, equality: int)

  const Zero := LevelCounts(0, 0, 0)

  /** The counter of trend t. */
  function Get(c: LevelCounts, t: Trend): int
  {
    match t
    case Decrease => c.decrease
    case Increase => c.increase
    case Equality => c.equality
  }

  /** c with the counter of trend t incremented. */
  function Bump(c: LevelCounts, t: Trend): (r: LevelCounts)
    ensures Get(r, t) == Get(c, t) + 1
    ensures forall u :: u != t ==> Get(r, u) == Get(c, u)
  {
    match t
    case Decrease => c.(decrease := c.decrease + 1)
    case Increase => c.(increase := c.increase + 1)
    case Equality => c.(equality := c.equality + 1)
  }

  /** The defaultdict lookup: a missing level reads as all zeros. */
  function Level(freq: map<int, LevelCounts>, level: int): LevelCounts
  {
    if level in freq then freq[level] else Zero
  }

  /** The number of m in [lo, hi) with P(m) = level and trend t. */
  function Tally(pv: map<int, int>, lo: int, hi: int, level: int, t: Trend): (c: nat)
    requires Defined(pv, lo, hi)
    ensures c <= (if hi > lo then hi - lo else 0)
    decreases hi - lo
  {
    if hi <= lo then 0
    else Tally(pv, lo, hi - 1, level, t) + (if pv[hi - 1] == level && TrendAt(pv, hi - 1) == t then 1 else 0)
  }

  /** The number of m in [lo, hi) with P(m) = level. */
  function LevelTotal(pv: map<int, int>, lo: int, hi: int, level: int): (c: nat)
    requires Defined(pv, lo, hi)
    decreases hi - lo
  {
    if hi <= lo then 0
    else LevelTotal(pv, lo, hi - 1, level) + (if pv[hi - 1] == level then 1 else 0)
  }

  /** At one level the three counters add up to the number of m at that
      level. */
  lemma {:induction false} LevelTalliesAddUp(pv: map<int, int>, lo: int, hi: int, level: int)
    requires Defined(pv, lo, hi)
    ensures Tally(pv, lo, hi, level, Decrease) + Tally(pv, lo, hi, level, Increase)
          + Tally(pv, lo, hi, level, Equality) == LevelTotal(pv, lo, hi, level)
    decreases hi - lo
  {
    if hi > lo {
      LevelTalliesAddUp(pv, lo, hi - 1, level);
    }
  }

  /** The sum of Tally over the levels a .. b-1. */
  function SumTally(pv: map<int, int>, lo: int, hi: int, a: int, b: int, t: Trend): nat
    requires Defined(pv, lo, hi)
    decreases b - a
  {
    if b <= a then 0 else SumTally(pv, lo, hi, a, b - 1, t) + Tally(pv, lo, hi, b - 1, t)
  }

  /** Extending the range of m by one adds one to the level sum exactly when
      the new m has trend t and a level in [a, b). */
  lemma {:induction false} SumTallyStep(pv: map<int, int>, lo: int, hi: int, a: int, b: int, t: Trend)
    requires Defined(pv, lo, hi + 1) && lo <= hi
    ensures SumTally(pv, lo, hi + 1, a, b, t) == SumTally(pv, lo, hi, a, b, t)
      + (if TrendAt(pv, hi) == t && a <= pv[hi] < b then 1 else 0)
    decreases b - a
  {
    DefinedPrefix(pv, lo, hi + 1, hi);
    if b > a {
      SumTallyStep(pv, lo, hi, a, b - 1, t);
    }
  }

  /** Summed over all levels, the counters of trend t total the length of
      the list of trend t. */
  lemma {:induction false} SumTallyIsLength(pv: map<int, int>, lo: int, hi: int, a: int, b: int, t: Trend)
    requires Defined(pv, lo, hi) && lo <= hi
    requires forall m :: lo <= m < hi ==> a <= pv[m] < b
    ensures SumTally(pv, lo, hi, a, b, t) == |Indices(pv, lo, hi, t)|
    decreases hi - lo
  {
    if hi == lo {
      ZeroSum(pv, lo, hi, a, b, t);
    } else {
      DefinedPrefix(pv, lo, hi, hi - 1);
      SumTallyIsLength(pv, lo, hi - 1, a, b, t);
      SumTallyStep(pv, lo, hi - 1, a, b, t);
    }
  }

  lemma {:induction false} ZeroSum(pv: map<int, int>, lo: int, hi: int, a: int, b: int, t: Trend)
    requires Defined(pv, lo, hi) && hi <= lo
    ensures SumTally(pv, lo, hi, a, b, t) == 0
    decreases b - a
  {
    if b > a {
      ZeroSum(pv, lo, hi, a, b - 1, t);
    }
  }

  /** Summed over all levels and trends, the counters total hi - lo. */
  lemma AllTalliesTotal(pv: map<int, int>, lo: int, hi: int, a: int, b: int)
    requires Defined(pv, lo, hi) && lo <= hi
    requires forall m :: lo <= m < hi ==> a <= pv[m] < b
    ensures SumTally(pv, lo, hi, a, b, Decrease) + SumTally(pv, lo, hi, a, b, Increase)
          + SumTally(pv, lo, hi, a, b, Equality) == hi - lo
  {
    SumTallyIsLength(pv, lo, hi, a, b, Decrease);
    SumTallyIsLength(pv, lo, hi, a, b, Increase);
    SumTallyIsLength(pv, lo, hi, a, b, Equality);
    TrendLengths(pv, lo, hi);
  }

  /** The histogram update of one m: the counter of trend t at level
      `level` goes up by one, creating the level with zero counters first
      when it is missing. */
  function Record(freq: map<int, LevelCounts>, level: int, t: Trend): map<int, LevelCounts>
  {
    freq[level := Bump(Level(freq, level), t)]
  }

  /** Extending the range by one adds one to the tally of the level and
      trend of hi and leaves every other tally as it is. */
  lemma TallyStep(pv: map<int, int>, lo: int, hi: int, l: int, t: Trend)
    requires lo <= hi && Defined(pv, lo, hi + 1) && Defined(pv, lo, hi)
    ensures Tally(pv, lo, hi + 1, l, t)
         == Tally(pv, lo, hi, l, t) + (if pv[hi] == l && TrendOf(pv[hi], pv[hi + 1]) == t then 1 else 0)
  {
  }

  /** Recording trend t at `level` adds one to that one counter and leaves
      every other counter of every level as it is. */
  lemma RecordGet(freq: map<int, LevelCounts>, level: int, t: Trend, l: int, u: Trend)
    ensures Get(Level(Record(freq, level, t), l), u)
         == Get(Level(freq, l), u) + (if l == level && u == t then 1 else 0)
  {
  }

  /** The loop step of the histogram pass over [lo, hi) for the counter of
      trend u at level l: if it holds its value in freq0 plus the tally of
      [lo, hi), then after recording hi it holds that plus the tally of
      [lo, hi + 1). */
  lemma RecordStep(pv: map<int, int>, lo: int, hi: int, freq0: map<int, LevelCounts>,
                   freq: map<int, LevelCounts>, l: int, u: Trend)
    requires lo <= hi && Defined(pv, lo, hi + 1) && Defined(pv, lo, hi)
    requires hi in pv && hi + 1 in pv
    requires Get(Level(freq, l), u) == Get(Level(freq0, l), u) + Tally(pv, lo, hi, l, u)
    ensures Get(Level(Record(freq, pv[hi], TrendOf(pv[hi], pv[hi + 1])), l), u)
         == Get(Level(freq0, l), u) + Tally(pv, lo, hi + 1, l, u)
  {
    TallyStep(pv, lo, hi, l, u);
    RecordGet(freq, pv[hi], TrendOf(pv[hi], pv[hi + 1]), l, u);
  }

  lemma LevelTotalStep(pv: map<int, int>, lo: int, hi: int, l: int)
    requires lo <= hi && Defined(pv, lo, hi + 1) && Defined(pv, lo, hi)
    ensures LevelTotal(pv, lo, hi + 1, l) == LevelTotal(pv, lo, hi, l) + (if pv[hi] == l then 1 else 0)
  {
  }

  // ---------------------------------------------------------------------
  // The counting index j_M.

  /** The number of elements of s that are at most bound. */
  function CountAtMost(s: seq<int>, bound: int): (c: nat)
    ensures c <= |s|
  {
    if s == [] then 0
    else CountAtMost(s[..|s| - 1], bound) + (if s[|s| - 1] <= bound then 1 else 0)
  }

  /** The count is monotone in the bound: raising M never lowers j_M. */
  lemma {:induction false} CountAtMostMono(s: seq<int>, a: int, b: int)
    requires a <= b
    ensures CountAtMost(s, a) <= CountAtMost(s, b)
    decreases |s|
  {
    if s != [] {
      CountAtMostMono(s[..|s| - 1], a, b);
    }
  }

  /** On an ascending sequence, a prefix of length j all at most the bound,
      followed by an element above it (or by the end), holds exactly the
      elements at most the bound. */
  lemma {:induction false} CountAtMostPrefix(s: seq<int>, bound: int, j: int)
    requires Ascending(s) && 0 <= j <= |s|
    requires forall i :: 0 <= i < j ==> s[i] <= bound
    requires j < |s| ==> s[j] > bound
    ensures CountAtMost(s, bound) == j
    decreases |s|
  {
    if s != [] {
      var init := s[..|s| - 1];
      assert Ascending(init);
      if j == |s| {
        CountAtMostPrefix(init, bound, j - 1);
      } else {
        assert s[|s| - 1] >= s[j];
        CountAtMostPrefix(init, bound, j);
      }
    }
  }
}

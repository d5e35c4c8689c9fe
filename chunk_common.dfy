// The parts that optimal_partitions_exact_chunked.c and
// optimal_partitions_chunked_fixed.c share word for word: the Factorization
// record, the compact "a*b*c" serialiser, the three global sequence
// counters and the classification block of process_chunk.
module ChunkCommon {
  import opened Partitions
  import opened Classification
  import opened DivisorSearch

  const IntMax := 2147483647
  const IntMin := -2147483648
  /** LLONG_MAX. */
  const LLongMax := 9223372036854775807
  /** 3037000499^2, the largest square that fits a long long: the long
      long k = 2 loop computes d * d for d up to the square root of n, and
      one step further when n has no split, where 3037000500^2 overflows. */
  const SplitBound := 3037000499 * 3037000499

  /** The C struct { int factors[MAX_FACTORS]; int count; }, passed by
      pointer and filled in place by the searches. */
  class Factorization {
    const factors: array<int>
    var count: int

    constructor (capacity: nat)
      ensures factors.Length == capacity && fresh(factors) && count == 0
    {
      factors := new int[capacity](_ => 0);
      count := 0;
    }
  }

  // ---------------------------------------------------------------------
  // Decimal text, as printed by %d.

  function DigitChar(d: int): char
    requires 0 <= d < 10
  {
    ('0' as int + d) as char
  }

  function DigitValue(c: char): int
  {
    c as int - '0' as int
  }

  /** The decimal digits of x, without leading zeros. */
  function NatToString(x: nat): (s: string)
    ensures |s| >= 1
    ensures forall i :: 0 <= i < |s| ==> '0' <= s[i] <= '9'
    decreases x
  {
    if x < 10 then [DigitChar(x)] else NatToString(x / 10) + [DigitChar(x % 10)]
  }

  /** %d: a minus sign for a negative value, then the digits. */
  function IntToString(x: int): (s: string)
    ensures |s| >= 1 && forall i :: 0 <= i < |s| ==> s[i] != '*'
  {
    if x < 0 then "-" + NatToString(-x) else NatToString(x)
  }

  function ParseNat(s: string): int
    decreases |s|
  {
    if s == [] then 0 else ParseNat(s[..|s| - 1]) * 10 + DigitValue(s[|s| - 1])
  }

  function ParseInt(s: string): int
  {
    if |s| > 0 && s[0] == '-' then -ParseNat(s[1..]) else ParseNat(s)
  }

  lemma {:induction false} ParseNatToString(x: nat)
    ensures ParseNat(NatToString(x)) == x
    decreases x
  {
    var s := NatToString(x);
    if x >= 10 {
      ParseNatToString(x / 10);
      assert s[..|s| - 1] == NatToString(x / 10);
    }
  }

  /** Reading back the text of %d gives the value. */
  lemma ParseIntToString(x: int)
    ensures ParseInt(IntToString(x)) == x
  {
    if x < 0 {
      ParseNatToString(-x);
      assert IntToString(x)[1..] == NatToString(-x);
    } else {
      ParseNatToString(x);
    }
  }

  lemma {:induction false} NatToStringLength(x: nat, d: nat)
    requires d >= 1 && x < Pow(10, d)
    ensures |NatToString(x)| <= d
    decreases d
  {
    if x >= 10 {
      assert Pow(10, d) == 10 * Pow(10, d - 1);
      NatToStringLength(x / 10, d - 1);
    }
  }

  /** An int prints in at most 11 characters. */
  lemma IntToStringLength(x: int)
    requires IntMin <= x <= IntMax
    ensures |IntToString(x)| <= 11
  {
    assert Pow(10, 10) == 10000000000;
    if x < 0 {
      NatToStringLength(-x, 10);
    } else {
      NatToStringLength(x, 10);
    }
  }

  // ---------------------------------------------------------------------
  // factorization_to_string_compact.

  /** The text the loop appends for factor i: "*" before every factor but
      the first, then its decimal form. */
  function Token(x: int, i: int): string
  {
    (if i > 0 then "*" else "") + IntToString(x)
  }

  /** The factors xs joined with "*". */
  function Joined(xs: seq<int>): string
  {
    if xs == [] then "" else Joined(xs[..|xs| - 1]) + Token(xs[|xs| - 1], |xs| - 1)
  }

  /** The index of the last '*' of s, or -1 when there is none. */
  function LastStar(s: string): (i: int)
    ensures -1 <= i < |s|
    ensures i >= 0 ==> s[i] == '*'
    ensures forall j :: i < j < |s| ==> s[j] != '*'
  {
    if s == [] then -1 else if s[|s| - 1] == '*' then |s| - 1 else LastStar(s[..|s| - 1])
  }

  /** Split s at the '*' signs and read every piece as a decimal. */
  function ParseFactors(s: string): seq<int>
    decreases |s|
  {
    if s == [] then []
    else
      var i := LastStar(s);
      if i < 0 then [ParseInt(s)] else ParseFactors(s[..i]) + [ParseInt(s[i + 1..])]
  }

  /** The last '*' of pre + "*" + d, when d has none, is the one added. */
  lemma LastStarOfToken(pre: string, d: string)
    requires forall i :: 0 <= i < |d| ==> d[i] != '*'
    ensures LastStar(pre + "*" + d) == |pre|
  {
    var s := pre + "*" + d;
    var i := LastStar(s);
    assert s[|pre|] == '*';
  }

  lemma SplitAtToken(pre: string, d: string)
    requires forall i :: 0 <= i < |d| ==> d[i] != '*'
    ensures ParseFactors(pre + "*" + d) == ParseFactors(pre) + [ParseInt(d)]
  {
    var s := pre + "*" + d;
    LastStarOfToken(pre, d);
    assert s[..|pre|] == pre;
    assert s[|pre| + 1..] == d;
  }

  lemma JoinedSnoc(xs: seq<int>)
    requires |xs| >= 2
    ensures Joined(xs) == Joined(xs[..|xs| - 1]) + "*" + IntToString(xs[|xs| - 1])
  {
  }

  lemma InitLast<T>(xs: seq<T>)
    requires |xs| >= 1
    ensures xs == xs[..|xs| - 1] + [xs[|xs| - 1]]
  {
  }

  /** The serialised form reads back as the factors it was made from. */
  lemma {:induction false} ParseJoined(xs: seq<int>)
    ensures ParseFactors(Joined(xs)) == xs
    decreases |xs|
  {
    if xs != [] {
      var init, x := xs[..|xs| - 1], xs[|xs| - 1];
      ParseIntToString(x);
      if init == [] {
        assert Joined(xs) == IntToString(x);
        assert LastStar(IntToString(x)) == -1;
        assert ParseFactors(IntToString(x)) == [ParseInt(IntToString(x))];
        assert xs == [x];
      } else {
        ParseJoined(init);
        JoinedSnoc(xs);
        SplitAtToken(Joined(init), IntToString(x));
        InitLast(xs);
      }
    }
  }

  /** The number of leading factors the loop writes when it starts at
      factor j: it goes on while there is room for another token (and the
      text so far is shorter than maxLen - 10). */
  function FitFrom(xs: seq<int>, maxLen: int, j: nat): (k: nat)
    requires j <= |xs|
    ensures j <= k <= |xs|
    decreases |xs| - j
  {
    if j < |xs| && |Joined(xs[..j])| < maxLen - 10
       && |Joined(xs[..j])| + |Token(xs[j], j)| < maxLen - 1
    then FitFrom(xs, maxLen, j + 1)
    else j
  }

  /** The text written for a factorization whose count is |xs|. */
  function Compact(xs: seq<int>, maxLen: int): string
  {
    if |xs| == 0 then (if maxLen >= 2 then "1" else "")
    else if |xs| == 1 then
      var d := IntToString(xs[0]);
      if |d| <= maxLen - 1 then d else d[..if maxLen >= 1 then maxLen - 1 else 0]
    else Joined(xs[..FitFrom(xs, maxLen, 0)])
  }

  lemma JoinedStep(xs: seq<int>, i: int)
    requires 0 <= i < |xs|
    ensures Joined(xs[..i + 1]) == Joined(xs[..i]) + Token(xs[i], i)
  {
    assert xs[..i + 1][..i] == xs[..i];
  }

  /** factorization_to_string_compact(fact, str, max_len). The factors
      are C ints, so %d needs at most 11 characters and the 16-byte token
      buffer never truncates. */
  method FactorizationToStringCompact(fact: Factorization, maxLen: int) returns (s: string)
    requires maxLen >= 1 && 0 <= fact.count <= fact.factors.Length
    requires forall i :: 0 <= i < fact.count ==> IntMin <= fact.factors[i] <= IntMax
    ensures s == Compact(fact.factors[..fact.count], maxLen)
  {
    ghost var xs := fact.factors[..fact.count];
    if fact.count == 0 {
      return if maxLen >= 2 then "1" else "";
    }
    if fact.count == 1 {
      var d := IntToString(fact.factors[0]);
      return if |d| <= maxLen - 1 then d else d[..maxLen - 1];
    }
    s := "";
    var currentLen := 0;
    var i := 0;
    while i < fact.count && currentLen < maxLen - 10
      invariant 0 <= i <= fact.count
      invariant s == Joined(xs[..i]) && currentLen == |s|
      invariant FitFrom(xs, maxLen, i) == FitFrom(xs, maxLen, 0)
    {
      IntToStringLength(fact.factors[i]);
      var temp := Token(fact.factors[i], i);
      assert |temp| < 16;
      var tempLen := |temp|;
      JoinedStep(xs, i);
      if currentLen + tempLen < maxLen - 1 {
        s := s + temp;
        currentLen := currentLen + tempLen;
      } else {
        break;
      }
      i := i + 1;
    }
    assert FitFrom(xs, maxLen, i) == i;
    assert xs[..FitFrom(xs, maxLen, 0)] == xs[..i];
  }

  /** The greedy prefix is whole tokens and, unless empty, leaves room for
      the terminating NUL: shorter than maxLen - 1. */
  lemma {:induction false} FitFromShort(xs: seq<int>, maxLen: int, j: nat)
    requires j <= |xs| && (j == 0 || |Joined(xs[..j])| < maxLen - 1)
    ensures var k := FitFrom(xs, maxLen, j); k == 0 || |Joined(xs[..k])| < maxLen - 1
    decreases |xs| - j
  {
    if j < |xs| && |Joined(xs[..j])| < maxLen - 10
       && |Joined(xs[..j])| + |Token(xs[j], j)| < maxLen - 1 {
      assert FitFrom(xs, maxLen, j) == FitFrom(xs, maxLen, j + 1);
      JoinedStep(xs, j);
      FitFromShort(xs, maxLen, j + 1);
    } else {
      assert FitFrom(xs, maxLen, j) == j;
    }
  }

  /** What factorization_to_string_compact writes: "1" for no factors, the
      single factor's decimal form (whole when it fits), and otherwise a
      "*"-joined prefix of the factors, shorter than maxLen - 1, that
      reads back as that prefix. */
  lemma CompactMeaning(xs: seq<int>, maxLen: int)
    requires maxLen >= 2
    ensures |xs| == 0 ==> Compact(xs, maxLen) == "1"
    ensures |xs| == 1 && |IntToString(xs[0])| < maxLen ==> ParseInt(Compact(xs, maxLen)) == xs[0]
    ensures |xs| >= 2 ==>
      exists k :: 0 <= k <= |xs| && ParseFactors(Compact(xs, maxLen)) == xs[..k] &&
        (k == 0 || |Compact(xs, maxLen)| < maxLen - 1)
  {
    if |xs| == 1 {
      ParseIntToString(xs[0]);
    }
    if |xs| >= 2 {
      var k := FitFrom(xs, maxLen, 0);
      FitFromShort(xs, maxLen, 0);
      ParseJoined(xs[..k]);
    }
  }

  /** With room for 12 characters per factor and the 10 the loop keeps
      in reserve, nothing is cut off. */
  lemma {:induction false} CompactWholeFits(xs: seq<int>, maxLen: int, j: nat)
    requires 12 * |xs| + 10 <= maxLen && j <= |xs|
    requires forall i :: 0 <= i < |xs| ==> IntMin <= xs[i] <= IntMax
    requires |Joined(xs[..j])| <= 12 * j
    ensures FitFrom(xs, maxLen, j) == |xs|
    decreases |xs| - j
  {
    if j < |xs| {
      IntToStringLength(xs[j]);
      JoinedStep(xs, j);
      CompactWholeFits(xs, maxLen, j + 1);
    }
  }

  /** A factor of a product of positive integers is at most the product. */
  lemma FactorAtMost(s: seq<int>, i: int)
    requires AllAtLeast(s, 1) && 0 <= i < |s|
    ensures 1 <= s[i] <= Product(s)
  {
    var rest := s[..i] + s[i + 1..];
    ProductRemove(s, i);
    assert AllAtLeast(rest, 1) by {
      forall j | 0 <= j < |rest| ensures rest[j] >= 1 {
        if j < i { assert rest[j] == s[j]; } else { assert rest[j] == s[j + 1]; }
      }
    }
    ProductLowerBound(rest, 1);
    MulPositive(s[i], Product(rest));
  }

  /** What the factorization text of row n says: its decimal form when
      P(n) = k = 1, and otherwise k factors, each at least k, of product n. */
  ghost predicate ShowsPartition(text: string, n: int, k: int)
  {
    (k == 1 && ParseInt(text) == n) || (k >= 2 && IsWitness(ParseFactors(text), n, k, k))
  }

  /** The serialised form of a partition of an int n into k factors, in a
      buffer with 12 characters per factor to spare, reads back as that
      partition. */
  lemma CompactShowsPartition(xs: seq<int>, n: int, k: int, maxLen: int)
    requires k >= 1 && IsWitness(xs, n, k, k) && n <= IntMax && 12 * k + 10 <= maxLen
    ensures ShowsPartition(Compact(xs, maxLen), n, k)
  {
    forall i | 0 <= i < |xs| ensures IntMin <= xs[i] <= IntMax {
      FactorAtMost(xs, i);
    }
    if k == 1 {
      assert Product(xs) == xs[0] * Product(xs[1..]) && xs[1..] == [];
      IntToStringLength(xs[0]);
      ParseIntToString(xs[0]);
    } else {
      assert Joined(xs[..0]) == "";
      CompactWholeFits(xs, maxLen, 0);
      assert xs[..|xs|] == xs;
      ParseJoined(xs);
    }
  }

  // ---------------------------------------------------------------------
  // The global counters and the classification block of process_chunk.

  /** static long long global_d_count, global_e_count, global_i_count. */
  class Counters {
    var decrease: int
    var equality: int
    var increase: int

    constructor ()
      ensures decrease == 0 && equality == 0 && increase == 0
    {
      decrease, equality, increase := 0, 0, 0;
    }

    function Value(t: Trend): int
      reads this
    {
      Pick(t, decrease, equality, increase)
    }
  }

  /** The counter of trend t among the three d, e, i. */
  function Pick(t: Trend, d: int, e: int, i: int): int
  {
    match t
    case Decrease => d
    case Equality => e
    case Increase => i
  }

  /** The number of occurrences of t in ts. */
  function Occurrences(ts: seq<Trend>, t: Trend): (c: nat)
    ensures c <= |ts|
  {
    if ts == [] then 0 else Occurrences(ts[..|ts| - 1], t) + (if ts[|ts| - 1] == t then 1 else 0)
  }

  lemma OccurrencesStep(ts: seq<Trend>, i: int, t: Trend)
    requires 0 <= i < |ts|
    ensures Occurrences(ts[..i + 1], t) == Occurrences(ts[..i], t) + (if ts[i] == t then 1 else 0)
  {
    assert ts[..i + 1][..i] == ts[..i];
  }

  /** The three counts of a row list add up to its length: every row
      bumps exactly one counter. */
  lemma {:induction false} OccurrencesTotal(ts: seq<Trend>)
    ensures Occurrences(ts, Decrease) + Occurrences(ts, Equality) + Occurrences(ts, Increase) == |ts|
    decreases |ts|
  {
    if ts != [] {
      OccurrencesTotal(ts[..|ts| - 1]);
    }
  }

  /** The trend of every n, P(n) against P(n + 1), over a list of
      consecutive partition numbers. */
  function Trends(pv: seq<int>): (ts: seq<Trend>)
    requires |pv| >= 1
    ensures |ts| == |pv| - 1
  {
    seq(|pv| - 1, i requires 0 <= i < |pv| - 1 => TrendOf(pv[i], pv[i + 1]))
  }

  /** The pair that row i of a chunk compares, as written: the first row of
      a chunk that is not the first compares the previous chunk's last P
      with this chunk's first P. */
  function RowPair(pv: seq<int>, isFirst: bool, prevP: int, i: int): (int, int)
    requires 0 <= i < |pv| - 1
  {
    if i == 0 && !isFirst then (prevP, pv[0]) else (pv[i], pv[i + 1])
  }

  /** The trends process_chunk records for the rows of one chunk, given
      P(start_n .. end_n + 1). */
  function ChunkTrends(pv: seq<int>, isFirst: bool, prevP: int): (ts: seq<Trend>)
    requires |pv| >= 1
    ensures |ts| == |pv| - 1
  {
    seq(|pv| - 1, i requires 0 <= i < |pv| - 1 =>
      TrendOf(RowPair(pv, isFirst, prevP, i).0, RowPair(pv, isFirst, prevP, i).1))
  }

  /** One CSV row without its factorization text: n, the P value printed,
      the sequence type and its index. */
  datatype Row = Row(n: int, p: int, trend: Trend, index: int)

  /** The P value row i of a chunk shows: the first of the pair it
      compares. */
  function Shown(pv: seq<int>, isFirst: bool, prevP: int, i: int): int
    requires 0 <= i < |pv|
  {
    if i == 0 && !isFirst then prevP else pv[i]
  }

  /** Row j of a chunk is numbered start_n + j, shows the first P of its
      pair and carries the running count of its trend ts[j] over all rows
      written so far, the counters starting at d0, e0 and i0. */
  ghost predicate RowsFit(rows: seq<Row>, pv: seq<int>, ts: seq<Trend>, startN: int, isFirst: bool,
                          prevP: int, d0: int, e0: int, i0: int)
    requires |rows| <= |ts| < |pv|
  {
    forall j :: 0 <= j < |rows| ==>
      rows[j] == Row(startN + j, Shown(pv, isFirst, prevP, j), ts[j],
                     Pick(ts[j], d0, e0, i0) + Occurrences(ts[..j + 1], ts[j]))
  }

  /** One row of the classification loop. */
  lemma RowStep(rows: seq<Row>, pv: seq<int>, ts: seq<Trend>, startN: int, isFirst: bool, prevP: int,
                d0: int, e0: int, i0: int, d: int, e: int, inc: int, row: Row)
    requires |rows| < |ts| < |pv| && RowsFit(rows, pv, ts, startN, isFirst, prevP, d0, e0, i0)
    requires d == d0 + Occurrences(ts[..|rows|], Decrease) && e == e0 + Occurrences(ts[..|rows|], Equality)
    requires inc == i0 + Occurrences(ts[..|rows|], Increase)
    requires row == Row(startN + |rows|, Shown(pv, isFirst, prevP, |rows|), ts[|rows|],
                        Pick(ts[|rows|], d, e, inc) + 1)
    ensures RowsFit(rows + [row], pv, ts, startN, isFirst, prevP, d0, e0, i0)
  {
    var i := |rows|;
    OccurrencesStep(ts, i, ts[i]);
    assert row.index == Pick(ts[i], d0, e0, i0) + Occurrences(ts[..i + 1], ts[i]) by {
      match ts[i]
      case Decrease =>
      case Equality =>
      case Increase =>
    }
    var rows' := rows + [row];
    forall j | 0 <= j < |rows'|
      ensures rows'[j] == Row(startN + j, Shown(pv, isFirst, prevP, j), ts[j],
                              Pick(ts[j], d0, e0, i0) + Occurrences(ts[..j + 1], ts[j]))
    {
      if j < i {
        assert rows'[j] == rows[j];
      }
    }
  }

  lemma CountsStep(ts: seq<Trend>, i: int, d0: int, e0: int, i0: int, d: int, e: int, inc: int)
    requires 0 <= i < |ts|
    requires d == d0 + Occurrences(ts[..i], Decrease) && e == e0 + Occurrences(ts[..i], Equality)
    requires inc == i0 + Occurrences(ts[..i], Increase)
    ensures (if ts[i] == Decrease then d + 1 else d) == d0 + Occurrences(ts[..i + 1], Decrease)
    ensures (if ts[i] == Equality then e + 1 else e) == e0 + Occurrences(ts[..i + 1], Equality)
    ensures (if ts[i] == Increase then inc + 1 else inc) == i0 + Occurrences(ts[..i + 1], Increase)
  {
    OccurrencesStep(ts, i, Decrease);
    OccurrencesStep(ts, i, Equality);
    OccurrencesStep(ts, i, Increase);
  }

  /** The body of the classification loop for row i: the pair compared,
      the row written and the counter bumped. */
  method ClassifyOne(pv: seq<int>, startN: int, isFirst: bool, prevP: int, i: int, d: int, e: int, inc: int)
    returns (row: Row, d': int, e': int, inc': int)
    requires 0 <= i < |pv| - 1
    ensures var t := ChunkTrends(pv, isFirst, prevP)[i];
      row == Row(startN + i, Shown(pv, isFirst, prevP, i), t, Pick(t, d, e, inc) + 1) &&
      d' == (if t == Decrease then d + 1 else d) && e' == (if t == Equality then e + 1 else e) &&
      inc' == (if t == Increase then inc + 1 else inc)
  {
    var pN := pv[i];
    var pNext := pv[i + 1];
    if i == 0 && !isFirst {
      pNext := pv[i];
      pN := prevP;
    }
    var seqType := TrendOf(pN, pNext);
    row := Row(startN + i, pN, seqType, Pick(seqType, d, e, inc) + 1);
    d', e', inc' := d, e, inc;
    if pN > pNext {
      d' := d + 1;
    } else if pN == pNext {
      e' := e + 1;
    } else {
      inc' := inc + 1;
    }
  }

  /** The loop of the classification block over the chunk's P values pv
      (P(start_n .. end_n + 1)), with the counters starting at d0, e0, i0. */
  method ClassifyRows(pv: seq<int>, startN: int, isFirst: bool, prevP: int, d0: int, e0: int, i0: int)
    returns (rows: seq<Row>, d: int, e: int, inc: int)
    requires |pv| >= 2
    ensures |rows| == |pv| - 1
    ensures RowsFit(rows, pv, ChunkTrends(pv, isFirst, prevP), startN, isFirst, prevP, d0, e0, i0)
    ensures var ts := ChunkTrends(pv, isFirst, prevP);
      d == d0 + Occurrences(ts, Decrease) && e == e0 + Occurrences(ts, Equality) &&
      inc == i0 + Occurrences(ts, Increase)
  {
    ghost var ts := ChunkTrends(pv, isFirst, prevP);
    d, e, inc := d0, e0, i0;
    var chunkSize := |pv| - 1;
    rows := [];
    var i := 0;
    while i < chunkSize
      invariant 0 <= i <= chunkSize && |rows| == i
      invariant RowsFit(rows, pv, ts, startN, isFirst, prevP, d0, e0, i0)
      invariant d == d0 + Occurrences(ts[..i], Decrease) && e == e0 + Occurrences(ts[..i], Equality)
      invariant inc == i0 + Occurrences(ts[..i], Increase)
    {
      var row, d', e', inc' := ClassifyOne(pv, startN, isFirst, prevP, i, d, e, inc);
      RowStep(rows, pv, ts, startN, isFirst, prevP, d0, e0, i0, d, e, inc, row);
      CountsStep(ts, i, d0, e0, i0, d, e, inc);
      d, e, inc := d', e', inc';
      rows := rows + [row];
      i := i + 1;
    }
    assert ts[..i] == ts;
  }

  /** The classification and counter block of process_chunk, as written:
      pValues holds P(start_n .. end_n + 1). Every row bumps the global
      counter of its trend and carries the new value; the chunk's last P
      is handed on to the next chunk. */
  method ClassifyChunk(pValues: array<int>, startN: int, isFirst: bool, prevP: int, counters: Counters)
    returns (rows: seq<Row>, lastP: int)
    requires pValues.Length >= 2
    modifies counters
    ensures |rows| == pValues.Length - 1
    ensures RowsFit(rows, pValues[..], ChunkTrends(pValues[..], isFirst, prevP), startN, isFirst, prevP,
                    old(counters.decrease), old(counters.equality), old(counters.increase))
    ensures var ts := ChunkTrends(pValues[..], isFirst, prevP);
      counters.decrease == old(counters.decrease) + Occurrences(ts, Decrease) &&
      counters.equality == old(counters.equality) + Occurrences(ts, Equality) &&
      counters.increase == old(counters.increase) + Occurrences(ts, Increase)
    ensures lastP == pValues[pValues.Length - 2]
  {
    var d, e, inc;
    rows, d, e, inc := ClassifyRows(pValues[..], startN, isFirst, prevP,
                                    counters.decrease, counters.equality, counters.increase);
    counters.decrease, counters.equality, counters.increase := d, e, inc;
    lastP := pValues[pValues.Length - 2];
  }

  /** The classification block without the boundary override: every row n
      compares P(n) with P(n + 1), the last of which process_chunk already
      computes for the boundary. */
  method ClassifyChunkCorrected(pValues: array<int>, startN: int, counters: Counters)
    returns (rows: seq<Row>, lastP: int)
    requires pValues.Length >= 2
    modifies counters
    ensures var ts := Trends(pValues[..]);
      |rows| == |ts| &&
      (forall i :: 0 <= i < |rows| ==>
        rows[i] == Row(startN + i, pValues[i], ts[i], old(counters.Value(ts[i])) + Occurrences(ts[..i + 1], ts[i])))
    ensures var ts := Trends(pValues[..]);
      forall t :: counters.Value(t) == old(counters.Value(t)) + Occurrences(ts, t)
    ensures lastP == pValues[pValues.Length - 2]
  {
    rows, lastP := ClassifyChunk(pValues, startN, true, 0, counters);
    ChunkTrendsFirst(pValues[..], 0);
  }

  /** Without the override the recorded trends are the true ones. */
  lemma ChunkTrendsFirst(pv: seq<int>, prevP: int)
    requires |pv| >= 1
    ensures ChunkTrends(pv, true, prevP) == Trends(pv)
  {
  }

  /** Corrected chunks compose: classifying [a, b) and [b, c) separately
      gives the trends of [a, c), so the split into chunks is invisible. */
  lemma TrendsSplit(p: seq<int>, a: int, b: int, c: int)
    requires 0 <= a <= b <= c < |p|
    ensures Trends(p[a..c + 1]) == Trends(p[a..b + 1]) + Trends(p[b..c + 1])
  {
  }

  /** As written, the first row of a later chunk records again the trend of
      the previous chunk's last row, P(b - 1) against P(b). */
  lemma BoundaryRowRepeats(p: seq<int>, a: int, b: int, c: int)
    requires 0 <= a < b < c < |p|
    ensures ChunkTrends(p[b..c + 1], false, p[b - 1])[0] == Trends(p[a..b + 1])[b - 1 - a]
  {
    var left := p[a..b + 1];
    assert left[b - 1 - a] == p[b - 1] && left[b - a] == p[b];
    assert Trends(left)[b - 1 - a] == TrendOf(p[b - 1], p[b]);
    assert p[b..c + 1][0] == p[b];
  }

  /** P(1) .. P(8) = 1, 1, 1, 2, 1, 2, 1, 2. */
  lemma PartitionNumbersToEight()
    ensures IsPartitionNumber(1, 1) && IsPartitionNumber(2, 1) && IsPartitionNumber(3, 1)
    ensures IsPartitionNumber(4, 2) && IsPartitionNumber(5, 1) && IsPartitionNumber(6, 2)
    ensures IsPartitionNumber(7, 1) && IsPartitionNumber(8, 2)
  {
    SmallPartitionNumbers();
    PrimePartitionNumber(2);
    PrimePartitionNumber(3);
    PrimePartitionNumber(5);
    PrimePartitionNumber(7);
    assert IsWitness([2, 3], 6, 2, 2);
    assert Pow(3, 3) == 27;
    NoneFromPowBound(6, 3);
  }

  /** With chunks [1, 3] and [4, 7] the row of n = 4 is recorded as an
      increase (P(3) = 1 against P(4) = 2, the trend of n = 3 once more)
      and prints P = 1, where P(4) = 2 > P(5) = 1 is a decrease; the two
      chunks together disagree with the trends of [1, 7]. */
  lemma BoundaryCounterexample()
    ensures var p := [1, 1, 1, 2, 1, 2, 1, 2];
      var first := p[0..4];
      var second := p[3..8];
      ChunkTrends(second, false, first[2])[0] == Increase &&
      Trends(second)[0] == Decrease &&
      RowPair(second, false, first[2], 0).0 == 1 && second[0] == 2 &&
      ChunkTrends(first, true, 0) + ChunkTrends(second, false, first[2]) != Trends(p)
  {
    var p := [1, 1, 1, 2, 1, 2, 1, 2];
    var second := p[3..8];
    assert ChunkTrends(second, false, p[2])[0] == Increase;
    assert Trends(p)[3] == Decrease;
    assert (ChunkTrends(p[0..4], true, 0) + ChunkTrends(second, false, p[2]))[3] == Increase;
  }

  // ---------------------------------------------------------------------
  // The k = 2 fast path shared by both engines.

  /** Some split n = s * (n / s) with 2 <= s and s * s <= n exists whenever
      n has a two-factor partition. */
  lemma SmallSplit(n: int) returns (s: int)
    requires Feasible(n, 2, 2)
    ensures 2 <= s && s * s <= n && n % s == 0 && n / s >= 2
  {
    TwoFactors(n);
    var d :| 2 <= d <= n && n % d == 0 && n / d >= 2;
    Cofactor(n, d);
    var e := n / d;
    if d <= e {
      MulMono(d, d, d, e);
      s := d;
    } else {
      MulMono(e, e, e, d);
      s := e;
    }
  }

  /** The k = 2 scan stops at the first d with d * d > n; a split it did
      not meet does not exist. */
  lemma NoSmallSplit(n: int, d: int)
    requires d >= 2 && d * d > n
    requires forall x :: 2 <= x < d && n % x == 0 ==> n / x < 2
    ensures !Feasible(n, 2, 2)
  {
    if Feasible(n, 2, 2) {
      var s := SmallSplit(n);
      if s >= d {
        MulMono(d, s, d, s);
      }
    }
  }

  /** Where the k = 2 loop is defined, the square of the next d still fits
      a long long: either n < 3037000499^2 bounds d, or n has a split the
      loop has not reached yet, whose smaller factor bounds d. */
  lemma NextSquareFits(n: int, d: int)
    requires 0 <= n <= LLongMax && (n < SplitBound || Feasible(n, 2, 2))
    requires d >= 2 && d * d <= n
    requires forall x :: 2 <= x <= d && n % x == 0 ==> n / x < 2
    ensures (d + 1) * (d + 1) <= LLongMax
  {
    if Feasible(n, 2, 2) {
      var s := SmallSplit(n);
      MulMono(d + 1, s, d + 1, s);
    } else {
      SquareBelow(d, 3037000499);
      MulMono(d + 1, 3037000499, d + 1, 3037000499);
    }
  }

  /** a * a < b * b implies a < b for non-negative a and b. */
  lemma SquareBelow(a: int, b: int)
    requires 0 <= a && 0 <= b && a * a < b * b
    ensures a < b
  {
    if a >= b {
      MulMono(b, a, b, a);
    }
  }

  /** The stores of a found k = 2 split: factors[0], factors[1] and the
      count, nothing else. */
  method StorePair(result: Factorization, lo: int, hi: int)
    requires result.factors.Length >= 2
    modifies result, result.factors
    ensures result.factors[..2] == [lo, hi] && result.count == 2
    ensures result.factors[2..] == old(result.factors[2..])
  {
    result.factors[0] := lo;
    result.factors[1] := hi;
    result.count := 2;
  }

  /** The k = 2 fast path of can_partition_with_k_factors and of
      find_partition_k (the same loop in both engines): trial division
      by d = 2, 3, ... while d * d <= n; the first split found is stored
      smaller factor first. */
  method TwoFactorScan(n: int, result: Factorization?) returns (found: bool)
    requires 0 <= n <= LLongMax && (n < SplitBound || Feasible(n, 2, 2))
    requires result != null ==> result.factors.Length >= 2 && result.count == 0
    modifies if result != null then {result, result.factors} else {}
    ensures found <==> Feasible(n, 2, 2)
    ensures result != null ==> result.count == (if found then 2 else 0)
    ensures result != null && found ==>
      IsWitness(result.factors[..2], n, 2, 2) && result.factors[0] <= result.factors[1]
    ensures result != null && found ==>
      forall x :: 2 <= x < result.factors[0] && n % x == 0 ==> n / x < 2
    ensures result != null && found ==> result.factors[2..] == old(result.factors[2..])
    ensures result != null && !found ==> result.factors[..] == old(result.factors[..])
  {
    var lo, hi;
    found, lo, hi := SplitScan(n);
    if found && result != null {
      StorePair(result, lo, hi);
    }
  }

  /** A divisor d >= 2 of n with cofactor n / d >= 2 gives the ordered
      two-factor partition of the fast path. */
  lemma SplitWitness(n: int, d: int)
    requires d >= 2 && n % d == 0 && n / d >= 2
    ensures var lo, hi := (if d <= n / d then d else n / d), (if d <= n / d then n / d else d);
      IsWitness([lo, hi], n, 2, 2) && Feasible(n, 2, 2)
  {
    var lo, hi := (if d <= n / d then d else n / d), (if d <= n / d then n / d else d);
    DivExact(n, d);
    ProductCons(lo, [hi]);
    assert Product([lo, hi]) == n;
    assert IsWitness([lo, hi], n, 2, 2);
  }

  /** The loop of the k = 2 fast path: the first d in 2, 3, ... with
      d * d <= n that splits n into two factors >= 2, ordered. */
  method SplitScan(n: int) returns (found: bool, lo: int, hi: int)
    requires 0 <= n <= LLongMax && (n < SplitBound || Feasible(n, 2, 2))
    ensures found <==> Feasible(n, 2, 2)
    ensures found ==> IsWitness([lo, hi], n, 2, 2) && lo <= hi
    ensures found ==> forall x :: 2 <= x < lo && n % x == 0 ==> n / x < 2
  {
    var d := 2;
    while d * d <= n
      invariant d >= 2 && d * d <= LLongMax
      invariant forall x :: 2 <= x < d && n % x == 0 ==> n / x < 2
      decreases n - d
    {
      MulPositive(d, d);
      if n % d == 0 {
        var other := n / d;
        if other >= 2 {
          SplitWitness(n, d);
          lo, hi := if d <= other then d else other, if d <= other then other else d;
          return true, lo, hi;
        }
      }
      NextSquareFits(n, d);
      d := d + 1;
    }
    NoSmallSplit(n, d);
    return false, 0, 0;
  }
}

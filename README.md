# Factor-bounded partitions, modelled in Dafny

This project models the core of the `oeis_repo` partition tools. The
central quantity is the factor-bounded partition number P(n). It is the
largest k such that n is a product of exactly k integers, each at least k.
P(1) = 1, and P(n) >= 1 always, because [n] is a one-factor partition.

The repository computes P(n) in four independent ways:

- a dictionary-based backtracking search over a multiples table
  (`factor_ge_n_factor/f_n.py`, `count_le_n.py`);
- a trial-division search of a Python analyzer class
  (`multiplicative_optimal_partitions/conjecture_analyzer.py`,
  `basic_graphs.py`);
- an exact C engine with a saturating power and a fixed witness buffer
  (`optimal_partitions_exact_chunked.c`);
- a heuristic C engine that caps the answer at 4
  (`optimal_partitions_chunked_fixed.c`).

It then classifies every m by comparing P(m) with P(m + 1) as a decrease,
an increase or an equality. It counts these events per level and counts
list elements up to a bound (j_M). A separate group of scripts
(`constant_1/2/3.py`) does three things:

- sieves the primes up to N / 2;
- computes v_p(N!) by repeated division;
- sums integer quotients and remainders of v_p(N!) by ceil(log_p N).

Every engine is stated against one shared specification in `Partitions`:

- `IsWitness(s, r, f, m)`: s has f elements, each at least m, with product r.
- `Feasible(r, f, m)`: some witness exists.
- `IsPartitionNumber(n, k)`: k is feasible for n, and no j > k is.

Each search is proved sound against this specification. The Python
searches are also proved complete and maximal. The exact C engine is
proved complete and maximal below 10^12, where its candidate cap of 10^6
never cuts off a usable factor. The heuristic C engine is proved sound,
and its result is proved to be a lower bound on P(n); the inputs where it
falls short are exhibited.

Module layout, one file per source component:

| file | module | models |
|---|---|---|
| partitions.dfy | Partitions | the shared specification, powers, exact integer roots and logarithms |
| sorting.dfy | Sorting | Python's `sorted` on integer lists |
| factor_table.dfy | FactorTable | `build_factors`, `find_multiset`/`helper`, `best_multiset_for` (f_n.py) |
| count_le_n.dfy | CountLeN | `T_of`, the T array fill, `equal_consec` (count_le_n.py) |
| divisor_search.dfy | DivisorSearch | `get_divisors`, `can_partition_with_k_factors`, `_recursive_partition_check`, `partition_function` |
| classification.dfy | Classification | the three-way comparison, the index lists, the per-level tallies, the count up to a bound |
| conjecture_analyzer.dfy | ConjectureAnalyzer | the `StatisticalConjectureAnalyzer` class: `compute_sequences`, `find_j_M`, the integer part of `compute_conjecture_values` |
| basic_graphs.dfy | BasicGraphs | the `PartitionAnalyzer` class: `compute_all_values` with `level_frequencies` |
| chunk_common.dfy | ChunkCommon | what both C files share: `Factorization`, `factorization_to_string_compact`, the global counters, the classification block of `process_chunk`, the k = 2 fast path |
| exact_chunked.dfy | ExactChunked | `fast_pow_safe`, `recursive_partition_check`, `can_partition_with_k_factors`, `calculate_P_pi_exact`, `get_optimal_factorization`, the fill loop of `process_chunk` |
| chunked_fixed.dfy | ChunkedFixed | `fast_pow_small`, `find_partition_k`, `calculate_P_pi_optimized`, the fill loop of `process_chunk` |
| primes.dfy | Primes | the list sieve (constant_1.py, constant_2.py) and the bytearray slice sieve (constant_3.py) |
| legendre.dfy | Legendre | `v_p_factorial`, and Legendre's formula for it |
| constants.dfy | Constants | the integer sums `total`, `total_mod` and the integer terms of `Y_of_N` |

The modelling choices:

- Floating-point bounds are replaced by exact integer functions. These are:
  - `int(remaining ** (1.0/f)) + 1` and `pow(...)` become `IRoot(r, f) + 1`;
  - `int(math.log(n, 2)) + 1` becomes `Log2Floor(n) + 1`;
  - `int(math.sqrt(n))` becomes `IRoot(n, 2)`;
  - `math.ceil(ln N / ln p)` becomes `CeilLog(p, N)`, the least e with p^e >= N.
- `lru_cache` memoisation is modelled as the pure function it caches, one
  per (n, k).
- C `int` and `long long` limits are stated as constants:
  - `IntMax` = 2147483647;
  - `LLongMax` = 9223372036854775807;
  - `MAX_FACTORS` = 20 (exact engine) and 16 (heuristic engine);
  - the candidate cap 1000000 and the safety limit 50.
- Objects whose fields the source updates are Dafny classes with
  `modifies` clauses:
  - the two Python analyzers;
  - the C `Factorization` record;
  - the three global counters.
- Fixed buffers are arrays: the C witness buffer, the C P-value array and
  the sieve flags.

Three properties of the program as it stands:

- The C classification of `process_chunk` depends on where the chunks
  are cut (see Findings).
- The Python analyzer and the exact C engine scan k upward and keep the
  last success. Feasibility is downward closed
  (`Partitions.FeasibleDownward`), so that scan gives the same P(n) as a
  downward one, and `Partitions.PartitionNumberUnique` says the answer is
  unique. The heuristic C engine also scans upward, but it stops at its
  first failure. Its searches are not downward closed, so it can stop
  below a later success: on 101^4 it answers 2, although its k = 4
  search succeeds (`ChunkedFixed.UpwardScanStopsEarly`).
- The exact C engine finds a witness exactly when one exists only below
  its candidate cap, that is for n < 10^12; above it, only soundness is
  stated. The heuristic C engine is incomplete at k = 3
  (`ChunkedFixed.ThreeSearchMisses`) and caps its answer at 4
  (`ChunkedFixed.CapBelowPartitionNumber`).

## Model

| member | source | states |
|---|---|---|
| Partitions.IRoot | multiplicative_optimal_partitions/conjecture_analyzer.py:57 | the exact integer f-th root: y^f <= r < (y+1)^f |
| Partitions.Log2Floor | factor_ge_n_factor/f_n.py:53 | the exact binary logarithm: 2^e <= n < 2^(e+1) |
| Partitions.KBelowLog2 | factor_ge_n_factor/f_n.py:52-53 | every k >= 2 with k^k <= n is at most floor(log2 n), so starting the k scan at max_k misses no candidate |
| Partitions.PowSelfMono | multiplicative_optimal_partitions/conjecture_analyzer.py:75 | k^k is monotone in k, so stopping at the first k with k^k > n skips no candidate |
| Partitions.ProductLowerBound | factor_ge_n_factor/f_n.py:32-34 | f factors, each at least m, multiply to at least m^f |
| Partitions.FeasibleZero | multiplicative_optimal_partitions/conjecture_analyzer.py:47-48 | with no factor left, r is reachable exactly when r = 1 |
| Partitions.FeasibleOne | multiplicative_optimal_partitions/conjecture_analyzer.py:50-51 | with one factor left, r is reachable exactly when r >= m |
| Partitions.FeasiblePrune | multiplicative_optimal_partitions/conjecture_analyzer.py:53-54 | a feasible state has m^f <= r: the power prune never discards a solution |
| Partitions.FeasibleStep | multiplicative_optimal_partitions/conjecture_analyzer.py:59-62 | a divisor a >= m followed by a solution for r / a is a solution for r |
| Partitions.FeasibleFirst | factor_ge_n_factor/f_n.py:35-43 | every solution starts with a divisor a of r, m <= a <= r, whose quotient is solvable with one factor fewer |
| Partitions.FeasibleMinFactor | multiplicative_optimal_partitions/conjecture_analyzer.py:56-59 | the least factor a of a solution has a^f <= r and a * m^(f-1) <= r, so it lies under both candidate bounds |
| Partitions.FeasibleDownward | multiplicative_optimal_partitions/conjecture_analyzer.py:75-78 | if k is feasible for n then so is every j in 1..k |
| Partitions.FeasibleTrivial | multiplicative_optimal_partitions/conjecture_analyzer.py:30-31 | every n >= 1 has the one-factor partition |
| Partitions.NoneAboveWhenTwoFails | multiplicative_optimal_partitions/optimal_partitions_chunked_fixed.c:153-159 | when k = 2 is infeasible, so is every k >= 2 |
| Partitions.NoneFromPowBound | multiplicative_optimal_partitions/conjecture_analyzer.py:75 | once k^k > n, no j >= k is feasible |
| Partitions.PartitionNumberUnique | multiplicative_optimal_partitions/conjecture_analyzer.py:67-80 | the partition number is unique, so all the engines that compute it agree |
| Partitions.PartitionNumberBound | multiplicative_optimal_partitions/conjecture_analyzer.py:75 | the partition number k of n has k^k <= n |
| Partitions.PartitionNumberOne | multiplicative_optimal_partitions/conjecture_analyzer.py:36-41 | P(n) = 1 exactly when n has no split a * b with a, b >= 2 |
| Partitions.PrimePartitionNumber | multiplicative_optimal_partitions/optimal_partitions_chunked_fixed.c:146 | a prime has P = 1 |
| Partitions.SortKeepsWitness | factor_ge_n_factor/f_n.py:65 | sorting a witness leaves a witness |
| Partitions.BinaryPowStep | multiplicative_optimal_partitions/optimal_partitions_exact_chunked.c:56-68 | one square-and-multiply pass keeps result * b^exp equal to the power, and result stays between 1 and the power |
| Sorting.Sort | factor_ge_n_factor/f_n.py:65 | same length, same multiset, ascending |
| Sorting.SortDistinct | multiplicative_optimal_partitions/conjecture_analyzer.py:26 | a duplicate-free list sorts strictly ascending |
| Sorting.SortMembers | multiplicative_optimal_partitions/conjecture_analyzer.py:26 | sorting keeps exactly the same elements |
| FactorTable.DivisorsBelowSpec | factor_ge_n_factor/f_n.py:17-19 | after the passes for 2 .. i - 1, the list of m is strictly ascending and holds exactly the divisors d of m with 2 <= d < i |
| FactorTable.DivisorsBelowStable | factor_ge_n_factor/f_n.py:17-19 | passes beyond m add nothing to the list of m |
| FactorTable.FactorsSpec | factor_ge_n_factor/f_n.py:16-20 | factors[m] is strictly ascending and holds exactly the divisors of m in [2, m]; factors[1] is empty |
| FactorTable.AppendToMultiples | factor_ge_n_factor/f_n.py:18-19 | the pass for i appends i to the lists of its multiples only, and the keys stay exactly 1..n_max |
| FactorTable.BuildFactors | factor_ge_n_factor/f_n.py:11-20 | the dictionary has keys exactly 1..n_max and maps each m to its ascending divisors in [2, m]; the copy at count_le_n.py:12-18 is identical |
| FactorTable.Helper | factor_ge_n_factor/f_n.py:28-44 | a non-None result is k - depth factors, each at least k, with product remaining |
| FactorTable.TryCandidates | factor_ge_n_factor/f_n.py:35-44 | the candidate loop returns only witnesses |
| FactorTable.FindMultiset | factor_ge_n_factor/f_n.py:22-46 | a non-None result has k elements, each at least k, with product n; the copy at count_le_n.py:20-43 is identical |
| FactorTable.HelperAtFullDepth | factor_ge_n_factor/f_n.py:30-31 | at depth k, the result is [] when remaining = 1 and None otherwise |
| FactorTable.HelperPrune | factor_ge_n_factor/f_n.py:33-34 | remaining < k^(k - depth) gives None, and then no solution exists |
| FactorTable.HelperComplete | factor_ge_n_factor/f_n.py:35-44 | for remaining <= n_max, a solvable state gives a non-None result |
| FactorTable.TryComplete | factor_ge_n_factor/f_n.py:35-43 | a solvable candidate at or after position i makes the loop from i succeed |
| FactorTable.FindMultisetCorrect | factor_ge_n_factor/f_n.py:46 | for n <= n_max, find_multiset succeeds exactly when a k-factor partition with factors >= k exists |
| FactorTable.AboveMaxK | factor_ge_n_factor/f_n.py:53 | no k above floor(log2 n) + 1 is feasible |
| FactorTable.MaxK | factor_ge_n_factor/f_n.py:53 | max_k is at least 1, and at least 2 for n > 1 |
| FactorTable.BestMultisetFor | factor_ge_n_factor/f_n.py:48-65 | A is ascending with best_k elements and product n; k >= 2 means k^k <= n and k is feasible; k = 1 means A = [n]; with the table covering n, best_k = P(n) |
| CountLeN.TOf | factor_ge_n_factor/count_le_n.py:45-57 | T(n) = 1 for n <= 1; a result k >= 2 is feasible with k^k <= n; with the table covering n, T(n) = P(n) |
| CountLeN.ComputeT | factor_ge_n_factor/count_le_n.py:66-68 | T has N_max + 2 entries, T[0] = 0, and T[n] = P(n) for every n in [1, N_max + 1] |
| CountLeN.EqualConsec | factor_ge_n_factor/count_le_n.py:71 | strictly ascending; it holds exactly the n in [1, N_max) with T[n] = T[n + 1] |
| CountLeN.EqualConsecMeansEqualP | factor_ge_n_factor/count_le_n.py:71 | on the filled table, n is listed exactly when 1 <= n < N_max and P(n) = P(n + 1) |
| DivisorSearch.SqrtSplit | multiplicative_optimal_partitions/conjecture_analyzer.py:21 | every divisor d of n has d or n / d at most isqrt(n), so the scan to isqrt(n) meets every divisor |
| DivisorSearch.SmallDivisor | multiplicative_optimal_partitions/conjecture_analyzer.py:24-25 | a divisor i <= isqrt(n) has n / i >= i, so the pair is appended in order |
| DivisorSearch.DivisorsFoundStep | multiplicative_optimal_partitions/conjecture_analyzer.py:22-25 | appending i and, when different, n / i keeps the list duplicate-free and equal to the divisors met so far |
| DivisorSearch.DivisorsFoundAll | multiplicative_optimal_partitions/conjecture_analyzer.py:21-26 | after the scan, the raw list holds each divisor of n exactly once |
| DivisorSearch.GetDivisors | multiplicative_optimal_partitions/conjecture_analyzer.py:18-26 | strictly ascending, and it holds exactly the divisors of n; the copy at basic_graphs.py:18-26 is identical |
| DivisorSearch.MaxFactor | multiplicative_optimal_partitions/conjecture_analyzer.py:56-57 | max_factor is at most r // m^(f-1) and at most isqrt_f(r) + 1 |
| DivisorSearch.CandidateBound | multiplicative_optimal_partitions/conjecture_analyzer.py:56-59 | a solvable state has a solvable candidate in [m, max_factor]: the bound loses no solution |
| DivisorSearch.RecursivePartitionCheck | multiplicative_optimal_partitions/conjecture_analyzer.py:45-64 | True exactly when r is a product of f integers each at least m; the base cases at 0 and 1 factors and the power prune hold as stated; the copy at basic_graphs.py:45-64 is identical |
| DivisorSearch.TwoFactors | multiplicative_optimal_partitions/conjecture_analyzer.py:36-41 | k = 2 is feasible exactly when n has a divisor d >= 2 with n // d >= 2 |
| DivisorSearch.NoSplitInScan | multiplicative_optimal_partitions/conjecture_analyzer.py:38-41 | if no listed divisor passes the k = 2 test, n has no such split |
| DivisorSearch.CanPartitionWithKFactors | multiplicative_optimal_partitions/conjecture_analyzer.py:28-43 | True exactly when k is feasible for n; k = 1 gives n >= 1; k^k > n gives False; k = 2 gives the divisor test |
| DivisorSearch.PartitionFunction | multiplicative_optimal_partitions/conjecture_analyzer.py:66-80 | P(1) = 1, the result is at least 1, and it is the partition number of n |
| Classification.TrendOf | multiplicative_optimal_partitions/conjecture_analyzer.py:106-111 | decrease exactly when P(m) > P(m+1), increase exactly when less, equality exactly when equal |
| Classification.Indices | multiplicative_optimal_partitions/conjecture_analyzer.py:99-111 | the list of one trend is strictly ascending and holds exactly the m in [lo, hi) with that trend |
| Classification.IndicesStep | multiplicative_optimal_partitions/conjecture_analyzer.py:99-111 | one more m extends exactly the list of its own trend |
| Classification.AppendStep | multiplicative_optimal_partitions/conjecture_analyzer.py:106-111 | the append of one loop pass keeps each list equal to its old contents plus the trend list so far |
| Classification.ExactlyOneTrend | multiplicative_optimal_partitions/conjecture_analyzer.py:106-111 | every m in range is in the list of its trend and in no other |
| Classification.TrendLengths | multiplicative_optimal_partitions/conjecture_analyzer.py:99-111 | the three lists together have hi - lo elements: they partition the range |
| Classification.Bump | multiplicative_optimal_partitions/basic_graphs.py:97 | the counter of one trend goes up by one and the other two stay |
| Classification.Tally | multiplicative_optimal_partitions/basic_graphs.py:95-103 | the count of (level, trend) events is at most the range length |
| Classification.TallyStep | multiplicative_optimal_partitions/basic_graphs.py:95-103 | one more m adds one to the tally of exactly its own level and trend |
| Classification.RecordGet | multiplicative_optimal_partitions/basic_graphs.py:97 | recording an event bumps exactly the counter of that level and trend, and a missing level starts at zero (the defaultdict) |
| Classification.RecordStep | multiplicative_optimal_partitions/basic_graphs.py:95-103 | one recorded event keeps every counter equal to its start value plus its tally |
| Classification.LevelTotalStep | multiplicative_optimal_partitions/basic_graphs.py:92 | one more m adds one to the number of m at its level |
| Classification.LevelTalliesAddUp | multiplicative_optimal_partitions/basic_graphs.py:95-103 | at each level the decrease, increase and equality counts add up to the number of m with P(m) at that level |
| Classification.SumTallyIsLength | multiplicative_optimal_partitions/basic_graphs.py:95-103 | summed over the levels, the tallies of one trend give the length of that trend's list |
| Classification.AllTalliesTotal | multiplicative_optimal_partitions/basic_graphs.py:91-103 | summed over levels and trends, the tallies give the range length |
| Classification.CountAtMost | multiplicative_optimal_partitions/conjecture_analyzer.py:157-165 | the number of elements <= M is at most the length |
| Classification.CountAtMostMono | multiplicative_optimal_partitions/conjecture_analyzer.py:157-165 | the count of elements <= M is non-decreasing in M |
| Classification.CountAtMostPrefix | multiplicative_optimal_partitions/conjecture_analyzer.py:159-165 | on an ascending list, a prefix of elements <= M followed by one > M has exactly the count of elements <= M |
| ConjectureAnalyzer.JMOnAscending | multiplicative_optimal_partitions/conjecture_analyzer.py:178-185 | on an ascending list, j_M is the count of elements <= M; the boundary element is the largest listed value <= M when j_M > 0, and 0 with every element > M otherwise |
| ConjectureAnalyzer.JMMonotone | multiplicative_optimal_partitions/conjecture_analyzer.py:157-165 | on an ascending list, j_M is non-decreasing in M, and so is its boundary element once j_M > 0 |
| ConjectureAnalyzer.JMOfTrendList | multiplicative_optimal_partitions/conjecture_analyzer.py:178-185 | for a trend list, the boundary is the last m <= M with that trend, or 0 when none exists |
| ConjectureAnalyzer.StatisticalConjectureAnalyzer.constructor | multiplicative_optimal_partitions/conjecture_analyzer.py:10-15 | empty table and three empty lists |
| ConjectureAnalyzer.StatisticalConjectureAnalyzer.FillBatch | multiplicative_optimal_partitions/conjecture_analyzer.py:90-96 | every n of the batch gets P(n), and other entries keep their values |
| ConjectureAnalyzer.StatisticalConjectureAnalyzer.Classify | multiplicative_optimal_partitions/conjecture_analyzer.py:99-111 | each list grows by exactly the ascending m in [1, max_n) of its trend |
| ConjectureAnalyzer.StatisticalConjectureAnalyzer.ComputeSequences | multiplicative_optimal_partitions/conjecture_analyzer.py:82-111 | the table holds P(n) for every n in [1, max_n], entries outside keep their values, and each list grows by its trend list |
| ConjectureAnalyzer.StatisticalConjectureAnalyzer.FindJM | multiplicative_optimal_partitions/conjecture_analyzer.py:157-165 | the count is the length of the prefix of elements <= M, and the count of elements <= M when the list is ascending |
| ConjectureAnalyzer.StatisticalConjectureAnalyzer.ConjectureRow | multiplicative_optimal_partitions/conjecture_analyzer.py:177-185 | the three counting indices of M and their boundary elements |
| ConjectureAnalyzer.StatisticalConjectureAnalyzer.ComputeConjectureValues | multiplicative_optimal_partitions/conjecture_analyzer.py:173-185 | one record per M, in order, each holding the counting indices and boundary elements |
| BasicGraphs.PartitionAnalyzer.constructor | multiplicative_optimal_partitions/basic_graphs.py:9-15 | empty table, empty lists, empty histogram |
| BasicGraphs.PartitionAnalyzer.FillValues | multiplicative_optimal_partitions/basic_graphs.py:86-89 | every n in [1, max_n] gets P(n), and other entries keep their values |
| BasicGraphs.PartitionAnalyzer.ClassifyAndCount | multiplicative_optimal_partitions/basic_graphs.py:91-103 | each list grows by its trend list; each (level, trend) counter grows by its tally; the histogram gains exactly the levels that occur |
| BasicGraphs.PartitionAnalyzer.ComputeAllValues | multiplicative_optimal_partitions/basic_graphs.py:82-103 | the P table, the three lists and the histogram, as FillValues and ClassifyAndCount state |
| BasicGraphs.CountStep | multiplicative_optimal_partitions/basic_graphs.py:95-103 | one loop pass keeps every histogram counter equal to its tally and the key set equal to the levels seen |
| BasicGraphs.SumCountsIsSumTally | multiplicative_optimal_partitions/basic_graphs.py:95-103 | summing the histogram over levels gives the summed tallies |
| BasicGraphs.HistogramTotals | multiplicative_optimal_partitions/basic_graphs.py:91-103 | per level, the three counts give the number of m at that level; per trend, the decrease (increase, equality) counts sum to the length of that list; all counts total max_n - 1 |
| ChunkCommon.Factorization.constructor | multiplicative_optimal_partitions/optimal_partitions_exact_chunked.c:17-20 | a buffer of MAX_FACTORS entries with count 0 |
| ChunkCommon.NatToString | multiplicative_optimal_partitions/optimal_partitions_exact_chunked.c:227 | decimal digits only, at least one |
| ChunkCommon.IntToString | multiplicative_optimal_partitions/optimal_partitions_exact_chunked.c:227 | %d text is non-empty and has no '*' |
| ChunkCommon.ParseIntToString | multiplicative_optimal_partitions/optimal_partitions_exact_chunked.c:227 | reading back %d text gives the value |
| ChunkCommon.IntToStringLength | multiplicative_optimal_partitions/optimal_partitions_exact_chunked.c:235-236 | an int prints in at most 11 characters, so each token fits temp[16] |
| ChunkCommon.LastStar | multiplicative_optimal_partitions/optimal_partitions_exact_chunked.c:236 | the index of the last '*' separator, or -1 |
| ChunkCommon.SplitAtToken | multiplicative_optimal_partitions/optimal_partitions_exact_chunked.c:236-239 | appending "*" and a token adds exactly one factor to the parsed list |
| ChunkCommon.ParseJoined | multiplicative_optimal_partitions/optimal_partitions_exact_chunked.c:234-244 | the '*'-joined text reads back as exactly the factors joined |
| ChunkCommon.FitFrom | multiplicative_optimal_partitions/optimal_partitions_exact_chunked.c:234-244 | the loop writes a prefix of the factors: between j and count of them |
| ChunkCommon.JoinedStep | multiplicative_optimal_partitions/optimal_partitions_exact_chunked.c:236-240 | one strcat extends the text of i factors to the text of i + 1 |
| ChunkCommon.FactorizationToStringCompact | multiplicative_optimal_partitions/optimal_partitions_exact_chunked.c:219-245 | the text written is Compact of the first count factors; the copy at optimal_partitions_chunked_fixed.c:165-191 is identical |
| ChunkCommon.FitFromShort | multiplicative_optimal_partitions/optimal_partitions_exact_chunked.c:238 | any non-empty prefix written is shorter than max_len - 1 |
| ChunkCommon.CompactMeaning | multiplicative_optimal_partitions/optimal_partitions_chunked_fixed.c:165-191 | count 0 gives "1"; count 1 reads back as the single factor; otherwise the text reads back as a prefix of the factors and is shorter than max_len - 1 |
| ChunkCommon.CompactWholeFits | multiplicative_optimal_partitions/optimal_partitions_exact_chunked.c:234 | with 12 characters per factor and the loop's 10 spare, every factor is written |
| ChunkCommon.FactorAtMost | multiplicative_optimal_partitions/optimal_partitions_exact_chunked.c:82 | a factor of a positive product is at most the product, so every stored factor of an int n fits in an int |
| ChunkCommon.CompactShowsPartition | multiplicative_optimal_partitions/optimal_partitions_exact_chunked.c:347 | the text of a witness for an int n reads back as that witness: k factors, each at least k, with product n |
| ChunkCommon.Counters.constructor | multiplicative_optimal_partitions/optimal_partitions_exact_chunked.c:38-40 | the three counters start at 0 |
| ChunkCommon.Occurrences | multiplicative_optimal_partitions/optimal_partitions_exact_chunked.c:335-344 | a trend occurs at most as often as there are rows |
| ChunkCommon.OccurrencesStep | multiplicative_optimal_partitions/optimal_partitions_exact_chunked.c:335-344 | one more row adds one occurrence of its own trend only |
| ChunkCommon.OccurrencesTotal | multiplicative_optimal_partitions/optimal_partitions_exact_chunked.c:335-344 | the three counts add up to the number of rows: each row bumps exactly one counter |
| ChunkCommon.ChunkTrends | multiplicative_optimal_partitions/optimal_partitions_exact_chunked.c:320-329 | one trend per row of the chunk |
| ChunkCommon.RowStep | multiplicative_optimal_partitions/optimal_partitions_exact_chunked.c:320-351 | a row numbered start_n + i, showing the compared P, carrying the counter's new value, extends the rows written so far |
| ChunkCommon.CountsStep | multiplicative_optimal_partitions/optimal_partitions_exact_chunked.c:335-344 | bumping the counter of the row's trend keeps each counter equal to its start plus the occurrences so far |
| ChunkCommon.ClassifyOne | multiplicative_optimal_partitions/optimal_partitions_exact_chunked.c:321-344 | row i compares the pair the boundary rule picks, increments exactly the counter of its trend, and carries that counter's new value |
| ChunkCommon.ClassifyRows | multiplicative_optimal_partitions/optimal_partitions_exact_chunked.c:320-352 | one row per n of the chunk, as ClassifyOne states, and each counter ends at its start plus the occurrences of its trend |
| ChunkCommon.ClassifyChunk | multiplicative_optimal_partitions/optimal_partitions_exact_chunked.c:320-357 | as written: the rows and the global counters as ClassifyRows states, and the chunk's last P is handed on; the block at optimal_partitions_chunked_fixed.c:262-300 is identical |
| ChunkCommon.ClassifyChunkCorrected | multiplicative_optimal_partitions/optimal_partitions_chunked_fixed.c:262-300 | without the boundary override: row i of the chunk is n = start_n + i with P(n) and the trend of P(n) against P(n + 1), and each counter grows by its trend's occurrences |
| ChunkCommon.ChunkTrendsFirst | multiplicative_optimal_partitions/optimal_partitions_exact_chunked.c:326 | in the first chunk the recorded trends are the true ones |
| ChunkCommon.TrendsSplit | multiplicative_optimal_partitions/optimal_partitions_exact_chunked.c:294-295 | corrected chunks compose: the trends of [a, c) are those of [a, b) followed by those of [b, c) |
| ChunkCommon.BoundaryRowRepeats | multiplicative_optimal_partitions/optimal_partitions_exact_chunked.c:326-329 | as written, the first row of a later chunk records again the trend of the previous chunk's last row |
| ChunkCommon.BoundaryCounterexample | multiplicative_optimal_partitions/optimal_partitions_chunked_fixed.c:268-271 | with chunks [1, 3] and [4, 7], n = 4 is recorded as an increase showing P = 1, although P(4) = 2 > P(5) = 1 |
| ChunkCommon.SmallSplit | multiplicative_optimal_partitions/optimal_partitions_exact_chunked.c:149-159 | a feasible k = 2 has a split whose smaller factor s has s * s <= n |
| ChunkCommon.NoSmallSplit | multiplicative_optimal_partitions/optimal_partitions_exact_chunked.c:149-162 | when the scan ends at d * d > n without a split, k = 2 is infeasible |
| ChunkCommon.SplitWitness | multiplicative_optimal_partitions/optimal_partitions_exact_chunked.c:151-155 | a divisor with both parts >= 2 gives the ordered witness [min, max] |
| ChunkCommon.StorePair | multiplicative_optimal_partitions/optimal_partitions_exact_chunked.c:153-156 | factors[0..2) and count = 2 are written, and the rest of the buffer is unchanged |
| ChunkCommon.SplitScan | multiplicative_optimal_partitions/optimal_partitions_chunked_fixed.c:76-89 | the k = 2 loop finds a split exactly when k = 2 is feasible; the split is an ordered witness with the least smaller factor; every d * d the loop computes fits in a long long |
| ChunkCommon.TwoFactorScan | multiplicative_optimal_partitions/optimal_partitions_exact_chunked.c:147-163 | success exactly when k = 2 is feasible; on success the ordered witness with the least smaller factor and count 2 are stored; on failure the buffer is untouched; it needs n < 3037000499^2 or a split, where `d * d` stays in the long long range |
| ExactChunked.DivCompare | multiplicative_optimal_partitions/optimal_partitions_exact_chunked.c:59 | x > M / b exactly when x * b > M |
| ExactChunked.Overflows | multiplicative_optimal_partitions/optimal_partitions_exact_chunked.c:59 | the division test is true exactly when the product exceeds LLONG_MAX |
| ExactChunked.SquareAndMultiply | multiplicative_optimal_partitions/optimal_partitions_exact_chunked.c:53-69 | a result below LLONG_MAX is base^exp exactly; LLONG_MAX only when base^exp >= LLONG_MAX |
| ExactChunked.FastPowSafe | multiplicative_optimal_partitions/optimal_partitions_exact_chunked.c:43-70 | exp 0 gives 1, exp 1 gives base, base 1 gives 1; a result below LLONG_MAX is exact; powers at or above LLONG_MAX saturate; LLONG_MAX comes only from that or an early cut-off |
| ExactChunked.CutOffTooEarly | multiplicative_optimal_partitions/optimal_partitions_exact_chunked.c:49 | 100^4 = 10^8 fits, yet the early cut-off answers LLONG_MAX; 10^8 is still a product of four factors >= 100 |
| ExactChunked.PowTest | multiplicative_optimal_partitions/optimal_partitions_exact_chunked.c:90-93 | the saturated test min_product >= LLONG_MAX or min_product > remaining holds exactly when a cut-off fires or m^f > remaining |
| ExactChunked.CappedMaxFactor | multiplicative_optimal_partitions/optimal_partitions_exact_chunked.c:99-105 | the capped bound is at most both candidate bounds, at most remaining and at most 10^6, and equal to one of them |
| ExactChunked.CappedCandidate | multiplicative_optimal_partitions/optimal_partitions_exact_chunked.c:104-105 | below 10^12 and for f >= 2, a solvable state has a solvable candidate under the capped bound |
| ExactChunked.CandidateLimit | multiplicative_optimal_partitions/optimal_partitions_exact_chunked.c:89-105 | the prune rejects a state exactly when a cut-off fires or m^f > remaining; otherwise it gives the capped bound |
| ExactChunked.WitnessCons | multiplicative_optimal_partitions/optimal_partitions_exact_chunked.c:110-115 | factors[depth] = factor followed by a witness of the quotient is a witness of remaining |
| ExactChunked.TryFactor | multiplicative_optimal_partitions/optimal_partitions_exact_chunked.c:109-117 | one candidate: success is sound; a failure in the exact range means the quotient has no solution; positions outside [depth, depth + f) are untouched; on success the slice is a witness |
| ExactChunked.TryCandidates | multiplicative_optimal_partitions/optimal_partitions_exact_chunked.c:108-120 | the loop succeeds only on a real solution, and in the exact range whenever one exists; writes stay inside [depth, depth + f) and leave a witness on success |
| ExactChunked.RecursivePartitionCheck | multiplicative_optimal_partitions/optimal_partitions_exact_chunked.c:73-121 | sound always, complete when remaining < 10^12 and min_factor < 100; the base cases and the prune hold; only factors[depth .. depth + f) change; on success they are a witness, which overwrites stale entries |
| ExactChunked.CanPartitionWithKFactors | multiplicative_optimal_partitions/optimal_partitions_exact_chunked.c:124-171 | sound; exact for k = 1, k = 2 and below 10^12; k^k > n or a cut-off gives false; count is k on success and 0 otherwise; factors[..k] is a witness; a k = 2 witness is ordered |
| ExactChunked.PartitionNumberSmall | multiplicative_optimal_partitions/optimal_partitions_exact_chunked.c:194 | below 10^12, P(n) <= 12, and P(n) <= 9 for an int n, so the limit 50 is never reached there |
| ExactChunked.CalculatePPiExact | multiplicative_optimal_partitions/optimal_partitions_exact_chunked.c:174-198 | the result lies in [1, 50], is 1 for n = 1, is feasible, and is P(n) below 10^12 |
| ExactChunked.GetOptimalFactorization | multiplicative_optimal_partitions/optimal_partitions_exact_chunked.c:201-216 | max_k <= 0 gives count 0; otherwise count is max_k or the fallback [n]; count max_k comes with a witness; for max_k = P(n) the fallback is never taken |
| ExactChunked.FillChunk | multiplicative_optimal_partitions/optimal_partitions_exact_chunked.c:279-295 | P(start_n + i) for every i including the boundary n = end_n + 1, and a witness for each n of the chunk |
| ExactChunked.ChunkTexts | multiplicative_optimal_partitions/optimal_partitions_exact_chunked.c:317-347 | every row's factorization text reads back as a partition of n into P(n) factors each at least P(n) |
| ExactChunked.ProcessChunk | multiplicative_optimal_partitions/optimal_partitions_exact_chunked.c:258-357 | P values, texts, rows, counters and the hand-over value, as FillChunk, ChunkTexts and ClassifyChunk state |
| ChunkedFixed.SmallSquareAndMultiply | multiplicative_optimal_partitions/optimal_partitions_chunked_fixed.c:48-54 | the loop computes base^exp |
| ChunkedFixed.FastPowSmall | multiplicative_optimal_partitions/optimal_partitions_chunked_fixed.c:42-55 | base^exp whenever it fits in an int, and 1 for exp <= 0 |
| ChunkedFixed.SelfPowerFits | multiplicative_optimal_partitions/optimal_partitions_chunked_fixed.c:71 | k^k fits in an int for every k <= 9 |
| ChunkedFixed.ThreeSplitSound | multiplicative_optimal_partitions/optimal_partitions_chunked_fixed.c:93-104 | an accepted (d1, d2) gives the witness d1 <= d2 <= d3 |
| ChunkedFixed.SquareExhausted | multiplicative_optimal_partitions/optimal_partitions_chunked_fixed.c:96 | once d2 * d2 > remaining, no larger d2 passes, so the loop exit misses nothing |
| ChunkedFixed.CubeExhausted | multiplicative_optimal_partitions/optimal_partitions_chunked_fixed.c:93 | once d1^3 > n, no larger d1 passes |
| ChunkedFixed.SecondFactorScan | multiplicative_optimal_partitions/optimal_partitions_chunked_fixed.c:96-107 | the inner loop finds a d2 exactly when one is accepted for this d1, and it finds the least one |
| ChunkedFixed.TripleScan | multiplicative_optimal_partitions/optimal_partitions_chunked_fixed.c:92-111 | the nested loops find a pair exactly when one in their search space is accepted, and it is the first in the order they visit pairs |
| ChunkedFixed.StoreTriple | multiplicative_optimal_partitions/optimal_partitions_chunked_fixed.c:100-103 | factors[0..3) and count = 3 are written, and the rest is unchanged |
| ChunkedFixed.NextFactor | multiplicative_optimal_partitions/optimal_partitions_chunked_fixed.c:121-124 | the first factor >= f dividing r, or the first value past r when none does |
| ChunkedFixed.Prefixed | multiplicative_optimal_partitions/optimal_partitions_chunked_fixed.c:127 | putting a factor in front of what the rest builds: built exactly when the rest is, with p prepended |
| ChunkedFixed.GreedySplit | multiplicative_optimal_partitions/optimal_partitions_chunked_fixed.c:117-138 | what the greedy rule builds has steps + 1 factors |
| ChunkedFixed.GreedySound | multiplicative_optimal_partitions/optimal_partitions_chunked_fixed.c:113-138 | what the greedy rule builds is a witness: k factors, each at least k, with product n |
| ChunkedFixed.GreedyScan | multiplicative_optimal_partitions/optimal_partitions_chunked_fixed.c:116-132 | the loop on temp_factors succeeds exactly when the greedy rule builds, and yields its factors |
| ChunkedFixed.StoreFactors | multiplicative_optimal_partitions/optimal_partitions_chunked_fixed.c:132-136 | the copy writes factors[..k] and count = k, and the rest is unchanged |
| ChunkedFixed.FixedFindsSound | multiplicative_optimal_partitions/optimal_partitions_chunked_fixed.c:58-142 | every success of the heuristic search is backed by a partition |
| ChunkedFixed.FixedTwoExact | multiplicative_optimal_partitions/optimal_partitions_chunked_fixed.c:76-89 | the k = 2 case is exact, so failing there means P(n) = 1 |
| ChunkedFixed.FindPartitionK | multiplicative_optimal_partitions/optimal_partitions_chunked_fixed.c:58-142 | count is k on success and 0 otherwise; k > 12 or k^k > n fails; success stores a witness of n in factors[..k] (ordered for k = 2 and k = 3, the greedy factors for k >= 4) and leaves the rest as it was; failure leaves factors untouched |
| ChunkedFixed.CalculatePPiOptimized | multiplicative_optimal_partitions/optimal_partitions_chunked_fixed.c:144-162 | 1 for n <= 3; the result lies in [1, 4]; a result k means find_partition_k succeeded for every j in 2..k, and k < 4 means it failed at k + 1 |
| ChunkedFixed.OptimizedMeaning | multiplicative_optimal_partitions/optimal_partitions_chunked_fixed.c:144-162 | the result is feasible and at most P(n); a result of 1 is P(n) exactly |
| ChunkedFixed.CapBelowPartitionNumber | multiplicative_optimal_partitions/optimal_partitions_chunked_fixed.c:153 | the cap bites: 3125 = 5^5 has P >= 5 |
| ChunkedFixed.NoDivisorInMeans | multiplicative_optimal_partitions/optimal_partitions_chunked_fixed.c:93-94 | a checked range without divisors excludes each of its values |
| ChunkedFixed.NoSmallDivisorOfCube | multiplicative_optimal_partitions/optimal_partitions_chunked_fixed.c:93-94 | no d in 3..100 divides 101^3 |
| ChunkedFixed.UpwardScanStopsEarly | multiplicative_optimal_partitions/optimal_partitions_chunked_fixed.c:153-159 | on n = 101^4 every answer that calculate_P_pi_optimized's contract allows is 2, while find_partition_k succeeds at k = 4 and n has a partition into four factors >= 4 |
| ChunkedFixed.ThreeSearchMisses | multiplicative_optimal_partitions/optimal_partitions_chunked_fixed.c:93 | the k = 3 search is incomplete: 101^3 is a product of three factors >= 3 that it does not find |
| ChunkedFixed.FillOne | multiplicative_optimal_partitions/optimal_partitions_chunked_fixed.c:227-228 | the heuristic answer p for n, and a witness of n into p factors |
| ChunkedFixed.FillChunk | multiplicative_optimal_partitions/optimal_partitions_chunked_fixed.c:225-237 | the heuristic answer for every n including the boundary, and a witness for each n of the chunk |
| ChunkedFixed.ChunkTexts | multiplicative_optimal_partitions/optimal_partitions_chunked_fixed.c:259-290 | every factorization text, in the 64-byte buffer, reads back as its witness |
| ChunkedFixed.ProcessChunk | multiplicative_optimal_partitions/optimal_partitions_chunked_fixed.c:204-300 | P values, texts, rows, counters and the hand-over value, as FillChunk, ChunkTexts and ClassifyChunk state |
| Primes.LeastFactorIsPrime | factor_ge_n_factor/constant_1.py:9-10 | the least factor >= 2 of x is prime |
| Primes.CompositeLeastFactor | factor_ge_n_factor/constant_1.py:11 | a composite x has a least factor p with p * p <= x, so starting the marking at i * i misses no composite |
| Primes.PrimesUpTo | factor_ge_n_factor/constant_1.py:4-13 | exactly the primes <= n, strictly ascending; empty for n < 2 |
| Primes.MarkedSelf | factor_ge_n_factor/constant_1.py:9 | when pass i begins, i is marked exactly when it is composite |
| Primes.MarkedStep | factor_ge_n_factor/constant_1.py:11-12 | pass i marks exactly the multiples x of a prime i with i * i <= x |
| Primes.MarkMultiples | factor_ge_n_factor/constant_1.py:11-12 | the inner loop sets exactly the multiples of i in [i * i, n] and leaves every other flag |
| Primes.Sieve | factor_ge_n_factor/constant_1.py:4-13 | the primes <= n in ascending order; the copy at constant_2.py:4-13 is identical |
| Primes.RangeLength | factor_ge_n_factor/constant_3.py:16 | len(range(start, stop, step)) is non-negative |
| Primes.RangeLengthMeaning | factor_ge_n_factor/constant_3.py:16 | the range's last element stays below stop and the next one does not |
| Primes.SliceCountFits | factor_ge_n_factor/constant_3.py:16 | ((n - start) // i) + 1 is exactly the length of is_comp[start:n+1:i], so the slice assignment never raises |
| Primes.AssignSlice | factor_ge_n_factor/constant_3.py:16 | the extended slice assignment sets exactly start, start + step, ... below stop, and nothing else |
| Primes.SliceOfSquare | factor_ge_n_factor/constant_3.py:14-16 | the indices of is_comp[i*i:n+1:i] are exactly the multiples of i in [i * i, n] |
| Primes.MarkSlice | factor_ge_n_factor/constant_3.py:14-16 | the marking step sets exactly the multiples of i in [i * i, n] |
| Primes.SliceSieveStep | factor_ge_n_factor/constant_3.py:11-16 | one outer pass keeps i exactly when it is prime and advances the marking invariant |
| Primes.SieveSlices | factor_ge_n_factor/constant_3.py:4-17 | the primes <= n in ascending order |
| Legendre.LegendreSum | factor_ge_n_factor/constant_1.py:15-21 | the repeated-division sum is at most N, and 0 for N < p |
| Legendre.VPFactorial | factor_ge_n_factor/constant_1.py:15-21 | the while loop terminates with LegendreSum(N, p); the copies at constant_2.py:15-21 and constant_3.py:19-27 are identical |
| Legendre.SumQuotientsShift | factor_ge_n_factor/constant_1.py:19-20 | peeling one division off the sum of N / p^i |
| Legendre.LegendreSumIsSeries | factor_ge_n_factor/constant_1.py:15-21 | v_p_factorial(N, p) = sum over i >= 1 of N // p^i, for any L with p^L > N |
| Legendre.MultiplicityMeaning | factor_ge_n_factor/constant_1.py:16 | m is p^e times a number that p does not divide |
| Legendre.LegendreSumStep | factor_ge_n_factor/constant_2.py:15-21 | going from N - 1 to N adds the exponent of p in N |
| Legendre.LegendreSumCounts | factor_ge_n_factor/constant_2.py:15-21 | the division loop counts the factors p in 1, 2, ..., N |
| Legendre.Euclid | factor_ge_n_factor/constant_1.py:16 | a prime dividing a * b divides a or b |
| Legendre.MultiplicityProduct | factor_ge_n_factor/constant_1.py:16 | the exponent of a prime in a * b is the sum of the exponents |
| Legendre.LegendreFormula | factor_ge_n_factor/constant_3.py:19-27 | for a prime p, v_p_factorial(N, p) is the exponent of p in N! |
| Constants.CeilLog | factor_ge_n_factor/constant_1.py:37 | the least e with p^e >= N |
| Constants.CeilLogLeast | factor_ge_n_factor/constant_1.py:37 | no smaller exponent reaches N |
| Constants.CeilLogAtLeastTwo | factor_ge_n_factor/constant_1.py:37-38 | for 2p <= N, c_p >= 2, so the division is defined |
| Constants.GuardNeverFires | factor_ge_n_factor/constant_2.py:27-32 | sieve(N // 2) holds exactly the primes p with 2p <= N, so the break never fires |
| Constants.TotalIsFull | factor_ge_n_factor/constant_1.py:30-38 | on those primes, the loop with its break is the full sum over them |
| Constants.RemainderBound | factor_ge_n_factor/constant_2.py:33-35 | each vp % c lies in [0, c), so total_mod is between 0 and the sum of c_p - 1 |
| Constants.SumParts | factor_ge_n_factor/constant_1.py:30-38 | the shared accumulator loop with its break computes Total |
| Constants.QuotientSum | factor_ge_n_factor/constant_1.py:26-38 | total is the sum over primes p with 2p <= N of v_p(N!) // c_p |
| Constants.RemainderSum | factor_ge_n_factor/constant_2.py:27-35 | total_mod is the sum of v_p(N!) % c_p, and at most the sum of c_p - 1 |
| Constants.Terms | factor_ge_n_factor/constant_3.py:38-43 | at most one term per prime |
| Constants.CollectTerms | factor_ge_n_factor/constant_3.py:38-43 | the loop collects the pairs (p, vp % c_p) up to the break |
| Constants.RemainderTerms | factor_ge_n_factor/constant_3.py:33-43 | the terms of Y_of_N over the bytearray sieve of N // 2 |
| Constants.TermsPairs | factor_ge_n_factor/constant_3.py:38-43 | term i pairs prime i with its remainder |
| Constants.TermsFull | factor_ge_n_factor/constant_3.py:38-40 | over primes with 2p <= N, every prime gets a term |
| Constants.TermsInRange | factor_ge_n_factor/constant_3.py:38-43 | every prime of sieve(N // 2) gets a term, and each term lies in [0, c_p) |

## Left out

- Plotting, LaTeX tables, `print_statistics`, `save_sequences`, progress output and the `main` drivers are presentation and file output.
- CSV writing, `combine_chunks`, directory creation, `safe_system_call`, `drop_caches`, `clock()` timing and argument parsing in both C files are file, process and environment work. A classification row is modelled without its text; the text is modelled separately (the texts output of ProcessChunk).
- `generate_statistical_M_values` (seeded random draws, float logarithms), the float ratios C and the `inf` differences of `compute_conjecture_values` are randomness and floating point. ComputeConjectureValues takes the M values as a parameter.
- The final float formulas of L(N), M(N) and Y(N), including ln p and ln ln N. Y_of_N is modelled by its integer terms (p, vp % c_p), without the factor ln p.
- Constants.CeilLog: `math.ceil(lnN / math.log(p))` is modelled as the exact integer ceiling of log_p N; float rounding near exact powers is not modelled.
- Constants.QuotientSum, Constants.RemainderSum, Constants.RemainderTerms require N >= 1, where `math.log(N)` is defined; for N <= 0 the Python raises.
- Partitions.IRoot, Partitions.Log2Floor, DivisorSearch.MaxFactor: the float bounds `remaining ** (1.0/f)`, `pow`, `math.log(n, 2)` and `math.sqrt` are replaced by exact integer roots and logarithms; their float rounding is not modelled.
- `lru_cache` is performance only and is modelled by the pure function it caches.
- ExactChunked.RecursivePartitionCheck, ExactChunked.CanPartitionWithKFactors, ExactChunked.GetOptimalFactorization, ExactChunked.FillChunk, ExactChunked.ProcessChunk: the `(int)` casts of a long long are covered by the precondition that n fits in an int when a result buffer is given; with no buffer, n ranges below LLONG_MAX, except where the k = 2 overflow below narrows it.
- ChunkCommon.SplitScan, ChunkCommon.TwoFactorScan, ExactChunked.CanPartitionWithKFactors, ExactChunked.CalculatePPiExact require, for k = 2, n < 3037000499^2 or n having a split into two factors >= 2. In the long long loop `for (long long d = 2; d * d <= n; d++)` (optimal_partitions_exact_chunked.c:148) an n with no split runs d up to 3037000500, whose square overflows a long long: undefined behaviour, reachable for a prime n such as 9223372036854775783 from `atoll(argv[1])` (optimal_partitions_exact_chunked.c:541). Such n are excluded. On the domain kept, the loop invariant d * d <= LLONG_MAX is proved.
- Legendre.VPFactorial requires N >= 0 and p >= 2, because for N != 0 outside that the loop of constant_1.py:18-20 does not finish with a prime's exponent. For N < 0 the floor division sticks at -1 and the loop never ends. For p = 1 the quotient never shrinks. For p = 0 it raises ZeroDivisionError. A negative p is not a prime. For N = 0 the Python returns 0 for every p; the model asks p >= 2 there too.
- ExactChunked.CalculatePPiExact: maximality is proved below 10^12; above, the candidate cap of 10^6 can hide a solution and only soundness is stated. The program's banner (optimal_partitions_exact_chunked.c:446, :583) promises the true maximum for every n; the model does not establish that above 10^12.
- ChunkedFixed.FindPartitionK requires k <= 9 or k > 12, where `fast_pow_small(k, k)` fits in an int; for k = 10, 11, 12 the C product overflows, which is undefined behaviour.
- ChunkedFixed.FindPartitionK, ChunkedFixed.CalculatePPiOptimized, ChunkedFixed.FillChunk, ChunkedFixed.ProcessChunk require n < 46340^2 for k = 2, so that `d * d` in the k = 2 loop stays in the int range.
- ChunkedFixed.FastPowSmall requires base >= 1 for exp >= 1, as every caller passes k >= 1. The squaring after the last multiplication, whose value the C never uses, is not modelled: it can overflow even when the result fits.
- ChunkedFixed.CalculatePPiOptimized is stated as a lower bound on P(n), not as P(n). The C is a heuristic: it caps at 4 (CapBelowPartitionNumber) and its k = 3 search is incomplete (ThreeSearchMisses), and it stops at the first failing k (UpwardScanStopsEarly).
- `d1 * d1 * d1` in the k = 3 loop is modelled on unbounded integers; for n below 46340^2 and d1 <= 100 it stays in the int range.
- The greedy k >= 4 path is modelled with its factors in a sequence standing for `temp_factors`; its final copy into `result` is modelled in place.
- Identical copies are modelled once:
  - `build_factors` and `find_multiset` of count_le_n.py and f_n.py;
  - the search methods of conjecture_analyzer.py and basic_graphs.py;
  - `sieve` and `v_p_factorial` of constant_1.py and constant_2.py;
  - `v_p_factorial` of constant_3.py;
  - `factorization_to_string_compact` and the classification block of the two C files.
- The 64-bit wrap-around of the global `long long` counters is not modelled; 2^63 rows are out of reach.

## Findings

| source | as written | input that shows it | evidently intended | confidence | as-written member | corrected member |
|---|---|---|---|---|---|---|
| multiplicative_optimal_partitions/optimal_partitions_exact_chunked.c:326-329 | for the first row of a later chunk, process_chunk compares the previous chunk's last P, P(start_n - 1), with P(start_n). That repeats the previous row's trend, and the row prints P(start_n - 1) | chunks [1, 3] and [4, 7]: row n = 4 is recorded as an increase showing P = 1, while P(4) = 2 > P(5) = 1 is a decrease | every row n compares P(n) with P(n + 1), which the chunk already holds, so the classification does not depend on chunk boundaries | not executed | ChunkCommon.ClassifyChunk, ChunkCommon.BoundaryCounterexample | ChunkCommon.ClassifyChunkCorrected, ChunkCommon.TrendsSplit |
| multiplicative_optimal_partitions/optimal_partitions_chunked_fixed.c:268-271 | the same boundary override, in the heuristic engine | the same chunks [1, 3] and [4, 7] (P(1..8) = 1, 1, 1, 2, 1, 2, 1, 2, which the heuristic also answers) | as above | not executed | ChunkCommon.ClassifyChunk, ChunkCommon.BoundaryRowRepeats | ChunkCommon.ClassifyChunkCorrected, ChunkCommon.TrendsSplit |

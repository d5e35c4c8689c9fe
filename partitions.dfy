// The shared specification of every partition engine in the repository:
// a factor-bounded partition of r into f factors, each at least m, and the
// partition number P(n), the largest k such that n is a product of exactly
// k integers that are each at least k.
module Partitions {
  import opened Sorting

  /** b raised to the power e. */
  function Pow(b: int, e: nat): int
  {
    if e == 0 then 1 else b * Pow(b, e - 1)
  }

  /** The product of the elements of s (1 for the empty sequence). */
  function Product(s: seq<int>): int
  {
    if s == [] then 1 else s[0] * Product(s[1..])
  }

  predicate AllAtLeast(s: seq<int>, m: int)
  {
    forall i :: 0 <= i < |s| ==> s[i] >= m
  }

  /** s is a multiset of f integers, each at least m, whose product is r. */
  predicate IsWitness(s: seq<int>, r: int, f: int, m: int)
  {
    |s| == f && AllAtLeast(s, m) && Product(s) == r
  }

  /** Some multiset of f integers, each at least m, has product r. */
  ghost predicate Feasible(r: int, f: int, m: int)
  {
    exists s: seq<int> :: IsWitness(s, r, f, m)
  }

  /** k is the partition number of n: k factors each at least k have
      product n, and no larger k has that property. */
  ghost predicate IsPartitionNumber(n: int, k: int)
  {
    k >= 1 && Feasible(n, k, k) && forall j :: j > k ==> !Feasible(n, j, j)
  }

  // ---------------------------------------------------------------------
  // Arithmetic helpers (Dafny's solver does not reason about products of
  // variables unaided).

  lemma MulDivExact(a: int, q: int)
    requires a > 0
    ensures (a * q) / a == q && (a * q) % a == 0
  {
    var d, r := (a * q) / a, (a * q) % a;
    assert a * q == a * d + r && 0 <= r < a;
    assert a * (q - d) == r;
    MulSign(a, q - d);
  }

  lemma MulSign(a: int, t: int)
    requires a > 0
    ensures t >= 1 ==> a * t >= a
    ensures t <= -1 ==> a * t <= -a
  {
    if t >= 1 {
      MulPositive(a, t);
    } else if t <= -1 {
      MulPositive(a, -t);
    }
  }

  lemma DivExact(r: int, a: int)
    requires a > 0 && r % a == 0
    ensures a * (r / a) == r
  {
  }

  /** A number below the modulus is its own remainder. */
  lemma ModBelow(m: int, d: int)
    requires 0 <= m < d
    ensures m % d == m
  {
    var q := m / d;
    if q >= 1 || q <= -1 {
      MulSign(d, q);
    }
  }

  lemma MulPositive(a: int, b: int)
    requires a >= 1 && b >= 1
    ensures a * b >= a && a * b >= b
  {
  }

  lemma MulMono(a: int, b: int, c: int, d: int)
    requires 0 <= a <= b && 0 <= c <= d
    ensures a * c <= b * d
  {
    assert a * c <= b * c;
    assert b * c <= b * d;
  }

  /** x * d <= r, with d positive, bounds x by the quotient r / d. */
  lemma MulLeDiv(x: int, d: int, r: int)
    requires d > 0 && x * d <= r
    ensures x <= r / d
  {
    var q := r / d;
    assert r < (q + 1) * d;
    if x >= q + 1 {
      MulMono(q + 1, x, d, d);
    }
  }

  lemma PowPositive(b: int, e: nat)
    requires b >= 1
    ensures Pow(b, e) >= 1
  {
    if e > 0 {
      PowPositive(b, e - 1);
      MulPositive(b, Pow(b, e - 1));
    }
  }

  lemma PowAtLeastBase(b: int, e: nat)
    requires b >= 1 && e >= 1
    ensures Pow(b, e) >= b
  {
    PowPositive(b, e - 1);
    MulPositive(b, Pow(b, e - 1));
  }

  lemma PowMonoBase(a: int, b: int, e: nat)
    requires 0 <= a <= b
    ensures 0 <= Pow(a, e) <= Pow(b, e)
  {
    if e > 0 {
      PowMonoBase(a, b, e - 1);
      MulMono(a, b, Pow(a, e - 1), Pow(b, e - 1));
    }
  }

  lemma PowMonoExp(b: int, e: nat, f: nat)
    requires b >= 1 && e <= f
    ensures Pow(b, e) <= Pow(b, f)
  {
    if e < f {
      PowMonoExp(b, e, f - 1);
      PowPositive(b, f - 1);
      MulPositive(b, Pow(b, f - 1));
    }
  }

  lemma PowAdd(b: int, e: nat, f: nat)
    ensures Pow(b, e + f) == Pow(b, e) * Pow(b, f)
  {
    if e > 0 {
      PowAdd(b, e - 1, f);
      assert Pow(b, e + f) == b * Pow(b, e - 1 + f);
    }
  }

  lemma PowTwo(b: int)
    ensures Pow(b, 2) == b * b
  {
    assert Pow(b, 1) == b;
  }

  /** Pow(b*b, h) == Pow(b, 2*h): one squaring step of a binary power. */
  lemma PowSquare(b: int, h: nat)
    ensures Pow(b * b, h) == Pow(b, 2 * h)
  {
    if h > 0 {
      PowSquare(b, h - 1);
      assert Pow(b, 2 * h) == b * (b * Pow(b, 2 * (h - 1)));
    }
  }

  /** k -> k^k is monotone. */
  lemma PowSelfMono(k: int, j: int)
    requires 1 <= k <= j
    ensures Pow(k, k) <= Pow(j, j)
  {
    PowMonoBase(k, j, k);
    PowMonoExp(j, k, j);
  }

  // The loop steps of a binary (square-and-multiply) power.

  /** An odd exponent: one factor b moves into the result. */
  lemma OddStep(result: int, b: int, e: nat, p: int)
    requires e % 2 == 1 && result >= 1 && b >= 1 && result * Pow(b, e) == p
    ensures (result * b) * Pow(b, e - 1) == p && p >= result * b
  {
    PowPositive(b, e - 1);
    assert result * (b * Pow(b, e - 1)) == (result * b) * Pow(b, e - 1);
    MulPositive(result * b, Pow(b, e - 1));
  }

  /** An even exponent of at least 2: b is squared and the exponent halved;
      the power is at least b * b. */
  lemma SquareStep(result: int, b: int, e: nat, p: int)
    requires e % 2 == 0 && e >= 2 && result >= 1 && b >= 1 && result * Pow(b, e) == p
    ensures result * Pow(b * b, e / 2) == p && p >= b * b
  {
    PowSquare(b, e / 2);
    PowMonoExp(b, 2, e);
    PowTwo(b);
    PowPositive(b, e);
    MulPositive(result, Pow(b, e));
  }

  /** One pass of the square-and-multiply loop: an odd exponent moves one
      factor b into the result, then b is squared and the exponent halved. */
  lemma BinaryPowStep(result: int, b: int, e: nat, p: int)
    requires e >= 1 && result >= 1 && b >= 1 && result * Pow(b, e) == p
    ensures (if e % 2 == 1 then result * b else result) * Pow(b * b, e / 2) == p
    ensures 1 <= (if e % 2 == 1 then result * b else result) <= p
    ensures b * b >= 1
  {
    MulPositive(b, b);
    if e % 2 == 1 {
      OddStep(result, b, e, p);
      MulPositive(result, b);
      if e >= 3 {
        SquareStep(result * b, b, e - 1, p);
      }
    } else {
      SquareStep(result, b, e, p);
      PowPositive(b, e);
      MulPositive(result, Pow(b, e));
    }
  }

  lemma {:induction false} PowOfOne(e: nat)
    ensures Pow(1, e) == 1
  {
    if e > 0 {
      PowOfOne(e - 1);
    }
  }

  // ---------------------------------------------------------------------
  // Exact integer replacements of the floating-point bounds.

  function IRootFrom(r: int, f: nat, x: nat): (y: nat)
    requires f >= 1 && Pow(x, f) <= r
    ensures Pow(y, f) <= r < Pow(y + 1, f)
    decreases r - x
  {
    if Pow(x + 1, f) <= r then
      PowAtLeastBase(x + 1, f);
      IRootFrom(r, f, x + 1)
    else x
  }

  /** The integer f-th root of r: the largest y with y^f <= r. */
  function IRoot(r: int, f: nat): (y: nat)
    requires r >= 0 && f >= 1
    ensures Pow(y, f) <= r < Pow(y + 1, f)
  {
    assert Pow(0, f) == 0;
    IRootFrom(r, f, 0)
  }

  /** The integer binary logarithm: the largest e with 2^e <= n. */
  function Log2Floor(n: int): (e: nat)
    requires n >= 1
    ensures Pow(2, e) <= n < Pow(2, e + 1)
  {
    if n < 2 then 0 else 1 + Log2Floor(n / 2)
  }

  /** Any k >= 2 with k^k <= n is at most floor(log2 n). */
  lemma KBelowLog2(n: int, k: int)
    requires n >= 1 && k >= 2 && Pow(k, k) <= n
    ensures k <= Log2Floor(n)
  {
    var e := Log2Floor(n);
    PowMonoBase(2, k, k);
    if k > e {
      PowMonoExp(2, e + 1, k);
    }
  }

  // ---------------------------------------------------------------------
  // Products of sequences.

  lemma {:induction false} ProductAppend(a: seq<int>, b: seq<int>)
    ensures Product(a + b) == Product(a) * Product(b)
  {
    if a == [] {
      assert a + b == b;
    } else {
      assert (a + b)[0] == a[0];
      assert (a + b)[1..] == a[1..] + b;
      ProductAppend(a[1..], b);
      calc {
        Product(a + b);
        a[0] * Product(a[1..] + b);
        a[0] * (Product(a[1..]) * Product(b));
        (a[0] * Product(a[1..])) * Product(b);
      }
    }
  }

  lemma MulRotate(a: int, x: int, b: int)
    ensures a * (x * b) == x * (a * b)
  {
  }

  lemma ProductCons(x: int, s: seq<int>)
    ensures Product([x] + s) == x * Product(s)
  {
    assert ([x] + s)[1..] == s;
  }

  /** Taking element i out of s divides its product by s[i]. */
  lemma ProductRemove(s: seq<int>, i: int)
    requires 0 <= i < |s|
    ensures Product(s) == s[i] * Product(s[..i] + s[i + 1..])
  {
    var pre, x, post := s[..i], s[i], s[i + 1..];
    assert s == pre + ([x] + post);
    ProductAppend(pre, [x] + post);
    ProductCons(x, post);
    ProductAppend(pre, post);
    MulRotate(Product(pre), x, Product(post));
  }

  /** f factors each at least m >= 1 multiply to at least m^f. */
  lemma {:induction false} ProductLowerBound(s: seq<int>, m: int)
    requires m >= 1 && AllAtLeast(s, m)
    ensures Product(s) >= Pow(m, |s|) >= 1
  {
    if s != [] {
      ProductLowerBound(s[1..], m);
      PowPositive(m, |s| - 1);
      MulMono(m, s[0], Pow(m, |s| - 1), Product(s[1..]));
    }
  }

  lemma {:induction false} ProductInsert(x: int, s: seq<int>)
    ensures Product(Insert(x, s)) == x * Product(s)
  {
    if s == [] || x <= s[0] {
      ProductCons(x, s);
    } else {
      var rest := Insert(x, s[1..]);
      ProductInsert(x, s[1..]);
      ProductCons(s[0], rest);
      assert Product(Insert(x, s)) == s[0] * (x * Product(s[1..]));
      MulRotate(s[0], x, Product(s[1..]));
    }
  }

  /** Sorting a multiset of factors keeps its product and its bound. */
  lemma {:induction false} SortKeepsWitness(s: seq<int>, r: int, f: int, m: int)
    requires IsWitness(s, r, f, m)
    ensures IsWitness(Sort(s), r, f, m)
  {
    ProductSort(s);
    SortMembers(s);
    var t := Sort(s);
    forall i | 0 <= i < |t| ensures t[i] >= m {
      assert t[i] in s;
    }
  }

  lemma {:induction false} ProductSort(s: seq<int>)
    ensures Product(Sort(s)) == Product(s)
  {
    if s != [] {
      ProductSort(s[1..]);
      ProductInsert(s[0], Sort(s[1..]));
    }
  }

  // ---------------------------------------------------------------------
  // Feasibility: base cases, the power prune and the recursive step.

  /** With no factor left, only the empty product 1 is reachable. */
  lemma FeasibleZero(r: int, m: int)
    ensures Feasible(r, 0, m) <==> r == 1
  {
    if r == 1 {
      assert IsWitness([], r, 0, m);
    }
  }

  /** With one factor left, r itself is the only candidate. */
  lemma FeasibleOne(r: int, m: int)
    ensures Feasible(r, 1, m) <==> r >= m
  {
    if r >= m {
      assert IsWitness([r], r, 1, m);
    }
    if Feasible(r, 1, m) {
      var s :| IsWitness(s, r, 1, m);
      assert Product(s) == s[0];
    }
  }

  /** The power prune: f factors each at least m >= 1 need r >= m^f. */
  lemma FeasiblePrune(r: int, f: int, m: int)
    requires m >= 1 && Feasible(r, f, m)
    ensures f >= 0 && Pow(m, f) <= r && r >= 1
  {
    var s :| IsWitness(s, r, f, m);
    ProductLowerBound(s, m);
  }

  /** One more factor a >= m in front of a witness of r / a. */
  lemma FeasibleStep(r: int, f: int, m: int, a: int)
    requires f >= 1 && a >= 1 && a >= m && r % a == 0
    requires Feasible(r / a, f - 1, m)
    ensures Feasible(r, f, m)
  {
    var s :| IsWitness(s, r / a, f - 1, m);
    DivExact(r, a);
    assert IsWitness([a] + s, r, f, m) by {
      assert ([a] + s)[1..] == s;
    }
  }

  /** The first factor of a witness divides r and leaves a witness of the
      quotient. */
  lemma FeasibleFirst(r: int, f: int, m: int) returns (a: int)
    requires f >= 1 && m >= 1 && Feasible(r, f, m)
    ensures m <= a <= r && r % a == 0 && Feasible(r / a, f - 1, m)
  {
    var s :| IsWitness(s, r, f, m);
    a := s[0];
    ProductLowerBound(s[1..], m);
    MulDivExact(a, Product(s[1..]));
    MulPositive(a, Product(s[1..]));
    assert IsWitness(s[1..], r / a, f - 1, m);
  }

  /** The smallest factor a of a witness satisfies a^f <= r and
      a * m^(f-1) <= r, so searching candidates up to either bound loses
      no solution. */
  lemma FeasibleMinFactor(r: int, f: int, m: int) returns (a: int)
    requires f >= 1 && m >= 1 && Feasible(r, f, m)
    ensures m <= a <= r && r % a == 0 && Feasible(r / a, f - 1, m)
    ensures Pow(a, f) <= r && a * Pow(m, f - 1) <= r
  {
    var s :| IsWitness(s, r, f, m);
    var i := 0;
    var k := 1;
    while k < |s|
      invariant 0 <= i < |s| && 1 <= k <= |s|
      invariant forall j :: 0 <= j < k ==> s[i] <= s[j]
    {
      if s[k] < s[i] { i := k; }
      k := k + 1;
    }
    a := s[i];
    var rest := s[..i] + s[i + 1..];
    ProductRemove(s, i);
    assert AllAtLeast(rest, a) by {
      forall j | 0 <= j < |rest| ensures rest[j] >= a {
        if j < i { assert rest[j] == s[j]; } else { assert rest[j] == s[j + 1]; }
      }
    }
    assert AllAtLeast(rest, m);
    ProductLowerBound(rest, a);
    ProductLowerBound(rest, m);
    MulDivExact(a, Product(rest));
    MulPositive(a, Product(rest));
    assert IsWitness(rest, r / a, f - 1, m);
    MulMono(a, a, Pow(a, f - 1), Product(rest));
    MulMono(a, a, Pow(m, f - 1), Product(rest));
  }

  /** Feasibility is closed downwards in k: merging the trailing factors of a
      k-factor partition gives a j-factor one for every 1 <= j <= k. */
  lemma FeasibleDownward(n: int, k: int, j: int)
    requires 1 <= j <= k && Feasible(n, k, k)
    ensures Feasible(n, j, j)
  {
    var s :| IsWitness(s, n, k, k);
    var head, tail := s[..j - 1], s[j - 1..];
    assert s == head + tail;
    ProductAppend(head, tail);
    ProductLowerBound(tail, k);
    PowAtLeastBase(k, |tail|);
    var t := head + [Product(tail)];
    ProductAppend(head, [Product(tail)]);
    assert IsWitness(t, n, j, j);
  }

  /** Every n >= 1 has the trivial partition [n]. */
  lemma FeasibleTrivial(n: int)
    requires n >= 1
    ensures Feasible(n, 1, 1)
  {
    FeasibleOne(n, 1);
  }

  /** No k >= 2 is feasible when k = 2 is not. */
  lemma NoneAboveWhenTwoFails(n: int)
    requires !Feasible(n, 2, 2)
    ensures forall j :: j >= 2 ==> !Feasible(n, j, j)
  {
    forall j | j >= 2 ensures !Feasible(n, j, j) {
      if Feasible(n, j, j) { FeasibleDownward(n, j, 2); }
    }
  }

  /** Beyond the first k with k^k > n nothing is feasible. */
  lemma NoneFromPowBound(n: int, k: int)
    requires k >= 1 && Pow(k, k) > n
    ensures forall j :: j >= k ==> !Feasible(n, j, j)
  {
    forall j | j >= k ensures !Feasible(n, j, j) {
      if Feasible(n, j, j) {
        FeasiblePrune(n, j, j);
        PowSelfMono(k, j);
      }
    }
  }

  // ---------------------------------------------------------------------
  // The partition number.

  /** The partition number is unique, so all engines that compute it agree. */
  lemma PartitionNumberUnique(n: int, k1: int, k2: int)
    requires IsPartitionNumber(n, k1) && IsPartitionNumber(n, k2)
    ensures k1 == k2
  {
  }

  /** The partition number k of n satisfies k^k <= n. */
  lemma PartitionNumberBound(n: int, k: int)
    requires IsPartitionNumber(n, k)
    ensures Pow(k, k) <= n && n >= 1
  {
    FeasiblePrune(n, k, k);
  }

  /** P(n) = 1 exactly when n has no factorisation a * b with a, b >= 2. */
  lemma PartitionNumberOne(n: int)
    requires n >= 1
    ensures IsPartitionNumber(n, 1) <==> !Feasible(n, 2, 2)
  {
    FeasibleTrivial(n);
    if !Feasible(n, 2, 2) { NoneAboveWhenTwoFails(n); }
  }

  /** A prime has partition number 1. */
  lemma PrimePartitionNumber(p: int)
    requires p >= 2 && forall d :: 2 <= d < p ==> p % d != 0
    ensures IsPartitionNumber(p, 1)
  {
    PartitionNumberOne(p);
    if Feasible(p, 2, 2) {
      var a := FeasibleFirst(p, 2, 2);
      FeasibleOne(p / a, 2);
      DivExact(p, a);
    }
  }

  /** Hand-computed values: P(1) = 1, P(4) = 2, P(8) = 2, P(216) = 3. */
  lemma SmallPartitionNumbers()
    ensures IsPartitionNumber(1, 1)
    ensures IsPartitionNumber(4, 2)
    ensures IsPartitionNumber(8, 2)
    ensures IsPartitionNumber(216, 3)
  {
    FeasibleTrivial(1);
    assert Pow(2, 2) > 1;
    NoneFromPowBound(1, 2);
    assert IsWitness([2, 2], 4, 2, 2);
    assert IsWitness([2, 4], 8, 2, 2);
    assert Pow(3, 3) == 27;
    NoneFromPowBound(4, 3);
    NoneFromPowBound(8, 3);
    assert IsWitness([6, 6, 6], 216, 3, 3);
    assert Pow(4, 4) == 256;
    NoneFromPowBound(216, 4);
  }
}

// Legendre's formula: v_p_factorial of constant_1.py, constant_2.py and
// constant_3.py (the three copies are identical), the repeated-division loop
// proved equal to the sum of the quotients N / p^i and to the exponent of a
// prime p in N!.

module Legendre {
  import opened Partitions
  import opened Primes

  /** N / p + N / p^2 + ..., written as the division loop computes it:
      each quotient is the previous one divided by p. */
  function LegendreSum(N: nat, p: int): (e: nat)
    requires p >= 2
    ensures e <= N
    ensures N < p ==> e == 0
    decreases N
  {
    if N == 0 then 0 else DivAtMostHalf(N, p); N / p + LegendreSum(N / p, p)
  }

  /** A quotient by p >= 2 is at most half the dividend, and 0 below p. */
  lemma DivAtMostHalf(N: int, p: int)
    requires N >= 0 && p >= 2
    ensures 0 <= 2 * (N / p) <= N
    ensures N < p ==> N / p == 0
  {
    var q := N / p;
    MulMono(2, p, q, q);
    if N < p && q >= 1 {
      MulSign(p, q);
    }
  }

  /** p * P > N makes the quotient N / p smaller than P. */
  lemma DivBelow(N: int, p: int, P: int)
    requires N >= 0 && p >= 1 && p * P > N
    ensures N / p < P
  {
    if N / p >= P {
      MulMono(p, p, P, N / p);
    }
  }

  /** v_p_factorial(N, p): `while N: N //= p; e += N`. */
  method VPFactorial(N: int, p: int) returns (e: int)
    requires N >= 0 && p >= 2
    ensures e == LegendreSum(N, p)
  {
    var m := N;
    e := 0;
    while m != 0
      invariant m >= 0
      invariant e + LegendreSum(m, p) == LegendreSum(N, p)
      decreases m
    {
      m := m / p;
      e := e + m;
    }
  }

  // ---------------------------------------------------------------------
  // The sum of the quotients N / p^i.

  /** N / p^1 + ... + N / p^L. */
  function SumQuotients(N: nat, p: int, L: nat): int
    requires p >= 2
  {
    if L == 0 then 0 else PowPositive(p, L); SumQuotients(N, p, L - 1) + N / Pow(p, L)
  }

  /** (x / b) / c == x / (b * c) for positive b and c. */
  lemma NestedDivision(x: int, b: int, c: int)
    requires x >= 0 && b >= 1 && c >= 1
    ensures (x / b) / c == x / (b * c)
  {
    var q, r := x / b, x % b;
    var q2, r2 := q / c, q % c;
    assert x == b * q + r;
    assert q == c * q2 + r2;
    assert x == (b * c) * q2 + (b * r2 + r) by {
      assert b * q == b * (c * q2) + b * r2;
    }
    MulMono(b, b, r2, c - 1);
    MulMono(0, b, 0, r2);
    assert b * (c - 1) == b * c - b;
    MulPositive(b, c);
    DivModUnique(x, b * c, q2, b * r2 + r);
  }

  /** Peeling off the first quotient: the rest is the same sum for N / p. */
  lemma SumQuotientsShift(N: nat, p: int, L: nat)
    requires p >= 2 && L >= 1
    ensures SumQuotients(N, p, L) == N / p + SumQuotients(N / p, p, L - 1)
    decreases L
  {
    if L == 1 {
      assert Pow(p, 1) == p;
    } else {
      SumQuotientsShift(N, p, L - 1);
      PowPositive(p, L - 1);
      NestedDivision(N, p, Pow(p, L - 1));
    }
  }

  /** v_p_factorial(N, p) is the sum of the quotients N / p^i over every
      i >= 1: any L with p^L > N already has all the nonzero ones. */
  lemma {:induction false} LegendreSumIsSeries(N: nat, p: int, L: nat)
    requires p >= 2 && Pow(p, L) > N
    ensures LegendreSum(N, p) == SumQuotients(N, p, L)
    decreases N
  {
    if L == 0 {
      assert N == 0;
    } else if N == 0 {
      SumQuotientsZero(p, L);
    } else {
      SumQuotientsShift(N, p, L);
      assert Pow(p, L) == p * Pow(p, L - 1);
      DivBelow(N, p, Pow(p, L - 1));
      DivAtMostHalf(N, p);
      LegendreSumIsSeries(N / p, p, L - 1);
    }
  }

  lemma {:induction false} SumQuotientsZero(p: int, L: nat)
    requires p >= 2
    ensures SumQuotients(0, p, L) == 0
  {
    if L > 0 {
      SumQuotientsZero(p, L - 1);
      PowPositive(p, L);
    }
  }

  // ---------------------------------------------------------------------
  // The exponent of p in N!.

  /** The exponent of p in m >= 1: how often p divides it. */
  function Multiplicity(p: int, m: int): nat
    requires p >= 2 && m >= 1
    decreases m
  {
    if m % p == 0 then 1 + Multiplicity(p, m / p) else 0
  }

  /** m is p^Multiplicity(p, m) times a number that p does not divide. */
  lemma {:induction false} MultiplicityMeaning(p: int, m: int)
    requires p >= 2 && m >= 1
    ensures Pow(p, Multiplicity(p, m)) >= 1
    ensures m % Pow(p, Multiplicity(p, m)) == 0
    ensures (m / Pow(p, Multiplicity(p, m))) % p != 0
    decreases m
  {
    if m % p == 0 {
      DivideOut(p, m);
      var q := m / p;
      MultiplicityMeaning(p, q);
      var e := Multiplicity(p, q);
      var u := q / Pow(p, e);
      DivExact(q, Pow(p, e));
      assert Pow(p, e + 1) == p * Pow(p, e);
      assert m == Pow(p, e + 1) * u by {
        assert p * q == p * (Pow(p, e) * u);
      }
      MulPositive(p, Pow(p, e));
      MulDivExact(Pow(p, e + 1), u);
    } else {
      assert Pow(p, 0) == 1;
    }
  }

  /** Dividing out one factor p of m. */
  lemma DivideOut(p: int, m: int)
    requires p >= 2 && m >= 1 && m % p == 0
    ensures m == p * (m / p) && 1 <= m / p < m
  {
    DivExact(m, p);
    DivAtMostHalf(m, p);
  }

  /** Moving a factor p of a out of the product a * b. */
  lemma DivideOutOfProduct(p: int, a: int, b: int)
    requires p >= 2 && a >= 1 && b >= 1 && a % p == 0
    ensures (a * b) % p == 0 && (a * b) / p == (a / p) * b
  {
    DivideOut(p, a);
    assert a * b == p * ((a / p) * b);
    MulDivExact(p, (a / p) * b);
  }

  lemma MulCancel(a: int, x: int, y: int)
    requires a >= 1 && a * x == a * y
    ensures x == y
  {
    MulDivExact(a, x);
    MulDivExact(a, y);
  }

  /** N!. */
  function Factorial(N: nat): (f: int)
    ensures f >= 1
  {
    if N == 0 then 1 else MulPositive(N, Factorial(N - 1)); N * Factorial(N - 1)
  }

  /** Multiplicity(p, 1) + ... + Multiplicity(p, N). */
  function FactorialValuation(N: nat, p: int): nat
    requires p >= 2
  {
    if N == 0 then 0 else FactorialValuation(N - 1, p) + Multiplicity(p, N)
  }

  /** The quotients of N and N - 1 by p agree unless p divides N, where
      they differ by one. */
  lemma QuotientStep(N: int, p: int)
    requires p >= 2 && N >= 1
    ensures N % p == 0 ==> (N - 1) / p == N / p - 1
    ensures N % p != 0 ==> (N - 1) / p == N / p
  {
    var M := N / p;
    assert N == p * M + N % p;
    if N % p == 0 {
      assert p * (M - 1) == p * M - p;
      DivModUnique(N - 1, p, M - 1, p - 1);
    } else {
      DivModUnique(N - 1, p, M, N % p - 1);
    }
  }

  /** Stepping N by one adds the exponent of p in N. */
  lemma {:induction false} LegendreSumStep(N: nat, p: int)
    requires p >= 2 && N >= 1
    ensures LegendreSum(N, p) == LegendreSum(N - 1, p) + Multiplicity(p, N)
    decreases N
  {
    QuotientStep(N, p);
    assert LegendreSum(N, p) == N / p + LegendreSum(N / p, p);
    if N - 1 > 0 {
      assert LegendreSum(N - 1, p) == (N - 1) / p + LegendreSum((N - 1) / p, p);
    }
    if N % p == 0 {
      DivideOut(p, N);
      LegendreSumStep(N / p, p);
    }
  }

  /** The division loop counts the factors p in 1, 2, ..., N. */
  lemma {:induction false} LegendreSumCounts(N: nat, p: int)
    requires p >= 2
    ensures LegendreSum(N, p) == FactorialValuation(N, p)
  {
    if N >= 1 {
      LegendreSumCounts(N - 1, p);
      LegendreSumStep(N, p);
    }
  }

  /** (a * b) % p == 0 with 1 <= a < p forces b % p == 0 for a prime p:
      the remainder of p by a is a smaller such a. */
  lemma {:induction false} EuclidBelow(p: int, a: int, b: int)
    requires IsPrime(p) && 1 <= a < p && (a * b) % p == 0
    ensures b % p == 0
    decreases a
  {
    if a > 1 {
      var q, r := p / a, p % a;
      assert p % a != 0;
      assert 1 <= r < a;
      DivExact(a * b, p);
      var t := (a * b) / p;
      assert r * b == p * (b - q * t) by {
        assert p == a * q + r;
        assert r * b == p * b - q * (a * b);
      }
      MulDivExact(p, b - q * t);
      EuclidBelow(p, r, b);
    }
  }

  /** Euclid's lemma: a prime dividing a * b divides a or b. */
  lemma Euclid(p: int, a: int, b: int)
    requires IsPrime(p) && (a * b) % p == 0
    ensures a % p == 0 || b % p == 0
  {
    if a % p != 0 {
      var q := a / p;
      assert (a % p) * b == a * b - p * (q * b);
      ModShift((a % p) * b, p, q * b);
      EuclidBelow(p, a % p, b);
    }
  }

  /** The exponent of a prime in a product is the sum of the exponents. */
  lemma {:induction false} MultiplicityProduct(p: int, a: int, b: int)
    requires IsPrime(p) && a >= 1 && b >= 1
    ensures a * b >= 1
    ensures Multiplicity(p, a * b) == Multiplicity(p, a) + Multiplicity(p, b)
    decreases a + b
  {
    MulPositive(a, b);
    if a % p == 0 {
      DivideOut(p, a);
      DivideOutOfProduct(p, a, b);
      MultiplicityProduct(p, a / p, b);
    } else if b % p == 0 {
      DivideOut(p, b);
      DivideOutOfProduct(p, b, a);
      assert a * b == b * a;
      MultiplicityProduct(p, a, b / p);
      assert (b / p) * a == a * (b / p);
    } else if (a * b) % p == 0 {
      Euclid(p, a, b);
    }
  }

  /** Legendre's formula: v_p_factorial(N, p) is the exponent of the prime
      p in N!. */
  lemma {:induction false} LegendreFormula(N: nat, p: int)
    requires IsPrime(p)
    ensures LegendreSum(N, p) == Multiplicity(p, Factorial(N))
  {
    if N == 0 {
      assert Factorial(0) == 1;
    } else {
      LegendreFormula(N - 1, p);
      MultiplicityProduct(p, N, Factorial(N - 1));
      LegendreSumStep(N, p);
    }
  }
}

// The integer parts of L_of_N (constant_1.py), M_of_N (constant_2.py) and
// Y_of_N (constant_3.py): for every prime p with 2p <= N, the exponent
// v_p(N!) is divided by c_p = ceil(log_p N), and the quotients, the
// remainders, or the remainders paired with p are accumulated. The final
// floating-point formulas are not modelled; c_p is the exact integer
// ceiling of the logarithm.

module Constants {
  import opened Partitions
  import opened Primes
  import opened Legendre

  /** The least e >= from with p^e >= N, given that p^(from - 1) < N. */
  function CeilLogFrom(p: int, N: int, from: nat): (e: nat)
    requires p >= 2 && N >= 1
    requires from == 0 || Pow(p, from - 1) < N
    ensures from <= e && Pow(p, e) >= N
    ensures e == 0 || Pow(p, e - 1) < N
    decreases N - Pow(p, from)
  {
    if Pow(p, from) >= N then from
    else
      PowPositive(p, from);
      MulMono(2, p, Pow(p, from), Pow(p, from));
      CeilLogFrom(p, N, from + 1)
  }

  /** ceil(log_p N): the least e with p^e >= N. */
  function CeilLog(p: int, N: int): (e: nat)
    requires p >= 2 && N >= 1
    ensures Pow(p, e) >= N
    ensures e == 0 || Pow(p, e - 1) < N
  {
    CeilLogFrom(p, N, 0)
  }

  /** CeilLog is the least exponent reaching N. */
  lemma CeilLogLeast(p: int, N: int, e: nat)
    requires p >= 2 && N >= 1 && Pow(p, e) >= N
    ensures CeilLog(p, N) <= e
  {
    var c := CeilLog(p, N);
    if c > e {
      PowMonoExp(p, e, c - 1);
    }
  }

  /** For 2p <= N, p^1 < N, so c_p >= 2 and every division by it is defined. */
  lemma CeilLogAtLeastTwo(p: int, N: int)
    requires p >= 2 && 2 * p <= N
    ensures CeilLog(p, N) >= 2
  {
    var c := CeilLog(p, N);
    assert Pow(p, 1) == p;
    if c <= 1 {
      PowMonoExp(p, c, 1);
    }
  }

  /** Which integer is taken from v_p(N!) and c_p: the quotient
      (constant_1.py), the remainder (constant_2.py and constant_3.py), or
      the largest possible remainder c_p - 1. */
  datatype Part = Quotient | Remainder | Slack

  function Term(N: int, p: int, part: Part): int
    requires 2 <= p && 2 * p <= N
  {
    CeilLogAtLeastTwo(p, N);
    var vp := LegendreSum(N, p);
    var c := CeilLog(p, N);
    match part
    case Quotient => vp / c
    case Remainder => vp % c
    case Slack => c - 1
  }

  /** The loop over ps, stopping at the first p with 2p > N: the sum of
      the parts taken before it. */
  function Total(N: int, ps: seq<int>, part: Part): int
    requires forall i :: 0 <= i < |ps| ==> ps[i] >= 2
  {
    if |ps| == 0 || 2 * ps[0] > N then 0
    else Term(N, ps[0], part) + Total(N, ps[1..], part)
  }

  /** The primes the loops visit: sieve(N // 2) holds exactly the primes p
      with 2p <= N, so the guard `2 * p > N` never stops a loop early. */
  lemma {:induction false} GuardNeverFires(N: int)
    ensures forall p :: p in PrimesUpTo(N / 2) <==> IsPrime(p) && 2 * p <= N
    ensures forall i :: 0 <= i < |PrimesUpTo(N / 2)| ==> 2 * PrimesUpTo(N / 2)[i] <= N
  {
    var ps := PrimesUpTo(N / 2);
    forall p
      ensures p in ps <==> IsPrime(p) && 2 * p <= N
    {
      if IsPrime(p) && 2 * p <= N {
        assert p <= N / 2;
      }
    }
  }

  /** sum over primes p with 2p <= N of f(p), as a plain sum with no stop. */
  function FullTotal(N: int, ps: seq<int>, part: Part): int
    requires forall i :: 0 <= i < |ps| ==> 2 <= ps[i] && 2 * ps[i] <= N
  {
    if |ps| == 0 then 0 else Term(N, ps[0], part) + FullTotal(N, ps[1..], part)
  }

  /** On sieve(N // 2) the loop's total is the full sum over its primes. */
  lemma {:induction false} TotalIsFull(N: int, ps: seq<int>, part: Part)
    requires forall i :: 0 <= i < |ps| ==> 2 <= ps[i] && 2 * ps[i] <= N
    ensures Total(N, ps, part) == FullTotal(N, ps, part)
  {
    if |ps| > 0 {
      TotalIsFull(N, ps[1..], part);
    }
  }

  /** Each remainder lies in [0, c_p), so the remainder total is at most the
      sum of c_p - 1. */
  lemma {:induction false} RemainderBound(N: int, ps: seq<int>)
    requires forall i :: 0 <= i < |ps| ==> ps[i] >= 2
    ensures 0 <= Total(N, ps, Remainder) <= Total(N, ps, Slack)
  {
    if |ps| > 0 && 2 * ps[0] <= N {
      RemainderBound(N, ps[1..]);
    }
  }

  /** The integer sum `total` of L_of_N: sum of v_p(N!) // c_p. */
  method QuotientSum(N: int) returns (total: int)
    requires N >= 1
    ensures total == Total(N, PrimesUpTo(N / 2), Quotient)
  {
    var primes := Sieve(N / 2);
    total := SumParts(N, primes, Quotient);
  }

  /** The integer sum `total_mod` of M_of_N: sum of v_p(N!) % c_p. */
  method RemainderSum(N: int) returns (totalMod: int)
    requires N >= 1
    ensures totalMod == Total(N, PrimesUpTo(N / 2), Remainder)
    ensures totalMod <= Total(N, PrimesUpTo(N / 2), Slack)
  {
    var primes := Sieve(N / 2);
    totalMod := SumParts(N, primes, Remainder);
    RemainderBound(N, primes);
  }

  /** The shared loop: `for p in primes: if 2*p > N: break; ...`. */
  method SumParts(N: int, primes: seq<int>, part: Part) returns (total: int)
    requires N >= 1
    requires forall i :: 0 <= i < |primes| ==> primes[i] >= 2
    ensures total == Total(N, primes, part)
  {
    total := 0;
    var i := 0;
    while i < |primes|
      invariant 0 <= i <= |primes|
      invariant total + Total(N, primes[i..], part) == Total(N, primes, part)
    {
      var p := primes[i];
      assert primes[i..][1..] == primes[i + 1..];
      if 2 * p > N {
        break;
      }
      var vp := VPFactorial(N, p);
      CeilLogAtLeastTwo(p, N);
      var c := CeilLog(p, N);
      match part {
        case Quotient => total := total + vp / c;
        case Remainder => total := total + vp % c;
        case Slack => total := total + (c - 1);
      }
      i := i + 1;
    }
  }

  /** The integer terms of Y_of_N, each prime p with 2p <= N paired with
      v_p(N!) % c_p; the float total multiplies the second by ln p. */
  function Terms(N: int, ps: seq<int>): (ts: seq<(int, int)>)
    requires forall i :: 0 <= i < |ps| ==> ps[i] >= 2
    ensures |ts| <= |ps|
  {
    if |ps| == 0 || 2 * ps[0] > N then []
    else [(ps[0], Term(N, ps[0], Remainder))] + Terms(N, ps[1..])
  }

  /** Y_of_N over sieve(N // 2), the bytearray sieve of constant_3.py. */
  method RemainderTerms(N: int) returns (terms: seq<(int, int)>)
    requires N >= 1
    ensures terms == Terms(N, PrimesUpTo(N / 2))
  {
    var primes := SieveSlices(N / 2);
    terms := CollectTerms(N, primes);
  }

  /** Y_of_N's loop: `for p in primes: if p*2 > N: break; ...`, with the
      pair (p, vp % c_p) in place of the float product (vp % c_p) * ln p. */
  method CollectTerms(N: int, primes: seq<int>) returns (terms: seq<(int, int)>)
    requires N >= 1
    requires forall i :: 0 <= i < |primes| ==> primes[i] >= 2
    ensures terms == Terms(N, primes)
  {
    terms := [];
    var i := 0;
    while i < |primes|
      invariant 0 <= i <= |primes|
      invariant terms + Terms(N, primes[i..]) == Terms(N, primes)
    {
      var p := primes[i];
      assert primes[i..][1..] == primes[i + 1..];
      if p * 2 > N {
        break;
      }
      var vp := VPFactorial(N, p);
      CeilLogAtLeastTwo(p, N);
      var c := CeilLog(p, N);
      assert Terms(N, primes[i..]) == [(p, vp % c)] + Terms(N, primes[i + 1..]);
      assert terms + Terms(N, primes[i..]) == (terms + [(p, vp % c)]) + Terms(N, primes[i + 1..]);
      terms := terms + [(p, vp % c)];
      i := i + 1;
    }
  }

  /** Every prime of sieve(N // 2) gets a term, and each term lies in
      [0, c_p). */
  lemma TermsInRange(N: int)
    ensures |Terms(N, PrimesUpTo(N / 2))| == |PrimesUpTo(N / 2)|
    ensures forall i :: 0 <= i < |PrimesUpTo(N / 2)| ==>
      0 <= Terms(N, PrimesUpTo(N / 2))[i].1 < CeilLog(PrimesUpTo(N / 2)[i], N)
  {
    var ps := PrimesUpTo(N / 2);
    GuardNeverFires(N);
    TermsFull(N, ps);
    TermsPairs(N, ps);
  }

  /** The i-th term pairs the i-th prime with its remainder, for each p
      before the first with 2p > N. */
  lemma {:induction false} TermsPairs(N: int, ps: seq<int>)
    requires forall i :: 0 <= i < |ps| ==> ps[i] >= 2
    ensures forall i :: 0 <= i < |Terms(N, ps)| ==>
      2 * ps[i] <= N && Terms(N, ps)[i] == (ps[i], Term(N, ps[i], Remainder))
  {
    if |ps| > 0 && 2 * ps[0] <= N {
      TermsPairs(N, ps[1..]);
    }
  }

  lemma {:induction false} TermsFull(N: int, ps: seq<int>)
    requires forall i :: 0 <= i < |ps| ==> 2 <= ps[i] && 2 * ps[i] <= N
    ensures |Terms(N, ps)| == |ps|
  {
    if |ps| > 0 {
      TermsFull(N, ps[1..]);
    }
  }
}

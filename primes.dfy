// The Sieve of Eratosthenes of factor_ge_n_factor/constant_1.py and
// constant_2.py (a list of flags, one assignment per multiple) and of
// factor_ge_n_factor/constant_3.py (a bytearray, one slice assignment per
// prime). Both return exactly the primes up to n, in ascending order.
module Primes {
  import opened Partitions
  import opened DivisorSearch

  /** p is prime: at least 2, with no divisor strictly between 1 and p. */
  predicate IsPrime(p: int)
  {
    p >= 2 && forall d :: 2 <= d < p ==> p % d != 0
  }

  /** The least d >= f that divides x. */
  function LeastFactorFrom(x: int, f: int): (d: int)
    requires 2 <= f <= x
    ensures f <= d <= x && x % d == 0
    ensures forall y :: f <= y < d ==> x % y != 0
    decreases x - f
  {
    if x % f == 0 then f else LeastFactorFrom(x, f + 1)
  }

  /** The least factor >= 2 of x. */
  function LeastFactor(x: int): (d: int)
    requires x >= 2
    ensures 2 <= d <= x && x % d == 0
    ensures forall y :: 2 <= y < d ==> x % y != 0
  {
    LeastFactorFrom(x, 2)
  }

  /** The primes up to n, in ascending order. */
  function PrimesUpTo(n: int): (ps: seq<int>)
    ensures forall p :: p in ps <==> p <= n && IsPrime(p)
    ensures forall i :: 0 <= i < |ps| ==> 2 <= ps[i] <= n
    ensures forall i, j :: 0 <= i < j < |ps| ==> ps[i] < ps[j]
    decreases n
  {
    if n < 2 then [] else PrimesUpTo(n - 1) + (if IsPrime(n) then [n] else [])
  }

  // ---------------------------------------------------------------------
  // Divisibility facts.

  /** A divisor of a divisor is a divisor. */
  lemma DivisorOfDivisor(x: int, s: int, d: int)
    requires x >= 1 && 1 <= d <= s <= x && x % s == 0 && s % d == 0
    ensures x % d == 0
  {
    DivExact(x, s);
    DivExact(s, d);
    var a, b := x / s, s / d;
    assert x == d * (b * a) by {
      assert x == s * a;
      assert s == d * b;
    }
    MulDivExact(d, b * a);
  }

  /** The least factor of x is prime. */
  lemma LeastFactorIsPrime(x: int)
    requires x >= 2
    ensures IsPrime(LeastFactor(x))
  {
    var s := LeastFactor(x);
    forall d | 2 <= d < s ensures s % d != 0 {
      if s % d == 0 {
        DivisorOfDivisor(x, s, d);
      }
    }
  }

  /** A composite x has a least factor whose square is at most x. */
  lemma CompositeLeastFactor(x: int)
    requires x >= 2 && !IsPrime(x)
    ensures LeastFactor(x) < x && LeastFactor(x) * LeastFactor(x) <= x
  {
    var s := LeastFactor(x);
    var d :| 2 <= d < x && x % d == 0;
    assert s <= d;
    Cofactor(x, s);
    var c := x / s;
    assert c >= 2;
    assert s <= c;
    MulMono(s, s, s, c);
  }

  // ---------------------------------------------------------------------
  // What the sieve has marked.

  /** After the passes for 2 .. i - 1, x is marked exactly when its least
      factor q is below i with q * q <= x, for only a prime i marks
      anything, and it marks the multiples of i from i * i on. */
  predicate Marked(x: int, i: int)
  {
    x >= 2 && LeastFactor(x) < i && LeastFactor(x) * LeastFactor(x) <= x
  }

  /** When the pass for i begins, i is marked exactly when it is not prime. */
  lemma MarkedSelf(i: int)
    requires i >= 2
    ensures Marked(i, i) <==> !IsPrime(i)
  {
    if !IsPrime(i) {
      CompositeLeastFactor(i);
    }
  }

  /** The pass for i marks the multiples x of i with i * i <= x when i is
      prime, and nothing when it is not. */
  lemma MarkedStep(x: int, i: int)
    requires i >= 2 && x >= 0
    ensures Marked(x, i + 1) <==> Marked(x, i) || (IsPrime(i) && i * i <= x && x % i == 0)
  {
    if IsPrime(i) && i * i <= x && x % i == 0 {
      MulPositive(i, i);
      var s := LeastFactor(x);
      assert s <= i;
      MulMono(s, i, s, i);
    }
    if Marked(x, i + 1) && !Marked(x, i) {
      LeastFactorIsPrime(x);
    }
  }

  /** Euclidean division is unique: x = i * q + r with 0 <= r < i fixes
      the quotient and the remainder. */
  lemma DivModUnique(x: int, i: int, q: int, r: int)
    requires i >= 1 && x == i * q + r && 0 <= r < i
    ensures x / i == q && x % i == r
  {
    var q', r' := x / i, x % i;
    assert x == i * q' + r' && 0 <= r' < i;
    assert i * (q - q') == r' - r;
    if q - q' >= 1 || q - q' <= -1 {
      MulSign(i, q - q');
    }
  }

  /** Among i * m .. i * m + i - 1 only i * m is a multiple of i. */
  lemma MultipleWindow(i: int, m: int, x: int)
    requires i >= 1 && i * m <= x < i * m + i
    ensures x % i == 0 <==> x == i * m
  {
    DivModUnique(x, i, m, x - i * m);
  }

  /** Shifting by a multiple of i keeps the remainder. */
  lemma ModShift(y: int, i: int, m: int)
    requires i >= 1
    ensures (y + i * m) % i == y % i
  {
    var q := y / i;
    assert y + i * m == i * (q + m) + y % i;
    DivModUnique(y + i * m, i, q + m, y % i);
  }

  // ---------------------------------------------------------------------
  // The list-based sieve (constant_1.py, constant_2.py).

  /** The inner loop: is_comp[j] = True for j in range(i * i, n + 1, i). */
  method MarkMultiples(isComp: array<bool>, i: int, n: int)
    requires i >= 2 && isComp.Length == n + 1
    modifies isComp
    ensures forall x :: 0 <= x < isComp.Length ==>
      isComp[x] == (old(isComp[x]) || (i * i <= x && x % i == 0))
  {
    var j := i * i;
    ghost var m := i;
    while j <= n
      invariant j == i * m && m >= i
      invariant forall x :: 0 <= x < isComp.Length ==>
        isComp[x] == (old(isComp[x]) || (i * i <= x < j && x % i == 0))
      decreases n - j
    {
      forall x | j <= x < j + i {
        MultipleWindow(i, m, x);
      }
      isComp[j] := true;
      j, m := j + i, m + 1;
    }
  }

  /** sieve(n) of constant_1.py and constant_2.py. */
  method Sieve(n: int) returns (primes: seq<int>)
    ensures primes == PrimesUpTo(n)
  {
    var isComp := new bool[if n + 1 > 0 then n + 1 else 0](_ => false);
    primes := [];
    var i := 2;
    while i <= n
      invariant 2 <= i <= (if n < 2 then 2 else n + 1)
      invariant primes == PrimesUpTo(i - 1)
      invariant forall x :: 0 <= x < isComp.Length ==> (isComp[x] <==> Marked(x, i))
      decreases n - i
    {
      MarkedSelf(i);
      if !isComp[i] {
        primes := primes + [i];
        MarkMultiples(isComp, i, n);
      }
      forall x | 0 <= x < isComp.Length {
        MarkedStep(x, i);
      }
      i := i + 1;
    }
    if n < 2 {
      assert PrimesUpTo(1) == [] == PrimesUpTo(n);
    }
  }

  // ---------------------------------------------------------------------
  // The bytearray sieve (constant_3.py).

  /** A byte of a bytearray. */
  newtype byte = x: int | 0 <= x < 256

  /** len(range(start, stop, step)) for a positive step. */
  function RangeLength(start: int, stop: int, step: int): (len: int)
    requires step >= 1
    ensures len >= 0
  {
    if stop <= start then 0 else (stop - start - 1) / step + 1
  }

  /** The range start, start + step, ... stops exactly at stop: its len
      elements are below stop, and the next one is not. */
  lemma RangeLengthMeaning(start: int, stop: int, step: int)
    requires step >= 1
    ensures var len := RangeLength(start, stop, step);
      start + len * step >= stop && (len >= 1 ==> start + (len - 1) * step < stop)
  {
    var len := RangeLength(start, stop, step);
    if stop > start {
      var q, r := (stop - start - 1) / step, (stop - start - 1) % step;
      assert stop - start - 1 == step * q + r;
      assert len * step == step * q + step;
    }
  }

  /** The slice written by constant_3.py, ((n - start) // i) + 1 bytes for
      is_comp[start:n+1:i] with start <= n, has exactly the length of the
      slice, so the assignment never raises. */
  lemma SliceCountFits(n: int, start: int, i: int)
    requires i >= 1 && start <= n
    ensures (n - start) / i + 1 == RangeLength(start, n + 1, i)
  {
  }

  /** x is one of the indices start, start + step, ... below stop. */
  predicate InSlice(x: int, start: int, stop: int, step: int)
    requires step >= 1
  {
    start <= x < stop && (x - start) % step == 0
  }

  /** One more element of the range: the indices below start + (t + 1) *
      step are those below start + t * step and start + t * step itself. */
  lemma SliceStep(x: int, start: int, step: int, t: int)
    requires step >= 1 && t >= 0
    ensures InSlice(x, start, start + (t + 1) * step, step) <==>
      InSlice(x, start, start + t * step, step) || x == start + t * step
  {
    assert start + (t + 1) * step == start + t * step + step;
    if start + t * step <= x < start + t * step + step {
      MultipleWindow(step, t, x - start);
    }
    if x == start + t * step {
      MulDivExact(step, t);
      MulSign(step, t + 1);
    }
  }

  /** The whole range: RangeLength(start, stop, step) elements reach exactly
      the indices below stop. */
  lemma SliceEnd(x: int, start: int, stop: int, step: int)
    requires step >= 1
    ensures InSlice(x, start, start + RangeLength(start, stop, step) * step, step) <==>
      InSlice(x, start, stop, step)
  {
    var len := RangeLength(start, stop, step);
    RangeLengthMeaning(start, stop, step);
    if len >= 1 && stop <= x < start + len * step {
      assert start + len * step == start + (len - 1) * step + step;
      MultipleWindow(step, len - 1, x - start);
    }
    if len == 0 {
      assert start + len * step == start;
    }
  }

  /** An extended slice assignment a[start:stop:step] = value * count.
      Python raises ValueError unless count is the length of the slice;
      it then sets a[start + t * step] for t < count, and nothing else. */
  method AssignSlice(a: array<byte>, start: int, stop: int, step: int, value: byte, count: int)
    requires 0 <= start && stop <= a.Length && step >= 1
    requires count == RangeLength(start, stop, step)
    modifies a
    ensures forall x :: 0 <= x < a.Length ==>
      a[x] == (if InSlice(x, start, stop, step) then value else old(a[x]))
  {
    RangeLengthMeaning(start, stop, step);
    var t := 0;
    while t < count
      invariant 0 <= t <= count
      invariant forall x :: 0 <= x < a.Length ==>
        a[x] == (if InSlice(x, start, start + t * step, step) then value else old(a[x]))
    {
      var idx := start + t * step;
      MulMono(t, count - 1, step, step);
      forall x {:trigger InSlice(x, start, idx, step)} | 0 <= x < a.Length
        ensures InSlice(x, start, start + (t + 1) * step, step) <==>
          InSlice(x, start, idx, step) || x == idx
      {
        SliceStep(x, start, step, t);
      }
      a[idx] := value;
      t := t + 1;
    }
    forall x | 0 <= x < a.Length {
      SliceEnd(x, start, stop, step);
    }
  }

  /** The slice i*i, i*i + i, ... up to n holds exactly the multiples of i
      from i * i to n. */
  lemma SliceOfSquare(x: int, i: int, n: int)
    requires i >= 1
    ensures InSlice(x, i * i, n + 1, i) <==> i * i <= x <= n && x % i == 0
  {
    ModShift(x - i * i, i, i);
  }

  /** The marking step of constant_3.py: if i * i <= n, the slice
      assignment is_comp[i*i:n+1:i] = b'\x01' * (((n - i*i) // i) + 1). */
  method MarkSlice(isComp: array<byte>, i: int, n: int)
    requires i >= 2 && isComp.Length == n + 1
    modifies isComp
    ensures forall x :: 0 <= x < isComp.Length ==>
      isComp[x] == (if i * i <= x && x % i == 0 then 1 else old(isComp[x]))
  {
    var start := i * i;
    if start <= n {
      SliceCountFits(n, start, i);
      AssignSlice(isComp, start, n + 1, i, 1, ((n - start) / i) + 1);
    }
    forall x | 0 <= x < isComp.Length {
      SliceOfSquare(x, i, n);
    }
  }

  /** sieve(n) of constant_3.py: flags in a bytearray, and one slice
      assignment per prime i with i * i <= n. */
  method SieveSlices(n: int) returns (primes: seq<int>)
    ensures primes == PrimesUpTo(n)
  {
    var isComp := new byte[if n + 1 > 0 then n + 1 else 0](_ => 0);
    primes := [];
    var i := 2;
    while i <= n
      invariant 2 <= i <= (if n < 2 then 2 else n + 1)
      invariant primes == PrimesUpTo(i - 1)
      invariant forall x :: 0 <= x < isComp.Length ==> (isComp[x] != 0 <==> Marked(x, i))
      decreases n - i
    {
      primes := SliceSieveStep(isComp, i, n, primes);
      i := i + 1;
    }
    if n < 2 {
      assert PrimesUpTo(1) == [] == PrimesUpTo(n);
    }
  }

  /** One pass of the outer loop of the bytearray sieve: i is kept when no
      smaller prime marked it, and then its multiples from i * i are
      marked. */
  method SliceSieveStep(isComp: array<byte>, i: int, n: int, primes: seq<int>) returns (next: seq<int>)
    requires 2 <= i <= n && isComp.Length == n + 1
    requires primes == PrimesUpTo(i - 1)
    requires forall x :: 0 <= x < isComp.Length ==> (isComp[x] != 0 <==> Marked(x, i))
    modifies isComp
    ensures next == PrimesUpTo(i)
    ensures forall x :: 0 <= x < isComp.Length ==> (isComp[x] != 0 <==> Marked(x, i + 1))
  {
    MarkedSelf(i);
    next := primes;
    if isComp[i] == 0 {
      next := primes + [i];
      MarkSlice(isComp, i, n);
    }
    forall x | 0 <= x < isComp.Length {
      MarkedStep(x, i);
    }
  }
}

/**
 Prime numbers as the hash tables use them: the two searches by trial division, why they end, and
 Euclid's lemma, on which both probe sequences rest.
 */
module Primes {

  predicate Divides(d: int, n: int)
    requires d > 0
  {
    n % d == 0
  }

  ghost predicate IsPrime(n: int) {
    n >= 2 && forall d :: 1 < d < n ==> !Divides(d, n)
  }

  // ---------- Divisibility ----------

  lemma MultipleDivides(d: int, k: int)
    requires d > 0
    ensures Divides(d, d * k)
  {
    var n := d * k;
    var q, r := n / d, n % d;
    assert r == d * (k - q);
    assert k - q >= 1 ==> d * (k - q) >= d;
    assert k - q <= -1 ==> d * (k - q) <= -d;
  }

  lemma QuotientOf(d: int, n: int) returns (k: int)
    requires d > 0 && Divides(d, n)
    ensures n == d * k
  {
    k := n / d;
  }

  lemma DividesSum(d: int, x: int, y: int)
    requires d > 0 && Divides(d, x) && Divides(d, y)
    ensures Divides(d, x + y) && Divides(d, x - y)
  {
    var j := QuotientOf(d, x);
    var k := QuotientOf(d, y);
    assert x + y == d * (j + k) && x - y == d * (j - k);
    MultipleDivides(d, j + k);
    MultipleDivides(d, j - k);
  }

  lemma DividesProduct(d: int, x: int, y: int)
    requires d > 0 && Divides(d, x)
    ensures Divides(d, x * y)
  {
    var j := QuotientOf(d, x);
    assert x * y == d * (j * y);
    MultipleDivides(d, j * y);
  }

  lemma DividesThrough(d: int, e: int, n: int)
    requires d > 0 && e > 0 && Divides(d, e) && Divides(e, n)
    ensures Divides(d, n)
  {
    var k := QuotientOf(e, n);
    DividesProduct(d, e, k);
  }

  lemma DivisorsAreSmaller(d: int, n: int)
    requires d > 0 && n > 0 && Divides(d, n)
    ensures d <= n
  {
    var k := QuotientOf(d, n);
    assert k <= 0 ==> d * k <= 0;
    assert k >= 1 ==> d * k >= d;
  }

  /** Equal remainders: the difference is a multiple. */
  lemma SameRemainder(x: int, y: int, p: int)
    requires p > 0 && x % p == y % p
    ensures Divides(p, x - y)
  {
    assert x - y == p * (x / p - y / p);
    MultipleDivides(p, x / p - y / p);
  }

  // ---------- Euclid's lemma ----------

  /** A prime that divides a product with a smaller positive factor divides the other factor. */
  lemma {:induction false} EuclidsLemma(p: int, a: int, b: int)
    requires IsPrime(p) && 0 < a < p && Divides(p, a * b)
    ensures Divides(p, b)
    decreases a
  {
    if a > 1 {
      var q, r := p / a, p % a;
      assert !Divides(a, p);
      assert r * b == p * b - q * (a * b) by {
        assert r == p - q * a;
        assert (p - q * a) * b == p * b - q * a * b;
        assert q * a * b == q * (a * b);
      }
      MultipleDivides(p, b);
      DividesProduct(p, a * b, q);
      assert (a * b) * q == q * (a * b);
      DividesSum(p, p * b, q * (a * b));
      EuclidsLemma(p, r, b);
    }
  }

  // ---------- There is always another prime ----------

  function Factorial(n: nat): (f: int)
    ensures f >= 1
  {
    if n == 0 then 1 else n * Factorial(n - 1)
  }

  lemma {:induction false} FactorialDivisors(n: nat, d: int)
    requires 1 <= d <= n
    ensures Divides(d, Factorial(n))
    decreases n
  {
    if d == n {
      MultipleDivides(n, Factorial(n - 1));
    } else {
      FactorialDivisors(n - 1, d);
      DividesProduct(d, Factorial(n - 1), n);
    }
  }

  /** The least divisor from d on is prime when nothing smaller divides. */
  lemma {:induction false} PrimeDivisorFrom(n: int, d: int) returns (p: int)
    requires 2 <= d <= n && forall e :: 1 < e < d ==> !Divides(e, n)
    ensures IsPrime(p) && Divides(p, n)
    decreases n - d
  {
    if Divides(d, n) {
      forall e | 1 < e < d
        ensures !Divides(e, d)
      {
        if Divides(e, d) {
          DividesThrough(e, d, n);
        }
      }
      p := d;
    } else {
      MultipleDivides(n, 1);
      p := PrimeDivisorFrom(n, d + 1);
    }
  }

  /** Euclid: above every number there is a prime. */
  lemma PrimeAbove(n: nat) returns (p: int)
    ensures IsPrime(p) && p > n
  {
    var f := Factorial(n);
    p := PrimeDivisorFrom(f + 1, 2);
    if p <= n {
      FactorialDivisors(n, p);
      DividesSum(p, f + 1, f);
    }
  }

  lemma EvenNotPrime(n: int)
    ensures n > 2 && n % 2 == 0 ==> !IsPrime(n)
  {
    assert n % 2 == 0 ==> Divides(2, n);
  }

  lemma OddUnlessTwo(p: int)
    requires IsPrime(p) && p > 2
    ensures p % 2 == 1
  {
    assert !Divides(2, p);
  }

  // ---------- Trial division ----------

  lemma OddDivisor(d: int, n: int)
    requires d > 0 && n % 2 == 1 && Divides(d, n)
    ensures d != 2
  {
  }

  lemma CofactorBounds(d: int, e: int, i: int)
    requires d >= i >= 1 && d < d * e < i * i
    ensures 1 < e < i && d * e == e * d
  {
    assert e <= 0 ==> d * e <= 0;
    if e >= i {
      ProductAtLeast(d, e, i);
    }
  }

  lemma ProductAtLeast(d: int, e: int, i: int)
    requires d >= i && e >= i && i >= 1
    ensures d * e >= i * i
  {
    assert (d - i) * e >= 0;
    assert i * (e - i) >= 0;
    assert d * e - i * i == (d - i) * e + i * (e - i);
  }

  /** Of two factors, one is at most the square root. */
  lemma SmallerFactor(n: int, i: int, d: int) returns (e: int)
    requires n >= 3 && i >= 3 && i * i > n && 1 < d < n && Divides(d, n)
    ensures 1 < e < i && Divides(e, n)
  {
    if d < i {
      e := d;
    } else {
      e := QuotientOf(d, n);
      CofactorBounds(d, e, i);
      MultipleDivides(e, d);
    }
  }

  /** An odd number that nothing up to its square root divides is prime. */
  lemma TrialDivision(n: int, i: int)
    requires n >= 3 && n % 2 == 1 && i >= 3 && i * i > n
    requires forall d :: 3 <= d < i ==> !Divides(d, n)
    ensures IsPrime(n)
  {
    if d :| 1 < d < n && Divides(d, n) {
      var e := SmallerFactor(n, i, d);
      OddDivisor(e, n);
    }
  }

  /** Trial division of an odd number by 3, 4, 5 and so on up to its square root; it takes 1 for a prime. */
  method HasNoDivisor(n: int) returns (prime: bool)
    requires n >= 1 && n % 2 == 1
    ensures prime <==> n == 1 || IsPrime(n)
  {
    var i := 3;
    while i * i <= n
      invariant i >= 3 && forall d :: 3 <= d < i ==> !Divides(d, n)
      decreases n - i
    {
      if n % i == 0 {
        assert Divides(i, n) && i < n by {
          assert i * i >= 3 * i;
        }
        return false;
      }
      assert i * i >= i;
      i := i + 1;
    }
    if n >= 3 {
      TrialDivision(n, i);
    }
    return true;
  }

  /** The first prime from N on; small numbers give 11. */
  method NextPrime(N: nat) returns (prime: int)
    ensures IsPrime(prime)
    ensures N < 10 ==> prime == 11
    ensures N >= 10 ==> prime >= N && forall q :: N <= q < prime ==> !IsPrime(q)
  {
    var n: int := N;
    if N < 10 {
      n := 11;
    } else if N % 2 == 0 {
      n := N + 1;
    }
    ghost var first := n;
    ghost var p := PrimeAbove(n);
    OddUnlessTwo(p);
    TrialDivision(11, 4);
    while true
      invariant first <= n <= p && n % 2 == 1 && n >= 11
      invariant forall q :: first <= q < n ==> !IsPrime(q)
      decreases p - n
    {
      var found := HasNoDivisor(n);
      if found {
        EvenNotPrime(N);
        return n;
      }
      EvenNotPrime(n + 1);
      n := n + 2;
    }
  }

  /** Unsigned 64-bit subtraction wraps around below 0. */
  const WORD := 0x1_0000_0000_0000_0000

  function Back(n: nat, k: nat): (r: int)
    requires k < WORD
    ensures r >= 0
  {
    if n >= k then n - k else n - k + WORD
  }

  /** The first number tried: two below the odd number at or below N. */
  function FirstTried(N: nat): (n: int)
    ensures n >= 1 && n % 2 == 1
  {
    Back(if N % 2 == 0 then Back(N, 1) else N, 2)
  }

  /** What the backward search finds: the greatest prime from the first number tried downwards, or 1. */
  ghost predicate IsPrev(N: nat, prime: int) {
    if FirstTried(N) == 1 then prime == 1
    else IsPrime(prime) && prime <= FirstTried(N) && forall q :: prime < q <= FirstTried(N) ==> !IsPrime(q)
  }

  ghost function PrimeUpTo(n: int): (p: int)
    requires n >= 3
    ensures IsPrime(p) && p <= n && forall q :: p < q <= n ==> !IsPrime(q)
    decreases n
  {
    TrialDivision(3, 3);
    if IsPrime(n) then n else PrimeUpTo(n - 1)
  }

  ghost function PrevOf(N: nat): (p: int)
    ensures IsPrev(N, p) && forall q :: IsPrev(N, q) ==> q == p
  {
    if FirstTried(N) == 1 then 1 else PrimeUpTo(FirstTried(N))
  }

  /** Down from N by twos; below 3 the unsigned counter wraps around. */
  method PrevPrime(N: nat) returns (prime: int)
    ensures IsPrev(N, prime)
  {
    var n: int := N;
    if N % 2 == 0 {
      n := Back(n, 1);
    }
    ghost var first, next := FirstTried(N), FirstTried(N);
    TrialDivision(3, 3);
    while true
      invariant n >= 0 && Back(n, 2) == next && next % 2 == 1 && 1 <= next <= first && (first > 1 ==> next > 1)
      invariant forall q :: next < q <= first ==> !IsPrime(q)
      decreases next
    {
      n := Back(n, 2);
      var found := HasNoDivisor(n);
      if found {
        return n;
      }
      next := NextTried(n, first);
    }
  }

  lemma NextTried(n: int, first: int) returns (next: int)
    requires n <= first && n % 2 == 1 && n > 1 && !IsPrime(n) && forall q :: n < q <= first ==> !IsPrime(q)
    ensures next == Back(n, 2) && next % 2 == 1 && 1 < next < n
    ensures forall q :: next < q <= first ==> !IsPrime(q)
  {
    TrialDivision(3, 3);
    EvenNotPrime(n - 1);
    next := n - 2;
  }

  /** The search promises the prime before N; it finds it except for N up to 4, and even N right after a prime. */
  lemma PrevPrimeExactly(N: nat, prime: int)
    requires IsPrev(N, prime)
    ensures (IsPrime(prime) && prime < N && forall q :: prime < q < N ==> !IsPrime(q))
       <==> N >= 5 && (N % 2 == 1 || !IsPrime(N - 1))
  {
    TrialDivision(3, 3);
    if N <= 2 {
      assert FirstTried(N) > 3;
    } else if N > 4 {
      EvenNotPrime(if N % 2 == 0 then N - 2 else N - 1);
      assert FirstTried(N) == if N % 2 == 0 then N - 3 else N - 2;
    }
  }

  /** The prime before 8 is 7; the search gives 5. */
  lemma PrevPrimeSkipsSeven()
    ensures IsPrev(8, 5) && IsPrime(7)
  {
    TrialDivision(5, 3);
    TrialDivision(7, 3);
    EvenNotPrime(6);
  }
}

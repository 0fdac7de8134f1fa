/** `isPrime` and `nextPrime`, which size the hash tables. */
module Primes {
  import opened Words

  ghost predicate Divisible(n: nat, d: nat)
    requires d > 0
  {
    exists q: nat :: n == q * d
  }

  ghost predicate Prime(n: nat) {
    n >= 2 && forall d: nat | 2 <= d < n :: !Divisible(n, d)
  }

  /** What `isPrime` accepts: the primes, and 0 and 1. */
  ghost predicate Accepted(n: nat) {
    n < 2 || Prime(n)
  }

  lemma DivisibleIff(n: nat, d: nat)
    requires d > 0
    ensures Divisible(n, d) <==> n % d == 0
  {
    if n % d == 0 {
      assert n == n / d * d;
    } else if Divisible(n, d) {
      var q: nat :| n == q * d;
      DivModUnique(n, d, q, 0);
    }
  }

  /** A divisor whose square is too large has a partner whose square is not. */
  lemma SmallDivisor(n: nat, d: nat, i: nat) returns (e: nat)
    requires 2 <= d < n && Divisible(n, d) && i > 0 && i * i > n
    ensures 2 <= e < i && Divisible(n, e)
  {
    if d < i {
      e := d;
    } else {
      var q: nat :| n == q * d;
      e := q;
      CofactorBounds(n, d, q, i);
    }
  }

  lemma CofactorBounds(n: nat, d: nat, q: nat, i: nat)
    requires n == q * d && 2 <= d < n && d >= i && i * i > n
    ensures 2 <= q < i && Divisible(n, q)
  {
    assert n == d * q;
    if q >= i { SquareAtLeast(q, d, i); }
  }

  lemma SquareAtLeast(q: nat, d: nat, i: nat)
    requires q >= i && d >= i
    ensures q * d >= i * i
  {
    Distribute(q, i, d - i);
    Distribute(i, i, q - i);
    assert q * (d - i) >= 0 && i * (q - i) >= 0;
  }

  lemma OddDivisor(n: nat, d: nat)
    requires n % 2 == 1 && d > 0 && d % 2 == 0
    ensures !Divisible(n, d)
  {
    if Divisible(n, d) {
      var q: nat :| n == q * d;
      EvenMultiple(q, d);
    }
  }

  lemma EvenMultiple(q: nat, d: nat)
    requires d % 2 == 0
    ensures q * d % 2 == 0
  {
    var h := d / 2;
    assert d == 2 * h;
    assert q * d == 2 * (q * h);
  }

  /** No divisor below `i` has been found. */
  ghost predicate NoneBelow(n: nat, i: nat) {
    forall d: nat | 2 <= d < i :: !Divisible(n, d)
  }

  method IsPrime(n: nat) returns (r: bool)
    ensures r <==> Accepted(n)
  {
    if n < 3 {
      return true;
    }
    if n % 2 == 0 {
      DivisibleIff(n, 2);
      return false;
    }
    var i: nat := 3;
    OddDivisor(n, 2);
    while i * i <= n
      invariant i >= 3 && i % 2 == 1 && NoneBelow(n, i)
      decreases n - i
    {
      DivisibleIff(n, i);
      SquareAbove(i);
      if n % i == 0 {
        return false;
      }
      OddDivisor(n, i + 1);
      i := i + 2;
    }
    NoSmallMeansPrime(n, i);
    r := true;
  }

  lemma SquareAbove(i: nat)
    requires i >= 3
    ensures i * i >= i + i + i
  {
    Distribute(i, 3, i - 3);
    assert i * (i - 3) >= 0;
  }

  lemma NoSmallMeansPrime(n: nat, i: nat)
    requires n >= 2 && i > 0 && i * i > n && NoneBelow(n, i)
    ensures Prime(n)
  {
    forall d: nat | 2 <= d < n ensures !Divisible(n, d) {
      if Divisible(n, d) {
        var e := SmallDivisor(n, d, i);
      }
    }
  }

  // ---------------------------------------------------------------- there is always another prime

  function Factorial(n: nat): (f: nat)
    ensures f >= 1
  {
    if n == 0 then 1 else n * Factorial(n - 1)
  }

  lemma {:induction false} FactorialDivisible(n: nat, d: nat)
    requires 1 <= d <= n
    ensures Divisible(Factorial(n), d)
  {
    if d == n {
      assert Factorial(n) == Factorial(n - 1) * d;
    } else {
      FactorialDivisible(n - 1, d);
      var q: nat :| Factorial(n - 1) == q * d;
      assert n * (q * d) == (n * q) * d;
    }
  }

  lemma {:induction false} PrimeDivisor(n: nat, d: nat) returns (p: nat)
    requires 2 <= d <= n && Divisible(n, d)
    ensures Prime(p) && Divisible(n, p)
    decreases d
  {
    if Prime(d) {
      p := d;
    } else {
      var e: nat :| 2 <= e < d && Divisible(d, e);
      var q: nat :| n == q * d;
      var h: nat :| d == h * e;
      assert q * (h * e) == (q * h) * e;
      p := PrimeDivisor(n, e);
    }
  }

  /** Euclid: above every number there is a prime. */
  lemma PrimeAbove(n: nat) returns (p: nat)
    ensures p > n && Prime(p)
  {
    var m := Factorial(n) + 1;
    assert m == 1 * m;
    p := PrimeDivisor(m, m);
    if p <= n {
      FactorialDivisible(n, p);
      DivisibleIff(Factorial(n), p);
      DivisibleIff(m, p);
      var q := Factorial(n) / p;
      DivModUnique(m, p, q, 1);
    }
  }

  /** The least accepted number from `n` on: 0 for a size hint of 0, which no caller passes. */
  method NextPrime(n: nat) returns (r: nat)
    ensures r >= n && Accepted(r) && forall k: nat | n <= k < r :: !Accepted(k)
    ensures r == 0 <==> n == 0
  {
    ghost var bound := PrimeAbove(n);
    r := n;
    var found := IsPrime(r);
    while !found
      invariant n <= r <= bound && (found <==> Accepted(r))
      invariant forall k: nat | n <= k < r :: !Accepted(k)
      decreases bound - r
    {
      r := r + 1;
      found := IsPrime(r);
    }
  }
}

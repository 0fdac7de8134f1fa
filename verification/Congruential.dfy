/** Linear congruential generators with a power-of-two modulus: after `n` steps the state is back where it
    was exactly when the modulus divides `n`. */
module Congruential {
  import opened Words

  /** One step `x -> a x + c` modulo `2^k`. */
  function Step(x: nat, a: nat, c: nat, k: nat): (r: nat)
    ensures r < Pow2(k)
  {
    (a * x + c) % Pow2(k)
  }

  function Iterated(x: nat, a: nat, c: nat, k: nat, n: nat): nat {
    if n == 0 then x else Step(Iterated(x, a, c, k, n - 1), a, c, k)
  }

  function Power(a: nat, n: nat): nat {
    if n == 0 then 1 else a * Power(a, n - 1)
  }

  /** `1 + a + ... + a^(n-1)`. */
  function Geometric(a: nat, n: nat): nat {
    if n == 0 then 0 else 1 + a * Geometric(a, n - 1)
  }

  predicate Divides(k: nat, v: int) {
    v % Pow2(k) == 0
  }

  // ---------------------------------------------------------------- congruence

  lemma ModSum(v: int, q: int, m: nat)
    requires m > 0
    ensures (v + q * m) % m == v % m
  {
    var h, r := v / m, v % m;
    assert v == h * m + r;
    assert (h + q) * m == h * m + q * m;
    DivModUnique(v + q * m, m, h + q, r);
  }

  /** A step only depends on the residue. */
  lemma StepResidue(x: nat, a: nat, c: nat, k: nat)
    ensures Step(x % Pow2(k), a, c, k) == Step(x, a, c, k)
  {
    var m := Pow2(k);
    var q, r := x / m, x % m;
    assert x == q * m + r;
    assert a * x + c == (a * r + c) + (a * q) * m by { assert a * (q * m + r) == (a * q) * m + a * r; }
    ModSum(a * r + c, a * q, m);
  }

  /** The state after `n` steps in closed form. */
  lemma {:induction false} ClosedForm(x: nat, a: nat, c: nat, k: nat, n: nat)
    requires x < Pow2(k)
    ensures Iterated(x, a, c, k, n) == (Power(a, n) * x + c * Geometric(a, n)) % Pow2(k)
  {
    if n == 0 {
      LowPartSmall(x, k);
    } else {
      var v := Power(a, n - 1) * x + c * Geometric(a, n - 1);
      hide Power, Geometric, Pow2, Step;
      ClosedForm(x, a, c, k, n - 1);
      StepResidue(v, a, c, k);
      ClosedStep(x, a, c, n, v);
      StepOf(v, a, c, k, Power(a, n) * x + c * Geometric(a, n));
    }
  }

  lemma StepOf(v: nat, a: nat, c: nat, k: nat, next: nat)
    requires a * v + c == next
    ensures Step(v, a, c, k) == next % Pow2(k)
  {
  }

  lemma ClosedStep(x: nat, a: nat, c: nat, n: nat, v: nat)
    requires n > 0 && v == Power(a, n - 1) * x + c * Geometric(a, n - 1)
    ensures a * v + c == Power(a, n) * x + c * Geometric(a, n)
  {
    var p, g, p', g' := Power(a, n - 1), Geometric(a, n - 1), Power(a, n), Geometric(a, n);
    assert p' == a * p && g' == 1 + a * g;
    hide *;
    Distribute(a, p * x, c * g);
    ThreeFactors(a, p, x);
    ThreeFactors(a, c, g);
    ThreeFactors(c, a, g);
    Distribute(c, 1, a * g);
  }

  lemma ThreeFactors(a: nat, b: nat, c: nat)
    ensures a * (b * c) == (a * b) * c
  {
  }

  lemma {:induction false} PowerIsGeometric(a: nat, n: nat)
    requires a > 0
    ensures Power(a, n) - 1 == (a - 1) * Geometric(a, n)
  {
    if n > 0 {
      PowerIsGeometric(a, n - 1);
      NextGeometric(a, Power(a, n - 1), Geometric(a, n - 1));
    }
  }

  lemma NextGeometric(a: nat, p: nat, g: nat)
    requires a > 0 && p - 1 == (a - 1) * g
    ensures a * p - 1 == (a - 1) * (1 + a * g)
  {
    var h := (a - 1) * g;
    Distribute(a, h, 1);
    Distribute(a - 1, 1, a * g);
    assert (a - 1) * (a * g) == a * h;
  }

  /** How far `n` steps move, before reduction. */
  lemma Displacement(x: nat, a: nat, c: nat, n: nat)
    requires a > 0
    ensures Power(a, n) * x + c * Geometric(a, n) - x == ((a - 1) * x + c) * Geometric(a, n)
  {
    PowerIsGeometric(a, n);
    var p, g := Power(a, n), Geometric(a, n);
    assert p * x - x == (p - 1) * x;
    assert ((a - 1) * g) * x == ((a - 1) * x) * g;
    assert ((a - 1) * x + c) * g == ((a - 1) * x) * g + c * g;
  }

  // ---------------------------------------------------------------- divisibility by powers of two

  lemma DividesDouble(k: nat, t: int)
    ensures Divides(k + 1, 2 * t) <==> Divides(k, t)
  {
    var m := Pow2(k);
    var q, r := t / m, t % m;
    assert t == q * m + r;
    assert 2 * t == q * (2 * m) + 2 * r;
    DivModUnique(2 * t, 2 * m, q, 2 * r);
  }

  lemma DividesOdd(k: nat, v: int)
    requires k > 0 && v % 2 == 1
    ensures !Divides(k, v)
  {
    if Divides(k, v) { EvenWhenDivided(k, v); }
  }

  lemma EvenWhenDivided(k: nat, v: int)
    requires k > 0 && Divides(k, v)
    ensures v % 2 == 0
  {
    var q := v / Pow2(k);
    assert v == 2 * (q * Pow2(k - 1));
  }

  /** An odd factor does not help. */
  lemma {:induction false} OddFactor(k: nat, odd: int, s: int)
    requires odd % 2 == 1
    ensures Divides(k, odd * s) <==> Divides(k, s)
  {
    if k == 0 {
    } else if s % 2 == 0 {
      var t := s / 2;
      OddFactor(k - 1, odd, t);
      assert odd * s == 2 * (odd * t) by { assert s == 2 * t; }
      DividesDouble(k - 1, odd * t);
      DividesDouble(k - 1, t);
    } else {
      OddTimesOdd(odd, s);
      DividesOdd(k, odd * s);
      DividesOdd(k, s);
    }
  }

  lemma OddTimesOdd(a: int, b: int)
    requires a % 2 == 1 && b % 2 == 1
    ensures a * b % 2 == 1
  {
    var p, q := a / 2, b / 2;
    assert a == 2 * p + 1 && b == 2 * q + 1;
    assert a * b == 2 * (2 * (p * q) + p + q) + 1;
  }

  lemma {:induction false} PowerModFour(a: nat, n: nat)
    requires a % 4 == 1
    ensures Power(a, n) % 4 == 1
  {
    if n > 0 {
      PowerModFour(a, n - 1);
      OneModFour(a, Power(a, n - 1));
    }
  }

  lemma OneModFour(a: nat, b: nat)
    requires a % 4 == 1 && b % 4 == 1
    ensures a * b % 4 == 1
  {
    var p, q := a / 4, b / 4;
    assert a == 4 * p + 1 && b == 4 * q + 1;
    assert a * b == 4 * (4 * (p * q) + p + q) + 1;
  }

  lemma {:induction false} GeometricParity(a: nat, n: nat)
    requires a % 2 == 1
    ensures Geometric(a, n) % 2 == n % 2
  {
    if n > 0 {
      GeometricParity(a, n - 1);
      var g := Geometric(a, n - 1);
      var ag := a * g;
      OddTimesKeepsParity(a, g);
      SuccessorParity(ag, n - 1);
    }
  }

  lemma SuccessorParity(v: nat, w: nat)
    requires v % 2 == w % 2
    ensures (1 + v) % 2 == (w + 1) % 2
  {
  }

  lemma OddTimesKeepsParity(a: nat, g: nat)
    requires a % 2 == 1
    ensures a * g % 2 == g % 2
  {
    if g % 2 == 1 {
      OddTimesOdd(a, g);
    } else {
      var h := g / 2;
      assert g == 2 * h;
      assert a * g == 2 * (a * h);
    }
  }

  lemma HalfOfDouble(g: int, p: int) returns (odd: int)
    requires p % 4 == 1
    ensures odd % 2 == 1 && g + p * g == 2 * (odd * g)
  {
    odd := (1 + p) / 2;
    assert 1 + p == 2 * odd;
    assert g + p * g == (1 + p) * g;
    assert (2 * odd) * g == 2 * (odd * g);
  }

  lemma {:induction false} GeometricSplit(a: nat, m: nat, n: nat)
    ensures Geometric(a, m + n) == Geometric(a, m) + Power(a, m) * Geometric(a, n)
  {
    if m == 0 {
      assert Geometric(a, 0) + Power(a, 0) * Geometric(a, n) == Geometric(a, n);
    } else {
      GeometricSplit(a, m - 1, n);
      DistributePower(a, Geometric(a, m - 1), Power(a, m - 1), Geometric(a, n));
    }
  }

  lemma DistributePower(a: int, g: int, p: int, s: int)
    ensures a * (g + p * s) == a * g + (a * p) * s
  {
    assert a * (p * s) == (a * p) * s;
    assert a * (g + p * s) == a * g + a * (p * s);
  }

  /** The powers of two in `1 + a + ... + a^(n-1)` are those in `n`. */
  lemma {:induction false} GeometricDivides(a: nat, k: nat, n: nat)
    requires a % 4 == 1
    ensures Divides(k, Geometric(a, n)) <==> Divides(k, n)
  {
    hide Geometric, Power;
    if k == 0 {
    } else if n % 2 == 1 {
      GeometricParity(a, n);
      DividesOdd(k, Geometric(a, n));
      DividesOdd(k, n);
    } else {
      var m := n / 2;
      GeometricDivides(a, k - 1, m);
      GeometricSplit(a, m, m);
      PowerModFour(a, m);
      var g := Geometric(a, m);
      var odd := HalfOfDouble(g, Power(a, m));
      assert n == m + m == 2 * m;
      DividesDouble(k - 1, odd * g);
      OddFactor(k - 1, odd, g);
      DividesDouble(k - 1, m);
    }
  }

  lemma SameResidueIff(v: nat, x: nat, k: nat)
    requires x < Pow2(k)
    ensures v % Pow2(k) == x <==> Divides(k, v - x)
  {
    var m := Pow2(k);
    var q := v / m;
    if v % m == x {
      assert v - x == q * m + 0;
      DivModUnique(v - x, m, q, 0);
    } else if Divides(k, v - x) {
      var h := (v - x) / m;
      assert v == h * m + x;
      DivModUnique(v, m, h, x);
    }
  }

  /** Full period, for every power of two: with `a = 1 (mod 4)` and `c` odd, `n` steps lead back to the
      start exactly when `2^k` divides `n`. */
  lemma {:induction false} FullPeriod(x: nat, a: nat, c: nat, k: nat, n: nat)
    requires x < Pow2(k) && a % 4 == 1 && c % 2 == 1
    ensures Iterated(x, a, c, k, n) == x <==> Divides(k, n)
  {
    hide Power, Geometric, Iterated, Divides, Pow2;
    ClosedForm(x, a, c, k, n);
    var v := Power(a, n) * x + c * Geometric(a, n);
    SameResidueIff(v, x, k);
    Displacement(x, a, c, n);
    OddDisplacement(a, x, c);
    OddFactor(k, (a - 1) * x + c, Geometric(a, n));
    GeometricDivides(a, k, n);
  }

  lemma OddDisplacement(a: nat, x: nat, c: nat)
    requires a % 2 == 1 && c % 2 == 1
    ensures ((a - 1) * x + c) % 2 == 1
  {
    var h := (a - 1) / 2;
    assert a - 1 == 2 * h;
    assert (2 * h) * x == 2 * (h * x);
  }

  lemma {:induction false} IteratedAdds(x: nat, a: nat, c: nat, k: nat, m: nat, n: nat)
    ensures Iterated(x, a, c, k, m + n) == Iterated(Iterated(x, a, c, k, m), a, c, k, n)
  {
    if n > 0 { IteratedAdds(x, a, c, k, m, n - 1); }
  }

  lemma IteratedInRange(x: nat, a: nat, c: nat, k: nat, n: nat)
    requires x < Pow2(k)
    ensures Iterated(x, a, c, k, n) < Pow2(k)
  {
  }

  /** No state comes twice among `2^k` in a row. */
  lemma NoEarlyRepeat(x: nat, a: nat, c: nat, k: nat, i: nat, j: nat)
    requires x < Pow2(k) && a % 4 == 1 && c % 2 == 1 && i < j < i + Pow2(k)
    ensures Iterated(x, a, c, k, i) != Iterated(x, a, c, k, j)
  {
    IteratedInRange(x, a, c, k, i);
    IteratedAdds(x, a, c, k, i, j - i);
    FullPeriod(Iterated(x, a, c, k, i), a, c, k, j - i);
    LowPartSmall(j - i, k);
  }
}

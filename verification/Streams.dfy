/** Two default generators draw the same numbers only from the same state. */
module Streams {
  import opened Words
  import opened Randomness
  import opened Congruential
  import opened Rand48

  // ---------------------------------------------------------------- every state is on the one cycle

  /** The first `n` states from `x` on. */
  ghost function Visited(x: nat, k: nat, n: nat): set<nat> {
    if n == 0 then {} else Visited(x, k, n - 1) + {Iterated(x, MULTIPLIER, INCREMENT, k, n - 1)}
  }

  lemma {:induction false} VisitedAt(x: nat, k: nat, n: nat, y: nat) returns (i: nat)
    requires y in Visited(x, k, n)
    ensures i < n && Iterated(x, MULTIPLIER, INCREMENT, k, i) == y
  {
    if y in Visited(x, k, n - 1) { i := VisitedAt(x, k, n - 1, y); } else { i := n - 1; }
  }

  lemma {:induction false} VisitedSize(x: nat, k: nat, n: nat)
    requires x < Pow2(k) && n <= Pow2(k)
    ensures |Visited(x, k, n)| == n && forall y | y in Visited(x, k, n) :: y < Pow2(k)
  {
    hide Iterated;
    if n > 0 {
      VisitedSize(x, k, n - 1);
      var last := Iterated(x, MULTIPLIER, INCREMENT, k, n - 1);
      IteratedInRange(x, MULTIPLIER, INCREMENT, k, n - 1);
      if last in Visited(x, k, n - 1) {
        var i := VisitedAt(x, k, n - 1, last);
        NoEarlyRepeat(x, MULTIPLIER, INCREMENT, k, i, n - 1);
        assert false;
      }
    }
  }

  lemma {:induction false} AtMostSo(ys: set<nat>, n: nat)
    requires forall y | y in ys :: y < n
    ensures |ys| <= n
  {
    if n == 0 {
      assert ys == {};
    } else {
      AtMostSo(ys - {n - 1}, n - 1);
      assert |ys| <= |ys - {n - 1}| + 1;
    }
  }

  /** From any state every other one is reached. */
  lemma Reached(x: nat, y: nat, k: nat) returns (m: nat)
    requires x < Pow2(k) && y < Pow2(k)
    ensures m < Pow2(k) && Iterated(x, MULTIPLIER, INCREMENT, k, m) == y
  {
    hide Iterated, Visited;
    VisitedSize(x, k, Pow2(k));
    var all := Visited(x, k, Pow2(k));
    if y !in all { AtMostSo(all + {y}, Pow2(k)); }
    m := VisitedAt(x, k, Pow2(k), y);
  }

  // ---------------------------------------------------------------- half a period on

  /** Half a period on, the state differs in its top bit. */
  lemma HalfPeriod(x: nat, a: nat, c: nat, k: nat, n: nat)
    requires x < Pow2(k + 1) && a % 4 == 1 && c % 2 == 1 && Divides(k, n) && !Divides(k + 1, n)
    ensures Iterated(x, a, c, k + 1, n) == if x < Pow2(k) then x + Pow2(k) else x - Pow2(k)
  {
    hide Power, Geometric, Iterated, Divides, Pow2;
    ClosedForm(x, a, c, k + 1, n);
    var v := Power(a, n) * x + c * Geometric(a, n);
    Displacement(x, a, c, n);
    OddDisplacement(a, x, c);
    OddFactor(k, (a - 1) * x + c, Geometric(a, n));
    OddFactor(k + 1, (a - 1) * x + c, Geometric(a, n));
    GeometricDivides(a, k, n);
    GeometricDivides(a, k + 1, n);
    OddMultiple(v, x, k);
  }

  /** Moving by an odd multiple of half the modulus. */
  lemma OddMultiple(v: nat, x: nat, k: nat)
    requires x < Pow2(k + 1) && Divides(k, v - x) && !Divides(k + 1, v - x)
    ensures v % Pow2(k + 1) == if x < Pow2(k) then x + Pow2(k) else x - Pow2(k)
  {
    var p, t := Pow2(k), (v - x) / Pow2(k);
    assert v - x == t * p;
    var q := t / 2;
    if t % 2 == 0 {
      Doubling(t, q, 0, p);
      DivModUnique(v - x, 2 * p, q, 0);
      assert false;
    } else if x < p {
      Doubling(t, q, 1, p);
      DivModUnique(v, 2 * p, q, x + p);
    } else {
      Doubling(t, q, 1, p);
      Doubling(t + 1, q + 1, 0, p);
      NextTimes(t, p);
      DivModUnique(v, 2 * p, q + 1, x - p);
    }
  }

  lemma Doubling(t: int, q: int, r: int, p: int)
    requires t == 2 * q + r
    ensures t * p == q * (2 * p) + r * p
  {
  }

  lemma NextTimes(t: int, p: int)
    ensures (t + 1) * p == t * p + p
  {
  }

  /** Half a period on, another number is drawn. */
  lemma HalfPeriodDraw(x: nat, p: nat)
    requires x < Pow2(48) && Divides(47, p) && !Divides(48, p)
    ensures Output(State48(x, p)) != Output(x)
  {
    hide Iterated, Divides;
    HalfPeriod(x, MULTIPLIER, INCREMENT, 47, p);
    PowersOfTwo();
    assert Pow2(48) == 2 * Pow2(47);
    hide Pow2;
    TopBitDrawn(if x < Pow2(47) then x else x - Pow2(47));
  }

  lemma TopBitDrawn(x: nat)
    requires x < 0x8000 * WORD
    ensures Output(x) != Output(x + 0x8000 * WORD)
  {
    var q, r := x / HALF, x % HALF;
    assert x == q * HALF + r;
    DivModUnique(x + 0x8000 * WORD, HALF, q + 0x8000_0000, r);
    DivModUnique(q, WORD, 0, q);
    DivModUnique(q + 0x8000_0000, WORD, 0, q + 0x8000_0000);
  }

  // ---------------------------------------------------------------- the numbers drawn

  lemma DividesLess(j: nat, k: nat, v: int)
    requires j <= k && Divides(k, v)
    ensures Divides(j, v)
  {
    var q := v / Pow2(k);
    Pow2Add(k - j, j);
    assert v == (q * Pow2(k - j)) * Pow2(j) + 0;
    DivModUnique(v, Pow2(j), q * Pow2(k - j), 0);
  }

  /** The numbers drawn do not repeat with any period that is not one of the state. */
  lemma {:induction false} DrawsDoNotRepeat(x: nat, p: nat, e: nat) returns (n: nat)
    requires x < Pow2(48) && e <= 47 && Divides(e, p) && !Divides(48, p)
    ensures Stream(x)(n) != Stream(x)(n + p)
    decreases 47 - e
  {
    hide Iterated, Divides, Pow2, Output;
    if e == 47 {
      n := 0;
      IteratedInRange(x, MULTIPLIER, INCREMENT, 48, 1);
      HalfPeriodDraw(State48(x, 1), p);
      IteratedAdds(x, MULTIPLIER, INCREMENT, 48, 1, p);
    } else if Divides(e + 1, p) {
      n := DrawsDoNotRepeat(x, p, e + 1);
    } else {
      DividesDouble(e, p);
      DividesDouble(47, p);
      if Divides(47, p) { DividesLess(e + 1, 47, p); }
      var i := DrawsDoNotRepeat(x, 2 * p, e + 1);
      n := if Stream(x)(i) != Stream(x)(i + p) then i else i + p;
    }
  }

  /** Two states draw the same numbers for ever exactly when they are the same. */
  lemma SameStreamIff(x: nat, y: nat)
    requires x < Pow2(48) && y < Pow2(48)
    ensures (forall n: nat :: Stream(x)(n) == Stream(y)(n)) <==> x == y
  {
    hide Iterated, Divides, Pow2, Output;
    if x != y {
      var m := Reached(x, y, 48);
      StateReached(x, y, m);
      var n := DrawsDoNotRepeat(x, m, 0);
      StreamAfter(x, m, n);
      assert Stream(y)(n) == Stream(x)(n + m);
    }
  }

  lemma StateReached(x: nat, y: nat, m: nat)
    requires x < Pow2(48) && x != y && State48(x, m) == y
    ensures Divides(0, m) && !Divides(48, m)
  {
    assert Pow2(0) == 1;
    hide Pow2;
    PeriodOfState(x, m);
  }

  /** The state a seed starts from. */
  function Seeded(seed: nat): nat {
    Joined([seed / HALF % HALF, seed % HALF, 0x330E])
  }

  /** Two seeds give the same stream exactly when their low 32 bits agree. */
  lemma SameSeedIff(seed: nat, seed': nat)
    ensures (forall n: nat :: Stream(Seeded(seed))(n) == Stream(Seeded(seed'))(n)) <==> seed % WORD == seed' % WORD
  {
    hide Iterated, Pow2, Output, Cut, Joined;
    var words, words' := [seed / HALF % HALF, seed % HALF, 0x330E], [seed' / HALF % HALF, seed' % HALF, 0x330E];
    CutJoined(words);
    CutJoined(words');
    SameStartIff(seed, seed');
    assert Joined(words) == Joined(words') ==> words == words';
    SameStreamIff(Joined(words), Joined(words'));
    assert Seeded(seed) == Joined(words) && Seeded(seed') == Joined(words');
  }
}

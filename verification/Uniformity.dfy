/** How likely the sampler is to draw each solution: uniform with the exact branch shares, and off by at
    most one part in 65536 at each branch with the stored ones. */
module Uniformity {
  import opened Bdds
  import opened Words
  import opened Counting
  import opened Weights
  import opened Sampling

  /** The chance that walking from `e` with exact shares, and tossing a fair coin for every variable the
      walk skips, gives variables `lo <= i < n` the values they have in `s`. */
  ghost function Chance(e: Edge, s: Assignment, lo: nat, n: nat): real
    requires lo <= n
    decreases n - lo
  {
    if lo == n then 1.0
    else if e.node.Branch? && e.node.index == lo then
      if ElseOf(e) == FALSE then (if lo in s then Chance(ThenOf(e), s, lo + 1, n) else 0.0)
      else if ThenOf(e) == FALSE then (if lo in s then 0.0 else Chance(ElseOf(e), s, lo + 1, n))
      else
        var share := ExactElseShare(e, n);
        if lo in s then (1.0 - share) * Chance(ThenOf(e), s, lo + 1, n) else share * Chance(ElseOf(e), s, lo + 1, n)
    else 0.5 * Chance(e, s, lo + 1, n)
  }

  /** The exact probability of the else branch. */
  ghost function ExactElseShare(e: Edge, n: nat): real
    requires e.node.Branch? && e.node.index < n
  {
    var w := Weight(e, n);
    if w == 0 then 0.0 else BranchWeight(ElseOf(e), e.node.index, n) as real / w as real
  }

  ghost function OneIn(c: nat): real {
    if c == 0 then 0.0 else 1.0 / c as real
  }

  lemma ShareTimesInverse(part: nat, whole: nat)
    requires 0 < part && 0 < whole
    ensures (part as real / whole as real) * OneIn(part) == OneIn(whole)
  {
    var p, w := part as real, whole as real;
    assert (p / w) * (1.0 / p) == (p * (1.0 / p)) / w;
  }

  lemma HalfOfInverse(c: nat)
    requires 0 < c
    ensures 0.5 * OneIn(c) == OneIn(2 * c)
  {
  }

  lemma ComplementShare(part: nat, rest: nat)
    requires 0 < part + rest
    ensures 1.0 - rest as real / (part + rest) as real == part as real / (part + rest) as real
  {
    var p, r := part as real, rest as real;
    assert (p + r) / (p + r) == 1.0;
    assert (part + rest) as real == p + r;
    assert p / (p + r) + r / (p + r) == (p + r) / (p + r);
  }

  /** Every solution is drawn with the same probability, one over the number of solutions; nothing else
      is ever drawn. */
  lemma {:induction false} SamplingIsUniform(e: Edge, s: Assignment, lo: nat, n: nat)
    requires lo <= n && Canonical(e, lo) && Below(e, n) && e != FALSE
    ensures CountFrom(e, {}, lo, n) > 0
    ensures Chance(e, s, lo, n) == if Eval(e, s) then OneIn(CountFrom(e, {}, lo, n)) else 0.0
    decreases n - lo
  {
    CountPositive(e, lo, n);
    if lo == n {
      assert e == TRUE;
    } else if e.node.Branch? && e.node.index == lo {
      CanonicalMonotone(e);
      hide Chance, CountFrom, Canonical, Eval, Below;
      Branches(e, lo, n);
      CountBranch(e, n);
      BranchIsUniform(e, s, lo, n);
    } else {
      CanonicalFrom(e, lo);
      hide CountFrom, Canonical, Eval, Below;
      SamplingIsUniform(e, s, lo + 1, n);
      CountSkip(e, lo, lo + 1, n);
      HalfOfInverse(CountFrom(e, {}, lo + 1, n));
    }
  }

  lemma {:induction false} BranchIsUniform(e: Edge, s: Assignment, lo: nat, n: nat)
    requires lo < n && Canonical(e, lo) && Below(e, n) && e.node.Branch? && e.node.index == lo
    requires Canonical(ThenOf(e), lo + 1) && Canonical(ElseOf(e), lo + 1) && Below(ThenOf(e), n) && Below(ElseOf(e), n)
    requires ThenOf(e) != ElseOf(e) && Eval(e, s) == if lo in s then Eval(ThenOf(e), s) else Eval(ElseOf(e), s)
    requires CountFrom(e, {}, lo, n) == CountFrom(ElseOf(e), {}, lo + 1, n) + CountFrom(ThenOf(e), {}, lo + 1, n)
    ensures Chance(e, s, lo, n) == if Eval(e, s) then OneIn(CountFrom(e, {}, lo, n)) else 0.0
    decreases n - lo, 0
  {
    hide Eval, CountFrom, Canonical, Below;
    var child, other := if lo in s then ThenOf(e) else ElseOf(e), if lo in s then ElseOf(e) else ThenOf(e);
    var part, rest := CountFrom(child, {}, lo + 1, n), CountFrom(other, {}, lo + 1, n);
    CountPositive(child, lo + 1, n);
    CountPositive(other, lo + 1, n);
    if child == FALSE {
      ZeroNeverHolds(s);
    } else {
      SamplingIsUniform(child, s, lo + 1, n);
      if other != FALSE {
        ShareTimesInverse(part, part + rest);
        if lo in s { ComplementShare(part, rest); }
        assert Chance(e, s, lo, n) == (part as real / (part + rest) as real) * Chance(child, s, lo + 1, n);
      }
    }
  }

  lemma ZeroNeverHolds(s: Assignment)
    ensures !Eval(FALSE, s)
  {
  }

  // ---------------------------------------------------------------- sixteen-bit shares

  /** The sixteen-bit words that send the walk to the else branch. */
  ghost function ElseWords(threshold: nat): set<nat> {
    set r: nat | r < ROUNDTO && TakesElse(threshold, r)
  }

  lemma {:induction false} ElseWordsCount(threshold: nat)
    requires threshold < ROUNDTO
    ensures |ElseWords(threshold)| == threshold + 1
  {
    ElseWordsAre(threshold);
    hide ElseWords, TakesElse;
    if threshold == 0 {
      assert ElseWords(0) == {0};
    } else {
      ElseWordsCount(threshold - 1);
      ElseWordsAre(threshold - 1);
      assert ElseWords(threshold) == ElseWords(threshold - 1) + {threshold};
    }
  }

  lemma ElseWordsAre(threshold: nat)
    requires threshold < ROUNDTO
    ensures forall r: nat :: r in ElseWords(threshold) <==> r <= threshold
  {
    forall r: nat ensures r in ElseWords(threshold) <==> r <= threshold {
      if r < ROUNDTO { DivModUnique(r, ROUNDTO, 0, r); }
    }
  }

  /** With the stored share the else branch gets at least its exact share and at most one part in 65536 more. */
  lemma RoundingError(e: Edge, n: nat)
    requires Countable(e, n) && e.node.Branch? && e.node.index < n && Weight(e, n) > 0
    requires ThenOf(e) != FALSE && ElseOf(e) != FALSE
    ensures var words := |ElseWords(ElseShare(e, n))|;
            var part, whole := BranchWeight(ElseOf(e), e.node.index, n), Weight(e, n);
            part * ROUNDTO < words * whole <= part * ROUNDTO + whole
  {
    hide CountFrom, Canonical, Below;
    ShareBelowRound(e, n);
    var share, part, whole := ElseShare(e, n), BranchWeight(ElseOf(e), e.node.index, n), Weight(e, n);
    ElseWordsCount(share);
    var total := part * ROUNDTO;
    assert total == (total / whole) * whole + total % whole;
    Distribute(whole, share, 1);
  }

  lemma ShareBelowRound(e: Edge, n: nat)
    requires Countable(e, n) && e.node.Branch? && e.node.index < n && Weight(e, n) > 0
    requires ThenOf(e) != FALSE
    ensures ElseShare(e, n) < ROUNDTO
    ensures Weight(e, n) == BranchWeight(ElseOf(e), e.node.index, n) + BranchWeight(ThenOf(e), e.node.index, n)
    ensures BranchWeight(ThenOf(e), e.node.index, n) > 0
  {
    hide CountFrom;
    CountBranch(e, n);
    Branches(e, 0, n);
    CountPositive(ThenOf(e), e.node.index + 1, n);
    var part, whole := BranchWeight(ElseOf(e), e.node.index, n), Weight(e, n);
    QuotientBelow(part * ROUNDTO, whole, ROUNDTO);
  }

  lemma QuotientBelow(a: nat, d: nat, k: nat)
    requires d > 0 && a < k * d
    ensures a / d < k
  {
  }

  /** The then branch of a node can be taken at all exactly when it holds more than one model in 65536. */
  lemma ThenReachableIff(e: Edge, n: nat)
    requires Countable(e, n) && e.node.Branch? && e.node.index < n && Weight(e, n) > 0
    requires ThenOf(e) != FALSE
    ensures (exists r: nat :: r < ROUNDTO && !TakesElse(ElseShare(e, n), r))
        <==> Weight(e, n) < ROUNDTO * BranchWeight(ThenOf(e), e.node.index, n)
  {
    hide CountFrom, Canonical, Below;
    ShareBelowRound(e, n);
    var share, whole := ElseShare(e, n), Weight(e, n);
    var part, rest := BranchWeight(ElseOf(e), e.node.index, n), BranchWeight(ThenOf(e), e.node.index, n);
    FullShareIff(part, rest, whole, share);
    if share < ROUNDTO - 1 {
      assert !TakesElse(share, ROUNDTO - 1);
    }
  }

  /** The share is the largest possible one exactly when the rest is at most one part in 65536. */
  lemma FullShareIff(part: nat, rest: nat, whole: nat, share: nat)
    requires whole > 0 && whole == part + rest && share == part * ROUNDTO / whole && share < ROUNDTO
    ensures share < ROUNDTO - 1 <==> whole < ROUNDTO * rest
  {
    var total := part * ROUNDTO;
    DivisionOf(total, whole);
    assert whole * ROUNDTO == total + rest * ROUNDTO;
    if share < ROUNDTO - 1 {
      Distribute(whole, share + 1, ROUNDTO - 1 - share);
      Distribute(whole, share, 1);
      MulAtLeast(ROUNDTO - 1 - share, whole);
      assert whole * ROUNDTO == whole * (share + 1) + whole * (ROUNDTO - 1 - share);
    } else {
      assert share * whole == (ROUNDTO - 1) * whole == ROUNDTO * whole - whole;
    }
  }

  // ---------------------------------------------------------------- a branch that is never taken

  /** All variables from `lo` up to `n` are true. */
  function AllTrue(lo: nat, n: nat): (e: Edge)
    requires lo <= n
    ensures !e.complement && Canonical(e, lo) && Below(e, n) && (lo < n ==> e.node.Branch? && e.node.index == lo)
    decreases n - lo
  {
    if lo == n then TRUE else Edge(false, Branch(lo, AllTrue(lo + 1, n), FALSE))
  }

  lemma {:induction false} AllTrueCount(lo: nat, n: nat)
    requires lo <= n
    ensures CountFrom(AllTrue(lo, n), {}, lo, n) == 1
    decreases n - lo
  {
    if lo < n {
      AllTrueCount(lo + 1, n);
      CanonicalMonotone(AllTrue(lo, n));
      CountBranch(AllTrue(lo, n), n);
      CountConstant(FALSE, {}, lo + 1, n);
    }
  }

  /** `x0` implies that `x1` to `x(n-1)` are all true. */
  function Implication(n: nat): (e: Edge)
    requires n >= 2
    ensures Countable(e, n) && e.node.Branch? && e.node.index == 0 && ThenOf(e) == AllTrue(1, n) && ElseOf(e) == TRUE
  {
    Edge(false, Branch(0, AllTrue(1, n), TRUE))
  }

  lemma ImplicationWeight(n: nat)
    requires n >= 2
    ensures Weight(Implication(n), n) == 1 + Pow2(n - 1) && BranchWeight(AllTrue(1, n), 0, n) == 1
  {
    hide CountFrom, Canonical, Below;
    CountableCanonical(Implication(n), n);
    CountBranch(Implication(n), n);
    AllTrueCount(1, n);
    CountConstant(TRUE, {}, 1, n);
  }

  /** The one solution with `x0` true can be drawn exactly up to 16 variables. */
  lemma ImplicationThenIff(n: nat)
    requires n >= 2
    ensures Weight(Implication(n), n) > 0
    ensures (exists r: nat :: r < ROUNDTO && !TakesElse(ElseShare(Implication(n), n), r)) <==> n <= 16
  {
    hide CountFrom, Canonical, Below;
    ImplicationWeight(n);
    ThenReachableIff(Implication(n), n);
    SixteenBitPower();
    if n <= 16 { Pow2Monotone(n - 1, 15); } else { Pow2Monotone(16, n - 1); }
  }

  lemma SixteenBitPower()
    ensures Pow2(15) == 32768 && Pow2(16) == ROUNDTO
  {
    assert Pow2(8) == 256;
    assert Pow2(7) == 128;
    Pow2Add(8, 7);
  }

  // ---------------------------------------------------------------- the error of a whole walk

  /** The else probability the stored share gives, sixteen fair bits being compared with it. */
  ghost function StoredElse(e: Edge, n: nat): real
    requires e.node.Branch? && e.node.index < n && Weight(e, n) > 0
  {
    (ElseShare(e, n) + 1) as real / ROUNDTO as real
  }

  /** `Chance` with the stored shares in place of the exact ones. */
  ghost function StoredChance(e: Edge, s: Assignment, lo: nat, n: nat): real
    requires lo <= n && Countable(e, n)
    decreases n - lo
  {
    if lo == n then 1.0
    else if e.node.Branch? && e.node.index == lo then
      ChildrenCountable(e, n);
      WeightPositive(e, n);
      if ElseOf(e) == FALSE then (if lo in s then StoredChance(ThenOf(e), s, lo + 1, n) else 0.0)
      else if ThenOf(e) == FALSE then (if lo in s then 0.0 else StoredChance(ElseOf(e), s, lo + 1, n))
      else
        var share := StoredElse(e, n);
        if lo in s then (1.0 - share) * StoredChance(ThenOf(e), s, lo + 1, n) else share * StoredChance(ElseOf(e), s, lo + 1, n)
    else 0.5 * StoredChance(e, s, lo + 1, n)
  }

  ghost predicate Probability(x: real) { 0.0 <= x <= 1.0 }

  ghost predicate Within(x: real, y: real, d: real) { x - d <= y <= x + d }

  /** A product as a term. */
  ghost function Times(x: real, y: real): real { x * y }

  lemma ProductWithin(x: real, y: real, d: real, u: real, v: real, f: real)
    requires Probability(y) && Probability(u) && Within(x, y, d) && Within(u, v, f)
    ensures Within(Times(x, u), Times(y, v), d + f)
  {
    hide Times;
    ProductDifference(x, y, u, v);
    ScaledWithin(y, v - u, f);
    ScaledWithin(u, y - x, d);
  }

  lemma ProductDifference(x: real, y: real, u: real, v: real)
    ensures Times(y, v) - Times(x, u) == Times(y, v - u) + Times(u, y - x)
  {
  }

  lemma ScaledWithin(p: real, a: real, d: real)
    requires Probability(p) && 0.0 - d <= a <= d
    ensures 0.0 - d <= Times(p, a) <= d
  {
    NonNegative(p, d - a);
    NonNegative(p, d + a);
    NonNegative(1.0 - p, d);
    assert p * (d - a) == p * d - p * a && p * (d + a) == p * d + p * a;
    assert (1.0 - p) * d == d - p * d;
  }

  /** The stored else probability is a probability, more than the exact one by at most one part in 65536. */
  lemma StoredElseError(e: Edge, n: nat)
    requires Countable(e, n) && e.node.Branch? && e.node.index < n && Weight(e, n) > 0
    requires ThenOf(e) != FALSE && ElseOf(e) != FALSE
    ensures Probability(StoredElse(e, n)) && Probability(ExactElseShare(e, n))
    ensures ExactElseShare(e, n) < StoredElse(e, n) <= ExactElseShare(e, n) + 1.0 / ROUNDTO as real
  {
    hide CountFrom, Canonical, Below;
    RoundingError(e, n);
    ShareBelowRound(e, n);
    ElseWordsCount(ElseShare(e, n));
    RealShares(BranchWeight(ElseOf(e), e.node.index, n), Weight(e, n), ElseShare(e, n) + 1);
  }

  lemma RealShares(part: nat, whole: nat, words: nat)
    requires whole > 0 && part <= whole && words <= ROUNDTO
    requires part * ROUNDTO < words * whole <= part * ROUNDTO + whole
    ensures Probability(words as real / ROUNDTO as real) && Probability(part as real / whole as real)
    ensures part as real / whole as real < words as real / ROUNDTO as real <= part as real / whole as real + 1.0 / ROUNDTO as real
  {
    var w, x, y, d := whole as real, part as real / whole as real, words as real / ROUNDTO as real, 1.0 / ROUNDTO as real;
    Quotient(part as real, w);
    ShareProducts(part, whole, words, x, y, d);
    Cancelled(x, y, w, d);
  }

  lemma ShareProducts(part: nat, whole: nat, words: nat, x: real, y: real, d: real)
    requires part * ROUNDTO < words * whole <= part * ROUNDTO + whole
    requires Times(x, whole as real) == part as real && y == words as real / ROUNDTO as real && d == 1.0 / ROUNDTO as real
    ensures Times(x, whole as real) < Times(y, whole as real) <= Times(x, whole as real) + Times(d, whole as real)
  {
    hide Times;
    var w := whole as real;
    RealProduct(words, whole);
    ScaledDown(words as real, y, w);
    ScaledDown(1.0, d, w);
    RealProduct(1, whole);
    ScaledOrder(part, whole, words * whole, Times(x, w), Times(y, w), Times(d, w));
  }

  lemma ScaledOrder(part: nat, whole: nat, product: nat, xw: real, yw: real, dw: real)
    requires part * ROUNDTO < product <= part * ROUNDTO + whole
    requires xw == part as real && ROUNDTO as real * yw == product as real && ROUNDTO as real * dw == whole as real
    ensures xw < yw <= xw + dw
  {
  }

  lemma RealProduct(a: nat, b: nat)
    ensures Times(a as real, b as real) == (a * b) as real
  {
  }

  lemma ScaledDown(k: real, y: real, w: real)
    requires y == k / ROUNDTO as real
    ensures ROUNDTO as real * Times(y, w) == Times(k, w)
  {
    assert k == ROUNDTO as real * y;
  }

  lemma Quotient(p: real, w: real)
    requires 0.0 <= p <= w && w > 0.0
    ensures Times(p / w, w) == p && Probability(p / w)
  {
  }

  lemma Cancelled(x: real, y: real, w: real, d: real)
    requires w > 0.0 && Times(x, w) < Times(y, w) <= Times(x, w) + Times(d, w)
    ensures x < y <= x + d
  {
    SmallerFactor(x, y, w);
    assert (x + d) * w == x * w + d * w;
    if y > x + d { SmallerFactor(y, x + d, w); }
  }

  lemma SmallerFactor(x: real, y: real, z: real)
    requires z > 0.0 && x * z < y * z
    ensures x < y
  {
    if y <= x { NonNegative(x - y, z); }
  }

  lemma NonNegative(a: real, b: real)
    requires a >= 0.0 && b >= 0.0
    ensures a * b >= 0.0
  {
  }

  lemma {:induction false} ChanceProbability(e: Edge, s: Assignment, lo: nat, n: nat)
    requires lo <= n && Canonical(e, lo) && Below(e, n) && e != FALSE
    ensures Probability(Chance(e, s, lo, n))
  {
    hide Chance, CountFrom;
    SamplingIsUniform(e, s, lo, n);
    InverseProbability(CountFrom(e, {}, lo, n));
  }

  lemma InverseProbability(c: nat)
    ensures Probability(OneIn(c))
  {
  }

  /** Over a whole walk the probability of a solution, with stored shares, is off by at most one part in
      65536 for every variable. */
  lemma {:induction false} WalkError(e: Edge, s: Assignment, lo: nat, n: nat)
    requires lo <= n && Canonical(e, lo) && Below(e, n) && e != FALSE && Countable(e, n)
    ensures Within(Chance(e, s, lo, n), StoredChance(e, s, lo, n), (n - lo) as real / ROUNDTO as real)
    decreases n - lo, 1
  {
    if lo == n {
    } else if e.node.Branch? && e.node.index == lo {
      NodeError(e, s, lo, n);
    } else {
      CanonicalFrom(e, lo);
      WalkError(e, s, lo + 1, n);
      HalfError(Chance(e, s, lo + 1, n), StoredChance(e, s, lo + 1, n), (n - lo - 1) as real / ROUNDTO as real);
      hide Chance, StoredChance;
    }
  }

  lemma CanonicalFrom(e: Edge, lo: nat)
    requires Canonical(e, lo) && (e.node.Branch? ==> e.node.index != lo)
    ensures Canonical(e, lo + 1)
  {
  }

  lemma HalfError(x: real, y: real, d: real)
    requires Within(x, y, d) && d >= 0.0
    ensures Within(0.5 * x, 0.5 * y, d + 1.0 / ROUNDTO as real)
  {
  }

  lemma {:induction false} NodeError(e: Edge, s: Assignment, lo: nat, n: nat)
    requires lo < n && Canonical(e, lo) && Below(e, n) && Countable(e, n) && e.node.Branch? && e.node.index == lo
    ensures Within(Chance(e, s, lo, n), StoredChance(e, s, lo, n), (n - lo) as real / ROUNDTO as real)
    decreases n - lo, 0
  {
    ChildrenCountable(e, n);
    WeightPositive(e, n);
    var child := if lo in s then ThenOf(e) else ElseOf(e);
    if child != FALSE {
      CountableCanonical(child, n);
      WalkError(child, s, lo + 1, n);
      if ThenOf(e) != FALSE && ElseOf(e) != FALSE {
        ChoiceError(e, s, lo, n, child);
      } else {
        WithinMore(Chance(child, s, lo + 1, n), StoredChance(child, s, lo + 1, n), n - lo - 1);
      }
    } else {
      WithinMore(0.0, 0.0, n - lo - 1);
    }
  }

  lemma WithinMore(x: real, y: real, k: nat)
    requires Within(x, y, k as real / ROUNDTO as real)
    ensures Within(x, y, (k + 1) as real / ROUNDTO as real)
  {
  }

  lemma ChoiceError(e: Edge, s: Assignment, lo: nat, n: nat, child: Edge)
    requires lo < n && Countable(e, n) && e.node.Branch? && e.node.index == lo && ThenOf(e) != FALSE && ElseOf(e) != FALSE
    requires child == (if lo in s then ThenOf(e) else ElseOf(e)) && Countable(child, n) && Canonical(child, lo + 1)
    requires Weight(e, n) > 0
    requires Within(Chance(child, s, lo + 1, n), StoredChance(child, s, lo + 1, n), (n - lo - 1) as real / ROUNDTO as real)
    ensures Within(Chance(e, s, lo, n), StoredChance(e, s, lo, n), (n - lo) as real / ROUNDTO as real)
  {
    var p, q := NodeChances(e, s, lo, n, child);
    CountableCanonical(child, n);
    ChanceProbability(child, s, lo + 1, n);
    hide *;
    ProductWithin(p, q, 1.0 / ROUNDTO as real, Chance(child, s, lo + 1, n), StoredChance(child, s, lo + 1, n), (n - lo - 1) as real / ROUNDTO as real);
    OneMore(n - lo - 1);
  }

  lemma OneMore(k: nat)
    ensures 1.0 / ROUNDTO as real + k as real / ROUNDTO as real == (k + 1) as real / ROUNDTO as real
  {
  }

  /** The chance of the branch `s` takes, exact and stored. */
  lemma NodeChances(e: Edge, s: Assignment, lo: nat, n: nat, child: Edge) returns (p: real, q: real)
    requires lo < n && Countable(e, n) && e.node.Branch? && e.node.index == lo && ThenOf(e) != FALSE && ElseOf(e) != FALSE
    requires child == (if lo in s then ThenOf(e) else ElseOf(e)) && Countable(child, n) && Weight(e, n) > 0
    ensures Probability(q) && Within(p, q, 1.0 / ROUNDTO as real)
    ensures Chance(e, s, lo, n) == Times(p, Chance(child, s, lo + 1, n))
    ensures StoredChance(e, s, lo, n) == Times(q, StoredChance(child, s, lo + 1, n))
  {
    var unit := 1.0 / ROUNDTO as real;
    hide *;
    StoredElseError(e, n);
    p := if lo in s then 1.0 - ExactElseShare(e, n) else ExactElseShare(e, n);
    q := if lo in s then 1.0 - StoredElse(e, n) else StoredElse(e, n);
    ExactStep(e, s, lo, n, child, p);
    StoredStep(e, s, lo, n, child, q);
    ComplementWithin(ExactElseShare(e, n), StoredElse(e, n), unit);
  }

  lemma ExactStep(e: Edge, s: Assignment, lo: nat, n: nat, child: Edge, p: real)
    requires lo < n && e.node.Branch? && e.node.index == lo && ThenOf(e) != FALSE && ElseOf(e) != FALSE
    requires child == (if lo in s then ThenOf(e) else ElseOf(e))
    requires p == if lo in s then 1.0 - ExactElseShare(e, n) else ExactElseShare(e, n)
    ensures Chance(e, s, lo, n) == Times(p, Chance(child, s, lo + 1, n))
  {
    hide ExactElseShare;
  }

  lemma StoredStep(e: Edge, s: Assignment, lo: nat, n: nat, child: Edge, q: real)
    requires lo < n && Countable(e, n) && e.node.Branch? && e.node.index == lo && ThenOf(e) != FALSE && ElseOf(e) != FALSE
    requires child == (if lo in s then ThenOf(e) else ElseOf(e)) && Countable(child, n) && Weight(e, n) > 0
    requires q == if lo in s then 1.0 - StoredElse(e, n) else StoredElse(e, n)
    ensures StoredChance(e, s, lo, n) == Times(q, StoredChance(child, s, lo + 1, n))
  {
    hide StoredElse, Canonical, Below, CountFrom;
  }

  lemma ComplementWithin(x: real, y: real, d: real)
    requires x < y <= x + d && Probability(y)
    ensures Within(x, y, d) && Within(1.0 - x, 1.0 - y, d) && Probability(1.0 - y)
  {
  }

  // ---------------------------------------------------------------- the error for a set of solutions

  /** The sum of `g` over all completions of `s` by variables `lo <= i < n`. */
  ghost function SumOver(g: Assignment -> real, s: Assignment, lo: nat, n: nat): real
    requires lo <= n
    decreases n - lo
  {
    if lo == n then g(s) else SumOver(g, s, lo + 1, n) + SumOver(g, s + {lo}, lo + 1, n)
  }

  /** `t` is `s` and variables from `lo` on. */
  ghost predicate Completes(s: Assignment, lo: nat, t: Assignment) {
    s <= t && forall i | i in t && i !in s :: lo <= i
  }

  lemma {:induction false} SumScales(f: Assignment -> real, g: Assignment -> real, c: real, s: Assignment, lo: nat, n: nat)
    requires lo <= n && forall t: Assignment | Completes(s, lo, t) :: f(t) == Times(c, g(t))
    ensures SumOver(f, s, lo, n) == Times(c, SumOver(g, s, lo, n))
    decreases n - lo
  {
    if lo == n {
      assert Completes(s, lo, s);
    } else {
      CompletesMore(s, lo);
      hide Times, Completes;
      SumScales(f, g, c, s, lo + 1, n);
      SumScales(f, g, c, s + {lo}, lo + 1, n);
      TimesSum(c, SumOver(g, s, lo + 1, n), SumOver(g, s + {lo}, lo + 1, n));
    }
  }

  lemma CompletesMore(s: Assignment, lo: nat)
    ensures forall t: Assignment | Completes(s, lo + 1, t) :: Completes(s, lo, t) && (lo !in s ==> lo !in t)
    ensures forall t: Assignment | Completes(s + {lo}, lo + 1, t) :: Completes(s, lo, t) && lo in t
  {
  }

  lemma TimesSum(c: real, x: real, y: real)
    ensures Times(c, x + y) == Times(c, x) + Times(c, y)
  {
  }

  /** The chance of a solution, if it is in the set. */
  ghost function ExactIn(e: Edge, solutions: set<Assignment>, lo: nat, n: nat): Assignment -> real
    requires lo <= n
  {
    (t: Assignment) => if t in solutions then Chance(e, t, lo, n) else 0.0
  }

  ghost function StoredIn(e: Edge, solutions: set<Assignment>, lo: nat, n: nat): Assignment -> real
    requires lo <= n && Countable(e, n)
  {
    (t: Assignment) => if t in solutions then StoredChance(e, t, lo, n) else 0.0
  }

  /** The chances of a set of solutions, with exact and with stored shares. */
  ghost function SetExact(e: Edge, solutions: set<Assignment>, s: Assignment, lo: nat, n: nat): real
    requires lo <= n
  {
    SumOver(ExactIn(e, solutions, lo, n), s, lo, n)
  }

  ghost function SetStored(e: Edge, solutions: set<Assignment>, s: Assignment, lo: nat, n: nat): real
    requires lo <= n && Countable(e, n)
  {
    SumOver(StoredIn(e, solutions, lo, n), s, lo, n)
  }

  /** What is to be shown of a set: its two chances are probabilities within a distance. */
  ghost predicate SetWithin(e: Edge, solutions: set<Assignment>, s: Assignment, lo: nat, n: nat)
    requires lo <= n && Countable(e, n)
  {
    && Probability(SetExact(e, solutions, s, lo, n))
    && Within(SetExact(e, solutions, s, lo, n), SetStored(e, solutions, s, lo, n), (n - lo) as real / ROUNDTO as real)
  }

  /** With fair coins for undecided bits, stored shares in place of exact ones move the probability of every set
      of solutions by at most one part in 65536 for every variable. */
  lemma {:induction false} SetError(e: Edge, solutions: set<Assignment>, s: Assignment, lo: nat, n: nat)
    requires lo <= n && Canonical(e, lo) && Below(e, n) && e != FALSE && Countable(e, n) && forall i | i in s :: i < lo
    ensures SetWithin(e, solutions, s, lo, n)
    decreases n - lo, 1
  {
    if lo == n {
      assert e.node.One?;
    } else if e.node.Branch? && e.node.index == lo {
      SetNodeError(e, solutions, s, lo, n);
    } else {
      CanonicalFrom(e, lo);
      SetError(e, solutions, s, lo + 1, n);
      SetError(e, solutions, s + {lo}, lo + 1, n);
      SkipSums(e, solutions, s, lo, n);
      hide *;
      HalvedSums(e, solutions, s, lo, n);
    }
  }

  /** A skipped variable halves both sides. */
  lemma SkipSums(e: Edge, solutions: set<Assignment>, s: Assignment, lo: nat, n: nat)
    requires lo < n && Countable(e, n) && (e.node.Branch? ==> e.node.index != lo)
    ensures SetExact(e, solutions, s, lo, n) == Times(0.5, SetExact(e, solutions, s, lo + 1, n)) + Times(0.5, SetExact(e, solutions, s + {lo}, lo + 1, n))
    ensures SetStored(e, solutions, s, lo, n) == Times(0.5, SetStored(e, solutions, s, lo + 1, n)) + Times(0.5, SetStored(e, solutions, s + {lo}, lo + 1, n))
  {
    var f, f', g, g' := ExactIn(e, solutions, lo, n), ExactIn(e, solutions, lo + 1, n), StoredIn(e, solutions, lo, n), StoredIn(e, solutions, lo + 1, n);
    SkipTerms(e, solutions, lo, n);
    hide ExactIn, StoredIn, Chance, StoredChance, Times, Countable;
    SumScales(f, f', 0.5, s, lo + 1, n);
    SumScales(f, f', 0.5, s + {lo}, lo + 1, n);
    SumScales(g, g', 0.5, s, lo + 1, n);
    SumScales(g, g', 0.5, s + {lo}, lo + 1, n);
  }

  lemma SkipTerms(e: Edge, solutions: set<Assignment>, lo: nat, n: nat)
    requires lo < n && Countable(e, n) && (e.node.Branch? ==> e.node.index != lo)
    ensures forall t: Assignment :: ExactIn(e, solutions, lo, n)(t) == Times(0.5, ExactIn(e, solutions, lo + 1, n)(t))
    ensures forall t: Assignment :: StoredIn(e, solutions, lo, n)(t) == Times(0.5, StoredIn(e, solutions, lo + 1, n)(t))
  {
    hide Canonical, Below;
  }

  lemma HalvedSums(e: Edge, solutions: set<Assignment>, s: Assignment, lo: nat, n: nat)
    requires lo < n && Countable(e, n) && SetWithin(e, solutions, s, lo + 1, n) && SetWithin(e, solutions, s + {lo}, lo + 1, n)
    requires SetExact(e, solutions, s, lo, n) == Times(0.5, SetExact(e, solutions, s, lo + 1, n)) + Times(0.5, SetExact(e, solutions, s + {lo}, lo + 1, n))
    requires SetStored(e, solutions, s, lo, n) == Times(0.5, SetStored(e, solutions, s, lo + 1, n)) + Times(0.5, SetStored(e, solutions, s + {lo}, lo + 1, n))
    ensures SetWithin(e, solutions, s, lo, n)
  {
    hide SetExact, SetStored, Countable;
  }

  /** At a branch the part of the set on one side is scaled by the chance of that side. */
  lemma SideSum(e: Edge, solutions: set<Assignment>, s: Assignment, lo: nat, n: nat, taken: bool, child: Edge, next: Assignment, p: real, q: real)
    requires lo < n && Countable(e, n) && e.node.Branch? && e.node.index == lo && Countable(child, n) && (forall i | i in s :: i < lo)
    requires child == (if taken then ThenOf(e) else ElseOf(e)) && next == (if taken then s + {lo} else s)
    requires p == ExactSide(e, taken, n) && q == StoredSide(e, taken, n)
    ensures SumOver(ExactIn(e, solutions, lo, n), next, lo + 1, n) == Times(p, SetExact(child, solutions, next, lo + 1, n))
    ensures SumOver(StoredIn(e, solutions, lo, n), next, lo + 1, n) == Times(q, SetStored(child, solutions, next, lo + 1, n))
  {
    CompletesMore(s, lo);
    forall t: Assignment | Completes(next, lo + 1, t)
      ensures ExactIn(e, solutions, lo, n)(t) == Times(p, ExactIn(child, solutions, lo + 1, n)(t))
      ensures StoredIn(e, solutions, lo, n)(t) == Times(q, StoredIn(child, solutions, lo + 1, n)(t))
    {
      SideTerm(e, t, lo, n, taken, child, p, q);
    }
    hide ExactIn, StoredIn, Chance, StoredChance, Times, Countable, Completes, ExactSide, StoredSide;
    SumScales(ExactIn(e, solutions, lo, n), ExactIn(child, solutions, lo + 1, n), p, next, lo + 1, n);
    SumScales(StoredIn(e, solutions, lo, n), StoredIn(child, solutions, lo + 1, n), q, next, lo + 1, n);
  }

  /** The chance of one side of a branch. */
  ghost function ExactSide(e: Edge, taken: bool, n: nat): real
    requires Countable(e, n) && e.node.Branch?
  {
    ChildrenCountable(e, n);
    if ElseOf(e) == FALSE then (if taken then 1.0 else 0.0)
    else if ThenOf(e) == FALSE then (if taken then 0.0 else 1.0)
    else if taken then 1.0 - ExactElseShare(e, n) else ExactElseShare(e, n)
  }

  ghost function StoredSide(e: Edge, taken: bool, n: nat): real
    requires Countable(e, n) && e.node.Branch?
  {
    ChildrenCountable(e, n);
    WeightPositive(e, n);
    if ElseOf(e) == FALSE then (if taken then 1.0 else 0.0)
    else if ThenOf(e) == FALSE then (if taken then 0.0 else 1.0)
    else if taken then 1.0 - StoredElse(e, n) else StoredElse(e, n)
  }

  lemma SideTerm(e: Edge, t: Assignment, lo: nat, n: nat, taken: bool, child: Edge, p: real, q: real)
    requires lo < n && Countable(e, n) && e.node.Branch? && e.node.index == lo && Countable(child, n) && (taken <==> lo in t)
    requires child == (if taken then ThenOf(e) else ElseOf(e)) && p == ExactSide(e, taken, n) && q == StoredSide(e, taken, n)
    ensures Chance(e, t, lo, n) == Times(p, Chance(child, t, lo + 1, n)) && Times(p, 0.0) == 0.0
    ensures StoredChance(e, t, lo, n) == Times(q, StoredChance(child, t, lo + 1, n)) && Times(q, 0.0) == 0.0
  {
    hide *;
    ExactTerm(e, t, lo, n, taken, child, p);
    StoredTerm(e, t, lo, n, taken, child, q);
    TimesZero(p);
    TimesZero(q);
  }

  lemma TimesZero(p: real)
    ensures Times(p, 0.0) == 0.0
  {
  }

  lemma ExactTerm(e: Edge, t: Assignment, lo: nat, n: nat, taken: bool, child: Edge, p: real)
    requires lo < n && Countable(e, n) && e.node.Branch? && e.node.index == lo && (taken <==> lo in t)
    requires child == (if taken then ThenOf(e) else ElseOf(e)) && p == ExactSide(e, taken, n)
    ensures Chance(e, t, lo, n) == Times(p, Chance(child, t, lo + 1, n))
  {
    hide ExactElseShare, Canonical, Below, Countable;
  }

  lemma StoredTerm(e: Edge, t: Assignment, lo: nat, n: nat, taken: bool, child: Edge, q: real)
    requires lo < n && Countable(e, n) && e.node.Branch? && e.node.index == lo && Countable(child, n) && (taken <==> lo in t)
    requires child == (if taken then ThenOf(e) else ElseOf(e)) && q == StoredSide(e, taken, n)
    ensures StoredChance(e, t, lo, n) == Times(q, StoredChance(child, t, lo + 1, n))
  {
    hide StoredElse, Canonical, Below;
  }

  lemma {:induction false} SetNodeError(e: Edge, solutions: set<Assignment>, s: Assignment, lo: nat, n: nat)
    requires lo < n && Canonical(e, lo) && Countable(e, n) && e.node.Branch? && e.node.index == lo && forall i | i in s :: i < lo
    ensures SetWithin(e, solutions, s, lo, n)
    decreases n - lo, 0
  {
    ChildrenCountable(e, n);
    var t, f, on := ThenOf(e), ElseOf(e), s + {lo};
    SidesWithin(e, n);
    SideSum(e, solutions, s, lo, n, true, t, on, ExactSide(e, true, n), StoredSide(e, true, n));
    SideSum(e, solutions, s, lo, n, false, f, s, ExactSide(e, false, n), StoredSide(e, false, n));
    if t != FALSE { CountableCanonical(t, n); SetError(t, solutions, on, lo + 1, n); }
    if f != FALSE { CountableCanonical(f, n); SetError(f, solutions, s, lo + 1, n); }
    hide ExactIn, StoredIn, Chance, StoredChance, Canonical, Below, ExactSide, StoredSide;
    SidesTogether(e, solutions, s, lo, n, t, f, on);
  }

  /** The chances of the two sides. */
  ghost predicate GoodSides(e: Edge, n: nat)
    requires Countable(e, n) && e.node.Branch?
  {
    && Probability(ExactSide(e, true, n)) && Probability(StoredSide(e, true, n))
    && ExactSide(e, false, n) == 1.0 - ExactSide(e, true, n) && StoredSide(e, false, n) == 1.0 - StoredSide(e, true, n)
    && Within(ExactSide(e, true, n), StoredSide(e, true, n), 1.0 / ROUNDTO as real)
    && (ThenOf(e) == FALSE ==> ExactSide(e, true, n) == 0.0 == StoredSide(e, true, n))
    && (ElseOf(e) == FALSE ==> ExactSide(e, false, n) == 0.0 == StoredSide(e, false, n))
  }

  lemma SidesWithin(e: Edge, n: nat)
    requires Countable(e, n) && e.node.Branch?
    ensures GoodSides(e, n)
  {
    ChildrenCountable(e, n);
    WeightPositive(e, n);
    if ThenOf(e) != FALSE && ElseOf(e) != FALSE { StoredElseError(e, n); }
    hide ExactElseShare, StoredElse, Canonical, Below;
  }

  lemma SidesTogether(e: Edge, solutions: set<Assignment>, s: Assignment, lo: nat, n: nat, t: Edge, f: Edge, on: Assignment)
    requires lo < n && Countable(e, n) && e.node.Branch? && e.node.index == lo && GoodSides(e, n)
    requires t == ThenOf(e) && f == ElseOf(e) && on == s + {lo} && Countable(t, n) && Countable(f, n)
    requires SumOver(ExactIn(e, solutions, lo, n), on, lo + 1, n) == Times(ExactSide(e, true, n), SetExact(t, solutions, on, lo + 1, n))
    requires SumOver(StoredIn(e, solutions, lo, n), on, lo + 1, n) == Times(StoredSide(e, true, n), SetStored(t, solutions, on, lo + 1, n))
    requires SumOver(ExactIn(e, solutions, lo, n), s, lo + 1, n) == Times(ExactSide(e, false, n), SetExact(f, solutions, s, lo + 1, n))
    requires SumOver(StoredIn(e, solutions, lo, n), s, lo + 1, n) == Times(StoredSide(e, false, n), SetStored(f, solutions, s, lo + 1, n))
    requires t != FALSE ==> SetWithin(t, solutions, on, lo + 1, n)
    requires f != FALSE ==> SetWithin(f, solutions, s, lo + 1, n)
    ensures SetWithin(e, solutions, s, lo, n)
  {
    var u, u', v, v' := SetExact(t, solutions, on, lo + 1, n), SetStored(t, solutions, on, lo + 1, n),
                        SetExact(f, solutions, s, lo + 1, n), SetStored(f, solutions, s, lo + 1, n);
    var x, y := ExactSide(e, true, n), StoredSide(e, true, n);
    assert SetExact(e, solutions, s, lo, n) == Times(ExactSide(e, false, n), v) + Times(x, u);
    assert SetStored(e, solutions, s, lo, n) == Times(StoredSide(e, false, n), v') + Times(y, u');
    hide SetExact, SetStored, Countable, ExactSide, StoredSide, Times;
    var k := n - lo - 1;
    if t == FALSE {
      OneSide(v, v', u, u');
      WithinMore(v, v', k);
    } else if f == FALSE {
      OneSide(u, u', v, v');
      WithinMore(u, u', k);
    } else {
      Mixture(x, y, u, u', v, v', 1.0 / ROUNDTO as real, k as real / ROUNDTO as real);
      OneMore(k);
    }
  }

  lemma OneSide(v: real, v': real, u: real, u': real)
    ensures Times(1.0, v) + Times(0.0, u) == v && Times(1.0, v') + Times(0.0, u') == v'
    ensures Times(0.0, u) + Times(1.0, v) == v && Times(0.0, u') + Times(1.0, v') == v'
  {
  }

  lemma Mixture(x: real, y: real, u: real, u': real, v: real, v': real, d: real, f: real)
    requires Probability(x) && Probability(y) && Within(x, y, d) && Probability(u) && Probability(v) && Within(u, u', f) && Within(v, v', f)
    ensures Probability(Times(1.0 - x, v) + Times(x, u))
    ensures Within(Times(1.0 - x, v) + Times(x, u), Times(1.0 - y, v') + Times(y, u'), d + f)
  {
    MixtureParts(x, y, u, u', v, v');
    ScaledWithin(y, u' - u, f);
    ScaledWithin(1.0 - y, v' - v, f);
    MixtureBound(y, u' - u, v' - v, f);
    if u >= v { ScaledWithin(u - v, y - x, d); } else { ScaledWithin(v - u, x - y, d); TimesSigns(u, v, x, y); }
    MixtureProbability(x, u, v);
    hide Times;
  }

  lemma MixtureParts(x: real, y: real, u: real, u': real, v: real, v': real)
    ensures (Times(1.0 - y, v') + Times(y, u')) - (Times(1.0 - x, v) + Times(x, u))
         == Times(u - v, y - x) + (Times(y, u' - u) + Times(1.0 - y, v' - v))
  {
  }

  lemma MixtureBound(y: real, a: real, b: real, f: real)
    requires Probability(y) && 0.0 - f <= a <= f && 0.0 - f <= b <= f
    ensures 0.0 - f <= Times(y, a) + Times(1.0 - y, b) <= f
  {
    NonNegative(y, f - a);
    NonNegative(y, f + a);
    NonNegative(1.0 - y, f - b);
    NonNegative(1.0 - y, f + b);
    assert y * (f - a) + (1.0 - y) * (f - b) == f - (y * a + (1.0 - y) * b);
    assert y * (f + a) + (1.0 - y) * (f + b) == f + (y * a + (1.0 - y) * b);
  }

  lemma TimesSigns(u: real, v: real, x: real, y: real)
    ensures Times(v - u, x - y) == Times(u - v, y - x)
  {
  }

  lemma MixtureProbability(x: real, u: real, v: real)
    requires Probability(x) && Probability(u) && Probability(v)
    ensures Probability(Times(1.0 - x, v) + Times(x, u))
  {
    NonNegative(x, u);
    NonNegative(1.0 - x, v);
    NonNegative(x, 1.0 - u);
    NonNegative(1.0 - x, 1.0 - v);
    assert x * (1.0 - u) + (1.0 - x) * (1.0 - v) == 1.0 - (x * u + (1.0 - x) * v);
  }
}

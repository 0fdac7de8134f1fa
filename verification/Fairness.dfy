/** The chance of each solution as the sampler draws it: branch shares as stored in sixteen bits, compared with
    the two halves of the random words, and undecided bits taken from the words. All words to come are taken
    to be independent and equally likely; nothing else is idealised. */
module Fairness {
  import opened Bdds
  import opened Words
  import opened Randomness
  import opened Counting
  import opened Weights
  import opened Sampling
  import opened Circuits
  import opened Expressions
  import opened Compiler
  import opened Fields
  import opened Uniformity
  import opened Extraction
  import opened Runs
  import opened FieldCounts
  import opened Chances

  /** The word after one step of `update16BitValue`, `w` being the word drawn if one is needed. */
  function NextHalf(r: nat, w: nat): nat {
    Step16(Rand(r, 0), (i: nat) => w).randomnext
  }

  /** The chance that from word `r` on the walk goes the way of `s`. */
  ghost function GoChance(e: Edge, r: nat, shares: map<Edge, nat>, s: Assignment): real
    decreases e.node, 2, 0
  {
    if e.node.One? then 1.0
    else if ElseOf(e) == FALSE then (if e.node.index in s then GoChance(ThenOf(e), r, shares, s) else 0.0)
    else if ThenOf(e) == FALSE then (if e.node.index in s then 0.0 else GoChance(ElseOf(e), r, shares, s))
    else GoSum(e, r, shares, s, WORD) / WORD as real
  }

  /** The same at a node with a choice, summed over the first `k` words that may be drawn. */
  ghost function GoSum(e: Edge, r: nat, shares: map<Edge, nat>, s: Assignment, k: nat): real
    requires e.node.Branch?
    decreases e.node, 1, k
  {
    if k == 0 then 0.0 else GoSum(e, r, shares, s, k - 1) + GoWord(e, r, shares, s, k - 1)
  }

  ghost function GoWord(e: Edge, r: nat, shares: map<Edge, nat>, s: Assignment, w: nat): real
    requires e.node.Branch?
    decreases e.node, 0, 0
  {
    if TakesElse(Threshold(e, shares), NextHalf(r, w)) then
      (if e.node.index in s then 0.0 else GoChance(ElseOf(e), NextHalf(r, w), shares, s))
    else (if e.node.index in s then GoChance(ThenOf(e), NextHalf(r, w), shares, s) else 0.0)
  }

  /** The chance of the solution `s` in a draw that starts with word `r` left from the one before. */
  ghost function DrawChance(b: Edge, r: nat, shares: map<Edge, nat>, layout: Layout, members: seq<Ext>, s: Assignment): real {
    GoChance(b, r, shares, s) * FillChance(layout, members, s, Tested(b, s))
  }

  /** All solutions have the same chance. */
  ghost predicate Uniform(b: Bdd, r: nat, shares: map<Edge, nat>, layout: Layout, members: seq<Ext>, xs: set<Ext>) {
    forall s: Assignment | s in Solutions(b, layout, xs) ::
      DrawChance(b, r, shares, layout, members, s) == OneIn(|Solutions(b, layout, xs)|)
  }

  /** The first node of the walk at which both branches are open, or the one node. */
  function FirstChoice(e: Edge): (f: Edge)
    decreases e.node
  {
    if e.node.One? then e
    else if ElseOf(e) == FALSE then FirstChoice(ThenOf(e))
    else if ThenOf(e) == FALSE then FirstChoice(ElseOf(e))
    else e
  }

  // ---------------------------------------------------------------- only the tested variables matter

  lemma {:induction false} SameGo(e: Edge, r: nat, shares: map<Edge, nat>, s: Assignment, s': Assignment)
    requires forall i | i in Tested(e, s) :: i in s <==> i in s'
    ensures GoChance(e, r, shares, s) == GoChance(e, r, shares, s')
    decreases e.node, 2, 0
  {
    if e.node.Branch? {
      var child := if e.node.index in s then ThenOf(e) else ElseOf(e);
      TestedStep(e, child, s);
      hide Tested, GoSum;
      if ElseOf(e) == FALSE || ThenOf(e) == FALSE {
        SameGo(child, r, shares, s, s');
      } else {
        SameGoSum(e, r, shares, s, s', child, WORD);
      }
    }
  }

  lemma {:induction false} SameGoSum(e: Edge, r: nat, shares: map<Edge, nat>, s: Assignment, s': Assignment, child: Edge, k: nat)
    requires e.node.Branch? && child == (if e.node.index in s then ThenOf(e) else ElseOf(e))
    requires (e.node.index in s <==> e.node.index in s') && forall i | i in Tested(child, s) :: i in s <==> i in s'
    ensures GoSum(e, r, shares, s, k) == GoSum(e, r, shares, s', k)
    decreases e.node, 1, k
  {
    if k > 0 {
      SameGoSum(e, r, shares, s, s', child, k - 1);
      hide Tested, GoChance, NextHalf;
      SameGo(child, NextHalf(r, k - 1), shares, s, s');
    }
  }

  // ---------------------------------------------------------------- sums over all ways

  /** The sum of `g` over all ways from `e` to the one node, each given by the variables it turns on. */
  ghost function PathSum(e: Edge, base: Assignment, g: Assignment -> real): real
    decreases e.node
  {
    if e.node.One? then (if e.complement then 0.0 else g(base))
    else PathSum(ThenOf(e), base + {e.node.index}, g) + PathSum(ElseOf(e), base, g)
  }

  /** `s` is `base` and variables from `lo` on, and solves the diagram. */
  ghost predicate Solves(e: Edge, base: Assignment, lo: nat, s: Assignment) {
    Eval(e, s) && base <= s && forall i | i in s && i !in base :: lo <= i
  }

  ghost predicate Before(base: Assignment, lo: nat) {
    forall i | i in base :: i < lo
  }

  /** Solutions of a branch are solutions of the node. */
  lemma BranchSolves(e: Edge, base: Assignment, lo: nat, s: Assignment)
    requires Canonical(e, lo) && e.node.Branch? && Before(base, lo)
    ensures Canonical(ThenOf(e), e.node.index + 1) && Canonical(ElseOf(e), e.node.index + 1)
    ensures Before(base + {e.node.index}, e.node.index + 1) && Before(base, e.node.index + 1) && e.node.index !in base
    ensures Solves(ThenOf(e), base + {e.node.index}, e.node.index + 1, s) ==> Solves(e, base, lo, s) && e.node.index in s
    ensures Solves(ElseOf(e), base, e.node.index + 1, s) ==> Solves(e, base, lo, s) && e.node.index !in s
  {
    Branches(e, lo, 0);
    hide Eval, Canonical;
  }

  /** Sums add up. */
  lemma {:induction false} PathSumAdds(e: Edge, base: Assignment, lo: nat, f: Assignment -> real, g: Assignment -> real, h: Assignment -> real)
    requires Canonical(e, lo) && Before(base, lo)
    requires forall s: Assignment | Solves(e, base, lo, s) :: f(s) == g(s) + h(s)
    ensures PathSum(e, base, f) == PathSum(e, base, g) + PathSum(e, base, h)
    decreases e.node
  {
    if e.node.Branch? {
      BranchSolves(e, base, lo, base);
      forall s: Assignment ensures Solves(ThenOf(e), base + {e.node.index}, e.node.index + 1, s) || Solves(ElseOf(e), base, e.node.index + 1, s)
                               ==> f(s) == g(s) + h(s)
      {
        BranchSolves(e, base, lo, s);
      }
      hide Canonical, Solves, Before;
      PathSumAdds(ThenOf(e), base + {e.node.index}, e.node.index + 1, f, g, h);
      PathSumAdds(ElseOf(e), base, e.node.index + 1, f, g, h);
    }
  }

  ghost function Nothing(): Assignment -> real {
    (s: Assignment) => 0.0
  }

  lemma {:induction false} NothingSums(e: Edge, base: Assignment)
    ensures PathSum(e, base, Nothing()) == 0.0
    decreases e.node
  {
    if e.node.Branch? {
      NothingSums(ThenOf(e), base + {e.node.index});
      NothingSums(ElseOf(e), base);
    }
  }

  lemma PathSumSame(e: Edge, base: Assignment, lo: nat, f: Assignment -> real, g: Assignment -> real)
    requires Canonical(e, lo) && Before(base, lo)
    requires forall s: Assignment | Solves(e, base, lo, s) :: f(s) == g(s)
    ensures PathSum(e, base, f) == PathSum(e, base, g)
  {
    NothingSums(e, base);
    hide Canonical, Solves, PathSum, Before;
    PathSumAdds(e, base, lo, f, g, Nothing());
  }

  /** A factor comes out of the sum. */
  lemma {:induction false} PathSumScales(e: Edge, base: Assignment, lo: nat, c: real, f: Assignment -> real, g: Assignment -> real)
    requires Canonical(e, lo) && Before(base, lo)
    requires forall s: Assignment | Solves(e, base, lo, s) :: f(s) == Times(c, g(s))
    ensures PathSum(e, base, f) == Times(c, PathSum(e, base, g))
    decreases e.node
  {
    if e.node.Branch? {
      BranchSolves(e, base, lo, base);
      forall s: Assignment ensures Solves(ThenOf(e), base + {e.node.index}, e.node.index + 1, s) || Solves(ElseOf(e), base, e.node.index + 1, s)
                               ==> f(s) == Times(c, g(s))
      {
        BranchSolves(e, base, lo, s);
      }
      hide Canonical, Solves, Times, Before;
      PathSumScales(ThenOf(e), base + {e.node.index}, e.node.index + 1, c, f, g);
      PathSumScales(ElseOf(e), base, e.node.index + 1, c, f, g);
      TimesAdds(c, PathSum(ThenOf(e), base + {e.node.index}, g), PathSum(ElseOf(e), base, g));
    } else {
      TimesAdds(c, 0.0, 0.0);
      assert !e.complement ==> Solves(e, base, lo, base);
    }
  }

  lemma TimesAdds(c: real, x: real, y: real)
    ensures Times(c, x + y) == Times(c, x) + Times(c, y) && Times(c, 0.0) == 0.0
  {
  }

  // ---------------------------------------------------------------- the walk ends somewhere

  ghost function Going(e: Edge, r: nat, shares: map<Edge, nat>): Assignment -> real {
    (s: Assignment) => GoChance(e, r, shares, s)
  }

  ghost function GoingSum(e: Edge, r: nat, shares: map<Edge, nat>, k: nat): Assignment -> real
    requires e.node.Branch?
  {
    (s: Assignment) => GoSum(e, r, shares, s, k)
  }

  ghost function GoingWord(e: Edge, r: nat, shares: map<Edge, nat>, w: nat): Assignment -> real
    requires e.node.Branch?
  {
    (s: Assignment) => GoWord(e, r, shares, s, w)
  }

  /** The words among the first `k` that send a walk from word `r` to the else branch. */
  ghost function ElseCount(threshold: nat, r: nat, k: nat): (c: nat)
    ensures c <= k
  {
    if k == 0 then 0 else ElseCount(threshold, r, k - 1) + if TakesElse(threshold, NextHalf(r, k - 1)) then 1 else 0
  }

  /** All ways together have probability one. */
  lemma {:induction false} TotalGo(e: Edge, base: Assignment, lo: nat, r: nat, shares: map<Edge, nat>)
    requires Canonical(e, lo) && Before(base, lo) && e != FALSE
    ensures PathSum(e, base, Going(e, r, shares)) == 1.0
    decreases e.node, 3, 0
  {
    if e.node.Branch? {
      BranchSolves(e, base, lo, base);
      if ElseOf(e) == FALSE || ThenOf(e) == FALSE {
        TotalForced(e, base, lo, r, shares);
      } else {
        TotalChoice(e, base, lo, r, shares);
      }
    }
  }

  lemma {:induction false} TotalForced(e: Edge, base: Assignment, lo: nat, r: nat, shares: map<Edge, nat>)
    requires Canonical(e, lo) && Before(base, lo) && e.node.Branch? && (ElseOf(e) == FALSE || ThenOf(e) == FALSE)
    ensures PathSum(e, base, Going(e, r, shares)) == 1.0
    decreases e.node, 2, WORD + 1
  {
    Branches(e, lo, 0);
    BranchSolves(e, base, lo, base);
    var i, g := e.node.index, Going(e, r, shares);
    if ElseOf(e) == FALSE {
      forall s: Assignment | Solves(ThenOf(e), base + {i}, i + 1, s) ensures g(s) == Going(ThenOf(e), r, shares)(s) { BranchSolves(e, base, lo, s); }
      hide Canonical, Solves, Before, GoChance;
      PathSumSame(ThenOf(e), base + {i}, i + 1, g, Going(ThenOf(e), r, shares));
      TotalGo(ThenOf(e), base + {i}, i + 1, r, shares);
    } else {
      forall s: Assignment | Solves(ElseOf(e), base, i + 1, s) ensures g(s) == Going(ElseOf(e), r, shares)(s) { BranchSolves(e, base, lo, s); }
      hide Canonical, Solves, Before, GoChance;
      PathSumSame(ElseOf(e), base, i + 1, g, Going(ElseOf(e), r, shares));
      TotalGo(ElseOf(e), base, i + 1, r, shares);
    }
  }

  /** At a node with a choice: the ways through the else branch have the chance of the words that take it. */
  lemma {:induction false} TotalChoice(e: Edge, base: Assignment, lo: nat, r: nat, shares: map<Edge, nat>)
    requires Canonical(e, lo) && Before(base, lo) && e.node.Branch? && ElseOf(e) != FALSE && ThenOf(e) != FALSE
    ensures PathSum(e, base, Going(e, r, shares)) == 1.0
    ensures PathSum(ElseOf(e), base, Going(e, r, shares)) == ElseCount(Threshold(e, shares), r, WORD) as real / WORD as real
    decreases e.node, 2, WORD + 1
  {
    BranchSolves(e, base, lo, base);
    ChoiceMass(e, base, lo, r, shares, WORD);
    var i, g, all, part := e.node.index, Going(e, r, shares), GoingSum(e, r, shares, WORD), 1.0 / WORD as real;
    forall s: Assignment ensures g(s) == Times(part, all(s)) { SumShare(e, r, shares, s, part); }
    hide Canonical, Solves, Before, GoChance, GoSum, Times, ElseCount;
    PathSumScales(ThenOf(e), base + {i}, i + 1, part, g, all);
    PathSumScales(ElseOf(e), base, i + 1, part, g, all);
    var c := ElseCount(Threshold(e, shares), r, WORD);
    Shares(c, part);
  }

  lemma SumShare(e: Edge, r: nat, shares: map<Edge, nat>, s: Assignment, part: real)
    requires e.node.Branch? && ElseOf(e) != FALSE && ThenOf(e) != FALSE && part == 1.0 / WORD as real
    ensures GoChance(e, r, shares, s) == Times(part, GoSum(e, r, shares, s, WORD))
  {
    hide GoSum;
    var x := GoSum(e, r, shares, s, WORD);
    assert x / WORD as real == part * x;
  }

  lemma Shares(c: nat, part: real)
    requires c <= WORD && part == 1.0 / WORD as real
    ensures Times(part, c as real) == c as real / WORD as real
    ensures Times(part, (WORD - c) as real) + Times(part, c as real) == 1.0
  {
  }

  lemma {:induction false} ChoiceMass(e: Edge, base: Assignment, lo: nat, r: nat, shares: map<Edge, nat>, k: nat)
    requires Canonical(e, lo) && Before(base, lo) && e.node.Branch? && ElseOf(e) != FALSE && ThenOf(e) != FALSE
    ensures PathSum(ElseOf(e), base, GoingSum(e, r, shares, k)) == ElseCount(Threshold(e, shares), r, k) as real
    ensures PathSum(ThenOf(e), base + {e.node.index}, GoingSum(e, r, shares, k)) == (k - ElseCount(Threshold(e, shares), r, k)) as real
    decreases e.node, 2, k
  {
    BranchSolves(e, base, lo, base);
    var i, t, f := e.node.index, ThenOf(e), ElseOf(e);
    if k == 0 {
      NoWords(e, r, shares);
      hide Canonical, Solves, Before, GoSum, PathSum;
      PathSumSame(t, base + {i}, i + 1, GoingSum(e, r, shares, 0), Nothing());
      PathSumSame(f, base, i + 1, GoingSum(e, r, shares, 0), Nothing());
      NothingSums(t, base + {i});
      NothingSums(f, base);
    } else {
      ChoiceMass(e, base, lo, r, shares, k - 1);
      OneMoreWord(e, r, shares, k);
      hide Canonical, Solves, Before, GoSum, GoWord, PathSum;
      PathSumAdds(t, base + {i}, i + 1, GoingSum(e, r, shares, k), GoingSum(e, r, shares, k - 1), GoingWord(e, r, shares, k - 1));
      PathSumAdds(f, base, i + 1, GoingSum(e, r, shares, k), GoingSum(e, r, shares, k - 1), GoingWord(e, r, shares, k - 1));
      WordMass(e, base, lo, r, shares, k - 1);
    }
  }

  lemma NoWords(e: Edge, r: nat, shares: map<Edge, nat>)
    requires e.node.Branch?
    ensures forall s: Assignment :: GoingSum(e, r, shares, 0)(s) == Nothing()(s)
  {
  }

  lemma OneMoreWord(e: Edge, r: nat, shares: map<Edge, nat>, k: nat)
    requires e.node.Branch? && k > 0
    ensures forall s: Assignment :: GoingSum(e, r, shares, k)(s) == GoingSum(e, r, shares, k - 1)(s) + GoingWord(e, r, shares, k - 1)(s)
  {
    hide GoWord;
  }

  /** One word goes to one branch. */
  lemma {:induction false} WordMass(e: Edge, base: Assignment, lo: nat, r: nat, shares: map<Edge, nat>, w: nat)
    requires Canonical(e, lo) && Before(base, lo) && e.node.Branch? && ElseOf(e) != FALSE && ThenOf(e) != FALSE
    ensures var takesElse := TakesElse(Threshold(e, shares), NextHalf(r, w));
            && PathSum(ElseOf(e), base, GoingWord(e, r, shares, w)) == (if takesElse then 1.0 else 0.0)
            && PathSum(ThenOf(e), base + {e.node.index}, GoingWord(e, r, shares, w)) == if takesElse then 0.0 else 1.0
    decreases e.node, 1, 0
  {
    BranchSolves(e, base, lo, base);
    var i, t, f, g, r' := e.node.index, ThenOf(e), ElseOf(e), GoingWord(e, r, shares, w), NextHalf(r, w);
    NothingSums(t, base + {i});
    NothingSums(f, base);
    WordGoes(e, base, lo, r, shares, w);
    hide Canonical, Solves, Before, GoWord, GoChance, PathSum, NextHalf, TakesElse;
    if TakesElse(Threshold(e, shares), r') {
      PathSumSame(f, base, i + 1, g, Going(f, r', shares));
      PathSumSame(t, base + {i}, i + 1, g, Nothing());
      TotalGo(f, base, i + 1, r', shares);
    } else {
      PathSumSame(f, base, i + 1, g, Nothing());
      PathSumSame(t, base + {i}, i + 1, g, Going(t, r', shares));
      TotalGo(t, base + {i}, i + 1, r', shares);
    }
  }

  lemma WordGoes(e: Edge, base: Assignment, lo: nat, r: nat, shares: map<Edge, nat>, w: nat)
    requires Canonical(e, lo) && Before(base, lo) && e.node.Branch?
    ensures var i, g, r' := e.node.index, GoingWord(e, r, shares, w), NextHalf(r, w);
            var takesElse := TakesElse(Threshold(e, shares), r');
            && (forall s: Assignment | Solves(ElseOf(e), base, i + 1, s) :: g(s) == if takesElse then Going(ElseOf(e), r', shares)(s) else Nothing()(s))
            && (forall s: Assignment | Solves(ThenOf(e), base + {i}, i + 1, s) :: g(s) == if takesElse then Nothing()(s) else Going(ThenOf(e), r', shares)(s))
  {
    var i := e.node.index;
    forall s: Assignment ensures (Solves(ElseOf(e), base, i + 1, s) ==> i !in s) && (Solves(ThenOf(e), base + {i}, i + 1, s) ==> i in s) {
      BranchSolves(e, base, lo, s);
    }
    hide Canonical, Solves, Before, GoChance, NextHalf, TakesElse;
  }

  // ---------------------------------------------------------------- the same with exact shares

  ghost function Walking(e: Edge, n: nat): Assignment -> real
    requires Countable(e, n)
  {
    (s: Assignment) => WalkChance(e, s, n)
  }

  /** The part of a branch that is taken with chance `c`. */
  lemma BranchWalk(e: Edge, child: Edge, next: Assignment, base: Assignment, lo: nat, n: nat, c: real, taken: bool)
    requires Canonical(e, lo) && Before(base, lo) && Countable(e, n) && e.node.Branch? && Countable(child, n)
    requires child == (if taken then ThenOf(e) else ElseOf(e)) && next == (if taken then base + {e.node.index} else base)
    requires c == ExactSide(e, taken, n)
    ensures PathSum(child, next, Walking(e, n)) == Times(c, PathSum(child, next, Walking(child, n)))
  {
    hide *;
    BranchSolves(e, base, lo, base);
    forall s: Assignment | Solves(child, next, e.node.index + 1, s) ensures Walking(e, n)(s) == Times(c, Walking(child, n)(s)) {
      BranchSolves(e, base, lo, s);
      WalkTerm(e, child, s, n, c, taken);
    }
    PathSumScales(child, next, e.node.index + 1, c, Walking(e, n), Walking(child, n));
  }

  lemma WalkTerm(e: Edge, child: Edge, s: Assignment, n: nat, c: real, taken: bool)
    requires Countable(e, n) && e.node.Branch? && Countable(child, n) && (taken <==> e.node.index in s)
    requires child == (if taken then ThenOf(e) else ElseOf(e)) && c == ExactSide(e, taken, n)
    ensures Walking(e, n)(s) == Times(c, Walking(child, n)(s))
  {
    hide WalkChance, ExactSide, Countable, ThenOf, ElseOf;
    WalkStep(e, child, s, n);
  }

  lemma {:induction false} TotalWalk(e: Edge, base: Assignment, lo: nat, n: nat)
    requires Canonical(e, lo) && Before(base, lo) && Countable(e, n) && e != FALSE
    ensures PathSum(e, base, Walking(e, n)) == 1.0
    decreases e.node, 1
  {
    if e.node.Branch? {
      ChildrenCountable(e, n);
      WalkParts(e, base, lo, n);
      StepsAddUp(e, n);
    } else {
      assert e == TRUE;
    }
  }

  /** The parts of the two branches. */
  lemma {:induction false} WalkParts(e: Edge, base: Assignment, lo: nat, n: nat)
    requires Canonical(e, lo) && Before(base, lo) && Countable(e, n) && e.node.Branch?
    ensures PathSum(ThenOf(e), base + {e.node.index}, Walking(e, n)) == ExactSide(e, true, n)
    ensures PathSum(ElseOf(e), base, Walking(e, n)) == ExactSide(e, false, n)
    decreases e.node, 0
  {
    ChildrenCountable(e, n);
    BranchSolves(e, base, lo, base);
    var t, f, i := ThenOf(e), ElseOf(e), e.node.index;
    BranchWalk(e, t, base + {i}, base, lo, n, ExactSide(e, true, n), true);
    BranchWalk(e, f, base, base, lo, n, ExactSide(e, false, n), false);
    ForcedSteps(e, n);
    hide Canonical, Before, ExactSide, PathSum, Countable;
    if t != FALSE { TotalWalk(t, base + {i}, i + 1, n); }
    if f != FALSE { TotalWalk(f, base, i + 1, n); }
  }

  lemma ForcedSteps(e: Edge, n: nat)
    requires Countable(e, n) && e.node.Branch?
    ensures ThenOf(e) == FALSE ==> ExactSide(e, true, n) == 0.0
    ensures ElseOf(e) == FALSE ==> ExactSide(e, false, n) == 0.0
  {
    ChildrenCountable(e, n);
  }

  lemma StepsAddUp(e: Edge, n: nat)
    requires Countable(e, n) && e.node.Branch?
    ensures ExactSide(e, true, n) + ExactSide(e, false, n) == 1.0
  {
    hide ExactElseShare;
  }

  // ---------------------------------------------------------------- the first choice

  /** Both branches have an exact share of more than nothing. */
  lemma ShareInside(e: Edge, n: nat)
    requires Countable(e, n) && e.node.Branch? && ThenOf(e) != FALSE && ElseOf(e) != FALSE
    ensures e.node.index < n && Weight(e, n) > 0
    ensures 0.0 < ExactElseShare(e, n) < 1.0
  {
    ChildrenCountable(e, n);
    WeightPositive(e, n);
    CountBranch(e, n);
    CountPositive(ThenOf(e), e.node.index + 1, n);
    CountPositive(ElseOf(e), e.node.index + 1, n);
    hide CountFrom, Canonical, Below;
    ProperFraction(BranchWeight(ElseOf(e), e.node.index, n), Weight(e, n));
  }

  lemma ProperFraction(part: nat, whole: nat)
    requires 0 < part < whole
    ensures 0.0 < part as real / whole as real < 1.0
  {
  }

  /** A walk whose exact and real chances agree on all solutions has a first choice that is made by a new word,
      with exactly the right number of words for the else branch, or no choice at all. */
  lemma {:induction false} FirstChoiceShare(e: Edge, base: Assignment, lo: nat, r: nat, shares: map<Edge, nat>, n: nat)
    requires Canonical(e, lo) && Before(base, lo) && Countable(e, n) && e != FALSE && r < WORD
    requires forall s: Assignment | Solves(e, base, lo, s) :: GoChance(e, r, shares, s) == WalkChance(e, s, n)
    ensures var f := FirstChoice(e);
            f.node.Branch? ==>
              && Countable(f, n) && f.node.index < n && r <= ROUNDTO
              && LowerElse(Threshold(f, shares), WORD) as real / WORD as real == ExactElseShare(f, n)
    decreases e.node
  {
    if e.node.Branch? {
      ChildrenCountable(e, n);
      BranchSolves(e, base, lo, base);
      var i := e.node.index;
      if ElseOf(e) == FALSE {
        ForcedAgree(e, ThenOf(e), base + {i}, base, lo, r, shares, n, true);
        FirstChoiceShare(ThenOf(e), base + {i}, i + 1, r, shares, n);
      } else if ThenOf(e) == FALSE {
        ForcedAgree(e, ElseOf(e), base, base, lo, r, shares, n, false);
        FirstChoiceShare(ElseOf(e), base, i + 1, r, shares, n);
      } else {
        ChoiceShare(e, base, lo, r, shares, n);
      }
    }
  }

  lemma ForcedAgree(e: Edge, child: Edge, next: Assignment, base: Assignment, lo: nat, r: nat, shares: map<Edge, nat>, n: nat, taken: bool)
    requires Canonical(e, lo) && Before(base, lo) && Countable(e, n) && e.node.Branch? && Countable(child, n)
    requires child == (if taken then ThenOf(e) else ElseOf(e)) && next == (if taken then base + {e.node.index} else base)
    requires (if taken then ElseOf(e) else ThenOf(e)) == FALSE && child != FALSE
    requires forall s: Assignment | Solves(e, base, lo, s) :: GoChance(e, r, shares, s) == WalkChance(e, s, n)
    ensures forall s: Assignment | Solves(child, next, e.node.index + 1, s) :: GoChance(child, r, shares, s) == WalkChance(child, s, n)
  {
    forall s: Assignment | Solves(child, next, e.node.index + 1, s) ensures GoChance(child, r, shares, s) == WalkChance(child, s, n) {
      BranchSolves(e, base, lo, s);
      hide Solves, Canonical;
      assert GoChance(e, r, shares, s) == WalkChance(e, s, n);
      ForcedStep(e, child, r, shares, s, n, taken);
    }
  }

  lemma ForcedStep(e: Edge, child: Edge, r: nat, shares: map<Edge, nat>, s: Assignment, n: nat, taken: bool)
    requires Countable(e, n) && e.node.Branch? && Countable(child, n) && (taken <==> e.node.index in s)
    requires child == (if taken then ThenOf(e) else ElseOf(e)) && (if taken then ElseOf(e) else ThenOf(e)) == FALSE && child != FALSE
    ensures GoChance(e, r, shares, s) == GoChance(child, r, shares, s)
    ensures WalkChance(e, s, n) == WalkChance(child, s, n)
  {
    hide ExactElseShare, GoSum, Canonical, Below;
  }

  lemma ChoiceShare(e: Edge, base: Assignment, lo: nat, r: nat, shares: map<Edge, nat>, n: nat)
    requires Canonical(e, lo) && Before(base, lo) && Countable(e, n) && r < WORD
    requires e.node.Branch? && ElseOf(e) != FALSE && ThenOf(e) != FALSE
    requires forall s: Assignment | Solves(e, base, lo, s) :: GoChance(e, r, shares, s) == WalkChance(e, s, n)
    ensures e.node.index < n && r <= ROUNDTO
    ensures LowerElse(Threshold(e, shares), WORD) as real / WORD as real == ExactElseShare(e, n)
  {
    BranchSolves(e, base, lo, base);
    ShareInside(e, n);
    TotalChoice(e, base, lo, r, shares);
    WalkParts(e, base, lo, n);
    ElseCounts(Threshold(e, shares), r, WORD);
    ChoiceStep(e, n);
    forall s: Assignment | Solves(ElseOf(e), base, e.node.index + 1, s) ensures Going(e, r, shares)(s) == Walking(e, n)(s) { BranchSolves(e, base, lo, s); }
    hide Canonical, Solves, Before, GoChance, WalkChance, PathSum, ElseCount, LowerElse, ExactSide, ExactElseShare, Countable;
    PathSumSame(ElseOf(e), base, e.node.index + 1, Going(e, r, shares), Walking(e, n));
    if r > ROUNDTO { AllOrNone(ElseCount(Threshold(e, shares), r, WORD)); }
  }

  lemma ChoiceStep(e: Edge, n: nat)
    requires Countable(e, n) && e.node.Branch? && ElseOf(e) != FALSE && ThenOf(e) != FALSE
    ensures e.node.index < n && ExactSide(e, false, n) == ExactElseShare(e, n)
  {
    ChildrenCountable(e, n);
    hide ExactElseShare;
  }

  lemma AllOrNone(c: nat)
    requires c == 0 || c == WORD
    ensures c as real / WORD as real == 0.0 || c as real / WORD as real == 1.0
  {
  }

  /** With an upper half left the word to come does not matter; else its lower half decides. */
  lemma {:induction false} ElseCounts(threshold: nat, r: nat, k: nat)
    requires r < WORD && k <= WORD
    ensures r > ROUNDTO ==> ElseCount(threshold, r, k) == 0 || ElseCount(threshold, r, k) == k
    ensures r <= ROUNDTO ==> ElseCount(threshold, r, k) == LowerElse(threshold, k)
    ensures r > ROUNDTO ==> ElseCount(threshold, r, k) == if TakesElse(threshold, r / ROUNDTO) then k else 0
  {
    if k > 0 {
      NextHalfIs(r, k - 1);
      hide NextHalf, TakesElse;
      ElseCounts(threshold, r, k - 1);
    }
  }

  lemma NextHalfIs(r: nat, w: nat)
    requires w < WORD
    ensures NextHalf(r, w) == if r > ROUNDTO then r / ROUNDTO else w
  {
    DivModUnique(w, WORD, 0, w);
  }

  // ---------------------------------------------------------------- when a draw is uniform

  /** Every node the walk can meet has the share the count gives it. */
  ghost predicate TrueShares(b: Edge, n: nat, shares: map<Edge, nat>) {
    forall k | k in Reachable(b) && k.node.Branch? ::
      Countable(k, n) && k.node.index < n && Weight(k, n) > 0 && k in shares && shares[k] == ElseShare(k, n)
  }

  lemma {:induction false} FirstChoiceReachable(e: Edge)
    ensures FirstChoice(e) in Reachable(e)
    ensures FirstChoice(e).node.Branch? ==> ThenOf(FirstChoice(e)) != FALSE && ElseOf(FirstChoice(e)) != FALSE
    decreases e.node
  {
    if e.node.Branch? {
      ReachableUnfolds(e);
      FirstChoiceReachable(ThenOf(e));
      FirstChoiceReachable(ElseOf(e));
    } else {
      assert e in Reachable(e);
    }
  }

  /** Equal chances leave no field bit undecided. */
  lemma UniformDecides(b: Bdd, r: nat, shares: map<Edge, nat>, layout: Layout, members: seq<Ext>, xs: set<Ext>, columns: nat, n: nat)
    requires Complete(b, layout, members, xs, columns, n) && Uniform(b, r, shares, layout, members, xs)
    ensures AllDecided(b, layout, xs)
  {
    CompleteFacts(b, layout, members, xs, columns, n);
    hide Uniform, Complete, Solutions, Undecided, Countable;
    forall s: Assignment | s in Solutions(b, layout, xs) ensures Undecided(b, layout, xs, s) == {} {
      if Undecided(b, layout, xs, s) != {} {
        var i :| i in Undecided(b, layout, xs, s);
        UndecidedNotUniform(b, r, shares, layout, members, xs, columns, n, s, i);
      }
    }
  }

  lemma UndecidedNotUniform(b: Bdd, r: nat, shares: map<Edge, nat>, layout: Layout, members: seq<Ext>, xs: set<Ext>, columns: nat, n: nat,
                            s: Assignment, i: nat)
    requires Complete(b, layout, members, xs, columns, n) && Countable(b, n)
    requires s in Solutions(b, layout, xs) && i in Undecided(b, layout, xs, s)
    ensures !Uniform(b, r, shares, layout, members, xs)
  {
    hide *;
    var s1, s2 := UndecidedPair(b, layout, members, xs, columns, n, s, i);
    SameGo(b, r, shares, s1, s2);
    var w, c, d, o := GoChance(b, r, shares, s1), FillChance(layout, members, s1, Tested(b, s1)), FillChance(layout, members, s2, Tested(b, s2)),
                      OneIn(|Solutions(b, layout, xs)|);
    if Uniform(b, r, shares, layout, members, xs) {
      UniformAt(b, r, shares, layout, members, xs, s1);
      UniformAt(b, r, shares, layout, members, xs, s2);
      EqualChances(w, c, d, o);
      assert false;
    }
  }

  lemma UniformAt(b: Bdd, r: nat, shares: map<Edge, nat>, layout: Layout, members: seq<Ext>, xs: set<Ext>, s: Assignment)
    requires Uniform(b, r, shares, layout, members, xs) && s in Solutions(b, layout, xs)
    ensures GoChance(b, r, shares, s) * FillChance(layout, members, s, Tested(b, s)) == OneIn(|Solutions(b, layout, xs)|) > 0.0
  {
    hide Solutions, GoChance, FillChance, Tested;
    assert DrawChance(b, r, shares, layout, members, s) == OneIn(|Solutions(b, layout, xs)|);
  }

  /** Where all bits are decided nothing is left to fill in, and exact shares would give one over the number of
      solutions. */
  lemma DecidedChances(b: Bdd, layout: Layout, members: seq<Ext>, xs: set<Ext>, columns: nat, n: nat, s: Assignment)
    requires Complete(b, layout, members, xs, columns, n) && Countable(b, n)
    requires s in Solutions(b, layout, xs) && Undecided(b, layout, xs, s) == {}
    ensures FillChance(layout, members, s, Tested(b, s)) == 1.0
    ensures WalkChance(b, s, n) == OneIn(|Solutions(b, layout, xs)|)
  {
    FieldsDrawnUniformly(b, layout, members, xs, columns, n, s);
    CompleteFacts(b, layout, members, xs, columns, n);
    NothingToFill(layout, members, xs, s, Tested(b, s));
    hide WalkChance, Tested, FillChance, Solutions, Complete, Countable;
  }

  /** Cut to the field bits a solution is a solution with the same way to it. */
  lemma CutSolution(b: Bdd, layout: Layout, members: seq<Ext>, xs: set<Ext>, columns: nat, n: nat, s: Assignment)
    requires Complete(b, layout, members, xs, columns, n) && Eval(b, s)
    ensures Countable(b, n) && s * FieldBits(layout, xs) in Solutions(b, layout, xs)
    ensures forall i | i in Tested(b, s) :: i in s <==> i in s * FieldBits(layout, xs)
  {
    CompleteFacts(b, layout, members, xs, columns, n);
    TestedBelow(b, s, 0, n) by { CountableBelow(b, n); }
    var bits := FieldBits(layout, xs);
    forall i | i in Tested(b, s) ensures i in s <==> i in s * bits {
      if i in s && i !in bits {
        assert Ignores(b, i) || KeepsOff(b, i);
        if Ignores(b, i) { IgnoredUntested(b, i, s, 0); }
      }
    }
    SameWay(b, s, s * bits, n);
  }

  /** If a draw is uniform, the first choice of the walk is made by a new word, and exactly the right number of
      words go to the else branch; or there is no choice, and one solution. This is for any table of shares. */
  lemma UniformFirstChoice(b: Bdd, r: nat, shares: map<Edge, nat>, layout: Layout, members: seq<Ext>, xs: set<Ext>, columns: nat, n: nat)
    requires Complete(b, layout, members, xs, columns, n) && Uniform(b, r, shares, layout, members, xs) && r < WORD
    ensures AllDecided(b, layout, xs)
    ensures var f := FirstChoice(b);
            if f.node.Branch? then
              && Countable(f, n) && f.node.index < n && r <= ROUNDTO
              && LowerElse(Threshold(f, shares), WORD) as real / WORD as real == ExactElseShare(f, n)
            else |Solutions(b, layout, xs)| == 1
  {
    hide *;
    UniformDecides(b, r, shares, layout, members, xs, columns, n);
    CompleteFacts(b, layout, members, xs, columns, n);
    forall s: Assignment | Solves(b, {}, 0, s) ensures GoChance(b, r, shares, s) == WalkChance(b, s, n) {
      AgreeEverywhere(b, r, shares, layout, members, xs, columns, n, s);
    }
    EmptyBefore();
    FirstChoiceShare(b, {}, 0, r, shares, n);
    if !FirstChoice(b).node.Branch? {
      var s := SomeSolution(b, layout, members, xs, columns, n);
      AgreeAt(b, r, shares, layout, members, xs, columns, n, s);
      NoChoice(b, r, shares, s, n);
      OneInOne(|Solutions(b, layout, xs)|);
    }
  }

  lemma EmptyBefore()
    ensures Before({}, 0)
  {
  }

  lemma AgreeAt(b: Bdd, r: nat, shares: map<Edge, nat>, layout: Layout, members: seq<Ext>, xs: set<Ext>, columns: nat, n: nat, s: Assignment)
    requires Complete(b, layout, members, xs, columns, n) && Uniform(b, r, shares, layout, members, xs) && Countable(b, n)
    requires AllDecided(b, layout, xs) && s in Solutions(b, layout, xs)
    ensures GoChance(b, r, shares, s) == WalkChance(b, s, n) == OneIn(|Solutions(b, layout, xs)|)
    ensures Eval(b, s)
  {
    SolutionHolds(b, layout, xs, s);
    assert Undecided(b, layout, xs, s) == {};
    hide *;
    DecidedChances(b, layout, members, xs, columns, n, s);
    UniformAt(b, r, shares, layout, members, xs, s);
  }

  lemma AgreeEverywhere(b: Bdd, r: nat, shares: map<Edge, nat>, layout: Layout, members: seq<Ext>, xs: set<Ext>, columns: nat, n: nat, s: Assignment)
    requires Complete(b, layout, members, xs, columns, n) && Uniform(b, r, shares, layout, members, xs) && Countable(b, n)
    requires AllDecided(b, layout, xs) && Solves(b, {}, 0, s)
    ensures GoChance(b, r, shares, s) == WalkChance(b, s, n)
  {
    assert Eval(b, s);
    hide *;
    CutSolution(b, layout, members, xs, columns, n, s);
    SameGo(b, r, shares, s, s * FieldBits(layout, xs));
    SameWay(b, s, s * FieldBits(layout, xs), n);
    AgreeAt(b, r, shares, layout, members, xs, columns, n, s * FieldBits(layout, xs));
  }

  lemma SomeSolution(b: Bdd, layout: Layout, members: seq<Ext>, xs: set<Ext>, columns: nat, n: nat) returns (s: Assignment)
    requires Complete(b, layout, members, xs, columns, n)
    ensures s in Solutions(b, layout, xs)
  {
    CompleteFacts(b, layout, members, xs, columns, n);
    ZeroIffUnsatisfiable(b);
    hide Complete, Canonical;
    var s': Assignment :| Eval(b, s');
    CutSolution(b, layout, members, xs, columns, n, s');
    s := s' * FieldBits(layout, xs);
  }

  /** Without a choice every way is certain. */
  lemma {:induction false} NoChoice(e: Edge, r: nat, shares: map<Edge, nat>, s: Assignment, n: nat)
    requires Countable(e, n) && Eval(e, s) && !FirstChoice(e).node.Branch?
    ensures GoChance(e, r, shares, s) == 1.0 && WalkChance(e, s, n) == 1.0
    decreases e.node
  {
    if e.node.Branch? {
      ChildrenCountable(e, n);
      Branches(e, 0, n);
      var taken := e.node.index in s;
      var child := if taken then ThenOf(e) else ElseOf(e);
      ZeroNeverHolds(s);
      hide Eval, Canonical, Below, GoChance, WalkChance;
      NoChoice(child, r, shares, s, n);
      ForcedStep(e, child, r, shares, s, n, taken);
    }
  }

  lemma OneInOne(c: nat)
    requires OneIn(c) == 1.0
    ensures c == 1
  {
    if c > 1 { OneInMore(c); }
  }

  lemma OneInMore(c: nat)
    requires c > 1
    ensures OneIn(c) < 1.0
  {
  }

  /** With a choice no way is certain. */
  lemma {:induction false} ChoiceUncertain(e: Edge, s: Assignment, n: nat)
    requires Countable(e, n) && Eval(e, s)
    ensures 0.0 <= WalkChance(e, s, n) <= 1.0
    ensures FirstChoice(e).node.Branch? ==> WalkChance(e, s, n) < 1.0
    decreases e.node
  {
    if e.node.Branch? {
      hide *;
      var taken := e.node.index in s;
      var child := if taken then ThenOf(e) else ElseOf(e);
      StepTaken(e, child, s, n);
      SideBounds(e, s, n, taken);
      ChoiceUncertain(child, s, n);
      SmallerWalk(e, child, s, n, taken);
    } else {
      assert e == TRUE;
    }
  }

  /** The chance of the side a solution takes. */
  lemma SideBounds(e: Edge, s: Assignment, n: nat, taken: bool)
    requires Countable(e, n) && Eval(e, s) && e.node.Branch? && (taken <==> e.node.index in s)
    ensures 0.0 <= ExactSide(e, taken, n) <= 1.0
    ensures if ThenOf(e) != FALSE && ElseOf(e) != FALSE then ExactSide(e, taken, n) < 1.0
            else ExactSide(e, taken, n) == 1.0 && FirstChoice(e) == FirstChoice(if taken then ThenOf(e) else ElseOf(e))
  {
    ChildrenCountable(e, n);
    Branches(e, 0, n);
    ZeroNeverHolds(s);
    if ThenOf(e) != FALSE && ElseOf(e) != FALSE { ShareInside(e, n); }
    hide Eval, Canonical, Below, ExactElseShare;
  }

  lemma SmallerWalk(e: Edge, child: Edge, s: Assignment, n: nat, taken: bool)
    requires Countable(e, n) && e.node.Branch? && Countable(child, n) && (taken <==> e.node.index in s)
    requires child == (if taken then ThenOf(e) else ElseOf(e))
    requires 0.0 <= ExactSide(e, taken, n) <= 1.0 && 0.0 <= WalkChance(child, s, n) <= 1.0
    ensures 0.0 <= WalkChance(e, s, n) <= 1.0 && (ExactSide(e, taken, n) < 1.0 ==> WalkChance(e, s, n) < 1.0)
    ensures ExactSide(e, taken, n) == 1.0 ==> WalkChance(e, s, n) == WalkChance(child, s, n)
  {
    hide *;
    var x, y := ExactSide(e, taken, n), WalkChance(child, s, n);
    WalkStep(e, child, s, n);
    if taken { assert WalkChance(e, s, n) == x * y; } else { assert WalkChance(e, s, n) == x * y; }
    SmallerProduct(x, y);
  }

  lemma SmallerProduct(x: real, y: real)
    requires 0.0 <= x <= 1.0 && 0.0 <= y <= 1.0
    ensures 0.0 <= x * y <= 1.0
    ensures x < 1.0 ==> x * y < 1.0
    ensures x == 1.0 ==> x * y == y
  {
    NonNegative(1.0 - y, x);
    assert x * y == x - (1.0 - y) * x;
  }

  /** The stored share of a node that was counted is never the exact one. */
  lemma CountedShareWrong(f: Edge, n: nat, shares: map<Edge, nat>)
    requires Countable(f, n) && f.node.Branch? && f.node.index < n && ThenOf(f) != FALSE && ElseOf(f) != FALSE
    requires Weight(f, n) > 0 && f in shares && shares[f] == ElseShare(f, n)
    ensures LowerElse(Threshold(f, shares), WORD) as real / WORD as real == StoredElse(f, n) > ExactElseShare(f, n)
  {
    ShareBelowRound(f, n);
    StoredElseError(f, n);
    HalvesElse(ElseShare(f, n));
    hide LowerElse, ExactElseShare, Countable, ElseShare;
    WordsToParts(ElseShare(f, n) + 1);
  }

  lemma WordsToParts(c: nat)
    ensures (c * ROUNDTO) as real / WORD as real == c as real / ROUNDTO as real
  {
  }

  /** When a draw is uniform over the combinations of field values that satisfy the constraint, the shares being
      those the count gives: exactly when there is only one. */
  lemma DrawUniformIff(b: Bdd, r: nat, shares: map<Edge, nat>, layout: Layout, members: seq<Ext>, xs: set<Ext>, columns: nat, n: nat)
    requires Complete(b, layout, members, xs, columns, n) && TrueShares(b, n, shares) && r < WORD
    ensures Uniform(b, r, shares, layout, members, xs) <==> |Solutions(b, layout, xs)| == 1
  {
    hide *;
    if Uniform(b, r, shares, layout, members, xs) {
      UniformFirstChoice(b, r, shares, layout, members, xs, columns, n);
      if FirstChoice(b).node.Branch? {
        CountedFirst(b, n, shares);
        CountedShareWrong(FirstChoice(b), n, shares);
        assert false;
      }
    } else if |Solutions(b, layout, xs)| == 1 {
      OnlySolution(b, r, shares, layout, members, xs, columns, n);
      assert false;
    }
  }

  lemma CountedFirst(b: Edge, n: nat, shares: map<Edge, nat>)
    requires TrueShares(b, n, shares) && FirstChoice(b).node.Branch?
    ensures var f := FirstChoice(b);
            && ThenOf(f) != FALSE && ElseOf(f) != FALSE
            && Countable(f, n) && f.node.index < n && Weight(f, n) > 0 && f in shares && shares[f] == ElseShare(f, n)
  {
    FirstChoiceReachable(b);
    hide Reachable, FirstChoice, Countable, ElseShare;
  }

  /** A single solution is certain. */
  lemma OnlySolution(b: Bdd, r: nat, shares: map<Edge, nat>, layout: Layout, members: seq<Ext>, xs: set<Ext>, columns: nat, n: nat)
    requires Complete(b, layout, members, xs, columns, n) && |Solutions(b, layout, xs)| == 1
    ensures Uniform(b, r, shares, layout, members, xs)
  {
    CompleteFacts(b, layout, members, xs, columns, n);
    hide Complete, Solutions, Undecided, Countable, FieldBits, Tested, FillChance, GoChance, Eval, Canonical, FirstChoice;
    forall s: Assignment | s in Solutions(b, layout, xs)
      ensures DrawChance(b, r, shares, layout, members, s) == OneIn(|Solutions(b, layout, xs)|)
    {
      if Undecided(b, layout, xs, s) != {} {
        var i :| i in Undecided(b, layout, xs, s);
        var s1, s2 := UndecidedPair(b, layout, members, xs, columns, n, s, i);
        OneElement(Solutions(b, layout, xs), s1, s2);
      }
      DecidedChances(b, layout, members, xs, columns, n, s);
      SolutionHolds(b, layout, xs, s);
      ChoiceUncertain(b, s, n);
      NoChoice(b, r, shares, s, n);
    }
  }

  lemma OneElement(ss: set<Assignment>, s1: Assignment, s2: Assignment)
    requires |ss| == 1 && s1 in ss && s2 in ss
    ensures s1 == s2
  {
    assert |ss - {s1}| == 0;
    assert s2 in ss ==> s2 == s1 || s2 in ss - {s1};
  }

  /** A diagram whose first choice was never counted, as after pinning a field or taking a solution out of the
      record, uses the threshold one half: its draws are uniform only if 32769 parts in 65536 of the models
      are in the else branch. */
  lemma UncountedUniform(b: Bdd, r: nat, shares: map<Edge, nat>, layout: Layout, members: seq<Ext>, xs: set<Ext>, columns: nat, n: nat)
    requires Complete(b, layout, members, xs, columns, n) && Uniform(b, r, shares, layout, members, xs) && r < WORD
    requires FirstChoice(b).node.Branch? && FirstChoice(b) !in shares
    ensures var f := FirstChoice(b);
            && Countable(f, n) && f.node.index < n
            && ROUNDTO * BranchWeight(ElseOf(f), f.node.index, n) == (ROUNDTO_BASE + 1) * Weight(f, n)
            && Weight(f, n) % ROUNDTO == 0
  {
    var f := FirstChoice(b);
    UniformFirstChoice(b, r, shares, layout, members, xs, columns, n);
    FirstChoiceReachable(b);
    ShareInside(f, n);
    HalvesElse(ROUNDTO_BASE);
    assert Threshold(f, shares) == ROUNDTO_BASE;
    var part, whole := BranchWeight(ElseOf(f), f.node.index, n), Weight(f, n);
    assert ExactElseShare(f, n) == part as real / whole as real;
    hide *;
    HalfParts(part, whole);
  }

  lemma HalfParts(part: nat, whole: nat)
    requires whole > 0 && ((32768 + 1) * 0x1_0000) as real / WORD as real == part as real / whole as real
    ensures 0x1_0000 * part == (32768 + 1) * whole && whole % 0x1_0000 == 0
  {
    var p, w := part as real, whole as real;
    assert 32769.0 / 65536.0 == p / w;
    assert (p / w) * w == p;
    assert 32769.0 * w == 65536.0 * p;
    assert 32769 * whole == 65536 * part;
    assert whole == 65536 * (32769 * part - 16385 * whole);
  }

  /** A constraint that says nothing leaves every field to the random words: its draws are not uniform. */
  lemma UnconstrainedUnfair(r: nat, shares: map<Edge, nat>, layout: Layout, members: seq<Ext>, xs: set<Ext>, columns: nat, n: nat)
    requires Complete(TRUE, layout, members, xs, columns, n) && xs != {}
    ensures !Uniform(TRUE, r, shares, layout, members, xs)
  {
    CompleteFacts(TRUE, layout, members, xs, columns, n);
    var x :| x in xs;
    var none: Assignment := {};
    assert BitIndex(layout[x], 0) in FieldBits(layout, xs);
    assert none in Solutions(TRUE, layout, xs);
    assert BitIndex(layout[x], 0) in Undecided(TRUE, layout, xs, none);
    hide Uniform, FieldBits, Solutions, Complete, Undecided;
    UndecidedNotUniform(TRUE, r, shares, layout, members, xs, columns, n, none, BitIndex(layout[x], 0));
  }

  // ---------------------------------------------------------------- two solutions

  const SECOND: Bdd := Edge(false, Branch(1, TRUE, FALSE))

  /** `x == 0 || x == 3` over two bits. */
  const ENDS: Bdd := Edge(false, Branch(0, SECOND, Complement(SECOND)))

  lemma EndsSolutions(s: Assignment)
    ensures Eval(ENDS, s) <==> (0 in s <==> 1 in s)
  {
    assert Eval(SECOND, s) <==> 1 in s;
  }

  lemma EndsWeight()
    ensures Countable(ENDS, 2) && Weight(ENDS, 2) == 2 && ElseShare(ENDS, 2) == 32768
    ensures ThenOf(ENDS) == SECOND && ElseOf(ENDS) == Complement(SECOND) && FirstChoice(ENDS) == ENDS
  {
    var none: Assignment := {};
    forall s: Assignment ensures Eval(ENDS, s) <==> (0 in s <==> 1 in s) { EndsSolutions(s); }
    assert CountFrom(ENDS, {}, 1, 2) == CountFrom(ENDS, {}, 2, 2) + CountFrom(ENDS, {1}, 2, 2);
    assert CountFrom(ENDS, {0}, 1, 2) == CountFrom(ENDS, {0}, 2, 2) + CountFrom(ENDS, {0} + {1}, 2, 2);
    assert CountFrom(ENDS, {}, 0, 2) == CountFrom(ENDS, {}, 1, 2) + CountFrom(ENDS, {} + {0}, 1, 2);
    assert CountFrom(Complement(SECOND), {}, 1, 2) == 1;
  }

  /** All its bits are decided, yet 0 is drawn for 32769 and 3 for 32767 of 65536 words. */
  lemma EndsUnfair(r: nat, shares: map<Edge, nat>)
    requires r <= ROUNDTO && ENDS in shares && shares[ENDS] == ElseShare(ENDS, 2)
    ensures GoChance(ENDS, r, shares, {}) == 32769.0 / 65536.0
    ensures GoChance(ENDS, r, shares, {0, 1}) == 32767.0 / 65536.0
    ensures Tested(ENDS, {}) == {0, 1} == Tested(ENDS, {0, 1})
  {
    EndsWeight();
    var none: Assignment := {};
    EmptyBefore();
    TotalChoice(ENDS, none, 0, r, shares);
    ElseCounts(32768, r, WORD);
    HalvesElse(32768);
    EndsPaths(Going(ENDS, r, shares));
    assert none + {0} + {1} == {0, 1};
    TestedEnds();
  }

  lemma TestedEnds()
    ensures Tested(ENDS, {}) == {0, 1} == Tested(ENDS, {0, 1})
  {
    assert Tested(SECOND, {0, 1}) == {1};
    assert Tested(Complement(SECOND), {}) == {1};
  }

  lemma EndsPaths(g: Assignment -> real)
    ensures PathSum(ElseOf(ENDS), {}, g) == g({})
    ensures PathSum(ENDS, {}, g) == g({} + {0} + {1}) + g({})
  {
    assert PathSum(SECOND, {} + {0}, g) == g({} + {0} + {1});
    assert PathSum(Complement(SECOND), {}, g) == g({});
  }
}

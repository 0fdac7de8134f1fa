/** The chance of each solution when the walk has exact branch shares and the undecided bits are taken from
    the random words as `_setValue` takes them. */
module Chances {
  import opened Bdds
  import opened Words
  import opened Counting
  import opened Weights
  import opened Circuits
  import opened Expressions
  import opened Compiler
  import opened Fields
  import opened Construction
  import opened Solver
  import opened Uniformity
  import opened Extraction
  import opened Runs
  import opened FieldCounts

  /** The variables a walk decides on its way to the solution `s`. */
  function Tested(e: Edge, s: Assignment): set<nat>
    decreases e.node
  {
    if e.node.One? then {}
    else {e.node.index} + Tested(if e.node.index in s then ThenOf(e) else ElseOf(e), s)
  }

  /** The chance that a walk with exact shares goes the way of `s`. */
  ghost function WalkChance(e: Edge, s: Assignment, n: nat): real
    requires Countable(e, n)
    decreases e.node
  {
    if e.node.One? then 1.0
    else
      ChildrenCountable(e, n);
      var taken := e.node.index in s;
      ExactSide(e, taken, n) * WalkChance(if taken then ThenOf(e) else ElseOf(e), s, n)
  }

  /** The bits of a field the walk leaves undecided, among its first `k`, with their values in `s`. */
  function Pattern(r: Record, s: Assignment, tested: set<nat>, k: nat): seq<bool> {
    if k == 0 then []
    else Pattern(r, s, tested, k - 1) + if BitIndex(r, k - 1) in tested then [] else [BitIndex(r, k - 1) in s]
  }

  /** The chance that a field, if the solver knows it, gets the values of `s` at its undecided bits. */
  ghost function FieldChance(layout: Layout, x: Ext, s: Assignment, tested: set<nat>): real {
    if x in layout then Fresh(Pattern(layout[x], s, tested, VecSize(x))) else 1.0
  }

  /** The same for the fields of an object, filled one after another. */
  ghost function FillChance(layout: Layout, members: seq<Ext>, s: Assignment, tested: set<nat>): real {
    if members == [] then 1.0
    else FillChance(layout, members[..|members| - 1], s, tested) * FieldChance(layout, members[|members| - 1], s, tested)
  }

  /** The chance of the solution `s` if the branch shares were exact. */
  ghost function ExactDrawChance(b: Edge, layout: Layout, members: seq<Ext>, s: Assignment, n: nat): real
    requires Countable(b, n)
  {
    WalkChance(b, s, n) * FillChance(layout, members, s, Tested(b, s))
  }

  // ---------------------------------------------------------------- the walk

  lemma {:induction false} TestedBelow(e: Edge, s: Assignment, lo: nat, n: nat)
    requires Canonical(e, lo) && Below(e, n)
    ensures forall i | i in Tested(e, s) :: lo <= i < n
    decreases e.node
  {
    if e.node.Branch? {
      Branches(e, lo, n);
      TestedBelow(ThenOf(e), s, e.node.index + 1, n);
      TestedBelow(ElseOf(e), s, e.node.index + 1, n);
    }
  }

  lemma TestedStep(e: Edge, child: Edge, s: Assignment)
    requires e.node.Branch? && child == if e.node.index in s then ThenOf(e) else ElseOf(e)
    ensures Tested(e, s) == {e.node.index} + Tested(child, s)
  {
  }

  lemma WalkStep(e: Edge, child: Edge, s: Assignment, n: nat)
    requires Countable(e, n) && e.node.Branch? && Countable(child, n)
    requires child == if e.node.index in s then ThenOf(e) else ElseOf(e)
    ensures WalkChance(e, s, n) == ExactSide(e, e.node.index in s, n) * WalkChance(child, s, n)
  {
    hide ExactSide, Canonical, Below, Countable;
  }

  /** One step of the way to `s`. */
  lemma StepTaken(e: Edge, child: Edge, s: Assignment, n: nat)
    requires Countable(e, n) && e.node.Branch? && child == if e.node.index in s then ThenOf(e) else ElseOf(e)
    ensures Countable(child, n) && child.node < e.node
    ensures Eval(e, s) == Eval(child, s) && Tested(e, s) == {e.node.index} + Tested(child, s)
  {
    ChildrenCountable(e, n);
    TestedStep(e, child, s);
    hide Tested, Canonical, Below;
    Branches(e, 0, n);
  }

  /** Only the tested variables matter to a solution and to the way to it. */
  lemma {:induction false} SameWay(e: Edge, s: Assignment, s': Assignment, n: nat)
    requires Countable(e, n) && forall i | i in Tested(e, s) :: i in s <==> i in s'
    ensures Eval(e, s) == Eval(e, s') && Tested(e, s) == Tested(e, s') && WalkChance(e, s, n) == WalkChance(e, s', n)
    decreases e.node
  {
    if e.node.Branch? {
      hide *;
      var taken := e.node.index in s;
      var child := if taken then ThenOf(e) else ElseOf(e);
      StepTaken(e, child, s, n);
      assert taken == (e.node.index in s') by { assert e.node.index in Tested(e, s); }
      StepTaken(e, child, s', n);
      SameWay(child, s, s', n);
      SameStep(e, child, s, s', n);
    }
  }

  lemma SameStep(e: Edge, child: Edge, s: Assignment, s': Assignment, n: nat)
    requires Countable(e, n) && e.node.Branch? && Countable(child, n) && child == if e.node.index in s then ThenOf(e) else ElseOf(e)
    requires (e.node.index in s <==> e.node.index in s') && WalkChance(child, s, n) == WalkChance(child, s', n)
    ensures WalkChance(e, s, n) == WalkChance(e, s', n)
  {
    hide ExactSide, Canonical, Below;
  }

  ghost function Half(k: nat): real {
    if k == 0 then 1.0 else 0.5 * Half(k - 1)
  }

  lemma {:induction false} HalfPositive(k: nat)
    ensures Half(k) > 0.0
  {
    if k > 0 { HalfPositive(k - 1); }
  }

  /** The variables from `lo` up to `n` the walk skips. */
  ghost function Skipped(e: Edge, s: Assignment, lo: nat, n: nat): set<nat> {
    set i: nat | lo <= i < n && i !in Tested(e, s)
  }

  /** With a fair coin for each skipped variable the chance would be the walk's times a half for each. */
  lemma {:induction false} ChanceIsWalk(e: Edge, s: Assignment, lo: nat, n: nat)
    requires lo <= n && Canonical(e, lo) && Countable(e, n)
    ensures Chance(e, s, lo, n) == WalkChance(e, s, n) * Half(|Skipped(e, s, lo, n)|)
    decreases n - lo
  {
    hide *;
    if lo == n {
      ConstantWalk(e, s, n);
    } else if e.node.Branch? && e.node.index == lo {
      var child := if lo in s then ThenOf(e) else ElseOf(e);
      ChildrenCountable(e, n);
      ChanceIsWalk(child, s, lo + 1, n);
      BranchChance(e, child, s, lo, n);
    } else {
      CanonicalFrom(e, lo);
      ChanceIsWalk(e, s, lo + 1, n);
      SkipChance(e, s, lo, n);
    }
  }

  lemma ConstantWalk(e: Edge, s: Assignment, n: nat)
    requires Canonical(e, n) && Countable(e, n)
    ensures Chance(e, s, n, n) == WalkChance(e, s, n) * Half(|Skipped(e, s, n, n)|)
  {
    assert Skipped(e, s, n, n) == {};
  }

  lemma SkippedNext(e: Edge, s: Assignment, lo: nat, n: nat)
    requires lo < n && Canonical(e, lo + 1) && Countable(e, n)
    ensures |Skipped(e, s, lo, n)| == |Skipped(e, s, lo + 1, n)| + 1
  {
    TestedBelow(e, s, lo + 1, n);
    hide Tested;
    assert Skipped(e, s, lo, n) == {lo} + Skipped(e, s, lo + 1, n);
  }

  lemma SkipChance(e: Edge, s: Assignment, lo: nat, n: nat)
    requires lo < n && Canonical(e, lo + 1) && Countable(e, n) && (e.node.Branch? ==> e.node.index != lo)
    requires Chance(e, s, lo + 1, n) == WalkChance(e, s, n) * Half(|Skipped(e, s, lo + 1, n)|)
    ensures Chance(e, s, lo, n) == WalkChance(e, s, n) * Half(|Skipped(e, s, lo, n)|)
  {
    hide *;
    SkippedNext(e, s, lo, n);
    HalfNext(|Skipped(e, s, lo + 1, n)|);
    ChanceSkip(e, s, lo, n);
    HalfStep(Chance(e, s, lo, n), Chance(e, s, lo + 1, n), WalkChance(e, s, n), Half(|Skipped(e, s, lo, n)|), Half(|Skipped(e, s, lo + 1, n)|));
  }

  lemma ChanceSkip(e: Edge, s: Assignment, lo: nat, n: nat)
    requires lo < n && (e.node.Branch? ==> e.node.index != lo)
    ensures Chance(e, s, lo, n) == 0.5 * Chance(e, s, lo + 1, n)
  {
  }

  lemma HalfNext(k: nat)
    ensures Half(k + 1) == 0.5 * Half(k)
  {
  }

  lemma HalfStep(c: real, c': real, w: real, h: real, h': real)
    requires c == 0.5 * c' && c' == w * h' && h == 0.5 * h'
    ensures c == w * h
  {
  }

  lemma BranchChance(e: Edge, child: Edge, s: Assignment, lo: nat, n: nat)
    requires lo < n && Countable(e, n) && Countable(child, n) && e.node.Branch? && e.node.index == lo
    requires child == if lo in s then ThenOf(e) else ElseOf(e)
    requires Chance(child, s, lo + 1, n) == WalkChance(child, s, n) * Half(|Skipped(child, s, lo + 1, n)|)
    ensures Chance(e, s, lo, n) == WalkChance(e, s, n) * Half(|Skipped(e, s, lo, n)|)
  {
    hide *;
    SkippedHere(e, child, s, lo, n);
    WalkStep(e, child, s, n);
    ChanceStep(e, child, s, lo, n);
    Associate(ExactSide(e, lo in s, n), WalkChance(child, s, n), Half(|Skipped(e, s, lo, n)|));
  }

  lemma SkippedHere(e: Edge, child: Edge, s: Assignment, lo: nat, n: nat)
    requires lo < n && e.node.Branch? && e.node.index == lo && child == if lo in s then ThenOf(e) else ElseOf(e)
    ensures Skipped(e, s, lo, n) == Skipped(child, s, lo + 1, n)
  {
    TestedStep(e, child, s);
    hide Tested;
  }

  lemma ChanceStep(e: Edge, child: Edge, s: Assignment, lo: nat, n: nat)
    requires lo < n && Countable(e, n) && e.node.Branch? && e.node.index == lo
    requires child == if lo in s then ThenOf(e) else ElseOf(e)
    ensures Chance(e, s, lo, n) == ExactSide(e, lo in s, n) * Chance(child, s, lo + 1, n)
  {
    hide ExactElseShare, Canonical, Below;
  }

  lemma Associate(a: real, b: real, c: real)
    ensures a * (b * c) == (a * b) * c
  {
  }

  // ---------------------------------------------------------------- the fields

  predicate NoRepeats(members: seq<Ext>) {
    forall i, j | 0 <= i < j < |members| :: members[i] != members[j]
  }

  /** The bit is one of the field's. */
  ghost predicate Owns(r: Record, k: nat, i: nat) {
    exists j: nat :: j < k && BitIndex(r, j) == i
  }

  lemma {:induction false} SamePattern(r: Record, s: Assignment, s': Assignment, tested: set<nat>, k: nat)
    requires forall j: nat | j < k && BitIndex(r, j) !in tested :: BitIndex(r, j) in s <==> BitIndex(r, j) in s'
    ensures Pattern(r, s, tested, k) == Pattern(r, s', tested, k)
  {
    if k > 0 { SamePattern(r, s, s', tested, k - 1); }
  }

  lemma {:induction false} PatternLength(r: Record, s: Assignment, s': Assignment, tested: set<nat>, k: nat)
    ensures |Pattern(r, s, tested, k)| == |Pattern(r, s', tested, k)|
    ensures |Pattern(r, s, tested, k)| == 0 <==> forall j: nat | j < k :: BitIndex(r, j) in tested
  {
    if k > 0 { PatternLength(r, s, s', tested, k - 1); }
  }

  /** `s` with the pattern `p` at the undecided bits of the field. */
  function WithPattern(r: Record, s: Assignment, tested: set<nat>, k: nat, p: seq<bool>): Assignment
    requires |p| == |Pattern(r, s, tested, k)|
  {
    if k == 0 then s
    else if BitIndex(r, k - 1) in tested then WithPattern(r, s, tested, k - 1, p)
    else
      var s' := WithPattern(r, s, tested, k - 1, p[..|p| - 1]);
      if p[|p| - 1] then s' + {BitIndex(r, k - 1)} else s' - {BitIndex(r, k - 1)}
  }

  lemma {:induction false} WithPatternElsewhere(r: Record, s: Assignment, tested: set<nat>, k: nat, p: seq<bool>, i: nat)
    requires |p| == |Pattern(r, s, tested, k)| && (i in tested || !Owns(r, k, i))
    ensures i in WithPattern(r, s, tested, k, p) <==> i in s
  {
    if k > 0 {
      assert BitIndex(r, k - 1) == i ==> Owns(r, k, i);
      if i !in tested { OwnsFewer(r, k, i); }
      if BitIndex(r, k - 1) in tested {
        WithPatternElsewhere(r, s, tested, k - 1, p, i);
      } else {
        WithPatternElsewhere(r, s, tested, k - 1, p[..|p| - 1], i);
      }
    }
  }

  lemma OwnsFewer(r: Record, k: nat, i: nat)
    requires k > 0 && !Owns(r, k, i)
    ensures !Owns(r, k - 1, i)
  {
  }

  lemma {:induction false} WithPatternHas(r: Record, s: Assignment, tested: set<nat>, k: nat, p: seq<bool>)
    requires |p| == |Pattern(r, s, tested, k)| && r.numvar > 0
    ensures Pattern(r, WithPattern(r, s, tested, k, p), tested, k) == p
  {
    if k > 0 {
      if BitIndex(r, k - 1) in tested {
        WithPatternHas(r, s, tested, k - 1, p);
      } else {
        var q, s', s'' := p[..|p| - 1], WithPattern(r, s, tested, k - 1, p[..|p| - 1]), WithPattern(r, s, tested, k, p);
        WithPatternHas(r, s, tested, k - 1, q);
        assert s'' == if p[|p| - 1] then s' + {BitIndex(r, k - 1)} else s' - {BitIndex(r, k - 1)};
        hide *;
        NextPattern(r, s', s'', tested, k, p[|p| - 1]);
        assert p == q + [p[|p| - 1]];
      }
    }
  }

  /** One more bit of the pattern. */
  lemma NextPattern(r: Record, s: Assignment, s': Assignment, tested: set<nat>, k: nat, bit: bool)
    requires k > 0 && r.numvar > 0 && BitIndex(r, k - 1) !in tested
    requires s' == if bit then s + {BitIndex(r, k - 1)} else s - {BitIndex(r, k - 1)}
    ensures Pattern(r, s', tested, k) == Pattern(r, s, tested, k - 1) + [bit]
  {
    forall j: nat | j < k - 1 ensures BitIndex(r, j) in s' <==> BitIndex(r, j) in s { OtherBit(r, j, k - 1); }
    hide BitIndex;
    SamePattern(r, s', s, tested, k - 1);
  }

  lemma OtherBit(r: Record, j: nat, k: nat)
    requires j < k && r.numvar > 0
    ensures BitIndex(r, j) != BitIndex(r, k)
  {
    Distribute(r.numvar, j, k - j);
    MulAtLeast(k - j, r.numvar);
  }

  /** Two assignments with the same chances at all fields but one. */
  ghost predicate SameBut(layout: Layout, members: seq<Ext>, s: Assignment, s': Assignment, tested: set<nat>, x: Ext) {
    forall y | y in members && y != x :: FieldChance(layout, y, s, tested) == FieldChance(layout, y, s', tested)
  }

  lemma {:induction false} FillChanceOfOthers(layout: Layout, members: seq<Ext>, s: Assignment, s': Assignment, tested: set<nat>, x: Ext)
    requires x !in members && SameBut(layout, members, s, s', tested, x)
    ensures FillChance(layout, members, s, tested) == FillChance(layout, members, s', tested)
  {
    hide FieldChance;
    if members != [] {
      FillChanceOfOthers(layout, members[..|members| - 1], s, s', tested, x);
    }
  }

  lemma FillLast(layout: Layout, init: seq<Ext>, last: Ext, s: Assignment, tested: set<nat>)
    ensures FillChance(layout, init + [last], s, tested) == FillChance(layout, init, s, tested) * FieldChance(layout, last, s, tested)
  {
    assert (init + [last])[..|init|] == init;
  }

  lemma {:induction false} FillChanceRatio(layout: Layout, members: seq<Ext>, s: Assignment, s': Assignment, tested: set<nat>, x: Ext)
    requires x in members && NoRepeats(members) && SameBut(layout, members, s, s', tested, x)
    ensures FillChance(layout, members, s, tested) * FieldChance(layout, x, s', tested)
         == FillChance(layout, members, s', tested) * FieldChance(layout, x, s, tested)
  {
    hide FieldChance, FillChance;
    var init, last := members[..|members| - 1], members[|members| - 1];
    var c, d := FillChance(layout, init, s, tested), FillChance(layout, init, s', tested);
    var p, q := FieldChance(layout, x, s, tested), FieldChance(layout, x, s', tested);
    assert members == init + [last];
    FillLast(layout, init, last, s, tested);
    FillLast(layout, init, last, s', tested);
    if last == x {
      assert x !in init;
      FillChanceOfOthers(layout, init, s, s', tested, x);
      SwapFactors(c, p, q);
    } else {
      FillChanceRatio(layout, init, s, s', tested, x);
      CommonFactor(c, d, FieldChance(layout, last, s, tested), p, q);
    }
  }

  lemma SwapFactors(c: real, p: real, q: real)
    ensures (c * p) * q == (c * q) * p
  {
  }

  lemma CommonFactor(c: real, d: real, f: real, p: real, q: real)
    requires c * q == d * p
    ensures (c * f) * q == (d * f) * p
  {
    assert (c * f) * q == (c * q) * f;
    assert (d * f) * p == (d * p) * f;
  }

  // ---------------------------------------------------------------- when a draw is uniform

  /** What the diagram of an object has, `n` being the number of diagram variables. */
  ghost predicate Complete(b: Bdd, layout: Layout, members: seq<Ext>, xs: set<Ext>, columns: nat, n: nat) {
    && ValidLayout(layout) && Interleaved(layout, xs, columns)
    && (forall x | x in xs :: x in members) && (forall x | x in members && x in layout :: x in xs) && NoRepeats(members)
    && b != FALSE && Below(b, n) && (forall i | i in FieldBits(layout, xs) :: i < n)
    && Settled(b, FieldBits(layout, xs), n)
  }

  lemma CompleteFacts(b: Bdd, layout: Layout, members: seq<Ext>, xs: set<Ext>, columns: nat, n: nat)
    requires Complete(b, layout, members, xs, columns, n)
    ensures Countable(b, n) && Canonical(b, 0) && b != FALSE
    ensures ValidLayout(layout) && Interleaved(layout, xs, columns) && xs <= layout.Keys && NoRepeats(members)
    ensures forall x | x in xs :: x in members
    ensures forall x | x in members && x in layout :: x in xs
    ensures Settled(b, FieldBits(layout, xs), n)
    ensures forall i | i in FieldBits(layout, xs) :: i < n
  {
  }

  /** The field bits the way to `s` leaves to the random words. */
  ghost function Undecided(b: Bdd, layout: Layout, xs: set<Ext>, s: Assignment): set<nat> {
    FieldBits(layout, xs) - Tested(b, s)
  }

  /** A variable that does not matter is not tested. */
  lemma {:induction false} IgnoredUntested(e: Edge, i: nat, s: Assignment, lo: nat)
    requires Canonical(e, lo) && Ignores(e, i)
    ensures i !in Tested(e, s)
    decreases e.node
  {
    if e.node.Branch? {
      var child := if e.node.index in s then ThenOf(e) else ElseOf(e);
      Branches(e, lo, 0);
      if e.node.index == i {
        TopMatters(e, lo);
      } else {
        IgnoredChild(e, child, i, s, lo);
        IgnoredUntested(child, i, s, e.node.index + 1);
      }
      TestedStep(e, child, s);
    }
  }

  lemma TopMatters(e: Edge, lo: nat)
    requires Canonical(e, lo) && e.node.Branch?
    ensures !Ignores(e, e.node.index)
  {
    var i, t, f := e.node.index, ThenOf(e), ElseOf(e);
    Branches(e, lo, 0);
    hide Eval, Canonical, ThenOf, ElseOf;
    var s := Distinguish(t, f, i + 1);
    EvalAgree(t, i + 1, s, s + {i});
    assert Eval(e, s + {i}) == Eval(t, s);
    assert Eval(e, s) == Eval(f, s);
  }

  lemma IgnoredChild(e: Edge, child: Edge, i: nat, s: Assignment, lo: nat)
    requires Canonical(e, lo) && e.node.Branch? && Ignores(e, i) && i != e.node.index
    requires child == if e.node.index in s then ThenOf(e) else ElseOf(e)
    ensures Ignores(child, i)
  {
    var top := e.node.index;
    Branches(e, lo, 0);
    hide Eval, Canonical, ThenOf, ElseOf;
    forall s': Assignment ensures Eval(child, s' + {i}) == Eval(child, s') {
      var r := if top in s then s' + {top} else s' - {top};
      assert Eval(e, r + {i}) == Eval(e, r);
      EvalAgree(child, top + 1, r, s');
      EvalAgree(child, top + 1, r + {i}, s' + {i});
    }
  }

  /** A variable that is off in all solutions is tested on the way to each. */
  lemma KeptOffTested(b: Edge, i: nat, s: Assignment, n: nat)
    requires Countable(b, n) && Eval(b, s) && KeepsOff(b, i)
    ensures i in Tested(b, s)
  {
    if i !in Tested(b, s) {
      SameWay(b, s, s + {i}, n);
    }
  }

  /** The way to a solution skips the idle variables and the field bits it leaves undecided. */
  lemma SkippedAre(b: Bdd, layout: Layout, members: seq<Ext>, xs: set<Ext>, columns: nat, n: nat, s: Assignment)
    requires Complete(b, layout, members, xs, columns, n) && s in Solutions(b, layout, xs)
    ensures Skipped(b, s, 0, n) == Idle(b, FieldBits(layout, xs), n) + Undecided(b, layout, xs, s)
    ensures Idle(b, FieldBits(layout, xs), n) !! Undecided(b, layout, xs, s)
  {
    CompleteFacts(b, layout, members, xs, columns, n);
    hide Eval, Canonical, FieldBits, Tested, Complete, Countable, Ignores, KeepsOff;
    forall i: nat | i < n && i !in FieldBits(layout, xs)
      ensures i !in Tested(b, s) <==> Ignores(b, i)
    {
      if Ignores(b, i) { IgnoredUntested(b, i, s, 0); } else { KeptOffTested(b, i, s, n); }
    }
  }

  lemma {:induction false} HalfSum(j: nat, k: nat)
    ensures Half(j + k) == Half(j) * Half(k)
  {
    if j > 0 {
      HalfSum(j - 1, k);
      Associate(0.5, Half(j - 1), Half(k));
    }
  }

  lemma {:induction false} OneInScaled(c: nat, k: nat)
    ensures OneIn(c * Pow2(k)) == OneIn(c) * Half(k)
  {
    if k > 0 {
      OneInScaled(c, k - 1);
      Doubled(c, Pow2(k - 1));
      if c > 0 {
        MulAtLeast(c, Pow2(k - 1));
        HalfOfInverse(c * Pow2(k - 1));
      }
    }
  }

  /** If undecided bits were fair coins, every combination of field values that satisfies the constraint would
      be drawn with the chance one over the number of such combinations. */
  lemma FieldsDrawnUniformly(b: Bdd, layout: Layout, members: seq<Ext>, xs: set<Ext>, columns: nat, n: nat, s: Assignment)
    requires Complete(b, layout, members, xs, columns, n) && Countable(b, n) && s in Solutions(b, layout, xs)
    ensures WalkChance(b, s, n) * Half(|Undecided(b, layout, xs, s)|) == OneIn(|Solutions(b, layout, xs)|)
  {
    hide *;
    var idle, open := Idle(b, FieldBits(layout, xs), n), Undecided(b, layout, xs, s);
    WalkOverAll(b, layout, members, xs, columns, n, s);
    SkippedAre(b, layout, members, xs, columns, n, s);
    UnionSize(idle, open);
    HalfSum(|idle|, |open|);
    OneInScaled(|Solutions(b, layout, xs)|, |idle|);
    HalfPositive(|idle|);
    FactorOut(WalkChance(b, s, n), Half(|idle|), Half(|open|), Half(|idle + open|), OneIn(|Solutions(b, layout, xs)|));
  }

  lemma UnionSize(a: set<nat>, b: set<nat>)
    requires a !! b
    ensures |a + b| == |a| + |b|
  {
  }

  /** The same with a coin for the idle variables too. */
  lemma WalkOverAll(b: Bdd, layout: Layout, members: seq<Ext>, xs: set<Ext>, columns: nat, n: nat, s: Assignment)
    requires Complete(b, layout, members, xs, columns, n) && Countable(b, n) && s in Solutions(b, layout, xs)
    ensures WalkChance(b, s, n) * Half(|Skipped(b, s, 0, n)|)
         == OneIn(|Solutions(b, layout, xs)| * Pow2(|Idle(b, FieldBits(layout, xs), n)|))
  {
    hide *;
    SolutionHolds(b, layout, xs, s);
    CompleteFacts(b, layout, members, xs, columns, n);
    ModelsAreSolutions(b, layout, xs, n);
    CountableBelow(b, n);
    SamplingIsUniform(b, s, 0, n);
    ChanceIsWalk(b, s, 0, n);
  }

  lemma SolutionHolds(b: Bdd, layout: Layout, xs: set<Ext>, s: Assignment)
    requires s in Solutions(b, layout, xs)
    ensures Eval(b, s)
  {
  }

  lemma CountableBelow(b: Bdd, n: nat)
    requires Countable(b, n)
    ensures Canonical(b, 0) && Below(b, n)
  {
  }

  lemma FactorOut(w: real, h: real, k: real, both: real, o: real)
    requires w * both == o * h && both == h * k && h != 0.0
    ensures w * k == o
  {
    assert w * (h * k) == (w * k) * h;
    assert (w * k - o) * h == 0.0;
    if w * k != o { NonZeroProduct(w * k - o, h); }
  }

  /** Every way to a solution decides every bit of every field. */
  ghost predicate AllDecided(b: Bdd, layout: Layout, xs: set<Ext>) {
    forall s: Assignment | s in Solutions(b, layout, xs) :: Undecided(b, layout, xs, s) == {}
  }

  /** All solutions would have the same chance. */
  ghost predicate ExactlyUniform(b: Bdd, layout: Layout, members: seq<Ext>, xs: set<Ext>, n: nat)
    requires Countable(b, n)
  {
    forall s: Assignment | s in Solutions(b, layout, xs) :: ExactDrawChance(b, layout, members, s, n) == OneIn(|Solutions(b, layout, xs)|)
  }

  /** If all bits are decided, the chance of a solution is the walk's: one over the number of solutions. */
  lemma DecidedIsUniform(b: Bdd, layout: Layout, members: seq<Ext>, xs: set<Ext>, columns: nat, n: nat, s: Assignment)
    requires Complete(b, layout, members, xs, columns, n) && Countable(b, n)
    requires s in Solutions(b, layout, xs) && Undecided(b, layout, xs, s) == {}
    ensures ExactDrawChance(b, layout, members, s, n) == OneIn(|Solutions(b, layout, xs)|)
  {
    FieldsDrawnUniformly(b, layout, members, xs, columns, n, s);
    CompleteFacts(b, layout, members, xs, columns, n);
    NothingToFill(layout, members, xs, s, Tested(b, s));
    hide WalkChance, Tested, FillChance, Solutions, Complete, Countable;
  }

  lemma {:induction false} NothingToFill(layout: Layout, members: seq<Ext>, xs: set<Ext>, s: Assignment, tested: set<nat>)
    requires ValidLayout(layout) && FieldBits(layout, xs) <= tested && forall x | x in members && x in layout :: x in xs
    ensures FillChance(layout, members, s, tested) == 1.0
  {
    if members != [] {
      var init, x := members[..|members| - 1], members[|members| - 1];
      NothingToFill(layout, init, xs, s, tested);
      if x in layout {
        forall j: nat | j < VecSize(x) ensures BitIndex(layout[x], j) in tested { assert BitIndex(layout[x], j) in FieldBits(layout, xs); }
        PatternLength(layout[x], s, s, tested, VecSize(x));
        FreshNothing(0);
      }
    }
  }

  /** `s` with another pattern at the undecided bits of one field is a solution too, with the same way to it
      and the same bits elsewhere. */
  lemma Repatterned(b: Bdd, layout: Layout, members: seq<Ext>, xs: set<Ext>, columns: nat, n: nat, s: Assignment, x: Ext, p: seq<bool>)
    returns (s': Assignment)
    requires Complete(b, layout, members, xs, columns, n) && Countable(b, n)
    requires s in Solutions(b, layout, xs) && x in xs && x in layout && |p| == |Pattern(layout[x], s, Tested(b, s), VecSize(x))|
    ensures s' in Solutions(b, layout, xs) && Tested(b, s') == Tested(b, s)
    ensures WalkChance(b, s', n) == WalkChance(b, s, n)
    ensures Pattern(layout[x], s', Tested(b, s), VecSize(x)) == p
    ensures forall i | i in Tested(b, s) :: i in s <==> i in s'
    ensures forall y | y in xs && y in layout && y != x ::
      Pattern(layout[y], s', Tested(b, s), VecSize(y)) == Pattern(layout[y], s, Tested(b, s), VecSize(y))
  {
    var tested := Tested(b, s);
    CompleteFacts(b, layout, members, xs, columns, n);
    s' := WithPattern(layout[x], s, tested, VecSize(x), p);
    forall i | i in tested ensures i in s <==> i in s' { WithPatternElsewhere(layout[x], s, tested, VecSize(x), p, i); }
    SameWay(b, s, s', n);
    forall i | i in s' ensures i in FieldBits(layout, xs) {
      if Owns(layout[x], VecSize(x), i) {
        var j: nat :| j < VecSize(x) && BitIndex(layout[x], j) == i;
      } else {
        WithPatternElsewhere(layout[x], s, tested, VecSize(x), p, i);
      }
    }
    WithPatternHas(layout[x], s, tested, VecSize(x), p);
    forall y | y in xs && y in layout && y != x
      ensures Pattern(layout[y], s', tested, VecSize(y)) == Pattern(layout[y], s, tested, VecSize(y))
    {
      OtherFieldKept(layout, xs, columns, x, y, s, tested, p);
    }
  }

  lemma OtherFieldKept(layout: Layout, xs: set<Ext>, n: nat, x: Ext, y: Ext, s: Assignment, tested: set<nat>, p: seq<bool>)
    requires ValidLayout(layout) && Interleaved(layout, xs, n) && x in xs && y in xs && x != y
    requires |p| == |Pattern(layout[x], s, tested, VecSize(x))|
    ensures Pattern(layout[y], WithPattern(layout[x], s, tested, VecSize(x), p), tested, VecSize(y)) == Pattern(layout[y], s, tested, VecSize(y))
  {
    var s' := WithPattern(layout[x], s, tested, VecSize(x), p);
    forall j: nat | j < VecSize(y) ensures BitIndex(layout[y], j) in s' <==> BitIndex(layout[y], j) in s {
      if Owns(layout[x], VecSize(x), BitIndex(layout[y], j)) {
        var i: nat :| i < VecSize(x) && BitIndex(layout[x], i) == BitIndex(layout[y], j);
        BitIndexInjective(layout, xs, n, x, i, y, j);
      } else {
        WithPatternElsewhere(layout[x], s, tested, VecSize(x), p, BitIndex(layout[y], j));
      }
    }
    SamePattern(layout[y], s', s, tested, VecSize(y));
  }

  /** An undecided bit gives two solutions with the same way to them and different chances of being filled in. */
  lemma UndecidedPair(b: Bdd, layout: Layout, members: seq<Ext>, xs: set<Ext>, columns: nat, n: nat, s: Assignment, i: nat)
    returns (s1: Assignment, s2: Assignment)
    requires Complete(b, layout, members, xs, columns, n) && Countable(b, n)
    requires s in Solutions(b, layout, xs) && i in Undecided(b, layout, xs, s)
    ensures s1 in Solutions(b, layout, xs) && s2 in Solutions(b, layout, xs)
    ensures s1 != s2 && Tested(b, s1) == Tested(b, s2) && forall j | j in Tested(b, s1) :: j in s1 <==> j in s2
    ensures FillChance(layout, members, s1, Tested(b, s1)) != FillChance(layout, members, s2, Tested(b, s2))
         || FillChance(layout, members, s1, Tested(b, s1)) == 0.0
  {
    var tested := Tested(b, s);
    CompleteFacts(b, layout, members, xs, columns, n);
    var x, j: nat :| x in xs && x in layout && j < |layout[x].bits| && BitIndex(layout[x], j) == i;
    PatternLength(layout[x], s, s, tested, VecSize(x));
    hide Complete, Tested, FieldBits, Solutions, Countable, Pattern, ValidLayout, Interleaved;
    s1, s2 := UnfairPair(b, layout, members, xs, columns, n, s, x);
  }

  /** Two patterns of one field with different chances, everything else being equal. */
  lemma UnfairPair(b: Bdd, layout: Layout, members: seq<Ext>, xs: set<Ext>, columns: nat, n: nat, s: Assignment, x: Ext)
    returns (s1: Assignment, s2: Assignment)
    requires Complete(b, layout, members, xs, columns, n) && Countable(b, n)
    requires s in Solutions(b, layout, xs) && x in xs && x in layout && |Pattern(layout[x], s, Tested(b, s), VecSize(x))| > 0
    ensures s1 in Solutions(b, layout, xs) && s2 in Solutions(b, layout, xs)
    ensures s1 != s2 && Tested(b, s1) == Tested(b, s2) && forall j | j in Tested(b, s1) :: j in s1 <==> j in s2
    ensures FillChance(layout, members, s1, Tested(b, s1)) != FillChance(layout, members, s2, Tested(b, s2))
         || FillChance(layout, members, s1, Tested(b, s1)) == 0.0
  {
    hide *;
    var tested := Tested(b, s);
    CompleteFacts(b, layout, members, xs, columns, n);
    var p, q := UnfairPatterns(|Pattern(layout[x], s, tested, VecSize(x))|);
    s1 := Repatterned(b, layout, members, xs, columns, n, s, x, p);
    s2 := Repatterned(b, layout, members, xs, columns, n, s, x, q);
    SameElsewhere(layout, members, xs, s, s1, s2, tested, x);
    FillChanceRatio(layout, members, s1, s2, tested, x);
    PatternChance(layout, x, s1, tested, p);
    PatternChance(layout, x, s2, tested, q);
    EqualRatio(FillChance(layout, members, s1, tested), FillChance(layout, members, s2, tested), Fresh(p), Fresh(q));
  }

  lemma EqualRatio(c: real, d: real, p: real, q: real)
    requires c * q == d * p && p != q
    ensures c != d || c == 0.0
  {
    if c == d && c != 0.0 { NonZeroProduct(c, q - p); }
  }

  /** So the solutions cannot have the same chance, whatever the chance of the way to them. */
  lemma UndecidedIsUnfair(b: Bdd, layout: Layout, members: seq<Ext>, xs: set<Ext>, columns: nat, n: nat, s: Assignment, i: nat)
    requires Complete(b, layout, members, xs, columns, n) && Countable(b, n)
    requires s in Solutions(b, layout, xs) && i in Undecided(b, layout, xs, s)
    ensures !ExactlyUniform(b, layout, members, xs, n)
  {
    hide *;
    var s1, s2 := UndecidedPair(b, layout, members, xs, columns, n, s, i);
    var w, c, d, o := WalkChance(b, s1, n), FillChance(layout, members, s1, Tested(b, s1)), FillChance(layout, members, s2, Tested(b, s2)),
                      OneIn(|Solutions(b, layout, xs)|);
    SameWay(b, s1, s2, n);
    if ExactlyUniform(b, layout, members, xs, n) {
      ExactlyUniformAt(b, layout, members, xs, n, s1);
      ExactlyUniformAt(b, layout, members, xs, n, s2);
      EqualChances(w, c, d, o);
      assert false;
    }
  }

  lemma PatternChance(layout: Layout, x: Ext, s: Assignment, tested: set<nat>, p: seq<bool>)
    requires x in layout && Pattern(layout[x], s, tested, VecSize(x)) == p
    ensures FieldChance(layout, x, s, tested) == Fresh(p)
  {
  }

  lemma SameElsewhere(layout: Layout, members: seq<Ext>, xs: set<Ext>, s: Assignment, sp: Assignment, sq: Assignment, tested: set<nat>, x: Ext)
    requires forall y | y in members && y in layout :: y in xs
    requires forall y | y in xs && y in layout && y != x ::
      Pattern(layout[y], sp, tested, VecSize(y)) == Pattern(layout[y], s, tested, VecSize(y))
    requires forall y | y in xs && y in layout && y != x ::
      Pattern(layout[y], sq, tested, VecSize(y)) == Pattern(layout[y], s, tested, VecSize(y))
    ensures SameBut(layout, members, sp, sq, tested, x)
  {
    hide Pattern, Fresh;
  }

  lemma ExactlyUniformAt(b: Bdd, layout: Layout, members: seq<Ext>, xs: set<Ext>, n: nat, s: Assignment)
    requires Countable(b, n) && ExactlyUniform(b, layout, members, xs, n) && s in Solutions(b, layout, xs)
    ensures WalkChance(b, s, n) * FillChance(layout, members, s, Tested(b, s)) == OneIn(|Solutions(b, layout, xs)|) > 0.0
  {
    hide Solutions, WalkChance, FillChance, Tested;
    assert ExactDrawChance(b, layout, members, s, n) == OneIn(|Solutions(b, layout, xs)|);
  }

  lemma EqualChances(w: real, c: real, d: real, o: real)
    requires w * c == o && w * d == o && o > 0.0
    ensures c == d && c != 0.0
  {
    assert w != 0.0 && c != 0.0;
    assert w * (c - d) == 0.0;
    if c != d { NonZeroProduct(w, c - d); }
  }

  lemma NonZeroProduct(a: real, b: real)
    requires a != 0.0 && b != 0.0
    ensures a * b != 0.0
  {
  }

  /** When a draw with exact shares would be uniform over the combinations of field values that satisfy the
      constraint: exactly when no way through the diagram leaves a bit of a field undecided. */
  lemma ExactUniformIff(b: Bdd, layout: Layout, members: seq<Ext>, xs: set<Ext>, columns: nat, n: nat)
    requires Complete(b, layout, members, xs, columns, n)
    ensures Countable(b, n)
    ensures ExactlyUniform(b, layout, members, xs, n) <==> AllDecided(b, layout, xs)
  {
    CompleteFacts(b, layout, members, xs, columns, n);
    hide Solutions, ExactDrawChance, FieldBits, Tested, Complete, Countable;
    if AllDecided(b, layout, xs) {
      forall s: Assignment | s in Solutions(b, layout, xs)
        ensures ExactDrawChance(b, layout, members, s, n) == OneIn(|Solutions(b, layout, xs)|)
      {
        DecidedIsUniform(b, layout, members, xs, columns, n, s);
      }
    } else {
      var s: Assignment :| s in Solutions(b, layout, xs) && Undecided(b, layout, xs, s) != {};
      var i :| i in Undecided(b, layout, xs, s);
      UndecidedIsUnfair(b, layout, members, xs, columns, n, s, i);
    }
  }
}

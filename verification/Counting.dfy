/** Counting the models of a diagram by brute force, the reference for the weights of the sampler. */
module Counting {
  import opened Bdds
  import opened Words

  /** Models among the completions of `s` by variables `lo <= i < n`, each tried both ways. */
  function CountFrom(e: Edge, s: Assignment, lo: nat, n: nat): nat
    requires lo <= n
    decreases n - lo
  {
    if lo == n then (if Eval(e, s) then 1 else 0)
    else CountFrom(e, s, lo + 1, n) + CountFrom(e, s + {lo}, lo + 1, n)
  }

  /** The models that extend `base` by variables `lo <= i < n`. */
  ghost function Models(e: Edge, base: Assignment, lo: nat, n: nat): (r: set<Assignment>)
    requires lo <= n && forall i | i in base :: i < lo
    ensures forall s :: s in r <==> Eval(e, s) && base <= s && forall i | i in s && i !in base :: lo <= i < n
    decreases n - lo
  {
    if lo == n then
      assert forall s: Assignment | base <= s && forall i | i in s && i !in base :: lo <= i < n :: s == base;
      if Eval(e, base) then {base} else {}
    else
      var off, on := Models(e, base, lo + 1, n), Models(e, base + {lo}, lo + 1, n);
      assert forall s: Assignment | base <= s && forall i | i in s && i !in base :: lo <= i < n ::
        if lo in s then base + {lo} <= s else forall i | i in s && i !in base :: lo + 1 <= i < n;
      off + on
  }

  /** The count is the number of models. */
  lemma {:induction false} CountIsCardinality(e: Edge, base: Assignment, lo: nat, n: nat)
    requires lo <= n && forall i | i in base :: i < lo
    ensures |Models(e, base, lo, n)| == CountFrom(e, base, lo, n)
    decreases n - lo
  {
    if lo < n {
      CountIsCardinality(e, base, lo + 1, n);
      CountIsCardinality(e, base + {lo}, lo + 1, n);
      var off, on := Models(e, base, lo + 1, n), Models(e, base + {lo}, lo + 1, n);
      assert forall s | s in on :: lo in s;
      assert forall s | s in off :: lo !in s;
    }
  }

  // ---------------------------------------------------------------- counting follows the diagram

  /** Variables above the diagram do not matter to the count. */
  lemma {:induction false} CountAgree(e: Edge, m: nat, s: Assignment, s': Assignment, lo: nat, n: nat)
    requires lo <= n && Canonical(e, m)
    requires forall i: nat | m <= i :: i in s <==> i in s'
    ensures CountFrom(e, s, lo, n) == CountFrom(e, s', lo, n)
    decreases n - lo
  {
    if lo == n {
      EvalAgree(e, m, s, s');
    } else {
      CountAgree(e, m, s, s', lo + 1, n);
      CountAgree(e, m, s + {lo}, s' + {lo}, lo + 1, n);
    }
  }

  /** A variable the diagram does not test doubles the count. */
  lemma {:induction false} CountSkip(e: Edge, lo: nat, hi: nat, n: nat)
    requires lo <= hi <= n && Canonical(e, hi)
    ensures CountFrom(e, {}, lo, n) == Pow2(hi - lo) * CountFrom(e, {}, hi, n)
    decreases hi - lo
  {
    if lo < hi {
      CanonicalMonotone(e);
      CountSkip(e, lo + 1, hi, n);
      CountAgree(e, lo + 1, {}, {} + {lo}, lo + 1, n);
      DoubleProduct(Pow2(hi - lo - 1), CountFrom(e, {}, hi, n));
    }
  }

  lemma DoubleProduct(p: nat, c: nat)
    ensures p * c + p * c == (2 * p) * c
  {
  }

  /** A tested variable adds the counts of the two branches. */
  lemma {:induction false} CountBranch(e: Edge, n: nat)
    requires e.node.Branch? && e.node.index < n && Canonical(e, 0)
    ensures CountFrom(e, {}, e.node.index, n)
         == CountFrom(ElseOf(e), {}, e.node.index + 1, n) + CountFrom(ThenOf(e), {}, e.node.index + 1, n)
  {
    hide *;
    Branches(e, 0, n);
    CountByCases(e, ThenOf(e), ElseOf(e), e.node.index, n);
  }

  lemma CountByCases(e: Edge, t: Edge, f: Edge, i: nat, n: nat)
    requires i < n && Canonical(t, i + 1)
    requires forall s: Assignment :: Eval(e, s) == if i in s then Eval(t, s) else Eval(f, s)
    ensures CountFrom(e, {}, i, n) == CountFrom(f, {}, i + 1, n) + CountFrom(t, {}, i + 1, n)
  {
    hide Eval, Canonical;
    CountBranchAt(e, f, {}, i, i + 1, n);
    CountBranchAt(e, t, {} + {i}, i, i + 1, n);
    CountAgree(t, i + 1, {} + {i}, {}, i + 1, n);
  }

  lemma {:induction false} CountBranchAt(e: Edge, child: Edge, s: Assignment, i: nat, lo: nat, n: nat)
    requires i < lo <= n && forall s': Assignment | (i in s' <==> i in s) :: Eval(e, s') == Eval(child, s')
    ensures CountFrom(e, s, lo, n) == CountFrom(child, s, lo, n)
    decreases n - lo
  {
    if lo < n {
      CountBranchAt(e, child, s, i, lo + 1, n);
      CountBranchAt(e, child, s + {lo}, i, lo + 1, n);
    }
  }

  lemma {:induction false} CountConstant(e: Edge, s: Assignment, lo: nat, n: nat)
    requires e.node.One? && lo <= n
    ensures CountFrom(e, s, lo, n) == if e.complement then 0 else Pow2(n - lo)
    decreases n - lo
  {
    if lo < n {
      CountConstant(e, s, lo + 1, n);
      CountConstant(e, s + {lo}, lo + 1, n);
    }
  }

  /** Only the zero diagram has no model. */
  lemma {:induction false} CountPositive(e: Edge, lo: nat, n: nat)
    requires Canonical(e, lo) && Below(e, n) && lo <= n
    ensures CountFrom(e, {}, lo, n) > 0 <==> e != FALSE
    decreases e.node
  {
    hide Eval, CountFrom;
    if e.node.One? {
      CountConstant(e, {}, lo, n);
    } else {
      var i := e.node.index;
      CanonicalMonotone(e);
      Branches(e, lo, n);
      CountSkip(e, lo, i, n);
      CountBranch(e, n);
      CountPositive(ElseOf(e), i + 1, n);
      CountPositive(ThenOf(e), i + 1, n);
      PositiveProduct(Pow2(i - lo), CountFrom(e, {}, i, n));
    }
  }

  lemma PositiveProduct(p: nat, c: nat)
    requires p > 0
    ensures p * c > 0 <==> c > 0
  {
  }
}

/** Draws from diagrams that were never counted: with fields pinned, or with solutions taken out of the record.
    Their new nodes have no share, and one half is used instead. */
module Redraws {
  import opened Options
  import opened Bdds
  import opened Words
  import opened Randomness
  import opened Circuits
  import opened Counting
  import opened Weights
  import opened Sampling
  import opened Expressions
  import opened Compiler
  import opened Fields
  import opened Construction
  import opened Solver
  import opened Runs
  import opened FieldCounts
  import opened Chances
  import opened Fairness

  /** `t` has only solutions of `b`, and variables outside `bits` that do not matter to `b` do not matter to it. */
  ghost predicate Narrows(t: Bdd, b: Bdd, bits: set<nat>) {
    && (forall s: Assignment | Eval(t, s) :: Eval(b, s))
    && forall s: Assignment, i: nat | i !in bits && Eval(b, s + {i}) == Eval(b, s) :: Eval(t, s + {i}) == Eval(t, s)
  }

  /** A narrower diagram has all that chances need. */
  lemma NarrowComplete(t: Bdd, b: Bdd, layout: Layout, members: seq<Ext>, xs: set<Ext>, columns: nat, n: nat)
    requires Complete(b, layout, members, xs, columns, n) && Narrows(t, b, FieldBits(layout, xs)) && t != FALSE
    ensures Complete(t, layout, members, xs, columns, n)
  {
    CompleteFacts(b, layout, members, xs, columns, n);
    CountableBelow(b, n);
    hide Eval, Canonical, Below, FieldBits, Countable, ValidLayout, Interleaved;
    var bits := FieldBits(layout, xs);
    forall i: nat | i < n && i !in bits ensures Ignores(t, i) || KeepsOff(t, i) {
      assert Ignores(b, i) || KeepsOff(b, i);
      if Ignores(b, i) { NarrowIgnores(t, b, bits, i); }
    }
    forall s: Assignment, i: nat | n <= i ensures Eval(t, s + {i}) == Eval(t, s) {
      EvalFromOn(b, n, s, i);
    }
    DiagramCanonical(t);
    IndependentBelow(t, 0, n);
  }

  lemma NarrowIgnores(t: Bdd, b: Bdd, bits: set<nat>, i: nat)
    requires Narrows(t, b, bits) && Ignores(b, i) && i !in bits
    ensures Ignores(t, i)
  {
    hide Eval, Canonical;
  }

  lemma {:induction false} EvalFromOn(e: Edge, n: nat, s: Assignment, i: nat)
    requires Below(e, n) && n <= i
    ensures Eval(e, s + {i}) == Eval(e, s)
    decreases e.node
  {
    if e.node.Branch? {
      EvalFromOn(e.node.thenEdge, n, s, i);
      EvalFromOn(e.node.elseEdge, n, s, i);
    }
  }

  /** A variable that is no field bit does not change a field's value. */
  lemma OtherVariable(layout: Layout, xs: set<Ext>, x: Ext, s: Assignment, i: nat)
    requires ValidLayout(layout) && x in xs && x in layout && i !in FieldBits(layout, xs)
    ensures Val(layout[x].bits, s + {i}) == Val(layout[x].bits, s)
  {
    forall j: nat | j < |layout[x].bits| ensures BitIndex(layout[x], j) in s + {i} <==> BitIndex(layout[x], j) in s {
      assert BitIndex(layout[x], j) in FieldBits(layout, xs);
    }
    FieldValueAgrees(layout, x, s + {i}, s);
  }

  /** Pinning fields narrows the diagram. */
  lemma PinnedNarrows(t: Bdd, b: Bdd, layout: Layout, members: seq<Ext>, xs: set<Ext>, fixed: Valuation)
    requires ValidLayout(layout) && Restricts(t, b, layout, members, fixed, |members|)
    requires forall x | x in members && x in layout :: x in xs
    ensures Narrows(t, b, FieldBits(layout, xs))
  {
    hide Eval, Canonical, FieldBits, ValidLayout, Val;
    forall s: Assignment, i: nat | i !in FieldBits(layout, xs) ensures Pins(layout, members, fixed, |members|, s + {i}) == Pins(layout, members, fixed, |members|, s) {
      forall j: nat | j < |members| ensures Fixed(layout, fixed, members[j], s + {i}) == Fixed(layout, fixed, members[j], s) {
        if members[j] in layout { OtherVariable(layout, xs, members[j], s, i); }
      }
      SamePins(layout, members, fixed, s + {i}, s);
    }
  }

  lemma SamePins(layout: Layout, members: seq<Ext>, fixed: Valuation, s: Assignment, s': Assignment)
    requires forall j: nat | j < |members| :: Fixed(layout, fixed, members[j], s) == Fixed(layout, fixed, members[j], s')
    ensures Pins(layout, members, fixed, |members|, s) == Pins(layout, members, fixed, |members|, s')
  {
    hide Fixed;
  }

  /** Taking a solution out of the record narrows it. */
  lemma RecordNarrows(b: Bdd, layout: Layout, xs: set<Ext>, record: Option<Bdd>, drawn: Valuation, t: Bdd)
    requires ValidLayout(layout) && AvoidStep(b, layout, xs, record, drawn, Some(t))
    ensures Narrows(t, if record.Some? then record.value else b, FieldBits(layout, xs))
  {
    hide Eval, Canonical, FieldBits, ValidLayout, Encode, InWidth, Val;
    forall s: Assignment, i: nat | i !in FieldBits(layout, xs) ensures HasValues(layout, xs, drawn, s + {i}) == HasValues(layout, xs, drawn, s) {
      forall x | x in xs && x in layout ensures Val(layout[x].bits, s + {i}) == Val(layout[x].bits, s) {
        OtherVariable(layout, xs, x, s, i);
      }
    }
  }

  /** Every record of a run can be drawn from with chances. */
  lemma {:induction false} RecordComplete(b: Bdd, layout: Layout, members: seq<Ext>, xs: set<Ext>, columns: nat, n: nat,
                                          records: seq<Option<Bdd>>, draws: seq<Valuation>, k: nat)
    requires Complete(b, layout, members, xs, columns, n) && ObjectRun(b, layout, xs, records, draws) && k <= |draws|
    requires records[k].Some?
    ensures Complete(records[k].value, layout, members, xs, columns, n)
  {
    CompleteFacts(b, layout, members, xs, columns, n);
    var before := records[k - 1];
    assert AvoidStep(b, layout, xs, before, draws[k - 1], records[k]);
    RecordKept(b, layout, xs, before, draws[k - 1], records[k].value);
    hide Complete, ObjectRun, AvoidStep, Narrows, ValidLayout;
    RecordNarrows(b, layout, xs, before, draws[k - 1], records[k].value);
    if before.Some? {
      RecordComplete(b, layout, members, xs, columns, n, records, draws, k - 1);
      NarrowComplete(records[k].value, before.value, layout, members, xs, columns, n);
    } else {
      NarrowComplete(records[k].value, b, layout, members, xs, columns, n);
    }
  }

  lemma RecordKept(b: Bdd, layout: Layout, xs: set<Ext>, record: Option<Bdd>, drawn: Valuation, t: Bdd)
    requires AvoidStep(b, layout, xs, record, drawn, Some(t))
    ensures t != FALSE
  {
  }

  /** Every share in the table is the one the count gives its node. */
  ghost predicate SoundShares(n: nat, shares: map<Edge, nat>) {
    forall k | k in shares && k.node.Branch? && Countable(k, n) ::
      k.node.index < n && Weight(k, n) > 0 && shares[k] == ElseShare(k, n)
  }

  /** From whatever diagram is drawn: if the draw is uniform there is one solution, or the first choice was never
      counted and 32769 parts in 65536 of the models are in its else branch. */
  lemma RedrawUniform(t: Bdd, r: nat, shares: map<Edge, nat>, layout: Layout, members: seq<Ext>, xs: set<Ext>, columns: nat, n: nat)
    requires Complete(t, layout, members, xs, columns, n) && SoundShares(n, shares) && r < WORD
    requires Uniform(t, r, shares, layout, members, xs)
    ensures var f := FirstChoice(t);
            || |Solutions(t, layout, xs)| == 1
            || (f.node.Branch? && f !in shares && Countable(f, n) && f.node.index < n
                && ROUNDTO * BranchWeight(ElseOf(f), f.node.index, n) == (ROUNDTO_BASE + 1) * Weight(f, n) && Weight(f, n) % ROUNDTO == 0)
  {
    hide *;
    var f := FirstChoice(t);
    UniformFirstChoice(t, r, shares, layout, members, xs, columns, n);
    if f.node.Branch? {
      if f in shares {
        SoundFirst(t, n, shares);
        CountedShareWrong(f, n, shares);
        assert false;
      } else {
        UncountedUniform(t, r, shares, layout, members, xs, columns, n);
      }
    }
  }

  lemma SoundFirst(t: Edge, n: nat, shares: map<Edge, nat>)
    requires SoundShares(n, shares) && FirstChoice(t).node.Branch? && FirstChoice(t) in shares && Countable(FirstChoice(t), n)
    ensures var f := FirstChoice(t);
            && ThenOf(f) != FALSE && ElseOf(f) != FALSE
            && f.node.index < n && Weight(f, n) > 0 && shares[f] == ElseShare(f, n)
  {
    FirstChoiceReachable(t);
    hide Reachable, FirstChoice, Countable, ElseShare;
  }
}

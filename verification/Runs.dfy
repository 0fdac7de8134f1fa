/** Runs of draws in avoid-duplicate mode: every solution once, then the cycle starts again. */
module Runs {
  import opened Options
  import opened Cycles
  import opened Bdds
  import opened Sampling
  import opened Words
  import opened Circuits
  import opened Expressions
  import opened Compiler
  import opened Fields
  import opened Drawing
  import opened Construction
  import opened Solver

  /** The solutions of a diagram, as assignments to the field bits. */
  ghost function Solutions(t: Bdd, layout: Layout, xs: set<Ext>): (r: set<Assignment>) {
    set s: Assignment | s <= FieldBits(layout, xs) && Eval(t, s)
  }

  /** The record as a pool of solutions. */
  ghost function PoolOf(layout: Layout, xs: set<Ext>, record: Option<Bdd>): Pool<Assignment> {
    match record
    case None => None
    case Some(t) => Some(Solutions(t, layout, xs))
  }

  ghost predicate Recordable(layout: Layout, xs: set<Ext>, record: Option<Bdd>) {
    record.Some? ==> record.value != FALSE && Confined(record.value, layout, xs)
  }

  /** What every object that can be drawn from guarantees. */
  ghost predicate Drawable(b: Bdd, layout: Layout, xs: set<Ext>, n: nat) {
    ValidLayout(layout) && Interleaved(layout, xs, n) && b != FALSE && Confined(b, layout, xs)
  }

  /** A satisfiable confined diagram has a solution over the field bits. */
  lemma SolutionsExist(t: Bdd, layout: Layout, xs: set<Ext>)
    requires Confined(t, layout, xs)
    ensures t != FALSE <==> Solutions(t, layout, xs) != {}
  {
    ZeroIffUnsatisfiable(t);
    if t != FALSE {
      var s: Assignment :| Eval(t, s);
      assert s * FieldBits(layout, xs) in Solutions(t, layout, xs);
    }
  }

  /** Over the field bits, having the drawn values is being the drawn assignment. */
  lemma HasValuesIsEncoding(layout: Layout, xs: set<Ext>, n: nat, drawn: Valuation, s: Assignment)
    requires ValidLayout(layout) && Interleaved(layout, xs, n) && InWidth(xs, drawn) && s <= FieldBits(layout, xs)
    ensures HasValues(layout, xs, drawn, s) <==> s == Encode(layout, xs, drawn)
  {
    if HasValues(layout, xs, drawn, s) {
      EncodeOfValues(layout, xs, n, s, drawn);
      assert s * FieldBits(layout, xs) == s;
    } else if s == Encode(layout, xs, drawn) {
      forall x | x in xs && x in layout ensures Val(layout[x].bits, s) == Lookup(drawn, x) {
        EncodeDecode(layout, xs, n, drawn, x);
      }
    }
  }

  lemma EncodingOnFieldBits(layout: Layout, xs: set<Ext>, val: Valuation)
    ensures Encode(layout, xs, val) <= FieldBits(layout, xs)
  {
  }

  /** One draw takes exactly the drawn solution away. */
  lemma StepIsDraw(b: Bdd, layout: Layout, xs: set<Ext>, n: nat, record: Option<Bdd>, drawn: Valuation, record': Option<Bdd>)
    requires Drawable(b, layout, xs, n) && Recordable(layout, xs, record) && AvoidStep(b, layout, xs, record, drawn, record')
    ensures Recordable(layout, xs, record')
    ensures Draw(Solutions(b, layout, xs), PoolOf(layout, xs, record), Encode(layout, xs, drawn), PoolOf(layout, xs, record'))
  {
    hide Canonical, Eval, Val, Encode, InWidth, HasValues, Interleaved, ValidLayout;
    var t, a := if record.Some? then record.value else b, Encode(layout, xs, drawn);
    EncodingOnFieldBits(layout, xs, drawn);
    forall s: Assignment | s <= FieldBits(layout, xs) ensures HasValues(layout, xs, drawn, s) <==> s == a {
      HasValuesIsEncoding(layout, xs, n, drawn, s);
    }
    match record'
    case None =>
      assert Solutions(t, layout, xs) == {a};
    case Some(t') =>
      forall s: Assignment ensures HasValues(layout, xs, drawn, s) == HasValues(layout, xs, drawn, s * FieldBits(layout, xs)) {
        SameValues(layout, xs, drawn, s);
      }
      assert Confined(t', layout, xs);
      assert Solutions(t', layout, xs) == Solutions(t, layout, xs) - {a};
      SolutionsExist(t', layout, xs);
  }

  lemma SameValues(layout: Layout, xs: set<Ext>, drawn: Valuation, s: Assignment)
    requires ValidLayout(layout)
    ensures HasValues(layout, xs, drawn, s) == HasValues(layout, xs, drawn, s * FieldBits(layout, xs))
  {
    forall x | x in xs && x in layout ensures Val(layout[x].bits, s * FieldBits(layout, xs)) == Val(layout[x].bits, s) {
      ValueOnFieldBits(layout, xs, x, s);
    }
  }

  // ---------------------------------------------------------------- runs

  /** A run of an object: the records before and after each draw, starting from no record. */
  ghost predicate ObjectRun(b: Bdd, layout: Layout, xs: set<Ext>, records: seq<Option<Bdd>>, draws: seq<Valuation>) {
    && |records| == |draws| + 1 && records[0] == None
    && forall k | 0 <= k < |draws| :: AvoidStep(b, layout, xs, records[k], draws[k], records[k + 1])
  }

  ghost function Pools(layout: Layout, xs: set<Ext>, records: seq<Option<Bdd>>): (r: seq<Pool<Assignment>>)
    ensures |r| == |records| && forall k | 0 <= k < |r| :: r[k] == PoolOf(layout, xs, records[k])
  {
    seq(|records|, k requires 0 <= k < |records| => PoolOf(layout, xs, records[k]))
  }

  ghost function Encodings(layout: Layout, xs: set<Ext>, draws: seq<Valuation>): (r: seq<Assignment>)
    ensures |r| == |draws| && forall k | 0 <= k < |r| :: r[k] == Encode(layout, xs, draws[k])
  {
    seq(|draws|, k requires 0 <= k < |draws| => Encode(layout, xs, draws[k]))
  }

  lemma {:induction false} RecordsStay(b: Bdd, layout: Layout, xs: set<Ext>, n: nat, records: seq<Option<Bdd>>, draws: seq<Valuation>, k: nat)
    requires Drawable(b, layout, xs, n) && ObjectRun(b, layout, xs, records, draws) && k <= |draws|
    ensures Recordable(layout, xs, records[k])
  {
    hide Drawable, AvoidStep;
    if k > 0 {
      RecordsStay(b, layout, xs, n, records, draws, k - 1);
      StepIsDraw(b, layout, xs, n, records[k - 1], draws[k - 1], records[k]);
    }
  }

  /** A run of an object is a run of draws from the pool of its solutions. */
  lemma ObjectRunCycles(b: Bdd, layout: Layout, xs: set<Ext>, n: nat, records: seq<Option<Bdd>>, draws: seq<Valuation>)
    requires Drawable(b, layout, xs, n) && ObjectRun(b, layout, xs, records, draws)
    ensures Solutions(b, layout, xs) != {}
    ensures Run(Solutions(b, layout, xs), Pools(layout, xs, records), Encodings(layout, xs, draws))
  {
    SolutionsExist(b, layout, xs);
    hide Drawable, AvoidStep, Draw, PoolOf, Encode, Solutions;
    RecordsNone(layout, xs);
    forall k | 0 <= k < |draws|
      ensures Draw(Solutions(b, layout, xs), PoolOf(layout, xs, records[k]), Encode(layout, xs, draws[k]), PoolOf(layout, xs, records[k + 1]))
    {
      RecordsStay(b, layout, xs, n, records, draws, k);
      StepIsDraw(b, layout, xs, n, records[k], draws[k], records[k + 1]);
    }
  }

  lemma RecordsNone(layout: Layout, xs: set<Ext>)
    ensures PoolOf(layout, xs, None) == None
  {
  }

  /** Main result for avoid-duplicate mode, the record starting empty and no field pinned: the record is
      empty again exactly after complete cycles, and no two draws of one cycle have the same values. */
  lemma NoSolutionTwice(b: Bdd, layout: Layout, xs: set<Ext>, n: nat, records: seq<Option<Bdd>>, draws: seq<Valuation>, i: nat, j: nat)
    requires Drawable(b, layout, xs, n) && ObjectRun(b, layout, xs, records, draws) && i < j < |draws|
    ensures var total := |Solutions(b, layout, xs)|;
            && total > 0
            && (records[j] == None <==> j % total == 0)
            && (i / total == j / total ==> exists x :: x in xs && Lookup(draws[i], x) != Lookup(draws[j], x))
  {
    hide Drawable, AvoidStep, Solutions, Encode, Run;
    ObjectRunCycles(b, layout, xs, n, records, draws);
    RenewedExactly(Solutions(b, layout, xs), Pools(layout, xs, records), Encodings(layout, xs, draws), j);
    var total := |Solutions(b, layout, xs)|;
    if i / total == j / total {
      NoDuplicate(Solutions(b, layout, xs), Pools(layout, xs, records), Encodings(layout, xs, draws), i, j);
      if forall x | x in xs :: Lookup(draws[i], x) == Lookup(draws[j], x) {
        SameEncoding(layout, xs, draws[i], draws[j]);
      }
    }
  }

  lemma SameEncoding(layout: Layout, xs: set<Ext>, v: Valuation, w: Valuation)
    requires forall x | x in xs :: Lookup(v, x) == Lookup(w, x)
    ensures Encode(layout, xs, v) == Encode(layout, xs, w)
  {
  }

  /** A complete cycle draws every solution: whatever values satisfy the constraint, some draw of the
      cycle has them. */
  lemma EverySolutionDrawn(b: Bdd, layout: Layout, xs: set<Ext>, n: nat, records: seq<Option<Bdd>>, draws: seq<Valuation>, cycle: nat, val: Valuation)
    requires Drawable(b, layout, xs, n) && ObjectRun(b, layout, xs, records, draws)
    requires cycle * |Solutions(b, layout, xs)| + |Solutions(b, layout, xs)| <= |draws|
    requires InWidth(xs, val) && Eval(b, Encode(layout, xs, val))
    ensures exists k :: cycle * |Solutions(b, layout, xs)| <= k < cycle * |Solutions(b, layout, xs)| + |Solutions(b, layout, xs)|
                     && InWidth(xs, draws[k]) && forall x | x in xs :: draws[k][x] == val[x]
  {
    hide Drawable, Solutions, InWidth, Encode, ValidLayout, Interleaved, AvoidStep, Run;
    ObjectRunCycles(b, layout, xs, n, records, draws);
    var total, encodings := |Solutions(b, layout, xs)|, Encodings(layout, xs, draws);
    CycleCoversAll(Solutions(b, layout, xs), Pools(layout, xs, records), encodings, cycle);
    EncodedSolution(b, layout, xs, val);
    assert Encode(layout, xs, val) in Drawn(encodings, cycle * total, cycle * total + total);
    var k: nat :| cycle * total <= k < cycle * total + total && encodings[k] == Encode(layout, xs, val);
    StepInWidth(b, layout, xs, records[k], draws[k], records[k + 1]);
    SameEncodingSameValues(b, layout, xs, n, draws[k], val);
  }

  lemma EncodedSolution(b: Bdd, layout: Layout, xs: set<Ext>, val: Valuation)
    requires Eval(b, Encode(layout, xs, val))
    ensures Encode(layout, xs, val) in Solutions(b, layout, xs)
  {
    EncodingOnFieldBits(layout, xs, val);
  }

  lemma StepInWidth(b: Bdd, layout: Layout, xs: set<Ext>, record: Option<Bdd>, drawn: Valuation, record': Option<Bdd>)
    requires AvoidStep(b, layout, xs, record, drawn, record')
    ensures InWidth(xs, drawn)
  {
  }

  lemma SameEncodingSameValues(b: Bdd, layout: Layout, xs: set<Ext>, n: nat, v: Valuation, w: Valuation)
    requires Drawable(b, layout, xs, n) && InWidth(xs, v) && InWidth(xs, w)
    requires Encode(layout, xs, v) == Encode(layout, xs, w)
    ensures forall x | x in xs :: v[x] == w[x]
  {
    forall x | x in xs ensures v[x] == w[x] {
      EncodeDecode(layout, xs, n, v, x);
      EncodeDecode(layout, xs, n, w, x);
    }
  }

  // ---------------------------------------------------------------- the object draws a run

  /** `next` called over and over in avoid-duplicate mode, with nothing recorded at first. */
  method Draws(c: ConstraintObject, m: Sampler, shares: map<Edge, nat>, count: nat)
    returns (draws: seq<Valuation>, ghost records: seq<Option<Bdd>>)
    requires c.Solvable() && c.record == None
    modifies c`fixed, c`ignore, c`record, m`randomnext, m`valueIndex, m.gen
    ensures c.Solvable() && c.GetBdd() == old(c.GetBdd()) && |draws| == count
    ensures ObjectRun(c.GetBdd(), c.layout, c.Known(), records, draws) && c.record == records[count]
  {
    hide AvoidStep, Confined, Interleaved, Canonical, Eval, InWidth;
    draws, records := [], [None];
    for k := 0 to count
      invariant c.Solvable() && c.ignore == old(c.ignore)
      invariant |draws| == k && |records| == k + 1 && records[0] == None && records[k] == c.record
      invariant forall i | 0 <= i < k :: AvoidStep(c.GetBdd(), c.layout, c.Known(), records[i], draws[i], records[i + 1])
    {
      c.Next(m, shares, true);
      draws, records := draws + [c.fixed], records + [c.record];
    }
  }

  lemma DrawableObject(c: ConstraintObject)
    requires c.Solvable()
    ensures Drawable(c.GetBdd(), c.layout, c.Known(), c.columns)
  {
  }

  /** The two draws differ in a field. */
  ghost predicate Differ(xs: set<Ext>, v: Valuation, w: Valuation) {
    exists x :: x in xs && Lookup(v, x) != Lookup(w, x)
  }

  /** The combination of field values is among the draws. */
  ghost predicate Appears(xs: set<Ext>, draws: seq<Valuation>, val: Valuation)
    requires InWidth(xs, val)
  {
    exists k :: 0 <= k < |draws| && InWidth(xs, draws[k]) && forall x | x in xs :: draws[k][x] == val[x]
  }

  /** A run of as many draws as there are solutions. */
  lemma WholeCycle(b: Bdd, layout: Layout, xs: set<Ext>, n: nat, records: seq<Option<Bdd>>, draws: seq<Valuation>, total: nat)
    requires Drawable(b, layout, xs, n) && ObjectRun(b, layout, xs, records, draws)
    requires |draws| == total == |Solutions(b, layout, xs)|
    ensures records[total] == None
    ensures forall i, j | 0 <= i < j < total :: Differ(xs, draws[i], draws[j])
    ensures forall val | InWidth(xs, val) && Eval(b, Encode(layout, xs, val)) :: Appears(xs, draws, val)
  {
    hide Drawable, Solutions, InWidth, Encode, AvoidStep, Eval, Canonical;
    RunStates(b, layout, xs, n, records, draws, total);
    forall i, j | 0 <= i < j < total ensures Differ(xs, draws[i], draws[j]) {
      SameCycle(i, total);
      SameCycle(j, total);
      NoSolutionTwice(b, layout, xs, n, records, draws, i, j);
    }
    forall val | InWidth(xs, val) && Eval(b, Encode(layout, xs, val))
      ensures Appears(xs, draws, val)
    {
      EverySolutionDrawn(b, layout, xs, n, records, draws, 0, val);
    }
  }

  lemma SameCycle(i: nat, n: nat)
    requires i < n
    ensures i / n == 0
  {
    DivModUnique(i, n, 0, i);
  }

  lemma RunStates(b: Bdd, layout: Layout, xs: set<Ext>, n: nat, records: seq<Option<Bdd>>, draws: seq<Valuation>, total: nat)
    requires Drawable(b, layout, xs, n) && ObjectRun(b, layout, xs, records, draws)
    requires |draws| == total == |Solutions(b, layout, xs)|
    ensures records[total] == None
  {
    hide Drawable, AvoidStep, Solutions, Encode, Run;
    ObjectRunCycles(b, layout, xs, n, records, draws);
    RenewedExactly(Solutions(b, layout, xs), Pools(layout, xs, records), Encodings(layout, xs, draws), total);
    if total > 0 { DivModUnique(total, total, 1, 0); }
  }

  /** One draw for every solution: each is drawn once, and nothing is recorded at the end. */
  method DrawCycle(c: ConstraintObject, m: Sampler, shares: map<Edge, nat>, total: nat) returns (draws: seq<Valuation>)
    requires c.Solvable() && c.record == None && total == |Solutions(c.GetBdd(), c.layout, c.Known())|
    modifies c`fixed, c`ignore, c`record, m`randomnext, m`valueIndex, m.gen
    ensures c.Solvable() && c.GetBdd() == old(c.GetBdd()) && |draws| == total && c.record == None
    ensures forall i, j | 0 <= i < j < total :: Differ(c.Known(), draws[i], draws[j])
    ensures forall val | InWidth(c.Known(), val) && Eval(c.GetBdd(), Encode(c.layout, c.Known(), val)) :: Appears(c.Known(), draws, val)
  {
    hide *;
    ghost var records: seq<Option<Bdd>>;
    draws, records := Draws(c, m, shares, total);
    DrawableObject(c);
    WholeCycle(c.GetBdd(), c.layout, c.Known(), c.columns, records, draws, total);
  }
}

/** A constraint object: simplification against initialised fields, drawing a solution, and the
    avoid-duplicate record. */
module Solver {
  import opened Options
  import opened Bdds
  import opened Words
  import opened Circuits
  import opened Expressions
  import opened Exactness
  import opened Compiler
  import opened Fields
  import opened Weights
  import opened Randomness
  import opened Sampling
  import opened Drawing

  /** A field that is initialised and known to the solver has its value. */
  predicate Fixed(layout: Layout, fixed: Valuation, x: Ext, s: Assignment) {
    x in layout && x in fixed ==> Val(layout[x].bits, s) == fixed[x]
  }

  /** The first `k` members that are initialised and known to the solver have their values. */
  ghost predicate Pins(layout: Layout, members: seq<Ext>, fixed: Valuation, k: nat, s: Assignment)
    requires k <= |members|
  {
    forall j: nat | j < k :: Fixed(layout, fixed, members[j], s)
  }

  /** `r` is `a` restricted to the first `k` pinned members. */
  ghost predicate Restricts(r: Bdd, a: Bdd, layout: Layout, members: seq<Ext>, fixed: Valuation, k: nat)
    requires k <= |members|
  {
    forall s: Assignment :: Eval(r, s) <==> Eval(a, s) && Pins(layout, members, fixed, k, s)
  }

  /** The pins leave no solution of `a`. */
  ghost predicate Conflict(a: Bdd, layout: Layout, members: seq<Ext>, fixed: Valuation) {
    members != [] && forall s: Assignment | Eval(a, s) :: !Pins(layout, members, fixed, |members|, s)
  }

  /** One more member, pinned or not. */
  lemma RestrictsStep(r: Bdd, a: Bdd, r': Bdd, layout: Layout, members: seq<Ext>, fixed: Valuation, k: nat)
    requires k < |members| && Restricts(r, a, layout, members, fixed, k)
    requires forall s: Assignment :: Eval(r', s) <==> Eval(r, s) && Fixed(layout, fixed, members[k], s)
    ensures Restricts(r', a, layout, members, fixed, k + 1)
  {
    forall s: Assignment ensures Eval(r', s) <==> Eval(a, s) && Pins(layout, members, fixed, k + 1, s) {
      assert Pins(layout, members, fixed, k + 1, s) <==> Pins(layout, members, fixed, k, s) && Fixed(layout, fixed, members[k], s);
    }
  }

  /** Pinning a member again changes nothing once all members are pinned. */
  lemma RestrictsAgain(r: Bdd, a: Bdd, r': Bdd, layout: Layout, members: seq<Ext>, fixed: Valuation, k: nat)
    requires k < |members| && Restricts(r, a, layout, members, fixed, |members|)
    requires forall s: Assignment :: Eval(r', s) <==> Eval(r, s) && Fixed(layout, fixed, members[k], s)
    ensures Restricts(r', a, layout, members, fixed, |members|)
  {
    forall s: Assignment ensures Eval(r', s) <==> Eval(a, s) && Pins(layout, members, fixed, |members|, s) {
    }
  }

  lemma PrefixConflict(r: Bdd, a: Bdd, layout: Layout, members: seq<Ext>, fixed: Valuation, k: nat)
    requires 0 < k <= |members| && Restricts(r, a, layout, members, fixed, k) && r == FALSE
    ensures Conflict(a, layout, members, fixed)
    ensures Restricts(r, a, layout, members, fixed, |members|)
  {
    forall s: Assignment ensures Eval(a, s) ==> !Pins(layout, members, fixed, |members|, s) {
      assert !Eval(FALSE, s);
      if Pins(layout, members, fixed, |members|, s) { assert Pins(layout, members, fixed, k, s); }
    }
  }

  lemma NoConflict(r: Bdd, a: Bdd, layout: Layout, members: seq<Ext>, fixed: Valuation)
    requires Restricts(r, a, layout, members, fixed, |members|) && (members == [] || r != FALSE)
    ensures !Conflict(a, layout, members, fixed)
  {
    if members != [] {
      ZeroIffUnsatisfiable(r);
      var s: Assignment :| Eval(r, s);
      assert Eval(a, s) && Pins(layout, members, fixed, |members|, s);
    }
  }

  class ConstraintObject {
    const layout: Layout
    const members: seq<Ext>
    const bh: Bdd
    const b: Bdd
    const columns: nat
    var fixed: Valuation
    var ignore: bool
    var record: Option<Bdd>

    ghost predicate Valid()
      reads this
    {
      && ValidLayout(layout)
      && forall x | x in fixed && x in layout :: fixed[x] < Pow2(VecSize(x))
    }

    /** What building the object guarantees: its fields are interleaved in `columns` columns, its
        diagrams are about them alone and have solutions. */
    ghost predicate Solvable()
      reads this
    {
      && Valid() && Interleaved(layout, Known(), columns)
      && bh != FALSE && b != FALSE && Confined(bh, layout, Known()) && Confined(b, layout, Known())
      && (record.Some? ==> record.value != FALSE && Confined(record.value, layout, Known()))
    }

    /** The members the solver knows. */
    ghost function Known(): set<Ext> {
      set x | x in members && x in layout
    }

    constructor (layout: Layout, members: seq<Ext>, columns: nat, bh: Bdd, b: Bdd)
      requires ValidLayout(layout)
      ensures Valid() && fixed == map[] && !ignore && record == None
      ensures this.layout == layout && this.members == members && this.columns == columns && this.bh == bh && this.b == b
      ensures GetBdd() == b
    {
      this.layout, this.members, this.columns, this.bh, this.b := layout, members, columns, bh, b;
      fixed, ignore, record := map[], false, None;
    }

    /** `get_bdd`. */
    function GetBdd(): Bdd
      reads this`ignore
    {
      if ignore then bh else b
    }

    /** The equality `simplifyField` conjoins for an initialised field. */
    method Pin(x: Ext) returns (p: Bdd)
      requires Valid() && x in layout && x in fixed
      ensures forall s: Assignment :: Eval(p, s) <==> Val(layout[x].bits, s) == fixed[x]
    {
      hide Eval, Canonical, Val, Pow2;
      var v := fixed[x];
      var constant :=
        match x.kind
        case SignedInteger => RepInt(ToSigned(x.width, v), x.width)
        case UnsignedInteger => RepUnsigned(v, x.width)
        case Boolean => RepBool(v != 0, x.width);
      var r := ExprEqual(RepVector(layout[x].bits, layout[x].signed), constant);
      forall s: Assignment ensures r.RepBdd? && (Denotation(r, s).holds <==> Val(layout[x].bits, s) == v) {
        PinnedConstant(x, v, Denotation(constant, s));
      }
      assert r.RepBdd? by { var none: Assignment := {}; assert Denotation(r, none).Truth?; }
      p := r.bdd;
    }

    /** `simplifyField`. */
    method SimplifyField(t1: Bdd, x: Ext) returns (r: Bdd)
      requires Valid()
      ensures forall s: Assignment :: Eval(r, s) <==> Eval(t1, s) && Fixed(layout, fixed, x, s)
    {
      hide Eval, Canonical, Val;
      if x in layout && x in fixed {
        var p := Pin(x);
        r := And(t1, p);
      } else {
        r := t1;
      }
    }

    /** `simplifyMember` of a scalar: on a conflict the soft constraints are dropped and the whole
        simplification restarts from the hard ones. */
    method SimplifyMember(k: nat, t1: Bdd) returns (r: Bdd, overConstraint: bool)
      requires Valid() && k < |members|
      modifies this`ignore
      ensures Valid()
      ensures
        if forall s: Assignment | Eval(t1, s) :: !Fixed(layout, fixed, members[k], s) then
          && ignore
          && (old(ignore) ==> overConstraint && r == FALSE)
          && (!old(ignore) ==> !overConstraint && Restricts(r, bh, layout, members, fixed, |members|))
        else
          ignore == old(ignore) && !overConstraint && forall s: Assignment :: Eval(r, s) <==> Eval(t1, s) && Fixed(layout, fixed, members[k], s)
      decreases if ignore then 0 else 1, 0
    {
      hide Eval, Canonical, Val, Restricts;
      r := SimplifyField(t1, members[k]);
      overConstraint := false;
      ZeroIffUnsatisfiable(r);
      if r == FALSE {
        forall s: Assignment | Eval(t1, s) ensures !Fixed(layout, fixed, members[k], s) { assert !Eval(r, s); }
        if !ignore {
          ignore := true;
          r := SimplifyConstraint(None);
        } else {
          overConstraint := true;
        }
      }
    }

    /** `simplifyConstraint`: the solutions of the active constraint that agree with every initialised
        field; when there are none, of the hard constraint alone, and the soft ones stay dropped. */
    method SimplifyConstraint(start: Option<Bdd>) returns (r: Bdd)
      requires Valid()
      modifies this`ignore
      ensures Valid()
      ensures var a := if start.Some? then start.value else old(GetBdd());
        && ignore == (old(ignore) || Conflict(a, layout, members, fixed))
        && Restricts(r, if ignore && !old(ignore) then bh else a, layout, members, fixed, |members|)
      decreases if ignore then 0 else 1, 1
    {
      hide Eval, Canonical, Val, Restricts, Conflict, Fixed;
      r := if start.Some? then start.value else GetBdd();
      ghost var a := r;
      var overConstraint := false;
      RestrictsNothing(a, layout, members, fixed);
      var k := 0;
      while k < |members| && !overConstraint
        invariant k <= |members| && Valid()
        invariant LoopState(r, a, bh, old(ignore), ignore, overConstraint, layout, members, fixed, k)
      {
        ghost var before, ignored := r, ignore;
        var r', over' := SimplifyMember(k, r);
        StepCases(before, a, bh, r', over', ignored, old(ignore), ignore, layout, members, fixed, k);
        r, overConstraint := r', over';
        k := k + 1;
      }
      FinalState(r, a, bh, old(ignore), ignore, overConstraint, layout, members, fixed, k);
    }

    /** `initMember` of a scalar: its bits become undecided. */
    method InitMember(m: Sampler, x: Ext)
      requires x in layout
      modifies m`valueIndex
      ensures Marked(m.valueIndex, old(m.valueIndex), FirstBits(layout[x], VecSize(x)))
    {
      hide Marked;
      var start, numvar := layout[x].start, layout[x].numvar;
      var msize: nat := VecSize(x);
      m.valueIndex := Grown(m.valueIndex, numvar * (msize - 1) + start);
      MarkedGrown(old(m.valueIndex), numvar * (msize - 1) + start);
      assert FirstBits(layout[x], 0) == {};
      for k := 0 to msize
        invariant |m.valueIndex| > numvar * (msize - 1) + start
        invariant Marked(m.valueIndex, old(m.valueIndex), FirstBits(layout[x], k))
      {
        IndexInRange(numvar, k, msize - 1);
        MarkOne(m.valueIndex, old(m.valueIndex), FirstBits(layout[x], k), numvar * k + start);
        FirstBitsStep(layout[x], k);
        m.valueIndex := m.valueIndex[numvar * k + start := 2];
      }
    }

    /** The loop over `initMember`. */
    method InitMembers(m: Sampler)
      requires Valid()
      modifies m`valueIndex
      ensures Undecided(m.valueIndex, layout, Known())
    {
      hide Marked, ValidLayout;
      ghost var marked: set<nat> := {};
      MarkedNothing(m.valueIndex);
      for i := 0 to |members|
        invariant Marked(m.valueIndex, old(m.valueIndex), marked)
        invariant forall x | x in members[..i] && x in layout :: FirstBits(layout[x], VecSize(x)) <= marked
      {
        assert members[..i + 1] == members[..i] + [members[i]];
        if members[i] in layout {
          ghost var before := m.valueIndex;
          InitMember(m, members[i]);
          MarkedTwice(old(m.valueIndex), before, m.valueIndex, marked, FirstBits(layout[members[i]], VecSize(members[i])));
          marked := marked + FirstBits(layout[members[i]], VecSize(members[i]));
        }
      }
      assert members[..|members|] == members;
      AllMarked(m.valueIndex, old(m.valueIndex), marked, layout, Known());
    }

    /** `assignValueMember` of a scalar: an uninitialised field the solver knows gets a value; in
        avoid-duplicate mode the result is the condition that it has that value. */
    method AssignValueMember(m: Sampler, x: Ext, avoidDuplicate: bool) returns (expr: Bdd)
      requires Valid()
      modifies this`fixed, m`randomnext, m`valueIndex, m.gen
      ensures Valid() && Records(m.valueIndex, old(m.valueIndex), map[])
      ensures x in layout && x !in old(fixed) ==>
                && x in fixed && fixed == old(fixed)[x := fixed[x]]
                && Respects(m.valueIndex, layout, x, fixed[x])
                && FieldFill(m.valueIndex, layout[x], VecSize(x), m.gen.draw, old(m.gen.pos)) == Filled(fixed[x], m.State())
                && (avoidDuplicate ==> forall s: Assignment :: Eval(expr, s) <==> Val(layout[x].bits, s) == fixed[x])
      ensures x !in layout || x in old(fixed) ==>
                fixed == old(fixed) && m.State() == old(m.State()) && forall s: Assignment :: Eval(expr, s)
    {
      hide Fill, Records, Canonical;
      expr := TRUE;
      RecordsNothing(m.valueIndex);
      if x in layout && x !in fixed {
        var value := m.SetValue(layout[x].start, layout[x].numvar, VecSize(x));
        ghost var r := Rand(m.gen.draw(old(m.gen.pos)) % WORD, old(m.gen.pos) + 1);
        FillBits(m.valueIndex, layout[x].start, layout[x].numvar, VecSize(x), r, m.gen.draw);
        FilledRespects(m.valueIndex, layout, x, value);
        fixed := fixed[x := value];
        if avoidDuplicate {
          expr := SimplifyField(expr, x);
        }
      }
    }

    /** The diagram a draw starts from: the record of unused solutions in avoid-duplicate mode when there
        is one, otherwise the constraint, simplified on request. */
    method ChooseDiagram(avoidDuplicate: bool, simplify: bool) returns (sb: Bdd)
      requires Valid()
      modifies this`ignore
      ensures Valid()
      ensures Chosen(sb, avoidDuplicate, simplify, record, old(GetBdd()), bh, old(ignore), ignore, layout, members, fixed)
    {
      hide Restricts, Conflict, Canonical;
      if avoidDuplicate && record.Some? {
        sb := record.value;
      } else if simplify {
        sb := SimplifyConstraint(None);
      } else {
        sb := GetBdd();
      }
    }

    /** The second loop of `assignRandomValue`. */
    method AssignMembers(m: Sampler, avoidDuplicate: bool) returns (expr: Bdd)
      requires Valid()
      modifies this`fixed, m`randomnext, m`valueIndex, m.gen
      ensures Valid() && Filling(old(m.valueIndex), layout, members, old(fixed), fixed)
      ensures FillMembers(old(m.valueIndex), layout, members, old(fixed), m.gen.draw, old(m.State())) == Valued(fixed, m.State())
      ensures avoidDuplicate ==> forall s: Assignment :: Eval(expr, s) <==> NewValues(layout, old(fixed), fixed, s)
    {
      hide Records, Canonical, Eval, Filling, NewValues, Respects, FillMembers, FieldFill;
      expr := TRUE;
      ghost var v, start := m.valueIndex, m.State();
      FillMembersStart(v, layout, members, fixed, m.gen.draw, start);
      FillingStart(v, layout, fixed);
      RecordsNothing(v);
      forall s: Assignment ensures Eval(expr, s) <==> NewValues(layout, fixed, fixed, s) { NothingNew(layout, fixed, s); TrueEverywhere(s); }
      for i := 0 to |members|
        invariant Valid() && Records(m.valueIndex, v, map[])
        invariant Filling(v, layout, members[..i], old(fixed), fixed)
        invariant FillMembers(v, layout, members[..i], old(fixed), m.gen.draw, start) == Valued(fixed, m.State())
        invariant avoidDuplicate ==> forall s: Assignment :: Eval(expr, s) <==> NewValues(layout, old(fixed), fixed, s)
      {
        ghost var before, valuesBefore, pos := fixed, m.valueIndex, m.gen.pos;
        var x := members[i];
        var tmp := AssignValueMember(m, x, avoidDuplicate);
        FillMembersStep(v, layout, members, i, old(fixed), m.gen.draw, start);
        RecordsAgain(valuesBefore, m.valueIndex, v);
        assert members[..i + 1] == members[..i] + [x];
        if x in layout && x !in before {
          FieldFillSame(v, m.valueIndex, layout[x], VecSize(x), m.gen.draw, pos);
          RespectsSame(v, m.valueIndex, layout, x, fixed[x]);
          FillingKeys(v, layout, members[..i], old(fixed), before);
          FillingDraw(v, layout, members[..i], old(fixed), before, x, fixed[x]);
          if avoidDuplicate {
            forall s: Assignment ensures Eval(And(expr, tmp), s) <==> NewValues(layout, old(fixed), fixed, s) {
              NewValuesStep(layout, old(fixed), before, x, fixed[x], s);
            }
          }
        } else {
          FillingSkip(v, layout, members[..i], old(fixed), before, x);
        }
        if avoidDuplicate {
          expr := And(expr, tmp);
        }
      }
      assert members[..|members|] == members;
    }

    /** What is left of the diagram after a draw; no record when nothing is left. */
    method UpdateRecord(sb: Bdd, expr: Bdd)
      modifies this`record
      ensures Remainder(record, sb, expr)
    {
      hide Eval, Canonical;
      var rest := And(sb, Not(expr));
      ZeroIffUnsatisfiable(rest);
      if rest == FALSE {
        forall s: Assignment | Eval(sb, s) ensures Eval(expr, s) { assert !Eval(rest, s); }
        record := None;
      } else {
        ghost var s: Assignment :| Eval(rest, s);
        assert Eval(sb, s) && !Eval(expr, s);
        record := Some(rest);
      }
    }

    /** `assignRandomValue` of a constraint object: from a satisfiable diagram that respects the
        initialised fields it leaves a solution in the fields, whatever the tables and the random words;
        the record then holds exactly the other solutions. */
    method AssignRandomValue(m: Sampler, shares: map<Edge, nat>, avoidDuplicate: bool, simplify: bool)
      returns (ghost sb: Bdd)
      requires Solvable()
      modifies this`fixed, this`ignore, this`record, m`randomnext, m`valueIndex, m.gen
      ensures Solvable() && fixed.Keys == old(fixed).Keys + Known()
      ensures forall x | x in old(fixed) :: fixed[x] == old(fixed)[x]
      ensures Chosen(sb, avoidDuplicate, simplify, old(record), old(GetBdd()), bh, old(ignore), ignore, layout, members, old(fixed))
      ensures Outcome(sb, shares, m.gen.draw, old(m.State()), layout, members, Known(), old(fixed), fixed, m.State())
      ensures sb != FALSE && Pinned(sb, layout, members, old(fixed)) ==> Eval(sb, Encode(layout, Known(), fixed))
      ensures !avoidDuplicate ==> record == old(record)
      ensures avoidDuplicate ==> RecordAfter(record, sb, layout, old(fixed), fixed)
    {
      hide Records, Canonical, Eval, Filling, NewValues, Respects, Chosen, Pinned, Undecided, Confined, ValidLayout, Interleaved, Restricts, Conflict, Pins, Outcome, FillMembers, Walk;
      ghost var fixed0, active := fixed, GetBdd();
      InitMembers(m);
      var d := ChooseDiagram(avoidDuplicate, simplify);
      sb := d;
      ghost var v1, start := m.valueIndex, m.State();
      DiagramCanonical(d);
      m.GetVectorFromBdd(d, shares);
      ghost var v := m.valueIndex;
      var expr := AssignMembers(m, avoidDuplicate);
      OutcomeOf(v, v1, d, shares, m.gen.draw, start, layout, members, Known(), fixed0, fixed, m.State());
      FillingResult(v, layout, members, fixed0, fixed);
      KnownMembers();
      ChosenConfined(sb, avoidDuplicate, simplify, record, active, bh, old(ignore), ignore, layout, members, fixed0);
      if sb != FALSE && Pinned(sb, layout, members, fixed0) {
        WalkSolves(sb, layout, members, Known(), columns, shares, m.gen.draw, start, v, v1, fixed0, fixed);
      }
      if avoidDuplicate {
        UpdateRecord(d, expr);
        RecordFollows(record, sb, expr, layout, fixed0, fixed);
        RecordConfined(record, sb, layout, fixed0, fixed, Known());
      }
    }

    /** `next`: uninitialise every member and draw. No field is pinned, so nothing is ever dropped; each
        draw is a solution, and in avoid-duplicate mode it is taken out of the record. */
    method Next(m: Sampler, shares: map<Edge, nat>, avoidDuplicate: bool)
      requires Solvable()
      modifies this`fixed, this`ignore, this`record, m`randomnext, m`valueIndex, m.gen
      ensures Solvable() && ignore == old(ignore) && InWidth(Known(), fixed)
      ensures if avoidDuplicate then AvoidStep(GetBdd(), layout, Known(), old(record), fixed, record)
              else record == old(record) && Eval(GetBdd(), Encode(layout, Known(), fixed))
      ensures Outcome(if avoidDuplicate && old(record).Some? then old(record).value else GetBdd(), shares, m.gen.draw, old(m.State()),
                      layout, members, Known(), old(fixed) - (set x | x in members), fixed, m.State())
    {
      hide Canonical, Eval, RecordAfter, AvoidStep, Confined, Interleaved, Encode, Outcome;
      fixed := fixed - (set x | x in members);
      ghost var fixed0, record0, active := fixed, record, GetBdd();
      ghost var sb := AssignRandomValue(m, shares, avoidDuplicate, true);
      KnownMembers();
      Unpinned(sb, avoidDuplicate, record0, active, bh, old(ignore), ignore, layout, members, fixed0);
      if avoidDuplicate {
        DrawnStep(active, sb, layout, Known(), record0, fixed0, fixed, record);
      }
    }

    lemma KnownMembers()
      ensures Known() == set x | x in members && x in layout
    {
    }
  }

  /** One draw in avoid-duplicate mode: the values come from the recorded diagram, or from the constraint
      when nothing is recorded, and exactly the solutions with other values stay recorded. */
  ghost predicate AvoidStep(b: Bdd, layout: Layout, xs: set<Ext>, record: Option<Bdd>, drawn: Valuation, record': Option<Bdd>) {
    var t := if record.Some? then record.value else b;
    && InWidth(xs, drawn) && Eval(t, Encode(layout, xs, drawn))
    && match record'
       case None => forall s: Assignment | Eval(t, s) :: HasValues(layout, xs, drawn, s)
       case Some(t') => t' != FALSE && forall s: Assignment :: Eval(t', s) <==> Eval(t, s) && !HasValues(layout, xs, drawn, s)
  }

  ghost predicate HasValues(layout: Layout, xs: set<Ext>, drawn: Valuation, s: Assignment) {
    forall x | x in xs && x in layout :: Val(layout[x].bits, s) == Lookup(drawn, x)
  }

  /** With no member initialised the simplification changes nothing. */
  lemma Unpinned(sb: Bdd, avoidDuplicate: bool, record: Option<Bdd>, active: Bdd, bh: Bdd,
                 ignore0: bool, ignore: bool, layout: Layout, members: seq<Ext>, fixed: Valuation)
    requires Chosen(sb, avoidDuplicate, true, record, active, bh, ignore0, ignore, layout, members, fixed)
    requires forall x | x in members :: x !in fixed
    requires active != FALSE
    ensures ignore == ignore0 && Pinned(sb, layout, members, fixed)
    ensures sb == if avoidDuplicate && record.Some? then record.value else active
  {
    hide Canonical, Val;
    forall s: Assignment ensures Pins(layout, members, fixed, |members|, s) {}
    if !(avoidDuplicate && record.Some?) {
      ZeroIffUnsatisfiable(active);
      Canonicity(sb, active);
    }
  }

  lemma DrawnStep(b: Bdd, sb: Bdd, layout: Layout, xs: set<Ext>, record: Option<Bdd>, fixed0: Valuation, fixed: Valuation, record': Option<Bdd>)
    requires sb == if record.Some? then record.value else b
    requires forall x | x in xs :: x !in fixed0
    requires fixed.Keys == fixed0.Keys + xs && xs <= layout.Keys && InWidth(xs, fixed) && Eval(sb, Encode(layout, xs, fixed))
    requires RecordAfter(record', sb, layout, fixed0, fixed)
    ensures AvoidStep(b, layout, xs, record, fixed, record')
  {
    hide Canonical, Eval, Val, Encode, InWidth;
    forall s: Assignment ensures HasValues(layout, xs, fixed, s) <==> NewValues(layout, fixed0, fixed, s) {
    }
  }

  lemma FillMembersStart(v: seq<nat>, layout: Layout, members: seq<Ext>, fixed: Valuation, draw: nat -> nat, r: Rand)
    ensures FillMembers(v, layout, members[..0], fixed, draw, r) == Valued(fixed, r)
  {
  }

  lemma TrueEverywhere(s: Assignment)
    ensures Eval(TRUE, s)
  {
  }

  lemma DiagramCanonical(d: Bdd)
    ensures Canonical(d, 0)
  {
  }

  /** The diagram a draw starts from. */
  ghost predicate Chosen(sb: Bdd, avoidDuplicate: bool, simplify: bool, record: Option<Bdd>, active: Bdd, bh: Bdd,
                         ignore0: bool, ignore: bool, layout: Layout, members: seq<Ext>, fixed: Valuation) {
    if avoidDuplicate && record.Some? then
      sb == record.value && ignore == ignore0
    else if simplify then
      && ignore == (ignore0 || Conflict(active, layout, members, fixed))
      && Restricts(sb, if ignore && !ignore0 then bh else active, layout, members, fixed, |members|)
    else
      sb == active && ignore == ignore0
  }

  /** Every solution of the diagram has the initialised fields' values. */
  ghost predicate Pinned(sb: Bdd, layout: Layout, members: seq<Ext>, fixed: Valuation) {
    forall s: Assignment | Eval(sb, s) :: Pins(layout, members, fixed, |members|, s)
  }

  /** The record after a draw: the solutions with other values; none when there are no others. */
  ghost predicate RecordAfter(record: Option<Bdd>, sb: Bdd, layout: Layout, fixed0: Valuation, fixed: Valuation) {
    match record
    case None => forall s: Assignment | Eval(sb, s) :: NewValues(layout, fixed0, fixed, s)
    case Some(t) => t != FALSE && forall s: Assignment :: Eval(t, s) <==> Eval(sb, s) && !NewValues(layout, fixed0, fixed, s)
  }

  /** The solutions of `sb` that `expr` excludes not; none is kept as no record. */
  ghost predicate Remainder(record: Option<Bdd>, sb: Bdd, expr: Bdd) {
    match record
    case None => forall s: Assignment | Eval(sb, s) :: Eval(expr, s)
    case Some(t) => t != FALSE && forall s: Assignment :: Eval(t, s) <==> Eval(sb, s) && !Eval(expr, s)
  }

  lemma RecordFollows(record: Option<Bdd>, sb: Bdd, expr: Bdd, layout: Layout, fixed0: Valuation, fixed: Valuation)
    requires forall s: Assignment :: Eval(expr, s) <==> NewValues(layout, fixed0, fixed, s)
    requires Remainder(record, sb, expr)
    ensures RecordAfter(record, sb, layout, fixed0, fixed)
  {
    hide Eval, Canonical, NewValues;
  }

  /** Restricting to field values keeps a diagram confined to the fields. */
  lemma RestrictedConfined(r: Bdd, a: Bdd, layout: Layout, members: seq<Ext>, fixed: Valuation, xs: set<Ext>)
    requires ValidLayout(layout) && Confined(a, layout, xs) && xs == set x | x in members && x in layout
    requires Restricts(r, a, layout, members, fixed, |members|)
    ensures Confined(r, layout, xs)
  {
    hide Eval, Canonical, Val, ValidLayout;
    forall s: Assignment | Eval(r, s) ensures Eval(r, s * FieldBits(layout, xs)) {
      forall j: nat | j < |members| ensures Fixed(layout, fixed, members[j], s * FieldBits(layout, xs)) {
        assert Fixed(layout, fixed, members[j], s);
        if members[j] in layout { ValueOnFieldBits(layout, xs, members[j], s); }
      }
    }
  }

  lemma RecordConfined(record: Option<Bdd>, sb: Bdd, layout: Layout, fixed0: Valuation, fixed: Valuation, xs: set<Ext>)
    requires ValidLayout(layout) && Confined(sb, layout, xs) && RecordAfter(record, sb, layout, fixed0, fixed)
    requires fixed.Keys == fixed0.Keys + xs
    ensures record.Some? ==> record.value != FALSE && Confined(record.value, layout, xs)
  {
    hide Eval, Canonical, Val, ValidLayout;
    if record.Some? {
      forall s: Assignment | Eval(record.value, s) ensures Eval(record.value, s * FieldBits(layout, xs)) {
        forall x | x in xs && x in layout ensures Val(layout[x].bits, s * FieldBits(layout, xs)) == Val(layout[x].bits, s) {
          ValueOnFieldBits(layout, xs, x, s);
        }
      }
    }
  }

  lemma ChosenConfined(sb: Bdd, avoidDuplicate: bool, simplify: bool, record: Option<Bdd>, active: Bdd, bh: Bdd,
                       ignore0: bool, ignore: bool, layout: Layout, members: seq<Ext>, fixed: Valuation)
    requires ValidLayout(layout)
    requires Chosen(sb, avoidDuplicate, simplify, record, active, bh, ignore0, ignore, layout, members, fixed)
    requires var xs := set x | x in members && x in layout;
             Confined(active, layout, xs) && Confined(bh, layout, xs) && (record.Some? ==> Confined(record.value, layout, xs))
    ensures Confined(sb, layout, set x | x in members && x in layout)
  {
    hide Eval, Canonical, Val, ValidLayout, Confined, Restricts, Conflict;
    if !(avoidDuplicate && record.Some?) && simplify {
      RestrictedConfined(sb, if ignore && !ignore0 then bh else active, layout, members, fixed, set x | x in members && x in layout);
    }
  }

  /** The fields after the walk and the fills hold a solution of the diagram. */
  lemma WalkSolves(sb: Bdd, layout: Layout, members: seq<Ext>, xs: set<Ext>, n: nat, shares: map<Edge, nat>, draw: nat -> nat,
                   start: Rand, v: seq<nat>, v1: seq<nat>, fixed0: Valuation, fixed: Valuation)
    requires ValidLayout(layout) && Interleaved(layout, xs, n) && xs == set x | x in members && x in layout
    requires sb != FALSE && Confined(sb, layout, xs) && Pinned(sb, layout, members, fixed0)
    requires Undecided(v1, layout, xs) && Records(v, v1, Walk(sb, shares, draw, start).bits)
    requires Filling(v, layout, members, fixed0, fixed)
    ensures Eval(sb, Encode(layout, xs, fixed))
  {
    hide Canonical, Val, ValidLayout, Confined, Undecided, Records, Respects, Interleaved, Walk, Encode;
    var bits := Walk(sb, shares, draw, start).bits;
    forall s: Assignment | Follows(s, bits) ensures Eval(sb, s) {
      DiagramCanonical(sb);
      WalkSound(sb, 0, shares, draw, start, s);
    }
    forall x, s: Assignment | x in xs && x in fixed0 && Eval(sb, s) ensures Val(layout[x].bits, s) == fixed0[x] {
      var j :| 0 <= j < |members| && members[j] == x;
      assert Fixed(layout, fixed0, members[j], s);
    }
    DrawIsSolution(sb, layout, xs, n, bits, v, v1, fixed0, fixed);
  }

  /** The states of the loop of `simplifyConstraint` before member `k`. */
  ghost predicate LoopState(r: Bdd, a: Bdd, bh: Bdd, ignore0: bool, ignore: bool, over: bool,
                            layout: Layout, members: seq<Ext>, fixed: Valuation, k: nat)
    requires k <= |members|
  {
    || (ignore == ignore0 && !over && Restricts(r, a, layout, members, fixed, k) && (k == 0 || r != FALSE))
    || (!ignore0 && ignore && Conflict(a, layout, members, fixed) && Restricts(r, bh, layout, members, fixed, |members|))
    || (ignore0 && ignore && over && Conflict(a, layout, members, fixed) && Restricts(r, a, layout, members, fixed, |members|))
  }

  lemma StepCases(r: Bdd, a: Bdd, bh: Bdd, r': Bdd, over': bool, ignored: bool, ignore0: bool, ignore: bool,
                  layout: Layout, members: seq<Ext>, fixed: Valuation, k: nat)
    requires k < |members| && LoopState(r, a, bh, ignore0, ignored, false, layout, members, fixed, k)
    requires
      if forall s: Assignment | Eval(r, s) :: !Fixed(layout, fixed, members[k], s) then
        && ignore
        && (ignored ==> over' && r' == FALSE)
        && (!ignored ==> !over' && Restricts(r', bh, layout, members, fixed, |members|))
      else
        ignore == ignored && !over' && forall s: Assignment :: Eval(r', s) <==> Eval(r, s) && Fixed(layout, fixed, members[k], s)
    ensures LoopState(r', a, bh, ignore0, ignore, over', layout, members, fixed, k + 1)
  {
    hide Canonical, Val, Fixed, Pins;
    var dead := forall s: Assignment | Eval(r, s) :: !Fixed(layout, fixed, members[k], s);
    if dead { assert forall s: Assignment :: !Eval(FALSE, s); }
    if ignored == ignore0 && Restricts(r, a, layout, members, fixed, k) {
      if dead {
        RestrictsStep(r, a, FALSE, layout, members, fixed, k);
        PrefixConflict(FALSE, a, layout, members, fixed, k + 1);
      } else {
        RestrictsStep(r, a, r', layout, members, fixed, k);
        ZeroIffUnsatisfiable(r');
      }
    } else {
      assert ignored && !ignore0;
      RestrictsAgain(r, bh, if dead then FALSE else r', layout, members, fixed, k);
    }
  }

  lemma FinalState(r: Bdd, a: Bdd, bh: Bdd, ignore0: bool, ignore: bool, over: bool,
                   layout: Layout, members: seq<Ext>, fixed: Valuation, k: nat)
    requires k <= |members| && LoopState(r, a, bh, ignore0, ignore, over, layout, members, fixed, k)
    requires over || k == |members|
    ensures ignore == (ignore0 || Conflict(a, layout, members, fixed))
    ensures Restricts(r, if ignore && !ignore0 then bh else a, layout, members, fixed, |members|)
  {
    hide Canonical, Eval, Val, Fixed, Pins, Restricts, Conflict;
    if ignore == ignore0 && !over && Restricts(r, a, layout, members, fixed, k) && (k == 0 || r != FALSE) {
      NoConflict(r, a, layout, members, fixed);
    }
  }

  lemma RestrictsNothing(a: Bdd, layout: Layout, members: seq<Ext>, fixed: Valuation)
    ensures Restricts(a, a, layout, members, fixed, 0)
  {
  }

  lemma PinnedConstant(x: Ext, v: nat, c: Word)
    requires v < Pow2(VecSize(x))
    requires c == match x.kind
      case SignedInteger => IntWord(ToSigned(x.width, v), x.width)
      case UnsignedInteger => UnsignedWord(v, x.width)
      case Boolean => BoolWord(v != 0, x.width)
    ensures ConstantWord(c, VecSize(x)).v == v
  {
    hide LowPart, ConstantValue, BitOf;
    Pow2Monotone(1, x.width);
    match x.kind
    case SignedInteger =>
      var i := ToSigned(x.width, v);
      ConstantRepresentsAt(c, Number(i), VecSize(x));
      if i < 0 { LowPartNegative(i, x.width); }
    case UnsignedInteger => ConstantRepresentsAt(c, Number(v), VecSize(x));
    case Boolean =>
      assert Pow2(1) == 2;
      if x.width >= 2 {
        ConstantRepresentsAt(c, Number(v), VecSize(x));
      } else {
        ConstantValueOne(v);
      }
  }

  lemma ConstantValueOne(v: nat)
    requires v < 2
    ensures ConstantValue(v, 1, 1, true) == v
  {
    assert Pow2(1) == 2;
    LowPartSmall(v, 1);
  }
}

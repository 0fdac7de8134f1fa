/** Which draws give a solution, and how many: `next` leaves the values of a solution under as many of the word
    sequences it may use as the chance of the solution says. */
module DrawCounts {
  import opened Options
  import opened Bdds
  import opened Words
  import opened Randomness
  import opened WordCounts
  import opened Counting
  import opened Weights
  import opened Sampling
  import opened Circuits
  import opened Expressions
  import opened Compiler
  import opened Fields
  import opened Uniformity
  import opened Extraction
  import opened Drawing
  import opened Solver
  import opened Runs
  import opened FieldCounts
  import opened Chances
  import opened Fairness
  import opened Outcomes

  // ---------------------------------------------------------------- the bits of one field

  predicate Odd(r: Rand) { r.randomnext % 2 == 1 }

  lemma {:induction false} AfterBitsFront(r: Rand, draw: nat -> nat, k: nat)
    ensures AfterBits(r, draw, k + 1) == AfterBits(StepBit(r, draw), draw, k)
  {
    if k > 0 { AfterBitsFront(r, draw, k - 1); }
  }

  /** The bits taken from the stream are `p`. */
  ghost predicate Matches(p: seq<bool>, r: Rand, draw: nat -> nat) {
    forall i: nat | i < |p| :: Odd(AfterBits(r, draw, i + 1)) == p[i]
  }

  lemma {:induction false} BitsRunIff(p: seq<bool>, r: Rand, draw: nat -> nat)
    ensures BitsRun(p, r, draw).Some? <==> Matches(p, r, draw)
    ensures BitsRun(p, r, draw).Some? ==> BitsRun(p, r, draw).value == AfterBits(r, draw, |p|).pos
  {
    if p != [] {
      var r' := StepBit(r, draw);
      BitsRunIff(p[1..], r', draw);
      AfterBitsFront(r, draw, |p| - 1);
      MatchesFront(p, r, draw);
    }
  }

  lemma MatchesFront(p: seq<bool>, r: Rand, draw: nat -> nat)
    requires p != []
    ensures Matches(p, r, draw) <==> Odd(StepBit(r, draw)) == p[0] && Matches(p[1..], StepBit(r, draw), draw)
  {
    hide Odd, StepBit;
    AfterBitsFront(r, draw, 0);
    if Matches(p, r, draw) {
      assert Odd(AfterBits(r, draw, 0 + 1)) == p[0];
      forall i: nat | i < |p[1..]| ensures Odd(AfterBits(StepBit(r, draw), draw, i + 1)) == p[1..][i] {
        AfterBitsFront(r, draw, i + 1);
        assert Odd(AfterBits(r, draw, (i + 1) + 1)) == p[i + 1];
      }
    }
    if Odd(StepBit(r, draw)) == p[0] && Matches(p[1..], StepBit(r, draw), draw) {
      forall i: nat | i < |p| ensures Odd(AfterBits(r, draw, i + 1)) == p[i] {
        AfterBitsFront(r, draw, i);
        if i > 0 { assert Odd(AfterBits(StepBit(r, draw), draw, (i - 1) + 1)) == p[1..][i - 1]; }
      }
    }
  }

  /** The vector has 2 at the bits of a field that were not tested. */
  ghost predicate OpenAt(v: seq<nat>, r: Record, tested: set<nat>, k: nat) {
    forall j: nat | j < k :: Entry(v, BitIndex(r, j)) == 2 <==> BitIndex(r, j) !in tested
  }

  /** A value has the bits of `s` where the field was left open. */
  ghost predicate OpenBits(r: Record, s: Assignment, tested: set<nat>, k: nat, value: nat) {
    forall j: nat | j < k && BitIndex(r, j) !in tested :: BitOf(value, j) <==> BitIndex(r, j) in s
  }

  ghost predicate StreamBits(v: seq<nat>, r: Record, s: Assignment, tested: set<nat>, k: nat, w: Rand, draw: nat -> nat) {
    forall j: nat | j < k && BitIndex(r, j) !in tested ::
      Odd(AfterBits(w, draw, UndecidedBelow(v, r.start, r.numvar, j) + 1)) <==> BitIndex(r, j) in s
  }

  lemma {:induction false} PatternMatches(v: seq<nat>, r: Record, s: Assignment, tested: set<nat>, k: nat, w: Rand, draw: nat -> nat)
    requires OpenAt(v, r, tested, k)
    ensures |Pattern(r, s, tested, k)| == UndecidedBelow(v, r.start, r.numvar, k)
    ensures Matches(Pattern(r, s, tested, k), w, draw) <==> StreamBits(v, r, s, tested, k, w, draw)
  {
    if k > 0 {
      OneMoreOpen(v, r, s, tested, k);
      StreamBitsSnoc(v, r, s, tested, k, w, draw);
      MatchesSnoc(Pattern(r, s, tested, k - 1), BitIndex(r, k - 1) in s, w, draw);
      hide *;
      PatternMatches(v, r, s, tested, k - 1, w, draw);
    } else {
      hide Odd, AfterBits;
    }
  }

  lemma OneMoreOpen(v: seq<nat>, r: Record, s: Assignment, tested: set<nat>, k: nat)
    requires OpenAt(v, r, tested, k) && k > 0
    ensures OpenAt(v, r, tested, k - 1)
    ensures var i := BitIndex(r, k - 1);
            if i in tested then
              && Pattern(r, s, tested, k) == Pattern(r, s, tested, k - 1)
              && UndecidedBelow(v, r.start, r.numvar, k) == UndecidedBelow(v, r.start, r.numvar, k - 1)
            else
              && Pattern(r, s, tested, k) == Pattern(r, s, tested, k - 1) + [i in s]
              && UndecidedBelow(v, r.start, r.numvar, k) == UndecidedBelow(v, r.start, r.numvar, k - 1) + 1
  {
    assert Entry(v, BitIndex(r, k - 1)) == 2 <==> BitIndex(r, k - 1) !in tested;
    hide Entry;
  }

  lemma MatchesSnoc(p: seq<bool>, b: bool, w: Rand, draw: nat -> nat)
    ensures Matches(p + [b], w, draw) <==> Matches(p, w, draw) && Odd(AfterBits(w, draw, |p| + 1)) == b
  {
    hide Odd, AfterBits;
    if Matches(p + [b], w, draw) {
      forall i: nat | i < |p| ensures Odd(AfterBits(w, draw, i + 1)) == p[i] { assert (p + [b])[i] == p[i]; }
      assert (p + [b])[|p|] == b;
    }
  }

  lemma StreamBitsSnoc(v: seq<nat>, r: Record, s: Assignment, tested: set<nat>, k: nat, w: Rand, draw: nat -> nat)
    requires k > 0
    ensures StreamBits(v, r, s, tested, k, w, draw)
       <==> StreamBits(v, r, s, tested, k - 1, w, draw)
            && (BitIndex(r, k - 1) !in tested ==> (Odd(AfterBits(w, draw, UndecidedBelow(v, r.start, r.numvar, k - 1) + 1)) <==> BitIndex(r, k - 1) in s))
  {
    hide Odd, AfterBits, UndecidedBelow, BitIndex;
  }

  /** A field gets the values of `s` at its open bits exactly when the stream runs that way, and ends where the
      run ends. */
  lemma FieldMatches(v: seq<nat>, r: Record, s: Assignment, tested: set<nat>, k: nat, draw: nat -> nat, pos: nat)
    requires OpenAt(v, r, tested, k)
    ensures var f, end := FieldFill(v, r, k, draw, pos), FieldRun(Pattern(r, s, tested, k), draw, pos);
            (end.Some? <==> OpenBits(r, s, tested, k, f.value)) && (end.Some? ==> end.value == f.last.pos)
  {
    var w := Rand(draw(pos) % WORD, pos + 1);
    var p := Pattern(r, s, tested, k);
    BitsRunIff(p, w, draw);
    PatternMatches(v, r, s, tested, k, w, draw);
    FillLeaves(v, r.start, r.numvar, k, w, draw);
    var value := FieldFill(v, r, k, draw, pos).value;
    forall j: nat | j < k && BitIndex(r, j) !in tested
      ensures BitOf(value, j) <==> Odd(AfterBits(w, draw, UndecidedBelow(v, r.start, r.numvar, j) + 1))
    {
      assert Entry(v, r.numvar * j + r.start) == 2;
      FillTakesBits(v, r.start, r.numvar, k, w, draw, j);
    }
    hide Fill, AfterBits, BitsRun, Matches, UndecidedBelow, Pattern, BitOf;
  }

  // ---------------------------------------------------------------- all fields

  /** The fields filled so far have the values of `s` at their open bits. */
  ghost predicate AllOpenBits(layout: Layout, members: seq<Ext>, s: Assignment, tested: set<nat>, fixed: Valuation) {
    forall x | x in members && x in layout :: x in fixed && OpenBits(layout[x], s, tested, VecSize(x), fixed[x])
  }

  /** They have the recorded bits elsewhere. */
  ghost predicate AllRecorded(v: seq<nat>, layout: Layout, members: seq<Ext>, fixed: Valuation) {
    forall x | x in members && x in layout :: x in fixed && Respects(v, layout, x, fixed[x])
  }

  ghost predicate AllOpenAt(v: seq<nat>, layout: Layout, members: seq<Ext>, tested: set<nat>) {
    forall x | x in members && x in layout :: OpenAt(v, layout[x], tested, VecSize(x))
  }

  lemma {:induction false} FilledKeys(v: seq<nat>, layout: Layout, members: seq<Ext>, fixed0: Valuation, draw: nat -> nat, r: Rand)
    ensures FillMembers(v, layout, members, fixed0, draw, r).fixed.Keys == fixed0.Keys + set x | x in members && x in layout
  {
    if members != [] {
      FilledKeys(v, layout, members[..|members| - 1], fixed0, draw, r);
      assert members == members[..|members| - 1] + [members[|members| - 1]];
    }
  }

  lemma {:induction false} FilledRecorded(v: seq<nat>, layout: Layout, members: seq<Ext>, fixed0: Valuation, draw: nat -> nat, r: Rand)
    requires ValidLayout(layout) && NoRepeats(members) && forall x | x in members :: x !in fixed0
    ensures AllRecorded(v, layout, members, FillMembers(v, layout, members, fixed0, draw, r).fixed)
  {
    if members != [] {
      var init, x := members[..|members| - 1], members[|members| - 1];
      FilledRecorded(v, layout, init, fixed0, draw, r);
      FilledKeys(v, layout, init, fixed0, draw, r);
      LastIsNew(members);
      var d := FillMembers(v, layout, init, fixed0, draw, r);
      if x in layout {
        FieldRecorded(v, layout, x, draw, d.last.pos);
      }
      hide FieldFill, Respects, ValidLayout;
    }
  }

  lemma LastIsNew(members: seq<Ext>)
    requires NoRepeats(members) && members != []
    ensures var init, x := members[..|members| - 1], members[|members| - 1];
            NoRepeats(init) && x !in init && (forall y :: y in members <==> y in init || y == x)
  {
    var init, x := members[..|members| - 1], members[|members| - 1];
    assert members == init + [x];
  }

  lemma FieldRecorded(v: seq<nat>, layout: Layout, x: Ext, draw: nat -> nat, pos: nat)
    requires ValidLayout(layout) && x in layout
    ensures Respects(v, layout, x, FieldFill(v, layout[x], VecSize(x), draw, pos).value)
  {
    FillBits(v, layout[x].start, layout[x].numvar, VecSize(x), Rand(draw(pos) % WORD, pos + 1), draw);
    FilledRespects(v, layout, x, FieldFill(v, layout[x], VecSize(x), draw, pos).value);
  }

  /** The fields get the values of `s` at their open bits exactly when the stream runs that way. */
  lemma {:induction false} MembersMatch(v: seq<nat>, layout: Layout, members: seq<Ext>, s: Assignment, tested: set<nat>,
                                        fixed0: Valuation, draw: nat -> nat, r: Rand)
    requires NoRepeats(members) && AllOpenAt(v, layout, members, tested) && forall x | x in members :: x !in fixed0
    ensures var d, end := FillMembers(v, layout, members, fixed0, draw, r), MembersRun(layout, members, s, tested, draw, r.pos);
            (end.Some? <==> AllOpenBits(layout, members, s, tested, d.fixed)) && (end.Some? ==> end.value == d.last.pos)
  {
    if members != [] {
      var init, x := members[..|members| - 1], members[|members| - 1];
      LastIsNew(members);
      MembersMatch(v, layout, init, s, tested, fixed0, draw, r);
      FilledKeys(v, layout, init, fixed0, draw, r);
      var d := FillMembers(v, layout, init, fixed0, draw, r);
      if x in layout {
        FieldMatches(v, layout[x], s, tested, VecSize(x), draw, d.last.pos);
      }
      hide FieldFill, FieldRun, OpenBits, OpenAt, Pattern;
    }
  }

  // ---------------------------------------------------------------- one draw

  /** Where a draw that leaves the values of `s` leaves the stream. */
  ghost function DrawRun(t: Edge, shares: map<Edge, nat>, layout: Layout, members: seq<Ext>, s: Assignment, draw: nat -> nat, r: Rand): Option<nat> {
    var end := WalkRun(t, shares, s, draw, r);
    if end.Some? then MembersRun(layout, members, s, Tested(t, s), draw, end.value) else None
  }

  /** The walk meets the variables tested on the way of an assignment that follows it. */
  lemma {:induction false} WalkTests(e: Edge, lo: nat, shares: map<Edge, nat>, draw: nat -> nat, r: Rand, s: Assignment)
    requires Canonical(e, lo) && e != FALSE && Follows(s, Walk(e, shares, draw, r).bits)
    ensures Walk(e, shares, draw, r).bits.Keys == Tested(e, s)
    decreases e.node
  {
    if e.node.Branch? {
      var forced := ElseOf(e) == FALSE || ThenOf(e) == FALSE;
      var r' := if forced then r else Step16(r, draw);
      var taken := if forced then ElseOf(e) == FALSE else !TakesElse(Threshold(e, shares), r'.randomnext);
      var child := if taken then ThenOf(e) else ElseOf(e);
      Branches(e, lo, 0);
      WalkPrepends(e, lo, shares, draw, r, r', taken);
      WalkAbove(child, e.node.index + 1, shares, draw, r');
      FollowsPrepend(s, Walk(child, shares, draw, r').bits, e.node.index, taken);
      assert e.node.index in Walk(e, shares, draw, r).bits;
      WalkTests(child, e.node.index + 1, shares, draw, r', s);
      hide Canonical, Walk, Step16, TakesElse, Threshold, Follows;
    }
  }

  /** Every assignment that follows the walk is one, for instance the variables it turns on. */
  function TurnedOn(bits: map<nat, bool>): Assignment {
    set i | i in bits && bits[i]
  }

  /** The walk turns on field bits only. */
  lemma OffOutside(t: Bdd, shares: map<Edge, nat>, draw: nat -> nat, r: Rand, layout: Layout, members: seq<Ext>, xs: set<Ext>, columns: nat, n: nat, i: nat)
    requires Complete(t, layout, members, xs, columns, n)
    requires var bits := Walk(t, shares, draw, r).bits; i in bits && bits[i]
    ensures i in FieldBits(layout, xs)
  {
    CompleteFacts(t, layout, members, xs, columns, n);
    var bits := Walk(t, shares, draw, r).bits;
    var s := TurnedOn(bits);
    assert Follows(s, bits);
    WalkSound(t, 0, shares, draw, r, s);
    WalkTests(t, 0, shares, draw, r, s);
    CutSolution(t, layout, members, xs, columns, n, s);
    assert i in Tested(t, s) && i in s;
    hide Walk, FieldBits, Complete;
  }

  /** The open bits of the fields are the untested ones. */
  lemma OpenWhereUntested(v: seq<nat>, bits: map<nat, bool>, layout: Layout, members: seq<Ext>, xs: set<Ext>, tested: set<nat>)
    requires ValidLayout(layout) && Shows(v, bits, layout, xs) && bits.Keys == tested
    requires forall x | x in members && x in layout :: x in xs
    ensures AllOpenAt(v, layout, members, tested)
  {
    forall x, j: nat | x in members && x in layout && j < VecSize(x)
      ensures Entry(v, BitIndex(layout[x], j)) == 2 <==> BitIndex(layout[x], j) !in tested
    {
      assert BitIndex(layout[x], j) in FieldBits(layout, xs);
    }
  }

  /** The values are those of `s`, field bit by field bit. */
  ghost predicate HasBits(layout: Layout, xs: set<Ext>, fixed: Valuation, s: Assignment) {
    forall x, j: nat | x in xs && x in layout && j < |layout[x].bits| :: BitOf(Lookup(fixed, x), j) <==> BitIndex(layout[x], j) in s
  }

  lemma EncodedIff(layout: Layout, xs: set<Ext>, columns: nat, fixed: Valuation, s: Assignment)
    requires ValidLayout(layout) && Interleaved(layout, xs, columns) && s <= FieldBits(layout, xs)
    ensures Encode(layout, xs, fixed) == s <==> HasBits(layout, xs, fixed, s)
  {
    forall x, j: nat | x in xs && x in layout && j < |layout[x].bits|
      ensures BitIndex(layout[x], j) in Encode(layout, xs, fixed) <==> BitOf(Lookup(fixed, x), j)
    {
      EncodeBit(layout, xs, columns, fixed, x, j);
    }
    hide BitOf, ValidLayout, Interleaved;
    if HasBits(layout, xs, fixed, s) {
      forall i | i in s ensures i in Encode(layout, xs, fixed) {
        var x, j: nat :| x in xs && x in layout && j < |layout[x].bits| && BitIndex(layout[x], j) == i;
      }
    }
  }

  /** A recorded bit is the field's. */
  lemma RecordedBit(v: seq<nat>, bits: map<nat, bool>, layout: Layout, members: seq<Ext>, xs: set<Ext>, fixed: Valuation, x: Ext, j: nat)
    requires ValidLayout(layout) && Shows(v, bits, layout, xs) && AllRecorded(v, layout, members, fixed)
    requires x in xs && x in layout && x in members && j < |layout[x].bits| && BitIndex(layout[x], j) in bits
    ensures BitOf(Lookup(fixed, x), j) <==> bits[BitIndex(layout[x], j)]
  {
    assert BitIndex(layout[x], j) in FieldBits(layout, xs);
    assert Respects(v, layout, x, fixed[x]);
    hide BitOf;
  }

  /** Values that are those of `s` come from a walk its way. */
  lemma FollowedWhenDrawn(v: seq<nat>, bits: map<nat, bool>, layout: Layout, members: seq<Ext>, xs: set<Ext>, fixed: Valuation, s: Assignment)
    requires ValidLayout(layout) && Shows(v, bits, layout, xs) && AllRecorded(v, layout, members, fixed)
    requires (forall x | x in xs :: x in members) && s <= FieldBits(layout, xs) && HasBits(layout, xs, fixed, s)
    requires forall i | i in bits && bits[i] :: i in FieldBits(layout, xs)
    ensures Follows(s, bits)
  {
    hide AllRecorded, Shows, ValidLayout, BitOf;
    forall i | i in bits ensures i in s <==> bits[i] {
      if i in FieldBits(layout, xs) {
        var x, j: nat :| x in xs && x in layout && j < |layout[x].bits| && BitIndex(layout[x], j) == i;
        RecordedBit(v, bits, layout, members, xs, fixed, x, j);
      }
    }
  }

  /** After such a walk the open bits decide. */
  lemma DrawnWhenFollowed(v: seq<nat>, bits: map<nat, bool>, layout: Layout, members: seq<Ext>, xs: set<Ext>, fixed: Valuation, s: Assignment)
    requires ValidLayout(layout) && Shows(v, bits, layout, xs) && AllRecorded(v, layout, members, fixed)
    requires (forall x | x in xs :: x in members) && (forall x | x in members && x in layout :: x in xs) && Follows(s, bits)
    ensures HasBits(layout, xs, fixed, s) <==> AllOpenBits(layout, members, s, bits.Keys, fixed)
  {
    forall x, j: nat | x in xs && x in layout && j < |layout[x].bits| && BitIndex(layout[x], j) in bits
      ensures BitOf(Lookup(fixed, x), j) <==> BitIndex(layout[x], j) in s
    {
      RecordedBit(v, bits, layout, members, xs, fixed, x, j);
    }
    hide Shows, BitOf, Respects;
  }

  /** A draw leaves the values of `s` exactly when its words run that way, and takes as many words as the run. */
  lemma OutcomeIff(t: Bdd, shares: map<Edge, nat>, draw: nat -> nat, start: Rand, layout: Layout, members: seq<Ext>, xs: set<Ext>,
                   columns: nat, n: nat, fixed0: Valuation, fixed: Valuation, last: Rand, s: Assignment)
    requires Complete(t, layout, members, xs, columns, n) && s <= FieldBits(layout, xs) && forall x | x in members :: x !in fixed0
    requires Outcome(t, shares, draw, start, layout, members, xs, fixed0, fixed, last)
    ensures Encode(layout, xs, fixed) == s <==> DrawRun(t, shares, layout, members, s, draw, start).Some?
    ensures Encode(layout, xs, fixed) == s ==> DrawRun(t, shares, layout, members, s, draw, start) == Some(last.pos)
  {
    var path := Walk(t, shares, draw, start);
    var v: seq<nat> :| Shows(v, path.bits, layout, xs) && FillMembers(v, layout, members, fixed0, draw, path.last) == Valued(fixed, last);
    CompleteFacts(t, layout, members, xs, columns, n);
    EncodedIff(layout, xs, columns, fixed, s);
    FilledRecorded(v, layout, members, fixed0, draw, path.last);
    hide *;
    RunUnfolds(t, shares, layout, members, s, draw, start);
    forall i | i in path.bits && path.bits[i] ensures i in FieldBits(layout, xs) {
      OffOutside(t, shares, draw, start, layout, members, xs, columns, n, i);
    }
    if Follows(s, path.bits) {
      WalkTests(t, 0, shares, draw, start, s);
      OpenWhereUntested(v, path.bits, layout, members, xs, Tested(t, s));
      MembersMatch(v, layout, members, s, Tested(t, s), fixed0, draw, path.last);
      DrawnWhenFollowed(v, path.bits, layout, members, xs, fixed, s);
    } else if HasBits(layout, xs, fixed, s) {
      FollowedWhenDrawn(v, path.bits, layout, members, xs, fixed, s);
    }
  }

  lemma RunUnfolds(t: Edge, shares: map<Edge, nat>, layout: Layout, members: seq<Ext>, s: Assignment, draw: nat -> nat, r: Rand)
    ensures var path := Walk(t, shares, draw, r);
            DrawRun(t, shares, layout, members, s, draw, r) ==
            if Follows(s, path.bits) then MembersRun(layout, members, s, Tested(t, s), draw, path.last.pos) else None
  {
    hide Walk, MembersRun, Follows;
  }

  // ---------------------------------------------------------------- how many draws

  /** The most words a draw may use. */
  function Most(t: Edge, layout: Layout, members: seq<Ext>): nat {
    Choices(t) + Fillings(layout, members)
  }

  /** A draw with these words leaves the values of `s`. */
  ghost function Gives(t: Edge, w: nat, shares: map<Edge, nat>, layout: Layout, members: seq<Ext>, s: Assignment): seq<nat> -> bool {
    (ws: seq<nat>) => DrawRun(t, shares, layout, members, s, DrawOf(ws), Rand(w, 0)).Some?
  }

  ghost function Anything(): seq<nat> -> bool { (ws: seq<nat>) => true }

  lemma AnythingSettles()
    ensures Settles(Anything(), 0, 1.0)
  {
    forall k: nat ensures Part(k, Anything()) == 1.0 { PartAll(k, Anything()); }
  }

  /** The fields are filled from the words the walk leaves. */
  lemma GivesThen(t: Edge, w: nat, shares: map<Edge, nat>, layout: Layout, members: seq<Ext>, s: Assignment, ws: seq<nat>)
    ensures Gives(t, w, shares, layout, members, s)(ws)
         == WalkThen(t, shares, s, w, MembersThen(layout, members, s, Tested(t, s), Anything()))(ws)
  {
    var end := WalkRun(t, shares, s, DrawOf(ws), Rand(w, 0));
    if end.Some? {
      var m := Fillings(layout, members);
      DropAgrees(ws, end.value, m);
      MembersLocal(layout, members, s, Tested(t, s), DrawOf(ws), end.value, DrawOf(Drop(ws, end.value)), 0, m);
    }
    hide WalkRun, MembersRun, DrawOf, Drop, Agree, Tested;
  }

  /** The chance of a solution is the part of the word sequences that give it. */
  lemma DrawPart(t: Bdd, w: nat, shares: map<Edge, nat>, layout: Layout, members: seq<Ext>, s: Assignment, n: nat)
    requires t != FALSE && w < WORD && n >= Most(t, layout, members)
    ensures Part(n, Gives(t, w, shares, layout, members, s)) == DrawChance(t, w, shares, layout, members, s)
  {
    var m, c := Fillings(layout, members), FillChance(layout, members, s, Tested(t, s));
    var q := MembersThen(layout, members, s, Tested(t, s), Anything());
    AnythingSettles();
    forall k: nat | k >= m ensures Part(k, q) == c { MembersPart(layout, members, s, Tested(t, s), Anything(), 0, 1.0, k); }
    DiagramIsCanonical(t);
    WalkPart(t, 0, w, shares, s, q, m, c, n);
    var p := Gives(t, w, shares, layout, members, s);
    forall ws | OfWords(ws, n) ensures p(ws) == WalkThen(t, shares, s, w, q)(ws) { GivesThen(t, w, shares, layout, members, s, ws); }
    PartSame(n, p, WalkThen(t, shares, s, w, q));
    hide Part, WalkThen, MembersThen, GoChance, FillChance;
  }

  lemma DiagramIsCanonical(t: Bdd)
    ensures Canonical(t, 0)
  {
  }

  /** The number of word sequences that give a solution: its chance times the number of all sequences. */
  lemma DrawCount(t: Bdd, w: nat, shares: map<Edge, nat>, layout: Layout, members: seq<Ext>, s: Assignment, n: nat)
    requires t != FALSE && w < WORD && n >= Most(t, layout, members)
    ensures |Having(Sequences(n), Gives(t, w, shares, layout, members, s))| as real
         == DrawChance(t, w, shares, layout, members, s) * Total(n) as real
  {
    hide *;
    DrawPart(t, w, shares, layout, members, s, n);
    PartIsShare(n, Gives(t, w, shares, layout, members, s));
    ScaledIs(DrawChance(t, w, shares, layout, members, s), Total(n));
  }

  lemma ScaledIs(x: real, t: nat)
    ensures Scaled(x, t) == x * t as real
  {
  }

  /** The next `n` words of a stream. */
  function NextWords(draw: nat -> nat, pos: nat, n: nat): (ws: seq<nat>)
    ensures OfWords(ws, n)
  {
    seq(n, i requires 0 <= i < n => draw(pos + i) % WORD)
  }

  /** What a draw leaves depends on the next words of the stream: the values are those of `s` exactly when the
      words are among the sequences counted. */
  lemma NextWordsDecide(t: Bdd, shares: map<Edge, nat>, draw: nat -> nat, start: Rand, layout: Layout, members: seq<Ext>, xs: set<Ext>,
                        columns: nat, n: nat, fixed0: Valuation, fixed: Valuation, last: Rand, s: Assignment, k: nat)
    requires Complete(t, layout, members, xs, columns, n) && s <= FieldBits(layout, xs) && forall x | x in members :: x !in fixed0
    requires Outcome(t, shares, draw, start, layout, members, xs, fixed0, fixed, last) && k >= Most(t, layout, members)
    ensures Encode(layout, xs, fixed) == s
       <==> NextWords(draw, start.pos, k) in Having(Sequences(k), Gives(t, start.randomnext, shares, layout, members, s))
  {
    hide *;
    OutcomeIff(t, shares, draw, start, layout, members, xs, columns, n, fixed0, fixed, last, s);
    var ws := NextWords(draw, start.pos, k);
    SequencesAre(k, ws);
    GivesNext(t, shares, draw, start, layout, members, s, k);
    InHaving(Sequences(k), Gives(t, start.randomnext, shares, layout, members, s), ws);
  }

  lemma InHaving(all: set<seq<nat>>, p: seq<nat> -> bool, ws: seq<nat>)
    ensures ws in Having(all, p) <==> ws in all && p(ws)
  {
  }

  lemma GivesNext(t: Edge, shares: map<Edge, nat>, draw: nat -> nat, start: Rand, layout: Layout, members: seq<Ext>, s: Assignment, k: nat)
    requires k >= Most(t, layout, members)
    ensures Gives(t, start.randomnext, shares, layout, members, s)(NextWords(draw, start.pos, k))
       <==> DrawRun(t, shares, layout, members, s, draw, start).Some?
  {
    var ws := NextWords(draw, start.pos, k);
    NextAgrees(draw, start.pos, k);
    WalkLocal(t, shares, start.randomnext, draw, start.pos, DrawOf(ws), 0, k);
    var end, end' := WalkRun(t, shares, s, draw, start), WalkRun(t, shares, s, DrawOf(ws), Rand(start.randomnext, 0));
    if end.Some? {
      var used := end.value - start.pos;
      AgreeLater(draw, start.pos, DrawOf(ws), 0, k, used);
      MembersLocal(layout, members, s, Tested(t, s), draw, end.value, DrawOf(ws), end'.value, k - used);
    }
    hide Walk, MembersRun, DrawOf, Agree, Tested, Choices, Fillings, Follows, NextWords;
  }

  lemma NextAgrees(draw: nat -> nat, pos: nat, k: nat)
    ensures Agree(draw, pos, DrawOf(NextWords(draw, pos, k)), 0, k)
  {
    var ws := NextWords(draw, pos, k);
    forall i: nat | i < k ensures At(draw, pos, i) == At(DrawOf(ws), 0, i) {
      assert ws[i] == draw(pos + i) % WORD;
      DivModUnique(ws[i], WORD, 0, ws[i]);
    }
  }

  // ---------------------------------------------------------------- the first choice

  /** With no upper half left the word drawn next makes the first choice. */
  lemma {:induction false} WalkFirstChoice(e: Edge, lo: nat, shares: map<Edge, nat>, draw: nat -> nat, r: Rand)
    requires Canonical(e, lo) && e != FALSE && FirstChoice(e).node.Branch? && r.randomnext <= ROUNDTO
    ensures var f, bits := FirstChoice(e), Walk(e, shares, draw, r).bits;
            f.node.index in bits && bits[f.node.index] == !TakesElse(Threshold(f, shares), draw(r.pos) % WORD)
    decreases e.node
  {
    var forced := ElseOf(e) == FALSE || ThenOf(e) == FALSE;
    var r' := if forced then r else Step16(r, draw);
    var taken := if forced then ElseOf(e) == FALSE else !TakesElse(Threshold(e, shares), r'.randomnext);
    var child := if taken then ThenOf(e) else ElseOf(e);
    Branches(e, lo, 0);
    WalkPrepends(e, lo, shares, draw, r, r', taken);
    if forced {
      WalkAbove(child, e.node.index + 1, shares, draw, r);
      WalkFirstChoice(child, e.node.index + 1, shares, draw, r);
    }
    hide Canonical, Walk, TakesElse, Threshold;
  }

  /** The words below `n` that leave the variable of the first choice off. */
  ghost function ElseWords(threshold: nat, n: nat): set<nat> {
    set w: nat | w < n && TakesElse(threshold, w)
  }

  lemma {:induction false} ElseWordsCount(threshold: nat, n: nat)
    ensures |ElseWords(threshold, n)| == LowerElse(threshold, n)
  {
    if n == 0 {
      assert ElseWords(threshold, 0) == {};
    } else {
      ElseWordsCount(threshold, n - 1);
      assert ElseWords(threshold, n) == ElseWords(threshold, n - 1) + if TakesElse(threshold, n - 1) then {n - 1} else {};
    }
  }

  /** The bit of the field that the walk decides first: off for the threshold plus one in 65536 words, the
      threshold being the share counted for the node, or one half when it has none. */
  lemma FirstBitByWord(t: Bdd, shares: map<Edge, nat>, draw: nat -> nat, start: Rand, layout: Layout, members: seq<Ext>, xs: set<Ext>,
                       columns: nat, n: nat, fixed0: Valuation, fixed: Valuation, last: Rand, x: Ext, j: nat)
    requires Complete(t, layout, members, xs, columns, n) && forall y | y in members :: y !in fixed0
    requires Outcome(t, shares, draw, start, layout, members, xs, fixed0, fixed, last)
    requires FirstChoice(t).node.Branch? && start.randomnext <= ROUNDTO && Threshold(FirstChoice(t), shares) < ROUNDTO
    requires x in xs && x in layout && j < |layout[x].bits| && BitIndex(layout[x], j) == FirstChoice(t).node.index
    ensures var threshold := Threshold(FirstChoice(t), shares);
            && (!BitOf(Lookup(fixed, x), j) <==> draw(start.pos) % WORD in ElseWords(threshold, WORD))
            && |ElseWords(threshold, WORD)| == (threshold + 1) * ROUNDTO
  {
    var path := Walk(t, shares, draw, start);
    var v: seq<nat> :| Shows(v, path.bits, layout, xs) && FillMembers(v, layout, members, fixed0, draw, path.last) == Valued(fixed, last);
    CompleteFacts(t, layout, members, xs, columns, n);
    FilledRecorded(v, layout, members, fixed0, draw, path.last);
    var threshold := Threshold(FirstChoice(t), shares);
    hide Walk, Canonical, Shows, FillMembers, Complete, BitOf, LowerElse, FirstChoice;
    WalkFirstChoice(t, 0, shares, draw, start);
    RecordedBit(v, path.bits, layout, members, xs, fixed, x, j);
    ElseWordsCount(threshold, WORD);
    HalvesElse(threshold);
  }

  // ---------------------------------------------------------------- the object draws

  /** One call of `next`: the next words of the stream decide which solution comes, and of all sequences of that
      many words each solution has the number its chance says. */
  method DrawOnce(c: ConstraintObject, m: Sampler, shares: map<Edge, nat>, ghost n: nat, ghost k: nat)
    requires c.Solvable() && Complete(c.GetBdd(), c.layout, c.members, c.Known(), c.columns, n)
    requires m.randomnext < WORD && k >= Most(c.GetBdd(), c.layout, c.members)
    modifies c`fixed, c`ignore, c`record, m`randomnext, m`valueIndex, m.gen
    ensures c.Solvable() && c.GetBdd() == old(c.GetBdd())
    ensures forall s: Assignment | s <= FieldBits(c.layout, c.Known()) ::
              var giving := Having(Sequences(k), Gives(c.GetBdd(), old(m.randomnext), shares, c.layout, c.members, s));
              && (Encode(c.layout, c.Known(), c.fixed) == s <==> NextWords(m.gen.draw, old(m.gen.pos), k) in giving)
              && |giving| as real == DrawChance(c.GetBdd(), old(m.randomnext), shares, c.layout, c.members, s) * Total(k) as real
  {
    hide Complete, Outcome, Gives, Having, Sequences, DrawChance, Encode, FieldBits, NextWords, Total, AvoidStep, Eval, Canonical, Confined, Interleaved, Most, ValidLayout;
    ghost var t, start, fixed0, xs := c.GetBdd(), m.State(), c.fixed - (set x | x in c.members), c.Known();
    c.Next(m, shares, false);
    CompleteFacts(t, c.layout, c.members, xs, c.columns, n);
    forall s: Assignment | s <= FieldBits(c.layout, xs)
      ensures var giving := Having(Sequences(k), Gives(t, start.randomnext, shares, c.layout, c.members, s));
              && (Encode(c.layout, xs, c.fixed) == s <==> NextWords(m.gen.draw, start.pos, k) in giving)
              && |giving| as real == DrawChance(t, start.randomnext, shares, c.layout, c.members, s) * Total(k) as real
    {
      NextWordsDecide(t, shares, m.gen.draw, start, c.layout, c.members, xs, c.columns, n, fixed0, c.fixed, m.State(), s, k);
      DrawCount(t, start.randomnext, shares, c.layout, c.members, s, k);
    }
  }
}

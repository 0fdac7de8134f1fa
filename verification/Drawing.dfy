/** Why the values written after a walk solve the diagram: recorded bits, free bits and pinned fields
    together make an assignment the walk has proved. */
module Drawing {
  import opened Bdds
  import opened Words
  import opened Circuits
  import opened Expressions
  import opened Compiler
  import opened Fields
  import opened Randomness
  import opened Sampling

  /** The value vector before a walk: undecided at every field bit. */
  ghost predicate Undecided(v: seq<nat>, layout: Layout, xs: set<Ext>) {
    forall i | i in FieldBits(layout, xs) :: Entry(v, i) == 2
  }

  /** A value that has every decided bit as recorded. */
  predicate Respects(v: seq<nat>, layout: Layout, x: Ext, value: nat)
    requires x in layout
  {
    && value < Pow2(|layout[x].bits|)
    && forall j: nat | j < |layout[x].bits| && Entry(v, BitIndex(layout[x], j)) != 2 ::
         BitOf(value, j) <==> Entry(v, BitIndex(layout[x], j)) == 1
  }

  /** A field's value agrees with the path on every bit the path decides. */
  lemma UnfixedAgrees(layout: Layout, xs: set<Ext>, v: seq<nat>, v1: seq<nat>, bits: map<nat, bool>, x: Ext, j: nat, value: nat)
    requires x in xs && x in layout && j < |layout[x].bits| && BitIndex(layout[x], j) in bits
    requires Records(v, v1, bits) && Respects(v, layout, x, value)
    ensures BitOf(value, j) <==> bits[BitIndex(layout[x], j)]
  {
    var i := BitIndex(layout[x], j);
    assert Entry(v, i) == if bits[i] then 1 else 0;
  }

  lemma FixedAgrees(sb: Edge, layout: Layout, bits: map<nat, bool>, x: Ext, j: nat, value: nat)
    requires ValidLayout(layout) && x in layout && j < |layout[x].bits| && BitIndex(layout[x], j) in bits
    requires forall s: Assignment | Follows(s, bits) :: Eval(sb, s)
    requires forall s: Assignment | Eval(sb, s) :: Val(layout[x].bits, s) == value
    ensures BitOf(value, j) <==> bits[BitIndex(layout[x], j)]
  {
    var s0 := set i | i in bits && bits[i];
    assert Follows(s0, bits);
    FieldBit(layout, x, j, s0);
    ValPrefix(layout[x].bits, j, s0);
  }

  /** The drawn values are a solution. */
  lemma DrawIsSolution(sb: Bdd, layout: Layout, xs: set<Ext>, n: nat, bits: map<nat, bool>, v: seq<nat>, v1: seq<nat>,
                       fixed: Valuation, drawn: Valuation)
    requires ValidLayout(layout) && Interleaved(layout, xs, n) && Confined(sb, layout, xs)
    requires forall s: Assignment | Follows(s, bits) :: Eval(sb, s)
    requires Records(v, v1, bits) && Undecided(v1, layout, xs)
    requires forall x | x in xs && x in fixed ::
      x in drawn && drawn[x] == fixed[x] && forall s: Assignment | Eval(sb, s) :: Val(layout[x].bits, s) == fixed[x]
    requires forall x | x in xs && x !in fixed :: x in drawn && Respects(v, layout, x, drawn[x])
    ensures Eval(sb, Encode(layout, xs, drawn))
  {
    var encoded, fieldBits := Encode(layout, xs, drawn), FieldBits(layout, xs);
    var s := encoded + set i | i in bits && bits[i] && i !in fieldBits;
    forall i | i in bits ensures i in s <==> bits[i] {
      if i in fieldBits {
        var x, j: nat :| x in xs && x in layout && j < |layout[x].bits| && BitIndex(layout[x], j) == i;
        EncodeBit(layout, xs, n, drawn, x, j);
        if x in fixed {
          FixedAgrees(sb, layout, bits, x, j, fixed[x]);
        } else {
          UnfixedAgrees(layout, xs, v, v1, bits, x, j, drawn[x]);
        }
      }
    }
    assert s * fieldBits == encoded;
  }

  // ---------------------------------------------------------------- bookkeeping of one draw

  /** The vector with the entries of `marked` set to 2, undecided. */
  ghost predicate Marked(v: seq<nat>, v0: seq<nat>, marked: set<nat>) {
    forall i: nat :: Entry(v, i) == if i in marked then 2 else Entry(v0, i)
  }

  lemma MarkOne(v: seq<nat>, v0: seq<nat>, marked: set<nat>, i: nat)
    requires Marked(v, v0, marked) && i < |v|
    ensures Marked(v[i := 2], v0, marked + {i})
  {
  }

  lemma MarkedGrown(v: seq<nat>, i: nat)
    ensures Marked(Grown(v, i), v, {})
  {
    forall k: nat ensures Entry(Grown(v, i), k) == Entry(v, k) {
      if k < |v| { assert Grown(v, i)[..|v|][k] == v[k]; }
    }
  }

  lemma MarkedTwice(v: seq<nat>, v': seq<nat>, v'': seq<nat>, m1: set<nat>, m2: set<nat>)
    requires Marked(v', v, m1) && Marked(v'', v', m2)
    ensures Marked(v'', v, m1 + m2)
  {
  }

  /** A field's value from its recorded bits, the undecided ones from a new word at position `pos`. */
  function FieldFill(v: seq<nat>, r: Record, msize: nat, draw: nat -> nat, pos: nat): Filled {
    Fill(v, r.start, r.numvar, msize, Rand(draw(pos) % WORD, pos + 1), draw)
  }

  datatype Valued = Valued(fixed: Valuation, last: Rand)

  /** The fields without a value get one, member by member, each from new words. */
  function FillMembers(v: seq<nat>, layout: Layout, members: seq<Ext>, fixed: Valuation, draw: nat -> nat, r: Rand): Valued {
    if members == [] then Valued(fixed, r)
    else
      var d, x := FillMembers(v, layout, members[..|members| - 1], fixed, draw, r), members[|members| - 1];
      if x in layout && x !in d.fixed then
        var f := FieldFill(v, layout[x], VecSize(x), draw, d.last.pos);
        Valued(d.fixed[x := f.value], f.last)
      else d
  }

  /** The vector shows the bits a walk chose, and 2 at the field bits it left open. */
  ghost predicate Shows(v: seq<nat>, bits: map<nat, bool>, layout: Layout, xs: set<Ext>) {
    forall i | i in FieldBits(layout, xs) :: Entry(v, i) == if i in bits then (if bits[i] then 1 else 0) else 2
  }

  /** The values and the random state a draw from `t` leaves: the walk's bits in the fields, and the bits it left
      open filled in the order of the members. */
  ghost predicate Outcome(t: Edge, shares: map<Edge, nat>, draw: nat -> nat, start: Rand, layout: Layout, members: seq<Ext>,
                          xs: set<Ext>, fixed0: Valuation, fixed: Valuation, last: Rand) {
    exists v: seq<nat> ::
      && Shows(v, Walk(t, shares, draw, start).bits, layout, xs)
      && FillMembers(v, layout, members, fixed0, draw, Walk(t, shares, draw, start).last) == Valued(fixed, last)
  }

  lemma OutcomeOf(v: seq<nat>, v1: seq<nat>, t: Edge, shares: map<Edge, nat>, draw: nat -> nat, start: Rand, layout: Layout,
                  members: seq<Ext>, xs: set<Ext>, fixed0: Valuation, fixed: Valuation, last: Rand)
    requires Records(v, v1, Walk(t, shares, draw, start).bits) && Undecided(v1, layout, xs)
    requires FillMembers(v, layout, members, fixed0, draw, Walk(t, shares, draw, start).last) == Valued(fixed, last)
    ensures Outcome(t, shares, draw, start, layout, members, xs, fixed0, fixed, last)
  {
    hide Walk, FillMembers;
    assert Shows(v, Walk(t, shares, draw, start).bits, layout, xs);
  }

  /** Only the entries matter. */
  lemma {:induction false} FillSame(v: seq<nat>, v': seq<nat>, start: nat, numvar: nat, k: nat, r: Rand, draw: nat -> nat)
    requires forall j: nat | j < k :: Entry(v', numvar * j + start) == Entry(v, numvar * j + start)
    ensures Fill(v', start, numvar, k, r, draw) == Fill(v, start, numvar, k, r, draw)
  {
    if k > 0 { FillSame(v, v', start, numvar, k - 1, r, draw); }
  }

  lemma FieldFillSame(v: seq<nat>, v': seq<nat>, r: Record, msize: nat, draw: nat -> nat, pos: nat)
    requires Records(v', v, map[])
    ensures FieldFill(v', r, msize, draw, pos) == FieldFill(v, r, msize, draw, pos)
  {
    hide Fill, Entry;
    FillSame(v, v', r.start, r.numvar, msize, Rand(draw(pos) % WORD, pos + 1), draw);
  }

  /** One more member. */
  lemma FillMembersStep(v: seq<nat>, layout: Layout, members: seq<Ext>, i: nat, fixed: Valuation, draw: nat -> nat, r: Rand)
    requires i < |members|
    ensures var d, x := FillMembers(v, layout, members[..i], fixed, draw, r), members[i];
            FillMembers(v, layout, members[..i + 1], fixed, draw, r) ==
            if x in layout && x !in d.fixed then
              var f := FieldFill(v, layout[x], VecSize(x), draw, d.last.pos);
              Valued(d.fixed[x := f.value], f.last)
            else d
  {
    assert members[..i + 1][..i] == members[..i];
    hide FieldFill;
  }

  /** The first `k` diagram variables of a field. */
  ghost function FirstBits(r: Record, k: nat): set<nat> {
    set j | 0 <= j < k :: BitIndex(r, j)
  }

  lemma FirstBitsStep(r: Record, k: nat)
    ensures FirstBits(r, k + 1) == FirstBits(r, k) + {BitIndex(r, k)}
  {
    forall i | i in FirstBits(r, k) ensures i in FirstBits(r, k + 1) {
      var j :| 0 <= j < k && BitIndex(r, j) == i;
    }
  }

  /** The fields seen so far have values, old values stay, new ones have the recorded bits. */
  ghost predicate Filling(v: seq<nat>, layout: Layout, seen: seq<Ext>, fixed0: Valuation, fixed: Valuation) {
    && fixed.Keys == fixed0.Keys + (set x | x in seen && x in layout)
    && (forall x | x in fixed0 :: fixed[x] == fixed0[x])
    && (forall x | x in fixed && x !in fixed0 :: x in layout && Respects(v, layout, x, fixed[x]))
  }

  /** The fields that got a value have it under `s`. */
  ghost predicate NewValues(layout: Layout, fixed0: Valuation, fixed: Valuation, s: Assignment) {
    forall x | x in fixed && x !in fixed0 && x in layout :: Val(layout[x].bits, s) == fixed[x]
  }

  lemma RespectsSame(v: seq<nat>, v': seq<nat>, layout: Layout, x: Ext, value: nat)
    requires x in layout && Records(v', v, map[]) && Respects(v', layout, x, value)
    ensures Respects(v, layout, x, value)
  {
  }

  lemma FillingStart(v: seq<nat>, layout: Layout, fixed: Valuation)
    ensures Filling(v, layout, [], fixed, fixed)
  {
  }

  /** A field the walk may decide gets its value. */
  lemma FillingDraw(v: seq<nat>, layout: Layout, seen: seq<Ext>, fixed0: Valuation, fixed: Valuation, x: Ext, value: nat)
    requires Filling(v, layout, seen, fixed0, fixed) && x in layout && x !in fixed && Respects(v, layout, x, value)
    ensures Filling(v, layout, seen + [x], fixed0, fixed[x := value])
  {
    assert (set y | y in seen + [x] && y in layout) == (set y | y in seen && y in layout) + {x};
  }

  lemma FillingSkip(v: seq<nat>, layout: Layout, seen: seq<Ext>, fixed0: Valuation, fixed: Valuation, x: Ext)
    requires Filling(v, layout, seen, fixed0, fixed) && (x in layout ==> x in fixed)
    ensures Filling(v, layout, seen + [x], fixed0, fixed)
  {
    assert forall y | y in seen + [x] && y in layout :: y in fixed;
  }

  lemma NewValuesStep(layout: Layout, fixed0: Valuation, fixed: Valuation, x: Ext, value: nat, s: Assignment)
    requires x in layout && x !in fixed && fixed0.Keys <= fixed.Keys
    ensures NewValues(layout, fixed0, fixed[x := value], s)
        <==> NewValues(layout, fixed0, fixed, s) && Val(layout[x].bits, s) == value
  {
    assert fixed[x := value][x] == value;
    if NewValues(layout, fixed0, fixed[x := value], s) {
      forall y | y in fixed && y !in fixed0 && y in layout ensures Val(layout[y].bits, s) == fixed[y] {
        assert fixed[x := value][y] == fixed[y];
      }
    }
  }

  lemma MarkedNothing(v: seq<nat>)
    ensures Marked(v, v, {})
  {
  }

  lemma AllMarked(v: seq<nat>, v0: seq<nat>, marked: set<nat>, layout: Layout, xs: set<Ext>)
    requires ValidLayout(layout) && Marked(v, v0, marked)
    requires forall x | x in xs && x in layout :: FirstBits(layout[x], VecSize(x)) <= marked
    ensures Undecided(v, layout, xs)
  {
    forall i | i in FieldBits(layout, xs) ensures Entry(v, i) == 2 {
      var x, j: nat :| x in xs && x in layout && j < |layout[x].bits| && BitIndex(layout[x], j) == i;
      assert i in FirstBits(layout[x], VecSize(x));
    }
  }

  lemma FilledRespects(v: seq<nat>, layout: Layout, x: Ext, value: nat)
    requires ValidLayout(layout) && x in layout && value < Pow2(VecSize(x))
    requires forall j: nat | j < VecSize(x) && Entry(v, layout[x].numvar * j + layout[x].start) != 2 ::
      BitOf(value, j) <==> Entry(v, layout[x].numvar * j + layout[x].start) == 1
    ensures Respects(v, layout, x, value)
  {
  }

  lemma NothingNew(layout: Layout, fixed: Valuation, s: Assignment)
    ensures NewValues(layout, fixed, fixed, s)
  {
  }

  lemma RecordsAgain(v0: seq<nat>, v: seq<nat>, first: seq<nat>)
    requires Records(v, v0, map[]) && Records(v0, first, map[])
    ensures Records(v, first, map[])
  {
  }

  lemma FillingKeys(v: seq<nat>, layout: Layout, seen: seq<Ext>, fixed0: Valuation, fixed: Valuation)
    requires Filling(v, layout, seen, fixed0, fixed)
    ensures fixed0.Keys <= fixed.Keys
  {
  }

  lemma FillingResult(v: seq<nat>, layout: Layout, seen: seq<Ext>, fixed0: Valuation, fixed: Valuation)
    requires Filling(v, layout, seen, fixed0, fixed)
    ensures fixed.Keys == fixed0.Keys + (set x | x in seen && x in layout)
    ensures forall x | x in fixed0 :: fixed[x] == fixed0[x]
  {
  }
}

/** Building the diagrams of a constraint object: `get_bdd` compiles an expression and clears the unused
    bits of narrow fields, `_scv_bdd_and` joins the hard and the soft constraint and counts the result. */
module Construction {
  import opened Bdds
  import opened Words
  import opened Circuits
  import opened Expressions
  import opened Compiler
  import opened Fields
  import opened Weights

  /** The compiled expression holds: it has a truth value, and that is true. */
  predicate Satisfies(e: Expr, layout: Layout, s: Assignment) {
    var w := WordAnd(Meaning(e, ValuesUnder(layout, s)), Truth(true));
    w.Truth? && w.holds
  }

  /** The diagram variables above a narrow field, up to the widest field's width, are off. */
  ghost predicate SparseClear(layout: Layout, x: Ext, maxvar: nat, bits: nat, s: Assignment) {
    x in layout ==> forall j: nat | x.width <= j < bits :: maxvar * j + layout[x].start !in s
  }

  ghost predicate AllSparseClear(layout: Layout, members: seq<Ext>, maxvar: nat, bits: nat, s: Assignment) {
    forall x | x in members :: SparseClear(layout, x, maxvar, bits, s)
  }

  /** The fields of one constraint object: one interleaving, wide enough, all solver-known members in it. */
  ghost predicate ObjectLayout(layout: Layout, members: seq<Ext>, xs: set<Ext>, maxvar: nat, bits: nat) {
    && ValidLayout(layout) && Interleaved(layout, xs, maxvar)
    && (forall x | x in xs :: x.width <= bits)
    && (forall x | x in members && x in layout :: x in xs)
  }

  /** What `get_bdd` returns: the compiled constraint with sparse bits off, or true when nothing satisfies it. */
  ghost predicate Built(b: Bdd, e: Expr, layout: Layout, members: seq<Ext>, maxvar: nat, bits: nat) {
    if forall s: Assignment :: !Satisfies(e, layout, s) then b == TRUE
    else forall s: Assignment :: Eval(b, s) <==> Satisfies(e, layout, s) && AllSparseClear(layout, members, maxvar, bits, s)
  }

  /** Only the bits of its own fields matter to a compiled expression. */
  lemma SatisfiesAgree(e: Expr, layout: Layout, s: Assignment, s': Assignment)
    requires ValidLayout(layout) && Exts(e) <= layout.Keys
    requires forall i | i in FieldBits(layout, Exts(e)) :: i in s <==> i in s'
    ensures Satisfies(e, layout, s) == Satisfies(e, layout, s')
  {
    var val, val' := ValuesUnder(layout, s), ValuesUnder(layout, s');
    forall x | x in Exts(e) ensures Lookup(val, x) == Lookup(val', x) {
      forall i: nat | i < |layout[x].bits| ensures BitIndex(layout[x], i) in s <==> BitIndex(layout[x], i) in s' {
        assert BitIndex(layout[x], i) in FieldBits(layout, Exts(e));
      }
      FieldValueAgrees(layout, x, s, s');
    }
    MeaningAgree(e, val, val');
  }

  /** A built diagram is about the fields only: dropping all other variables keeps a solution. */
  lemma BuiltConfined(b: Bdd, e: Expr, layout: Layout, members: seq<Ext>, xs: set<Ext>, maxvar: nat, bits: nat)
    requires ValidLayout(layout) && Exts(e) <= xs <= layout.Keys && Built(b, e, layout, members, maxvar, bits)
    ensures Confined(b, layout, xs)
  {
    hide Satisfies, Canonical;
    if !(forall s: Assignment :: !Satisfies(e, layout, s)) {
      forall s: Assignment | Eval(b, s) ensures Eval(b, s * FieldBits(layout, xs)) {
        SatisfiesAgree(e, layout, s, s * FieldBits(layout, xs));
        SparseAntitone(layout, members, maxvar, bits, s, s * FieldBits(layout, xs));
      }
    }
  }

  lemma SparseAntitone(layout: Layout, members: seq<Ext>, maxvar: nat, bits: nat, s: Assignment, s': Assignment)
    requires AllSparseClear(layout, members, maxvar, bits, s) && s' <= s
    ensures AllSparseClear(layout, members, maxvar, bits, s')
  {
    forall x | x in members ensures SparseClear(layout, x, maxvar, bits, s') {
      assert SparseClear(layout, x, maxvar, bits, s);
    }
  }

  /** A built diagram tests only variables below `maxvar * bits`, the number the weights count over. */
  lemma BuiltBelow(b: Bdd, e: Expr, layout: Layout, members: seq<Ext>, xs: set<Ext>, maxvar: nat, bits: nat, n: nat)
    requires ObjectLayout(layout, members, xs, maxvar, bits) && Exts(e) <= xs
    requires Built(b, e, layout, members, maxvar, bits) && n == maxvar * bits
    ensures Below(b, n)
  {
    hide Satisfies, Canonical, Eval, AllSparseClear, ValidLayout, Interleaved;
    if !(forall s: Assignment :: !Satisfies(e, layout, s)) {
      forall s: Assignment, i: nat | n <= i ensures Eval(b, s + {i}) == Eval(b, s) {
        FieldBitsBelow(layout, members, xs, maxvar, bits);
        SatisfiesAgree(e, layout, s + {i}, s) by {
          forall k | k in FieldBits(layout, Exts(e)) ensures k in s + {i} <==> k in s { assert k in FieldBits(layout, xs); }
          assert Exts(e) <= layout.Keys by { assert Interleaved(layout, xs, maxvar); InterleavedKeys(layout, xs, maxvar); }
        }
        SparseBelow(layout, members, xs, maxvar, bits, s, i);
      }
      IndependentBelow(b, 0, n) by { BddCanonical(b); }
    }
  }

  lemma BddCanonical(b: Bdd)
    ensures Canonical(b, 0)
  {
  }

  lemma InterleavedKeys(layout: Layout, xs: set<Ext>, n: nat)
    requires Interleaved(layout, xs, n)
    ensures xs <= layout.Keys
  {
  }

  lemma FieldBitsBelow(layout: Layout, members: seq<Ext>, xs: set<Ext>, maxvar: nat, bits: nat)
    requires ObjectLayout(layout, members, xs, maxvar, bits)
    ensures forall i | i in FieldBits(layout, xs) :: i < maxvar * bits
  {
    forall i | i in FieldBits(layout, xs) ensures i < maxvar * bits {
      var x, j: nat :| x in xs && x in layout && j < |layout[x].bits| && BitIndex(layout[x], j) == i;
      BitIndexBound(layout, xs, maxvar, x, j, bits);
    }
  }

  lemma SparseBelow(layout: Layout, members: seq<Ext>, xs: set<Ext>, maxvar: nat, bits: nat, s: Assignment, i: nat)
    requires ObjectLayout(layout, members, xs, maxvar, bits) && maxvar * bits <= i
    ensures AllSparseClear(layout, members, maxvar, bits, s + {i}) == AllSparseClear(layout, members, maxvar, bits, s)
  {
    forall x | x in members ensures SparseClear(layout, x, maxvar, bits, s + {i}) == SparseClear(layout, x, maxvar, bits, s) {
      if x in layout {
        forall j: nat | x.width <= j < bits ensures maxvar * j + layout[x].start != i {
          BitIndexBound(layout, xs, maxvar, x, j, bits);
        }
      }
    }
    if AllSparseClear(layout, members, maxvar, bits, s + {i}) {
      forall x | x in members ensures SparseClear(layout, x, maxvar, bits, s) { assert SparseClear(layout, x, maxvar, bits, s + {i}); }
    }
  }

  /** `add_sparse_var`. */
  method AddSparseVar(layout: Layout, x: Ext, maxvar: nat, maxNumBits: nat, b: Bdd) returns (r: Bdd)
    ensures forall s: Assignment :: Eval(r, s) <==> Eval(b, s) && SparseClear(layout, x, maxvar, maxNumBits, s)
  {
    hide Eval, Canonical;
    r := b;
    if x in layout && x.width < maxNumBits {
      for j := x.width to maxNumBits
        invariant forall s: Assignment ::
          Eval(r, s) <==> Eval(b, s) && forall k: nat | x.width <= k < j :: maxvar * k + layout[x].start !in s
      {
        r := And(r, Not(Variable(maxvar * j + layout[x].start)));
      }
    }
  }

  /** `check_sparse_var`. */
  method CheckSparseVar(layout: Layout, members: seq<Ext>, maxvar: nat, maxNumBits: nat, b: Bdd) returns (r: Bdd)
    ensures forall s: Assignment :: Eval(r, s) <==> Eval(b, s) && AllSparseClear(layout, members, maxvar, maxNumBits, s)
  {
    hide Eval, Canonical, SparseClear;
    r := b;
    for i := 0 to |members|
      invariant forall s: Assignment :: Eval(r, s) <==> Eval(b, s) && AllSparseClear(layout, members[..i], maxvar, maxNumBits, s)
    {
      ghost var before := r;
      r := AddSparseVar(layout, members[i], maxvar, maxNumBits, r);
      assert members[..i + 1] == members[..i] + [members[i]];
    }
    assert members[..|members|] == members;
  }

  /** `get_bdd` of the manager, for an object without enumerations. An expression that compiles to
      nothing, or that nothing satisfies, is replaced by true. */
  method GetBdd(m: VariableTable, e: Expr, members: seq<Ext>) returns (b: Bdd)
    requires ValidLayout(m.extHash) && Exts(e) <= m.extHash.Keys
    modifies m`extHash, m`nthvar
    ensures m.extHash == old(m.extHash)
    ensures Built(b, e, m.extHash, members, m.maxvar, m.maxNumBits)
  {
    hide Eval, Canonical, AllSparseClear, ValidLayout, Satisfies, RepHolds;
    var t1 := m.GetExpressionRep(e);
    assert m.extHash == old(m.extHash);
    var t := ExprAnd(t1, RepBdd(TRUE));
    forall s: Assignment ensures Satisfies(e, m.extHash, s) <==> RepHolds(t, s) {
      TrueHolds(s);
      SatisfiesDenotation(e, m.extHash, t, s);
    }
    if !t.RepBdd? || t.bdd == FALSE {
      RepNeverHolds(t);
      b := TRUE;
    } else {
      ghost var s := RepHoldsSomewhere(t);
      b := CheckSparseVar(m.extHash, members, m.maxvar, m.maxNumBits, t.bdd);
      RepHoldsIff(t);
    }
  }

  /** The compiled constraint is a diagram that holds. */
  predicate RepHolds(t: Rep, s: Assignment) {
    t.RepBdd? && Eval(t.bdd, s)
  }

  lemma RepHoldsIff(t: Rep)
    requires t.RepBdd?
    ensures forall s: Assignment :: RepHolds(t, s) <==> Eval(t.bdd, s)
  {
  }

  lemma RepNeverHolds(t: Rep)
    requires !t.RepBdd? || t.bdd == FALSE
    ensures forall s: Assignment :: !RepHolds(t, s)
  {
  }

  lemma RepHoldsSomewhere(t: Rep) returns (s: Assignment)
    requires t.RepBdd? && t.bdd != FALSE
    ensures RepHolds(t, s)
  {
    ZeroIffUnsatisfiable(t.bdd);
    s :| Eval(t.bdd, s);
  }

  lemma TrueHolds(s: Assignment)
    ensures Denotation(RepBdd(TRUE), s) == Truth(true)
  {
  }

  lemma SatisfiesDenotation(e: Expr, layout: Layout, t: Rep, s: Assignment)
    requires t.WellFormed() && Denotation(t, s) == WordAnd(Meaning(e, ValuesUnder(layout, s)), Truth(true))
    ensures Satisfies(e, layout, s) <==> RepHolds(t, s)
  {
  }

  /** The hard and the soft diagram joined: their conjunction, or the hard one when that has no solution. */
  ghost predicate Joined(b: Bdd, bh: Bdd, bs: Bdd) {
    if forall s: Assignment | Eval(bh, s) :: !Eval(bs, s) then b == bh
    else forall s: Assignment :: Eval(b, s) <==> Eval(bh, s) && Eval(bs, s)
  }

  /** `_scv_bdd_and`; the weights are counted on the result, from whatever is remembered of other objects. */
  method BddAnd(m: VariableTable, w: WeightTable, bh: Bdd, bs: Bdd) returns (b: Bdd)
    requires Below(bh, m.maxvar * m.maxNumBits) && Below(bs, m.maxvar * m.maxNumBits) && w.Valid()
    modifies w
    ensures Joined(b, bh, bs) && Below(b, m.maxvar * m.maxNumBits)
    ensures w.Valid() && w.numBddVar == m.maxvar * m.maxNumBits
    ensures Grows(old(w.nodeWeightHash), w.numBddVar, w.nodeWeightHash, old(w.nodeHash), w.nodeHash)
    ensures b.node.Branch? ==> b in w.nodeWeightHash
    ensures MemoCorrect(w.numBddVar, old(w.nodeWeightHash), old(w.nodeHash)) ==> MemoCorrect(w.numBddVar, w.nodeWeightHash, w.nodeHash)
    ensures KeepsTrue(b, w.numBddVar, old(w.nodeWeightHash), old(w.nodeHash), w.nodeWeightHash, w.nodeHash)
  {
    hide Eval, Canonical, Below, MemoCorrect, Grows, Positive, Closed, KeepsTrue;
    b := And(bh, bs);
    JoinedConjunction(b, bh, bs);
    if b == FALSE {
      b := bh;
    }
    w.GenerateWeight(b, m.maxvar, m.maxNumBits);
  }

  lemma JoinedConjunction(b: Bdd, bh: Bdd, bs: Bdd)
    requires forall s: Assignment :: Eval(b, s) == (Eval(bh, s) && Eval(bs, s))
    ensures b == FALSE ==> Joined(bh, bh, bs)
    ensures b != FALSE ==> Joined(b, bh, bs)
  {
    hide Eval, Canonical;
    ZeroIffUnsatisfiable(b);
    if b == FALSE {
      forall s: Assignment | Eval(bh, s) ensures !Eval(bs, s) { assert !Eval(b, s); }
    } else {
      var s: Assignment :| Eval(b, s);
      assert Eval(bh, s) && Eval(bs, s);
    }
  }

  /** What `get_bdd` returns always has a solution. */
  lemma BuiltSatisfiable(b: Bdd, e: Expr, layout: Layout, members: seq<Ext>, xs: set<Ext>, maxvar: nat, bits: nat)
    requires ObjectLayout(layout, members, xs, maxvar, bits) && Exts(e) <= xs && xs <= layout.Keys
    requires Built(b, e, layout, members, maxvar, bits)
    ensures b != FALSE
  {
    hide Satisfies, Canonical, AllSparseClear, ValidLayout;
    ZeroIffUnsatisfiable(b);
    if !(forall s: Assignment :: !Satisfies(e, layout, s)) {
      var s: Assignment :| Satisfies(e, layout, s);
      var s' := s * FieldBits(layout, xs);
      FieldsOfPart(layout, Exts(e), xs);
      SatisfiesAgree(e, layout, s, s');
      NoSparseFieldBit(layout, members, xs, maxvar, bits, s');
      assert Eval(b, s');
    } else {
      var none: Assignment := {};
      assert Eval(TRUE, none);
    }
  }

  lemma FieldsOfPart(layout: Layout, part: set<Ext>, xs: set<Ext>)
    requires part <= xs
    ensures FieldBits(layout, part) <= FieldBits(layout, xs)
  {
  }

  lemma NoSparseFieldBit(layout: Layout, members: seq<Ext>, xs: set<Ext>, maxvar: nat, bits: nat, s: Assignment)
    requires ObjectLayout(layout, members, xs, maxvar, bits) && s <= FieldBits(layout, xs)
    ensures AllSparseClear(layout, members, maxvar, bits, s)
  {
    forall x | x in members && x in layout ensures SparseClear(layout, x, maxvar, bits, s) {
      forall j: nat | x.width <= j < bits ensures maxvar * j + layout[x].start !in s {
        if maxvar * j + layout[x].start in s {
          var y, i: nat :| y in xs && y in layout && i < |layout[y].bits| && BitIndex(layout[y], i) == maxvar * j + layout[x].start;
          BitIndexInjective(layout, xs, maxvar, x, j, y, i);
        }
      }
    }
  }
}

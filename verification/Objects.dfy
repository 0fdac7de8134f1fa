/** From two expressions to a constraint object that can be drawn from. */
module Objects {
  import opened Options
  import opened Bdds
  import opened Words
  import opened Circuits
  import opened Expressions
  import opened Exactness
  import Interpreter
  import opened Compiler
  import opened Fields
  import opened Weights
  import opened Construction
  import opened Sampling
  import opened Drawing
  import opened Solver
  import opened Runs
  import opened FieldCounts
  import opened Chances
  import opened Fairness
  import opened Randomness
  import opened WordCounts
  import opened Outcomes
  import opened DrawCounts

  /** The fields of a constraint object. */
  function Fieldset(hard: Expr, soft: Expr): set<Ext> {
    Exts(hard) + Exts(soft)
  }

  /** The diagram tests only variables of the object. */
  ghost predicate InRange(b: Bdd, maxvar: nat, bits: nat) {
    Below(b, maxvar * bits)
  }

  lemma JoinedFacts(b: Bdd, bh: Bdd, bs: Bdd, layout: Layout, xs: set<Ext>)
    requires Joined(b, bh, bs) && bh != FALSE && Confined(bh, layout, xs) && Confined(bs, layout, xs)
    ensures b != FALSE && Confined(b, layout, xs)
  {
    hide Canonical;
    ZeroIffUnsatisfiable(b);
    if exists s: Assignment :: Eval(bh, s) && Eval(bs, s) {
      var s: Assignment :| Eval(bh, s) && Eval(bs, s);
      assert Eval(b, s);
    }
  }

  lemma LayoutOfObject(layout: Layout, members: seq<Ext>, xs: set<Ext>, maxvar: nat, bits: nat)
    requires ValidLayout(layout) && Interleaved(layout, xs, maxvar)
    requires forall x | x in xs :: x.width <= bits
    requires forall x | x in members && x in layout :: x in xs
    ensures ObjectLayout(layout, members, xs, maxvar, bits)
  {
  }

  lemma BuiltFacts(b: Bdd, e: Expr, layout: Layout, members: seq<Ext>, xs: set<Ext>, maxvar: nat, bits: nat)
    requires ObjectLayout(layout, members, xs, maxvar, bits) && Exts(e) <= xs && Built(b, e, layout, members, maxvar, bits)
    ensures b != FALSE && Confined(b, layout, xs) && InRange(b, maxvar, bits)
  {
    hide ObjectLayout, Built, Confined, Below;
    ObjectFields(layout, members, xs, maxvar, bits);
    BuiltConfined(b, e, layout, members, xs, maxvar, bits);
    BuiltBelow(b, e, layout, members, xs, maxvar, bits, maxvar * bits);
    BuiltSatisfiable(b, e, layout, members, xs, maxvar, bits);
  }

  /** What `Build` promises of an object's diagram and the two it is joined from, `n` being the number of
      diagram variables. */
  ghost predicate Assembled(b: Bdd, bh: Bdd, bs: Bdd, hard: Expr, soft: Expr, layout: Layout, members: seq<Ext>, maxvar: nat, bits: nat, n: nat) {
    && n == maxvar * bits && Below(b, n)
    && ObjectLayout(layout, members, Fieldset(hard, soft), maxvar, bits)
    && (forall x | x in Fieldset(hard, soft) :: x in members)
    && Joined(b, bh, bs)
    && Built(bh, hard, layout, members, maxvar, bits) && Built(bs, soft, layout, members, maxvar, bits)
  }

  lemma AssembledOf(b: Bdd, bh: Bdd, bs: Bdd, hard: Expr, soft: Expr, layout: Layout, members: seq<Ext>, maxvar: nat, bits: nat, n: nat)
    requires n == maxvar * bits && Below(b, n) && Joined(b, bh, bs)
    requires ObjectLayout(layout, members, Fieldset(hard, soft), maxvar, bits)
    requires forall x | x in Fieldset(hard, soft) :: x in members
    requires Built(bh, hard, layout, members, maxvar, bits) && Built(bs, soft, layout, members, maxvar, bits)
    ensures Assembled(b, bh, bs, hard, soft, layout, members, maxvar, bits, n)
  {
    hide ObjectLayout, Below, Built, Joined, Fieldset;
  }

  /** The set-up of a constraint object: count and make its variables, build and join its diagrams. Its
      members are new to the manager; the weight tables may remember other objects. */
  method Build(m: VariableTable, w: WeightTable, members: seq<Ext>, hard: Expr, soft: Expr) returns (c: ConstraintObject)
    requires ValidLayout(m.extHash)
    requires forall x | x in members :: x !in m.extHash
    requires forall x | x in Fieldset(hard, soft) :: x in members
    requires w.Valid()
    modifies m, w
    ensures fresh(c) && c.Solvable() && c.Known() == Fieldset(hard, soft)
    ensures c.layout == m.extHash && c.members == members && c.columns == m.maxvar == |Fieldset(hard, soft)|
    ensures c.fixed == map[] && !c.ignore && c.record == None
    ensures exists bs: Bdd :: Assembled(c.b, c.bh, bs, hard, soft, c.layout, members, m.maxvar, m.maxNumBits, w.numBddVar)
    ensures w.numBddVar == m.maxvar * m.maxNumBits
    ensures w.Valid() && Grows(old(w.nodeWeightHash), w.numBddVar, w.nodeWeightHash, old(w.nodeHash), w.nodeHash)
    ensures MemoCorrect(w.numBddVar, old(w.nodeWeightHash), old(w.nodeHash)) ==> MemoCorrect(w.numBddVar, w.nodeWeightHash, w.nodeHash)
    ensures KeepsTrue(c.b, w.numBddVar, old(w.nodeWeightHash), old(w.nodeHash), w.nodeWeightHash, w.nodeHash)
    ensures c.b.node.Branch? ==> c.b in w.nodeWeightHash
  {
    hide *;
    var bh, bs := BuildDiagrams(m, members, hard, soft);
    var b := JoinDiagrams(m, w, bh, bs, Fieldset(hard, soft));
    AssembledOf(b, bh, bs, hard, soft, m.extHash, members, m.maxvar, m.maxNumBits, w.numBddVar);
    ObjectFields(m.extHash, members, Fieldset(hard, soft), m.maxvar, m.maxNumBits);
    c := new ConstraintObject(m.extHash, members, m.maxvar, bh, b);
    NewObject(c, m.extHash, members, Fieldset(hard, soft), m.maxvar);
  }

  /** `init_maxvar`, `init_bdd` and `get_bdd` for both constraints. */
  method BuildDiagrams(m: VariableTable, members: seq<Ext>, hard: Expr, soft: Expr) returns (bh: Bdd, bs: Bdd)
    requires ValidLayout(m.extHash)
    requires forall x | x in members :: x !in m.extHash
    requires forall x | x in Fieldset(hard, soft) :: x in members
    modifies m
    ensures m.maxvar == |Fieldset(hard, soft)| && m.extHash.Keys == old(m.extHash).Keys + Fieldset(hard, soft)
    ensures ObjectLayout(m.extHash, members, Fieldset(hard, soft), m.maxvar, m.maxNumBits)
    ensures Built(bh, hard, m.extHash, members, m.maxvar, m.maxNumBits) && Built(bs, soft, m.extHash, members, m.maxvar, m.maxNumBits)
    ensures bh != FALSE && Confined(bh, m.extHash, Fieldset(hard, soft)) && InRange(bh, m.maxvar, m.maxNumBits)
    ensures bs != FALSE && Confined(bs, m.extHash, Fieldset(hard, soft)) && InRange(bs, m.maxvar, m.maxNumBits)
  {
    hide *;
    ghost var keys := m.extHash.Keys;
    FieldsetIs(hard, soft);
    NewFields(members, keys, Fieldset(hard, soft));
    m.InitConstraint(hard, soft);
    OnlyNewFields(members, keys, Fieldset(hard, soft), m.extHash);
    LayoutOfObject(m.extHash, members, Fieldset(hard, soft), m.maxvar, m.maxNumBits);
    bh := BuildDiagram(m, members, hard, Fieldset(hard, soft));
    bs := BuildDiagram(m, members, soft, Fieldset(hard, soft));
  }

  method BuildDiagram(m: VariableTable, members: seq<Ext>, e: Expr, ghost xs: set<Ext>) returns (b: Bdd)
    requires ObjectLayout(m.extHash, members, xs, m.maxvar, m.maxNumBits) && Exts(e) <= xs
    modifies m`extHash, m`nthvar
    ensures m.extHash == old(m.extHash)
    ensures Built(b, e, m.extHash, members, m.maxvar, m.maxNumBits)
    ensures b != FALSE && Confined(b, m.extHash, xs) && InRange(b, m.maxvar, m.maxNumBits)
  {
    hide ValidLayout, Interleaved, Built, Confined, Eval, Canonical, Below, InRange, ObjectLayout;
    ObjectFields(m.extHash, members, xs, m.maxvar, m.maxNumBits);
    b := GetBdd(m, e, members);
    BuiltFacts(b, e, m.extHash, members, xs, m.maxvar, m.maxNumBits);
  }

  /** `_scv_bdd_and` on built diagrams. */
  method JoinDiagrams(m: VariableTable, w: WeightTable, bh: Bdd, bs: Bdd, ghost xs: set<Ext>) returns (b: Bdd)
    requires InRange(bh, m.maxvar, m.maxNumBits) && InRange(bs, m.maxvar, m.maxNumBits) && w.Valid()
    requires bh != FALSE && Confined(bh, m.extHash, xs) && Confined(bs, m.extHash, xs)
    modifies w
    ensures Joined(b, bh, bs) && b != FALSE && Confined(b, m.extHash, xs) && Below(b, w.numBddVar)
    ensures w.Valid() && w.numBddVar == m.maxvar * m.maxNumBits
    ensures Grows(old(w.nodeWeightHash), w.numBddVar, w.nodeWeightHash, old(w.nodeHash), w.nodeHash)
    ensures MemoCorrect(w.numBddVar, old(w.nodeWeightHash), old(w.nodeHash)) ==> MemoCorrect(w.numBddVar, w.nodeWeightHash, w.nodeHash)
    ensures KeepsTrue(b, w.numBddVar, old(w.nodeWeightHash), old(w.nodeHash), w.nodeWeightHash, w.nodeHash)
    ensures b.node.Branch? ==> b in w.nodeWeightHash
  {
    hide Confined, MemoCorrect, Eval, Canonical, Below, Joined, Grows, Positive, Closed, KeepsTrue;
    b := BddAnd(m, w, bh, bs);
    JoinedFacts(b, bh, bs, m.extHash, xs);
  }

  lemma ObjectFields(layout: Layout, members: seq<Ext>, xs: set<Ext>, maxvar: nat, bits: nat)
    requires ObjectLayout(layout, members, xs, maxvar, bits)
    ensures ValidLayout(layout) && Interleaved(layout, xs, maxvar) && xs <= layout.Keys
    ensures forall x | x in members && x in layout :: x in xs
  {
  }

  lemma FieldsetIs(hard: Expr, soft: Expr)
    ensures Fieldset(hard, soft) == Exts(hard) + Exts(soft)
    ensures Exts(hard) <= Fieldset(hard, soft) && Exts(soft) <= Fieldset(hard, soft)
  {
  }

  lemma NewFields(members: seq<Ext>, keys: set<Ext>, xs: set<Ext>)
    requires (forall x | x in members :: x !in keys) && forall x | x in xs :: x in members
    ensures keys !! xs
  {
  }

  lemma OnlyNewFields(members: seq<Ext>, keys: set<Ext>, xs: set<Ext>, layout: Layout)
    requires (forall x | x in members :: x !in keys) && layout.Keys <= keys + xs
    ensures forall x | x in members && x in layout :: x in xs
  {
  }

  lemma NewObject(c: ConstraintObject, layout: Layout, members: seq<Ext>, xs: set<Ext>, n: nat)
    requires c.Valid() && c.layout == layout && c.members == members && c.columns == n && c.record == None
    requires Interleaved(layout, xs, n) && xs <= layout.Keys
    requires forall x | x in members && x in layout :: x in xs
    requires forall x | x in xs :: x in members
    requires c.bh != FALSE && c.b != FALSE && Confined(c.bh, layout, xs) && Confined(c.b, layout, xs)
    ensures c.Solvable() && c.Known() == xs
  {
    hide Confined, Interleaved, Eval, Canonical, ValidLayout;
    assert c.Known() == xs;
  }

  // ---------------------------------------------------------------- what the built diagrams mean

  /** A compiled tree at the top of a constraint holds when its mathematical value is true. */
  lemma TopMeaning(w: Word, i: Ideal)
    requires Represents(w, i) && !w.IsConstant()
    ensures WordAnd(w, Truth(true)) == Truth(IsTrue(i))
  {
    if w.Vec? { HasBitIsTrue(w, i); }
  }

  /** The compiler gets the tree right at these values, and it is true there, or false. */
  predicate TrueAt(e: Expr, val: Valuation) {
    Faithful(e, val) && IsTrue(IdealValue(e, val))
  }

  predicate FalseAt(e: Expr, val: Valuation) {
    Faithful(e, val) && !IsTrue(IdealValue(e, val))
  }

  /** On field values the compiler gets right, the compiled tree holds exactly when the expression does;
      a bare constant, which the compiler drops, must be a true one. */
  lemma SatisfiesIsIdeal(e: Expr, layout: Layout, xs: set<Ext>, n: nat, val: Valuation)
    requires ValidLayout(layout) && Interleaved(layout, xs, n) && InWidth(xs, val) && Exts(e) <= xs && Faithful(e, val)
    requires Meaning(e, val).IsConstant() ==> IsTrue(IdealValue(e, val))
    ensures Satisfies(e, layout, Encode(layout, xs, val)) <==> IsTrue(IdealValue(e, val))
  {
    hide Faithful, Pow2, BitOf, ValidLayout;
    var under := ValuesUnder(layout, Encode(layout, xs, val));
    forall x | x in Exts(e) ensures Lookup(under, x) == Lookup(val, x) { EncodeDecode(layout, xs, n, val, x); }
    MeaningAgree(e, under, val);
    FaithfulMeaning(e, val);
    if !Meaning(e, val).IsConstant() { TopMeaning(Meaning(e, val), IdealValue(e, val)); }
  }

  /** A bare constant is as true at one valuation as at another. */
  lemma ConstantAnywhere(e: Expr, some: Valuation, val: Valuation)
    requires TrueAt(e, some) && Faithful(e, val)
    ensures Meaning(e, some).IsConstant() ==> IsTrue(IdealValue(e, some))
    ensures Meaning(e, val).IsConstant() ==> IsTrue(IdealValue(e, val))
  {
    hide Faithful, IdealValue;
    ShapeIsStatic(e, val, some);
    FaithfulMeaning(e, some);
    FaithfulMeaning(e, val);
  }

  /** End to end for one constraint: if it is true at some field values, then at all values the compiler
      gets right the built diagram is solved exactly if the constraint is true. */
  lemma BuiltIsIdeal(b: Bdd, e: Expr, layout: Layout, members: seq<Ext>, xs: set<Ext>, maxvar: nat, bits: nat, some: Valuation, val: Valuation)
    requires ObjectLayout(layout, members, xs, maxvar, bits) && Exts(e) <= xs && Built(b, e, layout, members, maxvar, bits)
    requires InWidth(xs, some) && TrueAt(e, some)
    requires InWidth(xs, val) && Faithful(e, val)
    ensures Eval(b, Encode(layout, xs, val)) <==> IsTrue(IdealValue(e, val))
  {
    ConstantAnywhere(e, some, val);
    hide Satisfies, Faithful, Canonical, AllSparseClear, Encode, InWidth, ValidLayout, IdealValue, Interleaved;
    SatisfiesIsIdeal(e, layout, xs, maxvar, some);
    SatisfiesIsIdeal(e, layout, xs, maxvar, val);
    assert Satisfies(e, layout, Encode(layout, xs, some));
    EncodingOnFieldBits(layout, xs, val);
    NoSparseFieldBit(layout, members, xs, maxvar, bits, Encode(layout, xs, val));
  }

  /** The compiled diagram and the interpreter: where the compiler gets a constraint right and its values fit
      the interpreter's types, the diagram is solved exactly when `evaluate` says yes, if and only if the
      value of the whole constraint is not negative. */
  lemma SolverAgreesWithEvaluate(b: Bdd, e: Expr, layout: Layout, members: seq<Ext>, xs: set<Ext>, maxvar: nat, bits: nat,
                                 some: Valuation, val: Valuation)
    requires ObjectLayout(layout, members, xs, maxvar, bits) && Exts(e) <= xs && Built(b, e, layout, members, maxvar, bits)
    requires InWidth(xs, some) && TrueAt(e, some)
    requires InWidth(xs, val) && Faithful(e, val) && Interpreter.Fits(e, val)
    ensures (Eval(b, Encode(layout, xs, val)) <==> Interpreter.IsPositive(Interpreter.Evaluate(e, val)))
       <==> AsNumber(IdealValue(e, val)) >= 0
  {
    hide *;
    BuiltIsIdeal(b, e, layout, members, xs, maxvar, bits, some, val);
    Interpreter.EvaluateExactIff(e, val);
  }

  /** End to end for an object whose constraints can be met together: of the field values the compiler gets
      right, its solutions are exactly those that meet the hard and the soft constraint. */
  lemma ObjectIsIdeal(b: Bdd, bh: Bdd, bs: Bdd, hard: Expr, soft: Expr, layout: Layout, members: seq<Ext>, xs: set<Ext>,
                      maxvar: nat, bits: nat, both: Valuation, val: Valuation)
    requires ObjectLayout(layout, members, xs, maxvar, bits) && Exts(hard) <= xs && Exts(soft) <= xs
    requires Built(bh, hard, layout, members, maxvar, bits) && Built(bs, soft, layout, members, maxvar, bits) && Joined(b, bh, bs)
    requires InWidth(xs, both) && TrueAt(hard, both) && TrueAt(soft, both)
    requires InWidth(xs, val) && Faithful(hard, val) && Faithful(soft, val)
    ensures Eval(b, Encode(layout, xs, val)) <==> IsTrue(IdealValue(hard, val)) && IsTrue(IdealValue(soft, val))
  {
    hide Faithful, Canonical, Encode, InWidth, ValidLayout, IdealValue, Interleaved, Built, IsTrue, ObjectLayout, Joined, Eval;
    BuiltIsIdeal(bh, hard, layout, members, xs, maxvar, bits, both, val);
    BuiltIsIdeal(bs, soft, layout, members, xs, maxvar, bits, both, val);
    BuiltIsIdeal(bh, hard, layout, members, xs, maxvar, bits, both, both);
    BuiltIsIdeal(bs, soft, layout, members, xs, maxvar, bits, both, both);
    JoinedCompatible(b, bh, bs, Encode(layout, xs, both), Encode(layout, xs, val));
  }

  lemma JoinedCompatible(b: Bdd, bh: Bdd, bs: Bdd, common: Assignment, s: Assignment)
    requires Joined(b, bh, bs) && Eval(bh, common) && Eval(bs, common)
    ensures Eval(b, s) <==> Eval(bh, s) && Eval(bs, s)
  {
    hide Canonical;
  }

  /** At all field values one of the two constraints is false. */
  ghost predicate Exclusive(hard: Expr, soft: Expr, xs: set<Ext>) {
    forall val: Valuation | InWidth(xs, val) :: FalseAt(hard, val) || FalseAt(soft, val)
  }

  /** When the constraints exclude each other the soft one is dropped: the solutions are those of the hard one. */
  lemma ConflictDropsSoft(b: Bdd, bh: Bdd, bs: Bdd, hard: Expr, soft: Expr, layout: Layout, members: seq<Ext>, xs: set<Ext>,
                          maxvar: nat, bits: nat, someHard: Valuation, someSoft: Valuation, val: Valuation)
    requires ObjectLayout(layout, members, xs, maxvar, bits) && Exts(hard) <= xs && Exts(soft) <= xs
    requires Built(bh, hard, layout, members, maxvar, bits) && Built(bs, soft, layout, members, maxvar, bits) && Joined(b, bh, bs)
    requires InWidth(xs, someHard) && TrueAt(hard, someHard) && InWidth(xs, someSoft) && TrueAt(soft, someSoft)
    requires Exclusive(hard, soft, xs)
    requires InWidth(xs, val) && Faithful(hard, val)
    ensures b == bh && (Eval(b, Encode(layout, xs, val)) <==> IsTrue(IdealValue(hard, val)))
  {
    hide Faithful, Canonical, Encode, InWidth, ValidLayout, IdealValue, Interleaved, Built, IsTrue, ObjectLayout, Eval, Exclusive;
    forall s: Assignment | Eval(bh, s) ensures !Eval(bs, s) {
      if Eval(bs, s) {
        NoCommonSolution(bh, bs, hard, soft, layout, members, xs, maxvar, bits, someHard, someSoft, s);
      }
    }
    BuiltIsIdeal(bh, hard, layout, members, xs, maxvar, bits, someHard, val);
  }

  /** A common solution of the diagrams would give field values at which neither constraint is false. */
  lemma NoCommonSolution(bh: Bdd, bs: Bdd, hard: Expr, soft: Expr, layout: Layout, members: seq<Ext>, xs: set<Ext>,
                         maxvar: nat, bits: nat, someHard: Valuation, someSoft: Valuation, s: Assignment)
    requires ObjectLayout(layout, members, xs, maxvar, bits) && Exts(hard) <= xs && Exts(soft) <= xs
    requires Built(bh, hard, layout, members, maxvar, bits) && Built(bs, soft, layout, members, maxvar, bits)
    requires InWidth(xs, someHard) && TrueAt(hard, someHard) && InWidth(xs, someSoft) && TrueAt(soft, someSoft)
    requires Exclusive(hard, soft, xs)
    ensures !(Eval(bh, s) && Eval(bs, s))
  {
    hide Faithful, Canonical, Encode, InWidth, ValidLayout, IdealValue, Interleaved, Built, IsTrue, ObjectLayout, Eval, Confined, InRange;
    if Eval(bh, s) && Eval(bs, s) {
      BuiltFacts(bh, hard, layout, members, xs, maxvar, bits);
      BuiltFacts(bs, soft, layout, members, xs, maxvar, bits);
      ConfinedHolds(bh, layout, xs, s);
      ConfinedHolds(bs, layout, xs, s);
      var both := ValuesOfFields(layout, members, xs, maxvar, bits, s);
      if FalseAt(hard, both) {
        BuiltIsIdeal(bh, hard, layout, members, xs, maxvar, bits, someHard, both);
      } else {
        BuiltIsIdeal(bs, soft, layout, members, xs, maxvar, bits, someSoft, both);
      }
    }
  }

  lemma ValuesOfFields(layout: Layout, members: seq<Ext>, xs: set<Ext>, maxvar: nat, bits: nat, s: Assignment) returns (both: Valuation)
    requires ObjectLayout(layout, members, xs, maxvar, bits)
    ensures InWidth(xs, both) && Encode(layout, xs, both) == s * FieldBits(layout, xs)
  {
    hide Eval, Canonical, Pow2, BitIndex, Encode, FieldBits;
    both := map x | x in xs :: Val(layout[x].bits, s);
    EncodeOfValues(layout, xs, maxvar, s, both);
  }

  lemma ConfinedHolds(b: Bdd, layout: Layout, xs: set<Ext>, s: Assignment)
    requires Confined(b, layout, xs) && Eval(b, s)
    ensures Eval(b, s * FieldBits(layout, xs))
  {
  }

  // ---------------------------------------------------------------- how likely each solution is

  lemma AssembledFacts(b: Bdd, bh: Bdd, bs: Bdd, hard: Expr, soft: Expr, layout: Layout, members: seq<Ext>, maxvar: nat, bits: nat, n: nat)
    requires Assembled(b, bh, bs, hard, soft, layout, members, maxvar, bits, n)
    ensures ObjectLayout(layout, members, Fieldset(hard, soft), maxvar, bits) && Below(b, n) && Joined(b, bh, bs)
    ensures n == maxvar * bits && forall x | x in Fieldset(hard, soft) :: x in members
    ensures Built(bh, hard, layout, members, maxvar, bits) && Built(bs, soft, layout, members, maxvar, bits)
  {
    hide ObjectLayout, Below, Built, Joined, Fieldset;
  }

  lemma CompleteFrom(b: Bdd, layout: Layout, members: seq<Ext>, xs: set<Ext>, columns: nat, bits: nat, n: nat)
    requires ObjectLayout(layout, members, xs, columns, bits) && NoRepeats(members)
    requires (forall x | x in xs :: x in members) && b != FALSE && Below(b, n)
    requires (forall i | i in FieldBits(layout, xs) :: i < n) && Settled(b, FieldBits(layout, xs), n)
    ensures Complete(b, layout, members, xs, columns, n)
  {
    hide Below, FieldBits, Settled, ValidLayout, Interleaved;
  }

  /** That is what the chances of its draws need. */
  lemma ObjectComplete(b: Bdd, bh: Bdd, bs: Bdd, hard: Expr, soft: Expr, layout: Layout, members: seq<Ext>, maxvar: nat, bits: nat, n: nat)
    requires Assembled(b, bh, bs, hard, soft, layout, members, maxvar, bits, n) && NoRepeats(members)
    ensures Complete(b, layout, members, Fieldset(hard, soft), maxvar, n)
  {
    hide *;
    var xs := Fieldset(hard, soft);
    AssembledFacts(b, bh, bs, hard, soft, layout, members, maxvar, bits, n);
    FieldsetIs(hard, soft);
    JoinedParts(b, bh, bs, hard, soft, layout, members, xs, maxvar, bits, n);
    FieldBitsBelow(layout, members, xs, maxvar, bits);
    CompleteFrom(b, layout, members, xs, maxvar, bits, n);
  }

  lemma JoinedParts(b: Bdd, bh: Bdd, bs: Bdd, hard: Expr, soft: Expr, layout: Layout, members: seq<Ext>, xs: set<Ext>,
                    maxvar: nat, bits: nat, n: nat)
    requires ObjectLayout(layout, members, xs, maxvar, bits) && Exts(hard) <= xs && Exts(soft) <= xs
    requires Joined(b, bh, bs) && Built(bh, hard, layout, members, maxvar, bits) && Built(bs, soft, layout, members, maxvar, bits)
    ensures b != FALSE && Settled(b, FieldBits(layout, xs), n)
  {
    hide *;
    BuiltFacts(bh, hard, layout, members, xs, maxvar, bits);
    BuiltFacts(bs, soft, layout, members, xs, maxvar, bits);
    JoinedFacts(b, bh, bs, layout, xs);
    BuiltSettled(bh, hard, layout, members, xs, maxvar, bits, n);
    BuiltSettled(bs, soft, layout, members, xs, maxvar, bits, n);
    JoinedSettled(b, bh, bs, FieldBits(layout, xs), n);
  }

  /** An object's draws, with exact branch shares, are uniform over the field values that solve its diagram
      exactly when no way through the diagram leaves a bit of a field undecided. */
  lemma ObjectExactUniformIff(b: Bdd, bh: Bdd, bs: Bdd, hard: Expr, soft: Expr, layout: Layout, members: seq<Ext>, maxvar: nat, bits: nat, n: nat)
    requires Assembled(b, bh, bs, hard, soft, layout, members, maxvar, bits, n) && NoRepeats(members)
    ensures Countable(b, n)
    ensures ExactlyUniform(b, layout, members, Fieldset(hard, soft), n) <==> AllDecided(b, layout, Fieldset(hard, soft))
  {
    hide *;
    ObjectComplete(b, bh, bs, hard, soft, layout, members, maxvar, bits, n);
    ExactUniformIff(b, layout, members, Fieldset(hard, soft), maxvar, n);
  }

  /** With right shares in the table every node of a counted diagram has its own. */
  lemma CountedShares(b: Bdd, n: nat, weights: map<Edge, nat>, shares: map<Edge, nat>)
    requires TrueTable(weights, shares) && Closed(weights, shares) && (b.node.Branch? ==> b in weights) && Countable(b, n)
    ensures TrueShares(b, n, shares)
  {
    hide TrueTable, Closed, Reachable, Countable, ElseShare;
    forall k | k in Reachable(b) && k.node.Branch? ensures Countable(k, n) && TrueShare(k, n, shares) { TrueWalk(b, n, weights, shares, k); }
  }

  /** The draws of a built object as the code makes them, with right shares in the table and from whatever word
      the draw before has left: uniform over the field values that solve its diagram exactly when there is one
      such combination. */
  lemma ObjectUniformIff(b: Bdd, bh: Bdd, bs: Bdd, hard: Expr, soft: Expr, layout: Layout, members: seq<Ext>, maxvar: nat, bits: nat, n: nat,
                         weights: map<Edge, nat>, shares: map<Edge, nat>, r: nat)
    requires Assembled(b, bh, bs, hard, soft, layout, members, maxvar, bits, n) && NoRepeats(members)
    requires TrueTable(weights, shares) && Closed(weights, shares) && (b.node.Branch? ==> b in weights) && r < WORD
    ensures Uniform(b, r, shares, layout, members, Fieldset(hard, soft)) <==> |Solutions(b, layout, Fieldset(hard, soft))| == 1
  {
    hide *;
    ObjectComplete(b, bh, bs, hard, soft, layout, members, maxvar, bits, n);
    CompleteFacts(b, layout, members, Fieldset(hard, soft), maxvar, n);
    CountedShares(b, n, weights, shares);
    DrawUniformIff(b, r, shares, layout, members, Fieldset(hard, soft), maxvar, n);
  }

  /** And how it is drawn: the next words of the stream decide which values come, and each combination has as many
      of the sequences of that many words as its chance says. */
  lemma ObjectDraws(b: Bdd, bh: Bdd, bs: Bdd, hard: Expr, soft: Expr, layout: Layout, members: seq<Ext>, maxvar: nat, bits: nat, n: nat,
                    shares: map<Edge, nat>, draw: nat -> nat, start: Rand, fixed: Valuation, last: Rand, s: Assignment, k: nat)
    requires Assembled(b, bh, bs, hard, soft, layout, members, maxvar, bits, n) && NoRepeats(members)
    requires Outcome(b, shares, draw, start, layout, members, Fieldset(hard, soft), map[], fixed, last)
    requires s <= FieldBits(layout, Fieldset(hard, soft)) && start.randomnext < WORD && k >= Most(b, layout, members)
    ensures var giving := Having(Sequences(k), Gives(b, start.randomnext, shares, layout, members, s));
            && (Encode(layout, Fieldset(hard, soft), fixed) == s <==> NextWords(draw, start.pos, k) in giving)
            && |giving| as real == DrawChance(b, start.randomnext, shares, layout, members, s) * Total(k) as real
  {
    hide *;
    ObjectComplete(b, bh, bs, hard, soft, layout, members, maxvar, bits, n);
    CompleteFacts(b, layout, members, Fieldset(hard, soft), maxvar, n);
    NextWordsDecide(b, shares, draw, start, layout, members, Fieldset(hard, soft), maxvar, n, map[], fixed, last, s, k);
    DrawCount(b, start.randomnext, shares, layout, members, s, k);
  }
}

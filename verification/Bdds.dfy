/** Ordered, reduced decision diagrams with complement edges, as the constraint manager uses them.
    A diagram is a value; two diagrams are the same pointer in the source exactly when they are the
    same value here (canonical form, theorem `Canonicity`). */
module Bdds {

  /** `One` is the only constant; `Branch` tests a variable, its then-edge first. */
  datatype Node = One | Branch(index: nat, thenEdge: Edge, elseEdge: Edge)

  /** A pointer to a node, possibly carrying the complement mark. */
  datatype Edge = Edge(complement: bool, node: Node)

  /** An assignment is the set of the variables that are true. */
  type Assignment = set<nat>

  /** The value of the function an edge denotes. */
  predicate Eval(e: Edge, s: Assignment) {
    match e.node
    case One => !e.complement
    case Branch(i, t, f) => e.complement != (if i in s then Eval(t, s) else Eval(f, s))
  }

  /** Ordered from `lo` on, no redundant test, and the complement mark never on a then-edge. */
  predicate Canonical(e: Edge, lo: nat) {
    match e.node
    case One => true
    case Branch(i, t, f) =>
      && lo <= i && !t.complement && t != f
      && Canonical(t, i + 1) && Canonical(f, i + 1)
  }

  /** Every variable the diagram tests is below `n`. */
  predicate Below(e: Edge, n: nat) {
    match e.node
    case One => true
    case Branch(i, t, f) => i < n && Below(t, n) && Below(f, n)
  }

  type Bdd = e: Edge | Canonical(e, 0) witness Edge(false, One)

  const TRUE: Bdd := Edge(false, One)
  const FALSE: Bdd := Edge(true, One)

  // ---------------------------------------------------------------- construction

  function Complement(e: Edge): (r: Edge)
    ensures forall lo: nat :: Canonical(e, lo) ==> Canonical(r, lo)
    ensures forall n: nat :: Below(e, n) ==> Below(r, n)
    ensures forall s: Assignment :: Eval(r, s) == !Eval(e, s)
  {
    Edge(!e.complement, e.node)
  }

  /** The unique-table constructor: drops a redundant test and moves the mark off the then-edge. */
  function MakeNode(i: nat, t: Edge, f: Edge): (r: Edge)
    ensures forall s: Assignment :: Eval(r, s) == if i in s then Eval(t, s) else Eval(f, s)
    ensures forall lo: nat :: lo <= i && Canonical(t, i + 1) && Canonical(f, i + 1) ==> Canonical(r, lo)
    ensures forall n: nat :: i < n && Below(t, n) && Below(f, n) ==> Below(r, n)
  {
    if t == f then
      assert forall lo: nat :: lo <= i && Canonical(t, i + 1) ==> Canonical(t, lo) by { CanonicalMonotone(t); }
      t
    else if t.complement then
      Edge(true, Branch(i, Complement(t), Complement(f)))
    else
      Edge(false, Branch(i, t, f))
  }

  function Variable(i: nat): (r: Bdd)
    ensures forall s: Assignment :: Eval(r, s) <==> i in s
    ensures r.node.Branch? && r.node.index == i
    ensures forall n: nat :: i < n ==> Below(r, n)
  {
    MakeNode(i, TRUE, FALSE)
  }

  /** The smaller of the two top variables. */
  function TopIndex(a: Node, b: Node): (i: nat)
    requires a.Branch? || b.Branch?
  {
    if a.One? then b.index
    else if b.One? then a.index
    else if a.index <= b.index then a.index else b.index
  }

  /** Restriction of `e` to `v` for variable `i`, when `e` tests nothing before `i`. */
  function Cofactor(e: Edge, i: nat, v: bool): (r: Edge)
    ensures forall s: Assignment :: (i in s <==> v) ==> Eval(r, s) == Eval(e, s)
    ensures forall n: nat :: Below(e, n) ==> Below(r, n)
  {
    if e.node.Branch? && e.node.index == i then
      var child := if v then e.node.thenEdge else e.node.elseEdge;
      if e.complement then Complement(child) else child
    else
      e
  }

  /** The branches of an edge, with the edge's own mark carried down. */
  function ThenOf(e: Edge): (r: Edge)
    requires e.node.Branch?
  {
    if e.complement then Complement(e.node.thenEdge) else e.node.thenEdge
  }

  function ElseOf(e: Edge): (r: Edge)
    requires e.node.Branch?
  {
    if e.complement then Complement(e.node.elseEdge) else e.node.elseEdge
  }

  lemma Branches(e: Edge, lo: nat, n: nat)
    requires e.node.Branch?
    ensures forall s: Assignment :: Eval(e, s) == if e.node.index in s then Eval(ThenOf(e), s) else Eval(ElseOf(e), s)
    ensures Canonical(e, lo) ==> Canonical(ThenOf(e), e.node.index + 1) && Canonical(ElseOf(e), e.node.index + 1) && ThenOf(e) != ElseOf(e)
    ensures Below(e, n) ==> Below(ThenOf(e), n) && Below(ElseOf(e), n)
  {
  }

  function AndEdge(a: Edge, b: Edge): Edge
    decreases a.node, b.node
  {
    if a.node.One? then (if a.complement then FALSE else b)
    else if b.node.One? then (if b.complement then FALSE else a)
    else
      var i := TopIndex(a.node, b.node);
      MakeNode(i, AndEdge(Cofactor(a, i, true), Cofactor(b, i, true)),
               AndEdge(Cofactor(a, i, false), Cofactor(b, i, false)))
  }

  lemma CanonicalMonotone(e: Edge)
    ensures forall lo: nat, hi: nat :: lo <= hi && Canonical(e, hi) ==> Canonical(e, lo)
  {
  }

  lemma {:induction false} CofactorCanonical(e: Edge, i: nat, v: bool, lo: nat)
    requires Canonical(e, lo) && lo <= i
    requires e.node.Branch? ==> i <= e.node.index
    ensures Canonical(Cofactor(e, i, v), i + 1)
  {
  }

  lemma {:induction false} AndEdgeEval(a: Edge, b: Edge, s: Assignment)
    ensures Eval(AndEdge(a, b), s) == (Eval(a, s) && Eval(b, s))
    decreases a.node, b.node
  {
    if a.node.Branch? && b.node.Branch? {
      var i := TopIndex(a.node, b.node);
      AndEdgeEval(Cofactor(a, i, i in s), Cofactor(b, i, i in s), s);
    }
  }

  lemma {:induction false} AndEdgeCanonical(a: Edge, b: Edge, lo: nat)
    requires Canonical(a, lo) && Canonical(b, lo)
    ensures Canonical(AndEdge(a, b), lo)
    decreases a.node, b.node
  {
    if a.node.Branch? && b.node.Branch? {
      var i := TopIndex(a.node, b.node);
      forall v: bool ensures Canonical(AndEdge(Cofactor(a, i, v), Cofactor(b, i, v)), i + 1) {
        CofactorCanonical(a, i, v, lo);
        CofactorCanonical(b, i, v, lo);
        AndEdgeCanonical(Cofactor(a, i, v), Cofactor(b, i, v), i + 1);
      }
    }
  }

  lemma {:induction false} AndEdgeBelow(a: Edge, b: Edge, n: nat)
    requires Below(a, n) && Below(b, n)
    ensures Below(AndEdge(a, b), n)
    decreases a.node, b.node
  {
    if a.node.Branch? && b.node.Branch? {
      var i := TopIndex(a.node, b.node);
      AndEdgeBelow(Cofactor(a, i, true), Cofactor(b, i, true), n);
      AndEdgeBelow(Cofactor(a, i, false), Cofactor(b, i, false), n);
    }
  }

  function And(a: Bdd, b: Bdd): (r: Bdd)
    ensures forall s: Assignment :: Eval(r, s) == (Eval(a, s) && Eval(b, s))
    ensures forall n: nat :: Below(a, n) && Below(b, n) ==> Below(r, n)
  {
    AndEdgeCanonical(a, b, 0);
    assert forall s: Assignment :: Eval(AndEdge(a, b), s) == (Eval(a, s) && Eval(b, s)) by {
      forall s: Assignment ensures Eval(AndEdge(a, b), s) == (Eval(a, s) && Eval(b, s)) { AndEdgeEval(a, b, s); }
    }
    assert forall n: nat :: Below(a, n) && Below(b, n) ==> Below(AndEdge(a, b), n) by {
      forall n: nat | Below(a, n) && Below(b, n) ensures Below(AndEdge(a, b), n) { AndEdgeBelow(a, b, n); }
    }
    AndEdge(a, b)
  }

  function Not(a: Bdd): (r: Bdd)
    ensures forall s: Assignment :: Eval(r, s) == !Eval(a, s)
    ensures forall n: nat :: Below(a, n) ==> Below(r, n)
  {
    Complement(a)
  }

  function Or(a: Bdd, b: Bdd): (r: Bdd)
    ensures forall s: Assignment :: Eval(r, s) == (Eval(a, s) || Eval(b, s))
    ensures forall n: nat :: Below(a, n) && Below(b, n) ==> Below(r, n)
  {
    Not(And(Not(a), Not(b)))
  }

  function Xor(a: Bdd, b: Bdd): (r: Bdd)
    ensures forall s: Assignment :: Eval(r, s) == (Eval(a, s) != Eval(b, s))
    ensures forall n: nat :: Below(a, n) && Below(b, n) ==> Below(r, n)
  {
    Or(And(a, Not(b)), And(Not(a), b))
  }

  function Xnor(a: Bdd, b: Bdd): (r: Bdd)
    ensures forall s: Assignment :: Eval(r, s) == (Eval(a, s) == Eval(b, s))
    ensures forall n: nat :: Below(a, n) && Below(b, n) ==> Below(r, n)
  {
    Not(Xor(a, b))
  }

  // ---------------------------------------------------------------- canonicity

  /** Variables a diagram does not reach do not matter. */
  lemma {:induction false} EvalAgree(e: Edge, lo: nat, s: Assignment, s': Assignment)
    requires Canonical(e, lo)
    requires forall i: nat :: lo <= i ==> (i in s <==> i in s')
    ensures Eval(e, s) == Eval(e, s')
  {
    if e.node.Branch? {
      EvalAgree(e.node.thenEdge, e.node.index + 1, s, s');
      EvalAgree(e.node.elseEdge, e.node.index + 1, s, s');
    }
  }

  /** Two canonical diagrams whose cofactors agree at the top variable are equal. */
  lemma {:induction false} SameCofactors(a: Edge, b: Edge, lo: nat)
    requires Canonical(a, lo) && Canonical(b, lo)
    requires a.node.Branch? || b.node.Branch?
    requires var i := TopIndex(a.node, b.node);
             Cofactor(a, i, true) == Cofactor(b, i, true) && Cofactor(a, i, false) == Cofactor(b, i, false)
    ensures a == b
  {
  }

  /** Constructs an assignment on which two different canonical diagrams disagree. */
  lemma {:induction false} Distinguish(a: Edge, b: Edge, lo: nat) returns (s: Assignment)
    requires Canonical(a, lo) && Canonical(b, lo) && a != b
    ensures Eval(a, s) != Eval(b, s)
    ensures forall i :: i in s ==> lo <= i
    decreases a.node, b.node
  {
    if a.node.One? && b.node.One? {
      s := {};
    } else {
      var i := TopIndex(a.node, b.node);
      var v := Cofactor(a, i, true) != Cofactor(b, i, true);
      if !v { assert Cofactor(a, i, false) != Cofactor(b, i, false) by { if Cofactor(a, i, false) == Cofactor(b, i, false) { SameCofactors(a, b, lo); } } }
      CofactorCanonical(a, i, v, lo);
      CofactorCanonical(b, i, v, lo);
      var rest := Distinguish(Cofactor(a, i, v), Cofactor(b, i, v), i + 1);
      s := if v then rest + {i} else rest;
      EvalAgree(Cofactor(a, i, v), i + 1, rest, s);
      EvalAgree(Cofactor(b, i, v), i + 1, rest, s);
    }
  }

  /** Semantic equality is structural equality: the test for the zero node decides satisfiability. */
  lemma {:induction false} Canonicity(a: Bdd, b: Bdd)
    ensures a == b <==> forall s: Assignment :: Eval(a, s) == Eval(b, s)
  {
    if a != b {
      var s := Distinguish(a, b, 0);
    }
  }

  lemma {:induction false} ZeroIffUnsatisfiable(a: Bdd)
    ensures a == FALSE <==> forall s: Assignment :: !Eval(a, s)
  {
    Canonicity(a, FALSE);
    assert forall s: Assignment :: !Eval(FALSE, s);
  }

  /** A diagram whose function ignores every variable from `n` on tests none of them. */
  lemma {:induction false} IndependentBelow(e: Edge, lo: nat, n: nat)
    requires Canonical(e, lo)
    requires forall s: Assignment, i: nat | n <= i :: Eval(e, s + {i}) == Eval(e, s)
    ensures Below(e, n)
    decreases e.node
  {
    if e.node.Branch? {
      var i := e.node.index;
      var t, f := e.node.thenEdge, e.node.elseEdge;
      if n <= i {
        var s := Distinguish(t, f, i + 1);
        EvalAgree(t, i + 1, s, s + {i});
      } else {
        forall s: Assignment, j: nat | n <= j ensures Eval(t, s + {j}) == Eval(t, s) && Eval(f, s + {j}) == Eval(f, s) {
          assert Eval(e, s + {i} + {j}) == Eval(e, s + {i});
          assert Eval(e, s - {i} + {j}) == Eval(e, s - {i});
          EvalAgree(t, i + 1, s, s + {i});
          EvalAgree(t, i + 1, s + {j}, s + {i} + {j});
          EvalAgree(f, i + 1, s, s - {i});
          EvalAgree(f, i + 1, s + {j}, s - {i} + {j});
        }
        IndependentBelow(t, i + 1, n);
        IndependentBelow(f, i + 1, n);
      }
    }
  }
}

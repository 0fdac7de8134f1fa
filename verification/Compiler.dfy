/** The expression-to-diagram compiler: `getExpressionRep` and the case analysis of `expr*`. */
module Compiler {
  import opened Bdds
  import opened Words
  import opened Circuits
  import opened Expressions

  /** An internal expression: the tags of `_scv_expr` the compiler uses. */
  datatype Rep =
    | RepEmpty
    | RepInt(i: int, width: Width)
    | RepUnsigned(u: nat, width: Width)
    | RepBool(b: bool, width: Width)
    | RepBdd(bdd: Bdd)
    | RepVector(bits: seq<Bdd>, signed: bool)
  {
    predicate IsConstant() { RepInt? || RepUnsigned? || RepBool? }
    predicate WellFormed() { RepVector? ==> |bits| > 0 }
  }

  /** What an internal expression denotes under an assignment. */
  function Denotation(r: Rep, s: Assignment): Word
    requires r.WellFormed()
  {
    match r
    case RepEmpty => NoWord
    case RepInt(i, w) => IntWord(i, w)
    case RepUnsigned(u, w) => UnsignedWord(u, w)
    case RepBool(b, w) => BoolWord(b, w)
    case RepBdd(b) => Truth(Eval(b, s))
    case RepVector(bits, signed) => Vec(|bits|, Val(bits, s), signed)
  }

  // ---------------------------------------------------------------- operators

  /** `getConstantExprRep`. */
  method ConstantRep(c: Rep, atLeast: nat) returns (r: Rep)
    requires c.IsConstant()
    ensures r.RepVector? && r.WellFormed()
    ensures forall s: Assignment :: Denotation(r, s) == ConstantWord(Denotation(c, s), atLeast)
  {
    var size := Max(c.width, atLeast);
    var bits;
    match c {
      case RepInt(i, w) => bits := ConstantVector(i, w, size, true);
      case RepUnsigned(u, w) => bits := ConstantVector(u, w, size, false);
      case RepBool(b, w) => bits := ConstantVector(if b then 1 else 0, w, size, true);
    }
    r := RepVector(bits, false);
  }

  /** The operand conversion every binary `expr*` starts with: a constant becomes a vector, widened to
      the other operand when that is a vector. */
  method Widen(a: Rep, b: Rep) returns (r: Rep)
    requires a.WellFormed() && b.WellFormed()
    ensures r.WellFormed()
    ensures forall s: Assignment :: Denotation(r, s) == Widened(Denotation(a, s), Denotation(b, s))
  {
    if a.IsConstant() && b.RepVector? {
      r := ConstantRep(a, |b.bits|);
    } else if a.IsConstant() && b.IsConstant() {
      r := ConstantRep(a, 0);
    } else {
      r := a;
    }
  }

  method ExprPlus(a: Rep, b: Rep) returns (r: Rep)
    requires a.WellFormed() && b.WellFormed()
    ensures r.WellFormed()
    ensures forall s: Assignment :: Denotation(r, s) == WordPlus(Denotation(a, s), Denotation(b, s))
  {
    hide *;
    if a.RepBdd? && b.RepBdd? {
      r := RepBdd(Or(a.bdd, b.bdd));
      TruthsPlus(a, b, r);
      return;
    }
    var x := Widen(a, b);
    var y := Widen(b, a);
    if x.RepVector? && y.RepVector? {
      var bits := Plus(x.bits, y.bits);
      r := RepVector(bits, x.signed || y.signed);
    } else {
      r := RepEmpty;
    }
    VectorWellFormed(r);
    forall s: Assignment ensures Denotation(r, s) == WordPlus(Denotation(a, s), Denotation(b, s)) { PlusDenotes(a, b, x, y, r, s); }
  }

  lemma TruthsPlus(a: Rep, b: Rep, r: Rep)
    requires a.RepBdd? && b.RepBdd? && r.RepBdd? && forall s: Assignment :: Eval(r.bdd, s) == (Eval(a.bdd, s) || Eval(b.bdd, s))
    ensures r.WellFormed() && forall s: Assignment :: Denotation(r, s) == WordPlus(Denotation(a, s), Denotation(b, s))
  {
    hide Eval, Canonical;
  }

  lemma VectorWellFormed(r: Rep)
    requires r.RepVector? ==> |r.bits| > 0
    ensures r.WellFormed()
  {
  }

  lemma PlusDenotes(a: Rep, b: Rep, x: Rep, y: Rep, r: Rep, s: Assignment)
    requires a.WellFormed() && b.WellFormed() && x.WellFormed() && y.WellFormed() && !(a.RepBdd? && b.RepBdd?)
    requires Denotation(x, s) == Widened(Denotation(a, s), Denotation(b, s)) && Denotation(y, s) == Widened(Denotation(b, s), Denotation(a, s))
    requires if x.RepVector? && y.RepVector? then
               r.RepVector? && r.signed == (x.signed || y.signed) && |r.bits| == (if |x.bits| >= |y.bits| then |x.bits| else |y.bits|) + 1 && Val(r.bits, s) == Val(x.bits, s) + Val(y.bits, s)
             else r.RepEmpty?
    ensures r.WellFormed() && Denotation(r, s) == WordPlus(Denotation(a, s), Denotation(b, s))
  {
    hide Eval, Val, Canonical, Widened;
  }

  method ExprMinus(a: Rep, b: Rep) returns (r: Rep)
    requires a.WellFormed() && b.WellFormed()
    ensures r.WellFormed()
    ensures forall s: Assignment :: Denotation(r, s) == WordMinus(Denotation(a, s), Denotation(b, s))
  {
    hide Eval, Val, Canonical, Widened, Difference;
    if a.RepBdd? && b.RepBdd? {
      return RepBdd(And(a.bdd, Not(b.bdd)));
    }
    var x := Widen(a, b);
    var y := Widen(b, a);
    if x.RepVector? && y.RepVector? {
      var bits := Minus(x.bits, y.bits);
      r := RepVector(bits, x.signed);
    } else {
      r := RepEmpty;
    }
  }

  method ExprMultiply(a: Rep, b: Rep) returns (r: Rep)
    requires a.WellFormed() && b.WellFormed()
    ensures r.WellFormed()
    ensures forall s: Assignment :: Denotation(r, s) == WordMultiply(Denotation(a, s), Denotation(b, s))
  {
    hide Eval, Val, Canonical, Widened;
    if a.RepBdd? && b.RepBdd? {
      return RepBdd(And(a.bdd, b.bdd));
    }
    var x := Widen(a, b);
    var y := Widen(b, a);
    if x.RepVector? && y.RepVector? {
      var bits := Multiply(x.bits, y.bits);
      r := RepVector(bits, x.signed || y.signed);
    } else {
      r := RepEmpty;
    }
  }

  method ExprEqual(a: Rep, b: Rep) returns (r: Rep)
    requires a.WellFormed() && b.WellFormed()
    ensures r.WellFormed()
    ensures forall s: Assignment :: Denotation(r, s) == WordEqual(Denotation(a, s), Denotation(b, s))
  {
    hide Eval, Val, Canonical, Widened;
    if a.RepBdd? && b.RepBdd? {
      return RepBdd(Xnor(a.bdd, b.bdd));
    }
    var x := Widen(a, b);
    var y := Widen(b, a);
    if x.RepVector? && y.RepVector? {
      var t := Equal(x.bits, y.bits);
      r := RepBdd(t);
    } else {
      r := RepEmpty;
    }
  }

  method ExprLEq(a: Rep, b: Rep) returns (r: Rep)
    requires a.WellFormed() && b.WellFormed()
    ensures r.WellFormed()
    ensures forall s: Assignment :: Denotation(r, s) == WordAtMost(Denotation(a, s), Denotation(b, s))
  {
    hide Eval, Val, Canonical, Widened, SignedAtMost, UnsignedAtMost;
    if a.RepBdd? && b.RepBdd? {
      return RepBdd(Or(And(Not(a.bdd), b.bdd), Xnor(a.bdd, b.bdd)));
    }
    var x := Widen(a, b);
    var y := Widen(b, a);
    if x.RepVector? && y.RepVector? {
      var t := AtMost(x.bits, y.bits, x.signed || y.signed);
      r := RepBdd(t);
    } else {
      r := RepEmpty;
    }
  }

  method ExprNot(a: Rep) returns (r: Rep)
    requires a.WellFormed()
    ensures r.WellFormed()
    ensures forall s: Assignment :: Denotation(r, s) == WordNot(Denotation(a, s))
  {
    hide Eval, Val, Canonical, ConstantWord, Inverted;
    if a.RepBdd? {
      r := RepBdd(Not(a.bdd));
    } else if a.RepVector? {
      var bits := NotVector(a.bits);
      r := RepVector(bits, a.signed);
    } else if a.IsConstant() {
      var c := ConstantRep(a, 0);
      var bits := NotVector(c.bits);
      r := RepVector(bits, false);
    } else {
      r := RepEmpty;
    }
  }

  method ExprNEqual(a: Rep, b: Rep) returns (r: Rep)
    requires a.WellFormed() && b.WellFormed()
    ensures r.WellFormed()
    ensures forall s: Assignment :: Denotation(r, s) == WordNotEqual(Denotation(a, s), Denotation(b, s))
  {
    hide Eval, Val, Canonical, WordEqual;
    var t := ExprEqual(a, b);
    if t.RepBdd? {
      r := RepBdd(Not(t.bdd));
    } else {
      r := RepEmpty;
    }
  }

  method ExprLThan(a: Rep, b: Rep) returns (r: Rep)
    requires a.WellFormed() && b.WellFormed()
    ensures r.WellFormed()
    ensures forall s: Assignment :: Denotation(r, s) == WordLess(Denotation(a, s), Denotation(b, s))
  {
    hide Eval, Val, Canonical, WordAtMost, WordNotEqual;
    var le := ExprLEq(a, b);
    var ne := ExprNEqual(a, b);
    if le.RepBdd? && ne.RepBdd? {
      r := RepBdd(And(le.bdd, ne.bdd));
    } else {
      r := RepEmpty;
    }
  }

  /** `exprGThan` is `exprLThan` with the operands exchanged. */
  method ExprGThan(a: Rep, b: Rep) returns (r: Rep)
    requires a.WellFormed() && b.WellFormed()
    ensures r.WellFormed()
    ensures forall s: Assignment :: Denotation(r, s) == WordLess(Denotation(b, s), Denotation(a, s))
  {
    r := ExprLThan(b, a);
  }

  method ExprGEq(a: Rep, b: Rep) returns (r: Rep)
    requires a.WellFormed() && b.WellFormed()
    ensures r.WellFormed()
    ensures forall s: Assignment :: Denotation(r, s) == WordAtLeast(Denotation(a, s), Denotation(b, s))
  {
    hide Eval, Val, Canonical, WordLess, WordEqual;
    var gt := ExprGThan(a, b);
    var eq := ExprEqual(a, b);
    if gt.RepBdd? && eq.RepBdd? {
      r := RepBdd(Or(gt.bdd, eq.bdd));
    } else {
      r := RepEmpty;
    }
  }

  /** Whether an operand of `exprAnd` or `exprOr` has a bit set. */
  method AnyBit(a: Rep) returns (t: Bdd)
    requires a.WellFormed() && (a.RepVector? || a.IsConstant())
    ensures forall s: Assignment :: Eval(t, s) <==> HasBit(Denotation(a, s))
  {
    hide Eval, Val, Canonical, ConstantWord;
    if a.RepVector? {
      t := NonZero(a.bits);
    } else {
      var c := ConstantRep(a, 0);
      t := NonZero(c.bits);
    }
  }

  method ExprAnd(a: Rep, b: Rep) returns (r: Rep)
    requires a.WellFormed() && b.WellFormed()
    ensures r.WellFormed()
    ensures forall s: Assignment :: Denotation(r, s) == WordAnd(Denotation(a, s), Denotation(b, s))
  {
    hide Eval, Val, Canonical, HasBit;
    if a.RepEmpty? || b.RepEmpty? {
      r := RepEmpty;
    } else if a.RepBdd? && b.RepBdd? {
      r := RepBdd(And(a.bdd, b.bdd));
    } else if a.RepBdd? {
      if b.IsConstant() {
        r := a;
      } else {
        var t := AnyBit(b);
        r := RepBdd(And(a.bdd, t));
      }
    } else if b.RepBdd? {
      if a.IsConstant() {
        r := b;
      } else {
        var t := AnyBit(a);
        r := RepBdd(And(t, b.bdd));
      }
    } else {
      var t := AnyBit(a);
      var u := AnyBit(b);
      r := RepBdd(And(t, u));
    }
  }

  method ExprOr(a: Rep, b: Rep) returns (r: Rep)
    requires a.WellFormed() && b.WellFormed()
    ensures r.WellFormed()
    ensures forall s: Assignment :: Denotation(r, s) == WordOr(Denotation(a, s), Denotation(b, s))
  {
    hide Eval, Val, Canonical, HasBit;
    if a.RepEmpty? || b.RepEmpty? {
      r := RepEmpty;
    } else if a.RepBdd? && b.RepBdd? {
      r := RepBdd(Or(a.bdd, b.bdd));
    } else if a.RepBdd? {
      if b.IsConstant() {
        r := RepEmpty;
      } else {
        var t := AnyBit(b);
        r := RepBdd(Or(a.bdd, t));
      }
    } else if b.RepBdd? {
      if a.IsConstant() {
        r := RepEmpty;
      } else {
        var t := AnyBit(a);
        r := RepBdd(Or(t, b.bdd));
      }
    } else {
      var t := AnyBit(a);
      var u := AnyBit(b);
      r := RepBdd(Or(t, u));
    }
  }

  // ---------------------------------------------------------------- variables

  /** What the manager remembers of a variable: its vector, and the parameters of its bit indices. */
  datatype Record = Record(bits: seq<Bdd>, signed: bool, start: nat, numvar: nat)

  /** The diagram variable of bit `i`: the bits of all variables are interleaved. */
  function BitIndex(r: Record, i: nat): nat {
    r.numvar * i + r.start
  }

  type Layout = map<Ext, Record>

  predicate ValidLayout(layout: Layout) {
    forall x | x in layout ::
      && |layout[x].bits| == VecSize(x)
      && layout[x].signed == x.kind.SignedInteger?
      && forall i | 0 <= i < |layout[x].bits| :: layout[x].bits[i] == Variable(BitIndex(layout[x], i))
  }

  /** The numbers the variables have under an assignment. */
  function ValuesUnder(layout: Layout, s: Assignment): Valuation {
    map x | x in layout :: Val(layout[x].bits, s)
  }

  predicate Extends(layout: Layout, layout': Layout) {
    forall x | x in layout :: x in layout' && layout'[x] == layout[x]
  }

  lemma ExtendsTransitive(a: Layout, b: Layout, c: Layout)
    requires Extends(a, b) && Extends(b, c)
    ensures Extends(a, c)
  {
  }

  lemma ExtendsReflexive(a: Layout)
    ensures Extends(a, a)
  {
  }

  /** Growing the layout does not change the meaning of an expression over the old variables. */
  lemma MeaningExtends(e: Expr, layout: Layout, layout': Layout)
    requires Extends(layout, layout') && Exts(e) <= layout.Keys
    ensures forall s: Assignment :: Meaning(e, ValuesUnder(layout', s)) == Meaning(e, ValuesUnder(layout, s))
  {
    forall s: Assignment ensures Meaning(e, ValuesUnder(layout', s)) == Meaning(e, ValuesUnder(layout, s)) {
      MeaningAgree(e, ValuesUnder(layout', s), ValuesUnder(layout, s));
    }
  }

  method ExprBinary(op: Operator, a: Rep, b: Rep) returns (r: Rep)
    requires a.WellFormed() && b.WellFormed()
    ensures r.WellFormed()
    ensures forall s: Assignment :: Denotation(r, s) == WordOp(op, Denotation(a, s), Denotation(b, s))
  {
    hide Denotation, WordPlus, WordMinus, WordMultiply, WordEqual, WordNotEqual, WordLess, WordAtLeast, WordAtMost, WordAnd, WordOr;
    match op {
      case PLUS => r := ExprPlus(a, b);
      case MINUS => r := ExprMinus(a, b);
      case MULTIPLY => r := ExprMultiply(a, b);
      case EQUAL => r := ExprEqual(a, b);
      case NOT_EQUAL => r := ExprNEqual(a, b);
      case GREATER => r := ExprGThan(a, b);
      case LESS => r := ExprLThan(a, b);
      case GREATER_EQUAL => r := ExprGEq(a, b);
      case LESS_EQUAL => r := ExprLEq(a, b);
      case AND => r := ExprAnd(a, b);
      case OR => r := ExprOr(a, b);
    }
  }

  /** The variables `xs` share one interleaving of `n` columns: distinct starts below `n`. */
  predicate Interleaved(layout: Layout, xs: set<Ext>, n: nat) {
    && xs <= layout.Keys
    && (forall x | x in xs :: layout[x].numvar == n && layout[x].start < n)
    && (forall x, y | x in xs && y in xs && x != y :: layout[x].start != layout[y].start)
  }

  /** No two bits of interleaved variables share a diagram variable. */
  lemma BitIndexInjective(layout: Layout, xs: set<Ext>, n: nat, x: Ext, i: nat, y: Ext, j: nat)
    requires Interleaved(layout, xs, n) && x in xs && y in xs
    requires BitIndex(layout[x], i) == BitIndex(layout[y], j)
    ensures x == y && i == j
  {
    DivModUnique(BitIndex(layout[x], i), n, i, layout[x].start);
    DivModUnique(BitIndex(layout[y], j), n, j, layout[y].start);
  }

  /** Bits below `bits` of interleaved variables use diagram variables below `n * bits`. */
  lemma BitIndexBound(layout: Layout, xs: set<Ext>, n: nat, x: Ext, i: nat, bits: nat)
    requires Interleaved(layout, xs, n) && x in xs && i < bits
    ensures BitIndex(layout[x], i) < n * bits
  {
    MulAtLeast(bits - i, n);
    Distribute(n, i, bits - i);
  }

  /** The variables made since the last `reset`: columns handed out in order, one interleaving width. */
  ghost predicate Session(layout: Layout, made: set<Ext>, maxvar: nat, nthvar: nat) {
    && made <= layout.Keys && |made| == nthvar
    && (forall x | x in made :: layout[x].numvar == maxvar && layout[x].start < nthvar)
    && (forall x, y | x in made && y in made && x != y :: layout[x].start != layout[y].start)
  }

  lemma SessionGrows(layout: Layout, layout': Layout, made: set<Ext>, maxvar: nat, nthvar: nat, x: Ext)
    requires Session(layout, made, maxvar, nthvar) && Extends(layout, layout')
    requires x !in made && x in layout' && layout'[x].start == nthvar && layout'[x].numvar == maxvar
    ensures Session(layout', made + {x}, maxvar, nthvar + 1)
  {
  }

  lemma SessionEmpty(layout: Layout, maxvar: nat)
    ensures Session(layout, {}, maxvar, 0)
  {
  }

  lemma SessionKeys(layout: Layout, made: set<Ext>, maxvar: nat, nthvar: nat)
    requires Session(layout, made, maxvar, nthvar)
    ensures made <= layout.Keys && |made| == nthvar
  {
  }

  lemma SessionSets(left: set<Ext>, right: set<Ext>, keys: set<Ext>, made: set<Ext>)
    requires (left + right) * keys <= made
    ensures left * keys <= made && right * (keys + left) <= made + left
    ensures made + left + right == made + (left + right) && keys + left + right == keys + (left + right)
  {
  }

  /** The widest of what was seen before and of the variables `xs`, as far as it has changed. */
  predicate WidestOf(before: nat, after: nat, xs: set<Ext>) {
    after != before ==> after > before && exists x :: x in xs && x.width == after
  }

  lemma WidestAlone(before: nat, after: nat, x: Ext)
    requires after == before || after == x.width > before
    ensures WidestOf(before, after, {x})
  {
  }

  lemma WidestBoth(before: nat, between: nat, after: nat, xs: set<Ext>, ys: set<Ext>)
    requires WidestOf(before, between, xs) && WidestOf(between, after, ys)
    ensures WidestOf(before, after, xs + ys)
  {
  }

  lemma WidestNone(bits: nat)
    ensures WidestOf(bits, bits, {})
  {
  }

  lemma ExtsOf(e: Expr)
    ensures e.Extension? ==> Exts(e) == {e.x}
    ensures e.Binary? ==> Exts(e) == Exts(e.left) + Exts(e.right)
    ensures e.Negation? ==> Exts(e) == Exts(e.operand)
    ensures !e.Extension? && !e.Binary? && !e.Negation? ==> Exts(e) == {}
  {
  }

  lemma SessionInterleaved(layout: Layout, made: set<Ext>, n: nat)
    requires Session(layout, made, n, n)
    ensures Interleaved(layout, made, n)
  {
  }

  /** The part of the manager's state that names diagram variables. */
  class VariableTable {
    var nthvar: nat
    var maxvar: nat
    var maxNumBits: nat
    var extHash: Layout
    var countExtHash: set<Ext>

    constructor ()
      ensures nthvar == 0 && maxvar == 1 && maxNumBits == 0 && extHash == map[] && countExtHash == {}
    {
      nthvar, maxvar, maxNumBits, extHash, countExtHash := 0, 1, 0, map[], {};
    }

    /** `reset`, at the start of a new constraint object: the variables already made are kept. */
    method Reset()
      modifies this
      ensures nthvar == 0 && maxvar == 0 && maxNumBits == 0 && countExtHash == {} && extHash == old(extHash)
    {
      nthvar, maxvar, maxNumBits, countExtHash := 0, 0, 0, {};
    }

    /** `createBddVec` and `setExprRep`: fresh interleaved variables for an object. */
    method CreateBddVec(x: Ext)
      requires ValidLayout(extHash) && x !in extHash
      modifies this`extHash, this`nthvar
      ensures nthvar == old(nthvar) + 1
      ensures x in extHash && extHash[x].start == old(nthvar) && extHash[x].numvar == maxvar
      ensures ValidLayout(extHash) && extHash.Keys == old(extHash).Keys + {x} && Extends(old(extHash), extHash)
    {
      var msize := VecSize(x);
      var vec := new Bdd[msize](_ => FALSE);
      for i := 0 to msize
        invariant forall j | 0 <= j < i :: vec[j] == Variable(maxvar * j + nthvar)
        modifies vec
      {
        vec[i] := Variable(maxvar * i + nthvar);
      }
      var record := Record(vec[..], x.kind.SignedInteger?, nthvar, maxvar);
      extHash := extHash[x := record];
      nthvar := nthvar + 1;
    }

    /** `createExprRep` of an object: its recorded vector, made on first use. */
    method CreateExprRep(x: Ext) returns (r: Rep)
      requires ValidLayout(extHash)
      modifies this`extHash, this`nthvar
      ensures ValidLayout(extHash) && Extends(old(extHash), extHash) && extHash.Keys == old(extHash).Keys + {x}
      ensures r == RepVector(extHash[x].bits, extHash[x].signed)
      ensures x in old(extHash) ==> extHash == old(extHash) && nthvar == old(nthvar)
      ensures x !in old(extHash) ==> nthvar == old(nthvar) + 1 && extHash[x].start == old(nthvar) && extHash[x].numvar == maxvar
    {
      if x !in extHash {
        CreateBddVec(x);
      }
      r := RepVector(extHash[x].bits, extHash[x].signed);
    }

    /** `getExpressionRep`: under every assignment the compiled expression means what the word-level
        semantics says about the numbers the assignment gives the variables. */
    method GetExpressionRep(e: Expr) returns (r: Rep)
      requires ValidLayout(extHash)
      modifies this`extHash, this`nthvar
      ensures ValidLayout(extHash) && Extends(old(extHash), extHash) && extHash.Keys == old(extHash).Keys + Exts(e)
      ensures r.WellFormed()
      ensures forall s: Assignment :: Denotation(r, s) == Meaning(e, ValuesUnder(extHash, s))
      decreases e
    {
      match e
      case Empty => r := RepEmpty;
      case IntConstant(i, w) => r := RepInt(i, w);
      case UnsignedConstant(u, w) => r := RepUnsigned(u, w);
      case BoolConstant(b, w) => r := RepBool(b, w);
      case Extension(x) => r := CreateExprRep(x);
      case Binary(op, left, right) =>
        var t1 := GetExpressionRep(left);
        ghost var mid := extHash;
        var t2 := GetExpressionRep(right);
        r := ExprBinary(op, t1, t2);
        MeaningExtends(left, mid, extHash);
      case Negation(operand) =>
        var t1 := GetExpressionRep(operand);
        r := ExprNot(t1);
    }
  
    /** `checkExprRep`. */
    method CheckExprRep(x: Ext)
      modifies this`maxvar, this`maxNumBits, this`countExtHash
      ensures countExtHash == old(countExtHash) + {x}
      ensures maxvar - |countExtHash| == old(maxvar) - |old(countExtHash)|
      ensures maxNumBits == if x in old(countExtHash) then old(maxNumBits) else Max(old(maxNumBits), x.width)
    {
      if x in countExtHash {
        assert countExtHash + {x} == countExtHash;
        return;
      }
      maxvar := maxvar + 1;
      if maxNumBits < x.width {
        maxNumBits := x.width;
      }
      countExtHash := countExtHash + {x};
    }

    /** `countMaxVar`: counts every variable of the expression once. */
    method CountMaxVar(e: Expr)
      requires forall x | x in countExtHash :: x.width <= maxNumBits
      modifies this`maxvar, this`maxNumBits, this`countExtHash
      ensures countExtHash == old(countExtHash) + Exts(e)
      ensures maxvar - |countExtHash| == old(maxvar) - |old(countExtHash)|
      ensures forall x | x in countExtHash :: x.width <= maxNumBits
      ensures WidestOf(old(maxNumBits), maxNumBits, Exts(e))
      decreases e
    {
      ghost var bits0, bits1 := maxNumBits, maxNumBits;
      hide WidestOf, Exts;
      ExtsOf(e);
      match e
      case Extension(x) =>
        CheckExprRep(x);
        WidestAlone(bits0, maxNumBits, x);
      case Binary(_, left, right) =>
        CountMaxVar(left);
        bits1 := maxNumBits;
        CountMaxVar(right);
        WidestBoth(bits0, bits1, maxNumBits, Exts(left), Exts(right));
      case Negation(operand) =>
        CountMaxVar(operand);
      case _ =>
        WidestNone(bits0);
    }

    /** `initExpression`: makes the vectors of the variables of the expression, in order. The ghost set
        holds the variables made since the last `reset`. */
    method InitExpression(e: Expr, ghost made: set<Ext>)
      requires ValidLayout(extHash) && Session(extHash, made, maxvar, nthvar)
      requires Exts(e) * extHash.Keys <= made
      modifies this`extHash, this`nthvar
      ensures ValidLayout(extHash) && Extends(old(extHash), extHash) && extHash.Keys == old(extHash).Keys + Exts(e)
      ensures Session(extHash, made + Exts(e), maxvar, nthvar)
      decreases e, 1
    {
      hide *;
      ExtsOf(e);
      match e
      case Extension(x) =>
        InitVariable(x, made);
      case Binary(_, left, right) =>
        InitBoth(left, right, made, e);
      case Negation(operand) =>
        InitExpression(operand, made);
      case _ =>
        ExtendsReflexive(extHash);
        assert made + {} == made;
    }

    /** A variable: a vector is made for it unless it has one. */
    method InitVariable(x: Ext, ghost made: set<Ext>)
      requires ValidLayout(extHash) && Session(extHash, made, maxvar, nthvar)
      requires {x} * extHash.Keys <= made
      modifies this`extHash, this`nthvar
      ensures ValidLayout(extHash) && Extends(old(extHash), extHash) && extHash.Keys == old(extHash).Keys + {x}
      ensures Session(extHash, made + {x}, maxvar, nthvar)
    {
      hide Session, ValidLayout, Extends;
      assert x in extHash ==> x in made by { assert x in extHash ==> x in {x} * extHash.Keys; }
      var r := CreateExprRep(x);
      if x in made {
        SessionKeys(old(extHash), made, maxvar, old(nthvar));
        assert made + {x} == made;
      } else {
        SessionGrows(old(extHash), extHash, made, maxvar, old(nthvar), x);
      }
    }

    /** The two operands, the left one first. */
    method InitBoth(left: Expr, right: Expr, ghost made: set<Ext>, ghost whole: Expr)
      requires whole.Binary? && whole.left == left && whole.right == right
      requires ValidLayout(extHash) && Session(extHash, made, maxvar, nthvar)
      requires (Exts(left) + Exts(right)) * extHash.Keys <= made
      modifies this`extHash, this`nthvar
      ensures ValidLayout(extHash) && Extends(old(extHash), extHash) && extHash.Keys == old(extHash).Keys + (Exts(left) + Exts(right))
      ensures Session(extHash, made + (Exts(left) + Exts(right)), maxvar, nthvar)
      decreases whole, 0
    {
      hide *;
      SessionSets(Exts(left), Exts(right), extHash.Keys, made);
      InitExpression(left, made);
      ghost var mid := extHash;
      InitExpression(right, made + Exts(left));
      ExtendsTransitive(old(extHash), mid, extHash);
    }

    /** A constraint object with its own variables: `reset`, count, then make. Afterwards every bit of
        every variable has a diagram variable of its own, below `maxvar * maxNumBits`. */
    method InitConstraint(hard: Expr, soft: Expr)
      requires ValidLayout(extHash) && extHash.Keys !! Exts(hard) + Exts(soft)
      modifies this
      ensures ValidLayout(extHash) && Extends(old(extHash), extHash)
      ensures extHash.Keys == old(extHash).Keys + Exts(hard) + Exts(soft)
      ensures maxvar == |Exts(hard) + Exts(soft)|
      ensures Interleaved(extHash, Exts(hard) + Exts(soft), maxvar)
      ensures forall x | x in Exts(hard) + Exts(soft) :: x.width <= maxNumBits
    {
      hide ValidLayout, Session, Interleaved, Exts, Extends;
      Reset();
      CountMaxVar(hard);
      CountMaxVar(soft);
      SessionEmpty(extHash, maxvar);
      InitExpression(hard, {});
      ghost var mid := extHash;
      InitExpression(soft, {} + Exts(hard));
      ExtendsTransitive(old(extHash), mid, extHash);
      assert {} + Exts(hard) + Exts(soft) == Exts(hard) + Exts(soft);
      SessionKeys(extHash, Exts(hard) + Exts(soft), maxvar, nthvar);
      SessionInterleaved(extHash, Exts(hard) + Exts(soft), maxvar);
    }
  }
}

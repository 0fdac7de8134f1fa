/** Constraint expressions, and what the compiler makes of them at the level of words: `Meaning` has
    the same cases as the compiler, but computes with numbers instead of vectors of diagrams. */
module Expressions {
  import opened Words
  import opened Circuits

  type Width = w: nat | w > 0 witness 1

  datatype Kind = SignedInteger | UnsignedInteger | Boolean

  /** A randomizable object: identity, kind and bit width. */
  datatype Ext = Ext(id: nat, kind: Kind, width: Width)

  /** `getSizeOfBddVec`. */
  function VecSize(x: Ext): Width {
    if x.kind.Boolean? then 1 else x.width
  }

  datatype Operator =
    PLUS | MINUS | MULTIPLY | EQUAL | NOT_EQUAL | GREATER | LESS | GREATER_EQUAL | LESS_EQUAL | AND | OR

  datatype Expr =
    | Empty
    | IntConstant(i: int, width: Width)
    | UnsignedConstant(u: nat, width: Width)
    | BoolConstant(b: bool, width: Width)
    | Extension(x: Ext)
    | Binary(op: Operator, left: Expr, right: Expr)
    | Negation(operand: Expr)

  function Exts(e: Expr): set<Ext> {
    match e
    case Extension(x) => {x}
    case Binary(_, l, r) => Exts(l) + Exts(r)
    case Negation(o) => Exts(o)
    case _ => {}
  }

  /** What an internal expression denotes: nothing (after an error), a constant not yet turned into
      bits, a truth value, or a vector of a width with a sign flag. */
  datatype Word =
    | NoWord
    | IntWord(i: int, width: Width)
    | UnsignedWord(u: nat, width: Width)
    | BoolWord(b: bool, width: Width)
    | Truth(holds: bool)
    | Vec(size: Width, v: nat, signed: bool)
  {
    predicate IsConstant() { IntWord? || UnsignedWord? || BoolWord? }
  }

  type Valuation = map<Ext, nat>

  function Lookup(val: Valuation, x: Ext): nat {
    if x in val then val[x] else 0
  }

  function Max(a: nat, b: nat): nat { if a >= b then a else b }

  /** `getConstantExprRep`: a constant as a vector of at least its own width. */
  function ConstantWord(c: Word, atLeast: nat): Word
    requires c.IsConstant()
  {
    var size := Max(c.width, atLeast);
    match c
    case IntWord(i, w) => Vec(size, ConstantValue(i, w, size, true), false)
    case UnsignedWord(u, w) => Vec(size, ConstantValue(u, w, size, false), false)
    case BoolWord(b, w) => Vec(size, ConstantValue(if b then 1 else 0, w, size, true), false)
  }

  /** The operands of an arithmetic or comparison circuit: a constant is widened to the other operand. */
  function Widened(a: Word, b: Word): Word {
    if a.IsConstant() && (b.Vec? || b.IsConstant()) then ConstantWord(a, if b.Vec? then b.size else 0) else a
  }

  function WordPlus(a: Word, b: Word): Word {
    if a.Truth? && b.Truth? then Truth(a.holds || b.holds) else
    var x, y := Widened(a, b), Widened(b, a);
    if x.Vec? && y.Vec? then Vec(Max(x.size, y.size) + 1, x.v + y.v, x.signed || y.signed) else NoWord
  }

  function WordMinus(a: Word, b: Word): Word {
    if a.Truth? && b.Truth? then Truth(a.holds && !b.holds) else
    var x, y := Widened(a, b), Widened(b, a);
    if x.Vec? && y.Vec? then Vec(Max(x.size, y.size), Difference(x.size, x.v, y.size, y.v), x.signed) else NoWord
  }

  function WordMultiply(a: Word, b: Word): Word {
    if a.Truth? && b.Truth? then Truth(a.holds && b.holds) else
    var x, y := Widened(a, b), Widened(b, a);
    if x.Vec? && y.Vec? then Vec(x.size + y.size, x.v * y.v, x.signed || y.signed) else NoWord
  }

  function WordEqual(a: Word, b: Word): Word {
    if a.Truth? && b.Truth? then Truth(a.holds == b.holds) else
    var x, y := Widened(a, b), Widened(b, a);
    if x.Vec? && y.Vec? then Truth(x.v == y.v) else NoWord
  }

  function WordNot(a: Word): Word {
    if a.Truth? then Truth(!a.holds)
    else if a.Vec? then Vec(a.size, Inverted(a.size, a.v), a.signed)
    else if a.IsConstant() then var c := ConstantWord(a, 0); Vec(c.size, Inverted(c.size, c.v), false)
    else NoWord
  }

  function WordNotEqual(a: Word, b: Word): Word {
    var t := WordEqual(a, b);
    if t.Truth? then Truth(!t.holds) else NoWord
  }

  function WordAtMost(a: Word, b: Word): Word {
    if a.Truth? && b.Truth? then Truth(a.holds ==> b.holds) else
    var x, y := Widened(a, b), Widened(b, a);
    if x.Vec? && y.Vec? then
      Truth(if x.signed || y.signed then SignedAtMost(x.size, x.v, y.size, y.v) else UnsignedAtMost(x.size, x.v, y.v))
    else NoWord
  }

  function WordLess(a: Word, b: Word): Word {
    var le, ne := WordAtMost(a, b), WordNotEqual(a, b);
    if le.Truth? && ne.Truth? then Truth(le.holds && ne.holds) else NoWord
  }

  function WordAtLeast(a: Word, b: Word): Word {
    var gt, eq := WordLess(b, a), WordEqual(a, b);
    if gt.Truth? && eq.Truth? then Truth(gt.holds || eq.holds) else NoWord
  }

  /** Whether a vector or a constant has a bit set. */
  predicate HasBit(a: Word)
    requires a.Vec? || a.IsConstant()
  {
    if a.Vec? then a.v != 0 else ConstantWord(a, 0).v != 0
  }

  /** `exprAnd`: beside a truth value a constant is dropped, whatever its value. */
  function WordAnd(a: Word, b: Word): Word {
    if a.NoWord? || b.NoWord? then NoWord
    else if a.Truth? && b.Truth? then Truth(a.holds && b.holds)
    else if a.Truth? then (if b.IsConstant() then a else Truth(a.holds && HasBit(b)))
    else if b.Truth? then (if a.IsConstant() then b else Truth(HasBit(a) && b.holds))
    else Truth(HasBit(a) && HasBit(b))
  }

  /** `exprOr`: there is no case for a constant beside a truth value. */
  function WordOr(a: Word, b: Word): Word {
    if a.NoWord? || b.NoWord? then NoWord
    else if a.Truth? && b.Truth? then Truth(a.holds || b.holds)
    else if a.Truth? then (if b.IsConstant() then NoWord else Truth(a.holds || HasBit(b)))
    else if b.Truth? then (if a.IsConstant() then NoWord else Truth(HasBit(a) || b.holds))
    else Truth(HasBit(a) || HasBit(b))
  }

  function WordOp(op: Operator, a: Word, b: Word): Word {
    match op
    case PLUS => WordPlus(a, b)
    case MINUS => WordMinus(a, b)
    case MULTIPLY => WordMultiply(a, b)
    case EQUAL => WordEqual(a, b)
    case NOT_EQUAL => WordNotEqual(a, b)
    case GREATER => WordLess(b, a)
    case LESS => WordLess(a, b)
    case GREATER_EQUAL => WordAtLeast(a, b)
    case LESS_EQUAL => WordAtMost(a, b)
    case AND => WordAnd(a, b)
    case OR => WordOr(a, b)
  }

  /** The word-level meaning of a compiled expression. */
  function Meaning(e: Expr, val: Valuation): Word {
    match e
    case Empty => NoWord
    case IntConstant(i, w) => IntWord(i, w)
    case UnsignedConstant(u, w) => UnsignedWord(u, w)
    case BoolConstant(b, w) => BoolWord(b, w)
    case Extension(x) => Vec(VecSize(x), Lookup(val, x), x.kind.SignedInteger?)
    case Binary(op, l, r) => WordOp(op, Meaning(l, val), Meaning(r, val))
    case Negation(o) => WordNot(Meaning(o, val))
  }

  /** Only the variables of the expression matter. */
  lemma {:induction false} MeaningAgree(e: Expr, val: Valuation, val': Valuation)
    requires forall x | x in Exts(e) :: Lookup(val, x) == Lookup(val', x)
    ensures Meaning(e, val) == Meaning(e, val')
  {
    match e
    case Binary(op, l, r) => MeaningAgree(l, val, val'); MeaningAgree(r, val, val');
    case Negation(o) => MeaningAgree(o, val, val');
    case _ =>
  }
}

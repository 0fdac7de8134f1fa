/** `scv_expression::evaluate`: the direct interpreter of constraint expressions, and its agreement with
    the mathematical meaning the compiler is measured against. */
module Interpreter {
  import opened Words
  import opened Expressions
  import opened Exactness

  /** What `_evaluateExpression` returns: a typed scratch value. */
  datatype Scratch = NullValue | IntegerValue(i: int) | UnsignedValue(u: nat) | BooleanValue(b: bool)

  const TWO31: nat := 0x8000_0000
  const TWO32: nat := 0x1_0000_0000
  const TWO63: nat := 0x8000_0000_0000_0000
  const TWO64: nat := 0x1_0000_0000_0000_0000

  /** `get_integer`, a signed 64-bit value. */
  function AsInteger(v: Scratch): int {
    match v
    case NullValue => 0
    case IntegerValue(i) => i
    case UnsignedValue(u) => var m := u % TWO64; if m < TWO63 then m else m - TWO64
    case BooleanValue(b) => if b then 1 else 0
  }

  /** `get_unsigned`, an unsigned 64-bit value. */
  function AsUnsigned(v: Scratch): nat {
    match v
    case NullValue => 0
    case IntegerValue(i) => i % TWO64
    case UnsignedValue(u) => u
    case BooleanValue(b) => if b then 1 else 0
  }

  /** `get_bool`. */
  predicate AsBool(v: Scratch) {
    match v
    case NullValue => false
    case IntegerValue(i) => i != 0
    case UnsignedValue(u) => u != 0
    case BooleanValue(b) => b
  }

  /** `_getBool`, and the final test of `evaluate`: positive, not merely non-zero. */
  predicate IsPositive(v: Scratch) {
    match v
    case NullValue => false
    case IntegerValue(i) => i > 0
    case UnsignedValue(u) => u > 0
    case BooleanValue(b) => b
  }

  /** The conversion to a 32-bit `int`. */
  function Int32(i: int): int {
    var m := i % TWO32;
    if m < TWO31 then m else m - TWO32
  }

  function Flag(b: bool): int { if b then 1 else 0 }

  /** `_evaluateOperation`, before the result is converted to the operand type. */
  function Operate(op: Operator, l: int, r: int): int {
    match op
    case PLUS => l + r
    case MINUS => l - r
    case MULTIPLY => l * r
    case EQUAL => Flag(l == r)
    case NOT_EQUAL => Flag(l != r)
    case GREATER => Flag(l > r)
    case LESS => Flag(l < r)
    case GREATER_EQUAL => Flag(l >= r)
    case LESS_EQUAL => Flag(l <= r)
    case _ => 0
  }

  /** One operator: the type of the left operand decides the type of the computation. */
  function Apply(op: Operator, l: Scratch, r: Scratch): Scratch {
    if l.NullValue? || r.NullValue? then NullValue
    else if op.AND? then IntegerValue(Flag(IsPositive(l) && IsPositive(r)))
    else if op.OR? then IntegerValue(Flag(IsPositive(l) || IsPositive(r)))
    else match l
      case IntegerValue(_) => IntegerValue(Int32(Operate(op, Int32(AsInteger(l)), Int32(AsInteger(r)))))
      case BooleanValue(_) => BooleanValue(Operate(op, Flag(AsBool(l)), Flag(AsBool(r))) != 0)
      case _ => UnsignedValue(Operate(op, AsUnsigned(l) % TWO32, AsUnsigned(r) % TWO32) % TWO32)
  }

  /** `_evaluateExpression`. */
  function Evaluate(e: Expr, val: Valuation): Scratch {
    match e
    case Empty => IntegerValue(0)
    case IntConstant(i, _) => IntegerValue(i)
    case UnsignedConstant(u, _) => UnsignedValue(u)
    case BoolConstant(b, _) => BooleanValue(b)
    case Extension(x) =>
      (match x.kind
       case SignedInteger => IntegerValue(ToSigned(VecSize(x), Lookup(val, x)))
       case UnsignedInteger => UnsignedValue(Lookup(val, x))
       case Boolean => BooleanValue(Lookup(val, x) != 0))
    case Binary(op, l, r) => Apply(op, Evaluate(l, val), Evaluate(r, val))
    case Negation(o) => var v := Evaluate(o, val); if v.NullValue? then NullValue else IntegerValue(Flag(!IsPositive(v)))
  }

  /** The number a scratch value holds. */
  function NumberOf(v: Scratch): int {
    match v
    case NullValue => -1
    case IntegerValue(i) => i
    case UnsignedValue(u) => u
    case BooleanValue(b) => Flag(b)
  }

  /** The 32-bit range the type of a left operand computes in. */
  predicate InType(left: Scratch, n: int) {
    match left
    case NullValue => false
    case IntegerValue(_) => 0 - TWO31 <= n < TWO31
    case UnsignedValue(_) => 0 <= n < TWO32
    case BooleanValue(_) => 0 <= n <= 1
  }

  /** For `&&` and `||`, which ask for positive operands: a negative one does no harm. */
  predicate SignsAgree(op: Operator, i: int, j: int) {
    if op.AND? then (i >= 0 && j >= 0) || i == 0 || j == 0
    else i > 0 || j > 0 || (i == 0 && j == 0)
  }

  /** The operands and the result fit the type the operator computes in. */
  predicate OperandsFit(op: Operator, left: Scratch, i: Ideal, j: Ideal) {
    if op.AND? || op.OR? then SignsAgree(op, AsNumber(i), AsNumber(j))
    else InType(left, AsNumber(i)) && InType(left, AsNumber(j)) && InType(left, AsNumber(IdealOp(op, i, j)))
  }

  /** At every operator the values fit 32 bits, signed or unsigned as its left operand is, and negation has
      no negative operand. Leaves may have any value. */
  predicate Fits(e: Expr, val: Valuation) {
    && !IdealValue(e, val).Undefined?
    && match e
       case Binary(op, l, r) =>
         Fits(l, val) && Fits(r, val) && OperandsFit(op, Evaluate(l, val), IdealValue(l, val), IdealValue(r, val))
       case Negation(o) => Fits(o, val) && AsNumber(IdealValue(o, val)) >= 0
       case Extension(x) => x.kind.Boolean? ==> Lookup(val, x) <= 1
       case _ => true
  }

  lemma ModuloSmall(n: nat, m: nat)
    requires n < m
    ensures n % m == n
  {
  }

  lemma NegativeModulo(n: int, m: nat)
    requires 0 - m <= n < 0
    ensures n % m == n + m
  {
    DivModUnique(n, m, -1, n + m);
  }

  lemma Int32Exact(n: int)
    requires 0 - TWO31 <= n < TWO31
    ensures Int32(n) == n
  {
    if n < 0 { NegativeModulo(n, TWO32); } else { ModuloSmall(n, TWO32); }
  }

  lemma AsIntegerExact(v: Scratch, n: int)
    requires !v.NullValue? && NumberOf(v) == n && 0 - TWO31 <= n < TWO31
    ensures Int32(AsInteger(v)) == n
  {
    if v.UnsignedValue? { ModuloSmall(v.u, TWO64); }
    Int32Exact(n);
  }

  lemma AsUnsignedExact(v: Scratch, n: int)
    requires !v.NullValue? && NumberOf(v) == n && 0 <= n < TWO32
    ensures AsUnsigned(v) % TWO32 == n
  {
    if v.IntegerValue? { ModuloSmall(v.i, TWO64); }
    ModuloSmall(n, TWO32);
  }

  lemma AsBoolExact(v: Scratch, n: int)
    requires !v.NullValue? && NumberOf(v) == n
    ensures AsBool(v) <==> n != 0
  {
  }

  lemma OperateIsIdeal(op: Operator, i: Ideal, j: Ideal)
    requires !op.AND? && !op.OR? && !IdealOp(op, i, j).Undefined?
    ensures Operate(op, AsNumber(i), AsNumber(j)) == AsNumber(IdealOp(op, i, j))
  {
  }

  lemma ApplyAgrees(op: Operator, l: Scratch, r: Scratch, i: Ideal, j: Ideal)
    requires !l.NullValue? && !r.NullValue? && !IdealOp(op, i, j).Undefined?
    requires NumberOf(l) == AsNumber(i) && NumberOf(r) == AsNumber(j) && OperandsFit(op, l, i, j)
    ensures var v := Apply(op, l, r); !v.NullValue? && NumberOf(v) == AsNumber(IdealOp(op, i, j))
  {
    if op.AND? || op.OR? {
      LogicExactIff(op, l, r, i, j);
    } else {
      OperateIsIdeal(op, i, j);
      hide IdealOp, Operate, AsInteger, AsUnsigned, AsBool, Int32;
      var x, y, n := AsNumber(i), AsNumber(j), AsNumber(IdealOp(op, i, j));
      match l
      case IntegerValue(_) =>
        AsIntegerExact(l, x);
        AsIntegerExact(r, y);
        Int32Exact(n);
      case UnsignedValue(_) =>
        AsUnsignedExact(l, x);
        AsUnsignedExact(r, y);
        ModuloSmall(n, TWO32);
      case BooleanValue(_) =>
        AsBoolExact(l, x);
        AsBoolExact(r, y);
    }
  }

  // ---------------------------------------------------------------- operands that do not fit

  lemma NestedModulo(i: int)
    ensures i % TWO64 % TWO32 == i % TWO32
  {
    var q, m := i / TWO64, i % TWO64;
    DivisionOf(m, TWO32);
    DivModUnique(i, TWO32, q * TWO32 + m / TWO32, m % TWO32);
  }

  lemma WrapKeepsResidue(i: int, m: nat)
    requires m == TWO32 || m == TWO64
    ensures (i % m - m) % TWO32 == i % m % TWO32
  {
    var r := i % m;
    DivisionOf(r, TWO32);
    DivModUnique(r - m, TWO32, r / TWO32 - m / TWO32, r % TWO32);
  }

  /** A value of the left operand's type is determined by its remainder. */
  lemma OneInType(left: Scratch, m: int, n: int)
    requires (left.IntegerValue? || left.UnsignedValue?) && InType(left, m) && InType(left, n) && m % TWO32 == n % TWO32
    ensures m == n
  {
    DivisionOf(m, TWO32);
    DivisionOf(n, TWO32);
  }

  lemma Int32InType(i: int)
    ensures 0 - TWO31 <= Int32(i) < TWO31 && Int32(i) % TWO32 == i % TWO32
  {
    WrapKeepsResidue(i, TWO32);
    DivModUnique(i % TWO32, TWO32, 0, i % TWO32);
  }

  lemma AsIntegerResidue(v: Scratch)
    requires !v.NullValue?
    ensures AsInteger(v) % TWO32 == NumberOf(v) % TWO32
  {
    if v.UnsignedValue? {
      NestedModulo(v.u);
      WrapKeepsResidue(v.u, TWO64);
    }
  }

  lemma AsUnsignedResidue(v: Scratch)
    requires !v.NullValue?
    ensures AsUnsigned(v) % TWO32 == NumberOf(v) % TWO32
  {
    if v.IntegerValue? { NestedModulo(v.i); }
  }

  /** Whatever the operands hold, each is read as the number of the left operand's 32-bit type with the same
      remainder, and the result is the one of that type with the remainder of the outcome. */
  lemma ComputesInType(op: Operator, l: Scratch, r: Scratch, x: int, y: int)
    requires !op.AND? && !op.OR? && (l.IntegerValue? || l.UnsignedValue?) && !r.NullValue?
    requires InType(l, x) && x % TWO32 == NumberOf(l) % TWO32
    requires InType(l, y) && y % TWO32 == NumberOf(r) % TWO32
    ensures var n := NumberOf(Apply(op, l, r)); InType(l, n) && n % TWO32 == Operate(op, x, y) % TWO32
  {
    hide Operate, AsInteger, AsUnsigned, Int32;
    if l.IntegerValue? {
      AsIntegerResidue(l);
      AsIntegerResidue(r);
      Int32InType(AsInteger(l));
      Int32InType(AsInteger(r));
      OneInType(l, x, Int32(AsInteger(l)));
      OneInType(l, y, Int32(AsInteger(r)));
      Int32InType(Operate(op, x, y));
    } else {
      AsUnsignedResidue(l);
      AsUnsignedResidue(r);
      Remainder(NumberOf(l));
      Remainder(NumberOf(r));
      OneInType(l, x, AsUnsigned(l) % TWO32);
      OneInType(l, y, AsUnsigned(r) % TWO32);
      Remainder(Operate(op, x, y));
    }
  }

  lemma Remainder(i: int)
    ensures i % TWO32 % TWO32 == i % TWO32
  {
    DivModUnique(i % TWO32, TWO32, 0, i % TWO32);
  }

  /** On a Boolean left operand the operators are the logical ones, whatever the number on the right. */
  lemma BooleanOperations(b: bool, r: Scratch)
    requires !r.NullValue?
    ensures var c := NumberOf(r) != 0;
            && Apply(PLUS, BooleanValue(b), r) == BooleanValue(b || c)
            && Apply(MULTIPLY, BooleanValue(b), r) == BooleanValue(b && c)
            && Apply(MINUS, BooleanValue(b), r) == Apply(NOT_EQUAL, BooleanValue(b), r) == BooleanValue(b != c)
            && Apply(EQUAL, BooleanValue(b), r) == BooleanValue(b == c)
            && Apply(GREATER, BooleanValue(b), r) == BooleanValue(b && !c)
            && Apply(LESS, BooleanValue(b), r) == BooleanValue(!b && c)
            && Apply(GREATER_EQUAL, BooleanValue(b), r) == BooleanValue(c ==> b)
            && Apply(LESS_EQUAL, BooleanValue(b), r) == BooleanValue(b ==> c)
  {
    var c := NumberOf(r) != 0;
    AsBoolExact(r, NumberOf(r));
    assert AsBool(BooleanValue(b)) == b && AsBool(r) == c;
    hide AsBool, NumberOf;
    if b {
      if c {}
    }
  }

  /** Beside an unsigned left operand -1 is read as the greatest number: `u > -1` fails for every 32-bit `u`. */
  lemma NeverAboveMinusOne(u: nat)
    requires u < TWO32
    ensures Apply(GREATER, UnsignedValue(u), IntegerValue(-1)) == UnsignedValue(0)
    ensures IdealOp(GREATER, Number(u), Number(-1)) == Holds(true)
  {
    NegativeModulo(-1, TWO32);
    Remainder(TWO32 - 1);
    ModuloSmall(TWO32 - 1, TWO32);
    ComputesInType(GREATER, UnsignedValue(u), IntegerValue(-1), u, TWO32 - 1);
  }

  /** No expression evaluates to nothing. */
  lemma {:induction false} NeverNull(e: Expr, val: Valuation)
    ensures !Evaluate(e, val).NullValue?
  {
    hide IsPositive, AsBool, AsInteger, AsUnsigned, Operate, Int32;
    match e
    case Binary(_, l, r) => NeverNull(l, val); NeverNull(r, val);
    case Negation(o) => NeverNull(o, val);
    case _ =>
  }

  /** `_getBool` asks for a positive value, not for one other than zero: `&&` and `||` are right exactly
      when no negative operand decides the result. */
  lemma LogicExactIff(op: Operator, l: Scratch, r: Scratch, i: Ideal, j: Ideal)
    requires op.AND? || op.OR?
    requires !l.NullValue? && !r.NullValue? && NumberOf(l) == AsNumber(i) && NumberOf(r) == AsNumber(j)
    requires !i.Undefined? && !j.Undefined?
    ensures !Apply(op, l, r).NullValue?
    ensures NumberOf(Apply(op, l, r)) == AsNumber(IdealOp(op, i, j)) <==> SignsAgree(op, AsNumber(i), AsNumber(j))
  {
    PositiveIff(l, i);
    PositiveIff(r, j);
  }

  lemma PositiveIff(v: Scratch, i: Ideal)
    requires !v.NullValue? && !i.Undefined? && NumberOf(v) == AsNumber(i)
    ensures IsPositive(v) <==> AsNumber(i) > 0
    ensures IsTrue(i) <==> AsNumber(i) != 0
  {
  }

  /** `!` is right exactly when its operand is not negative. */
  lemma NegationExactIff(o: Expr, val: Valuation)
    requires Fits(o, val)
    ensures NumberOf(Evaluate(Negation(o), val)) == AsNumber(IdealValue(Negation(o), val)) <==> AsNumber(IdealValue(o, val)) >= 0
  {
    hide Fits;
    InterpreterAgrees(o, val);
    FitsDefined(o, val);
    PositiveIff(Evaluate(o, val), IdealValue(o, val));
  }

  lemma FitsDefined(e: Expr, val: Valuation)
    requires Fits(e, val)
    ensures !IdealValue(e, val).Undefined?
  {
  }

  /** Where everything fits, the interpreter computes the mathematical value. */
  lemma {:induction false} InterpreterAgrees(e: Expr, val: Valuation)
    requires Fits(e, val)
    ensures !Evaluate(e, val).NullValue? && NumberOf(Evaluate(e, val)) == AsNumber(IdealValue(e, val))
  {
    hide Apply, IdealOp, OperandsFit;
    match e
    case Binary(op, l, r) =>
      InterpreterAgrees(l, val);
      InterpreterAgrees(r, val);
      ApplyAgrees(op, Evaluate(l, val), Evaluate(r, val), IdealValue(l, val), IdealValue(r, val));
    case Negation(o) =>
      InterpreterAgrees(o, val);
      PositiveIff(Evaluate(o, val), IdealValue(o, val));
    case _ =>
  }

  /** `evaluate` gives the truth of the expression exactly when its value is not negative. */
  lemma EvaluateExactIff(e: Expr, val: Valuation)
    requires Fits(e, val)
    ensures (IsPositive(Evaluate(e, val)) <==> IsTrue(IdealValue(e, val))) <==> AsNumber(IdealValue(e, val)) >= 0
  {
    hide Fits;
    FitsDefined(e, val);
    InterpreterAgrees(e, val);
    PositiveIff(Evaluate(e, val), IdealValue(e, val));
  }
}

/** The bit-level circuits of the constraint manager. A vector of diagrams, least significant bit
    first, denotes for each assignment a natural number; every circuit is proved to compute the
    arithmetic operation on those numbers, for every assignment and all widths. */
module Circuits {
  import opened Bdds
  import opened Words

  /** The number a vector denotes under an assignment. */
  function Val(v: seq<Bdd>, s: Assignment): (n: nat)
    ensures n < Pow2(|v|)
  {
    if |v| == 0 then 0
    else Val(v[..|v| - 1], s) + Weighted(Eval(v[|v| - 1], s), |v| - 1)
  }

  lemma ValAppend(v: seq<Bdd>, b: Bdd, s: Assignment)
    ensures Val(v + [b], s) == Val(v, s) + Weighted(Eval(b, s), |v|)
  {
    assert (v + [b])[..|v|] == v;
  }

  lemma ValPrefixStep(v: seq<Bdd>, k: nat, s: Assignment)
    requires k < |v|
    ensures Val(v[..k + 1], s) == Val(v[..k], s) + Weighted(Eval(v[k], s), k)
  {
    assert v[..k + 1] == v[..k] + [v[k]];
    ValAppend(v[..k], v[k], s);
  }

  /** Truncation to the low bits is the remainder, and the bits are the bits of the number. */
  lemma {:induction false} ValPrefix(v: seq<Bdd>, k: nat, s: Assignment)
    requires k <= |v|
    ensures Val(v[..k], s) == LowPart(Val(v, s), k)
    ensures k < |v| ==> Eval(v[k], s) == BitOf(Val(v, s), k)
    decreases |v| - k
  {
    if k == |v| {
      assert v[..k] == v;
      LowPartSmall(Val(v, s), k);
    } else {
      ValPrefix(v, k + 1, s);
      ValPrefixStep(v, k, s);
      SplitRemainder(Val(v, s), k, Val(v[..k], s), Eval(v[k], s));
    }
  }

  // ---------------------------------------------------------------- constants

  /** The number a constant denotes at a vector size: its low `width` bits, then zeros or the last bit. */
  function ConstantValue(v: int, width: nat, size: nat, signExtend: bool): (n: nat)
    requires 0 < width
    decreases size
  {
    if size <= width then LowPart(v, size)
    else ConstantValue(v, width, size - 1, signExtend) + Weighted(signExtend && BitOf(v, width - 1), size - 1)
  }

  /** A vector that denotes one number under every assignment. */
  ghost predicate Denotes(v: seq<Bdd>, n: nat) {
    forall s: Assignment :: Val(v, s) == n
  }

  lemma DenotesAppend(v: seq<Bdd>, n: nat, bit: bool)
    requires Denotes(v, n)
    ensures Denotes(v + [if bit then TRUE else FALSE], n + Weighted(bit, |v|))
  {
    var b := if bit then TRUE else FALSE;
    forall s: Assignment ensures Val(v + [b], s) == n + Weighted(bit, |v|) {
      ValAppend(v, b, s);
    }
  }

  /** `getConstantExprRep`: `width` explicit bits, extended up to `size` by zeros or by the last bit. */
  method ConstantVector(v: int, width: nat, size: nat, signExtend: bool) returns (r: seq<Bdd>)
    requires 0 < width <= size
    ensures |r| == size
    ensures Denotes(r, ConstantValue(v, width, size, signExtend))
  {
    hide Denotes;
    var vec := new Bdd[size](_ => FALSE);
    assert Denotes(vec[..0], 0) by { assert vec[..0] == []; DenotesNothing(); }
    for i := 0 to size
      invariant Denotes(vec[..i], ConstantValue(v, width, i, signExtend))
    {
      ghost var was := vec[..i];
      ghost var bit;
      if i >= width {
        bit := signExtend && BitOf(v, width - 1);
        vec[i] := if signExtend && BitOf(v, width - 1) then TRUE else FALSE;
      } else {
        bit := BitOf(v, i);
        vec[i] := if BitOf(v, i) then TRUE else FALSE;
        ModStep(v, i);
      }
      DenotesAppend(was, ConstantValue(v, width, i, signExtend), bit);
      assert vec[..i + 1] == was + [if bit then TRUE else FALSE];
    }
    r := vec[..];
    assert vec[..size] == vec[..];
  }

  lemma DenotesNothing()
    ensures Denotes([], 0)
  {
  }

  // ---------------------------------------------------------------- addition

  /** The low `i` bits of a vector, all of them when it is shorter. */
  function Low(v: seq<Bdd>, i: nat): seq<Bdd> {
    if i <= |v| then v[..i] else v
  }

  /** After `i` positions the sum bits and the carry together hold the sum of the low parts. */
  ghost predicate AdderInvariant(sum: seq<Bdd>, carry: Bdd, i: nat, e1: seq<Bdd>, e2: seq<Bdd>) {
    && |sum| == i
    && forall s: Assignment ::
         Val(sum, s) + Weighted(Eval(carry, s), i) == Val(Low(e1, i), s) + Val(Low(e2, i), s)
  }

  lemma LowStep(v: seq<Bdd>, i: nat, s: Assignment)
    ensures Val(Low(v, i + 1), s) == Val(Low(v, i), s) + Weighted(i < |v| && Eval(v[i], s), i)
  {
    if i < |v| { ValPrefixStep(v, i, s); }
    if i == |v| { assert v[..i] == v; }
  }

  /** One full-adder position. */
  lemma AdderStep(sum: seq<Bdd>, carry: Bdd, i: nat, e1: seq<Bdd>, e2: seq<Bdd>, bit: Bdd, carryOut: Bdd)
    requires AdderInvariant(sum, carry, i, e1, e2)
    requires forall s: Assignment :: var a, b, c := i < |e1| && Eval(e1[i], s), i < |e2| && Eval(e2[i], s), Eval(carry, s);
      Eval(bit, s) == ((a != b) != c) && Eval(carryOut, s) == ((a && b) || (c && (a || b)))
    ensures AdderInvariant(sum + [bit], carryOut, i + 1, e1, e2)
  {
    forall s: Assignment
      ensures Val(sum + [bit], s) + Weighted(Eval(carryOut, s), i + 1) == Val(Low(e1, i + 1), s) + Val(Low(e2, i + 1), s)
    {
      ValAppend(sum, bit, s);
      LowStep(e1, i, s);
      LowStep(e2, i, s);
    }
  }

  lemma AdderStart(e1: seq<Bdd>, e2: seq<Bdd>)
    ensures AdderInvariant([], FALSE, 0, e1, e2)
    ensures forall s: Assignment :: !Eval(FALSE, s)
  {
  }

  lemma AdderEnd(sum: seq<Bdd>, carry: Bdd, i: nat, e1: seq<Bdd>, e2: seq<Bdd>)
    requires AdderInvariant(sum, carry, i, e1, e2) && |e1| <= i && |e2| <= i
    ensures forall s: Assignment :: Val(sum + [carry], s) == Val(e1, s) + Val(e2, s)
  {
    assert Low(e1, i) == e1 && Low(e2, i) == e2;
    forall s: Assignment ensures Val(sum + [carry], s) == Val(e1, s) + Val(e2, s) {
      ValAppend(sum, carry, s);
    }
  }

  /** The ripple-carry adder `_exprPlus`; one bit wider than its wider operand, hence exact. */
  method Plus(e1: seq<Bdd>, e2: seq<Bdd>) returns (r: seq<Bdd>)
    ensures |r| == (if |e1| >= |e2| then |e1| else |e2|) + 1
    ensures forall s: Assignment :: Val(r, s) == Val(e1, s) + Val(e2, s)
  {
    hide *;
    var minBits := if |e1| <= |e2| then |e1| else |e2|;
    var maxBits := if |e1| >= |e2| then |e1| else |e2|;
    var vec := new Bdd[maxBits + 1](_ => FALSE);
    var carry := FALSE;
    AdderStart(e1, e2);
    assert vec[..0] == [];
    for i := 0 to minBits
      invariant AdderInvariant(vec[..i], carry, i, e1, e2)
    {
      ghost var was, carryIn := vec[..i], carry;
      vec[i] := Xor(Xor(carry, e1[i]), e2[i]);
      carry := Or(And(e1[i], e2[i]), And(carry, Or(e1[i], e2[i])));
      AdderStep(was, carryIn, i, e1, e2, vec[i], carry);
      assert vec[..i + 1] == was + [vec[i]];
    }
    for i := minBits to |e1|
      invariant AdderInvariant(vec[..i], carry, i, e1, e2)
    {
      ghost var was, carryIn := vec[..i], carry;
      vec[i] := Xor(Xor(carry, e1[i]), FALSE);
      carry := And(carry, e1[i]);
      AdderStep(was, carryIn, i, e1, e2, vec[i], carry);
      assert vec[..i + 1] == was + [vec[i]];
    }
    for i := minBits to |e2|
      invariant |e1| > minBits ==> |e2| == minBits
      invariant AdderInvariant(vec[..if |e1| > minBits then |e1| else i], carry, if |e1| > minBits then |e1| else i, e1, e2)
    {
      ghost var was, carryIn := vec[..i], carry;
      vec[i] := Xor(Xor(carry, e2[i]), FALSE);
      carry := And(carry, e2[i]);
      AdderStep(was, carryIn, i, e1, e2, vec[i], carry);
      assert vec[..i + 1] == was + [vec[i]];
    }
    ghost var sum := vec[..maxBits];
    vec[maxBits] := carry;
    r := vec[..];
    assert r == sum + [carry];
    AdderEnd(sum, carry, maxBits, e1, e2);
  }

  // ---------------------------------------------------------------- subtraction

  /** `_exprNot`: bitwise, so a vector of width `w` becomes `2^w - 1` minus its value. */
  method NotVector(e: seq<Bdd>) returns (r: seq<Bdd>)
    ensures |r| == |e|
    ensures forall s: Assignment :: Val(r, s) == Inverted(|e|, Val(e, s))
  {
    var vec := new Bdd[|e|](_ => FALSE);
    assert vec[..0] == [] == e[..0];
    for i := 0 to |e|
      invariant forall s: Assignment :: Val(vec[..i], s) == Pow2(i) - 1 - Val(e[..i], s)
    {
      ghost var was := vec[..i];
      vec[i] := Not(e[i]);
      assert vec[..i + 1] == was + [vec[i]];
      forall s: Assignment ensures Val(was + [vec[i]], s) == Pow2(i + 1) - 1 - Val(e[..i + 1], s) {
        ValAppend(was, vec[i], s);
        ValPrefixStep(e, i, s);
      }
    }
    r := vec[..];
    assert r == vec[..|e|] && e == e[..|e|];
    forall s: Assignment ensures Val(r, s) == Inverted(|e|, Val(e, s)) {
      NegatedValue(|e|, Val(e, s));
    }
  }

  /** All `w` bits of `v` inverted. */
  function Inverted(w: nat, v: nat): nat {
    LowPart(-1 - v, w)
  }

  /** Minus `v` modulo `2^w`. */
  function Negated(w: nat, v: nat): nat {
    LowPart(0 - v, w)
  }

  lemma NegatedValue(w: nat, v: nat)
    requires v < Pow2(w)
    ensures Inverted(w, v) == Pow2(w) - 1 - v
    ensures Negated(w, v) == if v == 0 then 0 else Pow2(w) - v
  {
    DivModUnique(-1 - v, Pow2(w), -1, Pow2(w) - 1 - v);
    if v != 0 {
      DivModUnique(0 - v, Pow2(w), -1, Pow2(w) - v);
    } else {
      LowPartSmall(0, w);
    }
  }

  const NUM_BITS_SIGNED := 32

  /** `twosCompliment`: invert, add a 32-bit one, keep the operand's width. */
  method TwosComplement(e: seq<Bdd>) returns (r: seq<Bdd>)
    ensures |r| == |e|
    ensures forall s: Assignment :: Val(r, s) == Negated(|e|, Val(e, s))
  {
    var inverted := NotVector(e);
    var size := if |e| >= NUM_BITS_SIGNED then |e| else NUM_BITS_SIGNED;
    var one := ConstantVector(1, NUM_BITS_SIGNED, size, false);
    ConstantOne(size);
    var sum := Plus(inverted, one);
    r := sum[..|e|];
    forall s: Assignment ensures Val(r, s) == Negated(|e|, Val(e, s)) {
      ValPrefix(sum, |e|, s);
      NegatedValue(|e|, Val(e, s));
      assert Val(sum, s) == Pow2(|e|) - Val(e, s);
      if Val(e, s) == 0 {
        DivModUnique(Pow2(|e|), Pow2(|e|), 1, 0);
      } else {
        LowPartSmall(Val(sum, s), |e|);
      }
    }
  }

  lemma ConstantOne(size: nat)
    requires NUM_BITS_SIGNED <= size
    ensures ConstantValue(1, NUM_BITS_SIGNED, size, false) == 1
  {
    if size == NUM_BITS_SIGNED {
      Pow2Monotone(1, size);
      LowPartSmall(1, size);
    } else {
      ConstantOne(size - 1);
    }
  }

  /** The number `_exprMinus` yields: the two's complement is taken at the width of the second operand only. */
  function Difference(w1: nat, v1: nat, w2: nat, v2: nat): nat {
    LowPart(v1 + Negated(w2, v2), if w1 >= w2 then w1 else w2)
  }

  method Minus(e1: seq<Bdd>, e2: seq<Bdd>) returns (r: seq<Bdd>)
    ensures |r| == if |e1| >= |e2| then |e1| else |e2|
    ensures forall s: Assignment :: Val(r, s) == Difference(|e1|, Val(e1, s), |e2|, Val(e2, s))
  {
    var complement := TwosComplement(e2);
    var sum := Plus(e1, complement);
    var resSize := if |e1| >= |e2| then |e1| else |e2|;
    r := sum[..resSize];
    forall s: Assignment ensures Val(r, s) == Difference(|e1|, Val(e1, s), |e2|, Val(e2, s)) {
      ValPrefix(sum, resSize, s);
    }
  }

  // ---------------------------------------------------------------- multiplication

  /** What the partial product of bit `b` at position `i` denotes after `k` of its positions. */
  function PartialProduct(e1: seq<Bdd>, b: Bdd, i: nat, k: nat, s: Assignment): nat {
    if k <= i || !Eval(b, s) then 0 else Val(Low(e1, k - i), s) * Pow2(i)
  }

  ghost predicate RowInvariant(pp: seq<Bdd>, e1: seq<Bdd>, b: Bdd, i: nat) {
    forall s: Assignment :: Val(pp, s) == PartialProduct(e1, b, i, |pp|, s)
  }

  lemma RowStep(pp: seq<Bdd>, e1: seq<Bdd>, b: Bdd, i: nat, bit: Bdd)
    requires RowInvariant(pp, e1, b, i)
    requires var k := |pp|;
             bit == if k < i || k >= |e1| + i then FALSE else And(e1[k - i], b)
    ensures RowInvariant(pp + [bit], e1, b, i)
  {
    forall s: Assignment ensures Val(pp + [bit], s) == PartialProduct(e1, b, i, |pp| + 1, s) {
      RowStepAt(pp, e1, b, i, bit, s);
    }
  }

  lemma RowStepAt(pp: seq<Bdd>, e1: seq<Bdd>, b: Bdd, i: nat, bit: Bdd, s: Assignment)
    requires Val(pp, s) == PartialProduct(e1, b, i, |pp|, s)
    requires var k := |pp|;
             bit == if k < i || k >= |e1| + i then FALSE else And(e1[k - i], b)
    ensures Val(pp + [bit], s) == PartialProduct(e1, b, i, |pp| + 1, s)
  {
    hide Canonical, Val, Pow2, Weighted;
    var k := |pp|;
    ValAppend(pp, bit, s);
    assert !Eval(FALSE, s);
    hide Eval;
    if i <= k && Eval(b, s) {
      var j := k - i;
      LowStep(e1, j, s);
      var low, set_ := Val(Low(e1, j), s), j < |e1| && Eval(e1[j], s);
      ShiftedBit(low, set_, j, i);
      NothingLow(e1, s);
    } else {
      NoWeight(k);
    }
  }

  lemma NoWeight(k: nat)
    ensures Weighted(false, k) == 0
  {
  }

  lemma NothingLow(e1: seq<Bdd>, s: Assignment)
    ensures Val(Low(e1, 0), s) == 0
  {
    assert Low(e1, 0) == [];
  }

  lemma ShiftedBit(low: nat, bit: bool, j: nat, i: nat)
    ensures (low + Weighted(bit, j)) * Pow2(i) == low * Pow2(i) + Weighted(bit, j + i)
  {
    var p := Pow2(i);
    ShiftedWeight(bit, j, i);
    hide Pow2, Weighted;
    DistributeRight(low, Weighted(bit, j), p);
  }

  lemma ShiftedWeight(bit: bool, j: nat, i: nat)
    ensures Weighted(bit, j) * Pow2(i) == Weighted(bit, j + i)
  {
    if bit { Pow2Add(j, i); }
  }

  lemma DistributeRight(a: nat, b: nat, p: nat)
    ensures (a + b) * p == a * p + b * p
  {
  }

  lemma RowEnd(pp: seq<Bdd>, e1: seq<Bdd>, b: Bdd, i: nat)
    requires RowInvariant(pp, e1, b, i) && |pp| >= i + |e1|
    ensures forall s: Assignment :: Val(pp, s) == if Eval(b, s) then Val(e1, s) * Pow2(i) else 0
  {
    assert Low(e1, |pp| - i) == e1;
    if |pp| <= i { assert e1 == []; }
  }

  /** The inner loop of `_exprMultiply`: the first operand shifted left by `i`, masked by bit `b`. */
  method ShiftedRow(e1: seq<Bdd>, b: Bdd, i: nat, pp: array<Bdd>)
    requires i + |e1| <= pp.Length
    modifies pp
    ensures forall s: Assignment :: Val(pp[..], s) == if Eval(b, s) then Val(e1, s) * Pow2(i) else 0
  {
    hide RowInvariant, Val, Eval, Canonical;
    assert RowInvariant(pp[..0], e1, b, i) by { assert pp[..0] == []; RowStart(e1, b, i); }
    for k := 0 to pp.Length
      invariant RowInvariant(pp[..k], e1, b, i)
    {
      ghost var was := pp[..k];
      if k < i {
        pp[k] := FALSE;
      } else if k >= |e1| + i {
        pp[k] := FALSE;
      } else {
        pp[k] := And(e1[k - i], b);
      }
      RowStep(was, e1, b, i, pp[k]);
      assert pp[..k + 1] == was + [pp[k]];
    }
    assert pp[..pp.Length] == pp[..];
    RowEnd(pp[..], e1, b, i);
  }

  lemma RowStart(e1: seq<Bdd>, b: Bdd, i: nat)
    ensures RowInvariant([], e1, b, i)
  {
  }

  /** One addition of `_exprMultiply` folds bit `i` of the second operand into the product. */
  lemma ProductStep(e1: seq<Bdd>, e2: seq<Bdd>, i: nat, s: Assignment)
    requires i < |e2|
    ensures Val(e1, s) * Val(e2[..i + 1], s)
         == (if Eval(e2[i], s) then Val(e1, s) * Pow2(i) else 0) + Val(e1, s) * Val(e2[..i], s)
  {
    ValPrefixStep(e2, i, s);
    Distribute(Val(e1, s), Val(e2[..i], s), Weighted(Eval(e2[i], s), i));
  }

  lemma ProductBound(v1: nat, n: nat, v2: nat, m: nat)
    requires v1 < Pow2(n) && v2 < Pow2(m)
    ensures v1 * v2 < Pow2(n + m)
  {
    Pow2Add(n, m);
    MulBound(v1, v2, Pow2(n), Pow2(m));
  }

  /** `_exprMultiply`: shift and add. The accumulator grows by a bit with every addition and is cut
      back to `n + m` bits at the end; the cut loses nothing. */
  method Multiply(e1: seq<Bdd>, e2: seq<Bdd>) returns (r: seq<Bdd>)
    ensures |r| == |e1| + |e2|
    ensures forall s: Assignment :: Val(r, s) == Val(e1, s) * Val(e2, s)
  {
    hide Eval, Canonical, Pow2;
    var n, m := |e1|, |e2|;
    var zero := new Bdd[n + m](_ => FALSE);
    for i := 0 to n + m
      invariant Denotes(zero[..i], 0)
    {
      ghost var was := zero[..i];
      zero[i] := FALSE;
      DenotesAppend(was, 0, false);
      assert zero[..i + 1] == was + [FALSE];
    }
    var acc := zero[..];
    assert zero[..n + m] == acc && e2[..0] == [];
    var pp := new Bdd[n + m](_ => FALSE);
    for i := 0 to m
      invariant |acc| == n + m + i
      invariant forall s: Assignment :: Val(acc, s) == Val(e1, s) * Val(e2[..i], s)
    {
      ShiftedRow(e1, e2[i], i, pp);
      ghost var was := acc;
      acc := Plus(pp[..], acc);
      forall s: Assignment ensures Val(acc, s) == Val(e1, s) * Val(e2[..i + 1], s) {
        ProductStep(e1, e2, i, s);
      }
    }
    r := acc[..n + m];
    assert e2[..m] == e2;
    forall s: Assignment ensures Val(r, s) == Val(e1, s) * Val(e2, s) {
      ValPrefix(acc, n + m, s);
      ProductBound(Val(e1, s), n, Val(e2, s), m);
      LowPartSmall(Val(acc, s), n + m);
    }
  }

  // ---------------------------------------------------------------- comparison

  /** `_exprEqual`: bits beyond the narrower operand must be zero. */
  method Equal(e1: seq<Bdd>, e2: seq<Bdd>) returns (r: Bdd)
    ensures forall s: Assignment :: Eval(r, s) <==> Val(e1, s) == Val(e2, s)
  {
    hide EqualInvariant, Val, Eval, Canonical;
    var minBits := if |e1| < |e2| then |e1| else |e2|;
    r := TRUE;
    EqualStart(e1, e2);
    for i := 0 to minBits
      invariant EqualInvariant(r, i, e1, e2)
    {
      EqualStep(r, i, e1, e2, And(r, Xnor(e1[i], e2[i])));
      r := And(r, Xnor(e1[i], e2[i]));
    }
    for i := minBits to |e1|
      invariant EqualInvariant(r, i, e1, e2)
    {
      EqualStep(r, i, e1, e2, And(r, Not(e1[i])));
      r := And(r, Not(e1[i]));
    }
    for i := minBits to |e2|
      invariant |e1| > minBits ==> |e2| == minBits
      invariant EqualInvariant(r, if |e1| > minBits then |e1| else i, e1, e2)
    {
      EqualStep(r, i, e1, e2, And(r, Not(e2[i])));
      r := And(r, Not(e2[i]));
    }
    EqualEnd(r, if |e1| > minBits then |e1| else |e2|, e1, e2);
  }

  ghost predicate EqualInvariant(r: Bdd, i: nat, e1: seq<Bdd>, e2: seq<Bdd>) {
    forall s: Assignment :: Eval(r, s) <==> Val(Low(e1, i), s) == Val(Low(e2, i), s)
  }

  lemma EqualStart(e1: seq<Bdd>, e2: seq<Bdd>)
    ensures EqualInvariant(TRUE, 0, e1, e2)
  {
  }

  lemma EqualStep(r: Bdd, i: nat, e1: seq<Bdd>, e2: seq<Bdd>, r': Bdd)
    requires EqualInvariant(r, i, e1, e2)
    requires forall s: Assignment :: Eval(r', s) <==>
      Eval(r, s) && ((i < |e1| && Eval(e1[i], s)) <==> (i < |e2| && Eval(e2[i], s)))
    ensures EqualInvariant(r', i + 1, e1, e2)
  {
    forall s: Assignment ensures Eval(r', s) <==> Val(Low(e1, i + 1), s) == Val(Low(e2, i + 1), s) {
      LowStep(e1, i, s);
      LowStep(e2, i, s);
      LowBound(e1, i, s);
      LowBound(e2, i, s);
    }
  }

  lemma EqualEnd(r: Bdd, i: nat, e1: seq<Bdd>, e2: seq<Bdd>)
    requires EqualInvariant(r, i, e1, e2) && |e1| <= i && |e2| <= i
    ensures forall s: Assignment :: Eval(r, s) <==> Val(e1, s) == Val(e2, s)
  {
    assert Low(e1, i) == e1 && Low(e2, i) == e2;
  }

  lemma LowBound(v: seq<Bdd>, i: nat, s: Assignment)
    ensures Val(Low(v, i), s) < Pow2(i)
  {
    Pow2Monotone(|Low(v, i)|, i);
  }

  /** The relation `_exprLEq` decides on unsigned operands: bits of the second operand above the
      width of the first are never read. */
  predicate UnsignedAtMost(w1: nat, v1: nat, v2: nat) {
    v1 <= LowPart(v2, w1)
  }

  /** The relation `_exprLEq` decides when an operand is signed: magnitudes over the common width less
      one, the two top bits as signs, and no magnitude bit of a wider first operand set. */
  predicate SignedAtMost(w1: nat, v1: nat, w2: nat, v2: nat)
    requires w1 > 0 && w2 > 0
  {
    var m := (if w1 <= w2 then w1 else w2) - 1;
    var low := LowPart(v1, m) <= LowPart(v2, m);
    var sign1, sign2 := BitOf(v1, w1 - 1), BitOf(v2, w2 - 1);
    && (if sign1 == sign2 then low else sign1)
    && (w1 > w2 ==> LowPart(v1, w1 - 1) < Pow2(w2))
  }

  ghost predicate AtMostInvariant(r: Bdd, i: nat, e1: seq<Bdd>, e2: seq<Bdd>) {
    forall s: Assignment :: Eval(r, s) <==> Val(Low(e1, i), s) <= Val(Low(e2, i), s)
  }

  lemma AtMostStart(e1: seq<Bdd>, e2: seq<Bdd>)
    ensures AtMostInvariant(TRUE, 0, e1, e2)
  {
  }

  lemma AtMostStep(r: Bdd, i: nat, e1: seq<Bdd>, e2: seq<Bdd>)
    requires AtMostInvariant(r, i, e1, e2) && i < |e1| && i < |e2|
    ensures AtMostInvariant(Or(And(r, Xnor(e1[i], e2[i])), And(Not(e1[i]), e2[i])), i + 1, e1, e2)
  {
    var r' := Or(And(r, Xnor(e1[i], e2[i])), And(Not(e1[i]), e2[i]));
    forall s: Assignment ensures Eval(r', s) <==> Val(Low(e1, i + 1), s) <= Val(Low(e2, i + 1), s) {
      LowStep(e1, i, s);
      LowStep(e2, i, s);
      LowBound(e1, i, s);
      LowBound(e2, i, s);
    }
  }

  /** Whether bits `lo <= j < hi` of a vector are all zero. */
  predicate ClearBits(v: seq<Bdd>, lo: nat, hi: nat, s: Assignment) {
    forall j | lo <= j < hi && j < |v| :: !Eval(v[j], s)
  }

  lemma {:induction false} ClearBitsMeanSmall(v: seq<Bdd>, lo: nat, hi: nat, s: Assignment)
    requires lo <= hi <= |v|
    ensures ClearBits(v, lo, hi, s) <==> Val(v[..hi], s) < Pow2(lo)
    ensures ClearBits(v, lo, hi, s) <==> Val(v[..hi], s) == Val(v[..lo], s)
    decreases hi
  {
    if lo < hi {
      ClearBitsMeanSmall(v, lo, hi - 1, s);
      ValPrefixStep(v, hi - 1, s);
      Pow2Monotone(lo, hi - 1);
      assert ClearBits(v, lo, hi, s) <==> ClearBits(v, lo, hi - 1, s) && !Eval(v[hi - 1], s);
    }
  }

  /** The final loop of `_exprLEq`, from bit `top` down to bit `low`. */
  method RequireClear(r0: Bdd, v: seq<Bdd>, low: nat, top: int) returns (r: Bdd)
    requires top < |v|
    ensures forall s: Assignment :: Eval(r, s) <==> Eval(r0, s) && ClearBits(v, low, if top < 0 then 0 else top + 1, s)
  {
    r := r0;
    var i := top;
    while i >= low
      invariant i <= top
      invariant forall s: Assignment :: Eval(r, s) <==>
        Eval(r0, s) && ClearBits(v, if i + 1 >= low then i + 1 else low, if top < 0 then 0 else top + 1, s)
      decreases i + 1
    {
      r := And(r, Not(v[i]));
      i := i - 1;
    }
  }

  /** `_exprLEq`. */
  method AtMost(e1: seq<Bdd>, e2: seq<Bdd>, signed: bool) returns (r: Bdd)
    requires signed ==> |e1| > 0 && |e2| > 0
    ensures forall s: Assignment :: Eval(r, s) <==>
      if signed then SignedAtMost(|e1|, Val(e1, s), |e2|, Val(e2, s)) else UnsignedAtMost(|e1|, Val(e1, s), Val(e2, s))
  {
    hide AtMostInvariant, SignedAtMost, UnsignedAtMost, Val, Eval, Canonical, ClearBits;
    var minBits := if |e1| <= |e2| then |e1| else |e2|;
    var numMagBits := if signed then minBits - 1 else minBits;
    var maxMagBits := if signed then |e1| - 2 else |e1| - 1;
    var tmp := TRUE;
    AtMostStart(e1, e2);
    for i := 0 to numMagBits
      invariant AtMostInvariant(tmp, i, e1, e2)
    {
      AtMostStep(tmp, i, e1, e2);
      tmp := Or(And(tmp, Xnor(e1[i], e2[i])), And(Not(e1[i]), e2[i]));
    }
    ghost var low := tmp;
    if signed {
      var a, b := e1[|e1| - 1], e2[|e2| - 1];
      tmp := Or(Or(And(And(a, b), tmp), And(And(Not(a), Not(b)), tmp)), And(a, Not(b)));
    }
    r := RequireClear(tmp, e1, minBits, maxMagBits);
    if signed {
      forall s: Assignment ensures Eval(r, s) <==> SignedAtMost(|e1|, Val(e1, s), |e2|, Val(e2, s)) {
        SignedAtMostResult(low, tmp, r, minBits, e1, e2, s);
      }
    } else {
      forall s: Assignment ensures Eval(r, s) <==> UnsignedAtMost(|e1|, Val(e1, s), Val(e2, s)) {
        UnsignedAtMostResult(low, r, e1, e2, s);
      }
    }
  }

  lemma UnsignedAtMostResult(low: Bdd, r: Bdd, e1: seq<Bdd>, e2: seq<Bdd>, s: Assignment)
    requires var m := if |e1| <= |e2| then |e1| else |e2|;
             AtMostInvariant(low, m, e1, e2) && (Eval(r, s) <==> Eval(low, s) && ClearBits(e1, m, |e1|, s))
    ensures Eval(r, s) <==> UnsignedAtMost(|e1|, Val(e1, s), Val(e2, s))
  {
    hide Val, Eval, Canonical, ClearBits, Weighted, BitOf, LowPart;
    assert e1[..|e1|] == e1;
    assert Eval(low, s) <==> Val(Low(e1, if |e1| <= |e2| then |e1| else |e2|), s) <= Val(Low(e2, if |e1| <= |e2| then |e1| else |e2|), s);
    ClearBitsMeanSmall(e1, if |e1| <= |e2| then |e1| else |e2|, |e1|, s);
    if |e1| <= |e2| {
      ValPrefix(e2, |e1|, s);
    } else {
      assert Low(e2, |e2|) == e2;
      Pow2Monotone(|e2|, |e1|);
      LowPartSmall(Val(e2, s), |e1|);
    }
  }

  lemma LowParts(low: Bdd, m: nat, e1: seq<Bdd>, e2: seq<Bdd>, s: Assignment)
    requires m <= |e1| && m <= |e2| && AtMostInvariant(low, m, e1, e2)
    ensures Eval(low, s) <==> LowPart(Val(e1, s), m) <= LowPart(Val(e2, s), m)
  {
    ValPrefix(e1, m, s);
    ValPrefix(e2, m, s);
  }

  lemma TopBit(v: seq<Bdd>, s: Assignment)
    requires |v| > 0
    ensures Eval(v[|v| - 1], s) == BitOf(Val(v, s), |v| - 1)
  {
    ValPrefix(v, |v| - 1, s);
  }

  lemma SignedAtMostResult(low: Bdd, tmp: Bdd, r: Bdd, min: nat, e1: seq<Bdd>, e2: seq<Bdd>, s: Assignment)
    requires |e1| > 0 && |e2| > 0 && min == if |e1| <= |e2| then |e1| else |e2|
    requires AtMostInvariant(low, min - 1, e1, e2)
    requires Eval(tmp, s) <==> if Eval(e1[|e1| - 1], s) == Eval(e2[|e2| - 1], s) then Eval(low, s) else Eval(e1[|e1| - 1], s)
    requires Eval(r, s) <==> Eval(tmp, s) && ClearBits(e1, min, |e1| - 1, s)
    ensures Eval(r, s) <==> SignedAtMost(|e1|, Val(e1, s), |e2|, Val(e2, s))
  {
    hide *;
    LowParts(low, min - 1, e1, e2, s);
    TopBit(e1, s);
    TopBit(e2, s);
    UpperClear(e1, min, s);
    SignedAtMostUnfolds(|e1|, Val(e1, s), |e2|, Val(e2, s));
  }

  lemma UpperClear(v: seq<Bdd>, low: nat, s: Assignment)
    requires 0 < low <= |v|
    ensures ClearBits(v, low, |v| - 1, s) <==> (|v| > low ==> LowPart(Val(v, s), |v| - 1) < Pow2(low))
  {
    if |v| > low {
      ValPrefix(v, |v| - 1, s);
      ClearBitsMeanSmall(v, low, |v| - 1, s);
    }
  }

  lemma SignedAtMostUnfolds(w1: nat, v1: nat, w2: nat, v2: nat)
    requires w1 > 0 && w2 > 0
    ensures var m := (if w1 <= w2 then w1 else w2) - 1;
            SignedAtMost(w1, v1, w2, v2) <==>
            && (if BitOf(v1, w1 - 1) == BitOf(v2, w2 - 1) then LowPart(v1, m) <= LowPart(v2, m) else BitOf(v1, w1 - 1))
            && (w1 > w2 ==> LowPart(v1, w1 - 1) < Pow2(w2))
  {
    hide BitOf, LowPart, Pow2;
  }

  // ---------------------------------------------------------------- truth of a vector

  /** The loops of `_exprAnd` and `_exprOr`: the disjunction of the bits. */
  method NonZero(v: seq<Bdd>) returns (r: Bdd)
    ensures forall s: Assignment :: Eval(r, s) <==> Val(v, s) != 0
  {
    r := FALSE;
    assert v[..0] == [];
    for i := 0 to |v|
      invariant forall s: Assignment :: Eval(r, s) <==> Val(v[..i], s) != 0
    {
      forall s: Assignment ensures Val(v[..i + 1], s) == Val(v[..i], s) + Weighted(Eval(v[i], s), i) {
        ValPrefixStep(v, i, s);
      }
      r := Or(r, v[i]);
    }
    assert v[..|v|] == v;
  }
}

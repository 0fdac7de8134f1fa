/** When the compiled meaning of a constraint is its mathematical meaning: the exact condition for every
    operator, the whole-tree theorem built on them, and agreement with the direct interpreter. */
module Exactness {
  import opened Words
  import opened Circuits
  import opened Expressions

  // ---------------------------------------------------------------- operators, condition by condition

  /** `_exprMinus` yields the true difference exactly when there is no borrow and the subtrahend is at
      least as wide as the minuend, or zero. */
  lemma MinusExactIff(w1: nat, v1: nat, w2: nat, v2: nat)
    requires v1 < Pow2(w1) && v2 < Pow2(w2)
    ensures Difference(w1, v1, w2, v2) == v1 - v2 <==> v1 >= v2 && (w2 >= w1 || v2 == 0)
  {
    var w := Max(w1, w2);
    Pow2Monotone(w1, w);
    Pow2Monotone(w2, w);
    NegatedValue(w2, v2);
    if v2 == 0 {
      LowPartSmall(v1, w);
    } else if w2 >= w1 {
      MinusWide(w1, v1, w2, v2);
    } else {
      MinusNarrow(w1, v1, w2, v2);
    }
  }

  lemma MinusWide(w1: nat, v1: nat, w2: nat, v2: nat)
    requires v1 < Pow2(w1) && 0 < v2 < Pow2(w2) && w1 <= w2
    ensures LowPart(v1 + (Pow2(w2) - v2), w2) == v1 - v2 <==> v1 >= v2
  {
    Pow2Monotone(w1, w2);
    if v1 >= v2 {
      DivModUnique(v1 + (Pow2(w2) - v2), Pow2(w2), 1, v1 - v2);
    } else {
      LowPartSmall(v1 + (Pow2(w2) - v2), w2);
    }
  }

  lemma MinusNarrow(w1: nat, v1: nat, w2: nat, v2: nat)
    requires v1 < Pow2(w1) && 0 < v2 < Pow2(w2) && w2 < w1
    ensures LowPart(v1 + (Pow2(w2) - v2), w1) != v1 - v2
  {
    Pow2Monotone(w2, w1);
    var sum := v1 + (Pow2(w2) - v2);
    if sum < Pow2(w1) {
      LowPartSmall(sum, w1);
    } else {
      DivModUnique(sum, Pow2(w1), 1, sum - Pow2(w1));
    }
  }

  /** Exact for all operands modulo the result width exactly when the subtrahend is not the narrower. */
  lemma MinusModularIff(w1: nat, w2: nat)
    requires w2 > 0
    ensures (forall v1: nat, v2: nat | v1 < Pow2(w1) && v2 < Pow2(w2) ::
               Difference(w1, v1, w2, v2) == LowPart(v1 - v2, Max(w1, w2)))
        <==> w2 >= w1
  {
    hide Difference, LowPart, Pow2;
    if w2 >= w1 {
      forall v1: nat, v2: nat | v1 < Pow2(w1) && v2 < Pow2(w2)
        ensures Difference(w1, v1, w2, v2) == LowPart(v1 - v2, Max(w1, w2))
      {
        MinusModular(w1, v1, w2, v2);
      }
    } else {
      TwoAtLeast(w1);
      TwoAtLeast(w2);
      MinusExactIff(w1, 1, w2, 1);
      LowPartSmall(0, w1);
      assert Difference(w1, 1, w2, 1) != LowPart(1 - 1, Max(w1, w2));
    }
  }

  lemma MinusModular(w1: nat, v1: nat, w2: nat, v2: nat)
    requires v1 < Pow2(w1) && v2 < Pow2(w2) && w2 >= w1
    ensures Difference(w1, v1, w2, v2) == LowPart(v1 - v2, Max(w1, w2))
  {
    hide LowPart, Pow2;
    NegatedValue(w2, v2);
    if v2 != 0 { LowPartShift(v1 - v2, w2); }
  }

  lemma TwoAtLeast(w: nat)
    requires w > 0
    ensures Pow2(w) >= 2
  {
  }

  lemma LowPartShift(v: int, w: nat)
    ensures LowPart(v + Pow2(w), w) == LowPart(v, w)
  {
    var p := Pow2(w);
    var q, r := v / p, v % p;
    Distribute(p, q, 1);
    DivModUnique(v + p, p, q + 1, r);
  }

  /** For given operands the unsigned comparison is exact exactly when the second fits the first's width,
      or when the first is at most what is read of the second. */
  lemma AtMostIff(w1: nat, v1: nat, v2: nat)
    requires v1 < Pow2(w1)
    ensures (UnsignedAtMost(w1, v1, v2) <==> v1 <= v2) <==> v2 < Pow2(w1) || v1 <= LowPart(v2, w1)
  {
    if v2 < Pow2(w1) {
      LowPartSmall(v2, w1);
    }
  }

  /** The unsigned comparison is exact for all operands exactly when the first is not the narrower. */
  lemma AtMostExactIff(w1: nat, w2: nat)
    requires w1 > 0
    ensures (forall v1: nat, v2: nat | v1 < Pow2(w1) && v2 < Pow2(w2) :: UnsignedAtMost(w1, v1, v2) <==> v1 <= v2)
        <==> w1 >= w2
  {
    if w1 >= w2 {
      Pow2Monotone(w2, w1);
      forall v1: nat, v2: nat | v1 < Pow2(w1) && v2 < Pow2(w2)
        ensures UnsignedAtMost(w1, v1, v2) <==> v1 <= v2
      {
        LowPartSmall(v2, w1);
      }
    } else {
      Pow2Monotone(w1, w2);
      Pow2Monotone(1, w1);
      DivModUnique(Pow2(w1), Pow2(w1), 1, 0);
      assert !UnsignedAtMost(w1, 1, Pow2(w1));
    }
  }

  /** Two's complement reading. */
  function ToSigned(w: Width, v: nat): int {
    if v < Pow2(w - 1) then v else v - Pow2(w)
  }

  lemma TopBitIsSign(w: Width, v: nat)
    requires v < Pow2(w)
    ensures BitOf(v, w - 1) <==> v >= Pow2(w - 1)
    ensures LowPart(v, w - 1) == if v < Pow2(w - 1) then v else v - Pow2(w - 1)
  {
    if v < Pow2(w - 1) {
      DivModUnique(v, Pow2(w - 1), 0, v);
    } else {
      DivModUnique(v, Pow2(w - 1), 1, v - Pow2(w - 1));
    }
  }

  // ---------------------------------------------------------------- signed operands

  /** The signed comparison is exact for all operands exactly when the widths are equal. */
  lemma SignedAtMostExactIff(w1: Width, w2: Width)
    ensures (forall v1: nat, v2: nat | v1 < Pow2(w1) && v2 < Pow2(w2) ::
               SignedAtMost(w1, v1, w2, v2) <==> ToSigned(w1, v1) <= ToSigned(w2, v2))
        <==> w1 == w2
  {
    hide SignedAtMost, ToSigned, Pow2;
    if w1 == w2 {
      forall v1: nat, v2: nat | v1 < Pow2(w1) && v2 < Pow2(w2)
        ensures SignedAtMost(w1, v1, w2, v2) <==> ToSigned(w1, v1) <= ToSigned(w2, v2)
      {
        SignedSameWidth(w1, v1, v2);
      }
    } else if w1 < w2 {
      SignedWiderRight(w1, w2);
    } else {
      SignedWiderLeft(w1, w2);
    }
  }

  lemma SignedSameWidth(w: Width, v1: nat, v2: nat)
    requires v1 < Pow2(w) && v2 < Pow2(w)
    ensures SignedAtMost(w, v1, w, v2) <==> ToSigned(w, v1) <= ToSigned(w, v2)
  {
    hide Pow2;
    TopBitIsSign(w, v1);
    TopBitIsSign(w, v2);
  }

  /** A negative right operand whose low bits are all ones passes for one not below minus one. */
  lemma SignedWiderRight(w1: Width, w2: Width)
    requires w1 < w2
    ensures var v1, v2 := Pow2(w1) - 1, Pow2(w2 - 1) + Pow2(w1 - 1) - 1;
            v1 < Pow2(w1) && v2 < Pow2(w2) && SignedAtMost(w1, v1, w2, v2) && ToSigned(w1, v1) > ToSigned(w2, v2)
  {
    var v1, v2 := Pow2(w1) - 1, Pow2(w2 - 1) + Pow2(w1 - 1) - 1;
    Pow2Monotone(w1, w2 - 1);
    TopBitIsSign(w1, v1);
    TopBitIsSign(w2, v2);
    Pow2Add(w2 - w1, w1 - 1);
    DivModUnique(v2, Pow2(w1 - 1), Pow2(w2 - w1), Pow2(w1 - 1) - 1);
  }

  /** The bit of a wider left operand just below the common width is read neither as magnitude nor as sign. */
  lemma SignedWiderLeft(w1: Width, w2: Width)
    requires w1 > w2
    ensures var v1 := Pow2(w2 - 1);
            v1 < Pow2(w1) && 0 < Pow2(w2) && SignedAtMost(w1, v1, w2, 0) && ToSigned(w1, v1) > ToSigned(w2, 0)
  {
    var v1 := Pow2(w2 - 1);
    Pow2Monotone(w2, w1 - 1);
    Pow2Monotone(w2, w1);
    TopBitIsSign(w1, v1);
    TopBitIsSign(w2, 0);
    DivModUnique(v1, v1, 1, 0);
    LowPartSmall(0, w2 - 1);
  }

  /** For which operands the signed comparison is right, by signs and by what it reads: the magnitude bits below
      the common top bit, and whether the upper magnitude bits of a wider first operand are clear. */
  predicate SignedOrderRight(w1: Width, v1: nat, w2: Width, v2: nat) {
    var negative1, negative2 := v1 >= Pow2(w1 - 1), v2 >= Pow2(w2 - 1);
    var m := (if w1 <= w2 then w1 else w2) - 1;
    var low1, low2, upper := LowPart(v1, m), LowPart(v2, m), LowPart(v1, w1 - 1);
    if w1 == w2 then true
    else if w1 < w2 then
      negative1 != negative2 || SignedRange(ToSigned(w2, v2), w1) || (if negative2 then low1 > low2 else low1 <= low2)
    else if !negative1 then
      negative2 || v1 >= Pow2(w2) || v1 < Pow2(w2 - 1) || low1 > low2
    else if !negative2 then upper < Pow2(w2)
    else if upper < Pow2(w2) then low1 <= low2 || (w1 == w2 + 1 && upper >= Pow2(w2 - 1))
    else ToSigned(w1, v1) > ToSigned(w2, v2)
  }

  lemma SignedAtMostIff(w1: Width, v1: nat, w2: Width, v2: nat)
    requires v1 < Pow2(w1) && v2 < Pow2(w2)
    ensures (SignedAtMost(w1, v1, w2, v2) <==> ToSigned(w1, v1) <= ToSigned(w2, v2)) <==> SignedOrderRight(w1, v1, w2, v2)
  {
    if w1 == w2 {
      SignedSameWidth(w1, v1, v2);
    } else if w1 < w2 {
      NarrowLeft(w1, v1, w2, v2);
    } else {
      NarrowRight(w1, v1, w2, v2);
    }
  }

  /** Bits from `m` up do not matter below. */
  lemma LowPartBelow(v: int, m: nat, k: nat)
    requires m <= k
    ensures LowPart(v + Pow2(k), m) == LowPart(v, m)
  {
    Pow2Add(k - m, m);
    RemainderShift(v, Pow2(m), Pow2(k - m));
  }

  lemma RemainderShift(v: int, d: nat, h: nat)
    requires d > 0
    ensures (v + h * d) % d == v % d
  {
    DivisionOf(v, d);
    Distribute(d, v / d, h);
    DivModUnique(v + h * d, d, v / d + h, v % d);
  }

  lemma NarrowLeft(w1: Width, v1: nat, w2: Width, v2: nat)
    requires v1 < Pow2(w1) && v2 < Pow2(w2) && w1 < w2
    ensures (SignedAtMost(w1, v1, w2, v2) <==> ToSigned(w1, v1) <= ToSigned(w2, v2)) <==> SignedOrderRight(w1, v1, w2, v2)
  {
    TopBitIsSign(w1, v1);
    TopBitIsSign(w2, v2);
    var i := ToSigned(w2, v2);
    if SignedRange(i, w1) {
      FittingLow(w1, w2, v2);
    }
    hide LowPart, BitOf, Pow2;
  }

  /** What is read of a wider number that fits. */
  lemma FittingLow(w1: Width, w2: Width, v2: nat)
    requires v2 < Pow2(w2) && w1 < w2 && SignedRange(ToSigned(w2, v2), w1)
    ensures LowPart(v2, w1 - 1) == ToSigned(w2, v2) + if v2 >= Pow2(w2 - 1) then Pow2(w1 - 1) else 0
  {
    hide LowPart;
    var i := ToSigned(w2, v2);
    if i >= 0 {
      LowPartSmall(v2, w1 - 1);
    } else {
      LowPartBelow(i, w1 - 1, w2);
      LowPartBelow(i, w1 - 1, w1 - 1);
      LowPartSmall(i + Pow2(w1 - 1), w1 - 1);
    }
  }

  lemma NarrowRight(w1: Width, v1: nat, w2: Width, v2: nat)
    requires v1 < Pow2(w1) && v2 < Pow2(w2) && w1 > w2
    ensures (SignedAtMost(w1, v1, w2, v2) <==> ToSigned(w1, v1) <= ToSigned(w2, v2)) <==> SignedOrderRight(w1, v1, w2, v2)
  {
    TopBitIsSign(w1, v1);
    TopBitIsSign(w2, v2);
    UpperMagnitude(w1, v1, w2);
    WidthsApart(w1, w2);
    SignedAtMostUnfolds(w1, v1, w2, v2);
    hide LowPart, BitOf, Pow2, SignedAtMost;
    if v1 < Pow2(w1 - 1) {
    } else if v2 < Pow2(w2 - 1) {
    } else if LowPart(v1, w1 - 1) < Pow2(w2) {
    }
  }

  lemma WidthsApart(w1: Width, w2: Width)
    requires w1 > w2
    ensures Pow2(w1) == 2 * Pow2(w1 - 1) && Pow2(w2) == 2 * Pow2(w2 - 1) && Pow2(w1 - 1) >= Pow2(w2)
    ensures if w1 == w2 + 1 then Pow2(w1 - 1) == Pow2(w2) else Pow2(w1 - 1) >= 2 * Pow2(w2)
  {
    Pow2Monotone(w2, w1 - 1);
  }

  lemma UpperMagnitude(w1: Width, v1: nat, w2: Width)
    requires v1 < Pow2(w1) && w1 > w2
    ensures var upper := LowPart(v1, w1 - 1);
            upper < Pow2(w2) ==> LowPart(v1, w2 - 1) == if upper < Pow2(w2 - 1) then upper else upper - Pow2(w2 - 1)
  {
    TopBitIsSign(w1, v1);
    var upper := LowPart(v1, w1 - 1);
    if v1 >= Pow2(w1 - 1) { LowPartBelow(upper, w2 - 1, w1 - 1); }
    if upper < Pow2(w2 - 1) {
      LowPartSmall(upper, w2 - 1);
    } else if upper < Pow2(w2) {
      LowPartBelow(upper - Pow2(w2 - 1), w2 - 1, w2 - 1);
      LowPartSmall(upper - Pow2(w2 - 1), w2 - 1);
    }
  }

  lemma SignedEqualIff(w1: Width, v1: nat, w2: Width, v2: nat)
    requires v1 < Pow2(w1) && v2 < Pow2(w2)
    ensures (v1 == v2 <==> ToSigned(w1, v1) == ToSigned(w2, v2)) <==> SignedEqualityRight(w1, v1, w2, v2)
  {
    Pow2Monotone(w1, if w1 < w2 then w2 - 1 else w1);
    Pow2Monotone(w2, if w2 < w1 then w1 - 1 else w2);
  }

  /** For which operands equal numbers and equal signed numbers are the same: a narrower operand is not negative,
      or the wider one is neither it nor its sign extension. */
  predicate SignedEqualityRight(w1: Width, v1: nat, w2: Width, v2: nat) {
    && (w1 < w2 && v1 >= Pow2(w1 - 1) ==> v2 != v1 && v2 != v1 + Pow2(w2) - Pow2(w1))
    && (w2 < w1 && v2 >= Pow2(w2 - 1) ==> v1 != v2 && v1 != v2 + Pow2(w1) - Pow2(w2))
  }

  /** A sum of signed operands is right exactly when neither is negative, or both are and the widths agree. */
  lemma SignedPlusIff(w1: Width, v1: nat, w2: Width, v2: nat)
    requires v1 < Pow2(w1) && v2 < Pow2(w2)
    ensures ToSigned(Max(w1, w2) + 1, v1 + v2) == ToSigned(w1, v1) + ToSigned(w2, v2) <==> SignedSumRight(w1, v1, w2, v2)
  {
    var h1, h2 := Pow2(w1 - 1), Pow2(w2 - 1);
    Halves(w1);
    Halves(w2);
    Halves(Max(w1, w2) + 1);
    Pow2Monotone(w1, if w1 < w2 then w2 - 1 else w1);
    Pow2Monotone(w2, if w2 < w1 then w1 - 1 else w2);
    hide Pow2;
    if w1 == w2 {
      EqualSum(h1, v1, v2);
    } else if w1 < w2 {
      NarrowSum(h1, v1, h2, v2);
    } else {
      NarrowSum(h2, v2, h1, v1);
    }
  }

  lemma Halves(w: Width)
    ensures Pow2(w) == 2 * Pow2(w - 1)
  {
  }

  lemma EqualSum(h: nat, v1: nat, v2: nat)
    requires v1 < 2 * h && v2 < 2 * h
    ensures (if v1 + v2 < 2 * h then v1 + v2 else v1 + v2 - 4 * h)
         == (if v1 < h then v1 else v1 - 2 * h) + (if v2 < h then v2 else v2 - 2 * h)
       <==> (v1 < h <==> v2 < h)
  {
  }

  lemma NarrowSum(h1: nat, v1: nat, h2: nat, v2: nat)
    requires v1 < 2 * h1 <= h2 && v2 < 2 * h2
    ensures (if v1 + v2 < 2 * h2 then v1 + v2 else v1 + v2 - 4 * h2)
         == (if v1 < h1 then v1 else v1 - 2 * h1) + (if v2 < h2 then v2 else v2 - 2 * h2)
       <==> v1 < h1 && v2 < h2
  {
  }

  predicate SignedSumRight(w1: Width, v1: nat, w2: Width, v2: nat) {
    var negative1, negative2 := v1 >= Pow2(w1 - 1), v2 >= Pow2(w2 - 1);
    negative1 == negative2 && (negative1 ==> w1 == w2)
  }

  /** A product of signed operands is right exactly when neither is negative, one is zero, or both are the least. */
  lemma SignedMultiplyIff(w1: Width, v1: nat, w2: Width, v2: nat)
    requires v1 < Pow2(w1) && v2 < Pow2(w2)
    ensures v1 * v2 < Pow2(w1 + w2)
    ensures ToSigned(w1 + w2, v1 * v2) == ToSigned(w1, v1) * ToSigned(w2, v2) <==> SignedProductRight(w1, v1, w2, v2)
  {
    ProductBound(v1, w1, v2, w2);
    Pow2Add(w1, w2);
    var h1, h2 := Pow2(w1 - 1), Pow2(w2 - 1);
    Pow2Add(w1 - 1, w2 - 1);
    var h := h1 * h2;
    assert Pow2(w1 + w2 - 2) == h;
    assert Pow2(w1 + w2 - 1) == 2 * h;
    assert Pow2(w1 + w2) == 4 * h;
    hide Pow2;
    ProductCases(h1, v1, h2, v2);
  }

  /** The arithmetic of `SignedMultiplyIff`, with half the range of each operand for a parameter. */
  lemma ProductCases(h1: nat, v1: nat, h2: nat, v2: nat)
    requires v1 < 2 * h1 && v2 < 2 * h2
    ensures var s1, s2 := (if v1 < h1 then v1 else v1 - 2 * h1), (if v2 < h2 then v2 else v2 - 2 * h2);
            var p := v1 * v2;
            (if p < 2 * (h1 * h2) then p else p - 4 * (h1 * h2)) == s1 * s2
            <==> v1 == 0 || v2 == 0 || (v1 < h1 && v2 < h2) || (v1 == h1 && v2 == h2)
  {
    if v1 == 0 || v2 == 0 {
    } else if v1 < h1 && v2 < h2 {
      MulBound(v1, v2, h1, h2);
    } else if v1 < h1 {
      OneNegative(h2, v2, h1, v1);
    } else if v2 < h2 {
      OneNegative(h1, v1, h2, v2);
    } else {
      BothNegative(h1, v1 - h1, h2, v2 - h2);
    }
  }

  lemma OneNegative(h1: nat, v1: nat, h2: nat, v2: nat)
    requires h1 <= v1 < 2 * h1 && 0 < v2 < h2
    ensures var p := v1 * v2; (if p < 2 * (h1 * h2) then p else p - 4 * (h1 * h2)) != (v1 - 2 * h1) * v2
  {
    assert (v1 - 2 * h1) * v2 == v1 * v2 - 2 * (h1 * v2);
    assert h1 * v2 > 0;
    MulLess(h1, v2, h2);
  }

  lemma MulLess(a: nat, b: nat, c: nat)
    requires a > 0 && b < c
    ensures a * b < a * c
  {
    Distribute(a, b, c - b);
    MulAtLeast(c - b, a);
  }

  lemma BothNegative(h1: nat, d1: nat, h2: nat, d2: nat)
    requires d1 < h1 && d2 < h2
    ensures var p := (h1 + d1) * (h2 + d2);
            (if p < 2 * (h1 * h2) then p else p - 4 * (h1 * h2)) == (d1 - h1) * (d2 - h2) <==> d1 == 0 && d2 == 0
  {
    var a, b, c, d := h1 * h2, h1 * d2, d1 * h2, d1 * d2;
    assert (h1 + d1) * (h2 + d2) == a + b + c + d;
    assert (d1 - h1) * (d2 - h2) == a - b - c + d;
    MulLess(h1, d2, h2);
    MulLess(h2, d1, h1);
    assert h2 * d1 == c && h2 * h1 == a;
    if d1 > 0 { assert c > 0; }
    if d2 > 0 { assert b > 0; }
  }

  predicate SignedProductRight(w1: Width, v1: nat, w2: Width, v2: nat) {
    v1 == 0 || v2 == 0 || (v1 < Pow2(w1 - 1) && v2 < Pow2(w2 - 1)) || (v1 == Pow2(w1 - 1) && v2 == Pow2(w2 - 1))
  }

  /** When a difference is right modulo the wider width: a wider subtrahend meets a minuend that is not negative,
      a narrower one is zero or negative. */
  predicate DifferenceKept(w1: Width, v1: nat, w2: Width, v2: nat) {
    if w2 == w1 then true else if w2 > w1 then v1 < Pow2(w1 - 1) else v2 == 0 || v2 >= Pow2(w2 - 1)
  }

  lemma SignedMinusModular(w1: Width, v1: nat, w2: Width, v2: nat)
    requires v1 < Pow2(w1) && v2 < Pow2(w2)
    ensures var w := Max(w1, w2);
            Difference(w1, v1, w2, v2) == LowPart(ToSigned(w1, v1) - ToSigned(w2, v2), w) <==> DifferenceKept(w1, v1, w2, v2)
  {
    hide Pow2, LowPart, ToSigned, Difference, Max;
    var d := ToSigned(w1, v1) - ToSigned(w2, v2);
    var e1: nat := if v1 >= Pow2(w1 - 1) then Pow2(w1) else 0;
    var e2: nat := if 0 < v2 < Pow2(w2 - 1) then Pow2(w2) else 0;
    OperandOffsets(w1, v1, w2, v2, e1, e2);
    OffsetsMatter(d, w1, e1, w2, e2);
  }

  /** The unsigned readings differ from the signed ones by these offsets. */
  lemma OperandOffsets(w1: Width, v1: nat, w2: Width, v2: nat, e1: nat, e2: nat)
    requires v1 < Pow2(w1) && v2 < Pow2(w2)
    requires e1 == (if v1 >= Pow2(w1 - 1) then Pow2(w1) else 0) && e2 == (if 0 < v2 < Pow2(w2 - 1) then Pow2(w2) else 0)
    ensures Difference(w1, v1, w2, v2) == LowPart(ToSigned(w1, v1) - ToSigned(w2, v2) + e1 + e2, Max(w1, w2))
  {
    NegatedValue(w2, v2);
    hide Negated, LowPart;
    assert v1 + Negated(w2, v2) == ToSigned(w1, v1) - ToSigned(w2, v2) + e1 + e2;
  }

  lemma OffsetsMatter(d: int, w1: nat, e1: nat, w2: nat, e2: nat)
    requires (e1 == 0 || e1 == Pow2(w1)) && (e2 == 0 || e2 == Pow2(w2))
    ensures LowPart(d + e1 + e2, Max(w1, w2)) == LowPart(d, Max(w1, w2))
       <==> if w1 == w2 then true else if w2 > w1 then e1 == 0 else e2 == 0
  {
    Pow2Monotone(w1, Max(w1, w2));
    Pow2Monotone(w2, Max(w1, w2));
    hide Pow2, LowPart;
    if w1 == w2 {
      LowPartOffset(d, e1 + e2, 0, w1);
    } else if w2 > w1 {
      LowPartOffset(d, e2, e1, w2);
    } else {
      LowPartOffset(d, e1, e2, w1);
    }
  }

  /** Adding up to two moduli changes nothing, and adding less than one does. */
  lemma LowPartOffset(d: int, moduli: nat, rest: nat, w: nat)
    requires (moduli == 0 || moduli == Pow2(w) || moduli == Pow2(w) + Pow2(w)) && rest < Pow2(w)
    ensures LowPart(d + moduli + rest, w) == LowPart(d, w) <==> rest == 0
  {
    hide LowPart, Pow2;
    LowPartShift(d + rest, w);
    LowPartShift(d + rest + Pow2(w), w);
    if rest > 0 { LowPartApart(d + rest, rest, w); }
  }

  /** Numbers less than the modulus apart have different remainders. */
  lemma LowPartApart(v: int, step: nat, w: nat)
    requires 0 < step < Pow2(w)
    ensures LowPart(v - step, w) != LowPart(v, w)
  {
    var p := Pow2(w);
    DivisionOf(v, p);
    DivisionOf(v - step, p);
    var q, q' := v / p, (v - step) / p;
    Distribute(p, q', q - q');
    if q > q' { MulAtLeast(q - q', p); } else if q < q' { Distribute(p, q, q' - q); MulAtLeast(q' - q, p); }
  }

  /** A signed difference is right exactly when it is right modulo the width and fits it. */
  lemma SignedMinusIff(w1: Width, v1: nat, w2: Width, v2: nat)
    requires v1 < Pow2(w1) && v2 < Pow2(w2)
    ensures var w, d := Max(w1, w2), ToSigned(w1, v1) - ToSigned(w2, v2);
            ToSigned(w, Difference(w1, v1, w2, v2)) == d <==> DifferenceKept(w1, v1, w2, v2) && SignedRange(d, w)
  {
    var w, d := Max(w1, w2), ToSigned(w1, v1) - ToSigned(w2, v2);
    var r := Difference(w1, v1, w2, v2);
    SignedMinusModular(w1, v1, w2, v2);
    DifferenceBound(w1, v1, w2, v2);
    SignedRemainder(r, d, w);
  }

  lemma DifferenceBound(w1: Width, v1: nat, w2: Width, v2: nat)
    ensures Difference(w1, v1, w2, v2) < Pow2(Max(w1, w2))
  {
  }

  lemma SignedRemainder(r: nat, d: int, w: Width)
    requires r < Pow2(w)
    ensures ToSigned(w, r) == d <==> r == LowPart(d, w) && SignedRange(d, w)
  {
    if SignedRange(d, w) {
      if d < 0 { LowPartNegative(d, w); } else { LowPartSmall(d, w); }
    }
  }

  // ---------------------------------------------------------------- negation and constants

  /** `exprNot` of a vector is bitwise: as a condition it is the negation exactly on 0 and on all ones. */
  lemma VectorNotExactIff(w: Width, v: nat, signed: bool)
    requires v < Pow2(w)
    ensures (HasBit(WordNot(Vec(w, v, signed))) <==> v == 0) <==> v == 0 || v == Pow2(w) - 1
  {
    NegatedValue(w, v);
    Pow2Monotone(1, w);
  }

  /** A constant beside a truth value in `exprAnd` is dropped: right exactly when it is not zero or the
      other side is false. In `exprOr` the pair has no meaning at all. */
  lemma ConstantBesideTruth(c: Word, b: bool)
    requires c.IsConstant()
    ensures WordAnd(c, Truth(b)) == Truth(HasBit(c) && b) <==> HasBit(c) || !b
    ensures WordAnd(Truth(b), c) == WordAnd(c, Truth(b))
    ensures WordOr(c, Truth(b)).NoWord? && WordOr(Truth(b), c).NoWord?
  {
  }

  function ZeroOrOne(b: bool): int { if b then 1 else 0 }

  /** Arithmetic on two truth values, read as 0 and 1, says whether the result is positive. */
  lemma TruthArithmetic(a: bool, b: bool)
    ensures var x, y := ZeroOrOne(a), ZeroOrOne(b);
            && WordOp(PLUS, Truth(a), Truth(b)) == Truth(x + y > 0)
            && WordOp(MINUS, Truth(a), Truth(b)) == Truth(x - y > 0)
            && WordOp(MULTIPLY, Truth(a), Truth(b)) == Truth(x * y > 0)
  {
  }

  // ---------------------------------------------------------------- mathematical meaning

  /** The mathematical value of an expression: an integer, a truth value, or none. */
  datatype Ideal = Undefined | Number(n: int) | Holds(b: bool)

  predicate IsTrue(i: Ideal) {
    match i
    case Undefined => false
    case Number(n) => n != 0
    case Holds(b) => b
  }

  function IdealOp(op: Operator, a: Ideal, b: Ideal): Ideal {
    if a.Undefined? || b.Undefined? then Undefined
    else if op.AND? then Holds(IsTrue(a) && IsTrue(b))
    else if op.OR? then Holds(IsTrue(a) || IsTrue(b))
    else if a.Number? != b.Number? then Undefined
    else
      var x, y := AsNumber(a), AsNumber(b);
      match op
      case PLUS => if a.Number? then Number(x + y) else Undefined
      case MINUS => if a.Number? then Number(x - y) else Undefined
      case MULTIPLY => if a.Number? then Number(x * y) else Undefined
      case EQUAL => Holds(x == y)
      case NOT_EQUAL => Holds(x != y)
      case GREATER => Holds(x > y)
      case LESS => Holds(x < y)
      case GREATER_EQUAL => Holds(x >= y)
      case _ => Holds(x <= y)
  }

  function AsNumber(i: Ideal): int {
    match i
    case Undefined => 0
    case Number(n) => n
    case Holds(b) => if b then 1 else 0
  }

  /** The meaning of the constraint language over the integers. */
  function IdealValue(e: Expr, val: Valuation): Ideal {
    match e
    case Empty => Undefined
    case IntConstant(i, _) => Number(i)
    case UnsignedConstant(u, _) => Number(u)
    case BoolConstant(b, _) => Number(if b then 1 else 0)
    case Extension(x) =>
      Number(if x.kind.SignedInteger? then ToSigned(VecSize(x), Lookup(val, x)) else Lookup(val, x))
    case Binary(op, l, r) => IdealOp(op, IdealValue(l, val), IdealValue(r, val))
    case Negation(o) => var i := IdealValue(o, val); if i.Undefined? then Undefined else Holds(!IsTrue(i))
  }

  predicate SignedRange(i: int, w: Width) {
    0 - Pow2(w - 1) <= i < Pow2(w - 1)
  }

  /** A word stands for a mathematical value. */
  predicate Represents(w: Word, i: Ideal) {
    match w
    case NoWord => false
    case IntWord(v, k) => i == Number(v) && SignedRange(v, k)
    case UnsignedWord(u, k) => i == Number(u) && u < Pow2(k)
    case BoolWord(b, k) => i == Number(if b then 1 else 0) && k >= 2
    case Truth(b) => i == Holds(b)
    case Vec(size, v, signed) => v < Pow2(size) && i == Number(if signed then ToSigned(size, v) else v)
  }

  // ---------------------------------------------------------------- constants as vectors

  lemma {:induction false} SignExtension(i: int, w: Width, size: nat)
    requires SignedRange(i, w) && w <= size
    ensures ConstantValue(i, w, size, true) == LowPart(i, size)
    decreases size
  {
    if w < size {
      SignExtension(i, w, size - 1);
      ModStep(i, size - 1);
      SignBitAt(i, w, w - 1);
      SignBitAt(i, w, size - 1);
    }
  }

  lemma SignBitAt(i: int, w: Width, k: nat)
    requires SignedRange(i, w) && k >= w - 1
    ensures BitOf(i, k) <==> i < 0
  {
    Pow2Monotone(w - 1, k);
    if i >= 0 { DivModUnique(i, Pow2(k), 0, i); } else { DivModUnique(i, Pow2(k), -1, i + Pow2(k)); }
  }

  lemma {:induction false} ZeroExtension(u: nat, w: Width, size: nat)
    requires u < Pow2(w) && w <= size
    ensures ConstantValue(u, w, size, false) == u
    decreases size
  {
    if w < size { ZeroExtension(u, w, size - 1); } else { LowPartSmall(u, w); }
  }

  /** A constant as a vector: its number modulo the size of the vector. */
  lemma ConstantRepresents(c: Word, i: Ideal, atLeast: nat)
    requires c.IsConstant() && Represents(c, i)
    ensures var x := ConstantWord(c, atLeast);
            x.v == LowPart(i.n, x.size) && (i.n >= 0 ==> x.v == i.n)
    ensures HasBit(c) <==> i.n != 0
  {
    hide LowPart, BitOf;
    ConstantRepresentsAt(c, i, atLeast);
    ConstantRepresentsAt(c, i, 0);
    if i.n < 0 { LowPartNegative(i.n, c.width); }
  }

  lemma LowPartNegative(i: int, w: Width)
    requires SignedRange(i, w) && i < 0
    ensures LowPart(i, w) == i + Pow2(w)
  {
    DivModUnique(i, Pow2(w), -1, i + Pow2(w));
  }

  lemma ConstantRepresentsAt(c: Word, i: Ideal, atLeast: nat)
    requires c.IsConstant() && Represents(c, i)
    ensures var x := ConstantWord(c, atLeast);
            x.v == LowPart(i.n, x.size) && (i.n >= 0 ==> x.v == i.n)
  {
    hide LowPart, BitOf, ConstantValue;
    var size := Max(c.width, atLeast);
    Pow2Monotone(c.width, size);
    match c
    case IntWord(v, w) => SignExtension(v, w, size); if v >= 0 { LowPartSmall(v, size); }
    case UnsignedWord(u, w) => ZeroExtension(u, w, size); LowPartSmall(u, size);
    case BoolWord(b, w) =>
      Pow2Monotone(1, w - 1);
      SignExtension(i.n, w, size);
      LowPartSmall(i.n, size);
  }

  // ---------------------------------------------------------------- whole trees

  /** The variables whose kind decides how a vector is compared: all of a sum or product, those of the minuend
      of a difference. */
  function SignSources(e: Expr): set<Ext> {
    match e
    case Extension(x) => {x}
    case Binary(op, l, r) =>
      if op.PLUS? || op.MULTIPLY? then SignSources(l) + SignSources(r) else if op.MINUS? then SignSources(l) else {}
    case Negation(o) => SignSources(o)
    case _ => {}
  }

  /** A compiled vector is compared as signed exactly when one of these variables is. */
  lemma {:induction false} SignedWhenSources(e: Expr, val: Valuation)
    ensures Meaning(e, val).Vec? ==> (Meaning(e, val).signed <==> exists x :: x in SignSources(e) && x.kind.SignedInteger?)
    ensures Meaning(e, val).IsConstant() ==> SignSources(e) == {}
  {
    hide ConstantValue, Difference, Inverted, HasBit, LowPart;
    match e
    case Binary(op, l, r) =>
      SignedWhenSources(l, val);
      SignedWhenSources(r, val);
      SignOfVector(op, Meaning(l, val), Meaning(r, val));
      if op.PLUS? || op.MULTIPLY? { SourcesUnion(SignSources(l), SignSources(r)); }
    case Negation(o) => SignedWhenSources(o, val);
    case Extension(x) => assert x in SignSources(e);
    case _ =>
  }

  lemma SourcesUnion(a: set<Ext>, b: set<Ext>)
    ensures (exists x :: x in a + b && x.kind.SignedInteger?)
       <==> (exists x :: x in a && x.kind.SignedInteger?) || (exists x :: x in b && x.kind.SignedInteger?)
  {
    if x :| x in a && x.kind.SignedInteger? { assert x in a + b; }
    if x :| x in b && x.kind.SignedInteger? { assert x in a + b; }
  }

  predicate SignedVec(a: Word) { a.Vec? && a.signed }

  lemma SignOfVector(op: Operator, a: Word, b: Word)
    ensures !WordOp(op, a, b).IsConstant()
    ensures WordOp(op, a, b).Vec? ==>
              && (op.PLUS? || op.MINUS? || op.MULTIPLY?) && (a.Vec? || a.IsConstant()) && (b.Vec? || b.IsConstant())
              && WordOp(op, a, b).signed == (SignedVec(a) || (!op.MINUS? && SignedVec(b)))
  {
    hide ConstantValue, Difference, HasBit;
  }

  /** An operand read as an unsigned number. */
  predicate Plain(w: Word) {
    match w
    case IntWord(i, _) => i >= 0
    case UnsignedWord(_, _) => true
    case BoolWord(_, _) => true
    case Vec(_, _, signed) => !signed
    case _ => false
  }

  /** A signed vector, or a signed constant to compare it with. */
  predicate SignedOperand(w: Word) {
    w.IntWord? || (w.Vec? && w.signed)
  }

  /** The two's complement reading of a widened operand is the number the operand stands for. */
  predicate ReadsSigned(w: Word, x: Word) {
    x.Vec? && (SignedOperand(w) || (Plain(w) && x.v < Pow2(x.size - 1)))
  }

  predicate SignedPair(a: Word, b: Word) {
    ReadsSigned(a, Widened(a, b)) && ReadsSigned(b, Widened(b, a))
  }

  /** What an operator needs of its operands, readable off widths, signs and magnitudes; `x` and `y` are the
      widened operands. */
  predicate Sound(op: Operator, a: Word, b: Word) {
    match op
    case PLUS => (Plain(a) && Plain(b)) || SoundSignedSum(a, b)
    case MULTIPLY => (Plain(a) && Plain(b)) || SoundSignedProduct(a, b)
    case MINUS => SoundDifference(a, b) || SoundSignedDifference(a, b)
    case EQUAL => SoundEquality(a, b)
    case NOT_EQUAL => SoundEquality(a, b)
    case LESS => SoundOrder(a, b) && SoundEquality(a, b)
    case LESS_EQUAL => SoundOrder(a, b)
    case GREATER => SoundOrder(b, a) && SoundEquality(b, a)
    case GREATER_EQUAL => SoundOrder(b, a) && SoundEquality(b, a)
    case AND => !a.NoWord? && !b.NoWord? &&
      (a.IsConstant() && b.Truth? ==> HasBit(a) || !b.holds) && (b.IsConstant() && a.Truth? ==> HasBit(b) || !a.holds)
    case OR => !a.NoWord? && !b.NoWord? && !(a.IsConstant() && b.Truth?) && !(b.IsConstant() && a.Truth?)
  }

  predicate SoundSignedSum(a: Word, b: Word) {
    var x, y := Widened(a, b), Widened(b, a);
    SignedPair(a, b) && (x.signed || y.signed) && SignedSumRight(x.size, x.v, y.size, y.v)
  }

  predicate SoundSignedProduct(a: Word, b: Word) {
    var x, y := Widened(a, b), Widened(b, a);
    SignedPair(a, b) && (x.signed || y.signed) && SignedProductRight(x.size, x.v, y.size, y.v)
  }

  predicate SoundDifference(a: Word, b: Word) {
    var x, y := Widened(a, b), Widened(b, a);
    Plain(a) && Plain(b) && x.Vec? && y.Vec? && x.v >= y.v && (y.size >= x.size || y.v == 0)
  }

  /** A difference is read as signed exactly when its left operand is. */
  predicate SoundSignedDifference(a: Word, b: Word) {
    var x, y := Widened(a, b), Widened(b, a);
    && SignedPair(a, b) && DifferenceKept(x.size, x.v, y.size, y.v)
    && var w, d := Max(x.size, y.size), ToSigned(x.size, x.v) - ToSigned(y.size, y.v);
       if x.signed then SignedRange(d, w) else 0 <= d < Pow2(w)
  }

  predicate SoundEquality(a: Word, b: Word) {
    var x, y := Widened(a, b), Widened(b, a);
    (a.Truth? && b.Truth?) || (Plain(a) && Plain(b)) || (SignedPair(a, b) && SignedEqualityRight(x.size, x.v, y.size, y.v))
  }

  predicate SoundOrder(a: Word, b: Word) {
    var x, y := Widened(a, b), Widened(b, a);
    || (a.Truth? && b.Truth?)
    || (Plain(a) && Plain(b) && x.Vec? && y.Vec? && (y.size <= x.size || y.v < Pow2(x.size)))
    || (SignedPair(a, b) && (x.signed || y.signed) && SignedOrderRight(x.size, x.v, y.size, y.v))
  }

  /** The side conditions at every node of a tree. */
  predicate Faithful(e: Expr, val: Valuation) {
    match e
    case Empty => false
    case IntConstant(i, w) => SignedRange(i, w)
    case UnsignedConstant(u, w) => u < Pow2(w)
    case BoolConstant(_, w) => w >= 2
    case Extension(x) => Lookup(val, x) < Pow2(VecSize(x))
    case Binary(op, l, r) => Faithful(l, val) && Faithful(r, val) && Sound(op, Meaning(l, val), Meaning(r, val))
    case Negation(o) => Faithful(o, val) && Meaning(o, val).Truth?
  }

  lemma PlainWidened(a: Word, b: Word, i: Ideal)
    requires Plain(a) && Represents(a, i) && (b.Vec? || b.IsConstant())
    ensures var x := Widened(a, b); x.Vec? && !x.signed && i == Number(x.v) && x.v < Pow2(x.size)
  {
    hide LowPart, ConstantValue;
    if a.IsConstant() {
      ConstantRepresents(a, i, if b.Vec? then b.size else 0);
    }
  }

  lemma ReadsWidened(a: Word, b: Word, i: Ideal)
    requires ReadsSigned(a, Widened(a, b)) && Represents(a, i) && (b.Vec? || b.IsConstant())
    ensures var x := Widened(a, b); x.Vec? && i == Number(ToSigned(x.size, x.v)) && x.v < Pow2(x.size)
  {
    hide Widened, Pow2;
    if SignedOperand(a) { SignedWidened(a, b, i); } else { PlainWidened(a, b, i); }
  }

  /** Both operands of a pair read as signed. */
  lemma PairReads(a: Word, b: Word, i: Ideal, j: Ideal)
    requires SignedPair(a, b) && Represents(a, i) && Represents(b, j)
    ensures var x, y := Widened(a, b), Widened(b, a);
            && x.Vec? && i == Number(ToSigned(x.size, x.v)) && x.v < Pow2(x.size)
            && y.Vec? && j == Number(ToSigned(y.size, y.v)) && y.v < Pow2(y.size)
  {
    PairKinds(a, b);
    hide Widened, Represents, ReadsSigned;
    ReadsWidened(a, b, i);
    ReadsWidened(b, a, j);
  }

  lemma PairKinds(a: Word, b: Word)
    requires SignedPair(a, b)
    ensures (a.Vec? || a.IsConstant()) && (b.Vec? || b.IsConstant())
    ensures Widened(a, b).Vec? && Widened(b, a).Vec?
  {
    hide ConstantValue, LowPart;
  }

  lemma SignedWidened(a: Word, b: Word, i: Ideal)
    requires SignedOperand(a) && Represents(a, i) && (b.Vec? || b.IsConstant())
    ensures var x := Widened(a, b); x.Vec? && i == Number(ToSigned(x.size, x.v)) && x.v < Pow2(x.size)
  {
    hide LowPart, ConstantValue;
    if a.IsConstant() {
      var n := if b.Vec? then b.size else 0;
      var size := Max(a.width, n);
      ConstantRepresents(a, i, n);
      Pow2Monotone(a.width - 1, size - 1);
      if a.i < 0 { LowPartNegative(a.i, size); } else { LowPartSmall(a.i, size); }
    }
  }

  lemma SoundPlus(a: Word, b: Word, i: Ideal, j: Ideal)
    requires Represents(a, i) && Represents(b, j) && Sound(PLUS, a, b)
    ensures Represents(WordPlus(a, b), IdealOp(PLUS, i, j))
  {
    hide Widened, Pow2, SignedPair, SignedSumRight, ToSigned;
    var x, y := Widened(a, b), Widened(b, a);
    if SoundSignedSum(a, b) {
      PairKinds(a, b);
      PairReads(a, b, i, j);
      SignedPlusIff(x.size, x.v, y.size, y.v);
    } else {
      PlainWidened(a, b, i);
      PlainWidened(b, a, j);
    }
    Pow2Monotone(x.size, Max(x.size, y.size));
    Pow2Monotone(y.size, Max(x.size, y.size));
    SumFits(x.v, y.v, Max(x.size, y.size));
  }

  lemma SumFits(v: nat, w: nat, m: nat)
    requires v < Pow2(m) && w < Pow2(m)
    ensures v + w < Pow2(m + 1)
  {
  }

  lemma SoundMultiply(a: Word, b: Word, i: Ideal, j: Ideal)
    requires Represents(a, i) && Represents(b, j) && Sound(MULTIPLY, a, b)
    ensures Represents(WordMultiply(a, b), IdealOp(MULTIPLY, i, j))
  {
    hide Widened, Pow2, SignedPair, SignedProductRight, ToSigned;
    var x, y := Widened(a, b), Widened(b, a);
    if SoundSignedProduct(a, b) {
      PairKinds(a, b);
      PairReads(a, b, i, j);
      SignedMultiplyIff(x.size, x.v, y.size, y.v);
    } else {
      PlainWidened(a, b, i);
      PlainWidened(b, a, j);
      ProductBound(x.v, x.size, y.v, y.size);
    }
  }

  lemma SoundMinus(a: Word, b: Word, i: Ideal, j: Ideal)
    requires Represents(a, i) && Represents(b, j) && Sound(MINUS, a, b)
    ensures Represents(WordMinus(a, b), IdealOp(MINUS, i, j))
  {
    hide Widened, Pow2, Difference, SignedPair, DifferenceKept, ToSigned;
    var x, y := Widened(a, b), Widened(b, a);
    if SoundSignedDifference(a, b) {
      PairKinds(a, b);
      PairReads(a, b, i, j);
      SignedMinusIff(x.size, x.v, y.size, y.v);
      SignedMinusModular(x.size, x.v, y.size, y.v);
      DifferenceBound(x.size, x.v, y.size, y.v);
      var d := ToSigned(x.size, x.v) - ToSigned(y.size, y.v);
      if d >= 0 { LowPartBelowModulus(d, Max(x.size, y.size)); }
    } else {
      PlainWidened(a, b, i);
      PlainWidened(b, a, j);
      MinusExactIff(x.size, x.v, y.size, y.v);
      Pow2Monotone(x.size, Max(x.size, y.size));
    }
  }

  lemma LowPartBelowModulus(d: nat, w: nat)
    ensures d < Pow2(w) ==> LowPart(d, w) == d
  {
    if d < Pow2(w) { LowPartSmall(d, w); }
  }

  lemma SoundEqual(a: Word, b: Word, i: Ideal, j: Ideal)
    requires Represents(a, i) && Represents(b, j) && SoundEquality(a, b)
    ensures Represents(WordEqual(a, b), IdealOp(EQUAL, i, j))
  {
    hide Widened, Pow2, SignedPair, SignedEqualityRight, ToSigned;
    var x, y := Widened(a, b), Widened(b, a);
    if Plain(a) && Plain(b) {
      PlainWidened(a, b, i);
      PlainWidened(b, a, j);
    } else if SignedPair(a, b) {
      PairKinds(a, b);
      PairReads(a, b, i, j);
      SignedEqualIff(x.size, x.v, y.size, y.v);
    }
  }

  lemma SoundAtMost(a: Word, b: Word, i: Ideal, j: Ideal)
    requires Represents(a, i) && Represents(b, j) && SoundOrder(a, b)
    ensures Represents(WordAtMost(a, b), IdealOp(LESS_EQUAL, i, j))
  {
    hide Widened, Pow2, SignedAtMost, SignedPair, SignedOrderRight, ToSigned, LowPart;
    var x, y := Widened(a, b), Widened(b, a);
    if a.Truth? && b.Truth? {
    } else if x.Vec? && y.Vec? && (x.signed || y.signed) {
      PlainUnsigned(a, b);
      PairKinds(a, b);
      PairReads(a, b, i, j);
      SignedAtMostIff(x.size, x.v, y.size, y.v);
    } else {
      if SignedPair(a, b) { PairKinds(a, b); }
      PlainWidened(a, b, i);
      PlainWidened(b, a, j);
      if y.size <= x.size { Pow2Monotone(y.size, x.size); }
      LowPartSmall(y.v, x.size);
    }
  }

  lemma PlainUnsigned(a: Word, b: Word)
    ensures Plain(a) && Widened(a, b).Vec? ==> !Widened(a, b).signed
    ensures Plain(b) && Widened(b, a).Vec? ==> !Widened(b, a).signed
  {
  }

  lemma EqualityCommutes(a: Word, b: Word)
    ensures SoundEquality(a, b) <==> SoundEquality(b, a)
  {
    hide Widened, Plain, ReadsSigned;
  }

  lemma SoundLess(a: Word, b: Word, i: Ideal, j: Ideal)
    requires Represents(a, i) && Represents(b, j) && SoundOrder(a, b) && SoundEquality(a, b)
    ensures Represents(WordLess(a, b), IdealOp(LESS, i, j))
  {
    hide SoundOrder, SoundEquality, WordAtMost, WordEqual;
    SoundAtMost(a, b, i, j);
    SoundEqual(a, b, i, j);
  }

  lemma HasBitIsTrue(a: Word, i: Ideal)
    requires Represents(a, i) && !a.Truth?
    ensures HasBit(a) <==> IsTrue(i)
  {
    hide LowPart, ConstantValue;
    if a.IsConstant() { ConstantRepresents(a, i, 0); }
  }

  /** Every operator: under its condition the compiled word stands for the mathematical value. */
  lemma SoundOp(op: Operator, a: Word, b: Word, i: Ideal, j: Ideal)
    requires Represents(a, i) && Represents(b, j) && Sound(op, a, b)
    ensures Represents(WordOp(op, a, b), IdealOp(op, i, j))
  {
    hide WordPlus, WordMinus, WordMultiply, WordEqual, WordAtMost, WordLess, HasBit, SoundEquality, SoundOrder, SoundSignedSum, SoundSignedProduct, SoundDifference, SoundSignedDifference, Widened;
    match op
    case PLUS => SoundPlus(a, b, i, j);
    case MINUS => SoundMinus(a, b, i, j);
    case MULTIPLY => SoundMultiply(a, b, i, j);
    case EQUAL => SoundEqual(a, b, i, j);
    case NOT_EQUAL => SoundEqual(a, b, i, j);
    case LESS => SoundLess(a, b, i, j);
    case LESS_EQUAL => SoundAtMost(a, b, i, j);
    case GREATER => SoundLess(b, a, j, i);
    case GREATER_EQUAL =>
      EqualityCommutes(b, a);
      SoundLess(b, a, j, i);
      SoundEqual(a, b, i, j);
    case AND => SoundLogic(a, b, i, j);
    case OR => SoundLogic(a, b, i, j);
  }

  lemma SoundLogic(a: Word, b: Word, i: Ideal, j: Ideal)
    requires Represents(a, i) && Represents(b, j)
    ensures Sound(AND, a, b) ==> Represents(WordAnd(a, b), IdealOp(AND, i, j))
    ensures Sound(OR, a, b) ==> Represents(WordOr(a, b), IdealOp(OR, i, j))
  {
    hide HasBit, Pow2;
    if !a.Truth? { HasBitIsTrue(a, i); }
    if !b.Truth? { HasBitIsTrue(b, j); }
  }

  /** The compiled meaning of a faithful tree is its mathematical meaning. */
  lemma {:induction false} FaithfulMeaning(e: Expr, val: Valuation)
    requires Faithful(e, val)
    ensures Represents(Meaning(e, val), IdealValue(e, val))
  {
    hide Sound, WordOp, IdealOp;
    match e
    case Binary(op, l, r) =>
      FaithfulMeaning(l, val);
      FaithfulMeaning(r, val);
      SoundOp(op, Meaning(l, val), Meaning(r, val), IdealValue(l, val), IdealValue(r, val));
    case Negation(o) => FaithfulMeaning(o, val);
    case _ =>
  }

  // ---------------------------------------------------------------- conditions on widths alone

  /** Two words of the same shape: the same constant, two truth values, or vectors alike in width and sign. */
  predicate SameShape(a: Word, b: Word) {
    match a
    case Truth(_) => b.Truth?
    case Vec(size, _, signed) => b.Vec? && b.size == size && b.signed == signed
    case _ => a == b
  }

  lemma SameShapeOp(op: Operator, a: Word, b: Word, a': Word, b': Word)
    requires SameShape(a, a') && SameShape(b, b')
    ensures SameShape(WordOp(op, a, b), WordOp(op, a', b'))
  {
    hide SameShape, WordPlus, WordMinus, WordMultiply, WordEqual, WordNotEqual, WordLess, WordAtMost, WordAtLeast, WordAnd, WordOr;
    match op
    case AND => SameShapeLogic(a, b, a', b');
    case OR => SameShapeLogic(a, b, a', b');
    case EQUAL => SameShapeEqual(a, b, a', b');
    case NOT_EQUAL => SameShapeEqual(a, b, a', b');
    case LESS_EQUAL => SameShapeAtMost(a, b, a', b');
    case LESS => SameShapeLess(a, b, a', b');
    case GREATER => SameShapeLess(b, a, b', a');
    case GREATER_EQUAL => SameShapeAtLeast(a, b, a', b');
    case _ => SameShapeSum(a, b, a', b');
  }

  lemma SameShapeSum(a: Word, b: Word, a': Word, b': Word)
    requires SameShape(a, a') && SameShape(b, b')
    ensures SameShape(WordPlus(a, b), WordPlus(a', b'))
    ensures SameShape(WordMinus(a, b), WordMinus(a', b'))
    ensures SameShape(WordMultiply(a, b), WordMultiply(a', b'))
  {
    SameShapeWidened(a, b, a', b');
    SameShapeWidened(b, a, b', a');
    hide Widened, Difference;
  }

  lemma SameShapeEqual(a: Word, b: Word, a': Word, b': Word)
    requires SameShape(a, a') && SameShape(b, b')
    ensures SameShape(WordEqual(a, b), WordEqual(a', b')) && SameShape(WordNotEqual(a, b), WordNotEqual(a', b'))
  {
    SameShapeWidened(a, b, a', b');
    SameShapeWidened(b, a, b', a');
    hide Widened;
  }

  lemma SameShapeAtMost(a: Word, b: Word, a': Word, b': Word)
    requires SameShape(a, a') && SameShape(b, b')
    ensures SameShape(WordAtMost(a, b), WordAtMost(a', b'))
  {
    SameShapeWidened(a, b, a', b');
    SameShapeWidened(b, a, b', a');
    hide Widened, SignedAtMost, UnsignedAtMost;
  }

  lemma SameShapeLess(a: Word, b: Word, a': Word, b': Word)
    requires SameShape(a, a') && SameShape(b, b')
    ensures SameShape(WordLess(a, b), WordLess(a', b'))
  {
    SameShapeAtMost(a, b, a', b');
    SameShapeEqual(a, b, a', b');
    hide WordAtMost, WordNotEqual;
  }

  lemma SameShapeAtLeast(a: Word, b: Word, a': Word, b': Word)
    requires SameShape(a, a') && SameShape(b, b')
    ensures SameShape(WordAtLeast(a, b), WordAtLeast(a', b'))
  {
    SameShapeLess(b, a, b', a');
    SameShapeEqual(a, b, a', b');
    hide WordLess, WordEqual;
  }

  lemma SameShapeLogic(a: Word, b: Word, a': Word, b': Word)
    requires SameShape(a, a') && SameShape(b, b')
    ensures SameShape(WordAnd(a, b), WordAnd(a', b')) && SameShape(WordOr(a, b), WordOr(a', b'))
  {
    hide HasBit;
  }

  lemma SameShapeWidened(a: Word, b: Word, a': Word, b': Word)
    requires SameShape(a, a') && SameShape(b, b')
    ensures SameShape(Widened(a, b), Widened(a', b'))
  {
    hide ConstantValue;
  }

  /** The shape of a compiled expression does not depend on the values of its variables. */
  lemma {:induction false} ShapeIsStatic(e: Expr, val: Valuation, val': Valuation)
    ensures SameShape(Meaning(e, val), Meaning(e, val'))
  {
    hide WordOp;
    match e
    case Binary(op, l, r) =>
      ShapeIsStatic(l, val, val');
      ShapeIsStatic(r, val, val');
      SameShapeOp(op, Meaning(l, val), Meaning(r, val), Meaning(l, val'), Meaning(r, val'));
    case Negation(o) => ShapeIsStatic(o, val, val');
    case _ =>
  }

  predicate WidthSound(op: Operator, a: Word, b: Word) {
    match op
    case PLUS => Plain(a) && Plain(b)
    case MULTIPLY => Plain(a) && Plain(b)
    case MINUS => false
    case EQUAL => WidthSoundEquality(a, b)
    case NOT_EQUAL => WidthSoundEquality(a, b)
    case LESS => WidthSoundOrder(a, b) && WidthSoundEquality(a, b)
    case LESS_EQUAL => WidthSoundOrder(a, b)
    case GREATER => WidthSoundOrder(b, a) && WidthSoundEquality(b, a)
    case GREATER_EQUAL => WidthSoundOrder(b, a) && WidthSoundEquality(b, a)
    case AND => !a.NoWord? && !b.NoWord? && (a.IsConstant() && b.Truth? ==> HasBit(a)) && (b.IsConstant() && a.Truth? ==> HasBit(b))
    case OR => !a.NoWord? && !b.NoWord? && !(a.IsConstant() && b.Truth?) && !(b.IsConstant() && a.Truth?)
  }

  function ConstantNumber(c: Word): int
    requires c.IsConstant()
  {
    match c
    case IntWord(i, _) => i
    case UnsignedWord(u, _) => u
    case BoolWord(b, _) => if b then 1 else 0
  }

  predicate SameSignedWidth(a: Word, b: Word) {
    && SignedOperand(a) && SignedOperand(b) && (a.Vec? || b.Vec?)
    && var x, y := Widened(a, b), Widened(b, a); x.Vec? && y.Vec? && x.size == y.size
  }

  /** A signed vector beside a constant it can hold. */
  predicate HoldsConstant(a: Word, b: Word) {
    a.Vec? && a.signed && b.IsConstant() && SignedRange(ConstantNumber(b), a.size)
  }

  /** A signed vector beside a constant it can hold that is not negative. */
  predicate HoldsNatural(a: Word, b: Word) {
    HoldsConstant(a, b) && ConstantNumber(b) >= 0
  }

  predicate WidthSoundEquality(a: Word, b: Word) {
    (a.Truth? && b.Truth?) || (Plain(a) && Plain(b)) || SameSignedWidth(a, b) || HoldsNatural(a, b) || HoldsNatural(b, a)
  }

  predicate WidthSoundOrder(a: Word, b: Word) {
    || (a.Truth? && b.Truth?)
    || (Plain(a) && Plain(b) && var x, y := Widened(a, b), Widened(b, a);
          x.Vec? && y.Vec? && (y.size <= x.size || (b.IsConstant() && y.v < Pow2(x.size))))
    || SameSignedWidth(a, b) || HoldsConstant(a, b) || HoldsNatural(b, a)
  }

  /** Side conditions that mention no value of a variable; subtraction is never among them. */
  predicate WidthSafe(e: Expr) {
    match e
    case Empty => false
    case IntConstant(i, w) => SignedRange(i, w)
    case UnsignedConstant(u, w) => u < Pow2(w)
    case BoolConstant(_, w) => w >= 2
    case Extension(x) => true
    case Binary(op, l, r) => WidthSafe(l) && WidthSafe(r) && WidthSound(op, Meaning(l, map[]), Meaning(r, map[]))
    case Negation(o) => WidthSafe(o) && Meaning(o, map[]).Truth?
  }

  lemma WidthSoundIsSound(op: Operator, a: Word, b: Word, a': Word, b': Word, i: Ideal, j: Ideal)
    requires SameShape(a, a') && SameShape(b, b') && WidthSound(op, a, b) && Represents(a', i) && Represents(b', j)
    ensures Sound(op, a', b')
  {
    hide SameShape, SoundEquality, SoundOrder, WidthSoundEquality, WidthSoundOrder, Represents, HasBit;
    if op.PLUS? || op.MULTIPLY? || op.AND? || op.OR? {
      ShapeKinds(a, b, a', b');
    } else {
      if WidthSoundEquality(a, b) { EqualitySound(a, b, a', b', i, j); }
      if WidthSoundEquality(b, a) { EqualitySound(b, a, b', a', j, i); }
      if WidthSoundOrder(a, b) { OrderSound(a, b, a', b', i, j); }
      if WidthSoundOrder(b, a) { OrderSound(b, a, b', a', j, i); }
    }
  }

  lemma ShapeKinds(a: Word, b: Word, a': Word, b': Word)
    requires SameShape(a, a') && SameShape(b, b')
    ensures (Plain(a) <==> Plain(a')) && (Plain(b) <==> Plain(b'))
    ensures (a.NoWord? <==> a'.NoWord?) && (a.Truth? <==> a'.Truth?) && (a.IsConstant() ==> a == a')
    ensures (b.NoWord? <==> b'.NoWord?) && (b.Truth? <==> b'.Truth?) && (b.IsConstant() ==> b == b')
    ensures (a.IsConstant() <==> a'.IsConstant()) && (b.IsConstant() <==> b'.IsConstant())
  {
  }

  /** What a held constant is beside a signed vector. */
  lemma HeldConstant(a: Word, b: Word, i: Ideal, j: Ideal)
    requires HoldsConstant(a, b) && Represents(a, i) && Represents(b, j)
    ensures SignedPair(a, b) && SignedPair(b, a) && Widened(a, b) == a
    ensures var y := Widened(b, a); y.size >= a.size && y.v < Pow2(y.size) && ToSigned(y.size, y.v) == ConstantNumber(b)
  {
    hide LowPart, ConstantValue, Pow2;
    var y := Widened(b, a);
    Pow2Monotone(a.size - 1, y.size - 1);
    if SignedOperand(b) {
      SignedWidened(b, a, j);
    } else {
      PlainWidened(b, a, j);
    }
  }

  lemma EqualitySound(a: Word, b: Word, a': Word, b': Word, i: Ideal, j: Ideal)
    requires SameShape(a, a') && SameShape(b, b') && WidthSoundEquality(a, b) && Represents(a', i) && Represents(b', j)
    ensures SoundEquality(a', b') && SoundEquality(b', a')
  {
    EqualityCommutes(a', b');
    if HoldsNatural(a, b) {
      HeldEquality(a', b', i, j);
    } else if HoldsNatural(b, a) {
      HeldEquality(b', a', j, i);
    } else {
      hide LowPart, Pow2, ConstantValue;
    }
  }

  lemma HeldEquality(a: Word, b: Word, i: Ideal, j: Ideal)
    requires HoldsNatural(a, b) && Represents(a, i) && Represents(b, j)
    ensures SoundEquality(a, b) && SoundEquality(b, a)
  {
    HeldConstant(a, b, i, j);
    var y := Widened(b, a);
    Pow2Monotone(a.size, y.size);
    hide Widened, SignedPair;
    EqualityCommutes(a, b);
    assert SignedEqualityRight(a.size, a.v, y.size, y.v);
  }

  lemma OrderSound(a: Word, b: Word, a': Word, b': Word, i: Ideal, j: Ideal)
    requires SameShape(a, a') && SameShape(b, b') && WidthSoundOrder(a, b) && Represents(a', i) && Represents(b', j)
    ensures SoundOrder(a', b')
  {
    if HoldsConstant(a, b) {
      HeldOnRight(a', b', i, j);
    } else if HoldsNatural(b, a) {
      HeldOnLeft(a', b', i, j);
    } else {
      hide LowPart, Pow2, ConstantValue, ReadsSigned, SignedOrderRight;
      if SameSignedWidth(a, b) { SameWidthOrder(a', b'); }
    }
  }

  lemma HeldOnRight(a: Word, b: Word, i: Ideal, j: Ideal)
    requires HoldsConstant(a, b) && Represents(a, i) && Represents(b, j)
    ensures SoundOrder(a, b)
  {
    HeldConstant(a, b, i, j);
    hide Widened, LowPart, Pow2, ToSigned, SignedPair, Plain;
  }

  lemma HeldOnLeft(a: Word, b: Word, i: Ideal, j: Ideal)
    requires HoldsNatural(b, a) && Represents(a, i) && Represents(b, j)
    ensures SoundOrder(a, b)
  {
    HeldConstant(b, a, j, i);
    var x := Widened(a, b);
    Pow2Monotone(b.size - 1, x.size - 1);
    assert SignedOrderRight(x.size, x.v, b.size, b.v) by { hide Widened, LowPart, Pow2, SignedPair, Plain; }
    hide Widened, LowPart, Pow2, SignedPair, Plain, SignedOrderRight;
  }

  lemma SameWidthOrder(a: Word, b: Word)
    requires SameSignedWidth(a, b)
    ensures SoundOrder(a, b)
  {
    hide ConstantValue, Pow2, LowPart;
  }

  /** A tree that is safe by its widths is compiled to its mathematical meaning for all values. */
  lemma {:induction false} WidthSafeMeaning(e: Expr, val: Valuation)
    requires WidthSafe(e) && forall x | x in Exts(e) :: Lookup(val, x) < Pow2(VecSize(x))
    ensures Faithful(e, val)
    ensures Represents(Meaning(e, val), IdealValue(e, val))
  {
    hide Sound, WidthSound, WordOp, IdealOp, SameShape;
    match e
    case Binary(op, l, r) =>
      WidthSafeMeaning(l, val);
      WidthSafeMeaning(r, val);
      ShapeIsStatic(l, map[], val);
      ShapeIsStatic(r, map[], val);
      WidthSoundIsSound(op, Meaning(l, map[]), Meaning(r, map[]), Meaning(l, val), Meaning(r, val), IdealValue(l, val), IdealValue(r, val));
      FaithfulMeaning(e, val);
    case Negation(o) =>
      WidthSafeMeaning(o, val);
      ShapeIsStatic(o, map[], val);
      SameShapeTruth(Meaning(o, map[]), Meaning(o, val));
      FaithfulMeaning(e, val);
    case _ => FaithfulMeaning(e, val);
  }

  /** An upper bound on a byte, written as a 32-bit constant, is safe by its widths exactly when it is a byte. */
  lemma ByteBoundSafeIff(x: Ext, c: nat)
    requires x.kind == UnsignedInteger && x.width == 8 && c < Pow2(32)
    ensures WidthSafe(Binary(LESS_EQUAL, Extension(x), UnsignedConstant(c, 32))) <==> c < 256
    ensures WidthSafe(Binary(LESS, Extension(x), UnsignedConstant(c, 32))) <==> c < 256
  {
    hide Pow2, ConstantValue, LowPart;
    ByteAndInt();
    ZeroExtension(c, 32, 32);
    var a, b := Meaning(Extension(x), map[]), Meaning(UnsignedConstant(c, 32), map[]);
    assert Widened(b, a) == Vec(32, c, false);
  }

  /** A signed byte against a 32-bit constant: an upper bound is safe when it is a signed byte, a lower bound
      only when it is not negative either. */
  lemma SignedByteBoundSafeIff(x: Ext, c: int)
    requires x.kind == SignedInteger && x.width == 8 && SignedRange(c, 32)
    ensures WidthSafe(Binary(LESS_EQUAL, Extension(x), IntConstant(c, 32))) <==> 0 - 128 <= c < 128
    ensures WidthSafe(Binary(LESS_EQUAL, IntConstant(c, 32), Extension(x))) <==> 0 <= c < 128
  {
    UpperBoundSafe(x, c);
    LowerBoundSafe(x, c);
  }

  lemma UpperBoundSafe(x: Ext, c: int)
    requires x.kind == SignedInteger && x.width == 8 && SignedRange(c, 32)
    ensures WidthSafe(Binary(LESS_EQUAL, Extension(x), IntConstant(c, 32))) <==> 0 - 128 <= c < 128
  {
    ByteWords(x, c);
    hide Pow2, Widened, ConstantWord;
  }

  lemma LowerBoundSafe(x: Ext, c: int)
    requires x.kind == SignedInteger && x.width == 8 && SignedRange(c, 32)
    ensures WidthSafe(Binary(LESS_EQUAL, IntConstant(c, 32), Extension(x))) <==> 0 <= c < 128
  {
    ByteWords(x, c);
    hide Pow2, Widened, ConstantWord;
  }

  lemma ByteWords(x: Ext, c: int)
    requires x.kind == SignedInteger && x.width == 8
    ensures var a, b := Meaning(Extension(x), map[]), Meaning(IntConstant(c, 32), map[]);
            a == Vec(8, 0, true) && b == IntWord(c, 32) && Widened(a, b) == a && Widened(b, a).Vec? && Widened(b, a).size == 32
    ensures Pow2(7) == 128
  {
    hide ConstantValue;
    assert Pow2(7) == 128;
  }

  lemma SameShapeTruth(a: Word, b: Word)
    requires SameShape(a, b) && a.Truth?
    ensures b.Truth?
  {
  }

  // ---------------------------------------------------------------- inputs on which the compiler is wrong

  lemma ByteAndInt()
    ensures Pow2(8) == 256 && Pow2(32) == 0x1_0000_0000
  {
    assert Pow2(8) == 256;
    Pow2Add(8, 8);
    Pow2Add(16, 16);
  }

  /** `10 - x == 3` over a byte: true at 7, yet the compiled constraint has no solution, since the
      32-bit constant is wider than the variable it is reduced by. */
  lemma ConstantMinusByteHasNoSolution(x: Ext, val: Valuation)
    requires x == Ext(0, UnsignedInteger, 8) && Lookup(val, x) < Pow2(8)
    ensures var e := Binary(EQUAL, Binary(MINUS, UnsignedConstant(10, 32), Extension(x)), UnsignedConstant(3, 32));
            Meaning(e, val) == Truth(false) && IdealValue(e, map[x := 7]) == Holds(true)
  {
    hide Pow2, LowPart, ConstantValue, Negated;
    var v := Lookup(val, x);
    ByteAndInt();
    ZeroExtension(10, 32, 32);
    ZeroExtension(3, 32, 32);
    NegatedValue(8, v);
    LowPartSmall(10 + (if v == 0 then 0 else 256 - v), 32);
    var d := Binary(MINUS, UnsignedConstant(10, 32), Extension(x));
    assert Meaning(d, val) == Vec(32, 10 + (if v == 0 then 0 else 256 - v), false);
    assert IdealValue(d, map[x := 7]) == Number(3);
  }

  /** `x >= c` over a signed byte with a negative `c`: true at 0, yet the compiled constraint has no solution,
      since the bits of the widened constant between the widths of the two are not clear. */
  lemma NegativeLowerBoundHasNoSolution(x: Ext, c: int, val: Valuation)
    requires x == Ext(0, SignedInteger, 8) && 0 - 128 <= c < 0 && Lookup(val, x) < Pow2(8)
    ensures var e := Binary(GREATER_EQUAL, Extension(x), IntConstant(c, 32));
            Meaning(e, val) == Truth(false) && IdealValue(e, map[x := 0]) == Holds(true)
  {
    var v := Lookup(val, x);
    AtLeastNegative(c, v);
    ZeroAtLeast(x, c);
    hide WordOp, WordAtLeast;
    assert Meaning(Extension(x), val) == Vec(8, v, true) && Meaning(IntConstant(c, 32), val) == IntWord(c, 32);
  }

  lemma ZeroAtLeast(x: Ext, c: int)
    requires x == Ext(0, SignedInteger, 8) && c < 0
    ensures IdealValue(Binary(GREATER_EQUAL, Extension(x), IntConstant(c, 32)), map[x := 0]) == Holds(true)
  {
    hide Pow2;
    assert IdealValue(Extension(x), map[x := 0]) == Number(0);
    assert IdealValue(IntConstant(c, 32), map[x := 0]) == Number(c);
  }

  lemma AtLeastNegative(c: int, v: nat)
    requires 0 - 128 <= c < 0 && v < Pow2(8)
    ensures WordOp(GREATER_EQUAL, Vec(8, v, true), IntWord(c, 32)) == Truth(false)
  {
    WidenedNegative(c, v);
    hide Widened, SignedAtMost, Pow2;
    assert WordAtMost(IntWord(c, 32), Vec(8, v, true)) == Truth(false);
    assert WordEqual(Vec(8, v, true), IntWord(c, 32)) == Truth(false);
  }

  lemma WidenedNegative(c: int, v: nat)
    requires 0 - 128 <= c < 0 && v < Pow2(8)
    ensures var a, b := IntWord(c, 32), Vec(8, v, true);
            Widened(b, a) == b && exists u: nat :: Widened(a, b) == Vec(32, u, false) && u != v && !SignedAtMost(32, u, 8, v)
  {
    ByteAndInt();
    assert Pow2(31) == 0x8000_0000 by { assert Pow2(32) == 2 * Pow2(31); }
    assert Pow2(7) == 128;
    SignExtension(c, 32, 32);
    LowPartNegative(c, 32);
    var u := c + Pow2(32);
    TopBitIsSign(32, u);
    hide Pow2, LowPart, ConstantValue, BitOf;
    assert Widened(IntWord(c, 32), Vec(8, v, true)) == Vec(32, u, false);
    assert !SignedAtMost(32, u, 8, v);
  }

  /** `x <= 300` over a byte: true of every byte, yet compiled to `x <= 44`. */
  lemma ByteAtMostWiderConstant(x: Ext, val: Valuation)
    requires x == Ext(0, UnsignedInteger, 8) && Lookup(val, x) < Pow2(8)
    ensures var e := Binary(LESS_EQUAL, Extension(x), UnsignedConstant(300, 32));
            Meaning(e, val) == Truth(Lookup(val, x) <= 44) && IdealValue(e, val) == Holds(true)
  {
    hide Pow2, ConstantValue;
    ByteAndInt();
    ZeroExtension(300, 32, 32);
    DivModUnique(300, Pow2(8), 1, 44);
  }
}

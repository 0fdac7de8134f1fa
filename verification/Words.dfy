/** Powers of two, bits of numbers, and the few facts about them the circuits need. */
module Words {

  function Pow2(n: nat): (p: nat)
    ensures p >= 1
  {
    if n == 0 then 1 else 2 * Pow2(n - 1)
  }

  lemma {:induction false} Pow2Add(a: nat, b: nat)
    ensures Pow2(a + b) == Pow2(a) * Pow2(b)
  {
    if a == 0 {
      assert Pow2(a) * Pow2(b) == Pow2(b);
    } else {
      Pow2Add(a - 1, b);
      assert Pow2(a) * Pow2(b) == 2 * (Pow2(a - 1) * Pow2(b));
    }
  }

  lemma {:induction false} Pow2Monotone(a: nat, b: nat)
    requires a <= b
    ensures Pow2(a) <= Pow2(b)
    ensures a < b ==> 2 * Pow2(a) <= Pow2(b)
    decreases b
  {
    if a < b { Pow2Monotone(a, b - 1); }
  }

  /** The contribution of bit `k`. */
  function Weighted(bit: bool, k: nat): (w: nat) {
    if bit then Pow2(k) else 0
  }

  /** Bit `i` of an integer in two's complement (an arithmetic right shift, then the low bit). */
  predicate BitOf(v: int, i: nat) {
    v / Pow2(i) % 2 == 1
  }

  /** The low `k` bits of an integer. */
  function LowPart(v: int, k: nat): (n: nat)
    ensures n < Pow2(k)
  {
    v % Pow2(k)
  }

  lemma LowPartSmall(v: nat, k: nat)
    requires v < Pow2(k)
    ensures LowPart(v, k) == v
  {
    DivModUnique(v, Pow2(k), 0, v);
  }

  // ---------------------------------------------------------------- division facts

  lemma DivModUnique(v: int, d: int, q: int, r: int)
    requires d > 0 && v == q * d + r && 0 <= r < d
    ensures v / d == q && v % d == r
  {
    var q', r' := v / d, v % d;
    assert (q' - q) * d == r - r' by { assert v == q' * d + r'; }
    if q' > q {
      MulAtLeast(q' - q, d);
    } else if q' < q {
      assert (q - q') * d == r' - r;
      MulAtLeast(q - q', d);
    }
  }

  lemma MulAtLeast(a: int, d: int)
    requires a >= 1 && d >= 0
    ensures a * d >= d
  {
    assert a * d == (a - 1) * d + d;
    assert (a - 1) * d >= 0;
  }

  lemma Distribute(a: int, b: int, c: int)
    ensures a * (b + c) == a * b + a * c
  {
  }

  lemma MulBound(a: nat, b: nat, p: nat, q: nat)
    requires a < p && b < q
    ensures a * b < p * q
  {
    Distribute(a, b, q - b);
    Distribute(q, a, p - a);
    MulAtLeast(p - a, q);
    assert a * b <= a * q < p * q by { assert a * (q - b) >= 0; }
  }

  /** One more bit of the remainder. */
  lemma ModStep(v: int, k: nat)
    ensures LowPart(v, k + 1) == LowPart(v, k) + Weighted(BitOf(v, k), k)
  {
    var p := Pow2(k);
    var q := v / p;
    assert v == q * p + v % p;
    var h := q / 2;
    assert q == 2 * h + q % 2;
    var r := v % p + Weighted(BitOf(v, k), k);
    assert v == h * Pow2(k + 1) + r by {
      assert q * p == (2 * h) * p + (q % 2) * p by { assert q * p == (2 * h + q % 2) * p; }
      assert (2 * h) * p == h * (2 * p);
      assert (q % 2) * p == Weighted(BitOf(v, k), k) by { if q % 2 == 0 { assert (q % 2) * p == 0; } else { assert q % 2 == 1; } }
    }
    DivModUnique(v, Pow2(k + 1), h, r);
  }

  lemma Regroup(h: int, b: int, p: int)
    ensures (2 * h + b) * p == h * (2 * p) + b * p
  {
    Distribute(p, 2 * h, b);
  }

  /** A remainder split at its top bit. */
  lemma SplitRemainder(v: nat, k: nat, low: nat, bit: bool)
    requires low < Pow2(k) && LowPart(v, k + 1) == low + Weighted(bit, k)
    ensures LowPart(v, k) == low && BitOf(v, k) == bit
  {
    var p, b := Pow2(k), if bit then 1 else 0;
    var h := v / Pow2(k + 1);
    DivisionOf(v, Pow2(k + 1));
    assert v == h * (2 * p) + (low + b * p);
    Regroup(h, b, p);
    DivModUnique(v, p, 2 * h + b, low);
    ParityShift(b, h);
  }

  lemma DivisionOf(v: int, d: int)
    requires d > 0
    ensures v == v / d * d + v % d
  {
  }

  /** Adding a weight above a number leaves its low bits alone. */
  lemma LowBitKept(low: nat, bit: bool, k: nat, j: nat)
    requires low < Pow2(k) && j < k
    ensures BitOf(low + Weighted(bit, k), j) == BitOf(low, j)
  {
    hide BitOf;
    if bit {
      var h := Pow2(k - j - 1);
      Pow2Add(k - j - 1, j + 1);
      assert Weighted(bit, k) == h * Pow2(j + 1);
      BitShift(low, j, h);
    }
  }

  lemma BitShift(v: int, j: nat, h: int)
    ensures BitOf(v + h * Pow2(j + 1), j) == BitOf(v, j)
  {
    var p := Pow2(j);
    var q, r := v / p, v % p;
    Regroup(h, q, p);
    DivModUnique(v + h * (2 * p), p, 2 * h + q, r);
    ParityShift(q, h);
  }

  lemma ParityShift(q: int, h: int)
    ensures (2 * h + q) % 2 == q % 2
  {
  }

  lemma TopBitAdded(low: nat, bit: bool, k: nat)
    requires low < Pow2(k)
    ensures BitOf(low + Weighted(bit, k), k) == bit
  {
    if bit {
      DivModUnique(low + Pow2(k), Pow2(k), 1, low);
    } else {
      DivModUnique(low, Pow2(k), 0, low);
    }
  }

  /** Remainders of consecutive numbers. */
  lemma NextResidue(k: nat, n: nat)
    requires n > 0
    ensures (k + 1) % n == if k % n + 1 == n then 0 else k % n + 1
  {
    var q, r := k / n, k % n;
    assert k == q * n + r;
    if r + 1 == n {
      assert k + 1 == (q + 1) * n + 0;
      DivModUnique(k + 1, n, q + 1, 0);
    } else {
      DivModUnique(k + 1, n, q, r + 1);
    }
  }

  // ---------------------------------------------------------------- residues of consecutive numbers

  lemma ResidueDiffers(i: nat, j: nat, n: nat)
    requires n > 0 && i < j < i + n
    ensures i % n != j % n
  {
    DivisionOf(i, n);
    DivisionOf(j, n);
    if i % n == j % n {
      var p, q := i / n, j / n;
      ProductsApart(p, q, n);
    }
  }

  lemma ProductsApart(p: nat, q: nat, n: nat)
    requires n > 0
    ensures q * n - p * n >= n || q * n - p * n <= 0
  {
    if q > p { Distribute(n, p, q - p); MulAtLeast(q - p, n); } else { Distribute(n, q, p - q); }
  }

  /** Among `n` numbers on end each residue comes. */
  lemma ResidueReached(m: nat, n: nat, k: nat) returns (i: nat)
    requires k < n
    ensures m <= i < m + n && i % n == k
  {
    DivisionOf(m, n);
    var q, r := m / n, m % n;
    if k >= r {
      i := m + (k - r);
      DivModUnique(i, n, q, k);
    } else {
      i := m + (k + n - r);
      NextProduct(q, n);
      DivModUnique(i, n, q + 1, k);
    }
  }

  lemma NextProduct(q: nat, n: nat)
    ensures (q + 1) * n == q * n + n
  {
  }
}

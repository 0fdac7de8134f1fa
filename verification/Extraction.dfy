/** The bits `_setValue` takes from the random stream for undecided positions: one word, shifted right bit
    by bit until it is 0, then the next word. They are not fair, whatever the words are. */
module Extraction {
  import opened Words
  import opened Randomness
  import opened Sampling

  /** The random state after `k` bits. */
  function AfterBits(r: Rand, draw: nat -> nat, k: nat): Rand {
    if k == 0 then r else StepBit(AfterBits(r, draw, k - 1), draw)
  }

  lemma HalfOfQuotient(w: nat, k: nat)
    ensures w / Pow2(k) / 2 == w / Pow2(k + 1)
  {
    var p, q := Pow2(k), w / Pow2(k);
    DivisionOf(w, p);
    assert q == q / 2 * 2 + q % 2;
    Regroup(q / 2, q % 2, p);
    RemainderBelow(q % 2, p, w % p);
    DivModUnique(w, Pow2(k + 1), q / 2, q % 2 * p + w % p);
  }

  lemma RemainderBelow(b: nat, p: nat, r: nat)
    requires b < 2 && r < p
    ensures b * p + r < 2 * p
  {
  }

  lemma QuotientPositiveIff(w: nat, k: nat)
    ensures w / Pow2(k) > 0 <==> w >= Pow2(k)
  {
    if w < Pow2(k) { DivModUnique(w, Pow2(k), 0, w); }
    else if w / Pow2(k) == 0 { DivisionOf(w, Pow2(k)); }
  }

  /** While the word lasts, the k-th bit taken is bit `k` of the word: bit 0 is never used. */
  lemma {:induction false} ExtractedBit(w: nat, pos: nat, draw: nat -> nat, k: nat)
    requires w >= Pow2(k)
    ensures AfterBits(Rand(w, pos), draw, k) == Rand(w / Pow2(k), pos)
    ensures AfterBits(Rand(w, pos), draw, k).randomnext % 2 == 1 <==> BitOf(w, k)
  {
    if k == 0 {
      assert Pow2(0) == 1;
    } else {
      Pow2Monotone(k - 1, k);
      ExtractedBit(w, pos, draw, k - 1);
      HalfOfQuotient(w, k - 1);
      QuotientPositiveIff(w, k);
    }
  }

  /** The word is used up exactly when its highest bit has been taken, and that bit is 1. */
  lemma HighestBitIsOne(w: nat, pos: nat, draw: nat -> nat, k: nat)
    requires Pow2(k) <= w < Pow2(k + 1)
    ensures AfterBits(Rand(w, pos), draw, k) == Rand(1, pos)
    ensures AfterBits(Rand(w, pos), draw, k + 1) == Rand(draw(pos) % WORD, pos + 1)
  {
    ExtractedBit(w, pos, draw, k);
    DivModUnique(w, Pow2(k), 1, w - Pow2(k));
  }

  /** A field whose low `k` bits are undecided, filled from a word whose highest bit is bit `k`: its bit
      `k - 1` is 1. For `k` = 31 that is every second word. */
  lemma TopBitForced(v: seq<nat>, start: nat, numvar: nat, k: nat, w: nat, pos: nat, draw: nat -> nat)
    requires k > 0 && Pow2(k) <= w < Pow2(k + 1)
    requires forall j: nat | j < k :: Entry(v, numvar * j + start) == 2
    ensures Fill(v, start, numvar, k, Rand(w, pos), draw).value >= Pow2(k - 1)
  {
    FillStates(v, start, numvar, k - 1, Rand(w, pos), draw);
    HighestBitIsOne(w, pos, draw, k);
    FillStep(v, start, numvar, k, Rand(w, pos), draw);
  }

  lemma {:induction false} FillStates(v: seq<nat>, start: nat, numvar: nat, k: nat, r: Rand, draw: nat -> nat)
    requires forall j: nat | j < k :: Entry(v, numvar * j + start) == 2
    ensures Fill(v, start, numvar, k, r, draw).last == AfterBits(r, draw, k)
  {
    if k > 0 { FillStates(v, start, numvar, k - 1, r, draw); }
  }

  /** The undecided bits among the first `k` of a field. */
  function UndecidedBelow(v: seq<nat>, start: nat, numvar: nat, k: nat): nat {
    if k == 0 then 0 else UndecidedBelow(v, start, numvar, k - 1) + if Entry(v, numvar * (k - 1) + start) == 2 then 1 else 0
  }

  /** `_setValue` takes its undecided bits from the stream in order, one after another. */
  lemma {:induction false} FillTakesBits(v: seq<nat>, start: nat, numvar: nat, k: nat, r: Rand, draw: nat -> nat, j: nat)
    requires j < k && Entry(v, numvar * j + start) == 2
    ensures BitOf(Fill(v, start, numvar, k, r, draw).value, j)
       <==> AfterBits(r, draw, UndecidedBelow(v, start, numvar, j) + 1).randomnext % 2 == 1
  {
    var m: nat := k - 1;
    FillBits(v, start, numvar, m, r, draw);
    var top := TopBit(v, start, numvar, m, r, draw);
    var low, value := Fill(v, start, numvar, m, r, draw).value, Fill(v, start, numvar, m + 1, r, draw).value;
    hide *;
    BitAfter(low, value, top, m, j);
    if j < m { FillTakesBits(v, start, numvar, m, r, draw, j); }
  }

  lemma BitAfter(low: nat, value: nat, top: bool, m: nat, j: nat)
    requires low < Pow2(m) && value == low + Weighted(top, m) && j <= m
    ensures BitOf(value, j) <==> if j < m then BitOf(low, j) else top
  {
    hide *;
    if j < m { LowBitKept(low, top, m, j); } else { TopBitAdded(low, top, m); }
  }

  /** The bit filled in last. */
  lemma TopBit(v: seq<nat>, start: nat, numvar: nat, m: nat, r: Rand, draw: nat -> nat) returns (top: bool)
    ensures Fill(v, start, numvar, m + 1, r, draw).value == Fill(v, start, numvar, m, r, draw).value + Weighted(top, m)
    ensures Entry(v, numvar * m + start) == 2 ==>
              (top <==> AfterBits(r, draw, UndecidedBelow(v, start, numvar, m) + 1).randomnext % 2 == 1)
  {
    FillLeaves(v, start, numvar, m, r, draw);
    FillStep(v, start, numvar, m + 1, r, draw);
    hide Fill, Pow2, StepBit;
    var entry, last := Entry(v, numvar * m + start), Fill(v, start, numvar, m, r, draw).last;
    top := if entry == 2 then StepBit(last, draw).randomnext % 2 == 1 else entry == 1;
  }

  lemma {:induction false} FillLeaves(v: seq<nat>, start: nat, numvar: nat, k: nat, r: Rand, draw: nat -> nat)
    ensures Fill(v, start, numvar, k, r, draw).last == AfterBits(r, draw, UndecidedBelow(v, start, numvar, k))
  {
    if k > 0 {
      FillLeaves(v, start, numvar, k - 1, r, draw);
      FillStep(v, start, numvar, k, r, draw);
    }
  }

  // ---------------------------------------------------------------- counting words

  /** The numbers below `n` that have bit `k` set. */
  function OnesBelow(k: nat, n: nat): nat {
    if n == 0 then 0 else OnesBelow(k, n - 1) + if BitOf(n - 1, k) then 1 else 0
  }

  lemma NextOnes(k: nat, base: nat, n: nat)
    requires n > 0 && OnesBelow(k, base + (n - 1)) == OnesBelow(k, base) + OnesBelow(k, n - 1) && BitOf(n - 1 + base, k) == BitOf(n - 1, k)
    ensures OnesBelow(k, base + n) == OnesBelow(k, base) + OnesBelow(k, n)
  {
    hide BitOf;
    assert base + n - 1 == n - 1 + base == base + (n - 1);
  }

  /** Bit `k` repeats with period `2^(k+1)`. */
  lemma {:induction false} OnesPeriodic(k: nat, q: nat, n: nat)
    ensures OnesBelow(k, q * Pow2(k + 1) + n) == OnesBelow(k, q * Pow2(k + 1)) + OnesBelow(k, n)
  {
    if n > 0 {
      var base := q * Pow2(k + 1);
      OnesPeriodic(k, q, n - 1);
      BitShift(n - 1, k, q);
      hide *;
      NextOnes(k, base, n);
    }
  }

  lemma {:induction false} OnesInPeriod(k: nat, n: nat)
    requires n <= Pow2(k + 1)
    ensures OnesBelow(k, n) == if n <= Pow2(k) then 0 else n - Pow2(k)
  {
    if n > 0 {
      OnesInPeriod(k, n - 1);
      if n - 1 < Pow2(k) {
        DivModUnique(n - 1, Pow2(k), 0, n - 1);
      } else {
        DivModUnique(n - 1, Pow2(k), 1, n - 1 - Pow2(k));
      }
    }
  }

  lemma {:induction false} OnesInPeriods(k: nat, q: nat)
    ensures OnesBelow(k, q * Pow2(k + 1)) == q * Pow2(k)
  {
    if q > 0 {
      OnesInPeriods(k, q - 1);
      OnesPeriodic(k, q - 1, Pow2(k + 1));
      OnesInPeriod(k, Pow2(k + 1));
      NextMultiple(q, Pow2(k + 1));
      NextMultiple(q, Pow2(k));
    }
  }

  lemma NextMultiple(q: nat, p: nat)
    requires q > 0
    ensures q * p == (q - 1) * p + p
  {
  }

  /** Half of all words have bit `k` set. */
  lemma HalfHaveBit(k: nat)
    requires k <= 31
    ensures OnesBelow(k, WORD) == 0x8000_0000
  {
    WordPowers();
    Pow2Add(31 - k, k + 1);
    Pow2Add(31 - k, k);
    OnesInPeriods(k, Pow2(31 - k));
  }

  lemma WordPowers()
    ensures Pow2(31) == 0x8000_0000 && Pow2(32) == WORD
  {
    assert Pow2(8) == 256;
    Pow2Add(8, 8);
    Pow2Add(16, 8);
    assert Pow2(7) == 128;
    Pow2Add(24, 7);
  }

  /** Of the words that last for `k` bits, 2^31 give a k-th bit 1 and 2^31 - 2^k a k-th bit 0. */
  lemma LastingWords(k: nat)
    requires 1 <= k <= 31
    ensures OnesBelow(k, WORD) - OnesBelow(k, Pow2(k)) == 0x8000_0000
    ensures (WORD - Pow2(k)) - (OnesBelow(k, WORD) - OnesBelow(k, Pow2(k))) == 0x8000_0000 - Pow2(k)
  {
    HalfHaveBit(k);
    OnesInPeriod(k, Pow2(k));
  }

  // ---------------------------------------------------------------- chances

  /** The random word after one more bit, `w` being the word drawn if one is needed. */
  function NextWord(r: nat, w: nat): nat {
    StepBit(Rand(r, 0), (i: nat) => w).randomnext
  }

  /** The chance that from word `r` on the next bits are `p`, all words to come being fair and independent. */
  ghost function Given(r: nat, p: seq<bool>): real
    decreases |p|, 2, 0
  {
    if p == [] then 1.0 else GivenSum(r, p, WORD) / WORD as real
  }

  /** The same, summed over the first `n` words that may be drawn next. */
  ghost function GivenSum(r: nat, p: seq<bool>, n: nat): real
    requires p != []
    decreases |p|, 1, n
  {
    if n == 0 then 0.0 else GivenSum(r, p, n - 1) + GivenWord(r, n - 1, p)
  }

  ghost function GivenWord(r: nat, w: nat, p: seq<bool>): real
    requires p != []
    decreases |p|, 0, 0
  {
    if (NextWord(r, w) % 2 == 1) == p[0] then Given(NextWord(r, w), p[1..]) else 0.0
  }

  /** The chance that a field gets the bits `p` at its undecided positions: `_setValue` starts with a new word. */
  ghost function Fresh(p: seq<bool>): real {
    FreshSum(p, WORD) / WORD as real
  }

  ghost function FreshSum(p: seq<bool>, n: nat): real {
    if n == 0 then 0.0 else FreshSum(p, n - 1) + Given(n - 1, p)
  }

  /** One bit more: the chances of its two values add up. */
  lemma {:induction false} GivenSplit(r: nat, p: seq<bool>)
    ensures Given(r, p + [true]) + Given(r, p + [false]) == Given(r, p)
    decreases |p|, 2, 0
  {
    hide GivenSum;
    GivenSumSplit(r, p, WORD);
    var x, y, z := GivenSum(r, p + [true], WORD), GivenSum(r, p + [false], WORD), WORD as real;
    SumOfQuotients(x, y, z);
  }

  lemma SumOfQuotients(x: real, y: real, z: real)
    requires z != 0.0
    ensures x / z + y / z == (x + y) / z
  {
  }

  lemma {:induction false} GivenSumSplit(r: nat, p: seq<bool>, n: nat)
    ensures GivenSum(r, p + [true], n) + GivenSum(r, p + [false], n) == if p == [] then n as real else GivenSum(r, p, n)
    decreases |p|, 1, n
  {
    hide GivenWord;
    if n > 0 {
      GivenSumSplit(r, p, n - 1);
      GivenWordSplit(r, n - 1, p);
    }
  }

  lemma {:induction false} GivenWordSplit(r: nat, w: nat, p: seq<bool>)
    ensures GivenWord(r, w, p + [true]) + GivenWord(r, w, p + [false]) == if p == [] then 1.0 else GivenWord(r, w, p)
    decreases |p|, 0, 0
  {
    hide NextWord;
    var next := NextWord(r, w);
    if p == [] {
      assert (p + [true])[1..] == [] && (p + [false])[1..] == [];
      assert Given(next, []) == 1.0;
    } else {
      assert (p + [true])[1..] == p[1..] + [true] && (p + [false])[1..] == p[1..] + [false];
      assert (p + [true])[0] == p[0] && (p + [false])[0] == p[0];
      GivenSplit(next, p[1..]);
    }
  }

  lemma {:induction false} FreshSplit(p: seq<bool>)
    ensures Fresh(p + [true]) + Fresh(p + [false]) == Fresh(p)
  {
    hide FreshSum;
    FreshSumSplit(p, WORD);
    SumOfQuotients(FreshSum(p + [true], WORD), FreshSum(p + [false], WORD), WORD as real);
  }

  lemma {:induction false} FreshSumSplit(p: seq<bool>, n: nat)
    ensures FreshSum(p + [true], n) + FreshSum(p + [false], n) == FreshSum(p, n)
  {
    hide Given;
    if n > 0 {
      FreshSumSplit(p, n - 1);
      GivenSplit(n - 1, p);
    }
  }

  lemma {:induction false} FreshNothing(n: nat)
    ensures FreshSum([], n) == n as real
    ensures Fresh([]) == 1.0
  {
    FreshNothingSum(n);
    FreshNothingSum(WORD);
  }

  lemma {:induction false} FreshNothingSum(n: nat)
    ensures FreshSum([], n) == n as real
  {
    if n > 0 { FreshNothingSum(n - 1); }
  }

  lemma NextWordIs(r: nat, w: nat)
    requires w < WORD
    ensures NextWord(r, w) == if r < 2 then w else r / 2
  {
    DivModUnique(w, WORD, 0, w);
  }

  /** After a word above 1 the next bit is decided by it, after 0 or 1 by the next word. */
  lemma {:induction false} GivenOneSum(r: nat, n: nat)
    requires n <= WORD
    ensures GivenSum(r, [true], n) == if r < 2 then OnesBelow(0, n) as real else if r / 2 % 2 == 1 then n as real else 0.0
  {
    if n > 0 {
      GivenOneSum(r, n - 1);
      NextWordIs(r, n - 1);
      LowestBit(n - 1);
      assert [true][1..] == [];
      assert Given(NextWord(r, n - 1), []) == 1.0;
      hide NextWord, Given;
    }
  }

  lemma LowestBit(n: nat)
    ensures BitOf(n, 0) <==> n % 2 == 1
    ensures BitOf(n, 1) <==> n / 2 % 2 == 1
  {
    assert Pow2(0) == 1 && Pow2(1) == 2;
  }

  lemma GivenOne(r: nat)
    ensures Given(r, [true]) == if r < 2 then 0.5 else if r / 2 % 2 == 1 then 1.0 else 0.0
  {
    hide GivenSum;
    GivenOneSum(r, WORD);
    HalfHaveBit(0);
    assert (0x8000_0000 as real) / (WORD as real) == 0.5;
  }

  lemma {:induction false} FreshOneSum(n: nat)
    requires n >= 2
    ensures FreshSum([true], n) == 1.0 + OnesBelow(1, n) as real
  {
    hide Given;
    GivenOne(n - 1);
    if n == 2 {
      GivenOne(0);
      LowestBit(0);
      LowestBit(1);
      assert FreshSum([true], 1) == FreshSum([true], 0) + Given(0, [true]);
      assert OnesBelow(1, 1) == 0;
    } else {
      FreshOneSum(n - 1);
      LowestBit(n - 1);
    }
  }

  /** The first undecided bit of a field is 1 for 2^31 + 1 out of 2^32: not for half. */
  lemma FirstBitChance()
    ensures Fresh([true]) == (0x8000_0000 + 1) as real / WORD as real
    ensures Fresh([true]) != Fresh([false])
  {
    hide FreshSum;
    FreshOneSum(WORD);
    HalfHaveBit(1);
    assert [] + [true] == [true] && [] + [false] == [false];
    FreshSplit([]);
    FreshNothing(0);
  }

  ghost predicate AllEqual(u: nat) {
    forall p: seq<bool>, q: seq<bool> | |p| == u && |q| == u :: Fresh(p) == Fresh(q)
  }

  /** The values of a field are equally likely exactly when none of its bits is undecided. */
  lemma {:induction false} FieldFairIff(u: nat)
    ensures AllEqual(u) <==> u == 0
  {
    hide Fresh;
    if u == 0 {
    } else if u == 1 {
      FirstBitChance();
      assert |[true]| == 1 && |[false]| == 1;
    } else {
      FieldFairIff(u - 1);
      var p: seq<bool>, q: seq<bool> :| |p| == u - 1 && |q| == u - 1 && Fresh(p) != Fresh(q);
      if AllEqual(u) {
        ExtendedEqual(p, q);
        assert false;
      }
    }
  }

  lemma ExtendedEqual(p: seq<bool>, q: seq<bool>)
    requires |p| == |q| && AllEqual(|p| + 1)
    ensures Fresh(p) == Fresh(q)
  {
    hide Fresh;
    FreshSplit(p);
    FreshSplit(q);
    assert |p + [true]| == |p| + 1 == |q + [true]| && |p + [false]| == |p| + 1 == |q + [false]|;
  }

  /** Two patterns that are not equally likely. */
  lemma UnfairPatterns(u: nat) returns (p: seq<bool>, q: seq<bool>)
    requires u > 0
    ensures |p| == u && |q| == u && Fresh(p) != Fresh(q)
  {
    FieldFairIff(u);
    p, q :| |p| == u && |q| == u && Fresh(p) != Fresh(q);
  }
}

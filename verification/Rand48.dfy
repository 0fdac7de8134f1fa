/** The default generator of `scv_random`: a 48-bit congruential state held in three 16-bit words. */
module Rand48 {
  import opened Words
  import opened Randomness
  import opened Congruential

  const MULTIPLIER: nat := 0x5DEECE66D
  const INCREMENT: nat := 0xB
  const HALF: nat := 0x1_0000

  lemma PowersOfTwo()
    ensures Pow2(16) == HALF && Pow2(32) == WORD && Pow2(48) == HALF * WORD
  {
    assert Pow2(8) == 256;
    Pow2Add(8, 8);
    Pow2Add(16, 16);
    Pow2Add(16, 32);
  }

  /** The number three words stand for, the first word being the lowest. */
  function Joined(words: seq<nat>): nat
    requires |words| == 3
  {
    words[0] + HALF * words[1] + WORD * words[2]
  }

  predicate Words16(words: seq<nat>) {
    |words| == 3 && forall i | 0 <= i < 3 :: words[i] < HALF
  }

  /** The low 48 bits of a number, cut into words as the source cuts them. */
  function Cut(v: nat): (words: seq<nat>)
    ensures Words16(words)
  {
    [v % HALF, v / HALF % HALF, v / WORD % HALF]
  }

  lemma DivDiv(v: nat)
    ensures v / WORD == v / HALF / HALF
  {
    var q, r := v / HALF, v % HALF;
    var q', r' := q / HALF, q % HALF;
    assert v == q' * WORD + (r' * HALF + r);
    DivModUnique(v, WORD, q', r' * HALF + r);
  }

  lemma JoinedCut(v: nat)
    ensures Joined(Cut(v)) == v % Pow2(48)
  {
    PowersOfTwo();
    DivDiv(v);
    var a, b := v / HALF, v / HALF / HALF;
    var h := b / HALF;
    assert v == a * HALF + v % HALF && a == b * HALF + a % HALF && b == h * HALF + b % HALF;
    assert v == h * (HALF * WORD) + Joined(Cut(v));
    DivModUnique(v, HALF * WORD, h, Joined(Cut(v)));
  }

  lemma CutJoined(words: seq<nat>)
    requires Words16(words)
    ensures Joined(words) < Pow2(48) && Cut(Joined(words)) == words
  {
    PowersOfTwo();
    var v := Joined(words);
    var upper := words[1] + HALF * words[2];
    DivModUnique(v, HALF, upper, words[0]);
    DivModUnique(upper, HALF, words[2], words[1]);
    DivDiv(v);
    LowPartSmall(words[2], 16);
  }

  /** The state after one step. */
  function Next48(x: nat): nat {
    Step(x, MULTIPLIER, INCREMENT, 48)
  }

  /** The recurrence in numbers: those of the POSIX `drand48` family. */
  lemma Recurrence(x: nat)
    ensures Next48(x) == (0x5DEECE66D * x + 0xB) % 0x1_0000_0000_0000
    ensures Output(Next48(x)) == Next48(x) / 0x1_0000
  {
    PowersOfTwo();
    var y := Next48(x);
    DivisionOf(y, HALF);
    QuotientBound(y, HALF, WORD);
    DivModUnique(y / HALF, WORD, 0, y / HALF);
  }

  lemma QuotientBound(v: nat, d: nat, n: nat)
    requires d > 0 && v < d * n
    ensures v / d < n
  {
    DivisionOf(v, d);
    Distribute(d, n, v / d - n);
    SignKept(d, v / d - n);
  }

  lemma SignKept(d: nat, k: int)
    ensures k >= 0 ==> d * k >= 0
  {
  }

  /** The number drawn when the state becomes `x`: its upper 32 of 48 bits. */
  function Output(x: nat): nat {
    x / HALF % WORD
  }

  /** The state after `n` draws. */
  function State48(x: nat, n: nat): nat {
    Iterated(x, MULTIPLIER, INCREMENT, 48, n)
  }

  lemma OutputOfWords(words: seq<nat>)
    requires Words16(words)
    ensures Output(Joined(words)) == HALF * words[2] + words[1] < WORD
  {
    var upper := words[1] + HALF * words[2];
    DivModUnique(Joined(words), HALF, upper, words[0]);
    DivModUnique(upper, WORD, 0, upper);
  }

  /** Machine arithmetic in 64 bits keeps the low 48 bits right. */
  lemma WideEnough(v: nat)
    ensures (v % (WORD * WORD)) % Pow2(48) == v % Pow2(48)
  {
    PowersOfTwo();
    var q := v / (WORD * WORD);
    assert v == v % (WORD * WORD) + (q * HALF) * (HALF * WORD);
    ModSum(v % (WORD * WORD), q * HALF, HALF * WORD);
  }

  lemma CutStep(x: nat)
    ensures Joined(Cut((x * MULTIPLIER + INCREMENT) % (WORD * WORD))) == Next48(x)
  {
    hide Pow2, Cut, Joined;
    WideEnough(x * MULTIPLIER + INCREMENT);
    JoinedCut((x * MULTIPLIER + INCREMENT) % (WORD * WORD));
  }

  /** The parameters all generators share, filled in on first use. */
  class Drand48Data {
    var c: nat
    var init: bool
    var a: nat

    predicate Valid()
      reads this
    {
      init ==> a == MULTIPLIER && c == INCREMENT
    }

    constructor ()
      ensures Valid() && !init
    {
      c, init, a := 0, false, 0;
    }
  }

  class Generator {
    const buffer: Drand48Data
    const next48: array<nat>

    predicate Valid()
      reads this, buffer, next48
    {
      buffer.Valid() && next48.Length == 3 && Words16(next48[..])
    }

    function State(): nat
      requires Valid()
      reads this, buffer, next48
    {
      Joined(next48[..])
    }

    /** A new generator: the seed's lower half on top, its upper half below, and a fixed low part; bits of
        the seed from 32 on are not used. */
    constructor (seed: nat, buffer: Drand48Data)
      requires buffer.Valid()
      ensures Valid() && this.buffer == buffer && fresh(next48)
      ensures next48[..] == [seed / HALF % HALF, seed % HALF, 0x330E]
    {
      this.buffer := buffer;
      next48 := new nat[3];
      new;
      next48[0] := seed / HALF % HALF;
      next48[1] := seed % HALF;
      next48[2] := 0x330E;
    }

    /** `_scv_linux_drand48_iterate`: the three words step exactly as the 48-bit number does. */
    method Iterate()
      requires Valid()
      modifies next48, buffer
      ensures Valid() && State() == Next48(old(State())) == (0x5DEECE66D * old(State()) + 0xB) % 0x1_0000_0000_0000
    {
      Recurrence(State());
      if !buffer.init {
        buffer.a := MULTIPLIER;
        buffer.c := INCREMENT;
        buffer.init := true;
      }
      hide Next48;
      var X := WORD * next48[2] + HALF * next48[1] + next48[0];
      assert X == old(State());
      var result := (X * buffer.a + buffer.c) % (WORD * WORD);
      CutStep(X);
      next48[0] := result % HALF;
      next48[1] := result / HALF % HALF;
      next48[2] := result / WORD % HALF;
      assert next48[..] == Cut(result);
    }

    /** `next` with the default algorithm. */
    method Next() returns (r: nat)
      requires Valid()
      modifies next48, buffer
      ensures Valid() && State() == Next48(old(State())) == (0x5DEECE66D * old(State()) + 0xB) % 0x1_0000_0000_0000
      ensures r == Output(State()) == State() / 0x1_0000 < WORD
    {
      Recurrence(State());
      hide Next48;
      Iterate();
      OutputOfWords(next48[..]);
      r := HALF * next48[2] + next48[1];
    }

    /** `get_current_seed`. */
    method GetCurrentSeed() returns (seed: nat)
      requires Valid()
      ensures seed == State() < Pow2(48)
    {
      CutJoined(next48[..]);
      seed := WORD * next48[2];
      seed := seed + HALF * next48[1];
      seed := seed + next48[0];
    }

    /** `set_current_seed`: saving and setting back restores the state; of a larger number the low 48 bits count. */
    method SetCurrentSeed(seed: nat)
      requires Valid()
      modifies next48
      ensures Valid() && State() == seed % Pow2(48)
      ensures forall words | Words16(words) && Joined(words) == seed :: next48[..] == words
    {
      next48[0] := seed % HALF;
      next48[1] := seed / HALF % HALF;
      next48[2] := seed / WORD % HALF;
      assert next48[..] == Cut(seed);
      JoinedCut(seed);
      forall words | Words16(words) && Joined(words) == seed ensures next48[..] == words { CutJoined(words); }
    }
  }

  // ---------------------------------------------------------------- the whole stream

  /** Two seeds start the same stream exactly when their low 32 bits agree. */
  lemma SameStartIff(seed: nat, seed': nat)
    ensures [seed / HALF % HALF, seed % HALF, 0x330E] == [seed' / HALF % HALF, seed' % HALF, 0x330E]
       <==> seed % WORD == seed' % WORD
  {
    LowWord(seed);
    LowWord(seed');
    var a, b, a', b' := seed / HALF % HALF, seed % HALF, seed' / HALF % HALF, seed' % HALF;
    if seed % WORD == seed' % WORD {
      DivModUnique(a * HALF + b, HALF, a, b);
      DivModUnique(a' * HALF + b', HALF, a', b');
    }
    assert a == [a, b, 0x330E][0] && b == [a, b, 0x330E][1];
    assert a' == [a', b', 0x330E][0] && b' == [a', b', 0x330E][1];
  }

  lemma LowWord(v: nat)
    ensures v % WORD == v / HALF % HALF * HALF + v % HALF
  {
    var q := v / HALF;
    assert v == q * HALF + v % HALF && q == q / HALF * HALF + q % HALF;
    DivModUnique(v, WORD, q / HALF, q % HALF * HALF + v % HALF);
  }

  /** From any state the generator is back there after `n` draws exactly when `2^48` divides `n`. */
  lemma PeriodOfState(x: nat, n: nat)
    requires x < Pow2(48)
    ensures State48(x, n) == x <==> n % Pow2(48) == 0
  {
    hide Iterated, Pow2;
    FullPeriod(x, MULTIPLIER, INCREMENT, 48, n);
  }

  /** And `2^48` draws in a row pass through pairwise different states. */
  lemma StatesDiffer(x: nat, i: nat, j: nat)
    requires x < Pow2(48) && i < j < i + Pow2(48)
    ensures State48(x, i) != State48(x, j)
  {
    hide Iterated, Pow2;
    NoEarlyRepeat(x, MULTIPLIER, INCREMENT, 48, i, j);
  }

  /** The draws of a generator started in state `x`, in the form the other modules take them. */
  function Stream(x: nat): nat -> nat {
    n => Output(State48(x, n + 1))
  }

  /** Restoring a saved state replays the stream from there. */
  lemma StreamAfter(x: nat, m: nat, n: nat)
    ensures Stream(State48(x, m))(n) == Stream(x)(m + n) == Stream(x)(m + n) % WORD
  {
    hide Iterated, Output;
    IteratedAdds(x, MULTIPLIER, INCREMENT, 48, m, n + 1);
    OutputIsWord(State48(x, m + n + 1));
  }

  lemma OutputIsWord(x: nat)
    ensures Output(x) == Output(x) % WORD
  {
    DivModUnique(Output(x), WORD, 0, Output(x));
  }
}

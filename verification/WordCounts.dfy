/** Sequences of 32-bit words, and the part of them that has a property. */
module WordCounts {
  import opened Randomness

  ghost predicate OfWords(ws: seq<nat>, n: nat) {
    |ws| == n && forall i | 0 <= i < n :: ws[i] < WORD
  }

  ghost function After(w: nat, p: seq<nat> -> bool): seq<nat> -> bool {
    (ws: seq<nat>) => p([w] + ws)
  }

  /** The part of the sequences of `n` words that satisfies `p`: the average over the first word. */
  ghost function Part(n: nat, p: seq<nat> -> bool): real
    decreases n, 1, 0
  {
    if n == 0 then (if p([]) then 1.0 else 0.0) else PartSum(n, p, WORD) / WORD as real
  }

  /** The same, summed over the first `k` words that may come first. */
  ghost function PartSum(n: nat, p: seq<nat> -> bool, k: nat): real
    requires n > 0
    decreases n, 0, k
  {
    if k == 0 then 0.0 else PartSum(n, p, k - 1) + Part(n - 1, After(k - 1, p))
  }

  // ---------------------------------------------------------------- what the part means

  /** All sequences of `n` words. */
  ghost function Sequences(n: nat): set<seq<nat>>
    decreases n, 1, 0
  {
    if n == 0 then {[]} else StartingBelow(n, WORD)
  }

  /** Those whose first word is below `k`. */
  ghost function StartingBelow(n: nat, k: nat): set<seq<nat>>
    requires n > 0
    decreases n, 0, k
  {
    if k == 0 then {} else StartingBelow(n, k - 1) + Led(k - 1, Sequences(n - 1))
  }

  ghost function Led(w: nat, rest: set<seq<nat>>): set<seq<nat>> {
    set ws | ws in rest :: [w] + ws
  }

  lemma {:induction false} SequencesAre(n: nat, ws: seq<nat>)
    ensures ws in Sequences(n) <==> OfWords(ws, n)
    decreases n, 1, 0
  {
    if n > 0 {
      StartingBelowAre(n, WORD, ws);
    }
  }

  lemma {:induction false} StartingBelowAre(n: nat, k: nat, ws: seq<nat>)
    requires n > 0 && k <= WORD
    ensures ws in StartingBelow(n, k) <==> OfWords(ws, n) && ws[0] < k
    decreases n, 0, k
  {
    if k > 0 {
      StartingBelowAre(n, k - 1, ws);
      LedAre(n, k - 1, ws);
    }
  }

  lemma {:induction false} LedAre(n: nat, w: nat, ws: seq<nat>)
    requires n > 0 && w < WORD
    ensures ws in Led(w, Sequences(n - 1)) <==> OfWords(ws, n) && ws[0] == w
    decreases n, 0, 0
  {
    if ws in Led(w, Sequences(n - 1)) {
      var rest :| rest in Sequences(n - 1) && ws == [w] + rest;
      SequencesAre(n - 1, rest);
    }
    if OfWords(ws, n) && ws[0] == w {
      SequencesAre(n - 1, ws[1..]);
      assert ws == [w] + ws[1..];
    }
  }

  ghost function Having(all: set<seq<nat>>, p: seq<nat> -> bool): set<seq<nat>> {
    set ws | ws in all && p(ws)
  }

  /** The number of sequences of `n` words. */
  function Total(n: nat): (t: nat)
    ensures t > 0
  {
    if n == 0 then 1 else WORD * Total(n - 1)
  }

  ghost function Scaled(x: real, t: nat): real { x * t as real }

  /** The part of the sequences that has a property is their number over the number of all. */
  lemma {:induction false} PartIsShare(n: nat, p: seq<nat> -> bool)
    ensures |Having(Sequences(n), p)| as real == Scaled(Part(n, p), Total(n))
    decreases n, 1, 0
  {
    if n == 0 {
      NoWordsLeft(p);
    } else {
      hide *;
      SumIsShare(n, p, WORD);
      FirstWordAverage(n, p);
      Averaged(PartSum(n, p, WORD), Total(n - 1));
    }
  }

  lemma NoWordsLeft(p: seq<nat> -> bool)
    ensures |Having(Sequences(0), p)| as real == Scaled(Part(0, p), Total(0))
  {
    assert Having(Sequences(0), p) == if p([]) then {[]} else {};
  }

  lemma FirstWordAverage(n: nat, p: seq<nat> -> bool)
    requires n > 0
    ensures Sequences(n) == StartingBelow(n, WORD)
    ensures Part(n, p) == PartSum(n, p, WORD) / WORD as real && Total(n) == WORD * Total(n - 1)
  {
    hide PartSum, StartingBelow;
  }

  lemma Averaged(x: real, t: nat)
    ensures Scaled(x / WORD as real, WORD * t) == Scaled(x, t)
  {
    Reordered(x, WORD as real, t as real);
  }

  lemma Reordered(x: real, w: real, t: real)
    requires w > 0.0
    ensures (x / w) * (w * t) == x * t
  {
    var y := x / w;
    assert y * w == x;
    Associated(y, w, t);
  }

  lemma Associated(x: real, y: real, z: real)
    ensures x * (y * z) == (x * y) * z
  {
  }

  lemma {:induction false} SumIsShare(n: nat, p: seq<nat> -> bool, k: nat)
    requires n > 0 && k <= WORD
    ensures |Having(StartingBelow(n, k), p)| as real == Scaled(PartSum(n, p, k), Total(n - 1))
    decreases n, 0, k
  {
    if k == 0 {
      NoneBelow(n, p);
    } else {
      hide *;
      SumIsShare(n, p, k - 1);
      PartIsShare(n - 1, After(k - 1, p));
      HavingSplits(n, p, k);
      OneWordMore(n, p, k);
      SumsShare(PartSum(n, p, k - 1), Part(n - 1, After(k - 1, p)), Total(n - 1),
                |Having(StartingBelow(n, k - 1), p)|, |Having(Sequences(n - 1), After(k - 1, p))|);
    }
  }

  lemma NoneBelow(n: nat, p: seq<nat> -> bool)
    requires n > 0
    ensures |Having(StartingBelow(n, 0), p)| as real == Scaled(PartSum(n, p, 0), Total(n - 1))
  {
    assert Having(StartingBelow(n, 0), p) == {};
  }

  lemma OneWordMore(n: nat, p: seq<nat> -> bool, k: nat)
    requires n > 0 && k > 0
    ensures PartSum(n, p, k) == PartSum(n, p, k - 1) + Part(n - 1, After(k - 1, p))
  {
  }

  lemma SumsShare(x: real, y: real, t: nat, a: nat, b: nat)
    requires a as real == Scaled(x, t) && b as real == Scaled(y, t)
    ensures (a + b) as real == Scaled(x + y, t)
  {
  }

  lemma HavingSplits(n: nat, p: seq<nat> -> bool, k: nat)
    requires n > 0 && 0 < k <= WORD
    ensures |Having(StartingBelow(n, k), p)| == |Having(StartingBelow(n, k - 1), p)| + |Having(Sequences(n - 1), After(k - 1, p))|
  {
    var first, rest := StartingBelow(n, k - 1), Sequences(n - 1);
    var led := Led(k - 1, rest);
    assert StartingBelow(n, k) == first + led;
    hide *;
    forall ws | ws in first ensures ws !in led {
      StartingBelowAre(n, k - 1, ws);
      LedAre(n, k - 1, ws);
    }
    LedSize(k - 1, Having(rest, After(k - 1, p)));
    LedHaving(k - 1, rest, p);
    HavingUnion(first, led, p);
  }

  lemma HavingUnion(a: set<seq<nat>>, b: set<seq<nat>>, p: seq<nat> -> bool)
    requires forall ws | ws in a :: ws !in b
    ensures |Having(a + b, p)| == |Having(a, p)| + |Having(b, p)|
  {
    assert Having(a + b, p) == Having(a, p) + Having(b, p);
    assert Having(a, p) !! Having(b, p);
  }

  lemma LedHaving(w: nat, all: set<seq<nat>>, p: seq<nat> -> bool)
    ensures Having(Led(w, all), p) == Led(w, Having(all, After(w, p)))
  {
  }

  lemma {:induction false} LedSize(w: nat, all: set<seq<nat>>)
    ensures |Led(w, all)| == |all|
  {
    if all != {} {
      var ws :| ws in all;
      LedSize(w, all - {ws});
      forall us | us in all - {ws} ensures [w] + us != [w] + ws { LedApart(w, us, ws); }
      assert Led(w, all) == Led(w, all - {ws}) + {[w] + ws};
    }
  }

  lemma LedApart(w: nat, us: seq<nat>, ws: seq<nat>)
    requires us != ws
    ensures [w] + us != [w] + ws
  {
    assert ([w] + us)[1..] == us && ([w] + ws)[1..] == ws;
  }

  // ---------------------------------------------------------------- parts of equal and of composed properties

  /** The part depends on the sequences of words alone. */
  lemma {:induction false} PartSame(n: nat, p: seq<nat> -> bool, q: seq<nat> -> bool)
    requires forall ws | OfWords(ws, n) :: p(ws) == q(ws)
    ensures Part(n, p) == Part(n, q)
    decreases n, 1, 0
  {
    if n == 0 {
      assert OfWords([], 0);
    } else {
      PartSumSame(n, p, q, WORD);
      hide PartSum;
    }
  }

  lemma {:induction false} PartSumSame(n: nat, p: seq<nat> -> bool, q: seq<nat> -> bool, k: nat)
    requires n > 0 && k <= WORD && forall ws | OfWords(ws, n) :: p(ws) == q(ws)
    ensures PartSum(n, p, k) == PartSum(n, q, k)
    decreases n, 0, k
  {
    if k > 0 {
      PartSumSame(n, p, q, k - 1);
      var m, p', q' := n - 1, After(k - 1, p), After(k - 1, q);
      forall ws | OfWords(ws, m) ensures p'(ws) == q'(ws) {
        assert OfWords([k - 1] + ws, n);
      }
      PartSame(m, p', q');
    }
  }

  /** A property of none of them, and one of all. */
  lemma {:induction false} PartNone(n: nat, p: seq<nat> -> bool)
    requires forall ws | OfWords(ws, n) :: !p(ws)
    ensures Part(n, p) == 0.0
    decreases n, 1, 0
  {
    if n == 0 {
      assert OfWords([], 0);
    } else {
      PartSumConstant(n, p, WORD, false);
    }
  }

  lemma {:induction false} PartAll(n: nat, p: seq<nat> -> bool)
    requires forall ws | OfWords(ws, n) :: p(ws)
    ensures Part(n, p) == 1.0
    decreases n, 1, 0
  {
    if n == 0 {
      assert OfWords([], 0);
    } else {
      PartSumConstant(n, p, WORD, true);
    }
  }

  lemma {:induction false} PartSumConstant(n: nat, p: seq<nat> -> bool, k: nat, all: bool)
    requires n > 0 && k <= WORD && forall ws | OfWords(ws, n) :: p(ws) == all
    ensures PartSum(n, p, k) == if all then k as real else 0.0
    decreases n, 0, k
  {
    if k > 0 {
      PartSumConstant(n, p, k - 1, all);
      var m, p' := n - 1, After(k - 1, p);
      forall ws | OfWords(ws, m) ensures p'(ws) == all {
        assert OfWords([k - 1] + ws, n);
      }
      if all { PartAll(m, p'); } else { PartNone(m, p'); }
    }
  }
}

/** The chances of `Fairness` are counts: of the sequences of words a draw may use, each solution gets the part
    that its chance says. */
module Outcomes {
  import opened Options
  import opened Bdds
  import opened Words
  import opened Randomness
  import opened WordCounts
  import opened Counting
  import opened Weights
  import opened Sampling
  import opened Circuits
  import opened Expressions
  import opened Compiler
  import opened Fields
  import opened Uniformity
  import opened Extraction
  import opened Drawing
  import opened Runs
  import opened FieldCounts
  import opened Chances
  import opened Fairness

  // ---------------------------------------------------------------- streams that agree

  /** The word of a stream at `i` places after `pos`. */
  function At(draw: nat -> nat, pos: nat, i: nat): nat {
    draw(pos + i) % WORD
  }

  /** Two streams give the same `n` words from their positions on. */
  ghost predicate Agree(draw: nat -> nat, pos: nat, draw': nat -> nat, pos': nat, n: nat) {
    forall i: nat | i < n :: At(draw, pos, i) == At(draw', pos', i)
  }

  lemma AgreeLater(draw: nat -> nat, pos: nat, draw': nat -> nat, pos': nat, n: nat, used: nat)
    requires Agree(draw, pos, draw', pos', n) && used <= n
    ensures Agree(draw, pos + used, draw', pos' + used, n - used)
  {
    var m, a, a' := n - used, pos + used, pos' + used;
    forall i: nat | i < m ensures At(draw, a, i) == At(draw', a', i) {
      assert At(draw, pos, used + i) == At(draw', pos', used + i);
      assert pos + used + i == pos + (used + i) && pos' + used + i == pos' + (used + i);
    }
  }

  lemma AgreeNow(draw: nat -> nat, pos: nat, draw': nat -> nat, pos': nat, n: nat)
    requires Agree(draw, pos, draw', pos', n) && n > 0
    ensures draw(pos) % WORD == draw'(pos') % WORD
  {
    assert At(draw, pos, 0) == At(draw', pos', 0);
  }

  /** A sequence of words as a stream. */
  function DrawOf(ws: seq<nat>): nat -> nat {
    (i: nat) => if i < |ws| then ws[i] else 0
  }

  function Drop(ws: seq<nat>, k: nat): seq<nat> {
    if k <= |ws| then ws[k..] else []
  }

  lemma DropAgrees(ws: seq<nat>, k: nat, n: nat)
    ensures Agree(DrawOf(ws), k, DrawOf(Drop(ws, k)), 0, n)
  {
    forall i: nat | i < n ensures At(DrawOf(ws), k, i) == At(DrawOf(Drop(ws, k)), 0, i) {}
  }

  // ---------------------------------------------------------------- walks

  /** The most words a walk may draw. */
  function Choices(e: Edge): nat
    decreases e.node
  {
    if e.node.One? then 0
    else if ElseOf(e) == FALSE then Choices(ThenOf(e))
    else if ThenOf(e) == FALSE then Choices(ElseOf(e))
    else 1 + (if Choices(ThenOf(e)) >= Choices(ElseOf(e)) then Choices(ThenOf(e)) else Choices(ElseOf(e)))
  }

  /** Two random states with the same word left. */
  predicate Alike(r: Rand, pos: nat, r': Rand, pos': nat, n: nat) {
    r.randomnext == r'.randomnext && r.pos - pos == r'.pos - pos' && pos <= r.pos <= pos + n
  }

  lemma StepAlike(w: nat, draw: nat -> nat, pos: nat, draw': nat -> nat, pos': nat, n: nat)
    requires Agree(draw, pos, draw', pos', n) && n > 0
    ensures Alike(Step16(Rand(w, pos), draw), pos, Step16(Rand(w, pos'), draw'), pos', 1)
  {
    AgreeNow(draw, pos, draw', pos', n);
  }

  /** A walk depends on the words it may draw, and on no others. */
  lemma {:induction false} WalkLocal(e: Edge, shares: map<Edge, nat>, w: nat, draw: nat -> nat, pos: nat, draw': nat -> nat, pos': nat, n: nat)
    requires Agree(draw, pos, draw', pos', n) && Choices(e) <= n
    ensures var p, p' := Walk(e, shares, draw, Rand(w, pos)), Walk(e, shares, draw', Rand(w, pos'));
            p.bits == p'.bits && Alike(p.last, pos, p'.last, pos', Choices(e))
    decreases e.node
  {
    if e.node.Branch? {
      if ElseOf(e) == FALSE {
        WalkLocal(ThenOf(e), shares, w, draw, pos, draw', pos', n);
      } else if ThenOf(e) == FALSE {
        WalkLocal(ElseOf(e), shares, w, draw, pos, draw', pos', n);
      } else {
        StepAlike(w, draw, pos, draw', pos', n);
        var r, r' := Step16(Rand(w, pos), draw), Step16(Rand(w, pos'), draw');
        var child := if TakesElse(Threshold(e, shares), r.randomnext) then ElseOf(e) else ThenOf(e);
        AgreeLater(draw, pos, draw', pos', n, r.pos - pos);
        WalkLocal(child, shares, r.randomnext, draw, r.pos, draw', r'.pos, n - (r.pos - pos));
        hide Agree, Step16, TakesElse, Choices;
      }
    }
  }

  /** Where a walk that goes the way of `s` leaves the stream. */
  ghost function WalkRun(e: Edge, shares: map<Edge, nat>, s: Assignment, draw: nat -> nat, r: Rand): Option<nat> {
    var p := Walk(e, shares, draw, r);
    if Follows(s, p.bits) then Some(p.last.pos) else None
  }

  /** The walk goes the way of `s`, and the words it leaves have the property `q`. */
  ghost function WalkThen(e: Edge, shares: map<Edge, nat>, s: Assignment, w: nat, q: seq<nat> -> bool): seq<nat> -> bool {
    (ws: seq<nat>) => var end := WalkRun(e, shares, s, DrawOf(ws), Rand(w, 0)); end.Some? && q(Drop(ws, end.value))
  }

  /** From `m` words on the part that has the property is `c`. */
  ghost predicate Settles(q: seq<nat> -> bool, m: nat, c: real) {
    forall k: nat | k >= m :: Part(k, q) == c
  }

  /** One step of a walk. */
  lemma WalkFirst(e: Edge, lo: nat, shares: map<Edge, nat>, s: Assignment, draw: nat -> nat, r: Rand, r': Rand, taken: bool, child: Edge)
    requires Canonical(e, lo) && e.node.Branch? && child == if taken then ThenOf(e) else ElseOf(e)
    requires if ElseOf(e) == FALSE then taken && r' == r
             else if ThenOf(e) == FALSE then !taken && r' == r
             else r' == Step16(r, draw) && taken == !TakesElse(Threshold(e, shares), r'.randomnext)
    ensures Canonical(child, e.node.index + 1) && child != FALSE
    ensures WalkRun(e, shares, s, draw, r) == if e.node.index in s <==> taken then WalkRun(child, shares, s, draw, r') else None
  {
    WalkPrepends(e, lo, shares, draw, r, r', taken);
    WalkAbove(child, e.node.index + 1, shares, draw, r');
    hide Canonical, Walk, Step16, TakesElse, Threshold;
    FollowsPrepend(s, Walk(child, shares, draw, r').bits, e.node.index, taken);
  }

  lemma FollowsPrepend(s: Assignment, bits: map<nat, bool>, i: nat, v: bool)
    requires i !in bits
    ensures Follows(s, bits[i := v]) <==> (i in s <==> v) && Follows(s, bits)
  {
    if Follows(s, bits[i := v]) {
      forall j | j in bits ensures j in s <==> bits[j] { assert j in bits[i := v]; }
    }
  }

  /** After its first word a walk is one over the other words. */
  lemma WalkShift(e: Edge, shares: map<Edge, nat>, s: Assignment, w: nat, v: nat, ws: seq<nat>, q: seq<nat> -> bool)
    ensures var end := WalkRun(e, shares, s, DrawOf([v] + ws), Rand(w, 1));
            (end.Some? && q(Drop([v] + ws, end.value))) == WalkThen(e, shares, s, w, q)(ws)
  {
    DropAgrees([v] + ws, 1, Choices(e));
    assert Drop([v] + ws, 1) == ws;
    WalkLocal(e, shares, w, DrawOf([v] + ws), 1, DrawOf(ws), 0, Choices(e));
    hide Walk, Agree, DrawOf, Follows;
    var end := WalkRun(e, shares, s, DrawOf(ws), Rand(w, 0));
    if end.Some? { DropShift(v, ws, end.value); }
  }

  lemma DropShift(v: nat, ws: seq<nat>, k: nat)
    ensures Drop([v] + ws, k + 1) == Drop(ws, k)
  {
  }

  /** Of the words that may come first, those that send the walk the way of `s` are followed by it. */
  lemma {:induction false} WalkPartSum(e: Edge, lo: nat, w: nat, shares: map<Edge, nat>, s: Assignment, q: seq<nat> -> bool, m: nat, c: real, n: nat, k: nat)
    requires Canonical(e, lo) && e.node.Branch? && ElseOf(e) != FALSE && ThenOf(e) != FALSE
    requires Settles(q, m, c) && n >= Choices(e) + m && w <= ROUNDTO && k <= WORD
    ensures n > 0 && PartSum(n, WalkThen(e, shares, s, w, q), k) == Times(GoSum(e, w, shares, s, k), c)
    decreases e.node, 0, k
  {
    if k == 0 {
      TimesAdds(c, 0.0, 0.0);
    } else {
      WalkPartSum(e, lo, w, shares, s, q, m, c, n, k - 1);
      WalkWord(e, lo, w, shares, s, q, m, c, n, k - 1);
      hide Part, WalkThen, GoWord, Times, Canonical;
      TimesSum(GoSum(e, w, shares, s, k - 1), GoWord(e, w, shares, s, k - 1), c);
    }
  }

  lemma TimesSum(x: real, y: real, c: real)
    ensures Times(x + y, c) == Times(x, c) + Times(y, c)
  {
  }

  lemma {:induction false} WalkWord(e: Edge, lo: nat, w: nat, shares: map<Edge, nat>, s: Assignment, q: seq<nat> -> bool, m: nat, c: real, n: nat, v: nat)
    requires Canonical(e, lo) && e.node.Branch? && ElseOf(e) != FALSE && ThenOf(e) != FALSE
    requires Settles(q, m, c) && n >= Choices(e) + m && w <= ROUNDTO && v < WORD
    ensures n > 0 && Part(n - 1, After(v, WalkThen(e, shares, s, w, q))) == Times(GoWord(e, w, shares, s, v), c)
    decreases e.node, 0, 0
  {
    NextHalfIs(w, v);
    var taken := !TakesElse(Threshold(e, shares), v);
    var child := if taken then ThenOf(e) else ElseOf(e);
    var k, p := n - 1, After(v, WalkThen(e, shares, s, w, q));
    forall ws | OfWords(ws, k) ensures p(ws) == ((e.node.index in s <==> taken) && WalkThen(child, shares, s, v, q)(ws)) {
      FirstDrawn(w, v, ws);
      WalkFirst(e, lo, shares, s, DrawOf([v] + ws), Rand(w, 0), Rand(v, 1), taken, child);
      WalkShift(child, shares, s, v, v, ws, q);
    }
    if e.node.index in s <==> taken {
      Branches(e, lo, 0);
      PartSame(k, p, WalkThen(child, shares, s, v, q));
      WalkPart(child, e.node.index + 1, v, shares, s, q, m, c, k);
    } else {
      PartNone(k, p);
      TimesAdds(c, 0.0, 0.0);
    }
  }

  lemma FirstDrawn(w: nat, v: nat, ws: seq<nat>)
    requires w <= ROUNDTO && v < WORD
    ensures Step16(Rand(w, 0), DrawOf([v] + ws)) == Rand(v, 1)
  {
    DivModUnique(v, WORD, 0, v);
  }

  lemma WalkEnds(e: Edge, shares: map<Edge, nat>, s: Assignment, w: nat, q: seq<nat> -> bool, ws: seq<nat>)
    requires e.node.One?
    ensures WalkThen(e, shares, s, w, q)(ws) == q(ws)
  {
    assert Drop(ws, 0) == ws;
    var end := WalkRun(e, shares, s, DrawOf(ws), Rand(w, 0));
    assert Walk(e, shares, DrawOf(ws), Rand(w, 0)) == Path(map[], Rand(w, 0));
    assert WalkThen(e, shares, s, w, q)(ws) == (end.Some? && q(Drop(ws, end.value)));
  }

  /** Of the sequences of at least as many words as a walk may draw and `q` needs, the part under which the walk
      goes the way of `s` and leaves words with the property `q` is the chance of the way times the part of `q`. */
  lemma {:induction false} WalkPart(e: Edge, lo: nat, w: nat, shares: map<Edge, nat>, s: Assignment, q: seq<nat> -> bool, m: nat, c: real, n: nat)
    requires Canonical(e, lo) && e != FALSE && w < WORD && Settles(q, m, c) && n >= Choices(e) + m
    ensures Part(n, WalkThen(e, shares, s, w, q)) == Times(GoChance(e, w, shares, s), c)
    decreases e.node, 1, 0
  {
    var p := WalkThen(e, shares, s, w, q);
    if e.node.One? {
      forall ws | OfWords(ws, n) ensures p(ws) == q(ws) { WalkEnds(e, shares, s, w, q, ws); }
      PartSame(n, p, q);
    } else if ElseOf(e) == FALSE || ThenOf(e) == FALSE {
      WalkSure(e, lo, w, w, shares, s, q, m, c, n, ElseOf(e) == FALSE);
    } else if w > ROUNDTO {
      WalkSure(e, lo, w, w / ROUNDTO, shares, s, q, m, c, n, !TakesElse(Threshold(e, shares), w / ROUNDTO));
      GoLeft(e, w, shares, s, WORD);
    } else {
      WalkPartSum(e, lo, w, shares, s, q, m, c, n, WORD);
      TimesQuotient(GoSum(e, w, shares, s, WORD), c, WORD as real);
      hide GoSum, PartSum, WalkThen;
    }
  }

  lemma TimesQuotient(x: real, c: real, d: real)
    requires d > 0.0
    ensures Times(x, c) / d == Times(x / d, c)
  {
    var y := x / d;
    assert y * d == x;
    assert x * c == (y * c) * d;
  }

  /** A word left over decides for all words to come. */
  lemma {:induction false} GoLeft(e: Edge, w: nat, shares: map<Edge, nat>, s: Assignment, k: nat)
    requires e.node.Branch? && ROUNDTO < w < WORD && k <= WORD
    ensures GoSum(e, w, shares, s, k) == Times(k as real, GoWord(e, w, shares, s, 0))
  {
    if k > 0 {
      GoLeft(e, w, shares, s, k - 1);
      NextHalfIs(w, k - 1);
      NextHalfIs(w, 0);
      TimesSum((k - 1) as real, 1.0, GoWord(e, w, shares, s, 0));
    }
  }

  /** A step that draws no word. */
  lemma {:induction false} WalkSure(e: Edge, lo: nat, w: nat, w': nat, shares: map<Edge, nat>, s: Assignment, q: seq<nat> -> bool, m: nat, c: real, n: nat, taken: bool)
    requires Canonical(e, lo) && e.node.Branch? && w < WORD && Settles(q, m, c) && n >= Choices(e) + m
    requires if ElseOf(e) == FALSE then taken && w' == w
             else if ThenOf(e) == FALSE then !taken && w' == w
             else w > ROUNDTO && w' == w / ROUNDTO && taken == !TakesElse(Threshold(e, shares), w')
    ensures var child := if taken then ThenOf(e) else ElseOf(e);
            Part(n, WalkThen(e, shares, s, w, q)) == if e.node.index in s <==> taken then Times(GoChance(child, w', shares, s), c) else 0.0
    decreases e.node, 0, 0
  {
    var child := if taken then ThenOf(e) else ElseOf(e);
    var p := WalkThen(e, shares, s, w, q);
    forall ws | OfWords(ws, n) ensures p(ws) == ((e.node.index in s <==> taken) && WalkThen(child, shares, s, w', q)(ws)) {
      WalkFirst(e, lo, shares, s, DrawOf(ws), Rand(w, 0), Rand(w', 0), taken, child);
    }
    if e.node.index in s <==> taken {
      Branches(e, lo, 0);
      PartSame(n, p, WalkThen(child, shares, s, w', q));
      WalkPart(child, e.node.index + 1, w', shares, s, q, m, c, n);
    } else {
      PartNone(n, p);
    }
  }

  // ---------------------------------------------------------------- undecided bits

  /** Where taking bits that come out as `p` leaves the stream. */
  function BitsRun(p: seq<bool>, r: Rand, draw: nat -> nat): Option<nat> {
    if p == [] then Some(r.pos)
    else
      var r' := StepBit(r, draw);
      if (r'.randomnext % 2 == 1) == p[0] then BitsRun(p[1..], r', draw) else None
  }

  ghost function BitsThen(p: seq<bool>, w: nat, q: seq<nat> -> bool): seq<nat> -> bool {
    (ws: seq<nat>) => var end := BitsRun(p, Rand(w, 0), DrawOf(ws)); end.Some? && q(Drop(ws, end.value))
  }

  /** Two ends at the same distance from their starts. */
  predicate SameEnd(end: Option<nat>, pos: nat, end': Option<nat>, pos': nat, n: nat) {
    && (end.Some? <==> end'.Some?)
    && (end.Some? ==> end.value - pos == end'.value - pos' && pos <= end.value <= pos + n)
  }

  lemma {:induction false} BitsLocal(p: seq<bool>, w: nat, draw: nat -> nat, pos: nat, draw': nat -> nat, pos': nat, n: nat)
    requires Agree(draw, pos, draw', pos', n) && |p| <= n
    ensures SameEnd(BitsRun(p, Rand(w, pos), draw), pos, BitsRun(p, Rand(w, pos'), draw'), pos', |p|)
  {
    if p != [] {
      AgreeNow(draw, pos, draw', pos', n);
      var r, r' := StepBit(Rand(w, pos), draw), StepBit(Rand(w, pos'), draw');
      AgreeLater(draw, pos, draw', pos', n, r.pos - pos);
      BitsLocal(p[1..], r.randomnext, draw, r.pos, draw', r'.pos, n - (r.pos - pos));
    }
  }

  /** After their first word the bits are taken from the other words. */
  lemma BitsShift(p: seq<bool>, w: nat, v: nat, ws: seq<nat>, q: seq<nat> -> bool)
    ensures var end := BitsRun(p, Rand(w, 1), DrawOf([v] + ws));
            (end.Some? && q(Drop([v] + ws, end.value))) == BitsThen(p, w, q)(ws)
  {
    DropAgrees([v] + ws, 1, |p|);
    assert Drop([v] + ws, 1) == ws;
    BitsLocal(p, w, DrawOf([v] + ws), 1, DrawOf(ws), 0, |p|);
    hide BitsRun, Agree, DrawOf;
    var end := BitsRun(p, Rand(w, 0), DrawOf(ws));
    if end.Some? { DropShift(v, ws, end.value); }
  }

  lemma BitsNone(w: nat, q: seq<nat> -> bool, ws: seq<nat>)
    ensures BitsThen([], w, q)(ws) == q(ws)
  {
    assert Drop(ws, 0) == ws;
    var end := BitsRun([], Rand(w, 0), DrawOf(ws));
    assert BitsThen([], w, q)(ws) == (end.Some? && q(Drop(ws, end.value)));
  }

  lemma BitsFirst(p: seq<bool>, w: nat, ws: seq<nat>, r: Rand, q: seq<nat> -> bool)
    requires p != [] && r == StepBit(Rand(w, 0), DrawOf(ws))
    ensures var end := BitsRun(p[1..], r, DrawOf(ws));
            BitsThen(p, w, q)(ws) == ((r.randomnext % 2 == 1) == p[0] && end.Some? && q(Drop(ws, end.value)))
  {
    var end := BitsRun(p, Rand(w, 0), DrawOf(ws));
    assert BitsThen(p, w, q)(ws) == (end.Some? && q(Drop(ws, end.value)));
    hide StepBit, DrawOf, Drop;
  }

  lemma {:induction false} BitsPartSum(p: seq<bool>, w: nat, q: seq<nat> -> bool, m: nat, c: real, n: nat, k: nat)
    requires p != [] && w < 2 && Settles(q, m, c) && n >= |p| + m && k <= WORD
    ensures PartSum(n, BitsThen(p, w, q), k) == Times(GivenSum(w, p, k), c)
    decreases |p|, 0, k
  {
    if k == 0 {
      TimesAdds(c, 0.0, 0.0);
    } else {
      BitsPartSum(p, w, q, m, c, n, k - 1);
      BitsWord(p, w, q, m, c, n, k - 1);
      hide Part, BitsThen, GivenWord, Times;
      TimesSum(GivenSum(w, p, k - 1), GivenWord(w, k - 1, p), c);
    }
  }

  lemma {:induction false} BitsWord(p: seq<bool>, w: nat, q: seq<nat> -> bool, m: nat, c: real, n: nat, v: nat)
    requires p != [] && w < 2 && Settles(q, m, c) && n >= |p| + m && v < WORD
    ensures Part(n - 1, After(v, BitsThen(p, w, q))) == Times(GivenWord(w, v, p), c)
    decreases |p|, 0, 0
  {
    NextWordIs(w, v);
    var k, e, rest := n - 1, After(v, BitsThen(p, w, q)), p[1..];
    forall ws | OfWords(ws, k) ensures e(ws) == ((v % 2 == 1) == p[0] && BitsThen(rest, v, q)(ws)) {
      DivModUnique(v, WORD, 0, v);
      assert StepBit(Rand(w, 0), DrawOf([v] + ws)) == Rand(v, 1);
      BitsShift(rest, v, v, ws, q);
      BitsFirst(p, w, [v] + ws, Rand(v, 1), q);
    }
    hide NextWord;
    if (v % 2 == 1) == p[0] {
      PartSame(k, e, BitsThen(rest, v, q));
      BitsPart(rest, v, q, m, c, k);
    } else {
      PartNone(k, e);
      TimesAdds(c, 0.0, 0.0);
    }
  }

  /** The same for the bits of a word: the part under which they come out as `p` and leave words with the
      property `q` is the chance of `p` times the part of `q`. */
  lemma {:induction false} BitsPart(p: seq<bool>, w: nat, q: seq<nat> -> bool, m: nat, c: real, n: nat)
    requires Settles(q, m, c) && n >= |p| + m
    ensures Part(n, BitsThen(p, w, q)) == Times(Given(w, p), c)
    decreases |p|, 1, 0
  {
    var e := BitsThen(p, w, q);
    if p == [] {
      forall ws | OfWords(ws, n) ensures e(ws) == q(ws) { BitsNone(w, q, ws); }
      PartSame(n, e, q);
    } else if w >= 2 {
      BitsOfWord(p, w, q, m, c, n);
      GivenLeft(p, w, WORD);
      hide GivenSum, Part, GivenWord;
    } else {
      BitsPartSum(p, w, q, m, c, n, WORD);
      TimesQuotient(GivenSum(w, p, WORD), c, WORD as real);
      hide GivenSum, PartSum, BitsThen;
    }
  }

  lemma {:induction false} GivenLeft(p: seq<bool>, w: nat, k: nat)
    requires p != [] && w >= 2 && k <= WORD
    ensures GivenSum(w, p, k) == Times(k as real, GivenWord(w, 0, p))
  {
    if k > 0 {
      GivenLeft(p, w, k - 1);
      NextWordIs(w, k - 1);
      NextWordIs(w, 0);
      TimesSum((k - 1) as real, 1.0, GivenWord(w, 0, p));
    }
  }

  /** A bit of a word that lasts. */
  lemma {:induction false} BitsOfWord(p: seq<bool>, w: nat, q: seq<nat> -> bool, m: nat, c: real, n: nat)
    requires p != [] && w >= 2 && Settles(q, m, c) && n >= |p| + m
    ensures Part(n, BitsThen(p, w, q)) == Times(GivenWord(w, 0, p), c)
    decreases |p|, 0, 0
  {
    NextWordIs(w, 0);
    var e, v, rest := BitsThen(p, w, q), w / 2, p[1..];
    forall ws | OfWords(ws, n) ensures e(ws) == ((v % 2 == 1) == p[0] && BitsThen(rest, v, q)(ws)) {
      assert StepBit(Rand(w, 0), DrawOf(ws)) == Rand(v, 0);
      BitsFirst(p, w, ws, Rand(v, 0), q);
    }
    hide NextWord;
    if (v % 2 == 1) == p[0] {
      PartSame(n, e, BitsThen(rest, v, q));
      BitsPart(rest, v, q, m, c, n);
    } else {
      PartNone(n, e);
      TimesAdds(c, 0.0, 0.0);
    }
  }

  // ---------------------------------------------------------------- fields

  /** Where filling a field with the undecided bits `p` leaves the stream: it starts with a new word. */
  function FieldRun(p: seq<bool>, draw: nat -> nat, pos: nat): Option<nat> {
    BitsRun(p, Rand(draw(pos) % WORD, pos + 1), draw)
  }

  ghost function FieldThen(p: seq<bool>, q: seq<nat> -> bool): seq<nat> -> bool {
    (ws: seq<nat>) => var end := FieldRun(p, DrawOf(ws), 0); end.Some? && q(Drop(ws, end.value))
  }

  lemma FieldLocal(p: seq<bool>, draw: nat -> nat, pos: nat, draw': nat -> nat, pos': nat, n: nat)
    requires Agree(draw, pos, draw', pos', n) && |p| + 1 <= n
    ensures SameEnd(FieldRun(p, draw, pos), pos, FieldRun(p, draw', pos'), pos', |p| + 1)
  {
    AgreeNow(draw, pos, draw', pos', n);
    AgreeLater(draw, pos, draw', pos', n, 1);
    BitsLocal(p, draw(pos) % WORD, draw, pos + 1, draw', pos' + 1, n - 1);
  }

  lemma FieldFirst(p: seq<bool>, v: nat, ws: seq<nat>, q: seq<nat> -> bool)
    requires v < WORD
    ensures FieldThen(p, q)([v] + ws) == BitsThen(p, v, q)(ws)
  {
    DivModUnique(v, WORD, 0, v);
    BitsShift(p, v, v, ws, q);
    assert DrawOf([v] + ws)(0) == v;
    var end := FieldRun(p, DrawOf([v] + ws), 0);
    assert FieldThen(p, q)([v] + ws) == (end.Some? && q(Drop([v] + ws, end.value)));
  }

  lemma {:induction false} FieldPartSum(p: seq<bool>, q: seq<nat> -> bool, m: nat, c: real, n: nat, k: nat)
    requires Settles(q, m, c) && n >= |p| + 1 + m && k <= WORD
    ensures PartSum(n, FieldThen(p, q), k) == Times(FreshSum(p, k), c)
  {
    if k == 0 {
      TimesAdds(c, 0.0, 0.0);
    } else {
      FieldPartSum(p, q, m, c, n, k - 1);
      var l, v, e := n - 1, k - 1, After(k - 1, FieldThen(p, q));
      forall ws | OfWords(ws, l) ensures e(ws) == BitsThen(p, v, q)(ws) {
        FieldFirst(p, v, ws, q);
      }
      PartSame(l, e, BitsThen(p, v, q));
      BitsPart(p, v, q, m, c, l);
      hide Part, BitsThen, FieldThen, Times, Given;
      TimesSum(FreshSum(p, k - 1), Given(v, p), c);
    }
  }

  lemma FieldPart(p: seq<bool>, q: seq<nat> -> bool, m: nat, c: real, n: nat)
    requires Settles(q, m, c) && n >= |p| + 1 + m
    ensures Part(n, FieldThen(p, q)) == Times(Fresh(p), c)
  {
    FieldPartSum(p, q, m, c, n, WORD);
    TimesQuotient(FreshSum(p, WORD), c, WORD as real);
    hide FreshSum, PartSum, FieldThen;
  }

  /** Where filling the fields with the values of `s`, member by member, leaves the stream. */
  function MembersRun(layout: Layout, members: seq<Ext>, s: Assignment, tested: set<nat>, draw: nat -> nat, pos: nat): Option<nat> {
    if members == [] then Some(pos)
    else
      var end, x := MembersRun(layout, members[..|members| - 1], s, tested, draw, pos), members[|members| - 1];
      if end.Some? && x in layout then FieldRun(Pattern(layout[x], s, tested, VecSize(x)), draw, end.value) else end
  }

  ghost function MembersThen(layout: Layout, members: seq<Ext>, s: Assignment, tested: set<nat>, q: seq<nat> -> bool): seq<nat> -> bool {
    (ws: seq<nat>) => var end := MembersRun(layout, members, s, tested, DrawOf(ws), 0); end.Some? && q(Drop(ws, end.value))
  }

  /** The most words filling the fields may draw. */
  function Fillings(layout: Layout, members: seq<Ext>): nat {
    if members == [] then 0
    else
      var x := members[|members| - 1];
      Fillings(layout, members[..|members| - 1]) + if x in layout then VecSize(x) + 1 else 0
  }

  lemma {:induction false} PatternBound(r: Record, s: Assignment, tested: set<nat>, k: nat)
    ensures |Pattern(r, s, tested, k)| <= k
  {
    if k > 0 { PatternBound(r, s, tested, k - 1); }
  }

  lemma {:induction false} MembersLocal(layout: Layout, members: seq<Ext>, s: Assignment, tested: set<nat>,
                                        draw: nat -> nat, pos: nat, draw': nat -> nat, pos': nat, n: nat)
    requires Agree(draw, pos, draw', pos', n) && Fillings(layout, members) <= n
    ensures SameEnd(MembersRun(layout, members, s, tested, draw, pos), pos, MembersRun(layout, members, s, tested, draw', pos'), pos', Fillings(layout, members))
  {
    if members != [] {
      var init, x := members[..|members| - 1], members[|members| - 1];
      MembersLocal(layout, init, s, tested, draw, pos, draw', pos', n);
      var end, end' := MembersRun(layout, init, s, tested, draw, pos), MembersRun(layout, init, s, tested, draw', pos');
      if end.Some? && x in layout {
        PatternBound(layout[x], s, tested, VecSize(x));
        AgreeLater(draw, pos, draw', pos', n, end.value - pos);
        FieldLocal(Pattern(layout[x], s, tested, VecSize(x)), draw, end.value, draw', end'.value, n - (end.value - pos));
      }
      hide Agree, FieldRun, Pattern;
    }
  }

  lemma DropTwice(ws: seq<nat>, k: nat, j: nat)
    ensures Drop(Drop(ws, k), j) == Drop(ws, k + j)
  {
  }

  /** The last member comes after the others. */
  lemma LastMember(layout: Layout, members: seq<Ext>, init: seq<Ext>, x: Ext, s: Assignment, tested: set<nat>,
                   q: seq<nat> -> bool, q': seq<nat> -> bool, ws: seq<nat>)
    requires members != [] && init == members[..|members| - 1] && x == members[|members| - 1]
    requires q' == if x in layout then FieldThen(Pattern(layout[x], s, tested, VecSize(x)), q) else q
    ensures MembersThen(layout, members, s, tested, q)(ws) == MembersThen(layout, init, s, tested, q')(ws)
  {
    var end, all := MembersRun(layout, init, s, tested, DrawOf(ws), 0), MembersRun(layout, members, s, tested, DrawOf(ws), 0);
    assert MembersThen(layout, members, s, tested, q)(ws) == (all.Some? && q(Drop(ws, all.value)));
    assert MembersThen(layout, init, s, tested, q')(ws) == (end.Some? && q'(Drop(ws, end.value)));
    if end.Some? && x in layout {
      FieldShift(Pattern(layout[x], s, tested, VecSize(x)), ws, end.value, q);
    }
    hide FieldRun, FieldThen, DrawOf, Drop, Pattern;
  }

  lemma FieldShift(p: seq<bool>, ws: seq<nat>, k: nat, q: seq<nat> -> bool)
    ensures var end := FieldRun(p, DrawOf(ws), k); FieldThen(p, q)(Drop(ws, k)) == (end.Some? && q(Drop(ws, end.value)))
  {
    DropAgrees(ws, k, |p| + 1);
    FieldLocal(p, DrawOf(ws), k, DrawOf(Drop(ws, k)), 0, |p| + 1);
    var end' := FieldRun(p, DrawOf(Drop(ws, k)), 0);
    assert FieldThen(p, q)(Drop(ws, k)) == (end'.Some? && q(Drop(Drop(ws, k), end'.value)));
    if end'.Some? { DropTwice(ws, k, end'.value); }
    hide FieldRun, FieldThen, DrawOf, Drop, Agree;
  }

  lemma MembersNone(layout: Layout, s: Assignment, tested: set<nat>, q: seq<nat> -> bool, ws: seq<nat>)
    ensures MembersThen(layout, [], s, tested, q)(ws) == q(ws)
  {
    assert Drop(ws, 0) == ws;
    var end := MembersRun(layout, [], s, tested, DrawOf(ws), 0);
    assert MembersThen(layout, [], s, tested, q)(ws) == (end.Some? && q(Drop(ws, end.value)));
  }

  /** The same for all fields. */
  lemma {:induction false} MembersPart(layout: Layout, members: seq<Ext>, s: Assignment, tested: set<nat>, q: seq<nat> -> bool, m: nat, c: real, n: nat)
    requires Settles(q, m, c) && n >= Fillings(layout, members) + m
    ensures Part(n, MembersThen(layout, members, s, tested, q)) == Times(FillChance(layout, members, s, tested), c)
  {
    var e := MembersThen(layout, members, s, tested, q);
    if members == [] {
      forall ws | OfWords(ws, n) ensures e(ws) == q(ws) { MembersNone(layout, s, tested, q, ws); }
      PartSame(n, e, q);
    } else {
      var init, x := members[..|members| - 1], members[|members| - 1];
      var p := if x in layout then Pattern(layout[x], s, tested, VecSize(x)) else [];
      var q' := if x in layout then FieldThen(p, q) else q;
      var m' := m + if x in layout then VecSize(x) + 1 else 0;
      var d := FieldChance(layout, x, s, tested);
      if x in layout {
        PatternBound(layout[x], s, tested, VecSize(x));
        forall k: nat | k >= m' ensures Part(k, q') == Times(d, c) { FieldPart(p, q, m, c, k); }
      }
      forall ws | OfWords(ws, n) ensures e(ws) == MembersThen(layout, init, s, tested, q')(ws) {
        LastMember(layout, members, init, x, s, tested, q, q', ws);
      }
      PartSame(n, e, MembersThen(layout, init, s, tested, q'));
      MembersPart(layout, init, s, tested, q', m', Times(d, c), n);
      hide Part, MembersThen, FieldThen, FieldChance;
      TimesThrice(FillChance(layout, init, s, tested), d, c);
    }
  }

  lemma TimesThrice(x: real, d: real, c: real)
    ensures Times(x, Times(d, c)) == Times(x * d, c)
  {
  }
}

/** Drawing a solution from a diagram: `getVectorFromBdd` walks to the one node, `_setValue` turns the
    recorded bits into a value, filling the untested ones at random. */
module Sampling {
  import opened Bdds
  import opened Words
  import opened Counting
  import opened Weights
  import opened Randomness

  const ROUNDTO_BASE: nat := 32768

  /** The else branch is taken when sixteen random bits do not exceed the threshold. */
  predicate TakesElse(threshold: nat, randomnext: nat) {
    randomnext % ROUNDTO <= threshold
  }

  /** The manager's random state: the word being consumed and the position in the stream. */
  datatype Rand = Rand(randomnext: nat, pos: nat)

  /** `update16BitValue`. */
  function Step16(r: Rand, draw: nat -> nat): Rand {
    if r.randomnext <= ROUNDTO then Rand(draw(r.pos) % WORD, r.pos + 1)
    else Rand(r.randomnext / 65536, r.pos)
  }

  /** A word is used for its lower half and then, exactly if it exceeds 65536, for its upper half, which is
      then between 1 and 65535; after that, or at once, the next word is drawn. */
  lemma HalvesUsed(r: Rand, draw: nat -> nat)
    requires r.randomnext < WORD
    ensures var r' := Step16(r, draw);
            && r'.randomnext < WORD
            && (r.randomnext <= ROUNDTO <==> r'.pos == r.pos + 1)
            && (r.randomnext > ROUNDTO ==>
                  && r'.pos == r.pos && 1 <= r'.randomnext < ROUNDTO && r'.randomnext % ROUNDTO == r.randomnext / ROUNDTO
                  && Step16(r', draw).pos == r.pos + 1)
  {
    if r.randomnext > ROUNDTO {
      DivisionOf(r.randomnext, ROUNDTO);
      DivModUnique(r.randomnext / ROUNDTO, ROUNDTO, 0, r.randomnext / ROUNDTO);
    }
  }

  /** The words whose lower half sends the walk to the else branch: threshold plus one in 65536. */
  function LowerElse(threshold: nat, n: nat): nat {
    if n == 0 then 0 else LowerElse(threshold, n - 1) + if TakesElse(threshold, n - 1) then 1 else 0
  }

  lemma {:induction false} LowerElseCount(threshold: nat, rows: nat, rest: nat)
    requires threshold < ROUNDTO && rest <= ROUNDTO
    ensures LowerElse(threshold, rows * ROUNDTO + rest) == rows * (threshold + 1) + if rest <= threshold then rest else threshold + 1
    decreases rows, rest
  {
    if rest > 0 {
      LowerElseCount(threshold, rows, rest - 1);
      DivModUnique(rows * ROUNDTO + (rest - 1), ROUNDTO, rows, rest - 1);
    } else if rows > 0 {
      LowerElseCount(threshold, rows - 1, ROUNDTO);
    }
  }

  /** The words whose upper half is used and sends the walk to the else branch. */
  function UpperElse(threshold: nat, n: nat): nat {
    if n == 0 then 0
    else UpperElse(threshold, n - 1) + if n - 1 > ROUNDTO && TakesElse(threshold, (n - 1) / ROUNDTO) then 1 else 0
  }

  lemma {:induction false} UpperElseCount(threshold: nat, n: nat)
    requires threshold < ROUNDTO && n <= WORD
    ensures UpperElse(threshold, n)
         == if n <= ROUNDTO + 1 || threshold == 0 then 0
            else (if n <= (threshold + 1) * ROUNDTO then n else (threshold + 1) * ROUNDTO) - (ROUNDTO + 1)
  {
    if n > 0 {
      UpperElseCount(threshold, n - 1);
      if n - 1 > ROUNDTO { UpperHalfIff(threshold, n - 1); }
    }
  }

  lemma UpperHalfIff(threshold: nat, w: nat)
    requires threshold < ROUNDTO && ROUNDTO < w < WORD
    ensures TakesElse(threshold, w / ROUNDTO) <==> w < (threshold + 1) * ROUNDTO
    ensures w / ROUNDTO >= 1
  {
    DivisionOf(w, ROUNDTO);
    DivModUnique(w / ROUNDTO, ROUNDTO, 0, w / ROUNDTO);
  }

  /** How many words take the else branch at a given threshold: of all words as a lower half, and of the
      words above 65536 as an upper half, which never takes it at threshold 0. */
  lemma HalvesElse(threshold: nat)
    requires threshold < ROUNDTO
    ensures LowerElse(threshold, WORD) == (threshold + 1) * ROUNDTO
    ensures UpperElse(threshold, WORD) == if threshold == 0 then 0 else threshold * ROUNDTO - 1
  {
    LowerElseCount(threshold, ROUNDTO, 0);
    UpperElseCount(threshold, WORD);
  }

  /** `updateRandomNext` outside scan mode. */
  function StepBit(r: Rand, draw: nat -> nat): Rand {
    var half := r.randomnext / 2;
    if half == 0 then Rand(draw(r.pos) % WORD, r.pos + 1) else Rand(half, r.pos)
  }

  /** The threshold for the else branch: the stored share, or one half when the node has none. */
  function Threshold(e: Edge, shares: map<Edge, nat>): nat {
    if e in shares then shares[e] else ROUNDTO_BASE
  }

  datatype Path = Path(bits: map<nat, bool>, last: Rand)

  function Prepend(i: nat, v: bool, p: Path): Path {
    Path(p.bits[i := v], p.last)
  }

  /** The walk from a node to the constant: the value chosen for each variable met. */
  function Walk(e: Edge, shares: map<Edge, nat>, draw: nat -> nat, r: Rand): Path
    decreases e.node
  {
    if e.node.One? then Path(map[], r)
    else if ElseOf(e) == FALSE then Prepend(e.node.index, true, Walk(ThenOf(e), shares, draw, r))
    else if ThenOf(e) == FALSE then Prepend(e.node.index, false, Walk(ElseOf(e), shares, draw, r))
    else
      var r' := Step16(r, draw);
      if TakesElse(Threshold(e, shares), r'.randomnext) then Prepend(e.node.index, false, Walk(ElseOf(e), shares, draw, r'))
      else Prepend(e.node.index, true, Walk(ThenOf(e), shares, draw, r'))
  }

  /** An assignment gives the variables on a path the values chosen there. */
  predicate Follows(s: Assignment, bits: map<nat, bool>) {
    forall i | i in bits :: i in s <==> bits[i]
  }

  /** Soundness: from any diagram but zero, whatever the tables and the random words, the walk reaches
      one, and every assignment that agrees with the chosen values is a solution. */
  lemma {:induction false} WalkSound(e: Edge, lo: nat, shares: map<Edge, nat>, draw: nat -> nat, r: Rand, s: Assignment)
    requires Canonical(e, lo) && e != FALSE && Follows(s, Walk(e, shares, draw, r).bits)
    ensures Eval(e, s)
    ensures forall i | i in Walk(e, shares, draw, r).bits :: lo <= i
    decreases e.node
  {
    if e.node.Branch? {
      Branches(e, lo, 0);
      var p := Walk(e, shares, draw, r);
      var child := if p.bits[e.node.index] then ThenOf(e) else ElseOf(e);
      var r' := if ElseOf(e) == FALSE || ThenOf(e) == FALSE then r else Step16(r, draw);
      var q := Walk(child, shares, draw, r');
      WalkAbove(child, e.node.index + 1, shares, draw, r');
      assert p.bits == q.bits[e.node.index := p.bits[e.node.index]];
      assert Follows(s, q.bits) by {
        forall i | i in q.bits ensures i in s <==> q.bits[i] { assert i in p.bits; }
      }
      WalkSound(child, e.node.index + 1, shares, draw, r', s);
    }
  }

  lemma {:induction false} WalkAbove(e: Edge, lo: nat, shares: map<Edge, nat>, draw: nat -> nat, r: Rand)
    requires Canonical(e, lo)
    ensures forall i | i in Walk(e, shares, draw, r).bits :: lo <= i
    decreases e.node
  {
    if e.node.Branch? {
      Branches(e, lo, 0);
      WalkAbove(ThenOf(e), e.node.index + 1, shares, draw, r);
      WalkAbove(ElseOf(e), e.node.index + 1, shares, draw, r);
      WalkAbove(ThenOf(e), e.node.index + 1, shares, draw, Step16(r, draw));
      WalkAbove(ElseOf(e), e.node.index + 1, shares, draw, Step16(r, draw));
    }
  }

  // ---------------------------------------------------------------- the value vector

  /** `valueIndex` after growing to hold index `i`; new entries are zero. */
  function Grown(v: seq<nat>, i: nat): (r: seq<nat>)
    ensures |r| > i && |r| >= |v| && r[..|v|] == v
    ensures forall k | |v| <= k < |r| :: r[k] == 0
  {
    if i < |v| then v else v + seq(i + 1 - |v|, _ => 0)
  }

  /** An entry of `valueIndex`, zero past the end. */
  function Entry(v: seq<nat>, i: nat): nat {
    if i < |v| then v[i] else 0
  }

  /** The vector records the chosen bits and keeps its other entries. */
  ghost predicate Records(v: seq<nat>, v0: seq<nat>, bits: map<nat, bool>) {
    forall i: nat :: Entry(v, i) == if i in bits then (if bits[i] then 1 else 0) else Entry(v0, i)
  }

  lemma RecordsStep(v: seq<nat>, v0: seq<nat>, bits: map<nat, bool>, i: nat, b: bool)
    requires Records(v, v0, bits)
    ensures Records(Grown(v, i)[i := if b then 1 else 0], v0, bits[i := b])
  {
    var v' := Grown(v, i)[i := if b then 1 else 0];
    forall k: nat ensures Entry(v', k) == if k in bits[i := b] then (if bits[i := b][k] then 1 else 0) else Entry(v0, k) {
      if k < |v| { assert Grown(v, i)[..|v|][k] == v[k]; }
      assert Entry(v, k) == if k in bits then (if bits[k] then 1 else 0) else Entry(v0, k);
    }
  }

  /** The part of the manager that draws. */
  class Sampler {
    var gen: RandomStream
    var randomnext: nat
    var valueIndex: seq<nat>

    constructor (gen: RandomStream)
      ensures this.gen == gen && randomnext == 0 && valueIndex == []
    {
      this.gen := gen;
      randomnext := 0;
      valueIndex := [];
    }

    function State(): Rand
      reads this, gen
    {
      Rand(randomnext, gen.pos)
    }

    method Update16BitValue()
      modifies this`randomnext, gen
      ensures State() == Step16(old(State()), gen.draw)
    {
      if randomnext <= ROUNDTO {
        randomnext := gen.Next();
      } else {
        randomnext := randomnext / 65536;
      }
    }

    method UpdateRandomNext()
      modifies this`randomnext, gen
      ensures State() == StepBit(old(State()), gen.draw)
    {
      randomnext := randomnext / 2;
      if randomnext == 0 {
        randomnext := gen.Next();
      }
    }

    /** `getVectorFromBdd`. */
    method GetVectorFromBdd(n: Edge, shares: map<Edge, nat>)
      requires Canonical(n, 0)
      modifies this`randomnext, this`valueIndex, gen
      ensures var p := Walk(n, shares, gen.draw, old(State()));
              State() == p.last && Records(valueIndex, old(valueIndex), p.bits)
    {
      hide Canonical, Records;
      var node := n;
      ghost var lo: nat, done: map<nat, bool> := 0, map[];
      RecordsNothing(valueIndex);
      while node != TRUE && node != FALSE
        invariant Canonical(node, lo)
        invariant forall i | i in done :: i < lo
        invariant var all, rest := Walk(n, shares, gen.draw, old(State())), Walk(node, shares, gen.draw, State());
                  all.last == rest.last && all.bits == done + rest.bits
        invariant Records(valueIndex, old(valueIndex), done)
        decreases node.node
      {
        var nodeIndex := node.node.index;
        var Nt, Ne := ThenOf(node), ElseOf(node);
        ghost var before := State();
        var taken: bool;
        if Ne == FALSE {
          taken := true;
        } else if Nt == FALSE {
          taken := false;
        } else {
          var pElseBranch := if node in shares then shares[node] else ROUNDTO_BASE;
          Update16BitValue();
          taken := !(randomnext % ROUNDTO <= pElseBranch);
        }
        RecordsStep(valueIndex, old(valueIndex), done, nodeIndex, taken);
        valueIndex := Grown(valueIndex, nodeIndex)[nodeIndex := if taken then 1 else 0];
        WalkUnfold(node, lo, shares, gen.draw, before, State(), taken, done, done[nodeIndex := taken]);
        node := if taken then Nt else Ne;
        done := done[nodeIndex := taken];
        lo := nodeIndex + 1;
      }
      assert done + map[] == done;
    }

    /** `_setValue`: the value of a variable from its recorded bits. */
    method SetValue(start: nat, numvar: nat, msize: nat) returns (value: nat)
      modifies this`randomnext, this`valueIndex, gen
      ensures var fill := Fill(valueIndex, start, numvar, msize, Rand(gen.draw(old(gen.pos)) % WORD, old(gen.pos) + 1), gen.draw);
              value == fill.value && State() == fill.last
      ensures Records(valueIndex, old(valueIndex), map[])
    {
      hide Fill;
      randomnext := gen.Next();
      ghost var first := State();
      valueIndex := Grown(valueIndex, if msize > 0 then numvar * (msize - 1) + start else 0);
      GrownRecords(old(valueIndex), if msize > 0 then numvar * (msize - 1) + start else 0);
      value := 0;
      FillStep(valueIndex, start, numvar, 0, first, gen.draw);
      for i := 0 to msize
        invariant Fill(valueIndex, start, numvar, i, first, gen.draw) == Filled(value, State())
        invariant valueIndex == Grown(old(valueIndex), if msize > 0 then numvar * (msize - 1) + start else 0)
      {
        FillStep(valueIndex, start, numvar, i + 1, first, gen.draw);
        IndexInRange(numvar, i, msize - 1);
        var checkvalue := valueIndex[numvar * i + start];
        if checkvalue == 1 {
          value := value + Pow2(i);
        } else if checkvalue == 2 {
          UpdateRandomNext();
          if randomnext % 2 == 1 {
            value := value + Pow2(i);
          }
        }
      }
    }
  }

  lemma IndexInRange(numvar: nat, i: nat, last: nat)
    requires i <= last
    ensures numvar * i <= numvar * last
  {
    Distribute(numvar, i, last - i);
  }

  lemma GrownRecords(v: seq<nat>, i: nat)
    ensures Records(Grown(v, i), v, map[])
  {
    forall k: nat ensures Entry(Grown(v, i), k) == Entry(v, k) {
      if k < |v| { assert Grown(v, i)[..|v|][k] == v[k]; }
    }
  }

  datatype Filled = Filled(value: nat, last: Rand)

  /** The low `k` bits of a value: recorded ones as recorded, an entry 2 from the random word. */
  function Fill(v: seq<nat>, start: nat, numvar: nat, k: nat, r: Rand, draw: nat -> nat): Filled {
    if k == 0 then Filled(0, r)
    else
      var low := Fill(v, start, numvar, k - 1, r, draw);
      var entry := Entry(v, numvar * (k - 1) + start);
      if entry == 1 then Filled(low.value + Pow2(k - 1), low.last)
      else if entry == 2 then
        var r' := StepBit(low.last, draw);
        Filled(low.value + Weighted(r'.randomnext % 2 == 1, k - 1), r')
      else low
  }

  lemma FillStep(v: seq<nat>, start: nat, numvar: nat, k: nat, r: Rand, draw: nat -> nat)
    ensures Fill(v, start, numvar, k, r, draw) ==
      if k == 0 then Filled(0, r)
      else
        var low := Fill(v, start, numvar, k - 1, r, draw);
        var entry := Entry(v, numvar * (k - 1) + start);
        if entry == 1 then Filled(low.value + Pow2(k - 1), low.last)
        else if entry == 2 then
          var r' := StepBit(low.last, draw);
          Filled(low.value + Weighted(r'.randomnext % 2 == 1, k - 1), r')
        else low
  {
  }

  /** Every recorded bit of a variable appears in its value. */
  lemma {:induction false} FillBits(v: seq<nat>, start: nat, numvar: nat, k: nat, r: Rand, draw: nat -> nat)
    ensures var value := Fill(v, start, numvar, k, r, draw).value;
            && value < Pow2(k)
            && forall j: nat | j < k && Entry(v, numvar * j + start) != 2 ::
                 BitOf(value, j) <==> Entry(v, numvar * j + start) == 1
  {
    if k > 0 {
      FillBits(v, start, numvar, k - 1, r, draw);
      var low, value := Fill(v, start, numvar, k - 1, r, draw).value, Fill(v, start, numvar, k, r, draw).value;
      var top := value != low;
      assert value == low + Weighted(top, k - 1);
      forall j: nat | j < k && Entry(v, numvar * j + start) != 2
        ensures BitOf(value, j) <==> Entry(v, numvar * j + start) == 1
      {
        if j < k - 1 { LowBitKept(low, top, k - 1, j); } else { TopBitAdded(low, top, k - 1); }
      }
    }
  }

  lemma RecordsNothing(v: seq<nat>)
    ensures Records(v, v, map[])
  {
  }

  lemma WalkPrepends(e: Edge, lo: nat, shares: map<Edge, nat>, draw: nat -> nat, r: Rand, r': Rand, taken: bool)
    requires Canonical(e, lo) && e.node.Branch?
    requires if ElseOf(e) == FALSE then taken && r' == r
             else if ThenOf(e) == FALSE then !taken && r' == r
             else r' == Step16(r, draw) && taken == !TakesElse(Threshold(e, shares), r'.randomnext)
    ensures var child := if taken then ThenOf(e) else ElseOf(e);
            && Canonical(child, e.node.index + 1) && child != FALSE
            && Walk(e, shares, draw, r) == Prepend(e.node.index, taken, Walk(child, shares, draw, r'))
  {
    hide Eval, Below, Step16, TakesElse, Threshold, Prepend;
    Branches(e, lo, 0);
  }

  /** One step of the walk, as the loop takes it. */
  lemma WalkUnfold(e: Edge, lo: nat, shares: map<Edge, nat>, draw: nat -> nat, r: Rand, r': Rand, taken: bool, done: map<nat, bool>, done': map<nat, bool>)
    requires Canonical(e, lo) && e.node.Branch? && forall i | i in done :: i < lo
    requires done' == done[e.node.index := taken]
    requires if ElseOf(e) == FALSE then taken && r' == r
             else if ThenOf(e) == FALSE then !taken && r' == r
             else r' == Step16(r, draw) && taken == !TakesElse(Threshold(e, shares), r'.randomnext)
    ensures var child := if taken then ThenOf(e) else ElseOf(e);
            var p, q := Walk(e, shares, draw, r), Walk(child, shares, draw, r');
            && Canonical(child, e.node.index + 1) && child != FALSE
            && p.last == q.last && done + p.bits == done' + q.bits
    ensures forall i | i in done' :: i < e.node.index + 1
  {
    WalkPrepends(e, lo, shares, draw, r, r', taken);
    var child := if taken then ThenOf(e) else ElseOf(e);
    hide Walk, Canonical, Step16, TakesElse, Threshold;
    WalkAbove(child, e.node.index + 1, shares, draw, r');
    var q := Walk(child, shares, draw, r');
    assert done + Prepend(e.node.index, taken, q).bits == done' + q.bits;
  }
}

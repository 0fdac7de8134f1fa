/** What the weights of a constraint object count: its solutions, times two for every diagram variable that
    is no bit of a field and does not matter. */
module FieldCounts {
  import opened Bdds
  import opened Words
  import opened Circuits
  import opened Expressions
  import opened Compiler
  import opened Fields
  import opened Construction
  import opened Counting
  import opened Runs

  /** Setting the variable keeps the value of the diagram. */
  ghost predicate Ignores(b: Edge, i: nat) {
    forall s: Assignment :: Eval(b, s + {i}) == Eval(b, s)
  }

  ghost predicate KeepsOff(b: Edge, i: nat) {
    forall s: Assignment | Eval(b, s) :: i !in s
  }

  /** Every variable below `n` is a field bit, does not matter, or is off in all solutions. */
  ghost predicate Settled(b: Edge, bits: set<nat>, n: nat) {
    forall i: nat | i < n && i !in bits :: Ignores(b, i) || KeepsOff(b, i)
  }

  /** The variables that are no field bits and do not matter: the upper rows of a Boolean, whose vector has
      one bit but whose width is eight, and the unused rows of a constraint that was replaced by true. */
  ghost function Idle(b: Edge, bits: set<nat>, n: nat): set<nat> {
    set i: nat | i < n && i !in bits && Ignores(b, i)
  }

  // ---------------------------------------------------------------- counting

  /** The solutions over the field bits and some more variables. */
  ghost function Over(b: Edge, bits: set<nat>): set<Assignment> {
    set s: Assignment | s <= bits && Eval(b, s)
  }

  ghost function WithBit(ss: set<Assignment>, i: nat): set<Assignment> {
    set s | s in ss :: s + {i}
  }

  lemma OtherWithBit(s: Assignment, t: Assignment, i: nat)
    requires i !in s && i !in t && s != t
    ensures s + {i} != t + {i}
  {
    assert (s + {i}) - {i} == s && (t + {i}) - {i} == t;
  }

  lemma WithBitMore(ss: set<Assignment>, s: Assignment, i: nat)
    requires s in ss
    ensures WithBit(ss, i) == WithBit(ss - {s}, i) + {s + {i}}
  {
  }

  lemma {:induction false} WithBitSize(ss: set<Assignment>, i: nat)
    requires forall s | s in ss :: i !in s
    ensures |WithBit(ss, i)| == |ss|
  {
    if ss != {} {
      var s :| s in ss;
      WithBitSize(ss - {s}, i);
      forall t | t in ss - {s} ensures t + {i} != s + {i} { OtherWithBit(s, t, i); }
      WithBitMore(ss, s, i);
    }
  }

  /** A variable that does not matter doubles the number of solutions. */
  lemma OverDoubles(b: Edge, bits: set<nat>, i: nat)
    requires i !in bits && Ignores(b, i)
    ensures |Over(b, bits + {i})| == 2 * |Over(b, bits)|
  {
    var off, on := Over(b, bits), WithBit(Over(b, bits), i);
    forall s: Assignment | s in Over(b, bits + {i}) ensures s in off + on {
      if i in s {
        assert (s - {i}) + {i} == s;
        assert s - {i} in off;
      }
    }
    assert Over(b, bits + {i}) == off + on;
    assert off !! on;
    WithBitSize(off, i);
  }

  lemma {:induction false} OverIdle(b: Edge, bits: set<nat>, idle: set<nat>)
    requires bits !! idle && forall i | i in idle :: Ignores(b, i)
    ensures |Over(b, bits + idle)| == |Over(b, bits)| * Pow2(|idle|)
  {
    hide Over, Ignores;
    if idle == {} {
      assert bits + idle == bits;
    } else {
      var i :| i in idle;
      OverIdle(b, bits, idle - {i});
      OverDoubles(b, bits + (idle - {i}), i);
      assert bits + (idle - {i}) + {i} == bits + idle;
      Doubled(|Over(b, bits)|, Pow2(|idle - {i}|));
    }
  }

  lemma Doubled(a: nat, p: nat)
    ensures 2 * (a * p) == a * (2 * p)
  {
  }

  /** The models the weights count, `n` being the number of diagram variables: for each combination of field
      values that solves the diagram, two to the number of idle variables. */
  lemma ModelsAreSolutions(b: Bdd, layout: Layout, xs: set<Ext>, n: nat)
    requires Settled(b, FieldBits(layout, xs), n) && forall i | i in FieldBits(layout, xs) :: i < n
    ensures CountFrom(b, {}, 0, n) == |Solutions(b, layout, xs)| * Pow2(|Idle(b, FieldBits(layout, xs), n)|)
  {
    hide Eval, Canonical, FieldBits, CountFrom;
    var bits := FieldBits(layout, xs);
    var idle := Idle(b, bits, n);
    forall s: Assignment | s in Models(b, {}, 0, n) ensures s <= bits + idle {
      forall i | i in s ensures i in bits + idle { assert i !in bits ==> Ignores(b, i) || KeepsOff(b, i); }
    }
    assert Models(b, {}, 0, n) == Over(b, bits + idle);
    assert Solutions(b, layout, xs) == Over(b, bits);
    OverIdle(b, bits, idle);
    CountIsCardinality(b, {}, 0, n);
  }

  // ---------------------------------------------------------------- the diagrams of an object

  lemma SparseWith(layout: Layout, members: seq<Ext>, maxvar: nat, bits: nat, s: Assignment, i: nat)
    requires AllSparseClear(layout, members, maxvar, bits, {i})
    ensures AllSparseClear(layout, members, maxvar, bits, s + {i}) == AllSparseClear(layout, members, maxvar, bits, s)
  {
    forall x | x in members ensures SparseClear(layout, x, maxvar, bits, s + {i}) == SparseClear(layout, x, maxvar, bits, s) {
      if x in layout {
        forall j: nat | x.width <= j < bits ensures maxvar * j + layout[x].start != i {
          assert SparseClear(layout, x, maxvar, bits, {i});
        }
      }
    }
    if AllSparseClear(layout, members, maxvar, bits, s + {i}) {
      forall x | x in members ensures SparseClear(layout, x, maxvar, bits, s) { assert SparseClear(layout, x, maxvar, bits, s + {i}); }
    }
  }

  /** A variable that is neither a field bit nor an unused row does not matter to what `get_bdd` returns. */
  lemma BuiltIgnores(b: Bdd, e: Expr, layout: Layout, members: seq<Ext>, xs: set<Ext>, maxvar: nat, bits: nat, i: nat)
    requires ValidLayout(layout) && Exts(e) <= xs <= layout.Keys && Built(b, e, layout, members, maxvar, bits)
    requires i !in FieldBits(layout, xs) && AllSparseClear(layout, members, maxvar, bits, {i})
    ensures Ignores(b, i)
  {
    hide Satisfies, Canonical, Eval, AllSparseClear, ValidLayout;
    if forall s: Assignment :: !Satisfies(e, layout, s) {
      TrueIgnores(i);
    } else {
      FieldsOfPart(layout, Exts(e), xs);
      forall s: Assignment ensures Eval(b, s + {i}) == Eval(b, s) {
        SatisfiesAgree(e, layout, s + {i}, s);
        SparseWith(layout, members, maxvar, bits, s, i);
      }
    }
  }

  lemma TrueIgnores(i: nat)
    ensures Ignores(TRUE, i)
  {
  }

  /** An unused row is off in all solutions, or the constraint was replaced by true. */
  lemma BuiltSparse(b: Bdd, e: Expr, layout: Layout, members: seq<Ext>, maxvar: nat, bits: nat, i: nat)
    requires Built(b, e, layout, members, maxvar, bits) && !AllSparseClear(layout, members, maxvar, bits, {i})
    ensures Ignores(b, i) || KeepsOff(b, i)
  {
    hide Satisfies, Canonical, Eval;
    if forall s: Assignment :: !Satisfies(e, layout, s) {
      TrueIgnores(i);
    } else {
      forall s: Assignment | Eval(b, s) ensures i !in s {
        assert AllSparseClear(layout, members, maxvar, bits, s);
        if i in s { SparseAntitone(layout, members, maxvar, bits, s, {i}); }
      }
    }
  }

  /** Every variable of a built diagram is settled. */
  lemma BuiltSettled(b: Bdd, e: Expr, layout: Layout, members: seq<Ext>, xs: set<Ext>, maxvar: nat, bits: nat, n: nat)
    requires ObjectLayout(layout, members, xs, maxvar, bits) && Exts(e) <= xs && Built(b, e, layout, members, maxvar, bits)
    ensures Settled(b, FieldBits(layout, xs), n)
  {
    InterleavedKeys(layout, xs, maxvar);
    hide Built, FieldBits, Ignores, KeepsOff, Interleaved, AllSparseClear;
    forall i: nat | i !in FieldBits(layout, xs) ensures Ignores(b, i) || KeepsOff(b, i) {
      if AllSparseClear(layout, members, maxvar, bits, {i}) {
        BuiltIgnores(b, e, layout, members, xs, maxvar, bits, i);
      } else {
        BuiltSparse(b, e, layout, members, maxvar, bits, i);
      }
    }
  }

  lemma JoinedSettles(b: Bdd, bh: Bdd, bs: Bdd, i: nat)
    requires Joined(b, bh, bs) && (Ignores(bh, i) || KeepsOff(bh, i)) && (Ignores(bs, i) || KeepsOff(bs, i))
    ensures Ignores(b, i) || KeepsOff(b, i)
  {
    hide Eval, Canonical;
    if b != bh {
      if KeepsOff(bh, i) || KeepsOff(bs, i) {
        assert KeepsOff(b, i);
      } else {
        assert Ignores(b, i);
      }
    }
  }

  /** Joining keeps that. */
  lemma JoinedSettled(b: Bdd, bh: Bdd, bs: Bdd, bits: set<nat>, n: nat)
    requires Joined(b, bh, bs) && Settled(bh, bits, n) && Settled(bs, bits, n)
    ensures Settled(b, bits, n)
  {
    hide Joined, Ignores, KeepsOff;
    forall i: nat | i < n && i !in bits ensures Ignores(b, i) || KeepsOff(b, i) { JoinedSettles(b, bh, bs, i); }
  }
}

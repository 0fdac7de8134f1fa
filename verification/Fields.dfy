/** The fields of a constraint object as bits of an assignment: encoding values into assignments and
    reading them back, and diagrams that are about the fields only. */
module Fields {
  import opened Bdds
  import opened Words
  import opened Circuits
  import opened Expressions
  import opened Exactness
  import opened Compiler

  /** The diagram variables of the fields. */
  ghost function FieldBits(layout: Layout, xs: set<Ext>): set<nat> {
    set x, i | x in xs && x in layout && 0 <= i < |layout[x].bits| :: BitIndex(layout[x], i)
  }

  /** The assignment that gives every field its value and leaves all other variables false. */
  ghost function Encode(layout: Layout, xs: set<Ext>, val: Valuation): Assignment {
    set x, i | x in xs && x in layout && 0 <= i < |layout[x].bits| && BitOf(Lookup(val, x), i) :: BitIndex(layout[x], i)
  }

  predicate InWidth(xs: set<Ext>, val: Valuation) {
    forall x | x in xs :: x in val && val[x] < Pow2(VecSize(x))
  }

  /** A vector whose bits are the bits of a number denotes it. */
  lemma {:induction false} ValFromBits(v: seq<Bdd>, s: Assignment, value: nat, k: nat)
    requires k <= |v| && forall i | 0 <= i < k :: Eval(v[i], s) == BitOf(value, i)
    ensures Val(v[..k], s) == LowPart(value, k)
  {
    if k > 0 {
      ValFromBits(v, s, value, k - 1);
      ValPrefixStep(v, k - 1, s);
      ModStep(value, k - 1);
    }
  }

  /** The bits of a field under an assignment. */
  lemma FieldBit(layout: Layout, x: Ext, i: nat, s: Assignment)
    requires ValidLayout(layout) && x in layout && i < |layout[x].bits|
    ensures Eval(layout[x].bits[i], s) <==> BitIndex(layout[x], i) in s
  {
    assert layout[x].bits[i] == Variable(BitIndex(layout[x], i));
  }

  lemma EncodeBit(layout: Layout, xs: set<Ext>, n: nat, val: Valuation, x: Ext, i: nat)
    requires ValidLayout(layout) && Interleaved(layout, xs, n) && x in xs && i < |layout[x].bits|
    ensures BitIndex(layout[x], i) in Encode(layout, xs, val) <==> BitOf(Lookup(val, x), i)
  {
    if BitIndex(layout[x], i) in Encode(layout, xs, val) {
      var y, j :| y in xs && y in layout && 0 <= j < |layout[y].bits| && BitOf(Lookup(val, y), j)
               && BitIndex(layout[y], j) == BitIndex(layout[x], i);
      BitIndexInjective(layout, xs, n, x, i, y, j);
    }
  }

  /** Reading back an encoded valuation. */
  lemma EncodeDecode(layout: Layout, xs: set<Ext>, n: nat, val: Valuation, x: Ext)
    requires ValidLayout(layout) && Interleaved(layout, xs, n) && x in xs && InWidth(xs, val)
    ensures Val(layout[x].bits, Encode(layout, xs, val)) == val[x]
  {
    var v, s := layout[x].bits, Encode(layout, xs, val);
    forall i | 0 <= i < |v| ensures Eval(v[i], s) == BitOf(val[x], i) {
      FieldBit(layout, x, i, s);
      EncodeBit(layout, xs, n, val, x, i);
    }
    ValFromBits(v, s, val[x], |v|);
    assert v[..|v|] == v;
    LowPartSmall(val[x], |v|);
  }

  /** Two assignments that agree on the bits of a field give it the same value. */
  lemma {:induction false} SameBitsSameValue(v: seq<Bdd>, s: Assignment, s': Assignment)
    requires forall i | 0 <= i < |v| :: Eval(v[i], s) == Eval(v[i], s')
    ensures Val(v, s) == Val(v, s')
  {
    if |v| > 0 {
      SameBitsSameValue(v[..|v| - 1], s, s');
    }
  }

  lemma FieldValueAgrees(layout: Layout, x: Ext, s: Assignment, s': Assignment)
    requires ValidLayout(layout) && x in layout
    requires forall i: nat | i < |layout[x].bits| :: BitIndex(layout[x], i) in s <==> BitIndex(layout[x], i) in s'
    ensures Val(layout[x].bits, s) == Val(layout[x].bits, s')
  {
    forall i: nat | i < |layout[x].bits| ensures Eval(layout[x].bits[i], s) == Eval(layout[x].bits[i], s') {
      FieldBit(layout, x, i, s);
      FieldBit(layout, x, i, s');
    }
    SameBitsSameValue(layout[x].bits, s, s');
  }

  /** An assignment cut down to the fields is the encoding of the values it gives them. */
  lemma EncodeOfValues(layout: Layout, xs: set<Ext>, n: nat, s: Assignment, val: Valuation)
    requires ValidLayout(layout) && Interleaved(layout, xs, n)
    requires forall x | x in xs :: x in val && val[x] == Val(layout[x].bits, s)
    ensures Encode(layout, xs, val) == s * FieldBits(layout, xs)
  {
    forall x, i: nat | x in xs && i < |layout[x].bits|
      ensures BitIndex(layout[x], i) in s <==> BitOf(Lookup(val, x), i)
    {
      FieldBit(layout, x, i, s);
      ValPrefix(layout[x].bits, i, s);
    }
  }

  /** Switching off every variable that is not a field bit keeps a solution a solution. */
  ghost predicate Confined(t: Bdd, layout: Layout, xs: set<Ext>) {
    forall s: Assignment | Eval(t, s) :: Eval(t, s * FieldBits(layout, xs))
  }

  lemma ValueOnFieldBits(layout: Layout, xs: set<Ext>, x: Ext, s: Assignment)
    requires ValidLayout(layout) && x in xs && x in layout
    ensures Val(layout[x].bits, s * FieldBits(layout, xs)) == Val(layout[x].bits, s)
  {
    forall i: nat | i < |layout[x].bits|
      ensures BitIndex(layout[x], i) in s * FieldBits(layout, xs) <==> BitIndex(layout[x], i) in s
    {
    }
    FieldValueAgrees(layout, x, s * FieldBits(layout, xs), s);
  }
}

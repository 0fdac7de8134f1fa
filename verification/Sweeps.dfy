/** The list algorithms behind `merge` and `keepOnly` of a value list, on values. */
module Sweeps {
  import opened Intervals

  // ---------------------------------------------------------------- two-pointer intersection

  /** Before looking at `a[i]` and `b[j]`: everything emitted lies in both lists and below one of the two,
      and every common value of an interval already passed has been emitted. */
  ghost predicate Swept(out: seq<Interval>, a: seq<Interval>, b: seq<Interval>, i: nat, j: nat, M: nat) {
    && Ordered(out, M)
    && (forall v: nat | Covers(out, v) :: Covers(a, v) && Covers(b, v))
    && (forall k | 0 <= k < |out| :: (i < |a| && j < |b|) ==> out[k].hi < a[i].lo || out[k].hi < b[j].lo)
    && forall p, q, v: nat | 0 <= p < |a| && 0 <= q < |b| && (p < i || q < j) && In(a[p], v) && In(b[q], v) :: Covers(out, v)
  }

  lemma SweepStart(a: seq<Interval>, b: seq<Interval>, M: nat)
    ensures Swept([], a, b, 0, 0, M)
  {
  }

  /** Emitting the overlap of the two current intervals. */
  lemma SweepEmit(out: seq<Interval>, a: seq<Interval>, b: seq<Interval>, i: nat, j: nat, M: nat, out': seq<Interval>)
    requires Ordered(a, M) && Ordered(b, M) && i < |a| && j < |b| && Swept(out, a, b, i, j, M)
    requires out' == if Overlap(a[i], b[j]) then out + [Intersect(a[i], b[j])] else out
    ensures Ordered(out', M)
    ensures forall v: nat :: Covers(out', v) <==> Covers(out, v) || (In(a[i], v) && In(b[j], v))
    ensures forall k | 0 <= k < |out'| :: out'[k].hi < a[i].lo || out'[k].hi < b[j].lo || (out'[k].hi <= a[i].hi && out'[k].hi <= b[j].hi)
  {
    if Overlap(a[i], b[j]) {
      OrderedAppend(out, Intersect(a[i], b[j]), M);
    } else {
      assert forall v: nat | In(a[i], v) :: !In(b[j], v);
    }
  }

  /** Then the pointer at the interval that ends first moves on. */
  lemma SweepStep(out: seq<Interval>, a: seq<Interval>, b: seq<Interval>, i: nat, j: nat, M: nat, out': seq<Interval>, i': nat, j': nat)
    requires Ordered(a, M) && Ordered(b, M) && i < |a| && j < |b| && Swept(out, a, b, i, j, M)
    requires out' == if Overlap(a[i], b[j]) then out + [Intersect(a[i], b[j])] else out
    requires if a[i].hi < b[j].hi then i' == i + 1 && j' == j else i' == i && j' == j + 1
    ensures Swept(out', a, b, i', j', M)
  {
    hide Overlap, Intersect, Proper, Ordered, Covers, In;
    SweepEmit(out, a, b, i, j, M, out');
    SweepComplete(out, a, b, i, j, M, out', i', j');
    SweepBounds(a, b, i, j, M, out', i', j');
    SweepCovers(out, a, b, i, j, M, out');
  }

  lemma SweepCovers(out: seq<Interval>, a: seq<Interval>, b: seq<Interval>, i: nat, j: nat, M: nat, out': seq<Interval>)
    requires i < |a| && j < |b| && Swept(out, a, b, i, j, M)
    requires forall v: nat :: Covers(out', v) <==> Covers(out, v) || (In(a[i], v) && In(b[j], v))
    ensures forall v: nat | Covers(out', v) :: Covers(a, v) && Covers(b, v)
  {
    hide Ordered, In;
  }

  lemma SweepBounds(a: seq<Interval>, b: seq<Interval>, i: nat, j: nat, M: nat, out': seq<Interval>, i': nat, j': nat)
    requires Ordered(a, M) && Ordered(b, M) && i < |a| && j < |b|
    requires forall k | 0 <= k < |out'| :: out'[k].hi < a[i].lo || out'[k].hi < b[j].lo || (out'[k].hi <= a[i].hi && out'[k].hi <= b[j].hi)
    requires if a[i].hi < b[j].hi then i' == i + 1 && j' == j else i' == i && j' == j + 1
    ensures forall k | 0 <= k < |out'| :: (i' < |a| && j' < |b|) ==> out'[k].hi < a[i'].lo || out'[k].hi < b[j'].lo
  {
  }

  lemma SweepComplete(out: seq<Interval>, a: seq<Interval>, b: seq<Interval>, i: nat, j: nat, M: nat, out': seq<Interval>, i': nat, j': nat)
    requires Ordered(a, M) && Ordered(b, M) && i < |a| && j < |b| && Swept(out, a, b, i, j, M)
    requires forall v: nat :: Covers(out', v) <==> Covers(out, v) || (In(a[i], v) && In(b[j], v))
    requires if a[i].hi < b[j].hi then i' == i + 1 && j' == j else i' == i && j' == j + 1
    ensures forall p, q, v: nat | 0 <= p < |a| && 0 <= q < |b| && (p < i' || q < j') && In(a[p], v) && In(b[q], v) :: Covers(out', v)
  {
    hide Covers, Proper;
    forall p, q, v: nat | 0 <= p < |a| && 0 <= q < |b| && (p < i' || q < j') && In(a[p], v) && In(b[q], v)
      ensures Covers(out', v)
    {
    }
  }

  lemma SweepEnd(out: seq<Interval>, a: seq<Interval>, b: seq<Interval>, i: nat, j: nat, M: nat)
    requires Swept(out, a, b, i, j, M) && (i >= |a| || j >= |b|)
    ensures Ordered(out, M)
    ensures forall v: nat :: Covers(out, v) <==> Covers(a, v) && Covers(b, v)
  {
    forall v: nat | Covers(a, v) && Covers(b, v) ensures Covers(out, v) {
      var p :| 0 <= p < |a| && In(a[p], v);
      var q :| 0 <= q < |b| && In(b[q], v);
    }
  }

  // ---------------------------------------------------------------- a list of single values

  /** The position before the first interval that starts above `v`. */
  function Place(s: seq<Interval>, v: nat): (k: nat)
    ensures k <= |s| && (forall j | 0 <= j < k :: s[j].lo <= v) && (k < |s| ==> s[k].lo > v)
  {
    if s == [] || s[0].lo > v then 0 else 1 + Place(s[1..], v)
  }

  function Inserted(s: seq<Interval>, v: nat): seq<Interval> {
    s[..Place(s, v)] + [Interval(false, v, v)] + s[Place(s, v)..]
  }

  /** The list `keepOnly` builds from legal values, one by one. */
  function Singles(vs: seq<nat>): seq<Interval> {
    if vs == [] then [] else Inserted(Singles(vs[..|vs| - 1]), vs[|vs| - 1])
  }

  predicate Distinct(vs: seq<nat>) {
    forall j, k | 0 <= j < k < |vs| :: vs[j] != vs[k]
  }

  /** Single values in ascending order. */
  ghost predicate Ascending(s: seq<Interval>, vs: seq<nat>) {
    && |s| == |vs|
    && (forall k | 0 <= k < |s| :: s[k].lo == s[k].hi && !s[k].empty)
    && (forall j, k | 0 <= j < k < |s| :: s[j].lo <= s[k].lo)
    && forall v: nat :: Covers(s, v) <==> v in vs
  }

  /** Where the intervals are after an insertion. */
  lemma InsertedAt(s: seq<Interval>, v: nat)
    ensures var k, r := Place(s, v), Inserted(s, v);
            && |r| == |s| + 1 && r[k] == Interval(false, v, v)
            && (forall j | 0 <= j < k :: r[j] == s[j])
            && forall j | k <= j < |s| :: r[j + 1] == s[j]
  {
  }

  lemma InsertedCovers(s: seq<Interval>, v: nat, u: nat)
    ensures Covers(Inserted(s, v), u) <==> Covers(s, u) || u == v
  {
    var k, r := Place(s, v), Inserted(s, v);
    InsertedAt(s, v);
    hide Inserted, Place;
    if Covers(s, u) {
      var j :| 0 <= j < |s| && In(s[j], u);
      if j < k { assert In(r[j], u); } else { assert In(r[j + 1], u); }
    }
    if u == v { assert In(r[k], u); }
    if Covers(r, u) && u != v {
      var j :| 0 <= j < |r| && In(r[j], u);
      if j < k { assert In(s[j], u); } else { assert In(s[j - 1], u); }
    }
  }

  lemma InsertedAscending(s: seq<Interval>, vs: seq<nat>, v: nat)
    requires Ascending(s, vs)
    ensures Ascending(Inserted(s, v), vs + [v])
  {
    var k, r := Place(s, v), Inserted(s, v);
    InsertedAt(s, v);
    forall u: nat ensures Covers(r, u) <==> u in vs + [v] { InsertedCovers(s, v, u); }
    hide Inserted, Covers;
    forall i | 0 <= i < |r| ensures r[i].lo == r[i].hi && !r[i].empty {
      if i > k { assert r[i] == s[i - 1]; }
    }
    forall i, j | 0 <= i < j < |r| ensures r[i].lo <= r[j].lo { InsertedOrder(s, vs, v, i, j); }
  }

  lemma InsertedOrder(s: seq<Interval>, vs: seq<nat>, v: nat, i: nat, j: nat)
    requires Ascending(s, vs) && i < j < |Inserted(s, v)|
    ensures Inserted(s, v)[i].lo <= Inserted(s, v)[j].lo
  {
    var k, r := Place(s, v), Inserted(s, v);
    InsertedAt(s, v);
    hide Inserted, Covers;
    if i > k { assert r[i] == s[i - 1]; }
    if j > k { assert r[j] == s[j - 1]; }
  }

  lemma {:induction false} SinglesAscending(vs: seq<nat>)
    ensures Ascending(Singles(vs), vs)
  {
    if vs == [] {
      NothingCovered();
    } else {
      SinglesAscending(vs[..|vs| - 1]);
      InsertedAscending(Singles(vs[..|vs| - 1]), vs[..|vs| - 1], vs[|vs| - 1]);
      assert vs == vs[..|vs| - 1] + [vs[|vs| - 1]];
    }
  }

  ghost function Values(s: seq<Interval>): (r: set<nat>) {
    set k | 0 <= k < |s| :: s[k].lo
  }

  lemma {:induction false} StrictSize(s: seq<Interval>)
    requires forall j, k | 0 <= j < k < |s| :: s[j].lo < s[k].lo
    ensures |Values(s)| == |s|
  {
    if s != [] {
      var init, last := s[..|s| - 1], s[|s| - 1];
      StrictSize(init);
      assert s == init + [last];
      ValuesAppend(init, last);
      assert last.lo !in Values(init);
    }
  }

  lemma ValuesAppend(s: seq<Interval>, i: Interval)
    ensures Values(s + [i]) == Values(s) + {i.lo}
  {
    var r := s + [i];
    forall v | v in Values(s) ensures v in Values(r) {
      var k :| 0 <= k < |s| && s[k].lo == v;
      assert r[k].lo == v;
    }
    assert r[|s|].lo == i.lo;
  }

  ghost function Elements(vs: seq<nat>): (r: set<nat>)
    ensures forall v :: v in r <==> v in vs
  {
    set v | v in vs
  }

  lemma {:induction false} DistinctSize(vs: seq<nat>)
    ensures |Elements(vs)| <= |vs|
    ensures |Elements(vs)| == |vs| <==> Distinct(vs)
  {
    if vs != [] {
      var init, last := vs[..|vs| - 1], vs[|vs| - 1];
      DistinctSize(init);
      assert Elements(vs) == Elements(init) + {last};
      if last in init {
        var k :| 0 <= k < |init| && init[k] == last;
        assert vs[k] == vs[|vs| - 1];
        assert Elements(vs) == Elements(init);
      } else {
        assert Distinct(init) <==> Distinct(vs);
      }
    }
  }

  /** The built list is a proper one exactly when no value occurs twice. */
  lemma SinglesOrderedIff(vs: seq<nat>, M: nat)
    requires forall v | v in vs :: v < M
    ensures forall v: nat :: Covers(Singles(vs), v) <==> v in vs
    ensures Ordered(Singles(vs), M) <==> Distinct(vs)
  {
    var s := Singles(vs);
    SinglesAscending(vs);
    forall k | 0 <= k < |s| ensures Proper(s[k], M) { assert In(s[k], s[k].lo) && Covers(s, s[k].lo); }
    DistinctSize(vs);
    SameValues(s, vs);
    if Ordered(s, M) {
      StrictSize(s);
    } else {
      var j, k :| 0 <= j < k < |s| && s[j].hi >= s[k].lo;
      RepeatedSize(s, j, k);
    }
  }

  lemma SameValues(s: seq<Interval>, vs: seq<nat>)
    requires Ascending(s, vs)
    ensures Values(s) == Elements(vs)
  {
    forall v | v in Values(s) ensures v in vs {
      var k :| 0 <= k < |s| && s[k].lo == v;
      assert In(s[k], v) && Covers(s, v);
    }
    forall v | v in vs ensures v in Values(s) {
      assert Covers(s, v);
      var k :| 0 <= k < |s| && In(s[k], v);
    }
  }

  lemma RepeatedSize(s: seq<Interval>, j: nat, k: nat)
    requires j < k < |s| && s[j].lo == s[k].lo
    ensures |Values(s)| < |s|
  {
    var t := s[..j] + s[j + 1..];
    ValuesBound(t);
    assert Values(s) <= Values(t) by {
      forall v | v in Values(s) ensures v in Values(t) {
        var i :| 0 <= i < |s| && s[i].lo == v;
        var i' := if i < j then i else if i == j then k - 1 else i - 1;
        assert t[i'].lo == v;
      }
    }
    SubsetSize(Values(s), Values(t));
  }

  lemma {:induction false} ValuesBound(s: seq<Interval>)
    ensures |Values(s)| <= |s|
  {
    if s != [] {
      var init, last := s[..|s| - 1], s[|s| - 1];
      ValuesBound(init);
      assert s == init + [last];
      ValuesAppend(init, last);
    }
  }
}

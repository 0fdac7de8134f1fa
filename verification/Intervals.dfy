/** Closed intervals over the unsigned integers below a modulus `M`, and ordered lists of them. Bound
    arithmetic wraps around as in the source; a size of 0 means empty or the whole domain. */
module Intervals {
  import opened Words

  datatype Interval = Interval(empty: bool, lo: nat, hi: nat)

  /** The constructor with bounds. */
  function Bounds(lb: nat, ub: nat): Interval {
    Interval(ub < lb, lb, ub)
  }

  predicate In(i: Interval, v: nat) {
    !i.empty && i.lo <= v <= i.hi
  }

  /** An interval of the domain; an empty one keeps whatever bounds it has. */
  predicate Proper(i: Interval, M: nat) {
    i.lo < M && i.hi < M && (!i.empty ==> i.lo <= i.hi)
  }

  function Size(i: Interval, M: nat): nat
    requires M > 0
  {
    if i.empty then 0 else (i.hi - i.lo + 1) % M
  }

  function Position(i: Interval, v: nat): (p: int)
    ensures p == 0 <==> In(i, v)
    ensures p < 0 <==> !i.empty && v < i.lo
  {
    if i.empty then 1 else if v < i.lo then -1 else if v > i.hi then 1 else 0
  }

  predicate Contain(a: Interval, b: Interval)
    ensures !b.empty && b.lo <= b.hi ==> (Contain(a, b) <==> forall v: nat | In(b, v) :: In(a, v))
  {
    assert !b.empty && b.lo <= b.hi ==> In(b, b.lo) && In(b, b.hi);
    if a.empty then false else if b.empty then true else b.hi <= a.hi && b.lo >= a.lo
  }

  predicate Overlap(a: Interval, b: Interval)
    ensures (!a.empty ==> a.lo <= a.hi) && (!b.empty ==> b.lo <= b.hi) ==> (Overlap(a, b) <==> exists v: nat :: In(a, v) && In(b, v))
  {
    assert !a.empty && !b.empty && a.lo <= a.hi && b.lo <= b.hi && a.lo <= b.hi && a.hi >= b.lo ==>
      (if a.lo <= b.lo then In(a, b.lo) && In(b, b.lo) else In(a, a.lo) && In(b, a.lo));
    !a.empty && !b.empty && !(a.lo > b.hi) && !(a.hi < b.lo)
  }

  function Intersect(a: Interval, b: Interval): (r: Interval)
    ensures forall v: nat :: In(r, v) <==> In(a, v) && In(b, v)
    ensures forall M: nat :: Proper(a, M) && Proper(b, M) ==> Proper(r, M)
  {
    if !Overlap(a, b) then a.(empty := true)
    else Interval(a.empty, if a.lo < b.lo then b.lo else a.lo, if a.hi > b.hi then b.hi else a.hi)
  }

  predicate Subtractable(a: Interval, b: Interval) {
    a.empty || b.empty || !(b.lo > a.lo && b.hi < a.hi)
  }

  /** `subtract`: each bound may wrap around the domain, which is then noticed and makes the result empty. */
  function Subtract(a: Interval, b: Interval, M: nat): (r: Interval)
    requires M >= 2 && Proper(a, M) && Proper(b, M) && Subtractable(a, b)
    ensures Proper(r, M)
    ensures forall v: nat :: In(r, v) <==> In(a, v) && !In(b, v)
  {
    if a.empty || b.empty then a
    else
      var cutLow, cutHigh := b.lo <= a.lo <= b.hi, b.lo <= a.hi <= b.hi;
      var lo := if cutLow then Successor(b.hi, M) else a.lo;
      var over := cutLow && lo < b.hi;
      var hi := if cutHigh then Predecessor(b.lo, M) else a.hi;
      var under := cutHigh && b.lo < hi;
      Interval(over || under || hi < lo, lo, hi)
  }

  /** One more and one less, as machine arithmetic has it. */
  function Successor(v: nat, M: nat): (r: nat)
    requires v < M
    ensures r == if v + 1 == M then 0 else v + 1
  {
    DivModUnique(v + 1, M, if v + 1 == M then 1 else 0, if v + 1 == M then 0 else v + 1);
    (v + 1) % M
  }

  function Predecessor(v: nat, M: nat): (r: nat)
    requires v < M
    ensures r == if v == 0 then M - 1 else v - 1
  {
    DivModUnique(v + M - 1, M, if v == 0 then 0 else 1, if v == 0 then M - 1 else v - 1);
    (v + M - 1) % M
  }

  lemma LessThanModulus(v: nat, M: nat)
    requires v < M
    ensures v % M == v
  {
  }

  // ---------------------------------------------------------------- lists

  /** Some interval of the list has the value. */
  ghost predicate Covers(s: seq<Interval>, v: nat) {
    exists k :: 0 <= k < |s| && In(s[k], v)
  }

  /** Non-empty intervals of the domain in ascending order, disjoint. */
  predicate Ordered(s: seq<Interval>, M: nat) {
    && (forall k | 0 <= k < |s| :: !s[k].empty && Proper(s[k], M))
    && forall j, k | 0 <= j < k < |s| :: s[j].hi < s[k].lo
  }

  /** Everything in the list is below `b`. */
  predicate AllBelow(s: seq<Interval>, b: nat) {
    forall k | 0 <= k < |s| :: s[k].hi < b
  }

  lemma OrderedAppend(s: seq<Interval>, i: Interval, M: nat)
    requires Ordered(s, M) && !i.empty && Proper(i, M) && AllBelow(s, i.lo)
    ensures Ordered(s + [i], M)
    ensures forall v: nat :: Covers(s + [i], v) <==> Covers(s, v) || In(i, v)
  {
    CoversAppend(s, i);
  }

  lemma CoversAppend(s: seq<Interval>, i: Interval)
    ensures forall v: nat :: Covers(s + [i], v) <==> Covers(s, v) || In(i, v)
  {
    forall v: nat ensures Covers(s + [i], v) <==> Covers(s, v) || In(i, v) {
      if Covers(s, v) {
        var k :| 0 <= k < |s| && In(s[k], v);
        assert In((s + [i])[k], v);
      }
      if In(i, v) { assert In((s + [i])[|s|], v); }
    }
  }

  /** The legal values of a list. */
  ghost function Legal(s: seq<Interval>, M: nat): set<nat> {
    set v: nat | v < M && Covers(s, v)
  }

  /** The number of values, without wrap-around. */
  function Total(s: seq<Interval>): nat
    requires forall k | 0 <= k < |s| :: s[k].lo <= s[k].hi
  {
    if s == [] then 0 else Total(s[..|s| - 1]) + (s[|s| - 1].hi - s[|s| - 1].lo + 1)
  }

  ghost function Between(lo: nat, hi: nat): (r: set<nat>) {
    set v: nat | lo <= v <= hi && In(Interval(false, lo, hi), v)
  }

  lemma {:induction false} BetweenSize(lo: nat, hi: nat)
    requires lo <= hi
    ensures |Between(lo, hi)| == hi - lo + 1
    decreases hi - lo
  {
    if lo == hi {
      assert Between(lo, hi) == {lo};
    } else {
      BetweenSize(lo, hi - 1);
      assert Between(lo, hi) == Between(lo, hi - 1) + {hi};
    }
  }

  /** The legal values of an ordered list are as many as the sizes add up to. */
  lemma {:induction false} LegalSize(s: seq<Interval>, M: nat)
    requires Ordered(s, M)
    ensures |Legal(s, M)| == Total(s)
  {
    if s == [] {
      assert Legal(s, M) == {};
    } else {
      var init, last := s[..|s| - 1], s[|s| - 1];
      LegalSize(init, M);
      BetweenSize(last.lo, last.hi);
      assert s == init + [last];
      CoversAppend(init, last);
      assert Legal(s, M) == Legal(init, M) + Between(last.lo, last.hi);
      assert Legal(init, M) !! Between(last.lo, last.hi);
    }
  }

  /** What the summed sizes, wrapping around, say: 0 exactly for the whole domain. */
  lemma ZeroSizeIffFull(s: seq<Interval>, M: nat)
    requires M > 0 && Ordered(s, M) && s != []
    ensures 0 < Total(s) <= M
    ensures Total(s) % M == 0 <==> forall v: nat | v < M :: Covers(s, v)
  {
    hide Covers;
    LegalSize(s, M);
    BetweenSize(0, M - 1);
    var domain := Between(0, M - 1);
    assert Legal(s, M) <= domain;
    SubsetSize(Legal(s, M), domain);
    TotalPositive(s, M);
    ZeroOrFull(Total(s), M);
    if Total(s) == M {
      forall v: nat | v < M ensures Covers(s, v) { assert v in domain; }
    } else {
      var v :| v in domain && v !in Legal(s, M);
    }
  }

  lemma TotalPositive(s: seq<Interval>, M: nat)
    requires Ordered(s, M) && s != []
    ensures Total(s) > 0
  {
  }

  lemma ZeroOrFull(n: nat, M: nat)
    requires 0 < n <= M
    ensures n % M == 0 <==> n == M
  {
    if n < M { LessThanModulus(n, M); }
  }

  lemma {:induction false} SubsetSize<T>(a: set<T>, b: set<T>)
    requires a <= b
    ensures |a| <= |b|
    ensures |a| == |b| <==> a == b
  {
    assert |b| == |a| + |b - a| by { assert b == a + (b - a); }
    if |b - a| == 0 { assert b - a == {}; }
  }

  /** An interval whose bounds are the wrong way round is empty, but its list reads as the whole domain. */
  lemma ReversedBoundsReadAsFull(lb: nat, ub: nat, M: nat)
    requires M > 0
    ensures Size(Bounds(lb, ub), M) == 0 && (forall v: nat :: !Covers([Bounds(lb, ub)], v)) <==> ub < lb
  {
    var s := [Bounds(lb, ub)];
    if lb <= ub {
      assert In(s[0], lb) && Covers(s, lb);
    }
  }

  // ---------------------------------------------------------------- rank

  /** The value of rank `k`: the intervals laid end to end. */
  function Nth(s: seq<Interval>, k: nat): (v: nat)
    requires (forall j | 0 <= j < |s| :: s[j].lo <= s[j].hi) && k < Total(s)
  {
    var init, last := s[..|s| - 1], s[|s| - 1];
    if k < Total(init) then Nth(init, k) else last.lo + (k - Total(init))
  }

  lemma {:induction false} NthLegal(s: seq<Interval>, k: nat, M: nat)
    requires Ordered(s, M) && k < Total(s)
    ensures Nth(s, k) < M && Covers(s, Nth(s, k))
  {
    var init, last := s[..|s| - 1], s[|s| - 1];
    assert s == init + [last];
    CoversAppend(init, last);
    if k < Total(init) { NthLegal(init, k, M); }
  }

  /** Ranks and values are in the same order. */
  lemma {:induction false} NthMonotone(s: seq<Interval>, j: nat, k: nat, M: nat)
    requires Ordered(s, M) && j < k < Total(s)
    ensures Nth(s, j) < Nth(s, k)
  {
    var init, last := s[..|s| - 1], s[|s| - 1];
    if k < Total(init) {
      NthMonotone(init, j, k, M);
    } else if j < Total(init) {
      NthLegal(init, j, M);
    }
  }

  /** Every legal value has a rank. */
  lemma {:induction false} RankExists(s: seq<Interval>, v: nat, M: nat) returns (k: nat)
    requires Ordered(s, M) && Covers(s, v)
    ensures k < Total(s) && Nth(s, k) == v
  {
    var init, last := s[..|s| - 1], s[|s| - 1];
    assert s == init + [last];
    CoversAppend(init, last);
    if In(last, v) {
      k := Total(init) + (v - last.lo);
    } else {
      k := RankExists(init, v, M);
    }
  }

  /** The elements below `v`. */
  ghost function Smaller(vs: set<nat>, v: nat): set<nat> {
    set u | u in vs && u < v
  }

  /** The value of rank `k` has exactly `k` legal values below it. */
  lemma {:induction false} NthHasRank(s: seq<Interval>, k: nat, M: nat)
    requires Ordered(s, M) && k < Total(s)
    ensures |Smaller(Legal(s, M), Nth(s, k))| == k
  {
    hide Covers, Nth, Total;
    var v := Nth(s, k);
    if k == 0 {
      forall u | u in Legal(s, M) ensures u >= v { var j := RankExists(s, u, M); if j > 0 { NthMonotone(s, 0, j, M); } }
      assert Smaller(Legal(s, M), v) == {};
    } else {
      var w := Nth(s, k - 1);
      NthHasRank(s, k - 1, M);
      NthMonotone(s, k - 1, k, M);
      NthLegal(s, k - 1, M);
      forall u | u in Legal(s, M) && w < u ensures u >= v { BetweenRanks(s, k, u, M); }
      assert Smaller(Legal(s, M), v) == Smaller(Legal(s, M), w) + {w};
    }
  }

  lemma BetweenRanks(s: seq<Interval>, k: nat, u: nat, M: nat)
    requires Ordered(s, M) && 0 < k < Total(s) && Covers(s, u) && Nth(s, k - 1) < u
    ensures u >= Nth(s, k)
  {
    hide Covers, Nth, Total;
    var j := RankExists(s, u, M);
    if j < k - 1 { NthMonotone(s, j, k - 1, M); }
    if j > k { NthMonotone(s, k, j, M); }
  }

  /** Each legal value is the value of exactly one rank. */
  lemma RankIsBijection(s: seq<Interval>, v: nat, M: nat)
    requires Ordered(s, M) && v < M
    ensures Covers(s, v) <==> exists k: nat :: k < Total(s) && Nth(s, k) == v
    ensures forall j: nat, k: nat | j < Total(s) && k < Total(s) && Nth(s, j) == Nth(s, k) :: j == k
  {
    if Covers(s, v) {
      var k := RankExists(s, v, M);
    }
    forall k: nat | k < Total(s) ensures Covers(s, Nth(s, k)) { NthLegal(s, k, M); }
    forall j: nat, k: nat | j < k < Total(s) ensures Nth(s, j) != Nth(s, k) { NthMonotone(s, j, k, M); }
  }

  // ---------------------------------------------------------------- keeping and removing

  /** `keepOnly` on the list: the overlapping intervals, cut to `b`. */
  function KeptIn(s: seq<Interval>, b: Interval): seq<Interval> {
    if s == [] then []
    else
      var last := s[|s| - 1];
      KeptIn(s[..|s| - 1], b) + (if Overlap(last, b) then [Intersect(last, b)] else [])
  }

  /** What `keepOut` leaves of one interval: two pieces around a contained `b`, otherwise the difference. */
  function Pieces(i: Interval, b: Interval, M: nat): (r: seq<Interval>)
    requires M >= 2 && Proper(i, M) && Proper(b, M)
  {
    if Contain(i, b) then
      (if i.lo < b.lo then [Bounds(i.lo, Predecessor(b.lo, M))] else []) +
      (if i.hi > b.hi then [Bounds(Successor(b.hi, M), i.hi)] else [])
    else
      var r := if Subtractable(i, b) then Subtract(i, b, M) else i;
      if r.empty then [] else [r]
  }

  /** `keepOut` on the list. */
  function KeptOut(s: seq<Interval>, b: Interval, M: nat): seq<Interval>
    requires M >= 2 && Proper(b, M) && forall k | 0 <= k < |s| :: Proper(s[k], M)
  {
    if s == [] then [] else KeptOut(s[..|s| - 1], b, M) + Pieces(s[|s| - 1], b, M)
  }

  lemma {:induction false} KeptInExact(s: seq<Interval>, b: Interval, M: nat)
    requires Ordered(s, M) && Proper(b, M)
    ensures Ordered(KeptIn(s, b), M) && (s != [] ==> AllBelow(KeptIn(s, b), s[|s| - 1].hi + 1))
    ensures forall v: nat :: Covers(KeptIn(s, b), v) <==> Covers(s, v) && In(b, v)
  {
    hide Covers;
    if s == [] {
      NothingCovered();
    } else {
      var init, last := s[..|s| - 1], s[|s| - 1];
      KeptInExact(init, b, M);
      assert s == init + [last];
      CoversAppend(init, last);
      if Overlap(last, b) {
        OrderedAppend(KeptIn(init, b), Intersect(last, b), M);
      } else {
        forall v: nat | In(last, v) ensures !In(b, v) {}
        assert KeptIn(s, b) == KeptIn(init, b);
      }
    }
  }

  lemma NothingCovered()
    ensures forall v: nat :: !Covers([], v)
  {
  }

  /** A few ascending parts of `i`, together all of `i` outside `b`. */
  ghost predicate Parts(r: seq<Interval>, i: Interval, b: Interval, M: nat) {
    && |r| <= 2 && (|r| == 2 ==> r[0].hi < r[1].lo)
    && (forall k | 0 <= k < |r| :: !r[k].empty && Proper(r[k], M) && i.lo <= r[k].lo && r[k].hi <= i.hi)
    && forall v: nat :: Covers(r, v) <==> In(i, v) && !In(b, v)
  }

  lemma CoversFew()
    ensures forall v: nat :: !Covers([], v)
    ensures forall p: Interval, v: nat :: Covers([p], v) <==> In(p, v)
    ensures forall p: Interval, q: Interval, v: nat :: Covers([p, q], v) <==> In(p, v) || In(q, v)
  {
    forall p: Interval, v: nat ensures Covers([p], v) <==> In(p, v) {
      if In(p, v) { assert In([p][0], v); }
    }
    forall p: Interval, q: Interval, v: nat ensures Covers([p, q], v) <==> In(p, v) || In(q, v) {
      if In(p, v) { assert In([p, q][0], v); }
      if In(q, v) { assert In([p, q][1], v); }
    }
  }

  /** The pieces are exactly what is left. */
  lemma PiecesExact(i: Interval, b: Interval, M: nat)
    requires M >= 2 && Proper(i, M) && !i.empty && Proper(b, M) && !b.empty
    ensures Parts(Pieces(i, b, M), i, b, M)
  {
    if Contain(i, b) {
      PiecesInside(i, b, M);
    } else {
      PiecesOutside(i, b, M);
    }
  }

  lemma PiecesInside(i: Interval, b: Interval, M: nat)
    requires M >= 2 && Proper(i, M) && !i.empty && Proper(b, M) && !b.empty
    requires Contain(i, b)
    ensures Parts(Pieces(i, b, M), i, b, M)
  {
    CoversFew();
    hide Covers;
    var low, high := Bounds(i.lo, Predecessor(b.lo, M)), Bounds(Successor(b.hi, M), i.hi);
    if i.lo < b.lo && i.hi > b.hi {
      assert Pieces(i, b, M) == [low, high];
    } else if i.lo < b.lo {
      assert Pieces(i, b, M) == [low];
    } else if i.hi > b.hi {
      assert Pieces(i, b, M) == [high];
    }
  }

  lemma PiecesOutside(i: Interval, b: Interval, M: nat)
    requires M >= 2 && Proper(i, M) && !i.empty && Proper(b, M) && !b.empty && !Contain(i, b)
    ensures Parts(Pieces(i, b, M), i, b, M)
  {
    CoversFew();
    hide Covers;
    var r := Subtract(i, b, M);
    if !r.empty { assert In(r, r.lo) && In(r, r.hi); }
  }

  lemma OrderedPieces(s: seq<Interval>, r: seq<Interval>, M: nat, lo: nat)
    requires Ordered(s, M) && AllBelow(s, lo) && |r| <= 2 && (|r| == 2 ==> r[0].hi < r[1].lo)
    requires forall k | 0 <= k < |r| :: !r[k].empty && Proper(r[k], M) && lo <= r[k].lo
    ensures Ordered(s + r, M)
    ensures forall v: nat :: Covers(s + r, v) <==> Covers(s, v) || Covers(r, v)
  {
    forall v: nat ensures Covers(s + r, v) <==> Covers(s, v) || Covers(r, v) {
      if Covers(s, v) {
        var k :| 0 <= k < |s| && In(s[k], v);
        assert In((s + r)[k], v);
      }
      if Covers(r, v) {
        var k :| 0 <= k < |r| && In(r[k], v);
        assert In((s + r)[|s| + k], v);
      }
    }
  }

  lemma {:induction false} KeptOutExact(s: seq<Interval>, b: Interval, M: nat)
    requires M >= 2 && Ordered(s, M) && Proper(b, M) && !b.empty
    ensures Ordered(KeptOut(s, b, M), M) && (s != [] ==> AllBelow(KeptOut(s, b, M), s[|s| - 1].hi + 1))
    ensures forall v: nat :: Covers(KeptOut(s, b, M), v) <==> Covers(s, v) && !In(b, v)
  {
    hide Covers, Pieces;
    if s == [] {
      NothingCovered();
    } else {
      var init, last := s[..|s| - 1], s[|s| - 1];
      KeptOutExact(init, b, M);
      assert s == init + [last];
      CoversAppend(init, last);
      PiecesExact(last, b, M);
      OrderedPieces(KeptOut(init, b, M), Pieces(last, b, M), M, last.lo);
    }
  }

  /** What bounds the wrong way round do instead: the values left are those from the least one up to below the lower
      bound, and those above the upper bound up to the greatest one, legal before or not. */
  lemma {:induction false} KeptOutReversed(s: seq<Interval>, lb: nat, ub: nat, M: nat, v: nat)
    requires M >= 2 && Ordered(s, M) && s != [] && ub < lb < M
    ensures Covers(KeptOut(s, Bounds(lb, ub), M), v) <==> s[0].lo <= v < lb || ub < v <= s[|s| - 1].hi
  {
    var b, init, last := Bounds(lb, ub), s[..|s| - 1], s[|s| - 1];
    ReversedPieces(last, lb, ub, M, v);
    hide Pieces, Covers;
    CoversUnion(KeptOut(init, b, M), Pieces(last, b, M), v);
    if init == [] {
      NothingCovered();
    } else {
      KeptOutReversed(init, lb, ub, M, v);
    }
  }

  lemma ReversedPieces(i: Interval, lb: nat, ub: nat, M: nat, v: nat)
    requires M >= 2 && Proper(i, M) && !i.empty && ub < lb < M
    ensures Covers(Pieces(i, Bounds(lb, ub), M), v) <==> i.lo <= v < lb || ub < v <= i.hi
  {
    CoversFew();
    hide Covers;
    var low, high := Bounds(i.lo, lb - 1), Bounds(ub + 1, i.hi);
    assert Pieces(i, Bounds(lb, ub), M) ==
      if i.lo < lb then (if i.hi > ub then [low, high] else [low]) else (if i.hi > ub then [high] else []);
  }

  lemma CoversUnion(s: seq<Interval>, r: seq<Interval>, v: nat)
    ensures Covers(s + r, v) <==> Covers(s, v) || Covers(r, v)
  {
    if Covers(s, v) {
      var k :| 0 <= k < |s| && In(s[k], v);
      assert In((s + r)[k], v);
    }
    if Covers(r, v) {
      var k :| 0 <= k < |r| && In(r[k], v);
      assert In((s + r)[|s| + k], v);
    }
  }

  /** `keepOut` removes exactly its bounds from every list if and only if they are the right way round. */
  lemma KeepOutExactIff(lb: nat, ub: nat, M: nat)
    requires M >= 3 && lb < M && ub < M
    ensures lb <= ub <==> forall s | Ordered(s, M) :: ExactlyWithout(KeptOut(s, Bounds(lb, ub), M), s, Bounds(lb, ub), M)
  {
    var b := Bounds(lb, ub);
    if lb <= ub {
      forall s | Ordered(s, M) ensures ExactlyWithout(KeptOut(s, b, M), s, b, M) { KeptOutExact(s, b, M); }
    } else {
      var v := if lb > ub + 1 then ub + 1 else if ub > 0 then 0 else 2;
      KeptOutSingle(v, b, M);
      DamagedSingle(lb, ub, M, v);
      assert !ExactlyWithout(KeptOut([Interval(false, v, v)], b, M), [Interval(false, v, v)], b, M);
    }
  }

  lemma KeptOutSingle(v: nat, b: Interval, M: nat)
    requires M >= 2 && v < M && Proper(b, M)
    ensures Ordered([Interval(false, v, v)], M) && KeptOut([Interval(false, v, v)], b, M) == Pieces(Interval(false, v, v), b, M)
  {
    var s := [Interval(false, v, v)];
    assert s[..0] == [];
    hide Pieces;
    assert KeptOut(s, b, M) == [] + Pieces(s[0], b, M);
  }

  /** With reversed bounds a single value becomes pieces that overlap or hold another value. */
  lemma DamagedSingle(lb: nat, ub: nat, M: nat, v: nat)
    requires M >= 3 && ub < lb < M && v == if lb > ub + 1 then ub + 1 else if ub > 0 then 0 else 2
    ensures !ExactlyWithout(Pieces(Interval(false, v, v), Bounds(lb, ub), M), [Interval(false, v, v)], Bounds(lb, ub), M)
  {
    var i := Interval(false, v, v);
    var r := Pieces(i, Bounds(lb, ub), M);
    if lb > ub + 1 {
      assert r[0].hi >= r[1].lo;
    } else {
      SingleCovers(i);
      var w := if ub > 0 then ub else 1;
      assert In(r[0], w) && Covers(r, w) && !In(i, w);
    }
  }

  lemma SingleCovers(i: Interval)
    ensures forall v: nat :: Covers([i], v) <==> In(i, v)
  {
    CoversFew();
  }

  ghost predicate ExactlyWithout(r: seq<Interval>, s: seq<Interval>, b: Interval, M: nat) {
    Ordered(r, M) && forall v: nat :: Covers(r, v) <==> Covers(s, v) && !In(b, v)
  }
}

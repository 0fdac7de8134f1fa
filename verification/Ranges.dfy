/** The interval-list constraint over 32-bit unsigned values: an ordered list of disjoint intervals,
    edited in place. */
module Ranges {
  import opened Words
  import opened Randomness
  import opened Intervals
  import opened Scans
  import opened Sweeps

  /** The elements of `l` the list covers, in order. */
  ghost function LegalPart(l: seq<nat>, s: seq<Interval>): seq<nat> {
    if l == [] then [] else LegalPart(l[..|l| - 1], s) + (if Covers(s, l[|l| - 1]) then [l[|l| - 1]] else [])
  }

  lemma {:induction false} LegalPartElements(l: seq<nat>, s: seq<Interval>)
    ensures forall v: nat :: v in LegalPart(l, s) <==> v in l && Covers(s, v)
  {
    hide Covers;
    if l != [] {
      LegalPartElements(l[..|l| - 1], s);
      assert l == l[..|l| - 1] + [l[|l| - 1]];
    }
  }

  lemma LegalPartStep(l: seq<nat>, s: seq<Interval>, i: nat)
    requires i < |l|
    ensures LegalPart(l[..i + 1], s) == LegalPart(l[..i], s) + (if Covers(s, l[i]) then [l[i]] else [])
  {
    assert l[..i + 1][..i] == l[..i];
  }

  lemma KeptInStep(s: seq<Interval>, b: Interval, n: nat)
    requires n < |s|
    ensures KeptIn(s[..n + 1], b) == KeptIn(s[..n], b) + (if Overlap(s[n], b) then [Intersect(s[n], b)] else [])
  {
    assert s[..n + 1][..n] == s[..n];
  }

  lemma KeptOutStep(s: seq<Interval>, b: Interval, M: nat, n: nat)
    requires M >= 2 && Proper(b, M) && (forall k | 0 <= k < |s| :: Proper(s[k], M)) && n < |s|
    ensures KeptOut(s[..n + 1], b, M) == KeptOut(s[..n], b, M) + Pieces(s[n], b, M)
  {
    assert s[..n + 1][..n] == s[..n];
  }

  /** The list in the middle of an edit: the part done, then the part to come. */
  /** The loop of `keepOut` has replaced the first `n` intervals of `s`. */
  ghost predicate Removing(now: seq<Interval>, i: nat, s: seq<Interval>, n: nat, interval: Interval) {
    && Ordered(s, WORD) && Proper(interval, WORD) && n <= |s|
    && now == KeptOut(s[..n], interval, WORD) + s[n..] && i == |KeptOut(s[..n], interval, WORD)|
  }

  lemma RemovingStarts(s: seq<Interval>, interval: Interval)
    requires Ordered(s, WORD) && Proper(interval, WORD)
    ensures Removing(s, 0, s, 0, interval)
  {
    hide KeptOut;
    KeptOutNothing(interval, WORD);
    assert s[..0] == [];
  }

  lemma RemovingGoesOn(now: seq<Interval>, i: nat, s: seq<Interval>, n: nat, interval: Interval)
    requires Removing(now, i, s, n, interval) && i < |now|
    ensures n < |s| && Proper(now[i], WORD)
    ensures var pieces := Pieces(now[i], interval, WORD);
            Removing(now[..i] + pieces + now[i + 1..], i + |pieces|, s, n + 1, interval)
  {
    hide KeptOut, Pieces;
    Splice(now, KeptOut(s[..n], interval, WORD), s, n);
    KeptOutStep(s, interval, WORD, n);
  }

  lemma RemovingEnds(now: seq<Interval>, i: nat, s: seq<Interval>, n: nat, interval: Interval)
    requires Removing(now, i, s, n, interval) && i >= |now|
    ensures Ordered(s, WORD) && now == KeptOut(s, interval, WORD)
  {
    hide KeptOut;
    assert s[..|s|] == s;
  }

  lemma Splice(now: seq<Interval>, done: seq<Interval>, s: seq<Interval>, n: nat)
    requires n <= |s| && now == done + s[n..] && |done| < |now|
    ensures n < |s| && now[|done|] == s[n] && now[..|done|] == done && now[|done| + 1..] == s[n + 1..]
  {
  }

  lemma TotalStep(s: seq<Interval>, n: nat)
    requires (forall k | 0 <= k < |s| :: s[k].lo <= s[k].hi) && n < |s|
    ensures Total(s[..n + 1]) == Total(s[..n]) + (s[n].hi - s[n].lo + 1)
  {
    assert s[..n + 1][..n] == s[..n];
  }

  lemma {:induction false} TotalPrefix(s: seq<Interval>, n: nat)
    requires (forall k | 0 <= k < |s| :: s[k].lo <= s[k].hi) && n <= |s|
    ensures Total(s[..n]) <= Total(s)
    decreases |s| - n
  {
    if n == |s| {
      assert s[..n] == s;
    } else {
      TotalStep(s, n);
      TotalPrefix(s, n + 1);
    }
  }

  /** The interval that holds the value of rank `k`. */
  lemma {:induction false} NthAt(s: seq<Interval>, n: nat, k: nat)
    requires (forall j | 0 <= j < |s| :: s[j].lo <= s[j].hi) && n < |s|
    requires Total(s[..n]) <= k < Total(s[..n + 1])
    ensures k < Total(s) && Nth(s, k) == s[n].lo + (k - Total(s[..n]))
    decreases |s|
  {
    TotalPrefix(s, n + 1);
    var init := s[..|s| - 1];
    if n == |s| - 1 {
      assert s[..n] == init;
    } else {
      assert init[..n] == s[..n] && init[..n + 1] == s[..n + 1];
      NthAt(init, n, k);
    }
  }

  lemma SizesAdd(sum: nat, size: nat, M: nat)
    requires M > 0
    ensures (sum % M + size % M) % M == (sum + size) % M
  {
    var q, r, q', r' := sum / M, sum % M, size / M, size % M;
    assert sum == q * M + r && size == q' * M + r';
    var t := (r + r') / M;
    assert r + r' == t * M + (r + r') % M;
    assert sum + size == (q + q' + t) * M + (r + r') % M by { assert (q + q' + t) * M == q * M + q' * M + t * M; }
    DivModUnique(sum + size, M, q + q' + t, (r + r') % M);
  }

  class ConstraintRange {
    var isEmpty: bool
    var intervals: seq<Interval>
    var sizeValid: bool
    var size: nat

    ghost predicate Valid()
      reads this
    {
      && Ordered(intervals, WORD) && intervals != []
      && (isEmpty ==> intervals == [Bounds(0, 0)])
      && (sizeValid ==> size == Total(intervals) % WORD)
    }

    /** The set the object stands for. */
    ghost predicate Has(v: nat)
      reads this`isEmpty, this`intervals
    {
      !isEmpty && Covers(intervals, v)
    }

    /** The mode is EMPTY exactly when the set is empty; all values are in the domain. */
    lemma EmptyExactly()
      requires Valid()
      ensures isEmpty <==> forall v: nat :: !Has(v)
      ensures forall v: nat | Has(v) :: v < WORD
    {
      if !isEmpty { assert In(intervals[0], intervals[0].lo) && Has(intervals[0].lo); }
    }

    constructor Empty()
      ensures Valid() && isEmpty && !sizeValid
    {
      isEmpty, intervals, sizeValid, size := true, [Bounds(0, 0)], false, 0;
    }

    /** The constructor from bounds, which must be the right way round. */
    constructor (lb: nat, ub: nat)
      requires lb <= ub < WORD
      ensures Valid() && forall v: nat :: Has(v) <==> lb <= v <= ub
    {
      isEmpty, intervals, sizeValid, size := false, [Bounds(lb, ub)], false, lb;
      new;
      CoversFew();
    }

    constructor Copy(rhs: ConstraintRange)
      requires rhs.Valid()
      ensures Valid() && isEmpty == rhs.isEmpty && intervals == rhs.intervals
    {
      isEmpty, intervals, sizeValid, size := rhs.isEmpty, rhs.intervals, rhs.sizeValid, rhs.size;
    }

    method Assign(rhs: ConstraintRange)
      requires rhs.Valid()
      modifies this
      ensures Valid() && isEmpty == old(rhs.isEmpty) && intervals == old(rhs.intervals)
    {
      isEmpty, intervals, sizeValid, size := rhs.isEmpty, rhs.intervals, rhs.sizeValid, rhs.size;
    }

    /** `setSize` and `getSize`: the sizes summed in machine arithmetic. */
    method GetSize() returns (n: nat)
      requires Valid()
      modifies this`size, this`sizeValid
      ensures Valid() && n == Total(intervals) % WORD
    {
      if !sizeValid {
        sizeValid, size := true, 0;
        for i := 0 to |intervals|
          invariant size == Total(intervals[..i]) % WORD
        {
          TotalStep(intervals, i);
          SizesAdd(Total(intervals[..i]), intervals[i].hi - intervals[i].lo + 1, WORD);
          size := (size + Size(intervals[i], WORD)) % WORD;
        }
        assert intervals[..|intervals|] == intervals;
      }
      n := size;
    }

    /** Exact: true exactly for the whole domain. */
    method IsUnconstrained() returns (r: bool)
      requires Valid()
      modifies this`size, this`sizeValid
      ensures Valid() && (r <==> forall v: nat | v < WORD :: Has(v))
      ensures r <==> !isEmpty && Full(intervals, WORD)
    {
      if isEmpty {
        assert !Has(0);
        return false;
      }
      var n := GetSize();
      ZeroSizeIffFull(intervals, WORD);
      assert forall v: nat :: Has(v) <==> Covers(intervals, v);
      r := n == 0;
    }

    method CheckIntervals()
      requires Ordered(intervals, WORD) && !sizeValid && !isEmpty
      modifies this
      ensures Valid() && (isEmpty <==> old(intervals) == []) && (!isEmpty ==> intervals == old(intervals))
      ensures forall v: nat :: Has(v) <==> Covers(old(intervals), v)
    {
      if intervals == [] {
        isEmpty, sizeValid, size := true, false, 0;
        intervals := [Bounds(0, 0)];
      }
    }

    /** `keepOnly` with bounds: intersection. Reversed bounds give the empty set, except that an
        unconstrained object is then left holding an empty interval, whose size reads as the whole domain. */
    method KeepOnly(lb: nat, ub: nat)
      requires Valid() && lb < WORD && ub < WORD
      modifies this
      ensures forall v: nat :: Has(v) <==> old(Has(v)) && lb <= v <= ub
      ensures Valid() <==> lb <= ub || !old(!isEmpty && Full(intervals, WORD))
      ensures !Valid() ==> !isEmpty && intervals == [Bounds(lb, ub)] && Size(intervals[0], WORD) == 0
    {
      if isEmpty {
        return;
      }
      var unconstrained := IsUnconstrained();
      if unconstrained {
        forall v: nat | v < WORD ensures old(Has(v)) { assert Has(v); }
        sizeValid := false;
        intervals := [Bounds(lb, ub)];
        CoversFew();
        assert Ordered(intervals, WORD) <==> lb <= ub by { if ub < lb { assert intervals[0].empty; } }
        return;
      }
      sizeValid := false;
      var interval := Bounds(lb, ub);
      CutInterval(interval);
      KeptInExact(old(intervals), interval, WORD);
      CheckIntervals();
    }

    /** The loop of `keepOnly`. */
    method CutInterval(interval: Interval)
      modifies this`intervals
      ensures intervals == KeptIn(old(intervals), interval)
    {
      hide KeptIn, Overlap, Intersect;
      ghost var s, n := intervals, 0;
      var i := 0;
      assert s[..0] == [];
      KeptInNothing(interval);
      while i < |intervals|
        invariant n <= |s| && intervals == KeptIn(s[..n], interval) + s[n..] && i == |KeptIn(s[..n], interval)|
        decreases |s| - n
      {
        KeptInStep(s, interval, n);
        Splice(intervals, KeptIn(s[..n], interval), s, n);
        if Overlap(intervals[i], interval) {
          intervals := intervals[..i] + [Intersect(intervals[i], interval)] + intervals[i + 1..];
          i := i + 1;
        } else {
          intervals := intervals[..i] + [] + intervals[i + 1..];
        }
        n := n + 1;
      }
      assert s[..|s|] == s;
    }

    /** `keepOut` with bounds: set difference when they are the right way round (`KeepOutExactIff`). */
    method KeepOut(lb: nat, ub: nat)
      requires Valid() && lb < WORD && ub < WORD
      modifies this
      ensures lb <= ub ==> Valid() && forall v: nat :: Has(v) <==> old(Has(v)) && !(lb <= v <= ub)
      ensures isEmpty <==> old(isEmpty) || KeptOut(old(intervals), Bounds(lb, ub), WORD) == []
      ensures !isEmpty ==> intervals == KeptOut(old(intervals), Bounds(lb, ub), WORD)
    {
      hide KeptOut, Covers;
      if isEmpty {
        return;
      }
      sizeValid := false;
      var interval := Bounds(lb, ub);
      RemoveInterval(interval);
      if lb <= ub {
        KeptOutExact(old(intervals), interval, WORD);
        NothingCovered();
      }
      if intervals == [] {
        isEmpty, sizeValid, size := true, false, 0;
        intervals := [Bounds(0, 0)];
      }
    }

    /** The loop of `keepOut`. */
    method RemoveInterval(interval: Interval)
      requires Ordered(intervals, WORD) && Proper(interval, WORD)
      modifies this`intervals
      ensures intervals == KeptOut(old(intervals), interval, WORD)
    {
      hide KeptOut, Pieces, Removing, Ordered;
      ghost var s, n := intervals, 0;
      var i: nat := 0;
      RemovingStarts(s, interval);
      while i < |intervals|
        invariant Removing(intervals, i, s, n, interval)
        decreases |s| - n
      {
        RemovingGoesOn(intervals, i, s, n, interval);
        var pieces := PiecesOf(intervals[i], interval);
        intervals := intervals[..i] + pieces + intervals[i + 1..];
        i := i + |pieces|;
        n := n + 1;
      }
      RemovingEnds(intervals, i, s, n, interval);
    }

    /** What replaces one interval: nothing, a piece, or two. */
    static method PiecesOf(current: Interval, interval: Interval) returns (pieces: seq<Interval>)
      requires Proper(current, WORD) && Proper(interval, WORD)
      ensures pieces == Pieces(current, interval, WORD)
    {
      pieces := [];
      if Contain(current, interval) {
        if current.lo < interval.lo {
          pieces := pieces + [Bounds(current.lo, Predecessor(interval.lo, WORD))];
        }
        if current.hi > interval.hi {
          pieces := pieces + [Bounds(Successor(interval.hi, WORD), current.hi)];
        }
      } else {
        var rest := current;
        if Subtractable(current, interval) {
          rest := Subtract(current, interval, WORD);
        }
        if !rest.empty {
          pieces := [rest];
        }
      }
    }

    method KeepOutValue(v: nat)
      requires Valid() && v < WORD
      modifies this
      ensures Valid() && forall u: nat :: Has(u) <==> old(Has(u)) && u != v
    {
      KeepOut(v, v);
    }

    method KeepOnlyValue(v: nat)
      requires Valid() && v < WORD
      modifies this
      ensures Valid() && forall u: nat :: Has(u) <==> old(Has(u)) && u == v
    {
      KeepOnly(v, v);
    }

    /** `keepOut` of a list of values. */
    method KeepOutList(l: seq<nat>)
      requires Valid() && forall v | v in l :: v < WORD
      modifies this
      ensures Valid() && forall u: nat :: Has(u) <==> old(Has(u)) && u !in l
    {
      for i := 0 to |l|
        invariant Valid() && forall u: nat :: Has(u) <==> old(Has(u)) && u !in l[..i]
      {
        assert l[i] in l;
        KeepOutValue(l[i]);
        assert l[..i + 1] == l[..i] + [l[i]];
      }
      assert l[..|l|] == l;
    }

    /** `satisfy`: membership, leaving the loop at the first interval above the value. */
    method Satisfy(v: nat) returns (r: bool)
      requires Valid()
      ensures r <==> Has(v)
    {
      if isEmpty {
        return false;
      }
      for i := 0 to |intervals|
        invariant forall k | 0 <= k < i :: !In(intervals[k], v)
      {
        var j := Position(intervals[i], v);
        if j == 0 {
          return true;
        }
        if j < 0 {
          return false;
        }
      }
      r := false;
    }

    /** `keepOnly` of a list of values: intersection as a set, but a legal value given twice leaves two
        equal intervals. */
    method KeepOnlyList(l: seq<nat>)
      requires Valid() && forall v | v in l :: v < WORD
      modifies this
      ensures forall u: nat :: Has(u) <==> old(Has(u)) && u in l
      ensures Valid() <==> old(isEmpty) || Distinct(LegalPart(l, old(intervals)))
    {
      if isEmpty {
        return;
      }
      ghost var s := intervals;
      var l2 := [];
      for i := 0 to |l|
        invariant Valid() && !isEmpty && intervals == s && l2 == LegalPart(l[..i], s)
      {
        LegalPartStep(l, s, i);
        var legal := Satisfy(l[i]);
        if legal {
          l2 := l2 + [l[i]];
        }
      }
      assert l[..|l|] == l;
      LegalPartElements(l, s);
      sizeValid := false;
      SinglesOrderedIff(l2, WORD);
      if l2 == [] {
        NothingCovered();
        intervals := [];
        CheckIntervals();
        return;
      }
      InsertAll(l2);
    }

    /** Builds the list of single values, each inserted before the first larger one. */
    method InsertAll(l2: seq<nat>)
      requires l2 != []
      modifies this`intervals
      ensures intervals == Singles(l2) && intervals != []
    {
      intervals := [];
      for i := 0 to |l2|
        invariant intervals == Singles(l2[..i])
      {
        var k := 0;
        while k < |intervals| && !(intervals[k].lo > l2[i])
          invariant k <= |intervals| && forall j | 0 <= j < k :: intervals[j].lo <= l2[i]
        {
          k := k + 1;
        }
        assert Place(intervals, l2[i]) == k;
        assert l2[..i + 1][..i] == l2[..i];
        intervals := intervals[..k] + [Interval(false, l2[i], l2[i])] + intervals[k..];
      }
      assert l2[..|l2|] == l2;
    }

    /** `merge`: intersection of two constraints. */
    static method Merge(a: ConstraintRange, b: ConstraintRange) returns (c: ConstraintRange)
      requires a.Valid() && b.Valid()
      modifies a`size, a`sizeValid, b`size, b`sizeValid
      ensures a.Valid() && b.Valid()
      ensures fresh(c) && c.Valid() && forall v: nat :: c.Has(v) <==> a.Has(v) && b.Has(v)
    {
      hide Covers, Ordered, Full, Overlap, Intersect;
      var fullA := a.IsUnconstrained();
      var fullB := b.IsUnconstrained();
      a.EmptyExactly();
      b.EmptyExactly();
      assert forall v: nat | (!a.isEmpty && Covers(a.intervals, v)) || (!b.isEmpty && Covers(b.intervals, v)) :: v < WORD by {
        assert forall v: nat :: a.Has(v) <==> !a.isEmpty && Covers(a.intervals, v);
        assert forall v: nat :: b.Has(v) <==> !b.isEmpty && Covers(b.intervals, v);
      }
      assert fullA ==> forall v: nat | v < WORD :: !a.isEmpty && Covers(a.intervals, v) by {
        if fullA { forall v: nat | v < WORD ensures !a.isEmpty && Covers(a.intervals, v) { assert a.Has(v); } }
      }
      assert fullB ==> forall v: nat | v < WORD :: !b.isEmpty && Covers(b.intervals, v) by {
        if fullB { forall v: nat | v < WORD ensures !b.isEmpty && Covers(b.intervals, v) { assert b.Has(v); } }
      }
      if fullA {
        c := new ConstraintRange.Copy(b);
      } else if fullB || a.isEmpty {
        c := new ConstraintRange.Copy(a);
      } else if b.isEmpty {
        c := new ConstraintRange.Copy(b);
      } else {
        var common := Common(a.intervals, b.intervals);
        c := new ConstraintRange.Empty();
        c.isEmpty := false;
        c.intervals := common;
        c.CheckIntervals();
      }
    }

    /** The two-pointer loop of `merge`. */
    static method Common(a: seq<Interval>, b: seq<Interval>) returns (out: seq<Interval>)
      requires Ordered(a, WORD) && Ordered(b, WORD)
      ensures Ordered(out, WORD) && forall v: nat :: Covers(out, v) <==> Covers(a, v) && Covers(b, v)
    {
      hide Covers, Ordered, Swept;
      out := [];
      var i, j := 0, 0;
      SweepStart(a, b, WORD);
      while i < |a| && j < |b|
        invariant i <= |a| && j <= |b| && Swept(out, a, b, i, j, WORD)
        decreases |a| + |b| - i - j
      {
        ghost var before, i0, j0 := out, i, j;
        if Overlap(a[i], b[j]) {
          out := out + [Intersect(a[i], b[j])];
        }
        if a[i].hi < b[j].hi {
          i := i + 1;
        } else {
          j := j + 1;
        }
        SweepStep(before, a, b, i0, j0, WORD, out, i, j);
      }
      SweepEnd(out, a, b, i, j, WORD);
    }

    /** `getRandomValue`: any word when unconstrained, otherwise the value whose rank is the remainder of the word. */
    method GetRandomValue(gen: RandomStream) returns (v: nat)
      requires Valid()
      modifies this`size, this`sizeValid, gen
      ensures Valid()
      ensures isEmpty ==> v == 0 && gen.pos == old(gen.pos)
      ensures !isEmpty ==> gen.pos == old(gen.pos) + 1 && Has(v)
      ensures !isEmpty ==> v == RandomValue(intervals, gen.draw(old(gen.pos)) % WORD)
      ensures !isEmpty ==> |Legal(intervals, WORD)| > 0 && |Smaller(Legal(intervals, WORD), v)| == gen.draw(old(gen.pos)) % WORD % |Legal(intervals, WORD)|
      ensures !isEmpty && |Legal(intervals, WORD)| == WORD ==> v == gen.draw(old(gen.pos)) % WORD
    {
      if isEmpty {
        sizeValid, size := false, 0;
        return 0;
      }
      var unconstrained := IsUnconstrained();
      ZeroSizeIffFull(intervals, WORD);
      RandomValueRank(intervals, gen.draw(gen.pos) % WORD);
      hide Legal, Smaller;
      if unconstrained {
        v := gen.Next();
        return;
      }
      var n := GetSize();
      NotFullTotal(intervals);
      var remain := gen.Next();
      remain := remain % n;
      v := Pick(remain);
    }

    /** The loop of `getRandomValue`. */
    method Pick(rank: nat) returns (v: nat)
      requires Valid() && Total(intervals) < WORD && rank < Total(intervals)
      ensures v == Nth(intervals, rank) && Covers(intervals, v)
    {
      hide Covers, Nth, Total, Size;
      NthLegal(intervals, rank, WORD);
      var remain: nat := rank;
      var i := 0;
      TotalEnds(intervals);
      while remain >= Size(intervals[i], WORD)
        invariant i < |intervals| && remain + Total(intervals[..i]) == rank
        decreases |intervals| - i
      {
        SizeNatural(intervals, i);
        remain := remain - Size(intervals[i], WORD);
        i := i + 1;
      }
      SizeNatural(intervals, i);
      NthAt(intervals, i, rank);
      v := intervals[i].lo + remain;
    }

    /** `getScanValue`, specified by `ScanValue`; `ScanExactIff` says what that is worth. */
    method GetScanValue(base: nat, increment: nat) returns (v: nat)
      requires Valid() && base < WORD && 0 < increment < WORD
      modifies this`size, this`sizeValid
      ensures Valid() && v == if isEmpty then 0 else ScanValue(intervals, base, increment, WORD)
    {
      if isEmpty {
        sizeValid, size := false, 0;
        return 0;
      }
      var next := (base + increment) % WORD;
      if next < base {
        return base;
      }
      var unconstrained := IsUnconstrained();
      if unconstrained {
        return next;
      }
      v := ScanLoop(next, base, increment);
    }

    /** The loop of `getScanValue`. */
    method ScanLoop(first: nat, base: nat, increment: nat) returns (v: nat)
      requires increment > 0
      ensures v == ScanFrom(intervals, first, base, increment, WORD)
    {
      var next: nat := first;
      assert intervals[0..] == intervals;
      for i := 0 to |intervals|
        invariant ScanFrom(intervals[i..], next, base, increment, WORD) == ScanFrom(intervals, first, base, increment, WORD)
      {
        assert intervals[i..][1..] == intervals[i + 1..];
        var position := Position(intervals[i], next);
        if position == 0 {
          return next;
        } else if position < 0 {
          var d := intervals[i].lo - next;
          if d % increment == 0 {
            return intervals[i].lo;
          }
          next := (next + d / increment * increment + increment) % WORD;
          if next < base {
            return base;
          }
          if next <= intervals[i].hi {
            return next;
          }
        }
      }
      v := base;
    }
  }

  lemma KeptInNothing(b: Interval)
    ensures KeptIn([], b) == []
  {
  }

  lemma KeptOutNothing(b: Interval, M: nat)
    requires M >= 2 && Proper(b, M)
    ensures KeptOut([], b, M) == []
  {
  }

  /** The value a 32-bit word selects. */
  function RandomValue(s: seq<Interval>, word: nat): nat
    requires Ordered(s, WORD) && s != []
  {
    TotalPositive(s, WORD);
    if Full(s, WORD) then word else Nth(s, word % Total(s))
  }

  /** The word's remainder says how many legal values are below the one selected; for the whole domain the
      value is the word. */
  lemma RandomValueRank(s: seq<Interval>, word: nat)
    requires Ordered(s, WORD) && s != [] && word < WORD
    ensures |Legal(s, WORD)| > 0 && RandomValue(s, word) in Legal(s, WORD)
    ensures |Smaller(Legal(s, WORD), RandomValue(s, word))| == word % |Legal(s, WORD)|
    ensures |Legal(s, WORD)| == WORD ==> RandomValue(s, word) == word
  {
    TotalPositive(s, WORD);
    LegalSize(s, WORD);
    ZeroSizeIffFull(s, WORD);
    ZeroOrFull(Total(s), WORD);
    hide Covers, Nth, Total;
    if Full(s, WORD) {
      LessThanModulus(word, WORD);
      WholeDomain(s, word);
    } else {
      NthHasRank(s, word % Total(s), WORD);
      NthLegal(s, word % Total(s), WORD);
    }
  }

  lemma WholeDomain(s: seq<Interval>, v: nat)
    requires v < WORD && forall u: nat | u < WORD :: Covers(s, u)
    ensures v in Legal(s, WORD) && |Smaller(Legal(s, WORD), v)| == v
  {
    hide Covers;
    if v == 0 {
      assert Smaller(Legal(s, WORD), v) == {};
    } else {
      BetweenSize(0, v - 1);
      assert Smaller(Legal(s, WORD), v) == Between(0, v - 1);
    }
  }

  /** As many words on end as there are legal values select each of them, and none twice. */
  lemma EachValueOnce(s: seq<Interval>, w: nat, v: nat)
    requires Ordered(s, WORD) && s != [] && w + |Legal(s, WORD)| <= WORD && v in Legal(s, WORD)
    ensures exists word :: w <= word < w + |Legal(s, WORD)| && RandomValue(s, word) == v
    ensures forall i, j | w <= i < j < w + |Legal(s, WORD)| :: RandomValue(s, i) != RandomValue(s, j)
  {
    hide Legal, RandomValue, Smaller;
    var n := |Legal(s, WORD)|;
    RandomValueRank(s, w);
    forall i, j | w <= i < j < w + n ensures RandomValue(s, i) != RandomValue(s, j) {
      RandomValueRank(s, i);
      RandomValueRank(s, j);
      ResidueDiffers(i, j, n);
    }
    ValueSelected(s, w, v);
  }

  lemma ValueSelected(s: seq<Interval>, w: nat, v: nat)
    requires Ordered(s, WORD) && s != [] && w + |Legal(s, WORD)| <= WORD && v in Legal(s, WORD) && |Legal(s, WORD)| > 0
    ensures exists word :: w <= word < w + |Legal(s, WORD)| && RandomValue(s, word) == v
  {
    var all := Legal(s, WORD);
    var rank := |Smaller(all, v)|;
    SubsetSize(Smaller(all, v), all - {v});
    var word := ResidueReached(w, |all|, rank);
    RandomValueRank(s, word);
    hide Legal, RandomValue;
    SameRank(all, RandomValue(s, word), v);
  }

  lemma SameRank(vs: set<nat>, u: nat, v: nat)
    requires u in vs && v in vs && |Smaller(vs, u)| == |Smaller(vs, v)|
    ensures u == v
  {
    if u < v { RankGrows(vs, u, v); }
    if v < u { RankGrows(vs, v, u); }
  }

  lemma RankGrows(vs: set<nat>, u: nat, v: nat)
    requires u in vs && u < v
    ensures |Smaller(vs, u)| < |Smaller(vs, v)|
  {
    assert u in Smaller(vs, v);
    SubsetSize(Smaller(vs, u), Smaller(vs, v) - {u});
  }

  lemma NotFullTotal(s: seq<Interval>)
    requires Ordered(s, WORD) && s != [] && !Full(s, WORD)
    ensures 0 < Total(s) < WORD && Total(s) % WORD == Total(s)
  {
    ZeroSizeIffFull(s, WORD);
    ZeroOrFull(Total(s), WORD);
    LessThanModulus(Total(s), WORD);
  }

  lemma TotalEnds(s: seq<Interval>)
    requires forall k | 0 <= k < |s| :: s[k].lo <= s[k].hi
    ensures Total(s[..0]) == 0 && Total(s[..|s|]) == Total(s)
  {
    assert s[..|s|] == s;
  }

  lemma SizeNatural(s: seq<Interval>, i: nat)
    requires Ordered(s, WORD) && Total(s) < WORD && i < |s|
    ensures Size(s[i], WORD) == s[i].hi - s[i].lo + 1
    ensures Total(s[..i + 1]) == Total(s[..i]) + Size(s[i], WORD) <= Total(s)
  {
    TotalStep(s, i);
    TotalPrefix(s, i + 1);
    LessThanModulus(s[i].hi - s[i].lo + 1, WORD);
  }
}

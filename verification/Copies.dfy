/** Numbering the copies of a list of records: record 0's copies first, then record 1's, and so on. */
module Copies {
  import opened Words

  function Sum(counts: seq<nat>): nat {
    if counts == [] then 0 else Sum(counts[..|counts| - 1]) + counts[|counts| - 1]
  }

  lemma SumStep(counts: seq<nat>, k: nat)
    requires k < |counts|
    ensures Sum(counts[..k + 1]) == Sum(counts[..k]) + counts[k]
  {
    assert counts[..k + 1][..k] == counts[..k];
  }

  lemma SumEnds(counts: seq<nat>)
    ensures Sum(counts[..0]) == 0 && Sum(counts[..|counts|]) == Sum(counts)
  {
    assert counts[..|counts|] == counts;
  }

  lemma {:induction false} SumMonotone(counts: seq<nat>, j: nat, k: nat)
    requires j <= k <= |counts|
    ensures Sum(counts[..j]) <= Sum(counts[..k])
    decreases k - j
  {
    if j < k {
      SumStep(counts, j);
      SumMonotone(counts, j + 1, k);
    }
  }

  lemma {:induction false} SumUpdate(counts: seq<nat>, k: nat, c: nat)
    requires k < |counts|
    ensures Sum(counts[k := c]) + counts[k] == Sum(counts) + c
  {
    var init := counts[..|counts| - 1];
    if k < |init| {
      SumUpdate(init, k, c);
      assert counts[k := c][..|counts| - 1] == init[k := c];
    } else {
      assert counts[k := c][..|counts| - 1] == init;
    }
  }

  lemma {:induction false} SumErase(counts: seq<nat>, k: nat)
    requires k < |counts|
    ensures Sum(counts[..k] + counts[k + 1..]) + counts[k] == Sum(counts)
  {
    var init, rest := counts[..|counts| - 1], counts[..k] + counts[k + 1..];
    if k < |init| {
      SumErase(init, k);
      assert rest[..|rest| - 1] == init[..k] + init[k + 1..];
    } else {
      assert rest == init;
    }
  }

  lemma SumAppend(counts: seq<nat>, c: nat)
    ensures Sum(counts + [c]) == Sum(counts) + c
  {
    assert (counts + [c])[..|counts|] == counts;
  }

  lemma {:induction false} SumPositive(counts: seq<nat>) returns (k: nat)
    requires Sum(counts) > 0
    ensures k < |counts| && counts[k] > 0
  {
    if counts[|counts| - 1] > 0 {
      k := |counts| - 1;
    } else {
      k := SumPositive(counts[..|counts| - 1]);
    }
  }

  /** The record that copy `i` belongs to. */
  function Owner(counts: seq<nat>, i: nat): (k: nat)
    requires i < Sum(counts)
    ensures k < |counts|
  {
    if i < Sum(counts[..|counts| - 1]) then Owner(counts[..|counts| - 1], i) else |counts| - 1
  }

  lemma {:induction false} OwnerUnique(counts: seq<nat>, i: nat, k: nat)
    requires k < |counts| && Sum(counts[..k]) <= i < Sum(counts[..k + 1])
    ensures i < Sum(counts) && Owner(counts, i) == k
  {
    SumMonotone(counts, k + 1, |counts|);
    SumEnds(counts);
    var init := counts[..|counts| - 1];
    if k < |init| {
      assert init[..k] == counts[..k] && init[..k + 1] == counts[..k + 1];
      OwnerUnique(init, i, k);
    } else {
      assert counts[..k] == init;
    }
  }

  lemma {:induction false} OwnerBounds(counts: seq<nat>, i: nat)
    requires i < Sum(counts)
    ensures var k := Owner(counts, i); Sum(counts[..k]) <= i < Sum(counts[..k + 1])
  {
    var init, k := counts[..|counts| - 1], Owner(counts, i);
    if i < Sum(init) {
      OwnerBounds(init, i);
      assert init[..k] == counts[..k] && init[..k + 1] == counts[..k + 1];
    } else {
      assert counts[..k] == init && counts[..k + 1] == counts;
    }
  }

  ghost function NumbersFrom(lo: nat, hi: nat): (r: set<nat>)
    requires lo <= hi
    ensures forall i: nat :: i in r <==> lo <= i < hi
    ensures |r| == hi - lo
  {
    if lo == hi then {} else NumbersFrom(lo, hi - 1) + {hi - 1}
  }

  /** The copies of record `k`, as numbers. */
  ghost function CopiesOf(counts: seq<nat>, k: nat): (r: set<nat>)
  {
    set i: nat | i < Sum(counts) && Owner(counts, i) == k
  }

  /** Each record owns as many numbers as it has copies. */
  lemma CopiesCount(counts: seq<nat>, k: nat)
    requires k < |counts|
    ensures |CopiesOf(counts, k)| == counts[k]
  {
    SumStep(counts, k);
    var lo, hi := Sum(counts[..k]), Sum(counts[..k + 1]);
    forall i: nat ensures i in CopiesOf(counts, k) <==> lo <= i < hi {
      if lo <= i < hi { OwnerUnique(counts, i, k); }
      if i in CopiesOf(counts, k) { OwnerBounds(counts, i); }
    }
    assert CopiesOf(counts, k) == NumbersFrom(lo, hi);
  }

  // ---------------------------------------------------------------- a cursor over the copies

  /** How many copies a cursor has passed: all of the earlier records and `seen` of its own. */
  function Passed(counts: seq<nat>, at: nat, seen: nat): nat
    requires at < |counts|
  {
    Sum(counts[..at]) + seen
  }

  /** The record of the copy passed last. */
  lemma PassedOwner(counts: seq<nat>, at: nat, seen: nat)
    requires at < |counts| && 1 <= seen <= counts[at]
    ensures 1 <= Passed(counts, at, seen) <= Sum(counts)
    ensures Owner(counts, Passed(counts, at, seen) - 1) == at
  {
    SumStep(counts, at);
    OwnerUnique(counts, Passed(counts, at, seen) - 1, at);
  }

  /** The place after a record, back to the first one after the last. */
  function Following(at: nat, n: nat): nat
    requires at < n
  {
    if at + 1 == n then 0 else at + 1
  }

  /** Leaving a record whose copies are all passed passes no copy, but may complete the round. */
  lemma PassedFollowing(counts: seq<nat>, at: nat)
    requires at < |counts|
    ensures Passed(counts, Following(at, |counts|), 0) == if at + 1 == |counts| then 0 else Passed(counts, at, counts[at])
    ensures at + 1 == |counts| ==> Passed(counts, at, counts[at]) == Sum(counts)
  {
    SumStep(counts, at);
    SumEnds(counts);
  }

  /** The number of places from `at` round to `target`. */
  function Distance(at: nat, target: nat, n: nat): nat
    requires at < n && target < n
  {
    if target >= at then target - at else target + n - at
  }
}

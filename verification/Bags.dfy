/** The weighted bag: a list of records with copies and marks, cached counters, and a cursor over copies. */
module Bags {
  import opened Options
  import opened Words
  import opened Randomness
  import opened Copies

  datatype Record<T> = Record(element: T, total: nat, unmarked: nat)
  {
    /** The marked copies; negative in a record whose counts have gone wrong. */
    function Marked(): int { total - unmarked }
  }

  function Totals<T>(bag: seq<Record<T>>): (r: seq<nat>)
    ensures |r| == |bag| && forall k | 0 <= k < |bag| :: r[k] == bag[k].total
  {
    seq(|bag|, k requires 0 <= k < |bag| => bag[k].total)
  }

  function Unmarkeds<T>(bag: seq<Record<T>>): (r: seq<nat>)
    ensures |r| == |bag| && forall k | 0 <= k < |bag| :: r[k] == bag[k].unmarked
  {
    seq(|bag|, k requires 0 <= k < |bag| => bag[k].unmarked)
  }

  /** The marked copies of each record, none where the counts have gone wrong. */
  function Marks<T>(bag: seq<Record<T>>): (r: seq<nat>)
    ensures |r| == |bag| && forall k | 0 <= k < |bag| :: r[k] == if bag[k].Marked() > 0 then bag[k].Marked() else 0
  {
    seq(|bag|, k requires 0 <= k < |bag| => if bag[k].Marked() > 0 then bag[k].Marked() else 0)
  }

  lemma TotalsUpdate<T>(bag: seq<Record<T>>, k: nat, r: Record<T>)
    requires k < |bag|
    ensures Sum(Totals(bag[k := r])) + bag[k].total == Sum(Totals(bag)) + r.total
    ensures Sum(Unmarkeds(bag[k := r])) + bag[k].unmarked == Sum(Unmarkeds(bag)) + r.unmarked
  {
    SumUpdate(Totals(bag), k, r.total);
    SumUpdate(Unmarkeds(bag), k, r.unmarked);
    assert Totals(bag[k := r]) == Totals(bag)[k := r.total];
    assert Unmarkeds(bag[k := r]) == Unmarkeds(bag)[k := r.unmarked];
  }

  lemma TotalsErase<T>(bag: seq<Record<T>>, k: nat)
    requires k < |bag|
    ensures Sum(Totals(bag[..k] + bag[k + 1..])) + bag[k].total == Sum(Totals(bag))
    ensures Sum(Unmarkeds(bag[..k] + bag[k + 1..])) + bag[k].unmarked == Sum(Unmarkeds(bag))
  {
    SumErase(Totals(bag), k);
    SumErase(Unmarkeds(bag), k);
    assert Totals(bag[..k] + bag[k + 1..]) == Totals(bag)[..k] + Totals(bag)[k + 1..];
    assert Unmarkeds(bag[..k] + bag[k + 1..]) == Unmarkeds(bag)[..k] + Unmarkeds(bag)[k + 1..];
  }

  lemma TotalsAppend<T>(bag: seq<Record<T>>, r: Record<T>)
    ensures Sum(Totals(bag + [r])) == Sum(Totals(bag)) + r.total
    ensures Sum(Unmarkeds(bag + [r])) == Sum(Unmarkeds(bag)) + r.unmarked
  {
    SumAppend(Totals(bag), r.total);
    SumAppend(Unmarkeds(bag), r.unmarked);
    assert Totals(bag + [r]) == Totals(bag) + [r.total];
    assert Unmarkeds(bag + [r]) == Unmarkeds(bag) + [r.unmarked];
  }

  lemma {:induction false} SomeMarked(totals: seq<nat>, unmarkeds: seq<nat>) returns (k: nat)
    requires |totals| == |unmarkeds| && Sum(unmarkeds) < Sum(totals)
    ensures k < |totals| && unmarkeds[k] < totals[k]
  {
    var n := |totals| - 1;
    if unmarkeds[n] < totals[n] { k := n; } else { k := SomeMarked(totals[..n], unmarkeds[..n]); }
  }

  /** All copies marked, or all unmarked, in every record. */
  function AllMarked<T>(bag: seq<Record<T>>): (r: seq<Record<T>>)
    ensures |r| == |bag| && forall k | 0 <= k < |bag| :: r[k] == bag[k].(unmarked := 0)
  {
    seq(|bag|, k requires 0 <= k < |bag| => bag[k].(unmarked := 0))
  }

  function AllUnmarked<T>(bag: seq<Record<T>>): (r: seq<Record<T>>)
    ensures |r| == |bag| && forall k | 0 <= k < |bag| :: r[k] == bag[k].(unmarked := bag[k].total)
  {
    seq(|bag|, k requires 0 <= k < |bag| => bag[k].(unmarked := bag[k].total))
  }

  lemma {:induction false} SumZero(counts: seq<nat>)
    requires forall k | 0 <= k < |counts| :: counts[k] == 0
    ensures Sum(counts) == 0
  {
    if counts != [] { SumZero(counts[..|counts| - 1]); }
  }

  /** `popCount` on the record: one copy fewer, or none left. A marked removal that finds no marked copy,
      like an unmarked one that finds no unmarked copy, still takes one off the total. */
  function Popped<T>(r: Record<T>, marked: bool, all: bool): Record<T>
    requires r.total >= 1
  {
    if all then r.(total := 0, unmarked := 0)
    else if !marked && r.unmarked > 0 then r.(total := r.total - 1, unmarked := r.unmarked - 1)
    else r.(total := r.total - 1)
  }

  /** The unmarked copies a removal takes out of the bag: a record that loses its last copy goes as a whole. */
  function UnmarkedLost<T>(r: Record<T>, marked: bool, all: bool): nat {
    if all || r.total == 1 then r.unmarked else if marked || r.unmarked == 0 then 0 else 1
  }

  predicate InBounds<T>(bag: seq<Record<T>>) {
    forall k | 0 <= k < |bag| :: bag[k].unmarked <= bag[k].total
  }

  /** Taking a copy of a mark that is not there puts the counts of a record that stays out of bounds. */
  lemma ProperAfterPop<T>(bag: seq<Record<T>>, k: nat, marked: bool, all: bool)
    requires k < |bag| && bag[k].total >= 1 && InBounds(bag)
    ensures var popped := Popped(bag[k], marked, all);
            InBounds(if popped.total == 0 then bag[..k] + bag[k + 1..] else bag[k := popped])
            <==> !(marked && !all && bag[k].Marked() == 0 && bag[k].total > 1)
  {
    var popped := Popped(bag[k], marked, all);
    if popped.total == 0 {
      var rest := bag[..k] + bag[k + 1..];
      forall j | 0 <= j < |rest| ensures rest[j].unmarked <= rest[j].total {
        assert rest[j] == bag[if j < k then j else j + 1];
      }
    } else {
      var updated := bag[k := popped];
      assert updated[k] == popped;
      forall j | 0 <= j < |updated| && j != k ensures updated[j].unmarked <= updated[j].total {}
    }
  }

  lemma SomeRecord(counts: seq<nat>)
    requires Sum(counts) > 0
    ensures counts != []
  {
  }

  /** A removal that finds its copy leaves as many copies of either mark unseen as there were; one that does not
      leaves the counts of the cursor. */
  lemma UnseenKept<T>(r: Record<T>, marked: bool, u0: int, m0: int, u: int, m: int)
    requires r.total >= 1 && CountsAfterPop(r, marked, false, u0, m0, u, m)
    ensures var popped := Popped(r, marked, false);
            if (if marked then r.Marked() != 0 else r.unmarked > 0) then
              popped.unmarked - u == r.unmarked - u0 && popped.Marked() - m == r.Marked() - m0
            else u == u0 && m == m0
  {
  }

  /** What `popCount` does to the cursor's counts. */
  predicate CountsAfterPop<T>(r: Record<T>, marked: bool, all: bool, u0: int, m0: int, u: int, m: int) {
    && u == (if all then 0 else if !marked && r.unmarked > 0 then u0 - 1 else u0)
    && m == (if all then 0 else if marked && r.Marked() != 0 then m0 - 1 else m0)
  }

  function Clamp(seen: int, count: nat): nat {
    if seen < 0 then 0 else if seen > count then count else seen
  }

  /** The copy after copy number `p`, counting from 1 round to the total. */
  function NextCopy(counts: seq<nat>, p: nat): nat {
    if p == Sum(counts) then 1 else p + 1
  }

  /** Where the search for a copy ends: at the next copy; a negative count of copies seen stops it at once. */
  ghost predicate Advanced(counts: seq<nat>, limit: int, at0: nat, seen0: int, at: nat, seen: int)
    requires at0 < |counts|
  {
    && (seen0 < 0 && seen0 < limit ==> at == at0 && seen == seen0 + 1)
    && (seen0 >= 0 || seen0 >= limit ==>
          && at < |counts| && 1 <= seen <= counts[at]
          && Passed(counts, at, seen) == NextCopy(counts, Passed(counts, at0, Clamp(seen0, counts[at0]))))
  }

  /** During the search: nothing new passed, except that the round may have been completed. */
  ghost predicate Searching(counts: seq<nat>, at0: nat, seen0: int, at: nat, seen: int)
    requires at0 < |counts| && at < |counts|
  {
    (at == at0 && seen == seen0) ||
    (seen == 0 && var p0, p := Passed(counts, at0, Clamp(seen0, counts[at0])), Passed(counts, at, 0); p == p0 || (p == 0 && p0 == Sum(counts)))
  }

  lemma SearchOn(counts: seq<nat>, at0: nat, seen0: int, at: nat, seen: int, limit: int)
    requires at0 < |counts| && at < |counts| && Searching(counts, at0, seen0, at, seen)
    requires seen >= limit && counts[at] == if limit > 0 then limit else 0
    ensures Searching(counts, at0, seen0, Following(at, |counts|), 0)
  {
    PassedFollowing(counts, at);
  }

  lemma SearchEnds(counts: seq<nat>, at0: nat, seen0: int, at: nat, seen: int, limit: int, limit0: int)
    requires at0 < |counts| && at < |counts| && Searching(counts, at0, seen0, at, seen)
    requires seen < limit && counts[at] == (if limit > 0 then limit else 0) && (at == at0 ==> limit == limit0)
    requires seen0 < 0 && seen0 < limit0 ==> at == at0 && seen == seen0
    ensures Advanced(counts, limit0, at0, seen0, at, seen + 1)
  {
    if !(seen0 < 0 && seen0 < limit0) {
      PassedOwner(counts, at, seen + 1);
    }
  }

  class Bag<T> {
    var bag: seq<Record<T>>
    var size: int
    var dsize: int
    var unmarkedSize: int
    var lastPeekIsMarked: bool
    var lastPeekValid: bool
    var randMode: bool
    var rlock: bool
    var at: nat
    var uObj: int
    var mObj: int

    /** The three counters are what the list says, every record has a copy, and a valid cursor is on one. */
    ghost predicate Valid()
      reads this
    {
      && size == Sum(Totals(bag)) && unmarkedSize == Sum(Unmarkeds(bag)) && dsize == |bag|
      && (forall k | 0 <= k < |bag| :: bag[k].total >= 1)
      && (lastPeekValid ==> at < |bag|)
    }

    /** No record has more unmarked copies than copies. */
    ghost predicate Proper()
      reads this`bag
    {
      InBounds(bag)
    }

    ghost function Flags(): (bool, bool, bool, bool)
      reads this
    {
      (lastPeekIsMarked, lastPeekValid, randMode, rlock)
    }

    /** Whether `remove` would take a copy of a mark that is not there, leaving others behind. */
    predicate Spoils(all: bool)
      reads this
    {
      && lastPeekValid && !rlock && lastPeekIsMarked && !all
      && at < |bag| && bag[at].Marked() == 0 && bag[at].total > 1
    }

    constructor ()
      ensures Valid() && Proper() && bag == [] && !lastPeekValid
    {
      bag, size, dsize, unmarkedSize := [], 0, 0, 0;
      lastPeekIsMarked, lastPeekValid, randMode, rlock := false, false, true, true;
      at, uObj, mObj := 0, 0, 0;
    }

    method Add(arg: T, num: int) returns (error: bool)
      requires Valid()
      modifies this`bag, this`size, this`dsize, this`unmarkedSize
      ensures Valid() && (old(Proper()) ==> Proper())
      ensures error <==> num <= 0
      ensures bag == if num > 0 then old(bag) + [Record(arg, num, num)] else old(bag)
    {
      error := num <= 0;
      if num > 0 {
        TotalsAppend(bag, Record(arg, num, num));
        bag := bag + [Record(arg, num, num)];
        size := size + num;
        dsize := dsize + 1;
        unmarkedSize := unmarkedSize + num;
      }
    }

    method DIncPeek()
      requires at < |bag|
      modifies this`at, this`uObj, this`mObj
      ensures at == Following(old(at), |bag|) && uObj == 0 && mObj == 0
    {
      at := at + 1;
      uObj, mObj := 0, 0;
      if at == |bag| {
        at := 0;
      }
    }

    /** `nPeek0`: where a search starts. */
    method NPeek0(distinct: bool)
      requires lastPeekValid ==> at < |bag|
      requires bag != []
      modifies this`at, this`uObj, this`mObj
      ensures at == StartAt(old(lastPeekValid), old(at), distinct, |bag|) < |bag|
      ensures if lastPeekValid && !distinct then uObj == old(uObj) && mObj == old(mObj) else uObj == 0 && mObj == 0
    {
      if !lastPeekValid {
        at, uObj, mObj := 0, 0, 0;
      } else if distinct {
        DIncPeek();
      }
    }

    /** `peekNext('u')`: the next unmarked copy, going round. */
    method PeekNextUnmarked(distinct: bool) returns (r: Option<T>)
      requires Valid()
      modifies this`at, this`uObj, this`mObj, this`lastPeekValid, this`lastPeekIsMarked, this`randMode, this`rlock
      ensures Valid()
      ensures unmarkedSize == 0 ==> r == None && at == old(at) && uObj == old(uObj) && mObj == old(mObj) && Flags() == old(Flags())
      ensures unmarkedSize > 0 ==>
                && lastPeekValid && !lastPeekIsMarked && !randMode && !rlock
                && r == Some(bag[at].element)
                && var at0 := StartAt(old(lastPeekValid), old(at), distinct, |bag|);
                   && var seen0 := if old(lastPeekValid) && !distinct then old(uObj) else 0;
                   && Advanced(Unmarkeds(bag), bag[at0].unmarked, at0, seen0, at, uObj)
                   && mObj == if seen0 < bag[at0].unmarked && old(lastPeekValid) && !distinct then old(mObj) else 0
    {
      hide Advanced, Sum;
      if unmarkedSize == 0 {
        return None;
      }
      SomeRecord(Unmarkeds(bag));
      NPeek0(distinct);
      SearchUnmarked();
      lastPeekValid, lastPeekIsMarked, randMode, rlock := true, false, false, false;
      r := Some(bag[at].element);
    }

    /** `unmarkedPeek` after its start. */
    method SearchUnmarked()
      requires at < |bag| && Sum(Unmarkeds(bag)) > 0
      modifies this`at, this`uObj, this`mObj
      ensures at < |bag| && Advanced(Unmarkeds(bag), bag[old(at)].unmarked, old(at), old(uObj), at, uObj)
      ensures mObj == if old(uObj) < bag[old(at)].unmarked then old(mObj) else 0
    {
      hide Advanced, Searching, Sum;
      ghost var us, at0, seen0 := Unmarkeds(bag), at, uObj;
      ghost var target := SumPositive(us);
      SearchStarts(us, at0, seen0);
      while uObj >= bag[at].unmarked
        invariant at < |bag| && Searching(us, at0, seen0, at, uObj)
        invariant (at == at0 && uObj == seen0) || (uObj == 0 && seen0 >= 0)
        invariant (at == at0 && uObj == seen0 && mObj == old(mObj)) || (seen0 >= bag[at0].unmarked && mObj == 0)
        decreases if uObj != 0 then |bag| else Distance(at, target, |bag|)
      {
        SearchOn(us, at0, seen0, at, uObj, bag[at].unmarked);
        DIncPeek();
      }
      SearchEnds(us, at0, seen0, at, uObj, bag[at].unmarked, bag[at0].unmarked);
      uObj := uObj + 1;
    }

    /** `peekNext('m')`: the next marked copy, going round. */
    method PeekNextMarked(distinct: bool) returns (r: Option<T>)
      requires Valid()
      modifies this`at, this`uObj, this`mObj, this`lastPeekValid, this`lastPeekIsMarked, this`randMode, this`rlock
      ensures Valid()
      ensures unmarkedSize >= size ==> r == None && at == old(at) && uObj == old(uObj) && mObj == old(mObj) && Flags() == old(Flags())
      ensures unmarkedSize < size ==>
                && lastPeekValid && lastPeekIsMarked && !randMode && !rlock
                && r == Some(bag[at].element)
                && var at0 := StartAt(old(lastPeekValid), old(at), distinct, |bag|);
                   && var seen0 := if old(lastPeekValid) && !distinct then old(mObj) else 0;
                   && Advanced(Marks(bag), bag[at0].Marked(), at0, seen0, at, mObj)
                   && uObj == if seen0 < bag[at0].Marked() && old(lastPeekValid) && !distinct then old(uObj) else 0
    {
      hide Advanced, Sum;
      if unmarkedSize >= size {
        return None;
      }
      SomeRecord(Totals(bag));
      NPeek0(distinct);
      SearchMarked();
      lastPeekValid, lastPeekIsMarked, randMode, rlock := true, true, false, false;
      r := Some(bag[at].element);
    }

    /** `markedPeek` after its start. */
    method SearchMarked()
      requires at < |bag| && Sum(Unmarkeds(bag)) < Sum(Totals(bag))
      modifies this`at, this`uObj, this`mObj
      ensures at < |bag| && Advanced(Marks(bag), bag[old(at)].Marked(), old(at), old(mObj), at, mObj)
      ensures uObj == if old(mObj) < bag[old(at)].Marked() then old(uObj) else 0
    {
      hide Advanced, Searching, Sum;
      ghost var ms, at0, seen0 := Marks(bag), at, mObj;
      ghost var target := SomeMarked(Totals(bag), Unmarkeds(bag));
      SearchStarts(ms, at0, seen0);
      while mObj >= bag[at].Marked()
        invariant at < |bag| && Searching(ms, at0, seen0, at, mObj)
        invariant (at == at0 && mObj == seen0) || (mObj == 0 && (seen0 >= 0 || seen0 >= bag[at0].Marked()))
        invariant (at == at0 && mObj == seen0 && uObj == old(uObj)) || (seen0 >= bag[at0].Marked() && uObj == 0)
        decreases if mObj != 0 then |bag| else Distance(at, target, |bag|)
      {
        SearchOn(ms, at0, seen0, at, mObj, bag[at].Marked());
        DIncPeek();
      }
      SearchEnds(ms, at0, seen0, at, mObj, bag[at].Marked(), bag[at0].Marked());
      mObj := mObj + 1;
    }

    /** `peekRandom`: a random word, as a signed number, picks an unmarked copy by its remainder. */
    method PeekRandom(gen: RandomStream, mark: bool) returns (r: Option<T>)
      requires Valid()
      modifies this, gen
      ensures Valid() && (old(Proper()) ==> Proper())
      ensures old(unmarkedSize) == 0 ==>
                r == None && bag == old(bag) && at == old(at) && uObj == old(uObj) && mObj == old(mObj) && Flags() == old(Flags())
      ensures old(unmarkedSize) > 0 ==>
                && var i := Residue(gen.draw(old(gen.pos)) % WORD, old(unmarkedSize));
                && i < old(unmarkedSize) && at == Owner(Unmarkeds(old(bag)), i)
                && r == Some(old(bag)[at].element) && old(bag)[at].unmarked > 0
                && lastPeekValid && randMode && !rlock && lastPeekIsMarked == mark
                && mObj == (if mark then 1 else 0) && uObj + mObj == i - Sum(Unmarkeds(old(bag))[..at]) + 1
                && bag == if mark then old(bag)[at := old(bag)[at].(unmarked := old(bag)[at].unmarked - 1)] else old(bag)
    {
      hide Sum, Owner, Residue, InBounds;
      if unmarkedSize == 0 {
        return None;
      }
      var word := gen.Next();
      ResidueInRange(word, unmarkedSize);
      var i := Residue(word, unmarkedSize);
      at, uObj := FindCopy(i);
      mObj := 0;
      lastPeekValid, lastPeekIsMarked, randMode, rlock := true, false, true, false;
      r := Some(bag[at].element);
      if mark {
        var error := Mark(false);
      }
    }

    /** The loop of `peekRandom`. */
    method FindCopy(first: nat) returns (k: nat, seen: int)
      requires first < Sum(Unmarkeds(bag))
      ensures k == Owner(Unmarkeds(bag), first) && k < |bag| && bag[k].unmarked > 0
      ensures seen == first - Sum(Unmarkeds(bag)[..k]) + 1
    {
      ghost var us := Unmarkeds(bag);
      var i: nat := first;
      k := 0;
      SumEnds(us);
      while k < |bag| && i >= bag[k].unmarked
        invariant k <= |bag| && i + Sum(us[..k]) == first
        decreases |bag| - k
      {
        SumStep(us, k);
        i := i - bag[k].unmarked;
        k := k + 1;
      }
      SumStep(us, k);
      OwnerUnique(us, first, k);
      seen := i + 1;
    }

    /** `mark`. */
    method Mark(all: bool) returns (error: bool)
      requires Valid()
      modifies this`bag, this`unmarkedSize, this`uObj, this`mObj, this`lastPeekIsMarked
      ensures Valid() && (old(Proper()) ==> Proper())
      ensures error <==> !lastPeekValid
      ensures if lastPeekValid && (!old(lastPeekIsMarked) || all) then
                && var n := if all then old(bag)[at].unmarked else if old(bag)[at].unmarked > 0 then 1 else 0;
                && bag == old(bag)[at := old(bag)[at].(unmarked := old(bag)[at].unmarked - n)]
                && lastPeekIsMarked && uObj == old(uObj) - n && mObj == old(mObj) + n
              else bag == old(bag) && lastPeekIsMarked == old(lastPeekIsMarked) && uObj == old(uObj) && mObj == old(mObj)
    {
      hide Sum;
      error := !lastPeekValid;
      if lastPeekValid && (!lastPeekIsMarked || all) {
        var record := bag[at];
        var nmark: nat := if all then record.unmarked else if record.unmarked > 0 then 1 else 0;
        TotalsUpdate(bag, at, record.(unmarked := record.unmarked - nmark));
        bag := bag[at := record.(unmarked := record.unmarked - nmark)];
        unmarkedSize := unmarkedSize - nmark;
        uObj := uObj - nmark;
        mObj := mObj + nmark;
        lastPeekIsMarked := true;
      }
    }

    /** `unMark`. */
    method UnMark(all: bool) returns (error: bool)
      requires Valid()
      modifies this`bag, this`unmarkedSize, this`uObj, this`mObj, this`lastPeekIsMarked
      ensures Valid() && (old(Proper()) ==> Proper())
      ensures error <==> !lastPeekValid
      ensures if lastPeekValid && (old(lastPeekIsMarked) || all) then
                && var n := if all then old(bag)[at].Marked() else if old(bag)[at].Marked() > 0 then 1 else 0;
                && bag == old(bag)[at := old(bag)[at].(unmarked := old(bag)[at].unmarked + n)]
                && !lastPeekIsMarked && uObj == old(uObj) + n && mObj == old(mObj) - n
              else bag == old(bag) && lastPeekIsMarked == old(lastPeekIsMarked) && uObj == old(uObj) && mObj == old(mObj)
    {
      hide Sum;
      error := !lastPeekValid;
      if lastPeekValid && (lastPeekIsMarked || all) {
        var record := bag[at];
        var nUmark := if all then record.Marked() else if record.unmarked < record.total then 1 else 0;
        TotalsUpdate(bag, at, record.(unmarked := record.unmarked + nUmark));
        bag := bag[at := record.(unmarked := record.unmarked + nUmark)];
        unmarkedSize := unmarkedSize + nUmark;
        uObj := uObj + nUmark;
        mObj := mObj - nUmark;
        lastPeekIsMarked := false;
      }
    }

    /** `remove`: one copy, or all copies, of the object seen last; a record without copies goes. It keeps
        the mark counts in bounds exactly when it does not spoil them. */
    method Remove(all: bool) returns (error: bool)
      requires Valid()
      modifies this
      ensures Valid()
      ensures old(Proper()) ==> (Proper() <==> !old(Spoils(all)))
      ensures error <==> !(old(lastPeekValid) && !old(rlock))
      ensures error ==> bag == old(bag) && at == old(at) && uObj == old(uObj) && mObj == old(mObj) && Flags() == old(Flags())
      ensures !error ==> size == old(size) - if all then old(bag)[old(at)].total else 1
      ensures !error ==> unmarkedSize == old(unmarkedSize) - UnmarkedLost(old(bag)[old(at)], old(lastPeekIsMarked), all)
      ensures !error ==>
                && rlock && randMode == old(randMode)
                && var k, popped := old(at), Popped(old(bag)[old(at)], old(lastPeekIsMarked), all);
                && bag == (if popped.total == 0 then old(bag)[..k] + old(bag)[k + 1..] else old(bag)[k := popped])
                && lastPeekIsMarked == (old(lastPeekIsMarked) && popped.total > 0)
                && lastPeekValid == (!randMode && (popped.total > 0 || (size != 0 && k != 0)))
                && (popped.total > 0 ==> at == k && CountsAfterPop(old(bag)[k], old(lastPeekIsMarked), all, old(uObj), old(mObj), uObj, mObj))
                && (popped.total == 0 && lastPeekValid ==> at == k - 1 && uObj == bag[at].unmarked && mObj == bag[at].Marked())
    {
      hide Sum, CountsAfterPop, Popped, InBounds;
      error := !lastPeekValid || rlock;
      if error {
        return;
      }
      if Proper() { ProperAfterPop(bag, at, lastPeekIsMarked, all); }
      TakeCopies(all);
      if randMode {
        lastPeekValid := false;
      }
      rlock := true;
    }

    /** `popCount`, and `_bagErase` for a record without copies. */
    method TakeCopies(all: bool)
      requires Valid() && lastPeekValid
      modifies this
      ensures Valid() && randMode == old(randMode) && rlock == old(rlock)
      ensures size == old(size) - if all then old(bag)[old(at)].total else 1
      ensures unmarkedSize == old(unmarkedSize) - UnmarkedLost(old(bag)[old(at)], old(lastPeekIsMarked), all)
      ensures var k, popped := old(at), Popped(old(bag)[old(at)], old(lastPeekIsMarked), all);
              if popped.total > 0 then
                && bag == old(bag)[k := popped] && at == k && lastPeekIsMarked == old(lastPeekIsMarked) && lastPeekValid
                && CountsAfterPop(old(bag)[k], old(lastPeekIsMarked), all, old(uObj), old(mObj), uObj, mObj)
              else
                && bag == old(bag)[..k] + old(bag)[k + 1..] && !lastPeekIsMarked
                && lastPeekValid == (!randMode && size != 0 && k != 0)
                && (lastPeekValid ==> at == k - 1 && uObj == bag[at].unmarked && mObj == bag[at].Marked())
    {
      hide Sum, CountsAfterPop, Popped;
      PopCount(all);
      if bag[at].total == 0 {
        BagErase();
      }
    }

    /** `popCount` with the counters it is passed; the record may be left without copies. */
    method PopCount(all: bool)
      requires Valid() && lastPeekValid
      modifies this`bag, this`size, this`unmarkedSize, this`uObj, this`mObj
      ensures bag == old(bag)[at := Popped(old(bag)[at], lastPeekIsMarked, all)]
      ensures size == Sum(Totals(bag)) && unmarkedSize == Sum(Unmarkeds(bag))
      ensures size == old(size) - if all then old(bag)[at].total else 1
      ensures unmarkedSize - (if bag[at].total == 0 then bag[at].unmarked else 0) == old(unmarkedSize) - UnmarkedLost(old(bag)[at], lastPeekIsMarked, all)
      ensures CountsAfterPop(old(bag)[at], lastPeekIsMarked, all, old(uObj), old(mObj), uObj, mObj)
    {
      hide Sum;
      var record := bag[at];
      TotalsUpdate(bag, at, Popped(record, lastPeekIsMarked, all));
      if all {
        size := size - record.total;
        unmarkedSize := unmarkedSize - record.unmarked;
        uObj, mObj := 0, 0;
      } else {
        if lastPeekIsMarked && record.Marked() != 0 {
          mObj := mObj - 1;
        } else if !lastPeekIsMarked && record.unmarked != 0 {
          unmarkedSize := unmarkedSize - 1;
          uObj := uObj - 1;
        }
        size := size - 1;
      }
      bag := bag[at := Popped(record, lastPeekIsMarked, all)];
    }

    /** `_bagErase`: the cursor steps back to the record before, if there is one. */
    method BagErase()
      requires lastPeekValid && at < |bag| && bag[at].total == 0 && dsize == |bag|
      requires size == Sum(Totals(bag)) && unmarkedSize == Sum(Unmarkeds(bag))
      requires forall k | 0 <= k < |bag| && k != at :: bag[k].total >= 1
      modifies this
      ensures Valid() && randMode == old(randMode) && rlock == old(rlock) && !lastPeekIsMarked
      ensures size == old(size) && unmarkedSize == old(unmarkedSize) - old(bag)[old(at)].unmarked
      ensures bag == old(bag)[..old(at)] + old(bag)[old(at) + 1..]
      ensures lastPeekValid == (!randMode && size != 0 && old(at) != 0)
      ensures lastPeekValid ==> at == old(at) - 1 && uObj == bag[at].unmarked && mObj == bag[at].Marked()
    {
      hide Sum;
      TotalsErase(bag, at);
      var erase := at;
      lastPeekIsMarked := false;
      unmarkedSize := unmarkedSize - bag[at].unmarked;
      size := size - bag[at].total;
      dsize := dsize - 1;
      if randMode || size == 0 || at == 0 {
        lastPeekValid := false;
      } else {
        at := at - 1;
        uObj, mObj := bag[at].unmarked, bag[at].Marked();
      }
      bag := bag[..erase] + bag[erase + 1..];
    }

    method MarkAll()
      requires Valid()
      modifies this`bag, this`unmarkedSize, this`lastPeekIsMarked
      ensures Valid() && Proper() && bag == AllMarked(old(bag)) && lastPeekIsMarked
    {
      for k := 0 to |bag|
        invariant |bag| == |old(bag)|
        invariant forall j | 0 <= j < |bag| :: bag[j] == if j < k then old(bag)[j].(unmarked := 0) else old(bag)[j]
      {
        bag := bag[k := bag[k].(unmarked := 0)];
      }
      unmarkedSize := 0;
      lastPeekIsMarked := true;
      SumZero(Unmarkeds(bag));
      assert Totals(bag) == Totals(old(bag));
    }

    method UnmarkAll()
      requires Valid()
      modifies this`bag, this`unmarkedSize, this`lastPeekIsMarked
      ensures Valid() && Proper() && bag == AllUnmarked(old(bag)) && !lastPeekIsMarked
    {
      for k := 0 to |bag|
        invariant |bag| == |old(bag)|
        invariant forall j | 0 <= j < |bag| :: bag[j] == if j < k then old(bag)[j].(unmarked := old(bag)[j].total) else old(bag)[j]
      {
        bag := bag[k := bag[k].(unmarked := bag[k].total)];
      }
      unmarkedSize := size;
      lastPeekIsMarked := false;
      assert Totals(bag) == Totals(old(bag)) == Unmarkeds(bag);
    }

    method Clear()
      modifies this
      ensures Valid() && Proper() && bag == [] && !lastPeekValid && !lastPeekIsMarked
    {
      bag, size, dsize, unmarkedSize := [], 0, 0, 0;
      lastPeekIsMarked, lastPeekValid, randMode := false, false, true;
    }
  }

  /** The record a search starts from. */
  function StartAt(valid: bool, at: nat, distinct: bool, n: nat): (r: nat)
    requires valid ==> at < n
    ensures n > 0 ==> r < n
  {
    if !valid then 0 else if distinct then Following(at, n) else at
  }

  lemma SearchStarts(counts: seq<nat>, at: nat, seen: int)
    requires at < |counts|
    ensures Searching(counts, at, seen, at, seen)
  {
  }

  /** `abs((int)word % n)` on a 32-bit word. */
  function Residue(word: nat, n: int): (i: nat)
    requires word < WORD && n > 0
    ensures i < n
    ensures word < n && word < WORD / 2 ==> i == word
    ensures WORD - word < n && word >= WORD / 2 ==> i == WORD - word
  {
    SmallResidue(word, n);
    SmallResidue(WORD - word, n);
    if word < WORD / 2 then word % n else (WORD - word) % n
  }

  lemma SmallResidue(k: nat, n: nat)
    requires n > 0
    ensures k < n ==> k % n == k
  {
    if k < n { DivModUnique(k, n, 0, k); }
  }

  lemma ResidueInRange(word: nat, n: int)
    requires word < WORD && n > 0
    ensures Residue(word, n) < n
  {
  }

  // ---------------------------------------------------------------- what the peeks amount to

  /** A peek returns an object that has a copy of the kind asked for, unless the search stopped at once
      because the count of copies seen had gone negative on a record without such copies. */
  lemma PeekFindsCopyIff(counts: seq<nat>, limit: int, at0: nat, seen0: int, at: nat, seen: int)
    requires at0 < |counts| && at < |counts| && Advanced(counts, limit, at0, seen0, at, seen)
    requires counts[at0] == if limit > 0 then limit else 0
    ensures counts[at] > 0 <==> !(seen0 < 0 && seen0 < limit && counts[at0] == 0)
  {
  }

  /** A distinct peek goes to the first copy of a record and stays on its own one only if that one holds all. */
  lemma DistinctPeekMoves(counts: seq<nat>, a: nat, at: nat, seen: int)
    requires a < |counts| && Sum(counts) > 0
    requires var s := StartAt(true, a, true, |counts|); Advanced(counts, counts[s], s, 0, at, seen)
    ensures at < |counts| && seen == 1 && counts[at] > 0
    ensures at == a ==> Sum(counts) == counts[a]
  {
    hide Sum;
    var s := StartAt(true, a, true, |counts|);
    SumEnds(counts);
    CopiesBefore(counts, s);
    CopiesBefore(counts, a);
    CopiesBefore(counts, at);
    if at >= s { SumMonotone(counts, s, at); } else { SumMonotone(counts, at + 1, s); }
  }

  /** A run of 'u' peeks on an unchanging bag, from any place and any count of copies seen: an invalid cursor
      starts at the first record with none seen, and `mark` can leave a negative count. */
  ghost predicate PeekRun(counts: seq<nat>, at0: nat, seen0: int, ats: seq<nat>, seens: seq<int>) {
    && at0 < |counts| && |ats| == |seens| && (forall k | 0 <= k < |ats| :: ats[k] < |counts|)
    && (ats != [] ==> Advanced(counts, counts[at0], at0, seen0, ats[0], seens[0]))
    && forall k | 0 <= k < |ats| - 1 :: Advanced(counts, counts[ats[k]], ats[k], seens[k], ats[k + 1], seens[k + 1])
  }

  /** The copies passed before a run. */
  ghost function Start(counts: seq<nat>, at0: nat, seen0: nat): (p: nat)
    requires at0 < |counts|
  {
    Passed(counts, at0, Clamp(seen0, counts[at0]))
  }

  lemma StartInRange(counts: seq<nat>, at0: nat, seen0: nat)
    requires at0 < |counts|
    ensures Start(counts, at0, seen0) <= Sum(counts)
  {
    SumStep(counts, at0);
    SumMonotone(counts, at0 + 1, |counts|);
    SumEnds(counts);
  }

  lemma WrappedResidue(p: nat, n: nat)
    requires 0 < n && p <= n
    ensures p % n == if p == n then 0 else p
  {
    DivModUnique(p, n, if p == n then 1 else 0, if p == n then 0 else p);
  }

  /** The k-th peek sees copy number `k` from the start, modulo the number of copies. */
  lemma {:induction false} PeekRunOwner(counts: seq<nat>, at0: nat, seen0: nat, ats: seq<nat>, seens: seq<int>, k: nat)
    requires PeekRun(counts, at0, seen0, ats, seens) && k < |ats| && Sum(counts) > 0
    ensures 1 <= seens[k] <= counts[ats[k]]
    ensures Passed(counts, ats[k], seens[k]) == (Start(counts, at0, seen0) + k) % Sum(counts) + 1
    ensures ats[k] == Owner(counts, (Start(counts, at0, seen0) + k) % Sum(counts))
  {
    hide Sum, Owner;
    if k == 0 {
      StartInRange(counts, at0, seen0);
      WrappedResidue(Start(counts, at0, seen0), Sum(counts));
    } else {
      PeekRunOwner(counts, at0, seen0, ats, seens, k - 1);
      NextResidue(Start(counts, at0, seen0) + k - 1, Sum(counts));
      var j := k - 1;
      assert Advanced(counts, counts[ats[j]], ats[j], seens[j], ats[j + 1], seens[j + 1]);
    }
    PassedOwner(counts, ats[k], seens[k]);
  }

  ghost function Visits(ats: seq<nat>, lo: nat, hi: nat, j: nat): (r: set<nat>)
    requires lo <= hi <= |ats|
  {
    set k: nat | lo <= k < hi && ats[k] == j
  }

  /** From a count that is not negative: in any `n` peeks on end, `n` being the number of copies, each record is
      seen exactly as often as it has copies. */
  lemma StretchVisits(counts: seq<nat>, at0: nat, seen0: nat, ats: seq<nat>, seens: seq<int>, first: nat, j: nat)
    requires PeekRun(counts, at0, seen0, ats, seens) && Sum(counts) > 0 && j < |counts|
    requires first + Sum(counts) <= |ats|
    ensures |Visits(ats, first, first + Sum(counts), j)| == counts[j]
  {
    hide *;
    RunNotEmpty(counts, at0, seen0, ats, seens);
    var n, start := Sum(counts), Start(counts, at0, seen0);
    CopiesBefore(counts, j);
    var lo, hi := Sum(counts[..j]), Sum(counts[..j + 1]);
    var visits, window := Visits(ats, first, first + n, j), Window(start + first, n, lo, hi);
    forall k: nat | first <= k < first + n ensures ats[k] == j <==> lo <= (start + k) % n < hi {
      VisitIff(counts, at0, seen0, ats, seens, k, j);
    }
    VisitsShifted(ats, first, j, start, n, lo, hi);
    ShiftSize(visits, start);
    WindowSize(start + first, n, lo, hi);
  }

  lemma CopiesBefore(counts: seq<nat>, j: nat)
    requires j < |counts|
    ensures Sum(counts[..j]) <= Sum(counts[..j + 1]) <= Sum(counts)
    ensures Sum(counts[..j + 1]) - Sum(counts[..j]) == counts[j]
  {
    hide Sum;
    SumStep(counts, j);
    SumMonotone(counts, j + 1, |counts|);
    SumEnds(counts);
  }

  lemma VisitsShifted(ats: seq<nat>, first: nat, j: nat, start: nat, n: nat, lo: nat, hi: nat)
    requires n > 0 && first + n <= |ats|
    requires forall k: nat | first <= k < first + n :: ats[k] == j <==> lo <= (start + k) % n < hi
    ensures Shifted(Visits(ats, first, first + n, j), start) == Window(start + first, n, lo, hi)
  {
    hide Shifted;
    var visits, window := Visits(ats, first, first + n, j), Window(start + first, n, lo, hi);
    forall k: nat | first <= k < first + n ensures k in visits <==> k + start in window {
      assert k in visits <==> ats[k] == j;
    }
    ShiftedIs(visits, start, window, first + start);
  }

  lemma RunNotEmpty(counts: seq<nat>, at0: nat, seen0: int, ats: seq<nat>, seens: seq<int>)
    requires PeekRun(counts, at0, seen0, ats, seens)
    ensures at0 < |counts| && |ats| == |seens|
  {
  }

  lemma VisitIff(counts: seq<nat>, at0: nat, seen0: nat, ats: seq<nat>, seens: seq<int>, k: nat, j: nat)
    requires PeekRun(counts, at0, seen0, ats, seens) && Sum(counts) > 0 && j < |counts| && k < |ats|
    ensures ats[k] == j <==> Sum(counts[..j]) <= (Start(counts, at0, seen0) + k) % Sum(counts) < Sum(counts[..j + 1])
  {
    hide Sum, Owner, PeekRun, Start;
    RunNotEmpty(counts, at0, seen0, ats, seens);
    var i := (Start(counts, at0, seen0) + k) % Sum(counts);
    PeekRunOwner(counts, at0, seen0, ats, seens, k);
    OwnerBounds(counts, i);
    if Sum(counts[..j]) <= i < Sum(counts[..j + 1]) { OwnerUnique(counts, i, j); }
  }

  /** The numbers among `n` on end whose residue is in a range. */
  ghost function Window(m: nat, n: nat, lo: nat, hi: nat): set<nat>
    requires n > 0
  {
    set k: nat | m <= k < m + n && ResidueIn(k, n, lo, hi)
  }

  predicate ResidueIn(k: nat, n: nat, lo: nat, hi: nat)
    requires n > 0
  {
    lo <= k % n < hi
  }

  lemma {:induction false} WindowSize(m: nat, n: nat, lo: nat, hi: nat)
    requires n > 0 && lo <= hi <= n
    ensures |Window(m, n, lo, hi)| == hi - lo
  {
    if m == 0 {
      forall k: nat | k < n ensures k % n == k { WrappedResidue(k, n); }
      assert Window(0, n, lo, hi) == NumbersFrom(lo, hi);
    } else {
      WindowSize(m - 1, n, lo, hi);
      SameResidue(m - 1, n);
      NextWindow(m - 1, n, lo, hi);
    }
  }

  /** The next window drops one number and takes in one with the same residue. */
  lemma NextWindow(m: nat, n: nat, lo: nat, hi: nat)
    requires n > 0 && (m + n) % n == m % n
    ensures |Window(m + 1, n, lo, hi)| == |Window(m, n, lo, hi)|
  {
    var one, two := Window(m, n, lo, hi), Window(m + 1, n, lo, hi);
    assert ResidueIn(m + n, n, lo, hi) == ResidueIn(m, n, lo, hi);
    hide ResidueIn;
    if ResidueIn(m, n, lo, hi) {
      assert two == one - {m} + {m + n};
    } else {
      assert one == two;
    }
  }

  lemma SameResidue(k: nat, n: nat)
    requires n > 0
    ensures (k + n) % n == k % n
  {
    DivisionOf(k, n);
    DivModUnique(k + n, n, k / n + 1, k % n);
  }

  ghost function Shifted(ks: set<nat>, c: nat): set<nat> {
    set k | k in ks :: k + c
  }

  lemma {:induction false} ShiftSize(ks: set<nat>, c: nat)
    ensures |Shifted(ks, c)| == |ks|
  {
    if ks != {} {
      var k :| k in ks;
      ShiftSize(ks - {k}, c);
      var rest := Shifted(ks - {k}, c);
      forall i ensures i in Shifted(ks, c) <==> i in rest + {k + c} {
        if i in rest { var k' :| k' in ks - {k} && k' + c == i; assert k' in ks; }
        if i in Shifted(ks, c) && i != k + c { var k' :| k' in ks && k' + c == i; assert k' in ks - {k}; }
      }
      assert Shifted(ks, c) == rest + {k + c};
    }
  }

  lemma ShiftedIs(ks: set<nat>, c: nat, window: set<nat>, lo: nat)
    requires c <= lo && (forall k | k in ks :: lo <= k + c) && forall k | k in window :: lo <= k
    requires forall k: nat | lo <= k + c :: k in ks <==> k + c in window
    ensures Shifted(ks, c) == window
  {
    forall i | i in window ensures i in Shifted(ks, c) {
      var k: nat := i - c;
      assert k in ks && i == k + c;
    }
  }

  // ---------------------------------------------------------------- random peeks

  /** The words among `n` on end that take one of the copies from `lo` up to `hi`. */
  ghost function Chosen(m: nat, n: nat, lo: nat, hi: nat): set<nat>
    requires n > 0 && m + n <= WORD
  {
    set w: nat | m <= w < m + n && lo <= Residue(w, n) < hi
  }

  /** Within either half of the words any `n` on end give every residue once. */
  lemma EvenResidues(m: nat, n: nat, lo: nat, hi: nat)
    requires n > 0 && lo <= hi <= n && (m + n <= WORD / 2 || (WORD / 2 <= m && m + n <= WORD))
    ensures |Chosen(m, n, lo, hi)| == hi - lo
  {
    var chosen := Chosen(m, n, lo, hi);
    if m + n <= WORD / 2 {
      WindowSize(m, n, lo, hi);
      assert chosen == Window(m, n, lo, hi);
    } else {
      var first := WORD - m - n + 1;
      WindowSize(first, n, lo, hi);
      MirrorSize(chosen, WORD);
      MirroredWindow(m, n, lo, hi);
    }
  }

  lemma MirroredWindow(m: nat, n: nat, lo: nat, hi: nat)
    requires n > 0 && WORD / 2 <= m && m + n <= WORD
    ensures Mirrored(Chosen(m, n, lo, hi), WORD) == Window(WORD - m - n + 1, n, lo, hi)
  {
    var chosen, window := Chosen(m, n, lo, hi), Window(WORD - m - n + 1, n, lo, hi);
    forall k | k in window ensures k in Mirrored(chosen, WORD) {
      var w: nat := WORD - k;
      assert w in chosen && k == WORD - w;
    }
  }

  /** The numbers at the same distances below `c`. */
  ghost function Mirrored(ks: set<nat>, c: nat): set<int> {
    set k | k in ks :: c - k
  }

  lemma {:induction false} MirrorSize(ks: set<nat>, c: nat)
    ensures |Mirrored(ks, c)| == |ks|
  {
    if ks != {} {
      var k :| k in ks;
      MirrorSize(ks - {k}, c);
      var rest := Mirrored(ks - {k}, c);
      assert Mirrored(ks, c) == rest + {c - k} by {
        forall i ensures i in Mirrored(ks, c) <==> i in rest + {c - k} {
          if i in rest { var k' :| k' in ks - {k} && c - k' == i; assert k' in ks; }
          if i in Mirrored(ks, c) && i != c - k { var k' :| k' in ks && c - k' == i; assert k' in ks - {k}; }
        }
      }
    }
  }

  /** The words that make a random peek return record `j`. */
  ghost function WordsFor<T>(bag: seq<Record<T>>, m: nat, j: nat): set<nat>
    requires var n := Sum(Unmarkeds(bag)); n > 0 && m + n <= WORD
  {
    var n := Sum(Unmarkeds(bag));
    set w: nat | m <= w < m + n && Owner(Unmarkeds(bag), Residue(w, n)) == j
  }

  /** Of as many words on end as there are unmarked copies, each record is returned for as many as it has. */
  lemma RandomPeeksEven<T>(bag: seq<Record<T>>, m: nat, j: nat)
    requires j < |bag| && Sum(Unmarkeds(bag)) > 0
    requires var n := Sum(Unmarkeds(bag)); m + n <= WORD / 2 || (WORD / 2 <= m && m + n <= WORD)
    ensures |WordsFor(bag, m, j)| == bag[j].unmarked
  {
    hide Sum, Owner, Residue;
    var us := Unmarkeds(bag);
    var n, lo, hi := Sum(us), Sum(us[..j]), Sum(us[..j + 1]);
    CopiesBefore(us, j);
    EvenResidues(m, n, lo, hi);
    forall w: nat | m <= w < m + n ensures Owner(us, Residue(w, n)) == j <==> lo <= Residue(w, n) < hi {
      OwnerBounds(us, Residue(w, n));
      if lo <= Residue(w, n) < hi { OwnerUnique(us, Residue(w, n), j); }
    }
    assert WordsFor(bag, m, j) == Chosen(m, n, lo, hi);
  }

  /** While the count of copies seen is negative every peek stays where it is. */
  lemma {:induction false} StuckWhileNegative(counts: seq<nat>, at0: nat, seen0: int, ats: seq<nat>, seens: seq<int>, k: nat)
    requires PeekRun(counts, at0, seen0, ats, seens) && k < |ats| && seen0 + k < 0
    ensures ats[k] == at0 && seens[k] == seen0 + k + 1
  {
    if k > 0 {
      StuckWhileNegative(counts, at0, seen0, ats, seens, k - 1);
      var j := k - 1;
      assert Advanced(counts, counts[ats[j]], ats[j], seens[j], ats[j + 1], seens[j + 1]);
    }
  }

  /** Then it goes on as from the first copy of its record. */
  lemma RunAfterStuck(counts: seq<nat>, at0: nat, seen0: int, ats: seq<nat>, seens: seq<int>, d: nat)
    requires PeekRun(counts, at0, seen0, ats, seens) && seen0 < 0 && d == 0 - seen0 <= |ats|
    ensures PeekRun(counts, at0, 0, ats[d..], seens[d..])
  {
    StuckWhileNegative(counts, at0, seen0, ats, seens, d - 1);
    var as', ss := ats[d..], seens[d..];
    if as' != [] {
      var j := d - 1;
      assert Advanced(counts, counts[ats[j]], ats[j], seens[j], ats[j + 1], seens[j + 1]);
    }
    forall k | 0 <= k < |as'| - 1 ensures Advanced(counts, counts[as'[k]], as'[k], ss[k], as'[k + 1], ss[k + 1]) {
      var j := d + k;
      assert Advanced(counts, counts[ats[j]], ats[j], seens[j], ats[j + 1], seens[j + 1]);
    }
  }

  /** And sees all copies of that record first. */
  lemma StillThere(counts: seq<nat>, at0: nat, ats: seq<nat>, seens: seq<int>, k: nat)
    requires PeekRun(counts, at0, 0, ats, seens) && k < |ats| && k < counts[at0]
    ensures ats[k] == at0
  {
    hide Sum, Owner, PeekRun;
    RunNotEmpty(counts, at0, 0, ats, seens);
    CopiesBefore(counts, at0);
    PeekRunOwner(counts, at0, 0, ats, seens, k);
    WrappedResidue(Sum(counts[..at0]) + k, Sum(counts));
    OwnerUnique(counts, Sum(counts[..at0]) + k, at0);
  }

  /** Every record is seen as often as it has copies. */
  ghost predicate EvenVisits(counts: seq<nat>, ats: seq<nat>, first: nat)
    requires first + Sum(counts) <= |ats|
  {
    forall j: nat | j < |counts| :: |Visits(ats, first, first + Sum(counts), j)| == counts[j]
  }

  /** Rounds of 'u' peeks: any `n` peeks on end, `n` being the number of unmarked copies, see every record as
      often as it has such copies, if and only if the count of copies seen is not negative any more when
      they begin, or all copies are of the one record the cursor is on. */
  lemma RoundVisits(counts: seq<nat>, at0: nat, seen0: int, ats: seq<nat>, seens: seq<int>, first: nat)
    requires PeekRun(counts, at0, seen0, ats, seens) && Sum(counts) > 0 && first + Sum(counts) <= |ats|
    ensures EvenVisits(counts, ats, first) <==> first + seen0 >= 0 || counts[at0] == Sum(counts)
  {
    hide Sum, PeekRun, Visits;
    RunNotEmpty(counts, at0, seen0, ats, seens);
    if first + seen0 >= 0 {
      forall j: nat | j < |counts| ensures |Visits(ats, first, first + Sum(counts), j)| == counts[j] {
        if seen0 >= 0 { StretchVisits(counts, at0, seen0, ats, seens, first, j); } else { LaterVisits(counts, at0, seen0, ats, seens, first, j); }
      }
    } else if counts[at0] == Sum(counts) {
      forall j: nat | j < |counts| ensures |Visits(ats, first, first + Sum(counts), j)| == counts[j] {
        OneRecordVisits(counts, at0, seen0, ats, seens, first, j);
      }
    } else {
      TooManyVisits(counts, at0, seen0, ats, seens, first);
    }
  }

  lemma LaterVisits(counts: seq<nat>, at0: nat, seen0: int, ats: seq<nat>, seens: seq<int>, first: nat, j: nat)
    requires PeekRun(counts, at0, seen0, ats, seens) && Sum(counts) > 0 && j < |counts|
    requires seen0 < 0 && first + seen0 >= 0 && first + Sum(counts) <= |ats|
    ensures |Visits(ats, first, first + Sum(counts), j)| == counts[j]
  {
    hide Sum, PeekRun;
    RunNotEmpty(counts, at0, seen0, ats, seens);
    var d, n := 0 - seen0, Sum(counts);
    RunAfterStuck(counts, at0, seen0, ats, seens, d);
    StretchVisits(counts, at0, 0, ats[d..], seens[d..], first - d, j);
    VisitsLater(ats, d, first, n, j);
    ShiftSize(Visits(ats[d..], first - d, first - d + n, j), d);
  }

  lemma VisitsLater(ats: seq<nat>, d: nat, first: nat, n: nat, j: nat)
    requires d <= first && first + n <= |ats|
    ensures Shifted(Visits(ats[d..], first - d, first - d + n, j), d) == Visits(ats, first, first + n, j)
  {
    var rest := ats[d..];
    var late, here := Visits(rest, first - d, first - d + n, j), Visits(ats, first, first + n, j);
    forall k | k in here ensures k in Shifted(late, d) {
      var i: nat := k - d;
      assert rest[i] == ats[k] && i in late && k == i + d;
    }
    forall k | k in Shifted(late, d) ensures k in here {
      var i :| i in late && k == i + d;
      assert rest[i] == ats[k];
    }
  }

  /** All copies of one record: it is seen every time. */
  lemma OneRecordVisits(counts: seq<nat>, at0: nat, seen0: int, ats: seq<nat>, seens: seq<int>, first: nat, j: nat)
    requires PeekRun(counts, at0, seen0, ats, seens) && Sum(counts) > 0 && j < |counts| && at0 < |counts|
    requires seen0 < 0 && counts[at0] == Sum(counts) && first + Sum(counts) <= |ats|
    ensures |Visits(ats, first, first + Sum(counts), j)| == counts[j]
  {
    hide Sum, PeekRun;
    var n := Sum(counts);
    forall k: nat | k < |ats| ensures ats[k] == at0 { AlwaysThere(counts, at0, seen0, ats, seens, k); }
    if j == at0 {
      assert Visits(ats, first, first + n, j) == NumbersFrom(first, first + n);
    } else {
      OthersEmpty(counts, at0, j);
      assert Visits(ats, first, first + n, j) == {};
    }
  }

  lemma OthersEmpty(counts: seq<nat>, at0: nat, j: nat)
    requires at0 < |counts| && j < |counts| && j != at0 && counts[at0] == Sum(counts)
    ensures counts[j] == 0
  {
    hide Sum;
    SumUpdate(counts, at0, 0);
    var rest := counts[at0 := 0];
    CopiesBefore(rest, j);
    assert rest[j] == counts[j];
  }

  lemma AlwaysThere(counts: seq<nat>, at0: nat, seen0: int, ats: seq<nat>, seens: seq<int>, k: nat)
    requires PeekRun(counts, at0, seen0, ats, seens) && k < |ats| && at0 < |counts| && Sum(counts) > 0
    requires seen0 < 0 && counts[at0] == Sum(counts)
    ensures ats[k] == at0
  {
    var d: nat := 0 - seen0;
    if k < d {
      StuckWhileNegative(counts, at0, seen0, ats, seens, k);
    } else {
      RunAfterStuck(counts, at0, seen0, ats, seens, d);
      assert ats[d..][k - d] == ats[k];
      hide Sum;
      PeekRunOwner(counts, at0, 0, ats[d..], seens[d..], k - d);
      if ats[k] != at0 { OthersEmpty(counts, at0, ats[k]); }
    }
  }

  /** Else the record the cursor is on is seen too often. */
  lemma TooManyVisits(counts: seq<nat>, at0: nat, seen0: int, ats: seq<nat>, seens: seq<int>, first: nat)
    requires PeekRun(counts, at0, seen0, ats, seens) && Sum(counts) > 0 && at0 < |counts|
    requires first + seen0 < 0 && counts[at0] != Sum(counts) && first + Sum(counts) <= |ats|
    ensures |Visits(ats, first, first + Sum(counts), at0)| > counts[at0]
  {
    hide Sum, PeekRun;
    RunNotEmpty(counts, at0, seen0, ats, seens);
    CopiesBefore(counts, at0);
    var d, n := 0 - seen0, Sum(counts);
    var end := if first + n < d + counts[at0] then first + n else d + counts[at0];
    var there, visits := NumbersFrom(first, end), Visits(ats, first, first + n, at0);
    forall k: nat | first <= k < end ensures ats[k] == at0 {
      if k < d {
        StuckWhileNegative(counts, at0, seen0, ats, seens, k);
      } else {
        RunAfterStuck(counts, at0, seen0, ats, seens, d);
        StillThere(counts, at0, ats[d..], seens[d..], k - d);
      }
    }
    assert there <= visits;
    SubsetSize(there, visits);
  }

  lemma SubsetSize(a: set<nat>, b: set<nat>)
    requires a <= b
    ensures |a| <= |b|
  {
    assert b == a + (b - a);
  }

  /** `peekNext('u')` called over and over: a run in the sense of `RoundVisits`. */
  method Peeks<T>(b: Bag<T>, count: nat) returns (seen: seq<T>, ghost at0: nat, ghost seen0: int, ghost ats: seq<nat>, ghost seens: seq<int>)
    requires b.Valid() && b.unmarkedSize > 0
    modifies b`at, b`uObj, b`mObj, b`lastPeekValid, b`lastPeekIsMarked, b`randMode, b`rlock
    ensures b.Valid() && |seen| == |ats| == count
    ensures at0 == StartAt(old(b.lastPeekValid), old(b.at), false, |b.bag|) && seen0 == if old(b.lastPeekValid) then old(b.uObj) else 0
    ensures PeekRun(Unmarkeds(b.bag), at0, seen0, ats, seens)
    ensures forall k | 0 <= k < count :: ats[k] < |b.bag| && seen[k] == b.bag[ats[k]].element
  {
    hide Advanced, Sum;
    ghost var counts := Unmarkeds(b.bag);
    SomeRecord(counts);
    at0, seen0 := StartAt(b.lastPeekValid, b.at, false, |b.bag|), if b.lastPeekValid then b.uObj else 0;
    seen, ats, seens := [], [], [];
    for k := 0 to count
      invariant b.Valid() && b.unmarkedSize > 0 && Unmarkeds(b.bag) == counts && |seen| == k && |ats| == |seens| == k
      invariant if k == 0 then at0 == StartAt(b.lastPeekValid, b.at, false, |b.bag|) && seen0 == (if b.lastPeekValid then b.uObj else 0)
                else b.lastPeekValid && b.at == ats[k - 1] && b.uObj == seens[k - 1]
      invariant PeekRun(counts, at0, seen0, ats, seens)
      invariant forall i | 0 <= i < k :: ats[i] < |b.bag| && seen[i] == b.bag[ats[i]].element
    {
      var r := b.PeekNextUnmarked(false);
      ghost var before, beforeSeens := ats, seens;
      seen, ats, seens := seen + [r.value], ats + [b.at], seens + [b.uObj];
      RunExtends(counts, at0, seen0, before, beforeSeens, b.at, b.uObj);
    }
  }

  lemma RunExtends(counts: seq<nat>, at0: nat, seen0: int, ats: seq<nat>, seens: seq<int>, at: nat, seen: int)
    requires PeekRun(counts, at0, seen0, ats, seens) && at < |counts|
    requires if ats == [] then Advanced(counts, counts[at0], at0, seen0, at, seen)
             else Advanced(counts, counts[ats[|ats| - 1]], ats[|ats| - 1], seens[|ats| - 1], at, seen)
    ensures PeekRun(counts, at0, seen0, ats + [at], seens + [seen])
  {
    hide Advanced;
    var as', ss, n := ats + [at], seens + [seen], |ats|;
    forall k | 0 <= k < |as'| - 1 ensures Advanced(counts, counts[as'[k]], as'[k], ss[k], as'[k + 1], ss[k + 1]) {
      if k < n - 1 {
        assert as'[k] == ats[k] && as'[k + 1] == ats[k + 1] && ss[k] == seens[k] && ss[k + 1] == seens[k + 1];
      } else {
        assert as'[k] == ats[n - 1] && as'[k + 1] == at && ss[k] == seens[n - 1] && ss[k + 1] == seen;
      }
    }
  }

  lemma SumTwo(a: nat, b: nat)
    ensures Sum([a, b]) == a + b && Sum([a, b][..0]) == 0 && Sum([a, b][..1]) == a
  {
    var s := [a, b];
    assert s[..0] == [];
    assert s[..1] == [a];
    SumStep(s, 0);
    SumStep(s, 1);
    SumEnds(s);
  }

  lemma FirstOfTwo(a: nat, b: nat, at: nat, seen: int)
    requires a > 0 && Advanced([a, b], a, 0, 0, at, seen)
    ensures at == 0 && seen == 1
  {
    SumTwo(a, b);
    assert Passed([a, b], 0, Clamp(0, a)) == 0;
  }

  lemma NegativeStays(counts: seq<nat>, limit: int, at0: nat, seen0: int, at: nat, seen: int)
    requires at0 < |counts| && seen0 < 0 && seen0 < limit && Advanced(counts, limit, at0, seen0, at, seen)
    ensures at == at0 && seen == seen0 + 1
  {
  }

  /** `add` two records, mark everything, look at the first marked object. */
  method MarkedPair() returns (b: Bag<nat>)
    ensures fresh(b) && b.Valid() && b.bag == [Record(0, 3, 0), Record(1, 1, 0)]
    ensures b.lastPeekValid && b.lastPeekIsMarked && b.at == 0 && b.mObj == 1
  {
    hide *;
    b := new Bag<nat>();
    var error := b.Add(0, 3);
    error := b.Add(1, 1);
    assert b.bag == [Record(0, 3, 3), Record(1, 1, 1)];
    b.MarkAll();
    PairCounts(b);
    StartsAtFirst(b.at, |b.bag|);
    var r := b.PeekNextMarked(false);
    FirstOfTwo(3, 1, b.at, b.mObj);
  }

  lemma PairCounts(b: Bag<nat>)
    requires b.Valid() && b.bag == AllMarked([Record(0, 3, 3), Record(1, 1, 1)])
    ensures b.bag == [Record(0, 3, 0), Record(1, 1, 0)] && b.bag[0].Marked() == 3
    ensures b.size == 4 && b.unmarkedSize == 0 && Marks(b.bag) == [3, 1]
  {
    hide Sum;
    assert Totals(b.bag) == [3, 1] && Unmarkeds(b.bag) == [0, 0] && Marks(b.bag) == [3, 1];
    SumTwo(3, 1);
    SumTwo(0, 0);
  }

  lemma StartsAtFirst(at: nat, n: nat)
    ensures StartAt(false, at, false, n) == 0
  {
  }

  /** Then unmark all of its copies and look for the next marked object. */
  method UnmarkedPair() returns (b: Bag<nat>)
    ensures fresh(b) && b.Valid() && b.bag == [Record(0, 3, 3), Record(1, 1, 0)]
    ensures b.lastPeekValid && b.lastPeekIsMarked && b.at == 0 && b.mObj == -1 && !b.rlock && !b.randMode
  {
    hide *;
    b := MarkedPair();
    MarkedOf(0, 3, 0);
    var error := b.UnMark(true);
    assert b.bag == [Record(0, 3, 3), Record(1, 1, 0)];
    MarkedOf(0, 3, 3);
    UnmarkedCounts(b);
    StartsHere(b.at, |b.bag|);
    var r := b.PeekNextMarked(false);
    NegativeStays(Marks(b.bag), 0, 0, -2, b.at, b.mObj);
  }

  lemma MarkedOf(element: nat, total: nat, unmarked: nat)
    ensures Record(element, total, unmarked).Marked() == total - unmarked
  {
  }

  lemma UnmarkedCounts(b: Bag<nat>)
    requires b.Valid() && b.bag == [Record(0, 3, 3), Record(1, 1, 0)]
    ensures b.size == 4 && b.unmarkedSize == 3 && Marks(b.bag) == [0, 1]
  {
    hide Sum;
    assert Totals(b.bag) == [3, 1] && Unmarkeds(b.bag) == [3, 0];
    SumTwo(3, 1);
    SumTwo(3, 0);
  }

  lemma StartsHere(at: nat, n: nat)
    requires at < n
    ensures StartAt(true, at, false, n) == at
  {
  }

  /** A run that ends with more unmarked copies than copies: after `unMark` of all copies the count of
      marked copies seen is negative, the next 'm' peek returns an object without marked copies, and
      `remove` then takes a copy off the total only. */
  method OvermarkedRun() returns (b: Bag<nat>)
    ensures fresh(b) && b.Valid() && !b.Proper() && b.bag == [Record(0, 2, 3), Record(1, 1, 0)]
  {
    hide Sum, CountsAfterPop, Totals, Unmarkeds;
    b := UnmarkedPair();
    var error := b.Remove(false);
    assert b.bag[0] == Record(0, 2, 3);
  }

  /** `add` two records, look at the first, mark all of its copies, and look at the next unmarked object: it is
      the first one again, whose copies are all marked, although the second has an unmarked copy. */
  method MarkedPeek() returns (b: Bag<nat>, r: Option<nat>)
    ensures fresh(b) && b.Valid() && b.Proper() && b.bag == [Record(0, 3, 0), Record(1, 1, 1)]
    ensures r == Some(0) && b.uObj == -1
  {
    hide *;
    b := new Bag<nat>();
    var error := b.Add(0, 3);
    error := b.Add(1, 1);
    assert b.bag == [Record(0, 3, 3), Record(1, 1, 1)];
    UnmarkedPairCounts(b, 3);
    StartsAtFirst(b.at, |b.bag|);
    r := b.PeekNextUnmarked(false);
    FirstOfTwo(3, 1, b.at, b.uObj);
    error := b.Mark(true);
    assert b.bag == [Record(0, 3, 0), Record(1, 1, 1)];
    UnmarkedPairCounts(b, 0);
    StartsHere(b.at, |b.bag|);
    r := b.PeekNextUnmarked(false);
    NegativeStays(Unmarkeds(b.bag), 0, 0, -2, b.at, b.uObj);
  }

  lemma UnmarkedPairCounts(b: Bag<nat>, c: nat)
    requires b.Valid() && b.bag == [Record(0, 3, c), Record(1, 1, 1)]
    ensures b.unmarkedSize == c + 1 && Unmarkeds(b.bag) == [c, 1]
  {
    hide Sum;
    assert Unmarkeds(b.bag) == [c, 1];
    SumTwo(c, 1);
  }
}

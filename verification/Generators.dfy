/** Value generators over an interval-list constraint: random, random without repetition, and scan. */
module Generators {
  import opened Options
  import opened Words
  import opened Randomness
  import opened Intervals
  import opened Scans
  import opened Cycles
  import opened Ranges

  /** The value after `current` in a scan over `s`; after the last the scan restarts at the lower bound of `all`. */
  function NextScan(s: seq<Interval>, all: seq<Interval>, current: Option<nat>, increment: nat): nat
    requires Ordered(s, WORD) && s != [] && all != [] && 0 < increment
  {
    if current.None? then s[0].lo
    else
      var next := ScanValue(s, current.value, increment, WORD);
      if next == current.value then all[0].lo else next
  }

  /** Whether the scan restarts. */
  predicate Restarts(s: seq<Interval>, current: Option<nat>, increment: nat)
    requires Ordered(s, WORD) && s != [] && 0 < increment
  {
    current.Some? && ScanValue(s, current.value, increment, WORD) == current.value
  }

  /** The least of a set of values. */
  ghost predicate Lowest(vs: set<nat>, v: nat) {
    v in vs && forall u | u in vs :: v <= u
  }

  /** A value of the list a positive whole number of steps above `base`. */
  ghost predicate StepAbove(s: seq<Interval>, base: nat, increment: nat, u: nat)
    requires increment > 0
  {
    u > base && (u - base) % increment == 0 && Covers(s, u)
  }

  /** The least value of the list above `base` by a whole number of steps or, when there is none, the least
      legal value. */
  ghost predicate StepsTo(s: seq<Interval>, all: set<nat>, base: nat, increment: nat, v: nat)
    requires increment > 0
  {
    if forall u: nat :: !StepAbove(s, base, increment, u) then Lowest(all, v)
    else StepAbove(s, base, increment, v) && forall u: nat | StepAbove(s, base, increment, u) :: v <= u
  }

  /** What a scan promises: it starts at the least value of its list and, unless its steps can lap, goes up in
      steps of the increment. */
  ghost predicate ScanGives(s: seq<Interval>, all: set<nat>, current: Option<nat>, increment: nat, v: nat) {
    if current.None? then Lowest(Legal(s, WORD), v)
    else current.value < WORD && 0 < increment < WORD && !CanLap(current.value, increment, WORD) ==>
      StepsTo(s, all, current.value, increment, v)
  }

  /** Unless its steps can lap, a scan goes up in steps of the increment and restarts when no value is left. */
  lemma NextScanSteps(s: seq<Interval>, all: seq<Interval>, base: nat, increment: nat)
    requires Ordered(s, WORD) && s != [] && Ordered(all, WORD) && all != []
    requires base < WORD && 0 < increment < WORD && !CanLap(base, increment, WORD)
    ensures StepsTo(s, Legal(all, WORD), base, increment, NextScan(s, all, Some(base), increment))
    ensures Restarts(s, Some(base), increment) <==> forall u: nat :: !StepAbove(s, base, increment, u)
  {
    hide Covers, CanLap, ScanValue, Lowest;
    ScanExact(s, base, increment, WORD);
    forall u: nat ensures Candidate(s, base, increment, base + 1, u) <==> StepAbove(s, base, increment, u) {}
    LowerBoundLowest(all);
    LeastSteps(s, Legal(all, WORD), base, increment, ScanValue(s, base, increment, WORD), all[0].lo);
  }

  lemma LeastSteps(s: seq<Interval>, all: set<nat>, base: nat, increment: nat, r: nat, lower: nat)
    requires increment > 0 && Least(s, base, increment, base + 1, r) && Lowest(all, lower)
    requires forall u: nat :: Candidate(s, base, increment, base + 1, u) <==> StepAbove(s, base, increment, u)
    ensures StepsTo(s, all, base, increment, if r == base then lower else r)
    ensures r == base <==> forall u: nat :: !StepAbove(s, base, increment, u)
  {
    hide Covers, Lowest;
    if r == base {
      forall u: nat ensures !StepAbove(s, base, increment, u) { assert !Candidate(s, base, increment, base + 1, u); }
    } else {
      assert StepAbove(s, base, increment, r);
      forall u: nat | StepAbove(s, base, increment, u) ensures r <= u { assert Candidate(s, base, increment, base + 1, u); }
    }
  }

  lemma NextScanGives(s: seq<Interval>, all: seq<Interval>, current: Option<nat>, increment: nat)
    requires Ordered(s, WORD) && s != [] && Ordered(all, WORD) && all != [] && 0 < increment
    ensures ScanGives(s, Legal(all, WORD), current, increment, NextScan(s, all, current, increment))
  {
    hide Covers, CanLap, ScanValue, Lowest, StepsTo, Legal;
    if current.None? {
      LowerBoundLowest(s);
    } else if current.value < WORD && increment < WORD && !CanLap(current.value, increment, WORD) {
      NextScanSteps(s, all, current.value, increment);
    }
  }

  /** A scan starts at the least value of its list. */
  lemma {:induction false} LowerBoundLowest(s: seq<Interval>)
    requires Ordered(s, WORD) && s != []
    ensures Lowest(Legal(s, WORD), s[0].lo)
  {
    assert In(s[0], s[0].lo);
    forall u | u in Legal(s, WORD) ensures s[0].lo <= u {
      var k :| 0 <= k < |s| && In(s[k], u);
    }
  }

  /** The value a word selects from a set: as many elements are below it as the remainder of the word says. */
  ghost predicate DrawnFrom(vs: set<nat>, v: nat, word: nat) {
    v in vs && |Smaller(vs, v)| == word % |vs|
  }

  /** An increment drawn from bounds: the lower bound plus the remainder of the word. */
  lemma BoundsDrawn(vs: set<nat>, lb: nat, ub: nat, v: nat, word: nat)
    requires lb <= ub && (forall u: nat :: u in vs <==> lb <= u <= ub) && DrawnFrom(vs, v, word)
    ensures v == lb + word % (ub - lb + 1)
  {
    BetweenSize(lb, ub);
    assert vs == Between(lb, ub);
    if v == lb {
      assert Smaller(vs, v) == {};
    } else {
      BetweenSize(lb, v - 1);
      assert Smaller(vs, v) == Between(lb, v - 1);
    }
  }

  lemma RandomPositive(s: seq<Interval>, word: nat)
    requires Ordered(s, WORD) && s != [] && !Covers(s, 0) && word < WORD
    ensures 0 < RandomValue(s, word) < WORD
  {
    TotalPositive(s, WORD);
    ZeroSizeIffFull(s, WORD);
    if !Full(s, WORD) {
      hide Covers;
      NthLegal(s, word % Total(s), WORD);
    }
  }

  class RangeGenerator {
    const simple: ConstraintRange
    const ongoing: ConstraintRange
    const gen: RandomStream
    var ongoingValid: bool
    var currentScanValueValid: bool
    var currentScanValue: nat
    var scanIncrement: nat
    var scanFixedIncrement: bool
    var scanInterval: ConstraintRange?

    ghost predicate Valid()
      reads this, simple, ongoing, scanInterval
    {
      && simple != ongoing && simple.Valid() && ongoing.Valid()
      && (ongoingValid ==> (ongoing.isEmpty <==> simple.isEmpty))
      && (currentScanValueValid ==> currentScanValue < WORD)
      && scanIncrement < WORD && (scanFixedIncrement <==> scanInterval == null)
      && (scanInterval == null ==> scanIncrement > 0)
      && (scanInterval != null ==>
            && scanInterval != simple && scanInterval != ongoing && scanInterval.Valid()
            && !scanInterval.isEmpty && !Covers(scanInterval.intervals, 0))
    }

    /** The increment of the next step: fixed, or drawn from an interval. */
    ghost function Increment(): (r: nat)
      requires Valid()
      reads this, simple, ongoing, scanInterval, gen
      ensures 0 < r < WORD
    {
      if scanInterval == null then scanIncrement
      else
        RandomPositive(scanInterval.intervals, gen.draw(gen.pos) % WORD);
        RandomValue(scanInterval.intervals, gen.draw(gen.pos) % WORD)
    }

    /** An increment drawn from bounds is the lower bound plus the remainder of the next word. */
    lemma IncrementDrawn(lb: nat, ub: nat)
      requires Valid() && scanInterval != null && lb <= ub
      requires forall v: nat :: scanInterval.Has(v) <==> lb <= v <= ub
      ensures Increment() == lb + gen.draw(gen.pos) % WORD % (ub - lb + 1)
    {
      hide Covers, Ordered, RandomValue;
      var s, word := scanInterval.intervals, gen.draw(gen.pos) % WORD;
      RandomValueRank(s, word);
      scanInterval.EmptyExactly();
      forall u: nat ensures u in Legal(s, WORD) <==> lb <= u <= ub { assert scanInterval.Has(u) <==> lb <= u <= ub; }
      BoundsDrawn(Legal(s, WORD), lb, ub, RandomValue(s, word), word);
    }

    /** The legal values. */
    ghost function All(): set<nat>
      reads this, simple
    {
      if simple.isEmpty then {} else Legal(simple.intervals, WORD)
    }

    /** The values an avoid-duplicate draw can still return. */
    ghost function Unused(): Pool<nat>
      reads this, ongoing
    {
      if ongoingValid && !ongoing.isEmpty then Some(Legal(ongoing.intervals, WORD)) else None
    }

    /** The list a scan walks over. */
    ghost function Scanned(): seq<Interval>
      reads this, simple, ongoing
    {
      if ongoingValid then ongoing.intervals else simple.intervals
    }

    /** They are the values the avoid-duplicate run has left, or all legal ones. */
    lemma ScannedIsLeft()
      requires Valid() && !simple.isEmpty
      ensures Legal(Scanned(), WORD) == Left(All(), Unused())
    {
    }

    ghost function Current(): Option<nat>
      reads this
    {
      if currentScanValueValid then Some(currentScanValue) else None
    }

    constructor (lb: nat, ub: nat, gen: RandomStream)
      requires lb <= ub < WORD
      ensures Valid() && !ongoingValid && !currentScanValueValid && this.gen == gen
      ensures scanFixedIncrement && scanIncrement == 1
      ensures fresh(simple) && fresh(ongoing) && !simple.isEmpty
      ensures forall v: nat :: v in All() <==> lb <= v <= ub
    {
      simple := new ConstraintRange(lb, ub);
      ongoing := new ConstraintRange(lb, ub);
      this.gen := gen;
      ongoingValid, currentScanValueValid, currentScanValue, scanIncrement := false, false, lb, 1;
      scanFixedIncrement, scanInterval := true, null;
      new;
      simple.EmptyExactly();
      assert simple.Has(lb);
      forall v: nat ensures v in All() <==> lb <= v <= ub { assert simple.Has(v) <==> lb <= v <= ub; }
    }

    /** `reset`. */
    method Reset()
      modifies this`ongoingValid, this`currentScanValueValid
      ensures !ongoingValid && !currentScanValueValid
    {
      ongoingValid, currentScanValueValid := false, false;
    }

    /** `setScanInterval`: bounds 0 and above draw every increment anew; a lower bound of 0 is an error, after
        which a step of 0 is possible. */
    method SetScanInterval(lb: nat, ub: nat) returns (error: bool)
      requires Valid() && lb < WORD && ub < WORD
      modifies this`scanIncrement, this`scanFixedIncrement, this`scanInterval
      ensures (error <==> lb == 0) && (Valid() <==> lb > 0)
      ensures ub <= lb ==> scanInterval == null && scanIncrement == lb
      ensures ub > lb ==> scanInterval != null && forall v: nat :: scanInterval.Has(v) <==> lb <= v <= ub
    {
      hide Covers;
      scanInterval := null;
      error := lb == 0;
      if ub == 0 || ub <= lb {
        scanFixedIncrement, scanIncrement := true, lb;
      } else {
        scanFixedIncrement := false;
        scanInterval := new ConstraintRange(lb, ub);
        scanInterval.EmptyExactly();
        assert scanInterval.Has(lb);
        assert scanInterval.Has(0) <==> lb == 0;
      }
    }

    /** `keepOut`; like every change of the legal values it resets the generator. Reversed bounds change the
        list all the same. */
    method KeepOut(lb: nat, ub: nat) returns (overConstrained: bool)
      requires Valid() && lb < WORD && ub < WORD
      modifies this`ongoingValid, this`currentScanValueValid, simple
      ensures !ongoingValid && !currentScanValueValid && (overConstrained <==> simple.isEmpty)
      ensures lb <= ub ==> Valid() && forall v: nat :: v in All() <==> v in old(All()) && !(lb <= v <= ub)
      ensures simple.isEmpty <==> old(simple.isEmpty) || KeptOut(old(simple.intervals), Bounds(lb, ub), WORD) == []
      ensures !simple.isEmpty ==> simple.intervals == KeptOut(old(simple.intervals), Bounds(lb, ub), WORD)
    {
      hide Covers, KeptOut;
      AllIsHas();
      simple.KeepOut(lb, ub);
      Reset();
      overConstrained := simple.isEmpty;
      if lb <= ub { AllIsHas(); }
    }

    /** `keepOnly`; reversed bounds leave nothing, but the object knows only unless it was unconstrained. */
    method KeepOnly(lb: nat, ub: nat) returns (overConstrained: bool)
      requires Valid() && lb < WORD && ub < WORD
      modifies this`ongoingValid, this`currentScanValueValid, simple
      ensures !ongoingValid && !currentScanValueValid && (overConstrained <==> simple.isEmpty)
      ensures forall v: nat :: v in All() <==> v in old(All()) && lb <= v <= ub
      ensures Valid() <==> lb <= ub || !old(!simple.isEmpty && Full(simple.intervals, WORD))
      ensures Valid() ==> (overConstrained <==> All() == {})
    {
      hide Covers, Full, Ordered;
      AllIsHas();
      simple.KeepOnly(lb, ub);
      Reset();
      overConstrained := simple.isEmpty;
      assert forall v: nat :: v in All() <==> v < WORD && simple.Has(v);
      if simple.Valid() { simple.EmptyExactly(); AllIsHas(); }
    }

    lemma AllIsHas()
      requires simple.Valid()
      ensures forall v: nat :: v in All() <==> simple.Has(v)
    {
      simple.EmptyExactly();
    }

    /** `randomNext`: an empty generator reports an error and gives 0. */
    method RandomNext() returns (v: nat, error: bool)
      requires Valid()
      modifies simple, gen
      ensures Valid() && simple.intervals == old(simple.intervals) && simple.isEmpty == old(simple.isEmpty)
      ensures error <==> All() == {}
      ensures if error then v == 0 else DrawnFrom(All(), v, gen.draw(old(gen.pos)) % WORD)
    {
      error := simple.isEmpty;
      v := simple.GetRandomValue(gen);
      simple.EmptyExactly();
      AllIsHas();
    }

    /** The list under way, begun anew when there is none. */
    method Begin()
      requires Valid()
      modifies this`ongoingValid, ongoing
      ensures Valid() && ongoingValid && Scanned() == old(Scanned()) && Increment() == old(Increment())
    {
      hide Ordered, Covers, RandomValue, Total;
      if !ongoingValid {
        ongoing.Assign(simple);
        ongoingValid := true;
      }
    }

    /** `randomAvoidDuplicateNext`: one draw without repetition from the legal values. */
    method RandomAvoidDuplicateNext() returns (v: nat, error: bool)
      requires Valid()
      modifies this`ongoingValid, ongoing, gen
      ensures Valid() && All() == old(All())
      ensures error <==> All() == {}
      ensures error ==> v == 0
      ensures !error ==> Draw(All(), old(Unused()), v, Unused())
      ensures !error ==> DrawnFrom(Left(All(), old(Unused())), v, gen.draw(old(gen.pos)) % WORD)
    {
      hide Covers, Ordered, RandomValue, Total;
      error := simple.isEmpty;
      Begin();
      ghost var left := if ongoing.isEmpty then {} else Legal(ongoing.intervals, WORD);
      assert !error ==> left == Left(All(), old(Unused()));
      RangeIsLegal(ongoing, left);
      v := ongoing.GetRandomValue(gen);
      ongoing.EmptyExactly();
      assert !error ==> v in left;
      ongoing.KeepOutValue(v);
      if ongoing.isEmpty {
        ongoingValid := false;
      }
      simple.EmptyExactly();
      AllIsHas();
      AfterKeepOut(ongoing, left, v);
    }

    /** The step of `scanNext` that draws a new increment, when they come from bounds. */
    method Renew()
      requires Valid()
      modifies this`scanIncrement, gen, scanInterval
      ensures Valid() && scanInterval == old(scanInterval) && 0 < scanIncrement == old(Increment())
      ensures gen.pos == old(gen.pos) + if scanInterval != null then 1 else 0
    {
      hide Ordered, Covers, RandomValue, Total, Legal;
      ghost var increment := Increment();
      if !scanFixedIncrement {
        scanIncrement := scanInterval.GetRandomValue(gen);
        assert scanIncrement == increment;
      }
    }

    /** `scanNext`: over what an avoid-duplicate run has left, if one is under way; at the end of the list the
        scan starts again from the legal values. */
    method ScanNext() returns (v: nat, error: bool)
      requires Valid()
      modifies this`ongoingValid, this`currentScanValueValid, this`currentScanValue, this`scanIncrement, ongoing, gen, scanInterval
      ensures Valid() && All() == old(All()) && scanInterval == old(scanInterval)
      ensures error <==> simple.isEmpty
      ensures error ==> v == 0
      ensures scanIncrement == if old(Current()).Some? then old(Increment()) else old(scanIncrement)
      ensures gen.pos == old(gen.pos) + if old(Current()).Some? && scanInterval != null then 1 else 0
      ensures !error ==> v == NextScan(old(Scanned()), simple.intervals, old(Current()), old(Increment()))
      ensures !error ==> ScanGives(old(Scanned()), All(), old(Current()), old(Increment()), v)
      ensures !error ==> Scanned() == if Restarts(old(Scanned()), old(Current()), old(Increment())) then simple.intervals else old(Scanned())
      ensures !error ==> Current() == Some(v) && ongoingValid
      decreases if currentScanValueValid then 1 else 0
    {
      hide Ordered, ScanValue, Covers, RandomValue, Total, Legal, ScanGives, DrawnFrom;
      ghost var increment := Increment();
      error := simple.isEmpty;
      if !error {
        NextScanGives(Scanned(), simple.intervals, Current(), increment);
      }
      Begin();
      if !currentScanValueValid {
        currentScanValue := ongoing.intervals[0].lo;
        LowerBoundInDomain(ongoing.intervals);
        currentScanValueValid := true;
        return currentScanValue, error;
      }
      Renew();
      var next := ongoing.GetScanValue(currentScanValue, scanIncrement);
      ScanInDomain(ongoing.intervals, currentScanValue, scanIncrement);
      if next == currentScanValue {
        currentScanValueValid, ongoingValid := false, false;
        v, error := ScanNext();
        return;
      }
      currentScanValue := next;
      v := next;
    }
  }

  /** Legal values of a list, as the object has them. */
  lemma RangeIsLegal(c: ConstraintRange, left: set<nat>)
    requires c.Valid() && left == if c.isEmpty then {} else Legal(c.intervals, WORD)
    ensures forall v: nat :: v in left <==> c.Has(v)
  {
    c.EmptyExactly();
  }

  lemma AfterKeepOut(c: ConstraintRange, left: set<nat>, v: nat)
    requires c.Valid() && forall u: nat :: c.Has(u) <==> u in left && u != v
    ensures c.isEmpty <==> left <= {v}
    ensures !c.isEmpty ==> Legal(c.intervals, WORD) == left - {v}
  {
    c.EmptyExactly();
    assert forall u: nat :: c.Has(u) <==> !c.isEmpty && Covers(c.intervals, u);
  }

  lemma LowerBoundInDomain(s: seq<Interval>)
    requires Ordered(s, WORD) && s != []
    ensures s[0].lo < WORD
  {
  }

  lemma {:induction false} ScanFromInDomain(s: seq<Interval>, next: nat, base: nat, inc: nat)
    requires Ordered(s, WORD) && next < WORD && base < WORD && inc > 0
    ensures ScanFrom(s, next, base, inc, WORD) < WORD
    decreases s
  {
    if s != [] {
      ScanFromInDomain(s[1..], next, base, inc);
      if Position(s[0], next) < 0 {
        ScanFromInDomain(s[1..], (next + (s[0].lo - next) / inc * inc + inc) % WORD, base, inc);
      }
    }
  }

  lemma ScanInDomain(s: seq<Interval>, base: nat, inc: nat)
    requires Ordered(s, WORD) && s != [] && base < WORD && inc > 0
    ensures ScanValue(s, base, inc, WORD) < WORD
  {
    ScanFromInDomain(s, (base + inc) % WORD, base, inc);
  }

  // ---------------------------------------------------------------- runs

  /** A scan in steps of one never laps. */
  lemma UnitStepsNeverLap(base: nat, M: nat)
    requires base < M
    ensures !CanLap(base, 1, M)
  {
    assert Laps(base, 1, M) == M - base;
  }

  /** From one legal value the scan goes to the next one, and from the last to the first. */
  lemma NextScanIsNextRank(s: seq<Interval>, k: nat)
    requires Ordered(s, WORD) && s != [] && k < Total(s)
    ensures Total(s) > 0 && s[0].lo == Nth(s, 0)
    ensures NextScan(s, s, Some(Nth(s, k)), 1) == if k + 1 < Total(s) then Nth(s, k + 1) else Nth(s, 0)
  {
    hide Covers, Nth, Total, ScanValue, CanLap;
    var base := Nth(s, k);
    FirstRank(s);
    NthLegal(s, k, WORD);
    UnitStepsNeverLap(base, WORD);
    ScanExact(s, base, 1, WORD);
    forall v: nat ensures Candidate(s, base, 1, base + 1, v) <==> v > base && Covers(s, v) {}
    LeastIsNextRank(s, k, ScanValue(s, base, 1, WORD));
  }

  lemma LeastIsNextRank(s: seq<Interval>, k: nat, r: nat)
    requires Ordered(s, WORD) && k < Total(s)
    requires Least(s, Nth(s, k), 1, Nth(s, k) + 1, r)
    requires forall v: nat :: Candidate(s, Nth(s, k), 1, Nth(s, k) + 1, v) <==> v > Nth(s, k) && Covers(s, v)
    ensures k + 1 < Total(s) ==> r == Nth(s, k + 1) > Nth(s, k)
    ensures k + 1 == Total(s) ==> r == Nth(s, k)
  {
    hide Covers, Nth, Total;
    if k + 1 < Total(s) {
      NthMonotone(s, k, k + 1, WORD);
      NthLegal(s, k + 1, WORD);
      assert Candidate(s, Nth(s, k), 1, Nth(s, k) + 1, Nth(s, k + 1));
      var j := RankExists(s, r, WORD);
      if j <= k { if j < k { NthMonotone(s, j, k, WORD); } assert false; }
      if j > k + 1 { NthMonotone(s, k + 1, j, WORD); }
    } else {
      forall v: nat | v > Nth(s, k) ensures !Covers(s, v) {
        if Covers(s, v) {
          var j := RankExists(s, v, WORD);
          if j < k { NthMonotone(s, j, k, WORD); }
        }
      }
    }
  }

  lemma {:induction false} FirstRank(s: seq<Interval>)
    requires Ordered(s, WORD) && s != []
    ensures Total(s) > 0 && Nth(s, 0) == s[0].lo
  {
    var init := s[..|s| - 1];
    if init != [] {
      FirstRank(init);
    }
  }

  /** The values of a scan from a reset generator with the default increment. */
  ghost predicate ScanRun(s: seq<Interval>, values: seq<nat>)
    requires Ordered(s, WORD) && s != []
  {
    && (values != [] ==> values[0] == NextScan(s, s, None, 1))
    && forall k | 0 <= k < |values| - 1 :: values[k + 1] == NextScan(s, s, Some(values[k]), 1)
  }

  /** The scan lists all legal values in ascending order, then starts again. */
  lemma {:induction false} ScanListsLegalValues(s: seq<Interval>, values: seq<nat>, k: nat)
    requires Ordered(s, WORD) && s != [] && ScanRun(s, values) && k < |values|
    ensures Total(s) == |Legal(s, WORD)| > 0
    ensures values[k] == Nth(s, k % Total(s))
  {
    hide NextScan, Nth, Total, Legal;
    LegalSize(s, WORD);
    FirstRank(s);
    if k == 0 {
      ScanStarts(s);
      LessThanModulus(0, Total(s));
    } else {
      ScanListsLegalValues(s, values, k - 1);
      NextScanIsNextRank(s, (k - 1) % Total(s));
      NextResidue(k - 1, Total(s));
    }
  }

  lemma ScanStarts(s: seq<Interval>)
    requires Ordered(s, WORD) && s != []
    ensures NextScan(s, s, None, 1) == s[0].lo
  {
  }

  // ---------------------------------------------------------------- the generator runs

  /** As many draws without repetition as there are legal values, from a renewed generator: a permutation of
      them, after which the generator is renewed. */
  method DrawPermutation(g: RangeGenerator, total: nat) returns (draws: seq<nat>)
    requires g.Valid() && g.Unused() == None && g.All() != {} && total == |g.All()|
    modifies g`ongoingValid, g.ongoing, g.gen
    ensures g.Valid() && g.All() == old(g.All()) && g.Unused() == None && |draws| == total
    ensures forall i, j | 0 <= i < j < total :: draws[i] != draws[j]
    ensures forall v: nat :: v in draws <==> v in g.All()
  {
    hide Covers, Ordered, Draw;
    ghost var all, pools: seq<Pool<nat>> := g.All(), [None];
    draws := [];
    for k := 0 to total
      invariant g.Valid() && g.All() == all && |draws| == k
      invariant |pools| == k + 1 && pools[0] == None && pools[k] == g.Unused()
      invariant forall i | 0 <= i < k :: Draw(all, pools[i], draws[i], pools[i + 1])
    {
      var v, error := g.RandomAvoidDuplicateNext();
      draws, pools := draws + [v], pools + [g.Unused()];
    }
    Permutation(all, pools, draws, total);
  }

  lemma Permutation(all: set<nat>, pools: seq<Pool<nat>>, draws: seq<nat>, total: nat)
    requires all != {} && Run(all, pools, draws) && |draws| == total == |all|
    ensures pools[total] == None
    ensures forall i, j | 0 <= i < j < total :: draws[i] != draws[j]
    ensures forall v: nat :: v in draws <==> v in all
  {
    hide Run;
    RunLengths(all, pools, draws);
    RenewedExactly(all, pools, draws, total);
    DivModUnique(total, total, 1, 0);
    forall i, j | 0 <= i < j < total ensures draws[i] != draws[j] {
      LessThanModulus(i, total);
      LessThanModulus(j, total);
      DivModUnique(i, total, 0, i);
      DivModUnique(j, total, 0, j);
      NoDuplicate(all, pools, draws, i, j);
    }
    CycleCoversAll(all, pools, draws, 0);
    forall v: nat ensures v in draws <==> v in Drawn(draws, 0, total) {
      if v in draws { var k :| 0 <= k < |draws| && draws[k] == v; }
    }
  }

  lemma RunLengths(all: set<nat>, pools: seq<Pool<nat>>, draws: seq<nat>)
    requires Run(all, pools, draws)
    ensures |pools| == |draws| + 1
  {
  }

  /** A scan from a reset generator with the default increment: all legal values in ascending order, over and
      over. */
  method Scan(g: RangeGenerator, count: nat) returns (values: seq<nat>)
    requires g.Valid() && !g.simple.isEmpty && g.Current() == None && g.Scanned() == g.simple.intervals
    requires g.scanInterval == null && g.scanIncrement == 1
    modifies g`ongoingValid, g`currentScanValueValid, g`currentScanValue, g`scanIncrement, g.ongoing, g.gen
    ensures g.Valid() && |values| == count && Total(g.simple.intervals) == |g.All()| > 0
    ensures forall k | 0 <= k < count :: values[k] == Nth(g.simple.intervals, k % Total(g.simple.intervals))
  {
    hide Covers, Ordered, ScanValue, NextScan, Nth, Total, Restarts, Legal;
    ghost var s := g.simple.intervals;
    values := [];
    for k := 0 to count
      invariant g.Valid() && !g.simple.isEmpty && g.Scanned() == s && g.scanInterval == null && g.scanIncrement == 1 && |values| == k
      invariant g.Current() == if k == 0 then None else Some(values[k - 1])
      invariant ScanRun(s, values)
    {
      ghost var before := values;
      var v, error := g.ScanNext();
      values := values + [v];
      ScanExtends(s, before, v);
    }
    ScanListsAll(s, values);
  }

  lemma ScanListsAll(s: seq<Interval>, values: seq<nat>)
    requires Ordered(s, WORD) && s != [] && ScanRun(s, values)
    ensures Total(s) == |Legal(s, WORD)| > 0
    ensures forall k | 0 <= k < |values| :: values[k] == Nth(s, k % Total(s))
  {
    LegalSize(s, WORD);
    FirstRank(s);
    hide Nth, Total, Legal, ScanRun;
    forall k | 0 <= k < |values| ensures values[k] == Nth(s, k % Total(s)) { ScanListsLegalValues(s, values, k); }
  }

  lemma ScanExtends(s: seq<Interval>, values: seq<nat>, v: nat)
    requires Ordered(s, WORD) && s != [] && ScanRun(s, values)
    requires v == NextScan(s, s, if values == [] then None else Some(values[|values| - 1]), 1)
    ensures ScanRun(s, values + [v])
  {
    hide NextScan, Ordered;
  }
}

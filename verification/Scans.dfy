/** `getScanValue`: the next legal value in steps of the increment, and when its wrapping additions spoil it. */
module Scans {
  import opened Words
  import opened Intervals

  /** The loop over the list, `next` being the next candidate. */
  function ScanFrom(s: seq<Interval>, next: nat, base: nat, inc: nat, M: nat): nat
    requires inc > 0 && M > 0
  {
    if s == [] then base
    else if Position(s[0], next) == 0 then next
    else if Position(s[0], next) < 0 then
      var d := s[0].lo - next;
      if d % inc == 0 then s[0].lo
      else
        var next' := (next + d / inc * inc + inc) % M;
        if next' < base then base
        else if next' <= s[0].hi then next'
        else ScanFrom(s[1..], next', base, inc, M)
    else ScanFrom(s[1..], next, base, inc, M)
  }

  /** The list reads as the whole domain. */
  predicate Full(s: seq<Interval>, M: nat)
    requires M > 0 && Ordered(s, M)
  {
    Total(s) % M == 0
  }

  function ScanValue(s: seq<Interval>, base: nat, inc: nat, M: nat): nat
    requires inc > 0 && M > 0 && Ordered(s, M)
  {
    var next := (base + inc) % M;
    if next < base then base
    else if Full(s, M) then next
    else ScanFrom(s, next, base, inc, M)
  }

  /** A legal value from `from` on, a whole number of steps above `base`. */
  ghost predicate Candidate(s: seq<Interval>, base: nat, inc: nat, from: nat, v: nat)
    requires inc > 0
  {
    v >= from && v >= base && (v - base) % inc == 0 && Covers(s, v)
  }

  /** `r` is the least candidate, or `base` when there is none. */
  ghost predicate Least(s: seq<Interval>, base: nat, inc: nat, from: nat, r: nat)
    requires inc > 0
  {
    if forall v: nat :: !Candidate(s, base, inc, from, v) then r == base
    else Candidate(s, base, inc, from, r) && forall v: nat | Candidate(s, base, inc, from, v) :: r <= v
  }

  /** The number of steps from `base` until the domain is left. */
  function Laps(base: nat, inc: nat, M: nat): (k: nat)
    requires 0 < inc && base < M
    ensures base + k * inc >= M && k > 0 && base + (k - 1) * inc < M
  {
    var a := M - base + inc - 1;
    assert a == a / inc * inc + a % inc;
    assert (a / inc - 1) * inc == a / inc * inc - inc;
    QuotientPositive(a, inc);
    a / inc
  }

  lemma QuotientPositive(a: nat, d: nat)
    requires a >= d > 0
    ensures a / d > 0
  {
  }

  /** The step out of the domain can land above `base` again, and some legal value can make it happen. */
  predicate CanLap(base: nat, inc: nat, M: nat)
    requires 0 < inc && base < M
  {
    var k := Laps(base, inc, M);
    base + inc < M && k * inc > M && base + (k - 1) * inc < M - 1
  }

  lemma StepsOrder(a: nat, b: nat, inc: nat)
    requires inc > 0
    ensures a < b ==> a * inc + inc <= b * inc
    ensures a * inc < b * inc ==> a < b
  {
    if a < b { Distribute(inc, a, b - a); MulAtLeast(b - a, inc); }
    if b <= a { Distribute(inc, b, a - b); if b < a { MulAtLeast(a - b, inc); } }
  }

  /** A multiple of the step between two consecutive ones does not exist. */
  lemma NothingBetween(base: nat, inc: nat, k: nat, v: nat)
    requires inc > 0 && base + k * inc < v < base + (k + 1) * inc
    ensures (v - base) % inc != 0
  {
    assert (k + 1) * inc == k * inc + inc;
    DivModUnique(v - base, inc, k, v - base - k * inc);
  }

  lemma MultipleAt(base: nat, inc: nat, k: nat)
    requires inc > 0
    ensures base + k * inc >= base && (base + k * inc - base) % inc == 0
  {
    DivModUnique(k * inc, inc, k, 0);
  }

  /** The first step past `lo`. */
  lemma StepPast(next: nat, base: nat, inc: nat, k: nat, lo: nat) returns (m: nat)
    requires inc > 0 && next == base + k * inc && next < lo && (lo - next) % inc != 0
    ensures m > k && next + (lo - next) / inc * inc + inc == base + m * inc
    ensures base + (m - 1) * inc < lo < base + m * inc
    ensures (lo - base) % inc != 0
  {
    var q := (lo - next) / inc;
    assert lo - next == q * inc + (lo - next) % inc;
    m := k + q + 1;
    assert m * inc == k * inc + q * inc + inc;
    assert (m - 1) * inc == k * inc + q * inc;
    NothingBetween(base, inc, m - 1, lo);
  }

  lemma ExactStep(next: nat, base: nat, inc: nat, k: nat, lo: nat)
    requires inc > 0 && next == base + k * inc && next < lo && (lo - next) % inc == 0
    ensures (lo - base) % inc == 0
  {
    var q := (lo - next) / inc;
    assert (k + q) * inc == k * inc + q * inc;
    MultipleAt(base, inc, k + q);
  }

  /** Values of an ordered list are values of its first interval or of the rest, which lies above it. */
  lemma HeadOrRest(s: seq<Interval>, M: nat)
    requires Ordered(s, M) && s != []
    ensures Ordered(s[1..], M)
    ensures forall v: nat :: Covers(s, v) <==> In(s[0], v) || Covers(s[1..], v)
    ensures forall v: nat | Covers(s[1..], v) :: v > s[0].hi
  {
    forall v: nat ensures Covers(s, v) <==> In(s[0], v) || Covers(s[1..], v) {
      if Covers(s, v) {
        var k :| 0 <= k < |s| && In(s[k], v);
        if k > 0 { assert In(s[1..][k - 1], v); }
      }
      if Covers(s[1..], v) {
        var k :| 0 <= k < |s[1..]| && In(s[1..][k], v);
        assert In(s[k + 1], v);
      }
    }
  }

  /** Skipping candidates that are not legal anyway. */
  lemma LeastMoves(s: seq<Interval>, t: seq<Interval>, base: nat, inc: nat, from: nat, from': nat, r: nat)
    requires inc > 0 && Least(t, base, inc, from', r)
    requires forall v: nat :: Candidate(s, base, inc, from, v) <==> Candidate(t, base, inc, from', v)
    ensures Least(s, base, inc, from, r)
  {
  }

  /** Unless the steps can lap, the loop finds the least candidate. */
  lemma {:induction false} ScanFromExact(s: seq<Interval>, k: nat, base: nat, inc: nat, M: nat)
    requires 0 < inc && base < M && Ordered(s, M) && k > 0 && base + k * inc < M && !CanLap(base, inc, M)
    ensures Least(s, base, inc, base + k * inc, ScanFrom(s, base + k * inc, base, inc, M))
  {
    hide Covers, CanLap, Laps;
    var next := base + k * inc;
    if s == [] {
      NothingCovered();
    } else {
      HeadOrRest(s, M);
      if Position(s[0], next) == 0 {
        MultipleAt(base, inc, k);
        assert Candidate(s, base, inc, next, next);
      } else if Position(s[0], next) > 0 {
        ScanFromExact(s[1..], k, base, inc, M);
        LeastMoves(s, s[1..], base, inc, next, next, ScanFrom(s[1..], next, base, inc, M));
      } else if (s[0].lo - next) % inc == 0 {
        ExactStep(next, base, inc, k, s[0].lo);
        assert Candidate(s, base, inc, next, s[0].lo);
      } else {
        ScanPast(s, k, base, inc, M);
      }
    }
  }

  /** The case of `ScanFromExact` that computes a new candidate. */
  lemma {:induction false} ScanPast(s: seq<Interval>, k: nat, base: nat, inc: nat, M: nat)
    requires 0 < inc && base < M && Ordered(s, M) && k > 0 && base + k * inc < M && !CanLap(base, inc, M)
    requires s != [] && base + k * inc < s[0].lo && (s[0].lo - (base + k * inc)) % inc != 0
    ensures Least(s, base, inc, base + k * inc, ScanFrom(s, base + k * inc, base, inc, M))
    decreases s, 0
  {
    hide Covers, CanLap, Laps, Least, ScanFrom;
    var next := base + k * inc;
    var m := StepPast(next, base, inc, k, s[0].lo);
    var past := base + m * inc;
    ScanUnfold(s, next, base, inc, M, past);
    NoneBetween(s, base, inc, M, next, m);
    if past < M {
      LessThanModulus(past, M);
      if past <= s[0].hi {
        LandsInside(s, base, inc, next, m);
      } else {
        ScanFromExact(s[1..], m, base, inc, M);
        BeyondHead(s, M, base, inc, past);
        LeastMoves(s, s[1..], base, inc, next, past, ScanFrom(s[1..], past, base, inc, M));
      }
    } else {
      NoLap(base, inc, M, m, s[0].lo);
      DivModUnique(past, M, 1, past - M);
      LeavesDomain(s, M, base, inc, next, past);
    }
  }

  lemma ScanUnfold(s: seq<Interval>, next: nat, base: nat, inc: nat, M: nat, past: nat)
    requires inc > 0 && M > 0 && s != [] && Position(s[0], next) < 0 && (s[0].lo - next) % inc != 0
    requires past == next + (s[0].lo - next) / inc * inc + inc
    ensures ScanFrom(s, next, base, inc, M) ==
      var w := past % M;
      if w < base then base else if w <= s[0].hi then w else ScanFrom(s[1..], w, base, inc, M)
  {
  }

  /** No candidate lies between `next` and the first step past the head's lower bound. */
  lemma NoneBetween(s: seq<Interval>, base: nat, inc: nat, M: nat, next: nat, m: nat)
    requires inc > 0 && Ordered(s, M) && s != [] && m > 0 && base + (m - 1) * inc < s[0].lo < base + m * inc && base <= next <= base + m * inc
    ensures forall v: nat :: Candidate(s, base, inc, next, v) <==> Candidate(s, base, inc, base + m * inc, v)
  {
    HeadOrRest(s, M);
    hide Covers;
    forall v: nat | Candidate(s, base, inc, next, v) ensures v >= base + m * inc {
      if v < base + m * inc { NothingBetween(base, inc, m - 1, v); }
    }
  }

  lemma LandsInside(s: seq<Interval>, base: nat, inc: nat, next: nat, m: nat)
    requires inc > 0 && s != [] && In(s[0], base + m * inc) && base <= next <= base + m * inc
    requires forall v: nat :: Candidate(s, base, inc, next, v) <==> Candidate(s, base, inc, base + m * inc, v)
    ensures Least(s, base, inc, next, base + m * inc)
  {
    MultipleAt(base, inc, m);
    assert Candidate(s, base, inc, next, base + m * inc);
  }

  lemma BeyondHead(s: seq<Interval>, M: nat, base: nat, inc: nat, past: nat)
    requires inc > 0 && Ordered(s, M) && s != [] && past > s[0].hi
    ensures forall v: nat :: Candidate(s, base, inc, past, v) <==> Candidate(s[1..], base, inc, past, v)
  {
    HeadOrRest(s, M);
    hide Covers;
  }

  lemma LeavesDomain(s: seq<Interval>, M: nat, base: nat, inc: nat, next: nat, past: nat)
    requires inc > 0 && Ordered(s, M) && past >= M
    requires forall v: nat :: Candidate(s, base, inc, next, v) <==> Candidate(s, base, inc, past, v)
    ensures Least(s, base, inc, next, base)
  {
    CoveredBelow(s, M);
    hide Covers;
  }

  lemma CoveredBelow(s: seq<Interval>, M: nat)
    requires Ordered(s, M)
    ensures forall v: nat | Covers(s, v) :: v < M
  {
  }

  lemma NoLap(base: nat, inc: nat, M: nat, m: nat, lo: nat)
    requires 0 < inc && base < M && !CanLap(base, inc, M) && m > 1 && lo < M
    requires base + (m - 1) * inc < lo && base + m * inc >= M
    ensures base + m * inc - M <= base
  {
    var k := Laps(base, inc, M);
    StepsOrder(m - 1, k, inc);
    StepsOrder(k - 1, m, inc);
    assert k == m;
    StepsOrder(0, m - 1, inc);
  }

  /** The scan is exact for every list exactly when the steps cannot lap. */
  lemma ScanExactIff(base: nat, inc: nat, M: nat)
    requires M >= 2 && 0 < inc < M && base < M
    ensures !CanLap(base, inc, M) <==> forall s | Ordered(s, M) && s != [] :: Least(s, base, inc, base + 1, ScanValue(s, base, inc, M))
  {
    if CanLap(base, inc, M) {
      LappingScan(base, inc, M);
    } else {
      forall s | Ordered(s, M) && s != [] ensures Least(s, base, inc, base + 1, ScanValue(s, base, inc, M)) {
        ScanExact(s, base, inc, M);
      }
    }
  }

  lemma ScanExact(s: seq<Interval>, base: nat, inc: nat, M: nat)
    requires 0 < inc < M && base < M && Ordered(s, M) && s != [] && !CanLap(base, inc, M)
    ensures Least(s, base, inc, base + 1, ScanValue(s, base, inc, M))
  {
    hide Covers, CanLap;
    var next, from := base + inc, base + 1;
    assert next == base + 1 * inc;
    forall v: nat | Candidate(s, base, inc, from, v) ensures v >= next {
      if v < next { NothingBetween(base, inc, 0, v); }
    }
    if next >= M {
      DivModUnique(next, M, 1, next - M);
      CoveredBelow(s, M);
    } else {
      LessThanModulus(next, M);
      if Full(s, M) {
        ZeroSizeIffFull(s, M);
        MultipleAt(base, inc, 1);
        assert Candidate(s, base, inc, base + 1, next);
      } else {
        ScanFromExact(s, 1, base, inc, M);
        LeastMoves(s, s, base, inc, base + 1, next, ScanFrom(s, next, base, inc, M));
      }
    }
  }

  /** A list on which a lapping scan returns a value that is not legal. */
  lemma LappingScan(base: nat, inc: nat, M: nat)
    requires M >= 2 && 0 < inc < M && base < M && CanLap(base, inc, M)
    ensures var s := [Interval(false, M - 1, M - 1)];
            Ordered(s, M) && !Least(s, base, inc, base + 1, ScanValue(s, base, inc, M))
  {
    var s, next, k := [Interval(false, M - 1, M - 1)], base + inc, Laps(base, inc, M);
    assert next == base + 1 * inc;
    LapStart(base, inc, M, k);
    if (M - 1 - next) % inc == 0 {
      ExactStep(next, base, inc, 1, M - 1);
      NothingBetween(base, inc, k - 1, M - 1);
    }
    var m := StepPast(next, base, inc, 1, M - 1);
    SameLap(base, inc, M, m, k);
    var w := base + k * inc - M;
    LapEnd(base, inc, M, k);
    DivModUnique(base + k * inc, M, 1, w);
    ScanUnfold(s, next, base, inc, M, base + k * inc);
    LapScanned(s, base, inc, M, w);
  }

  lemma LapStart(base: nat, inc: nat, M: nat, k: nat)
    requires 0 < inc && base + inc < M && base + k * inc >= M && base + (k - 1) * inc < M - 1
    ensures k > 1 && base + inc < M - 1
  {
    StepsOrder(1, k, inc);
    if k > 2 { StepsOrder(1, k - 1, inc); }
  }

  lemma SameLap(base: nat, inc: nat, M: nat, m: nat, k: nat)
    requires 0 < inc && m > 0 && k > 0 && base + (m - 1) * inc < M - 1 < base + m * inc
    requires base + (k - 1) * inc < M - 1 && base + k * inc >= M
    ensures m == k
  {
    StepsOrder(m - 1, k, inc);
    StepsOrder(k - 1, m, inc);
  }

  lemma LapEnd(base: nat, inc: nat, M: nat, k: nat)
    requires 0 < inc < M && k > 0 && k * inc > M && base + (k - 1) * inc < M - 1
    ensures 0 <= base + k * inc - M && base < base + k * inc - M < M - 1
  {
    assert k * inc == (k - 1) * inc + inc;
  }

  lemma LapScanned(s: seq<Interval>, base: nat, inc: nat, M: nat, w: nat)
    requires M >= 2 && 0 < inc && base + inc < M && s == [Interval(false, M - 1, M - 1)] && base < w < M - 1
    requires ScanFrom(s, base + inc, base, inc, M) == w
    ensures Ordered(s, M) && !Least(s, base, inc, base + 1, ScanValue(s, base, inc, M))
  {
    hide ScanFrom;
    assert s[..0] == [] && Total(s) == 1;
    LessThanModulus(1, M);
    LessThanModulus(base + inc, M);
    CoversFew();
  }
}

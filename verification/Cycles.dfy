/** Drawing without repetition, whatever is drawn: the pool shrinks by the drawn element and is renewed
    when it would become empty. */
module Cycles {
  import opened Options
  import opened Words

  /** What is left of the pool; `None` means that the next draw starts from all of it. */
  type Pool<T> = Option<set<T>>

  ghost function Left<T>(all: set<T>, pool: Pool<T>): set<T> {
    if pool.Some? then pool.value else all
  }

  /** One draw. */
  ghost predicate Draw<T>(all: set<T>, pool: Pool<T>, a: T, pool': Pool<T>) {
    var left := Left(all, pool);
    && a in left
    && pool' == if left == {a} then None else Some(left - {a})
  }

  /** A run of draws from a renewed pool. */
  ghost predicate Run<T>(all: set<T>, pools: seq<Pool<T>>, draws: seq<T>) {
    && |pools| == |draws| + 1 && pools[0] == None
    && forall k | 0 <= k < |draws| :: Draw(all, pools[k], draws[k], pools[k + 1])
  }

  /** What was drawn from draw `i` up to draw `j`. */
  ghost function Drawn<T>(draws: seq<T>, i: nat, j: nat): set<T>
    requires i <= j <= |draws|
  {
    set k | i <= k < j :: draws[k]
  }

  lemma DrawnGrows<T>(draws: seq<T>, i: nat, j: nat)
    requires i <= j < |draws|
    ensures Drawn(draws, i, j + 1) == Drawn(draws, i, j) + {draws[j]}
  {
    forall a | a in Drawn(draws, i, j) ensures a in Drawn(draws, i, j + 1) {
      var k :| i <= k < j && draws[k] == a;
    }
  }

  /** After `k - start` draws of the cycle that began at draw `start`. */
  ghost predicate CycleState<T>(all: set<T>, pool: Pool<T>, draws: seq<T>, start: nat, k: nat)
    requires start <= k <= |draws|
  {
    var drawn := Drawn(draws, start, k);
    && drawn <= all && |drawn| == k - start < |all|
    && Left(all, pool) == all - drawn
    && (pool == None <==> k == start)
  }

  lemma CycleBegins<T>(all: set<T>, draws: seq<T>, k: nat)
    requires all != {} && k <= |draws|
    ensures CycleState(all, None, draws, k, k)
  {
    assert Drawn(draws, k, k) == {};
  }

  /** A draw inside a cycle is new, and either completes the cycle or leaves some for later. */
  lemma CycleStep<T>(all: set<T>, pool: Pool<T>, pool': Pool<T>, draws: seq<T>, start: nat, k: nat)
    requires start <= k < |draws|
    requires CycleState(all, pool, draws, start, k) && Draw(all, pool, draws[k], pool')
    ensures draws[k] !in Drawn(draws, start, k)
    ensures if k + 1 - start == |all| then pool' == None && Drawn(draws, start, k + 1) == all
            else CycleState(all, pool', draws, start, k + 1)
  {
    hide Drawn;
    DrawnGrows(draws, start, k);
    var drawn, a := Drawn(draws, start, k), draws[k];
    assert |drawn + {a}| == |drawn| + 1;
    RestSize(all, drawn, a);
  }

  lemma RestSize<T>(all: set<T>, drawn: set<T>, a: T)
    requires drawn <= all && a in all - drawn
    ensures all - drawn == {a} <==> |drawn| + 1 == |all|
    ensures all - drawn - {a} == all - (drawn + {a})
    ensures |drawn| + 1 == |all| ==> drawn + {a} == all
  {
    assert |all| == |drawn| + |all - drawn| by { assert all == drawn + (all - drawn); }
    if |all - drawn| == 1 {
      assert all - drawn == {a} by { OnlyElement(all - drawn, a); }
      assert drawn + {a} == all;
    }
  }

  lemma OnlyElement<T>(s: set<T>, a: T)
    requires a in s && |s| == 1
    ensures s == {a}
  {
    assert |s - {a}| == 0;
    assert s == (s - {a}) + {a};
  }

  /** The first draw of the cycle that draw `k` belongs to, cycles being `n` draws long. */
  function CycleStart(k: nat, n: nat): (start: nat)
    requires n > 0
    ensures start <= k
  {
    k - k % n
  }

  lemma NextStart(k: nat, start: nat, n: nat)
    requires n > 0 && start == CycleStart(k, n)
    ensures CycleStart(k + 1, n) == if k + 1 - start == n then k + 1 else start
  {
    NextResidue(k, n);
  }

  /** The state of any run after `k` draws. */
  lemma {:induction false} RunState<T>(all: set<T>, pools: seq<Pool<T>>, draws: seq<T>, k: nat)
    requires all != {} && Run(all, pools, draws) && k <= |draws|
    ensures CycleState(all, pools[k], draws, CycleStart(k, |all|), k)
  {
    hide CycleState, CycleStart, Draw;
    if k == 0 {
      CycleBegins(all, draws, 0);
      assert CycleStart(0, |all|) == 0;
    } else {
      RunState(all, pools, draws, k - 1);
      var start := CycleStart(k - 1, |all|);
      CycleStep(all, pools[k - 1], pools[k], draws, start, k - 1);
      NextStart(k - 1, start, |all|);
      if k - start == |all| { CycleBegins(all, draws, k); }
    }
  }

  /** The pool is renewed exactly after complete cycles. */
  lemma RenewedExactly<T>(all: set<T>, pools: seq<Pool<T>>, draws: seq<T>, k: nat)
    requires all != {} && Run(all, pools, draws) && k <= |draws|
    ensures pools[k] == None <==> k % |all| == 0
  {
    RunState(all, pools, draws, k);
  }

  /** Two draws of one cycle differ. */
  lemma NoDuplicate<T>(all: set<T>, pools: seq<Pool<T>>, draws: seq<T>, i: nat, j: nat)
    requires all != {} && Run(all, pools, draws) && i < j < |draws|
    requires i / |all| == j / |all|
    ensures draws[i] != draws[j]
  {
    hide CycleState, Draw;
    RunState(all, pools, draws, j);
    var start := CycleStart(j, |all|);
    assert start <= i by { assert j == j / |all| * |all| + j % |all| && i == i / |all| * |all| + i % |all|; }
    CycleStep(all, pools[j], pools[j + 1], draws, start, j);
    assert draws[i] in Drawn(draws, start, j);
  }

  /** A complete cycle draws everything. */
  lemma CycleCoversAll<T>(all: set<T>, pools: seq<Pool<T>>, draws: seq<T>, cycle: nat)
    requires all != {} && Run(all, pools, draws)
    requires cycle * |all| + |all| <= |draws|
    ensures Drawn(draws, cycle * |all|, cycle * |all| + |all|) == all
  {
    hide CycleState, Draw;
    var last := cycle * |all| + (|all| - 1);
    RunState(all, pools, draws, last);
    DivModUnique(last, |all|, cycle, |all| - 1);
    CycleStep(all, pools[last], pools[last + 1], draws, cycle * |all|, last);
  }
}

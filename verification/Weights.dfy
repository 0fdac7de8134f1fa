/** `generateWeight` and `getWeightNode`: memoised model counting on the shared diagram, and the
    branch probabilities stored for the sampler. Weights are natural numbers, ratios exact. */
module Weights {
  import opened Bdds
  import opened Words
  import opened Counting

  const ROUNDTO: nat := 65536

  /** The number of models over the variables from a node's own variable on; 1 and 0 for the constants. */
  function Weight(e: Edge, n: nat): nat
    requires e.node.Branch? ==> e.node.index <= n
  {
    if e.node.One? then (if e.complement then 0 else 1) else CountFrom(e, {}, e.node.index, n)
  }

  /** The weight of a branch of a node, counting the variables skipped below the node. */
  function BranchWeight(child: Edge, index: nat, n: nat): nat
    requires index < n
  {
    CountFrom(child, {}, index + 1, n)
  }

  /** What the sampler is told about a node: the else share, floored to sixteen bits. */
  function ElseShare(e: Edge, n: nat): nat
    requires e.node.Branch? && e.node.index < n && Weight(e, n) > 0
  {
    BranchWeight(ElseOf(e), e.node.index, n) * ROUNDTO / Weight(e, n)
  }

  /** A node the counting applies to. */
  predicate Countable(e: Edge, n: nat) {
    Canonical(e, 0) && Below(e, n)
  }

  lemma WeightPositive(e: Edge, n: nat)
    requires Countable(e, n) && e.node.Branch?
    ensures e.node.index < n && Weight(e, n) > 0
  {
    assert Canonical(e, e.node.index);
    CountPositive(e, e.node.index, n);
  }

  /** A finished memo entry: the weight, the else share, and both branches finished too. */
  predicate Finished(e: Edge, n: nat, weights: map<Edge, nat>, shares: map<Edge, nat>) {
    && e.node.Branch? && Countable(e, n) && e.node.index < n && Weight(e, n) > 0
    && e in weights && weights[e] == Weight(e, n)
    && e in shares && shares[e] == ElseShare(e, n)
    && (ThenOf(e).node.Branch? ==> ThenOf(e) in weights)
    && (ElseOf(e).node.Branch? ==> ElseOf(e) in weights)
  }

  predicate MemoCorrect(n: nat, weights: map<Edge, nat>, shares: map<Edge, nat>) {
    forall e | e in weights :: Finished(e, n, weights, shares)
  }

  /** The factor `2^(skipped variables)` of `getWeightNode`, case by case. */
  lemma BranchWeightFormula(child: Edge, index: nat, n: nat)
    requires Countable(child, n) && index < n && Canonical(child, index + 1)
    ensures child.node.Branch? ==> index < child.node.index < n
    ensures BranchWeight(child, index, n)
         == if child.node.Branch? then Pow2(child.node.index - index - 1) * Weight(child, n)
            else if !child.complement then Pow2(n - index - 1) * Weight(child, n)
            else Weight(child, n)
  {
    if child.node.Branch? {
      CountSkip(child, index + 1, child.node.index, n);
    } else {
      CountConstant(child, {}, index + 1, n);
    }
  }

  // ---------------------------------------------------------------- what a memo makes of a diagram

  /** What `getWeightNode` returns for a node, `memo` being what it finds: a remembered weight whatever
      the number of variables it was counted for, otherwise the sum of the two branches. */
  function Computed(e: Edge, memo: map<Edge, nat>, n: nat): nat
    requires Countable(e, n)
    decreases e.node, 0
  {
    if e.node.One? then (if e.complement then 0 else 1)
    else if e in memo then memo[e]
    else
      ChildrenCountable(e, n);
      BranchPart(ThenOf(e), e.node.index, memo, n) + BranchPart(ElseOf(e), e.node.index, memo, n)
  }

  /** The part of a branch: its weight times two to the number of variables skipped on the way to it. */
  function BranchPart(child: Edge, index: nat, memo: map<Edge, nat>, n: nat): nat
    requires Countable(child, n) && index < n && (child.node.Branch? ==> index < child.node.index < n)
    decreases child.node, 1
  {
    if child.node.Branch? then Pow2(child.node.index - index - 1) * Computed(child, memo, n)
    else if !child.complement then Pow2(n - index - 1) * Computed(child, memo, n)
    else Computed(child, memo, n)
  }

  lemma ChildrenCountable(e: Edge, n: nat)
    requires Countable(e, n) && e.node.Branch?
    ensures e.node.index < n
    ensures Countable(ThenOf(e), n) && Countable(ElseOf(e), n)
    ensures Canonical(ThenOf(e), e.node.index + 1) && Canonical(ElseOf(e), e.node.index + 1) && ThenOf(e) != ElseOf(e)
    ensures ThenOf(e).node.Branch? ==> e.node.index < ThenOf(e).node.index < n
    ensures ElseOf(e).node.Branch? ==> e.node.index < ElseOf(e).node.index < n
    ensures ThenOf(e).node < e.node && ElseOf(e).node < e.node
  {
    Branches(e, 0, n);
    CanonicalMonotone(ThenOf(e));
    CanonicalMonotone(ElseOf(e));
  }

  /** The share stored for a node that is not remembered. */
  function ComputedShare(e: Edge, memo: map<Edge, nat>, n: nat): nat
    requires Countable(e, n) && e.node.Branch? && Computed(e, memo, n) > 0
  {
    ChildrenCountable(e, n);
    BranchPart(ElseOf(e), e.node.index, memo, n) * ROUNDTO / Computed(e, memo, n)
  }

  /** Weights that can be remembered are positive. */
  predicate Positive(memo: map<Edge, nat>) {
    forall e | e in memo :: memo[e] > 0
  }

  lemma {:induction false} ComputedPositive(e: Edge, memo: map<Edge, nat>, n: nat)
    requires Countable(e, n) && Positive(memo)
    ensures Computed(e, memo, n) > 0 <==> e != FALSE
    decreases e.node
  {
    hide Canonical, Below;
    if e.node.Branch? && e !in memo {
      ChildrenCountable(e, n);
      ComputedPositive(ThenOf(e), memo, n);
      ComputedPositive(ElseOf(e), memo, n);
      PartPositive(ThenOf(e), e.node.index, memo, n);
      PartPositive(ElseOf(e), e.node.index, memo, n);
    }
  }

  lemma PartPositive(child: Edge, index: nat, memo: map<Edge, nat>, n: nat)
    requires Countable(child, n) && index < n && (child.node.Branch? ==> index < child.node.index < n)
    ensures BranchPart(child, index, memo, n) > 0 <==> Computed(child, memo, n) > 0
  {
    hide Computed;
    if child.node.Branch? {
      PositiveProduct(Pow2(child.node.index - index - 1), Computed(child, memo, n));
    } else if !child.complement {
      PositiveProduct(Pow2(n - index - 1), Computed(child, memo, n));
    }
  }

  /** Every node remembered has a weight and a share, and so have the nodes below it. */
  predicate Closed(weights: map<Edge, nat>, shares: map<Edge, nat>) {
    forall e | e in weights ::
      && e.node.Branch? && Canonical(e, 0) && e in shares
      && (ThenOf(e).node.Branch? ==> ThenOf(e) in weights)
      && (ElseOf(e).node.Branch? ==> ElseOf(e) in weights)
  }

  /** The tables during a count that found `memo`: old entries stay, new ones are as computed. */
  ghost predicate Grows(memo: map<Edge, nat>, n: nat, weights: map<Edge, nat>, shares0: map<Edge, nat>, shares: map<Edge, nat>) {
    && memo.Keys <= weights.Keys
    && (forall e | e in memo :: weights[e] == memo[e])
    && (forall e | e in weights && e in memo && e in shares0 :: e in shares && shares[e] == shares0[e])
    && forall e | e in weights && e !in memo :: Entered(e, memo, n, weights, shares)
  }

  ghost predicate Entered(e: Edge, memo: map<Edge, nat>, n: nat, weights: map<Edge, nat>, shares: map<Edge, nat>)
    requires e in weights
  {
    && e.node.Branch? && Countable(e, n) && Computed(e, memo, n) > 0 && weights[e] == Computed(e, memo, n)
    && e in shares && shares[e] == ComputedShare(e, memo, n)
  }

  lemma GrowsInsert(e: Edge, memo: map<Edge, nat>, n: nat, weights: map<Edge, nat>, shares0: map<Edge, nat>, shares: map<Edge, nat>,
                    w: nat, share: nat)
    requires Grows(memo, n, weights, shares0, shares) && Closed(weights, shares) && e !in weights
    requires e.node.Branch? && Countable(e, n) && w == Computed(e, memo, n) > 0 && share == ComputedShare(e, memo, n)
    requires ThenOf(e).node.Branch? ==> ThenOf(e) in weights
    requires ElseOf(e).node.Branch? ==> ElseOf(e) in weights
    ensures Grows(memo, n, weights[e := w], shares0, shares[e := share])
    ensures Closed(weights[e := w], shares[e := share])
  {
    hide Computed, ComputedShare, Canonical, Below;
    var weights', shares' := weights[e := w], shares[e := share];
    forall k | k in weights' && k !in memo ensures Entered(k, memo, n, weights', shares') {
      if k != e { assert Entered(k, memo, n, weights, shares); }
    }
  }

  lemma GrowsLookup(e: Edge, memo: map<Edge, nat>, n: nat, weights: map<Edge, nat>, shares0: map<Edge, nat>, shares: map<Edge, nat>)
    requires Grows(memo, n, weights, shares0, shares) && e in weights && e.node.Branch? && Countable(e, n)
    ensures weights[e] == Computed(e, memo, n)
  {
    if e !in memo { assert Entered(e, memo, n, weights, shares); }
  }

  /** The visited nodes without a weight are the callers still at work, all above `index`. */
  predicate CallersAbove(index: nat, visited: set<Edge>, weights: map<Edge, nat>) {
    forall k | k in visited && k !in weights :: k.node.Branch? && k.node.index < index
  }

  lemma CallersAboveChild(node: Edge, child: Edge, visited: set<Edge>, weights: map<Edge, nat>)
    requires node.node.Branch? && CallersAbove(node.node.index, visited, weights)
    requires child.node.Branch? ==> node.node.index < child.node.index
    ensures child.node.Branch? ==> CallersAbove(child.node.index, visited + {node}, weights)
  {
  }

  lemma CallersAboveLater(node: Edge, child: Edge, visited: set<Edge>, weights: map<Edge, nat>,
                          visited': set<Edge>, weights': map<Edge, nat>)
    requires node.node.Branch? && CallersAbove(node.node.index, visited, weights)
    requires child.node.Branch? ==> node.node.index < child.node.index
    requires visited' - weights'.Keys == visited + {node} - weights.Keys
    ensures child.node.Branch? ==> CallersAbove(child.node.index, visited', weights')
  {
    forall k | k in visited' && k !in weights' ensures k.node.Branch? && k.node.index <= node.node.index {
      assert k in visited' - weights'.Keys;
      assert k in visited + {node} - weights.Keys;
    }
  }

  lemma NotPending(node: Edge, visited: set<Edge>, weights: map<Edge, nat>)
    requires node.node.Branch? && CallersAbove(node.node.index, visited, weights) && node in visited
    ensures node in weights
  {
  }

  /** The node being counted is pending until its weight is stored. */
  lemma Pending(node: Edge, visited: set<Edge>, weights: set<Edge>, visited': set<Edge>, weights': set<Edge>)
    requires node !in visited && weights <= visited && weights' <= visited' && visited' - weights' == visited + {node} - weights
    ensures node in visited' && node !in weights' && weights' + {node} <= visited'
    ensures visited' - (weights' + {node}) == visited - weights
  {
    assert node in visited + {node} - weights;
    forall k ensures k in visited' - (weights' + {node}) <==> k in visited - weights {
      assert k in visited' - weights' <==> k in visited + {node} - weights;
    }
  }

  lemma ComputedUnfolds(node: Edge, memo: map<Edge, nat>, n: nat, pthen: nat, pelse: nat)
    requires Countable(node, n) && node.node.Branch? && node !in memo && node.node.index < n
    requires Countable(ThenOf(node), n) && Countable(ElseOf(node), n)
    requires ThenOf(node).node.Branch? ==> node.node.index < ThenOf(node).node.index < n
    requires ElseOf(node).node.Branch? ==> node.node.index < ElseOf(node).node.index < n
    requires pthen == BranchPart(ThenOf(node), node.node.index, memo, n) && pelse == BranchPart(ElseOf(node), node.node.index, memo, n)
    requires Positive(memo)
    ensures pthen + pelse == Computed(node, memo, n) > 0
    ensures pelse * ROUNDTO / (pthen + pelse) == ComputedShare(node, memo, n)
  {
    ComputedPositive(node, memo, n);
  }

  /** The edges a walk from `e` can visit. */
  function Reachable(e: Edge): set<Edge>
    decreases e.node
  {
    if e.node.One? then {e} else {e} + Reachable(ThenOf(e)) + Reachable(ElseOf(e))
  }

  lemma ReachableUnfolds(e: Edge)
    requires e.node.Branch?
    ensures Reachable(e) == {e} + Reachable(ThenOf(e)) + Reachable(ElseOf(e))
  {
  }

  /** The weight tables of the manager. */
  class WeightTable {
    var numBddVar: nat
    var nodeWeightHash: map<Edge, nat>
    var wasVisited: set<Edge>
    var nodeHash: map<Edge, nat>

    /** Between counts: exactly the visited nodes are remembered, with positive weights. */
    ghost predicate Valid()
      reads this
    {
      wasVisited == nodeWeightHash.Keys && Positive(nodeWeightHash) && Closed(nodeWeightHash, nodeHash)
    }

    constructor ()
      ensures Valid() && numBddVar == 0 && nodeWeightHash == map[] && wasVisited == {} && nodeHash == map[]
    {
      numBddVar, nodeWeightHash, wasVisited, nodeHash := 0, map[], {}, map[];
    }

    /** `getWeightNode`: whatever is remembered from before, the result and every new entry are as computed
        from it, also while the callers higher up in the diagram have marked their nodes visited and not
        yet stored a weight. */
    method GetWeightNode(node: Edge, ghost memo: map<Edge, nat>, ghost shares0: map<Edge, nat>) returns (w: nat)
      requires Countable(node, numBddVar) && Positive(memo)
      requires Grows(memo, numBddVar, nodeWeightHash, shares0, nodeHash) && Closed(nodeWeightHash, nodeHash)
      requires nodeWeightHash.Keys <= wasVisited
      requires node.node.Branch? ==> CallersAbove(node.node.index, wasVisited, nodeWeightHash)
      modifies this`nodeWeightHash, this`wasVisited, this`nodeHash
      ensures Grows(memo, numBddVar, nodeWeightHash, shares0, nodeHash) && Closed(nodeWeightHash, nodeHash)
      ensures nodeWeightHash.Keys <= wasVisited
      ensures node.node.Branch? ==> node in nodeWeightHash
      ensures w == Computed(node, memo, numBddVar)
      ensures wasVisited - nodeWeightHash.Keys == old(wasVisited - nodeWeightHash.Keys)
      ensures old(nodeWeightHash).Keys <= nodeWeightHash.Keys <= old(nodeWeightHash).Keys + Reachable(node)
      decreases node.node, 1
    {
      hide Eval, Canonical, Below, Grows, Closed, CallersAbove, Computed, ComputedShare, BranchPart, Positive, Reachable;
      if node == TRUE || node == FALSE {
        w := if node == TRUE then 1 else 0;
        ConstantComputed(node, memo, numBddVar);
        return;
      }
      if node in wasVisited {
        NotPending(node, wasVisited, nodeWeightHash);
        GrowsLookup(node, memo, numBddVar, nodeWeightHash, shares0, nodeHash);
        return nodeWeightHash[node];
      }
      w := CountNode(node, memo, shares0);
    }

    /** A node met for the first time. */
    method CountNode(node: Edge, ghost memo: map<Edge, nat>, ghost shares0: map<Edge, nat>) returns (w: nat)
      requires Countable(node, numBddVar) && Positive(memo) && node.node.Branch? && node !in wasVisited
      requires Grows(memo, numBddVar, nodeWeightHash, shares0, nodeHash) && Closed(nodeWeightHash, nodeHash)
      requires nodeWeightHash.Keys <= wasVisited && CallersAbove(node.node.index, wasVisited, nodeWeightHash)
      modifies this`nodeWeightHash, this`wasVisited, this`nodeHash
      ensures Grows(memo, numBddVar, nodeWeightHash, shares0, nodeHash) && Closed(nodeWeightHash, nodeHash)
      ensures nodeWeightHash.Keys <= wasVisited && node in nodeWeightHash
      ensures w == Computed(node, memo, numBddVar)
      ensures wasVisited - nodeWeightHash.Keys == old(wasVisited - nodeWeightHash.Keys)
      ensures old(nodeWeightHash).Keys <= nodeWeightHash.Keys <= old(nodeWeightHash).Keys + Reachable(node)
      decreases node.node, 0
    {
      hide *;
      ghost var visited0, weights0 := wasVisited, nodeWeightHash;
      wasVisited := wasVisited + {node};
      var index := node.node.index;
      ChildrenCountable(node, numBddVar);
      ReachableUnfolds(node);
      var Nt, Ne := ThenOf(node), ElseOf(node);
      CallersAboveChild(node, Nt, visited0, weights0);
      var t := GetWeightNode(Nt, memo, shares0);
      CallersAboveLater(node, Ne, visited0, weights0, wasVisited, nodeWeightHash);
      var e := GetWeightNode(Ne, memo, shares0);
      var pthenBranch := Scaled(Nt, t, index, memo);
      var pelseBranch := Scaled(Ne, e, index, memo);
      var nodeWeight := pthenBranch + pelseBranch;
      Pending(node, visited0, weights0.Keys, wasVisited, nodeWeightHash.Keys);
      MemoRemembered(node, memo, numBddVar, nodeWeightHash, shares0, nodeHash);
      ComputedUnfolds(node, memo, numBddVar, pthenBranch, pelseBranch);
      GrowsInsert(node, memo, numBddVar, nodeWeightHash, shares0, nodeHash, nodeWeight, pelseBranch * ROUNDTO / nodeWeight);
      assert nodeWeightHash[node := nodeWeight].Keys == nodeWeightHash.Keys + {node};
      nodeWeightHash := nodeWeightHash[node := nodeWeight];
      nodeHash := nodeHash[node := pelseBranch * ROUNDTO / nodeWeight];
      w := nodeWeight;
    }

    /** The weight of a child times two to the number of variables skipped on the way to it. */
    method Scaled(child: Edge, weight: nat, index: nat, ghost memo: map<Edge, nat>) returns (p: nat)
      requires Countable(child, numBddVar) && index < numBddVar && (child.node.Branch? ==> index < child.node.index < numBddVar)
      requires weight == Computed(child, memo, numBddVar)
      ensures p == BranchPart(child, index, memo, numBddVar)
    {
      hide Computed;
      if child != TRUE && child != FALSE {
        p := Pow2(child.node.index - index - 1) * weight;
      } else if child == TRUE {
        p := Pow2(numBddVar - index - 1) * weight;
      } else {
        p := weight;
      }
    }

    /** `generateWeight`: counts the diagram of a constraint object over all its variables. Whatever is
        remembered of other objects stays; what is new is computed from it. */
    method GenerateWeight(b: Bdd, maxvar: nat, maxNumBits: nat)
      requires Valid() && Below(b, maxvar * maxNumBits)
      modifies this
      ensures Valid() && numBddVar == maxvar * maxNumBits
      ensures Grows(old(nodeWeightHash), numBddVar, nodeWeightHash, old(nodeHash), nodeHash)
      ensures b.node.Branch? ==> b in nodeWeightHash
      ensures nodeWeightHash.Keys <= old(nodeWeightHash).Keys + Reachable(b)
      ensures MemoCorrect(numBddVar, old(nodeWeightHash), old(nodeHash)) ==> MemoCorrect(numBddVar, nodeWeightHash, nodeHash)
      ensures KeepsTrue(b, numBddVar, old(nodeWeightHash), old(nodeHash), nodeWeightHash, nodeHash)
    {
      hide Eval, Canonical, Below, Grows, Closed, Computed, Positive, MemoCorrect, Reachable, KeepsTrue;
      ghost var memo, shares0 := nodeWeightHash, nodeHash;
      numBddVar := maxvar * maxNumBits;
      GrowsFromItself(memo, numBddVar, shares0);
      BddCountable(b, numBddVar);
      if b.node.Branch? { NoCallers(b.node.index, wasVisited, nodeWeightHash); }
      var w := GetWeightNode(b, memo, shares0);
      GrowsPositive(memo, numBddVar, nodeWeightHash, shares0, nodeHash);
      if MemoCorrect(numBddVar, memo, shares0) {
        GrowsCorrect(memo, numBddVar, nodeWeightHash, shares0, nodeHash);
      }
      NothingPending(wasVisited, nodeWeightHash.Keys, memo.Keys);
      TrueAfterCount(b, numBddVar, memo, shares0, nodeWeightHash, nodeHash);
    }
  }

  /** A count over `n` variables that does not mix remembered weights keeps the shares of the table right. */
  ghost predicate KeepsTrue(b: Edge, n: nat, memo: map<Edge, nat>, shares0: map<Edge, nat>, weights: map<Edge, nat>, shares: map<Edge, nat>) {
    Countable(b, n) && Unmixed(b, memo, n) && TrueTable(memo, shares0) ==> TrueTable(weights, shares)
  }

  lemma TrueAfterCount(b: Edge, n: nat, memo: map<Edge, nat>, shares0: map<Edge, nat>, weights: map<Edge, nat>, shares: map<Edge, nat>)
    requires Positive(memo) && Closed(memo, shares0)
    requires Grows(memo, n, weights, shares0, shares) && weights.Keys <= memo.Keys + Reachable(b)
    ensures KeepsTrue(b, n, memo, shares0, weights, shares)
  {
    hide Countable, Unmixed, TrueTable, Positive, Closed, Grows, Reachable;
    if Countable(b, n) && Unmixed(b, memo, n) && TrueTable(memo, shares0) {
      UnmixedShares(b, memo, n, weights, shares0, shares);
    }
  }

  lemma NothingPending(visited: set<Edge>, weights: set<Edge>, visited0: set<Edge>)
    requires weights <= visited && visited - weights == visited0 - visited0
    ensures visited == weights
  {
    assert visited == weights + (visited - weights);
  }

  lemma ConstantComputed(e: Edge, memo: map<Edge, nat>, n: nat)
    requires Countable(e, n) && e.node.One?
    ensures Computed(e, memo, n) == if e.complement then 0 else 1
  {
  }

  lemma MemoRemembered(e: Edge, memo: map<Edge, nat>, n: nat, weights: map<Edge, nat>, shares0: map<Edge, nat>, shares: map<Edge, nat>)
    requires Grows(memo, n, weights, shares0, shares)
    ensures e !in weights ==> e !in memo
  {
  }

  lemma GrowsFromItself(memo: map<Edge, nat>, n: nat, shares: map<Edge, nat>)
    ensures Grows(memo, n, memo, shares, shares)
  {
  }

  lemma BddCountable(b: Bdd, n: nat)
    requires Below(b, n)
    ensures Countable(b, n)
  {
  }

  lemma NoCallers(index: nat, visited: set<Edge>, weights: map<Edge, nat>)
    requires visited <= weights.Keys
    ensures CallersAbove(index, visited, weights)
  {
  }

  lemma GrowsPositive(memo: map<Edge, nat>, n: nat, weights: map<Edge, nat>, shares0: map<Edge, nat>, shares: map<Edge, nat>)
    requires Grows(memo, n, weights, shares0, shares) && Positive(memo)
    ensures Positive(weights)
  {
    forall e | e in weights ensures weights[e] > 0 {
      if e !in memo { assert Entered(e, memo, n, weights, shares); }
    }
  }

  /** From a correct memo the computed weights and branch parts are the model counts. */
  lemma {:induction false} ComputedCorrect(e: Edge, memo: map<Edge, nat>, n: nat, shares: map<Edge, nat>)
    requires Countable(e, n) && MemoCorrect(n, memo, shares)
    ensures Computed(e, memo, n) == Weight(e, n)
    decreases e.node
  {
    if e.node.Branch? {
      ChildrenCountable(e, n);
      if e in memo {
        assert Finished(e, n, memo, shares);
      } else {
        hide MemoCorrect, Canonical, Below, CountFrom, Eval;
        ComputedCorrect(ThenOf(e), memo, n, shares);
        ComputedCorrect(ElseOf(e), memo, n, shares);
        PartCorrect(ThenOf(e), e.node.index, memo, n);
        PartCorrect(ElseOf(e), e.node.index, memo, n);
        CountableCanonical(e, n);
        CountBranch(e, n);
      }
    }
  }

  lemma CountableCanonical(e: Edge, n: nat)
    requires Countable(e, n)
    ensures Canonical(e, 0) && Below(e, n)
  {
  }

  lemma PartCorrect(child: Edge, index: nat, memo: map<Edge, nat>, n: nat)
    requires Countable(child, n) && index < n && Canonical(child, index + 1)
    requires child.node.Branch? ==> index < child.node.index < n
    requires Computed(child, memo, n) == Weight(child, n)
    ensures BranchPart(child, index, memo, n) == BranchWeight(child, index, n)
  {
    hide Computed, CountFrom;
    BranchWeightFormula(child, index, n);
  }

  lemma GrowsCorrect(memo: map<Edge, nat>, n: nat, weights: map<Edge, nat>, shares0: map<Edge, nat>, shares: map<Edge, nat>)
    requires Grows(memo, n, weights, shares0, shares) && Closed(weights, shares) && MemoCorrect(n, memo, shares0)
    ensures MemoCorrect(n, weights, shares)
  {
    hide CountFrom, Computed, Canonical, Below, Weight;
    forall e | e in weights ensures Finished(e, n, weights, shares) {
      if e in memo {
        assert Finished(e, n, memo, shares0);
      } else {
        assert Entered(e, memo, n, weights, shares);
        EnteredCorrect(e, memo, n, weights, shares0, shares);
      }
    }
  }

  lemma EnteredCorrect(e: Edge, memo: map<Edge, nat>, n: nat, weights: map<Edge, nat>, shares0: map<Edge, nat>, shares: map<Edge, nat>)
    requires e in weights && Entered(e, memo, n, weights, shares) && Closed(weights, shares) && MemoCorrect(n, memo, shares0)
    ensures Finished(e, n, weights, shares)
  {
    hide MemoCorrect, CountFrom, Computed, Canonical, Below, BranchPart;
    ChildrenCountable(e, n);
    ComputedCorrect(e, memo, n, shares0);
    ComputedCorrect(ElseOf(e), memo, n, shares0);
    PartCorrect(ElseOf(e), e.node.index, memo, n);
  }

  // ---------------------------------------------------------------- what the walk finds

  /** After a count the sampler finds the exact else share of every node below the root. */
  lemma {:induction false} SharesCoverWalk(e: Edge, n: nat, weights: map<Edge, nat>, shares: map<Edge, nat>)
    requires MemoCorrect(n, weights, shares) && (e.node.Branch? ==> e in weights)
    ensures forall k | k in Reachable(e) && k.node.Branch? :: Finished(k, n, weights, shares)
    decreases e.node
  {
    if e.node.Branch? {
      assert Finished(e, n, weights, shares);
      SharesCoverWalk(ThenOf(e), n, weights, shares);
      SharesCoverWalk(ElseOf(e), n, weights, shares);
    }
  }

  lemma {:induction false} EvalBelow(e: Edge, n: nat, s: Assignment)
    requires Below(e, n)
    ensures Eval(e, s + {n}) == Eval(e, s)
  {
    if e.node.Branch? {
      EvalBelow(e.node.thenEdge, n, s);
      EvalBelow(e.node.elseEdge, n, s);
    }
  }

  lemma {:induction false} CountMoreVariables(e: Edge, s: Assignment, lo: nat, n: nat)
    requires Below(e, n) && lo <= n
    ensures CountFrom(e, s, lo, n + 1) == 2 * CountFrom(e, s, lo, n)
    decreases n - lo
  {
    if lo == n {
      EvalBelow(e, n, s);
      assert CountFrom(e, s, n, n + 1) == CountFrom(e, s, n + 1, n + 1) + CountFrom(e, s + {n}, n + 1, n + 1);
    } else {
      CountMoreVariables(e, s, lo + 1, n);
      CountMoreVariables(e, s + {lo}, lo + 1, n);
    }
  }

  lemma {:induction false} BelowMonotone(e: Edge, n: nat, n': nat)
    requires Below(e, n) && n <= n'
    ensures Below(e, n')
  {
    if e.node.Branch? {
      BelowMonotone(e.node.thenEdge, n, n');
      BelowMonotone(e.node.elseEdge, n, n');
    }
  }

  lemma {:induction false} CountScales(e: Edge, lo: nat, n: nat, n': nat)
    requires Below(e, n) && lo <= n <= n'
    ensures CountFrom(e, {}, lo, n') == Pow2(n' - n) * CountFrom(e, {}, lo, n)
    decreases n' - n
  {
    if n < n' {
      CountScales(e, lo, n, n' - 1);
      BelowMonotone(e, n, n' - 1);
      CountMoreVariables(e, {}, lo, n' - 1);
      DoublePower(Pow2(n' - 1 - n), CountFrom(e, {}, lo, n));
    }
  }

  lemma DoublePower(p: nat, c: nat)
    ensures 2 * (p * c) == (2 * p) * c
  {
  }

  // ---------------------------------------------------------------- what a stale memo does

  /** `c` is to `v` as `d` to `w`. */
  predicate InProportion(c: nat, v: nat, d: nat, w: nat) {
    c * w == d * v
  }

  /** The remembered node, or constant, that says by how much the weight of an edge is off. */
  function Source(e: Edge, memo: map<Edge, nat>): Edge
    decreases e.node
  {
    if e.node.One? || e in memo then e
    else if ElseOf(e) == FALSE then Source(ThenOf(e), memo)
    else Source(ElseOf(e), memo)
  }

  lemma {:induction false} SourceCountable(e: Edge, memo: map<Edge, nat>, n: nat)
    requires Countable(e, n)
    ensures Countable(Source(e, memo), n)
    ensures Source(e, memo).node.One? || Source(e, memo) in memo
    ensures e != FALSE ==> Source(e, memo) != FALSE
    decreases e.node
  {
    hide Canonical, Below;
    if e.node.Branch? && e !in memo {
      ChildrenCountable(e, n);
      if ElseOf(e) == FALSE { SourceCountable(ThenOf(e), memo, n); } else { SourceCountable(ElseOf(e), memo, n); }
    }
  }

  /** What is remembered for two edges is off by the same factor, or one of them has no solution. */
  predicate SameFactor(a: Edge, b: Edge, memo: map<Edge, nat>, n: nat)
    requires Countable(a, n) && Countable(b, n)
  {
    SourceCountable(a, memo, n);
    SourceCountable(b, memo, n);
    var k, l := Source(a, memo), Source(b, memo);
    a == FALSE || b == FALSE || InProportion(Computed(k, memo, n), Weight(k, n), Computed(l, memo, n), Weight(l, n))
  }

  /** No node that is not remembered has two satisfiable branches with what is remembered of them off by
      different factors. */
  predicate Unmixed(e: Edge, memo: map<Edge, nat>, n: nat)
    requires Countable(e, n)
    decreases e.node
  {
    e.node.One? || e in memo ||
    (ChildrenCountable(e, n); Unmixed(ThenOf(e), memo, n) && Unmixed(ElseOf(e), memo, n) && SameFactor(ThenOf(e), ElseOf(e), memo, n))
  }

  /** The branch probability computed for a node, before it is cut to sixteen bits, is the true one. */
  predicate ExactRatio(e: Edge, memo: map<Edge, nat>, n: nat)
    requires Countable(e, n) && e.node.Branch?
  {
    ChildrenCountable(e, n);
    BranchPart(ElseOf(e), e.node.index, memo, n) * Weight(e, n) == BranchWeight(ElseOf(e), e.node.index, n) * Computed(e, memo, n)
  }

  /** Every branch probability the count of `e` stores is the true one. */
  predicate ExactRatios(e: Edge, memo: map<Edge, nat>, n: nat)
    requires Countable(e, n)
    decreases e.node
  {
    e.node.One? || e in memo ||
    (ChildrenCountable(e, n); ExactRatios(ThenOf(e), memo, n) && ExactRatios(ElseOf(e), memo, n) && ExactRatio(e, memo, n))
  }

  /** A weight `c` is `v` up to the factor between `s` and `n` variables. */
  predicate ScaledTo(c: nat, v: nat, s: nat, n: nat) {
    c * Pow2(n) == v * Pow2(s)
  }

  lemma WeightScales(e: Edge, s: nat, n: nat)
    requires e.node.Branch? && Countable(e, s) && Countable(e, n)
    ensures e.node.index < s && e.node.index < n && ScaledTo(Weight(e, s), Weight(e, n), s, n)
  {
    WeightPositive(e, s);
    WeightPositive(e, n);
    hide CountFrom;
    if s <= n {
      CountScales(e, e.node.index, s, n);
      PowerFactor(Weight(e, s), Weight(e, n), s, n);
    } else {
      CountScales(e, e.node.index, n, s);
      PowerFactor(Weight(e, n), Weight(e, s), n, s);
    }
  }

  lemma PowerFactor(c: nat, v: nat, s: nat, n: nat)
    requires s <= n && v == Pow2(n - s) * c
    ensures c * Pow2(n) == v * Pow2(s)
  {
    Pow2Add(n - s, s);
    var p, q := Pow2(n - s), Pow2(s);
    assert c * (p * q) == (p * c) * q;
  }

  lemma ProportionChain(c: nat, v: nat, d: nat, w: nat, x: nat, y: nat)
    requires InProportion(c, v, d, w) && InProportion(d, w, x, y) && d > 0 && w > 0
    ensures InProportion(c, v, x, y)
  {
    assert (c * y) * w == (c * w) * y;
    assert (x * v) * w == (x * w) * v;
    assert (d * v) * y == (d * y) * v;
    CancelFactor(c * y, x * v, w);
  }

  lemma ProportionSwap(c: nat, v: nat, d: nat, w: nat)
    ensures InProportion(c, v, d, w) <==> InProportion(d, w, c, v)
  {
  }

  lemma ProportionTimes(k: nat, c: nat, v: nat, d: nat, w: nat)
    requires InProportion(c, v, d, w)
    ensures InProportion(k * c, k * v, d, w)
  {
    assert (k * c) * w == k * (c * w);
    assert d * (k * v) == k * (d * v);
  }

  lemma ProportionSum(c: nat, v: nat, c': nat, v': nat, d: nat, w: nat)
    requires InProportion(c, v, d, w) && InProportion(c', v', d, w)
    ensures InProportion(c + c', v + v', d, w)
  {
    assert (c + c') * w == c * w + c' * w;
    assert d * (v + v') == d * v + d * v';
  }

  /** A branch's part is off by the factor of its weight. */
  lemma PartInProportion(child: Edge, index: nat, memo: map<Edge, nat>, n: nat)
    requires Countable(child, n) && index < n && Canonical(child, index + 1)
    requires child.node.Branch? ==> index < child.node.index < n
    ensures InProportion(BranchPart(child, index, memo, n), BranchWeight(child, index, n), Computed(child, memo, n), Weight(child, n))
  {
    hide Computed, CountFrom, Pow2;
    BranchWeightFormula(child, index, n);
    var c, v := Computed(child, memo, n), Weight(child, n);
    assert InProportion(c, v, c, v);
    if child.node.Branch? {
      ProportionTimes(Pow2(child.node.index - index - 1), c, v, c, v);
    } else if !child.complement {
      ProportionTimes(Pow2(n - index - 1), c, v, c, v);
    }
  }

  /** The true and the computed weight of a satisfiable edge, and of its source, are positive. */
  lemma WeightsPositive(e: Edge, memo: map<Edge, nat>, n: nat)
    requires Countable(e, n) && Positive(memo) && e != FALSE
    ensures Computed(e, memo, n) > 0 && Weight(e, n) > 0
  {
    ComputedPositive(e, memo, n);
    if e.node.Branch? { WeightPositive(e, n); } else { CountConstant(e, {}, n, n); assert e == TRUE; }
  }

  /** In an unmixed diagram every computed weight is off by the factor of its source. */
  lemma {:induction false} UnmixedFactor(e: Edge, memo: map<Edge, nat>, n: nat)
    requires Countable(e, n) && Positive(memo) && Unmixed(e, memo, n) && e != FALSE
    ensures Countable(Source(e, memo), n)
    ensures InProportion(Computed(e, memo, n), Weight(e, n), Computed(Source(e, memo), memo, n), Weight(Source(e, memo), n))
    decreases e.node
  {
    SourceCountable(e, memo, n);
    if e.node.Branch? && e !in memo {
      ChildrenCountable(e, n);
      hide Canonical, Below, CountFrom, InProportion, Computed, Source;
      if ThenOf(e) != FALSE { UnmixedFactor(ThenOf(e), memo, n); }
      if ElseOf(e) != FALSE { UnmixedFactor(ElseOf(e), memo, n); }
      NodeFactor(e, memo, n);
    }
  }

  lemma SourceOf(e: Edge, memo: map<Edge, nat>)
    requires e.node.Branch? && e !in memo
    ensures Source(e, memo) == if ElseOf(e) == FALSE then Source(ThenOf(e), memo) else Source(ElseOf(e), memo)
  {
  }

  /** The proportion of an edge's computed and true weight is that of its source. */
  predicate FactorOfSource(e: Edge, memo: map<Edge, nat>, n: nat)
    requires Countable(e, n)
  {
    SourceCountable(e, memo, n);
    InProportion(Computed(e, memo, n), Weight(e, n), Computed(Source(e, memo), memo, n), Weight(Source(e, memo), n))
  }

  lemma NodeFactor(e: Edge, memo: map<Edge, nat>, n: nat)
    requires Countable(e, n) && Positive(memo) && e.node.Branch? && e !in memo
    requires Countable(ThenOf(e), n) && Countable(ElseOf(e), n) && SameFactor(ThenOf(e), ElseOf(e), memo, n)
    requires ThenOf(e) != FALSE ==> FactorOfSource(ThenOf(e), memo, n)
    requires ElseOf(e) != FALSE ==> FactorOfSource(ElseOf(e), memo, n)
    ensures FactorOfSource(e, memo, n)
  {
    var k, t, f, index := Source(e, memo), ThenOf(e), ElseOf(e), e.node.index;
    SourceOf(e, memo);
    ChildrenCountable(e, n);
    SourceCountable(e, memo, n);
    WeightSum(e, memo, n);
    hide Canonical, Below, CountFrom, InProportion, Computed, Source, BranchPart, SameFactor;
    PartFactor(t, index, k, memo, n) by { if t != FALSE && f != FALSE { OtherSource(t, f, memo, n); } }
    PartFactor(f, index, k, memo, n);
    ProportionSum(BranchPart(t, index, memo, n), BranchWeight(t, index, n), BranchPart(f, index, memo, n), BranchWeight(f, index, n),
                  Computed(k, memo, n), Weight(k, n));
  }

  /** With equal factors the source of one branch does for the other. */
  lemma OtherSource(t: Edge, f: Edge, memo: map<Edge, nat>, n: nat)
    requires Countable(t, n) && Countable(f, n) && Positive(memo) && t != FALSE && f != FALSE
    requires SameFactor(t, f, memo, n) && FactorOfSource(t, memo, n)
    ensures Countable(Source(f, memo), n)
    ensures InProportion(Computed(t, memo, n), Weight(t, n), Computed(Source(f, memo), memo, n), Weight(Source(f, memo), n))
  {
    SourceCountable(t, memo, n);
    SourceCountable(f, memo, n);
    var k, l := Source(t, memo), Source(f, memo);
    WeightsPositive(k, memo, n);
    hide Canonical, Below, CountFrom, InProportion, Computed, Source;
    ProportionChain(Computed(t, memo, n), Weight(t, n), Computed(k, memo, n), Weight(k, n), Computed(l, memo, n), Weight(l, n));
  }

  lemma PartFactor(child: Edge, index: nat, k: Edge, memo: map<Edge, nat>, n: nat)
    requires Countable(child, n) && Countable(k, n) && Positive(memo) && index < n && Canonical(child, index + 1)
    requires child.node.Branch? ==> index < child.node.index < n
    requires child != FALSE ==> InProportion(Computed(child, memo, n), Weight(child, n), Computed(k, memo, n), Weight(k, n))
    ensures InProportion(BranchPart(child, index, memo, n), BranchWeight(child, index, n), Computed(k, memo, n), Weight(k, n))
  {
    if child == FALSE {
      CountConstant(FALSE, {}, index + 1, n);
    } else {
      PartInProportion(child, index, memo, n);
      WeightsPositive(child, memo, n);
      hide Canonical, Below, CountFrom, InProportion, Computed, BranchPart;
      ProportionChain(BranchPart(child, index, memo, n), BranchWeight(child, index, n), Computed(child, memo, n), Weight(child, n),
                      Computed(k, memo, n), Weight(k, n));
    }
  }

  /** Computed and true weight of a node that is not remembered, from its branches. */
  lemma WeightSum(e: Edge, memo: map<Edge, nat>, n: nat)
    requires Countable(e, n) && e.node.Branch? && e !in memo
    ensures e.node.index < n && Countable(ThenOf(e), n) && Countable(ElseOf(e), n)
    ensures ThenOf(e).node.Branch? ==> e.node.index < ThenOf(e).node.index < n
    ensures ElseOf(e).node.Branch? ==> e.node.index < ElseOf(e).node.index < n
    ensures Computed(e, memo, n) == BranchPart(ThenOf(e), e.node.index, memo, n) + BranchPart(ElseOf(e), e.node.index, memo, n)
    ensures Weight(e, n) == BranchWeight(ThenOf(e), e.node.index, n) + BranchWeight(ElseOf(e), e.node.index, n)
  {
    ChildrenCountable(e, n);
    CountableCanonical(e, n);
    CountBranch(e, n);
  }

  lemma PositiveProducts(a: nat, b: nat)
    requires a > 0 && b > 0
    ensures a * b > 0
  {
  }

  lemma CancelFactor(a: nat, b: nat, p: nat)
    requires p > 0 && (a * p == b * p || p * a == p * b)
    ensures a == b
  {
    if a < b { Distribute(p, a, b - a); MulAtLeast(b - a, p); }
    if b < a { Distribute(p, b, a - b); MulAtLeast(a - b, p); }
  }

  lemma Pow2Injective(s: nat, s': nat)
    ensures Pow2(s) == Pow2(s') <==> s == s'
  {
    if s < s' { Pow2Monotone(s, s'); }
    if s' < s { Pow2Monotone(s', s); }
  }

  /** Parts are in the true ratio exactly when they are off by the same factor. */
  lemma RatioIff(a: nat, b: nat, A: nat, B: nat)
    ensures a * (A + B) == A * (a + b) <==> InProportion(a, A, b, B)
  {
    assert a * (A + B) == a * A + a * B && A * (a + b) == a * A + A * b;
  }

  lemma NodeExactIff(e: Edge, memo: map<Edge, nat>, n: nat)
    requires Countable(e, n) && Positive(memo) && e.node.Branch? && e !in memo
    requires Countable(ThenOf(e), n) && Countable(ElseOf(e), n) && Unmixed(ThenOf(e), memo, n) && Unmixed(ElseOf(e), memo, n)
    ensures ExactRatio(e, memo, n) <==> SameFactor(ThenOf(e), ElseOf(e), memo, n)
  {
    WeightSum(e, memo, n);
    ChildrenCountable(e, n);
    var index, t, f := e.node.index, ThenOf(e), ElseOf(e);
    var a, b, A, B := BranchPart(f, index, memo, n), BranchPart(t, index, memo, n), BranchWeight(f, index, n), BranchWeight(t, index, n);
    RatioIff(a, b, A, B);
    assert ExactRatio(e, memo, n) <==> InProportion(a, A, b, B);
    if t == FALSE {
      FalsePart(index, memo, n);
    } else if f == FALSE {
      FalsePart(index, memo, n);
    } else {
      hide Canonical, Below, CountFrom, InProportion, Computed, Source, BranchPart, Unmixed, SameFactor, ExactRatio;
      UnmixedFactor(t, memo, n);
      UnmixedFactor(f, memo, n);
      FactorsIff(t, f, index, memo, n);
    }
  }

  lemma FalsePart(index: nat, memo: map<Edge, nat>, n: nat)
    requires index < n
    ensures Countable(FALSE, n) && BranchPart(FALSE, index, memo, n) == 0 && BranchWeight(FALSE, index, n) == 0
  {
    CountConstant(FALSE, {}, index + 1, n);
  }

  /** Two branches are off by the same factor exactly when their sources are. */
  lemma FactorsIff(t: Edge, f: Edge, index: nat, memo: map<Edge, nat>, n: nat)
    requires Countable(t, n) && Countable(f, n) && Positive(memo) && t != FALSE && f != FALSE && index < n
    requires Canonical(t, index + 1) && Canonical(f, index + 1)
    requires (t.node.Branch? ==> index < t.node.index < n) && (f.node.Branch? ==> index < f.node.index < n)
    requires FactorOfSource(t, memo, n) && FactorOfSource(f, memo, n)
    ensures InProportion(BranchPart(f, index, memo, n), BranchWeight(f, index, n), BranchPart(t, index, memo, n), BranchWeight(t, index, n))
       <==> SameFactor(t, f, memo, n)
  {
    SourceCountable(t, memo, n);
    SourceCountable(f, memo, n);
    var k, l := Source(t, memo), Source(f, memo);
    WeightsPositive(k, memo, n);
    WeightsPositive(l, memo, n);
    PartFactor(t, index, k, memo, n);
    PartFactor(f, index, l, memo, n);
    PartsPositive(t, index, memo, n);
    PartsPositive(f, index, memo, n);
    hide Canonical, Below, CountFrom, InProportion, Computed, Source, BranchPart;
    EqualFactors(BranchPart(t, index, memo, n), BranchWeight(t, index, n), Computed(k, memo, n), Weight(k, n),
                 BranchPart(f, index, memo, n), BranchWeight(f, index, n), Computed(l, memo, n), Weight(l, n));
  }

  lemma PartsPositive(child: Edge, index: nat, memo: map<Edge, nat>, n: nat)
    requires Countable(child, n) && Positive(memo) && child != FALSE && index < n && Canonical(child, index + 1)
    requires child.node.Branch? ==> index < child.node.index < n
    ensures BranchPart(child, index, memo, n) > 0 && BranchWeight(child, index, n) > 0
  {
    ComputedPositive(child, memo, n);
    PartPositive(child, index, memo, n);
    BranchWeightPositive(child, index, n);
  }

  lemma EqualFactors(b: nat, B: nat, c: nat, v: nat, a: nat, A: nat, d: nat, w: nat)
    requires InProportion(b, B, c, v) && InProportion(a, A, d, w)
    requires a > 0 && A > 0 && b > 0 && B > 0 && c > 0 && v > 0 && d > 0 && w > 0
    ensures InProportion(a, A, b, B) <==> InProportion(c, v, d, w)
  {
    hide InProportion;
    ProportionSwap(b, B, c, v);
    ProportionSwap(a, A, d, w);
    ProportionSwap(a, A, b, B);
    if InProportion(a, A, b, B) {
      ProportionChain(c, v, b, B, a, A);
      ProportionChain(c, v, a, A, d, w);
    } else if InProportion(c, v, d, w) {
      ProportionSwap(c, v, d, w);
      ProportionChain(a, A, d, w, c, v);
      ProportionChain(a, A, c, v, b, B);
    }
  }

  lemma BranchWeightPositive(child: Edge, index: nat, n: nat)
    requires Countable(child, n) && index < n && Canonical(child, index + 1)
    ensures BranchWeight(child, index, n) > 0 <==> child != FALSE
  {
    CountPositive(child, index + 1, n);
  }

  /** With whatever is remembered from other objects, all branch probabilities a count stores are the true
      ones if and only if no new node mixes weights that are off by different factors. */
  lemma {:induction false} CountExactIff(e: Edge, memo: map<Edge, nat>, n: nat)
    requires Countable(e, n) && Positive(memo)
    ensures ExactRatios(e, memo, n) <==> Unmixed(e, memo, n)
    decreases e.node
  {
    hide Canonical, Below, CountFrom, ExactRatio, SameFactor, Positive;
    if e.node.Branch? && e !in memo {
      ChildrenCountable(e, n);
      CountExactIff(ThenOf(e), memo, n);
      CountExactIff(ElseOf(e), memo, n);
      if Unmixed(ThenOf(e), memo, n) && Unmixed(ElseOf(e), memo, n) {
        NodeExactIff(e, memo, n);
      }
    }
  }

  /** What is remembered was counted for some number of variables each. */
  predicate CountedFor(memo: map<Edge, nat>, origin: map<Edge, nat>) {
    forall e | e in memo :: e in origin && e.node.Branch? && Countable(e, origin[e]) && memo[e] == Weight(e, origin[e])
  }

  /** The number of variables the source of an edge was counted for. */
  function Origin(e: Edge, memo: map<Edge, nat>, origin: map<Edge, nat>, n: nat): nat
    requires CountedFor(memo, origin)
  {
    var k := Source(e, memo);
    if k in memo then origin[k] else n
  }

  /** Then two edges are off by the same factor exactly when they go back to counts over equally many variables. */
  lemma SameOriginIff(a: Edge, b: Edge, memo: map<Edge, nat>, origin: map<Edge, nat>, n: nat)
    requires Countable(a, n) && Countable(b, n) && CountedFor(memo, origin) && a != FALSE && b != FALSE
    ensures SameFactor(a, b, memo, n) <==> Origin(a, memo, origin, n) == Origin(b, memo, origin, n)
  {
    SourceCountable(a, memo, n);
    SourceCountable(b, memo, n);
    var k, l := Source(a, memo), Source(b, memo);
    var s, s' := Origin(a, memo, origin, n), Origin(b, memo, origin, n);
    SourceScaled(k, memo, origin, n, s);
    SourceScaled(l, memo, origin, n, s');
    hide Canonical, Below, CountFrom, Computed, Source, CountedFor, Origin;
    ScaledFactors(Computed(k, memo, n), Weight(k, n), Computed(l, memo, n), Weight(l, n), Pow2(n), Pow2(s), Pow2(s'));
    Pow2Injective(s, s');
  }

  lemma SourceScaled(k: Edge, memo: map<Edge, nat>, origin: map<Edge, nat>, n: nat, s: nat)
    requires Countable(k, n) && CountedFor(memo, origin) && k != FALSE && (k.node.One? || k in memo)
    requires s == if k in memo then origin[k] else n
    ensures ScaledTo(Computed(k, memo, n), Weight(k, n), s, n) && Weight(k, n) > 0
  {
    if k in memo {
      WeightPositive(k, n);
      WeightScales(k, origin[k], n);
    } else {
      CountConstant(k, {}, n, n);
      assert k == TRUE;
    }
  }

  lemma ScaledFactors(c: nat, v: nat, d: nat, w: nat, p: nat, q: nat, q': nat)
    requires c * p == v * q && d * p == w * q' && v > 0 && w > 0 && p > 0
    ensures InProportion(c, v, d, w) <==> q == q'
  {
    assert (c * w) * p == (v * w) * q by { assert (c * w) * p == (c * p) * w; assert (v * q) * w == (v * w) * q; }
    assert (d * v) * p == (v * w) * q' by { assert (d * v) * p == (d * p) * v; assert (w * q') * v == (v * w) * q'; }
    if q == q' {
      CancelFactor(c * w, d * v, p);
    } else if c * w == d * v {
      PositiveProducts(v, w);
      CancelFactor(q, q', v * w);
    }
  }

  /** A true probability, cut to sixteen bits, is the true share. */
  lemma ExactRatioShare(e: Edge, memo: map<Edge, nat>, n: nat)
    requires Countable(e, n) && e.node.Branch? && Computed(e, memo, n) > 0 && ExactRatio(e, memo, n)
    ensures e.node.index < n && Weight(e, n) > 0 && ComputedShare(e, memo, n) == ElseShare(e, n)
  {
    ChildrenCountable(e, n);
    hide CountFrom, Computed, BranchPart;
    WeightPositive(e, n);
    SameQuotient(BranchPart(ElseOf(e), e.node.index, memo, n), Computed(e, memo, n),
                 BranchWeight(ElseOf(e), e.node.index, n), Weight(e, n), ROUNDTO);
  }

  lemma SameQuotient(a: nat, c: nat, A: nat, C: nat, k: nat)
    requires c > 0 && C > 0 && a * C == A * c
    ensures a * k / c == A * k / C
  {
    var x, y := a * k, A * k;
    assert x * C == y * c by { assert (a * k) * C == (a * C) * k; assert (A * k) * c == (A * c) * k; }
    var q, r := x / c, x % c;
    assert x == q * c + r;
    // y / C has the same quotient: y c == x C == (q C) c + r C
    assert y * c == (q * C) * c + r * C by { assert (q * c + r) * C == (q * c) * C + r * C; assert (q * c) * C == (q * C) * c; }
    var d := y - q * C;
    assert d * c == r * C by { assert (y - q * C) * c == y * c - (q * C) * c; }
    if d < 0 { NegativeProduct(d, c, r, C); }
    if d >= C { LargeProduct(d, c, r, C); }
    DivModUnique(y, C, q, d);
  }

  lemma NegativeProduct(d: int, c: nat, r: nat, C: nat)
    requires d < 0 && c > 0
    ensures d * c != r * C
  {
    MulAtLeast(0 - d, c);
    assert (0 - d) * c == 0 - d * c;
    assert r * C >= 0;
  }

  lemma LargeProduct(d: int, c: nat, r: nat, C: nat)
    requires d >= C > 0 && r < c
    ensures d * c != r * C
  {
    assert d * c >= C * c by { Distribute(c, C, d - C); assert c * (d - C) >= 0; }
    Distribute(C, r, c - r);
    MulAtLeast(c - r, C);
  }

  /** A share that stays remembered is right for every number of variables. */
  lemma RememberedShare(e: Edge, s: nat, n: nat)
    requires e.node.Branch? && Countable(e, s) && Countable(e, n)
    ensures e.node.index < s && e.node.index < n && Weight(e, s) > 0 && Weight(e, n) > 0
    ensures ElseShare(e, s) == ElseShare(e, n)
  {
    WeightPositive(e, s);
    WeightPositive(e, n);
    ChildrenCountable(e, n);
    ChildrenCountable(e, s);
    hide CountFrom;
    WeightScales(e, s, n);
    PartOfScaled(ElseOf(e), e.node.index, s, n);
    ScaledRatio(BranchWeight(ElseOf(e), e.node.index, s), Weight(e, s), BranchWeight(ElseOf(e), e.node.index, n), Weight(e, n), s, n);
    SameQuotient(BranchWeight(ElseOf(e), e.node.index, s), Weight(e, s), BranchWeight(ElseOf(e), e.node.index, n), Weight(e, n), ROUNDTO);
  }

  /** Where every probability of a count is the true one, each node it met for the first time has it. */
  lemma {:induction false} ExactEverywhere(e: Edge, memo: map<Edge, nat>, shares0: map<Edge, nat>, n: nat, k: Edge)
    requires Countable(e, n) && ExactRatios(e, memo, n) && Closed(memo, shares0)
    requires k in Reachable(e) && k.node.Branch? && k !in memo
    ensures Countable(k, n) && ExactRatio(k, memo, n)
    decreases e.node
  {
    hide ExactRatio, Canonical, Below;
    if e in memo {
      RememberedBelow(e, memo, shares0, k);
      assert false;
    } else if k != e {
      ChildrenCountable(e, n);
      if k in Reachable(ThenOf(e)) {
        ExactEverywhere(ThenOf(e), memo, shares0, n, k);
      } else {
        ExactEverywhere(ElseOf(e), memo, shares0, n, k);
      }
    }
  }

  lemma {:induction false} RememberedBelow(e: Edge, memo: map<Edge, nat>, shares0: map<Edge, nat>, k: Edge)
    requires (e.node.Branch? ==> e in memo) && Closed(memo, shares0) && k in Reachable(e) && k.node.Branch?
    ensures k in memo
    decreases e.node
  {
    if k != e {
      if k in Reachable(ThenOf(e)) { RememberedBelow(ThenOf(e), memo, shares0, k); } else { RememberedBelow(ElseOf(e), memo, shares0, k); }
    }
  }

  /** The share in the table is the one a count over `n` variables from nothing would give. */
  predicate TrueShare(k: Edge, n: nat, shares: map<Edge, nat>) {
    k.node.Branch? && k.node.index < n && Weight(k, n) > 0 && k in shares && shares[k] == ElseShare(k, n)
  }

  /** All shares remembered are right, for any number of variables. */
  ghost predicate TrueTable(weights: map<Edge, nat>, shares: map<Edge, nat>) {
    forall k | k in weights :: TrueForAll(k, shares)
  }

  ghost predicate TrueForAll(k: Edge, shares: map<Edge, nat>) {
    forall n: nat | Countable(k, n) :: TrueShare(k, n, shares)
  }

  /** Whatever weights are remembered: a count that does not mix them keeps all shares in the table right. */
  lemma UnmixedShares(b: Edge, memo: map<Edge, nat>, n: nat, weights: map<Edge, nat>, shares0: map<Edge, nat>, shares: map<Edge, nat>)
    requires Countable(b, n) && Positive(memo) && Unmixed(b, memo, n) && TrueTable(memo, shares0)
    requires Closed(memo, shares0) && Grows(memo, n, weights, shares0, shares) && weights.Keys <= memo.Keys + Reachable(b)
    ensures TrueTable(weights, shares)
  {
    hide Canonical, Below, CountFrom, Computed, Unmixed, ElseShare, Reachable, Countable, Positive;
    CountExactIff(b, memo, n);
    forall k | k in weights ensures TrueForAll(k, shares) {
      if k in memo { RememberedTrue(k, memo, n, weights, shares0, shares); } else { NewTrue(b, memo, n, weights, shares0, shares, k); }
    }
  }

  lemma RememberedTrue(k: Edge, memo: map<Edge, nat>, n: nat, weights: map<Edge, nat>, shares0: map<Edge, nat>, shares: map<Edge, nat>)
    requires k in memo && TrueTable(memo, shares0) && Grows(memo, n, weights, shares0, shares) && Closed(memo, shares0)
    ensures TrueForAll(k, shares)
  {
    hide Canonical, Below, CountFrom, ElseShare, Countable;
    assert TrueForAll(k, shares0);
  }

  lemma NewTrue(b: Edge, memo: map<Edge, nat>, n: nat, weights: map<Edge, nat>, shares0: map<Edge, nat>, shares: map<Edge, nat>, k: Edge)
    requires Countable(b, n) && Positive(memo) && ExactRatios(b, memo, n)
    requires Closed(memo, shares0) && Grows(memo, n, weights, shares0, shares) && k in weights && k !in memo && k in Reachable(b)
    ensures TrueForAll(k, shares)
  {
    assert Entered(k, memo, n, weights, shares);
    hide Canonical, Below, CountFrom, Computed, ElseShare, Countable, ExactRatio, ExactRatios, Reachable, Positive, ComputedShare;
    ExactEverywhere(b, memo, shares0, n, k);
    ExactRatioShare(k, memo, n);
    forall m: nat | Countable(k, m) ensures TrueShare(k, m, shares) { RememberedShare(k, n, m); }
  }

  /** From a table with right shares the sampler finds the right share of every node it can meet. */
  lemma TrueWalk(b: Edge, n: nat, weights: map<Edge, nat>, shares: map<Edge, nat>, k: Edge)
    requires Countable(b, n) && TrueTable(weights, shares) && Closed(weights, shares) && (b.node.Branch? ==> b in weights)
    requires k in Reachable(b) && k.node.Branch?
    ensures Countable(k, n) && TrueShare(k, n, shares)
  {
    hide Canonical, Below, CountFrom, ElseShare, Countable, TrueShare, Reachable;
    ReachableCountable(b, n, k);
    RememberedBelow(b, weights, shares, k);
    assert TrueForAll(k, shares);
  }

  lemma {:induction false} ReachableCountable(e: Edge, n: nat, k: Edge)
    requires Countable(e, n) && k in Reachable(e)
    ensures Countable(k, n)
    decreases e.node
  {
    hide Canonical, Below;
    if k != e && e.node.Branch? {
      ChildrenCountable(e, n);
      if k in Reachable(ThenOf(e)) { ReachableCountable(ThenOf(e), n, k); } else { ReachableCountable(ElseOf(e), n, k); }
    }
  }

  lemma PartOfScaled(child: Edge, index: nat, s: nat, n: nat)
    requires Countable(child, s) && Countable(child, n) && index < s && index < n
    ensures ScaledTo(BranchWeight(child, index, s), BranchWeight(child, index, n), s, n)
  {
    hide CountFrom;
    if s <= n {
      CountScales(child, index + 1, s, n);
      PowerFactor(BranchWeight(child, index, s), BranchWeight(child, index, n), s, n);
    } else {
      CountScales(child, index + 1, n, s);
      PowerFactor(BranchWeight(child, index, n), BranchWeight(child, index, s), n, s);
    }
  }

  lemma ScaledRatio(a: nat, c: nat, A: nat, C: nat, s: nat, n: nat)
    requires ScaledTo(a, A, s, n) && ScaledTo(c, C, s, n)
    ensures a * C == A * c
  {
    var p, q := Pow2(n), Pow2(s);
    FourFactors(a, C, p, q);
    FourFactors(A, c, q, p);
    assert p * q == q * p;
    PositiveProducts(p, q);
    CancelFactor(a * C, A * c, p * q);
  }

  lemma FourFactors(a: nat, b: nat, c: nat, d: nat)
    ensures (a * b) * (c * d) == (a * c) * (b * d)
  {
    assert (a * b) * (c * d) == a * (b * (c * d));
    assert b * (c * d) == c * (b * d);
    assert (a * c) * (b * d) == a * (c * (b * d));
  }

  /** The diagram of `x0 | x1`. */
  const EITHER: Bdd := Edge(false, Branch(0, TRUE, Variable(1)))

  /** Two objects after another: `x1` counted over two variables, then `x0 | x1` over three. The else share
      stored for the second is 13107 in 65536, one in five, where one in three is right. */
  method StaleRun() returns (w: WeightTable)
    ensures fresh(w) && w.Valid() && EITHER in w.nodeHash && w.nodeHash[EITHER] == 13107
    ensures Countable(EITHER, 3) && Weight(EITHER, 3) == 6 && ElseShare(EITHER, 3) == 21845
  {
    w := new WeightTable();
    assert Below(Variable(1), 2 * 1) && Below(EITHER, 3 * 1);
    w.GenerateWeight(Variable(1), 2, 1);
    VariableCounted(w.nodeWeightHash, w.nodeHash);
    ghost var memo, shares := w.nodeWeightHash, w.nodeHash;
    w.GenerateWeight(EITHER, 3, 1);
    EitherCounted(memo, shares, w.nodeWeightHash, w.nodeHash);
  }

  lemma VariableCounted(weights: map<Edge, nat>, shares: map<Edge, nat>)
    requires Grows(map[], 2, weights, map[], shares) && Variable(1) in weights && weights.Keys <= Reachable(Variable(1))
    ensures weights[Variable(1)] == 1 && EITHER !in weights
  {
    assert Entered(Variable(1), map[], 2, weights, shares);
    assert Reachable(Variable(1)) == {Variable(1), TRUE, FALSE};
  }

  lemma EitherCounted(memo: map<Edge, nat>, shares0: map<Edge, nat>, weights: map<Edge, nat>, shares: map<Edge, nat>)
    requires Grows(memo, 3, weights, shares0, shares) && Variable(1) in memo && memo[Variable(1)] == 1 && EITHER !in memo && EITHER in weights
    ensures EITHER in shares && shares[EITHER] == 13107
    ensures Countable(EITHER, 3) && Weight(EITHER, 3) == 6 && ElseShare(EITHER, 3) == 21845
  {
    EitherWeight();
    EitherComputed(memo);
    assert Entered(EITHER, memo, 3, weights, shares);
    hide CountFrom, Computed, BranchPart, Countable, Canonical, Below;
  }

  lemma EitherComputed(memo: map<Edge, nat>)
    requires Variable(1) in memo && memo[Variable(1)] == 1 && EITHER !in memo
    ensures Countable(EITHER, 3) && Computed(EITHER, memo, 3) == 5 && ComputedShare(EITHER, memo, 3) == 13107
  {
    var x1 := Variable(1);
    assert ThenOf(EITHER) == TRUE && ElseOf(EITHER) == x1;
    assert Pow2(2) == 4 && Pow2(0) == 1;
    assert Computed(x1, memo, 3) == 1;
    assert BranchPart(x1, 0, memo, 3) == 1 && BranchPart(TRUE, 0, memo, 3) == 4;
    hide Pow2;
  }

  lemma EitherWeight()
    ensures Countable(EITHER, 3) && Weight(EITHER, 3) == 6 && BranchWeight(Variable(1), 0, 3) == 2
  {
    hide CountFrom;
    CountBranch(EITHER, 3);
    CountBranch(Variable(1), 3);
    CountConstant(TRUE, {}, 1, 3);
    CountConstant(TRUE, {}, 2, 3);
    CountConstant(FALSE, {}, 2, 3);
    assert Pow2(2) == 4 && Pow2(1) == 2;
  }
}

/**
 * EliminateHybrid: one elimination step on a GaussianHybridFactorGraph.
 *
 * The sum is computed, leaves holding a null factor are emptied, every leaf
 * is eliminated with the Gaussian eliminator (an empty leaf gives a null
 * pair), the tree of pairs is unzipped into conditionals and separator
 * factors, and the remainder is a discrete factor when no continuous
 * separator keys remain and a mixture factor otherwise. With an empty sum the
 * step is discrete elimination of the discrete factors.
 */
module HybridElimination {
  import opened Wrappers
  import opened DecisionTrees
  import opened HybridFactors
  import opened HybridSum

  /** The routines this step calls but does not define. */
  datatype Collaborators = Collaborators(
    addMixture: MixtureAdder,
    eliminatePreferCholesky: (GaussianFactorGraph, Ordering) -> (GaussianConditional, GaussianFactor),
    eliminateForMPE: (seq<DiscreteFactor>, Ordering) -> (DiscreteConditional, DiscreteFactor),
    error: (GaussianFactor, VectorValues) -> real,
    exp: real -> real)

  /** GaussianFactorGraph::EliminationResult, with null pointers as None. */
  type EliminationPair = (Option<GaussianConditional>, Option<GaussianFactor>)

  /** The conditional returned by the step. */
  datatype HybridConditional =
    | DiscreteResult(discrete: DiscreteConditional)
    | GaussianMixture(
        nrFrontals: nat,
        keys: seq<Key>,
        discreteKeys: seq<DiscreteKey>,
        conditionals: DecisionTree<Option<GaussianConditional>>)

  /** The remainder factor returned by the step. */
  datatype HybridRemainder =
    | DiscreteRemainder(discrete: DiscreteFactor)
    | PotentialRemainder(potentials: DecisionTreeFactor)
    | MixtureRemainder(mixture: MixtureFactor)

  type EliminationOutput = (HybridConditional, HybridRemainder)

  // ---------------------------------------------------------------------------
  // zeroOut

  predicate HasNull(graph: GaussianFactorGraph) {
    exists i :: 0 <= i < |graph| && graph[i].None?
  }

  /** The `zeroOut` lambda: a graph holding a null factor becomes the empty graph. */
  function ZeroOut(graph: GaussianFactorGraph): (r: GaussianFactorGraph)
    ensures forall i :: 0 <= i < |r| ==> r[i].Some?
    ensures HasNull(graph) ==> r == []
    ensures !HasNull(graph) ==> r == graph
  {
    if HasNull(graph) then [] else graph
  }

  lemma ZeroOutIdempotent(graph: GaussianFactorGraph)
    ensures ZeroOut(ZeroOut(graph)) == ZeroOut(graph)
  {
  }

  // ---------------------------------------------------------------------------
  // eliminate

  /** The `eliminate` lambda without its captures: an empty leaf gives (null, null). */
  function EliminateLeaf(
    graph: GaussianFactorGraph,
    ordering: Ordering,
    cholesky: (GaussianFactorGraph, Ordering) -> (GaussianConditional, GaussianFactor)): (r: EliminationPair)
    ensures graph == [] <==> r.0.None?
    ensures graph == [] <==> r.1.None?
    ensures graph != [] ==> r == (Some(cholesky(graph, ordering).0), Some(cholesky(graph, ordering).1))
  {
    if graph == [] then (None, None)
    else
      var (conditional, factor) := cholesky(graph, ordering);
      (Some(conditional), Some(factor))
  }

  /** The key list of a pair's conditional; a null conditional has none. */
  function ConditionalKeysOf(pair: EliminationPair): seq<Key> {
    if pair.0.Some? then pair.0.value.keys else []
  }

  /** The key list of a pair's separator factor; a null factor has none. */
  function SeparatorKeysOf(pair: EliminationPair): seq<Key> {
    if pair.1.Some? then pair.1.value.keys else []
  }

  function ConditionalKeys(results: seq<EliminationPair>): (r: seq<seq<Key>>)
    ensures |r| == |results|
    ensures forall i :: 0 <= i < |results| ==> r[i] == ConditionalKeysOf(results[i])
  {
    seq(|results|, i requires 0 <= i < |results| => ConditionalKeysOf(results[i]))
  }

  function SeparatorKeys(results: seq<EliminationPair>): (r: seq<seq<Key>>)
    ensures |r| == |results|
    ensures forall i :: 0 <= i < |results| ==> r[i] == SeparatorKeysOf(results[i])
  {
    seq(|results|, i requires 0 <= i < |results| => SeparatorKeysOf(results[i]))
  }

  lemma KeysAppend(results: seq<EliminationPair>, pair: EliminationPair)
    ensures ConditionalKeys(results + [pair]) == ConditionalKeys(results) + [ConditionalKeysOf(pair)]
    ensures SeparatorKeys(results + [pair]) == SeparatorKeys(results) + [SeparatorKeysOf(pair)]
  {
  }

  /**
   * The first non-empty key list, in visit order, or the empty list when
   * every list is empty: what a captured key list holds after the visit.
   */
  function FirstNonEmpty(lists: seq<seq<Key>>): (r: seq<Key>)
    ensures r == [] <==> forall i :: 0 <= i < |lists| ==> lists[i] == []
    ensures r != [] ==> exists k :: 0 <= k < |lists| && lists[k] == r && forall j :: 0 <= j < k ==> lists[j] == []
  {
    if lists == [] then []
    else if lists[0] != [] then lists[0]
    else
      var r := FirstNonEmpty(lists[1..]);
      assert forall i :: 1 <= i < |lists| ==> lists[i] == lists[1..][i - 1];
      if r != [] then
        var k :| 0 <= k < |lists[1..]| && lists[1..][k] == r && forall j :: 0 <= j < k ==> lists[1..][j] == [];
        assert lists[k + 1] == r && forall j :: 0 <= j < k + 1 ==> lists[j] == [];
        r
      else
        r
  }

  /** Once a captured key list is non-empty, later leaves never overwrite it. */
  lemma {:induction false} FirstNonEmptyAppend(lists: seq<seq<Key>>, next: seq<Key>)
    ensures FirstNonEmpty(lists + [next]) == if FirstNonEmpty(lists) != [] then FirstNonEmpty(lists) else next
  {
    if lists != [] {
      assert (lists + [next])[1..] == lists[1..] + [next];
      FirstNonEmptyAppend(lists[1..], next);
    }
  }

  /**
   * When every non-empty key list is the same list, the captured list is that
   * list whatever the visit order: it does not depend on which leaf came first.
   */
  lemma CapturedKeysAgree(lists: seq<seq<Key>>, i: nat)
    requires i < |lists| && lists[i] != []
    requires forall j, k :: 0 <= j < |lists| && 0 <= k < |lists| && lists[j] != [] && lists[k] != [] ==> lists[j] == lists[k]
    ensures FirstNonEmpty(lists) == lists[i]
  {
  }

  /**
   * The leaf-wise map with the `eliminate` lambda. Leaves are visited in
   * order; each captured key list takes the first non-empty key list of a
   * result and is not overwritten afterwards.
   */
  method EliminateLeaves(
    leaves: seq<GaussianFactorGraph>,
    ordering: Ordering,
    cholesky: (GaussianFactorGraph, Ordering) -> (GaussianConditional, GaussianFactor))
    returns (results: seq<EliminationPair>, keysOfEliminated: seq<Key>, keysOfSeparator: seq<Key>)
    ensures |results| == |leaves|
    ensures forall i :: 0 <= i < |leaves| ==> results[i] == EliminateLeaf(leaves[i], ordering, cholesky)
    ensures keysOfEliminated == FirstNonEmpty(ConditionalKeys(results))
    ensures keysOfSeparator == FirstNonEmpty(SeparatorKeys(results))
  {
    results, keysOfEliminated, keysOfSeparator := [], [], [];
    var i := 0;
    while i < |leaves|
      invariant 0 <= i <= |leaves| && |results| == i
      invariant forall j :: 0 <= j < i ==> results[j] == EliminateLeaf(leaves[j], ordering, cholesky)
      invariant keysOfEliminated == FirstNonEmpty(ConditionalKeys(results))
      invariant keysOfSeparator == FirstNonEmpty(SeparatorKeys(results))
    {
      var graph := leaves[i];
      var pair: EliminationPair;
      if graph == [] {
        pair := (None, None);
      } else {
        var (conditional, factor) := cholesky(graph, ordering);
        if keysOfEliminated == [] {
          keysOfEliminated := conditional.keys;
        }
        if keysOfSeparator == [] {
          keysOfSeparator := factor.keys;
        }
        pair := (Some(conditional), Some(factor));
      }
      KeysAppend(results, pair);
      FirstNonEmptyAppend(ConditionalKeys(results), ConditionalKeysOf(pair));
      FirstNonEmptyAppend(SeparatorKeys(results), SeparatorKeysOf(pair));
      results := results + [pair];
      i := i + 1;
    }
  }

  // ---------------------------------------------------------------------------
  // The remainder

  /** The `factorError` lambda: 0.0 for a null factor, exp(-error) at the empty values otherwise. */
  function FactorError(
    factor: Option<GaussianFactor>,
    error: (GaussianFactor, VectorValues) -> real,
    exp: real -> real): real
  {
    if factor.None? then 0.0 else exp(-error(factor.value, EmptyValues))
  }

  /**
   * With no separator keys, a discrete factor over the graph's discrete keys
   * with one potential per separator factor; otherwise a mixture factor over
   * the separator keys.
   */
  function ChooseRemainder(
    keysOfSeparator: seq<Key>,
    discreteKeys: seq<DiscreteKey>,
    separatorFactors: DecisionTree<Option<GaussianFactor>>,
    error: (GaussianFactor, VectorValues) -> real,
    exp: real -> real): (r: HybridRemainder)
    ensures keysOfSeparator == [] <==> r.PotentialRemainder?
    ensures keysOfSeparator != [] <==> r.MixtureRemainder?
    ensures r.PotentialRemainder? ==>
      && r.potentials.discreteKeys == discreteKeys
      && r.potentials.potentials.keys == separatorFactors.keys
      && |r.potentials.potentials.leaves| == |separatorFactors.leaves|
      && forall i :: 0 <= i < |separatorFactors.leaves| ==>
           r.potentials.potentials.leaves[i] == FactorError(separatorFactors.leaves[i], error, exp)
    ensures r.MixtureRemainder? ==> r.mixture == MixtureFactor(keysOfSeparator, discreteKeys, separatorFactors)
  {
    if keysOfSeparator == [] then
      var factorError := (factor: Option<GaussianFactor>) => FactorError(factor, error, exp);
      PotentialRemainder(DecisionTreeFactor(discreteKeys, Map(separatorFactors, factorError)))
    else
      MixtureRemainder(MixtureFactor(keysOfSeparator, discreteKeys, separatorFactors))
  }

  /** exp is positive everywhere. */
  ghost predicate ExpPositive(exp: real -> real) {
    forall x: real :: exp(x) > 0.0
  }

  /** exp maps the non-positive reals into (0, 1]. */
  ghost predicate ExpOfNonPositive(exp: real -> real) {
    forall x: real :: x <= 0.0 ==> 0.0 < exp(x) <= 1.0
  }

  /** A least-squares error is never negative. */
  ghost predicate ErrorNonNegative(error: (GaussianFactor, VectorValues) -> real) {
    forall f, v :: error(f, v) >= 0.0
  }

  /** A potential is 0.0 exactly for a null separator factor, and otherwise lies in (0, 1]. */
  lemma FactorErrorRange(factor: Option<GaussianFactor>, error: (GaussianFactor, VectorValues) -> real, exp: real -> real)
    requires ExpOfNonPositive(exp) && ErrorNonNegative(error)
    ensures FactorError(factor, error, exp) == 0.0 <==> factor.None?
    ensures 0.0 <= FactorError(factor, error, exp) <= 1.0
  {
  }

  // ---------------------------------------------------------------------------
  // The whole step

  /** What EliminateHybrid returns. */
  function EliminateHybridSpec(
    factors: GaussianHybridFactorGraph,
    ordering: Ordering,
    c: Collaborators): Result<EliminationOutput, Error>
  {
    match Summation(factors, c.addMixture)
    case Failure(e) => Failure(e)
    case Success(sum) =>
      if sum.None? then
        var (conditional, newFactor) := c.eliminateForMPE(factors.discreteGraph, ordering);
        Success((DiscreteResult(conditional), DiscreteRemainder(newFactor)))
      else
        var sanitized := Map(sum.value, ZeroOut);
        var eliminate := (graph: GaussianFactorGraph) => EliminateLeaf(graph, ordering, c.eliminatePreferCholesky);
        var eliminationResults := Map(sanitized, eliminate);
        var keysOfEliminated := FirstNonEmpty(ConditionalKeys(eliminationResults.leaves));
        var keysOfSeparator := FirstNonEmpty(SeparatorKeys(eliminationResults.leaves));
        var (conditionals, separatorFactors) := Unzip(eliminationResults);
        var conditional := GaussianMixture(|ordering|, keysOfEliminated, factors.discreteKeys, conditionals);
        Success((conditional, ChooseRemainder(keysOfSeparator, factors.discreteKeys, separatorFactors, c.error, c.exp)))
  }

  /** EliminateHybrid. */
  method EliminateHybrid(
    factors: GaussianHybridFactorGraph,
    ordering: Ordering,
    c: Collaborators) returns (r: Result<EliminationOutput, Error>)
    ensures r == EliminateHybridSpec(factors, ordering, c)
  {
    var summed := SumFactors(factors, c.addMixture);
    if summed.Failure? {
      return Failure(summed.error);
    }
    var sum := summed.value;
    if sum.None? {
      var dfg := factors.discreteGraph;
      var (df, newFactor) := c.eliminateForMPE(dfg, ordering);
      return Success((DiscreteResult(df), DiscreteRemainder(newFactor)));
    }
    var sanitized := Map(sum.value, ZeroOut);
    var results, keysOfEliminated, keysOfSeparator :=
      EliminateLeaves(sanitized.leaves, ordering, c.eliminatePreferCholesky);
    var eliminationResults := DecisionTree(sanitized.keys, results);
    ghost var eliminate := (graph: GaussianFactorGraph) => EliminateLeaf(graph, ordering, c.eliminatePreferCholesky);
    assert eliminationResults == Map(sanitized, eliminate);
    var (conditionals, separatorFactors) := Unzip(eliminationResults);
    var nrFrontals := |ordering|;
    var conditional := GaussianMixture(nrFrontals, keysOfEliminated, factors.discreteKeys, conditionals);
    if keysOfSeparator == [] {
      var factorError := (factor: Option<GaussianFactor>) => FactorError(factor, c.error, c.exp);
      var fdt := Map(separatorFactors, factorError);
      var discreteFactor := DecisionTreeFactor(factors.discreteKeys, fdt);
      return Success((conditional, PotentialRemainder(discreteFactor)));
    } else {
      var factor := MixtureFactor(keysOfSeparator, factors.discreteKeys, separatorFactors);
      return Success((conditional, MixtureRemainder(factor)));
    }
  }

  // ---------------------------------------------------------------------------
  // Properties of the step

  /**
   * With neither hybrid nor Gaussian factors the step returns exactly the
   * pair discrete MPE elimination gives for the discrete factors and ordering.
   */
  lemma DiscreteFallback(factors: GaussianHybridFactorGraph, ordering: Ordering, c: Collaborators)
    requires factors.dcGraph == [] && factors.gaussianGraph == []
    ensures EliminateHybridSpec(factors, ordering, c) ==
      Success((DiscreteResult(c.eliminateForMPE(factors.discreteGraph, ordering).0),
               DiscreteRemainder(c.eliminateForMPE(factors.discreteGraph, ordering).1)))
  {
  }

  /**
   * On the discrete path Gaussian elimination and the potentials never run:
   * replacing the Cholesky eliminator, error and exp changes nothing.
   */
  lemma DiscreteFallbackIgnoresGaussianRoutines(
    factors: GaussianHybridFactorGraph,
    ordering: Ordering,
    c: Collaborators,
    cholesky: (GaussianFactorGraph, Ordering) -> (GaussianConditional, GaussianFactor),
    error: (GaussianFactor, VectorValues) -> real,
    exp: real -> real)
    requires factors.dcGraph == [] && factors.gaussianGraph == []
    ensures EliminateHybridSpec(factors, ordering, c) ==
      EliminateHybridSpec(factors, ordering, c.(eliminatePreferCholesky := cholesky, error := error, exp := exp))
  {
  }

  /**
   * The step fails exactly when sum() does, and takes the discrete path
   * exactly when both the hybrid and the Gaussian lists are empty.
   */
  lemma DiscretePathExactlyWhenNoContinuousFactors(factors: GaussianHybridFactorGraph, ordering: Ordering, c: Collaborators)
    ensures EliminateHybridSpec(factors, ordering, c).Failure? <==>
      exists i :: 0 <= i < |factors.dcGraph| && factors.dcGraph[i].OtherDC?
    ensures EliminateHybridSpec(factors, ordering, c).Success? ==>
      (EliminateHybridSpec(factors, ordering, c).value.0.DiscreteResult? <==>
       factors.dcGraph == [] && factors.gaussianGraph == [])
  {
    SummationFailure(factors, c.addMixture);
    if Summation(factors, c.addMixture).Success? {
      SummationEmpty(factors, c.addMixture);
    }
  }

  /**
   * With a non-empty sum the conditional is a Gaussian mixture with
   * ordering.size() frontals over the graph's discrete keys; the conditional
   * tree and the separator-factor tree have the sum's keys and leaf count, and
   * leaf i of each is the first and second component of eliminating leaf i
   * after zeroOut. The captured key lists are the first non-empty ones.
   */
  lemma EliminatedTrees(factors: GaussianHybridFactorGraph, ordering: Ordering, c: Collaborators)
    requires Summation(factors, c.addMixture).Success? && Summation(factors, c.addMixture).value.Some?
    ensures var tree := Summation(factors, c.addMixture).value.value;
      var r := EliminateHybridSpec(factors, ordering, c);
      var results := seq(|tree.leaves|, i requires 0 <= i < |tree.leaves| =>
        EliminateLeaf(ZeroOut(tree.leaves[i]), ordering, c.eliminatePreferCholesky));
      && r.Success?
      && r.value.0.GaussianMixture?
      && r.value.0.nrFrontals == |ordering|
      && r.value.0.discreteKeys == factors.discreteKeys
      && r.value.0.keys == FirstNonEmpty(ConditionalKeys(results))
      && r.value.0.conditionals.keys == tree.keys
      && |r.value.0.conditionals.leaves| == |tree.leaves|
      && (forall i :: 0 <= i < |tree.leaves| ==> r.value.0.conditionals.leaves[i] == results[i].0)
      && (r.value.1.PotentialRemainder? <==> FirstNonEmpty(SeparatorKeys(results)) == [])
      && (r.value.1.PotentialRemainder? ==>
            && r.value.1.potentials.discreteKeys == factors.discreteKeys
            && r.value.1.potentials.potentials.keys == tree.keys
            && |r.value.1.potentials.potentials.leaves| == |tree.leaves|
            && forall i :: 0 <= i < |tree.leaves| ==>
                 r.value.1.potentials.potentials.leaves[i] == FactorError(results[i].1, c.error, c.exp))
      && (r.value.1.MixtureRemainder? ==>
            && r.value.1.mixture.keys == FirstNonEmpty(SeparatorKeys(results))
            && r.value.1.mixture.discreteKeys == factors.discreteKeys
            && r.value.1.mixture.factors.keys == tree.keys
            && |r.value.1.mixture.factors.leaves| == |tree.leaves|
            && forall i :: 0 <= i < |tree.leaves| ==> r.value.1.mixture.factors.leaves[i] == results[i].1)
  {
    var tree := Summation(factors, c.addMixture).value.value;
    var eliminate := (graph: GaussianFactorGraph) => EliminateLeaf(graph, ordering, c.eliminatePreferCholesky);
    var eliminationResults := Map(Map(tree, ZeroOut), eliminate);
    var results := seq(|tree.leaves|, i requires 0 <= i < |tree.leaves| =>
      EliminateLeaf(ZeroOut(tree.leaves[i]), ordering, c.eliminatePreferCholesky));
    assert eliminationResults.leaves == results;
  }

  /**
   * If every leaf is empty after zeroOut, every pair is (null, null), the
   * discrete branch is taken and every potential is 0.0.
   */
  lemma AllLeavesEmptyGivesZeroPotentials(factors: GaussianHybridFactorGraph, ordering: Ordering, c: Collaborators)
    requires Summation(factors, c.addMixture).Success? && Summation(factors, c.addMixture).value.Some?
    requires var tree := Summation(factors, c.addMixture).value.value;
      forall i :: 0 <= i < |tree.leaves| ==> ZeroOut(tree.leaves[i]) == []
    ensures var tree := Summation(factors, c.addMixture).value.value;
      var r := EliminateHybridSpec(factors, ordering, c);
      && r.Success?
      && r.value.0.GaussianMixture?
      && r.value.0.keys == []
      && (forall i :: 0 <= i < |r.value.0.conditionals.leaves| ==> r.value.0.conditionals.leaves[i].None?)
      && r.value.1.PotentialRemainder?
      && |r.value.1.potentials.potentials.leaves| == |tree.leaves|
      && forall i :: 0 <= i < |tree.leaves| ==> r.value.1.potentials.potentials.leaves[i] == 0.0
  {
  }

  /**
   * In the discrete branch each potential lies in [0, 1], and it is 0.0
   * exactly at the assignments whose leaf was empty after zeroOut.
   */
  lemma PotentialsAreLikelihoods(factors: GaussianHybridFactorGraph, ordering: Ordering, c: Collaborators)
    requires ExpOfNonPositive(c.exp) && ErrorNonNegative(c.error)
    requires Summation(factors, c.addMixture).Success? && Summation(factors, c.addMixture).value.Some?
    requires EliminateHybridSpec(factors, ordering, c).Success?
    requires EliminateHybridSpec(factors, ordering, c).value.1.PotentialRemainder?
    ensures var tree := Summation(factors, c.addMixture).value.value;
      var potentials := EliminateHybridSpec(factors, ordering, c).value.1.potentials.potentials;
      && |potentials.leaves| == |tree.leaves|
      && forall i :: 0 <= i < |tree.leaves| ==>
           && 0.0 <= potentials.leaves[i] <= 1.0
           && (potentials.leaves[i] == 0.0 <==> ZeroOut(tree.leaves[i]) == [])
  {
  }
}

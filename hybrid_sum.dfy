/**
 * Summation of a GaussianHybridFactorGraph into one decision tree whose
 * leaves are Gaussian factor graphs, one per discrete assignment.
 */
module HybridSum {
  import opened Wrappers
  import opened DecisionTrees
  import opened HybridFactors

  /**
   * Adding a DCGaussianMixtureFactor to a sum. Its definition lives with the
   * mixture factor and is not part of this model; it always yields a tree.
   */
  type MixtureAdder = (Sum, MixtureFactor) -> DecisionTree<GaussianFactorGraph>

  const NotAMixture: Error :=
    RuntimeError("GaussianHybridFactorGraph::sum can only handle DCGaussianMixtureFactors.")

  /** The `add` lambda: a copy of the graph with the factor pushed at the back. */
  function Add(graph: GaussianFactorGraph, factor: Option<GaussianFactor>): (r: GaussianFactorGraph)
    ensures |r| == |graph| + 1 && r[..|graph|] == graph && r[|graph|] == factor
  {
    graph + [factor]
  }

  /**
   * `sum += factor` for a Gaussian factor: an empty sum becomes a one-leaf
   * tree holding just the factor; otherwise the factor is appended to every leaf.
   */
  function AddGaussian(sum: Sum, factor: Option<GaussianFactor>): (r: Sum)
    ensures r.Some?
    ensures sum.None? ==> r.value.keys == [] && r.value.leaves == [[factor]]
    ensures sum.Some? ==> r.value.keys == sum.value.keys && |r.value.leaves| == |sum.value.leaves|
    ensures sum.Some? ==> forall i :: 0 <= i < |sum.value.leaves| ==>
      r.value.leaves[i] == sum.value.leaves[i] + [factor]
  {
    if sum.None? then Some(DecisionTree([], [[factor]]))
    else Some(Map(sum.value, (graph: GaussianFactorGraph) => Add(graph, factor)))
  }

  /** The second loop of sum(): every Gaussian factor added in list order. */
  function AddGaussians(sum: Sum, factors: GaussianFactorGraph): Sum
    decreases |factors|
  {
    if factors == [] then sum
    else AddGaussian(AddGaussians(sum, factors[..|factors| - 1]), factors[|factors| - 1])
  }

  /** The first loop of sum(): mixtures absorbed in list order; any other kind is an error. */
  function AddMixtures(add: MixtureAdder, dcGraph: seq<DCFactor>): Result<Sum, Error>
    decreases |dcGraph|
  {
    if dcGraph == [] then Success(None)
    else
      match AddMixtures(add, dcGraph[..|dcGraph| - 1])
      case Failure(e) => Failure(e)
      case Success(sum) =>
        match dcGraph[|dcGraph| - 1]
        case Mixture(m) => Success(Some(add(sum, m)))
        case OtherDC(_, _) => Failure(NotAMixture)
  }

  /** What GaussianHybridFactorGraph::sum computes. */
  function Summation(graph: GaussianHybridFactorGraph, add: MixtureAdder): Result<Sum, Error>
  {
    match AddMixtures(add, graph.dcGraph)
    case Failure(e) => Failure(e)
    case Success(sum) => Success(AddGaussians(sum, graph.gaussianGraph))
  }

  /** GaussianHybridFactorGraph::sum. */
  method SumFactors(graph: GaussianHybridFactorGraph, add: MixtureAdder) returns (r: Result<Sum, Error>)
    ensures r == Summation(graph, add)
  {
    var sum: Sum := None;
    var i := 0;
    while i < |graph.dcGraph|
      invariant 0 <= i <= |graph.dcGraph|
      invariant AddMixtures(add, graph.dcGraph[..i]) == Success(sum)
    {
      var dcFactor := graph.dcGraph[i];
      assert graph.dcGraph[..i + 1][..i] == graph.dcGraph[..i];
      if dcFactor.Mixture? {
        sum := Some(add(sum, dcFactor.mixture));
      } else {
        AddMixturesFailure(add, graph.dcGraph);
        return Failure(NotAMixture);
      }
      i := i + 1;
    }
    assert graph.dcGraph[..i] == graph.dcGraph;
    ghost var mixtures := sum;
    var j := 0;
    while j < |graph.gaussianGraph|
      invariant 0 <= j <= |graph.gaussianGraph|
      invariant sum == AddGaussians(mixtures, graph.gaussianGraph[..j])
    {
      assert graph.gaussianGraph[..j + 1][..j] == graph.gaussianGraph[..j];
      sum := AddGaussian(sum, graph.gaussianGraph[j]);
      j := j + 1;
    }
    assert graph.gaussianGraph[..j] == graph.gaussianGraph;
    return Success(sum);
  }

  /** sum() fails exactly when some hybrid entry is not a mixture factor. */
  lemma {:induction false} AddMixturesFailure(add: MixtureAdder, dcGraph: seq<DCFactor>)
    ensures AddMixtures(add, dcGraph).Failure? <==> exists i :: 0 <= i < |dcGraph| && dcGraph[i].OtherDC?
    ensures AddMixtures(add, dcGraph).Failure? ==> AddMixtures(add, dcGraph).error == NotAMixture
    ensures AddMixtures(add, dcGraph).Success? ==> (AddMixtures(add, dcGraph).value.None? <==> dcGraph == [])
  {
    if dcGraph != [] {
      var n := |dcGraph| - 1;
      var prefix := dcGraph[..n];
      AddMixturesFailure(add, prefix);
      assert forall i :: 0 <= i < n ==> prefix[i] == dcGraph[i];
      if dcGraph[n].OtherDC? {
        assert exists i :: 0 <= i < |dcGraph| && dcGraph[i].OtherDC?;
      }
    }
  }

  /** Adding Gaussian factors to a tree keeps its keys and leaf order and appends them to every leaf. */
  lemma {:induction false} AddGaussiansToTree(t: DecisionTree<GaussianFactorGraph>, factors: GaussianFactorGraph)
    ensures AddGaussians(Some(t), factors).Some?
    ensures AddGaussians(Some(t), factors).value.keys == t.keys
    ensures |AddGaussians(Some(t), factors).value.leaves| == |t.leaves|
    ensures forall i :: 0 <= i < |t.leaves| ==> AddGaussians(Some(t), factors).value.leaves[i] == t.leaves[i] + factors
    decreases |factors|
  {
    if factors != [] {
      var n := |factors| - 1;
      AddGaussiansToTree(t, factors[..n]);
      assert factors == factors[..n] + [factors[n]];
      forall i | 0 <= i < |t.leaves|
        ensures AddGaussians(Some(t), factors).value.leaves[i] == t.leaves[i] + factors
      {
        assert t.leaves[i] + factors[..n] + [factors[n]] == t.leaves[i] + factors;
      }
    }
  }

  /** Gaussian factors alone seed a one-leaf tree, over no keys, holding exactly those factors. */
  lemma {:induction false} AddGaussiansToEmpty(factors: GaussianFactorGraph)
    requires factors != []
    ensures AddGaussians(None, factors) == Some(DecisionTree([], [factors]))
    decreases |factors|
  {
    var n := |factors| - 1;
    if n > 0 {
      AddGaussiansToEmpty(factors[..n]);
      assert factors[..n] + [factors[n]] == factors;
      var r := AddGaussians(None, factors).value;
      assert |r.leaves| == 1 && r.leaves[0] == factors;
      assert r.leaves == [factors];
    } else {
      assert [factors[0]] == factors;
    }
  }

  /** sum() fails exactly when some hybrid entry is not a mixture factor, with the source's message. */
  lemma SummationFailure(graph: GaussianHybridFactorGraph, add: MixtureAdder)
    ensures Summation(graph, add).Failure? <==> exists i :: 0 <= i < |graph.dcGraph| && graph.dcGraph[i].OtherDC?
    ensures Summation(graph, add).Failure? ==> Summation(graph, add).error == NotAMixture
  {
    AddMixturesFailure(add, graph.dcGraph);
  }

  /** The empty sentinel survives exactly when both the hybrid and the Gaussian lists are empty. */
  lemma SummationEmpty(graph: GaussianHybridFactorGraph, add: MixtureAdder)
    requires Summation(graph, add).Success?
    ensures Summation(graph, add).value.None? <==> graph.dcGraph == [] && graph.gaussianGraph == []
  {
  }

  /**
   * The summed tree is the tree the mixtures built with the Gaussian factors
   * appended, in list order, to every leaf; with no mixtures it is the single
   * leaf holding the Gaussian factors.
   */
  lemma SummationLeaves(graph: GaussianHybridFactorGraph, add: MixtureAdder)
    requires Summation(graph, add).Success?
    ensures graph.dcGraph == [] && graph.gaussianGraph != [] ==>
      Summation(graph, add).value == Some(DecisionTree([], [graph.gaussianGraph]))
    ensures graph.dcGraph != [] ==>
      var mixtures := AddMixtures(add, graph.dcGraph).value;
      var sum := Summation(graph, add).value;
      && mixtures.Some? && sum.Some?
      && sum.value.keys == mixtures.value.keys
      && |sum.value.leaves| == |mixtures.value.leaves|
      && forall i :: 0 <= i < |mixtures.value.leaves| ==>
           sum.value.leaves[i] == mixtures.value.leaves[i] + graph.gaussianGraph
  {
    AddMixturesFailure(add, graph.dcGraph);
    var mixtures := AddMixtures(add, graph.dcGraph).value;
    if mixtures.Some? {
      AddGaussiansToTree(mixtures.value, graph.gaussianGraph);
    } else if graph.gaussianGraph != [] {
      AddGaussiansToEmpty(graph.gaussianGraph);
    }
  }

  /**
   * GaussianHybridFactorGraph::toDecisionTreeFactor: one potential per leaf of
   * the sum, computed by the given optimize and probPrime. Converting an empty
   * tree is reported as an error.
   */
  function ToDecisionTreeFactor(
    graph: GaussianHybridFactorGraph,
    add: MixtureAdder,
    optimize: GaussianFactorGraph -> VectorValues,
    probPrime: (GaussianFactorGraph, VectorValues) -> real): (r: Result<DecisionTreeFactor, Error>)
    ensures Summation(graph, add).Failure? ==> r == Failure(NotAMixture)
    ensures r.Success? <==> Summation(graph, add).Success? && Summation(graph, add).value.Some?
    ensures r.Success? ==>
      var tree := Summation(graph, add).value.value;
      && r.value.discreteKeys == graph.discreteKeys
      && r.value.potentials.keys == tree.keys
      && |r.value.potentials.leaves| == |tree.leaves|
      && forall i :: 0 <= i < |tree.leaves| ==>
           r.value.potentials.leaves[i] == probPrime(tree.leaves[i], optimize(tree.leaves[i]))
  {
    SummationFailure(graph, add);
    match Summation(graph, add)
    case Failure(e) => Failure(e)
    case Success(sum) =>
      if sum.None? then Failure(EmptyTreeConversion)
      else
        var gfgError := (g: GaussianFactorGraph) => probPrime(g, optimize(g));
        Success(DecisionTreeFactor(graph.discreteKeys, Map(sum.value, gfgError)))
  }

  const EmptyTreeConversion: Error := RuntimeError("DecisionTree: conversion of an empty tree")
}

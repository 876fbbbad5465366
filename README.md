# Hybrid elimination step of GTSAM's GaussianHybridFactorGraph

This project models, in Dafny, the combinatorial bookkeeping of one hybrid
(discrete + Gaussian) elimination step in GTSAM
(`gtsam/hybrid/GaussianHybridFactorGraph.cpp`):

- **Summation** (`GaussianHybridFactorGraph::sum` and the Gaussian
  `operator+=`): the hybrid list of mixture factors and the list of plain
  Gaussian factors are folded into one decision tree whose leaves are Gaussian
  factor graphs. The accumulator starts as the empty tree; a plain Gaussian
  factor seeds a one-leaf tree when the sum is empty and is otherwise appended
  to every leaf; a hybrid entry that is not a mixture factor raises an error.
- **`toDecisionTreeFactor`**: one potential per leaf of the sum.
- **`EliminateHybrid`**: with an empty sum the step is discrete MPE
  elimination of the discrete factors. Otherwise leaves holding a null factor
  are emptied (`zeroOut`), every leaf is eliminated (an empty leaf gives a null
  pair, and the frontal and separator key lists are captured from the first
  result that has them), the tree of pairs is unzipped, a Gaussian mixture
  conditional is built, and the remainder is a discrete factor of
  `exp(-error)` potentials (0.0 for a null factor) when no separator keys were
  captured, or a mixture factor over the separator keys otherwise.

Files:

- `wrappers.dfy`: `Option` (a shared pointer that may be null) and `Result`
  (a value or a thrown error).
- `decision_tree.dfy`: a decision tree as its discrete keys plus its leaves in
  a fixed assignment order; leaf-wise `Map`, `Unzip`, `Zip`.
- `hybrid_factors.dfy`: factors, conditionals, the hybrid graph, `Sum`.
- `hybrid_sum.dfy`: summation (imperative `SumFactors`, proved equal to the
  fold `Summation`) and `ToDecisionTreeFactor`.
- `hybrid_elimination.dfy`: `zeroOut`, the per-leaf `eliminate` with its
  captured key lists (imperative `EliminateLeaves`), the choice of remainder,
  and `EliminateHybrid` (a method proved equal to `EliminateHybridSpec`), with
  the lemmas about the step.

Routines whose code is not part of this model are parameters: adding a
mixture factor to a sum, `EliminatePreferCholesky`, `EliminateForMPE`,
`GaussianFactor::error`, `exp`, `optimize` and `probPrime`. The lemmas that
need facts about them (exp of a non-positive number lies in (0, 1], an error
is never negative) take those facts as hypotheses.

Where the design description and the code differ, the model follows the code:

- A plain Gaussian factor alone takes the sum out of the empty state
  (lines 52-55), so the sum is empty only when the hybrid list and the Gaussian
  list are both empty, not whenever there is no mixture factor.
- `toDecisionTreeFactor` stores `probPrime` of the optimised values at each
  leaf (line 98), not the raw error.
- The frontal and the separator key lists are captured independently, each
  from the first result whose list is non-empty (lines 157-161), not both from
  the first non-null result; agreement across branches is not checked by the
  code and is not assumed by the model (`CapturedKeysAgree` states what holds
  when it does).

## Model

| member | source | states |
|---|---|---|
| HybridSum.Add | gtsam/hybrid/GaussianHybridFactorGraph.cpp:58-62 | the copied graph has the factor at its end and every earlier factor unchanged |
| HybridSum.AddGaussian | gtsam/hybrid/GaussianHybridFactorGraph.cpp:49-66 | never leaves the sum empty; an empty sum becomes a one-leaf tree over no keys whose graph is exactly `[factor]`; a tree keeps its keys, leaf count and order, and each leaf becomes its old graph with the factor appended |
| HybridSum.AddGaussiansToTree | gtsam/hybrid/GaussianHybridFactorGraph.cpp:84-86 | adding Gaussian factors to a tree keeps its keys and leaf count, and leaf i becomes the old leaf i followed by the factors in list order |
| HybridSum.AddGaussiansToEmpty | gtsam/hybrid/GaussianHybridFactorGraph.cpp:52-55 | non-empty Gaussian factors added to the empty sum give one leaf over no keys holding exactly those factors |
| HybridSum.AddMixturesFailure | gtsam/hybrid/GaussianHybridFactorGraph.cpp:71-81 | the mixture loop fails, with the source's message, exactly when some hybrid entry is not a mixture factor; when it succeeds the sum is empty exactly when the hybrid list is empty |
| HybridSum.SumFactors | gtsam/hybrid/GaussianHybridFactorGraph.cpp:68-88 | the two loops (returning at the first non-mixture entry) compute exactly the fold `Summation` |
| HybridSum.SummationFailure | gtsam/hybrid/GaussianHybridFactorGraph.cpp:71-80 | sum() fails exactly when some hybrid entry is not a mixture factor, with the source's message |
| HybridSum.SummationEmpty | gtsam/hybrid/GaussianHybridFactorGraph.cpp:68-88 | a successful sum is the empty sentinel exactly when both the hybrid list and the Gaussian list are empty |
| HybridSum.SummationLeaves | gtsam/hybrid/GaussianHybridFactorGraph.cpp:70-87 | the summed tree has the mixtures' keys and leaf count with the Gaussian factors appended in list order to every leaf; with no mixtures it is the single leaf holding the Gaussian factors |
| HybridSum.ToDecisionTreeFactor | gtsam/hybrid/GaussianHybridFactorGraph.cpp:90-103 | fails when sum() fails or is empty; otherwise a factor over the graph's discrete keys with the sum's keys and leaf count, leaf i being probPrime of leaf i at its optimum |
| HybridElimination.ZeroOut | gtsam/hybrid/GaussianHybridFactorGraph.cpp:120-126 | a graph holding a null factor becomes the empty graph, any other graph is returned unchanged, and the result never holds a null factor |
| HybridElimination.ZeroOutIdempotent | gtsam/hybrid/GaussianHybridFactorGraph.cpp:120-126 | zeroOut applied twice equals zeroOut applied once |
| HybridElimination.EliminateLeaf | gtsam/hybrid/GaussianHybridFactorGraph.cpp:153-163 | an empty leaf gives (null, null); a non-empty leaf gives both non-null components of the Gaussian elimination result |
| HybridElimination.FirstNonEmpty | gtsam/hybrid/GaussianHybridFactorGraph.cpp:151-161 | the captured list is empty exactly when every visited list is empty, and otherwise is the list at the first index with a non-empty list |
| HybridElimination.FirstNonEmptyAppend | gtsam/hybrid/GaussianHybridFactorGraph.cpp:157-161 | visiting one more leaf never overwrites a non-empty captured list, and fills an empty one with the new leaf's list |
| HybridElimination.CapturedKeysAgree | gtsam/hybrid/GaussianHybridFactorGraph.cpp:151-161 | when all non-empty key lists agree, the captured list equals each of them, whatever the visit order |
| HybridElimination.EliminateLeaves | gtsam/hybrid/GaussianHybridFactorGraph.cpp:151-164 | the loop gives, leaf by leaf, the elimination of that leaf, and leaves each captured key list equal to the first non-empty key list among the results |
| DecisionTrees.Unzip | gtsam/hybrid/GaussianHybridFactorGraph.cpp:167-169 | both trees have the keys and leaf count of the tree of pairs, and leaf i of each is the first and second component of pair i |
| DecisionTrees.UnzipThenZip | gtsam/hybrid/GaussianHybridFactorGraph.cpp:167-169 | zipping the two halves of an unzip gives back the tree of pairs |
| HybridElimination.ChooseRemainder | gtsam/hybrid/GaussianHybridFactorGraph.cpp:179-196 | the discrete branch is taken exactly when there are no separator keys, giving a factor over the graph's discrete keys whose leaf i is factorError of separator factor i; otherwise a mixture factor over the separator keys and the separator-factor tree |
| HybridElimination.FactorErrorRange | gtsam/hybrid/GaussianHybridFactorGraph.cpp:181-184 | the potential is 0.0 exactly for a null factor and always lies in [0, 1], given exp maps non-positive numbers into (0, 1] and errors are non-negative |
| HybridElimination.EliminateHybrid | gtsam/hybrid/GaussianHybridFactorGraph.cpp:112-197 | the staged method (sum, discrete fallback, zeroOut, leaf-wise elimination with captures, unzip, remainder) computes exactly `EliminateHybridSpec` |
| HybridElimination.DiscreteFallback | gtsam/hybrid/GaussianHybridFactorGraph.cpp:130-139 | with no hybrid and no Gaussian factors the step returns exactly the pair of discrete MPE elimination of the discrete factors with the given ordering |
| HybridElimination.DiscreteFallbackIgnoresGaussianRoutines | gtsam/hybrid/GaussianHybridFactorGraph.cpp:130-139 | on the discrete path the Gaussian eliminator, error and exp are never used: replacing them does not change the result |
| HybridElimination.DiscretePathExactlyWhenNoContinuousFactors | gtsam/hybrid/GaussianHybridFactorGraph.cpp:117-139 | the step fails exactly when some hybrid entry is not a mixture, and returns a discrete conditional exactly when both factor lists are empty |
| HybridElimination.EliminatedTrees | gtsam/hybrid/GaussianHybridFactorGraph.cpp:141-196 | with a non-empty sum: a Gaussian mixture with ordering.size() frontals over the graph's discrete keys and the first non-empty frontal key list; conditional and separator trees have the sum's keys and leaf count, leaf i being the components of eliminating zeroOut of leaf i; the remainder is discrete exactly when no separator key list is non-empty |
| HybridElimination.AllLeavesEmptyGivesZeroPotentials | gtsam/hybrid/GaussianHybridFactorGraph.cpp:153-189 | if every leaf is empty after zeroOut, every conditional is null, the discrete branch is taken and every potential is 0.0 |
| HybridElimination.PotentialsAreLikelihoods | gtsam/hybrid/GaussianHybridFactorGraph.cpp:179-189 | in the discrete branch every potential lies in [0, 1] and is 0.0 exactly where the leaf was empty after zeroOut |

## Left out

- `print` and `operator<<` (console output) and the explicit template instantiation (a compile-time artefact).
- The numerics of `EliminatePreferCholesky`, `EliminateForMPE`, `error`, `exp`, `optimize` and `probPrime`: floating-point and linear-algebra routines whose code is not part of this model; they are parameters, and reals stand for doubles.
- Adding a `DCGaussianMixtureFactor` to a sum: its code is not part of this model; it is a parameter that always yields a tree.
- A numerical failure inside Cholesky elimination: the eliminator parameter is total, so the model does not propagate such an exception.
- The discrete keys a graph reports (`discreteKeys()`) are a field of the graph; how the base class computes them is not part of this model.
- Decision-tree internals (branching, pruning, cardinalities): a tree is its key list and its leaves in a fixed assignment order, and leaf-wise maps visit leaves in that order.
- HybridSum.ToDecisionTreeFactor: converting an empty sum is reported as an error; what the decision-tree conversion does with an empty tree is not part of this model.

/**
 * The values a hybrid elimination step consumes and produces.
 *
 * The numerical content of Gaussian and discrete factors and conditionals is
 * opaque to this model: each carries the key list the elimination step reads
 * and a list of coefficients that only the numerical collaborators interpret.
 */
module HybridFactors {
  import opened Wrappers
  import opened DecisionTrees

  /** A Gaussian factor over continuous keys. */
  datatype GaussianFactor = GaussianFactor(keys: seq<Key>, coefficients: seq<real>)

  /** A Gaussian conditional: its keys are its frontal keys followed by its parents. */
  datatype GaussianConditional = GaussianConditional(keys: seq<Key>, nrFrontals: nat, coefficients: seq<real>)

  datatype DiscreteFactor = DiscreteFactor(keys: seq<DiscreteKey>, table: seq<real>)

  datatype DiscreteConditional = DiscreteConditional(keys: seq<DiscreteKey>, nrFrontals: nat, table: seq<real>)

  /** An assignment of vectors to continuous keys. */
  datatype VectorValues = VectorValues(values: map<Key, seq<real>>)

  const EmptyValues: VectorValues := VectorValues(map[])

  /** A Gaussian factor graph holds shared pointers, so an entry may be null (None). */
  type GaussianFactorGraph = seq<Option<GaussianFactor>>

  type Ordering = seq<Key>

  /** DCGaussianMixtureFactor: one Gaussian factor per assignment of its discrete keys. */
  datatype MixtureFactor = MixtureFactor(
    keys: seq<Key>,
    discreteKeys: seq<DiscreteKey>,
    factors: DecisionTree<Option<GaussianFactor>>)

  /** An entry of the hybrid (discrete-continuous) list: a mixture, or any other kind of DC factor. */
  datatype DCFactor =
    | Mixture(mixture: MixtureFactor)
    | OtherDC(keys: seq<Key>, discreteKeys: seq<DiscreteKey>)

  /**
   * GaussianHybridFactorGraph: its discrete factors, its hybrid factors,
   * its plain Gaussian factors, and the discrete keys it reports.
   */
  datatype GaussianHybridFactorGraph = GaussianHybridFactorGraph(
    discreteGraph: seq<DiscreteFactor>,
    dcGraph: seq<DCFactor>,
    gaussianGraph: GaussianFactorGraph,
    discreteKeys: seq<DiscreteKey>)

  /** DCGaussianMixtureFactor::Sum: None is the empty tree. */
  type Sum = Option<DecisionTree<GaussianFactorGraph>>

  /** DecisionTreeFactor: a potential per assignment of its discrete keys. */
  datatype DecisionTreeFactor = DecisionTreeFactor(discreteKeys: seq<DiscreteKey>, potentials: DecisionTree<real>)

  datatype Error = RuntimeError(message: string)
}

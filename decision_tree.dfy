/**
 * Decision trees keyed by discrete variables, flattened to their leaves.
 *
 * A tree over an ordered list of discrete keys has one leaf per full
 * assignment of those keys; the model keeps the leaves in that fixed
 * assignment order and does not represent the internal branching.
 */
module DecisionTrees {

  /** A variable identifier (GTSAM's Key). */
  type Key = nat

  /** A discrete variable together with its number of values. */
  datatype DiscreteKey = DiscreteKey(key: Key, cardinality: nat)

  datatype DecisionTree<T> = DecisionTree(keys: seq<DiscreteKey>, leaves: seq<T>)

  /** Leaf-wise transform: the tree constructed from another tree and a leaf function. */
  function Map<T, U>(t: DecisionTree<T>, f: T -> U): (r: DecisionTree<U>)
    ensures r.keys == t.keys && |r.leaves| == |t.leaves|
    ensures forall i :: 0 <= i < |t.leaves| ==> r.leaves[i] == f(t.leaves[i])
  {
    DecisionTree(t.keys, seq(|t.leaves|, i requires 0 <= i < |t.leaves| => f(t.leaves[i])))
  }

  /** Split a tree of pairs into two trees of the same shape. */
  function Unzip<A, B>(t: DecisionTree<(A, B)>): (r: (DecisionTree<A>, DecisionTree<B>))
    ensures r.0.keys == t.keys && r.1.keys == t.keys
    ensures |r.0.leaves| == |t.leaves| && |r.1.leaves| == |t.leaves|
    ensures forall i :: 0 <= i < |t.leaves| ==> r.0.leaves[i] == t.leaves[i].0 && r.1.leaves[i] == t.leaves[i].1
  {
    (Map(t, (p: (A, B)) => p.0), Map(t, (p: (A, B)) => p.1))
  }

  /** Pair up two trees of the same shape, leaf by leaf. */
  function Zip<A, B>(a: DecisionTree<A>, b: DecisionTree<B>): (r: DecisionTree<(A, B)>)
    requires a.keys == b.keys && |a.leaves| == |b.leaves|
    ensures r.keys == a.keys && |r.leaves| == |a.leaves|
    ensures forall i :: 0 <= i < |a.leaves| ==> r.leaves[i] == (a.leaves[i], b.leaves[i])
  {
    DecisionTree(a.keys, seq(|a.leaves|, i requires 0 <= i < |a.leaves| => (a.leaves[i], b.leaves[i])))
  }

  /** Unzip loses nothing: zipping its two halves gives back the tree of pairs. */
  lemma UnzipThenZip<A, B>(t: DecisionTree<(A, B)>)
    ensures var (a, b) := Unzip(t); a.keys == b.keys && |a.leaves| == |b.leaves| && Zip(a, b) == t
  {
  }
}

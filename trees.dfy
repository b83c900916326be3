/** The node type of the Huffman tree (class ArbreBinaire). */
module HuffmanTrees {
  import opened Wrappers

  /** A leaf carries a letter and its frequency and has no children (both
      child references null); an internal node owns two children and carries
      a frequency. Nodes are never changed after construction. */
  datatype Tree = Leaf(sym: char, freq: int) | Node(left: Tree, right: Tree, freq: int)

  /** The constructor ArbreBinaire(gauche, droite): an internal node whose
      frequency is the sum of its children's. */
  function Merge(l: Tree, r: Tree): Tree
  {
    Node(l, r, l.freq + r.freq)
  }

  /** The field gauche, null on a leaf. */
  function Left(t: Tree): Option<Tree>
  {
    match t
    case Leaf(_, _) => None
    case Node(l, _, _) => Some(l)
  }

  /** The field droite, null on a leaf. */
  function Right(t: Tree): Option<Tree>
  {
    match t
    case Leaf(_, _) => None
    case Node(_, r, _) => Some(r)
  }

  /** estFeuille: both children are null. */
  predicate IsLeaf(t: Tree)
  {
    Left(t) == None && Right(t) == None
  }

  /** Every internal node's frequency is the sum of its children's. */
  predicate WellFormed(t: Tree)
  {
    match t
    case Leaf(_, _) => true
    case Node(l, r, f) => f == l.freq + r.freq && WellFormed(l) && WellFormed(r)
  }

  /** The letters at the leaves, left to right. */
  function Leaves(t: Tree): seq<char>
  {
    match t
    case Leaf(c, _) => [c]
    case Node(l, r, _) => Leaves(l) + Leaves(r)
  }

  /** The number of internal nodes. */
  function InternalCount(t: Tree): nat
  {
    match t
    case Leaf(_, _) => 0
    case Node(l, r, _) => 1 + InternalCount(l) + InternalCount(r)
  }

  /** No letter sits at two leaves. */
  predicate DistinctLeaves(t: Tree)
  {
    forall c :: multiset(Leaves(t))[c] <= 1
  }

  /** A leaf is exactly a node without children; an internal node has both. */
  lemma IsLeafExactlyLeaf(t: Tree)
    ensures IsLeaf(t) <==> t.Leaf?
    ensures t.Node? ==> Left(t) == Some(t.left) && Right(t) == Some(t.right)
  {
  }

  /** The merged node is internal, owns both arguments, has the summed
      frequency, and keeps the frequency invariant. */
  lemma MergeProperties(l: Tree, r: Tree)
    ensures !IsLeaf(Merge(l, r))
    ensures Left(Merge(l, r)) == Some(l) && Right(Merge(l, r)) == Some(r)
    ensures Merge(l, r).freq == l.freq + r.freq
    ensures WellFormed(l) && WellFormed(r) ==> WellFormed(Merge(l, r))
    ensures Leaves(Merge(l, r)) == Leaves(l) + Leaves(r)
  {
  }

  /** A full binary tree has one internal node fewer than it has leaves. */
  lemma {:induction false} InternalFewerThanLeaves(t: Tree)
    ensures InternalCount(t) == |Leaves(t)| - 1
  {
    match t
    case Leaf(_, _) =>
    case Node(l, r, _) =>
      InternalFewerThanLeaves(l);
      InternalFewerThanLeaves(r);
  }

  /** Distinct letters split into two disjoint, distinct halves at a node. */
  lemma DistinctChildren(t: Tree)
    requires t.Node? && DistinctLeaves(t)
    ensures DistinctLeaves(t.left) && DistinctLeaves(t.right)
    ensures forall c :: c in Leaves(t.left) ==> c !in Leaves(t.right)
  {
    assert multiset(Leaves(t)) == multiset(Leaves(t.left)) + multiset(Leaves(t.right));
    forall c ensures multiset(Leaves(t.left))[c] <= 1 && multiset(Leaves(t.right))[c] <= 1 {
      assert multiset(Leaves(t))[c] <= 1;
    }
    forall c | c in Leaves(t.left)
      ensures c !in Leaves(t.right)
    {
      assert multiset(Leaves(t))[c] <= 1;
      assert multiset(Leaves(t.left))[c] >= 1;
    }
  }
}

/**
 The nodes of the binary tree and the measures every other module states its
 contracts in: node count, height, the multiset of stored values, and the
 "values are distinct" condition under which deletion behaves cleanly.

 A node owns its two children exclusively and nothing else refers to a node,
 so a subtree is modelled as a value: `Leaf` is an absent child pointer and
 `Node(data, left, right)` a present node.
 */
module Trees {

  datatype Tree<T> = Leaf | Node(data: T, left: Tree<T>, right: Tree<T>)

  /** Which child edge of a node. */
  datatype Side = Left | Right

  /** The child of a node on the given side; an absent node has absent children. */
  function Child<T>(t: Tree<T>, side: Side): Tree<T>
  {
    match t
    case Leaf => Leaf
    case Node(_, l, r) => if side == Left then l else r
  }

  /** Number of nodes. */
  function Size<T>(t: Tree<T>): nat
  {
    match t
    case Leaf => 0
    case Node(_, l, r) => Size(l) + 1 + Size(r)
  }

  /** Number of nodes on the longest root-to-leaf path. */
  function Height<T>(t: Tree<T>): nat
  {
    match t
    case Leaf => 0
    case Node(_, l, r) => 1 + if Height(l) < Height(r) then Height(r) else Height(l)
  }

  /** The values held by the nodes, with multiplicity. */
  function Elems<T>(t: Tree<T>): multiset<T>
  {
    match t
    case Leaf => multiset{}
    case Node(d, l, r) => Elems(l) + multiset{d} + Elems(r)
  }

  /** Every node contributes exactly one value. */
  lemma {:induction false} ElemsCount<T>(t: Tree<T>)
    ensures |Elems(t)| == Size(t)
  {
    if t.Node? {
      ElemsCount(t.left);
      ElemsCount(t.right);
    }
  }

  /** Replacing the left subtree by one holding `e` more values adds `e` to the whole tree. */
  lemma ElemsGrowLeft<T>(d: T, l: Tree<T>, l': Tree<T>, r: Tree<T>, e: multiset<T>)
    requires Elems(l') == Elems(l) + e
    ensures Elems(Node(d, l', r)) == Elems(Node(d, l, r)) + e
  {
  }

  /** Replacing the right subtree by one holding `e` more values adds `e` to the whole tree. */
  lemma ElemsGrowRight<T>(d: T, l: Tree<T>, r: Tree<T>, r': Tree<T>, e: multiset<T>)
    requires Elems(r') == Elems(r) + e
    ensures Elems(Node(d, l, r')) == Elems(Node(d, l, r)) + e
  {
  }

  /** No value is held by two nodes. */
  ghost predicate Distinct<T>(t: Tree<T>)
  {
    forall x | x in Elems(t) :: Elems(t)[x] <= 1
  }

  /** The subtrees of a node with distinct values have distinct values. */
  lemma DistinctChildren<T>(d: T, l: Tree<T>, r: Tree<T>)
    requires Distinct(Node(d, l, r))
    ensures Distinct(l) && Distinct(r)
  {
    var e := Elems(Node(d, l, r));
    assert e == Elems(l) + multiset{d} + Elems(r);
    forall x | x in Elems(l) ensures Elems(l)[x] <= 1 {
      assert x in e;
    }
    forall x | x in Elems(r) ensures Elems(r)[x] <= 1 {
      assert x in e;
    }
  }

  /** In a node with distinct values, no value is held on both sides, nor beside the node's own. */
  lemma DistinctApart<T>(d: T, l: Tree<T>, r: Tree<T>, x: T)
    requires Distinct(Node(d, l, r))
    ensures !(x in Elems(l) && x in Elems(r))
    ensures x == d ==> x !in Elems(l) && x !in Elems(r)
  {
    var e := Elems(Node(d, l, r));
    assert e == Elems(l) + multiset{d} + Elems(r);
    if x in e {
      assert e[x] == Elems(l)[x] + multiset{d}[x] + Elems(r)[x];
    }
  }
}

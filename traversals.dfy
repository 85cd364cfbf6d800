/**
 The three depth-first traversals. In the program they print each value as it
 is visited; here each returns the visited values in order, so that the caller
 decides how to show them.
 */
module Traversals {
  import opened Trees

  /** Left subtree, then the node, then the right subtree. */
  function InOrder<T>(t: Tree<T>): (s: seq<T>)
    ensures |s| == Size(t)
    ensures t.Node? ==> s[Size(t.left)] == t.data
  {
    match t
    case Leaf => []
    case Node(d, l, r) => InOrder(l) + [d] + InOrder(r)
  }

  /** The node, then the left subtree, then the right subtree. */
  function PreOrder<T>(t: Tree<T>): (s: seq<T>)
    ensures |s| == Size(t)
    ensures t.Node? ==> s[0] == t.data
  {
    match t
    case Leaf => []
    case Node(d, l, r) => [d] + PreOrder(l) + PreOrder(r)
  }

  /** The left subtree, then the right subtree, then the node. */
  function PostOrder<T>(t: Tree<T>): (s: seq<T>)
    ensures |s| == Size(t)
    ensures t.Node? ==> s[|s| - 1] == t.data
  {
    match t
    case Leaf => []
    case Node(d, l, r) => PostOrder(l) + PostOrder(r) + [d]
  }

  /** The in-order listing holds every stored value exactly as often as it is stored. */
  lemma {:induction false} InOrderElems<T>(t: Tree<T>)
    ensures multiset(InOrder(t)) == Elems(t)
  {
    match t
    case Leaf =>
    case Node(d, l, r) =>
      InOrderElems(l);
      InOrderElems(r);
      assert InOrder(t) == InOrder(l) + [d] + InOrder(r);
  }

  /** The pre-order listing holds every stored value exactly as often as it is stored. */
  lemma {:induction false} PreOrderElems<T>(t: Tree<T>)
    ensures multiset(PreOrder(t)) == Elems(t)
  {
    match t
    case Leaf =>
    case Node(d, l, r) =>
      PreOrderElems(l);
      PreOrderElems(r);
      assert PreOrder(t) == [d] + PreOrder(l) + PreOrder(r);
      assert multiset(PreOrder(t)) == multiset{d} + Elems(l) + Elems(r);
  }

  /** The post-order listing holds every stored value exactly as often as it is stored. */
  lemma {:induction false} PostOrderElems<T>(t: Tree<T>)
    ensures multiset(PostOrder(t)) == Elems(t)
  {
    match t
    case Leaf =>
    case Node(d, l, r) =>
      PostOrderElems(l);
      PostOrderElems(r);
      assert PostOrder(t) == PostOrder(l) + PostOrder(r) + [d];
      assert multiset(PostOrder(t)) == Elems(l) + Elems(r) + multiset{d};
  }

  /** The three traversals list the same values, each as often as it is stored. */
  lemma TraversalElems<T>(t: Tree<T>)
    ensures multiset(InOrder(t)) == Elems(t)
    ensures multiset(PreOrder(t)) == Elems(t)
    ensures multiset(PostOrder(t)) == Elems(t)
  {
    InOrderElems(t);
    PreOrderElems(t);
    PostOrderElems(t);
  }

  /** A value occurs in the in-order listing exactly when some node holds it. */
  lemma InOrderMembership<T>(t: Tree<T>, v: T)
    ensures v in InOrder(t) <==> v in Elems(t)
  {
  }
}

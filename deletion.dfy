/**
 Deletion by value. The recursive routine returns the root of the subtree after
 the deletion and the caller stores it back in the slot it came from. A node
 holding the value with at most one child is spliced out; one with two children
 takes the value of its in-order successor (the leftmost node of its right
 subtree), and that value is then deleted from the right subtree. A node not
 holding the value passes the deletion on to BOTH of its subtrees, since
 insertion does not order the values.

 With distinct values this removes exactly the one node holding the value and
 leaves the in-order listing otherwise as it was. With repeated values it may
 remove more than one copy, or keep a copy at the node that receives the
 successor's value; on any tree it never adds a value, and it removes at least
 one copy of a value that is present.
 */
module Deletion {
  import opened Trees
  import opened Traversals
  import opened Search

  /** `n` is reached from `t` by following left edges only. */
  ghost predicate OnLeftSpine<T>(t: Tree<T>, n: Tree<T>)
  {
    n == t || (t.Node? && OnLeftSpine(t.left, n))
  }

  /** The in-order successor inside `t`: the end of the left spine of a present node. */
  function Leftmost<T>(t: Tree<T>): (n: Tree<T>)
    requires t.Node?
    ensures n.Node? && n.left.Leaf? && OnLeftSpine(t, n)
  {
    if t.left.Leaf? then t else Leftmost(t.left)
  }

  /** The leftmost node holds the first value of the in-order listing. */
  lemma {:induction false} LeftmostFirst<T>(t: Tree<T>)
    requires t.Node?
    ensures InOrder(t)[0] == Leftmost(t).data
    ensures Leftmost(t).data in Elems(t)
  {
    if t.left.Node? {
      LeftmostFirst(t.left);
      assert InOrder(t) == InOrder(t.left) + ([t.data] + InOrder(t.right));
    }
    InOrderMembership(t, InOrder(t)[0]);
  }

  /** The successor walk: follow left children from a present node until there is none. */
  method NextNode<T>(node: Tree<T>) returns (n: Tree<T>)
    requires node.Node?
    ensures n == Leftmost(node)
    ensures n.Node? && n.left.Leaf? && OnLeftSpine(node, n)
    ensures n.data == InOrder(node)[0]
  {
    n := node;
    while n.left.Node?
      invariant n.Node? && Leftmost(n) == Leftmost(node)
      decreases Size(n)
    {
      n := n.left;
    }
    LeftmostFirst(node);
  }

  /** The subtree that replaces `t` after deleting `v` from it. */
  function Delete<T(==)>(t: Tree<T>, v: T): Tree<T>
  {
    match t
    case Leaf => Leaf
    case Node(d, l, r) =>
      if d == v then
        if l.Leaf? && r.Leaf? then Leaf
        else if l.Leaf? then r
        else if r.Leaf? then l
        else
          var s := Leftmost(r).data;
          Node(s, l, Delete(r, s))
      else
        Node(d, Delete(l, v), Delete(r, v))
  }

  /** Deleting a value no node holds gives back the same tree: same shape, same values, same traversals. */
  lemma {:induction false} DeleteAbsent<T>(t: Tree<T>, v: T)
    requires v !in Elems(t)
    ensures Delete(t, v) == t
  {
    match t
    case Leaf =>
    case Node(d, l, r) =>
      DeleteAbsent(l, v);
      DeleteAbsent(r, v);
  }

  /**
   On any tree, repeated values included, deletion never adds a value; when `v`
   is present it loses at least one copy of `v` and at least one node.
   */
  lemma {:induction false} DeleteShrinks<T>(t: Tree<T>, v: T)
    ensures Elems(Delete(t, v)) <= Elems(t)
    ensures Size(Delete(t, v)) <= Size(t)
    ensures v in Elems(t) ==> Elems(Delete(t, v)) + multiset{v} <= Elems(t)
    ensures v in Elems(t) ==> Size(Delete(t, v)) < Size(t)
  {
    match t
    case Leaf =>
    case Node(d, l, r) =>
      if d == v {
        if l.Node? && r.Node? {
          var s := Leftmost(r).data;
          LeftmostFirst(r);
          DeleteShrinks(r, s);
        }
      } else {
        DeleteShrinks(l, v);
        DeleteShrinks(r, v);
      }
  }

  /** The sequence `s` with its first occurrence of `v` cut out. */
  function Excise<T(==)>(s: seq<T>, v: T): (r: seq<T>)
    ensures |r| == if v in s then |s| - 1 else |s|
  {
    if s == [] then []
    else if s[0] == v then s[1..]
    else [s[0]] + Excise(s[1..], v)
  }

  /** Cutting out one occurrence removes one copy of `v` from the values listed. */
  lemma {:induction false} ExciseElems<T>(s: seq<T>, v: T)
    ensures multiset(Excise(s, v)) == multiset(s) - multiset{v}
  {
    if s != [] {
      assert s == [s[0]] + s[1..];
      if s[0] != v {
        ExciseElems(s[1..], v);
      }
    }
  }

  lemma {:induction false} ExciseAbsent<T>(s: seq<T>, v: T)
    requires v !in s
    ensures Excise(s, v) == s
  {
    if s != [] {
      ExciseAbsent(s[1..], v);
      assert s == [s[0]] + s[1..];
    }
  }

  /** Cutting from a concatenation cuts from the first part that holds the value. */
  lemma {:induction false} ExciseAppend<T>(a: seq<T>, b: seq<T>, v: T)
    ensures Excise(a + b, v) == if v in a then Excise(a, v) + b else a + Excise(b, v)
  {
    if a != [] {
      var ab := a + b;
      assert ab[0] == a[0] && ab[1..] == a[1..] + b;
      if a[0] == v {
        assert Excise(ab, v) == a[1..] + b;
        assert Excise(a, v) == a[1..];
      } else {
        ExciseAppend(a[1..], b, v);
        assert Excise(ab, v) == [a[0]] + Excise(a[1..] + b, v);
        assert Excise(a, v) == [a[0]] + Excise(a[1..], v);
        assert a == [a[0]] + a[1..];
        assert v in a <==> v in a[1..];
      }
    } else {
      assert a + b == b;
    }
  }

  /** Cutting `v` out of a listing of a left part, a value `d` and a right part. */
  lemma ExciseAround<T>(a: seq<T>, d: T, b: seq<T>, v: T)
    ensures Excise(a + [d] + b, v) ==
      if v in a then Excise(a, v) + [d] + b
      else if d == v then a + b
      else a + [d] + Excise(b, v)
  {
    var db := [d] + b;
    if v in a {
      assert Excise(a + [d] + b, v) == Excise(a, v) + [d] + b by {
        assert a + [d] + b == a + db;
        ExciseAppend(a, db, v);
      }
    } else {
      assert Excise(a + [d] + b, v) == a + Excise(db, v) by {
        assert a + [d] + b == a + db;
        ExciseAppend(a, db, v);
      }
      assert db[0] == d && db[1..] == b;
      if d != v {
        assert a + ([d] + Excise(b, v)) == a + [d] + Excise(b, v);
      }
    }
  }

  /**
   With distinct values, deletion cuts exactly the node holding `v` out of the
   in-order listing: the splice cases and the successor-copy case alike leave
   every other value in its place.
   */
  lemma {:induction false} DeleteInOrder<T>(t: Tree<T>, v: T)
    requires Distinct(t)
    ensures InOrder(Delete(t, v)) == Excise(InOrder(t), v)
    decreases t, 1
  {
    match t
    case Leaf =>
    case Node(d, l, r) =>
      if d == v && l.Node? && r.Node? {
        DeleteInOrderSuccessor(d, l, r);
      } else {
        DistinctChildren(d, l, r);
        DistinctApart(d, l, r, v);
        InOrderMembership(l, v);
        InOrderMembership(r, v);
        ExciseAround(InOrder(l), d, InOrder(r), v);
        if d != v {
          DeleteInOrder(l, v);
          DeleteInOrder(r, v);
          if v in InOrder(l) {
            ExciseAbsent(InOrder(r), v);
          } else {
            ExciseAbsent(InOrder(l), v);
          }
        }
      }
  }

  /** The successor-copy case of DeleteInOrder: a matching node with two children. */
  lemma {:induction false} DeleteInOrderSuccessor<T>(d: T, l: Tree<T>, r: Tree<T>)
    requires Distinct(Node(d, l, r)) && l.Node? && r.Node?
    ensures InOrder(Delete(Node(d, l, r), d)) == Excise(InOrder(Node(d, l, r)), d)
    decreases Node(d, l, r), 0
  {
    var s := Leftmost(r).data;
    var il, ir := InOrder(l), InOrder(r);
    assert Excise(InOrder(Node(d, l, r)), d) == il + ir by {
      DistinctApart(d, l, r, d);
      InOrderMembership(l, d);
      ExciseAround(il, d, ir, d);
    }
    assert InOrder(Delete(r, s)) == ir[1..] && ir == [s] + ir[1..] by {
      DistinctChildren(d, l, r);
      DeleteLeftmost(r);
    }
    assert InOrder(Delete(Node(d, l, r), d)) == il + [s] + ir[1..];
    assert il + [s] + ir[1..] == il + ([s] + ir[1..]);
  }

  /**
   With distinct values, deleting the leftmost value of a subtree cuts the
   first value off its in-order listing.
   */
  lemma {:induction false} DeleteLeftmost<T>(r: Tree<T>)
    requires Distinct(r) && r.Node?
    ensures InOrder(r) == [Leftmost(r).data] + InOrder(r)[1..]
    ensures InOrder(Delete(r, Leftmost(r).data)) == InOrder(r)[1..]
    decreases r, 2
  {
    var s := Leftmost(r).data;
    LeftmostFirst(r);
    DeleteInOrder(r, s);
    assert InOrder(r) == [s] + InOrder(r)[1..];
  }

  /**
   With distinct values, deleting a present `v` removes exactly one node and
   one value, after which `v` is not found, and the values stay distinct.
   */
  lemma DeleteDistinct<T>(t: Tree<T>, v: T)
    requires Distinct(t)
    ensures Elems(Delete(t, v)) == Elems(t) - multiset{v}
    ensures Size(Delete(t, v)) == if v in Elems(t) then Size(t) - 1 else Size(t)
    ensures !Contains(Delete(t, v), v)
    ensures Distinct(Delete(t, v))
  {
    DeleteInOrder(t, v);
    InOrderMembership(t, v);
    TraversalElems(t);
    TraversalElems(Delete(t, v));
    ExciseElems(InOrder(t), v);
    var e := Elems(Delete(t, v));
    assert e[v] == 0 by {
      if v in Elems(t) {
        assert Elems(t)[v] <= 1;
      }
    }
    forall x | x in e
      ensures e[x] <= 1
    {
      assert x in Elems(t);
    }
  }

  /** The tree after deleting the values of `vs` one after the other. */
  function DeleteAll<T(==)>(t: Tree<T>, vs: seq<T>): Tree<T>
    decreases vs
  {
    if vs == [] then t else DeleteAll(Delete(t, vs[0]), vs[1..])
  }

  /**
   Deleting `v` from a tree whose values fit within `v` plus a budget leaves
   values that fit within the budget alone.
   */
  lemma DeleteWithin<T>(t: Tree<T>, v: T, budget: multiset<T>)
    requires Elems(t) <= multiset{v} + budget
    ensures Elems(Delete(t, v)) <= budget
  {
    DeleteShrinks(t, v);
  }

  /**
   Deleting, one after the other, values that include every stored value
   (repeated values included, each as often as it is stored) empties the tree.
   */
  lemma {:induction false} DeleteEverything<T>(t: Tree<T>, vs: seq<T>)
    requires Elems(t) <= multiset(vs)
    ensures DeleteAll(t, vs) == Leaf
    decreases vs
  {
    if vs == [] {
      assert Size(t) == 0 by {
        ElemsCount(t);
      }
    } else {
      var v, rest := vs[0], vs[1..];
      assert Elems(Delete(t, v)) <= multiset(rest) by {
        assert multiset(vs) == multiset{v} + multiset(rest) by {
          assert vs == [v] + rest;
        }
        DeleteWithin(t, v, multiset(rest));
      }
      DeleteEverything(Delete(t, v), rest);
    }
  }
}

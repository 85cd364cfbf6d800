/**
 Level-order positions. The root is position 1 and the children of position k
 are 2k (left) and 2k + 1 (right), so listing positions in increasing order
 lists them level by level, left to right within a level: the order in which a
 breadth-first walk meets the nodes and their child slots.

 A position names a path of child edges from the root; `Subtree` follows a path
 and `Graft` hangs a subtree at the end of one.
 */
module Positions {
  import opened Trees

  /** The child edges leading from the root to position k. */
  function Path(k: nat): (p: seq<Side>)
    requires 1 <= k
  {
    if k == 1 then [] else Path(k / 2) + [if k % 2 == 0 then Left else Right]
  }

  /** The subtree reached by following `p` from the root of `t` (Leaf once a node is absent). */
  function Subtree<T>(t: Tree<T>, p: seq<Side>): Tree<T>
  {
    if p == [] then t
    else match t
      case Leaf => Leaf
      case Node(_, _, _) => Subtree(Child(t, p[0]), p[1..])
  }

  /** The subtree at level-order position k. */
  function At<T>(t: Tree<T>, k: nat): Tree<T>
    requires 1 <= k
  {
    Subtree(t, Path(k))
  }

  /** Whether a node occupies position k. */
  predicate Present<T>(t: Tree<T>, k: nat)
    requires 1 <= k
  {
    At(t, k).Node?
  }

  /** `p` runs through present nodes and ends at an absent child slot (or is the empty root slot). */
  predicate Slot<T>(t: Tree<T>, p: seq<Side>)
  {
    match t
    case Leaf => p == []
    case Node(_, _, _) => p != [] && Slot(Child(t, p[0]), p[1..])
  }

  /** `t` with the subtree at the end of `p` replaced by `s`; nothing changes if `p` leaves the tree early. */
  function Graft<T>(t: Tree<T>, p: seq<Side>, s: Tree<T>): Tree<T>
  {
    if p == [] then s
    else match t
      case Leaf => Leaf
      case Node(d, l, r) =>
        if p[0] == Left then Node(d, Graft(l, p[1..], s), r) else Node(d, l, Graft(r, p[1..], s))
  }

  /** The nodes at positions 1 .. n are present and no other: the complete-tree shape of n nodes. */
  ghost predicate Complete<T>(t: Tree<T>, n: nat)
  {
    forall k :: 1 <= k ==> (Present(t, k) <==> k <= n)
  }

  function Pow2(e: nat): (r: nat)
    ensures 1 <= r
  {
    if e == 0 then 1 else 2 * Pow2(e - 1)
  }

  lemma {:induction false} Pow2Monotonic(a: nat, b: nat)
    requires a <= b
    ensures Pow2(a) <= Pow2(b)
  {
    if a < b {
      Pow2Monotonic(a, b - 1);
    }
  }

  /** Position k lies on level |Path(k)|, whose positions are below 2^(level + 1). */
  lemma {:induction false} PathLength(k: nat)
    requires 1 <= k
    ensures k < Pow2(|Path(k)| + 1)
  {
    if k > 1 {
      PathLength(k / 2);
    }
  }

  /** A present node lies at a depth below the height. */
  lemma {:induction false} SubtreeDepth<T>(t: Tree<T>, p: seq<Side>)
    requires Subtree(t, p).Node?
    ensures |p| < Height(t)
  {
    if p != [] {
      SubtreeDepth(Child(t, p[0]), p[1..]);
    }
  }

  /** Every present position is below 2^Height: a finite tree occupies finitely many positions. */
  lemma PresentBound<T>(t: Tree<T>, k: nat)
    requires 1 <= k && Present(t, k)
    ensures k < Pow2(Height(t))
  {
    SubtreeDepth(t, Path(k));
    PathLength(k);
    Pow2Monotonic(|Path(k)| + 1, Height(t));
  }

  /** Distinct positions name distinct paths. */
  lemma {:induction false} PathInjective(j: nat, k: nat)
    requires 1 <= j && 1 <= k && Path(j) == Path(k)
    ensures j == k
  {
    if j > 1 && k > 1 {
      var pj, pk := Path(j), Path(k);
      assert pj[..|pj| - 1] == Path(j / 2);
      assert pk[..|pk| - 1] == Path(k / 2);
      PathInjective(j / 2, k / 2);
      assert j % 2 == k % 2 by {
        assert pj[|pj| - 1] == pk[|pk| - 1];
      }
    }
  }

  /** Following one more edge takes the child of the subtree reached so far. */
  lemma {:induction false} SubtreeSnoc<T>(t: Tree<T>, p: seq<Side>, side: Side)
    ensures Subtree(t, p + [side]) == Child(Subtree(t, p), side)
  {
    if p == [] {
      assert Subtree(t, [side]) == Subtree(Child(t, side), []);
    } else if t.Node? {
      assert (p + [side])[1..] == p[1..] + [side];
      SubtreeSnoc(Child(t, p[0]), p[1..], side);
    }
  }

  /** Position 2k is the left child and 2k + 1 the right child of position k. */
  lemma ChildPositions<T>(t: Tree<T>, k: nat)
    requires 1 <= k
    ensures At(t, 2 * k) == Child(At(t, k), Left)
    ensures At(t, 2 * k + 1) == Child(At(t, k), Right)
  {
    var p := Path(k);
    assert Path(2 * k) == p + [Left] by {
      assert (2 * k) / 2 == k && (2 * k) % 2 == 0;
    }
    assert Path(2 * k + 1) == p + [Right] by {
      assert (2 * k + 1) / 2 == k && (2 * k + 1) % 2 == 1;
    }
    SubtreeSnoc(t, p, Left);
    SubtreeSnoc(t, p, Right);
  }

  /** An absent child of a present node is a slot. */
  lemma {:induction false} SlotAtChild<T>(t: Tree<T>, p: seq<Side>, side: Side)
    requires Subtree(t, p).Node? && Child(Subtree(t, p), side).Leaf?
    ensures Slot(t, p + [side])
  {
    if p == [] {
      assert Subtree(t, p) == t;
      assert (p + [side])[1..] == [];
    } else {
      assert (p + [side])[1..] == p[1..] + [side];
      SlotAtChild(Child(t, p[0]), p[1..], side);
    }
  }

  /** Below a slot there is nothing. */
  lemma {:induction false} SlotBelow<T>(t: Tree<T>, p: seq<Side>, q: seq<Side>)
    requires Slot(t, p) && p <= q
    ensures Subtree(t, q).Leaf?
  {
    if t.Node? {
      SlotBelow(Child(t, p[0]), p[1..], q[1..]);
    }
  }

  /** Grafting at a slot adds the grafted nodes to the count. */
  lemma {:induction false} GraftSize<T>(t: Tree<T>, p: seq<Side>, s: Tree<T>)
    requires Slot(t, p)
    ensures Size(Graft(t, p, s)) == Size(t) + Size(s)
  {
    if t.Node? {
      GraftSize(Child(t, p[0]), p[1..], s);
    }
  }

  /** Grafting at a slot adds the grafted values and keeps all others. */
  lemma {:induction false} GraftElems<T>(t: Tree<T>, p: seq<Side>, s: Tree<T>)
    requires Slot(t, p)
    ensures Elems(Graft(t, p, s)) == Elems(t) + Elems(s)
  {
    match t
    case Leaf =>
    case Node(d, l, r) =>
      if p[0] == Left {
        GraftElems(l, p[1..], s);
        ElemsGrowLeft(d, l, Graft(l, p[1..], s), r, Elems(s));
      } else {
        GraftElems(r, p[1..], s);
        ElemsGrowRight(d, l, r, Graft(r, p[1..], s), Elems(s));
      }
  }

  /**
   After grafting `s` at slot `p`, a path extending `p` leads into `s`; any
   other path meets a node exactly where it met one before, holding the same value.
   */
  lemma {:induction false} GraftSubtree<T>(t: Tree<T>, p: seq<Side>, s: Tree<T>, q: seq<Side>)
    requires Slot(t, p)
    ensures p <= q ==> Subtree(Graft(t, p, s), q) == Subtree(s, q[|p|..])
    ensures !(p <= q) ==> Subtree(Graft(t, p, s), q).Node? == Subtree(t, q).Node?
    ensures !(p <= q) && Subtree(t, q).Node? ==> Subtree(Graft(t, p, s), q).data == Subtree(t, q).data
  {
    match t
    case Leaf =>
      assert q[|p|..] == q;
    case Node(d, l, r) =>
      if q != [] {
        var g := Graft(t, p, s);
        assert Subtree(g, q) == Subtree(Child(g, q[0]), q[1..]);
        if q[0] == p[0] {
          GraftSubtree(Child(t, p[0]), p[1..], s, q[1..]);
          assert p <= q <==> p[1..] <= q[1..];
          if p <= q {
            assert q[|p|..] == q[1..][|p| - 1..];
          }
        } else {
          assert Child(g, q[0]) == Child(t, q[0]);
        }
      }
  }
}

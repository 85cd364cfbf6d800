/**
 Level-order insertion. The program never compares values when inserting: a
 breadth-first walk from the root attaches the new node at the first absent
 child slot it meets, the left slot of a node before its right slot. The
 reference definition here says the same thing in terms of positions: the new
 node goes to the least level-order position that no node occupies.
 */
module Insertion {
  import opened Trees
  import opened Positions
  import opened Search

  /** The least position from k on that no node occupies, given that positions 1 .. k - 1 are occupied. */
  function FirstFreeFrom<T>(t: Tree<T>, k: nat): (f: nat)
    requires 1 <= k <= Pow2(Height(t))
    ensures k <= f <= Pow2(Height(t)) && !Present(t, f)
    ensures forall j :: k <= j < f ==> Present(t, j)
    decreases Pow2(Height(t)) - k
  {
    if !Present(t, k) then k
    else
      PresentBound(t, k);
      FirstFreeFrom(t, k + 1)
  }

  /**
   The least position no node occupies. It always exists, and lies within the
   positions of the first Height(t) + 1 levels, so a finite tree always has a
   free slot for the breadth-first walk to find.
   */
  function FirstFree<T>(t: Tree<T>): (f: nat)
    ensures 1 <= f <= Pow2(Height(t)) && !Present(t, f)
    ensures forall j :: 1 <= j < f ==> Present(t, j)
  {
    FirstFreeFrom(t, 1)
  }

  /** The least free position is determined by its two defining properties. */
  lemma FirstFreeUnique<T>(t: Tree<T>, f: nat)
    requires 1 <= f && !Present(t, f)
    requires forall j :: 1 <= j < f ==> Present(t, j)
    ensures FirstFree(t) == f
  {
  }

  /** The least free position is a slot: the root slot of an empty tree, or an absent child of a present node. */
  lemma FirstFreeIsSlot<T>(t: Tree<T>)
    ensures Slot(t, Path(FirstFree(t)))
  {
    var f := FirstFree(t);
    if f == 1 {
      assert Path(1) == [];
      assert Subtree(t, []) == t;
    } else {
      var k := f / 2;
      assert Present(t, k);
      ChildPositions(t, k);
      var side := if f % 2 == 0 then Left else Right;
      assert Path(f) == Path(k) + [side];
      assert At(t, f) == Child(At(t, k), side);
      SlotAtChild(t, Path(k), side);
    }
  }

  /** The tree after inserting `v`: a one-node subtree hung at the least free position. */
  function Insert<T>(t: Tree<T>, v: T): Tree<T>
  {
    Graft(t, Path(FirstFree(t)), Node(v, Leaf, Leaf))
  }

  /** Inserting into an empty tree gives a single root node holding the value. */
  lemma InsertIntoEmpty<T>(v: T)
    ensures Insert(Leaf, v) == Node(v, Leaf, Leaf)
  {
  }

  /** Insertion adds exactly one node, holding `v`, and keeps every other value. */
  lemma InsertCounts<T>(t: Tree<T>, v: T)
    ensures Size(Insert(t, v)) == Size(t) + 1
    ensures Elems(Insert(t, v)) == Elems(t) + multiset{v}
  {
    FirstFreeIsSlot(t);
    GraftSize(t, Path(FirstFree(t)), Node(v, Leaf, Leaf));
    GraftElems(t, Path(FirstFree(t)), Node(v, Leaf, Leaf));
  }

  /** `search(v)` succeeds right after `insertNode(v)`. */
  lemma SearchAfterInsert<T>(t: Tree<T>, v: T)
    ensures Contains(Insert(t, v), v)
  {
    InsertCounts(t, v);
  }

  /**
   Insertion occupies exactly one new position, the least free one, where it
   puts `v`; every position occupied before stays occupied by the same value.
   */
  lemma InsertPositions<T>(t: Tree<T>, v: T, j: nat)
    requires 1 <= j
    ensures Present(Insert(t, v), j) <==> Present(t, j) || j == FirstFree(t)
    ensures Present(t, j) ==> At(Insert(t, v), j).data == At(t, j).data
    ensures At(Insert(t, v), FirstFree(t)) == Node(v, Leaf, Leaf)
  {
    var f := FirstFree(t);
    var p, s := Path(f), Node(v, Leaf, Leaf);
    FirstFreeIsSlot(t);
    GraftSubtree(t, p, s, Path(j));
    GraftSubtree(t, p, s, p);
    assert p[|p|..] == [];
    if p <= Path(j) {
      if |Path(j)| == |p| {
        assert Path(j) == p;
        PathInjective(j, f);
      } else {
        var rest := Path(j)[|p|..];
        assert rest != [];
        assert Subtree(s, rest) == Subtree(Child(s, rest[0]), rest[1..]);
        assert Child(s, rest[0]) == Leaf;
        assert Subtree<T>(Leaf, rest[1..]) == Leaf;
        assert j != f;
        SlotBelow(t, p, Path(j));
      }
    } else {
      assert j != f;
    }
  }

  /** Inserting into the complete tree of n nodes gives the complete tree of n + 1 nodes. */
  lemma InsertKeepsComplete<T>(t: Tree<T>, n: nat, v: T)
    requires Complete(t, n)
    ensures FirstFree(t) == n + 1
    ensures Complete(Insert(t, v), n + 1)
  {
    FirstFreeUnique(t, n + 1);
    forall k | 1 <= k
      ensures Present(Insert(t, v), k) <==> k <= n + 1
    {
      InsertPositions(t, v, k);
    }
  }

  /** The tree built by inserting the values of `vs` in order into an empty tree. */
  function InsertAll<T>(vs: seq<T>): Tree<T>
  {
    if vs == [] then Leaf else Insert(InsertAll(vs[..|vs| - 1]), vs[|vs| - 1])
  }

  /**
   Inserting n values into an empty tree gives the complete-tree shape of n
   nodes, with the values laid out in level order: the i-th value inserted is
   at position i.
   */
  lemma {:induction false} InsertAllLevelOrder<T>(vs: seq<T>)
    ensures Complete(InsertAll(vs), |vs|)
    ensures forall k :: 1 <= k <= |vs| ==> At(InsertAll(vs), k).Node? && At(InsertAll(vs), k).data == vs[k - 1]
  {
    if vs == [] {
      forall k | 1 <= k
        ensures !Present<T>(Leaf, k)
      {
        assert Subtree<T>(Leaf, Path(k)) == Leaf;
      }
    } else {
      var n := |vs| - 1;
      var init, v := vs[..n], vs[n];
      var t := InsertAll(init);
      InsertAllLevelOrder(init);
      InsertKeepsComplete(t, n, v);
      forall k | 1 <= k <= |vs|
        ensures At(InsertAll(vs), k).Node? && At(InsertAll(vs), k).data == vs[k - 1]
      {
        InsertPositions(t, v, k);
        if k <= n {
          assert At(t, k).data == init[k - 1];
        }
      }
    }
  }

  /** Size counts the insertions: no value is ever dropped. */
  lemma {:induction false} InsertAllSize<T>(vs: seq<T>)
    ensures Size(InsertAll(vs)) == |vs|
    ensures Elems(InsertAll(vs)) == multiset(vs)
  {
    if vs != [] {
      var n := |vs| - 1;
      var t := InsertAll(vs[..n]);
      assert Size(t) == n && Elems(t) == multiset(vs[..n]) by {
        InsertAllSize(vs[..n]);
      }
      assert Size(InsertAll(vs)) == Size(t) + 1 && Elems(InsertAll(vs)) == Elems(t) + multiset{vs[n]} by {
        InsertCounts(t, vs[n]);
      }
      assert vs == vs[..n] + [vs[n]];
    }
  }
}

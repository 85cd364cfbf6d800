/**
 The tree object: it owns the root slot and updates it in place. Insertion runs
 the breadth-first walk over a queue of the nodes still to visit; each queued
 node is identified by its level-order position.
 */
module BinaryTrees {
  import opened Trees
  import opened Positions
  import opened Search
  import opened Insertion
  import opened Deletion

  class BinaryTree<T(==)> {
    /** The root node, or Leaf for the empty tree. */
    var root: Tree<T>

    /** A new tree is empty. */
    constructor ()
      ensures root == Leaf
    {
      root := Leaf;
    }

    /** Deletes `value` from the tree, storing back the subtree root the deletion returns. */
    method Remove(value: T)
      modifies this
      ensures root == Delete(old(root), value)
    {
      root := Delete(root, value);
    }

    /**
     Attaches a new node holding `value` at the first absent child slot of a
     breadth-first walk, or makes it the root of an empty tree.
     */
    method InsertNode(value: T)
      modifies this
      ensures root == Insert(old(root), value)
    {
      var newNode := Node(value, Leaf, Leaf);
      if root.Leaf? {
        InsertIntoEmpty(value);
        root := newNode;
        return;
      }
      var q: seq<nat> := [1];
      // The queue always holds positions m .. 2m - 1, and positions 1 .. 2m - 1
      // are all occupied: every node dequeued so far had both children.
      ghost var m: nat := 1;
      while q != []
        invariant 1 <= m && |q| == m
        invariant forall i :: 0 <= i < |q| ==> q[i] == m + i
        invariant forall j :: 1 <= j < 2 * m ==> Present(root, j)
        invariant root == old(root)
        decreases Pow2(Height(root)) - m
      {
        PresentBound(root, 2 * m - 1);
        var current := q[0];
        q := q[1..];
        assert Present(root, current);
        var node := At(root, current);
        ChildPositions(root, current);
        if node.left.Leaf? {
          FirstFreeUnique(root, 2 * current);
          root := Graft(root, Path(2 * current), newNode);
          return;
        } else {
          q := q + [2 * current];
        }
        if node.right.Leaf? {
          FirstFreeUnique(root, 2 * current + 1);
          root := Graft(root, Path(2 * current + 1), newNode);
          return;
        } else {
          q := q + [2 * current + 1];
        }
        m := m + 1;
      }
      // A finite tree always has a free slot, so the queue never runs dry.
      assert false;
    }

    /** Whether some node holds `value`. */
    function Search(value: T): (found: bool)
      reads this
      ensures found <==> value in Elems(root)
    {
      Contains(root, value)
    }
  }
}

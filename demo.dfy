/**
 The program's demonstration run: insert 10, 20, 30, 40, 50, list the three
 traversals, search for 20 and 60, then delete 20, 10, the absent 100, and
 finally 30, 40 and 50.
 */
module Demo {
  import opened Trees
  import opened Positions
  import opened Traversals
  import opened Search
  import opened Insertion
  import opened Deletion
  import opened BinaryTrees

  function Single(v: int): Tree<int>
  {
    Node(v, Leaf, Leaf)
  }

  /** The tree the five insertions build. */
  function Built(): Tree<int>
  {
    Node(10, Node(20, Single(40), Single(50)), Single(30))
  }

  /** Inserting 20 under the lone root 10 fills position 2, its left child. */
  lemma DemoInsert20()
    ensures Insert(Single(10), 20) == Node(10, Single(20), Leaf)
  {
  }

  /** Inserting 30 fills position 3, the right child of the root. */
  lemma DemoInsert30()
    ensures Insert(Node(10, Single(20), Leaf), 30) == Node(10, Single(20), Single(30))
  {
  }

  /** Inserting 40 fills position 4, the left child of 20. */
  lemma DemoInsert40()
    ensures Insert(Node(10, Single(20), Single(30)), 40) == Node(10, Node(20, Single(40), Leaf), Single(30))
  {
  }

  /** Inserting 50 fills position 5, the right child of 20. */
  lemma DemoInsert50()
    ensures Insert(Node(10, Node(20, Single(40), Leaf), Single(30)), 50) == Built()
  {
  }

  /** The five insertions build root 10 with 20 (over 40 and 50) on the left and 30 on the right. */
  lemma DemoInsertions()
    ensures InsertAll([10, 20, 30, 40, 50]) == Built()
  {
    InsertIntoEmpty(10);
    DemoInsert20();
    DemoInsert30();
    DemoInsert40();
    DemoInsert50();
    assert [10, 20, 30, 40, 50][..4] == [10, 20, 30, 40];
    assert [10, 20, 30, 40][..3] == [10, 20, 30];
    assert [10, 20, 30][..2] == [10, 20];
    assert [10, 20][..1] == [10];
    assert [10][..0] == [];
  }

  /** The in-order listing of the demonstration tree. */
  lemma DemoInOrder()
    ensures InOrder(Built()) == [40, 20, 50, 10, 30]
  {
    assert InOrder(Node(20, Single(40), Single(50))) == [40, 20, 50];
  }

  /** The pre-order listing of the demonstration tree. */
  lemma DemoPreOrder()
    ensures PreOrder(Built()) == [10, 20, 40, 50, 30]
  {
    assert PreOrder(Node(20, Single(40), Single(50))) == [20, 40, 50];
  }

  /** The post-order listing of the demonstration tree. */
  lemma DemoPostOrder()
    ensures PostOrder(Built()) == [40, 50, 20, 30, 10]
  {
    assert PostOrder(Node(20, Single(40), Single(50))) == [40, 50, 20];
  }

  /** The two searches of the demonstration: 20 is found, 60 is not. */
  lemma DemoSearches()
    ensures Contains(Built(), 20) && !Contains(Built(), 60)
  {
  }

  /**
   The deletions of the demonstration: 20 and then 10 each take their in-order
   successor's value, 100 changes nothing, and 30, 40, 50 empty the tree.
   */
  lemma DemoDeleteSteps()
    ensures Delete(Built(), 20) == Node(10, Node(50, Single(40), Leaf), Single(30))
    ensures Delete(Node(10, Node(50, Single(40), Leaf), Single(30)), 10) == Node(30, Node(50, Single(40), Leaf), Leaf)
    ensures Delete(Node(30, Node(50, Single(40), Leaf), Leaf), 100) == Node(30, Node(50, Single(40), Leaf), Leaf)
    ensures Delete(Node(30, Node(50, Single(40), Leaf), Leaf), 30) == Node(50, Single(40), Leaf)
    ensures Delete(Node(50, Single(40), Leaf), 40) == Single(50)
    ensures Delete(Single(50), 50) == Leaf
    ensures InOrder(Node(10, Node(50, Single(40), Leaf), Single(30))) == [40, 50, 10, 30]
    ensures InOrder(Node(30, Node(50, Single(40), Leaf), Leaf)) == [40, 50, 30]
  {
  }

  /** Deleting 20, 10, 100, 30, 40 and 50 in turn empties the demonstration tree. */
  lemma DemoDeleteAll()
    ensures DeleteAll(Built(), [20, 10, 100, 30, 40, 50]) == Leaf
  {
  }

  /**
   With a repeated value the deletion does not stop at one occurrence: a node
   not holding the value passes the deletion to both subtrees, so each of them
   loses its topmost copy.
   */
  lemma DeleteRepeatedValue()
    ensures Delete(Node(1, Single(2), Single(2)), 2) == Single(1)
    ensures Elems(Node(1, Single(2), Single(2)))[2] == 2
  {
  }

  /**
   When the in-order successor holds the deleted value itself, the node that
   receives the successor's value keeps a copy: deleting 1 here removes only
   the right child, and the root still holds 1.
   */
  lemma DeleteKeepsCopyAtSuccessor()
    ensures Delete(Node(1, Single(2), Single(1)), 1) == Node(1, Single(2), Leaf)
    ensures Contains(Delete(Node(1, Single(2), Single(1)), 1), 1)
  {
  }

  /** The demonstration driven through the tree object's own operations. */
  method RunDemo() returns (inorder: seq<int>, preorder: seq<int>, postorder: seq<int>,
                            found20: bool, found60: bool,
                            after20: seq<int>, after10: seq<int>, afterAll: seq<int>)
    ensures inorder == [40, 20, 50, 10, 30]
    ensures preorder == [10, 20, 40, 50, 30]
    ensures postorder == [40, 50, 20, 30, 10]
    ensures found20 && !found60
    ensures after20 == [40, 50, 10, 30] && after10 == [40, 50, 30] && afterAll == []
  {
    InsertIntoEmpty(10);
    DemoInsert20();
    DemoInsert30();
    DemoInsert40();
    DemoInsert50();
    DemoInOrder();
    DemoPreOrder();
    DemoPostOrder();
    DemoSearches();
    DemoDeleteSteps();
    var tree := new BinaryTree<int>();
    tree.InsertNode(10);
    tree.InsertNode(20);
    tree.InsertNode(30);
    tree.InsertNode(40);
    tree.InsertNode(50);
    assert tree.root == Built();
    inorder, preorder, postorder := InOrder(tree.root), PreOrder(tree.root), PostOrder(tree.root);
    found20, found60 := tree.Search(20), tree.Search(60);
    tree.Remove(20);
    after20 := InOrder(tree.root);
    tree.Remove(10);
    after10 := InOrder(tree.root);
    tree.Remove(100);
    tree.Remove(30);
    tree.Remove(40);
    tree.Remove(50);
    afterAll := InOrder(tree.root);
  }
}

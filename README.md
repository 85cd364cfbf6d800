# Binary tree with level-order insertion

A model of the generic `BinaryTree<T>` of `binaryTreeC++.cpp`: a binary tree
whose values are NOT kept in search order. `insertNode` walks the tree breadth
first and hangs the new node on the first absent child slot it meets;
`remove` deletes by value, splicing out a node with at most one child and
copying the in-order successor into a node with two; `search` looks in both
subtrees; the three depth-first traversals list the values. The program's
`main` drives one demonstration run over `int` values.

Modules:

- `Trees` (trees.dfy): the node structure as a datatype `Tree<T>`, its size,
  height, multiset of values, and the predicate `Distinct` (no value stored
  twice).
- `Traversals` (traversals.dfy): in-order, pre-order and post-order, each
  returning the sequence of values the program prints.
- `Search` (search.dfy): the recursive search.
- `Positions` (positions.dfy): level-order positions as heap indices (the
  root is 1, the children of k are 2k and 2k + 1), the path of left/right
  steps leading to a position, and grafting a subtree at a path.
- `Insertion` (insertion.dfy): the reference definition of insertion, "put
  the new node at the least free level-order position", and its properties.
- `Deletion` (deletion.dfy): the successor walk and the recursive deletion,
  with their properties on arbitrary trees and on trees of distinct values.
- `BinaryTrees` (binary_tree.dfy): the tree object. Its `InsertNode` runs
  the breadth-first walk with a queue and is proved to agree with the
  reference insertion.
- `Demo` (demo.dfy): the demonstration run of `main`, with every
  intermediate tree and printed sequence stated.

One might expect a deletion to remove at most one occurrence of the value.
When a node does not hold the value, `deleteRecursive` recurses into both
subtrees (binaryTreeC++.cpp:67-68), so with repeated values one deletion can
remove copies from both sides (`Demo.DeleteRepeatedValue`). And when the
in-order successor of a matching node holds the value itself, the matching
node takes that value and keeps a copy (`Demo.DeleteKeepsCopyAtSuccessor`).
What holds on every tree is that deletion never adds a value and removes at
least one copy of a value that is present (`Deletion.DeleteShrinks`). With
distinct values it removes exactly one node (`Deletion.DeleteDistinct`).

## Model

| member | source | states |
|---|---|---|
| BinaryTrees.BinaryTree.constructor | binaryTreeC++.cpp:118 | a new tree is empty |
| BinaryTrees.BinaryTree.InsertNode | binaryTreeC++.cpp:126-159 | the breadth-first walk with its queue always finds a free child slot, so the loop ends; the new tree is the reference insertion `Insertion.Insert` of the old one |
| BinaryTrees.BinaryTree.Remove | binaryTreeC++.cpp:121-123 | the root slot receives the subtree that the recursive deletion returns |
| BinaryTrees.BinaryTree.Search | binaryTreeC++.cpp:165-167 | the search succeeds exactly when some node of the tree holds the value |
| Search.Contains | binaryTreeC++.cpp:78-88 | the recursive search over both subtrees succeeds exactly when the value is stored somewhere in the subtree |
| Traversals.InOrder | binaryTreeC++.cpp:90-97 | lists every node once; the node's own value comes right after the whole left subtree |
| Traversals.PreOrder | binaryTreeC++.cpp:99-106 | lists every node once; the node's own value comes first |
| Traversals.PostOrder | binaryTreeC++.cpp:108-115 | lists every node once; the node's own value comes last |
| Traversals.InOrderElems | binaryTreeC++.cpp:90-97 | the in-order traversal lists every stored value as many times as it is stored, and nothing else |
| Traversals.PreOrderElems | binaryTreeC++.cpp:99-106 | the pre-order traversal lists every stored value as many times as it is stored, and nothing else |
| Traversals.PostOrderElems | binaryTreeC++.cpp:108-115 | the post-order traversal lists every stored value as many times as it is stored, and nothing else |
| Traversals.TraversalElems | binaryTreeC++.cpp:90-115 | the three traversals list the same values, each as many times as it is stored |
| Traversals.InOrderMembership | binaryTreeC++.cpp:90-97 | a value is printed by the in-order traversal exactly when it is stored |
| Trees.ElemsCount | binaryTreeC++.cpp:18-25 | the number of stored values is the number of nodes |
| Trees.ElemsGrowLeft | binaryTreeC++.cpp:143-146 | hanging more values into the left subtree adds exactly those values to the tree |
| Trees.ElemsGrowRight | binaryTreeC++.cpp:151-154 | hanging more values into the right subtree adds exactly those values to the tree |
| Trees.DistinctChildren | binaryTreeC++.cpp:18-25 | both subtrees of a tree of distinct values hold distinct values |
| Trees.DistinctApart | binaryTreeC++.cpp:18-25 | in a tree of distinct values no value is in both subtrees, and the node's own value is in neither |
| Deletion.Leftmost | binaryTreeC++.cpp:73-76 | following left children from a node ends at a node with no left child on that node's left spine |
| Deletion.NextNode | binaryTreeC++.cpp:73-76 | the walk down left children ends at the leftmost node, which has no left child and holds the first in-order value of the subtree |
| Deletion.LeftmostFirst | binaryTreeC++.cpp:73-76 | the leftmost node holds the first in-order value, so it is the in-order successor the deletion copies |
| Deletion.DeleteAbsent | binaryTreeC++.cpp:33-71 | deleting a value no node holds returns the tree unchanged |
| Deletion.DeleteShrinks | binaryTreeC++.cpp:33-71 | on any tree deletion never adds a value or a node; when the value is present at least one copy and at least one node go |
| Deletion.DeleteInOrder | binaryTreeC++.cpp:33-71 | with distinct values, the in-order listing after deletion is the old listing with the deleted value cut out and everything else in its place |
| Deletion.DeleteInOrderSuccessor | binaryTreeC++.cpp:61-64 | the two-children case: copying the successor's value up and deleting it from the right subtree cuts exactly the deleted value out of the in-order listing |
| Deletion.DeleteLeftmost | binaryTreeC++.cpp:62-64 | with distinct values, the successor is the first value of the right subtree's in-order listing, and deleting it from that subtree removes exactly that first value |
| Deletion.DeleteDistinct | binaryTreeC++.cpp:33-71 | with distinct values, deletion removes exactly one copy of the value (one node) if present, the value is then not found, and values stay distinct |
| Deletion.Excise | binaryTreeC++.cpp:33-71 | cutting the first occurrence of a value shortens a listing by one exactly when the value occurs in it |
| Deletion.ExciseElems | binaryTreeC++.cpp:33-71 | cutting an occurrence removes one copy of the value from the listed values |
| Deletion.DeleteWithin | binaryTreeC++.cpp:33-71 | deleting a value from a tree whose values fit within that value plus a budget leaves values that fit within the budget |
| Deletion.DeleteEverything | binaryTreeC++.cpp:226-232 | deleting, one after the other, values that include every stored value (each as often as it is stored, in any order) leaves the empty tree, repeated values included |
| Insertion.FirstFree | binaryTreeC++.cpp:134-158 | the least level-order position no node occupies exists and lies within the first Height + 1 levels, all positions before it being occupied |
| Insertion.FirstFreeUnique | binaryTreeC++.cpp:134-158 | a position that is free and has every earlier position occupied is the least free one |
| Insertion.FirstFreeIsSlot | binaryTreeC++.cpp:143-157 | the least free position is the root slot of an empty tree or an absent child of an occupied node |
| Insertion.InsertIntoEmpty | binaryTreeC++.cpp:129-132 | inserting into an empty tree makes the new node the root |
| Insertion.InsertCounts | binaryTreeC++.cpp:126-159 | insertion adds exactly one node, holding the value, and keeps every other value |
| Insertion.SearchAfterInsert | binaryTreeC++.cpp:126-167 | a value is found right after it is inserted |
| Insertion.InsertPositions | binaryTreeC++.cpp:126-159 | insertion occupies exactly one new position, the least free one, which holds the new value, and every occupied position keeps its value |
| Insertion.InsertKeepsComplete | binaryTreeC++.cpp:126-159 | inserting into the complete tree of n nodes fills position n + 1 and gives the complete tree of n + 1 nodes |
| Insertion.InsertAllLevelOrder | binaryTreeC++.cpp:126-159 | n insertions into an empty tree give the complete shape of n nodes, the i-th value inserted at level-order position i |
| Insertion.InsertAllSize | binaryTreeC++.cpp:126-159 | n insertions give n nodes holding exactly the inserted values |
| Demo.DemoInsert20 | binaryTreeC++.cpp:192 | inserting 20 under the lone root 10 fills position 2, the root's left child |
| Demo.DemoInsert30 | binaryTreeC++.cpp:193 | inserting 30 fills position 3, the root's right child |
| Demo.DemoInsert40 | binaryTreeC++.cpp:194 | inserting 40 fills position 4, the left child of 20 |
| Demo.DemoInsert50 | binaryTreeC++.cpp:195 | inserting 50 fills position 5, the right child of 20 |
| Demo.DemoInsertions | binaryTreeC++.cpp:191-195 | the five insertions give root 10, left child 20 over 40 and 50, right child 30 |
| Demo.DemoInOrder | binaryTreeC++.cpp:198-199 | the in-order traversal prints 40 20 50 10 30 |
| Demo.DemoPreOrder | binaryTreeC++.cpp:201-202 | the pre-order traversal prints 10 20 40 50 30 |
| Demo.DemoPostOrder | binaryTreeC++.cpp:204-205 | the post-order traversal prints 40 50 20 30 10 |
| Demo.DemoSearches | binaryTreeC++.cpp:207-209 | 20 is found and 60 is not |
| Demo.DemoDeleteSteps | binaryTreeC++.cpp:211-229 | the tree after each deletion; in-order 40 50 10 30 after removing 20 and 40 50 30 after removing 10; removing 100 changes nothing |
| Demo.DemoDeleteAll | binaryTreeC++.cpp:211-232 | deleting 20, 10, 100, 30, 40, 50 in turn leaves the empty tree |
| Demo.DeleteRepeatedValue | binaryTreeC++.cpp:65-69 | with a value stored twice, one deletion removes both copies, one in each subtree |
| Demo.DeleteKeepsCopyAtSuccessor | binaryTreeC++.cpp:61-64 | when the successor holds the deleted value, the node receiving it keeps a copy and the value is still found |
| Demo.RunDemo | binaryTreeC++.cpp:183-234 | the demonstration driven through the tree object prints the traversals, search results and in-order listings of `main` |

## Left out

- Console output: the traversals return the sequence of values instead of
  printing it. The deletion's messages are dropped: the one printed when it
  reaches an empty slot (binaryTreeC++.cpp:35), where it simply returns the
  empty subtree, and the one printed when it removes a leaf
  (binaryTreeC++.cpp:44).
- The public printing wrappers `inorder`, `preorder` and `postorder` are not
  modelled separately. They only pass the root to the recursive traversal
  and print a line break.
- `deleteNode` is not modelled: it passes one argument to `deleteRecursive`,
  which takes two, so it cannot be called (a call would not compile), and
  nothing calls it.
- Node identity and memory: nodes are values. Writes to a node's child
  pointers or data become rebuilt subtrees, and releasing a removed node has
  no counterpart. Each node has exactly one parent and nothing else points
  into the tree, so the rebuilt value is the tree the pointers describe.
- BinaryTrees.BinaryTree.InsertNode: its queue holds the level-order
  positions of the nodes instead of pointers to them. A position names the
  node it reaches, so the walk visits the same nodes in the same order.
- Deletion.NextNode returns the leftmost subtree as a value, not a pointer to
  the node; the deletion uses only its data.
- `T` is any type with equality. The comparisons are those of `operator==`
  on `T`; a user-defined `operator==` that is not an equivalence is not
  modelled.

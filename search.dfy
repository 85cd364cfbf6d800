/**
 Search by value. Insertion does not order the values, so the search walks the
 whole tree: the node itself, then the left subtree, and the right subtree only
 when the left one did not hold the value.
 */
module Search {
  import opened Trees

  /** Whether some node of `t` holds `v`. */
  function Contains<T(==)>(t: Tree<T>, v: T): (found: bool)
    ensures found <==> v in Elems(t)
  {
    match t
    case Leaf => false
    case Node(d, l, r) => d == v || Contains(l, v) || Contains(r, v)
  }
}

/** The class `RBTree` as an object: its root (`_root`), its stored length
    (`_lenght`), the constructor and the two accessors. `insert` is in module
    `Insertion`. */
module TreeObject {
  import opened Nodes

  /** The tree object: its root (the sentinel when empty) and the stored length. */
  datatype RBTree = RBTree(root: Tree, length: int)

  /** What the tree object keeps between calls: the red-black invariants, the
      search-tree order and a length equal to the number of nodes. */
  ghost predicate Valid(s: RBTree)
  {
    IsRedBlack(s.root) && s.length == Size(s.root)
  }

  /** `RBTree()`: the root is the sentinel and the length is zero. */
  function Empty(): (s: RBTree)
    ensures Valid(s)
    ensures Keys(s.root) == {}
  {
    RBTree(Nil, 0)
  }

  /** `get_lenght`: the stored length, which for a valid tree is the number of
      distinct stored keys. */
  function GetLength(s: RBTree): (n: int)
    ensures Valid(s) ==> n == |Keys(s.root)| == |InOrder(s.root)|
  {
    LengthCountsKeys(s);
    s.length
  }

  lemma LengthCountsKeys(s: RBTree)
    ensures Valid(s) ==> s.length == |Keys(s.root)| == |InOrder(s.root)|
  {
    if Valid(s) {
      SearchTreeSizeIsKeyCount(s.root);
      SizeIsInOrderLength(s.root);
    }
  }

  /** `get_root`: the stored tree. In a valid tree it is a red-black search
      tree with a black root, holding the stored keys, one node per unit of
      length, and it is the sentinel exactly when the length is zero. */
  function GetRoot(s: RBTree): (root: Tree)
    ensures Valid(s) ==> ColorOf(root) == Black && (root.Nil? <==> s.length == 0)
    ensures Valid(s) ==> IsRedBlack(root) && Keys(root) == Keys(s.root)
    ensures Valid(s) ==> Size(root) == s.length == |Keys(root)|
  {
    LengthCountsKeys(s);
    s.root
  }
}

/** `rotate_left` and `rotate_right` on tree values.

    A rotation pulls the pivot `x` down and its child `y` up; `y`'s inner
    subtree moves across to `x`. Colours travel with their nodes. Re-pointing
    the pivot's parent (or the root) at `y` is what plugging the result back
    into the same context does (module `Zipper`); the pointer-by-pointer
    surgery itself is modelled in module `Arena`. */
module Rotation {
  import opened Nodes

  /** Left rotation about the top node `x` of `t`; its right child `y` must be a
      real node, as the source dereferences it. */
  function RotateLeft(t: Tree): (r: Tree)
    requires t.Node? && t.right.Node?
    ensures r.Node? && r.left.Node?
    ensures r.color == t.right.color && r.data == t.right.data && r.right == t.right.right
    ensures r.left.color == t.color && r.left.data == t.data && r.left.left == t.left
    ensures r.left.right == t.right.left
    ensures InOrder(r) == InOrder(t)
  {
    var y := t.right;
    Node(y.color, Node(t.color, t.left, t.data, y.left), y.data, y.right)
  }

  /** Right rotation about the top node `x` of `t`; its left child `y` must be a
      real node. */
  function RotateRight(t: Tree): (r: Tree)
    requires t.Node? && t.left.Node?
    ensures r.Node? && r.right.Node?
    ensures r.color == t.left.color && r.data == t.left.data && r.left == t.left.left
    ensures r.right.color == t.color && r.right.data == t.data && r.right.right == t.right
    ensures r.right.left == t.left.right
    ensures InOrder(r) == InOrder(t)
  {
    var y := t.left;
    Node(y.color, y.left, y.data, Node(t.color, y.right, t.data, t.right))
  }

  /** A rotation keeps the key set and the node count. */
  lemma RotationsKeepKeysAndSize(t: Tree)
    requires t.Node?
    ensures t.right.Node? ==> Keys(RotateLeft(t)) == Keys(t) && Size(RotateLeft(t)) == Size(t)
    ensures t.left.Node? ==> Keys(RotateRight(t)) == Keys(t) && Size(RotateRight(t)) == Size(t)
  {
    KeysAreInOrder(t);
    SizeIsInOrderLength(t);
    if t.right.Node? {
      var r := RotateLeft(t);
      KeysAreInOrder(r);
      SizeIsInOrderLength(r);
    }
    if t.left.Node? {
      var r := RotateRight(t);
      KeysAreInOrder(r);
      SizeIsInOrderLength(r);
    }
  }

  /** The two rotations undo each other. */
  lemma RotateRoundTrip(t: Tree)
    ensures t.Node? && t.right.Node? ==> RotateRight(RotateLeft(t)) == t
    ensures t.Node? && t.left.Node? ==> RotateLeft(RotateRight(t)) == t
  {
  }

}

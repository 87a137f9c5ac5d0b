/** `insert` of class `RBTree` with its descent, and the fix-up walk `fix`
    that restores the colour invariants.

    The source's loop variables (`prev` during the descent, `node` during the
    fix-up) become a focus and its context (module `Zipper`): moving `node` to
    `node.prev.prev` is dropping two frames of the context. */
module Insertion {
  import opened Optional
  import opened Nodes
  import opened Rotation
  import opened Zipper
  import opened TreeObject

  // ---------------------------------------------------------------------
  // Descent

  /** The descent loop of `insert`: from the focus `t` (placed at `ctx`) go right
      on a larger key and left on a smaller one until the sentinel slot where the
      new node is attached, whose context is returned; an equal key ends the
      walk with `None`. */
  function Descend(t: Tree, k: int, ctx: Ctx): (slot: Option<Ctx>)
    ensures slot.Some? ==> Plug(Nil, slot.value) == Plug(t, ctx)
    ensures slot.None? ==> k in Keys(t)
    decreases t
  {
    match t
    case Nil => Some(ctx)
    case Node(c, l, d, r) =>
      if k > d then Descend(r, k, Step(Right, c, d, l, ctx))
      else if k < d then Descend(l, k, Step(Left, c, d, r, ctx))
      else None
  }

  /** In a search tree the descent reports an equal key exactly when the key is
      stored, and otherwise stops at the one slot whose neighbours in key order
      are below and above the key. */
  lemma {:induction false} DescendInSearchTree(t: Tree, k: int, ctx: Ctx)
    requires IsSearchTree(Plug(t, ctx)) && Separates(ctx, k)
    ensures Descend(t, k, ctx).None? <==> k in Keys(t)
    ensures Descend(t, k, ctx).Some? ==> Separates(Descend(t, k, ctx).value, k)
    decreases t
  {
    match t
    case Nil =>
    case Node(c, l, d, r) =>
      PlugInOrder(t, ctx);
      IncreasingAppend(CtxLeft(ctx) + InOrder(t), CtxRight(ctx));
      IncreasingAppend(CtxLeft(ctx), InOrder(t));
      IncreasingAround(InOrder(l), d, InOrder(r));
      KeysAreInOrder(l);
      KeysAreInOrder(r);
      if k > d {
        var ctx' := Step(Right, c, d, l, ctx);
        assert Plug(r, ctx') == Plug(t, ctx);
        assert Separates(ctx', k) by {
          forall x | x in CtxLeft(ctx') ensures x < k {
            assert x in CtxLeft(ctx) || x in InOrder(l) || x == d;
          }
        }
        DescendInSearchTree(r, k, ctx');
      } else if k < d {
        var ctx' := Step(Left, c, d, r, ctx);
        assert Plug(l, ctx') == Plug(t, ctx);
        assert Separates(ctx', k) by {
          forall y | y in CtxRight(ctx') ensures k < y {
            assert y == d || y in InOrder(r) || y in CtxRight(ctx);
          }
        }
        DescendInSearchTree(l, k, ctx');
      }
  }

  /** Attaching the new key at a slot that separates it keeps the order, adds the
      key to the stored keys and adds one node. */
  lemma AttachAtSlot(k: int, slot: Ctx)
    requires IsSearchTree(Plug(Nil, slot)) && Separates(slot, k)
    ensures IsSearchTree(Plug(Node(Red, Nil, k, Nil), slot))
    ensures Keys(Plug(Node(Red, Nil, k, Nil), slot)) == Keys(Plug(Nil, slot)) + {k}
    ensures Size(Plug(Node(Red, Nil, k, Nil), slot)) == Size(Plug(Nil, slot)) + 1
    ensures k !in Keys(Plug(Nil, slot))
  {
    var before, after := Plug(Nil, slot), Plug(Node(Red, Nil, k, Nil), slot);
    var L, R := CtxLeft(slot), CtxRight(slot);
    assert InOrder(before) == L + R by {
      PlugInOrder(Nil, slot);
    }
    assert InOrder(after) == L + [k] + R by {
      PlugInOrder(Node(Red, Nil, k, Nil), slot);
    }
    InsertBetween(L, k, R);
    SameKeysPlusOne(before, after, k);
  }

  /** Two trees whose in-order keys differ by one new key `k`. */
  lemma SameKeysPlusOne(before: Tree, after: Tree, k: int)
    requires k !in InOrder(before)
    requires forall x :: x in InOrder(after) <==> x in InOrder(before) || x == k
    requires |InOrder(after)| == |InOrder(before)| + 1
    ensures Keys(after) == Keys(before) + {k} && k !in Keys(before)
    ensures Size(after) == Size(before) + 1
  {
    KeysAreInOrder(before);
    KeysAreInOrder(after);
    SizeIsInOrderLength(before);
    SizeIsInOrderLength(after);
    forall x | x in Keys(after) ensures x in Keys(before) + {k} {
      assert x in InOrder(after);
    }
    forall x | x in Keys(before) + {k} ensures x in Keys(after) {
      assert x in InOrder(after);
    }
  }

  /** A key strictly between the two halves of an increasing sequence can be put
      between them. */
  lemma InsertBetween(L: seq<int>, k: int, R: seq<int>)
    requires Increasing(L + R)
    requires forall x :: x in L ==> x < k
    requires forall y :: y in R ==> k < y
    ensures Increasing(L + [k] + R)
    ensures k !in L + R
    ensures forall x :: x in L + [k] + R <==> x in L + R || x == k
  {
    IncreasingAppend(L, R);
    IncreasingAround(L, k, R);
  }

  // ---------------------------------------------------------------------
  // The fix-up walk

  /** The uncle-red case: parent and uncle turn black, the grandparent red, and
      the walk continues from the grandparent. */
  function Recolor(parent: Tree, gside: Side, gdata: int, uncle: Tree): (g: Tree)
    ensures g.Node? && g.color == Red && g.data == gdata
    ensures forall c :: InOrder(g) == InOrder(Join(gside, c, gdata, parent, uncle))
  {
    Join(gside, Red, gdata, Paint(parent, Black), Paint(uncle, Black))
  }

  /** The uncle-black case on a grandparent whose `gside` child is the red
      `parent`, whose `pside` child is the node: an inner node is first rotated
      into the parent's place, then the new parent turns black, the grandparent
      red, and the grandparent is rotated toward the uncle. */
  function Restructure(parent: Tree, pside: Side, gside: Side, gdata: int, uncle: Tree): (r: Tree)
    requires parent.Node? && (if pside == Left then parent.left else parent.right).Node?
    ensures r.Node? && r.color == Black
    ensures forall c :: InOrder(r) == InOrder(Join(gside, c, gdata, parent, uncle))
  {
    if gside == Right then
      var top := if pside == Left then RotateRight(parent) else parent;
      RotateLeft(Node(Red, uncle, gdata, Paint(top, Black)))
    else
      var top := if pside == Right then RotateLeft(parent) else parent;
      RotateRight(Node(Red, Paint(top, Black), gdata, uncle))
  }

  /** `fix(node)`: while the node is not the root and its parent is red, apply the
      uncle-red, inner or outer case; then paint the root black. The result is
      the new root. A red parent is never the root when the root is black, so
      the grandparent exists; the source has no other guard for it. After an
      uncle-black case the node's parent is black and the loop test fails, so
      the model stops there. */
  function Fix(n: Tree, ctx: Ctx): (root: Tree)
    requires n.Node?
    requires RootFrameBlack(ctx)
    ensures root.Node? && root.color == Black
    decreases ctx
  {
    if ctx.Top? || ctx.color == Black then
      Paint(Plug(n, ctx), Black)
    else
      match ctx.up
      case Top => assert false; n
      case Step(gside, _, gdata, uncle, ggctx) =>
        var parent := Join(ctx.side, Red, ctx.data, n, ctx.sibling);
        RootFrameBlackUp(ctx);
        RootFrameBlackUp(ctx.up);
        if IsRed(uncle) then
          Fix(Recolor(parent, gside, gdata, uncle), ggctx)
        else
          Paint(Plug(Restructure(parent, ctx.side, gside, gdata, uncle), ggctx), Black)
  }

  /** The fix-up only recolours and rotates: the in-order keys of the whole tree
      are those it had with the new node attached. */
  lemma {:induction false} FixKeepsInOrder(n: Tree, ctx: Ctx)
    requires n.Node? && RootFrameBlack(ctx)
    ensures InOrder(Fix(n, ctx)) == InOrder(Plug(n, ctx))
    decreases ctx
  {
    if ctx.Top? || ctx.color == Black {
    } else {
      match ctx.up
      case Step(gside, gc, gdata, uncle, ggctx) =>
        var parent := Join(ctx.side, Red, ctx.data, n, ctx.sibling);
        assert Plug(n, ctx) == Plug(Join(gside, gc, gdata, parent, uncle), ggctx);
        if IsRed(uncle) {
          var g := Recolor(parent, gside, gdata, uncle);
          FixKeepsInOrder(g, ggctx);
          PlugSameInOrder(g, Join(gside, gc, gdata, parent, uncle), ggctx);
        } else {
          var r := Restructure(parent, ctx.side, gside, gdata, uncle);
          PlugSameInOrder(r, Join(gside, gc, gdata, parent, uncle), ggctx);
        }
    }
  }

  /** What holds at the top of each iteration of the fix-up loop: the node is
      red with black children and its subtree is a valid red-black subtree of
      the right black height; the only possible violation in the whole tree is
      a red parent of the node; the root is black unless it is the node. */
  ghost predicate FixInv(n: Tree, ctx: Ctx)
  {
    && n.Node? && n.color == Red
    && !IsRed(n.left) && !IsRed(n.right)
    && NoRedRed(n) && Balanced(n)
    && CtxNoRedRed(ctx, false)
    && CtxBalanced(ctx, BlackHeight(n))
    && RootFrameBlack(ctx)
  }

  /** The uncle-black case produces a black-topped valid subtree one black level
      above the node, so it fits where the black grandparent was. */
  lemma RestructureValid(n: Tree, pside: Side, pdata: int, psib: Tree, gside: Side, gdata: int, uncle: Tree)
    requires n.Node? && n.color == Red && !IsRed(n.left) && !IsRed(n.right)
    requires NoRedRed(n) && Balanced(n)
    requires NoRedRed(psib) && !IsRed(psib) && Balanced(psib) && BlackHeight(psib) == BlackHeight(n)
    requires NoRedRed(uncle) && !IsRed(uncle) && Balanced(uncle) && BlackHeight(uncle) == BlackHeight(n)
    ensures var r := Restructure(Join(pside, Red, pdata, n, psib), pside, gside, gdata, uncle);
      NoRedRed(r) && Balanced(r) && BlackHeight(r) == BlackHeight(n) + 1
  {
  }

  /** The uncle-red case re-establishes the loop invariant two levels up. */
  lemma RecolorKeepsInvariant(n: Tree, ctx: Ctx)
    requires FixInv(n, ctx)
    requires ctx.Step? && ctx.color == Red && ctx.up.Step? && IsRed(ctx.up.sibling)
    ensures FixInv(Recolor(Join(ctx.side, Red, ctx.data, n, ctx.sibling), ctx.up.side, ctx.up.data, ctx.up.sibling), ctx.up.up)
  {
    var Step(pside, _, pdata, psib, gctx) := ctx;
    var Step(gside, gc, gdata, uncle, ggctx) := gctx;
    var h := BlackHeight(n);
    assert NoRedRed(psib) && !IsRed(psib) && CtxNoRedRed(gctx, true);
    assert NoRedRed(uncle) && gc == Black && CtxNoRedRed(ggctx, false);
    assert Balanced(psib) && BlackHeight(psib) == h && CtxBalanced(gctx, h);
    assert Balanced(uncle) && BlackHeight(uncle) == h && CtxBalanced(ggctx, h + 1);
    var parent := Join(pside, Red, pdata, n, psib);
    assert BlackHeight(parent) == h by {
      if pside == Left { assert parent.left == n; } else { assert parent.left == psib; }
    }
    assert NoRedRed(Paint(parent, Black)) && Balanced(parent);
    PaintBlackKeeps(parent);
    PaintBlackKeeps(uncle);
    var g := Recolor(parent, gside, gdata, uncle);
    assert NoRedRed(g) && Balanced(g) && BlackHeight(g) == h + 1;
    RootFrameBlackUp(ctx);
    RootFrameBlackUp(gctx);
  }

  /** Starting from the invariant, the fix-up ends with a tree whose root is
      black, with no red node having a red child and equal black heights. */
  lemma {:induction false} FixRestores(n: Tree, ctx: Ctx)
    requires FixInv(n, ctx)
    ensures NoRedRed(Fix(n, ctx)) && Balanced(Fix(n, ctx)) && !IsRed(Fix(n, ctx))
    decreases ctx
  {
    if ctx.Top? || ctx.color == Black {
      PlugNoRedRed(n, ctx);
      PlugBalanced(n, ctx);
      PaintBlackKeeps(Plug(n, ctx));
    } else {
      match ctx.up
      case Step(gside, gc, gdata, uncle, ggctx) =>
        var parent := Join(ctx.side, Red, ctx.data, n, ctx.sibling);
        if IsRed(uncle) {
          RecolorKeepsInvariant(n, ctx);
          FixRestores(Recolor(parent, gside, gdata, uncle), ggctx);
        } else {
          var r := Restructure(parent, ctx.side, gside, gdata, uncle);
          var h := BlackHeight(n);
          assert NoRedRed(ctx.sibling) && !IsRed(ctx.sibling) && CtxNoRedRed(ctx.up, true);
          assert NoRedRed(uncle) && gc == Black && CtxNoRedRed(ggctx, false);
          assert Balanced(ctx.sibling) && BlackHeight(ctx.sibling) == h && CtxBalanced(ctx.up, h);
          assert Balanced(uncle) && BlackHeight(uncle) == h && CtxBalanced(ggctx, h + 1);
          RestructureValid(n, ctx.side, ctx.data, ctx.sibling, gside, gdata, uncle);
          PlugNoRedRed(r, ggctx);
          PlugBalanced(r, ggctx);
          PaintBlackKeeps(Plug(r, ggctx));
        }
    }
  }

  // ---------------------------------------------------------------------
  // insert

  /** `insert(data)`: the length goes up by one, the new red node with two
      sentinel children becomes the root of an empty tree or is attached where
      the descent stops, and the fix-up runs; an equal key undoes the increment
      and leaves the tree as it was. A red root would let the fix-up reach a red
      parent without a parent of its own, where the source fails. */
  function Insert(s: RBTree, k: int): (s': RBTree)
    requires !IsRed(s.root)
    ensures !IsRed(s'.root)
  {
    var length := s.length + 1;
    var newNode := Node(Red, Nil, k, Nil);
    if s.root.Nil? then
      RBTree(Fix(newNode, Top), length)
    else
      match Descend(s.root, k, Top)
      case None => RBTree(s.root, length - 1)
      case Some(slot) =>
        PlugRootColorAtSlot(s.root, slot);
        RBTree(Fix(newNode, slot), length)
  }

  /** The slot found by the descent keeps the root frame black. */
  lemma PlugRootColorAtSlot(root: Tree, slot: Ctx)
    requires root.Node? && !IsRed(root) && Plug(Nil, slot) == root
    ensures RootFrameBlack(slot)
  {
    if slot.Step? {
      PlugRootColor(Nil, slot);
    }
  }

  /** Inserting into an empty tree makes the new key a black root with two
      sentinel children, and the length one. */
  lemma InsertIntoEmpty(k: int)
    ensures Insert(Empty(), k) == RBTree(Node(Black, Nil, k, Nil), 1)
  {
  }

  /** Insertion keeps the search-tree order and adds exactly `k` to the stored keys. */
  lemma InsertKeys(s: RBTree, k: int)
    requires !IsRed(s.root) && IsSearchTree(s.root)
    ensures IsSearchTree(Insert(s, k).root)
    ensures Keys(Insert(s, k).root) == Keys(s.root) + {k}
    ensures Size(Insert(s, k).root) == Size(s.root) + (if k in Keys(s.root) then 0 else 1)
  {
    var t := s.root;
    var newNode := Node(Red, Nil, k, Nil);
    if t.Node? {
      DescendInSearchTree(t, k, Top);
      match Descend(t, k, Top)
      case None =>
      case Some(slot) =>
        PlugRootColorAtSlot(t, slot);
        AttachAtSlot(k, slot);
        FixKeepsInOrder(newNode, slot);
        SameInOrderSameKeys(Fix(newNode, slot), Plug(newNode, slot));
    }
  }

  lemma SameInOrderSameKeys(a: Tree, b: Tree)
    requires InOrder(a) == InOrder(b)
    ensures Keys(a) == Keys(b) && Size(a) == Size(b)
  {
    KeysAreInOrder(a);
    KeysAreInOrder(b);
    SizeIsInOrderLength(a);
    SizeIsInOrderLength(b);
    forall x | x in Keys(a) ensures x in Keys(b) {
      assert x in InOrder(a);
    }
    forall x | x in Keys(b) ensures x in Keys(a) {
      assert x in InOrder(b);
    }
  }

  /** Inserting a stored key changes nothing, neither the tree nor the length. */
  lemma InsertDuplicate(s: RBTree, k: int)
    requires !IsRed(s.root) && IsSearchTree(s.root) && k in Keys(s.root)
    ensures Insert(s, k) == s
  {
    DescendInSearchTree(s.root, k, Top);
  }

  /** The length goes up by one exactly when the key was absent. */
  lemma InsertLength(s: RBTree, k: int)
    requires !IsRed(s.root) && IsSearchTree(s.root)
    ensures Insert(s, k).length == s.length + (if k in Keys(s.root) then 0 else 1)
  {
    if s.root.Node? {
      DescendInSearchTree(s.root, k, Top);
    }
  }

  /** Insertion keeps the red-black invariants. */
  lemma InsertRedBlack(s: RBTree, k: int)
    requires IsRedBlack(s.root)
    ensures IsRedBlack(Insert(s, k).root)
  {
    InsertKeys(s, k);
    var t := s.root;
    var newNode := Node(Red, Nil, k, Nil);
    if t.Nil? {
      assert FixInv(newNode, Top);
      FixRestores(newNode, Top);
    } else {
      match Descend(t, k, Top)
      case None =>
      case Some(slot) =>
        PlugRootColorAtSlot(t, slot);
        PlugNoRedRed(Nil, slot);
        PlugBalanced(Nil, slot);
        assert FixInv(newNode, slot);
        FixRestores(newNode, slot);
    }
  }

  /** Insertion keeps the tree object valid, the length included. */
  lemma InsertValid(s: RBTree, k: int)
    requires Valid(s)
    ensures Valid(Insert(s, k))
    ensures Keys(Insert(s, k).root) == Keys(s.root) + {k}
  {
    InsertRedBlack(s, k);
    InsertKeys(s, k);
    InsertLength(s, k);
  }

}

/** The position of a node inside the whole tree.

    The source reaches a node's parent through its `prev` field and the root
    has `prev == None`. Here a focused subtree carries its context: `Top` is the
    root position, and `Step(side, color, data, sibling, up)` says the focus is
    the `side` child of a node with that colour and key whose other child is
    `sibling`, itself placed at `up`. The innermost `Step` is the parent, the
    one above it the grandparent, and so on. */
module Zipper {
  import opened Nodes

  datatype Ctx = Top | Step(side: Side, color: Color, data: int, sibling: Tree, up: Ctx)

  /** The node that has `x` as its `side` child and `sibling` as its other child. */
  function Join(side: Side, c: Color, d: int, x: Tree, sibling: Tree): (r: Tree)
    ensures r.Node? && r.color == c && r.data == d
    ensures (if side == Left then r.left else r.right) == x
    ensures (if side == Left then r.right else r.left) == sibling
  {
    if side == Left then Node(c, x, d, sibling) else Node(c, sibling, d, x)
  }

  /** Rebuild the whole tree with `x` at the focus. */
  function Plug(x: Tree, ctx: Ctx): (r: Tree)
    ensures r.Nil? <==> x.Nil? && ctx.Top?
    decreases ctx
  {
    match ctx
    case Top => x
    case Step(side, c, d, sib, up) => Plug(Join(side, c, d, x, sib), up)
  }

  /** In-order keys of the context left of the focus. */
  function CtxLeft(ctx: Ctx): seq<int>
    decreases ctx
  {
    match ctx
    case Top => []
    case Step(side, _, d, sib, up) =>
      if side == Left then CtxLeft(up) else CtxLeft(up) + InOrder(sib) + [d]
  }

  /** In-order keys of the context right of the focus. */
  function CtxRight(ctx: Ctx): seq<int>
    decreases ctx
  {
    match ctx
    case Top => []
    case Step(side, _, d, sib, up) =>
      if side == Left then [d] + InOrder(sib) + CtxRight(up) else CtxRight(up)
  }

  lemma {:induction false} PlugInOrder(x: Tree, ctx: Ctx)
    ensures InOrder(Plug(x, ctx)) == CtxLeft(ctx) + InOrder(x) + CtxRight(ctx)
    decreases ctx
  {
    match ctx
    case Top =>
    case Step(side, c, d, sib, up) =>
      var j := Join(side, c, d, x, sib);
      PlugInOrder(j, up);
      Regroup(CtxLeft(up), InOrder(x), InOrder(sib), CtxRight(up), d);
  }

  /** The two ways of splitting the keys around a focus one frame up. */
  lemma Regroup(L: seq<int>, X: seq<int>, S: seq<int>, R: seq<int>, d: int)
    ensures L + (X + [d] + S) + R == L + X + ([d] + S + R)
    ensures L + (S + [d] + X) + R == (L + S + [d]) + X + R
  {
  }

  /** Replacing the focus by a subtree with the same in-order keys keeps the
      in-order keys of the whole tree. */
  lemma PlugSameInOrder(x: Tree, y: Tree, ctx: Ctx)
    requires InOrder(x) == InOrder(y)
    ensures InOrder(Plug(x, ctx)) == InOrder(Plug(y, ctx))
  {
    PlugInOrder(x, ctx);
    PlugInOrder(y, ctx);
  }

  // ---------------------------------------------------------------------
  // The colour invariants, split between the focus and its context

  /** Every sibling hanging off the context is balanced, and has the black
      height of the subtree at its position when the focus has black height `h`. */
  ghost predicate CtxBalanced(ctx: Ctx, h: nat)
    decreases ctx
  {
    match ctx
    case Top => true
    case Step(_, c, _, sib, up) =>
      Balanced(sib) && BlackHeight(sib) == h && CtxBalanced(up, h + (if c == Black then 1 else 0))
  }

  /** No red-red edge in the context, given whether the focus is red. */
  ghost predicate CtxNoRedRed(ctx: Ctx, focusRed: bool)
    decreases ctx
  {
    match ctx
    case Top => true
    case Step(_, c, _, sib, up) =>
      && NoRedRed(sib)
      && (c == Red ==> !focusRed && !IsRed(sib))
      && CtxNoRedRed(up, c == Red)
  }

  /** The outermost frame (the root) is black; trivially true at the root itself. */
  predicate RootFrameBlack(ctx: Ctx)
    decreases ctx
  {
    match ctx
    case Top => true
    case Step(_, c, _, _, up) => if up.Top? then c == Black else RootFrameBlack(up)
  }

  /** Dropping the innermost frame keeps the root frame black. */
  lemma RootFrameBlackUp(ctx: Ctx)
    requires ctx.Step? && RootFrameBlack(ctx)
    ensures RootFrameBlack(ctx.up)
  {
  }

  lemma {:induction false} PlugBalanced(x: Tree, ctx: Ctx)
    ensures Balanced(Plug(x, ctx)) <==> Balanced(x) && CtxBalanced(ctx, BlackHeight(x))
    decreases ctx
  {
    match ctx
    case Top =>
    case Step(side, c, d, sib, up) =>
      PlugBalanced(Join(side, c, d, x, sib), up);
  }

  lemma {:induction false} PlugNoRedRed(x: Tree, ctx: Ctx)
    ensures NoRedRed(Plug(x, ctx)) <==> NoRedRed(x) && CtxNoRedRed(ctx, IsRed(x))
    decreases ctx
  {
    match ctx
    case Top =>
    case Step(side, c, d, sib, up) =>
      PlugNoRedRed(Join(side, c, d, x, sib), up);
  }

  lemma {:induction false} PlugRootColor(x: Tree, ctx: Ctx)
    requires ctx.Step?
    ensures ColorOf(Plug(x, ctx)) == Black <==> RootFrameBlack(ctx)
    decreases ctx
  {
    match ctx
    case Step(side, c, d, sib, up) =>
      if up.Step? {
        PlugRootColor(Join(side, c, d, x, sib), up);
      }
  }

  // ---------------------------------------------------------------------
  // Descending toward a key

  /** Every context key left of the focus is below `k` and every one right of it above. */
  ghost predicate Separates(ctx: Ctx, k: int)
  {
    (forall x :: x in CtxLeft(ctx) ==> x < k) && (forall y :: y in CtxRight(ctx) ==> k < y)
  }

}

/** The node objects of the source as an arena, and `rotate_left` /
    `rotate_right` as the pointer surgery the source performs on them.

    Object identity becomes a `NodeId`; the tree's one sentinel object has the
    reserved id `NIL`. A cell holds the fields of a node object: `data`, `left`,
    `right`, `prev` (`None` for the root) and `red`. `Layout` says which tree
    value a cell and everything below it lays out, so that the surgery can be
    compared with the value-level rotations of module `Rotation`. */
module Arena {
  import opened Optional
  import opened Nodes
  import Rotation

  type NodeId = nat

  /** The id of the tree's sentinel object. */
  const NIL: NodeId := 0

  datatype Cell = Cell(data: int, left: NodeId, right: NodeId, prev: Option<NodeId>, red: bool)

  /** The pointer graph of one tree object: every node object, `_root`, and
      the tree's `length` counter. */
  datatype Heap = Heap(cells: map<NodeId, Cell>, root: NodeId, length: int)

  function Opposite(s: Side): Side
  {
    if s == Left then Right else Left
  }

  function Child(c: Cell, s: Side): NodeId
  {
    if s == Left then c.left else c.right
  }

  function WithChild(c: Cell, s: Side, v: NodeId): (c': Cell)
    ensures Child(c', s) == v && Child(c', Opposite(s)) == Child(c, Opposite(s))
    ensures c'.data == c.data && c'.prev == c.prev && c'.red == c.red
  {
    if s == Left then c.(left := v) else c.(right := v)
  }

  /** The fields of `c` name allocated objects, and its parent (if any) is not
      the sentinel: the source only ever stores real nodes or `None` in `prev`. */
  ghost predicate PointsInto(cells: map<NodeId, Cell>, c: Cell)
  {
    && c.left in cells
    && c.right in cells
    && (c.prev.Some? ==> c.prev.value in cells && c.prev.value != NIL)
  }

  ghost predicate Linked(cells: map<NodeId, Cell>)
  {
    NIL in cells && forall j :: j in cells && j != NIL ==> PointsInto(cells, cells[j])
  }

  /** Every pointer of the tree object names an allocated object. */
  ghost predicate Allocated(h: Heap)
  {
    Linked(h.cells) && h.root in h.cells
  }

  /** Overwrite the links of the real node `j`; keys and colours stay. Only real
      nodes are ever written, so the sentinel object stays as it was. */
  function Put(cells: map<NodeId, Cell>, j: NodeId, c: Cell): (cells': map<NodeId, Cell>)
    requires Linked(cells) && j in cells && j != NIL && PointsInto(cells, c)
    requires c.data == cells[j].data && c.red == cells[j].red
    ensures Linked(cells') && cells'.Keys == cells.Keys
    ensures cells'[j] == c
    ensures forall i :: i in cells && i != j ==> cells'[i] == cells[i]
    ensures forall i :: i in cells ==> cells'[i].data == cells[i].data && cells'[i].red == cells[i].red
  {
    cells[j := c]
  }

  /** Lines of `rotate_*` up to the first parent update: the pivot `x` takes
      the inner subtree of its rising child `y` in `y`'s place, and that
      subtree's root, unless it is the sentinel, takes `x` as its parent. */
  function MoveInner(cells: map<NodeId, Cell>, x: NodeId, dir: Side): (cells': map<NodeId, Cell>)
    requires Linked(cells) && x in cells && x != NIL
    requires Child(cells[x], Opposite(dir)) != NIL
    ensures Linked(cells') && cells'.Keys == cells.Keys
    ensures forall i :: i in cells ==> cells'[i].data == cells[i].data && cells'[i].red == cells[i].red
    ensures cells'[NIL] == cells[NIL]
  {
    var y := Child(cells[x], Opposite(dir));
    var c1 := Put(cells, x, WithChild(cells[x], Opposite(dir), Child(cells[y], dir)));
    var b := Child(c1[x], Opposite(dir));
    if b != NIL then Put(c1, b, c1[b].(prev := Some(x))) else c1
  }

  /** The rising child `y` takes the pivot's parent; the parent's slot that holds
      the pivot (the right one if it is the pivot, else the left one) now holds
      `y`, or `y` becomes the root when there is no parent. */
  function Reparent(h: Heap, x: NodeId, y: NodeId): (h': Heap)
    requires Allocated(h) && x in h.cells && x != NIL && y in h.cells && y != NIL
    ensures Allocated(h') && h'.cells.Keys == h.cells.Keys
    ensures forall i :: i in h.cells ==> h'.cells[i].data == h.cells[i].data && h'.cells[i].red == h.cells[i].red
    ensures h'.cells[NIL] == h.cells[NIL]
    ensures h'.root == if h.cells[x].prev.None? then y else h.root
    ensures h'.length == h.length
  {
    var c3 := Put(h.cells, y, h.cells[y].(prev := h.cells[x].prev));
    match c3[y].prev
    case None => h.(cells := c3, root := y)
    case Some(p) =>
      if x == c3[p].right then h.(cells := Put(c3, p, c3[p].(right := y)))
      else h.(cells := Put(c3, p, c3[p].(left := y)))
  }

  /** `rotate_right(x)` when `dir == Right` and `rotate_left(x)` when `dir == Left`:
      the pivot `x` goes down toward `dir` and its child `y` on the other side
      comes up. Each update reads the objects as the previous ones left them.
      The source dereferences `y`, so `y` must be a real node. No object is
      allocated or dropped, no key or colour changes, the sentinel is never
      written, and neither is the node count. */
  function Rotate(h: Heap, x: NodeId, dir: Side): (h': Heap)
    requires Allocated(h) && x in h.cells && x != NIL
    requires Child(h.cells[x], Opposite(dir)) != NIL
    ensures Allocated(h')
    ensures h'.length == h.length
    ensures h'.cells.Keys == h.cells.Keys
    ensures forall j :: j in h.cells ==> h'.cells[j].data == h.cells[j].data && h'.cells[j].red == h.cells[j].red
    ensures h'.cells[NIL] == h.cells[NIL]
  {
    var y := Child(h.cells[x], Opposite(dir));
    var c2 := MoveInner(h.cells, x, dir);
    var h4 := Reparent(h.(cells := c2), x, y);
    var c5 := Put(h4.cells, y, WithChild(h4.cells[y], dir, x));
    var c6 := Put(c5, x, c5[x].(prev := Some(y)));
    h4.(cells := c6)
  }

  /** `rotate_right(x)`: the left child of `x` rises. */
  function RotateRight(h: Heap, x: NodeId): (h': Heap)
    requires Allocated(h) && x in h.cells && x != NIL && h.cells[x].left != NIL
    ensures Allocated(h') && h'.cells.Keys == h.cells.Keys
    ensures h'.length == h.length
    ensures forall j :: j in h.cells ==> h'.cells[j].data == h.cells[j].data && h'.cells[j].red == h.cells[j].red
    ensures h'.cells[NIL] == h.cells[NIL]
  {
    Rotate(h, x, Right)
  }

  /** `rotate_left(x)`: the right child of `x` rises. */
  function RotateLeft(h: Heap, x: NodeId): (h': Heap)
    requires Allocated(h) && x in h.cells && x != NIL && h.cells[x].right != NIL
    ensures Allocated(h') && h'.cells.Keys == h.cells.Keys
    ensures h'.length == h.length
    ensures forall j :: j in h.cells ==> h'.cells[j].data == h.cells[j].data && h'.cells[j].red == h.cells[j].red
    ensures h'.cells[NIL] == h.cells[NIL]
  {
    Rotate(h, x, Left)
  }

  // ---------------------------------------------------------------------
  // What a rotation does to each object

  /** The effect of each stage of `Rotate` on the objects it writes, when the
      pivot, the rising child and the moving subtree's root are distinct. */
  lemma MoveInnerCells(cells: map<NodeId, Cell>, x: NodeId, dir: Side)
    requires Linked(cells) && x in cells && x != NIL
    requires Child(cells[x], Opposite(dir)) != NIL
    requires Child(cells[Child(cells[x], Opposite(dir))], dir) != x
    ensures var y := Child(cells[x], Opposite(dir));
      var b := Child(cells[y], dir);
      var c2 := MoveInner(cells, x, dir);
      && c2[x] == WithChild(cells[x], Opposite(dir), b)
      && (b != NIL ==> c2[b] == cells[b].(prev := Some(x)))
      && (forall j :: j in cells && j != x && j != b ==> c2[j] == cells[j])
  {
  }

  lemma ReparentCells(h: Heap, x: NodeId, y: NodeId)
    requires Allocated(h) && x in h.cells && x != NIL && y in h.cells && y != NIL
    requires y != x && h.cells[x].prev != Some(y)
    ensures var h' := Reparent(h, x, y);
      && h'.cells[y] == h.cells[y].(prev := h.cells[x].prev)
      && (h.cells[x].prev.Some? ==>
            var p := h.cells[x].prev.value;
            h'.cells[p] == if h.cells[p].right == x then h.cells[p].(right := y) else h.cells[p].(left := y))
      && (forall j :: j in h.cells && j != y && h.cells[x].prev != Some(j) ==> h'.cells[j] == h.cells[j])
      && h'.root == if h.cells[x].prev.None? then y else h.root
  {
  }

  lemma FinishCells(cells: map<NodeId, Cell>, x: NodeId, y: NodeId, dir: Side)
    requires Linked(cells) && x in cells && x != NIL && y in cells && y != NIL && x != y
    ensures var c5 := Put(cells, y, WithChild(cells[y], dir, x));
      var c6 := Put(c5, x, c5[x].(prev := Some(y)));
      && c6[x] == cells[x].(prev := Some(y))
      && c6[y] == WithChild(cells[y], dir, x)
      && (forall j :: j in cells && j != x && j != y ==> c6[j] == cells[j])
  {
  }

  /** With the pivot, the rising child `y`, the moving subtree's root `b` and
      the parent all distinct, a rotation changes no object but these four:
      the pivot takes `b` and has `y` as parent, `y` takes the pivot and the
      pivot's old parent, and `b` (when real) has the pivot as parent. */
  lemma RotateCells(h: Heap, x: NodeId, dir: Side)
    requires Allocated(h) && x in h.cells && x != NIL
    requires Child(h.cells[x], Opposite(dir)) != NIL
    requires var y := Child(h.cells[x], Opposite(dir));
      var b := Child(h.cells[y], dir);
      && y != x && b != x && b != y
      && (h.cells[x].prev.Some? ==> h.cells[x].prev.value !in {x, y, b})
    ensures var y := Child(h.cells[x], Opposite(dir));
      var b := Child(h.cells[y], dir);
      var h' := Rotate(h, x, dir);
      && h'.cells[x] == WithChild(h.cells[x], Opposite(dir), b).(prev := Some(y))
      && h'.cells[y] == WithChild(h.cells[y], dir, x).(prev := h.cells[x].prev)
      && (b != NIL ==> h'.cells[b] == h.cells[b].(prev := Some(x)))
  {
    var y := Child(h.cells[x], Opposite(dir));
    var c2 := MoveInner(h.cells, x, dir);
    MoveInnerCells(h.cells, x, dir);
    var h4 := Reparent(h.(cells := c2), x, y);
    ReparentCells(h.(cells := c2), x, y);
    FinishCells(h4.cells, x, y, dir);
  }

  /** A rotation leaves every object but those four as it was. */
  lemma RotateOthers(h: Heap, x: NodeId, dir: Side)
    requires Allocated(h) && x in h.cells && x != NIL
    requires Child(h.cells[x], Opposite(dir)) != NIL
    requires var y := Child(h.cells[x], Opposite(dir));
      var b := Child(h.cells[y], dir);
      && y != x && b != x && b != y
      && (h.cells[x].prev.Some? ==> h.cells[x].prev.value !in {x, y, b})
    ensures var y := Child(h.cells[x], Opposite(dir));
      var b := Child(h.cells[y], dir);
      var h' := Rotate(h, x, dir);
      forall j :: j in h.cells && j != x && j != y && j != b && h.cells[x].prev != Some(j) ==>
        h'.cells[j] == h.cells[j]
  {
    var y := Child(h.cells[x], Opposite(dir));
    var c2 := MoveInner(h.cells, x, dir);
    MoveInnerCells(h.cells, x, dir);
    var h4 := Reparent(h.(cells := c2), x, y);
    ReparentCells(h.(cells := c2), x, y);
    FinishCells(h4.cells, x, y, dir);
  }

  /** The other half of a rotation's effect: the parent's slot that held the
      pivot (the right one if it is the pivot, else the left one) now holds the
      risen child `y`, and `y` becomes the root when there is no parent. */
  lemma RotateParent(h: Heap, x: NodeId, dir: Side)
    requires Allocated(h) && x in h.cells && x != NIL
    requires Child(h.cells[x], Opposite(dir)) != NIL
    requires var y := Child(h.cells[x], Opposite(dir));
      var b := Child(h.cells[y], dir);
      && y != x && b != x && b != y
      && (h.cells[x].prev.Some? ==> h.cells[x].prev.value !in {x, y, b})
    ensures var y := Child(h.cells[x], Opposite(dir));
      var h' := Rotate(h, x, dir);
      && (h.cells[x].prev.Some? ==>
            var p := h.cells[x].prev.value;
            h'.cells[p] == if h.cells[p].right == x then h.cells[p].(right := y) else h.cells[p].(left := y))
      && h'.root == if h.cells[x].prev.None? then y else h.root
  {
    var y := Child(h.cells[x], Opposite(dir));
    var c2 := MoveInner(h.cells, x, dir);
    MoveInnerCells(h.cells, x, dir);
    var h4 := Reparent(h.(cells := c2), x, y);
    ReparentCells(h.(cells := c2), x, y);
    FinishCells(h4.cells, x, y, dir);
  }

  /** `RotateCells` for `rotate_right`, field by field. */
  lemma RotateRightCells(h: Heap, x: NodeId)
    requires Allocated(h) && x in h.cells && x != NIL && h.cells[x].left != NIL
    requires var y := h.cells[x].left;
      var b := h.cells[y].right;
      && y != x && b != x && b != y
      && (h.cells[x].prev.Some? ==> h.cells[x].prev.value !in {x, y, b})
    ensures var y := h.cells[x].left;
      var b := h.cells[y].right;
      var h' := RotateRight(h, x);
      && h'.cells.Keys == h.cells.Keys
      && h'.cells[x] == h.cells[x].(left := b).(prev := Some(y))
      && h'.cells[y] == h.cells[y].(right := x).(prev := h.cells[x].prev)
      && (b != NIL ==> h'.cells[b] == h.cells[b].(prev := Some(x)))
      && (forall j :: j in h.cells && j != x && j != y && j != b && h.cells[x].prev != Some(j) ==>
            h'.cells[j] == h.cells[j])
      && (h.cells[x].prev.Some? ==>
            var p := h.cells[x].prev.value;
            h'.cells[p] == (if h.cells[p].right == x then h.cells[p].(right := y) else h.cells[p].(left := y)))
      && h'.root == (if h.cells[x].prev.None? then y else h.root)
      && h'.length == h.length
  {
    RotateCells(h, x, Right);
    RotateOthers(h, x, Right);
    RotateParent(h, x, Right);
  }

  /** `RotateCells` for `rotate_left`, field by field. */
  lemma RotateLeftCells(h: Heap, x: NodeId)
    requires Allocated(h) && x in h.cells && x != NIL && h.cells[x].right != NIL
    requires var y := h.cells[x].right;
      var b := h.cells[y].left;
      && y != x && b != x && b != y
      && (h.cells[x].prev.Some? ==> h.cells[x].prev.value !in {x, y, b})
    ensures var y := h.cells[x].right;
      var b := h.cells[y].left;
      var h' := RotateLeft(h, x);
      && h'.cells.Keys == h.cells.Keys
      && h'.cells[x] == h.cells[x].(right := b).(prev := Some(y))
      && h'.cells[y] == h.cells[y].(left := x).(prev := h.cells[x].prev)
      && (b != NIL ==> h'.cells[b] == h.cells[b].(prev := Some(x)))
      && (forall j :: j in h.cells && j != x && j != y && j != b && h.cells[x].prev != Some(j) ==>
            h'.cells[j] == h.cells[j])
      && (h.cells[x].prev.Some? ==>
            var p := h.cells[x].prev.value;
            h'.cells[p] == (if h.cells[p].right == x then h.cells[p].(right := y) else h.cells[p].(left := y)))
      && h'.root == (if h.cells[x].prev.None? then y else h.root)
      && h'.length == h.length
  {
    RotateCells(h, x, Left);
    RotateOthers(h, x, Left);
    RotateParent(h, x, Left);
  }

  // ---------------------------------------------------------------------
  // Which tree value the objects lay out

  /** A non-sentinel `j` has `i` as its parent; the sentinel's parent is not
      asked about, since the source never writes it. */
  ghost predicate ParentIs(h: Heap, j: NodeId, i: NodeId)
  {
    j != NIL ==> j in h.cells && h.cells[j].prev == Some(i)
  }

  /** The ids of the objects that lay out `t` from `i` down. */
  function Ids(h: Heap, i: NodeId, t: Tree): (ids: set<NodeId>)
    ensures ids <= h.cells.Keys
    decreases t
  {
    match t
    case Nil => {}
    case Node(_, l, _, r) =>
      if i in h.cells then {i} + Ids(h, h.cells[i].left, l) + Ids(h, h.cells[i].right, r) else {}
  }

  /** The object `i` and those below it lay out `t`: keys and colours agree,
      the sentinel stands for every empty child, children point back at their
      parent, and no object is used twice. */
  ghost predicate Layout(h: Heap, i: NodeId, t: Tree)
    decreases t
  {
    match t
    case Nil => i == NIL
    case Node(c, l, d, r) =>
      && i != NIL && i in h.cells
      && h.cells[i].data == d && h.cells[i].red == (c == Red)
      && Layout(h, h.cells[i].left, l) && Layout(h, h.cells[i].right, r)
      && ParentIs(h, h.cells[i].left, i) && ParentIs(h, h.cells[i].right, i)
      && i !in Ids(h, h.cells[i].left, l) && i !in Ids(h, h.cells[i].right, r)
      && Ids(h, h.cells[i].left, l) !! Ids(h, h.cells[i].right, r)
  }

  /** A laid-out subtree uses exactly one real object per node. */
  lemma {:induction false} LayoutIds(h: Heap, i: NodeId, t: Tree)
    requires Layout(h, i, t)
    ensures NIL !in Ids(h, i, t)
    ensures Ids(h, i, t) <= h.cells.Keys
    ensures |Ids(h, i, t)| == Size(t)
    ensures t.Node? ==> i in Ids(h, i, t)
    decreases t
  {
    if t.Node? {
      var c := h.cells[i];
      LayoutIds(h, c.left, t.left);
      LayoutIds(h, c.right, t.right);
      var L, R := Ids(h, c.left, t.left), Ids(h, c.right, t.right);
      assert |{i} + L| == 1 + |L|;
      assert |({i} + L) + R| == |{i} + L| + |R|;
    }
  }

  /** A layout depends only on the objects it uses, and on the root object's
      fields other than its parent pointer. */
  lemma {:induction false} LayoutFrame(h: Heap, h': Heap, i: NodeId, t: Tree)
    requires Layout(h, i, t)
    requires forall j :: j in Ids(h, i, t) && j != i ==> j in h'.cells && h'.cells[j] == h.cells[j]
    requires t.Node? ==> i in h'.cells && h'.cells[i] == h.cells[i].(prev := h'.cells[i].prev)
    ensures Layout(h', i, t)
    ensures Ids(h', i, t) == Ids(h, i, t)
    decreases t
  {
    if t.Node? {
      var c := h.cells[i];
      var L, R := Ids(h, c.left, t.left), Ids(h, c.right, t.right);
      assert Ids(h, i, t) == {i} + L + R;
      LayoutIds(h, c.left, t.left);
      LayoutIds(h, c.right, t.right);
      LayoutFrame(h, h', c.left, t.left);
      LayoutFrame(h, h', c.right, t.right);
      assert ParentIs(h', c.left, i) by {
        if c.left != NIL {
          assert c.left in L;
        }
      }
      assert ParentIs(h', c.right, i) by {
        if c.right != NIL {
          assert c.right in R;
        }
      }
    }
  }

  // ---------------------------------------------------------------------
  // The surgery lays out the value-level rotation

  /** One node of a layout: its children lay out its subtrees with disjoint
      objects that avoid it and the sentinel, and its objects are those. */
  lemma LayoutNode(h: Heap, i: NodeId, t: Tree)
    requires Layout(h, i, t) && t.Node?
    ensures var l, r := h.cells[i].left, h.cells[i].right;
      var L, R := Ids(h, l, t.left), Ids(h, r, t.right);
      && i != NIL && i in h.cells
      && Layout(h, l, t.left) && Layout(h, r, t.right)
      && ParentIs(h, l, i) && ParentIs(h, r, i)
      && Ids(h, i, t) == {i} + L + R
      && i !in L && i !in R && L !! R && NIL !in L && NIL !in R
      && (l != NIL ==> l in L) && (r != NIL ==> r in R)
  {
    LayoutIds(h, h.cells[i].left, t.left);
    LayoutIds(h, h.cells[i].right, t.right);
  }

  /** The objects of a rotated layout, regrouped. */
  lemma RegroupIds(x: NodeId, y: NodeId, IA: set<NodeId>, IB: set<NodeId>, IC: set<NodeId>)
    ensures {y} + IA + ({x} + IB + IC) == {x} + {y} + IA + IB + IC
    ensures {y} + ({x} + IC + IB) + IA == {x} + {y} + IA + IB + IC
  {
  }

  /** The converse of `LayoutNode`: a real object whose children lay out
      disjoint subtrees avoiding it, and point back at it, lays out the node. */
  lemma LayoutJoin(h: Heap, i: NodeId, t: Tree)
    requires t.Node? && i != NIL && i in h.cells
    requires h.cells[i].data == t.data && h.cells[i].red == (t.color == Red)
    requires var l, r := h.cells[i].left, h.cells[i].right;
      && Layout(h, l, t.left) && Layout(h, r, t.right)
      && ParentIs(h, l, i) && ParentIs(h, r, i)
      && i !in Ids(h, l, t.left) && i !in Ids(h, r, t.right)
      && Ids(h, l, t.left) !! Ids(h, r, t.right)
    ensures Layout(h, i, t)
    ensures Ids(h, i, t) == {i} + Ids(h, h.cells[i].left, t.left) + Ids(h, h.cells[i].right, t.right)
  {
  }

  /** A subtree that holds neither the pivot `x`, nor the rising child `y`,
      nor the pivot's parent `p`, and holds the moving subtree's root `b` at
      most as its own root, keeps its layout across a rotation that changes
      nothing else but `b`'s parent pointer. */
  lemma KeptAcrossRotation(h: Heap, h': Heap, x: NodeId, y: NodeId, b: NodeId, p: Option<NodeId>, i: NodeId, t: Tree)
    requires Layout(h, i, t)
    requires forall j :: j in h.cells && j != x && j != y && j != b && p != Some(j) ==>
      j in h'.cells && h'.cells[j] == h.cells[j]
    requires x !in Ids(h, i, t) && y !in Ids(h, i, t) && (p.Some? ==> p.value !in Ids(h, i, t))
    requires b in Ids(h, i, t) ==> b == i && b in h'.cells && h'.cells[b] == h.cells[b].(prev := h'.cells[b].prev)
    ensures Layout(h', i, t)
    ensures Ids(h', i, t) == Ids(h, i, t)
  {
    LayoutIds(h, i, t);
    LayoutFrame(h, h', i, t);
  }

  /** The pieces of a layout `t = Node(x: Node(y: A, B), C)` about to be
      rotated right: the objects of `A`, `B` and `C` are pairwise disjoint and
      avoid `x` and `y`, and `B`'s root is one of `B`'s objects when real. */
  lemma RightParts(h: Heap, x: NodeId, t: Tree)
    requires Layout(h, x, t) && t.Node? && t.left.Node?
    ensures var y := h.cells[x].left;
      && y != NIL && y in h.cells && y != x
      && var a, b, g := h.cells[y].left, h.cells[y].right, h.cells[x].right;
      var IA, IB, IC := Ids(h, a, t.left.left), Ids(h, b, t.left.right), Ids(h, g, t.right);
      && Layout(h, a, t.left.left) && Layout(h, b, t.left.right) && Layout(h, g, t.right)
      && ParentIs(h, a, y) && ParentIs(h, g, x)
      && Ids(h, x, t) == {x} + {y} + IA + IB + IC
      && x !in IA + IB + IC && y !in IA + IB + IC
      && IA !! IB && IA !! IC && IB !! IC
      && (a != NIL ==> a in IA) && (b != NIL ==> b in IB) && (g != NIL ==> g in IC)
      && NIL !in IA + IB + IC
  {
    LayoutNode(h, x, t);
    LayoutNode(h, h.cells[x].left, t.left);
  }

  /** The pieces of a layout `t = Node(x: A, Node(y: B, C))` about to be
      rotated left, the mirror image of `RightParts`. */
  lemma LeftParts(h: Heap, x: NodeId, t: Tree)
    requires Layout(h, x, t) && t.Node? && t.right.Node?
    ensures var y := h.cells[x].right;
      && y != NIL && y in h.cells && y != x
      && var a, b, g := h.cells[y].right, h.cells[y].left, h.cells[x].left;
      var IA, IB, IC := Ids(h, a, t.right.right), Ids(h, b, t.right.left), Ids(h, g, t.left);
      && Layout(h, a, t.right.right) && Layout(h, b, t.right.left) && Layout(h, g, t.left)
      && ParentIs(h, a, y) && ParentIs(h, g, x)
      && Ids(h, x, t) == {x} + {y} + IA + IB + IC
      && x !in IA + IB + IC && y !in IA + IB + IC
      && IA !! IB && IA !! IC && IB !! IC
      && (a != NIL ==> a in IA) && (b != NIL ==> b in IB) && (g != NIL ==> g in IC)
      && NIL !in IA + IB + IC
  {
    LayoutNode(h, x, t);
    LayoutNode(h, h.cells[x].right, t.right);
  }


  /** The subtrees that a `rotate_right(x)` carries along keep their layout in
      objects that differ from `h` only as the rotation leaves them. */
  lemma RightFrame(h: Heap, h': Heap, x: NodeId, t: Tree)
    requires Allocated(h) && x in h.cells && x != NIL && h.cells[x].left != NIL
    requires var y := h.cells[x].left;
      var b := h.cells[y].right;
      && h'.cells.Keys == h.cells.Keys
      && h'.cells[x] == h.cells[x].(left := b).(prev := Some(y))
      && h'.cells[y] == h.cells[y].(right := x).(prev := h.cells[x].prev)
      && (b != NIL ==> h'.cells[b] == h.cells[b].(prev := Some(x)))
      && (forall j :: j in h.cells && j != x && j != y && j != b && h.cells[x].prev != Some(j) ==>
            h'.cells[j] == h.cells[j])
    requires t.Node? && t.left.Node? && Layout(h, x, t)
    requires h.cells[x].prev.Some? ==> h.cells[x].prev.value !in Ids(h, x, t)
    ensures var y := h.cells[x].left;
      var a, b, g := h.cells[y].left, h.cells[y].right, h.cells[x].right;
      && Layout(h', a, t.left.left) && Layout(h', b, t.left.right) && Layout(h', g, t.right)
      && Ids(h', a, t.left.left) == Ids(h, a, t.left.left)
      && Ids(h', b, t.left.right) == Ids(h, b, t.left.right)
      && Ids(h', g, t.right) == Ids(h, g, t.right)
      && ParentIs(h', a, y) && ParentIs(h', b, x) && ParentIs(h', g, x)
  {
    RightParts(h, x, t);
    var cx := h.cells[x];
    var y := cx.left;
    var b := h.cells[y].right;
    KeptAcrossRotation(h, h', x, y, b, cx.prev, h.cells[y].left, t.left.left);
    KeptAcrossRotation(h, h', x, y, b, cx.prev, b, t.left.right);
    KeptAcrossRotation(h, h', x, y, b, cx.prev, cx.right, t.right);
  }

  /** Objects laid out as the pieces of `Rotation.RotateRight(t)` and linked as it
      links them lay out `Rotation.RotateRight(t)`. */
  lemma RightJoin(h: Heap, x: NodeId, y: NodeId, t: Tree)
    requires t.Node? && t.left.Node?
    requires x != NIL && x in h.cells && y != NIL && y in h.cells && x != y
    requires h.cells[x].data == t.data && h.cells[x].red == (t.color == Red)
    requires h.cells[y].data == t.left.data && h.cells[y].red == (t.left.color == Red)
    requires h.cells[y].right == x && h.cells[x].prev == Some(y)
    requires var a, b, g := h.cells[y].left, h.cells[x].left, h.cells[x].right;
      var IA, IB, IC := Ids(h, a, t.left.left), Ids(h, b, t.left.right), Ids(h, g, t.right);
      && Layout(h, a, t.left.left) && Layout(h, b, t.left.right) && Layout(h, g, t.right)
      && ParentIs(h, a, y) && ParentIs(h, b, x) && ParentIs(h, g, x)
      && x !in IA + IB + IC && y !in IA + IB + IC
      && IA !! IB && IA !! IC && IB !! IC
    ensures Layout(h, y, Rotation.RotateRight(t))
    ensures var a, b, g := h.cells[y].left, h.cells[x].left, h.cells[x].right;
      Ids(h, y, Rotation.RotateRight(t)) == {x} + {y} + Ids(h, a, t.left.left) + Ids(h, b, t.left.right) + Ids(h, g, t.right)
  {
    var a, b, g := h.cells[y].left, h.cells[x].left, h.cells[x].right;
    var IA, IB, IC := Ids(h, a, t.left.left), Ids(h, b, t.left.right), Ids(h, g, t.right);
    var X' := Node(t.color, t.left.right, t.data, t.right);
    LayoutJoin(h, x, X');
    assert Ids(h, x, X') == {x} + IB + IC;
    var Y' := Node(t.left.color, t.left.left, t.left.data, X');
    LayoutJoin(h, y, Y');
    assert Ids(h, y, Y') == {y} + IA + ({x} + IB + IC);
    RegroupIds(x, y, IA, IB, IC);
  }

  /** Any objects that differ from a layout of `t` only as `rotate_right(x)`
      leaves them lay out `Rotation.RotateRight(t)` from the risen child, with the
      same objects. */
  lemma RightSurgery(h: Heap, h': Heap, x: NodeId, t: Tree)
    requires Allocated(h) && x in h.cells && x != NIL && h.cells[x].left != NIL
    requires var y := h.cells[x].left;
      var b := h.cells[y].right;
      && h'.cells.Keys == h.cells.Keys
      && h'.cells[x] == h.cells[x].(left := b).(prev := Some(y))
      && h'.cells[y] == h.cells[y].(right := x).(prev := h.cells[x].prev)
      && (b != NIL ==> h'.cells[b] == h.cells[b].(prev := Some(x)))
      && (forall j :: j in h.cells && j != x && j != y && j != b && h.cells[x].prev != Some(j) ==>
            h'.cells[j] == h.cells[j])
    requires t.Node? && t.left.Node? && Layout(h, x, t)
    requires h.cells[x].prev.Some? ==> h.cells[x].prev.value !in Ids(h, x, t)
    ensures Layout(h', h.cells[x].left, Rotation.RotateRight(t))
    ensures Ids(h', h.cells[x].left, Rotation.RotateRight(t)) == Ids(h, x, t)
  {
    RightParts(h, x, t);
    RightFrame(h, h', x, t);
    RightJoin(h', x, h.cells[x].left, t);
  }

  /** The subtrees that a `rotate_left(x)` carries along keep their layout in
      objects that differ from `h` only as the rotation leaves them. */
  lemma LeftFrame(h: Heap, h': Heap, x: NodeId, t: Tree)
    requires Allocated(h) && x in h.cells && x != NIL && h.cells[x].right != NIL
    requires var y := h.cells[x].right;
      var b := h.cells[y].left;
      && h'.cells.Keys == h.cells.Keys
      && h'.cells[x] == h.cells[x].(right := b).(prev := Some(y))
      && h'.cells[y] == h.cells[y].(left := x).(prev := h.cells[x].prev)
      && (b != NIL ==> h'.cells[b] == h.cells[b].(prev := Some(x)))
      && (forall j :: j in h.cells && j != x && j != y && j != b && h.cells[x].prev != Some(j) ==>
            h'.cells[j] == h.cells[j])
    requires t.Node? && t.right.Node? && Layout(h, x, t)
    requires h.cells[x].prev.Some? ==> h.cells[x].prev.value !in Ids(h, x, t)
    ensures var y := h.cells[x].right;
      var a, b, g := h.cells[y].right, h.cells[y].left, h.cells[x].left;
      && Layout(h', a, t.right.right) && Layout(h', b, t.right.left) && Layout(h', g, t.left)
      && Ids(h', a, t.right.right) == Ids(h, a, t.right.right)
      && Ids(h', b, t.right.left) == Ids(h, b, t.right.left)
      && Ids(h', g, t.left) == Ids(h, g, t.left)
      && ParentIs(h', a, y) && ParentIs(h', b, x) && ParentIs(h', g, x)
  {
    LeftParts(h, x, t);
    var cx := h.cells[x];
    var y := cx.right;
    var b := h.cells[y].left;
    KeptAcrossRotation(h, h', x, y, b, cx.prev, h.cells[y].right, t.right.right);
    KeptAcrossRotation(h, h', x, y, b, cx.prev, b, t.right.left);
    KeptAcrossRotation(h, h', x, y, b, cx.prev, cx.left, t.left);
  }

  /** Objects laid out as the pieces of `Rotation.RotateLeft(t)` and linked as it
      links them lay out `Rotation.RotateLeft(t)`. */
  lemma LeftJoin(h: Heap, x: NodeId, y: NodeId, t: Tree)
    requires t.Node? && t.right.Node?
    requires x != NIL && x in h.cells && y != NIL && y in h.cells && x != y
    requires h.cells[x].data == t.data && h.cells[x].red == (t.color == Red)
    requires h.cells[y].data == t.right.data && h.cells[y].red == (t.right.color == Red)
    requires h.cells[y].left == x && h.cells[x].prev == Some(y)
    requires var a, b, g := h.cells[y].right, h.cells[x].right, h.cells[x].left;
      var IA, IB, IC := Ids(h, a, t.right.right), Ids(h, b, t.right.left), Ids(h, g, t.left);
      && Layout(h, a, t.right.right) && Layout(h, b, t.right.left) && Layout(h, g, t.left)
      && ParentIs(h, a, y) && ParentIs(h, b, x) && ParentIs(h, g, x)
      && x !in IA + IB + IC && y !in IA + IB + IC
      && IA !! IB && IA !! IC && IB !! IC
    ensures Layout(h, y, Rotation.RotateLeft(t))
    ensures var a, b, g := h.cells[y].right, h.cells[x].right, h.cells[x].left;
      Ids(h, y, Rotation.RotateLeft(t)) == {x} + {y} + Ids(h, a, t.right.right) + Ids(h, b, t.right.left) + Ids(h, g, t.left)
  {
    var a, b, g := h.cells[y].right, h.cells[x].right, h.cells[x].left;
    var IA, IB, IC := Ids(h, a, t.right.right), Ids(h, b, t.right.left), Ids(h, g, t.left);
    var X' := Node(t.color, t.left, t.data, t.right.left);
    LayoutJoin(h, x, X');
    assert Ids(h, x, X') == {x} + IC + IB;
    var Y' := Node(t.right.color, X', t.right.data, t.right.right);
    LayoutJoin(h, y, Y');
    assert Ids(h, y, Y') == {y} + ({x} + IC + IB) + IA;
    RegroupIds(x, y, IA, IB, IC);
  }

  /** Any objects that differ from a layout of `t` only as `rotate_left(x)`
      leaves them lay out `Rotation.RotateLeft(t)` from the risen child, with the
      same objects. */
  lemma LeftSurgery(h: Heap, h': Heap, x: NodeId, t: Tree)
    requires Allocated(h) && x in h.cells && x != NIL && h.cells[x].right != NIL
    requires var y := h.cells[x].right;
      var b := h.cells[y].left;
      && h'.cells.Keys == h.cells.Keys
      && h'.cells[x] == h.cells[x].(right := b).(prev := Some(y))
      && h'.cells[y] == h.cells[y].(left := x).(prev := h.cells[x].prev)
      && (b != NIL ==> h'.cells[b] == h.cells[b].(prev := Some(x)))
      && (forall j :: j in h.cells && j != x && j != y && j != b && h.cells[x].prev != Some(j) ==>
            h'.cells[j] == h.cells[j])
    requires t.Node? && t.right.Node? && Layout(h, x, t)
    requires h.cells[x].prev.Some? ==> h.cells[x].prev.value !in Ids(h, x, t)
    ensures Layout(h', h.cells[x].right, Rotation.RotateLeft(t))
    ensures Ids(h', h.cells[x].right, Rotation.RotateLeft(t)) == Ids(h, x, t)
  {
    LeftParts(h, x, t);
    LeftFrame(h, h', x, t);
    LeftJoin(h', x, h.cells[x].right, t);
  }

  /** `rotate_right(x)` on objects that lay out `t`, with `x`'s parent outside
      them: afterwards the risen child lays out `Rotation.RotateRight(t)` with
      the same objects (and the objects change as `RotateCells` says). */
  lemma RotateRightLayout(h: Heap, x: NodeId, t: Tree)
    requires Allocated(h) && t.Node? && t.left.Node? && Layout(h, x, t)
    requires h.cells[x].prev.Some? ==> h.cells[x].prev.value !in Ids(h, x, t)
    ensures h.cells[x].left != NIL
    ensures Layout(RotateRight(h, x), h.cells[x].left, Rotation.RotateRight(t))
    ensures Ids(RotateRight(h, x), h.cells[x].left, Rotation.RotateRight(t)) == Ids(h, x, t)
  {
    RightParts(h, x, t);
    RotateRightCells(h, x);
    RightSurgery(h, RotateRight(h, x), x, t);
  }

  /** `rotate_left(x)`, the mirror image of `RotateRightLayout`. */
  lemma RotateLeftLayout(h: Heap, x: NodeId, t: Tree)
    requires Allocated(h) && t.Node? && t.right.Node? && Layout(h, x, t)
    requires h.cells[x].prev.Some? ==> h.cells[x].prev.value !in Ids(h, x, t)
    ensures h.cells[x].right != NIL
    ensures Layout(RotateLeft(h, x), h.cells[x].right, Rotation.RotateLeft(t))
    ensures Ids(RotateLeft(h, x), h.cells[x].right, Rotation.RotateLeft(t)) == Ids(h, x, t)
  {
    LeftParts(h, x, t);
    RotateLeftCells(h, x);
    LeftSurgery(h, RotateLeft(h, x), x, t);
  }
}

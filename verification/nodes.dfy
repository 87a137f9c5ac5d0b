/** Nodes of the red-black tree and the invariants a tree is meant to keep.

    A tree is a value: `Nil` is the tree's sentinel, which is always black and
    holds no key; a `Node` holds its key (`data`), its colour and two children.
    The parent link of the source is not stored here: the upward walk of the
    insertion fix-up is modelled by the context of module `Zipper`. */
module Nodes {

  datatype Color = Red | Black

  datatype Tree = Nil | Node(color: Color, left: Tree, data: int, right: Tree)

  datatype Side = Left | Right

  /** The colour the source reads through `.red`: the sentinel reads black. */
  function ColorOf(t: Tree): Color
  {
    if t.Nil? then Black else t.color
  }

  predicate IsRed(t: Tree)
  {
    t.Node? && t.color == Red
  }

  /** Repaint the top node of `t`; the sentinel has no colour to change. */
  function Paint(t: Tree, c: Color): (r: Tree)
    ensures t.Node? ==> ColorOf(r) == c
    ensures r.Nil? <==> t.Nil?
    ensures t.Node? ==> r.left == t.left && r.data == t.data && r.right == t.right
    ensures InOrder(r) == InOrder(t)
  {
    if t.Nil? then Nil else t.(color := c)
  }

  // ---------------------------------------------------------------------
  // Keys, order and size

  function InOrder(t: Tree): seq<int>
  {
    match t
    case Nil => []
    case Node(_, l, d, r) => InOrder(l) + [d] + InOrder(r)
  }

  function Keys(t: Tree): set<int>
  {
    match t
    case Nil => {}
    case Node(_, l, d, r) => Keys(l) + {d} + Keys(r)
  }

  /** Number of non-sentinel nodes. */
  function Size(t: Tree): nat
  {
    match t
    case Nil => 0
    case Node(_, l, _, r) => Size(l) + 1 + Size(r)
  }

  ghost predicate Increasing(s: seq<int>)
  {
    forall i, j :: 0 <= i < j < |s| ==> s[i] < s[j]
  }

  /** Binary-search-tree ordering: in-order keys strictly increase. */
  ghost predicate IsSearchTree(t: Tree)
  {
    Increasing(InOrder(t))
  }

  /** The same ordering stated node by node: every key in a left subtree is
      smaller and every key in a right subtree larger than the node's key. */
  ghost predicate IsSearchTreeLocal(t: Tree)
  {
    match t
    case Nil => true
    case Node(_, l, d, r) =>
      && (forall x :: x in Keys(l) ==> x < d)
      && (forall y :: y in Keys(r) ==> d < y)
      && IsSearchTreeLocal(l)
      && IsSearchTreeLocal(r)
  }

  // ---------------------------------------------------------------------
  // Colour invariants

  /** No red node has a red child. */
  predicate NoRedRed(t: Tree)
  {
    match t
    case Nil => true
    case Node(c, l, _, r) =>
      && (c == Red ==> !IsRed(l) && !IsRed(r))
      && NoRedRed(l)
      && NoRedRed(r)
  }

  /** Black nodes on the leftmost path below `t`, counting `t` itself. */
  function BlackHeight(t: Tree): nat
  {
    match t
    case Nil => 0
    case Node(c, l, _, _) => (if c == Black then 1 else 0) + BlackHeight(l)
  }

  /** Every node's two subtrees have the same black height. */
  predicate Balanced(t: Tree)
  {
    match t
    case Nil => true
    case Node(_, l, _, r) =>
      Balanced(l) && Balanced(r) && BlackHeight(l) == BlackHeight(r)
  }

  ghost predicate IsRedBlack(t: Tree)
  {
    !IsRed(t) && NoRedRed(t) && Balanced(t) && IsSearchTree(t)
  }

  /** Painting a subtree's top node black keeps both colour invariants and
      adds one to its black height exactly when the top was red. */
  lemma PaintBlackKeeps(t: Tree)
    ensures NoRedRed(t) ==> NoRedRed(Paint(t, Black))
    ensures Balanced(t) ==> Balanced(Paint(t, Black))
    ensures BlackHeight(Paint(t, Black)) == BlackHeight(t) + (if IsRed(t) then 1 else 0)
  {
  }

  // ---------------------------------------------------------------------
  // Root-to-sentinel paths: the black-height property stated path by path

  /** Following the turns in `p` from the top of `t` ends exactly on the sentinel. */
  predicate IsLeafPath(t: Tree, p: seq<Side>)
  {
    if t.Nil? then p == []
    else |p| > 0 && IsLeafPath(if p[0] == Left then t.left else t.right, p[1..])
  }

  /** Black nodes met while following `p` from the top of `t`. */
  function BlackCount(t: Tree, p: seq<Side>): nat
  {
    if t.Nil? || |p| == 0 then 0
    else (if t.color == Black then 1 else 0)
         + BlackCount(if p[0] == Left then t.left else t.right, p[1..])
  }

  ghost predicate EqualBlackPaths(t: Tree)
  {
    forall p, q :: IsLeafPath(t, p) && IsLeafPath(t, q) ==> BlackCount(t, p) == BlackCount(t, q)
  }

  function LeftmostPath(t: Tree): (p: seq<Side>)
    ensures IsLeafPath(t, p)
    ensures BlackCount(t, p) == BlackHeight(t)
  {
    if t.Nil? then [] else [Left] + LeftmostPath(t.left)
  }

  /** In a balanced tree every root-to-sentinel path meets `BlackHeight(t)` black nodes. */
  lemma {:induction false} BalancedPaths(t: Tree, p: seq<Side>)
    requires Balanced(t) && IsLeafPath(t, p)
    ensures BlackCount(t, p) == BlackHeight(t)
    decreases t
  {
    if t.Node? {
      BalancedPaths(if p[0] == Left then t.left else t.right, p[1..]);
    }
  }

  /** The recursive balance predicate and the path formulation agree. */
  lemma {:induction false} BalancedIffEqualPaths(t: Tree)
    ensures Balanced(t) <==> EqualBlackPaths(t)
    decreases t
  {
    if Balanced(t) {
      forall p, q | IsLeafPath(t, p) && IsLeafPath(t, q)
        ensures BlackCount(t, p) == BlackCount(t, q)
      {
        BalancedPaths(t, p);
        BalancedPaths(t, q);
      }
    }
    if EqualBlackPaths(t) && t.Node? {
      var l, r := t.left, t.right;
      assert EqualBlackPaths(l) by {
        forall p, q | IsLeafPath(l, p) && IsLeafPath(l, q)
          ensures BlackCount(l, p) == BlackCount(l, q)
        {
          assert ([Left] + p)[1..] == p && ([Left] + q)[1..] == q;
          assert IsLeafPath(t, [Left] + p) && IsLeafPath(t, [Left] + q);
        }
      }
      assert EqualBlackPaths(r) by {
        forall p, q | IsLeafPath(r, p) && IsLeafPath(r, q)
          ensures BlackCount(r, p) == BlackCount(r, q)
        {
          assert ([Right] + p)[1..] == p && ([Right] + q)[1..] == q;
          assert IsLeafPath(t, [Right] + p) && IsLeafPath(t, [Right] + q);
        }
      }
      BalancedIffEqualPaths(l);
      BalancedIffEqualPaths(r);
      var pl, pr := LeftmostPath(l), LeftmostPath(r);
      assert ([Left] + pl)[1..] == pl && ([Right] + pr)[1..] == pr;
      assert IsLeafPath(t, [Left] + pl) && IsLeafPath(t, [Right] + pr);
      assert BlackCount(t, [Left] + pl) == BlackCount(t, [Right] + pr);
    }
  }

  // ---------------------------------------------------------------------
  // Facts about keys, size and order

  lemma {:induction false} KeysAreInOrder(t: Tree)
    ensures forall x :: x in Keys(t) <==> x in InOrder(t)
    decreases t
  {
    if t.Node? {
      KeysAreInOrder(t.left);
      KeysAreInOrder(t.right);
    }
  }

  lemma {:induction false} SizeIsInOrderLength(t: Tree)
    ensures |InOrder(t)| == Size(t)
    decreases t
  {
    if t.Node? {
      SizeIsInOrderLength(t.left);
      SizeIsInOrderLength(t.right);
    }
  }

  /** A strictly increasing concatenation splits into two increasing halves,
      every element of the first below every element of the second; and back. */
  lemma IncreasingAppend(a: seq<int>, b: seq<int>)
    ensures Increasing(a + b) <==>
      Increasing(a) && Increasing(b) && (forall i, j :: 0 <= i < |a| && 0 <= j < |b| ==> a[i] < b[j])
  {
    var s := a + b;
    if Increasing(s) {
      forall i, j | 0 <= i < |a| && 0 <= j < |b| ensures a[i] < b[j] {
        assert s[i] == a[i] && s[|a| + j] == b[j];
      }
      forall i, j | 0 <= i < j < |b| ensures b[i] < b[j] {
        assert s[|a| + i] == b[i] && s[|a| + j] == b[j];
      }
      forall i, j | 0 <= i < j < |a| ensures a[i] < a[j] {
        assert s[i] == a[i] && s[j] == a[j];
      }
    }
    if Increasing(a) && Increasing(b) && (forall i, j :: 0 <= i < |a| && 0 <= j < |b| ==> a[i] < b[j]) {
      forall i, j | 0 <= i < j < |s| ensures s[i] < s[j] {
        if j < |a| {
          assert s[i] == a[i] && s[j] == a[j];
        } else if i < |a| {
          assert s[i] == a[i] && s[j] == b[j - |a|];
        } else {
          assert s[i] == b[i - |a|] && s[j] == b[j - |a|];
        }
      }
    }
  }

  /** `Increasing(a + [d] + b)` in terms of its parts. */
  lemma IncreasingAround(a: seq<int>, d: int, b: seq<int>)
    ensures Increasing(a + [d] + b) <==>
      && Increasing(a) && Increasing(b)
      && (forall x :: x in a ==> x < d)
      && (forall y :: y in b ==> d < y)
  {
    IncreasingAppend(a, [d]);
    IncreasingAppend(a + [d], b);
    if Increasing(a + [d] + b) {
      forall x | x in a ensures x < d {
        var i :| 0 <= i < |a| && a[i] == x;
        assert (a + [d])[i] == x && (a + [d])[|a|] == d;
      }
      forall y | y in b ensures d < y {
        var j :| 0 <= j < |b| && b[j] == y;
        assert (a + [d])[|a|] == d;
      }
    }
    if Increasing(a) && Increasing(b) && (forall x :: x in a ==> x < d) && (forall y :: y in b ==> d < y) {
      var ad := a + [d];
      forall i, j | 0 <= i < |a| && 0 <= j < 1 ensures a[i] < [d][j] {
        assert a[i] in a;
      }
      assert Increasing(ad);
      forall i, j | 0 <= i < |ad| && 0 <= j < |b| ensures ad[i] < b[j] {
        assert b[j] in b;
        if i < |a| {
          assert ad[i] == a[i] && a[i] in a;
        }
      }
    }
  }

  /** Ordering through in-order keys and ordering node by node are the same. */
  lemma {:induction false} SearchTreeIffLocal(t: Tree)
    ensures IsSearchTree(t) <==> IsSearchTreeLocal(t)
    decreases t
  {
    if t.Node? {
      var l, d, r := t.left, t.data, t.right;
      SearchTreeIffLocal(l);
      SearchTreeIffLocal(r);
      KeysAreInOrder(l);
      KeysAreInOrder(r);
      IncreasingAround(InOrder(l), d, InOrder(r));
    }
  }

  /** In a search tree every key is stored once, so the node count is the number of keys. */
  lemma {:induction false} SearchTreeSizeIsKeyCount(t: Tree)
    requires IsSearchTree(t)
    ensures |Keys(t)| == Size(t)
    decreases t
  {
    if t.Node? {
      var l, d, r := t.left, t.data, t.right;
      IncreasingAround(InOrder(l), d, InOrder(r));
      KeysAreInOrder(l);
      KeysAreInOrder(r);
      SearchTreeSizeIsKeyCount(l);
      SearchTreeSizeIsKeyCount(r);
      assert d !in Keys(l) && d !in Keys(r);
      assert Keys(l) !! Keys(r) by {
        forall x | x in Keys(l) ensures x !in Keys(r) {
          assert x < d;
        }
      }
      assert |Keys(l) + {d}| == |Keys(l)| + 1;
      assert |Keys(l) + {d} + Keys(r)| == |Keys(l) + {d}| + |Keys(r)|;
    }
  }

}

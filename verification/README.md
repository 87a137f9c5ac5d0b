# Red-black tree insertion

A model of `RBTree.py`: a red-black binary search tree with a shared black
sentinel (`Nil`), insertion with a fix-up walk, the two rotations, and the
accessors for the stored length and the root.

The model has two levels.

- **Tree values** (modules `Nodes`, `Rotation`, `Zipper`, `TreeObject`,
  `Insertion`). A tree
  is `Nil` (the sentinel: black, no key) or `Node(color, left, data, right)`.
  The parent pointers `prev` that the source follows upward become a *context*
  (`Zipper.Ctx`). `Top` is the root position, where `prev` is `None`. Each
  `Step` frame is one parent: its side, colour, key and the other child.
  `insert` is `Insertion.Insert`: the length goes up, the descent `Descend`
  finds the sentinel slot or an equal key, a red node is attached, and
  `Fix` performs the fix-up loop. The tree object with its `_root` and
  `_lenght` fields is `TreeObject.RBTree(root, length)`, beside the
  constructor and the two accessors.
- **Objects and pointers** (module `Arena`). Node objects live in a map from
  ids to cells holding `data`, `left`, `right`, `prev` and `red`. The
  sentinel object has id `NIL`. `rotate_right` and `rotate_left` are written
  field update by field update, as the source performs them. Lemmas show that
  on any layout of a tree value the surgery lays out exactly the
  value-level rotation, with the same objects. They also show that the
  sentinel and the length counter are never written, and that the risen
  child becomes the root when the pivot had no parent.

`SampleData` and `Scenario` replay the sequence of `insert` calls in the
program's entry point. 22 keys go in, three of them repeated, and the result
is a valid tree of 19 nodes whose length is 19.

Keys are mathematical integers. Python integers are unbounded, so the
length counter needs no wrap-around.

The comments at `RBTree.py:85` and `RBTree.py:88` do not match the code. At
line 85 the parent is the grandparent's right child, so the uncle is on the
left. Line 88 paints the parent black. The model follows the code.

## Model

| member | source | states |
|---|---|---|
| Nodes.Paint | RBTree.py:111 | Repainting a node sets the colour of its top and keeps its children and its key, so its in-order keys; the sentinel stays the sentinel. |
| Nodes.PaintBlackKeeps | RBTree.py:111 | Painting the root black keeps "no red node has a red child" and equal black heights, and raises the black height by one exactly when the root was red. |
| Nodes.BalancedIffEqualPaths | RBTree.py:86-111 | The recursive black-height balance used throughout is equivalent to "every path from the node down to a sentinel passes the same number of black nodes". |
| Nodes.SearchTreeIffLocal | RBTree.py:58-73 | Strictly increasing in-order keys is equivalent to the local rule that every left-subtree key is below the node's key and every right-subtree key above it, which is the rule the descent follows. |
| Nodes.SearchTreeSizeIsKeyCount | RBTree.py:74-76 | In a search tree no key is stored twice: the number of nodes equals the number of distinct keys. |
| Rotation.RotateRight | RBTree.py:113-131 | The pivot's left child rises and takes the pivot as its right child, the inner subtree moves across to the pivot, colours travel with their nodes, and the in-order sequence is unchanged. |
| Rotation.RotateLeft | RBTree.py:133-152 | Mirror image of the right rotation, with the in-order sequence unchanged. |
| Rotation.RotationsKeepKeysAndSize | RBTree.py:113-152 | Either rotation keeps the key set and the node count. |
| Rotation.RotateRoundTrip | RBTree.py:113-152 | A left rotation followed by a right rotation at the risen node gives back the original tree, and the other way round. |
| Zipper.PlugInOrder | RBTree.py:58-73 | The in-order keys of the whole tree are the keys left of a position's context, then the keys of the subtree there, then the keys right of it. |
| TreeObject.Empty | RBTree.py:41-49 | A fresh tree has the sentinel as root and length 0, is valid, and stores no key. |
| Insertion.Descend | RBTree.py:58-76 | The descent either stops at a sentinel slot of the same tree or meets a node with an equal key. |
| Insertion.DescendInSearchTree | RBTree.py:58-76 | In a search tree the descent reports an equal key if and only if the key is stored, and otherwise stops at a slot lying between the key's neighbours. |
| Insertion.AttachAtSlot | RBTree.py:64-65 | Attaching a red node with two sentinel children at that slot keeps the search-tree order and adds exactly the new key and one node. |
| Insertion.Recolor | RBTree.py:86-90 | The uncle-red case gives a red grandparent with the same key and keeps the in-order keys. |
| Insertion.Restructure | RBTree.py:91-97 | The uncle-black case (inner rotation if needed, recolour, outer rotation) gives a black-topped subtree with the same in-order keys; the mirror at lines 104-110 is the same function with the sides swapped. |
| Insertion.RestructureValid | RBTree.py:91-110 | The uncle-black case on either side (lines 91-97 and their mirror 104-110) gives a subtree with no red-red edge and the black height the grandparent's position needs. |
| Insertion.RecolorKeepsInvariant | RBTree.py:99-103 | The uncle-red case re-establishes the loop invariant two levels up: the only possible violation moves to the grandparent. |
| Insertion.Fix | RBTree.py:79-111 | The fix-up terminates and ends with a black root; when the parent is red its grandparent exists. |
| Insertion.FixKeepsInOrder | RBTree.py:79-111 | The fix-up only recolours and rotates: the whole tree's in-order keys are those it had just after the attach. |
| Insertion.FixRestores | RBTree.py:79-111 | From the loop invariant the fix-up ends with a black root, no red node with a red child, and equal black heights. |
| Insertion.Insert | RBTree.py:51-77 | Insertion keeps the root non-red. |
| Insertion.InsertIntoEmpty | RBTree.py:54-56 | Inserting into a fresh tree gives a black root with two sentinel children and length 1. |
| Insertion.InsertKeys | RBTree.py:51-77 | Insertion keeps the search-tree order, the key set becomes the old one plus the key, and the node count grows by one exactly when the key was new. |
| Insertion.InsertDuplicate | RBTree.py:74-76 | Inserting a stored key leaves the tree and its length as they were. |
| Insertion.InsertLength | RBTree.py:54-75 | The stored length grows by one exactly when the key was not stored. |
| Insertion.InsertRedBlack | RBTree.py:51-111 | Insertion keeps all red-black properties: a black root, no red-red edge, equal black heights, search-tree order. |
| Insertion.InsertValid | RBTree.py:51-77 | Insertion keeps the tree valid (red-black, length equal to the node count) and adds exactly the key. |
| TreeObject.LengthCountsKeys | RBTree.py:49-75 | In a valid tree the stored length is the number of distinct keys and of nodes. |
| TreeObject.GetLength | RBTree.py:202-204 | The length reported of a valid tree is its number of distinct keys. |
| TreeObject.GetRoot | RBTree.py:206-208 | The root reported of a valid tree is the stored tree: a red-black search tree with a black root, holding the stored keys with one node per unit of length, and the sentinel exactly when the length is 0. |
| Arena.Put | RBTree.py:117-131 | A field update writes one real node object, never the sentinel, and leaves every other object and every key and colour as it was. |
| Arena.MoveInner | RBTree.py:116-120 | Moving the inner subtree to the pivot keeps every pointer naming an allocated object, changes no key or colour, and leaves the sentinel object as it was, because its parent is written only when it is a real node. |
| Arena.Reparent | RBTree.py:122-128 | Re-pointing the parent changes the root to the risen child exactly when the pivot had no parent, keeps every pointer allocated, changes no key or colour, and writes neither the sentinel nor the length. |
| Arena.Rotate | RBTree.py:113-152 | A rotation allocates and drops no object, changes no key or colour, never writes the sentinel, and leaves the length as it was. |
| Arena.RotateRight | RBTree.py:113-131 | `rotate_right` allocates and drops no object, changes no key or colour, never writes the sentinel, and leaves the length as it was. |
| Arena.RotateLeft | RBTree.py:133-152 | `rotate_left` allocates and drops no object, changes no key or colour, never writes the sentinel, and leaves the length as it was. |
| Arena.RotateCells | RBTree.py:113-152 | After a rotation the pivot holds the moved subtree and has the risen child as parent; the risen child holds the pivot and has the pivot's old parent; the moved subtree's root has the pivot as parent. |
| Arena.RotateOthers | RBTree.py:113-152 | A rotation changes no object other than the pivot, its risen child, the moved subtree's root and the pivot's parent. |
| Arena.RotateParent | RBTree.py:122-128 | The parent's right slot holds the risen child if it held the pivot, otherwise its left slot does; with no parent the risen child becomes the root. |
| Arena.RotateRightCells | RBTree.py:113-131 | `rotate_right` object by object: pivot, risen child, moved subtree root, the parent slot or the root, everything else unchanged, the length kept. |
| Arena.RotateLeftCells | RBTree.py:133-152 | `rotate_left` object by object, the mirror image. |
| Arena.RotateRightLayout | RBTree.py:113-131 | On objects that lay out a tree, `rotate_right` makes the risen child lay out the value-level right rotation, using the same objects. |
| Arena.RotateLeftLayout | RBTree.py:133-152 | On objects that lay out a tree, `rotate_left` makes the risen child lay out the value-level left rotation, using the same objects. |
| SampleData.SampleKeyCount | RBTree.py:213 | The entry point's 22 keys contain 19 distinct ones. |
| Scenario.InsertAll | RBTree.py:214-215 | A run of inserts keeps the root non-red. |
| Scenario.InsertAllValid | RBTree.py:214-215 | Any run of inserts keeps the tree valid and adds exactly the inserted keys. |
| Scenario.RunFromEmpty | RBTree.py:212-215 | A run from a fresh tree stores exactly the inserted keys, and the length is their number of distinct values. |
| Scenario.SampleRun | RBTree.py:210-218 | The entry point's run ends with a valid tree holding the 19 distinct keys and a length of 19. |

## Left out

- `out` and `out1` only print the tree, and `main` prints it and its length. The printing is not modelled; `main`'s sequence of inserts is `Scenario.SampleRun`.
- Keys are integers. The source accepts any mutually comparable values (`int`, `float`, `str`). Mixing types that do not compare raises an error in Python, which is not modelled.
- Search and deletion are not part of the source.
- Insertion.Insert: requires a non-red root. The source has no such guard: with a red root the fix-up would dereference the missing grandparent of a red parent. Every tree the class builds has a black root, because line 111 paints it, so this excludes no reachable state.
- Insertion.Fix: requires that the outermost context frame is black, which is the same condition. After an uncle-black case the model returns at once. In the source the loop test runs once more and fails, because the node's parent is then black.
- TreeObject.GetLength and TreeObject.GetRoot: their contracts speak only of valid trees, the ones the class builds.
- Rotation.RotateLeft, Rotation.RotateRight and Arena.Rotate: require the rising child to be a real node. In the source, a rotation whose rising child is the sentinel reads `Nil.right` (or `Nil.left`), which is `None`, and then fails on `None.prev` at line 120 (or 141). That error path is not modelled; `fix` only rotates about nodes whose rising child is a real node.
- Insertion and fix-up on tree values do not track object identity. Only the rotations are modelled down to pointer updates (module `Arena`). Insertion's pointer writes at lines 64-65 and 71-72, and the colour writes of `fix`, are modelled on tree values.
- Arena.RotateRightLayout and Arena.RotateLeftLayout: require that the pivot's parent object is not among the rotated subtree's objects, which holds in every layout of a whole tree. The parent-slot and root updates are stated separately in Arena.RotateRightCells and Arena.RotateLeftCells.
- Arena.RotateRightLayout and Arena.RotateLeftLayout describe the rotated subtree only. No pointer-level lemma combines them with the parent-slot update of Arena.RotateParent to show that the whole tree from `_root` lays out the rotated tree in the pivot's place. That whole-tree fact is proved on tree values (Zipper.PlugSameInOrder and the rotation cases of Insertion.Fix).

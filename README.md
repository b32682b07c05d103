# Red-black tree

A Dafny model of the class `RedBlackTree` in
`src/datastructures/redblacktree/RedBlackTree.java`. This is a classic red-black
tree of comparable values. The tree:

- inserts at a leaf and repairs with `balance`, which rotates or flips colours
  depending on the colour of the new node's aunt;
- searches recursively with `contains`;
- computes `height` and `countBlack` recursively;
- deletes with `remove`, which splices out the node found (or its in-order
  successor), followed by `fixRemove` (cases 3.1 to 3.4 on either side).

Equal keys are allowed: `add` sends a key that compares `>=` to the right.

## How the model is built

**Node records.** The Java nodes are objects linked by `leftChild`,
`rightChild` and `parent` references. The model keeps them as records
`Arena.Node(data, isRed, leftChild, rightChild, parent)` in the sequence
field `nodes` of the class `RedBlackTrees.RedBlackTree`. A record's index is
its identity, and `-1` stands for `null`. The class also has the Java fields
`root` and `size`, plus a ghost field `tree`. This is the binary tree
(`Trees.Tree`, whose nodes carry their record index) that the records spell
out from `root`, with correct parent pointers. The predicate for this is
`Links.Spells`, built on `Arena.Linked`.

**`Valid()`.** The class invariant says three things:

- the records spell `tree`;
- `tree` is a red-black tree: keys in order, black root, no red node with a
  red child, and the same number of black nodes on every path;
- `size` is its number of keys.

**Pure layer and imperative layer.**

- The Java algorithms are stated once on values, in `Insertion` and
  `Deletion`. Positions in the tree are zippers: a list of `Zippers.Frame`,
  innermost first.
- Their properties are proved there: the red-black invariant is kept, the key
  multiset is updated by exactly one copy, and the in-order sequence stays
  sorted.
- Each Java method is an imperative method of the class. It writes the
  records in the order the Java does, and its contract ties the new records
  to the value-level result. Typical forms are
  `Spells(nodes, root, Insertion.Balance(ctx, z))` and
  `nodes == LeftRotationRecords(old(nodes), n)`.

**Keys and `null` children.**

- Keys are `int`; the Java `compareTo` becomes integer comparison.
- A missing child is read as black.

**The model follows the intent of the code, not its wording, in eight
places.** The as-written behaviour of each is modelled in module `AsWritten`
with an input that shows the difference (see "## Findings"):

- `isEmpty` is decided by the root.
- `findMin`/`findMax` start at the root.
- `findMinNode`/`findMaxNode` return the node they reach.
- `remove` lowers `size` only when a node was removed.
- The successor's missing right child is not dereferenced.
- `fixRemove` runs whenever a black node was taken out, also when its
  replacement is `null`. The loop then tracks the parent of the empty slot.
- The mirrored case 3.2 tests both children of the sibling.
- The rotations inside `fixRemove` re-link the rotated subtree to the node
  above it and fix the parent pointers, as `balance` already does after its
  rotations.

The colour tests of `fixRemove` at lines 514 and 543 read the colours of
the sibling's children. While `fixRemove` runs, `x` is one black node short:
the sibling's side holds one more black node than `x` does
(`Deletion.DelInv`). When `x` is a real black node and its sibling is black,
the sibling's side therefore holds at least two black nodes, so both of its
children exist (`Deletion.SiblingChildrenExist`). Case 3.1 leads back to that
situation (`Deletion.RedSiblingFacts`).

In the Java as written, a real `x` never enters the loop from a valid tree.
The node taken out has a missing child, so its other child is either `null`
or a red node with no children (`Deletion.OnlyChildRed`). The loop body at
line 503 therefore runs only when line 589 has handed back a node other than
the true successor. In the corrected model, `fixRemove` also runs for a
`null` `x`, and `RedAt` reads a missing child as black.

## Model

| member | source | states |
|---|---|---|
| RedBlackTrees.RedBlackTree.constructor | src/datastructures/redblacktree/RedBlackTree.java:16-19 | a new tree is valid, empty and has no node records |
| RedBlackTrees.RedBlackTree.Add | src/datastructures/redblacktree/RedBlackTree.java:54-103 | `add` always answers true, keeps the red-black invariant and the size count, and the key multiset gains exactly one copy of the key; the new tree is the value-level `Insertion.Add` |
| RedBlackTrees.RedBlackTree.AddFirst | src/datastructures/redblacktree/RedBlackTree.java:56-60 | on an empty tree the new node becomes the black root and the tree is valid again |
| RedBlackTrees.RedBlackTree.Descend | src/datastructures/redblacktree/RedBlackTree.java:62-101 | the descent stops at the node whose missing child is the slot `Insertion.InsertCtx` finds (`>=` goes right), and reports on which side that slot is |
| RedBlackTrees.RedBlackTree.LinkRed | src/datastructures/redblacktree/RedBlackTree.java:68-91 | the new red node gets the next record, its parent is the node the descent stopped at, that node's child on the chosen side is the new node, and `size` grows by one |
| RedBlackTrees.RedBlackTree.LinkAndBalance | src/datastructures/redblacktree/RedBlackTree.java:68-96 | linking the red leaf and calling `balance` only when its parent is red leaves a valid tree equal to `Insertion.Add` |
| RedBlackTrees.AddSlot | src/datastructures/redblacktree/RedBlackTree.java:62-101 | the slot found lies below a node; linking a red leaf there keeps the ids distinct and the root black; `balance` is needed exactly when the parent is red, and then a grandparent exists; the result is red-black with one more key |
| Insertion.InsertCtxShape | src/datastructures/redblacktree/RedBlackTree.java:62-101 | the descent path, filled with a subtree, is plain binary-search-tree insertion of that subtree; filled with nothing, it is the original tree; it is empty exactly for the empty tree |
| Insertion.InsertAtMultiset | src/datastructures/redblacktree/RedBlackTree.java:62-101 | inserting a subtree at the descent slot adds exactly its keys to the key multiset |
| Insertion.InsertAtSorted | src/datastructures/redblacktree/RedBlackTree.java:62-101 | inserting a single key at the descent slot keeps the in-order keys sorted, with duplicates going right |
| Insertion.LinkRedLeafKeys | src/datastructures/redblacktree/RedBlackTree.java:68-95 | linking the new red leaf keeps the keys sorted, adds one copy of the key and one id, and keeps ids distinct |
| Insertion.LinkRedLeafShape | src/datastructures/redblacktree/RedBlackTree.java:68-95 | after linking the red leaf the black counts still agree, the only possible red-red pair is the leaf and its parent, and a red parent has a parent of its own |
| Insertion.AddIsRedBlack | src/datastructures/redblacktree/RedBlackTree.java:54-103 | `add` keeps the red-black invariant, adds exactly one copy of the key and exactly the new id, and keeps ids distinct |
| Insertion.AddAscending | src/datastructures/redblacktree/RedBlackTree.java:54-103 | adding 10, 20 and 30 in that order gives 20 as a black root with red children 10 and 30 |
| Insertion.Recolor | src/datastructures/redblacktree/RedBlackTree.java:179-181 | painting the new top black and its children red keeps keys and ids |
| Insertion.Restructure | src/datastructures/redblacktree/RedBlackTree.java:155-274 | each of the four rotation cases keeps the in-order keys and the ids of the grandparent's subtree |
| Insertion.RestructureFixes | src/datastructures/redblacktree/RedBlackTree.java:155-274 | with a black aunt, the rotation cases leave a black-topped subtree with no red-red pair and the same black height |
| Insertion.FlipFixes | src/datastructures/redblacktree/RedBlackTree.java:278-283 | with a red aunt, the colour flip keeps keys, ids and black height and leaves a red grandparent with no red-red pair below it |
| Insertion.BalanceFixes | src/datastructures/redblacktree/RedBlackTree.java:149-289 | `balance`, with its re-call on the grandparent, ends with a red-black shape (black root, no red-red, equal black counts) and the same keys and ids |
| RedBlackTrees.RedBlackTree.Balance | src/datastructures/redblacktree/RedBlackTree.java:149-289 | the records after `balance` spell `Insertion.Balance` of the tree before it, with no record added and the size kept |
| RedBlackTrees.RedBlackTree.RightRightCase | src/datastructures/redblacktree/RedBlackTree.java:158-183 | the right-right rotation case leaves records spelling `Insertion.Balance`, with a black new top |
| RedBlackTrees.RedBlackTree.LeftRightCase | src/datastructures/redblacktree/RedBlackTree.java:185-214 | the left-right double rotation case leaves records spelling `Insertion.Balance`, with a black new top |
| RedBlackTrees.RedBlackTree.RightLeftCase | src/datastructures/redblacktree/RedBlackTree.java:217-246 | the right-left double rotation case leaves records spelling `Insertion.Balance`, with a black new top |
| RedBlackTrees.RedBlackTree.LeftLeftCase | src/datastructures/redblacktree/RedBlackTree.java:248-273 | the left-left rotation case leaves records spelling `Insertion.Balance`, with a black new top |
| RedBlackTrees.RedBlackTree.ColorFlip | src/datastructures/redblacktree/RedBlackTree.java:278-284 | the colour flip leaves records spelling the flipped tree; the grandparent is the root exactly when it has no parent, and otherwise it is red and its parent record has the right colour for the re-call test |
| RedBlackTrees.RedBlackTree.Reattach | src/datastructures/redblacktree/RedBlackTree.java:160-176 | the new top takes the old top's place under its parent, or becomes the root with no parent |
| RedBlackTrees.RedBlackTree.RecolorTop | src/datastructures/redblacktree/RedBlackTree.java:179-182 | new top black, its children red, root black |
| RedBlackTrees.Sides | src/datastructures/redblacktree/RedBlackTree.java:377-385 | `auntOf` returns the grandparent's other child, and the child pointers of parent and grandparent say on which side each sits |
| Painting.FlipLinked | src/datastructures/redblacktree/RedBlackTree.java:279-281 | the three colour writes of the flip on the records spell the flipped tree |
| Painting.NewLeafLinked | src/datastructures/redblacktree/RedBlackTree.java:68-71 | appending the new record and setting the parent's child pointer spells the tree with the red leaf at the slot |
| RedBlackTrees.RedBlackTree.Contains | src/datastructures/redblacktree/RedBlackTree.java:112-114 | `contains` answers true exactly when the key is in the tree |
| RedBlackTrees.ContainsAt | src/datastructures/redblacktree/RedBlackTree.java:123-139 | on a subtree with sorted keys, the recursive search answers true exactly when the key is in that subtree |
| RedBlackTrees.RedBlackTree.Size | src/datastructures/redblacktree/RedBlackTree.java:296-298 | `size` is the number of keys held, duplicates counted |
| RedBlackTrees.RedBlackTree.Clear | src/datastructures/redblacktree/RedBlackTree.java:303-306 | after `clear` the tree is valid and empty |
| RedBlackTrees.RedBlackTree.Height | src/datastructures/redblacktree/RedBlackTree.java:315-317 | `height` is 0 for the empty tree, and otherwise the number of edges on the longest path from the root |
| RedBlackTrees.HeightAt | src/datastructures/redblacktree/RedBlackTree.java:326-336 | the recursive height of a node counts edges: one less than the nodes on its longest downward path |
| Trees.HeightLogarithmic | src/datastructures/redblacktree/RedBlackTree.java:315-336 | a red-black tree of n keys has height at most about 2·log2(n+1): 2^(levels/2) <= n+1 |
| Trees.LevelsBound | src/datastructures/redblacktree/RedBlackTree.java:315-336 | with no red-red pair and equal black counts, a path has at most twice the black height nodes, plus one for a red root |
| Trees.SizeBound | src/datastructures/redblacktree/RedBlackTree.java:315-336 | a balanced tree of black height h holds at least 2^h - 1 keys |
| RedBlackTrees.RedBlackTree.CountBlack | src/datastructures/redblacktree/RedBlackTree.java:344-346 | `countBlack` is the number of black nodes in the whole tree |
| RedBlackTrees.CountBlackAt | src/datastructures/redblacktree/RedBlackTree.java:355-368 | the recursive count is the number of black nodes in the subtree |
| RedBlackTrees.BlackCount | src/datastructures/redblacktree/RedBlackTree.java:359-366 | the black nodes of a tree are those of its two subtrees plus the root when it is black |
| Trees.RotateLeft | src/datastructures/redblacktree/RedBlackTree.java:394-403 | a left rotation puts the right child on top with the old top as its left child, keeping in-order keys and ids |
| Trees.RotateRight | src/datastructures/redblacktree/RedBlackTree.java:412-421 | a right rotation puts the left child on top with the old top as its right child, keeping in-order keys and ids |
| Trees.RotateLeftDistinct | src/datastructures/redblacktree/RedBlackTree.java:394-403 | a left rotation keeps ids distinct |
| Trees.RotateRightDistinct | src/datastructures/redblacktree/RedBlackTree.java:412-421 | a right rotation keeps ids distinct |
| RedBlackTrees.RedBlackTree.LeftRotation | src/datastructures/redblacktree/RedBlackTree.java:394-403 | `leftRotation` writes exactly the three records of `LeftRotationRecords` and returns the old right child |
| RedBlackTrees.RedBlackTree.RightRotation | src/datastructures/redblacktree/RedBlackTree.java:412-421 | `rightRotation` writes exactly the three records of `RightRotationRecords` and returns the old left child |
| Links.LeftRotationValues | src/datastructures/redblacktree/RedBlackTree.java:394-403 | after `leftRotation(n)`, `n` takes the old inner grandchild as right child, that grandchild's parent is `n`, the old right child takes `n` as left child, and no other record changes |
| Links.RightRotationValues | src/datastructures/redblacktree/RedBlackTree.java:412-421 | the mirror of `Links.LeftRotationValues` for `rightRotation` |
| Links.LeftRightLinked | src/datastructures/redblacktree/RedBlackTree.java:185-209 | the left rotation of the parent, the child-pointer fix, the right rotation of the grandparent and the parent fixes spell the double-rotated tree |
| Links.RightLeftLinked | src/datastructures/redblacktree/RedBlackTree.java:217-242 | the mirror of `Links.LeftRightLinked` |
| RedBlackTrees.RedBlackTree.IsEmpty | src/datastructures/redblacktree/RedBlackTree.java:428-430 | `isEmpty` answers true exactly when the tree holds no key |
| RedBlackTrees.RedBlackTree.Remove | src/datastructures/redblacktree/RedBlackTree.java:439-441 | `remove` answers true exactly when the key was present, keeps the tree valid (so `size` drops by one only on success), and removes exactly one copy of the key |
| RedBlackTrees.RemoveFacts | src/datastructures/redblacktree/RedBlackTree.java:439-494 | the value-level removal keeps the red-black invariant, removes one copy of the key, shrinks the key count by one exactly when the key was present, and leaves the empty tree alone |
| RedBlackTrees.RedBlackTree.RemoveFrom | src/datastructures/redblacktree/RedBlackTree.java:449-494 | the private `remove` answers whether the key was found, and the records afterwards spell `Deletion.Remove` of the tree before |
| Deletion.FindLast | src/datastructures/redblacktree/RedBlackTree.java:451-461 | the search returns a position in the tree whose node holds the key |
| Deletion.FindLastComplete | src/datastructures/redblacktree/RedBlackTree.java:451-464 | on sorted keys the search fails exactly when the key is absent |
| RedBlackTrees.SearchStep | src/datastructures/redblacktree/RedBlackTree.java:454-461 | one pass of the search loop, remembering an equal node, keeps the final answer |
| Deletion.OnlyChildRed | src/datastructures/redblacktree/RedBlackTree.java:466-477 | in a red-black tree the node taken out has a missing child, so the `x` that replaces it is missing or a childless red node |
| Deletion.SpliceAtFacts | src/datastructures/redblacktree/RedBlackTree.java:466-489 | the splice removes a red node cleanly, or leaves the spot that received the replacement one black node short |
| Deletion.SpliceAtKeys | src/datastructures/redblacktree/RedBlackTree.java:466-489 | the splice keeps the keys sorted, removes exactly one copy of the removed node's key, and only drops ids |
| Deletion.RemoveIsRedBlack | src/datastructures/redblacktree/RedBlackTree.java:449-494 | removal keeps the red-black invariant, removes one copy of a present key, leaves the tree unchanged for an absent key, and keeps ids distinct |
| RedBlackTrees.RedBlackTree.Unlink | src/datastructures/redblacktree/RedBlackTree.java:466-489 | the records after the splice spell the tree `Deletion.SpliceAt` describes, and the method returns `x`, the parent of its slot and the removed colour |
| RedBlackTrees.RedBlackTree.Successor | src/datastructures/redblacktree/RedBlackTree.java:474-489 | with two children, the in-order successor takes the node's place and colour, its right child takes its place, and the result is the splice `Deletion.SpliceAt` describes |
| RedBlackTrees.RedBlackTree.AdjacentSuccessor | src/datastructures/redblacktree/RedBlackTree.java:478-479 | when the successor is the right child of the removed node, it moves up and `x` stays its right child |
| RedBlackTrees.RedBlackTree.DetachSuccessor | src/datastructures/redblacktree/RedBlackTree.java:480-481 | a successor deeper down is cut out and replaced by its right child; its record is kept |
| RedBlackTrees.RedBlackTree.DistantSuccessor | src/datastructures/redblacktree/RedBlackTree.java:480-488 | a deeper successor is cut out, adopts the right subtree, and then takes the removed node's place, left subtree and colour |
| RedBlackTrees.RedBlackTree.TakeOver | src/datastructures/redblacktree/RedBlackTree.java:485-488 | the successor takes the removed node's place under its parent (or as root), its left subtree and its colour |
| RedBlackTrees.RedBlackTree.ColorTransplant | src/datastructures/redblacktree/RedBlackTree.java:568-577 | `colorTransplant(u, v)` writes exactly `TransplantRecords`; `v` becomes the root when `u` had no parent |
| Unlinking.TransplantLinked | src/datastructures/redblacktree/RedBlackTree.java:568-577 | replacing a node by one of its children changes at most the parent's record and the child's record, and the records spell the tree with the node replaced |
| RedBlackTrees.RedBlackTree.FindMinNode | src/datastructures/redblacktree/RedBlackTree.java:586-590 | the walk down left children returns the leftmost node of the subtree |
| RedBlackTrees.RedBlackTree.FindMaxNode | src/datastructures/redblacktree/RedBlackTree.java:599-603 | the walk down right children returns the rightmost node of the subtree |
| Deletion.MinPos | src/datastructures/redblacktree/RedBlackTree.java:586-588 | the leftmost node has no left child and nothing lies before it in order |
| RedBlackTrees.MaxPos | src/datastructures/redblacktree/RedBlackTree.java:599-601 | the rightmost node has no right child and nothing lies after it in order |
| RedBlackTrees.MinPosLeast | src/datastructures/redblacktree/RedBlackTree.java:586-588 | the leftmost key is in the tree and, on sorted keys, no key is smaller |
| RedBlackTrees.MaxPosGreatest | src/datastructures/redblacktree/RedBlackTree.java:599-601 | the rightmost key is in the tree and, on sorted keys, no key is larger |
| RedBlackTrees.RedBlackTree.FindMin | src/datastructures/redblacktree/RedBlackTree.java:611-619 | `findMin` answers nothing exactly for the empty tree, and otherwise a key of the tree no larger than any other |
| RedBlackTrees.RedBlackTree.FindMax | src/datastructures/redblacktree/RedBlackTree.java:627-635 | `findMax` answers nothing exactly for the empty tree, and otherwise a key of the tree no smaller than any other |
| RedBlackTrees.RedBlackTree.FixRemove | src/datastructures/redblacktree/RedBlackTree.java:501-566 | the records after `fixRemove` spell `Deletion.FixRemove` of the tree before |
| RedBlackTrees.RedBlackTree.FixPass | src/datastructures/redblacktree/RedBlackTree.java:504-563 | one pass of the loop body keeps the repair invariant, leaves the final result unchanged, and strictly decreases the loop measure |
| RedBlackTrees.LoopTest | src/datastructures/redblacktree/RedBlackTree.java:503 | the loop test (not the root and black) holds exactly when `x` is black and has a parent |
| Deletion.FixRemoveFixes | src/datastructures/redblacktree/RedBlackTree.java:501-566 | `fixRemove` turns a tree one black node short at `x` into a red-black shape with the same keys and ids |
| Deletion.FixStepFacts | src/datastructures/redblacktree/RedBlackTree.java:504-563 | each pass either moves up with the invariant kept and a smaller measure, or finishes with a red-black shape; keys and ids are kept |
| Deletion.RedSiblingFacts | src/datastructures/redblacktree/RedBlackTree.java:506-512 | case 3.1 gives `x` a black sibling and a red parent, keeps the invariant and the keys |
| Deletion.SiblingChildrenExist | src/datastructures/redblacktree/RedBlackTree.java:514 | when a real black `x` is one black node short and its sibling is black, both children of the sibling exist where their colours are read |
| Deletion.RecolorSiblingFacts | src/datastructures/redblacktree/RedBlackTree.java:514-517 | case 3.2 moves `x` up one level with the invariant kept; the new `x` is red exactly when the parent was |
| Deletion.NearChildLeftFacts | src/datastructures/redblacktree/RedBlackTree.java:519-525 | case 3.3 makes the far child of the sibling red, keeping its black height, keys and ids |
| Deletion.NearChildRightFacts | src/datastructures/redblacktree/RedBlackTree.java:548-554 | the mirror of case 3.3 makes the sibling's left child red, keeping its black height, keys and ids |
| Deletion.FarChildLeftShape | src/datastructures/redblacktree/RedBlackTree.java:519-531 | cases 3.3 and 3.4 on the left restore the missing black node, topped by the parent's old colour |
| Deletion.FarChildRightShape | src/datastructures/redblacktree/RedBlackTree.java:548-561 | the mirror cases 3.3 and 3.4 restore the missing black node, topped by the parent's old colour |
| Deletion.FarChildKeys | src/datastructures/redblacktree/RedBlackTree.java:519-561 | cases 3.3 and 3.4 keep the keys and ids of the parent's subtree |
| RedBlackTrees.RedBlackTree.RedSibling | src/datastructures/redblacktree/RedBlackTree.java:506-512 | case 3.1 on the records spells the rotated tree `Deletion.RedSiblingRotation` |
| RedBlackTrees.RedBlackTree.BlackSibling | src/datastructures/redblacktree/RedBlackTree.java:514-532 | cases 3.2 to 3.4 on the records follow `Deletion.BlackSiblingStep`: continue one level up or finish the repair |
| RedBlackTrees.RedBlackTree.NearChildLeft | src/datastructures/redblacktree/RedBlackTree.java:519-525 | case 3.3 on the records spells the sibling rotated right with its colours exchanged |
| RedBlackTrees.RedBlackTree.NearChildRight | src/datastructures/redblacktree/RedBlackTree.java:548-554 | the mirror of case 3.3 on the records spells the sibling rotated left |
| RedBlackTrees.RedBlackTree.FarChildLeft | src/datastructures/redblacktree/RedBlackTree.java:527-531 | case 3.4 on the records spells the parent rotated left with the colours set |
| RedBlackTrees.RedBlackTree.FarChildRight | src/datastructures/redblacktree/RedBlackTree.java:557-561 | the mirror of case 3.4 on the records spells the parent rotated right |
| RedBlackTrees.RedBlackTree.RotateLeftAt | src/datastructures/redblacktree/RedBlackTree.java:510 | a left rotation inside `fixRemove`, followed by the relinking above it, writes exactly `RotateLeftAtRecords` and moves the root when needed |
| RedBlackTrees.RedBlackTree.RotateRightAt | src/datastructures/redblacktree/RedBlackTree.java:539 | the mirror of `RotateLeftAt` |
| Links.RotateLeftLinked | src/datastructures/redblacktree/RedBlackTree.java:394-403 | a left rotation with relinking spells the tree with that subtree rotated |
| Links.RotateRightLinked | src/datastructures/redblacktree/RedBlackTree.java:412-421 | a right rotation with relinking spells the tree with that subtree rotated |
| AsWritten.IsEmptyMisreads | src/datastructures/redblacktree/RedBlackTree.java:428-430 | a non-empty tree whose root has no right child reads as empty |
| AsWritten.FindEndsMisread | src/datastructures/redblacktree/RedBlackTree.java:611-635 | on a two-key tree `findMin` and `findMax` answer nothing; on another `findMin` dereferences null |
| AsWritten.FindMinNodeMisses | src/datastructures/redblacktree/RedBlackTree.java:586-603 | on a three-node tree both `findMinNode` and `findMaxNode` return null instead of the node reached |
| AsWritten.RemoveMiscounts | src/datastructures/redblacktree/RedBlackTree.java:439-441 | removing an absent key still lowers the count by one |
| AsWritten.SkippedFixUnbalances | src/datastructures/redblacktree/RedBlackTree.java:490-491 | skipping `fixRemove` when the replacement is null breaks the equal-black-count rule on an all-black three-node tree |
| AsWritten.AdjacentLinkDereferencesNull | src/datastructures/redblacktree/RedBlackTree.java:478-479 | once `findMinNode` returns the node it reaches, removing the root of a three-node tree dereferences the successor's missing right child; as written, `findMinNode` returns null on that input, so line 476 throws first |
| AsWritten.MirrorRecolorBreaksColours | src/datastructures/redblacktree/RedBlackTree.java:543-546 | the mirrored case 3.2 paints the sibling red above a red child |
| AsWritten.RedSiblingLosesNodes | src/datastructures/redblacktree/RedBlackTree.java:506-510 | on records where `x` is one black node short, case 3.1 with the plain `leftRotation` at the root leaves the old sibling and its right subtree unreachable |

## Left out

- Generic keys: the model uses `int` keys and integer comparison for `compareTo`. The cast to `Comparable` and `Node.compareTo` (lines 42-44) are not modelled.
- The error message printed when the key is not found (line 463): it is console output, so the model just returns `false`.
- `Objects.requireNonNull` (line 287) and the `@NotNull` annotations become preconditions. These are the shape facts the callers establish.
- Clear: the records stay in `nodes`. Only `root` and `size` are reset, as in the Java; the unreachable records play no further part. Garbage collection is not modelled.
- Memory: `nodes` only grows. A node removed from the tree keeps its record.
- RedBlackTrees.RedBlackTree.RemoveFrom: does not model the dereference of `null` at line 479 or the skipped repair at line 490. It models the corrected behaviour, and `AsWritten` models the code as written.
- RedBlackTrees.RedBlackTree.FixRemove: models the rotations of cases 3.1, 3.3 and 3.4 with the relinking above the rotated node. The Java rotations at lines 510, 523, 530, 539, 552 and 560 do not relink; `AsWritten.RedSiblingLosesNodes` shows the effect for one of them.
- Integer width: `size` is unbounded. No Java `int` overflow of `size` is modelled.

## Findings

| source | as written | input that shows it | evidently intended | confidence | as-written member | corrected member |
|---|---|---|---|---|---|---|
| src/datastructures/redblacktree/RedBlackTree.java:429 | `isEmpty` tests whether the root has a right child, and dereferences a null root | a tree of 2 with a red left child 1 reads as empty; the empty tree throws | empty exactly when the root is null | high, not executed | AsWritten.IsEmptyMisreads | RedBlackTrees.RedBlackTree.IsEmpty |
| src/datastructures/redblacktree/RedBlackTree.java:615 | `findMin` starts its walk at the root's left child | the tree of 2 with a red left child 1 answers null; the tree of 1 with a red right child 2 dereferences null | the smallest key, the walk starting at the root | high, not executed | AsWritten.FindEndsMisread | RedBlackTrees.RedBlackTree.FindMin |
| src/datastructures/redblacktree/RedBlackTree.java:631 | `findMax` starts its walk at the root's right child (and is guarded by the faulty `isEmpty`) | the tree of 2 with a red left child 1 answers null | the largest key, the walk starting at the root | high, not executed | AsWritten.FindEndsMisread | RedBlackTrees.RedBlackTree.FindMax |
| src/datastructures/redblacktree/RedBlackTree.java:589 | `findMinNode` returns `node.parent.parent` instead of the node reached | in the tree of 2 with red children 1 and 3, `findMinNode` of node 3 returns null | the leftmost node of the subtree | high, not executed | AsWritten.FindMinNodeMisses | RedBlackTrees.RedBlackTree.FindMinNode |
| src/datastructures/redblacktree/RedBlackTree.java:602 | `findMaxNode` returns `node.parent.parent` | in the same tree, `findMaxNode` of node 3 returns null | the rightmost node of the subtree | high, not executed | AsWritten.FindMinNodeMisses | RedBlackTrees.RedBlackTree.FindMaxNode |
| src/datastructures/redblacktree/RedBlackTree.java:440 | `size--` runs before the test, so a failed removal still lowers `size` (to -1 on an empty tree) | removing any absent key from a red-black tree | `size` drops only when a node was removed | high, not executed | AsWritten.RemoveMiscounts | RedBlackTrees.RedBlackTree.Remove |
| src/datastructures/redblacktree/RedBlackTree.java:479 | `x.parent = y` when the successor is the right child of the removed node, though `x` may be null | removing 2 from the tree of 2 with red children 1 and 3, once line 589 returns the node it reaches; as written, line 476 throws first on this input, so this defect is hidden behind the one at line 589 | set the parent only when `x` exists | medium (hidden behind line 589), not executed | AsWritten.AdjacentLinkDereferencesNull | RedBlackTrees.RedBlackTree.AdjacentSuccessor |
| src/datastructures/redblacktree/RedBlackTree.java:490 | the repair is skipped when the replacement `x` is null | removing 1 from the all-black tree of 2 with children 1 and 3 leaves unequal black counts | repair whenever a black node was taken out | high, not executed | AsWritten.SkippedFixUnbalances | Deletion.RemoveIsRedBlack |
| src/datastructures/redblacktree/RedBlackTree.java:543 | the mirrored case 3.2 tests only the sibling's right child | `x` = 40 a black right child whose black sibling 20 has a red left child 10 and a black right child 25 | test both children of the sibling | high, not executed | AsWritten.MirrorRecolorBreaksColours | RedBlackTrees.RedBlackTree.BlackSibling |
| src/datastructures/redblacktree/RedBlackTree.java:510 | the rotations inside `fixRemove` do not relink the rotated subtree to the node above it or set the moved parent pointers | `x` = 5, black and one black node short, under the black root 10 whose red right child 20 has black children 15 and 25, each with two black children: after case 3.1, 20, 25, 22 and 27 are unreachable | relink after each rotation, as `balance` does | high, not executed | AsWritten.RedSiblingLosesNodes | RedBlackTrees.RedBlackTree.RotateLeftAt |

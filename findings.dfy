/** The places where `RedBlackTree.java` does something other than what its
    comments and the rest of the class evidently intend, modelled as written,
    each with an input that shows the difference.  The rest of the project
    models the intended behaviour. */
module AsWritten {
  import opened Trees
  import opened Zippers
  import opened Arena
  import opened Links
  import Deletion
  import RedBlackTrees

  /** What a Java expression can do here: give a value, or dereference
      `null` and throw. */
  datatype Outcome<T> = Returns(value: T) | NullDereference

  /** `isEmpty()` as written: it reads the right child of the root. */
  function IsEmptyAsWritten(t: Tree): (r: Outcome<bool>)
    ensures r.Returns? ==> t.Branch?
  {
    if t.Leaf? then NullDereference else Returns(t.right.Leaf?)
  }

  /** `findMin()` as written: after `isEmpty()` it starts from the left
      child of the root, not from the root. */
  function FindMinAsWritten(t: Tree): Outcome<Option<int>> {
    match IsEmptyAsWritten(t)
    case NullDereference => NullDereference
    case Returns(empty) =>
      if empty then Returns(None)
      else if t.left.Leaf? then NullDereference
      else Returns(Some(Deletion.MinPos(t.left).node.key))
  }

  /** `findMax()` as written: it starts from the right child of the root. */
  function FindMaxAsWritten(t: Tree): Outcome<Option<int>> {
    match IsEmptyAsWritten(t)
    case NullDereference => NullDereference
    case Returns(empty) =>
      if empty then Returns(None)
      else if t.right.Leaf? then NullDereference
      else Returns(Some(RedBlackTrees.MaxPos(t.right).node.key))
  }

  /** `findMinNode(node)` as written, for the node `t` at `ctx`: after the
      walk down the left children it returns `node.parent.parent`, the
      grandparent of the leftmost node (`-1` for `null`). */
  function FindMinNodeAsWritten(ctx: seq<Frame>, t: Tree): Outcome<int>
    requires t.Branch?
  {
    var path := Deletion.MinPos(t).ctx + ctx;
    if path == [] then NullDereference else Returns(Above(path[1..], -1))
  }

  /** `findMaxNode(node)` as written: the grandparent of the rightmost
      node. */
  function FindMaxNodeAsWritten(ctx: seq<Frame>, t: Tree): Outcome<int>
    requires t.Branch?
  {
    var path := RedBlackTrees.MaxPos(t).ctx + ctx;
    if path == [] then NullDereference else Returns(Above(path[1..], -1))
  }

  /** `remove(data)` as written, on the tree and the count: `size--` runs
      before the test, whatever the outcome. */
  function RemoveAsWritten(t: Tree, size: int, k: int): (Tree, int, bool)
    requires IsRedBlack(t)
  {
    if size == 0 then (t, size - 1, false)
    else (Deletion.Remove(t, k), size - 1, k in Keys(t))
  }

  /** The end of the private `remove` as written: `fixRemove` runs only
      when the node taken out was black AND a node moved into its place. */
  function ExciseAsWritten(ctx: seq<Frame>, removedRed: bool, x: Tree): Tree
    requires removedRed || Deletion.DelInv(ctx, x)
  {
    if removedRed || x.Leaf? then Plug(ctx, x) else Deletion.FixRemove(ctx, x)
  }

  /** The private `remove` with that end. */
  function RemoveSkippingFix(t: Tree, k: int): Tree
    requires IsRedBlack(t)
  {
    match Deletion.FindLast(t, k)
    case None => t
    case Some(At(zctx, z)) =>
      var s := Deletion.SpliceAt(zctx, z);
      Deletion.SpliceAtFacts(zctx, z);
      ExciseAsWritten(s.ctx, s.removedRed, s.x)
  }

  /** `x.parent = y` as written, for the successor `y` that is the right
      child of the removed node: `x`, the right child of `y`, may be null. */
  function AdjacentLinkAsWritten(A: seq<Node>, x: int, y: int): Outcome<seq<Node>>
    requires Ref(A, x)
  {
    if x == -1 then NullDereference else Returns(A[x := A[x].(parent := y)])
  }

  /** Cases 3.2 to 3.4 of `fixRemove` as written: when `x` is a right
      child, case 3.2 is chosen on the colour of the sibling's right child
      alone. */
  function BlackSiblingStepAsWritten(ctx: seq<Frame>, x: Tree): Deletion.Progress
    requires ctx != [] && ctx[0].sibling.Branch? && !ctx[0].sibling.red
  {
    var f, up := ctx[0], ctx[1..];
    var s := f.sibling;
    var recolor := if f.GoLeft? then !IsRed(s.left) && !IsRed(s.right) else !IsRed(s.right);
    if recolor then Deletion.Continue(up, Attach(f.(sibling := s.(red := true)), x))
    else Deletion.Done(Blacken(Plug(up, Deletion.FarChildRotation(f, x))))
  }

  /** Case 3.1 of `fixRemove` as written, for `x` a left child of `xp`:
      the colour writes, then `leftRotation(xp)` alone, which moves no
      pointer above `xp`. */
  function RedSiblingAsWritten(A: seq<Node>, xp: int): (B: seq<Node>)
    requires CanRotateLeft(A, xp)
    ensures |B| == |A|
  {
    var s := A[xp].rightChild;
    var A1 := A[s := A[s].(isRed := false)];
    LeftRotationRecords(A1[xp := A1[xp].(isRed := true)], xp)
  }

  // ------------------------------------------------------ counterexamples

  /** A non-empty tree whose root has no right child reads as empty. */
  lemma IsEmptyMisreads(t: Tree)
    requires t.Branch? && t.right.Leaf?
    ensures Keys(t) != [] && IsEmptyAsWritten(t) == Returns(true)
  {
    assert t.key in Keys(t);
  }

  /** The tree holding 2 at the root and 1 as its red left child: both
      `findMin` and `findMax` answer that there is nothing, and with 1 at
      the root and 2 as its right child `findMin` dereferences null. */
  lemma FindEndsMisread()
    ensures var t := Branch(0, false, Branch(1, true, Leaf, 1, Leaf), 2, Leaf);
      IsRedBlack(t) && Keys(t) == [1, 2] &&
      FindMinAsWritten(t) == Returns(None) && FindMaxAsWritten(t) == Returns(None)
    ensures var u := Branch(0, false, Leaf, 1, Branch(1, true, Leaf, 2, Leaf));
      IsRedBlack(u) && FindMinAsWritten(u) == NullDereference
  {
    var t := Branch(0, false, Branch(1, true, Leaf, 1, Leaf), 2, Leaf);
    assert Keys(t) == [] + [1] + [] + [2] + [];
  }

  /** The tree 2 with red children 1 and 3: `findMinNode` and
      `findMaxNode` on the right child return null, where the node sought
      is 3 itself. */
  lemma FindMinNodeMisses()
    ensures var l, r := Branch(1, true, Leaf, 1, Leaf), Branch(2, true, Leaf, 3, Leaf);
      var ctx := [GoRight(0, false, l, 2)];
      IsRedBlack(Plug(ctx, r)) &&
      Deletion.MinPos(r).node.id == 2 && FindMinNodeAsWritten(ctx, r) == Returns(-1) &&
      RedBlackTrees.MaxPos(r).node.id == 2 && FindMaxNodeAsWritten(ctx, r) == Returns(-1)
  {
    var l, r := Branch(1, true, Leaf, 1, Leaf), Branch(2, true, Leaf, 3, Leaf);
    var ctx := [GoRight(0, false, l, 2)];
    assert Plug(ctx, r) == Branch(0, false, l, 2, r);
    assert Keys(Plug(ctx, r)) == [] + [1] + [] + [2] + ([] + [3] + []);
    assert ([] + ctx)[1..] == [];
  }

  /** Removing a key that is not there still counts one key fewer. */
  lemma RemoveMiscounts(t: Tree, k: int)
    requires IsRedBlack(t) && k !in Keys(t)
    ensures RemoveAsWritten(t, |Keys(t)|, k).1 == |Keys(Deletion.Remove(t, k))| - 1
  {
    Deletion.RemoveIsRedBlack(t, k);
  }

  /** The all-black tree 2 with children 1 and 3: removing 1 leaves an
      empty slot, `fixRemove` is skipped, and the two sides of 2 no longer
      hold the same number of black nodes. */
  lemma SkippedFixUnbalances()
    ensures var t := Branch(0, false, Branch(1, false, Leaf, 1, Leaf), 2, Branch(2, false, Leaf, 3, Leaf));
      IsRedBlack(t) && !Balanced(RemoveSkippingFix(t, 1)) && Balanced(Deletion.Remove(t, 1))
  {
    var l, r := Branch(1, false, Leaf, 1, Leaf), Branch(2, false, Leaf, 3, Leaf);
    var t := Branch(0, false, l, 2, r);
    assert Keys(t) == [] + [1] + [] + [2] + ([] + [3] + []);
    var f := GoLeft(0, false, 2, r);
    assert Deletion.FindLast(l, 1) == Some(At([], l));
    assert Deletion.FindLast(t, 1) == Some(At([] + [f], l));
    assert [] + [f] == [f];
    assert Deletion.SpliceAt([f], l) == Deletion.Splice([f], Leaf, false);
    assert RemoveSkippingFix(t, 1) == Branch(0, false, Leaf, 2, r);
    Deletion.RemoveIsRedBlack(t, 1);
  }

  /** A defect behind the one of `findMinNode`: once `findMinNode` returns
      the node it reaches, removing 2 from the tree 2 with red children 1 and
      3, held in the records below, takes the successor 3, the right child of
      2, whose right child is null, so `x.parent = y` dereferences null.  As
      written, `findMinNode` returns null on this input (its last conjunct)
      and `y.isRed` throws before that line is reached. */
  lemma AdjacentLinkDereferencesNull()
    ensures var l, r := Branch(1, true, Leaf, 1, Leaf), Branch(2, true, Leaf, 3, Leaf);
      var t := Branch(0, false, l, 2, r);
      var A := [Node(2, false, 1, 2, -1), Node(1, true, -1, -1, 0), Node(3, true, -1, -1, 0)];
      Spells(A, 0, t) && IsRedBlack(t) &&
      Deletion.FindLast(t, 2) == Some(At([], t)) && Deletion.MinPos(r) == At([], r) &&
      AdjacentLinkAsWritten(A, IdOf(r.right), r.id) == NullDereference &&
      FindMinNodeAsWritten([GoRight(0, false, l, 2)], r) == Returns(-1)
  {
    var l, r := Branch(1, true, Leaf, 1, Leaf), Branch(2, true, Leaf, 3, Leaf);
    var t := Branch(0, false, l, 2, r);
    var A := [Node(2, false, 1, 2, -1), Node(1, true, -1, -1, 0), Node(3, true, -1, -1, 0)];
    assert Linked(A, 0, l) && Linked(A, 0, r);
    assert Keys(t) == [] + [1] + [] + [2] + ([] + [3] + []);
    assert ([] + [GoRight(0, false, l, 2)])[1..] == [];
  }

  /** `x` = 40, a black right child one black node short, whose black
      sibling 20 has a red left child 10 and a black right child 25: the
      step as written paints 20 red above the red 10, and the tree the loop
      then finishes has a red node with a red child. */
  lemma MirrorRecolorBreaksColours()
    ensures var s := Branch(2, false, Branch(3, true, Branch(4, false, Leaf, 5, Leaf), 10, Branch(5, false, Leaf, 15, Leaf)),
                            20, Branch(6, false, Leaf, 25, Leaf));
      var ctx, x := [GoRight(0, false, s, 30)], Branch(1, false, Leaf, 40, Leaf);
      var r := BlackSiblingStepAsWritten(ctx, x);
      Deletion.DelInv(ctx, x) && r.Continue? && r.ctx == [] && !NoRedRed(Blacken(r.x))
  {
  }

  /** The records of the tree 10 with children 5 and 20, 20 red with black
      children 15 and 25, each of those with two black children. */
  function LosingRecords(): seq<Node> {
    [Node(10, false, 1, 2, -1), Node(5, false, -1, -1, 0), Node(20, true, 3, 4, 0),
     Node(15, false, 5, 6, 2), Node(25, false, 7, 8, 2),
     Node(12, false, -1, -1, 3), Node(17, false, -1, -1, 3),
     Node(22, false, -1, -1, 4), Node(27, false, -1, -1, 4)]
  }

  /** The right subtree of 10 in `LosingRecords`. */
  function LosingSibling(): Tree {
    Branch(2, true, Branch(3, false, Branch(5, false, Leaf, 12, Leaf), 15, Branch(6, false, Leaf, 17, Leaf)),
           20, Branch(4, false, Branch(7, false, Leaf, 22, Leaf), 25, Branch(8, false, Leaf, 27, Leaf)))
  }

  /** `x` = 5, the black left child of the black root 10, is one black
      node short: its sibling 20 is red with black children 15 and 25, each
      with two black children.  After case 3.1 as written the root is still
      10, now red, and its right child is 15, so 20, 25 and the children of
      25 are cut off from the tree. */
  lemma RedSiblingLosesNodes(T: Tree)
    requires Spells(RedSiblingAsWritten(LosingRecords(), 0), 0, T)
    ensures var x := Branch(1, false, Leaf, 5, Leaf);
      Spells(LosingRecords(), 0, Branch(0, false, x, 10, LosingSibling())) &&
      Deletion.DelInv([GoLeft(0, false, 10, LosingSibling())], x)
    ensures Keys(T) == [5, 10, 12, 15, 17]
  {
    LosingInput();
    LosingResult(T);
  }

  /** The input of `RedSiblingLosesNodes` is a state `fixRemove` repairs. */
  lemma LosingInput()
    ensures var x := Branch(1, false, Leaf, 5, Leaf);
      Spells(LosingRecords(), 0, Branch(0, false, x, 10, LosingSibling())) &&
      Deletion.DelInv([GoLeft(0, false, 10, LosingSibling())], x)
  {
    var A, s := LosingRecords(), LosingSibling();
    assert Linked(A, 2, s.left) && Linked(A, 2, s.right);
    assert Linked(A, 0, s) && Linked(A, 0, Branch(1, false, Leaf, 5, Leaf));
  }

  /** What the records spell after case 3.1 as written. */
  lemma LosingResult(T: Tree)
    requires Spells(RedSiblingAsWritten(LosingRecords(), 0), 0, T)
    ensures Keys(T) == [5, 10, 12, 15, 17]
  {
    var B := RedSiblingAsWritten(LosingRecords(), 0);
    assert B[0] == Node(10, true, 1, 3, -1);
    assert B[1] == Node(5, false, -1, -1, 0) && B[3] == Node(15, false, 5, 6, 0);
    assert B[5] == Node(12, false, -1, -1, 3) && B[6] == Node(17, false, -1, -1, 3);
    assert T.Branch? && T.id == 0;
    assert Linked(B, 0, T.left) && Linked(B, 0, T.right);
    assert T.left.Branch? && T.left.id == 1 && T.right.Branch? && T.right.id == 3;
    assert Linked(B, 1, T.left.left) && Linked(B, 1, T.left.right);
    assert Linked(B, 3, T.right.left) && Linked(B, 3, T.right.right);
    var u := T.right;
    assert u.left.Branch? && u.left.id == 5 && u.right.Branch? && u.right.id == 6;
    assert Linked(B, 5, u.left.left) && Linked(B, 5, u.left.right);
    assert Linked(B, 6, u.right.left) && Linked(B, 6, u.right.right);
    assert T.left == Branch(1, false, Leaf, 5, Leaf);
    assert u == Branch(3, false, Branch(5, false, Leaf, 12, Leaf), 15, Branch(6, false, Leaf, 17, Leaf));
  }
}

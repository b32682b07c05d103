/** The Java class `RedBlackTree`: its fields `root` and `size`, its nodes
    (kept as records in `nodes`, indexed by id, -1 standing for `null`) and
    its methods, each proved against the value-level operations of the
    `Insertion` and `Deletion` modules through the ghost field `tree`, the
    tree the records spell out. */
module RedBlackTrees {
  import opened Trees
  import opened Zippers
  import opened Arena
  import opened Links
  import opened Painting
  import opened Unlinking
  import Insertion
  import Deletion

  /** `auntOf(node)`: the other child of the grandparent, or -1 when the
      parent is not a child of the grandparent. */
  function AuntOf(A: seq<Node>, node: int): int
    requires 0 <= node < |A| && 0 <= A[node].parent < |A| && 0 <= A[A[node].parent].parent < |A|
  {
    var p := A[node].parent;
    var g := A[p].parent;
    if A[g].rightChild == p then A[g].leftChild
    else if A[g].leftChild == p then A[g].rightChild
    else -1
  }

  /** The recursive `contains(current, toFind)`: stop at `null` or at an
      equal key, otherwise go right past smaller keys and left past larger
      ones.  On an ordered tree this finds every key present. */
  function ContainsAt(A: seq<Node>, i: int, k: int, ghost p: int, ghost t: Tree): (b: bool)
    requires Linked(A, p, t) && i == IdOf(t)
    ensures Sorted(Keys(t)) ==> (b <==> k in Keys(t))
    decreases t
  {
    if i == -1 then false
    else if A[i].data == k then true
    else
      SortedConcat(Keys(t.left), t.key, Keys(t.right));
      if A[i].data < k then ContainsAt(A, A[i].rightChild, k, i, t.right)
      else ContainsAt(A, A[i].leftChild, k, i, t.left)
  }

  /** The recursive `height(node)`: edges on the longest downward path, a
      missing child counting -1. */
  function HeightAt(A: seq<Node>, i: int, ghost p: int, ghost t: Tree): (h: int)
    requires Linked(A, p, t) && t.Branch? && i == t.id
    ensures h == Levels(t) - 1
    decreases t
  {
    LinkedNull(A, i, t.left);
    LinkedNull(A, i, t.right);
    var lh := if A[i].leftChild != -1 then HeightAt(A, A[i].leftChild, i, t.left) else -1;
    var rh := if A[i].rightChild != -1 then HeightAt(A, A[i].rightChild, i, t.right) else -1;
    if lh > rh then lh + 1 else rh + 1
  }

  /** The recursive `countBlack(node)`: black nodes in the subtree. */
  function CountBlackAt(A: seq<Node>, i: int, ghost p: int, ghost t: Tree): (c: int)
    requires Linked(A, p, t) && i == IdOf(t)
    ensures c == multiset(Colors(t))[false]
    decreases t
  {
    if i == -1 then 0
    else
      LinkedNull(A, i, t.left);
      LinkedNull(A, i, t.right);
      BlackCount(t);
      var l := if A[i].leftChild != -1 then CountBlackAt(A, A[i].leftChild, i, t.left) else 0;
      var count := l + if A[i].rightChild != -1 then CountBlackAt(A, A[i].rightChild, i, t.right) else 0;
      if !A[i].isRed then count + 1 else count
  }

  /** Black nodes of a tree: those of its two subtrees, plus its root when
      that is black. */
  lemma BlackCount(t: Tree)
    requires t.Branch?
    ensures multiset(Colors(t))[false] ==
      multiset(Colors(t.left))[false] + (if t.red then 0 else 1) + multiset(Colors(t.right))[false]
  {
    assert Colors(t) == Colors(t.left) + [t.red] + Colors(t.right);
  }

  /** The rightmost node of a non-empty subtree, reached through right steps
      only: what `findMaxNode` is for. */
  function MaxPos(t: Tree): (r: Position)
    requires t.Branch?
    ensures r.node.Branch? && r.node.right.Leaf? && Plug(r.ctx, r.node) == t
    ensures After(r.ctx) == []
  {
    if t.right.Leaf? then At([], t)
    else
      var m := MaxPos(t.right);
      var f := GoRight(t.id, t.red, t.left, t.key);
      PlugAppend(m.ctx, [f], m.node);
      BeforeAfterAppend(m.ctx, [f]);
      At(m.ctx + [f], m.node)
  }

  // ---------------------------------------------------------------- lemmas

  /** A spelled-out subtree is empty exactly when its id is -1. */
  lemma LinkedNull(A: seq<Node>, p: int, t: Tree)
    requires Linked(A, p, t)
    ensures (IdOf(t) == -1) == t.Leaf? && (t.Branch? ==> 0 <= t.id < |A|)
  {
  }

  lemma {:induction false} PlugBranch(ctx: seq<Frame>, t: Tree)
    requires t.Branch?
    ensures Plug(ctx, t).Branch?
    decreases |ctx|
  {
    if ctx != [] {
      PlugBranch(ctx[1..], Attach(ctx[0], t));
    }
  }

  /** What the records say about a red node `z`, its parent and its
      grandparent: the links between them, their colours, on which side each
      hangs, and that `AuntOf` finds the grandparent's other subtree. */
  lemma {:induction false} Sides(A: seq<Node>, ctx: seq<Frame>, z: Tree)
    requires Linked(A, -1, Plug(ctx, z)) && Distinct(Plug(ctx, z)) && |ctx| >= 2 && z.Branch?
    ensures var p, g := ctx[0], ctx[1];
      0 <= z.id < |A| && 0 <= p.id < |A| && 0 <= g.id < |A| &&
      A[z.id].parent == p.id && A[p.id].parent == g.id &&
      A[z.id].isRed == z.red && A[p.id].isRed == p.red &&
      (A[p.id].rightChild == z.id <==> p.GoRight?) && (A[p.id].leftChild == z.id <==> p.GoLeft?) &&
      (A[g.id].rightChild == p.id <==> g.GoRight?) && (A[g.id].leftChild == p.id <==> g.GoLeft?) &&
      AuntOf(A, z.id) == IdOf(g.sibling) &&
      (g.sibling.Branch? ==> 0 <= g.sibling.id < |A| && A[g.sibling.id].isRed == g.sibling.red)
  {
    var p, g := ctx[0], ctx[1];
    PositionFacts(A, ctx, z);
    HoleSide(A, ctx, z, -1);
    var pz := Attach(p, z);
    assert Plug(ctx, z) == Plug(ctx[1..], pz);
    PositionFacts(A, ctx[1..], pz);
    HoleSide(A, ctx[1..], pz, -1);
    assert Linked(A, g.id, g.sibling);
  }

  /** After a rotation case of `balance` the new top is black, and painting
      the root black changes nothing. */
  lemma {:induction false} RotationCaseRoot(A: seq<Node>, up: seq<Frame>, gsub: Tree, top: Tree, r: int)
    requires Linked(A, -1, Plug(up, top)) && top.Branch? && !top.red && gsub.Branch?
    requires !IsRed(Plug(up, gsub))
    requires r == if up == [] then top.id else IdOf(Plug(up, gsub))
    ensures r == IdOf(Plug(up, top)) && 0 <= r < |A| && A[r := A[r].(isRed := false)] == A
    ensures 0 <= top.id < |A| && !A[top.id].isRed
  {
    RootIdPlug(up, top);
    RootIdPlug(up, gsub);
    RootPlug(up, top);
    RootPlug(up, gsub);
    PlugBranch(up, top);
    LinkedPlug(A, up, top, -1);
    BlackRootKept(A, Plug(up, top));
  }

  /** What `add` relies on at the free slot `InsertCtx` finds: linking a
      red node there leaves an ordered tree with fresh ids and a black root,
      and `Insertion.Add` is that tree after `Balance` when the slot's parent
      is red. */
  lemma AddSlot(A: seq<Node>, t: Tree, k: int)
    requires Linked(A, -1, t) && Distinct(t) && IsRedBlack(t) && t.Branch?
    ensures var ctx, z := Insertion.InsertCtx(t, k), Branch(|A|, true, Leaf, k, Leaf);
      ctx != [] && Plug(ctx, Leaf) == t &&
      Distinct(Plug(ctx, z)) && !IsRed(Plug(ctx, z)) && (ctx[0].red ==> |ctx| >= 2) &&
      IdOf(Plug(ctx, z)) == IdOf(t)
    ensures var ctx, z := Insertion.InsertCtx(t, k), Branch(|A|, true, Leaf, k, Leaf);
      var t1 := if ctx[0].red then Insertion.Balance(ctx, z) else Plug(ctx, z);
      Insertion.Add(t, k, |A|) == t1 && IsRedBlack(t1) && |Keys(t1)| == |Keys(t)| + 1
  {
    var ctx, z := Insertion.InsertCtx(t, k), Branch(|A|, true, Leaf, k, Leaf);
    LinkedIds(A, -1, t);
    Insertion.InsertCtxShape(t, k, z);
    Insertion.LinkRedLeafKeys(t, k, |A|);
    Insertion.LinkRedLeafShape(t, k, |A|);
    RootIdPlug(ctx, z);
    RootIdPlug(ctx, Leaf);
    Insertion.AddIsRedBlack(t, k, |A|);
    var t1 := Insertion.Add(t, k, |A|);
    assert |Keys(t1)| == |multiset(Keys(t1))|;
  }

  /** The zig-zag writes of `balance` each find the records they need. */
  lemma LeftRightCan(A: seq<Node>, g: int, atRoot: bool)
    requires LeftRightShape(A, g, atRoot)
    ensures var p := A[g].leftChild; var n := A[p].rightChild;
      var B0 := LeftRotationRecords(A, p);
      CanRotateLeft(A, p) && 0 <= g < |B0| && CanRotateRight(B0[g := B0[g].(leftChild := n)], g)
    ensures var n, B2 := A[A[g].leftChild].rightChild, LeftRightTurned(A, g, atRoot);
      g != n && CanReattach(B2, g, n, atRoot) && CanAdopt(ReattachRecords(B2, g, n, atRoot), n)
  {
    LeftRightTurnedValues(A, g, atRoot);
    LeftRightReady(A, g, atRoot);
    LeftRightValues(A, g, atRoot);
  }

  lemma RightLeftCan(A: seq<Node>, g: int, atRoot: bool)
    requires RightLeftShape(A, g, atRoot)
    ensures var p := A[g].rightChild; var n := A[p].leftChild;
      var B0 := RightRotationRecords(A, p);
      CanRotateRight(A, p) && 0 <= g < |B0| && CanRotateLeft(B0[g := B0[g].(rightChild := n)], g)
    ensures var n, B2 := A[A[g].rightChild].leftChild, RightLeftTurned(A, g, atRoot);
      g != n && CanReattach(B2, g, n, atRoot) && CanAdopt(ReattachRecords(B2, g, n, atRoot), n)
  {
    RightLeftTurnedValues(A, g, atRoot);
    RightLeftReady(A, g, atRoot);
    RightLeftValues(A, g, atRoot);
  }

  /** `MinPos` finds the first key, the least one in an ordered tree. */
  lemma MinPosLeast(t: Tree)
    requires t.Branch?
    ensures var m := Deletion.MinPos(t).node;
      m.key in Keys(t) && (Sorted(Keys(t)) ==> forall x :: x in Keys(t) ==> m.key <= x)
  {
    var m := Deletion.MinPos(t);
    KeysPlug(m.ctx, m.node);
    assert Keys(m.node) == [] + [m.node.key] + Keys(m.node.right);
    assert Keys(t)[0] == m.node.key;
  }

  /** `MaxPos` finds the last key, the greatest one in an ordered tree. */
  lemma MaxPosGreatest(t: Tree)
    requires t.Branch?
    ensures var m := MaxPos(t).node;
      m.key in Keys(t) && (Sorted(Keys(t)) ==> forall x :: x in Keys(t) ==> x <= m.key)
  {
    var m := MaxPos(t);
    KeysPlug(m.ctx, m.node);
    assert Keys(m.node) == Keys(m.node.left) + [m.node.key] + [];
    assert Keys(t)[|Keys(t)| - 1] == m.node.key;
  }

  /** A node's colour with `null` counted black, as the red-black rules
      count it. */
  function RedAt(A: seq<Node>, i: int): bool
    requires Ref(A, i)
  {
    i != -1 && A[i].isRed
  }

  /** The test of the `fixRemove` loop, read on the records, is the test
      on the position: `x` is below the root and black. */
  lemma LoopTest(A: seq<Node>, root: int, ctx: seq<Frame>, x: Tree)
    requires Spells(A, root, Plug(ctx, x))
    ensures Ref(A, IdOf(x))
    ensures (IdOf(x) != root && !RedAt(A, IdOf(x))) <==> (ctx != [] && !IsRed(x))
  {
    PositionFacts(A, ctx, x);
    if x.Branch? {
      assert x.id in Ids(x);
    }
  }

  /** A pass of `fixRemove` that ends in case 3.4 leaves `x` at the root,
      where the loop stops and only the final painting remains. */
  lemma FinishedPass(t: Tree)
    requires Balanced(Blacken(t)) && NoRedRed(Blacken(t))
    ensures Deletion.DelInv([], t) && Deletion.FixRemove([], t) == Blacken(t)
  {
  }

  /** The search of `remove` part way down: `pre` is the path walked so far
      and `last` the last node seen whose key equals the one sought; the
      search of the rest `r` below finishes it. */
  function Resume(r: Option<Position>, pre: seq<Frame>, last: Option<Position>): Option<Position> {
    match r
    case Some(At(c, n)) => Some(At(c + pre, n))
    case None => last
  }

  /** One step of the search loop of `remove` keeps the search result. */
  lemma {:induction false} SearchStep(sub: Tree, k: int, pre: seq<Frame>, last: Option<Position>)
    requires sub.Branch?
    ensures var f := if k >= sub.key then GoRight(sub.id, sub.red, sub.left, sub.key)
                     else GoLeft(sub.id, sub.red, sub.key, sub.right);
      var last' := if k == sub.key then Some(At(pre, sub)) else last;
      Resume(Deletion.FindLast(sub, k), pre, last) ==
      Resume(Deletion.FindLast(if k >= sub.key then sub.right else sub.left, k), [f] + pre, last')
  {
    var f := if k >= sub.key then GoRight(sub.id, sub.red, sub.left, sub.key)
             else GoLeft(sub.id, sub.red, sub.key, sub.right);
    match Deletion.FindLast(if k >= sub.key then sub.right else sub.left, k)
    case Some(At(c, n)) =>
      assert c + [f] + pre == c + ([f] + pre);
    case None =>
      assert [] + pre == pre;
  }

  /** The node at a position has no parent exactly at the root. */
  lemma NoParentAtRoot(A: seq<Node>, ctx: seq<Frame>, t: Tree)
    requires Linked(A, -1, Plug(ctx, t)) && Distinct(Plug(ctx, t))
    ensures Above(ctx, -1) == -1 <==> ctx == []
  {
    PositionFacts(A, ctx, t);
  }

  /** What `remove` leaves, summed up for the class invariant. */
  lemma RemoveFacts(t: Tree, k: int)
    requires IsRedBlack(t)
    ensures var t' := Deletion.Remove(t, k);
      IsRedBlack(t') && multiset(Keys(t')) == multiset(Keys(t)) - multiset{k} &&
      |Keys(t')| == |Keys(t)| - (if k in Keys(t) then 1 else 0) &&
      (Keys(t) == [] ==> t' == t)
  {
    Deletion.RemoveIsRedBlack(t, k);
    RemoveCount(t, k);
  }

  /** The search of `remove` from the root, before any step. */
  lemma ResumeStart(r: Option<Position>)
    ensures Resume(r, [], None) == r
  {
    if r.Some? {
      assert r.value.ctx + [] == r.value.ctx;
    }
  }

  /** `remove` takes one key off the count exactly when the key is there. */
  lemma RemoveCount(t: Tree, k: int)
    requires IsRedBlack(t)
    ensures |Keys(Deletion.Remove(t, k))| == |Keys(t)| - (if k in Keys(t) then 1 else 0)
  {
    Deletion.RemoveIsRedBlack(t, k);
    if k in Keys(t) {
      var s, s' := Keys(t), Keys(Deletion.Remove(t, k));
      assert k in multiset(s);
      assert |multiset(s')| == |multiset(s) - multiset{k}| == |multiset(s)| - 1;
    }
  }

  class RedBlackTree {
    var nodes: seq<Node>
    var root: int
    var size: int
    /** The tree the records spell out. */
    ghost var tree: Tree

    ghost predicate Valid()
      reads this
    {
      Spells(nodes, root, tree) && IsRedBlack(tree) && size == |Keys(tree)|
    }

    constructor ()
      ensures Valid() && tree == Leaf && nodes == []
    {
      size := 0;
      root := -1;
      nodes := [];
      tree := Leaf;
    }

    /** `size()`: the number of keys stored. */
    method Size() returns (n: int)
      requires Valid()
      ensures n == |Keys(tree)|
    {
      n := size;
    }

    /** `clear()`: forgets the root; the records stay behind unreachable. */
    method Clear()
      modifies this
      ensures Valid() && tree == Leaf && nodes == old(nodes)
    {
      root := -1;
      size := 0;
      tree := Leaf;
    }

    /** `isEmpty()`, testing the root itself. */
    method IsEmpty() returns (b: bool)
      requires Valid()
      ensures b <==> Keys(tree) == []
    {
      b := root == -1;
    }

    /** `contains(obj)`. */
    method Contains(k: int) returns (b: bool)
      requires Valid()
      ensures b <==> k in Keys(tree)
    {
      b := ContainsAt(nodes, root, k, -1, tree);
    }

    /** `height()`: 0 for the empty tree, otherwise the edges on the
        longest path from the root. */
    method Height() returns (h: int)
      requires Valid()
      ensures h == if tree.Leaf? then 0 else Levels(tree) - 1
    {
      h := if root == -1 then 0 else HeightAt(nodes, root, -1, tree);
    }

    /** `countBlack()`. */
    method CountBlack() returns (c: int)
      requires Valid()
      ensures c == multiset(Colors(tree))[false]
    {
      c := CountBlackAt(nodes, root, -1, tree);
    }

    /** `findMinNode(node)`, as its name promises: the leftmost node of the
        subtree rooted at `node`, reached through left children. */
    method FindMinNode(node: int, ghost p: int, ghost t: Tree) returns (m: int)
      requires Linked(nodes, p, t) && t.Branch? && node == t.id
      ensures m == Deletion.MinPos(t).node.id
    {
      m := node;
      ghost var sub, q := t, p;
      while nodes[m].leftChild != -1
        invariant Linked(nodes, q, sub) && sub.Branch? && m == sub.id
        invariant Deletion.MinPos(sub).node == Deletion.MinPos(t).node
        decreases sub
      {
        LinkedNull(nodes, m, sub.left);
        q, sub := m, sub.left;
        m := nodes[m].leftChild;
      }
      LinkedNull(nodes, m, sub.left);
    }

    /** `findMaxNode(node)`, as its name promises: the rightmost node of the
        subtree rooted at `node`. */
    method FindMaxNode(node: int, ghost p: int, ghost t: Tree) returns (m: int)
      requires Linked(nodes, p, t) && t.Branch? && node == t.id
      ensures m == MaxPos(t).node.id
    {
      m := node;
      ghost var sub, q := t, p;
      while nodes[m].rightChild != -1
        invariant Linked(nodes, q, sub) && sub.Branch? && m == sub.id
        invariant MaxPos(sub).node == MaxPos(t).node
        decreases sub
      {
        LinkedNull(nodes, m, sub.right);
        q, sub := m, sub.right;
        m := nodes[m].rightChild;
      }
      LinkedNull(nodes, m, sub.right);
    }

    /** `findMin()`: nothing for the empty tree, otherwise the least key. */
    method FindMin() returns (r: Option<int>)
      requires Valid()
      ensures r.None? <==> Keys(tree) == []
      ensures r.Some? ==> r.value in Keys(tree) && forall x :: x in Keys(tree) ==> r.value <= x
    {
      LinkedNull(nodes, -1, tree);
      if root == -1 {
        return None;
      }
      var m := FindMinNode(root, -1, tree);
      ghost var pos := Deletion.MinPos(tree);
      MinPosLeast(tree);
      PositionFacts(nodes, pos.ctx, pos.node);
      r := Some(nodes[m].data);
    }

    /** `findMax()`: nothing for the empty tree, otherwise the greatest key. */
    method FindMax() returns (r: Option<int>)
      requires Valid()
      ensures r.None? <==> Keys(tree) == []
      ensures r.Some? ==> r.value in Keys(tree) && forall x :: x in Keys(tree) ==> x <= r.value
    {
      LinkedNull(nodes, -1, tree);
      if root == -1 {
        return None;
      }
      var m := FindMaxNode(root, -1, tree);
      ghost var pos := MaxPos(tree);
      MaxPosGreatest(tree);
      PositionFacts(nodes, pos.ctx, pos.node);
      r := Some(nodes[m].data);
    }

    /** `leftRotation(node)`. */
    method LeftRotation(n: int) returns (newTop: int)
      requires CanRotateLeft(nodes, n)
      modifies this
      ensures nodes == LeftRotationRecords(old(nodes), n) && newTop == old(nodes)[n].rightChild
      ensures root == old(root) && size == old(size) && tree == old(tree)
    {
      newTop := nodes[n].rightChild;
      nodes := nodes[n := nodes[n].(rightChild := nodes[newTop].leftChild)];
      if nodes[newTop].leftChild != -1 {
        var b := nodes[newTop].leftChild;
        nodes := nodes[b := nodes[b].(parent := n)];
      }
      nodes := nodes[newTop := nodes[newTop].(leftChild := n)];
    }

    /** `rightRotation(node)`. */
    method RightRotation(n: int) returns (newTop: int)
      requires CanRotateRight(nodes, n)
      modifies this
      ensures nodes == RightRotationRecords(old(nodes), n) && newTop == old(nodes)[n].leftChild
      ensures root == old(root) && size == old(size) && tree == old(tree)
    {
      newTop := nodes[n].leftChild;
      nodes := nodes[n := nodes[n].(leftChild := nodes[newTop].rightChild)];
      if nodes[newTop].rightChild != -1 {
        var b := nodes[newTop].rightChild;
        nodes := nodes[b := nodes[b].(parent := n)];
      }
      nodes := nodes[newTop := nodes[newTop].(rightChild := n)];
    }

    /** The relinking block that follows each rotation in `balance`: the new
        top takes the old top's place under its parent, or becomes the
        root. */
    method Reattach(was: int, top: int)
      requires CanReattach(nodes, was, top, was == root) && was != top
      modifies this
      ensures nodes == ReattachRecords(old(nodes), was, top, was == old(root))
      ensures root == (if was == old(root) then top else old(root))
      ensures size == old(size) && tree == old(tree)
    {
      if was != root {
        nodes := nodes[top := nodes[top].(parent := nodes[was].parent)];
        var up := nodes[was].parent;
        if nodes[up].rightChild == was {
          nodes := nodes[up := nodes[up].(rightChild := top)];
        } else if nodes[up].leftChild == was {
          nodes := nodes[up := nodes[up].(leftChild := top)];
        }
      } else {
        root := top;
        nodes := nodes[root := nodes[root].(parent := -1)];
      }
    }

    /** `newTop.leftChild.parent = newTop; newTop.rightChild.parent = newTop`
        after a double rotation. */
    method Adopt(top: int)
      requires CanAdopt(nodes, top)
      modifies this
      ensures nodes == AdoptRecords(old(nodes), top)
      ensures root == old(root) && size == old(size) && tree == old(tree)
    {
      var l := nodes[top].leftChild;
      nodes := nodes[l := nodes[l].(parent := top)];
      var r := nodes[top].rightChild;
      nodes := nodes[r := nodes[r].(parent := top)];
    }

    /** The recolouring that ends each rotation case of `balance`. */
    method RecolorTop(top: int)
      requires CanRecolor(nodes, top) && 0 <= root < |nodes|
      modifies this
      ensures root == old(root) && size == old(size) && tree == old(tree)
      ensures var B := RecolorRecords(old(nodes), top); nodes == B[root := B[root].(isRed := false)]
    {
      nodes := nodes[top := nodes[top].(isRed := false)];
      var l := nodes[top].leftChild;
      nodes := nodes[l := nodes[l].(isRed := true)];
      var r := nodes[top].rightChild;
      nodes := nodes[r := nodes[r].(isRed := true)];
      nodes := nodes[root := nodes[root].(isRed := false)];
    }

    /** The rotation case of `balance` for a red `node` that is the right
        child of a red right child: a left rotation at the grandparent. */
    method RightRightCase(grandpa: int, ghost ctx: seq<Frame>, ghost z: Tree) returns (newTop: int)
      requires Spells(nodes, root, Plug(ctx, z))
      requires |ctx| >= 2 && IsRed(z) && ctx[0].red && !IsRed(Plug(ctx, z)) && !IsRed(ctx[1].sibling)
      requires ctx[0].GoRight? && ctx[1].GoRight? && grandpa == ctx[1].id
      modifies this
      ensures Spells(nodes, root, Insertion.Balance(ctx, z))
      ensures 0 <= newTop < |nodes| && !nodes[newTop].isRed
      ensures |nodes| == old(|nodes|) && size == old(size) && tree == old(tree)
    {
      ghost var A, up := nodes, ctx[2..];
      ghost var gsub := Attach(ctx[1], Attach(ctx[0], z));
      Insertion.PlugTwo(ctx, z);
      PositionFacts(nodes, up, gsub);
      RotateLeftLinked(A, up, gsub);
      newTop := LeftRotation(grandpa);
      Reattach(grandpa, newTop);
      var l := nodes[newTop].leftChild;
      nodes := nodes[l := nodes[l].(parent := newTop)];
      assert nodes == RotateLeftAtRecords(A, grandpa, up == []);
      RecolorLinked(nodes, up, RotateLeft(gsub));
      RecolorTop(newTop);
      RotationCaseRoot(RecolorRecords(RotateLeftAtRecords(A, grandpa, up == []), newTop), up, gsub,
                       Insertion.Restructure(ctx[0], ctx[1], z), root);
    }

    /** The rotation case for a red `node` that is the right child of a red
        left child: a left rotation at the parent, then a right rotation at
        the grandparent. */
    method LeftRightCase(node: int, parent: int, grandpa: int, ghost ctx: seq<Frame>, ghost z: Tree) returns (newTop: int)
      requires Spells(nodes, root, Plug(ctx, z))
      requires |ctx| >= 2 && IsRed(z) && ctx[0].red && !IsRed(Plug(ctx, z)) && !IsRed(ctx[1].sibling)
      requires ctx[0].GoRight? && ctx[1].GoLeft?
      requires node == z.id && parent == ctx[0].id && grandpa == ctx[1].id
      modifies this
      ensures Spells(nodes, root, Insertion.Balance(ctx, z))
      ensures 0 <= newTop < |nodes| && !nodes[newTop].isRed
      ensures |nodes| == old(|nodes|) && size == old(size) && tree == old(tree)
    {
      ghost var A, up := nodes, ctx[2..];
      ghost var gsub := Attach(ctx[1], Attach(ctx[0], z));
      Insertion.PlugTwo(ctx, z);
      PositionFacts(nodes, up, gsub);
      LeftRightLinked(A, up, gsub);
      LeftRightCan(A, grandpa, up == []);
      var _ := LeftRotation(parent);
      nodes := nodes[grandpa := nodes[grandpa].(leftChild := node)];
      newTop := RightRotation(grandpa);
      Reattach(grandpa, newTop);
      Adopt(newTop);
      assert nodes == LeftRightRecords(A, grandpa, up == []);
      RecolorLinked(nodes, up, RotateRight(gsub.(left := RotateLeft(gsub.left))));
      RecolorTop(newTop);
      RotationCaseRoot(RecolorRecords(LeftRightRecords(A, grandpa, up == []), newTop), up, gsub,
                       Insertion.Restructure(ctx[0], ctx[1], z), root);
    }

    /** The rotation case for a red `node` that is the left child of a red
        right child: a right rotation at the parent, then a left rotation at
        the grandparent. */
    method RightLeftCase(node: int, parent: int, grandpa: int, ghost ctx: seq<Frame>, ghost z: Tree) returns (newTop: int)
      requires Spells(nodes, root, Plug(ctx, z))
      requires |ctx| >= 2 && IsRed(z) && ctx[0].red && !IsRed(Plug(ctx, z)) && !IsRed(ctx[1].sibling)
      requires ctx[0].GoLeft? && ctx[1].GoRight?
      requires node == z.id && parent == ctx[0].id && grandpa == ctx[1].id
      modifies this
      ensures Spells(nodes, root, Insertion.Balance(ctx, z))
      ensures 0 <= newTop < |nodes| && !nodes[newTop].isRed
      ensures |nodes| == old(|nodes|) && size == old(size) && tree == old(tree)
    {
      ghost var A, up := nodes, ctx[2..];
      ghost var gsub := Attach(ctx[1], Attach(ctx[0], z));
      Insertion.PlugTwo(ctx, z);
      PositionFacts(nodes, up, gsub);
      RightLeftLinked(A, up, gsub);
      RightLeftCan(A, grandpa, up == []);
      var _ := RightRotation(parent);
      nodes := nodes[grandpa := nodes[grandpa].(rightChild := node)];
      newTop := LeftRotation(grandpa);
      Reattach(grandpa, newTop);
      Adopt(newTop);
      assert nodes == RightLeftRecords(A, grandpa, up == []);
      RecolorLinked(nodes, up, RotateLeft(gsub.(right := RotateRight(gsub.right))));
      RecolorTop(newTop);
      RotationCaseRoot(RecolorRecords(RightLeftRecords(A, grandpa, up == []), newTop), up, gsub,
                       Insertion.Restructure(ctx[0], ctx[1], z), root);
    }

    /** The rotation case for a red `node` that is the left child of a red
        left child: a right rotation at the grandparent. */
    method LeftLeftCase(grandpa: int, ghost ctx: seq<Frame>, ghost z: Tree) returns (newTop: int)
      requires Spells(nodes, root, Plug(ctx, z))
      requires |ctx| >= 2 && IsRed(z) && ctx[0].red && !IsRed(Plug(ctx, z)) && !IsRed(ctx[1].sibling)
      requires ctx[0].GoLeft? && ctx[1].GoLeft? && grandpa == ctx[1].id
      modifies this
      ensures Spells(nodes, root, Insertion.Balance(ctx, z))
      ensures 0 <= newTop < |nodes| && !nodes[newTop].isRed
      ensures |nodes| == old(|nodes|) && size == old(size) && tree == old(tree)
    {
      ghost var A, up := nodes, ctx[2..];
      ghost var gsub := Attach(ctx[1], Attach(ctx[0], z));
      Insertion.PlugTwo(ctx, z);
      PositionFacts(nodes, up, gsub);
      RotateRightLinked(A, up, gsub);
      newTop := RightRotation(grandpa);
      Reattach(grandpa, newTop);
      var r := nodes[newTop].rightChild;
      nodes := nodes[r := nodes[r].(parent := newTop)];
      assert nodes == RotateRightAtRecords(A, grandpa, up == []);
      RecolorLinked(nodes, up, RotateRight(gsub));
      RecolorTop(newTop);
      RotationCaseRoot(RecolorRecords(RotateRightAtRecords(A, grandpa, up == []), newTop), up, gsub,
                       Insertion.Restructure(ctx[0], ctx[1], z), root);
    }

    /** The colour flip of `balance` (the aunt is red): parent and aunt turn
        black, the grandparent red, and the root black. */
    method ColorFlip(parent: int, aunt: int, grandpa: int, ghost ctx: seq<Frame>, ghost z: Tree)
      requires Spells(nodes, root, Plug(ctx, z))
      requires |ctx| >= 2 && IsRed(z) && ctx[0].red && !IsRed(Plug(ctx, z)) && IsRed(ctx[1].sibling)
      requires parent == ctx[0].id && aunt == ctx[1].sibling.id && grandpa == ctx[1].id
      modifies this
      ensures var p, g := ctx[0], ctx[1];
        var g' := Attach(g.(red := true, sibling := Blacken(g.sibling)), Attach(p.(red := false), z));
        Spells(nodes, root, if ctx[2..] == [] then Blacken(g') else Plug(ctx[2..], g'))
      ensures (grandpa == root <==> ctx[2..] == []) && 0 <= grandpa < |nodes|
      ensures ctx[2..] != [] ==>
        nodes[grandpa].isRed && nodes[grandpa].parent == ctx[2].id &&
        0 <= ctx[2].id < |nodes| && nodes[ctx[2].id].isRed == ctx[2].red
      ensures |nodes| == old(|nodes|) && root == old(root) && size == old(size) && tree == old(tree)
    {
      ghost var A, p, g, up := nodes, ctx[0], ctx[1], ctx[2..];
      ghost var gsub := Attach(g, Attach(p, z));
      ghost var g' := Attach(g.(red := true, sibling := Blacken(g.sibling)), Attach(p.(red := false), z));
      Insertion.PlugTwo(ctx, z);
      PositionFacts(nodes, up, gsub);
      FlipLinked(A, ctx, z);
      nodes := nodes[parent := nodes[parent].(isRed := false)];
      nodes := nodes[aunt := nodes[aunt].(isRed := false)];
      nodes := nodes[grandpa := nodes[grandpa].(isRed := true)];
      ghost var B := nodes;
      nodes := nodes[root := nodes[root].(isRed := false)];
      if up == [] {
        PaintLinked(B, [], g', false);
      } else {
        RootIdPlug(up, g');
        RootIdPlug(up, gsub);
        RootPlug(up, g');
        RootPlug(up, gsub);
        PlugBranch(up, g');
        BlackRootKept(B, Plug(up, g'));
        PositionFacts(nodes, up, g');
      }
    }

    /** `balance(node, parent)`: `z` is the subtree of the red `node`, whose
        red parent is `ctx[0]`; the records end up spelling out
        `Insertion.Balance(ctx, z)`. */
    method Balance(node: int, parent: int, ghost ctx: seq<Frame>, ghost z: Tree)
      requires Spells(nodes, root, Plug(ctx, z))
      requires |ctx| >= 2 && IsRed(z) && ctx[0].red && !IsRed(Plug(ctx, z))
      requires node == z.id && parent == ctx[0].id
      modifies this
      ensures Spells(nodes, root, Insertion.Balance(ctx, z))
      ensures |nodes| == old(|nodes|) && size == old(size) && tree == old(tree)
      decreases |ctx|
    {
      ghost var p, g, up := ctx[0], ctx[1], ctx[2..];
      ghost var g' := Attach(g.(red := true, sibling := Blacken(g.sibling)), Attach(p.(red := false), z));
      Sides(nodes, ctx, z);
      var newTop := -1;
      var grandpa := nodes[parent].parent;
      var aunt := AuntOf(nodes, node);
      if aunt == -1 || !nodes[aunt].isRed {
        if node == nodes[parent].rightChild {
          if parent == nodes[grandpa].rightChild {
            newTop := RightRightCase(grandpa, ctx, z);
          } else if parent == nodes[grandpa].leftChild {
            newTop := LeftRightCase(node, parent, grandpa, ctx, z);
          }
        } else if node == nodes[parent].leftChild {
          if parent == nodes[nodes[parent].parent].rightChild {
            newTop := RightLeftCase(node, parent, grandpa, ctx, z);
          } else if parent == nodes[grandpa].leftChild {
            newTop := LeftLeftCase(grandpa, ctx, z);
          }
        }
      } else {
        ColorFlip(parent, aunt, grandpa, ctx, z);
        newTop := grandpa;
      }
      if root != newTop {
        if nodes[newTop].isRed && nodes[nodes[newTop].parent].isRed {
          Insertion.PlugTwo(ctx, z);
          RootPlug(up, g');
          RootPlug(up, Attach(g, Attach(p, z)));
          Balance(newTop, nodes[newTop].parent, up, g');
        }
      }
    }

    /** The linking step of `add`: a new red node with key `k` becomes the
        child of `temp` on the side `right` says, at an empty slot. */
    method LinkRed(temp: int, right: bool, k: int, ghost ctx: seq<Frame>) returns (id: int)
      requires Spells(nodes, root, Plug(ctx, Leaf)) && ctx != []
      requires temp == ctx[0].id && right == ctx[0].GoRight?
      modifies this
      ensures id == old(|nodes|) && |nodes| == id + 1
      ensures Linked(nodes, -1, Plug(ctx, Branch(id, true, Leaf, k, Leaf)))
      ensures nodes[id].isRed && nodes[id].parent == temp && 0 <= temp < |nodes| && nodes[temp].isRed == ctx[0].red
      ensures root == old(root) && size == old(size) + 1 && tree == old(tree)
    {
      ghost var A := nodes;
      NewLeafLinked(A, ctx, k);
      PositionFacts(A, ctx, Leaf);
      id := |nodes|;
      nodes := nodes + [Node(k, true, -1, -1, -1)];
      nodes := nodes[id := nodes[id].(parent := temp)];
      if right {
        nodes := nodes[temp := nodes[temp].(rightChild := id)];
      } else {
        nodes := nodes[temp := nodes[temp].(leftChild := id)];
      }
      size := size + 1;
      assert nodes == NewLeafRecords(A, ctx[0].id, k, ctx[0].GoRight?);
      assert A[temp].isRed == ctx[0].red by {
        match ctx[0]
        case GoLeft(_, _, _, _) =>
        case GoRight(_, _, _, _) =>
      }
    }

    /** `add(data)`: a new red node is linked at the free slot the descent
        reaches (keys comparing `>=` go right), and `balance` runs when its
        parent is red; an empty tree gets a black root.  The new record goes
        at the end of `nodes`. */
    method Add(k: int) returns (added: bool)
      requires Valid()
      modifies this
      ensures Valid() && added
      ensures tree == Insertion.Add(old(tree), k, |old(nodes)|)
      ensures multiset(Keys(tree)) == multiset(Keys(old(tree))) + multiset{k}
    {
      ghost var t0, A := tree, nodes;
      added := true;
      if root == -1 {
        AddFirst(k);
      } else {
        assert tree.Branch? by { LinkedNull(nodes, -1, tree); }
        var temp, right := Descend(k, tree);
        LinkAndBalance(temp, right, k);
      }
      Insertion.AddIsRedBlack(t0, k, |A|);
    }

    /** `add` into an empty tree: the new node becomes the black root. */
    method AddFirst(k: int)
      requires Valid() && root == -1
      modifies this
      ensures Valid()
      ensures tree == Insertion.Add(old(tree), k, |old(nodes)|)
    {
      ghost var t0, A := tree, nodes;
      assert t0 == Leaf by { LinkedNull(A, -1, t0); }
      var id := |nodes|;
      nodes := nodes + [Node(k, true, -1, -1, -1)];
      root := id;
      size := size + 1;
      nodes := nodes[root := nodes[root].(isRed := false)];
      tree := Branch(id, false, Leaf, k, Leaf);
      assert nodes[id] == Node(k, false, -1, -1, -1);
      assert Linked(nodes, -1, tree);
    }

    /** The loop of `add` from the root of a linked tree `t0` down to the
        first missing child on the search path of `k`: that node and the side
        of the free slot, which are where plain binary-search-tree insertion
        puts `k`. */
    method Descend(k: int, ghost t0: Tree) returns (temp: int, right: bool)
      requires Linked(nodes, -1, t0) && t0.Branch? && root == t0.id
      ensures var ctx := Insertion.InsertCtx(t0, k);
        ctx != [] && temp == ctx[0].id && right == ctx[0].GoRight?
    {
      ghost var A := nodes;
      temp := root;
      ghost var sub, q := t0, -1;
      right := k >= nodes[temp].data;
      var next := if right then nodes[temp].rightChild else nodes[temp].leftChild;
      while next != -1
        invariant sub.Branch? && temp == sub.id && Linked(A, q, sub)
        invariant Insertion.InsertCtx(sub, k) != [] && Insertion.InsertCtx(sub, k)[0] == Insertion.InsertCtx(t0, k)[0]
        invariant right == (k >= sub.key) && next == IdOf(if right then sub.right else sub.left)
        decreases sub
      {
        q, sub := temp, if right then sub.right else sub.left;
        temp := next;
        right := k >= nodes[temp].data;
        next := if right then nodes[temp].rightChild else nodes[temp].leftChild;
      }
    }

    /** The end of `add` at the free slot under `temp`: link the new node,
        count it, and call `balance` when its parent is red. */
    method LinkAndBalance(temp: int, right: bool, k: int)
      requires Valid() && tree.Branch?
      requires var ctx := Insertion.InsertCtx(tree, k);
        ctx != [] && temp == ctx[0].id && right == ctx[0].GoRight?
      modifies this
      ensures Valid()
      ensures tree == Insertion.Add(old(tree), k, |old(nodes)|)
    {
      ghost var t0, A := tree, nodes;
      ghost var ctx, z := Insertion.InsertCtx(t0, k), Branch(|A|, true, Leaf, k, Leaf);
      AddSlot(A, t0, k);
      ghost var t1 := if ctx[0].red then Insertion.Balance(ctx, z) else Plug(ctx, z);
      var id := LinkRed(temp, right, k, ctx);
      if nodes[id].isRed && nodes[nodes[id].parent].isRed {
        Balance(id, temp, ctx, z);
      }
      tree := t1;
    }
  
    /** `colorTransplant(u, v)`: `v` takes the place of `u` under `u`'s
        parent, or becomes the root. */
    method ColorTransplant(u: int, v: int)
      requires CanTransplant(nodes, u, v)
      modifies this
      ensures nodes == TransplantRecords(old(nodes), u, v)
      ensures root == (if old(nodes)[u].parent == -1 then v else old(root))
      ensures size == old(size) && tree == old(tree)
    {
      var p := nodes[u].parent;
      if p == -1 {
        root := v;
      } else if u == nodes[p].leftChild {
        nodes := nodes[p := nodes[p].(leftChild := v)];
      } else {
        nodes := nodes[p := nodes[p].(rightChild := v)];
      }
      if v != -1 {
        nodes := nodes[v := nodes[v].(parent := p)];
      }
    }

    /** A left rotation inside `fixRemove`, followed by the relinking that
        `balance` does after its own rotations. */
    method RotateLeftAt(n: int)
      requires CanRotateLeft(nodes, n) && nodes[n].rightChild != n && nodes[nodes[n].rightChild].leftChild != n
      requires CanReattach(nodes, n, nodes[n].rightChild, n == root)
      requires CanReattach(LeftRotationRecords(nodes, n), n, nodes[n].rightChild, n == root)
      modifies this
      ensures nodes == RotateLeftAtRecords(old(nodes), n, n == old(root))
      ensures root == (if n == old(root) then old(nodes)[n].rightChild else old(root))
      ensures size == old(size) && tree == old(tree)
    {
      var y := LeftRotation(n);
      Reattach(n, y);
      nodes := nodes[n := nodes[n].(parent := y)];
    }

    /** A right rotation inside `fixRemove`, with the same relinking. */
    method RotateRightAt(n: int)
      requires CanRotateRight(nodes, n) && nodes[n].leftChild != n && nodes[nodes[n].leftChild].rightChild != n
      requires CanReattach(nodes, n, nodes[n].leftChild, n == root)
      requires CanReattach(RightRotationRecords(nodes, n), n, nodes[n].leftChild, n == root)
      modifies this
      ensures nodes == RotateRightAtRecords(old(nodes), n, n == old(root))
      ensures root == (if n == old(root) then old(nodes)[n].leftChild else old(root))
      ensures size == old(size) && tree == old(tree)
    {
      var y := RightRotation(n);
      Reattach(n, y);
      nodes := nodes[n := nodes[n].(parent := y)];
    }

    /** One colour write. */
    method PaintNode(i: int, c: bool)
      requires 0 <= i < |nodes|
      modifies this
      ensures nodes == Paint(old(nodes), i, c)
      ensures root == old(root) && size == old(size) && tree == old(tree)
    {
      nodes := nodes[i := nodes[i].(isRed := c)];
    }

    /** Case 3.1 of `fixRemove`: the red sibling of `x` is painted black,
        the parent red, and the parent is rotated towards `x`. */
    method RedSibling(xp: int, left: bool, ghost ctx: seq<Frame>, ghost x: Tree)
      requires Spells(nodes, root, Plug(ctx, x)) && ctx != [] && ctx[0].sibling.Branch?
      requires xp == ctx[0].id && left == ctx[0].GoLeft?
      modifies this
      ensures Spells(nodes, root, Plug(Deletion.RedSiblingRotation(ctx[0]) + ctx[1..], x))
      ensures |nodes| == old(|nodes|) && size == old(size) && tree == old(tree)
    {
      SiblingAt(nodes, ctx, x);
      var s := if left then nodes[xp].rightChild else nodes[xp].leftChild;
      if left {
        RedSiblingLeftLinked(nodes, ctx, x);
        PaintNode(s, false);
        PaintNode(xp, true);
        RotateLeftAt(xp);
      } else {
        RedSiblingRightLinked(nodes, ctx, x);
        PaintNode(s, false);
        PaintNode(xp, true);
        RotateRightAt(xp);
      }
    }

    /** Case 3.3 of `fixRemove` with `x` a left child: the sibling's red
        left child is painted black, the sibling red, and the sibling is
        rotated right, so that its new right child is red. */
    method NearChildLeft(xp: int, ghost ctx: seq<Frame>, ghost x: Tree)
      requires Spells(nodes, root, Plug(ctx, x)) && ctx != [] && ctx[0].GoLeft? && xp == ctx[0].id
      requires ctx[0].sibling.Branch? && ctx[0].sibling.left.Branch?
      modifies this
      ensures var s := ctx[0].sibling;
        var s2 := RotateRight(Branch(s.id, true, s.left.(red := false), s.key, s.right));
        Spells(nodes, root, Plug([ctx[0].(sibling := s2)] + ctx[1..], x))
      ensures |nodes| == old(|nodes|) && size == old(size) && tree == old(tree)
    {
      SiblingAt(nodes, ctx, x);
      NearChildLeftLinked(nodes, ctx, x);
      var s := nodes[xp].rightChild;
      PaintNode(nodes[s].leftChild, false);
      PaintNode(s, true);
      RotateRightAt(s);
    }

    /** Case 3.3 with `x` a right child, the mirror image. */
    method NearChildRight(xp: int, ghost ctx: seq<Frame>, ghost x: Tree)
      requires Spells(nodes, root, Plug(ctx, x)) && ctx != [] && ctx[0].GoRight? && xp == ctx[0].id
      requires ctx[0].sibling.Branch? && ctx[0].sibling.right.Branch?
      modifies this
      ensures var s := ctx[0].sibling;
        var s2 := RotateLeft(Branch(s.id, true, s.left, s.key, s.right.(red := false)));
        Spells(nodes, root, Plug([ctx[0].(sibling := s2)] + ctx[1..], x))
      ensures |nodes| == old(|nodes|) && size == old(size) && tree == old(tree)
    {
      SiblingAt(nodes, ctx, x);
      NearChildRightLinked(nodes, ctx, x);
      var s := nodes[xp].leftChild;
      PaintNode(nodes[s].rightChild, false);
      PaintNode(s, true);
      RotateLeftAt(s);
    }

    /** Case 3.4 of `fixRemove` with `x` a left child: the sibling takes
        the parent's colour, the parent and the sibling's red right child
        are painted black, and the parent is rotated left. */
    method FarChildLeft(xp: int, ghost ctx: seq<Frame>, ghost x: Tree)
      requires Spells(nodes, root, Plug(ctx, x)) && ctx != [] && ctx[0].GoLeft? && xp == ctx[0].id
      requires ctx[0].sibling.Branch? && ctx[0].sibling.right.Branch?
      modifies this
      ensures var f, s := ctx[0], ctx[0].sibling;
        Spells(nodes, root, Plug(ctx[1..], RotateLeft(Branch(f.id, false, x, f.key,
          Branch(s.id, f.red, s.left, s.key, s.right.(red := false))))))
      ensures |nodes| == old(|nodes|) && size == old(size) && tree == old(tree)
    {
      SiblingAt(nodes, ctx, x);
      FarChildLeftLinked(nodes, ctx, x);
      var s := nodes[xp].rightChild;
      PaintNode(s, nodes[xp].isRed);
      PaintNode(xp, false);
      PaintNode(nodes[s].rightChild, false);
      RotateLeftAt(xp);
    }

    /** Case 3.4 with `x` a right child, the mirror image. */
    method FarChildRight(xp: int, ghost ctx: seq<Frame>, ghost x: Tree)
      requires Spells(nodes, root, Plug(ctx, x)) && ctx != [] && ctx[0].GoRight? && xp == ctx[0].id
      requires ctx[0].sibling.Branch? && ctx[0].sibling.left.Branch?
      modifies this
      ensures var f, s := ctx[0], ctx[0].sibling;
        Spells(nodes, root, Plug(ctx[1..], RotateRight(Branch(f.id, false,
          Branch(s.id, f.red, s.left.(red := false), s.key, s.right), f.key, x))))
      ensures |nodes| == old(|nodes|) && size == old(size) && tree == old(tree)
    {
      SiblingAt(nodes, ctx, x);
      FarChildRightLinked(nodes, ctx, x);
      var s := nodes[xp].leftChild;
      PaintNode(s, nodes[xp].isRed);
      PaintNode(xp, false);
      PaintNode(nodes[s].leftChild, false);
      RotateRightAt(xp);
    }
  
    /** Cases 3.2 to 3.4 of a `fixRemove` pass, the sibling `s` of `x` being
        black.  Case 3.2 paints `s` red and moves `x` up to its parent;
        otherwise cases 3.3 and 3.4 end the loop with `x` at the root. */
    method BlackSibling(x: int, xp: int, left: bool, ghost ctx: seq<Frame>, ghost xt: Tree)
      returns (x': int, xp': int, ghost ctx': seq<Frame>, ghost xt': Tree)
      requires Spells(nodes, root, Plug(ctx, xt)) && ctx != [] && x == IdOf(xt)
      requires ctx[0].sibling.Branch? && !ctx[0].sibling.red
      requires xp == ctx[0].id && left == ctx[0].GoLeft?
      modifies this
      ensures var r := Deletion.BlackSiblingStep(ctx, xt);
        (r.Continue? ==> ctx' == r.ctx && xt' == r.x) &&
        (r.Done? ==> ctx' == [] && Blacken(xt') == r.t)
      ensures Spells(nodes, root, Plug(ctx', xt')) && x' == IdOf(xt') && xp' == Above(ctx', -1)
      ensures |nodes| == old(|nodes|) && size == old(size) && tree == old(tree)
    {
      SiblingAt(nodes, ctx, xt);
      ghost var f, sib := ctx[0], ctx[0].sibling;
      var s := if left then nodes[xp].rightChild else nodes[xp].leftChild;
      if !RedAt(nodes, nodes[s].leftChild) && !RedAt(nodes, nodes[s].rightChild) {
        RecolorSiblingLinked(nodes, ctx, xt);
        PaintNode(s, true);
        x' := xp;
        xp' := nodes[xp].parent;
        ctx' := ctx[1..];
        xt' := Attach(f.(sibling := sib.(red := true)), xt);
      } else {
        ghost var c := ctx;
        if left {
          if !RedAt(nodes, nodes[s].rightChild) {
            NearChildLeft(xp, ctx, xt);
            c := [f.(sibling := RotateRight(Branch(sib.id, true, sib.left.(red := false), sib.key, sib.right)))] + ctx[1..];
          }
          assert c[1..] == ctx[1..];
          FarChildLeft(xp, c, xt);
        } else {
          if !RedAt(nodes, nodes[s].leftChild) {
            NearChildRight(xp, ctx, xt);
            c := [f.(sibling := RotateLeft(Branch(sib.id, true, sib.left, sib.key, sib.right.(red := false))))] + ctx[1..];
          }
          assert c[1..] == ctx[1..];
          FarChildRight(xp, c, xt);
        }
        x' := root;
        xp' := -1;
        ctx' := [];
        xt' := Plug(ctx[1..], Deletion.FarChildRotation(f, xt));
      }
    }

    /** One pass of the `fixRemove` loop body, for a black `x` below the
        root; `x` may be a missing child, whose parent is `xp`. */
    method FixPass(x: int, xp: int, ghost ctx: seq<Frame>, ghost xt: Tree)
      returns (x': int, xp': int, ghost ctx': seq<Frame>, ghost xt': Tree)
      requires Spells(nodes, root, Plug(ctx, xt)) && Deletion.DelInv(ctx, xt)
      requires ctx != [] && !IsRed(xt) && x == IdOf(xt) && xp == Above(ctx, -1)
      modifies this
      ensures Spells(nodes, root, Plug(ctx', xt')) && Deletion.DelInv(ctx', xt')
      ensures x' == IdOf(xt') && xp' == Above(ctx', -1)
      ensures Deletion.FixRemove(ctx', xt') == Deletion.FixRemove(ctx, xt)
      ensures |ctx'| + (if IsRed(xt') then 0 else 1) < |ctx| + 1
      ensures |nodes| == old(|nodes|) && size == old(size) && tree == old(tree)
    {
      Deletion.SiblingExists(ctx, xt);
      SiblingAt(nodes, ctx, xt);
      var left := x == nodes[xp].leftChild;
      var s := if left then nodes[xp].rightChild else nodes[xp].leftChild;
      ghost var c := ctx;
      if nodes[s].isRed {
        RedSibling(xp, left, ctx, xt);
        Deletion.RedSiblingFacts(ctx, xt);
        c := Deletion.RedSiblingRotation(ctx[0]) + ctx[1..];
      }
      Deletion.FixStepFacts(ctx, xt);
      assert Deletion.FixStep(ctx, xt) == Deletion.BlackSiblingStep(c, xt);
      x', xp', ctx', xt' := BlackSibling(x, xp, left, c, xt);
      if Deletion.BlackSiblingStep(c, xt).Done? {
        FinishedPass(xt');
      }
    }

    /** `fixRemove`: while `x` is black and not the root, one pass of the
        loop; then `x` is painted black.  The loop follows the parent `xp`
        as well, so that it also repairs the place of a missing child. */
    method FixRemove(x0: int, xp0: int, ghost ctx0: seq<Frame>, ghost xt0: Tree)
      requires Spells(nodes, root, Plug(ctx0, xt0)) && Deletion.DelInv(ctx0, xt0)
      requires x0 == IdOf(xt0) && xp0 == Above(ctx0, -1)
      modifies this
      ensures Spells(nodes, root, Deletion.FixRemove(ctx0, xt0))
      ensures |nodes| == old(|nodes|) && size == old(size) && tree == old(tree)
    {
      var x, xp := x0, xp0;
      ghost var ctx, xt := ctx0, xt0;
      LoopTest(nodes, root, ctx, xt);
      while x != root && !RedAt(nodes, x)
        invariant Spells(nodes, root, Plug(ctx, xt)) && Deletion.DelInv(ctx, xt)
        invariant x == IdOf(xt) && xp == Above(ctx, -1) && Ref(nodes, x)
        invariant (x != root && !RedAt(nodes, x)) <==> (ctx != [] && !IsRed(xt))
        invariant Deletion.FixRemove(ctx, xt) == Deletion.FixRemove(ctx0, xt0)
        invariant |nodes| == old(|nodes|) && size == old(size) && tree == old(tree)
        decreases |ctx| + (if IsRed(xt) then 0 else 1)
      {
        x, xp, ctx, xt := FixPass(x, xp, ctx, xt);
        LoopTest(nodes, root, ctx, xt);
      }
      assert Deletion.FixRemove(ctx, xt) == Plug(ctx, Blacken(xt));
      if x != -1 {
        PaintLinked(nodes, ctx, xt, false);
        RootIdPlug(ctx, xt);
        RootIdPlug(ctx, xt.(red := false));
        PaintNode(x, false);
      } else {
        PositionFacts(nodes, ctx, xt);
        assert xt == Leaf;
      }
    }
  
    /** `y.leftChild = l; y.leftChild.parent = y; y.isRed = c`. */
    method AdoptLeft(y: int, l: int, c: bool)
      requires 0 <= y < |nodes| && 0 <= l < |nodes|
      modifies this
      ensures nodes == AdoptLeftRecords(old(nodes), y, l, c)
      ensures root == old(root) && size == old(size) && tree == old(tree)
    {
      nodes := nodes[y := nodes[y].(leftChild := l)];
      nodes := nodes[l := nodes[l].(parent := y)];
      nodes := nodes[y := nodes[y].(isRed := c)];
    }

    /** `y.rightChild = r; y.rightChild.parent = y`. */
    method AdoptRight(y: int, r: int)
      requires 0 <= y < |nodes| && 0 <= r < |nodes|
      modifies this
      ensures nodes == AdoptRightRecords(old(nodes), y, r)
      ensures root == old(root) && size == old(size) && tree == old(tree)
    {
      nodes := nodes[y := nodes[y].(rightChild := r)];
      nodes := nodes[r := nodes[r].(parent := y)];
    }

    /** The two-children case of `remove` when the successor `y` is the
        right child of `z`: `y` keeps its right subtree and takes `z`'s
        place, left subtree and colour; `x` stays below `y`. */
    method AdjacentSuccessor(z: int, y: int, x: int, ghost zctx: seq<Frame>, ghost zt: Tree)
      returns (xp: int)
      requires zt.Branch? && Spells(nodes, root, Plug(zctx, zt)) && z == zt.id
      requires zt.left.Branch? && zt.right.Branch? && zt.right.left.Leaf?
      requires y == zt.right.id && x == IdOf(zt.right.right)
      modifies this
      ensures var g := GoRight(y, zt.red, zt.left, zt.right.key);
        Spells(nodes, root, Plug([g] + zctx, zt.right.right))
      ensures xp == y
      ensures |nodes| == old(|nodes|) && size == old(size) && tree == old(tree)
    {
      ghost var yt := zt.right;
      ghost var w := Branch(y, zt.red, zt.left, yt.key, yt.right);
      AdjacentLinked(nodes, zctx, zt);
      NoParentAtRoot(nodes, zctx, zt);
      RootKept(zctx, zt, w);
      assert Plug([], yt.right) == yt.right;
      Deletion.SuccessorPlug(zctx, zt, [], yt);
      assert [] + [GoRight(y, zt.red, zt.left, yt.key)] + zctx == [GoRight(y, zt.red, zt.left, yt.key)] + zctx;
      if x != -1 {
        assert nodes[x := nodes[x].(parent := y)] == nodes;
        nodes := nodes[x := nodes[x].(parent := y)];
      }
      xp := y;
      var l, c := nodes[z].leftChild, nodes[z].isRed;
      ColorTransplant(z, y);
      AdoptLeft(y, l, c);
    }

    /** `colorTransplant(y, y.rightChild)` for the successor `y` deeper in
        the right subtree of `z`: the records spell out `z` with `y` cut out
        of its right subtree, and `y`'s old parent is returned. */
    method DetachSuccessor(y: int, x: int, ghost zctx: seq<Frame>, ghost zt: Tree, ghost yctx: seq<Frame>, ghost yt: Tree)
      returns (xp: int)
      requires zt.Branch? && Spells(nodes, root, Plug(zctx, zt))
      requires yt.Branch? && yt.left.Leaf? && Plug(yctx, yt) == zt.right && yctx != []
      requires y == yt.id && x == IdOf(yt.right)
      modifies this
      ensures Spells(nodes, root, Plug(zctx, zt.(right := Plug(yctx, yt.right))))
      ensures 0 <= y < |nodes| && y !in Ids(Plug(zctx, zt.(right := Plug(yctx, yt.right)))) && nodes[y].data == yt.key
      ensures Plug(yctx, yt.right).Branch?
      ensures xp == yctx[0].id
      ensures |nodes| == old(|nodes|) && size == old(size) && tree == old(tree)
    {
      ghost var z1 := zt.(right := Plug(yctx, yt.right));
      DetachLinked(nodes, zctx, zt, yctx, yt);
      RootKept(zctx, zt, z1);
      NoParentAtRoot(nodes, zctx, zt);
      xp := nodes[y].parent;
      ColorTransplant(y, x);
    }

    /** The two-children case of `remove` when the successor `y` lies
        deeper: `y`'s right child `x` takes `y`'s place, then `y` takes over
        the right subtree of `z`, and `z`'s place, left subtree and colour. */
    method DistantSuccessor(z: int, y: int, x: int, ghost zctx: seq<Frame>, ghost zt: Tree, ghost yctx: seq<Frame>, ghost yt: Tree)
      returns (xp: int)
      requires zt.Branch? && Spells(nodes, root, Plug(zctx, zt)) && z == zt.id
      requires zt.left.Branch? && zt.right.Branch?
      requires yt.Branch? && yt.left.Leaf? && Plug(yctx, yt) == zt.right && yctx != []
      requires y == yt.id && x == IdOf(yt.right)
      modifies this
      ensures var g := GoRight(y, zt.red, zt.left, yt.key);
        Spells(nodes, root, Plug(yctx + [g] + zctx, yt.right))
      ensures xp == yctx[0].id
      ensures |nodes| == old(|nodes|) && size == old(size) && tree == old(tree)
    {
      ghost var z1 := zt.(right := Plug(yctx, yt.right));
      xp := DetachSuccessor(y, x, zctx, zt, yctx, yt);
      TakeOver(z, y, zctx, z1, yt.key);
      Deletion.SuccessorPlug(zctx, zt, yctx, yt);
      Deletion.SuccessorIds(zctx, zt, yctx, yt);
    }

    /** The successor `y`, already out of the tree, takes over the right
        subtree of `z`, then `z`'s place, left subtree and colour. */
    method TakeOver(z: int, y: int, ghost zctx: seq<Frame>, ghost zt: Tree, ghost yk: int)
      requires zt.Branch? && Spells(nodes, root, Plug(zctx, zt)) && z == zt.id
      requires zt.left.Branch? && zt.right.Branch?
      requires 0 <= y < |nodes| && y !in Ids(Plug(zctx, zt)) && nodes[y].data == yk
      modifies this
      ensures Linked(nodes, -1, Plug(zctx, Branch(y, zt.red, zt.left, yk, zt.right)))
      ensures root == IdOf(Plug(zctx, Branch(y, zt.red, zt.left, yk, zt.right)))
      ensures |nodes| == old(|nodes|) && size == old(size) && tree == old(tree)
    {
      SuccessorInLinked(nodes, zctx, zt, y, yk);
      NoParentAtRoot(nodes, zctx, zt);
      RootKept(zctx, zt, Branch(y, zt.red, zt.left, yk, zt.right));
      AdoptRight(y, nodes[z].rightChild);
      var l, c := nodes[z].leftChild, nodes[z].isRed;
      ColorTransplant(z, y);
      AdoptLeft(y, l, c);
    }
  
    /** The two-children case of `remove`: the successor `y`, found by
        `findMinNode` in the right subtree of `z`, takes `z`'s place and
        colour, and `y`'s right child `x` takes `y`'s place. */
    method Successor(z: int, ghost zctx: seq<Frame>, ghost zt: Tree)
      returns (x: int, xp: int, removedRed: bool, ghost xctx: seq<Frame>, ghost xt: Tree)
      requires zt.Branch? && Spells(nodes, root, Plug(zctx, zt)) && z == zt.id
      requires zt.left.Branch? && zt.right.Branch?
      modifies this
      ensures Deletion.SpliceAt(zctx, zt) == Deletion.Splice(xctx, xt, removedRed)
      ensures Spells(nodes, root, Plug(xctx, xt)) && x == IdOf(xt) && xp == Above(xctx, -1)
      ensures |nodes| == old(|nodes|) && size == old(size) && tree == old(tree)
    {
      ghost var m := Deletion.MinPos(zt.right);
      ghost var g := GoRight(m.node.id, zt.red, zt.left, m.node.key);
      PositionFacts(nodes, zctx, zt);
      var y := FindMinNode(nodes[z].rightChild, z, zt.right);
      if m.ctx == [] {
        AdjacentLinked(nodes, zctx, zt);
      } else {
        DetachLinked(nodes, zctx, zt, m.ctx, m.node);
      }
      removedRed := nodes[y].isRed;
      x := nodes[y].rightChild;
      if nodes[y].parent == z {
        xp := AdjacentSuccessor(z, y, x, zctx, zt);
        assert m.ctx + [g] + zctx == [g] + zctx;
      } else {
        xp := DistantSuccessor(z, y, x, zctx, zt, m.ctx, m.node);
      }
      xctx, xt := m.ctx + [g] + zctx, m.node.right;
    }

    /** The splice of `remove` for the node `z` found by the search: a node
        with a missing child is replaced by its other child through
        `colorTransplant`, otherwise its successor takes its place.  `x` is
        the node that moved into the place left empty, and `xp` the parent
        of that place, which `fixRemove` needs when `x` is missing. */
    method Unlink(z: int, ghost zctx: seq<Frame>, ghost zt: Tree)
      returns (x: int, xp: int, removedRed: bool, ghost xctx: seq<Frame>, ghost xt: Tree)
      requires zt.Branch? && Spells(nodes, root, Plug(zctx, zt)) && z == zt.id
      modifies this
      ensures Deletion.SpliceAt(zctx, zt) == Deletion.Splice(xctx, xt, removedRed)
      ensures Spells(nodes, root, Plug(xctx, xt)) && x == IdOf(xt) && xp == Above(xctx, -1)
      ensures |nodes| == old(|nodes|) && size == old(size) && tree == old(tree)
    {
      PositionFacts(nodes, zctx, zt);
      LinkedNull(nodes, z, zt.left);
      LinkedNull(nodes, z, zt.right);
      NoParentAtRoot(nodes, zctx, zt);
      removedRed := nodes[z].isRed;
      if nodes[z].leftChild == -1 {
        x, xp := nodes[z].rightChild, nodes[z].parent;
        TransplantLinked(nodes, zctx, zt, zt.right);
        RootKept(zctx, zt, zt.right);
        ColorTransplant(z, x);
        xctx, xt := zctx, zt.right;
      } else if nodes[z].rightChild == -1 {
        x, xp := nodes[z].leftChild, nodes[z].parent;
        TransplantLinked(nodes, zctx, zt, zt.left);
        RootKept(zctx, zt, zt.left);
        ColorTransplant(z, x);
        xctx, xt := zctx, zt.left;
      } else {
        x, xp, removedRed, xctx, xt := Successor(z, zctx, zt);
      }
    }

    /** The private `remove(node, data)`, called with the root: the search
        walks down as `add` does and keeps the last node holding `k`; that
        node is spliced out and, if a black node left the tree, `fixRemove`
        repairs the place it left, whether or not a node moved into it. */
    method RemoveFrom(k: int) returns (found: bool)
      requires Valid()
      modifies this
      ensures found <==> k in Keys(old(tree))
      ensures tree == Deletion.Remove(old(tree), k) && Spells(nodes, root, tree)
      ensures size == old(size)
    {
      ghost var t0, A := tree, nodes;
      var node, z := root, -1;
      ghost var sub, pre: seq<Frame>, last: Option<Position> := t0, [], None;
      ResumeStart(Deletion.FindLast(t0, k));
      while node != -1
        invariant nodes == A && root == old(root) && size == old(size) && tree == t0
        invariant Plug(pre, sub) == t0 && Linked(A, Above(pre, -1), sub) && node == IdOf(sub)
        invariant Deletion.FindLast(t0, k) == Resume(Deletion.FindLast(sub, k), pre, last)
        invariant last.None? ==> z == -1
        invariant last.Some? ==> last.value.node.Branch? && z == last.value.node.id && 0 <= z
        decreases sub
      {
        LinkedNull(A, Above(pre, -1), sub);
        SearchStep(sub, k, pre, last);
        ghost var f := if k >= sub.key then GoRight(sub.id, sub.red, sub.left, sub.key)
                       else GoLeft(sub.id, sub.red, sub.key, sub.right);
        ghost var child := if k >= sub.key then sub.right else sub.left;
        PlugOne(f, pre, child);
        if k == nodes[node].data {
          z := node;
          last := Some(At(pre, sub));
        }
        if k >= nodes[node].data {
          node := nodes[node].rightChild;
        } else {
          node := nodes[node].leftChild;
        }
        pre, sub := [f] + pre, child;
      }
      LinkedNull(A, Above(pre, -1), sub);
      Deletion.FindLastComplete(t0, k);
      if z == -1 {
        return false;
      }
      tree := Deletion.Remove(t0, k);
      found := true;
      ghost var zctx, zt := last.value.ctx, last.value.node;
      var x, xp, removedRed, xctx, xt := Unlink(z, zctx, zt);
      Deletion.SpliceAtFacts(zctx, zt);
      if !removedRed {
        FixRemove(x, xp, xctx, xt);
      }
    }

    /** `remove(data)`: fails on an empty tree or an absent key, and counts
        one key fewer only when a node was removed. */
    method Remove(k: int) returns (removed: bool)
      requires Valid()
      modifies this
      ensures Valid()
      ensures removed <==> k in Keys(old(tree))
      ensures tree == Deletion.Remove(old(tree), k)
      ensures multiset(Keys(tree)) == multiset(Keys(old(tree))) - multiset{k}
    {
      ghost var t0 := tree;
      RemoveFacts(t0, k);
      if size == 0 {
        removed := false;
      } else {
        removed := RemoveFrom(k);
        if removed {
          size := size - 1;
        }
      }
    }
  }
}

/** The pointer surgery of `remove` and `fixRemove`, written on node
    records: splicing a node out with `colorTransplant`, moving the in-order
    successor into the place of the removed node, and the four repair cases
    of `fixRemove`, with lemmas saying which tree the records spell out
    afterwards. */
module Unlinking {
  import opened Trees
  import opened Zippers
  import opened Arena
  import opened Links
  import opened Painting
  import Insertion
  import Deletion

  /** `y.leftChild = l; y.leftChild.parent = y; y.isRed = c`: the successor
      `y` takes over the left subtree and the colour of the removed node. */
  function AdoptLeftRecords(A: seq<Node>, y: int, l: int, c: bool): (B: seq<Node>)
    requires 0 <= y < |A| && 0 <= l < |A|
    ensures |B| == |A|
  {
    var A1 := A[y := A[y].(leftChild := l)];
    var A2 := A1[l := A1[l].(parent := y)];
    A2[y := A2[y].(isRed := c)]
  }

  /** `y.rightChild = r; y.rightChild.parent = y`: the successor `y` takes
      over the right subtree of the removed node. */
  function AdoptRightRecords(A: seq<Node>, y: int, r: int): (B: seq<Node>)
    requires 0 <= y < |A| && 0 <= r < |A|
    ensures |B| == |A|
  {
    var A1 := A[y := A[y].(rightChild := r)];
    A1[r := A1[r].(parent := y)]
  }

  /** The records of `remove` when the found node `z` has two children and
      its successor `y` is its right child. */
  function AdjacentRecords(A: seq<Node>, z: int, y: int, l: int): (B: seq<Node>)
    requires CanTransplant(A, z, y) && 0 <= y < |A| && 0 <= l < |A|
    ensures |B| == |A|
  {
    AdoptLeftRecords(TransplantRecords(A, z, y), y, l, A[z].isRed)
  }

  /** The records of `remove` when the successor `y` lies deeper in the
      right subtree `r` of `z`, once `y`'s right child has taken `y`'s
      place: `y` takes over `r`, then `z`'s place, its left subtree `l` and
      its colour. */
  function SuccessorInRecords(A: seq<Node>, z: int, y: int, l: int, r: int): (B: seq<Node>)
    requires 0 <= y < |A| && 0 <= r < |A| && 0 <= l < |A|
    requires CanTransplant(AdoptRightRecords(A, y, r), z, y)
    ensures |B| == |A|
  {
    AdoptLeftRecords(TransplantRecords(AdoptRightRecords(A, y, r), z, y), y, l, A[z].isRed)
  }

  /** One colour write: `A[i].isRed = c`. */
  function Paint(A: seq<Node>, i: int, c: bool): (B: seq<Node>)
    requires 0 <= i < |A|
    ensures |B| == |A|
  {
    A[i := A[i].(isRed := c)]
  }

  // ---------------------------------------------------------------- lemmas

  /** The record of the parent of a position names the position on one side
      only, so moving its pointer as `colorTransplant` does is the same as
      relinking it. */
  lemma {:induction false} TransplantParent(A: seq<Node>, ctx: seq<Frame>, t: Tree, i': int)
    requires Linked(A, -1, Plug(ctx, t)) && Distinct(Plug(ctx, t)) && t.Branch? && ctx != []
    ensures var P := ctx[0].id;
      0 <= P < |A| &&
      (if t.id == A[P].leftChild then A[P].(leftChild := i') else A[P].(rightChild := i')) ==
      Relinked(A[P], t.id, i')
  {
    PositionFacts(A, ctx, t);
    var s := ctx[0].sibling;
    assert t.id in Ids(t);
    if s.Branch? {
      assert s.id in CtxIds(ctx);
    }
  }

  /** `colorTransplant(t, v)` for a child `v` of `t`: the records spell out
      the tree with `v` in the place of `t`. */
  lemma {:induction false} TransplantLinked(A: seq<Node>, ctx: seq<Frame>, t: Tree, v: Tree)
    requires Linked(A, -1, Plug(ctx, t)) && Distinct(Plug(ctx, t)) && t.Branch?
    requires v == t.left || v == t.right
    ensures CanTransplant(A, t.id, IdOf(v)) && A[t.id].parent == Above(ctx, -1)
    ensures var B := TransplantRecords(A, t.id, IdOf(v));
      (forall i :: 0 <= i < |A| && i != Above(ctx, -1) && i != IdOf(v) ==> B[i] == A[i]) &&
      Linked(B, -1, Plug(ctx, v))
    ensures Distinct(Plug(ctx, v))
  {
    AroundFacts(A, ctx, t);
    var P := Above(ctx, -1);
    var B := TransplantRecords(A, t.id, IdOf(v));
    assert Linked(A, t.id, v) && Distinct(v);
    assert Ids(v) <= Ids(t);
    if ctx != [] {
      TransplantParent(A, ctx, t, IdOf(v));
    }
    if v.Branch? {
      assert B[v.id] == A[v.id].(parent := P);
      SameOutside(A, B, {P, v.id}, Ids(v.left) + Ids(v.right));
      LinkedReparent(A, B, t.id, P, v);
    }
    RewiredAt(A, B, {P, IdOf(v)}, ctx, t, v);
    DistinctPlug(ctx, t);
    DistinctReplace(ctx, t, v);
  }

  /** Replacing the subtree at a position keeps the root of the whole
      tree, unless the position is the root. */
  lemma {:induction false} RootKept(ctx: seq<Frame>, t: Tree, t': Tree)
    ensures IdOf(Plug(ctx, t')) == if ctx == [] then IdOf(t') else IdOf(Plug(ctx, t))
  {
    RootIdPlug(ctx, t);
    RootIdPlug(ctx, t');
  }

  lemma {:induction false} PlugAround(zctx: seq<Frame>, f: Frame, yctx: seq<Frame>, t: Tree)
    ensures Plug(yctx + [f] + zctx, t) == Plug(zctx, Attach(f, Plug(yctx, t)))
  {
    PlugAppend(yctx + [f], zctx, t);
    PlugAppend(yctx, [f], t);
    assert [f][1..] == [];
  }

  /** `remove` when the successor `y` of `z` is `z`'s right child: `y`
      takes `z`'s place, colour and left subtree, and keeps its right
      subtree. */
  lemma {:induction false} AdjacentLinked(A: seq<Node>, ctx: seq<Frame>, z: Tree)
    requires Linked(A, -1, Plug(ctx, z)) && Distinct(Plug(ctx, z))
    requires z.Branch? && z.left.Branch? && z.right.Branch? && z.right.left.Leaf?
    ensures var y := z.right;
      CanTransplant(A, z.id, y.id) && 0 <= y.id < |A| && 0 <= z.left.id < |A| && A[z.id].parent == Above(ctx, -1) &&
      A[z.id].leftChild == z.left.id && A[z.id].rightChild == y.id && A[z.id].isRed == z.red &&
      A[y.id].rightChild == IdOf(y.right) && A[y.id].isRed == y.red &&
      (y.right.Branch? ==> 0 <= y.right.id < |A| && A[y.right.id].parent == y.id)
    ensures var y := z.right; var w := Branch(y.id, z.red, z.left, y.key, y.right);
      Linked(AdjacentRecords(A, z.id, y.id, z.left.id), -1, Plug(ctx, w)) && Distinct(Plug(ctx, w))
  {
    AroundFacts(A, ctx, z);
    var y, L, P := z.right, z.left, Above(ctx, -1);
    var w := Branch(y.id, z.red, L, y.key, y.right);
    assert Linked(A, z.id, L) && Linked(A, z.id, y) && Linked(A, y.id, y.right);
    assert Distinct(y) && Distinct(L) && Distinct(y.right);
    assert Ids(z) == Ids(L) + {z.id} + Ids(y) && Ids(y) == {y.id} + Ids(y.right);
    var C := AdjacentRecords(A, z.id, y.id, L.id);
    AdjacentValues(A, z.id, y.id, L.id);
    if ctx != [] {
      TransplantParent(A, ctx, z, y.id);
    }
    RewiredNode(A, C, {P, y.id, L.id}, P, y.id, z.red, L, y.key, y.right, z.id, y.id);
    RewiredAt(A, C, {P, y.id, L.id}, ctx, z, w);
    assert Distinct(Plug(ctx, w)) by {
      Deletion.SuccessorPlug(ctx, z, [], y);
      Deletion.SuccessorIds(ctx, z, [], y);
    }
  }

  lemma {:induction false} AdjacentValues(A: seq<Node>, z: int, y: int, l: int)
    requires CanTransplant(A, z, y) && 0 <= y < |A| && 0 <= l < |A|
    requires var P := A[z].parent; y != l && y != P && l != P
    ensures var P, C := A[z].parent, AdjacentRecords(A, z, y, l);
      C[y] == A[y].(parent := P, leftChild := l, isRed := A[z].isRed) &&
      C[l] == A[l].(parent := y) &&
      (P != -1 ==> C[P] == if z == A[P].leftChild then A[P].(leftChild := y) else A[P].(rightChild := y)) &&
      forall i :: 0 <= i < |A| && i != P && i != y && i != l ==> C[i] == A[i]
  {
  }

  /** `colorTransplant(y, y.rightChild)` for a successor `y` deeper in the
      right subtree of `z`: the records spell out `z` with `y` cut out of
      its right subtree. */
  lemma {:induction false} DetachLinked(A: seq<Node>, zctx: seq<Frame>, z: Tree, yctx: seq<Frame>, y: Tree)
    requires Linked(A, -1, Plug(zctx, z)) && Distinct(Plug(zctx, z))
    requires z.Branch? && y.Branch? && y.left.Leaf? && Plug(yctx, y) == z.right && yctx != []
    ensures CanTransplant(A, y.id, IdOf(y.right)) && A[y.id].parent == yctx[0].id && yctx[0].id != z.id
    ensures 0 <= yctx[0].id < |A|
    ensures A[y.id].rightChild == IdOf(y.right) && A[y.id].isRed == y.red
    ensures var z1 := z.(right := Plug(yctx, y.right)); var B := TransplantRecords(A, y.id, IdOf(y.right));
      Linked(B, -1, Plug(zctx, z1)) && Distinct(Plug(zctx, z1)) &&
      y.id !in Ids(Plug(zctx, z1)) && z1.right.Branch? && IdOf(z1.right) == IdOf(z.right) &&
      B[y.id].data == y.key
  {
    var f := GoRight(z.id, z.red, z.left, z.key);
    var ctx1 := yctx + [f] + zctx;
    var z1 := z.(right := Plug(yctx, y.right));
    PlugAround(zctx, f, yctx, y);
    PlugAround(zctx, f, yctx, y.right);
    assert Attach(f, Plug(yctx, y)) == z && Attach(f, Plug(yctx, y.right)) == z1;
    TransplantLinked(A, ctx1, y, y.right);
    PositionFacts(A, ctx1, y);
    assert Above(ctx1, -1) == yctx[0].id;
    DistinctPlug(zctx, z);
    IdsPlug(yctx, y);
    assert yctx[0].id in CtxIds(yctx);
    IdsPlug(ctx1, y.right);
    assert Distinct(y);
    CtxIdsAppend(yctx + [f], zctx);
    CtxIdsAppend(yctx, [f]);
    RootIdPlug(yctx, y);
    RootIdPlug(yctx, y.right);
  }

  lemma {:induction false} CtxIdsAppend(a: seq<Frame>, b: seq<Frame>)
    ensures CtxIds(a + b) == CtxIds(a) + CtxIds(b)
    decreases |a|
  {
    if a == [] {
      assert a + b == b;
    } else {
      assert (a + b)[0] == a[0] && (a + b)[1..] == a[1..] + b;
      CtxIdsAppend(a[1..], b);
    }
  }

  lemma {:induction false} SuccessorInValues(B: seq<Node>, z: int, y: int, l: int, r: int)
    requires 0 <= z < |B| && 0 <= y < |B| && 0 <= l < |B| && 0 <= r < |B|
    requires var P := B[z].parent;
      Ref(B, P) && y != z && y != l && y != r && y != P && z != r && l != r && P != l && P != r
    ensures CanTransplant(AdoptRightRecords(B, y, r), z, y)
    ensures var P, C := B[z].parent, SuccessorInRecords(B, z, y, l, r);
      C[y] == B[y].(rightChild := r, parent := P, leftChild := l, isRed := B[z].isRed) &&
      C[l] == B[l].(parent := y) && C[r] == B[r].(parent := y) &&
      (P != -1 ==> C[P] == if z == B[P].leftChild then B[P].(leftChild := y) else B[P].(rightChild := y)) &&
      forall i :: 0 <= i < |B| && i != P && i != y && i != l && i != r ==> C[i] == B[i]
  {
  }

  /** `remove` with a successor `y` deeper in the right subtree, once `y`
      has been cut out: `y` takes the place, colour and both subtrees of
      `z`. */
  lemma {:induction false} SuccessorInLinked(B: seq<Node>, zctx: seq<Frame>, z: Tree, y: int, yk: int)
    requires Linked(B, -1, Plug(zctx, z)) && Distinct(Plug(zctx, z))
    requires z.Branch? && z.left.Branch? && z.right.Branch?
    requires 0 <= y < |B| && y !in Ids(Plug(zctx, z)) && B[y].data == yk
    ensures 0 <= z.id < |B| && 0 <= z.left.id < |B| && 0 <= z.right.id < |B|
    ensures B[z.id].leftChild == z.left.id && B[z.id].rightChild == z.right.id
    ensures B[z.id].isRed == z.red && B[z.id].parent == Above(zctx, -1)
    ensures CanTransplant(AdoptRightRecords(B, y, z.right.id), z.id, y)
    ensures Linked(SuccessorInRecords(B, z.id, y, z.left.id, z.right.id), -1,
                   Plug(zctx, Branch(y, z.red, z.left, yk, z.right)))
  {
    AroundFacts(B, zctx, z);
    var P, L, R := Above(zctx, -1), z.left, z.right;
    var w := Branch(y, z.red, L, yk, R);
    IdsPlug(zctx, z);
    assert Linked(B, z.id, L) && Linked(B, z.id, R) && Distinct(L) && Distinct(R);
    assert Ids(z) == Ids(L) + {z.id} + Ids(R) && L.id in Ids(L) && R.id in Ids(R);
    SuccessorInValues(B, z.id, y, L.id, R.id);
    var C := SuccessorInRecords(B, z.id, y, L.id, R.id);
    var X := {P, y, L.id, R.id};
    assert C[y] == Node(yk, z.red, L.id, R.id, P);
    RewiredNode(B, C, X, P, y, z.red, L, yk, R, z.id, z.id);
    if zctx != [] {
      TransplantParent(B, zctx, z, y);
      PositionFacts(B, zctx, z);
      ParentRecord(B, C, zctx[0], z.id, y, Above(zctx[1..], -1));
      SameOutside(B, C, X, CtxIds(zctx) - {P});
    }
    LinkedReplace(B, C, zctx, z, w, -1);
  }

  // The repair cases of `fixRemove`.

  /** What the records say around `x` and its sibling. */
  lemma {:induction false} SiblingAt(A: seq<Node>, ctx: seq<Frame>, x: Tree)
    requires Linked(A, -1, Plug(ctx, x)) && Distinct(Plug(ctx, x))
    requires ctx != [] && ctx[0].sibling.Branch?
    ensures var f, s := ctx[0], ctx[0].sibling;
      0 <= f.id < |A| && A[f.id] == FrameRecord(f, IdOf(x), Above(ctx[1..], -1)) &&
      (IdOf(x) == A[f.id].leftChild <==> f.GoLeft?) &&
      0 <= s.id < |A| && s.id != f.id && A[s.id] == Node(s.key, s.red, IdOf(s.left), IdOf(s.right), f.id) &&
      (s.left.Branch? ==> 0 <= s.left.id < |A| && A[s.left.id].isRed == s.left.red) &&
      (s.right.Branch? ==> 0 <= s.right.id < |A| && A[s.right.id].isRed == s.right.red)
    ensures IdOf(Plug(ctx, x)) == ctx[0].id <==> ctx[1..] == []
    ensures x.Branch? ==> 0 <= x.id < |A| && A[x.id].isRed == x.red
  {
    var f, s := ctx[0], ctx[0].sibling;
    PositionFacts(A, ctx, x);
    assert s.id in CtxIds(ctx) && s.id in Ids(s);
    if x.Branch? {
      assert x.id in Ids(x);
    }
    assert Plug(ctx[1..], Attach(f, x)) == Plug(ctx, x);
    PositionFacts(A, ctx[1..], Attach(f, x));
  }

  /** The sibling's position, seen from `x`'s. */
  lemma {:induction false} AcrossPlug(ctx: seq<Frame>, x: Tree)
    requires ctx != []
    ensures Plug([Across(ctx[0], x)] + ctx[1..], ctx[0].sibling) == Plug(ctx, x)
    ensures forall t :: Plug([Across(ctx[0], x)] + ctx[1..], t) == Plug(ctx[1..], Attach(ctx[0].(sibling := t), x))
  {
    var f, up := ctx[0], ctx[1..];
    forall t ensures Plug([Across(f, x)] + up, t) == Plug(up, Attach(f.(sibling := t), x)) {
      PlugOne(Across(f, x), up, t);
    }
    assert f.(sibling := f.sibling) == f;
  }

  /** Case 3.2: the sibling is painted red and `x` moves up to the
      parent. */
  lemma {:induction false} RecolorSiblingLinked(A: seq<Node>, ctx: seq<Frame>, x: Tree)
    requires Linked(A, -1, Plug(ctx, x)) && Distinct(Plug(ctx, x))
    requires ctx != [] && ctx[0].sibling.Branch?
    ensures var f, s := ctx[0], ctx[0].sibling;
      0 <= s.id < |A| && s.id != f.id && 0 <= f.id < |A| && A[f.id].parent == Above(ctx[1..], -1) &&
      var x' := Attach(f.(sibling := s.(red := true)), x);
      Linked(Paint(A, s.id, true), -1, Plug(ctx[1..], x')) && Distinct(Plug(ctx[1..], x')) &&
      IdOf(Plug(ctx[1..], x')) == IdOf(Plug(ctx, x)) && IdOf(x') == f.id
  {
    var f, s := ctx[0], ctx[0].sibling;
    SiblingAt(A, ctx, x);
    AcrossPlug(ctx, x);
    PaintLinked(A, [Across(f, x)] + ctx[1..], s, true);
    assert Plug(ctx[1..], Attach(f, x)) == Plug(ctx, x);
    RootKept(ctx[1..], Attach(f, x), Attach(f.(sibling := s.(red := true)), x));
  }

  /** Case 3.1 with `x` a left child: the red sibling is painted black, the
      parent red, and the parent is rotated left. */
  lemma {:induction false} RedSiblingLeftLinked(A: seq<Node>, ctx: seq<Frame>, x: Tree)
    requires Linked(A, -1, Plug(ctx, x)) && Distinct(Plug(ctx, x))
    requires ctx != [] && ctx[0].GoLeft? && ctx[0].sibling.Branch?
    ensures var P, s := ctx[0].id, ctx[0].sibling.id;
      0 <= P < |A| && 0 <= s < |A| &&
      var A2 := Paint(Paint(A, s, false), P, true);
      CanRotateLeft(A2, P) && A2[P].rightChild != P && A2[A2[P].rightChild].leftChild != P &&
      CanReattach(A2, P, A2[P].rightChild, ctx[1..] == []) &&
      CanReattach(LeftRotationRecords(A2, P), P, A2[P].rightChild, ctx[1..] == []) &&
      var c := Deletion.RedSiblingRotation(ctx[0]) + ctx[1..];
      Linked(RotateLeftAtRecords(A2, P, ctx[1..] == []), -1, Plug(c, x)) && Distinct(Plug(c, x)) &&
      IdOf(Plug(c, x)) == if ctx[1..] == [] then s else IdOf(Plug(ctx, x))
  {
    var f, up := ctx[0], ctx[1..];
    var s := f.sibling;
    AcrossPlug(ctx, x);
    SiblingAt(A, ctx, x);
    PaintLinked(A, [Across(f, x)] + up, s, false);
    var A1 := Paint(A, s.id, false);
    var p1 := Attach(f.(sibling := s.(red := false)), x);
    PaintLinked(A1, up, p1, true);
    var A2 := Paint(A1, f.id, true);
    var p2 := p1.(red := true);
    RotateLeftLinked(A2, up, p2);
    var two := Deletion.RedSiblingRotation(f);
    PlugAppend(two, up, x);
    Insertion.PlugTwo(two, x);
    assert two[2..] == [];
    assert Plug(up, Attach(f, x)) == Plug(ctx, x);
    RootKept(up, Attach(f, x), Plug(two, x));
  }

  /** Case 3.1 with `x` a right child, the mirror image. */
  lemma {:induction false} RedSiblingRightLinked(A: seq<Node>, ctx: seq<Frame>, x: Tree)
    requires Linked(A, -1, Plug(ctx, x)) && Distinct(Plug(ctx, x))
    requires ctx != [] && ctx[0].GoRight? && ctx[0].sibling.Branch?
    ensures var P, s := ctx[0].id, ctx[0].sibling.id;
      0 <= P < |A| && 0 <= s < |A| &&
      var A2 := Paint(Paint(A, s, false), P, true);
      CanRotateRight(A2, P) && A2[P].leftChild != P && A2[A2[P].leftChild].rightChild != P &&
      CanReattach(A2, P, A2[P].leftChild, ctx[1..] == []) &&
      CanReattach(RightRotationRecords(A2, P), P, A2[P].leftChild, ctx[1..] == []) &&
      var c := Deletion.RedSiblingRotation(ctx[0]) + ctx[1..];
      Linked(RotateRightAtRecords(A2, P, ctx[1..] == []), -1, Plug(c, x)) && Distinct(Plug(c, x)) &&
      IdOf(Plug(c, x)) == if ctx[1..] == [] then s else IdOf(Plug(ctx, x))
  {
    var f, up := ctx[0], ctx[1..];
    var s := f.sibling;
    AcrossPlug(ctx, x);
    SiblingAt(A, ctx, x);
    PaintLinked(A, [Across(f, x)] + up, s, false);
    var A1 := Paint(A, s.id, false);
    var p1 := Attach(f.(sibling := s.(red := false)), x);
    PaintLinked(A1, up, p1, true);
    var A2 := Paint(A1, f.id, true);
    var p2 := p1.(red := true);
    RotateRightLinked(A2, up, p2);
    var two := Deletion.RedSiblingRotation(f);
    PlugAppend(two, up, x);
    Insertion.PlugTwo(two, x);
    assert two[2..] == [];
    assert Plug(up, Attach(f, x)) == Plug(ctx, x);
    RootKept(up, Attach(f, x), Plug(two, x));
  }

  /** Case 3.3 with `x` a left child: the sibling's red left child is
      painted black, the sibling red, and the sibling is rotated right. */
  lemma {:induction false} NearChildLeftLinked(A: seq<Node>, ctx: seq<Frame>, x: Tree)
    requires Linked(A, -1, Plug(ctx, x)) && Distinct(Plug(ctx, x))
    requires ctx != [] && ctx[0].GoLeft? && ctx[0].sibling.Branch? && ctx[0].sibling.left.Branch?
    ensures var s := ctx[0].sibling;
      0 <= s.left.id < |A| && 0 <= s.id < |A| && IdOf(Plug(ctx, x)) != s.id &&
      var A2 := Paint(Paint(A, s.left.id, false), s.id, true);
      CanRotateRight(A2, s.id) && A2[s.id].leftChild != s.id && A2[A2[s.id].leftChild].rightChild != s.id &&
      CanReattach(A2, s.id, A2[s.id].leftChild, false) &&
      CanReattach(RightRotationRecords(A2, s.id), s.id, A2[s.id].leftChild, false) &&
      var s2 := RotateRight(Branch(s.id, true, s.left.(red := false), s.key, s.right));
      Linked(RotateRightAtRecords(A2, s.id, false), -1, Plug([ctx[0].(sibling := s2)] + ctx[1..], x)) &&
      Distinct(Plug([ctx[0].(sibling := s2)] + ctx[1..], x)) &&
      IdOf(Plug([ctx[0].(sibling := s2)] + ctx[1..], x)) == IdOf(Plug(ctx, x))
  {
    var f, up := ctx[0], ctx[1..];
    var s := f.sibling;
    var sctx := [Across(f, x)] + up;
    AcrossPlug(ctx, x);
    var g := GoLeft(s.id, s.red, s.key, s.right);
    PlugOne(g, sctx, s.left);
    assert Attach(g, s.left) == s;
    PaintLinked(A, [g] + sctx, s.left, false);
    var A1 := Paint(A, s.left.id, false);
    PlugOne(g, sctx, s.left.(red := false));
    var s1 := Attach(g, s.left.(red := false));
    PaintLinked(A1, sctx, s1, true);
    var A2 := Paint(A1, s.id, true);
    var s2pre := s1.(red := true);
    PositionFacts(A2, sctx, s2pre);
    RotateRightLinked(A2, sctx, s2pre);
    var s2 := RotateRight(s2pre);
    PlugOne(f.(sibling := s2), up, x);
    PositionFacts(A, sctx, s);
    assert Plug(up, Attach(f, x)) == Plug(ctx, x);
    RootKept(up, Attach(f, x), Attach(f.(sibling := s2), x));
  }

  /** Case 3.3 with `x` a right child, the mirror image. */
  lemma {:induction false} NearChildRightLinked(A: seq<Node>, ctx: seq<Frame>, x: Tree)
    requires Linked(A, -1, Plug(ctx, x)) && Distinct(Plug(ctx, x))
    requires ctx != [] && ctx[0].GoRight? && ctx[0].sibling.Branch? && ctx[0].sibling.right.Branch?
    ensures var s := ctx[0].sibling;
      0 <= s.right.id < |A| && 0 <= s.id < |A| && IdOf(Plug(ctx, x)) != s.id &&
      var A2 := Paint(Paint(A, s.right.id, false), s.id, true);
      CanRotateLeft(A2, s.id) && A2[s.id].rightChild != s.id && A2[A2[s.id].rightChild].leftChild != s.id &&
      CanReattach(A2, s.id, A2[s.id].rightChild, false) &&
      CanReattach(LeftRotationRecords(A2, s.id), s.id, A2[s.id].rightChild, false) &&
      var s2 := RotateLeft(Branch(s.id, true, s.left, s.key, s.right.(red := false)));
      Linked(RotateLeftAtRecords(A2, s.id, false), -1, Plug([ctx[0].(sibling := s2)] + ctx[1..], x)) &&
      Distinct(Plug([ctx[0].(sibling := s2)] + ctx[1..], x)) &&
      IdOf(Plug([ctx[0].(sibling := s2)] + ctx[1..], x)) == IdOf(Plug(ctx, x))
  {
    var f, up := ctx[0], ctx[1..];
    var s := f.sibling;
    var sctx := [Across(f, x)] + up;
    AcrossPlug(ctx, x);
    var g := GoRight(s.id, s.red, s.left, s.key);
    PlugOne(g, sctx, s.right);
    assert Attach(g, s.right) == s;
    PaintLinked(A, [g] + sctx, s.right, false);
    var A1 := Paint(A, s.right.id, false);
    PlugOne(g, sctx, s.right.(red := false));
    var s1 := Attach(g, s.right.(red := false));
    PaintLinked(A1, sctx, s1, true);
    var A2 := Paint(A1, s.id, true);
    var s2pre := s1.(red := true);
    PositionFacts(A2, sctx, s2pre);
    RotateLeftLinked(A2, sctx, s2pre);
    var s2 := RotateLeft(s2pre);
    PlugOne(f.(sibling := s2), up, x);
    PositionFacts(A, sctx, s);
    assert Plug(up, Attach(f, x)) == Plug(ctx, x);
    RootKept(up, Attach(f, x), Attach(f.(sibling := s2), x));
  }

  /** Case 3.4 with `x` a left child: the sibling takes the parent's
      colour, the parent and the sibling's red right child are painted
      black, and the parent is rotated left. */
  lemma {:induction false} FarChildLeftLinked(A: seq<Node>, ctx: seq<Frame>, x: Tree)
    requires Linked(A, -1, Plug(ctx, x)) && Distinct(Plug(ctx, x))
    requires ctx != [] && ctx[0].GoLeft? && ctx[0].sibling.Branch? && ctx[0].sibling.right.Branch?
    ensures var f, s := ctx[0], ctx[0].sibling;
      0 <= f.id < |A| && 0 <= s.id < |A| && 0 <= s.right.id < |A| && A[f.id].isRed == f.red &&
      var A3 := Paint(Paint(Paint(A, s.id, f.red), f.id, false), s.right.id, false);
      CanRotateLeft(A3, f.id) && A3[f.id].rightChild != f.id && A3[A3[f.id].rightChild].leftChild != f.id &&
      CanReattach(A3, f.id, A3[f.id].rightChild, ctx[1..] == []) &&
      CanReattach(LeftRotationRecords(A3, f.id), f.id, A3[f.id].rightChild, ctx[1..] == []) &&
      var t := RotateLeft(Branch(f.id, false, x, f.key, Branch(s.id, f.red, s.left, s.key, s.right.(red := false))));
      Linked(RotateLeftAtRecords(A3, f.id, ctx[1..] == []), -1, Plug(ctx[1..], t)) && Distinct(Plug(ctx[1..], t)) &&
      IdOf(Plug(ctx[1..], t)) == if ctx[1..] == [] then s.id else IdOf(Plug(ctx, x))
  {
    var f, up := ctx[0], ctx[1..];
    var s := f.sibling;
    AcrossPlug(ctx, x);
    SiblingAt(A, ctx, x);
    PaintLinked(A, [Across(f, x)] + up, s, f.red);
    var A1 := Paint(A, s.id, f.red);
    var s1 := s.(red := f.red);
    var q1 := Attach(f.(sibling := s1), x);
    PaintLinked(A1, up, q1, false);
    var A2 := Paint(A1, f.id, false);
    var q2 := q1.(red := false);
    var h := GoRight(s.id, f.red, s.left, s.key);
    var a2 := GoRight(f.id, false, x, f.key);
    Insertion.PlugTwo([h, a2] + up, s.right);
    assert ([h, a2] + up)[2..] == up && ([h, a2] + up)[0] == h && ([h, a2] + up)[1] == a2;
    assert Attach(a2, Attach(h, s.right)) == q2;
    PaintLinked(A2, [h, a2] + up, s.right, false);
    var A3 := Paint(A2, s.right.id, false);
    Insertion.PlugTwo([h, a2] + up, s.right.(red := false));
    var q3 := Attach(a2, Attach(h, s.right.(red := false)));
    RotateLeftLinked(A3, up, q3);
    assert Plug(up, Attach(f, x)) == Plug(ctx, x);
    RootKept(up, Attach(f, x), RotateLeft(q3));
  }

  /** Case 3.4 with `x` a right child, the mirror image. */
  lemma {:induction false} FarChildRightLinked(A: seq<Node>, ctx: seq<Frame>, x: Tree)
    requires Linked(A, -1, Plug(ctx, x)) && Distinct(Plug(ctx, x))
    requires ctx != [] && ctx[0].GoRight? && ctx[0].sibling.Branch? && ctx[0].sibling.left.Branch?
    ensures var f, s := ctx[0], ctx[0].sibling;
      0 <= f.id < |A| && 0 <= s.id < |A| && 0 <= s.left.id < |A| && A[f.id].isRed == f.red &&
      var A3 := Paint(Paint(Paint(A, s.id, f.red), f.id, false), s.left.id, false);
      CanRotateRight(A3, f.id) && A3[f.id].leftChild != f.id && A3[A3[f.id].leftChild].rightChild != f.id &&
      CanReattach(A3, f.id, A3[f.id].leftChild, ctx[1..] == []) &&
      CanReattach(RightRotationRecords(A3, f.id), f.id, A3[f.id].leftChild, ctx[1..] == []) &&
      var t := RotateRight(Branch(f.id, false, Branch(s.id, f.red, s.left.(red := false), s.key, s.right), f.key, x));
      Linked(RotateRightAtRecords(A3, f.id, ctx[1..] == []), -1, Plug(ctx[1..], t)) && Distinct(Plug(ctx[1..], t)) &&
      IdOf(Plug(ctx[1..], t)) == if ctx[1..] == [] then s.id else IdOf(Plug(ctx, x))
  {
    var f, up := ctx[0], ctx[1..];
    var s := f.sibling;
    AcrossPlug(ctx, x);
    SiblingAt(A, ctx, x);
    PaintLinked(A, [Across(f, x)] + up, s, f.red);
    var A1 := Paint(A, s.id, f.red);
    var s1 := s.(red := f.red);
    var q1 := Attach(f.(sibling := s1), x);
    PaintLinked(A1, up, q1, false);
    var A2 := Paint(A1, f.id, false);
    var q2 := q1.(red := false);
    var h := GoLeft(s.id, f.red, s.key, s.right);
    var a2 := GoLeft(f.id, false, f.key, x);
    Insertion.PlugTwo([h, a2] + up, s.left);
    assert ([h, a2] + up)[2..] == up && ([h, a2] + up)[0] == h && ([h, a2] + up)[1] == a2;
    assert Attach(a2, Attach(h, s.left)) == q2;
    PaintLinked(A2, [h, a2] + up, s.left, false);
    var A3 := Paint(A2, s.left.id, false);
    Insertion.PlugTwo([h, a2] + up, s.left.(red := false));
    var q3 := Attach(a2, Attach(h, s.left.(red := false)));
    RotateRightLinked(A3, up, q3);
    assert Plug(up, Attach(f, x)) == Plug(ctx, x);
    RootKept(up, Attach(f, x), RotateRight(q3));
  }
}

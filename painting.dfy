/** The colour writes of `balance` and the linking of a new node in `add`,
    written on node records, with lemmas saying which tree the records spell
    out afterwards. */
module Painting {
  import opened Trees
  import opened Zippers
  import opened Arena
  import opened Links
  import Insertion

  predicate CanRecolor(A: seq<Node>, top: int) {
    0 <= top < |A| && 0 <= A[top].leftChild < |A| && 0 <= A[top].rightChild < |A|
  }

  /** The end of each rotation case of `balance`: `newTop.isRed = false;
      newTop.leftChild.isRed = true; newTop.rightChild.isRed = true`. */
  function RecolorRecords(A: seq<Node>, top: int): (B: seq<Node>)
    requires CanRecolor(A, top)
    ensures |B| == |A|
  {
    var A1 := A[top := A[top].(isRed := false)];
    var l := A1[top].leftChild;
    var A2 := A1[l := A1[l].(isRed := true)];
    var r := A2[top].rightChild;
    A2[r := A2[r].(isRed := true)]
  }

  /** The colour flip of `balance`: `parent.isRed = false; aunt.isRed =
      false; grandpa.isRed = true`. */
  function FlipRecords(A: seq<Node>, p: int, a: int, g: int): (B: seq<Node>)
    requires 0 <= p < |A| && 0 <= a < |A| && 0 <= g < |A|
    ensures |B| == |A|
  {
    var A1 := A[p := A[p].(isRed := false)];
    var A2 := A1[a := A1[a].(isRed := false)];
    A2[g := A2[g].(isRed := true)]
  }

  /** `add` linking a new red node with key `k` under `p`, on the side
      `right` says: the new record goes at the end, its `parent` is set, then
      the child pointer of `p`. */
  function NewLeafRecords(A: seq<Node>, p: int, k: int, right: bool): (B: seq<Node>)
    requires 0 <= p < |A|
    ensures |B| == |A| + 1
  {
    var id := |A|;
    var A1 := A + [Node(k, true, -1, -1, -1)];
    var A2 := A1[id := A1[id].(parent := p)];
    if right then A2[p := A2[p].(rightChild := id)] else A2[p := A2[p].(leftChild := id)]
  }

  /** The same step as `f`, taken towards the other child: `t` is left
      behind as the sibling. */
  function Across(f: Frame, t: Tree): (g: Frame)
    ensures Attach(g, f.sibling) == Attach(f, t)
  {
    match f
    case GoLeft(i, c, k, _) => GoRight(i, c, t, k)
    case GoRight(i, c, _, k) => GoLeft(i, c, k, t)
  }

  // ---------------------------------------------------------------- lemmas

  lemma PlugOne(f: Frame, up: seq<Frame>, t: Tree)
    ensures Plug([f] + up, t) == Plug(up, Attach(f, t))
  {
    assert ([f] + up)[1..] == up;
  }

  /** Painting a black root black again changes no record. */
  lemma BlackRootKept(A: seq<Node>, T: Tree)
    requires Linked(A, -1, T) && T.Branch? && !T.red
    ensures 0 <= T.id < |A| && A[T.id := A[T.id].(isRed := false)] == A
  {
  }

  /** The recolouring after a rotation case spells out `Recolor` of the
      rotated subtree. */
  lemma {:induction false} RecolorLinked(A: seq<Node>, up: seq<Frame>, t: Tree)
    requires Linked(A, -1, Plug(up, t)) && Distinct(Plug(up, t))
    requires t.Branch? && t.left.Branch? && t.right.Branch?
    ensures CanRecolor(A, t.id) && A[t.id].leftChild == t.left.id && A[t.id].rightChild == t.right.id
    ensures Linked(RecolorRecords(A, t.id), -1, Plug(up, Insertion.Recolor(t)))
    ensures Distinct(Plug(up, Insertion.Recolor(t)))
  {
    PositionFacts(A, up, t);
    PaintLinked(A, up, t, false);
    var A1 := A[t.id := A[t.id].(isRed := false)];
    var t1 := t.(red := false);
    var f := GoLeft(t.id, false, t.key, t.right);
    PlugOne(f, up, t.left);
    assert Attach(f, t.left) == t1;
    PaintLinked(A1, [f] + up, t.left, true);
    var A2 := A1[t.left.id := A1[t.left.id].(isRed := true)];
    var l2 := t.left.(red := true);
    var g := GoRight(t.id, false, l2, t.key);
    PlugOne(f, up, l2);
    PlugOne(g, up, t.right);
    assert Attach(g, t.right) == Attach(f, l2);
    PaintLinked(A2, [g] + up, t.right, true);
    PlugOne(g, up, t.right.(red := true));
    assert Attach(g, t.right.(red := true)) == Insertion.Recolor(t);
  }

  /** The colour flip at the grandparent of `z` spells out the flipped
      subtree in the grandparent's place. */
  lemma {:induction false} FlipLinked(A: seq<Node>, ctx: seq<Frame>, z: Tree)
    requires Linked(A, -1, Plug(ctx, z)) && Distinct(Plug(ctx, z))
    requires |ctx| >= 2 && z.Branch? && ctx[1].sibling.Branch?
    ensures 0 <= ctx[0].id < |A| && 0 <= ctx[1].sibling.id < |A| && 0 <= ctx[1].id < |A|
    ensures var p, g := ctx[0], ctx[1];
      var g' := Attach(g.(red := true, sibling := Blacken(g.sibling)), Attach(p.(red := false), z));
      Linked(FlipRecords(A, p.id, g.sibling.id, g.id), -1, Plug(ctx[2..], g')) &&
      Distinct(Plug(ctx[2..], g'))
  {
    var p, g, up := ctx[0], ctx[1], ctx[2..];
    var s := g.sibling;
    var pz := Attach(p, z);
    var p' := Attach(p.(red := false), z);
    assert ctx == [p] + ctx[1..] && ctx[1..] == [g] + up;
    PlugOne(p, ctx[1..], z);
    PaintLinked(A, ctx[1..], pz, false);
    assert pz.(red := false) == p';
    var A1 := A[p.id := A[p.id].(isRed := false)];
    PlugOne(g, up, p');
    var a := Across(g, p');
    PlugOne(a, up, s);
    PaintLinked(A1, [a] + up, s, false);
    var A2 := A1[s.id := A1[s.id].(isRed := false)];
    var gs := Attach(g.(sibling := Blacken(s)), p');
    PlugOne(a, up, s.(red := false));
    assert Attach(a, s.(red := false)) == gs;
    PaintLinked(A2, up, gs, true);
    assert gs.(red := true) == Attach(g.(red := true, sibling := Blacken(s)), p');
  }

  /** Linking a new red node at an empty slot spells out the tree with the
      node in that slot. */
  lemma {:induction false} NewLeafLinked(A: seq<Node>, ctx: seq<Frame>, k: int)
    requires Linked(A, -1, Plug(ctx, Leaf)) && Distinct(Plug(ctx, Leaf)) && ctx != []
    ensures 0 <= ctx[0].id < |A| && ctx[0].id !in Ids(ctx[0].sibling)
    ensures var B := NewLeafRecords(A, ctx[0].id, k, ctx[0].GoRight?);
      Linked(B, -1, Plug(ctx, Branch(|A|, true, Leaf, k, Leaf)))
  {
    PositionFacts(A, ctx, Leaf);
    var p := ctx[0].id;
    var B := NewLeafRecords(A, p, k, ctx[0].GoRight?);
    var z := Branch(|A|, true, Leaf, k, Leaf);
    assert forall i :: 0 <= i < |A| && i != p ==> B[i] == A[i];
    assert SameOn(A, B, CtxIds(ctx) - {p});
    assert B[p] == FrameRecord(ctx[0], |A|, Above(ctx[1..], -1)) by {
      match ctx[0]
      case GoLeft(_, _, _, _) =>
      case GoRight(_, _, _, _) =>
    }
    assert Linked(B, p, z);
    LinkedReplace(A, B, ctx, Leaf, z, -1);
  }
}

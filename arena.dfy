/** The node records of the Java class, kept in a sequence indexed by node
    id, and the relation tying them to the abstract tree: each record holds
    its node's key, colour, the ids of its children and of its parent, with
    -1 standing for `null`. */
module Arena {
  import opened Trees
  import opened Zippers

  /** The Java `Node`: `data`, `isRed`, `leftChild`, `rightChild`, `parent`. */
  datatype Node = Node(data: int, isRed: bool, leftChild: int, rightChild: int, parent: int)

  /** Id of the node just above the position `ctx`; `top` for the empty path. */
  function Above(ctx: seq<Frame>, top: int): int {
    if ctx == [] then top else ctx[0].id
  }

  /** The record of a path node whose child on the path side is `hole` and
      whose parent is `up`. */
  function FrameRecord(f: Frame, hole: int, up: int): Node {
    match f
    case GoLeft(_, c, k, s) => Node(k, c, hole, IdOf(s), up)
    case GoRight(_, c, s, k) => Node(k, c, IdOf(s), hole, up)
  }

  /** `A` spells out `t`, whose root has parent `p`. */
  ghost predicate Linked(A: seq<Node>, p: int, t: Tree)
    decreases t
  {
    match t
    case Leaf => true
    case Branch(i, c, l, k, r) =>
      0 <= i < |A| && A[i] == Node(k, c, IdOf(l), IdOf(r), p) && Linked(A, i, l) && Linked(A, i, r)
  }

  /** `A` spells out the path `ctx` and its siblings, with `hole` the id at
      the position and `top` the parent of the outermost node. */
  ghost predicate LinkedCtx(A: seq<Node>, ctx: seq<Frame>, hole: int, top: int)
    decreases |ctx|
  {
    ctx == [] ||
    (0 <= ctx[0].id < |A| && A[ctx[0].id] == FrameRecord(ctx[0], hole, Above(ctx[1..], top)) &&
     Linked(A, ctx[0].id, ctx[0].sibling) && LinkedCtx(A, ctx[1..], ctx[0].id, top))
  }

  /** `B` holds the same records as `A` at the ids of `S` that `A` has. */
  ghost predicate SameOn(A: seq<Node>, B: seq<Node>, S: set<int>) {
    forall i :: i in S && 0 <= i < |A| ==> i < |B| && B[i] == A[i]
  }

  // ---------------------------------------------------------------- lemmas

  lemma {:induction false} LinkedIds(A: seq<Node>, p: int, t: Tree)
    requires Linked(A, p, t)
    ensures forall i :: i in Ids(t) ==> 0 <= i < |A|
    decreases t
  {
    match t
    case Leaf =>
    case Branch(_, _, l, _, r) =>
      LinkedIds(A, t.id, l);
      LinkedIds(A, t.id, r);
  }

  lemma {:induction false} LinkedCtxIds(A: seq<Node>, ctx: seq<Frame>, h: int, top: int)
    requires LinkedCtx(A, ctx, h, top)
    ensures forall i :: i in CtxIds(ctx) ==> 0 <= i < |A|
    decreases |ctx|
  {
    if ctx != [] {
      LinkedIds(A, ctx[0].id, ctx[0].sibling);
      LinkedCtxIds(A, ctx[1..], ctx[0].id, top);
    }
  }

  lemma LinkedAttach(A: seq<Node>, q: int, f: Frame, t: Tree)
    ensures Linked(A, q, Attach(f, t)) <==>
      0 <= f.id < |A| && A[f.id] == FrameRecord(f, IdOf(t), q) && Linked(A, f.id, t) && Linked(A, f.id, f.sibling)
  {
  }

  /** A tree is spelled out exactly when its position and the subtree there
      are. */
  lemma {:induction false} LinkedPlug(A: seq<Node>, ctx: seq<Frame>, t: Tree, top: int)
    ensures Linked(A, top, Plug(ctx, t)) <==> Linked(A, Above(ctx, top), t) && LinkedCtx(A, ctx, IdOf(t), top)
    decreases |ctx|
  {
    if ctx != [] {
      LinkedPlug(A, ctx[1..], Attach(ctx[0], t), top);
      LinkedAttach(A, Above(ctx[1..], top), ctx[0], t);
    }
  }

  /** Records outside a subtree may change freely. */
  lemma {:induction false} LinkedFrame(A: seq<Node>, B: seq<Node>, p: int, t: Tree)
    requires Linked(A, p, t) && SameOn(A, B, Ids(t))
    ensures Linked(B, p, t)
    decreases t
  {
    match t
    case Leaf =>
    case Branch(_, _, l, _, r) =>
      LinkedFrame(A, B, t.id, l);
      LinkedFrame(A, B, t.id, r);
  }

  lemma {:induction false} LinkedCtxFrame(A: seq<Node>, B: seq<Node>, ctx: seq<Frame>, h: int, top: int)
    requires LinkedCtx(A, ctx, h, top) && SameOn(A, B, CtxIds(ctx))
    ensures LinkedCtx(B, ctx, h, top)
    decreases |ctx|
  {
    if ctx != [] {
      LinkedFrame(A, B, ctx[0].id, ctx[0].sibling);
      LinkedCtxFrame(A, B, ctx[1..], ctx[0].id, top);
    }
  }

  /** Giving the root of a subtree a new parent. */
  lemma LinkedReparent(A: seq<Node>, B: seq<Node>, p: int, q: int, t: Tree)
    requires Linked(A, p, t) && t.Branch?
    requires 0 <= t.id < |B| && B[t.id] == A[t.id].(parent := q)
    requires SameOn(A, B, Ids(t.left) + Ids(t.right))
    ensures Linked(B, q, t)
  {
    LinkedFrame(A, B, t.id, t.left);
    LinkedFrame(A, B, t.id, t.right);
  }

  /** The path keeps its records when only the innermost one changes, to
      point to a new subtree. */
  lemma LinkedCtxRehole(A: seq<Node>, B: seq<Node>, ctx: seq<Frame>, h: int, h': int, top: int)
    requires LinkedCtx(A, ctx, h, top) && ctx != []
    requires ctx[0].id !in Ids(ctx[0].sibling) && ctx[0].id !in CtxIds(ctx[1..])
    requires SameOn(A, B, CtxIds(ctx) - {ctx[0].id})
    requires 0 <= ctx[0].id < |B| && B[ctx[0].id] == FrameRecord(ctx[0], h', Above(ctx[1..], top))
    ensures LinkedCtx(B, ctx, h', top)
  {
    var f := ctx[0];
    assert SameOn(A, B, Ids(f.sibling));
    LinkedFrame(A, B, f.id, f.sibling);
    assert SameOn(A, B, CtxIds(ctx[1..]));
    LinkedCtxFrame(A, B, ctx[1..], f.id, top);
  }

  /** Putting a new subtree at a position: the path's records stay, except
      that the innermost one now points to the new subtree. */
  lemma LinkedReplace(A: seq<Node>, B: seq<Node>, ctx: seq<Frame>, t: Tree, t': Tree, top: int)
    requires Linked(A, top, Plug(ctx, t)) && Distinct(Plug(ctx, t))
    requires SameOn(A, B, CtxIds(ctx) - (if ctx == [] then {} else {ctx[0].id}))
    requires ctx != [] ==> 0 <= ctx[0].id < |B| && B[ctx[0].id] == FrameRecord(ctx[0], IdOf(t'), Above(ctx[1..], top))
    requires Linked(B, Above(ctx, top), t')
    ensures Linked(B, top, Plug(ctx, t'))
  {
    LinkedPlug(A, ctx, t, top);
    LinkedPlug(B, ctx, t', top);
    if ctx != [] {
      DistinctPlug(ctx[1..], Attach(ctx[0], t));
      LinkedCtxRehole(A, B, ctx, IdOf(t), IdOf(t'), top);
    }
  }

  /** The path's innermost record tells on which side the position lies. */
  lemma HoleSide(A: seq<Node>, ctx: seq<Frame>, t: Tree, top: int)
    requires LinkedCtx(A, ctx, IdOf(t), top) && ctx != [] && t.Branch? && 0 <= t.id
    requires t.id !in Ids(ctx[0].sibling)
    ensures A[ctx[0].id].leftChild == t.id <==> ctx[0].GoLeft?
    ensures A[ctx[0].id].rightChild == t.id <==> ctx[0].GoRight?
  {
  }
}

/** Positions inside a tree.  The Java code walks up and down through
    `parent`, `leftChild` and `rightChild`; here a position is a context
    (the path from the node back up to the root, innermost step first) plus
    the subtree found there.  Re-plugging the subtree rebuilds the tree. */
module Zippers {
  import opened Trees

  /** One step of a path: the node it passed through, its colour and key,
      and the subtree on the side the path did not take. */
  datatype Frame =
    | GoLeft(id: int, red: bool, key: int, sibling: Tree)
    | GoRight(id: int, red: bool, sibling: Tree, key: int)

  /** A node of the tree together with the path leading to it. */
  datatype Position = At(ctx: seq<Frame>, node: Tree)

  function Attach(f: Frame, t: Tree): (r: Tree)
    ensures r.Branch? && r.id == f.id && r.red == f.red && r.key == f.key
    ensures Ids(r) == Ids(f.sibling) + {f.id} + Ids(t)
  {
    match f
    case GoLeft(i, c, k, s) => Branch(i, c, t, k, s)
    case GoRight(i, c, s, k) => Branch(i, c, s, k, t)
  }

  /** The whole tree, with `t` put back at the position `ctx` describes. */
  function Plug(ctx: seq<Frame>, t: Tree): Tree
    decreases |ctx|
  {
    if ctx == [] then t else Plug(ctx[1..], Attach(ctx[0], t))
  }

  /** Id of the node above the position, or -1 at the root. */
  function ParentId(ctx: seq<Frame>): int {
    if ctx == [] then -1 else ctx[0].id
  }

  /** Keys to the left of the position, in order. */
  function Before(ctx: seq<Frame>): seq<int>
    decreases |ctx|
  {
    if ctx == [] then []
    else match ctx[0]
      case GoLeft(_, _, _, _) => Before(ctx[1..])
      case GoRight(_, _, s, k) => Before(ctx[1..]) + Keys(s) + [k]
  }

  /** Keys to the right of the position, in order. */
  function After(ctx: seq<Frame>): seq<int>
    decreases |ctx|
  {
    if ctx == [] then []
    else match ctx[0]
      case GoLeft(_, _, k, s) => [k] + Keys(s) + After(ctx[1..])
      case GoRight(_, _, _, _) => After(ctx[1..])
  }

  function CtxIds(ctx: seq<Frame>): set<int>
    decreases |ctx|
  {
    if ctx == [] then {} else {ctx[0].id} + Ids(ctx[0].sibling) + CtxIds(ctx[1..])
  }

  /** Number of black nodes on the path. */
  function Blacks(ctx: seq<Frame>): nat
    decreases |ctx|
  {
    if ctx == [] then 0 else (if ctx[0].red then 0 else 1) + Blacks(ctx[1..])
  }

  /** The context accepts, at its hole, a balanced subtree of black height `h`. */
  predicate CtxBalanced(ctx: seq<Frame>, h: nat)
    decreases |ctx|
  {
    ctx == [] ||
    (Balanced(ctx[0].sibling) && BlackHeight(ctx[0].sibling) == h &&
     CtxBalanced(ctx[1..], h + (if ctx[0].red then 0 else 1)))
  }

  /** The context has no red-red pair, given the colour of whatever sits in
      its hole. */
  predicate CtxRedOk(ctx: seq<Frame>, holeRed: bool)
    decreases |ctx|
  {
    ctx == [] ||
    (NoRedRed(ctx[0].sibling) &&
     (ctx[0].red ==> !holeRed && !IsRed(ctx[0].sibling)) &&
     CtxRedOk(ctx[1..], ctx[0].red))
  }

  // ---------------------------------------------------------------- lemmas

  lemma {:induction false} PlugAppend(a: seq<Frame>, b: seq<Frame>, t: Tree)
    ensures Plug(a + b, t) == Plug(b, Plug(a, t))
    decreases |a|
  {
    if a != [] {
      assert (a + b)[1..] == a[1..] + b;
      PlugAppend(a[1..], b, Attach(a[0], t));
    } else {
      assert a + b == b;
    }
  }

  lemma {:induction false} BeforeAfterAppend(a: seq<Frame>, b: seq<Frame>)
    ensures Before(a + b) == Before(b) + Before(a) && After(a + b) == After(a) + After(b)
    decreases |a|
  {
    if a != [] {
      assert (a + b)[1..] == a[1..] + b;
      BeforeAfterAppend(a[1..], b);
    } else {
      assert a + b == b;
    }
  }

  lemma {:induction false} KeysPlug(ctx: seq<Frame>, t: Tree)
    ensures Keys(Plug(ctx, t)) == Before(ctx) + Keys(t) + After(ctx)
    decreases |ctx|
  {
    if ctx != [] {
      KeysPlug(ctx[1..], Attach(ctx[0], t));
      KeysStep(ctx, t);
    }
  }

  /** Putting `t` into the innermost frame moves that frame's keys from the
      surrounding context into the subtree. */
  lemma KeysStep(ctx: seq<Frame>, t: Tree)
    requires ctx != []
    ensures Before(ctx) + Keys(t) + After(ctx) == Before(ctx[1..]) + Keys(Attach(ctx[0], t)) + After(ctx[1..])
  {
    var up := ctx[1..];
    match ctx[0]
    case GoLeft(_, _, k, s) =>
      assert After(ctx) == [k] + Keys(s) + After(up);
      ConcatRegroup(Before(up), Keys(t), [k] + Keys(s), After(up));
    case GoRight(_, _, s, k) =>
      assert Before(ctx) == Before(up) + (Keys(s) + [k]);
      ConcatRegroup(Before(up), Keys(s) + [k], Keys(t), After(up));
  }

  lemma ConcatRegroup(p: seq<int>, q: seq<int>, r: seq<int>, u: seq<int>)
    ensures p + q + (r + u) == p + (q + r) + u
    ensures (p + q) + r + u == p + (q + r) + u
  {
  }

  lemma {:induction false} IdsPlug(ctx: seq<Frame>, t: Tree)
    ensures Ids(Plug(ctx, t)) == CtxIds(ctx) + Ids(t)
    decreases |ctx|
  {
    if ctx != [] {
      IdsPlug(ctx[1..], Attach(ctx[0], t));
    }
  }

  lemma {:induction false} DistinctPlug(ctx: seq<Frame>, t: Tree)
    requires Distinct(Plug(ctx, t))
    ensures Distinct(t) && Ids(t) !! CtxIds(ctx)
    decreases |ctx|
  {
    if ctx != [] {
      DistinctPlug(ctx[1..], Attach(ctx[0], t));
    }
  }

  /** Putting a subtree with no new ids and no repeated id in place of
      another keeps the ids distinct. */
  lemma {:induction false} DistinctReplace(ctx: seq<Frame>, t: Tree, t': Tree)
    requires Distinct(Plug(ctx, t)) && Distinct(t') && Ids(t') <= Ids(t)
    ensures Distinct(Plug(ctx, t'))
    decreases |ctx|
  {
    if ctx != [] {
      var a, a' := Attach(ctx[0], t), Attach(ctx[0], t');
      DistinctPlug(ctx[1..], a);
      assert Distinct(a');
      DistinctReplace(ctx[1..], a, a');
    }
  }

  lemma {:induction false} BalancedPlug(ctx: seq<Frame>, t: Tree)
    ensures Balanced(Plug(ctx, t)) <==> Balanced(t) && CtxBalanced(ctx, BlackHeight(t))
    decreases |ctx|
  {
    if ctx != [] {
      var a := Attach(ctx[0], t);
      BalancedPlug(ctx[1..], a);
      if Balanced(t) && CtxBalanced(ctx, BlackHeight(t)) {
        assert Balanced(a) && BlackHeight(a) == BlackHeight(t) + (if ctx[0].red then 0 else 1);
      }
    }
  }

  lemma {:induction false} NoRedRedPlug(ctx: seq<Frame>, t: Tree)
    ensures NoRedRed(Plug(ctx, t)) <==> NoRedRed(t) && CtxRedOk(ctx, IsRed(t))
    decreases |ctx|
  {
    if ctx != [] {
      NoRedRedPlug(ctx[1..], Attach(ctx[0], t));
    }
  }

  lemma {:induction false} RootPlug(ctx: seq<Frame>, t: Tree)
    ensures IsRed(Plug(ctx, t)) == if ctx == [] then IsRed(t) else ctx[|ctx| - 1].red
    decreases |ctx|
  {
    if ctx != [] {
      RootPlug(ctx[1..], Attach(ctx[0], t));
    }
  }

  /** The root of a plugged tree is the outermost path node, if any. */
  lemma {:induction false} RootIdPlug(ctx: seq<Frame>, t: Tree)
    ensures IdOf(Plug(ctx, t)) == if ctx == [] then IdOf(t) else ctx[|ctx| - 1].id
    decreases |ctx|
  {
    if ctx != [] {
      RootIdPlug(ctx[1..], Attach(ctx[0], t));
    }
  }

  lemma {:induction false} CtxBalancedAppend(a: seq<Frame>, b: seq<Frame>, h: nat)
    ensures CtxBalanced(a + b, h) <==> CtxBalanced(a, h) && CtxBalanced(b, h + Blacks(a))
    decreases |a|
  {
    if a != [] {
      assert (a + b)[1..] == a[1..] + b;
      CtxBalancedAppend(a[1..], b, h + (if a[0].red then 0 else 1));
    } else {
      assert a + b == b;
    }
  }

  lemma {:induction false} CtxRedOkAppend(a: seq<Frame>, b: seq<Frame>, h: bool)
    ensures CtxRedOk(a + b, h) <==> CtxRedOk(a, h) && CtxRedOk(b, if a == [] then h else a[|a| - 1].red)
    decreases |a|
  {
    if a != [] {
      assert (a + b)[1..] == a[1..] + b;
      CtxRedOkAppend(a[1..], b, a[0].red);
    } else {
      assert a + b == b;
    }
  }

  /** A context that accepts a red subtree accepts a black one. */
  lemma CtxRedOkWeaken(ctx: seq<Frame>)
    requires CtxRedOk(ctx, true)
    ensures CtxRedOk(ctx, false)
  {
  }
}

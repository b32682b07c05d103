/** Insertion as the Java `add` and `balance` perform it, stated on values:
    the descent that finds the free slot, the red-red repair that walks up
    from it, and the proof that the result is again a red-black tree holding
    one more copy of the key. */
module Insertion {
  import opened Trees
  import opened Zippers

  /** Path from the free slot where `add` links a new node up to the root:
      keys comparing `>=` the node's go right, smaller ones go left. */
  function InsertCtx(t: Tree, k: int): seq<Frame> {
    match t
    case Leaf => []
    case Branch(i, c, l, key, r) =>
      if k >= key then InsertCtx(r, k) + [GoRight(i, c, l, key)]
      else InsertCtx(l, k) + [GoLeft(i, c, key, r)]
  }

  /** Plain binary-search-tree insertion of the subtree `x` at the slot found
      by the same descent: the reference `InsertCtx` is checked against. */
  function InsertAt(t: Tree, k: int, x: Tree): Tree {
    match t
    case Leaf => x
    case Branch(i, c, l, key, r) =>
      if k >= key then Branch(i, c, l, key, InsertAt(r, k, x))
      else Branch(i, c, InsertAt(l, k, x), key, r)
  }

  /** The recolouring at the end of each rotation case of `balance`: new top
      black, both its children red. */
  function Recolor(t: Tree): (r: Tree)
    requires t.Branch? && t.left.Branch? && t.right.Branch?
    ensures Keys(r) == Keys(t) && Ids(r) == Ids(t)
  {
    Branch(t.id, false, t.left.(red := true), t.key, t.right.(red := true))
  }

  /** The rotation cases of `balance` (aunt missing or black): `z` is the
      node, `p` the frame of its parent, `g` that of its grandparent.  The
      result replaces the grandparent's subtree. */
  function Restructure(p: Frame, g: Frame, z: Tree): (r: Tree)
    requires z.Branch?
    ensures Keys(r) == Keys(Attach(g, Attach(p, z))) && Ids(r) == Ids(Attach(g, Attach(p, z)))
  {
    match (p, g)
    case (GoRight(_, _, _, _), GoRight(_, _, _, _)) =>   // right child of a right child
      Recolor(RotateLeft(Attach(g, Attach(p, z))))
    case (GoRight(_, _, _, _), GoLeft(_, _, _, _)) =>    // right child of a left child
      Recolor(RotateRight(Attach(g, RotateLeft(Attach(p, z)))))
    case (GoLeft(_, _, _, _), GoRight(_, _, _, _)) =>    // left child of a right child
      Recolor(RotateLeft(Attach(g, RotateRight(Attach(p, z)))))
    case (GoLeft(_, _, _, _), GoLeft(_, _, _, _)) =>     // left child of a left child
      Recolor(RotateRight(Attach(g, Attach(p, z))))
  }

  /** `balance(node, parent)`: `z` is the red node, `ctx[0]` its red parent,
      `ctx[1]` its grandparent.  A missing or black aunt leads to a rotation
      case; a red aunt to a colour flip that repeats the check at the
      grandparent when its own parent is red. */
  function Balance(ctx: seq<Frame>, z: Tree): Tree
    requires |ctx| >= 2 && IsRed(z) && ctx[0].red
    requires !IsRed(Plug(ctx, z))  // the root is black
    decreases |ctx|
  {
    var p, g, up := ctx[0], ctx[1], ctx[2..];
    if !IsRed(g.sibling) then
      var top := Restructure(p, g, z);
      if up == [] then top else Plug(up, top)
    else
      var g' := Attach(g.(red := true, sibling := Blacken(g.sibling)), Attach(p.(red := false), z));
      if up == [] then Blacken(g')
      else if up[0].red then
        PlugTwo(ctx, z);
        RootPlug(up, g');
        RootPlug(up, Attach(g, Attach(p, z)));
        Balance(up, g')
      else Plug(up, g')
  }

  /** `add` on values: the new node gets arena id `id`; an empty tree gets it
      as a black root, otherwise it is linked red at the slot `InsertCtx`
      finds and `Balance` runs when its parent is red. */
  function Add(t: Tree, k: int, id: int): Tree
    requires !IsRed(t)
  {
    if t.Leaf? then Branch(id, false, Leaf, k, Leaf)
    else
      var ctx := InsertCtx(t, k);
      var z := Branch(id, true, Leaf, k, Leaf);
      InsertCtxShape(t, k, z);
      if ctx[0].red then
        RootPlug(ctx, z);
        RootPlug(ctx, Leaf);
        Balance(ctx, z)
      else Plug(ctx, z)
  }

  // ---------------------------------------------------------------- lemmas

  lemma PlugTwo(ctx: seq<Frame>, z: Tree)
    requires |ctx| >= 2
    ensures Plug(ctx, z) == Plug(ctx[2..], Attach(ctx[1], Attach(ctx[0], z)))
  {
    assert ctx[1..][1..] == ctx[2..];
  }

  /** The descent path rebuilds the tree, and linking at its end is plain
      binary-search-tree insertion. */
  lemma {:induction false} InsertCtxShape(t: Tree, k: int, x: Tree)
    ensures Plug(InsertCtx(t, k), x) == InsertAt(t, k, x)
    ensures Plug(InsertCtx(t, k), Leaf) == t
    ensures t.Branch? <==> InsertCtx(t, k) != []
  {
    match t
    case Leaf =>
    case Branch(i, c, l, key, r) =>
      if k >= key {
        InsertCtxShape(r, k, x);
        PlugAppend(InsertCtx(r, k), [GoRight(i, c, l, key)], x);
        PlugAppend(InsertCtx(r, k), [GoRight(i, c, l, key)], Leaf);
      } else {
        InsertCtxShape(l, k, x);
        PlugAppend(InsertCtx(l, k), [GoLeft(i, c, key, r)], x);
        PlugAppend(InsertCtx(l, k), [GoLeft(i, c, key, r)], Leaf);
      }
  }

  lemma {:induction false} InsertAtMultiset(t: Tree, k: int, x: Tree)
    ensures multiset(Keys(InsertAt(t, k, x))) == multiset(Keys(t)) + multiset(Keys(x))
  {
    match t
    case Leaf =>
    case Branch(i, c, l, key, r) =>
      if k >= key {
        InsertAtMultiset(r, k, x);
      } else {
        InsertAtMultiset(l, k, x);
      }
      InsertStepMultiset(t, k, x);
  }

  /** One level of `InsertAtMultiset`: the bag of keys of the subtree the
      insertion descends into grows by the keys of `x`, and so does the whole. */
  lemma InsertStepMultiset(t: Tree, k: int, x: Tree)
    requires t.Branch?
    requires k >= t.key ==> multiset(Keys(InsertAt(t.right, k, x))) == multiset(Keys(t.right)) + multiset(Keys(x))
    requires k < t.key ==> multiset(Keys(InsertAt(t.left, k, x))) == multiset(Keys(t.left)) + multiset(Keys(x))
    ensures multiset(Keys(InsertAt(t, k, x))) == multiset(Keys(t)) + multiset(Keys(x))
  {
    var t' := InsertAt(t, k, x);
    KeysMultiset(t);
    KeysMultiset(t');
  }

  lemma KeysMultiset(t: Tree)
    requires t.Branch?
    ensures multiset(Keys(t)) == multiset(Keys(t.left)) + multiset{t.key} + multiset(Keys(t.right))
  {
    assert Keys(t) == Keys(t.left) + [t.key] + Keys(t.right);
  }

  lemma InsertAtMember(t: Tree, k: int, x: Tree, e: int)
    requires e in Keys(InsertAt(t, k, x))
    ensures e in Keys(t) || e in Keys(x)
  {
    InsertAtMultiset(t, k, x);
    assert e in multiset(Keys(InsertAt(t, k, x)));
    assert e in multiset(Keys(t)) || e in multiset(Keys(x));
  }

  /** Linking a single key at the slot the descent finds keeps the in-order
      sequence sorted. */
  lemma {:induction false} InsertAtSorted(t: Tree, k: int, x: Tree)
    requires Sorted(Keys(t)) && Keys(x) == [k]
    ensures Sorted(Keys(InsertAt(t, k, x)))
  {
    match t
    case Leaf =>
    case Branch(i, c, l, key, r) =>
      SortedConcat(Keys(l), key, Keys(r));
      if k >= key {
        InsertAtSorted(r, k, x);
        var r' := Keys(InsertAt(r, k, x));
        forall e | e in r' ensures key <= e {
          InsertAtMember(r, k, x, e);
        }
        SortedConcat(Keys(l), key, r');
      } else {
        InsertAtSorted(l, k, x);
        var l' := Keys(InsertAt(l, k, x));
        forall e | e in l' ensures e <= key {
          InsertAtMember(l, k, x, e);
        }
        SortedConcat(l', key, Keys(r));
      }
  }

  lemma {:induction false} InsertAtIds(t: Tree, k: int, x: Tree)
    requires Distinct(t) && Distinct(x) && Ids(t) !! Ids(x)
    ensures Ids(InsertAt(t, k, x)) == Ids(t) + Ids(x)
    ensures Distinct(InsertAt(t, k, x))
  {
    match t
    case Leaf =>
    case Branch(i, c, l, key, r) =>
      InsertAtIds(l, k, x);
      InsertAtIds(r, k, x);
  }

  /** The rotation cases turn a black grandparent with a red parent and a red
      node into a black top with two red children over four black-rooted
      subtrees of equal black height. */
  lemma RestructureFixes(p: Frame, g: Frame, z: Tree)
    requires IsRed(z) && p.red && !g.red && !IsRed(g.sibling)
    requires NoRedRed(z) && NoRedRed(p.sibling) && !IsRed(p.sibling) && NoRedRed(g.sibling)
    requires Balanced(Attach(g, Attach(p, z)))
    ensures var r := Restructure(p, g, z);
      Balanced(r) && NoRedRed(r) && !IsRed(r) &&
      BlackHeight(r) == BlackHeight(Attach(g, Attach(p, z)))
  {
    var r := Restructure(p, g, z);
    assert BlackHeight(p.sibling) == BlackHeight(z) == BlackHeight(g.sibling);
    assert Balanced(Attach(p, z));
    assert Balanced(z);
    assert !IsRed(z.left) && !IsRed(z.right) && Balanced(z.left) && Balanced(z.right);
    assert BlackHeight(z.left) == BlackHeight(z.right) == BlackHeight(z);
    match (p, g)
    case (GoRight(_, _, _, _), GoRight(_, _, _, _)) =>
      assert r == Branch(p.id, false, Branch(g.id, true, g.sibling, g.key, p.sibling), p.key, z);
    case (GoRight(_, _, _, _), GoLeft(_, _, _, _)) =>
      assert r == Branch(z.id, false, Branch(p.id, true, p.sibling, p.key, z.left), z.key,
                         Branch(g.id, true, z.right, g.key, g.sibling));
    case (GoLeft(_, _, _, _), GoRight(_, _, _, _)) =>
      assert r == Branch(z.id, false, Branch(g.id, true, g.sibling, g.key, z.left), z.key,
                         Branch(p.id, true, z.right, p.key, p.sibling));
    case (GoLeft(_, _, _, _), GoLeft(_, _, _, _)) =>
      assert r == Branch(p.id, false, z, p.key, Branch(g.id, true, p.sibling, g.key, g.sibling));
  }

  lemma RestructureDistinct(p: Frame, g: Frame, z: Tree)
    requires z.Branch? && Distinct(Attach(g, Attach(p, z)))
    ensures Distinct(Restructure(p, g, z))
  {
    var gsub := Attach(g, Attach(p, z));
    assert Distinct(Attach(p, z));
    match (p, g)
    case (GoRight(_, _, _, _), GoRight(_, _, _, _)) =>
      RotateLeftDistinct(gsub);
      RecolorDistinct(RotateLeft(gsub));
    case (GoRight(_, _, _, _), GoLeft(_, _, _, _)) =>
      RotateLeftDistinct(Attach(p, z));
      DistinctReplace([g], Attach(p, z), RotateLeft(Attach(p, z)));
      RotateRightDistinct(Attach(g, RotateLeft(Attach(p, z))));
      RecolorDistinct(RotateRight(Attach(g, RotateLeft(Attach(p, z)))));
    case (GoLeft(_, _, _, _), GoRight(_, _, _, _)) =>
      RotateRightDistinct(Attach(p, z));
      DistinctReplace([g], Attach(p, z), RotateRight(Attach(p, z)));
      RotateLeftDistinct(Attach(g, RotateRight(Attach(p, z))));
      RecolorDistinct(RotateLeft(Attach(g, RotateRight(Attach(p, z)))));
    case (GoLeft(_, _, _, _), GoLeft(_, _, _, _)) =>
      RotateRightDistinct(gsub);
      RecolorDistinct(RotateRight(gsub));
  }

  lemma RecolorDistinct(t: Tree)
    requires t.Branch? && t.left.Branch? && t.right.Branch? && Distinct(t)
    ensures Distinct(Recolor(t))
  {
    assert Ids(t.left.(red := true)) == Ids(t.left);
    assert Ids(t.right.(red := true)) == Ids(t.right);
  }

  /** The colour-flip case of `balance`: parent and aunt turn black, the
      grandparent red; the grandparent's subtree keeps its black height and
      has no red-red pair below its (now red) root. */
  lemma FlipFixes(p: Frame, g: Frame, z: Tree)
    requires IsRed(z) && p.red && !g.red && IsRed(g.sibling)
    requires NoRedRed(z) && NoRedRed(p.sibling) && NoRedRed(g.sibling)
    requires Balanced(Attach(g, Attach(p, z)))
    ensures var gsub := Attach(g, Attach(p, z));
      var g' := Attach(g.(red := true, sibling := Blacken(g.sibling)), Attach(p.(red := false), z));
      Balanced(g') && BlackHeight(g') == BlackHeight(gsub) && NoRedRed(g') && IsRed(g') &&
      Keys(g') == Keys(gsub) && Ids(g') == Ids(gsub) &&
      (Distinct(gsub) ==> Distinct(g'))
  {
    var gsub := Attach(g, Attach(p, z));
    var g' := Attach(g.(red := true, sibling := Blacken(g.sibling)), Attach(p.(red := false), z));
    BlackenFacts(g.sibling);
    assert Balanced(Attach(p, z));
    assert BlackHeight(z) == BlackHeight(p.sibling) == BlackHeight(g.sibling);
    if Distinct(gsub) {
      assert Distinct(Attach(p, z));
      assert Distinct(Attach(p.(red := false), z));
    }
    match (p, g)
    case (GoRight(_, _, _, _), GoRight(_, _, _, _)) =>
    case (GoRight(_, _, _, _), GoLeft(_, _, _, _)) =>
    case (GoLeft(_, _, _, _), GoRight(_, _, _, _)) =>
    case (GoLeft(_, _, _, _), GoLeft(_, _, _, _)) =>
  }

  /** `balance` leaves a red-black tree with the same keys and nodes, given
      the only defect is the red node `z` under its red parent. */
  lemma {:induction false} BalanceFixes(ctx: seq<Frame>, z: Tree)
    requires |ctx| >= 2 && IsRed(z) && ctx[0].red && !IsRed(Plug(ctx, z))
    requires NoRedRed(z) && CtxRedOk(ctx, false) && Balanced(Plug(ctx, z))
    ensures var r := Balance(ctx, z);
      NoRedRed(r) && Balanced(r) && !IsRed(r) &&
      Keys(r) == Keys(Plug(ctx, z)) && Ids(r) == Ids(Plug(ctx, z))
    ensures Distinct(Plug(ctx, z)) ==> Distinct(Balance(ctx, z))
    decreases |ctx|
  {
    var p, g, up := ctx[0], ctx[1], ctx[2..];
    assert CtxRedOk(ctx[1..], true);
    var gsub := Attach(g, Attach(p, z));
    PlugTwo(ctx, z);
    assert ctx[1..][1..] == up;
    BalancedPlug(up, gsub);
    KeysPlug(up, gsub);
    IdsPlug(up, gsub);
    if Distinct(Plug(ctx, z)) {
      DistinctPlug(up, gsub);
    }
    if !IsRed(g.sibling) {
      var top := Restructure(p, g, z);
      RestructureFixes(p, g, z);
      if up == [] {
        assert Plug(ctx, z) == gsub;
        if Distinct(Plug(ctx, z)) {
          RestructureDistinct(p, g, z);
        }
      } else {
        BalancedPlug(up, top);
        NoRedRedPlug(up, top);
        KeysPlug(up, top);
        IdsPlug(up, top);
        RootPlug(up, top);
        RootPlug(up, gsub);
        if Distinct(Plug(ctx, z)) {
          RestructureDistinct(p, g, z);
          DistinctReplace(up, gsub, top);
        }
      }
    } else {
      var g' := Attach(g.(red := true, sibling := Blacken(g.sibling)), Attach(p.(red := false), z));
      FlipFixes(p, g, z);
      if up != [] {
        BalancedPlug(up, g');
        KeysPlug(up, g');
        IdsPlug(up, g');
        if Distinct(Plug(ctx, z)) {
          DistinctReplace(up, gsub, g');
        }
        assert CtxRedOk(ctx[1..], true);
        if up[0].red {
          RootPlug(up, g');
          RootPlug(up, gsub);
          BalanceFixes(up, g');
        } else {
          assert !g.red && CtxRedOk(up, false);
          assert CtxRedOk(up, true);
          NoRedRedPlug(up, g');
          RootPlug(up, g');
          RootPlug(up, gsub);
        }
      }
    }
  }

  /** A new node on its own holds one key and one id. */
  lemma NewLeaf(id: int, k: int)
    ensures var z := Branch(id, true, Leaf, k, Leaf);
      Keys(z) == [k] && Ids(z) == {id} && Distinct(z)
  {
    var z := Branch(id, true, Leaf, k, Leaf);
    assert Keys(z) == [] + [k] + [];
    assert Ids(z) == {} + {id} + {};
  }

  /** Before any repair, linking the new red node keeps the order, adds the
      key and the id. */
  lemma {:induction false} LinkRedLeafKeys(t: Tree, k: int, id: int)
    requires Sorted(Keys(t)) && t.Branch?
    ensures var ctx, z := InsertCtx(t, k), Branch(id, true, Leaf, k, Leaf);
      Sorted(Keys(Plug(ctx, z))) &&
      multiset(Keys(Plug(ctx, z))) == multiset(Keys(t)) + multiset{k} &&
      Ids(Plug(ctx, z)) == Ids(t) + {id} &&
      (Distinct(t) && id !in Ids(t) ==> Distinct(Plug(ctx, z)))
  {
    var ctx := InsertCtx(t, k);
    var z := Branch(id, true, Leaf, k, Leaf);
    NewLeaf(id, k);
    InsertCtxShape(t, k, z);
    var w := InsertAt(t, k, z);
    assert Plug(ctx, z) == w;
    InsertAtSorted(t, k, z);
    InsertAtMultiset(t, k, z);
    IdsPlug(ctx, z);
    IdsPlug(ctx, Leaf);
    if Distinct(t) && id !in Ids(t) {
      InsertAtIds(t, k, z);
    }
  }

  /** Before any repair, the black heights still agree and the only possible
      red-red pair is the new node under a red parent. */
  lemma {:induction false} LinkRedLeafShape(t: Tree, k: int, id: int)
    requires !IsRed(t) && NoRedRed(t) && Balanced(t) && t.Branch?
    ensures var ctx, z := InsertCtx(t, k), Branch(id, true, Leaf, k, Leaf);
      ctx != [] && Balanced(Plug(ctx, z)) && CtxRedOk(ctx, false) &&
      (!ctx[0].red ==> NoRedRed(Plug(ctx, z))) &&
      (ctx[0].red ==> |ctx| >= 2) &&
      !IsRed(Plug(ctx, z))
  {
    var ctx := InsertCtx(t, k);
    var z := Branch(id, true, Leaf, k, Leaf);
    InsertCtxShape(t, k, z);
    BalancedPlug(ctx, Leaf);
    BalancedPlug(ctx, z);
    NoRedRedPlug(ctx, Leaf);
    NoRedRedPlug(ctx, z);
    RootPlug(ctx, z);
    RootPlug(ctx, Leaf);
    if !ctx[0].red {
      assert CtxRedOk(ctx, true);
    }
  }

  /** `add` keeps the red-black invariants and adds exactly one copy of the
      key, under the new node's id. */
  lemma AddIsRedBlack(t: Tree, k: int, id: int)
    requires IsRedBlack(t)
    ensures IsRedBlack(Add(t, k, id))
    ensures multiset(Keys(Add(t, k, id))) == multiset(Keys(t)) + multiset{k}
    ensures Ids(Add(t, k, id)) == Ids(t) + {id}
    ensures Distinct(t) && id !in Ids(t) ==> Distinct(Add(t, k, id))
  {
    if t.Branch? {
      var ctx := InsertCtx(t, k);
      var z := Branch(id, true, Leaf, k, Leaf);
      LinkRedLeafKeys(t, k, id);
      LinkRedLeafShape(t, k, id);
      if ctx[0].red {
        BalanceFixes(ctx, z);
      }
    }
  }

  /** Adding 10, 20 and 30 in that order: the third key makes a right-right
      violation, and the rotation leaves 20 as a black root with 10 and 30 as
      its red children. */
  lemma AddAscending()
    ensures var t1 := Add(Leaf, 10, 0);
      t1 == Branch(0, false, Leaf, 10, Leaf) &&
      var t2 := Add(t1, 20, 1);
      t2 == Branch(0, false, Leaf, 10, Branch(1, true, Leaf, 20, Leaf)) &&
      Add(t2, 30, 2) == Branch(1, false, Branch(0, true, Leaf, 10, Leaf), 20, Branch(2, true, Leaf, 30, Leaf))
  {
    var t1 := Add(Leaf, 10, 0);
    var t2 := Add(t1, 20, 1);
    assert InsertCtx(t1, 20) == [GoRight(0, false, Leaf, 10)];
    assert InsertCtx(t2, 30) == [GoRight(1, true, Leaf, 20), GoRight(0, false, Leaf, 10)];
  }
}

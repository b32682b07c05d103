/** Deletion as the Java `remove`, `colorTransplant`, `findMinNode` and
    `fixRemove` intend it, stated on values: the search for the node holding
    the key, the splice that takes it (or its in-order successor) out of the
    tree, and the repair of the missing black node, case 3.1 to 3.4 on either
    side.  The proofs show the result is again a red-black tree holding one
    copy fewer of the key. */
module Deletion {
  import opened Trees
  import opened Zippers

  /** The search loop of `remove`: it walks down as `add` does (`>=` goes
      right) and remembers the last node whose key equals `k`, so the node
      found is the deepest equal one on the path. */
  function FindLast(t: Tree, k: int): (r: Option<Position>)
    ensures r.Some? ==>
      r.value.node.Branch? && r.value.node.key == k && Plug(r.value.ctx, r.value.node) == t
  {
    match t
    case Leaf => None
    case Branch(i, c, l, key, rt) =>
      if k >= key then
        match FindLast(rt, k)
        case Some(At(ctx, n)) =>
          PlugAppend(ctx, [GoRight(i, c, l, key)], n);
          Some(At(ctx + [GoRight(i, c, l, key)], n))
        case None => if k == key then Some(At([], t)) else None
      else
        match FindLast(l, k)
        case Some(At(ctx, n)) =>
          PlugAppend(ctx, [GoLeft(i, c, key, rt)], n);
          Some(At(ctx + [GoLeft(i, c, key, rt)], n))
        case None => None
  }

  /** `findMinNode` as intended: the leftmost node of a non-empty subtree,
      reached through left steps only. */
  function MinPos(t: Tree): (r: Position)
    requires t.Branch?
    ensures r.node.Branch? && r.node.left.Leaf? && Plug(r.ctx, r.node) == t
    ensures Before(r.ctx) == []
  {
    if t.left.Leaf? then At([], t)
    else
      var m := MinPos(t.left);
      var f := GoLeft(t.id, t.red, t.key, t.right);
      PlugAppend(m.ctx, [f], m.node);
      BeforeAfterAppend(m.ctx, [f]);
      At(m.ctx + [f], m.node)
  }

  /** What holds while `fixRemove` runs: the subtree `x` is one black node
      short of what its context expects, nothing else is wrong, and `x` may
      itself be red (then painting it black finishes the job). */
  predicate DelInv(ctx: seq<Frame>, x: Tree) {
    Balanced(x) && CtxBalanced(ctx, BlackHeight(x) + 1) &&
    NoRedRed(Blacken(x)) && CtxRedOk(ctx, false) &&
    (ctx != [] ==> !ctx[|ctx| - 1].red)
  }

  /** One pass of the `fixRemove` loop either moves `x` up (case 3.2) or
      finishes with the whole tree (case 3.4). */
  datatype Progress = Continue(ctx: seq<Frame>, x: Tree) | Done(t: Tree)

  function Whole(p: Progress): Tree {
    match p
    case Continue(ctx, x) => Plug(ctx, x)
    case Done(t) => t
  }

  /** Case 3.1: a red sibling is painted black, the parent red, and the
      parent rotated towards `x`; `x` then has a black sibling and a red
      parent, one level further down. */
  function RedSiblingRotation(f: Frame): seq<Frame>
    requires f.sibling.Branch?
  {
    match f
    case GoLeft(p, _, pk, s) => [GoLeft(p, true, pk, s.left), GoLeft(s.id, false, s.key, s.right)]
    case GoRight(p, _, s, pk) => [GoRight(p, true, s.right, pk), GoRight(s.id, false, s.left, s.key)]
  }

  /** Cases 3.2 to 3.4, the sibling being black.  3.2: both its children are
      black, so it turns red and `x` moves up to the parent.  3.3: its far
      child is black, so the near child is rotated up.  3.4: the sibling takes
      the parent's colour, the parent and the far child turn black, the
      parent is rotated towards `x` and the root is painted black. */
  function BlackSiblingStep(ctx: seq<Frame>, x: Tree): Progress
    requires ctx != [] && ctx[0].sibling.Branch? && !ctx[0].sibling.red
  {
    var f, up := ctx[0], ctx[1..];
    var s := f.sibling;
    if !IsRed(s.left) && !IsRed(s.right) then
      Continue(up, Attach(f.(sibling := s.(red := true)), x))
    else
      Done(Blacken(Plug(up, FarChildRotation(f, x))))
  }

  /** Cases 3.3 and 3.4 on the subtree of the parent of `x`; the result
      takes the parent's place. */
  function FarChildRotation(f: Frame, x: Tree): Tree
    requires f.sibling.Branch? && (IsRed(f.sibling.left) || IsRed(f.sibling.right))
  {
    var s := f.sibling;
    match f
    case GoLeft(p, pred, pk, _) =>
      var s2 := if !IsRed(s.right) then RotateRight(Branch(s.id, true, s.left.(red := false), s.key, s.right))
                else s;
      RotateLeft(Branch(p, false, x, pk, Branch(s2.id, pred, s2.left, s2.key, Blacken(s2.right))))
    case GoRight(p, pred, _, pk) =>
      var s2 := if !IsRed(s.left) then RotateLeft(Branch(s.id, true, s.left, s.key, s.right.(red := false)))
                else s;
      RotateRight(Branch(p, false, Branch(s2.id, pred, Blacken(s2.left), s2.key, s2.right), pk, x))
  }

  /** One pass of the `fixRemove` loop body for a black `x` below the root. */
  function FixStep(ctx: seq<Frame>, x: Tree): Progress
    requires DelInv(ctx, x) && ctx != [] && !IsRed(x)
  {
    if IsRed(ctx[0].sibling) then
      RedSiblingFacts(ctx, x);
      BlackSiblingStep(RedSiblingRotation(ctx[0]) + ctx[1..], x)
    else
      SiblingExists(ctx, x);
      BlackSiblingStep(ctx, x)
  }

  /** `fixRemove`: loops while `x` is black and not the root, then paints `x`
      black. */
  function FixRemove(ctx: seq<Frame>, x: Tree): Tree
    requires DelInv(ctx, x)
    decreases |ctx| + (if IsRed(x) then 0 else 1)
  {
    if ctx == [] || IsRed(x) then Plug(ctx, Blacken(x))
    else
      FixStepFacts(ctx, x);
      match FixStep(ctx, x)
      case Done(t) => t
      case Continue(ctx', x') => FixRemove(ctx', x')
  }

  /** The end of `remove`: `x` has taken the place of the node spliced out,
      and `fixRemove` runs when that node was black, whether or not `x` is a
      real node. */
  function Excise(ctx: seq<Frame>, removedRed: bool, x: Tree): Tree
    requires removedRed || DelInv(ctx, x)
  {
    if removedRed then Plug(ctx, x) else FixRemove(ctx, x)
  }

  /** Where the splice of `remove` leaves things: the position `x` moves
      to, the subtree `x` it brings there, and whether the node taken out of
      the tree was red. */
  datatype Splice = Splice(ctx: seq<Frame>, x: Tree, removedRed: bool)

  /** The splice of the node `z` found at `zctx`.  A node with a missing
      child is replaced by its other child (`colorTransplant`); otherwise its
      in-order successor `y` takes its place and colour, and `y`'s right
      child takes `y`'s place. */
  function SpliceAt(zctx: seq<Frame>, z: Tree): Splice
    requires z.Branch?
  {
    if z.left.Leaf? then Splice(zctx, z.right, z.red)
    else if z.right.Leaf? then Splice(zctx, z.left, z.red)
    else
      var m := MinPos(z.right);
      Splice(m.ctx + [GoRight(m.node.id, z.red, z.left, m.node.key)] + zctx, m.node.right, m.node.red)
  }

  /** `remove` on values: the tree is unchanged when the key is absent. */
  function Remove(t: Tree, k: int): Tree
    requires IsRedBlack(t)
  {
    match FindLast(t, k)
    case None => t
    case Some(At(zctx, z)) =>
      var s := SpliceAt(zctx, z);
      SpliceAtFacts(zctx, z);
      Excise(s.ctx, s.removedRed, s.x)
  }

  // ---------------------------------------------------------------- lemmas

  /** On a sorted tree the search of `remove` fails exactly when the key is
      absent. */
  lemma {:induction false} FindLastComplete(t: Tree, k: int)
    requires Sorted(Keys(t))
    ensures FindLast(t, k).None? <==> k !in Keys(t)
  {
    match t
    case Leaf =>
    case Branch(i, c, l, key, rt) =>
      SortedConcat(Keys(l), key, Keys(rt));
      if k >= key {
        FindLastComplete(rt, k);
        if k in Keys(l) {
          assert k <= key;
        }
      } else {
        FindLastComplete(l, k);
      }
  }

  /** Replacing a subtree by one with the same keys and ids changes neither
      the keys nor the ids of the whole tree. */
  lemma ReplaceHole(ctx: seq<Frame>, a: Tree, b: Tree)
    requires Keys(a) == Keys(b) && Ids(a) == Ids(b) && (Distinct(a) ==> Distinct(b))
    ensures Keys(Plug(ctx, a)) == Keys(Plug(ctx, b)) && Ids(Plug(ctx, a)) == Ids(Plug(ctx, b))
    ensures Distinct(Plug(ctx, a)) ==> Distinct(Plug(ctx, b))
  {
    KeysPlug(ctx, a);
    KeysPlug(ctx, b);
    IdsPlug(ctx, a);
    IdsPlug(ctx, b);
    if Distinct(Plug(ctx, a)) {
      DistinctPlug(ctx, a);
      DistinctReplace(ctx, a, b);
    }
  }

  /** The reads of the sibling's children in `fixRemove` (cases 3.2 to 3.4)
      find real nodes when `x` is a real black node one black node short and
      its sibling is black: the sibling's side then holds at least two black
      nodes.  After case 3.1 (`RedSiblingFacts`) this is again the situation. */
  lemma SiblingChildrenExist(ctx: seq<Frame>, x: Tree)
    requires DelInv(ctx, x) && ctx != [] && x.Branch? && !x.red && !IsRed(ctx[0].sibling)
    ensures ctx[0].sibling.Branch? && ctx[0].sibling.left.Branch? && ctx[0].sibling.right.Branch?
  {
    SiblingExists(ctx, x);
    var s := ctx[0].sibling;
    assert BlackHeight(x) >= 1;
    assert BlackHeight(s) == BlackHeight(s.left) + 1;
    assert Balanced(s);
    assert BlackHeight(s.left) >= 1 && BlackHeight(s.right) >= 1;
  }

  /** A black `x` one black node short below the root has a real sibling. */
  lemma SiblingExists(ctx: seq<Frame>, x: Tree)
    requires DelInv(ctx, x) && ctx != []
    ensures ctx[0].sibling.Branch? && BlackHeight(ctx[0].sibling) == BlackHeight(x) + 1
  {
  }

  lemma RedSiblingRotationKeys(f: Frame, x: Tree)
    requires f.sibling.Branch?
    ensures var t := Plug(RedSiblingRotation(f), x);
      Keys(t) == Keys(Attach(f, x)) && Ids(t) == Ids(Attach(f, x)) &&
      (Distinct(Attach(f, x)) ==> Distinct(t))
  {
    RedSiblingPlug(f, x);
    var s := f.sibling;
    var s' := s.(red := false);
    assert Keys(s') == Keys(s) && Ids(s') == Ids(s);
    if f.GoLeft? {
      var a := Branch(f.id, true, x, f.key, s');
      assert Plug(RedSiblingRotation(f), x) == RotateLeft(a);
      if Distinct(Attach(f, x)) {
        assert Distinct(s) && Distinct(s');
        RotateLeftDistinct(a);
      }
    } else {
      var a := Branch(f.id, true, s', f.key, x);
      assert Plug(RedSiblingRotation(f), x) == RotateRight(a);
      if Distinct(Attach(f, x)) {
        assert Distinct(s) && Distinct(s');
        RotateRightDistinct(a);
      }
    }
  }

  /** The two frames case 3.1 leaves above `x`, put back together. */
  lemma RedSiblingPlug(f: Frame, x: Tree)
    requires f.sibling.Branch?
    ensures var s := f.sibling;
      Plug(RedSiblingRotation(f), x) ==
        if f.GoLeft? then Branch(s.id, false, Branch(f.id, true, x, f.key, s.left), s.key, s.right)
        else Branch(s.id, false, s.left, s.key, Branch(f.id, true, s.right, f.key, x))
  {
    var c := RedSiblingRotation(f);
    assert c[1..][0] == c[1] && c[1..][1..] == [];
    assert Plug(c, x) == Plug(c[1..], Attach(c[0], x));
    assert Plug(c[1..], Attach(c[0], x)) == Plug([], Attach(c[1], Attach(c[0], x)));
  }

  /** Case 3.1 keeps the invariant and leaves `x` with a black sibling and a
      red parent. */
  lemma RedSiblingFacts(ctx: seq<Frame>, x: Tree)
    requires DelInv(ctx, x) && ctx != [] && !IsRed(x) && IsRed(ctx[0].sibling)
    ensures var c := RedSiblingRotation(ctx[0]) + ctx[1..];
      DelInv(c, x) && c != [] && c[0].red && c[0].sibling.Branch? && !c[0].sibling.red &&
      |c| == |ctx| + 1
    ensures var c := RedSiblingRotation(ctx[0]) + ctx[1..];
      Keys(Plug(c, x)) == Keys(Plug(ctx, x)) && Ids(Plug(c, x)) == Ids(Plug(ctx, x)) &&
      (Distinct(Plug(ctx, x)) ==> Distinct(Plug(c, x)))
  {
    RedSiblingColours(ctx, x);
    RedSiblingContents(ctx, x);
  }

  lemma RedSiblingColours(ctx: seq<Frame>, x: Tree)
    requires DelInv(ctx, x) && ctx != [] && !IsRed(x) && IsRed(ctx[0].sibling)
    ensures var c := RedSiblingRotation(ctx[0]) + ctx[1..];
      DelInv(c, x) && c != [] && c[0].red && c[0].sibling.Branch? && !c[0].sibling.red &&
      |c| == |ctx| + 1
  {
    var f, up := ctx[0], ctx[1..];
    var s := f.sibling;
    var h := BlackHeight(x);
    var two := RedSiblingRotation(f);
    var c := two + up;
    assert !f.red;
    assert CtxBalanced(up, h + 2) && CtxRedOk(up, false);
    assert Balanced(s.left) && Balanced(s.right) && BlackHeight(s.left) == BlackHeight(s.right) == h + 1;
    assert two[1..][0] == two[1] && two[1..][1..] == [];
    assert two[0].red && !two[1].red;
    assert Blacks(two[1..]) == 1;
    assert Blacks(two) == (if two[0].red then 0 else 1) + Blacks(two[1..]);
    assert Blacks(two) == 1;
    assert CtxBalanced(two, h + 1);
    assert CtxRedOk(two, false);
    CtxBalancedAppend(two, up, h + 1);
    CtxRedOkAppend(two, up, false);
    assert c[0] == two[0] && c[|c| - 1] == (if up == [] then two[1] else ctx[|ctx| - 1]);
  }

  lemma RedSiblingContents(ctx: seq<Frame>, x: Tree)
    requires ctx != [] && ctx[0].sibling.Branch?
    ensures var c := RedSiblingRotation(ctx[0]) + ctx[1..];
      Keys(Plug(c, x)) == Keys(Plug(ctx, x)) && Ids(Plug(c, x)) == Ids(Plug(ctx, x)) &&
      (Distinct(Plug(ctx, x)) ==> Distinct(Plug(c, x)))
  {
    var f, up := ctx[0], ctx[1..];
    var two := RedSiblingRotation(f);
    PlugAppend(two, up, x);
    assert ctx == [f] + up;
    PlugAppend([f], up, x);
    RedSiblingRotationKeys(f, x);
    ReplaceHole(up, Attach(f, x), Plug(two, x));
  }

  /** Case 3.2 keeps the invariant one level up. */
  lemma RecolorSiblingFacts(ctx: seq<Frame>, x: Tree)
    requires DelInv(ctx, x) && ctx != [] && !IsRed(x)
    requires ctx[0].sibling.Branch? && !ctx[0].sibling.red
    requires !IsRed(ctx[0].sibling.left) && !IsRed(ctx[0].sibling.right)
    ensures var r := BlackSiblingStep(ctx, x);
      r.Continue? && DelInv(r.ctx, r.x) && |r.ctx| == |ctx| - 1 && IsRed(r.x) == ctx[0].red
    ensures var r := BlackSiblingStep(ctx, x);
      Keys(Whole(r)) == Keys(Plug(ctx, x)) && Ids(Whole(r)) == Ids(Plug(ctx, x)) &&
      (Distinct(Plug(ctx, x)) ==> Distinct(Whole(r)))
  {
    RecolorSiblingColours(ctx, x);
    RecolorSiblingContents(ctx, x);
  }

  lemma RecolorSiblingColours(ctx: seq<Frame>, x: Tree)
    requires DelInv(ctx, x) && ctx != [] && !IsRed(x)
    requires ctx[0].sibling.Branch? && !ctx[0].sibling.red
    requires !IsRed(ctx[0].sibling.left) && !IsRed(ctx[0].sibling.right)
    ensures var x' := Attach(ctx[0].(sibling := ctx[0].sibling.(red := true)), x);
      DelInv(ctx[1..], x') && IsRed(x') == ctx[0].red
  {
    var f, up := ctx[0], ctx[1..];
    var s := f.sibling;
    var s' := s.(red := true);
    var x' := Attach(f.(sibling := s'), x);
    var h := BlackHeight(x);
    assert CtxBalanced(up, h + 1 + (if f.red then 0 else 1)) && CtxRedOk(up, f.red);
    assert Blacken(x) == x;
    assert Balanced(s') && BlackHeight(s') == h;
    assert Balanced(x') && BlackHeight(x') == h + (if f.red then 0 else 1);
    assert NoRedRed(s');
    assert NoRedRed(Blacken(x'));
    assert up != [] ==> up[|up| - 1] == ctx[|ctx| - 1];
  }

  lemma RecolorSiblingContents(ctx: seq<Frame>, x: Tree)
    requires ctx != [] && ctx[0].sibling.Branch?
    ensures var x' := Attach(ctx[0].(sibling := ctx[0].sibling.(red := true)), x);
      Keys(Plug(ctx[1..], x')) == Keys(Plug(ctx, x)) && Ids(Plug(ctx[1..], x')) == Ids(Plug(ctx, x)) &&
      (Distinct(Plug(ctx, x)) ==> Distinct(Plug(ctx[1..], x')))
  {
    var f, up := ctx[0], ctx[1..];
    var s := f.sibling;
    var s' := s.(red := true);
    var x' := Attach(f.(sibling := s'), x);
    assert Keys(s') == Keys(s) && Ids(s') == Ids(s);
    if Distinct(Attach(f, x)) {
      assert Distinct(s);
      assert Distinct(s');
    }
    ReplaceHole(up, Attach(f, x), x');
    assert ctx == [f] + up;
    PlugAppend([f], up, x);
  }

  /** Case 3.3 on the left side: afterwards the sibling is black with a red
      far (right) child, same keys, same black height. */
  lemma NearChildLeftFacts(s: Tree)
    requires s.Branch? && !s.red && Balanced(s) && NoRedRed(s) && (IsRed(s.left) || IsRed(s.right))
    ensures var s2 := if !IsRed(s.right) then RotateRight(Branch(s.id, true, s.left.(red := false), s.key, s.right))
                      else s;
      s2.Branch? && !s2.red && Balanced(s2) && BlackHeight(s2) == BlackHeight(s) &&
      IsRed(s2.right) && NoRedRed(s2.left) && NoRedRed(Blacken(s2.right)) &&
      Keys(s2) == Keys(s) && Ids(s2) == Ids(s) && (Distinct(s) ==> Distinct(s2))
  {
    if !IsRed(s.right) {
      var sl := s.left;
      var t := Branch(s.id, true, sl.(red := false), s.key, s.right);
      assert Keys(sl.(red := false)) == Keys(sl) && Ids(sl.(red := false)) == Ids(sl);
      assert RotateRight(t) == Branch(sl.id, false, sl.left, sl.key, Branch(s.id, true, sl.right, s.key, s.right));
      if Distinct(s) {
        assert Distinct(sl) && Distinct(sl.(red := false));
        assert Distinct(t);
        RotateRightDistinct(t);
      }
    }
  }

  /** Case 3.3 on the right side, the mirror image. */
  lemma NearChildRightFacts(s: Tree)
    requires s.Branch? && !s.red && Balanced(s) && NoRedRed(s) && (IsRed(s.left) || IsRed(s.right))
    ensures var s2 := if !IsRed(s.left) then RotateLeft(Branch(s.id, true, s.left, s.key, s.right.(red := false)))
                      else s;
      s2.Branch? && !s2.red && Balanced(s2) && BlackHeight(s2) == BlackHeight(s) &&
      IsRed(s2.left) && NoRedRed(s2.right) && NoRedRed(Blacken(s2.left)) &&
      Keys(s2) == Keys(s) && Ids(s2) == Ids(s) && (Distinct(s) ==> Distinct(s2))
  {
    if !IsRed(s.left) {
      var sr := s.right;
      var t := Branch(s.id, true, s.left, s.key, sr.(red := false));
      assert Keys(sr.(red := false)) == Keys(sr) && Ids(sr.(red := false)) == Ids(sr);
      assert RotateLeft(t) == Branch(sr.id, false, Branch(s.id, true, s.left, s.key, sr.left), sr.key, sr.right);
      if Distinct(s) {
        assert Distinct(sr) && Distinct(sr.(red := false));
        assert Distinct(t);
        RotateLeftDistinct(t);
      }
    }
  }

  /** Case 3.4 on the left side: the rotated subtree is balanced, one black
      node taller than `x`'s sibling's subtree when the parent was black,
      and has no red-red pair. */
  lemma FarChildLeftShape(f: Frame, x: Tree)
    requires f.GoLeft? && f.sibling.Branch? && !f.sibling.red
    requires IsRed(f.sibling.left) || IsRed(f.sibling.right)
    requires Balanced(f.sibling) && NoRedRed(f.sibling) && BlackHeight(f.sibling) == BlackHeight(x) + 1
    requires Balanced(x) && NoRedRed(x) && !IsRed(x)
    ensures var top := FarChildRotation(f, x);
      Balanced(top) && BlackHeight(top) == BlackHeight(x) + 1 + (if f.red then 0 else 1) &&
      NoRedRed(top) && IsRed(top) == f.red
  {
    var s, h := f.sibling, BlackHeight(x);
    NearChildLeftFacts(s);
    var s2 := if !IsRed(s.right) then RotateRight(Branch(s.id, true, s.left.(red := false), s.key, s.right)) else s;
    var tl, tr := Branch(f.id, false, x, f.key, s2.left), Blacken(s2.right);
    assert FarChildRotation(f, x) == Branch(s2.id, f.red, tl, s2.key, tr);
    BlackenFacts(s2.right);
    assert BlackHeight(s2.left) == h && BlackHeight(s2.right) == h;
    assert Balanced(tl) && BlackHeight(tl) == h + 1;
  }

  /** Case 3.4 on the right side, the mirror image. */
  lemma FarChildRightShape(f: Frame, x: Tree)
    requires f.GoRight? && f.sibling.Branch? && !f.sibling.red
    requires IsRed(f.sibling.left) || IsRed(f.sibling.right)
    requires Balanced(f.sibling) && NoRedRed(f.sibling) && BlackHeight(f.sibling) == BlackHeight(x) + 1
    requires Balanced(x) && NoRedRed(x) && !IsRed(x)
    ensures var top := FarChildRotation(f, x);
      Balanced(top) && BlackHeight(top) == BlackHeight(x) + 1 + (if f.red then 0 else 1) &&
      NoRedRed(top) && IsRed(top) == f.red
  {
    var s, h := f.sibling, BlackHeight(x);
    NearChildRightFacts(s);
    var s2 := if !IsRed(s.left) then RotateLeft(Branch(s.id, true, s.left, s.key, s.right.(red := false))) else s;
    var tl, tr := Blacken(s2.left), Branch(f.id, false, s2.right, f.key, x);
    assert FarChildRotation(f, x) == Branch(s2.id, f.red, tl, s2.key, tr);
    BlackenFacts(s2.left);
    assert BlackHeight(s2.left) == h && BlackHeight(s2.right) == h;
    assert Balanced(tr) && BlackHeight(tr) == h + 1;
  }

  /** Cases 3.3 and 3.4 keep the keys and ids of the parent's subtree. */
  lemma FarChildKeys(f: Frame, x: Tree)
    requires f.sibling.Branch? && !f.sibling.red && Balanced(f.sibling) && NoRedRed(f.sibling)
    requires IsRed(f.sibling.left) || IsRed(f.sibling.right)
    ensures var top := FarChildRotation(f, x);
      Keys(top) == Keys(Attach(f, x)) && Ids(top) == Ids(Attach(f, x)) &&
      (Distinct(Attach(f, x)) ==> Distinct(top))
  {
    if f.GoLeft? {
      FarChildLeftKeys(f, x);
    } else {
      FarChildRightKeys(f, x);
    }
  }

  lemma FarChildLeftKeys(f: Frame, x: Tree)
    requires f.GoLeft?
    requires f.sibling.Branch? && !f.sibling.red && Balanced(f.sibling) && NoRedRed(f.sibling)
    requires IsRed(f.sibling.left) || IsRed(f.sibling.right)
    ensures var top := FarChildRotation(f, x);
      Keys(top) == Keys(Attach(f, x)) && Ids(top) == Ids(Attach(f, x)) &&
      (Distinct(Attach(f, x)) ==> Distinct(top))
  {
    var s := f.sibling;
    NearChildLeftFacts(s);
    var s2 := if !IsRed(s.right) then RotateRight(Branch(s.id, true, s.left.(red := false), s.key, s.right)) else s;
    var inner := Branch(f.id, false, x, f.key, Branch(s2.id, f.red, s2.left, s2.key, Blacken(s2.right)));
    BlackenFacts(s2.right);
    assert Keys(inner) == Keys(Attach(f, x)) && Ids(inner) == Ids(Attach(f, x));
    if Distinct(Attach(f, x)) {
      assert Distinct(s);
      assert Distinct(inner);
      RotateLeftDistinct(inner);
    }
  }

  lemma FarChildRightKeys(f: Frame, x: Tree)
    requires f.GoRight?
    requires f.sibling.Branch? && !f.sibling.red && Balanced(f.sibling) && NoRedRed(f.sibling)
    requires IsRed(f.sibling.left) || IsRed(f.sibling.right)
    ensures var top := FarChildRotation(f, x);
      Keys(top) == Keys(Attach(f, x)) && Ids(top) == Ids(Attach(f, x)) &&
      (Distinct(Attach(f, x)) ==> Distinct(top))
  {
    var s := f.sibling;
    NearChildRightFacts(s);
    var s2 := if !IsRed(s.left) then RotateLeft(Branch(s.id, true, s.left, s.key, s.right.(red := false))) else s;
    var inner := Branch(f.id, false, Branch(s2.id, f.red, Blacken(s2.left), s2.key, s2.right), f.key, x);
    BlackenFacts(s2.left);
    assert Keys(inner) == Keys(Attach(f, x)) && Ids(inner) == Ids(Attach(f, x));
    if Distinct(Attach(f, x)) {
      assert Distinct(s);
      assert Distinct(inner);
      RotateRightDistinct(inner);
    }
  }

  /** Cases 3.3 and 3.4 end the repair with a red-black tree. */
  lemma FarChildFacts(ctx: seq<Frame>, x: Tree)
    requires DelInv(ctx, x) && ctx != [] && !IsRed(x)
    requires ctx[0].sibling.Branch? && !ctx[0].sibling.red
    requires IsRed(ctx[0].sibling.left) || IsRed(ctx[0].sibling.right)
    ensures var r := BlackSiblingStep(ctx, x);
      r.Done? && Balanced(r.t) && NoRedRed(r.t) && !IsRed(r.t)
    ensures var r := BlackSiblingStep(ctx, x);
      Keys(Whole(r)) == Keys(Plug(ctx, x)) && Ids(Whole(r)) == Ids(Plug(ctx, x)) &&
      (Distinct(Plug(ctx, x)) ==> Distinct(Whole(r)))
  {
    FarChildColours(ctx, x);
    assert Balanced(ctx[0].sibling) && NoRedRed(ctx[0].sibling);
    FarChildContents(ctx, x);
  }

  lemma FarChildColours(ctx: seq<Frame>, x: Tree)
    requires DelInv(ctx, x) && ctx != [] && !IsRed(x)
    requires ctx[0].sibling.Branch? && !ctx[0].sibling.red
    requires IsRed(ctx[0].sibling.left) || IsRed(ctx[0].sibling.right)
    ensures var t := Blacken(Plug(ctx[1..], FarChildRotation(ctx[0], x)));
      Balanced(t) && NoRedRed(t) && !IsRed(t)
  {
    var f, up := ctx[0], ctx[1..];
    var h := BlackHeight(x);
    assert CtxBalanced(up, h + 1 + (if f.red then 0 else 1)) && CtxRedOk(up, f.red);
    assert Blacken(x) == x;
    assert Balanced(f.sibling) && BlackHeight(f.sibling) == h + 1 && NoRedRed(f.sibling);
    var top := FarChildRotation(f, x);
    if f.GoLeft? {
      FarChildLeftShape(f, x);
    } else {
      FarChildRightShape(f, x);
    }
    BalancedPlug(up, top);
    NoRedRedPlug(up, top);
    BlackenFacts(Plug(up, top));
  }

  lemma FarChildContents(ctx: seq<Frame>, x: Tree)
    requires ctx != [] && ctx[0].sibling.Branch? && !ctx[0].sibling.red
    requires Balanced(ctx[0].sibling) && NoRedRed(ctx[0].sibling)
    requires IsRed(ctx[0].sibling.left) || IsRed(ctx[0].sibling.right)
    ensures var t := Blacken(Plug(ctx[1..], FarChildRotation(ctx[0], x)));
      Keys(t) == Keys(Plug(ctx, x)) && Ids(t) == Ids(Plug(ctx, x)) &&
      (Distinct(Plug(ctx, x)) ==> Distinct(t))
  {
    var f, up := ctx[0], ctx[1..];
    var top := FarChildRotation(f, x);
    BlackenFacts(Plug(up, top));
    FarChildKeys(f, x);
    ReplaceHole(up, Attach(f, x), top);
    assert ctx == [f] + up;
    PlugAppend([f], up, x);
    ReplaceHole([], Plug(up, top), Blacken(Plug(up, top)));
  }

  /** One pass of the loop keeps the invariant, brings the loop measure
      down, keeps keys and ids, and a finished pass leaves a red-black tree. */
  lemma FixStepFacts(ctx: seq<Frame>, x: Tree)
    requires DelInv(ctx, x) && ctx != [] && !IsRed(x)
    ensures var r := FixStep(ctx, x);
      (r.Continue? ==> DelInv(r.ctx, r.x) && |r.ctx| + (if IsRed(r.x) then 0 else 1) < |ctx| + 1) &&
      (r.Done? ==> Balanced(r.t) && NoRedRed(r.t) && !IsRed(r.t))
    ensures var r := FixStep(ctx, x);
      Keys(Whole(r)) == Keys(Plug(ctx, x)) && Ids(Whole(r)) == Ids(Plug(ctx, x)) &&
      (Distinct(Plug(ctx, x)) ==> Distinct(Whole(r)))
  {
    var c := ctx;
    if IsRed(ctx[0].sibling) {
      RedSiblingFacts(ctx, x);
      c := RedSiblingRotation(ctx[0]) + ctx[1..];
    } else {
      SiblingExists(ctx, x);
    }
    var s := c[0].sibling;
    if !IsRed(s.left) && !IsRed(s.right) {
      RecolorSiblingFacts(c, x);
    } else {
      FarChildFacts(c, x);
    }
  }

  /** `fixRemove` turns a tree that is one black node short at `x` into a
      red-black tree with the same keys and nodes. */
  lemma {:induction false} FixRemoveFixes(ctx: seq<Frame>, x: Tree)
    requires DelInv(ctx, x)
    ensures var r := FixRemove(ctx, x);
      Balanced(r) && NoRedRed(r) && !IsRed(r) &&
      Keys(r) == Keys(Plug(ctx, x)) && Ids(r) == Ids(Plug(ctx, x)) &&
      (Distinct(Plug(ctx, x)) ==> Distinct(r))
    decreases |ctx| + (if IsRed(x) then 0 else 1)
  {
    if ctx == [] || IsRed(x) {
      BlackenFacts(x);
      BalancedPlug(ctx, Blacken(x));
      NoRedRedPlug(ctx, Blacken(x));
      RootPlug(ctx, Blacken(x));
      ReplaceHole(ctx, x, Blacken(x));
    } else {
      FixStepFacts(ctx, x);
      match FixStep(ctx, x)
      case Done(t) =>
      case Continue(ctx', x') =>
        FixRemoveFixes(ctx', x');
    }
  }

  /** In a red-black tree the node `remove` takes out has a missing child
      (the node found, or its in-order successor), so its other child, the
      `x` that takes its place, is either missing or a red node without
      children: a real `x` never enters the `fixRemove` loop. */
  lemma OnlyChildRed(n: Tree)
    requires n.Branch? && Balanced(n) && NoRedRed(n) && (n.left.Leaf? || n.right.Leaf?)
    ensures var x := if n.left.Leaf? then n.right else n.left;
      x.Branch? ==> x.red && x.left.Leaf? && x.right.Leaf?
  {
    var x := if n.left.Leaf? then n.right else n.left;
    assert BlackHeight(x) == 0;
    if x.Branch? {
      assert x.red;
      assert BlackHeight(x.left) == 0 && BlackHeight(x.right) == 0;
      assert !IsRed(x.left) && !IsRed(x.right);
    }
  }

  /** Splicing out a node with a missing child: if it was black, its other
      child is one black node short; if it was red, nothing is wrong. */
  lemma SpliceFacts(ctx: seq<Frame>, n: Tree)
    requires Balanced(Plug(ctx, n)) && NoRedRed(Plug(ctx, n)) && !IsRed(Plug(ctx, n))
    requires n.Branch? && (n.left.Leaf? || n.right.Leaf?)
    ensures var x := if n.left.Leaf? then n.right else n.left;
      (!n.red ==> DelInv(ctx, x)) &&
      (n.red ==> Balanced(Plug(ctx, x)) && NoRedRed(Plug(ctx, x)) && !IsRed(Plug(ctx, x)))
  {
    var x := if n.left.Leaf? then n.right else n.left;
    BalancedPlug(ctx, n);
    NoRedRedPlug(ctx, n);
    RootPlug(ctx, n);
    BlackenFacts(x);
    assert BlackHeight(x) == 0;
    if n.red {
      BalancedPlug(ctx, x);
      NoRedRedPlug(ctx, x);
      RootPlug(ctx, x);
    }
  }

  /** The context invariants look only at colours and siblings, so a frame
      may be exchanged for one with the same colour and sibling. */
  lemma {:induction false} SwapFrame(a: seq<Frame>, f: Frame, g: Frame, b: seq<Frame>, h: nat, hr: bool)
    requires f.red == g.red && f.sibling == g.sibling
    ensures CtxBalanced(a + [f] + b, h) == CtxBalanced(a + [g] + b, h)
    ensures CtxRedOk(a + [f] + b, hr) == CtxRedOk(a + [g] + b, hr)
    ensures (a + [f] + b)[|a + [f] + b| - 1].red == (a + [g] + b)[|a + [g] + b| - 1].red
    decreases |a|
  {
    if a == [] {
      assert a + [f] + b == [f] + b && a + [g] + b == [g] + b;
      assert ([f] + b)[1..] == b && ([g] + b)[1..] == b;
    } else {
      assert (a + [f] + b)[1..] == a[1..] + [f] + b;
      assert (a + [g] + b)[1..] == a[1..] + [g] + b;
      SwapFrame(a[1..], f, g, b, h + (if a[0].red then 0 else 1), a[0].red);
    }
  }

  /** The two-children case of `remove` as a plug: the successor `y`, with
      the removed node's colour, holds the removed node's left subtree and
      the right subtree with `y`'s right child in `y`'s place. */
  lemma SuccessorPlug(zctx: seq<Frame>, z: Tree, yctx: seq<Frame>, y: Tree)
    requires z.Branch? && y.Branch?
    ensures Plug(yctx + [GoRight(y.id, z.red, z.left, y.key)] + zctx, y.right) ==
            Plug(zctx, Branch(y.id, z.red, z.left, y.key, Plug(yctx, y.right)))
    ensures Plug(yctx + [GoRight(z.id, z.red, z.left, z.key)] + zctx, y) ==
            Plug(zctx, Branch(z.id, z.red, z.left, z.key, Plug(yctx, y)))
  {
    var g := GoRight(y.id, z.red, z.left, y.key);
    var f := GoRight(z.id, z.red, z.left, z.key);
    PlugAppend(yctx + [g], zctx, y.right);
    PlugAppend(yctx, [g], y.right);
    PlugAppend(yctx + [f], zctx, y);
    PlugAppend(yctx, [f], y);
  }

  /** The two-children case: splicing out the successor `y` leaves the same
      situation as splicing out a node with a missing child. */
  lemma SuccessorFacts(zctx: seq<Frame>, z: Tree, yctx: seq<Frame>, y: Tree)
    requires Balanced(Plug(zctx, z)) && NoRedRed(Plug(zctx, z)) && !IsRed(Plug(zctx, z))
    requires z.Branch? && y.Branch? && y.left.Leaf? && Plug(yctx, y) == z.right
    ensures var xctx := yctx + [GoRight(y.id, z.red, z.left, y.key)] + zctx;
      (!y.red ==> DelInv(xctx, y.right)) &&
      (y.red ==> Balanced(Plug(xctx, y.right)) && NoRedRed(Plug(xctx, y.right)) && !IsRed(Plug(xctx, y.right)))
  {
    var g := GoRight(y.id, z.red, z.left, y.key);
    var f := GoRight(z.id, z.red, z.left, z.key);
    var x := y.right;
    var ctx' := yctx + [f] + zctx;
    var xctx := yctx + [g] + zctx;
    SuccessorPlug(zctx, z, yctx, y);
    assert Branch(z.id, z.red, z.left, z.key, Plug(yctx, y)) == z;
    SpliceFacts(ctx', y);
    SwapFrame(yctx, f, g, zctx, BlackHeight(x) + 1, false);
    SwapFrame(yctx, f, g, zctx, BlackHeight(x), IsRed(x));
    BalancedPlug(ctx', x);
    BalancedPlug(xctx, x);
    NoRedRedPlug(ctx', x);
    NoRedRedPlug(xctx, x);
    RootPlug(ctx', x);
    RootPlug(xctx, x);
  }

  /** Taking one element out of a sorted sequence. */
  lemma DropOne(p: seq<int>, k: int, s: seq<int>)
    requires Sorted(p + [k] + s)
    ensures Sorted(p + s) && multiset(p + s) == multiset(p + [k] + s) - multiset{k}
  {
    SortedDrop(p, k, s);
  }

  /** Replacing a subtree whose keys are `p + [k] + s` by one whose keys are
      `p + s` takes exactly one `k` out of the whole tree and keeps it
      sorted. */
  lemma DropInContext(ctx: seq<Frame>, z: Tree, w: Tree, p: seq<int>, k: int, s: seq<int>)
    requires Keys(z) == p + [k] + s && Keys(w) == p + s && Sorted(Keys(Plug(ctx, z)))
    ensures Sorted(Keys(Plug(ctx, w)))
    ensures multiset(Keys(Plug(ctx, w))) == multiset(Keys(Plug(ctx, z))) - multiset{k}
  {
    var b, a := Before(ctx), After(ctx);
    KeysAround(ctx, z, w, p, k, s);
    DropOne(b + p, k, s + a);
  }

  lemma KeysAround(ctx: seq<Frame>, z: Tree, w: Tree, p: seq<int>, k: int, s: seq<int>)
    requires Keys(z) == p + [k] + s && Keys(w) == p + s
    ensures Keys(Plug(ctx, z)) == (Before(ctx) + p) + [k] + (s + After(ctx))
    ensures Keys(Plug(ctx, w)) == (Before(ctx) + p) + (s + After(ctx))
  {
    KeysPlug(ctx, z);
    KeysPlug(ctx, w);
    SpliceRegroup(Before(ctx), p, k, s, After(ctx));
  }

  lemma SpliceRegroup(b: seq<int>, p: seq<int>, k: int, s: seq<int>, a: seq<int>)
    ensures b + (p + [k] + s) + a == (b + p) + [k] + (s + a)
    ensures b + (p + s) + a == (b + p) + (s + a)
  {
  }

  /** The splice itself removes exactly the found node's key from the
      in-order sequence. */
  lemma SpliceKeys(zctx: seq<Frame>, z: Tree)
    requires z.Branch? && (z.left.Leaf? || z.right.Leaf?) && Sorted(Keys(Plug(zctx, z)))
    ensures var x := if z.left.Leaf? then z.right else z.left;
      Sorted(Keys(Plug(zctx, x))) &&
      multiset(Keys(Plug(zctx, x))) == multiset(Keys(Plug(zctx, z))) - multiset{z.key}
  {
    if z.left.Leaf? {
      DropInContext(zctx, z, z.right, [], z.key, Keys(z.right));
    } else {
      DropInContext(zctx, z, z.left, Keys(z.left), z.key, []);
    }
  }

  /** The splice drops the found node and keeps the other ids distinct. */
  lemma SpliceIds(zctx: seq<Frame>, z: Tree)
    requires z.Branch?
    ensures var x := if z.left.Leaf? then z.right else z.left;
      Ids(Plug(zctx, x)) <= Ids(Plug(zctx, z)) &&
      (Distinct(Plug(zctx, z)) ==> Distinct(Plug(zctx, x)))
  {
    var x := if z.left.Leaf? then z.right else z.left;
    IdsPlug(zctx, z);
    IdsPlug(zctx, x);
    if Distinct(Plug(zctx, z)) {
      DistinctPlug(zctx, z);
      DistinctReplace(zctx, z, x);
    }
  }

  /** The two-children case removes exactly the found node's key: its
      successor's key moves into its place, keeping the order. */
  lemma SuccessorKeys(zctx: seq<Frame>, z: Tree, yctx: seq<Frame>, y: Tree)
    requires z.Branch? && y.Branch? && y.left.Leaf? && Plug(yctx, y) == z.right && Before(yctx) == []
    requires Sorted(Keys(Plug(zctx, z)))
    ensures var t' := Plug(yctx + [GoRight(y.id, z.red, z.left, y.key)] + zctx, y.right);
      Sorted(Keys(t')) && multiset(Keys(t')) == multiset(Keys(Plug(zctx, z))) - multiset{z.key}
  {
    var w := Branch(y.id, z.red, z.left, y.key, Plug(yctx, y.right));
    SuccessorPlug(zctx, z, yctx, y);
    SuccessorSubtreeKeys(z, yctx, y);
    DropInContext(zctx, z, w, Keys(z.left), z.key, [y.key] + (Keys(y.right) + After(yctx)));
  }

  /** Within the found node's subtree: the successor's key comes first on
      the right, so moving it up removes the found key alone. */
  lemma SuccessorSubtreeKeys(z: Tree, yctx: seq<Frame>, y: Tree)
    requires z.Branch? && y.Branch? && y.left.Leaf? && Plug(yctx, y) == z.right && Before(yctx) == []
    ensures var rest := [y.key] + (Keys(y.right) + After(yctx));
      Keys(z) == Keys(z.left) + [z.key] + rest &&
      Keys(Branch(y.id, z.red, z.left, y.key, Plug(yctx, y.right))) == Keys(z.left) + rest
  {
    var r, a := Keys(y.right), After(yctx);
    KeysPlug(yctx, y);
    KeysPlug(yctx, y.right);
    assert Keys(y) == [] + [y.key] + r;
    LeadingKey(y.key, r, a);
    assert Keys(z.right) == [y.key] + (r + a);
    assert Keys(Plug(yctx, y.right)) == r + a;
  }

  lemma LeadingKey(k: int, r: seq<int>, a: seq<int>)
    ensures [] + ([] + [k] + r) + a == [k] + (r + a) && [] + r + a == r + a
  {
  }

  /** The two-children case drops the found node and keeps the other ids
      distinct. */
  lemma SuccessorIds(zctx: seq<Frame>, z: Tree, yctx: seq<Frame>, y: Tree)
    requires z.Branch? && y.Branch? && Plug(yctx, y) == z.right
    ensures var t' := Plug(yctx + [GoRight(y.id, z.red, z.left, y.key)] + zctx, y.right);
      Ids(t') <= Ids(Plug(zctx, z)) && (Distinct(Plug(zctx, z)) ==> Distinct(t'))
  {
    var x := y.right;
    var w := Branch(y.id, z.red, z.left, y.key, Plug(yctx, x));
    SuccessorPlug(zctx, z, yctx, y);
    IdsPlug(zctx, z);
    IdsPlug(zctx, w);
    IdsPlug(yctx, y);
    IdsPlug(yctx, x);
    assert Ids(w) <= Ids(z);
    if Distinct(Plug(zctx, z)) {
      DistinctPlug(zctx, z);
      DistinctPlug(yctx, y);
      DistinctReplace(yctx, y, x);
      assert y.id in Ids(z.right);
      assert Distinct(w);
      DistinctReplace(zctx, z, w);
    }
  }

  /** Whatever the splice, the tree left is a red-black tree if the node
      taken out was red, and one black node short at `x` otherwise. */
  lemma SpliceAtFacts(zctx: seq<Frame>, z: Tree)
    requires IsRedBlack(Plug(zctx, z)) && z.Branch?
    ensures var s := SpliceAt(zctx, z);
      (!s.removedRed ==> DelInv(s.ctx, s.x)) &&
      (s.removedRed ==> Balanced(Plug(s.ctx, s.x)) && NoRedRed(Plug(s.ctx, s.x)) && !IsRed(Plug(s.ctx, s.x)))
  {
    if z.left.Leaf? || z.right.Leaf? {
      SpliceFacts(zctx, z);
    } else {
      var m := MinPos(z.right);
      SuccessorFacts(zctx, z, m.ctx, m.node);
    }
  }

  /** The splice takes out exactly one copy of the found key, keeps the
      order, and uses no id the tree did not have. */
  lemma SpliceAtKeys(zctx: seq<Frame>, z: Tree)
    requires Sorted(Keys(Plug(zctx, z))) && z.Branch?
    ensures var s := SpliceAt(zctx, z); var t' := Plug(s.ctx, s.x);
      Sorted(Keys(t')) && multiset(Keys(t')) == multiset(Keys(Plug(zctx, z))) - multiset{z.key} &&
      Ids(t') <= Ids(Plug(zctx, z)) && (Distinct(Plug(zctx, z)) ==> Distinct(t'))
  {
    if z.left.Leaf? || z.right.Leaf? {
      SpliceKeys(zctx, z);
      SpliceIds(zctx, z);
    } else {
      var m := MinPos(z.right);
      SuccessorKeys(zctx, z, m.ctx, m.node);
      SuccessorIds(zctx, z, m.ctx, m.node);
    }
  }

  /** `remove` keeps the red-black invariants; when the key is present it
      takes out exactly one copy of it, otherwise the tree is unchanged. */
  lemma RemoveIsRedBlack(t: Tree, k: int)
    requires IsRedBlack(t)
    ensures IsRedBlack(Remove(t, k))
    ensures k in Keys(t) ==> multiset(Keys(Remove(t, k))) == multiset(Keys(t)) - multiset{k}
    ensures k !in Keys(t) ==> Remove(t, k) == t
    ensures Ids(Remove(t, k)) <= Ids(t)
    ensures Distinct(t) ==> Distinct(Remove(t, k))
  {
    FindLastComplete(t, k);
    match FindLast(t, k)
    case None =>
    case Some(At(zctx, z)) =>
      var s := SpliceAt(zctx, z);
      SpliceAtFacts(zctx, z);
      SpliceAtKeys(zctx, z);
      if !s.removedRed {
        FixRemoveFixes(s.ctx, s.x);
      }
  }
}

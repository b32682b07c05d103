/** The pointer surgery of the Java class, written on node records: what
    `leftRotation`, `rightRotation`, `colorTransplant` and the relinking
    block of `balance` write, and lemmas saying which tree the records spell
    out afterwards. */
module Links {
  import opened Trees
  import opened Zippers
  import opened Arena

  /** A record id or -1 (`null`). */
  predicate Ref(A: seq<Node>, i: int) {
    i == -1 || 0 <= i < |A|
  }

  predicate CanRotateLeft(A: seq<Node>, n: int) {
    0 <= n < |A| && 0 <= A[n].rightChild < |A| && Ref(A, A[A[n].rightChild].leftChild)
  }

  predicate CanRotateRight(A: seq<Node>, n: int) {
    0 <= n < |A| && 0 <= A[n].leftChild < |A| && Ref(A, A[A[n].leftChild].rightChild)
  }

  /** `leftRotation(n)`: the right child `y` takes `n` as its left child and
      hands its former left child to `n`; the parent of `y` and the child
      pointer of `n`'s parent are left as they were. */
  function LeftRotationRecords(A: seq<Node>, n: int): (B: seq<Node>)
    requires CanRotateLeft(A, n)
    ensures |B| == |A|
  {
    var y := A[n].rightChild;
    var b := A[y].leftChild;
    var A1 := A[n := A[n].(rightChild := b)];
    var A2 := if b != -1 then A1[b := A1[b].(parent := n)] else A1;
    A2[y := A2[y].(leftChild := n)]
  }

  /** `rightRotation(n)`, the mirror image. */
  function RightRotationRecords(A: seq<Node>, n: int): (B: seq<Node>)
    requires CanRotateRight(A, n)
    ensures |B| == |A|
  {
    var y := A[n].leftChild;
    var b := A[y].rightChild;
    var A1 := A[n := A[n].(leftChild := b)];
    var A2 := if b != -1 then A1[b := A1[b].(parent := n)] else A1;
    A2[y := A2[y].(rightChild := n)]
  }

  predicate CanTransplant(A: seq<Node>, u: int, v: int) {
    0 <= u < |A| && Ref(A, v) && Ref(A, A[u].parent)
  }

  /** `colorTransplant(u, v)` on the records: `u`'s parent now points to `v`
      on `u`'s side, and `v` (if any) takes `u`'s parent.  The update of the
      `root` field when `u` had no parent is the caller's. */
  function TransplantRecords(A: seq<Node>, u: int, v: int): (B: seq<Node>)
    requires CanTransplant(A, u, v)
    ensures |B| == |A|
  {
    var p := A[u].parent;
    var A1 :=
      if p == -1 then A
      else if u == A[p].leftChild then A[p := A[p].(leftChild := v)]
      else A[p := A[p].(rightChild := v)];
    if v != -1 then A1[v := A1[v].(parent := p)] else A1
  }

  predicate CanReattach(A: seq<Node>, was: int, top: int, atRoot: bool) {
    0 <= was < |A| && 0 <= top < |A| && (!atRoot ==> 0 <= A[was].parent < |A|)
  }

  /** The block that follows each rotation in `balance`: `top` takes the
      parent of `was`, and that parent's child pointer is moved from `was`
      to `top`; at the root, `top` loses its parent (the `root` field is the
      caller's). */
  function ReattachRecords(A: seq<Node>, was: int, top: int, atRoot: bool): (B: seq<Node>)
    requires CanReattach(A, was, top, atRoot)
    ensures |B| == |A|
  {
    if atRoot then A[top := A[top].(parent := -1)]
    else
      var p := A[was].parent;
      var A1 := A[top := A[top].(parent := p)];
      if A1[p].rightChild == was then A1[p := A1[p].(rightChild := top)]
      else if A1[p].leftChild == was then A1[p := A1[p].(leftChild := top)]
      else A1
  }

  /** The records of a rotation at `n` followed by the relinking block and
      the parent update of the node moved down. */
  function RotateLeftAtRecords(A: seq<Node>, n: int, atRoot: bool): (B: seq<Node>)
    requires CanRotateLeft(A, n) && A[n].rightChild != n && A[A[n].rightChild].leftChild != n
    requires CanReattach(A, n, A[n].rightChild, atRoot)
    ensures |B| == |A|
  {
    var y := A[n].rightChild;
    var A1 := LeftRotationRecords(A, n);
    var A2 := ReattachRecords(A1, n, y, atRoot);
    A2[n := A2[n].(parent := y)]
  }

  function RotateRightAtRecords(A: seq<Node>, n: int, atRoot: bool): (B: seq<Node>)
    requires CanRotateRight(A, n) && A[n].leftChild != n && A[A[n].leftChild].rightChild != n
    requires CanReattach(A, n, A[n].leftChild, atRoot)
    ensures |B| == |A|
  {
    var y := A[n].leftChild;
    var A1 := RightRotationRecords(A, n);
    var A2 := ReattachRecords(A1, n, y, atRoot);
    A2[n := A2[n].(parent := y)]
  }

  predicate CanAdopt(A: seq<Node>, top: int) {
    0 <= top < |A| && 0 <= A[top].leftChild < |A| && 0 <= A[top].rightChild < |A|
  }

  /** `newTop.leftChild.parent = newTop; newTop.rightChild.parent = newTop`. */
  function AdoptRecords(A: seq<Node>, top: int): (B: seq<Node>)
    requires CanAdopt(A, top)
    ensures |B| == |A|
  {
    var l := A[top].leftChild;
    var A1 := A[l := A[l].(parent := top)];
    var r := A1[top].rightChild;
    A1[r := A1[r].(parent := top)]
  }

  /** The node under a left child's right child and the ids around it. */
  predicate LeftRightShape(A: seq<Node>, g: int, atRoot: bool) {
    0 <= g < |A| && 0 <= A[g].leftChild < |A| &&
    var p := A[g].leftChild;
    0 <= A[p].rightChild < |A| &&
    var n := A[p].rightChild;
    var b, c, P := A[n].leftChild, A[n].rightChild, A[g].parent;
    Ref(A, b) && Ref(A, c) && Ref(A, P) && (atRoot <==> P == -1) &&
    g != p && g != n && p != n &&
    b !in {g, p, n} && c !in {g, p, n} && (b == c ==> b == -1) &&
    (P != -1 ==> P !in {g, p, n, b, c} && (A[P].leftChild == g || A[P].rightChild == g))
  }

  /** What `balance` writes for a red node that is the right child of a red
      left child: `leftRotation(parent)`, `grandpa.leftChild = node`,
      `rightRotation(grandpa)`, the relinking block and the parent updates of
      the new top's two children. */
  /** The first three writes: `leftRotation(parent)`,
      `grandpa.leftChild = node` and `rightRotation(grandpa)`, which
      returns `node` as the new top. */
  function LeftRightTurned(A: seq<Node>, g: int, atRoot: bool): (B: seq<Node>)
    requires LeftRightShape(A, g, atRoot)
    ensures |B| == |A|
  {
    var p := A[g].leftChild;
    var n := A[p].rightChild;
    var B0 := LeftRotationRecords(A, p);
    var B1 := B0[g := B0[g].(leftChild := n)];
    RightRotationRecords(B1, g)
  }

  function LeftRightRecords(A: seq<Node>, g: int, atRoot: bool): (B: seq<Node>)
    requires LeftRightShape(A, g, atRoot)
    ensures |B| == |A|
  {
    var top := A[A[g].leftChild].rightChild;
    var B2 := LeftRightTurned(A, g, atRoot);
    var B3 := ReattachRecords(B2, g, top, atRoot);
    AdoptRecords(B3, top)
  }

  /** The node under a right child's left child and the ids around it. */
  predicate RightLeftShape(A: seq<Node>, g: int, atRoot: bool) {
    0 <= g < |A| && 0 <= A[g].rightChild < |A| &&
    var p := A[g].rightChild;
    0 <= A[p].leftChild < |A| &&
    var n := A[p].leftChild;
    var b, c, P := A[n].rightChild, A[n].leftChild, A[g].parent;
    Ref(A, b) && Ref(A, c) && Ref(A, P) && (atRoot <==> P == -1) &&
    g != p && g != n && p != n &&
    b !in {g, p, n} && c !in {g, p, n} && (b == c ==> b == -1) &&
    (P != -1 ==> P !in {g, p, n, b, c} && (A[P].leftChild == g || A[P].rightChild == g))
  }

  /** The mirror image: `rightRotation(parent)`, `grandpa.rightChild =
      node`, `leftRotation(grandpa)`, the relinking block and the parent
      updates. */
  function RightLeftTurned(A: seq<Node>, g: int, atRoot: bool): (B: seq<Node>)
    requires RightLeftShape(A, g, atRoot)
    ensures |B| == |A|
  {
    var p := A[g].rightChild;
    var n := A[p].leftChild;
    var B0 := RightRotationRecords(A, p);
    var B1 := B0[g := B0[g].(rightChild := n)];
    LeftRotationRecords(B1, g)
  }

  function RightLeftRecords(A: seq<Node>, g: int, atRoot: bool): (B: seq<Node>)
    requires RightLeftShape(A, g, atRoot)
    ensures |B| == |A|
  {
    var top := A[A[g].rightChild].leftChild;
    var B2 := RightLeftTurned(A, g, atRoot);
    var B3 := ReattachRecords(B2, g, top, atRoot);
    AdoptRecords(B3, top)
  }

  /** The records spell out the tree `T` from the root id `root`, with no id
      used twice. */
  ghost predicate Spells(A: seq<Node>, root: int, T: Tree) {
    root == IdOf(T) && Linked(A, -1, T) && Distinct(T)
  }

  // ---------------------------------------------------------------- lemmas

  lemma {:induction false} SameOutside(A: seq<Node>, B: seq<Node>, X: set<int>, S: set<int>)
    requires |A| == |B| && (forall i :: 0 <= i < |A| && i !in X ==> B[i] == A[i])
    requires forall i :: i in S && 0 <= i < |A| ==> i !in X
    ensures SameOn(A, B, S)
  {
  }

  lemma {:induction false} RootInCtxIds(ctx: seq<Frame>, t: Tree)
    requires ctx != []
    ensures IdOf(Plug(ctx, t)) in CtxIds(ctx)
    decreases |ctx|
  {
    RootIdPlug(ctx, t);
    if |ctx| > 1 {
      RootInCtxIds(ctx[1..], Attach(ctx[0], t));
      assert ctx[1..][|ctx[1..]| - 1] == ctx[|ctx| - 1];
    }
  }

  /** What the records say about a position of a spelled-out tree. */
  lemma {:induction false} PositionFacts(A: seq<Node>, ctx: seq<Frame>, t: Tree)
    requires Linked(A, -1, Plug(ctx, t)) && Distinct(Plug(ctx, t))
    ensures Linked(A, Above(ctx, -1), t) && LinkedCtx(A, ctx, IdOf(t), -1)
    ensures Distinct(t) && Ids(t) !! CtxIds(ctx)
    ensures forall i :: i in Ids(t) ==> 0 <= i < |A|
    ensures forall i :: i in CtxIds(ctx) ==> 0 <= i < |A|
    ensures ctx != [] ==>
      0 <= ctx[0].id < |A| && ctx[0].id in CtxIds(ctx) &&
      A[ctx[0].id] == FrameRecord(ctx[0], IdOf(t), Above(ctx[1..], -1)) &&
      Linked(A, ctx[0].id, ctx[0].sibling) && ctx[0].id !in Ids(ctx[0].sibling)
    ensures t.Branch? ==> (IdOf(Plug(ctx, t)) == t.id <==> ctx == [])
    ensures IdOf(Plug(ctx, t)) == -1 <==> ctx == [] && t.Leaf?
  {
    LinkedPlug(A, ctx, t, -1);
    DistinctPlug(ctx, t);
    LinkedIds(A, Above(ctx, -1), t);
    LinkedCtxIds(A, ctx, IdOf(t), -1);
    RootIdPlug(ctx, t);
    if ctx != [] {
      RootInCtxIds(ctx, t);
      DistinctPlug(ctx[1..], Attach(ctx[0], t));
    }
  }

  // Where each write sequence changes the records.

  lemma {:induction false} LeftRotationValues(A: seq<Node>, n: int)
    requires CanRotateLeft(A, n)
    requires var y := A[n].rightChild; y != n && A[y].leftChild != n && A[y].leftChild != y
    ensures var y := A[n].rightChild; var b := A[y].leftChild;
      var B := LeftRotationRecords(A, n);
      B[n] == A[n].(rightChild := b) && B[y] == A[y].(leftChild := n) &&
      (b != -1 ==> B[b] == A[b].(parent := n)) &&
      forall i :: 0 <= i < |A| && i !in {n, y, b} ==> B[i] == A[i]
  {
  }

  lemma {:induction false} RightRotationValues(A: seq<Node>, n: int)
    requires CanRotateRight(A, n)
    requires var y := A[n].leftChild; y != n && A[y].rightChild != n && A[y].rightChild != y
    ensures var y := A[n].leftChild; var b := A[y].rightChild;
      var B := RightRotationRecords(A, n);
      B[n] == A[n].(leftChild := b) && B[y] == A[y].(rightChild := n) &&
      (b != -1 ==> B[b] == A[b].(parent := n)) &&
      forall i :: 0 <= i < |A| && i !in {n, y, b} ==> B[i] == A[i]
  {
  }

  lemma {:induction false} ReattachValues(A: seq<Node>, was: int, top: int, atRoot: bool)
    requires CanReattach(A, was, top, atRoot) && was != top
    requires var P := A[was].parent;
      !atRoot ==> P != top && P != was && (A[P].leftChild == was || A[P].rightChild == was)
    ensures var P := A[was].parent;
      var B := ReattachRecords(A, was, top, atRoot);
      B[top] == A[top].(parent := if atRoot then -1 else P) &&
      (!atRoot ==> B[P] == if A[P].rightChild == was then A[P].(rightChild := top) else A[P].(leftChild := top)) &&
      forall i :: 0 <= i < |A| && i !in {top, P} ==> B[i] == A[i]
  {
  }

  lemma {:induction false} AdoptValues(A: seq<Node>, top: int)
    requires CanAdopt(A, top)
    requires var l, r := A[top].leftChild, A[top].rightChild; l != top && r != top && l != r
    ensures var l, r := A[top].leftChild, A[top].rightChild;
      var B := AdoptRecords(A, top);
      B[l] == A[l].(parent := top) && B[r] == A[r].(parent := top) &&
      forall i :: 0 <= i < |A| && i !in {l, r} ==> B[i] == A[i]
  {
  }

  lemma {:induction false} RotateLeftAtValues(A: seq<Node>, n: int, atRoot: bool)
    requires CanRotateLeft(A, n) && A[n].rightChild != n && A[A[n].rightChild].leftChild != n
    requires A[A[n].rightChild].leftChild != A[n].rightChild
    requires CanReattach(A, n, A[n].rightChild, atRoot) && (atRoot <==> A[n].parent == -1)
    requires var P := A[n].parent;
      !atRoot ==> P != n && P != A[n].rightChild && P != A[A[n].rightChild].leftChild &&
                  (A[P].leftChild == n || A[P].rightChild == n)
    ensures var y, b, P := A[n].rightChild, A[A[n].rightChild].leftChild, A[n].parent;
      var C := RotateLeftAtRecords(A, n, atRoot);
      C[y] == A[y].(leftChild := n, parent := P) &&
      C[n] == A[n].(rightChild := b, parent := y) &&
      (b != -1 ==> C[b] == A[b].(parent := n)) &&
      (!atRoot ==> C[P] == if A[P].rightChild == n then A[P].(rightChild := y) else A[P].(leftChild := y)) &&
      forall i :: 0 <= i < |A| && i !in {n, y, b, P} ==> C[i] == A[i]
    ensures var y, B1 := A[n].rightChild, LeftRotationRecords(A, n);
      B1[n].parent == A[n].parent && ReattachRecords(B1, n, y, atRoot)[y].leftChild == n
  {
    var y := A[n].rightChild;
    LeftRotationValues(A, n);
    var B1 := LeftRotationRecords(A, n);
    ReattachValues(B1, n, y, atRoot);
  }

  lemma {:induction false} RotateRightAtValues(A: seq<Node>, n: int, atRoot: bool)
    requires CanRotateRight(A, n) && A[n].leftChild != n && A[A[n].leftChild].rightChild != n
    requires A[A[n].leftChild].rightChild != A[n].leftChild
    requires CanReattach(A, n, A[n].leftChild, atRoot) && (atRoot <==> A[n].parent == -1)
    requires var P := A[n].parent;
      !atRoot ==> P != n && P != A[n].leftChild && P != A[A[n].leftChild].rightChild &&
                  (A[P].leftChild == n || A[P].rightChild == n)
    ensures var y, b, P := A[n].leftChild, A[A[n].leftChild].rightChild, A[n].parent;
      var C := RotateRightAtRecords(A, n, atRoot);
      C[y] == A[y].(rightChild := n, parent := P) &&
      C[n] == A[n].(leftChild := b, parent := y) &&
      (b != -1 ==> C[b] == A[b].(parent := n)) &&
      (!atRoot ==> C[P] == if A[P].rightChild == n then A[P].(rightChild := y) else A[P].(leftChild := y)) &&
      forall i :: 0 <= i < |A| && i !in {n, y, b, P} ==> C[i] == A[i]
    ensures var y, B1 := A[n].leftChild, RightRotationRecords(A, n);
      B1[n].parent == A[n].parent && ReattachRecords(B1, n, y, atRoot)[y].rightChild == n
  {
    var y := A[n].leftChild;
    RightRotationValues(A, n);
    var B1 := RightRotationRecords(A, n);
    ReattachValues(B1, n, y, atRoot);
  }

  lemma {:induction false} LeftRightTurnedValues(A: seq<Node>, g: int, atRoot: bool)
    requires LeftRightShape(A, g, atRoot)
    ensures var p := A[g].leftChild; var n := A[p].rightChild;
      var B0 := LeftRotationRecords(A, p);
      CanRotateLeft(A, p) && 0 <= g < |B0| && CanRotateRight(B0[g := B0[g].(leftChild := n)], g)
    ensures var p := A[g].leftChild; var n := A[p].rightChild;
      var b, c := A[n].leftChild, A[n].rightChild;
      var B := LeftRightTurned(A, g, atRoot);
      B[n] == A[n].(leftChild := p, rightChild := g) &&
      B[p] == A[p].(rightChild := b) &&
      B[g] == A[g].(leftChild := c) &&
      (b != -1 ==> B[b] == A[b].(parent := p)) &&
      (c != -1 ==> B[c] == A[c].(parent := g)) &&
      forall i :: 0 <= i < |A| && i !in {g, p, n, b, c} ==> B[i] == A[i]
  {
    var p := A[g].leftChild;
    var n := A[p].rightChild;
    LeftRotationValues(A, p);
    var B0 := LeftRotationRecords(A, p);
    var B1 := B0[g := B0[g].(leftChild := n)];
    assert B1[n] == A[n].(leftChild := p) && B1[g] == A[g].(leftChild := n);
    RightRotationValues(B1, g);
  }

  lemma {:induction false} LeftRightReady(A: seq<Node>, g: int, atRoot: bool)
    requires LeftRightShape(A, g, atRoot)
    ensures var n, B2 := A[A[g].leftChild].rightChild, LeftRightTurned(A, g, atRoot);
      g != n && CanReattach(B2, g, n, atRoot) && CanAdopt(ReattachRecords(B2, g, n, atRoot), n)
  {
    var p := A[g].leftChild;
    var n := A[p].rightChild;
    LeftRightTurnedValues(A, g, atRoot);
    ReattachValues(LeftRightTurned(A, g, atRoot), g, n, atRoot);
  }

  lemma {:induction false} LeftRightValues(A: seq<Node>, g: int, atRoot: bool)
    requires LeftRightShape(A, g, atRoot)
    ensures var p := A[g].leftChild; var n := A[p].rightChild;
      var b, c, P := A[n].leftChild, A[n].rightChild, A[g].parent;
      var C := LeftRightRecords(A, g, atRoot);
      C[n] == A[n].(leftChild := p, rightChild := g, parent := P) &&
      C[p] == A[p].(rightChild := b, parent := n) &&
      C[g] == A[g].(leftChild := c, parent := n) &&
      (b != -1 ==> C[b] == A[b].(parent := p)) &&
      (c != -1 ==> C[c] == A[c].(parent := g)) &&
      (P != -1 ==> C[P] == if A[P].rightChild == g then A[P].(rightChild := n) else A[P].(leftChild := n)) &&
      forall i :: 0 <= i < |A| && i !in {g, p, n, b, c, P} ==> C[i] == A[i]
  {
    var p := A[g].leftChild;
    var n := A[p].rightChild;
    LeftRightReady(A, g, atRoot);
    LeftRightTurnedValues(A, g, atRoot);
    var B2 := LeftRightTurned(A, g, atRoot);
    ReattachValues(B2, g, n, atRoot);
    AdoptValues(ReattachRecords(B2, g, n, atRoot), n);
  }

  lemma {:induction false} RightLeftTurnedValues(A: seq<Node>, g: int, atRoot: bool)
    requires RightLeftShape(A, g, atRoot)
    ensures var p := A[g].rightChild; var n := A[p].leftChild;
      var B0 := RightRotationRecords(A, p);
      CanRotateRight(A, p) && 0 <= g < |B0| && CanRotateLeft(B0[g := B0[g].(rightChild := n)], g)
    ensures var p := A[g].rightChild; var n := A[p].leftChild;
      var b, c := A[n].rightChild, A[n].leftChild;
      var B := RightLeftTurned(A, g, atRoot);
      B[n] == A[n].(leftChild := g, rightChild := p) &&
      B[p] == A[p].(leftChild := b) &&
      B[g] == A[g].(rightChild := c) &&
      (b != -1 ==> B[b] == A[b].(parent := p)) &&
      (c != -1 ==> B[c] == A[c].(parent := g)) &&
      forall i :: 0 <= i < |A| && i !in {g, p, n, b, c} ==> B[i] == A[i]
  {
    var p := A[g].rightChild;
    var n := A[p].leftChild;
    RightRotationValues(A, p);
    var B0 := RightRotationRecords(A, p);
    var B1 := B0[g := B0[g].(rightChild := n)];
    assert B1[n] == A[n].(rightChild := p) && B1[g] == A[g].(rightChild := n);
    LeftRotationValues(B1, g);
  }

  lemma {:induction false} RightLeftReady(A: seq<Node>, g: int, atRoot: bool)
    requires RightLeftShape(A, g, atRoot)
    ensures var n, B2 := A[A[g].rightChild].leftChild, RightLeftTurned(A, g, atRoot);
      g != n && CanReattach(B2, g, n, atRoot) && CanAdopt(ReattachRecords(B2, g, n, atRoot), n)
  {
    var p := A[g].rightChild;
    var n := A[p].leftChild;
    RightLeftTurnedValues(A, g, atRoot);
    ReattachValues(RightLeftTurned(A, g, atRoot), g, n, atRoot);
  }

  lemma {:induction false} RightLeftValues(A: seq<Node>, g: int, atRoot: bool)
    requires RightLeftShape(A, g, atRoot)
    ensures var p := A[g].rightChild; var n := A[p].leftChild;
      var b, c, P := A[n].rightChild, A[n].leftChild, A[g].parent;
      var C := RightLeftRecords(A, g, atRoot);
      C[n] == A[n].(leftChild := g, rightChild := p, parent := P) &&
      C[p] == A[p].(leftChild := b, parent := n) &&
      C[g] == A[g].(rightChild := c, parent := n) &&
      (b != -1 ==> C[b] == A[b].(parent := p)) &&
      (c != -1 ==> C[c] == A[c].(parent := g)) &&
      (P != -1 ==> C[P] == if A[P].rightChild == g then A[P].(rightChild := n) else A[P].(leftChild := n)) &&
      forall i :: 0 <= i < |A| && i !in {g, p, n, b, c, P} ==> C[i] == A[i]
  {
    var p := A[g].rightChild;
    var n := A[p].leftChild;
    RightLeftReady(A, g, atRoot);
    RightLeftTurnedValues(A, g, atRoot);
    var B2 := RightLeftTurned(A, g, atRoot);
    ReattachValues(B2, g, n, atRoot);
    AdoptValues(ReattachRecords(B2, g, n, atRoot), n);
  }

  // Which tree the records spell out afterwards.

  /** A node whose record is `C[i]` over two subtrees that keep their
      records, except that their roots now name `i` as parent. */
  lemma {:induction false} LinkedJoin(A: seq<Node>, C: seq<Node>, q: int, i: int, c: bool, l: Tree, k: int, r: Tree, pl: int, pr: int)
    requires Linked(A, pl, l) && Linked(A, pr, r) && Distinct(l) && Distinct(r)
    requires 0 <= i < |C| && C[i] == Node(k, c, IdOf(l), IdOf(r), q)
    requires l.Branch? ==> 0 <= l.id < |C| && C[l.id] == A[l.id].(parent := i)
    requires r.Branch? ==> 0 <= r.id < |C| && C[r.id] == A[r.id].(parent := i)
    requires SameOn(A, C, Ids(l) - {IdOf(l)}) && SameOn(A, C, Ids(r) - {IdOf(r)})
    ensures Linked(C, q, Branch(i, c, l, k, r))
  {
    if l.Branch? {
      assert IdOf(l) == l.id && Ids(l) == Ids(l.left) + {l.id} + Ids(l.right);
      assert Ids(l.left) + Ids(l.right) <= Ids(l) - {IdOf(l)};
      LinkedReparent(A, C, pl, i, l);
    }
    if r.Branch? {
      assert IdOf(r) == r.id && Ids(r) == Ids(r.left) + {r.id} + Ids(r.right);
      assert Ids(r.left) + Ids(r.right) <= Ids(r) - {IdOf(r)};
      LinkedReparent(A, C, pr, i, r);
    }
  }

  /** One node of a rewired subtree: its record is rewritten, its two
      subtrees keep theirs, except that their roots may name a new parent. */
  lemma {:induction false} RewiredNode(A: seq<Node>, C: seq<Node>, X: set<int>, q: int, i: int, c: bool, l: Tree, k: int, r: Tree, pl: int, pr: int)
    requires |C| == |A| && forall j :: 0 <= j < |A| && j !in X ==> C[j] == A[j]
    requires Linked(A, pl, l) && Linked(A, pr, r) && Distinct(l) && Distinct(r)
    requires forall j :: j in Ids(l) - {IdOf(l)} && 0 <= j ==> j !in X
    requires forall j :: j in Ids(r) - {IdOf(r)} && 0 <= j ==> j !in X
    requires 0 <= i < |C| && C[i] == Node(k, c, IdOf(l), IdOf(r), q)
    requires l.Branch? ==> 0 <= l.id < |C| && C[l.id] == A[l.id].(parent := i)
    requires r.Branch? ==> 0 <= r.id < |C| && C[r.id] == A[r.id].(parent := i)
    ensures Linked(C, q, Branch(i, c, l, k, r))
  {
    SameOutside(A, C, X, Ids(l) - {IdOf(l)});
    SameOutside(A, C, X, Ids(r) - {IdOf(r)});
    LinkedJoin(A, C, q, i, c, l, k, r, pl, pr);
  }

  /** The records after a left rotation of `t`, as far as the subtree is
      concerned. */
  ghost predicate LeftRotated(A: seq<Node>, C: seq<Node>, P: int, t: Tree) {
    Linked(A, P, t) && Distinct(t) && |C| == |A| && P !in Ids(t) &&
    t.Branch? && t.right.Branch? &&
    var n, y, b := t.id, t.right.id, IdOf(t.right.left);
    0 <= n < |A| && 0 <= y < |A| && Ref(A, b) &&
    C[y] == A[y].(leftChild := n, parent := P) &&
    C[n] == A[n].(rightChild := b, parent := y) &&
    (b != -1 ==> C[b] == A[b].(parent := n)) &&
    forall i :: 0 <= i < |A| && i !in {n, y, b, P} ==> C[i] == A[i]
  }

  lemma {:induction false} LeftRotatedSubtree(A: seq<Node>, C: seq<Node>, P: int, t: Tree)
    requires LeftRotated(A, C, P, t)
    ensures Linked(C, P, RotateLeft(t))
  {
    var n, y, a, b, d := t.id, t.right.id, t.left, t.right.left, t.right.right;
    var X := {n, y, IdOf(b), P};
    assert Linked(A, n, t.right) && Distinct(t.right);
    assert Ids(t) == Ids(a) + {n} + Ids(t.right);
    assert Ids(t.right) == Ids(b) + {y} + Ids(d);
    RewiredNode(A, C, X, y, n, t.red, a, t.key, b, n, y);
    SameOutside(A, C, X, Ids(d));
    LinkedFrame(A, C, y, d);
    assert C[y] == Node(t.right.key, t.right.red, n, IdOf(d), P);
  }

  ghost predicate RightRotated(A: seq<Node>, C: seq<Node>, P: int, t: Tree) {
    Linked(A, P, t) && Distinct(t) && |C| == |A| && P !in Ids(t) &&
    t.Branch? && t.left.Branch? &&
    var n, y, b := t.id, t.left.id, IdOf(t.left.right);
    0 <= n < |A| && 0 <= y < |A| && Ref(A, b) &&
    C[y] == A[y].(rightChild := n, parent := P) &&
    C[n] == A[n].(leftChild := b, parent := y) &&
    (b != -1 ==> C[b] == A[b].(parent := n)) &&
    forall i :: 0 <= i < |A| && i !in {n, y, b, P} ==> C[i] == A[i]
  }

  lemma {:induction false} RightRotatedSubtree(A: seq<Node>, C: seq<Node>, P: int, t: Tree)
    requires RightRotated(A, C, P, t)
    ensures Linked(C, P, RotateRight(t))
  {
    var n, y, a, b, d := t.id, t.left.id, t.left.left, t.left.right, t.right;
    var X := {n, y, IdOf(b), P};
    assert Linked(A, n, t.left) && Distinct(t.left);
    assert Ids(t) == Ids(t.left) + {n} + Ids(d);
    assert Ids(t.left) == Ids(a) + {y} + Ids(b);
    RewiredNode(A, C, X, y, n, t.red, b, t.key, d, y, n);
    SameOutside(A, C, X, Ids(a));
    LinkedFrame(A, C, y, a);
    assert C[y] == Node(t.left.key, t.left.red, IdOf(a), n, P);
  }

  /** Facts about the records around a subtree at a position, used by the
      rotation lemmas below. */
  lemma {:induction false} AroundFacts(A: seq<Node>, ctx: seq<Frame>, t: Tree)
    requires Linked(A, -1, Plug(ctx, t)) && Distinct(Plug(ctx, t)) && t.Branch?
    ensures Linked(A, Above(ctx, -1), t) && Distinct(t) && Above(ctx, -1) !in Ids(t)
    ensures -1 !in Ids(t) && forall i :: i in Ids(t) ==> 0 <= i < |A|
    ensures A[t.id].parent == Above(ctx, -1)
    ensures (ctx == []) <==> Above(ctx, -1) == -1
    ensures ctx != [] ==>
      0 <= Above(ctx, -1) < |A| && Above(ctx, -1) in CtxIds(ctx) && Ids(t) !! CtxIds(ctx) &&
      (A[Above(ctx, -1)].leftChild == t.id || A[Above(ctx, -1)].rightChild == t.id)
  {
    PositionFacts(A, ctx, t);
    if ctx != [] {
      match ctx[0]
      case GoLeft(_, _, _, _) =>
      case GoRight(_, _, _, _) =>
    }
  }

  /** A parent record whose child pointer to `was` now points to `now`
      (the right one if it was the right child, the left one otherwise). */
  function Relinked(r: Node, was: int, now: int): Node {
    if r.rightChild == was then r.(rightChild := now) else r.(leftChild := now)
  }

  /** Records rewritten only inside a subtree and at the child pointer of
      its parent that led to it spell out the new subtree at the same
      position. */
  lemma {:induction false} RewiredAt(A: seq<Node>, C: seq<Node>, X: set<int>, ctx: seq<Frame>, t: Tree, t': Tree)
    requires Linked(A, -1, Plug(ctx, t)) && Distinct(Plug(ctx, t)) && t.Branch?
    requires |C| == |A| && forall i :: 0 <= i < |A| && i !in X ==> C[i] == A[i]
    requires X - {-1} <= Ids(t) + {Above(ctx, -1)}
    requires Linked(C, Above(ctx, -1), t')
    requires ctx != [] ==>
      0 <= Above(ctx, -1) < |A| && C[Above(ctx, -1)] == Relinked(A[Above(ctx, -1)], t.id, IdOf(t'))
    ensures Linked(C, -1, Plug(ctx, t'))
  {
    if ctx != [] {
      PathKept(A, C, X, ctx, t, IdOf(t'));
    }
    LinkedReplace(A, C, ctx, t, t', -1);
  }

  /** The path above such a subtree keeps its records, except for the
      parent's pointer to the new subtree. */
  lemma {:induction false} PathKept(A: seq<Node>, C: seq<Node>, X: set<int>, ctx: seq<Frame>, t: Tree, i': int)
    requires Linked(A, -1, Plug(ctx, t)) && Distinct(Plug(ctx, t)) && t.Branch? && ctx != []
    requires |C| == |A| && forall i :: 0 <= i < |A| && i !in X ==> C[i] == A[i]
    requires X - {-1} <= Ids(t) + {ctx[0].id}
    requires 0 <= ctx[0].id < |A| && C[ctx[0].id] == Relinked(A[ctx[0].id], t.id, i')
    ensures SameOn(A, C, CtxIds(ctx) - {ctx[0].id})
    ensures C[ctx[0].id] == FrameRecord(ctx[0], i', Above(ctx[1..], -1))
  {
    LinkedPlug(A, ctx, t, -1);
    DistinctPlug(ctx, t);
    assert CtxIds(ctx) == {ctx[0].id} + Ids(ctx[0].sibling) + CtxIds(ctx[1..]);
    ParentRecord(A, C, ctx[0], t.id, i', Above(ctx[1..], -1));
    SameOutside(A, C, X, CtxIds(ctx) - {ctx[0].id});
  }

  /** Moving the child pointer of a path node from one subtree to another. */
  lemma {:induction false} ParentRecord(A: seq<Node>, C: seq<Node>, f: Frame, i: int, i': int, up: int)
    requires 0 <= i && i !in Ids(f.sibling)
    requires 0 <= f.id < |A| && A[f.id] == FrameRecord(f, i, up) && |C| == |A|
    requires C[f.id] == Relinked(A[f.id], i, i')
    ensures C[f.id] == FrameRecord(f, i', up)
  {
    match f
    case GoLeft(_, _, _, s) =>
      assert IdOf(s) != i;
    case GoRight(_, _, _, _) =>
  }

  /** A left rotation at a position, with the relinking of the new top into
      the parent and of the node moved down to the new top, spells out the
      rotated tree at the same position. */
  lemma {:induction false} RotateLeftLinked(A: seq<Node>, ctx: seq<Frame>, t: Tree)
    requires Linked(A, -1, Plug(ctx, t)) && Distinct(Plug(ctx, t)) && t.Branch? && t.right.Branch?
    ensures CanRotateLeft(A, t.id) && A[t.id].rightChild == t.right.id
    ensures A[t.id].rightChild != t.id && A[A[t.id].rightChild].leftChild != t.id
    ensures CanReattach(A, t.id, t.right.id, ctx == [])
    ensures var B1 := LeftRotationRecords(A, t.id);
      CanReattach(B1, t.id, t.right.id, ctx == []) &&
      ReattachRecords(B1, t.id, t.right.id, ctx == [])[t.right.id].leftChild == t.id
    ensures Linked(RotateLeftAtRecords(A, t.id, ctx == []), -1, Plug(ctx, RotateLeft(t)))
    ensures Distinct(Plug(ctx, RotateLeft(t)))
  {
    var n, y := t.id, t.right.id;
    AroundFacts(A, ctx, t);
    var P := Above(ctx, -1);
    assert Linked(A, n, t.right) && Distinct(t.right);
    RotateLeftAtValues(A, n, ctx == []);
    var C := RotateLeftAtRecords(A, n, ctx == []);
    assert LeftRotated(A, C, P, t);
    LeftRotatedSubtree(A, C, P, t);
    RewiredAt(A, C, {n, y, IdOf(t.right.left), P}, ctx, t, RotateLeft(t));
    RotateLeftDistinct(t);
    DistinctReplace(ctx, t, RotateLeft(t));
  }

  lemma {:induction false} RotateRightLinked(A: seq<Node>, ctx: seq<Frame>, t: Tree)
    requires Linked(A, -1, Plug(ctx, t)) && Distinct(Plug(ctx, t)) && t.Branch? && t.left.Branch?
    ensures CanRotateRight(A, t.id) && A[t.id].leftChild == t.left.id
    ensures A[t.id].leftChild != t.id && A[A[t.id].leftChild].rightChild != t.id
    ensures CanReattach(A, t.id, t.left.id, ctx == [])
    ensures var B1 := RightRotationRecords(A, t.id);
      CanReattach(B1, t.id, t.left.id, ctx == []) &&
      ReattachRecords(B1, t.id, t.left.id, ctx == [])[t.left.id].rightChild == t.id
    ensures Linked(RotateRightAtRecords(A, t.id, ctx == []), -1, Plug(ctx, RotateRight(t)))
    ensures Distinct(Plug(ctx, RotateRight(t)))
  {
    var n, y := t.id, t.left.id;
    AroundFacts(A, ctx, t);
    var P := Above(ctx, -1);
    assert Linked(A, n, t.left) && Distinct(t.left);
    RotateRightAtValues(A, n, ctx == []);
    var C := RotateRightAtRecords(A, n, ctx == []);
    assert RightRotated(A, C, P, t);
    RightRotatedSubtree(A, C, P, t);
    RewiredAt(A, C, {n, y, IdOf(t.left.right), P}, ctx, t, RotateRight(t));
    RotateRightDistinct(t);
    DistinctReplace(ctx, t, RotateRight(t));
  }

  /** Repainting one node. */
  lemma {:induction false} PaintLinked(A: seq<Node>, ctx: seq<Frame>, t: Tree, c: bool)
    requires Linked(A, -1, Plug(ctx, t)) && Distinct(Plug(ctx, t)) && t.Branch?
    ensures 0 <= t.id < |A|
    ensures Linked(A[t.id := A[t.id].(isRed := c)], -1, Plug(ctx, t.(red := c)))
    ensures Distinct(Plug(ctx, t.(red := c)))
  {
    PositionFacts(A, ctx, t);
    var B := A[t.id := A[t.id].(isRed := c)];
    var t' := t.(red := c);
    assert -1 !in Ids(t);
    SameOutside(A, B, {t.id}, Ids(t.left));
    SameOutside(A, B, {t.id}, Ids(t.right));
    LinkedFrame(A, B, t.id, t.left);
    LinkedFrame(A, B, t.id, t.right);
    if ctx != [] {
      SameOutside(A, B, {t.id}, CtxIds(ctx) - {ctx[0].id});
    }
    LinkedReplace(A, B, ctx, t, t', -1);
    assert Distinct(t');
    DistinctReplace(ctx, t, t');
  }

  /** The records after the zig-zag rotation of `t` (the red node is the
      right child of a left child), as far as the subtree is concerned. */
  ghost predicate LeftRightRewired(A: seq<Node>, C: seq<Node>, P: int, t: Tree) {
    Linked(A, P, t) && Distinct(t) && |C| == |A| && P !in Ids(t) &&
    t.Branch? && t.left.Branch? && t.left.right.Branch? &&
    var g, p, n := t.id, t.left.id, t.left.right.id;
    var b, c := IdOf(t.left.right.left), IdOf(t.left.right.right);
    0 <= g < |A| && 0 <= p < |A| && 0 <= n < |A| && Ref(A, b) && Ref(A, c) &&
    C[n] == A[n].(leftChild := p, rightChild := g, parent := P) &&
    C[p] == A[p].(rightChild := b, parent := n) &&
    C[g] == A[g].(leftChild := c, parent := n) &&
    (b != -1 ==> C[b] == A[b].(parent := p)) &&
    (c != -1 ==> C[c] == A[c].(parent := g)) &&
    forall i :: 0 <= i < |A| && i !in {g, p, n, b, c, P} ==> C[i] == A[i]
  }

  lemma {:induction false} LeftRightLower(A: seq<Node>, C: seq<Node>, P: int, t: Tree)
    requires LeftRightRewired(A, C, P, t)
    ensures Linked(C, t.left.right.id, Branch(t.left.id, t.left.red, t.left.left, t.left.key, t.left.right.left))
  {
    var g, p, n := t.id, t.left.id, t.left.right.id;
    var z := t.left.right;
    var X := {g, p, n, IdOf(z.left), IdOf(z.right), P};
    assert Linked(A, g, t.left) && Linked(A, p, z);
    assert Distinct(t.left) && Distinct(z);
    assert Ids(t) == Ids(t.left) + {g} + Ids(t.right);
    assert Ids(t.left) == Ids(t.left.left) + {p} + Ids(z);
    assert Ids(z) == Ids(z.left) + {n} + Ids(z.right);
    RewiredNode(A, C, X, n, p, t.left.red, t.left.left, t.left.key, z.left, p, n);
  }

  lemma {:induction false} LeftRightUpper(A: seq<Node>, C: seq<Node>, P: int, t: Tree)
    requires LeftRightRewired(A, C, P, t)
    ensures Linked(C, t.left.right.id, Branch(t.id, t.red, t.left.right.right, t.key, t.right))
  {
    var g, p, n := t.id, t.left.id, t.left.right.id;
    var z := t.left.right;
    var X := {g, p, n, IdOf(z.left), IdOf(z.right), P};
    assert Linked(A, g, t.left) && Linked(A, p, z);
    assert Distinct(t.left) && Distinct(z);
    assert Ids(t) == Ids(t.left) + {g} + Ids(t.right);
    assert Ids(t.left) == Ids(t.left.left) + {p} + Ids(z);
    assert Ids(z) == Ids(z.left) + {n} + Ids(z.right);
    RewiredNode(A, C, X, n, g, t.red, z.right, t.key, t.right, n, g);
  }

  lemma {:induction false} LeftRightSubtree(A: seq<Node>, C: seq<Node>, P: int, t: Tree)
    requires LeftRightRewired(A, C, P, t)
    ensures Linked(C, P, RotateRight(t.(left := RotateLeft(t.left))))
  {
    var z := t.left.right;
    LeftRightLower(A, C, P, t);
    LeftRightUpper(A, C, P, t);
    assert Linked(A, t.id, t.left) && Linked(A, t.left.id, z);
    assert C[z.id] == Node(z.key, z.red, t.left.id, t.id, P);
    assert RotateRight(t.(left := RotateLeft(t.left))) ==
      Branch(z.id, z.red, Branch(t.left.id, t.left.red, t.left.left, t.left.key, z.left), z.key,
             Branch(t.id, t.red, z.right, t.key, t.right));
  }

  ghost predicate RightLeftRewired(A: seq<Node>, C: seq<Node>, P: int, t: Tree) {
    Linked(A, P, t) && Distinct(t) && |C| == |A| && P !in Ids(t) &&
    t.Branch? && t.right.Branch? && t.right.left.Branch? &&
    var g, p, n := t.id, t.right.id, t.right.left.id;
    var b, c := IdOf(t.right.left.right), IdOf(t.right.left.left);
    0 <= g < |A| && 0 <= p < |A| && 0 <= n < |A| && Ref(A, b) && Ref(A, c) &&
    C[n] == A[n].(leftChild := g, rightChild := p, parent := P) &&
    C[p] == A[p].(leftChild := b, parent := n) &&
    C[g] == A[g].(rightChild := c, parent := n) &&
    (b != -1 ==> C[b] == A[b].(parent := p)) &&
    (c != -1 ==> C[c] == A[c].(parent := g)) &&
    forall i :: 0 <= i < |A| && i !in {g, p, n, b, c, P} ==> C[i] == A[i]
  }

  lemma {:induction false} RightLeftLower(A: seq<Node>, C: seq<Node>, P: int, t: Tree)
    requires RightLeftRewired(A, C, P, t)
    ensures Linked(C, t.right.left.id, Branch(t.id, t.red, t.left, t.key, t.right.left.left))
  {
    var g, p, n := t.id, t.right.id, t.right.left.id;
    var z := t.right.left;
    var X := {g, p, n, IdOf(z.right), IdOf(z.left), P};
    assert Linked(A, g, t.right) && Linked(A, p, z);
    assert Distinct(t.right) && Distinct(z);
    assert Ids(t) == Ids(t.left) + {g} + Ids(t.right);
    assert Ids(t.right) == Ids(z) + {p} + Ids(t.right.right);
    assert Ids(z) == Ids(z.left) + {n} + Ids(z.right);
    RewiredNode(A, C, X, n, g, t.red, t.left, t.key, z.left, g, n);
  }

  lemma {:induction false} RightLeftUpper(A: seq<Node>, C: seq<Node>, P: int, t: Tree)
    requires RightLeftRewired(A, C, P, t)
    ensures Linked(C, t.right.left.id, Branch(t.right.id, t.right.red, t.right.left.right, t.right.key, t.right.right))
  {
    var g, p, n := t.id, t.right.id, t.right.left.id;
    var z := t.right.left;
    var X := {g, p, n, IdOf(z.right), IdOf(z.left), P};
    assert Linked(A, g, t.right) && Linked(A, p, z);
    assert Distinct(t.right) && Distinct(z);
    assert Ids(t) == Ids(t.left) + {g} + Ids(t.right);
    assert Ids(t.right) == Ids(z) + {p} + Ids(t.right.right);
    assert Ids(z) == Ids(z.left) + {n} + Ids(z.right);
    RewiredNode(A, C, X, n, p, t.right.red, z.right, t.right.key, t.right.right, n, p);
  }

  lemma {:induction false} RightLeftSubtree(A: seq<Node>, C: seq<Node>, P: int, t: Tree)
    requires RightLeftRewired(A, C, P, t)
    ensures Linked(C, P, RotateLeft(t.(right := RotateRight(t.right))))
  {
    var z := t.right.left;
    RightLeftLower(A, C, P, t);
    RightLeftUpper(A, C, P, t);
    assert Linked(A, t.id, t.right) && Linked(A, t.right.id, z);
    assert C[z.id] == Node(z.key, z.red, t.id, t.right.id, P);
    assert RotateLeft(t.(right := RotateRight(t.right))) ==
      Branch(z.id, z.red, Branch(t.id, t.red, t.left, t.key, z.left), z.key,
             Branch(t.right.id, t.right.red, z.right, t.right.key, t.right.right));
  }

  /** The records around a zig-zag (a left child's right child) meet what
      the Java writes need, and those writes rewire exactly that subtree. */
  lemma {:induction false} LeftRightAt(A: seq<Node>, ctx: seq<Frame>, t: Tree)
    requires Linked(A, -1, Plug(ctx, t)) && Distinct(Plug(ctx, t))
    requires t.Branch? && t.left.Branch? && t.left.right.Branch?
    ensures LeftRightShape(A, t.id, ctx == [])
    ensures A[t.id].leftChild == t.left.id && A[t.left.id].rightChild == t.left.right.id
    ensures {t.id, t.left.id, t.left.right.id, IdOf(t.left.right.left), IdOf(t.left.right.right)} - {-1} <= Ids(t)
  {
    var g, p := t.id, t.left.id;
    AroundFacts(A, ctx, t);
    assert Linked(A, g, t.left) && Linked(A, p, t.left.right);
    assert Distinct(t.left) && Distinct(t.left.right);
  }

  lemma {:induction false} LeftRightPrepared(A: seq<Node>, ctx: seq<Frame>, t: Tree)
    requires Linked(A, -1, Plug(ctx, t)) && Distinct(Plug(ctx, t))
    requires t.Branch? && t.left.Branch? && t.left.right.Branch?
    ensures LeftRightShape(A, t.id, ctx == [])
    ensures A[t.id].leftChild == t.left.id && A[t.left.id].rightChild == t.left.right.id
    ensures LeftRightRewired(A, LeftRightRecords(A, t.id, ctx == []), Above(ctx, -1), t)
    ensures ctx != [] ==>
      0 <= Above(ctx, -1) < |A| &&
      LeftRightRecords(A, t.id, false)[Above(ctx, -1)] == Relinked(A[Above(ctx, -1)], t.id, t.left.right.id)
  {
    LeftRightAt(A, ctx, t);
    AroundFacts(A, ctx, t);
    assert Linked(A, t.id, t.left) && Linked(A, t.left.id, t.left.right);
    assert Distinct(t.left) && Distinct(t.left.right);
    LeftRightReady(A, t.id, ctx == []);
    LeftRightValues(A, t.id, ctx == []);
  }

  lemma {:induction false} RightLeftAt(A: seq<Node>, ctx: seq<Frame>, t: Tree)
    requires Linked(A, -1, Plug(ctx, t)) && Distinct(Plug(ctx, t))
    requires t.Branch? && t.right.Branch? && t.right.left.Branch?
    ensures RightLeftShape(A, t.id, ctx == [])
    ensures A[t.id].rightChild == t.right.id && A[t.right.id].leftChild == t.right.left.id
    ensures {t.id, t.right.id, t.right.left.id, IdOf(t.right.left.right), IdOf(t.right.left.left)} - {-1} <= Ids(t)
  {
    var g, p := t.id, t.right.id;
    AroundFacts(A, ctx, t);
    assert Linked(A, g, t.right) && Linked(A, p, t.right.left);
    assert Distinct(t.right) && Distinct(t.right.left);
  }

  lemma {:induction false} RightLeftPrepared(A: seq<Node>, ctx: seq<Frame>, t: Tree)
    requires Linked(A, -1, Plug(ctx, t)) && Distinct(Plug(ctx, t))
    requires t.Branch? && t.right.Branch? && t.right.left.Branch?
    ensures RightLeftShape(A, t.id, ctx == [])
    ensures A[t.id].rightChild == t.right.id && A[t.right.id].leftChild == t.right.left.id
    ensures RightLeftRewired(A, RightLeftRecords(A, t.id, ctx == []), Above(ctx, -1), t)
    ensures ctx != [] ==>
      0 <= Above(ctx, -1) < |A| &&
      RightLeftRecords(A, t.id, false)[Above(ctx, -1)] == Relinked(A[Above(ctx, -1)], t.id, t.right.left.id)
  {
    RightLeftAt(A, ctx, t);
    AroundFacts(A, ctx, t);
    assert Linked(A, t.id, t.right) && Linked(A, t.right.id, t.right.left);
    assert Distinct(t.right) && Distinct(t.right.left);
    RightLeftReady(A, t.id, ctx == []);
    RightLeftValues(A, t.id, ctx == []);
  }

  /** The zig-zag case of `balance` at a position spells out the doubly
      rotated tree there. */
  lemma {:induction false} LeftRightLinked(A: seq<Node>, ctx: seq<Frame>, t: Tree)
    requires Linked(A, -1, Plug(ctx, t)) && Distinct(Plug(ctx, t))
    requires t.Branch? && t.left.Branch? && t.left.right.Branch?
    ensures LeftRightShape(A, t.id, ctx == [])
    ensures A[t.id].leftChild == t.left.id && A[t.left.id].rightChild == t.left.right.id
    ensures Linked(LeftRightRecords(A, t.id, ctx == []), -1, Plug(ctx, RotateRight(t.(left := RotateLeft(t.left)))))
    ensures Distinct(Plug(ctx, RotateRight(t.(left := RotateLeft(t.left)))))
  {
    var t' := RotateRight(t.(left := RotateLeft(t.left)));
    LeftRightAt(A, ctx, t);
    LeftRightPrepared(A, ctx, t);
    var ids := {t.id, t.left.id, t.left.right.id, IdOf(t.left.right.left), IdOf(t.left.right.right)};
    LeftRightSubtree(A, LeftRightRecords(A, t.id, ctx == []), Above(ctx, -1), t);
    RewiredAt(A, LeftRightRecords(A, t.id, ctx == []), ids + {Above(ctx, -1)}, ctx, t, t');
    DistinctPlug(ctx, t);
    RotateLeftDistinct(t.left);
    assert Distinct(t.(left := RotateLeft(t.left)));
    RotateRightDistinct(t.(left := RotateLeft(t.left)));
    DistinctReplace(ctx, t, t');
  }

  lemma {:induction false} RightLeftLinked(A: seq<Node>, ctx: seq<Frame>, t: Tree)
    requires Linked(A, -1, Plug(ctx, t)) && Distinct(Plug(ctx, t))
    requires t.Branch? && t.right.Branch? && t.right.left.Branch?
    ensures RightLeftShape(A, t.id, ctx == [])
    ensures A[t.id].rightChild == t.right.id && A[t.right.id].leftChild == t.right.left.id
    ensures Linked(RightLeftRecords(A, t.id, ctx == []), -1, Plug(ctx, RotateLeft(t.(right := RotateRight(t.right)))))
    ensures Distinct(Plug(ctx, RotateLeft(t.(right := RotateRight(t.right)))))
  {
    var t' := RotateLeft(t.(right := RotateRight(t.right)));
    RightLeftAt(A, ctx, t);
    RightLeftPrepared(A, ctx, t);
    var ids := {t.id, t.right.id, t.right.left.id, IdOf(t.right.left.right), IdOf(t.right.left.left)};
    RightLeftSubtree(A, RightLeftRecords(A, t.id, ctx == []), Above(ctx, -1), t);
    RewiredAt(A, RightLeftRecords(A, t.id, ctx == []), ids + {Above(ctx, -1)}, ctx, t, t');
    DistinctPlug(ctx, t);
    RotateRightDistinct(t.right);
    assert Distinct(t.(right := RotateRight(t.right)));
    RotateLeftDistinct(t.(right := RotateRight(t.right)));
    DistinctReplace(ctx, t, t');
  }

}

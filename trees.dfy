/** The abstract shape of the red-black tree: one constructor per node, carrying
    the node's arena id (so that the arena can be tied to it), its colour, its
    two subtrees and its key.  Keys are plain integers under `<=`, standing for
    the `Comparable` keys of the Java class. */
module Trees {

  datatype Option<T> = None | Some(value: T)

  datatype Tree = Leaf | Branch(id: int, red: bool, left: Tree, key: int, right: Tree)

  /** Arena id of the root of `t`; -1 plays the part of `null`. */
  function IdOf(t: Tree): int {
    if t.Leaf? then -1 else t.id
  }

  /** A missing child counts as black. */
  predicate IsRed(t: Tree) {
    t.Branch? && t.red
  }

  function Blacken(t: Tree): Tree {
    if t.Leaf? then t else t.(red := false)
  }

  /** In-order key sequence. */
  function Keys(t: Tree): seq<int> {
    match t
    case Leaf => []
    case Branch(_, _, l, k, r) => Keys(l) + [k] + Keys(r)
  }

  /** In-order colour sequence (true for red). */
  function Colors(t: Tree): seq<bool> {
    match t
    case Leaf => []
    case Branch(_, c, l, _, r) => Colors(l) + [c] + Colors(r)
  }

  function Ids(t: Tree): set<int> {
    match t
    case Leaf => {}
    case Branch(i, _, l, _, r) => Ids(l) + {i} + Ids(r)
  }

  /** No arena id is used twice in the tree. */
  predicate Distinct(t: Tree) {
    match t
    case Leaf => true
    case Branch(i, _, l, _, r) =>
      i !in Ids(l) && i !in Ids(r) && Ids(l) !! Ids(r) && Distinct(l) && Distinct(r)
  }

  /** Non-decreasing: equal keys may sit side by side, since insertion sends
      equal keys to the right. */
  predicate Sorted(s: seq<int>) {
    forall i, j :: 0 <= i < j < |s| ==> s[i] <= s[j]
  }

  /** Number of black nodes on the leftmost path; equals every path's count
      when the tree is `Balanced`. */
  function BlackHeight(t: Tree): nat {
    match t
    case Leaf => 0
    case Branch(_, c, l, _, _) => BlackHeight(l) + (if c then 0 else 1)
  }

  /** Every path from a node down to a missing child meets the same number of
      black nodes. */
  predicate Balanced(t: Tree) {
    match t
    case Leaf => true
    case Branch(_, _, l, _, r) => Balanced(l) && Balanced(r) && BlackHeight(l) == BlackHeight(r)
  }

  /** No red node has a red child. */
  predicate NoRedRed(t: Tree) {
    match t
    case Leaf => true
    case Branch(_, c, l, _, r) =>
      (c ==> !IsRed(l) && !IsRed(r)) && NoRedRed(l) && NoRedRed(r)
  }

  /** The invariant the tree keeps after every public operation. */
  predicate IsRedBlack(t: Tree) {
    Sorted(Keys(t)) && !IsRed(t) && NoRedRed(t) && Balanced(t)
  }

  /** Longest path to a node, counted in nodes: the usual height of the
      datatype, bounded below by `HeightLogarithmic`. */
  function Levels(t: Tree): nat {
    match t
    case Leaf => 0
    case Branch(_, _, l, _, r) =>
      1 + (if Levels(l) < Levels(r) then Levels(r) else Levels(l))
  }

  function Pow2(n: nat): nat {
    if n == 0 then 1 else 2 * Pow2(n - 1)
  }

  /** `leftRotation`: the right child `y` of `t` takes its place, `t` becomes
      `y`'s left child and `y`'s former left subtree becomes `t`'s right
      subtree.  Colours are left alone; the in-order sequence is unchanged. */
  function RotateLeft(t: Tree): (r: Tree)
    requires t.Branch? && t.right.Branch?
    ensures r.Branch? && r.id == t.right.id && r.left.Branch? && r.left.id == t.id
    ensures Keys(r) == Keys(t) && Ids(r) == Ids(t)
  {
    var y := t.right;
    Branch(y.id, y.red, Branch(t.id, t.red, t.left, t.key, y.left), y.key, y.right)
  }

  /** `rightRotation`, the mirror image of `RotateLeft`. */
  function RotateRight(t: Tree): (r: Tree)
    requires t.Branch? && t.left.Branch?
    ensures r.Branch? && r.id == t.left.id && r.right.Branch? && r.right.id == t.id
    ensures Keys(r) == Keys(t) && Ids(r) == Ids(t)
  {
    var y := t.left;
    Branch(y.id, y.red, y.left, y.key, Branch(t.id, t.red, y.right, t.key, t.right))
  }

  // ---------------------------------------------------------------- lemmas

  /** No red node over a red node and equal black heights: a path meets at
      most one red node per black one, plus a red root. */
  lemma {:induction false} LevelsBound(t: Tree)
    requires Balanced(t) && NoRedRed(t)
    ensures Levels(t) <= 2 * BlackHeight(t) + (if IsRed(t) then 1 else 0)
  {
    match t
    case Leaf =>
    case Branch(_, _, l, _, r) =>
      LevelsBound(l);
      LevelsBound(r);
  }

  /** A tree of black height `h` holds at least `2^h - 1` keys. */
  lemma {:induction false} SizeBound(t: Tree)
    requires Balanced(t)
    ensures Pow2(BlackHeight(t)) <= |Keys(t)| + 1
  {
    match t
    case Leaf =>
    case Branch(_, _, l, _, r) =>
      SizeBound(l);
      SizeBound(r);
  }

  lemma {:induction false} Pow2Monotone(m: nat, n: nat)
    requires m <= n
    ensures Pow2(m) <= Pow2(n)
    decreases n
  {
    if m < n {
      Pow2Monotone(m, n - 1);
    }
  }

  /** The depth a red-black tree can reach is logarithmic in its size:
      `2^(levels / 2) <= size + 1`. */
  lemma HeightLogarithmic(t: Tree)
    requires IsRedBlack(t)
    ensures Pow2(Levels(t) / 2) <= |Keys(t)| + 1
  {
    LevelsBound(t);
    SizeBound(t);
    Pow2Monotone(Levels(t) / 2, BlackHeight(t));
  }


  lemma SortedConcat(a: seq<int>, k: int, b: seq<int>)
    ensures Sorted(a + [k] + b) <==>
      Sorted(a) && Sorted(b) && (forall x :: x in a ==> x <= k) && (forall x :: x in b ==> k <= x)
  {
    if Sorted(a) && Sorted(b) && (forall x :: x in a ==> x <= k) && (forall x :: x in b ==> k <= x) {
      SortedJoin(a, k, b);
    }
    if Sorted(a + [k] + b) {
      SortedSplit(a, k, b);
    }
  }

  lemma {:induction false} SortedJoin(a: seq<int>, k: int, b: seq<int>)
    requires Sorted(a) && Sorted(b)
    requires forall x :: x in a ==> x <= k
    requires forall x :: x in b ==> k <= x
    ensures Sorted(a + [k] + b)
  {
    var s := a + [k] + b;
    forall i, j | 0 <= i < j < |s| ensures s[i] <= s[j] {
      if j < |a| {
      } else if i < |a| {
        assert s[i] in a;
        if j > |a| { assert s[j] == b[j - |a| - 1]; assert s[j] in b; }
      } else if i == |a| {
        assert s[j] == b[j - |a| - 1]; assert s[j] in b;
      } else {
        assert s[i] == b[i - |a| - 1] && s[j] == b[j - |a| - 1];
      }
    }
  }

  lemma {:induction false} SortedSplit(a: seq<int>, k: int, b: seq<int>)
    requires Sorted(a + [k] + b)
    ensures Sorted(a) && Sorted(b)
    ensures forall x :: x in a ==> x <= k
    ensures forall x :: x in b ==> k <= x
  {
    var s := a + [k] + b;
    var n := |a|;
    assert s[..n] == a && s[n + 1..] == b && s[n] == k;
    forall i, j | 0 <= i < j < |a| ensures a[i] <= a[j] {
      assert a[i] == s[i] && a[j] == s[j];
    }
    forall i, j | 0 <= i < j < |b| ensures b[i] <= b[j] {
      assert b[i] == s[n + 1 + i] && b[j] == s[n + 1 + j];
    }
    forall x | x in a ensures x <= k {
      var i :| 0 <= i < n && a[i] == x;
      assert s[i] == x;
    }
    forall x | x in b ensures k <= x {
      var i :| 0 <= i < |b| && b[i] == x;
      assert s[n + 1 + i] == x;
    }
  }

  /** A sorted sequence stays sorted when one element is taken out. */
  lemma {:induction false} SortedDrop(a: seq<int>, k: int, b: seq<int>)
    requires Sorted(a + [k] + b)
    ensures Sorted(a + b)
  {
    var s := a + [k] + b;
    forall i, j | 0 <= i < j < |a + b| ensures (a + b)[i] <= (a + b)[j] {
      var i' := if i < |a| then i else i + 1;
      var j' := if j < |a| then j else j + 1;
      assert (a + b)[i] == s[i'] && (a + b)[j] == s[j'];
    }
  }

  lemma RotateLeftDistinct(t: Tree)
    requires t.Branch? && t.right.Branch? && Distinct(t)
    ensures Distinct(RotateLeft(t))
  {
    var y := t.right;
    assert Distinct(y);
    assert Ids(y) == Ids(y.left) + {y.id} + Ids(y.right);
    assert Distinct(Branch(t.id, t.red, t.left, t.key, y.left));
  }

  lemma RotateRightDistinct(t: Tree)
    requires t.Branch? && t.left.Branch? && Distinct(t)
    ensures Distinct(RotateRight(t))
  {
    var y := t.left;
    assert Distinct(y);
    assert Ids(y) == Ids(y.left) + {y.id} + Ids(y.right);
    assert Distinct(Branch(t.id, t.red, y.right, t.key, t.right));
  }

  /** Painting the root black touches nothing but the root's colour. */
  lemma BlackenFacts(t: Tree)
    ensures Keys(Blacken(t)) == Keys(t) && Ids(Blacken(t)) == Ids(t) && !IsRed(Blacken(t))
    ensures Distinct(t) ==> Distinct(Blacken(t))
    ensures Balanced(t) ==> Balanced(Blacken(t))
    ensures BlackHeight(Blacken(t)) == BlackHeight(t) + (if IsRed(t) then 1 else 0)
    ensures NoRedRed(t) ==> NoRedRed(Blacken(t))
    ensures IdOf(Blacken(t)) == IdOf(t)
  {
  }
}

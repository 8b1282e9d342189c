/**
 * AVLTreeMap: the tree map whose insertion and deletion hooks restore the
 * AVL property. Each internal node stores its height in the auxiliary field;
 * a sentinel has height 0. After an update the rebalancing loop walks up
 * from the changed position, performs a trinode restructuring wherever the
 * children's heights differ by more than one, recomputes stored heights, and
 * stops at the root or as soon as a subtree's height is what it was before.
 */
module AVLTreeMap {
  import opened BalanceableBinaryTree

  function Max(a: int, b: int): int
  {
    if a >= b then a else b
  }

  /** The height of a subtree, counting internal nodes on the longest path. */
  function Height<V>(t: Tree<V>): nat
  {
    if t.Leaf? then 0 else 1 + Max(Height(t.left), Height(t.right))
  }

  /** Every internal node stores its height and its children's heights differ by at most one. */
  ghost predicate AvlTree<V>(t: Tree<V>)
  {
    t.Leaf? ||
    (AvlTree(t.left) && AvlTree(t.right) && t.aux == Height(t) &&
     -1 <= Height(t.left) - Height(t.right) <= 1)
  }

  lemma AvlAux<V>(t: Tree<V>)
    requires AvlTree(t)
    ensures Aux(t) == Height(t)
  {
  }

  lemma {:induction false} AvlAt<V>(t: Tree<V>, p: Path)
    requires AvlTree(t) && ValidPath(t, p)
    ensures AvlTree(At(t, p))
    decreases |p|
  {
    if p != [] {
      AvlAt(Child(t, p[0]), p[1..]);
    }
  }

  /** Replacing an entry does not change the shape or the stored heights. */
  lemma {:induction false} AvlSetEntry<V>(t: Tree<V>, p: Path, e: Entry<V>)
    requires AvlTree(t) && ValidPath(t, p) && At(t, p).Node?
    ensures AvlTree(SetEntry(t, p, e))
    ensures Height(SetEntry(t, p, e)) == Height(t)
    decreases |p|
  {
    if p != [] {
      var c := Child(t, p[0]);
      AvlSetEntry(c, p[1..], e);
      assert SetEntry(t, p, e) == WithChild(t, p[0], SetEntry(c, p[1..], e));
    }
  }

  // ---------------------------------------------------------------------------
  // The AVL helpers

  /** height(p): the stored height; in an AVL tree, the true height. */
  function StoredHeight<V>(t: Tree<V>, p: Path): (h: int)
    requires ValidPath(t, p)
    ensures AvlTree(At(t, p)) ==> h == Height(At(t, p))
  {
    Aux(At(t, p))
  }

  /** recomputeHeight(p): the stored height of p from its children's stored heights. */
  function RecomputeHeight<V>(t: Tree<V>, p: Path): Tree<V>
    requires ValidPath(t, p) && At(t, p).Node?
  {
    var n := At(t, p);
    SetAux(t, p, 1 + Max(Aux(n.left), Aux(n.right)))
  }

  /**
   * Recomputing changes only the stored height of p, and turns a node whose
   * children are balanced AVL trees of nearly equal height into an AVL tree.
   */
  lemma RecomputeFacts<V>(t: Tree<V>, p: Path)
    requires ValidPath(t, p) && At(t, p).Node?
    ensures ValidPath(RecomputeHeight(t, p), p)
    ensures At(RecomputeHeight(t, p), p) ==
      At(t, p).(aux := 1 + Max(Aux(At(t, p).left), Aux(At(t, p).right)))
    ensures Entries(RecomputeHeight(t, p)) == Entries(t)
    ensures NodeCount(RecomputeHeight(t, p)) == NodeCount(t)
    ensures var n := At(t, p);
      AvlTree(n.left) && AvlTree(n.right) && -1 <= Height(n.left) - Height(n.right) <= 1 ==>
      AvlTree(At(RecomputeHeight(t, p), p))
  {
    var n := At(t, p);
    var m := n.(aux := 1 + Max(Aux(n.left), Aux(n.right)));
    ReplaceAt(t, p, m);
    ReplaceContext(t, p, m);
    Decompose(t, p);
    ReplaceCount(t, p, m);
  }

  /** isBalanced(p): the children's stored heights differ by at most one. */
  function IsBalanced<V>(t: Tree<V>, p: Path): (b: bool)
    requires ValidPath(t, p) && At(t, p).Node?
    ensures AvlTree(At(t, p).left) && AvlTree(At(t, p).right) ==>
      (b <==> -1 <= Height(At(t, p).left) - Height(At(t, p).right) <= 1)
  {
    var n := At(t, p);
    -1 <= Aux(n.left) - Aux(n.right) <= 1
  }

  /**
   * tallerChild(p): a child whose stored height is no smaller than the
   * other's; on a tie, the child on the same side as p under its parent
   * (the left child at the root).
   */
  function TallerChild<V>(t: Tree<V>, p: Path): (c: Path)
    requires ValidPath(t, p) && At(t, p).Node?
    ensures |c| == |p| + 1 && c[..|p|] == p && Parent(c) == p
    ensures ValidPath(t, c) && At(t, c) == Child(At(t, p), Last(c))
    ensures AvlTree(At(t, p).left) && AvlTree(At(t, p).right) ==>
      Height(At(t, c)) >= Height(Child(At(t, p), Flip(Last(c))))
    ensures (AvlTree(At(t, p).left) && AvlTree(At(t, p).right) &&
             Height(At(t, p).left) == Height(At(t, p).right)) ==>
      Last(c) == if p == [] then Left else Last(p)
  {
    var n := At(t, p);
    StepDown(t, p, Left);
    StepDown(t, p, Right);
    if Aux(n.left) > Aux(n.right) then p + [Left]
    else if Aux(n.left) < Aux(n.right) then p + [Right]
    else if p == [] then p + [Left]
    else if Last(p) == Left then p + [Left]
    else p + [Right]
  }

  // ---------------------------------------------------------------------------
  // The state the rebalancing loop keeps

  /**
   * Above the position being fixed, nothing has been recomputed yet: each
   * ancestor stores the height it had before the update, computed from the
   * stored (old) height of its child on the path and the height of its other
   * child, which is an untouched AVL tree, and the two differed by at most one.
   */
  ghost predicate Pending<V>(t: Tree<V>, p: Path)
    decreases |p|
  {
    p == [] ||
    (t.Node? && Child(t, p[0]).Node? && AvlTree(Child(t, Flip(p[0]))) &&
     t.aux == 1 + Max(Child(t, p[0]).aux, Height(Child(t, Flip(p[0])))) &&
     -1 <= Child(t, p[0]).aux - Height(Child(t, Flip(p[0]))) <= 1 &&
     Pending(Child(t, p[0]), p[1..]))
  }

  /**
   * The node being fixed: its children are AVL trees whose heights differ by
   * at most two, and its stored (old) height is close enough to the height it
   * is about to get that its parent will again be fixable.
   */
  ghost predicate LocalReady<V>(s: Tree<V>)
  {
    s.Node? && AvlTree(s.left) && AvlTree(s.right) &&
    -2 <= Height(s.left) - Height(s.right) <= 2 &&
    Height(s) - 1 <= s.aux <=
      Height(s) + (if -1 <= Height(s.left) - Height(s.right) <= 1 then 1 else 0)
  }

  ghost predicate Ready<V>(t: Tree<V>, p: Path)
  {
    ValidPath(t, p) && LocalReady(At(t, p)) && Pending(t, p)
  }

  /** An AVL tree whose node at p gets a new subtree s is pending at p when s stores the old height. */
  lemma {:induction false} PendingInit<V>(t: Tree<V>, p: Path, s: Tree<V>)
    requires AvlTree(t) && ValidPath(t, p) && s.Node? && s.aux == Height(At(t, p))
    ensures Pending(Replace(t, p, s), p)
    decreases |p|
  {
    if p != [] {
      var c := Child(t, p[0]);
      PendingInit(c, p[1..], s);
      var c' := Replace(c, p[1..], s);
      assert Replace(t, p, s) == WithChild(t, p[0], c');
      if p[1..] != [] {
        assert c'.aux == c.aux;
      }
    }
  }

  /**
   * When the fixed subtree has its old height again, the whole tree is an
   * AVL tree (and, below the root, its height is what the root stores).
   */
  lemma {:induction false} PendingClose<V>(t: Tree<V>, p: Path, s: Tree<V>)
    requires ValidPath(t, p) && Pending(t, p) && AvlTree(s)
    requires p != [] ==> At(t, p).Node? && Height(s) == At(t, p).aux
    ensures AvlTree(Replace(t, p, s))
    ensures p != [] ==> Height(Replace(t, p, s)) == t.aux
    decreases |p|
  {
    if p != [] {
      var c := Child(t, p[0]);
      PendingClose(c, p[1..], s);
      var c' := Replace(c, p[1..], s);
      assert Replace(t, p, s) == WithChild(t, p[0], c');
      assert Height(c') == c.aux;
    }
  }

  /**
   * Moving up: once the subtree at p is an AVL tree whose height is within
   * one of what p stored, the parent is ready to be fixed.
   */
  lemma {:induction false} PendingUp<V>(t: Tree<V>, p: Path, s: Tree<V>)
    requires ValidPath(t, p) && p != [] && Pending(t, p) && At(t, p).Node?
    requires AvlTree(s) && -1 <= Height(s) - At(t, p).aux <= 1
    ensures Ready(Replace(t, p, s), Parent(p))
    decreases |p|
  {
    var c := Child(t, p[0]);
    var c' := Replace(c, p[1..], s);
    assert Replace(t, p, s) == WithChild(t, p[0], c');
    if |p| == 1 {
      assert p[1..] == [] && Parent(p) == [];
      assert c' == s;
    } else {
      PendingUp(c, p[1..], s);
      assert Parent(p) == [p[0]] + Parent(p[1..]);
      assert c'.aux == c.aux;
      var t' := WithChild(t, p[0], c');
      assert Child(t', p[0]) == c';
      assert Parent(p)[0] == p[0] && Parent(p)[1..] == Parent(p[1..]);
    }
  }

  // ---------------------------------------------------------------------------
  // Fixing one node

  /** The subtree that the trinode restructuring of the grandchild [dy, dx] produces. */
  function Trinode<V>(s: Tree<V>, dy: Dir, dx: Dir): Tree<V>
    requires s.Node? && Child(s, dy).Node? && Child(Child(s, dy), dx).Node?
  {
    if dx == dy then RotateUp(s, dy)
    else RotateUp(WithChild(s, dy, RotateUp(Child(s, dy), dx)), dy)
  }

  lemma RotateTop<V>(s: Tree<V>, d: Dir)
    requires s.Node? && Child(s, d).Node?
    ensures ValidPath(s, [d]) && At(s, [d]) == Child(s, d)
    ensures Rotate(s, [d]) == RotateUp(s, d)
  {
    assert [d][1..] == [];
    assert Parent([d]) == [] && Last([d]) == d;
  }

  lemma RotateSecond<V>(s: Tree<V>, dy: Dir, dx: Dir)
    requires s.Node? && Child(s, dy).Node? && Child(Child(s, dy), dx).Node?
    ensures ValidPath(s, [dy, dx]) && At(s, [dy, dx]) == Child(Child(s, dy), dx)
    ensures Rotate(s, [dy, dx]) == WithChild(s, dy, RotateUp(Child(s, dy), dx))
  {
    assert [dy, dx][1..] == [dx] && [dx][1..] == [];
    assert Parent([dy, dx]) == [dy] && Last([dy, dx]) == dx;
    RotateTop(Child(s, dy), dx);
    assert Replace(s, [dy], RotateUp(Child(s, dy), dx)) == WithChild(s, dy, RotateUp(Child(s, dy), dx));
  }

  /** restructure of a grandchild, seen from the grandparent: the trinode subtree. */
  lemma RestructureLocal<V>(s: Tree<V>, dy: Dir, dx: Dir)
    requires s.Node? && Child(s, dy).Node? && Child(Child(s, dy), dx).Node?
    ensures ValidPath(s, [dy, dx]) && At(s, [dy, dx]).Node?
    ensures Restructure(s, [dy, dx]).0 == Trinode(s, dy, dx)
  {
    RotateSecond(s, dy, dx);
    assert Parent([dy, dx]) == [dy] && Last([dy, dx]) == dx && Last([dy]) == dy;
    RotateTop(s, dy);
    if dx != dy {
      var t1 := Rotate(s, [dy, dx]);
      RotateTop(t1, dy);
    }
  }

  /** A node whose stored height is recomputed from its children's. */
  function Recomputed<V>(n: Tree<V>): Tree<V>
    requires n.Node?
  {
    n.(aux := 1 + Max(Aux(n.left), Aux(n.right)))
  }

  /** recomputeHeight on the subtree root and on its two children. */
  lemma RecomputeLocal<V>(r: Tree<V>)
    requires r.Node? && r.left.Node? && r.right.Node?
    ensures ValidPath(r, [Left]) && At(r, [Left]) == r.left
    ensures ValidPath(r, [Right]) && At(r, [Right]) == r.right
    ensures RecomputeHeight(r, [Left]) == r.(left := Recomputed(r.left))
    ensures RecomputeHeight(r.(left := Recomputed(r.left)), [Right]) ==
      r.(left := Recomputed(r.left), right := Recomputed(r.right))
    ensures RecomputeHeight(r, []) == Recomputed(r)
  {
    StepDown(r, [], Left);
    StepDown(r, [], Right);
    assert [] + [Left] == [Left] && [] + [Right] == [Right];
  }

  /** The three recomputations after a restructuring, as one local function. */
  function Refresh<V>(r: Tree<V>): Tree<V>
    requires r.Node? && r.left.Node? && r.right.Node?
  {
    Recomputed(r.(left := Recomputed(r.left), right := Recomputed(r.right)))
  }

  /** Recomputing over two AVL children of nearly equal height gives an AVL tree. */
  lemma RecomputedAvl<V>(n: Tree<V>)
    requires n.Node? && AvlTree(n.left) && AvlTree(n.right)
    requires -1 <= Height(n.left) - Height(n.right) <= 1
    ensures AvlTree(Recomputed(n)) && Height(Recomputed(n)) == Height(n)
  {
    AvlAux(n.left);
    AvlAux(n.right);
  }

  lemma RecomputedSame<V>(n: Tree<V>)
    requires n.Node? && AvlTree(n)
    ensures Recomputed(n) == n
  {
    AvlAux(n.left);
    AvlAux(n.right);
  }

  lemma FixLeftLeft<V>(s: Tree<V>)
    requires s.Node? && s.left.Node? && AvlTree(s.left) && AvlTree(s.right)
    requires Height(s.left) == Height(s.right) + 2
    requires Height(s.left.left) >= Height(s.left.right)
    ensures s.left.left.Node?
    ensures Trinode(s, Left, Left).left.Node? && Trinode(s, Left, Left).right.Node?
    ensures var r := Refresh(Trinode(s, Left, Left));
      AvlTree(r) && Height(s.left) <= Height(r) <= Height(s.left) + 1
  {
    var y, x, c := s.left, s.left.left, s.left.right;
    assert Height(y) == 1 + Max(Height(x), Height(c));
    var z := s.(left := c);
    RecomputedAvl(z);
    RecomputedSame(x);
    var r0 := Trinode(s, Left, Left);
    assert r0 == y.(right := z);
    var r1 := r0.(left := Recomputed(x), right := Recomputed(z));
    assert r1 == y.(right := Recomputed(z));
    RecomputedAvl(r1);
  }

  lemma FixRightRight<V>(s: Tree<V>)
    requires s.Node? && s.right.Node? && AvlTree(s.left) && AvlTree(s.right)
    requires Height(s.right) == Height(s.left) + 2
    requires Height(s.right.right) >= Height(s.right.left)
    ensures s.right.right.Node?
    ensures Trinode(s, Right, Right).left.Node? && Trinode(s, Right, Right).right.Node?
    ensures var r := Refresh(Trinode(s, Right, Right));
      AvlTree(r) && Height(s.right) <= Height(r) <= Height(s.right) + 1
  {
    var y, x, c := s.right, s.right.right, s.right.left;
    assert Height(y) == 1 + Max(Height(c), Height(x));
    var z := s.(right := c);
    RecomputedAvl(z);
    RecomputedSame(x);
    var r0 := Trinode(s, Right, Right);
    assert r0 == y.(left := z);
    var r1 := r0.(left := Recomputed(z), right := Recomputed(x));
    assert r1 == y.(left := Recomputed(z));
    RecomputedAvl(r1);
  }

  lemma FixLeftRight<V>(s: Tree<V>)
    requires s.Node? && s.left.Node? && AvlTree(s.left) && AvlTree(s.right)
    requires Height(s.left) == Height(s.right) + 2
    requires Height(s.left.right) > Height(s.left.left)
    ensures s.left.right.Node?
    ensures Trinode(s, Left, Right).left.Node? && Trinode(s, Left, Right).right.Node?
    ensures var r := Refresh(Trinode(s, Left, Right));
      AvlTree(r) && Height(r) == Height(s.left)
  {
    var y := s.left;
    var a, x := y.left, y.right;
    assert Height(y) == 1 + Max(Height(a), Height(x));
    assert Height(x) == 1 + Max(Height(x.left), Height(x.right));
    var y' := y.(right := x.left);
    var z' := s.(left := x.right);
    RecomputedAvl(y');
    RecomputedAvl(z');
    var r0 := Trinode(s, Left, Right);
    assert r0 == x.(left := y', right := z');
    var r1 := r0.(left := Recomputed(y'), right := Recomputed(z'));
    RecomputedAvl(r1);
  }

  lemma FixRightLeft<V>(s: Tree<V>)
    requires s.Node? && s.right.Node? && AvlTree(s.left) && AvlTree(s.right)
    requires Height(s.right) == Height(s.left) + 2
    requires Height(s.right.left) > Height(s.right.right)
    ensures s.right.left.Node?
    ensures Trinode(s, Right, Left).left.Node? && Trinode(s, Right, Left).right.Node?
    ensures var r := Refresh(Trinode(s, Right, Left));
      AvlTree(r) && Height(r) == Height(s.right)
  {
    var y := s.right;
    var x, a := y.left, y.right;
    assert Height(y) == 1 + Max(Height(x), Height(a));
    assert Height(x) == 1 + Max(Height(x.left), Height(x.right));
    var y' := y.(left := x.right);
    var z' := s.(right := x.left);
    RecomputedAvl(y');
    RecomputedAvl(z');
    var r0 := Trinode(s, Right, Left);
    assert r0 == x.(left := z', right := y');
    var r1 := r0.(left := Recomputed(z'), right := Recomputed(y'));
    RecomputedAvl(r1);
  }

  /**
   * An unbalanced node whose children are AVL trees becomes, after the
   * trinode restructuring at the grandchild tallerChild picks and the three
   * recomputations, an AVL tree whose height is the taller child's height or
   * one more.
   */
  lemma FixUnbalanced<V>(s: Tree<V>, dy: Dir, dx: Dir)
    requires s.Node? && AvlTree(s.left) && AvlTree(s.right) && Child(s, dy).Node?
    requires Height(Child(s, dy)) == Height(Child(s, Flip(dy))) + 2
    requires Height(Child(Child(s, dy), dx)) >= Height(Child(Child(s, dy), Flip(dx)))
    requires Height(Child(Child(s, dy), dx)) == Height(Child(Child(s, dy), Flip(dx))) ==> dx == dy
    ensures Child(Child(s, dy), dx).Node?
    ensures Trinode(s, dy, dx).left.Node? && Trinode(s, dy, dx).right.Node?
    ensures var r := Refresh(Trinode(s, dy, dx));
      AvlTree(r) && Height(Child(s, dy)) <= Height(r) <= Height(Child(s, dy)) + 1
  {
    if dy == Left && dx == Left {
      FixLeftLeft(s);
    } else if dy == Right && dx == Right {
      FixRightRight(s);
    } else if dy == Left {
      FixLeftRight(s);
    } else {
      FixRightLeft(s);
    }
  }

  /** A ready node whose children are balanced only needs its height recomputed. */
  lemma FixBalanced<V>(s: Tree<V>)
    requires LocalReady(s) && -1 <= Height(s.left) - Height(s.right) <= 1
    ensures AvlTree(Recomputed(s)) && -1 <= Height(Recomputed(s)) - s.aux <= 1
  {
    RecomputedAvl(s);
  }

  // ---------------------------------------------------------------------------
  // One round of rebalance, seen from the whole tree

  /** Recomputing below p happens inside the subtree at p. */
  lemma RecomputeInside<V>(t: Tree<V>, p: Path, s: Tree<V>, q: Path)
    requires ValidPath(t, p) && ValidPath(s, q) && At(s, q).Node?
    ensures ValidPath(Replace(t, p, s), p) && At(Replace(t, p, s), p) == s
    ensures ValidPath(Replace(t, p, s), p + q) && At(Replace(t, p, s), p + q).Node?
    ensures RecomputeHeight(Replace(t, p, s), p + q) == Replace(t, p, RecomputeHeight(s, q))
  {
    ReplaceAt(t, p, s);
    var t1 := Replace(t, p, s);
    SetAuxAt(t1, p, q, 1 + Max(Aux(At(s, q).left), Aux(At(s, q).right)));
    ValidPathAppend(t1, p, q);
    ReplaceTwice(t, p, s, RecomputeHeight(s, q));
  }

  /** The three recomputations after a restructuring at p, seen from the whole tree. */
  lemma RefreshInside<V>(t: Tree<V>, p: Path, r0: Tree<V>)
    requires ValidPath(t, p) && r0.Node? && r0.left.Node? && r0.right.Node?
    ensures ValidPath(Replace(t, p, r0), p + [Left]) && At(Replace(t, p, r0), p + [Left]).Node?
    ensures var t2 := RecomputeHeight(Replace(t, p, r0), p + [Left]);
      ValidPath(t2, p + [Right]) && At(t2, p + [Right]).Node? &&
      var t3 := RecomputeHeight(t2, p + [Right]);
      ValidPath(t3, p) && At(t3, p).Node? && RecomputeHeight(t3, p) == Replace(t, p, Refresh(r0))
  {
    RecomputeLocal(r0);
    RecomputeInside(t, p, r0, [Left]);
    var r1 := r0.(left := Recomputed(r0.left));
    ReplaceTwice(t, p, r0, r1);
    RecomputeLocal(r1);
    RecomputeInside(t, p, r1, [Right]);
    var r2 := r1.(right := Recomputed(r0.right));
    RecomputeLocal(r2);
    assert p + [] == p;
    RecomputeInside(t, p, r2, []);
  }

  /**
   * What one round leaves behind at p: an AVL subtree holding the same
   * entries, storing its height, whose height is within one of what p stored.
   */
  ghost predicate Fixed<V>(t: Tree<V>, p: Path, f: Tree<V>)
  {
    ValidPath(t, p) && At(t, p).Node? && f.Node? && AvlTree(f) && f.aux == Height(f) &&
    -1 <= Height(f) - At(t, p).aux <= 1 &&
    ValidPath(Replace(t, p, f), p) && At(Replace(t, p, f), p) == f &&
    Entries(Replace(t, p, f)) == Entries(t) && NodeCount(Replace(t, p, f)) == NodeCount(t)
  }

  lemma FixedFacts<V>(t: Tree<V>, p: Path, f: Tree<V>)
    requires ValidPath(t, p) && At(t, p).Node? && f.Node? && AvlTree(f)
    requires -1 <= Height(f) - At(t, p).aux <= 1
    requires Entries(f) == Entries(At(t, p)) && NodeCount(f) == NodeCount(At(t, p))
    ensures Fixed(t, p, f)
  {
    ReplaceAt(t, p, f);
    ReplaceContext(t, p, f);
    Decompose(t, p);
    ReplaceCount(t, p, f);
  }

  /** Below an unbalanced ready node, tallerChild twice reaches internal nodes. */
  lemma TallerGrandchild<V>(t: Tree<V>, p: Path)
    requires Ready(t, p) && !IsBalanced(t, p)
    ensures At(t, TallerChild(t, p)).Node?
    ensures AvlTree(At(t, TallerChild(t, p)))
    ensures At(t, TallerChild(t, TallerChild(t, p))).Node?
  {
    var s := At(t, p);
    var y := TallerChild(t, p);
    assert Height(At(t, y)) >= 2;
    var x := TallerChild(t, y);
    assert Height(At(t, x)) >= 1;
  }

  /**
   * The unbalanced branch of a round: restructure(tallerChild(tallerChild(p)))
   * replaces the subtree at p by the trinode subtree, and refreshing its
   * heights fixes p.
   */
  lemma UnbalancedRound<V>(t: Tree<V>, p: Path, y: Path, x: Path) returns (r0: Tree<V>)
    requires Ready(t, p) && !IsBalanced(t, p)
    requires y == TallerChild(t, p) && At(t, y).Node? && x == TallerChild(t, y) && At(t, x).Node?
    ensures |x| >= 2 && Restructure(t, x) == (Replace(t, p, r0), p)
    ensures r0.Node? && r0.left.Node? && r0.right.Node?
    ensures Fixed(t, p, Refresh(r0))
  {
    TallerGrandchild(t, p);
    var s := At(t, p);
    var dy, dx := Last(y), Last(x);
    assert y == p + [dy];
    assert x == y + [dx];
    assert x == p + [dy, dx];
    FixUnbalanced(s, dy, dx);
    RestructureAt(t, p, dy, dx);
    RestructureLocal(s, dy, dx);
    r0 := Trinode(s, dy, dx);
    RefreshKeeps(r0);
    FixedFacts(t, p, Refresh(r0));
  }

  lemma RefreshKeeps<V>(r: Tree<V>)
    requires r.Node? && r.left.Node? && r.right.Node?
    ensures Entries(Refresh(r)) == Entries(r) && NodeCount(Refresh(r)) == NodeCount(r)
  {
  }

  /** The balanced branch of a round: recomputeHeight(p) fixes p. */
  lemma BalancedRound<V>(t: Tree<V>, p: Path) returns (f: Tree<V>)
    requires Ready(t, p) && IsBalanced(t, p)
    ensures RecomputeHeight(t, p) == Replace(t, p, f)
    ensures Fixed(t, p, f)
  {
    f := Recomputed(At(t, p));
    FixBalanced(At(t, p));
    FixedFacts(t, p, f);
  }

  // ---------------------------------------------------------------------------
  // rebalance and the two hooks

  /**
   * rebalance(p): walks up from p, restructuring unbalanced nodes and
   * recomputing stored heights, until the root has been handled or a
   * subtree's height is unchanged. From a ready state it yields an AVL tree
   * with the same entries and node count.
   */
  method Rebalance<V>(t0: Tree<V>, p0: Path) returns (t: Tree<V>)
    requires Ready(t0, p0)
    ensures AvlTree(t)
    ensures Entries(t) == Entries(t0) && NodeCount(t) == NodeCount(t0)
  {
    t := t0;
    var p := p0;
    var done := false;
    while !done
      invariant Entries(t) == Entries(t0) && NodeCount(t) == NodeCount(t0)
      invariant done ==> AvlTree(t)
      invariant !done ==> Ready(t, p)
      decreases |p| + (if done then 0 else 1)
    {
      ghost var before := t;
      var oldHeight := StoredHeight(t, p);
      ghost var fixed: Tree<V>;
      if !IsBalanced(t, p) {
        TallerGrandchild(t, p);
        var y := TallerChild(t, p);
        var x := TallerChild(t, y);
        ghost var r0 := UnbalancedRound(t, p, y, x);
        var r := Restructure(t, x);
        t, p := r.0, r.1;
        RefreshInside(before, p, r0);
        t := RecomputeHeight(t, p + [Left]);
        t := RecomputeHeight(t, p + [Right]);
        t := RecomputeHeight(t, p);
        fixed := Refresh(r0);
      } else {
        fixed := BalancedRound(t, p);
        t := RecomputeHeight(t, p);
      }
      assert Fixed(before, p, fixed) && t == Replace(before, p, fixed);
      var newHeight := StoredHeight(t, p);
      if p == [] {
        done := true;
        PendingClose(before, p, fixed);
      } else {
        ghost var child := p;
        p := Parent(p);
        done := oldHeight == newHeight;
        if done {
          PendingClose(before, child, fixed);
        } else {
          PendingUp(before, child, fixed);
        }
      }
    }
  }

  /**
   * rebalanceInsert(p): after a sentinel of an AVL tree became an internal
   * node with two sentinel children (its stored height still 0), rebalancing
   * from it yields an AVL tree with the same entries.
   */
  method RebalanceInsert<V>(t: Tree<V>, p: Path, ghost before: Tree<V>) returns (r: Tree<V>)
    requires AvlTree(before) && ValidPath(before, p) && At(before, p).Leaf?
    requires ValidPath(t, p) && t == Replace(before, p, At(t, p))
    requires At(t, p).Node? && At(t, p).left.Leaf? && At(t, p).right.Leaf? && At(t, p).aux == 0
    ensures AvlTree(r)
    ensures Entries(r) == Entries(t) && NodeCount(r) == NodeCount(t)
  {
    PendingInit(before, p, At(t, p));
    r := Rebalance(t, p);
  }

  /**
   * After removing a node of an AVL tree that had a sentinel child, by
   * putting its other child c in its place, the parent is ready to be fixed.
   */
  lemma DeleteReady<V>(before: Tree<V>, p: Path, c: Tree<V>)
    requires AvlTree(before) && ValidPath(before, p) && p != [] && At(before, p).Node?
    requires At(before, p).left.Leaf? || At(before, p).right.Leaf?
    requires c == if At(before, p).left.Leaf? then At(before, p).right else At(before, p).left
    ensures Ready(Replace(before, p, c), Parent(p))
  {
    var q, d := Parent(p), Last(p);
    ParentValid(before, p);
    var z := At(before, q);
    var z' := WithChild(z, d, c);
    assert p == q + [d];
    ReplaceAppend(before, q, [d], c);
    assert Replace(z, [d], c) == z';
    AvlAt(before, q);
    DeleteLocal(z, d);
    PendingInit(before, q, z');
    ReplaceAt(before, q, z');
  }

  /** Locally: the parent of the removed node keeps its stored height and is ready. */
  lemma DeleteLocal<V>(z: Tree<V>, d: Dir)
    requires AvlTree(z) && z.Node? && Child(z, d).Node?
    requires Child(z, d).left.Leaf? || Child(z, d).right.Leaf?
    ensures var m := Child(z, d);
      var z' := WithChild(z, d, if m.left.Leaf? then m.right else m.left);
      LocalReady(z') && z'.aux == Height(z)
  {
    var m := Child(z, d);
    assert Height(m) == 1 + Max(Height(m.left), Height(m.right));
  }

  /**
   * rebalanceDelete(p): p is the position of the child that took the place
   * of a removed node which had a sentinel child. Rebalancing from p's parent
   * (nothing when p is the root) yields an AVL tree with the same entries.
   */
  method RebalanceDelete<V>(t: Tree<V>, p: Path, ghost before: Tree<V>) returns (r: Tree<V>)
    requires AvlTree(before) && ValidPath(before, p) && At(before, p).Node?
    requires At(before, p).left.Leaf? || At(before, p).right.Leaf?
    requires t == Replace(before, p, if At(before, p).left.Leaf? then At(before, p).right else At(before, p).left)
    ensures AvlTree(r)
    ensures Entries(r) == Entries(t) && NodeCount(r) == NodeCount(t)
    ensures p == [] ==> r == t
  {
    if p == [] {
      AvlAt(before, p);
      r := t;
    } else {
      DeleteReady(before, p, if At(before, p).left.Leaf? then At(before, p).right else At(before, p).left);
      r := Rebalance(t, Parent(p));
    }
  }
}

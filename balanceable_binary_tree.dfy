/**
 * The binary tree that backs every tree map: a linked binary tree whose
 * external nodes are sentinels. A sentinel (Leaf) has no entry and no
 * children; an internal node has an entry, exactly two children, an
 * auxiliary integer (the AVL height) and a treap priority. Nodes created for
 * the tree start with auxiliary value and priority 0, and a sentinel keeps
 * them at 0.
 *
 * A position is the path of left/right steps from the root, so the parent of
 * a position is the path without its last step.
 */
module BalanceableBinaryTree {

  datatype Dir = Left | Right

  datatype Entry<V> = Entry(key: int, value: V)

  datatype Tree<V> =
    | Leaf
    | Node(left: Tree<V>, entry: Entry<V>, right: Tree<V>, aux: int, priority: int)

  type Path = seq<Dir>

  function Flip(d: Dir): Dir
  {
    if d == Left then Right else Left
  }

  function Child<V>(t: Tree<V>, d: Dir): Tree<V>
    requires t.Node?
  {
    if d == Left then t.left else t.right
  }

  function WithChild<V>(t: Tree<V>, d: Dir, c: Tree<V>): Tree<V>
    requires t.Node?
  {
    if d == Left then t.(left := c) else t.(right := c)
  }

  /** p leads from the root of t to a node (internal or sentinel). */
  predicate ValidPath<V>(t: Tree<V>, p: Path)
    decreases |p|
  {
    p == [] || (t.Node? && ValidPath(Child(t, p[0]), p[1..]))
  }

  /** The subtree at position p. */
  function At<V>(t: Tree<V>, p: Path): Tree<V>
    requires ValidPath(t, p)
    decreases |p|
  {
    if p == [] then t else At(Child(t, p[0]), p[1..])
  }

  /** t with the subtree at position p replaced by s. */
  function Replace<V>(t: Tree<V>, p: Path, s: Tree<V>): Tree<V>
    requires ValidPath(t, p)
    decreases |p|
  {
    if p == [] then s else WithChild(t, p[0], Replace(Child(t, p[0]), p[1..], s))
  }

  function Parent(p: Path): Path
    requires p != []
  {
    p[..|p| - 1]
  }

  function Last(p: Path): Dir
    requires p != []
  {
    p[|p| - 1]
  }

  /** Prefix every path of ps with the step d. */
  function Under(d: Dir, ps: seq<Path>): (r: seq<Path>)
    ensures |r| == |ps| && forall i :: 0 <= i < |ps| ==> r[i] == [d] + ps[i]
  {
    if ps == [] then [] else [[d] + ps[0]] + Under(d, ps[1..])
  }

  /** The entries of the internal nodes, in order. */
  function Entries<V>(t: Tree<V>): seq<Entry<V>>
  {
    if t.Leaf? then [] else Entries(t.left) + [t.entry] + Entries(t.right)
  }

  /** The entries that come before the subtree at p in the in-order sequence. */
  function Before<V>(t: Tree<V>, p: Path): seq<Entry<V>>
    requires ValidPath(t, p)
    decreases |p|
  {
    if p == [] then []
    else if p[0] == Left then Before(t.left, p[1..])
    else Entries(t.left) + [t.entry] + Before(t.right, p[1..])
  }

  /** The entries that come after the subtree at p in the in-order sequence. */
  function After<V>(t: Tree<V>, p: Path): seq<Entry<V>>
    requires ValidPath(t, p)
    decreases |p|
  {
    if p == [] then []
    else if p[0] == Left then After(t.left, p[1..]) + [t.entry] + Entries(t.right)
    else After(t.right, p[1..])
  }

  /** Keys strictly increase along s. */
  ghost predicate Ordered<V>(s: seq<Entry<V>>)
  {
    forall i, j :: 0 <= i < j < |s| ==> s[i].key < s[j].key
  }

  /** Binary-search-tree order: the in-order keys strictly increase. */
  ghost predicate Bst<V>(t: Tree<V>)
  {
    Ordered(Entries(t))
  }

  ghost predicate AllBelow<V>(s: seq<Entry<V>>, k: int)
  {
    forall i :: 0 <= i < |s| ==> s[i].key < k
  }

  ghost predicate AllAbove<V>(s: seq<Entry<V>>, k: int)
  {
    forall i :: 0 <= i < |s| ==> k < s[i].key
  }

  function KeysOf<V>(s: seq<Entry<V>>): set<int>
  {
    set i | 0 <= i < |s| :: s[i].key
  }

  lemma KeysOfAppend<V>(a: seq<Entry<V>>, b: seq<Entry<V>>)
    ensures KeysOf(a + b) == KeysOf(a) + KeysOf(b)
  {
    forall k | k in KeysOf(a + b) ensures k in KeysOf(a) + KeysOf(b) {
      var i :| 0 <= i < |a + b| && (a + b)[i].key == k;
      if i >= |a| {
        assert b[i - |a|].key == k;
      }
    }
    forall k | k in KeysOf(a) + KeysOf(b) ensures k in KeysOf(a + b) {
      if k in KeysOf(a) {
        var i :| 0 <= i < |a| && a[i].key == k;
        assert (a + b)[i] == a[i];
      } else {
        var i :| 0 <= i < |b| && b[i].key == k;
        assert (a + b)[|a| + i] == b[i];
      }
    }
  }

  lemma KeysOfSingle<V>(e: Entry<V>)
    ensures KeysOf([e]) == {e.key}
  {
    assert [e][0].key == e.key;
  }

  function InternalCount<V>(t: Tree<V>): nat
  {
    if t.Leaf? then 0 else InternalCount(t.left) + 1 + InternalCount(t.right)
  }

  /** Number of nodes, sentinels included. */
  function NodeCount<V>(t: Tree<V>): nat
  {
    if t.Leaf? then 1 else NodeCount(t.left) + 1 + NodeCount(t.right)
  }

  /** getAux: 0 at a sentinel. */
  function Aux<V>(t: Tree<V>): int
  {
    if t.Leaf? then 0 else t.aux
  }

  /** The priority of a node: 0 at a sentinel. */
  function Priority<V>(t: Tree<V>): int
  {
    if t.Leaf? then 0 else t.priority
  }

  /** setAux on the internal node at p. */
  function SetAux<V>(t: Tree<V>, p: Path, a: int): Tree<V>
    requires ValidPath(t, p) && At(t, p).Node?
  {
    Replace(t, p, At(t, p).(aux := a))
  }

  /** set(p, e) on the internal node at p. */
  function SetEntry<V>(t: Tree<V>, p: Path, e: Entry<V>): Tree<V>
    requires ValidPath(t, p) && At(t, p).Node?
  {
    Replace(t, p, At(t, p).(entry := e))
  }

  // ---------------------------------------------------------------------------
  // Path algebra

  lemma {:induction false} ValidPathAppend<V>(t: Tree<V>, p: Path, q: Path)
    requires ValidPath(t, p)
    ensures ValidPath(t, p + q) <==> ValidPath(At(t, p), q)
    ensures ValidPath(t, p + q) ==> At(t, p + q) == At(At(t, p), q)
    decreases |p|
  {
    if p != [] {
      assert (p + q)[0] == p[0] && (p + q)[1..] == p[1..] + q;
      ValidPathAppend(Child(t, p[0]), p[1..], q);
    } else {
      assert p + q == q;
    }
  }

  /** One step further down from an internal node. */
  lemma StepDown<V>(t: Tree<V>, p: Path, d: Dir)
    requires ValidPath(t, p) && At(t, p).Node?
    ensures ValidPath(t, p + [d]) && At(t, p + [d]) == Child(At(t, p), d)
  {
    ValidPathAppend(t, p, [d]);
  }

  /** Every proper prefix of a valid path leads to an internal node. */
  lemma {:induction false} PrefixValid<V>(t: Tree<V>, p: Path, i: int)
    requires ValidPath(t, p) && 0 <= i <= |p|
    ensures ValidPath(t, p[..i])
    ensures i < |p| ==> ValidPath(t, p[..i + 1]) && At(t, p[..i]).Node?
    ensures i < |p| ==> At(t, p[..i + 1]) == Child(At(t, p[..i]), p[i])
    decreases i
  {
    if i == 0 {
      assert p[..0] == [];
      if 0 < |p| {
        assert p[..1] == [p[0]] && [p[0]][1..] == [];
      }
    } else {
      PrefixValid(Child(t, p[0]), p[1..], i - 1);
      assert p[..i][0] == p[0] && p[..i][1..] == p[1..][..i - 1];
      if i < |p| {
        assert p[..i + 1][0] == p[0] && p[..i + 1][1..] == p[1..][..i];
        assert p[1..][i - 1] == p[i];
      }
    }
  }

  /** The parent of a position is an internal node and the position is its child. */
  lemma ParentValid<V>(t: Tree<V>, p: Path)
    requires ValidPath(t, p) && p != []
    ensures ValidPath(t, Parent(p)) && At(t, Parent(p)).Node?
    ensures At(t, p) == Child(At(t, Parent(p)), Last(p))
  {
    PrefixValid(t, p, |p| - 1);
    assert p[..|p| - 1 + 1] == p;
  }

  lemma {:induction false} ReplaceAt<V>(t: Tree<V>, p: Path, s: Tree<V>)
    requires ValidPath(t, p)
    ensures ValidPath(Replace(t, p, s), p) && At(Replace(t, p, s), p) == s
    decreases |p|
  {
    if p != [] {
      ReplaceAt(Child(t, p[0]), p[1..], s);
    }
  }

  lemma {:induction false} ReplaceSelf<V>(t: Tree<V>, p: Path)
    requires ValidPath(t, p)
    ensures Replace(t, p, At(t, p)) == t
    decreases |p|
  {
    if p != [] {
      ReplaceSelf(Child(t, p[0]), p[1..]);
    }
  }

  lemma {:induction false} ReplaceTwice<V>(t: Tree<V>, p: Path, s1: Tree<V>, s2: Tree<V>)
    requires ValidPath(t, p)
    ensures ValidPath(Replace(t, p, s1), p)
    ensures Replace(Replace(t, p, s1), p, s2) == Replace(t, p, s2)
    decreases |p|
  {
    ReplaceAt(t, p, s1);
    if p != [] {
      ReplaceTwice(Child(t, p[0]), p[1..], s1, s2);
    }
  }

  /** Replacing deeper down is replacing inside the subtree at p. */
  lemma {:induction false} ReplaceAppend<V>(t: Tree<V>, p: Path, q: Path, s: Tree<V>)
    requires ValidPath(t, p) && ValidPath(At(t, p), q)
    ensures ValidPath(t, p + q)
    ensures Replace(t, p + q, s) == Replace(t, p, Replace(At(t, p), q, s))
    decreases |p|
  {
    ValidPathAppend(t, p, q);
    if p != [] {
      assert (p + q)[0] == p[0] && (p + q)[1..] == p[1..] + q;
      ReplaceAppend(Child(t, p[0]), p[1..], q, s);
    } else {
      assert p + q == q;
    }
  }

  /** Above the replaced position, the subtree at q holds the replacement further down. */
  lemma ReplaceBelow<V>(t: Tree<V>, q: Path, r: Path, s: Tree<V>)
    requires ValidPath(t, q) && ValidPath(At(t, q), r)
    ensures ValidPath(t, q + r) && ValidPath(Replace(t, q + r, s), q)
    ensures At(Replace(t, q + r, s), q) == Replace(At(t, q), r, s)
  {
    ReplaceAppend(t, q, r, s);
    ReplaceAt(t, q, Replace(At(t, q), r, s));
  }

  /** Replacing at p leaves the context of p unchanged. */
  lemma {:induction false} ReplaceKeepsContext<V>(t: Tree<V>, p: Path, s: Tree<V>)
    requires ValidPath(t, p)
    ensures ValidPath(Replace(t, p, s), p)
    ensures Before(Replace(t, p, s), p) == Before(t, p)
    ensures After(Replace(t, p, s), p) == After(t, p)
    decreases |p|
  {
    ReplaceAt(t, p, s);
    if p != [] {
      ReplaceKeepsContext(Child(t, p[0]), p[1..], s);
    }
  }

  /** The in-order sequence after replacing at p. */
  lemma {:induction false} ReplaceEntries<V>(t: Tree<V>, p: Path, s: Tree<V>)
    requires ValidPath(t, p)
    ensures Entries(Replace(t, p, s)) == Before(t, p) + Entries(s) + After(t, p)
    decreases |p|
  {
    if p != [] {
      var c := Child(t, p[0]);
      ReplaceEntries(c, p[1..], s);
      var m := Entries(Replace(c, p[1..], s));
      if p[0] == Left {
        calc {
          Entries(Replace(t, p, s));
          m + [t.entry] + Entries(t.right);
          (Before(c, p[1..]) + Entries(s) + After(c, p[1..])) + [t.entry] + Entries(t.right);
          Before(c, p[1..]) + Entries(s) + (After(c, p[1..]) + [t.entry] + Entries(t.right));
        }
      } else {
        calc {
          Entries(Replace(t, p, s));
          Entries(t.left) + [t.entry] + m;
          Entries(t.left) + [t.entry] + (Before(c, p[1..]) + Entries(s) + After(c, p[1..]));
          (Entries(t.left) + [t.entry] + Before(c, p[1..])) + Entries(s) + After(c, p[1..]);
        }
      }
    }
  }

  lemma ReplaceContext<V>(t: Tree<V>, p: Path, s: Tree<V>)
    requires ValidPath(t, p)
    ensures ValidPath(Replace(t, p, s), p)
    ensures Before(Replace(t, p, s), p) == Before(t, p)
    ensures After(Replace(t, p, s), p) == After(t, p)
    ensures Entries(Replace(t, p, s)) == Before(t, p) + Entries(s) + After(t, p)
  {
    ReplaceKeepsContext(t, p, s);
    ReplaceEntries(t, p, s);
  }

  /** The in-order sequence splits around every position. */
  lemma Decompose<V>(t: Tree<V>, p: Path)
    requires ValidPath(t, p)
    ensures Entries(t) == Before(t, p) + Entries(At(t, p)) + After(t, p)
  {
    ReplaceContext(t, p, At(t, p));
    ReplaceSelf(t, p);
  }

  /** Going one step down: Before and After gain the parent's other side. */
  lemma {:induction false} ContextStep<V>(t: Tree<V>, p: Path, d: Dir)
    requires ValidPath(t, p) && At(t, p).Node?
    ensures ValidPath(t, p + [d])
    ensures d == Left ==> Before(t, p + [d]) == Before(t, p)
    ensures d == Left ==> After(t, p + [d]) == [At(t, p).entry] + Entries(At(t, p).right) + After(t, p)
    ensures d == Right ==> Before(t, p + [d]) == Before(t, p) + Entries(At(t, p).left) + [At(t, p).entry]
    ensures d == Right ==> After(t, p + [d]) == After(t, p)
    decreases |p|
  {
    StepDown(t, p, d);
    if p == [] {
      assert p + [d] == [d];
    } else {
      assert (p + [d])[0] == p[0] && (p + [d])[1..] == p[1..] + [d];
      ContextStep(Child(t, p[0]), p[1..], d);
    }
  }

  /** Count of sentinels and internal nodes. */
  lemma {:induction false} NodeCountIsOdd<V>(t: Tree<V>)
    ensures NodeCount(t) == 2 * InternalCount(t) + 1
    ensures |Entries(t)| == InternalCount(t)
  {
    if t.Node? {
      NodeCountIsOdd(t.left);
      NodeCountIsOdd(t.right);
    }
  }

  /** Replacing at p changes the node count by the difference of the two subtrees. */
  lemma {:induction false} ReplaceCount<V>(t: Tree<V>, p: Path, s: Tree<V>)
    requires ValidPath(t, p)
    ensures NodeCount(Replace(t, p, s)) == NodeCount(t) - NodeCount(At(t, p)) + NodeCount(s)
    decreases |p|
  {
    if p != [] {
      ReplaceCount(Child(t, p[0]), p[1..], s);
    }
  }

  /** Keys of an ordered sequence are distinct. */
  lemma OrderedSplit<V>(a: seq<Entry<V>>, b: seq<Entry<V>>)
    requires Ordered(a + b)
    ensures Ordered(a) && Ordered(b)
    ensures forall i, j :: 0 <= i < |a| && 0 <= j < |b| ==> a[i].key < b[j].key
  {
    forall i, j | 0 <= i < |a| && 0 <= j < |b|
      ensures a[i].key < b[j].key
    {
      assert (a + b)[i] == a[i] && (a + b)[|a| + j] == b[j];
    }
    forall i, j | 0 <= i < j < |b|
      ensures b[i].key < b[j].key
    {
      assert (a + b)[|a| + i] == b[i] && (a + b)[|a| + j] == b[j];
    }
    assert forall i :: 0 <= i < |a| ==> (a + b)[i] == a[i];
  }

  // ---------------------------------------------------------------------------
  // rotate and restructure

  /**
   * The subtree rooted at a parent y after rotating its child in direction d
   * above it: the child becomes the root, y its child on the other side, and
   * the child's inner subtree moves to y.
   */
  function RotateUp<V>(y: Tree<V>, d: Dir): (r: Tree<V>)
    requires y.Node? && Child(y, d).Node?
    ensures r.Node? && r.entry == Child(y, d).entry && Child(r, Flip(d)).Node?
    ensures r.priority == Child(y, d).priority
    ensures Child(r, Flip(d)) == WithChild(y, d, Child(Child(y, d), Flip(d)))
    ensures Child(r, Flip(d)).entry == y.entry
    ensures Child(r, d) == Child(Child(y, d), d)
    ensures Entries(r) == Entries(y)
    ensures NodeCount(r) == NodeCount(y)
  {
    var x := Child(y, d);
    if d == Left then
      assert Entries(y) == Entries(x.left) + [x.entry] + (Entries(x.right) + [y.entry] + Entries(y.right));
      x.(right := y.(left := x.right))
    else
      assert Entries(y) == (Entries(y.left) + [y.entry] + Entries(x.left)) + [x.entry] + Entries(x.right);
      x.(left := y.(right := x.left))
  }

  /** rotate(p): the internal node at p moves above its parent. */
  function Rotate<V>(t: Tree<V>, p: Path): Tree<V>
    requires ValidPath(t, p) && p != [] && At(t, p).Node?
  {
    ParentValid(t, p);
    Replace(t, Parent(p), RotateUp(At(t, Parent(p)), Last(p)))
  }

  /**
   * A rotation keeps the in-order sequence and the node count; afterwards
   * p's node sits at the parent's position, keeps its outer child and holds
   * the old parent as its child on the other side.
   */
  lemma RotateFacts<V>(t: Tree<V>, p: Path)
    requires ValidPath(t, p) && p != [] && At(t, p).Node?
    ensures ValidPath(t, Parent(p)) && At(t, Parent(p)).Node?
    ensures ValidPath(Rotate(t, p), Parent(p)) && At(Rotate(t, p), Parent(p)).Node?
    ensures At(Rotate(t, p), Parent(p)).entry == At(t, p).entry
    ensures At(Rotate(t, p), Parent(p)).priority == At(t, p).priority
    ensures Child(At(Rotate(t, p), Parent(p)), Flip(Last(p))).Node?
    ensures Child(At(Rotate(t, p), Parent(p)), Flip(Last(p))).entry == At(t, Parent(p)).entry
    ensures Child(At(Rotate(t, p), Parent(p)), Last(p)) == Child(At(t, p), Last(p))
    ensures Entries(Rotate(t, p)) == Entries(t)
    ensures NodeCount(Rotate(t, p)) == NodeCount(t)
  {
    ParentValid(t, p);
    var y := At(t, Parent(p));
    var s := RotateUp(y, Last(p));
    ReplaceAt(t, Parent(p), s);
    ReplaceContext(t, Parent(p), s);
    Decompose(t, Parent(p));
    ReplaceCount(t, Parent(p), s);
  }

  /**
   * restructure(x): trinode restructuring of x, its parent y and grandparent
   * z. When x and y lean the same way, y is rotated above z; otherwise x is
   * rotated twice. Returns the tree and the position of the new subtree
   * root, which is z's old position.
   */
  function Restructure<V>(t: Tree<V>, x: Path): (r: (Tree<V>, Path))
    requires ValidPath(t, x) && |x| >= 2 && At(t, x).Node?
    ensures r.1 == x[..|x| - 2]
    ensures ValidPath(r.0, r.1) && At(r.0, r.1).Node?
    ensures At(r.0, r.1).left.Node? && At(r.0, r.1).right.Node?
    ensures Entries(r.0) == Entries(t)
    ensures NodeCount(r.0) == NodeCount(t)
  {
    var y := Parent(x);
    ParentValid(t, x);
    ParentValid(t, y);
    assert Parent(y) == x[..|x| - 2];
    if Last(x) == Last(y) then
      RotateFacts(t, y);
      (Rotate(t, y), Parent(y))
    else
      RotateFacts(t, x);
      var t1 := Rotate(t, x);
      RotateFacts(t1, y);
      assert At(t1, Parent(x)).Node? && Parent(x) == y && y != [];
      assert Last(y) == Flip(Last(x));
      (Rotate(t1, y), Parent(y))
  }

  // ---------------------------------------------------------------------------
  // Search-tree order, node by node

  lemma AllBelowAppend<V>(a: seq<Entry<V>>, b: seq<Entry<V>>, k: int)
    requires AllBelow(a, k) && AllBelow(b, k)
    ensures AllBelow(a + b, k)
  {
    assert forall i :: |a| <= i < |a + b| ==> (a + b)[i] == b[i - |a|];
  }

  lemma AllAboveAppend<V>(a: seq<Entry<V>>, b: seq<Entry<V>>, k: int)
    requires AllAbove(a, k) && AllAbove(b, k)
    ensures AllAbove(a + b, k)
  {
    assert forall i :: |a| <= i < |a + b| ==> (a + b)[i] == b[i - |a|];
  }

  /** A search tree splits at its root into two search trees around the root key. */
  lemma BstNode<V>(t: Tree<V>)
    requires Bst(t) && t.Node?
    ensures Bst(t.left) && Bst(t.right)
    ensures AllBelow(Entries(t.left), t.entry.key) && AllAbove(Entries(t.right), t.entry.key)
  {
    var l, r := Entries(t.left), Entries(t.right);
    OrderedSplit(l + [t.entry], r);
    OrderedSplit(l, [t.entry]);
    assert (l + [t.entry])[|l|] == t.entry;
  }

  /** Two search trees around a key join into one. */
  lemma BstJoin<V>(t: Tree<V>)
    requires t.Node? && Bst(t.left) && Bst(t.right)
    requires AllBelow(Entries(t.left), t.entry.key) && AllAbove(Entries(t.right), t.entry.key)
    ensures Bst(t)
  {
    var l, r := Entries(t.left), Entries(t.right);
    var s := Entries(t);
    assert s == l + [t.entry] + r;
    forall i, j | 0 <= i < j < |s| ensures s[i].key < s[j].key {
      if j < |l| {
      } else if j == |l| {
      } else if i < |l| {
        assert s[j] == r[j - |l| - 1];
      } else if i == |l| {
        assert s[j] == r[j - |l| - 1];
      } else {
        assert s[i] == r[i - |l| - 1] && s[j] == r[j - |l| - 1];
      }
    }
  }

  /** Every subtree of a search tree is a search tree. */
  lemma BstAt<V>(t: Tree<V>, p: Path)
    requires Bst(t) && ValidPath(t, p)
    ensures Bst(At(t, p))
  {
    Decompose(t, p);
    OrderedSplit(Before(t, p) + Entries(At(t, p)), After(t, p));
    OrderedSplit(Before(t, p), Entries(At(t, p)));
  }

  // ---------------------------------------------------------------------------
  // Working inside a subtree

  /** A rotation below p happens inside the subtree at p. */
  lemma RotateAt<V>(t: Tree<V>, p: Path, q: Path)
    requires ValidPath(t, p) && ValidPath(At(t, p), q) && q != [] && At(At(t, p), q).Node?
    ensures ValidPath(t, p + q) && At(t, p + q).Node?
    ensures Rotate(t, p + q) == Replace(t, p, Rotate(At(t, p), q))
  {
    var s := At(t, p);
    ValidPathAppend(t, p, q);
    assert Parent(p + q) == p + Parent(q) && Last(p + q) == Last(q);
    ParentValid(s, q);
    ValidPathAppend(t, p, Parent(q));
    var u := RotateUp(At(s, Parent(q)), Last(q));
    ReplaceAppend(t, p, Parent(q), u);
  }

  /** A restructuring below p happens inside the subtree at p. */
  lemma RestructureAt<V>(t: Tree<V>, p: Path, dy: Dir, dx: Dir)
    requires ValidPath(t, p) && At(t, p).Node? && Child(At(t, p), dy).Node?
    requires Child(Child(At(t, p), dy), dx).Node?
    ensures ValidPath(At(t, p), [dy, dx]) && At(At(t, p), [dy, dx]).Node?
    ensures ValidPath(t, p + [dy, dx]) && At(t, p + [dy, dx]).Node?
    ensures Restructure(t, p + [dy, dx]) == (Replace(t, p, Restructure(At(t, p), [dy, dx]).0), p)
  {
    var s := At(t, p);
    StepDown(s, [], dy);
    StepDown(s, [dy], dx);
    assert [] + [dy] == [dy] && [dy] + [dx] == [dy, dx];
    var x := p + [dy, dx];
    assert Parent(x) == p + [dy] && Parent([dy, dx]) == [dy] && Last(x) == dx && Last([dy, dx]) == dx;
    assert Parent(Parent(x)) == p && Last(Parent(x)) == dy;
    RotateAt(t, p, [dy, dx]);
    if dx != dy {
      var s1 := Rotate(s, [dy, dx]);
      RotateFacts(s, [dy, dx]);
      var t1 := Replace(t, p, s1);
      ReplaceAt(t, p, s1);
      RotateAt(t1, p, [dy]);
      ReplaceTwice(t, p, s1, Rotate(s1, [dy]));
    } else {
      RotateAt(t, p, [dy]);
    }
  }

  /** Setting the aux of a node below p happens inside the subtree at p. */
  lemma SetAuxAt<V>(t: Tree<V>, p: Path, q: Path, a: int)
    requires ValidPath(t, p) && ValidPath(At(t, p), q) && At(At(t, p), q).Node?
    ensures ValidPath(t, p + q) && At(t, p + q).Node?
    ensures SetAux(t, p + q, a) == Replace(t, p, SetAux(At(t, p), q, a))
  {
    ValidPathAppend(t, p, q);
    ReplaceAppend(t, p, q, At(At(t, p), q).(aux := a));
  }
}

/**
 * TreeMap: a sorted map kept in a binary search tree whose leaves are
 * sentinels. Every operation starts with treeSearch; put expands the
 * sentinel it stops at, remove splices out a node with a sentinel child
 * (first moving the in-order predecessor up when both children are
 * internal), and the neighbour queries walk up from the search position.
 *
 * The subclasses only override hooks: AVLTreeMap rebalances after insertion
 * and deletion, Treap assigns a random priority on put and rotates by
 * priority. The class below carries which of the three it is in
 * `balancing` and dispatches the hooks on it.
 */
module TreeMap {
  import opened Wrappers
  import opened BalanceableBinaryTree
  import opened SortedEntries
  import opened TreeSearch
  import AVL = AVLTreeMap
  import Treap

  /** Every step of m goes the same way d. */
  ghost predicate Spine(m: Path, d: Dir)
  {
    forall i :: 0 <= i < |m| ==> m[i] == d
  }

  /**
   * q is where treeMin (d = Left) or treeMax (d = Right) ends when started
   * at the internal node p: the last internal node of the all-d path down
   * from p.
   */
  ghost predicate Extreme<V>(t: Tree<V>, p: Path, q: Path, d: Dir)
  {
    ValidPath(t, p) && |p| <= |q| && q == p + q[|p|..] && Spine(q[|p|..], d) &&
    ValidPath(At(t, p), q[|p|..]) && ValidPath(t, q) && At(t, q).Node? &&
    Child(At(t, q), d).Leaf?
  }

  /** Along an all-right path nothing follows in the in-order sequence. */
  lemma {:induction false} AfterSpine<V>(t: Tree<V>, m: Path)
    requires ValidPath(t, m) && Spine(m, Right)
    ensures After(t, m) == []
    decreases |m|
  {
    if m != [] {
      assert Spine(m[1..], Right) by {
        forall i | 0 <= i < |m[1..]| ensures m[1..][i] == Right {
          assert m[1..][i] == m[i + 1];
        }
      }
      AfterSpine(t.right, m[1..]);
    }
  }

  /** Along an all-left path nothing precedes in the in-order sequence. */
  lemma {:induction false} BeforeSpine<V>(t: Tree<V>, m: Path)
    requires ValidPath(t, m) && Spine(m, Left)
    ensures Before(t, m) == []
    decreases |m|
  {
    if m != [] {
      assert Spine(m[1..], Left) by {
        forall i | 0 <= i < |m[1..]| ensures m[1..][i] == Left {
          assert m[1..][i] == m[i + 1];
        }
      }
      BeforeSpine(t.left, m[1..]);
    }
  }

  /**
   * treeMax: the end of the right spine holds the last entry, and splicing
   * in its left child leaves all the others.
   */
  lemma MaxSpine<V>(t: Tree<V>, m: Path)
    requires ValidPath(t, m) && Spine(m, Right) && At(t, m).Node? && At(t, m).right.Leaf?
    ensures Entries(t) == Entries(Replace(t, m, At(t, m).left)) + [At(t, m).entry]
  {
    AfterSpine(t, m);
    Decompose(t, m);
    ReplaceContext(t, m, At(t, m).left);
  }

  /** treeMin: the end of the left spine holds the first entry. */
  lemma MinSpine<V>(t: Tree<V>, m: Path)
    requires ValidPath(t, m) && Spine(m, Left) && At(t, m).Node? && At(t, m).left.Leaf?
    ensures Entries(t) == [At(t, m).entry] + Entries(Replace(t, m, At(t, m).right))
  {
    BeforeSpine(t, m);
    Decompose(t, m);
    ReplaceContext(t, m, At(t, m).right);
  }

  /** The entry treeMax(p) reports is the last of the subtree at p. */
  lemma ExtremeRight<V>(t: Tree<V>, p: Path, q: Path)
    requires Extreme(t, p, q, Right)
    ensures At(t, q) == At(At(t, p), q[|p|..])
    ensures Entries(At(t, p)) ==
      Entries(Replace(At(t, p), q[|p|..], At(t, q).left)) + [At(t, q).entry]
  {
    ValidPathAppend(t, p, q[|p|..]);
    MaxSpine(At(t, p), q[|p|..]);
  }

  /** The entry treeMin(p) reports is the first of the subtree at p. */
  lemma ExtremeLeft<V>(t: Tree<V>, p: Path, q: Path)
    requires Extreme(t, p, q, Left)
    ensures At(t, q) == At(At(t, p), q[|p|..])
    ensures Entries(At(t, p)) ==
      [At(t, q).entry] + Entries(Replace(At(t, p), q[|p|..], At(t, q).right))
  {
    ValidPathAppend(t, p, q[|p|..]);
    MinSpine(At(t, p), q[|p|..]);
  }

  /** One more step down the spine from p. */
  lemma SpineStep<V>(t: Tree<V>, p: Path, m: Path, d: Dir)
    requires ValidPath(t, p) && ValidPath(t, p + m) && Spine(m, d) && At(t, p + m).Node?
    requires ValidPath(At(t, p), m)
    ensures p + m + [d] == p + (m + [d]) && Spine(m + [d], d)
    ensures ValidPath(t, p + m + [d]) && ValidPath(At(t, p), m + [d])
    ensures At(t, p + m + [d]) == Child(At(t, p + m), d)
  {
    StepDown(t, p + m, d);
    assert p + m + [d] == p + (m + [d]);
    ValidPathAppend(t, p, m + [d]);
  }

  /** Where the spine walk stops: the parent of the first sentinel is the extreme node. */
  lemma SpineEnd<V>(t: Tree<V>, p: Path, m: Path, d: Dir)
    requires ValidPath(t, p) && ValidPath(t, p + m) && Spine(m, d) && ValidPath(At(t, p), m)
    requires At(t, p).Node? && At(t, p + m).Leaf?
    ensures p + m != [] && Extreme(t, p, Parent(p + m), d)
  {
    var q := p + m;
    assert p + [] == p;
    var m' := m[..|m| - 1];
    ParentValid(t, q);
    assert Parent(q) == p + m';
    assert Parent(q)[|p|..] == m';
    assert Last(q) == m[|m| - 1] == d;
    assert Spine(m', d) by {
      forall i | 0 <= i < |m'| ensures m'[i] == d {
        assert m'[i] == m[i];
      }
    }
    PrefixValid(At(t, p), m, |m| - 1);
  }

  // ---------------------------------------------------------------------------
  // remove

  /** Deleting the entry between l and r joins l and r. */
  lemma SpliceOut<V>(x: seq<Entry<V>>, e: Entry<V>, y: seq<Entry<V>>,
                     b: seq<Entry<V>>, l: seq<Entry<V>>, r: seq<Entry<V>>, a: seq<Entry<V>>)
    requires x == b + l && y == r + a && AllBelow(x, e.key) && AllAbove(y, e.key)
    requires Ordered(x + [e] + y)
    ensures Delete(x + [e] + y, e.key) == b + (l + r) + a
    ensures Ordered(b + (l + r) + a)
  {
    DeleteBetween(x, e, y);
    DeleteOrdered(x + [e] + y, e.key);
    assert x + y == b + (l + r) + a;
  }

  /** remove, when the node found has a sentinel child: splice in the other child. */
  lemma RemoveSpliced<V>(t: Tree<V>, k: int, p: Path, c: Tree<V>)
    requires Bst(t) && p == Search(t, k) && At(t, p).Node?
    requires At(t, p).left.Leaf? || At(t, p).right.Leaf?
    requires c == if At(t, p).left.Leaf? then At(t, p).right else At(t, p).left
    ensures Entries(Replace(t, p, c)) == Delete(Entries(t), k) && Bst(Replace(t, p, c))
    ensures NodeCount(Replace(t, p, c)) == NodeCount(t) - 2
  {
    var n := At(t, p);
    var x, y := FoundSplit(t, k);
    ReplaceContext(t, p, c);
    ReplaceCount(t, p, c);
    assert Entries(c) == Entries(n.left) + Entries(n.right);
    SpliceOut(x, n.entry, y, Before(t, p), Entries(n.left), Entries(n.right), After(t, p));
  }

  /**
   * remove, when the node found has two internal children: after its entry
   * is overwritten with the one at q (the end of the right spine of its left
   * subtree), splicing q out gives the tree with the entry deleted.
   */
  lemma PredecessorShape<V>(t: Tree<V>, p: Path, q: Path)
    requires ValidPath(t, p) && At(t, p).Node? && Extreme(t, p + [Left], q, Right)
    ensures ValidPath(SetEntry(t, p, At(t, q).entry), q)
    ensures At(SetEntry(t, p, At(t, q).entry), q) == At(t, q)
    ensures |p| + 1 <= |q| && ValidPath(At(t, p).left, q[|p| + 1..])
    ensures
      var n := At(t, p);
      var m := q[|p| + 1..];
      Replace(SetEntry(t, p, At(t, q).entry), q, At(t, q).left) ==
        Replace(t, p, n.(entry := At(t, q).entry, left := Replace(n.left, m, At(t, q).left)))
  {
    var n := At(t, p);
    var u := At(t, q);
    var m := q[|p| + 1..];
    StepDown(t, p, Left);
    assert q == p + [Left] + m;
    ExtremeRight(t, p + [Left], q);
    var n1 := n.(entry := u.entry);
    var t1 := Replace(t, p, n1);
    ReplaceAt(t, p, n1);
    StepDown(t1, p, Left);
    ValidPathAppend(t1, p + [Left], m);
    var l2 := Replace(n.left, m, u.left);
    ReplaceAppend(t1, p + [Left], m, u.left);
    ReplaceAppend(t1, p, [Left], l2);
    ReplaceTwice(t, p, n1, n1.(left := l2));
  }

  lemma RemovePredecessor<V>(t: Tree<V>, k: int, q: Path)
    requires Bst(t) && At(t, Search(t, k)).Node?
    requires Extreme(t, Search(t, k) + [Left], q, Right)
    ensures ValidPath(SetEntry(t, Search(t, k), At(t, q).entry), q)
    ensures
      var t1 := SetEntry(t, Search(t, k), At(t, q).entry);
      At(t1, q) == At(t, q) && At(t1, q).Node? &&
      var c := if At(t1, q).left.Leaf? then At(t1, q).right else At(t1, q).left;
      At(t1, q).right.Leaf? &&
      Entries(Replace(t1, q, c)) == Delete(Entries(t), k) && Bst(Replace(t1, q, c)) &&
      NodeCount(Replace(t1, q, c)) == NodeCount(t) - 2
  {
    var p := Search(t, k);
    var n := At(t, p);
    var u := At(t, q);
    var m := q[|p| + 1..];
    PredecessorShape(t, p, q);
    assert q[|p + [Left]|..] == m;
    ExtremeRight(t, p + [Left], q);
    StepDown(t, p, Left);
    var l2 := Replace(n.left, m, u.left);
    var n2 := n.(entry := u.entry, left := l2);
    var x, y := FoundSplit(t, k);
    ReplaceContext(t, p, n2);
    assert Entries(n2) == (Entries(l2) + [u.entry]) + Entries(n.right);
    SpliceOut(x, n.entry, y, Before(t, p), Entries(n.left), Entries(n.right), After(t, p));
    assert Entries(n.left) + Entries(n.right) == Entries(n2);
    ReplaceCount(n.left, m, u.left);
    ReplaceCount(t, p, n2);
  }

  // ---------------------------------------------------------------------------
  // The neighbour queries

  function First<V>(s: seq<Entry<V>>): Option<Entry<V>>
  {
    if s == [] then None else Some(s[0])
  }

  function LastOf<V>(s: seq<Entry<V>>): Option<Entry<V>>
  {
    if s == [] then None else Some(s[|s| - 1])
  }

  /**
   * ceilingEntry: the search finds the key, or else the ceiling is the first
   * entry after the sentinel it stops at.
   */
  lemma CeilingStart<V>(t: Tree<V>, k: int)
    requires Bst(t)
    ensures At(t, Search(t, k)).Node? ==> CeilingOf(Entries(t), k) == Some(At(t, Search(t, k)).entry)
    ensures At(t, Search(t, k)).Leaf? ==> CeilingOf(Entries(t), k) == First(After(t, Search(t, k)))
  {
    var p := Search(t, k);
    if At(t, p).Node? {
      var x, y := FoundSplit(t, k);
      assert Entries(t) == x + ([At(t, p).entry] + y);
      CeilingOfSkip(x, [At(t, p).entry] + y, k);
    } else {
      SearchSplits(t, k);
      Decompose(t, p);
      assert Entries(t) == Before(t, p) + After(t, p);
      CeilingOfSkip(Before(t, p), After(t, p), k);
    }
  }

  /** floorEntry: the key itself, or the last entry before the sentinel. */
  lemma FloorStart<V>(t: Tree<V>, k: int)
    requires Bst(t)
    ensures At(t, Search(t, k)).Node? ==> FloorOf(Entries(t), k) == Some(At(t, Search(t, k)).entry)
    ensures At(t, Search(t, k)).Leaf? ==> FloorOf(Entries(t), k) == LastOf(Before(t, Search(t, k)))
  {
    var p := Search(t, k);
    if At(t, p).Node? {
      var x, y := FoundSplit(t, k);
      FloorOfSkip(x + [At(t, p).entry], y, k);
    } else {
      SearchSplits(t, k);
      Decompose(t, p);
      assert Entries(t) == Before(t, p) + After(t, p);
      FloorOfSkip(Before(t, p), After(t, p), k);
    }
  }

  /**
   * lowerEntry: with the key found at an internal node whose left child is
   * internal, the answer is the last entry of that left subtree; otherwise
   * it is the last entry before the search position.
   */
  lemma LowerStart<V>(t: Tree<V>, k: int)
    requires Bst(t)
    ensures At(t, Search(t, k)).Node? && At(t, Search(t, k)).left.Node? ==>
      LowerOf(Entries(t), k) == LastOf(Entries(At(t, Search(t, k)).left))
    ensures !(At(t, Search(t, k)).Node? && At(t, Search(t, k)).left.Node?) ==>
      LowerOf(Entries(t), k) == LastOf(Before(t, Search(t, k)))
  {
    var p := Search(t, k);
    if At(t, p).Node? {
      LowerFound(t, k);
    } else {
      SearchSplits(t, k);
      Decompose(t, p);
      assert Entries(t) == Before(t, p) + After(t, p);
      LowerOfSkip(Before(t, p), After(t, p), k);
    }
  }

  lemma LowerFound<V>(t: Tree<V>, k: int)
    requires Bst(t) && At(t, Search(t, k)).Node?
    ensures LowerOf(Entries(t), k) ==
      LastOf(Before(t, Search(t, k)) + Entries(At(t, Search(t, k)).left))
    ensures At(t, Search(t, k)).left.Node? ==>
      LastOf(Before(t, Search(t, k)) + Entries(At(t, Search(t, k)).left)) ==
      LastOf(Entries(At(t, Search(t, k)).left))
  {
    var n := At(t, Search(t, k));
    var x, y := FoundSplit(t, k);
    assert Entries(t) == x + ([n.entry] + y);
    LowerOfSkip(x, [n.entry] + y, k);
  }

  /** higherEntry: symmetric to lowerEntry. */
  lemma HigherStart<V>(t: Tree<V>, k: int)
    requires Bst(t)
    ensures At(t, Search(t, k)).Node? && At(t, Search(t, k)).right.Node? ==>
      HigherOf(Entries(t), k) == First(Entries(At(t, Search(t, k)).right))
    ensures !(At(t, Search(t, k)).Node? && At(t, Search(t, k)).right.Node?) ==>
      HigherOf(Entries(t), k) == First(After(t, Search(t, k)))
  {
    var p := Search(t, k);
    SearchSplits(t, k);
    if At(t, p).Node? {
      var n := At(t, p);
      var x, y := FoundSplit(t, k);
      assert Entries(t) == (x + [n.entry]) + y;
      HigherOfSkip(x + [n.entry], y, k);
      if n.right.Leaf? {
        assert y == After(t, p);
      }
    } else {
      Decompose(t, p);
      assert Entries(t) == Before(t, p) + After(t, p);
      HigherOfSkip(Before(t, p), After(t, p), k);
    }
  }

  /** One step up from a left child: its parent's entry comes first after it. */
  lemma UpFromLeft<V>(t: Tree<V>, p: Path)
    requires ValidPath(t, p) && p != []
    ensures ValidPath(t, Parent(p)) && At(t, Parent(p)).Node?
    ensures Last(p) == Left ==> First(After(t, p)) == Some(At(t, Parent(p)).entry)
    ensures Last(p) == Right ==> After(t, p) == After(t, Parent(p))
  {
    ParentValid(t, p);
    assert Parent(p) + [Last(p)] == p;
    ContextStep(t, Parent(p), Last(p));
  }

  /** One step up from a right child: its parent's entry comes last before it. */
  lemma UpFromRight<V>(t: Tree<V>, p: Path)
    requires ValidPath(t, p) && p != []
    ensures ValidPath(t, Parent(p)) && At(t, Parent(p)).Node?
    ensures Last(p) == Right ==> LastOf(Before(t, p)) == Some(At(t, Parent(p)).entry)
    ensures Last(p) == Left ==> Before(t, p) == Before(t, Parent(p))
  {
    ParentValid(t, p);
    assert Parent(p) + [Last(p)] == p;
    ContextStep(t, Parent(p), Last(p));
  }

  // ---------------------------------------------------------------------------
  // Iteration

  /**
   * tree.inorder(): the positions holding an element (the internal nodes),
   * left subtree first.
   */
  function InorderPositions<V>(t: Tree<V>): seq<Path>
  {
    if t.Leaf? then []
    else Under(Left, InorderPositions(t.left)) + [[]] + Under(Right, InorderPositions(t.right))
  }

  /** The i-th in-order position is an internal node holding the i-th entry. */
  lemma {:induction false} InorderPositionsMeaning<V>(t: Tree<V>)
    ensures |InorderPositions(t)| == |Entries(t)|
    ensures forall i :: 0 <= i < |InorderPositions(t)| ==>
      ValidPath(t, InorderPositions(t)[i]) && At(t, InorderPositions(t)[i]).Node? &&
      At(t, InorderPositions(t)[i]).entry == Entries(t)[i]
  {
    if t.Node? {
      InorderPositionsMeaning(t.left);
      InorderPositionsMeaning(t.right);
      var ps := InorderPositions(t);
      var l, r := InorderPositions(t.left), InorderPositions(t.right);
      forall i | 0 <= i < |ps|
        ensures ValidPath(t, ps[i]) && At(t, ps[i]).Node? && At(t, ps[i]).entry == Entries(t)[i]
      {
        if i < |l| {
          assert ps[i] == [Left] + l[i];
          assert ps[i][1..] == l[i];
        } else if i == |l| {
          assert ps[i] == [];
        } else {
          var j := i - |l| - 1;
          assert ps[i] == [Right] + r[j];
          assert ps[i][1..] == r[j];
          assert Entries(t)[i] == Entries(t.right)[j];
        }
      }
    }
  }

  /** subMapRecurse on the subtree s, appending to buffer. */
  function SubMapRecurse<V>(from: int, to: int, s: Tree<V>, buffer: seq<Entry<V>>): seq<Entry<V>>
  {
    if s.Leaf? then buffer
    else if s.entry.key < from then SubMapRecurse(from, to, s.right, buffer)
    else
      var b := SubMapRecurse(from, to, s.left, buffer);
      if s.entry.key < to then SubMapRecurse(from, to, s.right, b + [s.entry]) else b
  }

  /** The range of a node's in-order sequence, by where the node's key falls. */
  lemma RangeNode<V>(l: seq<Entry<V>>, e: Entry<V>, r: seq<Entry<V>>, from: int, to: int)
    requires AllBelow(l, e.key) && AllAbove(r, e.key)
    ensures e.key < from ==> Range(l + [e] + r, from, to) == Range(r, from, to)
    ensures from <= e.key < to ==>
      Range(l + [e] + r, from, to) == Range(l, from, to) + [e] + Range(r, from, to)
    ensures from <= e.key && to <= e.key ==> Range(l + [e] + r, from, to) == Range(l, from, to)
  {
    RangeAppend(l + [e], r, from, to);
    RangeAppend(l, [e], from, to);
    if e.key < from {
      RangeNone(l, from, to);
    }
    if to <= e.key {
      RangeNone(r, from, to);
    }
  }

  /** In a search tree, the recursion appends exactly the entries in [from, to), in order. */
  lemma {:induction false} SubMapRecurseMeaning<V>(from: int, to: int, s: Tree<V>, buffer: seq<Entry<V>>)
    requires Bst(s)
    ensures SubMapRecurse(from, to, s, buffer) == buffer + Range(Entries(s), from, to)
  {
    if s.Leaf? {
      assert buffer + [] == buffer;
    } else {
      var l, e, r := Entries(s.left), s.entry, Entries(s.right);
      BstNode(s);
      RangeNode(l, e, r, from, to);
      if e.key < from {
        SubMapRecurseMeaning(from, to, s.right, buffer);
      } else {
        SubMapRecurseMeaning(from, to, s.left, buffer);
        var b := SubMapRecurse(from, to, s.left, buffer);
        if e.key < to {
          SubMapRecurseMeaning(from, to, s.right, b + [e]);
          assert b + [e] + Range(r, from, to) ==
            buffer + (Range(l, from, to) + [e] + Range(r, from, to));
        }
      }
    }
  }

  /**
   * Treap.put on a key that is present draws a new priority for its node and
   * only rotates it up. A treap holding 1 (priority 500) above 2 (priority
   * 100): putting 1 again with the draw 50 leaves 1 at the root with a child
   * of higher priority.
   */
  lemma ReputBreaksHeap()
    ensures
      var t: Tree<int> := Node(Leaf, Entry(1, 1), Node(Leaf, Entry(2, 2), Leaf, 0, 100), 0, 500);
      Bst(t) && Treap.Heap(t) && !Treap.Heap(t.(entry := Entry(1, 1), priority := 50))
  {
    var t: Tree<int> := Node(Leaf, Entry(1, 1), Node(Leaf, Entry(2, 2), Leaf, 0, 100), 0, 500);
    assert Entries(t) == [Entry(1, 1), Entry(2, 2)];
  }

  // ---------------------------------------------------------------------------
  // The map

  /** Which class the map is: TreeMap itself, AVLTreeMap or Treap. */
  datatype Balancing = NoBalancing | AvlBalancing | TreapBalancing

  class TreeMap<V> {
    /** The linked tree; its leaves are sentinels. */
    var tree: Tree<V>
    /** tree.size(): internal nodes and sentinels. */
    var nodes: int
    const balancing: Balancing

    ghost predicate Valid()
      reads this
    {
      Bst(tree) && nodes == NodeCount(tree) &&
      (balancing == AvlBalancing ==> AVL.AvlTree(tree))
    }

    /** An empty map: the root is a sentinel. */
    constructor(b: Balancing)
      ensures Valid() && balancing == b
      ensures tree == Leaf && nodes == 1 && Entries(tree) == [] && Treap.Heap(tree)
    {
      tree := Leaf;
      nodes := 1;
      balancing := b;
    }

    /** size(): one entry per internal node. */
    function Size(): (n: int)
      reads this
      requires Valid()
      ensures n == |Entries(tree)|
    {
      NodeCountIsOdd(tree);
      (nodes - 1) / 2
    }

    /** treeMin(p): the leftmost internal node below p, or the parent of a sentinel p. */
    method TreeMin(p: Path) returns (r: Option<Path>)
      requires ValidPath(tree, p)
      ensures At(tree, p).Leaf? ==> r == if p == [] then None else Some(Parent(p))
      ensures At(tree, p).Node? ==> r.Some? && Extreme(tree, p, r.value, Left)
    {
      var current := p;
      ghost var m: Path := [];
      assert p + m == p;
      while At(tree, current).Node?
        invariant current == p + m && Spine(m, Left)
        invariant ValidPath(tree, current) && ValidPath(At(tree, p), m)
        decreases InternalCount(At(tree, current))
      {
        SpineStep(tree, p, m, Left);
        current, m := current + [Left], m + [Left];
      }
      if At(tree, p).Node? {
        SpineEnd(tree, p, m, Left);
      }
      if current == [] {
        r := None;
      } else {
        r := Some(Parent(current));
      }
    }

    /** treeMax(p): the rightmost internal node below p, or the parent of a sentinel p. */
    method TreeMax(p: Path) returns (r: Option<Path>)
      requires ValidPath(tree, p)
      ensures At(tree, p).Leaf? ==> r == if p == [] then None else Some(Parent(p))
      ensures At(tree, p).Node? ==> r.Some? && Extreme(tree, p, r.value, Right)
    {
      var current := p;
      ghost var m: Path := [];
      assert p + m == p;
      while At(tree, current).Node?
        invariant current == p + m && Spine(m, Right)
        invariant ValidPath(tree, current) && ValidPath(At(tree, p), m)
        decreases InternalCount(At(tree, current))
      {
        SpineStep(tree, p, m, Right);
        current, m := current + [Right], m + [Right];
      }
      if At(tree, p).Node? {
        SpineEnd(tree, p, m, Right);
      }
      if current == [] {
        r := None;
      } else {
        r := Some(Parent(current));
      }
    }

    /** get: the value stored under k, or nothing. */
    method Get(k: int) returns (r: Option<V>)
      requires Valid()
      ensures r == Lookup(Entries(tree), k)
    {
      var p := Search(tree, k);
      LookupAtSearch(tree, k);
      if At(tree, p).Leaf? {
        return None;
      }
      return Some(At(tree, p).entry.value);
    }

    /** expandExternal: the sentinel at p takes the entry and two new sentinels. */
    method ExpandExternal(p: Path, e: Entry<V>)
      requires ValidPath(tree, p) && At(tree, p).Leaf?
      modifies this
      ensures tree == Replace(old(tree), p, Node(Leaf, e, Leaf, 0, 0))
      ensures nodes == old(nodes) + 2
    {
      tree := Replace(tree, p, Node(Leaf, e, Leaf, 0, 0));
      nodes := nodes + 2;
    }

    /**
     * rebalanceInsert(p): nothing in TreeMap; AVLTreeMap restores the AVL
     * property from p upwards; Treap rotates p up while its priority beats
     * its parent's.
     */
    method RebalanceInsert(p: Path, ghost before: Tree<V>)
      requires ValidPath(before, p) && At(before, p).Leaf?
      requires ValidPath(tree, p) && tree == Replace(before, p, At(tree, p)) && Bst(tree)
      requires At(tree, p).Node? && At(tree, p).left.Leaf? && At(tree, p).right.Leaf?
      requires At(tree, p).aux == 0
      requires balancing == AvlBalancing ==> AVL.AvlTree(before)
      modifies this
      ensures Entries(tree) == Entries(old(tree)) && NodeCount(tree) == NodeCount(old(tree))
      ensures nodes == old(nodes)
      ensures balancing == NoBalancing ==> tree == old(tree)
      ensures balancing == AvlBalancing ==> AVL.AvlTree(tree)
      ensures balancing == TreapBalancing && Treap.HeapExcept(old(tree), p) ==> Treap.Heap(tree)
      ensures balancing == TreapBalancing ==>
        Priority(At(tree, Search(tree, At(old(tree), p).entry.key))) == At(old(tree), p).priority
    {
      if balancing == AvlBalancing {
        tree := AVL.RebalanceInsert(tree, p, before);
      } else if balancing == TreapBalancing {
        var t, q := Treap.BubbleUp(tree, p);
        tree := t;
        SearchUnique(tree, q, At(old(tree), p).entry.key);
      }
    }

    /**
     * rebalanceDelete at the position of the spliced-in child: nothing in
     * TreeMap and Treap; AVLTreeMap rebalances from its parent upwards.
     */
    method RebalanceDelete(p: Path, ghost before: Tree<V>)
      requires ValidPath(before, p) && At(before, p).Node?
      requires At(before, p).left.Leaf? || At(before, p).right.Leaf?
      requires tree == Replace(before, p,
        if At(before, p).left.Leaf? then At(before, p).right else At(before, p).left)
      requires balancing == AvlBalancing ==> AVL.AvlTree(before)
      modifies this
      ensures Entries(tree) == Entries(old(tree)) && NodeCount(tree) == NodeCount(old(tree))
      ensures nodes == old(nodes)
      ensures balancing != AvlBalancing ==> tree == old(tree)
      ensures balancing == AvlBalancing ==> AVL.AvlTree(tree)
      ensures balancing == AvlBalancing && p == [] ==> tree == old(tree)
    {
      if balancing == AvlBalancing {
        tree := AVL.RebalanceDelete(tree, p, before);
      }
    }

    /** TreeMap.put: insert at the sentinel the search stops at, or replace the entry found. */
    method PutEntry(k: int, v: V) returns (r: Option<V>)
      requires Valid()
      modifies this
      ensures Valid()
      ensures r == Lookup(old(Entries(tree)), k)
      ensures Entries(tree) == Upsert(old(Entries(tree)), Entry(k, v))
      ensures nodes == old(nodes) + (if r.None? then 2 else 0)
      ensures balancing == TreapBalancing && r.None? && Treap.Heap(old(tree)) ==>
        Treap.Heap(tree) && Priority(At(tree, Search(tree, k))) == 0
      ensures balancing == TreapBalancing && r.Some? && Treap.Heap(old(tree)) ==> Treap.Heap(tree)
      ensures (balancing != AvlBalancing && At(old(tree), Search(old(tree), k)).Node?) ==>
        tree == SetEntry(old(tree), Search(old(tree), k), Entry(k, v))
    {
      var e := Entry(k, v);
      var p := Search(tree, k);
      LookupAtSearch(tree, k);
      if At(tree, p).Leaf? {
        ghost var before := tree;
        var n := Node(Leaf, e, Leaf, 0, 0);
        InsertAtSearch(tree, k, n);
        if balancing == TreapBalancing && Treap.Heap(before) {
          Treap.InsertHeapExcept(before, p, n);
        }
        ExpandExternal(p, e);
        ReplaceAt(before, p, n);
        ReplaceCount(before, p, n);
        RebalanceInsert(p, before);
        r := None;
      } else {
        r := Some(At(tree, p).entry.value);
        ReplaceAtSearch(tree, k, e);
        if balancing == AvlBalancing {
          AVL.AvlSetEntry(tree, p, e);
        } else if balancing == TreapBalancing {
          Treap.HeapSetEntry(tree, p, e);
        }
        ReplaceCount(tree, p, At(tree, p).(entry := e));
        tree := SetEntry(tree, p, e);
      }
    }

    /**
     * put. Treap: after TreeMap.put, the node holding k gets the priority
     * drawn from [0, 1000) and is rotated up while it beats its parent.
     */
    method Put(k: int, v: V, draw: int) returns (r: Option<V>)
      requires Valid()
      requires balancing == TreapBalancing ==> 0 <= draw < 1000
      modifies this
      ensures Valid()
      ensures r == Lookup(old(Entries(tree)), k)
      ensures Entries(tree) == Upsert(old(Entries(tree)), Entry(k, v))
      ensures nodes == old(nodes) + (if r.None? then 2 else 0)
      ensures balancing == TreapBalancing ==> Priority(At(tree, Search(tree, k))) == draw
      ensures balancing == TreapBalancing && r.None? && Treap.Heap(old(tree)) ==> Treap.Heap(tree)
      ensures (balancing == TreapBalancing && old(tree).Node? && old(tree).entry.key == k) ==>
        tree == old(tree).(entry := Entry(k, v), priority := draw)
    {
      ghost var t0 := tree;
      r := PutEntry(k, v);
      if balancing == TreapBalancing {
        var p := Search(tree, k);
        LookupUpsert(Entries(t0), Entry(k, v), k);
        LookupAtSearch(tree, k);
        ghost var t1 := tree;
        if r.None? && Treap.Heap(t0) {
          Treap.RaiseHeapExcept(t1, p, draw);
        }
        Treap.SetPriorityFacts(t1, p, draw, p);
        ReplaceAt(t1, p, At(t1, p).(priority := draw));
        tree := Treap.SetPriority(tree, p, draw);
        var t, q := Treap.BubbleUp(tree, p);
        tree := t;
        SearchUnique(tree, q, k);
      }
    }

    /**
     * put as it was evidently meant for Treap: only a new node draws a
     * priority and bubbles up; replacing the value of a present key leaves
     * its priority, so the heap order is kept by every put.
     */
    method PutCorrected(k: int, v: V, draw: int) returns (r: Option<V>)
      requires Valid()
      requires balancing == TreapBalancing ==> 0 <= draw < 1000
      modifies this
      ensures Valid()
      ensures r == Lookup(old(Entries(tree)), k)
      ensures Entries(tree) == Upsert(old(Entries(tree)), Entry(k, v))
      ensures nodes == old(nodes) + (if r.None? then 2 else 0)
      ensures balancing == TreapBalancing && r.None? ==> Priority(At(tree, Search(tree, k))) == draw
      ensures balancing == TreapBalancing && Treap.Heap(old(tree)) ==> Treap.Heap(tree)
    {
      ghost var t0 := tree;
      r := PutEntry(k, v);
      if balancing == TreapBalancing && r.None? {
        var p := Search(tree, k);
        LookupUpsert(Entries(t0), Entry(k, v), k);
        LookupAtSearch(tree, k);
        ghost var t1 := tree;
        if Treap.Heap(t0) {
          Treap.RaiseHeapExcept(t1, p, draw);
        }
        Treap.SetPriorityFacts(t1, p, draw, p);
        ReplaceAt(t1, p, At(t1, p).(priority := draw));
        tree := Treap.SetPriority(tree, p, draw);
        var t, q := Treap.BubbleUp(tree, p);
        tree := t;
        SearchUnique(tree, q, k);
      }
    }

    /** TreeMap.remove: splice out the node found, or its in-order predecessor. */
    method RemoveEntry(k: int) returns (r: Option<V>)
      requires Valid()
      modifies this
      ensures Valid()
      ensures r == Lookup(old(Entries(tree)), k)
      ensures Entries(tree) == Delete(old(Entries(tree)), k)
      ensures nodes == old(nodes) - (if r.None? then 0 else 2)
      ensures r.None? ==> tree == old(tree)
      ensures (balancing != AvlBalancing && At(old(tree), Search(old(tree), k)).Node? &&
               At(old(tree), Search(old(tree), k)).left.Leaf? &&
               At(old(tree), Search(old(tree), k)).right.Leaf?) ==>
        tree == Replace(old(tree), Search(old(tree), k), Leaf)
    {
      var p := Search(tree, k);
      LookupAtSearch(tree, k);
      if At(tree, p).Leaf? {
        SearchFinds(tree, k);
        DeleteAbsent(Entries(tree), k);
        return None;
      }
      r := Some(At(tree, p).entry.value);
      if At(tree, p).left.Node? && At(tree, p).right.Node? {
        StepDown(tree, p, Left);
        var replacement := TreeMax(p + [Left]);
        var q := replacement.value;
        RemovePredecessor(tree, k, q);
        if balancing == AvlBalancing {
          AVL.AvlSetEntry(tree, p, At(tree, q).entry);
        }
        tree := SetEntry(tree, p, At(tree, q).entry);
        p := q;
      } else {
        RemoveSpliced(tree, k, p, if At(tree, p).left.Leaf? then At(tree, p).right else At(tree, p).left);
      }
      ghost var before := tree;
      var sibling := if At(tree, p).left.Leaf? then At(tree, p).right else At(tree, p).left;
      tree := Replace(tree, p, sibling);
      nodes := nodes - 2;
      RebalanceDelete(p, before);
    }

    /**
     * remove. Treap: rotate the node holding k down until both its children
     * are sentinels, then TreeMap.remove.
     */
    method Remove(k: int) returns (r: Option<V>)
      requires Valid()
      modifies this
      ensures Valid()
      ensures r == Lookup(old(Entries(tree)), k)
      ensures Entries(tree) == Delete(old(Entries(tree)), k)
      ensures nodes == old(nodes) - (if r.None? then 0 else 2)
      ensures r.None? ==> tree == old(tree)
      ensures balancing == TreapBalancing && Treap.Heap(old(tree)) ==> Treap.Heap(tree)
    {
      if balancing != TreapBalancing {
        r := RemoveEntry(k);
        return;
      }
      var p := Search(tree, k);
      if At(tree, p).Node? && At(tree, p).entry.key == k {
        var t, q := Treap.RotateDown(tree, p);
        tree := t;
        SearchUnique(tree, q, k);
        LookupAtSearch(tree, k);
        r := RemoveEntry(k);
      } else {
        LookupAtSearch(tree, k);
        SearchFinds(tree, k);
        DeleteAbsent(Entries(tree), k);
        r := None;
      }
    }

    /** firstEntry: the entry with the least key, or nothing when empty. */
    method FirstEntry() returns (r: Option<Entry<V>>)
      requires Valid()
      ensures r == First(Entries(tree))
    {
      if Size() == 0 {
        return None;
      }
      var q := TreeMin([]);
      ExtremeLeft(tree, [], q.value);
      return Some(At(tree, q.value).entry);
    }

    /** lastEntry: the entry with the greatest key, or nothing when empty. */
    method LastEntry() returns (r: Option<Entry<V>>)
      requires Valid()
      ensures r == LastOf(Entries(tree))
    {
      if Size() == 0 {
        return None;
      }
      var q := TreeMax([]);
      ExtremeRight(tree, [], q.value);
      return Some(At(tree, q.value).entry);
    }

    /** ceilingEntry: the entry with the least key at or above k. */
    method CeilingEntry(k: int) returns (r: Option<Entry<V>>)
      requires Valid()
      ensures r == CeilingOf(Entries(tree), k)
    {
      var p := Search(tree, k);
      CeilingStart(tree, k);
      if At(tree, p).Node? {
        return Some(At(tree, p).entry);
      }
      ghost var p0 := p;
      while p != []
        invariant ValidPath(tree, p) && After(tree, p) == After(tree, p0)
      {
        UpFromLeft(tree, p);
        if Last(p) == Left {
          return Some(At(tree, Parent(p)).entry);
        }
        p := Parent(p);
      }
      return None;
    }

    /** floorEntry: the entry with the greatest key at or below k. */
    method FloorEntry(k: int) returns (r: Option<Entry<V>>)
      requires Valid()
      ensures r == FloorOf(Entries(tree), k)
    {
      var p := Search(tree, k);
      FloorStart(tree, k);
      if At(tree, p).Node? {
        return Some(At(tree, p).entry);
      }
      ghost var p0 := p;
      while p != []
        invariant ValidPath(tree, p) && Before(tree, p) == Before(tree, p0)
      {
        UpFromRight(tree, p);
        if Last(p) == Right {
          return Some(At(tree, Parent(p)).entry);
        }
        p := Parent(p);
      }
      return None;
    }

    /** lowerEntry: the entry with the greatest key strictly below k. */
    method LowerEntry(k: int) returns (r: Option<Entry<V>>)
      requires Valid()
      ensures r == LowerOf(Entries(tree), k)
    {
      var p := Search(tree, k);
      LowerStart(tree, k);
      if At(tree, p).Node? && At(tree, p).left.Node? {
        StepDown(tree, p, Left);
        var q := TreeMax(p + [Left]);
        ExtremeRight(tree, p + [Left], q.value);
        return Some(At(tree, q.value).entry);
      }
      ghost var p0 := p;
      while p != []
        invariant ValidPath(tree, p) && Before(tree, p) == Before(tree, p0)
      {
        UpFromRight(tree, p);
        if Last(p) == Right {
          return Some(At(tree, Parent(p)).entry);
        }
        p := Parent(p);
      }
      return None;
    }

    /** higherEntry: the entry with the least key strictly above k. */
    method HigherEntry(k: int) returns (r: Option<Entry<V>>)
      requires Valid()
      ensures r == HigherOf(Entries(tree), k)
    {
      var p := Search(tree, k);
      HigherStart(tree, k);
      if At(tree, p).Node? && At(tree, p).right.Node? {
        StepDown(tree, p, Right);
        var q := TreeMin(p + [Right]);
        ExtremeLeft(tree, p + [Right], q.value);
        return Some(At(tree, q.value).entry);
      }
      ghost var p0 := p;
      while p != []
        invariant ValidPath(tree, p) && After(tree, p) == After(tree, p0)
      {
        UpFromLeft(tree, p);
        if Last(p) == Left {
          return Some(At(tree, Parent(p)).entry);
        }
        p := Parent(p);
      }
      return None;
    }

    /** entrySet: the entries of the internal positions in in-order order. */
    method EntrySet() returns (buffer: seq<Entry<V>>)
      requires Valid()
      ensures buffer == Entries(tree) && Ordered(buffer)
    {
      var positions := InorderPositions(tree);
      InorderPositionsMeaning(tree);
      buffer := [];
      var i := 0;
      while i < |positions|
        invariant 0 <= i <= |positions|
        invariant buffer == Entries(tree)[..i]
      {
        if At(tree, positions[i]).Node? {
          buffer := buffer + [At(tree, positions[i]).entry];
        }
        i := i + 1;
      }
    }

    /** subMap(from, to): the entries with from <= key < to, in key order. */
    method SubMap(from: int, to: int) returns (buffer: seq<Entry<V>>)
      requires Valid()
      ensures buffer == Range(Entries(tree), from, to) && Ordered(buffer)
      ensures forall e :: e in buffer <==> e in Entries(tree) && from <= e.key < to
    {
      buffer := [];
      RangeOrdered(Entries(tree), from, to);
      RangeMembers(Entries(tree), from, to);
      if from < to {
        buffer := SubMapRecurse(from, to, tree, buffer);
        SubMapRecurseMeaning(from, to, tree, []);
      } else {
        RangeNone(Entries(tree), from, to);
      }
    }
  }
}

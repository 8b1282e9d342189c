/**
 * Treap: the tree map whose nodes also carry a priority. Insertion bubbles
 * the new node up by single rotations while its priority exceeds its
 * parent's; removal first rotates the node down, lifting its child of higher
 * priority, until both its children are sentinels. The heap order kept is
 * "a parent's priority is at least each internal child's".
 */
module Treap {
  import opened Wrappers
  import opened BalanceableBinaryTree

  // ---------------------------------------------------------------------------
  // Priorities (the priority field of a treap node)

  /** getPriority(p) / priority(p): the priority stored at an internal node. */
  function GetPriority<V>(t: Tree<V>, p: Path): (pr: int)
    requires ValidPath(t, p) && At(t, p).Node?
  {
    At(t, p).priority
  }

  /** setPriority(p, priority): overwrite the priority of one internal node. */
  function SetPriority<V>(t: Tree<V>, p: Path, pr: int): Tree<V>
    requires ValidPath(t, p) && At(t, p).Node?
  {
    Replace(t, p, At(t, p).(priority := pr))
  }

  /**
   * Setting a priority and reading it back gives the value set; the shape,
   * the entries and every other node's priority are unchanged.
   */
  lemma {:induction false} SetPriorityFacts<V>(t: Tree<V>, p: Path, pr: int, q: Path)
    requires ValidPath(t, p) && At(t, p).Node? && ValidPath(t, q)
    ensures ValidPath(SetPriority(t, p, pr), p) && At(SetPriority(t, p, pr), p).Node?
    ensures GetPriority(SetPriority(t, p, pr), p) == pr
    ensures ValidPath(SetPriority(t, p, pr), q)
    ensures q != p ==> Priority(At(SetPriority(t, p, pr), q)) == Priority(At(t, q))
    ensures Entries(SetPriority(t, p, pr)) == Entries(t)
    ensures NodeCount(SetPriority(t, p, pr)) == NodeCount(t)
    decreases |p|
  {
    var n := At(t, p).(priority := pr);
    ReplaceAt(t, p, n);
    if p == [] {
    } else {
      var c := Child(t, p[0]);
      assert SetPriority(t, p, pr) == WithChild(t, p[0], SetPriority(c, p[1..], pr));
      if q != [] && q[0] == p[0] {
        SetPriorityFacts(c, p[1..], pr, q[1..]);
        assert q[1..] != p[1..] || q == p by {
          if q[1..] == p[1..] {
            assert q == [q[0]] + q[1..] && p == [p[0]] + p[1..];
          }
        }
      } else {
        SetPriorityFacts(c, p[1..], pr, p[1..]);
      }
    }
  }

  // ---------------------------------------------------------------------------
  // Heap order

  /** c is a sentinel or an internal node whose priority is at most pr. */
  ghost predicate Below<V>(c: Tree<V>, pr: int)
  {
    c.Leaf? || c.priority <= pr
  }

  /** Every internal node's priority is at least each internal child's. */
  ghost predicate Heap<V>(t: Tree<V>)
  {
    t.Leaf? ||
    (Heap(t.left) && Heap(t.right) && Below(t.left, t.priority) && Below(t.right, t.priority))
  }

  /**
   * The state while a node at p bubbles up: the heap order holds everywhere
   * except between p and its parent, and p's children are also below p's
   * parent (so that rotating p up keeps them in order).
   */
  ghost predicate HeapExcept<V>(t: Tree<V>, p: Path)
    decreases |p|
  {
    if p == [] then Heap(t)
    else
      t.Node? && Heap(Child(t, Flip(p[0]))) && Below(Child(t, Flip(p[0])), t.priority) &&
      var c := Child(t, p[0]);
      if |p| == 1 then
        c.Node? && Heap(c) && Below(c.left, t.priority) && Below(c.right, t.priority)
      else
        Below(c, t.priority) && HeapExcept(c, p[1..])
  }

  /**
   * The state while a node at p is rotated down: the heap order holds
   * everywhere except between p and its parent and between p and its
   * children, and p's children are below p's parent.
   */
  ghost predicate HeapDown<V>(t: Tree<V>, p: Path)
    decreases |p|
  {
    if p == [] then t.Node? && Heap(t.left) && Heap(t.right)
    else
      t.Node? && Heap(Child(t, Flip(p[0]))) && Below(Child(t, Flip(p[0])), t.priority) &&
      var c := Child(t, p[0]);
      if |p| == 1 then
        c.Node? && Heap(c.left) && Heap(c.right) && Below(c.left, t.priority) && Below(c.right, t.priority)
      else
        Below(c, t.priority) && HeapDown(c, p[1..])
  }

  lemma HeapBelow<V>(t: Tree<V>, pr: int)
    requires Heap(t) && Below(t, pr)
    ensures t.Node? ==> Below(t.left, pr) && Below(t.right, pr)
  {
  }

  /** A new node with sentinel children put in place of a sentinel of a heap may only break the order with its parent. */
  lemma {:induction false} InsertHeapExcept<V>(t: Tree<V>, p: Path, n: Tree<V>)
    requires Heap(t) && ValidPath(t, p) && n.Node? && n.left.Leaf? && n.right.Leaf?
    ensures HeapExcept(Replace(t, p, n), p)
    decreases |p|
  {
    if p != [] {
      var c := Child(t, p[0]);
      assert Replace(t, p, n) == WithChild(t, p[0], Replace(c, p[1..], n));
      if |p| > 1 {
        InsertHeapExcept(c, p[1..], n);
        assert Replace(c, p[1..], n).priority == c.priority;
      } else {
        assert p[1..] == [];
      }
    }
  }

  /** Raising the priority of a node of a heap may only break the order with its parent. */
  lemma {:induction false} RaiseHeapExcept<V>(t: Tree<V>, p: Path, pr: int)
    requires Heap(t) && ValidPath(t, p) && At(t, p).Node? && pr >= At(t, p).priority
    ensures HeapExcept(SetPriority(t, p, pr), p)
    decreases |p|
  {
    var n := At(t, p).(priority := pr);
    if p != [] {
      var c := Child(t, p[0]);
      assert SetPriority(t, p, pr) == WithChild(t, p[0], SetPriority(c, p[1..], pr));
      if |p| > 1 {
        RaiseHeapExcept(c, p[1..], pr);
        assert SetPriority(c, p[1..], pr).priority == c.priority;
      } else {
        assert p[1..] == [];
        HeapBelow(c, t.priority);
      }
    }
  }

  /** Locally: rotating a child of higher priority above its parent z. */
  lemma LocalBubble<V>(z: Tree<V>, d: Dir)
    requires HeapExcept(z, [d]) && Child(z, d).Node? && Child(z, d).priority > z.priority
    ensures Heap(RotateUp(z, d))
    ensures Below(Child(RotateUp(z, d), d), z.priority)
    ensures Child(RotateUp(z, d), Flip(d)).priority == z.priority
  {
    assert [d][0] == d;
    var x, r := Child(z, d), RotateUp(z, d);
    var y := Child(r, Flip(d));
    assert Heap(x) && Heap(Child(z, Flip(d))) && Below(Child(z, Flip(d)), z.priority);
    if d == Left {
      assert y == z.(left := x.right) && r == x.(right := y);
      assert Heap(y);
    } else {
      assert y == z.(right := x.left) && r == x.(left := y);
      assert Heap(y);
    }
  }

  /**
   * One step of bubbling up: rotating the node at q + [d] above its parent
   * moves the single out-of-order pair one level up.
   */
  lemma {:induction false} BubbleStep<V>(t: Tree<V>, q: Path, d: Dir)
    requires ValidPath(t, q) && At(t, q).Node? && Child(At(t, q), d).Node?
    requires HeapExcept(t, q + [d]) && Child(At(t, q), d).priority > At(t, q).priority
    ensures HeapExcept(Replace(t, q, RotateUp(At(t, q), d)), q)
    decreases |q|
  {
    if q == [] {
      assert q + [d] == [d];
      LocalBubble(t, d);
    } else {
      var c := Child(t, q[0]);
      var r := RotateUp(At(t, q), d);
      assert (q + [d])[0] == q[0] && (q + [d])[1..] == q[1..] + [d];
      assert Replace(t, q, r) == WithChild(t, q[0], Replace(c, q[1..], r));
      if |q| == 1 {
        assert q[1..] == [] && q[1..] + [d] == [d];
        LocalBubble(c, d);
      } else {
        BubbleStep(c, q[1..], d);
        assert Replace(c, q[1..], r).priority == c.priority;
      }
    }
  }

  /** Before rotating a node of a heap down, it is exempt from the order with its children. */
  lemma {:induction false} HeapDownInit<V>(t: Tree<V>, p: Path)
    requires Heap(t) && ValidPath(t, p) && At(t, p).Node?
    ensures HeapDown(t, p)
    decreases |p|
  {
    if p != [] {
      var c := Child(t, p[0]);
      if |p| > 1 {
        HeapDownInit(c, p[1..]);
      } else {
        HeapBelow(c, t.priority);
      }
    }
  }

  /** Locally: rotating the child of higher priority (or the only internal one) above the node. */
  lemma LocalDown<V>(s: Tree<V>, d: Dir)
    requires s.Node? && Heap(s.left) && Heap(s.right) && Child(s, d).Node?
    requires Below(Child(s, Flip(d)), Child(s, d).priority)
    ensures HeapDown(RotateUp(s, d), [Flip(d)])
  {
    assert [Flip(d)][0] == Flip(d) && Flip(Flip(d)) == d;
  }

  /** One step of rotating down: the node moves to the other side below its lifted child. */
  lemma {:induction false} DownStep<V>(t: Tree<V>, p: Path, d: Dir)
    requires ValidPath(t, p) && At(t, p).Node? && Child(At(t, p), d).Node?
    requires HeapDown(t, p) && Below(Child(At(t, p), Flip(d)), Child(At(t, p), d).priority)
    ensures HeapDown(Replace(t, p, RotateUp(At(t, p), d)), p + [Flip(d)])
    decreases |p|
  {
    var r := RotateUp(At(t, p), d);
    if p == [] {
      assert p + [Flip(d)] == [Flip(d)];
      LocalDown(t, d);
    } else {
      var c := Child(t, p[0]);
      assert (p + [Flip(d)])[0] == p[0] && (p + [Flip(d)])[1..] == p[1..] + [Flip(d)];
      assert Replace(t, p, r) == WithChild(t, p[0], Replace(c, p[1..], r));
      if |p| == 1 {
        assert p[1..] == [] && p[1..] + [Flip(d)] == [Flip(d)];
        LocalDown(c, d);
      } else {
        DownStep(c, p[1..], d);
        assert Replace(c, p[1..], r).priority == c.priority;
      }
    }
  }

  /** A node rotated down to sentinel children can be cut off, leaving a heap. */
  lemma {:induction false} HeapDownRemove<V>(t: Tree<V>, p: Path)
    requires ValidPath(t, p) && HeapDown(t, p) && At(t, p).Node?
    requires At(t, p).left.Leaf? && At(t, p).right.Leaf?
    ensures Heap(Replace(t, p, Leaf))
    decreases |p|
  {
    if p != [] {
      var c := Child(t, p[0]);
      assert Replace(t, p, Leaf) == WithChild(t, p[0], Replace(c, p[1..], Leaf));
      if |p| > 1 {
        HeapDownRemove(c, p[1..]);
        assert Replace(c, p[1..], Leaf).priority == c.priority;
      } else {
        assert p[1..] == [];
      }
    }
  }

  // ---------------------------------------------------------------------------
  // rebalanceInsert and the rotate-down loop of remove

  /**
   * rebalanceInsert(p): while p is not the root and its priority exceeds its
   * parent's, rotate p above its parent. Returns the tree and the node's
   * final position; it stops at the root or below a parent of no smaller
   * priority. When the heap order held except at p, it holds everywhere.
   */
  method BubbleUp<V>(t0: Tree<V>, p0: Path) returns (t: Tree<V>, p: Path)
    requires ValidPath(t0, p0) && At(t0, p0).Node?
    ensures ValidPath(t, p) && At(t, p).Node?
    ensures At(t, p).entry == At(t0, p0).entry && At(t, p).priority == At(t0, p0).priority
    ensures p == [] || (ValidPath(t, Parent(p)) && Priority(At(t, Parent(p))) >= At(t, p).priority)
    ensures Entries(t) == Entries(t0) && NodeCount(t) == NodeCount(t0)
    ensures HeapExcept(t0, p0) ==> Heap(t)
    ensures p0 == [] ==> t == t0
  {
    t, p := t0, p0;
    if p != [] {
      ParentValid(t, p);
    }
    while p != [] && At(t, p).priority > At(t, Parent(p)).priority
      invariant ValidPath(t, p) && At(t, p).Node?
      invariant p != [] ==> ValidPath(t, Parent(p)) && At(t, Parent(p)).Node?
      invariant At(t, p).entry == At(t0, p0).entry && At(t, p).priority == At(t0, p0).priority
      invariant Entries(t) == Entries(t0) && NodeCount(t) == NodeCount(t0)
      invariant HeapExcept(t0, p0) ==> HeapExcept(t, p)
      invariant p0 == [] ==> t == t0 && p == []
      decreases |p|
    {
      ghost var q, d := Parent(p), Last(p);
      RotateFacts(t, p);
      ParentValid(t, p);
      if HeapExcept(t, p) {
        assert p == q + [d];
        BubbleStep(t, q, d);
      }
      t := Rotate(t, p);
      p := Parent(p);
      if p != [] {
        ParentValid(t, p);
      }
    }
    if HeapExcept(t0, p0) && p != [] {
      HeapExceptHolds(t, p);
    }
  }

  /** Overwriting an entry keeps every priority, so the heap order is as it was. */
  lemma {:induction false} HeapSetEntry<V>(t: Tree<V>, p: Path, e: Entry<V>)
    requires ValidPath(t, p) && At(t, p).Node?
    ensures SetEntry(t, p, e).Node? && SetEntry(t, p, e).priority == t.priority
    ensures Heap(SetEntry(t, p, e)) <==> Heap(t)
    decreases |p|
  {
    if p != [] {
      var c := Child(t, p[0]);
      HeapSetEntry(c, p[1..], e);
      assert SetEntry(t, p, e) == WithChild(t, p[0], SetEntry(c, p[1..], e));
    }
  }

  /** When the exempt pair is in order after all, the heap order holds. */
  lemma {:induction false} HeapExceptHolds<V>(t: Tree<V>, p: Path)
    requires ValidPath(t, p) && p != [] && HeapExcept(t, p)
    requires ValidPath(t, Parent(p)) && At(t, Parent(p)).Node? && At(t, p).Node?
    requires At(t, Parent(p)).priority >= At(t, p).priority
    ensures Heap(t)
    decreases |p|
  {
    var c := Child(t, p[0]);
    if |p| > 1 {
      assert Parent(p)[0] == p[0] && Parent(p)[1..] == Parent(p[1..]);
      HeapExceptHolds(c, p[1..]);
    } else {
      assert Parent(p) == [] && p[1..] == [];
    }
  }

  /**
   * The loop of remove: while the node at p has an internal child, rotate up
   * its child of strictly higher priority (the left one on equal priorities,
   * or the only internal one). The node ends with two sentinel children; cut
   * off from a heap, it leaves a heap.
   */
  method RotateDown<V>(t0: Tree<V>, p0: Path) returns (t: Tree<V>, p: Path)
    requires ValidPath(t0, p0) && At(t0, p0).Node?
    ensures ValidPath(t, p) && At(t, p).Node? && At(t, p).left.Leaf? && At(t, p).right.Leaf?
    ensures At(t, p).entry == At(t0, p0).entry
    ensures Entries(t) == Entries(t0) && NodeCount(t) == NodeCount(t0)
    ensures Heap(t0) ==> Heap(Replace(t, p, Leaf))
  {
    t, p := t0, p0;
    if Heap(t0) {
      HeapDownInit(t0, p0);
    }
    while At(t, p).left.Node? || At(t, p).right.Node?
      invariant ValidPath(t, p) && At(t, p).Node? && At(t, p).entry == At(t0, p0).entry
      invariant Entries(t) == Entries(t0) && NodeCount(t) == NodeCount(t0)
      invariant Heap(t0) ==> HeapDown(t, p)
      decreases InternalCount(At(t, p))
    {
      var s := At(t, p);
      var d: Dir;
      if s.left.Node? && s.right.Node? {
        if s.right.priority > s.left.priority {
          d := Right;
        } else {
          d := Left;
        }
      } else if s.left.Node? {
        d := Left;
      } else {
        d := Right;
      }
      if Heap(t0) {
        DownStep(t, p, d);
      }
      DownRound(t, p, d);
      t := Rotate(t, p + [d]);
      p := p + [Flip(d)];
    }
    if Heap(t0) {
      HeapDownRemove(t, p);
    }
  }

  /** One round of the rotate-down loop, seen from the whole tree. */
  lemma DownRound<V>(t: Tree<V>, p: Path, d: Dir)
    requires ValidPath(t, p) && At(t, p).Node? && Child(At(t, p), d).Node?
    ensures ValidPath(t, p + [d]) && At(t, p + [d]).Node?
    ensures Rotate(t, p + [d]) == Replace(t, p, RotateUp(At(t, p), d))
    ensures var s := At(t, p);
      ValidPath(Rotate(t, p + [d]), p + [Flip(d)]) &&
      At(Rotate(t, p + [d]), p + [Flip(d)]) == WithChild(s, d, Child(Child(s, d), Flip(d))) &&
      InternalCount(WithChild(s, d, Child(Child(s, d), Flip(d)))) < InternalCount(s)
    ensures Entries(Rotate(t, p + [d])) == Entries(t) && NodeCount(Rotate(t, p + [d])) == NodeCount(t)
  {
    var s := At(t, p);
    StepDown(t, p, d);
    RotateFacts(t, p + [d]);
    assert Parent(p + [d]) == p && Last(p + [d]) == d;
    var r := RotateUp(s, d);
    ReplaceAt(t, p, r);
    StepDown(Replace(t, p, r), p, Flip(d));
    assert InternalCount(Child(s, d)) > InternalCount(Child(Child(s, d), Flip(d)));
  }

  // ---------------------------------------------------------------------------
  // isValidBST: a local check (as written) and the subtree-wide check

  /**
   * isValidBST(p) as written: each internal node is compared only with its
   * internal children.
   */
  function IsValidBst<V>(t: Tree<V>): bool
  {
    if t.Leaf? then true
    else if t.left.Node? && t.left.entry.key >= t.entry.key then false
    else if t.right.Node? && t.entry.key >= t.right.entry.key then false
    else IsValidBst(t.left) && IsValidBst(t.right)
  }

  /** Every search tree passes the local check. */
  lemma {:induction false} BstIsValidBst<V>(t: Tree<V>)
    requires Bst(t)
    ensures IsValidBst(t)
  {
    if t.Node? {
      BstNode(t);
      BstIsValidBst(t.left);
      BstIsValidBst(t.right);
      if t.left.Node? {
        var l := t.left;
        assert Entries(l)[|Entries(l.left)|] == l.entry;
      }
      if t.right.Node? {
        var r := t.right;
        assert Entries(r)[|Entries(r.left)|] == r.entry;
      }
    }
  }

  /**
   * The local check accepts a tree that is not a search tree: 5 sits in the
   * left subtree of 3.
   */
  lemma LocalCheckAcceptsNonBst()
    ensures var t := Node(Node(Leaf, Entry(1, 1), Node(Leaf, Entry(5, 5), Leaf, 0, 0), 0, 0),
                          Entry(3, 3), Leaf, 0, 0);
      IsValidBst(t) && !Bst(t)
  {
    var t := Node(Node(Leaf, Entry(1, 1), Node(Leaf, Entry(5, 5), Leaf, 0, 0), 0, 0),
                  Entry(3, 3), Leaf, 0, 0);
    assert Entries(t) == [Entry(1, 1), Entry(5, 5), Entry(3, 3)];
    assert Entries(t)[1].key >= Entries(t)[2].key;
  }

  /** Every key of s lies strictly between the bounds that are present. */
  ghost predicate Within<V>(s: seq<Entry<V>>, lo: Option<int>, hi: Option<int>)
  {
    (lo.Some? ==> AllAbove(s, lo.value)) && (hi.Some? ==> AllBelow(s, hi.value))
  }

  /** The check the comment describes: every key lies between the bounds its ancestors impose. */
  function IsValidBstBounded<V>(t: Tree<V>, lo: Option<int>, hi: Option<int>): bool
  {
    if t.Leaf? then true
    else if lo.Some? && t.entry.key <= lo.value then false
    else if hi.Some? && t.entry.key >= hi.value then false
    else IsValidBstBounded(t.left, lo, Some(t.entry.key)) &&
         IsValidBstBounded(t.right, Some(t.entry.key), hi)
  }

  /** isValidBST as evidently intended: the bounded check from the root. */
  function IsValidBstCorrected<V>(t: Tree<V>): bool
  {
    IsValidBstBounded(t, None, None)
  }

  lemma {:induction false} BoundedMeaning<V>(t: Tree<V>, lo: Option<int>, hi: Option<int>)
    ensures IsValidBstBounded(t, lo, hi) <==> Bst(t) && Within(Entries(t), lo, hi)
  {
    if t.Node? {
      var k := t.entry.key;
      var l, r := Entries(t.left), Entries(t.right);
      BoundedMeaning(t.left, lo, Some(k));
      BoundedMeaning(t.right, Some(k), hi);
      assert Entries(t) == l + [t.entry] + r;
      if IsValidBstBounded(t, lo, hi) {
        BstJoin(t);
        if lo.Some? {
          AllAboveAppend(l, [t.entry], lo.value);
          AllAboveAppend(l + [t.entry], r, lo.value);
        }
        if hi.Some? {
          AllBelowAppend(l, [t.entry], hi.value);
          AllBelowAppend(l + [t.entry], r, hi.value);
        }
      }
      if Bst(t) && Within(Entries(t), lo, hi) {
        BstNode(t);
        assert Entries(t)[|l|] == t.entry;
        forall i | 0 <= i < |l| ensures Entries(t)[i] == l[i] { }
        forall i | 0 <= i < |r| ensures Entries(t)[|l| + 1 + i] == r[i] { }
      }
    }
  }

  /** The corrected check accepts exactly the search trees. */
  lemma IsValidBstCorrectedMeaning<V>(t: Tree<V>)
    ensures IsValidBstCorrected(t) <==> Bst(t)
  {
    BoundedMeaning(t, None, None);
  }

  // ---------------------------------------------------------------------------
  // isValidHeapSubtree

  /** One reported violation: a parent whose priority is below its child's on the given side. */
  datatype Violation<V> = Violation(parent: Entry<V>, parentPriority: int, side: Dir,
                                    child: Entry<V>, childPriority: int)

  /**
   * isValidHeapSubtree(p, list): the violations it appends to the list, in
   * order (left child checked, left subtree, right child checked, right
   * subtree).
   */
  function HeapViolations<V>(t: Tree<V>): (vs: seq<Violation<V>>)
    ensures forall i :: 0 <= i < |vs| ==> vs[i].parentPriority < vs[i].childPriority
  {
    if t.Leaf? then []
    else
      (if t.left.Node? then
         (if t.priority < t.left.priority
          then [Violation(t.entry, t.priority, Left, t.left.entry, t.left.priority)] else []) +
         HeapViolations(t.left)
       else []) +
      (if t.right.Node? then
         (if t.priority < t.right.priority
          then [Violation(t.entry, t.priority, Right, t.right.entry, t.right.priority)] else []) +
         HeapViolations(t.right)
       else [])
  }

  /** No violation is reported exactly when the subtree is heap-ordered. */
  lemma {:induction false} HeapViolationsMeaning<V>(t: Tree<V>)
    ensures HeapViolations(t) == [] <==> Heap(t)
  {
    if t.Node? {
      HeapViolationsMeaning(t.left);
      HeapViolationsMeaning(t.right);
    }
  }

  // ---------------------------------------------------------------------------
  // copySubtree

  /**
   * A destination node graph as linked nodes: a child link may be null, and
   * a sentinel is a node with a null element.
   */
  datatype Dest<V> = Null | DNode(left: Dest<V>, element: Option<Entry<V>>, right: Dest<V>, priority: int)

  /** The copy of the internal nodes of a subtree, with null links where it has sentinels. */
  function Detached<V>(t: Tree<V>): Dest<V>
  {
    if t.Leaf? then Null else DNode(Detached(t.left), Some(t.entry), Detached(t.right), t.priority)
  }

  /** A treap's own node graph, where every sentinel is a node of its own. */
  function Attached<V>(t: Tree<V>): Dest<V>
  {
    if t.Leaf? then DNode(Null, None, Null, 0)
    else DNode(Attached(t.left), Some(t.entry), Attached(t.right), t.priority)
  }

  /**
   * The destination node after copySubtree, whether the call returned or
   * threw, and how many nodes it added to the destination tree's size. The
   * nodes added before an exception stay attached.
   */
  datatype Copied<V> = Copied(result: Outcome<()>, dest: Dest<V>, added: nat)

  /**
   * copySubtree(srcPos, destTree, destPos): below the destination node,
   * add a copy (entry and priority) of the left internal child of the source
   * and copy its subtree into it, then the same on the right. Adding a child
   * where the destination already has one throws IllegalStateException,
   * leaving what was added so far in place.
   */
  function CopySubtree<V>(src: Tree<V>, dest: Dest<V>): (c: Copied<V>)
    requires dest.DNode?
    ensures c.dest.DNode?
    decreases src
  {
    if src.Leaf? then Copied(Ok(()), dest, 0)
    else
      var afterLeft :=
        if src.left.Leaf? then Copied(Ok(()), dest, 0)
        else if !dest.left.Null? then Copied(Thrown(IllegalStateException), dest, 0)
        else
          var sub := CopySubtree(src.left, DNode(Null, Some(src.left.entry), Null, src.left.priority));
          Copied(sub.result, dest.(left := sub.dest), 1 + sub.added);
      if afterLeft.result.Thrown? || src.right.Leaf? then afterLeft
      else
        var d1 := afterLeft.dest;
        if !d1.right.Null? then Copied(Thrown(IllegalStateException), d1, afterLeft.added)
        else
          var sub := CopySubtree(src.right, DNode(Null, Some(src.right.entry), Null, src.right.priority));
          Copied(sub.result, d1.(right := sub.dest), afterLeft.added + 1 + sub.added)
  }

  /** The destination's child on one side after the copy: the detached copy of an internal source child. */
  function CopiedChild<V>(s: Tree<V>, d: Dest<V>): Dest<V>
  {
    if s.Node? then Detached(s) else d
  }

  /** How many nodes copying one source child adds. */
  function AddedFor<V>(s: Tree<V>): nat
  {
    if s.Node? then |Entries(s)| else 0
  }

  /** Filling a fresh node, both of whose slots are null, gives the detached copy of the source. */
  lemma FreshCopy<V>(s: Tree<V>)
    requires s.Node?
    ensures DNode(CopiedChild(s.left, Null), Some(s.entry), CopiedChild(s.right, Null), s.priority) == Detached(s)
    ensures 1 + AddedFor(s.left) + AddedFor(s.right) == |Entries(s)|
  {
  }

  /**
   * copySubtree throws exactly when a source child is internal and the
   * destination's slot on that side is taken. A taken left slot throws
   * before anything changes; a taken right slot throws after the copy of the
   * left child was attached and counted. Otherwise the destination node
   * gets the detached copies of the source's internal children, and the
   * size grows by their number of entries.
   */
  lemma {:induction false} CopySubtreeMeaning<V>(src: Tree<V>, dest: Dest<V>)
    requires dest.DNode?
    ensures CopySubtree(src, dest) ==
      if src.Leaf? then Copied(Ok(()), dest, 0)
      else if src.left.Node? && !dest.left.Null? then Copied(Thrown(IllegalStateException), dest, 0)
      else if src.right.Node? && !dest.right.Null? then
        Copied(Thrown(IllegalStateException), dest.(left := CopiedChild(src.left, dest.left)), AddedFor(src.left))
      else
        Copied(Ok(()), dest.(left := CopiedChild(src.left, dest.left), right := CopiedChild(src.right, dest.right)),
          AddedFor(src.left) + AddedFor(src.right))
    decreases src
  {
    if src.Node? {
      if src.left.Node? {
        var l := src.left;
        CopySubtreeMeaning(l, DNode(Null, Some(l.entry), Null, l.priority));
        FreshCopy(l);
      }
      if src.right.Node? {
        var r := src.right;
        CopySubtreeMeaning(r, DNode(Null, Some(r.entry), Null, r.priority));
        FreshCopy(r);
      }
    }
  }

  /**
   * Copying into a node of a treap's own graph fails as soon as the source
   * has an internal child, before anything is added: the sentinels occupy
   * the child slots.
   */
  lemma CopyIntoTreapNode<V>(src: Tree<V>, t: Tree<V>)
    requires t.Node? && src.Node? && (src.left.Node? || src.right.Node?)
    ensures CopySubtree(src, Attached(t)) == Copied(Thrown(IllegalStateException), Attached(t), 0)
  {
    CopySubtreeMeaning(src, Attached(t));
  }
}

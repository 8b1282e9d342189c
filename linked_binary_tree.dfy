/**
 * LinkedBinaryTree: a binary tree of linked nodes that keeps a count of its
 * nodes. The node graph is the LinkedNodes value held in `root`; a method that
 * relinks nodes or changes an element reassigns it. A Position of the source
 * is the path from the root to its node. Elements are integers in their
 * natural order (the source's Comparable elements); a null element is None.
 */
module LinkedBinaryTree {
  import opened Wrappers
  import B = BalanceableBinaryTree
  import opened LinkedNodes

  class LinkedBinaryTree {
    var root: BTree<int>
    var size: int

    /** size counts the nodes reachable from root. */
    ghost predicate Valid()
      reads this
    {
      size == CountNodes(root)
    }

    /** An empty tree. */
    constructor()
      ensures root == Nil && size == 0 && Valid()
    {
      root := Nil;
      size := 0;
    }

    /** size(): the number of nodes, which is the number of elements in order. */
    function Size(): (n: int)
      reads this
      requires Valid()
      ensures n == |Elements(root)|
    {
      CountIsLength(root);
      size
    }

    /** isEmpty(): size() == 0, which holds exactly when there is no root node. */
    function IsEmpty(): (b: bool)
      reads this
      requires Valid()
      ensures b <==> root.Nil?
      ensures b <==> Elements(root) == []
    {
      CountIsLength(root);
      size == 0
    }

    // -------------------------------------------------------------------------
    // Queries on positions

    /** sibling(p): the other child of p's parent, None at the root or when that slot is empty. */
    function Sibling(p: Path): (r: Option<Path>)
      reads this
      requires ValidPos(root, p)
      ensures p == [] ==> r.None?
      ensures r.Some? ==>
        ValidPos(root, r.value) && r.value != p && |r.value| == |p| && B.Parent(r.value) == B.Parent(p)
      ensures p != [] && r.None? ==> !ValidPos(root, B.Parent(p) + [B.Flip(B.Last(p))])
    {
      if p == [] then None
      else
        StepUp(root, p);
        var q := B.Parent(p) + [B.Flip(B.Last(p))];
        StepDown(root, B.Parent(p), B.Flip(B.Last(p)));
        assert B.Parent(q) == B.Parent(p) && B.Last(q) != B.Last(p);
        if At(root, q).BNode? then Some(q) else None
    }

    /** Being siblings is symmetric. */
    lemma SiblingSymmetric(p: Path)
      requires ValidPos(root, p) && Sibling(p).Some?
      ensures Sibling(Sibling(p).value) == Some(p)
    {
      var q := Sibling(p).value;
      assert q == B.Parent(p) + [B.Flip(B.Last(p))];
      assert B.Parent(q) == B.Parent(p) && B.Last(q) == B.Flip(B.Last(p));
      assert B.Parent(p) + [B.Last(p)] == p;
    }

    /** children(p): the positions of p's children, left first. */
    function Children(p: Path): (cs: seq<Path>)
      reads this
      requires ValidPos(root, p)
      ensures |cs| <= 2 && forall i :: 0 <= i < |cs| ==> ValidPos(root, cs[i]) && |cs[i]| == |p| + 1
      ensures p + [B.Left] in cs <==> ValidPos(root, p + [B.Left])
      ensures p + [B.Right] in cs <==> ValidPos(root, p + [B.Right])
      ensures forall c :: c in cs ==> c == p + [B.Left] || c == p + [B.Right]
      ensures |cs| == 2 ==> cs[0] == p + [B.Left]
    {
      StepDown(root, p, B.Left);
      StepDown(root, p, B.Right);
      assert p + [B.Left] != p + [B.Right] by {
        assert (p + [B.Left])[|p|] != (p + [B.Right])[|p|];
      }
      PresentChildren(root, p)
    }

    /** numChildren(p): how many of p's two slots hold a node. */
    function NumChildren(p: Path): (n: nat)
      reads this
      requires ValidPos(root, p)
      ensures n <= 2
      ensures n == 0 <==> At(root, p).left.Nil? && At(root, p).right.Nil?
      ensures n == 2 <==> At(root, p).left.BNode? && At(root, p).right.BNode?
    {
      StepDown(root, p, B.Left);
      StepDown(root, p, B.Right);
      |Children(p)|
    }

    /** isInternal(p): p has a child, that is, p has height above zero. */
    function IsInternal(p: Path): (b: bool)
      reads this
      requires ValidPos(root, p)
      ensures b <==> 0 < Height(p)
    {
      NumChildren(p) > 0
    }

    /** isExternal(p): p has no child, that is, p has height zero. */
    function IsExternal(p: Path): (b: bool)
      reads this
      requires ValidPos(root, p)
      ensures b <==> Height(p) == 0
    {
      NumChildren(p) == 0
    }

    /** isRoot(p): p is the root position, the one with no parent. */
    function IsRoot(p: Path): (b: bool)
      reads this
      requires ValidPos(root, p)
      ensures b <==> Depth(p) == 0
    {
      p == []
    }

    /** depth(p): 0 at the root, else one more than the depth of the parent. */
    function Depth(p: Path): (d: nat)
      reads this
      requires ValidPos(root, p)
      ensures d == |p|
      decreases |p|
    {
      if p == [] then 0
      else
        StepUp(root, p);
        1 + Depth(B.Parent(p))
    }

    /** height(p): the longest number of steps from p down to a node of its subtree. */
    function Height(p: Path): (h: nat)
      reads this
      requires ValidPos(root, p)
      ensures forall q :: ValidPos(At(root, p), q) ==> |q| <= h
      ensures ValidPos(At(root, p), Deepest(At(root, p))) && |Deepest(At(root, p))| == h
    {
      HeightBounds(At(root, p));
      LinkedNodes.Height(At(root, p))
    }

    static lemma HeightBounds(t: BTree<int>)
      requires t.BNode?
      ensures forall q :: ValidPos(t, q) ==> |q| <= LinkedNodes.Height(t)
    {
      forall q | ValidPos(t, q)
        ensures |q| <= LinkedNodes.Height(t)
      {
        HeightBound(t, q);
      }
    }

    /**
     * getDiameter(n, diameter): returns the number of nodes on the longest
     * downward path from n, and raises diameter to the most nodes on any path
     * that turns at a node of n's subtree.
     */
    method GetDiameter(n: BTree<int>, diameter: int) returns (h: int, widest: int)
      requires 0 <= diameter
      ensures h == NodeHeight(n) && widest == Max(diameter, Span(n))
      decreases n
    {
      if n.Nil? {
        return 0, diameter;
      }
      var hl, d1 := GetDiameter(n.left, diameter);
      var hr, d2 := GetDiameter(n.right, d1);
      widest := Max(d2, 1 + hl + hr);
      h := 1 + Max(hl, hr);
    }

    /** diameter(): the most nodes on a path between two nodes, 0 for the empty tree. */
    method Diameter() returns (d: int)
      ensures root.Nil? ==> d == 0
      ensures forall p :: ValidPos(root, p) ==> Through(At(root, p)) <= d
      ensures root.BNode? ==> Through(At(root, Widest(root))) == d
    {
      if root.Nil? {
        return 0;
      }
      var h;
      h, d := GetDiameter(root, 0);
      forall p | ValidPos(root, p)
        ensures Through(At(root, p)) <= d
      {
        SpanBound(root, p);
      }
    }

    // -------------------------------------------------------------------------
    // Updates

    /** addRoot(e): fails with IllegalStateException unless the tree is empty. */
    method AddRoot(e: Option<int>) returns (r: Outcome<Path>)
      requires Valid()
      modifies this
      ensures Valid()
      ensures old(root).BNode? ==> r == Thrown(IllegalStateException) && root == old(root)
      ensures old(root).Nil? ==> r == Ok([]) && root == BNode(Nil, e, Nil) && Elements(root) == [e]
    {
      if !IsEmpty() {
        return Thrown(IllegalStateException);
      }
      root := BNode(Nil, e, Nil);
      size := 1;
      return Ok([]);
    }

    /**
     * addLeft(p, e): a new leaf holding e in p's empty left slot; the new
     * element comes right before p's subtree in order. An occupied slot
     * throws IllegalStateException.
     */
    method AddLeft(p: Path, e: Option<int>) returns (r: Outcome<Path>)
      requires Valid() && ValidPos(root, p)
      modifies this
      ensures Valid()
      ensures old(At(root, p)).left.BNode? ==> r == Thrown(IllegalStateException) && root == old(root)
      ensures old(At(root, p)).left.Nil? ==>
        r == Ok(p + [B.Left]) && ValidPos(root, p + [B.Left]) && size == old(size) + 1 &&
        ValidSlot(old(root), p + [B.Left]) && root == Replace(old(root), p + [B.Left], BNode(Nil, e, Nil))
      ensures old(At(root, p)).left.Nil? ==>
        Elements(root) ==
          old(Elements(root))[..old(Index(root, p))] + [e] + old(Elements(root))[old(Index(root, p))..]
    {
      if At(root, p).left.BNode? {
        return Thrown(IllegalStateException);
      }
      AddLeftLeaf(root, p, e);
      root := Replace(root, p + [B.Left], BNode(Nil, e, Nil));
      size := size + 1;
      return Ok(p + [B.Left]);
    }

    /**
     * addRight(p, e): a new leaf holding e in p's empty right slot; the new
     * element comes right after p in order. An occupied slot throws
     * IllegalStateException.
     */
    method AddRight(p: Path, e: Option<int>) returns (r: Outcome<Path>)
      requires Valid() && ValidPos(root, p)
      modifies this
      ensures Valid()
      ensures old(At(root, p)).right.BNode? ==> r == Thrown(IllegalStateException) && root == old(root)
      ensures old(At(root, p)).right.Nil? ==>
        r == Ok(p + [B.Right]) && ValidPos(root, p + [B.Right]) && size == old(size) + 1 &&
        ValidSlot(old(root), p + [B.Right]) && root == Replace(old(root), p + [B.Right], BNode(Nil, e, Nil))
      ensures old(At(root, p)).right.Nil? ==>
        Elements(root) ==
          old(Elements(root))[..old(Index(root, p)) + 1] + [e] + old(Elements(root))[old(Index(root, p)) + 1..]
    {
      if At(root, p).right.BNode? {
        return Thrown(IllegalStateException);
      }
      AddRightLeaf(root, p, e);
      root := Replace(root, p + [B.Right], BNode(Nil, e, Nil));
      size := size + 1;
      return Ok(p + [B.Right]);
    }

    /** set(p, e): replaces the element at p and returns the one it held; the shape stays. */
    method Set(p: Path, e: Option<int>) returns (previous: Option<int>)
      requires Valid() && ValidPos(root, p)
      modifies this
      ensures Valid() && size == old(size)
      ensures previous == old(At(root, p).element)
      ensures root == Replace(old(root), p, old(At(root, p)).(element := e))
      ensures Skeleton(root) == Skeleton(old(root)) && ValidPos(root, p)
      ensures Elements(root) == old(Elements(root))[old(Index(root, p)) := e]
    {
      var n := At(root, p);
      previous := n.element;
      SetElement(root, p, e);
      root := Replace(root, p, n.(element := e));
    }

    /**
     * remove(p): a node with two children throws IllegalArgumentException;
     * otherwise its only child (or nothing) takes its place, and its element
     * leaves the in-order sequence.
     */
    method Remove(p: Path) returns (r: Outcome<Option<int>>)
      requires Valid() && ValidPos(root, p)
      modifies this
      ensures Valid()
      ensures old(At(root, p)).left.BNode? && old(At(root, p)).right.BNode? ==>
        r == Thrown(IllegalArgumentException) && root == old(root)
      ensures !(old(At(root, p)).left.BNode? && old(At(root, p)).right.BNode?) ==>
        r == Ok(old(At(root, p)).element) && size == old(size) - 1 &&
        root == Replace(old(root), p, OnlyChild(old(root), p))
      ensures !(old(At(root, p)).left.BNode? && old(At(root, p)).right.BNode?) ==>
        Elements(root) ==
          old(Elements(root))[..old(Index(root, p))] + old(Elements(root))[old(Index(root, p)) + 1..]
    {
      if NumChildren(p) == 2 {
        return Thrown(IllegalArgumentException);
      }
      var n := At(root, p);
      RemoveElement(root, p);
      root := Replace(root, p, if n.left.BNode? then n.left else n.right);
      size := size - 1;
      return Ok(n.element);
    }

    // -------------------------------------------------------------------------
    // Traversals

    /** inorderSubtree(p, snapshot): appends the positions of p's subtree in order, skipping null elements. */
    method InorderSubtree(p: Path, snapshot: seq<Path>) returns (s: seq<Path>)
      requires ValidPos(root, p)
      ensures s == snapshot + Rooted(p, InorderPos(At(root, p)))
      decreases CountNodes(At(root, p))
    {
      InorderSplit(root, p);
      StepDown(root, p, B.Left);
      StepDown(root, p, B.Right);
      var n := At(root, p);
      ghost var ls := Rooted(p + [B.Left], InorderPos(At(root, p + [B.Left])));
      ghost var here: seq<Path> := if n.element.Some? then [p] else [];
      ghost var rs := Rooted(p + [B.Right], InorderPos(At(root, p + [B.Right])));
      assert At(root, p + [B.Left]) == n.left && At(root, p + [B.Right]) == n.right;
      s := snapshot;
      if n.left.BNode? {
        s := InorderSubtree(p + [B.Left], s);
      } else {
        assert ls == [];
      }
      assert s == snapshot + ls;
      if n.element.Some? {
        s := s + [p];
      }
      assert s == snapshot + ls + here;
      if n.right.BNode? {
        s := InorderSubtree(p + [B.Right], s);
      } else {
        assert rs == [];
      }
      Regroup(snapshot, ls, here, rs);
    }

    /** inorder(): every position with an element, once each, left subtree before node before right subtree. */
    method Inorder() returns (snapshot: seq<Path>)
      requires Valid()
      ensures snapshot == InorderPos(root)
      ensures forall p :: p in snapshot <==> ValidPos(root, p) && At(root, p).element.Some?
      ensures Distinct(snapshot)
    {
      snapshot := [];
      if !IsEmpty() {
        snapshot := InorderSubtree([], snapshot);
        RootedAtRoot(InorderPos(root));
      }
      InorderMeaning(root);
    }

    /** preorderSubtree(p, snapshot): appends p unless its element is null, then its children's subtrees. */
    method PreorderSubtree(p: Path, snapshot: seq<Path>) returns (s: seq<Path>)
      requires ValidPos(root, p)
      ensures s == snapshot + Rooted(p, PreorderPos(At(root, p)))
      decreases CountNodes(At(root, p))
    {
      PreorderSplit(root, p);
      StepDown(root, p, B.Left);
      StepDown(root, p, B.Right);
      var n := At(root, p);
      ghost var here: seq<Path> := if n.element.Some? then [p] else [];
      ghost var ls := Rooted(p + [B.Left], PreorderPos(At(root, p + [B.Left])));
      ghost var rs := Rooted(p + [B.Right], PreorderPos(At(root, p + [B.Right])));
      assert At(root, p + [B.Left]) == n.left && At(root, p + [B.Right]) == n.right;
      s := snapshot;
      if n.element.Some? {
        s := s + [p];
      }
      assert s == snapshot + here;
      if n.left.BNode? {
        s := PreorderSubtree(p + [B.Left], s);
      } else {
        assert ls == [];
      }
      assert s == snapshot + here + ls;
      if n.right.BNode? {
        s := PreorderSubtree(p + [B.Right], s);
      } else {
        assert rs == [];
      }
      Regroup(snapshot, here, ls, rs);
    }

    /** preorder(): every position with an element, once each, every ancestor before its descendants. */
    method Preorder() returns (snapshot: seq<Path>)
      requires Valid()
      ensures snapshot == PreorderPos(root)
      ensures forall p :: p in snapshot <==> ValidPos(root, p) && At(root, p).element.Some?
      ensures Distinct(snapshot) && AncestorsFirst(snapshot)
    {
      snapshot := [];
      if !IsEmpty() {
        snapshot := PreorderSubtree([], snapshot);
        RootedAtRoot(PreorderPos(root));
      }
      PreorderMeaning(root);
    }

    /** postorderSubtree(p, snapshot): appends its children's subtrees, then p, null element or not. */
    method PostorderSubtree(p: Path, snapshot: seq<Path>) returns (s: seq<Path>)
      requires ValidPos(root, p)
      ensures s == snapshot + Rooted(p, PostorderPos(At(root, p)))
      decreases CountNodes(At(root, p))
    {
      SubtreeSplit(root, p);
      StepDown(root, p, B.Left);
      StepDown(root, p, B.Right);
      var n := At(root, p);
      ghost var ls := Rooted(p + [B.Left], PostorderPos(At(root, p + [B.Left])));
      ghost var rs := Rooted(p + [B.Right], PostorderPos(At(root, p + [B.Right])));
      assert At(root, p + [B.Left]) == n.left && At(root, p + [B.Right]) == n.right;
      s := snapshot;
      if n.left.BNode? {
        s := PostorderSubtree(p + [B.Left], s);
      } else {
        assert ls == [];
      }
      assert s == snapshot + ls;
      if n.right.BNode? {
        s := PostorderSubtree(p + [B.Right], s);
      } else {
        assert rs == [];
      }
      assert s == snapshot + ls + rs;
      s := s + [p];
      Regroup(snapshot, ls, rs, [p]);
    }

    /** postorder(): every position, once each, every descendant before its ancestors. */
    method Postorder() returns (snapshot: seq<Path>)
      requires Valid()
      ensures snapshot == PostorderPos(root)
      ensures forall p :: p in snapshot <==> ValidPos(root, p)
      ensures Distinct(snapshot) && DescendantsFirst(snapshot)
    {
      snapshot := [];
      if !IsEmpty() {
        snapshot := PostorderSubtree([], snapshot);
        RootedAtRoot(PostorderPos(root));
      }
      PostorderMeaning(root);
    }

    /**
     * breadthfirst(): every position once, level by level from the root
     * down and left to right within a level. Level order is strict, so by
     * LevelSortedUnique these clauses fix the snapshot.
     */
    method BreadthFirst() returns (snapshot: seq<Path>)
      requires Valid()
      ensures forall p :: p in snapshot <==> ValidPos(root, p)
      ensures Distinct(snapshot)
      ensures forall i, j :: 0 <= i < j < |snapshot| ==> LevelBefore(snapshot[i], snapshot[j])
      ensures forall i, j :: 0 <= i < j < |snapshot| ==> |snapshot[i]| <= |snapshot[j]|
    {
      snapshot := [];
      if !IsEmpty() {
        var q: seq<Path> := [[]];
        QueuedStart(root);
        while q != []
          invariant Queued(root, snapshot, q)
          decreases |Flatten(root, q)|
        {
          QueuedStep(root, snapshot, q);
          var p := q[0];
          snapshot := snapshot + [p];
          q := q[1..] + Children(p);
        }
        QueuedDone(root, snapshot);
      } else {
        PermutesPositions(root, snapshot);
      }
    }

    // -------------------------------------------------------------------------
    // Search-tree queries

    /** findMinimum(p): follows left links from p to the first node of its subtree in order. */
    method FindMinimum(p: Path) returns (q: Path)
      requires ValidPos(root, p)
      ensures ValidPos(root, q) && At(root, q).left.Nil?
      ensures Before(root, q) == Before(root, p)
      ensures At(root, q).element == Elements(At(root, p))[0]
    {
      q := p;
      while At(root, q).left.BNode?
        invariant ValidPos(root, q) && Before(root, q) == Before(root, p)
        decreases CountNodes(At(root, q))
      {
        StepDown(root, q, B.Left);
        q := q + [B.Left];
      }
      ElementsAround(root, p);
      NodeElements(root, q);
      assert Elements(root)[|Before(root, p)|] == Elements(At(root, p))[0];
    }

    /** findMaximum(p): follows right links from p to the last node of its subtree in order. */
    method FindMaximum(p: Path) returns (q: Path)
      requires ValidPos(root, p)
      ensures ValidPos(root, q) && At(root, q).right.Nil?
      ensures After(root, q) == After(root, p)
      ensures At(root, q).element == Elements(At(root, p))[|Elements(At(root, p))| - 1]
    {
      q := p;
      while At(root, q).right.BNode?
        invariant ValidPos(root, q) && After(root, q) == After(root, p)
        decreases CountNodes(At(root, q))
      {
        StepDown(root, q, B.Right);
        q := q + [B.Right];
      }
      ElementsAround(root, p);
      NodeElements(root, q);
      var m := Elements(At(root, p));
      assert |Elements(root)| - |After(root, p)| == Index(root, q) + 1;
      assert Elements(root)[Index(root, q)] == m[|m| - 1];
    }

    /**
     * inorderSuccessor(node, succ, key): walks down from slot p comparing key
     * with each element, where succ is the last node at which the walk turned
     * left. Meeting key itself, the answer is the first node of its right
     * subtree when it has one. A null element on the way throws
     * NullPointerException.
     */
    method SuccessorFrom(p: Path, succ: Option<Path>, key: int) returns (r: Outcome<Option<Path>>)
      requires ValidSlot(root, p) && HoldsFirst(root, succ, After(root, p))
      ensures r.Ok? && r.value.Some? ==> ValidPos(root, r.value.value)
      ensures r.Thrown? ==> r.error == NullPointerException
      ensures SearchTree(root) && SplitsAbove(root, p, key) ==> r.Ok? && IsSuccessor(root, key, r.value)
      decreases CountNodes(At(root, p))
    {
      var n := At(root, p);
      if n.Nil? {
        if SearchTree(root) && SplitsAbove(root, p, key) {
          SuccessorAtGap(root, p, key, succ);
        }
        return Ok(succ);
      }
      NodeElements(root, p);
      if n.element.None? {
        return Thrown(NullPointerException);
      }
      var e := n.element.value;
      StepDown(root, p, B.Left);
      StepDown(root, p, B.Right);
      if e == key {
        if n.right.BNode? {
          var q := FindMinimum(p + [B.Right]);
          if SearchTree(root) && SplitsAbove(root, p, key) {
            SplitsAboveStep(root, p, key, B.Right);
            NodeSides(root, p);
            SuccessorAtMin(root, p + [B.Right], key, q);
          }
          return Ok(Some(q));
        }
        if SearchTree(root) && SplitsAbove(root, p, key) {
          SplitsAboveStep(root, p, key, B.Right);
          SuccessorAtGap(root, p + [B.Right], key, succ);
        }
        return Ok(succ);
      } else if key < e {
        if SearchTree(root) && SplitsAbove(root, p, key) {
          SplitsAboveStep(root, p, key, B.Left);
        }
        r := SuccessorFrom(p + [B.Left], Some(p), key);
      } else {
        if SearchTree(root) && SplitsAbove(root, p, key) {
          SplitsAboveStep(root, p, key, B.Right);
        }
        r := SuccessorFrom(p + [B.Right], succ, key);
      }
    }

    /** inorderSuccessor(key): in a search tree, the node with the least element above key, if any. */
    method InorderSuccessor(key: int) returns (r: Outcome<Option<Path>>)
      ensures r.Ok? && r.value.Some? ==> ValidPos(root, r.value.value)
      ensures r.Thrown? ==> r.error == NullPointerException
      ensures SearchTree(root) ==> r.Ok? && IsSuccessor(root, key, r.value)
    {
      r := SuccessorFrom([], None, key);
    }

    /**
     * inorderPredecessor(node, pred, key): walks down from slot p comparing
     * key with each element, where pred is the last node at which the walk
     * turned right. Meeting key itself, the answer is the last node of its
     * left subtree when it has one. A null element on the way throws
     * NullPointerException.
     */
    method PredecessorFrom(p: Path, pred: Option<Path>, key: int) returns (r: Outcome<Option<Path>>)
      requires ValidSlot(root, p) && HoldsLast(root, pred, Before(root, p))
      ensures r.Ok? && r.value.Some? ==> ValidPos(root, r.value.value)
      ensures r.Thrown? ==> r.error == NullPointerException
      ensures SearchTree(root) && SplitsBelow(root, p, key) ==> r.Ok? && IsPredecessor(root, key, r.value)
      decreases CountNodes(At(root, p))
    {
      var n := At(root, p);
      if n.Nil? {
        if SearchTree(root) && SplitsBelow(root, p, key) {
          PredecessorAtGap(root, p, key, pred);
        }
        return Ok(pred);
      }
      NodeElements(root, p);
      if n.element.None? {
        return Thrown(NullPointerException);
      }
      var e := n.element.value;
      StepDown(root, p, B.Left);
      StepDown(root, p, B.Right);
      if e == key {
        if n.left.BNode? {
          var q := FindMaximum(p + [B.Left]);
          if SearchTree(root) && SplitsBelow(root, p, key) {
            SplitsBelowStep(root, p, key, B.Left);
            NodeSides(root, p);
            PredecessorAtMax(root, p + [B.Left], key, q);
          }
          return Ok(Some(q));
        }
        if SearchTree(root) && SplitsBelow(root, p, key) {
          SplitsBelowStep(root, p, key, B.Left);
          PredecessorAtGap(root, p + [B.Left], key, pred);
        }
        return Ok(pred);
      } else if key < e {
        if SearchTree(root) && SplitsBelow(root, p, key) {
          SplitsBelowStep(root, p, key, B.Left);
        }
        r := PredecessorFrom(p + [B.Left], pred, key);
      } else {
        if SearchTree(root) && SplitsBelow(root, p, key) {
          SplitsBelowStep(root, p, key, B.Right);
        }
        r := PredecessorFrom(p + [B.Right], Some(p), key);
      }
    }

    /** inorderPredecessor(key): in a search tree, the node with the greatest element below key, if any. */
    method InorderPredecessor(key: int) returns (r: Outcome<Option<Path>>)
      ensures r.Ok? && r.value.Some? ==> ValidPos(root, r.value.value)
      ensures r.Thrown? ==> r.error == NullPointerException
      ensures SearchTree(root) ==> r.Ok? && IsPredecessor(root, key, r.value)
    {
      r := PredecessorFrom([], None, key);
    }

    // -------------------------------------------------------------------------
    // Building a tree

    /**
     * construct_tree(inorder, preorder, pStart, pEnd, iStart, iEnd): the
     * first entry of the preorder range becomes a node, whose element is
     * null when the entry is; its first equal in the inorder range (null
     * matching null) splits that range into the left and right subtrees.
     * Each node built adds one to size, also when a later read of the
     * preorder array throws.
     */
    method ConstructTree(inorder: seq<Option<int>>, preorder: seq<Option<int>>, pStart: int, pEnd: int, iStart: int, iEnd: int)
      returns (r: Outcome<BTree<int>>)
      requires 0 <= iStart <= iEnd <= |inorder|
      modifies this
      ensures var c := ConstructRange(inorder, preorder, pStart, pEnd, iStart, iEnd);
        r == UnboxResult(c.result) && size == old(size) + c.made
      ensures root == old(root)
      decreases iEnd - iStart
    {
      if pStart >= pEnd || iStart >= iEnd {
        return Ok(Nil);
      }
      if pStart < 0 || |preorder| <= pStart {
        return Thrown(ArrayIndexOutOfBoundsException);
      }
      var element := preorder[pStart];
      size := size + 1;
      var i := iStart;
      while i < iEnd && element != inorder[i]
        invariant iStart <= i <= iEnd
        invariant ConstructScan(inorder, preorder, pStart, pEnd, iStart, iEnd, i) ==
          ConstructRange(inorder, preorder, pStart, pEnd, iStart, iEnd)
      {
        i := i + 1;
      }
      if i < iEnd {
        var left := ConstructTree(inorder, preorder, pStart + 1, i - iStart + (pStart + 1), iStart, i);
        if left.Thrown? {
          return Thrown(left.error);
        }
        var right := ConstructTree(inorder, preorder, (i + 1) - iEnd + pEnd, pEnd, i + 1, iEnd);
        if right.Thrown? {
          return Thrown(right.error);
        }
        r := Ok(BNode(left.value, element, right.value));
      } else {
        r := Ok(BNode(Nil, element, Nil));
      }
    }

    /**
     * construct(inorder, preorder): root becomes the tree construct_tree
     * builds over the whole arrays, unless it throws; size grows by the
     * nodes it created either way. Equally long arrays never throw and give
     * the tree the two sequences describe.
     */
    method Construct(inorder: seq<Option<int>>, preorder: seq<Option<int>>) returns (r: Outcome<()>)
      modifies this
      ensures var c := ConstructRange(inorder, preorder, 0, |preorder|, 0, |inorder|);
        size == old(size) + c.made &&
        (c.result.Ok? ==> r == Ok(()) && root == Unbox(c.result.value)) &&
        (c.result.Thrown? ==> r == Thrown(c.result.error) && root == old(root))
      ensures |inorder| == |preorder| ==>
        r == Ok(()) && root == Unbox(Build(inorder, preorder)) && size == old(size) + CountNodes(root)
    {
      var n := ConstructTree(inorder, preorder, 0, |preorder|, 0, |inorder|);
      if |inorder| == |preorder| {
        ConstructRangeAgrees(inorder, preorder, 0, |preorder|, 0, |inorder|);
        assert inorder[0..|inorder|] == inorder && preorder[0..|preorder|] == preorder;
      }
      if n.Thrown? {
        return Thrown(n.error);
      }
      root := n.value;
      r := Ok(());
    }

    /**
     * createLevelOrderHelper(arr, parent, i): a node for slot i when it holds
     * an element, with the subtrees of slots 2i+1 and 2i+2; each node built
     * adds one to size.
     */
    method LevelOrderHelper(arr: seq<Option<int>>, i: nat) returns (n: BTree<int>)
      modifies this
      ensures n == LevelBuild(arr, i)
      ensures size == old(size) + CountNodes(n) && root == old(root)
      decreases |arr| - i
    {
      if i < |arr| && arr[i].Some? {
        var left := LevelOrderHelper(arr, 2 * i + 1);
        var right := LevelOrderHelper(arr, 2 * i + 2);
        size := size + 1;
        return BNode(left, arr[i], right);
      }
      return Nil;
    }

    /** createLevelOrder(arr): root becomes the tree laid out in arr level by level. */
    method CreateLevelOrder(arr: seq<Option<int>>)
      modifies this
      ensures root == LevelBuild(arr, 0)
      ensures forall p :: ValidPos(root, p) <==> PresentAlong(arr, 0, p)
      ensures forall p :: ValidPos(root, p) ==> SlotIndex(0, p) < |arr| && At(root, p).element == arr[SlotIndex(0, p)]
      ensures size == old(size) + CountNodes(root)
    {
      root := LevelOrderHelper(arr, 0);
      forall p
        ensures ValidPos(root, p) <==> PresentAlong(arr, 0, p)
        ensures ValidPos(root, p) ==> SlotIndex(0, p) < |arr| && At(root, p).element == arr[SlotIndex(0, p)]
      {
        LevelBuildMeaning(arr, 0, p);
      }
    }
  }
}

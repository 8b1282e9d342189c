/**
 * The node graph of a LinkedBinaryTree, as a value. A node holds an element,
 * which may be null, and a left and a right child, either of which may be
 * absent. A position is the path of left/right steps from the root, so the
 * parent of a position is the path without its last step and the parent
 * links of the nodes need no storage of their own.
 */
module LinkedNodes {
  import opened Wrappers
  import B = BalanceableBinaryTree

  type Dir = B.Dir
  type Path = B.Path

  datatype BTree<E> = Nil | BNode(left: BTree<E>, element: Option<E>, right: BTree<E>)

  function Child<E>(t: BTree<E>, d: Dir): BTree<E>
    requires t.BNode?
  {
    if d == B.Left then t.left else t.right
  }

  /** p leads from the root through nodes to a child slot, which may be empty. */
  predicate ValidSlot<E>(t: BTree<E>, p: Path)
    decreases |p|
  {
    p == [] || (t.BNode? && ValidSlot(Child(t, p[0]), p[1..]))
  }

  /** What slot p holds: a subtree, or Nil for an empty slot. */
  function At<E>(t: BTree<E>, p: Path): BTree<E>
    requires ValidSlot(t, p)
    decreases |p|
  {
    if p == [] then t else At(Child(t, p[0]), p[1..])
  }

  /** p is the position of a node of t. */
  predicate ValidPos<E>(t: BTree<E>, p: Path)
  {
    ValidSlot(t, p) && At(t, p).BNode?
  }

  /** t with slot p holding s instead. */
  function Replace<E>(t: BTree<E>, p: Path, s: BTree<E>): BTree<E>
    requires ValidSlot(t, p)
    decreases |p|
  {
    if p == [] then s
    else if p[0] == B.Left then t.(left := Replace(t.left, p[1..], s))
    else t.(right := Replace(t.right, p[1..], s))
  }

  function CountNodes<E>(t: BTree<E>): nat
  {
    if t.Nil? then 0 else CountNodes(t.left) + 1 + CountNodes(t.right)
  }

  /** The elements of all nodes, null ones included, in order. */
  function Elements<E>(t: BTree<E>): seq<Option<E>>
  {
    if t.Nil? then [] else Elements(t.left) + [t.element] + Elements(t.right)
  }

  /** The elements that come before slot p in order. */
  function Before<E>(t: BTree<E>, p: Path): seq<Option<E>>
    requires ValidSlot(t, p)
    decreases |p|
  {
    if p == [] then []
    else if p[0] == B.Left then Before(t.left, p[1..])
    else Elements(t.left) + [t.element] + Before(t.right, p[1..])
  }

  /** The elements that come after slot p in order. */
  function After<E>(t: BTree<E>, p: Path): seq<Option<E>>
    requires ValidSlot(t, p)
    decreases |p|
  {
    if p == [] then []
    else if p[0] == B.Left then After(t.left, p[1..]) + [t.element] + Elements(t.right)
    else After(t.right, p[1..])
  }

  /** Where the node at p stands in the in-order sequence. */
  function Index<E>(t: BTree<E>, p: Path): (i: nat)
    requires ValidPos(t, p)
    ensures i < |Elements(t)|
  {
    ElementsAround(t, p);
    |Before(t, p)| + |Elements(At(t, p).left)|
  }

  /** The same tree with every element null: what is left is the shape. */
  function Skeleton<E>(t: BTree<E>): BTree<E>
  {
    if t.Nil? then Nil else BNode(Skeleton(t.left), None, Skeleton(t.right))
  }

  /** No node holds null. */
  predicate NoNulls<E>(t: BTree<E>)
  {
    t.Nil? || (t.element.Some? && NoNulls(t.left) && NoNulls(t.right))
  }

  // ---------------------------------------------------------------------------
  // Path algebra

  lemma {:induction false} CountIsLength<E>(t: BTree<E>)
    ensures |Elements(t)| == CountNodes(t)
  {
    if t.BNode? {
      CountIsLength(t.left);
      CountIsLength(t.right);
    }
  }

  /** One step down from a node, and how the context of the slot grows. */
  lemma {:induction false} StepDown<E>(t: BTree<E>, p: Path, d: Dir)
    requires ValidPos(t, p)
    ensures ValidSlot(t, p + [d]) && At(t, p + [d]) == Child(At(t, p), d)
    ensures d == B.Left ==> Before(t, p + [d]) == Before(t, p)
    ensures d == B.Left ==>
      After(t, p + [d]) == [At(t, p).element] + Elements(At(t, p).right) + After(t, p)
    ensures d == B.Right ==>
      Before(t, p + [d]) == Before(t, p) + Elements(At(t, p).left) + [At(t, p).element]
    ensures d == B.Right ==> After(t, p + [d]) == After(t, p)
    decreases |p|
  {
    if p == [] {
      assert p + [d] == [d] && [d][1..] == [];
    } else {
      assert (p + [d])[0] == p[0] && (p + [d])[1..] == p[1..] + [d];
      StepDown(Child(t, p[0]), p[1..], d);
    }
  }

  /** The parent of a slot is a node and the slot is one of its children. */
  lemma {:induction false} StepUp<E>(t: BTree<E>, p: Path)
    requires ValidSlot(t, p) && p != []
    ensures ValidPos(t, B.Parent(p)) && At(t, p) == Child(At(t, B.Parent(p)), B.Last(p))
    decreases |p|
  {
    if |p| == 1 {
      assert B.Parent(p) == [];
    } else {
      StepUp(Child(t, p[0]), p[1..]);
      assert B.Parent(p) == [p[0]] + B.Parent(p[1..]);
      assert B.Parent(p)[1..] == B.Parent(p[1..]);
    }
  }

  /** Replacing at p puts s at p and leaves the context of p as it was. */
  lemma {:induction false} ReplaceAt<E>(t: BTree<E>, p: Path, s: BTree<E>)
    requires ValidSlot(t, p)
    ensures ValidSlot(Replace(t, p, s), p) && At(Replace(t, p, s), p) == s
    ensures Before(Replace(t, p, s), p) == Before(t, p)
    ensures After(Replace(t, p, s), p) == After(t, p)
    decreases |p|
  {
    if p != [] {
      ReplaceAt(Child(t, p[0]), p[1..], s);
    }
  }

  /** The in-order sequence after replacing slot p: only the middle part changes. */
  lemma {:induction false} ReplaceElements<E>(t: BTree<E>, p: Path, s: BTree<E>)
    requires ValidSlot(t, p)
    ensures Elements(Replace(t, p, s)) == Before(t, p) + Elements(s) + After(t, p)
    decreases |p|
  {
    if p != [] {
      var q := p[1..];
      ReplaceElements(Child(t, p[0]), q, s);
      if p[0] == B.Left {
        var m := Before(t.left, q) + Elements(s) + After(t.left, q);
        assert Elements(Replace(t, p, s)) == m + [t.element] + Elements(t.right);
        Regroup(Before(t.left, q) + Elements(s), After(t.left, q), [t.element], Elements(t.right));
      } else {
        var m := Before(t.right, q) + Elements(s) + After(t.right, q);
        assert Elements(Replace(t, p, s)) == Elements(t.left) + [t.element] + m;
        Regroup(Elements(t.left) + [t.element], Before(t.right, q), Elements(s), After(t.right, q));
      }
    }
  }

  /** The in-order sequence around slot p. */
  lemma {:induction false} ElementsAround<E>(t: BTree<E>, p: Path)
    requires ValidSlot(t, p)
    ensures Elements(t) == Before(t, p) + Elements(At(t, p)) + After(t, p)
    decreases |p|
  {
    if p != [] {
      ElementsAround(Child(t, p[0]), p[1..]);
    }
  }

  /** The in-order sequence split at the node at p. */
  lemma NodeElements<E>(t: BTree<E>, p: Path)
    requires ValidPos(t, p)
    ensures Elements(t) == Before(t, p) + Elements(At(t, p).left) + [At(t, p).element]
      + Elements(At(t, p).right) + After(t, p)
    ensures Index(t, p) < |Elements(t)| && Elements(t)[Index(t, p)] == At(t, p).element
  {
    ElementsAround(t, p);
  }

  /** Changing the element at p keeps the shape of the tree. */
  lemma {:induction false} SetKeepsSkeleton<E>(t: BTree<E>, p: Path, e: Option<E>)
    requires ValidPos(t, p)
    ensures Skeleton(Replace(t, p, At(t, p).(element := e))) == Skeleton(t)
    decreases |p|
  {
    if p != [] {
      SetKeepsSkeleton(Child(t, p[0]), p[1..], e);
    }
  }

  /** Trees of the same shape have the same positions. */
  lemma {:induction false} SkeletonPositions<E>(s: BTree<E>, t: BTree<E>, p: Path)
    requires Skeleton(s) == Skeleton(t)
    ensures ValidPos(s, p) <==> ValidPos(t, p)
    decreases |p|
  {
    if p != [] && s.BNode? && t.BNode? {
      SkeletonPositions(Child(s, p[0]), Child(t, p[0]), p[1..]);
    }
  }

  // ---------------------------------------------------------------------------
  // Traversals

  /** Prefix every path of ps with the position p. */
  function Rooted(p: Path, ps: seq<Path>): (r: seq<Path>)
    ensures |r| == |ps| && forall i :: 0 <= i < |ps| ==> r[i] == p + ps[i]
  {
    seq(|ps|, i requires 0 <= i < |ps| => p + ps[i])
  }

  /** The positions whose element is not null, left subtree first (inorder). */
  function InorderPos<E>(t: BTree<E>): seq<Path>
  {
    if t.Nil? then []
    else
      var here: seq<Path> := if t.element.Some? then [[]] else [];
      B.Under(B.Left, InorderPos(t.left)) + here + B.Under(B.Right, InorderPos(t.right))
  }

  /** The positions whose element is not null, each node before its subtrees (preorder). */
  function PreorderPos<E>(t: BTree<E>): seq<Path>
  {
    if t.Nil? then []
    else
      var here: seq<Path> := if t.element.Some? then [[]] else [];
      here + B.Under(B.Left, PreorderPos(t.left)) + B.Under(B.Right, PreorderPos(t.right))
  }

  /** Every position, each node after its subtrees (postorder). */
  function PostorderPos<E>(t: BTree<E>): seq<Path>
  {
    if t.Nil? then []
    else B.Under(B.Left, PostorderPos(t.left)) + B.Under(B.Right, PostorderPos(t.right)) + [[]]
  }

  /** The elements of a tree without nulls, in order. */
  function InValues<E>(t: BTree<E>): seq<E>
    requires NoNulls(t)
  {
    if t.Nil? then [] else InValues(t.left) + [t.element.value] + InValues(t.right)
  }

  /** The elements of a tree without nulls, in preorder. */
  function PreValues<E>(t: BTree<E>): seq<E>
    requires NoNulls(t)
  {
    if t.Nil? then [] else [t.element.value] + PreValues(t.left) + PreValues(t.right)
  }

  ghost predicate Distinct<T>(s: seq<T>)
  {
    forall i, j :: 0 <= i < j < |s| ==> s[i] != s[j]
  }

  predicate IsProperPrefix(a: Path, b: Path)
  {
    |a| < |b| && a == b[..|a|]
  }

  /** A position listed after one of its proper ancestors never comes first. */
  ghost predicate AncestorsFirst(s: seq<Path>)
  {
    forall i, j :: 0 <= i < |s| && 0 <= j < |s| && IsProperPrefix(s[i], s[j]) ==> i < j
  }

  ghost predicate DescendantsFirst(s: seq<Path>)
  {
    forall i, j :: 0 <= i < |s| && 0 <= j < |s| && IsProperPrefix(s[i], s[j]) ==> j < i
  }

  lemma UnderHas(d: Dir, ps: seq<Path>, x: Path)
    ensures x in B.Under(d, ps) <==> |x| > 0 && x[0] == d && x[1..] in ps
  {
    var u := B.Under(d, ps);
    if x in u {
      var i :| 0 <= i < |u| && u[i] == x;
      assert x[1..] == ps[i];
    }
    if |x| > 0 && x[0] == d && x[1..] in ps {
      var i :| 0 <= i < |ps| && ps[i] == x[1..];
      assert u[i] == x;
    }
  }

  lemma UnderDistinct(d: Dir, ps: seq<Path>)
    requires Distinct(ps)
    ensures Distinct(B.Under(d, ps))
  {
    var u := B.Under(d, ps);
    forall i, j | 0 <= i < j < |u|
      ensures u[i] != u[j]
    {
      assert u[i][1..] == ps[i] && u[j][1..] == ps[j];
    }
  }

  lemma DistinctJoin<T>(a: seq<T>, b: seq<T>)
    requires Distinct(a) && Distinct(b)
    requires forall x :: x in a ==> x !in b
    ensures Distinct(a + b)
  {
    var s := a + b;
    forall i, j | 0 <= i < j < |s|
      ensures s[i] != s[j]
    {
      if i < |a| && |a| <= j {
        assert s[i] in a && s[j] in b;
      }
    }
  }

  lemma PrefixUnder(d: Dir, a: Path, b: Path)
    ensures IsProperPrefix([d] + a, [d] + b) <==> IsProperPrefix(a, b)
  {
    if |a| < |b| {
      assert ([d] + b)[..|[d] + a|] == [d] + b[..|a|];
      if [d] + a == [d] + b[..|a|] {
        assert ([d] + a)[1..] == a && ([d] + b[..|a|])[1..] == b[..|a|];
      }
    }
  }

  /** A proper prefix that is not the root starts with the same step. */
  lemma PrefixFirstStep(a: Path, b: Path)
    requires IsProperPrefix(a, b) && |a| > 0
    ensures a[0] == b[0]
  {
    assert a[0] == b[..|a|][0];
  }

  lemma UnderOrder(d: Dir, ps: seq<Path>)
    ensures AncestorsFirst(ps) ==> AncestorsFirst(B.Under(d, ps))
    ensures DescendantsFirst(ps) ==> DescendantsFirst(B.Under(d, ps))
  {
    var u := B.Under(d, ps);
    forall i, j | 0 <= i < |u| && 0 <= j < |u|
      ensures IsProperPrefix(u[i], u[j]) <==> IsProperPrefix(ps[i], ps[j])
    {
      PrefixUnder(d, ps[i], ps[j]);
    }
  }

  lemma AncestorsFirstJoin(a: seq<Path>, b: seq<Path>)
    requires AncestorsFirst(a) && AncestorsFirst(b)
    requires forall i, j :: 0 <= i < |a| && 0 <= j < |b| ==> !IsProperPrefix(b[j], a[i])
    ensures AncestorsFirst(a + b)
  {
    var s := a + b;
    forall i, j | 0 <= i < |s| && 0 <= j < |s| && IsProperPrefix(s[i], s[j])
      ensures i < j
    {
      if |a| <= i && |a| <= j {
        assert s[i] == b[i - |a|] && s[j] == b[j - |a|];
      }
    }
  }

  lemma DescendantsFirstJoin(a: seq<Path>, b: seq<Path>)
    requires DescendantsFirst(a) && DescendantsFirst(b)
    requires forall i, j :: 0 <= i < |a| && 0 <= j < |b| ==> !IsProperPrefix(a[i], b[j])
    ensures DescendantsFirst(a + b)
  {
    var s := a + b;
    forall i, j | 0 <= i < |s| && 0 <= j < |s| && IsProperPrefix(s[i], s[j])
      ensures j < i
    {
      if |a| <= i && |a| <= j {
        assert s[i] == b[i - |a|] && s[j] == b[j - |a|];
      }
    }
  }

  /** One step below the root: a position of t is a position of the child it starts into. */
  lemma ChildPositions<E>(t: BTree<E>, p: Path)
    requires t.BNode? && p != []
    ensures ValidPos(t, p) <==> ValidPos(Child(t, p[0]), p[1..])
    ensures ValidPos(t, p) ==> At(t, p) == At(Child(t, p[0]), p[1..])
  {
  }

  /** The i-th prefixed position of a child's list is that child's i-th position. */
  lemma UnderPos<E>(t: BTree<E>, d: Dir, ps: seq<Path>, i: int)
    requires t.BNode? && 0 <= i < |ps|
    ensures ValidPos(t, B.Under(d, ps)[i]) <==> ValidPos(Child(t, d), ps[i])
    ensures ValidPos(t, B.Under(d, ps)[i]) ==> At(t, B.Under(d, ps)[i]) == At(Child(t, d), ps[i])
  {
    var x := B.Under(d, ps)[i];
    assert x[0] == d && x[1..] == ps[i];
    ChildPositions(t, x);
  }

  /** Both subtrees' positions, prefixed, share no path and none is the root. */
  lemma SidesApart(l: seq<Path>, r: seq<Path>)
    ensures forall x :: x in B.Under(B.Left, l) ==> x !in B.Under(B.Right, r) && x != []
    ensures forall x :: x in B.Under(B.Right, r) ==> x != []
  {
    forall x | x in B.Under(B.Left, l)
      ensures x !in B.Under(B.Right, r) && x != []
    {
      UnderHas(B.Left, l, x);
      UnderHas(B.Right, r, x);
    }
    forall x | x in B.Under(B.Right, r)
      ensures x != []
    {
      UnderHas(B.Right, r, x);
    }
  }

  /** No position in one subtree is an ancestor of a position in the other. */
  lemma SidesUnrelated(l: seq<Path>, r: seq<Path>)
    ensures forall i, j :: 0 <= i < |l| && 0 <= j < |r| ==>
      !IsProperPrefix(B.Under(B.Left, l)[i], B.Under(B.Right, r)[j]) &&
      !IsProperPrefix(B.Under(B.Right, r)[j], B.Under(B.Left, l)[i])
  {
    forall i, j | 0 <= i < |l| && 0 <= j < |r|
      ensures !IsProperPrefix(B.Under(B.Left, l)[i], B.Under(B.Right, r)[j])
      ensures !IsProperPrefix(B.Under(B.Right, r)[j], B.Under(B.Left, l)[i])
    {
      var x, y := B.Under(B.Left, l)[i], B.Under(B.Right, r)[j];
      if IsProperPrefix(x, y) {
        PrefixFirstStep(x, y);
      }
      if IsProperPrefix(y, x) {
        PrefixFirstStep(y, x);
      }
    }
  }

  /** inorder(): exactly the positions whose element is not null, each once. */
  lemma {:induction false} InorderMeaning<E>(t: BTree<E>)
    ensures forall p :: p in InorderPos(t) <==> ValidPos(t, p) && At(t, p).element.Some?
    ensures Distinct(InorderPos(t))
  {
    if t.BNode? {
      var l, r := InorderPos(t.left), InorderPos(t.right);
      InorderMeaning(t.left);
      InorderMeaning(t.right);
      var ul, ur := B.Under(B.Left, l), B.Under(B.Right, r);
      var here: seq<Path> := if t.element.Some? then [[]] else [];
      var ps := InorderPos(t);
      assert ps == ul + here + ur;
      SidesApart(l, r);
      forall p
        ensures p in ps <==> ValidPos(t, p) && At(t, p).element.Some?
      {
        UnderHas(B.Left, l, p);
        UnderHas(B.Right, r, p);
        if p != [] {
          ChildPositions(t, p);
        }
      }
      UnderDistinct(B.Left, l);
      UnderDistinct(B.Right, r);
      DistinctJoin(ul, here);
      DistinctJoin(ul + here, ur);
    }
  }

  /** On a tree without nulls, the i-th inorder position holds the i-th element in order. */
  lemma {:induction false} InorderValues<E>(t: BTree<E>)
    requires NoNulls(t)
    ensures |InorderPos(t)| == |InValues(t)|
    ensures forall i :: 0 <= i < |InorderPos(t)| ==>
      ValidPos(t, InorderPos(t)[i]) && At(t, InorderPos(t)[i]).element == Some(InValues(t)[i])
  {
    if t.BNode? {
      InorderValues(t.left);
      InorderValues(t.right);
      InJoin(t, InorderPos(t.left), InorderPos(t.right), InValues(t.left), InValues(t.right));
    }
  }

  /** Listings of the two subtrees, each matched with its values, combine in order around the root. */
  lemma InJoin<E>(t: BTree<E>, l: seq<Path>, r: seq<Path>, vl: seq<E>, vr: seq<E>)
    requires t.BNode? && t.element.Some? && |l| == |vl| && |r| == |vr|
    requires forall i :: 0 <= i < |l| ==> ValidPos(t.left, l[i]) && At(t.left, l[i]).element == Some(vl[i])
    requires forall i :: 0 <= i < |r| ==> ValidPos(t.right, r[i]) && At(t.right, r[i]).element == Some(vr[i])
    ensures var ps, vs := B.Under(B.Left, l) + [[]] + B.Under(B.Right, r), vl + [t.element.value] + vr;
      |ps| == |vs| &&
      forall i :: 0 <= i < |ps| ==> ValidPos(t, ps[i]) && At(t, ps[i]).element == Some(vs[i])
  {
    var ps, vs := B.Under(B.Left, l) + [[]] + B.Under(B.Right, r), vl + [t.element.value] + vr;
    forall i | 0 <= i < |ps|
      ensures ValidPos(t, ps[i]) && At(t, ps[i]).element == Some(vs[i])
    {
      if i < |l| {
        assert ps[i] == B.Under(B.Left, l)[i] && vs[i] == vl[i];
        UnderPos(t, B.Left, l, i);
      } else if i == |l| {
        assert ps[i] == [] && vs[i] == t.element.value;
      } else {
        var j := i - |l| - 1;
        assert ps[i] == B.Under(B.Right, r)[j] && vs[i] == vr[j];
        UnderPos(t, B.Right, r, j);
      }
    }
  }

  /** preorder(): exactly the positions whose element is not null, each once, every node before its descendants. */
  lemma PreorderMeaning<E>(t: BTree<E>)
    ensures forall p :: p in PreorderPos(t) <==> ValidPos(t, p) && At(t, p).element.Some?
    ensures Distinct(PreorderPos(t)) && AncestorsFirst(PreorderPos(t))
  {
    PreorderMembers(t);
    PreorderOrder(t);
  }

  lemma {:induction false} PreorderMembers<E>(t: BTree<E>)
    ensures forall p :: p in PreorderPos(t) <==> ValidPos(t, p) && At(t, p).element.Some?
    ensures Distinct(PreorderPos(t))
  {
    if t.BNode? {
      var l, r := PreorderPos(t.left), PreorderPos(t.right);
      PreorderMembers(t.left);
      PreorderMembers(t.right);
      var ul, ur := B.Under(B.Left, l), B.Under(B.Right, r);
      var here: seq<Path> := if t.element.Some? then [[]] else [];
      var ps := PreorderPos(t);
      assert ps == here + ul + ur;
      SidesApart(l, r);
      forall p
        ensures p in ps <==> ValidPos(t, p) && At(t, p).element.Some?
      {
        UnderHas(B.Left, l, p);
        UnderHas(B.Right, r, p);
        if p != [] {
          ChildPositions(t, p);
        }
      }
      UnderDistinct(B.Left, l);
      UnderDistinct(B.Right, r);
      DistinctJoin(here, ul);
      DistinctJoin(here + ul, ur);
    }
  }

  lemma {:induction false} PreorderOrder<E>(t: BTree<E>)
    ensures AncestorsFirst(PreorderPos(t))
  {
    if t.BNode? {
      var l, r := PreorderPos(t.left), PreorderPos(t.right);
      PreorderOrder(t.left);
      PreorderOrder(t.right);
      var here: seq<Path> := if t.element.Some? then [[]] else [];
      UnderOrder(B.Left, l);
      UnderOrder(B.Right, r);
      SidesUnrelated(l, r);
      RootsThenSides(here, B.Under(B.Left, l), B.Under(B.Right, r));
    }
  }

  /** Root entries, then a left block, then a right block keep ancestors first. */
  lemma RootsThenSides(h: seq<Path>, a: seq<Path>, b: seq<Path>)
    requires forall i :: 0 <= i < |h| ==> h[i] == []
    requires AncestorsFirst(a) && AncestorsFirst(b)
    requires forall i, j :: 0 <= i < |a| && 0 <= j < |b| ==> !IsProperPrefix(b[j], a[i])
    ensures AncestorsFirst(h + a + b)
  {
    AncestorsFirstJoin(h, a);
    var ha := h + a;
    forall i, j | 0 <= i < |ha| && 0 <= j < |b|
      ensures !IsProperPrefix(b[j], ha[i])
    {
      if |h| <= i {
        assert ha[i] == a[i - |h|];
      }
    }
    AncestorsFirstJoin(ha, b);
  }

  /** On a tree without nulls, the i-th preorder position holds the i-th element of the preorder sequence. */
  lemma {:induction false} PreorderValues<E>(t: BTree<E>)
    requires NoNulls(t)
    ensures |PreorderPos(t)| == |PreValues(t)|
    ensures forall i :: 0 <= i < |PreorderPos(t)| ==>
      ValidPos(t, PreorderPos(t)[i]) && At(t, PreorderPos(t)[i]).element == Some(PreValues(t)[i])
  {
    if t.BNode? {
      PreorderValues(t.left);
      PreorderValues(t.right);
      PreJoin(t, PreorderPos(t.left), PreorderPos(t.right), PreValues(t.left), PreValues(t.right));
    }
  }

  /** Listings of the two subtrees, each matched with its values, combine in preorder after the root. */
  lemma PreJoin<E>(t: BTree<E>, l: seq<Path>, r: seq<Path>, vl: seq<E>, vr: seq<E>)
    requires t.BNode? && t.element.Some? && |l| == |vl| && |r| == |vr|
    requires forall i :: 0 <= i < |l| ==> ValidPos(t.left, l[i]) && At(t.left, l[i]).element == Some(vl[i])
    requires forall i :: 0 <= i < |r| ==> ValidPos(t.right, r[i]) && At(t.right, r[i]).element == Some(vr[i])
    ensures var ps, vs := [[]] + B.Under(B.Left, l) + B.Under(B.Right, r), [t.element.value] + vl + vr;
      |ps| == |vs| &&
      forall i :: 0 <= i < |ps| ==> ValidPos(t, ps[i]) && At(t, ps[i]).element == Some(vs[i])
  {
    var ps, vs := [[]] + B.Under(B.Left, l) + B.Under(B.Right, r), [t.element.value] + vl + vr;
    forall i | 0 <= i < |ps|
      ensures ValidPos(t, ps[i]) && At(t, ps[i]).element == Some(vs[i])
    {
      if i == 0 {
        assert ps[i] == [] && vs[i] == t.element.value;
      } else if i < 1 + |l| {
        assert ps[i] == B.Under(B.Left, l)[i - 1] && vs[i] == vl[i - 1];
        UnderPos(t, B.Left, l, i - 1);
      } else {
        var j := i - |l| - 1;
        assert ps[i] == B.Under(B.Right, r)[j] && vs[i] == vr[j];
        UnderPos(t, B.Right, r, j);
      }
    }
  }

  /** postorder(): every position, null elements included, each once, every node after its descendants. */
  lemma PostorderMeaning<E>(t: BTree<E>)
    ensures forall p :: p in PostorderPos(t) <==> ValidPos(t, p)
    ensures Distinct(PostorderPos(t)) && DescendantsFirst(PostorderPos(t))
  {
    PostorderMembers(t);
    PostorderOrder(t);
  }

  lemma {:induction false} PostorderMembers<E>(t: BTree<E>)
    ensures forall p :: p in PostorderPos(t) <==> ValidPos(t, p)
  {
    if t.BNode? {
      var l, r := PostorderPos(t.left), PostorderPos(t.right);
      PostorderMembers(t.left);
      PostorderMembers(t.right);
      var ps := PostorderPos(t);
      assert ps == B.Under(B.Left, l) + B.Under(B.Right, r) + [[]];
      forall p
        ensures p in ps <==> ValidPos(t, p)
      {
        UnderHas(B.Left, l, p);
        UnderHas(B.Right, r, p);
        if p != [] {
          ChildPositions(t, p);
        }
      }
    }
  }

  lemma {:induction false} PostorderOrder<E>(t: BTree<E>)
    ensures Distinct(PostorderPos(t)) && DescendantsFirst(PostorderPos(t))
  {
    if t.BNode? {
      var l, r := PostorderPos(t.left), PostorderPos(t.right);
      PostorderOrder(t.left);
      PostorderOrder(t.right);
      var ul, ur := B.Under(B.Left, l), B.Under(B.Right, r);
      assert PostorderPos(t) == ul + ur + [[]];
      SidesApart(l, r);
      SidesUnrelated(l, r);
      UnderDistinct(B.Left, l);
      UnderDistinct(B.Right, r);
      DistinctJoin(ul, ur);
      DistinctJoin(ul + ur, [[]]);
      UnderOrder(B.Left, l);
      UnderOrder(B.Right, r);
      DescendantsFirstJoin(ul, ur);
      DescendantsFirstJoin(ul + ur, [[]]);
    }
  }

  // ---------------------------------------------------------------------------
  // Height and diameter

  function Max(a: int, b: int): int
  {
    if a < b then b else a
  }

  /** height(p): 0 for a node without children, else one more than its tallest child. */
  function Height<E>(t: BTree<E>): nat
    requires t.BNode?
  {
    var hl := if t.left.BNode? then 1 + Height(t.left) else 0;
    var hr := if t.right.BNode? then 1 + Height(t.right) else 0;
    Max(hl, hr)
  }

  /** No position lies deeper below a node than its height. */
  lemma {:induction false} HeightBound<E>(t: BTree<E>, p: Path)
    requires ValidPos(t, p)
    ensures |p| <= Height(t)
    decreases |p|
  {
    if p != [] {
      ChildPositions(t, p);
      HeightBound(Child(t, p[0]), p[1..]);
    }
  }

  /** A position exactly as deep as the height: the height is reached. */
  function Deepest<E>(t: BTree<E>): (p: Path)
    requires t.BNode?
    ensures ValidPos(t, p) && |p| == Height(t)
  {
    var hl := if t.left.BNode? then 1 + Height(t.left) else 0;
    var hr := if t.right.BNode? then 1 + Height(t.right) else 0;
    if hl == 0 && hr == 0 then []
    else if hr <= hl then
      var q := Deepest(t.left);
      assert ([B.Left] + q)[0] == B.Left && ([B.Left] + q)[1..] == q;
      [B.Left] + q
    else
      var q := Deepest(t.right);
      assert ([B.Right] + q)[0] == B.Right && ([B.Right] + q)[1..] == q;
      [B.Right] + q
  }

  /** getDiameter's result: the number of nodes on the longest downward path (0 for no node). */
  function NodeHeight<E>(t: BTree<E>): nat
  {
    if t.Nil? then 0 else 1 + Max(NodeHeight(t.left), NodeHeight(t.right))
  }

  /** Counting nodes instead of steps, the height is one more. */
  lemma {:induction false} NodeHeightIsHeight<E>(t: BTree<E>)
    requires t.BNode?
    ensures NodeHeight(t) == Height(t) + 1
  {
    if t.left.BNode? {
      NodeHeightIsHeight(t.left);
    }
    if t.right.BNode? {
      NodeHeightIsHeight(t.right);
    }
  }

  /** The nodes on the longest path that turns at the node t. */
  function Through<E>(t: BTree<E>): nat
    requires t.BNode?
  {
    1 + NodeHeight(t.left) + NodeHeight(t.right)
  }

  /** What diameter() accumulates: the largest Through over all nodes. */
  function Span<E>(t: BTree<E>): nat
  {
    if t.Nil? then 0 else Max(Through(t), Max(Span(t.left), Span(t.right)))
  }

  /** No node has a longer path through it than the diameter. */
  lemma {:induction false} SpanBound<E>(t: BTree<E>, p: Path)
    requires ValidPos(t, p)
    ensures Through(At(t, p)) <= Span(t)
    decreases |p|
  {
    if p != [] {
      ChildPositions(t, p);
      SpanBound(Child(t, p[0]), p[1..]);
    }
  }

  /** A node whose longest path has exactly the diameter's length: the diameter is reached. */
  function Widest<E>(t: BTree<E>): (p: Path)
    requires t.BNode?
    ensures ValidPos(t, p) && Through(At(t, p)) == Span(t)
  {
    if Span(t) == Through(t) then []
    else if Span(t.right) <= Span(t.left) then
      var q := Widest(t.left);
      assert ([B.Left] + q)[0] == B.Left && ([B.Left] + q)[1..] == q;
      [B.Left] + q
    else
      var q := Widest(t.right);
      assert ([B.Right] + q)[0] == B.Right && ([B.Right] + q)[1..] == q;
      [B.Right] + q
  }

  // ---------------------------------------------------------------------------
  // Building a tree from its traversals, and from a level-order array

  /** The first index of x in s, or |s| when x does not occur. */
  function IndexOf<T(==)>(s: seq<T>, x: T): (i: nat)
    ensures i <= |s| && (i < |s| ==> s[i] == x)
    ensures forall j :: 0 <= j < i ==> s[j] != x
  {
    if s == [] then 0 else if s[0] == x then 0 else 1 + IndexOf(s[1..], x)
  }

  /**
   * construct_tree on equally long inorder and preorder ranges: the first
   * preorder element is the root; where it first occurs in the inorder range
   * splits both ranges into the left and the right subtree. A root that does
   * not occur in the inorder range gets no children.
   */
  function Build<T(==)>(ino: seq<T>, pre: seq<T>): BTree<T>
    requires |ino| == |pre|
    decreases |pre|
  {
    if |pre| == 0 then Nil
    else
      var e := pre[0];
      var i := IndexOf(ino, e);
      if i == |ino| then BNode(Nil, Some(e), Nil)
      else BNode(Build(ino[..i], pre[1..i + 1]), Some(e), Build(ino[i + 1..], pre[i + 1..]))
  }

  /** Where the root's first equal in the inorder sequence is at k, Build splits there. */
  lemma BuildAt<T>(ino: seq<T>, pre: seq<T>, k: nat)
    requires |ino| == |pre| && k < |ino| && ino[k] == pre[0]
    requires forall j :: 0 <= j < k ==> ino[j] != pre[0]
    ensures Build(ino, pre) == BNode(Build(ino[..k], pre[1..k + 1]), Some(pre[0]), Build(ino[k + 1..], pre[k + 1..]))
  {
    assert IndexOf(ino, pre[0]) == k;
  }

  /** Where the root has no equal in the inorder sequence, Build makes it a leaf. */
  lemma BuildMissing<T>(ino: seq<T>, pre: seq<T>)
    requires |ino| == |pre| && 0 < |pre|
    requires forall j :: 0 <= j < |ino| ==> ino[j] != pre[0]
    ensures Build(ino, pre) == BNode(Nil, Some(pre[0]), Nil)
  {
    assert IndexOf(ino, pre[0]) == |ino|;
  }

  /** Build on the inorder range [iStart, iEnd) and the preorder range [pStart, pEnd). */
  function Rebuild<T(==)>(ino: seq<T>, pre: seq<T>, pStart: int, pEnd: int, iStart: int, iEnd: int): BTree<T>
    requires 0 <= pStart <= pEnd <= |pre| && 0 <= iStart <= iEnd <= |ino| && pEnd - pStart == iEnd - iStart
  {
    Build(ino[iStart..iEnd], pre[pStart..pEnd])
  }

  /** BuildAt over index ranges, in the terms of construct_tree's arguments. */
  lemma BuildRange<T>(ino: seq<T>, pre: seq<T>, pStart: int, pEnd: int, iStart: int, iEnd: int, i: int)
    requires 0 <= pStart <= pEnd <= |pre| && 0 <= iStart <= i < iEnd <= |ino| && pEnd - pStart == iEnd - iStart
    requires ino[i] == pre[pStart] && forall j :: iStart <= j < i ==> ino[j] != pre[pStart]
    ensures Build(ino[iStart..iEnd], pre[pStart..pEnd]) ==
      BNode(Build(ino[iStart..i], pre[pStart + 1..i - iStart + (pStart + 1)]), Some(pre[pStart]),
        Build(ino[i + 1..iEnd], pre[(i + 1) - iEnd + pEnd..pEnd]))
  {
    FirstInRange(ino, pre, pStart, pEnd, iStart, iEnd, i);
    BuildAt(ino[iStart..iEnd], pre[pStart..pEnd], i - iStart);
    RangeSlices(ino, pre, pStart, pEnd, iStart, iEnd, i);
  }

  /** The first occurrence at i within the ranges is the first occurrence at i - iStart within the slices. */
  lemma FirstInRange<T>(ino: seq<T>, pre: seq<T>, pStart: int, pEnd: int, iStart: int, iEnd: int, i: int)
    requires 0 <= pStart <= pEnd <= |pre| && 0 <= iStart <= i < iEnd <= |ino| && pEnd - pStart == iEnd - iStart
    requires ino[i] == pre[pStart] && forall j :: iStart <= j < i ==> ino[j] != pre[pStart]
    ensures ino[iStart..iEnd][i - iStart] == pre[pStart..pEnd][0]
    ensures forall j :: 0 <= j < i - iStart ==> ino[iStart..iEnd][j] != pre[pStart..pEnd][0]
  {
    var a, b, k := ino[iStart..iEnd], pre[pStart..pEnd], i - iStart;
    forall j | 0 <= j < k
      ensures a[j] != b[0]
    {
      assert a[j] == ino[iStart + j];
    }
  }

  /** The slices BuildAt takes of the two ranges, as ranges of the whole sequences. */
  lemma RangeSlices<T>(ino: seq<T>, pre: seq<T>, pStart: int, pEnd: int, iStart: int, iEnd: int, i: int)
    requires 0 <= pStart <= pEnd <= |pre| && 0 <= iStart <= i < iEnd <= |ino| && pEnd - pStart == iEnd - iStart
    ensures ino[iStart..iEnd][..i - iStart] == ino[iStart..i]
    ensures pre[pStart..pEnd][1..i - iStart + 1] == pre[pStart + 1..i - iStart + (pStart + 1)]
    ensures ino[iStart..iEnd][i - iStart + 1..] == ino[i + 1..iEnd]
    ensures pre[pStart..pEnd][i - iStart + 1..] == pre[(i + 1) - iEnd + pEnd..pEnd]
  {
    var b, k := pre[pStart..pEnd], i - iStart;
    var c := b[1..k + 1];
    assert forall j :: 0 <= j < k ==> c[j] == pre[pStart + 1 + j];
  }

  /** The subtrees built from the two sides of the split join under the root. */
  lemma BuildJoin<T>(ino: seq<T>, pre: seq<T>, pStart: int, pEnd: int, iStart: int, iEnd: int, i: int,
                     left: BTree<T>, right: BTree<T>)
    requires 0 <= pStart <= pEnd <= |pre| && 0 <= iStart <= i < iEnd <= |ino| && pEnd - pStart == iEnd - iStart
    requires ino[i] == pre[pStart] && forall j :: iStart <= j < i ==> ino[j] != pre[pStart]
    requires left == Rebuild(ino, pre, pStart + 1, i - iStart + (pStart + 1), iStart, i)
    requires right == Rebuild(ino, pre, (i + 1) - iEnd + pEnd, pEnd, i + 1, iEnd)
    ensures BNode(left, Some(pre[pStart]), right) == Rebuild(ino, pre, pStart, pEnd, iStart, iEnd)
  {
    BuildRange(ino, pre, pStart, pEnd, iStart, iEnd, i);
  }

  /** BuildMissing over index ranges. */
  lemma BuildRangeMissing<T>(ino: seq<T>, pre: seq<T>, pStart: int, pEnd: int, iStart: int, iEnd: int)
    requires 0 <= pStart < pEnd <= |pre| && 0 <= iStart <= iEnd <= |ino| && pEnd - pStart == iEnd - iStart
    requires forall j :: iStart <= j < iEnd ==> ino[j] != pre[pStart]
    ensures Rebuild(ino, pre, pStart, pEnd, iStart, iEnd) == BNode(Nil, Some(pre[pStart]), Nil)
  {
    var a, b := ino[iStart..iEnd], pre[pStart..pEnd];
    forall j | 0 <= j < |a|
      ensures a[j] != b[0]
    {
      assert a[j] == ino[iStart + j];
    }
    BuildMissing(a, b);
  }

  /**
   * What construct_tree does on arbitrary index ranges: the subtree built or
   * the exception thrown, and how many nodes it created (each adding one to
   * size) before it returned or threw.
   */
  datatype Constructed<T> = Constructed(result: Outcome<BTree<T>>, made: nat)

  /** The first index in [iStart, iEnd) holding x, or iEnd when there is none. */
  function FirstIndexIn<T(==)>(ino: seq<T>, x: T, iStart: int, iEnd: int): (i: int)
    requires 0 <= iStart <= iEnd <= |ino|
    ensures iStart <= i <= iEnd && (i < iEnd ==> ino[i] == x)
    ensures forall j :: iStart <= j < i ==> ino[j] != x
    decreases iEnd - iStart
  {
    if iStart == iEnd then iEnd
    else if ino[iStart] == x then iStart
    else FirstIndexIn(ino, x, iStart + 1, iEnd)
  }

  /**
   * construct_tree on any ranges. An empty range on either side gives null.
   * Otherwise preorder[pStart] is read, which throws when pStart lies outside
   * the array, and the node for it is created and counted; the search for
   * its equal in the inorder range follows. Nothing forces the two ranges to
   * be equally long, so the preorder indices can leave the array.
   */
  function ConstructRange<T(==)>(ino: seq<T>, pre: seq<T>, pStart: int, pEnd: int, iStart: int, iEnd: int)
    : (c: Constructed<T>)
    requires 0 <= iStart <= iEnd <= |ino|
    ensures c.made <= iEnd - iStart
    ensures c.result.Ok? ==> c.made == CountNodes(c.result.value)
    decreases iEnd - iStart, 1, 0
  {
    if pStart >= pEnd || iStart >= iEnd then Constructed(Ok(Nil), 0)
    else if pStart < 0 || |pre| <= pStart then Constructed(Thrown(ArrayIndexOutOfBoundsException), 0)
    else ConstructScan(ino, pre, pStart, pEnd, iStart, iEnd, iStart)
  }

  /**
   * The search loop of construct_tree from inorder index i on: at the first
   * equal of preorder[pStart] both sides are built, left first, and the node
   * joins them; with no equal left the node stays a leaf.
   */
  function ConstructScan<T(==)>(ino: seq<T>, pre: seq<T>, pStart: int, pEnd: int, iStart: int, iEnd: int, i: int)
    : (c: Constructed<T>)
    requires 0 <= iStart <= i <= iEnd <= |ino| && iStart < iEnd && 0 <= pStart < |pre|
    ensures 1 <= c.made <= iEnd - iStart
    ensures c.result.Ok? ==> c.made == CountNodes(c.result.value)
    decreases iEnd - iStart, 0, iEnd - i
  {
    if i == iEnd then Constructed(Ok(BNode(Nil, Some(pre[pStart]), Nil)), 1)
    else if ino[i] == pre[pStart] then
      Join(pre[pStart], ConstructRange(ino, pre, pStart + 1, i - iStart + (pStart + 1), iStart, i),
        ConstructRange(ino, pre, (i + 1) - iEnd + pEnd, pEnd, i + 1, iEnd))
    else ConstructScan(ino, pre, pStart, pEnd, iStart, iEnd, i + 1)
  }

  /**
   * The node e over the two sides construct_tree built: an exception from
   * the left side ends the call before the right side is built, and one
   * from the right side ends it after the left side's nodes were counted.
   */
  function Join<T>(e: T, l: Constructed<T>, r: Constructed<T>): (c: Constructed<T>)
    ensures c.result.Ok? <==> l.result.Ok? && r.result.Ok?
    ensures c.made == 1 + l.made + (if l.result.Ok? then r.made else 0)
    ensures c.result.Ok? ==> c.result.value == BNode(l.result.value, Some(e), r.result.value)
  {
    if l.result.Thrown? then Constructed(l.result, 1 + l.made)
    else if r.result.Thrown? then Constructed(r.result, 1 + l.made + r.made)
    else Constructed(Ok(BNode(l.result.value, Some(e), r.result.value)), 1 + l.made + r.made)
  }

  /**
   * A tree built from array entries, each an element or null, read as a tree
   * of nullable elements: a null entry becomes a node whose element is null.
   */
  function Unbox<T>(t: BTree<Option<T>>): (u: BTree<T>)
    ensures CountNodes(u) == CountNodes(t)
  {
    if t.Nil? then Nil
    else BNode(Unbox(t.left), if t.element.Some? then t.element.value else None, Unbox(t.right))
  }

  /** Unbox on the tree construct_tree returns; an exception passes through. */
  function UnboxResult<T>(o: Outcome<BTree<Option<T>>>): Outcome<BTree<T>>
  {
    if o.Ok? then Ok(Unbox(o.value)) else Thrown(o.error)
  }

  /** The entry a node of a built tree holds, read as a nullable element. */
  function Entry<T>(o: Option<Option<T>>): Option<T>
  {
    if o.Some? then o.value else None
  }

  /** Unbox keeps the shape: the i-th node in order holds the i-th entry. */
  lemma {:induction false} UnboxElements<T>(t: BTree<Option<T>>)
    ensures |Elements(Unbox(t))| == |Elements(t)|
    ensures forall i :: 0 <= i < |Elements(t)| ==> Elements(Unbox(t))[i] == Entry(Elements(t)[i])
  {
    if t.BNode? {
      UnboxElements(t.left);
      UnboxElements(t.right);
      var u := Unbox(t);
      var el, er := Elements(t.left), Elements(t.right);
      assert Elements(t) == el + [t.element] + er;
      assert Elements(u) == Elements(Unbox(t.left)) + [Entry(t.element)] + Elements(Unbox(t.right));
      forall i | 0 <= i < |Elements(t)|
        ensures Elements(u)[i] == Entry(Elements(t)[i])
      {
        if i < |el| {
          assert Elements(t)[i] == el[i];
        } else if i == |el| {
        } else {
          assert Elements(t)[i] == er[i - |el| - 1];
        }
      }
    }
  }

  /** The search passes over inorder elements that differ from the root. */
  lemma {:induction false} ScanSkips<T>(ino: seq<T>, pre: seq<T>, pStart: int, pEnd: int, iStart: int, iEnd: int, k: int, i: int)
    requires 0 <= iStart <= k <= i <= iEnd <= |ino| && iStart < iEnd && 0 <= pStart < |pre|
    requires forall j :: k <= j < i ==> ino[j] != pre[pStart]
    ensures ConstructScan(ino, pre, pStart, pEnd, iStart, iEnd, k) == ConstructScan(ino, pre, pStart, pEnd, iStart, iEnd, i)
    decreases i - k
  {
    if k < i {
      ScanSkips(ino, pre, pStart, pEnd, iStart, iEnd, k + 1, i);
    }
  }

  /** Empty ranges give null, and a root with no equal in the inorder range a leaf, as in Rebuild. */
  lemma AgreesLeaf<T>(ino: seq<T>, pre: seq<T>, pStart: int, pEnd: int, iStart: int, iEnd: int)
    requires 0 <= pStart <= pEnd <= |pre| && 0 <= iStart <= iEnd <= |ino| && pEnd - pStart == iEnd - iStart
    requires pStart < pEnd ==> FirstIndexIn(ino, pre[pStart], iStart, iEnd) == iEnd
    ensures ConstructRange(ino, pre, pStart, pEnd, iStart, iEnd).result == Ok(Rebuild(ino, pre, pStart, pEnd, iStart, iEnd))
  {
    if pStart == pEnd {
      assert ino[iStart..iEnd] == [] && pre[pStart..pEnd] == [];
    } else {
      ScanSkips(ino, pre, pStart, pEnd, iStart, iEnd, iStart, iEnd);
      BuildRangeMissing(ino, pre, pStart, pEnd, iStart, iEnd);
    }
  }

  /** Where both sides agree with Rebuild, so does the node joining them. */
  lemma AgreesJoin<T>(ino: seq<T>, pre: seq<T>, pStart: int, pEnd: int, iStart: int, iEnd: int, i: int)
    requires 0 <= pStart < pEnd <= |pre| && 0 <= iStart <= iEnd <= |ino| && pEnd - pStart == iEnd - iStart
    requires iStart <= i < iEnd && i == FirstIndexIn(ino, pre[pStart], iStart, iEnd)
    requires ConstructRange(ino, pre, pStart + 1, i - iStart + (pStart + 1), iStart, i).result ==
      Ok(Rebuild(ino, pre, pStart + 1, i - iStart + (pStart + 1), iStart, i))
    requires ConstructRange(ino, pre, (i + 1) - iEnd + pEnd, pEnd, i + 1, iEnd).result ==
      Ok(Rebuild(ino, pre, (i + 1) - iEnd + pEnd, pEnd, i + 1, iEnd))
    ensures ConstructRange(ino, pre, pStart, pEnd, iStart, iEnd).result == Ok(Rebuild(ino, pre, pStart, pEnd, iStart, iEnd))
  {
    var left := Rebuild(ino, pre, pStart + 1, i - iStart + (pStart + 1), iStart, i);
    var right := Rebuild(ino, pre, (i + 1) - iEnd + pEnd, pEnd, i + 1, iEnd);
    ScanSkips(ino, pre, pStart, pEnd, iStart, iEnd, iStart, i);
    assert ConstructRange(ino, pre, pStart, pEnd, iStart, iEnd) ==
      Join(pre[pStart], ConstructRange(ino, pre, pStart + 1, i - iStart + (pStart + 1), iStart, i),
        ConstructRange(ino, pre, (i + 1) - iEnd + pEnd, pEnd, i + 1, iEnd));
    BuildJoin(ino, pre, pStart, pEnd, iStart, iEnd, i, left, right);
  }

  /**
   * On in-bounds ranges of equal length construct_tree never throws and
   * builds Rebuild's tree.
   */
  lemma {:induction false} ConstructRangeAgrees<T>(ino: seq<T>, pre: seq<T>, pStart: int, pEnd: int, iStart: int, iEnd: int)
    requires 0 <= pStart <= pEnd <= |pre| && 0 <= iStart <= iEnd <= |ino| && pEnd - pStart == iEnd - iStart
    ensures ConstructRange(ino, pre, pStart, pEnd, iStart, iEnd).result == Ok(Rebuild(ino, pre, pStart, pEnd, iStart, iEnd))
    decreases iEnd - iStart
  {
    if pStart >= pEnd || FirstIndexIn(ino, pre[pStart], iStart, iEnd) == iEnd {
      AgreesLeaf(ino, pre, pStart, pEnd, iStart, iEnd);
    } else {
      var i := FirstIndexIn(ino, pre[pStart], iStart, iEnd);
      ConstructRangeAgrees(ino, pre, pStart + 1, i - iStart + (pStart + 1), iStart, i);
      ConstructRangeAgrees(ino, pre, (i + 1) - iEnd + pEnd, pEnd, i + 1, iEnd);
      AgreesJoin(ino, pre, pStart, pEnd, iStart, iEnd, i);
    }
  }

  /**
   * A preorder array shorter than the inorder one can still give a tree:
   * the right call re-reads preorder[0], so inorder [1, 2] with preorder [1]
   * gives 1 with a right child 1, and two nodes are counted.
   */
  lemma ShortPreorderRepeats()
    ensures ConstructRange([1, 2], [1], 0, 1, 0, 2) ==
      Constructed(Ok(BNode(Nil, Some(1), BNode(Nil, Some(1), Nil))), 2)
  {
    assert ConstructScan([1, 2], [1], 0, 1, 1, 2, 1) == Constructed(Ok(BNode(Nil, Some(1), Nil)), 1);
  }

  /**
   * Or it throws: with inorder [1, 2, 3] and preorder [1] the right call
   * starts at preorder index -1, after the root was counted.
   */
  lemma ShortPreorderThrows()
    ensures ConstructRange([1, 2, 3], [1], 0, 1, 0, 3) ==
      Constructed(Thrown(ArrayIndexOutOfBoundsException), 1)
  {
  }

  lemma {:induction false} DistinctParts<T>(a: seq<T>, e: T, b: seq<T>)
    requires Distinct(a + [e] + b)
    ensures Distinct(a) && Distinct(b) && e !in a
  {
    var s := a + [e] + b;
    forall i, j | 0 <= i < j < |b|
      ensures b[i] != b[j]
    {
      assert s[|a| + 1 + i] == b[i] && s[|a| + 1 + j] == b[j];
    }
    forall i, j | 0 <= i < j < |a|
      ensures a[i] != a[j]
    {
      assert s[i] == a[i] && s[j] == a[j];
    }
    forall i | 0 <= i < |a|
      ensures a[i] != e
    {
      assert s[i] == a[i] && s[|a|] == e;
    }
  }

  /**
   * construct(inorder, preorder) rebuilds every tree without nulls and with
   * distinct elements from its two traversals.
   */
  lemma {:induction false} BuildRoundTrip<T>(t: BTree<T>)
    requires NoNulls(t) && Distinct(InValues(t))
    ensures |InValues(t)| == |PreValues(t)|
    ensures Build(InValues(t), PreValues(t)) == t
  {
    if t.BNode? {
      var l, e, r := t.left, t.element.value, t.right;
      DistinctParts(InValues(l), e, InValues(r));
      BuildRoundTrip(l);
      BuildRoundTrip(r);
      var ino, pre := InValues(t), PreValues(t);
      var k := |InValues(l)|;
      assert ino == InValues(l) + [e] + InValues(r);
      assert pre == [e] + PreValues(l) + PreValues(r);
      var i := IndexOf(ino, e);
      assert ino[k] == e;
      forall j | 0 <= j < k
        ensures ino[j] != e
      {
        assert ino[j] == InValues(l)[j];
      }
      assert i == k;
      assert ino[..i] == InValues(l) && pre[1..i + 1] == PreValues(l);
      assert ino[i + 1..] == InValues(r) && pre[i + 1..] == PreValues(r);
    }
  }

  /** createLevelOrder's helper from array slot i; slots 2i+1 and 2i+2 hold the children of slot i. */
  function LevelBuild<T>(arr: seq<Option<T>>, i: nat): BTree<T>
    decreases |arr| - i
  {
    if i < |arr| && arr[i].Some? then BNode(LevelBuild(arr, 2 * i + 1), arr[i], LevelBuild(arr, 2 * i + 2))
    else Nil
  }

  /** The array slot that position p below slot i stands for. */
  function SlotIndex(i: nat, p: Path): nat
    decreases |p|
  {
    if p == [] then i else SlotIndex(if p[0] == B.Left then 2 * i + 1 else 2 * i + 2, p[1..])
  }

  /** Every slot from i down along p lies in the array and is not null. */
  predicate PresentAlong<T>(arr: seq<Option<T>>, i: nat, p: Path)
    decreases |p|
  {
    i < |arr| && arr[i].Some? &&
    (p == [] || PresentAlong(arr, if p[0] == B.Left then 2 * i + 1 else 2 * i + 2, p[1..]))
  }

  /**
   * createLevelOrder(arr): position p is a node exactly when every array slot
   * on the way to it is present, and then it holds the element of its slot.
   */
  lemma {:induction false} LevelBuildMeaning<T>(arr: seq<Option<T>>, i: nat, p: Path)
    ensures ValidPos(LevelBuild(arr, i), p) <==> PresentAlong(arr, i, p)
    ensures ValidPos(LevelBuild(arr, i), p) ==>
      SlotIndex(i, p) < |arr| && At(LevelBuild(arr, i), p).element == arr[SlotIndex(i, p)]
    decreases |p|
  {
    var t := LevelBuild(arr, i);
    if p != [] && t.BNode? {
      var j := if p[0] == B.Left then 2 * i + 1 else 2 * i + 2;
      assert Child(t, p[0]) == LevelBuild(arr, j);
      ChildPositions(t, p);
      LevelBuildMeaning(arr, j, p[1..]);
    }
  }

  // ---------------------------------------------------------------------------
  // Inorder neighbours of a key in a search tree

  /** A search tree: no null elements, and the elements strictly increase in order. */
  ghost predicate SearchTree(t: BTree<int>)
  {
    (forall i :: 0 <= i < |Elements(t)| ==> Elements(t)[i].Some?) &&
    forall i, j :: 0 <= i < j < |Elements(t)| ==> Elements(t)[i].value < Elements(t)[j].value
  }

  /** r is the node with the least element above key, or None when no element is above key. */
  ghost predicate IsSuccessor(t: BTree<int>, key: int, r: Option<Path>)
  {
    var s := Elements(t);
    match r
    case None => forall i :: 0 <= i < |s| && s[i].Some? ==> s[i].value <= key
    case Some(q) =>
      ValidPos(t, q) && At(t, q).element.Some? && key < At(t, q).element.value &&
      forall i :: 0 <= i < |s| && s[i].Some? && key < s[i].value ==> At(t, q).element.value <= s[i].value
  }

  /** r is the node with the greatest element below key, or None when no element is below key. */
  ghost predicate IsPredecessor(t: BTree<int>, key: int, r: Option<Path>)
  {
    var s := Elements(t);
    match r
    case None => forall i :: 0 <= i < |s| && s[i].Some? ==> key <= s[i].value
    case Some(q) =>
      ValidPos(t, q) && At(t, q).element.Some? && At(t, q).element.value < key &&
      forall i :: 0 <= i < |s| && s[i].Some? && s[i].value < key ==> s[i].value <= At(t, q).element.value
  }

  /** r is the position of the first of s, or None when s is empty. */
  ghost predicate HoldsFirst<E>(t: BTree<E>, r: Option<Path>, s: seq<Option<E>>)
  {
    (r.None? <==> s == []) && (r.Some? ==> ValidPos(t, r.value) && s != [] && At(t, r.value).element == s[0])
  }

  /** r is the position of the last of s, or None when s is empty. */
  ghost predicate HoldsLast<E>(t: BTree<E>, r: Option<Path>, s: seq<Option<E>>)
  {
    (r.None? <==> s == []) &&
    (r.Some? ==> ValidPos(t, r.value) && s != [] && At(t, r.value).element == s[|s| - 1])
  }

  /** The elements before slot p are at most key and those after it are above key. */
  ghost predicate SplitsAbove(t: BTree<int>, p: Path, key: int)
    requires ValidSlot(t, p)
  {
    (forall x :: x in Before(t, p) ==> x.Some? && x.value <= key) &&
    (forall x :: x in After(t, p) ==> x.Some? && key < x.value)
  }

  /** The elements before slot p are below key and those after it are at least key. */
  ghost predicate SplitsBelow(t: BTree<int>, p: Path, key: int)
    requires ValidSlot(t, p)
  {
    (forall x :: x in Before(t, p) ==> x.Some? && x.value < key) &&
    (forall x :: x in After(t, p) ==> x.Some? && key <= x.value)
  }

  /** In a search tree the left subtree of a node holds smaller elements and the right one larger. */
  lemma NodeSides(t: BTree<int>, p: Path)
    requires SearchTree(t) && ValidPos(t, p)
    ensures At(t, p).element.Some?
    ensures forall x :: x in Elements(At(t, p).left) ==> x.Some? && x.value < At(t, p).element.value
    ensures forall x :: x in Elements(At(t, p).right) ==> x.Some? && At(t, p).element.value < x.value
  {
    NodeElements(t, p);
    var s, k := Elements(t), Index(t, p);
    var bf, l, r := Before(t, p), Elements(At(t, p).left), Elements(At(t, p).right);
    assert s == bf + l + [s[k]] + r + After(t, p);
    forall x | x in l
      ensures x.Some? && x.value < At(t, p).element.value
    {
      var j :| 0 <= j < |l| && l[j] == x;
      assert s[|bf| + j] == x;
    }
    forall x | x in r
      ensures x.Some? && At(t, p).element.value < x.value
    {
      var j :| 0 <= j < |r| && r[j] == x;
      assert s[k + 1 + j] == x;
    }
  }

  lemma SplitsAboveStep(t: BTree<int>, p: Path, key: int, d: Dir)
    requires SearchTree(t) && ValidPos(t, p) && SplitsAbove(t, p, key)
    requires At(t, p).element.Some?
    requires d == B.Left ==> key < At(t, p).element.value
    requires d == B.Right ==> At(t, p).element.value <= key
    ensures ValidSlot(t, p + [d]) && SplitsAbove(t, p + [d], key)
  {
    StepDown(t, p, d);
    NodeSides(t, p);
  }

  lemma SplitsBelowStep(t: BTree<int>, p: Path, key: int, d: Dir)
    requires SearchTree(t) && ValidPos(t, p) && SplitsBelow(t, p, key)
    requires At(t, p).element.Some?
    requires d == B.Left ==> key <= At(t, p).element.value
    requires d == B.Right ==> At(t, p).element.value < key
    ensures ValidSlot(t, p + [d]) && SplitsBelow(t, p + [d], key)
  {
    StepDown(t, p, d);
    NodeSides(t, p);
  }

  /** Where the elements up to b are at most key and the one at b is above it, b holds the successor. */
  lemma SuccessorAtSplit(t: BTree<int>, key: int, b: int, r: Option<Path>)
    requires SearchTree(t) && 0 <= b <= |Elements(t)|
    requires forall i :: 0 <= i < b ==> Elements(t)[i].value <= key
    requires b < |Elements(t)| ==> key < Elements(t)[b].value
    requires r.None? <==> b == |Elements(t)|
    requires r.Some? ==> ValidPos(t, r.value) && b < |Elements(t)| && At(t, r.value).element == Elements(t)[b]
    ensures IsSuccessor(t, key, r)
  {
  }

  /** Where the elements from c on are at least key and the one before c is below it, c - 1 holds the predecessor. */
  lemma PredecessorAtSplit(t: BTree<int>, key: int, c: int, r: Option<Path>)
    requires SearchTree(t) && 0 <= c <= |Elements(t)|
    requires forall i :: c <= i < |Elements(t)| ==> key <= Elements(t)[i].value
    requires 0 < c ==> Elements(t)[c - 1].value < key
    requires r.None? <==> c == 0
    requires r.Some? ==> ValidPos(t, r.value) && 0 < c && At(t, r.value).element == Elements(t)[c - 1]
    ensures IsPredecessor(t, key, r)
  {
  }

  /** At an empty slot, the first element after it is the successor. */
  lemma SuccessorAtGap(t: BTree<int>, p: Path, key: int, succ: Option<Path>)
    requires SearchTree(t) && ValidSlot(t, p) && At(t, p).Nil? && SplitsAbove(t, p, key)
    requires HoldsFirst(t, succ, After(t, p))
    ensures IsSuccessor(t, key, succ)
  {
    ElementsAround(t, p);
    var s, bf := Elements(t), Before(t, p);
    assert s == bf + After(t, p);
    forall i | 0 <= i < |bf|
      ensures s[i].value <= key
    {
      assert s[i] == bf[i] && bf[i] in bf;
    }
    if |bf| < |s| {
      assert s[|bf|] == After(t, p)[0] && After(t, p)[0] in After(t, p);
    }
    SuccessorAtSplit(t, key, |bf|, succ);
  }

  /** At an empty slot, the last element before it is the predecessor. */
  lemma PredecessorAtGap(t: BTree<int>, p: Path, key: int, pred: Option<Path>)
    requires SearchTree(t) && ValidSlot(t, p) && At(t, p).Nil? && SplitsBelow(t, p, key)
    requires HoldsLast(t, pred, Before(t, p))
    ensures IsPredecessor(t, key, pred)
  {
    ElementsAround(t, p);
    var s, bf, af := Elements(t), Before(t, p), After(t, p);
    assert s == bf + af;
    forall i | |bf| <= i < |s|
      ensures key <= s[i].value
    {
      var j := i - |bf|;
      assert s[i] == af[j];
    }
    if 0 < |bf| {
      assert s[|bf| - 1] == bf[|bf| - 1];
    }
    PredecessorAtSplit(t, key, |bf|, pred);
  }

  /** The first node of a subtree above key, right after a slot split at key, is the successor. */
  lemma SuccessorAtMin(t: BTree<int>, p: Path, key: int, q: Path)
    requires SearchTree(t) && ValidPos(t, p) && SplitsAbove(t, p, key)
    requires forall x :: x in Elements(At(t, p)) ==> x.Some? && key < x.value
    requires ValidPos(t, q) && Before(t, q) == Before(t, p) && At(t, q).left.Nil?
    ensures IsSuccessor(t, key, Some(q))
  {
    ElementsAround(t, p);
    NodeElements(t, q);
    var s, bf := Elements(t), Before(t, p);
    assert s == bf + Elements(At(t, p)) + After(t, p);
    assert s[|bf|] == Elements(At(t, p))[0] && Elements(At(t, p))[0] in Elements(At(t, p));
    forall i | 0 <= i < |bf|
      ensures s[i].value <= key
    {
      assert s[i] == bf[i] && bf[i] in bf;
    }
    SuccessorAtSplit(t, key, |bf|, Some(q));
  }

  /** The last node of a subtree below key, right before a slot split at key, is the predecessor. */
  lemma PredecessorAtMax(t: BTree<int>, p: Path, key: int, q: Path)
    requires SearchTree(t) && ValidPos(t, p) && SplitsBelow(t, p, key)
    requires forall x :: x in Elements(At(t, p)) ==> x.Some? && x.value < key
    requires ValidPos(t, q) && After(t, q) == After(t, p) && At(t, q).right.Nil?
    ensures IsPredecessor(t, key, Some(q))
  {
    ElementsAround(t, p);
    NodeElements(t, q);
    var s, m, af := Elements(t), Elements(At(t, p)), After(t, p);
    var c := |Before(t, p)| + |m|;
    assert s == Before(t, p) + m + af;
    assert s[c - 1] == m[|m| - 1] && m[|m| - 1] in m;
    assert |s| - |af| == c;
    forall i | c <= i < |s|
      ensures key <= s[i].value
    {
      assert s[i] == af[i - c] && af[i - c] in af;
    }
    PredecessorAtSplit(t, key, c, Some(q));
  }

  // ---------------------------------------------------------------------------
  // Breadth-first traversal

  /** The positions of the subtrees in the queue q, queue order, each subtree in postorder. */
  function Flatten<E>(t: BTree<E>, q: seq<Path>): seq<Path>
    requires forall i :: 0 <= i < |q| ==> ValidPos(t, q[i])
  {
    if q == [] then []
    else
      assert ValidPos(t, q[0]);
      Rooted(q[0], PostorderPos(At(t, q[0]))) + Flatten(t, q[1..])
  }

  lemma {:induction false} FlattenAppend<E>(t: BTree<E>, a: seq<Path>, b: seq<Path>)
    requires forall i :: 0 <= i < |a| ==> ValidPos(t, a[i])
    requires forall i :: 0 <= i < |b| ==> ValidPos(t, b[i])
    ensures Flatten(t, a + b) == Flatten(t, a) + Flatten(t, b)
    decreases |a|
  {
    if a == [] {
      assert a + b == b;
    } else {
      var h := Rooted(a[0], PostorderPos(At(t, a[0])));
      assert (a + b)[0] == a[0] && (a + b)[1..] == a[1..] + b;
      assert Flatten(t, a + b) == h + Flatten(t, a[1..] + b);
      FlattenAppend(t, a[1..], b);
      Regroup(h, Flatten(t, a[1..]), Flatten(t, b), []);
    }
  }

  lemma RootedUnder(p: Path, d: Dir, ps: seq<Path>)
    ensures Rooted(p, B.Under(d, ps)) == Rooted(p + [d], ps)
  {
    var a, b := Rooted(p, B.Under(d, ps)), Rooted(p + [d], ps);
    forall i | 0 <= i < |ps|
      ensures a[i] == b[i]
    {
      assert p + ([d] + ps[i]) == p + [d] + ps[i];
    }
  }

  lemma RootedAppend(p: Path, a: seq<Path>, b: seq<Path>)
    ensures Rooted(p, a + b) == Rooted(p, a) + Rooted(p, b)
  {
    var x, y := Rooted(p, a + b), Rooted(p, a) + Rooted(p, b);
    forall i | 0 <= i < |x|
      ensures x[i] == y[i]
    {
      if i < |a| {
        assert (a + b)[i] == a[i];
      } else {
        assert (a + b)[i] == b[i - |a|];
      }
    }
  }

  /** The subtree at p is p after the subtrees of its two child slots. */
  lemma SubtreeSplit<E>(t: BTree<E>, p: Path)
    requires ValidPos(t, p)
    ensures ValidSlot(t, p + [B.Left]) && ValidSlot(t, p + [B.Right])
    ensures Rooted(p, PostorderPos(At(t, p))) ==
      Rooted(p + [B.Left], PostorderPos(At(t, p + [B.Left]))) +
      Rooted(p + [B.Right], PostorderPos(At(t, p + [B.Right]))) + [p]
  {
    StepDown(t, p, B.Left);
    StepDown(t, p, B.Right);
    var n := At(t, p);
    var ul, ur := B.Under(B.Left, PostorderPos(n.left)), B.Under(B.Right, PostorderPos(n.right));
    assert PostorderPos(n) == ul + ur + [[]];
    RootedUnder(p, B.Left, PostorderPos(n.left));
    RootedUnder(p, B.Right, PostorderPos(n.right));
    RootedAppend(p, ul + ur, [[]]);
    RootedAppend(p, ul, ur);
    assert Rooted(p, [[]]) == [p] by {
      assert p + [] == p;
    }
  }

  /** Each element once, counted with a multiset. */
  lemma {:induction false} DistinctCounts<T>(s: seq<T>)
    ensures Distinct(s) <==> forall x :: multiset(s)[x] <= 1
    decreases |s|
  {
    if s != [] {
      DistinctCounts(s[1..]);
      assert s == [s[0]] + s[1..];
      if Distinct(s) {
        assert s[0] !in s[1..] by {
          forall i | 0 <= i < |s[1..]|
            ensures s[1..][i] != s[0]
          {
            assert s[1..][i] == s[i + 1];
          }
        }
        assert Distinct(s[1..]) by {
          forall i, j | 0 <= i < j < |s[1..]|
            ensures s[1..][i] != s[1..][j]
          {
            assert s[1..][i] == s[i + 1] && s[1..][j] == s[j + 1];
          }
        }
      }
      if forall x :: multiset(s)[x] <= 1 {
        assert multiset(s)[s[0]] <= 1;
        assert s[0] !in multiset(s[1..]);
        assert forall x :: multiset(s[1..])[x] <= multiset(s)[x];
        forall i, j | 0 <= i < j < |s|
          ensures s[i] != s[j]
        {
          if i == 0 {
            assert s[j] == s[1..][j - 1];
          } else {
            assert s[i] == s[1..][i - 1] && s[j] == s[1..][j - 1];
          }
        }
      }
    }
  }

  /** Both child slots of a node are valid, and hold its children. */
  lemma ChildSlots<E>(t: BTree<E>, p: Path)
    requires ValidPos(t, p)
    ensures ValidSlot(t, p + [B.Left]) && At(t, p + [B.Left]) == At(t, p).left
    ensures ValidSlot(t, p + [B.Right]) && At(t, p + [B.Right]) == At(t, p).right
  {
    StepDown(t, p, B.Left);
    StepDown(t, p, B.Right);
  }

  lemma RootedHere(p: Path, present: bool)
    ensures Rooted(p, if present then [[]] else []) == if present then [p] else []
  {
    assert p + [] == p;
  }

  /** The inorder positions of the subtree at p: its left slot's, p itself unless null, its right slot's. */
  lemma InorderSplit<E>(t: BTree<E>, p: Path)
    requires ValidPos(t, p)
    ensures ValidSlot(t, p + [B.Left]) && ValidSlot(t, p + [B.Right])
    ensures Rooted(p, InorderPos(At(t, p))) ==
      Rooted(p + [B.Left], InorderPos(At(t, p + [B.Left]))) +
      (if At(t, p).element.Some? then [p] else []) +
      Rooted(p + [B.Right], InorderPos(At(t, p + [B.Right])))
  {
    ChildSlots(t, p);
    var n := At(t, p);
    var ul, ur := B.Under(B.Left, InorderPos(n.left)), B.Under(B.Right, InorderPos(n.right));
    var here: seq<Path> := if n.element.Some? then [[]] else [];
    assert InorderPos(n) == ul + here + ur;
    RootedAppend(p, ul + here, ur);
    RootedAppend(p, ul, here);
    RootedUnder(p, B.Left, InorderPos(n.left));
    RootedUnder(p, B.Right, InorderPos(n.right));
    RootedHere(p, n.element.Some?);
  }

  /** The preorder positions of the subtree at p: p itself unless null, then its left slot's and right slot's. */
  lemma PreorderSplit<E>(t: BTree<E>, p: Path)
    requires ValidPos(t, p)
    ensures ValidSlot(t, p + [B.Left]) && ValidSlot(t, p + [B.Right])
    ensures Rooted(p, PreorderPos(At(t, p))) ==
      (if At(t, p).element.Some? then [p] else []) +
      Rooted(p + [B.Left], PreorderPos(At(t, p + [B.Left]))) +
      Rooted(p + [B.Right], PreorderPos(At(t, p + [B.Right])))
  {
    ChildSlots(t, p);
    var n := At(t, p);
    var ul, ur := B.Under(B.Left, PreorderPos(n.left)), B.Under(B.Right, PreorderPos(n.right));
    var here: seq<Path> := if n.element.Some? then [[]] else [];
    assert PreorderPos(n) == here + ul + ur;
    RootedAppend(p, here + ul, ur);
    RootedAppend(p, here, ul);
    RootedUnder(p, B.Left, PreorderPos(n.left));
    RootedUnder(p, B.Right, PreorderPos(n.right));
    RootedHere(p, n.element.Some?);
  }

  /** Regroups a concatenation of four (kept apart, so the solver meets it in a small context). */
  lemma Regroup<T>(a: seq<T>, b: seq<T>, c: seq<T>, d: seq<T>)
    ensures a + b + c + d == a + (b + c + d)
  {
  }

  /** Regroups a middle part and what lies around it. */
  lemma RegroupAround<T>(b: seq<T>, l: seq<T>, x: seq<T>, r: seq<T>, a: seq<T>)
    ensures b + (l + x + r) + a == (b + l) + x + (r + a)
  {
  }

  lemma RootedAtRoot(ps: seq<Path>)
    ensures Rooted([], ps) == ps
  {
    forall i | 0 <= i < |ps|
      ensures Rooted([], ps)[i] == ps[i]
    {
      assert [] + ps[i] == ps[i];
    }
  }

  lemma {:induction false} NoNullsAt<E>(t: BTree<E>, p: Path)
    requires NoNulls(t) && ValidSlot(t, p)
    ensures NoNulls(At(t, p))
    decreases |p|
  {
    if p != [] {
      NoNullsAt(Child(t, p[0]), p[1..]);
    }
  }

  /** A search tree has no null elements. */
  lemma {:induction false} SearchTreeNoNulls(t: BTree<int>)
    requires forall i :: 0 <= i < |Elements(t)| ==> Elements(t)[i].Some?
    ensures NoNulls(t)
  {
    if t.BNode? {
      var l, r := Elements(t.left), Elements(t.right);
      assert Elements(t) == l + [t.element] + r;
      assert Elements(t)[|l|] == t.element;
      forall i | 0 <= i < |l|
        ensures l[i].Some?
      {
        assert Elements(t)[i] == l[i];
      }
      forall i | 0 <= i < |r|
        ensures r[i].Some?
      {
        assert Elements(t)[|l| + 1 + i] == r[i];
      }
      SearchTreeNoNulls(t.left);
      SearchTreeNoNulls(t.right);
    }
  }

  // ---------------------------------------------------------------------------
  // Updates at one position

  /** Inserting e where a ends and m begins. */
  lemma InsertBetween<T>(a: seq<T>, m: seq<T>, e: T)
    ensures (a + m)[..|a|] + [e] + (a + m)[|a|..] == a + [e] + m
  {
    assert (a + m)[..|a|] == a && (a + m)[|a|..] == m;
  }

  /** Dropping x from between a and m. */
  lemma DropBetween<T>(a: seq<T>, x: T, m: seq<T>)
    ensures (a + [x] + m)[..|a|] + (a + [x] + m)[|a| + 1..] == a + m
  {
    assert (a + [x] + m)[..|a|] == a && (a + [x] + m)[|a| + 1..] == m;
  }

  /** Overwriting the entry between a and m. */
  lemma OverwriteBetween<T>(a: seq<T>, x: T, m: seq<T>, e: T)
    ensures (a + [x] + m)[|a| := e] == a + [e] + m
  {
  }

  /** The in-order sequence of a tree whose node at p has an empty left slot. */
  lemma NoLeftElements<E>(t: BTree<E>, p: Path)
    requires ValidPos(t, p) && At(t, p).left.Nil?
    ensures Index(t, p) == |Before(t, p)|
    ensures Elements(t) == Before(t, p) + ([At(t, p).element] + Elements(At(t, p).right) + After(t, p))
  {
    NodeElements(t, p);
    var n := At(t, p);
    Regroup(Before(t, p), [n.element], Elements(n.right), After(t, p));
  }

  /** A new leaf in the empty left slot of p: its element lands right before p's subtree in order. */
  lemma AddLeftLeaf<E>(t: BTree<E>, p: Path, e: Option<E>)
    requires ValidPos(t, p) && At(t, p).left.Nil?
    ensures ValidSlot(t, p + [B.Left])
    ensures ValidPos(Replace(t, p + [B.Left], BNode(Nil, e, Nil)), p + [B.Left])
    ensures Elements(Replace(t, p + [B.Left], BNode(Nil, e, Nil))) ==
      Elements(t)[..Index(t, p)] + [e] + Elements(t)[Index(t, p)..]
    ensures CountNodes(Replace(t, p + [B.Left], BNode(Nil, e, Nil))) == CountNodes(t) + 1
  {
    var q, leaf := p + [B.Left], BNode(Nil, e, Nil);
    LeftLeafSplice(t, p, e);
    NoLeftElements(t, p);
    InsertBetween(Before(t, p), [At(t, p).element] + Elements(At(t, p).right) + After(t, p), e);
    CountIsLength(t);
    CountIsLength(Replace(t, q, leaf));
  }

  /** The in-order sequence after a new leaf fills p's empty left slot. */
  lemma LeftLeafSplice<E>(t: BTree<E>, p: Path, e: Option<E>)
    requires ValidPos(t, p) && At(t, p).left.Nil?
    ensures ValidSlot(t, p + [B.Left])
    ensures ValidPos(Replace(t, p + [B.Left], BNode(Nil, e, Nil)), p + [B.Left])
    ensures Elements(Replace(t, p + [B.Left], BNode(Nil, e, Nil))) ==
      Before(t, p) + [e] + ([At(t, p).element] + Elements(At(t, p).right) + After(t, p))
  {
    var q, leaf := p + [B.Left], BNode(Nil, e, Nil);
    StepDown(t, p, B.Left);
    ReplaceAt(t, q, leaf);
    ReplaceElements(t, q, leaf);
    assert Elements(leaf) == [e];
  }

  /** The in-order sequence of a tree split just after the node at p. */
  lemma RightOfElements<E>(t: BTree<E>, p: Path)
    requires ValidPos(t, p)
    ensures Index(t, p) + 1 == |Before(t, p) + Elements(At(t, p).left) + [At(t, p).element]|
    ensures Elements(t) == (Before(t, p) + Elements(At(t, p).left) + [At(t, p).element]) +
      (Elements(At(t, p).right) + After(t, p))
  {
    NodeElements(t, p);
    var n := At(t, p);
    Regroup(Before(t, p) + Elements(n.left) + [n.element], Elements(n.right), After(t, p), []);
    assert Elements(n.right) + After(t, p) + [] == Elements(n.right) + After(t, p);
  }

  /** A new leaf in the empty right slot of p: its element lands right after p in order. */
  lemma AddRightLeaf<E>(t: BTree<E>, p: Path, e: Option<E>)
    requires ValidPos(t, p) && At(t, p).right.Nil?
    ensures ValidSlot(t, p + [B.Right])
    ensures ValidPos(Replace(t, p + [B.Right], BNode(Nil, e, Nil)), p + [B.Right])
    ensures Elements(Replace(t, p + [B.Right], BNode(Nil, e, Nil))) ==
      Elements(t)[..Index(t, p) + 1] + [e] + Elements(t)[Index(t, p) + 1..]
    ensures CountNodes(Replace(t, p + [B.Right], BNode(Nil, e, Nil))) == CountNodes(t) + 1
  {
    var q, leaf := p + [B.Right], BNode(Nil, e, Nil);
    RightLeafSplice(t, p, e);
    RightOfElements(t, p);
    InsertBetween(Before(t, p) + Elements(At(t, p).left) + [At(t, p).element],
      Elements(At(t, p).right) + After(t, p), e);
    CountIsLength(t);
    CountIsLength(Replace(t, q, leaf));
  }

  /** The in-order sequence after a new leaf fills p's empty right slot. */
  lemma RightLeafSplice<E>(t: BTree<E>, p: Path, e: Option<E>)
    requires ValidPos(t, p) && At(t, p).right.Nil?
    ensures ValidSlot(t, p + [B.Right])
    ensures ValidPos(Replace(t, p + [B.Right], BNode(Nil, e, Nil)), p + [B.Right])
    ensures Elements(Replace(t, p + [B.Right], BNode(Nil, e, Nil))) ==
      (Before(t, p) + Elements(At(t, p).left) + [At(t, p).element]) + [e] +
      (Elements(At(t, p).right) + After(t, p))
  {
    var q, leaf := p + [B.Right], BNode(Nil, e, Nil);
    StepDown(t, p, B.Right);
    ReplaceAt(t, q, leaf);
    ReplaceElements(t, q, leaf);
    assert Elements(leaf) == [e];
    assert Elements(At(t, p).right) + After(t, p) == After(t, p);
  }

  /** The in-order sequence split around the node at p. */
  lemma AroundElements<E>(t: BTree<E>, p: Path)
    requires ValidPos(t, p)
    ensures Index(t, p) == |Before(t, p) + Elements(At(t, p).left)|
    ensures Elements(t) == (Before(t, p) + Elements(At(t, p).left)) + [At(t, p).element] +
      (Elements(At(t, p).right) + After(t, p))
  {
    NodeElements(t, p);
    var n := At(t, p);
    Regroup(Before(t, p) + Elements(n.left) + [n.element], Elements(n.right), After(t, p), []);
    assert Elements(n.right) + After(t, p) + [] == Elements(n.right) + After(t, p);
  }

  /** Changing the element at p changes that one entry of the in-order sequence and nothing else. */
  lemma SetElement<E>(t: BTree<E>, p: Path, e: Option<E>)
    requires ValidPos(t, p)
    ensures ValidPos(Replace(t, p, At(t, p).(element := e)), p)
    ensures Elements(Replace(t, p, At(t, p).(element := e))) == Elements(t)[Index(t, p) := e]
    ensures Skeleton(Replace(t, p, At(t, p).(element := e))) == Skeleton(t)
    ensures CountNodes(Replace(t, p, At(t, p).(element := e))) == CountNodes(t)
  {
    var n := At(t, p);
    var s := n.(element := e);
    ReplaceAt(t, p, s);
    SetSplice(t, p, e);
    SetKeepsSkeleton(t, p, e);
    AroundElements(t, p);
    OverwriteBetween(Before(t, p) + Elements(n.left), n.element, Elements(n.right) + After(t, p), e);
    CountIsLength(t);
    CountIsLength(Replace(t, p, s));
  }

  /** The in-order sequence after the element at p is overwritten. */
  lemma SetSplice<E>(t: BTree<E>, p: Path, e: Option<E>)
    requires ValidPos(t, p)
    ensures Elements(Replace(t, p, At(t, p).(element := e))) ==
      (Before(t, p) + Elements(At(t, p).left)) + [e] + (Elements(At(t, p).right) + After(t, p))
  {
    var n := At(t, p);
    var s := n.(element := e);
    ReplaceElements(t, p, s);
    assert Elements(s) == Elements(n.left) + [e] + Elements(n.right);
    RegroupAround(Before(t, p), Elements(n.left), [e], Elements(n.right), After(t, p));
  }

  /** The child that takes the place of p when p is removed: its only child, or none. */
  function OnlyChild<E>(t: BTree<E>, p: Path): BTree<E>
    requires ValidPos(t, p)
  {
    if At(t, p).left.BNode? then At(t, p).left else At(t, p).right
  }

  /** Removing a node with at most one child drops its element from the in-order sequence. */
  lemma RemoveElement<E>(t: BTree<E>, p: Path)
    requires ValidPos(t, p) && !(At(t, p).left.BNode? && At(t, p).right.BNode?)
    ensures Elements(Replace(t, p, OnlyChild(t, p))) ==
      Elements(t)[..Index(t, p)] + Elements(t)[Index(t, p) + 1..]
    ensures CountNodes(Replace(t, p, OnlyChild(t, p))) == CountNodes(t) - 1
  {
    var n := At(t, p);
    RemoveSplice(t, p);
    AroundElements(t, p);
    DropBetween(Before(t, p) + Elements(n.left), n.element, Elements(n.right) + After(t, p));
    CountIsLength(t);
    CountIsLength(Replace(t, p, OnlyChild(t, p)));
  }

  /** The in-order sequence after the removal: what lay around p, with p's subtrees' elements joined. */
  lemma RemoveSplice<E>(t: BTree<E>, p: Path)
    requires ValidPos(t, p) && !(At(t, p).left.BNode? && At(t, p).right.BNode?)
    ensures Elements(Replace(t, p, OnlyChild(t, p))) ==
      (Before(t, p) + Elements(At(t, p).left)) + (Elements(At(t, p).right) + After(t, p))
  {
    var n := At(t, p);
    ReplaceElements(t, p, OnlyChild(t, p));
    assert Elements(OnlyChild(t, p)) == Elements(n.left) + [] + Elements(n.right);
    RegroupAround(Before(t, p), Elements(n.left), [], Elements(n.right), After(t, p));
    assert Before(t, p) + Elements(n.left) + [] == Before(t, p) + Elements(n.left);
  }

  // ---------------------------------------------------------------------------
  // The breadth-first queue

  /** The positions of p's children, left first. */
  function PresentChildren<E>(t: BTree<E>, p: Path): seq<Path>
    requires ValidPos(t, p)
  {
    (if At(t, p).left.BNode? then [p + [B.Left]] else []) +
    (if At(t, p).right.BNode? then [p + [B.Right]] else [])
  }

  lemma FlattenOne<E>(t: BTree<E>, x: Path)
    requires ValidPos(t, x)
    ensures Flatten(t, [x]) == Rooted(x, PostorderPos(At(t, x)))
  {
    assert [x][1..] == [];
  }

  /** A child slot that is empty contributes nothing. */
  lemma EmptySlot<E>(t: BTree<E>, p: Path, d: B.Dir)
    requires ValidSlot(t, p + [d]) && At(t, p + [d]).Nil?
    ensures Rooted(p + [d], PostorderPos(At(t, p + [d]))) == []
  {
  }

  lemma ChildrenFlatten<E>(t: BTree<E>, p: Path)
    requires ValidPos(t, p)
    ensures forall i :: 0 <= i < |PresentChildren(t, p)| ==>
      ValidPos(t, PresentChildren(t, p)[i]) && |PresentChildren(t, p)[i]| == |p| + 1
    ensures Flatten(t, PresentChildren(t, p)) + [p] == Rooted(p, PostorderPos(At(t, p)))
  {
    SubtreeSplit(t, p);
    StepDown(t, p, B.Left);
    StepDown(t, p, B.Right);
    var l, r := p + [B.Left], p + [B.Right];
    var rl := Rooted(l, PostorderPos(At(t, l)));
    var rr := Rooted(r, PostorderPos(At(t, r)));
    var cs := PresentChildren(t, p);
    if At(t, l).BNode? && At(t, r).BNode? {
      assert cs == [l] + [r];
      FlattenOne(t, l);
      FlattenOne(t, r);
      FlattenAppend(t, [l], [r]);
    } else if At(t, l).BNode? {
      assert cs == [l];
      FlattenOne(t, l);
      EmptySlot(t, p, B.Right);
      assert rl + rr == rl;
    } else if At(t, r).BNode? {
      assert cs == [r];
      FlattenOne(t, r);
      EmptySlot(t, p, B.Left);
      assert rl + rr == rr;
    } else {
      assert cs == [];
      EmptySlot(t, p, B.Left);
      EmptySlot(t, p, B.Right);
    }
    assert Flatten(t, cs) == rl + rr;
  }

  /** Taking the front p off the queue and adding its children leaves everything but p still to come. */
  lemma QueueStep<E>(t: BTree<E>, q: seq<Path>)
    requires q != [] && forall i :: 0 <= i < |q| ==> ValidPos(t, q[i])
    ensures forall i :: 0 <= i < |q[1..] + PresentChildren(t, q[0])| ==>
      ValidPos(t, (q[1..] + PresentChildren(t, q[0]))[i])
    ensures multiset(Flatten(t, q)) == multiset(Flatten(t, q[1..] + PresentChildren(t, q[0]))) + multiset{q[0]}
    ensures |Flatten(t, q)| == |Flatten(t, q[1..] + PresentChildren(t, q[0]))| + 1
  {
    var p, rest, cs := q[0], q[1..], PresentChildren(t, q[0]);
    ChildrenFlatten(t, p);
    QueueValid(t, q);
    FlattenAppend(t, rest, cs);
    var rp, fr, fc := Rooted(p, PostorderPos(At(t, p))), Flatten(t, rest), Flatten(t, cs);
    assert Flatten(t, q) == rp + fr;
    assert multiset(rp) == multiset(fc) + multiset{p} by {
      assert rp == fc + [p];
    }
    assert multiset(Flatten(t, rest + cs)) == multiset(fr) + multiset(fc);
  }

  /** Dequeuing the front and enqueuing its children leaves only positions in the queue. */
  lemma QueueValid<E>(t: BTree<E>, q: seq<Path>)
    requires q != [] && forall i :: 0 <= i < |q| ==> ValidPos(t, q[i])
    ensures forall i :: 0 <= i < |q| - 1 ==> ValidPos(t, q[1..][i])
    ensures forall i :: 0 <= i < |q[1..] + PresentChildren(t, q[0])| ==>
      ValidPos(t, (q[1..] + PresentChildren(t, q[0]))[i])
  {
    var rest, cs := q[1..], PresentChildren(t, q[0]);
    ChildrenFlatten(t, q[0]);
    forall i | 0 <= i < |rest + cs|
      ensures ValidPos(t, (rest + cs)[i])
    {
      if i < |rest| {
        assert (rest + cs)[i] == q[i + 1];
      } else {
        assert (rest + cs)[i] == cs[i - |rest|];
      }
    }
  }

  /**
   * Level order between two positions: a shallower one comes first, and of
   * two at the same depth the one whose path turns left where the two first
   * differ, which is the one further left on that level.
   */
  predicate LevelBefore(a: Path, b: Path)
  {
    |a| < |b| || LexLess(a, b)
  }

  /** a and b are equally long and a turns left where they first differ. */
  predicate LexLess(a: Path, b: Path)
    decreases |a|
  {
    |a| == |b| && |a| > 0 &&
    ((a[0] == B.Left && b[0] == B.Right) || (a[0] == b[0] && LexLess(a[1..], b[1..])))
  }

  lemma {:induction false} LexIrreflexive(a: Path)
    ensures !LexLess(a, a)
    decreases |a|
  {
    if |a| > 0 {
      LexIrreflexive(a[1..]);
    }
  }

  lemma {:induction false} LexTransitive(a: Path, b: Path, c: Path)
    requires LexLess(a, b) && LexLess(b, c)
    ensures LexLess(a, c)
    decreases |a|
  {
    if a[0] == b[0] && b[0] == c[0] {
      LexTransitive(a[1..], b[1..], c[1..]);
    }
  }

  /** One more step on each side keeps the order of two positions of the same depth. */
  lemma {:induction false} LexExtend(a: Path, b: Path, x: Dir, y: Dir)
    requires LexLess(a, b)
    ensures LexLess(a + [x], b + [y])
    decreases |a|
  {
    assert (a + [x])[0] == a[0] && (b + [y])[0] == b[0];
    if a[0] == b[0] {
      LexExtend(a[1..], b[1..], x, y);
      assert (a + [x])[1..] == a[1..] + [x] && (b + [y])[1..] == b[1..] + [y];
    }
  }

  /** A node's left child lies to the left of its right child. */
  lemma {:induction false} LexChildren(a: Path)
    ensures LexLess(a + [B.Left], a + [B.Right])
    decreases |a|
  {
    if a != [] {
      LexChildren(a[1..]);
      assert (a + [B.Left])[1..] == a[1..] + [B.Left] && (a + [B.Right])[1..] == a[1..] + [B.Right];
    }
  }

  lemma LevelIrreflexive(a: Path)
    ensures !LevelBefore(a, a)
  {
    LexIrreflexive(a);
  }

  lemma LevelTransitive(a: Path, b: Path, c: Path)
    requires LevelBefore(a, b) && LevelBefore(b, c)
    ensures LevelBefore(a, c)
  {
    if LexLess(a, b) && LexLess(b, c) {
      LexTransitive(a, b, c);
    }
  }

  lemma LevelExtend(a: Path, b: Path, x: Dir, y: Dir)
    requires LevelBefore(a, b)
    ensures LevelBefore(a + [x], b + [y])
  {
    if LexLess(a, b) {
      LexExtend(a, b, x, y);
    }
  }

  /** s lists its positions strictly in level order. */
  ghost predicate LevelSorted(s: seq<Path>)
  {
    forall i, j :: 0 <= i < j < |s| ==> LevelBefore(s[i], s[j])
  }

  /** Two level-sorted sequences of the same positions are the same sequence. */
  lemma {:induction false} LevelSortedUnique(s: seq<Path>, t: seq<Path>)
    requires LevelSorted(s) && LevelSorted(t)
    requires forall p :: p in s <==> p in t
    ensures s == t
    decreases |s|
  {
    assert t != [] ==> t[0] in t;
    if s == [] {
      if t != [] {
        assert false;
      }
    } else {
      assert s[0] in t && t != [] && t[0] in s;
      var k :| 0 <= k < |t| && t[k] == s[0];
      var m :| 0 <= m < |s| && s[m] == t[0];
      LevelIrreflexive(s[0]);
      if k > 0 {
        if m > 0 {
          LevelTransitive(s[0], s[m], s[0]);
        }
        assert false;
      }
      assert s[0] == t[0];
      forall p
        ensures p in s[1..] <==> p in t[1..]
      {
        LevelIrreflexive(p);
        if p in s[1..] {
          var i :| 0 <= i < |s[1..]| && s[1..][i] == p;
          assert LevelBefore(s[0], s[i + 1]) && p != t[0] && p in t;
          var j :| 0 <= j < |t| && t[j] == p;
          assert t[1..][j - 1] == p;
        }
        if p in t[1..] {
          var i :| 0 <= i < |t[1..]| && t[1..][i] == p;
          assert LevelBefore(t[0], t[i + 1]) && p != s[0] && p in s;
          var j :| 0 <= j < |s| && s[j] == p;
          assert s[1..][j - 1] == p;
        }
      }
      LevelSortedUnique(s[1..], t[1..]);
      assert s == [s[0]] + s[1..] && t == [t[0]] + t[1..];
    }
  }

  /**
   * The level order kept by a breadth-first queue: what is done and what is
   * queued each go strictly by level order, everything done comes before the
   * front of the queue, and everything queued comes before the front's left
   * child, where the front's children will be queued.
   */
  ghost predicate Leveled(done: seq<Path>, q: seq<Path>)
  {
    LevelSorted(done) && LevelSorted(q) &&
    (done != [] && q != [] ==> LevelBefore(done[|done| - 1], q[0])) &&
    (q != [] ==> LevelBefore(q[|q| - 1], q[0] + [B.Left]))
  }

  /** Moving the front to the done list and queueing its children, left first, keeps the order. */
  lemma LeveledStep(done: seq<Path>, q: seq<Path>, cs: seq<Path>)
    requires Leveled(done, q) && q != []
    requires forall i :: 0 <= i < |cs| ==> cs[i] == q[0] + [B.Left] || cs[i] == q[0] + [B.Right]
    requires LevelSorted(cs)
    ensures Leveled(done + [q[0]], q[1..] + cs)
  {
    var p := q[0];
    var lp := p + [B.Left];
    var d2, q2 := done + [p], q[1..] + cs;
    LexChildren(p);
    forall i, j | 0 <= i < j < |d2|
      ensures LevelBefore(d2[i], d2[j])
    {
      if j == |done| && i < |done| - 1 {
        LevelTransitive(done[i], done[|done| - 1], p);
      }
    }
    forall i, j | 0 <= i < j < |q2|
      ensures LevelBefore(q2[i], q2[j])
    {
      if j < |q| - 1 {
        assert q2[i] == q[i + 1] && q2[j] == q[j + 1];
      } else if i < |q| - 1 {
        var c := cs[j - (|q| - 1)];
        assert q2[i] == q[i + 1] && q2[j] == c;
        var last := q[|q| - 1];
        assert LevelBefore(last, lp);
        if i + 1 < |q| - 1 {
          LevelTransitive(q[i + 1], last, lp);
        }
        if c != lp {
          LevelTransitive(q[i + 1], lp, c);
        }
      } else {
        assert q2[i] == cs[i - (|q| - 1)] && q2[j] == cs[j - (|q| - 1)];
      }
    }
    if q2 != [] {
      if |q| > 1 {
        assert q2[0] == q[1];
        LevelExtend(p, q[1], B.Left, B.Left);
        if cs != [] {
          var c := cs[|cs| - 1];
          assert q2[|q2| - 1] == c;
          LevelExtend(p, q[1], c[|c| - 1], B.Left);
          assert c == p + [c[|c| - 1]];
        } else {
          assert q2[|q2| - 1] == q[|q| - 1];
          LevelTransitive(q[|q| - 1], lp, q[1] + [B.Left]);
        }
      } else {
        assert q2 == cs;
      }
    }
  }

  /**
   * The state of a breadth-first walk of t: the queue holds positions, what
   * is done and the subtrees still queued together make up every position
   * once, and the level order holds.
   */
  ghost predicate Queued<E>(t: BTree<E>, done: seq<Path>, q: seq<Path>)
  {
    (forall i :: 0 <= i < |q| ==> ValidPos(t, q[i])) &&
    multiset(done) + multiset(Flatten(t, q)) == multiset(PostorderPos(t)) &&
    Leveled(done, q)
  }

  /** The walk starts with the root alone in the queue. */
  lemma QueuedStart<E>(t: BTree<E>)
    requires t.BNode?
    ensures Queued(t, [], [[]])
  {
    RootedAtRoot(PostorderPos(t));
    FlattenOne(t, []);
  }

  /** With the queue empty, the walk has listed every position once, level by level and left to right within a level. */
  lemma QueuedDone<E>(t: BTree<E>, done: seq<Path>)
    requires Queued(t, done, [])
    ensures forall p :: p in done <==> ValidPos(t, p)
    ensures Distinct(done)
    ensures LevelSorted(done)
    ensures forall i, j :: 0 <= i < j < |done| ==> |done[i]| <= |done[j]|
  {
    assert Flatten(t, []) == [];
    PermutesPositions(t, done);
  }

  /** The children a node queues are its own children, left before right. */
  lemma ChildrenLeveled<E>(t: BTree<E>, p: Path)
    requires ValidPos(t, p)
    ensures forall i :: 0 <= i < |PresentChildren(t, p)| ==>
      PresentChildren(t, p)[i] == p + [B.Left] || PresentChildren(t, p)[i] == p + [B.Right]
    ensures LevelSorted(PresentChildren(t, p))
  {
    LexChildren(p);
  }

  /** One round of the walk keeps its state and leaves less to do. */
  lemma QueuedStep<E>(t: BTree<E>, done: seq<Path>, q: seq<Path>)
    requires Queued(t, done, q) && q != []
    ensures Queued(t, done + [q[0]], q[1..] + PresentChildren(t, q[0]))
    ensures |Flatten(t, q[1..] + PresentChildren(t, q[0]))| < |Flatten(t, q)|
  {
    QueueStep(t, q);
    ChildrenLeveled(t, q[0]);
    LeveledStep(done, q, PresentChildren(t, q[0]));
    assert multiset(done + [q[0]]) == multiset(done) + multiset{q[0]};
  }

  /** A sequence with the multiset of the postorder positions holds every position once. */
  lemma PermutesPositions<E>(t: BTree<E>, s: seq<Path>)
    requires multiset(s) == multiset(PostorderPos(t))
    ensures forall p :: p in s <==> ValidPos(t, p)
    ensures Distinct(s)
  {
    PostorderMeaning(t);
    DistinctCounts(PostorderPos(t));
    DistinctCounts(s);
    forall p
      ensures p in s <==> ValidPos(t, p)
    {
      assert p in s <==> p in multiset(s);
      assert p in PostorderPos(t) <==> p in multiset(PostorderPos(t));
    }
  }
}

/**
 * treeSearch: the descent from the root that every tree-map operation
 * starts with. It stops at the internal node holding the key, or at the
 * sentinel where the key would be inserted.
 */
module TreeSearch {
  import opened Wrappers
  import opened BalanceableBinaryTree
  import opened SortedEntries

  /** treeSearch(root(), k) as the path of the position it returns. */
  function Search<V>(t: Tree<V>, k: int): (p: Path)
    ensures ValidPath(t, p)
    ensures At(t, p).Node? ==> At(t, p).entry.key == k
    decreases t
  {
    if t.Leaf? || k == t.entry.key then []
    else if k < t.entry.key then [Left] + Search(t.left, k)
    else [Right] + Search(t.right, k)
  }

  /**
   * In a search tree, everything before the position found is below the key
   * and everything after it is above.
   */
  lemma {:induction false} SearchSplits<V>(t: Tree<V>, k: int)
    requires Bst(t)
    ensures AllBelow(Before(t, Search(t, k)), k)
    ensures AllAbove(After(t, Search(t, k)), k)
    decreases t
  {
    if t.Node? && k != t.entry.key {
      var p := Search(t, k);
      BstNode(t);
      assert p[1..] == Search(Child(t, p[0]), k);
      SearchSplits(Child(t, p[0]), k);
      if k < t.entry.key {
        AllAboveAppend(After(t.left, p[1..]), [t.entry], k);
        AllAboveAppend(After(t.left, p[1..]) + [t.entry], Entries(t.right), k);
      } else {
        AllBelowAppend(Entries(t.left), [t.entry], k);
        AllBelowAppend(Entries(t.left) + [t.entry], Before(t.right, p[1..]), k);
      }
    }
  }

  /** The search stops at an internal node exactly when the key is present. */
  lemma SearchFinds<V>(t: Tree<V>, k: int)
    requires Bst(t)
    ensures At(t, Search(t, k)).Node? <==> k in KeysOf(Entries(t))
  {
    var p := Search(t, k);
    SearchSplits(t, k);
    Decompose(t, p);
    var b, m, a := Before(t, p), Entries(At(t, p)), After(t, p);
    KeysOfAppend(b + m, a);
    KeysOfAppend(b, m);
    if At(t, p).Node? {
      var n := At(t, p);
      assert m == Entries(n.left) + [n.entry] + Entries(n.right);
      assert m[|Entries(n.left)|] == n.entry;
    }
  }

  /** In a search tree, the node holding a key is the one the search finds. */
  lemma {:induction false} SearchUnique<V>(t: Tree<V>, p: Path, k: int)
    requires Bst(t) && ValidPath(t, p) && At(t, p).Node? && At(t, p).entry.key == k
    ensures Search(t, k) == p
    decreases |p|
  {
    if p != [] {
      BstNode(t);
      var c := Child(t, p[0]);
      Decompose(c, p[1..]);
      var n := At(c, p[1..]);
      assert Entries(n) == Entries(n.left) + [n.entry] + Entries(n.right);
      var i := |Before(c, p[1..])| + |Entries(n.left)|;
      assert Entries(c)[i] == n.entry;
      SearchUnique(c, p[1..], k);
    }
  }

  /** Inserting an absent key at the sentinel the search stops at keeps the order. */
  lemma InsertAtSearch<V>(t: Tree<V>, k: int, n: Tree<V>)
    requires Bst(t) && At(t, Search(t, k)).Leaf? && n.Node? && n.entry.key == k
    requires n.left.Leaf? && n.right.Leaf?
    ensures Entries(Replace(t, Search(t, k), n)) == Upsert(Entries(t), n.entry)
    ensures Bst(Replace(t, Search(t, k), n))
  {
    var p := Search(t, k);
    SearchSplits(t, k);
    Decompose(t, p);
    ReplaceContext(t, p, n);
    var b, a := Before(t, p), After(t, p);
    assert Entries(At(t, p)) == [] && Entries(n) == [n.entry];
    assert Entries(t) == b + a;
    UpsertBetween(b, a, n.entry);
    UpsertOrdered(b + a, n.entry);
    assert Entries(Replace(t, p, n)) == Upsert(Entries(t), n.entry);
  }

  /**
   * Around the node the search finds, the in-order sequence splits into the
   * keys below and the keys above.
   */
  lemma FoundSplit<V>(t: Tree<V>, k: int) returns (x: seq<Entry<V>>, y: seq<Entry<V>>)
    requires Bst(t) && At(t, Search(t, k)).Node?
    ensures Entries(t) == x + [At(t, Search(t, k)).entry] + y
    ensures AllBelow(x, k) && AllAbove(y, k)
    ensures x == Before(t, Search(t, k)) + Entries(At(t, Search(t, k)).left)
    ensures y == Entries(At(t, Search(t, k)).right) + After(t, Search(t, k))
  {
    var p := Search(t, k);
    var n := At(t, p);
    SearchSplits(t, k);
    Decompose(t, p);
    BstAt(t, p);
    BstNode(n);
    var b, a := Before(t, p), After(t, p);
    var l, r := Entries(n.left), Entries(n.right);
    x, y := b + l, r + a;
    Regroup(b, l, n.entry, r, a);
    AllBelowAppend(b, l, k);
    AllAboveAppend(r, a, k);
  }

  lemma Regroup<V>(b: seq<Entry<V>>, l: seq<Entry<V>>, e: Entry<V>, r: seq<Entry<V>>, a: seq<Entry<V>>)
    ensures b + (l + [e] + r) + a == (b + l) + [e] + (r + a)
  {
  }

  /** Replacing the entry of the node the search finds keeps the order. */
  lemma ReplaceAtSearch<V>(t: Tree<V>, k: int, e: Entry<V>)
    requires Bst(t) && At(t, Search(t, k)).Node? && e.key == k
    ensures Entries(SetEntry(t, Search(t, k), e)) == Upsert(Entries(t), e)
    ensures Bst(SetEntry(t, Search(t, k), e))
  {
    var p := Search(t, k);
    var n := At(t, p);
    var x, y := FoundSplit(t, k);
    ReplaceContext(t, p, n.(entry := e));
    assert Entries(SetEntry(t, p, e)) == x + [e] + y;
    UpsertReplaces(x, n.entry, y, e);
    UpsertOrdered(Entries(t), e);
  }

  /** get: the value held by the node the search finds is the value of the key. */
  lemma LookupAtSearch<V>(t: Tree<V>, k: int)
    requires Bst(t)
    ensures Lookup(Entries(t), k) ==
      if At(t, Search(t, k)).Node? then Some(At(t, Search(t, k)).entry.value) else None
  {
    SearchFinds(t, k);
    if At(t, Search(t, k)).Node? {
      var x, y := FoundSplit(t, k);
      LookupBetween(x, At(t, Search(t, k)).entry, y);
    } else {
      LookupAbsent(Entries(t), k);
    }
  }
}

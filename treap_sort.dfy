/**
 * treapSort: put every element of the input into an empty treap as its own
 * key and value, then read the keys back in order. A treap holds each key
 * once, so the result holds each distinct element of the input once,
 * ascending.
 */
module TreapSort {
  import opened BalanceableBinaryTree
  import opened SortedEntries
  import opened TreeMap

  ghost predicate StrictlyIncreasing(s: seq<int>)
  {
    forall i, j :: 0 <= i < j < |s| ==> s[i] < s[j]
  }

  /**
   * The random priorities come in as `draws`, one per element, each in
   * [0, 1000) as Random.nextInt(1000) gives them.
   */
  method Sort(input: seq<int>, draws: seq<int>) returns (sorted: seq<int>)
    requires |draws| == |input| && forall i :: 0 <= i < |draws| ==> 0 <= draws[i] < 1000
    ensures StrictlyIncreasing(sorted)
    ensures forall x :: x in sorted <==> x in input
  {
    var treap := new TreeMap<int>(TreapBalancing);
    var i := 0;
    while i < |input|
      invariant 0 <= i <= |input|
      invariant treap.Valid() && treap.balancing == TreapBalancing
      invariant KeysOf(Entries(treap.tree)) == set j | 0 <= j < i :: input[j]
    {
      UpsertKeys(Entries(treap.tree), Entry(input[i], input[i]));
      InputsStep(input, i);
      var previous := treap.Put(input[i], input[i], draws[i]);
      i := i + 1;
    }
    var tree := treap.tree;
    var entries := Entries(tree);
    var positions := InorderPositions(tree);
    InorderPositionsMeaning(tree);
    sorted := [];
    var j := 0;
    while j < |positions|
      invariant 0 <= j <= |positions| && |sorted| == j
      invariant forall m :: 0 <= m < j ==> sorted[m] == entries[m].key
    {
      if At(tree, positions[j]).Node? {
        sorted := sorted + [At(tree, positions[j]).entry.key];
      }
      j := j + 1;
    }
    KeysInOrder(entries, sorted, input);
  }

  /** One more input read: its element joins the set of those read. */
  lemma InputsStep(input: seq<int>, i: int)
    requires 0 <= i < |input|
    ensures (set j | 0 <= j < i + 1 :: input[j]) == (set j | 0 <= j < i :: input[j]) + {input[i]}
  {
  }

  /** The keys of an ordered entry sequence, read in order, are the distinct inputs ascending. */
  lemma KeysInOrder(entries: seq<Entry<int>>, sorted: seq<int>, input: seq<int>)
    requires Ordered(entries) && |sorted| == |entries|
    requires forall m :: 0 <= m < |entries| ==> sorted[m] == entries[m].key
    requires KeysOf(entries) == set j | 0 <= j < |input| :: input[j]
    ensures StrictlyIncreasing(sorted)
    ensures forall x :: x in sorted <==> x in input
  {
    forall x | x in input
      ensures x in sorted
    {
      var m :| 0 <= m < |input| && input[m] == x;
      assert x in KeysOf(entries);
      var q :| 0 <= q < |entries| && entries[q].key == x;
      assert sorted[q] == x;
    }
    forall x | x in sorted
      ensures x in input
    {
      var q :| 0 <= q < |sorted| && sorted[q] == x;
      assert entries[q].key in KeysOf(entries);
    }
  }
}

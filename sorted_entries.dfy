/**
 * The meaning of a sorted map, stated on the in-order sequence of its
 * entries: lookup, insert-or-replace, delete, the four neighbour queries of
 * a sorted map and the half-open key range. These are the reference
 * definitions the tree operations are proved against.
 */
module SortedEntries {
  import opened Wrappers
  import opened BalanceableBinaryTree

  /** The value of the first entry with key k. */
  function Lookup<V>(s: seq<Entry<V>>, k: int): Option<V>
  {
    if s == [] then None
    else if s[0].key == k then Some(s[0].value)
    else Lookup(s[1..], k)
  }

  /** Insert e before the first larger key, or replace the entry with e's key. */
  function Upsert<V>(s: seq<Entry<V>>, e: Entry<V>): seq<Entry<V>>
  {
    if s == [] then [e]
    else if e.key < s[0].key then [e] + s
    else if e.key == s[0].key then [e] + s[1..]
    else [s[0]] + Upsert(s[1..], e)
  }

  /** Drop every entry with key k. */
  function Delete<V>(s: seq<Entry<V>>, k: int): seq<Entry<V>>
  {
    if s == [] then []
    else if s[0].key == k then Delete(s[1..], k)
    else [s[0]] + Delete(s[1..], k)
  }

  /** The first entry whose key is at least k. */
  function CeilingOf<V>(s: seq<Entry<V>>, k: int): Option<Entry<V>>
  {
    if s == [] then None
    else if s[0].key >= k then Some(s[0])
    else CeilingOf(s[1..], k)
  }

  /** The first entry whose key is greater than k. */
  function HigherOf<V>(s: seq<Entry<V>>, k: int): Option<Entry<V>>
  {
    if s == [] then None
    else if s[0].key > k then Some(s[0])
    else HigherOf(s[1..], k)
  }

  /** The last entry whose key is at most k. */
  function FloorOf<V>(s: seq<Entry<V>>, k: int): Option<Entry<V>>
  {
    if s == [] then None
    else if s[|s| - 1].key <= k then Some(s[|s| - 1])
    else FloorOf(s[..|s| - 1], k)
  }

  /** The last entry whose key is less than k. */
  function LowerOf<V>(s: seq<Entry<V>>, k: int): Option<Entry<V>>
  {
    if s == [] then None
    else if s[|s| - 1].key < k then Some(s[|s| - 1])
    else LowerOf(s[..|s| - 1], k)
  }

  /** The entries with from <= key < to, in order. */
  function Range<V>(s: seq<Entry<V>>, from: int, to: int): seq<Entry<V>>
  {
    if s == [] then []
    else if from <= s[0].key < to then [s[0]] + Range(s[1..], from, to)
    else Range(s[1..], from, to)
  }

  // ---------------------------------------------------------------------------
  // What the reference definitions mean

  /** put then get: the new key maps to the new value, every other key is untouched. */
  lemma {:induction false} LookupUpsert<V>(s: seq<Entry<V>>, e: Entry<V>, k: int)
    ensures Lookup(Upsert(s, e), k) == if k == e.key then Some(e.value) else Lookup(s, k)
  {
    if s != [] && e.key > s[0].key {
      LookupUpsert(s[1..], e, k);
      assert ([s[0]] + Upsert(s[1..], e))[1..] == Upsert(s[1..], e);
    } else if s != [] && e.key == s[0].key {
      assert ([e] + s[1..])[1..] == s[1..];
    } else if s != [] {
      assert ([e] + s)[1..] == s;
    }
  }

  /** remove then get: the key is gone, every other key is untouched. */
  lemma {:induction false} LookupDelete<V>(s: seq<Entry<V>>, k: int, j: int)
    ensures Lookup(Delete(s, k), j) == if j == k then None else Lookup(s, j)
  {
    if s != [] {
      LookupDelete(s[1..], k, j);
      if s[0].key != k {
        assert ([s[0]] + Delete(s[1..], k))[1..] == Delete(s[1..], k);
      }
    }
  }

  lemma {:induction false} UpsertKeys<V>(s: seq<Entry<V>>, e: Entry<V>)
    ensures KeysOf(Upsert(s, e)) == KeysOf(s) + {e.key}
  {
    KeysOfSingle(e);
    if s != [] {
      var r := Upsert(s, e);
      assert s == [s[0]] + s[1..];
      KeysOfAppend([s[0]], s[1..]);
      KeysOfSingle(s[0]);
      if e.key > s[0].key {
        UpsertKeys(s[1..], e);
        assert r == [s[0]] + Upsert(s[1..], e);
        KeysOfAppend([s[0]], Upsert(s[1..], e));
      } else if e.key == s[0].key {
        assert r == [e] + s[1..];
        KeysOfAppend([e], s[1..]);
      } else {
        assert r == [e] + s;
        KeysOfAppend([e], s);
      }
    }
  }

  /** Insert-or-replace keeps the keys strictly increasing. */
  lemma {:induction false} UpsertOrdered<V>(s: seq<Entry<V>>, e: Entry<V>)
    requires Ordered(s)
    ensures Ordered(Upsert(s, e))
  {
    KeysOfSingle(e);
    if s == [] {
      assert Upsert(s, e) == [e];
    } else {
      OrderedHead(s);
      var rest := s[1..];
      if e.key > s[0].key {
        UpsertOrdered(rest, e);
        UpsertKeys(rest, e);
        OrderedCons(s[0], Upsert(rest, e));
      } else if e.key == s[0].key {
        OrderedCons(e, rest);
      } else {
        OrderedCons(e, s);
      }
    }
  }

  /** An ordered non-empty sequence: its tail is ordered and its head's key is below every later key. */
  lemma OrderedHead<V>(s: seq<Entry<V>>)
    requires Ordered(s) && s != []
    ensures Ordered(s[1..])
    ensures forall k :: k in KeysOf(s[1..]) ==> s[0].key < k
    ensures forall k :: k in KeysOf(s) ==> s[0].key <= k
  {
    assert s == [s[0]] + s[1..];
    OrderedSplit([s[0]], s[1..]);
  }

  /** An entry whose key is below every key of an ordered sequence can go in front of it. */
  lemma OrderedCons<V>(x: Entry<V>, u: seq<Entry<V>>)
    requires Ordered(u) && forall k :: k in KeysOf(u) ==> x.key < k
    ensures Ordered([x] + u)
  {
    var r := [x] + u;
    forall i, j | 0 <= i < j < |r|
      ensures r[i].key < r[j].key
    {
      assert r[j] == u[j - 1] && u[j - 1].key in KeysOf(u);
      if i > 0 {
        assert r[i] == u[i - 1];
      }
    }
  }

  /** Insert-or-replace adds one entry exactly when the key was absent. */
  lemma {:induction false} UpsertLength<V>(s: seq<Entry<V>>, e: Entry<V>)
    requires Ordered(s)
    ensures |Upsert(s, e)| == if e.key in KeysOf(s) then |s| else |s| + 1
  {
    if s != [] {
      assert s == [s[0]] + s[1..];
      OrderedSplit([s[0]], s[1..]);
      KeysOfAppend([s[0]], s[1..]);
      KeysOfSingle(s[0]);
      if e.key > s[0].key {
        UpsertLength(s[1..], e);
      } else if e.key < s[0].key {
        assert e.key !in KeysOf(s[1..]);
      }
    }
  }

  /** Deletion keeps the keys strictly increasing and drops one entry when the key was present. */
  lemma {:induction false} DeleteOrdered<V>(s: seq<Entry<V>>, k: int)
    requires Ordered(s)
    ensures Ordered(Delete(s, k))
    ensures KeysOf(Delete(s, k)) == KeysOf(s) - {k}
    ensures |Delete(s, k)| == if k in KeysOf(s) then |s| - 1 else |s|
  {
    if s != [] {
      assert s == [s[0]] + s[1..];
      OrderedSplit([s[0]], s[1..]);
      DeleteOrdered(s[1..], k);
      KeysOfAppend([s[0]], s[1..]);
      var d := Delete(s[1..], k);
      if s[0].key != k {
        KeysOfAppend([s[0]], d);
        OrderedHead(s);
        OrderedCons(s[0], d);
      } else {
        assert k !in KeysOf(s[1..]);
      }
    }
  }

  /** Inserting a key that lies between the two halves of a split. */
  lemma {:induction false} UpsertBetween<V>(b: seq<Entry<V>>, a: seq<Entry<V>>, e: Entry<V>)
    requires AllBelow(b, e.key) && AllAbove(a, e.key)
    ensures Upsert(b + a, e) == b + [e] + a
  {
    if b == [] {
      assert b + a == a;
    } else {
      assert (b + a)[0] == b[0] && (b + a)[1..] == b[1..] + a;
      UpsertBetween(b[1..], a, e);
      assert b + [e] + a == [b[0]] + (b[1..] + [e] + a);
    }
  }

  /** Replacing the entry that sits between the two halves of a split. */
  lemma {:induction false} UpsertReplaces<V>(b: seq<Entry<V>>, x: Entry<V>, a: seq<Entry<V>>, e: Entry<V>)
    requires AllBelow(b, e.key) && x.key == e.key
    ensures Upsert(b + [x] + a, e) == b + [e] + a
  {
    if b == [] {
      assert b + [x] + a == [x] + a && ([x] + a)[1..] == a;
    } else {
      assert (b + [x] + a)[0] == b[0] && (b + [x] + a)[1..] == b[1..] + [x] + a;
      UpsertReplaces(b[1..], x, a, e);
      assert b + [e] + a == [b[0]] + (b[1..] + [e] + a);
    }
  }

  lemma {:induction false} DeleteAbsent<V>(s: seq<Entry<V>>, k: int)
    requires k !in KeysOf(s)
    ensures Delete(s, k) == s
  {
    if s != [] {
      assert KeysOf(s[1..]) <= KeysOf(s) by {
        forall i | 0 <= i < |s[1..]| ensures s[1..][i].key in KeysOf(s) {
          assert s[1..][i] == s[i + 1];
        }
      }
      DeleteAbsent(s[1..], k);
      assert s == [s[0]] + s[1..];
    }
  }

  lemma {:induction false} DeleteAppend<V>(a: seq<Entry<V>>, b: seq<Entry<V>>, k: int)
    ensures Delete(a + b, k) == Delete(a, k) + Delete(b, k)
  {
    if a == [] {
      assert a + b == b;
    } else {
      assert (a + b)[0] == a[0] && (a + b)[1..] == a[1..] + b;
      DeleteAppend(a[1..], b, k);
    }
  }

  /** Deleting the entry that sits between the two halves of a split. */
  lemma DeleteBetween<V>(b: seq<Entry<V>>, x: Entry<V>, a: seq<Entry<V>>)
    requires AllBelow(b, x.key) && AllAbove(a, x.key)
    ensures Delete(b + [x] + a, x.key) == b + a
  {
    DeleteAppend(b + [x], a, x.key);
    DeleteAppend(b, [x], x.key);
    DeleteAbsent(b, x.key);
    DeleteAbsent(a, x.key);
    assert Delete([x], x.key) == [];
  }

  lemma {:induction false} LookupAbsent<V>(s: seq<Entry<V>>, k: int)
    requires k !in KeysOf(s)
    ensures Lookup(s, k) == None
  {
    if s != [] {
      assert KeysOf(s[1..]) <= KeysOf(s) by {
        forall i | 0 <= i < |s[1..]| ensures s[1..][i].key in KeysOf(s) {
          assert s[1..][i] == s[i + 1];
        }
      }
      LookupAbsent(s[1..], k);
    }
  }

  /** The value found for a key that sits between the two halves of a split. */
  lemma {:induction false} LookupBetween<V>(b: seq<Entry<V>>, x: Entry<V>, a: seq<Entry<V>>)
    requires AllBelow(b, x.key)
    ensures Lookup(b + [x] + a, x.key) == Some(x.value)
  {
    if b == [] {
      assert (b + [x] + a)[0] == x;
    } else {
      assert (b + [x] + a)[0] == b[0] && (b + [x] + a)[1..] == b[1..] + [x] + a;
      LookupBetween(b[1..], x, a);
    }
  }

  /** Ceiling: the least key at or above k, or nothing when every key is below k. */
  lemma {:induction false} CeilingOfMeaning<V>(s: seq<Entry<V>>, k: int)
    requires Ordered(s)
    ensures CeilingOf(s, k).None? <==> AllBelow(s, k)
    ensures CeilingOf(s, k).Some? ==> CeilingOf(s, k).value in s && CeilingOf(s, k).value.key >= k
    ensures CeilingOf(s, k).Some? ==>
      forall i :: 0 <= i < |s| && s[i].key >= k ==> CeilingOf(s, k).value.key <= s[i].key
  {
    if s != [] {
      OrderedFirst(s);
      CeilingOfMeaning(s[1..], k);
    }
  }

  /** Floor: the greatest key at or below k, or nothing when every key is above k. */
  lemma {:induction false} FloorOfMeaning<V>(s: seq<Entry<V>>, k: int)
    requires Ordered(s)
    ensures FloorOf(s, k).None? <==> AllAbove(s, k)
    ensures FloorOf(s, k).Some? ==> FloorOf(s, k).value in s && FloorOf(s, k).value.key <= k
    ensures FloorOf(s, k).Some? ==>
      forall i :: 0 <= i < |s| && s[i].key <= k ==> s[i].key <= FloorOf(s, k).value.key
  {
    if s != [] {
      OrderedLast(s);
      FloorOfMeaning(s[..|s| - 1], k);
    }
  }

  /** Lower: the greatest key strictly below k, or nothing. */
  lemma {:induction false} LowerOfMeaning<V>(s: seq<Entry<V>>, k: int)
    requires Ordered(s)
    ensures LowerOf(s, k).None? <==> forall i :: 0 <= i < |s| ==> s[i].key >= k
    ensures LowerOf(s, k).Some? ==> LowerOf(s, k).value in s && LowerOf(s, k).value.key < k
    ensures LowerOf(s, k).Some? ==>
      forall i :: 0 <= i < |s| && s[i].key < k ==> s[i].key <= LowerOf(s, k).value.key
  {
    if s != [] {
      OrderedLast(s);
      LowerOfMeaning(s[..|s| - 1], k);
    }
  }

  /** Higher: the least key strictly above k, or nothing. */
  lemma {:induction false} HigherOfMeaning<V>(s: seq<Entry<V>>, k: int)
    requires Ordered(s)
    ensures HigherOf(s, k).None? <==> forall i :: 0 <= i < |s| ==> s[i].key <= k
    ensures HigherOf(s, k).Some? ==> HigherOf(s, k).value in s && HigherOf(s, k).value.key > k
    ensures HigherOf(s, k).Some? ==>
      forall i :: 0 <= i < |s| && s[i].key > k ==> HigherOf(s, k).value.key <= s[i].key
  {
    if s != [] {
      OrderedFirst(s);
      HigherOfMeaning(s[1..], k);
    }
  }

  /** An ordered non-empty sequence, seen from its front: the rest is ordered and above the first key. */
  lemma OrderedFirst<V>(s: seq<Entry<V>>)
    requires Ordered(s) && s != []
    ensures Ordered(s[1..])
    ensures forall i :: 1 <= i < |s| ==> s[i] == s[1..][i - 1] && s[0].key < s[i].key
    ensures forall x :: x in s[1..] ==> x in s
  {
  }

  /** An ordered non-empty sequence, seen from its back: the rest is ordered and below the last key. */
  lemma OrderedLast<V>(s: seq<Entry<V>>)
    requires Ordered(s) && s != []
    ensures Ordered(s[..|s| - 1])
    ensures forall i :: 0 <= i < |s| - 1 ==> s[i] == s[..|s| - 1][i] && s[i].key < s[|s| - 1].key
    ensures forall x :: x in s[..|s| - 1] ==> x in s
  {
  }

  /** Entries below k in front do not change the ceiling. */
  lemma {:induction false} CeilingOfSkip<V>(b: seq<Entry<V>>, a: seq<Entry<V>>, k: int)
    requires AllBelow(b, k)
    ensures CeilingOf(b + a, k) == CeilingOf(a, k)
    decreases |b|
  {
    if b == [] {
      assert b + a == a;
    } else {
      assert (b + a)[0] == b[0] && (b + a)[1..] == b[1..] + a;
      CeilingOfSkip(b[1..], a, k);
    }
  }

  /** Entries at or below k in front do not change the next higher entry. */
  lemma {:induction false} HigherOfSkip<V>(b: seq<Entry<V>>, a: seq<Entry<V>>, k: int)
    requires forall i :: 0 <= i < |b| ==> b[i].key <= k
    ensures HigherOf(b + a, k) == HigherOf(a, k)
    decreases |b|
  {
    if b == [] {
      assert b + a == a;
    } else {
      assert (b + a)[0] == b[0] && (b + a)[1..] == b[1..] + a;
      HigherOfSkip(b[1..], a, k);
    }
  }

  /** Entries above k at the back do not change the floor. */
  lemma {:induction false} FloorOfSkip<V>(b: seq<Entry<V>>, a: seq<Entry<V>>, k: int)
    requires AllAbove(a, k)
    ensures FloorOf(b + a, k) == FloorOf(b, k)
    decreases |a|
  {
    if a == [] {
      assert b + a == b;
    } else {
      var n := |a| - 1;
      assert (b + a)[|b + a| - 1] == a[n] && (b + a)[..|b + a| - 1] == b + a[..n];
      FloorOfSkip(b, a[..n], k);
    }
  }

  /** Entries at or above k at the back do not change the next lower entry. */
  lemma {:induction false} LowerOfSkip<V>(b: seq<Entry<V>>, a: seq<Entry<V>>, k: int)
    requires forall i :: 0 <= i < |a| ==> a[i].key >= k
    ensures LowerOf(b + a, k) == LowerOf(b, k)
    decreases |a|
  {
    if a == [] {
      assert b + a == b;
    } else {
      var n := |a| - 1;
      assert (b + a)[|b + a| - 1] == a[n] && (b + a)[..|b + a| - 1] == b + a[..n];
      LowerOfSkip(b, a[..n], k);
    }
  }

  /** The range holds exactly the entries with keys in [from, to). */
  lemma {:induction false} RangeMembers<V>(s: seq<Entry<V>>, from: int, to: int)
    ensures forall e | e in Range(s, from, to) :: e in s && from <= e.key < to
    ensures forall e | e in s && from <= e.key < to :: e in Range(s, from, to)
  {
    if s != [] {
      RangeMembers(s[1..], from, to);
      assert s == [s[0]] + s[1..];
    }
  }

  /** The range of an ordered sequence is ordered. */
  lemma {:induction false} RangeOrdered<V>(s: seq<Entry<V>>, from: int, to: int)
    requires Ordered(s)
    ensures Ordered(Range(s, from, to))
  {
    if s != [] {
      OrderedHead(s);
      RangeOrdered(s[1..], from, to);
      if from <= s[0].key < to {
        RangeKeys(s[1..], from, to);
        OrderedCons(s[0], Range(s[1..], from, to));
      }
    }
  }

  /** The range keeps only keys of the sequence. */
  lemma RangeKeys<V>(s: seq<Entry<V>>, from: int, to: int)
    ensures forall k :: k in KeysOf(Range(s, from, to)) ==> k in KeysOf(s)
  {
    var r := Range(s, from, to);
    RangeMembers(s, from, to);
    forall k | k in KeysOf(r)
      ensures k in KeysOf(s)
    {
      var i :| 0 <= i < |r| && r[i].key == k;
      assert r[i] in r;
      var j :| 0 <= j < |s| && s[j] == r[i];
    }
  }

  lemma {:induction false} RangeAppend<V>(a: seq<Entry<V>>, b: seq<Entry<V>>, from: int, to: int)
    ensures Range(a + b, from, to) == Range(a, from, to) + Range(b, from, to)
  {
    if a == [] {
      assert a + b == b;
    } else {
      assert (a + b)[0] == a[0] && (a + b)[1..] == a[1..] + b;
      RangeAppend(a[1..], b, from, to);
    }
  }

  lemma {:induction false} RangeNone<V>(s: seq<Entry<V>>, from: int, to: int)
    requires forall i :: 0 <= i < |s| ==> !(from <= s[i].key < to)
    ensures Range(s, from, to) == []
  {
    if s != [] {
      RangeNone(s[1..], from, to);
    }
  }

  lemma {:induction false} RangeAll<V>(s: seq<Entry<V>>, from: int, to: int)
    requires forall i :: 0 <= i < |s| ==> from <= s[i].key < to
    ensures Range(s, from, to) == s
  {
    if s != [] {
      RangeAll(s[1..], from, to);
      assert s == [s[0]] + s[1..];
    }
  }
}

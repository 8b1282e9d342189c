/**
 * SinglyLinkedList: a head/tail/size list over `next` links.
 *
 * Nodes live in a node store owned by the list object: node n holds elem[n]
 * and links to next[n] (Null for none). A new node is appended to the store
 * and unlinked nodes stay in it, so a stale `tail` still names a node with an
 * element, as a dangling Java reference does. The ghost `nodes` is the chain
 * reachable from `head`, in order.
 */
module SinglyLinkedList {
  import opened Wrappers
  import opened Sequences

  /** The null reference. */
  const Null: int := -1

  /** nodes are distinct store indices, head is the first (Null if none), each links to the next and the last to Null. */
  ghost predicate IsChain(next: seq<int>, head: int, nodes: seq<int>)
  {
    && (forall k :: 0 <= k < |nodes| ==> 0 <= nodes[k] < |next|)
    && (forall k, l :: 0 <= k < l < |nodes| ==> nodes[k] != nodes[l])
    && head == (if nodes == [] then Null else nodes[0])
    && (forall k {:trigger next[nodes[k]]} :: 0 <= k < |nodes| ==> next[nodes[k]] == if k + 1 < |nodes| then nodes[k + 1] else Null)
  }

  /** The elements stored at the given nodes, in order. */
  function Gather<E>(elem: seq<E>, nodes: seq<int>): (s: seq<E>)
    requires forall k :: 0 <= k < |nodes| ==> 0 <= nodes[k] < |elem|
    ensures |s| == |nodes|
    ensures forall k :: 0 <= k < |nodes| ==> s[k] == elem[nodes[k]]
  {
    seq(|nodes|, k requires 0 <= k < |nodes| => elem[nodes[k]])
  }

  /** Linking a fresh node n in front of a chain gives a chain starting at n. */
  lemma ChainPush(next: seq<int>, head: int, nodes: seq<int>, n: int)
    requires IsChain(next, head, nodes) && n == |next|
    ensures IsChain(next + [head], n, [n] + nodes)
  {
  }

  /** Linking a fresh node n after the chain's node at - 1 puts n at index at. */
  lemma ChainInsert(next: seq<int>, head: int, nodes: seq<int>, at: int, n: int)
    requires IsChain(next, head, nodes) && n == |next| && 1 <= at <= |nodes|
    ensures IsChain((next + [next[nodes[at - 1]]])[nodes[at - 1] := n], head, nodes[..at] + [n] + nodes[at..])
  {
    var next' := (next + [next[nodes[at - 1]]])[nodes[at - 1] := n];
    var nodes' := nodes[..at] + [n] + nodes[at..];
    assert |nodes'| == |nodes| + 1;
    forall k | 0 <= k < |nodes'|
      ensures next'[nodes'[k]] == if k + 1 < |nodes'| then nodes'[k + 1] else Null
    {
      if k < at - 1 {
        assert nodes'[k] == nodes[k] && nodes'[k + 1] == nodes[k + 1];
        assert nodes[k] != nodes[at - 1];
      } else if k == at - 1 {
        assert nodes'[k] == nodes[at - 1] && nodes'[k + 1] == n;
      } else if k == at {
        assert nodes'[k] == n;
        if at < |nodes| {
          assert nodes'[k + 1] == nodes[at];
        }
      } else {
        assert nodes'[k] == nodes[k - 1] && nodes[k - 1] != nodes[at - 1];
        if k < |nodes| {
          assert nodes'[k + 1] == nodes[k];
        }
      }
    }
    forall k, l | 0 <= k < l < |nodes'|
      ensures nodes'[k] != nodes'[l]
    {
      if k != at && l != at {
        var k0 := if k < at then k else k - 1;
        var l0 := if l < at then l else l - 1;
        assert nodes'[k] == nodes[k0] && nodes'[l] == nodes[l0] && k0 < l0;
      }
    }
  }

  /** Unlinking the chain's node at index del (not the first) keeps the others chained. */
  lemma ChainRemoveAfter(next: seq<int>, head: int, nodes: seq<int>, del: int)
    requires IsChain(next, head, nodes) && 1 <= del < |nodes|
    ensures IsChain(next[nodes[del - 1] := next[nodes[del]]], head, nodes[..del] + nodes[del + 1..])
  {
    var next' := next[nodes[del - 1] := next[nodes[del]]];
    var nodes' := nodes[..del] + nodes[del + 1..];
    assert |nodes'| == |nodes| - 1;
    forall k | 0 <= k < |nodes'|
      ensures next'[nodes'[k]] == if k + 1 < |nodes'| then nodes'[k + 1] else Null
    {
      if k < del - 1 {
        assert nodes'[k] == nodes[k] && nodes'[k + 1] == nodes[k + 1];
        assert nodes[k] != nodes[del - 1];
      } else if k == del - 1 {
        assert nodes'[k] == nodes[del - 1];
        if k + 1 < |nodes'| {
          assert nodes'[k + 1] == nodes[del + 1];
        }
      } else {
        assert nodes'[k] == nodes[k + 1] && nodes[k + 1] != nodes[del - 1];
        if k + 1 < |nodes'| {
          assert nodes'[k + 1] == nodes[k + 2];
        }
      }
    }
    forall k, l | 0 <= k < l < |nodes'|
      ensures nodes'[k] != nodes'[l]
    {
      var k0 := if k < del then k else k + 1;
      var l0 := if l < del then l else l + 1;
      assert nodes'[k] == nodes[k0] && nodes'[l] == nodes[l0] && k0 < l0;
    }
  }

  /** The elements after inserting e at index at. */
  lemma GatherInsert<E>(elem: seq<E>, nodes: seq<int>, at: int, e: E)
    requires forall k :: 0 <= k < |nodes| ==> 0 <= nodes[k] < |elem|
    requires 0 <= at <= |nodes|
    ensures Gather(elem + [e], nodes[..at] + [|elem|] + nodes[at..]) == Gather(elem, nodes)[..at] + [e] + Gather(elem, nodes)[at..]
  {
  }

  /** The elements after dropping the node at index del. */
  lemma GatherRemove<E>(elem: seq<E>, nodes: seq<int>, del: int)
    requires forall k :: 0 <= k < |nodes| ==> 0 <= nodes[k] < |elem|
    requires 0 <= del < |nodes|
    ensures Gather(elem, nodes[..del] + nodes[del + 1..]) == Gather(elem, nodes)[..del] + Gather(elem, nodes)[del + 1..]
  {
  }

  /** The elements at the reversed nodes are the elements reversed. */
  lemma GatherReversed<E>(elem: seq<E>, nodes: seq<int>)
    requires forall k :: 0 <= k < |nodes| ==> 0 <= nodes[k] < |elem|
    ensures Gather(elem, Reversed(nodes)) == Reversed(Gather(elem, nodes))
  {
    var a, b := Gather(elem, Reversed(nodes)), Reversed(Gather(elem, nodes));
    forall k | 0 <= k < |a|
      ensures a[k] == b[k]
    {
      assert a[k] == elem[nodes[|nodes| - 1 - k]];
    }
  }

  class SinglyLinkedList<E> {
    var elem: seq<E>
    var next: seq<int>
    var head: int
    /** Not kept up to date by every operation: it may be Null or name any node of the store. */
    var tail: int
    var size: int
    ghost var nodes: seq<int>

    ghost predicate Valid()
      reads this
    {
      && |elem| == |next|
      && Null <= tail < |next|
      && size == |nodes|
      && IsChain(next, head, nodes)
    }

    /** The list's contents: the elements reachable from head. */
    ghost function Elements(): seq<E>
      reads this
      requires Valid()
    {
      Gather(elem, nodes)
    }

    /** tail names the last node of the chain (Null when empty). */
    ghost predicate TailIsLast()
      reads this
    {
      tail == if nodes == [] then Null else nodes[|nodes| - 1]
    }

    constructor ()
      ensures Valid() && Elements() == [] && tail == Null
      ensures elem == [] && next == [] && nodes == []
    {
      elem, next := [], [];
      head, tail, size := Null, Null, 0;
      nodes := [];
    }

    method Size() returns (n: int)
      requires Valid()
      ensures n == |Elements()|
    {
      n := size;
    }

    method IsEmpty() returns (b: bool)
      requires Valid()
      ensures b <==> Elements() == []
    {
      b := size == 0;
    }

    /**
     * get: walks `position` links from head. A negative position walks none
     * and reads the head; walking off the chain dereferences null.
     */
    method Get(position: int) returns (r: Outcome<E>)
      requires Valid()
      ensures 0 <= position < |Elements()| ==> r == Ok(Elements()[position])
      ensures position < 0 && Elements() != [] ==> r == Ok(Elements()[0])
      ensures position >= |Elements()| || Elements() == [] ==> r == Thrown(NullPointerException)
    {
      var node := head;
      var i := 0;
      while i < position
        invariant 0 <= i && (i <= position || i == 0)
        invariant i <= |nodes| && node == (if i < |nodes| then nodes[i] else Null)
      {
        if node == Null {
          return Thrown(NullPointerException);
        }
        node := next[node];
        i := i + 1;
      }
      if node == Null {
        return Thrown(NullPointerException);
      }
      r := Ok(elem[node]);
    }

    /**
     * add: position 0 links a new head; otherwise the new node goes after the
     * node reached by walking position - 1 links (none for a negative
     * position, so it lands at index 1). tail moves to the new node exactly
     * when it is linked last.
     */
    method Add(position: int, e: E) returns (r: Outcome<()>)
      requires Valid()
      modifies this
      ensures var at := if position < 0 then 1 else position;
        if at <= old(|Elements()|) then
          && r == Ok(())
          && Valid()
          && elem == old(elem) + [e]
          && Elements() == old(Elements())[..at] + [e] + old(Elements())[at..]
          && tail == (if at == old(|Elements()|) then old(|elem|) else old(tail))
        else
          r == Thrown(NullPointerException) && unchanged(this)
    {
      var newest := |elem|;
      if position == 0 {
        ChainPush(next, head, nodes, newest);
        GatherInsert(elem, nodes, 0, e);
        elem, next := elem + [e], next + [head];
        head := newest;
        if size == 0 {
          tail := head;
        }
        nodes := [newest] + nodes;
      } else {
        var prev := head;
        var i := 1;
        while i < position
          invariant 1 <= i && (i <= position || i == 1)
          invariant i - 1 <= |nodes| && prev == (if i - 1 < |nodes| then nodes[i - 1] else Null)
        {
          if prev == Null {
            return Thrown(NullPointerException);
          }
          prev := next[prev];
          i := i + 1;
        }
        if prev == Null {
          return Thrown(NullPointerException);
        }
        LinkAfter(prev, i, e);
      }
      if position == 0 {
        size := size + 1;
      }
      r := Ok(());
    }

    /** The linking step of add after the walk: a new node follows prev, and becomes tail when it is last. */
    method LinkAfter(prev: int, ghost at: int, e: E)
      requires Valid() && 1 <= at <= |nodes| && prev == nodes[at - 1]
      modifies this
      ensures Valid()
      ensures elem == old(elem) + [e]
      ensures Elements() == old(Elements())[..at] + [e] + old(Elements())[at..]
      ensures tail == if at == old(|nodes|) then old(|elem|) else old(tail)
    {
      var newest := |elem|;
      ChainInsert(next, head, nodes, at, newest);
      GatherInsert(elem, nodes, at, e);
      elem, next := elem + [e], next + [next[prev]];
      next := next[prev := newest];
      ghost var chain := nodes[..at] + [newest] + nodes[at..];
      assert chain[at] == newest && (at < |nodes| ==> chain[at + 1] == nodes[at]);
      if next[newest] == Null {
        tail := newest;
      }
      nodes := chain;
      size := size + 1;
    }

    /** addFirst: links a new head; tail is left as it was, even when the list was empty. */
    method AddFirst(e: E)
      requires Valid()
      modifies this
      ensures Valid()
      ensures Elements() == [e] + old(Elements())
      ensures elem == old(elem) + [e] && tail == old(tail)
    {
      ChainPush(next, head, nodes, |elem|);
      GatherInsert(elem, nodes, 0, e);
      var newest := |elem|;
      elem, next := elem + [e], next + [head];
      head := newest;
      size := size + 1;
      nodes := [newest] + nodes;
    }

    /** addLast: walks to the last node and links a new node after it; tail is left as it was. */
    method AddLast(e: E)
      requires Valid()
      modifies this
      ensures Valid()
      ensures Elements() == old(Elements()) + [e]
      ensures elem == old(elem) + [e] && tail == old(tail)
    {
      var newest := |elem|;
      var last := head;
      if last == Null {
        ChainPush(next, head, nodes, newest);
        GatherInsert(elem, nodes, 0, e);
        elem, next := elem + [e], next + [Null];
        head := newest;
        nodes := [newest];
      } else {
        ghost var i := 0;
        while next[last] != Null
          invariant 0 <= i < |nodes| && last == nodes[i]
          decreases |nodes| - i
        {
          last := next[last];
          i := i + 1;
        }
        ChainInsert(next, head, nodes, |nodes|, newest);
        GatherInsert(elem, nodes, |nodes|, e);
        assert nodes[..|nodes|] == nodes;
        elem, next := elem + [e], next + [next[last]];
        next := next[last := newest];
        nodes := nodes + [newest];
      }
      size := size + 1;
    }

    /**
     * remove: position 0 is removeFirst; otherwise unlinks the node after the
     * one reached by walking position - 1 links (index 1 for a negative
     * position). tail moves back only if it named the removed node.
     */
    method Remove(position: int) returns (r: Outcome<Option<E>>)
      requires Valid()
      modifies this
      ensures Valid() || r.Thrown?
      ensures position == 0 ==>
        && r == Ok(if old(Elements()) == [] then None else Some(old(Elements())[0]))
        && Elements() == (if old(Elements()) == [] then [] else old(Elements())[1..])
      ensures position == 0 && old(Elements()) == [] ==> unchanged(this)
      ensures position == 0 && old(Elements()) != [] ==> tail == (if Elements() == [] then Null else old(tail))
      ensures var del := if position < 0 then 1 else position;
        position != 0 && del < old(|Elements()|) ==>
          && r == Ok(Some(old(Elements())[del]))
          && Elements() == old(Elements())[..del] + old(Elements())[del + 1..]
          && tail == (if old(nodes)[del] == old(tail) then old(nodes)[del - 1] else old(tail))
      ensures var del := if position < 0 then 1 else position;
        position != 0 && del >= old(|Elements()|) ==>
          r == Thrown(NullPointerException) && unchanged(this)
    {
      if position == 0 {
        var x := RemoveFirst();
        return Ok(x);
      }
      var prev := head;
      var i := 1;
      while i < position
        invariant 1 <= i && (i <= position || i == 1)
        invariant i - 1 <= |nodes| && prev == (if i - 1 < |nodes| then nodes[i - 1] else Null)
      {
        if prev == Null {
          return Thrown(NullPointerException);
        }
        prev := next[prev];
        i := i + 1;
      }
      if prev == Null {
        return Thrown(NullPointerException);
      }
      var current := next[prev];
      if current == Null {
        return Thrown(NullPointerException);
      }
      var e := UnlinkAfter(prev, i);
      r := Ok(Some(e));
    }

    /** The unlinking step of remove after the walk: the node after prev is dropped, and tail moves back to prev if it named that node. */
    method UnlinkAfter(prev: int, ghost del: int) returns (e: E)
      requires Valid() && 1 <= del < |nodes| && prev == nodes[del - 1]
      modifies this
      ensures Valid()
      ensures e == old(Elements())[del]
      ensures Elements() == old(Elements())[..del] + old(Elements())[del + 1..]
      ensures tail == if old(nodes)[del] == old(tail) then old(nodes)[del - 1] else old(tail)
      ensures elem == old(elem) && nodes == old(nodes[..del] + nodes[del + 1..])
    {
      var current := next[prev];
      ChainRemoveAfter(next, head, nodes, del);
      GatherRemove(elem, nodes, del);
      next := next[prev := next[current]];
      if current == tail {
        tail := prev;
      }
      size := size - 1;
      nodes := nodes[..del] + nodes[del + 1..];
      e := elem[current];
    }

    /** removeFirst: null on an empty list; otherwise unlinks the head. tail becomes null when the list empties. */
    method RemoveFirst() returns (r: Option<E>)
      requires Valid()
      modifies this
      ensures Valid()
      ensures old(Elements()) == [] ==> r == None && unchanged(this)
      ensures old(Elements()) != [] ==>
        && r == Some(old(Elements())[0])
        && Elements() == old(Elements())[1..]
        && tail == (if Elements() == [] then Null else old(tail))
    {
      if size == 0 {
        return None;
      }
      var answer := elem[head];
      head := next[head];
      size := size - 1;
      if size == 0 {
        tail := Null;
      }
      nodes := nodes[1..];
      r := Some(answer);
    }

    /**
     * removeLast: unlinks the last node and makes the one before it the tail,
     * but returns the element of the node tail named beforehand. With a null
     * tail and two or more nodes it dereferences null before changing anything.
     */
    method RemoveLast() returns (r: Outcome<Option<E>>)
      requires Valid()
      modifies this
      ensures Valid() || r.Thrown?
      ensures old(Elements()) == [] ==> r == Ok(None) && unchanged(this)
      ensures |old(Elements())| == 1 ==> r == Ok(Some(old(Elements())[0])) && Elements() == [] && tail == Null
      ensures |old(Elements())| >= 2 && old(tail) == Null ==> r == Thrown(NullPointerException) && unchanged(this)
      ensures |old(Elements())| >= 2 && old(tail) != Null ==>
        && r == Ok(Some(old(elem[tail])))
        && Elements() == old(Elements())[..|old(Elements())| - 1]
        && TailIsLast()
    {
      if size == 0 {
        return Ok(None);
      }
      if size == 1 {
        var x := RemoveFirst();
        return Ok(x);
      }
      var prev := head;
      ghost var i := 0;
      while next[next[prev]] != Null
        invariant 0 <= i <= |nodes| - 2 && prev == nodes[i]
        decreases |nodes| - i
      {
        prev := next[prev];
        i := i + 1;
      }
      if tail == Null {
        return Thrown(NullPointerException);
      }
      var element := elem[tail];
      ghost var before, n := Elements(), |nodes|;
      var unlinked := UnlinkAfter(prev, n - 1);
      assert before[..n - 1] + before[n..] == before[..n - 1];
      tail := prev;
      r := Ok(Some(element));
    }

    /** reverse: turns every link around and makes the old last node the head; tail is left as it was. */
    method Reverse()
      requires Valid()
      modifies this
      ensures Valid()
      ensures Elements() == Reversed(old(Elements()))
      ensures tail == old(tail)
    {
      var prev := Null;
      var current := head;
      var links := next;
      ghost var chain := nodes;
      ghost var i := 0;
      ReverseStart(links, head, chain);
      while current != Null
        invariant 0 <= i <= |chain| && |links| == |elem|
        invariant prev == (if i == 0 then Null else chain[i - 1])
        invariant current == (if i < |chain| then chain[i] else Null)
        invariant ReversedUpTo(links, chain, i)
        modifies {}
        decreases |chain| - i
      {
        ReverseStep(links, chain, i);
        var following := links[current];
        links := links[current := prev];
        prev := current;
        current := following;
        i := i + 1;
      }
      assert tail == old(tail) && elem == old(elem) && chain == old(nodes);
      ReverseDone(elem, links, chain, prev);
      next, head, nodes := links, prev, Reversed(chain);
    }

    /**
     * recursiveCopy: a new list with fresh nodes holding the same elements and
     * the same size. Its tail is never set, so it stays null.
     */
    method RecursiveCopy() returns (copy: SinglyLinkedList<E>)
      requires Valid()
      ensures fresh(copy)
      ensures copy.Valid() && copy.Elements() == Elements() && copy.tail == Null
    {
      copy := new SinglyLinkedList();
      copy.head := CopyFrom(copy, head, 0);
      copy.size := size;
      copy.nodes := seq(|nodes|, k => k);
    }

    /**
     * recursiveCopyHelper: copies the chain from node current (the k-th of
     * this list) into copy's store, node by node in chain order, and returns
     * the first copied node.
     */
    method CopyFrom(copy: SinglyLinkedList<E>, current: int, ghost k: int) returns (n: int)
      requires Valid() && copy != this
      requires 0 <= k <= |nodes| && current == (if k < |nodes| then nodes[k] else Null)
      requires |copy.elem| == |copy.next|
      modifies copy
      decreases |nodes| - k
      ensures copy.head == old(copy.head) && copy.tail == old(copy.tail) && copy.size == old(copy.size)
      ensures copy.nodes == old(copy.nodes)
      ensures copy.elem == old(copy.elem) + Elements()[k..]
      ensures |copy.next| == |copy.elem| && copy.next[..old(|copy.next|)] == old(copy.next)
      ensures forall t :: old(|copy.next|) <= t < |copy.next| ==>
        copy.next[t] == if t + 1 < |copy.next| then t + 1 else Null
      ensures n == if k < |nodes| then old(|copy.next|) else Null
    {
      if current == Null {
        return Null;
      }
      n := |copy.elem|;
      copy.elem, copy.next := copy.elem + [elem[current]], copy.next + [Null];
      var rest := CopyFrom(copy, next[current], k + 1);
      copy.next := copy.next[n := rest];
      assert Elements()[k..] == [elem[current]] + Elements()[k + 1..];
    }
  }

  /**
   * The reversal loop's state after i steps: the first i nodes link backwards
   * (the first to Null) and the rest still link forwards.
   */
  ghost predicate ReversedUpTo(next: seq<int>, nodes: seq<int>, i: int)
  {
    && (forall k :: 0 <= k < |nodes| ==> 0 <= nodes[k] < |next|)
    && (forall k, l :: 0 <= k < l < |nodes| ==> nodes[k] != nodes[l])
    && (forall k {:trigger next[nodes[k]]} :: 0 <= k < i && k < |nodes| ==> next[nodes[k]] == if k == 0 then Null else nodes[k - 1])
    && (forall k {:trigger next[nodes[k]]} :: 0 <= k < |nodes| && i <= k ==> next[nodes[k]] == if k + 1 < |nodes| then nodes[k + 1] else Null)
  }

  /** One step of the reversal loop turns the i-th link around. */
  lemma ReverseStep(next: seq<int>, nodes: seq<int>, i: int)
    requires 0 <= i < |nodes| && ReversedUpTo(next, nodes, i)
    ensures next[nodes[i]] == if i + 1 < |nodes| then nodes[i + 1] else Null
    ensures ReversedUpTo(next[nodes[i] := if i == 0 then Null else nodes[i - 1]], nodes, i + 1)
  {
    var next' := next[nodes[i] := if i == 0 then Null else nodes[i - 1]];
    forall k | 0 <= k < i + 1 && k < |nodes|
      ensures next'[nodes[k]] == if k == 0 then Null else nodes[k - 1]
    {
      if k != i {
        assert nodes[k] != nodes[i];
      }
    }
    forall k | 0 <= k < |nodes| && i + 1 <= k
      ensures next'[nodes[k]] == if k + 1 < |nodes| then nodes[k + 1] else Null
    {
      assert nodes[k] != nodes[i];
    }
  }

  /** After the reversal loop, the links form the reversed chain. */
  lemma ReversedChain(next: seq<int>, nodes: seq<int>, r: seq<int>)
    requires |r| == |nodes| && forall k :: 0 <= k < |r| ==> r[k] == nodes[|nodes| - 1 - k]
    requires ReversedUpTo(next, nodes, |nodes|)
    ensures IsChain(next, if nodes == [] then Null else nodes[|nodes| - 1], r)
  {
    forall k | 0 <= k < |r|
      ensures next[r[k]] == if k + 1 < |r| then r[k + 1] else Null
    {
      var j := |nodes| - 1 - k;
      assert r[k] == nodes[j];
      assert next[nodes[j]] == if j == 0 then Null else nodes[j - 1];
      if k + 1 < |r| {
        assert r[k + 1] == nodes[j - 1];
      }
    }
    forall k, l | 0 <= k < l < |r|
      ensures r[k] != r[l]
    {
      assert r[k] == nodes[|nodes| - 1 - k] && r[l] == nodes[|nodes| - 1 - l];
    }
  }

  /** Before the reversal loop no link has been turned yet. */
  lemma ReverseStart(next: seq<int>, head: int, nodes: seq<int>)
    requires IsChain(next, head, nodes)
    ensures ReversedUpTo(next, nodes, 0)
  {
  }

  /** Once every link is turned, the old last node heads the reversed chain, which holds the elements reversed. */
  lemma ReverseDone<E>(elem: seq<E>, next: seq<int>, nodes: seq<int>, last: int)
    requires |elem| == |next| && ReversedUpTo(next, nodes, |nodes|)
    requires last == if nodes == [] then Null else nodes[|nodes| - 1]
    ensures IsChain(next, last, Reversed(nodes))
    ensures forall k :: 0 <= k < |Reversed(nodes)| ==> 0 <= Reversed(nodes)[k] < |elem|
    ensures Gather(elem, Reversed(nodes)) == Reversed(Gather(elem, nodes))
  {
    ReversedChain(next, nodes, Reversed(nodes));
    GatherReversed(elem, nodes);
  }

  /**
   * removeLast as evidently intended: the element returned is the one in the
   * node that is unlinked, whatever tail named before.
   */
  method RemoveLastCorrected<E>(list: SinglyLinkedList<E>) returns (r: Option<E>)
    requires list.Valid()
    modifies list
    ensures list.Valid()
    ensures old(list.Elements()) == [] ==> r == None && unchanged(list)
    ensures old(list.Elements()) != [] ==>
      && r == Some(old(list.Elements())[|old(list.Elements())| - 1])
      && list.Elements() == old(list.Elements())[..|old(list.Elements())| - 1]
      && list.TailIsLast()
  {
    if list.size == 0 {
      return None;
    }
    if list.size == 1 {
      r := list.RemoveFirst();
      return;
    }
    var prev := list.head;
    ghost var i := 0;
    while list.next[list.next[prev]] != Null
      invariant 0 <= i <= |list.nodes| - 2 && prev == list.nodes[i]
      decreases |list.nodes| - i
    {
      prev := list.next[prev];
      i := i + 1;
    }
    var element := list.elem[list.next[prev]];
    ChainRemoveAfter(list.next, list.head, list.nodes, |list.nodes| - 1);
    GatherRemove(list.elem, list.nodes, |list.nodes| - 1);
    list.tail := prev;
    list.next := list.next[prev := Null];
    list.size := list.size - 1;
    list.nodes := list.nodes[..|list.nodes| - 1];
    r := Some(element);
  }

  /**
   * add(0, 1) then addLast(2) leaves tail on the node holding 1, so
   * removeLast unlinks 2 but returns 1.
   */
  method StaleTailRemoveLast() returns (removed: Outcome<Option<int>>, size: int, first: Outcome<int>)
    ensures removed == Ok(Some(1))
    ensures size == 1 && first == Ok(1)
  {
    var list := new SinglyLinkedList<int>();
    var added := list.Add(0, 1);
    list.AddLast(2);
    removed := list.RemoveLast();
    size := list.Size();
    first := list.Get(0);
  }

  /** With the corrected removeLast the same calls give back 2 and leave [1]. */
  method CorrectedRemoveLast() returns (removed: Option<int>, size: int, first: Outcome<int>)
    ensures removed == Some(2)
    ensures size == 1 && first == Ok(1)
  {
    var list := new SinglyLinkedList<int>();
    var added := list.Add(0, 1);
    list.AddLast(2);
    removed := RemoveLastCorrected(list);
    size := list.Size();
    first := list.Get(0);
  }
}

/**
 * DoublyLinkedList: a list between a header and a trailer sentinel, linked
 * both ways.
 *
 * Nodes live in a node store owned by the list object: node n holds elem[n]
 * (None for the sentinels' null element) and links prev[n] and next[n]
 * (Null for none). New nodes are appended to the store and unlinked nodes
 * stay in it. The ghost `nodes` lists the element nodes between the
 * sentinels, front to back.
 */
module DoublyLinkedList {
  import opened Wrappers
  import opened Sequences

  /** The null reference. */
  const Null: int := -1

  /**
   * c is a run of distinct store nodes whose next links go forward along c
   * and whose prev links go backward, with Null at both ends.
   */
  ghost predicate IsDoubleChain(prev: seq<int>, next: seq<int>, c: seq<int>)
  {
    && |prev| == |next|
    && (forall k :: 0 <= k < |c| ==> 0 <= c[k] < |next|)
    && (forall k, l :: 0 <= k < l < |c| ==> c[k] != c[l])
    && (forall k {:trigger next[c[k]]} :: 0 <= k < |c| ==> next[c[k]] == if k + 1 < |c| then c[k + 1] else Null)
    && (forall k {:trigger prev[c[k]]} :: 0 <= k < |c| ==> prev[c[k]] == if 0 < k then c[k - 1] else Null)
  }

  /**
   * The store holds the chain header, nodes, trailer, and every element node
   * holds an element.
   */
  ghost predicate Wf<E>(elem: seq<Option<E>>, prev: seq<int>, next: seq<int>, head: int, tail: int, nodes: seq<int>)
  {
    && |elem| == |next|
    && IsDoubleChain(prev, next, [head] + nodes + [tail])
    && (forall k :: 0 <= k < |nodes| ==> 0 <= nodes[k] < |elem| && elem[nodes[k]].Some?)
  }

  /** Every given node is in the store and holds an element. */
  ghost predicate Held<E>(elem: seq<Option<E>>, nodes: seq<int>)
  {
    forall k :: 0 <= k < |nodes| ==> 0 <= nodes[k] < |elem| && elem[nodes[k]].Some?
  }

  /** The elements held by the given element nodes, in order. */
  function Values<E>(elem: seq<Option<E>>, nodes: seq<int>): (s: seq<E>)
    requires forall k :: 0 <= k < |nodes| ==> 0 <= nodes[k] < |elem| && elem[nodes[k]].Some?
    ensures |s| == |nodes|
    ensures forall k :: 0 <= k < |nodes| ==> s[k] == elem[nodes[k]].value
  {
    seq(|nodes|, k requires 0 <= k < |nodes| => elem[nodes[k]].value)
  }

  /** The links of a well-formed store, node by node. */
  lemma WfFacts<E>(elem: seq<Option<E>>, prev: seq<int>, next: seq<int>, head: int, tail: int, nodes: seq<int>)
    requires Wf(elem, prev, next, head, tail, nodes)
    ensures 0 <= head < |next| && 0 <= tail < |next| && |prev| == |next| && head != tail
    ensures prev[head] == Null && next[tail] == Null
    ensures next[head] == if nodes == [] then tail else nodes[0]
    ensures prev[tail] == if nodes == [] then head else nodes[|nodes| - 1]
    ensures forall k :: 0 <= k < |nodes| ==> nodes[k] != head && nodes[k] != tail
    ensures forall k, l :: 0 <= k < l < |nodes| ==> nodes[k] != nodes[l]
    ensures forall k {:trigger next[nodes[k]]} :: 0 <= k < |nodes| ==>
      next[nodes[k]] == if k + 1 < |nodes| then nodes[k + 1] else tail
    ensures forall k {:trigger prev[nodes[k]]} :: 0 <= k < |nodes| ==>
      prev[nodes[k]] == if 0 < k then nodes[k - 1] else head
  {
    WfEnds(elem, prev, next, head, tail, nodes);
    WfInner(elem, prev, next, head, tail, nodes);
  }

  lemma WfEnds<E>(elem: seq<Option<E>>, prev: seq<int>, next: seq<int>, head: int, tail: int, nodes: seq<int>)
    requires Wf(elem, prev, next, head, tail, nodes)
    ensures 0 <= head < |next| && 0 <= tail < |next| && |prev| == |next| && head != tail
    ensures prev[head] == Null && next[tail] == Null
    ensures next[head] == if nodes == [] then tail else nodes[0]
    ensures prev[tail] == if nodes == [] then head else nodes[|nodes| - 1]
  {
    var c := [head] + nodes + [tail];
    assert c[0] == head && c[|nodes| + 1] == tail;
    assert nodes != [] ==> c[1] == nodes[0] && c[|nodes|] == nodes[|nodes| - 1];
  }

  lemma WfInner<E>(elem: seq<Option<E>>, prev: seq<int>, next: seq<int>, head: int, tail: int, nodes: seq<int>)
    requires Wf(elem, prev, next, head, tail, nodes)
    ensures forall k :: 0 <= k < |nodes| ==> nodes[k] != head && nodes[k] != tail
    ensures forall k, l :: 0 <= k < l < |nodes| ==> nodes[k] != nodes[l]
    ensures forall k {:trigger next[nodes[k]]} :: 0 <= k < |nodes| ==>
      next[nodes[k]] == if k + 1 < |nodes| then nodes[k + 1] else tail
    ensures forall k {:trigger prev[nodes[k]]} :: 0 <= k < |nodes| ==>
      prev[nodes[k]] == if 0 < k then nodes[k - 1] else head
  {
    var c := [head] + nodes + [tail];
    assert c[0] == head && c[|nodes| + 1] == tail;
    forall k | 0 <= k < |nodes|
      ensures nodes[k] != head && nodes[k] != tail
    {
      assert c[k + 1] == nodes[k];
    }
    forall k, l | 0 <= k < l < |nodes|
      ensures nodes[k] != nodes[l]
    {
      assert c[k + 1] == nodes[k] && c[l + 1] == nodes[l];
    }
    forall k | 0 <= k < |nodes|
      ensures next[nodes[k]] == if k + 1 < |nodes| then nodes[k + 1] else tail
      ensures prev[nodes[k]] == if 0 < k then nodes[k - 1] else head
    {
      assert c[k + 1] == nodes[k] && c[k] == (if 0 < k then nodes[k - 1] else head);
      assert c[k + 2] == if k + 1 < |nodes| then nodes[k + 1] else tail;
    }
  }

  /** Linking a fresh node n between c[j] and c[j + 1] gives a chain with n after c[j]. */
  lemma DoubleChainInsert(prev: seq<int>, next: seq<int>, c: seq<int>, j: int, n: int)
    requires IsDoubleChain(prev, next, c) && n == |next| && 0 <= j < |c| - 1
    ensures IsDoubleChain((prev + [c[j]])[c[j + 1] := n], (next + [c[j + 1]])[c[j] := n], c[..j + 1] + [n] + c[j + 1..])
  {
    var prev' := (prev + [c[j]])[c[j + 1] := n];
    var next' := (next + [c[j + 1]])[c[j] := n];
    var c' := c[..j + 1] + [n] + c[j + 1..];
    assert |c'| == |c| + 1;
    forall k | 0 <= k < |c'|
      ensures next'[c'[k]] == if k + 1 < |c'| then c'[k + 1] else Null
      ensures prev'[c'[k]] == if 0 < k then c'[k - 1] else Null
    {
      if k < j + 1 {
        assert c'[k] == c[k];
        assert c[k] != c[j + 1];
        if k < j {
          assert c[k] != c[j] && c'[k + 1] == c[k + 1];
        }
        if 0 < k {
          assert c'[k - 1] == c[k - 1];
        }
      } else if k == j + 1 {
        assert c'[k] == n && c'[k - 1] == c[j] && c'[k + 1] == c[j + 1];
      } else {
        assert c'[k] == c[k - 1];
        assert c[k - 1] != c[j];
        if k > j + 2 {
          assert c[k - 1] != c[j + 1] && c'[k - 1] == c[k - 2];
        }
        if k + 1 < |c'| {
          assert c'[k + 1] == c[k];
        }
      }
    }
    forall k, l | 0 <= k < l < |c'|
      ensures c'[k] != c'[l]
    {
      if k != j + 1 && l != j + 1 {
        var k0 := if k <= j then k else k - 1;
        var l0 := if l <= j then l else l - 1;
        assert c'[k] == c[k0] && c'[l] == c[l0] && k0 < l0;
      }
    }
  }

  /** Unlinking the inner node c[j] links its neighbours to each other. */
  lemma DoubleChainRemove(prev: seq<int>, next: seq<int>, c: seq<int>, j: int)
    requires IsDoubleChain(prev, next, c) && 0 < j < |c| - 1
    ensures IsDoubleChain(prev[c[j + 1] := c[j - 1]], next[c[j - 1] := c[j + 1]], c[..j] + c[j + 1..])
  {
    var prev' := prev[c[j + 1] := c[j - 1]];
    var next' := next[c[j - 1] := c[j + 1]];
    var c' := c[..j] + c[j + 1..];
    assert |c'| == |c| - 1;
    forall k | 0 <= k < |c'|
      ensures next'[c'[k]] == if k + 1 < |c'| then c'[k + 1] else Null
      ensures prev'[c'[k]] == if 0 < k then c'[k - 1] else Null
    {
      if k < j {
        assert c'[k] == c[k] && c[k] != c[j + 1];
        if k < j - 1 {
          assert c[k] != c[j - 1] && c'[k + 1] == c[k + 1];
        } else {
          assert c'[k + 1] == c[j + 1];
        }
        if 0 < k {
          assert c'[k - 1] == c[k - 1];
        }
      } else {
        assert c'[k] == c[k + 1] && c[k + 1] != c[j - 1];
        if k + 1 < |c'| {
          assert c'[k + 1] == c[k + 2];
        }
        if k == j {
          assert c'[k - 1] == c[j - 1];
        } else {
          assert c[k + 1] != c[j + 1] && c'[k - 1] == c[k];
        }
      }
    }
    forall k, l | 0 <= k < l < |c'|
      ensures c'[k] != c'[l]
    {
      var k0 := if k < j then k else k + 1;
      var l0 := if l < j then l else l + 1;
      assert c'[k] == c[k0] && c'[l] == c[l0] && k0 < l0;
    }
  }

  /** addBetween on the store: a fresh node for e between the neighbours at chain positions j and j + 1. */
  lemma WfInsert<E>(elem: seq<Option<E>>, prev: seq<int>, next: seq<int>, head: int, tail: int, nodes: seq<int>,
                    j: int, e: E, pred: int, succ: int)
    requires Wf(elem, prev, next, head, tail, nodes) && 0 <= j <= |nodes|
    requires pred == (if j == 0 then head else nodes[j - 1]) && succ == (if j < |nodes| then nodes[j] else tail)
    requires 0 <= pred < |next| && 0 <= succ < |next| && |prev| == |next|
    ensures Wf(elem + [Some(e)], (prev + [pred])[succ := |elem|], (next + [succ])[pred := |elem|],
               head, tail, nodes[..j] + [|elem|] + nodes[j..])
    ensures Values(elem + [Some(e)], nodes[..j] + [|elem|] + nodes[j..]) ==
            Values(elem, nodes)[..j] + [e] + Values(elem, nodes)[j..]
  {
    var c := [head] + nodes + [tail];
    assert c[j] == pred && c[j + 1] == succ;
    DoubleChainInsert(prev, next, c, j, |elem|);
    assert [head] + (nodes[..j] + [|elem|] + nodes[j..]) + [tail] == c[..j + 1] + [|elem|] + c[j + 1..];
  }

  /** remove(Node) on the store: the element node at index j is unlinked. */
  lemma WfRemove<E>(elem: seq<Option<E>>, prev: seq<int>, next: seq<int>, head: int, tail: int, nodes: seq<int>,
                    j: int, pred: int, succ: int)
    requires Wf(elem, prev, next, head, tail, nodes) && 0 <= j < |nodes|
    requires pred == (if j == 0 then head else nodes[j - 1]) && succ == (if j + 1 < |nodes| then nodes[j + 1] else tail)
    requires 0 <= pred < |next| && 0 <= succ < |next| && |prev| == |next|
    ensures Wf(elem, prev[succ := pred], next[pred := succ], head, tail, nodes[..j] + nodes[j + 1..])
    ensures Values(elem, nodes[..j] + nodes[j + 1..]) == Values(elem, nodes)[..j] + Values(elem, nodes)[j + 1..]
  {
    var c := [head] + nodes + [tail];
    assert c[j] == pred && c[j + 2] == succ;
    DoubleChainRemove(prev, next, c, j + 1);
    DropInner(head, nodes, tail, j);
    ValuesDrop(elem, nodes, j);
  }

  /** The chain without the node at index j of nodes. */
  lemma DropInner(head: int, nodes: seq<int>, tail: int, j: int)
    requires 0 <= j < |nodes|
    ensures [head] + (nodes[..j] + nodes[j + 1..]) + [tail] ==
      ([head] + nodes + [tail])[..j + 1] + ([head] + nodes + [tail])[j + 2..]
  {
    var c := [head] + nodes + [tail];
    assert c[..j + 1] == [head] + nodes[..j];
    assert c[j + 2..] == nodes[j + 1..] + [tail];
  }

  /** Dropping the node at index j drops its element from the values. */
  lemma ValuesDrop<E>(elem: seq<Option<E>>, nodes: seq<int>, j: int)
    requires forall k :: 0 <= k < |nodes| ==> 0 <= nodes[k] < |elem| && elem[nodes[k]].Some?
    requires 0 <= j < |nodes|
    ensures Held(elem, nodes[..j] + nodes[j + 1..])
    ensures Values(elem, nodes[..j] + nodes[j + 1..]) == Values(elem, nodes)[..j] + Values(elem, nodes)[j + 1..]
  {
    var d := nodes[..j] + nodes[j + 1..];
    assert forall k :: 0 <= k < j ==> d[k] == nodes[k];
    assert forall k :: j <= k < |d| ==> d[k] == nodes[k + 1];
  }

  /**
   * The relinking loop of reverseInplace after i steps, with first the value
   * it gives the first node's next link: the first i element nodes point
   * backwards (next names the node before, prev the node after, trailer for
   * the last), the rest still have their original links next0/prev0.
   */
  ghost predicate RelinkedUpTo(prev: seq<int>, next: seq<int>, prev0: seq<int>, next0: seq<int>,
                               nodes: seq<int>, i: int, first: int, trailer: int)
  {
    && |prev| == |next| == |prev0| == |next0|
    && (forall k :: 0 <= k < |nodes| ==> 0 <= nodes[k] < |next|)
    && (forall k {:trigger next[nodes[k]]} :: 0 <= k < |nodes| && k < i ==>
          next[nodes[k]] == if k == 0 then first else nodes[k - 1])
    && (forall k {:trigger prev[nodes[k]]} :: 0 <= k < |nodes| && k < i ==>
          prev[nodes[k]] == if k + 1 < |nodes| then nodes[k + 1] else trailer)
    && (forall k {:trigger next[nodes[k]]} :: 0 <= k < |nodes| && i <= k ==> next[nodes[k]] == next0[nodes[k]])
    && (forall k {:trigger prev[nodes[k]]} :: 0 <= k < |nodes| && i <= k ==> prev[nodes[k]] == prev0[nodes[k]])
  }

  /** One step of the relinking loop: node i gets its next and prev turned around. */
  lemma RelinkStep(prev: seq<int>, next: seq<int>, prev0: seq<int>, next0: seq<int>,
                   nodes: seq<int>, i: int, first: int, trailer: int, before: int, following: int)
    requires 0 <= i < |nodes| && RelinkedUpTo(prev, next, prev0, next0, nodes, i, first, trailer)
    requires forall k, l :: 0 <= k < l < |nodes| ==> nodes[k] != nodes[l]
    requires before == if i == 0 then first else nodes[i - 1]
    requires following == if i + 1 < |nodes| then nodes[i + 1] else trailer
    ensures RelinkedUpTo(prev[nodes[i] := following], next[nodes[i] := before], prev0, next0, nodes, i + 1, first, trailer)
  {
    var prev' := prev[nodes[i] := following];
    var next' := next[nodes[i] := before];
    forall k | 0 <= k < |nodes| && k < i + 1
      ensures next'[nodes[k]] == if k == 0 then first else nodes[k - 1]
      ensures prev'[nodes[k]] == if k + 1 < |nodes| then nodes[k + 1] else trailer
    {
      if k != i {
        assert nodes[k] != nodes[i];
      }
    }
    forall k | 0 <= k < |nodes| && i + 1 <= k
      ensures next'[nodes[k]] == next0[nodes[k]] && prev'[nodes[k]] == prev0[nodes[k]]
    {
      assert nodes[k] != nodes[i];
    }
  }

  /** After a corrected reversal the links form the chain: trailer, reversed nodes, header. */
  lemma ReversedDoubleChain(prev: seq<int>, next: seq<int>, nodes: seq<int>, r: seq<int>, newHead: int, newTail: int)
    requires |nodes| >= 1 && |r| == |nodes| && forall k :: 0 <= k < |r| ==> r[k] == nodes[|nodes| - 1 - k]
    requires |prev| == |next| && 0 <= newHead < |next| && 0 <= newTail < |next|
    requires newHead != newTail && forall k :: 0 <= k < |nodes| ==> nodes[k] != newHead && nodes[k] != newTail
    requires forall k, l :: 0 <= k < l < |nodes| ==> nodes[k] != nodes[l]
    requires forall k :: 0 <= k < |nodes| ==> 0 <= nodes[k] < |next|
    requires forall k {:trigger next[nodes[k]]} :: 0 <= k < |nodes| ==> next[nodes[k]] == if k == 0 then newTail else nodes[k - 1]
    requires forall k {:trigger prev[nodes[k]]} :: 0 <= k < |nodes| ==> prev[nodes[k]] == if k + 1 < |nodes| then nodes[k + 1] else newHead
    ensures IsDoubleChain(prev[newHead := Null][newTail := nodes[0]], next[newHead := r[0]][newTail := Null], [newHead] + r + [newTail])
  {
    ReversedLinks(prev, next, nodes, r, newHead, newTail);
    ReversedDistinct(nodes, r, newHead, newTail);
  }

  lemma ReversedLinks(prev: seq<int>, next: seq<int>, nodes: seq<int>, r: seq<int>, newHead: int, newTail: int)
    requires |nodes| >= 1 && |r| == |nodes| && forall k :: 0 <= k < |r| ==> r[k] == nodes[|nodes| - 1 - k]
    requires |prev| == |next| && 0 <= newHead < |next| && 0 <= newTail < |next|
    requires newHead != newTail && forall k :: 0 <= k < |nodes| ==> nodes[k] != newHead && nodes[k] != newTail
    requires forall k, l :: 0 <= k < l < |nodes| ==> nodes[k] != nodes[l]
    requires forall k :: 0 <= k < |nodes| ==> 0 <= nodes[k] < |next|
    requires forall k {:trigger next[nodes[k]]} :: 0 <= k < |nodes| ==> next[nodes[k]] == if k == 0 then newTail else nodes[k - 1]
    requires forall k {:trigger prev[nodes[k]]} :: 0 <= k < |nodes| ==> prev[nodes[k]] == if k + 1 < |nodes| then nodes[k + 1] else newHead
    ensures forall k :: 0 <= k < |r| + 2 ==> 0 <= ([newHead] + r + [newTail])[k] < |next|
    ensures var prev', next', c := prev[newHead := Null][newTail := nodes[0]], next[newHead := r[0]][newTail := Null],
        [newHead] + r + [newTail];
      (forall k {:trigger next'[c[k]]} :: 0 <= k < |c| ==> next'[c[k]] == if k + 1 < |c| then c[k + 1] else Null) &&
      (forall k {:trigger prev'[c[k]]} :: 0 <= k < |c| ==> prev'[c[k]] == if 0 < k then c[k - 1] else Null)
  {
    var prev' := prev[newHead := Null][newTail := nodes[0]];
    var next' := next[newHead := r[0]][newTail := Null];
    var c := [newHead] + r + [newTail];
    var n := |nodes|;
    forall k | 0 <= k < |c|
      ensures 0 <= c[k] < |next|
      ensures next'[c[k]] == if k + 1 < |c| then c[k + 1] else Null
      ensures prev'[c[k]] == if 0 < k then c[k - 1] else Null
    {
      if k == 0 {
        assert c[1] == r[0];
      } else if k == n + 1 {
        assert c[k - 1] == r[n - 1] == nodes[0];
      } else {
        var m := n - k;
        assert c[k] == r[k - 1] == nodes[m];
        if k + 1 < n + 1 {
          assert c[k + 1] == r[k] == nodes[m - 1];
        } else {
          assert c[k + 1] == newTail;
        }
        if k > 1 {
          assert c[k - 1] == r[k - 2] == nodes[m + 1];
        } else {
          assert c[k - 1] == newHead;
        }
      }
    }
  }

  lemma ReversedDistinct(nodes: seq<int>, r: seq<int>, newHead: int, newTail: int)
    requires |nodes| >= 1 && |r| == |nodes| && forall k :: 0 <= k < |r| ==> r[k] == nodes[|nodes| - 1 - k]
    requires newHead != newTail && forall k :: 0 <= k < |nodes| ==> nodes[k] != newHead && nodes[k] != newTail
    requires forall k, l :: 0 <= k < l < |nodes| ==> nodes[k] != nodes[l]
    ensures forall k, l :: 0 <= k < l < |r| + 2 ==> ([newHead] + r + [newTail])[k] != ([newHead] + r + [newTail])[l]
  {
    var c := [newHead] + r + [newTail];
    var n := |nodes|;
    forall k, l | 0 <= k < l < |c|
      ensures c[k] != c[l]
    {
      if 0 < k && l < n + 1 {
        assert c[k] == nodes[n - k] && c[l] == nodes[n - l];
      } else if 0 < k {
        assert c[k] == nodes[n - k];
      } else if l < n + 1 {
        assert c[l] == nodes[n - l];
      }
    }
  }

  /**
   * Once every element node of a well-formed store is relinked backwards
   * (the first one's next naming the header), closing the sentinels gives a
   * well-formed store from the old trailer to the old header holding the
   * elements in reverse.
   */
  lemma ReversalWf<E>(elem: seq<Option<E>>, prev: seq<int>, next: seq<int>, prev0: seq<int>, next0: seq<int>,
                      head: int, tail: int, nodes: seq<int>)
    requires Wf(elem, prev0, next0, head, tail, nodes) && |nodes| >= 1
    requires RelinkedUpTo(prev, next, prev0, next0, nodes, |nodes|, head, tail)
    ensures 0 <= head < |prev| && 0 <= tail < |prev|
    ensures Wf(elem, prev[tail := Null][head := nodes[0]], next[tail := nodes[|nodes| - 1]][head := Null],
               tail, head, Reversed(nodes))
    ensures Values(elem, Reversed(nodes)) == Reversed(Values(elem, nodes))
  {
    WfFacts(elem, prev0, next0, head, tail, nodes);
    var r := Reversed(nodes);
    ReversedDoubleChain(prev, next, nodes, r, tail, head);
    forall k | 0 <= k < |r|
      ensures 0 <= r[k] < |elem| && elem[r[k]].Some?
    {
      assert r[k] == nodes[|nodes| - 1 - k];
    }
  }

  class DoublyLinkedList<E> {
    var elem: seq<Option<E>>
    var prev: seq<int>
    var next: seq<int>
    /** The header sentinel. */
    var head: int
    /** The trailer sentinel. */
    var tail: int
    var size: int
    ghost var nodes: seq<int>

    ghost predicate Valid()
      reads this
    {
      && |elem| == |prev|
      && Wf(elem, prev, next, head, tail, nodes)
      && size == |nodes|
    }

    /** The list's contents, front to back. */
    ghost function Elements(): seq<E>
      reads this
      requires Valid()
    {
      Values(elem, nodes)
    }

    /** A new list: the header's next is the trailer and the trailer's prev is the header. */
    constructor ()
      ensures Valid() && Elements() == []
      ensures next == [tail, Null] && prev == [Null, head]
    {
      elem := [None, None];
      prev := [Null, 0];
      next := [1, Null];
      head, tail := 0, 1;
      size := 0;
      nodes := [];
    }

    method Size() returns (n: int)
      requires Valid()
      ensures n == |Elements()|
    {
      n := size;
    }

    method IsEmpty() returns (b: bool)
      requires Valid()
      ensures b <==> Elements() == []
    {
      b := size == 0;
    }

    /** addBetween: links a new node for e between pred and succ, the neighbours around index j. */
    method AddBetween(e: E, pred: int, succ: int, ghost j: int)
      requires Valid() && 0 <= j <= |nodes|
      requires pred == (if j == 0 then head else nodes[j - 1]) && succ == (if j < |nodes| then nodes[j] else tail)
      modifies this
      ensures Valid()
      ensures Elements() == old(Elements())[..j] + [e] + old(Elements())[j..]
      ensures head == old(head) && tail == old(tail)
    {
      var newest := |elem|;
      WfFacts(elem, prev, next, head, tail, nodes);
      WfInsert(elem, prev, next, head, tail, nodes, j, e, pred, succ);
      elem, prev, next := elem + [Some(e)], prev + [pred], next + [succ];
      next := next[pred := newest];
      prev := prev[succ := newest];
      size := size + 1;
      nodes := nodes[..j] + [newest] + nodes[j..];
    }

    /** remove(Node): links the node's neighbours to each other and returns its element. */
    method RemoveNode(node: int, ghost j: int) returns (e: E)
      requires Valid() && 0 <= j < |nodes| && node == nodes[j]
      modifies this
      ensures Valid()
      ensures e == old(Elements())[j]
      ensures Elements() == old(Elements())[..j] + old(Elements())[j + 1..]
      ensures head == old(head) && tail == old(tail)
    {
      WfFacts(elem, prev, next, head, tail, nodes);
      var predecessor := prev[node];
      var successor := next[node];
      WfRemove(elem, prev, next, head, tail, nodes, j, predecessor, successor);
      next := next[predecessor := successor];
      prev := prev[successor := predecessor];
      size := size - 1;
      nodes := nodes[..j] + nodes[j + 1..];
      e := elem[node].value;
    }

    /** Walks from the header's successor to the element node at index position. */
    method NodeAt(position: int) returns (node: int)
      requires Valid() && 0 <= position < |nodes|
      ensures node == nodes[position]
    {
      WfFacts(elem, prev, next, head, tail, nodes);
      node := next[head];
      var i := 0;
      while i < position
        invariant 0 <= i <= position && node == nodes[i]
      {
        node := next[node];
        i := i + 1;
      }
    }

    /** get: throws outside [0, size), otherwise the element at that index. */
    method Get(position: int) returns (r: Outcome<E>)
      requires Valid()
      ensures 0 <= position < |Elements()| ==> r == Ok(Elements()[position])
      ensures !(0 <= position < |Elements()|) ==> r == Thrown(IndexOutOfBoundsException)
    {
      if position < 0 || position >= size {
        return Thrown(IndexOutOfBoundsException);
      }
      var node := NodeAt(position);
      r := Ok(elem[node].value);
    }

    /** add: throws outside [0, size]; otherwise e ends up at index position. */
    method Add(position: int, e: E) returns (r: Outcome<()>)
      requires Valid()
      modifies this
      ensures 0 <= position <= old(|Elements()|) ==>
        r == Ok(()) && Valid() && Elements() == old(Elements())[..position] + [e] + old(Elements())[position..]
      ensures !(0 <= position <= old(|Elements()|)) ==>
        r == Thrown(IndexOutOfBoundsException) && unchanged(this)
    {
      if position < 0 || position > size {
        return Thrown(IndexOutOfBoundsException);
      }
      WfFacts(elem, prev, next, head, tail, nodes);
      if position == size {
        AddBetween(e, prev[tail], tail, size);
      } else {
        var succ := NodeAt(position);
        AddBetween(e, prev[succ], succ, position);
      }
      r := Ok(());
    }

    /** remove(int): throws outside [0, size); otherwise unlinks and returns the element at that index. */
    method Remove(position: int) returns (r: Outcome<E>)
      requires Valid()
      modifies this
      ensures 0 <= position < old(|Elements()|) ==>
        && r == Ok(old(Elements())[position]) && Valid()
        && Elements() == old(Elements())[..position] + old(Elements())[position + 1..]
      ensures !(0 <= position < old(|Elements()|)) ==>
        r == Thrown(IndexOutOfBoundsException) && unchanged(this)
    {
      if position < 0 || position >= size {
        return Thrown(IndexOutOfBoundsException);
      }
      var node := NodeAt(position);
      var e := RemoveNode(node, position);
      r := Ok(e);
    }

    /** first: null on an empty list, otherwise the front element. */
    method First() returns (r: Option<E>)
      requires Valid()
      ensures r == if Elements() == [] then None else Some(Elements()[0])
    {
      if size == 0 {
        return None;
      }
      WfFacts(elem, prev, next, head, tail, nodes);
      r := Some(elem[next[head]].value);
    }

    /** last: null on an empty list, otherwise the back element. */
    method Last() returns (r: Option<E>)
      requires Valid()
      ensures r == if Elements() == [] then None else Some(Elements()[|Elements()| - 1])
    {
      if size == 0 {
        return None;
      }
      WfFacts(elem, prev, next, head, tail, nodes);
      r := Some(elem[prev[tail]].value);
    }

    /** removeFirst: null on an empty list, otherwise unlinks and returns the front element. */
    method RemoveFirst() returns (r: Option<E>)
      requires Valid()
      modifies this
      ensures Valid()
      ensures old(Elements()) == [] ==> r == None && unchanged(this)
      ensures old(Elements()) != [] ==> r == Some(old(Elements())[0]) && Elements() == old(Elements())[1..]
    {
      if size == 0 {
        return None;
      }
      WfEnds(elem, prev, next, head, tail, nodes);
      ghost var before := Elements();
      assert before[..0] + before[1..] == before[1..];
      var e := RemoveNode(next[head], 0);
      r := Some(e);
    }

    /** removeLast: null on an empty list, otherwise unlinks and returns the back element. */
    method RemoveLast() returns (r: Option<E>)
      requires Valid()
      modifies this
      ensures Valid()
      ensures old(Elements()) == [] ==> r == None && unchanged(this)
      ensures old(Elements()) != [] ==>
        && r == Some(old(Elements())[|old(Elements())| - 1])
        && Elements() == old(Elements())[..|old(Elements())| - 1]
    {
      if size == 0 {
        return None;
      }
      WfEnds(elem, prev, next, head, tail, nodes);
      ghost var before := Elements();
      assert before[..size - 1] + before[size..] == before[..size - 1];
      var e := RemoveNode(prev[tail], size - 1);
      r := Some(e);
    }

    /** addLast: e becomes the back element. */
    method AddLast(e: E)
      requires Valid()
      modifies this
      ensures Valid() && Elements() == old(Elements()) + [e]
    {
      WfFacts(elem, prev, next, head, tail, nodes);
      AddBetween(e, prev[tail], tail, size);
    }

    /** addFirst: e becomes the front element. */
    method AddFirst(e: E)
      requires Valid()
      modifies this
      ensures Valid() && Elements() == [e] + old(Elements())
    {
      WfFacts(elem, prev, next, head, tail, nodes);
      AddBetween(e, head, next[head], 0);
    }

    /**
     * The relinking loop of reverseInplace: walking from the header's
     * successor to the trailer, each element node's next becomes the node
     * before it (start for the first) and its prev the node after it.
     * Returns the last element node.
     */
    method Relink(start: int) returns (last: int)
      requires Valid() && |nodes| >= 1
      modifies this
      ensures head == old(head) && tail == old(tail) && size == old(size)
      ensures elem == old(elem) && nodes == old(nodes)
      ensures |prev| == old(|prev|) && |next| == old(|next|)
      ensures 0 <= head < |prev| && 0 <= tail < |prev|
      ensures last == nodes[|nodes| - 1]
      ensures RelinkedUpTo(prev, next, old(prev), old(next), nodes, |nodes|, start, tail)
      ensures prev[head] == old(prev[head]) && next[head] == old(next[head])
      ensures prev[tail] == old(prev[tail]) && next[tail] == old(next[tail])
    {
      WfFacts(elem, prev, next, head, tail, nodes);
      ghost var prev0, next0 := prev, next;
      ghost var ns := nodes;
      var trailer := tail;
      var current := next[head];
      last := start;
      ghost var i := 0;
      while current != trailer
        invariant 0 <= i <= |ns| && |prev| == |prev0| && |next| == |next0|
        invariant head == old(head) && tail == trailer && size == old(size) && elem == old(elem) && nodes == ns
        invariant current == (if i < |ns| then ns[i] else trailer)
        invariant last == (if i == 0 then start else ns[i - 1])
        invariant RelinkedUpTo(prev, next, prev0, next0, ns, i, start, trailer)
        invariant prev[head] == prev0[head] && next[head] == next0[head]
        invariant prev[trailer] == prev0[trailer] && next[trailer] == next0[trailer]
        decreases |ns| - i
      {
        var following := next[current];
        RelinkStep(prev, next, prev0, next0, ns, i, start, trailer, last, following);
        next := next[current := last];
        prev := prev[current := following];
        last := current;
        current := following;
        i := i + 1;
      }
    }

    /**
     * reverseInplace: nothing for size <= 1. Otherwise the loop turns every
     * element node's links around (the first one's next becomes null) and the
     * sentinels swap roles; the final `tail.getPrev().setNext(tail)` then
     * dereferences the old header's prev, which is null. The list is left
     * with no prev/next chain from the new header to the new trailer.
     */
    method ReverseInplace() returns (r: Outcome<()>)
      requires Valid()
      modifies this
      ensures old(size) <= 1 ==> r == Ok(()) && unchanged(this)
      ensures old(size) >= 2 ==>
        && r == Thrown(NullPointerException)
        && head == old(tail) && tail == old(head)
        && elem == old(elem) && nodes == old(nodes) && size == old(size)
        && 0 <= head < |next| == |prev| && 0 <= tail < |next|
        && prev[head] == Null && next[head] == nodes[|nodes| - 1]
        && prev[tail] == Null && next[tail] == Null
        && RelinkedUpTo(prev, next, old(prev), old(next), nodes, |nodes|, Null, head)
      ensures old(size) >= 2 ==>
        forall c :: |c| >= 2 && c[0] == head && c[|c| - 1] == tail ==> !IsDoubleChain(prev, next, c)
    {
      if size <= 1 {
        return Ok(());
      }
      WfFacts(elem, prev, next, head, tail, nodes);
      var last := Relink(Null);
      var temp := head;
      head := tail;
      tail := temp;
      prev := prev[head := Null];
      next := next[head := last];
      next := next[tail := Null];
      // tail.getPrev() is the old header's prev, which no operation ever sets
      assert prev[tail] == Null;
      r := Thrown(NullPointerException);
    }

    /**
     * reverseInplace as evidently intended: the first element node's next
     * becomes the old header (the new trailer) and the new trailer's prev the
     * old first element node, so the list reads back to front.
     */
    method ReverseInplaceCorrected()
      requires Valid()
      modifies this
      ensures Valid()
      ensures Elements() == Reversed(old(Elements()))
    {
      if size <= 1 {
        assert Elements() == Reversed(old(Elements()));
        return;
      }
      WfFacts(elem, prev, next, head, tail, nodes);
      ghost var prev0, next0 := prev, next;
      var first := next[head];
      var last := Relink(head);
      ReversalWf(elem, prev, next, prev0, next0, head, tail, nodes);
      var header, trailer := tail, head;
      var links := next[header := last][trailer := Null];
      var backLinks := prev[header := Null][trailer := first];
      head, tail, next, prev, nodes := header, trailer, links, backLinks, Reversed(nodes);
    }
  }

  /** addLast(1), addLast(2), reverseInplace() throws. */
  method ReverseOfTwoThrows() returns (r: Outcome<()>)
    ensures r == Thrown(NullPointerException)
  {
    var list := new DoublyLinkedList<int>();
    list.AddLast(1);
    list.AddLast(2);
    r := list.ReverseInplace();
  }

  /** The same calls with the corrected reversal leave [2, 1]. */
  method ReverseOfTwoCorrected() returns (front: Option<int>, back: Option<int>)
    ensures front == Some(2) && back == Some(1)
  {
    var list := new DoublyLinkedList<int>();
    list.AddLast(1);
    list.AddLast(2);
    list.ReverseInplaceCorrected();
    front := list.First();
    back := list.Last();
  }
}

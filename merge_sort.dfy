/**
 * MergeSort.mergeSort / merge over Java `Integer[]` arrays (elements never null).
 * mergeSort recurses over copied halves and never writes to its argument;
 * merge walks three indices into a fresh result array.
 */
module MergeSort {

  ghost predicate Sorted(s: seq<int>)
  {
    forall i, j :: 0 <= i < j < |s| ==> s[i] <= s[j]
  }

  /** The merge the loop performs: on equal heads the left element goes first. */
  function MergeSeq(xs: seq<int>, ys: seq<int>): seq<int>
    decreases |xs| + |ys|
  {
    if xs == [] then ys
    else if ys == [] then xs
    else if xs[0] <= ys[0] then [xs[0]] + MergeSeq(xs[1..], ys)
    else [ys[0]] + MergeSeq(xs, ys[1..])
  }

  /** Merging keeps every element exactly once. */
  lemma {:induction false} MergeSeqPermutation(xs: seq<int>, ys: seq<int>)
    ensures |MergeSeq(xs, ys)| == |xs| + |ys|
    ensures multiset(MergeSeq(xs, ys)) == multiset(xs) + multiset(ys)
    decreases |xs| + |ys|
  {
    MergeSeqLength(xs, ys);
    if xs != [] && ys != [] {
      if xs[0] <= ys[0] {
        MergeSeqPermutation(xs[1..], ys);
        assert xs == [xs[0]] + xs[1..];
      } else {
        MergeSeqPermutation(xs, ys[1..]);
        assert ys == [ys[0]] + ys[1..];
      }
    }
  }

  /** The merge is as long as both inputs together. */
  lemma {:induction false} MergeSeqLength(xs: seq<int>, ys: seq<int>)
    ensures |MergeSeq(xs, ys)| == |xs| + |ys|
    decreases |xs| + |ys|
  {
    if xs != [] && ys != [] {
      if xs[0] <= ys[0] {
        MergeSeqLength(xs[1..], ys);
      } else {
        MergeSeqLength(xs, ys[1..]);
      }
    }
  }

  /** Every element of the merge is at least the smaller of the two heads. */
  lemma {:induction false} MergeSeqLowerBound(xs: seq<int>, ys: seq<int>, b: int)
    requires forall i :: 0 <= i < |xs| ==> b <= xs[i]
    requires forall i :: 0 <= i < |ys| ==> b <= ys[i]
    ensures forall i :: 0 <= i < |MergeSeq(xs, ys)| ==> b <= MergeSeq(xs, ys)[i]
  {
    MergeSeqPermutation(xs, ys);
    var m := MergeSeq(xs, ys);
    forall i | 0 <= i < |m| ensures b <= m[i] {
      assert m[i] in multiset(m);
      assert m[i] in multiset(xs) || m[i] in multiset(ys);
    }
  }

  /** Merging two sorted sequences gives a sorted sequence. */
  lemma {:induction false} MergeSeqSorted(xs: seq<int>, ys: seq<int>)
    requires Sorted(xs) && Sorted(ys)
    ensures Sorted(MergeSeq(xs, ys))
    decreases |xs| + |ys|
  {
    if xs != [] && ys != [] {
      var m := MergeSeq(xs, ys);
      if xs[0] <= ys[0] {
        MergeSeqSorted(xs[1..], ys);
        MergeSeqLowerBound(xs[1..], ys, xs[0]);
        assert m == [xs[0]] + MergeSeq(xs[1..], ys);
      } else {
        MergeSeqSorted(xs, ys[1..]);
        MergeSeqLowerBound(xs, ys[1..], ys[0]);
        assert m == [ys[0]] + MergeSeq(xs, ys[1..]);
      }
    }
  }

  /** What is left to merge once i left and j right elements are taken. */
  function MergeFrom(xs: seq<int>, ys: seq<int>, i: int, j: int): seq<int>
    requires 0 <= i <= |xs| && 0 <= j <= |ys|
  {
    MergeSeq(xs[i..], ys[j..])
  }

  /** Taking the next left element: it is the k-th element of the merge, and the rest follows. */
  lemma TakeLeft(xs: seq<int>, ys: seq<int>, i: int, j: int, m: seq<int>, k: int)
    requires 0 <= i < |xs| && 0 <= j <= |ys| && 0 <= k <= |m|
    requires j == |ys| || xs[i] <= ys[j]
    requires MergeFrom(xs, ys, i, j) == m[k..]
    ensures k < |m| && m[k] == xs[i]
    ensures MergeFrom(xs, ys, i + 1, j) == m[k + 1..]
  {
    assert xs[i..][1..] == xs[i + 1..];
    assert m[k..][1..] == m[k + 1..];
    if j == |ys| {
      assert MergeSeq(xs[i + 1..], ys[j..]) == xs[i + 1..];
    }
  }

  /** Taking the next right element: it is the k-th element of the merge, and the rest follows. */
  lemma TakeRight(xs: seq<int>, ys: seq<int>, i: int, j: int, m: seq<int>, k: int)
    requires 0 <= i <= |xs| && 0 <= j < |ys| && 0 <= k <= |m|
    requires i == |xs| || xs[i] > ys[j]
    requires MergeFrom(xs, ys, i, j) == m[k..]
    ensures k < |m| && m[k] == ys[j]
    ensures MergeFrom(xs, ys, i, j + 1) == m[k + 1..]
  {
    assert ys[j..][1..] == ys[j + 1..];
    assert m[k..][1..] == m[k + 1..];
    if i == |xs| {
      assert MergeSeq(xs[i..], ys[j + 1..]) == ys[j + 1..];
    }
  }

  /** Once one side is used up, the rest of the merge is the rest of the left side, then of the right side. */
  lemma Drain(xs: seq<int>, ys: seq<int>, i: int, j: int, m: seq<int>, k: int)
    requires 0 <= i <= |xs| && 0 <= j <= |ys| && 0 <= k <= |m|
    requires i == |xs| || j == |ys|
    requires MergeFrom(xs, ys, i, j) == m[k..]
    ensures |m| - k == (|xs| - i) + (|ys| - j)
    ensures forall n :: k <= n < k + (|xs| - i) ==> m[n] == xs[n - k + i]
    ensures forall n :: k + (|xs| - i) <= n < |m| ==> m[n] == ys[n - (k + (|xs| - i)) + j]
  {
    if i < |xs| {
      assert MergeSeq(xs[i..], ys[j..]) == xs[i..];
    } else {
      assert MergeSeq(xs[i..], ys[j..]) == ys[j..];
    }
    forall n | k <= n < |m|
      ensures m[n] == m[k..][n - k]
    {
    }
  }

  /** Splitting a sequence keeps its multiset. */
  lemma SplitMultiset(s: seq<int>, mid: int)
    requires 0 <= mid <= |s|
    ensures multiset(s[..mid]) + multiset(s[mid..]) == multiset(s)
  {
    assert s == s[..mid] + s[mid..];
  }

  /** Arrays.copyOfRange(a, lo, hi). */
  method CopyOfRange(a: array<int>, lo: int, hi: int) returns (r: array<int>)
    requires 0 <= lo <= hi <= a.Length
    ensures fresh(r) && r[..] == a[lo..hi]
  {
    r := new int[hi - lo](i requires 0 <= i < hi - lo reads a => a[lo + i]);
  }

  /** merge: the result holds the merge of the two arrays, left first on ties. */
  method Merge(left: array<int>, right: array<int>) returns (result: array<int>)
    ensures fresh(result) && result[..] == MergeSeq(left[..], right[..])
  {
    ghost var xs, ys := left[..], right[..];
    ghost var m := MergeSeq(xs, ys);
    MergeSeqLength(xs, ys);
    result := new int[left.Length + right.Length];
    var i, j, k := 0, 0, 0;
    assert xs[0..] == xs && ys[0..] == ys && m[0..] == m;
    while i < left.Length && j < right.Length
      invariant 0 <= i <= left.Length && 0 <= j <= right.Length && k == i + j
      invariant forall n :: 0 <= n < k ==> result[n] == m[n]
      invariant MergeFrom(xs, ys, i, j) == m[k..]
    {
      if left[i] <= right[j] {
        TakeLeft(xs, ys, i, j, m, k);
        result[k] := left[i];
        k, i := k + 1, i + 1;
      } else {
        TakeRight(xs, ys, i, j, m, k);
        result[k] := right[j];
        k, j := k + 1, j + 1;
      }
    }
    // one side is used up: the rest of the merge is the rest of the other side
    Drain(xs, ys, i, j, m, k);
    k := CopyRest(left, i, result, k, m);
    assert right[..] == ys;
    k := CopyRest(right, j, result, k, m);
  }

  /**
   * The two trailing loops of merge: copy src[from..] into result from index k on,
   * where the merge m continues with exactly those elements.
   */
  method CopyRest(src: array<int>, from: int, result: array<int>, k: int, ghost m: seq<int>) returns (k': int)
    requires src != result && 0 <= from <= src.Length
    requires 0 <= k && |m| == result.Length && k + (src.Length - from) <= |m|
    requires forall n :: 0 <= n < k ==> result[n] == m[n]
    requires forall n :: k <= n < k + (src.Length - from) ==> m[n] == src[n - k + from]
    modifies result
    ensures k' == k + (src.Length - from)
    ensures forall n :: 0 <= n < k' ==> result[n] == m[n]
    ensures forall n :: k' <= n < result.Length ==> result[n] == old(result[n])
  {
    var i := from;
    k' := k;
    while i < src.Length
      invariant from <= i <= src.Length && k' == k + (i - from)
      invariant forall n :: 0 <= n < k' ==> result[n] == m[n]
      invariant forall n :: k' <= n < result.Length ==> result[n] == old(result[n])
    {
      result[k'] := src[i];
      k', i := k' + 1, i + 1;
    }
  }

  /**
   * mergeSort: arrays of length <= 1 come back as the same array; otherwise the
   * result is a sorted permutation of the input, and the input is left as it was.
   */
  method MergeSort(a: array<int>) returns (r: array<int>)
    ensures a.Length <= 1 ==> r == a
    ensures a.Length > 1 ==> fresh(r)
    ensures Sorted(r[..])
    ensures multiset(r[..]) == multiset(a[..])
    decreases a.Length
  {
    if a.Length <= 1 {
      return a;
    }
    var mid := a.Length / 2;
    var left := CopyOfRange(a, 0, mid);
    var right := CopyOfRange(a, mid, a.Length);
    var sortedLeft := MergeSort(left);
    var sortedRight := MergeSort(right);
    r := Merge(sortedLeft, sortedRight);
    MergeSeqSorted(sortedLeft[..], sortedRight[..]);
    MergeSeqPermutation(sortedLeft[..], sortedRight[..]);
    assert left[..] == a[..mid] && right[..] == a[mid..];
    SplitMultiset(a[..], mid);
  }
}

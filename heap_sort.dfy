/** HeapSort.Sort in place on an int array. SiftDown treats `2r` and
    `2r + 1` as the children of `r` on a 0-based list, so position 0 is its
    own first child and sits above position 1; every other position `k >= 1`
    has parent `k / 2`. The heap-building loop starts at `Count / 2 - 1`,
    which misses the last parent when the length is odd: the model keeps that
    start, exhibits an input it leaves unsorted, and proves the start
    `(Count - 1) / 2` correct. */
module HeapSort {
  import opened SortSpec

  /** The child SiftDown compares `root` with: `2r` when it is the last index
      of the heap, otherwise the larger of `2r` and `2r + 1` (the second on a
      tie). */
  function MaxChild(s: seq<int>, root: int, bottom: int): (c: int)
    requires 0 <= root && root * 2 <= bottom < |s|
    ensures c == root * 2 || c == root * 2 + 1
    ensures c <= bottom
    ensures forall k :: root * 2 <= k <= bottom && k <= root * 2 + 1 ==> s[k] <= s[c]
  {
    if root * 2 == bottom then root * 2
    else if s[root * 2] > s[root * 2 + 1] then root * 2
    else root * 2 + 1
  }

  /** SiftDown(values, root, bottom) as a function of the list: swap `root`
      with its larger child while that child is larger. It only swaps, and
      only inside `[root..bottom]`. */
  function SiftDownSeq(s: seq<int>, root: int, bottom: int): (r: seq<int>)
    requires 0 <= root && bottom < |s|
    ensures |r| == |s|
    decreases bottom - root
  {
    if root * 2 > bottom then s
    else
      var c := MaxChild(s, root, bottom);
      if s[root] < s[c] then SiftDownSeq(Swap(s, root, c), c, bottom) else s
  }

  /** The first `for` loop: SiftDown from `i` down to 0 over the whole list. */
  function BuildHeap(s: seq<int>, i: int): (r: seq<int>)
    ensures |r| == |s|
    decreases if i < 0 then 0 else i + 1
  {
    if i < 0 then s else BuildHeap(SiftDownSeq(s, i, |s| - 1), i - 1)
  }

  /** The second `for` loop from `i` down to 1: move the root to `i`, then
      sift the new root down over `[0..i - 1]`. Position `i` receives the
      root and no later step writes at `i` or above. */
  function Extract(s: seq<int>, i: int): (r: seq<int>)
    requires i < |s|
    ensures |r| == |s|
    decreases i
  {
    if i < 1 then s else Extract(SiftDownSeq(Swap(s, 0, i), 0, i - 1), i - 1)
  }

  /** Sort as written: build from `Count / 2 - 1`, then extract. */
  function HeapSortSeq(s: seq<int>): seq<int> {
    Extract(BuildHeap(s, |s| / 2 - 1), |s| - 1)
  }

  /** Sort with the build loop starting at the last parent, `(Count - 1) / 2`. */
  function CorrectedHeapSortSeq(s: seq<int>): seq<int> {
    Extract(BuildHeap(s, (|s| - 1) / 2), |s| - 1)
  }

  /** SiftDown only swaps, and only inside `[root..bottom]`. */
  lemma {:induction false} SiftDownPermutes(s: seq<int>, root: int, bottom: int)
    requires 0 <= root && bottom < |s|
    ensures multiset(SiftDownSeq(s, root, bottom)) == multiset(s)
    ensures forall k :: 0 <= k < |s| && !(root <= k <= bottom) ==> SiftDownSeq(s, root, bottom)[k] == s[k]
    decreases bottom - root
  {
    if root * 2 <= bottom {
      var c := MaxChild(s, root, bottom);
      if s[root] < s[c] {
        SwapPermutes(s, root, c);
        SiftDownPermutes(Swap(s, root, c), c, bottom);
      }
    }
  }

  /** The build loop permutes. */
  lemma {:induction false} BuildHeapPermutes(s: seq<int>, i: int)
    ensures multiset(BuildHeap(s, i)) == multiset(s)
    decreases if i < 0 then 0 else i + 1
  {
    if i >= 0 {
      SiftDownPermutes(s, i, |s| - 1);
      BuildHeapPermutes(SiftDownSeq(s, i, |s| - 1), i - 1);
    }
  }

  /** The extraction loop permutes; the root moves to `i` and nothing at or
      after `i` is written again. */
  lemma {:induction false} ExtractPermutes(s: seq<int>, i: int)
    requires i < |s|
    ensures multiset(Extract(s, i)) == multiset(s)
    ensures forall k :: 0 <= k < |s| && i < k ==> Extract(s, i)[k] == s[k]
    ensures i >= 1 ==> Extract(s, i)[i] == s[0]
    decreases i
  {
    if i >= 1 {
      var u := Swap(s, 0, i);
      var t := SiftDownSeq(u, 0, i - 1);
      SwapPermutes(s, 0, i);
      SiftDownPermutes(u, 0, i - 1);
      ExtractPermutes(t, i - 1);
      ExtractTail(s, u, t, Extract(t, i - 1), i);
    }
  }

  /** What one extraction step and the rest of the loop leave from `i` on. */
  lemma ExtractTail(s: seq<int>, u: seq<int>, t: seq<int>, r: seq<int>, i: int)
    requires 1 <= i < |s| && u == Swap(s, 0, i) && |t| == |r| == |s|
    requires forall k :: 0 <= k < |u| && !(0 <= k <= i - 1) ==> t[k] == u[k]
    requires forall k :: 0 <= k < |t| && i - 1 < k ==> r[k] == t[k]
    ensures forall k :: 0 <= k < |s| && i < k ==> r[k] == s[k]
    ensures r[i] == s[0]
  {
  }

  /** The routine only swaps, so whatever it does, it permutes. */
  lemma HeapSortPermutes(s: seq<int>)
    ensures multiset(HeapSortSeq(s)) == multiset(s)
    ensures multiset(CorrectedHeapSortSeq(s)) == multiset(s)
  {
    BuildHeapPermutes(s, |s| / 2 - 1);
    ExtractPermutes(BuildHeap(s, |s| / 2 - 1), |s| - 1);
    BuildHeapPermutes(s, (|s| - 1) / 2);
    ExtractPermutes(BuildHeap(s, (|s| - 1) / 2), |s| - 1);
  }

  /** [5, 4, 3, 2, 9] comes out of Sort as [2, 3, 4, 9, 5]: the build loop
      starts at 1 and never sifts position 2, whose child 4 holds the
      maximum. */
  lemma UnsortedExample()
    ensures HeapSortSeq([5, 4, 3, 2, 9]) == [2, 3, 4, 9, 5]
    ensures !Sorted(HeapSortSeq([5, 4, 3, 2, 9]))
  {
    ExampleBuild();
    ExampleExtract();
    assert HeapSortSeq([5, 4, 3, 2, 9]) == Extract([5, 4, 3, 2, 9], 4);
  }

  /** The build loop of the example sifts positions 1 and 0 and changes
      nothing. */
  lemma ExampleBuild()
    ensures BuildHeap([5, 4, 3, 2, 9], 1) == [5, 4, 3, 2, 9]
  {
    var s := [5, 4, 3, 2, 9];
    assert SiftDownSeq(s, 1, 4) == s;
    assert SiftDownSeq(s, 0, 4) == s;
    assert BuildHeap(s, -1) == s;
  }

  /** The extraction loop of the example, one step per lemma. */
  lemma ExampleExtract()
    ensures Extract([5, 4, 3, 2, 9], 4) == [2, 3, 4, 9, 5]
  {
    ExampleStep4();
    ExampleStep3();
    ExampleStep2();
    ExampleStep1();
    assert Extract([2, 3, 4, 9, 5], 0) == [2, 3, 4, 9, 5];
  }

  lemma ExampleStep4()
    ensures Extract([5, 4, 3, 2, 9], 4) == Extract([9, 4, 3, 2, 5], 3)
  {
    ExtractUnfold([5, 4, 3, 2, 9], 4);
    assert Swap([5, 4, 3, 2, 9], 0, 4) == [9, 4, 3, 2, 5];
    assert SiftDownSeq([9, 4, 3, 2, 5], 0, 3) == [9, 4, 3, 2, 5];
  }

  lemma ExampleStep3()
    ensures Extract([9, 4, 3, 2, 5], 3) == Extract([4, 3, 2, 9, 5], 2)
  {
    ExtractUnfold([9, 4, 3, 2, 5], 3);
    assert Swap([9, 4, 3, 2, 5], 0, 3) == [2, 4, 3, 9, 5];
    assert SiftDownSeq([4, 3, 2, 9, 5], 2, 2) == [4, 3, 2, 9, 5];
    assert SiftDownSeq([4, 2, 3, 9, 5], 1, 2) == [4, 3, 2, 9, 5];
    assert SiftDownSeq([2, 4, 3, 9, 5], 0, 2) == [4, 3, 2, 9, 5];
  }

  lemma ExampleStep2()
    ensures Extract([4, 3, 2, 9, 5], 2) == Extract([3, 2, 4, 9, 5], 1)
  {
    ExtractUnfold([4, 3, 2, 9, 5], 2);
    assert Swap([4, 3, 2, 9, 5], 0, 2) == [2, 3, 4, 9, 5];
    assert SiftDownSeq([3, 2, 4, 9, 5], 1, 1) == [3, 2, 4, 9, 5];
    assert SiftDownSeq([2, 3, 4, 9, 5], 0, 1) == [3, 2, 4, 9, 5];
  }

  lemma ExampleStep1()
    ensures Extract([3, 2, 4, 9, 5], 1) == Extract([2, 3, 4, 9, 5], 0)
  {
    ExtractUnfold([3, 2, 4, 9, 5], 1);
    assert Swap([3, 2, 4, 9, 5], 0, 1) == [2, 3, 4, 9, 5];
    assert SiftDownSeq([2, 3, 4, 9, 5], 0, 0) == [2, 3, 4, 9, 5];
  }

  /** Parent-child order for every child `k <= bottom` whose parent `k / 2`
      is at least `top`. */
  predicate HeapFrom(s: seq<int>, top: int, bottom: int)
    requires bottom < |s|
  {
    forall k :: 1 <= k <= bottom && top <= k / 2 ==> s[k / 2] >= s[k]
  }

  /** The state SiftDown works in, sifting from `top` and now at `root`: every
      edge below `top` holds except those leaving `root`, and when `root` has
      moved down, its parent bounds its children. */
  predicate SiftInvariant(s: seq<int>, top: int, root: int, bottom: int) {
    0 <= top <= root && bottom < |s| &&
    (forall k :: 1 <= k <= bottom && top <= k / 2 && k / 2 != root ==> s[k / 2] >= s[k]) &&
    (top < root ==> forall k :: 1 <= k <= bottom && k / 2 == root ==> s[root / 2] >= s[k])
  }

  /** SiftDown restores the heap below `top`. */
  lemma {:induction false} SiftDownRestores(s: seq<int>, top: int, root: int, bottom: int)
    requires SiftInvariant(s, top, root, bottom)
    ensures HeapFrom(SiftDownSeq(s, root, bottom), top, bottom)
    decreases bottom - root
  {
    if root * 2 > bottom {
      forall k | 1 <= k <= bottom && top <= k / 2 ensures s[k / 2] >= s[k] {
        assert k / 2 != root;
      }
    } else {
      var c := MaxChild(s, root, bottom);
      if s[root] < s[c] {
        var t := Swap(s, root, c);
        assert c > root && c / 2 == root;
        SwapKeepsSift(s, top, root, bottom, c);
        SiftDownRestores(t, top, c, bottom);
      } else {
        forall k | 1 <= k <= bottom && top <= k / 2 ensures s[k / 2] >= s[k] {
          if k / 2 == root {
            assert root * 2 <= k <= root * 2 + 1;
          }
        }
      }
    }
  }

  /** Swapping `root` with its larger child moves the gap down to the child. */
  lemma SwapKeepsSift(s: seq<int>, top: int, root: int, bottom: int, c: int)
    requires SiftInvariant(s, top, root, bottom) && root * 2 <= bottom
    requires c == MaxChild(s, root, bottom) && s[root] < s[c]
    requires c > root && c / 2 == root
    ensures SiftInvariant(Swap(s, root, c), top, c, bottom)
  {
    var t := Swap(s, root, c);
    forall k | 1 <= k <= bottom && top <= k / 2 && k / 2 != c ensures t[k / 2] >= t[k] {
      if k == c {
      } else if k / 2 == root {
        assert root * 2 <= k <= root * 2 + 1;
        assert t[k] == s[k];
      } else if k == root {
        assert t[k / 2] == s[k / 2] && t[k] == s[c];
        assert top < root;
      } else {
        assert t[k / 2] == s[k / 2] && t[k] == s[k];
      }
    }
    forall k | 1 <= k <= bottom && k / 2 == c ensures t[c / 2] >= t[k] {
      assert k > c;
      assert t[k] == s[k];
    }
  }

  /** In a heap over `[0..bottom]` the root holds the maximum. */
  lemma {:induction false} RootIsMax(s: seq<int>, bottom: int, k: int)
    requires bottom < |s| && HeapFrom(s, 0, bottom) && 0 <= k <= bottom
    ensures s[k] <= s[0]
    decreases k
  {
    if k >= 1 {
      RootIsMax(s, bottom, k / 2);
    }
  }

  /** No position at or after the last parent's successor has a child. */
  lemma LeavesAreHeaps(s: seq<int>)
    ensures HeapFrom(s, (|s| - 1) / 2 + 1, |s| - 1)
  {
  }

  /** The build loop from `i` turns a heap below `i + 1` into a heap. */
  lemma {:induction false} BuildHeapIsHeap(s: seq<int>, i: int)
    requires -1 <= i && HeapFrom(s, i + 1, |s| - 1)
    ensures HeapFrom(BuildHeap(s, i), 0, |s| - 1)
    decreases i + 1
  {
    if i >= 0 {
      assert SiftInvariant(s, i, i, |s| - 1);
      SiftDownRestores(s, i, i, |s| - 1);
      BuildHeapIsHeap(SiftDownSeq(s, i, |s| - 1), i - 1);
    }
  }

  /** Permuting the front `s[..i]` of a list keeps a sorted tail from `i`
      that bounds the front. */
  lemma FrontPermutationKeepsTail(a: seq<int>, b: seq<int>, i: int)
    requires 0 <= i <= |a| == |b| && a[i..] == b[i..] && multiset(a) == multiset(b)
    requires SortedRange(a, i, |a|) && Partitioned(a, i)
    ensures SortedRange(b, i, |b|) && Partitioned(b, i)
  {
    FrontPermutes(a, b, i);
    forall p | i <= p < |b| ensures a[p] == b[p] {
      assert b[p] == b[i..][p - i] == a[i..][p - i];
    }
    forall p, q | 0 <= p < i <= q < |b| ensures b[p] <= b[q] {
      assert b[p] == b[..i][p];
      FrontBound(a, i, b[p]);
    }
    assert SortedRange(b, i, |b|);
  }

  /** With equal tails, equal multisets mean equal fronts. */
  lemma FrontPermutes(a: seq<int>, b: seq<int>, i: int)
    requires 0 <= i <= |a| == |b| && a[i..] == b[i..] && multiset(a) == multiset(b)
    ensures multiset(a[..i]) == multiset(b[..i])
  {
    assert a == a[..i] + a[i..] && b == b[..i] + b[i..];
    assert multiset(a) == multiset(a[..i]) + multiset(a[i..]);
    assert multiset(b) == multiset(b[..i]) + multiset(b[i..]);
    assert multiset(a[..i]) == multiset(a) - multiset(a[i..]);
    assert multiset(b[..i]) == multiset(b) - multiset(b[i..]);
  }

  /** An element of the front of a partitioned list bounds its tail. */
  lemma FrontBound(a: seq<int>, i: int, x: int)
    requires 0 <= i <= |a| && Partitioned(a, i) && x in multiset(a[..i])
    ensures forall q :: i <= q < |a| ==> x <= a[q]
  {
    var p :| 0 <= p < i && a[..i][p] == x;
    assert a[p] == x;
  }

  /** The state of the extraction loop at `i`: a heap over `[0..i]` bounded
      by a sorted tail. */
  predicate Extracting(s: seq<int>, i: int) {
    0 <= i < |s| && HeapFrom(s, 0, i) && SortedRange(s, i + 1, |s|) && Partitioned(s, i + 1)
  }

  /** Moving the root (the maximum of the heap) to `i` extends the sorted
      tail and leaves a heap over `[0..i - 1]` waiting to be sifted from 0. */
  lemma SwapRootToEnd(s: seq<int>, i: int)
    requires Extracting(s, i) && i >= 1
    ensures SiftInvariant(Swap(s, 0, i), 0, 0, i - 1)
    ensures SortedRange(Swap(s, 0, i), i, |s|) && Partitioned(Swap(s, 0, i), i)
  {
    var t0 := Swap(s, 0, i);
    forall k | 0 <= k <= i ensures s[k] <= s[0] { RootIsMax(s, i, k); }
    forall k | 1 <= k <= i - 1 && 0 != k / 2 ensures t0[k / 2] >= t0[k] {
      assert t0[k / 2] == s[k / 2] && t0[k] == s[k];
    }
    forall p, q | 0 <= p < i <= q < |s| ensures t0[p] <= t0[q] {
      if p == 0 { assert t0[p] == s[i]; } else { assert t0[p] == s[p]; }
      if q == i { assert t0[q] == s[0]; } else { assert t0[q] == s[q]; }
    }
    forall p, q | i <= p < q < |s| ensures t0[p] <= t0[q] {
      assert t0[q] == s[q];
      if p == i { assert t0[p] == s[0]; } else { assert t0[p] == s[p]; }
    }
  }

  /** One extraction step: the root goes to `i` and the sift restores the
      heap over `[0..i - 1]`. */
  lemma ExtractStep(s: seq<int>, i: int)
    requires Extracting(s, i) && i >= 1
    ensures Extracting(SiftDownSeq(Swap(s, 0, i), 0, i - 1), i - 1)
  {
    var t0 := Swap(s, 0, i);
    SwapRootToEnd(s, i);
    SiftDownRestores(t0, 0, 0, i - 1);
    SiftKeepsTail(t0, SiftDownSeq(t0, 0, i - 1), i);
  }

  /** The sift below `i` leaves the sorted tail from `i` and its bound in
      place. */
  lemma SiftKeepsTail(t0: seq<int>, t: seq<int>, i: int)
    requires 1 <= i < |t0| && t == SiftDownSeq(t0, 0, i - 1)
    requires SortedRange(t0, i, |t0|) && Partitioned(t0, i)
    ensures SortedRange(t, i, |t|) && Partitioned(t, i)
  {
    SiftDownPermutes(t0, 0, i - 1);
    assert t[i..] == t0[i..];
    FrontPermutationKeepsTail(t0, t, i);
  }

  /** The extraction loop from `i` sorts. */
  lemma {:induction false} ExtractSorts(s: seq<int>, i: int)
    requires Extracting(s, i)
    ensures Sorted(Extract(s, i))
    decreases i
  {
    if i >= 1 {
      ExtractStep(s, i);
      ExtractSorts(SiftDownSeq(Swap(s, 0, i), 0, i - 1), i - 1);
    }
  }

  /** The corrected routine sorts. */
  lemma CorrectedSorts(s: seq<int>)
    ensures Sorted(CorrectedHeapSortSeq(s))
  {
    if |s| > 0 {
      LeavesAreHeaps(s);
      BuildHeapIsHeap(s, (|s| - 1) / 2);
      ExtractSorts(BuildHeap(s, (|s| - 1) / 2), |s| - 1);
    }
  }

  /** The SiftDown loop, with `root` and `done` as in the source. */
  method SiftDown(a: array<int>, root0: int, bottom: int)
    requires 0 <= root0 && bottom < a.Length
    modifies a
    ensures a[..] == SiftDownSeq(old(a[..]), root0, bottom)
  {
    var root := root0;
    var done := false;
    while root * 2 <= bottom && !done
      invariant 0 <= root
      invariant SiftDownSeq(a[..], root, bottom) == SiftDownSeq(old(a[..]), root0, bottom)
      invariant done ==> SiftDownSeq(a[..], root, bottom) == a[..]
      decreases bottom - root, if done then 0 else 1
    {
      var maxChild;
      if root * 2 == bottom {
        maxChild := root * 2;
      } else if a[root * 2] > a[root * 2 + 1] {
        maxChild := root * 2;
      } else {
        maxChild := root * 2 + 1;
      }
      assert maxChild == MaxChild(a[..], root, bottom);
      if a[root] < a[maxChild] {
        ghost var s := a[..];
        a[root], a[maxChild] := a[maxChild], a[root];
        assert a[..] == Swap(s, root, maxChild);
        root := maxChild;
      } else {
        done := true;
      }
    }
  }

  /** The first `for` loop, from `start` down to 0. */
  method Build(a: array<int>, start: int)
    modifies a
    ensures a[..] == BuildHeap(old(a[..]), start)
  {
    var i := start;
    ghost var s0 := a[..];
    while i >= 0
      invariant BuildHeap(a[..], i) == BuildHeap(s0, start)
      decreases i + 1
    {
      BuildStep(a, i);
      i := i - 1;
    }
  }

  lemma BuildHeapUnfold(s: seq<int>, i: int)
    requires i >= 0
    ensures BuildHeap(s, i) == BuildHeap(SiftDownSeq(s, i, |s| - 1), i - 1)
  {
  }

  /** One iteration of the first `for` loop. */
  method BuildStep(a: array<int>, i: int)
    requires 0 <= i
    modifies a
    ensures BuildHeap(old(a[..]), i) == BuildHeap(a[..], i - 1)
  {
    ghost var s := a[..];
    SiftDown(a, i, a.Length - 1);
    BuildHeapUnfold(s, i);
  }

  /** The second `for` loop, from `Count - 1` down to 1. */
  method ExtractAll(a: array<int>)
    modifies a
    ensures a[..] == Extract(old(a[..]), a.Length - 1)
  {
    var i := a.Length - 1;
    ghost var s0 := a[..];
    while i >= 1
      invariant i < a.Length
      invariant Extract(a[..], i) == Extract(s0, a.Length - 1)
    {
      ExtractStepInPlace(a, i);
      i := i - 1;
    }
  }

  lemma ExtractUnfold(s: seq<int>, i: int)
    requires 1 <= i < |s|
    ensures Extract(s, i) == Extract(SiftDownSeq(Swap(s, 0, i), 0, i - 1), i - 1)
  {
  }

  /** One iteration of the second `for` loop. */
  method ExtractStepInPlace(a: array<int>, i: int)
    requires 1 <= i < a.Length
    modifies a
    ensures Extract(old(a[..]), i) == Extract(a[..], i - 1)
  {
    ghost var s := a[..];
    a[0], a[i] := a[i], a[0];
    assert a[..] == Swap(s, 0, i);
    SiftDown(a, 0, i - 1);
    ExtractUnfold(s, i);
  }

  /** Sort as written: a permutation of the input, but not always sorted
      (see UnsortedExample). */
  method Sort(a: array<int>)
    modifies a
    ensures a[..] == HeapSortSeq(old(a[..]))
    ensures multiset(a[..]) == multiset(old(a[..]))
  {
    Build(a, a.Length / 2 - 1);
    ExtractAll(a);
    HeapSortPermutes(old(a[..]));
  }

  /** Sort with the build loop starting at `(Count - 1) / 2`: a sorted
      permutation of the input. */
  method CorrectedSort(a: array<int>)
    modifies a
    ensures a[..] == CorrectedHeapSortSeq(old(a[..]))
    ensures Sorted(a[..]) && multiset(a[..]) == multiset(old(a[..]))
  {
    Build(a, (a.Length - 1) / 2);
    ExtractAll(a);
    CorrectedSorts(old(a[..]));
    HeapSortPermutes(old(a[..]));
  }
}

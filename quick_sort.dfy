/** QuickSort.Sort in place on an int array: Hoare partition around the
    middle element of the segment, then recursion on both sides. */
module QuickSort {
  import opened SortSpec

  /** Sort calls Sorting(values, 0, Count - 1). On an empty list the pivot
      read `values[0]` is out of range and the call throws: that outcome is
      `ok == false`, with the list untouched. */
  method Sort(a: array<int>) returns (ok: bool)
    modifies a
    ensures ok <==> a.Length > 0
    ensures ok ==> Sorted(a[..]) && multiset(a[..]) == multiset(old(a[..]))
    ensures !ok ==> a[..] == old(a[..])
  {
    if a.Length == 0 {
      return false;
    }
    Sorting(a, 0, a.Length - 1);
    WholeSegment(old(a[..]), a[..]);
    return true;
  }

  /** Sorting(values, left, right): sorts `[left..right]` and writes no index
      outside it. */
  method Sorting(a: array<int>, left: int, right: int)
    requires 0 <= left <= right < a.Length
    modifies a
    ensures SortsSegment(old(a[..]), a[..], left, right + 1)
    decreases right - left
  {
    ghost var s0 := a[..];
    var i, j, pivot := Partition(a, left, right);
    ghost var s1 := a[..];
    if left < j {
      Sorting(a, left, j);
    } else {
      ShortSegment(s1, left, j + 1);
    }
    ghost var s2 := a[..];
    if i < right {
      Sorting(a, i, right);
    } else {
      ShortSegment(s2, i, right + 1);
    }
    Combine(s0, s1, s2, a[..], left, right, i, j, pivot);
  }

  /** The result of the partition loop: the segment is permuted in place,
      `[left..i - 1]` holds values at most the pivot, `[j + 1..right]` values at
      least the pivot, and both sides are shorter than the segment. */
  ghost predicate Partitions(s0: seq<int>, s: seq<int>, left: int, right: int, i: int, j: int, pivot: int) {
    0 <= left < i <= right + 1 && left - 1 <= j < right < |s0| == |s| && j < i &&
    s[..left] == s0[..left] && s[right + 1..] == s0[right + 1..] &&
    multiset(s[left..right + 1]) == multiset(s0[left..right + 1]) &&
    (forall k :: left <= k < i ==> s[k] <= pivot) &&
    (forall k :: j < k <= right ==> s[k] >= pivot)
  }

  /** The `while (i <= j)` loop of Sorting with its two scans and the swap. */
  method Partition(a: array<int>, left: int, right: int) returns (i: int, j: int, pivot: int)
    requires 0 <= left <= right < a.Length
    modifies a
    ensures pivot == old(a[(left + right) / 2])
    ensures Partitions(old(a[..]), a[..], left, right, i, j, pivot)
  {
    i, j := left, right;
    pivot := a[(left + right) / 2];
    ghost var si, sj := (left + right) / 2, (left + right) / 2;
    PartitionStart(a[..], left, right);
    while i <= j
      invariant Scanning(old(a[..]), a[..], left, right, pivot, i, j, si, sj)
      decreases right + 1 - i + j - left + 1
    {
      var i' := ScanUp(a, i, pivot, si);
      var j' := ScanDown(a, j, pivot, sj);
      if i' > j' {
        NoSwap(old(a[..]), a[..], left, right, pivot, i, j, si, sj, i', j');
        i, j := i', j';
        continue;
      }
      ghost var s := a[..];
      a[i'], a[j'] := a[j'], a[i'];
      assert a[..] == Swap(s, i', j');
      Swapped(old(a[..]), s, left, right, pivot, i, j, si, sj, i', j');
      i, j, si, sj := i' + 1, j' - 1, j', i';
    }
    ScanningDone(old(a[..]), a[..], left, right, pivot, i, j, si, sj);
  }

  /** `while (values[i].CompareTo(pivot) < 0) i++;` stops at the first value
      from `i` on that is at least the pivot; one exists at `stop`. */
  method ScanUp(a: array<int>, i0: int, pivot: int, ghost stop: int) returns (i: int)
    requires 0 <= i0 <= stop < a.Length && a[stop] >= pivot
    ensures i0 <= i <= stop && a[i] >= pivot
    ensures forall k :: i0 <= k < i ==> a[k] < pivot
  {
    i := i0;
    while a[i] < pivot
      invariant i0 <= i <= stop
      invariant forall k :: i0 <= k < i ==> a[k] < pivot
      decreases stop - i
    {
      i := i + 1;
    }
  }

  /** `while (values[j].CompareTo(pivot) > 0) j--;` stops at the last value
      up to `j` that is at most the pivot; one exists at `stop`. */
  method ScanDown(a: array<int>, j0: int, pivot: int, ghost stop: int) returns (j: int)
    requires 0 <= stop <= j0 < a.Length && a[stop] <= pivot
    ensures stop <= j <= j0 && a[j] <= pivot
    ensures forall k :: j < k <= j0 ==> a[k] > pivot
  {
    j := j0;
    while a[j] > pivot
      invariant stop <= j <= j0
      invariant forall k :: j < k <= j0 ==> a[k] > pivot
      decreases j - stop
    {
      j := j - 1;
    }
  }

  /** The state at the head of the partition loop. Index `si` holds a value
      at least the pivot and `sj` one at most the pivot, so that neither scan
      leaves the segment; in the first round both are the pivot's own
      index, which forces the first swap. */
  ghost predicate Scanning(s0: seq<int>, s: seq<int>, left: int, right: int, pivot: int, i: int, j: int, si: int, sj: int) {
    0 <= left <= right < |s0| == |s| &&
    left <= i <= right + 1 && left - 1 <= j <= right &&
    (forall k :: 0 <= k < |s| && !(left <= k <= right) ==> s[k] == s0[k]) &&
    multiset(s) == multiset(s0) &&
    (forall k :: left <= k < i ==> s[k] <= pivot) &&
    (forall k :: j < k <= right ==> s[k] >= pivot) &&
    (i <= j ==> i <= si <= right && s[si] >= pivot && left <= sj <= j && s[sj] <= pivot) &&
    ((i == left && j == right && si == sj) || (left < i && j < right))
  }

  lemma PartitionStart(s: seq<int>, left: int, right: int)
    requires 0 <= left <= right < |s|
    ensures Scanning(s, s, left, right, s[(left + right) / 2], left, right, (left + right) / 2, (left + right) / 2)
  {
  }

  /** The scans crossed: the loop ends. */
  lemma NoSwap(s0: seq<int>, s: seq<int>, left: int, right: int, pivot: int, i: int, j: int, si: int, sj: int, i': int, j': int)
    requires Scanning(s0, s, left, right, pivot, i, j, si, sj) && i <= j
    requires i <= i' <= si && s[i'] >= pivot && (forall k :: i <= k < i' ==> s[k] < pivot)
    requires sj <= j' <= j && s[j'] <= pivot && (forall k :: j' < k <= j ==> s[k] > pivot)
    requires i' > j'
    ensures Scanning(s0, s, left, right, pivot, i', j', si, sj)
  {
  }

  /** The scans met or did not cross: after the swap and the steps the
      exchanged values are the new stoppers. */
  lemma Swapped(s0: seq<int>, s: seq<int>, left: int, right: int, pivot: int, i: int, j: int, si: int, sj: int, i': int, j': int)
    requires Scanning(s0, s, left, right, pivot, i, j, si, sj) && i <= j
    requires i <= i' <= si && s[i'] >= pivot && (forall k :: i <= k < i' ==> s[k] < pivot)
    requires sj <= j' <= j && s[j'] <= pivot && (forall k :: j' < k <= j ==> s[k] > pivot)
    requires i' <= j'
    ensures Scanning(s0, Swap(s, i', j'), left, right, pivot, i' + 1, j' - 1, j', i')
  {
    SwapPermutes(s, i', j');
  }

  lemma ScanningDone(s0: seq<int>, s: seq<int>, left: int, right: int, pivot: int, i: int, j: int, si: int, sj: int)
    requires Scanning(s0, s, left, right, pivot, i, j, si, sj) && i > j
    ensures Partitions(s0, s, left, right, i, j, pivot)
  {
    assert s[..left] == s0[..left];
    assert s[right + 1..] == s0[right + 1..];
    SegmentPermutes(s0, s, left, right + 1);
  }

  /** A permutation that keeps everything outside a segment permutes the
      segment. */
  lemma SegmentPermutes(s0: seq<int>, s: seq<int>, lo: int, hi: int)
    requires 0 <= lo <= hi <= |s0| == |s| && multiset(s) == multiset(s0)
    requires s[..lo] == s0[..lo] && s[hi..] == s0[hi..]
    ensures multiset(s[lo..hi]) == multiset(s0[lo..hi])
  {
    assert s == s[..lo] + s[lo..hi] + s[hi..];
    assert s0 == s0[..lo] + s0[lo..hi] + s0[hi..];
    assert multiset(s) == multiset(s[..lo]) + multiset(s[lo..hi]) + multiset(s[hi..]);
    assert multiset(s0) == multiset(s0[..lo]) + multiset(s0[lo..hi]) + multiset(s0[hi..]);
    assert multiset(s[lo..hi]) == multiset(s) - multiset(s[..lo]) - multiset(s[hi..]);
    assert multiset(s0[lo..hi]) == multiset(s0) - multiset(s0[..lo]) - multiset(s0[hi..]);
  }

  /** Sorting both sides of a partition sorts the segment. */
  lemma Combine(s0: seq<int>, s1: seq<int>, s2: seq<int>, s3: seq<int>, left: int, right: int, i: int, j: int, pivot: int)
    requires Partitions(s0, s1, left, right, i, j, pivot)
    requires SortsSegment(s1, s2, left, j + 1)
    requires SortsSegment(s2, s3, i, right + 1)
    ensures SortsSegment(s0, s3, left, right + 1)
  {
    Frames(s0, s1, s2, s3, left, right, i, j);
    SideBound(s1, s2, left, j + 1, pivot, true);
    SideBound(s2, s3, i, right + 1, pivot, false);
    forall p, q | left <= p < q <= right ensures s3[p] <= s3[q] {
      if q <= j || i <= p {
      } else if p <= j {
        assert s3[p] <= pivot;
        assert s3[q] >= pivot;
      } else {
        assert s3[p] >= pivot && s3[p] <= pivot;
      }
    }
  }

  /** What the two recursive calls leave outside their ranges. */
  lemma Frames(s0: seq<int>, s1: seq<int>, s2: seq<int>, s3: seq<int>, left: int, right: int, i: int, j: int)
    requires 0 <= left < i <= right + 1 && left - 1 <= j < right < |s0| == |s1| && j < i
    requires s1[..left] == s0[..left] && s1[right + 1..] == s0[right + 1..]
    requires multiset(s1[left..right + 1]) == multiset(s0[left..right + 1])
    requires SortsSegment(s1, s2, left, j + 1)
    requires SortsSegment(s2, s3, i, right + 1)
    ensures s3[..left] == s0[..left] && s3[right + 1..] == s0[right + 1..]
    ensures multiset(s3[left..right + 1]) == multiset(s0[left..right + 1])
    ensures forall k :: j < k < i ==> s3[k] == s1[k]
    ensures forall k :: left <= k <= j ==> s3[k] == s2[k]
    ensures SortedRange(s3, left, j + 1)
  {
    Outside(s1, s2, left, j + 1);
    Outside(s2, s3, i, right + 1);
    Outside(s0, s1, left, right + 1);
    OuterFrame(s0, s3, left, right + 1);
    Agree(s3, s2, left, j + 1);
    Agree(s3, s1, j + 1, i);
    Agree(s2, s1, i, right + 1);
    FramesPermute(s0, s1, s2, s3, left, right, i, j);
  }

  lemma OuterFrame(s0: seq<int>, s3: seq<int>, lo: int, hi: int)
    requires 0 <= lo <= hi <= |s0| == |s3|
    requires forall k :: 0 <= k < |s0| && (k < lo || hi <= k) ==> s3[k] == s0[k]
    ensures s3[..lo] == s0[..lo] && s3[hi..] == s0[hi..]
  {
    assert s3[..lo] == s0[..lo];
    assert s3[hi..] == s0[hi..];
  }

  lemma FramesPermute(s0: seq<int>, s1: seq<int>, s2: seq<int>, s3: seq<int>, left: int, right: int, i: int, j: int)
    requires 0 <= left < i <= right + 1 && left - 1 <= j < right < |s0| == |s1| && j < i
    requires |s1| == |s2| == |s3|
    requires multiset(s1[left..right + 1]) == multiset(s0[left..right + 1])
    requires multiset(s2[left..j + 1]) == multiset(s1[left..j + 1])
    requires multiset(s3[i..right + 1]) == multiset(s2[i..right + 1])
    requires s3[left..j + 1] == s2[left..j + 1] && s3[j + 1..i] == s1[j + 1..i]
    requires s2[i..right + 1] == s1[i..right + 1]
    ensures multiset(s3[left..right + 1]) == multiset(s0[left..right + 1])
  {
    ThreeParts(s1, left, j + 1, i, right + 1);
    ThreeParts(s3, left, j + 1, i, right + 1);
    Regroup(multiset(s0[left..right + 1]), multiset(s1[left..right + 1]), multiset(s3[left..right + 1]),
            multiset(s1[left..j + 1]), multiset(s2[left..j + 1]), multiset(s3[left..j + 1]),
            multiset(s1[j + 1..i]), multiset(s3[j + 1..i]),
            multiset(s1[i..right + 1]), multiset(s2[i..right + 1]), multiset(s3[i..right + 1]));
  }

  /** Multiset bookkeeping for the three parts of a partitioned segment. */
  lemma Regroup<T>(w0: multiset<T>, w1: multiset<T>, w3: multiset<T>,
                   a1: multiset<T>, a2: multiset<T>, a3: multiset<T>, b1: multiset<T>, b3: multiset<T>,
                   c1: multiset<T>, c2: multiset<T>, c3: multiset<T>)
    requires w1 == w0 && w1 == a1 + b1 + c1 && w3 == a3 + b3 + c3
    requires a2 == a1 && a3 == a2 && b3 == b1 && c3 == c2 && c2 == c1
    ensures w3 == w0
  {
  }

  /** Lists that agree at every index of a segment have equal slices there. */
  lemma Agree(a: seq<int>, b: seq<int>, lo: int, hi: int)
    requires 0 <= lo <= hi <= |a| == |b|
    requires forall k :: lo <= k < hi ==> a[k] == b[k]
    ensures a[lo..hi] == b[lo..hi]
  {
  }

  /** A list that agrees with another in prefix and suffix agrees with it at
      every index outside the segment. */
  lemma Outside(s: seq<int>, r: seq<int>, lo: int, hi: int)
    requires 0 <= lo <= hi <= |s| == |r| && r[..lo] == s[..lo] && r[hi..] == s[hi..]
    ensures forall k :: 0 <= k < |s| && (k < lo || hi <= k) ==> r[k] == s[k]
  {
    forall k | 0 <= k < |s| && (k < lo || hi <= k) ensures r[k] == s[k] {
      if k < lo {
        assert r[k] == r[..lo][k];
      } else {
        assert r[k] == r[hi..][k - hi];
      }
    }
  }

  lemma ThreeParts(s: seq<int>, lo: int, p: int, q: int, hi: int)
    requires 0 <= lo <= p <= q <= hi <= |s|
    ensures multiset(s[lo..hi]) == multiset(s[lo..p]) + multiset(s[p..q]) + multiset(s[q..hi])
  {
    SliceMultiset(s, lo, p, hi);
    SliceMultiset(s, p, q, hi);
  }

  /** A side of the partition keeps its bound when it is sorted. */
  lemma SideBound(s: seq<int>, r: seq<int>, lo: int, hi: int, pivot: int, below: bool)
    requires SortsSegment(s, r, lo, hi)
    requires below ==> forall k :: lo <= k < hi ==> s[k] <= pivot
    requires !below ==> forall k :: lo <= k < hi ==> s[k] >= pivot
    ensures below ==> forall k :: lo <= k < hi ==> r[k] <= pivot
    ensures !below ==> forall k :: lo <= k < hi ==> r[k] >= pivot
  {
    forall k | lo <= k < hi ensures below ==> r[k] <= pivot ensures !below ==> r[k] >= pivot {
      assert r[k] == r[lo..hi][k - lo];
      assert r[k] in multiset(s[lo..hi]);
      var m :| lo <= m < hi && s[m] == r[k];
    }
  }
}

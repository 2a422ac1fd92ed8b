/** MergeSort.Sort in place on an int array: top-down recursion on index
    ranges, merging through a temporary array. */
module MergeSort {
  import opened SortSpec

  /** The merge of two runs as Merge's first loop produces it: take from
      the left run while its head is at most the right run's head, then
      append what is left of either run. */
  function MergeSeq(xs: seq<int>, ys: seq<int>): (r: seq<int>)
    ensures |r| == |xs| + |ys|
    decreases |xs| + |ys|
  {
    if |xs| == 0 then ys
    else if |ys| == 0 then xs
    else if xs[0] <= ys[0] then [xs[0]] + MergeSeq(xs[1..], ys)
    else [ys[0]] + MergeSeq(xs, ys[1..])
  }

  /** A merge holds each element of both runs, as often as the runs do. */
  lemma {:induction false} MergePermutes(xs: seq<int>, ys: seq<int>)
    ensures multiset(MergeSeq(xs, ys)) == multiset(xs) + multiset(ys)
    decreases |xs| + |ys|
  {
    if |xs| > 0 && |ys| > 0 {
      if xs[0] <= ys[0] {
        MergePermutes(xs[1..], ys);
        HeadMultiset(xs);
      } else {
        MergePermutes(xs, ys[1..]);
        HeadMultiset(ys);
      }
    }
  }

  /** A non-empty list is its head followed by its tail. */
  lemma HeadMultiset(xs: seq<int>)
    requires |xs| > 0
    ensures multiset(xs) == multiset{xs[0]} + multiset(xs[1..])
  {
    assert xs == [xs[0]] + xs[1..];
  }

  /** The first element of a merge is the head of one of the runs. */
  lemma MergeHead(xs: seq<int>, ys: seq<int>)
    requires |xs| > 0 || |ys| > 0
    ensures |MergeSeq(xs, ys)| > 0
    ensures (|xs| > 0 && MergeSeq(xs, ys)[0] == xs[0]) || (|ys| > 0 && MergeSeq(xs, ys)[0] == ys[0])
  {
  }

  /** Merging two sorted runs gives a sorted list. */
  lemma {:induction false} MergeSorted(xs: seq<int>, ys: seq<int>)
    requires Sorted(xs) && Sorted(ys)
    ensures Sorted(MergeSeq(xs, ys))
    decreases |xs| + |ys|
  {
    if |xs| > 0 && |ys| > 0 {
      var m := MergeSeq(xs, ys);
      if xs[0] <= ys[0] {
        var rest := MergeSeq(xs[1..], ys);
        MergeSorted(xs[1..], ys);
        MergeHead(xs[1..], ys);
        ConsSorted(xs[0], rest);
      } else {
        var rest := MergeSeq(xs, ys[1..]);
        MergeSorted(xs, ys[1..]);
        if |ys| > 1 || |xs| > 0 {
          MergeHead(xs, ys[1..]);
        }
        ConsSorted(ys[0], rest);
      }
    }
  }

  /** A head no larger than the first element of a sorted list keeps it
      sorted. */
  lemma ConsSorted(x: int, s: seq<int>)
    requires Sorted(s) && (|s| > 0 ==> x <= s[0])
    ensures Sorted([x] + s)
  {
  }

  /** Merge(values, left, mid, right): merges the runs `[left..mid - 1]` and
      `[mid..right]` into `[left..right]`, writing no other index. */
  method Merge(a: array<int>, left0: int, mid0: int, right0: int)
    requires 0 <= left0 <= mid0 <= right0 + 1 <= a.Length
    modifies a
    ensures a[..] == Merged(old(a[..]), left0, mid0, right0 + 1)
  {
    var numElements := right0 - left0 + 1;
    var temp := MergeIntoTemp(a, left0, mid0, right0);
    CopyBack(a, temp, left0, numElements);
  }

  /** The three loops of Merge that fill the temporary array from the two
      runs; the list itself is only read. */
  method MergeIntoTemp(a: array<int>, left0: int, mid0: int, right0: int) returns (temp: array<int>)
    requires 0 <= left0 <= mid0 <= right0 + 1 <= a.Length
    ensures fresh(temp) && temp.Length == a.Length
    ensures temp[left0..right0 + 1] == MergeAt(a[..], left0, mid0, mid0, right0 + 1)
  {
    ghost var s := a[..];
    ghost var m := MergeAt(s, left0, mid0, mid0, right0 + 1);
    MergeAtLength(s, left0, mid0, mid0, right0 + 1);
    assert m[0..] == m;
    temp := new int[a.Length];
    var left, mid, tempPos := MergeRuns(a, s, m, temp, left0, mid0, right0, left0, mid0, left0);
    left, tempPos := CopyLeftRun(a, s, m, temp, left0, mid0, right0, left, mid, tempPos);
    CopyRightRun(a, s, m, temp, left0, mid0, right0, left, mid, tempPos);
    FilledDone(temp[..], s, m, left0, mid0, right0 + 1);
  }

  /** The merge of the runs `s[i..mid]` and `s[j..hi]`, by index. */
  ghost function MergeAt(s: seq<int>, i: int, mid: int, j: int, hi: int): seq<int>
    requires 0 <= i <= mid <= j <= hi <= |s|
    decreases (mid - i) + (hi - j)
  {
    if i == mid then s[j..hi]
    else if j == hi then s[i..mid]
    else if s[i] <= s[j] then [s[i]] + MergeAt(s, i + 1, mid, j, hi)
    else [s[j]] + MergeAt(s, i, mid, j + 1, hi)
  }

  lemma {:induction false} MergeAtLength(s: seq<int>, i: int, mid: int, j: int, hi: int)
    requires 0 <= i <= mid <= j <= hi <= |s|
    ensures |MergeAt(s, i, mid, j, hi)| == (mid - i) + (hi - j)
    decreases (mid - i) + (hi - j)
  {
    if i < mid && j < hi {
      if s[i] <= s[j] {
        MergeAtLength(s, i + 1, mid, j, hi);
      } else {
        MergeAtLength(s, i, mid, j + 1, hi);
      }
    }
  }

  lemma {:induction false} MergeAtIsMergeSeq(s: seq<int>, i: int, mid: int, j: int, hi: int)
    requires 0 <= i <= mid <= j <= hi <= |s|
    ensures MergeAt(s, i, mid, j, hi) == MergeSeq(s[i..mid], s[j..hi])
    decreases (mid - i) + (hi - j)
  {
    var xs, ys := s[i..mid], s[j..hi];
    if i < mid && j < hi {
      assert xs[0] == s[i] && ys[0] == s[j];
      if s[i] <= s[j] {
        MergeAtIsMergeSeq(s, i + 1, mid, j, hi);
        assert xs[1..] == s[i + 1..mid];
      } else {
        MergeAtIsMergeSeq(s, i, mid, j + 1, hi);
        assert ys[1..] == s[j + 1..hi];
      }
    }
  }

  /** The state of the three merging loops: `m` is the whole merge, and
      the merge of what is left of both runs is the part of it not yet
      written. */
  ghost predicate Rest(s: seq<int>, m: seq<int>, left0: int, mid0: int, hi: int, left: int, mid: int) {
    0 <= left0 <= left <= mid0 <= mid <= hi <= |s| && |m| == hi - left0 &&
    MergeAt(s, left, mid0, mid, hi) == m[left + mid - mid0 - left0..]
  }

  /** `temp[left0..]` holds the part of the merge taken so far. */
  ghost predicate Filled(temp: seq<int>, s: seq<int>, m: seq<int>, left0: int, mid0: int, hi: int, left: int, mid: int) {
    Rest(s, m, left0, mid0, hi, left, mid) && |temp| == |s| &&
    forall k :: left0 <= k < left + mid - mid0 ==> temp[k] == m[k - left0]
  }

  lemma FilledDone(temp: seq<int>, s: seq<int>, m: seq<int>, left0: int, mid0: int, hi: int)
    requires Filled(temp, s, m, left0, mid0, hi, mid0, hi)
    ensures temp[left0..hi] == m
  {
  }

  /** The first loop: the smaller head of the two runs goes to `temp`, the
      left one on a tie, until one run is used up. */
  method MergeRuns(a: array<int>, ghost s: seq<int>, ghost m: seq<int>, temp: array<int>, left0: int, mid0: int, right: int, left: int, mid: int, tempPos: int)
    returns (left': int, mid': int, tempPos': int)
    requires a != temp && a[..] == s && left0 == left && mid0 == mid && tempPos == left
    requires 0 <= left0 <= mid0 <= right + 1 <= a.Length == temp.Length
    requires Rest(s, m, left0, mid0, right + 1, left, mid)
    modifies temp
    ensures Filled(temp[..], s, m, left0, mid0, right + 1, left', mid')
    ensures tempPos' == left' + mid' - mid0 && (left' == mid0 || mid' == right + 1)
  {
    var leftEnd := mid0 - 1;
    left', mid', tempPos' := left, mid, tempPos;
    while left' <= leftEnd && mid' <= right
      invariant Filled(temp[..], s, m, left0, mid0, right + 1, left', mid')
      invariant tempPos' == left' + mid' - mid0
      decreases right + 1 - tempPos'
    {
      left', mid' := TakeSmaller(a, s, m, temp, left0, mid0, right, left', mid', tempPos');
      tempPos' := tempPos' + 1;
    }
  }

  /** The body of the first loop. */
  method TakeSmaller(a: array<int>, ghost s: seq<int>, ghost m: seq<int>, temp: array<int>, left0: int, mid0: int, right: int, left: int, mid: int, tempPos: int)
    returns (left': int, mid': int)
    requires a != temp && a[..] == s && Filled(temp[..], s, m, left0, mid0, right + 1, left, mid)
    requires tempPos == left + mid - mid0 && left < mid0 && mid <= right
    modifies temp
    ensures Filled(temp[..], s, m, left0, mid0, right + 1, left', mid')
    ensures left' + mid' == left + mid + 1 && left <= left' && mid <= mid'
  {
    ghost var t := temp[..];
    if a[left] <= a[mid] {
      TakeLeft(s, m, left0, mid0, right + 1, left, mid);
      temp[tempPos] := a[left];
      left', mid' := left + 1, mid;
    } else {
      TakeRight(s, m, left0, mid0, right + 1, left, mid);
      temp[tempPos] := a[mid];
      left', mid' := left, mid + 1;
    }
    assert temp[..] == t[tempPos := temp[tempPos]];
    FilledStep(t, s, m, left0, mid0, right + 1, left, mid, left', mid', temp[tempPos]);
  }

  /** Writing the next element of the merge extends the filled part. */
  lemma FilledStep(t: seq<int>, s: seq<int>, m: seq<int>, left0: int, mid0: int, hi: int, left: int, mid: int, left': int, mid': int, x: int)
    requires Filled(t, s, m, left0, mid0, hi, left, mid) && Rest(s, m, left0, mid0, hi, left', mid')
    requires left' + mid' == left + mid + 1 && left + mid - mid0 < |t|
    requires m[left + mid - mid0 - left0] == x
    ensures Filled(t[left + mid - mid0 := x], s, m, left0, mid0, hi, left', mid')
  {
  }

  /** The second loop: what is left of the left run, once the right run is
      used up. */
  method CopyLeftRun(a: array<int>, ghost s: seq<int>, ghost m: seq<int>, temp: array<int>, left0: int, mid0: int, right: int, left: int, mid: int, tempPos: int)
    returns (left': int, tempPos': int)
    requires a != temp && a[..] == s && Filled(temp[..], s, m, left0, mid0, right + 1, left, mid)
    requires tempPos == left + mid - mid0 && (left == mid0 || mid == right + 1)
    modifies temp
    ensures Filled(temp[..], s, m, left0, mid0, right + 1, left', mid)
    ensures tempPos' == left' + mid - mid0 && left' == mid0
  {
    var leftEnd := mid0 - 1;
    left', tempPos' := left, tempPos;
    while left' <= leftEnd
      invariant Filled(temp[..], s, m, left0, mid0, right + 1, left', mid)
      invariant tempPos' == left' + mid - mid0
      invariant left' < mid0 ==> mid == right + 1
      decreases mid0 - left'
    {
      ghost var t := temp[..];
      TakeLeft(s, m, left0, mid0, right + 1, left', mid);
      temp[tempPos'] := a[left'];
      assert temp[..] == t[tempPos' := temp[tempPos']];
      FilledStep(t, s, m, left0, mid0, right + 1, left', mid, left' + 1, mid, temp[tempPos']);
      left' := left' + 1;
      tempPos' := tempPos' + 1;
    }
  }

  /** The third loop: what is left of the right run. */
  method CopyRightRun(a: array<int>, ghost s: seq<int>, ghost m: seq<int>, temp: array<int>, left0: int, mid0: int, right: int, left: int, mid: int, tempPos: int)
    requires a != temp && a[..] == s && Filled(temp[..], s, m, left0, mid0, right + 1, left, mid)
    requires tempPos == left + mid - mid0 && left == mid0
    modifies temp
    ensures Filled(temp[..], s, m, left0, mid0, right + 1, mid0, right + 1)
  {
    var mid', tempPos' := mid, tempPos;
    while mid' <= right
      invariant Filled(temp[..], s, m, left0, mid0, right + 1, left, mid')
      invariant tempPos' == left + mid' - mid0
      decreases right + 1 - mid'
    {
      ghost var t := temp[..];
      TakeRight(s, m, left0, mid0, right + 1, left, mid');
      temp[tempPos'] := a[mid'];
      assert temp[..] == t[tempPos' := temp[tempPos']];
      FilledStep(t, s, m, left0, mid0, right + 1, left, mid', left, mid' + 1, temp[tempPos']);
      mid' := mid' + 1;
      tempPos' := tempPos' + 1;
    }
  }

  /** Taking the left head when it is at most the right head: it is the next
      element of the whole merge. */
  lemma TakeLeft(s: seq<int>, m: seq<int>, left0: int, mid0: int, hi: int, left: int, mid: int)
    requires Rest(s, m, left0, mid0, hi, left, mid) && left < mid0
    requires mid < hi ==> s[left] <= s[mid]
    ensures Rest(s, m, left0, mid0, hi, left + 1, mid)
    ensures m[left + mid - mid0 - left0] == s[left]
  {
    if mid == hi {
      assert s[left..mid0] == [s[left]] + s[left + 1..mid0];
    }
    Next(m, left + mid - mid0 - left0, s[left], MergeAt(s, left + 1, mid0, mid, hi));
  }

  /** Taking the right head when the left head is larger or the left run is
      used up. */
  lemma TakeRight(s: seq<int>, m: seq<int>, left0: int, mid0: int, hi: int, left: int, mid: int)
    requires Rest(s, m, left0, mid0, hi, left, mid) && mid < hi
    requires left < mid0 ==> s[left] > s[mid]
    ensures Rest(s, m, left0, mid0, hi, left, mid + 1)
    ensures m[left + mid - mid0 - left0] == s[mid]
  {
    if left == mid0 {
      assert s[mid..hi] == [s[mid]] + s[mid + 1..hi];
    }
    Next(m, left + mid - mid0 - left0, s[mid], MergeAt(s, left, mid0, mid + 1, hi));
  }

  /** A suffix starting with `x` has `x` at its first position. */
  lemma Next(m: seq<int>, p: int, x: int, rest: seq<int>)
    requires 0 <= p <= |m| && m[p..] == [x] + rest
    ensures p < |m| && m[p] == x && m[p + 1..] == rest
  {
    assert m[p..][0] == x;
    assert m[p + 1..] == m[p..][1..];
  }

  /** The last loop of Merge: copies `temp[lo..lo + count]` back into the
      list, from the right end down. */
  method CopyBack(a: array<int>, temp: array<int>, lo: int, count: int)
    requires a != temp && a.Length == temp.Length && 0 <= lo && 0 <= count && lo + count <= a.Length
    modifies a
    ensures a[..] == old(a[..lo]) + temp[lo..lo + count] + old(a[lo + count..])
  {
    var right := lo + count - 1;
    var i := 0;
    while i < count
      invariant 0 <= i <= count && right == lo + count - 1 - i
      invariant forall k :: 0 <= k < a.Length && !(right < k < lo + count) ==> a[k] == old(a[k])
      invariant forall k :: right < k < lo + count ==> a[k] == temp[k]
    {
      a[right] := temp[right];
      right := right - 1;
      i := i + 1;
    }
    assert a[..] == old(a[..lo]) + temp[lo..lo + count] + old(a[lo + count..]);
  }

  /** The first index of the second half of the segment `[lo..hi - 1]`:
      MSort's `mid + 1` when `hi` is `right + 1`. */
  function Split(lo: int, hi: int): int {
    (lo + hi - 1) / 2 + 1
  }

  lemma SplitShift(lo: int, hi: int)
    ensures Split(lo, hi) - lo == Split(0, hi - lo)
  {
  }

  /** The recursion of MSort on the values of one segment: a list of at
      most one element is returned as it is; otherwise the left part holds
      the first half rounded up (`[left..mid]` with `mid` the middle index
      rounded down), both parts are sorted and the results merged. */
  function MergeSortSeq(xs: seq<int>): (r: seq<int>)
    ensures |r| == |xs|
    decreases |xs|
  {
    if |xs| <= 1 then xs
    else
      var k := Split(0, |xs|);
      MergeSeq(MergeSortSeq(xs[..k]), MergeSortSeq(xs[k..]))
  }

  /** The recursion sorts. */
  lemma {:induction false} MergeSortSeqSorted(xs: seq<int>)
    ensures Sorted(MergeSortSeq(xs))
    decreases |xs|
  {
    if |xs| > 1 {
      var k := Split(0, |xs|);
      MergeSortSeqSorted(xs[..k]);
      MergeSortSeqSorted(xs[k..]);
      MergeSorted(MergeSortSeq(xs[..k]), MergeSortSeq(xs[k..]));
    }
  }

  /** The recursion neither loses nor adds an element. */
  lemma {:induction false} MergeSortSeqPermutes(xs: seq<int>)
    ensures multiset(MergeSortSeq(xs)) == multiset(xs)
    decreases |xs|
  {
    if |xs| > 1 {
      var k := Split(0, |xs|);
      MergeSortSeqPermutes(xs[..k]);
      MergeSortSeqPermutes(xs[k..]);
      MergePermutes(MergeSortSeq(xs[..k]), MergeSortSeq(xs[k..]));
      SplitMultiset(xs, k);
    }
  }

  lemma SplitMultiset(xs: seq<int>, k: int)
    requires 0 <= k <= |xs|
    ensures multiset(xs) == multiset(xs[..k]) + multiset(xs[k..])
  {
    assert xs == xs[..k] + xs[k..];
  }

  /** The list `s` with the runs `[lo..mid - 1]` and `[mid..hi - 1]`
      replaced by their merge. */
  ghost function Merged(s: seq<int>, lo: int, mid: int, hi: int): (r: seq<int>)
    requires 0 <= lo <= mid <= hi <= |s|
    ensures |r| == |s|
  {
    MergeAtLength(s, lo, mid, mid, hi);
    s[..lo] + MergeAt(s, lo, mid, mid, hi) + s[hi..]
  }

  /** The list after MSort on the segment `[lo..hi - 1]`, following the
      method's recursion: a segment of at most one element stays as it is. */
  ghost function SortedSegment(s: seq<int>, lo: int, hi: int): (r: seq<int>)
    requires 0 <= lo <= hi <= |s|
    ensures |r| == |s|
    decreases hi - lo, 1
  {
    if hi <= lo + 1 then s else SortStep(s, lo, Split(lo, hi), hi)
  }

  /** A longer segment has its halves `[lo..mid - 1]` and `[mid..hi - 1]`
      sorted in turn and then merged. */
  ghost function SortStep(s: seq<int>, lo: int, mid: int, hi: int): (r: seq<int>)
    requires 0 <= lo < mid < hi <= |s|
    ensures |r| == |s|
    decreases hi - lo, 0
  {
    Merged(SortedSegment(SortedSegment(s, lo, mid), mid, hi), lo, mid, hi)
  }

  /** MSort(values, left, right): the list becomes SortedSegment of its old
      value on `[left..right]`. */
  method MSort(a: array<int>, left: int, right: int)
    requires 0 <= left <= right + 1 <= a.Length
    modifies a
    ensures a[..] == SortedSegment(old(a[..]), left, right + 1)
    decreases right - left
  {
    if right <= left {
      return;
    }
    ghost var s0 := a[..];
    var mid := (right + left) / 2;
    MSort(a, left, mid);
    ghost var s1 := a[..];
    MSort(a, mid + 1, right);
    MergeHalves(a, s0, s1, left, mid, right);
  }

  /** The last step of MSort: the call to Merge once both halves are
      sorted; `s0` and `s1` are the list before and after the first
      half was sorted. */
  method MergeHalves(a: array<int>, ghost s0: seq<int>, ghost s1: seq<int>, left: int, mid: int, right: int)
    requires 0 <= left <= mid < right < a.Length && mid == (right + left) / 2 && |s0| == a.Length
    requires s1 == SortedSegment(s0, left, mid + 1)
    requires a[..] == SortedSegment(s1, mid + 1, right + 1)
    modifies a
    ensures a[..] == SortedSegment(s0, left, right + 1)
  {
    ghost var s2 := a[..];
    Merge(a, left, mid + 1, right);
    SortedSegmentStep(s0, s1, s2, a[..], left, mid + 1, right + 1);
  }

  /** One level of SortedSegment's recursion, with the list after each
      step named. */
  lemma SortedSegmentStep(s0: seq<int>, s1: seq<int>, s2: seq<int>, s3: seq<int>, lo: int, mid: int, hi: int)
    requires 0 <= lo < mid < hi <= |s0| && mid == Split(lo, hi)
    requires s1 == SortedSegment(s0, lo, mid)
    requires s2 == SortedSegment(s1, mid, hi)
    requires s3 == Merged(s2, lo, mid, hi)
    ensures s3 == SortedSegment(s0, lo, hi)
  {
  }

  /** SortedSegment sorts the segment by the recursion on lists and leaves
      the rest of the list alone. */
  lemma {:induction false} SortedSegmentSorts(s: seq<int>, lo: int, hi: int)
    requires 0 <= lo <= hi <= |s|
    ensures SortedSegment(s, lo, hi) == s[..lo] + MergeSortSeq(s[lo..hi]) + s[hi..]
    decreases hi - lo
  {
    if hi <= lo + 1 {
      Cut(s, lo, hi);
    } else {
      var mid := Split(lo, hi);
      var s1 := SortedSegment(s, lo, mid);
      var s2 := SortedSegment(s1, mid, hi);
      SortedSegmentSorts(s, lo, mid);
      SortedSegmentSorts(s1, mid, hi);
      SecondRun(s, s1, MergeSortSeq(s[lo..mid]), lo, mid, hi);
      Halves(s, s1, lo, mid, hi);
      Compose(s, s1, s2, Merged(s2, lo, mid, hi), MergeSortSeq(s[lo..mid]), MergeSortSeq(s1[mid..hi]),
        MergeSortSeq(s[lo..hi]), lo, mid, hi);
    }
  }

  lemma Cut(s: seq<int>, lo: int, hi: int)
    requires 0 <= lo <= hi <= |s|
    ensures s == s[..lo] + s[lo..hi] + s[hi..]
  {
  }

  /** Replacing the first run leaves the second run as it was. */
  lemma SecondRun(s: seq<int>, s1: seq<int>, x: seq<int>, lo: int, mid: int, hi: int)
    requires 0 <= lo <= mid <= hi <= |s| && |x| == mid - lo
    requires s1 == s[..lo] + x + s[mid..]
    ensures s1[mid..hi] == s[mid..hi]
  {
    assert s1[mid..hi] == s[mid..][..hi - mid];
  }

  /** One step of the recursion on lists, on the segment `[lo..hi - 1]`
      split at `mid`; `t` agrees with `s` on the second half. */
  lemma Halves(s: seq<int>, t: seq<int>, lo: int, mid: int, hi: int)
    requires 0 <= lo < mid < hi <= |s| && hi <= |t| && mid == Split(lo, hi)
    requires t[mid..hi] == s[mid..hi]
    ensures MergeSortSeq(s[lo..hi]) == MergeSeq(MergeSortSeq(s[lo..mid]), MergeSortSeq(t[mid..hi]))
  {
    var z := s[lo..hi];
    SplitShift(lo, hi);
    assert z[..mid - lo] == s[lo..mid];
    assert z[mid - lo..] == t[mid..hi];
    MergeSortSeqStep(z, mid - lo, s[lo..mid], t[mid..hi]);
  }

  /** Sorting the two halves in turn and merging them, on lists: `x`, `y`
      and `z` stand for the sorted first half, second half and whole
      segment. */
  lemma Compose(s: seq<int>, s1: seq<int>, s2: seq<int>, s3: seq<int>, x: seq<int>, y: seq<int>, z: seq<int>,
                lo: int, mid: int, hi: int)
    requires 0 <= lo <= mid <= hi <= |s| && |x| == mid - lo && |y| == hi - mid
    requires s1 == s[..lo] + x + s[mid..]
    requires s2 == s1[..mid] + y + s1[hi..]
    requires s3 == Merged(s2, lo, mid, hi)
    requires z == MergeSeq(x, y)
    ensures s3 == s[..lo] + z + s[hi..]
  {
    FirstParts(s, s1, x, lo, mid, hi);
    Substitute(s2, s1[..mid], s[..lo] + x, y, s1[hi..], s[hi..]);
    MergedOf(s2, s3, s[..lo], x, y, s[hi..], lo, mid, hi);
  }

  /** The parts of `s1` around the second run. */
  lemma FirstParts(s: seq<int>, s1: seq<int>, x: seq<int>, lo: int, mid: int, hi: int)
    requires 0 <= lo <= mid <= hi <= |s| && |x| == mid - lo
    requires s1 == s[..lo] + x + s[mid..]
    ensures s1[..mid] == s[..lo] + x && s1[hi..] == s[hi..]
  {
    assert s1[hi..] == s[mid..][hi - mid..];
  }

  lemma Substitute(r: seq<int>, a: seq<int>, a': seq<int>, b: seq<int>, c: seq<int>, c': seq<int>)
    requires r == a + b + c && a == a' && c == c'
    ensures r == a' + b + c'
  {
  }

  /** `r` is `s == p + x + y + q` with the two runs replaced by their merge. */
  lemma MergedOf(s: seq<int>, r: seq<int>, p: seq<int>, x: seq<int>, y: seq<int>, q: seq<int>, lo: int, mid: int, hi: int)
    requires s == p + x + y + q && lo == |p| && mid == lo + |x| && hi == mid + |y| && r == Merged(s, lo, mid, hi)
    ensures r == p + MergeSeq(x, y) + q
  {
    assert s[..lo] == p;
    assert s[lo..mid] == x;
    assert s[mid..hi] == y;
    assert s[hi..] == q;
    MergeAtIsMergeSeq(s, lo, mid, mid, hi);
  }

  /** One unfolding of the recursion, with the two halves named. */
  lemma MergeSortSeqStep(xs: seq<int>, k: int, l: seq<int>, r: seq<int>)
    requires |xs| > 1 && k == Split(0, |xs|) && l == xs[..k] && r == xs[k..]
    ensures MergeSortSeq(xs) == MergeSeq(MergeSortSeq(l), MergeSortSeq(r))
  {
  }

  /** Sort: MSort over the whole list; the list becomes the recursion's
      result, which is a sorted permutation of the input. */
  method Sort(a: array<int>)
    modifies a
    ensures a[..] == MergeSortSeq(old(a[..]))
    ensures Sorted(a[..]) && multiset(a[..]) == multiset(old(a[..]))
  {
    ghost var s := a[..];
    MSort(a, 0, a.Length - 1);
    WholeSortedSegment(s, a[..]);
    MergeSortSeqSorted(s);
    MergeSortSeqPermutes(s);
  }

  /** Sorting the segment that spans the whole list. */
  lemma WholeSortedSegment(s: seq<int>, r: seq<int>)
    requires r == SortedSegment(s, 0, |s|)
    ensures r == MergeSortSeq(s)
  {
    SortedSegmentSorts(s, 0, |s|);
    Whole(s);
    Bare(r, s[..0], MergeSortSeq(s[0..|s|]), s[|s|..]);
  }

  lemma Whole(s: seq<int>)
    ensures s[0..|s|] == s
  {
  }

  lemma Bare(r: seq<int>, a: seq<int>, m: seq<int>, b: seq<int>)
    requires r == a + m + b && |a| == 0 && |b| == 0
    ensures r == m
  {
  }
}

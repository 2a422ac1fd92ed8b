/** Shared vocabulary for the in-place comparison sorts: what "sorted" means
    and what a permutation of the input determines. The list element type of
    the sorts is modelled as `int`, its CompareTo as integer comparison. */
module SortSpec {

  /** Non-decreasing order between every pair of positions. */
  predicate Sorted(s: seq<int>) {
    forall i, j :: 0 <= i < j < |s| ==> s[i] <= s[j]
  }

  /** Non-decreasing order between neighbours only (the loop test of EvilSort.IsSorted). */
  predicate AdjacentSorted(s: seq<int>) {
    forall i :: 1 <= i < |s| ==> s[i - 1] <= s[i]
  }

  /** `s[lo..hi]` is sorted. */
  predicate SortedRange(s: seq<int>, lo: int, hi: int)
    requires 0 <= lo <= hi <= |s|
  {
    forall i, j :: lo <= i < j < hi ==> s[i] <= s[j]
  }

  /** Every element of `s[..m]` is at most every element of `s[m..]`. */
  predicate Partitioned(s: seq<int>, m: int)
    requires 0 <= m <= |s|
  {
    forall i, j :: 0 <= i < m <= j < |s| ==> s[i] <= s[j]
  }

  /** Exchange of two positions, as the sorts do with a temporary. */
  function Swap(s: seq<int>, i: int, j: int): (r: seq<int>)
    requires 0 <= i < |s| && 0 <= j < |s|
    ensures |r| == |s| && r[i] == s[j] && r[j] == s[i]
    ensures forall k :: 0 <= k < |s| && k != i && k != j ==> r[k] == s[k]
  {
    s[i := s[j]][j := s[i]]
  }

  /** The exchange is a permutation. */
  lemma SwapPermutes(s: seq<int>, i: int, j: int)
    requires 0 <= i < |s| && 0 <= j < |s|
    ensures multiset(Swap(s, i, j)) == multiset(s)
  {
  }

  /** Neighbour order and pairwise order are the same thing. */
  lemma {:induction false} AdjacentSortedIffSorted(s: seq<int>)
    ensures AdjacentSorted(s) <==> Sorted(s)
  {
    if AdjacentSorted(s) {
      forall i, j | 0 <= i < j < |s| ensures s[i] <= s[j] {
        AdjacentChain(s, i, j);
      }
    }
  }

  lemma {:induction false} AdjacentChain(s: seq<int>, i: int, j: int)
    requires AdjacentSorted(s) && 0 <= i <= j < |s|
    ensures s[i] <= s[j]
    decreases j - i
  {
    if i < j {
      AdjacentChain(s, i, j - 1);
    }
  }

  /** Two sorted permutations of one multiset are the same list: so each sort
      that yields a sorted permutation yields exactly what a reference sort
      (such as the framework's Array.Sort) would. */
  lemma {:induction false} SortedPermutationsAreEqual(a: seq<int>, b: seq<int>)
    requires Sorted(a) && Sorted(b) && multiset(a) == multiset(b)
    ensures a == b
    decreases |a|
  {
    assert |b| == |multiset(b)| == |multiset(a)| == |a|;
    if |a| > 0 {
      var x, y := a[0], b[0];
      MinimumIsHead(a, y);
      MinimumIsHead(b, x);
      assert x == y;
      Tail(a);
      Tail(b);
      SortedPermutationsAreEqual(a[1..], b[1..]);
      Cons(a, b);
    }
  }

  /** Lists with equal heads and equal tails are equal. */
  lemma Cons(a: seq<int>, b: seq<int>)
    requires |a| > 0 && |b| > 0 && a[0] == b[0] && a[1..] == b[1..]
    ensures a == b
  {
    assert a == [a[0]] + a[1..] && b == [b[0]] + b[1..];
  }

  /** Dropping the head of a list keeps it sorted and drops one copy of the
      head from its multiset. */
  lemma Tail(s: seq<int>)
    requires |s| > 0
    ensures Sorted(s) ==> Sorted(s[1..])
    ensures multiset(s[1..]) == multiset(s) - multiset{s[0]}
  {
    assert s == [s[0]] + s[1..];
  }

  /** The head of a sorted list is at most each of its elements. */
  lemma MinimumIsHead(s: seq<int>, x: int)
    requires Sorted(s) && x in multiset(s)
    ensures s[0] <= x
  {
    var i :| 0 <= i < |s| && s[i] == x;
  }

  /** A permutation of a list of length zero or one is that list. */
  lemma ShortPermutationIsIdentity(a: seq<int>, b: seq<int>)
    requires |a| <= 1 && multiset(a) == multiset(b)
    ensures a == b
  {
    assert |b| == |multiset(b)| == |multiset(a)| == |a|;
    SortedPermutationsAreEqual(a, b);
  }

  /** A sorted range is a sorted slice. */
  lemma SortedSlice(s: seq<int>, lo: int, hi: int)
    requires 0 <= lo <= hi <= |s|
    ensures SortedRange(s, lo, hi) <==> Sorted(s[lo..hi])
  {
    if Sorted(s[lo..hi]) {
      forall i, j | lo <= i < j < hi ensures s[i] <= s[j] {
        assert s[i] == s[lo..hi][i - lo] && s[j] == s[lo..hi][j - lo];
      }
    }
  }

  /** Splitting a slice splits its multiset. */
  lemma SliceMultiset(s: seq<int>, lo: int, mid: int, hi: int)
    requires 0 <= lo <= mid <= hi <= |s|
    ensures multiset(s[lo..hi]) == multiset(s[lo..mid]) + multiset(s[mid..hi])
  {
    assert s[lo..hi] == s[lo..mid] + s[mid..hi];
  }

  /** `r` is `s` with the segment `[lo..hi - 1]` sorted and nothing outside it
      changed. */
  ghost predicate SortsSegment(s: seq<int>, r: seq<int>, lo: int, hi: int) {
    0 <= lo <= hi <= |s| == |r| &&
    r[..lo] == s[..lo] && r[hi..] == s[hi..] &&
    SortedRange(r, lo, hi) && multiset(r[lo..hi]) == multiset(s[lo..hi])
  }

  lemma ShortSegment(s: seq<int>, lo: int, hi: int)
    requires 0 <= lo <= hi <= |s| && hi <= lo + 1
    ensures SortsSegment(s, s, lo, hi)
  {
  }

  /** Sorting a segment of length at most one changes nothing. */
  lemma ShortSegmentUnchanged(s: seq<int>, r: seq<int>, lo: int, hi: int)
    requires SortsSegment(s, r, lo, hi) && hi <= lo + 1
    ensures r == s
  {
    ShortPermutationIsIdentity(s[lo..hi], r[lo..hi]);
    assert s == s[..lo] + s[lo..hi] + s[hi..];
    assert r == r[..lo] + r[lo..hi] + r[hi..];
  }

  /** Sorting the segment that spans the whole list sorts the list. */
  lemma WholeSegment(s: seq<int>, r: seq<int>)
    requires SortsSegment(s, r, 0, |s|)
    ensures Sorted(r) && multiset(r) == multiset(s)
  {
    assert r[0..|s|] == r && s[0..|s|] == s;
  }
}

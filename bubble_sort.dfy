/** BubbleSort.Sort in place on an int array: one full pass of adjacent
    compare-and-swap per element of the list. */
module BubbleSort {
  import opened SortSpec

  /** After `pass` passes the last `pass` positions hold the `pass` largest
      elements in their final order; after `a.Length` passes the whole array
      is sorted. Only the swap changes the array, so it is a permutation. */
  method Sort(a: array<int>)
    modifies a
    ensures Sorted(a[..])
    ensures multiset(a[..]) == multiset(old(a[..]))
    ensures a.Length <= 1 ==> a[..] == old(a[..])
  {
    var n := a.Length;
    var pass := 0;
    while pass < n
      invariant 0 <= pass <= n
      invariant multiset(a[..]) == multiset(old(a[..]))
      invariant SortedRange(a[..], n - pass, n)
      invariant Partitioned(a[..], n - pass)
    {
      Pass(a, n - pass);
      pass := pass + 1;
    }
    if n <= 1 {
      ShortPermutationIsIdentity(old(a[..]), a[..]);
    }
  }

  /** One pass of the inner loop (j from 0 to Count - 2) when the last
      `a.Length - m` positions already hold the largest elements in order: the
      pass carries the maximum of `a[..m]` to position `m - 1` and performs no
      swap in the finished tail. */
  method Pass(a: array<int>, m: int)
    requires 1 <= m <= a.Length
    requires SortedRange(a[..], m, a.Length) && Partitioned(a[..], m)
    modifies a
    ensures SortedRange(a[..], m - 1, a.Length) && Partitioned(a[..], m - 1)
    ensures multiset(a[..]) == multiset(old(a[..]))
  {
    var n := a.Length;
    ghost var s0 := a[..];
    var j := 0;
    while j < n - 1
      invariant 0 <= j <= n - 1
      invariant multiset(a[..]) == multiset(s0)
      invariant PassInvariant(a[..], j, m)
    {
      Step(a, j, m, s0);
      j := j + 1;
    }
    PassEnd(a[..], m);
  }

  /** One step of the pass keeps the pass invariant and the multiset. */
  method Step(a: array<int>, j: int, m: int, ghost s0: seq<int>)
    requires j + 1 < a.Length
    requires multiset(a[..]) == multiset(s0)
    requires PassInvariant(a[..], j, m)
    modifies a
    ensures multiset(a[..]) == multiset(s0)
    ensures PassInvariant(a[..], j + 1, m)
  {
    ghost var before := a[..];
    if before[j] > before[j + 1] {
      SwapStep(before, j, m);
      SwapPermutes(before, j, j + 1);
    } else {
      KeepStep(before, j, m);
    }
    CompareSwap(a, j, before);
  }

  /** The body of the inner loop: swap `a[j]` and `a[j + 1]` when the first
      is greater. */
  method CompareSwap(a: array<int>, j: int, ghost s: seq<int>)
    requires 0 <= j && j + 1 < a.Length && a[..] == s
    modifies a
    ensures s[j] > s[j + 1] ==> a[..] == Swap(s, j, j + 1)
    ensures s[j] <= s[j + 1] ==> a[..] == s
  {
    if a[j] > a[j + 1] {
      a[j], a[j + 1] := a[j + 1], a[j];
    }
  }

  /** What holds at step `j` of the pass: the tail from `m` is sorted and
      bounds the prefix, and `a[j]` (or, once inside the tail, `a[m - 1]`) is
      the maximum of the prefix seen so far. */
  predicate PassInvariant(s: seq<int>, j: int, m: int) {
    0 <= j < |s| && 1 <= m <= |s| &&
    SortedRange(s, m, |s|) && Partitioned(s, m) &&
    (j < m ==> forall k :: 0 <= k < j ==> s[k] <= s[j]) &&
    (j >= m ==> forall k :: 0 <= k < m ==> s[k] <= s[m - 1])
  }

  /** A swap at `j` happens only inside the unfinished prefix and carries
      the running maximum forward. */
  lemma SwapStep(s: seq<int>, j: int, m: int)
    requires PassInvariant(s, j, m) && j + 1 < |s| && s[j] > s[j + 1]
    ensures PassInvariant(Swap(s, j, j + 1), j + 1, m)
  {
    assert j + 1 < m;
    var t := Swap(s, j, j + 1);
    forall p, q | 0 <= p < m <= q < |s| ensures t[p] <= t[q] {
      assert t[q] == s[q];
      if p == j {
        assert t[p] == s[j + 1];
      } else if p == j + 1 {
        assert t[p] == s[j];
      } else {
        assert t[p] == s[p];
      }
    }
    assert SortedRange(t, m, |t|);
  }

  /** Without a swap the running maximum is `s[j + 1]`; crossing into the
      tail keeps the prefix maximum at `m - 1`. */
  lemma KeepStep(s: seq<int>, j: int, m: int)
    requires PassInvariant(s, j, m) && j + 1 < |s| && s[j] <= s[j + 1]
    ensures PassInvariant(s, j + 1, m)
  {
  }

  /** At the end of the pass the maximum of the prefix sits at `m - 1`. */
  lemma PassEnd(s: seq<int>, m: int)
    requires PassInvariant(s, |s| - 1, m)
    ensures SortedRange(s, m - 1, |s|) && Partitioned(s, m - 1)
  {
  }
}

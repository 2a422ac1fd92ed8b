/** InsertionSort.Sort in place on an int array. */
module InsertionSort {
  import opened SortSpec

  /** Before each outer step `i` the prefix `a[..i]` is sorted and is a
      permutation of the original prefix, and the suffix is untouched. */
  method Sort(a: array<int>)
    modifies a
    ensures Sorted(a[..])
    ensures multiset(a[..]) == multiset(old(a[..]))
    ensures a.Length <= 1 ==> a[..] == old(a[..])
  {
    var n := a.Length;
    var i := 1;
    while i < n
      invariant n == 0 || (1 <= i <= n && Prefix(a[..], old(a[..]), i))
    {
      ghost var s := a[..];
      var j := Place(a, i);
      Step(s, old(a[..]), i, j);
      i := i + 1;
    }
    if n > 0 {
      PrefixDone(a[..], old(a[..]));
    }
    if n <= 1 {
      ShortPermutationIsIdentity(old(a[..]), a[..]);
    }
  }

  /** The outer invariant: `cur[..i]` is a sorted permutation of `orig[..i]`
      and the rest is untouched. */
  predicate Prefix(cur: seq<int>, orig: seq<int>, i: int) {
    0 <= i <= |cur| == |orig| && SortedRange(cur, 0, i) &&
    multiset(cur[..i]) == multiset(orig[..i]) && cur[i..] == orig[i..]
  }

  /** One outer step extends the sorted prefix by one. */
  lemma Step(s: seq<int>, orig: seq<int>, i: int, j: int)
    requires Prefix(s, orig, i) && 0 <= j <= i < |s|
    requires j > 0 ==> s[j - 1] <= s[i]
    requires forall k :: j <= k < i ==> s[k] > s[i]
    ensures Prefix(s[..j] + [s[i]] + s[j..i] + s[i + 1..], orig, i + 1)
  {
    var t := s[..j] + [s[i]] + s[j..i] + s[i + 1..];
    InsertedSorted(s, i, j);
    InsertedPermutes(s, i, j);
    assert t[..i + 1] == s[..j] + [s[i]] + s[j..i];
    assert t[i + 1..] == s[i + 1..];
    assert s[..i + 1] == s[..i] + [s[i]] && orig[..i + 1] == orig[..i] + [orig[i]];
    assert s[i] == orig[i];
  }

  /** A prefix covering everything is a sorted permutation. */
  lemma PrefixDone(cur: seq<int>, orig: seq<int>)
    requires Prefix(cur, orig, |cur|)
    ensures Sorted(cur) && multiset(cur) == multiset(orig)
  {
    assert cur[..|cur|] == cur && orig[..|orig|] == orig;
  }

  /** The inner while loop of step `i`: the elements of the sorted prefix
      strictly greater than `temp = a[i]` shift one place right and `temp`
      lands in the gap at the returned index `j`. Equal elements are not
      shifted, so `temp` lands after them. */
  method Place(a: array<int>, i: int) returns (j: int)
    requires 0 < i < a.Length
    requires SortedRange(a[..], 0, i)
    modifies a
    ensures 0 <= j <= i
    ensures a[..] == old(a[..j]) + [old(a[i])] + old(a[j..i]) + old(a[i + 1..])
    ensures j > 0 ==> old(a[j - 1]) <= old(a[i])
    ensures forall k :: j <= k < i ==> old(a[k]) > old(a[i])
  {
    j := i;
    var temp := a[i];
    while j > 0 && a[j - 1] > temp
      invariant 0 <= j <= i
      invariant forall k :: 0 <= k < j ==> a[k] == old(a[k])
      invariant forall k :: j < k <= i ==> a[k] == old(a[k - 1])
      invariant forall k :: i < k < a.Length ==> a[k] == old(a[k])
      invariant forall k :: j <= k < i ==> old(a[k]) > temp
      invariant temp == old(a[i])
    {
      a[j] := a[j - 1];
      j := j - 1;
    }
    a[j] := temp;
    assert a[..] == old(a[..j]) + [old(a[i])] + old(a[j..i]) + old(a[i + 1..]);
  }

  /** Placing `s[i]` at `j` as `Place` does keeps the prefix sorted. */
  lemma InsertedSorted(s: seq<int>, i: int, j: int)
    requires 0 <= j <= i < |s| && SortedRange(s, 0, i)
    requires j > 0 ==> s[j - 1] <= s[i]
    requires forall k :: j <= k < i ==> s[k] > s[i]
    ensures SortedRange(s[..j] + [s[i]] + s[j..i] + s[i + 1..], 0, i + 1)
  {
    var t := s[..j] + [s[i]] + s[j..i] + s[i + 1..];
    forall p, q | 0 <= p < q < i + 1 ensures t[p] <= t[q] {
      if q < j {
        assert t[p] == s[p] && t[q] == s[q];
      } else if q == j {
        assert t[q] == s[i];
        assert t[p] == s[p];
        assert s[p] <= s[j - 1];
      } else if p < j {
        assert t[p] == s[p] && t[q] == s[q - 1];
      } else if p == j {
        assert t[p] == s[i] && t[q] == s[q - 1];
      } else {
        assert t[p] == s[p - 1] && t[q] == s[q - 1];
      }
    }
  }

  /** Placing `s[i]` at `j` permutes the prefix `s[..i + 1]`. */
  lemma InsertedPermutes(s: seq<int>, i: int, j: int)
    requires 0 <= j <= i < |s|
    ensures multiset(s[..j] + [s[i]] + s[j..i]) == multiset(s[..i + 1])
    ensures multiset(s[..j] + [s[i]] + s[j..i] + s[i + 1..]) == multiset(s)
  {
    assert s[..i + 1] == s[..j] + s[j..i] + [s[i]];
    assert s == s[..i + 1] + s[i + 1..];
  }
}

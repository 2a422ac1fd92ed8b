/** SelectionSort.Sort in place on an int array. */
module SelectionSort {
  import opened SortSpec

  /** After step `i` the prefix `a[..i + 1]` is sorted and no element of it
      exceeds an element after it; each step does at most one swap. */
  method Sort(a: array<int>)
    modifies a
    ensures Sorted(a[..])
    ensures multiset(a[..]) == multiset(old(a[..]))
    ensures a.Length <= 1 ==> a[..] == old(a[..])
  {
    var n := a.Length;
    var i := 0;
    while i < n - 1
      invariant 0 <= i && (n == 0 || i <= n - 1)
      invariant multiset(a[..]) == multiset(old(a[..]))
      invariant i <= n ==> Selected(a[..], i)
    {
      var min := FindMin(a, i);
      ghost var s := a[..];
      SwapSelects(s, i, min);
      SwapPermutes(s, i, min);
      Exchange(a, i, min);
      i := i + 1;
    }
    if n > 0 {
      SelectedDone(a[..]);
    }
    if n <= 1 {
      ShortPermutationIsIdentity(old(a[..]), a[..]);
    }
  }

  /** The inner loop of step `i`: the first index of the minimum of `a[i..]`.
      The comparison is strict, so a later equal element does not replace an
      earlier one. */
  method FindMin(a: array<int>, i: int) returns (min: int)
    requires 0 <= i < a.Length
    ensures i <= min < a.Length
    ensures forall k :: i <= k < a.Length ==> a[min] <= a[k]
    ensures forall k :: i <= k < min ==> a[k] > a[min]
  {
    min := i;
    var j := i + 1;
    while j < a.Length
      invariant i <= min < j <= a.Length
      invariant forall k :: i <= k < j ==> a[min] <= a[k]
      invariant forall k :: i <= k < min ==> a[k] > a[min]
    {
      if a[j] < a[min] {
        min := j;
      }
      j := j + 1;
    }
  }

  /** The swap at the end of step `i`, skipped when the minimum is already
      in place. */
  method Exchange(a: array<int>, i: int, min: int)
    requires 0 <= i <= min < a.Length
    modifies a
    ensures a[..] == Swap(old(a[..]), i, min)
  {
    if min != i {
      a[i], a[min] := a[min], a[i];
    }
  }

  /** The outer invariant: `s[..i]` is sorted and bounds the rest. */
  predicate Selected(s: seq<int>, i: int) {
    0 <= i <= |s| && SortedRange(s, 0, i) && Partitioned(s, i)
  }

  /** Moving the minimum of `s[i..]` to `i` extends the selected prefix. */
  lemma SwapSelects(s: seq<int>, i: int, min: int)
    requires Selected(s, i) && i <= min < |s|
    requires forall k :: i <= k < |s| ==> s[min] <= s[k]
    ensures Selected(Swap(s, i, min), i + 1)
  {
    var t := Swap(s, i, min);
    forall p, q | 0 <= p < i + 1 <= q < |s| ensures t[p] <= t[q] {
      if p < i {
        assert t[p] == s[p];
        assert t[q] == s[q] || t[q] == s[i];
      } else {
        assert t[p] == s[min];
        assert t[q] == s[q] || t[q] == s[i];
      }
    }
    forall p, q | 0 <= p < q < i + 1 ensures t[p] <= t[q] {
      assert t[p] == s[p];
      if q < i {
        assert t[q] == s[q];
      } else {
        assert t[q] == s[min];
      }
    }
  }

  /** When only the last position remains the array is sorted. */
  lemma SelectedDone(s: seq<int>)
    requires |s| > 0 && Selected(s, |s| - 1)
    ensures Sorted(s)
  {
  }
}

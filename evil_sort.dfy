/** EvilSort.Sort: RecSort moves the elements of `first` one at a time into
    every position of `second`, and copies `second` into `result` whenever
    `first` is empty and `second` is sorted. Sort calls it with the list as
    both `first` and `result`, so the top-level loop reads a list that the
    recursive calls may already have overwritten. */
module EvilSort {
  import opened SortSpec

  /** Sort: RecSort(values, new T[0], values). */
  method Sort(a: array<int>)
    modifies a
    ensures Sorted(a[..]) && multiset(a[..]) == multiset(old(a[..]))
  {
    var empty := new int[0];
    RecSort(a, empty, a);
    assert empty[..] == [];
  }

  /** `r` is the sorted list of the elements `m`. */
  ghost predicate Done(r: seq<int>, m: multiset<int>) {
    Sorted(r) && multiset(r) == m
  }

  /** RecSort(first, second, result). When `second` is sorted some branch of
      the search reaches a sorted arrangement of all the elements, and every
      write to `result` writes that one list; when `second` is not sorted no
      branch ever writes. `first` is `result` only at the top level, where
      `second` is empty. */
  method RecSort(first: array<int>, second: array<int>, result: array<int>)
    requires first.Length + second.Length == result.Length
    requires second != result
    requires first == result ==> second.Length == 0
    modifies result
    ensures Sorted(old(second[..])) ==> Done(result[..], old(multiset(first[..]) + multiset(second[..])))
    ensures !Sorted(old(second[..])) ==> result[..] == old(result[..])
    decreases first.Length, 1
  {
    var sortedSecond := false;
    if first.Length == 0 {
      sortedSecond := IsSorted(second);
    }
    if sortedSecond {
      for i := 0 to second.Length
        invariant forall k :: 0 <= k < i ==> result[k] == second[k]
      {
        result[i] := second[i];
      }
      assert result[..] == second[..];
    } else {
      ghost var m := multiset(first[..]) + multiset(second[..]);
      for i := 0 to first.Length
        invariant first != result ==> first[..] == old(first[..])
        invariant multiset(first[..]) + multiset(second[..]) == m
        invariant !Sorted(second[..]) ==> result[..] == old(result[..])
        invariant Sorted(second[..]) && i > 0 ==> Done(result[..], m)
      {
        TryPositions(first, second, result, i, m);
      }
    }
  }

  /** The `j` loop of RecSort for one `i`: `first[i]` is moved into each of
      the `|second| + 1` positions of `second` in turn. */
  method TryPositions(first: array<int>, second: array<int>, result: array<int>, i: int, ghost m: multiset<int>)
    requires first.Length + second.Length == result.Length
    requires second != result
    requires first == result ==> second.Length == 0
    requires 0 <= i < first.Length
    requires multiset(first[..]) + multiset(second[..]) == m
    requires Sorted(second[..]) && i > 0 ==> Done(result[..], m)
    modifies result
    ensures first != result ==> first[..] == old(first[..])
    ensures multiset(first[..]) + multiset(second[..]) == m
    ensures !Sorted(second[..]) ==> result[..] == old(result[..])
    ensures Sorted(second[..]) ==> Done(result[..], m)
    decreases first.Length, 0
  {
    ghost var x := first[i];
    ghost var k := InsertPos(second[..], x);
    InsertPosBounds(second[..], x);
    var j := 0;
    while j <= second.Length
      invariant 0 <= j <= second.Length + 1
      invariant first != result ==> first[..] == old(first[..])
      invariant j <= k ==> first[..] == old(first[..])
      invariant multiset(first[..]) + multiset(second[..]) == m
      invariant !Sorted(second[..]) ==> result[..] == old(result[..])
      invariant Sorted(second[..]) && (j > k || i > 0) ==> Done(result[..], m)
    {
      var t1 := Without(first, i);
      var t2 := InsertAt(second, first, i, j);
      SplitPermutes(first[..], second[..], i, j);
      if Sorted(second[..]) && j == k {
        InsertAtPosSorted(second[..], x);
      }
      if !Sorted(second[..]) {
        InsertKeepsUnsorted(second[..], first[i], j);
      }
      RecSort(t1, t2, result);
      j := j + 1;
    }
  }

  /** The first loop over `k`: `first` without its element `i`. */
  method Without(first: array<int>, i: int) returns (t1: array<int>)
    requires 0 <= i < first.Length
    ensures fresh(t1) && t1[..] == first[..i] + first[i + 1..]
  {
    t1 := new int[first.Length - 1];
    var k := 0;
    while k < t1.Length
      invariant 0 <= k <= t1.Length
      invariant forall p :: 0 <= p < k && p < i ==> t1[p] == first[p]
      invariant forall p :: i <= p < k ==> t1[p] == first[p + 1]
    {
      if k < i {
        t1[k] := first[k];
      } else {
        t1[k] := first[k + 1];
      }
      k := k + 1;
    }
    assert forall p :: 0 <= p < t1.Length ==> t1[..][p] == (first[..i] + first[i + 1..])[p];
  }

  /** The second loop over `k`: `second` with `first[i]` inserted at `j`. */
  method InsertAt(second: array<int>, first: array<int>, i: int, j: int) returns (t2: array<int>)
    requires 0 <= i < first.Length && 0 <= j <= second.Length
    ensures fresh(t2) && t2[..] == second[..j] + [first[i]] + second[j..]
  {
    t2 := new int[second.Length + 1];
    var k := 0;
    while k < t2.Length
      invariant 0 <= k <= t2.Length
      invariant forall p :: 0 <= p < k && p < j ==> t2[p] == second[p]
      invariant j < k ==> t2[j] == first[i]
      invariant forall p :: j < p < k ==> t2[p] == second[p - 1]
    {
      if k < j {
        t2[k] := second[k];
      } else if k == j {
        t2[k] := first[i];
      } else {
        t2[k] := second[k - 1];
      }
      k := k + 1;
    }
    assert forall p :: 0 <= p < t2.Length ==> t2[..][p] == (second[..j] + [first[i]] + second[j..])[p];
  }

  /** IsSorted(values): no element is smaller than its predecessor, which is
      to say the list is sorted. */
  method IsSorted(values: array<int>) returns (b: bool)
    ensures b <==> Sorted(values[..])
  {
    AdjacentSortedIffSorted(values[..]);
    var i := 1;
    while i < values.Length
      invariant 1 <= i <= values.Length || values.Length == 0
      invariant forall k :: 1 <= k < i && k < values.Length ==> values[k - 1] <= values[k]
    {
      if values[i] < values[i - 1] {
        return false;
      }
      i := i + 1;
    }
    return true;
  }

  /** Moving one element from the first list into the second keeps the
      combined multiset. */
  lemma SplitPermutes(f: seq<int>, s: seq<int>, i: int, j: int)
    requires 0 <= i < |f| && 0 <= j <= |s|
    ensures multiset(f[..i] + f[i + 1..]) + multiset(s[..j] + [f[i]] + s[j..]) == multiset(f) + multiset(s)
  {
    assert f == f[..i] + [f[i]] + f[i + 1..];
    assert s == s[..j] + s[j..];
  }

  /** The index before which every element of `s` is below `x`: the first
      element at least `x`, or `|s|`. */
  ghost function InsertPos(s: seq<int>, x: int): (k: nat)
    ensures k <= |s|
  {
    if s == [] || x <= s[0] then 0 else 1 + InsertPos(s[1..], x)
  }

  lemma {:induction false} InsertPosBounds(s: seq<int>, x: int)
    ensures forall p :: 0 <= p < InsertPos(s, x) ==> s[p] < x
    ensures InsertPos(s, x) < |s| ==> x <= s[InsertPos(s, x)]
  {
    if s != [] && x > s[0] {
      InsertPosBounds(s[1..], x);
      forall p | 0 <= p < InsertPos(s, x) ensures s[p] < x {
        if p > 0 {
          assert s[p] == s[1..][p - 1];
        }
      }
    }
  }

  /** Inserting at that index keeps a sorted list sorted. */
  lemma InsertAtPosSorted(s: seq<int>, x: int)
    requires Sorted(s)
    ensures Sorted(s[..InsertPos(s, x)] + [x] + s[InsertPos(s, x)..])
  {
    InsertPosBounds(s, x);
    var k := InsertPos(s, x);
    var t := s[..k] + [x] + s[k..];
    forall p, q | 0 <= p < q < |t| ensures t[p] <= t[q] {
      if q < k {
        assert t[p] == s[p] && t[q] == s[q];
      } else if q == k {
        assert t[p] == s[p];
      } else if p < k {
        assert t[p] == s[p] && t[q] == s[q - 1];
      } else if p == k {
        assert t[q] == s[q - 1];
      } else {
        assert t[p] == s[p - 1] && t[q] == s[q - 1];
      }
    }
  }

  /** An inversion of `s` survives any insertion. */
  lemma InsertKeepsUnsorted(s: seq<int>, x: int, j: int)
    requires 0 <= j <= |s| && !Sorted(s)
    ensures !Sorted(s[..j] + [x] + s[j..])
  {
    var p, q :| 0 <= p < q < |s| && s[p] > s[q];
    var t := s[..j] + [x] + s[j..];
    var p' := if p < j then p else p + 1;
    var q' := if q < j then q else q + 1;
    assert t[p'] == s[p] && t[q'] == s[q];
  }
}

/** ShellSort.Sort in place on an int array, with the starting gap as a
    parameter (3 when the caller gives none) and Shell's halving schedule. */
module ShellSort {
  import opened SortSpec

  /** The gap a caller gets when it passes none. */
  const DefaultGap := 3

  /** Every element is at least the one `gap` places before it. */
  predicate GapSorted(s: seq<int>, gap: int)
    requires gap > 0
  {
    forall k :: gap <= k < |s| ==> s[k - gap] <= s[k]
  }

  /** The gap pairs below `hi` hold. */
  predicate GapSortedTo(s: seq<int>, gap: int, hi: int)
    requires gap > 0 && hi <= |s|
  {
    forall k :: gap <= k < hi ==> s[k - gap] <= s[k]
  }

  /** The gap update at the end of each pass. */
  function NextGap(gap: int): (r: int)
    ensures gap > 0 ==> 0 <= r < gap
    ensures gap > 0 ==> (r == 0 <==> gap == 1)
  {
    if gap / 2 != 0 then gap / 2
    else if gap == 1 then 0
    else 1
  }

  /** The gaps of the passes the loop runs from a starting gap. */
  function Passes(gap: int): (r: seq<int>)
    ensures gap <= 0 <==> r == []
    ensures gap > 0 ==> r[0] == gap && r[|r| - 1] == 1
    ensures forall k :: 0 <= k < |r| ==> r[k] > 0
    ensures forall k :: 0 < k < |r| ==> r[k] < r[k - 1]
    decreases if gap > 0 then gap else 0
  {
    if gap <= 0 then [] else [gap] + Passes(NextGap(gap))
  }

  /** The default start runs a pass with gap 3 and then one with gap 1. */
  lemma DefaultPasses()
    ensures Passes(DefaultGap) == [3, 1]
  {
    assert NextGap(3) == 1 && NextGap(1) == 0;
    assert Passes(0) == [];
    assert Passes(1) == [1];
  }

  /** Sorted by a gap of 1 is sorted. */
  lemma GapOneIsSorted(s: seq<int>)
    ensures GapSorted(s, 1) <==> Sorted(s)
  {
    AdjacentSortedIffSorted(s);
  }

  /** A starting gap of zero or less runs no pass and leaves the array as it
      was; any positive starting gap ends with the gap-1 pass, so the array is
      sorted. */
  method Sort(a: array<int>, gap0: int)
    modifies a
    ensures gap0 <= 0 ==> a[..] == old(a[..])
    ensures gap0 > 0 ==> Sorted(a[..])
    ensures multiset(a[..]) == multiset(old(a[..]))
  {
    var gap := gap0;
    ghost var done: seq<int> := [];
    while gap > 0
      invariant done + Passes(gap) == Passes(gap0)
      invariant multiset(a[..]) == multiset(old(a[..]))
      invariant gap0 <= 0 ==> a[..] == old(a[..])
      invariant gap0 > 0 ==> gap >= 0
      invariant gap0 > 0 && gap == 0 ==> Sorted(a[..])
      decreases if gap > 0 then gap else 0
    {
      GapPass(a, gap);
      if gap == 1 {
        GapOneIsSorted(a[..]);
      }
      done := done + [gap];
      gap := NextGap(gap);
    }
  }

  /** One pass of the `for` loop over every index with gap `gap`: each
      element is moved down its gap-chain past the elements strictly greater
      than it. */
  method GapPass(a: array<int>, gap: int)
    requires gap > 0
    modifies a
    ensures GapSorted(a[..], gap)
    ensures multiset(a[..]) == multiset(old(a[..]))
  {
    var i := 0;
    while i < a.Length
      invariant 0 <= i <= a.Length
      invariant multiset(a[..]) == multiset(old(a[..]))
      invariant GapSortedTo(a[..], gap, i)
    {
      GapInsert(a, gap, i);
      i := i + 1;
    }
  }

  /** The `for` loop body for index `i`: `temp = a[i]` moves towards the
      front in steps of `gap` while the element `gap` places before it is
      larger, then drops into the hole. */
  method GapInsert(a: array<int>, gap: int, i: int)
    requires gap > 0 && 0 <= i < a.Length
    requires GapSortedTo(a[..], gap, i)
    modifies a
    ensures GapSortedTo(a[..], gap, i + 1)
    ensures multiset(a[..]) == multiset(old(a[..]))
  {
    var temp := a[i];
    ghost var s0 := a[..];
    assert s0[i := temp] == s0;
    var j := ShiftRun(a, gap, i, temp, s0);
    HoleClose(a[..], gap, i, j, temp);
    Drop(a, j, temp);
  }

  /** The shifting loop itself: the hole starts at `i` and moves down while
      the element `gap` places below it is greater than `temp`. */
  method ShiftRun(a: array<int>, gap: int, i: int, temp: int, ghost s0: seq<int>) returns (j: int)
    requires HoleInvariant(a[..], gap, i, i, temp)
    requires multiset(a[..][i := temp]) == multiset(s0)
    modifies a
    ensures 0 <= j <= i && HoleInvariant(a[..], gap, i, j, temp) && (j >= gap ==> a[j - gap] <= temp)
    ensures multiset(a[..][j := temp]) == multiset(s0)
  {
    j := i;
    while j >= gap && a[j - gap] > temp
      invariant 0 <= j <= i
      invariant HoleInvariant(a[..], gap, i, j, temp)
      invariant multiset(a[..][j := temp]) == multiset(s0)
      decreases j
    {
      Shift(a, gap, i, j, temp, s0, a[..]);
      j := j - gap;
    }
  }

  /** The end of the shifting loop: `temp` drops into the hole. */
  method Drop(a: array<int>, j: int, temp: int)
    requires 0 <= j < a.Length
    modifies a
    ensures a[..] == old(a[..])[j := temp]
  {
    a[j] := temp;
  }

  /** One step of the shifting loop: the element `gap` places below the hole
      moves up into it, and the hole moves down by `gap`. */
  method Shift(a: array<int>, gap: int, i: int, j: int, temp: int, ghost s0: seq<int>, ghost s: seq<int>)
    requires a[..] == s
    requires HoleInvariant(s, gap, i, j, temp) && j >= gap && s[j - gap] > temp
    requires multiset(s[j := temp]) == multiset(s0)
    modifies a
    ensures HoleInvariant(a[..], gap, i, j - gap, temp)
    ensures multiset(a[..][j - gap := temp]) == multiset(s0)
    ensures a[..] == s[j := s[j - gap]]
  {
    HoleStep(s, gap, i, j, temp);
    HoleStepPermutes(s, j, gap, temp);
    a[j] := a[j - gap];
    assert a[..] == s[j := s[j - gap]];
  }

  /** The shifting loop's invariant with the hole at `j`: every gap pair up
      to `i` holds except the two that touch the hole, the pair straddling the
      hole holds, and the element above the hole (which the hole duplicates)
      is greater than `temp`. */
  predicate HoleInvariant(s: seq<int>, gap: int, i: int, j: int, temp: int) {
    gap > 0 && 0 <= j <= i < |s| &&
    (forall k :: gap <= k <= i && k != j && k != j + gap ==> s[k - gap] <= s[k]) &&
    (j >= gap && j + gap <= i ==> s[j - gap] <= s[j + gap]) &&
    (j < i ==> j + gap <= i && s[j + gap] > temp && s[j] == s[j + gap])
  }

  /** One shift moves the hole down by `gap`. */
  lemma HoleStep(s: seq<int>, gap: int, i: int, j: int, temp: int)
    requires HoleInvariant(s, gap, i, j, temp) && j >= gap && s[j - gap] > temp
    ensures HoleInvariant(s[j := s[j - gap]], gap, i, j - gap, temp)
  {
    var t := s[j := s[j - gap]];
    forall k | gap <= k <= i && k != j - gap && k != j ensures t[k - gap] <= t[k] {
      if k == j + gap {
        assert t[k - gap] == s[j - gap] && t[k] == s[j + gap];
      } else {
        assert t[k - gap] == s[k - gap] && t[k] == s[k];
      }
    }
  }

  /** Moving the hole down by `gap` exchanges two positions of the list with
      `temp` in the hole. */
  lemma HoleStepPermutes(s: seq<int>, j: int, gap: int, temp: int)
    requires 0 <= j - gap < j < |s|
    ensures multiset(s[j := s[j - gap]][j - gap := temp]) == multiset(s[j := temp])
  {
    assert s[j := s[j - gap]][j - gap := temp] == Swap(s[j := temp], j - gap, j);
    SwapPermutes(s[j := temp], j - gap, j);
  }

  /** Dropping `temp` into the hole restores every gap pair up to `i`. */
  lemma HoleClose(s: seq<int>, gap: int, i: int, j: int, temp: int)
    requires HoleInvariant(s, gap, i, j, temp) && (j >= gap ==> s[j - gap] <= temp)
    ensures GapSortedTo(s[j := temp], gap, i + 1)
  {
  }
}

/** The program's own quicksort: first element of the segment as pivot, a
    single cursor that scans towards the pivot from alternating ends and
    swaps with it, then recursion on the two sides of the settled pivot. */
module Sorting {

  predicate Sorted(s: seq<int>) {
    forall i, j :: 0 <= i < j < |s| ==> s[i] <= s[j]
  }

  predicate AllAtMost(s: seq<int>, p: int) {
    forall k :: 0 <= k < |s| ==> s[k] <= p
  }

  predicate AllAtLeast(s: seq<int>, p: int) {
    forall k :: 0 <= k < |s| ==> p <= s[k]
  }

  /** A bound on every element survives any rearrangement of the elements. */
  lemma BoundsPermutation(s: seq<int>, t: seq<int>, p: int)
    requires multiset(s) == multiset(t)
    ensures AllAtMost(s, p) ==> AllAtMost(t, p)
    ensures AllAtLeast(s, p) ==> AllAtLeast(t, p)
  {
    forall k | 0 <= k < |t| ensures t[k] in s {
      assert t[k] in multiset(t);
    }
  }

  /** A sorted sequence is determined by its elements: two sorted
      rearrangements of the same values are equal. */
  lemma {:induction false} SortedPermutationUnique(s: seq<int>, t: seq<int>)
    requires Sorted(s) && Sorted(t) && multiset(s) == multiset(t)
    ensures s == t
  {
    if s == [] || t == [] {
      assert |s| == |multiset(s)| == |multiset(t)| == |t|;
    } else {
      SortedHeadIsLeast(s, t[0]);
      SortedHeadIsLeast(t, s[0]);
      assert s[0] == t[0];
      DropHead(s);
      DropHead(t);
      assert multiset(s[1..]) == multiset(t[1..]);
      SortedPermutationUnique(s[1..], t[1..]);
    }
  }

  /** Removing the first element of a sorted sequence. */
  lemma DropHead(s: seq<int>)
    requires s != [] && Sorted(s)
    ensures s == [s[0]] + s[1..] && Sorted(s[1..])
    ensures multiset(s[1..]) == multiset(s) - multiset{s[0]}
  {
    assert s == [s[0]] + s[1..];
  }

  lemma SortedHeadIsLeast(s: seq<int>, x: int)
    requires Sorted(s) && x in multiset(s)
    ensures s[0] <= x
  {
    var i :| 0 <= i < |s| && s[i] == x;
  }

  /** Exchanges a[i] and a[j] through a temporary, as quick_sort does. */
  method Swap(a: array<int>, i: int, j: int)
    requires 0 <= i < a.Length && 0 <= j < a.Length
    modifies a
    ensures a[i] == old(a[j]) && a[j] == old(a[i])
    ensures forall k :: 0 <= k < a.Length && k != i && k != j ==> a[k] == old(a[k])
    ensures multiset(a[..]) == multiset(old(a[..]))
  {
    var temp := a[i];
    a[i] := a[j];
    a[j] := temp;
  }

  /** Rearranging only inside [lo, hi) keeps the multiset of that segment. */
  lemma SegmentMultiset(s: seq<int>, t: seq<int>, lo: int, hi: int)
    requires 0 <= lo <= hi <= |s|
    requires SameOutside(s, t, lo, hi) && multiset(s) == multiset(t)
    ensures multiset(s[lo..hi]) == multiset(t[lo..hi])
  {
    var before, after := s[..lo], s[hi..];
    assert s == before + s[lo..hi] + after;
    assert t == before + t[lo..hi] + after;
    MultisetCancel(before, s[lo..hi], t[lo..hi], after);
  }

  lemma MultisetCancel(b: seq<int>, x: seq<int>, y: seq<int>, c: seq<int>)
    requires multiset(b + x + c) == multiset(b + y + c)
    ensures multiset(x) == multiset(y)
  {
    assert multiset(b + x + c) == multiset(b) + multiset(x) + multiset(c);
    assert multiset(b + y + c) == multiset(b) + multiset(y) + multiset(c);
    forall v ensures multiset(x)[v] == multiset(y)[v] {
      assert multiset(b + x + c)[v] == multiset(b + y + c)[v];
    }
  }

  /** The partition loop of quick_sort on arr[start .. start + size). The pivot
      value (first element of the segment) moves with every swap; `side` says
      whether the cursor scans down from the right (0) or up from the left (1).
      On exit the pivot is settled: nothing larger before it, nothing smaller
      after it. */
  method Partition(a: array<int>, size: int, start: int) returns (pivot: int)
    requires 0 <= start && 1 <= size && start + size <= a.Length
    modifies a
    ensures start <= pivot < start + size
    ensures a[pivot] == old(a[start])
    ensures forall k :: start <= k < pivot ==> a[k] <= a[pivot]
    ensures forall k :: pivot < k < start + size ==> a[pivot] <= a[k]
    ensures multiset(a[..]) == multiset(old(a[..]))
    ensures SameOutside(old(a[..]), a[..], start, start + size)
  {
    pivot := start;
    var compare := size + start - 1;
    var side := 0;
    ghost var p := a[start];
    while compare != pivot
      invariant start <= pivot < start + size && start <= compare < start + size
      invariant side == 0 || side == 1
      invariant side == 0 ==> pivot <= compare
      invariant side == 1 ==> compare <= pivot
      invariant a[pivot] == p
      invariant forall k :: start <= k < (if side == 0 then pivot else compare) ==> a[k] <= p
      invariant forall k :: (if side == 0 then compare else pivot) < k < start + size ==> p <= a[k]
      invariant multiset(a[..]) == multiset(old(a[..]))
      invariant forall k :: 0 <= k < a.Length && !(start <= k < start + size) ==> a[k] == old(a[k])
      decreases if side == 0 then compare - pivot else pivot - compare
    {
      if side == 0 {
        if a[pivot] > a[compare] {
          Swap(a, pivot, compare);
          pivot, compare := compare, pivot + 1;
          side := 1;
        } else {
          compare := compare - 1;
        }
      } else {
        if a[pivot] < a[compare] {
          Swap(a, pivot, compare);
          pivot, compare := compare, pivot - 1;
          side := 0;
        } else {
          compare := compare + 1;
        }
      }
    }
  }

  /** s and t differ at most inside [lo, hi). */
  predicate SameOutside(s: seq<int>, t: seq<int>, lo: int, hi: int) {
    |s| == |t| && forall k :: 0 <= k < |s| && !(lo <= k < hi) ==> s[k] == t[k]
  }

  /** s is in ascending order between positions lo and hi. */
  predicate SortedBetween(s: seq<int>, lo: int, hi: int)
    requires 0 <= lo <= hi <= |s|
  {
    forall i, j :: lo <= i < j < hi ==> s[i] <= s[j]
  }

  /** The recursive step of quick_sort on whole-array snapshots: s0 is the
      array after partitioning [lo, hi) around position pv, s1 after the left
      side [lo, pv) was sorted, s2 after the right side (pv, hi) was sorted. */
  lemma CombineSortedSides(s0: seq<int>, s1: seq<int>, s2: seq<int>, lo: int, pv: int, hi: int)
    requires 0 <= lo <= pv < hi <= |s0|
    requires forall k :: lo <= k < pv ==> s0[k] <= s0[pv]
    requires forall k :: pv < k < hi ==> s0[pv] <= s0[k]
    requires SameOutside(s0, s1, lo, pv) && multiset(s1) == multiset(s0) && SortedBetween(s1, lo, pv)
    requires SameOutside(s1, s2, pv + 1, hi) && multiset(s2) == multiset(s1) && SortedBetween(s2, pv + 1, hi)
    ensures SortedBetween(s2, lo, hi)
    ensures SameOutside(s0, s2, lo, hi)
  {
    var p := s0[pv];
    SegmentMultiset(s0, s1, lo, pv);
    BoundsPermutation(s0[lo..pv], s1[lo..pv], p);
    assert s2[lo..pv] == s1[lo..pv];
    assert AllAtMost(s2[lo..pv], p);
    SegmentMultiset(s1, s2, pv + 1, hi);
    assert s1[pv + 1..hi] == s0[pv + 1..hi];
    BoundsPermutation(s0[pv + 1..hi], s2[pv + 1..hi], p);
    assert AllAtLeast(s2[pv + 1..hi], p);
    assert s2[pv] == p;
    forall i, j | lo <= i < j < hi ensures s2[i] <= s2[j] {
      if j < pv {
        assert s2[i] == s1[i] && s2[j] == s1[j];
      } else if pv < i {
      } else {
        assert s2[i] <= p <= s2[j] by {
          assert i < pv ==> s2[i] == s2[lo..pv][i - lo];
          assert pv < j ==> s2[j] == s2[pv + 1..hi][j - pv - 1];
        }
      }
    }
  }

  /** quick_sort(arr, size, start): sorts arr[start .. start + size) in place,
      rearranging the array's values and touching nothing outside the
      segment. The sides of the settled pivot are sorted only when they hold
      more than one element. */
  method QuickSort(a: array<int>, size: int, start: int)
    requires 0 <= start && 1 <= size && start + size <= a.Length
    modifies a
    ensures SortedBetween(a[..], start, start + size)
    ensures multiset(a[..]) == multiset(old(a[..]))
    ensures SameOutside(old(a[..]), a[..], start, start + size)
    decreases size
  {
    var pivot := Partition(a, size, start);
    ghost var parted := a[..];
    if pivot - start > 1 {
      QuickSort(a, pivot - start, start);
    }
    ghost var leftDone := a[..];
    if size + start - pivot - 1 > 1 {
      QuickSort(a, size + start - pivot - 1, pivot + 1);
    }
    CombineSortedSides(parted, leftDone, a[..], start, pivot, start + size);
  }

  /** Sorting is idempotent: any array state that QuickSort's contract allows
      for a segment that is already in order (sorted, the same values, nothing
      outside the segment changed) is exactly the state it started from. */
  lemma SortedInputUnchanged(s: seq<int>, t: seq<int>, lo: int, hi: int)
    requires 0 <= lo <= hi <= |s|
    requires SameOutside(s, t, lo, hi) && multiset(s) == multiset(t)
    requires SortedBetween(s, lo, hi) && SortedBetween(t, lo, hi)
    ensures s == t
  {
    SegmentMultiset(s, t, lo, hi);
    SortedPermutationUnique(s[lo..hi], t[lo..hi]);
    assert s == s[..lo] + s[lo..hi] + s[hi..];
    assert t == t[..lo] + t[lo..hi] + t[hi..];
  }
}

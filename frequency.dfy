/** The per-value tally of every number entered during a session, and the
    selection of the values to report from it. */
module Frequency {
  import opened Validation

  /** Total of all counts in a table. */
  function Sum(s: seq<int>): (total: int) {
    if s == [] then 0 else Sum(s[..|s| - 1]) + s[|s| - 1]
  }

  /** A table of zeros totals zero. */
  lemma {:induction false} SumZeros(s: seq<int>)
    requires forall k :: 0 <= k < |s| ==> s[k] == 0
    ensures Sum(s) == 0
  {
    if s != [] {
      SumZeros(s[..|s| - 1]);
    }
  }

  /** Bumping one cell of a table raises its total by exactly one. */
  lemma {:induction false} SumIncrement(s: seq<int>, k: int)
    requires 0 <= k < |s|
    ensures Sum(s[k := s[k] + 1]) == Sum(s) + 1
  {
    var t := s[k := s[k] + 1];
    var n := |s| - 1;
    if k == n {
      assert t[..n] == s[..n];
    } else {
      assert t[..n] == s[..n][k := s[k] + 1];
      SumIncrement(s[..n], k);
    }
  }

  /** update_frequency: each entered value v bumps the cell v - 1. Every
      cell rises by the number of times its value occurs in the entry, so the
      total rises by the length of the entry. */
  method UpdateFrequency(freq: array<int>, nums: seq<int>)
    requires freq.Length == LottoMax && AllInRange(nums)
    modifies freq
    ensures forall v :: 1 <= v <= LottoMax ==> freq[v - 1] == old(freq[v - 1]) + multiset(nums)[v]
    ensures forall k :: 0 <= k < freq.Length && k + 1 !in nums ==> freq[k] == old(freq[k])
    ensures Sum(freq[..]) == Sum(old(freq[..])) + |nums|
  {
    for i := 0 to |nums|
      invariant forall v :: 1 <= v <= LottoMax ==> freq[v - 1] == old(freq[v - 1]) + multiset(nums[..i])[v]
      invariant Sum(freq[..]) == Sum(old(freq[..])) + i
    {
      ghost var before := freq[..];
      var cell := nums[i] - 1;
      freq[cell] := freq[cell] + 1;
      assert freq[..] == before[cell := before[cell] + 1];
      SumIncrement(before, cell);
      assert nums[..i + 1] == nums[..i] + [nums[i]];
    }
    assert nums[..|nums|] == nums;
    forall k | 0 <= k < freq.Length && k + 1 !in nums ensures freq[k] == old(freq[k]) {
      assert multiset(nums)[k + 1] == 0;
      assert freq[(k + 1) - 1] == old(freq[(k + 1) - 1]) + multiset(nums)[k + 1];
    }
  }

  /** In a valid entry every value occurs at most once, so each cell that
      update_frequency touches rises by exactly one. */
  lemma DistinctOccursOnce(nums: seq<int>, v: int)
    requires Distinct(nums)
    ensures multiset(nums)[v] == if v in nums then 1 else 0
  {
    DistinctIffSingleOccurrences(nums);
    assert v in nums <==> v in multiset(nums);
  }

  /** counts lists exactly the pairs (value, count) of table whose count is
      not zero, value v standing for cell v - 1, in ascending order of value. */
  predicate NonZeroPairs(table: seq<int>, counts: seq<(int, int)>) {
    (forall e :: e in counts ==> 1 <= e.0 <= |table| && e.1 == table[e.0 - 1] && e.1 != 0) &&
    (forall j :: 0 <= j < |table| && table[j] != 0 ==> (j + 1, table[j]) in counts) &&
    (forall m, n :: 0 <= m < n < |counts| ==> counts[m].0 < counts[n].0)
  }

  /** The selection of print_frequency: the pairs (value, count) of every
      value whose count is not zero, in ascending order of value. */
  method FrequencyReport(freq: array<int>) returns (report: seq<(int, int)>)
    ensures NonZeroPairs(freq[..], report)
  {
    report := [];
    for i := 0 to freq.Length
      invariant forall e :: e in report ==> 1 <= e.0 <= i && e.1 == freq[e.0 - 1] && e.1 != 0
      invariant forall k :: 0 <= k < i && freq[k] != 0 ==> (k + 1, freq[k]) in report
      invariant forall m, n :: 0 <= m < n < |report| ==> report[m].0 < report[n].0
    {
      if freq[i] != 0 {
        report := report + [(i + 1, freq[i])];
      }
    }
  }
}

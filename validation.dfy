/** Range and uniqueness checks on a player's numbers, and the retry loop
    that reads numbers until a checked set is obtained. */
module Validation {

  /** How many numbers a player chooses (SIZE). */
  const Size: nat := 6
  /** The largest number a player may choose (LOTTO_MAX); the smallest is 1. */
  const LottoMax: nat := 42

  predicate InRange(v: int) {
    1 <= v <= LottoMax
  }

  predicate AllInRange(nums: seq<int>) {
    forall i :: 0 <= i < |nums| ==> InRange(nums[i])
  }

  /** No two positions hold the same value. */
  predicate Distinct(nums: seq<int>) {
    forall i, j :: 0 <= i < j < |nums| ==> nums[i] != nums[j]
  }

  /** What validate_numbers accepts: every value in 1..42, no value twice. */
  predicate ValidEntry(nums: seq<int>) {
    AllInRange(nums) && Distinct(nums)
  }

  /** The nested loop of validate_numbers: the outer loop rejects a value out
      of range, the inner loop rejects a value equal to one further on. */
  method ValidateNumbers(nums: seq<int>) returns (valid: bool)
    ensures valid <==> ValidEntry(nums)
  {
    var i := 0;
    while i < |nums|
      invariant 0 <= i <= |nums|
      invariant forall k :: 0 <= k < i ==> InRange(nums[k])
      invariant forall k, l :: 0 <= k < i && k < l < |nums| ==> nums[k] != nums[l]
    {
      if nums[i] < 1 || nums[i] > 42 {
        return false;
      }
      var j := i + 1;
      while j < |nums|
        invariant i + 1 <= j <= |nums|
        invariant forall l :: i < l < j ==> nums[i] != nums[l]
      {
        if nums[i] == nums[j] {
          return false;
        }
        j := j + 1;
      }
      i := i + 1;
    }
    return true;
  }

  /** Pairwise distinctness is the same as "no value occurs twice", so it does
      not depend on the order in which the pairs are compared. */
  lemma {:induction false} DistinctIffSingleOccurrences(s: seq<int>)
    ensures Distinct(s) <==> forall x :: multiset(s)[x] <= 1
  {
    if s != [] {
      var t := s[1..];
      DistinctIffSingleOccurrences(t);
      assert s == [s[0]] + t;
      assert multiset(s) == multiset{s[0]} + multiset(t);
      if Distinct(s) {
        assert Distinct(t) by {
          forall i, j | 0 <= i < j < |t| ensures t[i] != t[j] {
            assert t[i] == s[i + 1] && t[j] == s[j + 1];
          }
        }
      } else {
        var i, j :| 0 <= i < j < |s| && s[i] == s[j];
        if i == 0 {
          assert t[j - 1] == s[0];
          assert multiset(t)[s[0]] >= 1;
          assert multiset(s)[s[0]] >= 2;
        } else {
          assert t[i - 1] == t[j - 1];
          assert !Distinct(t);
          var x :| multiset(t)[x] > 1;
          assert multiset(s)[x] > 1;
        }
      }
    }
  }

  /** Whether an entry is valid depends only on which values it holds and how
      often, not on their order: sorting keeps a valid entry valid. */
  lemma ValidEntryPermutation(a: seq<int>, b: seq<int>)
    requires multiset(a) == multiset(b)
    ensures ValidEntry(a) <==> ValidEntry(b)
  {
    DistinctIffSingleOccurrences(a);
    DistinctIffSingleOccurrences(b);
    forall x | x in a ensures x in b {
      assert x in multiset(a);
    }
    forall x | x in b ensures x in a {
      assert x in multiset(b);
    }
    assert AllInRange(a) <==> forall x :: x in a ==> InRange(x);
    assert AllInRange(b) <==> forall x :: x in b ==> InRange(x);
  }

  /** One attempt at typing the numbers: either a token that is not an integer
      turned up, or the attempt produced a full set of integers. */
  datatype Attempt = NonNumeric | Numbers(values: seq<int>)

  datatype Option<T> = None | Some(value: T)

  /** The retry loop of input_numbers over the attempts the player makes. A
      non-numeric attempt is discarded without validation; a numeric one is
      validated; the loop stops at the first valid attempt. Running out of
      attempts (where the program would keep waiting) gives None. */
  method InputNumbers(attempts: seq<Attempt>, size: nat) returns (r: Option<seq<int>>, used: nat)
    requires forall k :: 0 <= k < |attempts| && attempts[k].Numbers? ==> |attempts[k].values| == size
    ensures used <= |attempts|
    ensures r.Some? ==> 0 < used && attempts[used - 1] == Numbers(r.value)
    ensures r.Some? ==> |r.value| == size && ValidEntry(r.value)
    ensures r.None? ==> used == |attempts|
    ensures forall k :: 0 <= k < (if r.Some? then used - 1 else used) ==>
              attempts[k].NonNumeric? || !ValidEntry(attempts[k].values)
  {
    used := 0;
    while used < |attempts|
      invariant used <= |attempts|
      invariant forall k :: 0 <= k < used ==> attempts[k].NonNumeric? || !ValidEntry(attempts[k].values)
    {
      var attempt := attempts[used];
      used := used + 1;
      if attempt.Numbers? {
        var valid := ValidateNumbers(attempt.values);
        if valid {
          return Some(attempt.values), used;
        }
      }
    }
    r := None;
  }
}

/** Finding the one value that is not paired with a neighbour. */
module SingleElement {
  /** Every value but the one at the even position p equals exactly one of its neighbours. */
  predicate Single(nums: seq<bv32>, p: nat) {
    && |nums| % 2 == 1 && p < |nums| && p % 2 == 0
    && forall i :: 0 <= i < |nums| - 1 ==> (nums[i] == nums[i + 1] <==> StartsPair(i, p))
  }

  lemma PairAt(nums: seq<bv32>, p: nat, i: nat)
    requires Single(nums, p) && i < |nums| - 1
    ensures nums[i] == nums[i + 1] <==> StartsPair(i, p)
  {}

  lemma SingleSizes(nums: seq<bv32>, p: nat)
    requires Single(nums, p)
    ensures |nums| % 2 == 1 && p < |nums| && p % 2 == 0
  {}

  predicate StartsPair(i: int, p: int) {
    if i < p then i % 2 == 0 else i > p && i % 2 == 1
  }

  method SimpleSearch(nums: seq<bv32>, ghost p: nat) returns (r: bv32)
    requires Single(nums, p)
    ensures r == nums[p]
  {
    if |nums| == 1 {
      return nums[0];
    }
    var i := 0;
    while i < |nums| - 1
      invariant i % 2 == 0 && i <= p
    {
      if nums[i] != nums[i + 1] {
        return nums[i];
      }
      i := i + 2;
    }
    return nums[|nums| - 1];
  }

  function XorAll(nums: seq<bv32>): bv32 {
    if nums == [] then 0 else XorAll(nums[..|nums| - 1]) ^ nums[|nums| - 1]
  }

  lemma XorCancels(a: bv32, b: bv32)
    ensures (a ^ b) ^ b == a
    ensures 0 ^ a == a && a ^ a == 0
  {}

  lemma XorOfPair(nums: seq<bv32>, n: nat)
    requires n + 2 <= |nums| && nums[n] == nums[n + 1]
    ensures XorAll(nums[..n + 2]) == XorAll(nums[..n])
  {
    assert nums[..n + 2][..n + 1] == nums[..n + 1];
    assert nums[..n + 1][..n] == nums[..n];
    XorCancels(XorAll(nums[..n]), nums[n]);
  }

  /** Pairs cancel: before the single value nothing is left, from it on the value itself. */
  lemma {:induction false} XorOfPrefix(nums: seq<bv32>, p: nat, n: nat)
    requires Single(nums, p) && n <= |nums|
    ensures n <= p && n % 2 == 0 ==> XorAll(nums[..n]) == 0
    ensures n > p && n % 2 == 1 ==> XorAll(nums[..n]) == nums[p]
  {
    if n == p + 1 {
      XorOfPrefix(nums, p, p);
      assert nums[..n][..p] == nums[..p];
      XorCancels(nums[p], 0);
    } else if n >= 2 {
      XorOfPrefix(nums, p, n - 2);
      if StartsPair(n - 2, p) {
        XorOfPair(nums, n - 2);
      }
    }
  }

  lemma {:induction false} XorOfAll(nums: seq<bv32>, p: nat)
    requires Single(nums, p)
    ensures XorAll(nums) == nums[p]
  {
    XorOfPrefix(nums, p, |nums|);
    assert nums[..|nums|] == nums;
  }

  method Xor(nums: seq<bv32>) returns (result: bv32)
    ensures result == XorAll(nums)
    ensures forall p: nat :: Single(nums, p) ==> result == nums[p]
  {
    result := 0;
    for i := 0 to |nums|
      invariant result == XorAll(nums[..i])
    {
      assert nums[..i + 1][..i] == nums[..i];
      result := result ^ nums[i];
    }
    assert nums[..|nums|] == nums;
    forall p: nat | Single(nums, p)
      ensures result == nums[p]
    {
      XorOfAll(nums, p);
    }
  }

  /** Half of an odd window, rounded down, falls on the window and has a neighbour on each side. */
  lemma Middle(first: nat, last: nat)
    requires first % 2 == 0 && last % 2 == 1 && last - first > 1
    ensures first < first + (last - first) / 2 < last - 1
  {}

  /** What a look at both neighbours tells: an even position and the pair to its right mean go right. */
  lemma Probe(nums: seq<bv32>, p: nat, mid: nat)
    requires Single(nums, p) && 0 < mid < |nums| - 1
    ensures nums[mid] == nums[mid + 1] ==> (mid % 2 == 0 <==> mid < p) && mid != p
    ensures nums[mid - 1] == nums[mid] ==> (mid % 2 == 1 <==> mid < p) && mid != p
    ensures nums[mid] != nums[mid + 1] && nums[mid - 1] != nums[mid] ==> mid == p
  {
    var before := mid - 1;
    PairAt(nums, p, before);
    PairAt(nums, p, mid);
    assert before % 2 == 1 - mid % 2;
  }

  method BinarySearch(nums: seq<bv32>, ghost p: nat) returns (r: bv32)
    requires Single(nums, p)
    ensures r == nums[p]
  {
    SingleSizes(nums, p);
    hide Single;
    var first, last := 0, |nums|;
    var mid := first + (last - first) / 2;
    while last - first > 1
      invariant first <= p < last <= |nums|
      invariant first % 2 == 0 && last % 2 == 1
      invariant mid == first + (last - first) / 2
      decreases last - first
    {
      Middle(first, last);
      Probe(nums, p, mid);
      if nums[mid] == nums[mid + 1] {
        if mid % 2 == 0 {
          first := mid + 2;
        } else {
          last := mid;
        }
      } else if nums[mid - 1] == nums[mid] {
        if mid % 2 == 0 {
          last := mid - 1;
        } else {
          first := mid + 1;
        }
      } else {
        first := mid;
        break;
      }
      mid := first + (last - first) / 2;
    }
    return nums[first];
  }

  /** The position is determined by the array, so the three searches cannot disagree. */
  lemma SingleIsUnique(nums: seq<bv32>, p: nat, q: nat)
    requires Single(nums, p) && Single(nums, q)
    ensures p == q
  {
    if p < q {
      PairAt(nums, q, p);
    } else if q < p {
      PairAt(nums, p, q);
    }
  }
}

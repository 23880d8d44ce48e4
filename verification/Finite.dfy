/** Sizes of finite sets of numbers. */
module Finite {
  ghost function Below(n: nat): (s: set<nat>)
    ensures forall i: nat :: i in s <==> i < n
  {
    if n == 0 then {}
    else
      var last: nat := n - 1;
      Below(last) + {last}
  }

  lemma {:induction false} BelowSize(n: nat)
    ensures |Below(n)| == n
  {
    if n > 0 {
      var last: nat := n - 1;
      BelowSize(last);
      assert last !in Below(last);
    }
  }

  lemma {:induction false} DistinctSize<T>(c: seq<T>)
    requires Distinct(c)
    ensures |Elements(c)| == |c|
  {
    if c != [] {
      var front, last := c[..|c| - 1], c[|c| - 1];
      DistinctSize(front);
      assert Elements(c) == Elements(front) + {last};
    }
  }

  lemma SubsetSize<T>(s: set<T>, t: set<T>)
    requires s <= t
    ensures |s| <= |t|
  {
    assert t == s + (t - s);
  }

  ghost predicate Distinct<T>(c: seq<T>) {
    forall j, k :: 0 <= j < k < |c| ==> c[j] != c[k]
  }

  ghost function Elements<T>(c: seq<T>): set<T> {
    set k | 0 <= k < |c| :: c[k]
  }

  lemma DistinctBefore<T>(x: T, c: seq<T>)
    requires Distinct(c) && x !in c
    ensures Distinct([x] + c)
  {
    assert forall k :: 1 <= k < |c| + 1 ==> ([x] + c)[k] == c[k - 1];
  }

  /** Different numbers below n are at most n. */
  lemma DistinctBelow(c: seq<nat>, n: nat)
    requires Distinct(c) && forall k :: 0 <= k < |c| ==> c[k] < n
    ensures |c| <= n
  {
    DistinctSize(c);
    BelowSize(n);
    SubsetSize(Elements(c), Below(n));
  }

  /** Fewer when one of them is missing. */
  lemma DistinctBelowBut(c: seq<nat>, n: nat, gap: nat)
    requires Distinct(c) && gap < n && forall k :: 0 <= k < |c| ==> c[k] < n && c[k] != gap
    ensures |c| < n
  {
    DistinctSize(c);
    BelowSize(n);
    assert |Below(n) - {gap}| == n - 1;
    SubsetSize(Elements(c), Below(n) - {gap});
  }

  /** No fewer when none is missing. */
  lemma CoveringSize(c: seq<nat>, n: nat)
    requires Distinct(c) && forall i :: 0 <= i < n ==> i in c
    ensures |c| >= n
  {
    DistinctSize(c);
    BelowSize(n);
    forall i: nat | i in Below(n)
      ensures i in Elements(c)
    {
      assert i in c;
    }
    SubsetSize(Below(n), Elements(c));
  }
}

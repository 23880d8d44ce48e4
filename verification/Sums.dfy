/** Sums of a measure over a sequence, for counting processes. */
module Sums {
  ghost function Total<T>(s: seq<T>, f: T -> nat): nat {
    if s == [] then 0 else f(s[0]) + Total(s[1..], f)
  }

  lemma {:induction false} TotalUpdate<T>(s: seq<T>, i: nat, x: T, f: T -> nat)
    requires i < |s|
    ensures Total(s[i := x], f) + f(s[i]) == Total(s, f) + f(x)
  {
    if i == 0 {
      assert s[0 := x][1..] == s[1..];
    } else {
      assert s[i := x][1..] == s[1..][i - 1 := x];
      TotalUpdate(s[1..], i - 1, x, f);
    }
  }

  lemma {:induction false} TotalHas<T>(s: seq<T>, i: nat, f: T -> nat)
    requires i < |s|
    ensures f(s[i]) <= Total(s, f)
  {
    if i > 0 {
      TotalHas(s[1..], i - 1, f);
    }
  }

  lemma {:induction false} TotalHasTwo<T>(s: seq<T>, i: nat, j: nat, f: T -> nat)
    requires i < j < |s|
    ensures f(s[i]) + f(s[j]) <= Total(s, f)
  {
    if i == 0 {
      TotalHas(s[1..], j - 1, f);
    } else {
      TotalHasTwo(s[1..], i - 1, j - 1, f);
    }
  }

  lemma {:induction false} TotalOfSame<T>(s: seq<T>, f: T -> nat, b: nat)
    requires forall i :: 0 <= i < |s| ==> f(s[i]) == b
    ensures Total(s, f) == |s| * b
  {
    if s != [] {
      TotalOfSame(s[1..], f, b);
    }
  }

  /** A sum below the bound has a term below it. */
  lemma {:induction false} TotalShort<T>(s: seq<T>, f: T -> nat, b: nat) returns (i: nat)
    requires Total(s, f) < |s| * b
    ensures i < |s| && f(s[i]) < b
  {
    if f(s[0]) < b {
      i := 0;
    } else {
      i := TotalShort(s[1..], f, b);
      i := i + 1;
    }
  }

  lemma {:induction false} TotalLong<T>(s: seq<T>, f: T -> nat, b: nat)
    requires forall i :: 0 <= i < |s| ==> f(s[i]) <= b
    ensures Total(s, f) <= |s| * b
  {
    if s != [] {
      TotalLong(s[1..], f, b);
      OneMore(|s|, b);
    }
  }

  lemma OneMore(n: nat, b: nat)
    requires n > 0
    ensures n * b == b + (n - 1) * b
  {}
}

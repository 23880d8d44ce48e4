/** Taking an element out of a sequence and putting one in. */
module Sequences {
  function DropAt<T>(s: seq<T>, i: nat): seq<T>
    requires i < |s|
  {
    s[..i] + s[i + 1..]
  }

  function InsertAt<T>(s: seq<T>, i: nat, x: T): seq<T>
    requires i <= |s|
  {
    s[..i] + [x] + s[i..]
  }

  lemma DropAtIs<T>(s: seq<T>, i: nat)
    requires i < |s|
    ensures |DropAt(s, i)| == |s| - 1
    ensures forall j :: 0 <= j < |s| - 1 ==> DropAt(s, i)[j] == if j < i then s[j] else s[j + 1]
  {}

  lemma InsertAtIs<T>(s: seq<T>, i: nat, x: T)
    requires i <= |s|
    ensures |InsertAt(s, i, x)| == |s| + 1
    ensures forall j :: 0 <= j <= |s| ==> InsertAt(s, i, x)[j] == if j < i then s[j] else if j == i then x else s[j - 1]
  {}

  /** An element taken to the front, possibly changed. */
  lemma MovedFrom<T>(s: seq<T>, e: T, p: nat, i: nat)
    requires p < |s| && i < |s|
    ensures |[e] + DropAt(s, p)| == |s|
    ensures ([e] + DropAt(s, p))[i] == if i == 0 then e else if i <= p then s[i - 1] else s[i]
  {}

  /** An element put in front, where the last one drops out. */
  lemma PushedAt<T>(s: seq<T>, e: T, p: nat)
    requires p < |s|
    ensures ([e] + s[..|s| - 1])[p] == if p == 0 then e else s[p - 1]
  {}
}

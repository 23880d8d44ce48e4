/** Letters, and the order of the words made of them. */
module Words {
  /** The places of 'A'..'z' in a node. */
  const LETTERS: nat := 58

  type Letter = c: nat | c < LETTERS

  type Word = seq<Letter>

  ghost predicate Less(a: Word, b: Word) {
    b != [] && (a == [] || a[0] < b[0] || (a[0] == b[0] && Less(a[1..], b[1..])))
  }

  ghost predicate Begins(p: Word, w: Word) {
    p <= w
  }

  lemma {:induction false} LessIsTransitive(a: Word, b: Word, c: Word)
    requires Less(a, b) && Less(b, c)
    ensures Less(a, c)
  {
    if a != [] && a[0] == b[0] == c[0] {
      LessIsTransitive(a[1..], b[1..], c[1..]);
    }
  }

  lemma {:induction false} LessIsTotal(a: Word, b: Word)
    ensures (a == b) == (!Less(a, b) && !Less(b, a))
    ensures !(Less(a, b) && Less(b, a))
  {
    if a != [] && b != [] {
      LessIsTotal(a[1..], b[1..]);
      assert a == [a[0]] + a[1..] && b == [b[0]] + b[1..];
    }
  }

  /** A word is before its extensions. */
  lemma {:induction false} PrefixIsLess(p: Word, w: Word)
    requires p <= w && p != w
    ensures Less(p, w)
  {
    if p != [] {
      PrefixIsLess(p[1..], w[1..]);
    }
  }

  /** The first letter at which two words differ orders them. */
  lemma {:induction false} BranchOrders(p: Word, c: Letter, d: Letter, a: Word, b: Word)
    requires p + [c] <= a && p + [d] <= b && c < d
    ensures Less(a, b)
  {
    if p == [] {
      assert a[0] == (p + [c])[0] && b[0] == (p + [d])[0];
    } else {
      assert (p + [c])[1..] == p[1..] + [c] && (p + [d])[1..] == p[1..] + [d];
      assert a[0] == (p + [c])[0] == p[0] && b[0] == (p + [d])[0] == p[0];
      BranchOrders(p[1..], c, d, a[1..], b[1..]);
    }
  }

  ghost predicate Increasing(words: seq<Word>) {
    forall i, j :: 0 <= i < j < |words| ==> Less(words[i], words[j])
  }

  /** Everything in a is before everything in b. */
  ghost predicate AllBefore(a: seq<Word>, b: seq<Word>) {
    forall i, j :: 0 <= i < |a| && 0 <= j < |b| ==> Less(a[i], b[j])
  }

  lemma IncreasingConcat(a: seq<Word>, b: seq<Word>)
    requires Increasing(a) && Increasing(b) && AllBefore(a, b)
    ensures Increasing(a + b)
  {
    var s := a + b;
    forall i, j | 0 <= i < j < |s|
      ensures Less(s[i], s[j])
    {
      assert s[i] == (if i < |a| then a[i] else b[i - |a|]) && s[j] == (if j < |a| then a[j] else b[j - |a|]);
    }
  }
}

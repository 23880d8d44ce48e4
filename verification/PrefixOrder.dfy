/** The nodes of a prefix tree in the order of their words. */
module PrefixOrder {
  import opened Words
  import opened PrefixTree

  ghost predicate Inside(order: seq<nat>, n: nat) {
    forall k :: 0 <= k < |order| ==> order[k] < n
  }

  /** The node and everything below it, children in the order of their letters. */
  ghost function Below(nodes: seq<Node>, paths: seq<Word>, ids: map<Word, nat>, i: nat): (r: seq<nat>)
    requires Wired(nodes, paths, ids) && i < |nodes|
    ensures Inside(r, |nodes|)
    decreases |nodes| - i, LETTERS + 1
  {
    [i] + BelowFrom(nodes, paths, ids, i, 0)
  }

  /** Everything below the children for the letters from c on. */
  ghost function BelowFrom(nodes: seq<Node>, paths: seq<Word>, ids: map<Word, nat>, i: nat, c: nat): (r: seq<nat>)
    requires Wired(nodes, paths, ids) && i < |nodes| && c <= LETTERS
    ensures Inside(r, |nodes|)
    decreases |nodes| - i, LETTERS - c
  {
    if c == LETTERS then []
    else
      ChildIsNewer(nodes, paths, ids, i, c);
      (if nodes[i].next[c].Some? then Below(nodes, paths, ids, nodes[i].next[c].value) else []) +
      BelowFrom(nodes, paths, ids, i, c + 1)
  }

  lemma ChildIsNewer(nodes: seq<Node>, paths: seq<Word>, ids: map<Word, nat>, i: nat, c: Letter)
    requires Wired(nodes, paths, ids) && i < |nodes|
    ensures |nodes[i].next| == LETTERS
    ensures nodes[i].next[c].Some? <==> paths[i] + [c] in ids
    ensures nodes[i].next[c].Some? ==>
      i < nodes[i].next[c].value < |nodes| && paths[nodes[i].next[c].value] == paths[i] + [c]
  {
    assert WiredNode(nodes[i], paths[i], ids);
    WordPlus(paths[i], c, paths[i], c);
    assert paths[i] + [c] in ids ==> Hangs(ids, paths[i] + [c]);
  }

  ghost function WordsOf(paths: seq<Word>, order: seq<nat>): (r: seq<Word>)
    requires Inside(order, |paths|)
    ensures |r| == |order| && forall k :: 0 <= k < |r| ==> r[k] == paths[order[k]]
  {
    seq(|order|, k requires 0 <= k < |order| => paths[order[k]])
  }

  lemma WordsOfConcat(paths: seq<Word>, a: seq<nat>, b: seq<nat>)
    requires Inside(a, |paths|) && Inside(b, |paths|)
    ensures Inside(a + b, |paths|)
    ensures WordsOf(paths, a + b) == WordsOf(paths, a) + WordsOf(paths, b)
  {}

  /** All the words extend p by a letter from c on. */
  ghost predicate Branching(words: seq<Word>, p: Word, c: nat) {
    forall k :: 0 <= k < |words| ==> BranchesFrom(words[k], p, c)
  }

  ghost predicate BranchesFrom(w: Word, p: Word, c: nat) {
    p <= w && |p| < |w| && c <= w[|p|]
  }

  ghost predicate Extending(words: seq<Word>, p: Word) {
    forall k :: 0 <= k < |words| ==> p <= words[k]
  }

  lemma BranchesBefore(a: seq<Word>, b: seq<Word>, p: Word, c: Letter)
    requires Extending(a, p + [c]) && Branching(b, p, c + 1)
    ensures AllBefore(a, b) && Branching(a + b, p, c)
  {
    forall i, j | 0 <= i < |a| && 0 <= j < |b|
      ensures Less(a[i], b[j])
    {
      assert BranchesFrom(b[j], p, c + 1);
      assert p + [b[j][|p|]] <= b[j] by {
        assert b[j][..|p|] == p;
      }
      BranchOrders(p, c, b[j][|p|], a[i], b[j]);
    }
    forall k | 0 <= k < |a + b|
      ensures BranchesFrom((a + b)[k], p, c)
    {
      if k < |a| {
        assert (p + [c])[|p|] == c && a[k][|p|] == c;
        assert p <= p + [c] <= a[k];
      } else {
        assert BranchesFrom(b[k - |a|], p, c + 1);
      }
    }
  }

  /** No words are in any order. */
  lemma NoWords(paths: seq<Word>, p: Word, c: nat)
    ensures Inside([], |paths|) && WordsOf(paths, []) == []
    ensures Increasing([]) && Branching([], p, c) && Extending([], p)
  {}

  /** A node comes before everything below it, and all that in the order of the words. */
  lemma {:induction false} BelowIncreases(nodes: seq<Node>, paths: seq<Word>, ids: map<Word, nat>, i: nat)
    requires Wired(nodes, paths, ids) && i < |nodes| == |paths|
    ensures Increasing(WordsOf(paths, Below(nodes, paths, ids, i)))
    ensures Extending(WordsOf(paths, Below(nodes, paths, ids, i)), paths[i])
    decreases |nodes| - i, LETTERS + 2
  {
    BelowFromIncreases(nodes, paths, ids, i, 0);
    hide Wired, BelowFrom;
    WordBeforeBranches(paths, i, BelowFrom(nodes, paths, ids, i, 0));
  }

  /** A word comes before its extensions. */
  lemma WordBeforeBranches(paths: seq<Word>, i: nat, rest: seq<nat>)
    requires i < |paths| && Inside(rest, |paths|)
    requires Increasing(WordsOf(paths, rest)) && Branching(WordsOf(paths, rest), paths[i], 0)
    ensures Inside([i] + rest, |paths|)
    ensures Increasing(WordsOf(paths, [i] + rest)) && Extending(WordsOf(paths, [i] + rest), paths[i])
  {
    var words := WordsOf(paths, rest);
    WordsOfConcat(paths, [i], rest);
    assert WordsOf(paths, [i]) == [paths[i]];
    forall k | 0 <= k < |words|
      ensures Less(paths[i], words[k]) && paths[i] <= words[k]
    {
      assert BranchesFrom(words[k], paths[i], 0);
      PrefixIsLess(paths[i], words[k]);
    }
    IncreasingConcat([paths[i]], words);
  }

  lemma BelowFromIs(nodes: seq<Node>, paths: seq<Word>, ids: map<Word, nat>, i: nat, c: nat)
    requires Wired(nodes, paths, ids) && i < |nodes| && c <= LETTERS
    ensures c == LETTERS ==> BelowFrom(nodes, paths, ids, i, c) == []
    ensures |nodes[i].next| == LETTERS
    ensures c < LETTERS && nodes[i].next[c].Some? ==>
      i < nodes[i].next[c].value < |nodes| && BelowFrom(nodes, paths, ids, i, c) ==
        Below(nodes, paths, ids, nodes[i].next[c].value) + BelowFrom(nodes, paths, ids, i, c + 1)
    ensures c < LETTERS && nodes[i].next[c].None? ==>
      BelowFrom(nodes, paths, ids, i, c) == BelowFrom(nodes, paths, ids, i, c + 1)
  {
    hide Below;
    if c < LETTERS {
      ChildIsNewer(nodes, paths, ids, i, c);
    } else {
      assert WiredNode(nodes[i], paths[i], ids);
    }
  }

  lemma JoinBranches(paths: seq<Word>, first: seq<nat>, rest: seq<nat>, p: Word, c: Letter)
    requires Inside(first, |paths|) && Increasing(WordsOf(paths, first)) && Extending(WordsOf(paths, first), p + [c])
    requires Inside(rest, |paths|) && Increasing(WordsOf(paths, rest)) && Branching(WordsOf(paths, rest), p, c + 1)
    ensures Inside(first + rest, |paths|)
    ensures Increasing(WordsOf(paths, first + rest)) && Branching(WordsOf(paths, first + rest), p, c)
  {
    hide Increasing, Extending, Branching, AllBefore, WordsOf;
    WordsOfConcat(paths, first, rest);
    BranchesBefore(WordsOf(paths, first), WordsOf(paths, rest), p, c);
    IncreasingConcat(WordsOf(paths, first), WordsOf(paths, rest));
  }

  /** What hangs below the child for letter c comes in order and extends the word by c. */
  lemma {:induction false} ChildIncreases(nodes: seq<Node>, paths: seq<Word>, ids: map<Word, nat>, i: nat, c: Letter) returns (first: seq<nat>)
    requires Wired(nodes, paths, ids) && i < |nodes| == |paths|
    ensures Inside(first, |paths|) && Increasing(WordsOf(paths, first)) && Extending(WordsOf(paths, first), paths[i] + [c])
    ensures BelowFrom(nodes, paths, ids, i, c) == first + BelowFrom(nodes, paths, ids, i, c + 1)
    decreases |nodes| - i, 0
  {
    hide *;
    BelowFromIs(nodes, paths, ids, i, c);
    ChildIsNewer(nodes, paths, ids, i, c);
    if nodes[i].next[c].Some? {
      var child := nodes[i].next[c].value;
      BelowIncreases(nodes, paths, ids, child);
      first := Below(nodes, paths, ids, child);
    } else {
      NoWords(paths, paths[i] + [c], 0);
      first := [];
      assert first + BelowFrom(nodes, paths, ids, i, c + 1) == BelowFrom(nodes, paths, ids, i, c + 1);
    }
  }

  lemma {:induction false} BelowFromIncreases(nodes: seq<Node>, paths: seq<Word>, ids: map<Word, nat>, i: nat, c: nat)
    requires Wired(nodes, paths, ids) && i < |nodes| == |paths| && c <= LETTERS
    ensures Increasing(WordsOf(paths, BelowFrom(nodes, paths, ids, i, c)))
    ensures Branching(WordsOf(paths, BelowFrom(nodes, paths, ids, i, c)), paths[i], c)
    decreases |nodes| - i, LETTERS + 1 - c
  {
    hide *;
    if c == LETTERS {
      BelowFromIs(nodes, paths, ids, i, c);
      NoWords(paths, paths[i], c);
    } else {
      var first := ChildIncreases(nodes, paths, ids, i, c);
      BelowFromIncreases(nodes, paths, ids, i, c + 1);
      JoinBranches(paths, first, BelowFrom(nodes, paths, ids, i, c + 1), paths[i], c);
    }
  }

  lemma SameWord(nodes: seq<Node>, paths: seq<Word>, ids: map<Word, nat>, i: nat, j: nat)
    requires Wired(nodes, paths, ids) && i < |nodes| && j < |nodes| && paths[i] == paths[j]
    ensures i == j
  {
    assert ids[paths[i]] == ids[paths[j]];
  }

  lemma WiredNames(nodes: seq<Node>, paths: seq<Word>, ids: map<Word, nat>, j: nat)
    requires Wired(nodes, paths, ids) && j < |nodes|
    ensures |nodes| == |paths| && Named(paths, ids) && paths[j] in ids
  {}

  /** The node one letter on along the way to j. */
  lemma NextOnTheWay(nodes: seq<Node>, paths: seq<Word>, ids: map<Word, nat>, i: nat, j: nat)
    requires Wired(nodes, paths, ids) && i < |nodes| && j < |nodes|
    requires paths[i] <= paths[j] && |paths[i]| < |paths[j]|
    ensures |nodes[i].next| == LETTERS
    ensures var slot := nodes[i].next[paths[j][|paths[i]|]];
      slot.Some? && slot.value < |nodes| && paths[slot.value] <= paths[j] && |paths[slot.value]| == |paths[i]| + 1
  {
    WiredNames(nodes, paths, ids, j);
    hide Wired, Named, Hangs;
    var c := paths[j][|paths[i]|];
    var w := paths[i] + [c];
    assert paths[j][..|w|] == w;
    PrefixIsNamed(paths, ids, paths[j], |w|);
    ChildIsNewer(nodes, paths, ids, i, c);
  }

  /** Every node whose word extends that of i is below i. */
  lemma {:induction false} BelowIsComplete(nodes: seq<Node>, paths: seq<Word>, ids: map<Word, nat>, i: nat, j: nat)
    requires Wired(nodes, paths, ids) && i < |nodes| && j < |nodes| && |nodes| == |paths| && paths[i] <= paths[j]
    ensures j in Below(nodes, paths, ids, i)
    decreases |paths[j]| - |paths[i]|
  {
    hide Wired, BelowFrom;
    if |paths[i]| == |paths[j]| {
      SameWord(nodes, paths, ids, i, j);
    } else {
      NextOnTheWay(nodes, paths, ids, i, j);
      var c := paths[j][|paths[i]|];
      BelowIsComplete(nodes, paths, ids, nodes[i].next[c].value, j);
      InBelowFrom(nodes, paths, ids, i, 0, c, j);
    }
  }

  lemma {:induction false} PrefixIsNamed(paths: seq<Word>, ids: map<Word, nat>, w: Word, n: nat)
    requires Named(paths, ids) && w in ids && n <= |w|
    ensures w[..n] in ids
    decreases |w|
  {
    if n == |w| {
      assert w[..n] == w;
    } else {
      assert Hangs(ids, w);
      PrefixIsNamed(paths, ids, w[..|w| - 1], n);
      assert w[..|w| - 1][..n] == w[..n];
    }
  }

  lemma {:induction false} InBelowFrom(nodes: seq<Node>, paths: seq<Word>, ids: map<Word, nat>, i: nat, c: nat, d: Letter, j: nat)
    requires Wired(nodes, paths, ids) && i < |nodes| && c <= d
    requires |nodes[i].next| == LETTERS && nodes[i].next[d].Some? && nodes[i].next[d].value < |nodes|
    requires j in Below(nodes, paths, ids, nodes[i].next[d].value)
    ensures j in BelowFrom(nodes, paths, ids, i, c)
    decreases d - c
  {
    ChildIsNewer(nodes, paths, ids, i, c);
    if c < d {
      InBelowFrom(nodes, paths, ids, i, c + 1, d, j);
    }
  }
}

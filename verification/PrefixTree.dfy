/** A tree of nodes keyed by the letters of a word, in a pool of nodes. */
module PrefixTree {
  import opened Options

  import opened Words

  datatype Item = Item(index: Word, data: int)

  /** A node owns, for each letter, the node of the next letter. */
  datatype Node = Node(next: seq<Option<nat>>, val: Option<Item>)

  /** A new node owns no other and holds nothing. */
  function Fresh(): (r: Node)
    ensures |r.next| == LETTERS && r.val == None
    ensures forall c: Letter :: r.next[c] == None
  {
    Node(seq(LETTERS, _ => None), None)
  }

  /** A word other than the empty one hangs below its parent. */
  ghost predicate Hangs(ids: map<Word, nat>, w: Word) {
    w != [] ==> w[..|w| - 1] in ids && w in ids && ids[w[..|w| - 1]] < ids[w]
  }

  function At(ids: map<Word, nat>, w: Word): Option<nat> {
    if w in ids then Some(ids[w]) else None
  }

  /** The words of the nodes: distinct, closed under taking a letter away, older nodes first. */
  ghost predicate Named(paths: seq<Word>, ids: map<Word, nat>) {
    && |paths| > 0 && paths[0] == []
    && (forall j :: 0 <= j < |paths| ==> paths[j] in ids && ids[paths[j]] == j)
    && (forall w :: w in ids ==> ids[w] < |paths| && paths[ids[w]] == w)
    && (forall w :: w in ids ==> Hangs(ids, w))
  }

  /** Each node points at just the nodes whose words have one letter more. */
  ghost predicate Wired(nodes: seq<Node>, paths: seq<Word>, ids: map<Word, nat>) {
    && |nodes| == |paths| && Named(paths, ids)
    && forall i :: 0 <= i < |nodes| ==> WiredNode(nodes[i], paths[i], ids)
  }

  ghost predicate WiredNode(node: Node, path: Word, ids: map<Word, nat>) {
    && |node.next| == LETTERS
    && forall c: Letter :: node.next[c] == At(ids, path + [c])
  }

  /** Items are kept under their own index, which is not empty. */
  ghost predicate Keyed(contents: map<Word, Item>) {
    forall w :: w in contents ==> w != [] && contents[w].index == w
  }

  /** Each node holds what the contents have for its word. */
  ghost predicate Holds(nodes: seq<Node>, paths: seq<Word>, contents: map<Word, Item>) {
    && |nodes| == |paths| && Keyed(contents)
    && (forall i :: 0 <= i < |nodes| ==>
      nodes[i].val == if paths[i] in contents then Some(contents[paths[i]]) else None)
    && (forall w :: w in contents ==> w in paths)
  }

  lemma WordPlus(p: Word, c: Letter, q: Word, d: Letter)
    ensures p + [c] == q + [d] <==> p == q && c == d
    ensures (p + [c])[..|p|] == p
  {
    if p + [c] == q + [d] {
      assert (p + [c])[..|p|] == p && (q + [d])[..|q|] == q && (p + [c])[|p|] == c;
    }
  }

  function WithNode(nodes: seq<Node>, at: nat, c: Letter): seq<Node>
    requires at < |nodes| && |nodes[at].next| == LETTERS
  {
    nodes[at := nodes[at].(next := nodes[at].next[c := Some(|nodes|)])] + [Fresh()]
  }

  lemma NamedMore(paths: seq<Word>, ids: map<Word, nat>, at: nat, c: Letter)
    requires Named(paths, ids) && at < |paths| && paths[at] + [c] !in ids
    ensures Named(paths + [paths[at] + [c]], ids[paths[at] + [c] := |paths|])
  {
    var p := paths[at] + [c];
    var ids' := ids[p := |paths|];
    WordPlus(paths[at], c, paths[at], c);
    forall w | w in ids'
      ensures Hangs(ids', w)
    {
      assert w != p ==> Hangs(ids, w);
    }
  }

  /** A node is added where there was none. */
  lemma WiredMore(nodes: seq<Node>, paths: seq<Word>, ids: map<Word, nat>, at: nat, c: Letter)
    requires Wired(nodes, paths, ids) && at < |nodes| && nodes[at].next[c].None?
    ensures paths[at] + [c] !in ids
    ensures Wired(WithNode(nodes, at, c), paths + [paths[at] + [c]], ids[paths[at] + [c] := |nodes|])
  {
    var p := paths[at] + [c];
    var ids' := ids[p := |nodes|];
    assert WiredNode(nodes[at], paths[at], ids);
    NamedMore(paths, ids, at, c);
    var nodes' := WithNode(nodes, at, c);
    forall i | 0 <= i < |nodes'|
      ensures WiredNode(nodes'[i], (paths + [p])[i], ids')
    {
      if i < |nodes| {
        assert WiredNode(nodes[i], paths[i], ids);
        forall d: Letter
          ensures nodes'[i].next[d] == At(ids', paths[i] + [d])
        {
          WordPlus(paths[i], d, paths[at], c);
        }
      } else {
        forall d: Letter
          ensures At(ids', p + [d]) == None
        {
          WordPlus(p, d, paths[at], c);
          WordPlus(p, d, p, d);
          assert p + [d] in ids ==> Hangs(ids, p + [d]);
        }
      }
    }
  }

  lemma HoldsMore(nodes: seq<Node>, paths: seq<Word>, contents: map<Word, Item>, at: nat, c: Letter)
    requires Holds(nodes, paths, contents) && at < |nodes| && |nodes[at].next| == LETTERS
    requires paths[at] + [c] !in paths
    ensures Holds(WithNode(nodes, at, c), paths + [paths[at] + [c]], contents)
  {}
}

/** The tree as a database that is filled once per index and printed in order. */
module PrefixDb {
  import opened Options

  import opened Words
  import opened PrefixTree
  import opened PrefixOrder

  /** What a run of inserts leaves: for each index its first item. */
  function Firsts(items: seq<Item>): map<Word, Item> {
    if items == [] then map[]
    else
      var before, item := Firsts(items[..|items| - 1]), items[|items| - 1];
      if item.index == [] || item.index in before then before else before[item.index := item]
  }

  ghost predicate FirstWith(items: seq<Item>, w: Word, k: int) {
    0 <= k < |items| && items[k].index == w && forall j :: 0 <= j < k ==> items[j].index != w
  }

  /** An item is kept exactly when its index is not empty and no item before it has that index. */
  lemma {:induction false} FirstsKeepsFirst(items: seq<Item>, w: Word)
    ensures w in Firsts(items) <==> w != [] && exists k :: 0 <= k < |items| && items[k].index == w
    ensures w in Firsts(items) ==> exists k :: FirstWith(items, w, k) && Firsts(items)[w] == items[k]
  {
    if items != [] {
      var init := items[..|items| - 1];
      FirstsKeepsFirst(init, w);
      assert items == init + [items[|items| - 1]];
      if w in Firsts(init) {
        var k :| FirstWith(init, w, k) && Firsts(init)[w] == init[k];
        assert FirstWith(items, w, k);
      } else if w in Firsts(items) {
        assert forall j :: 0 <= j < |init| ==> items[j] == init[j];
        assert FirstWith(items, w, |items| - 1);
      }
    }
  }

  /** The items the nodes in this order hold. */
  ghost function Held(nodes: seq<Node>, order: seq<nat>): seq<Item>
    requires Inside(order, |nodes|)
  {
    if order == [] then []
    else
      var last := nodes[order[|order| - 1]].val;
      Held(nodes, order[..|order| - 1]) + if last.Some? then [last.value] else []
  }

  lemma {:induction false} HeldSnoc(nodes: seq<Node>, order: seq<nat>, i: nat)
    requires Inside(order, |nodes|) && i < |nodes|
    ensures Inside(order + [i], |nodes|)
    ensures Held(nodes, order + [i]) == Held(nodes, order) + if nodes[i].val.Some? then [nodes[i].val.value] else []
  {
    assert (order + [i])[..|order|] == order;
  }

  function IndexesOf(items: seq<Item>): (r: seq<Word>)
    ensures |r| == |items| && forall k :: 0 <= k < |r| ==> r[k] == items[k].index
  {
    seq(|items|, k requires 0 <= k < |items| => items[k].index)
  }

  /** The printed items are those of the contents, each once, by increasing index. */
  ghost predicate Printed(out: seq<Item>, contents: map<Word, Item>) {
    && Increasing(IndexesOf(out))
    && (forall k :: 0 <= k < |out| ==> out[k].index in contents && contents[out[k].index] == out[k])
    && (forall w :: w in contents ==> contents[w] in out)
  }

  /** Two printings of the same contents are equal: the order leaves no choice. */
  lemma {:induction false} PrintedIsUnique(a: seq<Item>, b: seq<Item>, contents: map<Word, Item>)
    requires Keyed(contents) && Printed(a, contents) && Printed(b, contents)
    ensures a == b
    decreases |a|
  {
    if a == [] {
      if b != [] {
        LastIsSame(b, a, contents);
      }
    } else {
      LastIsSame(a, b, contents);
      var w := a[|a| - 1].index;
      WithoutLast(a, contents);
      WithoutLast(b, contents);
      PrintedIsUnique(a[..|a| - 1], b[..|b| - 1], contents - {w});
    }
  }

  lemma LastIsSame(a: seq<Item>, b: seq<Item>, contents: map<Word, Item>)
    requires Keyed(contents) && Printed(a, contents) && Printed(b, contents) && a != []
    ensures b != [] && a[|a| - 1] == b[|b| - 1]
  {
    var m, n := |a| - 1, |b| - 1;
    assert contents[a[m].index] in b;
    assert contents[b[n].index] in a;
    var i :| 0 <= i < |b| && b[i] == a[m];
    var j :| 0 <= j < |a| && a[j] == b[n];
    if i < n && j < m {
      assert Less(IndexesOf(b)[i], IndexesOf(b)[n]) && Less(IndexesOf(a)[j], IndexesOf(a)[m]);
      LessIsTotal(a[m].index, b[n].index);
    }
  }

  lemma WithoutLast(a: seq<Item>, contents: map<Word, Item>)
    requires Keyed(contents) && Printed(a, contents) && a != []
    ensures Printed(a[..|a| - 1], contents - {a[|a| - 1].index})
  {
    var n := |a| - 1;
    var w := a[n].index;
    var init := a[..n];
    forall i, j | 0 <= i < j < |init|
      ensures Less(IndexesOf(init)[i], IndexesOf(init)[j])
    {
      assert Less(IndexesOf(a)[i], IndexesOf(a)[j]);
    }
    forall k | 0 <= k < |init|
      ensures init[k].index != w
    {
      assert Less(IndexesOf(a)[k], IndexesOf(a)[n]);
      LessIsTotal(w, w);
    }
    forall v | v in contents - {w}
      ensures contents[v] in init
    {
      assert contents[v] in a;
      var k :| 0 <= k < |a| && a[k] == contents[v];
      assert init[k] == contents[v];
    }
  }

  lemma IndexesOfConcat(a: seq<Item>, b: seq<Item>)
    ensures IndexesOf(a + b) == IndexesOf(a) + IndexesOf(b)
  {}

  /** Items held by nodes in the order of their words are in the order of their indexes. */
  lemma {:induction false} HeldIncreases(nodes: seq<Node>, paths: seq<Word>, contents: map<Word, Item>, order: seq<nat>)
    requires Holds(nodes, paths, contents) && Inside(order, |nodes|) && Increasing(WordsOf(paths, order))
    ensures Increasing(IndexesOf(Held(nodes, order)))
    ensures forall k :: 0 <= k < |Held(nodes, order)| ==>
      Held(nodes, order)[k].index in WordsOf(paths, order) && IsKept(contents, Held(nodes, order)[k])
  {
    if order != [] {
      var init, i := order[..|order| - 1], order[|order| - 1];
      assert order == init + [i];
      var words := WordsOf(paths, order);
      assert WordsOf(paths, init) == words[..|init|];
      assert forall j, k :: 0 <= j < k < |init| ==> Less(words[j], words[k]);
      HeldIncreases(nodes, paths, contents, init);
      assert words[|init|] == paths[i];
      if nodes[i].val.Some? {
        ItemOf(nodes, paths, contents, i);
        hide Holds, Held, IsKept, IndexesOf, WordsOf;
        HeldOneMore(nodes, contents, words, init, i);
      }
    }
  }

  lemma ItemOf(nodes: seq<Node>, paths: seq<Word>, contents: map<Word, Item>, i: nat)
    requires Holds(nodes, paths, contents) && i < |nodes| && nodes[i].val.Some?
    ensures |nodes| == |paths| && nodes[i].val.value.index == paths[i] && IsKept(contents, nodes[i].val.value)
  {}

  /** One more held item, whose word is after those of all before it. */
  lemma {:induction false} HeldOneMore(nodes: seq<Node>, contents: map<Word, Item>, words: seq<Word>, init: seq<nat>, i: nat)
    requires Inside(init, |nodes|) && i < |nodes| && nodes[i].val.Some? && Increasing(words) && |words| == |init| + 1
    requires words[|init|] == nodes[i].val.value.index && IsKept(contents, nodes[i].val.value)
    requires Increasing(IndexesOf(Held(nodes, init)))
    requires forall k :: 0 <= k < |Held(nodes, init)| ==>
      Held(nodes, init)[k].index in words[..|init|] && IsKept(contents, Held(nodes, init)[k])
    ensures Inside(init + [i], |nodes|) && Increasing(IndexesOf(Held(nodes, init + [i])))
    ensures forall k :: 0 <= k < |Held(nodes, init + [i])| ==>
      Held(nodes, init + [i])[k].index in words && IsKept(contents, Held(nodes, init + [i])[k])
  {
    var items, item := Held(nodes, init), nodes[i].val.value;
    HeldSnoc(nodes, init, i);
    hide Held, IsKept;
    IndexesOfConcat(items, [item]);
    IncreasingConcat(IndexesOf(items), [item.index]);
  }

  ghost predicate IsKept(contents: map<Word, Item>, item: Item) {
    item.index in contents && contents[item.index] == item
  }

  lemma {:induction false} HeldIsComplete(nodes: seq<Node>, order: seq<nat>, i: nat)
    requires Inside(order, |nodes|) && i in order && nodes[i].val.Some?
    ensures nodes[i].val.value in Held(nodes, order)
  {
    var init, last := order[..|order| - 1], order[|order| - 1];
    assert order == init + [last];
    if i != last {
      HeldIsComplete(nodes, init, i);
    }
  }

  /** Walking the whole tree prints the contents. */
  lemma {:induction false} WalkPrints(nodes: seq<Node>, paths: seq<Word>, ids: map<Word, nat>, contents: map<Word, Item>)
    requires Wired(nodes, paths, ids) && Holds(nodes, paths, contents)
    ensures Printed(Held(nodes, Below(nodes, paths, ids, 0)), contents)
  {
    var order := Below(nodes, paths, ids, 0);
    BelowIncreases(nodes, paths, ids, 0);
    HeldIncreases(nodes, paths, contents, order);
    forall w | w in contents
      ensures contents[w] in Held(nodes, order)
    {
      var i :| 0 <= i < |paths| && paths[i] == w;
      BelowIsComplete(nodes, paths, ids, 0, i);
      HeldIsComplete(nodes, order, i);
    }
  }

  /** The nodes of a stack, its top last, each with everything below it. */
  ghost function Stacked(nodes: seq<Node>, paths: seq<Word>, ids: map<Word, nat>, stack: seq<nat>): (r: seq<nat>)
    requires Wired(nodes, paths, ids) && Inside(stack, |nodes|)
    ensures Inside(r, |nodes|)
  {
    if stack == [] then []
    else Below(nodes, paths, ids, stack[|stack| - 1]) + Stacked(nodes, paths, ids, stack[..|stack| - 1])
  }

  lemma {:induction false} StackedPush(nodes: seq<Node>, paths: seq<Word>, ids: map<Word, nat>, stack: seq<nat>, i: nat)
    requires Wired(nodes, paths, ids) && Inside(stack, |nodes|) && i < |nodes|
    ensures Inside(stack + [i], |nodes|)
    ensures Stacked(nodes, paths, ids, stack + [i]) == Below(nodes, paths, ids, i) + Stacked(nodes, paths, ids, stack)
  {
    assert (stack + [i])[..|stack|] == stack;
  }

  /** Popping the top, giving it and pushing its children keeps what is given and still to give together. */
  lemma {:induction false} PopAndPush(nodes: seq<Node>, paths: seq<Word>, ids: map<Word, nat>, stack: seq<nat>, visited: seq<nat>)
    requires Wired(nodes, paths, ids) && Inside(stack, |nodes|) && stack != []
    ensures Inside(stack[..|stack| - 1], |nodes|) && stack[|stack| - 1] < |nodes|
    ensures var i, rest := stack[|stack| - 1], stack[..|stack| - 1];
      visited + Stacked(nodes, paths, ids, stack) ==
      (visited + [i]) + (BelowFrom(nodes, paths, ids, i, 0) + Stacked(nodes, paths, ids, rest))
  {
    hide Wired, BelowFrom;
  }

  lemma {:induction false} StackedNothing(nodes: seq<Node>, paths: seq<Word>, ids: map<Word, nat>)
    requires Wired(nodes, paths, ids)
    ensures Stacked(nodes, paths, ids, []) == []
  {}

  /** The first node stands for the entries: it is the root and holds nothing. */
  lemma {:induction false} Root(nodes: seq<Node>, paths: seq<Word>, ids: map<Word, nat>, contents: map<Word, Item>)
    requires Wired(nodes, paths, ids) && Holds(nodes, paths, contents)
    ensures |nodes| == |paths| > 0 && paths[0] == [] && nodes[0].val.None?
    ensures Below(nodes, paths, ids, 0) == [0] + BelowFrom(nodes, paths, ids, 0, 0)
  {
    hide BelowFrom;
  }

  lemma RootIsNamed(nodes: seq<Node>, paths: seq<Word>, ids: map<Word, nat>)
    requires Wired(nodes, paths, ids)
    ensures [] in ids
  {}

  /** A slot is filled exactly when there is a node with its word. */
  lemma NodeIsNamed(nodes: seq<Node>, paths: seq<Word>, ids: map<Word, nat>, at: nat, c: Letter)
    requires Wired(nodes, paths, ids) && at < |nodes|
    ensures |nodes[at].next| == LETTERS && |paths| == |nodes|
    ensures nodes[at].next[c].Some? <==> paths[at] + [c] in ids
  {
    ChildIsNewer(nodes, paths, ids, at, c);
  }

  lemma NextPrefix(index: Word, k: nat)
    requires k < |index|
    ensures index[..k + 1] == index[..k] + [index[k]]
    ensures forall w: Word :: Begins(w, index[..k + 1]) <==> Begins(w, index[..k]) || w == index[..k + 1]
  {
    forall w: Word
      ensures Begins(w, index[..k + 1]) <==> Begins(w, index[..k]) || w == index[..k + 1]
    {
      if w <= index[..k + 1] && |w| <= k {
        assert index[..k + 1][..|w|] == index[..k][..|w|];
      }
    }
  }

  lemma EmptyTree()
    ensures Wired([Fresh()], [[]], map[[] := 0]) && Holds([Fresh()], [[]], map[])
  {
    assert forall c: Letter :: [] + [c] != [];
  }

  /** The slots of a node, and what the node below a slot is. */
  lemma Slot(nodes: seq<Node>, paths: seq<Word>, ids: map<Word, nat>, at: nat, c: Letter)
    requires Wired(nodes, paths, ids) && at < |nodes|
    ensures |nodes| == |paths| && |nodes[at].next| == LETTERS
    ensures nodes[at].next[c].None? ==> paths[at] + [c] !in paths
    ensures nodes[at].next[c].Some? ==> nodes[at].next[c].value < |nodes| && paths[nodes[at].next[c].value] == paths[at] + [c]
  {
    ChildIsNewer(nodes, paths, ids, at, c);
    if paths[at] + [c] in paths {
      var j :| 0 <= j < |paths| && paths[j] == paths[at] + [c];
      assert paths[j] in ids;
    }
  }

  /** A node holds something exactly when its word is in the contents. */
  lemma HeldAt(nodes: seq<Node>, paths: seq<Word>, contents: map<Word, Item>, at: nat)
    requires Holds(nodes, paths, contents) && at < |nodes|
    ensures |nodes| == |paths| && (nodes[at].val.Some? <==> paths[at] in contents)
  {}

  /** A node that holds nothing may keep an item with its word as index. */
  lemma KeepAt(nodes: seq<Node>, paths: seq<Word>, ids: map<Word, nat>, contents: map<Word, Item>, at: nat, item: Item)
    requires Wired(nodes, paths, ids) && Holds(nodes, paths, contents)
    requires at < |nodes| && paths[at] == item.index != [] && nodes[at].val.None?
    ensures Wired(nodes[at := nodes[at].(val := Some(item))], paths, ids)
    ensures Holds(nodes[at := nodes[at].(val := Some(item))], paths, contents[item.index := item])
  {
    KeepWired(nodes, paths, ids, at, item);
    forall i | 0 <= i < |nodes| && i != at
      ensures paths[i] != item.index
    {
      assert ids[paths[i]] == i && ids[paths[at]] == at;
    }
  }

  lemma KeepWired(nodes: seq<Node>, paths: seq<Word>, ids: map<Word, nat>, at: nat, item: Item)
    requires Wired(nodes, paths, ids) && at < |nodes|
    ensures Wired(nodes[at := nodes[at].(val := Some(item))], paths, ids)
  {
    hide Named;
    var nodes' := nodes[at := nodes[at].(val := Some(item))];
    forall i | 0 <= i < |nodes|
      ensures WiredNode(nodes'[i], paths[i], ids)
    {
      assert WiredNode(nodes[i], paths[i], ids);
    }
  }

  class Db {
    var nodes: seq<Node>
    ghost var paths: seq<Word>
    ghost var ids: map<Word, nat>
    ghost var contents: map<Word, Item>

    ghost predicate Valid()
      reads this
    {
      Wired(nodes, paths, ids) && Holds(nodes, paths, contents)
    }

    /** Takes the items in order. */
    constructor (items: seq<Item>)
      ensures Valid() && contents == Firsts(items)
    {
      nodes, paths, ids, contents := [Fresh()], [[]], map[[] := 0], map[];
      new;
      EmptyTree();
      for k := 0 to |items|
        invariant Valid() && contents == Firsts(items[..k])
      {
        assert items[..k + 1][..k] == items[..k];
        var _ := InsertAtOnce(items[k]);
      }
      assert items[..|items|] == items;
    }

    /** The node for one more letter, made when it is not there. */
    method Descend(at: nat, c: Letter) returns (node: nat)
      requires Valid() && at < |nodes|
      modifies this`nodes, this`paths, this`ids
      ensures Valid() && node < |nodes| == |paths| && |old(nodes[at]).next| == LETTERS
      ensures at < |old(paths)| && paths[node] == old(paths)[at] + [c]
      ensures var slot := old(nodes[at]).next[c];
        if slot.Some? then node == slot.value && nodes == old(nodes) && paths == old(paths) && ids == old(ids)
        else
          && node == |old(nodes)| && nodes == WithNode(old(nodes), at, c)
          && paths == old(paths) + [paths[node]] && ids == old(ids)[paths[node] := node]
    {
      hide Wired, Holds;
      Slot(nodes, paths, ids, at, c);
      if nodes[at].next[c].None? {
        WiredMore(nodes, paths, ids, at, c);
        HoldsMore(nodes, paths, contents, at, c);
        ghost var p := paths[at] + [c];
        nodes, paths, ids := WithNode(nodes, at, c), paths + [p], ids[p := |nodes|];
        node := |nodes| - 1;
      } else {
        node := nodes[at].next[c].value;
      }
    }

    /** Keeps the item unless its index is empty or already taken; makes just the nodes on its way. */
    method InsertAtOnce(item: Item) returns (inserted: bool)
      requires Valid()
      modifies this
      ensures Valid()
      ensures inserted <==> item.index != [] && item.index !in old(contents)
      ensures contents == if inserted then old(contents)[item.index := item] else old(contents)
      ensures forall w :: w in ids <==> w in old(ids) || Begins(w, item.index)
    {
      hide Wired, Holds;
      var index := item.index;
      Root(nodes, paths, ids, contents);
      RootIsNamed(nodes, paths, ids);
      if index == [] {
        return false;
      }
      var at: nat := 0;
      assert index[..0] == [];
      for k := 0 to |index|
        invariant Valid() && contents == old(contents) && at < |nodes| && |nodes| == |paths| && paths[at] == index[..k]
        invariant forall w :: w in ids <==> w in old(ids) || Begins(w, index[..k])
      {
        NextPrefix(index, k);
        NodeIsNamed(nodes, paths, ids, at, index[k]);
        at := Descend(at, index[k]);
      }
      assert index[..|index|] == index;
      HeldAt(nodes, paths, contents, at);
      if nodes[at].val.None? {
        KeepAt(nodes, paths, ids, contents, at, item);
        nodes := nodes[at := nodes[at].(val := Some(item))];
        contents := contents[index := item];
        return true;
      }
      return false;
    }

    /** Puts the children of a node on the stack, the last letter first. */
    method PushChildren(i: nat, stack: seq<nat>) returns (r: seq<nat>)
      requires Valid() && i < |nodes| && Inside(stack, |nodes|)
      ensures Inside(r, |nodes|)
      ensures Stacked(nodes, paths, ids, r) == BelowFrom(nodes, paths, ids, i, 0) + Stacked(nodes, paths, ids, stack)
    {
      hide Wired, Holds, Below, BelowFrom, Stacked, Inside;
      r := stack;
      var c: nat := LETTERS;
      BelowFromIs(nodes, paths, ids, i, c);
      while c > 0
        invariant c <= LETTERS && Inside(r, |nodes|)
        invariant Stacked(nodes, paths, ids, r) == BelowFrom(nodes, paths, ids, i, c) + Stacked(nodes, paths, ids, stack)
      {
        c := c - 1;
        BelowFromIs(nodes, paths, ids, i, c);
        if nodes[i].next[c].Some? {
          StackedPush(nodes, paths, ids, r, nodes[i].next[c].value);
          r := r + [nodes[i].next[c].value];
        }
      }
    }

    /** Prints what the nodes hold, a node before its children, driven by a stack. */
    method Print() returns (out: seq<Item>)
      requires Valid()
      ensures Printed(out, contents)
    {
      hide Wired, Holds, Below, BelowFrom, Stacked, Inside, Held, Printed;
      Start();
      out := [];
      var stack := PushChildren(0, []);
      ghost var visited: seq<nat> := [0];
      while stack != []
        invariant Inside(stack, |nodes|) && Inside(visited, |nodes|)
        invariant visited + Stacked(nodes, paths, ids, stack) == Below(nodes, paths, ids, 0)
        invariant out == Held(nodes, visited)
        decreases |Below(nodes, paths, ids, 0)| - |visited|
      {
        PopAndPush(nodes, paths, ids, stack, visited);
        HeldSnoc(nodes, visited, stack[|stack| - 1]);
        var node := stack[|stack| - 1];
        stack := stack[..|stack| - 1];
        if nodes[node].val.Some? {
          out := out + [nodes[node].val.value];
        }
        stack := PushChildren(node, stack);
        visited := visited + [node];
      }
      StackedNothing(nodes, paths, ids);
      assert visited + [] == visited;
      WalkPrints(nodes, paths, ids, contents);
    }

    lemma Start()
      requires Valid()
      ensures |nodes| > 0 && Inside([], |nodes|) && Inside([0], |nodes|)
      ensures Stacked(nodes, paths, ids, []) == [] && Held(nodes, [0]) == []
      ensures Below(nodes, paths, ids, 0) == [0] + BelowFrom(nodes, paths, ids, 0, 0)
    {
      Root(nodes, paths, ids, contents);
      HeldSnoc(nodes, [], 0);
      assert [] + [0] == [0];
    }
  }
}

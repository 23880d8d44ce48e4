/** The list-and-index cache. */
module GenericLru {
  import opened Options
  import opened Sequences

  import opened LruSpec

  /** A list node; its id stands for the iterator that refers to it. */
  datatype Node<+V> = Node(id: nat, entry: Entry<V>)

  ghost function Entries<V>(l: seq<Node<V>>): (r: seq<Entry<V>>)
    ensures |r| == |l|
  {
    seq(|l|, i requires 0 <= i < |l| => l[i].entry)
  }

  /** The position of the node an iterator refers to. */
  function IndexOf<V>(l: seq<Node<V>>, id: nat): (i: nat)
    requires exists j :: 0 <= j < |l| && l[j].id == id
    ensures i < |l| && l[i].id == id
  {
    if l[0].id == id then 0
    else
      assert exists j :: 0 <= j < |l[1..]| && l[1..][j].id == id by {
        var j :| 0 <= j < |l| && l[j].id == id;
        assert l[1..][j - 1].id == id;
      }
      1 + IndexOf(l[1..], id)
  }

  /** Every key of the list with the iterator of its node. */
  ghost function Index<V>(l: seq<Node<V>>): map<Key, nat> {
    if l == [] then map[] else Index(l[..|l| - 1])[l[|l| - 1].entry.key := l[|l| - 1].id]
  }

  ghost predicate Separate<V>(l: seq<Node<V>>) {
    forall i, j :: 0 <= i < j < |l| ==> l[i].id != l[j].id && l[i].entry.key != l[j].entry.key
  }

  /** The index is exactly that of the list, and no key or iterator occurs twice. */
  ghost predicate Indexed<V>(l: seq<Node<V>>, cache: map<Key, nat>) {
    cache == Index(l) && Separate(l)
  }

  ghost predicate Fresh<V>(l: seq<Node<V>>, id: nat) {
    forall i :: 0 <= i < |l| ==> l[i].id < id
  }

  lemma {:induction false} IndexConcat<V>(s: seq<Node<V>>, t: seq<Node<V>>)
    ensures Index(s + t) == Index(s) + Index(t)
  {
    if t == [] {
      assert s + t == s;
    } else {
      assert (s + t)[..|s + t| - 1] == s + t[..|t| - 1];
      IndexConcat(s, t[..|t| - 1]);
    }
  }

  lemma IndexOne<V>(node: Node<V>)
    ensures Index([node]) == map[node.entry.key := node.id]
  {}

  lemma {:induction false} IndexHas<V>(l: seq<Node<V>>, key: Key)
    ensures key in Index(l) <==> exists i :: 0 <= i < |l| && l[i].entry.key == key
  {
    if l != [] {
      var rest := l[..|l| - 1];
      IndexHas(rest, key);
      if i :| 0 <= i < |l| && l[i].entry.key == key {
        assert i < |rest| ==> rest[i].entry.key == key;
      }
    }
  }

  lemma {:induction false} IndexSize<V>(l: seq<Node<V>>)
    requires Separate(l)
    ensures |Index(l)| == |l|
  {
    if l != [] {
      IndexSize(l[..|l| - 1]);
      IndexHas(l[..|l| - 1], l[|l| - 1].entry.key);
    }
  }

  /** The index around one node. */
  lemma {:induction false} IndexAround<V>(a: seq<Node<V>>, node: Node<V>, b: seq<Node<V>>)
    requires Separate(a + [node] + b)
    ensures var key := node.entry.key;
      && Index(a + [node] + b) == (Index(a) + Index(b))[key := node.id]
      && Index(a + b) == Index(a) + Index(b)
      && key !in Index(a + b)
      && Index(a + [node] + b)[key] == node.id
  {
    var l, key := a + [node] + b, node.entry.key;
    IndexConcat(a + [node], b);
    IndexConcat(a, [node]);
    IndexConcat(a, b);
    IndexOne(node);
    hide Index;
    NotAround(a, node, b);
    assert (Index(a) + map[key := node.id]) + Index(b) == (Index(a) + Index(b))[key := node.id];
  }

  lemma {:induction false} NotAround<V>(a: seq<Node<V>>, node: Node<V>, b: seq<Node<V>>)
    requires Separate(a + [node] + b)
    ensures node.entry.key !in Index(a) && node.entry.key !in Index(b)
  {
    var l, key := a + [node] + b, node.entry.key;
    forall i | 0 <= i < |a|
      ensures a[i].entry.key != key
    {
      assert l[i] == a[i] && l[|a|] == node;
    }
    forall i | 0 <= i < |b|
      ensures b[i].entry.key != key
    {
      assert l[|a| + 1 + i] == b[i] && l[|a|] == node;
    }
    hide Separate;
    IndexHas(a, key);
    IndexHas(b, key);
  }

  lemma KeysDistinct<V>(l: seq<Node<V>>)
    requires Separate(l)
    ensures Distinct(Entries(l))
  {}

  lemma AroundNode<V>(l: seq<Node<V>>, i: nat)
    requires i < |l|
    ensures l[..i] + [l[i]] + l[i + 1..] == l
    ensures DropAt(l, i) == l[..i] + l[i + 1..]
    ensures Entries(DropAt(l, i)) == DropAt(Entries(l), i)
  {}

  /** The index finds the node that the list specification finds. */
  lemma {:induction false} IndexFinds<V>(l: seq<Node<V>>, key: Key)
    requires Separate(l)
    ensures key in Index(l) <==> Position(Entries(l), key) < |l|
    ensures key in Index(l) ==> exists j :: 0 <= j < |l| && l[j].id == Index(l)[key]
    ensures key in Index(l) ==> IndexOf(l, Index(l)[key]) == Position(Entries(l), key)
  {
    var p := Position(Entries(l), key);
    IndexHas(l, key);
    if p < |l| {
      assert Entries(l)[p].key == key;
      IndexAt(l, p);
      IdUnique(l, p);
    } else {
      forall i | 0 <= i < |l|
        ensures l[i].entry.key != key
      {
        assert Entries(l)[i].key != key;
      }
    }
  }

  lemma {:induction false} IndexAt<V>(l: seq<Node<V>>, p: nat)
    requires Separate(l) && p < |l|
    ensures l[p].entry.key in Index(l) && Index(l)[l[p].entry.key] == l[p].id
  {
    hide Index, DropAt, Entries;
    AroundNode(l, p);
    IndexAround(l[..p], l[p], l[p + 1..]);
  }

  lemma {:induction false} IdUnique<V>(l: seq<Node<V>>, p: nat)
    requires Separate(l) && p < |l|
    ensures IndexOf(l, l[p].id) == p
  {
    var q := IndexOf(l, l[p].id);
    assert l[q].id == l[p].id;
  }

  /** A node taken to the front under the same key and id. */
  lemma {:induction false} SpliceIndex<V>(a: seq<Node<V>>, was: Node<V>, b: seq<Node<V>>, node: Node<V>)
    requires Separate(a + [was] + b) && node.id == was.id && node.entry.key == was.entry.key
    requires Separate([node] + (a + b))
    ensures Index([node] + (a + b)) == Index(a + [was] + b)
  {
    hide Index, Separate;
    IndexAround(a, was, b);
    FrontIndex(node, a + b);
  }

  lemma {:induction false} FrontIndex<V>(node: Node<V>, l: seq<Node<V>>)
    requires Separate([node] + l)
    ensures Index([node] + l) == Index(l)[node.entry.key := node.id]
  {
    IndexConcat([node], l);
    IndexOne(node);
    hide Index;
    assert [] + [node] + l == [node] + l;
    NotAround([], node, l);
    assert map[node.entry.key := node.id] + Index(l) == Index(l)[node.entry.key := node.id];
  }

  /** Splicing a node to the front, possibly with new data, leaves every iterator valid. */
  lemma {:induction false} SpliceFront<V>(l: seq<Node<V>>, i: nat, node: Node<V>)
    requires Separate(l) && i < |l| && node.id == l[i].id && node.entry.key == l[i].entry.key
    ensures Separate([node] + DropAt(l, i))
    ensures Index([node] + DropAt(l, i)) == Index(l)
  {
    SeparateFront(l, i, node);
    hide Index, Separate, DropAt, Entries;
    AroundNode(l, i);
    SpliceIndex(l[..i], l[i], l[i + 1..], node);
  }

  lemma EntriesFront<V>(node: Node<V>, l: seq<Node<V>>)
    ensures Entries([node] + l) == [node.entry] + Entries(l)
  {}

  lemma SeparateFront<V>(l: seq<Node<V>>, i: nat, node: Node<V>)
    requires Separate(l) && i < |l| && node.id == l[i].id && node.entry.key == l[i].entry.key
    ensures Separate([node] + DropAt(l, i))
  {
    var t := [node] + DropAt(l, i);
    forall j | 0 <= j < |l|
      ensures t[j].id == l[if j == 0 then i else if j <= i then j - 1 else j].id
      ensures t[j].entry.key == l[if j == 0 then i else if j <= i then j - 1 else j].entry.key
    {}
  }

  lemma SeparateDrop<V>(l: seq<Node<V>>, i: nat)
    requires Separate(l) && i < |l|
    ensures Separate(DropAt(l, i))
  {}

  /** Erasing a node together with its key. */
  lemma {:induction false} EraseNode<V>(l: seq<Node<V>>, i: nat)
    requires Separate(l) && i < |l|
    ensures Separate(DropAt(l, i))
    ensures Index(DropAt(l, i)) == Index(l) - {l[i].entry.key}
  {
    SeparateDrop(l, i);
    hide Index, Separate, DropAt, Entries;
    AroundNode(l, i);
    IndexAround(l[..i], l[i], l[i + 1..]);
    var m, key := Index(DropAt(l, i)), l[i].entry.key;
    assert m[key := l[i].id] - {key} == m;
  }

  /** A new node at the front under a new key. */
  lemma {:induction false} InsertFront<V>(l: seq<Node<V>>, node: Node<V>)
    requires Separate(l) && node.entry.key !in Index(l) && Fresh(l, node.id)
    ensures Separate([node] + l)
    ensures Index([node] + l) == Index(l)[node.entry.key := node.id]
  {
    SeparateInsert(l, node);
    hide Index, Separate;
    FrontIndex(node, l);
  }

  lemma {:induction false} SeparateInsert<V>(l: seq<Node<V>>, node: Node<V>)
    requires Separate(l) && node.entry.key !in Index(l) && Fresh(l, node.id)
    ensures Separate([node] + l)
  {
    var t := [node] + l;
    IndexHas(l, node.entry.key);
    assert forall i :: 1 <= i < |t| ==> t[i] == l[i - 1];
  }

  lemma {:induction false} OutsideNothing<V>(r: seq<Entry<V>>, lo: Key)
    ensures Outside(r, lo, lo) == r
  {
    if r != [] {
      OutsideNothing(r[1..], lo);
    }
  }

  lemma {:induction false} OutsideHas<V>(r: seq<Entry<V>>, lo: Key, hi: Key, key: Key)
    ensures Position(Outside(r, lo, hi), key) < |Outside(r, lo, hi)| ==> Position(r, key) < |r|
  {
    if r != [] {
      OutsideHas(r[1..], lo, hi, key);
    }
  }

  /** Widening the range by one key drops that key. */
  lemma {:induction false} OutsideNext<V>(r: seq<Entry<V>>, lo: Key, hi: Key)
    requires lo <= hi && Distinct(r)
    ensures Outside(r, lo, hi + 1) == WithoutKey(Outside(r, lo, hi), hi)
  {
    if r != [] {
      var e, rest := r[0], Outside(r[1..], lo, hi);
      DistinctHead(r);
      hide Distinct, WithoutKey, Position;
      OutsideNext(r[1..], lo, hi);
      WithoutHead(e, rest, hi);
      if e.key == hi {
        OutsideHas(r[1..], lo, hi, hi);
        WithoutAbsent(rest, hi);
      }
    }
  }

  ghost function WithoutKey<V>(r: seq<Entry<V>>, key: Key): seq<Entry<V>> {
    var p := Position(r, key);
    if p < |r| then DropAt(r, p) else r
  }

  lemma {:induction false} WithoutAbsent<V>(r: seq<Entry<V>>, key: Key)
    requires Position(r, key) == |r|
    ensures WithoutKey(r, key) == r
  {}

  lemma WithoutHead<V>(e: Entry<V>, r: seq<Entry<V>>, key: Key)
    ensures WithoutKey([e] + r, key) == if e.key == key then r else [e] + WithoutKey(r, key)
  {
    var l, p := [e] + r, Position(r, key);
    assert l[0] == e && l[1..] == r;
    assert Position(l, key) == if e.key == key then 0 else 1 + p;
    DropHead(e, r, p);
    hide DropAt, Position;
  }

  lemma DropHead<T>(e: T, r: seq<T>, p: nat)
    ensures DropAt([e] + r, 0) == r
    ensures p < |r| ==> DropAt([e] + r, 1 + p) == [e] + DropAt(r, p)
  {}

  lemma DistinctHead<V>(r: seq<Entry<V>>)
    requires r != [] && Distinct(r)
    ensures Position(r[1..], r[0].key) == |r| - 1
    ensures Distinct(r[1..])
  {
    forall i | 0 <= i < |r| - 1
      ensures r[1..][i].key != r[0].key
    {}
  }

  class GenericLruCache<V(==)> {
    const lenMax: nat
    var recent: seq<Node<V>>
    var cache: map<Key, nat>
    var nextId: nat

    ghost predicate Valid()
      reads this
    {
      lenMax > 0 && |recent| <= lenMax && Indexed(recent, cache) && Fresh(recent, nextId)
    }

    /** The entries, most recent first. */
    ghost function State(): (r: seq<Entry<V>>)
      reads this
    {
      Entries(recent)
    }

    constructor (lenMax: nat)
      requires lenMax > 0
      ensures Valid() && this.lenMax == lenMax && State() == []
    {
      this.lenMax := lenMax;
      recent, cache, nextId := [], map[], 0;
    }

    method Find(key: Key) returns (r: Option<V>)
      requires Valid()
      modifies this
      ensures Valid()
      ensures LruStep(old(State()), lenMax, Op.Find(key)) == (State(), Found(r))
    {
      hide Index, Separate, IndexOf, Position;
      IndexFinds(recent, key);
      IndexSize(recent);
      r := None;
      if key in cache {
        var i := IndexOf(recent, cache[key]);
        SpliceFront(recent, i, recent[i]);
        EntriesFront(recent[i], DropAt(recent, i));
        AroundNode(recent, i);
        recent := [recent[i]] + DropAt(recent, i);
        r := Some(recent[0].entry.data);
      }
    }

    method Update(key: Key, data: V) returns (evicted: Option<Entry<V>>)
      requires Valid()
      modifies this
      ensures Valid()
      ensures LruStep(old(State()), lenMax, Op.Update(key, data)) == (State(), Displaced(evicted))
    {
      hide Index, Separate, IndexOf, Position;
      IndexFinds(recent, key);
      IndexSize(recent);
      evicted := None;
      if key in cache {
        var i := IndexOf(recent, cache[key]);
        evicted := Some(recent[i].entry);
        var node := recent[i].(entry := Entry(recent[i].entry.key, data));
        SpliceFront(recent, i, node);
        EntriesFront(node, DropAt(recent, i));
        AroundNode(recent, i);
        recent := [node] + DropAt(recent, i);
        return;
      } else if !(|cache| < lenMax) {
        var back := recent[|recent| - 1];
        EraseNode(recent, |recent| - 1);
        AroundNode(recent, |recent| - 1);
        assert DropAt(recent, |recent| - 1) == recent[..|recent| - 1];
        cache := cache - {back.entry.key};
        evicted := Some(back.entry);
        recent := recent[..|recent| - 1];
        assert State() == old(State())[..|old(recent)| - 1];
      }
      var node := Node(nextId, Entry(key, data));
      InsertFront(recent, node);
      EntriesFront(node, recent);
      recent := [node] + recent;
      cache := cache[key := nextId];
      nextId := nextId + 1;
    }

    method Invalidate(key: Key)
      requires Valid()
      modifies this
      ensures Valid()
      ensures LruStep(old(State()), lenMax, Op.Invalidate(key)) == (State(), Done)
    {
      hide Index, Separate, IndexOf, Position;
      IndexFinds(recent, key);
      IndexSize(recent);
      if key in cache {
        var i := IndexOf(recent, cache[key]);
        EraseNode(recent, i);
        AroundNode(recent, i);
        recent := DropAt(recent, i);
        cache := cache - {key};
      }
    }

    /** Invalidates every key of lo..hi, one after the other. */
    method InvalidateRange(lo: Key, hi: Key)
      requires Valid() && lo < hi
      modifies this
      ensures Valid()
      ensures State() == Outside(old(State()), lo, hi)
    {
      KeysDistinct(recent);
      OutsideNothing(State(), lo);
      for key := lo to hi
        invariant Valid()
        invariant State() == Outside(old(State()), lo, key)
      {
        OutsideNext(old(State()), lo, key);
        Invalidate(key);
      }
    }
  }
}

/** The list of frequency buckets as a table of rows. */
module LfuList {
  import opened Sequences

  import opened LfuSpec

  /** A list node and a bucket; the ids stand for the iterators that refer to them. */
  datatype Node<+V> = Node(id: nat, key: Key, value: V)

  datatype Bucket<+V> = Bucket(id: nat, count: nat, nodes: seq<Node<V>>)

  /** Where a key is stored, and what is stored there. */
  datatype Row<+V> = Row(bucket: nat, node: nat, value: V, count: nat)

  // ----- tables -----

  ghost function NodeRows<V>(id: nat, count: nat, nodes: seq<Node<V>>): map<Key, Row<V>> {
    if nodes == [] then map[]
    else
      var last := nodes[|nodes| - 1];
      NodeRows(id, count, nodes[..|nodes| - 1])[last.key := Row(id, last.id, last.value, count)]
  }

  ghost function Rows<V>(l: seq<Bucket<V>>): map<Key, Row<V>> {
    if l == [] then map[]
    else
      var last := l[|l| - 1];
      Rows(l[..|l| - 1]) + NodeRows(last.id, last.count, last.nodes)
  }

  /** No key occurs twice. */
  ghost predicate NodesTidy<V>(nodes: seq<Node<V>>) {
    nodes == [] ||
    (NodesTidy(nodes[..|nodes| - 1]) && nodes[|nodes| - 1].key !in NodeRows(0, 0, nodes[..|nodes| - 1]))
  }

  ghost predicate Tidy<V>(l: seq<Bucket<V>>) {
    l == [] ||
    (var rest, last := l[..|l| - 1], l[|l| - 1];
     Tidy(rest) && NodesTidy(last.nodes) && Rows(rest).Keys !! NodeRows(0, 0, last.nodes).Keys)
  }

  lemma {:induction false} NodeRowsConcat<V>(id: nat, count: nat, a: seq<Node<V>>, b: seq<Node<V>>)
    ensures NodeRows(id, count, a + b) == NodeRows(id, count, a) + NodeRows(id, count, b)
  {
    if b == [] {
      assert a + b == a;
    } else {
      assert (a + b)[..|a + b| - 1] == a + b[..|b| - 1];
      NodeRowsConcat(id, count, a, b[..|b| - 1]);
    }
  }

  lemma {:induction false} NodeKeys<V>(id: nat, count: nat, nodes: seq<Node<V>>)
    ensures NodeRows(id, count, nodes).Keys == NodeRows(0, 0, nodes).Keys
  {
    if nodes != [] {
      NodeKeys(id, count, nodes[..|nodes| - 1]);
    }
  }

  lemma {:induction false} NodesTidyConcat<V>(a: seq<Node<V>>, b: seq<Node<V>>)
    ensures NodesTidy(a + b) <==> NodesTidy(a) && NodesTidy(b) && NodeRows(0, 0, a).Keys !! NodeRows(0, 0, b).Keys
  {
    if b == [] {
      assert a + b == a;
    } else {
      var b', last := b[..|b| - 1], b[|b| - 1];
      assert (a + b)[..|a + b| - 1] == a + b';
      NodesTidyConcat(a, b');
      NodeRowsConcat(0, 0, a, b');
      assert NodeRows(0, 0, b).Keys == NodeRows(0, 0, b').Keys + {last.key};
    }
  }

  lemma {:induction false} RowsConcat<V>(a: seq<Bucket<V>>, b: seq<Bucket<V>>)
    ensures Rows(a + b) == Rows(a) + Rows(b)
  {
    if b == [] {
      assert a + b == a;
    } else {
      var b', last := b[..|b| - 1], b[|b| - 1];
      assert (a + b)[..|a + b| - 1] == a + b';
      RowsConcat(a, b');
      MergeAssociative(Rows(a), Rows(b'), NodeRows(last.id, last.count, last.nodes));
    }
  }

  lemma MergeAssociative<K, T>(a: map<K, T>, b: map<K, T>, c: map<K, T>)
    ensures a + b + c == a + (b + c)
  {}

  lemma RowsOne<V>(b: Bucket<V>)
    ensures Rows([b]) == NodeRows(b.id, b.count, b.nodes)
    ensures Tidy([b]) <==> NodesTidy(b.nodes)
  {
    assert [b][..0] == [];
  }

  lemma {:induction false} TidyConcat<V>(a: seq<Bucket<V>>, b: seq<Bucket<V>>)
    ensures Tidy(a + b) <==> Tidy(a) && Tidy(b) && Rows(a).Keys !! Rows(b).Keys
  {
    if b == [] {
      assert a + b == a;
    } else {
      var b', last := b[..|b| - 1], b[|b| - 1];
      assert (a + b)[..|a + b| - 1] == a + b';
      TidyConcat(a, b');
      RowsConcat(a, b');
      NodeKeys(last.id, last.count, last.nodes);
      assert Rows(b).Keys == Rows(b').Keys + NodeRows(0, 0, last.nodes).Keys;
    }
  }

  ghost function BucketRows<V>(b: Bucket<V>): map<Key, Row<V>> {
    NodeRows(b.id, b.count, b.nodes)
  }

  /** A list around one of its buckets. */
  lemma {:induction false} AroundBucket<V>(p: seq<Bucket<V>>, b: Bucket<V>, s: seq<Bucket<V>>)
    ensures Rows(p + [b] + s) == Rows(p) + BucketRows(b) + Rows(s)
    ensures Tidy(p + [b] + s) <==>
      && Tidy(p) && NodesTidy(b.nodes) && Tidy(s)
      && Rows(p).Keys !! BucketRows(b).Keys && Rows(p).Keys !! Rows(s).Keys && BucketRows(b).Keys !! Rows(s).Keys
  {
    hide Rows, Tidy, NodesTidy, NodeRows;
    RowsConcat(p + [b], s);
    RowsConcat(p, [b]);
    TidyConcat(p + [b], s);
    TidyConcat(p, [b]);
    RowsOne(b);
  }

  /** A bucket around one of its nodes. */
  lemma {:induction false} AroundNode<V>(id: nat, count: nat, x: seq<Node<V>>, node: Node<V>, y: seq<Node<V>>)
    ensures NodeRows(id, count, x + [node] + y) ==
      NodeRows(id, count, x)[node.key := Row(id, node.id, node.value, count)] + NodeRows(id, count, y)
    ensures NodeRows(id, count, x + y) == NodeRows(id, count, x) + NodeRows(id, count, y)
    ensures NodesTidy(x + [node] + y) <==>
      && NodesTidy(x + y)
      && node.key !in NodeRows(id, count, x) && node.key !in NodeRows(id, count, y)
  {
    NodeOne(id, count, node);
    NodeOne(0, 0, node);
    hide NodeRows, NodesTidy;
    NodeRowsConcat(id, count, x + [node], y);
    NodeRowsConcat(id, count, x, [node]);
    NodeRowsConcat(id, count, x, y);
    NodesTidyConcat(x + [node], y);
    NodesTidyConcat(x, [node]);
    NodesTidyConcat(x, y);
    NodeRowsConcat(0, 0, x, [node]);
    NodeKeys(id, count, x);
    NodeKeys(id, count, y);
  }

  lemma {:induction false} NodeOne<V>(id: nat, count: nat, node: Node<V>)
    ensures NodeRows(id, count, [node]) == map[node.key := Row(id, node.id, node.value, count)]
    ensures NodesTidy([node])
  {
    assert [node][..0] == [];
  }

  // ----- changing a list -----

  lemma SplitAt<T>(s: seq<T>, i: nat, x: T)
    requires i < |s|
    ensures s == s[..i] + [s[i]] + s[i + 1..]
    ensures s[i := x] == s[..i] + [x] + s[i + 1..]
  {}

  lemma MapWithout<K, T>(p: map<K, T>, b: map<K, T>, s: map<K, T>, k: K)
    requires k !in p && k !in s
    ensures p + (b - {k}) + s == (p + b + s) - {k}
  {}

  lemma MapWith<K, T>(p: map<K, T>, b: map<K, T>, s: map<K, T>, k: K, t: T)
    requires k !in s
    ensures p + b[k := t] + s == (p + b + s)[k := t]
  {}

  lemma MapNothing<K, T>(p: map<K, T>, s: map<K, T>)
    ensures p + map[] + s == p + s
  {}

  /** An empty bucket adds and takes nothing. */
  lemma {:induction false} EmptyBetween<V>(p: seq<Bucket<V>>, b: Bucket<V>, s: seq<Bucket<V>>)
    requires b.nodes == []
    ensures Rows(p + [b] + s) == Rows(p + s)
    ensures Tidy(p + [b] + s) <==> Tidy(p + s)
  {
    EmptyBucketRows(b);
    hide Rows, Tidy, NodesTidy, BucketRows;
    AroundBucket(p, b, s);
    RowsConcat(p, s);
    TidyConcat(p, s);
    MapNothing(Rows(p), Rows(s));
  }

  lemma {:induction false} InsertEmpty<V>(l: seq<Bucket<V>>, i: nat, b: Bucket<V>)
    requires i <= |l| && b.nodes == []
    ensures Rows(InsertAt(l, i, b)) == Rows(l)
    ensures Tidy(InsertAt(l, i, b)) <==> Tidy(l)
  {
    hide Rows, Tidy;
    EmptyBetween(l[..i], b, l[i..]);
    assert l[..i] + l[i..] == l;
  }

  lemma {:induction false} DropEmpty<V>(l: seq<Bucket<V>>, i: nat)
    requires i < |l| && l[i].nodes == []
    ensures Rows(DropAt(l, i)) == Rows(l)
    ensures Tidy(DropAt(l, i)) <==> Tidy(l)
  {
    hide Rows, Tidy;
    EmptyBetween(l[..i], l[i], l[i + 1..]);
    SplitAt(l, i, l[i]);
  }

  lemma EmptyBucketRows<V>(b: Bucket<V>)
    requires b.nodes == []
    ensures BucketRows(b) == map[] && NodesTidy(b.nodes)
  {}

  /** The rows of a bucket without one of its nodes. */
  lemma BucketWithout<V>(b: Bucket<V>, j: nat)
    requires NodesTidy(b.nodes) && j < |b.nodes|
    ensures var node, rest := b.nodes[j], b.(nodes := DropAt(b.nodes, j));
      && NodesTidy(rest.nodes)
      && BucketRows(rest) == BucketRows(b) - {node.key}
      && node.key in BucketRows(b) && BucketRows(b)[node.key] == Row(b.id, node.id, node.value, b.count)
  {
    hide NodesTidy, NodeRows;
    SplitAt(b.nodes, j, b.nodes[j]);
    AroundNode(b.id, b.count, b.nodes[..j], b.nodes[j], b.nodes[j + 1..]);
  }

  /** Taking a node out of its bucket takes its key out of the rows. */
  lemma RemoveNode<V>(l: seq<Bucket<V>>, b: nat, j: nat)
    requires Tidy(l) && b < |l| && j < |l[b].nodes|
    ensures var node, l' := l[b].nodes[j], l[b := l[b].(nodes := DropAt(l[b].nodes, j))];
      && Tidy(l')
      && node.key in Rows(l) && Rows(l)[node.key] == Row(l[b].id, node.id, node.value, l[b].count)
      && Rows(l') == Rows(l) - {node.key}
  {
    var bucket := l[b];
    var node, rest := bucket.nodes[j], bucket.(nodes := DropAt(bucket.nodes, j));
    hide Rows, Tidy, NodesTidy, BucketRows, DropAt;
    SplitAt(l, b, rest);
    AroundBucket(l[..b], bucket, l[b + 1..]);
    AroundBucket(l[..b], rest, l[b + 1..]);
    BucketWithout(bucket, j);
    MapWithout(Rows(l[..b]), BucketRows(bucket), Rows(l[b + 1..]), node.key);
  }

  lemma BucketWith<V>(b: Bucket<V>, node: Node<V>)
    requires NodesTidy(b.nodes) && node.key !in BucketRows(b)
    ensures var more := b.(nodes := [node] + b.nodes);
      && NodesTidy(more.nodes)
      && BucketRows(more) == BucketRows(b)[node.key := Row(b.id, node.id, node.value, b.count)]
  {
    NoNodes<V>(b.id, b.count);
    hide NodesTidy, NodeRows;
    AroundNode(b.id, b.count, [], node, b.nodes);
    assert [] + [node] + b.nodes == [node] + b.nodes;
    assert [] + b.nodes == b.nodes;
    var row, rows := Row(b.id, node.id, node.value, b.count), BucketRows(b);
    assert map[node.key := row] + rows == rows[node.key := row];
  }

  /** A node with a new key at the front of a bucket adds a row. */
  lemma PushNode<V>(l: seq<Bucket<V>>, b: nat, node: Node<V>)
    requires Tidy(l) && b < |l| && node.key !in Rows(l)
    ensures var l' := l[b := l[b].(nodes := [node] + l[b].nodes)];
      && Tidy(l')
      && Rows(l') == Rows(l)[node.key := Row(l[b].id, node.id, node.value, l[b].count)]
  {
    var bucket := l[b];
    var more := bucket.(nodes := [node] + bucket.nodes);
    hide Rows, Tidy, NodesTidy, BucketRows;
    SplitAt(l, b, more);
    AroundBucket(l[..b], bucket, l[b + 1..]);
    AroundBucket(l[..b], more, l[b + 1..]);
    BucketWith(bucket, node);
    MapWith(Rows(l[..b]), BucketRows(bucket), Rows(l[b + 1..]), node.key, Row(bucket.id, node.id, node.value, bucket.count));
  }

  lemma {:induction false} NoNodes<V>(id: nat, count: nat)
    ensures NodeRows<V>(id, count, []) == map[]
  {}
}

/** Order in the list of buckets: ascending hit counts, and most recent touch first in each. */
module LfuOrder {
  import opened Sequences

  import opened LfuSpec
  import opened LfuList

  lemma {:induction false} NodeHas<V>(id: nat, count: nat, nodes: seq<Node<V>>, i: nat)
    requires i < |nodes|
    ensures nodes[i].key in NodeRows(id, count, nodes)
  {
    if i < |nodes| - 1 {
      NodeHas(id, count, nodes[..|nodes| - 1], i);
    }
  }

  lemma {:induction false} NodeLocated<V>(id: nat, count: nat, nodes: seq<Node<V>>, key: Key) returns (i: nat)
    requires key in NodeRows(id, count, nodes)
    ensures i < |nodes| && nodes[i].key == key
  {
    if nodes[|nodes| - 1].key == key {
      i := |nodes| - 1;
    } else {
      i := NodeLocated(id, count, nodes[..|nodes| - 1], key);
    }
  }

  lemma {:induction false} KeyLocated<V>(l: seq<Bucket<V>>, key: Key) returns (b: nat, i: nat)
    requires key in Rows(l)
    ensures b < |l| && i < |l[b].nodes| && l[b].nodes[i].key == key
  {
    var last := l[|l| - 1];
    if key in NodeRows(last.id, last.count, last.nodes) {
      b := |l| - 1;
      i := NodeLocated(last.id, last.count, last.nodes, key);
    } else {
      b, i := KeyLocated(l[..|l| - 1], key);
    }
  }

  /** Two nodes of a tidy bucket have different keys. */
  lemma {:induction false} NodesDiffer<V>(nodes: seq<Node<V>>, i: nat, j: nat)
    requires NodesTidy(nodes) && i < |nodes| && j < |nodes| && i != j
    ensures nodes[i].key != nodes[j].key
  {
    hide NodesTidy, NodeRows;
    SplitAt(nodes, j, nodes[j]);
    AroundNode(0, 0, nodes[..j], nodes[j], nodes[j + 1..]);
    if i < j {
      NodeHas(0, 0, nodes[..j], i);
    } else {
      NodeHas(0, 0, nodes[j + 1..], i - j - 1);
    }
  }

  lemma {:induction false} BucketTidy<V>(l: seq<Bucket<V>>, b: nat)
    requires Tidy(l) && b < |l|
    ensures NodesTidy(l[b].nodes)
  {
    hide Tidy, NodesTidy, Rows;
    SplitAt(l, b, l[b]);
    AroundBucket(l[..b], l[b], l[b + 1..]);
  }

  ghost predicate IdsApart<V>(l: seq<Bucket<V>>) {
    forall a, b :: 0 <= a < b < |l| ==> l[a].id != l[b].id
  }

  /** Nodes at different places have different keys. */
  lemma {:induction false} PlacesApart<V>(l: seq<Bucket<V>>, a: nat, i: nat, b: nat, j: nat)
    requires Tidy(l) && IdsApart(l) && a < |l| && i < |l[a].nodes| && b < |l| && j < |l[b].nodes|
    requires a != b || i != j
    ensures l[a].nodes[i].key != l[b].nodes[j].key
  {
    if a == b {
      BucketTidy(l, a);
      NodesDiffer(l[a].nodes, i, j);
    } else {
      RemoveNode(l, a, i);
      RemoveNode(l, b, j);
      hide Tidy, Rows;
      assert l[a].id != l[b].id;
    }
  }

  // ----- order -----

  ghost predicate Ascending<V>(l: seq<Bucket<V>>) {
    && (forall b :: 0 <= b < |l| ==> l[b].count >= 1)
    && (forall a, b :: 0 <= a < b < |l| ==> l[a].count < l[b].count)
  }

  ghost predicate Stamped<V>(nodes: seq<Node<V>>, stamps: map<Key, nat>) {
    && (forall i :: 0 <= i < |nodes| ==> nodes[i].key in stamps)
    && (forall i, j :: 0 <= i < j < |nodes| ==> stamps[nodes[i].key] > stamps[nodes[j].key])
  }

  ghost predicate AllStamped<V>(l: seq<Bucket<V>>, stamps: map<Key, nat>) {
    forall b :: 0 <= b < |l| ==> Stamped(l[b].nodes, stamps)
  }

  /** All buckets but possibly the one at position gap have nodes. */
  ghost predicate FilledBut<V>(l: seq<Bucket<V>>, gap: int) {
    forall b :: 0 <= b < |l| && b != gap ==> l[b].nodes != []
  }

  /** An empty bucket is erased. */
  lemma DropOrdered<V>(l: seq<Bucket<V>>, stamps: map<Key, nat>, b: nat)
    requires IdsApart(l) && Ascending(l) && AllStamped(l, stamps) && FilledBut(l, b) && b < |l|
    ensures var l' := DropAt(l, b);
      IdsApart(l') && Ascending(l') && AllStamped(l', stamps) && FilledBut(l', -1)
  {
    DropAtIs(l, b);
    hide DropAt;
  }

  /** A fresh empty bucket goes in where its count belongs. */
  lemma InsertOrdered<V>(l: seq<Bucket<V>>, stamps: map<Key, nat>, i: nat, b: Bucket<V>)
    requires IdsApart(l) && Ascending(l) && AllStamped(l, stamps) && FilledBut(l, -1) && i <= |l|
    requires b.nodes == [] && b.count >= 1 && forall a :: 0 <= a < |l| ==> l[a].id != b.id
    requires (forall a :: 0 <= a < i ==> l[a].count < b.count) && (forall a :: i <= a < |l| ==> b.count < l[a].count)
    ensures var l' := InsertAt(l, i, b);
      IdsApart(l') && Ascending(l') && AllStamped(l', stamps) && FilledBut(l', i)
  {
    InsertAtIs(l, i, b);
    hide InsertAt;
  }

  /** The rest of a bucket stays stamped. */
  lemma DropStamped<V>(nodes: seq<Node<V>>, stamps: map<Key, nat>, j: nat)
    requires Stamped(nodes, stamps) && j < |nodes|
    ensures Stamped(DropAt(nodes, j), stamps)
  {
    DropAtIs(nodes, j);
    hide DropAt;
  }

  /** A stamp given to a key elsewhere changes nothing. */
  lemma StampElsewhere<V>(nodes: seq<Node<V>>, stamps: map<Key, nat>, key: Key, now: nat)
    requires Stamped(nodes, stamps) && forall i :: 0 <= i < |nodes| ==> nodes[i].key != key
    ensures Stamped(nodes, stamps[key := now])
  {}

  /** A node touched now goes first. */
  lemma PushStamped<V>(nodes: seq<Node<V>>, stamps: map<Key, nat>, node: Node<V>, now: nat)
    requires Stamped(nodes, stamps) && forall i :: 0 <= i < |nodes| ==> nodes[i].key != node.key
    requires forall k :: k in stamps ==> stamps[k] < now
    ensures Stamped([node] + nodes, stamps[node.key := now])
  {
    var l, stamps' := [node] + nodes, stamps[node.key := now];
    assert forall i :: 1 <= i < |l| ==> l[i] == nodes[i - 1];
  }
}

/** The list of frequency buckets with its index of iterator pairs. */
module GenericLfu {
  import opened Options
  import opened Sequences

  import opened LfuSpec
  import opened LfuList
  import opened LfuOrder

  /** A pair of iterators: the bucket and the node in it. */
  datatype Place = Place(bucket: nat, node: nat)

  function BucketAt<V>(l: seq<Bucket<V>>, id: nat): (b: nat)
    requires exists b :: 0 <= b < |l| && l[b].id == id
    ensures b < |l| && l[b].id == id
  {
    var last := |l| - 1;
    if l[last].id == id then last
    else
      assert exists b :: 0 <= b < last && l[..last][b].id == id by {
        var b :| 0 <= b < |l| && l[b].id == id;
        assert l[..last][b].id == id;
      }
      BucketAt(l[..last], id)
  }

  function NodeAt<V>(nodes: seq<Node<V>>, id: nat): (i: nat)
    requires exists i :: 0 <= i < |nodes| && nodes[i].id == id
    ensures i < |nodes| && nodes[i].id == id
  {
    var last := |nodes| - 1;
    if nodes[last].id == id then last
    else
      assert exists i :: 0 <= i < last && nodes[..last][i].id == id by {
        var i :| 0 <= i < |nodes| && nodes[i].id == id;
        assert nodes[..last][i].id == id;
      }
      NodeAt(nodes[..last], id)
  }

  /** No two rows share a node, and all iterators are older than next. */
  ghost predicate RowsApart<V>(rows: map<Key, Row<V>>, next: nat) {
    && (forall k :: k in rows ==> rows[k].node < next)
    && (forall j, k :: j in rows && k in rows && j != k ==> rows[j].node != rows[k].node)
  }

  ghost predicate OldIds<V>(l: seq<Bucket<V>>, next: nat) {
    forall b :: 0 <= b < |l| ==> l[b].id < next
  }

  ghost function Places<V>(rows: map<Key, Row<V>>): map<Key, Place> {
    map k | k in rows :: PlaceOf(rows, k)
  }

  ghost function PlaceOf<V>(rows: map<Key, Row<V>>, k: Key): Place
    requires k in rows
  {
    Place(rows[k].bucket, rows[k].node)
  }

  ghost function Items<V>(rows: map<Key, Row<V>>, stamps: map<Key, nat>): map<Key, Info<V>>
    requires rows.Keys == stamps.Keys
  {
    map k | k in rows :: InfoOf(rows, stamps, k)
  }

  ghost function InfoOf<V>(rows: map<Key, Row<V>>, stamps: map<Key, nat>, k: Key): Info<V>
    requires k in rows && k in stamps
  {
    Info(rows[k].value, rows[k].count, stamps[k])
  }

  /** Buckets ascend, none but the one at gap is empty, and each is ordered by last touch. */
  ghost predicate ListSound<V>(l: seq<Bucket<V>>, stamps: map<Key, nat>, gap: int) {
    Tidy(l) && IdsApart(l) && Ascending(l) && AllStamped(l, stamps) && FilledBut(l, gap)
  }

  ghost predicate RowsSound<V>(rows: map<Key, Row<V>>, stamps: map<Key, nat>, now: nat, next: nat) {
    && rows.Keys == stamps.Keys
    && (forall k :: k in stamps ==> stamps[k] < now)
    && RowsApart(rows, next)
  }

  ghost predicate Sound<V>(l: seq<Bucket<V>>, stamps: map<Key, nat>, now: nat, next: nat) {
    ListSound(l, stamps, -1) && RowsSound(Rows(l), stamps, now, next) && OldIds(l, next)
  }

  lemma RowsAfterHit<V>(rows: map<Key, Row<V>>, stamps: map<Key, nat>, now: nat, next: nat, key: Key, row: Row<V>)
    requires RowsSound(rows, stamps, now, next) && key in rows && row.node == rows[key].node
    ensures RowsSound(rows[key := row], stamps[key := now], now + 1, next + 1)
  {}

  lemma RowsAfterDrop<V>(rows: map<Key, Row<V>>, stamps: map<Key, nat>, now: nat, next: nat, key: Key)
    requires RowsSound(rows, stamps, now, next)
    ensures RowsSound(rows - {key}, stamps - {key}, now, next)
  {}

  lemma RowsAfterInsert<V>(rows: map<Key, Row<V>>, stamps: map<Key, nat>, now: nat, next: nat, key: Key, row: Row<V>)
    requires RowsSound(rows, stamps, now, next) && row.node == next + 1
    ensures RowsSound(rows[key := row], stamps[key := now], now + 1, next + 2)
  {}

  /** The iterators under a key lead to its node. */
  lemma PlaceLeads<V>(l: seq<Bucket<V>>, next: nat, key: Key) returns (b: nat, i: nat)
    requires Tidy(l) && IdsApart(l) && RowsApart(Rows(l), next) && key in Rows(l)
    ensures b < |l| && i < |l[b].nodes| && l[b].nodes[i].key == key
    ensures Rows(l)[key] == Row(l[b].id, l[b].nodes[i].id, l[b].nodes[i].value, l[b].count)
    ensures BucketAt(l, Rows(l)[key].bucket) == b && NodeAt(l[b].nodes, Rows(l)[key].node) == i
  {
    b, i := KeyLocated(l, key);
    RemoveNode(l, b, i);
    var b', i' := BucketAt(l, l[b].id), NodeAt(l[b].nodes, l[b].nodes[i].id);
    assert b' == b;
    RemoveNode(l, b, i');
    assert l[b].nodes[i'].key == key;
    if i' != i {
      PlacesApart(l, b, i', b, i);
    }
  }

  /** Moving node i of bucket b to the front of bucket t. */
  ghost function Moved<V>(l: seq<Bucket<V>>, b: nat, i: nat, t: nat): seq<Bucket<V>>
    requires b < |l| && t < |l| && b != t && i < |l[b].nodes|
  {
    l[b := l[b].(nodes := DropAt(l[b].nodes, i))][t := l[t].(nodes := [l[b].nodes[i]] + l[t].nodes)]
  }

  lemma {:induction false} MovedRows<V>(l: seq<Bucket<V>>, b: nat, i: nat, t: nat)
    requires Tidy(l) && b < |l| && t < |l| && b != t && i < |l[b].nodes|
    ensures var node, l' := l[b].nodes[i], Moved(l, b, i, t);
      && Tidy(l')
      && node.key in Rows(l)
      && Rows(l') == Rows(l)[node.key := Row(l[t].id, node.id, node.value, l[t].count)]
  {
    var node := l[b].nodes[i];
    var l1 := l[b := l[b].(nodes := DropAt(l[b].nodes, i))];
    assert Moved(l, b, i, t) == l1[t := l1[t].(nodes := [node] + l1[t].nodes)];
    hide Tidy, Rows, DropAt, Moved;
    RemoveNode(l, b, i);
    PushNode(l1, t, node);
    PutBack(Rows(l), node.key, Row(l[t].id, node.id, node.value, l[t].count));
  }

  lemma PutBack<K, T>(m: map<K, T>, k: K, t: T)
    ensures (m - {k})[k := t] == m[k := t]
  {}

  lemma {:induction false} MovedOrdered<V>(l: seq<Bucket<V>>, stamps: map<Key, nat>, b: nat, i: nat, t: nat, now: nat)
    requires Tidy(l) && IdsApart(l) && Ascending(l) && AllStamped(l, stamps) && FilledBut(l, t)
    requires b < |l| && t < |l| && b != t && i < |l[b].nodes|
    requires forall k :: k in stamps ==> stamps[k] < now
    ensures var l' := Moved(l, b, i, t);
      && IdsApart(l') && Ascending(l') && FilledBut(l', b)
      && AllStamped(l', stamps[l[b].nodes[i].key := now])
  {
    var node, l' := l[b].nodes[i], Moved(l, b, i, t);
    hide Tidy, Stamped, DropAt;
    forall c | 0 <= c < |l|
      ensures Stamped(l'[c].nodes, stamps[node.key := now])
    {
      MovedStamped(l, stamps, b, i, t, now, c);
    }
  }

  lemma {:induction false} MovedStamped<V>(l: seq<Bucket<V>>, stamps: map<Key, nat>, b: nat, i: nat, t: nat, now: nat, c: nat)
    requires Tidy(l) && IdsApart(l) && AllStamped(l, stamps)
    requires b < |l| && t < |l| && b != t && i < |l[b].nodes| && c < |l|
    requires forall k :: k in stamps ==> stamps[k] < now
    ensures Stamped(Moved(l, b, i, t)[c].nodes, stamps[l[b].nodes[i].key := now])
  {
    var node, l' := l[b].nodes[i], Moved(l, b, i, t);
    hide Tidy, Stamped, DropAt, IdsApart;
    if c == b {
      DropStamped(l[b].nodes, stamps, i);
      DropAtIs(l[b].nodes, i);
      forall j | 0 <= j < |l'[b].nodes|
        ensures l'[b].nodes[j].key != node.key
      {
        PlacesApart(l, b, i, b, if j < i then j else j + 1);
      }
      StampElsewhere(l'[b].nodes, stamps, node.key, now);
    } else {
      forall j | 0 <= j < |l[c].nodes|
        ensures l[c].nodes[j].key != node.key
      {
        PlacesApart(l, b, i, c, j);
      }
      if c == t {
        PushStamped(l[t].nodes, stamps, node, now);
      } else {
        StampElsewhere(l[c].nodes, stamps, node.key, now);
      }
    }
  }

  /** A new value for a stored node. */
  ghost function Revalued<V>(l: seq<Bucket<V>>, b: nat, i: nat, value: V): seq<Bucket<V>>
    requires b < |l| && i < |l[b].nodes|
  {
    l[b := l[b].(nodes := l[b].nodes[i := l[b].nodes[i].(value := value)])]
  }

  lemma NodesRevalued<V>(id: nat, count: nat, nodes: seq<Node<V>>, i: nat, value: V)
    requires NodesTidy(nodes) && i < |nodes|
    ensures var node, t := nodes[i].(value := value), nodes[i := nodes[i].(value := value)];
      && NodesTidy(t)
      && NodeRows(id, count, t) == NodeRows(id, count, nodes)[node.key := Row(id, node.id, value, count)]
  {
    var node := nodes[i].(value := value);
    hide NodesTidy, NodeRows;
    SplitAt(nodes, i, node);
    AroundNode(id, count, nodes[..i], nodes[i], nodes[i + 1..]);
    AroundNode(id, count, nodes[..i], node, nodes[i + 1..]);
    var x, y := NodeRows(id, count, nodes[..i]), NodeRows(id, count, nodes[i + 1..]);
    var row := Row(id, node.id, value, count);
    MapTwice(x, y, node.key, Row(id, nodes[i].id, nodes[i].value, count), row);
  }

  lemma MapTwice<K, T>(x: map<K, T>, y: map<K, T>, k: K, s: T, t: T)
    requires k !in y
    ensures x[k := t] + y == (x[k := s] + y)[k := t]
  {}

  lemma {:induction false} RevaluedRows<V>(l: seq<Bucket<V>>, b: nat, i: nat, value: V)
    requires Tidy(l) && b < |l| && i < |l[b].nodes|
    ensures var node, l' := l[b].nodes[i], Revalued(l, b, i, value);
      && Tidy(l')
      && node.key in Rows(l)
      && Rows(l') == Rows(l)[node.key := Row(l[b].id, node.id, value, l[b].count)]
  {
    var node, bucket := l[b].nodes[i], l[b];
    var other := bucket.(nodes := bucket.nodes[i := node.(value := value)]);
    RemoveNode(l, b, i);
    BucketTidy(l, b);
    hide Tidy, Rows, NodesTidy, NodeRows;
    SplitAt(l, b, other);
    AroundBucket(l[..b], bucket, l[b + 1..]);
    AroundBucket(l[..b], other, l[b + 1..]);
    NodesRevalued(bucket.id, bucket.count, bucket.nodes, i, value);
    NodeHas(bucket.id, bucket.count, bucket.nodes, i);
    MapWith(Rows(l[..b]), BucketRows(bucket), Rows(l[b + 1..]), node.key, Row(bucket.id, node.id, value, bucket.count));
  }

  lemma RevaluedOrdered<V>(l: seq<Bucket<V>>, stamps: map<Key, nat>, b: nat, i: nat, value: V)
    requires b < |l| && i < |l[b].nodes| && IdsApart(l) && Ascending(l) && AllStamped(l, stamps) && FilledBut(l, -1)
    ensures var l' := Revalued(l, b, i, value);
      IdsApart(l') && Ascending(l') && AllStamped(l', stamps) && FilledBut(l', -1)
  {
    var l' := Revalued(l, b, i, value);
    forall c | 0 <= c < |l|
      ensures Stamped(l'[c].nodes, stamps)
    {
      assert |l'[c].nodes| == |l[c].nodes| && forall j :: 0 <= j < |l[c].nodes| ==> l'[c].nodes[j].key == l[c].nodes[j].key;
    }
  }

  /** Erasing node i of bucket b, and the bucket when that was its last. */
  function Detached<V>(l: seq<Bucket<V>>, b: nat, i: nat): seq<Bucket<V>>
    requires b < |l| && i < |l[b].nodes|
  {
    Swept(l[b := l[b].(nodes := DropAt(l[b].nodes, i))], b)
  }

  lemma RemovedOrdered<V>(l: seq<Bucket<V>>, stamps: map<Key, nat>, b: nat, i: nat)
    requires Tidy(l) && IdsApart(l) && Ascending(l) && AllStamped(l, stamps) && FilledBut(l, -1)
    requires b < |l| && i < |l[b].nodes|
    ensures var l' := l[b := l[b].(nodes := DropAt(l[b].nodes, i))];
      && IdsApart(l') && Ascending(l') && FilledBut(l', b)
      && AllStamped(l', stamps - {l[b].nodes[i].key})
  {
    var key, l' := l[b].nodes[i].key, l[b := l[b].(nodes := DropAt(l[b].nodes, i))];
    hide Tidy, Stamped, DropAt;
    forall c | 0 <= c < |l|
      ensures Stamped(l'[c].nodes, stamps - {key})
    {
      if c == b {
        DropStamped(l[b].nodes, stamps, i);
        DropAtIs(l[b].nodes, i);
        forall j | 0 <= j < |l'[b].nodes|
          ensures l'[b].nodes[j].key != key
        {
          PlacesApart(l, b, i, b, if j < i then j else j + 1);
        }
      } else {
        forall j | 0 <= j < |l[c].nodes|
          ensures l[c].nodes[j].key != key
        {
          PlacesApart(l, b, i, c, j);
        }
      }
      StampGone(l'[c].nodes, stamps, key);
    }
  }

  lemma StampGone<V>(nodes: seq<Node<V>>, stamps: map<Key, nat>, key: Key)
    requires Stamped(nodes, stamps) && forall i :: 0 <= i < |nodes| ==> nodes[i].key != key
    ensures Stamped(nodes, stamps - {key})
  {}

  lemma {:induction false} RemovedSound<V>(l: seq<Bucket<V>>, stamps: map<Key, nat>, b: nat, i: nat)
    requires ListSound(l, stamps, -1) && b < |l| && i < |l[b].nodes|
    ensures var node, l' := l[b].nodes[i], l[b := l[b].(nodes := DropAt(l[b].nodes, i))];
      && node.key in Rows(l) && Rows(l)[node.key].value == node.value
      && ListSound(l', stamps - {node.key}, b)
      && Rows(l') == Rows(l) - {node.key}
  {
    hide Tidy, Rows, AllStamped, IdsApart, Ascending, FilledBut, DropAt;
    RemoveNode(l, b, i);
    RemovedOrdered(l, stamps, b, i);
  }

  /** An empty bucket is erased, a filled one stays. */
  function Swept<V>(l: seq<Bucket<V>>, b: nat): seq<Bucket<V>>
    requires b < |l|
  {
    if l[b].nodes == [] then DropAt(l, b) else l
  }

  lemma {:induction false} SweptSound<V>(l: seq<Bucket<V>>, stamps: map<Key, nat>, b: nat)
    requires ListSound(l, stamps, b) && b < |l|
    ensures ListSound(Swept(l, b), stamps, -1) && Rows(Swept(l, b)) == Rows(l)
  {
    if l[b].nodes == [] {
      hide Tidy, Rows, AllStamped, IdsApart, Ascending, FilledBut, DropAt;
      DropEmpty(l, b);
      DropOrdered(l, stamps, b);
    }
  }

  lemma SweptOld<V>(l: seq<Bucket<V>>, b: nat, next: nat)
    requires OldIds(l, next) && b < |l|
    ensures OldIds(Swept(l, b), next)
  {
    DropAtIs(l, b);
    hide DropAt;
  }

  lemma {:induction false} DetachedSound<V>(l: seq<Bucket<V>>, stamps: map<Key, nat>, now: nat, next: nat, b: nat, i: nat)
    requires Sound(l, stamps, now, next) && b < |l| && i < |l[b].nodes|
    ensures var key := l[b].nodes[i].key;
      && key in Rows(l) && Rows(l)[key].value == l[b].nodes[i].value
      && Sound(Detached(l, b, i), stamps - {key}, now, next)
      && Rows(Detached(l, b, i)) == Rows(l) - {key}
  {
    var key, l' := l[b].nodes[i].key, l[b := l[b].(nodes := DropAt(l[b].nodes, i))];
    SweptOld(l', b, next);
    hide ListSound, Rows, RowsSound, DropAt, OldIds, Swept;
    RemovedSound(l, stamps, b, i);
    SweptSound(l', stamps - {key}, b);
    RowsAfterDrop(Rows(l), stamps, now, next, key);
  }

  /** The last node of the first bucket is the one to evict. */
  lemma {:induction false} FirstIsVictim<V>(l: seq<Bucket<V>>, stamps: map<Key, nat>, now: nat, next: nat)
    requires Sound(l, stamps, now, next) && l != []
    ensures l[0].nodes != []
    ensures IsVictim(Items(Rows(l), stamps), l[0].nodes[|l[0].nodes| - 1].key)
  {
    var last := |l[0].nodes| - 1;
    assert l[0].nodes != [];
    var key, items := l[0].nodes[last].key, Items(Rows(l), stamps);
    RemoveNode(l, 0, last);
    forall k | k in items && k != key
      ensures Before(items[key], items[k])
    {
      var c, j := KeyLocated(l, k);
      RemoveNode(l, c, j);
      hide Tidy, Rows;
      FirstIsBefore(l, stamps, c, j);
    }
  }

  lemma FirstIsBefore<V>(l: seq<Bucket<V>>, stamps: map<Key, nat>, c: nat, j: nat)
    requires Ascending(l) && AllStamped(l, stamps) && c < |l| && j < |l[c].nodes| && l[0].nodes != []
    requires l[c].nodes[j].key != l[0].nodes[|l[0].nodes| - 1].key
    ensures var last := l[0].nodes[|l[0].nodes| - 1].key;
      && last in stamps && l[c].nodes[j].key in stamps
      && (l[0].count < l[c].count || (c == 0 && stamps[last] < stamps[l[c].nodes[j].key]))
  {
    assert Stamped(l[0].nodes, stamps) && Stamped(l[c].nodes, stamps);
    if c == 0 {
      assert stamps[l[0].nodes[j].key] > stamps[l[0].nodes[|l[0].nodes| - 1].key];
    }
  }

  lemma PushedOrdered<V>(l: seq<Bucket<V>>, stamps: map<Key, nat>, node: Node<V>, now: nat)
    requires l != [] && IdsApart(l) && Ascending(l) && AllStamped(l, stamps) && FilledBut(l, 0)
    requires node.key !in stamps && forall k :: k in stamps ==> stamps[k] < now
    ensures var l' := l[0 := l[0].(nodes := [node] + l[0].nodes)];
      && IdsApart(l') && Ascending(l') && FilledBut(l', -1)
      && AllStamped(l', stamps[node.key := now])
  {
    var l' := l[0 := l[0].(nodes := [node] + l[0].nodes)];
    forall c | 0 <= c < |l|
      ensures Stamped(l'[c].nodes, stamps[node.key := now])
    {
      assert Stamped(l[c].nodes, stamps);
      hide Stamped;
      assert forall j :: 0 <= j < |l[c].nodes| ==> l[c].nodes[j].key != node.key by { StampedKeys(l[c].nodes, stamps); }
      if c == 0 {
        PushStamped(l[0].nodes, stamps, node, now);
      } else {
        StampElsewhere(l[c].nodes, stamps, node.key, now);
      }
    }
  }

  lemma StampedKeys<V>(nodes: seq<Node<V>>, stamps: map<Key, nat>)
    requires Stamped(nodes, stamps)
    ensures forall j :: 0 <= j < |nodes| ==> nodes[j].key in stamps
  {}

  /** The list with a bucket of count 1 in front. */
  function WithFirst<V>(l: seq<Bucket<V>>, next: nat): seq<Bucket<V>> {
    if l == [] || l[0].count > 1 then InsertAt(l, 0, Bucket(next, 1, [])) else l
  }

  lemma {:induction false} WithFirstSound<V>(l: seq<Bucket<V>>, stamps: map<Key, nat>, next: nat)
    requires ListSound(l, stamps, -1) && OldIds(l, next)
    ensures var l' := WithFirst(l, next);
      && l' != [] && l'[0].count == 1
      && Rows(l') == Rows(l)
      && ListSound(l', stamps, 0)
      && OldIds(l', next + 1)
  {
    FirstBelongs(l, stamps);
    if l == [] || l[0].count > 1 {
      var bucket := Bucket(next, 1, []);
      InsertAtIs(l, 0, bucket);
      hide ListSound, Rows, InsertAt, OldIds;
      InsertOld(l, 0, bucket, next + 1);
      InsertSound(l, stamps, 0, bucket);
    }
  }

  lemma FirstBelongs<V>(l: seq<Bucket<V>>, stamps: map<Key, nat>)
    requires ListSound(l, stamps, -1)
    ensures l == [] || l[0].count > 1 ==> forall a :: 0 <= a < |l| ==> 1 < l[a].count
    ensures l != [] ==> l[0].count >= 1
    ensures ListSound(l, stamps, 0)
  {
    hide Tidy, AllStamped;
  }

  lemma {:induction false} InsertSound<V>(l: seq<Bucket<V>>, stamps: map<Key, nat>, i: nat, b: Bucket<V>)
    requires ListSound(l, stamps, -1) && i <= |l| && OldIds(l, b.id)
    requires b.nodes == [] && b.count >= 1
    requires (forall a :: 0 <= a < i ==> l[a].count < b.count) && (forall a :: i <= a < |l| ==> b.count < l[a].count)
    ensures ListSound(InsertAt(l, i, b), stamps, i) && Rows(InsertAt(l, i, b)) == Rows(l)
  {
    hide Tidy, Rows, InsertAt, AllStamped, IdsApart, Ascending, FilledBut;
    InsertEmpty(l, i, b);
    InsertOrdered(l, stamps, i, b);
  }

  lemma InsertOld<V>(l: seq<Bucket<V>>, i: nat, b: Bucket<V>, next: nat)
    requires i <= |l| && OldIds(l, b.id) && b.id < next
    ensures OldIds(InsertAt(l, i, b), next)
  {
    InsertAtIs(l, i, b);
    hide InsertAt;
  }

  lemma PushedSound<V>(l: seq<Bucket<V>>, stamps: map<Key, nat>, node: Node<V>, now: nat)
    requires l != [] && ListSound(l, stamps, 0) && Rows(l).Keys == stamps.Keys
    requires node.key !in stamps && forall k :: k in stamps ==> stamps[k] < now
    ensures var l' := l[0 := l[0].(nodes := [node] + l[0].nodes)];
      && ListSound(l', stamps[node.key := now], -1)
      && Rows(l') == Rows(l)[node.key := Row(l[0].id, node.id, node.value, l[0].count)]
  {
    hide Tidy, Rows, AllStamped, IdsApart, Ascending, FilledBut;
    PushNode(l, 0, node);
    PushedOrdered(l, stamps, node, now);
  }

  /** A new node in the bucket of count 1. */
  function Attached<V>(l: seq<Bucket<V>>, next: nat, key: Key, value: V): seq<Bucket<V>> {
    var l1 := WithFirst(l, next);
    l1[0 := l1[0].(nodes := [Node(next + 1, key, value)] + l1[0].nodes)]
  }

  lemma {:induction false} AttachedSound<V>(l: seq<Bucket<V>>, stamps: map<Key, nat>, now: nat, next: nat, key: Key, value: V)
    requires Sound(l, stamps, now, next) && key !in Rows(l)
    ensures WithFirst(l, next) != [] && WithFirst(l, next)[0].count == 1
    ensures Sound(Attached(l, next, key, value), stamps[key := now], now + 1, next + 2)
    ensures Rows(Attached(l, next, key, value)) == Rows(l)[key := Row(WithFirst(l, next)[0].id, next + 1, value, 1)]
  {
    var l1, node := WithFirst(l, next), Node(next + 1, key, value);
    hide WithFirst, ListSound, Rows;
    WithFirstSound(l, stamps, next);
    PushedSound(l1, stamps, node, now);
    RowsAfterInsert(Rows(l), stamps, now, next, key, Row(l1[0].id, next + 1, value, 1));
    hide RowsSound;
  }

  /** The list with the bucket for one more hit after bucket b. */
  function WithNext<V>(l: seq<Bucket<V>>, b: nat, next: nat): seq<Bucket<V>>
    requires b < |l|
  {
    if b + 1 == |l| || l[b].count + 1 < l[b + 1].count then InsertAt(l, b + 1, Bucket(next, l[b].count + 1, [])) else l
  }

  lemma {:induction false} WithNextSound<V>(l: seq<Bucket<V>>, stamps: map<Key, nat>, next: nat, b: nat)
    requires ListSound(l, stamps, -1) && OldIds(l, next) && b < |l|
    ensures var l' := WithNext(l, b, next);
      && b + 1 < |l'| && l'[b] == l[b] && l'[b + 1].count == l[b].count + 1
      && Rows(l') == Rows(l)
      && ListSound(l', stamps, b + 1)
      && OldIds(l', next + 1)
  {
    NextBelongs(l, stamps, b);
    if b + 1 == |l| || l[b].count + 1 < l[b + 1].count {
      var bucket := Bucket(next, l[b].count + 1, []);
      InsertAtIs(l, b + 1, bucket);
      hide ListSound, Rows, InsertAt, OldIds;
      InsertOld(l, b + 1, bucket, next + 1);
      InsertSound(l, stamps, b + 1, bucket);
    }
  }

  lemma NextBelongs<V>(l: seq<Bucket<V>>, stamps: map<Key, nat>, b: nat)
    requires ListSound(l, stamps, -1) && b < |l|
    ensures forall a :: 0 <= a < b + 1 ==> l[a].count < l[b].count + 1
    ensures b + 1 < |l| ==> l[b].count < l[b + 1].count
    ensures b + 1 == |l| || l[b].count + 1 < l[b + 1].count ==> forall a :: b + 1 <= a < |l| ==> l[b].count + 1 < l[a].count
    ensures ListSound(l, stamps, b + 1)
  {
    hide Tidy, AllStamped;
  }

  lemma {:induction false} MovedSound<V>(l: seq<Bucket<V>>, stamps: map<Key, nat>, b: nat, i: nat, t: nat, now: nat)
    requires ListSound(l, stamps, t) && b < |l| && t < |l| && b != t && i < |l[b].nodes|
    requires forall k :: k in stamps ==> stamps[k] < now
    ensures var node, l' := l[b].nodes[i], Moved(l, b, i, t);
      && ListSound(l', stamps[node.key := now], b)
      && Rows(l') == Rows(l)[node.key := Row(l[t].id, node.id, node.value, l[t].count)]
  {
    hide Tidy, Rows, AllStamped, IdsApart, Ascending, FilledBut, Moved;
    MovedRows(l, b, i, t);
    MovedOrdered(l, stamps, b, i, t, now);
  }

  /** The list after node i of bucket b was touched. */
  ghost function TouchedList<V>(l: seq<Bucket<V>>, b: nat, i: nat, next: nat): seq<Bucket<V>>
    requires b < |l| && i < |l[b].nodes|
    requires var l1 := WithNext(l, b, next); b + 1 < |l1| && l1[b] == l[b]
  {
    Swept(Moved(WithNext(l, b, next), b, i, b + 1), b)
  }

  lemma {:induction false} TouchedRows<V>(l: seq<Bucket<V>>, stamps: map<Key, nat>, now: nat, next: nat, b: nat, i: nat)
    requires ListSound(l, stamps, -1) && OldIds(l, next) && b < |l| && i < |l[b].nodes|
    requires forall k :: k in stamps ==> stamps[k] < now
    ensures var l1, node := WithNext(l, b, next), l[b].nodes[i];
      && b + 1 < |l1| && l1[b] == l[b]
      && OldIds(TouchedList(l, b, i, next), next + 1)
      && ListSound(TouchedList(l, b, i, next), stamps[node.key := now], -1)
      && Rows(TouchedList(l, b, i, next)) == Rows(l)[node.key := Row(l1[b + 1].id, node.id, node.value, l[b].count + 1)]
  {
    hide WithNext, Rows, Swept, OldIds, ListSound;
    WithNextSound(l, stamps, next, b);
    var l1 := WithNext(l, b, next);
    MovedSound(l1, stamps, b, i, b + 1, now);
    MovedOld(l1, b, i, b + 1, next + 1);
    MovedSize(l1, b, i, b + 1);
    hide Moved;
    SweptSound(Moved(l1, b, i, b + 1), stamps[l[b].nodes[i].key := now], b);
    SweptOld(Moved(l1, b, i, b + 1), b, next + 1);
  }

  lemma MovedSize<V>(l: seq<Bucket<V>>, b: nat, i: nat, t: nat)
    requires b < |l| && t < |l| && b != t && i < |l[b].nodes|
    ensures |Moved(l, b, i, t)| == |l|
  {}

  lemma {:induction false} TouchedSound<V>(l: seq<Bucket<V>>, stamps: map<Key, nat>, now: nat, next: nat, b: nat, i: nat)
    requires Sound(l, stamps, now, next) && b < |l| && i < |l[b].nodes|
    ensures var l1, node := WithNext(l, b, next), l[b].nodes[i];
      && b + 1 < |l1| && l1[b] == l[b]
      && node.key in Rows(l) && Rows(l)[node.key] == Row(l[b].id, node.id, node.value, l[b].count)
      && Sound(TouchedList(l, b, i, next), stamps[node.key := now], now + 1, next + 1)
      && Rows(TouchedList(l, b, i, next)) == Rows(l)[node.key := Row(l1[b + 1].id, node.id, node.value, l[b].count + 1)]
  {
    hide WithNext, Rows, RowsSound, OldIds, Tidy, TouchedList;
    var l1, node := WithNext(l, b, next), l[b].nodes[i];
    RemoveNode(l, b, i);
    hide ListSound;
    StampsOld(Rows(l), stamps, now, next);
    TouchedRows(l, stamps, now, next, b, i);
    RowsAfterHit(Rows(l), stamps, now, next, node.key, Row(l1[b + 1].id, node.id, node.value, l[b].count + 1));
  }

  lemma StampsOld<V>(rows: map<Key, Row<V>>, stamps: map<Key, nat>, now: nat, next: nat)
    requires RowsSound(rows, stamps, now, next)
    ensures forall k :: k in stamps ==> stamps[k] < now
  {}

  lemma MovedOld<V>(l: seq<Bucket<V>>, b: nat, i: nat, t: nat, next: nat)
    requires OldIds(l, next) && b < |l| && t < |l| && b != t && i < |l[b].nodes|
    ensures OldIds(Moved(l, b, i, t), next)
  {}

  /** A node lives on under its own key, so its iterators stay good. */
  lemma ItemsAfter<V>(rows: map<Key, Row<V>>, stamps: map<Key, nat>, key: Key, row: Row<V>, now: nat)
    requires rows.Keys == stamps.Keys
    ensures Items(rows[key := row], stamps[key := now]) == Items(rows, stamps)[key := Info(row.value, row.count, now)]
    ensures Places(rows[key := row]) == Places(rows)[key := Place(row.bucket, row.node)]
    ensures Items(rows - {key}, stamps - {key}) == Items(rows, stamps) - {key}
    ensures Places(rows - {key}) == Places(rows) - {key}
  {}

  class GenericLfuCache<V(==)> {
    const lenMax: nat
    var lfuList: seq<Bucket<V>>
    var cache: map<Key, Place>
    var nextId: nat
    ghost var stamps: map<Key, nat>
    ghost var now: nat

    ghost predicate Valid()
      reads this
    {
      && lenMax > 0
      && Sound(lfuList, stamps, now, nextId)
      && cache == Places(Rows(lfuList))
      && |cache| <= lenMax
    }

    /** Every key with its value, hit count and last touch. */
    ghost function State(): Lfu<V>
      requires Valid()
      reads this
    {
      Lfu(Items(Rows(lfuList), stamps), now)
    }

    constructor (lenMax: nat)
      requires lenMax > 0
      ensures Valid() && this.lenMax == lenMax && State() == Lfu(map[], 0)
    {
      this.lenMax := lenMax;
      lfuList, cache, nextId, stamps, now := [], map[], 0, map[], 0;
    }

    /** Moves the node under place to the bucket with one more hit. */
    method Touch(place: Place, ghost key: Key) returns (moved: Place)
      requires Valid() && key in cache && place == cache[key]
      modifies this`lfuList, this`nextId, this`stamps, this`now
      ensures Sound(lfuList, stamps, now, nextId)
      ensures key in old(Rows(lfuList))
      ensures var row := old(Rows(lfuList))[key];
        Rows(lfuList) == old(Rows(lfuList))[key := Row(moved.bucket, moved.node, row.value, row.count + 1)]
      ensures stamps == old(stamps)[key := old(now)] && now == old(now) + 1
    {
      ghost var l := lfuList;
      hide Sound, Rows, DropAt, WithNext, Swept;
      ghost var gb, gi := Leads(key);
      var b := BucketAt(lfuList, place.bucket);
      var i := NodeAt(lfuList[b].nodes, place.node);
      TouchedSound(l, stamps, now, nextId, b, i);
      lfuList := WithNext(lfuList, b, nextId);
      var node, next := lfuList[b].nodes[i], lfuList[b + 1];
      lfuList := lfuList[b := lfuList[b].(nodes := DropAt(lfuList[b].nodes, i))];
      lfuList := lfuList[b + 1 := next.(nodes := [node] + next.nodes)];
      lfuList := Swept(lfuList, b);
      assert lfuList == TouchedList(l, b, i, nextId);
      nextId := nextId + 1;
      stamps := stamps[key := now];
      now := now + 1;
      moved := Place(next.id, node.id);
    }

    /** Where the iterators under key lead. */
    lemma Leads(key: Key) returns (b: nat, i: nat)
      requires Valid() && key in cache
      ensures key in Rows(lfuList)
      ensures b < |lfuList| && i < |lfuList[b].nodes| && lfuList[b].nodes[i].key == key
      ensures lfuList[b].id == cache[key].bucket && lfuList[b].nodes[i].id == cache[key].node
      ensures BucketAt(lfuList, cache[key].bucket) == b && NodeAt(lfuList[b].nodes, cache[key].node) == i
      ensures lfuList[b].nodes[i].value == Rows(lfuList)[key].value
    {
      b, i := PlaceLeads(lfuList, nextId, key);
    }

    lemma Keys()
      requires Valid()
      ensures cache.Keys == Rows(lfuList).Keys == stamps.Keys == State().items.Keys
      ensures |cache| == |State().items|
    {
      hide Tidy, Rows;
      assert |cache.Keys| == |cache| && |State().items.Keys| == |State().items|;
    }

    /** The value under key, which gets one more hit. */
    method Get(key: Key) returns (r: Option<V>)
      requires Valid()
      modifies this
      ensures Valid()
      ensures GetStep(old(State()), key) == (State(), r)
      ensures r == if key in old(State()).items then Some(old(State()).items[key].value) else None
      ensures r.Some? ==> key in State().items
      ensures r.Some? ==> State().items[key] == Info(r.value, old(State()).items[key].count + 1, old(State()).clock)
    {
      hide Sound, Rows, Items, Places;
      r := None;
      Keys();
      if key in cache {
        ghost var rows := Rows(lfuList);
        var place := Touch(cache[key], key);
        ItemsAfter(rows, old(stamps), key, Rows(lfuList)[key], old(now));
        ItemAt(rows, old(stamps), key);
        cache := cache[key := place];
        Keys();
        ghost var gb, gi := Leads(key);
        var b := BucketAt(lfuList, place.bucket);
        var i := NodeAt(lfuList[b].nodes, place.node);
        r := Some(lfuList[b].nodes[i].value);
      }
    }

    /** Overwrites the value of the node under place. */
    method Assign(place: Place, value: V, ghost key: Key)
      requires Valid() && key in cache && place == cache[key]
      modifies this`lfuList
      ensures Valid()
      ensures key in old(State()).items
      ensures State().items == old(State()).items[key := old(State()).items[key].(value := value)]
    {
      ghost var rows := Rows(lfuList);
      hide Sound, Rows, Items, Places;
      Keys();
      ghost var gb, gi := Leads(key);
      var b := BucketAt(lfuList, place.bucket);
      var i := NodeAt(lfuList[b].nodes, place.node);
      RevaluedSound(lfuList, stamps, now, nextId, b, i, value);
      ItemAt(rows, stamps, key);
      ItemsAfter(rows, stamps, key, rows[key].(value := value), stamps[key]);
      SameValue(stamps, key);
      lfuList := lfuList[b := lfuList[b].(nodes := lfuList[b].nodes[i := lfuList[b].nodes[i].(value := value)])];
      PlaceAt(rows, key);
      SameValue(cache, key);
    }

    /** A node for a new key in the bucket of count 1. */
    method LfuAttach(key: Key, value: V) returns (place: Place)
      requires Valid() && key !in cache
      modifies this`lfuList, this`stamps, this`now, this`nextId
      ensures Sound(lfuList, stamps, now, nextId)
      ensures Rows(lfuList).Keys == stamps.Keys
      ensures Items(Rows(lfuList), stamps) == old(State()).items[key := Info(value, 1, old(now))]
      ensures Places(Rows(lfuList)) == cache[key := place]
      ensures now == old(now) + 1
    {
      hide Sound, Rows, Items, Places, WithFirst;
      Keys();
      AttachedSound(lfuList, stamps, now, nextId, key, value);
      ItemsAfter(Rows(lfuList), stamps, key, Row(WithFirst(lfuList, nextId)[0].id, nextId + 1, value, 1), now);
      lfuList := WithFirst(lfuList, nextId);
      place := Place(lfuList[0].id, nextId + 1);
      lfuList := lfuList[0 := lfuList[0].(nodes := [Node(nextId + 1, key, value)] + lfuList[0].nodes)];
      stamps := stamps[key := now];
      now := now + 1;
      nextId := nextId + 2;
    }

    /** Stores value under key. A stored key gets one more hit; otherwise a full cache evicts. */
    method Put(key: Key, value: V) returns (evicted: Option<Pair<V>>)
      requires Valid()
      modifies this
      ensures Valid()
      ensures PutStep(old(State()), lenMax, key, value, State(), evicted)
      ensures key in State().items && State().items[key].value == value && State().items[key].stamp == old(State()).clock
      ensures State().items[key].count == 1 + if key in old(State()).items then old(State()).items[key].count else 0
    {
      hide Sound, Rows, Items, Places, IsVictim;
      evicted := None;
      Keys();
      if key in cache {
        ghost var rows := Rows(lfuList);
        var place := Touch(cache[key], key);
        ItemsAfter(rows, old(stamps), key, Rows(lfuList)[key], old(now));
        ItemAt(rows, old(stamps), key);
        cache := cache[key := place];
        SetTwice(old(State()).items, key, State().items[key], State().items[key].(value := value));
        Assign(place, value, key);
        return;
      } else if !(|cache| < lenMax) {
        VictimIsFirst();
        var node := Detach(0, |lfuList[0].nodes| - 1);
        evicted := Some(Pair(node.key, node.value));
        cache := cache - {node.key};
      }
      Keys();
      var place := LfuAttach(key, value);
      cache := cache[key := place];
    }

    /** The last node of the first bucket is there, and is the one to evict. */
    lemma VictimIsFirst()
      requires Valid() && cache != map[]
      ensures lfuList != [] && lfuList[0].nodes != []
      ensures IsVictim(State().items, lfuList[0].nodes[|lfuList[0].nodes| - 1].key)
    {
      hide Sound, Rows, Items, Places, IsVictim;
      NotEmpty(lfuList);
      FirstIsVictim(lfuList, stamps, now, nextId);
    }

    /** Erases node i of bucket b; its key is still in the index. */
    method Detach(b: nat, i: nat) returns (node: Node<V>)
      requires Valid() && b < |lfuList| && i < |lfuList[b].nodes|
      modifies this`lfuList, this`stamps
      ensures node == old(lfuList[b].nodes[i])
      ensures Sound(lfuList, stamps, now, nextId)
      ensures node.key in cache && node.key in old(State()).items
      ensures node.value == old(State()).items[node.key].value
      ensures Items(Rows(lfuList), stamps) == old(State()).items - {node.key}
      ensures Places(Rows(lfuList)) == cache - {node.key}
    {
      hide Sound, Rows, Items, Places, Swept;
      node := lfuList[b].nodes[i];
      DetachedSound(lfuList, stamps, now, nextId, b, i);
      Keys();
      ItemAt(Rows(lfuList), stamps, node.key);
      ItemsAfter(Rows(lfuList), stamps, node.key, Rows(lfuList)[node.key], now);
      lfuList := Detached(lfuList, b, i);
      stamps := stamps - {node.key};
    }

    /** Drops the entry under key. */
    method Invalidate(key: Key)
      requires Valid()
      modifies this
      ensures Valid()
      ensures State() == InvalidateStep(old(State()), key)
    {
      hide Sound, Rows, Items, Places;
      Keys();
      if key in cache {
        ghost var gb, gi := Leads(key);
        var b := BucketAt(lfuList, cache[key].bucket);
        var i := NodeAt(lfuList[b].nodes, cache[key].node);
        var node := Detach(b, i);
        cache := cache - {key};
      } else {
        assert State().items - {key} == State().items;
      }
    }

    /** Invalidates every key of lo..hi, one after the other. */
    method InvalidateRange(lo: Key, hi: Key)
      requires Valid() && lo < hi
      modifies this
      ensures Valid()
      ensures State() == WithoutRange(old(State()), lo, hi)
    {
      hide Sound, Rows, Items, Places;
      ghost var s := State();
      WithoutNothing(s, lo);
      for key := lo to hi
        invariant Valid()
        invariant State() == WithoutRange(s, lo, key)
      {
        WithoutNext(s, lo, key);
        Invalidate(key);
      }
    }
  }

  lemma WithoutNothing<V>(s: Lfu<V>, lo: Key)
    ensures WithoutRange(s, lo, lo) == s
  {
    assert WithoutRange(s, lo, lo).items == s.items;
  }

  lemma WithoutNext<V>(s: Lfu<V>, lo: Key, key: Key)
    requires lo <= key
    ensures InvalidateStep(WithoutRange(s, lo, key), key) == WithoutRange(s, lo, key + 1)
  {
    assert InvalidateStep(WithoutRange(s, lo, key), key).items == WithoutRange(s, lo, key + 1).items;
  }

  lemma {:induction false} NotEmpty<V>(l: seq<Bucket<V>>)
    requires Places(Rows(l)) != map[]
    ensures l != []
  {}

  lemma SameValue<K, T>(m: map<K, T>, k: K)
    requires k in m
    ensures m[k := m[k]] == m
  {}

  lemma PlaceAt<V>(rows: map<Key, Row<V>>, key: Key)
    requires key in rows
    ensures key in Places(rows) && Places(rows)[key] == Place(rows[key].bucket, rows[key].node)
  {}

  lemma SetTwice<K, T>(m: map<K, T>, k: K, s: T, t: T)
    ensures m[k := s][k := t] == m[k := t]
  {}

  lemma {:induction false} RevaluedSound<V>(l: seq<Bucket<V>>, stamps: map<Key, nat>, now: nat, next: nat, b: nat, i: nat, value: V)
    requires Sound(l, stamps, now, next) && b < |l| && i < |l[b].nodes|
    ensures var key := l[b].nodes[i].key;
      && key in Rows(l)
      && Sound(Revalued(l, b, i, value), stamps, now, next)
      && Rows(Revalued(l, b, i, value)) == Rows(l)[key := Rows(l)[key].(value := value)]
  {
    hide Rows, Tidy, IdsApart, Ascending, AllStamped, FilledBut;
    RemoveNode(l, b, i);
    RevaluedRows(l, b, i, value);
    RevaluedOrdered(l, stamps, b, i, value);
  }

  lemma ItemAt<V>(rows: map<Key, Row<V>>, stamps: map<Key, nat>, key: Key)
    requires rows.Keys == stamps.Keys && key in rows
    ensures key in Items(rows, stamps)
    ensures Items(rows, stamps)[key] == Info(rows[key].value, rows[key].count, stamps[key])
  {}
}

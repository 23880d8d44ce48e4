/** The list with tombstones against the textbook list, on runs without invalidation. */
module LruTheory {
  import opened Options
  import opened Sequences

  import opened LruSpec

  predicate IsInvalidation<V>(op: Op<V>) { op.Invalidate? || op.InvalidateRange? }

  /** a is the list r, gap-free, with nothing parked. */
  ghost predicate Packed<V>(a: Ages<V>, r: seq<Entry<V>>) {
    && |r| <= |a.order|
    && a.parked == map[]
    && Distinct(r)
    && forall p :: 0 <= p < |a.order| ==> a.order[p] == if p < |r| then Some(r[p]) else None
  }

  lemma {:induction false} PackedAge<V>(a: Ages<V>, r: seq<Entry<V>>, key: Key)
    requires Packed(a, r)
    ensures Age(a.order, key) == if Position(r, key) < |r| then Position(r, key) else |a.order|
  {
    var p, q := Age(a.order, key), Position(r, key);
    if p < |a.order| {
      assert a.order[p] == Some(r[p]);
    }
    if q < |r| {
      assert a.order[q] == Some(r[q]);
    }
  }

  ghost function KeysOf<V>(r: seq<Entry<V>>): set<Key> {
    set i | 0 <= i < |r| :: r[i].key
  }

  lemma {:induction false} KeysOfSize<V>(r: seq<Entry<V>>)
    requires Distinct(r)
    ensures |KeysOf(r)| == |r|
  {
    if r != [] {
      var rest := r[..|r| - 1];
      KeysOfSize(rest);
      assert KeysOf(r) == KeysOf(rest) + {r[|r| - 1].key};
      assert r[|r| - 1].key !in KeysOf(rest);
    }
  }

  lemma PackedSlots<V>(a: Ages<V>, r: seq<Entry<V>>)
    requires Packed(a, r)
    ensures |Slots(a)| == |r|
  {
    KeysOfSize(r);
    forall k
      ensures k in Slots(a) <==> k in KeysOf(r)
    {
      if k in KeysOf(r) {
        var i :| 0 <= i < |r| && r[i].key == k;
        assert a.order[i] == Some(r[i]);
      }
    }
    assert Slots(a) == KeysOf(r);
  }

  /** An entry moved to the front, possibly with new data. */
  lemma PackedMove<V>(a: Ages<V>, r: seq<Entry<V>>, p: nat, e: Entry<V>)
    requires Packed(a, r) && p < |r| && e.key == r[p].key
    ensures Packed(a.(order := [Some(e)] + DropAt(a.order, p)), [e] + DropAt(r, p))
  {
    var b, t := [Some(e)] + DropAt(a.order, p), [e] + DropAt(r, p);
    forall q | 0 <= q < |b|
      ensures b[q] == if q < |t| then Some(t[q]) else None
    {
      var q' := if q == 0 then p else if q <= p then q - 1 else q;
      assert b[q] == if q == 0 then Some(e) else a.order[q'];
    }
  }

  /** A new entry in front, where the last position drops out. */
  lemma {:induction false} PackedPush<V>(a: Ages<V>, r: seq<Entry<V>>, e: Entry<V>)
    requires |a.order| > 0 && Packed(a, r) && Position(r, e.key) == |r|
    ensures Packed(Ages([Some(e)] + a.order[..|a.order| - 1], map[]),
                   [e] + if |r| < |a.order| then r else r[..|r| - 1])
  {
    var n, rest := |a.order|, if |r| < |a.order| then r else r[..|r| - 1];
    var order, t := [Some(e)] + a.order[..n - 1], [e] + rest;
    forall p | 0 <= p < n
      ensures order[p] == if p < |t| then Some(t[p]) else None
    {
      PushedAt(a.order, Some(e), p);
    }
    DistinctPush(rest, e);
  }

  lemma DistinctPush<V>(r: seq<Entry<V>>, e: Entry<V>)
    requires Distinct(r) && forall i :: 0 <= i < |r| ==> r[i].key != e.key
    ensures Distinct([e] + r)
  {
    assert forall i :: 1 <= i < |[e] + r| ==> ([e] + r)[i] == r[i - 1];
  }

  /** One find or update: same answer, and gap-free again. */
  lemma StepStaysPacked<V>(a: Ages<V>, r: seq<Entry<V>>, op: Op<V>)
    requires |a.order| > 0 && Packed(a, r) && !IsInvalidation(op)
    ensures var n := |a.order|;
      && Packed(AgesStep(a, op).0, LruStep(r, n, op).0)
      && AgesStep(a, op).1 == LruStep(r, n, op).1
      && |AgesStep(a, op).0.order| == n
  {
    PackedAge(a, r, op.key);
    if Position(r, op.key) < |r| {
      HitStaysPacked(a, r, op);
    } else if op.Update? {
      MissStaysPacked(a, r, op.key, op.data);
    }
    hide Packed;
  }

  lemma {:induction false} HitStaysPacked<V>(a: Ages<V>, r: seq<Entry<V>>, op: Op<V>)
    requires |a.order| > 0 && Packed(a, r) && !IsInvalidation(op) && Position(r, op.key) < |r|
    ensures var n := |a.order|;
      && Packed(AgesStep(a, op).0, LruStep(r, n, op).0)
      && AgesStep(a, op).1 == LruStep(r, n, op).1
      && |AgesStep(a, op).0.order| == n
  {
    var p := Position(r, op.key);
    hide Packed, Position, Age;
    PackedAge(a, r, op.key);
    PackedMove(a, r, p, if op.Find? then r[p] else Entry(op.key, op.data));
    PackedAt(a, r, p);
  }

  lemma {:induction false} MissStaysPacked<V>(a: Ages<V>, r: seq<Entry<V>>, key: Key, data: V)
    requires |a.order| > 0 && Packed(a, r) && Position(r, key) == |r|
    ensures var n, op := |a.order|, Op.Update(key, data);
      && Packed(AgesStep(a, op).0, LruStep(r, n, op).0)
      && AgesStep(a, op).1 == LruStep(r, n, op).1
      && |AgesStep(a, op).0.order| == n
  {
    hide Packed, Position, Age, Slots, TakenOver;
    PackedAge(a, r, key);
    PackedSlots(a, r);
    PackedAt(a, r, 0);
    PackedLast(a, r);
    TakenOverNone(a, key);
    PackedPush(a, r, Entry(key, data));
  }

  lemma PackedAt<V>(a: Ages<V>, r: seq<Entry<V>>, p: nat)
    requires Packed(a, r)
    ensures a.parked == map[] && |r| <= |a.order|
    ensures p < |r| ==> a.order[p] == Some(r[p])
  {}

  lemma PackedLast<V>(a: Ages<V>, r: seq<Entry<V>>)
    requires Packed(a, r) && |a.order| > 0
    ensures a.order[|a.order| - 1] == if |r| == |a.order| then Some(r[|r| - 1]) else None
  {}

  lemma TakenOverNone<V>(a: Ages<V>, key: Key)
    requires a.parked == map[]
    ensures TakenOver(a, key) == None
  {}

  // ----- whole runs -----

  ghost function LruRun<V>(r: seq<Entry<V>>, n: nat, ops: seq<Op<V>>): (seq<Entry<V>>, seq<Answer<V>>)
    requires n > 0
    decreases |ops|
  {
    if ops == [] then (r, [])
    else
      var (r', answer) := LruStep(r, n, ops[0]);
      var (r'', answers) := LruRun(r', n, ops[1..]);
      (r'', [answer] + answers)
  }

  ghost function AgesRun<V>(a: Ages<V>, ops: seq<Op<V>>): (Ages<V>, seq<Answer<V>>)
    requires |a.order| > 0
    decreases |ops|
  {
    if ops == [] then (a, [])
    else
      var (a', answer) := AgesStep(a, ops[0]);
      var (a'', answers) := AgesRun(a', ops[1..]);
      (a'', [answer] + answers)
  }

  ghost function Empty<V>(n: nat): Ages<V> {
    Ages(seq(n, _ => None), map[])
  }

  /** The run up to and including one more operation. */
  lemma {:induction false} LruRunSnoc<V>(r: seq<Entry<V>>, n: nat, ops: seq<Op<V>>, op: Op<V>)
    requires n > 0
    ensures var (r', answers) := LruRun(r, n, ops);
      var (r'', answer) := LruStep(r', n, op);
      LruRun(r, n, ops + [op]) == (r'', answers + [answer])
    decreases |ops|
  {
    hide LruStep;
    if ops == [] {
      assert ops + [op] == [op] && [op][1..] == [];
      var (r', answer) := LruStep(r, n, op);
      assert LruRun(r', n, []) == (r', []);
      assert [answer] + [] == [] + [answer];
    } else {
      var (r', answer) := LruStep(r, n, ops[0]);
      assert (ops + [op])[1..] == ops[1..] + [op];
      LruRunSnoc(r', n, ops[1..], op);
      var (r'', answers) := LruRun(r', n, ops[1..]);
      var last := LruStep(r'', n, op).1;
      assert [answer] + (answers + [last]) == [answer] + answers + [last];
    }
  }

  /** The same for the list with tombstones. */
  lemma {:induction false} AgesRunSnoc<V>(a: Ages<V>, ops: seq<Op<V>>, op: Op<V>)
    requires |a.order| > 0
    ensures var (a', answers) := AgesRun(a, ops);
      |a'.order| == |a.order| && AgesRun(a, ops + [op]) == (AgesStep(a', op).0, answers + [AgesStep(a', op).1])
    decreases |ops|
  {
    var head := if ops == [] then op else ops[0];
    StepKeepsLength(a, head);
    hide AgesStep;
    var (a', answer) := AgesStep(a, head);
    if ops == [] {
      assert ops + [op] == [op] && [op][1..] == [];
      assert AgesRun(a', []) == (a', []);
      assert [answer] + [] == [] + [answer];
    } else {
      assert (ops + [op])[1..] == ops[1..] + [op];
      AgesRunSnoc(a', ops[1..], op);
      var (a'', answers) := AgesRun(a', ops[1..]);
      var last := AgesStep(a'', op).1;
      assert [answer] + (answers + [last]) == [answer] + answers + [last];
    }
  }

  lemma StepKeepsLength<V>(a: Ages<V>, op: Op<V>)
    requires |a.order| > 0
    ensures |AgesStep(a, op).0.order| == |a.order|
  {}

  /** Without invalidation the list with tombstones answers every run as the textbook list does. */
  lemma {:induction false} RunsAgree<V>(a: Ages<V>, r: seq<Entry<V>>, ops: seq<Op<V>>)
    requires |a.order| > 0 && Packed(a, r)
    requires forall i :: 0 <= i < |ops| ==> !IsInvalidation(ops[i])
    ensures AgesRun(a, ops).1 == LruRun(r, |a.order|, ops).1
    ensures Packed(AgesRun(a, ops).0, LruRun(r, |a.order|, ops).0)
    decreases |ops|
  {
    if ops != [] {
      StepStaysPacked(a, r, ops[0]);
      hide Packed, AgesStep, LruStep;
      RunsAgree(AgesStep(a, ops[0]).0, LruStep(r, |a.order|, ops[0]).0, ops[1..]);
    }
  }

  lemma {:induction false} RunsFromEmptyAgree<V>(n: nat, ops: seq<Op<V>>)
    requires n > 0 && forall i :: 0 <= i < |ops| ==> !IsInvalidation(ops[i])
    ensures AgesRun(Empty(n), ops).1 == LruRun([], n, ops).1
  {
    RunsAgree(Empty(n), [], ops);
  }
}

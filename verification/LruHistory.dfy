/** Least-recently-used caching told by the operations and answers of a run alone. */
module LruHistory {
  import opened Sequences

  import opened LruSpec
  import opened LruTheory

  // ----- what a run says about a key -----

  predicate Puts<V>(op: Op<V>, key: Key) {
    op.Update? && op.key == key
  }

  /** The entry under key is invalidated, or displaced by an update of another one. */
  predicate Removes<V>(op: Op<V>, answer: Answer<V>, key: Key) {
    || (op.Invalidate? && op.key == key)
    || (op.InvalidateRange? && op.lo <= key < op.hi)
    || (answer.Displaced? && answer.entry.Some? && answer.entry.value.key == key && !Puts(op, key))
  }

  /** An update of key, or a find of it that found data. */
  predicate Uses<V>(op: Op<V>, answer: Answer<V>, key: Key) {
    Puts(op, key) || (op == Find(key) && answer.Found? && answer.data.Some?)
  }

  /** key was put in at i, and since then neither displaced nor invalidated. */
  predicate KeptSince<V>(ops: seq<Op<V>>, answers: seq<Answer<V>>, key: Key, i: int)
    requires |answers| == |ops|
  {
    0 <= i < |ops| && Puts(ops[i], key) && forall j :: i < j < |ops| ==> !Removes(ops[j], answers[j], key)
  }

  function Kept<V>(ops: seq<Op<V>>, answers: seq<Answer<V>>): set<Key>
    requires |answers| == |ops|
  {
    set i | 0 <= i < |ops| && ops[i].Update? && KeptSince(ops, answers, ops[i].key, i) :: ops[i].key
  }

  predicate IsLastPut<V>(ops: seq<Op<V>>, key: Key, i: int) {
    0 <= i < |ops| && Puts(ops[i], key) && forall j :: i < j < |ops| ==> !Puts(ops[j], key)
  }

  ghost predicate IsLastData<V>(ops: seq<Op<V>>, key: Key, data: V) {
    exists i :: IsLastPut(ops, key, i) && data == ops[i].data
  }

  /** When key was last used, counted from 1; 0 for never. */
  function Latest<V>(ops: seq<Op<V>>, answers: seq<Answer<V>>, key: Key): (r: nat)
    requires |answers| == |ops|
    ensures r <= |ops|
  {
    if ops == [] then 0
    else
      var n := |ops| - 1;
      if Uses(ops[n], answers[n], key) then n + 1 else Latest(ops[..n], answers[..n], key)
  }

  /** The answer a cache of this capacity owes to op after the operations ops were answered with answers. */
  ghost predicate Owed<V>(capacity: nat, ops: seq<Op<V>>, answers: seq<Answer<V>>, op: Op<V>, answer: Answer<V>)
    requires |answers| == |ops|
  {
    var kept := Kept(ops, answers);
    match op
    case Find(key) =>
      answer.Found? && if key in kept then answer.data.Some? && IsLastData(ops, key, answer.data.value) else answer.data.None?
    case Update(key, _) =>
      && answer.Displaced?
      && (answer.entry.Some? <==> key in kept || |kept| >= capacity)
      && (answer.entry.Some? ==>
        && answer.entry.value.key in kept
        && IsLastData(ops, answer.entry.value.key, answer.entry.value.data)
        && (key in kept ==> answer.entry.value.key == key)
        && (key !in kept ==> forall k :: k in kept && k != answer.entry.value.key ==>
          Latest(ops, answers, answer.entry.value.key) < Latest(ops, answers, k)))
    case Invalidate(_) => answer == Done
    case InvalidateRange(_, _) => answer == Done
  }

  // ----- the textbook list holds just that -----

  /** The list holds the keys kept with the data last put in, the one used last in front. */
  ghost predicate Reflects<V>(r: seq<Entry<V>>, ops: seq<Op<V>>, answers: seq<Answer<V>>)
    requires |answers| == |ops|
  {
    && KeysOf(r) == Kept(ops, answers)
    && (forall e :: e in r ==> IsLastData(ops, e.key, e.data))
    && InOrder(r, ops, answers)
  }

  ghost predicate InOrder<V>(r: seq<Entry<V>>, ops: seq<Op<V>>, answers: seq<Answer<V>>)
    requires |answers| == |ops|
  {
    forall p, q :: 0 <= p < q < |r| ==> Latest(ops, answers, r[p].key) > Latest(ops, answers, r[q].key)
  }

  lemma {:induction false} OrderedIsDistinct<V>(r: seq<Entry<V>>, ops: seq<Op<V>>, answers: seq<Answer<V>>)
    requires |answers| == |ops| && InOrder(r, ops, answers)
    ensures Distinct(r)
  {}

  // ----- parts of a list -----

  /** t is what is left of r without the keys gone. */
  ghost predicate IsRest<V>(r: seq<Entry<V>>, t: seq<Entry<V>>, gone: set<Key>) {
    KeysOf(t) == KeysOf(r) - gone && forall e :: e in t ==> e in r
  }

  lemma {:induction false} RestByDrop<V>(r: seq<Entry<V>>, p: nat, ops: seq<Op<V>>, answers: seq<Answer<V>>)
    requires |answers| == |ops| && p < |r| && InOrder(r, ops, answers)
    ensures InOrder(DropAt(r, p), ops, answers) && IsRest(r, DropAt(r, p), {r[p].key})
  {
    var t := DropAt(r, p);
    OrderedIsDistinct(r, ops, answers);
    DropAtIs(r, p);
    forall k
      ensures k in KeysOf(t) <==> k in KeysOf(r) - {r[p].key}
    {
      if k in KeysOf(r) - {r[p].key} {
        var i :| 0 <= i < |r| && r[i].key == k;
        assert t[if i < p then i else i - 1].key == k;
      }
    }
  }

  lemma {:induction false} OutsideHolds<V>(r: seq<Entry<V>>, lo: Key, hi: Key, e: Entry<V>)
    ensures e in Outside(r, lo, hi) <==> e in r && !(lo <= e.key < hi)
  {
    if r != [] {
      OutsideHolds(r[1..], lo, hi, e);
      assert r == [r[0]] + r[1..];
    }
  }

  lemma {:induction false} RestByRange<V>(r: seq<Entry<V>>, lo: Key, hi: Key, ops: seq<Op<V>>, answers: seq<Answer<V>>)
    requires |answers| == |ops| && InOrder(r, ops, answers)
    ensures InOrder(Outside(r, lo, hi), ops, answers)
  {
    if r != [] {
      hide Latest;
      var rest := r[1..];
      var t := Outside(rest, lo, hi);
      RestByRange(rest, lo, hi, ops, answers);
      forall q | 0 <= q < |t|
        ensures Latest(ops, answers, r[0].key) > Latest(ops, answers, t[q].key)
      {
        OutsideHolds(rest, lo, hi, t[q]);
        var i :| 0 <= i < |rest| && rest[i] == t[q];
        assert r[i + 1] == t[q];
      }
    }
  }

  // ----- one more operation -----

  lemma {:induction false} KeptMore<V>(ops: seq<Op<V>>, answers: seq<Answer<V>>, op: Op<V>, answer: Answer<V>, key: Key)
    requires |answers| == |ops|
    ensures key in Kept(ops + [op], answers + [answer]) <==>
      Puts(op, key) || (key in Kept(ops, answers) && !Removes(op, answer, key))
  {
    var n, ops', answers' := |ops|, ops + [op], answers + [answer];
    if Puts(op, key) {
      assert KeptSince(ops', answers', key, n) && ops'[n].key == key;
    } else if key in Kept(ops, answers) && !Removes(op, answer, key) {
      var i :| 0 <= i < n && ops[i].Update? && KeptSince(ops, answers, ops[i].key, i) && ops[i].key == key;
      assert KeptSince(ops', answers', key, i) && ops'[i].key == key;
    }
    if key in Kept(ops', answers') && !Puts(op, key) {
      var i :| 0 <= i < n + 1 && ops'[i].Update? && KeptSince(ops', answers', ops'[i].key, i) && ops'[i].key == key;
      assert i < n && !Removes(ops'[n], answers'[n], key);
      forall j | i < j < n
        ensures !Removes(ops[j], answers[j], key)
      {
        assert ops'[j] == ops[j] && answers'[j] == answers[j];
      }
      assert ops[i] == ops'[i];
      assert KeptSince(ops, answers, ops[i].key, i);
    }
  }

  lemma {:induction false} LastDataMore<V>(ops: seq<Op<V>>, op: Op<V>, key: Key, data: V)
    requires if Puts(op, key) then op.data == data else IsLastData(ops, key, data)
    ensures IsLastData(ops + [op], key, data)
  {
    if Puts(op, key) {
      assert IsLastPut(ops + [op], key, |ops|);
    } else {
      var i :| IsLastPut(ops, key, i) && data == ops[i].data;
      assert IsLastPut(ops + [op], key, i) && (ops + [op])[i] == ops[i];
    }
  }

  lemma {:induction false} LatestMore<V>(ops: seq<Op<V>>, answers: seq<Answer<V>>, op: Op<V>, answer: Answer<V>, key: Key)
    requires |answers| == |ops|
    ensures Latest(ops + [op], answers + [answer], key) == if Uses(op, answer, key) then |ops| + 1 else Latest(ops, answers, key)
  {
    assert (ops + [op])[..|ops|] == ops && (answers + [answer])[..|ops|] == answers;
  }

  /** The latest uses of keys not used now stay as they were. */
  lemma {:induction false} OrderMore<V>(t: seq<Entry<V>>, ops: seq<Op<V>>, answers: seq<Answer<V>>, op: Op<V>, answer: Answer<V>)
    requires |answers| == |ops| && InOrder(t, ops, answers)
    requires forall k :: k in KeysOf(t) ==> !Uses(op, answer, k)
    ensures InOrder(t, ops + [op], answers + [answer])
  {
    hide Latest, Uses;
    forall p | 0 <= p < |t|
      ensures Latest(ops + [op], answers + [answer], t[p].key) == Latest(ops, answers, t[p].key)
    {
      assert t[p].key in KeysOf(t);
      LatestMore(ops, answers, op, answer, t[p].key);
    }
  }

  /** A step that uses no key leaves the rest of the list. */
  lemma {:induction false} RestReflects<V>(r: seq<Entry<V>>, t: seq<Entry<V>>, gone: set<Key>,
                                           ops: seq<Op<V>>, answers: seq<Answer<V>>, op: Op<V>, answer: Answer<V>)
    requires |answers| == |ops| && Reflects(r, ops, answers) && InOrder(t, ops, answers) && IsRest(r, t, gone)
    requires forall k :: !Uses(op, answer, k)
    requires forall k :: k in KeysOf(r) ==> (Removes(op, answer, k) <==> k in gone)
    ensures Reflects(t, ops + [op], answers + [answer])
  {
    OrderMore(t, ops, answers, op, answer);
    hide Latest, Kept, KeysOf, IsLastData, InOrder;
    forall k
      ensures k in KeysOf(t) <==> k in Kept(ops + [op], answers + [answer])
    {
      assert !Uses(op, answer, k);
      KeptMore(ops, answers, op, answer, k);
    }
    forall e | e in t
      ensures IsLastData(ops + [op], e.key, e.data)
    {
      assert !Uses(op, answer, e.key);
      LastDataMore(ops, op, e.key, e.data);
    }
  }

  /** A step that uses the key of x puts x in front of the rest. */
  lemma {:induction false} FrontReflects<V>(r: seq<Entry<V>>, x: Entry<V>, t: seq<Entry<V>>, gone: set<Key>,
                                            ops: seq<Op<V>>, answers: seq<Answer<V>>, op: Op<V>, answer: Answer<V>)
    requires |answers| == |ops| && Reflects(r, ops, answers) && InOrder(t, ops, answers) && IsRest(r, t, gone)
    requires x.key !in KeysOf(t) && forall k :: Uses(op, answer, k) <==> k == x.key
    requires forall k :: k != x.key ==> (Removes(op, answer, k) <==> k in gone)
    requires if Puts(op, x.key) then x.data == op.data else x in r && !Removes(op, answer, x.key)
    ensures Reflects([x] + t, ops + [op], answers + [answer])
  {
    var r', ops', answers' := [x] + t, ops + [op], answers + [answer];
    FrontOrder(x, t, ops, answers, op, answer);
    FrontKeys(x, t);
    EntryKeys(r);
    EntryKeys(t);
    hide Latest, Kept, KeysOf, IsLastData, InOrder;
    forall k
      ensures k in KeysOf(r') <==> k in Kept(ops', answers')
    {
      assert Uses(op, answer, k) <==> k == x.key;
      KeptMore(ops, answers, op, answer, k);
    }
    forall e | e in r'
      ensures IsLastData(ops', e.key, e.data)
    {
      assert Uses(op, answer, e.key) <==> e.key == x.key;
      LastDataMore(ops, op, e.key, e.data);
    }
  }

  lemma FrontKeys<V>(x: Entry<V>, t: seq<Entry<V>>)
    ensures KeysOf([x] + t) == {x.key} + KeysOf(t)
  {
    var r := [x] + t;
    assert r[0] == x && forall i :: 0 <= i < |t| ==> r[i + 1] == t[i];
    assert forall k :: k in KeysOf(t) ==> k in KeysOf(r);
  }

  lemma EntryKeys<V>(t: seq<Entry<V>>)
    ensures forall e :: e in t ==> e.key in KeysOf(t)
  {}

  lemma {:induction false} FrontOrder<V>(x: Entry<V>, t: seq<Entry<V>>, ops: seq<Op<V>>, answers: seq<Answer<V>>,
                                         op: Op<V>, answer: Answer<V>)
    requires |answers| == |ops| && InOrder(t, ops, answers)
    requires x.key !in KeysOf(t) && forall k :: Uses(op, answer, k) <==> k == x.key
    ensures InOrder([x] + t, ops + [op], answers + [answer])
  {
    hide Latest, Uses;
    OrderMore(t, ops, answers, op, answer);
    LatestMore(ops, answers, op, answer, x.key);
    forall p | 0 <= p < |t|
      ensures Latest(ops + [op], answers + [answer], t[p].key) <= |ops|
    {
      assert t[p].key in KeysOf(t);
      LatestMore(ops, answers, op, answer, t[p].key);
    }
  }

  // ----- every step -----

  lemma {:induction false} HasKey<V>(r: seq<Entry<V>>, key: Key)
    ensures key in KeysOf(r) <==> Position(r, key) < |r|
  {}

  /** One step keeps the list in line with the run. */
  lemma {:induction false} StepReflects<V>(r: seq<Entry<V>>, capacity: nat, ops: seq<Op<V>>, answers: seq<Answer<V>>, op: Op<V>)
    requires capacity > 0 && |answers| == |ops| && Reflects(r, ops, answers) && |r| <= capacity
    ensures var (r', answer) := LruStep(r, capacity, op);
      Reflects(r', ops + [op], answers + [answer]) && |r'| <= capacity
  {
    var (r', answer) := LruStep(r, capacity, op);
    match op
    case Find(key) =>
      HasKey(r, key);
      var p := Position(r, key);
      hide Reflects, InOrder, IsRest, KeysOf;
      if p < |r| {
        ReflectsRest(r, p, ops, answers);
        FrontReflects(r, r[p], DropAt(r, p), {key}, ops, answers, op, answer);
      } else {
        ReflectsAll(r, ops, answers);
        RestReflects(r, r, {}, ops, answers, op, answer);
      }
    case Update(key, data) =>
      UpdateReflects(r, capacity, ops, answers, key, data);
    case Invalidate(key) =>
      HasKey(r, key);
      var p := Position(r, key);
      hide Reflects, InOrder, IsRest, KeysOf;
      if p < |r| {
        ReflectsRest(r, p, ops, answers);
        RestReflects(r, DropAt(r, p), {key}, ops, answers, op, answer);
      } else {
        ReflectsAll(r, ops, answers);
        RestReflects(r, r, {}, ops, answers, op, answer);
      }
    case InvalidateRange(lo, hi) =>
      RangeReflects(r, ops, answers, lo, hi);
  }

  lemma {:induction false} ReflectsRest<V>(r: seq<Entry<V>>, p: nat, ops: seq<Op<V>>, answers: seq<Answer<V>>)
    requires |answers| == |ops| && Reflects(r, ops, answers) && p < |r|
    ensures InOrder(DropAt(r, p), ops, answers) && IsRest(r, DropAt(r, p), {r[p].key})
    ensures r[p].key in KeysOf(r) && r[p].key !in KeysOf(DropAt(r, p))
  {
    RestByDrop(r, p, ops, answers);
  }

  lemma {:induction false} ReflectsAll<V>(r: seq<Entry<V>>, ops: seq<Op<V>>, answers: seq<Answer<V>>)
    requires |answers| == |ops| && Reflects(r, ops, answers)
    ensures InOrder(r, ops, answers) && IsRest(r, r, {})
  {}

  lemma {:induction false} UpdateReflects<V>(r: seq<Entry<V>>, capacity: nat, ops: seq<Op<V>>, answers: seq<Answer<V>>, key: Key, data: V)
    requires capacity > 0 && |answers| == |ops| && Reflects(r, ops, answers) && |r| <= capacity
    ensures var (r', answer) := LruStep(r, capacity, Update(key, data));
      Reflects(r', ops + [Update(key, data)], answers + [answer]) && |r'| <= capacity
  {
    var op := Update(key, data);
    var (r', answer) := LruStep(r, capacity, op);
    HasKey(r, key);
    var p, x := Position(r, key), Entry(key, data);
    hide Reflects, InOrder, KeysOf;
    if p < |r| {
      ReflectsRest(r, p, ops, answers);
      FrontReflects(r, x, DropAt(r, p), {key}, ops, answers, op, answer);
    } else if |r| < capacity {
      ReflectsAll(r, ops, answers);
      FrontReflects(r, x, r, {}, ops, answers, op, answer);
    } else {
      ReflectsRest(r, |r| - 1, ops, answers);
      assert DropAt(r, |r| - 1) == r[..|r| - 1];
      FrontReflects(r, x, DropAt(r, |r| - 1), {r[|r| - 1].key}, ops, answers, op, answer);
    }
  }

  lemma {:induction false} RangeReflects<V>(r: seq<Entry<V>>, ops: seq<Op<V>>, answers: seq<Answer<V>>, lo: Key, hi: Key)
    requires |answers| == |ops| && Reflects(r, ops, answers)
    ensures Reflects(Outside(r, lo, hi), ops + [InvalidateRange(lo, hi)], answers + [Done])
    ensures |Outside(r, lo, hi)| <= |r|
  {
    var t, gone := Outside(r, lo, hi), set k | k in KeysOf(r) && lo <= k < hi;
    RestByRange(r, lo, hi, ops, answers);
    OutsideKeys(r, lo, hi);
    hide Latest, InOrder, Kept, IsLastData;
    RestReflects(r, t, gone, ops, answers, InvalidateRange(lo, hi), Done);
  }

  lemma {:induction false} OutsideKeys<V>(r: seq<Entry<V>>, lo: Key, hi: Key)
    ensures KeysOf(Outside(r, lo, hi)) == (set k | k in KeysOf(r) && !(lo <= k < hi))
    ensures forall e :: e in Outside(r, lo, hi) ==> e in r
    ensures |Outside(r, lo, hi)| <= |r|
  {
    var t := Outside(r, lo, hi);
    EntryKeys(r);
    EntryKeys(t);
    forall e
      ensures e in t <==> e in r && !(lo <= e.key < hi)
    {
      OutsideHolds(r, lo, hi, e);
    }
    forall k | k in KeysOf(r) && !(lo <= k < hi)
      ensures k in KeysOf(t)
    {
      var i :| 0 <= i < |r| && r[i].key == k;
      assert r[i] in t;
    }
    assert forall k :: k in KeysOf(t) ==> k in KeysOf(r) && !(lo <= k < hi);
    OutsideIsNoLonger(r, lo, hi);
  }

  lemma {:induction false} OutsideIsNoLonger<V>(r: seq<Entry<V>>, lo: Key, hi: Key)
    ensures |Outside(r, lo, hi)| <= |r|
  {
    if r != [] {
      OutsideIsNoLonger(r[1..], lo, hi);
    }
  }

  lemma {:induction false} UpdateOwed<V>(r: seq<Entry<V>>, capacity: nat, ops: seq<Op<V>>, answers: seq<Answer<V>>, key: Key, data: V)
    requires capacity > 0 && |answers| == |ops| && Reflects(r, ops, answers) && |r| <= capacity
    ensures Owed(capacity, ops, answers, Update(key, data), LruStep(r, capacity, Update(key, data)).1)
  {
    OrderedIsDistinct(r, ops, answers);
    KeysOfSize(r);
    HasKey(r, key);
    if Position(r, key) == |r| >= capacity {
      LastIsLeast(r, ops, answers);
    }
    hide Latest, Kept, IsLastData, InOrder, Distinct;
  }

  /** The last entry was used before all others. */
  lemma {:induction false} LastIsLeast<V>(r: seq<Entry<V>>, ops: seq<Op<V>>, answers: seq<Answer<V>>)
    requires |answers| == |ops| && InOrder(r, ops, answers) && r != []
    ensures var last := r[|r| - 1].key;
      forall k :: k in KeysOf(r) && k != last ==> Latest(ops, answers, last) < Latest(ops, answers, k)
  {
    hide Latest;
  }

  lemma {:induction false} StepOwed<V>(r: seq<Entry<V>>, capacity: nat, ops: seq<Op<V>>, answers: seq<Answer<V>>, op: Op<V>)
    requires capacity > 0 && |answers| == |ops| && Reflects(r, ops, answers) && |r| <= capacity
    ensures Owed(capacity, ops, answers, op, LruStep(r, capacity, op).1)
  {
    hide Latest, Kept, IsLastData, KeysOf, InOrder;
    match op
    case Find(key) => HasKey(r, key);
    case Update(key, data) => UpdateOwed(r, capacity, ops, answers, key, data);
    case Invalidate(_) =>
    case InvalidateRange(_, _) =>
  }

  // ----- whole runs -----

  /** Every answer of a run is the one owed to its operation after those before it. */
  ghost predicate AllOwed<V>(capacity: nat, ops: seq<Op<V>>, answers: seq<Answer<V>>)
    requires |answers| == |ops|
  {
    forall i :: 0 <= i < |ops| ==> Owed(capacity, ops[..i], answers[..i], ops[i], answers[i])
  }

  lemma {:induction false} AllOwedMore<V>(capacity: nat, ops: seq<Op<V>>, answers: seq<Answer<V>>, op: Op<V>, answer: Answer<V>)
    requires |answers| == |ops| && AllOwed(capacity, ops, answers) && Owed(capacity, ops, answers, op, answer)
    ensures AllOwed(capacity, ops + [op], answers + [answer])
  {
    var n, ops', answers' := |ops|, ops + [op], answers + [answer];
    hide Owed;
    forall i | 0 <= i < n + 1
      ensures Owed(capacity, ops'[..i], answers'[..i], ops'[i], answers'[i])
    {
      if i < n {
        assert ops'[..i] == ops[..i] && answers'[..i] == answers[..i];
      } else {
        assert ops'[..n] == ops && answers'[..n] == answers;
      }
    }
  }

  /**
   * From an empty cache the textbook list holds after every run just the keys put in and since then
   * neither displaced nor invalidated, each with the data of its last update, in the order of their
   * last uses; and every answer is the one owed.
   */
  lemma {:induction false} RunReflects<V>(capacity: nat, ops: seq<Op<V>>)
    requires capacity > 0
    ensures var (r, answers) := LruRun([], capacity, ops);
      && |r| <= capacity && |answers| == |ops|
      && Reflects(r, ops, answers)
      && AllOwed(capacity, ops, answers)
    decreases |ops|
  {
    if ops == [] {
      assert KeysOf<V>([]) == Kept<V>([], []);
    } else {
      var n := |ops| - 1;
      var front := ops[..n];
      assert ops == front + [ops[n]];
      hide LruStep, Reflects, Owed, AllOwed;
      RunReflects(capacity, front);
      LruRunSnoc([], capacity, front, ops[n]);
      var (r, answers) := LruRun([], capacity, front);
      StepReflects(r, capacity, front, answers, ops[n]);
      StepOwed(r, capacity, front, answers, ops[n]);
      AllOwedMore(capacity, front, answers, ops[n], LruStep(r, capacity, ops[n]).1);
    }
  }

  // ----- what is owed leaves no choice -----

  lemma {:induction false} LastDataIsUnique<V>(ops: seq<Op<V>>, key: Key, x: V, y: V)
    requires IsLastData(ops, key, x) && IsLastData(ops, key, y)
    ensures x == y
  {
    var i :| IsLastPut(ops, key, i) && x == ops[i].data;
    var j :| IsLastPut(ops, key, j) && y == ops[j].data;
    assert i == j;
  }

  lemma {:induction false} OwedIsUnique<V>(capacity: nat, ops: seq<Op<V>>, answers: seq<Answer<V>>, op: Op<V>, x: Answer<V>, y: Answer<V>)
    requires |answers| == |ops| && Owed(capacity, ops, answers, op, x) && Owed(capacity, ops, answers, op, y)
    ensures x == y
  {
    hide Kept, Latest, IsLastData;
    match op
    case Find(key) =>
      if x.data.Some? {
        LastDataIsUnique(ops, key, x.data.value, y.data.value);
      }
    case Update(key, _) =>
      if x.entry.Some? {
        assert x.entry.value.key == y.entry.value.key;
        LastDataIsUnique(ops, x.entry.value.key, x.entry.value.data, y.entry.value.data);
      }
    case Invalidate(_) =>
    case InvalidateRange(_, _) =>
  }

  lemma {:induction false} AllOwedBefore<V>(capacity: nat, ops: seq<Op<V>>, answers: seq<Answer<V>>, n: nat)
    requires |answers| == |ops| == n + 1 && AllOwed(capacity, ops, answers)
    ensures AllOwed(capacity, ops[..n], answers[..n]) && Owed(capacity, ops[..n], answers[..n], ops[n], answers[n])
  {
    hide Owed;
    forall i | 0 <= i < n
      ensures Owed(capacity, ops[..n][..i], answers[..n][..i], ops[..n][i], answers[..n][i])
    {
      assert ops[..n][..i] == ops[..i] && answers[..n][..i] == answers[..i];
    }
  }

  /** The operations alone determine all answers owed. */
  lemma {:induction false} AllOwedIsUnique<V>(capacity: nat, ops: seq<Op<V>>, x: seq<Answer<V>>, y: seq<Answer<V>>)
    requires |x| == |y| == |ops| && AllOwed(capacity, ops, x) && AllOwed(capacity, ops, y)
    ensures x == y
  {
    if ops != [] {
      var n := |ops| - 1;
      hide AllOwed, Owed;
      AllOwedBefore(capacity, ops, x, n);
      AllOwedBefore(capacity, ops, y, n);
      AllOwedIsUnique(capacity, ops[..n], x[..n], y[..n]);
      OwedIsUnique(capacity, ops[..n], x[..n], ops[n], x[n], y[n]);
      SameFrontAndLast(x, y, n);
    }
  }

  lemma SameFrontAndLast<T>(x: seq<T>, y: seq<T>, n: nat)
    requires |x| == |y| == n + 1 && x[..n] == y[..n] && x[n] == y[n]
    ensures x == y
  {
    assert x == x[..n] + [x[n]] && y == y[..n] + [y[n]];
  }
}

/** Where the buffers put into a cache with tombstones go, over whole runs. */
module LruLedger {
  import opened Options
  import opened Sequences

  import opened LruSpec
  import opened LruTheory
  import opened LruBuffers

  /** What became of a buffer that is no longer held. */
  datatype Gone<+V> = HandedBack(data: V) | Freed(data: V)

  function Datas<V>(gone: seq<Gone<V>>): (r: seq<V>)
    ensures |r| == |gone| && forall i :: 0 <= i < |r| ==> r[i] == gone[i].data
  {
    seq(|gone|, i requires 0 <= i < |gone| => gone[i].data)
  }

  ghost function HeldUnder<V>(a: Ages<V>, x: Key): seq<V> {
    if Held(a, x).Some? then [Held(a, x).value] else []
  }

  function PutUnder<V>(op: Op<V>, x: Key): seq<V> {
    if op.Update? && op.key == x then [op.data] else []
  }

  /** The buffer under x that a step hands back with its answer, or that an invalidation of x frees. */
  ghost function GoneUnder<V>(a: Ages<V>, op: Op<V>, x: Key): seq<Gone<V>>
    requires |a.order| > 0
  {
    match op
    case Find(_) => []
    case Update(_, _) =>
      var entry := AgesStep(a, op).1.entry;
      if entry.Some? && entry.value.key == x then [HandedBack(entry.value.data)] else []
    case Invalidate(key) =>
      if key == x && Age(a.order, x) < |a.order| then [Freed(a.order[Age(a.order, x)].value.data)] else []
    case InvalidateRange(lo, hi) =>
      if lo <= x < hi && Held(a, x).Some? then [Freed(Held(a, x).value)] else []
  }

  /** One step: what was held or put in under x is gone or held after it, in that order. */
  lemma {:induction false} StepBalances<V>(a: Ages<V>, op: Op<V>, x: Key)
    requires WellFormed(a)
    ensures HeldUnder(a, x) + PutUnder(op, x) == Datas(GoneUnder(a, op, x)) + HeldUnder(AgesStep(a, op).0, x)
  {
    hide Held, WellFormed, Age;
    match op
    case Find(key) =>
      FindHolds(a, key, x);
      hide AgesStep;
    case Update(key, data) =>
      UpdateBalances(a, key, data, x);
      hide *;
    case Invalidate(key) =>
      InvalidateHolds(a, key, x);
      hide AgesStep;
    case InvalidateRange(lo, hi) =>
      RangeHolds(a, lo, hi, x);
      hide AgesDropRange, Slots, TakenOver;
  }

  lemma {:induction false} FindHolds<V>(a: Ages<V>, key: Key, x: Key)
    requires WellFormed(a)
    ensures Held(AgesStep(a, Op.Find(key)).0, x) == Held(a, x)
  {
    var p := Age(a.order, key);
    if p < |a.order| {
      var e := a.order[p].value;
      if x == key {
        assert Age([Some(e)] + DropAt(a.order, p), key) == 0;
      } else {
        AgeAfterMove(a, e, p, x);
      }
      hide WellFormed, Age, DropAt;
    }
  }

  lemma {:induction false} UpdateBalances<V>(a: Ages<V>, key: Key, data: V, x: Key)
    requires WellFormed(a)
    ensures var op := Op.Update(key, data);
      HeldUnder(a, x) + PutUnder(op, x) == Datas(GoneUnder(a, op, x)) + HeldUnder(AgesStep(a, op).0, x)
  {
    UpdateConserves(a, key, data, x);
    UpdateAnswers(a, key, data);
    hide WellFormed, AgesStep, Held;
  }

  lemma {:induction false} UpdateAnswers<V>(a: Ages<V>, key: Key, data: V)
    requires |a.order| > 0
    ensures AgesStep(a, Op.Update(key, data)).1.Displaced?
  {
    hide TakenOver, Slots, Age;
  }

  /** The age of a key after the entries with a key in keys were blanked. */
  lemma {:induction false} AgeAfterBlanks<V>(a: Ages<V>, order: seq<Option<Entry<V>>>, keys: set<Key>, x: Key)
    requires WellFormed(a) && |order| == |a.order|
    requires forall p :: 0 <= p < |order| ==>
      order[p] == if a.order[p].Some? && a.order[p].value.key in keys then None else a.order[p]
    ensures Age(order, x) == if x in keys then |order| else Age(a.order, x)
  {
    var p := Age(a.order, x);
    if x in keys || p == |order| {
      AgeAbsent(order, x);
    } else {
      forall q | 0 <= q < |order| && order[q].Some? && order[q].value.key == x
        ensures q == p
      {
        OnePlace(a, x, q);
      }
      AgeUnique(order, x, p);
    }
  }

  lemma {:induction false} InvalidateHolds<V>(a: Ages<V>, key: Key, x: Key)
    requires WellFormed(a)
    ensures var live := Age(a.order, key) < |a.order|;
      && Held(AgesStep(a, Op.Invalidate(key)).0, x) == (if live && x == key then None else Held(a, x))
      && (live ==> Held(a, key) == Some(a.order[Age(a.order, key)].value.data))
  {
    var p := Age(a.order, key);
    if p < |a.order| {
      forall q | 0 <= q < |a.order| && a.order[q].Some? && a.order[q].value.key == key
        ensures q == p
      {
        OnePlace(a, key, q);
      }
      AgeAfterBlanks(a, a.order[p := None], {key}, x);
      hide WellFormed, Age;
    }
  }

  /** Where x is after lo..hi was dropped. */
  lemma {:induction false} RangeAges<V>(a: Ages<V>, lo: Key, hi: Key, x: Key)
    requires WellFormed(a)
    ensures var b, n, p := AgesDropRange(a, lo, hi), |a.order|, Age(a.order, x);
      && |b.order| == n
      && Age(b.order, x) == (if lo <= x < hi then n else p)
      && (p < n && !(lo <= x < hi) ==> b.order[p] == a.order[p])
      && (x in b.parked <==> x in a.parked || (lo <= x < hi && p < n))
  {
    var b := AgesDropRange(a, lo, hi);
    var keys := set k | k in LiveKeys(a.order) && lo <= k < hi;
    hide AgesDropRange, WellFormed, Age, LiveKeys;
    RangeKeys(a, lo, hi, keys);
    LiveIsAged(a.order, x);
    AgeAfterBlanks(a, b.order, keys, x);
    assert x in b.parked <==> x in b.parked.Keys;
  }

  lemma {:induction false} RangeHolds<V>(a: Ages<V>, lo: Key, hi: Key, x: Key)
    requires WellFormed(a)
    ensures Held(AgesDropRange(a, lo, hi), x) == if lo <= x < hi then None else Held(a, x)
  {
    RangeAges(a, lo, hi, x);
    LeftUnderIs(a, lo, hi, x);
    hide AgesDropRange, WellFormed, Age, Slots;
  }

  // ----- whole runs -----

  function AllPut<V>(ops: seq<Op<V>>, x: Key): seq<V> {
    if ops == [] then [] else PutUnder(ops[0], x) + AllPut(ops[1..], x)
  }

  ghost function AllGone<V>(a: Ages<V>, ops: seq<Op<V>>, x: Key): seq<Gone<V>>
    requires |a.order| > 0
    decreases |ops|
  {
    if ops == [] then [] else GoneUnder(a, ops[0], x) + AllGone(AgesStep(a, ops[0]).0, ops[1..], x)
  }

  lemma DatasConcat<V>(s: seq<Gone<V>>, t: seq<Gone<V>>)
    ensures Datas(s + t) == Datas(s) + Datas(t)
  {}

  /** The ledger of one step and that of the rest make the ledger of a run. */
  lemma Chain<T>(held: seq<T>, put: seq<T>, gone: seq<T>, held': seq<T>, put': seq<T>, gone': seq<T>, held'': seq<T>)
    requires held + put == gone + held' && held' + put' == gone' + held''
    ensures held + (put + put') == (gone + gone') + held''
  {
    calc {
      held + (put + put');
      (held + put) + put';
      gone + (held' + put');
      (gone + gone') + held'';
    }
  }

  /**
   * On every run the buffers put in under a key go one after the other: all but the last are gone,
   * each handed back or freed by an invalidation of the key, and the last is gone as well or held.
   */
  lemma {:induction false} RunBalances<V>(a: Ages<V>, ops: seq<Op<V>>, x: Key)
    requires WellFormed(a)
    ensures HeldUnder(a, x) + AllPut(ops, x) == Datas(AllGone(a, ops, x)) + HeldUnder(AgesRun(a, ops).0, x)
    decreases |ops|
  {
    if ops != [] {
      var a', rest := AgesStep(a, ops[0]).0, ops[1..];
      StepWellFormed(a, ops[0]);
      StepBalances(a, ops[0], x);
      hide WellFormed, AgesStep, HeldUnder, GoneUnder, PutUnder;
      RunBalances(a', rest, x);
      DatasConcat(GoneUnder(a, ops[0], x), AllGone(a', rest, x));
      Chain(HeldUnder(a, x), PutUnder(ops[0], x), Datas(GoneUnder(a, ops[0], x)), HeldUnder(a', x),
            AllPut(rest, x), Datas(AllGone(a', rest, x)), HeldUnder(AgesRun(a', rest).0, x));
    }
  }

  /** From an empty cache: every buffer put in is handed back, freed, or held at the end, and just one of these. */
  lemma {:induction false} EveryBufferOnce<V>(n: nat, ops: seq<Op<V>>, x: Key)
    requires n > 0
    ensures AllPut(ops, x) == Datas(AllGone(Empty(n), ops, x)) + HeldUnder(AgesRun(Empty(n), ops).0, x)
  {
    var a := Empty<V>(n);
    assert LiveKeys(a.order) == {};
    AgeAbsent(a.order, x);
    assert HeldUnder(a, x) == [];
    RunBalances(a, ops, x);
    hide AllPut, AgesRun, Held, WellFormed;
    assert [] + AllPut(ops, x) == AllPut(ops, x);
  }
}

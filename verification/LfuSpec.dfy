/** Least-frequently-used caching over a map: every key with its value, hit count and last touch. */
module LfuSpec {
  import opened Options

  type Key = int

  datatype Info<+V> = Info(value: V, count: nat, stamp: nat)

  datatype Lfu<+V> = Lfu(items: map<Key, Info<V>>, clock: nat)

  datatype Pair<+V> = Pair(key: Key, value: V)

  /** a goes before b: it was hit less often, or as often but not as recently. */
  predicate Before<V>(a: Info<V>, b: Info<V>) {
    a.count < b.count || (a.count == b.count && a.stamp < b.stamp)
  }

  ghost predicate IsVictim<V>(items: map<Key, Info<V>>, key: Key) {
    key in items && forall k :: k in items && k != key ==> Before(items[key], items[k])
  }

  /** One more hit, now. */
  function Hit<V>(s: Lfu<V>, key: Key, value: V): Lfu<V>
    requires key in s.items
  {
    Lfu(s.items[key := Info(value, s.items[key].count + 1, s.clock)], s.clock + 1)
  }

  function GetStep<V>(s: Lfu<V>, key: Key): (Lfu<V>, Option<V>) {
    if key in s.items then (Hit(s, key, s.items[key].value), Some(s.items[key].value)) else (s, None)
  }

  ghost predicate PutStep<V>(s: Lfu<V>, capacity: nat, key: Key, value: V, s': Lfu<V>, evicted: Option<Pair<V>>) {
    if key in s.items then s' == Hit(s, key, value) && evicted == None
    else
      && s'.clock == s.clock + 1
      && if |s.items| < capacity then s'.items == s.items[key := Info(value, 1, s.clock)] && evicted == None
         else
           && evicted.Some?
           && IsVictim(s.items, evicted.value.key)
           && evicted.value.value == s.items[evicted.value.key].value
           && s'.items == (s.items - {evicted.value.key})[key := Info(value, 1, s.clock)]
  }

  function InvalidateStep<V>(s: Lfu<V>, key: Key): Lfu<V> {
    s.(items := s.items - {key})
  }

  ghost function WithoutRange<V>(s: Lfu<V>, lo: Key, hi: Key): Lfu<V> {
    s.(items := map k | k in s.items && !(lo <= k < hi) :: s.items[k])
  }

  // ----- whole runs -----

  datatype Op<+V> =
    | Get(key: Key)
    | Put(key: Key, value: V)
    | Invalidate(key: Key)
    | InvalidateRange(lo: Key, hi: Key)

  /** The source asserts that a range is not empty. */
  predicate Allowed<V>(op: Op<V>) {
    op.InvalidateRange? ==> op.lo < op.hi
  }

  /** What a caller sees: the value got, the pair evicted by a put, or nothing. */
  datatype Answer<+V> = Got(value: Option<V>) | Evicted(pair: Option<Pair<V>>) | Done

  ghost predicate Step<V>(s: Lfu<V>, capacity: nat, op: Op<V>, s': Lfu<V>, answer: Answer<V>) {
    match op
    case Get(key) => (s', answer) == (GetStep(s, key).0, Got(GetStep(s, key).1))
    case Put(key, value) => answer.Evicted? && PutStep(s, capacity, key, value, s', answer.pair)
    case Invalidate(key) => s' == InvalidateStep(s, key) && answer == Done
    case InvalidateRange(lo, hi) => s' == WithoutRange(s, lo, hi) && answer == Done
  }

  /** The states and answers of a run, one step after the other. */
  ghost predicate Run<V>(states: seq<Lfu<V>>, capacity: nat, ops: seq<Op<V>>, answers: seq<Answer<V>>) {
    && |answers| == |ops| && |states| == |ops| + 1
    && forall i :: 0 <= i < |ops| ==> Step(states[i], capacity, ops[i], states[i + 1], answers[i])
  }

  /** There is one entry to evict: no two have the same hit count and last touch. */
  lemma VictimIsUnique<V>(items: map<Key, Info<V>>, j: Key, k: Key)
    requires IsVictim(items, j) && IsVictim(items, k)
    ensures j == k
  {}

  /** A step leaves no choice. */
  lemma StepIsDetermined<V>(s: Lfu<V>, capacity: nat, op: Op<V>, s': Lfu<V>, x: Answer<V>, s'': Lfu<V>, y: Answer<V>)
    requires Step(s, capacity, op, s', x) && Step(s, capacity, op, s'', y)
    ensures s' == s'' && x == y
  {
    if op.Put? && x.pair.Some? && y.pair.Some? && op.key !in s.items {
      VictimIsUnique(s.items, x.pair.value.key, y.pair.value.key);
    }
  }

  /** And so the start and the operations determine every state and every answer of a run. */
  lemma {:induction false} RunIsDetermined<V>(p: seq<Lfu<V>>, q: seq<Lfu<V>>, capacity: nat, ops: seq<Op<V>>,
                                              x: seq<Answer<V>>, y: seq<Answer<V>>)
    requires Run(p, capacity, ops, x) && Run(q, capacity, ops, y) && p[0] == q[0]
    ensures p == q && x == y
  {
    if ops != [] {
      var n := |ops| - 1;
      RunIsDetermined(p[..n + 1], q[..n + 1], capacity, ops[..n], x[..n], y[..n]);
      assert p[n] == p[..n + 1][n] == q[..n + 1][n] == q[n];
      StepIsDetermined(p[n], capacity, ops[n], p[n + 1], x[n], q[n + 1], y[n]);
      assert p == p[..n + 1] + [p[n + 1]] && q == q[..n + 1] + [q[n + 1]];
      assert x == x[..n] + [x[n]] && y == y[..n] + [y[n]];
    }
  }
}

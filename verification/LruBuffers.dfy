/** What every step of the list with tombstones keeps: it stays well formed and loses no buffer. */
module LruBuffers {
  import opened Options
  import opened Sequences

  import opened LruSpec

  // ----- the list stays well formed -----

  lemma {:induction false} LiveIsAged<V>(order: seq<Option<Entry<V>>>, key: Key)
    ensures key in LiveKeys(order) <==> Age(order, key) < |order|
  {
    var p := Age(order, key);
    if p < |order| {
      assert order[p].value.key == key;
    }
  }

  ghost predicate DistinctLive<V>(order: seq<Option<Entry<V>>>) {
    forall p, q :: 0 <= p < q < |order| && order[p].Some? && order[q].Some? ==> order[p].value.key != order[q].value.key
  }

  /** An entry moved to the front, possibly with new data. */
  lemma MovedKeys<V>(a: Ages<V>, p: nat, e: Entry<V>)
    requires WellFormed(a) && p < |a.order| && a.order[p].Some? && e.key == a.order[p].value.key
    ensures var order := [Some(e)] + DropAt(a.order, p);
      |order| == |a.order| && DistinctLive(order) && LiveKeys(order) == LiveKeys(a.order)
  {
    var order := [Some(e)] + DropAt(a.order, p);
    MovedFrom(a.order, Some(e), p, 0);
    forall i, j | 0 <= i < j < |order| && order[i].Some? && order[j].Some?
      ensures order[i].value.key != order[j].value.key
    {
      MovedFrom(a.order, Some(e), p, i);
      MovedFrom(a.order, Some(e), p, j);
    }
    LiveIsAged(order, e.key);
    LiveIsAged(a.order, e.key);
    assert order[0].value.key == e.key;
    assert LiveKeys(order) == LiveKeys(a.order) by {
      forall x
        ensures x in LiveKeys(order) <==> x in LiveKeys(a.order)
      {
        LiveIsAged(order, x);
        LiveIsAged(a.order, x);
        if x != e.key {
          AgeAfterMove(a, e, p, x);
        }
      }
    }
  }

  /** The key at the last position, if that is live. */
  ghost function LastKey<V>(order: seq<Option<Entry<V>>>): set<Key>
    requires order != []
  {
    var last := order[|order| - 1];
    if last.Some? then {last.value.key} else {}
  }

  /** A new entry in front, where the last position drops out. */
  lemma PushedKeys<V>(a: Ages<V>, e: Entry<V>)
    requires WellFormed(a) && Age(a.order, e.key) == |a.order|
    ensures var order := [Some(e)] + a.order[..|a.order| - 1];
      DistinctLive(order) && LiveKeys(order) == LiveKeys(a.order) - LastKey(a.order) + {e.key}
    ensures LastKey(a.order) <= LiveKeys(a.order) && e.key !in LiveKeys(a.order)
  {
    var n := |a.order|;
    var order := [Some(e)] + a.order[..n - 1];
    assert forall q :: 1 <= q < n ==> order[q] == a.order[q - 1];
    LiveIsAged(a.order, e.key);
    assert order[0].value.key == e.key;
    forall x
      ensures x in LiveKeys(order) <==> x in LiveKeys(a.order) - LastKey(a.order) + {e.key}
    {
      LiveIsAged(order, x);
      LiveIsAged(a.order, x);
      if x != e.key {
        AgeAfterPush(a, e, x);
        LastAge(a, x);
      }
    }
  }

  lemma {:induction false} LastAge<V>(a: Ages<V>, x: Key)
    requires WellFormed(a)
    ensures x in LastKey(a.order) <==> Age(a.order, x) == |a.order| - 1
  {
    if x in LastKey(a.order) {
      OnePlace(a, x, |a.order| - 1);
    }
  }

  /** The entries with a key in keys blanked. */
  lemma BlankedKeys<V>(a: Ages<V>, order: seq<Option<Entry<V>>>, keys: set<Key>)
    requires WellFormed(a) && |order| == |a.order|
    requires forall p :: 0 <= p < |order| ==>
      order[p] == if a.order[p].Some? && a.order[p].value.key in keys then None else a.order[p]
    ensures DistinctLive(order) && LiveKeys(order) == LiveKeys(a.order) - keys
  {
    forall x
      ensures x in LiveKeys(order) <==> x in LiveKeys(a.order) - keys
    {
      if x in LiveKeys(a.order) - keys {
        var p :| 0 <= p < |a.order| && a.order[p].Some? && a.order[p].value.key == x;
        assert order[p].value.key == x;
      }
    }
  }

  /** Every step keeps the list well formed: live keys distinct, none of them parked, no slot too many. */
  lemma StepWellFormed<V>(a: Ages<V>, op: Op<V>)
    requires WellFormed(a)
    ensures WellFormed(AgesStep(a, op).0) && |AgesStep(a, op).0.order| == |a.order|
  {
    match op
    case Find(key) =>
      if Age(a.order, key) < |a.order| {
        MovedKeys(a, Age(a.order, key), a.order[Age(a.order, key)].value);
      }
    case Update(key, data) =>
      if Age(a.order, key) < |a.order| {
        MovedKeys(a, Age(a.order, key), Entry(key, data));
      } else {
        MissWellFormed(a, key, data);
      }
    case Invalidate(key) => InvalidateWellFormed(a, key);
    case InvalidateRange(lo, hi) => RangeWellFormed(a, lo, hi);
  }

  /** A list has no more live keys than positions, and as many exactly when it has no gap. */
  lemma {:induction false} LiveSize<V>(order: seq<Option<Entry<V>>>)
    ensures |LiveKeys(order)| <= |order|
    ensures (exists p :: 0 <= p < |order| && order[p].None?) ==> |LiveKeys(order)| < |order|
    ensures DistinctLive(order) && (forall p :: 0 <= p < |order| ==> order[p].Some?) ==> |LiveKeys(order)| == |order|
  {
    if order != [] {
      var n := |order| - 1;
      var front := order[..n];
      LiveSize(front);
      LiveKeysSplit(order);
      assert forall p :: 0 <= p < n ==> front[p] == order[p];
      hide LiveKeys;
    }
  }

  lemma LiveKeysSplit<V>(order: seq<Option<Entry<V>>>)
    requires order != []
    ensures LiveKeys(order) == LiveKeys(order[..|order| - 1]) + LastKey(order)
    ensures DistinctLive(order) ==> LiveKeys(order[..|order| - 1]) !! LastKey(order)
  {
    var front := order[..|order| - 1];
    assert forall p :: 0 <= p < |front| ==> front[p] == order[p];
    forall x
      ensures x in LiveKeys(order) <==> x in LiveKeys(front) + LastKey(order)
    {
      if x in LiveKeys(front) {
        var p :| 0 <= p < |front| && front[p].Some? && front[p].value.key == x;
        assert order[p].Some? && order[p].value.key == x;
      }
      if x in LastKey(order) {
        assert order[|order| - 1].value.key == x;
      }
    }
  }

  /** What a miss does to the numbers of live and parked keys. */
  lemma SwapSizes(live: set<Key>, parked: set<Key>, last: set<Key>, gone: set<Key>, key: Key, n: nat,
                  live': set<Key>, parked': set<Key>)
    requires live !! parked && |live| + |parked| <= n && last <= live && gone <= parked && key !in live
    requires if gone == {} then |live| + |parked| < n else |gone| == 1
    requires key in parked ==> key in gone
    requires live' == live - last + {key} && parked' == parked - gone + last
    ensures live' !! parked' && |live'| + |parked'| <= n
  {
    assert |live - last| == |live| - |last|;
    assert |parked - gone| == |parked| - |gone|;
    assert |parked - gone + last| == |parked - gone| + |last|;
  }

  lemma WellFormedIs<V>(order: seq<Option<Entry<V>>>, parked: map<Key, Option<V>>, n: nat)
    requires |order| == n > 0 && DistinctLive(order) && LiveKeys(order) !! parked.Keys && |LiveKeys(order)| + |parked.Keys| <= n
    ensures WellFormed(Ages(order, parked))
  {
    assert |parked| == |parked.Keys|;
  }

  lemma WellFormedSizes<V>(a: Ages<V>)
    requires WellFormed(a)
    ensures |a.order| > 0 && LiveKeys(a.order) !! a.parked.Keys
    ensures |LiveKeys(a.order)| + |a.parked.Keys| == |Slots(a)| <= |a.order|
  {
    assert |a.parked| == |a.parked.Keys|;
    hide LiveKeys;
  }

  lemma {:induction false} MissWellFormed<V>(a: Ages<V>, key: Key, data: V)
    requires WellFormed(a) && Age(a.order, key) == |a.order|
    ensures WellFormed(AgesStep(a, Op.Update(key, data)).0)
    ensures |AgesStep(a, Op.Update(key, data)).0.order| == |a.order|
  {
    hide WellFormed, LiveKeys, AgesStep, TakenOver, Age, Slots, DistinctLive, LastKey, Leftover;
    TakenOverParked(a, key);
    WellFormedSizes(a);
    PushedKeys(a, Entry(key, data));
    if TakenOver(a, key).None? && |Slots(a)| == |a.order| {
      StepOfFull(a, key, data);
      FullSize(a, key);
      WellFormedIs([Some(Entry(key, data))] + a.order[..|a.order| - 1], map[], |a.order|);
    } else {
      RoomWellFormed(a, key, data);
    }
  }

  lemma {:induction false} MissKeys<V>(a: Ages<V>, key: Key, data: V, gone: set<Key>)
    requires |a.order| > 0 && Age(a.order, key) == |a.order|
    requires var slot := TakenOver(a, key);
      if slot.Some? then gone == {slot.value} else gone == {} && |Slots(a)| < |a.order|
    ensures var a' := AgesStep(a, Op.Update(key, data)).0;
      && a'.order == [Some(Entry(key, data))] + a.order[..|a.order| - 1]
      && a'.parked.Keys == a.parked.Keys - gone + LastKey(a.order)
  {
    hide AgesStep, TakenOver, Age, Slots, Leftover;
    StepOfMiss(a, key, data, gone);
  }

  lemma {:induction false} RoomWellFormed<V>(a: Ages<V>, key: Key, data: V)
    requires WellFormed(a) && Age(a.order, key) == |a.order|
    requires TakenOver(a, key).Some? || |Slots(a)| < |a.order|
    ensures WellFormed(AgesStep(a, Op.Update(key, data)).0)
    ensures |AgesStep(a, Op.Update(key, data)).0.order| == |a.order|
  {
    var n, slot := |a.order|, TakenOver(a, key);
    var live, last := LiveKeys(a.order), LastKey(a.order);
    var gone: set<Key> := if slot.Some? then {slot.value} else {};
    var a' := AgesStep(a, Op.Update(key, data)).0;
    hide *;
    TakenOverParked(a, key);
    WellFormedSizes(a);
    PushedKeys(a, Entry(key, data));
    MissKeys(a, key, data, gone);
    var order, parked := a'.order, a'.parked;
    SwapSizes(live, a.parked.Keys, last, gone, key, n, LiveKeys(order), parked.Keys);
    WellFormedIs(order, parked, n);
  }

  lemma {:induction false} FullSize<V>(a: Ages<V>, key: Key)
    requires WellFormed(a) && TakenOver(a, key).None? && |Slots(a)| == |a.order|
    ensures a.parked == map[] && |LiveKeys(a.order)| == |a.order|
    ensures Age(a.order, key) == |a.order| ==> |LiveKeys(a.order) - LastKey(a.order) + {key}| <= |a.order|
  {
    TakenOverParked(a, key);
    assert Slots(a) == LiveKeys(a.order);
    LiveSize(a.order);
    if Age(a.order, key) == |a.order| {
      PushedKeys(a, Entry(key, a.order[|a.order| - 1].value.data));
    }
    hide LiveKeys, WellFormed;
  }

  lemma InvalidateWellFormed<V>(a: Ages<V>, key: Key)
    requires WellFormed(a)
    ensures WellFormed(AgesStep(a, Op.Invalidate(key)).0) && |AgesStep(a, Op.Invalidate(key)).0.order| == |a.order|
  {
    var p, n := Age(a.order, key), |a.order|;
    if p < n {
      var order, parked := a.order[p := None], a.parked[key := None];
      forall q | 0 <= q < n && a.order[q].Some? && a.order[q].value.key == key
        ensures q == p
      {
        OnePlace(a, key, q);
      }
      LiveIsAged(a.order, key);
      BlankedKeys(a, order, {key});
      var live := LiveKeys(a.order);
      assert parked.Keys == a.parked.Keys + {key};
      assert |a.parked| == |a.parked.Keys| && |live - {key}| == |live| - 1 && live !! a.parked.Keys && |live| + |a.parked| <= n;
      hide WellFormed, LiveKeys, DistinctLive;
      WellFormedIs(order, parked, n);
    }
  }

  lemma RangeWellFormed<V>(a: Ages<V>, lo: Key, hi: Key)
    requires WellFormed(a)
    ensures WellFormed(AgesDropRange(a, lo, hi)) && |AgesDropRange(a, lo, hi).order| == |a.order|
  {
    var b, live, n := AgesDropRange(a, lo, hi), LiveKeys(a.order), |a.order|;
    var keys := set k | k in live && lo <= k < hi;
    RangeKeys(a, lo, hi, keys);
    WellFormedSizes(a);
    hide WellFormed, LiveKeys, DistinctLive, AgesDropRange, Slots;
    BlankedKeys(a, b.order, keys);
    assert |live - keys| == |live| - |keys| && |a.parked.Keys + keys| == |a.parked.Keys| + |keys|;
    WellFormedIs(b.order, b.parked, n);
  }

  lemma RangeKeys<V>(a: Ages<V>, lo: Key, hi: Key, keys: set<Key>)
    requires forall k :: k in keys <==> k in LiveKeys(a.order) && lo <= k < hi
    ensures var b := AgesDropRange(a, lo, hi);
      && b.parked.Keys == a.parked.Keys + keys
      && |b.order| == |a.order|
      && forall p :: 0 <= p < |b.order| ==>
        b.order[p] == if a.order[p].Some? && a.order[p].value.key in keys then None else a.order[p]
  {
    assert forall p :: 0 <= p < |a.order| && a.order[p].Some? ==> a.order[p].value.key in LiveKeys(a.order);
    hide LiveKeys;
    var b := AgesDropRange(a, lo, hi);
    forall k
      ensures k in b.parked.Keys <==> k in a.parked.Keys + keys
    {
      assert k in Slots(a) <==> k in LiveKeys(a.order) || k in a.parked;
    }
  }

  // ----- no buffer is lost -----

  /** The buffer held under a key, live or parked. */
  ghost function Held<V>(a: Ages<V>, key: Key): Option<V> {
    var p := Age(a.order, key);
    if p < |a.order| then Some(a.order[p].value.data)
    else if key in a.parked then a.parked[key]
    else None
  }

  lemma LiveNotParked<V>(a: Ages<V>, p: nat)
    requires WellFormed(a) && p < |a.order| && a.order[p].Some?
    ensures a.order[p].value.key !in a.parked
    ensures Age(a.order, a.order[p].value.key) == p
  {
    assert a.order[p].value.key in LiveKeys(a.order);
  }

  lemma {:induction false} AgeUnique<V>(order: seq<Option<Entry<V>>>, key: Key, p: nat)
    requires p < |order| && order[p].Some? && order[p].value.key == key
    requires forall q :: 0 <= q < |order| && order[q].Some? && order[q].value.key == key ==> q == p
    ensures Age(order, key) == p
  {}

  lemma {:induction false} AgeAbsent<V>(order: seq<Option<Entry<V>>>, key: Key)
    requires forall q :: 0 <= q < |order| && order[q].Some? ==> order[q].value.key != key
    ensures Age(order, key) == |order|
  {}

  /** The age of another key after an entry came in at the front. */
  lemma {:induction false} AgeAfterPush<V>(a: Ages<V>, e: Entry<V>, x: Key)
    requires WellFormed(a) && e.key != x
    ensures var n, p := |a.order|, Age(a.order, x);
      var order := [Some(e)] + a.order[..n - 1];
      Age(order, x) == (if p < n - 1 then p + 1 else n) && (p < n - 1 ==> order[p + 1] == a.order[p])
  {
    var n, p := |a.order|, Age(a.order, x);
    var order := [Some(e)] + a.order[..n - 1];
    assert forall q :: 1 <= q < n ==> order[q] == a.order[q - 1];
    if p < n - 1 {
      AgeUnique(order, x, p + 1);
    } else {
      AgeAbsent(order, x);
    }
  }

  /** The age of another key after the entry at p came to the front. */
  lemma {:induction false} AgeAfterMove<V>(a: Ages<V>, e: Entry<V>, p: nat, x: Key)
    requires WellFormed(a) && p < |a.order| && a.order[p].Some? && a.order[p].value.key == e.key && e.key != x
    ensures var order, q, q' := [Some(e)] + DropAt(a.order, p), Age(a.order, x), Age([Some(e)] + DropAt(a.order, p), x);
      if q < |a.order| then q' < |order| && order[q'] == a.order[q] else q' == |order|
  {
    var n, q := |a.order|, Age(a.order, x);
    var order := [Some(e)] + DropAt(a.order, p);
    hide WellFormed, DropAt;
    forall i | 0 <= i < n && order[i].Some? && order[i].value.key == x
      ensures q < n && i == if q < p then q + 1 else q
    {
      MovedFrom(a.order, Some(e), p, i);
      OnePlace(a, x, if i <= p then i - 1 else i);
    }
    if q < n {
      OnePlace(a, e.key, p);
      MovedFrom(a.order, Some(e), p, if q < p then q + 1 else q);
      AgeUnique(order, x, if q < p then q + 1 else q);
    } else {
      AgeAbsent(order, x);
    }
  }

  lemma {:induction false} OnePlace<V>(a: Ages<V>, key: Key, p: nat)
    requires WellFormed(a) && p < |a.order| && a.order[p].Some? && a.order[p].value.key == key
    ensures Age(a.order, key) == p
  {}

  /** Update(key, data) stores its buffer, and the one under x stays or is handed back with its key. */
  ghost predicate Conserves<V>(a: Ages<V>, key: Key, data: V, x: Key)
    requires |a.order| > 0
  {
    var (a', answer) := AgesStep(a, Op.Update(key, data));
    var back := if answer.entry.Some? && answer.entry.value.key == x then Some(answer.entry.value.data) else None;
    if x == key then Held(a', x) == Some(data) && back == Held(a, x)
    else if back.Some? then Held(a', x) == None && back == Held(a, x)
    else Held(a', x) == Held(a, x)
  }

  lemma {:induction false} HitConserves<V>(a: Ages<V>, key: Key, data: V, x: Key)
    requires WellFormed(a) && Age(a.order, key) < |a.order|
    ensures Conserves(a, key, data, x)
  {
    var p := Age(a.order, key);
    StepOfHit(a, key, data);
    if x == key {
      assert Age([Some(Entry(key, data))] + DropAt(a.order, p), key) == 0;
    } else {
      AgeAfterMove(a, Entry(key, data), p, x);
    }
    hide WellFormed, Age, AgesStep, DropAt;
  }

  /** No update loses a buffer: it is held on or handed back, even long after it was parked. */
  lemma UpdateConserves<V>(a: Ages<V>, key: Key, data: V, x: Key)
    requires WellFormed(a)
    ensures Conserves(a, key, data, x)
  {
    var n, p := |a.order|, Age(a.order, key);
    if p < n {
      HitConserves(a, key, data, x);
    } else {
      MissConserves(a, key, data, x);
    }
  }

  /** Where the buffer under x is after a miss stored entry e and left these slots parked. */
  lemma {:induction false} HeldAfterMiss<V>(a: Ages<V>, e: Entry<V>, parked: map<Key, Option<V>>, x: Key)
    requires WellFormed(a) && Age(a.order, e.key) == |a.order|
    ensures var n := |a.order|;
      var a' := Ages([Some(e)] + a.order[..n - 1], parked);
      Held(a', x) ==
        if x == e.key then Some(e.data)
        else if Age(a.order, x) < n - 1 then Held(a, x)
        else if x in parked then parked[x] else None
  {
    if x != e.key {
      AgeAfterPush(a, e, x);
    }
    hide WellFormed;
  }

  /** Where the buffer under x is before. */
  lemma {:induction false} HeldBefore<V>(a: Ages<V>, x: Key)
    requires WellFormed(a)
    ensures var n, p := |a.order|, Age(a.order, x);
      && (p < n ==> x !in a.parked && Held(a, x) == Some(a.order[p].value.data))
      && (p == n ==> Held(a, x) == if x in a.parked then a.parked[x] else None)
      && (p == n - 1 <==> a.order[n - 1].Some? && a.order[n - 1].value.key == x)
      && (a.order[n - 1].Some? ==> a.order[n - 1].value.key !in a.parked)
  {
    var n, p := |a.order|, Age(a.order, x);
    if p < n {
      LiveNotParked(a, p);
    }
    if a.order[n - 1].Some? {
      LiveNotParked(a, n - 1);
    }
    hide WellFormed;
  }

  lemma {:induction false} MissConserves<V>(a: Ages<V>, key: Key, data: V, x: Key)
    requires WellFormed(a) && Age(a.order, key) == |a.order|
    ensures Conserves(a, key, data, x)
  {
    TakenOverParked(a, key);
    SlotsBound(a);
    HeldBefore(a, x);
    HeldBefore(a, key);
    if TakenOver(a, key).None? && |Slots(a)| == |a.order| {
      FullConserves(a, key, data, x);
    } else {
      RoomConserves(a, key, data, x);
    }
  }

  lemma {:induction false} FullConserves<V>(a: Ages<V>, key: Key, data: V, x: Key)
    requires WellFormed(a) && Age(a.order, key) == |a.order|
    requires TakenOver(a, key).None? && |Slots(a)| == |a.order|
    ensures Conserves(a, key, data, x)
  {
    TakenOverParked(a, key);
    assert |a.order| > 0;
    hide AgesStep, Age, WellFormed, TakenOver, Slots, LiveKeys, Held;
    HeldBefore(a, x);
    HeldBefore(a, key);
    StepOfFull(a, key, data);
    HeldAfterMiss(a, Entry(key, data), map[], x);
  }

  lemma {:induction false} RoomConserves<V>(a: Ages<V>, key: Key, data: V, x: Key)
    requires WellFormed(a) && Age(a.order, key) == |a.order|
    requires TakenOver(a, key).Some? || |Slots(a)| < |a.order|
    ensures Conserves(a, key, data, x)
  {
    var slot := TakenOver(a, key);
    var gone: set<Key> := if slot.Some? then {slot.value} else {};
    hide AgesStep, Age, WellFormed, TakenOver, Slots, LiveKeys, Held, Leftover;
    TakenOverParked(a, key);
    StepOfMiss(a, key, data, gone);
    ParkedConserves(a, key, data, x, slot, gone);
  }

  /** The same for a miss that takes over the parked slot or adds a fresh one. */
  lemma {:induction false} ParkedConserves<V>(a: Ages<V>, key: Key, data: V, x: Key, slot: Option<Key>, gone: set<Key>)
    requires WellFormed(a) && Age(a.order, key) == |a.order|
    requires if slot.Some? then slot.value in a.parked && gone == {slot.value} else gone == {}
    requires key in a.parked ==> slot == Some(key)
    ensures var last, kept := a.order[|a.order| - 1], a.parked - gone;
      var parked := if last.Some? then kept[last.value.key := Some(last.value.data)] else kept;
      var a' := Ages([Some(Entry(key, data))] + a.order[..|a.order| - 1], parked);
      var entry := if slot.Some? then Leftover(a.parked, slot.value) else None;
      var back := if entry.Some? && entry.value.key == x then Some(entry.value.data) else None;
      if x == key then Held(a', x) == Some(data) && back == Held(a, x)
      else if back.Some? then Held(a', x) == None && back == Held(a, x)
      else Held(a', x) == Held(a, x)
  {
    var last, kept := a.order[|a.order| - 1], a.parked - gone;
    var parked := if last.Some? then kept[last.value.key := Some(last.value.data)] else kept;
    hide Age, WellFormed, LiveKeys, Held;
    HeldBefore(a, x);
    HeldBefore(a, key);
    HeldAfterMiss(a, Entry(key, data), parked, x);
  }

  lemma SlotsBound<V>(a: Ages<V>)
    requires WellFormed(a)
    ensures |Slots(a)| <= |a.order|
  {
    assert |LiveKeys(a.order) + a.parked.Keys| == |LiveKeys(a.order)| + |a.parked.Keys|;
    assert |a.parked.Keys| == |a.parked|;
  }

  lemma TakenOverParked<V>(a: Ages<V>, key: Key)
    requires WellFormed(a)
    ensures var slot := TakenOver(a, key);
      && (slot.Some? ==> slot.value in a.parked)
      && (key in a.parked ==> slot == Some(key))
      && (slot.None? && |Slots(a)| == |a.order| ==> a.parked == map[])
  {
    if key in a.parked {
      assert key in NotBelow(Slots(a), key);
    }
  }
}

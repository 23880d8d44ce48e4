/** Least-recently-used caching as sequences: the textbook list and the list with tombstones. */
module LruSpec {
  import opened Options
  import opened Sequences

  /** Keys are compared by a total order that agrees with equality. */
  type Key = int

  datatype Entry<+V> = Entry(key: Key, data: V)

  datatype Op<+V> =
    | Find(key: Key)
    | Update(key: Key, data: V)
    | Invalidate(key: Key)
    | InvalidateRange(lo: Key, hi: Key)

  /** The source asserts that a range is not empty. */
  predicate Allowed<V>(op: Op<V>) {
    op.InvalidateRange? ==> op.lo < op.hi
  }

  /** What a caller sees: the data found, the pair displaced by an update, or nothing. */
  datatype Answer<+V> = Found(data: Option<V>) | Displaced(entry: Option<Entry<V>>) | Done

  // ----- the textbook list, most recent first -----

  ghost predicate Distinct<V>(r: seq<Entry<V>>) {
    forall i, j :: 0 <= i < j < |r| ==> r[i].key != r[j].key
  }

  /** The position of key in r, or |r|. */
  function Position<V>(r: seq<Entry<V>>, key: Key): (p: nat)
    ensures p <= |r|
    ensures p < |r| ==> r[p].key == key
    ensures forall i :: 0 <= i < p ==> r[i].key != key
  {
    if r == [] || r[0].key == key then 0 else 1 + Position(r[1..], key)
  }

  function LruStep<V>(r: seq<Entry<V>>, capacity: nat, op: Op<V>): (seq<Entry<V>>, Answer<V>)
    requires capacity > 0
  {
    match op
    case Find(key) =>
      var p := Position(r, key);
      if p < |r| then ([r[p]] + DropAt(r, p), Found(Some(r[p].data))) else (r, Found(None))
    case Update(key, data) =>
      var p, entry := Position(r, key), Entry(key, data);
      if p < |r| then ([entry] + DropAt(r, p), Displaced(Some(r[p])))
      else if |r| < capacity then ([entry] + r, Displaced(None))
      else ([entry] + r[..|r| - 1], Displaced(Some(r[|r| - 1])))
    case Invalidate(key) =>
      var p := Position(r, key);
      (if p < |r| then DropAt(r, p) else r, Done)
    case InvalidateRange(lo, hi) =>
      (Outside(r, lo, hi), Done)
  }

  /** The entries of r whose key is outside lo..hi. */
  function Outside<V>(r: seq<Entry<V>>, lo: Key, hi: Key): seq<Entry<V>> {
    if r == [] then []
    else if lo <= r[0].key < hi then Outside(r[1..], lo, hi)
    else [r[0]] + Outside(r[1..], lo, hi)
  }

  // ----- the list with tombstones: position p holds the live entry of age p, or a gap -----

  /** order: entries by age. parked: slots that are not live, with the buffer each still holds. */
  datatype Ages<+V> = Ages(order: seq<Option<Entry<V>>>, parked: map<Key, Option<V>>)

  function LiveKeys<V>(order: seq<Option<Entry<V>>>): set<Key> {
    set p | 0 <= p < |order| && order[p].Some? :: order[p].value.key
  }

  ghost predicate WellFormed<V>(a: Ages<V>) {
    && |a.order| > 0
    && (forall p, q :: 0 <= p < q < |a.order| && a.order[p].Some? && a.order[q].Some? ==>
      a.order[p].value.key != a.order[q].value.key)
    && LiveKeys(a.order) !! a.parked.Keys
    && |LiveKeys(a.order)| + |a.parked| <= |a.order|
  }

  function Age<V>(order: seq<Option<Entry<V>>>, key: Key): (p: nat)
    ensures p <= |order|
    ensures p < |order| ==> order[p].Some? && order[p].value.key == key
    ensures forall i :: 0 <= i < p && order[i].Some? ==> order[i].value.key != key
  {
    if order == [] then 0
    else if order[0].Some? && order[0].value.key == key then 0
    else 1 + Age(order[1..], key)
  }

  ghost predicate IsLeast(x: Key, s: set<Key>) {
    x in s && forall y :: y in s ==> x <= y
  }

  lemma Member<T>(s: set<T>) returns (x: T)
    requires s != {}
    ensures x in s
  {
    x :| x in s;
  }

  lemma LeastExists(s: set<Key>)
    requires s != {}
    ensures exists x :: IsLeast(x, s)
  {
    var x := Member(s);
    var rest := s - {x};
    if rest == {} {
      assert s == {x};
      assert IsLeast(x, s);
    } else {
      LeastExists(rest);
      var y :| IsLeast(y, rest);
      var z := if x < y then x else y;
      forall w | w in s
        ensures z <= w
      {
        assert w == x || w in rest;
      }
      assert IsLeast(z, s);
    }
  }

  ghost function Least(s: set<Key>): (x: Key)
    requires s != {}
    ensures IsLeast(x, s)
  {
    LeastExists(s);
    var x :| IsLeast(x, s);
    x
  }

  /** The keys of s that are not below key. */
  ghost function NotBelow(s: set<Key>, key: Key): set<Key> {
    set x | x in s && x >= key
  }

  ghost function Slots<V>(a: Ages<V>): set<Key> {
    LiveKeys(a.order) + a.parked.Keys
  }

  /**
   * The parked slot that a missed key takes over: the one at its own place in key order, or,
   * when there is no room for another slot, the first.
   */
  ghost function TakenOver<V>(a: Ages<V>, key: Key): Option<Key> {
    var above := NotBelow(Slots(a), key);
    if above != {} && Least(above) in a.parked then Some(Least(above))
    else if |Slots(a)| < |a.order| || a.parked == map[] then None
    else Some(Least(a.parked.Keys))
  }

  ghost function AgesStep<V>(a: Ages<V>, op: Op<V>): (Ages<V>, Answer<V>)
    requires |a.order| > 0
  {
    var n := |a.order|;
    match op
    case Find(key) =>
      var p := Age(a.order, key);
      if p < n then (a.(order := [a.order[p]] + DropAt(a.order, p)), Found(Some(a.order[p].value.data)))
      else (a, Found(None))
    case Update(key, data) =>
      var p, entry := Age(a.order, key), Some(Entry(key, data));
      if p < n then (a.(order := [entry] + DropAt(a.order, p)), Displaced(a.order[p]))
      else
        var last := a.order[n - 1];
        var slot := TakenOver(a, key);
        var order := [entry] + a.order[..n - 1];
        if slot.None? && |Slots(a)| == n then (Ages(order, map[]), Displaced(last))
        else
          var kept := if slot.Some? then a.parked - {slot.value} else a.parked;
          (Ages(order, if last.Some? then kept[last.value.key := Some(last.value.data)] else kept),
           Displaced(if slot.Some? then Leftover(a.parked, slot.value) else None))
    case Invalidate(key) =>
      var p := Age(a.order, key);
      (if p < n then Ages(a.order[p := None], a.parked[key := None]) else a, Done)
    case InvalidateRange(lo, hi) =>
      (AgesDropRange(a, lo, hi), Done)
  }

  /** The pair that overwriting a parked slot gives back. */
  ghost function Leftover<V>(parked: map<Key, Option<V>>, slot: Key): Option<Entry<V>> {
    if slot in parked && parked[slot].Some? then Some(Entry(slot, parked[slot].value)) else None
  }

  /** Drops every live entry with a key in lo..hi and the buffers of the parked ones. */
  ghost function AgesDropRange<V>(a: Ages<V>, lo: Key, hi: Key): Ages<V> {
    var order := seq(|a.order|, p requires 0 <= p < |a.order| =>
      if a.order[p].Some? && lo <= a.order[p].value.key < hi then None else a.order[p]);
    Ages(order, map k | k in Slots(a) && (k in a.parked || lo <= k < hi) :: LeftUnder(a, lo, hi, k))
  }

  /** The buffer that a slot not live after dropping lo..hi still holds. */
  ghost function LeftUnder<V>(a: Ages<V>, lo: Key, hi: Key, k: Key): Option<V>
    requires k in a.parked || lo <= k < hi
  {
    if lo <= k < hi then None else a.parked[k]
  }

  lemma LeftUnderIs<V>(a: Ages<V>, lo: Key, hi: Key, k: Key)
    ensures k in AgesDropRange(a, lo, hi).parked <==> k in Slots(a) && (k in a.parked || lo <= k < hi)
    ensures k in AgesDropRange(a, lo, hi).parked ==>
      AgesDropRange(a, lo, hi).parked[k] == if lo <= k < hi then None else a.parked[k]
  {
    hide Slots;
  }

  lemma {:induction false} StepOfHit<V>(a: Ages<V>, key: Key, data: V)
    requires Age(a.order, key) < |a.order|
    ensures var p := Age(a.order, key);
      AgesStep(a, Update(key, data)) ==
        (a.(order := [Some(Entry(key, data))] + DropAt(a.order, p)), Displaced(a.order[p]))
  {
    hide Slots, TakenOver, Age;
  }

  lemma {:induction false} StepOfFull<V>(a: Ages<V>, key: Key, data: V)
    requires |a.order| > 0 && Age(a.order, key) == |a.order| && TakenOver(a, key).None? && |Slots(a)| == |a.order|
    ensures var last := a.order[|a.order| - 1];
      AgesStep(a, Update(key, data)) == (Ages([Some(Entry(key, data))] + a.order[..|a.order| - 1], map[]), Displaced(last))
  {}

  lemma {:induction false} StepOfMiss<V>(a: Ages<V>, key: Key, data: V, gone: set<Key>)
    requires |a.order| > 0 && Age(a.order, key) == |a.order|
    requires var slot := TakenOver(a, key);
      if slot.Some? then gone == {slot.value} else gone == {} && |Slots(a)| < |a.order|
    ensures var slot, last, kept := TakenOver(a, key), a.order[|a.order| - 1], a.parked - gone;
      AgesStep(a, Update(key, data)) ==
        (Ages([Some(Entry(key, data))] + a.order[..|a.order| - 1],
              if last.Some? then kept[last.value.key := Some(last.value.data)] else kept),
         Displaced(if slot.Some? then Leftover(a.parked, slot.value) else None))
  {
    assert gone == {} ==> a.parked - gone == a.parked;
    hide Slots, TakenOver;
  }
}

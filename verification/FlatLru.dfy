/** The sorted-vector cache with age counters. */
module FlatLru {
  import Finite
  import opened Options
  import opened Sequences

  import opened LruSpec

  datatype Slot<+V> = Slot(key: Key, data: Option<V>, refs: nat)

  // ----- the vector as a map -----

  ghost predicate Sorted<V>(s: seq<Slot<V>>) {
    forall i, j :: 0 <= i < j < |s| ==> s[i].key < s[j].key
  }

  /** The slots of a vector by key. */
  ghost function ByKey<V>(s: seq<Slot<V>>): map<Key, Slot<V>> {
    if s == [] then map[] else ByKey(s[..|s| - 1])[s[|s| - 1].key := s[|s| - 1]]
  }

  lemma {:induction false} ByKeyConcat<V>(s: seq<Slot<V>>, t: seq<Slot<V>>)
    ensures ByKey(s + t) == ByKey(s) + ByKey(t)
  {
    if t == [] {
      assert s + t == s;
    } else {
      assert (s + t)[..|s + t| - 1] == s + t[..|t| - 1];
      ByKeyConcat(s, t[..|t| - 1]);
    }
  }

  lemma ByKeyOne<V>(x: Slot<V>)
    ensures ByKey([x]) == map[x.key := x]
  {}

  /** A key is in exactly when some slot has it. */
  lemma {:induction false} ByKeyHas<V>(s: seq<Slot<V>>, key: Key)
    ensures key in ByKey(s) <==> exists i :: 0 <= i < |s| && s[i].key == key
  {
    if s != [] {
      var rest := s[..|s| - 1];
      ByKeyHas(rest, key);
      if i :| 0 <= i < |s| && s[i].key == key {
        assert i < |rest| ==> rest[i].key == key;
      }
    }
  }

  /** A sorted vector around one of its slots. */
  lemma {:induction false} ByKeySplit<V>(s: seq<Slot<V>>, i: nat)
    requires Sorted(s) && i < |s|
    ensures var a, b := ByKey(s[..i]), ByKey(s[i + 1..]);
      ByKey(s) == a[s[i].key := s[i]] + b && s[i].key !in a && s[i].key !in b
  {
    var x := s[i];
    assert s == s[..i] + [x] + s[i + 1..];
    ByKeyConcat(s[..i] + [x], s[i + 1..]);
    ByKeyConcat(s[..i], [x]);
    ByKeyOne(x);
    ByKeyHas(s[..i], x.key);
    ByKeyHas(s[i + 1..], x.key);
  }

  lemma {:induction false} ByKeyAt<V>(s: seq<Slot<V>>, i: nat)
    requires Sorted(s) && i < |s|
    ensures s[i].key in ByKey(s) && ByKey(s)[s[i].key] == s[i]
  {
    ByKeySplit(s, i);
    hide ByKey;
  }

  lemma {:induction false} ByKeySize<V>(s: seq<Slot<V>>)
    requires Sorted(s)
    ensures |ByKey(s)| == |s|
  {
    if s != [] {
      ByKeySize(s[..|s| - 1]);
      ByKeyHas(s[..|s| - 1], s[|s| - 1].key);
    }
  }

  /** Slots are filed under their own keys, live ones hold a buffer, and no two have one age. */
  ghost predicate Good<V>(m: map<Key, Slot<V>>, n: nat) {
    && |m| <= n
    && (forall k :: k in m ==> m[k].key == k && m[k].refs <= n && (m[k].refs < n ==> m[k].data.Some?))
    && (forall j, k :: j in m && k in m && j != k && m[j].refs == m[k].refs ==> m[j].refs == n)
  }

  // ----- what the slots mean -----

  ghost function AtAge<V>(m: map<Key, Slot<V>>, n: nat, age: nat): Option<Entry<V>>
    requires Good(m, n) && age < n
  {
    if exists k :: k in m && m[k].refs == age then
      var k :| k in m && m[k].refs == age;
      Some(Entry(k, m[k].data.value))
    else None
  }

  /** Entries by age, and the parked slots with what they still hold. */
  ghost function Meaning<V>(m: map<Key, Slot<V>>, n: nat): (a: Ages<V>)
    requires Good(m, n)
    ensures |a.order| == n
  {
    Ages(seq(n, age requires 0 <= age < n => AtAge(m, n, age)),
         map k | k in m && m[k].refs == n :: DataOf(m, k))
  }

  ghost function DataOf<V>(m: map<Key, Slot<V>>, k: Key): Option<V>
    requires k in m
  {
    m[k].data
  }

  lemma ParkedAt<V>(m: map<Key, Slot<V>>, n: nat, k: Key)
    requires Good(m, n)
    ensures k in Meaning(m, n).parked <==> k in m && m[k].refs == n
    ensures k in m && m[k].refs == n ==> Meaning(m, n).parked[k] == m[k].data
  {
    hide AtAge;
  }

  lemma OrderAt<V>(m: map<Key, Slot<V>>, n: nat, age: nat)
    requires Good(m, n) && age < n
    ensures Meaning(m, n).order[age] == AtAge(m, n, age)
  {
    hide AtAge;
  }

  /** What slots mean, position by position and key by key. */
  lemma MeaningIs<V>(m: map<Key, Slot<V>>, n: nat, a: Ages<V>)
    requires Good(m, n) && |a.order| == n
    requires forall age :: 0 <= age < n ==> a.order[age] == AtAge(m, n, age)
    requires forall k :: k in a.parked <==> k in m && m[k].refs == n
    requires forall k :: k in a.parked ==> a.parked[k] == m[k].data
    ensures Meaning(m, n) == a
  {
    hide AtAge, Good, Meaning;
    forall age | 0 <= age < n
      ensures Meaning(m, n).order[age] == a.order[age]
    {
      OrderAt(m, n, age);
    }
    assert Meaning(m, n).order == a.order;
    forall k
      ensures k in Meaning(m, n).parked <==> k in a.parked
      ensures k in a.parked ==> Meaning(m, n).parked[k] == a.parked[k]
    {
      ParkedAt(m, n, k);
    }
    SameMap(Meaning(m, n).parked, a.parked);
  }

  lemma MeaningOfLive<V>(m: map<Key, Slot<V>>, n: nat, k: Key)
    requires Good(m, n) && k in m && m[k].refs < n
    ensures Meaning(m, n).order[m[k].refs] == Some(Entry(k, m[k].data.value))
  {}

  lemma MeaningLiveKeys<V>(m: map<Key, Slot<V>>, n: nat)
    requires Good(m, n)
    ensures forall k :: k in LiveKeys(Meaning(m, n).order) <==> k in m && m[k].refs < n
  {
    var order := Meaning(m, n).order;
    forall k | k in m && m[k].refs < n
      ensures k in LiveKeys(order)
    {
      MeaningOfLive(m, n, k);
    }
    forall k | k in LiveKeys(order)
      ensures k in m && m[k].refs < n
    {
      var p :| 0 <= p < n && order[p].Some? && order[p].value.key == k;
      assert order[p] == AtAge(m, n, p);
    }
  }

  lemma {:induction false} MeaningAge<V>(m: map<Key, Slot<V>>, n: nat, k: Key)
    requires Good(m, n)
    ensures Age(Meaning(m, n).order, k) == if k in m then m[k].refs else n
  {
    var order := Meaning(m, n).order;
    var p := Age(order, k);
    if p < n {
      assert order[p] == AtAge(m, n, p);
    } else if k in m && m[k].refs < n {
      MeaningOfLive(m, n, k);
      assert false;
    }
  }

  lemma MeaningSlots<V>(m: map<Key, Slot<V>>, n: nat)
    requires Good(m, n)
    ensures Slots(Meaning(m, n)) == m.Keys
    ensures |Slots(Meaning(m, n))| == |m|
  {
    MeaningLiveKeys(m, n);
    forall k
      ensures k in Slots(Meaning(m, n)) <==> k in m.Keys
    {}
    assert |m.Keys| == |m|;
  }

  lemma MeaningWellFormed<V>(m: map<Key, Slot<V>>, n: nat)
    requires Good(m, n) && n > 0
    ensures WellFormed(Meaning(m, n))
  {
    var a := Meaning(m, n);
    MeaningSlots(m, n);
    MeaningLiveKeys(m, n);
    var live, parked := LiveKeys(a.order), a.parked.Keys;
    assert |live + parked| == |live| + |parked|;
    assert |parked| == |a.parked|;
    forall p, q | 0 <= p < q < n && a.order[p].Some? && a.order[q].Some?
      ensures a.order[p].value.key != a.order[q].value.key
    {
      assert a.order[p] == AtAge(m, n, p) && a.order[q] == AtAge(m, n, q);
    }
  }

  // ----- touch -----

  /** The slot after slot key was touched. */
  function Touched<V>(slot: Slot<V>, key: Key, age: nat): Slot<V> {
    if slot.key == key then slot.(refs := 0)
    else if slot.refs < age then slot.(refs := slot.refs + 1)
    else slot
  }

  ghost function Touch<V>(m: map<Key, Slot<V>>, key: Key): map<Key, Slot<V>>
    requires key in m
  {
    map k | k in m :: TouchedAt(m, key, k)
  }

  ghost function TouchedAt<V>(m: map<Key, Slot<V>>, key: Key, k: Key): Slot<V>
    requires key in m && k in m
  {
    Touched(m[k], key, m[key].refs)
  }

  lemma TouchAt<V>(m: map<Key, Slot<V>>, key: Key, k: Key)
    requires key in m
    ensures k in Touch(m, key) <==> k in m
    ensures k in m ==> Touch(m, key)[k] == Touched(m[k], key, m[key].refs)
  {}

  lemma TouchGood<V>(m: map<Key, Slot<V>>, n: nat, key: Key)
    requires Good(m, n) && n > 0 && key in m && m[key].data.Some?
    ensures Good(Touch(m, key), n)
  {
    var m', p := Touch(m, key), m[key].refs;
    TouchKeys(m, key);
    OwnKey(m, n, key);
    hide Touch, Touched;
    forall k | k in m'
      ensures m'[k].key == k && m'[k].refs <= n && (m'[k].refs < n ==> m'[k].data.Some?)
    {
      TouchAt(m, key, k);
      TouchedOne(m[k], key, p, n);
    }
    forall j, k | j in m' && k in m' && j != k && m'[j].refs == m'[k].refs
      ensures m'[j].refs == n
    {
      TouchAt(m, key, j);
      TouchAt(m, key, k);
      TouchedTwo(m[j], m[k], key, p, n);
    }
  }

  lemma TouchKeys<V>(m: map<Key, Slot<V>>, key: Key)
    requires key in m
    ensures Touch(m, key).Keys == m.Keys && |Touch(m, key)| == |m|
  {
    forall k
      ensures k in Touch(m, key).Keys <==> k in m.Keys
    {
      TouchAt(m, key, k);
    }
    hide Touch;
    assert Touch(m, key).Keys == m.Keys;
    assert |Touch(m, key).Keys| == |m.Keys|;
  }

  lemma TouchedOne<V>(x: Slot<V>, key: Key, age: nat, n: nat)
    requires x.refs <= n && age <= n && (x.refs < n || x.key == key ==> x.data.Some?)
    ensures var x' := Touched(x, key, age);
      x'.key == x.key && x'.data == x.data && x'.refs <= n && (x'.refs < n ==> x'.data.Some?)
  {}

  /** Two slots of different ages have different ages after a touch. */
  lemma TouchedTwo<V>(x: Slot<V>, y: Slot<V>, key: Key, age: nat, n: nat)
    requires x.key != y.key && x.refs <= n && y.refs <= n && (x.refs == y.refs ==> x.refs == n)
    requires x.refs == age ==> x.key == key || age == n
    requires y.refs == age ==> y.key == key || age == n
    requires 0 < n && age <= n
    ensures Touched(x, key, age).refs == Touched(y, key, age).refs ==> Touched(x, key, age).refs == n
  {}

  /** The touched entry comes first, those that were younger move back by one. */
  lemma TouchOrder<V>(m: map<Key, Slot<V>>, n: nat, key: Key, age: nat)
    requires Good(m, n) && n > 0 && key in m && m[key].data.Some? && Good(Touch(m, key), n) && age < n
    ensures AtAge(Touch(m, key), n, age) ==
      if age == 0 then Some(Entry(key, m[key].data.value))
      else AtAge(m, n, if age <= m[key].refs then age - 1 else age)
  {
    var m' := Touch(m, key);
    hide Good, Touch, AtAge;
    if age == 0 {
      TouchedFirst(m, n, key);
    } else {
      var age' := if age <= m[key].refs then age - 1 else age;
      forall k
        ensures (k in m && m[k].refs == age') <==> (k in m' && m'[k].refs == age)
        ensures k in m && m[k].refs == age' ==> m'[k].data == m[k].data
      {
        TouchAt(m, key, k);
        OwnKey(m, n, k);
        OneAge(m, n, key, k);
      }
      SameAtAge(m, m', n, age', age);
    }
  }

  lemma OneAge<V>(m: map<Key, Slot<V>>, n: nat, j: Key, k: Key)
    requires Good(m, n) && j in m
    ensures k in m && m[k].refs == m[j].refs < n ==> k == j
  {}

  lemma TouchedFirst<V>(m: map<Key, Slot<V>>, n: nat, key: Key)
    requires Good(m, n) && n > 0 && key in m && m[key].data.Some? && Good(Touch(m, key), n)
    ensures AtAge(Touch(m, key), n, 0) == Some(Entry(key, m[key].data.value))
  {
    TouchAt(m, key, key);
    OwnKey(m, n, key);
    hide Touch;
    var m' := Touch(m, key);
    assert key in m' && m'[key].refs == 0;
  }

  /** Touching a live slot moves its entry to the front. */
  lemma TouchLive<V>(m: map<Key, Slot<V>>, n: nat, key: Key)
    requires Good(m, n) && n > 0 && key in m && m[key].refs < n
    ensures Good(Touch(m, key), n)
    ensures var a, p := Meaning(m, n), m[key].refs;
      Meaning(Touch(m, key), n) == Ages([a.order[p]] + DropAt(a.order, p), a.parked)
  {
    TouchGood(m, n, key);
    MeaningOfLive(m, n, key);
    OwnKey(m, n, key);
    var p, m' := m[key].refs, Touch(m, key);
    var a := Meaning(m, n);
    var order := [a.order[p]] + DropAt(a.order, p);
    MovedFrom(a.order, a.order[p], p, 0);
    hide Good, Meaning, Touch, AtAge, DropAt;
    forall age | 0 <= age < n
      ensures order[age] == AtAge(m', n, age)
    {
      MovedFrom(a.order, a.order[p], p, age);
      TouchOrder(m, n, key, age);
      if age > 0 {
        OrderAt(m, n, if age <= p then age - 1 else age);
      }
    }
    forall k
      ensures k in a.parked <==> k in m' && m'[k].refs == n
      ensures k in a.parked ==> a.parked[k] == m'[k].data
    {
      LiveTouchParks(m, n, key, k);
    }
    MeaningIs(m', n, Ages(order, a.parked));
  }

  /** Touching a live slot parks no slot. */
  lemma LiveTouchParks<V>(m: map<Key, Slot<V>>, n: nat, key: Key, k: Key)
    requires Good(m, n) && n > 0 && key in m && m[key].refs < n
    ensures var m', parked := Touch(m, key), Meaning(m, n).parked;
      (k in parked <==> k in m' && m'[k].refs == n) && (k in parked ==> parked[k] == m'[k].data)
  {
    OwnKey(m, n, k);
    hide Good, Meaning, Touch;
    ParkedAt(m, n, k);
    TouchAt(m, key, k);
  }

  lemma OwnKey<V>(m: map<Key, Slot<V>>, n: nat, k: Key)
    requires Good(m, n)
    ensures k in m ==> m[k].key == k && m[k].refs <= n
  {}

  /** Touching a parked slot brings a new entry in and parks the oldest one, if there is one. */
  lemma TouchParked<V>(m: map<Key, Slot<V>>, n: nat, key: Key)
    requires Good(m, n) && n > 0 && key in m && m[key].refs == n && m[key].data.Some?
    ensures Good(Touch(m, key), n)
    ensures var a := Meaning(m, n);
      var last, kept := a.order[n - 1], a.parked - {key};
      Meaning(Touch(m, key), n) == Ages([Some(Entry(key, m[key].data.value))] + a.order[..n - 1],
        if last.Some? then kept[last.value.key := Some(last.value.data)] else kept)
  {
    TouchGood(m, n, key);
    var a, m' := Meaning(m, n), Touch(m, key);
    var order := [Some(Entry(key, m[key].data.value))] + a.order[..n - 1];
    hide Good, Meaning, Touch, AtAge;
    forall age | 0 <= age < n
      ensures order[age] == AtAge(m', n, age)
    {
      TouchOrder(m, n, key, age);
      if age > 0 {
        OrderAt(m, n, age - 1);
      }
    }
    var last, kept := a.order[n - 1], a.parked - {key};
    var parked := if last.Some? then kept[last.value.key := Some(last.value.data)] else kept;
    forall k
      ensures k in parked <==> k in m' && m'[k].refs == n
      ensures k in parked ==> parked[k] == m'[k].data
    {
      ParkedAfterTouch(m, n, key, k);
    }
    MeaningIs(m', n, Ages(order, parked));
  }

  lemma ParkedAfterTouch<V>(m: map<Key, Slot<V>>, n: nat, key: Key, k: Key)
    requires Good(m, n) && n > 0 && key in m && m[key].refs == n && m[key].data.Some? && Good(Touch(m, key), n)
    ensures var a := Meaning(m, n);
      var last, kept := a.order[n - 1], a.parked - {key};
      var parked := if last.Some? then kept[last.value.key := Some(last.value.data)] else kept;
      && (k in parked <==> k in Touch(m, key) && Touch(m, key)[k].refs == n)
      && (k in parked ==> parked[k] == Touch(m, key)[k].data)
  {
    LastIs(m, n, k);
    OwnKey(m, n, k);
    hide Good, Meaning, Touch, AtAge;
    ParkedAt(m, n, k);
    TouchAt(m, key, k);
  }

  /** Whose entry has the highest age. */
  lemma LastIs<V>(m: map<Key, Slot<V>>, n: nat, k: Key)
    requires Good(m, n) && n > 0
    ensures var last := Meaning(m, n).order[n - 1];
      if k in m && m[k].refs == n - 1 then m[k].data.Some? && last == Some(Entry(k, m[k].data.value))
      else last.None? || last.value.key != k
  {
    OrderAt(m, n, n - 1);
    if k in m && m[k].refs == n - 1 {
      MeaningOfLive(m, n, k);
    }
    hide Meaning;
  }

  lemma SameMap<K, T>(a: map<K, T>, b: map<K, T>)
    requires forall k :: k in a <==> k in b
    requires forall k :: k in a ==> a[k] == b[k]
    ensures a == b
  {
    assert a.Keys == b.Keys;
  }

  lemma SameAtAge<V>(m: map<Key, Slot<V>>, m': map<Key, Slot<V>>, n: nat, age: nat, age': nat)
    requires Good(m, n) && Good(m', n) && age < n && age' < n
    requires forall k :: (k in m && m[k].refs == age) <==> (k in m' && m'[k].refs == age')
    requires forall k :: k in m && m[k].refs == age ==> m'[k].data == m[k].data
    ensures AtAge(m, n, age) == AtAge(m', n, age')
  {}

  // ----- replacing slots -----

  /** The slot that an update of key writes to; none when a fresh one is inserted. */
  ghost function Target<V>(m: map<Key, Slot<V>>, n: nat, key: Key): Option<Key> {
    var above := NotBelow(m.Keys, key);
    if key in m && m[key].refs < n then Some(key)
    else if above != {} && m[Least(above)].refs == n then Some(Least(above))
    else if |m| < n || m == map[] then None
    else Some(Evictee(m, n))
  }

  ghost function Gaps<V>(m: map<Key, Slot<V>>, n: nat): set<Key> {
    set k | k in m && m[k].refs == n
  }

  /** The first parked slot, or else the oldest live one. */
  ghost function Evictee<V>(m: map<Key, Slot<V>>, n: nat): (k: Key)
    requires m != map[]
    ensures k in m
  {
    if Gaps(m, n) != {} then Least(Gaps(m, n)) else Oldest(m)
  }

  lemma OldestExists<V>(m: map<Key, Slot<V>>, keys: set<Key>)
    requires keys != {} && keys <= m.Keys
    ensures exists k :: k in keys && forall j :: j in keys ==> m[j].refs <= m[k].refs
  {
    var x := Member(keys);
    var rest := keys - {x};
    if rest == {} {
      assert keys == {x};
    } else {
      OldestExists(m, rest);
      var y :| y in rest && forall j :: j in rest ==> m[j].refs <= m[y].refs;
      var z := if m[x].refs <= m[y].refs then y else x;
      forall j | j in keys
        ensures m[j].refs <= m[z].refs
      {
        assert j == x || j in rest;
      }
      assert z in keys;
    }
  }

  ghost function Oldest<V>(m: map<Key, Slot<V>>): (k: Key)
    requires m != map[]
    ensures k in m && forall j :: j in m ==> m[j].refs <= m[k].refs
  {
    assert m.Keys != {};
    OldestExists(m, m.Keys);
    var k :| k in m && forall j :: j in m ==> m[j].refs <= m[k].refs;
    k
  }

  /** The slots after an update of key wrote to its target, before the touch. */
  ghost function Written<V>(m: map<Key, Slot<V>>, n: nat, key: Key, data: V): map<Key, Slot<V>>
  {
    var target := Target(m, n, key);
    if target.None? then m[key := Slot(key, Some(data), n)]
    else (m - {target.value})[key := Slot(key, Some(data), m[target.value].refs)]
  }

  /** The pair an update of key gives back. */
  ghost function GivenBack<V>(m: map<Key, Slot<V>>, n: nat, key: Key): Option<Entry<V>>
  {
    var target := Target(m, n, key);
    if target.None? || m[target.value].data.None? then None
    else Some(Entry(target.value, m[target.value].data.value))
  }

  /** A live slot is overwritten: its age stays. */
  lemma OverwriteLive<V>(m: map<Key, Slot<V>>, n: nat, t: Key, key: Key, data: V)
    requires Good(m, n) && t in m && m[t].refs < n && (key == t || key !in m)
    ensures var w := (m - {t})[key := Slot(key, Some(data), m[t].refs)];
      Good(w, n) && Meaning(w, n) == Meaning(m, n).(order := Meaning(m, n).order[m[t].refs := Some(Entry(key, data))])
  {
    var age0, slot := m[t].refs, Slot(key, Some(data), m[t].refs);
    var w, a := (m - {t})[key := slot], Meaning(m, n);
    SwapKeySize(m, t, key, slot);
    OverwriteGood(m, n, t, key, data);
    hide Good, Meaning, AtAge;
    forall age | 0 <= age < n
      ensures a.order[age0 := Some(Entry(key, data))][age] == AtAge(w, n, age)
    {
      OverwriteOrder(m, n, t, key, data, age);
      OrderAt(m, n, age);
    }
    forall k
      ensures k in a.parked <==> k in w && w[k].refs == n
      ensures k in a.parked ==> a.parked[k] == w[k].data
    {
      ParkedAt(m, n, k);
    }
    MeaningIs(w, n, Ages(a.order[age0 := Some(Entry(key, data))], a.parked));
  }

  lemma OverwriteGood<V>(m: map<Key, Slot<V>>, n: nat, t: Key, key: Key, data: V)
    requires Good(m, n) && t in m && m[t].refs < n && (key == t || key !in m)
    ensures Good((m - {t})[key := Slot(key, Some(data), m[t].refs)], n)
  {
    SwapKeySize(m, t, key, Slot(key, Some(data), m[t].refs));
  }

  lemma OverwriteOrder<V>(m: map<Key, Slot<V>>, n: nat, t: Key, key: Key, data: V, age: nat)
    requires Good(m, n) && t in m && m[t].refs < n && (key == t || key !in m) && age < n
    requires Good((m - {t})[key := Slot(key, Some(data), m[t].refs)], n)
    ensures AtAge((m - {t})[key := Slot(key, Some(data), m[t].refs)], n, age) ==
      if age == m[t].refs then Some(Entry(key, data)) else AtAge(m, n, age)
  {
    var w := (m - {t})[key := Slot(key, Some(data), m[t].refs)];
    if age == m[t].refs {
      MeaningOfLive(w, n, key);
      OrderAt(w, n, age);
    } else {
      hide Good, AtAge;
      SameAtAge(m, w, n, age, age);
    }
  }

  lemma SwapKeySize<K, T>(m: map<K, T>, t: K, key: K, v: T)
    requires t in m && (key == t || key !in m)
    ensures |(m - {t})[key := v]| == |m|
  {
    var w := (m - {t})[key := v];
    assert w.Keys == (m.Keys - {t}) + {key};
    assert |w.Keys| == |m.Keys|;
  }

  /** A slot of age n is added for key, where the parked slots in gone are given up. */
  lemma WriteParked<V>(m: map<Key, Slot<V>>, n: nat, gone: set<Key>, key: Key, data: V)
    requires Good(m, n)
    requires forall k :: k in gone ==> k in m && m[k].refs == n
    requires key in gone || key !in m
    requires |(m - gone)[key := Slot(key, Some(data), n)]| <= n
    ensures var w := (m - gone)[key := Slot(key, Some(data), n)];
      Good(w, n) && Meaning(w, n) == Ages(Meaning(m, n).order, (Meaning(m, n).parked - gone)[key := Some(data)])
  {
    var w := (m - gone)[key := Slot(key, Some(data), n)];
    var a, b := Meaning(m, n), Meaning(w, n);
    forall age | 0 <= age < n
      ensures b.order[age] == a.order[age]
    {
      SameAtAge(m, w, n, age, age);
    }
    assert b.order == a.order;
    var parked := (a.parked - gone)[key := Some(data)];
    forall k
      ensures k in b.parked <==> k in parked
      ensures k in parked ==> b.parked[k] == parked[k]
    {
      assert k in b.parked <==> k in w && w[k].refs == n;
    }
    SameMap(b.parked, parked);
  }

  ghost function AgesOf<V>(m: map<Key, Slot<V>>, keys: set<Key>): set<nat>
    requires keys <= m.Keys
  {
    set k | k in keys :: m[k].refs
  }

  lemma {:induction false} AgesOfSize<V>(m: map<Key, Slot<V>>, keys: set<Key>)
    requires keys <= m.Keys
    requires forall j, k :: j in keys && k in keys && j != k ==> m[j].refs != m[k].refs
    ensures |AgesOf(m, keys)| == |keys|
  {
    if keys != {} {
      var x := Member(keys);
      AgesOfSize(m, keys - {x});
      assert AgesOf(m, keys) == AgesOf(m, keys - {x}) + {m[x].refs};
    }
  }

  lemma SubsetOfSameSize<T>(a: set<T>, b: set<T>)
    requires a <= b && |a| == |b|
    ensures a == b
  {
    assert b == a + (b - a);
    assert |b| == |a| + |b - a|;
  }

  /** In a full vector without gaps the ages are 0..n-1, so the oldest slot has age n - 1. */
  lemma {:induction false} FullAges<V>(m: map<Key, Slot<V>>, n: nat)
    requires Good(m, n) && n > 0 && |m| == n && Gaps(m, n) == {}
    ensures AgesOf(m, m.Keys) == Finite.Below(n)
    ensures m[Oldest(m)].refs == n - 1
  {
    forall k | k in m
      ensures m[k].refs < n
    {
      assert k !in Gaps(m, n);
    }
    AgesOfSize(m, m.Keys);
    Finite.BelowSize(n);
    assert |m.Keys| == n;
    SubsetOfSameSize(AgesOf(m, m.Keys), Finite.Below(n));
    var last: nat := n - 1;
    assert last in AgesOf(m, m.Keys);
  }

  lemma ParkedMeans<V>(m: map<Key, Slot<V>>, n: nat)
    requires Good(m, n)
    ensures Meaning(m, n).parked.Keys == Gaps(m, n)
    ensures Meaning(m, n).parked == map[] <==> Gaps(m, n) == {}
  {
    var parked := Meaning(m, n).parked;
    assert parked.Keys == Gaps(m, n);
    if parked.Keys == {} {
      assert parked == map[];
    }
  }

  /** The slot that a miss takes over in terms of what the slots mean. */
  lemma TargetMeans<V>(m: map<Key, Slot<V>>, n: nat, key: Key)
    requires Good(m, n) && n > 0 && !(key in m && m[key].refs < n)
    ensures var target := Target(m, n, key);
      && (target.None? ==> |m| < n)
      && (target.Some? ==> target.value in m)
      && TakenOver(Meaning(m, n), key) == (if target.Some? && m[target.value].refs == n then target else None)
  {
    var a := Meaning(m, n);
    MeaningSlots(m, n);
    ParkedMeans(m, n);
    hide Meaning, Good, Slots;
    assert NotBelow(Slots(a), key) == NotBelow(m.Keys, key);
    assert m == map[] ==> |m| == 0;
  }

  /** An update refines the step of the list with tombstones, result included. */
  lemma UpdateRefines<V>(m: map<Key, Slot<V>>, n: nat, key: Key, data: V)
    requires Good(m, n) && n > 0
    ensures key in Written(m, n, key, data) && Good(Written(m, n, key, data), n)
    ensures var m' := Touch(Written(m, n, key, data), key);
      Good(m', n) && AgesStep(Meaning(m, n), Update(key, data)) == (Meaning(m', n), Displaced(GivenBack(m, n, key)))
  {
    hide Target, TakenOver, Meaning, Good, Touch, Slots;
    if key in m && m[key].refs < n {
      UpdateHit(m, n, key, data);
    } else {
      TargetMeans(m, n, key);
      var target := Target(m, n, key);
      if target.Some? {
        OwnKey(m, n, target.value);
      }
      if target.Some? && m[target.value].refs < n {
        UpdateFull(m, n, key, data);
      } else {
        UpdateParked(m, n, key, data);
      }
    }
  }

  lemma TargetOfHit<V>(m: map<Key, Slot<V>>, n: nat, key: Key)
    requires Good(m, n) && key in m && m[key].refs < n
    ensures Target(m, n, key) == Some(key)
  {}

  /** Overwriting a live slot and touching it. */
  lemma OverwriteAndTouch<V>(m: map<Key, Slot<V>>, n: nat, t: Key, key: Key, data: V)
    requires Good(m, n) && n > 0 && t in m && m[t].refs < n && (key == t || key !in m)
    ensures var w, a := (m - {t})[key := Slot(key, Some(data), m[t].refs)], Meaning(m, n);
      && Good(w, n) && Good(Touch(w, key), n)
      && Meaning(Touch(w, key), n) == Ages([Some(Entry(key, data))] + DropAt(a.order, m[t].refs), a.parked)
  {
    var w, a, p := (m - {t})[key := Slot(key, Some(data), m[t].refs)], Meaning(m, n), m[t].refs;
    OverwriteLive(m, n, t, key, data);
    TouchLive(w, n, key);
    hide Good, Meaning, Touch;
    assert DropAt(a.order[p := Some(Entry(key, data))], p) == DropAt(a.order, p);
  }

  lemma UpdateHit<V>(m: map<Key, Slot<V>>, n: nat, key: Key, data: V)
    requires Good(m, n) && n > 0 && key in m && m[key].refs < n
    ensures key in Written(m, n, key, data) && Good(Written(m, n, key, data), n)
    ensures var m' := Touch(Written(m, n, key, data), key);
      Good(m', n) && AgesStep(Meaning(m, n), Update(key, data)) == (Meaning(m', n), Displaced(GivenBack(m, n, key)))
  {
    MeaningAge(m, n, key);
    TargetOfHit(m, n, key);
    MeaningOfLive(m, n, key);
    assert GivenBack(m, n, key) == Some(Entry(key, m[key].data.value));
    hide Target, Meaning, Touch, GivenBack, Good, DropAt, Age;
    OverwriteAndTouch(m, n, key, key, data);
  }

  lemma UpdateFull<V>(m: map<Key, Slot<V>>, n: nat, key: Key, data: V)
    requires Good(m, n) && n > 0 && !(key in m && m[key].refs < n)
    requires var target := Target(m, n, key); target.Some? && target.value in m && m[target.value].refs < n
    ensures key in Written(m, n, key, data) && Good(Written(m, n, key, data), n)
    ensures var m' := Touch(Written(m, n, key, data), key);
      Good(m', n) && AgesStep(Meaning(m, n), Update(key, data)) == (Meaning(m', n), Displaced(GivenBack(m, n, key)))
  {
    var a, t := Meaning(m, n), Target(m, n, key).value;
    hide Target, TakenOver, Meaning, Touch, GivenBack, Slots, AgesStep, Age, Good, Gaps, DropAt;
    TargetOfFull(m, n, key);
    GivenBackFull(m, n, key);
    TargetMeans(m, n, key);
    MeaningAge(m, n, key);
    MeaningSlots(m, n);
    ParkedMeans(m, n);
    StepOfFull(a, key, data);
    OverwriteAndTouch(m, n, t, key, data);
    DropLast(a.order);
  }

  lemma DropLast<T>(s: seq<T>)
    requires s != []
    ensures DropAt(s, |s| - 1) == s[..|s| - 1]
  {}

  lemma GivenBackFull<V>(m: map<Key, Slot<V>>, n: nat, key: Key)
    requires Good(m, n) && n > 0 && |m| == n && Gaps(m, n) == {}
    requires Target(m, n, key) == Some(Oldest(m))
    ensures m[Oldest(m)].refs == n - 1
    ensures GivenBack(m, n, key) == Meaning(m, n).order[n - 1]
  {
    FullAges(m, n);
    MeaningOfLive(m, n, Oldest(m));
    hide Target;
  }

  lemma TargetOfFull<V>(m: map<Key, Slot<V>>, n: nat, key: Key)
    requires Good(m, n) && n > 0 && !(key in m && m[key].refs < n)
    requires var target := Target(m, n, key); target.Some? && target.value in m && m[target.value].refs < n
    ensures Gaps(m, n) == {} && |m| == n && Target(m, n, key).value == Oldest(m) && key !in m
  {
    assert Gaps(m, n) == {} by {
      if Gaps(m, n) != {} {
        assert false;
      }
    }
    assert key in m ==> key in Gaps(m, n);
  }

  /** A parked or fresh slot: what is written before the touch. */
  lemma WrittenParked<V>(m: map<Key, Slot<V>>, n: nat, key: Key, data: V, gone: set<Key>)
    requires Good(m, n) && n > 0 && !(key in m && m[key].refs < n)
    requires var target := Target(m, n, key);
      if target.Some? then target.value in m && m[target.value].refs == n && gone == {target.value} else gone == {}
    ensures var w := Written(m, n, key, data);
      && w == (m - gone)[key := Slot(key, Some(data), n)]
      && |w| <= n
      && (key in gone || key !in m)
  {
    var target := Target(m, n, key);
    ParkedTargetIsKey(m, n, key);
    assert m == map[] ==> |m| == 0;
    hide Target;
    if target.Some? {
      SwapKeySize(m, target.value, key, Slot(key, Some(data), n));
    } else {
      assert m - gone == m;
    }
  }

  /** Writing a parked or fresh slot and touching it. */
  lemma WriteAndTouch<V>(m: map<Key, Slot<V>>, n: nat, gone: set<Key>, key: Key, data: V)
    requires Good(m, n) && n > 0
    requires forall k :: k in gone ==> k in m && m[k].refs == n
    requires key in gone || key !in m
    requires |(m - gone)[key := Slot(key, Some(data), n)]| <= n
    ensures var w, a := (m - gone)[key := Slot(key, Some(data), n)], Meaning(m, n);
      var last, kept := a.order[n - 1], a.parked - gone;
      && Good(w, n) && Good(Touch(w, key), n)
      && Meaning(Touch(w, key), n) == Ages([Some(Entry(key, data))] + a.order[..n - 1],
        if last.Some? then kept[last.value.key := Some(last.value.data)] else kept)
  {
    var w, a := (m - gone)[key := Slot(key, Some(data), n)], Meaning(m, n);
    ParkedAt(m, n, key);
    hide *;
    WriteParked(m, n, gone, key, data);
    TouchParked(w, n, key);
    TakenBack(a.parked - gone, key, Some(data));
  }

  lemma TakenBack<K, T>(m: map<K, T>, k: K, v: T)
    requires k !in m
    ensures m[k := v] - {k} == m
  {}

  lemma UpdateParked<V>(m: map<Key, Slot<V>>, n: nat, key: Key, data: V)
    requires Good(m, n) && n > 0 && !(key in m && m[key].refs < n)
    requires var target := Target(m, n, key); target.Some? ==> target.value in m && m[target.value].refs == n
    ensures key in Written(m, n, key, data) && Good(Written(m, n, key, data), n)
    ensures var m' := Touch(Written(m, n, key, data), key);
      Good(m', n) && AgesStep(Meaning(m, n), Update(key, data)) == (Meaning(m', n), Displaced(GivenBack(m, n, key)))
  {
    var w, a, target := Written(m, n, key, data), Meaning(m, n), Target(m, n, key);
    var gone: set<Key> := if target.Some? then {target.value} else {};
    hide Target, TakenOver, Written, Meaning, Touch, GivenBack, Slots, Leftover, AgesStep, Age, Good;
    WrittenParked(m, n, key, data, gone);
    WriteAndTouch(m, n, gone, key, data);
    TargetMeans(m, n, key);
    MeaningAge(m, n, key);
    MeaningSlots(m, n);
    GivenBackParked(m, n, key);
    StepOfMiss(a, key, data, gone);
  }

  lemma GivenBackParked<V>(m: map<Key, Slot<V>>, n: nat, key: Key)
    requires Good(m, n)
    requires var target := Target(m, n, key); target.Some? ==> target.value in m && m[target.value].refs == n
    ensures var target := Target(m, n, key);
      GivenBack(m, n, key) == if target.Some? then Leftover(Meaning(m, n).parked, target.value) else None
  {
    hide Target;
  }

  /** A parked key that is missed is its own target. */
  lemma ParkedTargetIsKey<V>(m: map<Key, Slot<V>>, n: nat, key: Key)
    requires Good(m, n) && n > 0 && !(key in m && m[key].refs < n)
    ensures key in m ==> Target(m, n, key) == Some(key)
  {
    if key in m {
      assert key in NotBelow(m.Keys, key);
    }
  }

  // ----- finding and invalidating -----

  /** A find refines the step of the list with tombstones. */
  lemma FindRefines<V>(m: map<Key, Slot<V>>, n: nat, key: Key)
    requires Good(m, n) && n > 0
    ensures var live := key in m && m[key].refs < n;
      && (live ==> Good(Touch(m, key), n))
      && AgesStep(Meaning(m, n), Op.Find(key)) ==
        if live then (Meaning(Touch(m, key), n), Found(m[key].data)) else (Meaning(m, n), Found(None))
  {
    MeaningAge(m, n, key);
    if key in m && m[key].refs < n {
      MeaningOfLive(m, n, key);
      TouchLive(m, n, key);
    }
    hide Touch;
  }

  /** The slots after those with a key in keys were reset. */
  ghost function Reset<V>(m: map<Key, Slot<V>>, n: nat, keys: set<Key>): map<Key, Slot<V>> {
    map k | k in m :: ResetAt(m, n, keys, k)
  }

  ghost function ResetAt<V>(m: map<Key, Slot<V>>, n: nat, keys: set<Key>, k: Key): Slot<V>
    requires k in m
  {
    if k in keys then Slot(k, None, n) else m[k]
  }

  lemma ResetGood<V>(m: map<Key, Slot<V>>, n: nat, keys: set<Key>)
    requires Good(m, n)
    ensures Good(Reset(m, n, keys), n)
  {
    assert Reset(m, n, keys).Keys == m.Keys;
    assert |m.Keys| == |Reset(m, n, keys).Keys|;
  }

  lemma ResetIs<V>(m: map<Key, Slot<V>>, n: nat, keys: set<Key>, k: Key)
    ensures k in Reset(m, n, keys) <==> k in m
    ensures k in m ==> Reset(m, n, keys)[k] == if k in keys then Slot(k, None, n) else m[k]
  {}

  /** Invalidating a live key blanks its position and parks its slot without a buffer. */
  lemma InvalidateRefines<V>(m: map<Key, Slot<V>>, n: nat, key: Key)
    requires Good(m, n) && n > 0
    ensures Good(Reset(m, n, {key}), n)
    ensures AgesStep(Meaning(m, n), Op.Invalidate(key)).0 ==
      if key in m && m[key].refs < n then Meaning(Reset(m, n, {key}), n) else Meaning(m, n)
  {
    ResetGood(m, n, {key});
    MeaningAge(m, n, key);
    if key in m && m[key].refs < n {
      var a, b := Meaning(m, n), Meaning(Reset(m, n, {key}), n);
      hide Good, Meaning, Reset, AtAge, Age;
      forall age | 0 <= age < n
        ensures b.order[age] == a.order[m[key].refs := None][age]
      {
        OrderAt(m, n, age);
        OrderAt(Reset(m, n, {key}), n, age);
        ResetOrder(m, n, key, age);
      }
      assert b.order == a.order[m[key].refs := None];
      var parked := a.parked[key := None];
      forall k
        ensures k in b.parked <==> k in parked
        ensures k in parked ==> b.parked[k] == parked[k]
      {
        ParkedAt(m, n, k);
        ParkedAt(Reset(m, n, {key}), n, k);
        ResetIs(m, n, {key}, k);
      }
      SameMap(b.parked, parked);
    }
  }

  lemma ResetOrder<V>(m: map<Key, Slot<V>>, n: nat, key: Key, age: nat)
    requires Good(m, n) && key in m && m[key].refs < n && Good(Reset(m, n, {key}), n) && age < n
    ensures AtAge(Reset(m, n, {key}), n, age) == if age == m[key].refs then None else AtAge(m, n, age)
  {
    if age != m[key].refs {
      SameAtAge(m, Reset(m, n, {key}), n, age, age);
    }
  }

  ghost function InRange<V>(m: map<Key, Slot<V>>, lo: Key, hi: Key): set<Key> {
    set k | k in m && lo <= k < hi
  }

  lemma RangeOrder<V>(m: map<Key, Slot<V>>, n: nat, lo: Key, hi: Key, age: nat)
    requires Good(m, n) && Good(Reset(m, n, InRange(m, lo, hi)), n) && age < n
    ensures var e := AtAge(m, n, age);
      AtAge(Reset(m, n, InRange(m, lo, hi)), n, age) == if e.Some? && lo <= e.value.key < hi then None else e
  {
    var w, e := Reset(m, n, InRange(m, lo, hi)), AtAge(m, n, age);
    if e.None? || !(lo <= e.value.key < hi) {
      SameAtAge(m, w, n, age, age);
    }
  }

  /** Invalidating a range blanks every position in it and empties the parked slots in it. */
  lemma InvalidateRangeRefines<V>(m: map<Key, Slot<V>>, n: nat, lo: Key, hi: Key)
    requires Good(m, n) && n > 0
    ensures var w := Reset(m, n, InRange(m, lo, hi));
      Good(w, n) && Meaning(w, n) == AgesDropRange(Meaning(m, n), lo, hi)
  {
    var w, c := Reset(m, n, InRange(m, lo, hi)), AgesDropRange(Meaning(m, n), lo, hi);
    ResetGood(m, n, InRange(m, lo, hi));
    hide AtAge, Slots, Good, Reset;
    forall age | 0 <= age < n
      ensures c.order[age] == AtAge(w, n, age)
    {
      RangeOrder(m, n, lo, hi, age);
      OrderAt(m, n, age);
    }
    hide Meaning, AgesDropRange;
    forall k
      ensures k in c.parked <==> k in w && w[k].refs == n
      ensures k in c.parked ==> c.parked[k] == w[k].data
    {
      RangeParked(m, n, lo, hi, k);
    }
    MeaningIs(w, n, c);
  }

  lemma RangeParked<V>(m: map<Key, Slot<V>>, n: nat, lo: Key, hi: Key, k: Key)
    requires Good(m, n) && Good(Reset(m, n, InRange(m, lo, hi)), n)
    ensures var w, c := Reset(m, n, InRange(m, lo, hi)), AgesDropRange(Meaning(m, n), lo, hi).parked;
      && (k in c <==> k in w && w[k].refs == n)
      && (k in c ==> c[k] == w[k].data)
  {
    hide Meaning, Good, AtAge, Slots, Reset, AgesDropRange;
    MeaningSlots(m, n);
    ParkedAt(m, n, k);
    OwnKey(m, n, k);
    ResetIs(m, n, InRange(m, lo, hi), k);
    LeftUnderIs(Meaning(m, n), lo, hi, k);
  }
}

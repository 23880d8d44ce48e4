/** The flat cache itself: a vector kept sorted by rotation. */
module FlatCache {
  import opened Options
  import opened Sequences

  import opened LruSpec
  import opened FlatLru

  // ----- vectors -----

  ghost predicate IsBound<V>(s: seq<Slot<V>>, key: Key, i: nat) {
    && i <= |s|
    && (forall j :: 0 <= j < i ==> s[j].key < key)
    && (forall j :: i <= j < |s| ==> s[j].key >= key)
  }

  /** The first position whose key is not below key. */
  function LowerBound<V>(s: seq<Slot<V>>, key: Key): (i: nat)
    requires Sorted(s)
    ensures IsBound(s, key, i)
  {
    if s == [] || s[0].key >= key then 0
    else
      var i := LowerBound(s[1..], key);
      assert forall j :: 1 <= j < |s| ==> s[j] == s[1..][j - 1];
      1 + i
  }

  /** std::rotate on first..last with the new first element at mid, and where first moved to. */
  function Rotate<T>(s: seq<T>, first: nat, mid: nat, last: nat): seq<T>
    requires first <= mid <= last <= |s|
  {
    s[..first] + s[mid..last] + s[first..mid] + s[last..]
  }

  lemma {:induction false} ByKeyOfDrop<V>(s: seq<Slot<V>>, e: nat)
    requires Sorted(s) && e < |s|
    ensures Sorted(DropAt(s, e))
    ensures ByKey(DropAt(s, e)) == ByKey(s) - {s[e].key}
  {
    hide ByKey;
    ByKeySplit(s, e);
    ByKeyConcat(s[..e], s[e + 1..]);
    assert ByKey(s[..e]) + ByKey(s[e + 1..]) == ByKey(s) - {s[e].key};
  }

  lemma SortedInsert<V>(s: seq<Slot<V>>, i: nat, x: Slot<V>)
    requires Sorted(s) && i <= |s|
    requires forall j :: 0 <= j < i ==> s[j].key < x.key
    requires forall j :: i <= j < |s| ==> s[j].key > x.key
    ensures Sorted(InsertAt(s, i, x))
  {}

  lemma {:induction false} ByKeyOfInsert<V>(s: seq<Slot<V>>, i: nat, x: Slot<V>)
    requires Sorted(s) && i <= |s|
    requires forall j :: 0 <= j < i ==> s[j].key < x.key
    requires forall j :: i <= j < |s| ==> s[j].key > x.key
    ensures Sorted(InsertAt(s, i, x))
    ensures ByKey(InsertAt(s, i, x)) == ByKey(s)[x.key := x]
  {
    hide ByKey;
    var r := InsertAt(s, i, x);
    SortedInsert(s, i, x);
    assert s == s[..i] + s[i..];
    assert r[i] == x && r[..i] == s[..i] && r[i + 1..] == s[i..];
    hide InsertAt, Sorted;
    ByKeySplit(r, i);
    ByKeyConcat(s[..i], s[i..]);
    assert ByKey(s[..i])[x.key := x] + ByKey(s[i..]) == (ByKey(s[..i]) + ByKey(s[i..]))[x.key := x];
  }

  /** Overwriting a slot in place. */
  lemma ByKeyOfUpdate<V>(s: seq<Slot<V>>, i: nat, x: Slot<V>)
    requires Sorted(s) && i < |s|
    requires forall j :: 0 <= j < i ==> s[j].key < x.key
    requires forall j :: i < j < |s| ==> s[j].key > x.key
    ensures Sorted(s[i := x])
    ensures ByKey(s[i := x]) == (ByKey(s) - {s[i].key})[x.key := x]
  {
    assert s[i := x] == InsertAt(DropAt(s, i), i, x);
    ByKeyOfDrop(s, i);
    ByKeyOfInsert(DropAt(s, i), i, x);
  }

  /** Rotating slot e towards position i and overwriting it is removing it and inserting anew. */
  lemma RotateIsReplace<V>(s: seq<Slot<V>>, e: nat, i: nat, x: Slot<V>)
    requires e < |s| && i <= |s|
    ensures e < i ==> Rotate(s, e, e + 1, i)[i - 1 := x] == InsertAt(DropAt(s, e), i - 1, x)
    ensures i <= e ==> Rotate(s, i, e, e + 1)[i := x] == InsertAt(DropAt(s, e), i, x)
  {}

  /** Changing every slot, but no key. */
  lemma {:induction false} ByKeyOfMapped<V>(s: seq<Slot<V>>, t: seq<Slot<V>>, f: Slot<V> -> Slot<V>)
    requires |t| == |s| && forall i :: 0 <= i < |s| ==> t[i].key == s[i].key && t[i] == f(s[i])
    ensures ByKey(t).Keys == ByKey(s).Keys && forall k :: k in ByKey(s) ==> ByKey(t)[k] == f(ByKey(s)[k])
    ensures Sorted(s) ==> Sorted(t)
  {
    if s != [] {
      ByKeyOfMapped(s[..|s| - 1], t[..|s| - 1], f);
    }
  }

  lemma {:induction false} SlotsGood<V>(s: seq<Slot<V>>, n: nat)
    requires Sorted(s) && Good(ByKey(s), n)
    ensures forall i :: 0 <= i < |s| ==> s[i].refs <= n
    ensures forall i :: 0 <= i < |s| && s[i].refs < n ==> s[i].data.Some?
    ensures |s| <= n
  {
    ByKeySize(s);
    forall i | 0 <= i < |s|
      ensures s[i].refs <= n && (s[i].refs < n ==> s[i].data.Some?)
    {
      ByKeyAt(s, i);
    }
  }

  /** The slot to evict, found by position. */
  lemma {:induction false} EvicteeIs<V>(s: seq<Slot<V>>, n: nat, e: nat)
    requires Sorted(s) && Good(ByKey(s), n) && e < |s|
    requires
      || (s[e].refs == n && forall j :: 0 <= j < e ==> s[j].refs < n)
      || (forall j :: 0 <= j < |s| ==> s[j].refs < n && s[j].refs <= s[e].refs)
    ensures ByKey(s) != map[] && s[e].key == Evictee(ByKey(s), n)
  {
    var m := ByKey(s);
    ByKeyAt(s, e);
    var k := Evictee(m, n);
    ByKeyHas(s, k);
    var i :| 0 <= i < |s| && s[i].key == k;
    ByKeyAt(s, i);
    hide ByKey;
    if s[e].refs == n {
      assert s[e].key in Gaps(m, n);
      assert s[i].refs == n && s[i].key <= s[e].key;
    } else {
      forall j | j in m
        ensures m[j].refs < n
      {
        ByKeyHas(s, j);
        var l :| 0 <= l < |s| && s[l].key == j;
        ByKeyAt(s, l);
      }
      assert Gaps(m, n) == {};
      assert m[s[e].key].refs == m[k].refs;
    }
  }

  /** Which slot an update of key writes to, by position. */
  lemma {:induction false} TargetAt<V>(s: seq<Slot<V>>, n: nat, key: Key, index: nat)
    requires Sorted(s) && Good(ByKey(s), n) && n > 0 && IsBound(s, key, index)
    ensures var m := ByKey(s);
      var above := index < |s|;
      if above && s[index].key == key && s[index].refs < n then Target(m, n, key) == Some(key)
      else if above && s[index].refs == n then Target(m, n, key) == Some(s[index].key)
      else key !in m && (if |s| < n then Target(m, n, key) == None else m != map[] && Target(m, n, key) == Some(Evictee(m, n)))
  {
    var m := ByKey(s);
    ByKeySize(s);
    ByKeyHas(s, key);
    if index < |s| {
      ByKeyAt(s, index);
      LeastAbove(s, key, index);
    } else {
      NothingAbove(s, key);
    }
    hide ByKey, Evictee;
  }

  lemma {:induction false} LeastAbove<V>(s: seq<Slot<V>>, key: Key, index: nat)
    requires Sorted(s) && IsBound(s, key, index) && index < |s|
    ensures NotBelow(ByKey(s).Keys, key) != {} && Least(NotBelow(ByKey(s).Keys, key)) == s[index].key
  {
    var above := NotBelow(ByKey(s).Keys, key);
    ByKeyAt(s, index);
    assert s[index].key in above;
    var k := Least(above);
    ByKeyHas(s, k);
    var i :| 0 <= i < |s| && s[i].key == k;
  }

  lemma {:induction false} NothingAbove<V>(s: seq<Slot<V>>, key: Key)
    requires IsBound(s, key, |s|)
    ensures NotBelow(ByKey(s).Keys, key) == {}
  {
    forall k | k in NotBelow(ByKey(s).Keys, key)
      ensures false
    {
      ByKeyHas(s, k);
    }
  }

  /** The evicted slot rotated to where key belongs and overwritten. */
  lemma EvictInto<V>(s: seq<Slot<V>>, key: Key, data: V, index: nat, e: nat)
    requires Sorted(s) && IsBound(s, key, index) && e < |s| && key !in ByKey(s)
    ensures var i, x := if e < index then index - 1 else index, Slot(key, Some(data), s[e].refs);
      var t := if e < index then Rotate(s, e, e + 1, index) else Rotate(s, index, e, e + 1);
      && i < |t| == |s|
      && t[i] == s[e]
      && Sorted(t[i := x])
      && ByKey(t[i := x]) == (ByKey(s) - {s[e].key})[key := x]
  {
    var i, x := if e < index then index - 1 else index, Slot(key, Some(data), s[e].refs);
    ByKeyHas(s, key);
    ByKeyOfDrop(s, e);
    RotateIsReplace(s, e, index, x);
    RotatedSlot(s, e, index);
    DropAtIs(s, e);
    hide ByKey, Rotate, DropAt;
    ByKeyOfInsert(DropAt(s, e), i, x);
  }

  lemma RotatedSlot<T>(s: seq<T>, e: nat, i: nat)
    requires e < |s| && i <= |s|
    ensures e < i ==> |Rotate(s, e, e + 1, i)| == |s| && Rotate(s, e, e + 1, i)[i - 1] == s[e]
    ensures i <= e ==> |Rotate(s, i, e, e + 1)| == |s| && Rotate(s, i, e, e + 1)[i] == s[e]
  {}

  /** A fresh slot where key belongs. */
  lemma {:induction false} InsertFresh<V>(s: seq<Slot<V>>, key: Key, index: nat, x: Slot<V>)
    requires Sorted(s) && IsBound(s, key, index) && key !in ByKey(s) && x.key == key
    ensures Sorted(InsertAt(s, index, x)) && ByKey(InsertAt(s, index, x)) == ByKey(s)[key := x]
    ensures index < |InsertAt(s, index, x)| && InsertAt(s, index, x)[index] == x
  {
    forall j | index <= j < |s|
      ensures s[j].key > key
    {
      ByKeyHas(s, key);
    }
    ByKeyOfInsert(s, index, x);
  }

  /** The slot where key belongs, overwritten. */
  lemma WriteInPlace<V>(s: seq<Slot<V>>, key: Key, index: nat, x: Slot<V>)
    requires Sorted(s) && IsBound(s, key, index) && index < |s| && x.key == key
    ensures Sorted(s[index := x]) && ByKey(s[index := x]) == (ByKey(s) - {s[index].key})[key := x]
  {
    forall j | index < j < |s|
      ensures s[j].key > key
    {
      assert s[j].key > s[index].key;
    }
    ByKeyOfUpdate(s, index, x);
  }

  /** Touching slot by slot is touching the map. */
  lemma {:induction false} TouchedSlots<V>(s: seq<Slot<V>>, t: seq<Slot<V>>, index: nat)
    requires Sorted(s) && index < |s| && |t| == |s|
    requires forall j :: 0 <= j < |s| ==> t[j] == Touched(s[j], s[index].key, s[index].refs)
    ensures s[index].key in ByKey(s)
    ensures Sorted(t) && ByKey(t) == FlatLru.Touch(ByKey(s), s[index].key)
  {
    ByKeyAt(s, index);
    ByKeyOfMapped(s, t, x => Touched(x, s[index].key, s[index].refs));
    hide ByKey;
  }

  lemma {:induction false} ResetSlots<V>(s: seq<Slot<V>>, t: seq<Slot<V>>, n: nat, keys: set<Key>)
    requires Sorted(s) && |t| == |s|
    requires forall j :: 0 <= j < |s| ==> t[j] == if s[j].key in keys then Slot(s[j].key, None, n) else s[j]
    ensures Sorted(t) && ByKey(t) == Reset(ByKey(s), n, keys)
  {
    ByKeyOfMapped(s, t, (x: Slot<V>) => if x.key in keys then Slot(x.key, None, n) else x);
    forall k | k in ByKey(s)
      ensures ByKey(s)[k].key == k
    {
      ByKeyHas(s, k);
      var i :| 0 <= i < |s| && s[i].key == k;
      ByKeyAt(s, i);
    }
    hide ByKey;
  }

  /** The first slot that is not live, or else one with the highest age. */
  ghost predicate IsToEvict<V>(s: seq<Slot<V>>, n: nat, e: nat) {
    && e < |s|
    && (forall j :: 0 <= j < e ==> s[j].refs != n)
    && (s[e].refs != n ==> forall j :: 0 <= j < |s| ==> s[j].refs != n && s[j].refs <= s[e].refs)
  }

  lemma BoundIsUnique<V>(s: seq<Slot<V>>, key: Key, i: nat)
    requires IsBound(s, key, i)
    ensures forall j: nat :: IsBound(s, key, j) ==> j == i
  {
    forall j: nat | IsBound(s, key, j)
      ensures j == i
    {
      assert j < |s| ==> s[j].key >= key;
      assert i < |s| ==> s[i].key >= key;
    }
  }

  lemma GivesBackPlace<V>(s: seq<Slot<V>>, n: nat, key: Key, index: nat)
    requires index < |s| && (s[index].key == key || s[index].refs == n)
    ensures GivesBack(s, n, key, index, PairOf(s[index]))
  {}

  lemma GivesBackNothing<V>(s: seq<Slot<V>>, n: nat, key: Key, index: nat)
    requires |s| < n && (index < |s| ==> s[index].key != key && s[index].refs != n)
    ensures GivesBack(s, n, key, index, None)
  {}

  lemma GivesBackEvicted<V>(s: seq<Slot<V>>, n: nat, key: Key, index: nat, e: nat)
    requires |s| >= n && (index < |s| ==> s[index].key != key && s[index].refs != n) && IsToEvict(s, n, e)
    ensures GivesBack(s, n, key, index, PairOf(s[e]))
  {}

  /** The pair that overwriting a slot gives back. */
  function PairOf<V>(x: Slot<V>): Option<Entry<V>> {
    if x.data.Some? then Some(Entry(x.key, x.data.value)) else None
  }

  /** What an update of key gives back, where index is the place of key. */
  ghost predicate GivesBack<V>(s: seq<Slot<V>>, n: nat, key: Key, index: nat, pair: Option<Entry<V>>) {
    if index < |s| && (s[index].key == key || s[index].refs == n) then pair == PairOf(s[index])
    else if |s| < n then pair == None
    else exists e: nat :: IsToEvict(s, n, e) && pair == PairOf(s[e])
  }

  class FlatLruCache<V(==)> {
    const lenMax: nat
    var cache: seq<Slot<V>>

    ghost predicate Valid()
      reads this
    {
      lenMax > 0 && Sorted(cache) && Good(ByKey(cache), lenMax)
    }

    /** The entries by age, and the parked slots. */
    ghost function State(): (a: Ages<V>)
      requires Valid()
      reads this
    {
      Meaning(ByKey(cache), lenMax)
    }

    constructor (lenMax: nat)
      requires lenMax > 0
      ensures Valid() && this.lenMax == lenMax
      ensures State() == Ages(seq(lenMax, _ => None), map[])
    {
      this.lenMax := lenMax;
      cache := [];
      new;
      assert ByKey(cache) == map[];
      assert State().order == seq(lenMax, _ => None);
      assert State().parked == map[];
    }

    /** Whether the slot at index is live. */
    predicate IsLive(index: nat)
      requires index < |cache|
      reads this
    {
      cache[index].refs != lenMax
    }

    method LowerBoundFind(key: Key) returns (index: nat, exact: bool)
      requires Valid()
      ensures IsBound(cache, key, index)
      ensures exact <==> key in ByKey(cache) && ByKey(cache)[key].refs < lenMax
      ensures exact <==> index < |cache| && cache[index].key == key && cache[index].refs < lenMax
    {
      SlotsGood(cache, lenMax);
      index := LowerBound(cache, key);
      exact := index < |cache| && cache[index].key == key && IsLive(index);
      ByKeyHas(cache, key);
      if index < |cache| {
        ByKeyAt(cache, index);
      }
    }

    /** The first slot that is not live, or else the one with the highest age. */
    method EvictIndexFind() returns (evict: nat)
      requires Valid() && cache != []
      ensures IsToEvict(cache, lenMax, evict)
      ensures cache[evict].key == Evictee(ByKey(cache), lenMax)
    {
      SlotsGood(cache, lenMax);
      evict := 0;
      if IsLive(0) {
        for index := 1 to |cache|
          invariant evict < index && forall j :: 0 <= j < index ==> cache[j].refs < lenMax && cache[j].refs <= cache[evict].refs
        {
          if cache[evict].refs < cache[index].refs {
            evict := index;
            if !IsLive(evict) {
              break;
            }
          }
        }
      }
      EvicteeIs(cache, lenMax, evict);
    }

    /** Ages every slot younger than the one at index, which becomes the youngest. */
    method Touch(index: nat)
      requires Valid()
      requires index < |cache| && cache[index].data.Some?
      modifies this`cache
      ensures Valid()
      ensures old(cache[index].key) in old(ByKey(cache))
      ensures |cache| == |old(cache)| && cache[index].data == old(cache[index].data)
      ensures ByKey(cache) == FlatLru.Touch(old(ByKey(cache)), old(cache[index].key))
    {
      ghost var s, key := cache, cache[index].key;
      var age := cache[index].refs;
      ByKeyAt(s, index);
      TouchGood(ByKey(s), lenMax, key);
      hide Good, ByKey, FlatLru.Touch;
      for i := 0 to |cache|
        invariant |cache| == |s|
        invariant forall j :: 0 <= j < i && j != index ==> cache[j] == Touched(s[j], key, age)
        invariant forall j :: i <= j < |s| || j == index ==> cache[j] == s[j]
      {
        if cache[i].refs < age {
          cache := cache[i := cache[i].(refs := cache[i].refs + 1)];
        }
      }
      cache := cache[index := cache[index].(refs := 0)];
      TouchedSlots(s, cache, index);
    }

    /** The data under key, which becomes the youngest. */
    method Find(key: Key) returns (r: Option<V>)
      requires Valid()
      modifies this`cache
      ensures Valid()
      ensures AgesStep(old(State()), Op.Find(key)) == (State(), Found(r))
    {
      FindRefines(ByKey(cache), lenMax, key);
      var index, exact := LowerBoundFind(key);
      r := None;
      if exact {
        ByKeyAt(cache, index);
        SlotsGood(cache, lenMax);
        Touch(index);
        r := cache[index].data;
      }
    }

    /** Stores data under key, which becomes the youngest, and gives back the pair it displaced. */
    method Update(key: Key, data: V) returns (evicted: Option<Entry<V>>)
      requires Valid()
      modifies this`cache
      ensures Valid()
      ensures AgesStep(old(State()), Op.Update(key, data)) == (State(), Displaced(evicted))
      ensures forall index: nat :: IsBound(old(cache), key, index) ==> GivesBack(old(cache), lenMax, key, index, evicted)
    {
      ghost var s, m := cache, ByKey(cache);
      hide Good, Meaning, AgesStep, FlatLru.Touch, ByKey, Rotate, InsertAt, Target, Sorted, Evictee, IsBound, IsToEvict, GivesBack;
      UpdateRefines(m, lenMax, key, data);
      evicted := None;
      var needUpdate := true;
      var index, exact := LowerBoundFind(key);
      ghost var bound, back := index, None;
      BoundIsUnique(s, key, bound);
      TargetAt(s, lenMax, key, index);
      SlotsGood(s, lenMax);
      if index < |s| {
        ByKeyAt(s, index);
        WriteInPlace(s, key, index, Slot(key, Some(data), s[index].refs));
      }
      if !exact {
        if !(index < |cache|) || IsLive(index) {
          if !(|cache| < lenMax) {
            var evict := EvictIndexFind();
            GivesBackEvicted(s, lenMax, key, index, evict);
            back := PairOf(s[evict]);
            EvictInto(s, key, data, index, evict);
            ByKeyAt(s, evict);
            if evict < index {
              cache := Rotate(cache, evict, evict + 1, index);
              index := index - 1;
            } else {
              cache := Rotate(cache, index, evict, evict + 1);
            }
          } else {
            InsertFresh(s, key, index, Slot(key, Some(data), lenMax));
            cache := InsertAt(cache, index, Slot(key, Some(data), lenMax));
            needUpdate := false;
            GivesBackNothing(s, lenMax, key, bound);
          }
        } else {
          GivesBackPlace(s, lenMax, key, index);
          back := PairOf(s[index]);
        }
      } else {
        GivesBackPlace(s, lenMax, key, index);
        back := PairOf(s[index]);
      }
      if needUpdate {
        var prev := cache[index];
        cache := cache[index := prev.(key := key, data := Some(data))];
        if prev.data.Some? {
          evicted := Some(Entry(prev.key, prev.data.value));
        }
      }
      assert evicted == back;
      assert ByKey(cache) == Written(m, lenMax, key, data);
      assert Sorted(cache);
      assert index < |cache| && cache[index].key == key && cache[index].data == Some(data);
      assert Good(ByKey(cache), lenMax);
      Touch(index);
    }

    /** Drops the entry under key. */
    method Invalidate(key: Key)
      requires Valid()
      modifies this`cache
      ensures Valid()
      ensures AgesStep(old(State()), Op.Invalidate(key)) == (State(), Done)
    {
      ghost var s := cache;
      InvalidateRefines(ByKey(cache), lenMax, key);
      var index, exact := LowerBoundFind(key);
      if exact {
        cache := cache[index := cache[index].(refs := lenMax, data := None)];
        hide ByKey, Good, Meaning, AgesStep, Reset;
        ResetSlots(s, cache, lenMax, {key});
      }
    }

    /** Drops every entry whose key is in lo..hi. */
    method InvalidateRange(lo: Key, hi: Key)
      requires Valid() && lo < hi
      modifies this`cache
      ensures Valid()
      ensures State() == AgesDropRange(old(State()), lo, hi)
    {
      ghost var s, m := cache, ByKey(cache);
      InvalidateRangeRefines(m, lenMax, lo, hi);
      var first, last := LowerBound(cache, lo), LowerBound(cache, hi);
      SlotsInRange(s, lo, hi, first, last);
      hide Good, Meaning, AgesDropRange, Reset, ByKey;
      for index := first to last
        invariant |cache| == |s|
        invariant forall j :: 0 <= j < |s| ==> cache[j] == if first <= j < index then Slot(s[j].key, None, lenMax) else s[j]
      {
        cache := cache[index := cache[index].(refs := lenMax, data := None)];
      }
      ResetSlots(s, cache, lenMax, InRange(m, lo, hi));
    }
  }

  /** Between two bounds lie exactly the slots with a key in range. */
  lemma {:induction false} SlotsInRange<V>(s: seq<Slot<V>>, lo: Key, hi: Key, first: nat, last: nat)
    requires Sorted(s) && lo < hi && IsBound(s, lo, first) && IsBound(s, hi, last)
    ensures first <= last
    ensures forall j :: 0 <= j < |s| ==> (s[j].key in InRange(ByKey(s), lo, hi) <==> first <= j < last)
  {
    assert last == |s| || s[last].key >= hi;
    forall j | 0 <= j < |s|
      ensures s[j].key in InRange(ByKey(s), lo, hi) <==> first <= j < last
    {
      ByKeyAt(s, j);
    }
  }
}

/** When a cache with tombstones is a textbook cache all the same. */
module LruTextbook {
  import opened Options
  import opened Sequences

  import opened LruSpec
  import opened LruTheory
  import opened LruBuffers

  /** The live entries, youngest first. */
  ghost function Compact<V>(order: seq<Option<Entry<V>>>): seq<Entry<V>> {
    if order == [] then []
    else (if order[0].Some? then [order[0].value] else []) + Compact(order[1..])
  }

  lemma {:induction false} CompactConcat<V>(s: seq<Option<Entry<V>>>, t: seq<Option<Entry<V>>>)
    ensures Compact(s + t) == Compact(s) + Compact(t)
  {
    if s == [] {
      assert s + t == t;
    } else {
      FirstOfConcat(s, t);
      CompactConcat(s[1..], t);
      Associative(if s[0].Some? then [s[0].value] else [], Compact(s[1..]), Compact(t));
    }
  }

  lemma FirstOfConcat<T>(s: seq<T>, t: seq<T>)
    requires s != []
    ensures (s + t)[0] == s[0] && (s + t)[1..] == s[1..] + t
  {}

  lemma Associative<T>(a: seq<T>, b: seq<T>, c: seq<T>)
    ensures a + (b + c) == a + b + c
  {}

  lemma {:induction false} CompactSize<V>(s: seq<Option<Entry<V>>>)
    ensures |Compact(s)| <= |s|
    ensures |Compact(s)| == |s| <==> forall p :: 0 <= p < |s| ==> s[p].Some?
  {
    if s != [] {
      CompactSize(s[1..]);
      assert forall p :: 1 <= p < |s| ==> s[p] == s[1..][p - 1];
    }
  }

  lemma {:induction false} CompactHas<V>(s: seq<Option<Entry<V>>>, i: nat)
    requires i < |Compact(s)|
    ensures Some(Compact(s)[i]) in s
  {
    if s[0].None? || i > 0 {
      CompactHas(s[1..], if s[0].Some? then i - 1 else i);
    }
  }

  /** The live entries around the one at position p. */
  lemma {:induction false} CompactSplit<V>(s: seq<Option<Entry<V>>>, p: nat)
    requires p < |s|
    ensures Compact(s) == Compact(s[..p]) + (if s[p].Some? then [s[p].value] else []) + Compact(s[p + 1..])
    ensures Compact(DropAt(s, p)) == Compact(s[..p]) + Compact(s[p + 1..])
  {
    hide Compact, DropAt;
    AroundPosition(s, p);
    CompactAround(s[..p], s[p], s[p + 1..]);
  }

  lemma AroundPosition<T>(s: seq<T>, p: nat)
    requires p < |s|
    ensures s[..p] + [s[p]] + s[p + 1..] == s
    ensures DropAt(s, p) == s[..p] + s[p + 1..]
  {}

  lemma {:induction false} CompactAround<V>(a: seq<Option<Entry<V>>>, e: Option<Entry<V>>, c: seq<Option<Entry<V>>>)
    ensures Compact(a + [e] + c) == Compact(a) + (if e.Some? then [e.value] else []) + Compact(c)
    ensures Compact(a + c) == Compact(a) + Compact(c)
  {
    hide Compact;
    CompactConcat(a + [e], c);
    CompactConcat(a, [e]);
    CompactConcat(a, c);
    CompactOne(e);
  }

  lemma CompactOne<V>(e: Option<Entry<V>>)
    ensures Compact([e]) == if e.Some? then [e.value] else []
  {
    assert [e][1..] == [];
  }

  /** Where a key is among the live entries. */
  lemma {:induction false} CompactPosition<V>(s: seq<Option<Entry<V>>>, key: Key)
    ensures var p, r := Age(s, key), Compact(s);
      if p < |s| then Position(r, key) == |Compact(s[..p])| < |r| && r[Position(r, key)] == s[p].value
      else Position(r, key) == |r|
  {
    var p, r := Age(s, key), Compact(s);
    if p < |s| {
      CompactSplit(s, p);
      var i := |Compact(s[..p])|;
      forall j | 0 <= j < i
        ensures r[j].key != key
      {
        CompactHas(s[..p], j);
        assert r[j] == Compact(s[..p])[j];
      }
      assert r[i] == s[p].value;
    } else {
      forall j | 0 <= j < |r|
        ensures r[j].key != key
      {
        CompactHas(s, j);
      }
    }
  }

  /** A miss loses an entry that a textbook cache keeps: the oldest, while there is a gap. */
  ghost predicate LosesOldest<V>(a: Ages<V>, op: Op<V>)
    requires |a.order| > 0
  {
    && op.Update?
    && Age(a.order, op.key) == |a.order|
    && a.order[|a.order| - 1].Some?
    && exists p :: 0 <= p < |a.order| && a.order[p].None?
  }

  lemma {:induction false} FrontCompact<V>(e: Option<Entry<V>>, s: seq<Option<Entry<V>>>)
    requires e.Some?
    ensures Compact([e] + s) == [e.value] + Compact(s)
  {
    assert ([e] + s)[1..] == s;
  }

  /** A miss takes over a slot that still holds a buffer, and hands that back. */
  ghost predicate HandsBackParked<V>(a: Ages<V>, op: Op<V>)
    requires |a.order| > 0
  {
    && op.Update?
    && Age(a.order, op.key) == |a.order|
    && TakenOver(a, op.key).Some?
    && Leftover(a.parked, TakenOver(a, op.key).value).Some?
  }

  ghost predicate SameState<V>(a: Ages<V>, op: Op<V>)
    requires |a.order| > 0
  {
    Compact(AgesStep(a, op).0.order) == LruStep(Compact(a.order), |a.order|, op).0
  }

  ghost predicate SameAnswer<V>(a: Ages<V>, op: Op<V>)
    requires |a.order| > 0
  {
    AgesStep(a, op).1 == LruStep(Compact(a.order), |a.order|, op).1
  }

  /**
   * The live entries step as a textbook cache does exactly when no gap costs the oldest entry; the
   * answer is the textbook's as well exactly when, besides, no parked buffer is handed back.
   */
  lemma TextbookExactly<V>(a: Ages<V>, op: Op<V>)
    requires WellFormed(a)
    ensures SameState(a, op) <==> !LosesOldest(a, op)
    ensures SameState(a, op) && SameAnswer(a, op) <==> !LosesOldest(a, op) && !HandsBackParked(a, op)
  {
    hide SameState, SameAnswer, LosesOldest, HandsBackParked, WellFormed, Age;
    NotLost(a, op);
    match op
    case Find(key) => FindIsTextbook(a, key);
    case Update(key, data) =>
      if Age(a.order, key) < |a.order| {
        HitIsTextbook(a, key, data);
      } else {
        MissIsTextbook(a, key, data);
        if !LosesOldest(a, op) {
          MissAnswer(a, key, data);
        }
      }
    case Invalidate(key) => InvalidateIsTextbook(a, key);
    case InvalidateRange(lo, hi) => RangeIsTextbook(a, lo, hi);
  }

  lemma NotLost<V>(a: Ages<V>, op: Op<V>)
    requires WellFormed(a)
    ensures |a.order| > 0
    ensures LosesOldest(a, op) || HandsBackParked(a, op) ==> op.Update? && Age(a.order, op.key) >= |a.order|
  {}

  /** An entry moved to the front, possibly with new data. */
  lemma {:induction false} MoveIsTextbook<V>(s: seq<Option<Entry<V>>>, key: Key, e: Entry<V>)
    requires Age(s, key) < |s|
    ensures var p, i, r := Age(s, key), Position(Compact(s), key), Compact(s);
      && i < |r| && r[i] == s[p].value
      && Compact(DropAt(s, p)) == DropAt(r, i)
      && Compact([Some(e)] + DropAt(s, p)) == [e] + DropAt(r, i)
  {
    var p := Age(s, key);
    CompactPosition(s, key);
    CompactSplit(s, p);
    FrontCompact(Some(e), DropAt(s, p));
    var i := |Compact(s[..p])|;
    assert DropAt(Compact(s), i) == Compact(s[..p]) + Compact(s[p + 1..]);
  }

  lemma FindIsTextbook<V>(a: Ages<V>, key: Key)
    requires |a.order| > 0
    ensures SameState(a, Op.Find(key)) && SameAnswer(a, Op.Find(key))
  {
    CompactPosition(a.order, key);
    if Age(a.order, key) < |a.order| {
      MoveIsTextbook(a.order, key, a.order[Age(a.order, key)].value);
    }
    hide Compact, DropAt, Age, Position;
  }

  lemma {:induction false} HitIsTextbook<V>(a: Ages<V>, key: Key, data: V)
    requires Age(a.order, key) < |a.order|
    ensures SameState(a, Op.Update(key, data)) && SameAnswer(a, Op.Update(key, data))
  {
    MoveIsTextbook(a.order, key, Entry(key, data));
    StepOfHit(a, key, data);
    hide Compact, DropAt, Age, Position, AgesStep;
  }

  lemma InvalidateIsTextbook<V>(a: Ages<V>, key: Key)
    requires |a.order| > 0
    ensures SameState(a, Op.Invalidate(key)) && SameAnswer(a, Op.Invalidate(key))
  {
    var s, p := a.order, Age(a.order, key);
    CompactPosition(s, key);
    if p < |s| {
      MoveIsTextbook(s, key, s[p].value);
      CompactSplit(s, p);
      CompactSplit(s[p := None], p);
      assert s[p := None][..p] == s[..p] && s[p := None][p + 1..] == s[p + 1..];
    }
    hide Compact, DropAt, Age, Position;
  }

  lemma RangeIsTextbook<V>(a: Ages<V>, lo: Key, hi: Key)
    requires |a.order| > 0
    ensures SameState(a, Op.InvalidateRange(lo, hi)) && SameAnswer(a, Op.InvalidateRange(lo, hi))
  {
    CompactBlanked(a.order, AgesDropRange(a, lo, hi).order, lo, hi);
    hide Compact, Outside, Slots;
  }

  /** Blanking the positions with a key in range leaves the live entries outside it. */
  lemma {:induction false} CompactBlanked<V>(s: seq<Option<Entry<V>>>, t: seq<Option<Entry<V>>>, lo: Key, hi: Key)
    requires |t| == |s|
    requires forall p :: 0 <= p < |s| ==> t[p] == if s[p].Some? && lo <= s[p].value.key < hi then None else s[p]
    ensures Compact(t) == Outside(Compact(s), lo, hi)
  {
    if s != [] {
      CompactBlanked(s[1..], t[1..], lo, hi);
      var rest := Compact(s[1..]);
      assert [] + rest == rest && [] + Compact(t[1..]) == Compact(t[1..]);
      if s[0].Some? {
        var r := [s[0].value] + rest;
        assert r[0] == s[0].value && r[1..] == rest;
      }
    }
  }

  lemma {:induction false} MissOrder<V>(a: Ages<V>, key: Key, data: V)
    requires |a.order| > 0 && Age(a.order, key) == |a.order|
    ensures AgesStep(a, Op.Update(key, data)).0.order == [Some(Entry(key, data))] + a.order[..|a.order| - 1]
  {}

  lemma {:induction false} MissIsTextbook<V>(a: Ages<V>, key: Key, data: V)
    requires |a.order| > 0 && Age(a.order, key) == |a.order|
    ensures SameState(a, Op.Update(key, data)) <==> !LosesOldest(a, Op.Update(key, data))
  {
    hide AgesStep, Compact, Age, Position;
    var s, n, e := a.order, |a.order|, Entry(key, data);
    MissOrder(a, key, data);
    CompactPosition(s, key);
    CompactSize(s);
    CompactLast(s);
    FrontCompact(Some(e), s[..n - 1]);
    assert |[e] + Compact(s[..n - 1])| == 1 + |Compact(s[..n - 1])|;
  }

  /** What the textbook answers to a miss. */
  lemma {:induction false} TextbookMiss<V>(s: seq<Option<Entry<V>>>, key: Key, data: V)
    requires s != [] && Age(s, key) == |s|
    ensures var gap := exists p :: 0 <= p < |s| && s[p].None?;
      LruStep(Compact(s), |s|, Op.Update(key, data)).1 == Displaced(if gap then None else s[|s| - 1])
  {
    CompactPosition(s, key);
    CompactSize(s);
    CompactLast(s);
    hide Compact, Age, Position;
  }

  lemma {:induction false} MissAnswer<V>(a: Ages<V>, key: Key, data: V)
    requires WellFormed(a) && Age(a.order, key) == |a.order|
    requires !LosesOldest(a, Op.Update(key, data))
    ensures SameAnswer(a, Op.Update(key, data)) <==> !HandsBackParked(a, Op.Update(key, data))
  {
    var s, n := a.order, |a.order|;
    hide AgesStep, Compact, Age, WellFormed, TakenOver, Slots, LruStep, Leftover;
    WellFormedSizes(a);
    TextbookMiss(s, key, data);
    TakenOverParked(a, key);
    if s[n - 1].Some? {
      FullMeansNoRoom(a, key);
      StepOfFull(a, key, data);
    } else {
      assert exists p :: 0 <= p < n && s[p].None?;
      if TakenOver(a, key).None? && |Slots(a)| == n {
        StepOfFull(a, key, data);
      } else {
        StepOfMiss(a, key, data, if TakenOver(a, key).Some? then {TakenOver(a, key).value} else {});
      }
    }
  }

  /** Without a gap every slot is live, and there is none to take over. */
  lemma FullMeansNoRoom<V>(a: Ages<V>, key: Key)
    requires WellFormed(a) && forall p :: 0 <= p < |a.order| ==> a.order[p].Some?
    ensures TakenOver(a, key).None? && |Slots(a)| == |a.order| && a.parked == map[]
  {
    WellFormedSizes(a);
    LiveSize(a.order);
    assert DistinctLive(a.order);
    assert |a.parked.Keys| == 0;
    assert a.parked == map[];
    hide LiveKeys, WellFormed;
  }

  lemma {:induction false} CompactLast<V>(s: seq<Option<Entry<V>>>)
    requires s != []
    ensures var front, last := Compact(s[..|s| - 1]), s[|s| - 1];
      if last.Some? then Compact(s) == front + [last.value] && Compact(s)[..|Compact(s)| - 1] == front
      else Compact(s) == front
  {
    hide Compact;
    var front, last := s[..|s| - 1], s[|s| - 1];
    assert s == front + [last];
    CompactConcat(front, [last]);
    CompactOne(last);
  }

  /**
   * In a cache of two, after updates of 1 and 2 and an invalidation of 2, an update of 3 loses
   * key 1 although there was room for both.
   */
  lemma TombstoneExample<V>(d: V)
    ensures var a := AgesStep(AgesStep(AgesStep(Empty<V>(2), Op.Update(1, d)).0, Op.Update(2, d)).0, Op.Invalidate(2)).0;
      && a == Ages([None, Some(Entry(1, d))], map[2 := None])
      && LosesOldest(a, Op.Update(3, d))
      && AgesStep(AgesStep(a, Op.Update(3, d)).0, Op.Find(1)).1 == Found(None)
  {
    var one, two := Some(Entry(1, d)), Some(Entry(2, d));
    assert Empty<V>(2).order == [None, None];
    hide AgesStep, LosesOldest;
    FreshExample([None, None], 1, d);
    FreshExample([one, None], 2, d);
    InvalidateExample(one, two);
    LossExample(one, d);
  }

  lemma InvalidateExample<V>(one: Option<Entry<V>>, two: Option<Entry<V>>)
    requires one.Some? && one.value.key == 1 && two.Some? && two.value.key == 2
    ensures AgesStep(Ages([two, one], map[]), Op.Invalidate(2)).0 == Ages([None, one], map[2 := None])
  {
    assert Age([two, one], 2) == 0;
    assert [two, one][0 := None] == [None, one];
  }

  lemma LossExample<V>(one: Option<Entry<V>>, d: V)
    requires one.Some? && one.value.key == 1
    ensures var a := Ages([None, one], map[2 := None]);
      && LosesOldest(a, Op.Update(3, d))
      && AgesStep(AgesStep(a, Op.Update(3, d)).0, Op.Find(1)).1 == Found(None)
  {
    var a := Ages([None, one], map[2 := None]);
    assert a.order[0].None?;
    assert Age(a.order, 3) == 2;
    MissOrder(a, 3, d);
    var b := AgesStep(a, Op.Update(3, d)).0;
    assert a.order[..1] == [None];
    assert Age(b.order, 1) == 2;
    hide TakenOver, Slots;
  }

  lemma {:induction false} FreshExample<V>(order: seq<Option<Entry<V>>>, key: Key, d: V)
    requires |order| == 2 && order[1].None? && Age(order, key) == 2
    ensures AgesStep(Ages(order, map[]), Op.Update(key, d)).0 == Ages([Some(Entry(key, d)), order[0]], map[])
  {
    TakenOverNone(Ages(order, map[]), key);
    assert [Some(Entry(key, d))] + order[..1] == [Some(Entry(key, d)), order[0]];
    hide TakenOver;
  }

  /** One more update hands key 1 back, where a textbook cache displaces nothing; the live entries agree. */
  lemma HandedBackExample<V>(d: V, e: V)
    ensures var a := AgesStep(Ages([None, Some(Entry(1, d))], map[2 := None]), Op.Update(3, d)).0;
      && a == Ages([Some(Entry(3, d)), None], map[1 := Some(d)])
      && !LosesOldest(a, Op.Update(4, e))
      && SameState(a, Op.Update(4, e))
      && AgesStep(a, Op.Update(4, e)).1 == Displaced(Some(Entry(1, d)))
      && LruStep(Compact(a.order), 2, Op.Update(4, e)).1 == Displaced(None)
  {
    var a, b := Ages([None, Some(Entry(1, d))], map[2 := None]), Ages([Some(Entry(3, d)), None], map[1 := Some(d)]);
    LiveOfPair(a.order, Entry(1, d), 3);
    LiveOfPair(b.order, Entry(3, d), 4);
    TakesOverOnly(a, 1, 2, 3);
    TakesOverOnly(b, 3, 1, 4);
    assert a.parked - {2} == map[] && [Some(Entry(3, d))] + a.order[..1] == b.order && b.order[1].None?;
    hide TakenOver, Slots, LiveKeys, Age, LruStep, SameState, Compact, AgesStep;
    StepOfMiss(a, 3, d, {2});
    StepOfMiss(b, 4, e, {1});
    MissIsTextbook(b, 4, e);
    TextbookMiss(b.order, 4, e);
  }

  lemma {:induction false} LiveOfPair<V>(order: seq<Option<Entry<V>>>, live: Entry<V>, key: Key)
    requires live.key != key && (order == [None, Some(live)] || order == [Some(live), None])
    ensures LiveKeys(order) == {live.key} && Age(order, key) == 2
  {
    var p := if order[0].Some? then 0 else 1;
    assert order[p].Some? && order[p].value.key == live.key && order[1 - p].None?;
  }

  lemma TakesOverOnly<V>(a: Ages<V>, live: Key, slot: Key, key: Key)
    requires |a.order| == 2 && LiveKeys(a.order) == {live} && a.parked.Keys == {slot}
    requires live != slot && live < key && slot < key
    ensures TakenOver(a, key) == Some(slot) && |Slots(a)| == 2
  {
    hide LiveKeys;
    assert Slots(a) == {live, slot} && NotBelow(Slots(a), key) == {};
  }

  // ----- whole runs -----

  /** No parked slot holds a buffer. */
  ghost predicate NothingParked<V>(a: Ages<V>) {
    forall k :: k in a.parked ==> a.parked[k] == None
  }

  /** As long as the oldest entry is not lost no buffer is parked, and so none is handed back late. */
  lemma NothingGetsParked<V>(a: Ages<V>, op: Op<V>)
    requires WellFormed(a) && NothingParked(a)
    ensures !HandsBackParked(a, op)
    ensures !LosesOldest(a, op) ==> NothingParked(AgesStep(a, op).0)
  {
    match op
    case Find(key) =>
    case Update(key, data) =>
      if Age(a.order, key) < |a.order| {
        StepOfHit(a, key, data);
        hide AgesStep, TakenOver;
      } else {
        MissParksNothing(a, key, data);
      }
    case Invalidate(key) =>
    case InvalidateRange(lo, hi) => RangeParksNothing(a, lo, hi);
  }

  lemma RangeParksNothing<V>(a: Ages<V>, lo: Key, hi: Key)
    requires NothingParked(a)
    ensures NothingParked(AgesDropRange(a, lo, hi))
  {
    forall k | k in AgesDropRange(a, lo, hi).parked
      ensures AgesDropRange(a, lo, hi).parked[k] == None
    {
      LeftUnderIs(a, lo, hi, k);
    }
  }

  lemma {:induction false} MissParksNothing<V>(a: Ages<V>, key: Key, data: V)
    requires WellFormed(a) && NothingParked(a) && Age(a.order, key) == |a.order|
    ensures !HandsBackParked(a, Op.Update(key, data))
    ensures !LosesOldest(a, Op.Update(key, data)) ==> NothingParked(AgesStep(a, Op.Update(key, data)).0)
  {
    hide AgesStep, WellFormed, TakenOver, Slots, Age;
    TakenOverParked(a, key);
    WellFormedSizes(a);
    if TakenOver(a, key).None? && |Slots(a)| == |a.order| {
      StepOfFull(a, key, data);
    } else {
      StepOfMiss(a, key, data, if TakenOver(a, key).Some? then {TakenOver(a, key).value} else {});
      if !LosesOldest(a, Op.Update(key, data)) && a.order[|a.order| - 1].Some? {
        FullMeansNoRoom(a, key);
      }
    }
  }

  /** No step of the run costs the oldest entry while there is a gap. */
  ghost predicate NeverLoses<V>(a: Ages<V>, ops: seq<Op<V>>)
    requires |a.order| > 0
    decreases |ops|
  {
    ops != [] ==> !LosesOldest(a, ops[0]) && NeverLoses(AgesStep(a, ops[0]).0, ops[1..])
  }

  /** The live entries after every operation, and every answer, are those of the textbook list. */
  ghost predicate FollowsTextbook<V>(a: Ages<V>, r: seq<Entry<V>>, n: nat, ops: seq<Op<V>>)
    requires |a.order| > 0 && n > 0
  {
    && AgesRun(a, ops).1 == LruRun(r, n, ops).1
    && forall i :: 0 <= i <= |ops| ==> Compact(AgesRun(a, ops[..i]).0.order) == LruRun(r, n, ops[..i]).0
  }

  /** From a state without parked buffers a run is a textbook run exactly when it never loses the oldest entry. */
  lemma {:induction false} RunIsTextbook<V>(a: Ages<V>, ops: seq<Op<V>>)
    requires WellFormed(a) && NothingParked(a)
    ensures FollowsTextbook(a, Compact(a.order), |a.order|, ops) <==> NeverLoses(a, ops)
    decreases |ops|
  {
    if ops == [] {
      assert ops[..0] == [];
    } else {
      StepWellFormed(a, ops[0]);
      TextbookExactly(a, ops[0]);
      NothingGetsParked(a, ops[0]);
      FollowsOneMore(a, ops);
      hide FollowsTextbook, WellFormed, NothingParked, AgesStep, LosesOldest, SameState, SameAnswer, Compact;
      if !LosesOldest(a, ops[0]) {
        RunIsTextbook(AgesStep(a, ops[0]).0, ops[1..]);
      }
    }
  }

  lemma SameFirst<T>(x: T, s: seq<T>, y: T, t: seq<T>)
    ensures [x] + s == [y] + t <==> x == y && s == t
  {
    if [x] + s == [y] + t {
      assert ([x] + s)[0] == x && ([x] + s)[1..] == s && ([y] + t)[0] == y && ([y] + t)[1..] == t;
    }
  }

  /** Following the textbook over a run is following it over its first step and then over the rest. */
  lemma FollowsOneMore<V>(a: Ages<V>, ops: seq<Op<V>>)
    requires |a.order| > 0 && ops != [] && |AgesStep(a, ops[0]).0.order| == |a.order|
    ensures var a' := AgesStep(a, ops[0]).0;
      FollowsTextbook(a, Compact(a.order), |a.order|, ops) <==>
        SameState(a, ops[0]) && SameAnswer(a, ops[0]) && FollowsTextbook(a', Compact(a'.order), |a'.order|, ops[1..])
  {
    hide AgesStep, LruStep, Compact;
    var r, n := Compact(a.order), |a.order|;
    var a', r' := AgesStep(a, ops[0]).0, LruStep(r, n, ops[0]).0;
    SameFirst(AgesStep(a, ops[0]).1, AgesRun(a', ops[1..]).1, LruStep(r, n, ops[0]).1, LruRun(r', n, ops[1..]).1);
    forall i | 0 <= i < |ops|
      ensures AgesRun(a, ops[..i + 1]).0 == AgesRun(a', ops[1..][..i]).0
      ensures LruRun(r, n, ops[..i + 1]).0 == LruRun(r', n, ops[1..][..i]).0
    {
      assert ops[..i + 1][1..] == ops[1..][..i];
    }
    assert ops[..0] == [] && ops[1..][..0] == [];
    if FollowsTextbook(a, r, n, ops) {
      FollowsTail(a, ops);
    } else if Compact(a'.order) == r' && FollowsTextbook(a', r', n, ops[1..]) {
      forall i | 0 <= i <= |ops|
        ensures Compact(AgesRun(a, ops[..i]).0.order) == LruRun(r, n, ops[..i]).0
      {
        if i > 0 {
          var j := i - 1;
          assert Compact(AgesRun(a', ops[1..][..j]).0.order) == LruRun(r', n, ops[1..][..j]).0;
        }
      }
    }
  }

  lemma FollowsTail<V>(a: Ages<V>, ops: seq<Op<V>>)
    requires |a.order| > 0 && ops != [] && |AgesStep(a, ops[0]).0.order| == |a.order|
    requires FollowsTextbook(a, Compact(a.order), |a.order|, ops)
    ensures var a', r' := AgesStep(a, ops[0]).0, LruStep(Compact(a.order), |a.order|, ops[0]).0;
      forall i :: 0 <= i < |ops| ==> Compact(AgesRun(a', ops[1..][..i]).0.order) == LruRun(r', |a.order|, ops[1..][..i]).0
  {
    hide AgesStep, LruStep, Compact;
    var a', r' := AgesStep(a, ops[0]).0, LruStep(Compact(a.order), |a.order|, ops[0]).0;
    forall i | 0 <= i < |ops|
      ensures Compact(AgesRun(a', ops[1..][..i]).0.order) == LruRun(r', |a.order|, ops[1..][..i]).0
    {
      assert ops[..i + 1][1..] == ops[1..][..i];
      assert Compact(AgesRun(a, ops[..i + 1]).0.order) == LruRun(Compact(a.order), |a.order|, ops[..i + 1]).0;
    }
  }

  /** From an empty cache: every answer and the live entries throughout are the textbook's exactly when no step loses the oldest. */
  lemma {:induction false} RunsTextbookExactly<V>(n: nat, ops: seq<Op<V>>)
    requires n > 0
    ensures FollowsTextbook(Empty(n), [], n, ops) <==> NeverLoses(Empty(n), ops)
  {
    EmptyIsWellFormed<V>(n);
    RunIsTextbook(Empty(n), ops);
  }

  lemma EmptyIsWellFormed<V>(n: nat)
    requires n > 0
    ensures WellFormed(Empty<V>(n)) && NothingParked(Empty<V>(n)) && Compact(Empty<V>(n).order) == []
  {
    var a := Empty<V>(n);
    assert LiveKeys(a.order) == {};
    NothingLive(a.order);
  }

  lemma {:induction false} NothingLive<V>(order: seq<Option<Entry<V>>>)
    requires forall p :: 0 <= p < |order| ==> order[p].None?
    ensures Compact(order) == []
  {
    if order != [] {
      NothingLive(order[1..]);
    }
  }

  /** Runs without invalidation never do. */
  lemma {:induction false} WithoutInvalidationNeverLoses<V>(a: Ages<V>, r: seq<Entry<V>>, ops: seq<Op<V>>)
    requires |a.order| > 0 && Packed(a, r)
    requires forall i :: 0 <= i < |ops| ==> !IsInvalidation(ops[i])
    ensures NeverLoses(a, ops)
    decreases |ops|
  {
    if ops != [] {
      StepStaysPacked(a, r, ops[0]);
      PackedHasNoGapBefore(a, r, ops[0]);
      hide Packed, AgesStep, LruStep, LosesOldest;
      WithoutInvalidationNeverLoses(AgesStep(a, ops[0]).0, LruStep(r, |a.order|, ops[0]).0, ops[1..]);
    }
  }

  lemma PackedHasNoGapBefore<V>(a: Ages<V>, r: seq<Entry<V>>, op: Op<V>)
    requires |a.order| > 0 && Packed(a, r)
    ensures !LosesOldest(a, op)
  {}
}

/** The two caches side by side. */
module LruAgreement {
  import Finite

  import opened LruSpec
  import opened LruTheory
  import LruHistory
  import opened LruTextbook
  import opened FlatLru
  import opened FlatCache
  import opened GenericLru

  method FlatDo<V(==)>(c: FlatLruCache<V>, op: Op<V>) returns (answer: Answer<V>)
    requires c.Valid() && Allowed(op)
    modifies c
    ensures c.Valid()
    ensures AgesStep(old(c.State()), op) == (c.State(), answer)
  {
    match op
    case Find(key) =>
      var data := c.Find(key);
      answer := Found(data);
    case Update(key, data) =>
      var entry := c.Update(key, data);
      answer := Displaced(entry);
    case Invalidate(key) =>
      c.Invalidate(key);
      answer := Done;
    case InvalidateRange(lo, hi) =>
      c.InvalidateRange(lo, hi);
      answer := Done;
  }

  method GenericDo<V(==)>(c: GenericLruCache<V>, op: Op<V>) returns (answer: Answer<V>)
    requires c.Valid() && Allowed(op)
    modifies c
    ensures c.Valid()
    ensures LruStep(old(c.State()), c.lenMax, op) == (c.State(), answer)
  {
    match op
    case Find(key) =>
      var data := c.Find(key);
      answer := Found(data);
    case Update(key, data) =>
      var entry := c.Update(key, data);
      answer := Displaced(entry);
    case Invalidate(key) =>
      c.Invalidate(key);
      answer := Done;
    case InvalidateRange(lo, hi) =>
      c.InvalidateRange(lo, hi);
      answer := Done;
  }

  /**
   * On every run, invalidations included, the flat cache answers as the list with tombstones. While
   * nothing was invalidated its ages are 0, 1, 2, ..., each once, and give the recency order.
   */
  method RunFlat<V(==)>(lenMax: nat, ops: seq<Op<V>>) returns (c: FlatLruCache<V>, answers: seq<Answer<V>>)
    requires lenMax > 0 && forall i :: 0 <= i < |ops| ==> Allowed(ops[i])
    ensures c.Valid() && c.lenMax == lenMax && (c.State(), answers) == AgesRun(Empty(lenMax), ops)
    ensures (forall i :: 0 <= i < |ops| ==> !IsInvalidation(ops[i])) ==>
      AgedAs(ByKey(c.cache), LruRun([], lenMax, ops).0)
  {
    hide AgesStep, Packed, AgedAs;
    c := new FlatLruCache<V>(lenMax);
    answers := [];
    for i := 0 to |ops|
      invariant c.Valid() && c.lenMax == lenMax && AgesRun(Empty(lenMax), ops[..i]) == (c.State(), answers)
    {
      AgesRunSnoc(Empty(lenMax), ops[..i], ops[i]);
      assert ops[..i + 1] == ops[..i] + [ops[i]];
      var answer := FlatDo(c, ops[i]);
      answers := answers + [answer];
    }
    assert ops[..|ops|] == ops;
    if forall i :: 0 <= i < |ops| ==> !IsInvalidation(ops[i]) {
      PackedEmpty<V>(lenMax);
      RunsAgree(Empty(lenMax), [], ops);
      AgesArePositions(ByKey(c.cache), lenMax, LruRun([], lenMax, ops).0);
    }
  }

  /** On every run, invalidations included, the list-and-index cache answers as the textbook list: what is owed. */
  method RunGeneric<V(==)>(lenMax: nat, ops: seq<Op<V>>) returns (c: GenericLruCache<V>, answers: seq<Answer<V>>)
    requires lenMax > 0 && forall i :: 0 <= i < |ops| ==> Allowed(ops[i])
    ensures c.Valid() && c.lenMax == lenMax && (c.State(), answers) == LruRun([], lenMax, ops)
    ensures |answers| == |ops| && LruHistory.AllOwed(lenMax, ops, answers)
  {
    hide LruStep, LruHistory.AllOwed, LruHistory.Reflects;
    c := new GenericLruCache<V>(lenMax);
    answers := [];
    for i := 0 to |ops|
      invariant c.Valid() && c.lenMax == lenMax && LruRun([], lenMax, ops[..i]) == (c.State(), answers)
    {
      LruRunSnoc([], lenMax, ops[..i], ops[i]);
      assert ops[..i + 1] == ops[..i] + [ops[i]];
      var answer := GenericDo(c, ops[i]);
      answers := answers + [answer];
    }
    assert ops[..|ops|] == ops;
    LruHistory.RunReflects(lenMax, ops);
  }

  /**
   * Both caches on the same run give the same answers unless some step loses the oldest entry of
   * the flat one; without invalidation none does.
   */
  method RunBoth<V(==)>(lenMax: nat, ops: seq<Op<V>>) returns (flat: seq<Answer<V>>, generic: seq<Answer<V>>)
    requires lenMax > 0 && forall i :: 0 <= i < |ops| ==> Allowed(ops[i])
    ensures flat == AgesRun(Empty(lenMax), ops).1 && generic == LruRun([], lenMax, ops).1
    ensures |generic| == |ops| && LruHistory.AllOwed(lenMax, ops, generic)
    ensures NeverLoses(Empty<V>(lenMax), ops) ==> flat == generic
    ensures (forall i :: 0 <= i < |ops| ==> !IsInvalidation(ops[i])) ==> flat == generic
  {
    hide NeverLoses, Packed;
    var c, d;
    c, flat := RunFlat(lenMax, ops);
    d, generic := RunGeneric(lenMax, ops);
    RunsTextbookExactly(lenMax, ops);
    if forall i :: 0 <= i < |ops| ==> !IsInvalidation(ops[i]) {
      PackedEmpty<V>(lenMax);
      WithoutInvalidationNeverLoses(Empty(lenMax), [], ops);
    }
  }

  lemma PackedEmpty<V>(n: nat)
    ensures Packed<V>(Empty(n), [])
  {}

  /** The ages of the slots are 0..|r|-1, each once, and the age of a slot is the position of its key in r. */
  ghost predicate AgedAs<V>(m: map<Key, Slot<V>>, r: seq<Entry<V>>) {
    && |m| == |r| && AgesOf(m, m.Keys) == Finite.Below(|r|)
    && forall k :: k in m ==> m[k].refs == Position(r, k) < |r|
  }

  /** Slots that mean the textbook list r are aged as in r. */
  lemma AgesArePositions<V>(m: map<Key, Slot<V>>, n: nat, r: seq<Entry<V>>)
    requires Good(m, n) && n > 0 && Packed(Meaning(m, n), r)
    ensures AgedAs(m, r)
  {
    var a := Meaning(m, n);
    MeaningSlots(m, n);
    PackedSlots(a, r);
    hide Meaning, Packed, Good, Slots, Position;
    forall k | k in m
      ensures m[k].refs == Position(r, k) < |r|
    {
      AgeIsPosition(m, n, r, k);
    }
    AgesFill(m, r);
  }

  /** As many different ages as numbers they are below are all of those numbers. */
  lemma {:induction false} AgesFill<V>(m: map<Key, Slot<V>>, r: seq<Entry<V>>)
    requires |m| == |r| && forall k :: k in m ==> m[k].refs == Position(r, k) < |r|
    ensures AgesOf(m, m.Keys) == Finite.Below(|r|)
  {
    AgesDiffer(m, r);
    assert AgesOf(m, m.Keys) <= Finite.Below(|r|);
    hide AgesOf, Position;
    AgesOfSize(m, m.Keys);
    Finite.BelowSize(|r|);
    assert |m.Keys| == |m|;
    SubsetOfSameSize(AgesOf(m, m.Keys), Finite.Below(|r|));
  }

  lemma {:induction false} AgesDiffer<V>(m: map<Key, Slot<V>>, r: seq<Entry<V>>)
    requires forall k :: k in m ==> m[k].refs == Position(r, k) < |r|
    ensures forall j, k :: j in m && k in m && j != k ==> m[j].refs != m[k].refs
  {}

  lemma {:induction false} AgeIsPosition<V>(m: map<Key, Slot<V>>, n: nat, r: seq<Entry<V>>, k: Key)
    requires Good(m, n) && n > 0 && Packed(Meaning(m, n), r) && k in m
    ensures m[k].refs == Position(r, k) < |r|
  {
    PackedAt(Meaning(m, n), r, 0);
    ParkedMeans(m, n);
    hide Meaning, Packed, Good, Position, Age;
    MeaningAge(m, n, k);
    PackedAge(Meaning(m, n), r, k);
    NoGap(m, n, k);
  }

  lemma NoGap<V>(m: map<Key, Slot<V>>, n: nat, k: Key)
    requires Good(m, n) && k in m && Gaps(m, n) == {}
    ensures m[k].refs < n
  {
    assert k !in Gaps(m, n);
  }
}

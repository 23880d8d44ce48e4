/** Least-frequently-used caching told by the operations and answers of a run alone. */
module LfuHistory {
  import opened LfuSpec

  // ----- what a run says about a key -----

  predicate Puts<V>(op: Op<V>, key: Key) {
    op.Put? && op.key == key
  }

  /** The entry under key is invalidated, or evicted by a put of another one. */
  predicate Removes<V>(op: Op<V>, answer: Answer<V>, key: Key) {
    || (op.Invalidate? && op.key == key)
    || (op.InvalidateRange? && op.lo <= key < op.hi)
    || (answer.Evicted? && answer.pair.Some? && answer.pair.value.key == key)
  }

  /** A put of key, or a get of it that found a value. */
  predicate Uses<V>(op: Op<V>, answer: Answer<V>, key: Key) {
    Puts(op, key) || (op == Get(key) && answer.Got? && answer.value.Some?)
  }

  /** key was put at i, and since then neither evicted nor invalidated. */
  predicate KeptSince<V>(ops: seq<Op<V>>, answers: seq<Answer<V>>, key: Key, i: int)
    requires |answers| == |ops|
  {
    0 <= i < |ops| && Puts(ops[i], key) && forall j :: i < j < |ops| ==> !Removes(ops[j], answers[j], key)
  }

  function Kept<V>(ops: seq<Op<V>>, answers: seq<Answer<V>>): set<Key>
    requires |answers| == |ops|
  {
    set i | 0 <= i < |ops| && ops[i].Put? && KeptSince(ops, answers, ops[i].key, i) :: ops[i].key
  }

  predicate IsLastPut<V>(ops: seq<Op<V>>, key: Key, i: int) {
    0 <= i < |ops| && Puts(ops[i], key) && forall j :: i < j < |ops| ==> !Puts(ops[j], key)
  }

  ghost predicate IsLastValue<V>(ops: seq<Op<V>>, key: Key, value: V) {
    exists i :: IsLastPut(ops, key, i) && value == ops[i].value
  }

  /** How often key was used since it was last removed. */
  function Count<V>(ops: seq<Op<V>>, answers: seq<Answer<V>>, key: Key): nat
    requires |answers| == |ops|
  {
    if ops == [] then 0
    else
      var n := |ops| - 1;
      if Removes(ops[n], answers[n], key) then 0
      else Count(ops[..n], answers[..n], key) + if Uses(ops[n], answers[n], key) then 1 else 0
  }

  /** When key was last used, counted from 1; 0 for never. */
  function Latest<V>(ops: seq<Op<V>>, answers: seq<Answer<V>>, key: Key): nat
    requires |answers| == |ops|
  {
    if ops == [] then 0
    else
      var n := |ops| - 1;
      if Uses(ops[n], answers[n], key) then n + 1 else Latest(ops[..n], answers[..n], key)
  }

  /** x was used less often than y since it came in, or as often but not as recently. */
  predicate UsedLess<V>(ops: seq<Op<V>>, answers: seq<Answer<V>>, x: Key, y: Key)
    requires |answers| == |ops|
  {
    || Count(ops, answers, x) < Count(ops, answers, y)
    || (Count(ops, answers, x) == Count(ops, answers, y) && Latest(ops, answers, x) < Latest(ops, answers, y))
  }

  /** The answer a cache of this capacity owes to op after the operations ops were answered with answers. */
  ghost predicate Owed<V>(capacity: nat, ops: seq<Op<V>>, answers: seq<Answer<V>>, op: Op<V>, answer: Answer<V>)
    requires |answers| == |ops|
  {
    var kept := Kept(ops, answers);
    match op
    case Get(key) =>
      answer.Got? && if key in kept then answer.value.Some? && IsLastValue(ops, key, answer.value.value) else answer.value.None?
    case Put(key, _) =>
      && answer.Evicted?
      && (answer.pair.Some? <==> key !in kept && |kept| >= capacity)
      && (answer.pair.Some? ==>
        && answer.pair.value.key in kept
        && IsLastValue(ops, answer.pair.value.key, answer.pair.value.value)
        && forall k :: k in kept && k != answer.pair.value.key ==> UsedLess(ops, answers, answer.pair.value.key, k))
    case Invalidate(_) => answer == Done
    case InvalidateRange(_, _) => answer == Done
  }

  // ----- the map of hit counts and last touches holds just that -----

  /** What the map holds under a key is what the run says about it. */
  ghost predicate Tells<V>(s: Lfu<V>, ops: seq<Op<V>>, answers: seq<Answer<V>>, key: Key)
    requires |answers| == |ops|
  {
    && (key in s.items <==> key in Kept(ops, answers))
    && (key in s.items ==>
      && IsLastValue(ops, key, s.items[key].value)
      && s.items[key].count == Count(ops, answers, key) > 0
      && s.items[key].stamp < s.clock)
    && (key !in s.items ==> Count(ops, answers, key) == 0)
    && Latest(ops, answers, key) <= |ops|
  }

  /** Last touches come in the order of the last uses. */
  ghost predicate InOrder<V>(s: Lfu<V>, ops: seq<Op<V>>, answers: seq<Answer<V>>)
    requires |answers| == |ops|
  {
    forall x, y :: x in s.items && y in s.items ==>
      (s.items[x].stamp < s.items[y].stamp <==> Latest(ops, answers, x) < Latest(ops, answers, y))
  }

  ghost predicate Reflects<V>(s: Lfu<V>, ops: seq<Op<V>>, answers: seq<Answer<V>>)
    requires |answers| == |ops|
  {
    (forall key :: Tells(s, ops, answers, key)) && InOrder(s, ops, answers)
  }

  // ----- one more operation -----

  lemma {:induction false} KeptMore<V>(ops: seq<Op<V>>, answers: seq<Answer<V>>, op: Op<V>, answer: Answer<V>, key: Key)
    requires |answers| == |ops|
    ensures key in Kept(ops + [op], answers + [answer]) <==>
      Puts(op, key) || (key in Kept(ops, answers) && !Removes(op, answer, key))
  {
    var n, ops', answers' := |ops|, ops + [op], answers + [answer];
    if Puts(op, key) {
      assert KeptSince(ops', answers', key, n) && ops'[n].key == key;
    } else if key in Kept(ops, answers) && !Removes(op, answer, key) {
      var i :| 0 <= i < n && ops[i].Put? && KeptSince(ops, answers, ops[i].key, i) && ops[i].key == key;
      assert KeptSince(ops', answers', key, i) && ops'[i].key == key;
    }
    if key in Kept(ops', answers') && !Puts(op, key) {
      var i :| 0 <= i < n + 1 && ops'[i].Put? && KeptSince(ops', answers', ops'[i].key, i) && ops'[i].key == key;
      assert i < n && !Removes(ops'[n], answers'[n], key);
      forall j | i < j < n
        ensures !Removes(ops[j], answers[j], key)
      {
        assert ops'[j] == ops[j] && answers'[j] == answers[j];
      }
      assert ops[i] == ops'[i];
      assert KeptSince(ops, answers, ops[i].key, i);
    }
  }

  lemma {:induction false} LastValueMore<V>(ops: seq<Op<V>>, op: Op<V>, key: Key, value: V)
    requires if Puts(op, key) then op.value == value else IsLastValue(ops, key, value)
    ensures IsLastValue(ops + [op], key, value)
  {
    if Puts(op, key) {
      assert IsLastPut(ops + [op], key, |ops|);
    } else {
      var i :| IsLastPut(ops, key, i) && value == ops[i].value;
      assert IsLastPut(ops + [op], key, i) && (ops + [op])[i] == ops[i];
    }
  }

  lemma {:induction false} CountMore<V>(ops: seq<Op<V>>, answers: seq<Answer<V>>, op: Op<V>, answer: Answer<V>, key: Key)
    requires |answers| == |ops|
    ensures Count(ops + [op], answers + [answer], key) ==
      if Removes(op, answer, key) then 0 else Count(ops, answers, key) + if Uses(op, answer, key) then 1 else 0
    ensures Latest(ops + [op], answers + [answer], key) ==
      if Uses(op, answer, key) then |ops| + 1 else Latest(ops, answers, key)
  {
    assert (ops + [op])[..|ops|] == ops && (answers + [answer])[..|ops|] == answers;
  }

  /** What an operation does to one key of the map. */
  ghost predicate ChangesAt<V>(s: Lfu<V>, op: Op<V>, s': Lfu<V>, answer: Answer<V>, key: Key) {
    && (key in s'.items <==> Puts(op, key) || (key in s.items && !Removes(op, answer, key)))
    && (Uses(op, answer, key) ==> !Removes(op, answer, key) && key in s'.items && s'.items[key].stamp == s.clock < s'.clock)
    && (key in s'.items ==>
      && s'.items[key].count == (if key in s.items then s.items[key].count else 0) + (if Uses(op, answer, key) then 1 else 0)
      && (if Puts(op, key) then s'.items[key].value == op.value else key in s.items && s'.items[key].value == s.items[key].value)
      && (!Uses(op, answer, key) ==> s'.items[key].stamp == s.items[key].stamp))
    && s.clock <= s'.clock
  }

  lemma {:induction false} PutAt<V>(s: Lfu<V>, capacity: nat, op: Op<V>, s': Lfu<V>, answer: Answer<V>, key: Key)
    requires op.Put? && Step(s, capacity, op, s', answer)
    ensures ChangesAt(s, op, s', answer, key)
  {}

  lemma {:induction false} GetAt<V>(s: Lfu<V>, capacity: nat, op: Op<V>, s': Lfu<V>, answer: Answer<V>, key: Key)
    requires op.Get? && Step(s, capacity, op, s', answer)
    ensures ChangesAt(s, op, s', answer, key)
  {}

  lemma {:induction false} StepAt<V>(s: Lfu<V>, capacity: nat, op: Op<V>, s': Lfu<V>, answer: Answer<V>, key: Key)
    requires Step(s, capacity, op, s', answer)
    ensures ChangesAt(s, op, s', answer, key)
  {
    if op.Put? {
      PutAt(s, capacity, op, s', answer, key);
      hide *;
    } else if op.Get? {
      GetAt(s, capacity, op, s', answer, key);
      hide *;
    }
  }

  lemma {:induction false} TellsMore<V>(s: Lfu<V>, capacity: nat, ops: seq<Op<V>>, answers: seq<Answer<V>>,
                                        op: Op<V>, s': Lfu<V>, answer: Answer<V>, key: Key)
    requires |answers| == |ops| && Tells(s, ops, answers, key) && Step(s, capacity, op, s', answer)
    ensures Tells(s', ops + [op], answers + [answer], key)
  {
    StepAt(s, capacity, op, s', answer, key);
    KeptMore(ops, answers, op, answer, key);
    CountMore(ops, answers, op, answer, key);
    hide Kept, Count, Latest, Step, IsLastValue;
    if key in s'.items {
      LastValueMore(ops, op, key, s'.items[key].value);
    }
  }

  lemma {:induction false} OrderMore<V>(s: Lfu<V>, capacity: nat, ops: seq<Op<V>>, answers: seq<Answer<V>>,
                                        op: Op<V>, s': Lfu<V>, answer: Answer<V>)
    requires |answers| == |ops| && Reflects(s, ops, answers) && Step(s, capacity, op, s', answer)
    ensures InOrder(s', ops + [op], answers + [answer])
  {
    var ops', answers' := ops + [op], answers + [answer];
    forall x, y | x in s'.items && y in s'.items
      ensures s'.items[x].stamp < s'.items[y].stamp <==> Latest(ops', answers', x) < Latest(ops', answers', y)
    {
      StepAt(s, capacity, op, s', answer, x);
      StepAt(s, capacity, op, s', answer, y);
      CountMore(ops, answers, op, answer, x);
      CountMore(ops, answers, op, answer, y);
      assert Tells(s, ops, answers, x) && Tells(s, ops, answers, y);
      hide Kept, Count, Latest, Step, IsLastValue, Removes;
    }
  }

  lemma {:induction false} Answered<V>(s: Lfu<V>, capacity: nat, ops: seq<Op<V>>, answers: seq<Answer<V>>,
                                       op: Op<V>, s': Lfu<V>, answer: Answer<V>)
    requires |answers| == |ops| && Reflects(s, ops, answers) && Step(s, capacity, op, s', answer)
    ensures Owed(capacity, ops, answers, op, answer)
  {
    KeptIs(s, ops, answers);
    hide Kept, Count, Latest, IsLastValue;
    match op
    case Get(key) => assert Tells(s, ops, answers, key);
    case Put(key, _) =>
      if answer.pair.Some? {
        var victim := answer.pair.value.key;
        assert Tells(s, ops, answers, victim);
        forall k | k in s.items && k != victim
          ensures UsedLess(ops, answers, victim, k)
        {
          assert Tells(s, ops, answers, k) && Before(s.items[victim], s.items[k]);
        }
      }
    case Invalidate(_) =>
    case InvalidateRange(_, _) =>
  }

  lemma {:induction false} KeptIs<V>(s: Lfu<V>, ops: seq<Op<V>>, answers: seq<Answer<V>>)
    requires |answers| == |ops| && Reflects(s, ops, answers)
    ensures Kept(ops, answers) == s.items.Keys && |Kept(ops, answers)| == |s.items|
  {
    hide Kept, Count, Latest, IsLastValue;
    forall key
      ensures key in Kept(ops, answers) <==> key in s.items.Keys
    {
      assert Tells(s, ops, answers, key);
    }
    assert |s.items.Keys| == |s.items|;
  }

  // ----- whole runs -----

  /** Every answer of a run is the one owed to its operation after those before it. */
  ghost predicate AllOwed<V>(capacity: nat, ops: seq<Op<V>>, answers: seq<Answer<V>>)
    requires |answers| == |ops|
  {
    forall i :: 0 <= i < |ops| ==> Owed(capacity, ops[..i], answers[..i], ops[i], answers[i])
  }

  lemma {:induction false} ReflectsMore<V>(s: Lfu<V>, capacity: nat, ops: seq<Op<V>>, answers: seq<Answer<V>>,
                                           op: Op<V>, s': Lfu<V>, answer: Answer<V>)
    requires |answers| == |ops| && Reflects(s, ops, answers) && Step(s, capacity, op, s', answer)
    ensures Reflects(s', ops + [op], answers + [answer]) && Owed(capacity, ops, answers, op, answer)
  {
    Answered(s, capacity, ops, answers, op, s', answer);
    OrderMore(s, capacity, ops, answers, op, s', answer);
    hide Tells, Step, Owed, InOrder;
    forall key
      ensures Tells(s', ops + [op], answers + [answer], key)
    {
      assert Tells(s, ops, answers, key);
      TellsMore(s, capacity, ops, answers, op, s', answer, key);
    }
  }

  lemma {:induction false} AllOwedMore<V>(capacity: nat, ops: seq<Op<V>>, answers: seq<Answer<V>>, op: Op<V>, answer: Answer<V>)
    requires |answers| == |ops| && AllOwed(capacity, ops, answers) && Owed(capacity, ops, answers, op, answer)
    ensures AllOwed(capacity, ops + [op], answers + [answer])
  {
    var n, ops', answers' := |ops|, ops + [op], answers + [answer];
    hide Owed;
    forall i | 0 <= i < n + 1
      ensures Owed(capacity, ops'[..i], answers'[..i], ops'[i], answers'[i])
    {
      if i < n {
        assert ops'[..i] == ops[..i] && answers'[..i] == answers[..i];
      } else {
        assert ops'[..n] == ops && answers'[..n] == answers;
      }
    }
  }

  /**
   * From an empty cache the map holds after every run just the keys put and since then neither
   * evicted nor invalidated, each with the value of its last put, as many hits as it had puts and
   * answered gets, and last touches in the order of these; and every answer is the one owed.
   */
  lemma {:induction false} RunReflects<V>(states: seq<Lfu<V>>, capacity: nat, ops: seq<Op<V>>, answers: seq<Answer<V>>)
    requires Run(states, capacity, ops, answers) && states[0] == Lfu(map[], 0)
    ensures Reflects(states[|ops|], ops, answers)
    ensures AllOwed(capacity, ops, answers)
  {
    if ops != [] {
      var n := |ops| - 1;
      var front, given := ops[..n], answers[..n];
      assert Step(states[n], capacity, ops[n], states[n + 1], answers[n]);
      assert Run(states[..n + 1], capacity, front, given) by {
        hide Step;
      }
      hide Step, Reflects, Owed, AllOwed;
      RunReflects(states[..n + 1], capacity, front, given);
      assert states[..n + 1][n] == states[n];
      ReflectsMore(states[n], capacity, front, given, ops[n], states[n + 1], answers[n]);
      AllOwedMore(capacity, front, given, ops[n], answers[n]);
      assert ops == front + [ops[n]] && answers == given + [answers[n]];
    }
  }

  // ----- what is owed leaves no choice -----

  lemma {:induction false} LastValueIsUnique<V>(ops: seq<Op<V>>, key: Key, x: V, y: V)
    requires IsLastValue(ops, key, x) && IsLastValue(ops, key, y)
    ensures x == y
  {
    var i :| IsLastPut(ops, key, i) && x == ops[i].value;
    var j :| IsLastPut(ops, key, j) && y == ops[j].value;
    assert i == j;
  }

  lemma {:induction false} OwedIsUnique<V>(capacity: nat, ops: seq<Op<V>>, answers: seq<Answer<V>>, op: Op<V>, x: Answer<V>, y: Answer<V>)
    requires |answers| == |ops| && Owed(capacity, ops, answers, op, x) && Owed(capacity, ops, answers, op, y)
    ensures x == y
  {
    hide Kept, Count, Latest, IsLastValue;
    match op
    case Get(key) =>
      if x.value.Some? {
        LastValueIsUnique(ops, key, x.value.value, y.value.value);
      }
    case Put(key, _) =>
      if x.pair.Some? {
        var victim := x.pair.value.key;
        assert victim == y.pair.value.key;
        LastValueIsUnique(ops, victim, x.pair.value.value, y.pair.value.value);
      }
    case Invalidate(_) =>
    case InvalidateRange(_, _) =>
  }

  lemma {:induction false} AllOwedBefore<V>(capacity: nat, ops: seq<Op<V>>, answers: seq<Answer<V>>, n: nat)
    requires |answers| == |ops| == n + 1 && AllOwed(capacity, ops, answers)
    ensures AllOwed(capacity, ops[..n], answers[..n]) && Owed(capacity, ops[..n], answers[..n], ops[n], answers[n])
  {
    hide Owed;
    forall i | 0 <= i < n
      ensures Owed(capacity, ops[..n][..i], answers[..n][..i], ops[..n][i], answers[..n][i])
    {
      assert ops[..n][..i] == ops[..i] && answers[..n][..i] == answers[..i];
    }
  }

  /** The operations alone determine all answers owed. */
  lemma {:induction false} AllOwedIsUnique<V>(capacity: nat, ops: seq<Op<V>>, x: seq<Answer<V>>, y: seq<Answer<V>>)
    requires |x| == |y| == |ops| && AllOwed(capacity, ops, x) && AllOwed(capacity, ops, y)
    ensures x == y
  {
    if ops != [] {
      var n := |ops| - 1;
      hide AllOwed, Owed;
      AllOwedBefore(capacity, ops, x, n);
      AllOwedBefore(capacity, ops, y, n);
      AllOwedIsUnique(capacity, ops[..n], x[..n], y[..n]);
      OwedIsUnique(capacity, ops[..n], x[..n], ops[n], x[n], y[n]);
      SameFrontAndLast(x, y, n);
    }
  }

  lemma SameFrontAndLast<T>(x: seq<T>, y: seq<T>, n: nat)
    requires |x| == |y| == n + 1 && x[..n] == y[..n] && x[n] == y[n]
    ensures x == y
  {
    assert x == x[..n] + [x[n]] && y == y[..n] + [y[n]];
  }
}

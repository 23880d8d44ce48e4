/** Whole runs of the cache of frequency buckets. */
module LfuRuns {
  import opened LfuSpec
  import opened LfuHistory
  import opened GenericLfu

  method Do<V(==)>(c: GenericLfuCache<V>, op: Op<V>) returns (answer: Answer<V>)
    requires c.Valid() && Allowed(op)
    modifies c
    ensures c.Valid()
    ensures Step(old(c.State()), c.lenMax, op, c.State(), answer)
  {
    match op
    case Get(key) =>
      var value := c.Get(key);
      answer := Got(value);
    case Put(key, value) =>
      var pair := c.Put(key, value);
      answer := Evicted(pair);
    case Invalidate(key) =>
      c.Invalidate(key);
      answer := Done;
    case InvalidateRange(lo, hi) =>
      c.InvalidateRange(lo, hi);
      answer := Done;
  }

  /** On every run the cache gives the answers of the map of hit counts and last touches: those owed. */
  method RunLfu<V(==)>(lenMax: nat, ops: seq<Op<V>>) returns (c: GenericLfuCache<V>, answers: seq<Answer<V>>, ghost states: seq<Lfu<V>>)
    requires lenMax > 0 && forall i :: 0 <= i < |ops| ==> Allowed(ops[i])
    ensures c.Valid() && Run(states, lenMax, ops, answers)
    ensures states[0] == Lfu(map[], 0) && states[|ops|] == c.State()
    ensures AllOwed(lenMax, ops, answers)
  {
    hide Step, AllOwed;
    c := new GenericLfuCache<V>(lenMax);
    answers, states := [], [c.State()];
    for i := 0 to |ops|
      invariant c.Valid() && c.lenMax == lenMax
      invariant Run(states, lenMax, ops[..i], answers)
      invariant states[0] == Lfu(map[], 0) && states[i] == c.State()
    {
      var answer := Do(c, ops[i]);
      RunOneMore(states, lenMax, ops[..i], answers, ops[i], c.State(), answer);
      assert ops[..i + 1] == ops[..i] + [ops[i]];
      answers, states := answers + [answer], states + [c.State()];
    }
    assert ops[..|ops|] == ops;
    RunReflects(states, lenMax, ops, answers);
  }

  lemma RunOneMore<V>(states: seq<Lfu<V>>, capacity: nat, ops: seq<Op<V>>, answers: seq<Answer<V>>, op: Op<V>, s: Lfu<V>, answer: Answer<V>)
    requires Run(states, capacity, ops, answers) && Step(states[|ops|], capacity, op, s, answer)
    ensures Run(states + [s], capacity, ops + [op], answers + [answer])
  {
    hide Step;
  }
}

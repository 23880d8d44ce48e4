/** The semaphore protocol around the queue, as interleaved steps of one producer and any number of consumers. */
module BoundedBuffer {
  import opened Options
  import opened Sums

  import opened CommunicationQueue

  /**
   * A process: the next thing it does, how many rounds it has finished, and its registers.
   * Producer: 0 wait(full), 1 wait(mutex), 2 write the slot, 3 advance tail, 4 load size, 5 store
   * size + 1, 6 post(mutex), 7 post(empty). Consumer: 0 wait(empty), 1 wait(mutex), 2 read the
   * slot, 3 advance head, 4 load size, 5 store size - 1, 6 post(mutex), 7 post(full).
   */
  datatype Proc = Proc(pc: nat, done: nat, val: int, tmp: int)

  datatype State = State(empty: nat, full: nat, mutex: nat, ring: Ring<int>, p: Proc, cs: seq<Proc>,
                         pushed: seq<int>, popped: seq<int>)

  /** The semaphores start at 0, the capacity and 1. */
  ghost predicate Init(s: State, capacity: nat, consumers: nat) {
    && capacity > 0
    && s.empty == 0 && s.full == capacity && s.mutex == 1
    && |s.ring.item| == capacity && s.ring.head == s.ring.tail == s.ring.size == 0
    && s.p == Proc(0, 0, 0, 0)
    && |s.cs| == consumers && (forall i :: 0 <= i < consumers ==> s.cs[i] == Proc(0, 0, 0, 0))
    && s.pushed == s.popped == []
  }

  /** What the producer does next, pushing v when it pushes; nothing when it is blocked or has finished. */
  function ProducerStep(s: State, v: int, count: nat): Option<State> {
    var p, r := s.p, s.ring;
    if p.pc == 0 && p.done < |s.cs| * count && s.full > 0 then Some(s.(full := s.full - 1, p := p.(pc := 1)))
    else if p.pc == 1 && s.mutex > 0 then Some(s.(mutex := s.mutex - 1, p := p.(pc := 2)))
    else if p.pc == 2 && r.tail < |r.item| then Some(s.(ring := r.(item := r.item[r.tail := v]), p := p.(pc := 3, val := v)))
    else if p.pc == 3 && |r.item| > 0 then Some(s.(ring := r.(tail := (r.tail + 1) % |r.item|), p := p.(pc := 4)))
    else if p.pc == 4 then Some(s.(p := p.(pc := 5, tmp := r.size)))
    else if p.pc == 5 && p.tmp >= 0 then
      Some(s.(ring := r.(size := p.tmp + 1), p := p.(pc := 6), pushed := s.pushed + [p.val]))
    else if p.pc == 6 then Some(s.(mutex := s.mutex + 1, p := p.(pc := 7)))
    else if p.pc == 7 then Some(s.(empty := s.empty + 1, p := p.(pc := 0, done := p.done + 1)))
    else None
  }

  function ConsumerStep(s: State, i: nat, count: nat): Option<State>
    requires i < |s.cs|
  {
    var c, r := s.cs[i], s.ring;
    if c.pc == 0 && c.done < count && s.empty > 0 then Some(s.(empty := s.empty - 1, cs := s.cs[i := c.(pc := 1)]))
    else if c.pc == 1 && s.mutex > 0 then Some(s.(mutex := s.mutex - 1, cs := s.cs[i := c.(pc := 2)]))
    else if c.pc == 2 && r.head < |r.item| then Some(s.(cs := s.cs[i := c.(pc := 3, val := r.item[r.head])]))
    else if c.pc == 3 && |r.item| > 0 then
      Some(s.(ring := r.(head := (r.head + 1) % |r.item|), cs := s.cs[i := c.(pc := 4)]))
    else if c.pc == 4 then Some(s.(cs := s.cs[i := c.(pc := 5, tmp := r.size)]))
    else if c.pc == 5 && c.tmp >= 1 then
      Some(s.(ring := r.(size := c.tmp - 1), cs := s.cs[i := c.(pc := 6)], popped := s.popped + [c.val]))
    else if c.pc == 6 then Some(s.(mutex := s.mutex + 1, cs := s.cs[i := c.(pc := 7)]))
    else if c.pc == 7 then Some(s.(full := s.full + 1, cs := s.cs[i := c.(pc := 0, done := c.done + 1)]))
    else None
  }

  /** One step of some process; drawn holds the values that the producer draws, one for each of its rounds. */
  ghost predicate Next(s: State, s': State, drawn: seq<int>, count: nat) {
    || (s.p.done < |drawn| && ProducerStep(s, drawn[s.p.done], count) == Some(s'))
    || (exists i :: 0 <= i < |s.cs| && ConsumerStep(s, i, count) == Some(s'))
  }

  // ----- what every step keeps -----

  /** Holds a claim on a slot (producer) or on an item (consumer) that size does not show yet. */
  function Claims(c: Proc): nat { if 1 <= c.pc <= 5 then 1 else 0 }

  /** Is between wait(mutex) and post(mutex). */
  function Inside(c: Proc): nat { if 2 <= c.pc <= 6 then 1 else 0 }

  /** Has changed size but not posted the counterpart yet. */
  function Owes(c: Proc): nat { if 6 <= c.pc <= 7 then 1 else 0 }

  /** Items moved through the queue. */
  function Moved(c: Proc): nat { c.done + if c.pc >= 6 then 1 else 0 }

  /** Steps taken. */
  function Steps(c: Proc): nat { 8 * c.done + c.pc }

  ghost predicate Consistent(r: Ring<int>, pushed: seq<int>, popped: seq<int>) {
    Ok(r) && pushed == popped + Values(r)
  }

  /** What the producer may rely on at each of its steps inside the mutex. */
  ghost predicate ProducerView(p: Proc, r: Ring<int>, pushed: seq<int>, popped: seq<int>) {
    if p.pc == 2 || p.pc == 6 then Consistent(r, pushed, popped)
    else if p.pc == 3 then Consistent(r, pushed, popped) && r.item[r.tail] == p.val
    else
      && |r.item| > 0 && r.size < |r.item|
      && Consistent(r.(tail := (r.head + r.size) % |r.item|), pushed, popped)
      && r.item[(r.head + r.size) % |r.item|] == p.val
      && r.tail == (r.head + r.size + 1) % |r.item|
      && (p.pc == 5 ==> p.tmp == r.size)
  }

  /** The same for a consumer. */
  ghost predicate ConsumerView(c: Proc, r: Ring<int>, pushed: seq<int>, popped: seq<int>) {
    if c.pc == 2 || c.pc == 6 then Consistent(r, pushed, popped)
    else if c.pc == 3 then Consistent(r, pushed, popped) && r.item[r.head] == c.val
    else
      && r.size > 0
      && Consistent(r.(size := r.size - 1), pushed, popped + [c.val])
      && (c.pc == 5 ==> c.tmp == r.size)
  }

  ghost predicate Balanced(s: State) {
    && s.mutex + Inside(s.p) + Total(s.cs, Inside) == 1
    && s.full + Claims(s.p) + s.ring.size + Total(s.cs, Owes) == |s.ring.item|
    && s.empty + Total(s.cs, Claims) + Owes(s.p) == s.ring.size
    && |s.pushed| == Moved(s.p) && |s.popped| == Total(s.cs, Moved)
  }

  ghost predicate Rounds(c: Proc, rounds: nat) {
    c.pc <= 7 && c.done <= rounds && (c.pc > 0 ==> c.done < rounds)
  }

  ghost predicate Counts(s: State, count: nat) {
    && Balanced(s)
    && Rounds(s.p, |s.cs| * count)
    && (forall i :: 0 <= i < |s.cs| ==> Rounds(s.cs[i], count))
  }

  ghost predicate Views(s: State) {
    && (s.mutex == 1 ==> Consistent(s.ring, s.pushed, s.popped))
    && (Inside(s.p) == 1 ==> ProducerView(s.p, s.ring, s.pushed, s.popped))
    && (forall i :: 0 <= i < |s.cs| && Inside(s.cs[i]) == 1 ==> ConsumerView(s.cs[i], s.ring, s.pushed, s.popped))
  }

  ghost predicate Inv(s: State, count: nat) {
    |s.ring.item| > 0 && Counts(s, count) && Views(s)
  }

  /** Pushed so far are the first values drawn, and the one on its way is the next. */
  ghost predicate Drawn(s: State, drawn: seq<int>) {
    && |s.pushed| == Moved(s.p) && s.pushed <= drawn
    && (3 <= s.p.pc <= 5 ==> s.p.done < |drawn| && s.p.val == drawn[s.p.done])
  }

  lemma InitInv(s: State, capacity: nat, consumers: nat, count: nat)
    requires Init(s, capacity, consumers)
    ensures Inv(s, count)
  {
    TotalOfSame(s.cs, Inside, 0);
    TotalOfSame(s.cs, Claims, 0);
    TotalOfSame(s.cs, Owes, 0);
    TotalOfSame(s.cs, Moved, 0);
    assert Values(s.ring) == [];
  }

  /** Whoever is inside the mutex is there alone. */
  lemma MutualExclusion(s: State, count: nat)
    requires Counts(s, count)
    ensures Inside(s.p) == 1 ==> s.mutex == 0 && forall i :: 0 <= i < |s.cs| ==> Inside(s.cs[i]) == 0
    ensures forall i :: 0 <= i < |s.cs| && Inside(s.cs[i]) == 1 ==> s.mutex == 0 && Inside(s.p) == 0
    ensures forall i, j :: 0 <= i < |s.cs| && 0 <= j < |s.cs| && i != j && Inside(s.cs[i]) == 1 ==> Inside(s.cs[j]) == 0
    ensures s.mutex == 1 ==> Inside(s.p) == 0 && forall i :: 0 <= i < |s.cs| ==> Inside(s.cs[i]) == 0
  {
    forall i | 0 <= i < |s.cs|
      ensures Inside(s.cs[i]) <= Total(s.cs, Inside)
    {
      TotalHas(s.cs, i, Inside);
    }
    forall i, j | 0 <= i < |s.cs| && 0 <= j < |s.cs| && i != j && Inside(s.cs[i]) == 1
      ensures Inside(s.cs[j]) == 0
    {
      TotalHasTwo(s.cs, if i < j then i else j, if i < j then j else i, Inside);
    }
  }

  lemma TotalsUpdate(cs: seq<Proc>, i: nat, c: Proc)
    requires i < |cs|
    ensures Total(cs[i := c], Inside) + Inside(cs[i]) == Total(cs, Inside) + Inside(c)
    ensures Total(cs[i := c], Claims) + Claims(cs[i]) == Total(cs, Claims) + Claims(c)
    ensures Total(cs[i := c], Owes) + Owes(cs[i]) == Total(cs, Owes) + Owes(c)
    ensures Total(cs[i := c], Moved) + Moved(cs[i]) == Total(cs, Moved) + Moved(c)
    ensures Total(cs[i := c], Steps) + Steps(cs[i]) == Total(cs, Steps) + Steps(c)
  {
    TotalUpdate(cs, i, c, Inside);
    TotalUpdate(cs, i, c, Claims);
    TotalUpdate(cs, i, c, Owes);
    TotalUpdate(cs, i, c, Moved);
    TotalUpdate(cs, i, c, Steps);
  }

  /** Never push full: a producer inside has a free slot until it stores the new size. */
  lemma NeverPushFull(s: State, count: nat)
    requires Inv(s, count) && 2 <= s.p.pc <= 5
    ensures s.ring.size < |s.ring.item|
  {}

  /** Never pop empty: a consumer inside has an item until it stores the new size. */
  lemma NeverPopEmpty(s: State, count: nat, i: nat)
    requires Inv(s, count) && i < |s.cs| && 2 <= s.cs[i].pc <= 5
    ensures s.ring.size > 0
  {
    TotalHas(s.cs, i, Claims);
  }

  // ----- the producer -----

  /** Writing the slot behind the tail touches no queued value. */
  lemma WriteSlot(r: Ring<int>, v: int)
    requires Ok(r) && r.size < |r.item|
    ensures Ok(r.(item := r.item[r.tail := v])) && Values(r.(item := r.item[r.tail := v])) == Values(r)
  {
    forall i | 0 <= i < r.size
      ensures Values(r.(item := r.item[r.tail := v]))[i] == Values(r)[i]
    {
      PlacesDiffer(r.head, i, r.size, |r.item|);
    }
  }

  /** Advancing the tail. */
  lemma AdvanceTail(r: Ring<int>)
    requires Ok(r) && r.size < |r.item|
    ensures (r.tail + 1) % |r.item| == (r.head + r.size + 1) % |r.item|
    ensures r.tail < |r.item|
  {
    var n := |r.item|;
    Division.Unique(r.head + r.size + 1, (r.head + r.size) / n + (r.tail + 1) / n, (r.tail + 1) % n, n);
  }

  /** Storing the size publishes the value. */
  lemma StoreSize(r: Ring<int>, v: int)
    requires |r.item| > 0 && r.size < |r.item| && Ok(r.(tail := (r.head + r.size) % |r.item|))
    requires r.item[(r.head + r.size) % |r.item|] == v && r.tail == (r.head + r.size + 1) % |r.item|
    ensures var r' := r.(size := r.size + 1);
      Ok(r') && Values(r') == Values(r.(tail := (r.head + r.size) % |r.item|)) + [v]
  {}

  lemma ProducerViewKept(s: State, v: int, s': State, count: nat)
    requires Inv(s, count) && ProducerStep(s, v, count) == Some(s') && 2 <= s.p.pc <= 5
    ensures ProducerView(s'.p, s'.ring, s'.pushed, s'.popped)
    ensures |s'.ring.item| == |s.ring.item|
    ensures s'.ring.size == s.ring.size + if s.p.pc == 5 then 1 else 0
  {
    NeverPushFull(s, count);
    var r, p := s.ring, s.p;
    if p.pc == 2 {
      WriteSlot(r, v);
    } else if p.pc == 3 {
      AdvanceTail(r);
    } else if p.pc == 5 {
      StoreSize(r, p.val);
    }
  }

  lemma ProducerKeeps(s: State, v: int, s': State, drawn: seq<int>, count: nat)
    requires Inv(s, count) && ProducerStep(s, v, count) == Some(s')
    ensures Inv(s', count)
    ensures Drawn(s, drawn) && s.p.done < |drawn| && v == drawn[s.p.done] ==> Drawn(s', drawn)
  {
    MutualExclusion(s, count);
    if 2 <= s.p.pc <= 5 {
      ProducerViewKept(s, v, s', count);
    }
    hide Total, Consistent;
  }

  // ----- a consumer -----

  lemma ConsumerViewKept(s: State, i: nat, s': State, count: nat)
    requires Inv(s, count) && i < |s.cs| && ConsumerStep(s, i, count) == Some(s') && 2 <= s.cs[i].pc <= 5
    ensures ConsumerView(s'.cs[i], s'.ring, s'.pushed, s'.popped)
    ensures |s'.ring.item| == |s.ring.item|
    ensures s'.ring.size == s.ring.size - if s.cs[i].pc == 5 then 1 else 0
  {
    NeverPopEmpty(s, count, i);
    var r, c := s.ring, s.cs[i];
    if c.pc == 3 {
      PopValues(r);
      assert s.popped + ([c.val] + Values(Ring((r.head + 1) % |r.item|, r.tail, r.size - 1, r.item)))
        == s.popped + [c.val] + Values(Ring((r.head + 1) % |r.item|, r.tail, r.size - 1, r.item));
    }
  }

  lemma ConsumerBalance(s: State, i: nat, s': State, count: nat)
    requires Inv(s, count) && i < |s.cs| && ConsumerStep(s, i, count) == Some(s')
    ensures Balanced(s') && |s'.ring.item| == |s.ring.item|
  {
    hide Total, ConsumerView, ProducerView, Views;
    ConsumerOnly(s, i, s', count);
    TotalsUpdate(s.cs, i, s'.cs[i]);
    if 2 <= s.cs[i].pc <= 5 {
      ConsumerViewKept(s, i, s', count);
    }
  }

  /** Only consumer i changes among the consumers, and the producer does not. */
  lemma ConsumerOnly(s: State, i: nat, s': State, count: nat)
    requires i < |s.cs| && ConsumerStep(s, i, count) == Some(s')
    ensures s'.p == s.p && |s'.cs| == |s.cs| && s'.cs == s.cs[i := s'.cs[i]] && |s'.ring.item| == |s.ring.item|
    ensures s.cs[i].pc <= 7 ==> Steps(s'.cs[i]) == Steps(s.cs[i]) + 1
    ensures s.pushed <= s'.pushed && s.popped <= s'.popped
  {}

  lemma ConsumerCounts(s: State, i: nat, s': State, count: nat)
    requires Inv(s, count) && i < |s.cs| && ConsumerStep(s, i, count) == Some(s')
    ensures Counts(s', count) && |s'.ring.item| == |s.ring.item|
  {
    ConsumerBalance(s, i, s', count);
    hide Balanced, Views;
  }

  lemma ConsumerViews(s: State, i: nat, s': State, count: nat)
    requires Inv(s, count) && i < |s.cs| && ConsumerStep(s, i, count) == Some(s')
    ensures Views(s')
  {
    MutualExclusion(s, count);
    if 2 <= s.cs[i].pc <= 5 {
      ConsumerViewKept(s, i, s', count);
    }
    ConsumerCounts(s, i, s', count);
    MutualExclusion(s', count);
    hide Total, Consistent, Counts, Values, Ok;
  }

  lemma ConsumerKeeps(s: State, i: nat, s': State, count: nat)
    requires Inv(s, count) && i < |s.cs| && ConsumerStep(s, i, count) == Some(s')
    ensures Inv(s', count) && s'.p == s.p && s'.pushed == s.pushed
  {
    ConsumerCounts(s, i, s', count);
    ConsumerViews(s, i, s', count);
    hide Counts, Views;
  }

  // ----- every run -----

  /** A run: the state after every step, from an initial one, with as many values drawn as are to be consumed. */
  ghost predicate Run(run: seq<State>, drawn: seq<int>, capacity: nat, consumers: nat, count: nat) {
    && run != [] && Init(run[0], capacity, consumers) && |drawn| == consumers * count
    && forall k :: 0 <= k < |run| - 1 ==> Next(run[k], run[k + 1], drawn, count)
  }

  lemma ProducerProgress(s: State, v: int, s': State, count: nat)
    requires ProducerStep(s, v, count) == Some(s') && s.p.pc <= 7
    ensures s'.cs == s.cs && |s'.ring.item| == |s.ring.item| && Steps(s'.p) == Steps(s.p) + 1
    ensures s.pushed <= s'.pushed && s.popped <= s'.popped
  {}

  lemma ConsumerProgress(s: State, i: nat, s': State, count: nat)
    requires i < |s.cs| && ConsumerStep(s, i, count) == Some(s') && s.cs[i].pc <= 7
    ensures s'.p == s.p && |s'.cs| == |s.cs| && |s'.ring.item| == |s.ring.item|
    ensures Total(s'.cs, Steps) == Total(s.cs, Steps) + 1
    ensures s.pushed <= s'.pushed && s.popped <= s'.popped
  {
    hide Total, ConsumerStep, Steps;
    ConsumerOnly(s, i, s', count);
    TotalsUpdate(s.cs, i, s'.cs[i]);
  }

  lemma StepKeeps(s: State, s': State, drawn: seq<int>, count: nat)
    requires Inv(s, count) && Drawn(s, drawn) && Next(s, s', drawn, count)
    ensures Inv(s', count) && Drawn(s', drawn)
    ensures |s'.cs| == |s.cs| && |s'.ring.item| == |s.ring.item|
    ensures Steps(s'.p) + Total(s'.cs, Steps) == Steps(s.p) + Total(s.cs, Steps) + 1
    ensures s.pushed <= s'.pushed && s.popped <= s'.popped
  {
    assert Rounds(s.p, |s.cs| * count) && forall i :: 0 <= i < |s.cs| ==> Rounds(s.cs[i], count);
    hide Inv, Total, ProducerStep, ConsumerStep;
    if s.p.done < |drawn| && ProducerStep(s, drawn[s.p.done], count) == Some(s') {
      ProducerKeeps(s, drawn[s.p.done], s', drawn, count);
      ProducerProgress(s, drawn[s.p.done], s', count);
    } else {
      var i :| 0 <= i < |s.cs| && ConsumerStep(s, i, count) == Some(s');
      ConsumerKeeps(s, i, s', count);
      ConsumerProgress(s, i, s', count);
    }
  }

  /** Every state of every run keeps the invariant, and every step is progress. */
  lemma {:induction false} RunKeeps(run: seq<State>, drawn: seq<int>, capacity: nat, consumers: nat, count: nat)
    requires Run(run, drawn, capacity, consumers, count)
    ensures var s := run[|run| - 1];
      && Inv(s, count) && Drawn(s, drawn)
      && |s.cs| == consumers && |s.ring.item| == capacity
      && Steps(s.p) + Total(s.cs, Steps) == |run| - 1
    decreases |run|
  {
    if |run| == 1 {
      InitInv(run[0], capacity, consumers, count);
      TotalOfSame(run[0].cs, Steps, 0);
    } else {
      var front := run[..|run| - 1];
      assert Run(front, drawn, capacity, consumers, count);
      RunKeeps(front, drawn, capacity, consumers, count);
      assert Next(run[|run| - 2], run[|run| - 1], drawn, count);
      StepKeeps(run[|run| - 2], run[|run| - 1], drawn, count);
    }
  }

  /** In every reachable state: the asserts, mutual exclusion, the semaphores, and first drawn, first out. */
  lemma Safety(run: seq<State>, drawn: seq<int>, capacity: nat, consumers: nat, count: nat)
    requires Run(run, drawn, capacity, consumers, count)
    ensures var s := run[|run| - 1];
      && |s.cs| == consumers
      && (2 <= s.p.pc <= 5 ==> s.ring.size < capacity)
      && (forall i :: 0 <= i < consumers && 2 <= s.cs[i].pc <= 5 ==> s.ring.size > 0)
      && Inside(s.p) + Total(s.cs, Inside) <= 1
      && s.full + s.empty + Claims(s.p) + Total(s.cs, Claims) + Owes(s.p) + Total(s.cs, Owes) == capacity
      && s.popped <= s.pushed <= drawn
  {
    RunKeeps(run, drawn, capacity, consumers, count);
    var s := run[|run| - 1];
    forall i | 0 <= i < consumers && 2 <= s.cs[i].pc <= 5
      ensures s.ring.size > 0
    {
      NeverPopEmpty(s, count, i);
    }
    PoppedIsPrefix(s, count);
  }

  lemma PoppedIsPrefix(s: State, count: nat)
    requires Inv(s, count)
    ensures s.popped <= s.pushed
  {
    MutualExclusion(s, count);
    if s.mutex == 0 && Inside(s.p) == 0 {
      var i := SomeoneInside(s.cs);
      assert s.popped <= s.popped + [s.cs[i].val];
    }
  }

  lemma {:induction false} SomeoneInside(cs: seq<Proc>) returns (i: nat)
    requires Total(cs, Inside) == 1
    ensures i < |cs| && Inside(cs[i]) == 1
  {
    if Inside(cs[0]) == 1 {
      i := 0;
    } else {
      i := SomeoneInside(cs[1..]);
      i := i + 1;
    }
  }

  ghost predicate Final(s: State, count: nat) {
    s.p.pc == 0 && s.p.done == |s.cs| * count &&
    forall i :: 0 <= i < |s.cs| ==> s.cs[i].pc == 0 && s.cs[i].done == count
  }

  /** No state of a run is stuck before every process has finished. */
  lemma NoDeadlock(s: State, drawn: seq<int>, count: nat)
    requires Inv(s, count) && !Final(s, count) && |drawn| == |s.cs| * count
    ensures exists s' :: Next(s, s', drawn, count)
  {
    if s.p.pc > 1 || (s.p.pc == 1 && s.mutex > 0) {
      ProducerGoes(s, drawn, count);
    } else if i :| 0 <= i < |s.cs| && (s.cs[i].pc > 1 || (s.cs[i].pc == 1 && s.mutex > 0)) {
      ConsumerGoes(s, i, drawn, count);
    } else {
      AllWaiting(s, drawn, count);
    }
  }

  lemma ProducerGoes(s: State, drawn: seq<int>, count: nat)
    requires Inv(s, count) && |drawn| == |s.cs| * count
    requires s.p.pc > 1 || (s.p.pc == 1 && s.mutex > 0) || (s.p.pc == 0 && s.p.done < |s.cs| * count && s.full > 0)
    ensures exists s' :: Next(s, s', drawn, count)
  {
    assert ProducerStep(s, drawn[s.p.done], count).Some?;
    assert Next(s, ProducerStep(s, drawn[s.p.done], count).value, drawn, count);
  }

  lemma ConsumerGoes(s: State, i: nat, drawn: seq<int>, count: nat)
    requires Inv(s, count) && i < |s.cs|
    requires var c := s.cs[i]; c.pc > 1 || (c.pc == 1 && s.mutex > 0) || (c.pc == 0 && c.done < count && s.empty > 0)
    ensures exists s' :: Next(s, s', drawn, count)
  {
    assert ConsumerStep(s, i, count).Some?;
    assert Next(s, ConsumerStep(s, i, count).value, drawn, count);
  }

  lemma AllWaiting(s: State, drawn: seq<int>, count: nat)
    requires Inv(s, count) && !Final(s, count) && |drawn| == |s.cs| * count
    requires s.p.pc == 0 || (s.p.pc == 1 && s.mutex == 0)
    requires forall i :: 0 <= i < |s.cs| ==> s.cs[i].pc == 0 || (s.cs[i].pc == 1 && s.mutex == 0)
    ensures exists s' :: Next(s, s', drawn, count)
  {
    TotalOfSame(s.cs, Inside, 0);
    TotalOfSame(s.cs, Claims, 0);
    TotalOfSame(s.cs, Owes, 0);
    assert s.ring.size == |s.pushed| - |s.popped|;
    if s.p.done < |s.cs| * count && s.full > 0 {
      ProducerGoes(s, drawn, count);
    } else {
      TotalLong(s.cs, Moved, count);
      if Total(s.cs, Moved) < |s.cs| * count {
        var i := TotalShort(s.cs, Moved, count);
        ConsumerGoes(s, i, drawn, count);
      } else {
        AllMoved(s, count);
      }
    }
  }

  /** When every item has been moved and nobody is on the way, everybody has finished. */
  lemma AllMoved(s: State, count: nat)
    requires Inv(s, count) && Total(s.cs, Moved) == |s.cs| * count
    requires s.p.pc <= 1 && forall i :: 0 <= i < |s.cs| ==> s.cs[i].pc <= 1
    ensures Final(s, count)
  {
    forall i | 0 <= i < |s.cs|
      ensures Moved(s.cs[i]) == count
    {
      MovedAll(s.cs, i, count);
    }
    assert |s.popped| <= |s.pushed| by { PoppedIsPrefix(s, count); }
    hide Total, Views;
  }

  lemma {:induction false} MovedAll(cs: seq<Proc>, i: nat, count: nat)
    requires i < |cs| && Total(cs, Moved) == |cs| * count
    requires forall j :: 0 <= j < |cs| ==> Moved(cs[j]) <= count
    ensures Moved(cs[i]) == count
  {
    TotalLong(cs[1..], Moved, count);
    OneMore(|cs|, count);
    if i > 0 {
      MovedAll(cs[1..], i - 1, count);
    }
  }

  ghost predicate Stuck(s: State, drawn: seq<int>, count: nat) {
    forall s' :: !Next(s, s', drawn, count)
  }

  /** A run that can go no further has consumed every value drawn exactly once, in order, and left the queue empty. */
  lemma AtTheEnd(run: seq<State>, drawn: seq<int>, capacity: nat, consumers: nat, count: nat)
    requires Run(run, drawn, capacity, consumers, count)
    requires Stuck(run[|run| - 1], drawn, count)
    ensures var s := run[|run| - 1];
      && |s.cs| == consumers && Final(s, count)
      && s.popped == s.pushed == drawn
      && s.ring.size == 0 && s.full == capacity && s.empty == 0 && s.mutex == 1
      && |run| - 1 == 16 * (consumers * count)
  {
    var s := run[|run| - 1];
    RunKeeps(run, drawn, capacity, consumers, count);
    if !Final(s, count) {
      NoDeadlock(s, drawn, count);
    }
    FinalState(s, count);
  }

  lemma FinalState(s: State, count: nat)
    requires Inv(s, count) && Final(s, count)
    ensures s.popped == s.pushed && |s.popped| == |s.cs| * count
    ensures s.ring.size == 0 && s.full == |s.ring.item| && s.empty == 0 && s.mutex == 1
    ensures Steps(s.p) + Total(s.cs, Steps) == 16 * (|s.cs| * count)
  {
    TotalOfSame(s.cs, Inside, 0);
    TotalOfSame(s.cs, Claims, 0);
    TotalOfSame(s.cs, Owes, 0);
    TotalOfSame(s.cs, Moved, count);
    TotalOfSame(s.cs, Steps, 8 * count);
    EightTimes(|s.cs|, count);
    PoppedIsPrefix(s, count);
  }

  /** No run is longer than the work there is, so every run comes to an end. */
  lemma RunsEnd(run: seq<State>, drawn: seq<int>, capacity: nat, consumers: nat, count: nat)
    requires Run(run, drawn, capacity, consumers, count)
    ensures |run| - 1 <= 16 * (consumers * count)
  {
    RunKeeps(run, drawn, capacity, consumers, count);
    var s := run[|run| - 1];
    forall i | 0 <= i < |s.cs|
      ensures Steps(s.cs[i]) <= 8 * count
    {
      assert Rounds(s.cs[i], count);
    }
    assert Rounds(s.p, |s.cs| * count);
    assert Steps(s.p) <= 8 * (|s.cs| * count);
    hide Inv, Total, Steps, Rounds, Run;
    TotalLong(s.cs, Steps, 8 * count);
    EightTimes(|s.cs|, count);
  }

  lemma EightTimes(a: nat, b: nat)
    ensures a * (8 * b) == 8 * (a * b)
  {}
}

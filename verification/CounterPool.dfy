/** A pool of counters shared by more workers than counters, as interleaved steps. */
module CounterPool {
  import opened Options
  import opened Sums

  /**
   * A worker: the next thing it does, the counter it took, its register, and its finished rounds.
   * 0 acquire a permit, 1 lock the pool, 2 read the top, 3 pop, 4 unlock, 5 load the counter or
   * leave the loop, 6 store it incremented, 7 lock, 8 push, 9 unlock, 10 release the permit, 11 done.
   */
  datatype Worker = Worker(pc: nat, cell: nat, tmp: int, rounds: nat)

  datatype State = State(permits: nat, mutex: nat, pool: seq<nat>, cells: seq<nat>, ws: seq<Worker>)

  /** All counters are 0 and in the pool, and there are as many permits. */
  ghost predicate Init(s: State, counters: nat, workers: nat) {
    && s.permits == counters && s.mutex == 1
    && |s.pool| == |s.cells| == counters
    && (forall i :: 0 <= i < counters ==> s.pool[i] == i && s.cells[i] == 0)
    && |s.ws| == workers && (forall i :: 0 <= i < workers ==> s.ws[i] == Worker(0, 0, 0, 0))
  }

  /** What worker i does next; nothing when it is blocked, has finished or would crash. */
  function WorkerStep(s: State, i: nat, count: nat): Option<State>
    requires i < |s.ws|
  {
    var w := s.ws[i];
    if w.pc == 0 && s.permits > 0 then Some(s.(permits := s.permits - 1, ws := s.ws[i := w.(pc := 1)]))
    else if w.pc == 1 && s.mutex > 0 then Some(s.(mutex := s.mutex - 1, ws := s.ws[i := w.(pc := 2)]))
    else if w.pc == 2 && s.pool != [] then Some(s.(ws := s.ws[i := w.(pc := 3, cell := s.pool[|s.pool| - 1])]))
    else if w.pc == 3 && s.pool != [] then Some(s.(pool := s.pool[..|s.pool| - 1], ws := s.ws[i := w.(pc := 4)]))
    else if w.pc == 4 then Some(s.(mutex := s.mutex + 1, ws := s.ws[i := w.(pc := 5)]))
    else if w.pc == 5 && w.rounds >= count then Some(s.(ws := s.ws[i := w.(pc := 7)]))
    else if w.pc == 5 && w.cell < |s.cells| then Some(s.(ws := s.ws[i := w.(pc := 6, tmp := s.cells[w.cell])]))
    else if w.pc == 6 && w.cell < |s.cells| && w.tmp >= 0 then
      Some(s.(cells := s.cells[w.cell := w.tmp + 1], ws := s.ws[i := w.(pc := 5, rounds := w.rounds + 1)]))
    else if w.pc == 7 && s.mutex > 0 then Some(s.(mutex := s.mutex - 1, ws := s.ws[i := w.(pc := 8)]))
    else if w.pc == 8 then Some(s.(pool := s.pool + [w.cell], ws := s.ws[i := w.(pc := 9)]))
    else if w.pc == 9 then Some(s.(mutex := s.mutex + 1, ws := s.ws[i := w.(pc := 10)]))
    else if w.pc == 10 then Some(s.(permits := s.permits + 1, ws := s.ws[i := w.(pc := 11)]))
    else None
  }

  ghost predicate Next(s: State, s': State, count: nat) {
    exists i :: 0 <= i < |s.ws| && WorkerStep(s, i, count) == Some(s')
  }

  // ----- what every step keeps -----

  function HasPermit(w: Worker): nat { if 1 <= w.pc <= 10 then 1 else 0 }

  function Inside(w: Worker): nat { if 2 <= w.pc <= 4 || 8 <= w.pc <= 9 then 1 else 0 }

  /** Owns the counter it took. */
  function Owns(w: Worker): nat { if 4 <= w.pc <= 8 then 1 else 0 }

  function Rounds(w: Worker): nat { w.rounds }

  /** Steps taken, where every round of the loop is two. */
  function Steps(w: Worker): nat {
    2 * w.rounds + if w.pc <= 6 then w.pc else w.pc - 1
  }

  function Value(n: nat): nat { n }

  ghost predicate Balanced(s: State) {
    && s.permits + Total(s.ws, HasPermit) == |s.cells|
    && s.mutex + Total(s.ws, Inside) == 1
    && |s.pool| + Total(s.ws, Owns) == |s.cells|
    && Total(s.cells, Value) == Total(s.ws, Rounds)
  }

  ghost predicate PoolDistinct(s: State) {
    && (forall k :: 0 <= k < |s.pool| ==> s.pool[k] < |s.cells|)
    && (forall k, l :: 0 <= k < l < |s.pool| ==> s.pool[k] != s.pool[l])
  }

  /** The counter of worker i is nobody else's and not in the pool. */
  ghost predicate Exclusive(s: State, i: nat)
    requires i < |s.ws|
  {
    Owns(s.ws[i]) == 1 ==>
      && s.ws[i].cell < |s.cells|
      && s.ws[i].cell !in s.pool
      && (forall j :: 0 <= j < |s.ws| && j != i && Owns(s.ws[j]) == 1 ==> s.ws[j].cell != s.ws[i].cell)
      && (s.ws[i].pc == 6 ==> s.ws[i].tmp == s.cells[s.ws[i].cell])
  }

  ghost predicate InOrder(s: State, i: nat, count: nat)
    requires i < |s.ws|
  {
    var w := s.ws[i];
    && w.pc <= 11 && w.rounds <= count
    && (w.pc <= 4 ==> w.rounds == 0) && (w.pc == 6 ==> w.rounds < count) && (w.pc >= 7 ==> w.rounds == count)
    && (w.pc == 3 ==> s.pool != [] && w.cell == s.pool[|s.pool| - 1])
  }

  ghost predicate Inv(s: State, count: nat) {
    && Balanced(s) && PoolDistinct(s)
    && forall i :: 0 <= i < |s.ws| ==> Exclusive(s, i) && InOrder(s, i, count)
  }

  lemma InitInv(s: State, counters: nat, workers: nat, count: nat)
    requires Init(s, counters, workers)
    ensures Inv(s, count)
  {
    TotalOfSame(s.ws, HasPermit, 0);
    TotalOfSame(s.ws, Inside, 0);
    TotalOfSame(s.ws, Owns, 0);
    TotalOfSame(s.ws, Rounds, 0);
    TotalOfSame(s.cells, Value, 0);
  }

  /** At most one worker is inside the lock. */
  lemma Alone(s: State, i: nat, j: nat)
    requires Balanced(s) && i < |s.ws| && j < |s.ws| && i != j && Inside(s.ws[i]) == 1
    ensures Inside(s.ws[j]) == 0 && s.mutex == 0
  {
    TotalHasTwo(s.ws, if i < j then i else j, if i < j then j else i, Inside);
  }

  /** Owners have permits, and a worker about to pop has one too without owning a counter. */
  lemma {:induction false} OwnersHavePermits(ws: seq<Worker>)
    ensures Total(ws, Owns) <= Total(ws, HasPermit)
  {
    if ws != [] {
      OwnersHavePermits(ws[1..]);
    }
  }

  lemma {:induction false} OneMorePermit(ws: seq<Worker>, i: nat)
    requires i < |ws| && HasPermit(ws[i]) == 1 && Owns(ws[i]) == 0
    ensures Total(ws, Owns) < Total(ws, HasPermit)
  {
    if i == 0 {
      OwnersHavePermits(ws[1..]);
    } else {
      OneMorePermit(ws[1..], i - 1);
    }
  }

  /** The pool is never empty when it is popped. */
  lemma NeverPopEmpty(s: State, i: nat)
    requires Balanced(s) && i < |s.ws| && 1 <= s.ws[i].pc <= 3
    ensures s.pool != []
  {
    OneMorePermit(s.ws, i);
  }

  lemma TotalsUpdate(ws: seq<Worker>, i: nat, w: Worker)
    requires i < |ws|
    ensures Total(ws[i := w], HasPermit) + HasPermit(ws[i]) == Total(ws, HasPermit) + HasPermit(w)
    ensures Total(ws[i := w], Inside) + Inside(ws[i]) == Total(ws, Inside) + Inside(w)
    ensures Total(ws[i := w], Owns) + Owns(ws[i]) == Total(ws, Owns) + Owns(w)
    ensures Total(ws[i := w], Rounds) + Rounds(ws[i]) == Total(ws, Rounds) + Rounds(w)
    ensures Total(ws[i := w], Steps) + Steps(ws[i]) == Total(ws, Steps) + Steps(w)
  {
    TotalUpdate(ws, i, w, HasPermit);
    TotalUpdate(ws, i, w, Inside);
    TotalUpdate(ws, i, w, Owns);
    TotalUpdate(ws, i, w, Rounds);
    TotalUpdate(ws, i, w, Steps);
  }

  /** Only worker i changes, it takes one step, and what it takes or gives it gets or loses. */
  lemma WorkerOnly(s: State, i: nat, s': State, count: nat)
    requires i < |s.ws| && InOrder(s, i, count) && WorkerStep(s, i, count) == Some(s')
    ensures |s'.ws| == |s.ws| && s'.ws == s.ws[i := s'.ws[i]] && |s'.cells| == |s.cells|
    ensures Steps(s'.ws[i]) == Steps(s.ws[i]) + 1
    ensures s'.permits + HasPermit(s'.ws[i]) == s.permits + HasPermit(s.ws[i])
    ensures s'.mutex + Inside(s'.ws[i]) == s.mutex + Inside(s.ws[i])
    ensures |s'.pool| + Owns(s'.ws[i]) == |s.pool| + Owns(s.ws[i])
    ensures s.ws[i].pc != 6 ==> s'.cells == s.cells && Rounds(s'.ws[i]) == Rounds(s.ws[i])
    ensures s.ws[i].pc == 6 ==> s.ws[i].cell < |s.cells| && s.ws[i].tmp >= 0 &&
                                s'.cells == s.cells[s.ws[i].cell := s.ws[i].tmp + 1] && Rounds(s'.ws[i]) == Rounds(s.ws[i]) + 1
  {}

  lemma StepCounts(s: State, i: nat, s': State, count: nat)
    requires Inv(s, count) && i < |s.ws| && WorkerStep(s, i, count) == Some(s')
    ensures s'.permits + Total(s'.ws, HasPermit) == s.permits + Total(s.ws, HasPermit)
    ensures s'.mutex + Total(s'.ws, Inside) == s.mutex + Total(s.ws, Inside)
    ensures |s'.pool| + Total(s'.ws, Owns) == |s.pool| + Total(s.ws, Owns)
  {
    assert InOrder(s, i, count);
    hide *;
    WorkerOnly(s, i, s', count);
    TotalsUpdate(s.ws, i, s'.ws[i]);
  }

  /** A store adds exactly one, because the counter was nobody else's since the load. */
  lemma StepSum(s: State, i: nat, s': State, count: nat)
    requires Inv(s, count) && i < |s.ws| && WorkerStep(s, i, count) == Some(s')
    ensures Total(s'.cells, Value) == Total(s'.ws, Rounds)
  {
    assert Exclusive(s, i) && InOrder(s, i, count) && Balanced(s);
    BalancedSum(s);
    hide Total, Balanced, PoolDistinct, WorkerStep;
    WorkerOnly(s, i, s', count);
    TotalsUpdate(s.ws, i, s'.ws[i]);
    if s.ws[i].pc == 6 {
      var cell := s.ws[i].cell;
      TotalUpdate<nat>(s.cells, cell, s.cells[cell] + 1, Value);
    }
  }

  lemma BalancedSum(s: State)
    requires Balanced(s)
    ensures Total(s.cells, Value) == Total(s.ws, Rounds)
  {}

  lemma StepBalance(s: State, i: nat, s': State, count: nat)
    requires Inv(s, count) && i < |s.ws| && WorkerStep(s, i, count) == Some(s')
    ensures Balanced(s')
  {
    hide Total, PoolDistinct, Exclusive;
    assert InOrder(s, i, count);
    WorkerOnly(s, i, s', count);
    StepCounts(s, i, s', count);
    StepSum(s, i, s', count);
    hide WorkerStep;
  }

  lemma StepExclusive(s: State, i: nat, s': State, count: nat, k: nat)
    requires Inv(s, count) && i < |s.ws| && WorkerStep(s, i, count) == Some(s') && k < |s.ws|
    ensures |s'.ws| == |s.ws| && Exclusive(s', k)
  {
    assert Exclusive(s, i) && InOrder(s, i, count) && Exclusive(s, k);
    WorkerOnly(s, i, s', count);
    if s.ws[i].pc == 3 {
      var cell := s.ws[i].cell;
      assert cell in s.pool;
      forall j | 0 <= j < |s.ws| && Owns(s.ws[j]) == 1
        ensures s.ws[j].cell != cell
      {
        assert Exclusive(s, j);
      }
      assert cell !in s.pool[..|s.pool| - 1];
    }
    hide Balanced;
  }

  lemma StepInOrder(s: State, i: nat, s': State, count: nat, k: nat)
    requires Inv(s, count) && i < |s.ws| && WorkerStep(s, i, count) == Some(s') && k < |s.ws|
    ensures |s'.ws| == |s.ws| && InOrder(s', k, count)
  {
    assert InOrder(s, i, count) && InOrder(s, k, count);
    WorkerOnly(s, i, s', count);
    if k != i && Inside(s.ws[i]) == 1 {
      Alone(s, i, k);
    }
  }

  lemma StepPool(s: State, i: nat, s': State, count: nat)
    requires Inv(s, count) && i < |s.ws| && WorkerStep(s, i, count) == Some(s')
    ensures PoolDistinct(s')
  {
    assert Exclusive(s, i) && InOrder(s, i, count);
  }

  lemma WorkerKeeps(s: State, i: nat, s': State, count: nat)
    requires Inv(s, count) && i < |s.ws| && WorkerStep(s, i, count) == Some(s')
    ensures Inv(s', count)
  {
    StepBalance(s, i, s', count);
    StepPool(s, i, s', count);
    WorkerOnly(s, i, s', count);
    forall k | 0 <= k < |s'.ws|
      ensures Exclusive(s', k) && InOrder(s', k, count)
    {
      StepExclusive(s, i, s', count, k);
      StepInOrder(s, i, s', count, k);
    }
  }

  // ----- every run -----

  ghost predicate Run(run: seq<State>, counters: nat, workers: nat, count: nat) {
    && run != [] && Init(run[0], counters, workers)
    && forall k :: 0 <= k < |run| - 1 ==> Next(run[k], run[k + 1], count)
  }

  /** Every state of every run keeps the invariant, and every step is progress. */
  lemma {:induction false} RunKeeps(run: seq<State>, counters: nat, workers: nat, count: nat)
    requires Run(run, counters, workers, count)
    ensures var s := run[|run| - 1];
      && Inv(s, count) && |s.ws| == workers && |s.cells| == counters
      && Total(s.ws, Steps) == |run| - 1
    decreases |run|
  {
    if |run| == 1 {
      InitInv(run[0], counters, workers, count);
      TotalOfSame(run[0].ws, Steps, 0);
    } else {
      var front := run[..|run| - 1];
      assert Run(front, counters, workers, count);
      RunKeeps(front, counters, workers, count);
      var s, s' := run[|run| - 2], run[|run| - 1];
      assert Next(s, s', count);
      var i :| 0 <= i < |s.ws| && WorkerStep(s, i, count) == Some(s');
      assert InOrder(s, i, count);
      WorkerKeeps(s, i, s', count);
      WorkerOnly(s, i, s', count);
      TotalsUpdate(s.ws, i, s'.ws[i]);
    }
  }

  /** What holds in every reachable state: a pool to pop from, one owner per counter, and no counter lost. */
  lemma Safety(run: seq<State>, counters: nat, workers: nat, count: nat)
    requires Run(run, counters, workers, count)
    ensures var s := run[|run| - 1];
      && |s.ws| == workers && |s.cells| == counters
      && (forall i :: 0 <= i < workers && 2 <= s.ws[i].pc <= 3 ==> s.pool != [])
      && (forall i, j :: 0 <= i < workers && 0 <= j < workers && i != j && Owns(s.ws[i]) == 1 && Owns(s.ws[j]) == 1 ==>
        s.ws[i].cell != s.ws[j].cell)
      && (forall i :: 0 <= i < workers && Owns(s.ws[i]) == 1 ==> s.ws[i].cell < counters && s.ws[i].cell !in s.pool)
      && PoolDistinct(s) && |s.pool| + Total(s.ws, Owns) == counters
      && Total(s.ws, HasPermit) <= counters && Total(s.ws, Inside) <= 1
      && Total(s.cells, Value) == Total(s.ws, Rounds)
  {
    RunKeeps(run, counters, workers, count);
    var s := run[|run| - 1];
    assert Balanced(s) && PoolDistinct(s);
    forall i, j | 0 <= i < workers && 0 <= j < workers && i != j && Owns(s.ws[i]) == 1 && Owns(s.ws[j]) == 1
      ensures s.ws[i].cell != s.ws[j].cell
    {
      assert Exclusive(s, i);
    }
    forall i | 0 <= i < workers && Owns(s.ws[i]) == 1
      ensures s.ws[i].cell < counters && s.ws[i].cell !in s.pool
    {
      assert Exclusive(s, i);
    }
    forall i | 0 <= i < workers && 2 <= s.ws[i].pc <= 3
      ensures s.pool != []
    {
      NeverPopEmpty(s, i);
    }
    hide Total, Run;
  }

  ghost predicate Final(s: State) {
    forall i :: 0 <= i < |s.ws| ==> s.ws[i].pc == 11
  }

  /** No state of a run is stuck before every worker has finished. */
  lemma NoDeadlock(s: State, count: nat)
    requires Inv(s, count) && !Final(s) && |s.cells| > 0
    ensures exists s' :: Next(s, s', count)
  {
    if i :| 0 <= i < |s.ws| && s.ws[i].pc !in {0, 1, 7, 11} {
      Goes(s, i, count);
    } else {
      TotalOfSame(s.ws, Inside, 0);
      if i :| 0 <= i < |s.ws| && (s.ws[i].pc == 1 || s.ws[i].pc == 7) {
        Goes(s, i, count);
      } else {
        TotalOfSame(s.ws, HasPermit, 0);
        var i :| 0 <= i < |s.ws| && s.ws[i].pc != 11;
        Goes(s, i, count);
      }
    }
  }

  lemma Goes(s: State, i: nat, count: nat)
    requires Inv(s, count) && i < |s.ws| && s.ws[i].pc != 11
    requires s.ws[i].pc == 0 ==> s.permits > 0
    requires s.ws[i].pc == 1 || s.ws[i].pc == 7 ==> s.mutex > 0
    ensures exists s' :: Next(s, s', count)
  {
    assert Exclusive(s, i) && InOrder(s, i, count);
    if 2 <= s.ws[i].pc <= 3 {
      NeverPopEmpty(s, i);
    }
    assert WorkerStep(s, i, count).Some?;
    assert Next(s, WorkerStep(s, i, count).value, count);
  }

  ghost predicate Stuck(s: State, count: nat) {
    forall s' :: !Next(s, s', count)
  }

  /**
   * A run that can go no further has lost no increment, although each is a load and a store, and
   * all counters and permits are back.
   */
  lemma AtTheEnd(run: seq<State>, counters: nat, workers: nat, count: nat)
    requires counters > 0 && Run(run, counters, workers, count)
    requires Stuck(run[|run| - 1], count)
    ensures var s := run[|run| - 1];
      && Final(s)
      && Total(s.cells, Value) == workers * count
      && |s.pool| == counters && s.permits == counters && s.mutex == 1
      && |run| - 1 == workers * (2 * count + 10)
  {
    var s := run[|run| - 1];
    RunKeeps(run, counters, workers, count);
    if !Final(s) {
      NoDeadlock(s, count);
    }
    forall i | 0 <= i < |s.ws|
      ensures s.ws[i].rounds == count && s.ws[i].pc == 11
    {
      assert InOrder(s, i, count);
    }
    TotalOfSame(s.ws, HasPermit, 0);
    TotalOfSame(s.ws, Inside, 0);
    TotalOfSame(s.ws, Owns, 0);
    TotalOfSame(s.ws, Rounds, count);
    TotalOfSame(s.ws, Steps, 2 * count + 10);
    hide Total, Run;
  }

  /** No run is longer than the work there is, so every run comes to an end. */
  lemma RunsEnd(run: seq<State>, counters: nat, workers: nat, count: nat)
    requires Run(run, counters, workers, count)
    ensures |run| - 1 <= workers * (2 * count + 10)
  {
    RunKeeps(run, counters, workers, count);
    var s := run[|run| - 1];
    forall i | 0 <= i < |s.ws|
      ensures Steps(s.ws[i]) <= 2 * count + 10
    {
      assert InOrder(s, i, count);
    }
    TotalLong(s.ws, Steps, 2 * count + 10);
  }
}

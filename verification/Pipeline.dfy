/** The handlers of a pipeline of processors, driven by an idealised clock. */
module Pipeline {
  import Division
  import opened Finite
  import opened Options

  import opened PipelineSpec

  datatype Frame = Frame(nr: nat, incoming: nat)

  /** What a submit leaves for its slot: the frame and when its processing ends. */
  datatype Timer = Timer(frame: nat, due: nat)

  /** The first processor that is free. */
  function FirstFree(inUse: seq<bool>): (r: Option<nat>)
    ensures r.Some? ==> r.value < |inUse| && !inUse[r.value] && forall s :: 0 <= s < r.value ==> inUse[s]
    ensures r.None? ==> forall s :: 0 <= s < |inUse| ==> inUse[s]
  {
    if inUse == [] then None
    else if !inUse[0] then Some(0)
    else
      var r := FirstFree(inUse[1..]);
      assert forall s :: 1 <= s < |inUse| ==> inUse[s] == inUse[1..][s - 1];
      if r.Some? then Some(r.value + 1) else None
  }

  /** A processor that is free while all before it are in use. */
  predicate IsFirstFree(inUse: seq<bool>, slot: nat) {
    slot < |inUse| && !inUse[slot] && forall s :: 0 <= s < slot ==> inUse[s]
  }

  /** Which processors are in use, their timers, and when and in which slots the frames were started. */
  datatype Board = Board(inUse: seq<bool>, timers: seq<Timer>, starts: seq<nat>, slotOf: seq<nat>)

  /** The next frame was started at time t in slot. */
  ghost predicate StartedIn(was: Board, b: Board, slot: nat, t: nat, work: nat) {
    && slot < |was.inUse| == |was.timers|
    && b.starts == was.starts + [t] && b.slotOf == was.slotOf + [slot]
    && b.inUse == was.inUse[slot := true]
    && b.timers == was.timers[slot := Timer(|was.starts|, t + work)]
  }

  /** The next frame was started at time t, on the processor that was free while all before it were in use. */
  ghost predicate Started(was: Board, b: Board, t: nat, work: nat) {
    exists slot: nat :: IsFirstFree(was.inUse, slot) && StartedIn(was, b, slot, t, work)
  }

  /** The slots of the frames processed..|slotOf| are exactly those in use, and their timers are set. */
  ghost predicate Occupied(inUse: seq<bool>, timers: seq<Timer>, slotOf: seq<nat>, processed: nat, starts: seq<nat>, work: nat) {
    && |timers| == |inUse| && |slotOf| == |starts| && processed <= |slotOf|
    && (forall j :: processed <= j < |slotOf| ==>
      slotOf[j] < |inUse| && inUse[slotOf[j]] && timers[slotOf[j]] == Timer(j, starts[j] + work))
    && (forall s :: 0 <= s < |inUse| && inUse[s] ==>
      processed <= timers[s].frame < |slotOf| && slotOf[timers[s].frame] == s)
  }

  /** As many slots are in use as frames are being processed. */
  lemma {:induction false} InUseCount(inUse: seq<bool>, timers: seq<Timer>, slotOf: seq<nat>, processed: nat, starts: seq<nat>, work: nat)
    requires Occupied(inUse, timers, slotOf, processed, starts, work)
    ensures |slotOf| - processed <= |inUse|
    ensures FirstFree(inUse).None? <==> |slotOf| - processed == |inUse|
  {
    var c := slotOf[processed..];
    forall j, k | 0 <= j < k < |c|
      ensures c[j] != c[k]
    {
      assert timers[slotOf[processed + j]].frame == processed + j && timers[slotOf[processed + k]].frame == processed + k;
    }
    DistinctBelow(c, |inUse|);
    var free := FirstFree(inUse);
    if free.Some? {
      DistinctBelowBut(c, |inUse|, free.value);
    } else {
      forall s | 0 <= s < |inUse|
        ensures s in c
      {
        assert inUse[s] && c[timers[s].frame - processed] == s;
      }
      CoveringSize(c, |inUse|);
    }
  }

  lemma OccupiedSizes(inUse: seq<bool>, timers: seq<Timer>, slotOf: seq<nat>, processed: nat, starts: seq<nat>, work: nat)
    requires Occupied(inUse, timers, slotOf, processed, starts, work)
    ensures |timers| == |inUse| && |slotOf| == |starts| && processed <= |starts|
  {}

  /** A free slot is taken by the next frame. */
  lemma OccupyMore(inUse: seq<bool>, timers: seq<Timer>, slotOf: seq<nat>, processed: nat, starts: seq<nat>, work: nat, slot: nat, start: nat)
    requires Occupied(inUse, timers, slotOf, processed, starts, work) && slot < |inUse| && !inUse[slot]
    ensures Occupied(inUse[slot := true], timers[slot := Timer(|starts|, start + work)], slotOf + [slot], processed, starts + [start], work)
  {
    var inUse', timers', slotOf' := inUse[slot := true], timers[slot := Timer(|starts|, start + work)], slotOf + [slot];
    forall j | processed <= j < |slotOf'|
      ensures slotOf'[j] < |inUse'| && inUse'[slotOf'[j]] && timers'[slotOf'[j]] == Timer(j, (starts + [start])[j] + work)
    {
      assert j < |slotOf| ==> slotOf'[j] == slotOf[j] && slotOf[j] != slot;
    }
    forall s | 0 <= s < |inUse'| && inUse'[s]
      ensures processed <= timers'[s].frame < |slotOf'| && slotOf'[timers'[s].frame] == s
    {
      assert s != slot ==> inUse[s];
    }
  }

  /** The slot of the oldest frame is freed. */
  lemma OccupyLess(inUse: seq<bool>, timers: seq<Timer>, slotOf: seq<nat>, processed: nat, starts: seq<nat>, work: nat)
    requires Occupied(inUse, timers, slotOf, processed, starts, work) && processed < |slotOf|
    ensures Occupied(inUse[slotOf[processed] := false], timers, slotOf, processed + 1, starts, work)
  {
    var slot := slotOf[processed];
    forall j | processed + 1 <= j < |slotOf|
      ensures slotOf[j] != slot
    {
      assert timers[slotOf[j]].frame == j && timers[slot].frame == processed;
    }
    forall s | 0 <= s < |inUse| && inUse[slot := false][s]
      ensures processed + 1 <= timers[s].frame
    {
      assert inUse[s] && s != slot;
    }
  }

  /** The frames that wait are those from number first on, all of which have arrived. */
  ghost predicate Queued(pending: seq<Frame>, first: nat, period: nat, now: nat) {
    forall i :: 0 <= i < |pending| ==> pending[i] == Frame(first + i, Arrival(period, first + i)) && pending[i].incoming <= now
  }

  lemma QueuedMore(pending: seq<Frame>, first: nat, period: nat, now: nat, t: nat)
    requires Queued(pending, first, period, now) && now <= t
    ensures Queued(pending, first, period, t)
    ensures t == Arrival(period, first + |pending|) ==> Queued(pending + [Frame(first + |pending|, t)], first, period, t)
  {
    hide Arrival;
  }

  lemma QueuedNothing(first: nat, period: nat, now: nat)
    ensures Queued([], first, period, now)
  {}

  lemma QueuedLess(pending: seq<Frame>, first: nat, period: nat, now: nat)
    requires Queued(pending, first, period, now) && pending != []
    ensures pending[0] == Frame(first, Arrival(period, first)) && pending[0].incoming <= now
    ensures Queued(pending[1..], first + 1, period, now)
  {
    hide Arrival;
    assert forall i :: 0 <= i < |pending| - 1 ==> pending[1..][i] == pending[i + 1];
  }

  class PipelineModel {
    const period: nat
    const work: nat
    const slots: nat
    var processorsInUse: seq<bool>
    var framesPending: seq<Frame>
    var frameNr: nat
    var timers: seq<Timer>
    /** When the frames were submitted, in the order of submission. */
    var starts: seq<nat>
    /** And in which slots. */
    var slotOf: seq<nat>
    ghost var processed: nat
    ghost var now: nat

    /** The time is not past anything still to happen. */
    ghost predicate OnTime(t: nat)
      reads this
    {
      && t <= Arrival(period, frameNr)
      && forall s :: 0 <= s < |processorsInUse| && s < |timers| && processorsInUse[s] ==> t <= timers[s].due
    }

    /** Everything but that the waiting frames wait for good reason. */
    ghost predicate Consistent()
      reads this
    {
      && period > 0 && slots > 0
      && |processorsInUse| == slots
      && Occupied(processorsInUse, timers, slotOf, processed, starts, work)
      && (forall k :: 0 <= k < |starts| ==> starts[k] == Start(period, work, slots, k))
      && (forall k :: 0 <= k < processed ==> starts[k] + work <= now)
      && |starts| + |framesPending| == frameNr
      && (frameNr > 0 ==> Arrival(period, frameNr - 1) <= now)
      && Queued(framesPending, |starts|, period, now)
      && OnTime(now)
    }

    /** Frames start in order, each at the time the closed form says, and wait only while all processors are in use. */
    ghost predicate Valid()
      reads this
    {
      Consistent() && (framesPending != [] ==> |starts| - processed == slots)
    }

    constructor (period: nat, work: nat, slots: nat)
      requires period > 0 && slots > 0
      ensures Valid() && this.period == period && this.work == work && this.slots == slots
      ensures starts == slotOf == [] && framesPending == [] && frameNr == 0 && processed == 0 && now == 0
      ensures processorsInUse == seq(slots, _ => false)
    {
      this.period, this.work, this.slots := period, work, slots;
      processorsInUse := seq(slots, _ => false);
      timers := seq(slots, _ => Timer(0, 0));
      framesPending, frameNr, starts, slotOf, processed, now := [], 0, [], [], 0, 0;
    }

    /** The processors and what was started on them. */
    ghost function Shown(): Board
      reads this
    {
      Board(processorsInUse, timers, starts, slotOf)
    }

    /** Starts a frame on a free processor, which is in use from now until its timer is due. */
    method FrameSubmit(frame: nat, slot: nat, t: nat)
      requires slot < |processorsInUse| == |timers| && !processorsInUse[slot]
      modifies this`processorsInUse, this`timers, this`starts, this`slotOf
      ensures processorsInUse == old(processorsInUse)[slot := true]
      ensures timers == old(timers)[slot := Timer(frame, t + work)]
      ensures starts == old(starts) + [t] && slotOf == old(slotOf) + [slot]
      ensures IsFirstFree(old(processorsInUse), slot) && frame == |old(starts)| ==> Started(old(Shown()), Shown(), t, work)
    {
      timers := timers[slot := Timer(frame, t + work)];
      processorsInUse := processorsInUse[slot := true];
      starts := starts + [t];
      slotOf := slotOf + [slot];
      assert frame == |old(starts)| ==> StartedIn(old(Shown()), Shown(), slot, t, work);
    }

    /** What is known after the next frame was started on a free processor at the time of the closed form. */
    lemma Submitted(slot: nat, t: nat)
      requires Consistent() && now == t
      requires slot < slots && !processorsInUse[slot] && t == Start(period, work, slots, |starts|)
      ensures |timers| == slots
      ensures var inUse, due, starts' := processorsInUse[slot := true], timers[slot := Timer(|starts|, t + work)], starts + [t];
        && Occupied(inUse, due, slotOf + [slot], processed, starts', work)
        && (forall k :: 0 <= k < |starts'| ==> starts'[k] == Start(period, work, slots, k))
        && (forall s :: 0 <= s < |inUse| && inUse[s] ==> now <= due[s].due)
    {
      OccupyMore(processorsInUse, timers, slotOf, processed, starts, work, slot, t);
    }

    /** A frame that arrives while a processor is free has its own arrival time as its start. */
    lemma ArrivesInTime()
      requires Valid() && |starts| - processed < slots && now <= Arrival(period, frameNr)
      ensures framesPending == [] && Start(period, work, slots, frameNr) == Arrival(period, frameNr)
    {
      var k := frameNr;
      if work > slots * period && k >= slots {
        var j := k - slots;
        assert j < processed && starts[j] == Start(period, work, slots, j);
        StartsAfterArrival(period, work, slots, j);
        Division.Distribute(j, slots, period);
        assert false;
      }
      Regimes(period, work, slots, k);
      if k < slots {
        FirstRound(period, work, slots, k);
      }
    }

    /** A frame arrives at time t. */
    method FrameReceive(t: nat)
      requires Valid() && t == Arrival(period, frameNr) && OnTime(t)
      modifies this
      ensures Valid() && now == t && frameNr == old(frameNr) + 1 && processed == old(processed)
      ensures |old(starts)| - processed < slots ==> framesPending == old(framesPending)
      ensures |old(starts)| - processed < slots ==> Started(old(Shown()), Shown(), t, work)
      ensures |old(starts)| - processed == slots ==> framesPending == old(framesPending) + [Frame(old(frameNr), t)]
      ensures |old(starts)| - processed == slots ==> Shown() == old(Shown())
    {
      hide Occupied, Start, Arrival, FirstFree, Started, StartedIn, Queued;
      QueuedMore(framesPending, |starts|, period, now, t);
      now := t;
      InUseCount(processorsInUse, timers, slotOf, processed, starts, work);
      ArrivalNext(period, frameNr);
      OccupiedSizes(processorsInUse, timers, slotOf, processed, starts, work);
      var free := FirstFree(processorsInUse);
      if free.Some? {
        ArrivesInTime();
        Submitted(free.value, t);
        QueuedNothing(|starts| + 1, period, t);
        FrameSubmit(frameNr, free.value, t);
      } else {
        framesPending := framesPending + [Frame(frameNr, t)];
      }
      frameNr := frameNr + 1;
    }

    /** Of the frames being processed the oldest finishes first, alone. */
    lemma OldestFinishes(slot: nat, t: nat)
      requires Valid() && slot < slots && processorsInUse[slot] && t == timers[slot].due && OnTime(t)
      ensures timers[slot].frame == processed < |slotOf| && slotOf[processed] == slot
      ensures t == Start(period, work, slots, processed) + work
    {
      var j := timers[slot].frame;
      assert slotOf[j] == slot && starts[j] == Start(period, work, slots, j);
      assert starts[processed] == Start(period, work, slots, processed);
      assert timers[slotOf[processed]] == Timer(processed, starts[processed] + work) && processorsInUse[slotOf[processed]];
      if processed < j {
        StartIncreases(period, work, slots, processed, j);
      }
    }

    /** A frame that has been waiting starts exactly when the one a round before it is done. */
    lemma WaitedInTime(t: nat)
      requires Valid() && framesPending != [] && processed < |starts|
      requires t == Start(period, work, slots, processed) + work && now <= t
      ensures t == Start(period, work, slots, |starts|)
    {
      var d := processed;
      StartOneRoundLater(period, work, slots, d);
      assert framesPending[0].incoming <= now;
      Regimes(period, work, slots, d);
      Division.Distribute(d, slots, period);
    }

    /** The frames that wait, if any, are just the ones that a free processor can start now. */
    ghost predicate Ready()
      reads this
    {
      framesPending != [] ==>
        || |starts| - processed == slots
        || (|starts| - processed == slots - 1 && slots > 0 && now == Start(period, work, slots, |starts|))
    }

    /** Starts waiting frames while a processor is free. */
    method Drain(t: nat)
      requires Consistent() && Ready() && now == t
      modifies this`processorsInUse, this`timers, this`starts, this`slotOf, this`framesPending
      ensures Valid()
      ensures old(framesPending) == [] || |old(starts)| - processed == slots ==>
        framesPending == old(framesPending) && Shown() == old(Shown())
      ensures old(framesPending) != [] && |old(starts)| - processed < slots ==>
        framesPending == old(framesPending[1..]) && Started(old(Shown()), Shown(), t, work)
    {
      hide Occupied, Start, Arrival, FirstFree, Started, StartedIn, Queued;
      while framesPending != []
        invariant Consistent() && Ready()
        invariant
          || (framesPending == old(framesPending) && Shown() == old(Shown()))
          || (old(framesPending) != [] && framesPending == old(framesPending[1..]) && |starts| - processed == slots &&
              Started(old(Shown()), Shown(), t, work) && |old(starts)| - processed < slots)
        decreases |framesPending|
      {
        InUseCount(processorsInUse, timers, slotOf, processed, starts, work);
        OccupiedSizes(processorsInUse, timers, slotOf, processed, starts, work);
        var free := FirstFree(processorsInUse);
        if free.Some? {
          Submitted(free.value, t);
          QueuedLess(framesPending, |starts|, period, now);
          FrameSubmit(framesPending[0].nr, free.value, t);
          framesPending := framesPending[1..];
          OccupiedSizes(processorsInUse, timers, slotOf, processed, starts, work);
        } else {
          break;
        }
      }
    }

    /** The frame in a slot is done at time t: the slot is freed, and waiting frames take what is free. */
    method FrameProcessed(slot: nat, t: nat)
      requires Valid() && slot < slots && processorsInUse[slot] && t == timers[slot].due && OnTime(t)
      modifies this
      ensures Valid() && now == t && frameNr == old(frameNr) && processed == old(processed) + 1
      ensures var freed := old(Shown()).(inUse := old(processorsInUse)[slot := false]);
        if old(framesPending) == [] then framesPending == [] && Shown() == freed
        else framesPending == old(framesPending[1..]) && Started(freed, Shown(), t, work)
    {
      hide Start, Arrival;
      OldestFinishes(slot, t);
      OccupyLess(processorsInUse, timers, slotOf, processed, starts, work);
      OccupiedSizes(processorsInUse, timers, slotOf, processed, starts, work);
      hide Occupied, Started, Queued;
      QueuedMore(framesPending, |starts|, period, now, t);
      if framesPending != [] {
        WaitedInTime(t);
      }
      now := t;
      processorsInUse := processorsInUse[slot := false];
      processed := processed + 1;
      Drain(t);
    }
  }

  /** The slot in use whose timer is due first. */
  method FirstDue(inUse: seq<bool>, timers: seq<Timer>) returns (r: Option<nat>)
    requires |timers| == |inUse|
    ensures r.None? ==> forall s :: 0 <= s < |inUse| ==> !inUse[s]
    ensures r.Some? ==> r.value < |inUse| && inUse[r.value]
    ensures r.Some? ==> forall s :: 0 <= s < |inUse| && inUse[s] ==> timers[r.value].due <= timers[s].due
  {
    r := None;
    for s := 0 to |inUse|
      invariant r.None? ==> forall i :: 0 <= i < s ==> !inUse[i]
      invariant r.Some? ==> r.value < s && inUse[r.value]
      invariant r.Some? ==> forall i :: 0 <= i < s && inUse[i] ==> timers[r.value].due <= timers[i].due
    {
      if inUse[s] && (r.None? || timers[s].due < timers[r.value].due) {
        r := Some(s);
      }
    }
  }

  /** The next frame to start is not overdue. */
  lemma NextIsNotOverdue(m: PipelineModel)
    requires m.Valid()
    ensures m.now <= Start(m.period, m.work, m.slots, |m.starts|)
  {
    if m.framesPending == [] {
      StartsAfterArrival(m.period, m.work, m.slots, |m.starts|);
    } else {
      StartOneRoundLater(m.period, m.work, m.slots, m.processed);
      var slot := m.slotOf[m.processed];
      assert m.processorsInUse[slot] && m.timers[slot] == Timer(m.processed, m.starts[m.processed] + m.work);
    }
  }

  /** Whatever should have started by now has. */
  lemma NoneIsLate(m: PipelineModel, k: nat)
    requires m.Valid() && Start(m.period, m.work, m.slots, k) < m.now
    ensures k < |m.starts|
  {
    NextIsNotOverdue(m);
    if |m.starts| < k {
      StartIncreases(m.period, m.work, m.slots, |m.starts|, k);
    }
  }

  lemma LastArrival(m: PipelineModel)
    requires m.Valid() && m.frameNr > 0
    ensures m.frameNr - 1 <= m.now
  {
    hide Occupied, Start, Arrival;
    ArrivalGrows(m.period, m.frameNr - 1);
  }

  /** Once more frames have arrived than the start of frame k has time units, frame k has started. */
  lemma NoneIsForgotten(m: PipelineModel, k: nat)
    requires m.Valid() && m.frameNr >= Start(m.period, m.work, m.slots, k) + 2
    ensures k < |m.starts|
  {
    LastArrival(m);
    hide *;
    NoneIsLate(m, k);
  }

  // ----- which processor a frame gets -----

  /** The first c processors take turns. */
  ghost predicate TakeTurns(slotOf: seq<nat>, c: nat) {
    c > 0 && forall k :: 0 <= k < |slotOf| ==> slotOf[k] == k % c
  }

  /** The frames since the last turn of processor 0 are all being processed when frame k starts. */
  lemma LowerInUse(m: PipelineModel, t: nat, c: nat, s: nat)
    requires m.Consistent() && m.OnTime(t) && m.now <= t && t == Start(m.period, m.work, m.slots, |m.starts|)
    requires Needs(m.period, m.work, m.slots, c) && TakeTurns(m.slotOf, c) && s < |m.starts| % c
    ensures s < m.slots && m.processorsInUse[s]
  {
    hide Start, Arrival, Needs;
    var j := TurnIsBusy(m.period, m.work, m.slots, c, |m.starts|, s);
    assert m.starts[j] == Start(m.period, m.work, m.slots, j);
    assert m.processed <= j;
    assert m.slotOf[j] == s;
  }

  /** Processor k % c is free again when frame k starts. */
  lemma TurnIsFree(m: PipelineModel, t: nat, c: nat)
    requires m.Consistent() && m.OnTime(t) && m.now <= t && t == Start(m.period, m.work, m.slots, |m.starts|)
    requires Needs(m.period, m.work, m.slots, c) && TakeTurns(m.slotOf, c)
    requires |m.starts| - m.processed < m.slots
    ensures |m.starts| % c < m.slots && !m.processorsInUse[|m.starts| % c]
  {
    var k := |m.starts|;
    var n := k % c;
    assert c <= m.slots;
    hide Start, Arrival, Needs;
    if m.processorsInUse[n] {
      var j := m.timers[n].frame;
      assert m.slotOf[j] == n && m.slotOf[j] == j % c && m.timers[n] == Timer(j, m.starts[j] + m.work);
      TurnIsOver(m.period, m.work, m.slots, c, j, k);
      assert false;
    }
  }

  /** So the first free processor is that one. */
  lemma TurnIsFirst(m: PipelineModel, t: nat, c: nat, slot: nat)
    requires m.Consistent() && m.OnTime(t) && m.now <= t && t == Start(m.period, m.work, m.slots, |m.starts|)
    requires Needs(m.period, m.work, m.slots, c) && TakeTurns(m.slotOf, c)
    requires |m.starts| - m.processed < m.slots && IsFirstFree(m.processorsInUse, slot)
    ensures c > 0 && slot == |m.starts| % c
  {
    hide Start, Arrival, Needs;
    TurnIsFree(m, t, c);
    if slot < |m.starts| % c {
      LowerInUse(m, t, c, slot);
    }
  }

  /** A frame that waited finds just the freed processor, and its turn has come. */
  lemma FreedIsTurn(m: PipelineModel, t: nat, c: nat, slot: nat)
    requires m.Valid() && slot < m.slots && m.processorsInUse[slot] && t == m.timers[slot].due && m.OnTime(t)
    requires Needs(m.period, m.work, m.slots, c) && TakeTurns(m.slotOf, c) && m.framesPending != []
    ensures c > 0 && slot == |m.starts| % c
    ensures forall s :: 0 <= s < m.slots ==> m.processorsInUse[s]
  {
    hide Start, Arrival, Needs;
    m.OldestFinishes(slot, t);
    InUseCount(m.processorsInUse, m.timers, m.slotOf, m.processed, m.starts, m.work);
    assert m.framesPending[0].incoming <= m.now;
    AllTakeTurns(m.period, m.work, m.slots, c, m.processed);
  }

  /** Whatever number of processors is needed, they have taken turns. */
  ghost predicate InTurn(b: Board, period: nat, work: nat, slots: nat) {
    forall c :: Needs(period, work, slots, c) ==> TakeTurns(b.slotOf, c)
  }

  /** With inUse, the processor whose turn it is is the one that a frame would get. */
  ghost predicate NextInTurn(b: Board, inUse: seq<bool>, period: nat, work: nat, slots: nat) {
    forall c, slot: nat :: Needs(period, work, slots, c) && IsFirstFree(inUse, slot) ==> slot == |b.slotOf| % c
  }

  lemma TurnTaken(was: Board, inUse: seq<bool>, b: Board, t: nat, period: nat, work: nat, slots: nat)
    requires InTurn(was, period, work, slots) && NextInTurn(was, inUse, period, work, slots)
    requires Started(was.(inUse := inUse), b, t, work)
    ensures InTurn(b, period, work, slots)
  {
    hide Needs;
    var slot: nat :| IsFirstFree(inUse, slot) && StartedIn(was.(inUse := inUse), b, slot, t, work);
  }

  /** When a frame arrives the next processor in turn is the first that is free, if any is. */
  lemma ArrivalInTurn(m: PipelineModel, t: nat)
    requires m.Valid() && m.OnTime(t) && t == Arrival(m.period, m.frameNr)
    requires InTurn(m.Shown(), m.period, m.work, m.slots)
    ensures NextInTurn(m.Shown(), m.processorsInUse, m.period, m.work, m.slots)
  {
    InUseCount(m.processorsInUse, m.timers, m.slotOf, m.processed, m.starts, m.work);
    if |m.starts| - m.processed < m.slots {
      m.ArrivesInTime();
      hide Start, Arrival, Needs, TakeTurns, IsFirstFree, Occupied;
      forall c, slot: nat | Needs(m.period, m.work, m.slots, c) && IsFirstFree(m.processorsInUse, slot)
        ensures c > 0 && slot == |m.slotOf| % c
      {
        TurnIsFirst(m, t, c, slot);
      }
    }
  }

  /** When a processor is freed and a frame waits, that processor is the next in turn. */
  lemma FreedInTurn(m: PipelineModel, slot: nat, t: nat)
    requires m.Valid() && slot < m.slots && m.processorsInUse[slot] && t == m.timers[slot].due && m.OnTime(t)
    requires InTurn(m.Shown(), m.period, m.work, m.slots) && m.framesPending != []
    ensures NextInTurn(m.Shown(), m.processorsInUse[slot := false], m.period, m.work, m.slots)
  {
    var freed := m.processorsInUse[slot := false];
    hide Start, Arrival, Needs, TakeTurns, Occupied;
    forall c, s: nat | Needs(m.period, m.work, m.slots, c) && IsFirstFree(freed, s)
      ensures c > 0 && s == |m.slotOf| % c
    {
      FreedIsTurn(m, t, c, slot);
      assert s == slot;
    }
  }

  /** Handles the earliest event; at equal times the choice says whether an arrival goes before the end of a processing. */
  method HandleNext(m: PipelineModel, arrivalFirst: bool)
    requires m.Valid() && InTurn(m.Shown(), m.period, m.work, m.slots)
    modifies m
    ensures m.Valid() && InTurn(m.Shown(), m.period, m.work, m.slots)
    ensures m.frameNr + m.processed == old(m.frameNr + m.processed) + 1
  {
    hide Start, Arrival, Occupied, Started, InTurn, NextInTurn;
    ghost var was := m.Shown();
    OccupiedSizes(m.processorsInUse, m.timers, m.slotOf, m.processed, m.starts, m.work);
    var next := m.frameNr * m.period;
    assert next == Arrival(m.period, m.frameNr) by { ArrivalIs(m.period, m.frameNr); }
    var slot := FirstDue(m.processorsInUse, m.timers);
    if slot.None? || next < m.timers[slot.value].due || (next == m.timers[slot.value].due && arrivalFirst) {
      InUseCount(m.processorsInUse, m.timers, m.slotOf, m.processed, m.starts, m.work);
      ArrivalInTurn(m, next);
      m.FrameReceive(next);
      if m.Shown() != was {
        TurnTaken(was, was.inUse, m.Shown(), next, m.period, m.work, m.slots);
      }
    } else {
      ghost var freed, waiting := was.inUse[slot.value := false], m.framesPending != [];
      var due := m.timers[slot.value].due;
      if waiting {
        FreedInTurn(m, slot.value, due);
      }
      m.FrameProcessed(slot.value, due);
      if waiting {
        TurnTaken(was, freed, m.Shown(), due, m.period, m.work, m.slots);
      } else {
        SameTurns(was, m.Shown(), m.period, m.work, m.slots);
      }
    }
  }

  lemma SameTurns(was: Board, b: Board, period: nat, work: nat, slots: nat)
    requires InTurn(was, period, work, slots) && b.slotOf == was.slotOf
    ensures InTurn(b, period, work, slots)
  {}

  /**
   * The event loop for as many events as there are choices: the earliest event is handled first,
   * and at equal times the choice says whether an arrival goes before the end of a processing.
   */
  method RunLoop(period: nat, work: nat, slots: nat, arrivalFirst: seq<bool>)
    returns (starts: seq<nat>, slotOf: seq<nat>, received: nat, done: nat)
    requires period > 0 && slots > 0
    ensures received + done == |arrivalFirst|
    ensures |starts| == if received <= done + slots then received else done + slots
    ensures forall k: nat :: |arrivalFirst| >= 2 * (Start(period, work, slots, k) + 2) ==> k < |starts|
    ensures forall k :: 0 <= k < |starts| ==> starts[k] == Start(period, work, slots, k)
    ensures |slotOf| == |starts| && forall c :: Needs(period, work, slots, c) ==> TakeTurns(slotOf, c)
  {
    hide Start, Arrival, Occupied, InTurn;
    var m := new PipelineModel(period, work, slots);
    assert InTurn(m.Shown(), period, work, slots) by { NoneYet(m.Shown(), period, work, slots); }
    for i := 0 to |arrivalFirst|
      invariant m.Valid() && m.period == period && m.work == work && m.slots == slots
      invariant m.frameNr + m.processed == i && InTurn(m.Shown(), period, work, slots)
    {
      HandleNext(m, arrivalFirst[i]);
    }
    InUseCount(m.processorsInUse, m.timers, m.slotOf, m.processed, m.starts, m.work);
    OccupiedSizes(m.processorsInUse, m.timers, m.slotOf, m.processed, m.starts, m.work);
    starts, slotOf, received, done := m.starts, m.slotOf, m.frameNr, |arrivalFirst| - m.frameNr;
    assert forall c :: Needs(period, work, slots, c) ==> TakeTurns(slotOf, c) by { Turns(m.Shown(), period, work, slots); }
    forall k: nat | |arrivalFirst| >= 2 * (Start(period, work, slots, k) + 2)
      ensures k < |starts|
    {
      NoneIsForgotten(m, k);
    }
  }

  /** Otherwise ties decide: which of two simultaneous events goes first is which processor frame 1 gets. */
  method TiesDecide() returns (arrivalFirst: seq<nat>, endFirst: seq<nat>)
    ensures arrivalFirst == [0, 1] && endFirst == [0, 0]
  {
    hide Occupied, Start, Queued, Started;
    var m := FirstFrame();
    ghost var was := m.Shown();
    m.FrameReceive(1);
    StartedWhere(was, m.Shown(), 1, 1, 1);
    arrivalFirst := m.slotOf;
    m := FirstFrame();
    m.FrameProcessed(0, 1);
    was := m.Shown();
    m.FrameReceive(1);
    StartedWhere(was, m.Shown(), 1, 1, 0);
    endFirst := m.slotOf;
  }

  /** Two processors that take as long as the period, after the first arrival. */
  method FirstFrame() returns (m: PipelineModel)
    ensures fresh(m) && m.Valid() && m.period == m.work == 1 && m.slots == 2
    ensures m.frameNr == 1 && m.processed == m.now == 0 && m.framesPending == []
    ensures m.processorsInUse == [true, false] && m.starts == m.slotOf == [0]
    ensures |m.timers| == 2 && m.timers[0] == Timer(0, 1)
  {
    hide Occupied, Start, Queued, Started;
    m := new PipelineModel(1, 1, 2);
    ghost var was := m.Shown();
    m.FrameReceive(0);
    StartedWhere(was, m.Shown(), 0, 1, 0);
  }

  lemma StartedWhere(was: Board, b: Board, t: nat, work: nat, slot: nat)
    requires Started(was, b, t, work) && IsFirstFree(was.inUse, slot)
    ensures StartedIn(was, b, slot, t, work)
  {}

  lemma NoneYet(b: Board, period: nat, work: nat, slots: nat)
    requires b.slotOf == []
    ensures InTurn(b, period, work, slots)
  {}

  lemma Turns(b: Board, period: nat, work: nat, slots: nat)
    requires InTurn(b, period, work, slots)
    ensures forall c :: Needs(period, work, slots, c) ==> TakeTurns(b.slotOf, c)
  {}

  lemma ArrivalIs(period: nat, k: nat)
    ensures Arrival(period, k) == k * period
  {}
}

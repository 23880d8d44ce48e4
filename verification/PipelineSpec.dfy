/** When frames start on a fixed number of processors. */
module PipelineSpec {
  import Division

  /** The extra delay every round of the processors adds. */
  function Lag(period: nat, work: nat, slots: nat): nat {
    if work > slots * period then work - slots * period else 0
  }

  function Arrival(period: nat, k: nat): nat { k * period }

  lemma ArrivalNext(period: nat, k: nat)
    ensures Arrival(period, k + 1) == Arrival(period, k) + period
    ensures Arrival(period, 0) == 0
  {
    Division.Distribute(k, 1, period);
  }

  lemma ArrivalGrows(period: nat, k: nat)
    requires period > 0
    ensures k <= Arrival(period, k)
  {
    Division.Times(1, period, k);
  }

  /** Frame k arrives at k * period and starts after its round's share of the lag. */
  function Start(period: nat, work: nat, slots: nat, k: nat): nat
    requires slots > 0
  {
    Arrival(period, k) + (k / slots) * Lag(period, work, slots)
  }

  lemma StartIncreases(period: nat, work: nat, slots: nat, j: nat, k: nat)
    requires slots > 0 && period > 0 && j < k
    ensures Start(period, work, slots, j) < Start(period, work, slots, k)
  {
    var lag := Lag(period, work, slots);
    Division.Monotone(j, k, slots);
    Division.Times(j / slots, k / slots, lag);
    Division.Distribute(j, k - j, period);
    Division.Times(1, k - j, period);
  }

  /** A frame starts when the one that many slots before it has been worked on, or when it arrives. */
  lemma StartOneRoundLater(period: nat, work: nat, slots: nat, k: nat)
    requires slots > 0
    ensures Start(period, work, slots, k + slots) ==
      Start(period, work, slots, k) + if work > slots * period then work else slots * period
  {
    Division.OneMore(k, slots);
    Division.Distribute(k, slots, period);
    Division.Distribute(k / slots, 1, Lag(period, work, slots));
  }

  /** First come, first served: a frame starts when it arrives, or when the one a round before it is done. */
  function FirstCome(period: nat, work: nat, slots: nat, k: nat): nat
    requires slots > 0
    decreases k
  {
    if k < slots then Arrival(period, k)
    else
      var free := FirstCome(period, work, slots, k - slots) + work;
      if free > Arrival(period, k) then free else Arrival(period, k)
  }

  /** The closed form solves the recurrence of first come, first served. */
  lemma {:induction false} StartIsFirstCome(period: nat, work: nat, slots: nat, k: nat)
    requires slots > 0
    ensures Start(period, work, slots, k) == FirstCome(period, work, slots, k)
    decreases k
  {
    if k < slots {
      FirstRound(period, work, slots, k);
    } else {
      StartIsFirstCome(period, work, slots, k - slots);
      StartOneRoundLater(period, work, slots, k - slots);
      Regimes(period, work, slots, k - slots);
      Division.Distribute(k - slots, slots, period);
    }
  }

  /** The two regimes: enough processors, no delay; too few, a delay that grows round by round. */
  lemma Regimes(period: nat, work: nat, slots: nat, k: nat)
    requires slots > 0
    ensures work <= slots * period ==> Start(period, work, slots, k) == k * period
    ensures work > slots * period ==>
      Start(period, work, slots, k) - k * period == (k / slots) * (work - slots * period)
  {}

  /** In the first round no frame waits. */
  lemma FirstRound(period: nat, work: nat, slots: nat, k: nat)
    requires k < slots
    ensures Start(period, work, slots, k) == k * period
  {
    assert k / slots == 0;
  }

  /** A frame never starts before it arrives. */
  lemma StartsAfterArrival(period: nat, work: nat, slots: nat, k: nat)
    requires slots > 0
    ensures Start(period, work, slots, k) >= k * period
  {}

  // ----- how many processors are needed -----

  /** c processors are needed: all there are, or so many that one is free again when its turn comes, but no fewer. */
  ghost predicate Needs(period: nat, work: nat, slots: nat, c: nat) {
    1 <= c <= slots && (c == 1 || (c - 1) * period < work) && (c == slots || work < c * period)
  }

  lemma SomeAreNeeded(period: nat, work: nat, slots: nat)
    requires period > 0 && slots > 0 && forall m :: 1 <= m < slots ==> work != m * period
    ensures exists c :: Needs(period, work, slots, c)
  {
    var q := work / period;
    assert q * period <= work < (q + 1) * period by { Division.Distribute(q, 1, period); }
    var c := if q < slots then q + 1 else slots;
    assert (c - 1) * period <= work by { Division.Times(c - 1, q, period); }
    assert c > 1 ==> work != (c - 1) * period;
    assert Needs(period, work, slots, c);
  }

  lemma NoneCoincide(period: nat, work: nat, slots: nat, c: nat, m: nat)
    requires Needs(period, work, slots, c) && 1 <= m < slots
    ensures work != m * period
  {
    if m < c {
      Division.Times(m, c - 1, period);
    } else {
      Division.Times(c, m, period);
    }
  }

  /** There is such a number unless the end of a processing can coincide with an arrival while processors are to spare. */
  lemma NeedsExactly(period: nat, work: nat, slots: nat)
    requires period > 0 && slots > 0
    ensures (exists c :: Needs(period, work, slots, c)) <==> forall m :: 1 <= m < slots ==> work != m * period
  {
    if c :| Needs(period, work, slots, c) {
      forall m | 1 <= m < slots
        ensures work != m * period
      {
        NoneCoincide(period, work, slots, c, m);
      }
    } else if forall m :: 1 <= m < slots ==> work != m * period {
      SomeAreNeeded(period, work, slots);
    }
  }

  /** The distance of two starts of the same round, or of any two when fewer processors are needed than there are. */
  lemma StartsApart(period: nat, work: nat, slots: nat, c: nat, j: nat, k: nat)
    requires Needs(period, work, slots, c) && j <= k && (c < slots || j / slots == k / slots)
    ensures Start(period, work, slots, k) == Start(period, work, slots, j) + (k - j) * period
  {
    Division.Distribute(j, k - j, period);
    if c < slots {
      Division.Times(c, slots, period);
    }
  }

  /** The frame whose turn was on a lower processor is still worked on when frame k starts. */
  lemma TurnIsBusy(period: nat, work: nat, slots: nat, c: nat, k: nat, s: nat) returns (j: nat)
    requires Needs(period, work, slots, c) && s < k % c
    ensures j < k && j % c == s && Start(period, work, slots, k) < Start(period, work, slots, j) + work
  {
    j := k - k % c + s;
    assert k == (k / c) * c + k % c;
    Division.Unique(j, k / c, s, c);
    Division.UniqueQuotient(j, k / c, s, c);
    StartsApart(period, work, slots, c, j, k);
    Division.Times(k - j, c - 1, period);
  }

  /** The frame that had the same turn is done when frame k starts, if fewer processors are needed than there are. */
  lemma TurnIsOver(period: nat, work: nat, slots: nat, c: nat, j: nat, k: nat)
    requires Needs(period, work, slots, c) && j < k && j % c == k % c
    ensures k - j >= c
    ensures c < slots ==> Start(period, work, slots, j) + work < Start(period, work, slots, k)
  {
    Division.Apart(j, k, c);
    if c < slots {
      StartsApart(period, work, slots, c, j, k);
      Division.Times(c, k - j, period);
    }
  }

  /** When a frame still waits at the time another is done, all processors take turns. */
  lemma AllTakeTurns(period: nat, work: nat, slots: nat, c: nat, d: nat)
    requires Needs(period, work, slots, c) && Arrival(period, d + slots) <= Start(period, work, slots, d) + work
    ensures c == slots && (d + slots) % c == d % c
  {
    if c < slots {
      Division.Times(c, slots, period);
      Division.Distribute(d, slots, period);
    }
    Division.Distribute(d / slots, 1, slots);
    Division.Unique(d + slots, d / slots + 1, d % slots, slots);
  }
}

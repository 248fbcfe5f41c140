/** The task lease: instances take a task row by a conditional update, renew it before
    every frame, and give it back by another conditional update. Only the rows and the
    clock are shared; what an instance believes is its own phase. */
module Lease {
  import opened Wrappers

  /** Five minutes, in milliseconds. */
  const LEASE: nat := 5 * 60 * 1000

  /** The lock columns of a task row; an owner goes with an expiry time. */
  datatype Lock = Free | Held(owner: nat, expires: nat)

  /** What an instance is doing: nothing, a frame begun when it last held the lease for
      sure, or leaving with its deferred release still to run. */
  datatype Phase = Idle | Working(since: nat) | Leaving

  /** `row` is None once the task row is deleted. */
  datatype State = State(now: nat, row: Option<Lock>, phases: map<nat, Phase>)

  datatype Event =
    | Tick(d: nat)
    | Acquire(i: nat)
    | Renew(i: nat)
    | Finish(i: nat)
    | Fail(i: nat)
    | Release(i: nat)
    | Crash(i: nat)

  const Initial: State := State(0, Some(Free), map[])

  function PhaseOf(s: State, i: nat): Phase {
    if i in s.phases then s.phases[i] else Idle
  }

  predicate Owns(s: State, i: nat) {
    s.row.Some? && s.row.value.Held? && s.row.value.owner == i
  }

  /** The row matches `lock_owner = '' OR lock_expires_at < now`. */
  predicate Takeable(s: State) {
    s.row.Some? && (s.row.value.Free? || s.row.value.expires < s.now)
  }

  function Enter(s: State, i: nat, p: Phase): State {
    s.(phases := s.phases[i := p])
  }

  function Take(s: State, i: nat): State {
    Enter(s, i, Working(s.now)).(row := Some(Held(i, s.now + LEASE)))
  }

  /** One step of one instance, or of the clock; a step not open to the instance in its
      phase changes nothing. */
  function Step(s: State, e: Event): State {
    match e
    case Tick(d) => s.(now := s.now + d)
    case Acquire(i) => if PhaseOf(s, i).Idle? && Takeable(s) then Take(s, i) else s
    case Renew(i) =>
      if !PhaseOf(s, i).Working? then s
      else if Owns(s, i) then Take(s, i)
      else Enter(s, i, Leaving)
    case Finish(i) => if PhaseOf(s, i).Working? then Enter(s, i, Leaving).(row := None) else s
    case Fail(i) => if PhaseOf(s, i).Working? then Enter(s, i, Leaving) else s
    case Release(i) =>
      if !PhaseOf(s, i).Leaving? then s
      else if Owns(s, i) then Enter(s, i, Idle).(row := Some(Free))
      else Enter(s, i, Idle)
    case Crash(i) => Enter(s, i, Idle)
  }

  function Run(s: State, events: seq<Event>): State {
    if events == [] then s else Step(Run(s, events[..|events| - 1]), events[|events| - 1])
  }

  /** Each instance takes its steps in turn: an idle one only acquires or crashes, one on
      its way out only releases or crashes, one at work does neither acquire nor release. */
  lemma NothingOutOfTurn(s: State, i: nat)
    ensures PhaseOf(s, i).Idle? ==> Step(s, Renew(i)) == Step(s, Finish(i)) == Step(s, Fail(i)) == Step(s, Release(i)) == s
    ensures PhaseOf(s, i).Leaving? ==> Step(s, Acquire(i)) == Step(s, Renew(i)) == Step(s, Finish(i)) == Step(s, Fail(i)) == s
    ensures PhaseOf(s, i).Working? ==> Step(s, Acquire(i)) == Step(s, Release(i)) == s
  {
  }

  // ----- what every run keeps -----

  /** A worker that still owns the row holds exactly the lease it took, no lease runs
      further than one lease ahead, and clocks of frames lie in the past. */
  ghost predicate Inv(s: State) {
    && (s.row.Some? && s.row.value.Held? ==> s.row.value.expires <= s.now + LEASE)
    && forall i | PhaseOf(s, i).Working? :: PhaseOf(s, i).since <= s.now && (Owns(s, i) ==> s.row.value.expires == PhaseOf(s, i).since + LEASE)
  }

  lemma StepKeepsInv(s: State, e: Event)
    requires Inv(s)
    ensures Inv(Step(s, e))
  {
    forall i | PhaseOf(Step(s, e), i).Working? ensures PhaseOf(s, i).Working? || e == Acquire(i) {
    }
  }

  lemma {:induction false} RunKeepsInv(events: seq<Event>)
    ensures Inv(Run(Initial, events))
  {
    if events != [] {
      RunKeepsInv(events[..|events| - 1]);
      StepKeepsInv(Run(Initial, events[..|events| - 1]), events[|events| - 1]);
    }
  }

  // ----- a displaced instance -----

  /** The instance still thinks it is at work, or is on its way out, but the row is not its. */
  predicate Displaced(s: State, i: nat) {
    !PhaseOf(s, i).Idle? && !Owns(s, i)
  }

  predicate Departs(e: Event, i: nat) {
    e == Release(i) || e == Crash(i)
  }

  /** Whatever the other instances do, a displaced instance never gets the row back: it
      passes no renewal, and its release leaves the new owner's lock alone. */
  lemma {:induction false} DisplacedStaysOut(s: State, events: seq<Event>, i: nat)
    requires Displaced(s, i) && forall k | 0 <= k < |events| :: !Departs(events[k], i)
    ensures Displaced(Run(s, events), i)
    ensures Step(Run(s, events), Renew(i)).row == Run(s, events).row
    ensures !PhaseOf(Step(Run(s, events), Renew(i)), i).Working?
    ensures Step(Run(s, events), Release(i)).row == Run(s, events).row
  {
    if events != [] {
      var last := |events| - 1;
      DisplacedStaysOut(s, events[..last], i);
      assert !Departs(events[last], i);
    }
  }

  // ----- how long a lease lasts -----

  /** The event gives the instance the row for another lease: it takes a row that may be
      taken, or renews one that is its own. */
  predicate Obtains(s: State, e: Event, i: nat) {
    || (e == Acquire(i) && PhaseOf(s, i).Idle? && Takeable(s))
    || (e == Renew(i) && PhaseOf(s, i).Working? && Owns(s, i))
  }

  /** What a lease obtained at time `since` keeps until it runs out. */
  ghost predicate Protected(s: State, i: nat, since: nat) {
    && since <= s.now
    && (s.row.Some? ==> s.row.value.Held? && s.row.value.owner == i && s.row.value.expires >= since + 300_000)
  }

  lemma ObtainedIsProtected(s: State, e: Event, i: nat)
    requires Obtains(s, e, i)
    ensures Protected(Step(s, e), i, s.now) && Owns(Step(s, e), i) && Step(s, e).now == s.now
  {
  }

  /** And no other event does: the row changes to an instance's only so. */
  lemma NoOtherWayIn(s: State, e: Event, i: nat)
    requires Owns(Step(s, e), i) && Step(s, e).row != s.row
    ensures Obtains(s, e, i)
  {
  }

  lemma StepKeepsProtected(s: State, e: Event, i: nat, since: nat)
    requires Protected(s, i, since) && e != Release(i) && s.now <= since + 300_000
    ensures Protected(Step(s, e), i, since) && (!e.Finish? && s.row.Some? ==> Step(s, e).row.Some?)
  {
  }

  lemma ClockRuns(s: State, e: Event)
    ensures Step(s, e).now == s.now + if e.Tick? then e.d else 0
  {
  }

  /** For five minutes after an instance takes or renews the lease nobody else gets the row,
      whatever the others do, unless the instance gives it back; and it is still its own
      unless somebody finished the task. */
  lemma {:induction false} FiveMinutesToOneself(s: State, e: Event, i: nat, more: seq<Event>)
    requires Obtains(s, e, i) && (forall k | 0 <= k < |more| :: more[k] != Release(i))
    requires Run(Step(s, e), more).now <= s.now + 300_000
    ensures Protected(Run(Step(s, e), more), i, s.now)
    ensures forall k | Owns(Run(Step(s, e), more), k) :: k == i
    ensures (forall k | 0 <= k < |more| :: !more[k].Finish?) ==> Owns(Run(Step(s, e), more), i)
  {
    if more == [] {
      ObtainedIsProtected(s, e, i);
    } else {
      var last := |more| - 1;
      ClockRuns(Run(Step(s, e), more[..last]), more[last]);
      FiveMinutesToOneself(s, e, i, more[..last]);
      StepKeepsProtected(Run(Step(s, e), more[..last]), more[last], i, s.now);
    }
  }

  /** Not renewed, not given back and not finished. */
  ghost predicate LeftAlone(more: seq<Event>, i: nat) {
    forall k | 0 <= k < |more| :: more[k] != Release(i) && more[k] != Renew(i) && more[k] != Crash(i) && !more[k].Finish?
  }

  /** The row is still the instance's, exactly as obtained, or others have had it since it
      ran out. */
  ghost predicate RunsOut(s: State, i: nat, since: nat) {
    && s.row.Some? && !PhaseOf(s, i).Idle? && since <= s.now
    && (Owns(s, i) ==> s.row.value.expires == since + 300_000)
    && (!Owns(s, i) ==> s.now > since + 300_000)
  }

  lemma StepRunsOut(s: State, e: Event, i: nat, since: nat)
    requires RunsOut(s, i, since) && e != Release(i) && e != Renew(i) && e != Crash(i) && !e.Finish?
    ensures RunsOut(Step(s, e), i, since)
  {
  }

  lemma {:induction false} LeaseRunsOut(s: State, e: Event, i: nat, more: seq<Event>)
    requires Obtains(s, e, i) && LeftAlone(more, i)
    ensures RunsOut(Run(Step(s, e), more), i, s.now)
  {
    if more != [] {
      var last := |more| - 1;
      LeaseRunsOut(s, e, i, more[..last]);
      StepRunsOut(Run(Step(s, e), more[..last]), more[last], i, s.now);
    }
  }

  /** And not longer: if the lease is neither renewed nor given back, another instance can
      have the row, by now or by taking it now, exactly when more than five minutes have
      gone by since it was taken or renewed. */
  lemma TakenAfterFiveMinutesExactly(s: State, e: Event, i: nat, more: seq<Event>, j: nat)
    requires Obtains(s, e, i) && LeftAlone(more, i) && i != j && PhaseOf(Run(Step(s, e), more), j).Idle?
    ensures (exists k :: k != i && Owns(Step(Run(Step(s, e), more), Acquire(j)), k)) <==> Run(Step(s, e), more).now > s.now + 300_000
  {
    LeaseRunsOut(s, e, i, more);
    var now := Run(Step(s, e), more);
    var after := Step(now, Acquire(j));
    if now.now > s.now + 300_000 {
      var k := if Takeable(now) then j else now.row.value.owner;
      assert k != i && Owns(after, k);
    }
  }

  /** An owner that leaves, its frames done or given up, makes room at once: any idle
      instance, itself included, takes the row without waiting. */
  lemma ReleaseMakesRoom(s: State, i: nat, j: nat)
    requires Owns(s, i) && PhaseOf(s, i).Working? && (PhaseOf(s, j).Idle? || j == i)
    ensures var left := Step(Step(s, Fail(i)), Release(i));
            && left.row == Some(Free) && left.now == s.now && PhaseOf(left, i).Idle?
            && Owns(Step(left, Acquire(j)), j) && PhaseOf(Step(left, Acquire(j)), j).Working?
  {
  }

  // ----- mutual exclusion -----

  /** No frame is running longer than its lease. */
  ghost predicate InTime(s: State) {
    forall i | PhaseOf(s, i).Working? :: s.now <= PhaseOf(s, i).since + LEASE
  }

  ghost predicate Exclusive(s: State) {
    forall i | PhaseOf(s, i).Working? :: Owns(s, i)
  }

  lemma StepKeepsExclusive(s: State, e: Event)
    requires Inv(s) && InTime(s) && Exclusive(s)
    ensures Exclusive(Step(s, e))
  {
    forall i | PhaseOf(Step(s, e), i).Working? ensures Owns(Step(s, e), i) {
      assert PhaseOf(s, i).Working? || e == Acquire(i);
    }
  }

  /** If every frame ends within its lease, whoever works owns the row; so no two
      instances ever work on the task at once. */
  lemma {:induction false} NoTwoWorkers(events: seq<Event>)
    requires forall n | 0 <= n < |events| :: InTime(Run(Initial, events[..n]))
    ensures Exclusive(Run(Initial, events))
    ensures forall i, j | PhaseOf(Run(Initial, events), i).Working? && PhaseOf(Run(Initial, events), j).Working? :: i == j
  {
    if events != [] {
      var last := |events| - 1;
      var before := events[..last];
      forall n | 0 <= n < last ensures InTime(Run(Initial, before[..n])) {
        assert before[..n] == events[..n];
      }
      NoTwoWorkers(before);
      RunKeepsInv(before);
      StepKeepsExclusive(Run(Initial, before), events[last]);
    }
  }

  /** Exactly when a task is taken over from an instance at work: when that instance's
      frame has outlived its lease. */
  lemma TakeoverExactly(events: seq<Event>, i: nat, j: nat)
    requires var s := Run(Initial, events);
             i != j && PhaseOf(s, i).Working? && Owns(s, i) && PhaseOf(s, j).Idle?
    ensures var s := Run(Initial, events);
            Owns(Step(s, Acquire(j)), j) <==> PhaseOf(s, i).since + LEASE < s.now
  {
    RunKeepsInv(events);
  }

  /** Whoever works owns the row, or the row is gone, or its frame has outlived its lease. */
  ghost predicate LostOnlyByOverrun(s: State) {
    forall i | PhaseOf(s, i).Working? :: Owns(s, i) || s.row.None? || PhaseOf(s, i).since + LEASE < s.now
  }

  lemma StepKeepsLost(s: State, e: Event)
    requires Inv(s) && LostOnlyByOverrun(s)
    ensures LostOnlyByOverrun(Step(s, e))
  {
    forall i | PhaseOf(Step(s, e), i).Working? ensures PhaseOf(s, i).Working? || e == Acquire(i) {
    }
  }

  lemma {:induction false} RunKeepsLost(events: seq<Event>)
    ensures LostOnlyByOverrun(Run(Initial, events))
  {
    if events != [] {
      var before := events[..|events| - 1];
      RunKeepsInv(before);
      RunKeepsLost(before);
      StepKeepsLost(Run(Initial, before), events[|events| - 1]);
    }
  }

  /** Exactly when the final delete of an instance at work, which does not look at the
      owner, can remove a row that another instance holds, now or once an idle one has
      tried to take it: when the row is still there and the frame has outlived its lease. */
  lemma FinishRemovesOthersExactly(events: seq<Event>, i: nat, j: nat)
    requires i != j && PhaseOf(Run(Initial, events), i).Working? && PhaseOf(Run(Initial, events), j).Idle?
    ensures var s, t := Run(Initial, events), Step(Run(Initial, events), Acquire(j));
            && ((exists k :: k != i && Owns(t, k)) <==> s.row.Some? && PhaseOf(s, i).since + LEASE < s.now)
            && Step(t, Finish(i)).row == None
  {
    var s, t := Run(Initial, events), Step(Run(Initial, events), Acquire(j));
    RunKeepsInv(events);
    RunKeepsLost(events);
    StepKeepsLost(s, Acquire(j));
    assert PhaseOf(t, i) == PhaseOf(s, i);
    if s.row.Some? && PhaseOf(s, i).since + LEASE < s.now {
      var k := if Takeable(s) then j else s.row.value.owner;
      assert k != i && Owns(t, k);
    }
  }

  /** No crash blocks a task: one lease later any idle instance can take it. */
  lemma NeverStuck(events: seq<Event>, j: nat, d: nat)
    requires Run(Initial, events).row.Some? && PhaseOf(Run(Initial, events), j).Idle? && d > LEASE
    ensures var s := Step(Step(Run(Initial, events), Tick(d)), Acquire(j)); Owns(s, j) && PhaseOf(s, j).Working?
  {
    RunKeepsInv(events);
  }

  /** Why frames must end in time: a frame that outlives its lease leaves two instances
      at work, and since the final delete of the task row does not look at the owner, the
      displaced one can remove the row the other one works on. */
  lemma OverrunBreaksExclusion()
    ensures var s := Run(Initial, [Acquire(1), Tick(LEASE + 1), Acquire(2)]);
            && PhaseOf(s, 1).Working? && PhaseOf(s, 2).Working? && Owns(s, 2)
            && Step(s, Finish(1)).row == None && PhaseOf(Step(s, Finish(1)), 2).Working?
  {
    var events := [Acquire(1), Tick(LEASE + 1), Acquire(2)];
    assert events[..2] == [Acquire(1), Tick(LEASE + 1)] && events[..2][..1] == [Acquire(1)] && events[..2][..1][..0] == [];
    assert Run(Initial, events[..2][..1]) == Take(Initial, 1);
    assert Run(Initial, events[..2]) == Step(Take(Initial, 1), Tick(LEASE + 1));
  }
}

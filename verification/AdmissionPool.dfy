/** The request admission pool: a semaphore and a waiting queue, both bounded channels,
    used by any number of requests at once. */
module AdmissionPool {

  datatype Mode = Block | Reject

  datatype Config = Config(concurrent: nat, depth: nat, mode: Mode)

  /** Where a request stands in Acquire; a request that got its token holds it until it
      releases it. */
  datatype Place =
    | Outside
    | TryQueue
    | WaitToken
    | WaitSlot
    | InQueue
    | LeaveQueue(granted: bool)
    | Holding
    | Cancelled
    | Refused

  /** Channel occupancies, places, and how many tokens were taken and given back. */
  datatype State = State(sem: nat, queue: nat, at: map<nat, Place>, granted: nat, released: nat)

  const Idle: State := State(0, 0, map[], 0, 0)

  function PlaceOf(s: State, i: nat): Place {
    if i in s.at then s.at[i] else Outside
  }

  /** What a request may do next; `Cancel` is the branch of a select that its finished
      context opens. */
  datatype Event = Call(i: nat) | Enqueue(i: nat) | Token(i: nat) | Leave(i: nat) | Cancel(i: nat) | Release(i: nat)

  function Go(s: State, i: nat, p: Place): State {
    s.(at := s.at[i := p])
  }

  function Take(s: State, i: nat, p: Place): State {
    Go(s, i, p).(sem := s.sem + 1, granted := s.granted + 1)
  }

  /** The channel operation the event needs is ready. */
  predicate Enabled(c: Config, s: State, e: Event) {
    match e
    case Call(i) => PlaceOf(s, i) in {Outside, Cancelled, Refused}
    case Enqueue(i) => PlaceOf(s, i) == TryQueue || (PlaceOf(s, i) == WaitSlot && s.queue < c.depth)
    case Token(i) => PlaceOf(s, i) in {WaitToken, InQueue} && s.sem < c.concurrent
    case Leave(i) => PlaceOf(s, i).LeaveQueue? && s.queue > 0
    case Cancel(i) => PlaceOf(s, i) in {TryQueue, WaitToken, WaitSlot, InQueue}
    case Release(i) => PlaceOf(s, i) == Holding && s.sem > 0
  }

  function Step(c: Config, s: State, e: Event): State {
    if !Enabled(c, s, e) then s
    else match e
      case Call(i) =>
        if s.sem < c.concurrent then Take(s, i, Holding)
        else if c.depth > 0 then Go(s, i, TryQueue)
        else Go(s, i, if c.mode == Reject then Refused else WaitToken)
      case Enqueue(i) =>
        if s.queue < c.depth then Go(s, i, InQueue).(queue := s.queue + 1)
        else Go(s, i, if c.mode == Reject then Refused else WaitSlot)
      case Token(i) => Take(s, i, if PlaceOf(s, i) == InQueue then LeaveQueue(true) else Holding)
      case Leave(i) => Go(s, i, if PlaceOf(s, i).granted then Holding else Cancelled).(queue := s.queue - 1)
      case Cancel(i) => Go(s, i, if PlaceOf(s, i) == InQueue then LeaveQueue(false) else Cancelled)
      case Release(i) => Go(s, i, Outside).(sem := s.sem - 1, released := s.released + 1)
  }

  function Run(c: Config, events: seq<Event>): State {
    if events == [] then Idle else Step(c, Run(c, events[..|events| - 1]), events[|events| - 1])
  }

  predicate HasToken(p: Place) {
    p == Holding || p == LeaveQueue(true)
  }

  predicate HasSlot(p: Place) {
    p == InQueue || p.LeaveQueue?
  }

  function TokenHolders(s: State): set<nat> {
    set i | i in s.at && HasToken(s.at[i])
  }

  function SlotHolders(s: State): set<nat> {
    set i | i in s.at && HasSlot(s.at[i])
  }

  /** Tokens out are tokens held, slots taken are requests in the queue, and neither
      channel is ever over its capacity. */
  ghost predicate Inv(c: Config, s: State) {
    && s.sem == |TokenHolders(s)| && s.sem == s.granted - s.released && s.sem <= c.concurrent
    && s.queue == |SlotHolders(s)| && s.queue <= c.depth
  }

  lemma SetChanges(a: set<nat>, b: set<nat>, i: nat)
    requires forall k | k != i :: k in a <==> k in b
    ensures |b| == |a| + (if i in b then 1 else 0) - (if i in a then 1 else 0)
  {
    assert a - {i} == b - {i};
    assert i in a ==> a == (a - {i}) + {i};
    assert i in b ==> b == (b - {i}) + {i};
    assert i !in a ==> a == a - {i};
    assert i !in b ==> b == b - {i};
  }

  /** Moving one request changes the counts by that request alone. */
  lemma PlaceChanges(s: State, t: State, i: nat, p: Place)
    requires t.at == s.at[i := p]
    ensures |TokenHolders(t)| == |TokenHolders(s)| + (if HasToken(p) then 1 else 0) - (if HasToken(PlaceOf(s, i)) then 1 else 0)
    ensures |SlotHolders(t)| == |SlotHolders(s)| + (if HasSlot(p) then 1 else 0) - (if HasSlot(PlaceOf(s, i)) then 1 else 0)
  {
    SetChanges(TokenHolders(s), TokenHolders(t), i);
    SetChanges(SlotHolders(s), SlotHolders(t), i);
  }

  lemma StepKeepsInv(c: Config, s: State, e: Event)
    requires Inv(c, s)
    ensures Inv(c, Step(c, s, e))
  {
    if Enabled(c, s, e) {
      var t := Step(c, s, e);
      PlaceChanges(s, t, e.i, PlaceOf(t, e.i));
    }
  }

  /** Holds in every interleaving. */
  lemma {:induction false} RunKeepsInv(c: Config, events: seq<Event>)
    ensures Inv(c, Run(c, events))
  {
    if events != [] {
      RunKeepsInv(c, events[..|events| - 1]);
      StepKeepsInv(c, Run(c, events[..|events| - 1]), events[|events| - 1]);
    }
  }

  /** Giving a slot or a token back never waits: whoever has one finds the channel
      non-empty. */
  lemma GivingBackNeverWaits(c: Config, events: seq<Event>, i: nat)
    ensures var s := Run(c, events);
            && (PlaceOf(s, i).LeaveQueue? ==> Enabled(c, s, Leave(i)))
            && (PlaceOf(s, i) == Holding ==> Enabled(c, s, Release(i)))
  {
    var s := Run(c, events);
    RunKeepsInv(c, events);
    if HasToken(PlaceOf(s, i)) {
      assert i in TokenHolders(s);
      assert TokenHolders(s) != {};
    }
    if HasSlot(PlaceOf(s, i)) {
      assert i in SlotHolders(s);
      assert SlotHolders(s) != {};
    }
  }

  predicate Finished(p: Place) {
    p in {Outside, Cancelled, Refused}
  }

  /** Once every request is done, no token and no slot is left behind. */
  lemma NothingLeaks(c: Config, events: seq<Event>)
    requires forall i :: Finished(PlaceOf(Run(c, events), i))
    ensures Run(c, events).sem == 0 && Run(c, events).queue == 0
  {
    var s := Run(c, events);
    RunKeepsInv(c, events);
    forall i ensures i !in TokenHolders(s) && i !in SlotHolders(s) {
      assert Finished(PlaceOf(s, i));
    }
    assert TokenHolders(s) == {} && SlotHolders(s) == {};
  }

  /** No deadlock: while a request waits, some request can move on without anyone's
      context ending, or a holder can release. */
  lemma SomeoneCanMove(c: Config, events: seq<Event>, i: nat)
    requires c.concurrent > 0 && (c.depth > 0 || PlaceOf(Run(c, events), i) == WaitToken)
    requires PlaceOf(Run(c, events), i) in {WaitToken, WaitSlot, InQueue, TryQueue}
    ensures exists e: Event :: !e.Cancel? && !e.Call? && Enabled(c, Run(c, events), e)
  {
    var s := Run(c, events);
    RunKeepsInv(c, events);
    if s.sem < c.concurrent {
      if PlaceOf(s, i) in {WaitToken, InQueue} {
        assert Enabled(c, s, Token(i));
      } else if PlaceOf(s, i) == TryQueue || s.queue < c.depth {
        assert Enabled(c, s, Enqueue(i));
      } else {
        assert |SlotHolders(s)| > 0;
        var j :| j in SlotHolders(s);
        assert Enabled(c, s, if PlaceOf(s, j) == InQueue then Token(j) else Leave(j));
      }
    } else {
      assert |TokenHolders(s)| > 0;
      var j :| j in TokenHolders(s);
      GivingBackNeverWaits(c, events, j);
      assert Enabled(c, s, if PlaceOf(s, j) == Holding then Release(j) else Leave(j));
    }
  }

  /** A call finds a free token at once, and a request that waits gets one as soon as it
      is free: from the queue by leaving it, and from nowhere else. */
  lemma FreeTokenIsTaken(c: Config, events: seq<Event>, i: nat)
    requires Run(c, events).sem < c.concurrent
    ensures var s := Run(c, events);
            && (PlaceOf(s, i) in {Outside, Cancelled, Refused} ==>
                  PlaceOf(Step(c, s, Call(i)), i) == Holding && Step(c, s, Call(i)).sem == s.sem + 1)
            && (PlaceOf(s, i) == WaitToken ==>
                  PlaceOf(Step(c, s, Token(i)), i) == Holding && Step(c, s, Token(i)).sem == s.sem + 1)
            && (PlaceOf(s, i) == InQueue ==>
                  var t := Step(c, Step(c, s, Token(i)), Leave(i));
                  PlaceOf(t, i) == Holding && t.sem == s.sem + 1 && t.queue == s.queue - 1)
  {
    HolderCounts(c, events, i);
  }

  lemma HolderCounts(c: Config, events: seq<Event>, i: nat)
    ensures HasSlot(PlaceOf(Run(c, events), i)) ==> Run(c, events).queue > 0
    ensures HasToken(PlaceOf(Run(c, events), i)) ==> Run(c, events).sem > 0
  {
    var s := Run(c, events);
    RunKeepsInv(c, events);
    if HasSlot(PlaceOf(s, i)) {
      assert i in SlotHolders(s);
    }
    if HasToken(PlaceOf(s, i)) {
      assert i in TokenHolders(s);
    }
  }

  /** Wherever a request waits, the end of its context takes it out, without a token, and
      a place in the queue is given back. */
  lemma WaitingCanBeCancelled(c: Config, events: seq<Event>, i: nat)
    requires PlaceOf(Run(c, events), i) in {TryQueue, WaitToken, WaitSlot, InQueue}
    ensures var s := Run(c, events);
            var t := Step(c, Step(c, s, Cancel(i)), Leave(i));
            && PlaceOf(t, i) == Cancelled && t.sem == s.sem && t.granted == s.granted
            && t.queue == s.queue - if PlaceOf(s, i) == InQueue then 1 else 0
  {
    HolderCounts(c, events, i);
  }

  /** A release gives its token back: the next call finds it. */
  lemma ReleasedTokenIsFree(c: Config, events: seq<Event>, i: nat, k: nat)
    requires PlaceOf(Run(c, events), i) == Holding && k != i && PlaceOf(Run(c, events), k) == Outside
    ensures var s := Run(c, events);
            var t := Step(c, s, Release(i));
            t.sem == s.sem - 1 && PlaceOf(t, i) == Outside && PlaceOf(Step(c, t, Call(k)), k) == Holding
  {
    RunKeepsInv(c, events);
    HolderCounts(c, events, i);
  }

  // ----- refusals -----

  /** Which steps refuse: a call in a pool without a queue, all tokens out, and an attempt
      to enter a full queue, whatever the tokens are by then. */
  lemma RefusedExactly(c: Config, s: State, e: Event)
    requires Inv(c, s) && PlaceOf(s, e.i) != Refused
    ensures PlaceOf(Step(c, s, e), e.i) == Refused
            <==> c.mode == Reject && Enabled(c, s, e)
                 && ((e.Call? && s.sem == c.concurrent && c.depth == 0) || (e.Enqueue? && s.queue == c.depth))
  {
  }

  lemma RefusedNow(c: Config, s: State, e: Event, i: nat)
    requires Inv(c, s) && PlaceOf(Step(c, s, e), i) == Refused && (PlaceOf(s, i) == Refused ==> e == Call(i))
    ensures c.mode == Reject
    ensures (e == Call(i) && s.sem == c.concurrent && c.depth == 0)
            || (e == Enqueue(i) && s.queue == c.depth && PlaceOf(s, i) == TryQueue)
  {
  }

  /** A request before the queue found every token out when it called. */
  lemma {:induction false} TryingCalledInVain(c: Config, events: seq<Event>, i: nat) returns (call: nat)
    requires PlaceOf(Run(c, events), i) == TryQueue
    ensures call < |events| && events[call] == Call(i) && Run(c, events[..call]).sem >= c.concurrent && c.depth > 0
  {
    var last := |events| - 1;
    var before := events[..last];
    if PlaceOf(Run(c, before), i) == TryQueue {
      call := TryingCalledInVain(c, before, i);
      assert before[..call] == events[..call];
    } else {
      call := last;
    }
  }

  /** Every refused request found, in reject mode, all tokens out when it called; without
      a queue that is when it was refused, with one it found the queue full afterwards,
      when it tried to enter. Between the two a token may have come free, if more tokens
      were released than granted; which pools let that happen says RefusesInVainExactly. */
  lemma {:induction false} RefusedFoundPoolBusy(c: Config, events: seq<Event>, i: nat) returns (call: nat, last: nat)
    requires PlaceOf(Run(c, events), i) == Refused
    ensures call <= last < |events| && c.mode == Reject && events[call] == Call(i)
    ensures var atCall, atLast := Run(c, events[..call]), Run(c, events[..last]);
            && atCall.sem == c.concurrent
            && (if c.depth == 0 then last == call else call < last && events[last] == Enqueue(i) && atLast.queue == c.depth)
            && (atLast.sem < c.concurrent <==> atLast.released - atCall.released > atLast.granted - atCall.granted)
  {
    hide Step, TokenHolders, SlotHolders;
    var n := |events| - 1;
    var before := events[..n];
    if PlaceOf(Run(c, before), i) == Refused && events[n] != Call(i) {
      call, last := RefusedFoundPoolBusy(c, before, i);
      assert before[..call] == events[..call] && before[..last] == events[..last];
    } else {
      last := n;
      call := n;
      RunKeepsInv(c, before);
      RefusedNow(c, Run(c, before), events[n], i);
      if events[n] == Enqueue(i) {
        call := TryingCalledInVain(c, before, i);
        assert before[..call] == events[..call];
      }
      RunKeepsInv(c, events[..call]);
      RunKeepsInv(c, events[..last]);
    }
  }

  /** The next event of the run refuses its request although a token is free. */
  ghost predicate RefusesInVain(c: Config, events: seq<Event>, e: Event) {
    var s := Run(c, events);
    PlaceOf(s, e.i) != Refused && PlaceOf(Step(c, s, e), e.i) == Refused && s.sem < c.concurrent
  }

  /** The first `n` requests hold a token, the next `d` wait in the queue, nobody else has
      called. */
  ghost predicate Crowd(s: State, n: nat, d: nat) {
    && s.sem == n && s.queue == d
    && forall i: nat :: PlaceOf(s, i) == if i < n then Holding else if i < n + d then InQueue else Outside
  }

  lemma RunMore(c: Config, events: seq<Event>, e: Event)
    ensures Run(c, events + [e]) == Step(c, Run(c, events), e)
  {
    assert (events + [e])[..|events|] == events;
  }

  lemma OneMoreHolds(c: Config, s: State, n: nat)
    requires Crowd(s, n, 0) && n < c.concurrent
    ensures Crowd(Step(c, s, Call(n)), n + 1, 0)
  {
    assert PlaceOf(s, n) == Outside;
    var t := Step(c, s, Call(n));
    forall i: nat | i != n ensures PlaceOf(t, i) == PlaceOf(s, i) {
    }
  }

  lemma OneMoreWaits(c: Config, s: State, d: nat, i: nat)
    requires Crowd(s, c.concurrent, d) && d < c.depth && i == c.concurrent + d
    ensures Crowd(Step(c, Step(c, s, Call(i)), Enqueue(i)), c.concurrent, d + 1)
  {
    assert PlaceOf(s, i) == Outside;
    var t := Step(c, s, Call(i));
    assert t == Go(s, i, TryQueue);
    var u := Step(c, t, Enqueue(i));
    assert u == Go(t, i, InQueue).(queue := d + 1);
    forall k: nat | k != i ensures PlaceOf(u, k) == PlaceOf(s, k) {
    }
  }

  lemma {:induction false} TokensCanBeOut(c: Config, n: nat) returns (events: seq<Event>)
    requires n <= c.concurrent
    ensures Crowd(Run(c, events), n, 0)
  {
    hide Crowd, Step;
    if n == 0 {
      events := [];
      NobodyCalled();
    } else {
      var before := TokensCanBeOut(c, n - 1);
      OneMoreHolds(c, Run(c, before), n - 1);
      RunMore(c, before, Call(n - 1));
      events := before + [Call(n - 1)];
    }
  }

  lemma NobodyCalled()
    ensures Crowd(Idle, 0, 0)
  {
  }

  lemma {:induction false} QueueCanBeFull(c: Config, d: nat) returns (events: seq<Event>)
    requires d <= c.depth
    ensures Crowd(Run(c, events), c.concurrent, d)
    decreases d
  {
    hide Crowd, Step;
    if d == 0 {
      events := TokensCanBeOut(c, c.concurrent);
    } else {
      var before := QueueCanBeFull(c, d - 1);
      var i := c.concurrent + (d - 1);
      OneMoreWaits(c, Run(c, before), d - 1, i);
      RunMore(c, before, Call(i));
      RunMore(c, before + [Call(i)], Enqueue(i));
      events := before + [Call(i)] + [Enqueue(i)];
    }
  }

  /** Once a crowd fills the pool, one more call and one release lead to such a refusal. */
  lemma FullThenReleased(c: Config, s: State, late: nat)
    requires c.mode == Reject && c.concurrent > 0 && c.depth > 0
    requires Crowd(s, c.concurrent, c.depth) && late == c.concurrent + c.depth
    ensures var t := Step(c, Step(c, s, Call(late)), Release(0));
            && PlaceOf(t, late) == TryQueue && t.sem < c.concurrent
            && PlaceOf(Step(c, t, Enqueue(late)), late) == Refused
  {
    assert PlaceOf(s, late) == Outside && PlaceOf(s, 0) == Holding;
  }

  /** Which pools can refuse a request while a token is free: exactly those in reject mode
      with a queue, however many tokens and places they have. */
  lemma RefusesInVainExactly(c: Config)
    ensures (exists events, e :: RefusesInVain(c, events, e)) <==> c.mode == Reject && c.concurrent > 0 && c.depth > 0
  {
    forall events, e | RefusesInVain(c, events, e) ensures c.mode == Reject && c.concurrent > 0 && c.depth > 0 {
      RunKeepsInv(c, events);
      RefusedExactly(c, Run(c, events), e);
      var call := TryingCalledInVain(c, events, e.i);
    }
    if c.mode == Reject && c.concurrent > 0 && c.depth > 0 {
      hide Step, Crowd;
      var full := QueueCanBeFull(c, c.depth);
      var late := c.concurrent + c.depth;
      FullThenReleased(c, Run(c, full), late);
      RunMore(c, full, Call(late));
      RunMore(c, full + [Call(late)], Release(0));
      assert RefusesInVain(c, full + [Call(late)] + [Release(0)], Enqueue(late));
    }
  }

  /** A run, one event after the other. */
  function RunFrom(c: Config, s: State, events: seq<Event>): State
    decreases |events|
  {
    if events == [] then s else RunFrom(c, Step(c, s, events[0]), events[1..])
  }

  lemma {:induction false} RunIsRunFrom(c: Config, before: seq<Event>, events: seq<Event>)
    ensures RunFrom(c, Run(c, before), events) == Run(c, before + events)
    decreases |events|
  {
    if events == [] {
      assert before + events == before;
    } else {
      var more := before + [events[0]];
      assert more[..|before|] == before;
      RunIsRunFrom(c, more, events[1..]);
      assert more + events[1..] == before + events;
    }
  }

  /** So a request can be refused while a token is free, in the pool of one token and one
      place: request 3 calls while 1 holds the token and 2 waits, 1 releases, and 3 finds
      the queue still full. */
  lemma RefusedWithFreeToken()
    ensures var c := Config(1, 1, Reject);
            var events := [Call(1), Call(2), Enqueue(2), Call(3), Release(1)];
            && Run(c, events).sem == 0 < c.concurrent
            && PlaceOf(Run(c, events + [Enqueue(3)]), 3) == Refused
  {
    hide Run;
    var c := Config(1, 1, Reject);
    var events := [Call(1), Call(2), Enqueue(2), Call(3), Release(1)];
    var s1 := State(1, 0, map[1 := Holding], 1, 0);
    var s2 := s1.(at := s1.at[2 := TryQueue]);
    var s3 := s2.(at := s2.at[2 := InQueue], queue := 1);
    var s4 := s3.(at := s3.at[3 := TryQueue]);
    var s5 := s4.(at := s4.at[1 := Outside], sem := 0, released := 1);
    assert Step(c, Idle, Call(1)) == s1;
    assert Step(c, s1, Call(2)) == s2;
    assert Step(c, s2, Enqueue(2)) == s3;
    assert Step(c, s3, Call(3)) == s4;
    assert Step(c, s4, Release(1)) == s5;
    WitnessRun(c, events, s1, s2, s3, s4, s5);
    RunMore(c, events, Enqueue(3));
  }

  lemma WitnessRun(c: Config, events: seq<Event>, s1: State, s2: State, s3: State, s4: State, s5: State)
    requires |events| == 5 && Step(c, Idle, events[0]) == s1 && Step(c, s1, events[1]) == s2 && Step(c, s2, events[2]) == s3
    requires Step(c, s3, events[3]) == s4 && Step(c, s4, events[4]) == s5
    ensures Run(c, events) == s5
  {
    hide Step;
    RunIsRunFrom(c, [], events);
    assert [] + events == events;
    assert events[1..][1..] == events[2..] && events[2..][1..] == events[3..] && events[3..][1..] == events[4..] && events[4..][1..] == [];
    assert RunFrom(c, Idle, events) == RunFrom(c, s1, events[1..]) == RunFrom(c, s2, events[2..]);
    assert RunFrom(c, s2, events[2..]) == RunFrom(c, s3, events[3..]) == RunFrom(c, s4, events[4..]);
    assert RunFrom(c, s4, events[4..]) == RunFrom(c, s5, []);
  }
}

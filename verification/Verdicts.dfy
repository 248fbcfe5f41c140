/** What the environment answers a background copy, and what the answers bring about. */
module Verdicts {

  /** What the next check of lease, operator, access, quota or storage says: go on, stop
      and try again later, or give the task up. */
  datatype Verdict = Go | Stop | Abort

  datatype Outcome = Done | Retry | Abandoned

  /** Of the answers `before` some were used, all of them to go on; `after` are left. */
  ghost predicate Calm(before: seq<Verdict>, after: seq<Verdict>) {
    && |after| <= |before| && before[|before| - |after|..] == after
    && forall i | 0 <= i < |before| - |after| :: before[i] == Go
  }

  ghost predicate AllGo(answers: seq<Verdict>) {
    forall i | 0 <= i < |answers| :: answers[i] == Go
  }

  /** The next answer ends the work: there is none, or it is not to go on; only an abort
      gives the task up. */
  ghost predicate Ends(mid: seq<Verdict>, after: seq<Verdict>, o: Outcome) {
    o != Done && if mid == [] then after == [] && o == Retry else mid[0] != Go && after == mid[1..] && (o == Abandoned ==> mid[0] == Abort)
  }

  ghost predicate StoppedBy(before: seq<Verdict>, after: seq<Verdict>, o: Outcome) {
    exists mid :: Calm(before, mid) && Ends(mid, after, o)
  }

  /** Work ends undone only for a reason: an answer that ended it, or, if `missing`, a
      source file without an object. */
  ghost predicate Answered(before: seq<Verdict>, after: seq<Verdict>, o: Outcome, missing: bool) {
    if o == Done then Calm(before, after) else StoppedBy(before, after, o) || (missing && o == Retry && Calm(before, after))
  }

  lemma CalmIsAnswered(before: seq<Verdict>, after: seq<Verdict>, missing: bool)
    requires Calm(before, after)
    ensures Answered(before, after, Done, missing)
    ensures missing ==> Answered(before, after, Retry, missing)
  {
  }

  lemma CalmThenCalm(a: seq<Verdict>, b: seq<Verdict>, c: seq<Verdict>)
    requires Calm(a, b) && Calm(b, c)
    ensures Calm(a, c)
  {
    forall i | 0 <= i < |a| - |c| ensures a[i] == Go {
      if i >= |a| - |b| {
        assert a[i] == b[i - (|a| - |b|)];
      }
    }
  }

  /** What a later part of the work answered, the whole of it answered. */
  lemma CalmThenAnswered(a: seq<Verdict>, b: seq<Verdict>, c: seq<Verdict>, o: Outcome, some: bool, missing: bool)
    requires Calm(a, b) && Answered(b, c, o, some) && (some ==> missing)
    ensures Answered(a, c, o, missing)
  {
    hide Calm, Ends;
    if StoppedBy(b, c, o) {
      var mid :| Calm(b, mid) && Ends(mid, c, o);
      CalmThenCalm(a, b, mid);
    }
    if Calm(b, c) {
      CalmThenCalm(a, b, c);
    }
  }

  lemma AnsweredAnyway(before: seq<Verdict>, after: seq<Verdict>, o: Outcome, missing: bool)
    requires Answered(before, after, o, false)
    ensures Answered(before, after, o, missing)
  {
  }

  lemma CalmHead(before: seq<Verdict>, mid: seq<Verdict>)
    requires Calm(before, mid) && mid != [] && AllGo(before)
    ensures mid[0] == Go
  {
    assert mid[0] == before[|before| - |mid|];
  }

  /** If every answer is to go on and there are more than the work can use, only a missing
      object can keep it from being done. */
  lemma EnoughAnswers(before: seq<Verdict>, after: seq<Verdict>, o: Outcome, cost: nat, missing: bool)
    requires Answered(before, after, o, missing) && |before| - |after| <= cost < |before|
    requires AllGo(before)
    ensures o == Done || (missing && o == Retry)
  {
    if StoppedBy(before, after, o) {
      var mid :| Calm(before, mid) && Ends(mid, after, o);
      if mid != [] {
        CalmHead(before, mid);
      }
    }
  }

  /** How the work ends on an answer that is not to go on. */
  function OutcomeFor(v: Verdict): Outcome {
    if v == Abort then Abandoned else Retry
  }

  lemma NoAnswer(before: seq<Verdict>)
    requires before == []
    ensures Answered(before, before, Retry, false)
  {
    assert Calm(before, before) && Ends(before, before, Retry);
  }

  lemma NothingUsed(before: seq<Verdict>, missing: bool)
    ensures Calm(before, before) && Answered(before, before, Done, missing) && (missing ==> Answered(before, before, Retry, missing))
  {
  }

  lemma AnsweredDone(before: seq<Verdict>, after: seq<Verdict>, some: bool, missing: bool)
    requires Answered(before, after, Done, some)
    ensures Calm(before, after) && Answered(before, after, Done, missing)
  {
  }

  lemma OneAnswer(before: seq<Verdict>)
    requires before != []
    ensures before[0] == Go ==> Calm(before, before[1..])
    ensures before[0] != Go ==> Answered(before, before[1..], OutcomeFor(before[0]), false) && Answered(before, before[1..], Retry, false)
  {
    assert Calm(before, before);
    if before[0] != Go {
      assert Ends(before, before[1..], Retry) && Ends(before, before[1..], OutcomeFor(before[0]));
    }
  }

  /** What an outcome says of the answers: done or stopped by a missing object, all that
      were used are to go on; abandoned, the last one used is an abort; otherwise the last
      one is not to go on, or they ran out. */
  lemma AnsweredExactly(before: seq<Verdict>, after: seq<Verdict>, o: Outcome, missing: bool)
    requires |after| <= |before|
    ensures var used := |before| - |after|;
            Answered(before, after, o, missing) <==>
              && before[used..] == after
              && match o
                 case Done => forall i | 0 <= i < used :: before[i] == Go
                 case Abandoned => used > 0 && before[used - 1] == Abort && forall i | 0 <= i < used - 1 :: before[i] == Go
                 case Retry =>
                   || (used > 0 && before[used - 1] != Go && forall i | 0 <= i < used - 1 :: before[i] == Go)
                   || ((after == [] || missing) && forall i | 0 <= i < used :: before[i] == Go)
  {
    var used := |before| - |after|;
    if StoppedBy(before, after, o) {
      var mid :| Calm(before, mid) && Ends(mid, after, o);
      assert mid == before[|before| - |mid|..];
    }
    if before[used..] == after && used > 0 && before[used - 1] != Go && forall i | 0 <= i < used - 1 :: before[i] == Go {
      var mid := before[used - 1..];
      assert Calm(before, mid) && mid[1..] == after;
      assert o != Done && (o == Abandoned ==> mid[0] == Abort) ==> Ends(mid, after, o);
    }
    if after == [] && used == |before| && forall i | 0 <= i < used :: before[i] == Go {
      assert Calm(before, []);
      assert Ends([], after, Retry);
    }
  }
}

/** The rate limiter: token buckets over real-valued time, and the ring of the most
    recent refusals. */
module RateLimit {
  import opened Turns

  /** What a bucket knows: its tokens and when it was last asked. */
  datatype Level = Level(tokens: real, last: real)

  function Cap(x: real, burst: real): real {
    if x > burst then burst else x
  }

  /** What the time since the last call adds. */
  function Gain(last: real, now: real, rate: real): real {
    (now - last) * rate
  }

  function Refilled(l: Level, now: real, rate: real, burst: real): real {
    Cap(l.tokens + Gain(l.last, now, rate), burst)
  }

  predicate Admits(l: Level, now: real, rate: real, burst: real) {
    Refilled(l, now, rate, burst) >= 1.0
  }

  function After(l: Level, now: real, rate: real, burst: real): Level {
    Level(Refilled(l, now, rate, burst) - if Admits(l, now, rate, burst) then 1.0 else 0.0, now)
  }

  class TokenBucket {
    var tokens: real
    var last: real
    const rate: real
    const burst: real

    constructor (ratePerSec: real, burst0: int, now: real)
      ensures rate == ratePerSec && burst == (if burst0 < 1 then 1 else burst0) as real
      ensures Now() == Level(burst, now)
    {
      rate, burst := ratePerSec, (if burst0 < 1 then 1 else burst0) as real;
      tokens, last := (if burst0 < 1 then 1 else burst0) as real, now;
    }

    ghost function Now(): Level
      reads this
    {
      Level(tokens, last)
    }

    method Allow(now: real) returns (ok: bool)
      modifies this
      ensures rate <= 0.0 ==> ok && Now() == old(Now())
      ensures rate > 0.0 ==> ok == old(Admits(Now(), now, rate, burst)) && Now() == old(After(Now(), now, rate, burst))
    {
      hide Gain;
      if rate <= 0.0 {
        return true;
      }
      tokens := tokens + Gain(last, now, rate);
      if tokens > burst {
        tokens := burst;
      }
      last := now;
      if tokens >= 1.0 {
        tokens := tokens - 1.0;
        return true;
      }
      return false;
    }
  }

  predicate Ordered(times: seq<real>) {
    forall i, j | 0 <= i < j < |times| :: times[i] <= times[j]
  }

  /** The level after a series of calls, and how many were admitted. */
  function RunLevel(l: Level, times: seq<real>, rate: real, burst: real): Level {
    if times == [] then l
    else After(RunLevel(l, times[..|times| - 1], rate, burst), times[|times| - 1], rate, burst)
  }

  function Admitted(l: Level, times: seq<real>, rate: real, burst: real): nat {
    if times == [] then 0
    else
      Admitted(l, times[..|times| - 1], rate, burst)
      + if Admits(RunLevel(l, times[..|times| - 1], rate, burst), times[|times| - 1], rate, burst) then 1 else 0
  }

  predicate Sane(l: Level, burst: real) {
    0.0 <= l.tokens <= burst
  }

  lemma GainGrows(a: real, b: real, rate: real)
    requires a <= b && rate > 0.0
    ensures Gain(a, b, rate) >= 0.0 && Gain(a, a, rate) == 0.0
  {
  }

  lemma GainAdds(a: real, b: real, c: real, rate: real)
    ensures Gain(a, b, rate) + Gain(b, c, rate) == Gain(a, c, rate)
  {
  }

  /** One call: tokens stay in range, and what it admits is paid from the bucket. */
  lemma AfterSane(l: Level, now: real, rate: real, burst: real)
    requires Sane(l, burst) && rate > 0.0 && burst >= 1.0 && l.last <= now
    ensures Sane(After(l, now, rate, burst), burst)
    ensures var one := if Admits(l, now, rate, burst) then 1.0 else 0.0;
            After(l, now, rate, burst).tokens + one <= burst && After(l, now, rate, burst).tokens + one <= l.tokens + Gain(l.last, now, rate)
  {
    hide Gain;
    GainGrows(l.last, now, rate);
  }

  /** Over any run with a clock that does not go back tokens stay between none and the
      burst, and calls within a window of length T are admitted at most burst + T * rate
      times; sharper, what is left in the bucket counts too. */
  lemma WindowBound(l: Level, times: seq<real>, rate: real, burst: real)
    requires Sane(l, burst) && rate > 0.0 && burst >= 1.0 && |times| > 0 && Ordered(times) && l.last <= times[0]
    ensures Sane(RunLevel(l, times, rate, burst), burst) && RunLevel(l, times, rate, burst).last == times[|times| - 1]
    ensures Admitted(l, times, rate, burst) as real + RunLevel(l, times, rate, burst).tokens
            <= burst + (times[|times| - 1] - times[0]) * rate
  {
    hide Sane, After, Admits, Gain, Admitted, RunLevel;
    WindowGain(l, times, rate, burst);
    GainIs(times[0], times[|times| - 1], rate);
  }

  lemma {:induction false} WindowGain(l: Level, times: seq<real>, rate: real, burst: real)
    requires Sane(l, burst) && rate > 0.0 && burst >= 1.0 && |times| > 0 && Ordered(times) && l.last <= times[0]
    ensures Sane(RunLevel(l, times, rate, burst), burst) && RunLevel(l, times, rate, burst).last == times[|times| - 1]
    ensures Admitted(l, times, rate, burst) as real + RunLevel(l, times, rate, burst).tokens
            <= burst + Gain(times[0], times[|times| - 1], rate)
  {
    hide Sane, After, Admits, Gain;
    var n := |times| - 1;
    var before := times[..n];
    if n == 0 {
      assert before == [];
      AfterSane(l, times[0], rate, burst);
      AfterLast(l, times[0], rate, burst);
      GainGrows(times[0], times[0], rate);
    } else {
      WindowGain(l, before, rate, burst);
      var m := RunLevel(l, before, rate, burst);
      assert m.last == times[n - 1];
      AfterSane(m, times[n], rate, burst);
      AfterLast(m, times[n], rate, burst);
      GainAdds(times[0], times[n - 1], times[n], rate);
    }
  }

  lemma GainIs(a: real, b: real, rate: real)
    ensures Gain(a, b, rate) == (b - a) * rate
  {
  }

  lemma AfterLast(l: Level, now: real, rate: real, burst: real)
    ensures After(l, now, rate, burst).last == now
  {
  }

  /** The bound for any stretch of a longer run. */
  lemma AnyWindow(l: Level, times: seq<real>, from: nat, to: nat, rate: real, burst: real)
    requires Sane(l, burst) && rate > 0.0 && burst >= 1.0 && Ordered(times) && from < to <= |times|
    requires l.last <= times[0]
    ensures var m := RunLevel(l, times[..from], rate, burst);
            Admitted(m, times[from..to], rate, burst) as real <= burst + (times[to - 1] - times[from]) * rate
  {
    hide Admitted, RunLevel, Gain, Sane;
    StretchGain(l, times, from, to, rate, burst);
    GainIs(times[from], times[to - 1], rate);
  }

  lemma StretchGain(l: Level, times: seq<real>, from: nat, to: nat, rate: real, burst: real)
    requires Sane(l, burst) && rate > 0.0 && burst >= 1.0 && Ordered(times) && from < to <= |times|
    requires l.last <= times[0]
    ensures var m := RunLevel(l, times[..from], rate, burst);
            Admitted(m, times[from..to], rate, burst) as real <= burst + Gain(times[from], times[to - 1], rate)
  {
    hide Admitted, RunLevel, Gain, Sane;
    var m := RunLevel(l, times[..from], rate, burst);
    if from > 0 {
      WindowGain(l, times[..from], rate, burst);
    } else {
      NoCalls(l, times[..from], rate, burst);
    }
    var window := times[from..to];
    WindowGain(m, window, rate, burst);
    assert window[0] == times[from] && window[|window| - 1] == times[to - 1];
    AfterSaneTokens(RunLevel(m, window, rate, burst), burst);
  }

  lemma AfterSaneTokens(l: Level, burst: real)
    requires Sane(l, burst)
    ensures l.tokens >= 0.0
  {
  }

  lemma NoCalls(l: Level, times: seq<real>, rate: real, burst: real)
    requires times == []
    ensures RunLevel(l, times, rate, burst) == l
  {
  }

  /** A full bucket admits its whole burst at once: the bound is met. */
  lemma {:induction false} BurstIsAdmitted(rate: real, burst: nat, now: real, n: nat)
    requires rate > 0.0 && n <= burst && burst >= 1
    ensures var times := seq(n, _ => now);
            Admitted(Level(burst as real, now), times, rate, burst as real) == n
            && RunLevel(Level(burst as real, now), times, rate, burst as real) == Level((burst - n) as real, now)
  {
    hide Gain;
    GainGrows(now, now, rate);
    if n > 0 {
      BurstIsAdmitted(rate, burst, now, n - 1);
      assert seq(n, _ => now)[..n - 1] == seq(n - 1, _ => now);
    }
  }

  /** Refill `k` of the run does not overflow the bucket. */
  predicate FitsIn(l: Level, times: seq<real>, k: nat, rate: real, burst: real)
    requires k < |times|
  {
    var m := RunLevel(l, times[..k], rate, burst);
    m.tokens + Gain(m.last, times[k], rate) <= burst
  }

  /** Nothing is lost either: as long as no refill overflows the bucket, what is admitted
      and what is left are together exactly what was there and came in. */
  lemma NothingIsLost(l: Level, times: seq<real>, rate: real, burst: real)
    requires forall k | 0 <= k < |times| :: FitsIn(l, times, k, rate, burst)
    ensures var m := RunLevel(l, times, rate, burst);
            Admitted(l, times, rate, burst) as real + m.tokens == l.tokens + (m.last - l.last) * rate
  {
    hide Gain, RunLevel, Admitted, FitsIn;
    PaidFromGain(l, times, rate, burst);
    GainIs(l.last, RunLevel(l, times, rate, burst).last, rate);
  }

  lemma {:induction false} PaidFromGain(l: Level, times: seq<real>, rate: real, burst: real)
    requires forall k | 0 <= k < |times| :: FitsIn(l, times, k, rate, burst)
    ensures var m := RunLevel(l, times, rate, burst);
            Admitted(l, times, rate, burst) as real + m.tokens == l.tokens + Gain(l.last, m.last, rate)
  {
    if times == [] {
      GainIs(l.last, l.last, rate);
    } else {
      var n := |times| - 1;
      var before := times[..n];
      forall k | 0 <= k < n ensures FitsIn(l, before, k, rate, burst) {
        assert before[..k] == times[..k] && FitsIn(l, times, k, rate, burst);
      }
      PaidFromGain(l, before, rate, burst);
      var m := RunLevel(l, before, rate, burst);
      assert FitsIn(l, times, n, rate, burst);
      OneRefill(m, times[n], rate, burst);
      hide Gain, After, Admits, FitsIn;
      GainAdds(l.last, m.last, times[n], rate);
    }
  }

  lemma OneRefill(m: Level, now: real, rate: real, burst: real)
    requires m.tokens + Gain(m.last, now, rate) <= burst
    ensures After(m, now, rate, burst).last == now
    ensures After(m, now, rate, burst).tokens + (if Admits(m, now, rate, burst) then 1.0 else 0.0) == m.tokens + Gain(m.last, now, rate)
  {
    hide Gain;
  }

  /** Who waits long enough is let through: with one token's time between any two calls
      every call is admitted. */
  lemma PatientIsAdmitted(l: Level, times: seq<real>, rate: real, burst: real)
    requires Sane(l, burst) && rate > 0.0 && burst >= 1.0
    requires forall k | 0 <= k < |times| :: (times[k] - CallBefore(l, times, k)) * rate >= 1.0
    ensures Admitted(l, times, rate, burst) == |times|
  {
    hide Sane, Admitted, RunLevel, Gain, CallBefore;
    forall k | 0 <= k < |times| ensures Waits(l, times, k, rate) {
      GainIs(CallBefore(l, times, k), times[k], rate);
    }
    WaitersAreAdmitted(l, times, rate, burst);
  }

  /** When the bucket was last asked before call `k`. */
  function CallBefore(l: Level, times: seq<real>, k: nat): real
    requires k < |times|
  {
    if k == 0 then l.last else times[k - 1]
  }

  predicate Waits(l: Level, times: seq<real>, k: nat, rate: real)
    requires k < |times|
  {
    Gain(CallBefore(l, times, k), times[k], rate) >= 1.0
  }

  lemma {:induction false} WaitersAreAdmitted(l: Level, times: seq<real>, rate: real, burst: real)
    requires Sane(l, burst) && rate > 0.0 && burst >= 1.0
    requires forall k | 0 <= k < |times| :: Waits(l, times, k, rate)
    ensures Admitted(l, times, rate, burst) == |times| && Sane(RunLevel(l, times, rate, burst), burst)
    ensures RunLevel(l, times, rate, burst).last == if times == [] then l.last else times[|times| - 1]
  {
    hide Gain, After, Admits, Sane;
    if times != [] {
      var n := |times| - 1;
      forall k | 0 <= k < n ensures Waits(l, times[..n], k, rate) {
        assert Waits(l, times, k, rate);
      }
      WaitersAreAdmitted(l, times[..n], rate, burst);
      assert Waits(l, times, n, rate);
      WaitIsEnough(RunLevel(l, times[..n], rate, burst), times[n], rate, burst);
    }
  }

  lemma WaitIsEnough(m: Level, now: real, rate: real, burst: real)
    requires Sane(m, burst) && burst >= 1.0 && Gain(m.last, now, rate) >= 1.0
    ensures Admits(m, now, rate, burst) && Sane(After(m, now, rate, burst), burst) && After(m, now, rate, burst).last == now
  {
    hide Gain;
  }

  /** A bucket left alone long enough is full again. */
  lemma IdleRefills(l: Level, now: real, rate: real, burst: real)
    requires Sane(l, burst) && (now - l.last) * rate >= burst
    ensures Refilled(l, now, rate, burst) == burst
  {
    GainIs(l.last, now, rate);
    hide Gain;
  }

  // ----- the ring of refusals -----

  predicate InWindow(k: nat, n: nat, limit: nat) {
    k < n && n <= k + limit
  }

  /** Slot `k % limit` holds entry `k` for each of the last `limit` entries. */
  ghost predicate Holds<T>(records: seq<T>, history: seq<T>, limit: nat)
    requires limit > 0
  {
    if |history| < limit then records == history
    else |records| == limit && forall k: nat | InWindow(k, |history|, limit) :: SlotHolds(records, history, limit, k)
  }

  ghost predicate SlotHolds<T>(records: seq<T>, history: seq<T>, limit: nat, k: nat)
    requires |records| == limit > 0 && k < |history|
  {
    records[k % limit] == history[k]
  }

  class RecordRing<T(==)> {
    var records: seq<T>
    var pos: nat
    const limit: nat
    ghost var history: seq<T>

    ghost predicate Valid()
      reads this
    {
      && limit > 0 && Holds(records, history, limit)
      && pos == if |history| < limit then 0 else |history| - limit
    }

    constructor (recordLimit: int)
      ensures Valid() && history == [] && limit == if recordLimit <= 0 then 1000 else recordLimit
    {
      limit := if recordLimit <= 0 then 1000 else recordLimit as nat;
      records, pos, history := [], 0, [];
    }

    /** Beyond the limit the oldest record is overwritten. */
    method Record(rec: T)
      requires Valid()
      modifies this
      ensures Valid() && history == old(history) + [rec]
    {
      history := history + [rec];
      if |records| < limit {
        records := records + [rec];
        FillStep(records, history, limit);
        return;
      }
      OverwriteStep(records, old(history), limit, rec);
      records := records[pos % limit := rec];
      pos := pos + 1;
    }

    /** The buffer read backwards. */
    method Records() returns (out: seq<T>)
      requires Valid()
      ensures out == Backwards(records)
    {
      out := [];
      var i := |records|;
      while i > 0
        invariant 0 <= i <= |records| && |out| == |records| - i
        invariant forall k | 0 <= k < |out| :: out[k] == records[|records| - 1 - k]
      {
        i := i - 1;
        out := out + [records[i]];
      }
    }
  }

  function Backwards<T>(s: seq<T>): seq<T> {
    seq(|s|, i requires 0 <= i < |s| => s[|s| - 1 - i])
  }

  lemma FillStep<T>(records: seq<T>, history: seq<T>, limit: nat)
    requires limit > 0 && records == history && |history| <= limit
    ensures Holds(records, history, limit)
  {
  }

  /** In a window of one round no two entries share a slot. */
  lemma SlotOf(k: nat, base: nat, limit: nat)
    requires limit > 0 && base <= k < base + limit
    ensures k % limit == base % limit ==> k == base
  {
    if k % limit == base % limit {
      var d := k - base;
      assert base == base / limit * limit + base % limit && k == k / limit * limit + k % limit;
      if d > 0 {
        Apart(k / limit, base / limit, limit);
      }
    }
  }

  lemma NextSlot(base: nat, limit: nat)
    requires limit > 0
    ensures (base + limit) % limit == base % limit
  {
    assert base + limit == (base / limit + 1) * limit + base % limit;
    ModOf(base / limit + 1, limit, base % limit);
  }

  lemma OverwriteStep<T>(records: seq<T>, history: seq<T>, limit: nat, rec: T)
    requires limit > 0 && |history| >= limit && Holds(records, history, limit)
    ensures Holds(records[(|history| - limit) % limit := rec], history + [rec], limit)
  {
    var base := |history| - limit;
    NextSlot(base, limit);
    var after, longer := records[base % limit := rec], history + [rec];
    forall k: nat | InWindow(k, |longer|, limit) ensures SlotHolds(after, longer, limit, k)
    {
      if k < |history| {
        SlotOf(k, base, limit);
        assert SlotHolds(records, history, limit, k);
      }
    }
  }

  /** The most recent records, newest first. */
  function Newest<T>(history: seq<T>, limit: nat): seq<T> {
    var n := if |history| < limit then |history| else limit;
    seq(n, i requires 0 <= i < n => history[|history| - 1 - i])
  }

  lemma WholeTurns(base: nat, limit: nat, i: nat)
    requires limit > 0 && base % limit == 0 && i < limit
    ensures (base + i) % limit == i
  {
    assert base + i == base / limit * limit + i;
    ModOf(base / limit, limit, i);
  }

  /** The snapshot is newest-first exactly when the buffer is not full yet or has been
      overwritten a whole number of times; in between it mixes old and new. */
  lemma NewestFirstExactly<T>(records: seq<T>, history: seq<T>, limit: nat)
    requires limit > 0 && Holds(records, history, limit)
    requires forall i, j | 0 <= i < j < |history| :: history[i] != history[j]
    ensures Backwards(records) == Newest(history, limit) <==> |history| < limit || (|history| - limit) % limit == 0
  {
    if |history| >= limit {
      if (|history| - limit) % limit == 0 {
        InOrder(records, history, limit);
      } else {
        OutOfOrder(records, history, limit);
      }
    }
  }

  lemma InOrder<T>(records: seq<T>, history: seq<T>, limit: nat)
    requires limit > 0 && |history| >= limit && Holds(records, history, limit) && (|history| - limit) % limit == 0
    ensures Backwards(records) == Newest(history, limit)
  {
    var base := |history| - limit;
    forall i: nat | i < limit ensures records[i] == history[base + i] {
      WholeTurns(base, limit, i);
      assert SlotHolds(records, history, limit, base + i);
    }
  }

  /** The oldest record lies where a newer one should. */
  lemma OutOfOrder<T>(records: seq<T>, history: seq<T>, limit: nat)
    requires limit > 0 && |history| >= limit && Holds(records, history, limit) && (|history| - limit) % limit != 0
    requires forall i, j | 0 <= i < j < |history| :: history[i] != history[j]
    ensures Backwards(records) != Newest(history, limit)
  {
    var base := |history| - limit;
    assert SlotHolds(records, history, limit, base);
    var slot := base % limit;
    assert Backwards(records)[limit - 1 - slot] == history[base];
    assert Newest(history, limit)[limit - 1 - slot] == history[base + slot];
  }
}

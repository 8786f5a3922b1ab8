/** The snapshot scheduler of the long soak, against an adversarial clock.

    Times are nanoseconds since the loop started. The adversary chooses how long every capture takes, how far
    every sleep overruns, what passes between any two clock readings, and when the loop is cancelled. */
module Snapshots {
  import opened Seqs

  const SECOND: nat := 1_000_000_000
  /** Durations hold 64-bit seconds and nanoseconds. */
  const DURATION_LIMIT: nat := 0x1_0000_0000_0000_0000 * SECOND
  const TWO_32: nat := 0x1_0000_0000

  type Duration = d: nat | d < DURATION_LIMIT

  datatype Env = Env(capture: nat -> nat, overrun: nat -> nat, pause: nat -> nat, fails: nat -> bool, cancelAt: Option<nat>)

  datatype Plan = Plan(total: Duration, interval: Duration)

  predicate Cancelled(env: Env, time: nat) { env.cancelAt.Some? && env.cancelAt.value <= time }

  /** When snapshot `k` is due: the counter is cut to 32 bits, and a product beyond a duration becomes the end. */
  function Due(plan: Plan, k: nat): nat {
    DueAfter(plan, k % TWO_32)
  }

  function DueAfter(plan: Plan, intervals: nat): nat {
    if intervals * plan.interval < DURATION_LIMIT then intervals * plan.interval else plan.total
  }

  function Min(a: nat, b: nat): nat { if a <= b then a else b }

  /** The clock after sleeping `remaining` in pieces of at most a second. */
  function Slept(env: Env, clock: nat, remaining: nat): nat
    decreases remaining
  {
    if remaining == 0 || Cancelled(env, clock) then clock
    else
      var chunk := Min(remaining, SECOND);
      Slept(env, clock + chunk + env.overrun(clock), remaining - chunk)
  }

  /** The clock after snapshot `k` and the sleep that follows it, until the next is due. */
  function WokenBy(total: nat, due: nat -> nat, env: Env, k: nat, elapsed: nat): nat {
    var now := elapsed + env.capture(k);
    var until := Min(due(k + 1), total);
    Slept(env, now, if until > now then until - now else 0)
  }

  /** Then the clock is read again. */
  function NextBy(total: nat, due: nat -> nat, env: Env, k: nat, elapsed: nat): nat {
    WokenBy(total, due, env, k, elapsed) + env.pause(k + 1)
  }

  function Woken(plan: Plan, env: Env, k: nat, elapsed: nat): nat { WokenBy(plan.total, DueOf(plan), env, k, elapsed) }

  /** A loop over snapshots: the first clock reading, the reading after snapshot `k` from the one before it, whether to
      go on at a reading, and which captures fail. */
  datatype Loop = Loop(first: nat, next: (nat, nat) -> nat, goes: nat -> bool, fails: nat -> bool)

  /** The loop for any table of due times. */
  function LoopFor(total: nat, due: nat -> nat, env: Env): Loop {
    Loop(env.pause(0), (k: nat, elapsed: nat) => NextBy(total, due, env, k, elapsed),
         (elapsed: nat) => elapsed < total && !Cancelled(env, elapsed), env.fails)
  }

  function DueOf(plan: Plan): nat -> nat { (k: nat) => Due(plan, k) }

  function LoopOf(plan: Plan, env: Env): Loop { LoopFor(plan.total, DueOf(plan), env) }

  /** The clock when the loop comes round for snapshot `k`. */
  function Top(l: Loop, k: nat): nat {
    if k == 0 then l.first else l.next(k - 1, Top(l, k - 1))
  }

  /** Snapshot `k` is started. */
  predicate Started(l: Loop, k: nat) {
    l.goes(Top(l, k)) && (k == 0 || (Started(l, k - 1) && !l.fails(k - 1)))
  }

  // ---- the loop ----

  method Sleep(env: Env, now: nat, until: nat) returns (clock: nat)
    ensures clock == Slept(env, now, if until > now then until - now else 0)
  {
    clock := now;
    if until > now {
      var remaining: nat := until - now;
      while remaining > 0 && !Cancelled(env, clock)
        invariant remaining >= 0
        invariant Slept(env, clock, remaining) == Slept(env, now, until - now)
      {
        var chunk := Min(remaining, SECOND);
        clock := clock + chunk + env.overrun(clock);
        remaining := remaining - chunk;
      }
    }
  }

  /** The clock readings for the first `n` snapshots. */
  function Tops(l: Loop, n: nat): (times: seq<nat>)
    ensures |times| == n
  {
    if n == 0 then [] else Tops(l, n - 1) + [Top(l, n - 1)]
  }

  /** What the loop leaves: the readings of the snapshots started, and whether the last capture failed. */
  predicate Ended(l: Loop, times: seq<nat>, failed: bool) {
    times == Tops(l, |times|) && !Started(l, |times|) &&
    (times != [] ==> Started(l, |times| - 1)) &&
    (failed <==> times != [] && l.fails(|times| - 1))
  }

  /** Some snapshot is not started, so the loop comes to an end. */
  ghost predicate Halts(l: Loop) { exists n: nat :: !Started(l, n) }

  lemma {:induction false} EarlierStarted(l: Loop, j: nat, k: nat)
    requires Started(l, k) && j <= k
    ensures Started(l, j)
    decreases k
  {
    if j < k {
      EarlierStarted(l, j, k - 1);
    }
  }

  lemma BeforeEnd(l: Loop, k: nat, n: nat)
    requires Started(l, k) && !Started(l, n)
    ensures k < n
  {
    if n <= k {
      EarlierStarted(l, n, k);
    }
  }

  /** `l` is the loop for these due times. */
  ghost predicate Follows(l: Loop, total: nat, due: nat -> nat, env: Env) {
    l.first == env.pause(0) &&
    (forall e: nat :: l.goes(e) <==> e < total && !Cancelled(env, e)) &&
    (forall k: nat :: l.fails(k) == env.fails(k)) &&
    (forall k: nat, e: nat {:trigger NextBy(total, due, env, k, e)} :: l.next(k, e) == NextBy(total, due, env, k, e))
  }

  lemma LoopForFollows(total: nat, due: nat -> nat, env: Env)
    ensures Follows(LoopFor(total, due, env), total, due, env)
  {
  }

  /** Capture, then sleep until the next snapshot is due. */
  method Round(total: nat, due: nat -> nat, env: Env, k: nat, elapsed: nat, ghost l: Loop) returns (next: nat)
    requires Follows(l, total, due, env)
    ensures next == l.next(k, elapsed)
  {
    var now := elapsed + env.capture(k);
    var until := Min(due(k + 1), total);
    next := Sleep(env, now, until);
    next := next + env.pause(k + 1);
    assert next == NextBy(total, due, env, k, elapsed);
  }

  /** The loop has come to snapshot `k`. */
  predicate Arrived(l: Loop, k: nat, elapsed: nat, times: seq<nat>) {
    elapsed == Top(l, k) && times == Tops(l, k) && (k > 0 ==> Started(l, k - 1) && !l.fails(k - 1))
  }

  lemma ArrivesNext(l: Loop, k: nat, elapsed: nat, times: seq<nat>, n: nat)
    requires Arrived(l, k, elapsed, times) && l.goes(elapsed) && !Started(l, n)
    ensures k < n
    ensures l.fails(k) ==> Ended(l, times + [elapsed], true)
    ensures !l.fails(k) ==> Arrived(l, k + 1, l.next(k, elapsed), times + [elapsed])
  {
    BeforeEnd(l, k, n);
  }

  lemma ArrivesLast(l: Loop, k: nat, elapsed: nat, times: seq<nat>)
    requires Arrived(l, k, elapsed, times) && !l.goes(elapsed)
    ensures Ended(l, times, false)
  {
  }

  method RunLoop(total: nat, due: nat -> nat, env: Env, ghost l: Loop) returns (times: seq<nat>, failed: bool)
    requires Follows(l, total, due, env) && Halts(l)
    ensures Ended(l, times, failed)
  {
    ghost var n: nat :| !Started(l, n);
    times := [];
    var k: nat, elapsed: nat := 0, env.pause(0);
    while elapsed < total && !Cancelled(env, elapsed)
      invariant Arrived(l, k, elapsed, times) && k <= n
      decreases n - k
    {
      ArrivesNext(l, k, elapsed, times, n);
      times := times + [elapsed];
      if env.fails(k) {
        return times, true;
      }
      elapsed := Round(total, due, env, k, elapsed, l);
      k := k + 1;
    }
    ArrivesLast(l, k, elapsed, times);
    failed := false;
  }

  method RunSnapshotLoop(plan: Plan, env: Env) returns (times: seq<nat>, failed: bool)
    requires Halts(LoopOf(plan, env))
    ensures Ended(LoopOf(plan, env), times, failed)
  {
    LoopForFollows(plan.total, DueOf(plan), env);
    times, failed := RunLoop(plan.total, DueOf(plan), env, LoopOf(plan, env));
  }

  // ---- the schedule ----

  lemma {:induction false} SleepReaches(env: Env, clock: nat, remaining: nat)
    ensures Slept(env, clock, remaining) >= clock
    ensures Slept(env, clock, remaining) >= clock + remaining || Cancelled(env, Slept(env, clock, remaining))
    decreases remaining
  {
    if remaining > 0 && !Cancelled(env, clock) {
      var chunk := Min(remaining, SECOND);
      SleepReaches(env, clock + chunk + env.overrun(clock), remaining - chunk);
    }
  }

  lemma WokenLater(plan: Plan, env: Env, k: nat, elapsed: nat)
    ensures elapsed + env.capture(k) <= Woken(plan, env, k, elapsed)
  {
    var now := elapsed + env.capture(k);
    var until := Min(Due(plan, k + 1), plan.total);
    SleepReaches(env, now, if until > now then until - now else 0);
  }

  lemma WokenWhenDue(plan: Plan, env: Env, k: nat, elapsed: nat)
    ensures var t := Woken(plan, env, k, elapsed);
            t >= plan.total || t >= Due(plan, k + 1) || Cancelled(env, t)
  {
    var now := elapsed + env.capture(k);
    var until := Min(Due(plan, k + 1), plan.total);
    SleepReaches(env, now, if until > now then until - now else 0);
  }

  /** A started snapshot is not early: whatever captures cost and however sleeps overrun. */
  lemma StartedWhenDue(plan: Plan, env: Env, k: nat)
    requires Started(LoopOf(plan, env), k) && k > 0
    ensures Due(plan, k) <= Top(LoopOf(plan, env), k) < plan.total
  {
    WokenWhenDue(plan, env, k - 1, Top(LoopOf(plan, env), k - 1));
  }

  lemma DueUnwrapped(plan: Plan, k: nat)
    requires k < TWO_32 && Due(plan, k) < plan.total
    ensures Due(plan, k) == k * plan.interval
  {
    assert k % TWO_32 == k;
  }

  /** Snapshot `k` is never before `k` intervals, as long as the counter has not wrapped; lateness does not
      add up. */
  lemma NoDrift(plan: Plan, env: Env, k: nat)
    requires Started(LoopOf(plan, env), k) && k < 0x1_0000_0000
    ensures k * plan.interval <= Top(LoopOf(plan, env), k) < plan.total
  {
    if k > 0 {
      StartedWhenDue(plan, env, k);
      DueUnwrapped(plan, k);
    }
  }

  /** Every snapshot of every run is on schedule. */
  ghost predicate OnSchedule(plan: Plan) {
    forall env, k: nat :: Started(LoopOf(plan, env), k) ==> k * plan.interval <= Top(LoopOf(plan, env), k)
  }

  const IDEAL := Env(k => 0, t => 0, k => 0, k => false, None)

  lemma {:induction false} IdealSleep(clock: nat, remaining: nat)
    ensures Slept(IDEAL, clock, remaining) == clock + remaining
    decreases remaining
  {
    if remaining > 0 {
      var chunk := Min(remaining, SECOND);
      IdealSleep(clock + chunk, remaining - chunk);
    }
  }

  /** From one snapshot to the next. */
  lemma RunNext(l: Loop, k: nat, at: nat, to: nat)
    requires Top(l, k) == at && Started(l, k) && !l.fails(k) && l.next(k, at) == to && l.goes(to)
    ensures Top(l, k + 1) == to && Started(l, k + 1)
  {
  }

  /** An ideal clock stands at the due time, if that is still to come, or stands still. */
  lemma IdealStep(plan: Plan, k: nat, at: nat, to: nat)
    requires at < plan.total && Due(plan, k + 1) < plan.total && to == if at <= Due(plan, k + 1) then Due(plan, k + 1) else at
    ensures var l := LoopOf(plan, IDEAL); !l.fails(k) && l.next(k, at) == to && l.goes(to)
  {
    if at <= Due(plan, k + 1) {
      IdealSleep(at, Due(plan, k + 1) - at);
    }
  }

  lemma IdealFirst(plan: Plan)
    requires plan.total > 0
    ensures var l := LoopOf(plan, IDEAL); Top(l, 0) == 0 && Started(l, 0)
  {
  }

  lemma DueInTime(plan: Plan, k: nat)
    requires k < TWO_32 && k * plan.interval < plan.total
    ensures Due(plan, k) == k * plan.interval
  {
    assert k % TWO_32 == k;
  }

  lemma {:induction false} IdealRun(plan: Plan, k: nat)
    requires k < TWO_32 && k * plan.interval < plan.total
    ensures Top(LoopOf(plan, IDEAL), k) == k * plan.interval && Started(LoopOf(plan, IDEAL), k)
  {
    if k == 0 {
      IdealFirst(plan);
    } else {
      var before, due := (k - 1) * plan.interval, k * plan.interval;
      assert before <= due;
      IdealRun(plan, k - 1);
      DueInTime(plan, k);
      IdealStep(plan, k - 1, before, due);
      RunNext(LoopOf(plan, IDEAL), k - 1, before, due);
    }
  }

  /** After the counter has wrapped, an ideal clock never moves again. */
  lemma {:induction false} WrappedStandsStill(plan: Plan, k: nat)
    requires (TWO_32 - 1) * plan.interval < plan.total && k >= TWO_32 - 1
    ensures Top(LoopOf(plan, IDEAL), k) == (TWO_32 - 1) * plan.interval && Started(LoopOf(plan, IDEAL), k)
  {
    if k == TWO_32 - 1 {
      IdealRun(plan, k);
    } else {
      var at := (TWO_32 - 1) * plan.interval;
      WrappedStandsStill(plan, k - 1);
      DueAtMost(plan, k);
      IdealStep(plan, k - 1, at, at);
      RunNext(LoopOf(plan, IDEAL), k - 1, at, at);
    }
  }

  lemma DueAtMost(plan: Plan, k: nat)
    requires (TWO_32 - 1) * plan.interval < plan.total
    ensures Due(plan, k) <= (TWO_32 - 1) * plan.interval
  {
    var m := k % TWO_32;
    assert m * plan.interval <= (TWO_32 - 1) * plan.interval;
  }

  /** Exactly when the schedule can be kept: the counter must not wrap before the end. */
  lemma OnScheduleIff(plan: Plan)
    requires plan.interval > 0
    ensures OnSchedule(plan) <==> plan.total <= 0xFFFF_FFFF * plan.interval
  {
    if plan.total <= (TWO_32 - 1) * plan.interval {
      forall env, k: nat | Started(LoopOf(plan, env), k) ensures k * plan.interval <= Top(LoopOf(plan, env), k) {
        if k >= TWO_32 {
          EarlierStarted(LoopOf(plan, env), TWO_32 - 1, k);
          NoDrift(plan, env, TWO_32 - 1);
        } else {
          NoDrift(plan, env, k);
        }
      }
    } else {
      WrappedStandsStill(plan, TWO_32);
    }
  }

  function CeilDiv(a: nat, b: nat): nat
    requires b > 0
  {
    (a + b - 1) / b
  }

  lemma CeilBounds(a: nat, b: nat, n: nat)
    requires b > 0 && n * b < a
    ensures n + 1 <= CeilDiv(a, b)
  {
    var q, r := (a + b - 1) / b, (a + b - 1) % b;
    assert q * b + r == a + b - 1;
    assert (n + 1) * b == n * b + b;
    assert q <= n ==> q * b <= n * b;
  }

  /** The number of snapshots, however the run goes. */
  lemma CountBound(plan: Plan, env: Env, k: nat)
    requires 0 < plan.interval && plan.total <= 0xFFFF_FFFF * plan.interval && Started(LoopOf(plan, env), k)
    ensures k + 1 <= CeilDiv(plan.total, plan.interval)
  {
    OnScheduleIff(plan);
    CeilBounds(plan.total, plan.interval, k);
  }

  // ---- the end ----

  /** The loop ends in every run exactly when the counter does not wrap before the total. */
  lemma AlwaysHaltsIff(plan: Plan)
    ensures (forall env :: Halts(LoopOf(plan, env))) <==> plan.total <= 0xFFFF_FFFF * plan.interval
  {
    if plan.total <= (TWO_32 - 1) * plan.interval {
      forall env ensures Halts(LoopOf(plan, env)) {
        if Started(LoopOf(plan, env), TWO_32 - 1) {
          NoDrift(plan, env, TWO_32 - 1);
        }
      }
    } else {
      forall n: nat ensures Started(LoopOf(plan, IDEAL), n) {
        if n >= TWO_32 - 1 {
          WrappedStandsStill(plan, n);
        } else {
          WrappedStandsStill(plan, TWO_32 - 1);
          EarlierStarted(LoopOf(plan, IDEAL), n, TWO_32 - 1);
        }
      }
      assert !Halts(LoopOf(plan, IDEAL));
    }
  }

  ghost predicate Advances(l: Loop) { forall k: nat, elapsed: nat :: l.next(k, elapsed) > elapsed }

  lemma {:induction false} TimePasses(l: Loop, k: nat)
    requires Advances(l)
    ensures Top(l, k) >= k
  {
    if k > 0 {
      TimePasses(l, k - 1);
    }
  }

  /** It also ends whenever captures take time. */
  lemma SlowCapturesHalt(plan: Plan, env: Env)
    requires forall i: nat :: env.capture(i) > 0
    ensures Halts(LoopOf(plan, env))
  {
    forall k: nat, elapsed: nat ensures LoopOf(plan, env).next(k, elapsed) > elapsed {
      WokenLater(plan, env, k, elapsed);
    }
    TimePasses(LoopOf(plan, env), plan.total);
    assert !Started(LoopOf(plan, env), plan.total);
  }

  // ---- when things are due, and what stops the loop ----

  /** Due times: the product, the end beyond what a duration holds, and the same again after 2^32 snapshots. */
  lemma DueIs(plan: Plan, k: nat)
    ensures k < 0x1_0000_0000 && k * plan.interval < 0x1_0000_0000_0000_0000 * 1_000_000_000 ==> Due(plan, k) == k * plan.interval
    ensures k < 0x1_0000_0000 && k * plan.interval >= 0x1_0000_0000_0000_0000 * 1_000_000_000 ==> Due(plan, k) == plan.total
    ensures Due(plan, k + 0x1_0000_0000) == Due(plan, k)
  {
    assert (k + TWO_32) % TWO_32 == k % TWO_32;
    if k < TWO_32 {
      assert k % TWO_32 == k;
    }
  }

  lemma StartedGoes(l: Loop, k: nat, j: nat)
    requires Started(l, k) && j <= k
    ensures l.goes(Top(l, j)) && (j < k ==> !l.fails(j))
  {
    EarlierStarted(l, j, k);
    if j < k {
      EarlierStarted(l, j + 1, k);
    }
  }

  /** Every snapshot up to a started one was started before the end and before a cancellation, and all captures before
      it succeeded. */
  lemma StartedOnlyIf(plan: Plan, env: Env, k: nat, j: nat)
    requires Started(LoopOf(plan, env), k) && j <= k
    ensures var at := Top(LoopOf(plan, env), j);
            at < plan.total && (env.cancelAt.Some? ==> at < env.cancelAt.value) && (j < k ==> !env.fails(j))
  {
    StartedGoes(LoopOf(plan, env), k, j);
  }

  /** A sleep that does not overrun ends when asked, or within a second of the cancellation. */
  lemma {:induction false} SleepIsResponsive(env: Env, clock: nat, remaining: nat)
    requires forall t: nat :: env.overrun(t) == 0
    ensures var woken := Slept(env, clock, remaining);
            woken <= clock + remaining && (!Cancelled(env, woken) ==> woken == clock + remaining) &&
            (env.cancelAt.Some? && clock <= env.cancelAt.value ==> woken < env.cancelAt.value + 1_000_000_000) &&
            (Cancelled(env, clock) ==> woken == clock)
    decreases remaining
  {
    if remaining > 0 && !Cancelled(env, clock) {
      var chunk := Min(remaining, SECOND);
      SleepIsResponsive(env, clock + chunk, remaining - chunk);
    }
  }
}

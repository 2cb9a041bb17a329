/**
 * SyncScheduler: a five-second countdown, then sync sessions for ever, each started one
 * interval after the previous one started, or at once when a session took longer than the
 * interval.
 *
 * Time is counted in `TimeSpan` ticks of 100 ns. The clock readings the loop takes (the local
 * time a session is named after and how long the session took) are an input, one per
 * iteration; the endless loop runs while readings last, and `Continuing` says that it would
 * go on.
 */
module Scheduling {
  import opened Wrappers
  import opened Configs
  import opened SessionIds
  import opened FileSystem
  import opened SyncFacts
  import opened Sync

  const TicksPerMillisecond := 10_000
  const TicksPerSecond := 10_000_000

  /** The countdown before the first session: "Sync session beginning in i..." for i = 5 down to 1. */
  const CountdownStart := 5

  /** What the loop does once a session is over. */
  datatype Pause =
    /** `Thread.Sleep(delay)`: the delay truncated to whole milliseconds. */
    | Sleep(ms: nat)
    /** No sleep; the overrun error logs `delay.Duration()`, in ticks. */
    | Overrun(ticks: nat)
    /** `Thread.Sleep` throws for a delay above `int.MaxValue` milliseconds. */
    | SleepRejected(ms: nat)

  /** The pause after a session that took `elapsed` ticks, with an interval of `interval` ticks. */
  function PauseAfter(interval: int, elapsed: int): (r: Pause)
    ensures r.Overrun? <==> elapsed >= interval
    ensures r.Overrun? ==> r.ticks == elapsed - interval
    ensures !r.Overrun? ==> r.ms * TicksPerMillisecond <= interval - elapsed < (r.ms + 1) * TicksPerMillisecond
    ensures r.SleepRejected? <==> !r.Overrun? && r.ms > MaxInt32
  {
    var delay := interval - elapsed;
    if delay > 0 then
      var ms := delay / TicksPerMillisecond;
      if ms > MaxInt32 then SleepRejected(ms) else Sleep(ms)
    else Overrun(-delay)
  }

  /**
   * The pause depends only on what is left of the interval, and a longer session never gets
   * a longer sleep nor a shorter overrun.
   */
  lemma PauseShrinksWithDuration(interval: int, elapsed: int, longer: int)
    requires elapsed <= longer
    ensures PauseAfter(interval, elapsed) == PauseAfter(interval - elapsed, 0)
    ensures !PauseAfter(interval, longer).Overrun? ==>
              !PauseAfter(interval, elapsed).Overrun? && PauseAfter(interval, longer).ms <= PauseAfter(interval, elapsed).ms
    ensures PauseAfter(interval, elapsed).Overrun? ==>
              PauseAfter(interval, longer).Overrun? && PauseAfter(interval, elapsed).ticks <= PauseAfter(interval, longer).ticks
  {
    if longer < interval {
      var d, d' := interval - elapsed, interval - longer;
      assert d == (d / TicksPerMillisecond) * TicksPerMillisecond + d % TicksPerMillisecond;
      assert d' == (d' / TicksPerMillisecond) * TicksPerMillisecond + d' % TicksPerMillisecond;
    }
  }

  /**
   * When the loop sleeps, the next session starts one interval after this one started, short
   * of it by the part of a millisecond the sleep drops.
   */
  lemma StartToStart(interval: int, elapsed: int)
    requires PauseAfter(interval, elapsed).Sleep?
    ensures var waited := PauseAfter(interval, elapsed).ms * TicksPerMillisecond;
      interval - TicksPerMillisecond < elapsed + waited <= interval
  {
    var delay := interval - elapsed;
    var ms := delay / TicksPerMillisecond;
    assert delay == ms * TicksPerMillisecond + delay % TicksPerMillisecond;
  }

  /** The sleep is rejected exactly when the delay reaches `int.MaxValue + 1` milliseconds. */
  lemma SleepRejectedBeyondLimit(interval: int, elapsed: int)
    ensures PauseAfter(interval, elapsed).SleepRejected? <==>
            interval - elapsed >= (MaxInt32 + 1) * TicksPerMillisecond
  {
    var delay := interval - elapsed;
    if delay > 0 {
      var ms := delay / TicksPerMillisecond;
      assert delay == ms * TicksPerMillisecond + delay % TicksPerMillisecond;
      if delay >= (MaxInt32 + 1) * TicksPerMillisecond {
        assert ms >= MaxInt32 + 1;
      }
    }
  }

  /**
   * An interval of 2147484 seconds, which validation accepts, is too long to sleep after an
   * instant session; 2147483 seconds is not.
   */
  lemma LongestSleepableInterval()
    ensures PauseAfter(2147484 * TicksPerSecond, 0).SleepRejected?
    ensures PauseAfter(2147483 * TicksPerSecond, 0) == Sleep(2147483000)
  {
    SleepRejectedBeyondLimit(2147484 * TicksPerSecond, 0);
  }

  /** One clock reading per iteration: the local time the session is named after, and its duration. */
  datatype Reading = Reading(now: Timestamp, elapsedTicks: int)

  /** One iteration: what PerformSync did and, when it returned, the pause after it. */
  datatype Round = Round(outcome: SyncOutcome, pause: Option<Pause>)

  /** Why Start returned. */
  datatype Stop =
    /** The interval is not set or not positive: "Interval is not set." */
    | NotStarted
    /** The readings ran out; the loop itself never ends. */
    | Continuing
    /** An exception escaped PerformSync. */
    | SyncThrew
    /** Thread.Sleep rejected the delay. */
    | SleepThrew

  /** The iterations that go on to the next one: the session returned and the sleep was accepted. */
  predicate GoesOn(r: Round) {
    r.outcome.Completed? && r.pause.Some? && !r.pause.value.SleepRejected?
  }

  /** Every round so far returned, and paused as PauseAfter says. */
  predicate RoundsFit(rounds: seq<Round>, readings: seq<Reading>, interval: int)
    requires |rounds| <= |readings|
  {
    forall i :: 0 <= i < |rounds| ==>
      rounds[i].outcome.Completed? && rounds[i].pause == Some(PauseAfter(interval, readings[i].elapsedTicks))
  }

  /** Every round so far returned, paused as PauseAfter says, and went on to the next reading. */
  predicate WentOn(rounds: seq<Round>, readings: seq<Reading>, interval: int) {
    && |rounds| <= |readings|
    && RoundsFit(rounds, readings, interval)
    && forall j :: 0 <= j < |rounds| ==> GoesOn(rounds[j])
  }

  /**
   * What the loop did with `readings` and an interval of `interval` ticks: one round per reading
   * at most; each session that returned is followed by the pause PauseAfter gives and one
   * that threw by none; every round but the last goes on; and the loop stopped for the reason
   * the last round gives: an escaped exception, a rejected sleep, or the readings running out
   * after a round that went on.
   */
  predicate Ran(readings: seq<Reading>, interval: int, rounds: seq<Round>, stop: Stop) {
    && |rounds| <= |readings|
    && (forall i :: 0 <= i < |rounds| ==> rounds[i].outcome.Completed? ==>
          rounds[i].pause == Some(PauseAfter(interval, readings[i].elapsedTicks)))
    && (forall i :: 0 <= i < |rounds| ==> rounds[i].outcome.Threw? ==> rounds[i].pause.None?)
    && (forall i :: 0 <= i < |rounds| - 1 ==> GoesOn(rounds[i]))
    && match stop
       case NotStarted => false
       case Continuing => |rounds| == |readings| && (rounds == [] || GoesOn(rounds[|rounds| - 1]))
       case SyncThrew => rounds != [] && rounds[|rounds| - 1].outcome.Threw?
       case SleepThrew => rounds != [] && rounds[|rounds| - 1].outcome.Completed? && !GoesOn(rounds[|rounds| - 1])
  }

  /**
   * One more round after rounds that all went on: the loop that stops there stops for the
   * reason the round gives.
   */
  lemma OneMore(readings: seq<Reading>, interval: int, rounds: seq<Round>, round: Round)
    requires |rounds| < |readings| && WentOn(rounds, readings, interval)
    requires round.outcome.Threw? ==> round.pause.None?
    requires round.outcome.Completed? ==> round.pause == Some(PauseAfter(interval, readings[|rounds|].elapsedTicks))
    ensures round.outcome.Threw? ==> Ran(readings, interval, rounds + [round], SyncThrew)
    ensures round.outcome.Completed? && !GoesOn(round) ==> Ran(readings, interval, rounds + [round], SleepThrew)
    ensures GoesOn(round) ==> WentOn(rounds + [round], readings, interval)
  {
    var r := rounds + [round];
    assert forall i :: 0 <= i < |rounds| ==> r[i] == rounds[i];
  }

  /** Rounds that all went on and used up the readings: the loop would go on. */
  lemma RanOut(readings: seq<Reading>, interval: int, rounds: seq<Round>)
    requires WentOn(rounds, readings, interval) && |rounds| == |readings|
    ensures Ran(readings, interval, rounds, Continuing)
  {
  }

  /** A session that returned, successful or not, never ends the loop unless its sleep is rejected. */
  lemma ReturnedGoesOn(readings: seq<Reading>, interval: int, rounds: seq<Round>, stop: Stop, i: int)
    requires Ran(readings, interval, rounds, stop) && 0 <= i < |rounds|
    requires rounds[i].outcome.Completed? && !PauseAfter(interval, readings[i].elapsedTicks).SleepRejected?
    ensures i < |rounds| - 1 || stop == Continuing
  {
  }

  /** The outcomes of the sessions of `rounds`, in order. */
  function Outcomes(rounds: seq<Round>): (r: seq<SyncOutcome>)
    ensures |r| == |rounds|
  {
    if rounds == [] then [] else Outcomes(rounds[..|rounds| - 1]) + [rounds[|rounds| - 1].outcome]
  }

  /** The `i`-th outcome is that of the `i`-th round. */
  lemma {:induction false} OutcomesAt(rounds: seq<Round>, i: int)
    requires 0 <= i < |rounds|
    ensures Outcomes(rounds)[i] == rounds[i].outcome
  {
    if i < |rounds| - 1 {
      OutcomesAt(rounds[..|rounds| - 1], i);
    }
  }

  /** One more session added to a history that already ended with those of `rounds`. */
  lemma OutcomesGrow(past: seq<SyncOutcome>, rounds: seq<Round>, round: Round, before: seq<SyncOutcome>, after: seq<SyncOutcome>)
    requires before == past + Outcomes(rounds) && after == before + [round.outcome]
    ensures after == past + Outcomes(rounds + [round])
  {
    assert (rounds + [round])[..|rounds|] == rounds;
    assert (past + Outcomes(rounds)) + [round.outcome] == past + (Outcomes(rounds) + [round.outcome]);
  }

  class SyncScheduler {
    const syncService: SyncService
    const intervalInSeconds: Option<Int32>

    constructor (syncService: SyncService, intervalInSeconds: Option<Int32>)
      ensures this.syncService == syncService && this.intervalInSeconds == intervalInSeconds
    {
      this.syncService := syncService;
      this.intervalInSeconds := intervalInSeconds;
    }

    /**
     * One iteration of the endless loop: PerformSync (its outcome is logged when it fails), then,
     * when it returned, the pause PauseAfter gives for the session's duration.
     */
    method Iteration(reading: Reading, interval: int) returns (round: Round)
      requires syncService.fs.Valid() && reading.now.Valid()
      modifies syncService, syncService.fs
      ensures syncService.fs.Valid() && syncService.currentSessionId == SessionId(reading.now)
      ensures syncService.sessions == old(syncService.sessions) + [round.outcome]
      ensures round.outcome == Completed(true) ==>
                Mirrors(syncService.fs.Tree(Source), syncService.fs.Tree(Replica), syncService.fs.sha256)
      ensures round.outcome.Threw? ==> round.pause.None?
      ensures round.outcome.Completed? ==> round.pause == Some(PauseAfter(interval, reading.elapsedTicks))
    {
      var outcome, run := syncService.PerformSync(reading.now);
      if outcome.Threw? {
        return Round(outcome, None);
      }
      round := Round(outcome, Some(PauseAfter(interval, reading.elapsedTicks)));
    }

    /** The five-second countdown: the numbers it shows, one a second. */
    method Countdown() returns (countdown: seq<int>)
      ensures countdown == [5, 4, 3, 2, 1]
    {
      countdown := [];
      var i := CountdownStart;
      while i > 0
        invariant 0 <= i <= CountdownStart
        invariant |countdown| == CountdownStart - i
        invariant forall j :: 0 <= j < |countdown| ==> countdown[j] == CountdownStart - j
      {
        countdown := countdown + [i];
        i := i - 1;
      }
    }

    /**
     * The endless loop, one iteration per reading, with `interval` in ticks: it goes on after
     * every session that returned, whatever its result, and ends only when an exception escapes
     * PerformSync or Thread.Sleep.
     */
    method Sessions(readings: seq<Reading>, interval: int) returns (rounds: seq<Round>, stop: Stop)
      requires syncService.fs.Valid()
      requires forall i :: 0 <= i < |readings| ==> readings[i].now.Valid()
      modifies syncService, syncService.fs
      ensures syncService.fs.Valid()
      ensures Ran(readings, interval, rounds, stop)
      ensures syncService.sessions == old(syncService.sessions) + Outcomes(rounds)
      ensures rounds != [] ==> syncService.currentSessionId == SessionId(readings[|rounds| - 1].now)
    {
      rounds, stop := [], Continuing;
      ghost var past := syncService.sessions;
      var k := 0;
      while k < |readings| && stop == Continuing
        invariant 0 <= k <= |readings| && |rounds| == k
        invariant syncService.fs.Valid()
        invariant stop == Continuing ==> WentOn(rounds, readings, interval)
        invariant stop != Continuing ==> Ran(readings, interval, rounds, stop)
        invariant k > 0 ==> syncService.currentSessionId == SessionId(readings[k - 1].now)
        invariant syncService.sessions == past + Outcomes(rounds)
      {
        var round;
        round, stop := Step(readings, interval, rounds, past);
        rounds := rounds + [round];
        k := k + 1;
      }
      if stop == Continuing {
        RanOut(readings, interval, rounds);
      }
    }

    /**
     * The iteration after `rounds`, all of which went on, and whether the loop stops after it:
     * the iteration's session is added to the history and the loop stops for the reason the
     * round gives.
     */
    method Step(readings: seq<Reading>, interval: int, rounds: seq<Round>, ghost past: seq<SyncOutcome>)
        returns (round: Round, stop: Stop)
      requires |rounds| < |readings| && WentOn(rounds, readings, interval)
      requires syncService.fs.Valid() && readings[|rounds|].now.Valid()
      requires syncService.sessions == past + Outcomes(rounds)
      modifies syncService, syncService.fs
      ensures syncService.fs.Valid() && syncService.currentSessionId == SessionId(readings[|rounds|].now)
      ensures syncService.sessions == past + Outcomes(rounds + [round])
      ensures stop == Continuing ==> WentOn(rounds + [round], readings, interval)
      ensures stop != Continuing ==> Ran(readings, interval, rounds + [round], stop)
    {
      ghost var before := syncService.sessions;
      round := Iteration(readings[|rounds|], interval);
      OneMore(readings, interval, rounds, round);
      OutcomesGrow(past, rounds, round, before, syncService.sessions);
      stop := if round.outcome.Threw? then SyncThrew else if !GoesOn(round) then SleepThrew else Continuing;
    }

    /**
     * Start: nothing at all without a positive interval; otherwise the countdown 5, 4, 3, 2, 1,
     * then the endless loop with the interval converted to ticks.
     */
    method Start(readings: seq<Reading>) returns (countdown: seq<int>, rounds: seq<Round>, stop: Stop)
      requires syncService.fs.Valid()
      requires forall i :: 0 <= i < |readings| ==> readings[i].now.Valid()
      modifies syncService, syncService.fs
      ensures syncService.fs.Valid()
      ensures stop == NotStarted <==> intervalInSeconds.None? || intervalInSeconds.value <= 0
      ensures stop == NotStarted ==> countdown == [] && rounds == []
      ensures stop == NotStarted ==> unchanged(syncService) && unchanged(syncService.fs)
      ensures stop != NotStarted ==> countdown == [5, 4, 3, 2, 1]
      ensures stop != NotStarted ==> Ran(readings, intervalInSeconds.value * TicksPerSecond, rounds, stop)
      ensures syncService.sessions == old(syncService.sessions) + Outcomes(rounds)
      ensures rounds != [] ==> syncService.currentSessionId == SessionId(readings[|rounds| - 1].now)
    {
      if intervalInSeconds.None? || intervalInSeconds.value <= 0 {
        countdown, rounds, stop := [], [], NotStarted;
        return;
      }
      countdown := Countdown();
      rounds, stop := Sessions(readings, intervalInSeconds.value * TicksPerSecond);
    }
  }
}

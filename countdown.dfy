/**
 * The dealer's countdown: how one display update moves the timer fields and
 * what it shows. Time is in milliseconds and is passed in as `now`.
 */
module Countdown {

  /** Interval between display updates while the countdown is far from its end. */
  const DefaultSleep: int := 200
  /** Interval between display updates once the warning threshold is reached. */
  const WarningSleep: int := 10
  /** Remaining time at or below which the round counts as timed out. */
  const TimeoutMargin: int := 50

  /**
   * The timer fields of the dealer: `timer` (last value computed), the sleep
   * interval, the round's end (`RoundTime`), the start of an elapsed-time
   * round, and the time-out flag (`terminateTimeRunOut`).
   */
  datatype Clock = Clock(timer: int, sleepTime: int, roundTime: int, elapsedTime: int, timedOut: bool)

  /** What the update shows: nothing, an elapsed time, or a countdown with its warning flag. */
  datatype Display = Hidden | Elapsed(millis: int) | Remaining(millis: int, warn: bool)

  function Max(a: int, b: int): int
  {
    if a >= b then a else b
  }

  /**
   * One display update at time `now` for a round of `duration` milliseconds
   * (negative: no timer; zero: elapsed time; positive: countdown) with the
   * given warning threshold; `reset` restarts the round.
   */
  function Update(c: Clock, reset: bool, now: int, duration: int, warning: int): (r: (Clock, Display))
    // without a timer nothing changes and nothing is shown
    ensures duration < 0 ==> r == (c, Hidden)
    // an elapsed-time round shows the timer it computed; the countdown fields are untouched
    ensures duration == 0 ==> r.1 == Elapsed(r.0.timer) && r.0.roundTime == c.roundTime && r.0.sleepTime == c.sleepTime
    // a countdown is never shown below zero, and never above the time left
    ensures r.1.Remaining? ==> 0 <= r.1.millis && (reset || r.1.millis == Max(c.roundTime - now, 0))
    // with a countdown the sleep interval is one of the two configured ones
    ensures duration > 0 && !reset ==> r.0.sleepTime == DefaultSleep || r.0.sleepTime == WarningSleep
    // the time-out flag is only ever raised, and only by a non-reset countdown update
    ensures c.timedOut ==> r.0.timedOut
    ensures r.0.timedOut && !c.timedOut ==> duration > 0 && !reset && c.roundTime - now <= TimeoutMargin
  {
    if duration < 0 then (c, Hidden)
    else if duration == 0 then
      if reset then (c.(timer := 0, elapsedTime := now), Elapsed(0))
      else (c.(timer := now - c.elapsedTime), Elapsed(now - c.elapsedTime))
    else
      var left := c.roundTime - now;
      if reset then (c.(roundTime := now + duration, timer := duration), Remaining(duration, false))
      else
        var shown := Remaining(Max(left, 0), warning > left);
        if left <= TimeoutMargin then
          (c.(timedOut := true, sleepTime := DefaultSleep, roundTime := now + duration, timer := duration), shown)
        else
          (c.(timer := left, sleepTime := if left > warning then DefaultSleep else WarningSleep), shown)
  }

  /** Reset then update: a countdown shows the full duration minus the time since the reset, floored at 0. */
  lemma ResetRestartsCountdown(c: Clock, start: int, now: int, duration: int, warning: int)
    requires duration > 0
    ensures var restarted := Update(c, true, start, duration, warning).0;
      Update(restarted, false, now, duration, warning).1 == Remaining(Max(duration - (now - start), 0), warning > duration - (now - start))
  {
  }

  /** Reset then update: an elapsed-time round shows the time since the reset. */
  lemma ResetRestartsElapsed(c: Clock, start: int, now: int, warning: int)
    ensures var restarted := Update(c, true, start, 0, warning).0;
      Update(restarted, false, now, 0, warning).1 == Elapsed(now - start)
  {
  }

  /** A time-out starts the next round: an update at the same moment shows the full duration again. */
  lemma TimeoutRearms(c: Clock, now: int, duration: int, warning: int)
    requires duration > 0 && !c.timedOut && c.roundTime - now <= TimeoutMargin
    ensures var next := Update(c, false, now, duration, warning).0;
      next.timedOut && next.sleepTime == DefaultSleep
      && Update(next, false, now, duration, warning).1 == Remaining(duration, warning > duration)
  {
  }

  /**
   * A round whose end is set `duration` after `start` runs: an update before
   * its last `TimeoutMargin` milliseconds shows the time left and raises no
   * time-out.
   */
  lemma StartedRoundRuns(c: Clock, start: int, now: int, duration: int, warning: int)
    requires duration > 0 && !c.timedOut && now - start < duration - TimeoutMargin
    ensures var r := Update(c.(roundTime := start + duration), false, now, duration, warning);
      !r.0.timedOut && r.0.roundTime == start + duration
      && r.1 == Remaining(duration - (now - start), warning > duration - (now - start))
  {
  }

  /** Two resets at the same moment leave the timer fields as one does. */
  lemma ResetTwice(c: Clock, now: int, duration: int, warning: int)
    ensures var once := Update(c, true, now, duration, warning).0;
      Update(once, true, now, duration, warning).0 == once
  {
  }

  /** Without a reset, a later update never shows more time left than an earlier one of the same clock. */
  lemma CountdownNonIncreasing(c: Clock, t1: int, t2: int, duration: int, warning: int)
    requires duration > 0 && t1 <= t2
    ensures Update(c, false, t2, duration, warning).1.millis <= Update(c, false, t1, duration, warning).1.millis
  {
  }

  /** The warning flag is raised exactly when the time left drops below the warning threshold. */
  lemma WarningExactly(c: Clock, now: int, duration: int, warning: int)
    requires duration > 0
    ensures Update(c, false, now, duration, warning).1.warn <==> c.roundTime - now < warning
  {
  }

  /** The short sleep interval is used exactly while the round is between warning and time-out. */
  lemma ShortSleepExactly(c: Clock, now: int, duration: int, warning: int)
    requires duration > 0
    ensures Update(c, false, now, duration, warning).0.sleepTime == WarningSleep
        <==> TimeoutMargin < c.roundTime - now <= warning
  {
  }
}

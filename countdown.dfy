/**
 * The countdown of the game store, as values: the clock the one-second
 * interval callback reads and writes, the penalty deduction, and what a
 * number of elapsed seconds does to the clock.
 *
 * The store's methods (module GameStore) are proved against these
 * functions; the lemmas below state what the countdown promises over time.
 */
module Countdown {

  /** Length of a fresh countdown, in seconds (one hour). */
  const InitialTime: nat := 3600

  /** Seconds removed by one penalty in a fresh store. */
  const DefaultPenalty: int := 60

  function Max(a: int, b: int): (r: int) {
    if a < b then b else a
  }

  /** The two fields the countdown consists of: seconds left and whether an interval is ticking. */
  datatype Clock = Clock(timeLeft: nat, running: bool)

  /**
   * One run of the interval callback. It only ever fires while an interval
   * is live, which the store keeps equivalent to `running`. With time left it
   * takes one second off and keeps running; with none left it stops and the
   * clock stays at zero.
   */
  function Tick(c: Clock): (r: Clock)
    requires c.running
    ensures r.timeLeft == Max(0, c.timeLeft - 1)
    ensures r.running <==> c.timeLeft > 0
  {
    if c.timeLeft > 0 then Clock(c.timeLeft - 1, true) else Clock(0, false)
  }

  /** One second of wall-clock time: the callback fires if and only if an interval is live. */
  function Second(c: Clock): (r: Clock) {
    if c.running then Tick(c) else c
  }

  /** The clock after `n` seconds of wall-clock time. */
  function Elapse(c: Clock, n: nat): (r: Clock)
    decreases n
  {
    if n == 0 then c else Elapse(Second(c), n - 1)
  }

  /**
   * Seconds left after one penalty of `p` seconds: the difference when time
   * exceeds the penalty, zero otherwise.
   */
  function Penalized(t: nat, p: int): (r: nat)
    ensures r == Max(0, t - p)
    ensures p >= 0 ==> r <= t
  {
    if t > p then t - p else 0
  }

  /** A stopped clock has no live interval, so time passing leaves it alone. */
  lemma {:induction false} ElapseWhileStopped(t: nat, n: nat)
    ensures Elapse(Clock(t, false), n) == Clock(t, false)
    decreases n
  {
    if n > 0 {
      ElapseWhileStopped(t, n - 1);
    }
  }

  /**
   * Started with `t` seconds left, after `n` seconds the clock shows
   * max(0, t - n) and is still running exactly while n <= t: it stops on the
   * tick after the one that reached zero.
   */
  lemma {:induction false} ElapseWhileRunning(t: nat, n: nat)
    ensures Elapse(Clock(t, true), n) == Clock(Max(0, t - n), n <= t)
    decreases n
  {
    if n > 0 {
      if t > 0 {
        ElapseWhileRunning(t - 1, n - 1);
      } else {
        ElapseWhileStopped(0, n - 1);
      }
    }
  }

  /**
   * The tick that brings the clock to zero leaves it running; the next one
   * stops it, with zero seconds left.
   */
  lemma {:induction false} StopsOneTickAfterZero(t: nat)
    ensures Elapse(Clock(t, true), t) == Clock(0, true)
    ensures Elapse(Clock(t, true), t + 1) == Clock(0, false)
  {
    ElapseWhileRunning(t, t);
    ElapseWhileRunning(t, t + 1);
  }

  /**
   * Time passing never adds seconds to the clock, and once the clock has
   * stopped it stays exactly as it is.
   */
  lemma ElapseNeverIncreases(c: Clock, m: nat, n: nat)
    requires m <= n
    ensures Elapse(c, n).timeLeft <= Elapse(c, m).timeLeft
    ensures !Elapse(c, m).running ==> Elapse(c, n) == Elapse(c, m)
  {
    if c.running {
      ElapseWhileRunning(c.timeLeft, m);
      ElapseWhileRunning(c.timeLeft, n);
    } else {
      ElapseWhileStopped(c.timeLeft, m);
      ElapseWhileStopped(c.timeLeft, n);
    }
  }

  /**
   * A fresh hour, started and left alone for 3605 seconds, has run out and
   * stopped itself, without going below zero.
   */
  lemma HourRunsOut()
    ensures Elapse(Clock(InitialTime, true), 3605) == Clock(0, false)
  {
    ElapseWhileRunning(InitialTime, 3605);
  }

  /**
   * A penalty taken while running: the countdown carries on from the reduced
   * value, so after `n` more seconds it shows max(0, t - p - n) for any
   * penalty p >= 0.
   */
  lemma PenaltyThenElapse(t: nat, p: int, n: nat)
    requires p >= 0
    ensures Elapse(Clock(Penalized(t, p), true), n).timeLeft == Max(0, t - p - n)
    ensures Elapse(Clock(Penalized(t, p), true), n).timeLeft <= Elapse(Clock(t, true), n).timeLeft
  {
    ElapseWhileRunning(Penalized(t, p), n);
    ElapseWhileRunning(t, n);
  }
}

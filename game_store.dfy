/**
 * The game store: one object holding the session's state, whose actions
 * start, stop and reset the countdown and apply a penalty to it.
 *
 * Every store field is a plain field of class Store. The host's timer table
 * is represented by two things: the handle the store keeps (`timerInterval`)
 * and a ghost count of the intervals registered with the store's tick
 * callback that have not been cleared (`liveIntervals`). The id that
 * `setInterval` hands back is a parameter of StartTimer.
 */
module GameStore {
  import opened Countdown

  datatype Option<T> = None | Some(value: T)

  /**
   * The value `setInterval` returns and `clearInterval` takes. Hosts hand
   * out positive ids, so a held handle is always truthy, as the test in
   * StopTimer needs.
   */
  type IntervalId = x: nat | x > 0 witness 1

  /** The store fields that no timer action writes. */
  datatype OtherFields = OtherFields(
    penalty: int,
    isMuted: bool,
    currentPage: string,
    showNumericPad: bool,
    numericPadContext: string,
    lastEnteredCardNumber: Option<int>,
    currentIndiceIndex: map<string, int>,
    currentObjetIndex: map<string, int>)

  class Store {
    var timeLeft: nat
    var timerRunning: bool
    var cutWires: seq<string>
    var isMuted: bool
    var currentPage: string
    var showNumericPad: bool
    var numericPadContext: string
    var penalty: int
    var lastEnteredCardNumber: Option<int>
    var currentIndiceIndex: map<string, int>
    var currentObjetIndex: map<string, int>

    /** The handle of the interval running the tick callback, if any. */
    var timerInterval: Option<IntervalId>
    /** How many intervals running the tick callback are registered and not cleared. */
    ghost var liveIntervals: nat

    /**
     * The timer is running exactly when the store holds a handle, and the
     * handle it holds is the only live interval: no interval is ever lost.
     */
    ghost predicate Valid()
      reads this
    {
      (timerRunning <==> timerInterval.Some?) &&
      liveIntervals == (if timerInterval.Some? then 1 else 0)
    }

    ghost function ClockState(): (r: Clock)
      reads this
    {
      Clock(timeLeft, timerRunning)
    }

    ghost function Others(): (r: OtherFields)
      reads this
    {
      OtherFields(penalty, isMuted, currentPage, showNumericPad, numericPadContext,
                  lastEnteredCardNumber, currentIndiceIndex, currentObjetIndex)
    }

    /** A fresh store: one hour on a stopped clock, default penalty, menu page, nothing recorded. */
    constructor ()
      ensures Valid()
      ensures timeLeft == InitialTime && !timerRunning
      ensures timerInterval == None && liveIntervals == 0
      ensures cutWires == [] && penalty == DefaultPenalty
      ensures !isMuted && currentPage == "menu" && !showNumericPad && numericPadContext == ""
      ensures lastEnteredCardNumber == None
      ensures currentIndiceIndex == map[] && currentObjetIndex == map[]
    {
      timeLeft := InitialTime;
      timerRunning := false;
      cutWires := [];
      isMuted := false;
      currentPage := "menu";
      showNumericPad := false;
      numericPadContext := "";
      penalty := DefaultPenalty;
      lastEnteredCardNumber := None;
      currentIndiceIndex := map[];
      currentObjetIndex := map[];
      timerInterval := None;
      liveIntervals := 0;
    }

    /**
     * Starts the countdown. While it is already running nothing changes and
     * no second interval is registered; otherwise the store registers one
     * interval, whose id `id` the host hands back, and keeps its handle.
     */
    method StartTimer(id: IntervalId)
      requires Valid()
      modifies this
      ensures Valid()
      ensures old(timerRunning) ==> unchanged(this)
      ensures !old(timerRunning) ==> timerRunning && timerInterval == Some(id)
      ensures timerRunning && liveIntervals == 1
      ensures timeLeft == old(timeLeft) && cutWires == old(cutWires) && Others() == old(Others())
    {
      if timerRunning {
        return;
      }
      timerRunning := true;
      liveIntervals := liveIntervals + 1;
      timerInterval := Some(id);
    }

    /**
     * The interval callback, run by the host once a second while an
     * interval is live: takes a second off, or at zero stops the timer.
     */
    method Tick()
      requires Valid() && timerInterval.Some?
      modifies this
      ensures Valid()
      ensures ClockState() == Countdown.Tick(old(ClockState()))
      ensures timerRunning ==> timerInterval == old(timerInterval)
      ensures cutWires == old(cutWires) && Others() == old(Others())
    {
      if timeLeft > 0 {
        timeLeft := timeLeft - 1;
      } else {
        StopTimer();
      }
    }

    /**
     * Stops the countdown: clears the interval if there is one and drops the
     * handle. Stopping a stopped timer changes nothing.
     */
    method StopTimer()
      requires Valid()
      modifies this
      ensures Valid()
      ensures !timerRunning && timerInterval == None && liveIntervals == 0
      ensures !old(timerRunning) ==> unchanged(this)
      ensures timeLeft == old(timeLeft) && cutWires == old(cutWires) && Others() == old(Others())
    {
      if timerInterval.Some? {
        liveIntervals := liveIntervals - 1;
        timerInterval := None;
      }
      timerRunning := false;
    }

    /**
     * Puts a full hour back on a stopped clock and forgets the cut wires,
     * whatever the state before; the other fields keep their values.
     */
    method ResetTimer()
      requires Valid()
      modifies this
      ensures Valid()
      ensures timeLeft == InitialTime && cutWires == []
      ensures !timerRunning && timerInterval == None && liveIntervals == 0
      ensures Others() == old(Others())
    {
      timeLeft := InitialTime;
      cutWires := [];
      StopTimer();
    }

    /**
     * Takes `penalty` seconds off the clock, clamping at zero; a running
     * timer keeps running and a stopped one stays stopped.
     */
    method ApplyPenalty()
      requires Valid()
      modifies this
      ensures Valid()
      ensures timeLeft == Penalized(old(timeLeft), penalty)
      ensures timerRunning == old(timerRunning) && timerInterval == old(timerInterval)
      ensures liveIntervals == old(liveIntervals)
      ensures cutWires == old(cutWires) && Others() == old(Others())
    {
      if timeLeft > penalty {
        timeLeft := timeLeft - penalty;
      } else {
        timeLeft := 0;
      }
    }

    /**
     * The host running the interval for `n` seconds: each second the tick
     * callback fires if and only if an interval is live. The store ends
     * where `Countdown.Elapse` puts the clock.
     */
    method ElapseSeconds(n: nat)
      requires Valid()
      modifies this
      ensures Valid()
      ensures ClockState() == Elapse(old(ClockState()), n)
      ensures timerRunning ==> timerInterval == old(timerInterval)
      ensures cutWires == old(cutWires) && Others() == old(Others())
    {
      var i := 0;
      while i < n
        invariant 0 <= i <= n
        invariant Valid()
        invariant Elapse(ClockState(), n - i) == Elapse(old(ClockState()), n)
        invariant timerRunning ==> timerInterval == old(timerInterval)
        invariant cutWires == old(cutWires) && Others() == old(Others())
      {
        if timerInterval.Some? {
          Tick();
        }
        i := i + 1;
      }
    }
  }
}

# Reality Switch game store: countdown and penalty

This project models the countdown part of the reality-switch escape-room game's
store (`useGameStore`). That part is a one-hour clock with four actions:

- start it;
- stop it;
- reset it;
- apply a penalty to it.

A one-second interval callback counts the clock down while it runs.

The model has two modules:

- `Countdown` (countdown.dfy) describes the clock as a value. The datatype
  `Clock` holds the seconds left and the running flag. `Tick` is the interval
  callback and `Penalized` is the penalty deduction. `Second` is one second of
  wall-clock time: the callback fires only while an interval is live. `Elapse`
  applies `n` such seconds. The lemmas state what the countdown does over time.
- `GameStore` (game_store.dfy) holds the class `Store`. Each of its fields
  mirrors one of the store's refs. It keeps the interval handle in
  `timerInterval`. A ghost count, `liveIntervals`, tracks the intervals that
  were registered with the tick callback and not yet cleared. `Valid()` says
  three things:
  - the timer runs exactly when a handle is held;
  - at most one interval is ever live;
  - no interval is ever orphaned.

  Each action is a method that keeps `Valid()`. Its postcondition gives the
  new clock in terms of the old one. It also says that the other fields are
  unchanged. The `Tick` method is proved against `Countdown.Tick`, and
  `ApplyPenalty` against `Countdown.Penalized`.

The host's timer is not modelled as wall-clock time.

- The id that `setInterval` returns is the parameter of `StartTimer`.
- `clearInterval` is modelled as dropping the handle and lowering the ghost
  count.
- A callback firing is a call to `Store.Tick`, which requires a live interval.

`Valid()` makes "an interval is live" equivalent to "`timerRunning`".
`Store.ElapseSeconds` lets the host fire the callback once a second for `n`
seconds. It is proved to leave the store's clock where `Countdown.Elapse` puts
it, so the lemmas about `Elapse` hold of the store itself.

In three places the store behaves in ways a reader might not expect; the model
follows the code:

- The timer does not stop on the tick that reaches zero. It stops on the next
  tick, when the clock already shows zero. So `timerRunning` stays true for one
  second at zero (see `Countdown.StopsOneTickAfterZero`).
- `resetTimer` always puts back 3600 seconds. There is no configurable initial
  time.
- Nothing checks the penalty's sign. `penalty` is modelled as any integer, and
  the clamp max(0, T - P) holds for every P.

## Model

| member | source | states |
|---|---|---|
| `GameStore.Store.constructor` | reality-switch/src/store/gameStore.js:7-20 | A fresh store has 3600 seconds on a stopped clock and no interval handle. Its penalty is 60, its cut wires are empty, its page is `menu` and both index maps are empty. The keypad is hidden, the mute flag is off and no card number has been entered. |
| `GameStore.Store.StartTimer` | reality-switch/src/store/gameStore.js:23-33 | While running, nothing changes and no second interval is registered. From idle, the timer runs and holds the handle it was given. Exactly one interval is live afterwards, and the clock and all other fields are unchanged. |
| `GameStore.Store.Tick` | reality-switch/src/store/gameStore.js:26-31 | Callable only while an interval is live. The new clock is `Countdown.Tick` of the old one. While still running the handle is kept, and no other field changes. |
| `GameStore.Store.StopTimer` | reality-switch/src/store/gameStore.js:35-41 | Always ends with the timer stopped, no handle and no live interval. The clock and other fields are unchanged. On a stopped timer nothing changes, so stopping is idempotent. |
| `GameStore.Store.ResetTimer` | reality-switch/src/store/gameStore.js:43-47 | Whatever the state before, it ends with 3600 seconds, no cut wires, a stopped timer and no live interval. Penalty, page, mute, keypad fields, last card number and both index maps are unchanged. |
| `GameStore.Store.ApplyPenalty` | reality-switch/src/store/gameStore.js:49-55 | The new clock is `Penalized(old clock, penalty)`, which is max(0, T - P). The running flag, the handle and the live-interval count are unchanged. |
| `GameStore.Store.ElapseSeconds` | reality-switch/src/store/gameStore.js:26-32 | Runs the recurring interval for n seconds, firing the callback each second while an interval is live. The new clock is `Countdown.Elapse(old clock, n)`. While the timer still runs it keeps the same handle. `Valid()` is kept and no other field changes. |
| `Countdown.Tick` | reality-switch/src/store/gameStore.js:26-31 | On a running clock, one callback leaves max(0, T - 1) seconds. The clock keeps running exactly when time was left. |
| `Countdown.Penalized` | reality-switch/src/store/gameStore.js:49-55 | A penalty P leaves max(0, T - P) seconds, never a negative number. For P >= 0 it never adds time. |
| `Countdown.ElapseWhileStopped` | reality-switch/src/store/gameStore.js:35-41 | A stopped clock has no live interval, so no number of elapsed seconds changes it. |
| `Countdown.ElapseWhileRunning` | reality-switch/src/store/gameStore.js:26-31 | Started with T seconds, after n seconds the clock shows max(0, T - n). It is still running exactly when n <= T. |
| `Countdown.StopsOneTickAfterZero` | reality-switch/src/store/gameStore.js:27-30 | After T seconds the clock shows 0 and is still running. After T + 1 seconds it shows 0 and is stopped. |
| `Countdown.ElapseNeverIncreases` | reality-switch/src/store/gameStore.js:26-41 | Later never shows more seconds than earlier. Once the clock has stopped it stays exactly as it is. |
| `Countdown.HourRunsOut` | reality-switch/src/store/gameStore.js:7-31 | A fresh hour, started and left for 3605 seconds, shows 0 and has stopped itself. |
| `Countdown.PenaltyThenElapse` | reality-switch/src/store/gameStore.js:49-55 | After a penalty P >= 0 on a running clock, n more seconds leave max(0, T - P - n). That is never more than without the penalty. |

## Left out

- The Pinia and Vue wiring (`defineStore`, `ref`, reactivity, lines 2-5 and 57-76) is left out. The refs are plain fields of `Store`.
- Real-time scheduling by `setInterval` and `clearInterval` is left out. The returned id is a parameter of `StartTimer`. The callback is the method `Store.Tick`, and wall-clock seconds are `Countdown.Second` and `Countdown.Elapse`.
- Writes to the refs from outside the actions are not modelled, for example UI code setting `timerRunning` directly. They would bypass the guard on line 24. `Valid()` is stated for the actions only.
- `isMuted`, `currentPage`, `showNumericPad`, `numericPadContext`, `lastEnteredCardNumber`, `currentIndiceIndex` and `currentObjetIndex` have no logic in the store. They appear only in frame conditions. `cutWires` is written only by `resetTimer`, which empties it (line 45); no action adds to it. The element types of the wire list and the index maps are not fixed by the store, so they are modelled as strings and string-keyed maps of integers.
- The store file has no code for saving state to local storage or restoring it. Nothing in this model covers persistence.
- The store file has no operations that record or read progress on the index maps. Those maps are only declared there.
- JS numbers are doubles; the model keeps `timeLeft` and `penalty` as integers. The actions only ever produce whole seconds from the default penalty of 60. A non-integer penalty can only come from a write outside the actions, and it would take the clock below zero: with 1 second left and a penalty of 0.5, `applyPenalty` leaves 0.5, and the next tick decrements it to -0.5.
- Interval ids are modelled as positive, as browsers return them. The source's truthiness test on the handle (line 36) would skip `clearInterval` for an id of 0; that case is not modelled.

# Blind Pomodoro timer: session state machine

A model of the `BlindPomodoro` class of `script.js`. The class is a focus timer that cycles through
work, break and long-break sessions. During work the countdown stays hidden: the timer is "blind".
During breaks it shows the time left as `mm:ss`.

The object keeps four fields: `isRunning`, `currentSession`, `completedPomodoros` and `remainingTime`
(whole seconds). `timer` holds the handle of its ticking interval. `start` loads the configured minutes
of the current kind as seconds and schedules an interval. Each tick takes one second off and calls
`complete` once the time is zero or below. `complete` cancels the interval, counts a finished work
session, and picks the next kind. After work that is a long break when the counter is divisible by the
long-break frequency, otherwise a break; after any break it is work. Then, by the auto-start flag for
that direction, it either schedules `start` one second later or goes idle. `stop` cancels the interval
and returns to an idle work session, keeping the counter.

Files and modules:

- `wrappers.dfy` (`Wrappers`): `Option`.
- `js_number.dfy` (`JsNumber`): JavaScript's truncating `%`, with `x % 0` giving NaN (modelled as
  `None`), and `Math.floor` of a quotient.
- `sessions.dfy` (`Sessions`): the session kinds, the settings record, the next-kind rule and lemmas
  about runs of completions.
- `clock_text.dfy` (`ClockText`): the `mm:ss` text of `updateTimerDisplay` and reading it back.
- `session_machine.dfy` (`SessionMachine`): the object's state as a value, one function per operation,
  the user and browser events, and lemmas about runs of events.
- `pomodoro.dfy` (`Pomodoro`): the class `BlindPomodoro`. Its fields are updated in place by the
  methods, and each method's contract ties `Model()` to the matching `SessionMachine` function.

Timing is abstracted. Each firing of an interval is one call of `Tick`. The browser's timer queue is
modelled as three parts:

- `liveIntervals`: the set of interval handles still scheduled.
- `nextHandle`: the next handle `setInterval` will hand out. Handles are positive, so `timer == 0`
  stands for `null`.
- `pendingAutoStarts`: how many `setTimeout(() => this.start(), 1000)` calls have not fired yet.

The settings are a parameter of every operation that reads them, because `getSettings` reads the form
afresh each time. Clicks are gated the way `updateControls` shows the buttons: start only while idle,
stop only while running.

Facts about `script.js` that the model keeps:

- There is no pause or resume.
- There are no wall-clock timestamps. The remaining time is decremented once per tick.
- There is a single fixed notification sound and no sound library.
- Nothing keeps `remainingTime` from going below zero. It goes below zero when a kind is configured
  with zero or fewer minutes. With `stop` as written it also goes below zero when an interval that
  `timer` no longer names keeps ticking after a completion (see Findings).
- A frequency of 0 is not rejected. `x % 0` is NaN, so every work completion leads to a short break.
  A negative frequency is not rejected either; it acts like its absolute value.
- The auto-start scheduled by `complete` is not cancelled by `stop` (see Findings).

## Model

| member | source | states |
|---|---|---|
| `JsNumber.JsRem` | script.js:85 | JavaScript `%`: NaN exactly for a zero divisor; otherwise it differs from the dividend by a multiple of the divisor, is smaller in magnitude than the divisor and has the dividend's sign (which together fix it), is zero exactly when the divisor divides the dividend, and equals the Euclidean remainder on non-negative operands |
| `JsNumber.FloorQuotient` | script.js:141 | `Math.floor(a / b)` for b > 0 is the q with q·b ≤ a < (q+1)·b |
| `Sessions.SessionSeconds` | script.js:37-43 | the seconds `start` loads are a whole number of minutes, namely the minutes configured for the kind |
| `Sessions.NextAfterWork` | script.js:84-89 | the kind after the n-th work completion is never work; it is a long break iff the frequency is non-zero and divides n; frequency 0 always gives a break |
| `Sessions.NextSession` | script.js:81-99 | `complete` turns work into a break of some kind and any break into work; the counter grows by exactly one after work and is unchanged after a break |
| `Sessions.WorkBreakCycle` | script.js:81-99 | from a work session, every two completions return to work with the counter one higher |
| `Sessions.CounterNeverDecreases` | script.js:82 | over any n completions the counter never decreases and grows by at most n |
| `Sessions.LongBreaksAmongFirst` | script.js:85-89 | with any non-zero frequency f, exactly n / abs(f) of the first n work completions lead to a long break |
| `Sessions.LongBreakRulePeriodic` | script.js:85-89 | for any frequency f (zero and negative included), completion n + f goes to the same kind as completion n (with f = 4: 1-3 break, 4 long break, 5 break) |
| `ClockText.Digits` | script.js:144 | `toString` of a non-negative number is a non-empty digit string with no leading zero, one digit below 10 and at most two below 100 |
| `ClockText.NumberText` | script.js:144 | `toString` of an integer is a digit string denoting it when it is not negative; when it is negative, a '-' followed by a digit string denoting its magnitude |
| `ClockText.PadStart2` | script.js:144 | `padStart(2, '0')` gives a text of length max(2, length of s) that ends with s and is all '0' before it |
| `ClockText.SplitClock` | script.js:141-142 | the minutes are the floor of t / 60 (minutes·60 ≤ t < minutes·60 + 60) and the seconds differ from t by a multiple of 60; for t ≥ 0 minutes·60 + seconds = t with 0 ≤ seconds < 60; for t < 0 the minutes are negative and the seconds lie in -59..0 |
| `ClockText.TimerText` | script.js:139-145 | for t ≥ 0 the text is digits, ':', then exactly two digits; for t < 0 it starts with '-' |
| `ClockText.ClockFace` | script.js:143-144 | minutes and seconds in range give digits, ':', two digits; negative minutes give a text starting with '-' |
| `ClockText.ClockFaceReadsBack` | script.js:143-144 | the face of minutes m and seconds s < 60 reads back as exactly (m, s) |
| `ClockText.DigitsRoundTrip` | script.js:144 | reading the decimal text of n gives back n |
| `ClockText.LeadingZeroKeepsValue` | script.js:144 | a leading '0' does not change the value of a digit string |
| `ClockText.PaddingKeepsValue` | script.js:144 | padding a digit string keeps its digits' value |
| `ClockText.TimerTextRoundTrip` | script.js:139-145 | for remaining time t ≥ 0 the text reads back as the whole minutes t / 60 and the seconds t % 60 left over |
| `ClockText.StartShowsWholeMinutes` | script.js:139-145 | a session of m minutes shows the padded m followed by ":00" |
| `SessionMachine.Initial` | script.js:2-11 | the constructor's state: idle work session, counter 0, nothing scheduled, in shape |
| `SessionMachine.ClearTimer` | script.js:63-66 | afterwards `timer` is null and the interval it named is no longer scheduled (with fresh handles, exactly that one is removed); no other field changes |
| `SessionMachine.Start` | script.js:34-49 | `start` sets running and loads minutes·60 of the current kind. It keeps kind and counter, and adds a fresh interval under `timer` without cancelling an older one |
| `SessionMachine.Stop` | script.js:62-71 | `stop` yields idle, work and `timer == 0`; it cancels only the interval `timer` named and keeps counter, remaining time and any waiting auto-start |
| `SessionMachine.StopWithCancel` | script.js:62-71 | the corrected `stop`: as `stop`, and no auto-start is left waiting |
| `SessionMachine.Complete` | script.js:73-107 | `complete` cancels the interval, changes kind and counter by `NextSession`, and keeps the remaining time. If the direction's auto-start flag is set, one more start is pending and `isRunning` is unchanged; otherwise `isRunning` is false |
| `SessionMachine.Tick` | script.js:49-58 | a tick takes exactly one second off. It completes iff the new time is ≤ 0: then it is `complete` on the decremented state, so the timer is cleared and a work session is counted. Otherwise nothing else changes |
| `SessionMachine.TickDisplay` | script.js:52-54 | a tick writes the countdown text exactly when the session is not work, and the text is that of the new remaining time |
| `SessionMachine.TickDisplayReadsBack` | script.js:52-54 | during a break, when the new remaining time t is not negative, the text a tick writes reads back as the whole minutes t / 60 and the seconds t % 60 |
| `SessionMachine.FireAutoStart` | script.js:94 | a waiting auto-start fires: one fewer waits, and the timer runs the current kind afresh with its configured minutes and a fresh interval, keeping kind and counter |
| `SessionMachine.UpdateControls` | script.js:148-159 | exactly one of the two buttons is shown: stop while running, start while idle |
| `SessionMachine.Enabled` | script.js:148-159 | start can be clicked iff idle and stop iff running (the shown button); an interval fires iff one is scheduled; an auto-start fires iff one waits |
| `SessionMachine.StepKeepsSingleTicker` | script.js:34-107 | with the corrected stop, every enabled event keeps at most one interval scheduled, under `timer`, and at most one auto-start pending |
| `SessionMachine.RunKeepsSingleTicker` | script.js:34-107 | with the corrected stop, every state reached by any run of events is in that shape |
| `SessionMachine.CompletionEndsSegment` | script.js:73-77 | from a state in shape (at most one interval scheduled, the one `timer` names), after a completing tick no interval is scheduled, so no further tick can fire |
| `SessionMachine.OnlyStartSchedules` | script.js:49 | events other than the two starts never add a scheduled interval |
| `SessionMachine.SegmentCompletesOnce` | script.js:49-58 | from a state in shape (at most one interval scheduled, the one `timer` names), a running segment with R seconds left alone completes exactly once, on tick max(R, 1), however many ticks follow; with the orphan interval of the Findings it can complete more than once |
| `SessionMachine.CounterMonotone` | script.js:82 | over any run of events, with the corrected `stop`, the counter of finished work sessions never decreases |
| `SessionMachine.CounterMonotoneAsWritten` | script.js:82 | the same with `stop` as written |
| `SessionMachine.GraceWindowLeavesOrphanTicker` | script.js:93-94 | as written: stop, start and the delayed auto-start in the grace window leave two intervals scheduled. After the next stop the timer is idle while an interval is still scheduled. The corrected stop leaves no auto-start pending |
| `SessionMachine.OrphanNeverCleared` | script.js:49 | as written, an interval whose handle `timer` no longer holds stays scheduled through any run of events |
| `Pomodoro.BlindPomodoro.constructor` | script.js:2-11 | the fields start as `SessionMachine.Initial` |
| `Pomodoro.BlindPomodoro.SetInterval` | script.js:49 | `setInterval` schedules an interval under the next fresh handle and returns that handle |
| `Pomodoro.BlindPomodoro.Start` | script.js:34-60 | updates the fields as `SessionMachine.Start`: running, minutes·60 of the current kind loaded, kind and counter kept |
| `Pomodoro.BlindPomodoro.Tick` | script.js:49-58 | updates the fields as `SessionMachine.Tick` and returns whether it completed (iff the new time ≤ 0) and the text shown (none during work); in shape, a completion leaves nothing scheduled |
| `Pomodoro.BlindPomodoro.UpdateTimerDisplay` | script.js:139-145 | writes nothing during a work session and otherwise the clock text of the current remaining time, whose shape `ClockText.TimerText` states; changes no field |
| `Pomodoro.BlindPomodoro.Stop` | script.js:62-71 | updates the fields as `SessionMachine.Stop`: idle, work, timer cleared, counter kept |
| `Pomodoro.BlindPomodoro.StopWithCancel` | script.js:62-71 | the corrected stop on the fields, as `SessionMachine.StopWithCancel` |
| `Pomodoro.BlindPomodoro.Complete` | script.js:73-111 | updates the fields as `SessionMachine.Complete`; the timer is cleared and the counter does not decrease |
| `Pomodoro.BlindPomodoro.FireAutoStart` | script.js:94 | a waiting `setTimeout` fires: one fewer pending, then `start` |

## Left out

- The DOM is left out: `updateDisplay`, `updateControls`, `toggleSettings`, `initializeEventListeners`
  and the element lookups. Of `updateControls` only which button it shows is kept, in
  `SessionMachine.UpdateControls`, and `SessionMachine.Enabled` lets only the shown button be clicked. `index.html` is not part of this model, so the initial button state is
  taken as `updateControls` would set it for an idle timer.
- `getSettings` is taken as an already-parsed integer record. `parseInt` can yield NaN, and the
  NaN-valued durations and frequencies that follow from it are not modelled.
- Browser notifications are left out: `showNotification` and the permission request. They are a
  foreign capability with no effect on the timer's state.
- `playNotificationSound` is left out. It uses the Web Audio API with floating-point frequencies and
  gains inside a try/catch.
- Real time is left out. Intervals and time-outs become explicit events. Every scheduled interval runs
  the same callback, so the model does not say which of several live intervals fires.
- `updateDisplay` also writes the countdown when it runs during a break (script.js:135). Only the text
  itself is modelled, by `ClockText.TimerText`, and `StartShowsWholeMinutes` describes what it shows
  right after a start.
- The global `app` instance (script.js:210) is left out.
- JavaScript numbers are doubles; the model uses unbounded integers. The two differ only far beyond
  any real duration. From 2^53 on, `remainingTime--` can round back to the same value (at 2^54 + 4 it
  does), so such a segment would never complete, whereas `SessionMachine.SegmentCompletesOnce`
  holds for every integer time. `toString` switches to exponent form from 10^21, which
  `ClockText.NumberText` does not model.

## Findings

| source | as written | input that shows it | evidently intended | confidence | as-written member | corrected member |
|---|---|---|---|---|---|---|
| script.js:62-71 | `stop` clears the interval but not the auto-start that `complete` scheduled with `setTimeout` (lines 94, 103). `start` (line 49) overwrites `this.timer` without clearing the interval it held | auto-start on. A session completes, and within the following second the user clicks stop, then start. The auto-start then fires and schedules a second interval. After the next stop the timer is idle, yet one interval is still scheduled and nothing can clear it; each of its ticks decrements the time and, at zero or below, completes again | stopping also cancels the waiting auto-start, so at most one interval is ever scheduled and it is the one `timer` names | medium, not executed | `SessionMachine.GraceWindowLeavesOrphanTicker` | `SessionMachine.StopWithCancel` |

The corrected stop is used by `SessionMachine.Step` and `SessionMachine.Run`. With it,
`SessionMachine.RunKeepsSingleTicker` proves the intended shape for every reachable state, and
`SessionMachine.SegmentCompletesOnce` proves exactly one completion per segment from every state in that
shape. With the stop as written, `SessionMachine.OrphanNeverCleared` shows that the extra interval outlives every later event.

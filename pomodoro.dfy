/**
  The `BlindPomodoro` object: its fields, updated in place by `start`, the
  interval callback, `stop` and `complete`. Each method is specified by the
  transition of `SessionMachine` it carries out on `Model()`.
*/
module Pomodoro {
  import opened Wrappers
  import opened Sessions
  import opened ClockText
  import JsNumber
  import SessionMachine

  class BlindPomodoro {
    var isRunning: bool
    var currentSession: SessionKind
    var completedPomodoros: nat
    var remainingTime: int
    /** The handle of the interval `start` scheduled last; 0 is `null`. */
    var timer: nat
    /** The browser's side: intervals still scheduled, the next handle it will
        hand out, and auto-starts still waiting to fire. */
    var liveIntervals: set<nat>
    var nextHandle: nat
    var pendingAutoStarts: nat

    /** The object's state as a value. */
    function Model(): SessionMachine.State
      reads this
    {
      SessionMachine.State(isRunning, currentSession, completedPomodoros, remainingTime,
                           timer, liveIntervals, nextHandle, pendingAutoStarts)
    }

    /** An idle work session with nothing counted and nothing scheduled. */
    constructor ()
      ensures Model() == SessionMachine.Initial()
      ensures SessionMachine.SingleTicker(Model())
    {
      timer := 0;
      isRunning := false;
      currentSession := Work;
      completedPomodoros := 0;
      remainingTime := 0;
      liveIntervals := {};
      nextHandle := 1;
      pendingAutoStarts := 0;
    }

    /** Schedules a fresh interval (`setInterval`) and returns its handle. */
    method SetInterval() returns (handle: nat)
      modifies this`liveIntervals, this`nextHandle
      ensures handle == old(nextHandle) && nextHandle == old(nextHandle) + 1
      ensures liveIntervals == old(liveIntervals) + {handle}
    {
      handle := nextHandle;
      nextHandle := nextHandle + 1;
      liveIntervals := liveIntervals + {handle};
    }

    /** Loads the configured duration of the current kind, marks the timer
        running and schedules the ticking interval; an earlier interval is
        left scheduled. */
    method Start(s: Settings)
      modifies this
      ensures Model() == SessionMachine.Start(old(Model()), s)
      ensures isRunning && remainingTime == ConfiguredMinutes(s, currentSession) * 60
      ensures currentSession == old(currentSession) && completedPomodoros == old(completedPomodoros)
    {
      if currentSession == Work {
        remainingTime := s.workTime * 60;
      } else if currentSession == Break {
        remainingTime := s.breakTime * 60;
      } else {
        remainingTime := s.longBreakTime * 60;
      }
      isRunning := true;
      timer := SetInterval();
    }

    /** One firing of the interval: counts down one second, writes the
        countdown text during a break, and completes the session once the
        remaining time is zero or below. */
    method Tick(s: Settings) returns (completed: bool, shown: Option<string>)
      requires liveIntervals != {}
      modifies this
      ensures Model() == SessionMachine.Tick(old(Model()), s)
      ensures remainingTime == old(remainingTime) - 1
      ensures completed <==> remainingTime <= 0
      ensures shown == SessionMachine.TickDisplay(old(Model()))
      ensures shown.None? <==> old(currentSession) == Work
      ensures SessionMachine.SingleTicker(old(Model())) && completed ==> liveIntervals == {}
    {
      ghost var before := Model();
      remainingTime := remainingTime - 1;
      ghost var decremented := Model();
      assert remainingTime == before.remaining - 1;
      assert decremented == before.(remaining := before.remaining - 1);
      shown := UpdateTimerDisplay();
      assert shown == SessionMachine.TickDisplay(before);
      completed := remainingTime <= 0;
      assert completed <==> SessionMachine.TickCompletes(before);
      if completed {
        Complete(s);
        assert Model() == SessionMachine.Complete(decremented, s);
      }
    }

    /** `updateTimerDisplay`: the countdown text it writes, nothing during a
        work session. */
    method UpdateTimerDisplay() returns (shown: Option<string>)
      ensures shown.None? <==> currentSession == Work
      ensures shown.Some? ==> shown.value == TimerText(remainingTime)
    {
      if currentSession != Work {
        shown := Some(TimerText(remainingTime));
      } else {
        shown := None;
      }
    }

    /** Cancels the interval `timer` names and goes back to an idle work
        session, keeping the counter. */
    method Stop()
      modifies this
      ensures Model() == SessionMachine.Stop(old(Model()))
      ensures !isRunning && currentSession == Work && timer == 0
      ensures completedPomodoros == old(completedPomodoros)
    {
      if timer != 0 {
        liveIntervals := liveIntervals - {timer};
        timer := 0;
      }
      isRunning := false;
      currentSession := Work;
    }

    /** `Stop`, and cancel a waiting auto-start as well. */
    method StopWithCancel()
      modifies this
      ensures Model() == SessionMachine.StopWithCancel(old(Model()))
      ensures !isRunning && currentSession == Work && timer == 0 && pendingAutoStarts == 0
      ensures completedPomodoros == old(completedPomodoros)
    {
      Stop();
      pendingAutoStarts := 0;
    }

    /** Ends the current session: cancels the interval, moves to the next kind,
        counts a finished work session, then schedules an auto-start or goes
        idle by the flag for the direction taken. */
    method Complete(s: Settings)
      modifies this
      ensures Model() == SessionMachine.Complete(old(Model()), s)
      ensures timer == 0
      ensures completedPomodoros >= old(completedPomodoros)
    {
      if timer != 0 {
        liveIntervals := liveIntervals - {timer};
        timer := 0;
      }
      if currentSession == Work {
        completedPomodoros := completedPomodoros + 1;
        if JsNumber.JsRem(completedPomodoros, s.longBreakFrequency) == Some(0) {
          currentSession := LongBreak;
        } else {
          currentSession := Break;
        }
        if s.autoStartBreak {
          pendingAutoStarts := pendingAutoStarts + 1;
        } else {
          isRunning := false;
        }
      } else {
        currentSession := Work;
        if s.autoStartWork {
          pendingAutoStarts := pendingAutoStarts + 1;
        } else {
          isRunning := false;
        }
      }
    }

    /** A waiting `setTimeout(() => this.start(), 1000)` fires. */
    method FireAutoStart(s: Settings)
      requires pendingAutoStarts > 0
      modifies this
      ensures Model() == SessionMachine.FireAutoStart(old(Model()), s)
    {
      pendingAutoStarts := pendingAutoStarts - 1;
      Start(s);
    }
  }
}

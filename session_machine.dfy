/**
  The state of a `BlindPomodoro` timer as a value, and what each of its
  operations does to it. Besides the object's own fields, the state records
  the part of the browser's timer queue the object can affect: the handles of
  the intervals still scheduled (`live`), the next handle `setInterval` will
  hand out, and how many `setTimeout(() => this.start(), 1000)` calls are
  still waiting (`pending`). Handle 0 stands for `null`: browsers hand out
  positive handles only.
*/
module SessionMachine {
  import opened Wrappers
  import opened Sessions
  import opened ClockText

  datatype State = State(
    isRunning: bool,
    session: SessionKind,
    completed: nat,
    remaining: int,
    timer: nat,
    live: set<nat>,
    nextHandle: nat,
    pending: nat)

  /** The state the constructor builds: idle, in a work session, nothing counted. */
  function Initial(): (st: State)
    ensures SingleTicker(st)
    ensures !st.isRunning && st.session == Work && st.completed == 0 && st.live == {} && st.pending == 0
  {
    State(false, Work, 0, 0, 0, {}, 1, 0)
  }

  /** The browser's handles are positive, and every handle in use was handed
      out before `nextHandle`. */
  predicate HandlesFresh(st: State)
  {
    && 0 < st.nextHandle
    && st.timer < st.nextHandle
    && forall h :: h in st.live ==> 0 < h < st.nextHandle
  }

  /** The state is in the intended shape: at most one interval is scheduled and
      `timer` holds its handle; an interval is scheduled only while running;
      at most one auto-start waits, and only between a completion and the next
      start. */
  predicate SingleTicker(st: State)
  {
    && HandlesFresh(st)
    && st.live == (if st.timer == 0 then {} else {st.timer})
    && (st.timer != 0 ==> st.isRunning)
    && st.pending <= 1
    && (st.pending == 1 ==> st.timer == 0 && st.isRunning)
  }

  /** Cancelling the interval `timer` names, if any: afterwards `timer` is
      null and that interval is no longer scheduled; nothing else changes. */
  function ClearTimer(st: State): (r: State)
    ensures r.timer == 0 && r.live == st.live - {st.timer} + (if st.timer == 0 then st.live else {})
    ensures HandlesFresh(st) ==> r.live == st.live - {st.timer}
    ensures r.(timer := st.timer, live := st.live) == st
  {
    if st.timer != 0 then st.(live := st.live - {st.timer}, timer := 0) else st
  }

  /** `start`: loads the configured minutes of the current kind as seconds,
      marks the timer running and schedules a fresh interval under `timer`.
      An interval scheduled before is not cleared: it stays live. */
  function Start(st: State, s: Settings): (r: State)
    ensures r.isRunning
    ensures r.remaining == ConfiguredMinutes(s, st.session) * 60
    ensures r.session == st.session && r.completed == st.completed && r.pending == st.pending
    ensures r.live == st.live + {r.timer}
    ensures HandlesFresh(st) ==> HandlesFresh(r) && r.timer != 0 && r.timer !in st.live
  {
    st.(isRunning := true,
        remaining := SessionSeconds(s, st.session),
        timer := st.nextHandle,
        live := st.live + {st.nextHandle},
        nextHandle := st.nextHandle + 1)
  }

  /** `stop`: cancels the interval `timer` names and returns to an idle work
      session; the counter and the remaining time are kept, and an auto-start
      already waiting is not cancelled. */
  function Stop(st: State): (r: State)
    ensures !r.isRunning && r.session == Work && r.timer == 0
    ensures r.completed == st.completed && r.remaining == st.remaining && r.pending == st.pending
    ensures HandlesFresh(st) ==> HandlesFresh(r) && r.live == st.live - {st.timer}
  {
    ClearTimer(st).(isRunning := false, session := Work)
  }

  /** `stop` as evidently intended: it also cancels an auto-start that is still
      waiting, so that nothing restarts the timer after the user stopped it. */
  function StopWithCancel(st: State): (r: State)
    ensures !r.isRunning && r.session == Work && r.timer == 0 && r.pending == 0
    ensures r.completed == st.completed && r.remaining == st.remaining
    ensures HandlesFresh(st) ==> HandlesFresh(r) && r.live == st.live - {st.timer}
  {
    Stop(st).(pending := 0)
  }

  /** Either an auto-start is scheduled, or the timer goes idle. */
  function AutoStartOrIdle(st: State, autoStart: bool): State
  {
    if autoStart then st.(pending := st.pending + 1) else st.(isRunning := false)
  }

  /** `complete`: cancels the interval `timer` names, moves to the next kind
      (counting a finished work session) and, by the auto-start flag of the
      direction taken, schedules a start or goes idle. */
  function Complete(st: State, s: Settings): (r: State)
    ensures r.timer == 0 && r.remaining == st.remaining && r.nextHandle == st.nextHandle
    ensures HandlesFresh(st) ==> HandlesFresh(r) && r.live == st.live - {st.timer}
    ensures (r.session, r.completed) == NextSession(st.session, st.completed, s.longBreakFrequency)
    ensures var autoStart := if st.session == Work then s.autoStartBreak else s.autoStartWork;
      if autoStart then r.pending == st.pending + 1 && r.isRunning == st.isRunning
      else r.pending == st.pending && !r.isRunning
  {
    var next := NextSession(st.session, st.completed, s.longBreakFrequency);
    var autoStart := if st.session == Work then s.autoStartBreak else s.autoStartWork;
    AutoStartOrIdle(ClearTimer(st).(session := next.0, completed := next.1), autoStart)
  }

  /** Whether the next tick ends the segment. */
  predicate TickCompletes(st: State)
  {
    st.remaining - 1 <= 0
  }

  /** One firing of the interval: one second less, and `complete` once the
      remaining time is zero or below. A tick that does not complete changes
      nothing else; one that does cancels the interval and counts a finished
      work session. */
  function Tick(st: State, s: Settings): (r: State)
    ensures r.remaining == st.remaining - 1
    ensures !TickCompletes(st) ==> r == st.(remaining := st.remaining - 1)
    ensures TickCompletes(st) ==> r == Complete(st.(remaining := st.remaining - 1), s)
    ensures TickCompletes(st) ==> r.timer == 0
    ensures TickCompletes(st) ==> r.completed == if st.session == Work then st.completed + 1 else st.completed
  {
    var decremented := st.(remaining := st.remaining - 1);
    if decremented.remaining <= 0 then Complete(decremented, s) else decremented
  }

  /** The countdown text a tick writes: during a work session nothing is shown
      (the timer is blind), during a break the new remaining time. */
  function TickDisplay(st: State): (shown: Option<string>)
    ensures shown.None? <==> st.session == Work
    ensures shown.Some? ==> shown.value == TimerText(st.remaining - 1)
  {
    if st.session != Work then Some(TimerText(st.remaining - 1)) else None
  }

  /** During a break, the text a tick shows for a time not below zero reads
      back as the whole minutes and the seconds left of the new remaining
      time. */
  lemma TickDisplayReadsBack(st: State)
    requires st.session != Work && st.remaining >= 1
    ensures TickDisplay(st).Some?
    ensures var left := st.remaining - 1; ReadClock(TickDisplay(st).value) == Some((left / 60, left % 60))
  {
    var left := st.remaining - 1;
    assert TickDisplay(st) == Some(TimerText(left));
    TimerTextRoundTrip(left);
  }

  /** A pending `setTimeout(() => this.start(), 1000)` fires: one start fewer
      waits, and the timer starts the current kind afresh. */
  function FireAutoStart(st: State, s: Settings): (r: State)
    requires st.pending > 0
    ensures r.pending == st.pending - 1
    ensures r.isRunning && r.remaining == ConfiguredMinutes(s, st.session) * 60
    ensures r.session == st.session && r.completed == st.completed
    ensures r.live == st.live + {r.timer}
    ensures HandlesFresh(st) ==> HandlesFresh(r) && r.timer != 0 && r.timer !in st.live
  {
    Start(st.(pending := st.pending - 1), s)
  }

  /** The things that can happen to the timer. Each carries the settings the
      form holds at that moment, since every operation reads them afresh. */
  datatype Event =
    | ClickStart(settings: Settings)
    | ClickStop
    | IntervalFires(settings: Settings)
    | AutoStartFires(settings: Settings)

  /** Which of the two buttons `updateControls` shows. */
  datatype Controls = Controls(startShown: bool, stopShown: bool)

  /** `updateControls`: while running only the stop button is shown, while
      idle only the start button. */
  function UpdateControls(isRunning: bool): (c: Controls)
    ensures c.startShown != c.stopShown
    ensures c.stopShown <==> isRunning
  {
    if isRunning then Controls(false, true) else Controls(true, false)
  }

  /** When each event can happen: a button can be clicked only while
      `updateControls` shows it, so start only while idle and stop only while
      running. The other two clauses define the environment rather than
      derive from the source: an interval fires only while scheduled, an
      auto-start only while pending. */
  function Enabled(st: State, e: Event): (enabled: bool)
    ensures e.ClickStart? ==> (enabled <==> !st.isRunning)
    ensures e.ClickStop? ==> (enabled <==> st.isRunning)
    ensures e.IntervalFires? ==> (enabled <==> st.live != {})
    ensures e.AutoStartFires? ==> (enabled <==> st.pending > 0)
  {
    match e
    case ClickStart(_) => UpdateControls(st.isRunning).startShown
    case ClickStop => UpdateControls(st.isRunning).stopShown
    case IntervalFires(_) => st.live != {}
    case AutoStartFires(_) => st.pending > 0
  }

  /** The effect of an event with `stop` as written. */
  function StepAsWritten(st: State, e: Event): State
    requires Enabled(st, e)
  {
    match e
    case ClickStart(s) => Start(st, s)
    case ClickStop => Stop(st)
    case IntervalFires(s) => Tick(st, s)
    case AutoStartFires(s) => FireAutoStart(st, s)
  }

  /** The effect of an event with the corrected `stop`. */
  function Step(st: State, e: Event): State
    requires Enabled(st, e)
  {
    match e
    case ClickStart(s) => Start(st, s)
    case ClickStop => StopWithCancel(st)
    case IntervalFires(s) => Tick(st, s)
    case AutoStartFires(s) => FireAutoStart(st, s)
  }

  /** A run of events; an event that cannot happen in the current state (a
      click on a hidden button) has no effect. */
  function Run(st: State, events: seq<Event>): State
    decreases |events|
  {
    if events == [] then st
    else Run(if Enabled(st, events[0]) then Step(st, events[0]) else st, events[1..])
  }

  function RunAsWritten(st: State, events: seq<Event>): State
    decreases |events|
  {
    if events == [] then st
    else RunAsWritten(if Enabled(st, events[0]) then StepAsWritten(st, events[0]) else st, events[1..])
  }

  /** Uninterrupted ticking of the scheduled interval, at most `n` times; the
      second component counts the completions. */
  function RunTicks(st: State, s: Settings, n: nat): (State, nat)
    decreases n
  {
    if n == 0 || st.live == {} then (st, 0)
    else
      var rest := RunTicks(Tick(st, s), s, n - 1);
      (rest.0, rest.1 + if TickCompletes(st) then 1 else 0)
  }

  /** With the corrected `stop`, every event keeps the timer in shape. */
  lemma StepKeepsSingleTicker(st: State, e: Event)
    requires SingleTicker(st) && Enabled(st, e)
    ensures SingleTicker(Step(st, e))
  {
    match e
    case IntervalFires(s) =>
      if TickCompletes(st) {
        assert st.timer != 0;
      }
    case _ =>
  }

  /** Every state reached with the corrected `stop` is in shape, whatever the
      events and whatever settings they bring. */
  lemma {:induction false} RunKeepsSingleTicker(st: State, events: seq<Event>)
    requires SingleTicker(st)
    ensures SingleTicker(Run(st, events))
    decreases |events|
  {
    if events != [] {
      var next := if Enabled(st, events[0]) then Step(st, events[0]) else st;
      if Enabled(st, events[0]) {
        StepKeepsSingleTicker(st, events[0]);
      }
      RunKeepsSingleTicker(next, events[1..]);
    }
  }

  /** A completion ends the segment: once a tick completes, no interval is
      left to fire, and only a start schedules one again. */
  lemma CompletionEndsSegment(st: State, s: Settings)
    requires SingleTicker(st) && st.live != {} && TickCompletes(st)
    ensures Tick(st, s).live == {}
    ensures forall e: Event :: e.IntervalFires? ==> !Enabled(Tick(st, s), e)
  {
  }

  /** Only the two ways of starting schedule an interval; every other event
      can only cancel one. */
  lemma OnlyStartSchedules(st: State, e: Event)
    requires HandlesFresh(st) && Enabled(st, e)
    requires !e.ClickStart? && !e.AutoStartFires?
    ensures Step(st, e).live <= st.live && StepAsWritten(st, e).live <= st.live
  {
  }

  /** Over any run of events the counter of finished work sessions never
      decreases, with the corrected `stop`. */
  lemma {:induction false} CounterMonotone(st: State, events: seq<Event>)
    ensures Run(st, events).completed >= st.completed
    decreases |events|
  {
    if events != [] {
      var next := if Enabled(st, events[0]) then Step(st, events[0]) else st;
      CounterMonotone(next, events[1..]);
    }
  }

  /** The same with `stop` as written. */
  lemma {:induction false} CounterMonotoneAsWritten(st: State, events: seq<Event>)
    ensures RunAsWritten(st, events).completed >= st.completed
    decreases |events|
  {
    if events != [] {
      var next := if Enabled(st, events[0]) then StepAsWritten(st, events[0]) else st;
      CounterMonotoneAsWritten(next, events[1..]);
    }
  }

  /** Exactly one completion per started segment: left alone, a running
      segment with R seconds completes on tick max(R, 1) and never again,
      however many more ticks are asked for. */
  lemma {:induction false} SegmentCompletesOnce(st: State, s: Settings, n: nat)
    requires SingleTicker(st) && st.timer != 0
    ensures RunTicks(st, s, n).1 == if n >= 1 && n >= st.remaining then 1 else 0
    decreases n
  {
    if n > 0 {
      var next := Tick(st, s);
      if TickCompletes(st) {
        assert next.live == {};
        assert RunTicks(next, s, n - 1).1 == 0;
      } else {
        assert SingleTicker(next) && next.timer != 0;
        SegmentCompletesOnce(next, s, n - 1);
      }
    }
  }

  /** As written, a stop in the second between a completion and its
      auto-start does not prevent the auto-start. If the user then starts
      again, the auto-start schedules a second interval over the first and
      `timer` keeps only the newer handle: after the next stop the timer is
      idle while an interval is still scheduled. */
  lemma GraceWindowLeavesOrphanTicker(st: State, s: Settings)
    requires SingleTicker(st) && st.pending == 1
    ensures var a := StepAsWritten(st, ClickStop);
      Enabled(a, ClickStart(s)) &&
      var b := StepAsWritten(a, ClickStart(s));
      Enabled(b, AutoStartFires(s)) && b.live == {b.timer} &&
      var c := StepAsWritten(b, AutoStartFires(s));
      |c.live| == 2 && c.live == {b.timer, c.timer} && Enabled(c, ClickStop) &&
      var d := StepAsWritten(c, ClickStop);
      !d.isRunning && d.timer == 0 && d.live == {b.timer}
    ensures !Enabled(Step(st, ClickStop), AutoStartFires(s))
  {
    var a := StepAsWritten(st, ClickStop);
    var b := StepAsWritten(a, ClickStart(s));
    assert b.live == {b.timer};
    var c := StepAsWritten(b, AutoStartFires(s));
    assert b.timer != c.timer;
  }

  /** As written, an interval whose handle `timer` no longer holds can never
      be cancelled: it stays scheduled whatever events follow. */
  lemma {:induction false} OrphanNeverCleared(st: State, events: seq<Event>, h: nat)
    requires HandlesFresh(st) && h in st.live && h != st.timer
    ensures h in RunAsWritten(st, events).live
    decreases |events|
  {
    if events != [] {
      var next := if Enabled(st, events[0]) then StepAsWritten(st, events[0]) else st;
      assert HandlesFresh(next) && h in next.live && h != next.timer;
      OrphanNeverCleared(next, events[1..], h);
    }
  }
}

/**
  The kinds of session the timer cycles through, the settings record it reads,
  and the rule that picks the kind that follows a completed session.
*/
module Sessions {
  import opened Wrappers
  import opened JsNumber

  /** The value of `currentSession`: 'work', 'break' or 'longBreak'. */
  datatype SessionKind = Work | Break | LongBreak

  /** The record `getSettings` reads from the form, taken as already-parsed
      integers: minutes per kind, how many work sessions make a cycle, and the
      two auto-start check boxes. */
  datatype Settings = Settings(
    workTime: int,
    breakTime: int,
    longBreakTime: int,
    longBreakFrequency: int,
    autoStartWork: bool,
    autoStartBreak: bool)

  /** The configured minutes for a session of the given kind. */
  function ConfiguredMinutes(s: Settings, kind: SessionKind): int
  {
    match kind
    case Work => s.workTime
    case Break => s.breakTime
    case LongBreak => s.longBreakTime
  }

  /** The seconds `start` loads for a session of the given kind: a whole
      number of minutes, as many as configured for that kind. */
  function SessionSeconds(s: Settings, kind: SessionKind): (secs: int)
    ensures secs % 60 == 0 && secs / 60 == ConfiguredMinutes(s, kind)
  {
    var minutes := ConfiguredMinutes(s, kind);
    DivisionUnique(minutes * 60, 60, minutes, 0);
    minutes * 60
  }

  /** The kind entered after the `count`-th work session completes: a long
      break exactly when the frequency divides the count. A frequency of zero
      makes JavaScript's remainder NaN, which never equals 0, so it always gives
      a short break. */
  function NextAfterWork(count: int, frequency: int): (next: SessionKind)
    ensures next != Work
    ensures next == LongBreak <==> frequency != 0 && count % frequency == 0
    ensures frequency == 0 ==> next == Break
  {
    if JsRem(count, frequency) == Some(0) then LongBreak else Break
  }

  /** What `complete` does to the session kind and to the completed-work
      counter: a work session is followed by a break of some kind and adds one
      to the counter; any break is followed by work and leaves the counter. */
  function NextSession(kind: SessionKind, count: nat, frequency: int): (next: (SessionKind, nat))
    ensures next.0 == Work <==> kind != Work
    ensures next.1 == if kind == Work then count + 1 else count
    ensures kind == Work ==> (next.0 == LongBreak <==> frequency != 0 && (count + 1) % frequency == 0)
  {
    if kind == Work then
      var completed := count + 1;
      (NextAfterWork(completed, frequency), completed)
    else
      (Work, count)
  }

  /** The state after `n` completions in a row. */
  function AfterCompletions(kind: SessionKind, count: nat, frequency: int, n: nat): (SessionKind, nat)
    decreases n
  {
    if n == 0 then (kind, count)
    else
      var next := NextSession(kind, count, frequency);
      AfterCompletions(next.0, next.1, frequency, n - 1)
  }

  /** How many of the completions 1..n of work sessions lead to a long break. */
  function CountLongBreaks(n: nat, frequency: int): nat
  {
    if n == 0 then 0
    else CountLongBreaks(n - 1, frequency) + (if NextAfterWork(n, frequency) == LongBreak then 1 else 0)
  }

  /** Work and break alternate: from a work session, every two completions
      return to work and add exactly one to the counter. */
  lemma {:induction false} WorkBreakCycle(count: nat, frequency: int, n: nat)
    ensures AfterCompletions(Work, count, frequency, 2 * n) == (Work, count + n)
    decreases n
  {
    if n > 0 {
      var next := NextSession(Work, count, frequency);
      assert AfterCompletions(Work, count, frequency, 2 * n)
          == AfterCompletions(next.0, next.1, frequency, 2 * n - 1);
      assert AfterCompletions(next.0, next.1, frequency, 2 * n - 1)
          == AfterCompletions(Work, count + 1, frequency, 2 * (n - 1));
      WorkBreakCycle(count + 1, frequency, n - 1);
    }
  }

  /** The counter never decreases, and grows by at most one per completion. */
  lemma {:induction false} CounterNeverDecreases(kind: SessionKind, count: nat, frequency: int, n: nat)
    ensures count <= AfterCompletions(kind, count, frequency, n).1 <= count + n
    decreases n
  {
    if n > 0 {
      var next := NextSession(kind, count, frequency);
      CounterNeverDecreases(next.0, next.1, frequency, n - 1);
    }
  }

  /** With a non-zero frequency f, exactly n / |f| of the first n work
      completions lead to a long break: one in every |f|. (With frequency 0
      there are none, by `NextAfterWork`.) */
  lemma {:induction false} LongBreaksAmongFirst(n: nat, frequency: int)
    requires frequency != 0
    ensures CountLongBreaks(n, frequency) == n / Abs(frequency)
  {
    if n > 0 {
      LongBreaksAmongFirst(n - 1, frequency);
      AbsDividesIfDivides(n, frequency);
      DividesIfAbsDivides(n, frequency);
      QuotientStep(n, Abs(frequency));
    }
  }

  /** The long-break rule repeats with period f: completion n + f goes where
      completion n went. With f = 4, completions 1 to 3 lead to a break,
      completion 4 to a long break, completion 5 to a break again. This holds
      for any frequency, zero and negative ones included. */
  lemma LongBreakRulePeriodic(n: int, frequency: int)
    ensures NextAfterWork(n + frequency, frequency) == NextAfterWork(n, frequency)
  {
    if frequency != 0 {
      DivisionUnique(n + frequency, frequency, n / frequency + 1, n % frequency);
    }
  }

  // Going from n - 1 to n, the quotient by f steps up exactly when f divides n.
  lemma QuotientStep(n: int, f: int)
    requires n >= 1 && f >= 1
    ensures n / f == (n - 1) / f + (if n % f == 0 then 1 else 0)
  {
    var q, r := (n - 1) / f, (n - 1) % f;
    assert n - 1 == f * q + r;
    if r == f - 1 {
      DivisionUnique(n, f, q + 1, 0);
    } else {
      DivisionUnique(n, f, q, r + 1);
    }
  }
}

/**
  The countdown text shown during breaks: the remaining seconds split into
  minutes and seconds, each turned into a decimal string and left-padded with
  '0' to two characters, joined by ':'.
*/
module ClockText {
  import opened Wrappers
  import opened JsNumber

  predicate IsDigit(c: char)
  {
    '0' <= c <= '9'
  }

  predicate AllDigits(s: string)
  {
    forall i :: 0 <= i < |s| ==> IsDigit(s[i])
  }

  function DigitChar(d: nat): (c: char)
    requires d < 10
    ensures IsDigit(c) && c as int - '0' as int == d
  {
    ('0' as int + d) as char
  }

  /** The decimal text of a non-negative whole number, as `toString` gives it:
      at least one digit and no leading zero; one digit below 10, at most two
      below 100. */
  function Digits(n: nat): (s: string)
    ensures 1 <= |s| && AllDigits(s)
    ensures s[0] == '0' ==> n == 0
    ensures n < 10 <==> |s| == 1
    ensures n < 100 ==> |s| <= 2
    decreases n
  {
    if n < 10 then [DigitChar(n)] else Digits(n / 10) + [DigitChar(n % 10)]
  }

  /** `toString` of any whole number: a digit string denoting the number, with
      a minus sign before the digits of a negative one. */
  function NumberText(n: int): (s: string)
    ensures n >= 0 ==> AllDigits(s) && ValueOf(s) == n
    ensures n < 0 ==> |s| >= 2 && s[0] == '-' && AllDigits(s[1..]) && ValueOf(s[1..]) == -n
  {
    if n < 0 then
      DigitsRoundTrip(-n);
      assert ("-" + Digits(-n))[1..] == Digits(-n);
      "-" + Digits(-n)
    else
      DigitsRoundTrip(n);
      Digits(n)
  }

  /** `padStart(2, '0')`: the text itself when it already has two characters,
      otherwise the text left-filled with '0' to length two. */
  function PadStart2(s: string): (r: string)
    ensures |r| == if |s| < 2 then 2 else |s|
    ensures r[|r| - |s|..] == s
    ensures forall i :: 0 <= i < |r| - |s| ==> r[i] == '0'
  {
    if |s| < 2 then seq(2 - |s|, _ => '0') + s else s
  }

  /** The two numbers `updateTimerDisplay` shows: `Math.floor(t / 60)` and
      `t % 60`. The minutes are the floor of t / 60 and the seconds differ
      from t by a multiple of 60 with the sign of t. For a non-negative time
      they are whole minutes and the seconds left over, which together give
      back the time; a negative time gives a negative minute count and a
      remainder in -59..0 (for -1 that is -1 and -1). */
  function SplitClock(remaining: int): (parts: (int, int))
    ensures parts.0 * 60 <= remaining < parts.0 * 60 + 60
    ensures (remaining - parts.1) % 60 == 0
    ensures remaining >= 0 ==> parts.0 >= 0 && 0 <= parts.1 < 60 && parts.0 * 60 + parts.1 == remaining
    ensures remaining < 0 ==> parts.0 < 0 && -60 < parts.1 <= 0
  {
    (FloorQuotient(remaining, 60), JsRem(remaining, 60).value)
  }

  /** The text `updateTimerDisplay` writes for a remaining time. For a
      non-negative time it is a digit string, ':', and exactly two digits; for
      a negative one it starts with a minus sign. */
  function TimerText(remaining: int): (t: string)
    ensures remaining >= 0 ==> ClockShaped(t)
    ensures remaining < 0 ==> |t| > 3 && t[0] == '-'
  {
    var parts := SplitClock(remaining);
    ClockFace(parts.0, parts.1)
  }

  /** Minutes and seconds, each padded to two characters, joined by ':'. */
  function ClockFace(minutes: int, seconds: int): (t: string)
    ensures 0 <= minutes && 0 <= seconds < 60 ==> ClockShaped(t)
    ensures minutes < 0 ==> |t| > 3 && t[0] == '-'
  {
    var m, s := PadStart2(NumberText(minutes)), PadStart2(NumberText(seconds));
    if 0 <= minutes && 0 <= seconds < 60 then
      assert NumberText(seconds) == Digits(seconds);
      PaddingKeepsValue(NumberText(minutes));
      PaddingKeepsValue(NumberText(seconds));
      assert |m| >= 2 && |s| == 2;
      JoinedDigits(m, s);
      m + ":" + s
    else if minutes < 0 then
      NegativeMinutesText(minutes);
      var t := m + ":" + s;
      assert t[0] == m[0];
      t
    else
      m + ":" + s
  }

  // A negative minute count is shown with its sign, unpadded.
  lemma NegativeMinutesText(m: int)
    requires m < 0
    ensures |PadStart2(NumberText(m))| >= 2 && PadStart2(NumberText(m))[0] == '-'
  {
    var sign := NumberText(m);
    assert PadStart2(sign) == sign;
  }

  // The two parts of a text joined by ':' with a two-character second part.
  lemma JoinedParts(minutes: string, seconds: string)
    requires |seconds| == 2
    ensures var t := minutes + ":" + seconds;
      t[|t| - 3] == ':' && t[..|t| - 3] == minutes && t[|t| - 2..] == seconds
  {
  }

  // Two padded digit strings joined by ':' have the shape of a clock text.
  lemma JoinedDigits(minutes: string, seconds: string)
    requires |minutes| >= 2 && |seconds| == 2 && AllDigits(minutes) && AllDigits(seconds)
    ensures ClockShaped(minutes + ":" + seconds)
  {
    JoinedParts(minutes, seconds);
  }

  /** The number a string of decimal digits denotes; leading zeros allowed. */
  function ValueOf(s: string): nat
    requires AllDigits(s)
    decreases |s|
  {
    if s == [] then 0 else ValueOf(s[..|s| - 1]) * 10 + (s[|s| - 1] as int - '0' as int)
  }

  /** The shape of a clock text: digits, ':', two digits. */
  predicate ClockShaped(t: string)
  {
    |t| >= 5 && t[|t| - 3] == ':' && AllDigits(t[..|t| - 3]) && AllDigits(t[|t| - 2..])
  }

  /** Reads a clock text back: digits, ':', two digits. */
  function ReadClock(t: string): Option<(nat, nat)>
  {
    if ClockShaped(t)
    then Some((ValueOf(t[..|t| - 3]), ValueOf(t[|t| - 2..])))
    else None
  }

  /** Reading the decimal text of a number gives the number back. */
  lemma {:induction false} DigitsRoundTrip(n: nat)
    ensures ValueOf(Digits(n)) == n
    decreases n
  {
    if n >= 10 {
      DigitsRoundTrip(n / 10);
      var s := Digits(n);
      assert s[..|s| - 1] == Digits(n / 10);
    }
  }

  /** A leading '0' does not change the value of a digit string. */
  lemma {:induction false} LeadingZeroKeepsValue(s: string)
    requires AllDigits(s)
    ensures AllDigits(['0'] + s) && ValueOf(['0'] + s) == ValueOf(s)
    decreases |s|
  {
    if s != [] {
      var t := ['0'] + s;
      assert t[..|t| - 1] == ['0'] + s[..|s| - 1];
      LeadingZeroKeepsValue(s[..|s| - 1]);
    }
  }

  /** Padding a digit string keeps it a digit string of the same value. */
  lemma PaddingKeepsValue(s: string)
    requires AllDigits(s)
    ensures AllDigits(PadStart2(s)) && ValueOf(PadStart2(s)) == ValueOf(s)
  {
    if |s| == 1 {
      assert PadStart2(s) == ['0'] + s;
      LeadingZeroKeepsValue(s);
    } else if |s| == 0 {
      assert PadStart2(s) == ['0'] + ['0'];
      LeadingZeroKeepsValue(['0']);
    }
  }

  /** The clock face of in-range minutes and seconds reads back as them. */
  lemma ClockFaceReadsBack(minutes: nat, seconds: nat)
    requires seconds < 60
    ensures ReadClock(ClockFace(minutes, seconds)) == Some((minutes, seconds))
  {
    var m, sec := NumberText(minutes), NumberText(seconds);
    PaddingKeepsValue(m);
    PaddingKeepsValue(sec);
    assert sec == Digits(seconds);
    JoinedParts(PadStart2(m), PadStart2(sec));
  }

  /** For any non-negative remaining time the text shown has the form
      minutes ':' seconds, with the seconds part exactly two digits and below
      60, and reading it back gives the remaining time: its whole minutes and
      the seconds left over. */
  lemma TimerTextRoundTrip(remaining: int)
    requires remaining >= 0
    ensures ReadClock(TimerText(remaining)) == Some((remaining / 60, remaining % 60))
  {
    var parts := SplitClock(remaining);
    ClockFaceReadsBack(parts.0, parts.1);
    DivisionUnique(remaining, 60, parts.0, parts.1);
  }

  // Whole minutes split into those minutes and no seconds.
  lemma SplitWholeMinutes(m: nat)
    ensures SplitClock(m * 60) == (m, 0)
  {
    DivisionUnique(m * 60, 60, m, 0);
  }

  /** A session of m minutes first shows its minutes over ":00". */
  lemma StartShowsWholeMinutes(m: nat)
    ensures TimerText(m * 60) == PadStart2(Digits(m)) + ":" + "00"
  {
    SplitWholeMinutes(m);
    WholeMinutesFace(m);
  }

  // The clock face of whole minutes.
  lemma WholeMinutesFace(m: nat)
    ensures ClockFace(m, 0) == PadStart2(Digits(m)) + ":" + "00"
  {
    var minutes, seconds := PadStart2(NumberText(m)), PadStart2(NumberText(0));
    assert ClockFace(m, 0) == minutes + ":" + seconds;
    assert minutes == PadStart2(Digits(m)) by {
      assert NumberText(m) == Digits(m);
    }
    ZeroSecondsFace();
  }

  // No seconds are shown as "00".
  lemma ZeroSecondsFace()
    ensures PadStart2(NumberText(0)) == "00"
  {
    assert NumberText(0) == "0";
  }
}

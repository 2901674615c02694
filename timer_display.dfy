/**
 * The countdown text of the timer view: `formatTime` renders a number of
 * seconds as zero-padded minutes and seconds, "mm:ss". Minutes are not
 * wrapped into hours, so 100 minutes or more give a longer minutes field.
 */
module TimerDisplay {
  import opened Options
  import opened Decimal

  function FormatTime(seconds: nat): (r: string)
    ensures |r| >= 5 && r[|r| - 3] == ':'
    ensures seconds < 6000 ==> |r| == 5 && r[2] == ':'
  {
    var m: nat, s: nat := seconds / 60, seconds % 60;
    assert s < 60 && (seconds < 6000 ==> m < 100);
    Clock(m, s)
  }

  /** Minutes and seconds fields joined by ':'. */
  function Clock(m: nat, s: nat): (r: string)
    requires s < 60
    ensures |r| >= 5 && r[|r| - 3] == ':'
    ensures m < 100 ==> |r| == 5 && r[2] == ':'
  {
    TwoDigits(m) + ":" + TwoDigits(s)
  }

  /** A field left-padded with '0' to at least two characters. */
  function TwoDigits(n: nat): (f: string)
    ensures |f| >= 2 && AllDigits(f)
    ensures n < 100 ==> |f| == 2
  {
    PadStart(NatToString(n), 2, '0')
  }


  /** The minutes field: everything before the final ':' and two seconds digits. */
  function MinutesField(r: string): string
    requires |r| >= 3
  {
    r[..|r| - 3]
  }

  /** The seconds field: the last two characters. */
  function SecondsField(r: string): string
    requires |r| >= 3
  {
    r[|r| - 2..]
  }

  /** Reads "mm:ss" text back into seconds; None for text `FormatTime` cannot produce. */
  function ParseClock(r: string): Option<nat> {
    if |r| >= 5 && r[|r| - 3] == ':' && AllDigits(MinutesField(r)) && AllDigits(SecondsField(r))
       && ParseDecimal(SecondsField(r)) < 60
    then Some(60 * ParseDecimal(MinutesField(r)) + ParseDecimal(SecondsField(r)))
    else None
  }

  /** Each field reads back as its number, the minutes field is at least two
      characters wide and is never cut short, the seconds field is exactly two. */
  lemma {:induction false} FieldsReadBack(m: nat, s: nat)
    requires s < 60
    ensures var r := Clock(m, s);
      AllDigits(MinutesField(r)) && AllDigits(SecondsField(r))
      && ParseDecimal(MinutesField(r)) == m
      && ParseDecimal(SecondsField(r)) == s
      && |MinutesField(r)| == (if |NatToString(m)| < 2 then 2 else |NatToString(m)|)
      && |SecondsField(r)| == 2
  {
    var mm := TwoDigits(m);
    var ss := TwoDigits(s);
    var r := Clock(m, s);
    assert MinutesField(r) == mm;
    assert SecondsField(r) == ss;
    PadNatToString(m, 2);
    PadNatToString(s, 2);
  }

  /** The minutes field of `FormatTime(seconds)` reads back as `seconds div 60`, the
      seconds field as `seconds mod 60` (always below 60). */
  lemma FormatTimeFields(seconds: nat)
    ensures var r := FormatTime(seconds);
      AllDigits(MinutesField(r)) && AllDigits(SecondsField(r))
      && ParseDecimal(MinutesField(r)) == seconds / 60
      && ParseDecimal(SecondsField(r)) == seconds % 60 < 60
      && |SecondsField(r)| == 2
  {
    FieldsReadBack(seconds / 60, seconds % 60);
  }

  /** Reading the text back recovers the number of seconds: 60·m + s = seconds. */
  lemma FormatTimeRoundTrip(seconds: nat)
    ensures ParseClock(FormatTime(seconds)) == Some(seconds)
  {
    ClockRoundTrip(seconds / 60, seconds % 60);
  }

  lemma ClockRoundTrip(m: nat, s: nat)
    requires s < 60
    ensures ParseClock(Clock(m, s)) == Some(60 * m + s)
  {
    var r := Clock(m, s);
    FieldsReadBack(m, s);
    var mm, ss := MinutesField(r), SecondsField(r);
    assert ParseClock(r) == Some(60 * ParseDecimal(mm) + ParseDecimal(ss));
  }

  /** Two different second counts never render the same. */
  lemma FormatTimeInjective(a: nat, b: nat)
    requires FormatTime(a) == FormatTime(b)
    ensures a == b
  {
    FormatTimeRoundTrip(a);
    FormatTimeRoundTrip(b);
  }

  // The concrete examples below take their value as a parameter pinned by a
  // precondition rather than writing the literal in the ensures: with literal
  // arguments the verifier unfolds the recursive digit functions eagerly and
  // the proofs become too costly for the solver.

  lemma TwoDigitsZero(n: nat)
    requires n == 0
    ensures TwoDigits(n) == "00"
  {
    assert NatToString(n) == "0";
    assert Repeat('0', 1) == "0";
  }

  lemma TwoDigitsThirty(n: nat)
    requires n == 30
    ensures TwoDigits(n) == "30"
  {
    assert NatToString(n / 10) == "3";
    assert NatToString(n) == "30";
  }

  lemma TwoDigitsHundred(n: nat)
    requires n == 100
    ensures TwoDigits(n) == "100"
  {
    assert NatToString(n / 100) == "1";
    assert NatToString(n / 10) == "10";
    assert NatToString(n) == "100";
  }

  /** The quotient and remainder by 60 are the only minutes/seconds split. */
  lemma DivMod60(seconds: nat, m: nat, s: nat)
    requires s < 60 && seconds == 60 * m + s
    ensures seconds / 60 == m && seconds % 60 == s
  {
  }

  /** A half-hour countdown starts at "30:00". */
  lemma FormatTimeHalfHour(seconds: nat)
    requires seconds == 1800
    ensures FormatTime(seconds) == "30:00"
  {
    DivMod60(seconds, 30, 0);
    TwoDigitsThirty(seconds / 60);
    TwoDigitsZero(seconds % 60);
  }

  /** A finished countdown shows "00:00". */
  lemma FormatTimeZero(seconds: nat)
    requires seconds == 0
    ensures FormatTime(seconds) == "00:00"
  {
    DivMod60(seconds, 0, 0);
    TwoDigitsZero(seconds / 60);
  }

  /** 100 minutes keep all three minute digits: padding never truncates. */
  lemma FormatTimeHundredMinutes(seconds: nat)
    requires seconds == 6000
    ensures FormatTime(seconds) == "100:00"
  {
    DivMod60(seconds, 100, 0);
    TwoDigitsHundred(seconds / 60);
    TwoDigitsZero(seconds % 60);
  }
}

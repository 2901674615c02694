/**
 * The duration label of a task row: `formatDuration` renders whole minutes as
 * "Nm" below an hour, "Xh" on the hour and "Xh Ym" otherwise.
 */
module TaskList {
  import opened Options
  import opened Decimal

  function FormatDuration(minutes: nat): (r: string)
    ensures |r| >= 2
    ensures r[|r| - 1] == 'h' <==> minutes >= 60 && minutes % 60 == 0
  {
    if minutes >= 60 then
      var h: nat := minutes / 60;
      var m: nat := minutes % 60;
      if m > 0 then HoursMinutes(h, m) else NatToString(h) + "h"
    else
      NatToString(minutes) + "m"
  }

  /** "Xh Ym" */
  function HoursMinutes(h: nat, m: nat): (r: string)
    ensures |r| >= 2 && r[|r| - 1] == 'm'
  {
    NatToString(h) + "h " + NatToString(m) + "m"
  }

  /** Index of the first `c` in `s`, or |s| when there is none. */
  function FindChar(s: string, c: char): (k: nat)
    ensures k <= |s|
    ensures forall i :: 0 <= i < k ==> s[i] != c
    ensures k < |s| ==> s[k] == c
  {
    if s == [] then 0 else if s[0] == c then 0 else 1 + FindChar(s[1..], c)
  }

  /** Reads a duration label back into minutes; None for text `FormatDuration`
      cannot produce. */
  function ParseDuration(r: string): Option<nat> {
    if |r| < 2 then None
    else
      var body := r[..|r| - 1];
      if r[|r| - 1] == 'h' then
        if AllDigits(body) then Some(60 * ParseDecimal(body)) else None
      else if r[|r| - 1] == 'm' then
        var k := FindChar(body, 'h');
        if k == |body| then
          if AllDigits(body) then Some(ParseDecimal(body)) else None
        else if 0 < k && k + 2 < |body| && body[k + 1] == ' '
                && AllDigits(body[..k]) && AllDigits(body[k + 2..])
        then Some(60 * ParseDecimal(body[..k]) + ParseDecimal(body[k + 2..]))
        else None
      else None
  }

  lemma {:induction false} FindCharAfter(a: string, c: char, b: string)
    requires forall i :: 0 <= i < |a| ==> a[i] != c
    ensures FindChar(a + [c] + b, c) == |a|
  {
    var s := a + [c] + b;
    assert forall i :: 0 <= i < |a| ==> s[i] == a[i];
    assert s[|a|] == c;
  }

  lemma HoursMinutesReadBack(h: nat, m: nat)
    requires 0 < m
    ensures ParseDuration(HoursMinutes(h, m)) == Some(60 * h + m)
  {
    var hs, ms := NatToString(h), NatToString(m);
    var r := HoursMinutes(h, m);
    var body := r[..|r| - 1];
    assert body == hs + ['h'] + (" " + ms);
    FindCharAfter(hs, 'h', " " + ms);
    var k := FindChar(body, 'h');
    assert body[..k] == hs && body[k + 2..] == ms;
    ParseNatToString(h);
    ParseNatToString(m);
  }

  /** Reading the label back recovers the number of minutes (for minutes ≥ 60,
      60·h + m rebuilds the input). */
  lemma FormatDurationRoundTrip(minutes: nat)
    ensures ParseDuration(FormatDuration(minutes)) == Some(minutes)
  {
    var r := FormatDuration(minutes);
    if minutes >= 60 {
      var h: nat, m: nat := minutes / 60, minutes % 60;
      assert minutes == 60 * h + m;
      if m > 0 {
        HoursMinutesReadBack(h, m);
      } else {
        assert r[..|r| - 1] == NatToString(h);
        ParseNatToString(h);
      }
    } else {
      var body := r[..|r| - 1];
      assert body == NatToString(minutes);
      ParseNatToString(minutes);
      assert FindChar(body, 'h') == |body|;
    }
  }

  /** Different durations never share a label. */
  lemma FormatDurationInjective(a: nat, b: nat)
    requires FormatDuration(a) == FormatDuration(b)
    ensures a == b
  {
    FormatDurationRoundTrip(a);
    FormatDurationRoundTrip(b);
  }

  /** The shape of the label: a bare "Nm" below an hour, and otherwise an hours
      field with a minutes field only when the remainder is non-zero, so no
      label ever ends in " 0m". */
  lemma FormatDurationShape(minutes: nat)
    ensures var r := FormatDuration(minutes);
      && (minutes < 60 ==> r == NatToString(minutes) + "m")
      && (minutes >= 60 && minutes % 60 == 0 ==> r == NatToString(minutes / 60) + "h")
      && (minutes >= 60 && minutes % 60 != 0 ==>
            r == NatToString(minutes / 60) + "h " + NatToString(minutes % 60) + "m" && 0 < minutes % 60 < 60)
      && !(|r| >= 3 && r[|r| - 3..] == " 0m")
  {
    var r := FormatDuration(minutes);
    if minutes >= 60 && minutes % 60 != 0 {
      var ms := NatToString(minutes % 60);
      assert r[|r| - 1 - |ms|..|r| - 1] == ms;
      if |ms| == 1 {
        ParseNatToString(minutes % 60);
        assert r[|r| - 2] == ms[0] != '0';
      } else {
        assert r[|r| - 3] == ms[|ms| - 2] != ' ';
      }
    } else if minutes < 60 {
      var ns := NatToString(minutes);
      assert r[..|r| - 1] == ns;
      assert |r| >= 3 ==> r[|r| - 3] == ns[|ns| - 2] != ' ';
    }
  }
}

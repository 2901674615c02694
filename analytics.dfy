/**
 * The analytics panel: the completed tasks, three KPIs (time accuracy, total
 * focused minutes, average delta), the planned/overtime bars of the last seven
 * days, and `formatHours`. These read two fields the task record of
 * `UseTasks` does not declare, `actualMinutes` and `completedDate`, so a
 * logged task pairs a task with those two optional fields.
 */
module Analytics {
  import opened Options
  import opened Decimal
  import opened UseTasks
  import TaskList

  datatype LoggedTask = LoggedTask(task: Task, actualMinutes: Option<int>, completedDate: Option<string>)

  /** `t.actualMinutes ?? 0` */
  function Actual(t: LoggedTask): int {
    t.actualMinutes.GetOr(0)
  }

  /** The filter of `completed`: status completed and an actual time recorded. */
  predicate IsCompleted(t: LoggedTask) {
    t.task.status == Completed && t.actualMinutes.Some?
  }

  /** Finished no later than planned. */
  predicate OnTime(t: LoggedTask) {
    Actual(t) <= t.task.durationMinutes
  }

  /** `completed`: exactly the completed tasks with an actual time, in order. */
  function CompletedTasks(ts: seq<LoggedTask>): (r: seq<LoggedTask>)
    ensures |r| <= |ts|
    ensures forall t :: t in r <==> t in ts && IsCompleted(t)
  {
    if ts == [] then []
    else (if IsCompleted(ts[0]) then [ts[0]] else []) + CompletedTasks(ts[1..])
  }

  function CountOnTime(cs: seq<LoggedTask>): (n: nat)
    ensures n <= |cs|
  {
    if cs == [] then 0 else (if OnTime(cs[0]) then 1 else 0) + CountOnTime(cs[1..])
  }

  function SumActual(cs: seq<LoggedTask>): (s: int)
    ensures (forall t :: t in cs ==> Actual(t) >= 0) ==> s >= 0
  {
    if cs == [] then 0 else Actual(cs[0]) + SumActual(cs[1..])
  }

  function SumPlanned(cs: seq<LoggedTask>): (s: nat) {
    if cs == [] then 0 else cs[0].task.durationMinutes + SumPlanned(cs[1..])
  }

  function Delta(t: LoggedTask): int {
    Actual(t) - t.task.durationMinutes
  }

  function SumDelta(cs: seq<LoggedTask>): int {
    if cs == [] then 0 else Delta(cs[0]) + SumDelta(cs[1..])
  }

  /** `Math.round(num / den)` on the exact quotient: the nearest integer, with
      halves going up (towards +∞, also for negative values). */
  function JsRound(num: int, den: int): (r: int)
    requires den > 0
    ensures 2 * den * r - den <= 2 * num < 2 * den * r + den
  {
    (2 * num + den) / (2 * den)
  }

  /** Halves go up also below zero: `Math.round(-2.5)` is -2, not -3. */
  lemma JsRoundNegativeHalf()
    ensures JsRound(-5, 2) == -2
  {
  }

  /** Percentage of completed tasks finished on time, rounded; 0 when none. */
  function TimeAccuracy(ts: seq<LoggedTask>): (r: int)
    ensures 0 <= r <= 100
    ensures |CompletedTasks(ts)| == 0 ==> r == 0
    ensures |CompletedTasks(ts)| > 0 ==>
      var n := |CompletedTasks(ts)|;
      2 * n * r - n <= 200 * CountOnTime(CompletedTasks(ts)) < 2 * n * r + n
  {
    var completed := CompletedTasks(ts);
    if |completed| == 0 then 0
    else
      var onTime := CountOnTime(completed);
      var r := JsRound(100 * onTime, |completed|);
      AccuracyBounds(onTime, |completed|, r);
      r
  }

  lemma AccuracyBounds(onTime: nat, n: nat, r: int)
    requires 0 < n && onTime <= n
    requires 2 * n * r - n <= 200 * onTime < 2 * n * r + n
    ensures 0 <= r <= 100
  {
    assert n * 0 < n * (2 * r + 1);
    CancelLt(n, 0, 2 * r + 1);
    assert n * (2 * r - 1) <= n * 200;
    CancelLe(n, 2 * r - 1, 200);
  }

  lemma CancelLe(n: int, x: int, y: int)
    requires n > 0 && n * x <= n * y
    ensures x <= y
  {
  }

  lemma CancelLt(n: int, x: int, y: int)
    requires n > 0 && n * x < n * y
    ensures x < y
  {
  }

  /** Total focused minutes: the sum of actual minutes over `completed`. */
  function TotalFocused(ts: seq<LoggedTask>): (r: int)
    ensures (forall t :: t in ts && IsCompleted(t) ==> Actual(t) >= 0) ==> r >= 0
  {
    SumActual(CompletedTasks(ts))
  }

  /** Average of actual minus planned minutes over `completed`, rounded; 0 when none. */
  function AvgDelta(ts: seq<LoggedTask>): (r: int)
    ensures |CompletedTasks(ts)| == 0 ==> r == 0
    ensures |CompletedTasks(ts)| > 0 ==>
      var n := |CompletedTasks(ts)|;
      2 * n * r - n <= 2 * SumDelta(CompletedTasks(ts)) < 2 * n * r + n
  {
    var completed := CompletedTasks(ts);
    if |completed| == 0 then 0 else JsRound(SumDelta(completed), |completed|)
  }

  /** Every completed task finished on time gives 100; none on time gives 0. */
  lemma TimeAccuracyExtremes(ts: seq<LoggedTask>)
    requires |CompletedTasks(ts)| > 0
    ensures (forall t :: t in ts && IsCompleted(t) ==> OnTime(t)) ==> TimeAccuracy(ts) == 100
    ensures (forall t :: t in ts && IsCompleted(t) ==> !OnTime(t)) ==> TimeAccuracy(ts) == 0
  {
    var cs := CompletedTasks(ts);
    var n := |cs|;
    if forall t :: t in ts && IsCompleted(t) ==> OnTime(t) {
      AllOnTime(cs);
      var r := TimeAccuracy(ts);
      assert 2 * n * r - n <= 200 * n < 2 * n * r + n;
      RoundExact(n, 100, r);
    }
    if forall t :: t in ts && IsCompleted(t) ==> !OnTime(t) {
      NoneOnTime(cs);
      var r := TimeAccuracy(ts);
      assert 2 * n * r - n <= 0 < 2 * n * r + n;
      RoundExact(n, 0, r);
    }
  }

  /** The only integer within half of `v` is `v`. */
  lemma RoundExact(n: nat, v: int, r: int)
    requires n > 0
    requires 2 * n * r - n <= 2 * n * v < 2 * n * r + n
    ensures r == v
  {
    assert n * (2 * r - 1) <= n * (2 * v);
    CancelLe(n, 2 * r - 1, 2 * v);
    assert n * (2 * v) < n * (2 * r + 1);
    CancelLt(n, 2 * v, 2 * r + 1);
  }

  lemma {:induction false} AllOnTime(cs: seq<LoggedTask>)
    requires forall t :: t in cs ==> OnTime(t)
    ensures CountOnTime(cs) == |cs|
  {
    if cs != [] {
      assert forall t :: t in cs[1..] ==> t in cs;
      AllOnTime(cs[1..]);
    }
  }

  lemma {:induction false} NoneOnTime(cs: seq<LoggedTask>)
    requires forall t :: t in cs ==> !OnTime(t)
    ensures CountOnTime(cs) == 0
  {
    if cs != [] {
      assert forall t :: t in cs[1..] ==> t in cs;
      NoneOnTime(cs[1..]);
    }
  }

  /** Sums over a list whose deltas all lie in [lo, hi] lie in [n·lo, n·hi]. */
  lemma {:induction false} SumDeltaBounds(cs: seq<LoggedTask>, lo: int, hi: int)
    requires forall t :: t in cs ==> lo <= Delta(t) <= hi
    ensures |cs| * lo <= SumDelta(cs) <= |cs| * hi
  {
    if cs != [] {
      assert forall t :: t in cs[1..] ==> t in cs;
      SumDeltaBounds(cs[1..], lo, hi);
      MulStep(|cs|, lo);
      MulStep(|cs|, hi);
    }
  }

  lemma MulStep(n: int, x: int)
    ensures n * x == x + (n - 1) * x
  {
  }

  /** The average delta lies between the smallest and the largest delta. */
  lemma AvgDeltaBetween(ts: seq<LoggedTask>, lo: int, hi: int)
    requires forall t :: t in ts && IsCompleted(t) ==> lo <= Delta(t) <= hi
    requires |CompletedTasks(ts)| > 0
    ensures lo <= AvgDelta(ts) <= hi
  {
    var cs := CompletedTasks(ts);
    var n := |cs|;
    SumDeltaBounds(cs, lo, hi);
    RoundBetween(n, SumDelta(cs), AvgDelta(ts), lo, hi);
  }

  /** Rounding a quotient that lies in [lo, hi] stays in [lo, hi]. */
  lemma RoundBetween(n: int, s: int, r: int, lo: int, hi: int)
    requires n > 0 && n * lo <= s <= n * hi
    requires 2 * n * r - n <= 2 * s < 2 * n * r + n
    ensures lo <= r <= hi
  {
    assert n * (2 * r - 1) <= n * (2 * hi);
    CancelLe(n, 2 * r - 1, 2 * hi);
    assert n * (2 * lo) < n * (2 * r + 1);
    CancelLt(n, 2 * lo, 2 * r + 1);
  }

  /** The completed tasks keep their original order: the filter distributes
      over concatenation. */
  lemma {:induction false} CompletedAppend(a: seq<LoggedTask>, b: seq<LoggedTask>)
    ensures CompletedTasks(a + b) == CompletedTasks(a) + CompletedTasks(b)
  {
    if a == [] {
      assert a + b == b;
    } else {
      assert (a + b)[1..] == a[1..] + b;
      CompletedAppend(a[1..], b);
    }
  }

  // ---------------------------------------------------------------------------
  // The seven-day chart
  // ---------------------------------------------------------------------------

  /** A chart day: the `yyyy-MM-dd` key matched against `completedDate` and
      the axis label. */
  datatype Day = Day(dateStr: string, axisLabel: string)

  datatype Bar = Bar(axisLabel: string, planned: nat, overtime: int)

  /** The completed tasks whose completion date is `dateStr`. */
  function DayTasks(cs: seq<LoggedTask>, dateStr: string): (r: seq<LoggedTask>)
    ensures forall t :: t in r <==> t in cs && t.completedDate == Some(dateStr)
  {
    if cs == [] then []
    else (if cs[0].completedDate == Some(dateStr) then [cs[0]] else []) + DayTasks(cs[1..], dateStr)
  }

  /** One bar: planned minutes of the day's tasks, and overtime, the actual
      minutes beyond plan (never negative); planned plus overtime is the
      larger of planned and actual. */
  function DayBar(cs: seq<LoggedTask>, day: Day): (b: Bar)
    ensures b.axisLabel == day.axisLabel
    ensures b.planned == SumPlanned(DayTasks(cs, day.dateStr))
    ensures var actual := SumActual(DayTasks(cs, day.dateStr));
      && b.overtime >= 0
      && (b.overtime == 0 <==> actual <= b.planned)
      && b.planned + b.overtime == (if actual > b.planned then actual else b.planned)
  {
    var dayTasks := DayTasks(cs, day.dateStr);
    var planned := SumPlanned(dayTasks);
    var actual := SumActual(dayTasks);
    Bar(day.axisLabel, planned, if 0 > actual - planned then 0 else actual - planned)
  }

  /** `chartData`: one bar per supplied day, in the order given (oldest first). */
  function ChartData(ts: seq<LoggedTask>, days: seq<Day>): (r: seq<Bar>)
    requires |days| == 7
    ensures |r| == 7
    ensures forall i :: 0 <= i < 7 ==> r[i] == DayBar(CompletedTasks(ts), days[i])
  {
    var completed := CompletedTasks(ts);
    seq(7, i requires 0 <= i < 7 => DayBar(completed, days[i]))
  }

  /** Planned minutes counted on some chart day: each task is counted on the
      one day matching its completion date, so with distinct days the bars
      together plan exactly the tasks completed on one of those days. */
  function PlannedOnDays(cs: seq<LoggedTask>, days: seq<Day>): nat {
    if days == [] then 0 else SumPlanned(DayTasks(cs, days[0].dateStr)) + PlannedOnDays(cs, days[1..])
  }

  predicate CompletedOnOneOf(t: LoggedTask, days: seq<Day>) {
    exists i :: 0 <= i < |days| && t.completedDate == Some(days[i].dateStr)
  }

  function PlannedWhere(cs: seq<LoggedTask>, days: seq<Day>): nat {
    if cs == [] then 0
    else (if CompletedOnOneOf(cs[0], days) then cs[0].task.durationMinutes else 0) + PlannedWhere(cs[1..], days)
  }

  predicate DistinctDays(days: seq<Day>) {
    forall i, j :: 0 <= i < j < |days| ==> days[i].dateStr != days[j].dateStr
  }

  lemma {:induction false} PlannedOnDaysCons(t: LoggedTask, rest: seq<LoggedTask>, days: seq<Day>)
    requires DistinctDays(days)
    ensures PlannedOnDays([t] + rest, days)
      == (if CompletedOnOneOf(t, days) then t.task.durationMinutes else 0) + PlannedOnDays(rest, days)
    decreases |days|
  {
    if days != [] {
      var cs := [t] + rest;
      assert cs[1..] == rest;
      var tail := days[1..];
      assert DistinctDays(tail);
      PlannedOnDaysCons(t, rest, tail);
      if t.completedDate == Some(days[0].dateStr) {
        assert CompletedOnOneOf(t, days);
        assert DayTasks(cs, days[0].dateStr) == [t] + DayTasks(rest, days[0].dateStr);
        forall i | 0 <= i < |tail|
          ensures t.completedDate != Some(tail[i].dateStr)
        {
          assert tail[i] == days[i + 1];
        }
        assert !CompletedOnOneOf(t, tail);
      } else {
        assert DayTasks(cs, days[0].dateStr) == DayTasks(rest, days[0].dateStr);
        assert CompletedOnOneOf(t, days) <==> CompletedOnOneOf(t, tail) by {
          if CompletedOnOneOf(t, days) {
            var i :| 0 <= i < |days| && t.completedDate == Some(days[i].dateStr);
            assert i > 0 && tail[i - 1] == days[i];
          }
          if CompletedOnOneOf(t, tail) {
            var i :| 0 <= i < |tail| && t.completedDate == Some(tail[i].dateStr);
            assert days[i + 1] == tail[i];
          }
        }
      }
    }
  }

  /** Over distinct days, the bars' planned minutes add up to the planned
      minutes of the tasks completed on one of those days: no task is counted
      twice and none is lost. */
  lemma {:induction false} BarsPartitionPlanned(cs: seq<LoggedTask>, days: seq<Day>)
    requires DistinctDays(days)
    ensures PlannedOnDays(cs, days) == PlannedWhere(cs, days)
  {
    if cs == [] {
      PlannedOnDaysEmpty(days);
    } else {
      assert cs == [cs[0]] + cs[1..];
      PlannedOnDaysCons(cs[0], cs[1..], days);
      BarsPartitionPlanned(cs[1..], days);
    }
  }

  lemma {:induction false} PlannedOnDaysEmpty(days: seq<Day>)
    ensures PlannedOnDays([], days) == 0
  {
    if days != [] {
      PlannedOnDaysEmpty(days[1..]);
    }
  }

  function SumBarsPlanned(bars: seq<Bar>): nat {
    if bars == [] then 0 else bars[0].planned + SumBarsPlanned(bars[1..])
  }

  lemma {:induction false} BarsSum(bars: seq<Bar>, cs: seq<LoggedTask>, days: seq<Day>)
    requires |bars| == |days|
    requires forall i :: 0 <= i < |bars| ==> bars[i].planned == SumPlanned(DayTasks(cs, days[i].dateStr))
    ensures SumBarsPlanned(bars) == PlannedOnDays(cs, days)
  {
    if bars != [] {
      BarsSum(bars[1..], cs, days[1..]);
    }
  }

  /** With seven distinct day keys, the planned bars of the chart add up to the
      planned minutes of the completed tasks finished on one of those days. */
  lemma ChartPlannedTotal(ts: seq<LoggedTask>, days: seq<Day>)
    requires |days| == 7 && DistinctDays(days)
    ensures SumBarsPlanned(ChartData(ts, days)) == PlannedWhere(CompletedTasks(ts), days)
  {
    var cs := CompletedTasks(ts);
    BarsSum(ChartData(ts, days), cs, days);
    BarsPartitionPlanned(cs, days);
  }

  // ---------------------------------------------------------------------------
  // formatHours
  // ---------------------------------------------------------------------------

  /** `formatHours`: "Nm" below an hour (with a '-' sign for a negative
      total), else "Xh" or "Xh Ym". The label ends in 'h' exactly on whole
      hours of at least one hour, and starts with '-' exactly for a negative
      total. */
  function FormatHours(min: int): (r: string)
    ensures |r| >= 2
    ensures r[|r| - 1] == 'h' <==> min >= 60 && min % 60 == 0
    ensures r[0] == '-' <==> min < 0
    ensures min < 60 ==> r[|r| - 1] == 'm'
    ensures min < 0 ==> AllDigits(r[1..|r| - 1]) && ParseDecimal(r[1..|r| - 1]) == -min
  {
    if min < 60 then IntToString(min) + "m"
    else
      var h: nat := min / 60;
      var m: nat := min % 60;
      var hs := NatToString(h);
      assert IsDigit(hs[0]);
      if m > 0 then hs + "h " + NatToString(m) + "m" else hs + "h"
  }

  /** On whole non-negative minutes `formatHours` and the task list's
      `formatDuration` give the same text, so its output reads back too. */
  lemma FormatHoursAgrees(min: nat)
    ensures FormatHours(min) == TaskList.FormatDuration(min)
    ensures TaskList.ParseDuration(FormatHours(min)) == Some(min)
  {
    TaskList.FormatDurationRoundTrip(min);
  }
}

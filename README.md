# Kairos time-boxing planner: task/timer state machine in Dafny

Kairos is a personal time-boxing planner. The user queues tasks with a
planned duration in minutes, runs one task at a time through a countdown
timer, and afterwards reviews planned against actual time. This project
models the parts of it that carry logic:

- **`UseTasks`** (`use_tasks.dfy`) is the `useTasks` hook. It holds the
  `Task` and `TimerState` records, the idle timer, and pure updater functions
  for each `setTasks`/`setTimer` callback. The class `TasksHook` holds the
  two state cells `tasks` and `timer`, with one method per operation:
  `AddTask`, `DeleteTask`, `StartTask`, `TogglePause`, `DismissTimer`,
  `ReorderTasks` and `ResetTask`. Two more methods cover the effects:
  - `Tick` is one firing of the one-second interval;
  - `MarkCompleted` is the effect that marks the timer's task completed.

  Every method keeps the invariant `Valid()`:
  - ids are unique and non-empty;
  - at most one task is active;
  - the countdown is within its total and is zero once complete;
  - an idle timer has zero counts and is not complete;
  - a timer that names a task names a task in the list whose duration is the
    timer's total.

  `Elapse(t, n)` is `n` seconds of wall time, ticking only while the gate of
  the interval effect holds. The countdown is proved against it.
- **`TimerDisplay`** (`timer_display.dfy`) is `formatTime` (seconds to
  "mm:ss"), with a reader `ParseClock` for the round trip.
- **`TaskList`** (`task_list.dfy`) is `formatDuration` (minutes to "Nm",
  "Xh" or "Xh Ym"), with a reader `ParseDuration`.
- **`Analytics`** (`analytics.dfy`) covers the analytics panel:
  - the `completed` filter;
  - the KPIs `timeAccuracy`, `totalFocused` and `avgDelta`;
  - the seven per-day planned/overtime bars of `chartData`;
  - `formatHours`.

  These read `actualMinutes` and `completedDate`, which the hook's `Task`
  does not declare, so `LoggedTask` pairs a task with these two optional
  fields.
- **`Decimal`** (`decimal.dfy`) is JavaScript's decimal text of whole
  numbers, `padStart`, and a digit reader used to state the round trips.
- **`Options`** (`options.dfy`) is the `Option` type, used for `null` and
  `undefined`.

`Math.round(x)` is modelled exactly on rationals: `JsRound(num, den)` is the
integer `r` with `r - 1/2 <= num/den < r + 1/2`, so halves go towards +∞,
also for negative values.

The code is narrower than a planner with overtime tracking might suggest,
and the model follows the code:
- There is no overtime counter and no `complete`, `update` or `duplicate`
  operation.
- A task has no `plannedDate` and no `notes`.
- The timer stops at zero with `isComplete` set (`Tick`).
- The task is marked completed by a separate effect (`MarkCompleted`).
- "A task is active exactly when it is the timer's task" does not hold in the
  code, and the model does not claim it:
  - `dismissTimer` leaves the task active;
  - `startTask` with an unknown id demotes the active task but leaves the
    timer on it;
  - after the completion marking, the timer still names the completed task.

  What every operation keeps is the weaker `Valid()` above: at most one
  active task, and the timer names a task that is in the list.

## Model

| member | source | states |
|---|---|---|
| `Decimal.NatToString` | src/components/TimerDisplay.tsx:17 | `toString` of a whole number: non-empty, digits only, no leading zero, one character exactly below 10, at most two below 100 |
| `Decimal.IntToString` | src/components/Analytics.tsx:46 | the template-literal text of an integer: starts with '-' exactly when it is negative; the digits after the sign have no leading zero and read back as its absolute value |
| `Decimal.PadStart` | src/components/TimerDisplay.tsx:17 | `padStart` is as long as the width, or as the string when that is longer (never truncates) |
| `Decimal.PadStartShape` | src/components/TimerDisplay.tsx:17 | the padded text ends with the original string and holds only the fill character before it |
| `Decimal.ParseNatToString` | src/components/TimerDisplay.tsx:17 | reading the decimal text of `n` back gives `n` |
| `Decimal.PadDigits` | src/components/TimerDisplay.tsx:17 | zero-padding digits to any width keeps them digits and keeps their value |
| `Decimal.PadNatToString` | src/components/TimerDisplay.tsx:17 | the zero-padded text of `n` reads back as `n` |
| `UseTasks.IndexOf` | src/hooks/use-tasks.ts:122-123 | `findIndex`: -1 exactly when no task has the id, otherwise the first position holding it |
| `UseTasks.FindIndex` | src/hooks/use-tasks.ts:122-123 | the scanning loop returns `IndexOf`: -1 iff the id is absent, else the first index with that id |
| `UseTasks.Find` | src/hooks/use-tasks.ts:106 | `find` returns a task iff the id is present; the task returned is the first one in the list carrying the id |
| `UseTasks.Started` | src/hooks/use-tasks.ts:99-105 | the `startTask` map: same length, ids, names and durations; a task is active iff it has the id; other active tasks become pending; every other task is unchanged |
| `UseTasks.WithStatus` | src/hooks/use-tasks.ts:132-134 | the status map: tasks with the id get the status, every other task is unchanged, and ids, names and durations are kept |
| `UseTasks.Deleted` | src/hooks/use-tasks.ts:94 | the delete filter holds exactly the tasks of the list whose id differs, and is never longer |
| `UseTasks.Reordered` | src/hooks/use-tasks.ts:120-129 | no-op when either id is absent; otherwise same length and same multiset, the moved task sits at the old index of `overId`, and the rest is the list without it, in order |
| `UseTasks.MoveFacts` | src/hooks/use-tasks.ts:125-127 | the two splices give a permutation holding the moved task at the target index and the rest in their relative order |
| `UseTasks.IdleTimer` | src/hooks/use-tasks.ts:35 | the idle default (also written at lines 95 and 117): it names no task, so the interval never runs on it |
| `UseTasks.StartOne` | src/hooks/use-tasks.ts:100-104 | definition of the `startTask` map callback; used by `Started`, whose contract fixes every element |
| `UseTasks.Remove` | src/hooks/use-tasks.ts:126 | definition of the first `splice` (take out one task); used by `Reordered`, `MoveFacts` and `Moved` |
| `UseTasks.Insert` | src/hooks/use-tasks.ts:127 | definition of the second `splice` (put the task back); used by `Reordered` and `MoveFacts` |
| `UseTasks.Truthy` | src/hooks/use-tasks.ts:57 | definition: JavaScript truthiness of `timer.taskId` (neither null nor ""); used by `Counting` and `MarkCompleted` |
| `UseTasks.Counting` | src/hooks/use-tasks.ts:57 | definition: the gate under which the interval runs; it is the precondition of `TasksHook.Tick`, and `ElapseFrozen` shows that nothing moves outside it |
| `UseTasks.TickStep` | src/hooks/use-tasks.ts:59-64 | definition of the interval's updater; its properties are in `TickStepEffect` |
| `UseTasks.Elapse` | src/hooks/use-tasks.ts:54-67 | definition: n seconds of the interval, ticking only while `Counting`; its properties are in `CountdownAfter`, `CountdownFromStart`, `ElapseMonotone` and `ElapseFrozen` |
| `UseTasks.StartTimer` | src/hooks/use-tasks.ts:108-109 | the started timer belongs to the id, has remaining = total = 60·minutes, and is neither paused nor complete |
| `UseTasks.TogglePaused` | src/hooks/use-tasks.ts:113 | flips `isPaused` and changes no other field |
| `UseTasks.TickStepEffect` | src/hooks/use-tasks.ts:59-64 | above one second a tick takes exactly one second off and changes nothing else; at one or less it sets 0 and complete; owner, total and pause flag are kept |
| `UseTasks.CountdownAfter` | src/hooks/use-tasks.ts:57-64 | from a counting timer with R seconds left, n seconds leave max(R−n, 0), and the timer is complete iff n ≥ 1 and n ≥ R |
| `UseTasks.CountdownFromStart` | src/hooks/use-tasks.ts:57-64 | after a fresh start of T = 60·minutes seconds, n seconds leave max(T−n, 0), and the timer is complete iff n ≥ T |
| `UseTasks.ElapseMonotone` | src/hooks/use-tasks.ts:59-64 | the remaining seconds never increase as time passes |
| `UseTasks.ElapseFrozen` | src/hooks/use-tasks.ts:57 | an idle, paused or complete timer does not change |
| `UseTasks.TogglePausedTwice` | src/hooks/use-tasks.ts:112-114 | toggling the pause twice is the identity |
| `UseTasks.StartedActiveCount` | src/hooks/use-tasks.ts:99-105 | after the `startTask` map, the number of active tasks equals the number of tasks carrying the id |
| `UseTasks.StartedSingleActive` | src/hooks/use-tasks.ts:99-105 | with unique ids, starting a present id leaves exactly one active task, and an absent id leaves none |
| `UseTasks.ActiveCountAppend` | src/hooks/use-tasks.ts:90 | active tasks of a concatenation add up, so appending a pending task adds none |
| `UseTasks.WithStatusActiveCount` | src/hooks/use-tasks.ts:133 | setting a non-active status never increases the number of active tasks |
| `UseTasks.DeletedActiveCount` | src/hooks/use-tasks.ts:94 | deleting never increases the number of active tasks |
| `UseTasks.DeletedAppend` | src/hooks/use-tasks.ts:94 | the delete filter distributes over concatenation, so survivors keep their relative order |
| `UseTasks.DeletedLength` | src/hooks/use-tasks.ts:94 | deleting removes exactly as many tasks as carry the id |
| `UseTasks.DeletedUnique` | src/hooks/use-tasks.ts:94 | deleting keeps ids unique |
| `UseTasks.ReorderedActiveCount` | src/hooks/use-tasks.ts:120-129 | reordering keeps the number of active tasks |
| `UseTasks.ReorderedUnique` | src/hooks/use-tasks.ts:120-129 | reordering keeps ids unique |
| `UseTasks.ReorderedKeepsOwner` | src/hooks/use-tasks.ts:120-129 | the task that owns the timer is still in the list after a reorder |
| `UseTasks.ReorderExample` | src/hooks/use-tasks.ts:120-129 | with three tasks, dragging the third onto the first gives third, first, second |
| `UseTasks.ReorderSameId` | src/hooks/use-tasks.ts:120-129 | dragging a task onto itself leaves the list unchanged |
| `UseTasks.TasksHook.constructor` | src/hooks/use-tasks.ts:35-40 | with nothing stored, the state is the empty list and the idle timer, and satisfies the invariant |
| `UseTasks.TasksHook.ActiveTask` | src/pages/Index.tsx:9 | the timer's task is found exactly when the timer names one; it is in the list, carries that id, and its duration is the timer's total |
| `UseTasks.TasksHook.Tick` | src/hooks/use-tasks.ts:57-64 | callable only under the interval's gate; the timer takes one countdown step, the tasks stay, and the invariant holds |
| `UseTasks.TasksHook.MarkCompleted` | src/hooks/use-tasks.ts:75-81 | once complete with a truthy owner, exactly the owner's status becomes completed; otherwise nothing changes; the timer stays and the invariant holds |
| `UseTasks.TasksHook.AddTask` | src/hooks/use-tasks.ts:83-91 | appends one pending task with the given id, name and duration after the unchanged list; the timer stays and the invariant holds |
| `UseTasks.TasksHook.DeleteTask` | src/hooks/use-tasks.ts:93-96 | the list becomes the delete filter; the timer becomes idle iff it belonged to the id, otherwise it is unchanged; the invariant holds |
| `UseTasks.TasksHook.StartTask` | src/hooks/use-tasks.ts:98-110 | the list becomes the `startTask` map; a task is active iff it has the id. For a present id, exactly one task is active and the timer counts down its full duration. For an absent id, none is active and the timer is unchanged |
| `UseTasks.TasksHook.TogglePause` | src/hooks/use-tasks.ts:112-114 | the timer's pause flag flips and nothing else changes; the invariant holds |
| `UseTasks.TasksHook.DismissTimer` | src/hooks/use-tasks.ts:116-118 | the timer becomes the idle default whatever it was, so a second call changes nothing; tasks are unchanged |
| `UseTasks.TasksHook.ReorderTasks` | src/hooks/use-tasks.ts:120-130 | the in-place splices give exactly `Reordered` of the old list; the timer is unchanged and the invariant holds |
| `UseTasks.TasksHook.ResetTask` | src/hooks/use-tasks.ts:132-134 | exactly the tasks with the id become pending; the timer is unchanged and the invariant holds |
| `TimerDisplay.FormatTime` | src/components/TimerDisplay.tsx:14-18 | the text ends in ':' and two characters; below 6000 seconds it is exactly five characters with ':' at index 2 |
| `TimerDisplay.Clock` | src/components/TimerDisplay.tsx:17 | the two padded fields joined by ':' are at least five characters, with ':' third from the end; below 100 minutes exactly "mm:ss" |
| `TimerDisplay.TwoDigits` | src/components/TimerDisplay.tsx:17 | a padded field holds digits only, has at least two of them, and exactly two below 100 |
| `TimerDisplay.FieldsReadBack` | src/components/TimerDisplay.tsx:17 | each field reads back as its number; the minutes field is never cut short, and the seconds field is two digits |
| `TimerDisplay.FormatTimeFields` | src/components/TimerDisplay.tsx:15-16 | the minutes field reads `seconds div 60`, the seconds field reads `seconds mod 60`, which is below 60 |
| `TimerDisplay.ClockRoundTrip` | src/components/TimerDisplay.tsx:17 | reading "m:s" back gives 60·m + s |
| `TimerDisplay.FormatTimeRoundTrip` | src/components/TimerDisplay.tsx:14-18 | reading the text back gives the number of seconds |
| `TimerDisplay.FormatTimeInjective` | src/components/TimerDisplay.tsx:14-18 | different second counts never render the same |
| `TimerDisplay.FormatTimeHalfHour` | src/components/TimerDisplay.tsx:14-18 | 1800 seconds render as "30:00" |
| `TimerDisplay.FormatTimeZero` | src/components/TimerDisplay.tsx:14-18 | 0 seconds render as "00:00" |
| `TimerDisplay.FormatTimeHundredMinutes` | src/components/TimerDisplay.tsx:14-18 | 6000 seconds render as "100:00"; padding does not truncate |
| `TaskList.FormatDuration` | src/components/TaskList.tsx:12-19 | at least two characters, ending in 'h' exactly on whole hours of at least one hour |
| `TaskList.HoursMinutes` | src/components/TaskList.tsx:16 | the "Xh Ym" label ends in 'm' |
| `TaskList.HoursMinutesReadBack` | src/components/TaskList.tsx:16 | "Xh Ym" with Y > 0 reads back as 60·X + Y |
| `TaskList.FormatDurationRoundTrip` | src/components/TaskList.tsx:12-19 | reading the label back gives the minutes (60·h + m for an hour or more) |
| `TaskList.FormatDurationInjective` | src/components/TaskList.tsx:12-19 | different durations never share a label |
| `TaskList.FormatDurationShape` | src/components/TaskList.tsx:12-19 | below an hour "Nm"; whole hours "Xh" with X = minutes div 60; otherwise "Xh Ym" with 0 < Y < 60; no label ends in " 0m" |
| `Analytics.Actual` | src/components/Analytics.tsx:17 | definition: `actualMinutes ?? 0`; used by every KPI |
| `Analytics.IsCompleted` | src/components/Analytics.tsx:13 | definition: the `completed` filter's test (status completed, actual time present); its meaning is pinned by `CompletedTasks` |
| `Analytics.OnTime` | src/components/Analytics.tsx:17 | definition: actual no later than planned; its counts are given by `CountOnTime`, `AllOnTime` and `NoneOnTime` |
| `Analytics.CompletedTasks` | src/components/Analytics.tsx:13 | `completed` holds exactly the tasks with status completed and an actual time, and is never longer than the list |
| `Analytics.CompletedAppend` | src/components/Analytics.tsx:13 | the filter distributes over concatenation, so completed tasks keep their original order |
| `Analytics.CountOnTime` | src/components/Analytics.tsx:17 | the on-time count never exceeds the number of completed tasks |
| `Analytics.AllOnTime` | src/components/Analytics.tsx:17 | when every task is on time, the count is the whole list |
| `Analytics.NoneOnTime` | src/components/Analytics.tsx:17 | when no task is on time, the count is zero |
| `Analytics.JsRound` | src/components/Analytics.tsx:18 | `Math.round` of a quotient: the integer within one half below and strictly less than one half above |
| `Analytics.JsRoundNegativeHalf` | src/components/Analytics.tsx:26 | a negative half rounds up: -5/2 gives -2 |
| `Analytics.TimeAccuracy` | src/components/Analytics.tsx:15-19 | 0 when nothing is completed; otherwise the rounded value of 100·onTime/len, which lies in [0, 100] |
| `Analytics.AccuracyBounds` | src/components/Analytics.tsx:18 | rounding 100·onTime/n with onTime ≤ n gives a value in [0, 100] |
| `Analytics.TimeAccuracyExtremes` | src/components/Analytics.tsx:15-19 | all completed tasks on time gives exactly 100; none on time gives exactly 0 |
| `Analytics.SumActual` | src/components/Analytics.tsx:21 | the sum of actual minutes is non-negative when every actual time is |
| `Analytics.TotalFocused` | src/components/Analytics.tsx:21 | total focused minutes are non-negative when the actual times of the completed tasks are |
| `Analytics.Delta` | src/components/Analytics.tsx:25 | definition of the reduce term `(actualMinutes ?? 0) - durationMinutes`; used by `SumDelta`, `SumDeltaBounds` and `AvgDeltaBetween` |
| `Analytics.SumDelta` | src/components/Analytics.tsx:25 | definition of the delta reduce; its bounds are in `SumDeltaBounds`, and `AvgDelta` rounds it |
| `Analytics.SumPlanned` | src/components/Analytics.tsx:37 | definition of the planned reduce; `DayBar` uses it, and `BarsPartitionPlanned` relates it over the week |
| `Analytics.AvgDelta` | src/components/Analytics.tsx:23-27 | 0 when nothing is completed; otherwise the rounded value of Σ(actual − planned)/len |
| `Analytics.SumDeltaBounds` | src/components/Analytics.tsx:25 | when every delta is in [lo, hi], the total delta is in [n·lo, n·hi] |
| `Analytics.RoundBetween` | src/components/Analytics.tsx:26 | rounding a quotient that lies in [lo, hi] stays in [lo, hi] |
| `Analytics.AvgDeltaBetween` | src/components/Analytics.tsx:23-27 | the average delta lies between the smallest and the largest delta of the completed tasks |
| `Analytics.DayTasks` | src/components/Analytics.tsx:36 | a day's tasks are exactly the completed tasks whose completion date is that day's string |
| `Analytics.DayBar` | src/components/Analytics.tsx:36-40 | a bar carries the day's label and its planned sum; overtime is never negative, is 0 iff actual ≤ planned, and planned + overtime = max(planned, actual) |
| `Analytics.ChartData` | src/components/Analytics.tsx:30-43 | exactly seven bars in the order of the supplied days, bar i being the bar of day i over `completed` |
| `Analytics.PlannedOnDaysCons` | src/components/Analytics.tsx:36-37 | over distinct days, a task adds its planned minutes to exactly one bar if its date is one of the days, and to none otherwise |
| `Analytics.BarsPartitionPlanned` | src/components/Analytics.tsx:32-37 | over distinct days, the bars' planned sums add up to the planned minutes of the tasks completed on one of those days |
| `Analytics.BarsSum` | src/components/Analytics.tsx:37 | the planned column of the bars adds up to the per-day planned sums |
| `Analytics.ChartPlannedTotal` | src/components/Analytics.tsx:30-43 | across the seven bars, no completed task is counted twice or lost |
| `Analytics.FormatHours` | src/components/Analytics.tsx:45-50 | at least two characters; ends in 'h' exactly on whole hours of at least one hour and in 'm' below an hour; starts with '-' exactly for a negative total, whose digits between the sign and the 'm' read back as its absolute value |
| `Analytics.FormatHoursAgrees` | src/components/Analytics.tsx:45-50 | on whole non-negative minutes, `formatHours` equals the task list's `formatDuration`, so its text reads back as the minutes |

## Left out

- Persistence is not modelled. The `localStorage` reads and writes and the JSON (de)serialisation are I/O (src/hooks/use-tasks.ts:21-36, 43-51). Only the idle default is kept, and the constructor starts from the state that is used when nothing is stored.
- The `setInterval`/`clearInterval` scheduling and `intervalRef` are not modelled. They are replaced by `Tick`, whose precondition is the gate of the interval effect, and by `Elapse`, which counts seconds of wall time.
- `crypto.randomUUID()` is a foreign call. `AddTask` takes the id as a parameter and requires it to be non-empty and unused, which a fresh UUID is.
- React's effect ordering is not modelled. The completion marking is the separate method `MarkCompleted`, and `startTask` reads the current task list where the source reads the closure's `tasks`.
- `UseTasks.TasksHook.MarkCompleted`: the model does not capture when the effect fires. The source re-runs it only when `(isComplete, taskId)` changes, but the method can be called at any time. For example, after `resetTask` on the completed owner while the timer still reads complete, the source leaves the task pending, whereas calling `MarkCompleted` again would complete it.
- Fractional durations are not modelled. `TaskForm` can produce fractional minutes (hours × 60 from `parseFloat`), but `durationMinutes` is a natural number here. For the same reason `formatTime`, `formatDuration` and `formatHours` are modelled on whole numbers, and `formatHours` on integers.
- JavaScript numbers are unbounded integers here. Float rounding inside `Math.round(onTime / len * 100)` and `Math.round(totalDelta / len)` is not modelled, because `JsRound` rounds the exact quotient.
- `Analytics.FormatHours`: the full round trip through `ParseDuration` is proved only for whole non-negative minutes (`FormatHoursAgrees`). For negative totals the contract gives the sign, the 'm' ending and the value of the digits in between, but no reader for the whole label.
- The chart's dates come from `date-fns` (`subDays`, `format`) and the chart itself from `recharts`. Neither library's code is available, and the dates depend on the clock. The seven days are supplied as input, and their distinctness is an assumption of the partition lemmas.
- The timer view's rendering is not modelled: the progress ring, hue interpolation and toast are floating-point or UI. The same goes for the `TaskForm` parsing, the `DeltaBar` widths, the `TaskColumn` drag-and-drop wiring and the layout of `Index.tsx`.
- `Index.tsx` passes `onReset`/`onReorder` to a `TaskList` whose props do not declare them. This is a type mismatch with no behaviour to model.
- The model is only about values, not objects. JavaScript spreads build new objects, and reference identity of tasks is not observable in the code, so nothing depends on it.

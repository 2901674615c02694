/**
 * The task/timer state of the planner: an ordered list of tasks and one
 * countdown timer. The pure updaters below are what the hook hands to its
 * state setters; the class `TasksHook` holds the two state cells and has one
 * method per operation, each stated in terms of those updaters.
 */
module UseTasks {
  import opened Options

  datatype Status = Pending | Active | Completed

  /** A task. Durations are whole minutes in this model. */
  datatype Task = Task(id: string, name: string, durationMinutes: nat, status: Status)

  datatype TimerState = TimerState(
    taskId: Option<string>,
    remainingSeconds: nat,
    totalSeconds: nat,
    isPaused: bool,
    isComplete: bool)

  /** The timer with no task: the default when nothing is stored, and the
      state left by dismissing the timer or deleting its task. */
  function IdleTimer(): (t: TimerState)
    ensures t.taskId.None? && !Truthy(t.taskId) && !Counting(t)
  {
    TimerState(None, 0, 0, false, false)
  }

  // ---------------------------------------------------------------------------
  // Queries on the task list
  // ---------------------------------------------------------------------------

  predicate HasId(ts: seq<Task>, id: string) {
    exists k :: 0 <= k < |ts| && ts[k].id == id
  }

  predicate UniqueIds(ts: seq<Task>) {
    forall i, j :: 0 <= i < j < |ts| ==> ts[i].id != ts[j].id
  }

  function CountId(ts: seq<Task>, id: string): nat {
    if ts == [] then 0 else (if ts[0].id == id then 1 else 0) + CountId(ts[1..], id)
  }

  function ActiveCount(ts: seq<Task>): nat {
    if ts == [] then 0 else (if ts[0].status == Active then 1 else 0) + ActiveCount(ts[1..])
  }

  /** `findIndex(t => t.id === id)`: the first position holding `id`, or -1. */
  function IndexOf(ts: seq<Task>, id: string): (k: int)
    ensures -1 <= k < |ts|
    ensures k == -1 <==> !HasId(ts, id)
    ensures k >= 0 ==> ts[k].id == id && forall j :: 0 <= j < k ==> ts[j].id != id
  {
    if ts == [] then -1
    else if ts[0].id == id then 0
    else
      var k := IndexOf(ts[1..], id);
      assert forall j :: 0 < j < |ts| ==> ts[j] == ts[1..][j - 1];
      if k == -1 then -1 else k + 1
  }

  /** `find(t => t.id === id)`: the first task with `id`, if any. */
  function Find(ts: seq<Task>, id: string): (r: Option<Task>)
    ensures r.Some? <==> HasId(ts, id)
    ensures r.Some? ==> r.value in ts && r.value.id == id
    ensures r.Some? ==> exists k :: 0 <= k < |ts| && ts[k] == r.value && forall j :: 0 <= j < k ==> ts[j].id != id
  {
    var k := IndexOf(ts, id);
    if k == -1 then None else Some(ts[k])
  }

  /** Scans the list for `id` the way `Array.prototype.findIndex` does. */
  method FindIndex(ts: seq<Task>, id: string) returns (k: int)
    ensures k == IndexOf(ts, id)
    ensures -1 <= k < |ts|
    ensures k == -1 <==> !HasId(ts, id)
    ensures k >= 0 ==> ts[k].id == id && forall j :: 0 <= j < k ==> ts[j].id != id
  {
    var i := 0;
    while i < |ts|
      invariant 0 <= i <= |ts|
      invariant forall j :: 0 <= j < i ==> ts[j].id != id
    {
      if ts[i].id == id {
        return i;
      }
      i := i + 1;
    }
    return -1;
  }

  // ---------------------------------------------------------------------------
  // Task-list updaters
  // ---------------------------------------------------------------------------

  function StartOne(t: Task, id: string): Task {
    if t.id == id then t.(status := Active)
    else if t.status == Active then t.(status := Pending)
    else t
  }

  /** The task list after `startTask(id)`: the task with `id` becomes active,
      every other active task is demoted to pending, nothing else changes. */
  function Started(ts: seq<Task>, id: string): (r: seq<Task>)
    ensures |r| == |ts|
    ensures forall i :: 0 <= i < |r| ==>
      r[i].id == ts[i].id && r[i].name == ts[i].name && r[i].durationMinutes == ts[i].durationMinutes
    ensures forall i :: 0 <= i < |r| ==> (r[i].status == Active <==> ts[i].id == id)
    ensures forall i :: 0 <= i < |r| && ts[i].id != id && ts[i].status == Active ==> r[i].status == Pending
    ensures forall i :: 0 <= i < |r| && ts[i].id != id && ts[i].status != Active ==> r[i] == ts[i]
  {
    if ts == [] then [] else [StartOne(ts[0], id)] + Started(ts[1..], id)
  }

  /** The task list with every task carrying `id` set to `status` (used by
      `resetTask` and by the completion marking). */
  function WithStatus(ts: seq<Task>, id: string, status: Status): (r: seq<Task>)
    ensures |r| == |ts|
    ensures forall i :: 0 <= i < |r| ==>
      r[i].id == ts[i].id && r[i].name == ts[i].name && r[i].durationMinutes == ts[i].durationMinutes
    ensures forall i :: 0 <= i < |r| && ts[i].id == id ==> r[i].status == status
    ensures forall i :: 0 <= i < |r| && ts[i].id != id ==> r[i] == ts[i]
  {
    if ts == [] then []
    else [if ts[0].id == id then ts[0].(status := status) else ts[0]] + WithStatus(ts[1..], id, status)
  }

  /** `filter(t => t.id !== id)`: exactly the tasks without `id`. */
  function Deleted(ts: seq<Task>, id: string): (r: seq<Task>)
    ensures |r| <= |ts|
    ensures forall t :: t in r <==> t in ts && t.id != id
  {
    if ts == [] then []
    else (if ts[0].id == id then [] else [ts[0]]) + Deleted(ts[1..], id)
  }

  function Remove(s: seq<Task>, i: nat): seq<Task>
    requires i < |s|
  {
    s[..i] + s[i + 1..]
  }

  function Insert(s: seq<Task>, i: nat, x: Task): seq<Task>
    requires i <= |s|
  {
    s[..i] + [x] + s[i..]
  }

  /** `reorderTasks(activeId, overId)`: when both ids are present, the task with
      `activeId` is taken out and put back at the position `overId` had, the
      other tasks keeping their relative order; otherwise nothing changes. */
  function Reordered(ts: seq<Task>, activeId: string, overId: string): (r: seq<Task>)
    ensures |r| == |ts| && multiset(r) == multiset(ts)
    ensures !HasId(ts, activeId) || !HasId(ts, overId) ==> r == ts
    ensures HasId(ts, activeId) && HasId(ts, overId) ==>
      var from, to := IndexOf(ts, activeId), IndexOf(ts, overId);
      r[to] == ts[from] && r[..to] + r[to + 1..] == Remove(ts, from)
  {
    var from, to := IndexOf(ts, activeId), IndexOf(ts, overId);
    if from == -1 || to == -1 then ts
    else
      MoveFacts(ts, from, to);
      Insert(Remove(ts, from), to, ts[from])
  }

  /** Taking out position `from` and inserting the task at `to` yields a
      permutation that holds the task at `to` and the rest in their order. */
  lemma MoveFacts(ts: seq<Task>, from: nat, to: nat)
    requires from < |ts| && to < |ts|
    ensures var r := Insert(Remove(ts, from), to, ts[from]);
      && |r| == |ts| && multiset(r) == multiset(ts)
      && r[to] == ts[from] && r[..to] + r[to + 1..] == Remove(ts, from)
  {
    var rest := Remove(ts, from);
    var x := ts[from];
    var r := Insert(rest, to, x);
    assert ts == ts[..from] + [x] + ts[from + 1..];
    assert multiset(ts) == multiset(rest) + multiset{x};
    assert r[..to] == rest[..to] && r[to + 1..] == rest[to..];
    assert rest[..to] + rest[to..] == rest;
    assert multiset(r) == multiset(rest) + multiset{x};
  }

  // ---------------------------------------------------------------------------
  // Timer updaters
  // ---------------------------------------------------------------------------

  /** JavaScript truthiness of `timer.taskId`: neither null nor the empty string. */
  predicate Truthy(id: Option<string>) {
    id.Some? && id.value != ""
  }

  /** The gate under which the one-second interval is installed. */
  predicate Counting(t: TimerState) {
    Truthy(t.taskId) && !t.isPaused && !t.isComplete
  }

  /** One firing of the interval: count down by one second, or stop at zero
      and mark the countdown complete. */
  function TickStep(t: TimerState): TimerState {
    if t.remainingSeconds <= 1 then t.(remainingSeconds := 0, isComplete := true)
    else t.(remainingSeconds := t.remainingSeconds - 1)
  }

  /** The timer after `n` seconds: the interval fires once a second, but only
      while the timer is counting. */
  function Elapse(t: TimerState, n: nat): TimerState {
    if n == 0 then t
    else
      var p := Elapse(t, n - 1);
      if Counting(p) then TickStep(p) else p
  }

  /** The timer `startTask` installs for a task of `minutes` minutes. */
  function StartTimer(id: string, minutes: nat): (t: TimerState)
    ensures t.taskId == Some(id) && t.remainingSeconds == t.totalSeconds == 60 * minutes
    ensures !t.isPaused && !t.isComplete
  {
    TimerState(Some(id), minutes * 60, minutes * 60, false, false)
  }

  /** `togglePause`: flips `isPaused` and nothing else. */
  function TogglePaused(t: TimerState): (r: TimerState)
    ensures r.isPaused != t.isPaused
    ensures r.(isPaused := t.isPaused) == t
  {
    t.(isPaused := !t.isPaused)
  }

  // ---------------------------------------------------------------------------
  // Lemmas: the countdown
  // ---------------------------------------------------------------------------

  /** A tick above one second takes exactly one second off and changes nothing
      else; a tick at one second or less stops at zero and completes. */
  lemma TickStepEffect(t: TimerState)
    ensures var r := TickStep(t);
      && r.taskId == t.taskId && r.totalSeconds == t.totalSeconds && r.isPaused == t.isPaused
      && (t.remainingSeconds > 1 ==> r == t.(remainingSeconds := t.remainingSeconds - 1))
      && (t.remainingSeconds <= 1 ==> r.remainingSeconds == 0 && r.isComplete)
  {
  }

  /** While counting, `n` seconds leave `max(R - n, 0)` seconds on a timer that
      had `R`, and the countdown is complete exactly when at least one second
      has passed and `n >= R`; the owner, the total and the pause flag stay. */
  lemma {:induction false} CountdownAfter(t: TimerState, n: nat)
    requires Counting(t)
    ensures var r := Elapse(t, n);
      && r.remainingSeconds == (if n >= t.remainingSeconds then 0 else t.remainingSeconds - n)
      && (r.isComplete <==> n >= 1 && n >= t.remainingSeconds)
      && r.taskId == t.taskId && r.totalSeconds == t.totalSeconds && !r.isPaused
  {
    if n > 0 {
      CountdownAfter(t, n - 1);
    }
  }

  /** After a fresh start of a task of T = 60·minutes ≥ 60 seconds, n seconds
      leave max(T - n, 0) seconds, and the countdown is complete iff n ≥ T. */
  lemma CountdownFromStart(id: string, minutes: nat, n: nat)
    requires id != "" && minutes >= 1
    ensures var total := 60 * minutes;
      var r := Elapse(StartTimer(id, minutes), n);
      && r.remainingSeconds == (if n >= total then 0 else total - n)
      && (r.isComplete <==> n >= total)
      && r.taskId == Some(id) && r.totalSeconds == total
  {
    CountdownAfter(StartTimer(id, minutes), n);
  }

  /** The remaining time never increases as seconds pass. */
  lemma {:induction false} ElapseMonotone(t: TimerState, n: nat, m: nat)
    requires n <= m
    ensures Elapse(t, m).remainingSeconds <= Elapse(t, n).remainingSeconds
    decreases m - n
  {
    if n < m {
      ElapseMonotone(t, n, m - 1);
    }
  }

  /** A timer that is not counting (idle, paused or complete) does not move. */
  lemma {:induction false} ElapseFrozen(t: TimerState, n: nat)
    requires !Counting(t)
    ensures Elapse(t, n) == t
  {
    if n > 0 {
      ElapseFrozen(t, n - 1);
    }
  }

  /** Pausing twice restores the timer. */
  lemma TogglePausedTwice(t: TimerState)
    ensures TogglePaused(TogglePaused(t)) == t
  {
  }

  // ---------------------------------------------------------------------------
  // Lemmas: the task list
  // ---------------------------------------------------------------------------

  lemma {:induction false} CountIdZero(ts: seq<Task>, id: string)
    requires !HasId(ts, id)
    ensures CountId(ts, id) == 0
  {
    if ts != [] {
      assert forall k :: 0 <= k < |ts| - 1 ==> ts[1..][k] == ts[k + 1];
      CountIdZero(ts[1..], id);
    }
  }

  /** With unique ids, an id that is present occurs exactly once. */
  lemma {:induction false} CountIdUnique(ts: seq<Task>, id: string)
    requires UniqueIds(ts) && HasId(ts, id)
    ensures CountId(ts, id) == 1
  {
    var rest := ts[1..];
    assert forall k :: 0 <= k < |rest| ==> rest[k] == ts[k + 1];
    if ts[0].id == id {
      CountIdZero(rest, id);
    } else {
      CountIdUnique(rest, id);
    }
  }

  /** After `startTask(id)` the number of active tasks is the number of tasks
      carrying `id`. */
  lemma {:induction false} StartedActiveCount(ts: seq<Task>, id: string)
    ensures ActiveCount(Started(ts, id)) == CountId(ts, id)
  {
    if ts != [] {
      assert Started(ts, id)[1..] == Started(ts[1..], id);
      StartedActiveCount(ts[1..], id);
    }
  }

  /** With unique ids, starting a task that exists leaves exactly one active
      task, the one started; starting an unknown id leaves none active. */
  lemma StartedSingleActive(ts: seq<Task>, id: string)
    requires UniqueIds(ts)
    ensures HasId(ts, id) ==> ActiveCount(Started(ts, id)) == 1
    ensures !HasId(ts, id) ==> ActiveCount(Started(ts, id)) == 0
  {
    StartedActiveCount(ts, id);
    if HasId(ts, id) {
      CountIdUnique(ts, id);
    } else {
      CountIdZero(ts, id);
    }
  }

  lemma {:induction false} ActiveCountAppend(a: seq<Task>, b: seq<Task>)
    ensures ActiveCount(a + b) == ActiveCount(a) + ActiveCount(b)
  {
    if a == [] {
      assert a + b == b;
    } else {
      assert (a + b)[1..] == a[1..] + b;
      ActiveCountAppend(a[1..], b);
    }
  }

  /** Setting a status other than `Active` never adds an active task. */
  lemma {:induction false} WithStatusActiveCount(ts: seq<Task>, id: string, status: Status)
    requires status != Active
    ensures ActiveCount(WithStatus(ts, id, status)) <= ActiveCount(ts)
  {
    if ts != [] {
      assert WithStatus(ts, id, status)[1..] == WithStatus(ts[1..], id, status);
      WithStatusActiveCount(ts[1..], id, status);
    }
  }

  /** Deleting never adds an active task. */
  lemma {:induction false} DeletedActiveCount(ts: seq<Task>, id: string)
    ensures ActiveCount(Deleted(ts, id)) <= ActiveCount(ts)
  {
    if ts != [] {
      var head := if ts[0].id == id then [] else [ts[0]];
      ActiveCountAppend(head, Deleted(ts[1..], id));
      DeletedActiveCount(ts[1..], id);
    }
  }

  /** The tasks that survive a delete keep their relative order: deleting
      distributes over concatenation. */
  lemma {:induction false} DeletedAppend(a: seq<Task>, b: seq<Task>, id: string)
    ensures Deleted(a + b, id) == Deleted(a, id) + Deleted(b, id)
  {
    if a == [] {
      assert a + b == b;
    } else {
      assert (a + b)[1..] == a[1..] + b;
      DeletedAppend(a[1..], b, id);
    }
  }

  /** Deleting removes exactly as many tasks as carry the id (so one, when ids
      are unique and the id is present, and none when it is absent). */
  lemma {:induction false} DeletedLength(ts: seq<Task>, id: string)
    ensures |Deleted(ts, id)| == |ts| - CountId(ts, id)
  {
    if ts != [] {
      DeletedLength(ts[1..], id);
    }
  }

  /** Deleting keeps ids unique. */
  lemma {:induction false} DeletedUnique(ts: seq<Task>, id: string)
    requires UniqueIds(ts)
    ensures UniqueIds(Deleted(ts, id))
  {
    if ts != [] {
      var rest := ts[1..];
      assert UniqueIds(rest);
      DeletedUnique(rest, id);
      if ts[0].id != id {
        var d := Deleted(rest, id);
        var r := [ts[0]] + d;
        forall j | 0 < j < |r|
          ensures r[0].id != r[j].id
        {
          assert r[j] in d;
          ghost var k :| 0 <= k < |rest| && rest[k] == r[j];
          assert ts[k + 1] == r[j];
        }
      }
    }
  }

  /** One task taken out of the middle of a list accounts for its own share
      of active tasks. */
  lemma ActiveCountSplit(a: seq<Task>, x: Task, b: seq<Task>)
    ensures ActiveCount(a + [x] + b) == ActiveCount(a + b) + ActiveCount([x])
  {
    assert a + [x] + b == a + ([x] + b);
    ActiveCountAppend(a, [x] + b);
    ActiveCountAppend([x], b);
    ActiveCountAppend(a, b);
  }

  /** A list with one task in the middle has unique ids exactly when the list
      without it does and no other task shares its id. */
  lemma UniqueSplit(a: seq<Task>, x: Task, b: seq<Task>)
    ensures UniqueIds(a + [x] + b) <==> UniqueIds(a + b) && !HasId(a + b, x.id)
  {
    var s, t := a + [x] + b, a + b;
    assert forall k :: 0 <= k < |t| ==> t[k] == s[if k < |a| then k else k + 1];
    assert forall k :: 0 <= k < |s| && k != |a| ==> s[k] == t[if k < |a| then k else k - 1];
    assert s[|a|] == x;
  }

  /** `r` is `ts` with the task at `from` moved to position `to`. */
  predicate Moved(ts: seq<Task>, r: seq<Task>, from: nat, to: nat) {
    from < |ts| && to < |r| && r[to] == ts[from] && r[..to] + r[to + 1..] == Remove(ts, from)
  }

  lemma MovedActiveCount(ts: seq<Task>, r: seq<Task>, from: nat, to: nat)
    requires Moved(ts, r, from, to)
    ensures ActiveCount(r) == ActiveCount(ts)
  {
    assert ts == ts[..from] + [ts[from]] + ts[from + 1..];
    ActiveCountSplit(ts[..from], ts[from], ts[from + 1..]);
    assert r == r[..to] + [r[to]] + r[to + 1..];
    ActiveCountSplit(r[..to], r[to], r[to + 1..]);
  }

  lemma MovedUnique(ts: seq<Task>, r: seq<Task>, from: nat, to: nat)
    requires Moved(ts, r, from, to) && UniqueIds(ts)
    ensures UniqueIds(r)
  {
    assert ts == ts[..from] + [ts[from]] + ts[from + 1..];
    UniqueSplit(ts[..from], ts[from], ts[from + 1..]);
    assert r == r[..to] + [r[to]] + r[to + 1..];
    UniqueSplit(r[..to], r[to], r[to + 1..]);
  }

  /** Moving one task keeps the number of active tasks. */
  lemma ReorderedActiveCount(ts: seq<Task>, activeId: string, overId: string)
    ensures ActiveCount(Reordered(ts, activeId, overId)) == ActiveCount(ts)
  {
    var from, to := IndexOf(ts, activeId), IndexOf(ts, overId);
    if from != -1 && to != -1 {
      MovedActiveCount(ts, Reordered(ts, activeId, overId), from, to);
    }
  }

  /** Moving one task keeps ids unique. */
  lemma ReorderedUnique(ts: seq<Task>, activeId: string, overId: string)
    requires UniqueIds(ts)
    ensures UniqueIds(Reordered(ts, activeId, overId))
  {
    var from, to := IndexOf(ts, activeId), IndexOf(ts, overId);
    if from != -1 && to != -1 {
      MovedUnique(ts, Reordered(ts, activeId, overId), from, to);
    }
  }

  /** A permutation holds the same tasks. */
  lemma PermutedMembers(a: seq<Task>, b: seq<Task>)
    requires multiset(a) == multiset(b)
    ensures forall t :: t in a <==> t in b
  {
    forall t
      ensures t in a <==> t in b
    {
      assert t in a <==> t in multiset(a);
      assert t in b <==> t in multiset(b);
    }
  }

  /** The task that owns the timer is still in the list after a move. */
  lemma ReorderedKeepsOwner(ts: seq<Task>, activeId: string, overId: string, id: string, total: nat)
    requires exists k :: OwnsAt(ts, k, id, total)
    ensures exists k :: OwnsAt(Reordered(ts, activeId, overId), k, id, total)
  {
    var r := Reordered(ts, activeId, overId);
    var k :| OwnsAt(ts, k, id, total);
    PermutedMembers(ts, r);
    assert ts[k] in r;
    var j :| 0 <= j < |r| && r[j] == ts[k];
    assert OwnsAt(r, j, id, total);
  }

  /** Moving the last of three tasks to position 0 puts it in front of the other two. */
  lemma MovedLastToFront(ts: seq<Task>, r: seq<Task>)
    requires |ts| == 3 && Moved(ts, r, 2, 0)
    ensures r == [ts[2], ts[0], ts[1]]
  {
    assert Remove(ts, 2) == [ts[0], ts[1]];
    assert r[..0] + r[1..] == r[1..];
    assert r == [r[0]] + r[1..];
  }

  /** With tasks t1, t2, t3 (t3's id distinct from the others), dragging t3
      onto t1 gives t3, t1, t2. */
  lemma ReorderExample(t1: Task, t2: Task, t3: Task)
    requires t1.id != t3.id && t2.id != t3.id
    ensures Reordered([t1, t2, t3], t3.id, t1.id) == [t3, t1, t2]
  {
    var ts := [t1, t2, t3];
    assert HasId(ts, t3.id) && HasId(ts, t1.id) by {
      assert ts[2].id == t3.id && ts[0].id == t1.id;
    }
    assert IndexOf(ts, t3.id) == 2 && IndexOf(ts, t1.id) == 0;
    MovedLastToFront(ts, Reordered(ts, t3.id, t1.id));
  }

  /** Dragging a task onto itself changes nothing. */
  lemma ReorderSameId(ts: seq<Task>, id: string)
    ensures Reordered(ts, id, id) == ts
  {
    var k := IndexOf(ts, id);
    if k != -1 {
      assert ts == ts[..k] + [ts[k]] + ts[k + 1..];
    }
  }

  // ---------------------------------------------------------------------------
  // The hook's state and operations
  // ---------------------------------------------------------------------------

  /** The task at position `k` owns a timer whose total is `total` seconds. */
  predicate OwnsAt(ts: seq<Task>, k: int, id: string, total: nat) {
    0 <= k < |ts| && ts[k].id == id && ts[k].durationMinutes * 60 == total
  }

  class TasksHook {
    var tasks: seq<Task>
    var timer: TimerState

    /** The invariant every operation keeps: ids are unique and non-empty, at
        most one task is active, the countdown lies within its total and is
        zero once complete, an idle timer is all zeros, and a timer that has a
        task refers to a task in the list whose duration is the timer's total. */
    ghost predicate Valid()
      reads this
    {
      && UniqueIds(tasks)
      && (forall t :: t in tasks ==> t.id != "")
      && ActiveCount(tasks) <= 1
      && timer.remainingSeconds <= timer.totalSeconds
      && (timer.isComplete ==> timer.remainingSeconds == 0)
      && (timer.taskId.None? ==>
            timer.remainingSeconds == 0 && timer.totalSeconds == 0 && !timer.isComplete)
      && (timer.taskId.Some? ==>
            exists k :: OwnsAt(tasks, k, timer.taskId.value, timer.totalSeconds))
    }

    /** The state when nothing is stored: no tasks and the idle timer. */
    constructor ()
      ensures Valid()
      ensures tasks == [] && timer == IdleTimer()
    {
      tasks := [];
      timer := IdleTimer();
    }

    /** The task the timer belongs to (`tasks.find(t => t.id === timer.taskId)`). */
    function ActiveTask(): (r: Option<Task>)
      reads this
      requires Valid()
      ensures r.Some? <==> timer.taskId.Some?
      ensures r.Some? ==> r.value in tasks && Some(r.value.id) == timer.taskId
      ensures r.Some? ==> r.value.durationMinutes * 60 == timer.totalSeconds
    {
      if timer.taskId.None? then None
      else
        var r := Find(tasks, timer.taskId.value);
        assert r.Some? ==> OwnsAt(tasks, IndexOf(tasks, timer.taskId.value), timer.taskId.value, timer.totalSeconds) by {
          if r.Some? {
            ghost var k :| OwnsAt(tasks, k, timer.taskId.value, timer.totalSeconds);
            var j := IndexOf(tasks, timer.taskId.value);
            assert k == j;
          }
        }
        r
    }

    /** One second of the running countdown. */
    method Tick()
      requires Valid() && Counting(timer)
      modifies this
      ensures Valid()
      ensures timer == TickStep(old(timer)) && tasks == old(tasks)
    {
      timer := TickStep(timer);
    }

    /** Once the countdown is complete, its task is marked completed. */
    method MarkCompleted()
      requires Valid()
      modifies this
      ensures Valid()
      ensures timer == old(timer)
      ensures tasks == if timer.isComplete && Truthy(timer.taskId)
                       then WithStatus(old(tasks), timer.taskId.value, Completed)
                       else old(tasks)
    {
      if timer.isComplete && Truthy(timer.taskId) {
        ghost var k :| OwnsAt(tasks, k, timer.taskId.value, timer.totalSeconds);
        WithStatusActiveCount(tasks, timer.taskId.value, Completed);
        tasks := WithStatus(tasks, timer.taskId.value, Completed);
        assert OwnsAt(tasks, k, timer.taskId.value, timer.totalSeconds);
      }
    }

    /** Appends a new pending task; `id` stands for the fresh UUID. */
    method AddTask(id: string, name: string, durationMinutes: nat)
      requires Valid()
      requires id != "" && !HasId(tasks, id)
      modifies this
      ensures Valid()
      ensures tasks == old(tasks) + [Task(id, name, durationMinutes, Pending)]
      ensures timer == old(timer)
    {
      var t := Task(id, name, durationMinutes, Pending);
      ActiveCountAppend(tasks, [t]);
      if timer.taskId.Some? {
        ghost var k :| OwnsAt(tasks, k, timer.taskId.value, timer.totalSeconds);
        tasks := tasks + [t];
        assert OwnsAt(tasks, k, timer.taskId.value, timer.totalSeconds);
      } else {
        tasks := tasks + [t];
      }
    }

    /** Removes every task with `id`; a timer that belonged to it goes idle. */
    method DeleteTask(id: string)
      requires Valid()
      modifies this
      ensures Valid()
      ensures tasks == Deleted(old(tasks), id)
      ensures timer == if old(timer).taskId == Some(id) then IdleTimer() else old(timer)
    {
      DeletedActiveCount(tasks, id);
      DeletedUnique(tasks, id);
      var before := tasks;
      tasks := Deleted(tasks, id);
      if timer.taskId == Some(id) {
        timer := IdleTimer();
      } else if timer.taskId.Some? {
        ghost var k :| OwnsAt(before, k, timer.taskId.value, timer.totalSeconds);
        assert before[k] in tasks;
        ghost var j :| 0 <= j < |tasks| && tasks[j] == before[k];
        assert OwnsAt(tasks, j, timer.taskId.value, timer.totalSeconds);
      }
    }

    /** Makes the task with `id` the active one and, if it exists, gives the
        timer to it, counting down from its full duration. */
    method StartTask(id: string)
      requires Valid()
      modifies this
      ensures Valid()
      ensures tasks == Started(old(tasks), id)
      ensures forall k :: 0 <= k < |tasks| ==> (tasks[k].status == Active <==> tasks[k].id == id)
      ensures HasId(old(tasks), id) ==>
        ActiveCount(tasks) == 1 && timer == StartTimer(id, Find(old(tasks), id).value.durationMinutes)
      ensures !HasId(old(tasks), id) ==> ActiveCount(tasks) == 0 && timer == old(timer)
    {
      var task := Find(tasks, id);
      StartedSingleActive(tasks, id);
      var before := tasks;
      tasks := Started(tasks, id);
      if task.None? {
        if timer.taskId.Some? {
          ghost var k :| OwnsAt(before, k, timer.taskId.value, timer.totalSeconds);
          assert OwnsAt(tasks, k, timer.taskId.value, timer.totalSeconds);
        }
        return;
      }
      var totalSeconds := task.value.durationMinutes * 60;
      timer := TimerState(Some(id), totalSeconds, totalSeconds, false, false);
      assert OwnsAt(tasks, IndexOf(before, id), id, timer.totalSeconds);
    }

    /** Pauses a running countdown or resumes a paused one. */
    method TogglePause()
      requires Valid()
      modifies this
      ensures Valid()
      ensures timer == TogglePaused(old(timer)) && tasks == old(tasks)
    {
      timer := timer.(isPaused := !timer.isPaused);
      assert timer.taskId == old(timer).taskId;
    }

    /** Drops the timer; the task keeps its status. Doing it twice is the same
        as doing it once, since the result does not depend on the old timer. */
    method DismissTimer()
      requires Valid()
      modifies this
      ensures Valid()
      ensures timer == IdleTimer() && tasks == old(tasks)
    {
      timer := IdleTimer();
    }

    /** Moves the task `activeId` to the position of `overId`. */
    method ReorderTasks(activeId: string, overId: string)
      requires Valid()
      modifies this
      ensures Valid()
      ensures tasks == Reordered(old(tasks), activeId, overId) && timer == old(timer)
    {
      var oldIndex := FindIndex(tasks, activeId);
      var newIndex := FindIndex(tasks, overId);
      if oldIndex == -1 || newIndex == -1 {
        return;
      }
      ghost var before := tasks;
      var next := tasks;
      var moved := next[oldIndex];
      next := next[..oldIndex] + next[oldIndex + 1..];
      next := next[..newIndex] + [moved] + next[newIndex..];
      assert next == Insert(Remove(before, oldIndex), newIndex, before[oldIndex]);
      ReorderedActiveCount(before, activeId, overId);
      ReorderedUnique(before, activeId, overId);
      PermutedMembers(before, next);
      if timer.taskId.Some? {
        ReorderedKeepsOwner(before, activeId, overId, timer.taskId.value, timer.totalSeconds);
      }
      tasks := next;
    }

    /** Puts the task with `id` back to pending. */
    method ResetTask(id: string)
      requires Valid()
      modifies this
      ensures Valid()
      ensures tasks == WithStatus(old(tasks), id, Pending) && timer == old(timer)
    {
      WithStatusActiveCount(tasks, id, Pending);
      if timer.taskId.Some? {
        ghost var k :| OwnsAt(tasks, k, timer.taskId.value, timer.totalSeconds);
        tasks := WithStatus(tasks, id, Pending);
        assert OwnsAt(tasks, k, timer.taskId.value, timer.totalSeconds);
      } else {
        tasks := WithStatus(tasks, id, Pending);
      }
    }
  }
}

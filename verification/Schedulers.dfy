/** The scheduler's code (kernel/src/Scheduler.cpp) on its task queue, proved against the state machine of Processes. */
module Schedulers {
  import opened Common
  import opened Processes
  import opened Switching
  import opened Timers
  import opened WakeSources

  // ---- Task lists as maps by pid ----

  ghost predicate Unique(tasks: seq<Task>) {
    forall i, j :: 0 <= i < j < |tasks| ==> tasks[i].pid != tasks[j].pid
  }

  ghost function ByPid(tasks: seq<Task>): map<nat, Task> {
    if tasks == [] then map[] else ByPid(tasks[..|tasks| - 1])[tasks[|tasks| - 1].pid := tasks[|tasks| - 1]]
  }

  lemma ByPidAppended(tasks: seq<Task>, task: Task)
    ensures ByPid(tasks + [task]) == ByPid(tasks)[task.pid := task]
  {
    assert (tasks + [task])[..|tasks|] == tasks;
  }

  lemma {:induction false} ByPidAt(tasks: seq<Task>, i: nat)
    requires Unique(tasks) && i < |tasks|
    ensures tasks[i].pid in ByPid(tasks) && ByPid(tasks)[tasks[i].pid] == tasks[i]
  {
    if i < |tasks| - 1 { ByPidAt(tasks[..|tasks| - 1], i); }
  }

  lemma {:induction false} ByPidFinds(tasks: seq<Task>, pid: nat)
    requires pid in ByPid(tasks)
    ensures exists i :: 0 <= i < |tasks| && tasks[i].pid == pid && ByPid(tasks)[pid] == tasks[i]
  {
    var n := |tasks|;
    if tasks[n - 1].pid == pid {
      assert tasks[n - 1].pid == pid && ByPid(tasks)[pid] == tasks[n - 1];
    } else {
      var init := tasks[..n - 1];
      ByPidFinds(init, pid);
      var i :| 0 <= i < |init| && init[i].pid == pid && ByPid(init)[pid] == init[i];
      assert tasks[i].pid == pid && ByPid(tasks)[pid] == tasks[i];
    }
  }

  lemma {:induction false} ByPidUpdated(tasks: seq<Task>, i: nat, task: Task)
    requires Unique(tasks) && i < |tasks| && task.pid == tasks[i].pid
    ensures Unique(tasks[i := task]) && ByPid(tasks[i := task]) == ByPid(tasks)[task.pid := task]
  {
    var n := |tasks|;
    var init := tasks[..n - 1];
    if i == n - 1 {
      assert tasks[i := task][..n - 1] == init;
    } else {
      ByPidUpdated(init, i, task);
      assert tasks[i := task][..n - 1] == init[i := task];
      assert tasks[n - 1].pid != task.pid;
    }
  }

  lemma {:induction false} ByPidRemoved(tasks: seq<Task>, i: nat)
    requires Unique(tasks) && i < |tasks|
    ensures Unique(tasks[..i] + tasks[i + 1..]) && ByPid(tasks[..i] + tasks[i + 1..]) == ByPid(tasks) - {tasks[i].pid}
  {
    var n := |tasks|;
    var init, last := tasks[..n - 1], tasks[n - 1];
    assert ByPid(tasks) == ByPid(init)[last.pid := last];
    RemovedIsUnique(tasks, i);
    LastIsNew(tasks);
    MinusUpdated(ByPid(init), tasks[i].pid, last.pid, last);
    hide ByPid, Unique;
    if i == n - 1 {
      assert tasks[..i] + tasks[i + 1..] == init;
    } else {
      ByPidRemoved(init, i);
      var removed := init[..i] + init[i + 1..];
      assert tasks[..i] + tasks[i + 1..] == removed + [last];
      ByPidAppended(removed, last);
    }
  }

  lemma MinusUpdated(m: map<nat, Task>, x: nat, k: nat, v: Task)
    ensures k != x ==> m[k := v] - {x} == (m - {x})[k := v]
    ensures k == x && x !in m ==> m[k := v] - {x} == m
  {
  }

  lemma RemovedIsUnique(tasks: seq<Task>, i: nat)
    requires Unique(tasks) && i < |tasks|
    ensures Unique(tasks[..i] + tasks[i + 1..])
  {
    var removed := tasks[..i] + tasks[i + 1..];
    assert forall k :: 0 <= k < |removed| ==> removed[k] == tasks[if k < i then k else k + 1];
  }

  lemma LastIsNew(tasks: seq<Task>)
    requires Unique(tasks) && tasks != []
    ensures Unique(tasks[..|tasks| - 1]) && forall i :: 0 <= i < |tasks| - 1 ==> tasks[i].pid != tasks[|tasks| - 1].pid
    ensures tasks[|tasks| - 1].pid !in ByPid(tasks[..|tasks| - 1])
  {
    var init, pid := tasks[..|tasks| - 1], tasks[|tasks| - 1].pid;
    assert forall i :: 0 <= i < |init| ==> init[i] == tasks[i];
    hide ByPid;
    if pid in ByPid(init) { ByPidFinds(init, pid); }
  }

  /** Taking a task out of the queue and running it changes nothing in the map. */
  lemma ByPidMoved(tasks: seq<Task>, i: nat)
    requires Unique(tasks) && i < |tasks|
    ensures var moved := tasks[..i] + tasks[i + 1..] + [tasks[i]]; Unique(moved) && ByPid(moved) == ByPid(tasks)
  {
    var removed := tasks[..i] + tasks[i + 1..];
    ByPidRemoved(tasks, i);
    ByPidAt(tasks, i);
    ByPidAppended(removed, tasks[i]);
    assert forall k :: 0 <= k < |removed| ==> removed[k] == tasks[if k < i then k else k + 1];
  }

  // ---- Timer updates on the queue ----

  /** The queue after the entries from index `k` on were handled, last one first. */
  ghost function WokenQueue(queue: seq<Task>, timers: seq<TimerEntry>, k: nat, delta: nat): (r: seq<Task>)
    requires k <= |timers|
    ensures |r| == |queue|
  {
    seq(|queue|, j requires 0 <= j < |queue| =>
      if WokenBy(timers[k..], delta, queue[j].pid) then Unsuspended(queue[j], 0) else queue[j])
  }

  /** A pid is woken when some entry of it that unblocks has expired. */
  lemma {:induction false} WokenByAny(timers: seq<TimerEntry>, delta: nat, pid: nat)
    ensures WokenBy(timers, delta, pid) <==>
            exists i :: 0 <= i < |timers| && timers[i].pid == pid && timers[i].unblockOnExpire
                        && timers[i].milliseconds <= delta
  {
    if timers != [] {
      var rest := timers[1..];
      WokenByAny(rest, delta, pid);
      assert forall i :: 0 <= i < |rest| ==> rest[i] == timers[i + 1];
      assert forall i :: 1 <= i < |timers| ==> timers[i] == rest[i - 1];
    }
  }

  /** What an update makes of the queue: Normal with return value 0 is exactly each task of which an entry that unblocks
      has no time left. */
  lemma WokenTasks(queue: seq<Task>, timers: seq<TimerEntry>, delta: nat)
    ensures forall j :: 0 <= j < |queue| ==>
              WokenQueue(queue, timers, 0, delta)[j] ==
              if exists i :: 0 <= i < |timers| && timers[i].pid == queue[j].pid && timers[i].unblockOnExpire
                             && timers[i].milliseconds <= delta
              then queue[j].(state := Normal, returnValue := 0) else queue[j]
  {
    hide WokenBy;
    assert timers[0..] == timers;
    forall p {
      WokenByAny(timers, delta, p);
    }
  }

  lemma {:induction false} ByPidWoken(queue: seq<Task>, timers: seq<TimerEntry>, delta: nat)
    requires Unique(queue)
    ensures Unique(WokenQueue(queue, timers, 0, delta))
    ensures ByPid(WokenQueue(queue, timers, 0, delta)) == Woken(ByPid(queue), timers, delta)
  {
    hide WokenBy;
    assert timers[0..] == timers;
    if queue != [] {
      var init, last := queue[..|queue| - 1], queue[|queue| - 1];
      ByPidWoken(init, timers, delta);
      assert WokenQueue(queue, timers, 0, delta)[..|queue| - 1] == WokenQueue(init, timers, 0, delta);
    }
  }

  lemma {:induction false} SourcesSplit(timers: seq<TimerEntry>, i: nat, p: nat)
    requires i <= |timers|
    ensures TimerSources(timers, p) == TimerSources(timers[..i], p) + TimerSources(timers[i..], p)
  {
    if i > 0 {
      SourcesSplit(timers[1..], i - 1, p);
      assert timers[..i][1..] == timers[1..][..i - 1] && timers[1..][i - 1..] == timers[i..];
    }
  }

  /** Every pid with a timer entry has just one, and its task is in the queue, suspended. */
  ghost predicate SleepersQueued(queue: seq<Task>, timers: seq<TimerEntry>) {
    forall p {:trigger TimerSources(timers, p)} :: TimerSources(timers, p) > 0 ==>
      TimerSources(timers, p) == 1 && exists j :: 0 <= j < |queue| && queue[j].pid == p && Suspended(queue[j])
  }

  lemma CoreQueuesSleepers(queue: seq<Task>, w: World)
    requires OneWakeSource(w) && w.tasks == ByPid(queue)
    ensures SleepersQueued(queue, w.timers)
  {
    hide TimerSources, ByPid, ReaderSources;
    forall p | TimerSources(w.timers, p) > 0
      ensures TimerSources(w.timers, p) == 1 && exists j :: 0 <= j < |queue| && queue[j].pid == p && Suspended(queue[j])
    {
      assert TimerSources(w.timers, p) + ReaderSources(w.readers, p) ==
             if p in w.tasks && w.tasks[p].state == Blocked then 1 else 0;
      ByPidFinds(queue, p);
    }
  }

  /** The entry about to expire wakes a task that no later entry has woken. */
  lemma NotWokenTwice(queue: seq<Task>, timers: seq<TimerEntry>, i: nat, delta: nat)
    requires SleepersQueued(queue, timers) && i < |timers| && timers[i].unblockOnExpire
    ensures !WokenBy(timers[i + 1..], delta, timers[i].pid)
    ensures exists j :: 0 <= j < |queue| && queue[j].pid == timers[i].pid && Suspended(queue[j])
  {
    var p := timers[i].pid;
    SourcesSplit(timers, i, p);
    assert timers[i..][0] == timers[i] && timers[i..][1..] == timers[i + 1..];
    TimerSourcesRemaining(timers[i + 1..], delta, p);
    assert TimerSources(timers, p) > 0;
  }

  lemma WokenQueueStep(queue: seq<Task>, timers: seq<TimerEntry>, i: nat, delta: nat, j: nat)
    requires Unique(queue) && i < |timers| && j < |queue|
    ensures var before, after := WokenQueue(queue, timers, i + 1, delta), WokenQueue(queue, timers, i, delta);
            && (timers[i].unblockOnExpire && Expires(timers[i], delta) && queue[j].pid == timers[i].pid ==>
                after == before[j := Unsuspended(before[j], 0)])
            && (!(timers[i].unblockOnExpire && Expires(timers[i], delta)) ==> after == before)
  {
    assert timers[i..][0] == timers[i] && timers[i..][1..] == timers[i + 1..];
  }

  lemma RemainingStep(timers: seq<TimerEntry>, i: nat, delta: nat)
    requires i < |timers|
    ensures Remaining(timers[i..], delta) ==
            (if Expires(timers[i], delta) then [] else [timers[i].(milliseconds := timers[i].milliseconds - delta)])
            + Remaining(timers[i + 1..], delta)
  {
    assert timers[i..][0] == timers[i] && timers[i..][1..] == timers[i + 1..];
  }

  /** The selection, started over at a later place. */
  lemma SelectFrom(queue: seq<Task>, j: nat)
    requires j < |queue|
    ensures var here, next := Select(queue[j..]), Select(queue[j + 1..]);
            && (queue[j].state != Normal ==> here == Selection(next.popped, [queue[j]] + next.rest))
            && (queue[j].state == Normal && j + 1 == |queue| ==> here == Selection([queue[j]], []))
            && (queue[j].state == Normal && j + 1 < |queue| ==>
                  var after := Select(queue[j + 2..]);
                  here == Selection([queue[j]] + after.popped, [queue[j + 1]] + after.rest))
  {
    assert queue[j..][0] == queue[j] && queue[j..][1..] == queue[j + 1..];
    if j + 1 < |queue| { assert queue[j..][1] == queue[j + 1] && queue[j..][2..] == queue[j + 2..]; }
  }

  /** A switch from these tasks takes at most one out of the queue, so that none is lost; see
      Switching.ConservationExact. */
  ghost predicate Lossless(before: seq<Task>, timers: seq<TimerEntry>, delta: nat) {
    |Select(WokenQueue(before, timers, 0, delta)).popped| <= 1
  }

  class Scheduler {
    var taskQueue: seq<Task>
    var currentTask: Task
    var restoreFrame: bool
    var timerEntries: seq<TimerEntry>
    var currentTimerTime: nat
    var millisecondsPassed: nat
    var nextPid: nat
    /** The pids in the terminal's unblock queue. */
    ghost var readers: seq<nat>

    const idleTask: Task

    constructor (first: Task, idle: Task)
      requires first == Task(1, 0, Normal, 0, [], 0, User, 0)
      ensures Boot(Now()) && Valid() && taskQueue == [first] && !restoreFrame && currentTimerTime == DEFAULT_TIME
      ensures idleTask == idle && TimerState() == Timers.State([], Closest([]), 0)
    {
      idleTask := idle;
      taskQueue, currentTask, restoreFrame := [first], idle, false;
      timerEntries, currentTimerTime, millisecondsPassed, nextPid := [], DEFAULT_TIME, 0, 2;
      readers := [];
      new;
      assert [first][..0] == [];
      assert ByPid([first]) == map[1 := first];
      BootIsFine(Now());
    }

    /** Every task but the idle one. */
    ghost function Tasks(): seq<Task>
      reads this
    {
      if restoreFrame then taskQueue + [currentTask] else taskQueue
    }

    ghost function Now(): World
      reads this
    {
      World(ByPid(Tasks()), if restoreFrame then currentTask.pid else 0, timerEntries, readers, nextPid)
    }

    ghost predicate Valid()
      reads this
    {
      Unique(Tasks()) && Inv(Now())
    }

    /** What the timer knows; the methods of this class move it by the steps of Timers. */
    ghost function TimerState(): Timers.State
      reads this
    {
      Timers.State(timerEntries, currentTimerTime, millisecondsPassed)
    }

    /** GetTask: panics, which the callers exclude, when no task in the queue has the pid. */
    method GetTask(pid: nat) returns (index: nat)
      requires exists j :: 0 <= j < |taskQueue| && taskQueue[j].pid == pid
      ensures index < |taskQueue| && taskQueue[index].pid == pid
    {
      index := 0;
      while taskQueue[index].pid != pid
        invariant 0 <= index < |taskQueue| && forall j :: 0 <= j < index ==> taskQueue[j].pid != pid
        decreases |taskQueue| - index
      {
        index := index + 1;
      }
    }

    method ConfigureTimerClosestExpiry()
      modifies this`currentTimerTime
      ensures currentTimerTime == Closest(timerEntries)
    {
      var closestTime := DEFAULT_TIME;
      var i := |timerEntries|;
      while i > 0
        invariant 0 <= i <= |timerEntries| && closestTime == Closest(timerEntries[i..])
      {
        i := i - 1;
        assert timerEntries[i..][0] == timerEntries[i] && timerEntries[i..][1..] == timerEntries[i + 1..];
        if timerEntries[i].milliseconds < closestTime { closestTime := timerEntries[i].milliseconds; }
      }
      assert timerEntries[0..] == timerEntries;
      currentTimerTime := closestTime;
    }

    /** Wakes the sleepers whose time is up; every one of them is found in the queue, suspended. */
    method UpdateTimerEntries(delta: nat)
      requires Unique(taskQueue) && SleepersQueued(taskQueue, timerEntries)
      modifies this`taskQueue, this`timerEntries, this`millisecondsPassed
      ensures taskQueue == WokenQueue(old(taskQueue), old(timerEntries), 0, delta)
      ensures timerEntries == Remaining(old(timerEntries), delta)
      ensures millisecondsPassed == old(millisecondsPassed) + delta
    {
      hide WokenBy, TimerSources, Remaining;
      ghost var queue, timers := taskQueue, timerEntries;
      millisecondsPassed := millisecondsPassed + delta;
      NothingLeft(queue, timers, delta);
      var i := |timerEntries|;
      while i > 0
        invariant 0 <= i <= |timers|
        invariant taskQueue == WokenQueue(queue, timers, i, delta)
        invariant timerEntries == timers[..i] + Remaining(timers[i..], delta)
        invariant millisecondsPassed == old(millisecondsPassed) + delta
      {
        i := i - 1;
        var timerEntry := timerEntries[i];
        assert timerEntry == timers[i];
        RemainingStep(timers, i, delta);
        if timerEntry.milliseconds <= delta {
          if timerEntry.unblockOnExpire {
            NotWokenTwice(queue, timers, i, delta);
            ghost var sleeper :|
              0 <= sleeper < |queue| && queue[sleeper].pid == timers[i].pid && Suspended(queue[sleeper]);
            assert taskQueue[sleeper].pid == timerEntry.pid;
            var j := GetTask(timerEntry.pid);
            WokenQueueStep(queue, timers, i, delta, j);
            assert Suspended(taskQueue[j]);
            taskQueue := taskQueue[j := Unsuspended(taskQueue[j], 0)];
          } else {
            SameWokenQueue(queue, timers, i, delta);
          }
          timerEntries := timerEntries[..i] + timerEntries[i + 1..];
        } else {
          SameWokenQueue(queue, timers, i, delta);
          timerEntries := timerEntries[i := timerEntry.(milliseconds := timerEntry.milliseconds - delta)];
        }
      }
      assert timers[0..] == timers;
    }

    /** The selection loop. */
    method SelectNextTask() returns (foundNewTask: bool)
      modifies this`taskQueue, this`currentTask
      ensures taskQueue == Select(old(taskQueue)).rest
      ensures foundNewTask <==> Select(old(taskQueue)).popped != []
      ensures currentTask ==
              if foundNewTask then Select(old(taskQueue)).popped[|Select(old(taskQueue)).popped| - 1]
              else old(currentTask)
    {
      hide Select, Scanned;
      ghost var queue := taskQueue;
      ghost var popped: seq<Task>, j := [], 0;
      ScanStarts(queue);
      foundNewTask := false;
      var i := 0;
      while i < |taskQueue|
        invariant 0 <= i && Scanned(queue, taskQueue, i, j, popped)
        invariant foundNewTask <==> popped != []
        invariant currentTask == if foundNewTask then popped[|popped| - 1] else old(currentTask)
        decreases |queue| - j
      {
        ScanSteps(queue, taskQueue, i, j, popped);
        if taskQueue[i].state == Normal {
          currentTask := taskQueue[i];
          taskQueue := taskQueue[..i] + taskQueue[i + 1..];
          foundNewTask := true;
          popped := popped + [currentTask];
          j := if j + 1 < |queue| then j + 2 else j + 1;
        } else {
          j := j + 1;
        }
        i := i + 1;
      }
      ScanEnds(queue, taskQueue, i, j, popped);
    }

    /** What a switch makes of the tasks `before`, when the world is otherwise `w`. `delta` is the time the timer
        reports. */
    ghost predicate SwitchedFrom(w: World, before: seq<Task>, delta: nat)
      reads this
    {
      && Unique(before) && ByPid(before) == w.tasks
      && (var selection := Select(WokenQueue(before, w.timers, 0, delta));
          && taskQueue == selection.rest && (restoreFrame <==> selection.popped != [])
          && currentTask == if restoreFrame then selection.popped[|selection.popped| - 1] else idleTask)
      && timerEntries == Remaining(w.timers, delta) && currentTimerTime == Closest(timerEntries)
      && readers == w.readers && nextPid == w.nextPid
    }

    /** Exactly what a switch does to the queue. It may lose Normal tasks, but keeps every wake source; when its
        selection loses no task, it is a switch of the state machine. */
    method SwitchToNextTask(delta: nat)
      requires Unique(Tasks()) && OneWakeSource(Now()) && PidsValid(Now()) && 1 <= delta <= currentTimerTime
      modifies this
      ensures SwitchedFrom(old(Now()), old(Tasks()), delta)
      ensures Timers.Step(old(TimerState()), Update(delta), TimerState())
      ensures Unique(Tasks()) && LossySwitched(old(Now()), delta, Now()) && Awake(Now())
      ensures Lossless(old(Tasks()), old(timerEntries), delta) ==>
                Switched(old(Now()), delta, Now()) && (old(Core(Now())) ==> Valid())
    {
      hide Select, WokenQueue, Remaining, Closest, Core, Woken, ByPid, Inv, OneWakeSource, SleepersQueued, Unique,
           LossySwitched, Awake, Switched, PidsValid;
      ghost var w := Now();
      if restoreFrame { taskQueue := taskQueue + [currentTask]; }
      restoreFrame := true;
      CoreQueuesSleepers(taskQueue, w);
      ByPidWoken(taskQueue, timerEntries, delta);
      UpdateTimerEntries(delta);
      ghost var before := taskQueue;
      var foundNewTask := SelectNextTask();
      if !foundNewTask {
        restoreFrame := false;
        currentTask := idleTask;
      }
      ConfigureTimerClosestExpiry();
      SelectionIsLossy(w, delta, before, Now());
      LossySwitchKeeps(w, delta, Now());
      if |Select(before).popped| <= 1 {
        SelectionIsLossless(w, delta, before, Now());
        if Core(w) { SwitchKeeps(w, delta, Now()); }
      }
    }

    method ForkCurrentTask() returns (childPid: nat)
      requires Valid() && restoreFrame && currentTask.resume == User
      modifies this`taskQueue, this`currentTask, this`nextPid
      ensures Now() == Forked(old(Now())) && Valid() && childPid == old(nextPid)
      ensures taskQueue == old(taskQueue) + [Task(childPid, old(currentTask).pid, Normal, 0, [], 0, User, 0)]
      ensures currentTask == old(currentTask).(children := old(currentTask).children + [childPid])
    {
      ghost var w := Now();
      CurrentIsRunning(taskQueue, currentTask);
      var child := Task(nextPid, currentTask.pid, Normal, 0, [], 0, User, 0);
      nextPid := nextPid + 1;
      ForkedQueue(taskQueue, currentTask, child, w);
      currentTask := currentTask.(children := currentTask.children + [child.pid]);
      taskQueue := taskQueue + [child];
      childPid := child.pid;
      ForkKeeps(w);
    }

    method ExitCurrentTask(status: int, delta: nat) returns (ghost before: seq<Task>)
      requires Valid() && restoreFrame && currentTask.resume == User && 1 <= delta <= currentTimerTime
      modifies this
      ensures old(currentTask).pid == old(Now()).running && old(Now()).running in old(Now()).tasks
      ensures SwitchedFrom(Exited(old(Now()), status), before, delta)
      ensures Timers.Step(old(TimerState()), Update(delta), TimerState())
      ensures |before| == |old(taskQueue)| + 1
      ensures before[|before| - 1] == old(currentTask).(state := Terminated, exitStatus := status)
      ensures forall j :: 0 <= j < |before| - 1 ==>
                var task, current := old(taskQueue)[j], old(currentTask);
                before[j] ==
                if && current.pid != 1 && task.pid == current.parentPid && task.state == WaitingForChild
                   && (task.suspensionArg == 0 || task.suspensionArg == current.pid)
                then task.(state := Normal, returnValue := current.pid) else task
      ensures Lossless(before, old(timerEntries), delta) ==>
                Switched(Exited(old(Now()), status), delta, Now()) && Valid()
    {
      hide Core, ByPid, Switched, Exited, Unique, Lossless, Select, WokenQueue, Remaining, Closest, OneWakeSource,
           PidsValid, LossySwitched, Awake;
      ghost var w, queue, task := Now(), taskQueue, currentTask;
      RunningTask(taskQueue, currentTask, w);
      CoreSources(w);
      ExitKeeps(w, status);
      currentTask := currentTask.(state := Terminated, exitStatus := status);
      if currentTask.pid != 1 {
        ParentIsQueued(queue, task, w);
        ghost var at :| 0 <= at < |queue| && queue[at].pid == task.parentPid;
        assert taskQueue[at].pid == currentTask.parentPid;
        var parent := GetTask(currentTask.parentPid);
        ExitedQueue(queue, task, status, parent, w);
        OnlyOne(queue, task, parent);
        if taskQueue[parent].state == WaitingForChild
           && (taskQueue[parent].suspensionArg == 0 || taskQueue[parent].suspensionArg == currentTask.pid) {
          taskQueue := taskQueue[parent := Unsuspended(taskQueue[parent], currentTask.pid)];
        }
      } else {
        ExitedFirst(queue, task, status, w);
      }
      CoreSources(Exited(w, status));
      assert Now() == Exited(w, status);
      before := Tasks();
      SwitchToNextTask(delta);
    }

    /** SuspendSystemCall up to its switch; its first assert holds. */
    method SuspendSystemCall(newTaskState: TaskState, argument: nat, resume: Resume)
      requires Unique(Tasks()) && restoreFrame && currentTask.state == Normal
      modifies this`currentTask
      ensures Unique(Tasks()) && Now().running == old(Now()).running && old(Now()).running in old(Now()).tasks
      ensures Now() ==
              Replaced(old(Now()),
                       old(currentTask).(state := newTaskState, suspensionArg := argument, resume := resume))
      ensures old(Now()).tasks[old(Now()).running] == old(currentTask)
      ensures currentTask == old(currentTask).(state := newTaskState, suspensionArg := argument, resume := resume)
    {
      CurrentIsRunning(taskQueue, currentTask);
      ReplacedCurrent(taskQueue, currentTask,
                      currentTask.(state := newTaskState, suspensionArg := argument, resume := resume));
      assert currentTask.state == Normal;
      currentTask := currentTask.(state := newTaskState, suspensionArg := argument, resume := resume);
    }

    /** The caller sleeps; `delta` is the time of the switch. */
    method SleepCurrentTask(milliseconds: nat, delta: nat) returns (ghost before: seq<Task>)
      requires Valid() && restoreFrame && currentTask.resume == User && milliseconds > 0
      requires 1 <= delta <= currentTimerTime
      modifies this
      ensures old(Now()).running in old(Now()).tasks
      ensures SwitchedFrom(Sleeping(old(Now()), milliseconds), before, delta)
      ensures var entry := TimerEntry(milliseconds, true, old(currentTask).pid);
              var asleep := old(TimerState()).(timers := old(timerEntries) + [entry]);
              && Timers.Step(old(TimerState()), Push(milliseconds, old(currentTask).pid), asleep)
              && Timers.Step(asleep, Update(delta), TimerState())
      ensures before == old(taskQueue) + [old(currentTask).(state := Blocked, suspensionArg := 0, resume := InSleep)]
      ensures Lossless(before, Sleeping(old(Now()), milliseconds).timers, delta) ==>
                Switched(Sleeping(old(Now()), milliseconds), delta, Now()) && Valid()
    {
      hide Core, ByPid, Switched, Unique, OneWakeSource, PidsValid, Lossless, Select, WokenQueue, Remaining, Closest;
      ghost var w := Now();
      RunningTask(taskQueue, currentTask, w);
      SleepKeeps(w, milliseconds);
      CoreSources(Sleeping(w, milliseconds));
      timerEntries := timerEntries + [TimerEntry(milliseconds, true, currentTask.pid)];
      SuspendSystemCall(Blocked, 0, InSleep);
      assert Now() == Sleeping(w, milliseconds);
      before := Tasks();
      SwitchToNextTask(delta);
    }

    /** A terminal read that has to wait: the caller joins the terminal's unblock queue. */
    method SuspendReader(delta: nat) returns (ghost before: seq<Task>)
      requires Valid() && restoreFrame && currentTask.resume == User && 1 <= delta <= currentTimerTime
      modifies this
      ensures old(Now()).running in old(Now()).tasks && readers == old(readers) + [old(currentTask).pid]
      ensures SwitchedFrom(Reading(old(Now())), before, delta)
      ensures Timers.Step(old(TimerState()), Update(delta), TimerState())
      ensures before == old(taskQueue) + [old(currentTask).(state := Blocked, suspensionArg := 0, resume := InRead)]
      ensures Lossless(before, old(timerEntries), delta) ==> Switched(Reading(old(Now())), delta, Now()) && Valid()
    {
      hide Core, ByPid, Switched, Unique, OneWakeSource, PidsValid, Lossless, Select, WokenQueue, Remaining, Closest;
      ghost var w := Now();
      RunningTask(taskQueue, currentTask, w);
      ReadKeeps(w);
      CoreSources(Reading(w));
      readers := readers + [currentTask.pid];
      SuspendSystemCall(Blocked, 0, InRead);
      assert Now() == Reading(w);
      before := Tasks();
      SwitchToNextTask(delta);
    }

    /** A key press wakes the first reader; it is found in the queue, Blocked. */
    method UnsuspendReader(pid: nat)
      requires Valid() && readers != [] && pid == readers[0]
      modifies this`taskQueue, this`readers
      ensures pid in old(Now()).tasks && Now() == KeyPressed(old(Now())) && Valid()
      ensures readers == old(readers)[1..] && |taskQueue| == |old(taskQueue)|
      ensures exists i :: 0 <= i < |taskQueue| && old(taskQueue)[i].pid == pid && old(taskQueue)[i].state == Blocked
                          && taskQueue == old(taskQueue)[i := old(taskQueue)[i].(state := Normal, returnValue := 0)]
    {
      hide Core, ByPid, Unique, Inv, KeyPressed;
      ghost var w, queue := Now(), taskQueue;
      KeyKeeps(w);
      ReaderIsQueued(queue, Tasks(), w);
      var index := GetTask(pid);
      TasksUpdated(queue, currentTask, restoreFrame, index, Unsuspended(queue[index], 0));
      assert Suspended(taskQueue[index]);
      taskQueue := taskQueue[index := Unsuspended(taskQueue[index], 0)];
      readers := readers[1..];
      KeyUpdates(w, Now());
    }

    /** Execute up to its return to the new program. */
    method Execute(delta: nat) returns (ghost before: seq<Task>)
      requires Valid() && restoreFrame && currentTask.resume == User && 1 <= delta <= currentTimerTime
      modifies this
      ensures old(Now()).running in old(Now()).tasks
      ensures SwitchedFrom(Executed(old(Now())), before, delta)
      ensures Timers.Step(old(TimerState()), Update(delta), TimerState())
      ensures var task := old(currentTask);
              before == old(taskQueue) + [Task(task.pid, task.parentPid, Normal, 0, [], 0, User, 0)]
      ensures Lossless(before, old(timerEntries), delta) ==> Switched(Executed(old(Now())), delta, Now())
      ensures Lossless(before, old(timerEntries), delta) && old(currentTask).children == [] ==> Valid()
    {
      hide Core, ByPid, Unique, OneWakeSource, PidsValid, Lossless, Select, WokenQueue, Remaining, Closest, Woken;
      ghost var w, queue, task := Now(), taskQueue, currentTask;
      RunningTask(taskQueue, currentTask, w);
      InvIsAwake(w);
      ExecuteSources(w);
      if task.children == [] { ExecuteKeeps(w); }
      ghost var w1 := Executed(w).(running := 0);
      IdleSame(Executed(w), w1);
      taskQueue := taskQueue + [Task(currentTask.pid, currentTask.parentPid, Normal, 0, [], 0, User, 0)];
      ReplacedCurrent(queue, task, taskQueue[|queue|]);
      restoreFrame := false;
      assert Now() == w1;
      before := Tasks();
      SwitchToNextTask(delta);
    }

    /** The first child, in the order of the list, that can be reaped; 0 if there is none. */
    method FindReapable(pid: nat) returns (childPid: nat)
      requires Valid() && restoreFrame
      ensures Now().running in Now().tasks
      ensures childPid == 0 <==> forall c :: !Reapable(Now(), pid, c)
      ensures childPid != 0 ==>
                exists i ::
                  0 <= i < |currentTask.children| && FirstReapable(Now(), pid, i) && currentTask.children[i] == childPid
    {
      hide Core, ByPid, Unique, Inv;
      ghost var w := Now();
      RunningTask(taskQueue, currentTask, w);
      ChildrenQueued(taskQueue, currentTask, w);
      childPid := 0;
      var i := 0;
      while i < |currentTask.children|
        invariant 0 <= i <= |currentTask.children| && childPid == 0
        invariant forall j :: 0 <= j < i ==> !Reapable(w, pid, currentTask.children[j])
      {
        assert ChildQueued(taskQueue, w, currentTask.children[i]);
        var index := GetTask(currentTask.children[i]);
        QueuedTask(taskQueue, currentTask, index);
        if taskQueue[index].state == Terminated && (pid == 0 || pid == taskQueue[index].pid) {
          childPid := taskQueue[index].pid;
          assert Reapable(w, pid, childPid) && FirstReapable(w, pid, i);
          return;
        }
        i := i + 1;
      }
    }

    /** The end of WaitForChild: the child leaves the queue and the list of children. Both loops find it. */
    method Reap(childPid: nat) returns (status: int)
      requires Unique(Tasks()) && restoreFrame && childPid in currentTask.children && childPid != currentTask.pid
      requires exists j :: 0 <= j < |taskQueue| && taskQueue[j].pid == childPid
      modifies this`taskQueue, this`currentTask
      ensures var w := old(Now()); childPid in w.tasks && status == w.tasks[childPid].exitStatus
      ensures var w := old(Now()); w.running in w.tasks && childPid != w.running && Now() == Reaped(w, childPid)
      ensures Unique(Tasks())
      ensures exists i :: 0 <= i < |old(taskQueue)| && old(taskQueue)[i].pid == childPid
                          && status == old(taskQueue)[i].exitStatus
                          && taskQueue == old(taskQueue)[..i] + old(taskQueue)[i + 1..]
      ensures exists i :: 0 <= i < |old(currentTask).children| && old(currentTask).children[i] == childPid
                          && currentTask.children == old(currentTask).children[..i] + old(currentTask).children[i + 1..]
    {
      hide ByPid, Unique;
      ghost var queue, task, w := taskQueue, currentTask, Now();
      CurrentIsRunning(queue, task);
      var index := GetTask(childPid);
      QueuedTask(queue, task, index);
      status := taskQueue[index].exitStatus;
      taskQueue := taskQueue[..index] + taskQueue[index + 1..];
      var i := 0;
      while currentTask.children[i] != childPid
        invariant 0 <= i < |currentTask.children| && forall j :: 0 <= j < i ==> currentTask.children[j] != childPid
        decreases |currentTask.children| - i
      {
        i := i + 1;
      }
      WithoutAt(currentTask.children, i, childPid);
      currentTask :=
        currentTask.(children := currentTask.children[..i] + currentTask.children[i + 1..], resume := User);
      ReapedQueue(queue, task, index, currentTask);
    }

    /** WaitForChild up to its switch. With no children it fails; with a terminated child it accepts, it reaps the first
        such child of the list; otherwise it suspends the caller. */
    method WaitForChild(pid: nat, delta: nat) returns (outcome: WaitOutcome, ghost before: seq<Task>)
      requires Valid() && restoreFrame && currentTask.resume == User && 1 <= delta <= currentTimerTime
      modifies this
      ensures old(Now()).running in old(Now()).tasks
      ensures outcome.NoChildren? <==> old(currentTask).children == []
      ensures outcome.NoChildren? ==> Now() == old(Now())
      ensures outcome.Child? <==> exists c :: Reapable(old(Now()), pid, c)
      ensures outcome.Child? ==>
                var w, c := old(Now()), outcome.pid;
                && c != w.running && Reapable(w, pid, c) && outcome.status == w.tasks[c].exitStatus
                && Now() == Reaped(w, c)
                && (exists i ::
                    0 <= i < |old(currentTask).children| && FirstReapable(w, pid, i)
                    && old(currentTask).children[i] == c)
                && (w.tasks[c].children == [] ==> Valid())
                && (pid == 0 || c == pid) && w.tasks[c].state == Terminated
      ensures outcome.MustWait? ==>
                forall j :: 0 <= j < |old(taskQueue)| ==>
                  var task := old(taskQueue)[j];
                  !(task.pid in old(currentTask).children && (pid == 0 || task.pid == pid) && task.state == Terminated)
      ensures if outcome.MustWait? then Timers.Step(old(TimerState()), Update(delta), TimerState())
              else TimerState() == old(TimerState())
      ensures outcome.MustWait? ==>
                && SwitchedFrom(Waiting(old(Now()), pid), before, delta)
                && before == old(taskQueue)
                             + [old(currentTask).(state := WaitingForChild, suspensionArg := pid, resume := InWait)]
      ensures outcome.MustWait? && Lossless(before, old(timerEntries), delta) ==>
                Switched(Waiting(old(Now()), pid), delta, Now()) && Valid()
    {
      hide Core, ByPid, Unique, Switched, OneWakeSource, PidsValid, Lossless, Select, WokenQueue, Remaining, Closest;
      ghost var w := Now();
      RunningTask(taskQueue, currentTask, w);
      before := [];
      if currentTask.children == [] {
        return NoChildren, [];
      }
      var childPid := FindReapable(pid);
      if childPid == 0 {
        NothingTerminated(taskQueue, currentTask, w, pid);
        WaitKeeps(w, pid);
        CoreSources(Waiting(w, pid));
        SuspendSystemCall(WaitingForChild, pid, InWait);
        assert Now() == Waiting(w, pid);
        before := Tasks();
        SwitchToNextTask(delta);
        outcome := MustWait;
      } else {
        assert Reapable(w, pid, childPid);
        ChildrenQueued(taskQueue, currentTask, w);
        assert ChildQueued(taskQueue, w, childPid);
        if w.tasks[childPid].children == [] { ReapKeeps(w, pid, childPid); }
        var status := Reap(childPid);
        outcome := Child(childPid, status);
      }
    }

    /** The rest of a WaitForChild that was suspended: its asserts hold. */
    method FinishWait() returns (childPid: nat, status: int)
      requires Valid() && restoreFrame && currentTask.resume == InWait
      modifies this`taskQueue, this`currentTask
      ensures var w := old(Now());
              && w.running in w.tasks && childPid == old(currentTask).returnValue != w.running
              && Reapable(w, old(currentTask).suspensionArg, childPid) && status == w.tasks[childPid].exitStatus
              && Now() == Reaped(w, childPid) && (w.tasks[childPid].children == [] ==> Valid())
              && (old(currentTask).suspensionArg == 0 || childPid == old(currentTask).suspensionArg)
              && w.tasks[childPid].state == Terminated
    {
      hide Core, ByPid, Unique;
      ghost var w := Now();
      RunningTask(taskQueue, currentTask, w);
      ResumedWaiterReaps(w);
      childPid := currentTask.returnValue;
      ChildrenQueued(taskQueue, currentTask, w);
      assert ChildQueued(taskQueue, w, childPid);
      if w.tasks[childPid].children == [] { ReapKeeps(w, currentTask.suspensionArg, childPid); }
      status := Reap(childPid);
    }

    /** The rest of a sleep or terminal read that was suspended. */
    method FinishCall()
      requires Valid() && restoreFrame && currentTask.resume != InWait
      modifies this`currentTask
      ensures old(Now()).running in old(Now()).tasks && Now() == Returned(old(Now())) && Valid()
      ensures currentTask == old(currentTask).(resume := User)
    {
      hide Core, ByPid, Unique;
      ghost var w := Now();
      RunningTask(taskQueue, currentTask, w);
      ReturnKeeps(w);
      ReplacedCurrent(taskQueue, currentTask, currentTask.(resume := User));
      assert currentTask.state == Normal;
      currentTask := currentTask.(resume := User);
    }
  }

  datatype WaitOutcome = NoChildren | Child(pid: nat, status: int) | MustWait

  /** The `i`th child of the running task is the first that can be reaped. */
  ghost predicate FirstReapable(w: World, arg: nat, i: nat)
    requires w.running in w.tasks
  {
    var children := w.tasks[w.running].children;
    i < |children| && Reapable(w, arg, children[i]) && forall j :: 0 <= j < i ==> !Reapable(w, arg, children[j])
  }

  ghost predicate ChildQueued(queue: seq<Task>, w: World, c: nat) {
    w.running in w.tasks && c in w.tasks[w.running].children ==>
      c != 0 && c != w.running && exists j :: 0 <= j < |queue| && queue[j].pid == c
  }

  lemma RunningTask(queue: seq<Task>, current: Task, w: World)
    requires Unique(queue + [current]) && w.tasks == ByPid(queue + [current]) && w.running == current.pid && Inv(w)
    ensures w.running != 0 && w.running in w.tasks && w.tasks[w.running] == current && current.state == Normal
  {
    CurrentIsRunning(queue, current);
  }

  lemma QueuedTask(queue: seq<Task>, current: Task, i: nat)
    requires Unique(queue + [current]) && i < |queue|
    ensures queue[i].pid != current.pid && queue[i].pid in ByPid(queue + [current])
    ensures ByPid(queue + [current])[queue[i].pid] == queue[i]
  {
    var tasks := queue + [current];
    ByPidAt(tasks, i);
    assert tasks[i] == queue[i] && tasks[|queue|] == current;
  }

  lemma ChildrenQueued(queue: seq<Task>, current: Task, w: World)
    requires Unique(queue + [current]) && w.tasks == ByPid(queue + [current]) && w.running == current.pid && Inv(w)
    ensures forall c {:trigger ChildQueued(queue, w, c)} :: ChildQueued(queue, w, c)
  {
    hide ByPid, OneWakeSource;
    var tasks := queue + [current];
    forall c
      ensures ChildQueued(queue, w, c)
    {
      assert ChildValid(w, w.running, c);
      if w.running in w.tasks && c in w.tasks[w.running].children {
        ByPidFinds(tasks, c);
        var j :| 0 <= j < |tasks| && tasks[j].pid == c;
        assert queue[j].pid == c;
      }
    }
  }

  lemma NothingTerminated(queue: seq<Task>, current: Task, w: World, arg: nat)
    requires Unique(queue + [current]) && w.tasks == ByPid(queue + [current]) && w.running == current.pid
    requires w.running in w.tasks && w.tasks[w.running] == current && forall c :: !Reapable(w, arg, c)
    ensures forall j :: 0 <= j < |queue| && queue[j].pid in current.children && (arg == 0 || queue[j].pid == arg) ==>
              queue[j].state != Terminated
  {
    hide ByPid, Unique;
    forall j | 0 <= j < |queue| && queue[j].pid in current.children && (arg == 0 || queue[j].pid == arg)
      ensures queue[j].state != Terminated
    {
      QueuedTask(queue, current, j);
      assert !Reapable(w, arg, queue[j].pid);
    }
  }

  lemma ReaderIsQueued(queue: seq<Task>, tasks: seq<Task>, w: World)
    requires w.readers != [] && w.tasks == ByPid(tasks) && w.readers[0] in w.tasks
    requires w.tasks[w.readers[0]].state == Blocked
    requires tasks == queue
             || (|tasks| == |queue| + 1 && tasks[..|queue|] == queue && tasks[|queue|].pid == w.running != w.readers[0])
    ensures exists j :: 0 <= j < |queue| && queue[j].pid == w.readers[0]
  {
    hide ByPid;
    ByPidFinds(tasks, w.readers[0]);
    var j :| 0 <= j < |tasks| && tasks[j].pid == w.readers[0];
    assert queue[j].pid == w.readers[0];
  }

  lemma TasksUpdated(queue: seq<Task>, current: Task, running: bool, i: nat, task: Task)
    requires i < |queue| && task.pid == queue[i].pid && Unique(if running then queue + [current] else queue)
    ensures var tasks := if running then queue + [current] else queue;
            var queue' := queue[i := task];
            var tasks' := if running then queue' + [current] else queue';
            && Unique(tasks') && ByPid(tasks') == ByPid(tasks)[task.pid := task]
            && queue[i].pid in ByPid(tasks) && ByPid(tasks)[queue[i].pid] == queue[i]
  {
    if running {
      ReplacedQueued(queue, current, i, task);
      QueuedTask(queue, current, i);
    } else {
      ByPidUpdated(queue, i, task);
      ByPidAt(queue, i);
    }
  }

  lemma {:induction false} WithoutAt(s: seq<nat>, i: nat, x: nat)
    requires i < |s| && s[i] == x && forall j :: 0 <= j < i ==> s[j] != x
    ensures Without(s, x) == s[..i] + s[i + 1..]
  {
    if i > 0 {
      WithoutAt(s[1..], i - 1, x);
      assert s[..i] + s[i + 1..] == [s[0]] + (s[1..][..i - 1] + s[1..][i..]);
    }
  }

  lemma ReapedQueue(queue: seq<Task>, current: Task, i: nat, current': Task)
    requires Unique(queue + [current]) && i < |queue| && current'.pid == current.pid
    ensures var queue' := queue[..i] + queue[i + 1..];
            Unique(queue' + [current'])
            && ByPid(queue' + [current']) == (ByPid(queue + [current]) - {queue[i].pid})[current.pid := current']
  {
    hide ByPid, Unique;
    var tasks, queue' := queue + [current], queue[..i] + queue[i + 1..];
    ByPidRemoved(tasks, i);
    assert tasks[..i] + tasks[i + 1..] == queue' + [current];
    ReplacedCurrent(queue', current, current');
  }

  lemma KeyUpdates(w: World, w': World)
    requires w.readers != [] && w.readers[0] in w.tasks && w.tasks[w.readers[0]].pid == w.readers[0]
    requires w' ==
             w.(tasks := w.tasks[w.readers[0] := Unsuspended(w.tasks[w.readers[0]], 0)], readers := w.readers[1..])
    ensures w' == KeyPressed(w)
  {
  }

  /** Which task was running does not matter to a switch. */
  lemma IdleSame(w: World, w1: World)
    requires w1 == w.(running := 0)
    ensures Core(w) ==> Core(w1)
    ensures OneWakeSource(w) ==> OneWakeSource(w1)
    ensures PidsValid(w) ==> PidsValid(w1)
    ensures forall delta, w' :: Switched(w1, delta, w') ==> Switched(w, delta, w')
  {
    hide TimerSources, ReaderSources, Distinct, Woken, Remaining;
    if Core(w) {
      forall p, c
        ensures ChildValid(w1, p, c) && !MissedExit(w1, p, c)
      {
        assert ChildValid(w, p, c) && !MissedExit(w, p, c);
      }
      forall p
        ensures ParentValid(w1, p) && WakeupTrue(w1, p)
      {
        assert ParentValid(w, p) && WakeupTrue(w, p);
      }
    }
  }

  lemma CoreSources(w: World)
    requires Core(w)
    ensures OneWakeSource(w) && PidsValid(w)
  {
    hide OneWakeSource;
  }

  lemma WokenKeys(tasks: map<nat, Task>, timers: seq<TimerEntry>, delta: nat)
    ensures Woken(tasks, timers, delta).Keys == tasks.Keys
  {
  }

  /** A selection that takes at most one task keeps every task and runs a Normal one if there is any. */
  lemma LosslessSelection(before: seq<Task>)
    requires Unique(before) && |Select(before).popped| <= 1
    ensures var selection := Select(before);
            var tasks := if selection.popped == [] then selection.rest else selection.rest + [selection.popped[0]];
            && Unique(tasks) && ByPid(tasks) == ByPid(before)
            && (selection.popped == [] ==> forall p :: p in ByPid(before) ==> ByPid(before)[p].state != Normal)
            && (selection.popped != [] ==>
                  var task := selection.popped[0];
                  task.state == Normal && task.pid in ByPid(before) && ByPid(before)[task.pid] == task)
  {
    hide Select, ByPid;
    SelectNone(before);
    if Select(before).popped == [] {
      forall p | p in ByPid(before)
        ensures ByPid(before)[p].state != Normal
      {
        ByPidFinds(before, p);
      }
    } else {
      var i := FindFirstNormal(before);
      SelectOne(before, i);
      ByPidMoved(before, i);
      ByPidAt(before, i);
    }
  }

  lemma UniqueWithin(tasks: seq<Task>, some: seq<Task>)
    requires Unique(tasks) && multiset(some) <= multiset(tasks)
    ensures Unique(some)
  {
    forall i, j | 0 <= i < j < |some|
      ensures some[i].pid != some[j].pid
    {
      assert some[i] in multiset(tasks) && some[j] in multiset(tasks);
      assert some[i] in tasks && some[j] in tasks;
      if some[i] == some[j] {
        TwiceCounts(some, i, j);
        OnceCounts(tasks, some[i]);
      }
    }
  }

  lemma TwiceCounts(tasks: seq<Task>, i: nat, j: nat)
    requires i < j < |tasks| && tasks[i] == tasks[j]
    ensures multiset(tasks)[tasks[i]] >= 2
  {
    assert tasks == tasks[..j] + tasks[j..];
    assert tasks[..j][i] == tasks[i] && tasks[j..][0] == tasks[j];
    assert multiset(tasks) == multiset(tasks[..j]) + multiset(tasks[j..]);
    assert tasks[i] in multiset(tasks[..j]) && tasks[i] in multiset(tasks[j..]);
  }

  lemma {:induction false} OnceCounts(tasks: seq<Task>, task: Task)
    requires Unique(tasks)
    ensures multiset(tasks)[task] <= 1
  {
    if tasks != [] {
      var init, last := tasks[..|tasks| - 1], tasks[|tasks| - 1];
      OnceCounts(init, task);
      assert tasks == init + [last];
      assert multiset(tasks) == multiset(init) + multiset{last};
      assert forall k :: 0 <= k < |init| ==> init[k] == tasks[k] && tasks[k].pid != last.pid;
      assert last !in init;
    }
  }

  lemma {:induction false} PoppedAreNormal(queue: seq<Task>)
    ensures forall i :: 0 <= i < |Select(queue).popped| ==> Select(queue).popped[i].state == Normal
  {
    if queue != [] {
      PoppedAreNormal(queue[1..]);
      if |queue| > 1 { PoppedAreNormal(queue[2..]); }
    }
  }

  /** Whatever a selection takes, the tasks that stay are as they were, and those that get lost were Normal. */
  lemma AnySelection(before: seq<Task>)
    requires Unique(before)
    ensures var popped, rest := Select(before).popped, Select(before).rest;
            var tasks := if popped == [] then rest else rest + [popped[|popped| - 1]];
            && Unique(tasks)
            && (forall p :: p in ByPid(tasks) ==> p in ByPid(before) && ByPid(tasks)[p] == ByPid(before)[p])
            && (forall p :: p in ByPid(before) && p !in ByPid(tasks) ==> ByPid(before)[p].state == Normal)
            && (popped == [] ==> forall p :: p in ByPid(tasks) ==> ByPid(tasks)[p].state != Normal)
            && (popped != [] ==>
                  var task := popped[|popped| - 1];
                  task.state == Normal && task.pid in ByPid(tasks) && ByPid(tasks)[task.pid] == task)
  {
    hide Select, ByPid, Unique;
    var popped, rest := Select(before).popped, Select(before).rest;
    var tasks := if popped == [] then rest else rest + [popped[|popped| - 1]];
    SelectPartitions(before);
    PoppedAreNormal(before);
    SelectNone(before);
    Survive(before, popped, rest, tasks);
    UniqueWithin(before, tasks);
    if popped != [] { ByPidAt(tasks, |rest|); }
    forall p | p in ByPid(tasks)
      ensures p in ByPid(before) && ByPid(tasks)[p] == ByPid(before)[p]
      ensures popped == [] ==> ByPid(tasks)[p].state != Normal
    {
      ByPidFinds(tasks, p);
      var i :| 0 <= i < |tasks| && tasks[i].pid == p && ByPid(tasks)[p] == tasks[i];
      assert tasks[i] in multiset(tasks);
      var j :| 0 <= j < |before| && before[j] == tasks[i];
      ByPidAt(before, j);
    }
    forall p | p in ByPid(before) && p !in ByPid(tasks)
      ensures ByPid(before)[p].state == Normal
    {
      LostWasPopped(before, popped, tasks, p);
    }
  }

  lemma LostWasPopped(before: seq<Task>, popped: seq<Task>, tasks: seq<Task>, p: nat)
    requires Unique(tasks) && p in ByPid(before) && p !in ByPid(tasks)
    requires forall task :: task in multiset(before) && task !in tasks ==> task in popped
    ensures ByPid(before)[p] in popped
  {
    hide ByPid, Unique;
    ByPidFinds(before, p);
    var j :| 0 <= j < |before| && before[j].pid == p && ByPid(before)[p] == before[j];
    assert before[j] in multiset(before);
    if before[j] in tasks {
      var i :| 0 <= i < |tasks| && tasks[i] == before[j];
      ByPidAt(tasks, i);
    }
  }

  lemma SelectionIsLossy(w: World, delta: nat, before: seq<Task>, w': World)
    requires PidsValid(w) && Unique(before) && ByPid(before) == Woken(w.tasks, w.timers, delta)
    requires var popped, rest := Select(before).popped, Select(before).rest;
             && w'.tasks == ByPid(if popped == [] then rest else rest + [popped[|popped| - 1]])
             && w'.running == if popped == [] then 0 else popped[|popped| - 1].pid
    requires w'.timers == Remaining(w.timers, delta) && w'.readers == w.readers && w'.nextPid == w.nextPid
    ensures LossySwitched(w, delta, w')
    ensures var popped, rest := Select(before).popped, Select(before).rest;
            Unique(if popped == [] then rest else rest + [popped[|popped| - 1]])
  {
    hide Select, ByPid, Unique, Woken, Remaining;
    AnySelection(before);
    WokenKeys(w.tasks, w.timers, delta);
  }

  lemma SelectionIsLossless(w: World, delta: nat, before: seq<Task>, w': World)
    requires PidsValid(w) && Unique(before) && ByPid(before) == Woken(w.tasks, w.timers, delta)
    requires |Select(before).popped| <= 1
    requires var popped, rest := Select(before).popped, Select(before).rest;
             && w'.tasks == ByPid(if popped == [] then rest else rest + [popped[|popped| - 1]])
             && w'.running == if popped == [] then 0 else popped[|popped| - 1].pid
    requires w'.timers == Remaining(w.timers, delta) && w'.readers == w.readers && w'.nextPid == w.nextPid
    ensures Switched(w, delta, w')
  {
    hide Select, ByPid, Unique, Woken, Remaining;
    LosslessSelection(before);
    WokenKeys(w.tasks, w.timers, delta);
  }

  lemma Survive(before: seq<Task>, popped: seq<Task>, rest: seq<Task>, tasks: seq<Task>)
    requires multiset(before) == multiset(popped) + multiset(rest)
    requires tasks == if popped == [] then rest else rest + [popped[|popped| - 1]]
    ensures multiset(tasks) <= multiset(before)
    ensures forall task :: task in multiset(before) && task !in tasks ==> task in popped
  {
    if popped != [] {
      var last := popped[|popped| - 1];
      assert popped == popped[..|popped| - 1] + [last];
      assert multiset(popped) == multiset(popped[..|popped| - 1]) + multiset{last};
    }
    assert forall task :: task in multiset(before) ==> task in multiset(popped) || task in multiset(rest);
  }

  lemma {:induction false} FindFirstNormal(queue: seq<Task>) returns (i: nat)
    requires NormalFrom(queue, 0)
    ensures FirstNormal(queue, i)
  {
    if queue[0].state == Normal {
      i := 0;
    } else {
      NormalShifted(queue, 1, 0);
      var k :| 0 <= k < |queue| && queue[k].state == Normal;
      assert NormalFrom(queue, 1);
      i := FindFirstNormal(queue[1..]);
      i := i + 1;
    }
  }

  lemma CurrentIsRunning(queue: seq<Task>, current: Task)
    requires Unique(queue + [current])
    ensures Unique(queue) && current.pid in ByPid(queue + [current]) && ByPid(queue + [current])[current.pid] == current
    ensures current.pid !in ByPid(queue)
  {
    var tasks := queue + [current];
    ByPidAt(tasks, |queue|);
    LastIsNew(tasks);
    assert tasks[..|queue|] == queue;
  }

  lemma ForkedQueue(queue: seq<Task>, current: Task, child: Task, w: World)
    requires Unique(queue + [current]) && w.tasks == ByPid(queue + [current]) && w.running == current.pid
    requires PidsValid(w)
    requires child == Task(w.nextPid, current.pid, Normal, 0, [], 0, User, 0)
    ensures var current' := current.(children := current.children + [child.pid]);
            Unique(queue + [child] + [current']) && w.running in w.tasks
            && ByPid(queue + [child] + [current']) == Forked(w).tasks
  {
    var current' := current.(children := current.children + [child.pid]);
    CurrentIsRunning(queue, current);
    ByPidAppended(queue, current);
    ByPidAppended(queue, child);
    ByPidAppended(queue + [child], current');
    ChildIsNew(queue, current, child, w);
    hide ByPid, Unique;
    MapsCommute(ByPid(queue), current, child, current');
  }

  lemma MapsCommute(m: map<nat, Task>, current: Task, child: Task, current': Task)
    requires current'.pid == current.pid != child.pid
    ensures m[child.pid := child][current.pid := current'] ==
            m[current.pid := current][current.pid := current'][child.pid := child]
  {
  }

  lemma ChildIsNew(queue: seq<Task>, current: Task, child: Task, w: World)
    requires Unique(queue + [current]) && w.tasks == ByPid(queue + [current]) && PidsValid(w) && child.pid == w.nextPid
    ensures current.pid < w.nextPid
    ensures forall current': Task :: current'.pid == current.pid ==> Unique(queue + [child] + [current'])
  {
    var tasks := queue + [current];
    CurrentIsRunning(queue, current);
    forall i | 0 <= i < |queue|
      ensures queue[i].pid < w.nextPid && queue[i].pid != current.pid
    {
      ByPidAt(tasks, i);
      assert tasks[i] == queue[i] && tasks[|queue|] == current;
    }
  }

  lemma ParentIsQueued(queue: seq<Task>, current: Task, w: World)
    requires Unique(queue + [current]) && w.tasks == ByPid(queue + [current])
    requires current.parentPid in w.tasks && current.parentPid != current.pid
    ensures exists j :: 0 <= j < |queue| && queue[j].pid == current.parentPid
  {
    var tasks := queue + [current];
    ByPidFinds(tasks, current.parentPid);
    var j :| 0 <= j < |tasks| && tasks[j].pid == current.parentPid;
    assert queue[j].pid == current.parentPid;
  }

  lemma OnlyOne(queue: seq<Task>, current: Task, i: nat)
    requires Unique(queue + [current]) && i < |queue|
    ensures forall j :: 0 <= j < |queue| && j != i ==> queue[j].pid != queue[i].pid
  {
    var tasks := queue + [current];
    assert forall j :: 0 <= j < |queue| ==> queue[j] == tasks[j];
  }

  lemma ExitedFirst(queue: seq<Task>, current: Task, status: int, w: World)
    requires Unique(queue + [current]) && w.tasks == ByPid(queue + [current]) && w.running == current.pid == 1
    ensures var current' := current.(state := Terminated, exitStatus := status);
            Unique(queue + [current']) && w.running in w.tasks
            && Exited(w, status) == w.(tasks := ByPid(queue + [current']))
  {
    var current' := current.(state := Terminated, exitStatus := status);
    CurrentIsRunning(queue, current);
    ReplacedCurrent(queue, current, current');
  }

  /** Changing the running task without its pid. */
  lemma ReplacedCurrent(queue: seq<Task>, current: Task, current': Task)
    requires Unique(queue + [current]) && current'.pid == current.pid
    ensures Unique(queue + [current']) && ByPid(queue + [current']) == ByPid(queue + [current])[current.pid := current']
  {
    var tasks := queue + [current];
    ByPidUpdated(tasks, |queue|, current');
    assert tasks[|queue| := current'] == queue + [current'];
  }

  /** Changing a queued task without its pid. */
  lemma ReplacedQueued(queue: seq<Task>, current: Task, i: nat, task: Task)
    requires Unique(queue + [current]) && i < |queue| && task.pid == queue[i].pid
    ensures Unique(queue[i := task] + [current])
    ensures ByPid(queue[i := task] + [current]) == ByPid(queue + [current])[task.pid := task]
  {
    var tasks := queue + [current];
    ByPidUpdated(tasks, i, task);
    assert tasks[i := task] == queue[i := task] + [current];
  }

  lemma ExitedQueue(queue: seq<Task>, current: Task, status: int, parent: nat, w: World)
    requires Unique(queue + [current]) && w.tasks == ByPid(queue + [current]) && w.running == current.pid != 1
    requires parent < |queue| && queue[parent].pid == current.parentPid
    ensures var current' := current.(state := Terminated, exitStatus := status);
            var wakes := queue[parent].state == WaitingForChild && Accepts(queue[parent].suspensionArg, current.pid);
            var queue' := if wakes then queue[parent := Unsuspended(queue[parent], current.pid)] else queue;
            Unique(queue' + [current']) && w.running in w.tasks
            && Exited(w, status) == w.(tasks := ByPid(queue' + [current']))
  {
    hide ByPid, Unique;
    var current' := current.(state := Terminated, exitStatus := status);
    CurrentIsRunning(queue, current);
    QueuedTask(queue, current, parent);
    ReplacedCurrent(queue, current, current');
    ReplacedQueued(queue, current', parent, Unsuspended(queue[parent], current.pid));
  }

  /** The loop stands at place `i` of `tasks`, which is place `j` of the queue it started from. */
  ghost predicate Scanned(queue: seq<Task>, tasks: seq<Task>, i: nat, j: nat, popped: seq<Task>) {
    && j <= |queue| && (j == |queue| ==> i >= |tasks|)
    && (j < |queue| ==> i <= |tasks| && tasks[i..] == queue[j..])
    && Select(queue).popped == popped + Select(queue[j..]).popped
    && Select(queue).rest == (if i <= |tasks| then tasks[..i] else tasks) + Select(queue[j..]).rest
  }

  lemma ScanStarts(queue: seq<Task>)
    ensures Scanned(queue, queue, 0, 0, [])
  {
    hide Select;
    assert queue[0..] == queue;
    EmptySelects();
  }

  lemma ScanEnds(queue: seq<Task>, tasks: seq<Task>, i: nat, j: nat, popped: seq<Task>)
    requires Scanned(queue, tasks, i, j, popped) && i >= |tasks|
    ensures Select(queue) == Selection(popped, tasks)
  {
    hide Select;
    assert queue[j..] == [];
    EmptySelects();
  }

  lemma ScanSteps(queue: seq<Task>, tasks: seq<Task>, i: nat, j: nat, popped: seq<Task>)
    requires Scanned(queue, tasks, i, j, popped) && i < |tasks|
    ensures j < |queue|
    ensures tasks[i].state != Normal ==> Scanned(queue, tasks, i + 1, j + 1, popped)
    ensures tasks[i].state == Normal ==>
              Scanned(queue, tasks[..i] + tasks[i + 1..], i + 1,
                      if j + 1 < |queue| then j + 2 else j + 1, popped + [tasks[i]])
  {
    hide Select;
    SelectFrom(queue, j);
    assert tasks[i..][0] == queue[j..][0] && tasks[i..][1..] == queue[j..][1..];
    assert tasks[i + 1..] == queue[j + 1..];
    if tasks[i].state != Normal {
      assert tasks[..i + 1] == tasks[..i] + [queue[j]];
    } else {
      ScanPops(queue, tasks, i, j, popped);
    }
  }

  lemma ScanPops(queue: seq<Task>, tasks: seq<Task>, i: nat, j: nat, popped: seq<Task>)
    requires Scanned(queue, tasks, i, j, popped) && i < |tasks| && j < |queue| && tasks[i] == queue[j]
    requires tasks[i].state == Normal
    requires tasks[i + 1..] == queue[j + 1..]
    ensures Scanned(queue, tasks[..i] + tasks[i + 1..], i + 1,
                    if j + 1 < |queue| then j + 2 else j + 1, popped + [tasks[i]])
  {
    hide Select;
    SelectFrom(queue, j);
    var after := tasks[..i] + tasks[i + 1..];
    if j + 1 < |queue| {
      assert tasks[i + 1..][0] == queue[j + 1..][0] && tasks[i + 1..][1..] == queue[j + 1..][1..];
      assert after[..i + 1] == tasks[..i] + [queue[j + 1]];
      assert after[i + 1..] == queue[j + 2..];
    } else {
      EmptySelects();
      assert queue[j + 1..] == [] && after == tasks[..i];
    }
  }

  lemma EmptySelects()
    ensures Select([]) == Selection([], [])
  {
  }

  lemma NothingLeft(queue: seq<Task>, timers: seq<TimerEntry>, delta: nat)
    ensures WokenQueue(queue, timers, |timers|, delta) == queue
    ensures timers[..|timers|] + Remaining(timers[|timers|..], delta) == timers
  {
  }

  lemma SameWokenQueue(queue: seq<Task>, timers: seq<TimerEntry>, i: nat, delta: nat)
    requires Unique(queue) && i < |timers| && !(timers[i].unblockOnExpire && Expires(timers[i], delta))
    ensures WokenQueue(queue, timers, i, delta) == WokenQueue(queue, timers, i + 1, delta)
  {
    if queue != [] { WokenQueueStep(queue, timers, i, delta, 0); }
  }
}

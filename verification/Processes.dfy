/** The process lifecycle (fork, exit, wait, sleep, terminal reads, execute and task switches;
    kernel/src/Scheduler.cpp and kernel/src/TerminalDevice.cpp) as a state machine over all tasks, and its invariants
    over whole runs. One core and atomic kernel steps. */
module Processes {
  import opened Common

  datatype TaskState = Normal | Blocked | Terminated | WaitingForChild

  /** Where a task goes on when it is scheduled: in user code, or inside a system call that suspended it. */
  datatype Resume = User | InWait | InSleep | InRead

  datatype Task = Task(
    pid: nat, parentPid: nat, state: TaskState, suspensionArg: nat, children: seq<nat>,
    returnValue: nat, resume: Resume, exitStatus: int)

  datatype TimerEntry = TimerEntry(milliseconds: nat, unblockOnExpire: bool, pid: nat)

  /** All tasks but the idle one by pid, the running pid (0 for idle), the timer entries, the pids in the terminal's
      unblock queue, and the next pid to hand out. */
  datatype World = World(tasks: map<nat, Task>, running: nat, timers: seq<TimerEntry>, readers: seq<nat>, nextPid: nat)

  // ---- Pieces of the operations ----

  function Unsuspended(task: Task, value: nat): Task {
    task.(returnValue := value, state := Normal)
  }

  predicate Suspended(task: Task) {
    task.state == Blocked || task.state == WaitingForChild
  }

  /** A waiter with this argument takes this child. */
  predicate Accepts(arg: nat, child: nat) {
    arg == 0 || arg == child
  }

  /** Entries that go off in an update of `delta` milliseconds. */
  predicate Expires(entry: TimerEntry, delta: nat) {
    entry.milliseconds <= delta
  }

  ghost function Remaining(timers: seq<TimerEntry>, delta: nat): seq<TimerEntry> {
    if timers == [] then []
    else
      (if Expires(timers[0], delta) then [] else [timers[0].(milliseconds := timers[0].milliseconds - delta)])
      + Remaining(timers[1..], delta)
  }

  ghost predicate WokenBy(timers: seq<TimerEntry>, delta: nat, pid: nat) {
    && timers != []
    && ((timers[0].pid == pid && timers[0].unblockOnExpire && Expires(timers[0], delta))
        || WokenBy(timers[1..], delta, pid))
  }

  ghost function Woken(tasks: map<nat, Task>, timers: seq<TimerEntry>, delta: nat): map<nat, Task> {
    map p | p in tasks :: if WokenBy(timers, delta, p) then Unsuspended(tasks[p], 0) else tasks[p]
  }

  /** A switch that loses no task: expired sleepers wake up, then some Normal task runs, or none if there is none. */
  ghost predicate Switched(w: World, delta: nat, w': World) {
    && w'.tasks == Woken(w.tasks, w.timers, delta)
    && w'.timers == Remaining(w.timers, delta)
    && w'.readers == w.readers && w'.nextPid == w.nextPid
    && if w'.running == 0 then forall p :: p in w'.tasks ==> w'.tasks[p].state != Normal
       else w'.running in w'.tasks && w'.tasks[w'.running].state == Normal
  }

  ghost function Replaced(w: World, task: Task): World {
    w.(tasks := w.tasks[task.pid := task])
  }

  ghost function Forked(w: World): World
    requires w.running in w.tasks
  {
    var parent := w.tasks[w.running];
    var child := Task(w.nextPid, w.running, Normal, 0, [], 0, User, 0);
    w.(tasks := w.tasks[w.running := parent.(children := parent.children + [w.nextPid])][w.nextPid := child],
       nextPid := w.nextPid + 1)
  }

  /** ExitCurrentTask up to its switch. */
  ghost function Exited(w: World, status: int): World
    requires w.running in w.tasks
  {
    var task := w.tasks[w.running];
    var w1 := Replaced(w, task.(state := Terminated, exitStatus := status));
    if w.running == 1 || task.parentPid !in w1.tasks then w1
    else
      var parent := w1.tasks[task.parentPid];
      if parent.state == WaitingForChild && Accepts(parent.suspensionArg, w.running)
      then w1.(tasks := w1.tasks[task.parentPid := Unsuspended(parent, w.running)]) else w1
  }

  /** WaitForChild up to its switch, when no child can be reaped yet. */
  ghost function Waiting(w: World, arg: nat): World
    requires w.running in w.tasks
  {
    Replaced(w, w.tasks[w.running].(state := WaitingForChild, suspensionArg := arg, resume := InWait))
  }

  /** A child that can be reaped at once. */
  ghost predicate Reapable(w: World, arg: nat, child: nat)
    requires w.running in w.tasks
  {
    child in w.tasks[w.running].children && child in w.tasks && w.tasks[child].state == Terminated
    && Accepts(arg, child)
  }

  function Without(s: seq<nat>, x: nat): seq<nat> {
    if s == [] then [] else if s[0] == x then s[1..] else [s[0]] + Without(s[1..], x)
  }

  /** The child leaves the queue and the list of children. */
  ghost function Reaped(w: World, child: nat): World
    requires w.running in w.tasks && child != w.running
  {
    var task := w.tasks[w.running];
    w.(tasks := (w.tasks - {child})[w.running := task.(children := Without(task.children, child), resume := User)])
  }

  ghost function Sleeping(w: World, milliseconds: nat): World
    requires w.running in w.tasks
  {
    Replaced(w, w.tasks[w.running].(state := Blocked, suspensionArg := 0, resume := InSleep))
      .(timers := w.timers + [TimerEntry(milliseconds, true, w.running)])
  }

  ghost function Reading(w: World): World
    requires w.running in w.tasks
  {
    Replaced(w, w.tasks[w.running].(state := Blocked, suspensionArg := 0, resume := InRead)).(readers :=
                                                                                              w.readers + [w.running])
  }

  /** The terminal wakes its first waiting reader. */
  ghost function KeyPressed(w: World): World
    requires w.readers != [] && w.readers[0] in w.tasks
  {
    Replaced(w, Unsuspended(w.tasks[w.readers[0]], 0)).(readers := w.readers[1..])
  }

  /** Execute replaces the running task by a new one with the same pid and no children. */
  ghost function Executed(w: World): World
    requires w.running in w.tasks
  {
    Replaced(w, Task(w.running, w.tasks[w.running].parentPid, Normal, 0, [], 0, User, 0))
  }

  // ---- Invariants ----

  /** How many wake sources a pid has. */
  ghost function TimerSources(timers: seq<TimerEntry>, pid: nat): nat {
    if timers == [] then 0
    else (if timers[0].unblockOnExpire && timers[0].pid == pid then 1 else 0) + TimerSources(timers[1..], pid)
  }

  ghost function ReaderSources(readers: seq<nat>, pid: nat): nat {
    multiset(readers)[pid]
  }

  ghost predicate PidsValid(w: World) {
    && 0 !in w.tasks && w.nextPid >= 2
    && (forall p :: p in w.tasks ==> w.tasks[p].pid == p < w.nextPid)
    && (1 in w.tasks ==> w.tasks[1].parentPid == 0)
  }

  ghost predicate ChildValid(w: World, p: nat, c: nat) {
    p in w.tasks && c in w.tasks[p].children ==> c != p && c in w.tasks && w.tasks[c].parentPid == p
  }

  ghost predicate ParentValid(w: World, p: nat) {
    p in w.tasks ==>
      && Distinct(w.tasks[p].children)
      && (p != 1 ==> w.tasks[p].parentPid in w.tasks && p in w.tasks[w.tasks[p].parentPid].children)
  }

  /** Parents and children know each other, and nobody is an orphan. */
  ghost predicate FamilyValid(w: World) {
    && (forall p, c {:trigger ChildValid(w, p, c)} :: ChildValid(w, p, c))
    && (forall p {:trigger ParentValid(w, p)} :: ParentValid(w, p))
  }

  /** `p` waits although its child `c`, which it accepts, has already terminated. */
  ghost predicate MissedExit(w: World, p: nat, c: nat) {
    && p in w.tasks && w.tasks[p].state == WaitingForChild
    && c in w.tasks[p].children && c in w.tasks && w.tasks[c].state == Terminated
    && Accepts(w.tasks[p].suspensionArg, c)
  }

  /** No lost wake-up: nobody waits for a child that has already terminated. */
  ghost predicate NoLostWakeup(w: World) {
    forall p, c {:trigger MissedExit(w, p, c)} :: !MissedExit(w, p, c)
  }

  /** A waiter that was woken has been told a terminated child of its own that it accepts. */
  ghost predicate WakeupTrue(w: World, p: nat) {
    p in w.tasks ==>
      var task := w.tasks[p];
      && (task.state == WaitingForChild ==> task.resume == InWait)
      && (task.resume == InWait ==> task.state == WaitingForChild || task.state == Normal)
      && (task.resume == InWait && task.state == Normal ==>
            var c := task.returnValue;
            c in task.children && c in w.tasks && w.tasks[c].state == Terminated && Accepts(task.suspensionArg, c))
  }

  ghost predicate WakeupsTrue(w: World) {
    forall p {:trigger WakeupTrue(w, p)} :: WakeupTrue(w, p)
  }

  /** Blocked tasks have exactly one wake source, and nothing else has any. */
  ghost predicate OneWakeSource(w: World) {
    forall p :: TimerSources(w.timers, p) + ReaderSources(w.readers, p) ==
                if p in w.tasks && w.tasks[p].state == Blocked then 1 else 0
  }

  /** Everything but the state of the running task. */
  ghost predicate Core(w: World) {
    PidsValid(w) && FamilyValid(w) && NoLostWakeup(w) && WakeupsTrue(w) && OneWakeSource(w)
    && (forall i :: 0 <= i < |w.timers| ==> w.timers[i].milliseconds > 0)
  }

  ghost predicate Inv(w: World) {
    Core(w) && (w.running != 0 ==> w.running in w.tasks && w.tasks[w.running].state == Normal)
  }

  // ---- The switch ----

  lemma {:induction false} TimerSourcesRemaining(timers: seq<TimerEntry>, delta: nat, p: nat)
    ensures TimerSources(Remaining(timers, delta), p) <= TimerSources(timers, p)
    ensures WokenBy(timers, delta, p) ==> TimerSources(Remaining(timers, delta), p) < TimerSources(timers, p)
    ensures !WokenBy(timers, delta, p) ==> TimerSources(Remaining(timers, delta), p) == TimerSources(timers, p)
    ensures WokenBy(timers, delta, p) ==> TimerSources(timers, p) > 0
    ensures forall i :: 0 <= i < |Remaining(timers, delta)| ==> Remaining(timers, delta)[i].milliseconds > 0
  {
    if timers != [] {
      var rest := Remaining(timers[1..], delta);
      TimerSourcesRemaining(timers[1..], delta, p);
      if Expires(timers[0], delta) {
        assert Remaining(timers, delta) == rest;
      } else {
        var head := timers[0].(milliseconds := timers[0].milliseconds - delta);
        assert Remaining(timers, delta) == [head] + rest && ([head] + rest)[1..] == rest;
      }
    }
  }

  /** Only Blocked tasks are woken by timers, so the assert in Unsuspend holds and GetTask finds its task. */
  lemma SleepersAreBlocked(w: World, delta: nat, p: nat)
    requires OneWakeSource(w) && WokenBy(w.timers, delta, p)
    ensures p in w.tasks && w.tasks[p].state == Blocked && TimerSources(Remaining(w.timers, delta), p) == 0
  {
    TimerSourcesRemaining(w.timers, delta, p);
  }

  /** Apart from Blocked tasks turning Normal, the tasks are the same. */
  ghost predicate OnlyWoken(tasks: map<nat, Task>, tasks': map<nat, Task>) {
    && tasks'.Keys == tasks.Keys
    && forall p :: p in tasks ==>
         tasks'[p] == tasks[p] || (tasks[p].state == Blocked && tasks'[p] == Unsuspended(tasks[p], 0))
  }

  lemma OnlyWokenKeeps(w: World, w': World)
    requires PidsValid(w) && FamilyValid(w) && NoLostWakeup(w) && WakeupsTrue(w)
    requires OnlyWoken(w.tasks, w'.tasks) && w'.nextPid == w.nextPid
    ensures PidsValid(w') && FamilyValid(w') && NoLostWakeup(w') && WakeupsTrue(w')
  {
    forall p, c
      ensures ChildValid(w', p, c) && !MissedExit(w', p, c)
    {
      assert ChildValid(w, p, c) && !MissedExit(w, p, c);
    }
    forall p
      ensures ParentValid(w', p) && WakeupTrue(w', p)
    {
      assert ParentValid(w, p) && WakeupTrue(w, p);
    }
  }

  lemma SwitchKeeps(w: World, delta: nat, w': World)
    requires Core(w) && Switched(w, delta, w')
    ensures Inv(w')
  {
    hide TimerSources, Remaining, WokenBy, ReaderSources, FamilyValid, NoLostWakeup, WakeupsTrue, PidsValid;
    forall p
      ensures p in w.tasks ==>
                w'.tasks[p] == w.tasks[p] || (w.tasks[p].state == Blocked && w'.tasks[p] == Unsuspended(w.tasks[p], 0))
      ensures TimerSources(w'.timers, p) + ReaderSources(w'.readers, p) ==
              if p in w'.tasks && w'.tasks[p].state == Blocked then 1 else 0
    {
      TimerSourcesRemaining(w.timers, delta, p);
      if WokenBy(w.timers, delta, p) { SleepersAreBlocked(w, delta, p); }
    }
    TimerSourcesRemaining(w.timers, delta, 0);
    OnlyWokenKeeps(w, w');
  }

  // ---- The system calls ----

  lemma DistinctAppended(s: seq<nat>, x: nat)
    requires Distinct(s) && x !in s
    ensures Distinct(s + [x])
  {
  }

  lemma ForkKeeps(w: World)
    requires Inv(w) && w.running != 0
    ensures Inv(Forked(w))
  {
    hide TimerSources, ReaderSources, Distinct, FamilyValid, NoLostWakeup, WakeupsTrue;
    ForkFamily(w);
    ForkWaiters(w);
  }

  lemma ForkFamily(w: World)
    requires PidsValid(w) && FamilyValid(w) && w.running in w.tasks
    ensures FamilyValid(Forked(w))
  {
    hide Distinct;
    var w' := Forked(w);
    assert ParentValid(w, w.running) && ChildValid(w, w.running, w.nextPid);
    DistinctAppended(w.tasks[w.running].children, w.nextPid);
    DistinctEmpty();
    forall p, c
      ensures ChildValid(w', p, c)
    {
      assert ChildValid(w, p, c);
    }
    forall p
      ensures ParentValid(w', p)
    {
      assert ParentValid(w, p);
    }
  }

  lemma ForkWaiters(w: World)
    requires PidsValid(w) && FamilyValid(w) && NoLostWakeup(w) && WakeupsTrue(w) && w.running in w.tasks
    ensures NoLostWakeup(Forked(w)) && WakeupsTrue(Forked(w))
  {
    hide Distinct;
    var w' := Forked(w);
    forall p, c
      ensures !MissedExit(w', p, c)
    {
      assert ChildValid(w, p, c) && !MissedExit(w, p, c);
    }
    forall p
      ensures WakeupTrue(w', p)
    {
      assert WakeupTrue(w, p);
    }
  }

  lemma DistinctEmpty()
    ensures Distinct([])
  {
  }

  /** Exit wakes its parent if that waits for it, so that no wake-up is lost; GetTask finds the parent. */
  lemma ExitKeeps(w: World, status: int)
    requires Inv(w) && w.running != 0 && w.tasks[w.running].resume == User
    ensures Core(Exited(w, status))
    ensures w.running != 1 ==> w.tasks[w.running].parentPid in w.tasks && w.tasks[w.running].parentPid != w.running
  {
    hide TimerSources, ReaderSources, Distinct, NoLostWakeup, WakeupsTrue, FamilyValid, Exited;
    if w.running != 1 { ParentKnown(w); }
    var w' := Exited(w, status);
    ExitRelates(w, status);
    ExitFamily(w, w', status);
    ExitWaiters(w, w', status);
    assert forall p {:trigger w'.tasks[p]} :: p in w.tasks ==> ExitEffect(w, p, w'.tasks[p], status);
  }

  lemma ParentKnown(w: World)
    requires FamilyValid(w) && w.running in w.tasks && w.running != 1
    ensures w.tasks[w.running].parentPid in w.tasks && w.tasks[w.running].parentPid != w.running
  {
    assert ParentValid(w, w.running) && ChildValid(w, w.tasks[w.running].parentPid, w.running);
  }

  ghost predicate ExitRelated(w: World, w': World, status: int)
    requires w.running in w.tasks
  {
    && w'.tasks.Keys == w.tasks.Keys && w'.nextPid == w.nextPid && w'.timers == w.timers && w'.readers == w.readers
    && forall p {:trigger w'.tasks[p]} :: p in w.tasks ==> ExitEffect(w, p, w'.tasks[p], status)
  }

  lemma ExitRelates(w: World, status: int)
    requires PidsValid(w) && w.running in w.tasks
    requires w.running != 1 ==> w.tasks[w.running].parentPid in w.tasks && w.tasks[w.running].parentPid != w.running
    ensures ExitRelated(w, Exited(w, status), status)
  {
  }

  lemma ExitFamily(w: World, w': World, status: int)
    requires FamilyValid(w) && w.running in w.tasks && ExitRelated(w, w', status)
    ensures FamilyValid(w')
  {
    hide Distinct;
    forall p, c
      ensures ChildValid(w', p, c)
    {
      assert ChildValid(w, p, c);
    }
    forall p
      ensures ParentValid(w', p)
    {
      assert ParentValid(w, p);
    }
  }

  lemma ExitWaiters(w: World, w': World, status: int)
    requires PidsValid(w) && FamilyValid(w) && NoLostWakeup(w) && WakeupsTrue(w) && w.running in w.tasks
    requires ExitRelated(w, w', status)
    requires w.tasks[w.running].state == Normal && w.tasks[w.running].resume == User
    ensures NoLostWakeup(w') && WakeupsTrue(w')
  {
    hide Distinct;
    assert ParentValid(w, w.running);
    forall p, c
      ensures !MissedExit(w', p, c)
    {
      assert ChildValid(w, p, c) && !MissedExit(w, p, c);
    }
    forall p
      ensures WakeupTrue(w', p)
    {
      assert WakeupTrue(w, p);
    }
  }

  /** What exit makes of one task. */
  ghost predicate ExitEffect(w: World, p: nat, after: Task, status: int)
    requires p in w.tasks && w.running in w.tasks
  {
    if p == w.running then after == w.tasks[p].(state := Terminated, exitStatus := status)
    else if w.running != 1 && p == w.tasks[w.running].parentPid && w.tasks[p].state == WaitingForChild
            && Accepts(w.tasks[p].suspensionArg, w.running)
    then after == Unsuspended(w.tasks[p], w.running)
    else after == w.tasks[p]
  }

  lemma WaitKeeps(w: World, arg: nat)
    requires Inv(w) && w.running != 0 && w.tasks[w.running].resume == User
    requires forall c :: !Reapable(w, arg, c)
    ensures Core(Waiting(w, arg))
  {
    hide TimerSources, ReaderSources;
    var w' := Waiting(w, arg);
    forall p, c
      ensures ChildValid(w', p, c) && !MissedExit(w', p, c)
    {
      assert ChildValid(w, p, c) && !MissedExit(w, p, c) && !Reapable(w, arg, c);
    }
    forall p
      ensures ParentValid(w', p) && WakeupTrue(w', p)
    {
      assert ParentValid(w, p) && WakeupTrue(w, p);
    }
  }

  lemma {:induction false} WithoutOne(s: seq<nat>, x: nat)
    requires Distinct(s)
    ensures Distinct(Without(s, x)) && forall y :: y in Without(s, x) <==> y in s && y != x
  {
    if s != [] {
      var rest := s[1..];
      assert Distinct(rest) && s[0] !in rest;
      if s[0] != x {
        WithoutOne(rest, x);
        assert Without(s, x) == [s[0]] + Without(rest, x);
      }
    }
  }

  /** Reaping a child that has no children of its own leaves a well-formed family. */
  lemma ReapKeeps(w: World, arg: nat, child: nat)
    requires Inv(w) && w.running != 0 && Reapable(w, arg, child) && w.tasks[child].children == []
    ensures child != w.running && Inv(Reaped(w, child))
  {
    hide TimerSources, ReaderSources, Distinct, Without;
    assert ChildValid(w, w.running, child) && ParentValid(w, w.running);
    WithoutOne(w.tasks[w.running].children, child);
    var w' := Reaped(w, child);
    forall p, c
      ensures ChildValid(w', p, c) && !MissedExit(w', p, c)
    {
      assert ChildValid(w, p, c) && !MissedExit(w, p, c) && ChildValid(w, p, child);
    }
    forall p
      ensures ParentValid(w', p) && WakeupTrue(w', p)
    {
      assert ParentValid(w, p) && WakeupTrue(w, p);
      if p in w.tasks {
        assert ChildValid(w, p, child) && ChildValid(w, p, w.tasks[p].returnValue);
        assert w.tasks[p].parentPid in w.tasks ==> ChildValid(w, w.tasks[p].parentPid, p);
      }
    }
  }

  /** The asserts after the switch in WaitForChild: the woken waiter's return value names a child it can reap. */
  lemma ResumedWaiterReaps(w: World)
    requires Inv(w) && w.running != 0 && w.tasks[w.running].resume == InWait
    ensures Reapable(w, w.tasks[w.running].suspensionArg, w.tasks[w.running].returnValue)
  {
    assert WakeupTrue(w, w.running);
  }

  lemma {:induction false} TimerSourcesAppended(timers: seq<TimerEntry>, entry: TimerEntry, p: nat)
    ensures TimerSources(timers + [entry], p) ==
            TimerSources(timers, p) + (if entry.unblockOnExpire && entry.pid == p then 1 else 0)
  {
    if timers == [] {
      assert timers + [entry] == [entry];
    } else {
      assert (timers + [entry])[1..] == timers[1..] + [entry];
      TimerSourcesAppended(timers[1..], entry, p);
    }
  }

  /** A Normal task changes to another state, or back, without touching its family or its waiting. */
  lemma UpdatedKeeps(w: World, w': World, task: Task)
    requires PidsValid(w) && FamilyValid(w) && NoLostWakeup(w) && WakeupsTrue(w)
    requires task.pid in w.tasks && w'.tasks == w.tasks[task.pid := task] && w'.nextPid == w.nextPid
    requires var before := w.tasks[task.pid];
             && task.parentPid == before.parentPid && task.children == before.children
             && before.state != Terminated && task.state != Terminated && task.state != WaitingForChild
             && task.resume != InWait
    ensures PidsValid(w') && FamilyValid(w') && NoLostWakeup(w') && WakeupsTrue(w')
  {
    hide Distinct;
    forall p, c
      ensures ChildValid(w', p, c) && !MissedExit(w', p, c)
    {
      assert ChildValid(w, p, c) && !MissedExit(w, p, c);
    }
    forall p
      ensures ParentValid(w', p) && WakeupTrue(w', p)
    {
      assert ParentValid(w, p) && WakeupTrue(w, p);
    }
  }

  lemma SleepKeeps(w: World, milliseconds: nat)
    requires Inv(w) && w.running != 0 && w.tasks[w.running].resume == User && milliseconds > 0
    ensures Core(Sleeping(w, milliseconds))
  {
    hide TimerSources, ReaderSources, FamilyValid, NoLostWakeup, WakeupsTrue;
    var w' := Sleeping(w, milliseconds);
    UpdatedKeeps(w, w', w'.tasks[w.running]);
    forall p
      ensures TimerSources(w'.timers, p) == TimerSources(w.timers, p) + (if p == w.running then 1 else 0)
    {
      TimerSourcesAppended(w.timers, TimerEntry(milliseconds, true, w.running), p);
    }
  }

  lemma ReadKeeps(w: World)
    requires Inv(w) && w.running != 0 && w.tasks[w.running].resume == User
    ensures Core(Reading(w))
  {
    hide TimerSources, FamilyValid, NoLostWakeup, WakeupsTrue;
    var w' := Reading(w);
    UpdatedKeeps(w, w', w'.tasks[w.running]);
  }

  /** A key press finds its reader in the queue, Blocked, and not running. */
  lemma KeyKeeps(w: World)
    requires Inv(w) && w.readers != []
    ensures w.readers[0] in w.tasks && w.tasks[w.readers[0]].state == Blocked && w.readers[0] != w.running
    ensures Inv(KeyPressed(w))
  {
    hide TimerSources, FamilyValid, NoLostWakeup;
    var reader := w.readers[0];
    assert w.readers == [reader] + w.readers[1..];
    assert multiset(w.readers)[reader] >= 1;
    assert TimerSources(w.timers, reader) + ReaderSources(w.readers, reader) ==
           if reader in w.tasks && w.tasks[reader].state == Blocked then 1 else 0;
    assert WakeupTrue(w, reader);
    hide WakeupsTrue;
    UpdatedKeeps(w, KeyPressed(w), Unsuspended(w.tasks[reader], 0));
  }

  lemma ExecuteKeeps(w: World)
    requires Inv(w) && w.running != 0 && w.tasks[w.running].resume == User && w.tasks[w.running].children == []
    ensures Core(Executed(w))
  {
    hide TimerSources, ReaderSources, FamilyValid, NoLostWakeup, WakeupsTrue;
    UpdatedKeeps(w, Executed(w), Executed(w).tasks[w.running]);
  }

  /** Execute forgets the children: exactly when there were some, a task is left that no parent knows. */
  lemma ExecuteExact(w: World)
    requires Inv(w) && w.running != 0 && w.tasks[w.running].resume == User
    ensures FamilyValid(Executed(w)) <==> w.tasks[w.running].children == []
  {
    hide TimerSources, ReaderSources, Distinct;
    if w.tasks[w.running].children == [] {
      ExecuteKeeps(w);
    } else {
      var c := w.tasks[w.running].children[0];
      assert ChildValid(w, w.running, c);
      assert !ParentValid(Executed(w), c);
    }
  }

  /** Reaping a child orphans the child's own children: the family stays intact exactly when it had none. */
  lemma ReapExact(w: World, arg: nat, child: nat)
    requires Inv(w) && w.running != 0 && Reapable(w, arg, child)
    ensures child != w.running && (FamilyValid(Reaped(w, child)) <==> w.tasks[child].children == [])
  {
    hide TimerSources, ReaderSources, Distinct, Without;
    assert ChildValid(w, w.running, child);
    if w.tasks[child].children == [] {
      ReapKeeps(w, arg, child);
    } else {
      var c := w.tasks[child].children[0];
      assert ChildValid(w, child, c) && ChildValid(w, c, child);
      assert !ParentValid(Reaped(w, child), c);
    }
  }

  /** Returning from a finished sleep or read to user code. */
  ghost function Returned(w: World): World
    requires w.running in w.tasks
  {
    Replaced(w, w.tasks[w.running].(resume := User))
  }

  lemma ReturnKeeps(w: World)
    requires Inv(w) && w.running != 0 && w.tasks[w.running].resume != InWait
    ensures Inv(Returned(w))
  {
    hide TimerSources, ReaderSources, FamilyValid, NoLostWakeup, WakeupsTrue;
    UpdatedKeeps(w, Returned(w), Returned(w).tasks[w.running]);
  }

  // ---- Whole runs ----

  datatype Action =
    | Tick(delta: nat)
    | Fork
    | Exit(status: int, delta: nat)
    | Wait(arg: nat, child: nat, delta: nat)
    | FinishWait
    | Sleep(milliseconds: nat, delta: nat)
    | Read(delta: nat)
    | FinishCall
    | Key
    | Execute(delta: nat)

  ghost predicate InUser(w: World) {
    w.running != 0 && w.running in w.tasks && w.tasks[w.running].resume == User
  }

  /** One atomic kernel step. Switches lose no task, only childless tasks are reaped or execute, and a suspended system
      call that was resumed runs to its end before anything else. */
  ghost predicate Step(w: World, a: Action, w': World) {
    match a
    case Tick(delta) => (w.running == 0 || InUser(w)) && Switched(w, delta, w')
    case Fork => InUser(w) && w' == Forked(w)
    case Exit(status, delta) => InUser(w) && Switched(Exited(w, status), delta, w')
    case Wait(arg, child, delta) =>
      && InUser(w)
      && if w.tasks[w.running].children == [] then w' == w
         else if exists c :: Reapable(w, arg, c) then
           Reapable(w, arg, child) && w.tasks[child].children == [] && child != w.running && w' == Reaped(w, child)
         else Switched(Waiting(w, arg), delta, w')
    case FinishWait =>
      && w.running != 0 && w.running in w.tasks && w.tasks[w.running].resume == InWait
      && (var child := w.tasks[w.running].returnValue;
          child in w.tasks && w.tasks[child].children == [] && child != w.running && w' == Reaped(w, child))
    case Sleep(milliseconds, delta) => InUser(w) && milliseconds > 0 && Switched(Sleeping(w, milliseconds), delta, w')
    case Read(delta) => InUser(w) && Switched(Reading(w), delta, w')
    case FinishCall =>
      w.running != 0 && w.running in w.tasks
      && (w.tasks[w.running].resume == InSleep || w.tasks[w.running].resume == InRead) && w' == Returned(w)
    case Key => (w.running == 0 || InUser(w)) && w.readers != [] && w.readers[0] in w.tasks && w' == KeyPressed(w)
    case Execute(delta) => InUser(w) && w.tasks[w.running].children == [] && Switched(Executed(w), delta, w')
  }

  /** The first process is in the queue and the core is idle. */
  ghost predicate Boot(w: World) {
    w == World(map[1 := Task(1, 0, Normal, 0, [], 0, User, 0)], 0, [], [], 2)
  }

  ghost predicate IsRun(states: seq<World>, actions: seq<Action>) {
    && |states| == |actions| + 1 && Boot(states[0])
    && forall i :: 0 <= i < |actions| ==> Step(states[i], actions[i], states[i + 1])
  }

  lemma BootIsFine(w: World)
    requires Boot(w)
    ensures Inv(w)
  {
    forall p, c
      ensures ChildValid(w, p, c) && !MissedExit(w, p, c) && ParentValid(w, p) && WakeupTrue(w, p)
    {
    }
  }

  lemma StepKeeps(w: World, a: Action, w': World)
    requires Inv(w) && Step(w, a, w')
    ensures Inv(w')
  {
    hide Core, Switched, Forked, Exited, Waiting, Reaped, Sleeping, Reading, KeyPressed, Executed, Returned;
    match a
    case Tick(delta) => SwitchKeeps(w, delta, w');
    case Fork => ForkKeeps(w);
    case Exit(status, delta) =>
      ExitKeeps(w, status);
      SwitchKeeps(Exited(w, status), delta, w');
    case Wait(arg, child, delta) =>
      if w.tasks[w.running].children != [] {
        if exists c :: Reapable(w, arg, c) {
          ReapKeeps(w, arg, child);
        } else {
          WaitKeeps(w, arg);
          SwitchKeeps(Waiting(w, arg), delta, w');
        }
      }
    case FinishWait =>
      ResumedWaiterReaps(w);
      ReapKeeps(w, w.tasks[w.running].suspensionArg, w.tasks[w.running].returnValue);
    case Sleep(milliseconds, delta) =>
      SleepKeeps(w, milliseconds);
      SwitchKeeps(Sleeping(w, milliseconds), delta, w');
    case Read(delta) =>
      ReadKeeps(w);
      SwitchKeeps(Reading(w), delta, w');
    case FinishCall => ReturnKeeps(w);
    case Key => KeyKeeps(w);
    case Execute(delta) =>
      ExecuteKeeps(w);
      SwitchKeeps(Executed(w), delta, w');
  }

  /** In every state of every run: no wake-up is lost, every told child is real, every Blocked task has exactly one wake
      source, and families are intact. */
  lemma {:induction false} InvariantOverRuns(states: seq<World>, actions: seq<Action>, k: nat)
    requires IsRun(states, actions) && k <= |actions|
    ensures Inv(states[k])
  {
    hide Inv, Step, Boot;
    if k == 0 {
      BootIsFine(states[0]);
    } else {
      InvariantOverRuns(states, actions, k - 1);
      StepKeeps(states[k - 1], actions[k - 1], states[k]);
    }
  }

  // ---- Exit statuses and pids over runs ----

  /** A terminated task stays as it is until it is reaped, and a pid that was handed out is never handed out again. */
  ghost predicate PidKept(w: World, w': World, p: nat) {
    && w.nextPid <= w'.nextPid && (p < w.nextPid && p !in w.tasks ==> p !in w'.tasks)
    && (p in w.tasks && w.tasks[p].state == Terminated && p in w'.tasks ==> w'.tasks[p] == w.tasks[p])
  }

  lemma SwitchKeepsPid(w: World, delta: nat, w': World, p: nat)
    requires Core(w) && Switched(w, delta, w')
    ensures PidKept(w, w', p)
  {
    hide WokenBy, Remaining, TimerSources, ReaderSources, FamilyValid, NoLostWakeup, WakeupsTrue, PidsValid;
    if WokenBy(w.timers, delta, p) { SleepersAreBlocked(w, delta, p); }
  }

  lemma CorePids(w: World)
    requires Core(w)
    ensures forall p :: p in w.tasks ==> w.tasks[p].pid == p < w.nextPid
  {
    hide FamilyValid, NoLostWakeup, WakeupsTrue, OneWakeSource;
  }

  lemma StepKeepsPid(w: World, a: Action, w': World, p: nat)
    requires Inv(w) && Step(w, a, w')
    ensures PidKept(w, w', p)
  {
    hide Core, Switched, Forked, Exited, Reaped, KeyPressed;
    CorePids(w);
    match a
    case Tick(delta) => SwitchKeepsPid(w, delta, w', p);
    case Fork => ForkKeepsPid(w, p);
    case Exit(status, delta) =>
      ExitKeeps(w, status);
      ExitKeepsPid(w, status, p);
      SwitchKeepsPid(Exited(w, status), delta, w', p);
    case Wait(arg, child, delta) =>
      if w.tasks[w.running].children != [] {
        if exists c :: Reapable(w, arg, c) {
          ReapKeepsPid(w, child, p);
        } else {
          WaitKeeps(w, arg);
          RunningKeepsPid(w, Waiting(w, arg), p);
          SwitchKeepsPid(Waiting(w, arg), delta, w', p);
        }
      }
    case FinishWait => ReapKeepsPid(w, w.tasks[w.running].returnValue, p);
    case Sleep(milliseconds, delta) =>
      SleepKeeps(w, milliseconds);
      RunningKeepsPid(w, Sleeping(w, milliseconds), p);
      SwitchKeepsPid(Sleeping(w, milliseconds), delta, w', p);
    case Read(delta) =>
      ReadKeeps(w);
      RunningKeepsPid(w, Reading(w), p);
      SwitchKeepsPid(Reading(w), delta, w', p);
    case FinishCall => RunningKeepsPid(w, Returned(w), p);
    case Key => KeyKeepsPid(w, p);
    case Execute(delta) =>
      ExecuteKeeps(w);
      RunningKeepsPid(w, Executed(w), p);
      SwitchKeepsPid(Executed(w), delta, w', p);
  }

  lemma RunningKeepsPid(w: World, w': World, p: nat)
    requires Inv(w) && w.running != 0 && w'.nextPid == w.nextPid && w'.tasks.Keys == w.tasks.Keys
    requires forall q :: q in w.tasks && q != w.running ==> w'.tasks[q] == w.tasks[q]
    ensures PidKept(w, w', p)
  {
  }

  lemma ForkKeepsPid(w: World, p: nat)
    requires Inv(w) && w.running != 0
    ensures PidKept(w, Forked(w), p)
  {
  }

  lemma ExitKeepsPid(w: World, status: int, p: nat)
    requires Inv(w) && w.running != 0
    ensures PidKept(w, Exited(w, status), p)
  {
  }

  lemma ReapKeepsPid(w: World, child: nat, p: nat)
    requires Inv(w) && w.running != 0 && child != w.running
    ensures PidKept(w, Reaped(w, child), p)
  {
  }

  lemma KeyKeepsPid(w: World, p: nat)
    requires Inv(w) && w.readers != [] && w.readers[0] in w.tasks
    ensures PidKept(w, KeyPressed(w), p)
  {
    KeyKeeps(w);
  }

  lemma ExitSetsStatus(w: World, a: Action, w': World)
    requires Inv(w) && a.Exit? && Step(w, a, w')
    ensures var p := w.running;
            && p in w'.tasks && w'.tasks[p].state == Terminated && w'.tasks[p].exitStatus == a.status
            && p < w'.nextPid
  {
    hide Core, Switched;
    var p, w1 := w.running, Exited(w, a.status);
    CorePids(w);
    ExitKeeps(w, a.status);
    SwitchKeepsKeys(w1, a.delta, w');
    SwitchKeepsPid(w1, a.delta, w', p);
  }

  lemma SwitchKeepsKeys(w: World, delta: nat, w': World)
    requires Switched(w, delta, w')
    ensures w'.tasks.Keys == w.tasks.Keys && w'.nextPid == w.nextPid
  {
  }

  /** The status a process exits with is the one its parent is told: until the process is reaped its task holds that
      status, and afterwards no task ever has its pid. */
  lemma {:induction false} ExitStatusKept(states: seq<World>, actions: seq<Action>, i: nat, k: nat)
    requires IsRun(states, actions) && i < k <= |actions| && actions[i].Exit?
    ensures var p := states[i].running;
            p in states[k].tasks ==>
              states[k].tasks[p].state == Terminated && states[k].tasks[p].exitStatus == actions[i].status
    ensures var p := states[i].running;
            p < states[k].nextPid && forall j :: i < j <= k && p !in states[j].tasks ==> p !in states[k].tasks
  {
    hide Inv, Step;
    var p, w, w', a := states[i].running, states[k - 1], states[k], actions[k - 1];
    assert Step(w, a, w');
    InvariantOverRuns(states, actions, k - 1);
    StepKeepsPid(w, a, w', p);
    if k == i + 1 {
      ExitSetsStatus(w, a, w');
    } else {
      ExitStatusKept(states, actions, i, k - 1);
    }
  }
}

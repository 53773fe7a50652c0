/** Runs from the boot on which the code does not do what one would expect: a switch that loses a task, a reaped task
    that leaves an orphan, and a program that forgets its children. The exact conditions are in Switching and
    Processes. */
module FailingRuns {
  import opened Processes
  import opened Switching
  import opened Timers
  import opened Schedulers
  import opened WakeSources

  function NewTask(pid: nat, parentPid: nat, children: seq<nat>): Task {
    Task(pid, parentPid, Normal, 0, children, 0, User, 0)
  }

  // ---- A lost task ----

  /** With three Normal tasks in the queue the first one is taken out and forgotten. */
  lemma ThreeNormalTasksLoseOne(a: Task, b: Task, c: Task)
    requires a.state == b.state == c.state == Normal && a != b && a != c
    ensures Select([a, b, c]) == Selection([a, c], [b]) && a !in Survivors([a, b, c])
  {
    assert [a, b, c][2..] == [c] && [c][1..] == [];
    assert Select([c]) == Selection([c], []);
  }

  lemma OneNormalTaskRuns(a: Task)
    requires a.state == Normal
    ensures Select([a]) == Selection([a], [])
  {
  }

  lemma NobodySleeps(queue: seq<Task>, delta: nat)
    ensures WokenQueue(queue, [], 0, delta) == queue && Remaining([], delta) == [] && Closest([]) == DEFAULT_TIME
  {
  }

  /** The boot, the first switch and two forks. */
  method BootAndForkTwice(idle: Task) returns (scheduler: Scheduler)
    ensures fresh(scheduler) && scheduler.Valid() && scheduler.restoreFrame && scheduler.timerEntries == []
    ensures scheduler.taskQueue == [NewTask(2, 1, []), NewTask(3, 1, [])]
    ensures scheduler.currentTask == NewTask(1, 0, [2, 3]) && scheduler.nextPid == 4
    ensures scheduler.currentTimerTime == DEFAULT_TIME
  {
    hide LossySwitched, Awake, Inv, Switched, Select, WokenQueue, Remaining, Closest, OneWakeSource, PidsValid, ByPid,
         Unique;
    var first := NewTask(1, 0, []);
    scheduler := new Scheduler(first, idle);
    NobodySleeps([first], 1);
    OneNormalTaskRuns(first);
    ReadyToSwitch(scheduler.Now());
    scheduler.SwitchToNextTask(1);
    var a := scheduler.ForkCurrentTask();
    var b := scheduler.ForkCurrentTask();
    assert a == 2 && b == 3 && first.children + [2] + [3] == [2, 3];
  }

  /** Two forks and a timer tick after the boot, process 2 is gone, although it never exited. */
  method TwoForksLoseProcessTwo(idle: Task) returns (scheduler: Scheduler)
    ensures fresh(scheduler) && scheduler.taskQueue == [NewTask(3, 1, [])]
    ensures scheduler.restoreFrame && scheduler.currentTask == NewTask(1, 0, [2, 3]) && scheduler.nextPid == 4
    ensures 2 !in ByPid(scheduler.Tasks())
  {
    hide LossySwitched, Awake, Inv, Switched, Select, WokenQueue, Remaining, Closest, OneWakeSource, PidsValid, ByPid,
         Unique;
    scheduler := BootAndForkTwice(idle);
    ghost var second, third, parent := NewTask(2, 1, []), NewTask(3, 1, []), NewTask(1, 0, [2, 3]);
    assert scheduler.Tasks() == [second, third, parent];
    NobodySleeps([second, third, parent], 1);
    ThreeNormalTasksLoseOne(second, third, parent);
    ReadyToSwitch(scheduler.Now());
    scheduler.SwitchToNextTask(1);
    assert scheduler.Tasks() == [third, parent];
    NotAmong([third, parent], 2);
  }

  lemma ReadyToSwitch(w: World)
    requires Inv(w)
    ensures Core(w) && OneWakeSource(w) && PidsValid(w)
  {
  }

  lemma NotAmong(tasks: seq<Task>, pid: nat)
    requires forall i :: 0 <= i < |tasks| ==> tasks[i].pid != pid
    ensures pid !in ByPid(tasks)
  {
    hide ByPid;
    if pid in ByPid(tasks) { ByPidFinds(tasks, pid); }
  }

  // ---- Orphans ----

  lemma PlainSwitch(w: World, w': World, delta: nat)
    requires w.timers == [] && w' == w.(running := w'.running) && w'.running in w.tasks
    requires w.tasks[w'.running].state == Normal
    requires w'.running != 0
    ensures Switched(w, delta, w')
  {
    assert Woken(w.tasks, [], delta) == w.tasks;
  }

  function Running(tasks: map<nat, Task>, running: nat, nextPid: nat): World {
    World(tasks, running, [], [], nextPid)
  }

  const waiter: Task := NewTask(1, 0, [2]).(state := WaitingForChild, resume := InWait)
  const middle: Task := NewTask(2, 1, [3])

  const booted: World := Running(map[1 := NewTask(1, 0, [])], 0, 2)
  const started: World := Running(map[1 := NewTask(1, 0, [])], 1, 2)
  const forked: World := Running(map[1 := NewTask(1, 0, [2]), 2 := NewTask(2, 1, [])], 1, 3)
  const waiting: World := Running(map[1 := waiter, 2 := NewTask(2, 1, [])], 2, 3)
  const forkedAgain: World := Running(map[1 := waiter, 2 := middle, 3 := NewTask(3, 2, [])], 2, 4)

  /** Process 1 was woken by the exit of 2, which had forked 3. */
  const orphaning: World :=
    Running(map[1 := Unsuspended(waiter, 2), 2 := middle.(state := Terminated), 3 := NewTask(3, 2, [])], 1, 4)

  lemma StartsAndForks()
    ensures Processes.Step(booted, Tick(1), started) && Processes.Step(started, Fork, forked)
  {
    PlainSwitch(booted, started, 1);
    assert started.tasks[1].children + [2] == [2];
  }

  lemma Waits()
    ensures Processes.Step(forked, Wait(0, 0, 1), waiting)
  {
    hide Switched;
    NothingToReap(forked);
    assert Waiting(forked, 0) == waiting.(running := 1);
    PlainSwitch(Waiting(forked, 0), waiting, 1);
  }

  lemma ForksAndExits()
    ensures Processes.Step(waiting, Fork, forkedAgain) && Processes.Step(forkedAgain, Exit(0, 1), orphaning)
  {
    hide Switched;
    assert waiting.tasks[2].children + [3] == [3];
    assert Exited(forkedAgain, 0) == orphaning.(running := 2);
    PlainSwitch(Exited(forkedAgain, 0), orphaning, 1);
  }

  /** Process 1 forks 2 and waits; 2 forks 3 and exits. */
  lemma OrphaningIsReached() returns (states: seq<World>, actions: seq<Action>)
    ensures Processes.IsRun(states, actions) && states[|actions|] == orphaning
  {
    hide Processes.Step;
    StartsAndForks();
    Waits();
    ForksAndExits();
    states := [booted, started, forked, waiting, forkedAgain, orphaning];
    actions := [Tick(1), Fork, Wait(0, 0, 1), Fork, Exit(0, 1)];
    StepsAre(states, actions);
  }

  /** There 1 reaps 2, as it was told to. Process 3 is left with a parent that does not exist, so that its own exit
      panics. */
  lemma ReapingLeavesAnOrphan()
    ensures var w := orphaning;
            && w.running in w.tasks && w.tasks[1].resume == InWait && w.tasks[1].returnValue == 2
            && Reapable(w, w.tasks[1].suspensionArg, 2) && w.tasks[2].children == [3] && w.tasks[3].state == Normal
            && (var w' := Reaped(w, 2); 3 in w'.tasks && w'.tasks[3].parentPid !in w'.tasks && !FamilyValid(w'))
  {
    assert !ParentValid(Reaped(orphaning, 2), 3);
  }

  lemma NothingToReap(w: World)
    requires w.running in w.tasks && forall p :: p in w.tasks ==> w.tasks[p].state != Terminated
    ensures forall c :: !Reapable(w, 0, c)
  {
  }

  lemma StepsAre(states: seq<World>, actions: seq<Action>)
    requires |states| == |actions| + 1 && Boot(states[0])
    requires forall i :: 0 <= i < |actions| ==> Processes.Step(states[i], actions[i], states[i + 1])
    ensures Processes.IsRun(states, actions)
  {
  }

  /** Process 1 forks 2 and executes another program: 2 still names 1 as its parent, but 1 has no children to wait
      for. */
  lemma ExecuteForgetsAChild() returns (states: seq<World>, actions: seq<Action>)
    ensures Processes.IsRun(states, actions)
    ensures var w := states[|actions|];
            && w.running == 1 && w.tasks.Keys == {1, 2} && w.tasks[1].children == [2] && InUser(w)
            && (var w' := Executed(w); w'.tasks[2].parentPid == 1 && w'.tasks[1].children == [] && !FamilyValid(w'))
  {
    hide Processes.Step;
    StartsAndForks();
    states := [booted, started, forked];
    actions := [Tick(1), Fork];
    StepsAre(states, actions);
    assert !ParentValid(Executed(forked), 2);
  }
}

/** What holds of wake sources in all runs of the process lifecycle, also in those where switches lose tasks and
    where tasks with children are reaped or execute (kernel/src/Scheduler.cpp, kernel/src/TerminalDevice.cpp). */
module WakeSources {
  import opened Processes

  /** A switch as the code does it: expired sleepers wake up, and any number of Normal tasks may get lost. */
  ghost predicate LossySwitched(w: World, delta: nat, w': World) {
    var woken := Woken(w.tasks, w.timers, delta);
    && (forall p :: p in w'.tasks ==> p in woken && w'.tasks[p] == woken[p])
    && (forall p :: p in woken && p !in w'.tasks ==> woken[p].state == Normal)
    && w'.timers == Remaining(w.timers, delta) && w'.readers == w.readers && w'.nextPid == w.nextPid
    && if w'.running == 0 then forall p :: p in w'.tasks ==> w'.tasks[p].state != Normal
       else w'.running in w'.tasks && w'.tasks[w'.running].state == Normal
  }

  /** One atomic kernel step that does not panic, without any restriction on switches, reaping and execute. */
  ghost predicate AnyStep(w: World, a: Action, w': World) {
    match a
    case Tick(delta) => (w.running == 0 || InUser(w)) && LossySwitched(w, delta, w')
    case Fork => InUser(w) && w' == Forked(w)
    case Exit(status, delta) =>
      InUser(w) && (w.running == 1 || w.tasks[w.running].parentPid in w.tasks)
      && LossySwitched(Exited(w, status), delta, w')
    case Wait(arg, child, delta) =>
      && InUser(w)
      && if w.tasks[w.running].children == [] then w' == w
         else if exists c ::
                   Reapable(w, arg, c) then Reapable(w, arg, child) && child != w.running && w' == Reaped(w, child)
         else LossySwitched(Waiting(w, arg), delta, w')
    case FinishWait =>
      && w.running != 0 && w.running in w.tasks && w.tasks[w.running].resume == InWait
      && (var child := w.tasks[w.running].returnValue;
          child in w.tasks && w.tasks[child].state == Terminated && child != w.running && w' == Reaped(w, child))
    case Sleep(milliseconds, delta) => InUser(w) && milliseconds > 0
                                       && LossySwitched(Sleeping(w, milliseconds), delta, w')
    case Read(delta) => InUser(w) && LossySwitched(Reading(w), delta, w')
    case FinishCall =>
      && w.running != 0 && w.running in w.tasks
      && (w.tasks[w.running].resume == InSleep || w.tasks[w.running].resume == InRead) && w' == Returned(w)
    case Key =>
      (w.running == 0 || InUser(w)) && w.readers != [] && w.readers[0] in w.tasks && w' == KeyPressed(w)
    case Execute(delta) => InUser(w) && LossySwitched(Executed(w), delta, w')
  }

  /** Pids are in order and Blocked tasks have exactly one wake source. */
  ghost predicate Sourced(w: World) {
    PidsValid(w) && OneWakeSource(w)
  }

  ghost predicate Awake(w: World) {
    && Sourced(w) && (forall i :: 0 <= i < |w.timers| ==> w.timers[i].milliseconds > 0)
    && (w.running != 0 ==> w.running in w.tasks && w.tasks[w.running].state == Normal)
  }

  lemma InvIsAwake(w: World)
    requires Inv(w)
    ensures Awake(w)
  {
    hide OneWakeSource, FamilyValid, NoLostWakeup, WakeupsTrue;
  }

  /** Only Normal tasks get lost, and they have no wake source. */
  lemma LossySwitchKeeps(w: World, delta: nat, w': World)
    requires Sourced(w) && LossySwitched(w, delta, w')
    ensures Awake(w')
  {
    hide TimerSources, Remaining, WokenBy, ReaderSources;
    forall p
      ensures TimerSources(w'.timers, p) + ReaderSources(w'.readers, p) ==
              if p in w'.tasks && w'.tasks[p].state == Blocked then 1 else 0
    {
      TimerSourcesRemaining(w.timers, delta, p);
      if WokenBy(w.timers, delta, p) { SleepersAreBlocked(w, delta, p); }
    }
    TimerSourcesRemaining(w.timers, delta, 0);
  }

  /** Tasks that change between states other than Blocked, or come or go in one, keep every wake source in place. */
  lemma UnblockedChange(w: World, w': World)
    requires OneWakeSource(w) && w'.timers == w.timers && w'.readers == w.readers
    requires forall p :: (p in w'.tasks && w'.tasks[p].state == Blocked) <==>
             (p in w.tasks && w.tasks[p].state == Blocked)
    ensures OneWakeSource(w')
  {
    hide TimerSources, ReaderSources;
  }

  lemma SleepSources(w: World, milliseconds: nat)
    requires Awake(w) && w.running != 0
    ensures Sourced(Sleeping(w, milliseconds))
  {
    hide TimerSources, ReaderSources;
    forall p
      ensures TimerSources(Sleeping(w, milliseconds).timers, p) ==
              TimerSources(w.timers, p) + (if p == w.running then 1 else 0)
    {
      TimerSourcesAppended(w.timers, TimerEntry(milliseconds, true, w.running), p);
    }
  }

  lemma ReadSources(w: World)
    requires Awake(w) && w.running != 0
    ensures Sourced(Reading(w))
  {
    hide TimerSources;
  }

  /** A key press finds its reader among the tasks, Blocked and not running. */
  lemma ReaderIsBlocked(w: World)
    requires Awake(w) && w.readers != []
    ensures w.readers[0] in w.tasks && w.tasks[w.readers[0]].state == Blocked && w.readers[0] != w.running
  {
    hide TimerSources;
    assert w.readers == [w.readers[0]] + w.readers[1..];
    assert multiset(w.readers)[w.readers[0]] >= 1;
    assert TimerSources(w.timers, w.readers[0]) + ReaderSources(w.readers, w.readers[0]) ==
           if w.readers[0] in w.tasks && w.tasks[w.readers[0]].state == Blocked then 1 else 0;
  }

  lemma KeySources(w: World)
    requires Awake(w) && w.readers != []
    ensures w.readers[0] in w.tasks && Awake(KeyPressed(w))
  {
    hide TimerSources;
    ReaderIsBlocked(w);
    assert w.readers == [w.readers[0]] + w.readers[1..];
  }

  lemma ForkSources(w: World)
    requires Awake(w) && w.running != 0
    ensures Awake(Forked(w))
  {
    hide OneWakeSource;
    UnblockedChange(w, Forked(w));
  }

  lemma ReturnSources(w: World)
    requires Awake(w) && w.running != 0
    ensures Awake(Returned(w))
  {
    hide OneWakeSource;
    UnblockedChange(w, Returned(w));
  }

  lemma ExecuteSources(w: World)
    requires Awake(w) && w.running != 0
    ensures Sourced(Executed(w))
  {
    hide OneWakeSource;
    UnblockedChange(w, Executed(w));
  }

  lemma WaitSources(w: World, arg: nat)
    requires Awake(w) && w.running != 0
    ensures Sourced(Waiting(w, arg))
  {
    hide OneWakeSource;
    UnblockedChange(w, Waiting(w, arg));
  }

  lemma ExitSources(w: World, status: int)
    requires Awake(w) && w.running != 0
    ensures Sourced(Exited(w, status))
  {
    hide OneWakeSource;
    UnblockedChange(w, Exited(w, status));
  }

  lemma ReapSources(w: World, child: nat)
    requires Awake(w) && w.running != 0 && child != w.running && child in w.tasks && w.tasks[child].state == Terminated
    ensures Awake(Reaped(w, child))
  {
    hide OneWakeSource, Without;
    UnblockedChange(w, Reaped(w, child));
  }

  /** Every step that does not panic keeps the wake sources. */
  lemma AnyStepKeeps(w: World, a: Action, w': World)
    requires Awake(w) && AnyStep(w, a, w')
    ensures Awake(w')
  {
    hide LossySwitched, Sourced, Forked, Returned, Executed, Waiting, Exited, Reaped, Sleeping, Reading, KeyPressed;
    match a
    case Tick(delta) => LossySwitchKeeps(w, delta, w');
    case Fork => ForkSources(w);
    case Exit(status, delta) =>
      ExitSources(w, status);
      LossySwitchKeeps(Exited(w, status), delta, w');
    case Wait(arg, child, delta) =>
      if w.tasks[w.running].children != [] {
        if exists c :: Reapable(w, arg, c) {
          ReapSources(w, child);
        } else {
          WaitSources(w, arg);
          LossySwitchKeeps(Waiting(w, arg), delta, w');
        }
      }
    case FinishWait => ReapSources(w, w.tasks[w.running].returnValue);
    case Sleep(milliseconds, delta) =>
      SleepSources(w, milliseconds);
      LossySwitchKeeps(Sleeping(w, milliseconds), delta, w');
    case Read(delta) =>
      ReadSources(w);
      LossySwitchKeeps(Reading(w), delta, w');
    case FinishCall => ReturnSources(w);
    case Key => KeySources(w);
    case Execute(delta) =>
      ExecuteSources(w);
      LossySwitchKeeps(Executed(w), delta, w');
  }

  ghost predicate IsAnyRun(states: seq<World>, actions: seq<Action>) {
    && |states| == |actions| + 1 && Boot(states[0])
    && forall i :: 0 <= i < |actions| ==> AnyStep(states[i], actions[i], states[i + 1])
  }

  /** In every state of every run, whatever gets lost or orphaned, Blocked tasks have exactly one wake source and
      nothing else has any. */
  lemma {:induction false} SourcesOverRuns(states: seq<World>, actions: seq<Action>, k: nat)
    requires IsAnyRun(states, actions) && k <= |actions|
    ensures Awake(states[k])
  {
    hide Awake, AnyStep;
    if k == 0 {
      BootIsAwake(states[0]);
    } else {
      SourcesOverRuns(states, actions, k - 1);
      AnyStepKeeps(states[k - 1], actions[k - 1], states[k]);
    }
  }

  lemma BootIsAwake(w: World)
    requires Boot(w)
    ensures Awake(w)
  {
  }

  /** So neither a timer nor a key ever asks for a task that is missing or not suspended. */
  lemma WakeupsFindTheirTask(states: seq<World>, actions: seq<Action>, k: nat, delta: nat, p: nat)
    requires IsAnyRun(states, actions) && k <= |actions|
    ensures var w := states[k];
            && (WokenBy(w.timers, delta, p) ==> p in w.tasks && w.tasks[p].state == Blocked)
            && (w.readers != [] ==> w.readers[0] in w.tasks && w.tasks[w.readers[0]].state == Blocked)
  {
    hide AnyStep;
    SourcesOverRuns(states, actions, k);
    if WokenBy(states[k].timers, delta, p) { SleepersAreBlocked(states[k], delta, p); }
    if states[k].readers != [] { ReaderIsBlocked(states[k]); }
  }
}

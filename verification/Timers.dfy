/** Timer arithmetic over whole runs (SleepCurrentTask, UpdateTimerEntries and ConfigureTimerClosestExpiry in
    kernel/src/Scheduler.cpp). The time the local APIC reports is an input of every update. */
module Timers {
  import opened Processes

  const DEFAULT_TIME: nat := 5

  /** The time programmed next: the smallest remaining one, at most the default. */
  function Closest(timers: seq<TimerEntry>): (r: nat)
    ensures r <= DEFAULT_TIME && forall i :: 0 <= i < |timers| ==> r <= timers[i].milliseconds
    ensures r == DEFAULT_TIME || exists i :: 0 <= i < |timers| && r == timers[i].milliseconds
  {
    if timers == [] then DEFAULT_TIME
    else
      var rest := Closest(timers[1..]);
      if timers[0].milliseconds < rest then timers[0].milliseconds else rest
  }

  datatype State = State(timers: seq<TimerEntry>, programmed: nat, clock: nat)

  datatype Event = Push(milliseconds: nat, pid: nat) | Update(delta: nat)

  /** The code asserts that time has passed, and the hardware counts down from the programmed time. */
  ghost predicate Step(s: State, e: Event, s': State) {
    match e
    case Push(milliseconds, pid) =>
      milliseconds > 0 && s' == s.(timers := s.timers + [TimerEntry(milliseconds, true, pid)])
    case Update(delta) =>
      && 1 <= delta <= s.programmed
      && s' == State(Remaining(s.timers, delta), Closest(Remaining(s.timers, delta)), s.clock + delta)
  }

  ghost predicate IsRun(states: seq<State>, events: seq<Event>) {
    && |states| == |events| + 1 && states[0] == State([], Closest([]), 0)
    && forall i :: 0 <= i < |events| ==> Step(states[i], events[i], states[i + 1])
  }

  /** Milliseconds reported by the updates among events `from .. to`. */
  ghost function Elapsed(events: seq<Event>, from: nat, to: nat): nat
    requires from <= to <= |events|
  {
    if from == to then 0
    else Elapsed(events, from, to - 1) + (if events[to - 1].Update? then events[to - 1].delta else 0)
  }

  lemma {:induction false} RemainingPositive(timers: seq<TimerEntry>, delta: nat)
    ensures forall i :: 0 <= i < |Remaining(timers, delta)| ==> Remaining(timers, delta)[i].milliseconds > 0
  {
    if timers != [] { RemainingPositive(timers[1..], delta); }
  }

  /** Remaining times are always positive, so the timer is never programmed to 0, and the clock is the sum of all
      updates. */
  lemma {:induction false} TimerNeverStops(states: seq<State>, events: seq<Event>, k: nat)
    requires IsRun(states, events) && k <= |events|
    ensures forall i :: 0 <= i < |states[k].timers| ==> states[k].timers[i].milliseconds > 0
    ensures 1 <= states[k].programmed <= DEFAULT_TIME
    ensures states[k].clock == Elapsed(events, 0, k)
  {
    hide Remaining;
    if k > 0 {
      TimerNeverStops(states, events, k - 1);
      assert Step(states[k - 1], events[k - 1], states[k]);
      if events[k - 1].Update? { RemainingPositive(states[k - 1].timers, events[k - 1].delta); }
    }
  }

  // ---- One sleeper ----

  datatype Left = Nothing | Time(milliseconds: nat)

  /** What is left for a pid, if it has an entry. */
  ghost function LeftFor(timers: seq<TimerEntry>, pid: nat): Left {
    if timers == [] then Nothing
    else if timers[0].pid == pid then Time(timers[0].milliseconds) else LeftFor(timers[1..], pid)
  }

  ghost function Entries(timers: seq<TimerEntry>, pid: nat): nat {
    if timers == [] then 0 else (if timers[0].pid == pid then 1 else 0) + Entries(timers[1..], pid)
  }

  lemma {:induction false} NoEntries(timers: seq<TimerEntry>, pid: nat)
    ensures Entries(timers, pid) == 0 <==> LeftFor(timers, pid) == Nothing
  {
    if timers != [] { NoEntries(timers[1..], pid); }
  }

  lemma {:induction false} LeftAfterPush(timers: seq<TimerEntry>, entry: TimerEntry, pid: nat)
    ensures LeftFor(timers + [entry], pid) ==
            if LeftFor(timers, pid) != Nothing then LeftFor(timers, pid)
            else if entry.pid == pid then Time(entry.milliseconds) else Nothing
    ensures Entries(timers + [entry], pid) == Entries(timers, pid) + (if entry.pid == pid then 1 else 0)
  {
    if timers == [] {
      assert timers + [entry] == [entry];
    } else {
      assert (timers + [entry])[1..] == timers[1..] + [entry];
      LeftAfterPush(timers[1..], entry, pid);
    }
  }

  /** An update shortens the entry, or removes it when the time is up. */
  lemma {:induction false} LeftAfterUpdate(timers: seq<TimerEntry>, delta: nat, pid: nat)
    requires Entries(timers, pid) <= 1
    ensures Entries(Remaining(timers, delta), pid) <= Entries(timers, pid)
    ensures LeftFor(Remaining(timers, delta), pid) ==
            match LeftFor(timers, pid)
            case Nothing => Nothing
            case Time(left) => if left <= delta then Nothing else Time(left - delta)
  {
    if timers != [] {
      var rest := Remaining(timers[1..], delta);
      LeftAfterUpdate(timers[1..], delta, pid);
      NoEntries(timers[1..], pid);
      if Expires(timers[0], delta) {
        assert Remaining(timers, delta) == rest;
      } else {
        var head := timers[0].(milliseconds := timers[0].milliseconds - delta);
        assert Remaining(timers, delta) == [head] + rest && ([head] + rest)[1..] == rest;
      }
    }
  }

  /** Event `start` puts `pid` to sleep while it has no entry, and it sleeps only once until event `end`. */
  ghost predicate SleepsOnce(states: seq<State>, events: seq<Event>, start: nat, end: nat)
    requires |states| == |events| + 1
  {
    && start < end <= |events| && events[start].Push? && Entries(states[start].timers, events[start].pid) == 0
    && forall j :: start < j < end ==> !(events[j].Push? && events[j].pid == events[start].pid)
  }

  /** While it sleeps, a sleeper's entry holds its request minus the time that has passed, and it is woken by the first
      update at which the time passed since its push reaches the request. */
  lemma {:induction false} SleeperLeft(states: seq<State>, events: seq<Event>, start: nat, k: nat)
    requires IsRun(states, events) && SleepsOnce(states, events, start, k)
    ensures var pid, request := events[start].pid, events[start].milliseconds;
            && Entries(states[k].timers, pid) <= 1
            && LeftFor(states[k].timers, pid) ==
               if Elapsed(events, start + 1, k) < request then Time(request - Elapsed(events, start + 1, k))
               else Nothing
  {
    hide Remaining, Entries, LeftFor, Closest;
    var pid := events[start].pid;
    var s, e := states[k - 1], events[k - 1];
    assert Step(s, e, states[k]);
    if k == start + 1 {
      NoEntries(s.timers, pid);
      LeftAfterPush(s.timers, TimerEntry(e.milliseconds, true, e.pid), pid);
    } else {
      SleeperLeft(states, events, start, k - 1);
      if e.Push? {
        LeftAfterPush(s.timers, TimerEntry(e.milliseconds, true, e.pid), pid);
        NoEntries(s.timers, pid);
        TimerNeverStops(states, events, k - 1);
      } else {
        LeftAfterUpdate(s.timers, e.delta, pid);
      }
    }
  }

  lemma {:induction false} LeftIsEntry(timers: seq<TimerEntry>, pid: nat)
    requires LeftFor(timers, pid) != Nothing
    ensures exists i :: 0 <= i < |timers| && timers[i].milliseconds == LeftFor(timers, pid).milliseconds
  {
    if timers[0].pid == pid {
      assert timers[0].milliseconds == LeftFor(timers, pid).milliseconds;
    } else {
      LeftIsEntry(timers[1..], pid);
      var i :| 0 <= i < |timers[1..]| && timers[1..][i].milliseconds == LeftFor(timers[1..], pid).milliseconds;
      assert timers[i + 1].milliseconds == LeftFor(timers, pid).milliseconds;
    }
  }

  /** After any update since the push, the programmed time does not exceed what is left. */
  lemma {:induction false} ProgrammedInTime(states: seq<State>, events: seq<Event>, start: nat, k: nat)
    requires IsRun(states, events) && SleepsOnce(states, events, start, k)
    requires exists j :: start < j < k && events[j].Update?
    requires Elapsed(events, start + 1, k) < events[start].milliseconds
    ensures states[k].programmed <= events[start].milliseconds - Elapsed(events, start + 1, k)
  {
    hide Remaining, Entries, LeftFor;
    SleeperLeft(states, events, start, k);
    var s, e := states[k - 1], events[k - 1];
    assert Step(s, e, states[k]);
    if e.Update? {
      LeftIsEntry(states[k].timers, events[start].pid);
    } else {
      ProgrammedInTime(states, events, start, k - 1);
    }
  }

  /** No overshoot: unless it is the first update after the push, the update that wakes a sleeper ends exactly at the
      requested time. */
  lemma WokenExactly(states: seq<State>, events: seq<Event>, start: nat, k: nat)
    requires IsRun(states, events) && SleepsOnce(states, events, start, k) && k < |events| && events[k].Update?
    requires exists j :: start < j < k && events[j].Update?
    requires Elapsed(events, start + 1, k) < events[start].milliseconds <= Elapsed(events, start + 1, k + 1)
    ensures Elapsed(events, start + 1, k + 1) == events[start].milliseconds
  {
    ProgrammedInTime(states, events, start, k);
    assert Step(states[k], events[k], states[k + 1]);
  }
}

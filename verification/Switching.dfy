/** The selection loop of SwitchToNextTask (kernel/src/Scheduler.cpp), which goes on after it has found a task. */
module Switching {
  import opened Processes

  /** What the loop takes out of the queue, in order, and what it leaves. After every task it takes it skips one. */
  datatype Selection = Selection(popped: seq<Task>, rest: seq<Task>)

  function Select(queue: seq<Task>): Selection {
    if queue == [] then Selection([], [])
    else if queue[0].state == Normal then
      if |queue| == 1 then Selection([queue[0]], [])
      else
        var later := Select(queue[2..]);
        Selection([queue[0]] + later.popped, [queue[1]] + later.rest)
    else
      var later := Select(queue[1..]);
      Selection(later.popped, [queue[0]] + later.rest)
  }

  lemma Interleaved(a: Task, b: Task, tail: seq<Task>, p: seq<Task>, r: seq<Task>)
    requires multiset(tail) == multiset(p) + multiset(r)
    ensures multiset([a] + [b] + tail) == multiset([a] + p) + multiset([b] + r)
    ensures multiset([b] + tail) == multiset(p) + multiset([b] + r)
  {
    assert multiset([a] + [b] + tail) == multiset{a} + multiset{b} + multiset(tail);
    assert multiset([a] + p) == multiset{a} + multiset(p) && multiset([b] + r) == multiset{b} + multiset(r);
    assert multiset([b] + tail) == multiset{b} + multiset(tail);
  }

  /** No task is duplicated or invented. */
  lemma {:induction false} SelectPartitions(queue: seq<Task>)
    ensures multiset(queue) == multiset(Select(queue).popped) + multiset(Select(queue).rest)
    decreases |queue|
  {
    if queue == [] {
    } else if queue[0].state != Normal {
      var tail := queue[1..];
      var later := Select(tail);
      assert Select(queue) == Selection(later.popped, [queue[0]] + later.rest);
      assert queue == [queue[0]] + tail;
      hide Select;
      SelectPartitions(tail);
      Interleaved(queue[0], queue[0], tail, later.popped, later.rest);
    } else if |queue| == 1 {
      assert queue == [queue[0]];
    } else {
      var tail := queue[2..];
      var later := Select(tail);
      assert Select(queue) == Selection([queue[0]] + later.popped, [queue[1]] + later.rest);
      assert queue == [queue[0]] + [queue[1]] + tail;
      hide Select;
      SelectPartitions(tail);
      Interleaved(queue[0], queue[1], tail, later.popped, later.rest);
    }
  }

  ghost predicate NormalFrom(queue: seq<Task>, from: nat) {
    exists k :: from <= k < |queue| && queue[k].state == Normal
  }

  /** `i` is the first place with a Normal task. */
  ghost predicate FirstNormal(queue: seq<Task>, i: nat) {
    i < |queue| && queue[i].state == Normal && forall k :: 0 <= k < i ==> queue[k].state != Normal
  }

  lemma {:induction false} SelectNone(queue: seq<Task>)
    ensures Select(queue).popped == [] <==> !NormalFrom(queue, 0)
    ensures Select(queue).popped == [] ==> Select(queue).rest == queue
    decreases |queue|
  {
    if queue != [] && queue[0].state != Normal {
      SelectNone(queue[1..]);
      assert forall k :: 1 <= k < |queue| ==> queue[k] == queue[1..][k - 1];
    } else if queue != [] {
      assert queue[0].state == Normal;
    }
  }

  /** Exactly one task is taken iff no Normal task comes two or more places after the first one; then it is the
      first. */
  lemma {:induction false} SelectOne(queue: seq<Task>, i: nat)
    requires FirstNormal(queue, i)
    ensures |Select(queue).popped| >= 1
    ensures |Select(queue).popped| == 1 <==> !NormalFrom(queue, i + 2)
    ensures |Select(queue).popped| == 1 ==>
              Select(queue).popped == [queue[i]] && Select(queue).rest == queue[..i] + queue[i + 1..]
    decreases |queue|
  {
    hide NormalFrom;
    if i == 0 {
      if |queue| > 1 {
        SelectNone(queue[2..]);
        NormalShifted(queue, 2, 0);
        assert queue[1..] == [queue[1]] + queue[2..];
      } else {
        NothingBeyond(queue, 2);
      }
    } else {
      var tail := queue[1..];
      assert forall k :: 1 <= k < |queue| ==> queue[k] == tail[k - 1];
      SelectOne(tail, i - 1);
      NormalShifted(queue, 1, i + 1);
      WithoutOnePlace(queue, i);
    }
  }

  lemma NothingBeyond(queue: seq<Task>, from: nat)
    requires from >= |queue|
    ensures !NormalFrom(queue, from)
  {
  }

  lemma NormalShifted(queue: seq<Task>, drop: nat, from: nat)
    requires drop <= |queue|
    ensures NormalFrom(queue[drop..], from) <==> NormalFrom(queue, drop + from)
  {
    var tail := queue[drop..];
    assert forall k :: 0 <= k < |tail| ==> tail[k] == queue[k + drop];
    if NormalFrom(queue, drop + from) {
      var k :| drop + from <= k < |queue| && queue[k].state == Normal;
      assert tail[k - drop].state == Normal;
    }
  }

  lemma WithoutOnePlace(queue: seq<Task>, i: nat)
    requires 0 < i < |queue|
    ensures queue[1..][i - 1] == queue[i]
    ensures queue[..i] + queue[i + 1..] == [queue[0]] + (queue[1..][..i - 1] + queue[1..][i..])
  {
  }

  /** Tasks that are not Normal. */
  ghost function NotNormal(queue: seq<Task>): seq<Task> {
    if queue == [] then []
    else (if queue[0].state == Normal then [] else [queue[0]]) + NotNormal(queue[1..])
  }

  /** Terminated, Blocked and waiting tasks all stay, in their order. */
  lemma {:induction false} SelectKeepsOrder(queue: seq<Task>)
    ensures NotNormal(Select(queue).rest) == NotNormal(queue)
    decreases |queue|
  {
    if queue != [] {
      if queue[0].state == Normal {
        if |queue| > 1 {
          SelectKeepsOrder(queue[2..]);
          assert queue[1..] == [queue[1]] + queue[2..] && queue[1..][1..] == queue[2..];
          var rest := Select(queue[2..]).rest;
          assert ([queue[1]] + rest)[1..] == rest;
        } else {
          assert queue[1..] == [];
        }
      } else {
        SelectKeepsOrder(queue[1..]);
        var rest := Select(queue[1..]).rest;
        assert ([queue[0]] + rest)[1..] == rest;
      }
    }
  }

  /** The tasks that remain once the last one taken runs. */
  ghost function Survivors(queue: seq<Task>): multiset<Task> {
    var s := Select(queue);
    multiset(s.rest) + (if s.popped == [] then multiset{} else multiset{s.popped[|s.popped| - 1]})
  }

  /** The tasks lost by a switch are exactly all those taken but the last. */
  lemma LostTasks(queue: seq<Task>)
    ensures var popped := Select(queue).popped;
            multiset(queue) ==
            Survivors(queue) + (if popped == [] then multiset{} else multiset(popped[..|popped| - 1]))
  {
    SelectPartitions(queue);
    hide Select;
    var popped, rest := Select(queue).popped, Select(queue).rest;
    if popped != [] { LastApart(popped, rest); }
  }

  lemma LastApart(popped: seq<Task>, rest: seq<Task>)
    requires popped != []
    ensures multiset(popped) + multiset(rest)
         == (multiset(rest) + multiset{popped[|popped| - 1]}) + multiset(popped[..|popped| - 1])
  {
    var init, last := popped[..|popped| - 1], popped[|popped| - 1];
    assert popped == init + [last];
    assert multiset(popped) == multiset(init) + multiset{last};
  }

  /** A switch conserves all tasks iff no Normal task sits two or more places after the first Normal one. */
  lemma ConservationExact(queue: seq<Task>, i: nat)
    requires FirstNormal(queue, i)
    ensures Survivors(queue) == multiset(queue) <==> !NormalFrom(queue, i + 2)
  {
    LostTasks(queue);
    SelectOne(queue, i);
    var lost := Select(queue).popped[..|Select(queue).popped| - 1];
    assert |multiset(queue)| == |Survivors(queue)| + |multiset(lost)|;
    if |lost| == 0 { assert lost == []; }
  }
}

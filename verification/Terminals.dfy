/** The terminal's input queues and blocked readers (kernel/src/TerminalDevice.cpp), above the scheduler. */
module Terminals {
  import opened Processes
  import opened Schedulers
  import Timers

  const BACKSPACE: char := 8 as char

  datatype ReadRequest = ReadRequest(pid: nat, requestedCount: nat)

  datatype ReadOutcome = Done(count: nat) | MustBlock | Panic

  ghost function Pids(requests: seq<ReadRequest>): seq<nat> {
    seq(|requests|, i requires 0 <= i < |requests| => requests[i].pid)
  }

  ghost function Flattened(lines: seq<seq<char>>): seq<char> {
    if lines == [] then [] else lines[0] + Flattened(lines[1..])
  }

  /** The lines after one key in canonical mode. */
  function Typed(lines: seq<seq<char>>, c: char): seq<seq<char>> {
    if c == BACKSPACE then
      if lines == [] || lines[|lines| - 1] == [] then lines
      else lines[|lines| - 1 := lines[|lines| - 1][..|lines[|lines| - 1]| - 1]]
    else
      var open := if lines == [] then [[]] else lines;
      open[|open| - 1 := open[|open| - 1] + [c]] + (if c == '\n' then [[]] else [])
  }

  /** The lines after taking `count` characters of the first. */
  function Taken(lines: seq<seq<char>>, count: nat): seq<seq<char>>
    requires lines != [] && count <= |lines[0]|
  {
    if count == |lines[0]| then lines[1..] else lines[0 := lines[0][count..]]
  }

  lemma {:induction false} FlattenedAppended(lines: seq<seq<char>>, line: seq<char>)
    ensures Flattened(lines + [line]) == Flattened(lines) + line
  {
    if lines == [] {
      assert lines + [line] == [line];
    } else {
      assert (lines + [line])[1..] == lines[1..] + [line];
      FlattenedAppended(lines[1..], line);
    }
  }

  /** Typing adds its character at the end of the input; a backspace removes the last one of the unfinished line
      only. */
  lemma TypedAppends(lines: seq<seq<char>>, c: char)
    ensures c != BACKSPACE ==> Flattened(Typed(lines, c)) == Flattened(lines) + [c]
    ensures c == BACKSPACE && (lines == [] || lines[|lines| - 1] == []) ==> Typed(lines, c) == lines
    ensures c == BACKSPACE && lines != [] && lines[|lines| - 1] != [] ==>
              Flattened(lines) == Flattened(Typed(lines, c)) + [lines[|lines| - 1][|lines[|lines| - 1]| - 1]]
  {
    hide Flattened;
    if c != BACKSPACE {
      var open := if lines == [] then [[]] else lines;
      EmptyFlattens();
      var typed := open[|open| - 1 := open[|open| - 1] + [c]];
      FlattenedLast(open, open[|open| - 1] + [c]);
      FlattenedAppended(typed, []);
      assert Flattened(open) == Flattened(lines) && Flattened(typed) == Flattened(open) + [c];
      assert Typed(lines, c) == if c == '\n' then typed + [[]] else typed;
    } else if lines != [] && lines[|lines| - 1] != [] {
      var last := lines[|lines| - 1];
      FlattenedLast(lines, last[..|last| - 1]);
      assert last == last[..|last| - 1] + [last[|last| - 1]];
    }
  }

  lemma EmptyFlattens()
    ensures Flattened([]) == [] && Flattened([[]]) == []
  {
  }

  lemma FlattenedLast(lines: seq<seq<char>>, line: seq<char>)
    requires lines != []
    ensures var before := Flattened(lines[..|lines| - 1]);
            Flattened(lines[|lines| - 1 := line]) == before + line && Flattened(lines) == before + lines[|lines| - 1]
  {
    hide Flattened;
    var init := lines[..|lines| - 1];
    FlattenedAppended(init, line);
    FlattenedAppended(init, lines[|lines| - 1]);
    assert lines[|lines| - 1 := line] == init + [line] && lines == init + [lines[|lines| - 1]];
  }

  /** Reading takes the front of the input. */
  lemma TakenSplits(lines: seq<seq<char>>, count: nat)
    requires lines != [] && count <= |lines[0]|
    ensures Flattened(lines) == lines[0][..count] + Flattened(Taken(lines, count))
  {
    assert lines[0] == lines[0][..count] + lines[0][count..];
    if count < |lines[0]| {
      assert Taken(lines, count)[1..] == lines[1..];
    }
  }

  /** A newline ends every line but the last, and stands nowhere else. */
  ghost predicate LinesValid(lines: seq<seq<char>>) {
    && (forall i :: 0 <= i < |lines| - 1 ==> Finished(lines[i]))
    && (lines != [] ==> '\n' !in lines[|lines| - 1])
  }

  ghost predicate Finished(line: seq<char>) {
    line != [] && line[|line| - 1] == '\n' && '\n' !in line[..|line| - 1]
  }

  lemma TypedKeepsLines(lines: seq<seq<char>>, c: char)
    requires LinesValid(lines)
    ensures LinesValid(Typed(lines, c))
  {
    hide Finished;
    if c != BACKSPACE {
      var open := if lines == [] then [[]] else lines;
      var last := open[|open| - 1];
      assert c == '\n' ==> Finished(last + [c]) by { NewlineFinishes(last); }
    }
  }

  lemma NewlineFinishes(line: seq<char>)
    requires '\n' !in line
    ensures Finished(line + ['\n'])
  {
    assert (line + ['\n'])[..|line|] == line;
  }

  /** A read stays within the first line, so that only its last character can be a newline. */
  lemma TakenKeepsLines(lines: seq<seq<char>>, count: nat)
    requires LinesValid(lines) && lines != [] && count <= |lines[0]|
    ensures LinesValid(Taken(lines, count))
    ensures count > 0 ==> '\n' !in lines[0][..count - 1]
  {
    var first := lines[0];
    if count > 0 && |lines| > 1 {
      assert first[..count - 1] == first[..|first| - 1][..count - 1];
    }
    if count < |first| {
      var rest := first[count..];
      if |lines| > 1 { assert rest[..|rest| - 1] == first[..|first| - 1][count..]; }
      assert |lines| > 1 ==> Finished(rest);
    }
  }

  class TerminalDevice {
    const scheduler: Scheduler
    var lines: seq<seq<char>>
    var rawBuffer: seq<char>
    var unblockQueue: seq<ReadRequest>
    var canonical: bool

    constructor (scheduler: Scheduler)
      requires scheduler.Valid() && scheduler.readers == []
      ensures Valid() && this.scheduler == scheduler && lines == [[]] && Pending() == [] && canonical
    {
      this.scheduler := scheduler;
      lines, rawBuffer, unblockQueue, canonical := [[]], [], [], true;
    }

    /** The tasks blocked on the terminal are the ones in its queue, and newlines stand at the ends of lines. */
    ghost predicate Valid()
      reads this, scheduler
    {
      scheduler.Valid() && scheduler.readers == Pids(unblockQueue) && LinesValid(lines)
    }

    /** The input nobody has read yet, in the current mode. */
    ghost function Pending(): seq<char>
      reads this
    {
      if canonical then Flattened(lines) else rawBuffer
    }

    ghost predicate Wakes(c: char)
      reads this
    {
      && unblockQueue != [] && !(canonical && (c == BACKSPACE || c == '\n'))
      && (c == '\n' || unblockQueue[0].requestedCount <=
                       1 + if canonical then (if lines == [] then 0 else |lines[|lines| - 1]|) else |rawBuffer|)
    }

    /** One key. Neither GetTask nor Unsuspend panics. */
    method KeyboardInput(c: char)
      requires Valid()
      modifies this`lines, this`rawBuffer, this`unblockQueue, scheduler`taskQueue, scheduler`readers
      ensures Valid() && canonical == old(canonical)
      ensures if canonical then lines == Typed(old(lines), c) && rawBuffer == old(rawBuffer)
              else lines == old(lines) && rawBuffer == old(rawBuffer) + [c]
      ensures !(canonical && c == BACKSPACE) ==> Pending() == old(Pending()) + [c]
      ensures unblockQueue == if old(Wakes(c)) then old(unblockQueue)[1..] else old(unblockQueue)
      ensures |unblockQueue| < |old(unblockQueue)| <==>
              && old(unblockQueue) != [] && !(canonical && (c == BACKSPACE || c == '\n'))
              && (c == '\n' || old(unblockQueue)[0].requestedCount <=
                               if !canonical then |rawBuffer| else if lines == [] then 0 else |lines[|lines| - 1]|)
      ensures old(Wakes(c)) ==>
                var w := old(scheduler.Now());
                w.readers != [] && w.readers[0] in w.tasks && scheduler.Now() == KeyPressed(w)
      ensures !old(Wakes(c)) ==> scheduler.Now() == old(scheduler.Now())
    {
      hide Flattened, Inv, Unique, ByPid, KeyPressed, Pids, LinesValid;
      TypedAppends(lines, c);
      TypedKeepsLines(lines, c);
      if c == BACKSPACE && canonical {
        if |lines| == 0 || |lines[|lines| - 1]| == 0 { return; }
        var last := lines[|lines| - 1];
        lines := lines[|lines| - 1 := last[..|last| - 1]];
      } else {
        var length := Append(c);
        var isNewline := c == '\n';
        if isNewline && canonical {
          lines := lines + [[]];
        } else if |unblockQueue| != 0 && (isNewline || unblockQueue[0].requestedCount <= length) {
          Wake();
        }
      }
    }

    /** The character joins the last line, or the raw buffer. */
    method Append(c: char) returns (length: nat)
      requires !(canonical && c == BACKSPACE)
      modifies this`lines, this`rawBuffer
      ensures if canonical then
                && rawBuffer == old(rawBuffer) && lines != [] && length == |lines[|lines| - 1]|
                && Typed(old(lines), c) == if c == '\n' then lines + [[]] else lines
              else lines == old(lines) && rawBuffer == old(rawBuffer) + [c] && length == |rawBuffer|
      ensures canonical ==> length == 1 + if old(lines) == [] then 0 else |old(lines)[|old(lines)| - 1]|
    {
      if canonical && |lines| == 0 { lines := lines + [[]]; }
      if canonical {
        lines := lines[|lines| - 1 := lines[|lines| - 1] + [c]];
        length := |lines[|lines| - 1]|;
      } else {
        rawBuffer := rawBuffer + [c];
        length := |rawBuffer|;
      }
    }

    method Wake()
      requires Valid() && unblockQueue != []
      modifies this`unblockQueue, scheduler`taskQueue, scheduler`readers
      ensures Valid() && unblockQueue == old(unblockQueue)[1..]
      ensures var w := old(scheduler.Now());
              w.readers != [] && w.readers[0] in w.tasks && scheduler.Now() == KeyPressed(w)
    {
      hide Inv, Unique, ByPid, LinesValid;
      var pid := unblockQueue[0].pid;
      unblockQueue := unblockQueue[1..];
      scheduler.UnsuspendReader(pid);
    }

    /** The line or buffer a read takes from. */
    function Source(): seq<char>
      reads this
    {
      if !canonical then rawBuffer else if lines == [] then [] else lines[0]
    }

    /** Read up to the point where it may block. It panics exactly in canonical mode with an empty list of lines, and
        blocks exactly when not enough input is there. */
    method Read(charBuffer: array<char>, count: nat, delta: nat) returns (outcome: ReadOutcome, ghost before: seq<Task>)
      requires Valid() && count <= charBuffer.Length
      requires scheduler.restoreFrame && scheduler.currentTask.resume == User
      requires 1 <= delta <= scheduler.currentTimerTime
      modifies this, scheduler, charBuffer
      ensures canonical == old(canonical) && (outcome.Panic? <==> canonical && old(lines) == [])
      ensures outcome.MustBlock? <==> !outcome.Panic? && count > |old(Source())|
      ensures outcome.MustBlock? ==>
                && Pending() == old(Pending()) && charBuffer[..] == old(charBuffer[..])
                && unblockQueue == old(unblockQueue) + [ReadRequest(old(scheduler.currentTask.pid), count)]
                && Timers.Step(old(scheduler.TimerState()), Timers.Update(delta), scheduler.TimerState())
                && (var w := old(scheduler.Now());
                    && w.running in w.tasks && scheduler.SwitchedFrom(Reading(w), before, delta)
                    && (Lossless(before, w.timers, delta) ==> Valid() && Switched(Reading(w), delta, scheduler.Now())))
      ensures !outcome.MustBlock? ==>
                && Valid() && scheduler.Now() == old(scheduler.Now()) && unblockQueue == old(unblockQueue)
                && scheduler.TimerState() == old(scheduler.TimerState())
      ensures outcome.Done? ==> outcome.count == count && old(Pending()) == charBuffer[..count] + Pending()
      ensures LinesValid(lines)
      ensures outcome.Done? && canonical && count > 0 ==> '\n' !in charBuffer[..count - 1]
    {
      hide Flattened, Inv, Switched, Reading, Unique, ByPid, Lossless, Taken, LinesValid;
      before := [];
      if canonical && |lines| == 0 { return Panic, before; }
      if count > |Source()| {
        unblockQueue := unblockQueue + [ReadRequest(scheduler.currentTask.pid, count)];
        before := scheduler.SuspendReader(delta);
        outcome := MustBlock;
      } else {
        outcome := TakeInput(charBuffer, count);
      }
    }

    /** The end of Read, reached at once or after a wake-up: the front of the input goes to the buffer, never past a
        line. */
    method TakeInput(charBuffer: array<char>, count: nat) returns (outcome: ReadOutcome)
      requires count <= charBuffer.Length
      modifies this`lines, this`rawBuffer, charBuffer
      ensures outcome ==
              if canonical && old(lines) == [] then Panic
              else Done(if count <= |old(Source())| then count else |old(Source())|)
      ensures outcome.Panic? ==>
                lines == old(lines) && rawBuffer == old(rawBuffer) && charBuffer[..] == old(charBuffer[..])
      ensures outcome.Done? ==>
                var source, n := old(Source()), outcome.count;
                && charBuffer[..n] == source[..n] && charBuffer[n..] == old(charBuffer[..])[n..]
                && old(Pending()) == charBuffer[..n] + Pending()
                && if canonical then lines == Taken(old(lines), n) && rawBuffer == old(rawBuffer)
                   else lines == old(lines) && rawBuffer == old(rawBuffer)[n..]
      ensures old(LinesValid(lines)) ==> LinesValid(lines)
      ensures outcome.Done? && canonical && outcome.count > 0 && old(LinesValid(lines)) ==>
                '\n' !in charBuffer[..outcome.count - 1]
    {
      hide Flattened, LinesValid;
      if canonical && |lines| == 0 { return Panic; }
      var source := Source();
      var readCount := if count <= |source| then count else |source|;
      if canonical {
        TakenSplits(lines, readCount);
        if LinesValid(lines) { TakenKeepsLines(lines, readCount); }
      }
      var rest := PopFront(charBuffer, source, readCount);
      assert source == source[..readCount] + rest;
      assert readCount > 0 ==> charBuffer[..readCount - 1] == source[..readCount][..readCount - 1];
      if canonical {
        lines := lines[0 := rest];
        if |lines[0]| == 0 { lines := lines[1..]; }
      } else {
        rawBuffer := rest;
      }
      outcome := Done(readCount);
    }

    /** The loop that pops the characters from the last one down. */
    method PopFront(charBuffer: array<char>, source: seq<char>, readCount: nat) returns (rest: seq<char>)
      requires readCount <= |source| && readCount <= charBuffer.Length
      modifies charBuffer
      ensures rest == source[readCount..] && charBuffer[..readCount] == source[..readCount]
      ensures charBuffer[readCount..] == old(charBuffer[readCount..])
    {
      rest := source;
      var i := readCount;
      while i > 0
        invariant 0 <= i <= readCount && rest == source[..i] + source[readCount..]
        invariant charBuffer[i..readCount] == source[i..readCount]
        invariant charBuffer[readCount..] == old(charBuffer[readCount..])
      {
        i := i - 1;
        charBuffer[i] := rest[i];
        rest := rest[..i] + rest[i + 1..];
        assert charBuffer[i..readCount] == [charBuffer[i]] + charBuffer[i + 1..readCount];
      }
    }
  }
}

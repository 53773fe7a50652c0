/** The physical page frame allocator (kernel/src/Memory/PageFrameAllocator.cpp).
    Frame `f` stands for the physical address `f * 0x1000`; a panic is the answer `None`. */
module PageFrames {
  import opened Common
  import opened Bitmaps

  // ---- Specification over the bit sequence ----

  /** Frames `first .. first + count` exist and are all free. */
  ghost predicate RunAt(bits: seq<bool>, first: nat, count: nat) {
    first + count <= |bits| && forall g :: first <= g < first + count ==> !bits[g]
  }

  ghost predicate LowestRun(bits: seq<bool>, from: nat, count: nat, first: nat) {
    from <= first && RunAt(bits, first, count) && forall g: nat :: from <= g < first ==> !RunAt(bits, g, count)
  }

  ghost function WithRun(bits: seq<bool>, first: nat, count: nat): (r: seq<bool>)
    ensures |r| == |bits|
  {
    seq(|bits|, i requires 0 <= i < |bits| => bits[i] || first <= i < first + count)
  }

  /** How many frames at or above `from` are still free. */
  ghost function FreeAbove(bits: seq<bool>, from: nat): nat
    decreases |bits| - from
  {
    if from >= |bits| then 0 else (if bits[from] then 0 else 1) + FreeAbove(bits, from + 1)
  }

  lemma {:induction false} FreeAboveSkips(bits: seq<bool>, from: nat, to: nat)
    requires from <= to <= |bits| && forall g :: from <= g < to ==> bits[g]
    ensures FreeAbove(bits, from) == FreeAbove(bits, to)
    decreases |bits| - from
  {
    if from < to { FreeAboveSkips(bits, from + 1, to); }
  }

  lemma {:induction false} FreeAboveUntouched(bits: seq<bool>, f: nat, from: nat)
    requires f < from && f < |bits|
    ensures FreeAbove(bits[f := true], from) == FreeAbove(bits, from)
    decreases |bits| - from
  {
    if from < |bits| { FreeAboveUntouched(bits, f, from + 1); }
  }

  /** Taking the lowest free frame uses up exactly one of the frames still reachable. */
  lemma FreeAboveTakes(bits: seq<bool>, from: nat, f: nat)
    requires from <= f < |bits| && !bits[f] && forall g :: from <= g < f ==> bits[g]
    ensures FreeAbove(bits, from) == 1 + FreeAbove(bits[f := true], f)
  {
    FreeAboveSkips(bits, from, f);
    FreeAboveUntouched(bits, f, f + 1);
  }

  // ---- The allocator ----

  class PageFrameAllocator {
    const bitmap: Bitmap
    var latestAllocatedPageFrame: nat

    constructor (bitmap: Bitmap)
      ensures this.bitmap == bitmap && latestAllocatedPageFrame == 0
    {
      this.bitmap := bitmap;
      latestAllocatedPageFrame := 0;
    }

    ghost predicate Valid()
      reads this, bitmap, bitmap.buffer
    {
      latestAllocatedPageFrame <= |bitmap.Bits()|
    }

    method RequestPageFrame() returns (frame: Option<nat>)
      requires Valid()
      modifies this, bitmap.buffer
      ensures Valid()
      ensures frame.None? <==> forall g :: old(latestAllocatedPageFrame) <= g < |old(bitmap.Bits())| ==>
                old(bitmap.Bits())[g]
      ensures frame.None? ==> bitmap.Bits() == old(bitmap.Bits())
      ensures frame.Some? ==>
                && old(latestAllocatedPageFrame) <= frame.value < |old(bitmap.Bits())|
                && !old(bitmap.Bits())[frame.value]
                && (forall g :: old(latestAllocatedPageFrame) <= g < frame.value ==> old(bitmap.Bits())[g])
                && bitmap.Bits() == old(bitmap.Bits())[frame.value := true]
                && latestAllocatedPageFrame == frame.value
    {
      while latestAllocatedPageFrame < bitmap.TotalNumberOfBits()
        invariant old(latestAllocatedPageFrame) <= latestAllocatedPageFrame <= |bitmap.Bits()|
        invariant bitmap.Bits() == old(bitmap.Bits())
        invariant forall g :: old(latestAllocatedPageFrame) <= g < latestAllocatedPageFrame ==> bitmap.Bits()[g]
        decreases |bitmap.Bits()| - latestAllocatedPageFrame
      {
        var used := bitmap.GetBit(latestAllocatedPageFrame);
        if !used {
          bitmap.SetBit(latestAllocatedPageFrame, true);
          return Some(latestAllocatedPageFrame);
        }
        latestAllocatedPageFrame := latestAllocatedPageFrame + 1;
      }
      return None;
    }

    method RequestPageFrames(count: nat) returns (first: Option<nat>)
      requires Valid()
      modifies this, bitmap.buffer
      ensures Valid()
      ensures first.None? <==>
              count == 0 || forall g: nat :: old(latestAllocatedPageFrame) <= g ==> !RunAt(old(bitmap.Bits()), g, count)
      ensures first.None? ==> bitmap.Bits() == old(bitmap.Bits())
      ensures first.Some? ==>
                && LowestRun(old(bitmap.Bits()), old(latestAllocatedPageFrame), count, first.value)
                && bitmap.Bits() == WithRun(old(bitmap.Bits()), first.value, count)
                && latestAllocatedPageFrame == first.value + count - 1
    {
      hide WithRun;
      var contiguousCount := 0;
      ghost var bits := bitmap.Bits();
      while latestAllocatedPageFrame < bitmap.TotalNumberOfBits()
        invariant old(latestAllocatedPageFrame) + contiguousCount <= latestAllocatedPageFrame <= |bits|
        invariant bitmap.Bits() == bits
        invariant count > 0 ==> contiguousCount < count
        invariant forall g :: latestAllocatedPageFrame - contiguousCount <= g < latestAllocatedPageFrame ==> !bits[g]
        invariant count > 0 ==>
                    forall g: nat :: old(latestAllocatedPageFrame) <= g < latestAllocatedPageFrame - contiguousCount ==>
                             !RunAt(bits, g, count)
        decreases |bits| - latestAllocatedPageFrame
      {
        var used := bitmap.GetBit(latestAllocatedPageFrame);
        if !used {
          contiguousCount := contiguousCount + 1;
          if contiguousCount == count {
            var f := latestAllocatedPageFrame - contiguousCount + 1;
            MarkRun(f, count);
            assert RunAt(bits, f, count);
            return Some(f);
          }
        } else {
          contiguousCount := 0;
        }
        latestAllocatedPageFrame := latestAllocatedPageFrame + 1;
      }
      return None;
    }

    /** The inner loop of RequestPageFrames, which marks the run it found. */
    method MarkRun(f: nat, count: nat)
      requires f + count <= |bitmap.Bits()|
      modifies bitmap.buffer
      ensures bitmap.Bits() == WithRun(old(bitmap.Bits()), f, count)
      ensures forall g :: 0 <= g < |bitmap.Bits()| ==>
                (bitmap.Bits()[g] <==> old(bitmap.Bits())[g] || f <= g < f + count)
    {
      var pageFrame := f;
      while pageFrame < f + count
        invariant f <= pageFrame <= f + count
        invariant bitmap.Bits() == WithRun(old(bitmap.Bits()), f, pageFrame - f)
      {
        bitmap.SetBit(pageFrame, true);
        pageFrame := pageFrame + 1;
      }
    }

    /** The source asserts that the frame was allocated, so the caller must hold it. */
    method FreePageFrame(pageFrame: nat)
      requires Valid() && pageFrame < |bitmap.Bits()| && bitmap.Bits()[pageFrame]
      modifies bitmap.buffer
      ensures Valid()
      ensures bitmap.Bits() == old(bitmap.Bits())[pageFrame := false]
    {
      bitmap.SetBit(pageFrame, false);
    }
  }

  // ---- Whole runs ----

  datatype State = State(bits: seq<bool>, cursor: nat)

  datatype Event = Request(count: nat, first: nat) | Release(frame: nat)

  /** One call, exactly as the contracts above describe it. */
  ghost predicate Step(s: State, e: Event, s': State) {
    match e
    case Request(count, first) =>
      && count > 0 && LowestRun(s.bits, s.cursor, count, first)
      && s' == State(WithRun(s.bits, first, count), first + count - 1)
    case Release(frame) =>
      && frame < |s.bits| && s.bits[frame]
      && s' == State(s.bits[frame := false], s.cursor)
  }

  ghost predicate IsRun(states: seq<State>, events: seq<Event>) {
    |states| == |events| + 1 && forall i :: 0 <= i < |events| ==> Step(states[i], events[i], states[i + 1])
  }

  ghost predicate Issues(e: Event, frame: nat) {
    e.Request? && e.first <= frame < e.first + e.count
  }

  /** `frame` was handed out by call `i` and not given back before call `j`. */
  ghost predicate HeldBetween(events: seq<Event>, i: nat, j: nat, frame: nat)
    requires i < j <= |events|
  {
    Issues(events[i], frame) && forall k :: i < k < j ==> events[k] != Release(frame)
  }

  lemma {:induction false} HeldStaysMarked(states: seq<State>, events: seq<Event>, i: nat, j: nat, frame: nat)
    requires IsRun(states, events) && i < j <= |events| && HeldBetween(events, i, j, frame)
    ensures frame < |states[j].bits| && states[j].bits[frame]
    decreases j
  {
    assert Step(states[j - 1], events[j - 1], states[j]);
    if i < j - 1 {
      HeldStaysMarked(states, events, i, j - 1, frame);
    }
  }

  lemma {:induction false} CursorMonotone(states: seq<State>, events: seq<Event>, i: nat, j: nat)
    requires IsRun(states, events) && i <= j <= |events|
    ensures states[i].cursor <= states[j].cursor
    decreases j
  {
    if i < j {
      assert Step(states[j - 1], events[j - 1], states[j]);
      CursorMonotone(states, events, i, j - 1);
    }
  }

  /** In every run of requests and releases: a frame is never issued while somebody holds it, a frame below
      the cursor is never issued again even when it was given back, and addresses never decrease. */
  lemma FramesAreExclusive(states: seq<State>, events: seq<Event>, i: nat, j: nat, frame: nat)
    requires IsRun(states, events) && i < j < |events| && events[j].Request?
    ensures HeldBetween(events, i, j, frame) ==> !Issues(events[j], frame)
    ensures frame < states[i].cursor ==> !Issues(events[j], frame)
    ensures events[i].Request? ==> events[i].first + events[i].count - 1 <= events[j].first
  {
    assert Step(states[i], events[i], states[i + 1]);
    assert Step(states[j], events[j], states[j + 1]);
    CursorMonotone(states, events, i, i + 1);
    CursorMonotone(states, events, i + 1, j);
    if HeldBetween(events, i, j, frame) {
      HeldStaysMarked(states, events, i, j, frame);
    }
  }
}

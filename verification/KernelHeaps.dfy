/** The kernel heap's code (kernel/src/Heap.cpp) over the page frame allocator, proved against the state machine of
    Slabs. A panic is the answer `None` or `false`. */
module KernelHeaps {
  import opened Common
  import opened Words
  import opened KernelMath
  import opened PageFrames
  import opened Slabs

  const HIGHER_HALF_OFFSET: nat := 0xffff_8000_0000_0000

  function HigherHalf(physAddr: nat): nat {
    HIGHER_HALF_OFFSET + physAddr
  }

  /** Some run of that many free frames starts at or above `from`. */
  ghost predicate HasRun(bits: seq<bool>, from: nat, count: nat) {
    exists g: nat :: from <= g && RunAt(bits, g, count)
  }

  class KernelHeap {
    const slabs: array<Slab>
    var memory: map<nat, nat>
    /** The blocks in use with the sizes asked for, and each slab's free list. */
    ghost var live: map<nat, nat>
    ghost var frees: seq<seq<nat>>

    constructor (slabs: array<Slab>, memory: map<nat, nat>)
      requires slabs.Length == SLABS_COUNT
      ensures this.slabs == slabs && this.memory == memory && live == map[]
    {
      this.slabs, this.memory := slabs, memory;
      live, frees := map[], seq(SLABS_COUNT, i => []);
    }

    ghost function State(): Heap
      reads this, slabs
    {
      Heap(slabs[..], memory, live)
    }

    ghost predicate Valid()
      reads this, slabs
    {
      slabs.Length == SLABS_COUNT && Inv(State(), frees)
    }

    /** Threads the free list through the slab, from its last slot down. */
    method InitializeSlab(i: nat, slotSize: nat, slabSize: nat, allocator: PageFrameAllocator)
      returns (ok: bool, ghost first: nat)
      requires i < slabs.Length && slotSize > 0 && slabSize % 0x1000 == 0 && slabSize > 0 && allocator.Valid()
      requires allocator.bitmap.buffer as object != slabs
      modifies this`memory, slabs, allocator, allocator.bitmap.buffer
      ensures allocator.Valid()
      ensures ok <==> HasRun(old(allocator.bitmap.Bits()), old(allocator.latestAllocatedPageFrame), slabSize / 0x1000)
      ensures ok ==>
                && LowestRun(old(allocator.bitmap.Bits()), old(allocator.latestAllocatedPageFrame), slabSize / 0x1000,
                             first)
                && allocator.bitmap.Bits() == WithRun(old(allocator.bitmap.Bits()), first, slabSize / 0x1000)
                && allocator.latestAllocatedPageFrame == first + slabSize / 0x1000 - 1
      ensures ok ==>
                && slabs[..] == old(slabs[..])[i := slabs[i]]
                && slabs[i] == Slab(slotSize, slabs[i].head, HigherHalf(first * 0x1000), slabSize)
                && IsList(memory, slabs[i].head, SlotsFrom(slabs[i], 0))
                && OnlyInside(old(memory), memory, slabs[i])
    {
      hide WithRun, LowestRun, IsList, SlotAt, SlotsFrom;
      var frames := allocator.RequestPageFrames(slabSize / 0x1000);
      if frames.None? { return false, 0; }
      first := frames.value;
      var slabBase := HigherHalf(frames.value * 0x1000);
      ghost var slab := Slab(slotSize, 0, slabBase, slabSize);
      var previous := 0;
      var slotIndex := slabSize / slotSize;
      SlotsEnd(slab, memory);
      while slotIndex > 0
        modifies this`memory
        invariant 0 <= slotIndex <= slabSize / slotSize
        invariant IsList(memory, previous, SlotsFrom(slab, slotIndex)) && OnlyInside(old(memory), memory, slab)
      {
        slotIndex := slotIndex - 1;
        var freeSlot := SlotAt(slabBase, slotSize, slotIndex);
        SlotPushed(slab, memory, slotIndex, previous);
        memory := memory[freeSlot := previous];
        previous := freeSlot;
      }
      slabs[i] := Slab(slotSize, previous, slabBase, slabSize);
      SameSlotsFrom(slab, slabs[i], 0);
      return true, first;
    }

    /** After the boot every slab is full of free slots. It fails exactly when there is no room for ten disjoint runs
        of five free frames above the cursor. */
    method InitializeKernelHeap(allocator: PageFrameAllocator) returns (ok: bool)
      requires slabs.Length == SLABS_COUNT && live == map[] && allocator.Valid()
      requires allocator.bitmap.buffer as object != slabs
      modifies this, slabs, allocator, allocator.bitmap.buffer
      ensures ok ==> Valid() && live == map[]
      ensures ok ==> forall k :: 0 <= k < 10 ==> slabs[k].slotSize == Pow2(3 + k) && slabs[k].slabSize == 0x5000
      ensures ok <==> RoomFor(old(allocator.bitmap.Bits()), old(allocator.latestAllocatedPageFrame), SLABS_COUNT)
    {
      hide RoomFor, HasRun, Marked, SlotAt, SlotsFrom, IsList, WithRun, LowestRun, SlotSize, SlabInv, Ready, Inv,
           OnlyInside;
      frees := [];
      NoneReady(slabs[..], memory, allocator.latestAllocatedPageFrame);
      var i := 0;
      while i < SLABS_COUNT
        invariant 0 <= i <= SLABS_COUNT && |frees| == i && slabs.Length == SLABS_COUNT && allocator.Valid()
        invariant live == map[]
        invariant Ready(slabs[..], i, memory, frees, allocator.latestAllocatedPageFrame)
        invariant i > 0 ==> Marked(allocator.bitmap.Bits(), allocator.latestAllocatedPageFrame)
        invariant RoomFor(old(allocator.bitmap.Bits()), old(allocator.latestAllocatedPageFrame), SLABS_COUNT)
             <==> RoomFor(allocator.bitmap.Bits(), allocator.latestAllocatedPageFrame, SLABS_COUNT - i)
      {
        ghost var before, cursor, slabs', bits :=
          memory, allocator.latestAllocatedPageFrame, slabs[..], allocator.bitmap.Bits();
        var slotSize := Pow(2, 3 + i);
        SlotSizeIs(i, slotSize);
        var done: bool;
        ghost var first: nat;
        assert 0x1000 * 5 / 0x1000 == 5;
        done, first := InitializeSlab(i, slotSize, 0x1000 * 5, allocator);
        if !done {
          NoRoom(bits, cursor, SLABS_COUNT - i);
          return false;
        }
        RoomStep(bits, cursor, first, SLABS_COUNT - i);
        RunIsAbove(bits, cursor, first, i > 0);
        OneMoreReady(slabs', slabs[i], i, before, memory, frees, cursor, first);
        frees := frees + [SlotsFrom(slabs[i], 0)];
        i := i + 1;
      }
      ok := true;
      EnoughRoom(allocator.bitmap.Bits(), allocator.latestAllocatedPageFrame);
      AllReady(slabs[..], memory, frees, allocator.latestAllocatedPageFrame);
      SlabSizes(State(), frees);
    }

    /** Takes the head of the slab's free list. */
    method Alloc(k: nat, ghost size: nat) returns (addr: Option<nat>)
      requires Valid() && k < SLABS_COUNT && size <= SlotSize(k)
      modifies this`live, this`frees, slabs
      ensures Valid() && (addr.None? <==> old(slabs[k].head) == 0)
      ensures addr.None? ==> State() == old(State()) && frees == old(frees)
      ensures addr.Some? ==>
                && addr.value == old(slabs[k].head) && CanTake(old(State()), k)
                && State() == Allocated(old(State()), k, size)
                && addr.value in memory && live == old(live)[addr.value := size]
                && slabs[..] == old(slabs[..])[k := old(slabs[k]).(head := memory[addr.value])]
    {
      hide Inv, SlotSize;
      var head := slabs[k].head;
      if head == 0 { return None; }
      ghost var s := State();
      SlabCount(s, frees);
      AllocKeeps(s, frees, k, size);
      slabs[k] := slabs[k].(head := memory[head]);
      live := live[head := size];
      frees := frees[k := frees[k][1..]];
      return Some(head);
    }

    /** Pushes the address on the list; the heap stays well-formed exactly when it was that of a block in use. */
    method Free(k: nat, p: nat)
      requires Valid() && FirstSlab(slabs[..], k, p)
      modifies this, slabs
      ensures State() == Freed(old(State()), k, p) && (Valid() <==> old(p in live))
      ensures slabs[..] == old(slabs[..])[k := old(slabs[k]).(head := p)] && live == old(live) - {p}
      ensures memory == old(memory)[p := old(slabs[k].head)]
      ensures (exists frees' :: Inv(State(), frees')) <==> old(p in live)
    {
      hide Inv;
      ghost var s := State();
      SlabCount(s, frees);
      FreeExact(s, frees, k, p);
      if p in live { FreeKeeps(s, frees, k, p); }
      var previousHead := slabs[k].head;
      slabs[k] := slabs[k].(head := p);
      memory := memory[p := previousHead];
      live := live - {p};
      frees := frees[k := [p] + frees[k]];
    }

    /** Fails exactly for requests above 4096 bytes and for an empty free list of the right size. */
    method KMalloc(size: nat) returns (addr: Option<nat>)
      requires Valid() && size < WORD
      modifies this`live, this`frees, slabs
      ensures Valid()
      ensures addr.Some? ==> Slabs.Step(old(State()), Malloc(size, addr.value), State())
      ensures addr.Some? ==>
                exists k :: 0 <= k < slabs.Length && addr.value == old(slabs[..])[k].head
                            && size <= slabs[k].slotSize && (k > 0 ==> slabs[k - 1].slotSize < size)
      ensures addr.None? ==> State() == old(State())
      ensures addr.None? <==>
              size > 0x1000 || exists k: nat :: k < SLABS_COUNT && IsClass(size, k) && old(slabs[..])[k].head == 0
    {
      hide Inv, SlotSize, IsClass, Allocated;
      var size' := if size < 8 then 8 else size;
      var log := CeilLog2(size');
      ClassIs(size, size', log);
      if log - 3 < SLABS_COUNT { ClassSlab(State(), frees, size, log - 3); }
      var slabIndex := log - 3;
      if slabIndex >= SLABS_COUNT { return None; }
      addr := Alloc(slabIndex, size);
    }

    /** The first slab whose range has the address gets it; outside every slab it is a panic. For a block in use that
        is the slab it came from. For any other address in a slab, such as that of a block freed before, the code
        notices nothing and no well-formed heap is left. */
    method KFree(p: nat) returns (ok: bool)
      requires Valid()
      modifies this, slabs
      ensures ok <==> exists k: nat :: FirstSlab(old(slabs[..]), k, p)
      ensures ok ==> exists k: nat :: FirstSlab(old(slabs[..]), k, p) && State() == Freed(old(State()), k, p)
      ensures ok ==> (Valid() <==> old(p in live)) && ((exists frees' :: Inv(State(), frees')) <==> old(p in live))
      ensures old(p in live) ==> ok && Slabs.Step(old(State()), Slabs.Free(p), State())
      ensures !ok ==> Valid() && State() == old(State())
    {
      hide Inv, Freed;
      ghost var s := State();
      if p in live { HasOwner(s, frees, p); }
      var k := 0;
      while k < SLABS_COUNT
        invariant 0 <= k <= SLABS_COUNT && forall j :: 0 <= j < k ==> !InSlab(slabs[j], p)
        invariant State() == s && frees == old(frees)
      {
        var slab := slabs[k];
        if slab.slabBase <= p < slab.slabBase + slab.slabSize {
          assert FirstSlab(slabs[..], k, p);
          Free(k, p);
          return true;
        }
        k := k + 1;
      }
      assert forall j: nat :: !FirstSlab(slabs[..], j, p);
      return false;
    }
  }

  // ---- Initialization ----

  /** Only addresses inside the slab were written. */
  ghost predicate OnlyInside(memory: map<nat, nat>, memory': map<nat, nat>, slab: Slab) {
    forall a {:trigger a in memory'} {:trigger a in memory} :: !InSlab(slab, a) ==>
      (a in memory' <==> a in memory) && (a in memory ==> memory'[a] == memory[a])
  }

  lemma SlotsEnd(slab: Slab, memory: map<nat, nat>)
    requires slab.slotSize > 0
    ensures IsList(memory, 0, SlotsFrom(slab, slab.slabSize / slab.slotSize))
  {
  }

  lemma SlotPushed(slab: Slab, memory: map<nat, nat>, i: nat, previous: nat)
    requires slab.slotSize > 0 && slab.slabBase > 0 && i < slab.slabSize / slab.slotSize
    requires IsList(memory, previous, SlotsFrom(slab, i + 1))
    ensures var a := SlotAt(slab.slabBase, slab.slotSize, i);
            InSlab(slab, a) && IsList(memory[a := previous], a, SlotsFrom(slab, i))
  {
    var a, rest := SlotAt(slab.slabBase, slab.slotSize, i), SlotsFrom(slab, i + 1);
    MulStep(i, slab.slabSize / slab.slotSize, slab.slotSize);
    Division(slab.slabSize, slab.slotSize);
    SlotsFromAre(slab, i);
    assert SlotsFrom(slab, i) == [a] + rest && ([a] + rest)[1..] == rest;
    FirstIsNew(SlotsFrom(slab, i));
    hide SlotsFrom, SlotAt;
    ListFrame(memory, previous, rest, a, previous);
  }

  /** The free list in memory: each slot holds the address of the next one, the last holds 0. */
  lemma {:induction false} ListLayout(slab: Slab, memory: map<nat, nat>, head: nat, i: nat)
    requires slab.slotSize > 0 && IsList(memory, head, SlotsFrom(slab, i))
    ensures head == if i < slab.slabSize / slab.slotSize then slab.slabBase + i * slab.slotSize else 0
    ensures forall j: nat {:trigger SlotAt(slab.slabBase, slab.slotSize, j)} ::
              i <= j < slab.slabSize / slab.slotSize ==>
                var slot := slab.slabBase + j * slab.slotSize;
                && SlotAt(slab.slabBase, slab.slotSize, j) == slot && slot in memory
                && memory[slot] == if j + 1 < slab.slabSize / slab.slotSize then slot + slab.slotSize else 0
    decreases slab.slabSize / slab.slotSize - i
  {
    if i < slab.slabSize / slab.slotSize {
      var rest := SlotsFrom(slab, i + 1);
      assert SlotsFrom(slab, i) == [SlotAt(slab.slabBase, slab.slotSize, i)] + rest;
      assert SlotsFrom(slab, i)[1..] == rest;
      hide SlotsFrom;
      ListLayout(slab, memory, memory[head], i + 1);
      NextSlot(slab.slabBase, slab.slotSize, i);
    }
  }

  lemma NextSlot(base: nat, slot: nat, i: nat)
    ensures base + (i + 1) * slot == base + i * slot + slot
  {
  }

  lemma FirstIsNew(s: seq<nat>)
    requires Distinct(s) && s != []
    ensures s[0] !in s[1..]
  {
  }

  lemma {:induction false} SameSlotsFrom(slab: Slab, slab': Slab, i: nat)
    requires slab.slotSize > 0 && slab' == slab.(head := slab'.head)
    ensures SlotsFrom(slab', i) == SlotsFrom(slab, i)
    decreases slab.slabSize / slab.slotSize - i
  {
    if i < slab.slabSize / slab.slotSize { SameSlotsFrom(slab, slab', i + 1); }
  }

  lemma SlotSizeIs(i: nat, slotSize: nat)
    requires i < SLABS_COUNT && slotSize == Power(2, 3 + i) % WORD
    ensures slotSize == SlotSize(i)
  {
    PowersOfTwo(3 + i);
    SlotSizes(i);
  }

  /** The slabs below `i` are set up, one above the other, and end at or below the frame after the cursor. */
  ghost predicate Ready(slabs: seq<Slab>, i: nat, memory: map<nat, nat>, frees: seq<seq<nat>>, cursor: nat) {
    && i <= |slabs| && i <= |frees| && SlabsApart(slabs[..i])
    && forall k :: 0 <= k < i ==> SlabInv(slabs[k], k, memory, {}, frees[k]) && EndsBelow(slabs[k], cursor)
  }

  ghost predicate EndsBelow(slab: Slab, cursor: nat) {
    slab.slabBase + slab.slabSize <= HigherHalf((cursor + 1) * 0x1000)
  }

  ghost predicate Marked(bits: seq<bool>, frame: nat) {
    frame < |bits| && bits[frame]
  }

  lemma NoneReady(slabs: seq<Slab>, memory: map<nat, nat>, cursor: nat)
    ensures Ready(slabs, 0, memory, [], cursor)
  {
  }

  lemma AllReady(slabs: seq<Slab>, memory: map<nat, nat>, frees: seq<seq<nat>>, cursor: nat)
    requires |slabs| == |frees| == SLABS_COUNT && Ready(slabs, SLABS_COUNT, memory, frees, cursor)
    ensures Inv(Heap(slabs, memory, map[]), frees)
  {
    hide SlabInv;
    assert slabs[..SLABS_COUNT] == slabs;
    var live: map<nat, nat> := map[];
    assert live.Keys == {};
  }

  lemma OneMoreReady(slabs: seq<Slab>, slab: Slab, i: nat, before: map<nat, nat>, memory: map<nat, nat>,
                     frees: seq<seq<nat>>, cursor: nat, first: nat)
    requires i < SLABS_COUNT && i == |frees| < |slabs| && Ready(slabs, i, before, frees, cursor)
    requires (i > 0 ==> cursor < first)
    requires slab == Slab(SlotSize(i), slab.head, HigherHalf(first * 0x1000), SLAB_SIZE)
    requires IsList(memory, slab.head, SlotsFrom(slab, 0)) && OnlyInside(before, memory, slab)
    ensures Ready(slabs[i := slab], i + 1, memory, frees + [SlotsFrom(slab, 0)], first + 4)
  {
    hide SlotAt, SlotsFrom, IsList, SlotSize, SlabInv, OnlyInside;
    var slabs', frees' := slabs[i := slab], frees + [SlotsFrom(slab, 0)];
    assert (HIGHER_HALF_OFFSET + first * 0x1000) % 0x1000 == 0;
    FullSlab(slab, i, memory);
    forall k | 0 <= k < i + 1
      ensures SlabInv(slabs'[k], k, memory, {}, frees'[k]) && EndsBelow(slabs'[k], first + 4)
      ensures k < i ==> slabs'[k].slabBase + slabs'[k].slabSize <= slab.slabBase
    {
      if k < i {
        SlabUntouched(slabs[k], k, before, memory, frees[k], slab);
      }
    }
    forall k, j | 0 <= k < j < i + 1
      ensures slabs'[k].slabBase + slabs'[k].slabSize <= slabs'[j].slabBase
    {
      if j < i { assert slabs[..i][k] == slabs[k] && slabs[..i][j] == slabs[j]; }
    }
  }

  // ---- Room for the slabs ----

  /** Disjoint runs of five free frames, in order, from `from` on. */
  ghost predicate Runs(bits: seq<bool>, from: nat, starts: seq<nat>)
    decreases |starts|
  {
    starts == [] || (from <= starts[0] && RunAt(bits, starts[0], 5) && Runs(bits, starts[0] + 5, starts[1..]))
  }

  ghost predicate RoomFor(bits: seq<bool>, from: nat, k: nat) {
    exists starts :: |starts| == k && Runs(bits, from, starts)
  }

  lemma {:induction false} RunsElsewhere(bits: seq<bool>, bits': seq<bool>, from: nat, from': nat, starts: seq<nat>)
    requires Runs(bits, from, starts) && |bits'| == |bits| && from' <= from
    requires forall g :: from <= g < |bits| ==> bits'[g] == bits[g]
    ensures Runs(bits', from', starts)
    decreases |starts|
  {
    if starts != [] { RunsElsewhere(bits, bits', starts[0] + 5, starts[0] + 5, starts[1..]); }
  }

  lemma {:induction false} RunsFreed(bits: seq<bool>, bits': seq<bool>, from: nat, starts: seq<nat>)
    requires Runs(bits', from, starts) && |bits'| == |bits| && forall g :: 0 <= g < |bits| ==> bits[g] ==> bits'[g]
    ensures Runs(bits, from, starts)
    decreases |starts|
  {
    if starts != [] { RunsFreed(bits, bits', starts[0] + 5, starts[1..]); }
  }

  /** First fit wastes nothing: after the lowest run there is room for one less, whatever runs were there. */
  lemma RoomStep(bits: seq<bool>, from: nat, first: nat, k: nat)
    requires k > 0 && LowestRun(bits, from, 5, first)
    ensures RoomFor(bits, from, k) <==> RoomFor(WithRun(bits, first, 5), first + 4, k - 1)
  {
    var bits' := WithRun(bits, first, 5);
    if RoomFor(bits, from, k) {
      var starts :| |starts| == k && Runs(bits, from, starts);
      assert first <= starts[0];
      RunsElsewhere(bits, bits', starts[0] + 5, first + 4, starts[1..]);
      assert RoomFor(bits', first + 4, k - 1);
    }
    if RoomFor(bits', first + 4, k - 1) {
      var starts :| |starts| == k - 1 && Runs(bits', first + 4, starts);
      RunsFreed(bits, bits', first + 4, starts);
      if starts != [] { assert bits'[first + 4] && !bits'[starts[0]]; }
      assert ([first] + starts)[1..] == starts;
      assert Runs(bits, from, [first] + starts);
    }
  }

  lemma NoRoom(bits: seq<bool>, from: nat, k: nat)
    requires k > 0 && !HasRun(bits, from, 5)
    ensures !RoomFor(bits, from, k)
  {
  }

  lemma EnoughRoom(bits: seq<bool>, from: nat)
    ensures RoomFor(bits, from, 0)
  {
    assert Runs(bits, from, []);
  }

  lemma RunIsAbove(bits: seq<bool>, cursor: nat, first: nat, marked: bool)
    requires LowestRun(bits, cursor, 5, first) && (marked ==> Marked(bits, cursor))
    ensures cursor <= first && (marked ==> cursor < first) && Marked(WithRun(bits, first, 5), first + 4)
  {
    if first == cursor { assert !bits[first]; }
  }

  /** A slab keeps its list while another one is set up above it. */
  lemma SlabUntouched(slab: Slab, k: nat, before: map<nat, nat>, after: map<nat, nat>, free: seq<nat>, other: Slab)
    requires k < SLABS_COUNT && SlabInv(slab, k, before, {}, free) && OnlyInside(before, after, other)
    requires slab.slabBase + slab.slabSize <= other.slabBase
    ensures SlabInv(slab, k, after, {}, free)
  {
    forall a | a in free
      ensures !InSlab(other, a)
    {
      SlotPlace(slab, k, a);
    }
    hide IsSlot, SlotSize;
    ListUntouched(before, after, slab.head, free, other);
  }

  lemma {:induction false} ListUntouched(before: map<nat, nat>, after: map<nat, nat>, head: nat, free: seq<nat>,
                                         other: Slab)
    requires IsList(before, head, free) && OnlyInside(before, after, other)
    requires forall a :: a in free ==> !InSlab(other, a)
    ensures IsList(after, head, free)
    decreases free
  {
    if free != [] { ListUntouched(before, after, before[head], free[1..], other); }
  }

  lemma FullSlab(slab: Slab, k: nat, memory: map<nat, nat>)
    requires SlabValid(slab, k) && IsList(memory, slab.head, SlotsFrom(slab, 0))
    ensures SlabInv(slab, k, memory, {}, SlotsFrom(slab, 0))
  {
    hide SlotsFrom, IsList, IsSlot, Distinct, SlotSize;
    var slots := AllSlots(slab, k);
    assert forall a: nat :: a in slots <==> IsSlot(slab, a);
  }

  // ---- Size classes ----

  /** The slab index is the least class that fits the request. */
  lemma ClassIs(size: nat, size': nat, log: nat)
    requires size' == (if size < 8 then 8 else size) && IsCeilLog2(size', log)
    ensures log >= 3 && IsClass(size, log - 3)
    ensures log - 3 < SLABS_COUNT <==> size <= 0x1000
    ensures forall k: nat :: IsClass(size, k) ==> k == log - 3
  {
    assert Pow2(3) == 8 && Pow2(12) == 0x1000;
    if log < 3 { Pow2Grows(log, 2); }
    assert size <= SlotSize(log - 3);
    forall j: nat | size <= SlotSize(j)
      ensures log - 3 <= j
    {
      Pow2Grows(3, 3 + j);
    }
    if log > 12 { Pow2Grows(12, log); } else { Pow2Grows(log, 12); }
  }

  lemma ClassSlab(s: Heap, frees: seq<seq<nat>>, size: nat, k: nat)
    requires Inv(s, frees) && k < SLABS_COUNT && IsClass(size, k)
    ensures |s.slabs| == SLABS_COUNT && size <= s.slabs[k].slotSize && (k > 0 ==> s.slabs[k - 1].slotSize < size)
  {
    hide SlotSize, IsSlot, IsList;
    assert SlabInv(s.slabs[k], k, s.memory, s.live.Keys, frees[k]);
    if k > 0 { assert SlabInv(s.slabs[k - 1], k - 1, s.memory, s.live.Keys, frees[k - 1]); }
  }

  lemma SlabSizes(s: Heap, frees: seq<seq<nat>>)
    requires Inv(s, frees)
    ensures |s.slabs| == 10 && forall k :: 0 <= k < 10 ==>
              s.slabs[k].slotSize == Pow2(3 + k) && s.slabs[k].slabSize == 0x5000
  {
    hide IsSlot, IsList, Pow2;
  }

  lemma HasOwner(s: Heap, frees: seq<seq<nat>>, p: nat)
    requires Inv(s, frees) && p in s.live
    ensures exists k :: 0 <= k < SLABS_COUNT && InSlab(s.slabs[k], p)
  {
    var k: nat :| Owns(s.slabs, k, p, s.live[p]);
  }

  // ---- LargeKMalloc ----

  /** The whole pages LargeKMalloc asks for. */
  function LargePages(size: nat): nat {
    size / 0x1000
  }

  /** The run is as many pages as the size has whole ones, rounded down: its bytes hold the request exactly when the
      size is a positive multiple of the page size. It panics exactly when the size is below a page, which asks for
      no frames at all, or no run is long enough. */
  method LargeKMalloc(size: nat, allocator: PageFrameAllocator) returns (addr: Option<nat>, ghost first: nat)
    requires allocator.Valid() && size < WORD
    modifies allocator, allocator.bitmap.buffer
    ensures allocator.Valid()
    ensures addr.None? <==>
            size < 0x1000
            || !HasRun(old(allocator.bitmap.Bits()), old(allocator.latestAllocatedPageFrame), LargePages(size))
    ensures addr.None? ==> allocator.bitmap.Bits() == old(allocator.bitmap.Bits())
    ensures addr.Some? ==>
              && LowestRun(old(allocator.bitmap.Bits()), old(allocator.latestAllocatedPageFrame), LargePages(size),
                           first)
              && allocator.bitmap.Bits() == WithRun(old(allocator.bitmap.Bits()), first, LargePages(size))
              && addr.value == HigherHalf(first * 0x1000)
              && (addr.value + size <= HigherHalf((first + LargePages(size)) * 0x1000) <==> size % 0x1000 == 0)
    ensures size % 0x1000 != 0 || size == 0 ==>
              addr.None? || HigherHalf((first + LargePages(size)) * 0x1000) < addr.value + size
  {
    hide WithRun, LowestRun, RunAt;
    var frames := allocator.RequestPageFrames(LargePages(size));
    if frames.None? { return None, 0; }
    first := frames.value;
    addr := Some(HigherHalf(frames.value * 0x1000));
  }

  /** The bytes LargeKMalloc marks for a request that it does not refuse for being empty. */
  ghost predicate LargeRequestHeld(size: nat) {
    LargePages(size) > 0 && size <= LargePages(size) * 0x1000
  }

  /** It holds the request exactly for positive multiples of the page size; 4097 bytes get a single page, and no
      bytes at all are a panic. */
  lemma LargeRequestFits(size: nat)
    ensures LargeRequestHeld(size) <==> size > 0 && size % 0x1000 == 0
    ensures !LargeRequestHeld(0x1001) && LargePages(0x1001) == 1 && LargePages(0) == 0
  {
  }
}

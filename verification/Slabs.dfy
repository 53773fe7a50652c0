/** The slab heap (kernel/src/Heap.cpp) as a state machine: slabs with free lists threaded through their own memory,
    and the blocks that callers hold. Its safety over whole runs. */
module Slabs {
  import opened Common
  import opened Words
  import opened KernelMath

  const SLABS_COUNT: nat := 10
  const SLAB_SIZE: nat := 0x5000

  datatype Slab = Slab(slotSize: nat, head: nat, slabBase: nat, slabSize: nat)

  /** The slabs, the 64-bit words of memory by address, and the blocks in use with the sizes asked for. */
  datatype Heap = Heap(slabs: seq<Slab>, memory: map<nat, nat>, live: map<nat, nat>)

  function SlotSize(k: nat): (size: nat)
    ensures size > 0
  {
    Pow2(3 + k)
  }

  // ---- Slots ----

  function SlotAt(base: nat, slot: nat, i: nat): nat {
    base + i * slot
  }

  ghost predicate IsSlot(slab: Slab, a: nat) {
    slab.slotSize > 0 && exists i: nat ::
      i < slab.slabSize / slab.slotSize && a == SlotAt(slab.slabBase, slab.slotSize, i)
  }

  predicate InSlab(slab: Slab, a: nat) {
    slab.slabBase <= a < slab.slabBase + slab.slabSize
  }

  ghost predicate SlabValid(slab: Slab, k: nat) {
    slab.slotSize == SlotSize(k) && slab.slabSize == SLAB_SIZE && slab.slabBase > 0 && slab.slabBase % 0x1000 == 0
  }

  lemma SlotSizes(k: nat)
    requires k < SLABS_COUNT
    ensures exists c: nat :: c * SlotSize(k) == 0x1000 && 8 <= SlotSize(k) <= 0x1000
  {
    assert Pow2(3) == 8;
    Pow2Add(9 - k, 3 + k);
    Pow2Grows(3, 3 + k);
    Pow2Grows(3 + k, 12);
    assert Pow2(12) == 0x1000;
    assert Pow2(9 - k) * SlotSize(k) == 0x1000;
  }

  lemma MulStep(i: nat, j: nat, slot: nat)
    ensures i < j ==> i * slot + slot <= j * slot
    ensures i <= j ==> i * slot <= j * slot
  {
    MulMonotone(i, j, slot);
    MulMonotone(i + 1, j, slot);
    assert (i + 1) * slot == i * slot + slot;
  }

  lemma MultipleMod(x: nat, d: nat)
    requires d > 0
    ensures (x * d) % d == 0
  {
    var q, r := x * d / d, x * d % d;
    assert (x - q) * d == r;
    if x - q >= 1 { MulStep(0, x - q, d); }
  }

  /** Slots lie in their slab, aligned to their size. */
  lemma SlotPlace(slab: Slab, k: nat, a: nat)
    requires k < SLABS_COUNT && SlabValid(slab, k) && IsSlot(slab, a)
    ensures slab.slabBase <= a && a + slab.slotSize <= slab.slabBase + slab.slabSize && InSlab(slab, a)
    ensures a % slab.slotSize == 0
  {
    hide SlotSize;
    var slot := slab.slotSize;
    var n := slab.slabSize / slot;
    var i: nat :| i < n && a == SlotAt(slab.slabBase, slot, i);
    MulStep(i, n, slot);
    assert n * slot <= slab.slabSize;
    SlotSizes(k);
    var c: nat :| c * slot == 0x1000;
    var pages := slab.slabBase / 0x1000;
    assert slab.slabBase == pages * (c * slot) == (pages * c) * slot;
    assert a == (pages * c + i) * slot;
    MultipleMod(pages * c + i, slot);
  }

  /** Different slots of a slab do not overlap. */
  lemma SlotsApart(slab: Slab, a: nat, b: nat)
    requires IsSlot(slab, a) && IsSlot(slab, b) && a < b
    ensures a + slab.slotSize <= b
  {
    var slot := slab.slotSize;
    var i: nat :| i < slab.slabSize / slot && a == SlotAt(slab.slabBase, slot, i);
    var j: nat :| j < slab.slabSize / slot && b == SlotAt(slab.slabBase, slot, j);
    MulStep(i, j, slot);
    MulStep(j, i, slot);
  }

  // ---- Free lists ----

  /** The list that starts at `head` and runs through memory is `free`. */
  ghost predicate IsList(memory: map<nat, nat>, head: nat, free: seq<nat>)
    decreases free
  {
    if free == [] then head == 0
    else head == free[0] != 0 && head in memory && IsList(memory, memory[head], free[1..])
  }

  lemma {:induction false} ListFrame(memory: map<nat, nat>, head: nat, free: seq<nat>, a: nat, v: nat)
    requires IsList(memory, head, free) && a !in free
    ensures IsList(memory[a := v], head, free)
    decreases free
  {
    if free != [] { ListFrame(memory, memory[head], free[1..], a, v); }
  }

  // ---- The invariant ----

  /** Every slot of the slab is free or in use and never both; the list holds each free slot once. */
  ghost predicate SlabInv(slab: Slab, k: nat, memory: map<nat, nat>, live: set<nat>, free: seq<nat>) {
    && SlabValid(slab, k)
    && IsList(memory, slab.head, free) && Distinct(free)
    && (forall a :: a in free ==> IsSlot(slab, a) && a !in live)
    && (forall a {:trigger IsSlot(slab, a)} :: IsSlot(slab, a) ==> a in free || a in live)
    && (forall a :: a in live && InSlab(slab, a) ==> IsSlot(slab, a))
  }

  ghost predicate SlabsApart(slabs: seq<Slab>) {
    forall i, j {:trigger slabs[i], slabs[j]} :: 0 <= i < j < |slabs| ==>
             slabs[i].slabBase + slabs[i].slabSize <= slabs[j].slabBase
  }

  ghost predicate Owns(slabs: seq<Slab>, k: nat, p: nat, size: nat) {
    k < |slabs| && InSlab(slabs[k], p) && size <= slabs[k].slotSize && slabs[k].slotSize > 0
  }

  ghost predicate Inv(s: Heap, frees: seq<seq<nat>>) {
    && |s.slabs| == |frees| == SLABS_COUNT && SlabsApart(s.slabs)
    && (forall k :: 0 <= k < SLABS_COUNT ==> SlabInv(s.slabs[k], k, s.memory, s.live.Keys, frees[k]))
    && (forall p :: p in s.live ==> exists k: nat :: Owns(s.slabs, k, p, s.live[p]))
  }

  // ---- Steps ----

  /** The smallest slot size for a request, which is at least 8 bytes. */
  ghost predicate IsClass(size: nat, k: nat) {
    size <= SlotSize(k) && forall j: nat :: size <= SlotSize(j) ==> k <= j
  }

  /** The slab KFree picks: the first whose range has the address. */
  ghost predicate FirstSlab(slabs: seq<Slab>, k: nat, p: nat) {
    k < |slabs| && InSlab(slabs[k], p) && forall j :: 0 <= j < k ==> !InSlab(slabs[j], p)
  }

  ghost predicate CanTake(s: Heap, k: nat) {
    k < |s.slabs| && s.slabs[k].head != 0 && s.slabs[k].head in s.memory
  }

  ghost function Allocated(s: Heap, k: nat, size: nat): Heap
    requires CanTake(s, k)
  {
    var head := s.slabs[k].head;
    s.(slabs := s.slabs[k := s.slabs[k].(head := s.memory[head])], live := s.live[head := size])
  }

  ghost function Freed(s: Heap, k: nat, p: nat): Heap
    requires k < |s.slabs|
  {
    Heap(s.slabs[k := s.slabs[k].(head := p)], s.memory[p := s.slabs[k].head], s.live - {p})
  }

  datatype Event = Malloc(size: nat, p: nat) | Free(p: nat) | Store(p: nat, a: nat, v: nat)

  /** A call of KMalloc that succeeds, a KFree of a block in use, or a write by the owner of a block. */
  ghost predicate Step(s: Heap, e: Event, s': Heap) {
    match e
    case Malloc(size, p) =>
      exists k: nat :: IsClass(size, k) && CanTake(s, k) && p == s.slabs[k].head && s' == Allocated(s, k, size)
    case Free(p) =>
      p in s.live && exists k: nat :: FirstSlab(s.slabs, k, p) && s' == Freed(s, k, p)
    case Store(p, a, v) =>
      && p in s.live && (exists k: nat :: k < |s.slabs| && InBlock(s.slabs[k], p, a))
      && s' == s.(memory := s.memory[a := v])
  }

  ghost predicate InBlock(slab: Slab, p: nat, a: nat) {
    InSlab(slab, p) && p <= a && a + 8 <= p + slab.slotSize
  }

  // ---- What every step keeps ----

  /** Addresses of different slabs differ. */
  lemma OneSlab(slabs: seq<Slab>, i: nat, j: nat, a: nat)
    requires SlabsApart(slabs) && i < |slabs| && j < |slabs| && InSlab(slabs[i], a) && InSlab(slabs[j], a)
    ensures i == j
  {
  }

  lemma FreeSlots(s: Heap, frees: seq<seq<nat>>, k: nat, a: nat)
    requires Inv(s, frees) && k < SLABS_COUNT && a in frees[k]
    ensures IsSlot(s.slabs[k], a) && InSlab(s.slabs[k], a) && a !in s.live
  {
    SlotPlace(s.slabs[k], k, a);
  }

  /** Taking the head of a list hands out a free slot. */
  lemma AllocKeeps(s: Heap, frees: seq<seq<nat>>, k: nat, size: nat)
    requires Inv(s, frees) && k < SLABS_COUNT && s.slabs[k].head != 0 && size <= SlotSize(k)
    ensures frees[k] != [] && CanTake(s, k) && s.slabs[k].head !in s.live && IsSlot(s.slabs[k], s.slabs[k].head)
    ensures Inv(Allocated(s, k, size), frees[k := frees[k][1..]])
  {
    HeadIsFree(s, frees, k);
    hide SlotSize, IsSlot, SlotAt, SlabInv;
    var head, s' := s.slabs[k].head, Allocated(s, k, size);
    AllocSlabs(s, frees, k, size);
    assert SlabsApart(s'.slabs);
    OwnersKept(s, s', head);
    assert Owns(s'.slabs, k, head, size);
  }

  lemma AllocSlabs(s: Heap, frees: seq<seq<nat>>, k: nat, size: nat)
    requires Inv(s, frees) && k < SLABS_COUNT && frees[k] != [] && CanTake(s, k) && InSlab(s.slabs[k], s.slabs[k].head)
    ensures var s', frees' := Allocated(s, k, size), frees[k := frees[k][1..]];
            forall j :: 0 <= j < SLABS_COUNT ==> SlabInv(s'.slabs[j], j, s'.memory, s'.live.Keys, frees'[j])
  {
    hide SlotSize, IsSlot, SlotAt, SlabInv, InSlab;
    var head, s', frees' := s.slabs[k].head, Allocated(s, k, size), frees[k := frees[k][1..]];
    assert s'.live.Keys == s.live.Keys + {head};
    forall j | 0 <= j < SLABS_COUNT
      ensures SlabInv(s'.slabs[j], j, s'.memory, s'.live.Keys, frees'[j])
    {
      if j == k {
        TakenSlab(s.slabs[k], k, s.memory, s.live.Keys, frees[k]);
      } else {
        SlabElsewhere(s, frees, j, k, head, 0);
      }
    }
  }

  lemma HeadIsFree(s: Heap, frees: seq<seq<nat>>, k: nat)
    requires Inv(s, frees) && k < SLABS_COUNT && s.slabs[k].head != 0
    ensures frees[k] != [] && CanTake(s, k) && s.slabs[k].head !in s.live && IsSlot(s.slabs[k], s.slabs[k].head)
    ensures InSlab(s.slabs[k], s.slabs[k].head) && s.slabs[k].slotSize == SlotSize(k)
  {
    assert SlabInv(s.slabs[k], k, s.memory, s.live.Keys, frees[k]);
    FreeSlots(s, frees, k, s.slabs[k].head);
  }

  /** Owners stay owners when only heads change. */
  lemma OwnersKept(s: Heap, s': Heap, but: nat)
    requires |s'.slabs| == |s.slabs|
    requires forall i :: 0 <= i < |s.slabs| ==> s'.slabs[i] == s.slabs[i].(head := s'.slabs[i].head)
    requires forall p :: p in s'.live && p != but ==> p in s.live && s'.live[p] == s.live[p]
    requires forall p :: p in s.live ==> exists k: nat :: Owns(s.slabs, k, p, s.live[p])
    ensures forall p :: p in s'.live && p != but ==> exists k: nat :: Owns(s'.slabs, k, p, s'.live[p])
  {
    forall p | p in s'.live && p != but
      ensures exists k: nat :: Owns(s'.slabs, k, p, s'.live[p])
    {
      var k: nat :| Owns(s.slabs, k, p, s.live[p]);
      assert Owns(s'.slabs, k, p, s'.live[p]);
    }
  }

  lemma TakenSlab(slab: Slab, k: nat, memory: map<nat, nat>, live: set<nat>, free: seq<nat>)
    requires SlabInv(slab, k, memory, live, free) && free != []
    ensures SlabInv(slab.(head := memory[slab.head]), k, memory, live + {slab.head}, free[1..])
  {
    var slab' := slab.(head := memory[slab.head]);
    SameSlots(slab, slab');
    hide IsSlot, SlotSize, IsList;
    ListStep(memory, slab.head, free);
    forall a | IsSlot(slab', a)
      ensures a in free[1..] || a in live + {slab.head}
    {
      assert IsSlot(slab, a);
      assert free == [free[0]] + free[1..];
    }
  }

  lemma ListStep(memory: map<nat, nat>, head: nat, free: seq<nat>)
    requires IsList(memory, head, free) && free != []
    ensures head == free[0] && head != 0 && head in memory && IsList(memory, memory[head], free[1..])
  {
  }

  lemma SameSlots(slab: Slab, slab': Slab)
    requires slab' == slab.(head := slab'.head)
    ensures forall a {:trigger IsSlot(slab', a)} {:trigger IsSlot(slab, a)} :: IsSlot(slab', a) <==> IsSlot(slab, a)
  {
  }

  /** A slab does not mind what happens to an address of another slab. */
  lemma SlabElsewhere(s: Heap, frees: seq<seq<nat>>, j: nat, k: nat, p: nat, v: nat)
    requires Inv(s, frees) && j < SLABS_COUNT && k < SLABS_COUNT && j != k && InSlab(s.slabs[k], p)
    ensures SlabInv(s.slabs[j], j, s.memory, s.live.Keys + {p}, frees[j])
    ensures SlabInv(s.slabs[j], j, s.memory, s.live.Keys - {p}, frees[j])
    ensures SlabInv(s.slabs[j], j, s.memory[p := v], s.live.Keys - {p}, frees[j])
    ensures SlabInv(s.slabs[j], j, s.memory[p := v], s.live.Keys, frees[j])
  {
    assert SlabInv(s.slabs[j], j, s.memory, s.live.Keys, frees[j]);
    forall a | IsSlot(s.slabs[j], a)
      ensures a != p
    {
      SlotPlace(s.slabs[j], j, a);
      if a == p { OneSlab(s.slabs, j, k, p); }
    }
    if InSlab(s.slabs[j], p) { OneSlab(s.slabs, j, k, p); }
    hide IsSlot, SlotSize, IsList;
    ListFrame(s.memory, s.slabs[j].head, frees[j], p, v);
  }

  lemma FreeKeeps(s: Heap, frees: seq<seq<nat>>, k: nat, p: nat)
    requires Inv(s, frees) && p in s.live && FirstSlab(s.slabs, k, p)
    ensures IsSlot(s.slabs[k], p) && Owns(s.slabs, k, p, s.live[p])
    ensures Inv(Freed(s, k, p), frees[k := [p] + frees[k]])
  {
    hide SlotSize, IsSlot, SlotAt, SlabInv;
    OwnerIs(s, frees, k, p);
    FreeSlabs(s, frees, k, p);
    assert SlabsApart(Freed(s, k, p).slabs);
    OwnersKept(s, Freed(s, k, p), p);
  }

  lemma FreeSlabs(s: Heap, frees: seq<seq<nat>>, k: nat, p: nat)
    requires Inv(s, frees) && p in s.live && k < SLABS_COUNT && InSlab(s.slabs[k], p) && IsSlot(s.slabs[k], p)
    ensures var s', frees' := Freed(s, k, p), frees[k := [p] + frees[k]];
            forall j :: 0 <= j < SLABS_COUNT ==> SlabInv(s'.slabs[j], j, s'.memory, s'.live.Keys, frees'[j])
  {
    hide SlotSize, IsSlot, SlotAt, SlabInv, InSlab;
    var s', frees' := Freed(s, k, p), frees[k := [p] + frees[k]];
    assert s'.live.Keys == s.live.Keys - {p};
    forall j | 0 <= j < SLABS_COUNT
      ensures SlabInv(s'.slabs[j], j, s'.memory, s'.live.Keys, frees'[j])
    {
      if j == k {
        ReturnedSlab(s.slabs[k], k, s.memory, s.live.Keys, frees[k], p);
      } else {
        SlabElsewhere(s, frees, j, k, p, s.slabs[k].head);
      }
    }
  }

  /** The slab KFree picks is the one the block came from. */
  lemma OwnerIs(s: Heap, frees: seq<seq<nat>>, k: nat, p: nat)
    requires Inv(s, frees) && p in s.live && k < |s.slabs| && InSlab(s.slabs[k], p)
    ensures IsSlot(s.slabs[k], p) && Owns(s.slabs, k, p, s.live[p])
  {
    assert SlabInv(s.slabs[k], k, s.memory, s.live.Keys, frees[k]);
    var owner: nat :| Owns(s.slabs, owner, p, s.live[p]);
    OneSlab(s.slabs, owner, k, p);
  }

  /** Following the changed list from a cell of the old one still leads to `p`. */
  lemma {:induction false} StillLeadsTo(memory: map<nat, nat>, p: nat, v: nat, head: nat, free: seq<nat>,
                                        free': seq<nat>)
    requires IsList(memory, head, free) && IsList(memory[p := v], head, free') && p in free
    ensures p in free'
    decreases free
  {
    if free[0] != p { StillLeadsTo(memory, p, v, memory[head], free[1..], free'[1..]); }
  }

  /** Freeing keeps the heap well-formed exactly for blocks in use: a slot that is free already ties its list into a
      cycle, and an address between slots becomes a slot of its own. */
  lemma FreeExact(s: Heap, frees: seq<seq<nat>>, k: nat, p: nat)
    requires Inv(s, frees) && FirstSlab(s.slabs, k, p)
    ensures (exists frees' :: Inv(Freed(s, k, p), frees')) <==> p in s.live
  {
    if p in s.live { FreeKeeps(s, frees, k, p); }
    forall frees' | Inv(Freed(s, k, p), frees')
      ensures p in s.live
    {
      NotFreedTwice(s, frees, k, p, frees');
    }
  }

  lemma NotFreedTwice(s: Heap, frees: seq<seq<nat>>, k: nat, p: nat, frees': seq<seq<nat>>)
    requires Inv(s, frees) && FirstSlab(s.slabs, k, p) && Inv(Freed(s, k, p), frees')
    ensures p in s.live
  {
    hide SlotSize, SlotAt, IsSlot;
    var slab, s' := s.slabs[k], Freed(s, k, p);
    assert SlabInv(slab, k, s.memory, s.live.Keys, frees[k]);
    assert SlabInv(s'.slabs[k], k, s'.memory, s'.live.Keys, frees'[k]);
    FirstSlotIs(s'.slabs[k], k, s'.memory, s'.live.Keys, frees'[k]);
    SameSlots(slab, s'.slabs[k]);
    assert IsSlot(slab, p);
    if p in frees[k] { StillLeadsTo(s.memory, p, slab.head, slab.head, frees[k], frees'[k][1..]); }
  }

  lemma FirstSlotIs(slab: Slab, k: nat, memory: map<nat, nat>, live: set<nat>, free: seq<nat>)
    requires SlabInv(slab, k, memory, live, free) && (slab.head == 0 ==> InSlab(slab, 0))
    ensures free != [] && slab.head == free[0] && slab.head in memory && IsSlot(slab, slab.head)
    ensures IsList(memory, memory[slab.head], free[1..]) && slab.head !in free[1..]
  {
  }

  lemma ReturnedSlab(slab: Slab, k: nat, memory: map<nat, nat>, live: set<nat>, free: seq<nat>, p: nat)
    requires SlabInv(slab, k, memory, live, free) && p in live && IsSlot(slab, p) && InSlab(slab, p)
    ensures SlabInv(slab.(head := p), k, memory[p := slab.head], live - {p}, [p] + free)
  {
    var slab' := slab.(head := p);
    SameSlots(slab, slab');
    hide IsSlot, SlotSize;
    ListFrame(memory, slab.head, free, p, slab.head);
    assert ([p] + free)[1..] == free;
    hide IsList;
    forall a | IsSlot(slab', a)
      ensures a in [p] + free || a in live - {p}
    {
      assert IsSlot(slab, a);
    }
  }

  /** A write inside a block in use touches no free list. */
  lemma StoreKeeps(s: Heap, frees: seq<seq<nat>>, p: nat, k: nat, a: nat, v: nat)
    requires Inv(s, frees) && p in s.live && k < |s.slabs| && InBlock(s.slabs[k], p, a)
    ensures Inv(s.(memory := s.memory[a := v]), frees)
  {
    assert SlabInv(s.slabs[k], k, s.memory, s.live.Keys, frees[k]);
    SlotPlace(s.slabs[k], k, p);
    if a in frees[k] { SlotsApart(s.slabs[k], p, a); }
    hide SlotSize, IsSlot, SlotAt, IsList;
    forall j | 0 <= j < SLABS_COUNT
      ensures SlabInv(s.slabs[j], j, s.memory[a := v], s.live.Keys, frees[j])
    {
      if j == k {
        ListFrame(s.memory, s.slabs[k].head, frees[k], a, v);
      } else {
        SlabElsewhere(s, frees, j, k, a, v);
      }
    }
    var s' := s.(memory := s.memory[a := v]);
    assert forall q :: q in s'.live ==> q in s.live && s'.live[q] == s.live[q];
  }

  lemma StepKeeps(s: Heap, frees: seq<seq<nat>>, e: Event, s': Heap) returns (frees': seq<seq<nat>>)
    requires Inv(s, frees) && Step(s, e, s')
    ensures Inv(s', frees')
  {
    hide Inv, Allocated, Freed, SlotSize;
    SlabCount(s, frees);
    match e
    case Malloc(size, p) =>
      var k: nat :| IsClass(size, k) && CanTake(s, k) && p == s.slabs[k].head && s' == Allocated(s, k, size);
      AllocKeeps(s, frees, k, size);
      frees' := frees[k := frees[k][1..]];
    case Free(p) =>
      var k: nat :| FirstSlab(s.slabs, k, p) && s' == Freed(s, k, p);
      FreeKeeps(s, frees, k, p);
      frees' := frees[k := [p] + frees[k]];
    case Store(p, a, v) =>
      var k: nat :| k < |s.slabs| && InBlock(s.slabs[k], p, a);
      StoreKeeps(s, frees, p, k, a, v);
      frees' := frees;
  }

  lemma SlabCount(s: Heap, frees: seq<seq<nat>>)
    requires Inv(s, frees)
    ensures |s.slabs| == |frees| == SLABS_COUNT
  {
  }

  // ---- Whole runs ----

  ghost predicate IsRun(states: seq<Heap>, events: seq<Event>) {
    |states| == |events| + 1 && forall i :: 0 <= i < |events| ==> Step(states[i], events[i], states[i + 1])
  }

  lemma {:induction false} InvariantOverRuns(states: seq<Heap>, events: seq<Event>, frees: seq<seq<nat>>, n: nat)
    returns (frees': seq<seq<nat>>)
    requires IsRun(states, events) && Inv(states[0], frees) && n <= |events|
    ensures Inv(states[n], frees')
  {
    hide Inv, Step;
    if n == 0 {
      frees' := frees;
    } else {
      frees' := InvariantOverRuns(states, events, frees, n - 1);
      frees' := StepKeeps(states[n - 1], frees', events[n - 1], states[n]);
    }
  }

  /** A block in use has its own place: inside one slab, aligned to the slot size, at least as large as was asked
      for, and apart from every other block in use. */
  ghost predicate BlocksSafe(s: Heap) {
    && (forall p :: p in s.live ==> exists k: nat :: Owns(s.slabs, k, p, s.live[p]))
    && (forall p, i, q, j {:trigger Apart(s, p, i, q, j)} :: Apart(s, p, i, q, j))
  }

  ghost predicate Apart(s: Heap, p: nat, i: nat, q: nat, j: nat) {
    p in s.live && q in s.live && Owns(s.slabs, i, p, s.live[p]) && Owns(s.slabs, j, q, s.live[q]) ==>
      && p % s.slabs[i].slotSize == 0
      && (p == q ==> i == j)
      && (p != q ==> p + s.slabs[i].slotSize <= q || q + s.slabs[j].slotSize <= p)
  }

  lemma InvIsSafe(s: Heap, frees: seq<seq<nat>>)
    requires Inv(s, frees)
    ensures BlocksSafe(s)
  {
    hide SlotSize, SlotAt, IsList, SlabInv;
    forall p, i, q, j
      ensures Apart(s, p, i, q, j)
    {
      if p in s.live && q in s.live && Owns(s.slabs, i, p, s.live[p]) && Owns(s.slabs, j, q, s.live[q]) {
        BlocksApart(s, frees, p, i, q, j);
      }
    }
  }

  lemma BlocksApart(s: Heap, frees: seq<seq<nat>>, p: nat, i: nat, q: nat, j: nat)
    requires Inv(s, frees) && p in s.live && q in s.live
    requires Owns(s.slabs, i, p, s.live[p]) && Owns(s.slabs, j, q, s.live[q])
    ensures p % s.slabs[i].slotSize == 0
    ensures p == q ==> i == j
    ensures p != q ==> p + s.slabs[i].slotSize <= q || q + s.slabs[j].slotSize <= p
  {
    assert SlabInv(s.slabs[i], i, s.memory, s.live.Keys, frees[i])
           && SlabInv(s.slabs[j], j, s.memory, s.live.Keys, frees[j]);
    SlotPlace(s.slabs[i], i, p);
    SlotPlace(s.slabs[j], j, q);
    if i == j {
      if p < q { SlotsApart(s.slabs[i], p, q); } else if q < p { SlotsApart(s.slabs[i], q, p); }
    }
  }

  /** Safety over whole runs: in every state reached from a good one, the blocks in use are safe. */
  lemma RunsAreSafe(states: seq<Heap>, events: seq<Event>, frees: seq<seq<nat>>, n: nat)
    requires IsRun(states, events) && Inv(states[0], frees) && n <= |events|
    ensures BlocksSafe(states[n])
  {
    hide Inv, Step, BlocksSafe;
    var frees' := InvariantOverRuns(states, events, frees, n);
    InvIsSafe(states[n], frees');
  }

  /** Nobody else's calls or writes change a word of a block that stays in use. */
  lemma ContentsKept(s: Heap, frees: seq<seq<nat>>, e: Event, s': Heap, q: nat, j: nat, a: nat)
    requires Inv(s, frees) && Step(s, e, s') && q in s.live && Owns(s.slabs, j, q, s.live[q])
    requires q <= a < q + s.slabs[j].slotSize && a in s.memory
    requires !(e.Free? && e.p == q) && !(e.Store? && e.p == q)
    ensures q in s'.live && s'.live[q] == s.live[q] && a in s'.memory && s'.memory[a] == s.memory[a]
  {
    hide SlotSize, SlotAt, IsList, SlabInv, Inv, InSlab;
    SlabCount(s, frees);
    match e
    case Malloc(size, p) =>
      var k: nat :| IsClass(size, k) && CanTake(s, k) && p == s.slabs[k].head && s' == Allocated(s, k, size);
      HeadIsFree(s, frees, k);
    case Free(p) =>
      var k: nat :| FirstSlab(s.slabs, k, p) && s' == Freed(s, k, p);
      OwnerIs(s, frees, k, p);
      BlocksApart(s, frees, p, k, q, j);
    case Store(p, b, v) =>
      var k: nat :| k < |s.slabs| && InBlock(s.slabs[k], p, b);
      OwnerIs(s, frees, k, p);
      BlocksApart(s, frees, p, k, q, j);
  }

  // ---- Conservation ----

  ghost function SlotsFrom(slab: Slab, i: nat): seq<nat>
    requires slab.slotSize > 0
    decreases slab.slabSize / slab.slotSize - i
  {
    if i >= slab.slabSize / slab.slotSize then []
    else [SlotAt(slab.slabBase, slab.slotSize, i)] + SlotsFrom(slab, i + 1)
  }

  ghost function LiveIn(s: Heap, k: nat): set<nat>
    requires k < |s.slabs|
  {
    set p | p in s.live && InSlab(s.slabs[k], p)
  }

  /** Free and used slots always add up to the slots of the slab. */
  lemma SlotsConserved(s: Heap, frees: seq<seq<nat>>, k: nat)
    requires Inv(s, frees) && k < SLABS_COUNT
    ensures s.slabs[k].slotSize > 0 && |frees[k]| + |LiveIn(s, k)| == s.slabs[k].slabSize / s.slabs[k].slotSize
  {
    hide IsSlot, SlotAt, SlotsFrom, SlotSize, Distinct, IsList;
    var slab, free := s.slabs[k], frees[k];
    assert SlabInv(slab, k, s.memory, s.live.Keys, free);
    var slots := AllSlots(slab, k);
    DistinctCount(free);
    SlotsSplit(s, frees, k, slots);
  }

  lemma SlotsSplit(s: Heap, frees: seq<seq<nat>>, k: nat, slots: seq<nat>)
    requires Inv(s, frees) && k < SLABS_COUNT
    requires forall a: nat {:trigger IsSlot(s.slabs[k], a)} :: a in slots <==> IsSlot(s.slabs[k], a)
    ensures Elements(slots) == Elements(frees[k]) + LiveIn(s, k) && Elements(frees[k]) !! LiveIn(s, k)
  {
    hide IsSlot, SlotAt, SlotSize, Distinct, IsList;
    assert SlabInv(s.slabs[k], k, s.memory, s.live.Keys, frees[k]);
    forall a: nat
      ensures a in slots <==> a in frees[k] || a in LiveIn(s, k)
    {
      if IsSlot(s.slabs[k], a) { SlotPlace(s.slabs[k], k, a); }
    }
  }

  lemma AllSlots(slab: Slab, k: nat) returns (slots: seq<nat>)
    requires SlabValid(slab, k)
    ensures slots == SlotsFrom(slab, 0) && Distinct(slots)
    ensures |slots| == |Elements(slots)| == slab.slabSize / slab.slotSize
    ensures forall a: nat {:trigger IsSlot(slab, a)} :: a in slots <==> IsSlot(slab, a)
  {
    hide SlotAt, SlotSize, SlotsFrom, Distinct;
    slots := SlotsFrom(slab, 0);
    SlotsFromAre(slab, 0);
    DistinctCount(slots);
    forall a: nat
      ensures a in slots <==> IsSlot(slab, a)
    {
      assert a in slots <==> SlotFrom(slab, 0, a);
    }
  }

  ghost predicate SlotFrom(slab: Slab, i: nat, a: nat) {
    slab.slotSize > 0 && exists j: nat ::
      i <= j < slab.slabSize / slab.slotSize && a == SlotAt(slab.slabBase, slab.slotSize, j)
  }

  ghost function Elements(s: seq<nat>): set<nat> {
    set a | a in s
  }

  lemma {:induction false} DistinctCount(s: seq<nat>)
    requires Distinct(s)
    ensures |Elements(s)| == |s|
  {
    if s == [] {
      assert Elements(s) == {};
    } else {
      DistinctCount(s[1..]);
      assert s == [s[0]] + s[1..];
      assert Elements(s) == {s[0]} + Elements(s[1..]);
    }
  }

  lemma {:induction false} SlotsFromAre(slab: Slab, i: nat)
    requires slab.slotSize > 0 && i <= slab.slabSize / slab.slotSize
    ensures |SlotsFrom(slab, i)| == slab.slabSize / slab.slotSize - i && Distinct(SlotsFrom(slab, i))
    ensures forall a {:trigger SlotFrom(slab, i, a)} :: a in SlotsFrom(slab, i) <==> SlotFrom(slab, i, a)
    decreases slab.slabSize / slab.slotSize - i
  {
    var n := slab.slabSize / slab.slotSize;
    if i < n {
      SlotsFromAre(slab, i + 1);
      var first, rest := SlotAt(slab.slabBase, slab.slotSize, i), SlotsFrom(slab, i + 1);
      assert first in rest <==> SlotFrom(slab, i + 1, first);
      if SlotFrom(slab, i + 1, first) {
        var j: nat :| i + 1 <= j < n && first == SlotAt(slab.slabBase, slab.slotSize, j);
        MulStep(i, j, slab.slotSize);
      }
      assert SlotsFrom(slab, i) == [first] + rest;
      forall a
        ensures a in [first] + rest <==> SlotFrom(slab, i, a)
      {
        assert a in rest <==> SlotFrom(slab, i + 1, a);
      }
    }
  }
}

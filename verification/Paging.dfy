/** The paging manager (kernel/src/Memory/PagingManager.cpp): table allocation, mapping and fork's deep copy. */
module Paging {
  import opened Common
  import opened PageEntries
  import opened PageFrames
  import opened PageTrees
  import opened PageCopies
  import opened PageMaps
  import opened PageSpaces

  /** Physical memory with its frame allocator. The higher-half offset of the kernel's view is left out. */
  class PhysicalMemory {
    var frames: Memory
    const allocator: PageFrameAllocator

    constructor (frames: Memory, allocator: PageFrameAllocator)
      ensures this.frames == frames && this.allocator == allocator
    {
      this.frames := frames;
      this.allocator := allocator;
    }

    ghost function Now(): Snapshot
      reads this, allocator, allocator.bitmap, allocator.bitmap.buffer
    {
      Snapshot(frames, allocator.bitmap.Bits(), allocator.latestAllocatedPageFrame)
    }

    method RequestPageFrame() returns (frame: Option<nat>)
      requires Now().Valid()
      modifies allocator, allocator.bitmap.buffer
      ensures Now().Valid()
      ensures frame.None? <==> old(Now()).Free() == 0
      ensures frame.Some? ==> Requested(old(Now()), Now(), frame.value)
    {
      ghost var s := Now();
      frame := allocator.RequestPageFrame();
      if frame.Some? {
        FreeAboveTakes(s.bits, s.cursor, frame.value);
      } else {
        FreeAboveSkips(s.bits, s.cursor, |s.bits|);
      }
    }
  }

  /** How MapMemory ends: normally, or in one of its two panics. */
  datatype MapOutcome = Done | OutOfFrames | AlreadyMapped

  class PagingManager {
    const physical: PhysicalMemory
    var pml4: nat

    constructor (physical: PhysicalMemory)
      ensures this.physical == physical
    {
      this.physical := physical;
      pml4 := 0;
    }

    /** A fresh top table: empty user half, kernel half shared with the boot tables. */
    method InitializePaging(defaultPml4: nat) returns (ok: bool)
      requires physical.Now().Valid() && physical.Now().Used(defaultPml4)
      modifies this, physical, physical.allocator, physical.allocator.bitmap.buffer
      ensures ok <==> old(physical.Now()).Free() > 0
      ensures ok ==>
                && physical.Now().Valid() && |physical.frames| == |old(physical.frames)|
                && pml4 < |physical.frames| && !old(physical.Now()).Used(pml4)
                && (forall x: nat :: physical.Now().Used(x) <==> old(physical.Now()).Used(x) || x == pml4)
                && (forall x: nat :: x < |physical.frames| && x != pml4 ==>
                    physical.frames[x] == old(physical.frames)[x])
                && (forall i :: 0 <= i < 256 ==> !IsPresent(physical.frames[pml4][i]))
                && (forall i :: 256 <= i < 512 ==> physical.frames[pml4][i] == old(physical.frames)[defaultPml4][i])
                && AddressSpace(physical.Now(), pml4, 256) && physical.Now().Free() + 1 == old(physical.Now()).Free()
    {
      hide IsPresent, FreeAbove, Reach;
      var request := physical.RequestPageFrame();
      if request.None? { return false; }
      pml4 := request.value;
      var cleared: Table := Zeroed()[..256] + physical.frames[pml4][256..];
      physical.frames := physical.frames[pml4 := cleared];
      physical.frames := physical.frames[pml4 := physical.frames[pml4][..256] + physical.frames[defaultPml4][256..]];
      ZeroNotPresent();
      assert forall i :: 0 <= i < 256 ==> physical.frames[pml4][i] == Zeroed()[i] == 0;
      EmptyReachesNothing(physical.frames, pml4, 3, 256, false);
      ok := true;
    }

    /** Fork's deep copy of the user half. The child's user half has to be empty, as InitializePaging leaves it. */
    method CopyUserspace(original: PagingManager) returns (ok: bool)
      requires original.physical == physical && Copyable(physical.Now(), original.pml4, pml4, 3, 256)
      modifies physical, physical.allocator, physical.allocator.bitmap.buffer
      ensures ok <==> old(physical.Now()).Free() >= |Reach(old(physical.frames), original.pml4, 3, 256, true)|
      ensures ok ==> Duplicated(old(physical.Now()), physical.Now(), original.pml4, pml4, 3, 256)
    {
      ok := CopyPages(original.pml4, pml4, 256, 3);
    }

    /** Maps one page. `n` bounds the part of the top table that is this address space's own. */
    method MapMemory(virtAddr: word, physAddr: word, ghost n: nat) returns (outcome: MapOutcome)
      requires AddressSpace(physical.Now(), pml4, n) && Index(virtAddr, 3) < n
      modifies physical, physical.allocator, physical.allocator.bitmap.buffer
      ensures outcome.AlreadyMapped? <==> Walk(old(physical.frames), pml4, 3, virtAddr).Some?
      ensures outcome.OutOfFrames? <==> old(physical.Now()).Free() < Missing(old(physical.frames), pml4, 3, virtAddr)
      ensures outcome.Done? ==> Mapped(old(physical.Now()), physical.Now(), pml4, n, virtAddr, physAddr)
    {
      hide Reach, IsPresent, FrameOf, Index, Walk, FreeAbove, TableAt, Tree, OnTheWay, Mapped, Missing, AddressSpace,
           Populated;
      ghost var s := physical.Now();
      var pageIndexes := GetPageTableIndexes(virtAddr);
      var table := pml4;
      Starting(s, pml4, n, virtAddr);
      var level := 3;
      while level > 0
        invariant 0 <= level <= 3
        invariant OnTheWay(s, physical.Now(), pml4, n, virtAddr, level, table)
      {
        ghost var m := physical.Now();
        WayUsed(s, m, pml4, n, virtAddr, level, table);
        var index := pageIndexes[level];
        var entry := physical.frames[table][index];
        if IsPresent(entry) {
          ThroughPresentTable(s, m, pml4, n, virtAddr, level, table);
          table := FrameOf(entry);
        } else {
          var next := physical.RequestPageFrame();
          if next.None? {
            NoFramesLeft(s, m, pml4, n, virtAddr, level, table);
            return OutOfFrames;
          }
          ThroughNewTable(s, m, physical.Now(), pml4, n, virtAddr, level, table, next.value);
          physical.frames := physical.frames[next.value := Zeroed()];
          physical.frames :=
            physical.frames[table := physical.frames[table][index := Populated(entry, AddressOf(next.value))]];
          table := next.value;
        }
        level := level - 1;
      }
      ghost var m := physical.Now();
      WayUsed(s, m, pml4, n, virtAddr, 0, table);
      LeafDecides(s, m, pml4, n, virtAddr, table);
      var index := pageIndexes[0];
      var page := physical.frames[table][index];
      if IsPresent(page) { return AlreadyMapped; }
      LeafMapped(s, m, pml4, n, virtAddr, table, physAddr);
      physical.frames := physical.frames[table := physical.frames[table][index := Populated(page, physAddr)]];
      outcome := Done;
    }

    /** The level (counted from 1) of the first entry on the way whose flag differs, or 0. The lock taken on entry is
        still held on return exactly when a table on the way is missing. */
    method PageNotPresentLevel(virtAddr: word) returns (mismatch: nat, lockHeld: bool)
      ensures mismatch == 0 <==> Walk(physical.frames, pml4, 3, virtAddr).Some?
      ensures mismatch <= 4
      ensures mismatch > 0 ==>
                && TableAt(physical.frames, pml4, 3, virtAddr, mismatch - 1).Some?
                && (var table := TableAt(physical.frames, pml4, 3, virtAddr, mismatch - 1).value;
                    !IsPresent(Content(physical.frames, table)[Index(virtAddr, mismatch - 1)]))
      ensures lockHeld <==> TableAt(physical.frames, pml4, 3, virtAddr, 0).None?
      ensures lockHeld <==> mismatch >= 2
    {
      var pageIndexes := GetPageTableIndexes(virtAddr);
      lockHeld := true;
      var table := pml4;
      var level := 3;
      while level > 0
        invariant 0 <= level <= 3 && lockHeld
        invariant TableAt(physical.frames, pml4, 3, virtAddr, level) == Some(table)
      {
        var entry := Content(physical.frames, table)[pageIndexes[level]];
        WalkByTable(physical.frames, pml4, 3, virtAddr, level, table);
        if !IsPresent(entry) {
          return level + 1, lockHeld;
        }
        StepsIntoTable(physical.frames, pml4, 3, virtAddr, level, table);
        table := FrameOf(entry);
        level := level - 1;
      }
      WalkByTable(physical.frames, pml4, 3, virtAddr, 0, table);
      var present := IsPresent(Content(physical.frames, table)[pageIndexes[0]]);
      lockHeld := false;
      mismatch := if present then 0 else 1;
    }

    /** Duplicates the first `pageCount` entries of a table, with everything below them, into an empty table.
        Answers false exactly when the allocator panics: too few frames are left for the whole copy. */
    method CopyPages(originalTable: nat, table: nat, pageCount: nat, level: nat) returns (ok: bool)
      requires Copyable(physical.Now(), originalTable, table, level, pageCount)
      modifies physical, physical.allocator, physical.allocator.bitmap.buffer
      ensures ok <==> old(physical.Now()).Free() >= |Reach(old(physical.frames), originalTable, level, pageCount, true)|
      ensures ok ==> Duplicated(old(physical.Now()), physical.Now(), originalTable, table, level, pageCount)
      decreases level, 1
    {
      hide Duplicated, Copyable, EntryDuplicated, EntryCopyable, Reach, ReachEntry;
      ghost var s := physical.Now();
      NothingCopiedYet(s, originalTable, table, level, pageCount);
      var entryIndex := 0;
      while entryIndex < pageCount
        invariant 0 <= entryIndex <= pageCount
        invariant Duplicated(s, physical.Now(), originalTable, table, level, entryIndex)
      {
        ghost var m := physical.Now();
        NextEntry(s, m, originalTable, table, level, pageCount, entryIndex);
        FramesSpent(s, m, originalTable, table, level, entryIndex);
        var originalEntry := physical.frames[originalTable][entryIndex];
        if IsPresent(originalEntry) {
          ok := CopyEntry(originalEntry, table, entryIndex, level);
          if !ok {
            ReachGrows(s.frames, originalTable, level, entryIndex + 1, pageCount);
            return;
          }
          PresentEntryCopied(s, m, physical.Now(), originalTable, table, level, pageCount, entryIndex);
        } else {
          AbsentEntryCopied(s, m, originalTable, table, level, pageCount, entryIndex);
        }
        entryIndex := entryIndex + 1;
      }
      FramesSpent(s, physical.Now(), originalTable, table, level, pageCount);
      ok := true;
    }

    /** The body of CopyPages' loop for one present entry. */
    method CopyEntry(originalEntry: word, table: nat, entryIndex: nat, level: nat) returns (ok: bool)
      requires EntryCopyable(physical.Now(), originalEntry, table, entryIndex, level)
      modifies physical, physical.allocator, physical.allocator.bitmap.buffer
      ensures ok <==> old(physical.Now()).Free() >= |ReachEntry(old(physical.frames), originalEntry, level, true)|
      ensures ok ==> EntryDuplicated(old(physical.Now()), physical.Now(), originalEntry, table, entryIndex, level)
      decreases level, 0
    {
      hide Reach, ReachEntry, IsPresent, FrameOf, SetPhysicalAddress, FreeAbove, EntryDuplicated, Duplicated, Copyable;
      ghost var s := physical.Now();
      var originalNext := FrameOf(originalEntry);
      FirstReached(s.frames, originalEntry, level);
      var request := physical.RequestPageFrame();
      if request.None? { return false; }
      var next := request.value;
      ghost var r := physical.Now();
      var entry := SetPhysicalAddress(originalEntry, AddressOf(next));
      physical.frames := physical.frames[table := physical.frames[table][entryIndex := entry]];
      if level > 0 {
        physical.frames := physical.frames[next := Zeroed()];
        TableLinked(s, r, originalEntry, table, entryIndex, level, next);
        ok := CopyPages(originalNext, next, 512, level - 1);
        if ok { TableDuplicated(s, r, physical.Now(), originalEntry, table, entryIndex, level, next); }
      } else {
        PageDuplicated(s, r, originalEntry, table, entryIndex, next);
        assert originalNext != table && originalNext != next;
        physical.frames := physical.frames[next := physical.frames[originalNext]];
        ok := true;
      }
    }
  }

  /** Asking about any user address of an address space that was just made leaves its lock held. */
  method QueryOfNewSpaceKeepsLock(physical: PhysicalMemory, defaultPml4: nat, virtAddr: word)
      returns (ok: bool, mismatch: nat, lockHeld: bool)
    requires physical.Now().Valid() && physical.Now().Used(defaultPml4) && Index(virtAddr, 3) < 256
    modifies physical, physical.allocator, physical.allocator.bitmap.buffer
    ensures ok <==> old(physical.Now()).Free() > 0
    ensures ok ==> mismatch == 4 && lockHeld
  {
    hide IsPresent, Index, Walk, FreeAbove, AddressSpace;
    mismatch, lockHeld := 0, false;
    var manager := new PagingManager(physical);
    ok := manager.InitializePaging(defaultPml4);
    if ok {
      EmptyTopLevel(physical.frames, manager.pml4, virtAddr);
      mismatch, lockHeld := manager.PageNotPresentLevel(virtAddr);
    }
  }

  /** With an empty user half only the top table is reached. */
  lemma EmptyTopLevel(mem: Memory, root: nat, virtAddr: word)
    requires Index(virtAddr, 3) < 256 && forall i :: 0 <= i < 256 ==> !IsPresent(Content(mem, root)[i])
    ensures Walk(mem, root, 3, virtAddr).None?
    ensures forall level :: 0 <= level < 3 ==> TableAt(mem, root, 3, virtAddr, level).None?
  {
  }
}

/** The Ext2 file system's allocation and file I/O (kernel/src/Ext2.cpp). */
module Ext2 {
  import opened Common
  import opened Words
  import opened DiskBlocks
  import opened Bitmaps
  import opened Ext2Layout
  import opened Ext2Alloc
  import opened Ext2Files
  import opened Ext2Writes
  import opened Ext2Metadata

  /** Ext2::Read's clamp of the count, in 64-bit unsigned arithmetic: the sum it tests wraps, and so does the
      difference. */
  function ClampedCount(size: nat, readPos: nat, count: nat): nat {
    if (readPos + count) % WORD > size then (size - readPos) % WORD else count
  }

  /** For every position and count the read stays inside the file exactly when it does not start beyond its end and
      the sum does not wrap. */
  lemma ClampExact(size: nat, readPos: nat, count: nat)
    requires size < 0x1_0000_0000 && readPos < WORD && count < WORD
    ensures readPos + ClampedCount(size, readPos, count) <= size <==> readPos <= size && readPos + count < WORD
    ensures readPos <= size && readPos + count < WORD ==>
              ClampedCount(size, readPos, count) == if readPos + count <= size then count else size - readPos
  {
    if readPos > size {
      assert (size - readPos) % WORD == size - readPos + WORD;
    }
    if readPos + count >= WORD {
      assert (readPos + count) % WORD == readPos + count - WORD;
    }
  }

  /** In a file of 10 bytes, the largest count at position 1 is not clamped at all, and a read at position 11 asks
      for all but one of 2^64 bytes. */
  lemma ClampFails()
    ensures ClampedCount(10, 1, WORD - 1) == WORD - 1
    ensures ClampedCount(10, 11, 5) == WORD - 1
  {
    assert (10 - 11) % WORD == WORD - 1;
  }

  /** Allocate skips a group whose block counter is 0, whatever it looks for, and a group with no clear bit. */
  ghost predicate Skipped(g: Geometry, s: Store, kind: Kind, n: nat)
    requires BitmapsValid(g, s) && n < |s.groups|
  {
    || s.groups[n].freeBlocks == 0
    || forall i :: 0 <= i < g.blocksPerGroup ==> Bits(g, s.disk, BitmapOf(s.groups[n], kind))[i]
  }

  /** The first clear bit of the first group that is not skipped. */
  ghost predicate FirstFree(g: Geometry, s: Store, kind: Kind, n: nat, i: nat)
    requires BitmapsValid(g, s)
  {
    && n < |s.groups| && i < g.blocksPerGroup && s.groups[n].freeBlocks > 0
    && (forall m :: 0 <= m < n ==> Skipped(g, s, kind, m))
    && !Bits(g, s.disk, BitmapOf(s.groups[n], kind))[i]
    && forall j :: 0 <= j < i ==> Bits(g, s.disk, BitmapOf(s.groups[n], kind))[j]
  }

  /** Block allocation fails only on a full disk. */
  lemma BlocksExhausted(g: Geometry, s: Store)
    requires BitmapsValid(g, s) && forall n :: 0 <= n < |s.groups| ==> Skipped(g, s, BlockKind, n)
    ensures s.freeBlocks == 0
  {
    hide Bits, Clear, Total;
    forall n | 0 <= n < |s.groups|
      ensures FreeOf(s.groups[n], BlockKind) == 0
    {
      assert Skipped(g, s, BlockKind, n);
      ClearNone(Bits(g, s.disk, BitmapOf(s.groups[n], BlockKind)));
    }
    TotalZero(s.groups, BlockKind);
  }

  /** Every allocated number is fresh: its bit was clear, it is set now, and no other bit of any bitmap changed. */
  lemma AllocationIsFresh(g: Geometry, s: Store, kind: Kind, n: nat, i: nat, m: nat, kind': Kind, j: nat)
    requires BitmapsValid(g, s) && n < |s.groups| && i < g.blocksPerGroup && m < |s.groups| && j < g.blocksPerGroup
    requires !Bits(g, s.disk, BitmapOf(s.groups[n], kind))[i]
    ensures FreeOf(s.groups[n], kind) > 0
    ensures var s' := Taken(g, s, kind, n, i);
            && BitmapsValid(g, s') && |s'.groups| == |s.groups|
            && BitmapOf(s'.groups[m], kind') == BitmapOf(s.groups[m], kind')
            && (Bits(g, s'.disk, BitmapOf(s.groups[m], kind'))[j] <==>
                Bits(g, s.disk, BitmapOf(s.groups[m], kind'))[j] || (m == n && kind' == kind && j == i))
  {
    hide Bits, Clear, Total;
    TakenKeepsBitmaps(g, s, kind, n, i);
    TakenDisk(g, s, kind, n, i, BitmapOf(s.groups[m], kind'));
    SameBits(g, s.disk, Taken(g, s, kind, n, i).disk, BitmapOf(s.groups[m], kind'));
  }

  datatype ReadOutcome = Bytes(data: seq<byte>) | Overrun(count: nat)

  datatype BlockOutcome = Found(block: nat) | Panic | OutsideDisk

  class Ext2FileSystem {
    const g: Geometry
    var disk: Disk
    var groups: seq<Group>
    var freeBlocks: nat
    var freeInodes: nat
    var files: map<nat, Inode>

    constructor (g: Geometry, disk: Disk, groups: seq<Group>, freeBlocks: nat, freeInodes: nat, files: map<nat, Inode>)
      ensures this.g == g && Now() == Store(disk, groups, freeBlocks, freeInodes, files)
    {
      this.g := g;
      this.disk, this.groups, this.freeBlocks, this.freeInodes, this.files :=
        disk, groups, freeBlocks, freeInodes, files;
    }

    ghost function Now(): Store
      reads this
    {
      Store(disk, groups, freeBlocks, freeInodes, files)
    }

    /** Returns 0 when every group is skipped. */
    method Allocate(kind: Kind) returns (number: nat, ghost place: Option<(nat, nat)>)
      requires BitmapsValid(g, Now())
      modifies this
      ensures place.None? ==>
                number == 0 && Now() == old(Now()) && forall n :: 0 <= n < |groups| ==> Skipped(g, Now(), kind, n)
      ensures place.Some? ==>
                && FirstFree(g, old(Now()), kind, place.value.0, place.value.1)
                && FreeOf(old(groups)[place.value.0], kind) > 0
                && number == Number(g, kind, place.value.0, place.value.1)
                && Now() == Taken(g, old(Now()), kind, place.value.0, place.value.1)
      ensures place.Some? ==>
                var n, i := place.value.0, place.value.1;
                && (kind.BlockKind? ==> number / g.blocksPerGroup == n && number % g.blocksPerGroup == i)
                && (kind.InodeKind? ==> number == n * g.inodesPerGroup + i + 1)
                && (var bitmap := if kind.InodeKind? then old(groups)[n].inodeBitmap else old(groups)[n].blockBitmap;
                    !UsedOnDisk(g, old(disk), bitmap, i) && UsedOnDisk(g, disk, bitmap, i))
      ensures BitmapsValid(g, Now())
    {
      hide Bits, Clear, Total, BitmapsValid, Taken, Within, GroupBase, UsedOnDisk, Number;
      ghost var s := Now();
      var blockGroupIndex := 0;
      while blockGroupIndex < |groups|
        invariant 0 <= blockGroupIndex <= |groups| && Now() == s
        invariant forall m :: 0 <= m < blockGroupIndex ==> Skipped(g, s, kind, m)
      {
        BitmapThere(g, s, blockGroupIndex, kind);
        var i := AllocateInGroup(kind, blockGroupIndex);
        if i.Some? {
          TakenKeepsBitmaps(g, s, kind, blockGroupIndex, i.value);
          number := GroupBase(g, kind, blockGroupIndex) + i.value;
          if kind.InodeKind? { number := number + 1; }
          TakenPlace(g, s, kind, blockGroupIndex, i.value);
          return number, Some((blockGroupIndex, i.value));
        }
        blockGroupIndex := blockGroupIndex + 1;
      }
      return 0, None;
    }

    /** One turn of Allocate's loop: takes the first clear bit of a group that is not full. */
    method AllocateInGroup(kind: Kind, n: nat) returns (i: Option<nat>)
      requires BitmapsValid(g, Now()) && n < |groups|
      modifies this
      ensures i.None? ==> Now() == old(Now()) && Skipped(g, old(Now()), kind, n)
      ensures i.Some? ==>
                && i.value < g.blocksPerGroup && old(groups)[n].freeBlocks > 0 && FreeOf(old(groups)[n], kind) > 0
                && !Bits(g, old(disk), BitmapOf(old(groups)[n], kind))[i.value]
                && (forall j :: 0 <= j < i.value ==> Bits(g, old(disk), BitmapOf(old(groups)[n], kind))[j])
                && Now() == Taken(g, old(Now()), kind, n, i.value)
    {
      hide Bits, Clear, Total, Block, BitAt, WithBit, Geometry.Address, BitmapsValid, Taken, Within, Splice;
      ghost var s := Now();
      var blockGroup := groups[n];
      BitmapThere(g, s, n, kind);
      if blockGroup.freeBlocks == 0 { return None; }
      var usageBitmapBlock := BitmapOf(blockGroup, kind);
      var usageBitmapSize := g.blocksPerGroup / 8;
      var addr := g.Address(usageBitmapBlock, 0);
      BitmapBytes(g, disk, usageBitmapBlock);
      var usageBitmap := disk[addr..addr + usageBitmapSize];
      i := FirstClearBit(usageBitmap);
      if i.Some? {
        TakenKeepsBitmaps(g, s, kind, n, i.value);
        TakenSpelled(g, s, kind, n, i.value);
        disk := Splice(disk, addr, WithBit(usageBitmap, i.value, false, true));
        match kind {
          case InodeKind =>
            groups := groups[n := blockGroup.(freeInodes := blockGroup.freeInodes - 1)];
            freeInodes := if freeInodes == 0 then 0 else freeInodes - 1;
          case BlockKind =>
            groups := groups[n := blockGroup.(freeBlocks := blockGroup.freeBlocks - 1)];
            freeBlocks := if freeBlocks == 0 then 0 else freeBlocks - 1;
        }
      }
    }

    /** The scan of one usage bitmap. */
    static method FirstClearBit(usageBitmap: seq<byte>) returns (r: Option<nat>)
      ensures r.None? <==> forall i: nat :: i < 8 * |usageBitmap| ==> BitAt(usageBitmap, i, false)
      ensures r.Some? ==>
                && r.value < 8 * |usageBitmap| && !BitAt(usageBitmap, r.value, false)
                && forall j: nat :: j < r.value ==> BitAt(usageBitmap, j, false)
      ensures r.Some? ==>
                && usageBitmap[r.value / 8] / Pow2(r.value % 8) % 2 == 0
                && forall j: nat :: j < r.value ==> usageBitmap[j / 8] / Pow2(j % 8) % 2 == 1
    {
      hide BitAt, Pow2;
      var i := 0;
      while i < |usageBitmap| * 8
        invariant 0 <= i <= |usageBitmap| * 8
        invariant forall j: nat :: j < i ==> BitAt(usageBitmap, j, false)
        invariant forall j: nat :: j < i ==> usageBitmap[j / 8] / Pow2(j % 8) % 2 == 1
      {
        DigitAt(usageBitmap, i);
        if !BitAt(usageBitmap, i, false) { return Some(i); }
        i := i + 1;
      }
      return None;
    }

    /** The pointer to a data block, read off the inode or off its pointer blocks on disk. Where the pointer blocks
        exist it is the entry of that index in the flattened tree, 0 for a hole; ResolvedExact says when it is so
        otherwise. */
    method ResolvePointer(name: nat, requestedBlockIndex: nat) returns (blockPtr: Option<nat>)
      requires Valid(g, Now()) && g.Valid() && name in files && requestedBlockIndex < g.IndexLimit()
      ensures |files[name].direct| == 12 && blockPtr == Resolved(g, disk, files[name], requestedBlockIndex)
      ensures Resolvable(g, Now(), name, requestedBlockIndex) ==>
                && blockPtr == Some(Held(g, Now(), name, DataSlot(g, requestedBlockIndex)))
                && requestedBlockIndex < |Flattened(g, disk, files[name])|
                && blockPtr == Some(Flattened(g, disk, files[name])[requestedBlockIndex])
    {
      hide Valid, Geometry.IndexLimit, RawPointer, Flattened, Resolvable, Held, DataSlot;
      ValidGeometry(g, Now());
      ResolvedFlattened(g, Now(), name, requestedBlockIndex);
      var pointersPerBlock := g.PointersPerBlock();
      var context := files[name];
      if requestedBlockIndex < 12 {
        blockPtr := Some(context.direct[requestedBlockIndex]);
      } else if requestedBlockIndex < 12 + pointersPerBlock {
        blockPtr := RawPointer(g, disk, context.single, requestedBlockIndex - 12);
      } else {
        var index := requestedBlockIndex - (12 + pointersPerBlock);
        blockPtr := RawPointer(g, disk, context.double, index / pointersPerBlock);
        if blockPtr.Some? { blockPtr := RawPointer(g, disk, blockPtr.value, index % pointersPerBlock); }
      }
    }

    /** The block of data index `requestedBlockIndex`. A missing direct block is added on request; on a full disk the
        answer is then 0. It panics exactly for indexes out of range and when a missing block beyond the direct ones
        is to be added. */
    method GetBlockAddr(name: nat, requestedBlockIndex: nat, allocateMissingBlock: bool)
      returns (outcome: BlockOutcome, ghost place: Option<(nat, nat)>)
      requires Valid(g, Now()) && g.Valid() && name in files
      modifies this
      ensures |old(files)[name].direct| == 12
      ensures outcome.OutsideDisk? <==>
              requestedBlockIndex < g.IndexLimit()
              && Resolved(g, old(disk), old(files)[name], requestedBlockIndex).None?
      ensures outcome.Panic? <==>
              || requestedBlockIndex >= g.IndexLimit()
              || (allocateMissingBlock && requestedBlockIndex >= 12
                  && Resolved(g, old(disk), old(files)[name], requestedBlockIndex) == Some(0))
      ensures outcome.Found? && place.None? ==>
                && outcome.block == Resolved(g, old(disk), old(files)[name], requestedBlockIndex).value
                && (Resolvable(g, old(Now()), name, requestedBlockIndex) ==>
                      outcome.block == Held(g, old(Now()), name, DataSlot(g, requestedBlockIndex)))
      ensures place.None? ==> Now() == old(Now())
      ensures outcome.OutsideDisk? ==> place.None?
      ensures outcome.Panic? && place.Some? ==>
                && requestedBlockIndex >= 12 && BitmapsValid(g, old(Now()))
                && FirstFree(g, old(Now()), BlockKind, place.value.0, place.value.1)
                && FreeOf(old(groups)[place.value.0], BlockKind) > 0
                && Now() == Taken(g, old(Now()), BlockKind, place.value.0, place.value.1)
      ensures place.None? && outcome.Found? && allocateMissingBlock && requestedBlockIndex < 12 ==>
                Present(g, Now(), name, requestedBlockIndex) || freeBlocks == 0
      ensures outcome.Found? && place.Some? ==>
                && requestedBlockIndex < 12 && old(files)[name].direct[requestedBlockIndex] == 0
                && allocateMissingBlock && BitmapsValid(g, old(Now()))
                && FreeBit(g, old(Now()), place.value.0, place.value.1)
                && outcome.block == Number(g, BlockKind, place.value.0, place.value.1)
                && Now() == BlockAdded(g, old(Now()), name, requestedBlockIndex, place.value.0, place.value.1)
    {
      hide Valid, BitmapsValid, Geometry.IndexLimit, Number, Taken, FreeBit, At, BlockAdded, FirstFree, Skipped,
           Resolved, Resolvable, Flattened;
      ghost var s := Now();
      place := None;
      ValidGeometry(g, s);
      ValidBitmaps(g, s);
      TwelveResolve(g);
      if requestedBlockIndex >= g.IndexLimit() { return Panic, None; }
      var resolved := ResolvePointer(name, requestedBlockIndex);
      if resolved.None? { return OutsideDisk, None; }
      var blockPtr := resolved.value;
      if requestedBlockIndex < 12 { DirectResolved(g, s, name, requestedBlockIndex); }
      if allocateMissingBlock && blockPtr == 0 {
        var context := files[name];
        blockPtr, place := Allocate(BlockKind);
        if requestedBlockIndex >= 12 { return Panic, place; }
        files := files[name := context.(direct := context.direct[requestedBlockIndex := blockPtr])];
        if place.None? {
          BlocksExhausted(g, s);
          assert context.direct[requestedBlockIndex := 0] == context.direct;
          assert files == s.files;
        } else {
          FirstFreeIsFree(g, s, place.value.0, place.value.1);
          AddedIsTaken(g, s, name, requestedBlockIndex, place.value.0, place.value.1);
        }
      }
      outcome := Found(blockPtr);
    }

    /** Reads the record of an inode off the inode table of its group. */
    method GetInode(inodeNum: nat) returns (inode: Inode)
      requires g.Valid() && inodeNum > 0 && InodePlace(g, inodeNum).0 < |groups|
      requires RecordAddress(g, Now(), InodePlace(g, inodeNum).0, InodePlace(g, inodeNum).1) + INODE_RECORD <= |disk|
      ensures var a := RecordAddress(g, Now(), InodePlace(g, inodeNum).0, InodePlace(g, inodeNum).1);
              && inode == InodeOf(disk[a..a + INODE_RECORD])
              && a == groups[(inodeNum - 1) / g.inodesPerGroup].inodeTable * g.blockSize
                      + (inodeNum - 1) % g.inodesPerGroup * g.inodeSize
    {
      var blockGroupIndex := (inodeNum - 1) / g.inodesPerGroup;
      var inodeIndex := (inodeNum - 1) % g.inodesPerGroup;
      var diskAddr := g.Address(groups[blockGroupIndex].inodeTable, inodeIndex * g.inodeSize);
      inode := InodeOf(disk[diskAddr..diskAddr + INODE_RECORD]);
    }

    /** DiskOperation for writes: block by block, adding missing direct blocks. */
    method WriteOperation(name: nat, buffer: seq<byte>, position: nat, ghost end: nat, ghost spare: nat)
      requires Valid(g, Now()) && g.Valid() && name in files && Affordable(g, Now(), name, position, end, spare)
      requires position + |buffer| <= end
      modifies this
      ensures Progress(g, old(Now()), Now(), name, position, buffer, |buffer|) && MetadataKept(g, old(Now()), Now())
      ensures name in files && Affordable(g, Now(), name, position + |buffer|, end, spare)
    {
      hide Valid, Progress, Present, ByteAt, Geometry.IndexOf, Geometry.OffsetOf, Geometry.Address,
           Geometry.IndexLimit, Held, DataSlot, Missing, BlockAdded, FreeBit, Number, BitmapsValid, ChunkEffect,
           Resolved, Resolvable, MetadataKept;
      ghost var s0 := Now();
      NoProgressYet(g, s0, name, position, buffer);
      MetadataSame(g, s0, s0);
      var currentPos, completedCount := position, 0;
      while completedCount < |buffer|
        invariant 0 <= completedCount <= |buffer| && currentPos == position + completedCount
        invariant Progress(g, s0, Now(), name, position, buffer, completedCount) && MetadataKept(g, s0, Now())
        invariant name in files && Affordable(g, Now(), name, currentPos, end, spare)
      {
        var offsetInBlock := g.OffsetOf(currentPos);
        var ioSize := g.blockSize - offsetInBlock;
        if ioSize > |buffer| - completedCount { ioSize := |buffer| - completedCount; }
        var index := g.IndexOf(currentPos);
        ghost var s := Now();
        ProgressValid(g, s0, s, name, position, buffer, completedCount);
        ReadyForChunk(g, s, name, currentPos, end, spare);
        ReadyIsFound(g, s, name, index);
        var outcome, place := GetBlockAddr(name, index, true);
        ghost var m := Now();
        if place.Some? {
          ChunkBlockAdded(g, s0, s, m, name, position, buffer, completedCount, end, place.value.0, place.value.1,
                          spare);
          BlockAddedMetadata(g, s, m, name, index, place.value.0, place.value.1);
          MetadataKeptTwice(g, s0, s, m);
        }
        ChunkStored(g, s0, m, name, position, buffer, completedCount, ioSize, end, spare);
        ProgressValid(g, s0, m, name, position, buffer, completedCount);
        ChunkMetadata(g, s0, m, name, position, completedCount, buffer, ioSize);
        disk := Splice(disk, g.Address(outcome.block, offsetInBlock), buffer[completedCount..completedCount + ioSize]);
        completedCount, currentPos := completedCount + ioSize, currentPos + ioSize;
      }
    }

    /** DiskOperation for reads. */
    method ReadOperation(name: nat, count: nat, position: nat) returns (buffer: seq<byte>)
      requires Valid(g, Now()) && g.Valid() && name in files && position + count <= files[name].size
      modifies this
      ensures Now() == old(Now())
      ensures buffer == Contents(g, Now(), name)[position..position + count]
    {
      hide Valid, ByteAt, Geometry.IndexOf, Geometry.OffsetOf, Geometry.Address, Geometry.IndexLimit, Held, DataSlot,
           Block, Present, Resolved, Resolvable;
      ghost var contents := Contents(g, Now(), name);
      var currentPos, completedCount := position, 0;
      buffer := [];
      while completedCount < count
        invariant 0 <= completedCount <= count && currentPos == position + completedCount
        invariant Now() == old(Now()) && buffer == contents[position..currentPos]
      {
        var offsetInBlock := g.OffsetOf(currentPos);
        var ioSize := g.blockSize - offsetInBlock;
        if ioSize > count - completedCount { ioSize := count - completedCount; }
        PresentBelowSize(g, Now(), name, currentPos);
        PresentInRange(g, Now(), name, g.IndexOf(currentPos));
        ValidGeometry(g, Now());
        ReadyIsFound(g, Now(), name, g.IndexOf(currentPos));
        var outcome, place := GetBlockAddr(name, g.IndexOf(currentPos), false);
        ChunkRead(g, Now(), name, currentPos, ioSize);
        var addr := g.Address(outcome.block, offsetInBlock);
        assert contents[position..currentPos] + contents[currentPos..currentPos + ioSize] ==
               contents[position..currentPos + ioSize];
        buffer := buffer + disk[addr..addr + ioSize];
        completedCount, currentPos := completedCount + ioSize, currentPos + ioSize;
      }
    }

    /** Reads at most `count` bytes from `readPos`. It overruns the file exactly for the positions and counts that
        ClampExact names; DiskOperation is then asked for more bytes than the file has from there. */
    method Read(name: nat, count: nat, readPos: nat) returns (outcome: ReadOutcome)
      requires Valid(g, Now()) && g.Valid() && name in files && files[name].size < 0x1_0000_0000
      requires readPos < WORD && count < WORD
      modifies this
      ensures Now() == old(Now())
      ensures outcome.Bytes? <==> readPos <= files[name].size && readPos + count < WORD
      ensures outcome.Bytes? ==>
                var end := if readPos + count <= files[name].size then readPos + count else files[name].size;
                outcome.data == Contents(g, Now(), name)[readPos..end]
      ensures outcome.Overrun? ==>
                outcome.count == ClampedCount(files[name].size, readPos, count)
                && readPos + outcome.count > files[name].size
    {
      ClampExact(files[name].size, readPos, count);
      var clamped := ClampedCount(files[name].size, readPos, count);
      if readPos + clamped > files[name].size { return Overrun(clamped); }
      var buffer := ReadOperation(name, clamped, readPos);
      outcome := Bytes(buffer);
    }

    /** The write refines a splice of one byte sequence; every other file keeps its bytes and the store stays
        well-formed. The disk must be able to take the bytes up to `end`, of which this write uses its share. */
    method Write(name: nat, buffer: seq<byte>, writePos: nat, ghost end: nat, ghost spare: nat)
      returns (wroteCount: nat)
      requires Valid(g, Now()) && g.Valid() && name in files && Affordable(g, Now(), name, writePos, end, spare)
      requires writePos + |buffer| <= end
      requires writePos <= files[name].size && end < 0x1_0000_0000
      modifies this
      ensures wroteCount == |buffer|
      ensures Valid(g, Now()) && files.Keys == old(files).Keys
      ensures Affordable(g, Now(), name, writePos + |buffer|, end, spare)
      ensures Contents(g, Now(), name) == Spliced(old(Contents(g, Now(), name)), writePos, buffer)
      ensures forall other :: other in files && other != name ==>
                Contents(g, Now(), other) == old(Contents(g, Now(), other))
      ensures Wrote(g, old(Now()), Now(), name, writePos, buffer)
    {
      hide Valid, ByteAt, Geometry.IndexOf, Geometry.OffsetOf, Geometry.Address, Held, Present, Affordable, Progress,
           Spliced, MetadataKept;
      ghost var s0 := Now();
      WriteOperation(name, buffer, writePos, end, spare);
      wroteCount := |buffer|;
      ghost var s := Now();
      ProgressValid(g, s0, s, name, writePos, buffer, |buffer|);
      WriteFinished(g, s0, s, name, writePos, buffer);
      ProgressInodes(g, s0, s, name, writePos, buffer);
      var newSize := writePos + wroteCount;
      if files[name].size < newSize {
        files := files[name := files[name].(size := newSize)];
      }
      assert Now() == WriteResult(s, name, newSize);
      MetadataSame(g, s, Now());
      MetadataKeptTwice(g, s0, s, Now());
    }

    /** Only the size is reset: the blocks stay with the inode. */
    method Truncate(name: nat)
      requires Valid(g, Now()) && g.Valid() && name in files
      modifies this
      ensures Valid(g, Now()) && files.Keys == old(files).Keys && Contents(g, Now(), name) == []
      ensures forall other :: other in files && other != name ==>
                Contents(g, Now(), other) == old(Contents(g, Now(), other))
      ensures Now() == old(Now()).(files := old(files)[name := old(files)[name].(size := 0)])
      ensures MetadataKept(g, old(Now()), Now())
    {
      hide Valid, ByteAt, Held, Present;
      ghost var s := Now();
      ResizedValid(g, s, name, 0);
      ResizedSame(g, s, name, 0);
      files := files[name := files[name].(size := 0)];
      assert Now() == Resized(s, name, 0);
      MetadataSame(g, s, Now());
      forall other | other in files && other != name
        ensures Contents(g, Now(), other) == Contents(g, s, other)
      {
        ContentsByBytes(g, Now(), other, Contents(g, s, other));
      }
    }
  }

  /** The bytes of one chunk on disk are the bytes of the file. */
  lemma ChunkRead(g: Geometry, s: Store, name: nat, from: nat, count: nat)
    requires Valid(g, s) && g.Valid() && name in s.files && from + count <= s.files[name].size && 0 < count
    requires g.OffsetOf(from) + count <= g.blockSize && g.IndexOf(from) < g.IndexLimit()
    ensures var addr := g.Address(Held(g, s, name, DataSlot(g, g.IndexOf(from))), g.OffsetOf(from));
            addr + count <= |s.disk| && s.disk[addr..addr + count] == Contents(g, s, name)[from..from + count]
  {
    hide Valid, Geometry.IndexOf, Geometry.OffsetOf, Geometry.IndexLimit, Held, DataSlot, Block, Within;
    PresentBelowSize(g, s, name, from);
    var index, offset := g.IndexOf(from), g.OffsetOf(from);
    var b := Held(g, s, name, DataSlot(g, index));
    HeldExists(g, s, name, DataSlot(g, index));
    AddressInBlock(s.disk, g.blockSize, b, offset, count);
    var addr := g.Address(b, offset);
    var slice := s.disk[addr..addr + count];
    var block := Block(s.disk, g.blockSize, b);
    forall j: nat | j < count
      ensures slice[j] == Contents(g, s, name)[from + j]
    {
      ChunkCovers(g, from, count, from + j);
      CoveredOffset(g, from, count, from + j);
      assert block[offset..offset + count][j] == block[offset + j];
    }
  }

  lemma ProgressValid(g: Geometry, s0: Store, s: Store, name: nat, at: nat, data: seq<byte>, done: nat)
    requires Progress(g, s0, s, name, at, data, done)
    ensures Valid(g, s) && g.Valid() && name in s.files
  {
    hide Valid;
  }

  lemma ProgressInodes(g: Geometry, s0: Store, s: Store, name: nat, at: nat, data: seq<byte>)
    requires Progress(g, s0, s, name, at, data, |data|)
    ensures forall other :: other in s0.files && other != name ==> other in s.files && s.files[other] == s0.files[other]
  {
    hide Valid, PresenceKept, OthersKept, BytesWritten;
  }

  lemma ChunkMetadata(g: Geometry, s0: Store, m: Store, name: nat, at: nat, done: nat, data: seq<byte>, count: nat)
    requires MetadataKept(g, s0, m) && Valid(g, m) && g.Valid() && Present(g, m, name, g.IndexOf(at + done))
    requires done + count <= |data| && g.OffsetOf(at + done) + count <= g.blockSize
    ensures var addr := g.Address(Held(g, m, name, DataSlot(g, g.IndexOf(at + done))), g.OffsetOf(at + done));
            addr + count <= |m.disk| && MetadataKept(g, s0, DiskWritten(m, addr, data[done..done + count]))
  {
    hide Valid, Held, DataSlot, MetadataKept, Geometry.IndexOf, Geometry.OffsetOf, Geometry.Address,
         Geometry.IndexLimit;
    var b := DataSlot(g, g.IndexOf(at + done));
    var chunk := data[done..done + count];
    DataWriteMetadata(g, m, name, b, g.OffsetOf(at + done), chunk);
    MetadataKeptTwice(g, s0, m, DiskWritten(m, g.Address(Held(g, m, name, b), g.OffsetOf(at + done)), chunk));
  }

  lemma DigitAt(bytes: seq<byte>, i: nat)
    requires i < 8 * |bytes|
    ensures BitAt(bytes, i, false) <==> bytes[i / 8] / Pow2(i % 8) % 2 == 1
  {
    BitsAreDigits(bytes, false, i);
  }

  /** The number says where the bit is, and on the disk the bit was clear and is set. */
  lemma TakenPlace(g: Geometry, s: Store, kind: Kind, n: nat, i: nat)
    requires BitmapsValid(g, s) && n < |s.groups| && i < g.blocksPerGroup && FreeOf(s.groups[n], kind) > 0
    requires g.Valid() && Within(s.disk, g.blockSize, BitmapOf(s.groups[n], kind))
    requires !Bits(g, s.disk, BitmapOf(s.groups[n], kind))[i]
    ensures var number, bitmap := Number(g, kind, n, i), BitmapOf(s.groups[n], kind);
            && number == GroupBase(g, kind, n) + i + (if kind.InodeKind? then 1 else 0)
            && (kind.BlockKind? ==> number / g.blocksPerGroup == n && number % g.blocksPerGroup == i)
            && (kind.InodeKind? ==> number == n * g.inodesPerGroup + i + 1)
            && !UsedOnDisk(g, s.disk, bitmap, i) && UsedOnDisk(g, Taken(g, s, kind, n, i).disk, bitmap, i)
  {
    hide Bits, Clear, Total, BitmapsValid, Taken, Within, UsedOnDisk;
    var bitmap := BitmapOf(s.groups[n], kind);
    if kind.BlockKind? { BlockPlace(g, n, i); }
    BitsOnDisk(g, s.disk, bitmap, i);
    TakenDisk(g, s, kind, n, i, bitmap);
    BitsOnDisk(g, Taken(g, s, kind, n, i).disk, bitmap, i);
  }

  lemma FirstFreeIsFree(g: Geometry, s: Store, n: nat, i: nat)
    requires BitmapsValid(g, s) && FirstFree(g, s, BlockKind, n, i)
    ensures FreeBit(g, s, n, i)
  {
    hide BitmapsValid;
  }

  lemma AddedIsTaken(g: Geometry, s: Store, name: nat, index: nat, n: nat, i: nat)
    requires BitmapsValid(g, s) && FreeBit(g, s, n, i) && name in s.files && index < |s.files[name].direct|
    requires FreeOf(s.groups[n], BlockKind) > 0
    ensures Taken(g, s, BlockKind, n, i).files == s.files
    ensures var f := s.files[name];
            var f' := f.(direct := f.direct[index := Number(g, BlockKind, n, i)]);
            BlockAdded(g, s, name, index, n, i) == Taken(g, s, BlockKind, n, i).(files := s.files[name := f'])
  {
  }

  /** What the code reads as pointer `k` of a block: four bytes at their disk address, whether that block is a
      pointer block or not; None beyond the end of the disk. */
  function RawPointer(g: Geometry, disk: Disk, block: nat, k: nat): Option<nat> {
    if g.Address(block, 4 * k) + 4 <= |disk| then Some(U32(disk, g.Address(block, 4 * k))) else None
  }

  /** GetBlockAddr's chain of reads. An absent pointer block has number 0, and then block 0 is read. */
  function Resolved(g: Geometry, disk: Disk, f: Inode, index: nat): Option<nat>
    requires |f.direct| == 12
  {
    var p := g.PointersPerBlock();
    if index < 12 then Some(f.direct[index])
    else if index < 12 + p then RawPointer(g, disk, f.single, index - 12)
    else if p == 0 then None
    else
      match RawPointer(g, disk, f.double, (index - (12 + p)) / p)
      case None => None
      case Some(node) => RawPointer(g, disk, node, (index - (12 + p)) % p)
  }

  /** Reading a pointer of an existing block reads that pointer: the access stays inside the block. */
  lemma PointerRead(g: Geometry, disk: Disk, block: nat, k: nat)
    requires g.Valid() && k < g.PointersPerBlock() && Within(disk, g.blockSize, block)
    ensures 4 * k + 4 <= g.blockSize
    ensures RawPointer(g, disk, block, k) == Some(U32(Block(disk, g.blockSize, block), 4 * k))
    ensures block != 0 ==> RawPointer(g, disk, block, k) == Some(Pointer(g, disk, block, k))
  {
    AddressInBlock(disk, g.blockSize, block, 4 * k, 4);
    var addr := g.Address(block, 4 * k);
    var slice := disk[addr..addr + 4];
    assert slice == Block(disk, g.blockSize, block)[4 * k..4 * k + 4];
    assert slice[0] == disk[addr] && slice[1] == disk[addr + 1] && slice[2] == disk[addr + 2]
           && slice[3] == disk[addr + 3];
  }

  /** The pointer block that holds the slot of a data block exists. */
  ghost predicate Resolvable(g: Geometry, s: Store, name: nat, index: nat)
    requires g.Valid() && index < g.IndexLimit()
  {
    match DataSlot(g, index)
    case Direct(_) => true
    case Single(_) => Held(g, s, name, SingleRoot) != 0
    case Leaf(j, _) => Held(g, s, name, DoubleRoot) != 0 && Held(g, s, name, DoubleNode(j)) != 0
  }

  /** Present blocks are resolvable, and so are all direct ones. */
  lemma PresentResolvable(g: Geometry, s: Store, name: nat, index: nat)
    requires g.Valid() && index < g.IndexLimit() && (index < 12 || Present(g, s, name, index))
    ensures Resolvable(g, s, name, index)
  {
  }

  /** GetBlockAddr finds every direct block and every present one. */
  lemma ReadyIsFound(g: Geometry, s: Store, name: nat, index: nat)
    requires Valid(g, s) && g.Valid() && index < g.IndexLimit() && name in s.files && |s.files[name].direct| == 12
    requires index < 12 || Present(g, s, name, index)
    ensures Resolvable(g, s, name, index)
    ensures Resolved(g, s.disk, s.files[name], index) == Some(Held(g, s, name, DataSlot(g, index)))
    ensures index >= 12 ==> Held(g, s, name, DataSlot(g, index)) != 0
  {
    hide Valid, Geometry.IndexLimit, Resolved, Flattened;
    PresentResolvable(g, s, name, index);
    ResolvedFlattened(g, s, name, index);
  }

  lemma PointerBlocksExist(g: Geometry, s: Store, name: nat, index: nat)
    requires Valid(g, s) && g.Valid() && index < g.IndexLimit() && name in s.files && |s.files[name].direct| == 12
    requires Resolvable(g, s, name, index)
    ensures 12 <= index < 12 + g.PointersPerBlock() ==>
              s.files[name].single != 0 && Within(s.disk, g.blockSize, s.files[name].single)
    ensures 12 + g.PointersPerBlock() <= index ==>
              var double, j := s.files[name].double, (index - (12 + g.PointersPerBlock())) / g.PointersPerBlock();
              && double != 0 && Within(s.disk, g.blockSize, double)
              && j < g.PointersPerBlock() && Pointer(g, s.disk, double, j) != 0
              && Within(s.disk, g.blockSize, Pointer(g, s.disk, double, j))
  {
    hide Pointer, BitmapsValid, FreeValid, NoSharing, SizesValid, TablesValid;
    if 12 <= index < 12 + g.PointersPerBlock() {
      HeldIsWithin(g, s, name, SingleRoot);
    } else if 12 + g.PointersPerBlock() <= index {
      InDoubleRange(g, index);
      HeldIsWithin(g, s, name, DoubleRoot);
      HeldIsWithin(g, s, name, DoubleNode((index - (12 + g.PointersPerBlock())) / g.PointersPerBlock()));
    }
  }

  /** Where the pointer blocks exist, the chain of reads ends in the slot of the index, which is the flattened entry. */
  lemma ResolvedFlattened(g: Geometry, s: Store, name: nat, index: nat)
    requires Valid(g, s) && g.Valid() && index < g.IndexLimit() && name in s.files && |s.files[name].direct| == 12
    ensures Resolvable(g, s, name, index) ==>
              && Resolved(g, s.disk, s.files[name], index) == Some(Held(g, s, name, DataSlot(g, index)))
              && index < |Flattened(g, s.disk, s.files[name])|
              && Resolved(g, s.disk, s.files[name], index) == Some(Flattened(g, s.disk, s.files[name])[index])
  {
    hide Valid, Geometry.IndexLimit, Pointer, Block, Flattened, Resolvable, RawPointer;
    if Resolvable(g, s, name, index) {
      SlotIsFlattened(g, s.disk, s.files[name], index);
      PointerBlocksExist(g, s, name, index);
      var f, p := s.files[name], g.PointersPerBlock();
      if 12 <= index < 12 + p {
        PointerRead(g, s.disk, f.single, index - 12);
      } else if 12 + p <= index {
        InDoubleRange(g, index);
        var j, k := (index - (12 + p)) / p, (index - (12 + p)) % p;
        PointerRead(g, s.disk, f.double, j);
        PointerRead(g, s.disk, Pointer(g, s.disk, f.double, j), k);
      }
    }
  }

  /** Word `k` of block 0, where the code looks when a pointer block is absent. */
  ghost function BootWord(g: Geometry, disk: Disk, k: nat): nat {
    if Within(disk, g.blockSize, 0) && 4 * k + 4 <= g.blockSize then U32(Block(disk, g.blockSize, 0), 4 * k) else 0
  }

  /** The two steps through the doubly indirect block to a data index. */
  function NodeIndex(g: Geometry, index: nat): nat {
    var p := g.PointersPerBlock();
    if p == 0 || index < 12 + p then 0 else (index - (12 + p)) / p
  }

  function LeafIndex(g: Geometry, index: nat): nat {
    var p := g.PointersPerBlock();
    if p == 0 || index < 12 + p then 0 else (index - (12 + p)) % p
  }

  /** Without its pointer block a data block is absent: its flattened entry is 0. Whether the code agrees is up to
      what happens to stand on the disk. It reads a word of block 0 instead; when the doubly indirect block is
      absent, it takes that word for the number of a block and reads a word there. It agrees exactly when the last
      word read is 0. */
  lemma ResolvedExact(g: Geometry, s: Store, name: nat, index: nat)
    requires Valid(g, s) && g.Valid() && index < g.IndexLimit() && name in s.files && |s.files[name].direct| == 12
    requires Within(s.disk, g.blockSize, 0) && !Resolvable(g, s, name, index)
    ensures index >= 12 && index < |Flattened(g, s.disk, s.files[name])|
    ensures Flattened(g, s.disk, s.files[name])[index] == 0
    ensures var f, p := s.files[name], g.PointersPerBlock();
            var agrees := Resolved(g, s.disk, f, index) == Some(Flattened(g, s.disk, f)[index]);
            var j, k := NodeIndex(g, index), LeafIndex(g, index);
            && (index < 12 + p ==> (agrees <==> BootWord(g, s.disk, index - 12) == 0))
            && (index >= 12 + p && f.double != 0 ==> (agrees <==> BootWord(g, s.disk, k) == 0))
            && (index >= 12 + p && f.double == 0 ==>
                  var word := g.Address(BootWord(g, s.disk, j), 4 * k);
                  (agrees <==> word + 4 <= |s.disk| && U32(s.disk, word) == 0))
    ensures index < 12 + g.PointersPerBlock() ==>
              Resolved(g, s.disk, s.files[name], index) == Some(BootWord(g, s.disk, index - 12))
  {
    hide Valid, Geometry.IndexLimit, Block, Flattened;
    SlotIsFlattened(g, s.disk, s.files[name], index);
    var f, p := s.files[name], g.PointersPerBlock();
    if index < 12 + p {
      PointerRead(g, s.disk, 0, index - 12);
    } else {
      InDoubleRange(g, index);
      var j, k := (index - (12 + p)) / p, (index - (12 + p)) % p;
      PointerRead(g, s.disk, 0, j);
      PointerRead(g, s.disk, 0, k);
      if f.double != 0 {
        HeldIsWithin(g, s, name, DoubleRoot);
        PointerRead(g, s.disk, f.double, j);
      }
    }
  }

  lemma HeldIsWithin(g: Geometry, s: Store, name: nat, slot: Slot)
    requires Valid(g, s) && Held(g, s, name, slot) != 0
    ensures Within(s.disk, g.blockSize, Held(g, s, name, slot))
  {
    hide Held, FreeValid, NoSharing, SizesValid, FreeBit, Number, TablesValid;
  }

  lemma DirectResolved(g: Geometry, s: Store, name: nat, index: nat)
    requires g.Valid() && name in s.files && |s.files[name].direct| == 12 && index < 12
    ensures index < g.IndexLimit() && Resolved(g, s.disk, s.files[name], index) == Some(s.files[name].direct[index])
    ensures Held(g, s, name, DataSlot(g, index)) == s.files[name].direct[index] && Resolvable(g, s, name, index)
  {
    DirectSlot(g, s, name, index);
  }

  lemma DirectSlot(g: Geometry, s: Store, name: nat, index: nat)
    requires g.Valid() && name in s.files && |s.files[name].direct| == 12 && index < 12
    ensures index < g.IndexLimit() && Held(g, s, name, DataSlot(g, index)) == s.files[name].direct[index]
  {
    TwelveResolve(g);
  }

  lemma InDoubleRange(g: Geometry, index: nat)
    requires g.Valid() && 12 + g.PointersPerBlock() <= index < g.IndexLimit()
    ensures (index - (12 + g.PointersPerBlock())) / g.PointersPerBlock() < g.PointersPerBlock()
  {
    DoubleIndexInRange(g.PointersPerBlock(), index - 12 - g.PointersPerBlock());
  }

  /** The bytes Allocate reads are the bitmap. */
  lemma BitmapBytes(g: Geometry, disk: Disk, bitmap: nat)
    requires g.Valid() && Within(disk, g.blockSize, bitmap)
    ensures var size := g.blocksPerGroup / 8;
            && g.Address(bitmap, 0) + size <= |disk|
            && (var bytes := disk[g.Address(bitmap, 0)..g.Address(bitmap, 0) + size];
                && |bytes| * 8 == g.blocksPerGroup
                && forall i: nat :: i < g.blocksPerGroup ==> (BitAt(bytes, i, false) <==> Bits(g, disk, bitmap)[i]))
  {
    AddressInBlock(disk, g.blockSize, bitmap, 0, g.blocksPerGroup / 8);
  }

  lemma TakenSpelled(g: Geometry, s: Store, kind: Kind, n: nat, i: nat)
    requires g.Valid() && n < |s.groups| && i < g.blocksPerGroup && FreeOf(s.groups[n], kind) > 0
    requires Within(s.disk, g.blockSize, BitmapOf(s.groups[n], kind))
    ensures var addr, size, group := g.Address(BitmapOf(s.groups[n], kind), 0), g.blocksPerGroup / 8, s.groups[n];
            && addr + size <= |s.disk| && i / 8 < size
            && (var disk := Splice(s.disk, addr, WithBit(s.disk[addr..addr + size], i, false, true));
                Taken(g, s, kind, n, i) ==
                if kind.InodeKind? then
                  Store(disk, s.groups[n := group.(freeInodes := group.freeInodes - 1)], s.freeBlocks,
                        if s.freeInodes == 0 then 0 else s.freeInodes - 1, s.files)
                else
                  Store(disk, s.groups[n := group.(freeBlocks := group.freeBlocks - 1)],
                        if s.freeBlocks == 0 then 0 else s.freeBlocks - 1, s.freeInodes, s.files))
  {
    AddressInBlock(s.disk, g.blockSize, BitmapOf(s.groups[n], kind), 0, g.blocksPerGroup / 8);
  }

  lemma BitmapThere(g: Geometry, s: Store, n: nat, kind: Kind)
    requires BitmapsValid(g, s) && n < |s.groups|
    ensures g.Valid() && Within(s.disk, g.blockSize, BitmapOf(s.groups[n], kind))
  {
    hide Bits, Clear, Total;
  }
}

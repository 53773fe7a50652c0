/** The vnode cache (kernel/src/VFS.cpp) and what adding an inode does to a file store (Ext2::Create in
    kernel/src/Ext2.cpp). */
module Ext2Directories {
  import opened Common
  import opened Words
  import opened DiskBlocks
  import opened Ext2Layout
  import opened Ext2Alloc
  import opened Ext2Files
  import opened Ext2Writes
  import opened Directories
  import opened Ext2

  // ---- The vnode cache ----

  /** SearchInCache, and ConstructVnode when it finds nothing. */
  function Cached(cache: seq<nat>, inode: nat): (r: seq<nat>)
    ensures inode in r && cache <= r
    ensures Distinct(cache) ==> Distinct(r)
  {
    if inode in cache then cache else cache + [inode]
  }

  /** The entries FindInDirectory looks at: up to and including the first match. */
  ghost function Visited(entries: seq<Entry>, name: seq<byte>): seq<Entry> {
    if entries == [] then []
    else if entries[0].name == name then [entries[0]]
    else [entries[0]] + Visited(entries[1..], name)
  }

  ghost function CachedAll(cache: seq<nat>, entries: seq<Entry>): seq<nat>
    decreases |entries|
  {
    if entries == [] then cache else CachedAll(Cached(cache, entries[0].inode), entries[1..])
  }

  lemma {:induction false} CachedAllKeeps(cache: seq<nat>, entries: seq<Entry>)
    requires Distinct(cache)
    ensures Distinct(CachedAll(cache, entries)) && cache <= CachedAll(cache, entries)
    decreases |entries|
  {
    if entries != [] { CachedAllKeeps(Cached(cache, entries[0].inode), entries[1..]); }
  }

  // ---- Fresh inodes ----

  /** Bit `i` of group `n` of the inode bitmaps is clear. */
  ghost predicate InodeFree(g: Geometry, s: Store, n: nat, i: nat)
    requires BitmapsValid(g, s)
  {
    n < |s.groups| && i < g.blocksPerGroup && !Bits(g, s.disk, BitmapOf(s.groups[n], InodeKind))[i]
  }

  /** The inode's bit is set in its group's inode bitmap. */
  ghost predicate Marked(g: Geometry, s: Store, inode: nat)
    requires BitmapsValid(g, s)
  {
    && inode > 0 && InodePlace(g, inode).0 < |s.groups| && InodePlace(g, inode).1 < g.blocksPerGroup
    && !InodeFree(g, s, InodePlace(g, inode).0, InodePlace(g, inode).1)
  }

  /** Known inodes are marked, and the bits past the last inode of a group are padding that is set. */
  ghost predicate InodesMarked(g: Geometry, s: Store)
    requires BitmapsValid(g, s)
  {
    && (forall inode :: inode in s.files ==> Marked(g, s, inode))
    && forall n: nat, i: nat :: InodeFree(g, s, n, i) ==> i < g.inodesPerGroup
  }

  /** A newly allocated inode number belongs to no known inode. */
  lemma FreshInode(g: Geometry, s: Store, n: nat, i: nat)
    requires BitmapsValid(g, s) && InodesMarked(g, s) && InodeFree(g, s, n, i)
    ensures Number(g, InodeKind, n, i) !in s.files && InodePlace(g, Number(g, InodeKind, n, i)) == (n, i)
  {
    hide Bits, Clear, Total;
    InodePlaceExact(g, n, i);
  }

  const EMPTY_INODE: Inode := Inode(0, [0, 0, 0, 0, 0, 0, 0, 0, 0, 0, 0, 0], 0, 0)

  /** The store after an inode was allocated and its empty file came into being. */
  ghost function FileAdded(g: Geometry, s: Store, n: nat, i: nat): Store
    requires BitmapsValid(g, s) && InodeFree(g, s, n, i)
  {
    TakenKeepsBitmaps(g, s, InodeKind, n, i);
    Taken(g, s, InodeKind, n, i).(files := s.files[Number(g, InodeKind, n, i) := EMPTY_INODE])
  }

  lemma FileAddedBitmaps(g: Geometry, s: Store, s': Store, n: nat, i: nat)
    requires BitmapsValid(g, s) && InodeFree(g, s, n, i)
    requires s' == FileAdded(g, s, n, i)
    ensures BitmapsValid(g, s') && |s'.disk| == |s.disk| && |s'.groups| == |s.groups| && s'.freeBlocks == s.freeBlocks
    ensures forall m, kind :: 0 <= m < |s.groups| ==> BitmapOf(s'.groups[m], kind) == BitmapOf(s.groups[m], kind)
    ensures forall block :: NoBitmap(s', block) <==> NoBitmap(s, block)
    ensures forall m :: 0 <= m < |s.groups| ==> s'.groups[m].inodeTable == s.groups[m].inodeTable
    ensures forall block :: InTable(g, s', block) <==> InTable(g, s, block)
  {
    hide Bits, Clear, Total, Block, Within;
    TakenKeepsBitmaps(g, s, InodeKind, n, i);
    assert forall m :: 0 <= m < |s.groups| ==> FileAdded(g, s, n, i).groups[m].inodeTable == s.groups[m].inodeTable;
    BitmapThere(g, s, n, InodeKind);
    TakenDisk(g, s, InodeKind, n, i, BitmapOf(s.groups[n], InodeKind));
    assert BitmapsValid(g, Taken(g, s, InodeKind, n, i));
  }

  lemma FileAddedBits(g: Geometry, s: Store, s': Store, n: nat, i: nat, m: nat, kind: Kind, j: nat)
    requires BitmapsValid(g, s) && InodeFree(g, s, n, i) && m < |s.groups| && j < g.blocksPerGroup
    requires s' == FileAdded(g, s, n, i) && BitmapsValid(g, s')
    ensures |s'.groups| == |s.groups| && BitmapOf(s'.groups[m], kind) == BitmapOf(s.groups[m], kind)
    ensures Bits(g, s'.disk, BitmapOf(s'.groups[m], kind))[j] <==>
            Bits(g, s.disk, BitmapOf(s.groups[m], kind))[j] || (m == n && kind == InodeKind && j == i)
  {
    hide Bits, Clear, Total, Block, Within;
    AllocationIsFresh(g, s, InodeKind, n, i, m, kind, j);
  }

  lemma FileAddedBlock(g: Geometry, s: Store, s': Store, n: nat, i: nat, block: nat)
    requires BitmapsValid(g, s) && InodeFree(g, s, n, i)
    requires s' == FileAdded(g, s, n, i)
    requires Within(s.disk, g.blockSize, block) && NoBitmap(s, block)
    ensures SameBlock(g, s.disk, s'.disk, block)
  {
    hide Bits, Clear, Total, Block, Within;
    assert BitmapOf(s.groups[n], InodeKind) != block;
    TakenKeepsBitmaps(g, s, InodeKind, n, i);
    BitmapThere(g, s, n, InodeKind);
    TakenDisk(g, s, InodeKind, n, i, block);
  }

  lemma FileAddedHeld(g: Geometry, s: Store, s': Store, n: nat, i: nat, name: nat, slot: Slot)
    requires Valid(g, s) && BitmapsValid(g, s) && InodeFree(g, s, n, i)
    requires s' == FileAdded(g, s, n, i) && Number(g, InodeKind, n, i) !in s.files
    ensures Held(g, s', name, slot) == Held(g, s, name, slot)
  {
    hide Valid, BitmapsValid, Bits, FileAdded, Number, Pointer, SameBlock, Within, NoBitmap;
    ValidBitmaps(g, s);
    FileAddedFiles(g, s, n, i);
    if name in s.files && |s.files[name].direct| == 12 && ValidSlot(g, slot) {
      forall p: Slot | ValidSlot(g, p) && PointerSlot(p) && At(g, s.disk, s.files[name], p) != 0
        ensures SameBlock(g, s.disk, s'.disk, At(g, s.disk, s.files[name], p))
      {
        assert At(g, s.disk, s.files[name], p) == Held(g, s, name, p);
        HeldExists(g, s, name, p);
        FileAddedBlock(g, s, s', n, i, Held(g, s, name, p));
      }
      AtFrame(g, s.disk, s'.disk, s.files[name], slot);
    } else if name == Number(g, InodeKind, n, i) {
      EmptyHoldsNothing(g, s', name, slot);
    }
  }

  lemma FileAddedFiles(g: Geometry, s: Store, n: nat, i: nat)
    requires BitmapsValid(g, s) && InodeFree(g, s, n, i)
    ensures FileAdded(g, s, n, i).files == s.files[Number(g, InodeKind, n, i) := EMPTY_INODE]
  {
  }

  lemma EmptyHoldsNothing(g: Geometry, s: Store, name: nat, slot: Slot)
    requires name in s.files && s.files[name] == EMPTY_INODE
    ensures Held(g, s, name, slot) == 0
  {
  }

  lemma SameWithin(disk: Disk, disk': Disk, blockSize: nat)
    requires |disk| == |disk'|
    ensures forall block :: Within(disk, blockSize, block) == Within(disk', blockSize, block)
  {
  }

  /** Creating a file keeps the store well-formed and changes no contents; the new file is empty. */
  lemma FileAddedValid(g: Geometry, s: Store, s': Store, n: nat, i: nat)
    requires Valid(g, s) && BitmapsValid(g, s) && InodeFree(g, s, n, i)
    requires s' == FileAdded(g, s, n, i) && Number(g, InodeKind, n, i) !in s.files
    ensures Valid(g, s') && g.Valid()
    ensures forall name, index :: Present(g, s', name, index) == Present(g, s, name, index)
    ensures forall name, k :: Present(g, s, name, g.IndexOf(k)) ==> ByteAt(g, s', name, k) == ByteAt(g, s, name, k)
  {
    hide Bits, FileAdded, Number, Held, FreeBit, NoBitmap, InTable, Block, Within, DataSlot, Geometry.IndexOf,
         Geometry.OffsetOf, Geometry.Address, BitmapsValid, Clear, Total;
    ValidGeometry(g, s);
    FileAddedFiles(g, s, n, i);
    FileAddedBitmaps(g, s, s', n, i);
    forall name, slot
      ensures Held(g, s', name, slot) == Held(g, s, name, slot)
    {
      FileAddedHeld(g, s, s', n, i, name, slot);
    }
    forall n', i'
      ensures FreeBit(g, s', n', i') == FreeBit(g, s, n', i')
    {
      FileAddedFreeBit(g, s, s', n, i, n', i');
    }
    SameWithin(s.disk, s'.disk, g.blockSize);
    assert TablesValid(g, s');
    assert FreeValid(g, s');
    assert HeldValid(g, s');
    assert NoSharing(g, s');
    assert SizesValid(g, s');
    forall name, k | Present(g, s, name, g.IndexOf(k))
      ensures ByteAt(g, s', name, k) == ByteAt(g, s, name, k)
    {
      HeldExists(g, s, name, DataSlot(g, g.IndexOf(k)));
      FileAddedBlock(g, s, s', n, i, Held(g, s, name, DataSlot(g, g.IndexOf(k))));
    }
  }

  lemma FileAddedFreeBit(g: Geometry, s: Store, s': Store, n: nat, i: nat, n': nat, i': nat)
    requires BitmapsValid(g, s) && InodeFree(g, s, n, i)
    requires s' == FileAdded(g, s, n, i) && BitmapsValid(g, s')
    requires |s'.groups| == |s.groups|
    ensures FreeBit(g, s', n', i') == FreeBit(g, s, n', i')
  {
    hide Bits, FileAdded, BitmapsValid;
    if n' < |s.groups| && i' < g.blocksPerGroup {
      FileAddedBits(g, s, s', n, i, n', BlockKind, i');
    }
  }

  /** Directory entry types. */
  const REGULAR_FILE: byte := 1
  const DIRECTORY: byte := 2

  lemma NumbersArePositive(g: Geometry)
    ensures forall n, i :: Number(g, InodeKind, n, i) > 0
  {
    hide GroupBase;
  }

  lemma FirstFreeInode(g: Geometry, s: Store, n: nat, i: nat)
    requires BitmapsValid(g, s) && FirstFree(g, s, InodeKind, n, i)
    ensures InodeFree(g, s, n, i)
  {
    hide Bits, BitmapsValid;
  }

  lemma FileAddedIsTaken(g: Geometry, s: Store, n: nat, i: nat)
    requires BitmapsValid(g, s) && InodeFree(g, s, n, i) && FreeOf(s.groups[n], InodeKind) > 0
    ensures Taken(g, s, InodeKind, n, i).files == s.files
    ensures FileAdded(g, s, n, i) ==
            Taken(g, s, InodeKind, n, i).(files := s.files[Number(g, InodeKind, n, i) := EMPTY_INODE])
  {
  }

  /** Inode numbers stay below the size of the inode table: 32 bits. */
  lemma NumberFits(g: Geometry, n: nat, i: nat, groups: nat)
    requires g.Valid() && n < groups && GroupBase(g, InodeKind, groups) < 0x1_0000_0000
    ensures InodePlace(g, Number(g, InodeKind, n, i)) == (n, i) ==> Number(g, InodeKind, n, i) < 0x1_0000_0000
  {
    InodePlaceExact(g, n, i);
    BlocksApart(g.inodesPerGroup, n, groups);
  }

  /** A file reads as before after an empty one was added. */
  lemma FileAddedContents(g: Geometry, s: Store, s': Store, n: nat, i: nat, name: nat)
    requires Valid(g, s) && g.Valid() && BitmapsValid(g, s) && InodeFree(g, s, n, i) && name in s.files
    requires s' == FileAdded(g, s, n, i)
    requires Number(g, InodeKind, n, i) !in s.files
    ensures name in s'.files && Contents(g, s', name) == Contents(g, s, name)
  {
    hide Valid, Bits, FileAdded, Number, Held, Present, ByteAt, Geometry.IndexOf, BitmapsValid;
    FileAddedValid(g, s, s', n, i);
    FileAddedFiles(g, s, n, i);
    forall k: nat | k < s.files[name].size
      ensures ByteAt(g, s', name, k) == ByteAt(g, s, name, k)
    {
      PresentBelowSize(g, s, name, k);
    }
    ContentsByBytes(g, s', name, Contents(g, s, name));
  }

  /** The directory can still be extended after an empty file was added. */
  lemma FileAddedAffordable(g: Geometry, s: Store, s': Store, n: nat, i: nat, directory: nat, end: nat, spare: nat)
    requires Valid(g, s) && g.Valid() && BitmapsValid(g, s) && InodeFree(g, s, n, i) && directory in s.files
    requires s' == FileAdded(g, s, n, i)
    requires Number(g, InodeKind, n, i) !in s.files && Affordable(g, s, directory, s.files[directory].size, end, spare)
    ensures Valid(g, s') && s'.files == s.files[Number(g, InodeKind, n, i) := EMPTY_INODE]
    ensures Affordable(g, s', directory, s.files[directory].size, end, spare)
  {
    hide Valid, Bits, FileAdded, Number, Held, Present, ByteAt, Geometry.IndexOf, BitmapsValid, Missing;
    FileAddedValid(g, s, s', n, i);
    FileAddedFiles(g, s, n, i);
    FileAddedBitmaps(g, s, s', n, i);
  }
}

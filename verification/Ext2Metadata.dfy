/** What file writes leave alone: the inode bitmaps and the inode tables; and the inode records GetInode reads there
    (kernel/src/Ext2.cpp:411-424). */
module Ext2Metadata {
  import opened Words
  import opened DiskBlocks
  import opened Ext2Layout
  import opened Ext2Alloc
  import opened Ext2Files
  import opened Ext2Writes
  import opened Directories

  // ---- Frames ----

  /** Group `n` keeps its inode bitmap and table and the number of its free inodes. */
  ghost predicate GroupKept(g: Geometry, s: Store, s': Store, n: nat)
    requires n < |s.groups| && n < |s'.groups|
  {
    && s'.groups[n].inodeTable == s.groups[n].inodeTable && s'.groups[n].inodeBitmap == s.groups[n].inodeBitmap
    && s'.groups[n].freeInodes == s.groups[n].freeInodes && SameBlock(g, s.disk, s'.disk, s.groups[n].inodeBitmap)
  }

  /** Inode bitmaps, inode tables and their counters are as they were. */
  ghost predicate MetadataKept(g: Geometry, s: Store, s': Store) {
    && |s'.disk| == |s.disk| && |s'.groups| == |s.groups| && s'.freeInodes == s.freeInodes
    && (forall n :: 0 <= n < |s.groups| ==> GroupKept(g, s, s', n))
    && (forall block :: InTable(g, s', block) <==> InTable(g, s, block))
    && forall block :: InTable(g, s, block) ==> SameBlock(g, s.disk, s'.disk, block)
  }

  lemma MetadataSame(g: Geometry, s: Store, s': Store)
    requires s'.disk == s.disk && s'.groups == s.groups && s'.freeInodes == s.freeInodes
    ensures MetadataKept(g, s, s')
  {
  }

  lemma MetadataKeptTwice(g: Geometry, s: Store, m: Store, s': Store)
    requires MetadataKept(g, s, m) && MetadataKept(g, m, s')
    ensures MetadataKept(g, s, s')
  {
    hide InTable, Block, Within;
    forall n | 0 <= n < |s.groups|
      ensures GroupKept(g, s, s', n)
    {
      assert GroupKept(g, s, m, n) && GroupKept(g, m, s', n);
    }
  }

  /** Adding a block to a file changes a block bitmap only. */
  lemma BlockAddedMetadata(g: Geometry, s: Store, s': Store, name: nat, index: nat, n: nat, i: nat)
    requires Valid(g, s) && FreeBit(g, s, n, i) && name in s.files && index < |s.files[name].direct|
    requires s' == BlockAdded(g, s, name, index, n, i)
    ensures MetadataKept(g, s, s')
  {
    hide Bits, Clear, Total, Block, Within, Held, FreeValid, HeldValid, NoSharing, SizesValid;
    TakenBits(g, s, s', name, index, n, i);
    AddedBitmaps(g, s, s', name, index, n, i);
    forall m | 0 <= m < |s.groups|
      ensures GroupKept(g, s, s', m)
    {
      AddedGroup(g, s, s', name, index, n, i, m);
    }
  }

  lemma AddedGroup(g: Geometry, s: Store, s': Store, name: nat, index: nat, n: nat, i: nat, m: nat)
    requires BitmapsValid(g, s) && FreeBit(g, s, n, i) && name in s.files && index < |s.files[name].direct|
    requires s' == BlockAdded(g, s, name, index, n, i) && m < |s.groups|
    ensures |s'.groups| == |s.groups| && s'.freeInodes == s.freeInodes && GroupKept(g, s, s', m)
  {
    hide Bits, Clear, Total, Block, Within;
    ClearNone(Bits(g, s.disk, BitmapOf(s.groups[n], BlockKind)));
    assert BitmapOf(s.groups[m], InodeKind) != BitmapOf(s.groups[n], BlockKind);
    TakenDisk(g, s, BlockKind, n, i, BitmapOf(s.groups[m], InodeKind));
  }

  /** Nor does a write into a block of a file. */
  lemma DataWriteMetadata(g: Geometry, s: Store, name: nat, slot: Slot, offset: nat, data: seq<byte>)
    requires Valid(g, s) && Held(g, s, name, slot) != 0 && offset + |data| <= g.blockSize
    ensures g.Address(Held(g, s, name, slot), offset) + |data| <= |s.disk|
    ensures MetadataKept(g, s, DiskWritten(s, g.Address(Held(g, s, name, slot), offset), data))
  {
    hide Held, Geometry.Address, Block, Splice, Clear, Total, Bits;
    var b := Held(g, s, name, slot);
    ValidGeometry(g, s);
    HeldExists(g, s, name, slot);
    OtherBlocksSame(g, s, b, offset, data, b);
    var s' := DiskWritten(s, g.Address(b, offset), data);
    SameNoBitmap(g, s, s');
    forall n | 0 <= n < |s.groups|
      ensures GroupKept(g, s, s', n)
    {
      assert BitmapOf(s.groups[n], InodeKind) != b;
      OtherBlocksSame(g, s, b, offset, data, s.groups[n].inodeBitmap);
    }
    forall block | InTable(g, s, block)
      ensures SameBlock(g, s.disk, s'.disk, block)
    {
      OtherBlocksSame(g, s, b, offset, data, block);
    }
  }

  // ---- Inode records ----

  /** The fields the code uses of struct Inode. */
  function InodeOf(record: seq<byte>): (f: Inode)
    requires |record| == INODE_RECORD
    ensures |f.direct| == 12
  {
    Inode(U32(record, 4), seq(12, k requires 0 <= k < 12 => U32(record, 40 + 4 * k)), U32(record, 88), U32(record, 92))
  }

  /** struct Inode, field by field. */
  datatype Record = Record(
    typePermissions: nat, userId: nat, size0: nat, lastAccessTime: nat, creationTime: nat, lastModificationTime: nat,
    deletionTime: nat, groupId: nat, hardLinksCount: nat, diskSectorsCount: nat, flags: nat, reserved0: nat,
    directBlockPointers: seq<nat>, singlyIndirectBlockPtr: nat, doublyIndirectBlockPtr: nat,
    triplyIndirectBlockPtr: nat,
    rest: seq<byte>)

  function U16Bytes(n: nat): (r: seq<byte>)
    requires n < 0x1_0000
    ensures |r| == 2
  {
    [n % 0x100, n / 0x100]
  }

  ghost predicate RecordValid(r: Record) {
    && r.typePermissions < 0x1_0000 && r.userId < 0x1_0000 && r.groupId < 0x1_0000 && r.hardLinksCount < 0x1_0000
    && r.size0 < 0x1_0000_0000 && r.lastAccessTime < 0x1_0000_0000 && r.creationTime < 0x1_0000_0000
    && r.lastModificationTime < 0x1_0000_0000 && r.deletionTime < 0x1_0000_0000 && r.diskSectorsCount < 0x1_0000_0000
    && r.flags < 0x1_0000_0000 && r.reserved0 < 0x1_0000_0000
    && |r.directBlockPointers| == 12
    && (forall k :: 0 <= k < 12 ==> r.directBlockPointers[k] < 0x1_0000_0000)
    && r.singlyIndirectBlockPtr < 0x1_0000_0000 && r.doublyIndirectBlockPtr < 0x1_0000_0000
    && r.triplyIndirectBlockPtr < 0x1_0000_0000 && |r.rest| == 28
  }

  ghost function NumbersBytes(numbers: seq<nat>): (r: seq<byte>)
    requires forall k :: 0 <= k < |numbers| ==> numbers[k] < 0x1_0000_0000
    ensures |r| == 4 * |numbers|
  {
    if numbers == [] then [] else U32Bytes(numbers[0]) + NumbersBytes(numbers[1..])
  }

  /** The fields before the block pointers. */
  ghost function HeadBytes(r: Record): (b: seq<byte>)
    requires RecordValid(r)
    ensures |b| == 40
  {
    U16Bytes(r.typePermissions) + U16Bytes(r.userId)
    + NumbersBytes([r.size0, r.lastAccessTime, r.creationTime, r.lastModificationTime, r.deletionTime])
    + (U16Bytes(r.groupId) + U16Bytes(r.hardLinksCount))
    + NumbersBytes([r.diskSectorsCount, r.flags, r.reserved0])
  }

  ghost function RecordBytes(r: Record): (b: seq<byte>)
    requires RecordValid(r)
    ensures |b| == INODE_RECORD
  {
    HeadBytes(r) + NumbersBytes(r.directBlockPointers)
    + NumbersBytes([r.singlyIndirectBlockPtr, r.doublyIndirectBlockPtr, r.triplyIndirectBlockPtr]) + r.rest
  }

  lemma {:induction false} NumberAt(numbers: seq<nat>, k: nat)
    requires (forall j :: 0 <= j < |numbers| ==> numbers[j] < 0x1_0000_0000) && k < |numbers|
    ensures NumbersBytes(numbers)[4 * k..4 * k + 4] == U32Bytes(numbers[k])
  {
    hide U32Bytes;
    if k > 0 {
      NumberAt(numbers[1..], k - 1);
      assert NumbersBytes(numbers)[4 * k..4 * k + 4] == NumbersBytes(numbers[1..])[4 * (k - 1)..4 * (k - 1) + 4];
    }
  }

  lemma NumberInside(b: seq<byte>, at: nat, numbers: seq<nat>, k: nat)
    requires (forall j :: 0 <= j < |numbers| ==> numbers[j] < 0x1_0000_0000) && k < |numbers|
    requires at + 4 * |numbers| <= |b| && b[at..at + 4 * |numbers|] == NumbersBytes(numbers)
    ensures U32(b, at + 4 * k) == numbers[k]
  {
    hide U32Bytes, U32, NumbersBytes;
    NumberAt(numbers, k);
    SliceOfSlice(b, at, 4 * |numbers|, 4 * k, 4);
    U32RoundTrip(numbers[k], b, at + 4 * k);
  }

  /** GetInode's view of a record is its size and its block pointers. */
  lemma RecordRoundTrip(r: Record)
    requires RecordValid(r)
    ensures InodeOf(RecordBytes(r)) ==
            Inode(r.size0, r.directBlockPointers, r.singlyIndirectBlockPtr, r.doublyIndirectBlockPtr)
  {
    hide NumbersBytes, U16Bytes, U32;
    var b := RecordBytes(r);
    var times := [r.size0, r.lastAccessTime, r.creationTime, r.lastModificationTime, r.deletionTime];
    var indirect := [r.singlyIndirectBlockPtr, r.doublyIndirectBlockPtr, r.triplyIndirectBlockPtr];
    assert b[4..24] == NumbersBytes(times);
    assert b[40..88] == NumbersBytes(r.directBlockPointers);
    assert b[88..100] == NumbersBytes(indirect);
    NumberInside(b, 4, times, 0);
    NumberInside(b, 88, indirect, 0);
    NumberInside(b, 88, indirect, 1);
    forall k | 0 <= k < 12
      ensures InodeOf(b).direct[k] == r.directBlockPointers[k]
    {
      NumberInside(b, 40, r.directBlockPointers, k);
    }
  }

  /** Where GetInode reads. */
  function RecordAddress(g: Geometry, s: Store, n: nat, i: nat): nat
    requires n < |s.groups|
  {
    g.Address(s.groups[n].inodeTable, i * g.inodeSize)
  }

  lemma RecordInTable(g: Geometry, s: Store, n: nat, i: nat, q: nat)
    requires g.Valid() && n < |s.groups| && i < g.inodesPerGroup
    requires RecordAddress(g, s, n, i) <= q < RecordAddress(g, s, n, i) + INODE_RECORD
    ensures InTable(g, s, g.IndexOf(q))
  {
    var table, bytes := s.groups[n].inodeTable, g.inodesPerGroup * g.inodeSize;
    BlocksApart(g.inodeSize, i, g.inodesPerGroup);
    QuotientBetween(table, q - table * g.blockSize, bytes, g.blockSize);
    assert s.groups[n].inodeTable <= g.IndexOf(q) < s.groups[n].inodeTable + g.TableBlocks();
  }

  /** A byte `r` of a region that starts with block `table` and is `bytes` long lies in one of its blocks. */
  lemma QuotientBetween(table: nat, r: nat, bytes: nat, size: nat)
    requires size > 0 && r < bytes
    ensures table <= (table * size + r) / size < table + (bytes + size - 1) / size
  {
    var q := r / size;
    assert table * size + r == (table + q) * size + r % size;
    QuotientUnique(size, table + q, r % size, (table * size + r) / size, (table * size + r) % size);
    var blocks := (bytes + size - 1) / size;
    assert blocks * size >= bytes;
    if q >= blocks { BlockProducts(blocks, q, size); }
  }

  lemma BlockProducts(a: nat, b: nat, size: nat)
    requires a <= b
    ensures a * size <= b * size
  {
  }

  lemma ByteOfBlock(g: Geometry, disk: Disk, q: nat)
    requires g.blockSize > 0 && Within(disk, g.blockSize, g.IndexOf(q))
    ensures q < |disk| && disk[q] == Block(disk, g.blockSize, g.IndexOf(q))[g.OffsetOf(q)]
  {
    AddressInBlock(disk, g.blockSize, g.IndexOf(q), g.OffsetOf(q), 1);
    assert q == g.IndexOf(q) * g.blockSize + g.OffsetOf(q);
  }

  /** The record of an inode lies on the disk and changes only when a block of its table does. */
  lemma RecordOnDisk(g: Geometry, s: Store, n: nat, i: nat)
    requires Valid(g, s) && n < |s.groups| && i < g.inodesPerGroup
    ensures RecordAddress(g, s, n, i) + INODE_RECORD <= |s.disk|
  {
    hide Held, RecordAddress, FreeBit, FreeValid, HeldValid, NoSharing, SizesValid, Bits, Clear, Total;
    ValidGeometry(g, s);
    var last := RecordAddress(g, s, n, i) + INODE_RECORD - 1;
    RecordInTable(g, s, n, i, last);
    ByteOfBlock(g, s.disk, last);
  }

  ghost function InodeOnDisk(g: Geometry, s: Store, n: nat, i: nat): (f: Inode)
    requires Valid(g, s) && n < |s.groups| && i < g.inodesPerGroup
    ensures |f.direct| == 12
  {
    RecordOnDisk(g, s, n, i);
    InodeOf(s.disk[RecordAddress(g, s, n, i)..RecordAddress(g, s, n, i) + INODE_RECORD])
  }

  lemma RecordKept(g: Geometry, s: Store, s': Store, n: nat, i: nat)
    requires Valid(g, s) && Valid(g, s') && MetadataKept(g, s, s') && n < |s.groups| && i < g.inodesPerGroup
    ensures InodeOnDisk(g, s', n, i) == InodeOnDisk(g, s, n, i)
  {
    hide Held, RecordAddress, FreeBit, FreeValid, HeldValid, NoSharing, SizesValid, BitmapsValid, InTable, Block,
         InodeOf, Within, Geometry.IndexOf, Geometry.OffsetOf, TablesValid, Valid, InodeOnDisk;
    ValidGeometry(g, s);
    assert GroupKept(g, s, s', n);
    SameAddress(g, s, s', n, i);
    var a := RecordAddress(g, s, n, i);
    RecordOnDisk(g, s, n, i);
    forall q | a <= q < a + INODE_RECORD
      ensures s'.disk[q] == s.disk[q]
    {
      RecordInTable(g, s, n, i, q);
      TableIsWithin(g, s, g.IndexOf(q));
      ByteOfBlock(g, s.disk, q);
      ByteOfBlock(g, s'.disk, q);
    }
    SameRecord(g, s, s', n, i, a);
  }

  lemma TableIsWithin(g: Geometry, s: Store, block: nat)
    requires Valid(g, s) && InTable(g, s, block)
    ensures Within(s.disk, g.blockSize, block) && NoBitmap(s, block)
  {
    hide Held, FreeBit, FreeValid, HeldValid, NoSharing, SizesValid, BitmapsValid, Number;
  }

  lemma SameRecord(g: Geometry, s: Store, s': Store, n: nat, i: nat, a: nat)
    requires Valid(g, s) && Valid(g, s') && n < |s.groups| && n < |s'.groups| && i < g.inodesPerGroup
    requires RecordAddress(g, s, n, i) == RecordAddress(g, s', n, i) == a && |s'.disk| == |s.disk|
    requires a + INODE_RECORD <= |s.disk|
    requires forall q :: a <= q < a + INODE_RECORD ==> s'.disk[q] == s.disk[q]
    ensures InodeOnDisk(g, s', n, i) == InodeOnDisk(g, s, n, i)
  {
    hide Valid, RecordAddress, InodeOf;
    assert s'.disk[a..a + INODE_RECORD] == s.disk[a..a + INODE_RECORD];
  }

  lemma SameAddress(g: Geometry, s: Store, s': Store, n: nat, i: nat)
    requires n < |s.groups| && n < |s'.groups| && s'.groups[n].inodeTable == s.groups[n].inodeTable
    ensures RecordAddress(g, s', n, i) == RecordAddress(g, s, n, i)
  {
  }

  // ---- One write ----

  /** The whole effect of a write: one file is spliced, all others keep their bytes and inodes, and the inode bitmaps
      and tables are untouched. */
  ghost predicate Wrote(g: Geometry, s: Store, s': Store, name: nat, at: nat, data: seq<byte>) {
    && g.Valid() && name in s.files && at <= s.files[name].size && Valid(g, s') && s'.files.Keys == s.files.Keys
    && Contents(g, s', name) == Spliced(Contents(g, s, name), at, data)
    && (forall other :: other in s.files && other != name ==> Contents(g, s', other) == Contents(g, s, other))
    && (forall other :: other in s.files && other != name ==> s'.files[other] == s.files[other])
    && MetadataKept(g, s, s')
  }

  lemma WroteNothing(g: Geometry, s: Store, name: nat)
    requires Valid(g, s) && g.Valid() && name in s.files
    ensures Wrote(g, s, s, name, s.files[name].size, [])
  {
    hide Valid, ByteAt;
    MetadataSame(g, s, s);
  }

  /** Two writes at the end are one. */
  lemma WroteTwice(g: Geometry, s: Store, m: Store, s': Store, name: nat, a: seq<byte>, b: seq<byte>)
    requires g.Valid() && name in s.files && Wrote(g, s, m, name, s.files[name].size, a)
    requires Wrote(g, m, s', name, m.files[name].size, b)
    ensures Wrote(g, s, s', name, s.files[name].size, a + b)
  {
    hide Valid, ByteAt, MetadataKept;
    MetadataKeptTwice(g, s, m, s');
    var before := Contents(g, s, name);
    assert Spliced(before, |before|, a) == before + a && Spliced(before + a, |before + a|, b) == before + a + b;
    assert Spliced(before, |before|, a + b) == before + (a + b);
  }
}

/** Well-formed file stores, file contents as byte sequences, and what the two disk-changing steps of a write do to
    them. */
module Ext2Files {
  import opened Words
  import opened DiskBlocks
  import opened Ext2Layout
  import opened Ext2Alloc

  // ---- Well-formedness ----

  /** The block number in a slot of a file. */
  ghost function Held(g: Geometry, s: Store, name: nat, slot: Slot): nat {
    if name in s.files && |s.files[name].direct| == 12 && ValidSlot(g, slot) then At(g, s.disk, s.files[name], slot)
    else 0
  }

  ghost predicate NoBitmap(s: Store, block: nat) {
    forall i, kind :: 0 <= i < |s.groups| ==> BitmapOf(s.groups[i], kind) != block
  }

  /** Bit `i` of group `n` of the block bitmaps is clear. */
  ghost predicate FreeBit(g: Geometry, s: Store, n: nat, i: nat)
    requires BitmapsValid(g, s)
  {
    n < |s.groups| && i < g.blocksPerGroup && !Bits(g, s.disk, BitmapOf(s.groups[n], BlockKind))[i]
  }

  /** Free blocks exist, hold no bitmap and are not block 0. */
  ghost predicate FreeValid(g: Geometry, s: Store)
    requires BitmapsValid(g, s)
  {
    forall n, i :: FreeBit(g, s, n, i) ==>
      var b := Number(g, BlockKind, n, i); b != 0 && Within(s.disk, g.blockSize, b) && NoBitmap(s, b)
  }

  /** Blocks of files exist, hold no bitmap and are marked as used. */
  ghost predicate HeldValid(g: Geometry, s: Store)
    requires BitmapsValid(g, s)
  {
    forall name, slot :: Held(g, s, name, slot) != 0 ==>
      && Within(s.disk, g.blockSize, Held(g, s, name, slot)) && NoBitmap(s, Held(g, s, name, slot))
      && forall n, i :: FreeBit(g, s, n, i) ==> Number(g, BlockKind, n, i) != Held(g, s, name, slot)
  }

  /** No block is used in two places, whether in one file or in two. */
  ghost predicate NoSharing(g: Geometry, s: Store) {
    forall name, slot, name', slot' ::
      Held(g, s, name, slot) != 0 && Held(g, s, name, slot) == Held(g, s, name', slot') ==>
      name == name' && slot == slot'
  }

  /** Inodes are complete and every block below the size is present. */
  ghost predicate SizesValid(g: Geometry, s: Store)
    requires g.Valid()
  {
    forall name :: name in s.files ==>
      && |s.files[name].direct| == 12
      && forall index: nat :: g.Address(index, 0) < s.files[name].size ==>
           index < g.IndexLimit() && Held(g, s, name, DataSlot(g, index)) != 0
  }

  /** The block belongs to an inode table. */
  ghost predicate InTable(g: Geometry, s: Store, block: nat) {
    exists n :: 0 <= n < |s.groups| && s.groups[n].inodeTable <= block < s.groups[n].inodeTable + g.TableBlocks()
  }

  /** Inode tables exist, apart from the bitmaps, the blocks of files and the free blocks. */
  ghost predicate TablesValid(g: Geometry, s: Store)
    requires BitmapsValid(g, s)
  {
    forall block {:trigger InTable(g, s, block)} :: InTable(g, s, block) ==>
      && block != 0 && Within(s.disk, g.blockSize, block) && NoBitmap(s, block)
      && (forall name, slot :: Held(g, s, name, slot) != block)
      && forall n, i :: FreeBit(g, s, n, i) ==> Number(g, BlockKind, n, i) != block
  }

  ghost predicate Valid(g: Geometry, s: Store) {
    BitmapsValid(g, s) && FreeValid(g, s) && HeldValid(g, s) && NoSharing(g, s) && SizesValid(g, s) && TablesValid(g, s)
  }

  lemma ValidGeometry(g: Geometry, s: Store)
    requires Valid(g, s)
    ensures g.Valid()
    ensures forall name :: name in s.files ==> |s.files[name].direct| == 12
  {
    hide Held, FreeBit, TablesValid;
  }

  // ---- Contents ----

  /** Block `index` of the file can be resolved and exists. */
  ghost predicate Present(g: Geometry, s: Store, name: nat, index: nat)
    requires g.Valid()
  {
    index < g.IndexLimit() && Held(g, s, name, DataSlot(g, index)) != 0
  }

  ghost function ByteAt(g: Geometry, s: Store, name: nat, k: nat): byte
    requires g.Valid()
  {
    if Present(g, s, name, g.IndexOf(k)) && Within(s.disk, g.blockSize, Held(g, s, name, DataSlot(g, g.IndexOf(k))))
    then Block(s.disk, g.blockSize, Held(g, s, name, DataSlot(g, g.IndexOf(k))))[g.OffsetOf(k)] else 0
  }

  /** The file as its user sees it. */
  ghost function Contents(g: Geometry, s: Store, name: nat): (r: seq<byte>)
    requires g.Valid() && name in s.files
    ensures |r| == s.files[name].size
  {
    seq(s.files[name].size, k requires 0 <= k => ByteAt(g, s, name, k))
  }

  lemma ContentsLength(g: Geometry, s: Store, name: nat)
    requires g.Valid() && name in s.files
    ensures |Contents(g, s, name)| == s.files[name].size
  {
  }

  // ---- Writing inside one data block ----

  ghost function DiskWritten(s: Store, addr: nat, data: seq<byte>): Store
    requires addr + |data| <= |s.disk|
  {
    s.(disk := Splice(s.disk, addr, data))
  }

  lemma OtherBlocksSame(g: Geometry, s: Store, block: nat, offset: nat, data: seq<byte>, other: nat)
    requires g.blockSize > 0 && Within(s.disk, g.blockSize, block) && offset + |data| <= g.blockSize
    ensures g.Address(block, offset) + |data| <= |s.disk|
    ensures var s' := DiskWritten(s, g.Address(block, offset), data);
            && |s'.disk| == |s.disk| && (Within(s'.disk, g.blockSize, other) <==> Within(s.disk, g.blockSize, other))
            && (other != block ==> SameBlock(g, s.disk, s'.disk, other))
            && (other == block ==>
                Block(s'.disk, g.blockSize, block) == Splice(Block(s.disk, g.blockSize, block), offset, data))
  {
    AddressInBlock(s.disk, g.blockSize, block, offset, |data|);
    if Within(s.disk, g.blockSize, other) {
      WriteInBlock(s.disk, g.blockSize, block, offset, data, other);
    }
  }

  /** A block that exists and holds neither pointers nor a bitmap. */
  ghost predicate PlainBlock(g: Geometry, s: Store, b: nat) {
    && Within(s.disk, g.blockSize, b) && NoBitmap(s, b)
    && forall name, slot :: PointerSlot(slot) && Held(g, s, name, slot) != 0 ==> Held(g, s, name, slot) != b
  }

  /** A write into a plain block moves no pointer. */
  lemma PointersKept(g: Geometry, s: Store, s': Store, b: nat, offset: nat, data: seq<byte>, name: nat, slot: Slot)
    requires g.blockSize > 0 && PlainBlock(g, s, b) && offset + |data| <= g.blockSize
    requires g.Address(b, offset) + |data| <= |s.disk|
    requires s' == DiskWritten(s, g.Address(b, offset), data)
    ensures Held(g, s', name, slot) == Held(g, s, name, slot)
  {
    hide Block, DataSlot, Pointer;
    if name in s.files && |s.files[name].direct| == 12 && ValidSlot(g, slot) {
      forall p: Slot | ValidSlot(g, p) && PointerSlot(p) && At(g, s.disk, s.files[name], p) != 0
        ensures SameBlock(g, s.disk, s'.disk, At(g, s.disk, s.files[name], p))
      {
        assert At(g, s.disk, s.files[name], p) == Held(g, s, name, p);
        OtherBlocksSame(g, s, b, offset, data, Held(g, s, name, p));
      }
      AtFrame(g, s.disk, s'.disk, s.files[name], slot);
    }
  }

  lemma DataBlockIsPlain(g: Geometry, s: Store, name: nat, slot: Slot)
    requires Valid(g, s) && Held(g, s, name, slot) != 0 && !PointerSlot(slot)
    ensures PlainBlock(g, s, Held(g, s, name, slot))
  {
    hide Held, BitmapsValid, FreeValid, SizesValid, FreeBit, NoBitmap, Within, TablesValid;
  }

  /** The two stores have the same allocation state and the same pointers everywhere. */
  ghost predicate SameStructure(g: Geometry, s: Store, s': Store)
    requires BitmapsValid(g, s)
  {
    && s'.groups == s.groups && s'.freeBlocks == s.freeBlocks && s'.freeInodes == s.freeInodes && s'.files == s.files
    && |s'.disk| == |s.disk|
    && (forall i, kind :: 0 <= i < |s.groups| ==>
        Bits(g, s'.disk, BitmapOf(s.groups[i], kind)) == Bits(g, s.disk, BitmapOf(s.groups[i], kind)))
    && forall name, slot :: Held(g, s', name, slot) == Held(g, s, name, slot)
  }

  lemma SameStructureBitmaps(g: Geometry, s: Store, s': Store)
    requires BitmapsValid(g, s) && SameStructure(g, s, s')
    ensures BitmapsValid(g, s')
    ensures forall n, i :: FreeBit(g, s', n, i) == FreeBit(g, s, n, i)
  {
    hide Held, Bits, Clear, Total;
  }

  lemma SameStructureValid(g: Geometry, s: Store, s': Store)
    requires Valid(g, s) && SameStructure(g, s, s')
    ensures Valid(g, s')
  {
    SameStructureBitmaps(g, s, s');
    hide Held, Number, DataSlot, BitmapsValid, FreeBit, NoBitmap, InTable;
    SameNoBitmap(g, s, s');
    assert TablesValid(g, s');
    assert FreeValid(g, s');
    assert HeldValid(g, s');
    assert NoSharing(g, s');
    assert SizesValid(g, s');
  }

  lemma SameNoBitmap(g: Geometry, s: Store, s': Store)
    requires s'.groups == s.groups
    ensures forall block :: NoBitmap(s, block) <==> NoBitmap(s', block)
    ensures forall block :: InTable(g, s, block) <==> InTable(g, s', block)
  {
  }

  lemma PlainWriteKeepsStructure(g: Geometry, s: Store, s': Store, b: nat, offset: nat, data: seq<byte>)
    requires BitmapsValid(g, s) && PlainBlock(g, s, b) && offset + |data| <= g.blockSize
    requires g.Address(b, offset) + |data| <= |s.disk|
    requires s' == DiskWritten(s, g.Address(b, offset), data)
    ensures SameStructure(g, s, s')
  {
    hide Held, Bits, Clear, Total, Block;
    forall name, slot
      ensures Held(g, s', name, slot) == Held(g, s, name, slot)
    {
      PointersKept(g, s, s', b, offset, data, name, slot);
    }
    forall i, kind | 0 <= i < |s.groups|
      ensures Bits(g, s'.disk, BitmapOf(s.groups[i], kind)) == Bits(g, s.disk, BitmapOf(s.groups[i], kind))
    {
      OtherBlocksSame(g, s, b, offset, data, BitmapOf(s.groups[i], kind));
      SameBits(g, s.disk, s'.disk, BitmapOf(s.groups[i], kind));
    }
  }

  /** The byte position `k` lies in the part of block `index` that starts at `offset` and is `count` long. */
  predicate Covers(g: Geometry, index: nat, offset: nat, count: nat, k: nat) {
    g.IndexOf(k) == index && offset <= g.OffsetOf(k) < offset + count
  }

  /** Writing into a present data block changes exactly the covered bytes of that one file. */
  lemma DataWrite(g: Geometry, s: Store, name: nat, index: nat, offset: nat, data: seq<byte>)
    requires Valid(g, s) && Present(g, s, name, index) && offset + |data| <= g.blockSize
    ensures var b := Held(g, s, name, DataSlot(g, index));
            && g.Address(b, offset) + |data| <= |s.disk|
            && (var s' := DiskWritten(s, g.Address(b, offset), data);
                && Valid(g, s') && SameStructure(g, s, s')
                && forall name', k: nat :: Present(g, s, name', g.IndexOf(k)) ==>
                     ByteAt(g, s', name', k) ==
                     if name' == name && Covers(g, index, offset, |data|, k) then data[g.OffsetOf(k) - offset]
                     else ByteAt(g, s, name', k))
  {
    var slot := DataSlot(g, index);
    var b := Held(g, s, name, slot);
    DataBlockIsPlain(g, s, name, slot);
    AddressInBlock(s.disk, g.blockSize, b, offset, |data|);
    var s' := DiskWritten(s, g.Address(b, offset), data);
    PlainWriteKeepsStructure(g, s, s', b, offset, data);
    SameStructureValid(g, s, s');
    forall name', k: nat | Present(g, s, name', g.IndexOf(k))
      ensures ByteAt(g, s', name', k) ==
              if name' == name && Covers(g, index, offset, |data|, k) then data[g.OffsetOf(k) - offset]
              else ByteAt(g, s, name', k)
    {
      OneByte(g, s, name, index, offset, data, name', k);
    }
  }

  lemma OneByte(g: Geometry, s: Store, name: nat, index: nat, offset: nat, data: seq<byte>, name': nat, k: nat)
    requires Valid(g, s) && Present(g, s, name, index) && offset + |data| <= g.blockSize
    requires g.Address(Held(g, s, name, DataSlot(g, index)), offset) + |data| <= |s.disk|
    requires SameStructure(g, s, DiskWritten(s, g.Address(Held(g, s, name, DataSlot(g, index)), offset), data))
    requires Present(g, s, name', g.IndexOf(k))
    ensures var s' := DiskWritten(s, g.Address(Held(g, s, name, DataSlot(g, index)), offset), data);
            ByteAt(g, s', name', k) ==
            if name' == name && Covers(g, index, offset, |data|, k) then data[g.OffsetOf(k) - offset]
            else ByteAt(g, s, name', k)
  {
    hide Held, Valid, DataSlot, Within, Block, Geometry.IndexOf, Geometry.OffsetOf, Geometry.Address, Splice, NoBitmap;
    ValidGeometry(g, s);
    var index' := g.IndexOf(k);
    var b, b' := Held(g, s, name, DataSlot(g, index)), Held(g, s, name', DataSlot(g, index'));
    HeldExists(g, s, name, DataSlot(g, index));
    HeldExists(g, s, name', DataSlot(g, index'));
    Unshared(g, s, name, DataSlot(g, index), name', DataSlot(g, index'));
    if index' != index { DataSlotsDistinct(g, index, index'); }
    OtherBlocksSame(g, s, b, offset, data, b');
  }

  lemma HeldExists(g: Geometry, s: Store, name: nat, slot: Slot)
    requires Valid(g, s) && Held(g, s, name, slot) != 0
    ensures Within(s.disk, g.blockSize, Held(g, s, name, slot)) && NoBitmap(s, Held(g, s, name, slot))
  {
    hide Held, FreeBit, NoBitmap, Within, FreeValid, NoSharing, SizesValid, TablesValid;
  }

  lemma Unshared(g: Geometry, s: Store, name: nat, slot: Slot, name': nat, slot': Slot)
    requires Valid(g, s) && Held(g, s, name, slot) != 0
    ensures Held(g, s, name, slot) == Held(g, s, name', slot') ==> name == name' && slot == slot'
  {
    hide Held, FreeBit, HeldValid, FreeValid, SizesValid, TablesValid;
  }

  // ---- Adding a missing direct block ----

  /** The store after a free block was taken and put into a direct pointer. */
  ghost function BlockAdded(g: Geometry, s: Store, name: nat, index: nat, n: nat, i: nat): Store
    requires BitmapsValid(g, s) && FreeBit(g, s, n, i) && name in s.files && index < |s.files[name].direct|
  {
    ClearNone(Bits(g, s.disk, BitmapOf(s.groups[n], BlockKind)));
    var f := s.files[name];
    var taken := Taken(g, s, BlockKind, n, i);
    taken.(files := s.files[name := f.(direct := f.direct[index := Number(g, BlockKind, n, i)])])
  }

  lemma AddedBitmaps(g: Geometry, s: Store, s': Store, name: nat, index: nat, n: nat, i: nat)
    requires BitmapsValid(g, s) && FreeBit(g, s, n, i) && name in s.files && index < |s.files[name].direct|
    requires s' == BlockAdded(g, s, name, index, n, i)
    ensures BitmapsValid(g, s') && |s'.disk| == |s.disk| && s'.freeBlocks + 1 == s.freeBlocks
    ensures |s'.groups| == |s.groups|
    ensures forall m :: 0 <= m < |s.groups| ==> s'.groups[m].inodeTable == s.groups[m].inodeTable
    ensures forall m, kind :: 0 <= m < |s.groups| ==> BitmapOf(s'.groups[m], kind) == BitmapOf(s.groups[m], kind)
  {
    ClearNone(Bits(g, s.disk, BitmapOf(s.groups[n], BlockKind)));
    TakenKeepsBitmaps(g, s, BlockKind, n, i);
    TotalCovers(s.groups, n, BlockKind);
    TakenDisk(g, s, BlockKind, n, i, BitmapOf(s.groups[n], BlockKind));
    hide Bits, Clear, Total, Block, Within;
    assert BitmapsValid(g, Taken(g, s, BlockKind, n, i));
  }

  lemma AddedFreeBit(g: Geometry, s: Store, s': Store, name: nat, index: nat, n: nat, i: nat, n': nat, i': nat)
    requires BitmapsValid(g, s) && FreeBit(g, s, n, i) && name in s.files && index < |s.files[name].direct|
    requires s' == BlockAdded(g, s, name, index, n, i) && BitmapsValid(g, s')
    ensures FreeBit(g, s', n', i') <==> FreeBit(g, s, n', i') && !(n' == n && i' == i)
  {
    hide Bits, Clear, Total, Block, Within;
    AddedBitmaps(g, s, s', name, index, n, i);
    if n' < |s.groups| && i' < g.blocksPerGroup {
      assert BitmapOf(s'.groups[n'], BlockKind) == BitmapOf(s.groups[n'], BlockKind);
      ClearNone(Bits(g, s.disk, BitmapOf(s.groups[n], BlockKind)));
      TakenDisk(g, s, BlockKind, n, i, BitmapOf(s.groups[n'], BlockKind));
      SameBits(g, s.disk, s'.disk, BitmapOf(s.groups[n'], BlockKind));
    }
  }

  lemma AddedBlock(g: Geometry, s: Store, s': Store, name: nat, index: nat, n: nat, i: nat, block: nat)
    requires BitmapsValid(g, s) && FreeBit(g, s, n, i) && name in s.files && index < |s.files[name].direct|
    requires s' == BlockAdded(g, s, name, index, n, i)
    ensures NoBitmap(s', block) <==> NoBitmap(s, block)
    ensures InTable(g, s', block) <==> InTable(g, s, block)
    ensures Within(s.disk, g.blockSize, block) && NoBitmap(s, block) ==> SameBlock(g, s.disk, s'.disk, block)
  {
    hide Bits, Clear, Total, Block, Within;
    AddedBitmaps(g, s, s', name, index, n, i);
    assert forall m :: 0 <= m < |s.groups| ==> s'.groups[m].inodeTable == s.groups[m].inodeTable;
    if Within(s.disk, g.blockSize, block) && NoBitmap(s, block) {
      assert BitmapOf(s.groups[n], BlockKind) != block;
      ClearNone(Bits(g, s.disk, BitmapOf(s.groups[n], BlockKind)));
      TakenDisk(g, s, BlockKind, n, i, block);
    }
  }

  lemma TakenBits(g: Geometry, s: Store, s': Store, name: nat, index: nat, n: nat, i: nat)
    requires BitmapsValid(g, s) && FreeBit(g, s, n, i) && name in s.files && index < |s.files[name].direct|
    requires s' == BlockAdded(g, s, name, index, n, i)
    ensures BitmapsValid(g, s') && |s'.disk| == |s.disk| && s'.freeBlocks + 1 == s.freeBlocks
    ensures forall n', i' :: FreeBit(g, s', n', i') <==> FreeBit(g, s, n', i') && !(n' == n && i' == i)
    ensures forall block :: NoBitmap(s', block) <==> NoBitmap(s, block)
    ensures forall block :: InTable(g, s', block) <==> InTable(g, s, block)
    ensures forall block :: Within(s.disk, g.blockSize, block) && NoBitmap(s, block) ==>
              SameBlock(g, s.disk, s'.disk, block)
  {
    hide BitmapsValid, FreeBit, NoBitmap, InTable, SameBlock, Within, BlockAdded;
    AddedBitmaps(g, s, s', name, index, n, i);
    forall n', i'
      ensures FreeBit(g, s', n', i') <==> FreeBit(g, s, n', i') && !(n' == n && i' == i)
    {
      AddedFreeBit(g, s, s', name, index, n, i, n', i');
    }
    forall block
      ensures NoBitmap(s', block) <==> NoBitmap(s, block)
      ensures InTable(g, s', block) <==> InTable(g, s, block)
      ensures Within(s.disk, g.blockSize, block) && NoBitmap(s, block) ==> SameBlock(g, s.disk, s'.disk, block)
    {
      AddedBlock(g, s, s', name, index, n, i, block);
    }
  }

  /** Only the one direct pointer of the one inode changes. */
  lemma AddedInode(g: Geometry, s: Store, name: nat, index: nat, n: nat, i: nat)
    requires BitmapsValid(g, s) && FreeBit(g, s, n, i) && name in s.files && index < |s.files[name].direct|
    ensures var s' := BlockAdded(g, s, name, index, n, i);
            var f := s.files[name];
            s'.files == s.files[name := f.(direct := f.direct[index := Number(g, BlockKind, n, i)])]
  {
  }

  lemma AddedPointers(g: Geometry, s: Store, s': Store, name: nat, index: nat, n: nat, i: nat, name': nat, slot: Slot)
    requires Valid(g, s) && FreeBit(g, s, n, i) && name in s.files && index < 12 && s.files[name].direct[index] == 0
    requires s' == BlockAdded(g, s, name, index, n, i)
    ensures Held(g, s', name', slot) ==
            if name' == name && slot == Direct(index) then Number(g, BlockKind, n, i) else Held(g, s, name', slot)
  {
    TakenBits(g, s, s', name, index, n, i);
    AddedInode(g, s, name, index, n, i);
    hide BitmapsValid, FreeValid, FreeBit, NoSharing, NoBitmap, Within, SameBlock, Pointer, BlockAdded, Number,
         DataSlot, TablesValid, InTable;
    if name' in s.files && ValidSlot(g, slot) {
      var f := s.files[name'];
      forall p: Slot | ValidSlot(g, p) && PointerSlot(p) && At(g, s.disk, f, p) != 0
        ensures SameBlock(g, s.disk, s'.disk, At(g, s.disk, f, p))
      {
        assert At(g, s.disk, f, p) == Held(g, s, name', p);
      }
      AtFrame(g, s.disk, s'.disk, f, slot);
    }
  }

  /** All that matters about the step: block `b` left the free blocks and entered one slot; every other block that is
      not a bitmap keeps its bytes. */
  ghost predicate Added(g: Geometry, s: Store, s': Store, name: nat, slot: Slot, b: nat)
    requires BitmapsValid(g, s) && BitmapsValid(g, s')
  {
    && |s'.disk| == |s.disk| && s'.freeBlocks + 1 == s.freeBlocks
    && Held(g, s, name, slot) == 0 && b != 0 && Within(s.disk, g.blockSize, b) && NoBitmap(s, b)
    && (forall name', slot' :: Held(g, s, name', slot') != b)
    && (forall name', slot' ::
        Held(g, s', name', slot') == if name' == name && slot' == slot then b else Held(g, s, name', slot'))
    && (forall n, i :: FreeBit(g, s', n, i) ==> FreeBit(g, s, n, i) && Number(g, BlockKind, n, i) != b)
    && (forall block :: NoBitmap(s', block) <==> NoBitmap(s, block))
    && !InTable(g, s, b) && (forall block :: InTable(g, s', block) <==> InTable(g, s, block))
    && (forall block :: Within(s.disk, g.blockSize, block) && NoBitmap(s, block) ==>
        SameBlock(g, s.disk, s'.disk, block))
    && s'.files.Keys == s.files.Keys
    && forall name' :: name' in s.files ==>
         |s'.files[name'].direct| == 12 && s'.files[name'].size == s.files[name'].size
  }

  lemma AddedHolds(g: Geometry, s: Store, s': Store, name: nat, index: nat, n: nat, i: nat)
    requires Valid(g, s) && FreeBit(g, s, n, i) && name in s.files && index < 12 && s.files[name].direct[index] == 0
    requires s' == BlockAdded(g, s, name, index, n, i)
    ensures BitmapsValid(g, s') && Added(g, s, s', name, Direct(index), Number(g, BlockKind, n, i))
  {
    hide BlockAdded, Number, Held, FreeBit, NoBitmap, InTable, Within, SameBlock, NoSharing, BitmapsValid, DataSlot,
         HeldValid, FreeValid, TablesValid;
    var b := Number(g, BlockKind, n, i);
    FreeBlockIsFresh(g, s, n, i);
    AddedInode(g, s, name, index, n, i);
    EmptyDirectSlot(g, s, name, index);
    TakenBits(g, s, s', name, index, n, i);
    FreeNumbersAfter(g, s, s', name, index, n, i);
    forall name', slot
      ensures Held(g, s', name', slot) == if name' == name && slot == Direct(index) then b else Held(g, s, name', slot)
    {
      AddedPointers(g, s, s', name, index, n, i, name', slot);
    }
  }

  lemma EmptyDirectSlot(g: Geometry, s: Store, name: nat, index: nat)
    requires name in s.files && |s.files[name].direct| == 12 && index < 12
    ensures Held(g, s, name, Direct(index)) == s.files[name].direct[index]
  {
  }

  lemma FreeBlockIsFresh(g: Geometry, s: Store, n: nat, i: nat)
    requires Valid(g, s) && FreeBit(g, s, n, i)
    ensures var b := Number(g, BlockKind, n, i);
            && b != 0 && Within(s.disk, g.blockSize, b) && NoBitmap(s, b) && !InTable(g, s, b)
            && forall name, slot :: Held(g, s, name, slot) != b
  {
    hide Held, BitmapsValid, FreeBit, NoBitmap, InTable, NoSharing, SizesValid, Within;
  }

  lemma FreeNumbersAfter(g: Geometry, s: Store, s': Store, name: nat, index: nat, n: nat, i: nat)
    requires BitmapsValid(g, s) && FreeBit(g, s, n, i) && name in s.files && index < |s.files[name].direct|
    requires s' == BlockAdded(g, s, name, index, n, i) && BitmapsValid(g, s')
    ensures forall n', i' :: FreeBit(g, s', n', i') ==> Number(g, BlockKind, n', i') != Number(g, BlockKind, n, i)
  {
    forall n', i' | FreeBit(g, s', n', i')
      ensures Number(g, BlockKind, n', i') != Number(g, BlockKind, n, i)
    {
      AddedFreeBit(g, s, s', name, index, n, i, n', i');
      BlockNumberUnique(g, n, i, n', i');
    }
  }

  /** Adding a block keeps the store well-formed. */
  lemma AddedValid(g: Geometry, s: Store, s': Store, name: nat, slot: Slot, b: nat)
    requires Valid(g, s) && BitmapsValid(g, s') && Added(g, s, s', name, slot, b)
    ensures Valid(g, s')
  {
    assert g.Valid();
    hide Held, FreeBit, NoBitmap, InTable, Number, SameBlock, DataSlot, BitmapsValid;
    assert TablesValid(g, s');
    assert FreeValid(g, s');
    assert HeldValid(g, s');
    assert NoSharing(g, s');
    assert SizesValid(g, s');
  }

  /** Adding a block changes no byte of a block that was present. */
  lemma AddedByte(g: Geometry, s: Store, s': Store, name: nat, slot: Slot, b: nat, name': nat, k: nat)
    requires Valid(g, s) && BitmapsValid(g, s') && Added(g, s, s', name, slot, b) && Present(g, s, name', g.IndexOf(k))
    ensures Present(g, s', name', g.IndexOf(k)) && ByteAt(g, s', name', k) == ByteAt(g, s, name', k)
  {
    hide Held, Valid, BitmapsValid, Added, DataSlot, Within, Block, Geometry.IndexOf, Geometry.OffsetOf,
         Geometry.IndexLimit;
    ValidGeometry(g, s);
    AddedKeepsBlock(g, s, s', name, slot, b, name', DataSlot(g, g.IndexOf(k)));
  }

  lemma AddedKeepsBlock(g: Geometry, s: Store, s': Store, name: nat, slot: Slot, b: nat, name': nat, slot': Slot)
    requires Valid(g, s) && BitmapsValid(g, s') && Added(g, s, s', name, slot, b) && Held(g, s, name', slot') != 0
    ensures Held(g, s', name', slot') == Held(g, s, name', slot')
    ensures SameBlock(g, s.disk, s'.disk, Held(g, s, name', slot'))
  {
    hide Held, Valid, BitmapsValid, NoBitmap, Within, SameBlock, FreeBit, InTable, Number;
    HeldExists(g, s, name', slot');
  }
}

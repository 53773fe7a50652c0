/** A well-formed disk on which GetBlockAddr does not find what a file's pointer tree says
    (kernel/src/Ext2.cpp:294-339). */
module AbsentPointers {
  import opened Common
  import opened Words
  import opened Bitmaps
  import opened DiskBlocks
  import opened Ext2Layout
  import opened Ext2Alloc
  import opened Ext2Files
  import opened Ext2

  const geometry: Geometry := Geometry(1024, 24, 8, 128)

  const BLOCKS: nat := 24

  /** The boot block starts with the number 20, blocks 1 and 2 are full bitmaps, and everything else is zero. */
  function DiskByte(q: nat): byte {
    if q == 0 then 20 else if 1024 <= q < 3072 then 255 else 0
  }

  function FullDisk(): (disk: Disk)
    ensures |disk| == BLOCKS * 1024 && forall q :: 0 <= q < |disk| ==> disk[q] == DiskByte(q)
  {
    seq(BLOCKS * 1024, q requires 0 <= q => DiskByte(q))
  }

  /** Inode 5 has all its direct blocks, 4 to 15, and no pointer blocks. */
  const inode: Inode := Inode(12 * 1024, [4, 5, 6, 7, 8, 9, 10, 11, 12, 13, 14, 15], 0, 0)

  ghost function Volume(): Store {
    Store(FullDisk(), [Group(1, 2, 3, 0, 0)], 0, 0, map[5 := inode])
  }

  lemma BlocksWithin(b: nat)
    requires b < BLOCKS
    ensures Within(FullDisk(), 1024, b)
  {
  }

  lemma BitsAreSet(k: nat)
    requires k < 8
    ensures Bit(255, k)
  {
    assert Bit(255, 0) && Bit(127, 0) && Bit(63, 0) && Bit(31, 0) && Bit(15, 0) && Bit(7, 0) && Bit(3, 0) && Bit(1, 0);
    if k >= 4 { assert Bit(255, k) == Bit(15, k - 4); }
  }

  lemma BitmapIsFull(bitmap: nat)
    requires bitmap == 1 || bitmap == 2
    ensures geometry.Valid() && Within(FullDisk(), 1024, bitmap)
    ensures forall i :: 0 <= i < 24 ==> Bits(geometry, FullDisk(), bitmap)[i]
    ensures Clear(Bits(geometry, FullDisk(), bitmap)) == 0
  {
    BlocksWithin(bitmap);
    var bytes := Block(FullDisk(), 1024, bitmap)[..3];
    assert forall i :: 0 <= i < 3 ==> bytes[i] == 255;
    forall i | 0 <= i < 24
      ensures Bits(geometry, FullDisk(), bitmap)[i]
    {
      BitsAreSet(Place(i, false));
    }
    ClearNone(Bits(geometry, FullDisk(), bitmap));
  }

  lemma BitmapsAreValid()
    ensures BitmapsValid(geometry, Volume()) && forall n, i :: !FreeBit(geometry, Volume(), n, i)
  {
    hide Bits, Clear, FullDisk;
    BitmapIsFull(1);
    BitmapIsFull(2);
    assert Volume().groups[1..] == [];
  }

  lemma HeldBlocks(name: nat, slot: Slot)
    ensures Held(geometry, Volume(), name, slot) == if name == 5 && slot.Direct? && slot.k < 12 then 4 + slot.k else 0
  {
    hide Block, FullDisk;
  }

  lemma InTableIs(block: nat)
    ensures InTable(geometry, Volume(), block) <==> block == 3
  {
    assert geometry.TableBlocks() == 1;
    if block == 3 { assert 0 <= 0 < |Volume().groups| && Volume().groups[0].inodeTable <= block < 4; }
  }

  lemma SizesAreValid()
    ensures geometry.Valid() && SizesValid(geometry, Volume())
  {
    hide Held, FullDisk;
    forall index: nat | geometry.Address(index, 0) < inode.size
      ensures index < geometry.IndexLimit() && Held(geometry, Volume(), 5, DataSlot(geometry, index)) != 0
    {
      HeldBlocks(5, DataSlot(geometry, index));
    }
  }

  /** The volume is well-formed. */
  lemma VolumeIsValid()
    ensures Valid(geometry, Volume())
  {
    hide Held, FullDisk, Within, InTable, BitmapsValid, FreeBit, SizesValid;
    BitmapsAreValid();
    SizesAreValid();
    forall b: nat | b < BLOCKS
      ensures Within(Volume().disk, 1024, b)
    {
      BlocksWithin(b);
    }
    forall name, slot
      ensures Held(geometry, Volume(), name, slot) == if name == 5 && slot.Direct? && slot.k < 12 then 4 + slot.k else 0
    {
      HeldBlocks(name, slot);
    }
    forall block
      ensures InTable(geometry, Volume(), block) <==> block == 3
    {
      InTableIs(block);
    }
  }

  /** Block 12 of the file does not exist, but the code takes the first word of the disk for its number. */
  lemma CodeDisagrees()
    ensures Valid(geometry, Volume()) && 5 in Volume().files && Volume().files[5] == inode
    ensures 12 < |Flattened(geometry, FullDisk(), inode)| && Flattened(geometry, FullDisk(), inode)[12] == 0
    ensures Resolved(geometry, FullDisk(), inode, 12) == Some(20)
    ensures 12 < geometry.IndexLimit() && Held(geometry, Volume(), 5, DataSlot(geometry, 12)) == 0
  {
    hide Valid, Flattened, FullDisk;
    VolumeIsValid();
    BlocksWithin(0);
    HeldBlocks(5, SingleRoot);
    HeldBlocks(5, Single(0));
    ResolvedExact(geometry, Volume(), 5, 12);
    FirstWord();
  }

  lemma FirstWord()
    ensures BootWord(geometry, FullDisk(), 0) == 20
  {
    BlocksWithin(0);
    var block := Block(FullDisk(), 1024, 0);
    assert block[0] == 20 && block[1] == 0 && block[2] == 0 && block[3] == 0;
  }

  /** So a write to block 12 goes to block 20, which belongs to nobody, and no block is added to the file. */
  method WriteGoesAstray() returns (outcome: BlockOutcome)
    ensures outcome == Found(20)
  {
    hide Valid, Flattened, FullDisk, Resolved, Held, Resolvable;
    CodeDisagrees();
    var fs := new Ext2FileSystem(geometry, FullDisk(), [Group(1, 2, 3, 0, 0)], 0, 0, map[5 := inode]);
    ghost var place;
    outcome, place := fs.GetBlockAddr(5, 12, true);
  }
}

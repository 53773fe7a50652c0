/** Bitmap allocation of blocks and inodes (Ext2::Allocate and Ext2::GetInode in kernel/src/Ext2.cpp). */
module Ext2Alloc {
  import opened Words
  import opened DiskBlocks
  import opened Bitmaps
  import opened Ext2Layout

  datatype Kind = InodeKind | BlockKind

  function BitmapOf(group: Group, kind: Kind): nat {
    if kind.InodeKind? then group.inodeBitmap else group.blockBitmap
  }

  function PerGroup(g: Geometry, kind: Kind): nat {
    if kind.InodeKind? then g.inodesPerGroup else g.blocksPerGroup
  }

  function FreeOf(group: Group, kind: Kind): nat {
    if kind.InodeKind? then group.freeInodes else group.freeBlocks
  }

  /** The usage bits on disk. Both kinds of bitmap are read with the length of a block bitmap. */
  function Bits(g: Geometry, disk: Disk, bitmap: nat): (bits: seq<bool>)
    requires g.Valid() && Within(disk, g.blockSize, bitmap)
    ensures |bits| == g.blocksPerGroup
  {
    BitsOf(Block(disk, g.blockSize, bitmap)[..g.blocksPerGroup / 8], false)
  }

  /** The usage bit on the disk itself: digit `i % 8` of byte `i / 8` of the bitmap's block. */
  ghost predicate UsedOnDisk(g: Geometry, disk: Disk, bitmap: nat, i: nat) {
    bitmap * g.blockSize + i / 8 < |disk| && disk[bitmap * g.blockSize + i / 8] / Pow2(i % 8) % 2 == 1
  }

  lemma BitsOnDisk(g: Geometry, disk: Disk, bitmap: nat, i: nat)
    requires g.Valid() && Within(disk, g.blockSize, bitmap) && i < g.blocksPerGroup
    ensures bitmap * g.blockSize + i / 8 < |disk| && (Bits(g, disk, bitmap)[i] <==> UsedOnDisk(g, disk, bitmap, i))
  {
    hide BitsOf, Pow2;
    var block := Block(disk, g.blockSize, bitmap);
    AddressInBlock(disk, g.blockSize, bitmap, i / 8, 1);
    var addr := bitmap * g.blockSize + i / 8;
    assert disk[addr..addr + 1][0] == disk[addr] && block[i / 8..i / 8 + 1][0] == block[i / 8];
    BitsAreDigits(block[..g.blocksPerGroup / 8], false, i);
  }

  ghost function Clear(bits: seq<bool>): nat {
    if bits == [] then 0 else (if bits[0] then 0 else 1) + Clear(bits[1..])
  }

  lemma {:induction false} ClearTaken(bits: seq<bool>, i: nat)
    requires i < |bits| && !bits[i]
    ensures Clear(bits) == Clear(bits[i := true]) + 1
  {
    if i > 0 {
      ClearTaken(bits[1..], i - 1);
      assert bits[i := true][1..] == bits[1..][i - 1 := true];
    } else {
      assert bits[0 := true][1..] == bits[1..];
    }
  }

  lemma {:induction false} ClearNone(bits: seq<bool>)
    ensures Clear(bits) == 0 <==> forall i :: 0 <= i < |bits| ==> bits[i]
  {
    if bits != [] {
      ClearNone(bits[1..]);
      assert forall i :: 1 <= i < |bits| ==> bits[i] == bits[1..][i - 1];
    }
  }

  ghost function Total(groups: seq<Group>, kind: Kind): nat {
    if groups == [] then 0 else FreeOf(groups[0], kind) + Total(groups[1..], kind)
  }

  lemma {:induction false} TotalUpdated(groups: seq<Group>, i: nat, group: Group, kind: Kind)
    requires i < |groups|
    ensures Total(groups[i := group], kind) + FreeOf(groups[i], kind) == Total(groups, kind) + FreeOf(group, kind)
  {
    if i > 0 {
      TotalUpdated(groups[1..], i - 1, group, kind);
      assert groups[i := group][1..] == groups[1..][i - 1 := group];
    } else {
      assert groups[0 := group][1..] == groups[1..];
    }
  }

  lemma {:induction false} TotalZero(groups: seq<Group>, kind: Kind)
    ensures Total(groups, kind) == 0 <==> forall i :: 0 <= i < |groups| ==> FreeOf(groups[i], kind) == 0
  {
    if groups != [] {
      TotalZero(groups[1..], kind);
      assert forall i :: 1 <= i < |groups| ==> groups[i] == groups[1..][i - 1];
    }
  }

  /** The bitmaps lie on the disk, in different blocks, and the counters count the clear bits. */
  ghost predicate BitmapsValid(g: Geometry, s: Store) {
    && g.Valid()
    && (forall i, kind :: 0 <= i < |s.groups| ==> Within(s.disk, g.blockSize, BitmapOf(s.groups[i], kind)))
    && (forall i, j, kind, kind' :: 0 <= i < |s.groups| && 0 <= j < |s.groups| && (i != j || kind != kind') ==>
          BitmapOf(s.groups[i], kind) != BitmapOf(s.groups[j], kind'))
    && (forall i, kind :: 0 <= i < |s.groups| ==>
          FreeOf(s.groups[i], kind) == Clear(Bits(g, s.disk, BitmapOf(s.groups[i], kind))))
    && s.freeBlocks == Total(s.groups, BlockKind) && s.freeInodes == Total(s.groups, InodeKind)
  }

  /** The store after bit `i` of group `n` was taken. */
  function Taken(g: Geometry, s: Store, kind: Kind, n: nat, i: nat): Store
    requires g.Valid() && n < |s.groups| && i < g.blocksPerGroup
    requires Within(s.disk, g.blockSize, BitmapOf(s.groups[n], kind))
    requires FreeOf(s.groups[n], kind) > 0
  {
    var group := s.groups[n];
    var bitmap := BitmapOf(group, kind);
    var size := g.blocksPerGroup / 8;
    var bytes := WithBit(Block(s.disk, g.blockSize, bitmap)[..size], i, false, true);
    AddressInBlock(s.disk, g.blockSize, bitmap, 0, size);
    var disk := Splice(s.disk, bitmap * g.blockSize, bytes);
    if kind.InodeKind? then
      s.(disk := disk, groups := s.groups[n := group.(freeInodes := group.freeInodes - 1)],
         freeInodes := if s.freeInodes == 0 then 0 else s.freeInodes - 1)
    else
      s.(disk := disk, groups := s.groups[n := group.(freeBlocks := group.freeBlocks - 1)],
         freeBlocks := if s.freeBlocks == 0 then 0 else s.freeBlocks - 1)
  }

  /** Taking a bit writes one block; there it sets that bit and keeps every other. */
  lemma TakenDisk(g: Geometry, s: Store, kind: Kind, n: nat, i: nat, block: nat)
    requires g.Valid() && n < |s.groups| && i < g.blocksPerGroup && FreeOf(s.groups[n], kind) > 0
    requires Within(s.disk, g.blockSize, BitmapOf(s.groups[n], kind)) && Within(s.disk, g.blockSize, block)
    ensures var s' := Taken(g, s, kind, n, i);
            var bitmap := BitmapOf(s.groups[n], kind);
            && |s'.disk| == |s.disk| && Within(s'.disk, g.blockSize, block)
            && (block != bitmap ==> Block(s'.disk, g.blockSize, block) == Block(s.disk, g.blockSize, block))
            && (block == bitmap ==> Bits(g, s'.disk, block) == Bits(g, s.disk, block)[i := true])
  {
    hide BitsOf, WithBit;
    var bitmap := BitmapOf(s.groups[n], kind);
    var size := g.blocksPerGroup / 8;
    var old' := Block(s.disk, g.blockSize, bitmap);
    var bytes := WithBit(old'[..size], i, false, true);
    WriteInBlock(s.disk, g.blockSize, bitmap, 0, bytes, block);
    WithBitUpdates(old'[..size], i, false, true);
    assert block == bitmap ==> Block(Taken(g, s, kind, n, i).disk, g.blockSize, block)[..size] == bytes;
  }

  /** Allocation keeps the counters equal to the numbers of clear bits. */
  lemma TakenKeepsBitmaps(g: Geometry, s: Store, kind: Kind, n: nat, i: nat)
    requires BitmapsValid(g, s) && n < |s.groups| && i < g.blocksPerGroup
    requires !Bits(g, s.disk, BitmapOf(s.groups[n], kind))[i]
    ensures FreeOf(s.groups[n], kind) > 0
    ensures BitmapsValid(g, Taken(g, s, kind, n, i))
  {
    hide Bits, Clear, Total;
    var bitmap := BitmapOf(s.groups[n], kind);
    ClearTaken(Bits(g, s.disk, bitmap), i);
    var s' := Taken(g, s, kind, n, i);
    forall m, other | 0 <= m < |s.groups|
      ensures BitmapOf(s'.groups[m], other) == BitmapOf(s.groups[m], other)
      ensures Within(s'.disk, g.blockSize, BitmapOf(s'.groups[m], other))
      ensures FreeOf(s'.groups[m], other) == Clear(Bits(g, s'.disk, BitmapOf(s'.groups[m], other)))
    {
      TakenDisk(g, s, kind, n, i, BitmapOf(s.groups[m], other));
      SameBits(g, s.disk, s'.disk, BitmapOf(s.groups[m], other));
    }
    TotalUpdated(s.groups, n, s'.groups[n], BlockKind);
    TotalUpdated(s.groups, n, s'.groups[n], InodeKind);
    TotalCovers(s.groups, n, kind);
  }

  lemma SameBits(g: Geometry, disk: Disk, disk': Disk, bitmap: nat)
    requires g.Valid() && Within(disk, g.blockSize, bitmap) && Within(disk', g.blockSize, bitmap)
    ensures Block(disk, g.blockSize, bitmap) == Block(disk', g.blockSize, bitmap) ==>
              Bits(g, disk, bitmap) == Bits(g, disk', bitmap)
  {
  }

  lemma {:induction false} TotalCovers(groups: seq<Group>, i: nat, kind: Kind)
    requires i < |groups|
    ensures FreeOf(groups[i], kind) <= Total(groups, kind)
  {
    if i > 0 { TotalCovers(groups[1..], i - 1, kind); }
  }

  // ---- Numbers ----

  /** The first number of a group. */
  function GroupBase(g: Geometry, kind: Kind, n: nat): nat {
    n * PerGroup(g, kind)
  }

  /** The number Allocate returns for bit `i` of group `n`; inode numbers start at 1. */
  function Number(g: Geometry, kind: Kind, n: nat, i: nat): nat {
    GroupBase(g, kind, n) + i + (if kind.InodeKind? then 1 else 0)
  }

  /** GetInode's split of an inode number into its group and its index in the group's inode table. */
  function InodePlace(g: Geometry, inodeNum: nat): (nat, nat)
    requires g.Valid() && inodeNum > 0
  {
    ((inodeNum - 1) / g.inodesPerGroup, (inodeNum - 1) % g.inodesPerGroup)
  }

  /** GetInode finds the place Allocate marked exactly when the bit is one of the group's inodes:
      Allocate scans as many bits as there are blocks in a group, which may be more. */
  lemma InodePlaceExact(g: Geometry, n: nat, i: nat)
    requires g.Valid()
    ensures InodePlace(g, Number(g, InodeKind, n, i)) == (n, i) <==> i < g.inodesPerGroup
  {
    var p := g.inodesPerGroup;
    if i < p {
      QuotientUnique(p, n, i, (n * p + i) / p, (n * p + i) % p);
    }
  }

  /** A block number is counted from the first block of the disk, group after group. */
  lemma BlockPlace(g: Geometry, n: nat, i: nat)
    requires g.Valid() && i < g.blocksPerGroup
    ensures Number(g, BlockKind, n, i) / g.blocksPerGroup == n && Number(g, BlockKind, n, i) % g.blocksPerGroup == i
  {
    var p := g.blocksPerGroup;
    QuotientUnique(p, n, i, (n * p + i) / p, (n * p + i) % p);
  }

  lemma QuotientUnique(p: nat, q: nat, r: nat, q': nat, r': nat)
    requires p > 0 && r < p && r' < p && q * p + r == q' * p + r'
    ensures q == q' && r == r'
  {
    if q < q' { BlocksApart(p, q, q'); }
    if q' < q { BlocksApart(p, q', q); }
  }

  lemma BlockNumberUnique(g: Geometry, n: nat, i: nat, n': nat, i': nat)
    requires g.Valid() && i < g.blocksPerGroup && i' < g.blocksPerGroup
    ensures Number(g, BlockKind, n, i) == Number(g, BlockKind, n', i') ==> n == n' && i == i'
  {
    if Number(g, BlockKind, n, i) == Number(g, BlockKind, n', i') {
      QuotientUnique(g.blocksPerGroup, n, i, n', i');
    }
  }
}

/** A byte-addressed disk seen as numbered blocks (kernel/src/RAMDisk.cpp and the address arithmetic of
    kernel/src/Ext2.cpp). */
module DiskBlocks {
  import opened Words

  type Disk = seq<byte>

  /** `data` written over `s` from `at` on. */
  function Splice<T>(s: seq<T>, at: nat, data: seq<T>): (r: seq<T>)
    requires at + |data| <= |s|
    ensures |r| == |s|
    ensures forall k :: 0 <= k < |s| ==> r[k] == if at <= k < at + |data| then data[k - at] else s[k]
  {
    s[..at] + data + s[at + |data|..]
  }

  predicate Within(disk: Disk, blockSize: nat, block: nat) {
    (block + 1) * blockSize <= |disk|
  }

  function Block(disk: Disk, blockSize: nat, block: nat): (r: seq<byte>)
    requires Within(disk, blockSize, block)
    ensures |r| == blockSize
  {
    BlockBounds(blockSize, block);
    disk[block * blockSize..(block + 1) * blockSize]
  }

  lemma BlockBounds(blockSize: nat, block: nat)
    ensures (block + 1) * blockSize == block * blockSize + blockSize
  {
  }

  lemma BlocksApart(blockSize: nat, a: nat, b: nat)
    requires a < b
    ensures a * blockSize + blockSize <= b * blockSize
  {
    assert b * blockSize == a * blockSize + (b - a) * blockSize;
    assert (b - a) * blockSize == blockSize + (b - a - 1) * blockSize;
  }

  lemma SliceOfSlice<T>(s: seq<T>, base: nat, length: nat, offset: nat, count: nat)
    requires base + length <= |s| && offset + count <= length
    ensures s[base..base + length][offset..offset + count] == s[base + offset..base + offset + count]
  {
    var inner := s[base..base + length];
    assert forall i :: 0 <= i < length ==> inner[i] == s[base + i];
    var outer := inner[offset..offset + count];
    assert forall i :: 0 <= i < count ==> outer[i] == inner[offset + i];
  }

  /** The address `block * blockSize + offset` and everything up to the end of the block is on the disk. */
  lemma AddressInBlock(disk: Disk, blockSize: nat, block: nat, offset: nat, count: nat)
    requires Within(disk, blockSize, block) && offset + count <= blockSize
    ensures block * blockSize + offset + count <= |disk|
    ensures disk[block * blockSize + offset..block * blockSize + offset + count]
         == Block(disk, blockSize, block)[offset..offset + count]
  {
    BlockBounds(blockSize, block);
    var base := block * blockSize;
    assert Block(disk, blockSize, block) == disk[base..base + blockSize];
    SliceOfSlice(disk, base, blockSize, offset, count);
  }

  /** A write inside one block changes that block accordingly and no other block. */
  lemma WriteInBlock(disk: Disk, blockSize: nat, block: nat, offset: nat, data: seq<byte>, other: nat)
    requires Within(disk, blockSize, block) && Within(disk, blockSize, other) && offset + |data| <= blockSize
    ensures block * blockSize + offset + |data| <= |disk|
    ensures var disk' := Splice(disk, block * blockSize + offset, data);
            && Within(disk', blockSize, other)
            && Block(disk', blockSize, other) ==
               if other == block then Splice(Block(disk, blockSize, block), offset, data)
               else Block(disk, blockSize, other)
  {
    BlockBounds(blockSize, block);
    BlockBounds(blockSize, other);
    var base, base' := block * blockSize, other * blockSize;
    assert (other + 1) * blockSize == base' + blockSize;
    if block < other { BlocksApart(blockSize, block, other); }
    if other < block { BlocksApart(blockSize, other, block); }
    var disk' := Splice(disk, base + offset, data);
    if other == block {
      assert Block(disk', blockSize, other) == Splice(Block(disk, blockSize, block), offset, data);
    } else {
      assert base + blockSize <= base' || base' + blockSize <= base;
      assert Block(disk', blockSize, other) == Block(disk, blockSize, other);
    }
  }

  /** A little-endian 32-bit word. */
  function U32(s: seq<byte>, at: nat): (r: nat)
    requires at + 4 <= |s|
    ensures r < 0x1_0000_0000
  {
    var b0: nat, b1: nat, b2: nat, b3: nat := s[at], s[at + 1], s[at + 2], s[at + 3];
    b0 + 0x100 * b1 + 0x1_0000 * b2 + 0x100_0000 * b3
  }
}

/** The on-disk layout kernel/src/Ext2.cpp works on, after "The Second Extended File System: Internal Layout"
    (sections "Block Bitmap" and "Inode Table"): inodes, their pointer trees and the block groups. */
module Ext2Layout {
  import opened DiskBlocks

  /** The bytes of struct Inode, which start every record of an inode table. */
  const INODE_RECORD: nat := 128

  /** Superblock constants. */
  datatype Geometry = Geometry(blockSize: nat, blocksPerGroup: nat, inodesPerGroup: nat, inodeSize: nat) {
    ghost predicate Valid() {
      && blockSize > 0 && blockSize % 4 == 0
      && 0 < blocksPerGroup <= 8 * blockSize && blocksPerGroup % 8 == 0
      && inodesPerGroup > 0 && inodeSize >= INODE_RECORD
    }

    function PointersPerBlock(): nat {
      blockSize / 4
    }

    /** The block a byte position falls into, and where inside it. */
    function IndexOf(position: nat): nat {
      if blockSize == 0 then 0 else position / blockSize
    }

    function OffsetOf(position: nat): (r: nat)
      ensures blockSize > 0 ==> r < blockSize
    {
      if blockSize == 0 then 0 else position % blockSize
    }

    /** The disk address of a byte of a block. */
    function Address(block: nat, offset: nat): nat {
      block * blockSize + offset
    }

    /** The blocks of a group's inode table. */
    function TableBlocks(): nat {
      if blockSize == 0 then 0 else (inodesPerGroup * inodeSize + blockSize - 1) / blockSize
    }

    /** Block indexes GetBlockAddr can resolve: its double-indirect range stops one pointer block short. */
    function IndexLimit(): nat {
      12 + PointersPerBlock() * PointersPerBlock()
    }
  }

  /** The part of an inode the code uses; `size` is both size0 and the vnode's fileSize, which change together. */
  datatype Inode = Inode(size: nat, direct: seq<nat>, single: nat, double: nat)

  datatype Group = Group(blockBitmap: nat, inodeBitmap: nat, inodeTable: nat, freeBlocks: nat, freeInodes: nat)

  /** The disk with what the kernel caches of it: group descriptors, superblock counters and inodes. */
  datatype Store = Store(disk: Disk, groups: seq<Group>, freeBlocks: nat, freeInodes: nat, files: map<nat, Inode>)

  // ---- The pointer tree of an inode ----

  /** Every place of the tree that holds a block number. */
  datatype Slot = Direct(k: nat) | SingleRoot | Single(k: nat) | DoubleRoot | DoubleNode(j: nat) | Leaf(j: nat, k: nat)

  predicate ValidSlot(g: Geometry, slot: Slot) {
    match slot
    case Direct(k) => k < 12
    case SingleRoot => true
    case Single(k) => k < g.PointersPerBlock()
    case DoubleRoot => true
    case DoubleNode(j) => j < g.PointersPerBlock()
    case Leaf(j, k) => j < g.PointersPerBlock() && k < g.PointersPerBlock()
  }

  /** Pointer `k` of a pointer block; an absent block holds no pointers. */
  function Pointer(g: Geometry, disk: Disk, block: nat, k: nat): nat
    requires k < g.PointersPerBlock()
  {
    if block != 0 && Within(disk, g.blockSize, block) then U32(Block(disk, g.blockSize, block), 4 * k) else 0
  }

  /** The block number in a slot, 0 when there is none. */
  function At(g: Geometry, disk: Disk, f: Inode, slot: Slot): nat
    requires ValidSlot(g, slot) && |f.direct| == 12
  {
    match slot
    case Direct(k) => f.direct[k]
    case SingleRoot => f.single
    case Single(k) => Pointer(g, disk, f.single, k)
    case DoubleRoot => f.double
    case DoubleNode(j) => Pointer(g, disk, f.double, j)
    case Leaf(j, k) => Pointer(g, disk, Pointer(g, disk, f.double, j), k)
  }

  /** The slot holding the pointer to data block `index`. */
  function DataSlot(g: Geometry, index: nat): (slot: Slot)
    requires g.Valid() && index < g.IndexLimit()
    ensures ValidSlot(g, slot)
  {
    var p := g.PointersPerBlock();
    if index < 12 then Direct(index)
    else if index < 12 + p then Single(index - 12)
    else
      DoubleIndexInRange(p, index - 12 - p);
      Leaf((index - 12 - p) / p, (index - 12 - p) % p)
  }

  lemma DoubleIndexInRange(p: nat, n: nat)
    requires p > 0 && n + p < p * p
    ensures n / p < p && n % p < p
  {
    var q := n / p;
    assert n == p * q + n % p;
    ProductGrows(p, q);
  }

  lemma ProductGrows(p: nat, q: nat)
    ensures q >= p ==> p * q >= p * p
  {
    if q >= p { assert p * q == p * p + p * (q - p); }
  }

  /** Different block indexes go through different slots. */
  lemma DataSlotsDistinct(g: Geometry, i: nat, j: nat)
    requires g.Valid() && i < g.IndexLimit() && j < g.IndexLimit() && i != j
    ensures DataSlot(g, i) != DataSlot(g, j)
  {
    var p := g.PointersPerBlock();
    if i >= 12 + p && j >= 12 + p {
      var m, n := i - 12 - p, j - 12 - p;
      assert m == p * (m / p) + m % p && n == p * (n / p) + n % p;
    }
  }

  // ---- The flattened tree: the specification of block resolution ----

  /** The pointers of one pointer block, in order. */
  ghost function PointerBlock(g: Geometry, disk: Disk, block: nat): (r: seq<nat>)
    ensures |r| == g.PointersPerBlock()
  {
    seq(g.PointersPerBlock(), k requires 0 <= k < g.PointersPerBlock() => Pointer(g, disk, block, k))
  }

  ghost function LeafBlocks(g: Geometry, disk: Disk, nodes: seq<nat>): (r: seq<nat>)
    ensures |r| == |nodes| * g.PointersPerBlock()
  {
    if nodes == [] then []
    else
      assert |nodes| * g.PointersPerBlock() == (|nodes| - 1) * g.PointersPerBlock() + g.PointersPerBlock();
      LeafBlocks(g, disk, nodes[..|nodes| - 1]) + PointerBlock(g, disk, nodes[|nodes| - 1])
  }

  /** The data blocks of an inode in file order, read off its whole `i_block` array. */
  ghost function Flattened(g: Geometry, disk: Disk, f: Inode): seq<nat> {
    f.direct + PointerBlock(g, disk, f.single) + LeafBlocks(g, disk, PointerBlock(g, disk, f.double))
  }

  lemma {:induction false} LeafBlockAt(g: Geometry, disk: Disk, nodes: seq<nat>, j: nat, k: nat)
    requires j < |nodes| && k < g.PointersPerBlock()
    ensures j * g.PointersPerBlock() + k < |LeafBlocks(g, disk, nodes)|
    ensures LeafBlocks(g, disk, nodes)[j * g.PointersPerBlock() + k] == Pointer(g, disk, nodes[j], k)
  {
    var p, rest := g.PointersPerBlock(), nodes[..|nodes| - 1];
    assert |nodes| * p == (|nodes| - 1) * p + p;
    if j < |nodes| - 1 {
      LeafBlockAt(g, disk, rest, j, k);
    } else {
      assert |LeafBlocks(g, disk, rest)| == j * p;
    }
  }

  /** Resolution is exactly indexing into the flattened tree, for every resolvable index. */
  lemma FlattenedTail(g: Geometry, disk: Disk, f: Inode, n: nat)
    requires |f.direct| == 12 && n < g.PointersPerBlock() * g.PointersPerBlock()
    ensures 12 + g.PointersPerBlock() + n < |Flattened(g, disk, f)|
    ensures Flattened(g, disk, f)[12 + g.PointersPerBlock() + n] ==
            LeafBlocks(g, disk, PointerBlock(g, disk, f.double))[n]
  {
    hide LeafBlocks, PointerBlock;
  }

  lemma SlotIsFlattened(g: Geometry, disk: Disk, f: Inode, index: nat)
    requires g.Valid() && |f.direct| == 12 && index < g.IndexLimit()
    ensures index < |Flattened(g, disk, f)|
    ensures At(g, disk, f, DataSlot(g, index)) == Flattened(g, disk, f)[index]
  {
    var p := g.PointersPerBlock();
    if index >= 12 + p {
      hide LeafBlocks, Flattened, Pointer;
      var n := index - 12 - p;
      DoubleIndexInRange(p, n);
      LeafBlockAt(g, disk, PointerBlock(g, disk, f.double), n / p, n % p);
      assert n == (n / p) * p + n % p;
      FlattenedTail(g, disk, f, n);
    } else {
      hide LeafBlocks, Pointer;
    }
  }

  // ---- Only pointer blocks matter ----

  ghost predicate SameBlock(g: Geometry, disk: Disk, disk': Disk, block: nat) {
    && (Within(disk, g.blockSize, block) <==> Within(disk', g.blockSize, block))
    && (Within(disk, g.blockSize, block) ==> Block(disk, g.blockSize, block) == Block(disk', g.blockSize, block))
  }

  /** Slots of blocks that themselves hold pointers. */
  predicate PointerSlot(slot: Slot) {
    slot.SingleRoot? || slot.DoubleRoot? || slot.DoubleNode?
  }

  lemma AtFrame(g: Geometry, disk: Disk, disk': Disk, f: Inode, slot: Slot)
    requires ValidSlot(g, slot) && |f.direct| == 12
    requires forall s: Slot :: ValidSlot(g, s) && PointerSlot(s) && At(g, disk, f, s) != 0 ==>
               SameBlock(g, disk, disk', At(g, disk, f, s))
    ensures At(g, disk', f, slot) == At(g, disk, f, slot)
  {
    var single, double := SingleRoot, DoubleRoot;
    assert f.single != 0 ==> SameBlock(g, disk, disk', At(g, disk, f, single));
    assert f.double != 0 ==> SameBlock(g, disk, disk', At(g, disk, f, double));
    if slot.Leaf? {
      var node := DoubleNode(slot.j);
      assert At(g, disk, f, node) != 0 ==> SameBlock(g, disk, disk', At(g, disk, f, node));
    }
  }
}

/** The block-splitting write loop, step by step, and the splice it amounts to. */
module Ext2Writes {
  import opened Words
  import opened DiskBlocks
  import opened Ext2Layout
  import opened Ext2Alloc
  import opened Ext2Files

  /** The contents after writing `data` at `at`, which is at most the old length. */
  function Spliced(old': seq<byte>, at: nat, data: seq<byte>): (r: seq<byte>)
    requires at <= |old'|
    ensures |r| == if at + |data| <= |old'| then |old'| else at + |data|
    ensures forall k :: 0 <= k < |r| ==> r[k] == if at <= k < at + |data| then data[k - at] else old'[k]
  {
    old'[..at] + data + (if at + |data| <= |old'| then old'[at + |data|..] else [])
  }

  // ---- Positions ----

  lemma Split(g: Geometry, k: nat)
    requires g.blockSize > 0
    ensures k == g.Address(g.IndexOf(k), g.OffsetOf(k)) && g.OffsetOf(k) < g.blockSize
  {
  }

  lemma SplitUnique(g: Geometry, index: nat, offset: nat)
    requires offset < g.blockSize
    ensures g.IndexOf(g.Address(index, offset)) == index && g.OffsetOf(g.Address(index, offset)) == offset
  {
    var k := g.Address(index, offset);
    Split(g, k);
    QuotientUnique(g.blockSize, index, offset, g.IndexOf(k), g.OffsetOf(k));
  }

  /** A chunk that stays inside its block covers exactly the positions from `at` to `at + count`. */
  lemma ChunkCovers(g: Geometry, at: nat, count: nat, k: nat)
    requires g.blockSize > 0 && g.OffsetOf(at) + count <= g.blockSize
    ensures Covers(g, g.IndexOf(at), g.OffsetOf(at), count, k) <==> at <= k < at + count
  {
    Split(g, at);
    Split(g, k);
    if at <= k < at + count {
      SplitUnique(g, g.IndexOf(at), g.OffsetOf(at) + (k - at));
    }
  }

  lemma IndexMonotone(g: Geometry, j: nat, k: nat)
    requires g.blockSize > 0 && j <= k
    ensures g.IndexOf(j) <= g.IndexOf(k)
  {
    Split(g, j);
    Split(g, k);
    if g.IndexOf(k) < g.IndexOf(j) { BlocksApart(g.blockSize, g.IndexOf(k), g.IndexOf(j)); }
  }

  // ---- Missing blocks ----

  /** Direct pointers still missing among the block indexes `lo .. hi`. */
  ghost function Missing(f: Inode, lo: nat, hi: nat): nat
    decreases hi - lo
  {
    if lo >= hi then 0 else (if lo < |f.direct| && f.direct[lo] == 0 then 1 else 0) + Missing(f, lo + 1, hi)
  }

  lemma {:induction false} MissingFilled(f: Inode, f': Inode, index: nat, lo: nat, hi: nat)
    requires index < |f.direct| && |f'.direct| == |f.direct| && f.direct[index] == 0 && f'.direct[index] != 0
    requires forall k :: 0 <= k < |f.direct| && k != index ==> f'.direct[k] == f.direct[k]
    ensures Missing(f, lo, hi) == Missing(f', lo, hi) + (if lo <= index < hi then 1 else 0)
    decreases hi - lo
  {
    if lo < hi { MissingFilled(f, f', index, lo + 1, hi); }
  }

  /** The bytes from `from` up to `end` can still be written: beyond the direct blocks everything is present, and there
      are enough free blocks for the missing direct ones. */
  ghost predicate Affordable(g: Geometry, s: Store, name: nat, from: nat, end: nat, spare: nat)
    requires g.Valid() && name in s.files
  {
    && spare <= s.freeBlocks
    && (from < end ==>
          && (forall index: nat ::
                g.IndexOf(from) <= index <= g.IndexOf(end - 1) && index >= 12 ==> Present(g, s, name, index))
          && Missing(s.files[name], g.IndexOf(from), g.IndexOf(end - 1) + 1) + spare <= s.freeBlocks)
  }

  // ---- Progress of the loop ----

  /** Nothing but direct pointers of `name` changed in the inodes. */
  ghost predicate SameInodes(s0: Store, s: Store, name: nat) {
    && name in s0.files && name in s.files && s.files.Keys == s0.files.Keys
    && s.files[name].size == s0.files[name].size
    && forall name' :: name' in s0.files && name' != name ==> s.files[name'] == s0.files[name']
  }

  ghost predicate PresenceKept(g: Geometry, s0: Store, s: Store)
    requires g.Valid()
  {
    forall name, index :: Present(g, s0, name, index) ==> Present(g, s, name, index)
  }

  /** Outside the `done` bytes at `at` of `name`, every present byte of every file is as before. */
  ghost predicate OthersKept(g: Geometry, s0: Store, s: Store, name: nat, at: nat, done: nat)
    requires g.Valid()
  {
    forall name', k: nat :: Present(g, s0, name', g.IndexOf(k)) && !(name' == name && at <= k < at + done) ==>
      ByteAt(g, s, name', k) == ByteAt(g, s0, name', k)
  }

  ghost predicate BytesWritten(g: Geometry, s: Store, name: nat, at: nat, data: seq<byte>, done: nat)
    requires g.Valid() && done <= |data|
  {
    forall k: nat :: at <= k < at + done ==> Present(g, s, name, g.IndexOf(k)) && ByteAt(g, s, name, k) == data[k - at]
  }

  /** `s` differs from `s0` by the first `done` bytes of `data`, written at `at` of file `name`. */
  ghost predicate Progress(g: Geometry, s0: Store, s: Store, name: nat, at: nat, data: seq<byte>, done: nat) {
    && g.Valid() && done <= |data| && Valid(g, s) && SameInodes(s0, s, name)
    && PresenceKept(g, s0, s) && OthersKept(g, s0, s, name, at, done) && BytesWritten(g, s, name, at, data, done)
  }

  lemma NoProgressYet(g: Geometry, s: Store, name: nat, at: nat, data: seq<byte>)
    requires Valid(g, s) && name in s.files
    ensures Progress(g, s, s, name, at, data, 0)
  {
    hide Valid, Present, ByteAt;
    assert g.Valid() by { ValidGeometry(g, s); }
  }

  /** The chunk's effect on one byte, by position. */
  ghost predicate ChunkEffect(g: Geometry, s: Store, s': Store, name: nat, from: nat, chunk: seq<byte>)
    requires g.Valid()
  {
    forall name', k: nat :: Present(g, s, name', g.IndexOf(k)) ==>
      ByteAt(g, s', name', k) ==
      if name' == name && from <= k < from + |chunk| then chunk[k - from] else ByteAt(g, s, name', k)
  }

  lemma ChunkWrite(g: Geometry, s: Store, name: nat, from: nat, chunk: seq<byte>)
    requires Valid(g, s) && g.Valid() && Present(g, s, name, g.IndexOf(from))
    requires g.OffsetOf(from) + |chunk| <= g.blockSize
    ensures var addr := g.Address(Held(g, s, name, DataSlot(g, g.IndexOf(from))), g.OffsetOf(from));
            && addr + |chunk| <= |s.disk|
            && (var s' := DiskWritten(s, addr, chunk);
                && Valid(g, s') && s'.files == s.files && s'.freeBlocks == s.freeBlocks
                && ChunkEffect(g, s, s', name, from, chunk)
                && forall name', index :: Present(g, s', name', index) == Present(g, s, name', index))
  {
    hide Held, DataSlot, Valid, Geometry.IndexOf, Geometry.OffsetOf, Geometry.Address, ByteAt, BitmapsValid;
    var index, offset := g.IndexOf(from), g.OffsetOf(from);
    DataWrite(g, s, name, index, offset, chunk);
    forall k: nat
      ensures Covers(g, index, offset, |chunk|, k) <==> from <= k < from + |chunk|
      ensures Covers(g, index, offset, |chunk|, k) ==> k - from == g.OffsetOf(k) - offset
    {
      ChunkCovers(g, from, |chunk|, k);
      if Covers(g, index, offset, |chunk|, k) { CoveredOffset(g, from, |chunk|, k); }
    }
  }

  /** A chunk was written into its present block. */
  lemma ChunkWritten(g: Geometry, s0: Store, s: Store, s': Store, name: nat, at: nat, data: seq<byte>, done: nat,
                     count: nat)
    requires Progress(g, s0, s, name, at, data, done) && done + count <= |data|
    requires Valid(g, s') && s'.files == s.files && ChunkEffect(g, s, s', name, at + done, data[done..done + count])
    requires forall name', index :: Present(g, s', name', index) == Present(g, s, name', index)
    requires count > 0 ==> forall k: nat :: at + done <= k < at + done + count ==> g.IndexOf(k) == g.IndexOf(at + done)
    requires Present(g, s, name, g.IndexOf(at + done))
    ensures Progress(g, s0, s', name, at, data, done + count)
  {
    hide Present, ByteAt, Valid, Geometry.IndexOf;
    var chunk := data[done..done + count];
    forall k: nat | at <= k < at + done + count
      ensures Present(g, s', name, g.IndexOf(k)) && ByteAt(g, s', name, k) == data[k - at]
    {
      if k >= at + done { assert chunk[k - (at + done)] == data[k - at]; }
    }
  }

  lemma CoveredOffset(g: Geometry, at: nat, count: nat, k: nat)
    requires g.blockSize > 0 && Covers(g, g.IndexOf(at), g.OffsetOf(at), count, k)
    ensures k - at == g.OffsetOf(k) - g.OffsetOf(at)
  {
    Split(g, at);
    Split(g, k);
  }

  /** A missing direct block was added before its chunk is written. */
  lemma BlockProgress(g: Geometry, s0: Store, s: Store, s': Store, name: nat, at: nat, data: seq<byte>, done: nat,
                      slot: Slot, b: nat)
    requires Progress(g, s0, s, name, at, data, done)
    requires BitmapsValid(g, s') && Added(g, s, s', name, slot, b) && SameInodes(s, s', name)
    ensures Progress(g, s0, s', name, at, data, done)
  {
    AddedValid(g, s, s', name, slot, b);
    hide Held, DataSlot, Valid, Geometry.IndexOf, ByteAt, Added, BitmapsValid, Present;
    forall name', index | Present(g, s, name', index)
      ensures Present(g, s', name', index)
    {
      AddedPresent(g, s, s', name, slot, b, name', index);
    }
    forall name', k: nat | Present(g, s, name', g.IndexOf(k))
      ensures ByteAt(g, s', name', k) == ByteAt(g, s, name', k)
    {
      AddedByte(g, s, s', name, slot, b, name', k);
    }
  }

  lemma AddedPresent(g: Geometry, s: Store, s': Store, name: nat, slot: Slot, b: nat, name': nat, index: nat)
    requires g.Valid() && BitmapsValid(g, s) && BitmapsValid(g, s') && Added(g, s, s', name, slot, b)
    requires Present(g, s, name', index)
    ensures Present(g, s', name', index)
  {
    hide Held, DataSlot, BitmapsValid, FreeBit, NoBitmap;
  }

  lemma TwelveResolve(g: Geometry)
    requires g.Valid()
    ensures g.IndexLimit() > 12
  {
    assert g.PointersPerBlock() > 0;
    ProductGrows(1, g.PointersPerBlock());
  }

  lemma MissingStep(f: Inode, lo: nat, hi: nat)
    requires lo < hi
    ensures Missing(f, lo, hi) == (if lo < |f.direct| && f.direct[lo] == 0 then 1 else 0) + Missing(f, lo + 1, hi)
  {
  }

  lemma {:induction false} MissingShrinks(f: Inode, lo: nat, lo': nat, hi: nat)
    requires lo <= lo'
    ensures Missing(f, lo', hi) <= Missing(f, lo, hi)
    decreases if lo <= lo' then lo' as int - lo as int else 0
  {
    if lo < lo' { MissingShrinks(f, lo + 1, lo', hi); }
  }

  /** The loop's next block can be resolved or added. */
  lemma ReadyForChunk(g: Geometry, s: Store, name: nat, from: nat, end: nat, spare: nat)
    requires Valid(g, s) && g.Valid() && name in s.files && from < end && Affordable(g, s, name, from, end, spare)
    ensures g.IndexOf(from) < g.IndexLimit()
    ensures g.IndexOf(from) >= 12 ==> Present(g, s, name, g.IndexOf(from))
    ensures |s.files[name].direct| == 12
    ensures g.IndexOf(from) < 12 && s.files[name].direct[g.IndexOf(from)] == 0 ==> s.freeBlocks > 0
    ensures !Present(g, s, name, g.IndexOf(from)) ==> g.IndexOf(from) < 12 && s.files[name].direct[g.IndexOf(from)] == 0
  {
    hide Valid, Geometry.IndexOf;
    ValidGeometry(g, s);
    IndexMonotone(g, from, end - 1);
    TwelveResolve(g);
    if g.IndexOf(from) >= 12 { assert Present(g, s, name, g.IndexOf(from)); }
    MissingStep(s.files[name], g.IndexOf(from), g.IndexOf(end - 1) + 1);
  }

  /** Adding the missing block uses up one free block and one missing one. */
  lemma StillAffordable(g: Geometry, s: Store, s': Store, name: nat, index: nat, b: nat, from: nat, end: nat,
                        spare: nat)
    requires g.Valid() && name in s.files && from < end && Affordable(g, s, name, from, end, spare)
    requires index == g.IndexOf(from) < 12
    requires name in s'.files && |s.files[name].direct| == 12 && s.files[name].direct[index] == 0 && b != 0
    requires s'.files[name] == s.files[name].(direct := s.files[name].direct[index := b])
    requires s'.freeBlocks + 1 == s.freeBlocks
    requires PresenceKept(g, s, s')
    ensures Affordable(g, s', name, from, end, spare)
  {
    hide Geometry.IndexOf, Present, Missing;
    IndexMonotone(g, from, end - 1);
    MissingFilled(s.files[name], s'.files[name], index, index, g.IndexOf(end - 1) + 1);
  }

  /** Everything the loop needs once the chunk's block is there. */
  lemma ChunkBlockAdded(g: Geometry, s0: Store, s: Store, m: Store, name: nat, at: nat, data: seq<byte>, done: nat,
                        end: nat, n: nat, i: nat, spare: nat)
    requires Progress(g, s0, s, name, at, data, done) && done < |data| && at + |data| <= end && g.Valid()
    requires name in s.files
    requires Affordable(g, s, name, at + done, end, spare)
    requires Valid(g, s) && g.IndexOf(at + done) < 12 && |s.files[name].direct| == 12
    requires s.files[name].direct[g.IndexOf(at + done)] == 0
    requires FreeBit(g, s, n, i) && m == BlockAdded(g, s, name, g.IndexOf(at + done), n, i)
    ensures Progress(g, s0, m, name, at, data, done) && name in m.files && Affordable(g, m, name, at + done, end, spare)
    ensures Present(g, m, name, g.IndexOf(at + done))
    ensures Held(g, m, name, DataSlot(g, g.IndexOf(at + done))) == Number(g, BlockKind, n, i)
  {
    hide Valid, BlockAdded, Number, FreeBit, BitmapsValid, DataSlot, Held, Geometry.IndexOf, ByteAt, Added, Progress,
         Affordable, PresenceKept, Present;
    var index, b := g.IndexOf(at + done), Number(g, BlockKind, n, i);
    ValidBitmaps(g, s);
    AddedHolds(g, s, m, name, index, n, i);
    AddedInode(g, s, name, index, n, i);
    BlockProgress(g, s0, s, m, name, at, data, done, Direct(index), b);
    AddedPresence(g, s, m, name, index, b);
    StillAffordable(g, s, m, name, index, b, at + done, end, spare);
  }

  lemma ValidBitmaps(g: Geometry, s: Store)
    requires Valid(g, s)
    ensures BitmapsValid(g, s)
  {
    hide BitmapsValid;
  }

  lemma AddedPresence(g: Geometry, s: Store, m: Store, name: nat, index: nat, b: nat)
    requires g.Valid() && BitmapsValid(g, s) && BitmapsValid(g, m) && index < 12
    requires Added(g, s, m, name, Direct(index), b)
    ensures PresenceKept(g, s, m) && Present(g, m, name, index) && Held(g, m, name, DataSlot(g, index)) == b
    ensures b != 0 && m.freeBlocks + 1 == s.freeBlocks
  {
    assert index < g.IndexLimit() by { TwelveResolve(g); }
    assert DataSlot(g, index) == Direct(index);
    hide Held, BitmapsValid, FreeBit, NoBitmap, DataSlot;
    forall name', index' | Present(g, s, name', index')
      ensures Present(g, m, name', index')
    {
      AddedPresent(g, s, m, name, Direct(index), b, name', index');
    }
  }

  lemma PresentInRange(g: Geometry, s: Store, name: nat, index: nat)
    requires g.Valid() && Present(g, s, name, index)
    ensures index < g.IndexLimit()
  {
  }

  lemma ChunkStays(g: Geometry, from: nat, count: nat, k: nat)
    requires g.blockSize > 0 && g.OffsetOf(from) + count <= g.blockSize && from <= k < from + count
    ensures g.IndexOf(k) == g.IndexOf(from)
  {
    ChunkCovers(g, from, count, k);
  }

  /** The loop body's disk write. */
  lemma ChunkStored(g: Geometry, s0: Store, m: Store, name: nat, at: nat, data: seq<byte>, done: nat, count: nat,
                    end: nat, spare: nat)
    requires Progress(g, s0, m, name, at, data, done) && 0 < count && done + count <= |data|
    requires name in m.files && Affordable(g, m, name, at + done, end, spare)
    requires Present(g, m, name, g.IndexOf(at + done))
    requires g.OffsetOf(at + done) + count <= g.blockSize
    ensures var addr := g.Address(Held(g, m, name, DataSlot(g, g.IndexOf(at + done))), g.OffsetOf(at + done));
            && addr + count <= |m.disk|
            && (var s' := DiskWritten(m, addr, data[done..done + count]);
                && Progress(g, s0, s', name, at, data, done + count)
                && name in s'.files && Affordable(g, s', name, at + done + count, end, spare))
  {
    hide Valid, DataSlot, Held, Geometry.IndexOf, Geometry.OffsetOf, Geometry.Address, ByteAt, Present, Missing,
         DiskWritten, SameInodes, PresenceKept, OthersKept, BytesWritten, ChunkEffect, Affordable;
    var from := at + done;
    PresentInRange(g, m, name, g.IndexOf(from));
    ChunkWrite(g, m, name, from, data[done..done + count]);
    var s' :=
      DiskWritten(m, g.Address(Held(g, m, name, DataSlot(g, g.IndexOf(from))), g.OffsetOf(from)),
                  data[done..done + count]);
    forall k: nat | from <= k < from + count
      ensures g.IndexOf(k) == g.IndexOf(from)
    {
      ChunkStays(g, from, count, k);
    }
    ChunkWritten(g, s0, m, s', name, at, data, done, count);
    AffordableLater(g, m, s', name, from, from + count, end, spare);
  }

  lemma AffordableLater(g: Geometry, s: Store, s': Store, name: nat, from: nat, from': nat, end: nat, spare: nat)
    requires g.Valid() && name in s.files && s'.files == s.files && s'.freeBlocks == s.freeBlocks && from <= from'
    requires forall name', index :: Present(g, s', name', index) == Present(g, s, name', index)
    requires Affordable(g, s, name, from, end, spare)
    ensures Affordable(g, s', name, from', end, spare)
  {
    hide Present, Missing, Geometry.IndexOf;
    IndexMonotone(g, from, from');
    if from' < end {
      MissingShrinks(s.files[name], g.IndexOf(from), g.IndexOf(from'), g.IndexOf(end - 1) + 1);
    }
  }

  // ---- The whole write ----

  ghost function Resized(s: Store, name: nat, size: nat): Store
    requires name in s.files
  {
    s.(files := s.files[name := s.files[name].(size := size)])
  }

  lemma ResizedSame(g: Geometry, s: Store, name: nat, size: nat)
    requires g.Valid() && name in s.files
    ensures forall name', slot :: Held(g, Resized(s, name, size), name', slot) == Held(g, s, name', slot)
    ensures forall name', index :: Present(g, Resized(s, name, size), name', index) == Present(g, s, name', index)
    ensures forall name', k :: ByteAt(g, Resized(s, name, size), name', k) == ByteAt(g, s, name', k)
  {
    var s' := Resized(s, name, size);
    forall name', slot
      ensures Held(g, s', name', slot) == Held(g, s, name', slot)
    {
    }
    hide Held, DataSlot, Within, Block;
  }

  lemma ResizedAffordable(g: Geometry, s: Store, name: nat, size: nat)
    requires g.Valid() && name in s.files
    ensures forall from, end, spare :: Affordable(g, s, name, from, end, spare) ==>
              Affordable(g, Resized(s, name, size), name, from, end, spare)
  {
    hide Held, Present, Geometry.IndexOf, Missing;
    ResizedSame(g, s, name, size);
    forall lo, hi
      ensures Missing(s.files[name].(size := size), lo, hi) == Missing(s.files[name], lo, hi)
    {
      MissingIgnoresSize(s.files[name], size, lo, hi);
    }
  }

  lemma {:induction false} MissingIgnoresSize(f: Inode, size: nat, lo: nat, hi: nat)
    ensures Missing(f.(size := size), lo, hi) == Missing(f, lo, hi)
    decreases hi - lo
  {
    if lo < hi { MissingIgnoresSize(f, size, lo + 1, hi); }
  }

  lemma ResizedValid(g: Geometry, s: Store, name: nat, size: nat)
    requires Valid(g, s) && name in s.files
    requires g.Valid() && forall index: nat :: g.Address(index, 0) < size ==> Present(g, s, name, index)
    ensures Valid(g, Resized(s, name, size))
  {
    var s' := Resized(s, name, size);
    ResizedSame(g, s, name, size);
    assert BitmapsValid(g, s');
    assert forall n, i :: FreeBit(g, s', n, i) == FreeBit(g, s, n, i);
    assert forall block :: NoBitmap(s', block) == NoBitmap(s, block);
    assert forall block :: InTable(g, s', block) == InTable(g, s, block);
    hide Held, DataSlot, FreeBit, NoBitmap, InTable, BitmapsValid, Number, Within, Geometry.Address;
    assert TablesValid(g, s');
    assert FreeValid(g, s');
    assert HeldValid(g, s');
    assert NoSharing(g, s');
    assert SizesValid(g, s');
  }

  /** What the file holds decides its contents. */
  lemma ContentsByBytes(g: Geometry, s: Store, name: nat, expected: seq<byte>)
    requires g.Valid() && name in s.files && |expected| == s.files[name].size
    requires forall k: nat :: k < |expected| ==> ByteAt(g, s, name, k) == expected[k]
    ensures Contents(g, s, name) == expected
  {
    hide ByteAt;
  }

  lemma PresentBelowSize(g: Geometry, s: Store, name: nat, k: nat)
    requires Valid(g, s) && g.Valid() && name in s.files && k < s.files[name].size
    ensures Present(g, s, name, g.IndexOf(k))
  {
    assert g.blockSize > 0;
    Split(g, k);
    assert g.Address(g.IndexOf(k), 0) < s.files[name].size;
    hide Held, DataSlot, FreeBit, NoBitmap, BitmapsValid, FreeValid, HeldValid, NoSharing, Geometry.Address,
         Geometry.IndexOf;
  }

  lemma FinishedPresence(g: Geometry, s0: Store, s: Store, name: nat, at: nat, data: seq<byte>, index: nat)
    requires Valid(g, s0) && Progress(g, s0, s, name, at, data, |data|) && at <= s0.files[name].size
    requires g.Address(index, 0) < s0.files[name].size || g.Address(index, 0) < at + |data|
    ensures Present(g, s, name, index)
  {
    var k := g.Address(index, 0);
    assert g.blockSize > 0;
    SplitUnique(g, index, 0);
    hide Valid, Present, ByteAt, Geometry.Address, Geometry.IndexOf;
    if k < s0.files[name].size { PresentBelowSize(g, s0, name, k); }
  }

  /** The store once the size was raised if the write ended beyond it. */
  ghost function WriteResult(s: Store, name: nat, end: nat): Store
    requires name in s.files
  {
    if s.files[name].size < end then Resized(s, name, end) else s
  }

  /** The finished write is a splice of the one file and leaves all the others alone. */
  lemma WriteFinished(g: Geometry, s0: Store, s: Store, name: nat, at: nat, data: seq<byte>)
    requires Valid(g, s0) && Progress(g, s0, s, name, at, data, |data|) && at <= s0.files[name].size
    ensures var s' := WriteResult(s, name, at + |data|);
            && Valid(g, s') && s'.files.Keys == s0.files.Keys
            && Contents(g, s', name) == Spliced(Contents(g, s0, name), at, data)
            && (forall from, end, spare :: Affordable(g, s, name, from, end, spare) ==>
                Affordable(g, s', name, from, end, spare))
            && forall name' :: name' in s0.files && name' != name ==> Contents(g, s', name') == Contents(g, s0, name')
  {
    hide Valid, Present, ByteAt, Geometry.Address, Geometry.IndexOf, Held;
    var s' := WriteResult(s, name, at + |data|);
    var old' := Contents(g, s0, name);
    forall index: nat | g.Address(index, 0) < s'.files[name].size
      ensures Present(g, s, name, index)
    {
      FinishedPresence(g, s0, s, name, at, data, index);
    }
    if s.files[name].size < at + |data| { ResizedValid(g, s, name, at + |data|); }
    ResizedSame(g, s, name, at + |data|);
    ResizedAffordable(g, s, name, at + |data|);
    var expected := Spliced(old', at, data);
    forall k: nat | k < |expected|
      ensures ByteAt(g, s', name, k) == expected[k]
    {
      if !(at <= k < at + |data|) { PresentBelowSize(g, s0, name, k); }
    }
    ContentsByBytes(g, s', name, expected);
    forall name' | name' in s0.files && name' != name
      ensures Contents(g, s', name') == Contents(g, s0, name')
    {
      forall k: nat | k < s0.files[name'].size
        ensures ByteAt(g, s', name', k) == ByteAt(g, s0, name', k)
      {
        PresentBelowSize(g, s0, name', k);
      }
      ContentsByBytes(g, s', name', Contents(g, s0, name'));
    }
  }
}

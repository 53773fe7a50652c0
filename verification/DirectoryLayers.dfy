/** The directory code of the file system (Ext2::WriteDirectoryEntry, ReadDirectory, FindInDirectory and Create in
    kernel/src/Ext2.cpp) with the vnode cache it fills, proved against the steps of Ext2Vnodes. */
module DirectoryLayers {
  import opened Common
  import opened Words
  import opened DiskBlocks
  import opened Ext2Layout
  import opened Ext2Alloc
  import opened Ext2Files
  import opened Ext2Writes
  import opened Ext2Metadata
  import opened Directories
  import opened Ext2
  import opened Ext2Directories
  import opened Ext2Vnodes

  class DirectoryLayer {
    const fs: Ext2FileSystem
    /** Inode numbers of the cached vnodes, oldest first. */
    var cache: seq<nat>
    /** The entries of every directory. */
    ghost var listing: map<nat, seq<Entry>>

    constructor (fs: Ext2FileSystem, cache: seq<nat>, ghost listing: map<nat, seq<Entry>>)
      ensures this.fs == fs && this.cache == cache && this.listing == listing
    {
      this.fs, this.cache, this.listing := fs, cache, listing;
    }

    ghost function Now(): Layer
      reads this, fs
    {
      Layer(fs.Now(), cache, listing)
    }

    /** The bytes of a directory. */
    ghost function Bytes(directory: nat): seq<byte>
      requires fs.g.Valid() && directory in fs.files
      reads fs
    {
      Contents(fs.g, fs.Now(), directory)
    }

    /** One Write at the end of the directory. `spare` blocks stay free for others. */
    method Append(directory: nat, data: seq<byte>, ghost end: nat, ghost spare: nat)
      requires Valid(fs.g, fs.Now()) && fs.g.Valid() && directory in fs.files && end < 0x1_0000_0000
      requires fs.files[directory].size + |data| <= end
      requires Affordable(fs.g, fs.Now(), directory, fs.files[directory].size, end, spare)
      modifies fs
      ensures Wrote(fs.g, old(fs.Now()), fs.Now(), directory, old(fs.files)[directory].size, data)
      ensures Valid(fs.g, fs.Now()) && directory in fs.files
      ensures fs.files[directory].size == old(fs.files)[directory].size + |data|
      ensures Affordable(fs.g, fs.Now(), directory, fs.files[directory].size, end, spare)
    {
      hide Valid, Affordable, ByteAt, Contents, Wrote;
      ContentsLength(fs.g, fs.Now(), directory);
      SplicedAtEnd(Bytes(directory), data);
      var _ := fs.Write(directory, data, fs.files[directory].size, end, spare);
      ContentsLength(fs.g, fs.Now(), directory);
    }

    /** Appends the printed entry: header, kept name, then one padding byte at a time. */
    method WriteDirectoryEntry(directory: nat, inodeNum: nat, name: seq<byte>, kind: byte, ghost spare: nat)
      requires Valid(fs.g, fs.Now()) && fs.g.Valid() && directory in fs.files && inodeNum < 0x1_0000_0000
      requires fs.files[directory].size + EntrySize(name) < 0x1_0000_0000
      requires Affordable(fs.g, fs.Now(), directory, fs.files[directory].size,
                          fs.files[directory].size + EntrySize(name), spare)
      modifies fs
      ensures Wrote(fs.g, old(fs.Now()), fs.Now(), directory, old(fs.files)[directory].size,
                    Printed(inodeNum, name, kind))
      ensures Valid(fs.g, fs.Now()) && directory in fs.files && fs.freeBlocks >= spare
      ensures fs.files[directory].size == old(fs.files)[directory].size + EntrySize(name)
    {
      hide Valid, Affordable, Header, Bytes, Zeros, Wrote, EntrySize, NameLength;
      var nameLength := NameLength(name);
      var nameLengthPadding := Padding(name);
      SizeOfEntry(name);
      ghost var s, end := fs.Now(), fs.files[directory].size + EntrySize(name);
      Append(directory, Header(inodeNum, name, kind), end, spare);
      ghost var m, written := fs.Now(), Header(inodeNum, name, kind);
      Append(directory, name[..nameLength], end, spare);
      WroteTwice(fs.g, s, m, fs.Now(), directory, written, name[..nameLength]);
      written := written + name[..nameLength];
      ZerosAppended(written, 0);
      var i := 0;
      while i < nameLengthPadding
        invariant 0 <= i <= nameLengthPadding && Valid(fs.g, fs.Now()) && directory in fs.files
        invariant fs.files[directory].size + nameLengthPadding == end + i
        invariant Wrote(fs.g, s, fs.Now(), directory, s.files[directory].size, written + Zeros(i))
        invariant Affordable(fs.g, fs.Now(), directory, fs.files[directory].size, end, spare)
      {
        m := fs.Now();
        Append(directory, [0], end, spare);
        WroteTwice(fs.g, s, m, fs.Now(), directory, written + Zeros(i), [0]);
        ZerosAppended(written, i);
        i := i + 1;
      }
      assert written + Zeros(nameLengthPadding) == Printed(inodeNum, name, kind);
      SpareRemains(fs.g, fs.Now(), directory, fs.files[directory].size, end, spare);
    }

    /** The entry at `readPos`, which must lie inside the stream. */
    method ReadDirectory(directory: nat, readPos: nat) returns (entry: Entry)
      requires Valid(fs.g, fs.Now()) && fs.g.Valid() && directory in fs.files
      requires fs.files[directory].size < 0x1_0000_0000
      requires EntryFits(Bytes(directory), readPos)
      modifies fs
      ensures fs.Now() == old(fs.Now()) && entry == EntryAt(Bytes(directory), readPos)
    {
      hide Valid, ByteAt, UpToNul, Contents;
      ghost var bytes := Bytes(directory);
      ContentsLength(fs.g, fs.Now(), directory);
      var read := fs.Read(directory, HEADER_SIZE, readPos);
      var header := read.data;
      assert forall i :: 0 <= i < 8 ==> header[i] == bytes[readPos + i];
      read := fs.Read(directory, header[6], readPos + HEADER_SIZE);
      entry := Entry(U32(header, 0), UpToNul(read.data), header[7], U16(header, 4));
    }

    /** Searches the cache, and otherwise loads the inode off the disk and constructs a vnode. The inode loaded is
        the one the file system means. */
    method Load(inodeNum: nat)
      requires Inv(fs.g, Now()) && inodeNum in fs.files
      modifies fs, this`cache
      ensures fs.Now() == old(fs.Now()) && cache == Cached(old(cache), inodeNum)
    {
      hide Valid, BitmapsValid, InodesMarked, RecordEmpty, InodeFree, ListingValid, GroupBase, InodeOf, RecordAddress;
      if inodeNum !in cache {
        assert RecordCurrent(fs.g, fs.Now(), inodeNum);
        RecordOnDisk(fs.g, fs.Now(), InodePlace(fs.g, inodeNum).0, InodePlace(fs.g, inodeNum).1);
        var inode := fs.GetInode(inodeNum);
        fs.files := fs.files[inodeNum := inode];
        assert fs.files == old(fs.files);
        cache := cache + [inodeNum];
      }
    }

    /** Looks the name up. Every entry passed on the way gets a vnode unless it has one. The assert that no entry is
        unused holds. */
    method FindInDirectory(directory: nat, name: seq<byte>) returns (child: Option<nat>)
      requires Inv(fs.g, Now()) && directory in listing
      modifies this`cache, fs
      ensures Inv(fs.g, Now()) && Step(fs.g, old(Now()), Find(directory, name), Now())
      ensures child.None? ==> forall i :: 0 <= i < |listing[directory]| ==> listing[directory][i].name != name
      ensures child.Some? ==>
                && child.value in cache
                && exists j :: 0 <= j < |listing[directory]| && listing[directory][j].name == name
                               && child.value == listing[directory][j].inode
                               && forall i :: 0 <= i < j ==> listing[directory][i].name != name
    {
      hide Valid, ByteAt, EntryAt, EntryFits, Contents, Base, Inv, Visited, CachedAll, Cached;
      ghost var l, entries := Now(), listing[directory];
      ListedDirectory(fs.g, l, directory);
      ContentsLength(fs.g, fs.Now(), directory);
      var parsedLength: nat := 0;
      ghost var k := 0;
      while parsedLength < fs.files[directory].size
        invariant fs.Now() == old(fs.Now()) && listing == old(listing) && 0 <= k <= |entries| && Inv(fs.g, Now())
        invariant Parses(Bytes(directory), parsedLength, entries[k..])
        invariant forall i :: 0 <= i < k ==> entries[i].name != name
        invariant CachedAll(cache, Visited(entries[k..], name)) == CachedAll(l.cache, Visited(entries, name))
        decreases |entries| - k
      {
        assert entries[k..] != [];
        var directoryEntry := ReadDirectory(directory, parsedLength);
        assert directoryEntry == entries[k..][0] == entries[k] && entries[k..][1..] == entries[k + 1..];
        assert directoryEntry.inode != 0;
        ghost var before := Now();
        Load(directoryEntry.inode);
        LoadKeeps(fs.g, before, directoryEntry.inode);
        VisitsOne(entries, k, name, before.cache);
        if directoryEntry.name == name {
          StepKeeps(fs.g, l, Find(directory, name), Now());
          return Some(directoryEntry.inode);
        }
        parsedLength := parsedLength + directoryEntry.size;
        k := k + 1;
      }
      EndOfStream(Bytes(directory), parsedLength, entries[k..]);
      VisitsNone(cache, name);
      assert entries[..k] == entries;
      return None;
    }

    /** Create, with `None` where the code asserts that an inode was free. A new directory gets its own two entries. */
    method Create(directory: nat, name: seq<byte>, kind: byte) returns (inodeNum: Option<nat>)
      requires Inv(fs.g, Now()) && directory in listing && directory in cache && fs.g.Valid() && directory in fs.files
      requires 0 !in name && (kind == REGULAR_FILE || kind == DIRECTORY)
      requires var size := fs.files[directory].size;
               && size + EntrySize(name) < 0x1_0000_0000
               && Affordable(fs.g, fs.Now(), directory, size, size + EntrySize(name), if kind == DIRECTORY then 1
                                                                                      else 0)
      modifies this, fs
      ensures inodeNum.None? ==> Now() == old(Now())
      ensures inodeNum.Some? ==>
                && Inv(fs.g, Now())
                && Step(fs.g, old(Now()), Ext2Vnodes.Create(directory, name, inodeNum.value, kind), Now())
                && inodeNum.value !in old(fs.files) && inodeNum.value !in old(cache)
                && fs.files.Keys == old(fs.files).Keys + {inodeNum.value}
                && directory in listing && inodeNum.value !in old(listing)
                && Listed(old(listing)[directory], listing[directory], inodeNum.value, name, kind)
                && (kind == DIRECTORY ==>
                      && inodeNum.value in listing && |listing[inodeNum.value]| == 2
                      && (var own, parent := listing[inodeNum.value][0], listing[inodeNum.value][1];
                          && own.name == [46] && own.inode == inodeNum.value && own.kind == DIRECTORY
                          && parent.name == [46, 46] && parent.inode == directory && parent.kind == DIRECTORY))
    {
      hide Valid, Affordable, BitmapsValid, FileAdded, Number, Base, Inv, InodeFree, ListingValid, Wrote, EntrySize,
           CreatesThrough, Printed, Step, FirstBytes, FirstEntries;
      ghost var l, s := Now(), fs.Now();
      ghost var spare := if kind == DIRECTORY then 1 else 0;
      LayerBitmaps(fs.g, l);
      var number: nat;
      ghost var n: nat, i: nat;
      number, n, i := NewVnode(directory, fs.files[directory].size + EntrySize(name), spare);
      if number == 0 { return None; }
      ghost var added := fs.Now();
      WriteDirectoryEntry(directory, number, name, kind, spare);
      ghost var m := fs.Now();
      WroteOther(fs.g, added, m, directory, added.files[directory].size, Printed(number, name, kind), number);
      if kind == DIRECTORY {
        WriteFirstEntries(number, directory);
      } else {
        NoFirstBytes(number, directory, kind);
        WroteNothing(fs.g, m, number);
      }
      WroteOther(fs.g, m, fs.Now(), number, 0, FirstBytes(number, directory, kind), directory);
      listing := listing[directory := listing[directory] + [EntryFor(number, name, kind)]];
      if kind == DIRECTORY { listing := listing[number := FirstEntries(number, directory, kind)]; }
      ghost var e := Ext2Vnodes.Create(directory, name, number, kind);
      Through(fs.g, s, added, m, fs.Now(), e, n, i);
      IsCreateStep(fs.g, l, e, Now(), n, i, m);
      CreateKeeps(fs.g, l, e, Now(), n, i, m);
      ListingsExist(fs.g, l, number);
      ListedLast(l.listing[directory], number, name, kind);
      FirstNames(number, directory);
      return Some(number);
    }

    /** What Create makes is found again: a new name by the same name, and a new directory has itself and its parent
        under the names of one and two dots. */
    method CreateThenFind(directory: nat, name: seq<byte>, kind: byte)
      returns (inodeNum: Option<nat>, found: Option<nat>, own: Option<nat>, parent: Option<nat>)
      requires Inv(fs.g, Now()) && directory in listing && directory in cache && fs.g.Valid() && directory in fs.files
      requires 0 !in name && (kind == REGULAR_FILE || kind == DIRECTORY)
      requires var size := fs.files[directory].size;
               && size + EntrySize(name) < 0x1_0000_0000
               && Affordable(fs.g, fs.Now(), directory, size, size + EntrySize(name), if kind == DIRECTORY then 1
                                                                                      else 0)
      modifies this, fs
      ensures inodeNum.Some? && |name| <= 255
              && (forall i :: 0 <= i < |old(listing)[directory]| ==> old(listing)[directory][i].name != name) ==>
                found == inodeNum
      ensures inodeNum.Some? && kind == DIRECTORY ==> own == inodeNum && parent == Some(directory)
    {
      hide Inv, Step, Affordable, EntrySize;
      found, own, parent := None, None, None;
      inodeNum := Create(directory, name, kind);
      if inodeNum == None { return; }
      found := FindInDirectory(directory, name);
      if kind == DIRECTORY {
        own := FindInDirectory(inodeNum.value, [46]);
        parent := FindInDirectory(inodeNum.value, [46, 46]);
      }
    }

    /** The first part of Create: allocates an inode, reads its record, sets its size to 0 and caches its vnode. */
    method NewVnode(directory: nat, ghost end: nat, ghost spare: nat) returns (number: nat, ghost n: nat, ghost i: nat)
      requires Inv(fs.g, Now()) && fs.g.Valid() && directory in fs.files && BitmapsValid(fs.g, fs.Now())
      requires Affordable(fs.g, fs.Now(), directory, fs.files[directory].size, end, spare)
      modifies this`cache, fs
      ensures number == 0 ==> Now() == old(Now())
      ensures number != 0 ==>
                && InodeFree(fs.g, old(fs.Now()), n, i) && number == Number(fs.g, InodeKind, n, i)
                && fs.Now() == FileAdded(fs.g, old(fs.Now()), n, i) && cache == old(cache) + [number]
                && 0 < number < 0x1_0000_0000 && 0 < directory < 0x1_0000_0000 && number !in old(fs.files)
                && Valid(fs.g, fs.Now()) && fs.files == old(fs.files)[number := EMPTY_INODE] && directory != number
                && Affordable(fs.g, fs.Now(), directory, fs.files[directory].size, end, spare)
    {
      hide Valid, Affordable, BitmapsValid, Taken, FileAdded, Skipped, FirstFree, Number, Inv, InodeFree, InodeOf,
           RecordAddress;
      ghost var l, s := Now(), fs.Now();
      ghost var place;
      n, i := 0, 0;
      number, place := fs.Allocate(InodeKind);
      if number == 0 {
        NumbersArePositive(fs.g);
        return;
      }
      n, i := place.value.0, place.value.1;
      FirstFreeInode(fs.g, s, n, i);
      ghost var added := FileAdded(fs.g, s, n, i);
      NewInode(fs.g, l, n, i, added, directory, end, spare);
      FileAddedIsTaken(fs.g, s, n, i);
      SameAddress(fs.g, added, fs.Now(), n, i);
      RecordOnDisk(fs.g, added, n, i);
      var inode := fs.GetInode(number);
      inode := inode.(size := 0);
      fs.files := fs.files[number := inode];
      cache := cache + [number];
    }

    /** The two entries of a new directory. */
    method WriteFirstEntries(number: nat, directory: nat)
      requires Valid(fs.g, fs.Now()) && fs.g.Valid() && number in fs.files && fs.files[number] == EMPTY_INODE
      requires fs.freeBlocks >= 1
      requires number < 0x1_0000_0000 && directory < 0x1_0000_0000 && fs.g.blockSize >= 1024
      modifies fs
      ensures Wrote(fs.g, old(fs.Now()), fs.Now(), number, 0, FirstBytes(number, directory, DIRECTORY))
    {
      hide Valid, Affordable, Wrote, Printed;
      ghost var s := fs.Now();
      EmptyAffordable(fs.g, s, number);
      WriteDirectoryEntry(number, number, DOT, DIRECTORY, 0);
      ghost var m := fs.Now();
      SecondAffordable(fs.g, m, number);
      WriteDirectoryEntry(number, directory, DOT_DOT, DIRECTORY, 0);
      WroteTwice(fs.g, s, m, fs.Now(), number, Printed(number, DOT, DIRECTORY), Printed(directory, DOT_DOT, DIRECTORY));
    }
  }

  lemma SplicedAtEnd(old': seq<byte>, data: seq<byte>)
    ensures Spliced(old', |old'|, data) == old' + data
  {
  }

  lemma EndOfStream(s: seq<byte>, at: nat, entries: seq<Entry>)
    requires Parses(s, at, entries) && at >= |s|
    ensures entries == []
  {
  }

  lemma SizeOfEntry(name: seq<byte>)
    ensures EntrySize(name) == HEADER_SIZE + NameLength(name) + Padding(name)
  {
  }

  lemma SpareRemains(g: Geometry, s: Store, name: nat, from: nat, end: nat, spare: nat)
    requires g.Valid() && name in s.files && Affordable(g, s, name, from, end, spare)
    ensures s.freeBlocks >= spare
  {
  }

  lemma ListedDirectory(g: Geometry, l: Layer, directory: nat)
    requires Inv(g, l) && directory in l.listing
    ensures ListingValid(g, l.store, directory, l.listing[directory]) && Valid(g, l.store) && g.Valid()
  {
    hide Valid, BitmapsValid, InodesMarked, ListingValid, CacheValid, RecordEmpty, InodeFree;
  }

  lemma LoadKeeps(g: Geometry, l: Layer, inode: nat)
    requires Inv(g, l) && inode in l.store.files
    ensures Inv(g, l.(cache := Cached(l.cache, inode)))
  {
    hide Base, ListingValid;
    var entry := Entry(inode, [], 0, 0);
    FindKeeps(g, l, [entry]);
    assert [entry][1..] == [];
  }

  lemma VisitsOne(entries: seq<Entry>, k: nat, name: seq<byte>, cache: seq<nat>)
    requires k < |entries|
    ensures CachedAll(cache, Visited(entries[k..], name)) ==
            if entries[k].name == name then Cached(cache, entries[k].inode)
            else CachedAll(Cached(cache, entries[k].inode), Visited(entries[k + 1..], name))
    ensures entries[k].inode in Cached(cache, entries[k].inode)
  {
    hide Cached;
    assert entries[k..][0] == entries[k] && entries[k..][1..] == entries[k + 1..];
    if entries[k].name == name {
      assert Visited(entries[k..], name)[1..] == [];
    } else {
      assert Visited(entries[k..], name)[1..] == Visited(entries[k + 1..], name);
    }
  }

  lemma VisitsNone(cache: seq<nat>, name: seq<byte>)
    ensures CachedAll(cache, Visited([], name)) == cache
  {
  }

  lemma LayerBitmaps(g: Geometry, l: Layer)
    requires Inv(g, l)
    ensures BitmapsValid(g, l.store) && Valid(g, l.store) && g.Valid() && g.blockSize >= 1024
    ensures Base(g, l.store, l.cache)
  {
    hide Valid, BitmapsValid, InodesMarked, ListingValid, CacheValid, RecordEmpty, InodeFree;
  }

  /** The store Create works on once it has its inode: the record read off the disk, with size 0, is that of an empty
      file. */
  lemma NewInode(g: Geometry, l: Layer, n: nat, i: nat, added: Store, directory: nat, end: nat, spare: nat)
    requires Inv(g, l) && BitmapsValid(g, l.store) && g.Valid() && InodeFree(g, l.store, n, i)
    requires directory in l.store.files
    requires Affordable(g, l.store, directory, l.store.files[directory].size, end, spare)
    requires added == FileAdded(g, l.store, n, i)
    ensures var number := Number(g, InodeKind, n, i);
            && 0 < number < 0x1_0000_0000 && number !in l.store.files && InodePlace(g, number) == (n, i)
            && 0 < directory < 0x1_0000_0000 && directory != number
            && Valid(g, added) && added.files == l.store.files[number := EMPTY_INODE]
            && Affordable(g, added, directory, added.files[directory].size, end, spare)
    ensures n < |added.groups| && i < g.inodesPerGroup && InodeOnDisk(g, added, n, i).(size := 0) == EMPTY_INODE
  {
    hide Valid, BitmapsValid, InodeFree, ListingValid, CacheValid, GroupBase, FileAdded, Number, Affordable,
         InodeOnDisk;
    var s := l.store;
    FreshInode(g, s, n, i);
    NumbersArePositive(g);
    FreeInGroup(g, s, n, i);
    NumberFits(g, n, i, |s.groups|);
    KnownFits(g, s, directory);
    FileAddedAffordable(g, s, added, n, i, directory, end, spare);
    PlaceInGroup(g, n, i);
    AddedRecord(g, s, added, n, i, n, i);
    assert RecordEmpty(g, s, n, i);
  }

  lemma PlaceInGroup(g: Geometry, n: nat, i: nat)
    requires g.Valid() && InodePlace(g, Number(g, InodeKind, n, i)) == (n, i)
    ensures i < g.inodesPerGroup
  {
    InodePlaceExact(g, n, i);
  }

  /** One more entry at the end; the stored name is the given one if its length fits the length byte. */
  ghost predicate Listed(entries: seq<Entry>, entries': seq<Entry>, inode: nat, name: seq<byte>, kind: byte) {
    && |entries'| == |entries| + 1 && entries'[..|entries|] == entries
    && (var last := entries'[|entries|];
        last.inode == inode && last.kind == kind && last.name == name[..|name| % 256])
  }

  lemma ListedLast(entries: seq<Entry>, inode: nat, name: seq<byte>, kind: byte)
    ensures Listed(entries, entries + [EntryFor(inode, name, kind)], inode, name, kind)
  {
    hide EntrySize;
    assert (entries + [EntryFor(inode, name, kind)])[..|entries|] == entries;
  }

  lemma FirstNames(inode: nat, parent: nat)
    ensures var entries := FirstEntries(inode, parent, DIRECTORY);
            && |entries| == 2
            && entries[0].name == [46] && entries[0].inode == inode && entries[0].kind == DIRECTORY
            && entries[1].name == [46, 46] && entries[1].inode == parent && entries[1].kind == DIRECTORY
  {
    hide EntrySize;
  }

  lemma ListingsExist(g: Geometry, l: Layer, inode: nat)
    requires Inv(g, l) && inode !in l.store.files
    ensures inode !in l.listing
  {
    hide Base, Contents, Parses;
    assert inode in l.listing ==> ListingValid(g, l.store, inode, l.listing[inode]);
  }

  lemma NoFirstBytes(inode: nat, parent: nat, kind: byte)
    requires inode < 0x1_0000_0000 && parent < 0x1_0000_0000 && kind != DIRECTORY
    ensures FirstBytes(inode, parent, kind) == []
  {
  }

  lemma IsCreateStep(g: Geometry, l: Layer, e: Event, l': Layer, n: nat, i: nat, m: Store)
    requires e.Create? && CreatesThrough(g, l.store, l'.store, e, n, i, m)
    requires e.directory in l.listing && e.directory in l.cache && 0 !in e.name
    requires (e.kind == REGULAR_FILE || e.kind == DIRECTORY)
    requires e.directory in l'.store.files && l'.store.files[e.directory].size < 0x1_0000_0000
    requires l'.cache == l.cache + [e.inode]
    requires var listing := l.listing[e.directory := l.listing[e.directory] + [EntryFor(e.inode, e.name, e.kind)]];
             l'.listing ==
             if e.kind == DIRECTORY then listing[e.inode := FirstEntries(e.inode, e.directory, e.kind)] else listing
    ensures Step(g, l, e, l')
  {
    hide CreatesThrough, FirstEntries, EntryFor;
  }

  lemma KnownFits(g: Geometry, s: Store, inode: nat)
    requires BitmapsValid(g, s) && g.Valid() && InodesMarked(g, s) && inode in s.files
    requires GroupBase(g, InodeKind, |s.groups|) < 0x1_0000_0000
    ensures 0 < inode < 0x1_0000_0000
  {
    hide BitmapsValid, InodeFree;
    assert Marked(g, s, inode);
    var n, i := InodePlace(g, inode).0, InodePlace(g, inode).1;
    assert inode == n * g.inodesPerGroup + i + 1;
    BlocksApart(g.inodesPerGroup, n, |s.groups|);
  }

  lemma WroteOther(g: Geometry, s: Store, s': Store, name: nat, at: nat, data: seq<byte>, other: nat)
    requires Wrote(g, s, s', name, at, data) && other in s.files && other != name
    ensures other in s'.files && s'.files[other] == s.files[other]
  {
    hide Valid, Contents, MetadataKept;
  }

  lemma EmptyAffordable(g: Geometry, s: Store, name: nat)
    requires g.Valid() && g.blockSize >= 1024 && name in s.files && s.files[name] == EMPTY_INODE && s.freeBlocks >= 1
    ensures EntrySize(DOT) == 12 && Affordable(g, s, name, 0, 12, 0)
  {
    MissingStep(s.files[name], 0, 1);
  }

  lemma SecondAffordable(g: Geometry, s: Store, name: nat)
    requires Valid(g, s) && g.Valid() && g.blockSize >= 1024 && name in s.files && s.files[name].size == 12
    ensures EntrySize(DOT_DOT) == 12 && Affordable(g, s, name, 12, 24, 0)
  {
    hide Valid;
    PresentBelowSize(g, s, name, 0);
    ValidGeometry(g, s);
    DirectSlot(g, s, name, 0);
    MissingStep(s.files[name], 0, 1);
  }

  lemma Through(g: Geometry, s: Store, added: Store, m: Store, s': Store, e: Event, n: nat, i: nat)
    requires e.Create? && BitmapsValid(g, s) && InodeFree(g, s, n, i) && added == FileAdded(g, s, n, i)
    requires e.inode == Number(g, InodeKind, n, i) && e.inode < 0x1_0000_0000 && e.directory < 0x1_0000_0000
    requires e.directory in s.files && e.directory in added.files && added.files[e.directory] == s.files[e.directory]
    requires Wrote(g, added, m, e.directory, added.files[e.directory].size, Printed(e.inode, e.name, e.kind))
    requires Wrote(g, m, s', e.inode, 0, FirstBytes(e.inode, e.directory, e.kind))
    ensures CreatesThrough(g, s, s', e, n, i, m)
  {
    hide Wrote, BitmapsValid, InodeFree, FileAdded, Number, Printed, FirstBytes;
  }
}

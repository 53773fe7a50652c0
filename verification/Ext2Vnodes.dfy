/** Files, directories, inode records and the vnode cache together: what finding, creating and writing keep over
    whole runs (Ext2::FindInDirectory, Create, Write and Truncate in kernel/src/Ext2.cpp, SearchInCache and
    ConstructVnode in kernel/src/VFS.cpp). */
module Ext2Vnodes {
  import opened Common
  import opened Words
  import opened DiskBlocks
  import opened Ext2Layout
  import opened Ext2Alloc
  import opened Ext2Files
  import opened Ext2Writes
  import opened Ext2Metadata
  import opened Directories
  import opened Ext2
  import opened Ext2Directories

  /** `store.files` has every inode that exists: for a cached vnode its context, for any other the record in the
      inode table. `listing` has the entries of every directory. */
  datatype Layer = Layer(store: Store, cache: seq<nat>, listing: map<nat, seq<Entry>>)

  // ---- The invariant ----

  /** The record in the inode table is the inode. */
  ghost predicate RecordCurrent(g: Geometry, s: Store, inode: nat) {
    && Valid(g, s) && g.Valid() && inode in s.files && inode > 0 && InodePlace(g, inode).0 < |s.groups|
    && InodeOnDisk(g, s, InodePlace(g, inode).0, InodePlace(g, inode).1) == s.files[inode]
  }

  /** The record of a free inode points to nothing. */
  ghost predicate RecordEmpty(g: Geometry, s: Store, n: nat, i: nat)
    requires Valid(g, s) && n < |s.groups| && i < g.inodesPerGroup
  {
    InodeOnDisk(g, s, n, i).(size := 0) == EMPTY_INODE
  }

  /** The cache holds different inodes, all of them existing; all other inodes are current on disk. */
  ghost predicate CacheValid(g: Geometry, s: Store, cache: seq<nat>) {
    && Distinct(cache) && (forall inode :: inode in cache ==> inode in s.files)
    && forall inode :: inode in s.files && inode !in cache ==> RecordCurrent(g, s, inode)
  }

  ghost predicate Base(g: Geometry, s: Store, cache: seq<nat>) {
    && Valid(g, s) && g.Valid() && g.blockSize >= 1024 && BitmapsValid(g, s) && InodesMarked(g, s)
    && GroupBase(g, InodeKind, |s.groups|) < 0x1_0000_0000 && CacheValid(g, s, cache)
    && forall n: nat, i: nat :: InodeFree(g, s, n, i) && i < g.inodesPerGroup ==> RecordEmpty(g, s, n, i)
  }

  /** The bytes of the directory are these entries, which name existing inodes. */
  ghost predicate ListingValid(g: Geometry, s: Store, directory: nat, entries: seq<Entry>) {
    && g.Valid() && directory in s.files && s.files[directory].size < 0x1_0000_0000
    && Parses(Contents(g, s, directory), 0, entries)
    && forall i :: 0 <= i < |entries| ==> entries[i].inode != 0 && entries[i].inode in s.files
  }

  ghost predicate Inv(g: Geometry, l: Layer) {
    && Base(g, l.store, l.cache)
    && forall d :: d in l.listing ==> ListingValid(g, l.store, d, l.listing[d])
  }

  // ---- Steps ----

  /** A vnode that is written or truncated is that of a regular file; `Create` also makes directories, with their two
      entries. */
  datatype Event =
    | Find(directory: nat, name: seq<byte>)
    | Create(directory: nat, name: seq<byte>, inode: nat, kind: byte)
    | Write(inode: nat, at: nat, data: seq<byte>)
    | Truncate(inode: nat)

  function EntryFor(inode: nat, name: seq<byte>, kind: byte): Entry {
    Entry(inode, name[..NameLength(name)], kind, EntrySize(name))
  }

  const DOT: seq<byte> := [46]
  const DOT_DOT: seq<byte> := [46, 46]

  /** The entries a new vnode starts with. */
  function FirstEntries(inode: nat, parent: nat, kind: byte): seq<Entry> {
    if kind == DIRECTORY then [EntryFor(inode, DOT, DIRECTORY), EntryFor(parent, DOT_DOT, DIRECTORY)] else []
  }

  function FirstBytes(inode: nat, parent: nat, kind: byte): seq<byte>
    requires inode < 0x1_0000_0000 && parent < 0x1_0000_0000
  {
    if kind == DIRECTORY then Printed(inode, DOT, DIRECTORY) + Printed(parent, DOT_DOT, DIRECTORY) else []
  }

  /** The store during Create: after the allocation, and after the entry in the parent directory. */
  ghost predicate CreatesThrough(g: Geometry, s: Store, s': Store, e: Event, n: nat, i: nat, m: Store)
    requires e.Create?
  {
    && BitmapsValid(g, s) && InodeFree(g, s, n, i) && e.inode == Number(g, InodeKind, n, i)
    && e.inode < 0x1_0000_0000 && e.directory < 0x1_0000_0000
    && (var added := FileAdded(g, s, n, i);
        && e.directory in s.files && e.directory in added.files
        && Wrote(g, added, m, e.directory, s.files[e.directory].size, Printed(e.inode, e.name, e.kind))
        && Wrote(g, m, s', e.inode, 0, FirstBytes(e.inode, e.directory, e.kind)))
  }

  ghost predicate Step(g: Geometry, l: Layer, e: Event, l': Layer) {
    match e
    case Find(directory, name) =>
      directory in l.listing && l' == l.(cache := CachedAll(l.cache, Visited(l.listing[directory], name)))
    case Create(directory, name, inode, kind) =>
      && directory in l.listing && directory in l.cache && 0 !in name && (kind == REGULAR_FILE || kind == DIRECTORY)
      && (exists n, i, m :: CreatesThrough(g, l.store, l'.store, e, n, i, m))
      && directory in l'.store.files && l'.store.files[directory].size < 0x1_0000_0000
      && l'.cache == l.cache + [inode]
      && (var listing := l.listing[directory := l.listing[directory] + [EntryFor(inode, name, kind)]];
          l'.listing == if kind == DIRECTORY then listing[inode := FirstEntries(inode, directory, kind)] else listing)
    case Write(inode, at, data) =>
      && inode in l.cache && inode !in l.listing && l'.cache == l.cache && l'.listing == l.listing
      && Wrote(g, l.store, l'.store, inode, at, data)
    case Truncate(inode) =>
      && inode in l.cache && inode !in l.listing && l'.cache == l.cache && l'.listing == l.listing
      && Truncated(g, l.store, l'.store, inode)
  }

  /** What Truncate does. */
  ghost predicate Truncated(g: Geometry, s: Store, s': Store, inode: nat) {
    && g.Valid() && inode in s.files && inode in s'.files && Valid(g, s')
    && s'.files == s.files[inode := s'.files[inode]]
    && Contents(g, s', inode) == []
    && (forall other :: other in s.files && other != inode ==> Contents(g, s', other) == Contents(g, s, other))
    && MetadataKept(g, s, s')
  }

  // ---- File writes ----

  lemma InodeBitsKept(g: Geometry, s: Store, s': Store, n: nat)
    requires BitmapsValid(g, s) && BitmapsValid(g, s') && MetadataKept(g, s, s') && n < |s.groups|
    ensures n < |s'.groups| && BitmapOf(s'.groups[n], InodeKind) == BitmapOf(s.groups[n], InodeKind)
    ensures Bits(g, s'.disk, BitmapOf(s'.groups[n], InodeKind)) == Bits(g, s.disk, BitmapOf(s.groups[n], InodeKind))
  {
    hide Bits, Clear, Total, Block, Within, InTable;
    assert GroupKept(g, s, s', n);
    BitmapThere(g, s, n, InodeKind);
    BitmapThere(g, s', n, InodeKind);
    SameBits(g, s.disk, s'.disk, BitmapOf(s.groups[n], InodeKind));
  }

  /** Only `inode`, which is cached, changed. */
  ghost predicate OnlyInode(s: Store, s': Store, inode: nat) {
    && s'.files.Keys == s.files.Keys
    && forall other :: other in s.files && other != inode ==> s'.files[other] == s.files[other]
  }

  lemma MarkedKept(g: Geometry, s: Store, s': Store)
    requires BitmapsValid(g, s) && BitmapsValid(g, s') && MetadataKept(g, s, s') && s'.files.Keys == s.files.Keys
    requires InodesMarked(g, s)
    ensures InodesMarked(g, s') && |s'.groups| == |s.groups|
    ensures forall n: nat, i: nat :: InodeFree(g, s', n, i) <==> InodeFree(g, s, n, i)
  {
    hide Bits, BitmapsValid, MetadataKept, InodeFree;
    SameGroups(g, s, s');
    forall n: nat, i: nat
      ensures InodeFree(g, s', n, i) <==> InodeFree(g, s, n, i)
    {
      SameFree(g, s, s', n, i);
    }
  }

  lemma SameGroups(g: Geometry, s: Store, s': Store)
    requires MetadataKept(g, s, s')
    ensures |s'.groups| == |s.groups|
  {
  }

  lemma SameFree(g: Geometry, s: Store, s': Store, n: nat, i: nat)
    requires BitmapsValid(g, s) && BitmapsValid(g, s') && MetadataKept(g, s, s')
    ensures InodeFree(g, s', n, i) <==> InodeFree(g, s, n, i)
  {
    hide Bits, Clear, Total, InTable, Within;
    if n < |s.groups| { InodeBitsKept(g, s, s', n); }
  }

  lemma MetadataKeepsBase(g: Geometry, s: Store, s': Store, cache: seq<nat>, inode: nat)
    requires Base(g, s, cache) && inode in cache && Valid(g, s') && MetadataKept(g, s, s') && OnlyInode(s, s', inode)
    ensures Base(g, s', cache)
  {
    hide Valid, BitmapsValid, InodesMarked, InodeFree, GroupBase, InodeOnDisk, MetadataKept, Number, Distinct;
    ValidBitmaps(g, s');
    MarkedKept(g, s, s');
    forall x | x in s'.files && x !in cache
      ensures RecordCurrent(g, s', x)
    {
      assert RecordCurrent(g, s, x);
      RecordKept(g, s, s', InodePlace(g, x).0, InodePlace(g, x).1);
    }
    forall n: nat, i: nat | InodeFree(g, s', n, i) && i < g.inodesPerGroup
      ensures n < |s'.groups| && RecordEmpty(g, s', n, i)
    {
      FreeInGroup(g, s, n, i);
      RecordKept(g, s, s', n, i);
    }
  }

  lemma FreeInGroup(g: Geometry, s: Store, n: nat, i: nat)
    requires BitmapsValid(g, s) && InodeFree(g, s, n, i)
    ensures n < |s.groups| && i < g.blocksPerGroup
  {
  }

  lemma WroteKeepsBase(g: Geometry, s: Store, s': Store, cache: seq<nat>, inode: nat, at: nat, data: seq<byte>)
    requires Base(g, s, cache) && inode in cache && Wrote(g, s, s', inode, at, data)
    ensures Base(g, s', cache)
  {
    hide Base, Valid, MetadataKept, Contents;
    MetadataKeepsBase(g, s, s', cache, inode);
  }

  /** Directories other than the file written keep their entries. */
  lemma OtherListingKept(g: Geometry, s: Store, s': Store, d: nat, entries: seq<Entry>)
    requires ListingValid(g, s, d, entries) && d in s'.files && s.files.Keys <= s'.files.Keys
    requires Contents(g, s', d) == Contents(g, s, d)
    ensures ListingValid(g, s', d, entries)
  {
    hide ByteAt, Parses;
    assert |Contents(g, s', d)| == |Contents(g, s, d)|;
  }

  /** An entry appended to a directory is one more entry of its listing. */
  lemma AppendedListing(g: Geometry, s: Store, s': Store, d: nat, entries: seq<Entry>, inode: nat, name: seq<byte>,
                        kind: byte)
    requires ListingValid(g, s, d, entries) && 0 < inode < 0x1_0000_0000 && inode in s.files && 0 !in name
    requires Wrote(g, s, s', d, s.files[d].size, Printed(inode, name, kind)) && s'.files[d].size < 0x1_0000_0000
    ensures ListingValid(g, s', d, entries + [EntryFor(inode, name, kind)])
  {
    hide Valid, ByteAt, Parses, MetadataKept, Printed;
    var before := Contents(g, s, d);
    assert Spliced(before, |before|, Printed(inode, name, kind)) == before + Printed(inode, name, kind);
    AppendedEntry(before, entries, inode, name, kind);
  }

  // ---- New inodes ----

  lemma AddedKeepsBase(g: Geometry, s: Store, s': Store, cache: seq<nat>, n: nat, i: nat)
    requires Base(g, s, cache) && InodeFree(g, s, n, i) && s' == FileAdded(g, s, n, i)
    ensures Number(g, InodeKind, n, i) !in s.files && Number(g, InodeKind, n, i) !in cache
    ensures Base(g, s', cache + [Number(g, InodeKind, n, i)])
    ensures s'.files == s.files[Number(g, InodeKind, n, i) := EMPTY_INODE]
    ensures forall d :: d in s.files ==> Contents(g, s', d) == Contents(g, s, d)
    ensures Contents(g, s', Number(g, InodeKind, n, i)) == []
  {
    hide Valid, BitmapsValid, InodesMarked, GroupBase, InodeOnDisk, Number, FileAdded, InodeFree, Distinct, ByteAt,
         RecordEmpty, CacheValid, InTable, NoBitmap;
    FreeInGroup(g, s, n, i);
    CachedAreKnown(g, s, cache);
    FreshInode(g, s, n, i);
    FileAddedValid(g, s, s', n, i);
    FileAddedBitmaps(g, s, s', n, i);
    FileAddedFiles(g, s, n, i);
    AddedContents(g, s, s', n, i);
    AddedMarks(g, s, s', n, i);
    AddedCache(g, s, s', cache, n, i);
    forall n': nat, i': nat | InodeFree(g, s', n', i') && i' < g.inodesPerGroup
      ensures n' < |s'.groups| && RecordEmpty(g, s', n', i')
    {
      AddedFree(g, s, s', n, i, n', i');
      FreeInGroup(g, s, n', i');
      AddedRecord(g, s, s', n, i, n', i');
      SameEmpty(g, s, s', n', i');
    }
  }

  lemma CachedAreKnown(g: Geometry, s: Store, cache: seq<nat>)
    requires CacheValid(g, s, cache)
    ensures Distinct(cache) && forall inode :: inode in cache ==> inode in s.files
  {
    hide Distinct, RecordCurrent;
  }

  lemma SameEmpty(g: Geometry, s: Store, s': Store, n: nat, i: nat)
    requires Valid(g, s) && Valid(g, s') && n < |s.groups| && n < |s'.groups| && i < g.inodesPerGroup
    requires RecordEmpty(g, s, n, i) && InodeOnDisk(g, s', n, i) == InodeOnDisk(g, s, n, i)
    ensures RecordEmpty(g, s', n, i)
  {
    hide Valid, InodeOnDisk;
  }

  lemma AddedContents(g: Geometry, s: Store, s': Store, n: nat, i: nat)
    requires Valid(g, s) && BitmapsValid(g, s) && InodeFree(g, s, n, i) && s' == FileAdded(g, s, n, i)
    requires Number(g, InodeKind, n, i) !in s.files && g.Valid()
    ensures forall d :: d in s.files ==> d in s'.files && Contents(g, s', d) == Contents(g, s, d)
    ensures Number(g, InodeKind, n, i) in s'.files && Contents(g, s', Number(g, InodeKind, n, i)) == []
  {
    hide Valid, BitmapsValid, FileAdded, InodeFree, Number, ByteAt;
    FileAddedFiles(g, s, n, i);
    forall d | d in s.files
      ensures Contents(g, s', d) == Contents(g, s, d)
    {
      FileAddedContents(g, s, s', n, i, d);
    }
  }

  lemma AddedMarks(g: Geometry, s: Store, s': Store, n: nat, i: nat)
    requires BitmapsValid(g, s) && BitmapsValid(g, s') && InodesMarked(g, s) && InodeFree(g, s, n, i)
    requires s' == FileAdded(g, s, n, i)
    ensures InodesMarked(g, s')
  {
    hide Bits, BitmapsValid, FileAdded, Number, InodeFree;
    FreshInode(g, s, n, i);
    FileAddedFiles(g, s, n, i);
    FileAddedBitmaps(g, s, s', n, i);
    FreeInGroup(g, s, n, i);
    forall m: nat, j: nat
      ensures InodeFree(g, s', m, j) <==> InodeFree(g, s, m, j) && !(m == n && j == i)
    {
      AddedFree(g, s, s', n, i, m, j);
    }
    NumbersArePositive(g);
  }

  lemma AddedFree(g: Geometry, s: Store, s': Store, n: nat, i: nat, m: nat, j: nat)
    requires BitmapsValid(g, s) && BitmapsValid(g, s') && InodeFree(g, s, n, i) && s' == FileAdded(g, s, n, i)
    ensures InodeFree(g, s', m, j) <==> InodeFree(g, s, m, j) && !(m == n && j == i)
  {
    hide Bits, FileAdded, Clear, Total, Within;
    FileAddedBitmaps(g, s, s', n, i);
    if m < |s.groups| && j < g.blocksPerGroup { FileAddedBits(g, s, s', n, i, m, InodeKind, j); }
  }

  /** Allocating an inode does not touch the inode tables. */
  lemma AddedRecord(g: Geometry, s: Store, s': Store, n: nat, i: nat, m: nat, j: nat)
    requires Valid(g, s) && Valid(g, s') && BitmapsValid(g, s) && InodeFree(g, s, n, i) && s' == FileAdded(g, s, n, i)
    requires m < |s.groups| && j < g.inodesPerGroup
    ensures m < |s'.groups| && InodeOnDisk(g, s', m, j) == InodeOnDisk(g, s, m, j)
  {
    hide Valid, BitmapsValid, FileAdded, InodeFree, InodeOnDisk, RecordAddress, Block, Within, InTable, NoBitmap,
         Geometry.IndexOf, Geometry.OffsetOf;
    ValidGeometry(g, s);
    FileAddedBitmaps(g, s, s', n, i);
    SameAddress(g, s, s', m, j);
    RecordOnDisk(g, s, m, j);
    var a := RecordAddress(g, s, m, j);
    forall q | a <= q < a + INODE_RECORD
      ensures s'.disk[q] == s.disk[q]
    {
      RecordInTable(g, s, m, j, q);
      TableIsWithin(g, s, g.IndexOf(q));
      FileAddedBlock(g, s, s', n, i, g.IndexOf(q));
      ByteOfBlock(g, s.disk, q);
      ByteOfBlock(g, s'.disk, q);
    }
    SameRecord(g, s, s', m, j, a);
  }

  lemma AddedCache(g: Geometry, s: Store, s': Store, cache: seq<nat>, n: nat, i: nat)
    requires Valid(g, s) && Valid(g, s') && BitmapsValid(g, s) && InodeFree(g, s, n, i) && s' == FileAdded(g, s, n, i)
    requires CacheValid(g, s, cache) && Number(g, InodeKind, n, i) !in s.files && |s'.groups| == |s.groups|
    ensures CacheValid(g, s', cache + [Number(g, InodeKind, n, i)])
  {
    hide Valid, BitmapsValid, FileAdded, InodeFree, Number, InodeOnDisk;
    FileAddedFiles(g, s, n, i);
    var inode := Number(g, InodeKind, n, i);
    assert inode !in cache;
    forall x | x in s'.files && x !in cache + [inode]
      ensures RecordCurrent(g, s', x)
    {
      assert x in s.files && RecordCurrent(g, s, x);
      AddedRecord(g, s, s', n, i, InodePlace(g, x).0, InodePlace(g, x).1);
    }
  }

  // ---- What every step keeps ----

  lemma FindKeeps(g: Geometry, l: Layer, entries: seq<Entry>)
    requires Base(g, l.store, l.cache) && forall i :: 0 <= i < |entries| ==> entries[i].inode in l.store.files
    ensures Base(g, l.store, CachedAll(l.cache, entries))
  {
    hide Valid, BitmapsValid, InodesMarked, GroupBase, RecordEmpty, InodeFree, RecordCurrent, Cached;
    CachedAllKeeps(l.cache, entries);
    CachedAllNames(l.cache, entries);
  }

  lemma {:induction false} CachedAllNames(cache: seq<nat>, entries: seq<Entry>)
    ensures forall x :: x in CachedAll(cache, entries) <==>
            x in cache || exists i :: 0 <= i < |entries| && entries[i].inode == x
    decreases |entries|
  {
    if entries != [] {
      CachedAllNames(Cached(cache, entries[0].inode), entries[1..]);
      forall x
        ensures x in CachedAll(cache, entries) <==>
                x in cache || exists i :: 0 <= i < |entries| && entries[i].inode == x
      {
        if i :| 0 <= i < |entries[1..]| && entries[1..][i].inode == x { assert entries[i + 1].inode == x; }
        if i :| 0 < i < |entries| && entries[i].inode == x { assert entries[1..][i - 1].inode == x; }
      }
    }
  }

  lemma {:induction false} VisitedAreEntries(entries: seq<Entry>, name: seq<byte>)
    ensures forall i :: 0 <= i < |Visited(entries, name)| ==> Visited(entries, name)[i] in entries
  {
    if entries != [] { VisitedAreEntries(entries[1..], name); }
  }

  lemma CreateKeeps(g: Geometry, l: Layer, e: Event, l': Layer, n: nat, i: nat, m: Store)
    requires Inv(g, l) && e.Create? && Step(g, l, e, l') && CreatesThrough(g, l.store, l'.store, e, n, i, m)
    ensures e.inode !in l.store.files && e.inode !in l.cache && Inv(g, l')
    ensures l'.store.files.Keys == l.store.files.Keys + {e.inode}
  {
    hide Base, ListingValid, Contents, Printed, Number, FileAdded, MetadataKept, Valid, InodeFree, BitmapsValid,
         FirstEntries, FirstBytes;
    var s, added, s' := l.store, FileAdded(g, l.store, n, i), l'.store;
    AddedKeepsBase(g, s, added, l.cache, n, i);
    WroteKeepsBase(g, added, m, l'.cache, e.directory, s.files[e.directory].size, Printed(e.inode, e.name, e.kind));
    WroteKeepsBase(g, m, s', l'.cache, e.inode, 0, FirstBytes(e.inode, e.directory, e.kind));
    forall d | d in l'.listing
      ensures ListingValid(g, s', d, l'.listing[d])
    {
      CreateKeepsListing(g, l, e, l', n, i, m, d);
    }
  }

  lemma CreateKeepsListing(g: Geometry, l: Layer, e: Event, l': Layer, n: nat, i: nat, m: Store, d: nat)
    requires Inv(g, l) && e.Create? && Step(g, l, e, l') && CreatesThrough(g, l.store, l'.store, e, n, i, m)
    requires d in l'.listing
    requires e.inode !in l.store.files
    ensures ListingValid(g, l'.store, d, l'.listing[d])
  {
    hide Base, Contents, Printed, Number, FileAdded, MetadataKept, Valid, InodeFree, BitmapsValid, FirstEntries,
         FirstBytes, Parses, EntryFor, ListingValid, Wrote;
    var s, added, s' := l.store, FileAdded(g, l.store, n, i), l'.store;
    ListingExists(g, s, e.directory, l.listing[e.directory]);
    AddedKeepsBase(g, s, added, l.cache, n, i);
    NumbersArePositive(g);
    KnownPositive(g, s, l.cache, e.directory);
    if d == e.inode {
      if d in l.listing { ListingExists(g, s, d, l.listing[d]); }
      NewListingThrough(g, added, m, s', e);
    } else if d == e.directory {
      OtherListingKept(g, s, added, d, l.listing[d]);
      ParentListing(g, added, m, s', e, l.listing[d]);
    } else {
      ListingExists(g, s, d, l.listing[d]);
      OtherListingKept(g, s, added, d, l.listing[d]);
      ListingAside(g, added, m, s', e, d, l.listing[d]);
    }
  }

  lemma NewListingThrough(g: Geometry, added: Store, m: Store, s': Store, e: Event)
    requires e.Create? && e.kind == DIRECTORY && 0 < e.inode < 0x1_0000_0000 && 0 < e.directory < 0x1_0000_0000
    requires g.Valid() && e.directory in added.files && e.inode in added.files && e.inode != e.directory
    requires Contents(g, added, e.inode) == []
    requires Wrote(g, added, m, e.directory, added.files[e.directory].size, Printed(e.inode, e.name, e.kind))
    requires Wrote(g, m, s', e.inode, 0, FirstBytes(e.inode, e.directory, e.kind))
    ensures ListingValid(g, s', e.inode, FirstEntries(e.inode, e.directory, e.kind))
  {
    hide Contents, Printed, MetadataKept, Valid, FirstEntries, FirstBytes, ListingValid;
    NewListing(g, m, s', e.inode, e.directory, e.kind);
  }

  lemma ParentListing(g: Geometry, added: Store, m: Store, s': Store, e: Event, entries: seq<Entry>)
    requires e.Create? && 0 < e.inode < 0x1_0000_0000 && e.directory < 0x1_0000_0000 && 0 !in e.name
    requires ListingValid(g, added, e.directory, entries) && e.inode in added.files && e.inode != e.directory
    requires Wrote(g, added, m, e.directory, added.files[e.directory].size, Printed(e.inode, e.name, e.kind))
    requires Wrote(g, m, s', e.inode, 0, FirstBytes(e.inode, e.directory, e.kind))
    requires s'.files[e.directory].size < 0x1_0000_0000
    ensures ListingValid(g, s', e.directory, entries + [EntryFor(e.inode, e.name, e.kind)])
  {
    hide Contents, Printed, MetadataKept, Valid, FirstBytes, Parses, EntryFor;
    SizeKept(g, m, s', e.directory);
    AppendedListing(g, added, m, e.directory, entries, e.inode, e.name, e.kind);
    OtherListingKept(g, m, s', e.directory, entries + [EntryFor(e.inode, e.name, e.kind)]);
  }

  lemma ListingAside(g: Geometry, added: Store, m: Store, s': Store, e: Event, d: nat, entries: seq<Entry>)
    requires e.Create? && e.inode < 0x1_0000_0000 && e.directory < 0x1_0000_0000 && d != e.inode && d != e.directory
    requires ListingValid(g, added, d, entries) && e.directory in added.files
    requires Wrote(g, added, m, e.directory, added.files[e.directory].size, Printed(e.inode, e.name, e.kind))
    requires Wrote(g, m, s', e.inode, 0, FirstBytes(e.inode, e.directory, e.kind))
    ensures ListingValid(g, s', d, entries)
  {
    hide Contents, Printed, MetadataKept, Valid, FirstBytes, Parses;
    OtherListingKept(g, added, m, d, entries);
    OtherListingKept(g, m, s', d, entries);
  }

  lemma KnownPositive(g: Geometry, s: Store, cache: seq<nat>, inode: nat)
    requires Base(g, s, cache) && inode in s.files
    ensures inode > 0
  {
    hide Valid, BitmapsValid, CacheValid, RecordEmpty, InodeFree, GroupBase;
  }

  lemma SizeKept(g: Geometry, s: Store, s': Store, d: nat)
    requires g.Valid() && d in s.files && d in s'.files && s'.files[d] == s.files[d]
    ensures s'.files[d].size == s.files[d].size
  {
  }

  /** The two entries of a new directory. */
  lemma NewListing(g: Geometry, s: Store, s': Store, inode: nat, parent: nat, kind: byte)
    requires kind == DIRECTORY && 0 < inode < 0x1_0000_0000 && 0 < parent < 0x1_0000_0000 && inode in s.files
    requires parent in s.files
    requires g.Valid() && Contents(g, s, inode) == [] && Wrote(g, s, s', inode, 0, FirstBytes(inode, parent, kind))
    ensures ListingValid(g, s', inode, FirstEntries(inode, parent, kind))
  {
    hide Valid, ByteAt, MetadataKept, FirstBytes, FirstEntries, Parses;
    var bytes := FirstBytes(inode, parent, kind);
    assert Spliced([], 0, bytes) == bytes;
    FirstEntriesParse(inode, parent);
    FirstEntriesKnown(s', inode, parent);
    assert |Contents(g, s', inode)| == |bytes|;
  }

  lemma FirstEntriesKnown(s: Store, inode: nat, parent: nat)
    requires 0 < inode && 0 < parent && inode in s.files && parent in s.files
    ensures forall i :: 0 <= i < |FirstEntries(inode, parent, DIRECTORY)| ==>
              FirstEntries(inode, parent, DIRECTORY)[i].inode != 0
              && FirstEntries(inode, parent, DIRECTORY)[i].inode in s.files
  {
    hide EntrySize, NameLength;
  }

  lemma FirstEntriesParse(inode: nat, parent: nat)
    requires inode < 0x1_0000_0000 && parent < 0x1_0000_0000
    ensures Parses(FirstBytes(inode, parent, DIRECTORY), 0, FirstEntries(inode, parent, DIRECTORY))
    ensures |FirstBytes(inode, parent, DIRECTORY)| == 24
  {
    hide Printed, Parses;
    var first, entry := Printed(inode, DOT, DIRECTORY), EntryFor(inode, DOT, DIRECTORY);
    NothingParsed();
    AppendedEntry([], [], inode, DOT, DIRECTORY);
    assert [] + first == first && [] + [entry] == [entry];
    AppendedEntry(first, [entry], parent, DOT_DOT, DIRECTORY);
    assert [entry] + [EntryFor(parent, DOT_DOT, DIRECTORY)] == FirstEntries(inode, parent, DIRECTORY);
  }

  lemma NothingParsed()
    ensures Parses([], 0, [])
  {
  }

  /** Every step keeps the invariant, and a created inode is one that did not exist and was not cached. */
  lemma StepKeeps(g: Geometry, l: Layer, e: Event, l': Layer)
    requires Inv(g, l) && Step(g, l, e, l')
    ensures Inv(g, l') && l.store.files.Keys <= l'.store.files.Keys
    ensures e.Create? ==> e.inode !in l.store.files && e.inode !in l.cache && e.inode in l'.store.files
  {
    hide Base, ListingValid, Contents, MetadataKept, Valid, CreatesThrough;
    match e
    case Find(directory, name) =>
      FindStepKeeps(g, l, directory, name);
    case Create(directory, name, inode, kind) =>
      var n, i, m :| CreatesThrough(g, l.store, l'.store, e, n, i, m);
      CreateKeeps(g, l, e, l', n, i, m);
    case Write(inode, at, data) =>
      WroteKeepsBase(g, l.store, l'.store, l.cache, inode, at, data);
      forall d | d in l.listing
        ensures ListingValid(g, l'.store, d, l.listing[d])
      {
        ListingExists(g, l.store, d, l.listing[d]);
        OtherListingKept(g, l.store, l'.store, d, l.listing[d]);
      }
    case Truncate(inode) =>
      MetadataKeepsBase(g, l.store, l'.store, l.cache, inode);
      forall d | d in l.listing
        ensures ListingValid(g, l'.store, d, l.listing[d])
      {
        ListingExists(g, l.store, d, l.listing[d]);
        OtherListingKept(g, l.store, l'.store, d, l.listing[d]);
      }
  }

  lemma ListingExists(g: Geometry, s: Store, d: nat, entries: seq<Entry>)
    requires ListingValid(g, s, d, entries)
    ensures g.Valid() && d in s.files
  {
  }

  lemma FindStepKeeps(g: Geometry, l: Layer, directory: nat, name: seq<byte>)
    requires Inv(g, l) && directory in l.listing
    ensures Base(g, l.store, CachedAll(l.cache, Visited(l.listing[directory], name)))
  {
    hide Base, Contents, Parses;
    var entries := l.listing[directory];
    assert ListingValid(g, l.store, directory, entries);
    VisitedAreEntries(entries, name);
    FindKeeps(g, l, Visited(entries, name));
  }

  // ---- Whole runs ----

  ghost predicate IsRun(g: Geometry, states: seq<Layer>, events: seq<Event>) {
    && |states| == |events| + 1 && Inv(g, states[0])
    && forall k :: 0 <= k < |events| ==> Step(g, states[k], events[k], states[k + 1])
  }

  /** In every state of every run no inode is cached twice, every cached inode exists, every other one is current on
      disk, and every directory parses. */
  lemma {:induction false} InvariantOverRuns(g: Geometry, states: seq<Layer>, events: seq<Event>, k: nat)
    requires IsRun(g, states, events) && k <= |events|
    ensures Inv(g, states[k]) && Distinct(states[k].cache)
  {
    hide Step;
    if k > 0 {
      InvariantOverRuns(g, states, events, k - 1);
      hide Inv;
      StepKeeps(g, states[k - 1], events[k - 1], states[k]);
    }
    CacheIsDistinct(g, states[k]);
  }

  lemma CacheIsDistinct(g: Geometry, l: Layer)
    requires Inv(g, l)
    ensures Distinct(l.cache) && forall inode :: inode in l.cache ==> inode in l.store.files
  {
    hide Valid, BitmapsValid, InodesMarked;
  }

  lemma {:induction false} FilesRemain(g: Geometry, states: seq<Layer>, events: seq<Event>, j: nat, k: nat)
    requires IsRun(g, states, events) && j <= k <= |events|
    ensures states[j].store.files.Keys <= states[k].store.files.Keys
    decreases k
  {
    hide Step, Inv;
    if j < k {
      FilesRemain(g, states, events, j, k - 1);
      InvariantOverRuns(g, states, events, k - 1);
      StepKeeps(g, states[k - 1], events[k - 1], states[k]);
    }
  }

  /** Every created inode is new: it did not exist, it was not cached, and no earlier Create returned it. */
  lemma CreatedIsNew(g: Geometry, states: seq<Layer>, events: seq<Event>, j: nat, k: nat)
    requires IsRun(g, states, events) && j < k < |events| && events[k].Create?
    ensures events[k].inode !in states[k].store.files && events[k].inode !in states[k].cache
    ensures events[j].Create? ==> events[j].inode != events[k].inode
  {
    hide Step, Inv;
    InvariantOverRuns(g, states, events, j);
    InvariantOverRuns(g, states, events, k);
    StepKeeps(g, states[j], events[j], states[j + 1]);
    StepKeeps(g, states[k], events[k], states[k + 1]);
    FilesRemain(g, states, events, j + 1, k);
  }
}

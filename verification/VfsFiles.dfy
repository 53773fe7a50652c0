/** Reading, writing and seeking through an open file (VFS::Read, Write and RepositionOffset in kernel/src/VFS.cpp)
    for regular files. */
module VfsFiles {
  import opened Words
  import opened Ext2Layout
  import opened Ext2Files
  import opened Ext2Writes
  import opened Ext2Metadata
  import opened Directories
  import opened Ext2

  datatype Error = NoError | BadFileDescriptor

  datatype SeekType = Set | Cursor | End

  /** The contents extended with zeros up to `n`: the gap rule of lseek() in POSIX.1-2017 XSH. */
  function Padded(s: seq<byte>, n: nat): (r: seq<byte>)
    ensures |r| == if n <= |s| then |s| else n
    ensures forall k :: 0 <= k < |r| ==> r[k] == if k < |s| then s[k] else 0
  {
    if n <= |s| then s else s + Zeros(n - |s|)
  }

  /** Where a seek lands, in 64-bit unsigned arithmetic. */
  function SeekTarget(offset: nat, size: nat, delta: int, whence: SeekType): (r: nat)
    ensures r < WORD
  {
    match whence
    case Set => delta % WORD
    case Cursor => (offset + delta) % WORD
    case End => (size + delta) % WORD
  }

  /** A seek lands where it should exactly when that is neither negative nor too large. */
  lemma SeekExact(offset: nat, size: nat, delta: int, whence: SeekType)
    ensures var wanted := (match whence case Set => 0 case Cursor => offset case End => size) + delta;
            SeekTarget(offset, size, delta, whence) == wanted <==> 0 <= wanted < WORD
  {
  }

  /** The handle shared by all descriptors that were copied from one another. */
  class FileHandle {
    var inode: nat
    var offset: nat
    var readMode: bool
    var writeMode: bool
    var appendMode: bool

    constructor (inode: nat, readMode: bool, writeMode: bool, appendMode: bool)
      ensures this.inode == inode && offset == 0 && this.readMode == readMode && this.writeMode == writeMode
      ensures this.appendMode == appendMode
    {
      this.inode, offset, this.readMode, this.writeMode, this.appendMode := inode, 0, readMode, writeMode, appendMode;
    }
  }

  class OpenFiles {
    const fs: Ext2FileSystem

    constructor (fs: Ext2FileSystem)
      ensures this.fs == fs
    {
      this.fs := fs;
    }

    ghost function Bytes(inode: nat): seq<byte>
      requires fs.g.Valid() && inode in fs.files
      reads fs
    {
      Contents(fs.g, fs.Now(), inode)
    }

    /** Fills the gap byte by byte, then writes the buffer and moves the shared offset past it: two writes of the
        file system, with the store `filled` between them. */
    method Write(handle: FileHandle, buffer: seq<byte>) returns (wroteCount: nat, error: Error, ghost filled: Store)
      requires Valid(fs.g, fs.Now()) && fs.g.Valid() && handle.inode in fs.files
      requires var size := fs.files[handle.inode].size;
               var at := if handle.appendMode then size else handle.offset;
               at + |buffer| < 0x1_0000_0000
               && Affordable(fs.g, fs.Now(), handle.inode, if at < size then at else size, at + |buffer|, 0)
      modifies handle`offset, fs
      ensures error == if old(handle.writeMode) then NoError else BadFileDescriptor
      ensures error.BadFileDescriptor? ==>
                wroteCount == 0 && fs.Now() == old(fs.Now()) && handle.offset == old(handle.offset)
      ensures error.NoError? ==>
                var before := old(Bytes(handle.inode));
                var at := if handle.appendMode then |before| else old(handle.offset);
                && wroteCount == |buffer| && handle.offset == at + |buffer|
                && Valid(fs.g, fs.Now()) && fs.files.Keys == old(fs.files).Keys
                && Bytes(handle.inode) == Spliced(Padded(before, at), at, buffer)
                && (forall other :: other in fs.files && other != handle.inode ==> Bytes(other) == old(Bytes(other)))
                && Wrote(fs.g, old(fs.Now()), filled, handle.inode, |before|, if at <= |before| then []
                                                                              else Zeros(at - |before|))
                && Wrote(fs.g, filled, fs.Now(), handle.inode, at, buffer)
    {
      hide Valid, Affordable, ByteAt, Contents, Spliced, Padded, Zeros, Wrote;
      filled := fs.Now();
      if !handle.writeMode { return 0, BadFileDescriptor, filled; }
      ghost var before := Bytes(handle.inode);
      ContentsLength(fs.g, fs.Now(), handle.inode);
      if handle.appendMode { handle.offset := fs.files[handle.inode].size; }
      PaddedNothing(before, handle.offset);
      WroteNothing(fs.g, fs.Now(), handle.inode);
      if handle.offset > fs.files[handle.inode].size {
        FillGap(handle, handle.offset + |buffer|);
      }
      filled := fs.Now();
      wroteCount := fs.Write(handle.inode, buffer, handle.offset, handle.offset + |buffer|, 0);
      handle.offset := handle.offset + wroteCount;
      error := NoError;
    }

    /** The zero-fill loop: afterwards the size assert of the code holds. */
    method FillGap(handle: FileHandle, ghost end: nat)
      requires Valid(fs.g, fs.Now()) && fs.g.Valid() && handle.inode in fs.files
      requires fs.files[handle.inode].size < handle.offset <= end < 0x1_0000_0000
      requires Affordable(fs.g, fs.Now(), handle.inode, fs.files[handle.inode].size, end, 0)
      modifies fs
      ensures Valid(fs.g, fs.Now()) && fs.files.Keys == old(fs.files).Keys
      ensures fs.files[handle.inode].size == handle.offset
      ensures Affordable(fs.g, fs.Now(), handle.inode, handle.offset, end, 0)
      ensures Bytes(handle.inode) == Padded(old(Bytes(handle.inode)), handle.offset)
      ensures var size := old(fs.files)[handle.inode].size;
              Wrote(fs.g, old(fs.Now()), fs.Now(), handle.inode, size, Zeros(handle.offset - size))
      ensures forall other :: other in fs.files && other != handle.inode ==> Bytes(other) == old(Bytes(other))
    {
      hide Valid, Affordable, ByteAt, Contents, Spliced, Padded, Zeros, Wrote;
      ghost var before, s := Bytes(handle.inode), fs.Now();
      WroteNothing(fs.g, s, handle.inode);
      ZerosAppended(before, 0);
      var originalFileSize := fs.files[handle.inode].size;
      ContentsLength(fs.g, fs.Now(), handle.inode);
      PaddedNothing(before, originalFileSize);
      var i := 0;
      while i < handle.offset - originalFileSize
        invariant 0 <= i <= handle.offset - originalFileSize && Valid(fs.g, fs.Now())
        invariant fs.files.Keys == old(fs.files).Keys
        invariant handle.inode in fs.files && fs.files[handle.inode].size == originalFileSize + i
        invariant Affordable(fs.g, fs.Now(), handle.inode, originalFileSize + i, end, 0)
        invariant Bytes(handle.inode) == Padded(before, originalFileSize + i)
        invariant Wrote(fs.g, s, fs.Now(), handle.inode, originalFileSize, Zeros(i))
        invariant forall other :: other in fs.files && other != handle.inode ==> Bytes(other) == old(Bytes(other))
      {
        ZeroAppended(before, originalFileSize + i);
        ghost var m := fs.Now();
        ZeroWritten(handle.inode, originalFileSize + i, end);
        WroteTwice(fs.g, s, m, fs.Now(), handle.inode, Zeros(i), [0]);
        ZerosAppended(before, i);
        i := i + 1;
      }
    }

    /** One turn of the zero-fill loop. */
    method ZeroWritten(inode: nat, at: nat, ghost end: nat)
      requires Valid(fs.g, fs.Now()) && fs.g.Valid() && inode in fs.files
      requires fs.files[inode].size == at < end < 0x1_0000_0000
      requires Affordable(fs.g, fs.Now(), inode, at, end, 0)
      modifies fs
      ensures Valid(fs.g, fs.Now()) && fs.files.Keys == old(fs.files).Keys && fs.files[inode].size == at + 1
      ensures Affordable(fs.g, fs.Now(), inode, at + 1, end, 0)
      ensures Bytes(inode) == old(Bytes(inode)) + [0] && Wrote(fs.g, old(fs.Now()), fs.Now(), inode, at, [0])
      ensures forall other :: other in fs.files && other != inode ==> Bytes(other) == old(Bytes(other))
    {
      hide Valid, Affordable, ByteAt, Contents, Wrote;
      ContentsLength(fs.g, fs.Now(), inode);
      var _ := fs.Write(inode, [0], at, end, 0);
      ContentsLength(fs.g, fs.Now(), inode);
      assert Spliced(old(Bytes(inode)), at, [0]) == old(Bytes(inode)) + [0];
    }

    /** Reads from the shared offset and moves it. The file is overrun exactly when the offset lies beyond its end or
        wraps with the count. */
    method Read(handle: FileHandle, count: nat) returns (outcome: ReadOutcome, error: Error)
      requires Valid(fs.g, fs.Now()) && fs.g.Valid() && handle.inode in fs.files
      requires fs.files[handle.inode].size < 0x1_0000_0000 && handle.offset < WORD && count < WORD
      modifies handle`offset, fs
      ensures fs.Now() == old(fs.Now())
      ensures error == if handle.readMode then NoError else BadFileDescriptor
      ensures error.BadFileDescriptor? ==> outcome == ReadOutcome.Bytes([]) && handle.offset == old(handle.offset)
      ensures error.NoError? ==>
                (outcome.Bytes? <==>
                 old(handle.offset) <= fs.files[handle.inode].size && old(handle.offset) + count < WORD)
      ensures error.NoError? && outcome.Bytes? ==>
                var size := fs.files[handle.inode].size;
                && handle.offset == (if old(handle.offset) + count <= size then old(handle.offset) + count else size)
                && outcome.data == Bytes(handle.inode)[old(handle.offset)..handle.offset]
    {
      hide Valid, ByteAt, Contents;
      if !handle.readMode { return ReadOutcome.Bytes([]), BadFileDescriptor; }
      ContentsLength(fs.g, fs.Now(), handle.inode);
      outcome := fs.Read(handle.inode, count, handle.offset);
      if outcome.Bytes? { handle.offset := handle.offset + |outcome.data|; }
      error := NoError;
    }

    method RepositionOffset(handle: FileHandle, offset: int, seekType: SeekType) returns (position: nat)
      requires handle.inode in fs.files
      modifies handle`offset
      ensures position == handle.offset == SeekTarget(old(handle.offset), fs.files[handle.inode].size, offset, seekType)
      ensures var start := match seekType
                           case Set => 0
                           case Cursor => old(handle.offset)
                           case End => fs.files[handle.inode].size;
              handle.offset == (start + offset) % 0x1_0000_0000_0000_0000
    {
      match seekType {
        case Set => handle.offset := offset % WORD;
        case Cursor => handle.offset := (handle.offset + offset) % WORD;
        case End => handle.offset := (fs.files[handle.inode].size + offset) % WORD;
      }
      position := handle.offset;
    }
  }

  lemma PaddedNothing(s: seq<byte>, n: nat)
    ensures n <= |s| ==> Padded(s, n) == s
  {
  }

  lemma ZeroAppended(s: seq<byte>, n: nat)
    requires n >= |s|
    ensures Padded(s, n) + [0] == Padded(s, n + 1)
  {
  }
}

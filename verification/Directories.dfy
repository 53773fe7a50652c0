/** The directory stream (Ext2::WriteDirectoryEntry, ReadDirectory and FindInDirectory in kernel/src/Ext2.cpp;
    section "Linked List Directory" of "The Second Extended File System: Internal Layout") as a printer and a parser
    over bytes. */
module Directories {
  import opened Words
  import opened DiskBlocks

  /** One entry as the stream holds it; `size` is the distance to the next entry. */
  datatype Entry = Entry(inode: nat, name: seq<byte>, kind: byte, size: nat)

  const HEADER_SIZE: nat := 8

  // ---- Printing ----

  function U32Bytes(n: nat): (r: seq<byte>)
    requires n < 0x1_0000_0000
    ensures |r| == 4
  {
    [n % 0x100, n / 0x100 % 0x100, n / 0x1_0000 % 0x100, n / 0x100_0000]
  }

  function U16(s: seq<byte>, at: nat): nat
    requires at + 2 <= |s|
  {
    var low: nat, high: nat := s[at], s[at + 1];
    low + 0x100 * high
  }

  function Zeros(n: nat): (r: seq<byte>)
    ensures |r| == n
  {
    seq(n, _ => 0)
  }

  lemma ZerosAppended(s: seq<byte>, n: nat)
    ensures Zeros(0) == [] && s + Zeros(0) == s
    ensures Zeros(n) + [0] == Zeros(n + 1) && s + Zeros(n) + [0] == s + Zeros(n + 1)
  {
    assert Zeros(n) + [0] == Zeros(n + 1);
    assert s + Zeros(n) + [0] == s + (Zeros(n) + [0]);
  }

  /** The length byte keeps only the low eight bits of the name's length. */
  function NameLength(name: seq<byte>): (r: nat)
    ensures r < 256 && r <= |name|
  {
    |name| % 256
  }

  /** Always at least one byte, so that the stored name is NUL-terminated. */
  function Padding(name: seq<byte>): (r: nat)
    ensures 1 <= r <= 4
  {
    4 - NameLength(name) % 4
  }

  function EntrySize(name: seq<byte>): (r: nat)
    ensures r % 4 == 0 && HEADER_SIZE < r <= 268
  {
    HEADER_SIZE + NameLength(name) + Padding(name)
  }

  function Header(inode: nat, name: seq<byte>, kind: byte): (r: seq<byte>)
    requires inode < 0x1_0000_0000
    ensures |r| == HEADER_SIZE
  {
    U32Bytes(inode) + [EntrySize(name) % 0x100, EntrySize(name) / 0x100, NameLength(name), kind]
  }

  /** The bytes WriteDirectoryEntry appends. */
  function Printed(inode: nat, name: seq<byte>, kind: byte): (r: seq<byte>)
    requires inode < 0x1_0000_0000
    ensures |r| == EntrySize(name)
  {
    Header(inode, name, kind) + name[..NameLength(name)] + Zeros(Padding(name))
  }

  // ---- Parsing ----

  /** A C string: everything before the first NUL. */
  function UpToNul(s: seq<byte>): (r: seq<byte>)
    ensures |r| <= |s| && r == s[..|r|] && 0 !in r && (|r| < |s| ==> s[|r|] == 0)
  {
    if s == [] || s[0] == 0 then [] else [s[0]] + UpToNul(s[1..])
  }

  lemma {:induction false} UpToNulWhole(s: seq<byte>)
    requires 0 !in s
    ensures UpToNul(s) == s
  {
    if s != [] { UpToNulWhole(s[1..]); }
  }

  /** The header and the name at `at` lie inside the stream. */
  predicate EntryFits(s: seq<byte>, at: nat) {
    && at + HEADER_SIZE <= |s|
    && at + HEADER_SIZE + s[at + 6] <= |s|
    && HEADER_SIZE + s[at + 6] <= U16(s, at + 4)
    && at + U16(s, at + 4) <= |s|
  }

  /** ReadDirectory. */
  function EntryAt(s: seq<byte>, at: nat): (e: Entry)
    requires EntryFits(s, at)
    ensures e.size >= HEADER_SIZE
  {
    var length: nat := s[at + 6];
    Entry(U32(s, at), UpToNul(s[at + HEADER_SIZE..at + HEADER_SIZE + length]), s[at + 7], U16(s, at + 4))
  }

  /** The entry in terms of its bytes: little-endian inode and size, the kind, and the name up to its length or its
      first NUL. */
  lemma EntryBytes(s: seq<byte>, at: nat)
    requires EntryFits(s, at)
    ensures var e, n := EntryAt(s, at), |EntryAt(s, at).name|;
            var b0: int, b1: int, b2: int, b3: int, b4: int, b5: int :=
              s[at], s[at + 1], s[at + 2], s[at + 3], s[at + 4], s[at + 5];
            && e.inode == b0 + 0x100 * b1 + 0x1_0000 * b2 + 0x100_0000 * b3
            && e.size == b4 + 0x100 * b5 && e.kind == s[at + 7]
            && n <= s[at + 6] && e.name == s[at + 8..at + 8 + n] && 0 !in e.name
            && (n < s[at + 6] ==> s[at + 8 + n] == 0)
  {
    hide UpToNul;
    var field := s[at + 8..at + 8 + s[at + 6]];
    var name := UpToNul(field);
    assert field[..|name|] == s[at + 8..at + 8 + |name|];
  }

  /** The bytes of `s` from `at` on are exactly the entries `entries`. */
  ghost predicate Parses(s: seq<byte>, at: nat, entries: seq<Entry>)
    decreases |entries|
  {
    if entries == [] then at == |s|
    else EntryFits(s, at) && EntryAt(s, at) == entries[0] && Parses(s, at + entries[0].size, entries[1..])
  }

  // ---- The round trip ----

  lemma U32RoundTrip(n: nat, s: seq<byte>, at: nat)
    requires n < 0x1_0000_0000 && at + 4 <= |s| && s[at..at + 4] == U32Bytes(n)
    ensures U32(s, at) == n
  {
    var slice := s[at..at + 4];
    assert slice[0] == s[at] && slice[1] == s[at + 1] && slice[2] == s[at + 2] && slice[3] == s[at + 3];
    var b0: nat, b1: nat, b2: nat, b3: nat := n % 0x100, n / 0x100 % 0x100, n / 0x1_0000 % 0x100, n / 0x100_0000;
    assert n == b0 + 0x100 * b1 + 0x1_0000 * b2 + 0x100_0000 * b3;
  }

  /** The printed entry is read back; its name is the given one up to the kept length. */
  lemma PrintedParses(before: seq<byte>, inode: nat, name: seq<byte>, kind: byte)
    requires inode < 0x1_0000_0000 && 0 !in name
    ensures var s := before + Printed(inode, name, kind);
            && EntryFits(s, |before|)
            && EntryAt(s, |before|) == Entry(inode, name[..NameLength(name)], kind, EntrySize(name))
  {
    hide Printed, Header, U32Bytes, U32, UpToNul, Padding, NameLength;
    var entry := Printed(inode, name, kind);
    var s, at := before + entry, |before|;
    PrintedHeader(inode, name, kind);
    assert s[at + 4] == entry[4] && s[at + 5] == entry[5] && s[at + 6] == entry[6] && s[at + 7] == entry[7];
    assert s[at..at + 4] == entry[..4];
    U32RoundTrip(inode, s, at);
    var kept := name[..NameLength(name)];
    assert s[at + 8..at + 8 + NameLength(name)] == entry[8..8 + NameLength(name)];
    UpToNulWhole(kept);
  }

  lemma PrintedHeader(inode: nat, name: seq<byte>, kind: byte)
    requires inode < 0x1_0000_0000
    ensures var entry := Printed(inode, name, kind);
            && entry[..4] == U32Bytes(inode) && U16(entry, 4) == EntrySize(name)
            && entry[6] == NameLength(name) && entry[7] == kind
            && 8 + NameLength(name) <= |entry| && entry[8..8 + NameLength(name)] == name[..NameLength(name)]
  {
    var entry, header := Printed(inode, name, kind), Header(inode, name, kind);
    assert forall i :: 0 <= i < 8 ==> entry[i] == header[i];
  }

  lemma SameEntryInPrefix(s: seq<byte>, more: seq<byte>, at: nat)
    requires EntryFits(s, at)
    ensures EntryFits(s + more, at) && EntryAt(s + more, at) == EntryAt(s, at) && at + EntryAt(s, at).size <= |s|
  {
    hide UpToNul;
    var t := s + more;
    var length: nat := s[at + 6];
    assert forall i :: 0 <= i < |s| ==> t[i] == s[i];
    assert t[at + HEADER_SIZE..at + HEADER_SIZE + length] == s[at + HEADER_SIZE..at + HEADER_SIZE + length];
  }

  lemma {:induction false} ParsesAppended(s: seq<byte>, at: nat, entries: seq<Entry>, more: seq<byte>, last: Entry)
    requires Parses(s, at, entries) && at <= |s| && Parses(s + more, |s|, [last])
    ensures Parses(s + more, at, entries + [last])
    decreases |entries|
  {
    hide EntryFits, EntryAt, Parses;
    ParsesUnfolds(s, at, entries);
    ParsesUnfolds(s + more, at, entries + [last]);
    if entries == [] {
      assert entries + [last] == [last];
    } else {
      SameEntryInPrefix(s, more, at);
      ParsesAppended(s, at + entries[0].size, entries[1..], more, last);
      assert (entries + [last])[1..] == entries[1..] + [last];
    }
  }

  lemma ParsesUnfolds(s: seq<byte>, at: nat, entries: seq<Entry>)
    ensures entries == [] ==> (Parses(s, at, entries) <==> at == |s|)
    ensures entries != [] ==>
              (Parses(s, at, entries) <==>
               EntryFits(s, at) && EntryAt(s, at) == entries[0] && Parses(s, at + entries[0].size, entries[1..]))
  {
    hide EntryFits, EntryAt;
  }

  /** Appending a printed entry appends exactly that entry to the parsed list. */
  lemma AppendedEntry(s: seq<byte>, entries: seq<Entry>, inode: nat, name: seq<byte>, kind: byte)
    requires Parses(s, 0, entries) && inode < 0x1_0000_0000 && 0 !in name
    ensures Parses(s + Printed(inode, name, kind), 0,
                   entries + [Entry(inode, name[..NameLength(name)], kind, EntrySize(name))])
  {
    var last := Entry(inode, name[..NameLength(name)], kind, EntrySize(name));
    PrintedParses(s, inode, name, kind);
    assert Parses(s + Printed(inode, name, kind), |s|, [last]);
    ParsesAppended(s, 0, entries, Printed(inode, name, kind), last);
  }

  /** The name survives exactly when it is at most 255 bytes long. */
  lemma NameKeptExactly(name: seq<byte>)
    ensures name[..NameLength(name)] == name <==> |name| <= 255
  {
  }

  /** A stream parses in one way only. */
  lemma {:induction false} ParseUnique(s: seq<byte>, at: nat, a: seq<Entry>, b: seq<Entry>)
    requires Parses(s, at, a) && Parses(s, at, b)
    ensures a == b
    decreases |a|
  {
    if a != [] && b != [] {
      ParseUnique(s, at + a[0].size, a[1..], b[1..]);
    }
  }
}

/** What CopyPages has to achieve, stated over snapshots of physical memory and of the frame allocator. */
module PageCopies {
  import opened Common
  import opened PageEntries
  import opened PageFrames
  import opened PageTrees

  datatype Snapshot = Snapshot(frames: Memory, bits: seq<bool>, cursor: nat) {
    ghost predicate Valid() {
      cursor <= |bits| <= |frames| <= FRAMES_LIMIT
    }

    ghost predicate Used(frame: nat) {
      frame < |bits| && bits[frame]
    }

    /** Frames the allocator can still hand out. */
    ghost function Free(): nat {
      FreeAbove(bits, cursor)
    }

    ghost function Store(frame: nat, content: Table): Snapshot
      requires frame < |frames|
    {
      this.(frames := frames[frame := content])
    }
  }

  /** `made` are exactly the frames allocated from `s` to `s'`, each once, and every frame that was in use
      before, other than `table`, is unchanged. */
  ghost predicate Allocated(s: Snapshot, s': Snapshot, made: seq<nat>, table: nat) {
    && s.Valid() && s'.Valid() && |s.frames| == |s'.frames| && s.Used(table)
    && Distinct(made)
    && (forall x :: x in made ==> !s.Used(x))
    && (forall x: nat :: s'.Used(x) <==> s.Used(x) || x in made)
    && (forall x: nat :: s.Used(x) && x != table ==> s.frames[x] == s'.frames[x])
    && s'.Free() + |made| == s.Free()
  }

  lemma AllocatedTwice(s: Snapshot, m: Snapshot, s': Snapshot, made: seq<nat>, made': seq<nat>, table: nat)
    requires Allocated(s, m, made, table) && Allocated(m, s', made', table)
    ensures Allocated(s, s', made + made', table)
  {
    DistinctConcat(made, made');
  }

  /** What the code demands before copying the first `n` entries of `original` to `table`. */
  ghost predicate Copyable(s: Snapshot, original: nat, table: nat, level: nat, n: nat) {
    && s.Valid() && n <= 512 && s.Used(original) && s.Used(table) && original != table
    && (forall x :: x in Reach(s.frames, original, level, n, true) ==> s.Used(x) && x != table)
    && forall i :: 0 <= i < n ==> !IsPresent(s.frames[table][i])
  }

  ghost predicate EntryCopyable(s: Snapshot, entry: word, table: nat, index: nat, level: nat) {
    && s.Valid() && index < 512 && s.Used(table)
    && IsPresent(entry) && !IsPresent(s.frames[table][index])
    && forall x :: x in ReachEntry(s.frames, entry, level, true) ==> s.Used(x) && x != table
  }

  /** The first `n` entries of `table` are a deep copy of those of `original`, on fresh frames. */
  ghost predicate Duplicated(s: Snapshot, s': Snapshot, original: nat, table: nat, level: nat, n: nat)
    requires n <= 512
  {
    var made := Reach(s'.frames, table, level, n, true);
    && Allocated(s, s', made, table)
    && |made| == |Reach(s.frames, original, level, n, true)|
    && Copied(s.frames, original, s'.frames, table, level, n)
    && forall i :: n <= i < 512 ==> s'.frames[table][i] == s.frames[table][i]
  }

  ghost predicate EntryDuplicated(s: Snapshot, s': Snapshot, entry: word, table: nat, index: nat, level: nat)
    requires index < 512
  {
    var entry' := Content(s'.frames, table)[index];
    var made := ReachEntry(s'.frames, entry', level, true);
    && Allocated(s, s', made, table)
    && |made| == |ReachEntry(s.frames, entry, level, true)|
    && CopiedEntry(s.frames, entry, s'.frames, entry', level)
    && forall i :: 0 <= i < 512 && i != index ==> s'.frames[table][i] == s.frames[table][i]
  }

  lemma NothingCopiedYet(s: Snapshot, original: nat, table: nat, level: nat, n: nat)
    requires Copyable(s, original, table, level, n)
    ensures n <= 512 && Duplicated(s, s, original, table, level, 0)
  {
  }

  /** Every frame of the copy was paid for. */
  lemma FramesSpent(s: Snapshot, s': Snapshot, original: nat, table: nat, level: nat, n: nat)
    requires n <= 512 && Duplicated(s, s', original, table, level, n)
    ensures s'.Free() + |Reach(s.frames, original, level, n, true)| == s.Free()
  {
  }

  /** Part-way through, the next present entry of the original is as it was and can be copied. */
  lemma NextEntry(s: Snapshot, m: Snapshot, original: nat, table: nat, level: nat, n: nat, k: nat)
    requires Copyable(s, original, table, level, n) && k < n <= 512 && Duplicated(s, m, original, table, level, k)
    ensures n <= 512 && original < |m.frames| && original < |s.frames| && m.frames[original] == s.frames[original]
    ensures |Reach(s.frames, original, level, k + 1, true)|
         == |Reach(s.frames, original, level, k, true)| + |ReachEntry(s.frames, s.frames[original][k], level, true)|
    ensures var entry := s.frames[original][k];
            && ReachEntry(m.frames, entry, level, true) == ReachEntry(s.frames, entry, level, true)
            && (IsPresent(entry) ==> EntryCopyable(m, entry, table, k, level))
  {
    var entry := s.frames[original][k];
    ReachContains(s.frames, original, level, n, k, true);
    EntryTablesAmongReached(s.frames, entry, level);
    ReachEntryFrame(s.frames, m.frames, entry, level, true);
    assert m.frames[table][k] == s.frames[table][k];
  }

  lemma AbsentEntryCopied(s: Snapshot, m: Snapshot, original: nat, table: nat, level: nat, n: nat, k: nat)
    requires Copyable(s, original, table, level, n) && k < n <= 512 && Duplicated(s, m, original, table, level, k)
    requires !IsPresent(s.frames[original][k])
    ensures Duplicated(s, m, original, table, level, k + 1)
  {
    assert m.frames[table][k] == s.frames[table][k];
  }

  lemma PresentEntryCopied(s: Snapshot, m: Snapshot, s': Snapshot, original: nat, table: nat, level: nat, n: nat,
                           k: nat)
    requires Copyable(s, original, table, level, n) && k < n <= 512 && Duplicated(s, m, original, table, level, k)
    requires IsPresent(s.frames[original][k]) && EntryDuplicated(m, s', s.frames[original][k], table, k, level)
    ensures Duplicated(s, s', original, table, level, k + 1)
  {
    var entry, entry' := s.frames[original][k], s'.frames[table][k];
    var made, made' := Reach(m.frames, table, level, k, true), ReachEntry(s'.frames, entry', level, true);
    NextEntry(s, m, original, table, level, n, k);
    TablesAmongReached(m.frames, table, level, k);
    ReachFrame(m.frames, s'.frames, table, level, k, true);
    AllocatedTwice(s, m, s', made, made', table);
    CopiedFrame(s.frames, s.frames, original, m.frames, s'.frames, table, level, k);
    ReachContains(s.frames, original, level, n, k, true);
    CopiedEntryFrame(m.frames, s.frames, entry, s'.frames, s'.frames, entry', level);
  }

  /** `r` is `s` after RequestPageFrame answered `next`. */
  ghost predicate Requested(s: Snapshot, r: Snapshot, next: nat) {
    && s.Valid() && r.Valid() && r.frames == s.frames
    && next < |s.bits| && !s.bits[next] && r.bits == s.bits[next := true]
    && r.Free() + 1 == s.Free()
  }

  /** The copied entry redirected to frame `next`, and that frame filled with `content`. */
  ghost function Linked(r: Snapshot, entry: word, table: nat, index: nat, next: nat, content: Table): Snapshot
    requires table < |r.frames| && next < |r.frames| <= FRAMES_LIMIT && index < 512
  {
    r.Store(table, r.frames[table][index := SetPhysicalAddress(entry, AddressOf(next))]).Store(next, content)
  }

  lemma FirstReached(mem: Memory, entry: word, level: nat)
    requires IsPresent(entry)
    ensures FrameOf(entry) in ReachEntry(mem, entry, level, true)
    ensures level > 0 ==>
              ReachEntry(mem, entry, level, true) == [FrameOf(entry)] + Reach(mem, FrameOf(entry), level - 1, 512, true)
    ensures level == 0 ==> ReachEntry(mem, entry, level, true) == [FrameOf(entry)]
  {
  }

  /** A leaf: one fresh frame with the page's words, and the entry redirected to it. */
  lemma PageDuplicated(s: Snapshot, r: Snapshot, entry: word, table: nat, index: nat, next: nat)
    requires EntryCopyable(s, entry, table, index, 0) && Requested(s, r, next)
    ensures EntryDuplicated(s, Linked(r, entry, table, index, next, Content(r.frames, FrameOf(entry))), entry, table,
                            index, 0)
  {
    hide Reach, ReachEntry, IsPresent, FrameOf, SetPhysicalAddress, OtherBits, FreeAbove;
    var s' := Linked(r, entry, table, index, next, Content(r.frames, FrameOf(entry)));
    FirstReached(s.frames, entry, 0);
    RedirectedPresent(entry, next);
    FirstReached(s'.frames, SetPhysicalAddress(entry, AddressOf(next)), 0);
  }

  lemma RedirectedPresent(entry: word, next: nat)
    requires next < FRAMES_LIMIT
    ensures FrameOf(SetPhysicalAddress(entry, AddressOf(next))) == next
    ensures OtherBits(SetPhysicalAddress(entry, AddressOf(next))) == OtherBits(entry)
    ensures IsPresent(SetPhysicalAddress(entry, AddressOf(next))) == IsPresent(entry)
  {
    RedirectedEntry(entry, next);
  }

  lemma ZeroNotPresent()
    ensures !IsPresent(0)
  {
  }

  /** An inner entry: before the recursive call the fresh table is empty and the original below is untouched. */
  lemma TableLinked(s: Snapshot, r: Snapshot, entry: word, table: nat, index: nat, level: nat, next: nat)
    requires level > 0 && EntryCopyable(s, entry, table, index, level) && Requested(s, r, next)
    ensures var m := Linked(r, entry, table, index, next, Zeroed());
            && Copyable(m, FrameOf(entry), next, level - 1, 512)
            && Reach(m.frames, FrameOf(entry), level - 1, 512, true) ==
               Reach(s.frames, FrameOf(entry), level - 1, 512, true)
  {
    hide Reach, ReachEntry, IsPresent, FrameOf, SetPhysicalAddress, FreeAbove;
    var m := Linked(r, entry, table, index, next, Zeroed());
    FirstReached(s.frames, entry, level);
    TablesAmongReached(s.frames, FrameOf(entry), level - 1, 512);
    forall x | x in Reach(s.frames, FrameOf(entry), level - 1, 512, true)
      ensures Content(s.frames, x) == Content(m.frames, x) && m.Used(x) && x != next
    {
      assert s.Used(x) && x != table;
    }
    ReachFrame(s.frames, m.frames, FrameOf(entry), level - 1, 512, true);
    ZeroNotPresent();
    assert m.Used(next) && s.Used(FrameOf(entry)) && m.Used(FrameOf(entry)) && FrameOf(entry) != next;
    assert forall i :: 0 <= i < 512 ==> m.frames[next][i] == 0;
  }

  lemma TableDuplicated(s: Snapshot, r: Snapshot, s': Snapshot, entry: word, table: nat, index: nat, level: nat,
                        next: nat)
    requires level > 0 && EntryCopyable(s, entry, table, index, level) && Requested(s, r, next)
    requires Duplicated(Linked(r, entry, table, index, next, Zeroed()), s', FrameOf(entry), next, level - 1, 512)
    ensures EntryDuplicated(s, s', entry, table, index, level)
  {
    hide Reach, ReachEntry, IsPresent, FrameOf, SetPhysicalAddress, OtherBits, FreeAbove, Copied;
    var m := Linked(r, entry, table, index, next, Zeroed());
    var entry' := SetPhysicalAddress(entry, AddressOf(next));
    RedirectedPresent(entry, next);
    TableLinked(s, r, entry, table, index, level, next);
    FirstReached(s.frames, entry, level);
    FirstReached(s'.frames, entry', level);
    assert s'.frames[table] == m.frames[table];
    DistinctConcat([next], Reach(s'.frames, next, level - 1, 512, true));
    CopiedFrame(m.frames, s.frames, FrameOf(entry), s'.frames, s'.frames, next, level - 1, 512);
  }
}

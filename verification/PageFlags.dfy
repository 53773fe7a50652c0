/** Access rights along walks: the flags of every entry the processor reads on the way to a page. */
module PageFlags {
  import opened Common
  import opened PageEntries
  import opened PageTrees
  import opened PageMaps

  /** Present, writable and open to user code. */
  ghost predicate OpenEntry(e: word) {
    GetFlag(e, PRESENT) && GetFlag(e, ALLOW_WRITE) && GetFlag(e, USER_ALLOWED)
  }

  /** Every present entry on the way to the address is open. */
  ghost predicate WayOpen(mem: Memory, table: nat, level: nat, virtAddr: word)
    decreases level
  {
    var e := Content(mem, table)[Index(virtAddr, level)];
    IsPresent(e) ==> OpenEntry(e) && (level > 0 ==> WayOpen(mem, FrameOf(e), level - 1, virtAddr))
  }

  /** User code can read and write through the whole walk. */
  ghost predicate AllOpen(path: seq<word>) {
    forall j :: 0 <= j < |path| ==>
      GetFlag(path[j], PRESENT) && GetFlag(path[j], ALLOW_WRITE) && GetFlag(path[j], USER_ALLOWED)
  }

  lemma {:induction false} WalkIsOpen(mem: Memory, table: nat, level: nat, virtAddr: word)
    requires WayOpen(mem, table, level, virtAddr) && Walk(mem, table, level, virtAddr).Some?
    ensures AllOpen(Walk(mem, table, level, virtAddr).value)
    decreases level
  {
    hide IsPresent, FrameOf, Index, GetFlag;
    var e := Content(mem, table)[Index(virtAddr, level)];
    if level > 0 { WalkIsOpen(mem, FrameOf(e), level - 1, virtAddr); }
  }

  /** The rights along a way depend only on the tables on it. */
  lemma {:induction false} WayFrame(mem: Memory, mem': Memory, table: nat, level: nat, n: nat, virtAddr: word)
    requires n <= 512 && Index(virtAddr, level) < n
    requires SamePrefix(mem, mem', table, n) && Agree(mem, mem', Reach(mem, table, level, n, false))
    ensures WayOpen(mem', table, level, virtAddr) <==> WayOpen(mem, table, level, virtAddr)
    decreases level
  {
    hide OpenEntry;
    var i := Index(virtAddr, level);
    ReachContains(mem, table, level, n, i, false);
    var e := Content(mem, table)[i];
    if IsPresent(e) && level > 0 { WayFrame(mem, mem', FrameOf(e), level - 1, 512, virtAddr); }
  }

  /** A new open entry keeps every open way open. */
  lemma {:induction false} WrittenWay(mem: Memory, mem': Memory, table: nat, level: nat, n: nat, w: Write, other: word)
    requires n <= 512 && w.level <= level && Written(mem, mem', table, level, n, w) && Index(other, level) < n
    requires OpenEntry(Content(mem', w.table)[Index(w.virtAddr, w.level)]) && WayOpen(mem, table, level, other)
    ensures WayOpen(mem', table, level, other)
    decreases level
  {
    hide OpenEntry;
    var i, j := Index(w.virtAddr, level), Index(other, level);
    if i != j {
      WrittenWayApart(mem, mem', table, level, n, w, other);
    } else if w.level < level {
      WrittenBelow(mem, mem', table, level, n, w);
      hide Reach, IsPresent, FrameOf, Index, Written;
      WrittenWay(mem, mem', FrameOf(Content(mem, table)[i]), level - 1, 512, w, other);
    }
  }

  lemma WrittenWayApart(mem: Memory, mem': Memory, table: nat, level: nat, n: nat, w: Write, other: word)
    requires n <= 512 && w.level <= level && Written(mem, mem', table, level, n, w)
    requires Index(other, level) < n && Index(other, level) != Index(w.virtAddr, level)
    ensures WayOpen(mem', table, level, other) <==> WayOpen(mem, table, level, other)
  {
    hide Reach, IsPresent, FrameOf, Index, Written, Part, OpenEntry;
    var j := Index(other, level);
    var e := Content(mem, table)[j];
    OtherPartKept(mem, mem', table, level, n, w, j);
    PartUnfolds(mem, table, level, j, false);
    if IsPresent(e) && level > 0 { WayFrame(mem, mem', FrameOf(e), level - 1, 512, other); }
  }

  /** Flags are among the bits that a redirected entry keeps. */
  lemma FlagsKept(e: word, e': word)
    requires OtherBits(e) == OtherBits(e')
    ensures OpenEntry(e) <==> OpenEntry(e')
  {
    hide GetFlag, OtherBits;
    FlagInOtherBits(e, PRESENT);
    FlagInOtherBits(e', PRESENT);
    FlagInOtherBits(e, ALLOW_WRITE);
    FlagInOtherBits(e', ALLOW_WRITE);
    FlagInOtherBits(e, USER_ALLOWED);
    FlagInOtherBits(e', USER_ALLOWED);
  }

  lemma FlagInOtherBits(e: word, flag: nat)
    requires flag < 12
    ensures GetFlag(e, flag) <==> GetFlag(OtherBits(e), flag)
  {
    hide GetFlag, OtherBits, Fields;
    var low, frame, high := AnyWordHasFields(e);
    MaskFields(low, frame, high);
    FlagOfFields(low, frame, high, flag);
    FlagOfFields(low, 0, high, flag);
  }

  /** A copied tree has the rights of the original. */
  lemma {:induction false} CopiedWay(mem: Memory, table: nat, mem': Memory, table': nat, level: nat, n: nat,
                                     virtAddr: word)
    requires n <= 512 && Copied(mem, table, mem', table', level, n) && Index(virtAddr, level) < n
    ensures WayOpen(mem', table', level, virtAddr) <==> WayOpen(mem, table, level, virtAddr)
    decreases level
  {
    hide OpenEntry, Index, FrameOf, OtherBits;
    var i := Index(virtAddr, level);
    var e, e' := Content(mem, table)[i], Content(mem', table')[i];
    assert CopiedEntry(mem, e, mem', e', level);
    if IsPresent(e) {
      FlagsKept(e, e');
      if level > 0 { CopiedWay(mem, FrameOf(e), mem', FrameOf(e'), level - 1, 512, virtAddr); }
    }
  }
}

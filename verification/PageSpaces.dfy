/** Address spaces: what MapMemory has to achieve, over snapshots of physical memory. */
module PageSpaces {
  import opened Common
  import opened PageEntries
  import opened PageFrames
  import opened PageTrees
  import opened PageCopies
  import opened PageMaps
  import opened PageFlags

  /** The first `n` entries of `root` head a tree of page tables on allocated frames. */
  ghost predicate AddressSpace(s: Snapshot, root: nat, n: nat) {
    && s.Valid() && n <= 512 && s.Used(root)
    && Tree(s.frames, root, 3, n)
    && forall x :: x in Reach(s.frames, root, 3, n, false) ==> s.Used(x)
  }

  /** The address space owns its frames: tables and pages are allocated and none occurs twice. */
  ghost predicate Owned(s: Snapshot, root: nat, n: nat)
    requires n <= 512
  {
    && Distinct([root] + Reach(s.frames, root, 3, n, true))
    && forall x :: x in Reach(s.frames, root, 3, n, true) ==> s.Used(x)
  }

  /** Among the frames that were allocated before, exactly `extra` was added to an address space that owns its
      frames. */
  ghost predicate OwnsMore(s: Snapshot, s': Snapshot, root: nat, n: nat, extra: set<nat>)
    requires n <= 512
  {
    Owned(s, root, n) ==>
      && Owned(s', root, n)
      && forall x: nat :: s.Used(x) ==>
           (x in Reach(s'.frames, root, 3, n, true) <==> x in Reach(s.frames, root, 3, n, true) || x in extra)
  }

  /** Tables MapMemory has to allocate on the way to an address. */
  ghost function Missing(mem: Memory, table: nat, level: nat, virtAddr: word): (r: nat)
    ensures r <= level
    decreases level
  {
    if level == 0 then 0
    else
      var e := Content(mem, table)[Index(virtAddr, level)];
      if IsPresent(e) then Missing(mem, FrameOf(e), level - 1, virtAddr) else level
  }

  lemma {:induction false} StepsIntoTable(mem: Memory, table: nat, level: nat, virtAddr: word, target: nat, t: nat)
    requires 0 < target <= level && TableAt(mem, table, level, virtAddr, target) == Some(t)
    requires IsPresent(Content(mem, t)[Index(virtAddr, target)])
    ensures TableAt(mem, table, level, virtAddr, target - 1) == Some(FrameOf(Content(mem, t)[Index(virtAddr, target)]))
    decreases level
  {
    if target < level {
      StepsIntoTable(mem, FrameOf(Content(mem, table)[Index(virtAddr, level)]), level - 1, virtAddr, target, t);
    }
  }

  /** A walk succeeds exactly when the leaf entry reached is present, and fails when a table is missing. */
  lemma {:induction false} WalkByTable(mem: Memory, table: nat, level: nat, virtAddr: word, target: nat, t: nat)
    requires target <= level && TableAt(mem, table, level, virtAddr, target) == Some(t)
    ensures target == 0 ==>
              (Walk(mem, table, level, virtAddr).Some? <==> IsPresent(Content(mem, t)[Index(virtAddr, 0)]))
    ensures !IsPresent(Content(mem, t)[Index(virtAddr, target)]) ==> Walk(mem, table, level, virtAddr).None?
    decreases level
  {
    if target < level {
      WalkByTable(mem, FrameOf(Content(mem, table)[Index(virtAddr, level)]), level - 1, virtAddr, target, t);
    }
  }

  lemma TableAtUsed(s: Snapshot, root: nat, n: nat, virtAddr: word, target: nat)
    requires AddressSpace(s, root, n) && Index(virtAddr, 3) < n && target <= 3
    requires TableAt(s.frames, root, 3, virtAddr, target).Some?
    ensures s.Used(TableAt(s.frames, root, 3, virtAddr, target).value)
    ensures var t := TableAt(s.frames, root, 3, virtAddr, target).value;
            t == root || t in Reach(s.frames, root, 3, n, false)
  {
    if target < 3 {
      TableAtReached(s.frames, root, 3, virtAddr, target);
      ReachContains(s.frames, root, 3, n, Index(virtAddr, 3), false);
    }
  }

  /** AllocatePagingStructure: the empty frame `next`, then the entry leading to it. */
  ghost function WithTable(r: Snapshot, table: nat, index: nat, next: nat): Snapshot
    requires table < |r.frames| && next < |r.frames| <= FRAMES_LIMIT && index < 512 && table != next
  {
    r.Store(next, Zeroed()).Store(table, r.frames[table][index := Populated(r.frames[table][index], AddressOf(next))])
  }

  lemma PopulatedPresent(entry: word, physAddr: word)
    ensures IsPresent(Populated(entry, physAddr)) && FrameOf(Populated(entry, physAddr)) == FrameOf(physAddr)
    ensures GetFlag(Populated(entry, physAddr), ALLOW_WRITE) && GetFlag(Populated(entry, physAddr), USER_ALLOWED)
  {
    PopulatedEntry(entry, physAddr);
  }

  lemma LinkIsWrite(s: Snapshot, r: Snapshot, root: nat, n: nat, virtAddr: word, level: nat, table: nat, next: nat)
    requires AddressSpace(s, root, n) && Index(virtAddr, 3) < n && 0 < level <= 3
    requires TableAt(s.frames, root, 3, virtAddr, level) == Some(table)
    requires !IsPresent(Content(s.frames, table)[Index(virtAddr, level)]) && Requested(s, r, next)
    ensures s.Used(table) && next != table
    ensures Written(s.frames, WithTable(r, table, Index(virtAddr, level), next).frames, root, 3, n,
                    Write(virtAddr, level, table, next))
  {
    hide Reach, IsPresent, FrameOf, Index, Tree, TableAt, FreeAbove, Populated;
    TableAtUsed(s, root, n, virtAddr, level);
    ZeroNotPresent();
    AddressNamesFrame(next);
    PopulatedPresent(s.frames[table][Index(virtAddr, level)], AddressOf(next));
    var m := WithTable(r, table, Index(virtAddr, level), next);
    assert forall i :: 0 <= i < 512 ==> m.frames[next][i] == 0;
  }

  /** Linking an empty table into an address space changes no walk and keeps the tree. */
  lemma TableLinkedIn(s: Snapshot, r: Snapshot, root: nat, n: nat, virtAddr: word, level: nat, table: nat, next: nat)
    requires AddressSpace(s, root, n) && Index(virtAddr, 3) < n && 0 < level <= 3
    requires TableAt(s.frames, root, 3, virtAddr, level) == Some(table)
    requires !IsPresent(Content(s.frames, table)[Index(virtAddr, level)]) && Requested(s, r, next)
    ensures s.Used(table) && next != table
    ensures var m := WithTable(r, table, Index(virtAddr, level), next);
            && AddressSpace(m, root, n)
            && TableAt(m.frames, root, 3, virtAddr, level - 1) == Some(next)
            && Missing(m.frames, next, level - 1, virtAddr) == level - 1
            && (forall other: word :: Index(other, 3) < n ==>
                Walk(m.frames, root, 3, other) == Walk(s.frames, root, 3, other))
            && (forall x :: x in Reach(m.frames, root, 3, n, false) <==>
                x in Reach(s.frames, root, 3, n, false) || x == next)
  {
    hide Reach, IsPresent, FrameOf, Index, TableAt, Written, Walk, FreeAbove;
    LinkIsWrite(s, r, root, n, virtAddr, level, table, next);
    var m := WithTable(r, table, Index(virtAddr, level), next);
    var w := Write(virtAddr, level, table, next);
    WrittenPath(s.frames, m.frames, root, 3, n, w);
    forall other: word | Index(other, 3) < n
      ensures Walk(m.frames, root, 3, other) == Walk(s.frames, root, 3, other)
    {
      WrittenWalk(s.frames, m.frames, root, 3, n, w, other);
    }
    GrownTree(s, m, root, n, w);
    assert m.frames[next] == Zeroed();
    NothingBelowZero(m.frames, next, level - 1, virtAddr);
  }

  lemma NothingBelowZero(mem: Memory, table: nat, level: nat, virtAddr: word)
    requires Content(mem, table) == Zeroed()
    ensures Missing(mem, table, level, virtAddr) == level
  {
    ZeroNotPresent();
  }

  lemma GrownTree(s: Snapshot, m: Snapshot, root: nat, n: nat, w: Write)
    requires AddressSpace(s, root, n) && w.level <= 3 && Written(s.frames, m.frames, root, 3, n, w)
    requires m.Valid() && m.Used(root) && (forall x: nat :: s.Used(x) ==> m.Used(x))
    requires (w.level > 0 ==> m.Used(w.added))
    ensures AddressSpace(m, root, n)
    ensures forall x :: x in Reach(m.frames, root, 3, n, false) <==>
            x in Reach(s.frames, root, 3, n, false) || (w.level > 0 && x == w.added)
  {
    hide Reach, TableAt, Distinct;
    var before, after := Reach(s.frames, root, 3, n, false), Reach(m.frames, root, 3, n, false);
    WrittenReach(s.frames, m.frames, root, 3, n, w, false);
    assert multiset([root] + after) == multiset([root] + before) + Added(m.frames, w, false);
    DistinctCounts([root] + before);
    DistinctCounts([root] + after);
    assert forall x :: x in after <==> x in multiset(after);
    assert forall x :: x in before <==> x in multiset(before);
    assert w.level > 0 ==> w.added !in multiset([root] + before);
  }

  /** One written entry makes the address space own one frame more. */
  lemma GrownOwned(s: Snapshot, m: Snapshot, root: nat, n: nat, w: Write)
    requires n <= 512 && w.level <= 3 && Written(s.frames, m.frames, root, 3, n, w) && Owned(s, root, n)
    requires forall x: nat :: s.Used(x) ==> m.Used(x)
    requires var f := FrameOf(Content(m.frames, w.table)[Index(w.virtAddr, w.level)]);
             m.Used(f) && f != root && f !in Reach(s.frames, root, 3, n, true)
    ensures Owned(m, root, n)
    ensures forall x :: x in Reach(m.frames, root, 3, n, true) <==>
                        x in Reach(s.frames, root, 3, n, true)
                        || x == FrameOf(Content(m.frames, w.table)[Index(w.virtAddr, w.level)])
  {
    hide Reach, TableAt, Distinct, FrameOf, Index, Written;
    var before, after := Reach(s.frames, root, 3, n, true), Reach(m.frames, root, 3, n, true);
    var f := FrameOf(Content(m.frames, w.table)[Index(w.virtAddr, w.level)]);
    WrittenReach(s.frames, m.frames, root, 3, n, w, true);
    assert multiset([root] + after) == multiset([root] + before) + multiset{f};
    DistinctCounts([root] + before);
    DistinctCounts([root] + after);
    assert forall x :: x in after <==> x in multiset(after);
    assert forall x :: x in before <==> x in multiset(before);
    assert f !in multiset([root] + before);
  }

  /** A linked table comes from unused memory. */
  lemma LinkOwned(s: Snapshot, r: Snapshot, root: nat, n: nat, virtAddr: word, level: nat, table: nat, next: nat)
    requires AddressSpace(s, root, n) && Index(virtAddr, 3) < n && 0 < level <= 3
    requires TableAt(s.frames, root, 3, virtAddr, level) == Some(table)
    requires !IsPresent(Content(s.frames, table)[Index(virtAddr, level)]) && Requested(s, r, next)
    ensures s.Used(table) && next != table
    ensures OwnsMore(s, WithTable(r, table, Index(virtAddr, level), next), root, n, {})
  {
    hide Reach, IsPresent, FrameOf, Index, TableAt, Written, FreeAbove, Tree, Distinct;
    LinkIsWrite(s, r, root, n, virtAddr, level, table, next);
    LinkNamesTable(s, r, root, n, virtAddr, level, table, next);
    if Owned(s, root, n) {
      GrownOwned(s, WithTable(r, table, Index(virtAddr, level), next), root, n, Write(virtAddr, level, table, next));
    }
  }

  lemma LinkNamesTable(s: Snapshot, r: Snapshot, root: nat, n: nat, virtAddr: word, level: nat, table: nat, next: nat)
    requires Requested(s, r, next) && 0 < level <= 3 && s.Used(table) && next != table && n <= 512
    requires Written(s.frames, WithTable(r, table, Index(virtAddr, level), next).frames, root, 3, n,
                     Write(virtAddr, level, table, next))
    ensures FrameOf(Content(WithTable(r, table, Index(virtAddr, level), next).frames, table)[Index(virtAddr, level)]) ==
            next
  {
    hide Reach, IsPresent, FrameOf, Index, TableAt, FreeAbove, Tree;
  }

  lemma OwnsMoreTwice(s: Snapshot, m: Snapshot, s': Snapshot, root: nat, n: nat, extra: set<nat>)
    requires n <= 512 && OwnsMore(s, m, root, n, {}) && OwnsMore(m, s', root, n, extra)
    requires forall x: nat :: s.Used(x) ==> m.Used(x)
    ensures OwnsMore(s, s', root, n, extra)
  {
    hide Reach, Distinct;
  }

  /** Ways that were open stay open. */
  ghost predicate WaysKept(s: Snapshot, s': Snapshot, root: nat, n: nat) {
    forall v: word {:trigger WayOpen(s'.frames, root, 3, v)} ::
      Index(v, 3) < n && WayOpen(s.frames, root, 3, v) ==> WayOpen(s'.frames, root, 3, v)
  }

  lemma WrittenKeepsWays(s: Snapshot, m: Snapshot, root: nat, n: nat, w: Write)
    requires n <= 512 && w.level <= 3 && Written(s.frames, m.frames, root, 3, n, w)
    requires OpenEntry(Content(m.frames, w.table)[Index(w.virtAddr, w.level)])
    ensures WaysKept(s, m, root, n)
  {
    hide Written, WayOpen, OpenEntry, Index;
    forall v: word | Index(v, 3) < n && WayOpen(s.frames, root, 3, v)
      ensures WayOpen(m.frames, root, 3, v)
    {
      WrittenWay(s.frames, m.frames, root, 3, n, w, v);
    }
  }

  /** A new table is linked by an open entry. */
  lemma LinkKeepsWays(s: Snapshot, r: Snapshot, root: nat, n: nat, virtAddr: word, level: nat, table: nat, next: nat)
    requires AddressSpace(s, root, n) && Index(virtAddr, 3) < n && 0 < level <= 3
    requires TableAt(s.frames, root, 3, virtAddr, level) == Some(table)
    requires !IsPresent(Content(s.frames, table)[Index(virtAddr, level)]) && Requested(s, r, next)
    ensures s.Used(table) && next != table
    ensures WaysKept(s, WithTable(r, table, Index(virtAddr, level), next), root, n)
  {
    hide Reach, IsPresent, FrameOf, Index, TableAt, Written, FreeAbove, Tree, WaysKept, GetFlag, Populated;
    LinkIsWrite(s, r, root, n, virtAddr, level, table, next);
    PopulatedPresent(s.frames[table][Index(virtAddr, level)], AddressOf(next));
    PresentFlag(Populated(s.frames[table][Index(virtAddr, level)], AddressOf(next)));
    var m := WithTable(r, table, Index(virtAddr, level), next);
    WrittenKeepsWays(s, m, root, n, Write(virtAddr, level, table, next));
  }

  /** Writing the leaf entry: the whole effect of a completed MapMemory. */
  ghost predicate Mapped(s: Snapshot, s': Snapshot, root: nat, n: nat, virtAddr: word, physAddr: word) {
    && AddressSpace(s', root, n)
    && Walk(s.frames, root, 3, virtAddr).None?
    && Walk(s'.frames, root, 3, virtAddr).Some?
    && (var leaf := Walk(s'.frames, root, 3, virtAddr).value[3];
        FrameOf(leaf) == FrameOf(physAddr) && GetFlag(leaf, PRESENT) && GetFlag(leaf, ALLOW_WRITE)
        && GetFlag(leaf, USER_ALLOWED))
    && (forall other: word :: Index(other, 3) < n ==>
          Walk(s'.frames, root, 3, other) ==
          if SamePath(virtAddr, other, 3) then Walk(s'.frames, root, 3, virtAddr) else Walk(s.frames, root, 3, other))
    && WaysKept(s, s', root, n)
    && (WayOpen(s.frames, root, 3, virtAddr) ==> AllOpen(Walk(s'.frames, root, 3, virtAddr).value))
    && Untouched(s, s', root, n)
    && (s.Used(FrameOf(physAddr)) && FrameOf(physAddr) != root
        && FrameOf(physAddr) !in Reach(s.frames, root, 3, n, true) ==>
          OwnsMore(s, s', root, n, {FrameOf(physAddr)}))
  }

  /** Allocated frames that are not tables of this address space keep their contents. */
  ghost predicate Untouched(s: Snapshot, s': Snapshot, root: nat, n: nat)
    requires n <= 512
  {
    && s.Valid() && s'.Valid() && |s.frames| == |s'.frames|
    && (forall x: nat :: s.Used(x) ==> s'.Used(x))
    && (forall x :: x in Reach(s'.frames, root, 3, n, false) ==> !s.Used(x) || x in Reach(s.frames, root, 3, n, false))
    && forall x: nat :: s.Used(x) && x != root && x !in Reach(s.frames, root, 3, n, false) ==>
         s'.frames[x] == s.frames[x]
  }

  /** The state of MapMemory's loop: the walk so far has changed no translation. */
  ghost predicate OnTheWay(s: Snapshot, s': Snapshot, root: nat, n: nat, virtAddr: word, level: nat, table: nat) {
    && n <= 512 && level <= 3 && Untouched(s, s', root, n) && AddressSpace(s', root, n) && Index(virtAddr, 3) < n
    && OwnsMore(s, s', root, n, {}) && WaysKept(s, s', root, n)
    && TableAt(s'.frames, root, 3, virtAddr, level) == Some(table)
    && (forall other: word :: Index(other, 3) < n ==> Walk(s'.frames, root, 3, other) == Walk(s.frames, root, 3, other))
    && s'.Free() + Missing(s.frames, root, 3, virtAddr) == s.Free() + Missing(s'.frames, table, level, virtAddr)
  }

  lemma Starting(s: Snapshot, root: nat, n: nat, virtAddr: word)
    requires AddressSpace(s, root, n) && Index(virtAddr, 3) < n
    ensures OnTheWay(s, s, root, n, virtAddr, 3, root) && s.Used(root)
  {
  }

  lemma WayUsed(s: Snapshot, s': Snapshot, root: nat, n: nat, virtAddr: word, level: nat, table: nat)
    requires OnTheWay(s, s', root, n, virtAddr, level, table)
    ensures s'.Valid() && table < |s'.frames|
    ensures s'.Free() + Missing(s.frames, root, 3, virtAddr) == s.Free() + Missing(s'.frames, table, level, virtAddr)
  {
    TableAtUsed(s', root, n, virtAddr, level);
  }

  lemma ThroughPresentTable(s: Snapshot, s': Snapshot, root: nat, n: nat, virtAddr: word, level: nat, table: nat)
    requires OnTheWay(s, s', root, n, virtAddr, level, table) && level > 0
    requires IsPresent(Content(s'.frames, table)[Index(virtAddr, level)])
    ensures OnTheWay(s, s', root, n, virtAddr, level - 1, FrameOf(Content(s'.frames, table)[Index(virtAddr, level)]))
  {
    hide Reach, IsPresent, FrameOf, Index, Walk, FreeAbove, Tree, TableAt;
    StepsIntoTable(s'.frames, root, 3, virtAddr, level, table);
  }

  lemma ThroughNewTable(s: Snapshot, s': Snapshot, r: Snapshot, root: nat, n: nat, virtAddr: word, level: nat,
                        table: nat, next: nat)
    requires OnTheWay(s, s', root, n, virtAddr, level, table) && level > 0
    requires !IsPresent(Content(s'.frames, table)[Index(virtAddr, level)]) && Requested(s', r, next)
    ensures table < |r.frames| && next != table
    ensures OnTheWay(s, WithTable(r, table, Index(virtAddr, level), next), root, n, virtAddr, level - 1, next)
  {
    hide Reach, IsPresent, FrameOf, Index, Walk, FreeAbove, Tree, TableAt;
    TableLinkedIn(s', r, root, n, virtAddr, level, table, next);
    LinkOwned(s', r, root, n, virtAddr, level, table, next);
    OwnsMoreTwice(s, s', WithTable(r, table, Index(virtAddr, level), next), root, n, {});
    LinkKeepsWays(s', r, root, n, virtAddr, level, table, next);
    hide OwnsMore, WayOpen;
    TableAtUsed(s', root, n, virtAddr, level);
  }

  /** Running out of frames on the way means too few were left for the missing tables. */
  lemma NoFramesLeft(s: Snapshot, m: Snapshot, root: nat, n: nat, virtAddr: word, level: nat, table: nat)
    requires OnTheWay(s, m, root, n, virtAddr, level, table) && level > 0 && m.Free() == 0
    requires !IsPresent(Content(m.frames, table)[Index(virtAddr, level)])
    ensures s.Free() < Missing(s.frames, root, 3, virtAddr) && Walk(s.frames, root, 3, virtAddr).None?
  {
    WalkByTable(m.frames, root, 3, virtAddr, level, table);
  }

  /** At the last level nothing is missing any more, and the leaf entry says whether the address was mapped before. */
  lemma LeafDecides(s: Snapshot, m: Snapshot, root: nat, n: nat, virtAddr: word, table: nat)
    requires OnTheWay(s, m, root, n, virtAddr, 0, table)
    ensures s.Free() >= Missing(s.frames, root, 3, virtAddr)
    ensures Walk(s.frames, root, 3, virtAddr).Some? <==> IsPresent(Content(m.frames, table)[Index(virtAddr, 0)])
  {
    WalkByTable(m.frames, root, 3, virtAddr, 0, table);
  }

  lemma LeafMapped(s: Snapshot, m: Snapshot, root: nat, n: nat, virtAddr: word, table: nat, physAddr: word)
    requires OnTheWay(s, m, root, n, virtAddr, 0, table) && table < |m.frames|
    requires !IsPresent(m.frames[table][Index(virtAddr, 0)])
    ensures var i := Index(virtAddr, 0);
            Mapped(s, m.Store(table, m.frames[table][i := Populated(m.frames[table][i], physAddr)]), root, n, virtAddr,
                   physAddr)
  {
    hide Reach, IsPresent, FrameOf, Index, Walk, FreeAbove, TableAt, SamePath, Populated;
    var i := Index(virtAddr, 0);
    var s' := m.Store(table, m.frames[table][i := Populated(m.frames[table][i], physAddr)]);
    var w := Write(virtAddr, 0, table, 0);
    PopulatedPresent(m.frames[table][i], physAddr);
    TableAtUsed(m, root, n, virtAddr, 0);
    assert Written(m.frames, s'.frames, root, 3, n, w);
    GrownTree(m, s', root, n, w);
    LeafOwned(s, m, s', root, n, w, FrameOf(physAddr));
    hide OwnsMore, WayOpen, AllOpen;
    PresentFlag(Populated(m.frames[table][i], physAddr));
    WrittenKeepsWays(m, s', root, n, w);
    AlwaysSamePath(virtAddr);
    forall other: word | Index(other, 3) < n
      ensures Walk(s'.frames, root, 3, other) ==
              if SamePath(virtAddr, other, 3) then Walk(s'.frames, root, 3, virtAddr)
              else Walk(s.frames, root, 3, other)
    {
      WrittenWalk(m.frames, s'.frames, root, 3, n, w, other);
      if SamePath(virtAddr, other, 3) { SamePathSameWalk(s'.frames, root, 3, virtAddr, other); }
    }
    WrittenWalk(m.frames, s'.frames, root, 3, n, w, virtAddr);
    if WayOpen(s.frames, root, 3, virtAddr) { WalkIsOpen(s'.frames, root, 3, virtAddr); }
  }

  lemma LeafOwned(s: Snapshot, m: Snapshot, s': Snapshot, root: nat, n: nat, w: Write, f: nat)
    requires n <= 512 && w.level == 0 && Written(m.frames, s'.frames, root, 3, n, w) && OwnsMore(s, m, root, n, {})
    requires FrameOf(Content(s'.frames, w.table)[Index(w.virtAddr, 0)]) == f
    requires (forall x: nat :: s.Used(x) ==> m.Used(x))
    requires forall x: nat :: m.Used(x) ==> s'.Used(x)
    ensures s.Used(f) && f != root && f !in Reach(s.frames, root, 3, n, true) ==> OwnsMore(s, s', root, n, {f})
  {
    hide Reach, Distinct, FrameOf, Index, Written;
    if s.Used(f) && f != root && f !in Reach(s.frames, root, 3, n, true) && Owned(s, root, n) {
      GrownOwned(m, s', root, n, w);
    }
  }

  lemma AlwaysSamePath(virtAddr: word)
    ensures SamePath(virtAddr, virtAddr, 3)
  {
  }

  lemma PresentFlag(e: word)
    ensures IsPresent(e) <==> GetFlag(e, PRESENT)
  {
  }

  lemma {:induction false} SamePathSameWalk(mem: Memory, table: nat, level: nat, a: word, b: word)
    requires SamePath(a, b, level)
    ensures Walk(mem, table, level, a) == Walk(mem, table, level, b)
    decreases level
  {
    assert Index(a, level) == Index(b, level);
    var e := Content(mem, table)[Index(a, level)];
    if IsPresent(e) && level > 0 { SamePathSameWalk(mem, FrameOf(e), level - 1, a, b); }
  }
}

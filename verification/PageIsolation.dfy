/** Fork isolation: what a finished CopyUserspace means for the two processes from then on. */
module PageIsolation {
  import opened Common
  import opened PageEntries
  import opened PageFrames
  import opened PageTrees
  import opened PageCopies
  import opened PageMaps
  import opened PageSpaces

  /** A user page access goes through the lower half of the top table. */
  predicate UserAddress(virtAddr: word) {
    Index(virtAddr, 3) < 256
  }

  ghost function UserWalk(mem: Memory, root: nat, virtAddr: word): Option<seq<word>> {
    Walk(mem, root, 3, virtAddr)
  }

  /** All frames a process can reach: its top table, its tables and its pages. */
  ghost predicate Owns(mem: Memory, root: nat, frame: nat) {
    frame == root || frame in Reach(mem, root, 3, 256, true)
  }

  /** The page words a user address shows, if it is mapped. */
  ghost function View(mem: Memory, root: nat, virtAddr: word): Option<Table> {
    match UserWalk(mem, root, virtAddr)
    case None => None
    case Some(path) => Some(Content(mem, PageOf(path)))
  }

  /** The fork theorem for one address: it translates in the child exactly when it does in the parent, with the same
      non-address bits on every level and the same page contents; the parent's own translation did not change. */
  lemma ForkCopiesTranslation(s: Snapshot, s': Snapshot, parent: nat, child: nat, virtAddr: word)
    requires Copyable(s, parent, child, 3, 256) && Duplicated(s, s', parent, child, 3, 256) && UserAddress(virtAddr)
    ensures SameTranslation(s.frames, UserWalk(s.frames, parent, virtAddr), s'.frames,
                            UserWalk(s'.frames, child, virtAddr))
    ensures UserWalk(s'.frames, parent, virtAddr) == UserWalk(s.frames, parent, virtAddr)
    ensures View(s'.frames, parent, virtAddr) == View(s.frames, parent, virtAddr) == View(s'.frames, child, virtAddr)
  {
    hide Reach, Copied, FreeAbove, Walk, Index;
    CopiedWalk(s.frames, parent, s'.frames, child, 3, 256, virtAddr);
    TablesAmongReached(s.frames, parent, 3, 256);
    WalkFrame(s.frames, s'.frames, parent, 3, 256, virtAddr);
    if UserWalk(s.frames, parent, virtAddr).Some? {
      WalkStaysInside(s.frames, parent, 3, 256, virtAddr);
    }
  }

  /** Every frame of the child but its top table is fresh and used once; none is a frame of the parent. */
  lemma ForkSharesNothing(s: Snapshot, s': Snapshot, parent: nat, child: nat)
    requires Copyable(s, parent, child, 3, 256) && Duplicated(s, s', parent, child, 3, 256)
    ensures Distinct([child] + Reach(s'.frames, child, 3, 256, true))
    ensures forall x :: x in Reach(s'.frames, child, 3, 256, true) ==> !s.Used(x)
    ensures Reach(s'.frames, parent, 3, 256, true) == Reach(s.frames, parent, 3, 256, true)
    ensures forall x :: !(Owns(s'.frames, parent, x) && Owns(s'.frames, child, x))
  {
    hide Reach, Copied, FreeAbove;
    TablesAmongReached(s.frames, parent, 3, 256);
    ReachFrame(s.frames, s'.frames, parent, 3, 256, true);
    DistinctConcat([child], Reach(s'.frames, child, 3, 256, true));
  }

  lemma {:induction false} TablesWithinReached(mem: Memory, table: nat, level: nat, n: nat)
    requires n <= 512
    ensures multiset(Reach(mem, table, level, n, false)) <= multiset(Reach(mem, table, level, n, true))
    decreases level, n
  {
    if n > 0 {
      var e := Content(mem, table)[n - 1];
      TablesWithinReached(mem, table, level, n - 1);
      if IsPresent(e) && level > 0 {
        TablesWithinReached(mem, FrameOf(e), level - 1, 512);
      }
      var tables, all := ReachEntry(mem, e, level, false), ReachEntry(mem, e, level, true);
      assert multiset(tables) <= multiset(all);
      assert Reach(mem, table, level, n, false) == Reach(mem, table, level, n - 1, false) + tables;
      assert Reach(mem, table, level, n, true) == Reach(mem, table, level, n - 1, true) + all;
    }
  }

  /** The child is an address space of its own, so pages can be mapped into it, and the parent stays one. */
  lemma ForkMakesAddressSpace(s: Snapshot, s': Snapshot, parent: nat, child: nat)
    requires AddressSpace(s, parent, 256) && Copyable(s, parent, child, 3, 256)
    requires Duplicated(s, s', parent, child, 3, 256)
    ensures AddressSpace(s', child, 256) && AddressSpace(s', parent, 256)
  {
    hide Reach, Copied, FreeAbove, Once;
    ForkSharesNothing(s, s', parent, child);
    TablesAmongReached(s'.frames, child, 3, 256);
    TablesAmongReached(s.frames, parent, 3, 256);
    ReachFrame(s.frames, s'.frames, parent, 3, 256, false);
    var tables, all := Reach(s'.frames, child, 3, 256, false), Reach(s'.frames, child, 3, 256, true);
    TablesWithinReached(s'.frames, child, 3, 256);
    DistinctCounts([child] + tables);
    DistinctCounts([child] + all);
    assert multiset([child] + tables) == multiset([child]) + multiset(tables);
    assert multiset([child] + all) == multiset([child]) + multiset(all);
    OnceWithin(multiset([child] + tables), multiset([child] + all));
  }

  // ---- Stores by user code ----

  /** User stores do not reach page tables. */
  ghost predicate PagesAreNotTables(mem: Memory, root: nat) {
    forall virtAddr: word :: UserAddress(virtAddr) && UserWalk(mem, root, virtAddr).Some? ==>
      var page := PageOf(UserWalk(mem, root, virtAddr).value); page != root && page !in Reach(mem, root, 3, 256, false)
  }

  lemma PageIsNoTable(mem: Memory, root: nat, virtAddr: word)
    requires PagesAreNotTables(mem, root) && UserAddress(virtAddr) && UserWalk(mem, root, virtAddr).Some?
    ensures var page := PageOf(UserWalk(mem, root, virtAddr).value);
            page != root && page !in Reach(mem, root, 3, 256, false)
  {
  }

  ghost predicate Separated(mem: Memory, a: nat, b: nat) {
    && PagesAreNotTables(mem, a) && PagesAreNotTables(mem, b)
    && forall x :: !(Owns(mem, a, x) && Owns(mem, b, x))
  }

  /** In a tree without repeated frames no page is also a table. */
  lemma {:induction false} DistinctPagesAreNotTables(mem: Memory, table: nat, level: nat, n: nat, virtAddr: word)
    requires n <= 512 && Distinct([table] + Reach(mem, table, level, n, true))
    requires Index(virtAddr, level) < n && Walk(mem, table, level, virtAddr).Some?
    ensures var page := PageOf(Walk(mem, table, level, virtAddr).value);
            page != table && page !in Reach(mem, table, level, n, false)
    decreases level
  {
    hide Index, FrameOf, IsPresent;
    var i := Index(virtAddr, level);
    var page := PageOf(Walk(mem, table, level, virtAddr).value);
    DistinctConcat([table], Reach(mem, table, level, n, true));
    WalkStaysInside(mem, table, level, n, virtAddr);
    PageInItsPart(mem, table, level, virtAddr);
    if level > 0 {
      PartIsSubtree(mem, table, level, n, i);
      DistinctPagesAreNotTables(mem, FrameOf(Content(mem, table)[i]), level - 1, 512, virtAddr);
    }
    forall j | 0 <= j < n
      ensures page !in Part(mem, table, level, j, false)
    {
      EntryTablesAmongReached(mem, Content(mem, table)[j], level);
      if j != i { PartsDisjoint(mem, table, level, n, i, j, true); }
    }
    NotInParts(mem, table, level, n, page);
  }

  lemma PartIsSubtree(mem: Memory, table: nat, level: nat, n: nat, i: nat)
    requires i < n <= 512 && level > 0 && Distinct(Reach(mem, table, level, n, true))
    requires IsPresent(Content(mem, table)[i])
    ensures var e := Content(mem, table)[i];
            && Distinct([FrameOf(e)] + Reach(mem, FrameOf(e), level - 1, 512, true))
            && Part(mem, table, level, i, false) == [FrameOf(e)] + Reach(mem, FrameOf(e), level - 1, 512, false)
  {
    var e := Content(mem, table)[i];
    assert Part(mem, table, level, i, true) == [FrameOf(e)] + Reach(mem, FrameOf(e), level - 1, 512, true);
    hide Reach, Part, Once;
    DistinctCounts(Reach(mem, table, level, n, true));
    DistinctCounts(Part(mem, table, level, i, true));
    PartsWithin(mem, table, level, n, i, true);
    OnceWithin(multiset(Part(mem, table, level, i, true)), multiset(Reach(mem, table, level, n, true)));
    PartUnfolds(mem, table, level, i, false);
  }

  lemma OnceWithin(a: multiset<nat>, b: multiset<nat>)
    requires a <= b && Once(b)
    ensures Once(a)
  {
    assert forall x :: a[x] <= b[x];
  }

  lemma PageInItsPart(mem: Memory, table: nat, level: nat, virtAddr: word)
    requires Walk(mem, table, level, virtAddr).Some?
    ensures PageOf(Walk(mem, table, level, virtAddr).value) in Part(mem, table, level, Index(virtAddr, level), true)
  {
    var e := Content(mem, table)[Index(virtAddr, level)];
    if level > 0 { WalkStaysInside(mem, FrameOf(e), level - 1, 512, virtAddr); }
  }

  lemma {:induction false} NotInParts(mem: Memory, table: nat, level: nat, n: nat, x: nat)
    requires n <= 512 && forall j :: 0 <= j < n ==> x !in Part(mem, table, level, j, false)
    ensures x !in Reach(mem, table, level, n, false)
  {
    if n > 0 {
      NotInParts(mem, table, level, n - 1, x);
      assert x !in Part(mem, table, level, n - 1, false);
    }
  }

  /** After fork the two processes are separated, provided the parent's own pages were not its page tables. */
  lemma ForkSeparates(s: Snapshot, s': Snapshot, parent: nat, child: nat)
    requires Copyable(s, parent, child, 3, 256) && Duplicated(s, s', parent, child, 3, 256)
    requires PagesAreNotTables(s.frames, parent)
    ensures Separated(s'.frames, parent, child)
  {
    hide Reach, Copied, FreeAbove, Walk, Index;
    ForkSharesNothing(s, s', parent, child);
    TablesAmongReached(s.frames, parent, 3, 256);
    ReachFrame(s.frames, s'.frames, parent, 3, 256, false);
    forall virtAddr: word | UserAddress(virtAddr)
      ensures UserWalk(s'.frames, parent, virtAddr) == UserWalk(s.frames, parent, virtAddr)
    {
      ForkCopiesTranslation(s, s', parent, child, virtAddr);
    }
    forall virtAddr: word | UserAddress(virtAddr) && UserWalk(s'.frames, child, virtAddr).Some?
      ensures var page := PageOf(UserWalk(s'.frames, child, virtAddr).value);
              page != child && page !in Reach(s'.frames, child, 3, 256, false)
    {
      DistinctPagesAreNotTables(s'.frames, child, 3, 256, virtAddr);
    }
  }

  /** A user store of one word, by the process whose top table is `root`. */
  datatype UserStore = UserStore(root: nat, virtAddr: word, index: nat, value: word)

  ghost function Stored(mem: Memory, op: UserStore): (r: Memory)
    ensures |r| == |mem|
  {
    match UserWalk(mem, op.root, op.virtAddr)
    case None => mem
    case Some(path) =>
      var page := PageOf(path);
      if UserAddress(op.virtAddr) && page < |mem| && op.index < 512
      then mem[page := mem[page][op.index := op.value]] else mem
  }

  ghost function StoredAll(mem: Memory, ops: seq<UserStore>): Memory
    decreases |ops|
  {
    if |ops| == 0 then mem else StoredAll(Stored(mem, ops[0]), ops[1..])
  }

  ghost function OnlyBy(ops: seq<UserStore>, root: nat): seq<UserStore> {
    if |ops| == 0 then []
    else (if ops[0].root == root then [ops[0]] else []) + OnlyBy(ops[1..], root)
  }

  /** The two memories look the same to the process `root`. */
  ghost predicate SameFor(m1: Memory, m2: Memory, root: nat) {
    && |m1| == |m2| && Content(m1, root) == Content(m2, root)
    && Agree(m1, m2, Reach(m1, root, 3, 256, true))
  }

  lemma SameForTables(m1: Memory, m2: Memory, root: nat, pages: bool)
    requires SameFor(m1, m2, root)
    ensures Reach(m2, root, 3, 256, pages) == Reach(m1, root, 3, 256, pages)
    ensures forall virtAddr: word :: UserAddress(virtAddr) ==>
              UserWalk(m1, root, virtAddr) == UserWalk(m2, root, virtAddr)
  {
    hide Reach, Walk, Index;
    TablesAmongReached(m1, root, 3, 256);
    ReachFrame(m1, m2, root, 3, 256, pages);
    forall virtAddr: word | UserAddress(virtAddr)
      ensures UserWalk(m1, root, virtAddr) == UserWalk(m2, root, virtAddr)
    {
      WalkFrame(m1, m2, root, 3, 256, virtAddr);
    }
  }

  /** Memory that differs only in one page that is no table of `root` is walked alike by `root`. */
  lemma StoreKeepsTree(mem: Memory, mem': Memory, root: nat, page: nat, pages: bool)
    requires |mem| == |mem'| && page != root && page !in Reach(mem, root, 3, 256, false)
    requires forall x :: 0 <= x < |mem| && x != page ==> mem'[x] == mem[x]
    ensures Reach(mem', root, 3, 256, pages) == Reach(mem, root, 3, 256, pages)
    ensures forall virtAddr: word :: UserAddress(virtAddr) ==>
              UserWalk(mem', root, virtAddr) == UserWalk(mem, root, virtAddr)
  {
    hide Reach, Walk, Index;
    ReachFrame(mem, mem', root, 3, 256, pages);
    forall virtAddr: word | UserAddress(virtAddr)
      ensures UserWalk(mem', root, virtAddr) == UserWalk(mem, root, virtAddr)
    {
      WalkFrame(mem, mem', root, 3, 256, virtAddr);
    }
  }

  lemma KeptTreeKeepsPages(mem: Memory, mem': Memory, root: nat)
    requires PagesAreNotTables(mem, root) && Reach(mem', root, 3, 256, false) == Reach(mem, root, 3, 256, false)
    requires forall virtAddr: word :: UserAddress(virtAddr) ==>
               UserWalk(mem', root, virtAddr) == UserWalk(mem, root, virtAddr)
    ensures PagesAreNotTables(mem', root)
  {
    hide Reach, Walk, UserWalk, UserAddress;
  }

  /** A store by one process keeps the two separated and is invisible to the other. */
  lemma StoreIsPrivate(mem: Memory, a: nat, b: nat, op: UserStore)
    requires Separated(mem, a, b) && op.root == a
    ensures Separated(Stored(mem, op), a, b) && SameFor(mem, Stored(mem, op), b)
    ensures Reach(Stored(mem, op), a, 3, 256, true) == Reach(mem, a, 3, 256, true)
  {
    hide Reach, Walk, Index, PagesAreNotTables;
    var mem' := Stored(mem, op);
    if mem' != mem {
      var page := PageOf(UserWalk(mem, a, op.virtAddr).value);
      PageIsNoTable(mem, a, op.virtAddr);
      WalkStaysInside(mem, a, 3, 256, op.virtAddr);
      assert Owns(mem, a, page);
      assert !Owns(mem, b, page);
      TablesAmongReached(mem, b, 3, 256);
      StoreKeepsTree(mem, mem', a, page, true);
      StoreKeepsTree(mem, mem', a, page, false);
      StoreKeepsTree(mem, mem', b, page, true);
      StoreKeepsTree(mem, mem', b, page, false);
      KeptTreeKeepsPages(mem, mem', a);
      KeptTreeKeepsPages(mem, mem', b);
      assert forall x :: Owns(mem', a, x) == Owns(mem, a, x) && Owns(mem', b, x) == Owns(mem, b, x);
    }
  }
}

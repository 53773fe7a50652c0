/** The memory of all processes together, over whole runs of process creation, mapping of new pages, forks and user
    stores. */
module ProcessMemory {
  import opened Common
  import opened PageEntries
  import opened PageFrames
  import opened PageTrees
  import opened PageCopies
  import opened PageMaps
  import opened PageFlags
  import opened PageSpaces
  import opened PageIsolation
  import opened Forks

  /** Physical memory with its allocator, and the top tables of the processes. */
  datatype System = System(memory: Snapshot, roots: set<nat>)

  /** No frame belongs to both. */
  ghost predicate Apart(mem: Memory, a: nat, b: nat) {
    forall x :: !(Owns(mem, a, x) && Owns(mem, b, x))
  }

  /** Every process owns a well-formed user space, and no two own a frame in common. */
  ghost predicate Isolated(y: System) {
    && y.memory.Valid()
    && (forall r :: r in y.roots ==> UserSpace(y.memory, r))
    && forall a, b :: a in y.roots && b in y.roots && a != b ==> Apart(y.memory.frames, a, b)
  }

  datatype Event =
    | Create(child: nat)
    | MapPage(root: nat, virtAddr: word, frame: nat)
    | Fork(parent: nat, child: nat)
    | Store(op: UserStore)
    | Kernel

  /** InitializePaging; MapMemory of a newly requested frame, as for the pages of a stack; InitializePaging and
      CopyUserspace; a store by user code; and whatever else the kernel does with memory, such as taking frames for
      system-call stacks, the heap and itself, and writing to frames that no process owns. */
  ghost predicate Step(y: System, e: Event, y': System) {
    var s, s' := y.memory, y'.memory;
    match e
    case Create(child) => TopTableAdded(s, s', child) && y'.roots == y.roots + {child}
    case MapPage(root, virtAddr, frame) =>
      && root in y.roots && UserAddress(virtAddr) && y'.roots == y.roots && frame < FRAMES_LIMIT
      && exists r: Snapshot :: Requested(s, r, frame) && Mapped(r, s', root, 256, virtAddr, AddressOf(frame))
    case Fork(parent, child) =>
      && parent in y.roots && y'.roots == y.roots + {child}
      && exists m: Snapshot ::
           TopTableAdded(s, m, child) && Copyable(m, parent, child, 3, 256) && Duplicated(m, s', parent, child, 3, 256)
    case Store(op) => op.root in y.roots && y' == y.(memory := s.(frames := Stored(s.frames, op)))
    case Kernel => y'.roots == y.roots && KernelWorked(s, s', y.roots)
  }

  /** Frames were taken, and only frames that no process owns were written. */
  ghost predicate KernelWorked(s: Snapshot, s': Snapshot, roots: set<nat>) {
    && s'.Valid() && |s'.frames| == |s.frames| && (forall x: nat :: s.Used(x) ==> s'.Used(x))
    && forall r, x :: r in roots && Owns(s.frames, r, x) ==> Content(s'.frames, x) == Content(s.frames, x)
  }

  /** The process an event acts for; nobody else may notice. */
  ghost predicate ActsFor(e: Event, root: nat) {
    (e.MapPage? && e.root == root) || (e.Store? && e.op.root == root)
  }

  /** Frames of processes are allocated. */
  lemma OwnedAreUsed(s: Snapshot, root: nat, x: nat)
    requires UserSpace(s, root) && Owns(s.frames, root, x)
    ensures s.Used(x)
  {
    hide Reach, Tree, Distinct;
  }

  // ---- What each event leaves alone ----

  /** Memory grew or changed without touching the process. */
  ghost predicate Undisturbed(s: Snapshot, s': Snapshot, root: nat) {
    && s'.Valid() && (forall x: nat :: s.Used(x) ==> s'.Used(x)) && SameFor(s.frames, s'.frames, root)
  }

  lemma CreateDisturbsNobody(s: Snapshot, s': Snapshot, child: nat, root: nat)
    requires UserSpace(s, root) && TopTableAdded(s, s', child)
    ensures Undisturbed(s, s', root)
  {
    hide Reach, Tree, Distinct, FreeAbove, IsPresent;
    forall x | Owns(s.frames, root, x)
      ensures Content(s.frames, x) == Content(s'.frames, x)
    {
      OwnedAreUsed(s, root, x);
    }
  }

  lemma MapDisturbsNobodyElse(s: Snapshot, r: Snapshot, s': Snapshot, root: nat, frame: nat, virtAddr: word, other: nat)
    requires UserSpace(s, root) && UserSpace(s, other) && Apart(s.frames, root, other) && frame < FRAMES_LIMIT
    requires Requested(s, r, frame) && Mapped(r, s', root, 256, virtAddr, AddressOf(frame))
    ensures Undisturbed(s, s', other)
  {
    hide Reach, Walk, Index, FrameOf, Tree, Distinct, FreeAbove, OwnsMore;
    TablesAmongReached(s.frames, root, 3, 256);
    forall x | Owns(s.frames, other, x)
      ensures Content(s.frames, x) == Content(s'.frames, x)
    {
      OwnedAreUsed(s, other, x);
      assert !Owns(s.frames, root, x);
    }
  }

  lemma ForkDisturbsNobody(s: Snapshot, m: Snapshot, s': Snapshot, parent: nat, child: nat, root: nat)
    requires UserSpace(s, root) && TopTableAdded(s, m, child) && Duplicated(m, s', parent, child, 3, 256)
    ensures Undisturbed(s, s', root)
  {
    hide Reach, Tree, Distinct, FreeAbove, IsPresent, Copied;
    forall x | Owns(s.frames, root, x)
      ensures Content(s.frames, x) == Content(s'.frames, x)
    {
      OwnedAreUsed(s, root, x);
      assert m.Used(x) && x != child;
    }
  }

  lemma KernelDisturbsNobody(s: Snapshot, s': Snapshot, roots: set<nat>, root: nat)
    requires UserSpace(s, root) && KernelWorked(s, s', roots) && root in roots
    ensures Undisturbed(s, s', root)
  {
    hide Reach, Tree, Distinct, FreeAbove;
    assert forall x :: Owns(s.frames, root, x) ==> Content(s'.frames, x) == Content(s.frames, x);
  }

  lemma StoreDisturbsNobodyElse(s: Snapshot, op: UserStore, root: nat)
    requires UserSpace(s, op.root) && UserSpace(s, root) && Apart(s.frames, op.root, root)
    ensures Undisturbed(s, s.(frames := Stored(s.frames, op)), root)
  {
    hide Reach, Walk, Index, Tree, Distinct, FreeAbove, PagesAreNotTables;
    OwnedPages(s, op.root);
    OwnedPages(s, root);
    StoreIsPrivate(s.frames, op.root, root, op);
  }

  // ---- What each event makes of its own process ----

  lemma CreateMakesSpace(s: Snapshot, s': Snapshot, child: nat)
    requires TopTableAdded(s, s', child)
    ensures UserSpace(s', child) && forall x :: Owns(s'.frames, child, x) ==> !s.Used(x)
  {
    hide FreeAbove;
    EmptyReachesNothing(s'.frames, child, 3, 256, true);
    EmptyReachesNothing(s'.frames, child, 3, 256, false);
    hide Reach;
    assert [child] + [] == [child];
  }

  lemma MapKeepsSpace(s: Snapshot, r: Snapshot, s': Snapshot, root: nat, frame: nat, virtAddr: word)
    requires UserSpace(s, root) && frame < FRAMES_LIMIT
    requires Requested(s, r, frame) && Mapped(r, s', root, 256, virtAddr, AddressOf(frame))
    ensures UserSpace(s', root) && forall x :: Owns(s'.frames, root, x) && s.Used(x) ==> Owns(s.frames, root, x)
  {
    hide Reach, Walk, Index, FrameOf, Tree, Distinct, FreeAbove;
    AddressNamesFrame(frame);
    assert s.Used(root) && !s.Used(frame) && r.Used(frame);
    assert Owned(r, root, 256);
    assert frame !in Reach(r.frames, root, 3, 256, true);
  }

  lemma ForkMakesSpace(s: Snapshot, m: Snapshot, s': Snapshot, parent: nat, child: nat)
    requires UserSpace(s, parent) && TopTableAdded(s, m, child)
    requires Copyable(m, parent, child, 3, 256) && Duplicated(m, s', parent, child, 3, 256)
    ensures UserSpace(s', child) && forall x :: Owns(s'.frames, child, x) ==> !s.Used(x)
  {
    hide Reach, Copied, FreeAbove, Distinct, Copyable, Duplicated, UserSpace, Separated, TopTableAdded;
    CopyForks(s, m, s', parent, child);
  }

  lemma StoreKeepsSpace(s: Snapshot, op: UserStore)
    requires UserSpace(s, op.root)
    ensures var s' := s.(frames := Stored(s.frames, op));
            UserSpace(s', op.root) && forall x :: Owns(s'.frames, op.root, x) <==> Owns(s.frames, op.root, x)
  {
    hide Reach, Walk, Index, Distinct, FreeAbove, PagesAreNotTables;
    OwnedPages(s, op.root);
    var mem' := Stored(s.frames, op);
    if mem' != s.frames {
      var page := PageOf(UserWalk(s.frames, op.root, op.virtAddr).value);
      PageIsNoTable(s.frames, op.root, op.virtAddr);
      StoreKeepsTree(s.frames, mem', op.root, page, true);
      StoreKeepsTree(s.frames, mem', op.root, page, false);
    }
  }

  // ---- Every step ----

  /** A step disturbs nobody it does not act for. */
  lemma OthersUndisturbed(y: System, e: Event, y': System, root: nat)
    requires Isolated(y) && Step(y, e, y') && root in y.roots && !ActsFor(e, root)
    ensures Undisturbed(y.memory, y'.memory, root)
  {
    hide UserSpace, TopTableAdded, Mapped, Requested, Copyable, Duplicated, Stored, Undisturbed, UserAddress, Apart,
         KernelWorked;
    var s, s' := y.memory, y'.memory;
    match e
    case Create(child) => CreateDisturbsNobody(s, s', child, root);
    case MapPage(actor, virtAddr, frame) =>
      var r: Snapshot :| Requested(s, r, frame) && Mapped(r, s', actor, 256, virtAddr, AddressOf(frame));
      MapDisturbsNobodyElse(s, r, s', actor, frame, virtAddr, root);
    case Fork(parent, child) =>
      var m: Snapshot :|
        TopTableAdded(s, m, child) && Copyable(m, parent, child, 3, 256) && Duplicated(m, s', parent, child, 3, 256);
      ForkDisturbsNobody(s, m, s', parent, child, root);
    case Store(op) => StoreDisturbsNobodyElse(s, op, root);
    case Kernel => KernelDisturbsNobody(s, s', y.roots, root);
  }

  /** Frames that were in use belong afterwards only to a process that had them before. */
  ghost predicate TakesOnlyFree(s: Snapshot, s': Snapshot, root: nat, known: bool) {
    UserSpace(s', root) && forall x :: Owns(s'.frames, root, x) && s.Used(x) ==> known && Owns(s.frames, root, x)
  }

  lemma EveryoneHasSpace(y: System, e: Event, y': System, root: nat)
    requires Isolated(y) && Step(y, e, y') && root in y'.roots
    ensures TakesOnlyFree(y.memory, y'.memory, root, root in y.roots)
  {
    hide TopTableAdded, Mapped, Requested, Copyable, Duplicated, Stored, UserAddress, Apart, Owns, UserSpace,
         KernelWorked;
    var s, s' := y.memory, y'.memory;
    if root in y.roots && !ActsFor(e, root) {
      OthersUndisturbed(y, e, y', root);
      Bystander(s, s', root);
    } else {
      match e
      case Create(child) => CreateMakesSpace(s, s', child);
      case MapPage(actor, virtAddr, frame) =>
        var r: Snapshot :| Requested(s, r, frame) && Mapped(r, s', actor, 256, virtAddr, AddressOf(frame));
        MapKeepsSpace(s, r, s', actor, frame, virtAddr);
      case Fork(parent, child) =>
        var m: Snapshot :|
          TopTableAdded(s, m, child) && Copyable(m, parent, child, 3, 256) && Duplicated(m, s', parent, child, 3, 256);
        ForkMakesSpace(s, m, s', parent, child);
      case Store(op) => StoreKeepsSpace(s, op);
    }
  }

  /** At most one of two processes changes in a step, and it takes only free frames. */
  lemma StaysApart(y: System, e: Event, y': System, a: nat, b: nat)
    requires Isolated(y) && Step(y, e, y') && a in y'.roots && b in y'.roots && a != b
    ensures Apart(y'.memory.frames, a, b)
  {
    hide TopTableAdded, Mapped, Requested, Copyable, Duplicated, Stored, UserAddress, Owns, UserSpace, Undisturbed,
         KernelWorked;
    var s, s' := y.memory, y'.memory;
    EveryoneHasSpace(y, e, y', a);
    EveryoneHasSpace(y, e, y', b);
    var still := if b in y.roots && !ActsFor(e, b) then b else a;
    var other := if still == b then a else b;
    OneActs(y, e, y', a, b);
    OthersUndisturbed(y, e, y', still);
    UndisturbedOwns(s, s', still);
    forall x
      ensures !(Owns(s'.frames, a, x) && Owns(s'.frames, b, x))
    {
      if Owns(s'.frames, still, x) { OwnedAreUsed(s, still, x); }
      if other in y.roots { assert Apart(s.frames, a, b) || Apart(s.frames, b, a); }
    }
  }

  lemma OneActs(y: System, e: Event, y': System, a: nat, b: nat)
    requires Step(y, e, y') && a in y'.roots && b in y'.roots && a != b
    ensures (b in y.roots && !ActsFor(e, b)) || (a in y.roots && !ActsFor(e, a))
  {
    hide TopTableAdded, Mapped, Requested, Copyable, Duplicated, Stored, UserAddress, KernelWorked;
  }

  lemma UndisturbedOwns(s: Snapshot, s': Snapshot, root: nat)
    requires UserSpace(s, root) && Undisturbed(s, s', root)
    ensures forall x :: Owns(s'.frames, root, x) <==> Owns(s.frames, root, x)
  {
    hide UserSpace, SameFor;
    Bystander(s, s', root);
  }

  lemma StepKeepsIsolation(y: System, e: Event, y': System)
    requires Isolated(y) && Step(y, e, y')
    ensures Isolated(y')
  {
    hide Step, UserSpace, Apart;
    StepStaysValid(y, e, y');
    forall r | r in y'.roots
      ensures UserSpace(y'.memory, r)
    {
      EveryoneHasSpace(y, e, y', r);
    }
    forall a, b | a in y'.roots && b in y'.roots && a != b
      ensures Apart(y'.memory.frames, a, b)
    {
      StaysApart(y, e, y', a, b);
    }
  }

  lemma StepStaysValid(y: System, e: Event, y': System)
    requires y.memory.Valid() && Step(y, e, y')
    ensures y'.memory.Valid()
  {
    hide Reach, Walk, FreeAbove, Copied, Distinct, Tree, OwnsMore;
  }

  // ---- Whole runs ----

  ghost predicate IsRun(states: seq<System>, events: seq<Event>) {
    && |states| == |events| + 1 && states[0].memory.Valid() && states[0].roots == {}
    && forall i :: 0 <= i < |events| ==> Step(states[i], events[i], states[i + 1])
  }

  /** In every state of every run all processes are isolated from one another. */
  lemma {:induction false} IsolationOverRuns(states: seq<System>, events: seq<Event>, k: nat)
    requires IsRun(states, events) && k <= |events|
    ensures Isolated(states[k])
  {
    hide Step;
    if k > 0 {
      IsolationOverRuns(states, events, k - 1);
      hide Isolated;
      StepKeepsIsolation(states[k - 1], events[k - 1], states[k]);
    }
  }

  /** None of the events from `i` on acts for the process. */
  ghost predicate Quiet(events: seq<Event>, i: nat, k: nat, root: nat)
    requires i <= k <= |events|
  {
    forall j :: i <= j < k ==> !ActsFor(events[j], root)
  }

  /** However many steps others take, a process sees its memory unchanged until it acts itself: creations, mappings,
      forks (also its own), stores of all the others and the kernel's own work are invisible to it. */
  lemma {:induction false} ProcessesAreIsolated(states: seq<System>, events: seq<Event>, i: nat, k: nat, root: nat,
                                                virtAddr: word)
    requires IsRun(states, events) && i <= k <= |events| && root in states[i].roots && Quiet(events, i, k, root)
    requires UserAddress(virtAddr)
    ensures root in states[k].roots
    ensures View(states[k].memory.frames, root, virtAddr) == View(states[i].memory.frames, root, virtAddr)
    decreases k
  {
    hide Isolated, View, Undisturbed;
    if i < k {
      ProcessesAreIsolated(states, events, i, k - 1, root, virtAddr);
      IsolationOverRuns(states, events, k - 1);
      RootsRemain(states[k - 1], events[k - 1], states[k]);
      QuietView(states[k - 1], events[k - 1], states[k], root, virtAddr);
    }
  }

  lemma RootsRemain(y: System, e: Event, y': System)
    requires Step(y, e, y')
    ensures y.roots <= y'.roots
  {
    hide TopTableAdded, Mapped, Requested, Copyable, Duplicated, Stored, UserAddress, KernelWorked;
  }

  lemma QuietView(y: System, e: Event, y': System, root: nat, virtAddr: word)
    requires Isolated(y) && Step(y, e, y') && root in y.roots && !ActsFor(e, root) && UserAddress(virtAddr)
    ensures View(y'.memory.frames, root, virtAddr) == View(y.memory.frames, root, virtAddr)
  {
    hide Step, UserSpace, SameFor, View, UserAddress;
    OthersUndisturbed(y, e, y', root);
    Bystander(y.memory, y'.memory, root);
  }

  /** A forked child starts with exactly its parent's view, at every address. */
  lemma ForkedView(y: System, parent: nat, child: nat, y': System, virtAddr: word)
    requires Isolated(y) && Step(y, Fork(parent, child), y') && UserAddress(virtAddr)
    ensures View(y'.memory.frames, child, virtAddr) == View(y.memory.frames, parent, virtAddr)
  {
    hide TopTableAdded, Copyable, Duplicated, UserSpace, View, Reach, Separated, Apart, UserAddress, UserWalk;
    var s, s' := y.memory, y'.memory;
    var m: Snapshot :|
      TopTableAdded(s, m, child) && Copyable(m, parent, child, 3, 256) && Duplicated(m, s', parent, child, 3, 256);
    CopyForks(s, m, s', parent, child);
    assert ForkedAt(s, s', parent, child, virtAddr);
  }

  // ---- Noninterference of stores, for any number of processes ----

  /** The same store by `b` in two memories that look alike to it leaves them alike. */
  lemma SameStoreAlike(s1: Snapshot, s2: Snapshot, b: nat, op: UserStore)
    requires UserSpace(s1, b) && UserSpace(s2, b) && SameFor(s1.frames, s2.frames, b) && op.root == b
    ensures SameFor(Stored(s1.frames, op), Stored(s2.frames, op), b)
  {
    hide Reach, Walk, Index, Tree, Distinct, FreeAbove, PagesAreNotTables;
    var m1, m2 := s1.frames, s2.frames;
    SameForTables(m1, m2, b, true);
    OwnedPages(s1, b);
    if UserAddress(op.virtAddr) && UserWalk(m1, b, op.virtAddr).Some? {
      var page := PageOf(UserWalk(m1, b, op.virtAddr).value);
      PageIsNoTable(m1, b, op.virtAddr);
      WalkStaysInside(m1, b, 3, 256, op.virtAddr);
      StoreKeepsTree(m1, Stored(m1, op), b, page, true);
    }
  }

  lemma SameForTwice(m1: Memory, m1': Memory, m2: Memory, b: nat)
    requires SameFor(m1, m1', b) && SameFor(m1, m2, b)
    ensures SameFor(m1', m2, b)
  {
    hide Reach, Walk;
    SameForTables(m1, m1', b, true);
  }

  lemma StoredIsolated(s: Snapshot, roots: set<nat>, op: UserStore)
    requires Isolated(System(s, roots)) && op.root in roots
    ensures Isolated(System(s.(frames := Stored(s.frames, op)), roots))
  {
    hide Isolated, Stored;
    StepKeepsIsolation(System(s, roots), Store(op), System(s.(frames := Stored(s.frames, op)), roots));
  }

  lemma IsolatedSpace(y: System, root: nat)
    requires Isolated(y) && root in y.roots
    ensures UserSpace(y.memory, root)
    ensures forall other :: other in y.roots && other != root ==>
              UserSpace(y.memory, other) && Apart(y.memory.frames, other, root)
  {
    hide UserSpace, Apart;
  }

  /** However the stores of any number of isolated processes interleave, each process sees exactly what it would see
      had the others never stored anything. */
  lemma {:induction false} StoresAreInvisible(s1: Snapshot, s2: Snapshot, roots: set<nat>, b: nat, ops: seq<UserStore>,
                                              virtAddr: word)
    requires Isolated(System(s1, roots)) && Isolated(System(s2, roots)) && SameFor(s1.frames, s2.frames, b)
    requires b in roots && (forall i :: 0 <= i < |ops| ==> ops[i].root in roots) && UserAddress(virtAddr)
    ensures View(StoredAll(s1.frames, ops), b, virtAddr) == View(StoredAll(s2.frames, OnlyBy(ops, b)), b, virtAddr)
    decreases |ops|
  {
    hide Isolated, UserSpace, Apart, Stored, SameFor, View, UserAddress;
    IsolatedSpace(System(s1, roots), b);
    IsolatedSpace(System(s2, roots), b);
    if |ops| == 0 {
      SameForView(s1.frames, s2.frames, b, virtAddr);
    } else {
      var op, rest := ops[0], ops[1..];
      var s1' := s1.(frames := Stored(s1.frames, op));
      StoredIsolated(s1, roots, op);
      if op.root == b {
        SameStoreAlike(s1, s2, b, op);
        StoredIsolated(s2, roots, op);
        assert OnlyBy(ops, b) == [op] + OnlyBy(rest, b);
        assert OnlyBy(ops, b)[1..] == OnlyBy(rest, b);
        StoresAreInvisible(s1', s2.(frames := Stored(s2.frames, op)), roots, b, rest, virtAddr);
      } else {
        StoreDisturbsNobodyElse(s1, op, b);
        SameForTwice(s1.frames, s1'.frames, s2.frames, b);
        assert OnlyBy(ops, b) == OnlyBy(rest, b);
        StoresAreInvisible(s1', s2, roots, b, rest, virtAddr);
      }
    }
  }

  lemma SameForView(m1: Memory, m2: Memory, b: nat, virtAddr: word)
    requires SameFor(m1, m2, b) && UserAddress(virtAddr)
    ensures View(m1, b, virtAddr) == View(m2, b, virtAddr)
  {
    hide Reach, Walk, Index;
    SameForTables(m1, m2, b, true);
    if UserWalk(m1, b, virtAddr).Some? { WalkStaysInside(m1, b, 3, 256, virtAddr); }
  }

  /** A newly mapped page shows what its frame held before: MapMemory clears the tables it adds, not the page. Which
      frame that is depends on the requests of everybody. */
  lemma NewPageShowsOldContents(y: System, root: nat, virtAddr: word, frame: nat, y': System)
    requires Isolated(y) && Step(y, MapPage(root, virtAddr, frame), y')
    ensures frame < |y.memory.frames| && View(y'.memory.frames, root, virtAddr) == Some(y.memory.frames[frame])
  {
    hide Isolated, Reach, Index, FrameOf, Tree, Distinct, FreeAbove, OwnsMore, Owned, GetFlag, SamePath;
    IsolatedSpace(y, root);
    var s, s' := y.memory, y'.memory;
    var r: Snapshot :| Requested(s, r, frame) && Mapped(r, s', root, 256, virtAddr, AddressOf(frame));
    AddressNamesFrame(frame);
    assert r.Used(frame) && !s.Used(frame);
    TablesUsed(s, root, frame);
  }

  lemma TablesUsed(s: Snapshot, root: nat, frame: nat)
    requires UserSpace(s, root) && !s.Used(frame)
    ensures frame != root && frame !in Reach(s.frames, root, 3, 256, false)
  {
    hide Reach, Tree, Distinct;
  }

  // ---- A process's memory is a plain map of pages, updated by its own actions ----

  /** What a process does to its own memory. */
  datatype Act = Maps(virtAddr: word, content: Table) | Stores(virtAddr: word, index: nat, value: word)

  /** What one action makes of the page that an address shows. */
  ghost function Acted(page: Option<Table>, act: Act, virtAddr: word): Option<Table> {
    if !SamePath(act.virtAddr, virtAddr, 3) then page
    else
      match act
      case Maps(_, content) => Some(content)
      case Stores(_, index, value) => if page.Some? && index < 512 then Some(page.value[index := value]) else page
  }

  ghost function Replayed(page: Option<Table>, acts: seq<Act>, virtAddr: word): Option<Table> {
    if acts == [] then page else Acted(Replayed(page, acts[..|acts| - 1], virtAddr), acts[|acts| - 1], virtAddr)
  }

  /** The process's own actions among the events from `i` to `k`. */
  ghost function OwnActs(states: seq<System>, events: seq<Event>, i: nat, k: nat, root: nat): seq<Act>
    requires i <= k <= |events| < |states|
    decreases k
  {
    if i == k then []
    else OwnActs(states, events, i, k - 1, root)
         + (if ActsFor(events[k - 1], root) then [ActOf(states[k - 1], events[k - 1])] else [])
  }

  ghost function ActOf(y: System, e: Event): Act
    requires e.MapPage? || e.Store?
  {
    if e.MapPage? then Maps(e.virtAddr, Content(y.memory.frames, e.frame))
    else Stores(e.op.virtAddr, e.op.index, e.op.value)
  }

  /** In a tree that owns its frames, different pages have different frames. */
  lemma {:induction false} PagesDiffer(mem: Memory, table: nat, level: nat, n: nat, a: word, b: word)
    requires n <= 512 && Distinct([table] + Reach(mem, table, level, n, true))
    requires Index(a, level) < n && Index(b, level) < n && !SamePath(a, b, level)
    requires Walk(mem, table, level, a).Some? && Walk(mem, table, level, b).Some?
    ensures PageOf(Walk(mem, table, level, a).value) != PageOf(Walk(mem, table, level, b).value)
    decreases level
  {
    hide Index, FrameOf, IsPresent;
    var i, j := Index(a, level), Index(b, level);
    DistinctConcat([table], Reach(mem, table, level, n, true));
    PageInItsPart(mem, table, level, a);
    PageInItsPart(mem, table, level, b);
    if i != j {
      PartsDisjoint(mem, table, level, n, i, j, true);
    } else {
      SamePathBelow(a, b, level);
      PartIsSubtree(mem, table, level, n, i);
      PagesDiffer(mem, FrameOf(Content(mem, table)[i]), level - 1, 512, a, b);
    }
  }

  lemma SamePathBelow(a: word, b: word, level: nat)
    requires Index(a, level) == Index(b, level) && !SamePath(a, b, level)
    ensures level > 0 && !SamePath(a, b, level - 1)
  {
    hide Index;
  }

  /** A store changes the page of its address and no other. */
  lemma ViewAfterStore(s: Snapshot, root: nat, op: UserStore, virtAddr: word)
    requires UserSpace(s, root) && op.root == root && UserAddress(virtAddr)
    ensures View(Stored(s.frames, op), root, virtAddr) ==
            Acted(View(s.frames, root, virtAddr), Stores(op.virtAddr, op.index, op.value), virtAddr)
  {
    hide Reach, Walk, Index, Tree, FreeAbove, PagesAreNotTables, Distinct;
    OwnedPages(s, root);
    SamePathSameView(s.frames, root, op.virtAddr, virtAddr);
    var mem, mem' := s.frames, Stored(s.frames, op);
    if UserAddress(op.virtAddr) && UserWalk(mem, root, op.virtAddr).Some? && op.index < 512 {
      var page := PageOf(UserWalk(mem, root, op.virtAddr).value);
      PageIsNoTable(mem, root, op.virtAddr);
      WalkStaysInside(mem, root, 3, 256, op.virtAddr);
      StoreKeepsTree(mem, mem', root, page, true);
      if UserWalk(mem, root, virtAddr).Some? && !SamePath(op.virtAddr, virtAddr, 3) {
        PagesDiffer(mem, root, 3, 256, op.virtAddr, virtAddr);
      }
    }
  }

  lemma SamePathSameView(mem: Memory, root: nat, a: word, b: word)
    ensures SamePath(a, b, 3) ==>
              UserWalk(mem, root, a) == UserWalk(mem, root, b) && (UserAddress(a) <==> UserAddress(b))
  {
    hide Walk, Index;
    if SamePath(a, b, 3) {
      SamePathSameWalk(mem, root, 3, a, b);
      assert Index(a, 3) == Index(b, 3);
    }
  }

  /** A mapping changes the page of its address and no other. */
  lemma ViewAfterMap(y: System, root: nat, mapped: word, frame: nat, y': System, virtAddr: word)
    requires Isolated(y) && Step(y, MapPage(root, mapped, frame), y') && UserAddress(virtAddr)
    ensures View(y'.memory.frames, root, virtAddr) ==
            Acted(View(y.memory.frames, root, virtAddr), ActOf(y, MapPage(root, mapped, frame)), virtAddr)
  {
    hide Isolated, Reach, Index, FrameOf, Tree, Distinct, FreeAbove, OwnsMore, GetFlag, SamePath, Walk,
         PagesAreNotTables;
    IsolatedSpace(y, root);
    NewPageShowsOldContents(y, root, mapped, frame, y');
    var s, s' := y.memory, y'.memory;
    var r: Snapshot :| Requested(s, r, frame) && Mapped(r, s', root, 256, mapped, AddressOf(frame));
    SamePathSameView(s'.frames, root, mapped, virtAddr);
    if !SamePath(mapped, virtAddr, 3) && UserWalk(s.frames, root, virtAddr).Some? {
      OwnedPages(s, root);
      PageIsNoTable(s.frames, root, virtAddr);
      WalkStaysInside(s.frames, root, 3, 256, virtAddr);
      assert Owns(s.frames, root, PageOf(UserWalk(s.frames, root, virtAddr).value));
      OwnedAreUsed(s, root, PageOf(UserWalk(s.frames, root, virtAddr).value));
    }
  }

  lemma ViewAfterStep(y: System, e: Event, y': System, root: nat, virtAddr: word)
    requires Isolated(y) && Step(y, e, y') && root in y.roots && UserAddress(virtAddr)
    ensures View(y'.memory.frames, root, virtAddr) ==
            if ActsFor(e, root) then Acted(View(y.memory.frames, root, virtAddr), ActOf(y, e), virtAddr)
            else View(y.memory.frames, root, virtAddr)
  {
    hide Isolated, View, Acted, UserAddress, Mapped, Requested, TopTableAdded, Duplicated, Copyable, KernelWorked,
         Stored, UserSpace;
    IsolatedSpace(y, root);
    if !ActsFor(e, root) {
      QuietView(y, e, y', root, virtAddr);
    } else if e.MapPage? {
      ViewAfterMap(y, root, e.virtAddr, e.frame, y', virtAddr);
    } else {
      ViewAfterStore(y.memory, root, e.op, virtAddr);
    }
  }

  /** Over whole runs of any number of processes and the kernel, what a process sees at an address is exactly what
      its own actions, replayed on a plain map of pages, put there. */
  lemma {:induction false} MemoryIsAPageMap(states: seq<System>, events: seq<Event>, i: nat, k: nat, root: nat,
                                            virtAddr: word)
    requires IsRun(states, events) && i <= k <= |events| && root in states[i].roots && UserAddress(virtAddr)
    ensures root in states[k].roots
    ensures View(states[k].memory.frames, root, virtAddr) ==
            Replayed(View(states[i].memory.frames, root, virtAddr), OwnActs(states, events, i, k, root), virtAddr)
    decreases k
  {
    hide Isolated, View, Acted, Step, UserAddress;
    if i < k {
      MemoryIsAPageMap(states, events, i, k - 1, root, virtAddr);
      IsolationOverRuns(states, events, k - 1);
      RootsRemain(states[k - 1], events[k - 1], states[k]);
      ViewAfterStep(states[k - 1], events[k - 1], states[k], root, virtAddr);
      var before, acts := OwnActs(states, events, i, k - 1, root), OwnActs(states, events, i, k, root);
      if ActsFor(events[k - 1], root) {
        assert acts[..|acts| - 1] == before && acts[|acts| - 1] == ActOf(states[k - 1], events[k - 1]);
      } else {
        assert acts == before;
      }
    }
  }

  /** Noninterference over whole runs: in any two runs, whatever the other processes and the kernel do in them, two
      processes that start with the same view and act alike see the same. Acting alike includes finding the same
      contents in the pages they map. */
  lemma ActingAlikeSeesAlike(states1: seq<System>, events1: seq<Event>, i1: nat, k1: nat, root1: nat,
                             states2: seq<System>, events2: seq<Event>, i2: nat, k2: nat, root2: nat, virtAddr: word)
    requires IsRun(states1, events1) && i1 <= k1 <= |events1| && root1 in states1[i1].roots && UserAddress(virtAddr)
    requires IsRun(states2, events2) && i2 <= k2 <= |events2| && root2 in states2[i2].roots
    requires View(states1[i1].memory.frames, root1, virtAddr) == View(states2[i2].memory.frames, root2, virtAddr)
    requires OwnActs(states1, events1, i1, k1, root1) == OwnActs(states2, events2, i2, k2, root2)
    ensures View(states1[k1].memory.frames, root1, virtAddr) == View(states2[k2].memory.frames, root2, virtAddr)
  {
    hide View, Step, UserAddress;
    MemoryIsAPageMap(states1, events1, i1, k1, root1, virtAddr);
    MemoryIsAPageMap(states2, events2, i2, k2, root2, virtAddr);
  }

  /** All frames still free hold the same words. */
  ghost predicate FreeFramesHold(s: Snapshot, content: Table) {
    forall x: nat :: x < |s.frames| && !s.Used(x) ==> s.frames[x] == content
  }

  /** The process's own actions without what it found in new pages. */
  datatype Request = MapsSome(virtAddr: word) | StoresWord(virtAddr: word, index: nat, value: word)

  ghost function OwnRequests(events: seq<Event>, i: nat, k: nat, root: nat): seq<Request>
    requires i <= k <= |events|
    decreases k
  {
    if i == k then []
    else
      var e := events[k - 1];
      OwnRequests(events, i, k - 1, root)
      + (if !ActsFor(e, root) then []
         else if e.MapPage? then [MapsSome(e.virtAddr)] else [StoresWord(e.op.virtAddr, e.op.index, e.op.value)])
  }

  ghost function ActFor(request: Request, content: Table): Act {
    match request
    case MapsSome(virtAddr) => Maps(virtAddr, content)
    case StoresWord(virtAddr, index, value) => Stores(virtAddr, index, value)
  }

  ghost function ActsFrom(requests: seq<Request>, content: Table): seq<Act> {
    seq(|requests|, j requires 0 <= j < |requests| => ActFor(requests[j], content))
  }

  lemma ActsFromAppended(requests: seq<Request>, request: Request, content: Table)
    ensures ActsFrom(requests + [request], content) == ActsFrom(requests, content) + [ActFor(request, content)]
    ensures requests + [] == requests
  {
  }

  /** While all free frames hold the same words, the actions follow from the requests. */
  lemma {:induction false} ActsFollow(states: seq<System>, events: seq<Event>, i: nat, k: nat, root: nat,
                                      content: Table)
    requires IsRun(states, events) && i <= k <= |events|
    requires forall j :: 0 <= j < |states| ==> FreeFramesHold(states[j].memory, content)
    ensures OwnActs(states, events, i, k, root) == ActsFrom(OwnRequests(events, i, k, root), content)
    decreases k
  {
    hide FreeFramesHold, Step, ActsFrom;
    NoActs(content);
    if i < k {
      var e, requests := events[k - 1], OwnRequests(events, i, k - 1, root);
      ActsFollow(states, events, i, k - 1, root, content);
      if ActsFor(e, root) {
        if e.MapPage? { MappedFrameWasFree(states[k - 1], e, states[k], content); }
        var request := if e.MapPage? then MapsSome(e.virtAddr) else StoresWord(e.op.virtAddr, e.op.index, e.op.value);
        assert OwnRequests(events, i, k, root) == requests + [request];
        ActsFromAppended(requests, request, content);
        assert ActOf(states[k - 1], e) == ActFor(request, content);
      } else {
        assert OwnRequests(events, i, k, root) == requests;
      }
    }
  }

  lemma NoActs(content: Table)
    ensures ActsFrom([], content) == []
  {
  }

  lemma MappedFrameWasFree(y: System, e: Event, y': System, content: Table)
    requires e.MapPage? && Step(y, e, y') && FreeFramesHold(y.memory, content)
    ensures Content(y.memory.frames, e.frame) == content
  {
    hide Mapped, FreeAbove;
  }

  /** So in runs where all free frames hold the same words, what a process sees depends on its own requests alone. */
  lemma SameRequestsSeeAlike(states1: seq<System>, events1: seq<Event>, i1: nat, k1: nat, root1: nat,
                             states2: seq<System>, events2: seq<Event>, i2: nat, k2: nat, root2: nat,
                             virtAddr: word, content: Table)
    requires IsRun(states1, events1) && i1 <= k1 <= |events1| && root1 in states1[i1].roots && UserAddress(virtAddr)
    requires IsRun(states2, events2) && i2 <= k2 <= |events2| && root2 in states2[i2].roots
    requires forall j :: 0 <= j < |states1| ==> FreeFramesHold(states1[j].memory, content)
    requires forall j :: 0 <= j < |states2| ==> FreeFramesHold(states2[j].memory, content)
    requires View(states1[i1].memory.frames, root1, virtAddr) == View(states2[i2].memory.frames, root2, virtAddr)
    requires OwnRequests(events1, i1, k1, root1) == OwnRequests(events2, i2, k2, root2)
    ensures View(states1[k1].memory.frames, root1, virtAddr) == View(states2[k2].memory.frames, root2, virtAddr)
  {
    hide View, Step, UserAddress, FreeFramesHold, OwnActs, OwnRequests, ActsFrom, IsRun;
    ActsFollow(states1, events1, i1, k1, root1, content);
    ActsFollow(states2, events2, i2, k2, root2, content);
    ActingAlikeSeesAlike(states1, events1, i1, k1, root1, states2, events2, i2, k2, root2, virtAddr);
  }

  /** Otherwise it does not: a process that maps a page sees another one when somebody else maps first, exactly when
      the two frames hold different words. */
  lemma MappingFirstShows(y: System, a: nat, b: nat, first: word, virtAddr: word, f: nat, f': nat, alone: System,
                          m: System, after: System)
    requires Isolated(y) && a != b && a in y.roots
    requires Step(y, MapPage(b, virtAddr, f), alone)
    requires Step(y, MapPage(a, first, f), m) && Step(m, MapPage(b, virtAddr, f'), after)
    ensures f < |y.memory.frames| && f' < |m.memory.frames|
    ensures View(alone.memory.frames, b, virtAddr) == View(after.memory.frames, b, virtAddr) <==>
            y.memory.frames[f] == m.memory.frames[f']
  {
    hide Isolated, Step, View;
    StepKeepsIsolation(y, MapPage(a, first, f), m);
    NewPageShowsOldContents(y, b, virtAddr, f, alone);
    NewPageShowsOldContents(m, b, virtAddr, f', after);
  }

  // ---- Access rights over whole runs ----

  /** No present entry of a process's user half lacks a right. */
  ghost predicate UserOpen(mem: Memory, root: nat) {
    forall v: word {:trigger WayOpen(mem, root, 3, v)} :: UserAddress(v) ==> WayOpen(mem, root, 3, v)
  }

  lemma UndisturbedOpen(s: Snapshot, s': Snapshot, root: nat)
    requires UserSpace(s, root) && Undisturbed(s, s', root) && UserOpen(s.frames, root)
    ensures UserOpen(s'.frames, root)
  {
    hide Reach, WayOpen, Index, Tree, Distinct, FreeAbove;
    TablesAmongReached(s.frames, root, 3, 256);
    forall v: word | UserAddress(v)
      ensures WayOpen(s'.frames, root, 3, v)
    {
      assert WayOpen(s.frames, root, 3, v);
      WayFrame(s.frames, s'.frames, root, 3, 256, v);
    }
  }

  lemma StoreKeepsOpen(s: Snapshot, op: UserStore)
    requires UserSpace(s, op.root) && UserOpen(s.frames, op.root)
    ensures UserOpen(Stored(s.frames, op), op.root)
  {
    hide Reach, Walk, WayOpen, Index, Tree, Distinct, FreeAbove, PagesAreNotTables;
    var mem, mem' := s.frames, Stored(s.frames, op);
    OwnedPages(s, op.root);
    if mem' != mem {
      var page := PageOf(UserWalk(mem, op.root, op.virtAddr).value);
      PageIsNoTable(mem, op.root, op.virtAddr);
      forall v: word | UserAddress(v)
        ensures WayOpen(mem', op.root, 3, v)
      {
        assert WayOpen(mem, op.root, 3, v);
        WayFrame(mem, mem', op.root, 3, 256, v);
      }
    }
  }

  lemma MapKeepsOpen(s: Snapshot, r: Snapshot, s': Snapshot, root: nat, frame: nat, virtAddr: word)
    requires UserOpen(s.frames, root) && frame < FRAMES_LIMIT
    requires Requested(s, r, frame) && Mapped(r, s', root, 256, virtAddr, AddressOf(frame))
    ensures UserOpen(s'.frames, root)
  {
    hide Reach, Walk, WayOpen, Index, Tree, Distinct, FreeAbove, OwnsMore, AllOpen;
    forall v: word | UserAddress(v)
      ensures WayOpen(s'.frames, root, 3, v)
    {
      assert WayOpen(s.frames, root, 3, v);
    }
  }

  lemma ForkKeepsOpen(s: Snapshot, m: Snapshot, s': Snapshot, parent: nat, child: nat)
    requires UserSpace(s, parent) && UserOpen(s.frames, parent) && TopTableAdded(s, m, child)
    requires Duplicated(m, s', parent, child, 3, 256)
    ensures UserOpen(s'.frames, child)
  {
    hide Reach, WayOpen, Index, Tree, Distinct, FreeAbove, Copied, IsPresent;
    CreateDisturbsNobody(s, m, child, parent);
    UndisturbedOpen(s, m, parent);
    forall v: word | UserAddress(v)
      ensures WayOpen(s'.frames, child, 3, v)
    {
      assert WayOpen(m.frames, parent, 3, v);
      CopiedWay(m.frames, parent, s'.frames, child, 3, 256, v);
    }
  }

  lemma EmptyIsOpen(mem: Memory, root: nat)
    requires forall i :: 0 <= i < 256 ==> !IsPresent(Content(mem, root)[i])
    ensures UserOpen(mem, root)
  {
    hide IsPresent, OpenEntry;
  }

  lemma StepKeepsOpen(y: System, e: Event, y': System, root: nat)
    requires Isolated(y) && Step(y, e, y') && (forall r :: r in y.roots ==> UserOpen(y.memory.frames, r))
    requires root in y'.roots
    ensures UserOpen(y'.memory.frames, root)
  {
    hide Isolated, UserSpace, Mapped, Requested, Copyable, Duplicated, Stored, Undisturbed, UserAddress, KernelWorked,
         UserOpen, IsPresent, TopTableAdded;
    var s, s' := y.memory, y'.memory;
    if root in y.roots && !ActsFor(e, root) {
      IsolatedSpace(y, root);
      OthersUndisturbed(y, e, y', root);
      UndisturbedOpen(s, s', root);
    } else {
      match e
      case Create(child) =>
        NewTopIsEmpty(s, s', child);
        EmptyIsOpen(s'.frames, child);
      case MapPage(actor, virtAddr, frame) =>
        var r: Snapshot :| Requested(s, r, frame) && Mapped(r, s', actor, 256, virtAddr, AddressOf(frame));
        MapKeepsOpen(s, r, s', actor, frame, virtAddr);
      case Fork(parent, child) =>
        IsolatedSpace(y, parent);
        var m: Snapshot :|
          TopTableAdded(s, m, child) && Copyable(m, parent, child, 3, 256) && Duplicated(m, s', parent, child, 3, 256);
        ForkKeepsOpen(s, m, s', parent, child);
      case Store(op) =>
        IsolatedSpace(y, op.root);
        StoreKeepsOpen(s, op);
    }
  }

  lemma NewTopIsEmpty(s: Snapshot, s': Snapshot, child: nat)
    requires TopTableAdded(s, s', child)
    ensures forall i :: 0 <= i < 256 ==> !IsPresent(Content(s'.frames, child)[i])
  {
    hide IsPresent, FreeAbove;
  }

  lemma {:induction false} OpenOverRuns(states: seq<System>, events: seq<Event>, k: nat, root: nat)
    requires IsRun(states, events) && k <= |events| && root in states[k].roots
    ensures UserOpen(states[k].memory.frames, root)
    decreases k
  {
    hide Isolated, Step, UserOpen;
    if k > 0 {
      IsolationOverRuns(states, events, k - 1);
      var before := states[k - 1];
      forall r | r in before.roots
        ensures UserOpen(before.memory.frames, r)
      {
        OpenOverRuns(states, events, k - 1, r);
      }
      StepKeepsOpen(states[k - 1], events[k - 1], states[k], root);
    }
  }

  /** Over whole runs every mapped user page of every process can be read and written by user code: all four entries of
      its walk are present, writable and open to users. */
  lemma RightsOverRuns(states: seq<System>, events: seq<Event>, k: nat, root: nat, virtAddr: word)
    requires IsRun(states, events) && k <= |events| && root in states[k].roots && UserAddress(virtAddr)
    requires UserWalk(states[k].memory.frames, root, virtAddr).Some?
    ensures var path := UserWalk(states[k].memory.frames, root, virtAddr).value;
            && |path| == 4
            && forall j :: 0 <= j < 4 ==>
                 GetFlag(path[j], PRESENT) && GetFlag(path[j], ALLOW_WRITE) && GetFlag(path[j], USER_ALLOWED)
  {
    hide Step, UserAddress, WayOpen, Walk, GetFlag;
    OpenOverRuns(states, events, k, root);
    assert WayOpen(states[k].memory.frames, root, 3, virtAddr);
    WalkIsOpen(states[k].memory.frames, root, 3, virtAddr);
  }
}

/** The address-space part of fork (kernel/src/Scheduler.cpp:376-378), from any well-formed parent. */
module Forks {
  import opened Common
  import opened PageEntries
  import opened PageFrames
  import opened PageTrees
  import opened PageCopies
  import opened PageMaps
  import opened PageSpaces
  import opened PageIsolation
  import opened Paging

  /** A process's user half: a tree of tables and pages, all allocated, none of them reached twice. */
  ghost predicate UserSpace(s: Snapshot, root: nat) {
    AddressSpace(s, root, 256) && Owned(s, root, 256)
  }

  lemma OwnedPages(s: Snapshot, root: nat)
    requires UserSpace(s, root)
    ensures PagesAreNotTables(s.frames, root)
  {
    hide Reach, Walk, Index, Distinct;
    forall virtAddr: word | UserAddress(virtAddr) && UserWalk(s.frames, root, virtAddr).Some?
      ensures var page := PageOf(UserWalk(s.frames, root, virtAddr).value);
              page != root && page !in Reach(s.frames, root, 3, 256, false)
    {
      DistinctPagesAreNotTables(s.frames, root, 3, 256, virtAddr);
    }
  }

  /** A process whose frames did not change is as it was. */
  lemma Bystander(s: Snapshot, s': Snapshot, root: nat)
    requires UserSpace(s, root) && SameFor(s.frames, s'.frames, root) && s'.Valid()
    requires forall x: nat :: s.Used(x) ==> s'.Used(x)
    ensures UserSpace(s', root)
    ensures forall x :: Owns(s'.frames, root, x) <==> Owns(s.frames, root, x)
    ensures forall virtAddr: word :: UserAddress(virtAddr) ==>
              UserWalk(s'.frames, root, virtAddr) == UserWalk(s.frames, root, virtAddr)
    ensures forall virtAddr: word :: UserAddress(virtAddr) ==>
              View(s'.frames, root, virtAddr) == View(s.frames, root, virtAddr)
  {
    hide Reach, Walk, Index, Distinct, FreeAbove;
    SameForTables(s.frames, s'.frames, root, true);
    SameForTables(s.frames, s'.frames, root, false);
    forall virtAddr: word | UserAddress(virtAddr)
      ensures View(s'.frames, root, virtAddr) == View(s.frames, root, virtAddr)
    {
      if UserWalk(s.frames, root, virtAddr).Some? { WalkStaysInside(s.frames, root, 3, 256, virtAddr); }
    }
  }

  lemma SpaceIsValid(s: Snapshot, root: nat)
    requires UserSpace(s, root)
    ensures s.Valid()
  {
  }

  /** The state between InitializePaging and CopyUserspace. */
  ghost predicate TopTableAdded(s: Snapshot, m: Snapshot, child: nat) {
    && s.Valid() && m.Valid() && |m.frames| == |s.frames| && child < |m.frames| && !s.Used(child)
    && (forall x: nat :: m.Used(x) <==> s.Used(x) || x == child)
    && (forall x: nat :: x < |m.frames| && x != child ==> m.frames[x] == s.frames[x])
    && (forall i :: 0 <= i < 256 ==> !IsPresent(m.frames[child][i]))
  }

  /** A new top table leaves the parent as it was and can take the copy. */
  lemma ReadyToCopy(s: Snapshot, m: Snapshot, parent: nat, child: nat)
    requires UserSpace(s, parent) && TopTableAdded(s, m, child)
    ensures SameFor(s.frames, m.frames, parent) && Copyable(m, parent, child, 3, 256) && UserSpace(m, parent)
    ensures Reach(m.frames, parent, 3, 256, true) == Reach(s.frames, parent, 3, 256, true)
  {
    hide Reach, Walk, Index, IsPresent, FreeAbove, Distinct, Tree;
    Bystander(s, m, parent);
    SameForTables(s.frames, m.frames, parent, true);
  }

  /** What fork promises of the two address spaces, in terms of the memory before it. */
  ghost predicate Forked(s: Snapshot, s': Snapshot, parent: nat, child: nat) {
    && UserSpace(s', parent) && UserSpace(s', child) && Separated(s'.frames, parent, child)
    && (forall x :: x == child || x in Reach(s'.frames, child, 3, 256, true) ==> !s.Used(x))
    && Distinct([child] + Reach(s'.frames, child, 3, 256, true))
    && Reach(s'.frames, parent, 3, 256, true) == Reach(s.frames, parent, 3, 256, true)
    && forall virtAddr: word {:trigger ForkedAt(s, s', parent, child, virtAddr)} :: UserAddress(virtAddr) ==>
         ForkedAt(s, s', parent, child, virtAddr)
  }

  ghost predicate ForkedAt(s: Snapshot, s': Snapshot, parent: nat, child: nat, virtAddr: word) {
    && SameTranslation(s.frames, UserWalk(s.frames, parent, virtAddr), s'.frames, UserWalk(s'.frames, child, virtAddr))
    && UserWalk(s'.frames, parent, virtAddr) == UserWalk(s.frames, parent, virtAddr)
    && View(s.frames, parent, virtAddr) == View(s'.frames, parent, virtAddr) == View(s'.frames, child, virtAddr)
  }

  lemma CopyForks(s: Snapshot, m: Snapshot, s': Snapshot, parent: nat, child: nat)
    requires UserSpace(s, parent) && TopTableAdded(s, m, child)
    requires Copyable(m, parent, child, 3, 256) && Duplicated(m, s', parent, child, 3, 256)
    ensures Forked(s, s', parent, child)
  {
    hide Reach, Walk, Index, IsPresent, FreeAbove, Copied, AddressSpace, PagesAreNotTables, Copyable, Distinct;
    ReadyToCopy(s, m, parent, child);
    Bystander(s, m, parent);
    OwnedPages(m, parent);
    ForkSharesNothing(m, s', parent, child);
    ForkMakesAddressSpace(m, s', parent, child);
    ForkSeparates(m, s', parent, child);
    forall virtAddr: word | UserAddress(virtAddr)
      ensures ForkedAt(s, s', parent, child, virtAddr)
    {
      ForkCopiesTranslation(m, s', parent, child, virtAddr);
      SameBeforeCopy(s, m, s', parent, child, virtAddr);
    }
  }

  lemma SameBeforeCopy(s: Snapshot, m: Snapshot, s': Snapshot, parent: nat, child: nat, virtAddr: word)
    requires UserWalk(m.frames, parent, virtAddr) == UserWalk(s.frames, parent, virtAddr)
    requires View(m.frames, parent, virtAddr) == View(s.frames, parent, virtAddr)
    requires SameTranslation(m.frames, UserWalk(m.frames, parent, virtAddr), s'.frames,
                             UserWalk(s'.frames, child, virtAddr))
    ensures SameTranslation(s.frames, UserWalk(s.frames, parent, virtAddr), s'.frames,
                            UserWalk(s'.frames, child, virtAddr))
  {
    hide Walk;
  }

  /** The child's address space. It fails exactly when there are not enough frames for the whole copy. */
  method ForkAddressSpace(parent: PagingManager, defaultPml4: nat) returns (child: PagingManager, ok: bool)
    requires UserSpace(parent.physical.Now(), parent.pml4) && parent.physical.Now().Used(defaultPml4)
    modifies parent.physical, parent.physical.allocator, parent.physical.allocator.bitmap.buffer
    ensures fresh(child) && child.physical == parent.physical && parent.pml4 == old(parent.pml4)
    ensures ok <==> old(parent.physical.Now().Free()) > |Reach(old(parent.physical.frames), parent.pml4, 3, 256, true)|
    ensures ok ==> Forked(old(parent.physical.Now()), parent.physical.Now(), parent.pml4, child.pml4)
  {
    hide Reach, IsPresent, FreeAbove, UserSpace, Copyable, Duplicated, Forked, AddressSpace;
    ghost var s := parent.physical.Now();
    SpaceIsValid(s, parent.pml4);
    child := new PagingManager(parent.physical);
    ok := child.InitializePaging(defaultPml4);
    if !ok { return; }
    ghost var m := parent.physical.Now();
    ReadyToCopy(s, m, parent.pml4, child.pml4);
    ok := child.CopyUserspace(parent);
    if ok { CopyForks(s, m, parent.physical.Now(), parent.pml4, child.pml4); }
  }
}

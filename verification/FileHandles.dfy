/** Shared file handles and their reference counts (kernel/src/VFS.cpp, kernel/include/VFS.h and Task::FreeResources
    in kernel/include/Task.h). */
module FileHandles {

  datatype Handle = Handle(refCount: nat, closeOnExecute: bool)

  datatype Descriptor = Descriptor(handle: nat, present: bool)

  /** All live handles by address, and the descriptor table of every VFS object ever made; a freed one is None. */
  datatype State = State(handles: map<nat, Handle>, tables: seq<Table>)

  datatype Table = Freed | Live(descriptors: seq<Descriptor>)

  // ---- Counting references ----

  ghost function CountIn(descriptors: seq<Descriptor>, h: nat): nat {
    if descriptors == [] then 0
    else (if descriptors[0].present && descriptors[0].handle == h then 1 else 0) + CountIn(descriptors[1..], h)
  }

  ghost function CountTable(table: Table, h: nat): nat {
    if table.Live? then CountIn(table.descriptors, h) else 0
  }

  /** Present descriptors that reach a handle, over all VFS objects. */
  ghost function References(tables: seq<Table>, h: nat): nat {
    if tables == [] then 0 else CountTable(tables[0], h) + References(tables[1..], h)
  }

  /** The places of a table whose descriptor is present and reaches the handle. */
  ghost function Reaching(ds: seq<Descriptor>, h: nat): set<int> {
    set i | 0 <= i < |ds| && ds[i].present && ds[i].handle == h
  }

  lemma {:induction false} CountIsNumber(ds: seq<Descriptor>, h: nat)
    ensures CountIn(ds, h) == |Reaching(ds, h)|
  {
    if ds != [] {
      var n := |ds| - 1;
      var init, last := ds[..n], ds[n];
      CountIsNumber(init, h);
      assert ds == init + [last];
      CountInAppended(init, last, h);
      assert Reaching(ds, h) == if last.present && last.handle == h then Reaching(init, h) + {n} else Reaching(init, h);
    }
  }

  lemma {:induction false} CountInUpdated(ds: seq<Descriptor>, i: nat, d: Descriptor, h: nat)
    requires i < |ds|
    ensures CountIn(ds[i := d], h) + (if ds[i].present && ds[i].handle == h then 1 else 0)
         == CountIn(ds, h) + (if d.present && d.handle == h then 1 else 0)
  {
    if i == 0 {
      assert ds[0 := d][1..] == ds[1..];
    } else {
      assert ds[i := d][1..] == ds[1..][i - 1 := d];
      CountInUpdated(ds[1..], i - 1, d, h);
    }
  }

  lemma {:induction false} CountInAppended(ds: seq<Descriptor>, d: Descriptor, h: nat)
    ensures CountIn(ds + [d], h) == CountIn(ds, h) + (if d.present && d.handle == h then 1 else 0)
  {
    if ds == [] {
      assert ds + [d] == [d];
    } else {
      assert (ds + [d])[1..] == ds[1..] + [d];
      CountInAppended(ds[1..], d, h);
    }
  }

  lemma {:induction false} ReferencesUpdated(tables: seq<Table>, v: nat, table: Table, h: nat)
    requires v < |tables|
    ensures References(tables[v := table], h) + CountTable(tables[v], h) == References(tables, h) + CountTable(table, h)
  {
    if v == 0 {
      assert tables[0 := table][1..] == tables[1..];
    } else {
      assert tables[v := table][1..] == tables[1..][v - 1 := table];
      ReferencesUpdated(tables[1..], v - 1, table, h);
    }
  }

  lemma {:induction false} ReferencesAppended(tables: seq<Table>, table: Table, h: nat)
    ensures References(tables + [table], h) == References(tables, h) + CountTable(table, h)
  {
    if tables == [] {
      assert tables + [table] == [table];
    } else {
      assert (tables + [table])[1..] == tables[1..] + [table];
      ReferencesAppended(tables[1..], table, h);
    }
  }

  lemma {:induction false} PresentIsCounted(ds: seq<Descriptor>, i: nat)
    requires i < |ds| && ds[i].present
    ensures CountIn(ds, ds[i].handle) > 0
  {
    if i > 0 { PresentIsCounted(ds[1..], i - 1); }
  }

  lemma {:induction false} CountedInTables(tables: seq<Table>, v: nat, h: nat)
    requires v < |tables|
    ensures CountTable(tables[v], h) <= References(tables, h)
  {
    if v > 0 { CountedInTables(tables[1..], v - 1, h); }
  }

  // ---- Invariants ----

  /** Every referenced handle is alive and counts its references exactly. */
  ghost predicate Exact(s: State) {
    forall h :: References(s.tables, h) > 0 ==> h in s.handles && s.handles[h].refCount == References(s.tables, h)
  }

  /** What remains once VFS objects were freed without closing: never fewer than the references. */
  ghost predicate NoDangling(s: State) {
    forall h :: References(s.tables, h) > 0 ==> h in s.handles && s.handles[h].refCount >= References(s.tables, h)
  }

  // ---- Operations ----

  ghost predicate IsLive(s: State, v: nat) {
    v < |s.tables| && s.tables[v].Live?
  }

  /** The slot FindFreeFileDescriptor picks: the highest one that is not present, or a new one. */
  function FreeSlot(ds: seq<Descriptor>): (i: nat)
    ensures i <= |ds| && (i < |ds| ==> !ds[i].present)
    ensures forall j :: i < j < |ds| ==> ds[j].present
    ensures i == |ds| ==> forall j :: 0 <= j < |ds| ==> ds[j].present
  {
    if ds == [] then 0
    else if !ds[|ds| - 1].present then |ds| - 1
    else
      var i := FreeSlot(ds[..|ds| - 1]);
      if i == |ds| - 1 then |ds| else i
  }

  /** The slot POSIX asks for: the lowest one that is not present, or a new one. */
  ghost predicate IsLowestSlot(ds: seq<Descriptor>, i: nat) {
    i <= |ds| && (i < |ds| ==> !ds[i].present) && forall j :: 0 <= j < i ==> ds[j].present
  }

  /** The slot picked is the lowest one exactly when at most one is free. */
  lemma LowestSlotExact(ds: seq<Descriptor>)
    ensures IsLowestSlot(ds, FreeSlot(ds)) <==> forall i, j :: 0 <= i < j < |ds| ==> ds[i].present || ds[j].present
    ensures !IsLowestSlot([Descriptor(7, false), Descriptor(8, false)],
                          FreeSlot([Descriptor(7, false), Descriptor(8, false)]))
  {
    var i := FreeSlot(ds);
    if !IsLowestSlot(ds, i) {
      var j :| 0 <= j < i && !ds[j].present;
      assert i < |ds| && !ds[i].present;
    }
    assert ![Descriptor(7, false), Descriptor(8, false)][0].present;
  }

  function WithDescriptor(ds: seq<Descriptor>, i: nat, d: Descriptor): seq<Descriptor>
    requires i <= |ds|
  {
    if i < |ds| then ds[i := d] else ds + [d]
  }

  /** Open, with the freshly allocated handle `h`; a failed Open leaves its handle behind, unreachable. */
  ghost function Opened(s: State, v: nat, h: nat, closeOnExecute: bool, success: bool): State
    requires IsLive(s, v)
  {
    var ds := s.tables[v].descriptors;
    State(s.handles[h := Handle(1, closeOnExecute)],
          s.tables[v := Live(WithDescriptor(ds, FreeSlot(ds), Descriptor(h, success)))])
  }

  /** Close of descriptor `d`; a descriptor that is not open is an error and changes nothing. */
  ghost function Closed(s: State, v: nat, d: nat): State
    requires IsLive(s, v)
  {
    var ds := s.tables[v].descriptors;
    if d >= |ds| || !ds[d].present || ds[d].handle !in s.handles || s.handles[ds[d].handle].refCount == 0 then s
    else
      var h := ds[d].handle;
      var count := s.handles[h].refCount - 1;
      State(if count == 0 then s.handles - {h} else s.handles[h := s.handles[h].(refCount := count)],
            s.tables[v := Live(ds[d := ds[d].(present := false)])])
  }

  /** Counts one more reference for each of the first `n` descriptors. */
  ghost function Shared(handles: map<nat, Handle>, ds: seq<Descriptor>, n: nat): map<nat, Handle>
    requires n <= |ds|
  {
    if n == 0 then handles
    else
      var before := Shared(handles, ds, n - 1);
      var h := ds[n - 1].handle;
      if ds[n - 1].present && h in before then before[h := before[h].(refCount := before[h].refCount + 1)] else before
  }

  /** The copy constructor, used by fork and by execute. */
  ghost function Copied(s: State, v: nat): State
    requires IsLive(s, v)
  {
    State(Shared(s.handles, s.tables[v].descriptors, |s.tables[v].descriptors|), s.tables + [s.tables[v]])
  }

  /** OnExecute's loop over the first `n` descriptors. */
  ghost function Executed(s: State, v: nat, n: nat): (r: State)
    requires IsLive(s, v) && n <= |s.tables[v].descriptors|
    ensures IsLive(r, v) && |r.tables| == |s.tables| && |r.tables[v].descriptors| == |s.tables[v].descriptors|
  {
    if n == 0 then s
    else
      var before := Executed(s, v, n - 1);
      var d := before.tables[v].descriptors[n - 1];
      if d.present && d.handle in before.handles && before.handles[d.handle].closeOnExecute
      then Closed(before, v, n - 1) else before
  }

  /** FreeResources: the VFS object goes away without closing anything. */
  ghost function Released(s: State, v: nat): State
    requires IsLive(s, v)
  {
    s.(tables := s.tables[v := Freed])
  }

  // ---- Each operation keeps the counts ----

  lemma OpenedReferences(s: State, v: nat, h: nat, closeOnExecute: bool, success: bool, other: nat)
    requires IsLive(s, v)
    ensures References(Opened(s, v, h, closeOnExecute, success).tables, other)
         == References(s.tables, other) + (if success && other == h then 1 else 0)
  {
    var ds := s.tables[v].descriptors;
    var i, d := FreeSlot(ds), Descriptor(h, success);
    ReferencesUpdated(s.tables, v, Live(WithDescriptor(ds, i, d)), other);
    if i < |ds| { CountInUpdated(ds, i, d, other); } else { CountInAppended(ds, d, other); }
  }

  lemma OpenedKeeps(s: State, v: nat, h: nat, closeOnExecute: bool, success: bool)
    requires IsLive(s, v) && h !in s.handles
    ensures Exact(s) ==> Exact(Opened(s, v, h, closeOnExecute, success))
    ensures NoDangling(s) ==> NoDangling(Opened(s, v, h, closeOnExecute, success))
  {
    hide References, FreeSlot, WithDescriptor;
    var s' := Opened(s, v, h, closeOnExecute, success);
    forall other
      ensures References(s'.tables, other) == References(s.tables, other) + (if success && other == h then 1 else 0)
    {
      OpenedReferences(s, v, h, closeOnExecute, success, other);
    }
  }

  /** Descriptor `d` is present and reaches handle `h`. */
  ghost predicate Names(s: State, v: nat, d: nat, h: nat)
    requires IsLive(s, v)
  {
    var ds := s.tables[v].descriptors;
    d < |ds| && ds[d].present && ds[d].handle == h
  }

  /** The descriptor closed is the only reference that goes away. */
  lemma ClosedReferences(s: State, v: nat, d: nat, other: nat)
    requires IsLive(s, v) && NoDangling(s)
    ensures References(s.tables, other) ==
            References(Closed(s, v, d).tables, other) + (if Names(s, v, d, other) then 1 else 0)
  {
    var ds := s.tables[v].descriptors;
    if d < |ds| && ds[d].present {
      PresentIsCounted(ds, d);
      CountedInTables(s.tables, v, ds[d].handle);
      CountInUpdated(ds, d, ds[d].(present := false), other);
      ReferencesUpdated(s.tables, v, Live(ds[d := ds[d].(present := false)]), other);
    }
  }

  lemma ClosedKeeps(s: State, v: nat, d: nat)
    requires IsLive(s, v)
    ensures Exact(s) ==> Exact(Closed(s, v, d))
    ensures NoDangling(s) ==> NoDangling(Closed(s, v, d))
  {
    hide References;
    if NoDangling(s) {
      forall other
        ensures References(s.tables, other) ==
                References(Closed(s, v, d).tables, other) + (if Names(s, v, d, other) then 1 else 0)
      {
        ClosedReferences(s, v, d, other);
      }
    }
  }

  /** The handle is deleted exactly when its last reference is closed. */
  lemma DeletedWithLastReference(s: State, v: nat, d: nat)
    requires IsLive(s, v) && Exact(s) && d < |s.tables[v].descriptors| && s.tables[v].descriptors[d].present
    ensures var h := s.tables[v].descriptors[d].handle;
            h in s.handles && (h !in Closed(s, v, d).handles <==> References(s.tables, h) == 1)
  {
    var ds := s.tables[v].descriptors;
    PresentIsCounted(ds, d);
    CountedInTables(s.tables, v, ds[d].handle);
  }

  lemma {:induction false} SharedCounts(handles: map<nat, Handle>, ds: seq<Descriptor>, n: nat, h: nat)
    requires n <= |ds|
    ensures h in Shared(handles, ds, n) <==> h in handles
    ensures h in handles ==> Shared(handles, ds, n)[h].refCount == handles[h].refCount + CountIn(ds[..n], h)
    ensures h in handles ==> Shared(handles, ds, n)[h].closeOnExecute == handles[h].closeOnExecute
  {
    if n > 0 {
      SharedCounts(handles, ds, n - 1, h);
      assert ds[..n] == ds[..n - 1] + [ds[n - 1]];
      CountInAppended(ds[..n - 1], ds[n - 1], h);
    }
  }

  lemma CopiedKeeps(s: State, v: nat)
    requires IsLive(s, v)
    ensures Exact(s) ==> Exact(Copied(s, v))
    ensures NoDangling(s) ==> NoDangling(Copied(s, v))
  {
    hide References, Shared;
    var ds := s.tables[v].descriptors;
    var s' := Copied(s, v);
    forall h
      ensures References(s'.tables, h) == References(s.tables, h) + CountIn(ds, h)
      ensures CountIn(ds, h) <= References(s.tables, h)
      ensures h in s'.handles <==> h in s.handles
      ensures h in s.handles ==> s'.handles[h].refCount == s.handles[h].refCount + CountIn(ds, h)
    {
      assert ds[..|ds|] == ds;
      ReferencesAppended(s.tables, s.tables[v], h);
      CountedInTables(s.tables, v, h);
      SharedCounts(s.handles, ds, |ds|, h);
    }
  }

  lemma {:induction false} ExecutedKeeps(s: State, v: nat, n: nat)
    requires IsLive(s, v) && n <= |s.tables[v].descriptors|
    ensures Exact(s) ==> Exact(Executed(s, v, n))
    ensures NoDangling(s) ==> NoDangling(Executed(s, v, n))
  {
    hide Exact, NoDangling;
    if n > 0 {
      ExecutedKeeps(s, v, n - 1);
      ClosedKeeps(Executed(s, v, n - 1), v, n - 1);
    }
  }

  lemma ClosedAt(s: State, v: nat, d: nat, i: nat)
    requires IsLive(s, v) && d < |s.tables[v].descriptors| && i < |s.tables[v].descriptors|
    ensures IsLive(Closed(s, v, d), v) && |Closed(s, v, d).tables[v].descriptors| == |s.tables[v].descriptors|
    ensures Closed(s, v, d).tables == s.tables[v := Closed(s, v, d).tables[v]]
    ensures var was, now := s.tables[v].descriptors[i], Closed(s, v, d).tables[v].descriptors[i];
            && now.handle == was.handle && (i != d ==> now == was)
            && (i == d && was.handle in s.handles && s.handles[was.handle].refCount > 0 ==> !now.present)
    ensures forall h :: h in Closed(s, v, d).handles ==>
                          h in s.handles && Closed(s, v, d).handles[h].closeOnExecute == s.handles[h].closeOnExecute
  {
  }

  /** The loop closes, among the first `n` descriptors, exactly the present ones whose handle is close-on-execute,
      and touches no other VFS object. */
  lemma {:induction false} ExecutedExactly(s: State, v: nat, n: nat, i: nat)
    requires IsLive(s, v) && NoDangling(s) && n <= |s.tables[v].descriptors| && i < |s.tables[v].descriptors|
    ensures var d, d' := s.tables[v].descriptors[i], Executed(s, v, n).tables[v].descriptors[i];
            && d'.handle == d.handle && (d.present ==> d.handle in s.handles)
            && (d'.present <==> d.present && !(i < n && s.handles[d.handle].closeOnExecute))
    ensures Executed(s, v, n).tables == s.tables[v := Executed(s, v, n).tables[v]]
    ensures forall h :: h in Executed(s, v, n).handles ==>
                          h in s.handles && Executed(s, v, n).handles[h].closeOnExecute == s.handles[h].closeOnExecute
  {
    hide NoDangling, Closed;
    var ds := s.tables[v].descriptors;
    if ds[i].present { PresentDescriptorIsCounted(s, v, i); }
    if n > 0 {
      var before := Executed(s, v, n - 1);
      ClosedAt(before, v, n - 1, i);
      ExecutedExactly(s, v, n - 1, i);
      ExecutedExactly(s, v, n - 1, n - 1);
      ExecutedKeeps(s, v, n - 1);
      if before.tables[v].descriptors[n - 1].present { PresentDescriptorIsCounted(before, v, n - 1); }
    }
  }

  lemma ExecutedFrame(s: State, v: nat, n: nat)
    requires IsLive(s, v) && NoDangling(s) && n <= |s.tables[v].descriptors|
    ensures Executed(s, v, n).tables == s.tables[v := Executed(s, v, n).tables[v]]
  {
    if n > 0 { ExecutedExactly(s, v, n, 0); }
  }

  /** A descriptor opened with close-on-execute is closed by the next execute, and any other one stays open. */
  lemma OpenedThenExecuted(s: State, v: nat, h: nat, closeOnExecute: bool)
    requires IsLive(s, v) && NoDangling(s) && h !in s.handles
    ensures var s1, i := Opened(s, v, h, closeOnExecute, true), FreeSlot(s.tables[v].descriptors);
            && Names(s1, v, i, h)
            && (Executed(s1, v, |s1.tables[v].descriptors|).tables[v].descriptors[i].present <==> !closeOnExecute)
  {
    hide NoDangling, Executed;
    var s1, i := Opened(s, v, h, closeOnExecute, true), FreeSlot(s.tables[v].descriptors);
    OpenedKeeps(s, v, h, closeOnExecute, true);
    ExecutedExactly(s1, v, |s1.tables[v].descriptors|, i);
  }

  lemma ReleasedKeeps(s: State, v: nat)
    requires IsLive(s, v)
    ensures NoDangling(s) ==> NoDangling(Released(s, v))
  {
    hide References;
    forall h
      ensures References(Released(s, v).tables, h) <= References(s.tables, h)
    {
      ReferencesUpdated(s.tables, v, Freed, h);
    }
  }

  /** No handle of the VFS object is reached from another one. */
  ghost predicate Unshared(s: State, v: nat)
    requires v < |s.tables|
  {
    forall h :: CountTable(s.tables[v], h) > 0 ==> References(s.tables, h) == CountTable(s.tables[v], h)
  }

  /** Freeing a VFS object without closing its descriptors keeps the counts exact exactly when it shares no handle. */
  lemma ReleasedExact(s: State, v: nat)
    requires IsLive(s, v) && Exact(s)
    ensures Exact(Released(s, v)) <==> Unshared(s, v)
  {
    hide References, CountTable;
    var s' := Released(s, v);
    forall h
      ensures References(s'.tables, h) == References(s.tables, h) - CountTable(s.tables[v], h)
    {
      ReferencesUpdated(s.tables, v, Freed, h);
      NothingInFreed(h);
    }
    if !Unshared(s, v) {
      var h :| CountTable(s.tables[v], h) > 0 && References(s.tables, h) != CountTable(s.tables[v], h);
      assert References(s'.tables, h) > 0;
    }
  }

  lemma NothingInFreed(h: nat)
    ensures CountTable(Freed, h) == 0
  {
  }

  // ---- The code ----

  datatype CloseOutcome = Done | InvalidFileDescriptor | Panic

  class Descriptors {
    var handles: map<nat, Handle>
    var tables: seq<Table>

    constructor ()
      ensures Now() == State(map[], [])
    {
      handles, tables := map[], [];
    }

    ghost function Now(): State
      reads this
    {
      State(handles, tables)
    }

    method FindFreeFileDescriptor(v: nat) returns (descriptorIndex: nat)
      requires IsLive(Now(), v)
      ensures descriptorIndex == FreeSlot(tables[v].descriptors)
    {
      var ds := tables[v].descriptors;
      var found := -1;
      for i := 0 to |ds|
        invariant -1 <= found < i && (found >= 0 ==> !ds[found].present)
        invariant forall j :: found < j < i ==> ds[j].present
      {
        if !ds[i].present { found := i; }
      }
      descriptorIndex := if found == -1 then |ds| else found;
    }

    method Open(v: nat, handle: nat, closeOnExecute: bool, success: bool) returns (descriptor: int)
      requires IsLive(Now(), v) && handle !in handles
      modifies this
      ensures Now() == Opened(old(Now()), v, handle, closeOnExecute, success)
      ensures descriptor == if success then FreeSlot(old(tables)[v].descriptors) else -1
      ensures success ==> Names(Now(), v, descriptor, handle)
      ensures handles == old(handles)[handle := Handle(1, closeOnExecute)]
      ensures |tables| == |old(tables)| && tables[v].Live?
      ensures forall u :: 0 <= u < |tables| && u != v ==> tables[u] == old(tables)[u]
      ensures |old(tables)[v].descriptors| <= |tables[v].descriptors| <= |old(tables)[v].descriptors| + 1
      ensures forall d :: 0 <= d < |old(tables)[v].descriptors| && old(tables)[v].descriptors[d].present ==>
                tables[v].descriptors[d] == old(tables)[v].descriptors[d] && descriptor != d
    {
      var i := FindFreeFileDescriptor(v);
      var ds := tables[v].descriptors;
      if i == |ds| { ds := ds + [Descriptor(handle, false)]; }
      handles := handles[handle := Handle(1, closeOnExecute)];
      ds := ds[i := Descriptor(handle, false)];
      descriptor := -1;
      if success {
        ds := ds[i := ds[i].(present := true)];
        descriptor := i;
      }
      tables := tables[v := Live(ds)];
      assert ds == WithDescriptor(old(tables)[v].descriptors, i, Descriptor(handle, success));
    }

    /** A negative descriptor gets past the range check and fails the assert in Vector::Get. */
    method Close(v: nat, descriptor: int) returns (outcome: CloseOutcome)
      requires IsLive(Now(), v) && NoDangling(Now())
      modifies this
      ensures outcome.Panic? <==> descriptor < 0
      ensures outcome.InvalidFileDescriptor? <==>
              descriptor >= 0
              && (descriptor >= |old(tables)[v].descriptors| || !old(tables)[v].descriptors[descriptor].present)
      ensures Now() == if descriptor < 0 then old(Now()) else Closed(old(Now()), v, descriptor)
      ensures !outcome.Done? ==> handles == old(handles) && tables == old(tables)
      ensures outcome.Done? ==>
                var ds := old(tables)[v].descriptors;
                var h := ds[descriptor].handle;
                && tables == old(tables)[v := Live(ds[descriptor := Descriptor(h, false)])]
                && h in old(handles) && (h in handles <==> old(handles)[h].refCount != 1)
                && (h in handles ==> handles[h].refCount == old(handles)[h].refCount - 1
                                     && handles[h].closeOnExecute == old(handles)[h].closeOnExecute)
                && handles - {h} == old(handles) - {h}
    {
      var ds := tables[v].descriptors;
      if descriptor < 0 { return Panic; }
      if descriptor >= |ds| || !ds[descriptor].present { return InvalidFileDescriptor; }
      PresentDescriptorIsCounted(Now(), v, descriptor);
      var h := ds[descriptor].handle;
      tables := tables[v := Live(ds[descriptor := ds[descriptor].(present := false)])];
      handles := handles[h := handles[h].(refCount := handles[h].refCount - 1)];
      if handles[h].refCount == 0 {
        handles := handles - {h};
        assert handles == old(handles) - {h};
      }
      outcome := Done;
    }

    /** The new VFS object has the same descriptors in the same places, and every handle counts each of them that is
        present. */
    method CopyConstructor(v: nat)
      requires IsLive(Now(), v) && NoDangling(Now())
      modifies this
      ensures Now() == Copied(old(Now()), v)
      ensures tables == old(tables) + [old(tables)[v]] && handles.Keys == old(handles).Keys
      ensures forall h :: h in handles ==>
                && handles[h].refCount == old(handles)[h].refCount + |Reaching(old(tables)[v].descriptors, h)|
                && handles[h].closeOnExecute == old(handles)[h].closeOnExecute
    {
      var ds := tables[v].descriptors;
      ghost var before := handles;
      var i := 0;
      while i < |ds|
        invariant 0 <= i <= |ds| && tables == old(tables) && handles == Shared(before, ds, i)
      {
        if ds[i].present {
          PresentDescriptorIsCounted(old(Now()), v, i);
          SharedCounts(before, ds, i, ds[i].handle);
          var h := ds[i].handle;
          handles := handles[h := handles[h].(refCount := handles[h].refCount + 1)];
        }
        i := i + 1;
      }
      tables := tables + [Live(ds)];
      forall h
        ensures h in handles <==> h in before
        ensures h in handles ==>
                  && handles[h].refCount == before[h].refCount + |Reaching(ds, h)|
                  && handles[h].closeOnExecute == before[h].closeOnExecute
      {
        SharedCounts(before, ds, |ds|, h);
        assert ds[..|ds|] == ds;
        CountIsNumber(ds, h);
      }
    }

    method OnExecute(v: nat)
      requires IsLive(Now(), v) && NoDangling(Now())
      modifies this
      ensures Now() == Executed(old(Now()), v, |old(tables)[v].descriptors|)
      ensures IsLive(Now(), v) && |tables[v].descriptors| == |old(tables)[v].descriptors|
      ensures tables == old(tables)[v := tables[v]]
      ensures forall i :: 0 <= i < |tables[v].descriptors| ==>
                var d := old(tables)[v].descriptors[i];
                && tables[v].descriptors[i].handle == d.handle && (d.present ==> d.handle in old(handles))
                && (tables[v].descriptors[i].present <==> d.present && !old(handles)[d.handle].closeOnExecute)
    {
      hide NoDangling, Closed;
      ghost var s := Now();
      var n := |tables[v].descriptors|;
      var i := 0;
      while i < n
        invariant 0 <= i <= n && Now() == Executed(s, v, i) && NoDangling(Now())
      {
        ExecutedKeeps(s, v, i + 1);
        var d := tables[v].descriptors[i];
        if d.present {
          PresentDescriptorIsCounted(Now(), v, i);
          if handles[d.handle].closeOnExecute {
            var _ := Close(v, i);
          }
        }
        i := i + 1;
      }
      ExecutedFrame(s, v, n);
      forall j | 0 <= j < n
        ensures var d := s.tables[v].descriptors[j];
                && tables[v].descriptors[j].handle == d.handle && (d.present ==> d.handle in s.handles)
                && (tables[v].descriptors[j].present <==> d.present && !s.handles[d.handle].closeOnExecute)
      {
        ExecutedExactly(s, v, n, j);
      }
    }
  }

  // ---- Whole runs ----

  datatype Op =
    | NewVfs
    | Open(v: nat, h: nat, closeOnExecute: bool, success: bool)
    | Close(v: nat, d: nat)
    | Copy(v: nat)
    | OnExecute(v: nat)
    | FreeResources(v: nat)

  /** The operation applies: its VFS object is live, and a new handle is not at the address of a live one. */
  ghost predicate Enabled(s: State, op: Op) {
    match op
    case NewVfs => true
    case Open(v, h, _, _) => IsLive(s, v) && h !in s.handles
    case Close(v, _) => IsLive(s, v)
    case Copy(v) => IsLive(s, v)
    case OnExecute(v) => IsLive(s, v)
    case FreeResources(v) => IsLive(s, v)
  }

  ghost function After(s: State, op: Op): State
    requires Enabled(s, op)
  {
    match op
    case NewVfs => s.(tables := s.tables + [Live([])])
    case Open(v, h, closeOnExecute, success) => Opened(s, v, h, closeOnExecute, success)
    case Close(v, d) => Closed(s, v, d)
    case Copy(v) => Copied(s, v)
    case OnExecute(v) => Executed(s, v, |s.tables[v].descriptors|)
    case FreeResources(v) => Released(s, v)
  }

  ghost predicate IsRun(states: seq<State>, ops: seq<Op>) {
    && |states| == |ops| + 1 && states[0] == State(map[], [])
    && forall i :: 0 <= i < |ops| ==> Enabled(states[i], ops[i]) && states[i + 1] == After(states[i], ops[i])
  }

  lemma StepKeeps(s: State, op: Op)
    requires Enabled(s, op)
    ensures Exact(s) ==> (Exact(After(s, op)) <==> SharesNothing(s, op))
    ensures NoDangling(s) ==> NoDangling(After(s, op))
  {
    hide Exact, NoDangling, Unshared;
    match op
    case NewVfs => NewVfsKeeps(s);
    case Open(v, h, closeOnExecute, success) => OpenedKeeps(s, v, h, closeOnExecute, success);
    case Close(v, d) => ClosedKeeps(s, v, d);
    case Copy(v) => CopiedKeeps(s, v);
    case OnExecute(v) => ExecutedKeeps(s, v, |s.tables[v].descriptors|);
    case FreeResources(v) =>
      ReleasedKeeps(s, v);
      if Exact(s) { ReleasedExact(s, v); }
  }

  /** If the operation frees a VFS object, that shares no handle with another one. */
  ghost predicate SharesNothing(s: State, op: Op)
    requires Enabled(s, op)
  {
    op.FreeResources? ==> Unshared(s, op.v)
  }

  lemma NewVfsKeeps(s: State)
    ensures Exact(s) ==> Exact(After(s, NewVfs))
    ensures NoDangling(s) ==> NoDangling(After(s, NewVfs))
  {
    hide References;
    forall h
      ensures References(After(s, NewVfs).tables, h) == References(s.tables, h)
    {
      ReferencesAppended(s.tables, Live([]), h);
    }
  }

  /** Over every run of opens, closes, copies and executes by any number of processes: no present descriptor ever
      reaches a deleted handle; and counts are exact up to the first freed VFS object that shares a handle, which makes
      them inexact at once. */
  lemma {:induction false} HandlesOverRuns(states: seq<State>, ops: seq<Op>, k: nat)
    requires IsRun(states, ops) && k <= |ops|
    ensures NoDangling(states[k])
    ensures (forall i :: 0 <= i < k ==> SharesNothing(states[i], ops[i])) ==> Exact(states[k])
    ensures k > 0 && (forall i :: 0 <= i < k - 1 ==> SharesNothing(states[i], ops[i])) ==>
              (Exact(states[k]) <==> SharesNothing(states[k - 1], ops[k - 1]))
  {
    hide SharesNothing;
    if k > 0 {
      HandlesOverRuns(states, ops, k - 1);
      StepKeeps(states[k - 1], ops[k - 1]);
    }
  }

  /** Hence the asserts on reference counts in Close and in the copy constructor never fire. */
  lemma PresentDescriptorIsCounted(s: State, v: nat, d: nat)
    requires NoDangling(s) && IsLive(s, v) && d < |s.tables[v].descriptors| && s.tables[v].descriptors[d].present
    ensures var h := s.tables[v].descriptors[d].handle; h in s.handles && s.handles[h].refCount > 0
  {
    PresentIsCounted(s.tables[v].descriptors, d);
    CountedInTables(s.tables, v, s.tables[v].descriptors[d].handle);
  }

  lemma OnlyReference(d: Descriptor, h: nat)
    ensures References([Freed, Live([d])], h) == if d.present && d.handle == h then 1 else 0
  {
    assert [Freed, Live([d])][1..] == [Live([d])] && [Live([d])][1..] == [] && [d][1..] == [];
    assert CountIn([d], h) == if d.present && d.handle == h then 1 else 0;
    assert References([Live([d])], h) == CountTable(Live([d]), h) + References([], h);
  }

  /** A process opens a file, forks and is reaped: the child's descriptor is now the only one, but its handle still
      counts two, so that closing it will not delete the handle. */
  lemma ReleaseLeaksAReference() returns (states: seq<State>, ops: seq<Op>)
    ensures IsRun(states, ops)
    ensures var s := states[|ops|];
            && 7 in s.handles && s.handles[7].refCount == 2 && References(s.tables, 7) == 1 && !Exact(s)
            && IsLive(s, 1) && 7 in Closed(s, 1, 0).handles && References(Closed(s, 1, 0).tables, 7) == 0
  {
    var ds := [Descriptor(7, true)];
    var s0 := State(map[], []);
    var s1 := State(map[], [Live([])]);
    var s2 := State(map[7 := Handle(1, false)], [Live(ds)]);
    var s3 := State(map[7 := Handle(2, false)], [Live(ds), Live(ds)]);
    var s4 := State(map[7 := Handle(2, false)], [Freed, Live(ds)]);
    assert WithDescriptor([], FreeSlot([]), Descriptor(7, true)) == ds;
    assert Shared(s2.handles, ds, 1) == s3.handles by { assert Shared(s2.handles, ds, 0) == s2.handles; }
    OnlyReference(Descriptor(7, true), 7);
    OnlyReference(Descriptor(7, false), 7);
    assert ds[0 := Descriptor(7, false)] == [Descriptor(7, false)];
    assert Closed(s4, 1, 0).tables == [Freed, Live([Descriptor(7, false)])];
    states, ops := [s0, s1, s2, s3, s4], [NewVfs, Open(0, 7, false, true), Copy(0), FreeResources(0)];
  }
}

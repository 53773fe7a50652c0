/** What one write to a page table does to all walks: the argument behind MapMemory. */
module PageMaps {
  import opened Common
  import opened PageEntries
  import opened PageTrees

  // ---- Distinctness by counting ----

  ghost predicate Once(m: multiset<nat>) {
    forall x :: m[x] <= 1
  }

  lemma {:induction false} DistinctCounts(s: seq<nat>)
    ensures Distinct(s) <==> Once(multiset(s))
  {
    if |s| > 0 {
      var last, rest := s[|s| - 1], s[..|s| - 1];
      assert s == rest + [last];
      DistinctCounts(rest);
      DistinctConcat(rest, [last]);
      assert multiset(s) == multiset(rest) + multiset{last};
      assert forall x :: multiset(s)[x] == multiset(rest)[x] + (if x == last then 1 else 0);
      assert last in rest <==> multiset(rest)[last] > 0;
      if Once(multiset(s)) { assert multiset(s)[last] <= 1; }
    }
  }

  lemma OnceDisjoint(a: seq<nat>, b: seq<nat>, m: multiset<nat>)
    requires multiset(a) + multiset(b) <= m && Once(m)
    ensures forall x :: x in a ==> x !in b
  {
    assert forall x :: multiset(a)[x] + multiset(b)[x] <= m[x] <= 1;
    assert forall x :: x in a ==> multiset(a)[x] > 0;
    assert forall x :: x in b ==> multiset(b)[x] > 0;
  }

  lemma SumsShift(before: multiset<nat>, after: multiset<nat>, x: multiset<nat>, x': multiset<nat>, more: multiset<nat>)
    requires after + x == before + x'
    ensures (after + more) + x == (before + more) + x'
  {
    assert (after + more) + x == (after + x) + more;
    assert (before + more) + x' == (before + x') + more;
  }

  // ---- The entries of one table contribute disjoint parts ----

  ghost function Part(mem: Memory, table: nat, level: nat, i: nat, pages: bool): seq<nat>
    requires i < 512
  {
    ReachEntry(mem, Content(mem, table)[i], level, pages)
  }

  lemma PartUnfolds(mem: Memory, table: nat, level: nat, i: nat, pages: bool)
    requires i < 512
    ensures var e := Content(mem, table)[i];
            Part(mem, table, level, i, pages) ==
            if !IsPresent(e) then []
            else if level > 0 then [FrameOf(e)] + Reach(mem, FrameOf(e), level - 1, 512, pages)
            else if pages then [FrameOf(e)] else []
  {
  }

  lemma ReachUnfolds(mem: Memory, table: nat, level: nat, n: nat, pages: bool)
    requires 0 < n <= 512
    ensures multiset(Reach(mem, table, level, n, pages))
         == multiset(Reach(mem, table, level, n - 1, pages)) + multiset(Part(mem, table, level, n - 1, pages))
  {
    var before, part := Reach(mem, table, level, n - 1, pages), Part(mem, table, level, n - 1, pages);
    assert Reach(mem, table, level, n, pages) == before + part;
    hide *;
    assert multiset(before + part) == multiset(before) + multiset(part);
  }

  lemma {:induction false} PartsWithin(mem: Memory, table: nat, level: nat, n: nat, i: nat, pages: bool)
    requires i < n <= 512
    ensures multiset(Part(mem, table, level, i, pages)) <= multiset(Reach(mem, table, level, n, pages))
  {
    hide *;
    ReachUnfolds(mem, table, level, n, pages);
    if i < n - 1 { PartsWithin(mem, table, level, n - 1, i, pages); }
  }

  lemma {:induction false} TwoPartsWithin(mem: Memory, table: nat, level: nat, n: nat, i: nat, j: nat, pages: bool)
    requires i < j < n <= 512
    ensures multiset(Part(mem, table, level, i, pages)) + multiset(Part(mem, table, level, j, pages))
         <= multiset(Reach(mem, table, level, n, pages))
  {
    hide *;
    ReachUnfolds(mem, table, level, n, pages);
    if j < n - 1 {
      TwoPartsWithin(mem, table, level, n - 1, i, j, pages);
    } else {
      PartsWithin(mem, table, level, n - 1, i, pages);
    }
  }

  lemma PartsDisjoint(mem: Memory, table: nat, level: nat, n: nat, i: nat, j: nat, pages: bool)
    requires i < n <= 512 && j < n && i != j && Distinct(Reach(mem, table, level, n, pages))
    ensures forall x :: x in Part(mem, table, level, i, pages) ==> x !in Part(mem, table, level, j, pages)
  {
    hide Reach, Part, Once;
    DistinctCounts(Reach(mem, table, level, n, pages));
    TwoPartsWithin(mem, table, level, n, if i < j then i else j, if i < j then j else i, pages);
    OnceDisjoint(Part(mem, table, level, i, pages), Part(mem, table, level, j, pages),
                 multiset(Reach(mem, table, level, n, pages)));
  }

  /** Changing what one entry contributes changes the whole by exactly that. */
  lemma {:induction false} OnePartChanged(mem: Memory, mem': Memory, table: nat, level: nat, n: nat, i: nat,
                                          pages: bool)
    requires i < n <= 512
    requires forall j :: 0 <= j < n && j != i ==>
               Part(mem', table, level, j, pages) == Part(mem, table, level, j, pages)
    ensures multiset(Reach(mem', table, level, n, pages)) + multiset(Part(mem, table, level, i, pages))
         == multiset(Reach(mem, table, level, n, pages)) + multiset(Part(mem', table, level, i, pages))
  {
    hide *;
    ReachUnfolds(mem, table, level, n, pages);
    ReachUnfolds(mem', table, level, n, pages);
    if i < n - 1 {
      OnePartChanged(mem, mem', table, level, n - 1, i, pages);
      SumsShift(multiset(Reach(mem, table, level, n - 1, pages)), multiset(Reach(mem', table, level, n - 1, pages)),
                multiset(Part(mem, table, level, i, pages)), multiset(Part(mem', table, level, i, pages)),
                multiset(Part(mem, table, level, n - 1, pages)));
    } else {
      SameParts(mem, mem', table, level, n - 1, pages);
    }
  }

  lemma {:induction false} SameParts(mem: Memory, mem': Memory, table: nat, level: nat, n: nat, pages: bool)
    requires n <= 512
    requires forall j :: 0 <= j < n ==> Part(mem', table, level, j, pages) == Part(mem, table, level, j, pages)
    ensures Reach(mem', table, level, n, pages) == Reach(mem, table, level, n, pages)
  {
    hide ReachEntry;
    if n > 0 {
      SameParts(mem, mem', table, level, n - 1, pages);
      assert Part(mem', table, level, n - 1, pages) == Part(mem, table, level, n - 1, pages);
    }
  }

  // ---- The table an address goes through at a level ----

  ghost function TableAt(mem: Memory, table: nat, level: nat, virtAddr: word, target: nat): Option<nat>
    requires target <= level
    decreases level
  {
    if level == target then Some(table)
    else
      var e := Content(mem, table)[Index(virtAddr, level)];
      if IsPresent(e) then TableAt(mem, FrameOf(e), level - 1, virtAddr, target) else None
  }

  lemma {:induction false} TableAtReached(mem: Memory, table: nat, level: nat, virtAddr: word, target: nat)
    requires target < level && TableAt(mem, table, level, virtAddr, target).Some?
    ensures TableAt(mem, table, level, virtAddr, target).value in Part(mem, table, level, Index(virtAddr, level), false)
    decreases level
  {
    var i := Index(virtAddr, level);
    var e := Content(mem, table)[i];
    if target < level - 1 {
      TableAtReached(mem, FrameOf(e), level - 1, virtAddr, target);
      ReachContains(mem, FrameOf(e), level - 1, 512, Index(virtAddr, level - 1), false);
    }
  }

  /** A tree of page tables: no table is reached twice. */
  ghost predicate Tree(mem: Memory, table: nat, level: nat, n: nat)
    requires n <= 512
  {
    Distinct([table] + Reach(mem, table, level, n, false))
  }

  lemma Subtree(mem: Memory, table: nat, level: nat, n: nat, i: nat)
    requires i < n <= 512 && level > 0 && Tree(mem, table, level, n) && IsPresent(Content(mem, table)[i])
    ensures Tree(mem, FrameOf(Content(mem, table)[i]), level - 1, 512)
    ensures table !in Part(mem, table, level, i, false)
  {
    var reach := Reach(mem, table, level, n, false);
    DistinctConcat([table], reach);
    DistinctCounts(reach);
    PartsWithin(mem, table, level, n, i, false);
    DistinctCounts(Part(mem, table, level, i, false));
    ReachContains(mem, table, level, n, i, false);
  }

  // ---- One entry written ----

  /** One entry turned from absent into present: the one `virtAddr` uses in `table`, which is a table of level `level`.
      An inner entry is made to lead to the empty table `added`. */
  datatype Write = Write(virtAddr: word, level: nat, table: nat, added: nat)

  /** `mem'` is `mem` after the write, and nothing else among the tables below `table` changed. */
  ghost predicate Written(mem: Memory, mem': Memory, table: nat, level: nat, n: nat, w: Write)
    requires n <= 512 && w.level <= level
  {
    && Tree(mem, table, level, n)
    && TableAt(mem, table, level, w.virtAddr, w.level) == Some(w.table)
    && Index(w.virtAddr, level) < n
    && (forall x :: (x == table || x in Reach(mem, table, level, n, false)) && x != w.table ==>
        Content(mem', x) == Content(mem, x))
    && (forall i :: 0 <= i < 512 && i != Index(w.virtAddr, w.level) ==>
        Content(mem', w.table)[i] == Content(mem, w.table)[i])
    && !IsPresent(Content(mem, w.table)[Index(w.virtAddr, w.level)])
    && IsPresent(Content(mem', w.table)[Index(w.virtAddr, w.level)])
    && (w.level > 0 ==>
          && FrameOf(Content(mem', w.table)[Index(w.virtAddr, w.level)]) == w.added
          && w.added != table && w.added !in Reach(mem, table, level, n, false)
          && forall i :: 0 <= i < 512 ==> !IsPresent(Content(mem', w.added)[i]))
  }

  lemma WrittenBelow(mem: Memory, mem': Memory, table: nat, level: nat, n: nat, w: Write)
    requires n <= 512 && w.level < level && Written(mem, mem', table, level, n, w)
    ensures var i := Index(w.virtAddr, level);
            var e := Content(mem, table)[i];
            && IsPresent(e) && Content(mem', table) == Content(mem, table)
            && Written(mem, mem', FrameOf(e), level - 1, 512, w)
  {
    var i := Index(w.virtAddr, level);
    TableAtReached(mem, table, level, w.virtAddr, w.level);
    Subtree(mem, table, level, n, i);
    ReachContains(mem, table, level, n, i, false);
  }

  /** Entries the written address does not use keep what they reach and how they are walked. */
  lemma OtherPartKept(mem: Memory, mem': Memory, table: nat, level: nat, n: nat, w: Write, j: nat)
    requires n <= 512 && w.level <= level && Written(mem, mem', table, level, n, w)
    requires j < n && j != Index(w.virtAddr, level)
    ensures Content(mem', table)[j] == Content(mem, table)[j]
    ensures Agree(mem, mem', Part(mem, table, level, j, false))
    ensures forall pages :: Part(mem', table, level, j, pages) == Part(mem, table, level, j, pages)
  {
    var i := Index(w.virtAddr, level);
    DistinctConcat([table], Reach(mem, table, level, n, false));
    PartsDisjoint(mem, table, level, n, i, j, false);
    ReachContains(mem, table, level, n, j, false);
    ReachContains(mem, table, level, n, i, false);
    if w.level < level {
      TableAtReached(mem, table, level, w.virtAddr, w.level);
      assert w.table != table;
    }
    ReachEntryFrame(mem, mem', Content(mem, table)[j], level, false);
    ReachEntryFrame(mem, mem', Content(mem, table)[j], level, true);
  }

  lemma {:induction false} EmptyReachesNothing(mem: Memory, table: nat, level: nat, n: nat, pages: bool)
    requires n <= 512 && forall i :: 0 <= i < n ==> !IsPresent(Content(mem, table)[i])
    ensures Reach(mem, table, level, n, pages) == []
  {
    if n > 0 { EmptyReachesNothing(mem, table, level, n - 1, pages); }
  }

  /** The frame the written entry leads to, if it counts. */
  ghost function Added(mem': Memory, w: Write, pages: bool): multiset<nat> {
    if w.level > 0 || pages then multiset{FrameOf(Content(mem', w.table)[Index(w.virtAddr, w.level)])} else multiset{}
  }

  lemma Cancel(before: multiset<nat>, after: multiset<nat>, p: multiset<nat>, d: multiset<nat>)
    requires after + p == before + (p + d)
    ensures after == before + d
  {
    assert forall x :: after[x] + p[x] == (after + p)[x] == (before + (p + d))[x] == before[x] + p[x] + d[x];
  }

  /** Linking an empty table adds exactly that table to the tree; writing a leaf adds the page and no table. */
  lemma {:induction false} WrittenReach(mem: Memory, mem': Memory, table: nat, level: nat, n: nat, w: Write,
                                        pages: bool)
    requires n <= 512 && w.level <= level && Written(mem, mem', table, level, n, w)
    ensures multiset(Reach(mem', table, level, n, pages)) ==
            multiset(Reach(mem, table, level, n, pages)) + Added(mem', w, pages)
    decreases level, 1
  {
    var i := Index(w.virtAddr, level);
    hide Reach, Part, Written, Index, Added;
    forall j | 0 <= j < n && j != i
      ensures Part(mem', table, level, j, pages) == Part(mem, table, level, j, pages)
    {
      OtherPartKept(mem, mem', table, level, n, w, j);
    }
    WrittenPart(mem, mem', table, level, n, w, pages);
    OnePartChanged(mem, mem', table, level, n, i, pages);
    Cancel(multiset(Reach(mem, table, level, n, pages)), multiset(Reach(mem', table, level, n, pages)),
           multiset(Part(mem, table, level, i, pages)), Added(mem', w, pages));
  }

  lemma {:induction false} WrittenPart(mem: Memory, mem': Memory, table: nat, level: nat, n: nat, w: Write, pages: bool)
    requires n <= 512 && w.level <= level && Written(mem, mem', table, level, n, w)
    ensures var i := Index(w.virtAddr, level);
            i < n
            && multiset(Part(mem', table, level, i, pages)) ==
               multiset(Part(mem, table, level, i, pages)) + Added(mem', w, pages)
    decreases level, 0
  {
    hide Reach, Part, IsPresent, FrameOf, Index, Written, Added;
    var i := Index(w.virtAddr, level);
    if w.level < level {
      PartUnfolds(mem, table, level, i, pages);
      PartUnfolds(mem', table, level, i, pages);
      WrittenBelow(mem, mem', table, level, n, w);
      WrittenReach(mem, mem', FrameOf(Content(mem, table)[i]), level - 1, 512, w, pages);
      IndexInRange(mem, mem', table, level, n, w);
    } else {
      WrittenHere(mem, mem', table, n, w, pages);
    }
  }

  lemma IndexInRange(mem: Memory, mem': Memory, table: nat, level: nat, n: nat, w: Write)
    requires n <= 512 && w.level <= level && Written(mem, mem', table, level, n, w)
    ensures Index(w.virtAddr, level) < n
  {
  }

  /** The table itself was written. */
  lemma WrittenHere(mem: Memory, mem': Memory, table: nat, n: nat, w: Write, pages: bool)
    requires n <= 512 && Written(mem, mem', table, w.level, n, w)
    ensures var i := Index(w.virtAddr, w.level);
            i < n
            && multiset(Part(mem', table, w.level, i, pages)) ==
               multiset(Part(mem, table, w.level, i, pages)) + Added(mem', w, pages)
  {
    hide Reach, Part, IsPresent, FrameOf, Index, Tree;
    var i := Index(w.virtAddr, w.level);
    PartUnfolds(mem, table, w.level, i, pages);
    PartUnfolds(mem', table, w.level, i, pages);
    if w.level > 0 {
      EmptyReachesNothing(mem', w.added, w.level - 1, 512, pages);
      assert Part(mem', table, w.level, i, pages) == [w.added];
    }
  }

  /** Two addresses use the same entries from `level` down. */
  ghost predicate SamePath(a: word, b: word, level: nat) {
    forall k :: 0 <= k <= level ==> Index(a, k) == Index(b, k)
  }

  /** Every walk is unchanged, except that a written leaf is now found by the addresses of its page. */
  lemma {:induction false} WrittenWalk(mem: Memory, mem': Memory, table: nat, level: nat, n: nat, w: Write, other: word)
    requires n <= 512 && w.level <= level && Written(mem, mem', table, level, n, w)
    requires Index(other, level) < n
    ensures w.level == 0 && SamePath(w.virtAddr, other, level) ==>
              && Walk(mem, table, level, other).None?
              && Walk(mem', table, level, other).Some?
              && Walk(mem', table, level, other).value[level] == Content(mem', w.table)[Index(w.virtAddr, 0)]
    ensures !(w.level == 0 && SamePath(w.virtAddr, other, level)) ==>
              Walk(mem', table, level, other) == Walk(mem, table, level, other)
    decreases level
  {
    var i, j := Index(w.virtAddr, level), Index(other, level);
    if i != j {
      WrittenWalkApart(mem, mem', table, level, n, w, other);
      assert !SamePath(w.virtAddr, other, level);
    } else if w.level < level {
      WrittenBelow(mem, mem', table, level, n, w);
      hide Reach, IsPresent, FrameOf, Index, Written;
      WrittenWalk(mem, mem', FrameOf(Content(mem, table)[i]), level - 1, 512, w, other);
      assert SamePath(w.virtAddr, other, level) <==> SamePath(w.virtAddr, other, level - 1);
    } else {
      hide Reach, FrameOf, Index, TableAt, Tree;
      assert w.level == 0 ==> SamePath(w.virtAddr, other, level);
    }
  }

  lemma SameEntrySameWalk(mem: Memory, mem': Memory, table: nat, level: nat, virtAddr: word)
    ensures var e := Content(mem, table)[Index(virtAddr, level)];
            && Content(mem', table)[Index(virtAddr, level)] == e
            && (IsPresent(e) && level > 0 ==>
                Walk(mem', FrameOf(e), level - 1, virtAddr) == Walk(mem, FrameOf(e), level - 1, virtAddr)) ==>
              Walk(mem', table, level, virtAddr) == Walk(mem, table, level, virtAddr)
  {
    hide IsPresent, FrameOf, Index;
  }

  lemma WrittenWalkApart(mem: Memory, mem': Memory, table: nat, level: nat, n: nat, w: Write, other: word)
    requires n <= 512 && w.level <= level && Written(mem, mem', table, level, n, w)
    requires Index(other, level) < n && Index(other, level) != Index(w.virtAddr, level)
    ensures Walk(mem', table, level, other) == Walk(mem, table, level, other)
  {
    hide Reach, IsPresent, FrameOf, Index, Written, Part, Walk;
    var j := Index(other, level);
    SameEntrySameWalk(mem, mem', table, level, other);
    var e := Content(mem, table)[j];
    OtherPartKept(mem, mem', table, level, n, w, j);
    PartUnfolds(mem, table, level, j, false);
    if IsPresent(e) && level > 0 {
      WalkFrame(mem, mem', FrameOf(e), level - 1, 512, other);
    }
  }

  /** After linking, the path of the address continues into the w.added table. */
  lemma {:induction false} WrittenPath(mem: Memory, mem': Memory, table: nat, level: nat, n: nat, w: Write)
    requires n <= 512 && 0 < w.level <= level && Written(mem, mem', table, level, n, w)
    ensures TableAt(mem', table, level, w.virtAddr, w.level - 1) == Some(w.added)
    decreases level
  {
    if w.level < level {
      WrittenBelow(mem, mem', table, level, n, w);
      WrittenPath(mem, mem', FrameOf(Content(mem, table)[Index(w.virtAddr, level)]), level - 1, 512, w);
    }
  }
}

/** Page-table trees inside physical memory: what a table reaches, how an address is walked,
    and when one tree is a copy of another. */
module PageTrees {
  import opened Common
  import opened PageEntries

  /** A 4 KiB frame seen as 512 words; page tables and user pages live in the same memory. */
  type Table = t: seq<word> | |t| == 512 witness seq(512, _ => 0)
  type Memory = seq<Table>

  function Zeroed(): Table {
    seq(512, _ => 0)
  }

  function Content(mem: Memory, frame: nat): Table {
    if frame < |mem| then mem[frame] else Zeroed()
  }

  predicate IsPresent(entry: word) {
    GetFlag(entry, PRESENT)
  }

  lemma DistinctConcat(a: seq<nat>, b: seq<nat>)
    ensures Distinct(a + b) <==> Distinct(a) && Distinct(b) && forall x :: x in a ==> x !in b
  {
    var s := a + b;
    if Distinct(s) {
      assert forall i :: 0 <= i < |a| ==> a[i] == s[i];
      assert forall j :: 0 <= j < |b| ==> b[j] == s[|a| + j];
    }
    if Distinct(a) && Distinct(b) && forall x :: x in a ==> x !in b {
      forall i, j | 0 <= i < j < |s|
        ensures s[i] != s[j]
      {
        if i < |a| <= j { assert s[i] in a && s[j] in b; }
      }
    }
  }

  // ---- Reachable frames ----

  /** The frames reached from the first `n` entries of a table, in depth-first order: page tables,
      and the mapped pages too when `pages` holds. */
  ghost function Reach(mem: Memory, table: nat, level: nat, n: nat, pages: bool): seq<nat>
    requires n <= 512
    decreases level, 1, n
  {
    if n == 0 then []
    else Reach(mem, table, level, n - 1, pages) + ReachEntry(mem, Content(mem, table)[n - 1], level, pages)
  }

  ghost function ReachEntry(mem: Memory, entry: word, level: nat, pages: bool): seq<nat>
    decreases level, 0, 0
  {
    if !IsPresent(entry) then []
    else if level == 0 then if pages then [FrameOf(entry)] else []
    else [FrameOf(entry)] + Reach(mem, FrameOf(entry), level - 1, 512, pages)
  }

  ghost predicate SamePrefix(mem: Memory, mem': Memory, table: nat, n: nat)
    requires n <= 512
  {
    forall i :: 0 <= i < n ==> Content(mem, table)[i] == Content(mem', table)[i]
  }

  ghost predicate Agree(mem: Memory, mem': Memory, frames: seq<nat>) {
    forall x :: x in frames ==> Content(mem, x) == Content(mem', x)
  }

  /** What is reached depends only on the tables on the way. */
  lemma {:induction false} ReachFrame(mem: Memory, mem': Memory, table: nat, level: nat, n: nat, pages: bool)
    requires n <= 512 && SamePrefix(mem, mem', table, n) && Agree(mem, mem', Reach(mem, table, level, n, false))
    ensures Reach(mem', table, level, n, pages) == Reach(mem, table, level, n, pages)
    decreases level, n
  {
    if n > 0 {
      ReachFrame(mem, mem', table, level, n - 1, pages);
      var e := Content(mem, table)[n - 1];
      if IsPresent(e) && level > 0 {
        ReachContains(mem, table, level, n, n - 1, false);
        ReachFrame(mem, mem', FrameOf(e), level - 1, 512, pages);
      }
    }
  }

  lemma {:induction false} ReachContains(mem: Memory, table: nat, level: nat, n: nat, i: nat, pages: bool)
    requires i < n <= 512
    ensures forall x :: x in ReachEntry(mem, Content(mem, table)[i], level, pages) ==>
              x in Reach(mem, table, level, n, pages)
  {
    if i < n - 1 { ReachContains(mem, table, level, n - 1, i, pages); }
  }

  lemma {:induction false} TablesAmongReached(mem: Memory, table: nat, level: nat, n: nat)
    requires n <= 512
    ensures forall x :: x in Reach(mem, table, level, n, false) ==> x in Reach(mem, table, level, n, true)
    decreases level, n
  {
    if n > 0 {
      TablesAmongReached(mem, table, level, n - 1);
      var e := Content(mem, table)[n - 1];
      if IsPresent(e) && level > 0 {
        TablesAmongReached(mem, FrameOf(e), level - 1, 512);
        assert forall x :: x in ReachEntry(mem, e, level, false) ==> x in ReachEntry(mem, e, level, true);
      }
    }
  }

  lemma {:induction false} ReachGrows(mem: Memory, table: nat, level: nat, k: nat, n: nat)
    requires k <= n <= 512
    ensures |Reach(mem, table, level, k, true)| <= |Reach(mem, table, level, n, true)|
  {
    if k < n { ReachGrows(mem, table, level, k, n - 1); }
  }

  lemma ReachEntryFrame(mem: Memory, mem': Memory, entry: word, level: nat, pages: bool)
    requires Agree(mem, mem', ReachEntry(mem, entry, level, false))
    ensures ReachEntry(mem', entry, level, pages) == ReachEntry(mem, entry, level, pages)
  {
    if IsPresent(entry) && level > 0 {
      ReachFrame(mem, mem', FrameOf(entry), level - 1, 512, pages);
    }
  }

  lemma EntryTablesAmongReached(mem: Memory, entry: word, level: nat)
    ensures forall x :: x in ReachEntry(mem, entry, level, false) ==> x in ReachEntry(mem, entry, level, true)
  {
    if IsPresent(entry) && level > 0 {
      TablesAmongReached(mem, FrameOf(entry), level - 1, 512);
    }
  }

  // ---- Copies ----

  /** The first `n` entries of the two tables have the same shape and flags, and the pages below hold the same words. */
  ghost predicate Copied(mem: Memory, table: nat, mem': Memory, table': nat, level: nat, n: nat)
    requires n <= 512
    decreases level, 1
  {
    forall i :: 0 <= i < n ==> CopiedEntry(mem, Content(mem, table)[i], mem', Content(mem', table')[i], level)
  }

  ghost predicate CopiedEntry(mem: Memory, entry: word, mem': Memory, entry': word, level: nat)
    decreases level, 0
  {
    && IsPresent(entry) == IsPresent(entry')
    && (IsPresent(entry) ==>
          && OtherBits(entry) == OtherBits(entry')
          && if level == 0 then Content(mem, FrameOf(entry)) == Content(mem', FrameOf(entry'))
             else Copied(mem, FrameOf(entry), mem', FrameOf(entry'), level - 1, 512))
  }

  lemma {:induction false} CopiedFrame(a: Memory, a': Memory, table: nat, b: Memory, b': Memory, table': nat,
                                       level: nat, n: nat)
    requires n <= 512 && Copied(a, table, b, table', level, n)
    requires SamePrefix(a, a', table, n) && Agree(a, a', Reach(a, table, level, n, true))
    requires SamePrefix(b, b', table', n) && Agree(b, b', Reach(b, table', level, n, true))
    ensures Copied(a', table, b', table', level, n)
    decreases level, 1
  {
    forall i | 0 <= i < n
      ensures CopiedEntry(a', Content(a', table)[i], b', Content(b', table')[i], level)
    {
      ReachContains(a, table, level, n, i, true);
      ReachContains(b, table', level, n, i, true);
      CopiedEntryFrame(a, a', Content(a, table)[i], b, b', Content(b, table')[i], level);
    }
  }

  lemma {:induction false} CopiedEntryFrame(a: Memory, a': Memory, e: word, b: Memory, b': Memory, e': word, level: nat)
    requires CopiedEntry(a, e, b, e', level)
    requires Agree(a, a', ReachEntry(a, e, level, true)) && Agree(b, b', ReachEntry(b, e', level, true))
    ensures CopiedEntry(a', e, b', e', level)
    decreases level, 0
  {
    if IsPresent(e) && level > 0 {
      CopiedFrame(a, a', FrameOf(e), b, b', FrameOf(e'), level - 1, 512);
    }
  }

  // ---- Walks ----

  /** The entries the processor reads for an address, from `level` down to the page, or None on a missing one. */
  ghost function Walk(mem: Memory, table: nat, level: nat, virtAddr: word): (r: Option<seq<word>>)
    ensures r.Some? ==> |r.value| == level + 1
    decreases level
  {
    var e := Content(mem, table)[Index(virtAddr, level)];
    if !IsPresent(e) then None
    else if level == 0 then Some([e])
    else
      match Walk(mem, FrameOf(e), level - 1, virtAddr)
      case None => None
      case Some(path) => Some([e] + path)
  }

  /** The walk is the processor's translation: from the top table down, each table is indexed by nine more bits of the
      address and names the next one by its frame number, as long as the lowest bit of the entry is set. */
  lemma WalkIsTranslation(mem: Memory, root: nat, virtAddr: word) returns (e3: word, e2: word, e1: word, e0: word)
    ensures e3 == Content(mem, root)[virtAddr / 0x80_0000_0000 % 512]
    ensures e2 == Content(mem, e3 / 0x1000 % 0x10_0000_0000)[virtAddr / 0x4000_0000 % 512]
    ensures e1 == Content(mem, e2 / 0x1000 % 0x10_0000_0000)[virtAddr / 0x20_0000 % 512]
    ensures e0 == Content(mem, e1 / 0x1000 % 0x10_0000_0000)[virtAddr / 0x1000 % 512]
    ensures Walk(mem, root, 3, virtAddr) ==
            if e3 % 2 == 1 && e2 % 2 == 1 && e1 % 2 == 1 && e0 % 2 == 1 then Some([e3, e2, e1, e0]) else None
  {
    hide *;
    IndexesAre(virtAddr);
    e3 := TranslationStep(mem, root, 3, virtAddr);
    e2 := TranslationStep(mem, FrameOf(e3), 2, virtAddr);
    e1 := TranslationStep(mem, FrameOf(e2), 1, virtAddr);
    e0 := TranslationStep(mem, FrameOf(e1), 0, virtAddr);
    assert [e3] + ([e2] + ([e1] + [e0])) == [e3, e2, e1, e0];
  }

  lemma TranslationStep(mem: Memory, table: nat, level: nat, virtAddr: word) returns (e: word)
    ensures e == Content(mem, table)[Index(virtAddr, level)] && FrameOf(e) == e / 0x1000 % 0x10_0000_0000
    ensures e % 2 == 0 ==> Walk(mem, table, level, virtAddr) == None
    ensures e % 2 == 1 && level == 0 ==> Walk(mem, table, level, virtAddr) == Some([e])
    ensures e % 2 == 1 && level > 0 ==>
              Walk(mem, table, level, virtAddr) ==
              match Walk(mem, FrameOf(e), level - 1, virtAddr)
              case None => None
              case Some(path) => Some([e] + path)
  {
    hide GetFlag, FrameOf, Index;
    e := Content(mem, table)[Index(virtAddr, level)];
    EntryMeaning(e);
  }

  /** The frame at the end of a walk. */
  ghost function PageOf(path: seq<word>): nat
    requires |path| > 0
  {
    FrameOf(path[|path| - 1])
  }

  ghost predicate SameTranslation(mem: Memory, walk: Option<seq<word>>, mem': Memory, walk': Option<seq<word>>) {
    match (walk, walk')
    case (None, None) => true
    case (Some(p), Some(p')) =>
      && |p| == |p'| > 0
      && (forall j :: 0 <= j < |p| ==> OtherBits(p[j]) == OtherBits(p'[j]))
      && Content(mem, PageOf(p)) == Content(mem', PageOf(p'))
    case _ => false
  }

  /** In a copy every address translates exactly when it does in the original, with the same bits and contents. */
  lemma {:induction false} CopiedWalk(mem: Memory, table: nat, mem': Memory, table': nat, level: nat, n: nat,
                                      virtAddr: word)
    requires n <= 512 && Copied(mem, table, mem', table', level, n) && Index(virtAddr, level) < n
    ensures SameTranslation(mem, Walk(mem, table, level, virtAddr), mem', Walk(mem', table', level, virtAddr))
    decreases level
  {
    var i := Index(virtAddr, level);
    var e, e' := Content(mem, table)[i], Content(mem', table')[i];
    assert CopiedEntry(mem, e, mem', e', level);
    if IsPresent(e) && level > 0 {
      CopiedWalk(mem, FrameOf(e), mem', FrameOf(e'), level - 1, 512, virtAddr);
    }
  }

  lemma {:induction false} WalkStaysInside(mem: Memory, table: nat, level: nat, n: nat, virtAddr: word)
    requires n <= 512 && Index(virtAddr, level) < n && Walk(mem, table, level, virtAddr).Some?
    ensures forall e :: e in Walk(mem, table, level, virtAddr).value ==> FrameOf(e) in Reach(mem, table, level, n, true)
    decreases level
  {
    var i := Index(virtAddr, level);
    var e := Content(mem, table)[i];
    ReachContains(mem, table, level, n, i, true);
    if level > 0 {
      WalkStaysInside(mem, FrameOf(e), level - 1, 512, virtAddr);
    }
  }

  /** A walk depends only on the tables on the way. */
  lemma {:induction false} WalkFrame(mem: Memory, mem': Memory, table: nat, level: nat, n: nat, virtAddr: word)
    requires n <= 512 && Index(virtAddr, level) < n
    requires SamePrefix(mem, mem', table, n) && Agree(mem, mem', Reach(mem, table, level, n, false))
    ensures Walk(mem', table, level, virtAddr) == Walk(mem, table, level, virtAddr)
    decreases level
  {
    var i := Index(virtAddr, level);
    ReachContains(mem, table, level, n, i, false);
    var e := Content(mem, table)[i];
    if IsPresent(e) && level > 0 {
      WalkFrame(mem, mem', FrameOf(e), level - 1, 512, virtAddr);
    }
  }
}

/** CreateTask's stack writer (kernel/src/Scheduler.cpp:45-126), proved against the reader of InitialStacks. */
module StackWriters {
  import opened Common
  import opened Words
  import opened InitialStacks

  /** The top page of the stack, at `pageAddr` in the kernel's view, and the falling stack pointer. The page is the
      only memory it can write; a failed range check is the answer `false`. */
  class StackWriter {
    const page: array<byte>
    const pageAddr: nat
    var stackHigherHalf: nat

    constructor (page: array<byte>, pageAddr: nat)
      requires page.Length == PAGE_SIZE && pageAddr % PAGE_SIZE == 0 && pageAddr + PAGE_SIZE < WORD
      ensures this.page == page && this.pageAddr == pageAddr && Valid() && Low() == PAGE_SIZE
    {
      this.page, this.pageAddr := page, pageAddr;
      stackHigherHalf := pageAddr + PAGE_SIZE;
    }

    ghost predicate Valid()
      reads this
    {
      && page.Length == PAGE_SIZE && pageAddr % PAGE_SIZE == 0 && pageAddr + PAGE_SIZE < WORD
      && pageAddr <= stackHigherHalf <= pageAddr + PAGE_SIZE
    }

    function Low(): (low: nat)
      requires Valid()
      reads this
      ensures low <= PAGE_SIZE
    {
      stackHigherHalf - pageAddr
    }

    /** Everything from the stack pointer up. */
    ghost function Stack(): seq<byte>
      requires Valid()
      reads this, page
    {
      page[Low()..]
    }

    /** Pushes a word. */
    method Push(value: nat) returns (ok: bool)
      requires Valid() && value < WORD
      modifies this, page
      ensures Valid() && (ok <==> old(Low()) >= 8)
      ensures ok ==> Low() == old(Low()) - 8 && Stack() == WordBytes(value) + old(Stack())
      ensures ok ==> forall i :: 0 <= i < 8 ==> page[Low() + i] == value / Pow2(8 * i) % 256
    {
      var usedStackSize := pageAddr + PAGE_SIZE - stackHigherHalf;
      if usedStackSize + 8 > PAGE_SIZE { return false; }
      stackHigherHalf := stackHigherHalf - 8;
      var bytes := WordBytes(value);
      hide WordBytes;
      var low := Low();
      var i := 0;
      while i < 8
        invariant 0 <= i <= 8 && |bytes| == 8 && stackHigherHalf == old(stackHigherHalf) - 8
        invariant page[low..low + i] == bytes[..i] && page[low + 8..] == old(page[low + 8..])
      {
        page[low + i] := bytes[i];
        i := i + 1;
      }
      assert page[low..] == page[low..low + 8] + page[low + 8..];
      forall k | 0 <= k < 8
        ensures page[low + k] == value / Pow2(8 * k) % 256
      {
        assert page[low + k] == page[low..low + 8][k];
        BytesAre(value, 8, k);
      }
      return true;
    }

    method PushChar(c: byte) returns (ok: bool)
      requires Valid()
      modifies this, page
      ensures Valid() && (ok <==> old(Low()) >= 1)
      ensures ok ==> Low() == old(Low()) - 1 && Stack() == [c] + old(Stack())
    {
      var usedStackSize := pageAddr + PAGE_SIZE - stackHigherHalf;
      if usedStackSize + 1 > PAGE_SIZE { return false; }
      stackHigherHalf := stackHigherHalf - 1;
      page[Low()] := c;
      return true;
    }

    /** Pushes the text with its NUL and answers where a program will see it. */
    method PushString(text: Text) returns (ok: bool, address: nat)
      requires Valid()
      modifies this, page
      ensures Valid() && (ok <==> old(Low()) >= |text| + 1)
      ensures ok ==>
                Low() == old(Low()) - |text| - 1 && Stack() == text + [0] + old(Stack())
                && address == UserAddress(Low())
    {
      address := 0;
      ok := PushChar(0);
      if !ok { return; }
      var i := |text|;
      while i > 0
        invariant 0 <= i <= |text| && Valid() && ok && Low() == old(Low()) - 1 - (|text| - i)
        invariant Stack() == text[i..] + [0] + old(Stack())
      {
        i := i - 1;
        ok := PushChar(text[i]);
        if !ok { return; }
        assert text[i..] == [text[i]] + text[i + 1..];
      }
      assert text[0..] == text;
      address := USER_STACK_BASE - (pageAddr + PAGE_SIZE - stackHigherHalf);
    }

    /** The loops over environment and arguments. */
    method PushStrings(texts: seq<Text>) returns (ok: bool, addresses: seq<nat>)
      requires Valid()
      modifies this, page
      ensures Valid() && (ok <==> old(Low()) >= TextsSize(texts))
      ensures ok ==> Low() == old(Low()) - TextsSize(texts) && page[old(Low())..] == old(Stack())
      ensures ok ==> |addresses| == |texts| && AllHold(page[..], Low(), addresses, texts)
    {
      hide AllHold, Holds, TextsSize;
      addresses := [];
      ok := true;
      ghost var start := Low();
      NoTexts(page[..], start, texts);
      var i := 0;
      while i < |texts|
        invariant 0 <= i <= |texts| && Valid() && ok && |addresses| == i
        invariant start == old(Low()) == Low() + TextsSize(texts[..i]) && page[start..] == old(Stack())
        invariant AllHold(page[..], Low(), addresses, texts[..i])
      {
        ghost var before, low := page[..], Low();
        TextsGrow(texts, i);
        var address: nat;
        ok, address := PushString(texts[i]);
        if !ok { return; }
        assert page[..][low..] == before[low..] by { assert Stack()[|texts[i]| + 1..] == before[low..]; }
        assert page[start..] == page[..][low..][start - low..];
        OneMoreHolds(before, page[..], low, Low(), addresses, texts, i);
        addresses := addresses + [address];
        i := i + 1;
      }
      assert texts[..i] == texts;
    }

    /** The loops over the collected pointers, from the last one down. */
    method PushPointers(pointers: seq<nat>) returns (ok: bool)
      requires Valid() && forall i :: 0 <= i < |pointers| ==> pointers[i] < WORD
      modifies this, page
      ensures Valid() && (ok <==> old(Low()) >= 8 * |pointers|)
      ensures ok ==> Low() == old(Low()) - 8 * |pointers| && Stack() == PointerBytes(pointers) + old(Stack())
    {
      hide WordBytes;
      var i := |pointers|;
      ok := true;
      while i > 0
        invariant 0 <= i <= |pointers| && Valid() && ok && Low() == old(Low()) - 8 * (|pointers| - i)
        invariant Stack() == PointerBytes(pointers[i..]) + old(Stack())
      {
        i := i - 1;
        ok := Push(pointers[i]);
        if !ok { return; }
        assert pointers[i..][0] == pointers[i] && pointers[i..][1..] == pointers[i + 1..];
      }
      assert pointers[0..] == pointers;
    }

    method PushAuxiliary(a: AuxiliaryVector) returns (ok: bool)
      requires Valid() && AuxiliaryValid(Some(a))
      modifies this, page
      ensures Valid() && (ok <==> old(Low()) >= 80)
      ensures ok ==> Low() == old(Low()) - 80 && Stack() == AuxiliaryBytes(Some(a)) + old(Stack())
    {
      hide AuxiliaryBytes, WordBytes;
      ghost var stack := Stack();
      ok := PushPair(0, 0);
      if !ok { return; }
      ok := PushPair(3, a.tableAddr);
      if !ok { return; }
      ok := PushPair(4, a.entrySize);
      if !ok { return; }
      ok := PushPair(5, a.entryCount);
      if !ok { return; }
      ok := PushPair(9, a.entry);
      if !ok { return; }
      FivePairs(a, stack);
    }

    /** A value and, below it, its type. */
    method PushPair(kind: nat, value: nat) returns (ok: bool)
      requires Valid() && kind < WORD && value < WORD
      modifies this, page
      ensures Valid() && (ok <==> old(Low()) >= 16)
      ensures ok ==> Low() == old(Low()) - 16 && Stack() == WordBytes(kind) + WordBytes(value) + old(Stack())
    {
      hide WordBytes;
      ok := Push(value);
      if !ok { return; }
      ok := Push(kind);
    }

    /** The mask step. It needs no range check: the page starts on a multiple of 16. */
    method Align()
      requires Valid()
      modifies this`stackHigherHalf
      ensures Valid() && Low() % 16 == 0 && Low() <= old(Low()) < Low() + 16
    {
      hide And, Not, Pow2;
      MaskAligns(stackHigherHalf);
      PageAlignment(pageAddr, stackHigherHalf);
      stackHigherHalf := And(stackHigherHalf, Not(15, 64));
    }

    /** The whole stack. It is written exactly when it fits in the page; a program started with the returned stack
        pointer reads back its arguments, environment and auxiliary vector; and the pointer is a multiple of 16
        exactly when the number of arguments plus environment strings is odd. */
    method WriteStack(arguments: seq<Text>, environment: seq<Text>, auxiliary: Option<AuxiliaryVector>)
      returns (rsp: Option<nat>)
      requires Valid() && Low() == PAGE_SIZE && AuxiliaryValid(auxiliary)
      modifies this, page
      ensures Valid() && (rsp.Some? <==> StackSize(arguments, environment, auxiliary) <= PAGE_SIZE)
      ensures rsp.Some? ==>
                && rsp.value == USER_STACK_BASE - StackSize(arguments, environment, auxiliary)
                && (rsp.value % 16 == 0 <==> (|arguments| + |environment|) % 2 == 1)
                && ReadStack(page[..], rsp.value, auxiliary.Some?) ==
                   Some(Startup(|arguments|, Visible(arguments), Visible(environment),
                                match auxiliary
                                case None => []
                                case Some(a) =>
                                  [(9, a.entry), (5, a.entryCount), (4, a.entrySize), (3, a.tableAddr)]))
    {
      hide WordBytes, PointerBytes, AuxiliaryBytes, AllHold, TextsSize, ReadStack, Visible, AuxiliaryValid, StackSize,
           LaidOut;
      StringsInSize(arguments, environment, auxiliary);
      var ok, envp, argv := false, [], [];
      ok, envp := PushStrings(environment);
      if !ok { return None; }
      ghost var page1, low1 := page[..], Low();
      ok, argv := PushStrings(arguments);
      if !ok { return None; }
      HoldsAbove(page1, page[..], low1, Low(), envp, environment);
      ghost var page2, low2 := page[..], Low();
      Align();
      ghost var low3, rest := Low(), Stack();
      AddressesAreWords(page2, low2, argv, arguments);
      AddressesAreWords(page2, low2, envp, environment);
      StackArithmetic(low2, Low(), arguments, environment, auxiliary);
      ok := PushWords(argv, envp, |arguments|, auxiliary);
      if !ok { return None; }
      LaidOutTail(page2, page[..], low3, Low(), low2, |arguments|, argv, envp, auxiliary);
      HoldsAbove(page2, page[..], low2, Low(), argv, arguments);
      HoldsAbove(page2, page[..], low2, Low(), envp, environment);
      LayoutRoundTrip(page[..], Low(), arguments, environment, auxiliary, argv, envp, rest);
      rsp := Some(USER_STACK_BASE - (pageAddr + PAGE_SIZE - stackHigherHalf));
    }

    /** Everything pushed after the strings. */
    method PushWords(argv: seq<nat>, envp: seq<nat>, argc: nat, auxiliary: Option<AuxiliaryVector>) returns (ok: bool)
      requires Valid() && AuxiliaryValid(auxiliary) && argc == |argv|
      requires (forall i :: 0 <= i < |argv| ==> argv[i] < WORD) && forall i :: 0 <= i < |envp| ==> envp[i] < WORD
      modifies this, page
      ensures var size := 8 * ((if auxiliary.Some? then 10 else 0) + |envp| + |argv| + 3);
              Valid() && (ok <==> old(Low()) >= size) && (ok ==> Low() == old(Low()) - size)
      ensures ok ==> LaidOut(Stack(), argc, argv, envp, auxiliary, old(Stack()))
    {
      hide WordBytes, PointerBytes, AuxiliaryBytes, AuxiliaryValid, LaidOut;
      ghost var rest := Stack();
      NoAuxiliary(rest);
      ok := true;
      if auxiliary.Some? { ok := PushAuxiliary(auxiliary.value); }
      if !ok { return; }
      ghost var afterEnvironment := Stack();
      ok := PushList(envp);
      if !ok { return; }
      ghost var afterArguments := Stack();
      ok := PushList(argv);
      if !ok { return; }
      ghost var afterCount := Stack();
      ok := Push(argc);
      if !ok { return; }
      LaidOutBuilt(Stack(), argc, argv, envp, auxiliary, afterCount, afterArguments, afterEnvironment, rest);
    }

    /** A null and, below it, the pointers. */
    method PushList(pointers: seq<nat>) returns (ok: bool)
      requires Valid() && forall i :: 0 <= i < |pointers| ==> pointers[i] < WORD
      modifies this, page
      ensures Valid() && (ok <==> old(Low()) >= 8 * |pointers| + 8)
      ensures ok ==>
                Low() == old(Low()) - 8 * |pointers| - 8
                && Stack() == PointerBytes(pointers) + (WordBytes(0) + old(Stack()))
    {
      hide WordBytes, PointerBytes;
      ok := Push(0);
      if !ok { return; }
      ok := PushPointers(pointers);
    }
  }

  function WordsSize(arguments: seq<Text>, environment: seq<Text>, auxiliary: Option<AuxiliaryVector>): nat {
    8 * ((if auxiliary.Some? then 10 else 0) + |environment| + |arguments| + 3)
  }

  lemma StringsInSize(arguments: seq<Text>, environment: seq<Text>, auxiliary: Option<AuxiliaryVector>)
    ensures TextsSize(environment) + TextsSize(arguments) <= StackSize(arguments, environment, auxiliary)
  {
  }

  lemma StackArithmetic(unaligned: nat, low: nat, arguments: seq<Text>, environment: seq<Text>,
                        auxiliary: Option<AuxiliaryVector>)
    requires unaligned + TextsSize(environment) + TextsSize(arguments) == PAGE_SIZE
    requires low % 16 == 0 && low <= unaligned < low + 16
    ensures StackSize(arguments, environment, auxiliary) ==
            PAGE_SIZE - low + WordsSize(arguments, environment, auxiliary)
    ensures WordsSize(arguments, environment, auxiliary) <= low ==>
              ((USER_STACK_BASE - PAGE_SIZE + (low - WordsSize(arguments, environment, auxiliary))) % 16 == 0 <==>
               (|arguments| + |environment|) % 2 == 1)
  {
    hide TextsSize;
    RoundedUp(TextsSize(environment) + TextsSize(arguments), low / 16);
    EvenWords(low / 16, (if auxiliary.Some? then 5 else 0), |environment| + |arguments|);
  }

  lemma RoundedUp(strings: nat, q: nat)
    requires 16 * q <= PAGE_SIZE - strings < 16 * q + 16
    ensures (strings + 15) / 16 * 16 == PAGE_SIZE - 16 * q
  {
    assert (strings + 15) / 16 == 256 - q;
  }

  lemma EvenWords(q: nat, pairs: nat, n: nat)
    ensures (USER_STACK_BASE - PAGE_SIZE + 16 * q - 8 * (2 * pairs + n + 3)) % 16 == 0 <==> n % 2 == 1
  {
    var half := n / 2;
    var all := (USER_STACK_BASE - PAGE_SIZE) / 16 + q - pairs - half - 1;
    assert n == 2 * half + n % 2;
    assert USER_STACK_BASE - PAGE_SIZE + 16 * q - 8 * (2 * pairs + n + 3) == 16 * all - 8 * (n % 2 + 1);
  }

  lemma PageAlignment(pageAddr: nat, address: nat)
    requires pageAddr % PAGE_SIZE == 0 && pageAddr <= address
    ensures pageAddr <= address - address % 16 && (address - address % 16 - pageAddr) % 16 == 0
  {
  }

  lemma NoAuxiliary(rest: seq<byte>)
    ensures AuxiliaryBytes(None) + rest == rest
  {
  }

  lemma LaidOutBuilt(m: seq<byte>, argc: nat, argv: seq<nat>, envp: seq<nat>, auxiliary: Option<AuxiliaryVector>,
                     afterCount: seq<byte>, afterArguments: seq<byte>, afterEnvironment: seq<byte>, rest: seq<byte>)
    requires afterEnvironment == AuxiliaryBytes(auxiliary) + rest
    requires afterArguments == PointerBytes(envp) + (WordBytes(0) + afterEnvironment)
    requires afterCount == PointerBytes(argv) + (WordBytes(0) + afterArguments)
    requires m == WordBytes(argc) + afterCount
    ensures LaidOut(m, argc, argv, envp, auxiliary, rest)
  {
  }

  /** The new words leave everything above them alone. */
  lemma LaidOutTail(before: seq<byte>, after: seq<byte>, start: nat, low': nat, low: nat,
                    argc: nat, argv: seq<nat>, envp: seq<nat>, auxiliary: Option<AuxiliaryVector>)
    requires |before| == |after| == PAGE_SIZE && low' <= start <= low <= PAGE_SIZE
    requires LaidOut(after[low'..], argc, argv, envp, auxiliary, before[start..])
    ensures after[low..] == before[low..]
  {
    hide WordBytes, PointerBytes, AuxiliaryBytes;
    var words :=
      WordBytes(argc)
      + (PointerBytes(argv) + (WordBytes(0) + (PointerBytes(envp) + (WordBytes(0) + AuxiliaryBytes(auxiliary)))));
    assert after[low'..] == words + before[start..];
    hide LaidOut;
    assert after[low..] == after[low'..][low - low'..] && before[low..] == before[start..][low - start..];
  }

  lemma NoTexts(page: seq<byte>, low: nat, texts: seq<Text>)
    ensures TextsSize(texts[..0]) == 0 && AllHold(page, low, [], texts[..0])
  {
  }

  lemma {:induction false} TextsAppended(texts: seq<Text>, text: Text)
    ensures TextsSize(texts + [text]) == TextsSize(texts) + |text| + 1
  {
    if texts != [] {
      assert (texts + [text])[1..] == texts[1..] + [text];
      TextsAppended(texts[1..], text);
    }
  }

  lemma {:induction false} TextsFrom(texts: seq<Text>, i: nat)
    requires i <= |texts|
    ensures TextsSize(texts[..i]) <= TextsSize(texts)
  {
    if i > 0 {
      assert texts[..i][1..] == texts[1..][..i - 1];
      TextsFrom(texts[1..], i - 1);
    }
  }

  lemma TextsGrow(texts: seq<Text>, i: nat)
    requires i < |texts|
    ensures TextsSize(texts[..i + 1]) == TextsSize(texts[..i]) + |texts[i]| + 1 <= TextsSize(texts)
  {
    TextsAppended(texts[..i], texts[i]);
    TextsFrom(texts, i + 1);
    assert texts[..i + 1] == texts[..i] + [texts[i]];
  }

  lemma OneMoreHolds(page: seq<byte>, page': seq<byte>, low: nat, low': nat, addresses: seq<nat>, texts: seq<Text>,
                     i: nat)
    requires |page| == |page'| == PAGE_SIZE && low' < low <= PAGE_SIZE && page[low..] == page'[low..]
    requires i < |texts| && AllHold(page, low, addresses, texts[..i])
    requires page'[low'..] == texts[i] + [0] + page[low..]
    ensures AllHold(page', low', addresses + [UserAddress(low')], texts[..i + 1])
  {
    HoldsAbove(page, page', low, low', addresses, texts[..i]);
    TextRoundTrip(texts[i], page[low..]);
    assert Holds(page', low', UserAddress(low'), texts[i]);
    hide Holds;
    assert texts[..i + 1] == texts[..i] + [texts[i]];
  }

  lemma FivePairs(a: AuxiliaryVector, stack: seq<byte>)
    ensures WordBytes(9) + WordBytes(a.entry)
            + (WordBytes(5) + WordBytes(a.entryCount) + (WordBytes(4) + WordBytes(a.entrySize)
            + (WordBytes(3) + WordBytes(a.tableAddr) + (WordBytes(0) + WordBytes(0) + stack)))) ==
            AuxiliaryBytes(Some(a)) + stack
  {
    hide WordBytes, PairBytes;
    var p: seq<(nat, nat)> := AuxiliaryPairs(Some(a)) + [(0, 0)];
    PairStep(p, stack);
    PairStep(p[1..], stack);
    PairStep(p[2..], stack);
    PairStep(p[3..], stack);
    PairStep(p[4..], stack);
    assert p[1..][1..] == p[2..] && p[2..][1..] == p[3..] && p[3..][1..] == p[4..] && |p| == 5;
    NoPairs(stack);
  }

  lemma PairStep(pairs: seq<(nat, nat)>, rest: seq<byte>)
    requires pairs != []
    ensures PairBytes(pairs) + rest == WordBytes(pairs[0].0) + WordBytes(pairs[0].1) + (PairBytes(pairs[1..]) + rest)
  {
  }

  lemma NoPairs(rest: seq<byte>)
    ensures PairBytes([]) + rest == rest
  {
  }
}

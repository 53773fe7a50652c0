/** The initial user stack that CreateTask writes (kernel/src/Scheduler.cpp:30-127) and the reader a program starts with
    (section 3.4.1, "Initial Stack and Register State", of the System V AMD64 psABI). */
module InitialStacks {
  import opened Common
  import opened Words
  import opened KernelMath
  import Directories

  const PAGE_SIZE: nat := 0x1000
  const USER_STACK_BASE: nat := 0x8000_0000_0000 - 0x1000

  type Text = seq<byte>

  datatype AuxiliaryVector = AuxiliaryVector(entry: nat, tableAddr: nat, entrySize: nat, entryCount: nat)

  ghost predicate AuxiliaryValid(auxiliary: Option<AuxiliaryVector>) {
    auxiliary.Some? ==>
      auxiliary.value.entry < WORD && auxiliary.value.tableAddr < WORD && auxiliary.value.entrySize < WORD
      && auxiliary.value.entryCount < WORD
  }

  // ---- Little-endian words ----

  function Bytes(v: nat, n: nat): (r: seq<byte>)
    ensures |r| == n
  {
    if n == 0 then [] else [v % 256] + Bytes(v / 256, n - 1)
  }

  function Value(s: seq<byte>): nat {
    if s == [] then 0 else s[0] + 256 * Value(s[1..])
  }

  lemma {:induction false} ValueOfBytes(v: nat, n: nat)
    requires v < Pow2(8 * n)
    ensures Value(Bytes(v, n)) == v
  {
    if n > 0 {
      Pow2Add(8, 8 * n - 8);
      EightBits();
      hide Pow2;
      assert Bytes(v, n)[1..] == Bytes(v / 256, n - 1);
      ValueOfBytes(v / 256, n - 1);
    }
  }

  /** Byte `i` is digit `i` to the base 256. */
  lemma {:induction false} BytesAre(v: nat, n: nat, i: nat)
    requires i < n
    ensures Bytes(v, n)[i] == v / Pow2(8 * i) % 256
  {
    if i > 0 {
      BytesAre(v / 256, n - 1, i - 1);
      Pow2Add(8, 8 * i - 8);
      EightBits();
      hide Pow2;
      DividedTwice(v, 256, Pow2(8 * i - 8));
    }
  }

  lemma EightBits()
    ensures Pow2(8) == 256
  {
  }

  function WordBytes(v: nat): (r: seq<byte>)
    ensures |r| == 8
  {
    Bytes(v, 8)
  }

  function WordAt(m: seq<byte>): nat
    requires |m| >= 8
  {
    Value(m[..8])
  }

  lemma WordRoundTrip(v: nat, rest: seq<byte>)
    requires v < WORD
    ensures WordAt(WordBytes(v) + rest) == v && (WordBytes(v) + rest)[8..] == rest
  {
    WordPowers();
    ValueOfBytes(v, 8);
    assert (WordBytes(v) + rest)[..8] == WordBytes(v);
  }

  // ---- The reader ----

  datatype Startup = Startup(argc: nat, arguments: seq<Text>, environment: seq<Text>, auxiliary: seq<(nat, nat)>)

  datatype Pointers = NoPointers | Pointers(values: seq<nat>, rest: seq<byte>)

  predicate InPage(address: nat) {
    USER_STACK_BASE - PAGE_SIZE <= address < USER_STACK_BASE
  }

  function Offset(address: nat): (o: nat)
    requires InPage(address)
    ensures o < PAGE_SIZE
  {
    address - (USER_STACK_BASE - PAGE_SIZE)
  }

  /** Pointers up to a null one. */
  function ReadPointers(m: seq<byte>): Pointers {
    if |m| < 8 then NoPointers
    else if WordAt(m) == 0 then Pointers([], m[8..])
    else
      match ReadPointers(m[8..])
      case NoPointers => NoPointers
      case Pointers(values, rest) => Pointers([WordAt(m)] + values, rest)
  }

  /** Pairs of a type and a value up to type 0. */
  function ReadAuxiliary(m: seq<byte>): Option<seq<(nat, nat)>> {
    if |m| < 16 then None
    else if WordAt(m) == 0 then Some([])
    else
      match ReadAuxiliary(m[16..])
      case None => None
      case Some(rest) => Some([(WordAt(m), WordAt(m[8..]))] + rest)
  }

  predicate HasString(page: seq<byte>, address: nat)
    requires |page| == PAGE_SIZE
  {
    InPage(address) && 0 in page[Offset(address)..]
  }

  function ReadStrings(page: seq<byte>, addresses: seq<nat>): Option<seq<Text>>
    requires |page| == PAGE_SIZE
  {
    if addresses == [] then Some([])
    else if !HasString(page, addresses[0]) then None
    else
      match ReadStrings(page, addresses[1..])
      case None => None
      case Some(rest) => Some([Directories.UpToNul(page[Offset(addresses[0])..])] + rest)
  }

  /** What a program that starts with this stack pointer finds in its top stack page. */
  function ReadStack(page: seq<byte>, rsp: nat, hasAuxiliary: bool): Option<Startup>
    requires |page| == PAGE_SIZE
  {
    if !InPage(rsp) || Offset(rsp) + 8 > PAGE_SIZE then None
    else
      var m := page[Offset(rsp)..];
      var arguments := ReadPointers(m[8..]);
      if arguments.NoPointers? then None
      else
        var environment := ReadPointers(arguments.rest);
        if environment.NoPointers? then None
        else
          var auxiliary := if hasAuxiliary then ReadAuxiliary(environment.rest) else Some([]);
          var argv, envp := ReadStrings(page, arguments.values), ReadStrings(page, environment.values);
          if auxiliary.None? || argv.None? || envp.None? then None
          else Some(Startup(WordAt(m), argv.value, envp.value, auxiliary.value))
  }

  // ---- What the writer lays out ----

  function PointerBytes(pointers: seq<nat>): (r: seq<byte>)
    ensures |r| == 8 * |pointers|
  {
    if pointers == [] then [] else WordBytes(pointers[0]) + PointerBytes(pointers[1..])
  }

  function AuxiliaryPairs(auxiliary: Option<AuxiliaryVector>): seq<(nat, nat)> {
    match auxiliary
    case None => []
    case Some(a) => [(9, a.entry), (5, a.entryCount), (4, a.entrySize), (3, a.tableAddr)]
  }

  function PairBytes(pairs: seq<(nat, nat)>): (r: seq<byte>)
    ensures |r| == 16 * |pairs|
  {
    if pairs == [] then [] else WordBytes(pairs[0].0) + WordBytes(pairs[0].1) + PairBytes(pairs[1..])
  }

  function AuxiliaryBytes(auxiliary: Option<AuxiliaryVector>): seq<byte> {
    match auxiliary
    case None => []
    case Some(a) => PairBytes(AuxiliaryPairs(auxiliary) + [(0, 0)])
  }

  function TextsSize(texts: seq<Text>): nat {
    if texts == [] then 0 else |texts[0]| + 1 + TextsSize(texts[1..])
  }

  /** All strings, rounded up to 16 bytes, then the words. */
  function StackSize(arguments: seq<Text>, environment: seq<Text>, auxiliary: Option<AuxiliaryVector>): nat {
    var strings := TextsSize(environment) + TextsSize(arguments);
    (strings + 15) / 16 * 16 + 8 * ((if auxiliary.Some? then 10 else 0) + |environment| + |arguments| + 3)
  }

  /** The strings a reader of NUL-terminated text gets. */
  function Visible(texts: seq<Text>): seq<Text> {
    seq(|texts|, i requires 0 <= i < |texts| => Directories.UpToNul(texts[i]))
  }

  /** The address is at or above `low` in the page and the text with its NUL stands there. */
  ghost predicate Holds(page: seq<byte>, low: nat, address: nat, text: Text) {
    && |page| == PAGE_SIZE && HasString(page, address) && Offset(address) >= low
    && Directories.UpToNul(page[Offset(address)..]) == Directories.UpToNul(text)
  }

  ghost predicate AllHold(page: seq<byte>, low: nat, addresses: seq<nat>, texts: seq<Text>) {
    |addresses| == |texts| && forall i :: 0 <= i < |texts| ==> Holds(page, low, addresses[i], texts[i])
  }

  // ---- Round trips ----

  lemma {:induction false} PointersRoundTrip(pointers: seq<nat>, rest: seq<byte>)
    requires forall i :: 0 <= i < |pointers| ==> 0 < pointers[i] < WORD
    ensures ReadPointers(PointerBytes(pointers) + (WordBytes(0) + rest)) == Pointers(pointers, rest)
  {
    hide WordBytes, WordAt;
    var tail := WordBytes(0) + rest;
    if pointers == [] {
      WordRoundTrip(0, rest);
      assert PointerBytes(pointers) + tail == tail;
    } else {
      var more := PointerBytes(pointers[1..]) + tail;
      assert PointerBytes(pointers) + tail == WordBytes(pointers[0]) + more;
      WordRoundTrip(pointers[0], more);
      PointersRoundTrip(pointers[1..], rest);
    }
  }

  lemma {:induction false} PairsRoundTrip(pairs: seq<(nat, nat)>, rest: seq<byte>)
    requires forall i :: 0 <= i < |pairs| ==> 0 < pairs[i].0 < WORD && pairs[i].1 < WORD
    ensures ReadAuxiliary(PairBytes(pairs + [(0, 0)]) + rest) == Some(pairs)
  {
    hide WordBytes, WordAt;
    var all := pairs + [(0, 0)];
    var more := PairBytes(all[1..]) + rest;
    assert PairBytes(all) + rest == WordBytes(all[0].0) + (WordBytes(all[0].1) + more);
    WordRoundTrip(all[0].0, WordBytes(all[0].1) + more);
    WordRoundTrip(all[0].1, more);
    if pairs != [] {
      assert all[1..] == pairs[1..] + [(0, 0)];
      assert (PairBytes(all) + rest)[16..] == more;
      PairsRoundTrip(pairs[1..], rest);
      assert pairs == [(pairs[0].0, pairs[0].1)] + pairs[1..];
    }
  }

  lemma {:induction false} TextRoundTrip(text: Text, rest: seq<byte>)
    ensures Directories.UpToNul(text + [0] + rest) == Directories.UpToNul(text) && 0 in text + [0] + rest
  {
    var all := text + [0] + rest;
    assert all[|text|] == 0;
    if text != [] && text[0] != 0 {
      assert all[1..] == text[1..] + [0] + rest;
      TextRoundTrip(text[1..], rest);
    }
  }

  lemma {:induction false} StringsRoundTrip(page: seq<byte>, low: nat, addresses: seq<nat>, texts: seq<Text>)
    requires |page| == PAGE_SIZE && AllHold(page, low, addresses, texts)
    ensures ReadStrings(page, addresses) == Some(Visible(texts))
  {
    hide HasString;
    if texts != [] {
      assert Holds(page, low, addresses[0], texts[0]);
      StringsRoundTrip(page, low, addresses[1..], texts[1..]);
      assert Visible(texts) == [Directories.UpToNul(texts[0])] + Visible(texts[1..]);
    } else {
      assert Visible(texts) == [];
    }
  }

  /** Texts without NUL come back whole. */
  lemma VisibleWhole(texts: seq<Text>)
    requires forall i :: 0 <= i < |texts| ==> 0 !in texts[i]
    ensures Visible(texts) == texts
  {
    forall i | 0 <= i < |texts|
      ensures Visible(texts)[i] == texts[i]
    {
      Directories.UpToNulWhole(texts[i]);
    }
  }

  lemma AddressesAreWords(page: seq<byte>, low: nat, addresses: seq<nat>, texts: seq<Text>)
    requires AllHold(page, low, addresses, texts)
    ensures forall i :: 0 <= i < |addresses| ==> 0 < addresses[i] < WORD
  {
    forall i | 0 <= i < |addresses|
      ensures 0 < addresses[i] < WORD
    {
      assert Holds(page, low, addresses[i], texts[i]);
    }
  }

  ghost predicate LaidOut(m: seq<byte>, argc: nat, argv: seq<nat>, envp: seq<nat>, auxiliary: Option<AuxiliaryVector>,
                          rest: seq<byte>) {
    m ==
    WordBytes(argc)
    + (PointerBytes(argv) + (WordBytes(0) + (PointerBytes(envp) + (WordBytes(0) + (AuxiliaryBytes(auxiliary) + rest)))))
  }

  /** The reader recovers everything from a stack laid out this way. */
  lemma LayoutRoundTrip(page: seq<byte>, low: nat, arguments: seq<Text>, environment: seq<Text>,
                        auxiliary: Option<AuxiliaryVector>,
                        argv: seq<nat>, envp: seq<nat>, rest: seq<byte>)
    requires |page| == PAGE_SIZE && low < PAGE_SIZE && AuxiliaryValid(auxiliary) && |arguments| < WORD
    requires AllHold(page, low, argv, arguments) && AllHold(page, low, envp, environment)
    requires LaidOut(page[low..], |arguments|, argv, envp, auxiliary, rest)
    ensures ReadStack(page, UserAddress(low), auxiliary.Some?) ==
            Some(Startup(|arguments|, Visible(arguments), Visible(environment), AuxiliaryPairs(auxiliary)))
  {
    hide WordBytes, WordAt, PointerBytes, AuxiliaryBytes, ReadPointers, ReadAuxiliary, AllHold;
    var afterEnvironment := AuxiliaryBytes(auxiliary) + rest;
    var afterArguments := PointerBytes(envp) + (WordBytes(0) + afterEnvironment);
    AddressesAreWords(page, low, argv, arguments);
    AddressesAreWords(page, low, envp, environment);
    WordRoundTrip(|arguments|, PointerBytes(argv) + (WordBytes(0) + afterArguments));
    PointersRoundTrip(argv, afterArguments);
    PointersRoundTrip(envp, afterEnvironment);
    AuxiliaryRoundTrip(auxiliary, rest);
    StringsRoundTrip(page, low, argv, arguments);
    StringsRoundTrip(page, low, envp, environment);
  }

  lemma AuxiliaryRoundTrip(auxiliary: Option<AuxiliaryVector>, rest: seq<byte>)
    requires AuxiliaryValid(auxiliary)
    ensures auxiliary.Some? ==> ReadAuxiliary(AuxiliaryBytes(auxiliary) + rest) == Some(AuxiliaryPairs(auxiliary))
  {
    hide PairBytes, ReadAuxiliary;
    if auxiliary.Some? { PairsRoundTrip(AuxiliaryPairs(auxiliary), rest); }
  }

  /** Writes below `low` leave the strings above it alone. */
  lemma HoldsAbove(page: seq<byte>, page': seq<byte>, low: nat, low': nat, addresses: seq<nat>, texts: seq<Text>)
    requires |page| == |page'| == PAGE_SIZE && low' <= low <= PAGE_SIZE && page[low..] == page'[low..]
    requires AllHold(page, low, addresses, texts)
    ensures AllHold(page', low', addresses, texts)
  {
    forall i | 0 <= i < |texts|
      ensures Holds(page', low', addresses[i], texts[i])
    {
      assert Holds(page, low, addresses[i], texts[i]);
      var o := Offset(addresses[i]);
      assert page[o..] == page[low..][o - low..] && page'[o..] == page'[low..][o - low..];
    }
  }

  function UserAddress(low: nat): (address: nat)
    requires low <= PAGE_SIZE
    ensures low < PAGE_SIZE ==> InPage(address) && Offset(address) == low
  {
    USER_STACK_BASE - (PAGE_SIZE - low)
  }

  /** Clearing the low four bits of an address. */
  lemma MaskAligns(address: nat)
    requires address < WORD
    ensures 15 < Pow2(64) && And(address, Not(15, 64)) == address - address % 16
  {
    WordPowers();
    hide And, Pow2;
    Pow2Add(4, 60);
    var high := Ones(60);
    ModSplit(address, 4);
    assert Not(15, 64) == 0 + high * Pow2(4);
    AndSplit(address % 16, address / 16, 0, high, 4);
    AndZero(address % 16);
    AndOnes(address / 16, 60);
  }
}

/** Page-table entries and virtual addresses of 4-level paging (kernel/src/Memory/PagingManager.cpp and
    section 4.5 of the Intel SDM Volume 3A): the 64-bit mask arithmetic. */
module PageEntries {
  import opened Words

  type word = w: nat | w < WORD

  const ADDRESS_MASK: word := 0x0000_ffff_ffff_f000
  const KEEP_MASK: word := 0xffff_0000_0000_0fff
  const FRAMES_LIMIT: nat := 0x10_0000_0000

  /** Bit positions of the flags the kernel sets. */
  const PRESENT: nat := 0
  const ALLOW_WRITE: nat := 1
  const USER_ALLOWED: nat := 2

  lemma WordWidth()
    ensures Pow2(12) == 0x1000 && Pow2(36) == FRAMES_LIMIT && Pow2(16) == 0x1_0000
    ensures Pow2(64) == WORD
  {
    hide Pow2;
    Pow2OfFour();
    var four := 4;
    Pow2Add(four, four);
    Pow2Add(2 * four, 2 * four);
    Pow2Add(2 * four, four);
    Pow2Add(4 * four, 4 * four);
    Pow2Add(8 * four, four);
    Pow2Add(8 * four, 8 * four);
  }

  lemma Pow2OfFour()
    ensures Pow2(4) == 16
  {
  }

  function SetFlag(value: word, flag: nat): word
    requires flag < 12
  {
    WordWidth();
    Pow2Grows(flag, 12);
    OrBelow(value, Pow2(flag), 64);
    Or(value, Pow2(flag))
  }

  predicate GetFlag(value: word, flag: nat) {
    And(value, Pow2(flag)) != 0
  }

  function GetPhysicalAddress(value: word): word {
    AndBelow(value, ADDRESS_MASK);
    And(value, ADDRESS_MASK)
  }

  /** Everything in an entry but the address field. */
  function OtherBits(value: word): word {
    AndBelow(value, KEEP_MASK);
    And(value, KEEP_MASK)
  }

  function SetPhysicalAddress(value: word, physAddr: word): word {
    WordWidth();
    OrBelow(OtherBits(value), GetPhysicalAddress(physAddr), 64);
    Or(OtherBits(value), GetPhysicalAddress(physAddr))
  }

  /** PopulatePagingStructureEntry. */
  function Populated(entry: word, physAddr: word): word {
    SetFlag(SetFlag(SetFlag(SetPhysicalAddress(entry, physAddr), PRESENT), ALLOW_WRITE), USER_ALLOWED)
  }

  /** The frame an entry points at. */
  function FrameOf(entry: word): nat {
    GetPhysicalAddress(entry) / 0x1000
  }

  /** The physical address of a frame, as the allocator returns it. */
  function AddressOf(frame: nat): word
    requires frame < FRAMES_LIMIT
  {
    frame * 0x1000
  }

  // ---- What the masks mean: a word is its 12 low bits, a 36-bit frame number and 16 high bits ----

  function Fields(low: nat, frame: nat, high: nat): word
    requires low < 0x1000 && frame < FRAMES_LIMIT && high < 0x1_0000
  {
    low + (frame + high * 0x10_0000_0000) * 0x1000
  }

  lemma AnyWordHasFields(w: word) returns (low: nat, frame: nat, high: nat)
    ensures low < 0x1000 && frame < FRAMES_LIMIT && high < 0x1_0000 && w == Fields(low, frame, high)
  {
    low, frame, high := w % 0x1000, w / 0x1000 % 0x10_0000_0000, w / 0x1000 / 0x10_0000_0000;
  }

  lemma AndFields(low: nat, frame: nat, high: nat, low': nat, frame': nat, high': nat)
    requires low < 0x1000 && frame < FRAMES_LIMIT && high < 0x1_0000
    requires low' < 0x1000 && frame' < FRAMES_LIMIT && high' < 0x1_0000
    ensures And(Fields(low, frame, high), Fields(low', frame', high'))
         == And(low, low') + (And(frame, frame') + And(high, high') * 0x10_0000_0000) * 0x1000
  {
    hide And, Pow2;
    WordWidth();
    AndSplit(low, frame + high * Pow2(36), low', frame' + high' * Pow2(36), 12);
    AndSplit(frame, high, frame', high', 36);
  }

  lemma OrFields(low: nat, frame: nat, high: nat, low': nat, frame': nat, high': nat)
    requires low < 0x1000 && frame < FRAMES_LIMIT && high < 0x1_0000
    requires low' < 0x1000 && frame' < FRAMES_LIMIT && high' < 0x1_0000
    ensures Or(Fields(low, frame, high), Fields(low', frame', high'))
         == Or(low, low') + (Or(frame, frame') + Or(high, high') * 0x10_0000_0000) * 0x1000
  {
    hide Or, Pow2;
    WordWidth();
    OrSplit(low, frame + high * Pow2(36), low', frame' + high' * Pow2(36), 12);
    OrSplit(frame, high, frame', high', 36);
  }

  /** The address mask selects the frame number, the other mask selects the rest. */
  lemma MaskFields(low: nat, frame: nat, high: nat)
    requires low < 0x1000 && frame < FRAMES_LIMIT && high < 0x1_0000
    ensures GetPhysicalAddress(Fields(low, frame, high)) == Fields(0, frame, 0)
    ensures OtherBits(Fields(low, frame, high)) == Fields(low, 0, high)
    ensures FrameOf(Fields(low, frame, high)) == frame
  {
    WordWidth();
    AndFields(low, frame, high, 0, 0xf_ffff_ffff, 0);
    AndFields(low, frame, high, 0xfff, 0, 0xffff);
    assert ADDRESS_MASK == Fields(0, 0xf_ffff_ffff, 0) && KEEP_MASK == Fields(0xfff, 0, 0xffff);
    AndOnes(frame, 36);
    AndOnes(low, 12);
    AndOnes(high, 16);
  }

  lemma SetAddressFields(low: nat, frame: nat, high: nat, low': nat, frame': nat, high': nat)
    requires low < 0x1000 && frame < FRAMES_LIMIT && high < 0x1_0000
    requires low' < 0x1000 && frame' < FRAMES_LIMIT && high' < 0x1_0000
    ensures SetPhysicalAddress(Fields(low, frame, high), Fields(low', frame', high')) == Fields(low, frame', high)
  {
    MaskFields(low, frame, high);
    MaskFields(low', frame', high');
    OrFields(low, 0, high, 0, frame', 0);
    OrZero(low);
    OrZero(frame');
    OrZero(high);
  }

  lemma SetFlagFields(low: nat, frame: nat, high: nat, flag: nat)
    requires low < 0x1000 && frame < FRAMES_LIMIT && high < 0x1_0000 && flag < 12
    ensures Or(low, Pow2(flag)) < 0x1000
    ensures SetFlag(Fields(low, frame, high), flag) == Fields(Or(low, Pow2(flag)), frame, high)
  {
    WordWidth();
    Pow2Grows(flag, 11);
    OrBelow(low, Pow2(flag), 12);
    OrFields(low, frame, high, Pow2(flag), 0, 0);
    OrZero(frame);
    OrZero(high);
  }

  lemma FlagOfFields(low: nat, frame: nat, high: nat, flag: nat)
    requires low < 0x1000 && frame < FRAMES_LIMIT && high < 0x1_0000 && flag < 12
    ensures GetFlag(Fields(low, frame, high), flag) <==> Bit(low, flag)
  {
    WordWidth();
    Pow2Grows(flag, 11);
    AndFields(low, frame, high, Pow2(flag), 0, 0);
    MaskTestsBit(low, flag);
  }

  /** Redirecting an entry to another frame, as CopyPages does, changes the frame and nothing else. */
  lemma RedirectedEntry(entry: word, frame: nat)
    requires frame < FRAMES_LIMIT
    ensures FrameOf(SetPhysicalAddress(entry, AddressOf(frame))) == frame
    ensures OtherBits(SetPhysicalAddress(entry, AddressOf(frame))) == OtherBits(entry)
    ensures GetFlag(SetPhysicalAddress(entry, AddressOf(frame)), PRESENT) == GetFlag(entry, PRESENT)
  {
    var low, target, high := AnyWordHasFields(entry);
    SetAddressFields(low, target, high, 0, frame, 0);
    MaskFields(low, target, high);
    MaskFields(low, frame, high);
    FlagOfFields(low, target, high, PRESENT);
    FlagOfFields(low, frame, high, PRESENT);
  }

  lemma PopulatedFields(low: nat, target: nat, high: nat, physAddr: word)
    requires low < 0x1000 && target < FRAMES_LIMIT && high < 0x1_0000
    ensures var low' := Or(Or(Or(low, Pow2(0)), Pow2(1)), Pow2(2));
            && low' < 0x1000 && FrameOf(physAddr) < FRAMES_LIMIT
            && Populated(Fields(low, target, high), physAddr) == Fields(low', FrameOf(physAddr), high)
  {
    hide Or, And, Pow2;
    var low', frame, high' := AnyWordHasFields(physAddr);
    MaskFields(low', frame, high');
    SetAddressFields(low, target, high, low', frame, high');
    SetFlagFields(low, frame, high, 0);
    SetFlagFields(Or(low, Pow2(0)), frame, high, 1);
    SetFlagFields(Or(Or(low, Pow2(0)), Pow2(1)), frame, high, 2);
  }

  lemma ThreeBitsAdded(low: nat, k: nat)
    ensures Bit(Or(Or(Or(low, Pow2(0)), Pow2(1)), Pow2(2)), k) <==> k < 3 || Bit(low, k)
  {
    hide Or, Pow2, Bit;
    BitOfOr(low, Pow2(0), k);
    BitOfOr(Or(low, Pow2(0)), Pow2(1), k);
    BitOfOr(Or(Or(low, Pow2(0)), Pow2(1)), Pow2(2), k);
    BitOfPow2(0, k);
    BitOfPow2(1, k);
    BitOfPow2(2, k);
  }

  lemma PopulatedFlag(entry: word, physAddr: word, flag: nat)
    requires flag < 12
    ensures GetFlag(Populated(entry, physAddr), flag) <==> flag < 3 || GetFlag(entry, flag)
  {
    hide *;
    var low, target, high := AnyWordHasFields(entry);
    PopulatedFields(low, target, high, physAddr);
    FlagOfFields(low, target, high, flag);
    FlagOfFields(Or(Or(Or(low, Pow2(0)), Pow2(1)), Pow2(2)), FrameOf(physAddr), high, flag);
    ThreeBitsAdded(low, flag);
  }

  /** A populated entry points at the frame of the requested address and has exactly the three flags added. */
  lemma PopulatedEntry(entry: word, physAddr: word)
    ensures FrameOf(Populated(entry, physAddr)) == FrameOf(physAddr)
    ensures forall flag :: 0 <= flag < 12 ==>
              (GetFlag(Populated(entry, physAddr), flag) <==> flag < 3 || GetFlag(entry, flag))
    ensures OtherBits(Populated(entry, physAddr)) / 0x1000 == OtherBits(entry) / 0x1000
  {
    hide Or, And, Pow2, Bit, Populated, FrameOf, OtherBits, GetFlag;
    var low, target, high := AnyWordHasFields(entry);
    PopulatedFields(low, target, high, physAddr);
    MaskFields(low, target, high);
    MaskFields(Or(Or(Or(low, Pow2(0)), Pow2(1)), Pow2(2)), FrameOf(physAddr), high);
    forall flag | 0 <= flag < 12
      ensures GetFlag(Populated(entry, physAddr), flag) <==> flag < 3 || GetFlag(entry, flag)
    {
      PopulatedFlag(entry, physAddr, flag);
    }
  }

  lemma AddressNamesFrame(frame: nat)
    requires frame < FRAMES_LIMIT
    ensures FrameOf(AddressOf(frame)) == frame
  {
    MaskFields(0, frame, 0);
  }

  /** The fields the processor sees in an entry: a 36-bit frame number from bit 12 on, and the flags as the lowest
      bits. */
  lemma EntryMeaning(e: word)
    ensures FrameOf(e) == e / 0x1000 % 0x10_0000_0000
    ensures GetFlag(e, PRESENT) <==> e % 2 == 1
    ensures GetFlag(e, ALLOW_WRITE) <==> e / 2 % 2 == 1
    ensures GetFlag(e, USER_ALLOWED) <==> e / 4 % 2 == 1
  {
    hide *;
    FrameMeaning(e);
    FlagMeaning(e);
  }

  lemma FrameMeaning(e: word)
    ensures FrameOf(e) == e / 0x1000 % 0x10_0000_0000
  {
    hide FrameOf, Fields;
    var low, frame, high := e % 0x1000, e / 0x1000 % 0x10_0000_0000, e / 0x1000 / 0x10_0000_0000;
    MaskFields(low, frame, high);
    FieldsOf(e, low, frame, high);
  }

  lemma FieldsOf(e: word, low: nat, frame: nat, high: nat)
    requires low == e % 0x1000 && frame == e / 0x1000 % 0x10_0000_0000 && high == e / 0x1000 / 0x10_0000_0000
    requires low < 0x1000 && frame < FRAMES_LIMIT && high < 0x1_0000
    ensures e == Fields(low, frame, high)
  {
  }

  lemma FlagMeaning(e: word)
    ensures GetFlag(e, PRESENT) <==> e % 2 == 1
    ensures GetFlag(e, ALLOW_WRITE) <==> e / 2 % 2 == 1
    ensures GetFlag(e, USER_ALLOWED) <==> e / 4 % 2 == 1
  {
    hide And;
    MaskTestsBit(e, PRESENT);
    MaskTestsBit(e, ALLOW_WRITE);
    MaskTestsBit(e, USER_ALLOWED);
    assert Bit(e, 2) == Bit(e / 2, 1) == Bit(e / 2 / 2, 0);
  }

  // ---- Virtual addresses ----

  /** The address with its page offset and the indexes below `level` shifted out. */
  function Shifted(virtAddr: word, level: nat): nat {
    if level == 0 then virtAddr / 0x1000 else Shifted(virtAddr, level - 1) / 512
  }

  /** The table index of an address at a level: nine bits. */
  function Index(virtAddr: word, level: nat): (i: nat)
    ensures i < 512
  {
    Shifted(virtAddr, level) % 512
  }

  method GetPageTableIndexes(virtAddr: word) returns (pageIndexes: seq<nat>)
    ensures |pageIndexes| == 4 && forall level :: 0 <= level < 4 ==> pageIndexes[level] == Index(virtAddr, level)
    ensures pageIndexes == [virtAddr / 0x1000 % 512, virtAddr / 0x20_0000 % 512, virtAddr / 0x4000_0000 % 512,
                            virtAddr / 0x80_0000_0000 % 512]
  {
    var address: nat := virtAddr / 0x1000;
    pageIndexes := [];
    for level := 0 to 4
      invariant |pageIndexes| == level
      invariant forall k :: 0 <= k < level ==> pageIndexes[k] == Index(virtAddr, k)
      invariant address == Shifted(virtAddr, level)
    {
      NineOnes(address);
      pageIndexes := pageIndexes + [And(address, 0x1ff)];
      address := address / 512;
    }
    IndexesAre(virtAddr);
  }

  lemma IndexesAre(virtAddr: word)
    ensures Index(virtAddr, 0) == virtAddr / 0x1000 % 512 && Index(virtAddr, 1) == virtAddr / 0x20_0000 % 512
    ensures Index(virtAddr, 2) == virtAddr / 0x4000_0000 % 512 && Index(virtAddr, 3) == virtAddr / 0x80_0000_0000 % 512
  {
    var page: nat, two: nat, three: nat := virtAddr / 0x1000, virtAddr / 0x20_0000, virtAddr / 0x4000_0000;
    assert Shifted(virtAddr, 0) == page;
    assert Shifted(virtAddr, 1) == page / 512 == two;
    assert Shifted(virtAddr, 2) == two / 512 == three;
    assert Shifted(virtAddr, 3) == three / 512 == virtAddr / 0x80_0000_0000;
  }

  lemma NineOnes(x: nat)
    ensures And(x, 0x1ff) == x % 512
  {
    assert Pow2(9) == 512;
    ModSplit(x, 9);
    AndSplit(x % 512, x / 512, 0x1ff, 0, 9);
    AndOnes(x % 512, 9);
  }

  /** Bits 63 to 47 are all equal. */
  predicate Canonical(virtAddr: word) {
    virtAddr < 0x8000_0000_0000 || virtAddr >= 0xffff_8000_0000_0000
  }

  lemma IndexesSpellThePage(a: word)
    ensures a / 0x1000 == Index(a, 0) + 512 * Index(a, 1) + 0x4_0000 * Index(a, 2) + 0x800_0000 * Shifted(a, 3)
    ensures Shifted(a, 3) == a / 0x80_0000_0000
  {
    assert Shifted(a, 1) == a / 0x1000 / 512 && Shifted(a, 2) == a / 0x1000 / 512 / 512;
    assert Shifted(a, 3) == a / 0x1000 / 512 / 512 / 512;
  }

  /** The sign extension of a canonical address is recoverable from its top index. */
  lemma CanonicalTop(a: word)
    requires Canonical(a)
    ensures Shifted(a, 3) == if Index(a, 3) < 256 then Index(a, 3) else 0x1ff_fe00 + Index(a, 3)
  {
    IndexesSpellThePage(a);
  }

  ghost predicate SameIndexes(a: word, b: word) {
    forall level :: 0 <= level < 4 ==> Index(a, level) == Index(b, level)
  }

  /** Two canonical addresses share all four indexes exactly when they lie on the same page. */
  lemma IndexesNameThePage(a: word, b: word)
    requires Canonical(a) && Canonical(b)
    ensures SameIndexes(a, b) <==> a / 0x1000 == b / 0x1000
  {
    if SameIndexes(a, b) {
      IndexesSpellThePage(a);
      IndexesSpellThePage(b);
      CanonicalTop(a);
      CanonicalTop(b);
      assert Index(a, 0) == Index(b, 0) && Index(a, 1) == Index(b, 1) && Index(a, 2) == Index(b, 2)
             && Index(a, 3) == Index(b, 3);
    } else if a / 0x1000 == b / 0x1000 {
      assert Shifted(a, 1) == Shifted(b, 1) && Shifted(a, 2) == Shifted(b, 2) && Shifted(a, 3) == Shifted(b, 3);
    }
  }
}

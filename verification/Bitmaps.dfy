/** The bitmap under both allocators (kernel/src/Bitmap.cpp), refined to a `seq<bool>`. */
module Bitmaps {

  import opened Words
  import opened KernelMath

  lemma BitMaskFits(k: nat)
    requires k < 8
    ensures Pow2(k) < Pow2(8) == 256
  {
    Pow2Grows(k, 7);
  }

  /** The two masked updates of SetBit: `byte |= 1 << k` and `byte &= ~(1 << k)`. */
  function PutBit(b: byte, k: nat, value: bool): byte
    requires k < 8
  {
    BitMaskFits(k);
    OrBelow(b, Pow2(k), 8);
    AndBelow(b, Not(Pow2(k), 8));
    if value then Or(b, Pow2(k)) else And(b, Not(Pow2(k), 8))
  }

  lemma TestPut(b: byte, k: nat, value: bool, j: nat)
    requires k < 8 && j < 8
    ensures Bit(PutBit(b, k, value), j) == if j == k then value else Bit(b, j)
  {
    BitMaskFits(k);
    BitOfPow2(k, j);
    BitOfOr(b, Pow2(k), j);
    BitOfNot(Pow2(k), 8, j);
    BitOfAnd(b, Not(Pow2(k), 8), j);
  }

  lemma PutDigits(b: byte, k: nat, value: bool)
    requires k < 8
    ensures forall j: nat :: j < 8 ==>
              (PutBit(b, k, value) / Pow2(j) % 2 == 1 <==> if j == k then value else b / Pow2(j) % 2 == 1)
  {
    hide PutBit, Bit, Pow2;
    forall j: nat | j < 8
      ensures PutBit(b, k, value) / Pow2(j) % 2 == 1 <==> if j == k then value else b / Pow2(j) % 2 == 1
    {
      TestPut(b, k, value, j);
      BitIsDigit(PutBit(b, k, value), j);
      BitIsDigit(b, j);
    }
  }

  /** Bit `index` of the sequence is digit `index % 8` of its byte, counted from the lowest or from the highest. */
  lemma BitsAreDigits(bytes: seq<byte>, leastSignificantFirst: bool, index: nat)
    requires index < 8 * |bytes|
    ensures BitsOf(bytes, leastSignificantFirst)[index] <==>
            bytes[index / 8] / Pow2(if leastSignificantFirst then 7 - index % 8 else index % 8) % 2 == 1
  {
    BitIsDigit(bytes[index / 8], Place(index, leastSignificantFirst));
  }

  /** Where bit `index` sits inside its byte, in either of the two orders the class supports. */
  function Place(index: nat, leastSignificantFirst: bool): (k: nat)
    ensures k < 8
  {
    if leastSignificantFirst then 7 - index % 8 else index % 8
  }

  predicate BitAt(bytes: seq<byte>, index: nat, leastSignificantFirst: bool)
    requires index / 8 < |bytes|
  {
    Bit(bytes[index / 8], Place(index, leastSignificantFirst))
  }

  /** The abstract value: one boolean a bit. */
  function BitsOf(bytes: seq<byte>, leastSignificantFirst: bool): (bits: seq<bool>)
    ensures |bits| == 8 * |bytes|
  {
    seq(8 * |bytes|, i requires 0 <= i < 8 * |bytes| => BitAt(bytes, i, leastSignificantFirst))
  }

  /** The byte image with one bit replaced. */
  function WithBit(bytes: seq<byte>, index: nat, leastSignificantFirst: bool, value: bool): (r: seq<byte>)
    requires index / 8 < |bytes|
    ensures |r| == |bytes|
  {
    bytes[index / 8 := PutBit(bytes[index / 8], Place(index, leastSignificantFirst), value)]
  }

  /** Replacing one bit of the bytes is exactly a one-element update of the bit sequence. */
  lemma WithBitUpdates(bytes: seq<byte>, index: nat, leastSignificantFirst: bool, value: bool)
    requires index / 8 < |bytes|
    ensures BitsOf(WithBit(bytes, index, leastSignificantFirst, value), leastSignificantFirst)
         == BitsOf(bytes, leastSignificantFirst)[index := value]
  {
    var after := BitsOf(WithBit(bytes, index, leastSignificantFirst, value), leastSignificantFirst);
    var expected := BitsOf(bytes, leastSignificantFirst)[index := value];
    forall i | 0 <= i < |expected|
      ensures after[i] == expected[i]
    {
      TestPut(bytes[index / 8], Place(index, leastSignificantFirst), value, Place(i, leastSignificantFirst));
    }
  }

  class Bitmap {
    const buffer: array<byte>
    const leastSignificantFirst: bool

    constructor (buffer: array<byte>, leastSignificantFirst: bool)
      requires buffer.Length > 0
      ensures this.buffer == buffer && this.leastSignificantFirst == leastSignificantFirst
    {
      this.buffer := buffer;
      this.leastSignificantFirst := leastSignificantFirst;
    }

    ghost function Bits(): (bits: seq<bool>)
      reads this, buffer
      ensures |bits| == 8 * buffer.Length
    {
      BitsOf(buffer[..], leastSignificantFirst)
    }

    function TotalNumberOfBits(): (n: nat)
      reads this, buffer
      ensures n == |Bits()|
    {
      buffer.Length * 8
    }

    method GetBit(index: nat) returns (value: bool)
      requires index / 8 < buffer.Length
      ensures value == Bits()[index]
      ensures value <==>
              buffer[index / 8] / Pow2(if leastSignificantFirst then 7 - index % 8 else index % 8) % 2 == 1
    {
      var place := Place(index, leastSignificantFirst);
      value := And(buffer[index / 8], Pow2(place)) != 0;
      MaskTestsBit(buffer[index / 8], place);
      BitIsDigit(buffer[index / 8], place);
    }

    method SetBit(index: nat, value: bool)
      requires index / 8 < buffer.Length
      modifies buffer
      ensures Bits() == old(Bits())[index := value]
      ensures forall j :: 0 <= j < buffer.Length && j != index / 8 ==> buffer[j] == old(buffer[j])
      ensures forall k: nat :: k < 8 ==>
                (buffer[index / 8] / Pow2(k) % 2 == 1 <==>
                 if k == (if leastSignificantFirst then 7 - index % 8 else index % 8) then value
                 else old(buffer[index / 8]) / Pow2(k) % 2 == 1)
    {
      var place := Place(index, leastSignificantFirst);
      WithBitUpdates(buffer[..], index, leastSignificantFirst, value);
      PutDigits(buffer[index / 8], place, value);
      buffer[index / 8] := PutBit(buffer[index / 8], place, value);
      assert buffer[..] == WithBit(old(buffer[..]), index, leastSignificantFirst, value);
    }
  }
}

/** Unsigned machine words as natural numbers, with C's bitwise operators defined digit by digit
    and reduced to arithmetic. */
module Words {

  type byte = b: nat | b < 256

  /** The values of a 64-bit word lie below this. */
  const WORD: nat := 0x1_0000_0000_0000_0000

  function Pow2(k: nat): (p: nat)
    ensures p > 0
  {
    if k == 0 then 1 else 2 * Pow2(k - 1)
  }

  /** Binary digit `k`. */
  predicate Bit(x: nat, k: nat) {
    if k == 0 then x % 2 == 1 else Bit(x / 2, k - 1)
  }

  /** `x & y`. */
  function And(x: nat, y: nat): nat {
    if x == 0 || y == 0 then 0
    else 2 * And(x / 2, y / 2) + (if x % 2 == 1 && y % 2 == 1 then 1 else 0)
  }

  /** `x | y`. */
  function Or(x: nat, y: nat): nat {
    if x == 0 && y == 0 then 0
    else 2 * Or(x / 2, y / 2) + (if x % 2 == 1 || y % 2 == 1 then 1 else 0)
  }

  /** `~x` in a word of `width` bits. */
  function Not(x: nat, width: nat): nat
    requires x < Pow2(width)
  {
    Pow2(width) - 1 - x
  }

  lemma {:induction false} Pow2Add(a: nat, b: nat)
    ensures Pow2(a + b) == Pow2(a) * Pow2(b)
  {
    if a > 0 { Pow2Add(a - 1, b); }
  }

  // ---- Digits ----

  lemma {:induction false} BitOfZero(k: nat)
    ensures !Bit(0, k)
  {
    if k > 0 { BitOfZero(k - 1); }
  }

  lemma {:induction false} BitOfAnd(x: nat, y: nat, k: nat)
    ensures Bit(And(x, y), k) <==> Bit(x, k) && Bit(y, k)
  {
    BitOfZero(k);
    if k > 0 && x > 0 && y > 0 { BitOfAnd(x / 2, y / 2, k - 1); }
  }

  lemma {:induction false} BitOfOr(x: nat, y: nat, k: nat)
    ensures Bit(Or(x, y), k) <==> Bit(x, k) || Bit(y, k)
  {
    BitOfZero(k);
    if k > 0 && !(x == 0 && y == 0) { BitOfOr(x / 2, y / 2, k - 1); }
  }

  lemma {:induction false} BitOfPow2(j: nat, k: nat)
    ensures Bit(Pow2(j), k) <==> j == k
  {
    if k > 0 {
      BitOfZero(k - 1);
      if j > 0 { BitOfPow2(j - 1, k - 1); }
    }
  }

  lemma {:induction false} BitOfNot(x: nat, width: nat, k: nat)
    requires x < Pow2(width) && k < width
    ensures Bit(Not(x, width), k) <==> !Bit(x, k)
  {
    assert Not(x, width) / 2 == Not(x / 2, width - 1);
    if k > 0 { BitOfNot(x / 2, width - 1, k - 1); }
  }

  /** Testing a one-bit mask reads that digit. */
  lemma {:induction false} MaskTestsBit(x: nat, k: nat)
    ensures And(x, Pow2(k)) != 0 <==> Bit(x, k)
  {
    BitOfZero(k);
    if k > 0 && x > 0 { MaskTestsBit(x / 2, k - 1); }
  }

  lemma {:induction false} Pow2Grows(j: nat, k: nat)
    requires j <= k
    ensures Pow2(j) <= Pow2(k)
  {
    if j < k { Pow2Grows(j, k - 1); }
  }

  lemma {:induction false} OrBelow(x: nat, y: nat, width: nat)
    requires x < Pow2(width) && y < Pow2(width)
    ensures Or(x, y) < Pow2(width)
  {
    if width > 0 { OrBelow(x / 2, y / 2, width - 1); }
  }

  lemma {:induction false} AndBelow(x: nat, y: nat)
    ensures And(x, y) <= x && And(x, y) <= y
  {
    if x > 0 && y > 0 { AndBelow(x / 2, y / 2); }
  }

  // ---- Fields: a word is a low part below Pow2(k) plus a high part ----

  lemma DoubledProduct(c: nat, k: nat)
    requires k > 0
    ensures c * Pow2(k) == 2 * (c * Pow2(k - 1))
  {
  }

  lemma HalfOfField(low: nat, high: nat, k: nat)
    requires k > 0 && low < Pow2(k)
    ensures (low + high * Pow2(k)) / 2 == low / 2 + high * Pow2(k - 1)
    ensures (low + high * Pow2(k)) % 2 == low % 2
    ensures low / 2 < Pow2(k - 1)
  {
    DoubledProduct(high, k);
  }

  lemma {:induction false} AndSplit(low: nat, high: nat, a: nat, b: nat, k: nat)
    requires low < Pow2(k) && a < Pow2(k)
    ensures And(low + high * Pow2(k), a + b * Pow2(k)) == And(low, a) + And(high, b) * Pow2(k)
  {
    if k > 0 {
      var x, y := low + high * Pow2(k), a + b * Pow2(k);
      AndStep(x, y);
      AndStep(low, a);
      hide And, Pow2;
      HalfOfField(low, high, k);
      HalfOfField(a, b, k);
      AndSplit(low / 2, high, a / 2, b, k - 1);
      DoubledProduct(And(high, b), k);
    }
  }

  lemma {:induction false} OrSplit(low: nat, high: nat, a: nat, b: nat, k: nat)
    requires low < Pow2(k) && a < Pow2(k)
    ensures Or(low + high * Pow2(k), a + b * Pow2(k)) == Or(low, a) + Or(high, b) * Pow2(k)
  {
    if k > 0 {
      var x, y := low + high * Pow2(k), a + b * Pow2(k);
      OrStep(x, y);
      OrStep(low, a);
      hide Or, Pow2;
      HalfOfField(low, high, k);
      HalfOfField(a, b, k);
      OrSplit(low / 2, high, a / 2, b, k - 1);
      DoubledProduct(Or(high, b), k);
    }
  }

  lemma AndStep(x: nat, y: nat)
    ensures And(x, y) == 2 * And(x / 2, y / 2) + (if x % 2 == 1 && y % 2 == 1 then 1 else 0)
  {
  }

  lemma OrStep(x: nat, y: nat)
    ensures Or(x, y) == 2 * Or(x / 2, y / 2) + (if x % 2 == 1 || y % 2 == 1 then 1 else 0)
  {
  }

  lemma {:induction false} AndOnes(x: nat, k: nat)
    requires x < Pow2(k)
    ensures And(x, Pow2(k) - 1) == x
  {
    if k > 0 {
      AndStep(x, Pow2(k) - 1);
      assert Pow2(k) == 2 * Pow2(k - 1);
      hide And, Pow2;
      assert (Pow2(k) - 1) / 2 == Pow2(k - 1) - 1 && (Pow2(k) - 1) % 2 == 1;
      AndOnes(x / 2, k - 1);
    }
  }

  lemma {:induction false} OrZero(x: nat)
    ensures Or(x, 0) == x && Or(0, x) == x
  {
    if x > 0 { OrZero(x / 2); }
  }

  lemma ModSplit(x: nat, k: nat)
    ensures x == x % Pow2(k) + (x / Pow2(k)) * Pow2(k) && x % Pow2(k) < Pow2(k)
  {
  }
}

/** Integer powers and the size-class bit trick (kernel/src/Math.cpp). */
module KernelMath {
  import opened Words

  function Power(base: nat, exponent: nat): nat {
    if exponent == 0 then 1 else base * Power(base, exponent - 1)
  }

  lemma WrappedProduct(a: nat, b: nat)
    ensures (b * (a % WORD)) % WORD == (b * a) % WORD
  {
    var q := a / WORD;
    assert b * a == b * (a % WORD) + (b * q) * WORD;
  }

  /** The exact power, in a 64-bit word. */
  method Pow(base: nat, exponent: nat) returns (result: nat)
    ensures result == Power(base, exponent) % WORD
  {
    result := 1;
    var i := exponent;
    while i > 0
      invariant 0 <= i <= exponent && result == Power(base, exponent - i) % WORD
    {
      i := i - 1;
      WrappedProduct(Power(base, exponent - i - 1), base);
      result := (base * result) % WORD;
    }
  }

  lemma {:induction false} PowersOfTwo(k: nat)
    ensures Power(2, k) == Pow2(k)
  {
    if k > 0 { PowersOfTwo(k - 1); }
  }

  // ---- CeilLog2 ----

  lemma {:induction false} AndSame(x: nat)
    ensures And(x, x) == x
  {
    if x > 0 { AndSame(x / 2); }
  }

  /** `value & (value - 1)` is zero exactly for powers of two. */
  lemma {:induction false} PowerTest(v: nat, k: nat)
    requires Pow2(k) <= v < Pow2(k + 1)
    ensures And(v, v - 1) == 0 <==> v == Pow2(k)
  {
    AndStep(v, v - 1);
    if k > 0 {
      if v % 2 == 1 {
        AndSame(v / 2);
        assert (v - 1) / 2 == v / 2;
      } else {
        PowerTest(v / 2, k - 1);
        assert (v - 1) / 2 == v / 2 - 1;
      }
    }
  }

  /** The mask of the upper half of a word of `2 * j` bits. */
  function UpperHalf(j: nat): nat {
    Ones(j) * Pow2(j)
  }

  function Ones(j: nat): nat {
    Pow2(j) - 1
  }

  /** Masking the upper half tests whether the value needs more than `j` bits, and shifting then keeps it. */
  lemma HalfTest(value: nat, j: nat)
    requires value < Pow2(2 * j)
    ensures And(value, UpperHalf(j)) == 0 <==> value < Pow2(j)
    ensures value / Pow2(j) < Pow2(j)
  {
    hide And, Pow2;
    var low, high := value % Pow2(j), value / Pow2(j);
    ModSplit(value, j);
    Pow2Add(j, j);
    AndSplit(low, high, 0, Ones(j), j);
    HighBelow(value, Pow2(j));
    AndOnes(high, j);
    AndZero(low);
  }

  lemma HighBelow(value: nat, p: nat)
    requires p > 0 && value < p * p
    ensures value / p < p
    ensures value / p * p == 0 <==> value < p
  {
    MulMonotone(p, value / p, p);
    MulMonotone(1, value / p, p);
  }

  lemma MulMonotone(a: nat, b: nat, c: nat)
    ensures a <= b ==> a * c <= b * c
  {
  }

  lemma ShiftedTwice(v: nat, a: nat, b: nat)
    ensures v / Pow2(a) / Pow2(b) == v / Pow2(a + b)
  {
    Pow2Add(a, b);
    DividedTwice(v, Pow2(a), Pow2(b));
  }

  lemma DividedTwice(v: nat, p: nat, q: nat)
    requires p > 0 && q > 0
    ensures v / p / q == v / (p * q)
  {
    var x, t, r := v / p / q, v / p % q, v % p;
    Division(v, p);
    Division(v / p, q);
    TwoDigits(x, t, r, p, q);
    QuotientIs(v, p * q, x, t * p + r);
  }

  lemma Division(v: nat, d: nat)
    requires d > 0
    ensures v == v / d * d + v % d && v % d < d
  {
  }

  lemma TwoDigits(x: nat, t: nat, r: nat, p: nat, q: nat)
    requires t < q && r < p
    ensures (x * q + t) * p + r == x * (p * q) + (t * p + r) && t * p + r < p * q
  {
    MulMonotone(t + 1, q, p);
    assert (x * q + t) * p == x * q * p + t * p;
  }

  lemma QuotientIs(v: nat, d: nat, x: nat, r: nat)
    requires v == x * d + r && r < d
    ensures v / d == x
  {
    var y := v / d;
    assert v == y * d + v % d;
    MulMonotone(y + 1, x, d);
    MulMonotone(x + 1, y, d);
  }

  /** A binary digit is the quotient's last one. */
  lemma {:induction false} BitIsDigit(x: nat, k: nat)
    ensures Bit(x, k) <==> x / Pow2(k) % 2 == 1
  {
    if k > 0 {
      BitIsDigit(x / 2, k - 1);
      DividedTwice(x, 2, Pow2(k - 1));
    }
  }

  /** `k` is the ceiling of the binary logarithm of `v`. */
  ghost predicate IsCeilLog2(v: nat, k: nat) {
    v <= Pow2(k) && forall j: nat :: v <= Pow2(j) ==> k <= j
  }

  lemma CeilFromFloor(v: nat, floor: nat)
    requires v > 0 && v / Pow2(floor) == 1
    ensures IsCeilLog2(v, if And(v, v - 1) == 0 then floor else floor + 1)
  {
    var p := Pow2(floor);
    assert v == p + v % p;
    assert Pow2(floor + 1) == 2 * p;
    PowerTest(v, floor);
    hide And;
    forall j: nat | v <= Pow2(j)
      ensures (if v == p then floor else floor + 1) <= j
    {
      if j < floor { Pow2Grows(j + 1, floor); }
    }
  }

  const MASKS: seq<nat> :=
    [0xFFFFFFFF00000000, 0x00000000FFFF0000, 0x000000000000FF00, 0x00000000000000F0, 0x000000000000000C,
     0x0000000000000002]

  const HALVES: seq<nat> := [32, 16, 8, 4, 2, 1]

  lemma MasksAreHalves(i: nat)
    requires i < 6
    ensures MASKS[i] == UpperHalf(HALVES[i])
  {
    WordPowers();
    hide Pow2;
  }

  lemma WordPowers()
    ensures Pow2(0) == 1 && Pow2(1) == 2 && Pow2(2) == 4 && Pow2(4) == 0x10 && Pow2(8) == 0x100
    ensures Pow2(16) == 0x1_0000 && Pow2(32) == 0x1_0000_0000 && Pow2(64) == WORD
  {
    hide Pow2;
    SmallPowers();
    Squared(2, 4);
    Squared(4, 0x10);
    Squared(8, 0x100);
    Squared(16, 0x1_0000);
    Squared(32, 0x1_0000_0000);
  }

  lemma SmallPowers()
    ensures Pow2(0) == 1 && Pow2(1) == 2 && Pow2(2) == 4
  {
  }

  lemma Squared(k: nat, v: nat)
    requires Pow2(k) == v
    ensures Pow2(2 * k) == v * v
  {
    Pow2Add(k, k);
  }

  /** The least `k` with `v <= 2^k`, for every nonzero 64-bit value; zero gives zero. */
  method CeilLog2(v: nat) returns (output: nat)
    requires v < WORD
    ensures v > 0 ==> IsCeilLog2(v, output)
    ensures v == 0 ==> output == 0
  {
    hide And, Pow2, IsCeilLog2, UpperHalf;
    WordPowers();
    var value := v;
    ghost var increment := if And(v, (v + WORD - 1) % WORD) == 0 then 0 else 1;
    output := if And(value, (value + WORD - 1) % WORD) == 0 then 0 else 1;
    ghost var shift: nat := 0;
    var j, i := 32, 0;
    while i < 6
      invariant 0 <= i <= 6 && j == (if i < 6 then HALVES[i] else 0)
      invariant value < (if i < 6 then Pow2(2 * j) else Pow2(1))
      invariant value == v / Pow2(shift) && output == increment + shift
      invariant (v > 0 ==> value > 0) && (v == 0 ==> shift == 0)
    {
      MasksAreHalves(i);
      HalfTest(value, j);
      ShiftedTwice(v, shift, j);
      var k := if And(value, MASKS[i]) == 0 then 0 else j;
      output := output + k;
      if k != 0 { NonzeroShift(value, Pow2(j)); }
      Unshifted(value);
      value := value / Pow2(k);
      shift := shift + k;
      j := j / 2;
      i := i + 1;
    }
    if v > 0 {
      assert (v + WORD - 1) % WORD == v - 1;
      CeilFromFloor(v, shift);
    } else {
      AndZero((v + WORD - 1) % WORD);
    }
  }

  lemma NonzeroShift(value: nat, p: nat)
    requires p > 0
    ensures value >= p ==> value / p > 0
  {
  }

  lemma Unshifted(value: nat)
    ensures value / Pow2(0) == value
  {
  }

  lemma AndZero(x: nat)
    ensures And(0, x) == 0 && And(x, 0) == 0
  {
  }
}

/**
 32-bit machine words as the kernel computes with them: `size_t`, `unsigned long` and pointers are
 32 bits wide, so sums and differences wrap, and `&` and `|` act on binary digits.
 */
module Words {
  const TWO_32: int := 0x1_0000_0000

  type u32 = x: int | 0 <= x < 0x1_0000_0000
  type byte = x: int | 0 <= x < 0x100

  const PAGE_SIZE: int := 0x1000
  const FRAME_MASK: u32 := 0xFFFF_F000

  function Add32(a: int, b: int): u32 {
    (a + b) % 0x1_0000_0000
  }

  function Sub32(a: u32, b: u32): u32 {
    if a >= b then a - b else a - b + 0x1_0000_0000
  }

  function Pow2(k: nat): (p: nat)
    ensures p > 0
  {
    if k == 0 then 1 else 2 * Pow2(k - 1)
  }

  /** The k low binary digits of x are zero. */
  predicate LowZeros(x: nat, k: nat) {
    k == 0 || (x % 2 == 0 && LowZeros(x / 2, k - 1))
  }

  /** x without its k low binary digits. */
  function Shift(x: nat, k: nat): nat {
    if k == 0 then x else Shift(x / 2, k - 1)
  }

  /** Bitwise and. */
  function And(x: nat, y: nat): nat {
    if x == 0 || y == 0 then 0
    else (if x % 2 == 1 && y % 2 == 1 then 1 else 0) + 2 * And(x / 2, y / 2)
  }

  /** Bitwise or. */
  function Or(x: nat, y: nat): nat {
    if x == 0 then y
    else if y == 0 then x
    else (if x % 2 == 1 || y % 2 == 1 then 1 else 0) + 2 * Or(x / 2, y / 2)
  }

  /** Binary digit k of x. */
  predicate DigitSet(x: nat, k: nat) {
    x / Pow2(k) % 2 == 1
  }

  lemma {:induction false} ShiftIs(x: nat, k: nat)
    ensures Shift(x, k) == x / Pow2(k)
    decreases k
  {
    if k > 0 {
      ShiftIs(x / 2, k - 1);
      HalfThenRest(x, Pow2(k - 1));
    }
  }

  lemma HalfThenRest(x: nat, p: nat)
    requires p > 0
    ensures x / 2 / p == x / (2 * p)
  {
    var q := x / 2 / p;
    assert x / 2 == q * p + x / 2 % p;
    assert x == 2 * p * q + (2 * (x / 2 % p) + x % 2);
    assert 0 <= 2 * (x / 2 % p) + x % 2 < 2 * p;
    QuotientIs(x, 2 * p, q, 2 * (x / 2 % p) + x % 2);
  }

  lemma QuotientIs(x: nat, d: nat, q: nat, r: nat)
    requires x == d * q + r && r < d
    ensures x / d == q
  {
    var z := x / d;
    assert x == d * z + x % d;
    if z > q {
      AtLeast(d, z - q);
    } else if z < q {
      AtLeast(d, q - z);
    }
  }

  lemma AtLeast(d: nat, k: nat)
    requires k >= 1
    ensures d * k >= d
  {
  }

  /** A digit of `|` is set when it is set in either, a digit of `&` when it is set in both. */
  lemma {:induction false} DigitsOfOrAnd(x: nat, y: nat, k: nat)
    ensures DigitSet(Or(x, y), k) <==> DigitSet(x, k) || DigitSet(y, k)
    ensures DigitSet(And(x, y), k) <==> DigitSet(x, k) && DigitSet(y, k)
  {
    ShiftIs(x, k);
    ShiftIs(y, k);
    ShiftIs(Or(x, y), k);
    ShiftIs(And(x, y), k);
    ShiftedDigits(x, y, k);
  }

  lemma {:induction false} ShiftedDigits(x: nat, y: nat, k: nat)
    ensures Shift(Or(x, y), k) % 2 == 1 <==> Shift(x, k) % 2 == 1 || Shift(y, k) % 2 == 1
    ensures Shift(And(x, y), k) % 2 == 1 <==> Shift(x, k) % 2 == 1 && Shift(y, k) % 2 == 1
    decreases k
  {
    if k > 0 {
      Halves(x, y);
      ShiftedDigits(x / 2, y / 2, k - 1);
    } else {
      Halves(x, y);
    }
  }

  lemma Halves(x: nat, y: nat)
    ensures Or(x, y) / 2 == Or(x / 2, y / 2) && (Or(x, y) % 2 == 1 <==> x % 2 == 1 || y % 2 == 1)
    ensures And(x, y) / 2 == And(x / 2, y / 2) && (And(x, y) % 2 == 1 <==> x % 2 == 1 && y % 2 == 1)
  {
  }

  lemma TwoToSixteen(k: nat)
    requires k == 16
    ensures Pow2(k) == 0x1_0000
  {
    FourMore(k - 16);
    FourMore(k - 12);
    FourMore(k - 8);
    FourMore(k - 4);
  }

  lemma FourMore(k: nat)
    ensures Pow2(k + 4) == 16 * Pow2(k)
  {
    assert Pow2(k + 1) == 2 * Pow2(k);
    assert Pow2(k + 2) == 2 * Pow2(k + 1);
    assert Pow2(k + 3) == 2 * Pow2(k + 2);
  }

  lemma {:induction false} OrBound(x: nat, y: nat, k: nat)
    requires x < Pow2(k) && y < Pow2(k)
    ensures Or(x, y) < Pow2(k)
    decreases k
  {
    if k > 0 && x > 0 && y > 0 {
      OrBound(x / 2, y / 2, k - 1);
    }
  }

  lemma Doubled(a: nat, b: nat)
    ensures 2 * (a * b) == (2 * a) * b
  {
  }

  lemma {:induction false} AndHigh(x: nat, y: nat, k: nat)
    requires LowZeros(y, k)
    ensures And(x, y) == Pow2(k) * And(Shift(x, k), Shift(y, k))
    decreases k
  {
    if k == 0 {
    } else {
      assert And(x, y) == 2 * And(x / 2, y / 2);
      AndHigh(x / 2, y / 2, k - 1);
      Doubled(Pow2(k - 1), And(Shift(x, k), Shift(y, k)));
    }
  }

  lemma {:induction false} AndOnes(x: nat, k: nat)
    requires x < Pow2(k)
    ensures And(x, Pow2(k) - 1) == x
    decreases k
  {
    if k == 0 || x == 0 {
    } else {
      AndOnes(x / 2, k - 1);
      assert (Pow2(k) - 1) / 2 == Pow2(k - 1) - 1;
    }
  }

  // The digit counts below are parameters so that the verifier does not unroll the definitions.

  lemma ShiftByTwelve(x: nat, k: nat)
    requires k == 12
    ensures Shift(x, k) == x / 4096
    ensures x % 4096 == 0 ==> LowZeros(x, k)
  {
    ShiftAdd(x, k - 4, k - 8);
    ShiftByEight(x, k - 4);
    ShiftByFour(x / 256, k - 8);
    if x % 4096 == 0 {
      LowZerosAdd(x, k - 4, k - 8);
    }
  }

  lemma ShiftByEight(x: nat, k: nat)
    requires k == 8
    ensures Shift(x, k) == x / 256
    ensures x % 256 == 0 ==> LowZeros(x, k)
  {
    ShiftAdd(x, k - 4, k - 4);
    ShiftByFour(x, k - 4);
    ShiftByFour(x / 16, k - 4);
    if x % 256 == 0 {
      LowZerosAdd(x, k - 4, k - 4);
    }
  }

  lemma ShiftByFour(x: nat, k: nat)
    requires k == 4
    ensures Shift(x, k) == x / 16
    ensures x % 16 == 0 ==> LowZeros(x, k)
  {
    ShiftAdd(x, k - 2, k - 2);
    ShiftByTwo(x, k - 2);
    ShiftByTwo(x / 4, k - 2);
    if x % 16 == 0 {
      LowZerosAdd(x, k - 2, k - 2);
    }
  }

  lemma ShiftByTwo(x: nat, k: nat)
    requires k == 2
    ensures Shift(x, k) == x / 4
    ensures x % 4 == 0 ==> LowZeros(x, k)
  {
    assert Shift(x, k) == Shift(x / 2, k - 1) == Shift(x / 4, k - 2);
    assert LowZeros(x / 4, k - 2);
  }

  lemma {:induction false} ShiftAdd(x: nat, i: nat, j: nat)
    ensures Shift(x, i + j) == Shift(Shift(x, i), j)
    decreases i
  {
    if i > 0 {
      ShiftAdd(x / 2, i - 1, j);
    }
  }

  lemma {:induction false} LowZerosAdd(x: nat, i: nat, j: nat)
    requires LowZeros(x, i) && LowZeros(Shift(x, i), j)
    ensures LowZeros(x, i + j)
    decreases i
  {
    if i > 0 {
      LowZerosAdd(x / 2, i - 1, j);
    }
  }

  /** `entry & 0xFFFFF000` drops the offset inside the page and nothing else. */
  lemma MaskKeepsFrame(x: u32)
    ensures And(x, FRAME_MASK) == x - x % 4096
  {
    assert Pow2(12) == 4096 && Pow2(20) == 0x10_0000;
    ShiftByTwelve(x, 12);
    ShiftByTwelve(FRAME_MASK, 12);
    AndHigh(x, FRAME_MASK, 12);
    AndOnes(x / 4096, 20);
  }

  lemma {:induction false} OrSplit(a: nat, f: nat, g: nat, k: nat)
    requires LowZeros(a, k) && f < Pow2(k) && g < Pow2(k)
    ensures Or(a + f, g) == a + Or(f, g)
    ensures Or(f, g) < Pow2(k)
    decreases k
  {
    if k == 0 || g == 0 || a + f == 0 {
    } else {
      assert (a + f) / 2 == a / 2 + f / 2 && (a + f) % 2 == f % 2;
      OrSplit(a / 2, f / 2, g / 2, k - 1);
    }
  }

  /** Or-ing flags below the page size into a page address is addition. */
  lemma OrFlags(a: nat, f: nat)
    requires a % 4096 == 0 && f < 4096
    ensures Or(a, f) == a + f
  {
    assert Pow2(12) == 4096;
    ShiftByTwelve(a, 12);
    OrSplit(a, 0, f, 12);
  }

  lemma OrFlagsTwice(a: nat, f: nat, g: nat)
    requires a % 4096 == 0 && f < 4096 && g < 4096
    ensures Or(Or(a, f), g) == a + Or(f, g)
    ensures Or(f, g) < 4096
  {
    assert Pow2(12) == 4096;
    ShiftByTwelve(a, 12);
    OrFlags(a, f);
    OrSplit(a, f, g, 12);
  }

  /** The bits tested on page entries and on program-header flags. */
  lemma LowBits(e: nat)
    ensures And(e, 1) == e % 2
    ensures And(e, 2) == 2 * (e / 2 % 2)
    ensures And(e, 4) == 4 * (e / 4 % 2)
  {
    assert And(e / 2, 0) == 0 && And(e / 4, 0) == 0;
    assert And(e, 1) == (if e == 0 then 0 else (e % 2) + 2 * And(e / 2, 0));
    assert And(e / 2, 1) == e / 2 % 2;
    assert And(e / 4, 1) == e / 4 % 2;
    assert And(e, 2) == 2 * And(e / 2, 1);
    assert And(e / 2, 2) == 2 * And(e / 4, 1);
    assert And(e, 4) == 2 * And(e / 2, 2);
  }
}

/** The bitwise operators of C on unsigned words, as functions on naturals, and the
    arithmetic normal forms of the masks that the boot stub and the kernel use. */
module Bits {

  const TWO_64: nat := 0x1_0000_0000_0000_0000

  type u8 = x: nat | x < 0x100
  type u64 = x: nat | x < 0x1_0000_0000_0000_0000

  function Pow2(k: nat): (p: nat)
    ensures p >= 1
  {
    if k == 0 then 1 else 2 * Pow2(k - 1)
  }

  /** `x >> k` */
  function Shr(x: nat, k: nat): nat {
    if k == 0 then x else Shr(x / 2, k - 1)
  }

  /** `x & y` */
  function And(x: nat, y: nat): nat {
    if x == 0 || y == 0 then 0
    else 2 * And(x / 2, y / 2) + if x % 2 == 1 && y % 2 == 1 then 1 else 0
  }

  /** `x | y` */
  function Or(x: nat, y: nat): nat {
    if x == 0 then y
    else if y == 0 then x
    else 2 * Or(x / 2, y / 2) + if x % 2 == 1 || y % 2 == 1 then 1 else 0
  }

  /** Bit k of x. */
  predicate Bit(x: nat, k: nat) {
    Shr(x, k) % 2 == 1
  }

  lemma {:induction false} BitAnd(x: nat, y: nat, k: nat)
    ensures Bit(And(x, y), k) <==> Bit(x, k) && Bit(y, k)
  {
    hide And, Or, Bit;
    if x == 0 || y == 0 {
      BitOfZero(k);
      AndOfZero(x, y);
    } else {
      AndHalves(x, y);
      BitOfHalf(x, k);
      BitOfHalf(y, k);
      BitOfHalf(And(x, y), k);
      if k > 0 {
        BitAnd(x / 2, y / 2, k - 1);
      }
    }
  }

  lemma AndOfZero(x: nat, y: nat)
    requires x == 0 || y == 0
    ensures And(x, y) == 0
  {
  }

  lemma AndHalves(x: nat, y: nat)
    requires x > 0 && y > 0
    ensures And(x, y) / 2 == And(x / 2, y / 2)
    ensures And(x, y) % 2 == 1 <==> x % 2 == 1 && y % 2 == 1
  {
  }

  lemma {:induction false} BitOr(x: nat, y: nat, k: nat)
    ensures Bit(Or(x, y), k) <==> Bit(x, k) || Bit(y, k)
  {
    hide And, Or, Bit;
    if x == 0 || y == 0 {
      BitOfZero(k);
      OrOfZero(x, y);
    } else {
      OrHalves(x, y);
      BitOfHalf(x, k);
      BitOfHalf(y, k);
      BitOfHalf(Or(x, y), k);
      if k > 0 {
        BitOr(x / 2, y / 2, k - 1);
      }
    }
  }

  lemma OrOfZero(x: nat, y: nat)
    requires x == 0 || y == 0
    ensures Or(x, y) == if x == 0 then y else x
  {
  }

  lemma OrHalves(x: nat, y: nat)
    requires x > 0 && y > 0
    ensures Or(x, y) / 2 == Or(x / 2, y / 2)
    ensures Or(x, y) % 2 == 1 <==> x % 2 == 1 || y % 2 == 1
  {
  }

  lemma BitOfHalf(x: nat, k: nat)
    ensures Bit(x, k) <==> if k == 0 then x % 2 == 1 else Bit(x / 2, k - 1)
  {
  }

  lemma {:induction false} BitOfZero(k: nat)
    ensures !Bit(0, k)
  {
    if k > 0 {
      BitOfZero(k - 1);
    }
  }

  lemma {:induction false} BitOfPow2(j: nat, k: nat)
    ensures Bit(Pow2(j), k) <==> j == k
  {
    if j == 0 && k > 0 {
      BitOfZero(k - 1);
    } else if j > 0 && k > 0 {
      BitOfPow2(j - 1, k - 1);
    }
  }

  lemma {:induction false} ShrIsDivision(x: nat, k: nat)
    ensures Shr(x, k) == x / Pow2(k)
  {
    if k > 0 {
      ShrIsDivision(x / 2, k - 1);
      DivDiv(x, Pow2(k - 1));
    }
  }

  lemma QuotientUnique(d: nat, q: int, r: nat, q': int, r': nat)
    requires d * q + r == d * q' + r' && r < d && r' < d
    ensures q == q' && r == r'
  {
    if q < q' {
      LowerQuotientIsLess(d, q, r, q');
    } else if q' < q {
      LowerQuotientIsLess(d, q', r', q);
    }
  }

  lemma LowerQuotientIsLess(d: nat, q: int, r: nat, q': int)
    requires r < d && q < q'
    ensures d * q + r < d * q'
  {
    MulAtLeast(d, q' - q);
    assert d * (q' - q) == d * q' - d * q;
  }

  lemma MulAtLeast(d: nat, n: nat)
    requires n >= 1
    ensures d * n >= d
  {
  }

  lemma MulAtMost(a: nat, b: nat, n: nat)
    requires a <= b
    ensures 0 <= a * n <= b * n
  {
  }

  lemma MulCommutes(a: nat, b: nat)
    ensures a * b == b * a
  {
  }

  lemma MulDouble(m: nat, p: nat)
    ensures m * (2 * p) == 2 * (m * p)
  {
  }

  lemma DivUnique(x: nat, d: nat, q: nat, r: nat)
    requires d >= 1 && x == d * q + r && r < d
    ensures x / d == q && x % d == r
  {
    var q', r' := x / d, x % d;
    assert x == d * q' + r';
    QuotientUnique(d, q, r, q', r');
  }

  lemma DivDiv(x: nat, p: nat)
    requires p >= 1
    ensures x / 2 / p == x / (2 * p)
    ensures x % (2 * p) == 2 * (x / 2 % p) + x % 2
  {
    var h := x / 2;
    var q, r := h / p, h % p;
    assert h == p * q + r;
    assert 2 * p * q == 2 * (p * q);
    DivUnique(x, 2 * p, q, 2 * r + x % 2);
  }

  lemma {:induction false} Pow2Sum(a: nat, b: nat)
    ensures Pow2(a + b) == Pow2(a) * Pow2(b)
  {
    if a > 0 {
      Pow2Sum(a - 1, b);
      assert 2 * (Pow2(a - 1) * Pow2(b)) == 2 * Pow2(a - 1) * Pow2(b);
    }
  }

  /** The powers of two that the masks and shifts are made of. */
  lemma Powers()
    ensures Pow2(1) == 2 && Pow2(2) == 4 && Pow2(3) == 8 && Pow2(7) == 0x80 && Pow2(9) == 0x200 && Pow2(12) == 0x1000
  {
    assert Pow2(3) == 8;
    Pow2Sum(3, 3);
    Pow2Sum(6, 1);
    Pow2Sum(6, 3);
    Pow2Sum(9, 3);
  }

  lemma ShiftPowers()
    ensures Pow2(21) == 0x20_0000 && Pow2(30) == 0x4000_0000 && Pow2(39) == 0x80_0000_0000
  {
    Powers();
    Pow2Sum(12, 9);
    Pow2Sum(21, 9);
    Pow2Sum(30, 9);
  }

  lemma MaskPowers()
    ensures Pow2(40) == 0x100_0000_0000 && Pow2(43) == 0x800_0000_0000 && Pow2(52) == 0x10_0000_0000_0000
  {
    Powers();
    ShiftPowers();
    Pow2Sum(39, 1);
    Pow2Sum(40, 3);
    Pow2Sum(43, 9);
  }

  lemma TopPower()
    ensures Pow2(63) == 0x8000_0000_0000_0000
  {
    Powers();
    MaskPowers();
    Pow2Sum(52, 9);
    Pow2Sum(61, 2);
  }

  /** Masking with 2^k - 1 keeps the k low bits. */
  lemma {:induction false} AndLowMask(x: nat, k: nat)
    ensures And(x, Pow2(k) - 1) == x % Pow2(k)
  {
    if k > 0 {
      var p := Pow2(k - 1);
      AndLowMask(x / 2, k - 1);
      DivDiv(x, p);
      assert (2 * p - 1) / 2 == p - 1 && (2 * p - 1) % 2 == 1;
    }
  }

  /** A mask whose k low bits are clear acts on the bits from k upwards. */
  lemma {:induction false} AndShiftedMask(x: nat, m: nat, k: nat)
    ensures And(x, m * Pow2(k)) == And(Shr(x, k), m) * Pow2(k)
  {
    hide And;
    if k > 0 {
      var p := Pow2(k - 1);
      var h := And(Shr(x / 2, k - 1), m);
      AndShiftedMask(x / 2, m, k - 1);
      MulDouble(m, p);
      MulDouble(h, p);
      AndDouble(x, m * p);
    }
  }

  lemma AndDouble(x: nat, y: nat)
    ensures And(x, 2 * y) == 2 * And(x / 2, y)
  {
    hide And;
    if x == 0 || y == 0 {
      AndOfZero(x, 2 * y);
      AndOfZero(x / 2, y);
    } else {
      AndHalves(x, 2 * y);
    }
  }

  lemma {:induction false} OrBelow(x: nat, y: nat, k: nat)
    requires x < Pow2(k) && y < Pow2(k)
    ensures Or(x, y) < Pow2(k)
  {
    if k > 0 {
      OrBelow(x / 2, y / 2, k - 1);
    }
  }

  lemma {:induction false} AndAtMost(x: nat, y: nat)
    ensures And(x, y) <= x
  {
    if x > 0 && y > 0 {
      AndAtMost(x / 2, y / 2);
    }
  }

  lemma OrDouble(x: nat, y: nat)
    ensures Or(2 * x, y) == 2 * Or(x, y / 2) + y % 2
  {
  }

  /** Numbers with the same bits are equal. */
  lemma {:induction false} SameBits(x: nat, y: nat)
    requires forall k: nat :: Bit(x, k) <==> Bit(y, k)
    ensures x == y
    decreases x + y
  {
    if x > 0 || y > 0 {
      assert Bit(x, 0) <==> Bit(y, 0);
      forall k: nat
        ensures Bit(x / 2, k) <==> Bit(y / 2, k)
      {
        assert Bit(x, k + 1) <==> Bit(y, k + 1);
      }
      SameBits(x / 2, y / 2);
    }
  }

  lemma {:induction false} BitOfOnes(n: nat, j: nat)
    ensures Bit(Pow2(n) - 1, j) <==> j < n
  {
    if n == 0 {
      BitOfZero(j);
    } else {
      BitOfDouble(Pow2(n - 1) - 1, 1, j);
      if j > 0 {
        BitOfOnes(n - 1, j - 1);
      }
    }
  }

  lemma BitOfDouble(x: nat, b: nat, j: nat)
    requires b <= 1
    ensures Bit(2 * x + b, j) <==> if j == 0 then b == 1 else Bit(x, j - 1)
  {
    assert (2 * x + b) / 2 == x;
  }

  lemma {:induction false} Pow2Less(k: nat, n: nat)
    requires k < n
    ensures Pow2(k) < Pow2(n)
  {
    if k > 0 {
      Pow2Less(k - 1, n - 1);
    }
  }

  /** The complement of a single bit in n bits. */
  lemma {:induction false} BitOfComplement(n: nat, k: nat, j: nat)
    requires k < n
    ensures Pow2(k) < Pow2(n)
    ensures Bit(Pow2(n) - 1 - Pow2(k), j) <==> j < n && j != k
  {
    Pow2Less(k, n);
    if k == 0 {
      BitOfDouble(Pow2(n - 1) - 1, 0, j);
      if j > 0 {
        BitOfOnes(n - 1, j - 1);
      }
    } else {
      Pow2Less(k - 1, n - 1);
      BitOfDouble(Pow2(n - 1) - 1 - Pow2(k - 1), 1, j);
      if j > 0 {
        BitOfComplement(n - 1, k - 1, j - 1);
      }
    }
  }

  // ----- Division in parts -----

  lemma DivByParts(x: nat, a: nat, b: nat)
    requires a >= 1 && b >= 1
    ensures a * b >= 1
    ensures x / a / b == x / (a * b)
    ensures x % (a * b) == a * (x / a % b) + x % a
    ensures x % (a * b) / a == x / a % b && x % (a * b) % a == x % a
  {
    var h, l := x / a, x % a;
    MulAtLeast(a, b);
    Euclid(x, a);
    Euclid(h, b);
    DivTwice(x, a, b, h, l, h / b, h % b);
  }

  lemma Euclid(x: nat, d: nat)
    requires d >= 1
    ensures x == d * (x / d) + x % d && 0 <= x / d && 0 <= x % d < d
  {
  }

  lemma DivTwice(x: nat, a: nat, b: nat, h: nat, l: nat, q: nat, r: nat)
    requires x == a * h + l && l < a && h == b * q + r && r < b && a * b >= 1
    ensures x / (a * b) == q && x % (a * b) == a * r + l
    ensures 0 <= a * r + l && (a * r + l) / a == r && (a * r + l) % a == l
  {
    TwoDigits(a, b, q, r, l);
    DivUnique(x, a * b, q, a * r + l);
    DivUnique(a * r + l, a, r, l);
  }

  lemma TwoDigits(a: nat, b: nat, q: nat, r: nat, l: nat)
    requires r < b && l < a
    ensures a * (b * q + r) + l == a * b * q + (a * r + l)
    ensures 0 <= a * r + l < a * b
  {
    assert a * (b * q + r) == a * (b * q) + a * r;
    assert a * (b * q) == a * b * q;
    assert a * b == a * r + a * (b - r);
    MulAtLeast(a, b - r);
  }

  // ----- The masks of the sources -----

  const PTE_PRESENT: nat := 1
  const PTE_ADDR_MASK: nat := 0x000F_FFFF_FFFF_F000
  const PAGE_SIZE_BIT: nat := 0x80
  const NOT_FFF: nat := 0xFFFF_FFFF_FFFF_F000
  const NOT_1FFFFF: nat := 0xFFFF_FFFF_FFE0_0000
  const NOT_1: nat := 0xFFFF_FFFF_FFFF_FFFE

  lemma PresentBit(e: nat)
    ensures And(e, PTE_PRESENT) == e % 2
  {
    Powers();
    AndLowMask(e, 1);
  }

  lemma PageSizeBit(e: nat)
    ensures And(e, PAGE_SIZE_BIT) == e / 0x80 % 2 * 0x80
  {
    hide And, Shr;
    Powers();
    AndShiftedMask(e, 1, 7);
    ShrIsDivision(e, 7);
    PresentBit(e / 0x80);
  }

  /** `e & PTE_ADDR_MASK` is the frame address in bits 12 to 51. */
  lemma AddressBits(e: nat)
    ensures And(e, PTE_ADDR_MASK) == e / 0x1000 % 0x100_0000_0000 * 0x1000
  {
    hide And, Shr;
    Powers();
    MaskPowers();
    AndShiftedMask(e, Pow2(40) - 1, 12);
    ShrIsDivision(e, 12);
    AndLowMask(e / 0x1000, 40);
  }

  /** `x & ~0xfff` */
  lemma PageBits(x: u64)
    ensures And(x, NOT_FFF) == x / 0x1000 * 0x1000
  {
    hide And, Shr;
    Powers();
    MaskPowers();
    AndShiftedMask(x, Pow2(52) - 1, 12);
    ShrIsDivision(x, 12);
    AndLowMask(x / 0x1000, 52);
    SmallModulus(x / 0x1000, 0x10_0000_0000_0000);
  }

  /** `x & ~0x1fffff` */
  lemma LargePageBits(x: u64)
    ensures And(x, NOT_1FFFFF) == x / 0x20_0000 * 0x20_0000
  {
    hide And, Shr;
    ShiftPowers();
    MaskPowers();
    AndShiftedMask(x, Pow2(43) - 1, 21);
    ShrIsDivision(x, 21);
    AndLowMask(x / 0x20_0000, 43);
    SmallModulus(x / 0x20_0000, 0x800_0000_0000);
  }

  /** `x & ~1` */
  lemma ClearPresentBit(x: u64)
    ensures And(x, NOT_1) == x - x % 2
  {
    hide And, Shr;
    TopPower();
    AndDouble(x, 0x7FFF_FFFF_FFFF_FFFF);
    AndLowMask(x / 2, 63);
    SmallModulus(x / 2, 0x8000_0000_0000_0000);
  }

  lemma SmallModulus(x: nat, m: nat)
    requires x < m
    ensures x % m == x
  {
  }

  /** `x >> k & 0x1ff` */
  lemma IndexBits(x: nat, k: nat)
    ensures And(Shr(x, k), 0x1ff) == x / Pow2(k) % 0x200
  {
    hide And, Shr;
    Powers();
    ShrIsDivision(x, k);
    AndLowMask(Shr(x, k), 9);
  }

  lemma OrStep(x: nat, y: nat)
    ensures Or(2 * x + 1, y) == 2 * Or(x, y / 2) + 1
  {
  }

  /** `a | 3` sets the two low bits. */
  lemma OrThree(a: nat)
    ensures Or(a, 3) == a / 4 * 4 + 3
  {
    OrParts(a, 3);
    OrParts(a / 2, 1);
    assert a / 2 / 2 == a / 4;
  }

  lemma OrParts(x: nat, y: nat)
    requires y % 2 == 1
    ensures Or(x, y) == 2 * Or(x / 2, y / 2) + 1
  {
  }

  lemma OrSixteen(a: nat)
    ensures Or(32 * a + 3, 16) == 32 * a + 19
  {
    hide Or;
    assert 32 * a + 3 == 2 * (16 * a + 1) + 1 && 16 * a + 1 == 2 * (8 * a) + 1;
    OrStep(16 * a + 1, 16);
    OrStep(8 * a, 8);
    OrDouble(4 * a, 4);
    OrDouble(2 * a, 2);
    OrDouble(a, 1);
    OrOfZero(a, 0);
  }
}

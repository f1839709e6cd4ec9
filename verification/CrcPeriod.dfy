/** The checksum register is multiplication by x modulo x^16 + x^12 + x^5 + 1. This module
    proves that it returns to a non-zero byte value after n steps exactly when n is a
    multiple of 32767. The proof computes a few powers of x by repeated squaring and then
    uses that 32767 = 7 * 31 * 151. */
module CrcPeriod {
  import opened Crc16

  const PERIOD: nat := 32767

  /** The polynomial 1 in the reflected representation. */
  const ONE: bv16 := 0x8000

  // ---------------------------------------------------------------- products

  function Scale(v: bv16, c: bv16): bv16 {
    c * (v & 1)
  }

  /** One step of Horner's rule on the coefficient in the low bit of v. */
  function Horner(v: bv16, c: bv16, acc: bv16): bv16 {
    Xor(Shift(acc), Scale(v, c))
  }

  function Four(v: bv16, c: bv16, acc: bv16): bv16 {
    Horner(v >> 3, c, Horner(v >> 2, c, Horner(v >> 1, c, Horner(v, c, acc))))
  }

  /** The product of v and c; bit 0 of v is its highest coefficient. */
  function Product(v: bv16, c: bv16): bv16 {
    Four(v >> 12, c, Four(v >> 8, c, Four(v >> 4, c, Four(v, c, 0))))
  }

  lemma {:induction false} TimesZero(n: nat)
    ensures Times(n, 0) == 0
  {
    if n > 0 {
      TimesZero(n - 1);
    }
  }

  lemma LowBit(v: bv16)
    ensures v & 1 == 0 || v & 1 == 1
  {
  }

  lemma ByBit(b: bv16, c: bv16)
    ensures b == 0 ==> c * b == 0
    ensures b == 1 ==> c * b == c
  {
  }

  lemma TimesScales(n: nat, v: bv16, c: bv16)
    ensures Times(n, Scale(v, c)) == Scale(v, Times(n, c))
  {
    hide Times;
    TimesZero(n);
    LowBit(v);
    var b := v & 1;
    ByBit(b, c);
    ByBit(b, Times(n, c));
    assert Scale(v, c) == c * b && Scale(v, Times(n, c)) == Times(n, c) * b;
  }

  lemma TimesCommutesWithShift(n: nat, v: bv16)
    ensures Times(n, Shift(v)) == Shift(Times(n, v))
  {
    hide Shift;
    TimesAdds(n, 1, v);
    assert Times(1, v) == Shift(Times(0, v));
  }

  lemma TimesOfHorner(n: nat, v: bv16, c: bv16, acc: bv16)
    ensures Times(n, Horner(v, c, acc)) == Horner(v, Times(n, c), Times(n, acc))
  {
    hide Shift, Scale, Times, Xor;
    TimesLinear(n, Shift(acc), Scale(v, c));
    TimesCommutesWithShift(n, acc);
    TimesScales(n, v, c);
  }

  lemma TimesOfFour(n: nat, v: bv16, c: bv16, acc: bv16)
    ensures Times(n, Four(v, c, acc)) == Four(v, Times(n, c), Times(n, acc))
  {
    hide Horner, Times;
    var a1 := Horner(v, c, acc);
    var a2 := Horner(v >> 1, c, a1);
    var a3 := Horner(v >> 2, c, a2);
    TimesOfHorner(n, v, c, acc);
    TimesOfHorner(n, v >> 1, c, a1);
    TimesOfHorner(n, v >> 2, c, a2);
    TimesOfHorner(n, v >> 3, c, a3);
  }

  /** Shifting a product shifts one factor. */
  lemma TimesOfProduct(n: nat, v: bv16, c: bv16)
    ensures Times(n, Product(v, c)) == Product(v, Times(n, c))
  {
    hide Four, Times;
    TimesZero(n);
    var a1 := Four(v, c, 0);
    var a2 := Four(v >> 4, c, a1);
    var a3 := Four(v >> 8, c, a2);
    TimesOfFour(n, v, c, 0);
    TimesOfFour(n, v >> 4, c, a1);
    TimesOfFour(n, v >> 8, c, a2);
    TimesOfFour(n, v >> 12, c, a3);
  }

  lemma ProductWithOne(v: bv16)
    ensures Product(v, ONE) == v
  {
  }

  /** n register steps multiply by the n-th power of x. */
  lemma TimesIsProduct(n: nat, v: bv16)
    ensures Times(n, v) == Product(v, Times(n, ONE))
  {
    hide Times, Product;
    ProductWithOne(v);
    TimesOfProduct(n, v, ONE);
  }

  // ---------------------------------------------------------------- powers of x

  lemma FirstPower()
    ensures Times(1, ONE) == 0x4000
  {
    assert Times(0, ONE) == ONE;
  }

  /** Multiplies two known powers. */
  lemma Multiply(m: nat, n: nat, a: bv16, b: bv16, c: bv16)
    requires Times(m, ONE) == a && Times(n, ONE) == b && Product(b, a) == c
    ensures Times(m + n, ONE) == c
  {
    hide Times, Product;
    TimesAdds(m, n, ONE);
    TimesIsProduct(m, b);
  }

  lemma Square(n: nat, a: bv16, c: bv16)
    requires Times(n, ONE) == a && Product(a, a) == c
    ensures Times(2 * n, ONE) == c
  {
    hide Times, Product;
    Multiply(n, n, a, a, c);
  }

  /** x to the powers of two, by repeated squaring. */
  lemma PowersOfTwo()
    ensures Times(1, ONE) == 0x4000
    ensures Times(2, ONE) == 0x2000
    ensures Times(4, ONE) == 0x0800
    ensures Times(8, ONE) == 0x0080
    ensures Times(16, ONE) == 0x8408
    ensures Times(32, ONE) == 0x0cec
    ensures Times(64, ONE) == 0x861d
    ensures Times(128, ONE) == 0x3f75
    ensures Times(256, ONE) == 0x9471
    ensures Times(512, ONE) == 0x3fc8
    ensures Times(1024, ONE) == 0x236c
    ensures Times(2048, ONE) == 0x0abf
    ensures Times(4096, ONE) == 0x7955
    ensures Times(8192, ONE) == 0x3811
    ensures Times(16384, ONE) == 0x1a22
    ensures Times(32768, ONE) == 0x4000
  {
    hide Times;
    FirstPower();
    Square(1, 0x4000, 0x2000);
    Square(2, 0x2000, 0x0800);
    Square(4, 0x0800, 0x0080);
    Square(8, 0x0080, 0x8408);
    Square(16, 0x8408, 0x0cec);
    Square(32, 0x0cec, 0x861d);
    Square(64, 0x861d, 0x3f75);
    Square(128, 0x3f75, 0x9471);
    Square(256, 0x9471, 0x3fc8);
    Square(512, 0x3fc8, 0x236c);
    Square(1024, 0x236c, 0x0abf);
    Square(2048, 0x0abf, 0x7955);
    Square(4096, 0x7955, 0x3811);
    Square(8192, 0x3811, 0x1a22);
    Square(16384, 0x1a22, 0x4000);
  }

  lemma ShiftOfTimes(n: nat, v: bv16)
    ensures Times(n + 1, v) == Shift(Times(n, v))
    ensures Times(0, v) == v
  {
  }

  lemma PeriodIsFull()
    ensures Times(PERIOD, ONE) == ONE
  {
    hide Times;
    PowersOfTwo();
    TimesCommutesWithShift(PERIOD, ONE);
    TimesAdds(1, PERIOD, ONE);
    FirstPower();
    ShiftOfTimes(PERIOD, ONE);
    ShiftOfTimes(0, ONE);
    ShiftInjective(Times(PERIOD, ONE), ONE);
  }

  /** The powers that would be one if the period were 32767 / 7, 32767 / 31 or 32767 / 151. */
  lemma SmallerPowers()
    ensures Times(4681, ONE) == 0x4234
    ensures Times(1057, ONE) == 0xf54f
    ensures Times(217, ONE) == 0xc712
  {
    hide Times;
    PowersOfTwo();
    Multiply(8, 1, 0x0080, 0x4000, 0x0040);
    Multiply(64, 9, 0x861d, 0x0040, 0x65f1);
    Multiply(512, 73, 0x3fc8, 0x65f1, 0x00a2);
    Multiply(4096, 585, 0x7955, 0x00a2, 0x4234);
    Multiply(32, 1, 0x0cec, 0x4000, 0x0676);
    Multiply(1024, 33, 0x236c, 0x0676, 0xf54f);
    Multiply(16, 9, 0x8408, 0x0040, 0x4666);
    Multiply(64, 25, 0x861d, 0x4666, 0x517b);
    Multiply(128, 89, 0x3f75, 0x517b, 0xc712);
  }

  lemma NotFixed7(d: bv16)
    requires d < 0x100 && Product(d, 0x4234) == d
    ensures d == 0
  {
  }

  lemma NotFixed31(d: bv16)
    requires d < 0x100 && Product(d, 0xf54f) == d
    ensures d == 0
  {
  }

  lemma NotFixed151(d: bv16)
    requires d < 0x100 && Product(d, 0xc712) == d
    ensures d == 0
  {
  }

  /** None of these powers fixes a non-zero byte value. */
  lemma SmallerPowersMove(d: bv16)
    requires 0 < d < 0x100
    ensures Times(4681, d) != d && Times(1057, d) != d && Times(217, d) != d
  {
    hide Times, Product;
    SmallerPowers();
    TimesIsProduct(4681, d);
    TimesIsProduct(1057, d);
    TimesIsProduct(217, d);
    if Product(d, 0x4234) == d {
      NotFixed7(d);
    }
    if Product(d, 0xf54f) == d {
      NotFixed31(d);
    }
    if Product(d, 0xc712) == d {
      NotFixed151(d);
    }
  }

  // ---------------------------------------------------------------- the period

  lemma {:induction false} TimesPeriods(k: nat, v: bv16)
    ensures Times(k * PERIOD, v) == v
  {
    hide Times;
    if k == 0 {
      ShiftOfTimes(0, v);
    } else {
      TimesPeriods(k - 1, v);
      TimesAdds(PERIOD, (k - 1) * PERIOD, v);
      TimesIsProduct(PERIOD, v);
      PeriodIsFull();
      ProductWithOne(v);
    }
  }

  lemma {:induction false} FixedByMultiples(m: nat, n: nat, v: bv16)
    requires Times(n, v) == v
    ensures Times(m * n, v) == v
  {
    hide Times;
    if m == 0 {
      ShiftOfTimes(0, v);
    } else {
      FixedByMultiples(m - 1, n, v);
      TimesAdds(n, (m - 1) * n, v);
      assert n + (m - 1) * n == m * n;
    }
  }

  lemma SumOfMultiples(g: nat, q: nat, u: nat, v: nat)
    ensures q * (g * u) + g * v == g * (q * u + v)
  {
    assert q * (g * u) == g * (q * u);
  }

  lemma CombinationNext(b: nat, q: nat, r: nat, x: int, y: int)
    ensures y * (q * b + r) + (x - q * y) * b == x * b + y * r
  {
    assert y * (q * b) == (q * y) * b;
  }

  /** Integer combinations of a and b reach a common divisor. */
  lemma {:induction false} Bezout(a: nat, b: nat) returns (g: nat, x: int, y: int)
    requires a > 0
    ensures g > 0 && x * a + y * b == g && (exists u, v :: a == g * u && b == g * v)
    decreases b
  {
    if b == 0 {
      g, x, y := a, 1, 0;
      assert a == g * 1 && b == g * 0;
    } else {
      var q, r := a / b, a % b;
      var x', y';
      g, x', y' := Bezout(b, r);
      x, y := y', x' - q * y';
      assert a == q * b + r;
      CombinationNext(b, q, r, x', y');
      var u, v :| b == g * u && r == g * v;
      SumOfMultiples(g, q, u, v);
      assert a == g * (q * u + v);
    }
  }

  lemma ProductAtLeast(g: nat, v: nat)
    requires g >= 13 && v >= 13
    ensures g * v >= 169
  {
    assert g * v == 13 * v + (g - 13) * v;
  }

  /** 7, 31 and 151 are prime: none has a divisor up to its square root. */
  lemma PrimeFactor(p: nat, g: nat, v: nat)
    requires p == 7 || p == 31 || p == 151
    requires p == g * v
    ensures g == 1 || g == p
  {
    if g <= 12 {
      assert g == 0 || g == 1 || g == 2 || g == 3 || g == 4 || g == 5 || g == 6 || g == 7 || g == 8 || g == 9
        || g == 10 || g == 11 || g == 12;
    } else {
      if v > 12 {
        ProductAtLeast(g, v);
        assert false;
      }
      assert v == 0 || v == 1 || v == 2 || v == 3 || v == 4 || v == 5 || v == 6 || v == 7 || v == 8 || v == 9
        || v == 10 || v == 11 || v == 12;
    }
  }

  lemma MultiplesOf7(u: nat)
    ensures (7 * u) % 7 == 0
  {
  }

  lemma MultiplesOf31(u: nat)
    ensures (31 * u) % 31 == 0
  {
  }

  lemma MultiplesOf151(u: nat)
    ensures (151 * u) % 151 == 0
  {
  }

  lemma Multiples(n: nat, p: nat, u: nat)
    requires p == 7 || p == 31 || p == 151
    requires n == p * u
    ensures n % p == 0
  {
    match p
    case 7 => MultiplesOf7(u);
    case 31 => MultiplesOf31(u);
    case _ => MultiplesOf151(u);
  }

  lemma Combine(n: nat, p: nat, q: nat, x: int, y: int, m: int, k: int)
    requires p * q == PERIOD && x * n + y * p == 1 && m == x * q - PERIOD * k
    ensures m * n == q + PERIOD * -(y + n * k)
  {
    assert m * n == (x * n) * q - PERIOD * (k * n);
    assert (x * n) * q == (1 - y * p) * q;
    assert (1 - y * p) * q == q - y * (p * q);
  }

  /** If n steps fix v and the prime factor p of the period does not divide n, then so do
      PERIOD / p steps. */
  lemma Descend(p: nat, q: nat, n: nat, v: bv16)
    requires p == 7 || p == 31 || p == 151
    requires p * q == PERIOD
    requires n > 0 && n % p != 0
    requires Times(n, v) == v
    ensures Times(q, v) == v
  {
    hide Times;
    var g, x, y := Bezout(n, p);
    var u, w :| n == g * u && p == g * w;
    PrimeFactor(p, g, w);
    if g == p {
      Multiples(n, p, u);
      assert false;
    }
    var m := (x * q) % PERIOD;
    var k := (x * q) / PERIOD;
    var j := -(y + n * k);
    Combine(n, p, q, x, y, m, k);
    assert j >= 0;
    FixedByMultiples(m, n, v);
    TimesAdds(q, j * PERIOD, v);
    TimesPeriods(j, v);
  }

  lemma CommonMultiple(n: nat, a: nat, b: nat, c: nat) returns (f: int)
    requires n == 7 * a && n == 31 * b && n == 151 * c
    ensures n == 32767 * f
  {
    var e := 9 * b - 2 * a;
    assert n == 217 * e;
    f := 23 * e - 16 * c;
  }

  lemma PeriodMultiple(f: int)
    ensures 32767 * f % PERIOD == 0
  {
  }

  lemma FactorsCover(n: nat)
    requires n % 7 == 0 && n % 31 == 0 && n % 151 == 0
    ensures n % PERIOD == 0
  {
    var a, b, c := n / 7, n / 31, n / 151;
    var f := CommonMultiple(n, a, b, c);
    PeriodMultiple(f);
  }

  /** n register steps fix a non-zero byte value exactly when the period divides n. */
  lemma PeriodOnBytes(n: nat, d: bv16)
    requires 0 < d < 0x100
    ensures Times(n, d) == d <==> n % PERIOD == 0
  {
    hide Times;
    if n % PERIOD == 0 {
      TimesPeriods(n / PERIOD, d);
      assert n == (n / PERIOD) * PERIOD;
    } else if Times(n, d) == d {
      SmallerPowersMove(d);
      if n % 7 != 0 {
        Descend(7, 4681, n, d);
      } else if n % 31 != 0 {
        Descend(31, 1057, n, d);
      } else if n % 151 != 0 {
        Descend(151, 217, n, d);
      } else {
        FactorsCover(n);
      }
    }
  }
}

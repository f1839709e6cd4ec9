/** The 16-bit checksum of scripts/smc_decode/simplecrypt.py: a reflected CRC with
    polynomial 0x8408, computed there one nibble at a time from a 16-entry table.

    The module proves that the table form computes the bit-by-bit CRC, and that the CRC
    separates equal-length inputs which differ within two adjacent bytes. */
module Crc16 {

  // ---------------------------------------------------------------- the table form

  /** CRC_TABLE, indexed by the low nibble. */
  function Table(i: bv16): bv16 {
    if i == 0 then 0x0000 else if i == 1 then 0x1081 else if i == 2 then 0x2102 else if i == 3 then 0x3183
    else if i == 4 then 0x4204 else if i == 5 then 0x5285 else if i == 6 then 0x6306 else if i == 7 then 0x7387
    else if i == 8 then 0x8408 else if i == 9 then 0x9489 else if i == 10 then 0xa50a else if i == 11 then 0xb58b
    else if i == 12 then 0xc60c else if i == 13 then 0xd68d else if i == 14 then 0xe70e else 0xf78f
  }

  /** Addition in the register, named so that proofs can use it without looking at bits. */
  function Xor(a: bv16, b: bv16): bv16 {
    a ^ b
  }

  function NibbleStep(crc: bv16, x: bv16): bv16 {
    Xor((crc >> 4) & 0x0fff, Table(Xor(crc, x) & 15))
  }

  // ---------------------------------------------------------------- the reference

  /** One step of the reflected shift register: the polynomial 0x8408 is added exactly
      when the bit that falls out is one. */
  function Shift(v: bv16): bv16 {
    (v >> 1) ^ (0x8408 * (v & 1))
  }

  /** Feeds one message bit, least significant first. */
  function BitStep(crc: bv16, bit: bv16): bv16 {
    Shift(crc ^ (bit & 1))
  }

  function ByteStep(crc: bv16, b: bv8): bv16 {
    var x := b as bv16;
    var c4 := BitStep(BitStep(BitStep(BitStep(crc, x), x >> 1), x >> 2), x >> 3);
    BitStep(BitStep(BitStep(BitStep(c4, x >> 4), x >> 5), x >> 6), x >> 7)
  }

  /** The register after a whole message, started at `crc`. */
  function Fold(crc: bv16, buf: seq<bv8>): bv16
    decreases |buf|
  {
    if buf == [] then crc else Fold(ByteStep(crc, buf[0]), buf[1..])
  }

  /** The bit-by-bit CRC: initial value 0xFFFF and final complement. */
  function Reference(buf: seq<bv8>): bv16 {
    !Fold(0xffff, buf)
  }

  // ---------------------------------------------------------------- the register as a linear map

  /** n register steps without input. */
  function Times(n: nat, v: bv16): bv16 {
    if n == 0 then v else Shift(Times(n - 1, v))
  }

  lemma ShiftInjective(a: bv16, b: bv16)
    ensures Shift(a) == Shift(b) ==> a == b
  {
  }

  lemma ShiftLinear(a: bv16, b: bv16)
    ensures Shift(Xor(a, b)) == Xor(Shift(a), Shift(b))
  {
  }

  lemma {:induction false} TimesLinear(n: nat, a: bv16, b: bv16)
    ensures Times(n, Xor(a, b)) == Xor(Times(n, a), Times(n, b))
  {
    hide Shift, Xor;
    if n > 0 {
      TimesLinear(n - 1, a, b);
      ShiftLinear(Times(n - 1, a), Times(n - 1, b));
    }
  }

  lemma {:induction false} TimesInjective(n: nat, a: bv16, b: bv16)
    requires Times(n, a) == Times(n, b)
    ensures a == b
  {
    hide Shift;
    if n > 0 {
      ShiftInjective(Times(n - 1, a), Times(n - 1, b));
      TimesInjective(n - 1, a, b);
    }
  }

  lemma {:induction false} TimesAdds(m: nat, n: nat, v: bv16)
    ensures Times(m + n, v) == Times(m, Times(n, v))
  {
    hide Shift;
    if m > 0 {
      TimesAdds(m - 1, n, v);
    }
  }

  /** The eight steps of a byte, written out. */
  lemma TimesEight(v: bv16)
    ensures Times(8, v) == Shift(Shift(Shift(Shift(Shift(Shift(Shift(Shift(v))))))))
  {
    hide Shift;
    var a := Shift(Shift(Shift(Shift(v))));
    assert Times(4, v) == a by {
      assert Times(1, v) == Shift(v);
      assert Times(2, v) == Shift(Shift(v));
    }
    assert Times(6, v) == Shift(Shift(a));
  }

  /** Taking in the low bit of y commutes with having y in the register. */
  lemma Absorb(crc: bv16, y: bv16)
    ensures Xor(BitStep(crc, y), y >> 1) == Shift(Xor(crc, y))
  {
  }

  lemma Halves(x: bv16)
    ensures (x >> 1) >> 1 == x >> 2 && (x >> 2) >> 1 == x >> 3 && (x >> 3) >> 1 == x >> 4
    ensures (x >> 4) >> 1 == x >> 5 && (x >> 5) >> 1 == x >> 6 && (x >> 6) >> 1 == x >> 7
    ensures (x >> 7) >> 1 == x >> 8 && (x < 0x100 ==> x >> 8 == 0)
  {
  }

  lemma XorZero(a: bv16)
    ensures Xor(a, 0) == a
  {
  }

  /** A zero bit falls out without a trace. */
  lemma ShiftEven(w: bv16)
    requires w & 1 == 0
    ensures Shift(w) == w >> 1
  {
  }

  lemma UpperBits(v: bv16)
    ensures var w := v & 0xfff0;
            && w & 1 == 0 && (w >> 1) & 1 == 0 && (w >> 2) & 1 == 0 && (w >> 3) & 1 == 0
            && (w >> 1) >> 1 == w >> 2 && (w >> 2) >> 1 == w >> 3 && (w >> 3) >> 1 == v >> 4
  {
  }

  lemma FourShiftsOfUpper(v: bv16)
    ensures Shift(Shift(Shift(Shift(v & 0xfff0)))) == v >> 4
  {
    hide Shift;
    var w := v & 0xfff0;
    UpperBits(v);
    ShiftEven(w);
    ShiftEven(w >> 1);
    ShiftEven(w >> 2);
    ShiftEven(w >> 3);
  }

  /** The table holds four shifts of every nibble. */
  lemma TableIsFourShifts(i: bv16)
    requires i < 16
    ensures Shift(Shift(Shift(Shift(i)))) == Table(i)
  {
    if i < 8 {
      assert i == 0 || i == 1 || i == 2 || i == 3 || i == 4 || i == 5 || i == 6 || i == 7;
    } else {
      assert i == 8 || i == 9 || i == 10 || i == 11 || i == 12 || i == 13 || i == 14 || i == 15;
    }
  }

  lemma NibbleSplit(v: bv16)
    ensures v == Xor(v & 0xfff0, v & 15) && v & 15 < 16
  {
  }

  lemma FourShifts(v: bv16)
    ensures Shift(Shift(Shift(Shift(v)))) == Xor(v >> 4, Table(v & 15))
  {
    hide Shift, Xor, Table;
    var a, b := v & 0xfff0, v & 15;
    NibbleSplit(v);
    ShiftLinear(a, b);
    ShiftLinear(Shift(a), Shift(b));
    ShiftLinear(Shift(Shift(a)), Shift(Shift(b)));
    ShiftLinear(Shift(Shift(Shift(a))), Shift(Shift(Shift(b))));
    FourShiftsOfUpper(v);
    TableIsFourShifts(b);
  }

  function Half(x: bv16): bv16 {
    x >> 1
  }

  lemma HalvesOf(x: bv16)
    ensures Half(x) == x >> 1 && Half(x >> 1) == x >> 2 && Half(x >> 2) == x >> 3 && Half(x >> 3) == x >> 4
  {
  }

  lemma AbsorbHalf(crc: bv16, y: bv16)
    ensures Xor(BitStep(crc, y), Half(y)) == Shift(Xor(crc, y))
  {
    hide Shift, BitStep, Xor;
    Absorb(crc, y);
  }

  lemma FourAbsorbed(crc: bv16, x: bv16, x1: bv16, x2: bv16, x3: bv16, x4: bv16)
    requires x1 == Half(x) && x2 == Half(x1) && x3 == Half(x2) && x4 == Half(x3)
    ensures Xor(BitStep(BitStep(BitStep(BitStep(crc, x), x1), x2), x3), x4) == Shift(Shift(Shift(Shift(Xor(crc, x)))))
  {
    hide Shift, BitStep, Xor, Half;
    AbsorbHalf(crc, x);
    AbsorbHalf(BitStep(crc, x), x1);
    AbsorbHalf(BitStep(BitStep(crc, x), x1), x2);
    AbsorbHalf(BitStep(BitStep(BitStep(crc, x), x1), x2), x3);
  }

  lemma XorTwice(a: bv16, b: bv16)
    ensures Xor(Xor(a, b), b) == a
  {
  }

  lemma XorAssociates(a: bv16, b: bv16, c: bv16)
    ensures Xor(Xor(a, b), c) == Xor(a, Xor(b, c))
    ensures Xor(a, b) == Xor(b, a)
  {
  }

  lemma NibbleAlgebra(c: bv16, u: bv16, t: bv16, x: bv16)
    requires Xor(c, x) == Xor(u, t)
    ensures c == Xor(Xor(u, x), t)
  {
    hide Xor;
    XorTwice(c, x);
    XorAssociates(u, t, x);
    XorAssociates(t, x, u);
    XorAssociates(u, x, t);
  }

  lemma UpperNibbles(crc: bv16, x: bv16)
    ensures (crc >> 4) & 0x0fff == Xor(Xor(crc, x) >> 4, x >> 4)
  {
  }

  /** The table step on the low nibble is four bit steps. */
  lemma NibbleIsFourBits(crc: bv16, x: bv16)
    ensures NibbleStep(crc, x) == BitStep(BitStep(BitStep(BitStep(crc, x), x >> 1), x >> 2), x >> 3)
  {
    hide Shift, BitStep, Xor, Table;
    HalvesOf(x);
    FourAbsorbed(crc, x, x >> 1, x >> 2, x >> 3, x >> 4);
    var v := Xor(crc, x);
    FourShifts(v);
    UpperNibbles(crc, x);
    NibbleAlgebra(BitStep(BitStep(BitStep(BitStep(crc, x), x >> 1), x >> 2), x >> 3), v >> 4, Table(v & 15), x >> 4);
  }

  /** A byte step adds the byte to the register and then runs eight steps. */
  lemma ByteStepIsTimesEight(crc: bv16, b: bv8)
    ensures ByteStep(crc, b) == Times(8, Xor(crc, b as bv16))
  {
    hide Shift, BitStep, Xor, Times;
    var x := b as bv16;
    Halves(x);
    var c1 := BitStep(crc, x);
    var c2 := BitStep(c1, x >> 1);
    var c3 := BitStep(c2, x >> 2);
    var c4 := BitStep(c3, x >> 3);
    var c5 := BitStep(c4, x >> 4);
    var c6 := BitStep(c5, x >> 5);
    var c7 := BitStep(c6, x >> 6);
    var c8 := BitStep(c7, x >> 7);
    Absorb(crc, x);
    Absorb(c1, x >> 1);
    Absorb(c2, x >> 2);
    Absorb(c3, x >> 3);
    Absorb(c4, x >> 4);
    Absorb(c5, x >> 5);
    Absorb(c6, x >> 6);
    Absorb(c7, x >> 7);
    XorZero(c8);
    TimesEight(Xor(crc, x));
  }

  // ---------------------------------------------------------------- the table form is the reference

  lemma TwoNibblesAreAByte(crc: bv16, b: bv8)
    ensures NibbleStep(NibbleStep(crc, b as bv16), (b as bv16) >> 4) == ByteStep(crc, b)
  {
    var x := b as bv16;
    var y := x >> 4;
    NibbleIsFourBits(crc, x);
    NibbleIsFourBits(NibbleStep(crc, x), y);
    assert y >> 1 == x >> 5 && y >> 2 == x >> 6 && y >> 3 == x >> 7;
  }

  lemma {:induction false} FoldAppend(crc: bv16, a: seq<bv8>, b: seq<bv8>)
    ensures Fold(crc, a + b) == Fold(Fold(crc, a), b)
    decreases |a|
  {
    if a == [] {
      assert a + b == b;
    } else {
      assert (a + b)[1..] == a[1..] + b;
      FoldAppend(ByteStep(crc, a[0]), a[1..], b);
    }
  }

  /** checksum(): the nibble-table loop computes the bit-by-bit CRC of any byte string. */
  method Checksum(buf: seq<bv8>) returns (sum: bv16)
    ensures sum == Reference(buf)
  {
    hide NibbleStep, ByteStep;
    var crc: bv16 := 0xffff;
    for i := 0 to |buf|
      invariant crc == Fold(0xffff, buf[..i])
    {
      var x := buf[i] as bv16;
      ghost var before := crc;
      crc := NibbleStep(crc, x);
      x := x >> 4;
      crc := NibbleStep(crc, x);
      TwoNibblesAreAByte(before, buf[i]);
      assert buf[..i + 1] == buf[..i] + [buf[i]];
      FoldAppend(0xffff, buf[..i], [buf[i]]);
    }
    assert buf[..|buf|] == buf;
    sum := !crc;
  }

  // ---------------------------------------------------------------- what the CRC separates

  lemma XorCancels(a: bv16, b: bv16, c: bv16)
    ensures Xor(a, b) == Xor(a, c) ==> b == c
    ensures Xor(b, a) == Xor(c, a) ==> b == c
    ensures Xor(Xor(a, b), Xor(a, c)) == Xor(b, c)
  {
    hide Xor;
    XorAssociates(a, b, 0);
    XorAssociates(a, c, 0);
    XorTwice(b, a);
    XorTwice(c, a);
    XorAssociates(b, a, Xor(a, c));
    XorAssociates(a, Xor(a, c), 0);
    XorAssociates(c, a, 0);
  }

  lemma XorOfBytes(a: bv8, b: bv8)
    ensures Xor(a as bv16, b as bv16) < 0x100
    ensures Xor(a as bv16, b as bv16) == 0 ==> a == b
  {
  }

  /** A register and a byte that differ only in the register, or only in the byte. */
  lemma StepInjective(c: bv16, a: bv8, d: bv16, b: bv8)
    requires c == d || a == b
    requires ByteStep(c, a) == ByteStep(d, b)
    ensures c == d && a == b
  {
    hide Shift, ByteStep, Times, Xor;
    ByteStepIsTimesEight(c, a);
    ByteStepIsTimesEight(d, b);
    TimesInjective(8, Xor(c, a as bv16), Xor(d, b as bv16));
    XorCancels(c, a as bv16, b as bv16);
    XorCancels(a as bv16, c, d);
    XorOfBytes(a, b);
    XorCancels(a as bv16, a as bv16, b as bv16);
  }

  /** Equal tails keep different registers different. */
  lemma {:induction false} FoldKeepsDifference(c: bv16, d: bv16, tail: seq<bv8>)
    requires c != d
    ensures Fold(c, tail) != Fold(d, tail)
    decreases |tail|
  {
    hide ByteStep;
    if tail != [] {
      var b := tail[0];
      if ByteStep(c, b) == ByteStep(d, b) {
        StepInjective(c, b, d, b);
      }
      FoldKeepsDifference(ByteStep(c, b), ByteStep(d, b), tail[1..]);
    }
  }

  /** One zero byte moves every non-zero byte value out of the low half of the register. */
  lemma ByteLeavesLowHalf(d: bv16)
    requires d < 0x100 && Times(8, d) < 0x100
    ensures d == 0
  {
    TimesEight(d);
  }

  lemma XorWithSelf(a: bv16)
    ensures Xor(a, a) == 0 && Xor(0, a) == a
  {
  }

  lemma XorSwaps(a: bv16, b: bv16, c: bv16, d: bv16)
    ensures Xor(Xor(a, b), Xor(c, d)) == Xor(Xor(a, c), Xor(b, d))
  {
    hide Xor;
    XorAssociates(a, b, Xor(c, d));
    XorAssociates(b, c, d);
    XorAssociates(c, b, d);
    XorAssociates(a, c, Xor(b, d));
  }

  lemma XorSelf(a: bv16, b: bv16)
    ensures Xor(a, b) == 0 <==> a == b
  {
    hide Xor;
    XorWithSelf(a);
    XorWithSelf(b);
    XorTwice(a, b);
  }

  lemma XorMoves(a: bv16, b: bv16, c: bv16, d: bv16)
    requires Xor(a, b) == Xor(c, d)
    ensures Xor(a, c) == Xor(b, d)
  {
    hide Xor;
    XorSelf(Xor(a, b), Xor(c, d));
    XorSwaps(a, b, c, d);
    XorSelf(Xor(a, c), Xor(b, d));
  }

  /** Two bytes enter the 16-bit register without overlap, so they can be told apart. */
  lemma TwoBytesSeparate(crc: bv16, a: bv8, b: bv8, a': bv8, b': bv8)
    requires ByteStep(ByteStep(crc, a), b) == ByteStep(ByteStep(crc, a'), b')
    ensures a == a' && b == b'
  {
    hide Shift, ByteStep, Times, Xor;
    var x, x', y, y' := a as bv16, a' as bv16, b as bv16, b' as bv16;
    var c, c' := ByteStep(crc, a), ByteStep(crc, a');
    ByteStepIsTimesEight(c, b);
    ByteStepIsTimesEight(c', b');
    TimesInjective(8, Xor(c, y), Xor(c', y'));
    XorMoves(c, y, c', y');
    ByteStepIsTimesEight(crc, a);
    ByteStepIsTimesEight(crc, a');
    TimesLinear(8, Xor(crc, x), Xor(crc, x'));
    XorCancels(crc, x, x');
    XorOfBytes(a, a');
    XorOfBytes(b, b');
    ByteLeavesLowHalf(Xor(x, x'));
    XorCancels(c, y, y');
  }

  lemma FoldOne(c: bv16, a: bv8)
    ensures Fold(c, [a]) == ByteStep(c, a)
  {
    assert Fold(ByteStep(c, a), []) == ByteStep(c, a);
    assert [a][1..] == [];
  }

  lemma FoldPair(c: bv16, a: bv8, b: bv8)
    ensures Fold(c, [a, b]) == ByteStep(ByteStep(c, a), b)
  {
    assert [a, b][1..] == [b];
    FoldOne(ByteStep(c, a), b);
  }

  /** From one register, windows of one or two bytes are told apart. */
  lemma WindowSeparates(c: bv16, u: seq<bv8>, v: seq<bv8>)
    requires |u| == |v| && 1 <= |u| <= 2 && u != v
    ensures Fold(c, u) != Fold(c, v)
  {
    hide ByteStep;
    if |u| == 2 {
      assert u == [u[0], u[1]] && v == [v[0], v[1]];
      FoldPair(c, u[0], u[1]);
      FoldPair(c, v[0], v[1]);
      if Fold(c, u) == Fold(c, v) {
        TwoBytesSeparate(c, u[0], u[1], v[0], v[1]);
      }
    } else {
      assert u == [u[0]] && v == [v[0]];
      FoldOne(c, u[0]);
      FoldOne(c, v[0]);
      if Fold(c, u) == Fold(c, v) {
        StepInjective(c, u[0], c, v[0]);
      }
    }
  }

  lemma ComplementInjective(a: bv16, b: bv16)
    ensures !a == !b ==> a == b
  {
  }

  /** Two equal-length inputs that differ only within positions p and p+1 have different
      checksums, whatever surrounds the difference. */
  lemma BurstDetected(x: seq<bv8>, y: seq<bv8>, p: nat)
    requires |x| == |y| && p < |x| && x != y
    requires forall i :: 0 <= i < |x| && i != p && i != p + 1 ==> x[i] == y[i]
    ensures Reference(x) != Reference(y)
  {
    hide Fold;
    var e := if p + 2 <= |x| then p + 2 else p + 1;
    var head, tail, u, v := x[..p], x[e..], x[p..e], y[p..e];
    assert y[..p] == head && y[e..] == tail;
    assert x == head + u + tail && y == head + v + tail;
    var c := Fold(0xffff, head);
    FoldAppend(0xffff, head, u);
    FoldAppend(0xffff, head, v);
    FoldAppend(0xffff, head + u, tail);
    FoldAppend(0xffff, head + v, tail);
    WindowSeparates(c, u, v);
    FoldKeepsDifference(Fold(c, u), Fold(c, v), tail);
    ComplementInjective(Fold(0xffff, x), Fold(0xffff, y));
  }

  // ---------------------------------------------------------------- known values

  lemma ShiftsOf0xFF()
    ensures Times(8, Xor(Times(8, 0xFF), 0xFF)) == 0xF0B8
  {
    TimesEight(0xFF);
    TimesEight(Xor(Times(8, 0xFF), 0xFF));
  }

  lemma UpperHalfFalls(h: bv16)
    requires h < 0x100
    ensures Times(8, h << 8) == h
  {
    TimesEight(h << 8);
  }

  lemma SplitComplement(c: bv16, lo: bv8, hi: bv8)
    requires lo == (!c & 0xFF) as bv8 && hi == (!c >> 8) as bv8
    ensures Xor(c, lo as bv16) == Xor(0xFF, (c >> 8) << 8) && c >> 8 < 0x100
    ensures Xor(c >> 8, hi as bv16) == 0xFF
  {
  }

  lemma ByteAfterByte(c: bv16, lo: bv8, hi: bv8, up: bv16, h: bv16)
    requires Xor(c, lo as bv16) == Xor(0xFF, up) && Times(8, up) == h && Xor(h, hi as bv16) == 0xFF
    ensures ByteStep(ByteStep(c, lo), hi) == 0xF0B8
  {
    hide *;
    ByteStepIsTimesEight(c, lo);
    TimesLinear(8, 0xFF, up);
    ByteStepIsTimesEight(ByteStep(c, lo), hi);
    XorAssociates(Times(8, 0xFF), h, hi as bv16);
    ShiftsOf0xFF();
  }

  lemma GoodBytes(c: bv16, lo: bv8, hi: bv8)
    requires lo == (!c & 0xFF) as bv8 && hi == (!c >> 8) as bv8
    ensures ByteStep(ByteStep(c, lo), hi) == 0xF0B8
  {
    hide *;
    SplitComplement(c, lo, hi);
    UpperHalfFalls(c >> 8);
    ByteAfterByte(c, lo, hi, (c >> 8) << 8, c >> 8);
  }

  /** The register ends in 0xF0B8 when the checksum, low byte first, follows the message. */
  lemma GoodFinalValue(buf: seq<bv8>)
    ensures var s := Reference(buf); Fold(0xffff, buf + [(s & 0xFF) as bv8, (s >> 8) as bv8]) == 0xF0B8
  {
    var c := Fold(0xffff, buf);
    var lo, hi := (!c & 0xFF) as bv8, (!c >> 8) as bv8;
    hide ByteStep, Fold;
    FoldAppend(0xffff, buf, [lo, hi]);
    FoldPair(c, lo, hi);
    GoodBytes(c, lo, hi);
  }

  /** The checksum of the digits 1 to 9 in ASCII. */
  lemma CheckValue()
    ensures Reference([0x31, 0x32, 0x33, 0x34, 0x35, 0x36, 0x37, 0x38, 0x39]) == 0x906E
  {
  }
}

/** More errors the CRC detects: an odd number of flipped bits anywhere in the frame, and bursts of up to
    16 bits that are not aligned to bytes. */
module CrcErrors {
  import opened Crc16

  function Halves(c: Word, n: nat): Word { if n == 0 then c else Half(Halves(c, n - 1)) }

  lemma {:induction false} HalvesInside(c: Word, n: nat)
    ensures Halves(Half(c), n) == Halves(c, n + 1)
  {
    hide Half;
    if n > 0 { HalvesInside(c, n - 1); }
  }

  // ----- an odd number of flipped bits -------------------------------------

  /** How many of the low n bits are set. */
  function Ones(c: Word, n: nat): nat {
    if n == 0 then 0 else Ones(Half(c), n - 1) + if Odd(c) then 1 else 0
  }

  /** In how many bits two bytes differ. */
  function Flipped(x: Byte, y: Byte): nat { Ones((x ^ y) as Word, 16) }

  /** In how many bits the frames differ. */
  function Flips(a: seq<Byte>, b: seq<Byte>): nat
    requires |a| == |b|
  {
    if a == [] then 0 else Flips(a[..|a| - 1], b[..|b| - 1]) + Flipped(a[|a| - 1], b[|b| - 1])
  }

  predicate Parity(c: Word, n: nat) { Ones(c, n) % 2 == 1 }

  lemma {:induction false} ParityOfXor(a: Word, b: Word, n: nat)
    ensures Parity(Xor(a, b), n) <==> Parity(a, n) != Parity(b, n)
    decreases n
  {
    hide Xor, Half, Odd;
    if n > 0 {
      HalfOfXor(a, b);
      OddOfXor(a, b);
      ParityOfXor(Half(a), Half(b), n - 1);
    }
  }

  lemma {:induction false} OneMoreBit(c: Word, n: nat)
    ensures Ones(c, n + 1) == Ones(c, n) + if Odd(Halves(c, n)) then 1 else 0
    decreases n
  {
    hide Half, Odd;
    if n > 0 {
      OneMoreBit(Half(c), n - 1);
      HalvesInside(c, n - 1);
    }
  }

  lemma HalvesFour(c: Word)
    ensures Halves(c, 4) == c >> 4
  {
    assert Halves(c, 1) == c >> 1;
    assert Halves(c, 2) == c >> 2;
    assert Halves(c, 3) == c >> 3;
  }

  lemma {:induction false} HalvesSum(c: Word, a: nat, b: nat)
    ensures Halves(c, a + b) == Halves(Halves(c, a), b)
    decreases b
  {
    hide Half;
    if b > 0 { HalvesSum(c, a, b - 1); }
  }

  lemma NothingAbove(c: Word)
    ensures Halves(c, 16) == 0
  {
    hide Halves;
    HalvesFour(c);
    HalvesFour(c >> 4);
    HalvesFour(c >> 8);
    HalvesFour(c >> 12);
    HalvesSum(c, 4, 4);
    HalvesSum(c, 8, 4);
    HalvesSum(c, 12, 4);
    assert (c >> 4) >> 4 == c >> 8 && (c >> 8) >> 4 == c >> 12 && (c >> 12) >> 4 == 0;
  }

  lemma PolynomialOdd()
    ensures Parity(POLYNOMIAL, 16)
  {
    assert Ones(0x0001, 1) == 1;
    assert Ones(0x0002, 2) == 1;
    assert Ones(0x0005, 3) == 2;
    assert Ones(0x000A, 4) == 2;
    assert Ones(0x0014, 5) == 2;
    assert Ones(0x0028, 6) == 2;
    assert Ones(0x0050, 7) == 2;
    assert Ones(0x00A0, 8) == 2;
    assert Ones(0x0140, 9) == 2;
    assert Ones(0x0280, 10) == 2;
    assert Ones(0x0500, 11) == 2;
    assert Ones(0x0A00, 12) == 2;
    assert Ones(0x1400, 13) == 2;
    assert Ones(0x2800, 14) == 2;
    assert Ones(0x5000, 15) == 2;
  }

  /** What is shifted out comes back through the three terms of the polynomial. */
  lemma ParityOfShift(c: Word)
    ensures Parity(Shift(c), 16) <==> Parity(c, 16)
  {
    TopBit(c);
    PolynomialOdd();
    ParityOfXor(Half(c), POLYNOMIAL, 16);
    ParityOfHalf(c);
    hide Xor, Half, Odd, Parity;
  }

  lemma TopBit(c: Word)
    ensures Ones(Half(c), 16) == Ones(Half(c), 15)
  {
    NothingAbove(c);
    hide Half, Ones, Halves;
    HalvesInside(c, 15);
    OneMoreBit(Half(c), 15);
    ZeroEven();
  }

  lemma ParityOfHalf(c: Word)
    requires Ones(Half(c), 16) == Ones(Half(c), 15)
    ensures Parity(c, 16) <==> Parity(Half(c), 16) != Odd(c)
  {
    hide Half, Odd;
    OnesStep(c);
    hide Ones;
  }

  lemma OnesStep(c: Word)
    ensures Ones(c, 16) == Ones(Half(c), 15) + if Odd(c) then 1 else 0
  {
    hide Half, Odd;
  }

  lemma ZeroEven()
    ensures !Odd(0)
  {
  }

  lemma {:induction false} ParityOfShifts(c: Word, n: nat)
    ensures Parity(Shifts(c, n), 16) <==> Parity(c, 16)
  {
    hide Parity, Shift;
    if n > 0 {
      ParityOfShifts(c, n - 1);
      ParityOfShift(Shifts(c, n - 1));
    }
  }

  lemma ParityOfAbsorb(d: Word, e: Word, x: Byte, y: Byte)
    ensures Parity(Absorb(d, x), 16) != Parity(Absorb(e, y), 16)
            <==> (Parity(d, 16) != Parity(e, 16)) != (Flipped(x, y) % 2 == 1)
  {
    XorOfBytes(x, y);
    ParityOfXor(x as Word, y as Word, 16);
    assert Flipped(x, y) % 2 == 1 <==> Parity((x ^ y) as Word, 16);
    hide Parity, Shifts, Xor, Flipped;
    ParityOfShifts(Xor(d, x as Word), 8);
    ParityOfShifts(Xor(e, y as Word), 8);
    ParityOfXor(d, x as Word, 16);
    ParityOfXor(e, y as Word, 16);
  }

  lemma {:induction false} ParityOfCrcs(c: Word, a: seq<Byte>, b: seq<Byte>)
    requires |a| == |b|
    ensures Parity(CrcFrom(c, a), 16) != Parity(CrcFrom(c, b), 16) <==> Flips(a, b) % 2 == 1
  {
    hide Parity, Absorb, Flipped;
    if a != [] {
      var (front, front', x, y) := (a[..|a| - 1], b[..|b| - 1], a[|a| - 1], b[|b| - 1]);
      ParityOfCrcs(c, front, front');
      ParityOfAbsorb(CrcFrom(c, front), CrcFrom(c, front'), x, y);
    }
  }

  /** Main result: frames of equal length that differ in an odd number of bits have different CRCs. */
  lemma OddFlipsDetected(a: seq<Byte>, b: seq<Byte>)
    requires |a| == |b| && Flips(a, b) % 2 == 1
    ensures Crc(a) != Crc(b)
  {
    hide Parity, CrcFrom, Flips;
    ParityOfCrcs(0xFFFF, a, b);
  }

  // ----- bursts that are not aligned ---------------------------------------

  function Double(c: Word): Word { c << 1 }

  function Doubles(c: Word, n: nat): Word
    decreases n
  {
    if n == 0 then c else Doubles(Double(c), n - 1)
  }

  /** The low n bits are clear. */
  predicate LowClear(c: Word, n: nat)
    decreases n
  {
    n > 0 ==> !Odd(c) && LowClear(Half(c), n - 1)
  }

  /** All bits from the n-th on are clear. */
  predicate Below(c: Word, n: nat) { Halves(c, n) == 0 }

  lemma {:induction false} ClearShifts(c: Word, n: nat)
    requires LowClear(c, n)
    ensures Shifts(c, n) == Halves(c, n)
    decreases n
  {
    hide Half, Odd;
    if n > 0 {
      ClearShifts(Half(c), n - 1);
      HalvesInside(c, n - 1);
      ShiftsInside(c, n - 1);
    }
  }

  lemma {:induction false} ShiftsInside(c: Word, n: nat)
    ensures Shifts(Shift(c), n) == Shifts(c, n + 1)
  {
    hide Shift;
    if n > 0 { ShiftsInside(c, n - 1); }
  }

  lemma {:induction false} ShiftsSum(c: Word, a: nat, b: nat)
    ensures Shifts(c, a + b) == Shifts(Shifts(c, a), b)
    decreases b
  {
    hide Shift;
    if b > 0 { ShiftsSum(c, a, b - 1); }
  }

  lemma {:induction false} ClearXor(a: Word, b: Word, n: nat)
    requires LowClear(a, n) && LowClear(b, n)
    ensures LowClear(Xor(a, b), n)
    decreases n
  {
    hide Xor, Half, Odd;
    if n > 0 {
      HalfOfXor(a, b);
      OddOfXor(a, b);
      ClearXor(Half(a), Half(b), n - 1);
    }
  }

  lemma ClearAndBelow(c: Word, n: nat)
    requires LowClear(c, n) && Below(c, n)
    ensures c == 0
  {
    hide Shifts, Halves, LowClear;
    ClearShifts(c, n);
    ZeroStays(n);
    ShiftsInjective(c, 0, n);
  }

  lemma {:induction false} ZeroHalves(n: nat)
    ensures Halves(0, n) == 0
  {
    if n > 0 { ZeroHalves(n - 1); }
  }

  lemma HalvesFifteen(c: Word)
    ensures Halves(c, 15) == c >> 15
  {
    hide Halves;
    HalvesFour(c);
    HalvesFour(c >> 4);
    HalvesFour(c >> 8);
    HalvesThree(c >> 12);
    HalvesSum(c, 4, 4);
    HalvesSum(c, 8, 4);
    HalvesSum(c, 12, 3);
    assert (c >> 4) >> 4 == c >> 8 && (c >> 8) >> 4 == c >> 12 && (c >> 12) >> 3 == c >> 15;
  }

  lemma HalvesThree(c: Word)
    ensures Halves(c, 3) == c >> 3
  {
    assert Halves(c, 1) == c >> 1;
    assert Halves(c, 2) == c >> 2;
  }

  /** Doubling loses nothing as long as the top bit is clear. */
  lemma DoubleBack(c: Word, s: nat)
    requires Below(c, s) && s <= 15
    ensures Half(Double(c)) == c && !Odd(Double(c)) && Below(Double(c), s + 1)
  {
    TopClear(c, s);
    HalfDouble(c);
    hide Half, Double;
    HalvesInside(Double(c), s);
  }

  lemma TopClear(c: Word, s: nat)
    requires Below(c, s) && s <= 15
    ensures c >> 15 == 0
  {
    hide Halves;
    HalvesSum(c, s, 15 - s);
    ZeroHalves(15 - s);
    HalvesFifteen(c);
  }

  lemma HalfDouble(c: Word)
    requires c >> 15 == 0
    ensures Half(Double(c)) == c && !Odd(Double(c))
  {
  }

  lemma {:induction false} UpDown(c: Word, s: nat, n: nat)
    requires Below(c, s) && s + n <= 16
    ensures Shifts(Doubles(c, n), n) == c
    decreases n
  {
    hide Half, Odd, Double, Xor, Below;
    if n > 0 {
      DoubleBack(c, s);
      UpDown(Double(c), s + 1, n - 1);
      ShiftsStep(Doubles(c, n), n - 1);
    }
  }

  lemma {:induction false} ClearUp(c: Word, s: nat, n: nat, k: nat)
    requires Below(c, s) && s + n <= 16 && LowClear(c, k)
    ensures LowClear(Doubles(c, n), k + n)
    decreases n
  {
    hide Half, Odd, Double, Below;
    if n > 0 {
      DoubleBack(c, s);
      ClearUp(Double(c), s + 1, n - 1, k + 1);
    }
  }

  lemma {:induction false} ClearLess(c: Word, n: nat, m: nat)
    requires LowClear(c, n) && m <= n
    ensures LowClear(c, m)
    decreases n
  {
    hide Half, Odd;
    if m > 0 { ClearLess(Half(c), n - 1, m - 1); }
  }

  lemma ByteBelow(b: Byte)
    ensures Below(b as Word, 8)
  {
    hide Halves;
    HalvesFour(b as Word);
    HalvesFour((b as Word) >> 4);
    HalvesSum(b as Word, 4, 4);
    assert ((b as Word) >> 4) >> 4 == 0;
  }

  /** What absorbing two bytes does to a difference. */
  lemma Difference(a: Word, b: Word, y: Byte, y': Byte)
    ensures Xor(Absorb(a, y), Absorb(b, y')) == Shifts(Xor(Xor(a, b), (y ^ y') as Word), 8)
  {
    hide Shifts, Xor;
    ShiftsLinear(Xor(a, y as Word), Xor(b, y' as Word), 8);
    XorOfBytes(y, y');
    XorSwap(a, y as Word, b, y' as Word);
  }

  lemma XorSwap(a: Word, y: Word, b: Word, y': Word)
    ensures Xor(Xor(a, y), Xor(b, y')) == Xor(Xor(a, b), Xor(y, y'))
  {
    hide Xor;
    XorAssociative(a, y, Xor(b, y'));
    XorAssociative(y, b, y');
    XorCommutes(y, b);
    XorAssociative(b, y, y');
    XorAssociative(a, b, Xor(y, y'));
  }

  /** Three bytes whose difference is a burst of at most 16 bits: the first s bits of the first byte and
      the bits from s on of the last agree. */
  ghost predicate Window(x: Byte, x': Byte, z: Byte, z': Byte, s: nat) {
    s <= 8 && LowClear((x ^ x') as Word, s) && Below((z ^ z') as Word, s)
  }

  /** The difference of the first two bytes, moved up to a whole window, is the one of the third. */
  lemma WindowShifts(d0: Word, d1: Word, d2: Word, s: nat)
    requires s <= 8 && LowClear(d0, s) && Below(d0, 8) && Below(d1, 8) && Below(d2, s)
    requires Shifts(Xor(Shifts(d0, 8), d1), 8) == d2
    ensures d0 == 0
  {
    hide Shifts, Halves, Xor, LowClear, Doubles, Below;
    var (h0, u1, u2) := (Halves(d0, s), Doubles(d1, 8 - s), Doubles(d2, 16 - s));
    ClearShifts(d0, s);
    ShiftsSum(d0, s, 8 - s);
    UpDown(d1, 8, 8 - s);
    UpDown(d2, s, 16 - s);
    ShiftsLinear(h0, u1, 8 - s);
    ShiftsSum(Xor(h0, u1), 8 - s, 8);
    ShiftsInjective(Xor(h0, u1), u2, 16 - s);
    NothingClear(d1);
    NothingClear(d2);
    ClearUp(d1, 8, 8 - s, 0);
    ClearUp(d2, s, 16 - s, 0);
    ClearLess(u2, 16 - s, 8 - s);
    ClearXor(u2, u1, 8 - s);
    XorCancels(h0, u1);
    RestBelow(d0, s);
    ClearAndBelow(h0, 8 - s);
    ZeroIfHalved(d0, s);
  }

  lemma NothingClear(c: Word)
    ensures LowClear(c, 0)
  {
  }

  lemma RestBelow(c: Word, s: nat)
    requires Below(c, 8) && s <= 8
    ensures Below(Halves(c, s), 8 - s)
  {
    HalvesSum(c, s, 8 - s);
  }

  lemma ZeroIfHalved(c: Word, s: nat)
    requires LowClear(c, s) && Halves(c, s) == 0
    ensures c == 0
  {
    ClearAndBelow(c, s);
  }

  lemma ThreeBytes(c: Word, x: Byte, y: Byte, z: Byte, x': Byte, y': Byte, z': Byte, s: nat)
    requires Window(x, x', z, z', s)
    requires Absorb(Absorb(Absorb(c, x), y), z) == Absorb(Absorb(Absorb(c, x'), y'), z')
    ensures x == x' && y == y' && z == z'
  {
    hide Absorb, Shifts, Xor, LowClear, Below;
    var (a, b) := (Absorb(c, x), Absorb(c, x'));
    var (d, e) := (Absorb(a, y), Absorb(b, y'));
    AbsorbedDifference(c, x, x');
    Difference(a, b, y, y');
    AbsorbedSame(d, z, e, z');
    XorOfBytes(z, z');
    ByteBelow(x ^ x');
    ByteBelow(y ^ y');
    WindowShifts((x ^ x') as Word, (y ^ y') as Word, (z ^ z') as Word, s);
    SameByte(x, x');
    TwoBytes(a, y, z, y', z');
  }

  lemma SameByte(x: Byte, y: Byte)
    ensures (x ^ y) as Word == 0 ==> x == y
  {
  }

  lemma CrcOfThree(c: Word, x: Byte, y: Byte, z: Byte)
    ensures CrcFrom(c, [x, y, z]) == Absorb(Absorb(Absorb(c, x), y), z)
  {
    hide Absorb;
    CrcOfTwo(c, x, y);
    assert [x, y, z][..2] == [x, y];
  }

  /** Main result: frames of equal length that differ, but only in a burst of at most 16 bits, wherever it
      begins, have different CRCs. */
  lemma WindowDetected(a: seq<Byte>, b: seq<Byte>, i: nat, s: nat)
    requires |a| == |b| && i + 2 < |a| && a != b && Window(a[i], b[i], a[i + 2], b[i + 2], s)
    requires forall j :: 0 <= j < |a| && j != i && j != i + 1 && j != i + 2 ==> a[j] == b[j]
    ensures Crc(a) != Crc(b)
  {
    hide Absorb, Window, CrcFrom;
    var (front, tail) := (a[..i], a[i + 3..]);
    var (p, q) := ([a[i], a[i + 1], a[i + 2]], [b[i], b[i + 1], b[i + 2]]);
    assert a == front + p + tail;
    assert b == front + q + tail;
    CrcAppend(0xFFFF, front + p, tail);
    CrcAppend(0xFFFF, front + q, tail);
    CrcAppend(0xFFFF, front, p);
    CrcAppend(0xFFFF, front, q);
    var c := Crc(front);
    CrcOfThree(c, a[i], a[i + 1], a[i + 2]);
    CrcOfThree(c, b[i], b[i + 1], b[i + 2]);
    CrcInjective(CrcFrom(c, p), CrcFrom(c, q), tail);
    if Crc(a) == Crc(b) {
      ThreeBytes(c, a[i], a[i + 1], a[i + 2], b[i], b[i + 1], b[i + 2], s);
    }
  }
}

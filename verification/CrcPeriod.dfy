/** The period of the CRC register, and which pairs of flipped bits the CRC detects: all that are not a
    multiple of 32767 bits apart. */
module CrcPeriod {
  import opened Crc16
  import opened CrcErrors
  import Nonlinear

  const TOP: Word := 0x8000

  predicate HasTop(v: Word) { v >> 15 == 1 }

  function TopOf(v: Word): Word { if HasTop(v) then TOP else 0 }

  /** v without its top bit. */
  function Rest(v: Word): Word { Half(Double(v)) }

  // ----- many shifts from few ----------------------------------------------

  function Term(v: Word, w: Word): Word { if HasTop(v) then w else 0 }

  /** The shifts of v, when w is what as many shifts make of the top bit: v is the sum of its bits, and
      each of them is the top bit shifted down. */
  function Combined(v: Word, w: Word, bits: nat): Word
    decreases bits
  {
    if bits == 0 then 0 else Xor(Term(v, w), Combined(Double(v), Shift(w), bits - 1))
  }

  lemma TopAndRest(v: Word)
    ensures v == Xor(TopOf(v), Rest(v)) && Rest(v) == Xor(v, TopOf(v)) && !Odd(Double(v))
  {
    Parts(v);
    hide Xor, Half, Double, HasTop;
    XorCommutes(TopOf(v), Rest(v));
    XorCancels(Rest(v), TopOf(v));
  }

  lemma Parts(v: Word)
    ensures v == Xor(TopOf(v), Rest(v)) && !Odd(Double(v))
  {
    if HasTop(v) { WithTop(v); } else { WithoutTop(v); }
  }

  lemma WithTop(v: Word)
    requires v >> 15 == 1
    ensures v == Xor(0x8000, Half(Double(v))) && !Odd(Double(v))
  {
  }

  lemma WithoutTop(v: Word)
    requires v >> 15 != 1
    ensures v == Xor(0, Half(Double(v))) && !Odd(Double(v))
  {
  }

  lemma TopLow()
    ensures LowClear(TOP, 15)
  {
    assert LowClear(0x0001, 0);
    assert LowClear(0x0002, 1);
    assert LowClear(0x0004, 2);
    assert LowClear(0x0008, 3);
    assert LowClear(0x0010, 4);
    assert LowClear(0x0020, 5);
    assert LowClear(0x0040, 6);
    assert LowClear(0x0080, 7);
    assert LowClear(0x0100, 8);
    assert LowClear(0x0200, 9);
    assert LowClear(0x0400, 10);
    assert LowClear(0x0800, 11);
    assert LowClear(0x1000, 12);
    assert LowClear(0x2000, 13);
    assert LowClear(0x4000, 14);
  }

  lemma {:induction false} ZeroLow(n: nat)
    ensures LowClear(0, n)
    decreases n
  {
    if n > 0 { ZeroLow(n - 1); }
  }

  lemma TopOfLow(v: Word, n: nat)
    requires n <= 15
    ensures LowClear(TopOf(v), n)
  {
    TopLow();
    ClearLess(TOP, 15, n);
    ZeroLow(n);
    hide HasTop, LowClear;
  }

  lemma DoubleLow(v: Word, n: nat)
    requires LowClear(v, n) && n <= 15
    ensures LowClear(Double(v), n + 1)
  {
    hide Half, Double, Xor, TopOf, Odd;
    TopAndRest(v);
    TopOfLow(v, n);
    ClearXor(v, TopOf(v), n);
  }

  lemma AllLow(v: Word)
    requires LowClear(v, 16)
    ensures v == 0
  {
    NothingAbove(v);
    hide Halves, LowClear;
    ClearAndBelow(v, 16);
  }

  lemma EvenShift(c: Word)
    requires !Odd(c)
    ensures Shift(c) == Half(c)
  {
  }

  lemma TermIs(v: Word, n: nat)
    ensures Term(v, Shifts(TOP, n)) == Shifts(TopOf(v), n)
  {
    hide HasTop, Shift;
    ZeroStays(n);
  }

  lemma {:induction false} CombinedIs(v: Word, n: nat, bits: nat)
    requires bits <= 16 && LowClear(v, 16 - bits)
    ensures Combined(v, Shifts(TOP, n), bits) == Shifts(v, n)
    decreases bits
  {
    hide Xor, Half, Double, Odd, Shift, LowClear, Term, TopOf;
    if bits == 0 {
      AllLow(v);
      ZeroStays(n);
    } else {
      DoubleLow(v, 16 - bits);
      CombinedIs(Double(v), n + 1, bits - 1);
      TopAndRest(v);
      TermIs(v, n);
      ShiftsLinear(TopOf(v), Rest(v), n);
      EvenShift(Double(v));
      ShiftsInside(Double(v), n);
    }
  }

  lemma NothingLow(v: Word)
    ensures LowClear(v, 0)
  {
  }

  // ----- the same without recursion ----------------------------------------

  function Double4(v: Word): Word { Double(Double(Double(Double(v)))) }

  function Shift4(w: Word): Word { Shift(Shift(Shift(Shift(w)))) }

  function Terms4(v: Word, w: Word, rest: Word): Word {
    var (v1, w1) := (Double(v), Shift(w));
    var (v2, w2) := (Double(v1), Shift(w1));
    Xor(Term(v, w), Xor(Term(v1, w1), Xor(Term(v2, w2), Xor(Term(Double(v2), Shift(w2)), rest))))
  }

  function Product(v: Word, w: Word): Word {
    var (v4, w4) := (Double4(v), Shift4(w));
    var (v8, w8) := (Double4(v4), Shift4(w4));
    Terms4(v, w, Terms4(v4, w4, Terms4(v8, w8, Terms4(Double4(v8), Shift4(w8), 0))))
  }

  lemma Terms4Is(v: Word, w: Word, bits: nat)
    ensures Combined(v, w, bits + 4) == Terms4(v, w, Combined(Double4(v), Shift4(w), bits))
  {
    hide Xor, Double, Shift, Term;
    var (v1, w1) := (Double(v), Shift(w));
    var (v2, w2) := (Double(v1), Shift(w1));
    assert Combined(v2, w2, bits + 2)
           == Xor(Term(v2, w2), Xor(Term(Double(v2), Shift(w2)), Combined(Double4(v), Shift4(w), bits)));
  }

  /** a + b shifts of the top bit. */
  lemma Added(a: nat, b: nat)
    ensures Shifts(TOP, a + b) == Product(Shifts(TOP, a), Shifts(TOP, b))
  {
    hide Combined, Shifts, LowClear, Terms4, Double4, Shift4;
    var (v, w) := (Shifts(TOP, a), Shifts(TOP, b));
    ShiftsSum(TOP, a, b);
    NothingLow(v);
    CombinedIs(v, b, 16);
    Terms4Is(v, w, 12);
    Terms4Is(Double4(v), Shift4(w), 8);
    Terms4Is(Double4(Double4(v)), Shift4(Shift4(w)), 4);
    Terms4Is(Double4(Double4(Double4(v))), Shift4(Shift4(Shift4(w))), 0);
    NoTerms(Double4(Double4(Double4(Double4(v)))), Shift4(Shift4(Shift4(Shift4(w)))));
  }

  lemma NoTerms(v: Word, w: Word)
    ensures Combined(v, w, 0) == 0
  {
  }

  // ----- some powers -------------------------------------------------------

  lemma Twice(n: nat, c: Word, r: Word)
    requires Shifts(TOP, n) == c && Product(c, c) == r
    ensures Shifts(TOP, 2 * n) == r
  {
    hide Shifts, Product;
    Added(n, n);
  }

  lemma Once(n: nat, c: Word, r: Word)
    requires Shifts(TOP, n) == c && Shift(c) == r
    ensures Shifts(TOP, n + 1) == r
  {
    hide Shift;
    ShiftsStep(TOP, n);
  }

  lemma FirstPowers()
    ensures Shifts(TOP, 8) == 0x0080
    ensures Shifts(TOP, 9) == 0x0040
    ensures Shifts(TOP, 10) == 0x0020
    ensures Shifts(TOP, 11) == 0x0010
    ensures Shifts(TOP, 12) == 0x0008
    ensures Shifts(TOP, 13) == 0x0004
    ensures Shifts(TOP, 14) == 0x0002
    ensures Shifts(TOP, 15) == 0x0001
    ensures Shifts(TOP, 16) == 0xA001
  {
    assert Shifts(TOP, 1) == 0x4000;
    assert Shifts(TOP, 2) == 0x2000;
    assert Shifts(TOP, 3) == 0x1000;
    assert Shifts(TOP, 4) == 0x0800;
    assert Shifts(TOP, 5) == 0x0400;
    assert Shifts(TOP, 6) == 0x0200;
    assert Shifts(TOP, 7) == 0x0100;
    assert Shifts(TOP, 8) == 0x0080;
    assert Shifts(TOP, 9) == 0x0040;
    assert Shifts(TOP, 10) == 0x0020;
    assert Shifts(TOP, 11) == 0x0010;
    assert Shifts(TOP, 12) == 0x0008;
    assert Shifts(TOP, 13) == 0x0004;
    assert Shifts(TOP, 14) == 0x0002;
    assert Shifts(TOP, 15) == 0x0001;
  }

  lemma Power217()
    ensures Shifts(TOP, 217) == 0x3E55
  {
    hide Shifts;
    FirstPowers();
    Twice(13, 0x0004, 0xC019);
    Once(26, 0xC019, 0xC00D);
    Twice(27, 0xC00D, 0xC079);
    Twice(54, 0xC079, 0xDFE1);
    Twice(108, 0xDFE1, 0x7CAA);
    Once(216, 0x7CAA, 0x3E55);
  }

  lemma Power1057()
    ensures Shifts(TOP, 1057) == 0xCE41
  {
    hide Shifts;
    FirstPowers();
    Twice(16, 0xA001, 0xE801);
    Once(32, 0xE801, 0xD401);
    Twice(33, 0xD401, 0xC221);
    Twice(66, 0xC221, 0x0608);
    Twice(132, 0x0608, 0xC049);
    Twice(264, 0xC049, 0xD861);
    Twice(528, 0xD861, 0xDC81);
    Once(1056, 0xDC81, 0xCE41);
  }

  lemma Power146()
    ensures Shifts(TOP, 146) == 0xCA19
  {
    hide Shifts;
    FirstPowers();
    Twice(9, 0x0040, 0xD801);
    Twice(18, 0xD801, 0xC281);
    Twice(36, 0xC281, 0x6008);
    Once(72, 0x6008, 0x3004);
    Twice(73, 0x3004, 0xCA19);
  }

  lemma Power4681()
    ensures Shifts(TOP, 4681) == 0x8C69
  {
    hide Shifts;
    Power146();
    Twice(146, 0xCA19, 0xC169);
    Twice(292, 0xC169, 0x1E62);
    Once(584, 0x1E62, 0x0F31);
    Twice(585, 0x0F31, 0x672B);
    Twice(1170, 0x672B, 0x8E4C);
    Twice(2340, 0x8E4C, 0x58D1);
    Once(4680, 0x58D1, 0x8C69);
  }

  lemma Power1023()
    ensures Shifts(TOP, 1023) == 0xD000
  {
    hide Shifts;
    FirstPowers();
    Twice(15, 0x0001, 0x6001);
    Once(30, 0x6001, 0x9001);
    Twice(31, 0x9001, 0xE201);
    Once(62, 0xE201, 0xD101);
    Twice(63, 0xD101, 0xC203);
    Once(126, 0xC203, 0xC100);
    Twice(127, 0xC100, 0xA002);
    Once(254, 0xA002, 0x5001);
    Twice(255, 0x5001, 0x4201);
    Once(510, 0x4201, 0x8101);
    Twice(511, 0x8101, 0xE003);
    Once(1022, 0xE003, 0xD000);
  }

  lemma Power32767()
    ensures Shifts(TOP, 32767) == 0x8000
  {
    hide Shifts;
    Power1023();
    Twice(1023, 0xD000, 0xA200);
    Once(2046, 0xA200, 0x5100);
    Twice(2047, 0x5100, 0x2202);
    Once(4094, 0x2202, 0x1101);
    Twice(4095, 0x1101, 0x6203);
    Once(8190, 0x6203, 0x9100);
    Twice(8191, 0x9100, 0x8202);
    Once(16382, 0x8202, 0x4101);
    Twice(16383, 0x4101, 0x4003);
    Once(32766, 0x4003, 0x8000);
  }

  // ----- the period --------------------------------------------------------

  /** After m shifts the top bit is where it was. */
  predicate Returns(m: nat) { Shifts(TOP, m) == TOP }

  lemma ReturnsLess(a: nat, b: nat)
    requires Returns(a) && Returns(b) && b <= a
    ensures Returns(a - b)
  {
    hide Shifts;
    ShiftsSum(TOP, a - b, b);
    ShiftsInjective(Shifts(TOP, a - b), TOP, b);
  }

  lemma {:induction false} ReturnsTimes(p: nat, k: nat)
    requires Returns(p)
    ensures Returns(p * k)
    decreases k
  {
    hide Shifts;
    if k == 0 {
      assert Shifts(TOP, 0) == TOP by { NoShifts(); }
      assert p * k == 0;
    } else {
      ReturnsTimes(p, k - 1);
      ShiftsSum(TOP, p * (k - 1), p);
      assert p * (k - 1) + p == p * k;
    }
  }

  ghost predicate Least(p: nat) { p > 0 && Returns(p) && forall q: nat :: 0 < q < p ==> !Returns(q) }

  lemma {:induction false} LeastBelow(n: nat) returns (p: nat)
    requires n > 0 && Returns(n)
    ensures Least(p)
    decreases n
  {
    hide Returns;
    p := n;
    if q: nat :| 0 < q < n && Returns(q) { p := LeastBelow(q); }
  }

  lemma LeastDivides(p: nat, m: nat)
    requires Least(p)
    ensures Returns(m) <==> m % p == 0
  {
    hide Returns;
    var k := m / p;
    assert m == p * k + m % p;
    ReturnsTimes(p, k);
    if Returns(m) { ReturnsLess(m, p * k); }
  }

  /** k is no divisor of 32767 = 7 * 31 * 151 but these. */
  predicate Fine(k: nat)
    requires k > 0
  {
    32767 % k == 0 ==> k == 1 || k == 7 || k == 31 || k == 151
  }

  predicate FineTen(k: nat)
    requires k > 0
  {
    && Fine(k) && Fine(k + 1) && Fine(k + 2) && Fine(k + 3) && Fine(k + 4)
    && Fine(k + 5) && Fine(k + 6) && Fine(k + 7) && Fine(k + 8) && Fine(k + 9)
  }

  lemma FineFrom(b: nat, k: nat)
    requires 0 < b <= k < b + 10 && FineTen(b)
    ensures Fine(k)
  {
    hide Fine;
  }

  lemma FineTens()
    ensures FineTen(1)
    ensures FineTen(11)
    ensures FineTen(21)
    ensures FineTen(31)
    ensures FineTen(41)
    ensures FineTen(51)
    ensures FineTen(61)
    ensures FineTen(71)
    ensures FineTen(81)
  {
  }

  lemma FineTensNext()
    ensures FineTen(91)
    ensures FineTen(101)
    ensures FineTen(111)
    ensures FineTen(121)
    ensures FineTen(131)
  {
  }

  lemma FineTensLast()
    ensures FineTen(141)
    ensures FineTen(151)
    ensures FineTen(161)
    ensures FineTen(171)
    ensures FineTen(181)
  {
  }

  lemma SmallDivisor(k: nat)
    requires 0 < k <= 181 && 32767 % k == 0
    ensures k == 1 || k == 7 || k == 31 || k == 151
  {
    FineTens();
    FineTensNext();
    FineTensLast();
    hide Fine, FineTen;
    var b := (k - 1) / 10 * 10 + 1;
    FineFrom(b, k);
    FineIs(k);
  }

  lemma FineIs(k: nat)
    requires 0 < k && Fine(k) && 32767 % k == 0
    ensures k == 1 || k == 7 || k == 31 || k == 151
  {
  }

  lemma Factor(p: nat, q: nat, n: nat)
    requires p > 0 && p * q == n
    ensures n % p == 0 && (q > 0 ==> n % q == 0)
  {
    EuclidOf(p, q);
    if q > 0 { EuclidOf(q, p); }
  }

  lemma EuclidOf(p: nat, q: nat)
    requires p > 0
    ensures p * q % p == 0
  {
    Nonlinear.Euclid(p * q, p, q, 0);
  }

  lemma NotYet()
    ensures !Returns(217) && !Returns(1057) && !Returns(4681) && Returns(32767)
  {
    Power217();
    Power1057();
    Power4681();
    Power32767();
    hide Shifts;
  }

  /** Shifting comes back to the same register first after 32767 steps. */
  lemma PeriodIs(p: nat)
    requires Least(p)
    ensures p == 32767
  {
    hide Returns, Least;
    NotYet();
    LeastDivides(p, 32767);
    LeastDivides(p, 4681);
    LeastDivides(p, 1057);
    LeastDivides(p, 217);
    LeastPositive(p);
    var q := 32767 / p;
    assert p * q == 32767;
    if p <= 181 {
      SmallDivisor(p);
    } else {
      Bounded(p, q);
      Factor(p, q, 32767);
      SmallDivisor(q);
    }
  }

  lemma LeastPositive(p: nat)
    requires Least(p)
    ensures p > 0
  {
  }

  lemma Bounded(p: nat, q: nat)
    requires p >= 182 && p * q == 32767
    ensures 0 < q <= 181
  {
    assert p * q == 182 * q + (p - 182) * q && (p - 182) * q >= 0;
    assert q == 0 ==> p * q == 0;
  }

  /** Main result: the register comes back to where it was exactly after multiples of 32767 shifts. */
  lemma ReturnsIff(m: nat)
    ensures Returns(m) <==> m % 32767 == 0
  {
    hide Returns, Least;
    NotYet();
    var p := LeastBelow(32767);
    PeriodIs(p);
    LeastDivides(p, m);
  }

  // ----- two flipped bits --------------------------------------------------

  predicate Multiple(m: nat) { m % 32767 == 0 }

  lemma SameIff(n: nat, k: nat)
    requires k <= n
    ensures Shifts(TOP, n) == Shifts(TOP, k) <==> Multiple(n - k)
  {
    var m := n - k;
    ReturnsIff(m);
    hide Shifts, Multiple;
    ShiftsSum(TOP, m, k);
    ShiftsInjective(Shifts(TOP, m), TOP, k);
  }

  lemma XorZero(a: Word, b: Word)
    ensures Xor(a, b) == 0 <==> a == b
  {
  }

  /** Absorbing unequal bytes makes unequal registers equal exactly when the bytes differ as they do. */
  lemma MeetIff(c: Word, d: Word, x: Byte, y: Byte)
    ensures Absorb(c, x) == Absorb(d, y) <==> Xor(c, d) == (x ^ y) as Word
  {
    hide Absorb, Shifts, Xor;
    Difference(c, d, x, y);
    var e := Xor(Xor(c, d), (x ^ y) as Word);
    ZeroStays(8);
    ShiftsInjective(e, 0, 8);
    XorZero(Xor(c, d), (x ^ y) as Word);
    XorZero(Absorb(c, x), Absorb(d, y));
  }

  function Mask(r: nat): Byte
    requires r < 8
  {
    if r == 0 then 0x01 else if r == 1 then 0x02 else if r == 2 then 0x04 else if r == 3 then 0x08
    else if r == 4 then 0x10 else if r == 5 then 0x20 else if r == 6 then 0x40 else 0x80
  }

  lemma MaskIs(r: nat)
    requires r < 8
    ensures Mask(r) as Word == Shifts(TOP, 15 - r)
  {
    FirstPowers();
    hide Shifts;
  }

  lemma NoDifference(b: Byte)
    ensures (b ^ b) as Word == 0
  {
  }

  /** Equal bytes carry a difference on. */
  lemma {:induction false} DifferenceCarried(c: Word, d: Word, data: seq<Byte>)
    ensures Xor(CrcFrom(c, data), CrcFrom(d, data)) == Shifts(Xor(c, d), 8 * |data|)
  {
    hide Absorb, Shifts, Xor;
    if data == [] {
      NoShifts();
    } else {
      var (front, b) := (data[..|data| - 1], data[|data| - 1]);
      DifferenceCarried(c, d, front);
      Difference(CrcFrom(c, front), CrcFrom(d, front), b, b);
      NoDifference(b);
      XorSelf(Xor(CrcFrom(c, front), CrcFrom(d, front)));
      ShiftsSum(Xor(c, d), 8 * |front|, 8);
    }
  }

  /** The frames differ in bit r of byte i and in bit s of byte j, and in no other bit. */
  predicate FlipsTwo(a: seq<Byte>, b: seq<Byte>, i: nat, r: nat, j: nat, s: nat) {
    && |a| == |b| && i < j < |a| && r < 8 && s < 8
    && a[i] ^ b[i] == Mask(r) && a[j] ^ b[j] == Mask(s)
    && forall k :: 0 <= k < |a| && k != i && k != j ==> a[k] == b[k]
  }

  lemma CrcOfOne(c: Word, x: Byte)
    ensures CrcFrom(c, [x]) == Absorb(c, x)
  {
    hide Absorb;
    assert [x][..0] == [];
  }

  lemma CrcInParts(front: seq<Byte>, x: Byte, mid: seq<Byte>, y: Byte, tail: seq<Byte>)
    ensures Crc(front + [x] + mid + [y] + tail)
            == CrcFrom(Absorb(CrcFrom(Absorb(Crc(front), x), mid), y), tail)
  {
    CrcAppend(0xFFFF, front + [x] + mid + [y], tail);
    CrcAppend(0xFFFF, front + [x] + mid, [y]);
    CrcAppend(0xFFFF, front + [x], mid);
    CrcAppend(0xFFFF, front, [x]);
    hide CrcFrom, Absorb;
    CrcOfOne(Crc(front), x);
    CrcOfOne(CrcFrom(Absorb(Crc(front), x), mid), y);
  }

  lemma Split(a: seq<Byte>, i: nat, j: nat)
    requires i < j < |a|
    ensures a == a[..i] + [a[i]] + a[i + 1..j] + [a[j]] + a[j + 1..]
  {
    assert a == a[..j] + [a[j]] + a[j + 1..];
    assert a[..j] == a[..j][..i] + [a[..j][i]] + a[..j][i + 1..];
    assert a[..j][..i] == a[..i] && a[..j][i + 1..] == a[i + 1..j];
  }

  lemma OtherBits(a: seq<Byte>, b: seq<Byte>, i: nat, r: nat, j: nat, s: nat)
    requires FlipsTwo(a, b, i, r, j, s)
    ensures b[..i] == a[..i] && b[i + 1..j] == a[i + 1..j] && b[j + 1..] == a[j + 1..]
  {
    hide Mask;
  }

  lemma OneFlipped(c: Word, x: Byte, x': Byte, r: nat, mid: seq<Byte>)
    requires r < 8 && x ^ x' == Mask(r)
    ensures Xor(CrcFrom(Absorb(c, x), mid), CrcFrom(Absorb(c, x'), mid)) == Shifts(TOP, 23 - r + 8 * |mid|)
  {
    hide CrcFrom, Absorb, Shifts, Xor, Mask;
    AbsorbedDifference(c, x, x');
    MaskIs(r);
    ShiftsSum(TOP, 15 - r, 8);
    DifferenceCarried(Absorb(c, x), Absorb(c, x'), mid);
    ShiftsSum(TOP, 23 - r, 8 * |mid|);
  }

  lemma TwoFlipped(c: Word, x: Byte, x': Byte, r: nat, mid: seq<Byte>, y: Byte, y': Byte, s: nat)
    requires r < 8 && s < 8 && x ^ x' == Mask(r) && y ^ y' == Mask(s)
    ensures Absorb(CrcFrom(Absorb(c, x), mid), y) == Absorb(CrcFrom(Absorb(c, x'), mid), y')
            <==> Multiple(8 * (|mid| + 1) + s - r)
  {
    hide CrcFrom, Absorb, Shifts, Xor, Mask, Multiple;
    OneFlipped(c, x, x', r, mid);
    MaskIs(s);
    MeetIff(CrcFrom(Absorb(c, x), mid), CrcFrom(Absorb(c, x'), mid), y, y');
    SameIff(23 - r + 8 * |mid|, 15 - s);
  }

  /** Main result: frames of equal length that differ in two bits have different CRCs exactly when the bits
      are not a multiple of 32767 bits apart. */
  lemma TwoFlipsIff(a: seq<Byte>, b: seq<Byte>, i: nat, r: nat, j: nat, s: nat)
    requires FlipsTwo(a, b, i, r, j, s)
    ensures Crc(a) != Crc(b) <==> (8 * (j - i) + s - r) % 32767 != 0
  {
    OtherBits(a, b, i, r, j, s);
    Split(a, i, j);
    Split(b, i, j);
    hide CrcFrom, Absorb, Mask;
    var (front, mid, tail) := (a[..i], a[i + 1..j], a[j + 1..]);
    CrcInParts(front, a[i], mid, a[j], tail);
    CrcInParts(front, b[i], mid, b[j], tail);
    var c := Crc(front);
    TwoFlipped(c, a[i], b[i], r, mid, a[j], b[j], s);
    var (e, e') := (CrcFrom(Absorb(c, a[i]), mid), CrcFrom(Absorb(c, b[i]), mid));
    CrcInjective(Absorb(e, a[j]), Absorb(e', b[j]), tail);
  }

  // ----- two flipped bits, counted -----------------------------------------

  lemma {:induction false} NoBit(c: Word, n: nat)
    requires Ones(c, n) == 0
    ensures LowClear(c, n)
    decreases n
  {
    hide Half, Odd;
    if n > 0 { NoBit(Half(c), n - 1); }
  }

  lemma OnlyLowest(c: Word)
    requires Odd(c) && Half(c) == 0
    ensures c == 0x0001
  {
  }

  /** A single bit is the top bit, shifted down. */
  lemma {:induction false} OneBit(c: Word, n: nat) returns (r: nat)
    requires Ones(c, n) == 1 && Below(c, n) && n <= 16
    ensures r < n && c == Shifts(TOP, 15 - r)
    decreases n
  {
    hide Half, Odd, Shifts, LowClear, Xor;
    HalvesInside(c, n - 1);
    if Odd(c) {
      NoBit(Half(c), n - 1);
      ClearAndBelow(Half(c), n - 1);
      OnlyLowest(c);
      FirstPowers();
      r := 0;
    } else {
      var q := OneBit(Half(c), n - 1);
      EvenShift(c);
      ShiftsStep(TOP, 14 - q);
      ShiftInjective(c, Shifts(TOP, 14 - q));
      r := q + 1;
    }
  }

  lemma FlippedNone(x: Byte, y: Byte)
    requires Flipped(x, y) == 0
    ensures (x ^ y) as Word == 0
  {
    NoBit((x ^ y) as Word, 16);
    hide Ones, LowClear;
    AllLow((x ^ y) as Word);
  }

  lemma OnesEight(c: Word)
    requires Below(c, 8)
    ensures Ones(c, 16) == Ones(c, 8)
  {
    OnesFrom(c, 8);
  }

  lemma {:induction false} OnesFrom(c: Word, m: nat)
    requires Below(c, 8)
    ensures Ones(c, 8 + m) == Ones(c, 8)
  {
    hide Ones, Halves, Odd;
    if m > 0 {
      OnesFrom(c, m - 1);
      OneMoreBit(c, 8 + m - 1);
      HalvesSum(c, 8, m - 1);
      ZeroHalves(m - 1);
      ZeroEven();
    }
  }

  lemma FlippedOne(x: Byte, y: Byte) returns (r: nat)
    requires Flipped(x, y) == 1
    ensures r < 8 && (x ^ y) as Word == Shifts(TOP, 15 - r)
  {
    hide Ones, Shifts, Below;
    ByteBelow(x ^ y);
    OnesEight((x ^ y) as Word);
    r := OneBit((x ^ y) as Word, 8);
  }

  lemma {:induction false} NoFlips(c: Word, a: seq<Byte>, b: seq<Byte>)
    requires |a| == |b| && Flips(a, b) == 0
    ensures CrcFrom(c, a) == CrcFrom(c, b)
  {
    hide Absorb, Flipped, Xor;
    if a != [] {
      var (x, y) := (a[|a| - 1], b[|b| - 1]);
      NoFlips(c, a[..|a| - 1], b[..|b| - 1]);
      FlippedNone(x, y);
      var d := CrcFrom(c, a[..|a| - 1]);
      MeetIff(d, d, x, y);
      XorSelf(d);
    }
  }

  /** One flipped bit leaves a difference of one bit, shifted on from where it is. */
  lemma {:induction false} OneFlip(c: Word, a: seq<Byte>, b: seq<Byte>) returns (m: nat)
    requires |a| == |b| && Flips(a, b) == 1
    ensures 16 <= m <= 8 * |a| + 15
    ensures Xor(CrcFrom(c, a), CrcFrom(c, b)) == Shifts(TOP, m)
  {
    hide Absorb, Flipped, Xor, Shifts;
    var (front, front', x, y) := (a[..|a| - 1], b[..|b| - 1], a[|a| - 1], b[|b| - 1]);
    var (d, d') := (CrcFrom(c, front), CrcFrom(c, front'));
    Difference(d, d', x, y);
    if Flipped(x, y) == 0 {
      var n := OneFlip(c, front, front');
      FlippedNone(x, y);
      XorSelf(Xor(d, d'));
      ShiftsSum(TOP, n, 8);
      m := n + 8;
    } else {
      NoFlips(c, front, front');
      var r := FlippedOne(x, y);
      XorSelf(d);
      XorSelf((x ^ y) as Word);
      ShiftsSum(TOP, 15 - r, 8);
      m := 23 - r;
    }
  }

  lemma FlippedSome(x: Byte, y: Byte)
    requires Flipped(x, y) != 0
    ensures (x ^ y) as Word != 0
  {
    NoOnes(16);
  }

  lemma {:induction false} NoOnes(n: nat)
    ensures Ones(0, n) == 0
  {
    if n > 0 { NoOnes(n - 1); }
  }

  /** Main result: frames of at most 4095 bytes that differ in exactly two bits have different CRCs. */
  lemma {:induction false} TwoFlipsDetected(a: seq<Byte>, b: seq<Byte>)
    requires |a| == |b| <= 4095 && Flips(a, b) == 2
    ensures Crc(a) != Crc(b)
  {
    hide Absorb, Flipped, Xor, Shifts;
    var (front, front', x, y) := (a[..|a| - 1], b[..|b| - 1], a[|a| - 1], b[|b| - 1]);
    var (d, d') := (Crc(front), Crc(front'));
    MeetIff(d, d', x, y);
    if Flipped(x, y) == 0 {
      TwoFlipsDetected(front, front');
      FlippedNone(x, y);
      XorZero(d, d');
    } else if Flipped(x, y) == 1 {
      var m := OneFlip(0xFFFF, front, front');
      var r := FlippedOne(x, y);
      SameIff(m, 15 - r);
    } else {
      NoFlips(0xFFFF, front, front');
      FlippedSome(x, y);
      XorSelf(d);
    }
  }
}

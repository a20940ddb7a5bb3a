/** The Modbus CRC: polynomial 0xA001, low bit first, starting from 0xFFFF (MODBUS over Serial Line
    V1.02, section 2.5.1.2 and appendix B), and the errors it detects. */
module Crc16 {
  type Byte = bv8
  type Word = bv16

  function Xor(a: Word, b: Word): Word { a ^ b }
  function Half(c: Word): Word { c >> 1 }
  predicate Odd(c: Word) { c & 1 == 1 }

  const POLYNOMIAL: Word := 0xA001

  /** One bit of the register. */
  function Shift(c: Word): Word { if Odd(c) then Xor(Half(c), POLYNOMIAL) else Half(c) }

  function Shifts(c: Word, n: nat): Word { if n == 0 then c else Shift(Shifts(c, n - 1)) }

  function Absorb(c: Word, b: Byte): Word { Shifts(Xor(c, b as Word), 8) }

  function CrcFrom(c: Word, data: seq<Byte>): Word {
    if data == [] then c else Absorb(CrcFrom(c, data[..|data| - 1]), data[|data| - 1])
  }

  function Crc(data: seq<Byte>): Word { CrcFrom(0xFFFF, data) }

  lemma CrcStart(data: seq<Byte>)
    ensures Crc(data[..0]) == 0xFFFF
  {
  }

  lemma CrcStep(data: seq<Byte>, i: nat)
    requires i < |data|
    ensures Crc(data[..i + 1]) == Shifts(Xor(Crc(data[..i]), data[i] as Word), 8)
  {
    assert data[..i + 1][..i] == data[..i];
  }

  lemma NoShifts()
    ensures forall c :: Shifts(c, 0) == c
  {
  }

  lemma ShiftsStep(c: Word, n: nat)
    ensures Shifts(c, n + 1) == Shift(Shifts(c, n))
  {
  }

  method ComputeCrc(data: array<Byte>, len: nat) returns (crc: Word)
    requires len <= data.Length
    ensures crc == Crc(data[..len])
  {
    hide Shifts, CrcFrom, Xor, Odd, Half;
    CrcStart(data[..]);
    NoShifts();
    crc := 0xFFFF;
    for i := 0 to len
      invariant crc == Crc(data[..i])
    {
      CrcStep(data[..], i);
      crc := Xor(crc, data[i] as Word);
      ghost var before := crc;
      for bit := 0 to 8
        invariant crc == Shifts(before, bit)
      {
        ShiftsStep(before, bit);
        if Odd(crc) {
          crc := Half(crc);
          crc := Xor(crc, POLYNOMIAL);
        } else {
          crc := Half(crc);
        }
      }
    }
  }

  // ----- linear and injective ----------------------------------------------

  lemma HalfOfXor(a: Word, b: Word)
    ensures Half(Xor(a, b)) == Xor(Half(a), Half(b))
  {
  }

  lemma OddOfXor(a: Word, b: Word)
    ensures Odd(Xor(a, b)) <==> Odd(a) != Odd(b)
  {
  }

  lemma XorAssociative(a: Word, b: Word, c: Word)
    ensures Xor(Xor(a, b), c) == Xor(a, Xor(b, c))
  {
  }

  lemma XorCommutes(a: Word, b: Word)
    ensures Xor(a, b) == Xor(b, a)
  {
  }

  lemma XorSelf(a: Word)
    ensures Xor(a, a) == 0 && Xor(0, a) == a == Xor(a, 0)
  {
  }

  lemma XorCancels(a: Word, b: Word)
    ensures Xor(Xor(a, b), b) == a
  {
    hide Xor;
    XorAssociative(a, b, b);
    XorSelf(a);
    XorSelf(b);
  }

  lemma XorTwice(a: Word, b: Word, p: Word)
    ensures Xor(Xor(a, p), Xor(b, p)) == Xor(a, b)
  {
    hide Xor;
    XorAssociative(a, p, Xor(b, p));
    XorCommutes(p, Xor(b, p));
    XorCancels(b, p);
  }

  lemma XorMoves(a: Word, b: Word, y: Word, y': Word)
    requires Xor(a, y) == Xor(b, y')
    ensures Xor(a, b) == Xor(y, y')
  {
    hide Xor;
    XorTwice(a, b, y);
    XorCommutes(Xor(b, y), Xor(a, y));
    XorAssociative(b, y, Xor(b, y'));
    XorCommutes(a, b);
    XorCommutes(y, Xor(b, y'));
    XorCommutes(b, y');
    XorCommutes(b, y);
    XorTwice(y, y', b);
  }

  lemma ShiftLinear(a: Word, b: Word)
    ensures Shift(Xor(a, b)) == Xor(Shift(a), Shift(b))
  {
    hide Half, Odd, Xor;
    HalfOfXor(a, b);
    OddOfXor(a, b);
    var (h, g, p) := (Half(a), Half(b), POLYNOMIAL);
    XorTwice(h, g, p);
    XorAssociative(h, g, p);
    XorAssociative(h, p, g);
    XorCommutes(p, g);
  }

  lemma ShiftInjective(a: Word, b: Word)
    ensures Shift(a) == Shift(b) ==> a == b
  {
  }

  lemma {:induction false} ShiftsInjective(a: Word, b: Word, n: nat)
    ensures Shifts(a, n) == Shifts(b, n) <==> a == b
  {
    hide Shift;
    if n > 0 {
      ShiftsInjective(a, b, n - 1);
      ShiftInjective(Shifts(a, n - 1), Shifts(b, n - 1));
    }
  }

  lemma {:induction false} ShiftsLinear(a: Word, b: Word, n: nat)
    ensures Shifts(Xor(a, b), n) == Xor(Shifts(a, n), Shifts(b, n))
  {
    hide Shift, Xor;
    if n > 0 {
      ShiftsLinear(a, b, n - 1);
      ShiftLinear(Shifts(a, n - 1), Shifts(b, n - 1));
    }
  }

  function High(b: Byte): Word { (b as Word) << 8 }

  /** A byte in the upper half comes down unchanged. */
  lemma ShiftsOfHigh(b: Byte)
    ensures Shifts(High(b), 8) == b as Word
  {
    var c := High(b);
    assert Shifts(c, 0) == c;
    assert Shifts(c, 1) == (b as Word) << 7;
    assert Shifts(c, 2) == (b as Word) << 6;
    assert Shifts(c, 3) == (b as Word) << 5;
    assert Shifts(c, 4) == (b as Word) << 4;
    assert Shifts(c, 5) == (b as Word) << 3;
    assert Shifts(c, 6) == (b as Word) << 2;
    assert Shifts(c, 7) == (b as Word) << 1;
  }

  lemma AbsorbInjective(c: Word, d: Word, b: Byte)
    ensures Absorb(c, b) == Absorb(d, b) <==> c == d
  {
    hide Shifts;
    ShiftsInjective(Xor(c, b as Word), Xor(d, b as Word), 8);
  }

  lemma {:induction false} CrcInjective(c: Word, d: Word, data: seq<Byte>)
    ensures CrcFrom(c, data) == CrcFrom(d, data) <==> c == d
  {
    if data != [] {
      var front := data[..|data| - 1];
      CrcInjective(c, d, front);
      AbsorbInjective(CrcFrom(c, front), CrcFrom(d, front), data[|data| - 1]);
    }
  }

  lemma {:induction false} CrcAppend(c: Word, a: seq<Byte>, b: seq<Byte>)
    ensures CrcFrom(c, a + b) == CrcFrom(CrcFrom(c, a), b)
  {
    if b == [] {
      assert a + b == a;
    } else {
      CrcAppend(c, a, b[..|b| - 1]);
      assert (a + b)[..|a + b| - 1] == a + b[..|b| - 1];
    }
  }

  lemma CrcOfTwo(c: Word, x: Byte, y: Byte)
    ensures CrcFrom(c, [x, y]) == Absorb(Absorb(c, x), y)
  {
    hide Absorb;
    assert [x, y][..1] == [x] && [x][..0] == [];
    assert CrcFrom(c, [x]) == Absorb(c, x);
  }

  // ----- main results ------------------------------------------------------

  /** Two bytes in a row take a register to the same state only if they are the same bytes. */
  lemma TwoBytes(c: Word, x: Byte, y: Byte, x': Byte, y': Byte)
    ensures Absorb(Absorb(c, x), y) == Absorb(Absorb(c, x'), y') <==> x == x' && y == y'
  {
    hide Absorb, High, Xor, Shifts;
    if Absorb(Absorb(c, x), y) == Absorb(Absorb(c, x'), y') {
      AbsorbedSame(Absorb(c, x), y, Absorb(c, x'), y');
      AbsorbedDifference(c, x, x');
      XorOfBytes(y, y');
      ShiftsOfHigh(y ^ y');
      ShiftsInjective((x ^ x') as Word, High(y ^ y'), 8);
      HighAndLow(x, x', y, y');
    }
  }

  lemma AbsorbedSame(a: Word, y: Byte, b: Word, y': Byte)
    requires Absorb(a, y) == Absorb(b, y')
    ensures Xor(a, b) == Xor(y as Word, y' as Word)
  {
    hide Shifts, Xor;
    ShiftsInjective(Xor(a, y as Word), Xor(b, y' as Word), 8);
    XorMoves(a, b, y as Word, y' as Word);
  }

  lemma AbsorbedDifference(c: Word, x: Byte, x': Byte)
    ensures Xor(Absorb(c, x), Absorb(c, x')) == Shifts((x ^ x') as Word, 8)
  {
    hide Shifts, Xor;
    ShiftsLinear(Xor(c, x as Word), Xor(c, x' as Word), 8);
    XorCommutes(c, x as Word);
    XorCommutes(c, x' as Word);
    XorTwice(x as Word, x' as Word, c);
    XorOfBytes(x, x');
  }

  lemma XorOfBytes(y: Byte, y': Byte)
    ensures Xor(y as Word, y' as Word) == (y ^ y') as Word
  {
  }

  lemma HighAndLow(x: Byte, x': Byte, y: Byte, y': Byte)
    requires (x ^ x') as Word == High(y ^ y')
    ensures x == x' && y == y'
  {
  }

  /** Main result: frames of equal length that differ, but only inside two neighbouring bytes, have
      different CRCs. */
  lemma BurstDetected(a: seq<Byte>, b: seq<Byte>, i: nat)
    requires |a| == |b| && i + 1 < |a| && a != b
    requires forall j :: 0 <= j < |a| && j != i && j != i + 1 ==> a[j] == b[j]
    ensures Crc(a) != Crc(b)
  {
    hide Absorb, Shifts;
    var (front, tail) := (a[..i], a[i + 2..]);
    assert a == front + [a[i], a[i + 1]] + tail;
    assert b == front + [b[i], b[i + 1]] + tail;
    CrcAppend(0xFFFF, front + [a[i], a[i + 1]], tail);
    CrcAppend(0xFFFF, front + [b[i], b[i + 1]], tail);
    CrcAppend(0xFFFF, front, [a[i], a[i + 1]]);
    CrcAppend(0xFFFF, front, [b[i], b[i + 1]]);
    var c := Crc(front);
    CrcOfTwo(c, a[i], a[i + 1]);
    CrcOfTwo(c, b[i], b[i + 1]);
    TwoBytes(c, a[i], a[i + 1], b[i], b[i + 1]);
    CrcInjective(CrcFrom(c, [a[i], a[i + 1]]), CrcFrom(c, [b[i], b[i + 1]]), tail);
  }

  lemma SampleFirst()
    ensures Absorb(0xFFFF, 0x02) == 0x813E
  {
    var c: Word := 0xFFFD;
    assert Shifts(c, 1) == 0xDFFF;
    assert Shifts(c, 2) == 0xCFFE;
    assert Shifts(c, 3) == 0x67FF;
    assert Shifts(c, 4) == 0x93FE;
    assert Shifts(c, 5) == 0x49FF;
    assert Shifts(c, 6) == 0x84FE;
    assert Shifts(c, 7) == 0x427F;
    assert Shifts(c, 8) == 0x813E;
  }

  lemma SampleSecond()
    ensures Absorb(0x813E, 0x07) == 0x1241
  {
    var c: Word := 0x8139;
    assert Shifts(c, 1) == 0xE09D;
    assert Shifts(c, 2) == 0xD04F;
    assert Shifts(c, 3) == 0xC826;
    assert Shifts(c, 4) == 0x6413;
    assert Shifts(c, 5) == 0x9208;
    assert Shifts(c, 6) == 0x4904;
    assert Shifts(c, 7) == 0x2482;
    assert Shifts(c, 8) == 0x1241;
  }

  /** The CRC of the frame 02 07 is 0x1241, as in MODBUS over Serial Line V1.02, section 6.2.2. */
  lemma SampleCrc()
    ensures Crc([0x02, 0x07]) == 0x1241
  {
    hide Absorb;
    SampleFirst();
    SampleSecond();
    CrcOfTwo(0xFFFF, 0x02, 0x07);
  }

  function Lo(w: Word): Byte { (w & 0xFF) as Byte }
  function Hi(w: Word): Byte { (w >> 8) as Byte }
  function Join(hi: Byte, lo: Byte): Word { High(hi) | (lo as Word) }

  lemma Joined(w: Word, hi: Byte, lo: Byte)
    ensures Join(Hi(w), Lo(w)) == w && Hi(Join(hi, lo)) == hi && Lo(Join(hi, lo)) == lo
  {
  }

  /** A payload with its CRC behind it, low byte first. */
  function Frame(payload: seq<Byte>): seq<Byte> { payload + [Lo(Crc(payload)), Hi(Crc(payload))] }

  /** The receiver's check: the trailer is the CRC of what is before it. */
  predicate TrailerMatches(f: seq<Byte>)
    requires |f| >= 2
  {
    Join(f[|f| - 1], f[|f| - 2]) == Crc(f[..|f| - 2])
  }

  lemma FrameMatches(p: seq<Byte>)
    ensures TrailerMatches(Frame(p)) && Frame(p)[..|p|] == p
  {
    hide Crc;
    assert Frame(p)[..|p|] == p;
    Joined(Crc(p), 0, 0);
  }

  lemma MatchesFrame(f: seq<Byte>)
    requires |f| >= 2 && TrailerMatches(f)
    ensures f == Frame(f[..|f| - 2])
  {
    hide Crc;
    Joined(0, f[|f| - 1], f[|f| - 2]);
  }

  lemma OwnTrailerIsZero(c: Word)
    ensures CrcFrom(c, [Lo(c), Hi(c)]) == 0
  {
    hide Shifts, Xor, CrcFrom, High;
    CrcOfTwo(c, Lo(c), Hi(c));
    RestIsHigh(c);
    ShiftsOfHigh(Hi(c));
    XorSelf(Hi(c) as Word);
    ZeroStays(8);
  }

  lemma RestIsHigh(c: Word)
    ensures Xor(c, Lo(c) as Word) == High(Hi(c))
  {
  }

  lemma {:induction false} ZeroStays(n: nat)
    ensures Shifts(0, n) == 0
  {
    if n > 0 { ZeroStays(n - 1); }
  }

  /** Main result: the check passes exactly when the CRC over the whole frame, trailer included, is
      zero. */
  lemma TrailerIffZero(f: seq<Byte>)
    requires |f| >= 2
    ensures TrailerMatches(f) <==> Crc(f) == 0
  {
    hide Absorb, CrcFrom;
    var p := f[..|f| - 2];
    var c := Crc(p);
    var (lo, hi) := (f[|f| - 2], f[|f| - 1]);
    assert f == p + [lo, hi];
    CrcAppend(0xFFFF, p, [lo, hi]);
    OwnTrailerIsZero(c);
    CrcOfTwo(c, lo, hi);
    CrcOfTwo(c, Lo(c), Hi(c));
    TwoBytes(c, lo, hi, Lo(c), Hi(c));
    Joined(c, hi, lo);
  }
}

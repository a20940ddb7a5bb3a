/** The numbers that bytes and words stand for, and the addresses counted with them. */
module ModbusNumbers {
  import opened Crc16
  import opened Modbus
  import Nonlinear

  // ----- bits --------------------------------------------------------------

  lemma MaskBits(a: Byte, p: nat, j: nat)
    requires p < 8 && j < 8
    ensures Has(Or(a, Mask(p)), j) <==> p == j || Has(a, j)
  {
  }

  lemma NothingHas(j: nat)
    requires j < 8
    ensures !Has(0, j)
  {
  }

  lemma {:induction false} FromBitsHave(n: nat, k: nat, j: nat)
    requires k <= 8 && j < 8
    ensures Has(FromBits(n, k), j) <==> j < k && BitOf(n, j)
  {
    hide Has, Or, Mask, BitOf;
    if k == 0 {
      NothingHas(j);
    } else {
      FromBitsHave(n, k - 1, j);
      MaskBits(FromBits(n, k - 1), k - 1, j);
    }
  }

  /** The digit at m, in base two. */
  lemma DigitAt(n: nat, m: nat)
    requires m > 0
    ensures n % (2 * m) == n % m + if n / m % 2 == 1 then m else 0
  {
    var (q, r) := (n / m, n % m);
    var (p, b) := (q / 2, q % 2);
    assert n == q * m + r;
    assert (2 * p + b) * m == p * (2 * m) + b * m;
    Nonlinear.Euclid(n, 2 * m, p, b * m + r);
  }

  lemma {:induction false} LowOf(n: nat, j: nat)
    requires j <= 8
    ensures Low(ToByte(n), j) == n % Weight(j)
  {
    hide ToByte, Has;
    if j > 0 {
      LowOf(n, j - 1);
      DigitAt(n, Weight(j - 1));
      ByteHas(n, j - 1);
    }
  }

  lemma ByteHas(n: nat, j: nat)
    requires j < 8
    ensures Has(ToByte(n), j) <==> BitOf(n, j)
  {
    FromBitsHave(n, 8, j);
  }

  /** The cast keeps a number modulo 256. */
  lemma ByteOf(n: nat)
    ensures Value(ToByte(n)) == n % 256
  {
    hide Low, ToByte;
    LowOf(n, 8);
    assert Weight(4) == 16 && Weight(8) == 256;
  }

  lemma CountOf(n: nat)
    requires n < 0x10000
    ensures Count(ToWord(n)) == n
  {
    hide Hi, Lo, Join, ToByte, Value;
    ByteOf(n / 256);
    ByteOf(n % 256);
    Joined(0, ToByte(n / 256), ToByte(n % 256));
  }

  // ----- numbers -----------------------------------------------------------

  lemma Weights()
    ensures Weight(0) == 1 && Weight(1) == 2 && Weight(2) == 4 && Weight(3) == 8
    ensures Weight(4) == 16 && Weight(5) == 32 && Weight(6) == 64 && Weight(7) == 128
  {
    assert Weight(2) == 4;
    assert Weight(4) == 16;
    assert Weight(6) == 64;
  }

  function Bit(b: Byte, j: nat, w: nat): nat
    requires j < 8
  {
    if Has(b, j) then w else 0
  }

  lemma ByteSum(b: Byte)
    ensures b as int == Bit(b, 0, 1) + Bit(b, 1, 2) + Bit(b, 2, 4) + Bit(b, 3, 8) + Bit(b, 4, 16) + Bit(b, 5, 32)
                        + Bit(b, 6, 64) + Bit(b, 7, 128)
  {
  }

  lemma LowStep(b: Byte, j: nat, w: nat)
    requires j < 8 && w == Weight(j)
    ensures Low(b, 0) == 0 && Low(b, j + 1) == Low(b, j) + Bit(b, j, w)
  {
    hide Has, Weight;
  }

  lemma ValueSum(b: Byte)
    ensures Value(b) == Bit(b, 0, 1) + Bit(b, 1, 2) + Bit(b, 2, 4) + Bit(b, 3, 8) + Bit(b, 4, 16) + Bit(b, 5, 32)
                        + Bit(b, 6, 64) + Bit(b, 7, 128)
  {
    hide Bit, Low, Has, Weight;
    Weights();
    LowStep(b, 0, 1);
    LowStep(b, 1, 2);
    LowStep(b, 2, 4);
    LowStep(b, 3, 8);
    LowStep(b, 4, 16);
    LowStep(b, 5, 32);
    LowStep(b, 6, 64);
    LowStep(b, 7, 128);
  }

  lemma ByteIs(b: Byte)
    ensures Value(b) == b as int
  {
    ByteSum(b);
    ValueSum(b);
    hide Value, Bit;
  }

  lemma WordSum(w: Word)
    ensures w as int == 256 * (((w >> 8) as Byte) as int) + ((w & 0xFF) as Byte) as int
  {
  }

  /** Two bytes on the wire are a number, the high one first. */
  lemma CountIs(w: Word)
    ensures Count(w) == w as int
  {
    WordSum(w);
    ByteIs(Hi(w));
    ByteIs(Lo(w));
    hide Value;
  }

  lemma SameByte(a: Byte, b: Byte)
    ensures Value(a) == Value(b) ==> a == b
  {
    ByteIs(a);
    ByteIs(b);
    hide Value;
  }

  lemma SameWord(v: Word, w: Word)
    ensures Count(v) == Count(w) ==> v == w
  {
    SameByte(Hi(v), Hi(w));
    SameByte(Lo(v), Lo(w));
    Joined(v, 0, 0);
    Joined(w, 0, 0);
    BytesBelow(v);
    BytesBelow(w);
    hide Hi, Lo, Value, Join;
  }

  lemma BytesBelow(w: Word)
    ensures Value(Hi(w)) < 256 && Value(Lo(w)) < 256
  {
    ByteBelow256(Hi(w));
    ByteBelow256(Lo(w));
    hide Hi, Lo, Value;
  }

  lemma ByteBelow256(b: Byte)
    ensures Value(b) < 256
  {
    ValueSum(b);
    hide Value, Has;
  }

  lemma CountBelow(w: Word)
    ensures Count(w) < 0x10000
  {
    BytesBelow(w);
    hide Hi, Lo, Value;
  }

  // ----- addresses ---------------------------------------------------------

  /** The addresses of a request follow one another, and 0 follows 65535. */
  lemma AddressIs(start: Word, i: nat)
    ensures Count(Address(start, i)) == (Count(start) + i) % 0x10000
  {
    hide Count, ToWord;
    CountOf((Count(start) + i) % 0x10000);
  }

  lemma FirstAddress(start: Word)
    ensures Address(start, 0) == start
  {
    hide Count, Address;
    AddressIs(start, 0);
    CountBelow(start);
    SameWord(Address(start, 0), start);
  }

  lemma AddressesDiffer(start: Word, i: nat, j: nat)
    requires i < j < 0x10000
    ensures Address(start, i) != Address(start, j)
  {
    hide Count, Address;
    AddressIs(start, i);
    AddressIs(start, j);
    CountBelow(start);
  }
}

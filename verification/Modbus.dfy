/** The Modbus RTU slave: function codes 01, 03, 06 and 16 (MODBUS Application Protocol V1.1b3, sections
    6.1, 6.3, 6.6 and 6.12) over fixed buffers.

    The callbacks are functions of an address and the application's own state; a callback that is not
    installed is None. `Serve` says what a frame is answered with and what becomes of that state. */
module Modbus {
  import opened Wrappers
  import opened Crc16

  datatype Device<!S> = Device(
    readReg: Option<(Word, S) -> (Option<Word>, S)>,
    writeReg: Option<(Word, Word, S) -> (bool, S)>,
    readCoil: Option<(Word, S) -> (Option<Byte>, S)>)

  const READ_COILS: Byte := 0x01
  const READ_HOLDING_REGS: Byte := 0x03
  const WRITE_SINGLE_REG: Byte := 0x06
  const WRITE_MULTIPLE_REGS: Byte := 0x10

  const ILLEGAL_FUNCTION: Byte := 1
  const ILLEGAL_DATA_ADDRESS: Byte := 2
  const ILLEGAL_DATA_VALUE: Byte := 3

  const BUFFER := 256
  const COUNTS := 0x1_0000_0000

  /** `1 << j`. */
  function Mask(j: nat): Byte
    requires j < 8
  {
    match j
    case 0 => 0x01
    case 1 => 0x02
    case 2 => 0x04
    case 3 => 0x08
    case 4 => 0x10
    case 5 => 0x20
    case 6 => 0x40
    case _ => 0x80
  }

  function Weight(j: nat): (w: nat)
    requires j <= 8
    ensures w > 0
  {
    if j == 0 then 1 else 2 * Weight(j - 1)
  }

  function Or(a: Byte, b: Byte): Byte { a | b }

  predicate Has(a: Byte, j: nat)
    requires j < 8
  {
    a & Mask(j) != 0
  }

  /** The number the first j bits of a byte stand for. */
  function Low(b: Byte, j: nat): nat
    requires j <= 8
  {
    if j == 0 then 0 else Low(b, j - 1) + if Has(b, j - 1) then Weight(j - 1) else 0
  }

  function Value(b: Byte): nat { Low(b, 8) }

  predicate BitOf(n: nat, j: nat)
    requires j < 8
  {
    n / Weight(j) % 2 == 1
  }

  /** The byte of the first j bits of a number. */
  function FromBits(n: nat, j: nat): Byte
    requires j <= 8
  {
    if j == 0 then 0
    else if BitOf(n, j - 1) then Or(FromBits(n, j - 1), Mask(j - 1)) else FromBits(n, j - 1)
  }

  /** The cast to a byte. */
  function ToByte(n: nat): Byte { FromBits(n, 8) }

  /** The number a word stands for. */
  function Count(w: Word): nat { 256 * Value(Hi(w)) + Value(Lo(w)) }

  function ToWord(n: nat): Word
    requires n < 0x10000
  {
    Join(ToByte(n / 256), ToByte(n % 256))
  }

  /** The i-th address from `start`, an int that is passed on as 16 bits. */
  function Address(start: Word, i: nat): Word { ToWord((Count(start) + i) % 0x10000) }

  // ----- what the callbacks yield ------------------------------------------

  /** The first n registers, or None at the first that cannot be read. */
  function Registers<S>(dev: Device<S>, start: Word, n: nat, s: S): (r: (Option<seq<Word>>, S))
    requires n < 0x10000
    ensures r.0.Some? ==> |r.0.value| == n
  {
    if n == 0 then (Some([]), s)
    else
      var (ws, t) := Registers(dev, start, n - 1, s);
      if ws.None? || dev.readReg.None? then (None, t)
      else
        var (w, t') := dev.readReg.value(Address(start, n - 1), t);
        (if w.Some? then Some(ws.value + [w.value]) else None, t')
  }

  function Coils<S>(dev: Device<S>, start: Word, n: nat, s: S): (r: (Option<seq<bool>>, S))
    requires n < 0x10000
    ensures r.0.Some? ==> |r.0.value| == n
  {
    if n == 0 then (Some([]), s)
    else
      var (bs, t) := Coils(dev, start, n - 1, s);
      if bs.None? then (None, t)
      else if dev.readCoil.None? then (Some(bs.value + [false]), t)
      else
        var (c, t') := dev.readCoil.value(Address(start, n - 1), t);
        (if c.Some? then Some(bs.value + [c.value != 0]) else None, t')
  }

  /** Whether all words could be written; those before the first that could not have been. */
  function Stored<S>(dev: Device<S>, start: Word, ws: seq<Word>, s: S): (bool, S)
    requires |ws| < 0x10000
  {
    if ws == [] then (true, s)
    else
      var (ok, t) := Stored(dev, start, ws[..|ws| - 1], s);
      if !ok || dev.writeReg.None? then (false, t)
      else dev.writeReg.value(Address(start, |ws| - 1), ws[|ws| - 1], t)
  }

  // ----- bytes -------------------------------------------------------------

  /** Words as they are sent, high byte first. */
  function WordBytes(ws: seq<Word>): (bs: seq<Byte>)
    ensures |bs| == 2 * |ws|
  {
    if ws == [] then [] else WordBytes(ws[..|ws| - 1]) + [Hi(ws[|ws| - 1]), Lo(ws[|ws| - 1])]
  }

  function WordAt(rx: seq<Byte>, i: nat): Word
    requires i + 1 < |rx|
  {
    Join(rx[i], rx[i + 1])
  }

  function WordsAt(rx: seq<Byte>, i: nat, n: nat): (ws: seq<Word>)
    requires i + 2 * n <= |rx|
    ensures |ws| == n
  {
    if n == 0 then [] else WordsAt(rx, i, n - 1) + [WordAt(rx, i + 2 * (n - 1))]
  }

  /** The first j bits of byte k of the coils. */
  function BitsOf(bits: seq<bool>, k: nat, j: nat): Byte
    requires j <= 8
  {
    if j == 0 then 0
    else
      var i := 8 * k + j - 1;
      if i < |bits| && bits[i] then Or(BitsOf(bits, k, j - 1), Mask(j - 1)) else BitsOf(bits, k, j - 1)
  }

  /** The first n data bytes. */
  function Cells(bits: seq<bool>, n: nat): seq<Byte> { seq(n, k requires 0 <= k < n => BitsOf(bits, k, 8)) }

  function Packed(bits: seq<bool>): seq<Byte> { Cells(bits, (|bits| + 7) / 8) }

  // ----- what a frame is answered with -------------------------------------

  datatype Reply<S> = Normal(payload: seq<Byte>, user: S) | Exceptional(payload: seq<Byte>, user: S)

  function Exception<S>(slave: Byte, fc: Byte, code: Byte, s: S): Reply<S> {
    Exceptional([slave, fc | 0x80, code], s)
  }

  function ReadCoilsReply<S>(dev: Device<S>, slave: Byte, rx: seq<Byte>, s: S): Reply<S> {
    if |rx| < 8 then Exception(slave, READ_COILS, ILLEGAL_DATA_VALUE, s)
    else
      var (start, quantity) := (WordAt(rx, 2), Count(WordAt(rx, 4)));
      if quantity == 0 || quantity > 2000 then Exception(slave, READ_COILS, ILLEGAL_DATA_VALUE, s)
      else
        var (bits, t) := Coils(dev, start, quantity, s);
        if bits.None? then Exception(slave, READ_COILS, ILLEGAL_DATA_ADDRESS, t)
        else Normal([slave, READ_COILS, ToByte((quantity + 7) / 8)] + Packed(bits.value), t)
  }

  function ReadRegsReply<S>(dev: Device<S>, slave: Byte, rx: seq<Byte>, s: S): Reply<S> {
    if |rx| < 8 then Exception(slave, READ_HOLDING_REGS, ILLEGAL_DATA_VALUE, s)
    else
      var (start, quantity) := (WordAt(rx, 2), Count(WordAt(rx, 4)));
      if quantity == 0 || quantity > 125 then Exception(slave, READ_HOLDING_REGS, ILLEGAL_DATA_VALUE, s)
      else
        var (ws, t) := Registers(dev, start, quantity, s);
        if ws.None? then Exception(slave, READ_HOLDING_REGS, ILLEGAL_DATA_ADDRESS, t)
        else Normal([slave, READ_HOLDING_REGS, ToByte(quantity * 2)] + WordBytes(ws.value), t)
  }

  function WriteRegReply<S>(dev: Device<S>, slave: Byte, rx: seq<Byte>, s: S): Reply<S> {
    if |rx| < 8 then Exception(slave, WRITE_SINGLE_REG, ILLEGAL_DATA_VALUE, s)
    else
      var (addr, value) := (WordAt(rx, 2), WordAt(rx, 4));
      if dev.writeReg.None? then Exception(slave, WRITE_SINGLE_REG, ILLEGAL_DATA_ADDRESS, s)
      else
        var (ok, t) := dev.writeReg.value(addr, value, s);
        if !ok then Exception(slave, WRITE_SINGLE_REG, ILLEGAL_DATA_ADDRESS, t)
        else Normal([slave, WRITE_SINGLE_REG, Hi(addr), Lo(addr), Hi(value), Lo(value)], t)
  }

  function WriteRegsReply<S>(dev: Device<S>, slave: Byte, rx: seq<Byte>, s: S): Reply<S> {
    if |rx| < 9 then Exception(slave, WRITE_MULTIPLE_REGS, ILLEGAL_DATA_VALUE, s)
    else
      var (start, count) := (WordAt(rx, 2), WordAt(rx, 4));
      var (quantity, byteCount) := (Count(count), Value(rx[6]));
      if quantity == 0 || quantity > 123 || byteCount != quantity * 2 || |rx| < 7 + byteCount + 2
      then Exception(slave, WRITE_MULTIPLE_REGS, ILLEGAL_DATA_VALUE, s)
      else
        var (ok, t) := Stored(dev, start, WordsAt(rx, 7, quantity), s);
        if !ok then Exception(slave, WRITE_MULTIPLE_REGS, ILLEGAL_DATA_ADDRESS, t)
        else Normal([slave, WRITE_MULTIPLE_REGS, Hi(start), Lo(start), Hi(count), Lo(count)], t)
  }

  function Serve<S>(dev: Device<S>, slave: Byte, rx: seq<Byte>, s: S): Reply<S>
    requires |rx| >= 2
  {
    if rx[1] == READ_COILS then ReadCoilsReply(dev, slave, rx, s)
    else if rx[1] == READ_HOLDING_REGS then ReadRegsReply(dev, slave, rx, s)
    else if rx[1] == WRITE_SINGLE_REG then WriteRegReply(dev, slave, rx, s)
    else if rx[1] == WRITE_MULTIPLE_REGS then WriteRegsReply(dev, slave, rx, s)
    else Exception(slave, rx[1], ILLEGAL_FUNCTION, s)
  }

  function Next(count: nat): nat { (count + 1) % COUNTS }

  // ----- lemmas the handlers need ------------------------------------------

  lemma {:induction false} BitsAdded(bits: seq<bool>, b: bool, k: nat, j: nat)
    requires j <= 8
    ensures var (i, more) := (|bits|, bits + [b]);
            BitsOf(more, k, j) ==
            if b && k == i / 8 && i % 8 < j then Or(BitsOf(bits, k, j), Mask(i % 8)) else BitsOf(bits, k, j)
  {
    hide Or, Mask;
    if j > 0 {
      BitsAdded(bits, b, k, j - 1);
      OrNothingLost(BitsOf(bits, k, j - 1), Mask(j - 1), Mask(|bits| % 8));
    }
  }

  lemma OrNothingLost(a: Byte, m: Byte, n: Byte)
    ensures Or(Or(a, n), m) == Or(Or(a, m), n)
  {
  }

  lemma {:induction false} NoBits(k: nat, j: nat)
    requires j <= 8
    ensures BitsOf([], k, j) == 0
  {
    if j > 0 { NoBits(k, j - 1); }
  }

  /** One more coil sets its bit, if it is on, and nothing else. */
  lemma CellsStep(bits: seq<bool>, b: bool, n: nat)
    requires |bits| / 8 < n
    ensures var (k, cells) := (|bits| / 8, Cells(bits, n));
            Cells(bits + [b], n) == if b then cells[k := Or(cells[k], Mask(|bits| % 8))] else cells
  {
    hide BitsOf, Or, Mask;
    forall k | 0 <= k < n
      ensures BitsOf(bits + [b], k, 8) ==
              if b && k == |bits| / 8 then Or(BitsOf(bits, k, 8), Mask(|bits| % 8)) else BitsOf(bits, k, 8)
    {
      BitsAdded(bits, b, k, 8);
    }
  }

  lemma ClearedCells(cells: seq<Byte>)
    requires forall k :: 0 <= k < |cells| ==> cells[k] == 0
    ensures cells == Cells([], |cells|)
  {
    forall k | 0 <= k < |cells| ensures BitsOf([], k, 8) == 0 { NoBits(k, 8); }
  }

  lemma CoilsStep<S>(dev: Device<S>, start: Word, n: nat, s: S)
    requires n + 1 < 0x10000
    ensures var ((bs, t), more) := (Coils(dev, start, n, s), Coils(dev, start, n + 1, s));
            && (bs.None? ==> more == (None, t))
            && (bs.Some? && dev.readCoil.None? ==> more == (Some(bs.value + [false]), t))
            && (bs.Some? && dev.readCoil.Some? ==>
                  var (c, t') := dev.readCoil.value(Address(start, n), t);
                  more == (if c.Some? then Some(bs.value + [c.value != 0]) else None, t'))
  {
    hide Address;
  }

  lemma NoCoils<S>(dev: Device<S>, start: Word, s: S)
    ensures Coils(dev, start, 0, s) == (Some([]), s)
  {
  }

  lemma {:induction false} CoilsFail<S>(dev: Device<S>, start: Word, n: nat, m: nat, s: S)
    requires n <= m < 0x10000 && Coils(dev, start, n, s).0.None?
    ensures Coils(dev, start, m, s) == Coils(dev, start, n, s)
  {
    if n < m { CoilsFail(dev, start, n, m - 1, s); }
  }

  lemma RegistersStep<S>(dev: Device<S>, start: Word, n: nat, s: S)
    requires n + 1 < 0x10000
    ensures Registers(dev, start, 0, s) == (Some([]), s)
    ensures var ((ws, t), more) := (Registers(dev, start, n, s), Registers(dev, start, n + 1, s));
            && (ws.None? || dev.readReg.None? ==> more == (None, t))
            && (ws.Some? && dev.readReg.Some? ==>
                  var (w, t') := dev.readReg.value(Address(start, n), t);
                  more == (if w.Some? then Some(ws.value + [w.value]) else None, t'))
  {
    hide Address;
  }

  lemma WordBytesStep(ws: seq<Word>, w: Word)
    ensures WordBytes([]) == [] && WordBytes(ws + [w]) == WordBytes(ws) + [Hi(w), Lo(w)]
  {
    hide Hi, Lo;
    assert (ws + [w])[..|ws|] == ws;
  }

  lemma StoredStep<S>(dev: Device<S>, start: Word, ws: seq<Word>, w: Word, s: S)
    requires |ws| + 1 < 0x10000
    ensures Stored(dev, start, [], s) == (true, s)
    ensures var ((ok, t), more) := (Stored(dev, start, ws, s), Stored(dev, start, ws + [w], s));
            && (!ok || dev.writeReg.None? ==> more == (false, t))
            && (ok && dev.writeReg.Some? ==> more == dev.writeReg.value(Address(start, |ws|), w, t))
  {
    hide Address;
    assert (ws + [w])[..|ws|] == ws;
  }

  lemma {:induction false} RegistersFail<S>(dev: Device<S>, start: Word, n: nat, m: nat, s: S)
    requires n <= m < 0x10000 && Registers(dev, start, n, s).0.None?
    ensures Registers(dev, start, m, s) == Registers(dev, start, n, s)
  {
    if n < m { RegistersFail(dev, start, n, m - 1, s); }
  }

  lemma {:induction false} StoredFail<S>(dev: Device<S>, start: Word, ws: seq<Word>, n: nat, s: S)
    requires n <= |ws| < 0x10000 && !Stored(dev, start, ws[..n], s).0
    ensures Stored(dev, start, ws, s) == Stored(dev, start, ws[..n], s)
    decreases |ws|
  {
    if n == |ws| {
      assert ws[..n] == ws;
    } else {
      assert ws[..|ws| - 1][..n] == ws[..n];
      StoredFail(dev, start, ws[..|ws| - 1], n, s);
    }
  }

  lemma {:induction false} WordsAtHas(rx: seq<Byte>, i: nat, k: nat, n: nat)
    requires k < n && i + 2 * n <= |rx|
    ensures WordsAt(rx, i, n)[k] == WordAt(rx, i + 2 * k)
  {
    hide WordAt;
    if k < n - 1 { WordsAtHas(rx, i, k, n - 1); }
  }

  lemma QuantityByte(quantity: nat)
    ensures quantity <= 125 ==> quantity * 2 < 256
    ensures quantity <= 2000 ==> (quantity + 7) / 8 <= 250
  {
  }

  // ----- the slave ---------------------------------------------------------

  class ModbusRtu<S> {
    const slaveAddr: Byte
    const rxBuf: array<Byte>
    const txBuf: array<Byte>
    const device: Device<S>
    var rxLen: nat
    var txLen: nat
    var user: S
    var rxCount: nat
    var txCount: nat
    var errCount: nat

    ghost predicate Valid()
      reads this
    {
      && rxBuf.Length == BUFFER && txBuf.Length == BUFFER && rxBuf != txBuf
      && rxLen <= BUFFER && txLen <= BUFFER
      && rxCount < COUNTS && txCount < COUNTS && errCount < COUNTS
    }

    constructor (slaveAddr: Byte, device: Device<S>, user: S)
      ensures Valid() && fresh(rxBuf) && fresh(txBuf)
      ensures this.slaveAddr == slaveAddr && this.device == device && this.user == user
      ensures rxLen == 0 && txLen == 0 && rxCount == 0 && txCount == 0 && errCount == 0
    {
      this.slaveAddr := slaveAddr;
      this.device := device;
      this.user := user;
      rxBuf := new Byte[BUFFER];
      txBuf := new Byte[BUFFER];
      rxLen, txLen := 0, 0;
      rxCount, txCount, errCount := 0, 0, 0;
    }

    ghost function Rx(): seq<Byte>
      requires Valid()
      reads this, rxBuf
    {
      rxBuf[..rxLen]
    }

    ghost function Tx(): seq<Byte>
      requires Valid()
      reads this, txBuf
    {
      txBuf[..txLen]
    }

    /** A byte that finds the buffer full is dropped. */
    method RxByte(byte: Byte)
      requires Valid()
      modifies this`rxLen, rxBuf
      ensures Valid()
      ensures Rx() == if old(rxLen) < BUFFER then old(Rx()) + [byte] else old(Rx())
    {
      if rxLen < BUFFER {
        rxBuf[rxLen] := byte;
        rxLen := rxLen + 1;
      }
    }

    method RxReset()
      requires Valid()
      modifies this`rxLen
      ensures Valid() && Rx() == []
    {
      rxLen := 0;
    }

    /** The reply is in the send buffer, with its CRC. */
    ghost predicate Answered(r: Reply<S>, errors: nat)
      requires Valid()
      reads this, txBuf
    {
      && Tx() == Frame(r.payload) && user == r.user
      && errCount == if r.Exceptional? then Next(errors) else errors
    }

    /** Put the CRC of the first `len` bytes behind them. */
    method Finish(len: nat)
      requires Valid() && len + 2 <= BUFFER
      modifies this`txLen, txBuf
      ensures Valid() && txLen == len + 2 && Tx() == Frame(old(txBuf[..len]))
    {
      var crc := ComputeCrc(txBuf, len);
      ghost var payload := txBuf[..len];
      txBuf[len] := Lo(crc);
      txBuf[len + 1] := Hi(crc);
      txLen := len + 2;
      hide Crc, Lo, Hi;
      assert txBuf[..len + 2] == payload + [Lo(crc), Hi(crc)];
    }

    method SendException(fc: Byte, code: Byte) returns (n: nat)
      requires Valid()
      modifies this`txLen, this`errCount, txBuf
      ensures Valid() && n == txLen
      ensures Answered(Exception(slaveAddr, fc, code, user), old(errCount))
    {
      hide Crc, Lo, Hi;
      txBuf[0] := slaveAddr;
      txBuf[1] := fc | 0x80;
      txBuf[2] := code;
      assert txBuf[..3] == [slaveAddr, fc | 0x80, code];
      Finish(3);
      errCount := Next(errCount);
      n := txLen;
    }

    /** A six-byte reply: the address, the function code and two words. */
    method SendWords(fc: Byte, a: Word, b: Word) returns (n: nat)
      requires Valid()
      modifies this`txLen, txBuf
      ensures Valid() && n == txLen
      ensures Tx() == Frame([slaveAddr, fc, Hi(a), Lo(a), Hi(b), Lo(b)])
    {
      hide Crc, Lo, Hi;
      txBuf[0] := slaveAddr;
      txBuf[1] := fc;
      txBuf[2] := Hi(a);
      txBuf[3] := Lo(a);
      txBuf[4] := Hi(b);
      txBuf[5] := Lo(b);
      assert txBuf[..6] == [slaveAddr, fc, Hi(a), Lo(a), Hi(b), Lo(b)];
      Finish(6);
      n := txLen;
    }

    /** A header of three bytes; the data is in place behind it. */
    method SendData(fc: Byte, bytes: nat) returns (n: nat)
      requires Valid() && bytes <= 250
      modifies this`txLen, txBuf
      ensures Valid() && n == txLen
      ensures Tx() == Frame([slaveAddr, fc, ToByte(bytes)] + old(txBuf[3..3 + bytes]))
    {
      hide Crc, Lo, Hi, Frame, ToByte;
      txBuf[0] := slaveAddr;
      txBuf[1] := fc;
      txBuf[2] := ToByte(bytes);
      assert txBuf[..3 + bytes] == [slaveAddr, fc, ToByte(bytes)] + old(txBuf[3..3 + bytes]);
      Finish(3 + bytes);
      n := txLen;
    }

    method ReadCoils() returns (n: nat)
      requires Valid()
      modifies this`txLen, this`user, this`errCount, txBuf
      ensures Valid() && n == txLen
      ensures Answered(ReadCoilsReply(device, slaveAddr, old(Rx()), old(user)), old(errCount))
    {
      hide Crc, Lo, Hi, Join, Coils, Cells, Frame, Count, ToByte;
      if rxLen < 8 {
        n := SendException(READ_COILS, ILLEGAL_DATA_VALUE);
        return;
      }
      var start := Join(rxBuf[2], rxBuf[3]);
      var quantity := Count(Join(rxBuf[4], rxBuf[5]));
      if quantity == 0 || quantity > 2000 {
        n := SendException(READ_COILS, ILLEGAL_DATA_VALUE);
        return;
      }
      QuantityByte(quantity);
      var byteCount := (quantity + 7) / 8;
      for i := 0 to byteCount
        invariant Valid() && user == old(user) && errCount == old(errCount)
        invariant forall j :: 3 <= j < 3 + i ==> txBuf[j] == 0
      {
        txBuf[3 + i] := 0;
      }
      var ok := LoadCoils(start, quantity, byteCount);
      if !ok {
        n := SendException(READ_COILS, ILLEGAL_DATA_ADDRESS);
        return;
      }
      n := SendData(READ_COILS, byteCount);
    }

    /** Each coil in its bit of the cleared data bytes. */
    method LoadCoils(start: Word, quantity: nat, byteCount: nat) returns (ok: bool)
      requires Valid() && quantity <= 2000 && byteCount == (quantity + 7) / 8
      requires forall j :: 3 <= j < 3 + byteCount ==> txBuf[j] == 0
      modifies this`user, txBuf
      ensures var (bits, t) := Coils(device, start, quantity, old(user));
              && user == t && ok == bits.Some?
              && (ok ==> txBuf[3..3 + byteCount] == Packed(bits.value))
    {
      hide Coils, BitsOf, Cells, Mask, Or, Address;
      ghost var (s, bits) := (user, []);
      NoCoils(device, start, s);
      ClearedCells(txBuf[3..3 + byteCount]);
      for i := 0 to quantity
        invariant Coils(device, start, i, s) == (Some(bits), user) && |bits| == i
        invariant txBuf[3..3 + byteCount] == Cells(bits, byteCount)
      {
        CoilsStep(device, start, i, s);
        var coil: Byte := 0;
        if device.readCoil.Some? {
          var (c, t) := device.readCoil.value(Address(start, i), user);
          user := t;
          if c.None? {
            CoilsFail(device, start, i + 1, quantity, s);
            return false;
          }
          coil := c.value;
        }
        CellsStep(bits, coil != 0, byteCount);
        ghost var cells := txBuf[3..3 + byteCount];
        if coil != 0 {
          txBuf[3 + i / 8] := Or(txBuf[3 + i / 8], Mask(i % 8));
          assert txBuf[3..3 + byteCount] == cells[i / 8 := Or(cells[i / 8], Mask(i % 8))];
        }
        bits := bits + [coil != 0];
      }
      ok := true;
    }

    method ReadHoldingRegs() returns (n: nat)
      requires Valid()
      modifies this`txLen, this`user, this`errCount, txBuf
      ensures Valid() && n == txLen
      ensures Answered(ReadRegsReply(device, slaveAddr, old(Rx()), old(user)), old(errCount))
    {
      hide Crc, Lo, Hi, Join, Registers, WordBytes, Frame, Count, ToByte;
      if rxLen < 8 {
        n := SendException(READ_HOLDING_REGS, ILLEGAL_DATA_VALUE);
        return;
      }
      var start := Join(rxBuf[2], rxBuf[3]);
      var quantity := Count(Join(rxBuf[4], rxBuf[5]));
      if quantity == 0 || quantity > 125 {
        n := SendException(READ_HOLDING_REGS, ILLEGAL_DATA_VALUE);
        return;
      }
      var ok := LoadRegs(start, quantity);
      if !ok {
        n := SendException(READ_HOLDING_REGS, ILLEGAL_DATA_ADDRESS);
        return;
      }
      n := SendData(READ_HOLDING_REGS, quantity * 2);
    }

    method PutWord(at: nat, w: Word)
      requires Valid() && 3 <= at && at + 2 <= BUFFER
      modifies txBuf
      ensures txBuf[3..at + 2] == old(txBuf[3..at]) + [Hi(w), Lo(w)]
    {
      hide Hi, Lo;
      txBuf[at] := Hi(w);
      txBuf[at + 1] := Lo(w);
    }

    method LoadRegs(start: Word, quantity: nat) returns (ok: bool)
      requires Valid() && quantity <= 125
      modifies this`user, txBuf
      ensures var (words, t) := Registers(device, start, quantity, old(user));
              && user == t && ok == words.Some?
              && (ok ==> txBuf[3..3 + quantity * 2] == WordBytes(words.value))
    {
      hide Lo, Hi, Address, Registers, WordBytes;
      ghost var (s, words) := (user, []);
      RegistersStep(device, start, 0, s);
      WordBytesStep([], 0);
      for i := 0 to quantity
        invariant Registers(device, start, i, s) == (Some(words), user) && |words| == i
        invariant txBuf[3..3 + i * 2] == WordBytes(words)
      {
        RegistersStep(device, start, i, s);
        var w: Option<Word> := None;
        if device.readReg.Some? {
          var (v, t) := device.readReg.value(Address(start, i), user);
          w, user := v, t;
        }
        if w.None? {
          RegistersFail(device, start, i + 1, quantity, s);
          return false;
        }
        WordBytesStep(words, w.value);
        PutWord(3 + i * 2, w.value);
        words := words + [w.value];
      }
      ok := true;
    }

    method WriteSingleReg() returns (n: nat)
      requires Valid()
      modifies this`txLen, this`user, this`errCount, txBuf
      ensures Valid() && n == txLen
      ensures Answered(WriteRegReply(device, slaveAddr, old(Rx()), old(user)), old(errCount))
    {
      hide Crc, Lo, Hi, Join, Frame;
      if rxLen < 8 {
        n := SendException(WRITE_SINGLE_REG, ILLEGAL_DATA_VALUE);
        return;
      }
      var addr := Join(rxBuf[2], rxBuf[3]);
      var value := Join(rxBuf[4], rxBuf[5]);
      var ok := false;
      if device.writeReg.Some? {
        var (done, t) := device.writeReg.value(addr, value, user);
        ok, user := done, t;
      }
      if !ok {
        n := SendException(WRITE_SINGLE_REG, ILLEGAL_DATA_ADDRESS);
        return;
      }
      n := SendWords(WRITE_SINGLE_REG, addr, value);
    }

    method WriteMultipleRegs() returns (n: nat)
      requires Valid()
      modifies this`txLen, this`user, this`errCount, txBuf
      ensures Valid() && n == txLen
      ensures Answered(WriteRegsReply(device, slaveAddr, old(Rx()), old(user)), old(errCount))
    {
      hide Crc, Lo, Hi, Join, Frame, WordsAt, Stored, Count, Value;
      if rxLen < 9 {
        n := SendException(WRITE_MULTIPLE_REGS, ILLEGAL_DATA_VALUE);
        return;
      }
      var start := Join(rxBuf[2], rxBuf[3]);
      var count := Join(rxBuf[4], rxBuf[5]);
      var quantity := Count(count);
      var byteCount := Value(rxBuf[6]);
      if quantity == 0 || quantity > 123 || byteCount != quantity * 2 {
        n := SendException(WRITE_MULTIPLE_REGS, ILLEGAL_DATA_VALUE);
        return;
      }
      if rxLen < 7 + byteCount + 2 {
        n := SendException(WRITE_MULTIPLE_REGS, ILLEGAL_DATA_VALUE);
        return;
      }
      var ok := StoreRegs(start, quantity);
      if !ok {
        n := SendException(WRITE_MULTIPLE_REGS, ILLEGAL_DATA_ADDRESS);
        return;
      }
      n := SendWords(WRITE_MULTIPLE_REGS, start, count);
    }

    method StoreRegs(start: Word, quantity: nat) returns (ok: bool)
      requires Valid() && quantity <= 123 && 7 + 2 * quantity <= rxLen
      modifies this`user
      ensures (ok, user) == Stored(device, start, WordsAt(Rx(), 7, quantity), old(user))
    {
      hide Join, Address, Stored, WordsAt;
      ghost var (s, rx) := (user, Rx());
      ghost var words := WordsAt(rx, 7, quantity);
      StoredStep(device, start, [], 0, s);
      for i := 0 to quantity
        invariant Stored(device, start, words[..i], s) == (true, user)
      {
        var value := Join(rxBuf[7 + i * 2], rxBuf[7 + i * 2 + 1]);
        WordsAtHas(rx, 7, i, quantity);
        assert words[..i + 1] == words[..i] + [value];
        StoredStep(device, start, words[..i], value, s);
        ok := false;
        if device.writeReg.Some? {
          var (done, t) := device.writeReg.value(Address(start, i), value, user);
          ok, user := done, t;
        }
        if !ok {
          StoredFail(device, start, words, i + 1, s);
          return;
        }
      }
      assert words[..quantity] == words;
      ok := true;
    }

    method Dispatch() returns (n: nat)
      requires Valid() && rxLen >= 4
      modifies this`txLen, this`user, this`errCount, txBuf
      ensures Valid() && n == txLen
      ensures Answered(Serve(device, slaveAddr, old(Rx()), old(user)), old(errCount))
    {
      hide ReadCoilsReply, ReadRegsReply, WriteRegReply, WriteRegsReply, Frame;
      var fc := rxBuf[1];
      if fc == READ_COILS {
        n := ReadCoils();
      } else if fc == READ_HOLDING_REGS {
        n := ReadHoldingRegs();
      } else if fc == WRITE_SINGLE_REG {
        n := WriteSingleReg();
      } else if fc == WRITE_MULTIPLE_REGS {
        n := WriteMultipleRegs();
      } else {
        n := SendException(fc, ILLEGAL_FUNCTION);
      }
    }

    /** Main method: what becomes of one received frame. */
    method Process() returns (n: nat)
      requires Valid()
      modifies this`txLen, this`user, this`rxCount, this`txCount, this`errCount, txBuf
      ensures Valid() && n == txLen
      ensures var (f, counts) := (old(Rx()), (old(rxCount), old(txCount), old(errCount)));
              if |f| < 4 || (f[0] != slaveAddr && f[0] != 0) then
                n == 0 && user == old(user) && (rxCount, txCount, errCount) == counts
              else if !TrailerMatches(f) then
                && n == 0 && user == old(user) && rxCount == counts.0 && txCount == counts.1
                && errCount == (counts.2 + 1) % 0x1_0000_0000
              else
                var r := Serve(device, slaveAddr, f, old(user));
                && user == r.user && rxCount == (counts.0 + 1) % 0x1_0000_0000
                && errCount == (if r.Exceptional? then (counts.2 + 1) % 0x1_0000_0000 else counts.2)
                && if f[0] == 0 then n == 0 && txCount == counts.1
                   else Tx() == Frame(r.payload) && txCount == (counts.1 + 1) % 0x1_0000_0000
    {
      hide Crc, Join, Serve, Frame;
      txLen := 0;
      if rxLen < 4 { return 0; }
      ghost var f := Rx();
      var addr := rxBuf[0];
      if addr != slaveAddr && addr != 0 { return 0; }
      var received := Join(rxBuf[rxLen - 1], rxBuf[rxLen - 2]);
      var computed := ComputeCrc(rxBuf, rxLen - 2);
      assert f[..|f| - 2] == rxBuf[..rxLen - 2];
      if received != computed {
        errCount := Next(errCount);
        return 0;
      }
      rxCount := Next(rxCount);
      n := Dispatch();
      if addr == 0 {
        txLen := 0;
        return 0;
      }
      txCount := Next(txCount);
    }
  }
}

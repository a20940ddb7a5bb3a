/** What the Modbus slave promises its master: replies that fit and carry a good CRC, data that is what
    was asked for, and words that read back as they were written. */
module ModbusLaws {
  import opened Wrappers
  import Nonlinear
  import opened Crc16
  import opened CrcErrors
  import CrcPeriod
  import opened Modbus
  import opened ModbusNumbers

  // ----- replies -----------------------------------------------------------

  /** A reply of at most 253 bytes for this function code, or one of the two exceptions it can raise. */
  ghost predicate Shaped<S>(r: Reply<S>, slave: Byte, fc: Byte) {
    if r.Normal? then 4 <= |r.payload| <= BUFFER - 3 && r.payload[0] == slave && r.payload[1] == fc
    else |r.payload| == 3 && r.payload[0] == slave && r.payload[1] == fc | 0x80
         && (r.payload[2] == ILLEGAL_DATA_ADDRESS || r.payload[2] == ILLEGAL_DATA_VALUE)
  }

  lemma ReadCoilsShaped<S>(dev: Device<S>, slave: Byte, rx: seq<Byte>, s: S)
    ensures Shaped(ReadCoilsReply(dev, slave, rx, s), slave, READ_COILS)
  {
    hide Join, Coils, Count, ToByte, BitsOf;
  }

  lemma ReadRegsShaped<S>(dev: Device<S>, slave: Byte, rx: seq<Byte>, s: S)
    ensures Shaped(ReadRegsReply(dev, slave, rx, s), slave, READ_HOLDING_REGS)
  {
    hide Join, Registers, Count, ToByte, WordBytes;
  }

  lemma WriteRegShaped<S>(dev: Device<S>, slave: Byte, rx: seq<Byte>, s: S)
    ensures Shaped(WriteRegReply(dev, slave, rx, s), slave, WRITE_SINGLE_REG)
  {
    hide Join, Hi, Lo;
  }

  lemma WriteRegsShaped<S>(dev: Device<S>, slave: Byte, rx: seq<Byte>, s: S)
    ensures Shaped(WriteRegsReply(dev, slave, rx, s), slave, WRITE_MULTIPLE_REGS)
  {
    hide Join, Hi, Lo, Count, Value, Stored, WordsAt;
  }

  /** The exception "illegal function" is raised exactly for the codes that are not served; the reply
      repeats the code, with its top bit set in an exception. */
  lemma ReplyShape<S>(dev: Device<S>, slave: Byte, rx: seq<Byte>, s: S)
    requires |rx| >= 4
    ensures var (r, fc) := (Serve(dev, slave, rx, s), rx[1]);
            if fc == 0x01 || fc == 0x03 || fc == 0x06 || fc == 0x10 then Shaped(r, slave, fc)
            else r == Exceptional([slave, fc | 0x80, 0x01], s)
  {
    hide Shaped, ReadCoilsReply, ReadRegsReply, WriteRegReply, WriteRegsReply;
    ReadCoilsShaped(dev, slave, rx, s);
    ReadRegsShaped(dev, slave, rx, s);
    WriteRegShaped(dev, slave, rx, s);
    WriteRegsShaped(dev, slave, rx, s);
  }

  /** Main result: every reply fits the buffer, starts with the slave's address, and its CRC passes the
      check that incoming frames must pass. */
  lemma ReplyFits<S>(dev: Device<S>, slave: Byte, rx: seq<Byte>, s: S)
    requires |rx| >= 4
    ensures var f := Frame(Serve(dev, slave, rx, s).payload);
            5 <= |f| <= 256 && f[0] == slave && TrailerMatches(f) && Crc(f) == 0
  {
    hide Serve, Crc, Hi, Lo;
    var p := Serve(dev, slave, rx, s).payload;
    ReplyShape(dev, slave, rx, s);
    FrameMatches(p);
    TrailerIffZero(Frame(p));
  }

  /** A frame damaged inside two neighbouring bytes is not accepted. */
  lemma DamagedRejected(p: seq<Byte>, f: seq<Byte>, i: nat)
    requires |f| == |p| + 2 && f != Frame(p) && i + 1 < |f|
    requires forall j :: 0 <= j < |f| && j != i && j != i + 1 ==> f[j] == Frame(p)[j]
    ensures !TrailerMatches(f)
  {
    hide Crc;
    FrameMatches(p);
    TrailerIffZero(Frame(p));
    TrailerIffZero(f);
    BurstDetected(f, Frame(p), i);
  }

  /** Nor is one with an odd number of flipped bits. */
  lemma OddFlipsRejected(p: seq<Byte>, f: seq<Byte>)
    requires |f| == |p| + 2 && Flips(f, Frame(p)) % 2 == 1
    ensures !TrailerMatches(f)
  {
    hide Crc, Flips;
    FrameMatches(p);
    TrailerIffZero(Frame(p));
    TrailerIffZero(f);
    OddFlipsDetected(f, Frame(p));
  }

  /** Nor, if it has at most 4095 bytes, is one with one, two or three flipped bits. */
  lemma FewFlipsRejected(p: seq<Byte>, f: seq<Byte>)
    requires |f| == |p| + 2 <= 4095 && 1 <= Flips(f, Frame(p)) <= 3
    ensures !TrailerMatches(f)
  {
    hide Crc, Flips;
    if Flips(f, Frame(p)) == 2 {
      FrameMatches(p);
      TrailerIffZero(Frame(p));
      TrailerIffZero(f);
      CrcPeriod.TwoFlipsDetected(f, Frame(p));
    } else {
      OddFlipsRejected(p, f);
    }
  }

  /** Nor one damaged in a burst of at most 16 bits that begins s bits into byte i. */
  lemma BurstRejected(p: seq<Byte>, f: seq<Byte>, i: nat, s: nat)
    requires |f| == |p| + 2 && f != Frame(p) && i + 2 < |f|
    requires Window(f[i], Frame(p)[i], f[i + 2], Frame(p)[i + 2], s)
    requires forall j :: 0 <= j < |f| && j != i && j != i + 1 && j != i + 2 ==> f[j] == Frame(p)[j]
    ensures !TrailerMatches(f)
  {
    hide Crc, Window;
    FrameMatches(p);
    TrailerIffZero(Frame(p));
    TrailerIffZero(f);
    WindowDetected(f, Frame(p), i, s);
  }

  // ----- coils -------------------------------------------------------------

  lemma {:induction false} BitsHave(bits: seq<bool>, k: nat, n: nat, j: nat)
    requires n <= 8 && j < 8
    ensures Has(BitsOf(bits, k, n), j) <==> j < n && 8 * k + j < |bits| && bits[8 * k + j]
  {
    hide Has, Or, Mask;
    if n == 0 {
      NothingHas(j);
    } else {
      BitsHave(bits, k, n - 1, j);
      MaskBits(BitsOf(bits, k, n - 1), n - 1, j);
    }
  }

  /** What a coil reads as in the state s, for callbacks that do not change the state. */
  function CoilState<S>(dev: Device<S>, addr: Word, s: S): bool {
    dev.readCoil.Some? && var c := dev.readCoil.value(addr, s).0; c.Some? && c.value != 0
  }

  ghost predicate ReadsOnly<S(!new)>(dev: Device<S>) {
    && (dev.readCoil.Some? ==> forall a, s :: dev.readCoil.value(a, s).1 == s)
    && (dev.readReg.Some? ==> forall a, s :: dev.readReg.value(a, s).1 == s)
  }

  lemma {:induction false} CoilsAre<S(!new)>(dev: Device<S>, start: Word, n: nat, s: S)
    requires n < 0x10000 && ReadsOnly(dev)
    ensures Coils(dev, start, n, s).1 == s
    ensures var bits := Coils(dev, start, n, s).0;
            bits.Some? ==> forall i :: 0 <= i < n ==> bits.value[i] == CoilState(dev, Address(start, i), s)
  {
    hide Address;
    if n > 0 { CoilsAre(dev, start, n - 1, s); }
  }

  /** Data byte k of a reply about n coils: coil 8k + j in bit j, zeros behind the last coil. */
  ghost predicate HoldsCoils<S>(dev: Device<S>, start: Word, n: nat, s: S, cell: Byte, k: nat)
    requires n <= 2000
  {
    forall j :: 0 <= j < 8 ==>
      (Has(cell, j) <==> 8 * k + j < n && CoilState(dev, Address(start, 8 * k + j), s))
  }

  /** Main result: a coil reply holds coil start + i in bit i mod 8 of data byte i / 8, and zeros behind
      the last coil. */
  lemma CoilReply<S(!new)>(dev: Device<S>, slave: Byte, rx: seq<Byte>, s: S)
    requires ReadsOnly(dev) && ReadCoilsReply(dev, slave, rx, s).Normal?
    ensures |rx| >= 8
    ensures var (p, n) := (ReadCoilsReply(dev, slave, rx, s).payload, Count(WordAt(rx, 4)));
            && 1 <= n <= 2000 && |p| == 3 + (n + 7) / 8 && p[2] == ToByte((n + 7) / 8)
            && forall k :: 0 <= k < (n + 7) / 8 ==> HoldsCoils(dev, WordAt(rx, 2), n, s, p[3..][k], k)
  {
    hide Has, BitsOf, Address, Join, Count, ToByte, Coils, CoilState;
    var (start, n) := (WordAt(rx, 2), Count(WordAt(rx, 4)));
    var bits := Coils(dev, start, n, s).0.value;
    var p := ReadCoilsReply(dev, slave, rx, s).payload;
    assert p[3..] == Packed(bits);
    forall k | 0 <= k < (n + 7) / 8 ensures HoldsCoils(dev, start, n, s, p[3..][k], k) {
      CellHolds(dev, start, n, s, k);
    }
  }

  lemma CellHolds<S(!new)>(dev: Device<S>, start: Word, n: nat, s: S, k: nat)
    requires ReadsOnly(dev) && n <= 2000 && Coils(dev, start, n, s).0.Some?
    ensures HoldsCoils(dev, start, n, s, BitsOf(Coils(dev, start, n, s).0.value, k, 8), k)
  {
    hide Has, BitsOf, Address, Coils, CoilState;
    var bits := Coils(dev, start, n, s).0.value;
    CoilsAre(dev, start, n, s);
    forall j | 0 <= j < 8
      ensures Has(BitsOf(bits, k, 8), j) <==> 8 * k + j < n && CoilState(dev, Address(start, 8 * k + j), s)
    {
      BitsHave(bits, k, 8, j);
    }
  }

  // ----- registers ---------------------------------------------------------

  /** A register file: what has been written reads back, other registers and other reads are not
      disturbed. */
  ghost predicate Memory<S(!new)>(dev: Device<S>) {
    && dev.readReg.Some? && dev.writeReg.Some? && ReadsOnly(dev)
    && forall a, v, s :: dev.writeReg.value(a, v, s).0 ==>
         && dev.readReg.value(a, dev.writeReg.value(a, v, s).1).0 == Some(v)
         && forall b :: b != a ==> dev.readReg.value(b, dev.writeReg.value(a, v, s).1).0 == dev.readReg.value(b, s).0
  }

  lemma WriteReads<S(!new)>(dev: Device<S>, a: Word, v: Word, s: S, b: Word)
    requires Memory(dev) && dev.writeReg.value(a, v, s).0
    ensures dev.readReg.value(b, dev.writeReg.value(a, v, s).1).0
            == if b == a then Some(v) else dev.readReg.value(b, s).0
  {
  }

  lemma {:induction false} StoredReads<S(!new)>(dev: Device<S>, start: Word, ws: seq<Word>, s: S, i: nat)
    requires Memory(dev) && i < |ws| < 0x10000 && Stored(dev, start, ws, s).0
    ensures dev.readReg.value(Address(start, i), Stored(dev, start, ws, s).1).0 == Some(ws[i])
    decreases |ws|
  {
    hide Address, Memory;
    HasWriter(dev);
    var (front, w) := (ws[..|ws| - 1], ws[|ws| - 1]);
    var t := Stored(dev, start, front, s).1;
    WriteReads(dev, Address(start, |ws| - 1), w, t, Address(start, i));
    if i < |ws| - 1 {
      AddressesDiffer(start, i, |ws| - 1);
      StoredReads(dev, start, front, s, i);
    }
  }

  lemma HasWriter<S(!new)>(dev: Device<S>)
    requires Memory(dev)
    ensures dev.writeReg.Some? && dev.readReg.Some?
  {
  }

  lemma ReadKeeps<S(!new)>(dev: Device<S>, a: Word, s: S)
    requires Memory(dev)
    ensures dev.readReg.value(a, s).1 == s
  {
  }

  lemma {:induction false} RegistersAre<S(!new)>(dev: Device<S>, start: Word, ws: seq<Word>, n: nat, s: S)
    requires Memory(dev) && n <= |ws| < 0x10000
    requires forall i :: 0 <= i < |ws| ==> dev.readReg.value(Address(start, i), s).0 == Some(ws[i])
    ensures Registers(dev, start, n, s) == (Some(ws[..n]), s)
  {
    hide Address, Memory;
    HasWriter(dev);
    if n > 0 {
      RegistersAre(dev, start, ws, n - 1, s);
      ReadKeeps(dev, Address(start, n - 1), s);
      assert ws[..n - 1] + [ws[n - 1]] == ws[..n];
    }
  }

  // ----- requests ----------------------------------------------------------

  /** Write the words from `start` on. */
  function WriteRequest(unit: Byte, start: Word, ws: seq<Word>): seq<Byte>
    requires |ws| <= 123
  {
    [unit, 0x10, Hi(start), Lo(start), Hi(ToWord(|ws|)), Lo(ToWord(|ws|)),
        ToByte(|ws| * 2)] + WordBytes(ws)
  }

  /** Read n words from `start` on. */
  function ReadRequest(unit: Byte, start: Word, n: nat): seq<Byte>
    requires n <= 125
  {
    [unit, 0x03, Hi(start), Lo(start), Hi(ToWord(n)), Lo(ToWord(n))]
  }

  lemma SliceEnd<T>(s: seq<T>, i: nat, a: seq<T>, x: T, y: T)
    requires i + |a| + 2 <= |s| && s[i..i + |a| + 2] == a + [x, y]
    ensures s[i..i + |a|] == a && s[i + |a|] == x && s[i + |a| + 1] == y
  {
    var t := s[i..i + |a| + 2];
    assert s[i..i + |a|] == t[..|a|] && s[i + |a|] == t[|a|] && s[i + |a| + 1] == t[|a| + 1];
  }

  /** The words come out of a frame as they were put in. */
  lemma {:induction false} WordsSent(rx: seq<Byte>, i: nat, ws: seq<Word>)
    requires i + |WordBytes(ws)| <= |rx| && rx[i..i + |WordBytes(ws)|] == WordBytes(ws)
    ensures WordsAt(rx, i, |ws|) == ws
    decreases |ws|
  {
    hide Hi, Lo, Join, WordBytes;
    if ws != [] {
      var (front, w) := (ws[..|ws| - 1], ws[|ws| - 1]);
      assert front + [w] == ws;
      WordBytesStep(front, w);
      SliceEnd(rx, i, WordBytes(front), Hi(w), Lo(w));
      WordsSent(rx, i, front);
      Joined(w, 0, 0);
    }
  }

  lemma WriteServed<S>(dev: Device<S>, slave: Byte, unit: Byte, start: Word, ws: seq<Word>, s: S)
    requires 1 <= |ws| <= 123
    ensures var ((ok, t), r) := (Stored(dev, start, ws, s), Serve(dev, slave, Frame(WriteRequest(unit, start, ws)), s));
            r == if ok then Normal([slave, 0x10, Hi(start), Lo(start), Hi(ToWord(|ws|)),
                Lo(ToWord(|ws|))], t)
                 else Exceptional([slave, 0x90, 0x02], t)
  {
    hide Hi, Lo, Join, Count, Value, ToWord, ToByte, Stored, WordsAt, WordBytes, Crc;
    var rx := Frame(WriteRequest(unit, start, ws));
    var n := |ws|;
    assert rx[7..7 + 2 * n] == WordBytes(ws);
    Joined(start, 0, 0);
    Joined(ToWord(n), 0, 0);
    CountOf(n);
    ByteOf(n * 2);
    WordsSent(rx, 7, ws);
  }

  lemma ReadServed<S>(dev: Device<S>, slave: Byte, unit: Byte, start: Word, n: nat, s: S)
    requires 1 <= n <= 125
    ensures var ((ws, t), r) := (Registers(dev, start, n, s), Serve(dev, slave, Frame(ReadRequest(unit, start, n)), s));
            r == if ws.Some? then Normal([slave, 0x03, ToByte(n * 2)] + WordBytes(ws.value), t)
                 else Exceptional([slave, 0x83, 0x02], t)
  {
    hide Hi, Lo, Join, Count, ToWord, ToByte, Registers, WordBytes, Crc;
    Joined(start, 0, 0);
    Joined(ToWord(n), 0, 0);
    CountOf(n);
  }

  /** Main result: after a successful FC16 write an FC03 read of the same range answers with the written
      words, wherever in the 16-bit address space the range lies, across its end too. */
  lemma WriteThenRead<S(!new)>(dev: Device<S>, slave: Byte, unit: Byte, start: Word, ws: seq<Word>, s: S)
    requires Memory(dev) && 1 <= |ws| <= 123
    requires Serve(dev, slave, Frame(WriteRequest(unit, start, ws)), s).Normal?
    ensures var t := Serve(dev, slave, Frame(WriteRequest(unit, start, ws)), s).user;
            Serve(dev, slave, Frame(ReadRequest(unit, start, |ws|)), t)
            == Normal([slave, 0x03, ToByte(|ws| * 2)] + WordBytes(ws), t)
  {
    hide Serve, Frame, WriteRequest, ReadRequest, Memory, Hi, Lo, ToWord, ToByte, Stored, WordBytes, Address, Registers;
    HasWriter(dev);
    WriteServed(dev, slave, unit, start, ws, s);
    var t := Stored(dev, start, ws, s).1;
    forall i | 0 <= i < |ws| ensures dev.readReg.value(Address(start, i), t).0 == Some(ws[i]) {
      StoredReads(dev, start, ws, s, i);
    }
    RegistersAre(dev, start, ws, |ws|, t);
    assert ws[..|ws|] == ws;
    ReadServed(dev, slave, unit, start, |ws|, t);
  }

  /** Write one word. */
  function WriteOneRequest(unit: Byte, addr: Word, value: Word): seq<Byte> {
    [unit, 0x06, Hi(addr), Lo(addr), Hi(value), Lo(value)]
  }

  /** An FC06 request is echoed, from the slave's own address, when the register takes the value. */
  lemma WriteOneEchoed<S>(dev: Device<S>, slave: Byte, unit: Byte, addr: Word, value: Word, s: S)
    requires dev.writeReg.Some?
    ensures var ((ok, t), r) := (dev.writeReg.value(addr, value, s),
                                 Serve(dev, slave, Frame(WriteOneRequest(unit, addr, value)), s));
            r == if ok then Normal(WriteOneRequest(slave, addr, value), t)
                 else Exceptional([slave, 0x86, 0x02], t)
  {
    hide Hi, Lo, Join, Crc;
    Joined(addr, 0, 0);
    Joined(value, 0, 0);
  }

  /** After a successful FC06 write an FC03 read of that register answers with the value. */
  lemma WriteOneThenRead<S(!new)>(dev: Device<S>, slave: Byte, unit: Byte, addr: Word, value: Word, s: S)
    requires Memory(dev) && Serve(dev, slave, Frame(WriteOneRequest(unit, addr, value)), s).Normal?
    ensures var t := Serve(dev, slave, Frame(WriteOneRequest(unit, addr, value)), s).user;
            Serve(dev, slave, Frame(ReadRequest(unit, addr, 1)), t)
            == Normal([slave, 0x03, ToByte(2), Hi(value), Lo(value)], t)
  {
    hide Serve, Frame, WriteOneRequest, ReadRequest, Memory, Hi, Lo, ToWord, ToByte, Address, Registers;
    HasWriter(dev);
    WriteOneEchoed(dev, slave, unit, addr, value, s);
    var t := dev.writeReg.value(addr, value, s).1;
    WriteReads(dev, addr, value, s, addr);
    FirstAddress(addr);
    RegistersAre(dev, addr, [value], 1, t);
    ReadServed(dev, slave, unit, addr, 1, t);
    WordBytesStep([], value);
    assert [] + [value] == [value] && [value][..1] == [value];
  }

  /** The requests themselves are frames the slave takes. */
  lemma RequestsTaken(slave: Byte, start: Word, ws: seq<Word>)
    requires |ws| <= 123
    ensures forall p :: p in {WriteRequest(slave, start, ws), ReadRequest(slave, start, |ws|)} ==>
              4 <= |Frame(p)| <= 256 && Frame(p)[0] == slave && TrailerMatches(Frame(p))
  {
    hide Hi, Lo, Crc, ToWord, ToByte;
    FrameMatches(WriteRequest(slave, start, ws));
    FrameMatches(ReadRequest(slave, start, |ws|));
  }
}

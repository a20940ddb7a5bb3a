/** Which requests the Modbus slave serves and which it refuses, byte by byte: function codes, exception
    codes, quantities and addresses are those of the MODBUS Application Protocol V1.1b3, sections 6 and 7. */
module ModbusServed {
  import opened Wrappers
  import opened Crc16
  import opened Modbus
  import opened ModbusLaws
  import opened ModbusNumbers

  // ----- requests ----------------------------------------------------------

  /** A request about n values from `start` on, without its CRC. */
  function Request(unit: Byte, fc: Byte, start: Word, n: nat): seq<Byte>
    requires n < 0x10000
  {
    [unit, fc, Hi(start), Lo(start), Hi(ToWord(n)), Lo(ToWord(n))]
  }

  lemma RequestHolds(unit: Byte, fc: Byte, start: Word, n: nat)
    requires n < 0x10000
    ensures var rx := Frame(Request(unit, fc, start, n));
            && |rx| == 8 && rx[0] == unit && rx[1] == fc && WordAt(rx, 2) == start && Count(WordAt(rx, 4)) == n
  {
    hide Hi, Lo, Join, Count, ToWord, Crc;
    Joined(start, 0, 0);
    Joined(ToWord(n), 0, 0);
    CountOf(n);
  }

  /** Every coil of the range can be read; without a callback all are off. */
  ghost predicate CoilsReadable<S(!new)>(dev: Device<S>, start: Word, n: nat, s: S)
    requires n < 0x10000
  {
    dev.readCoil.None? || forall i :: 0 <= i < n ==> dev.readCoil.value(Address(start, i), s).0.Some?
  }

  lemma {:induction false} CoilsSomeIff<S(!new)>(dev: Device<S>, start: Word, n: nat, s: S)
    requires n < 0x10000 && ReadsOnly(dev)
    ensures Coils(dev, start, n, s).0.Some? <==> CoilsReadable(dev, start, n, s)
  {
    hide Address;
    if n > 0 {
      CoilsSomeIff(dev, start, n - 1, s);
      CoilsAre(dev, start, n - 1, s);
    }
  }

  /** Main result: an FC01 request for 1 to 2000 coils is answered with the coils, eight to a byte, if all of
      them can be read, and with "illegal data address" otherwise. */
  lemma CoilsServed<S(!new)>(dev: Device<S>, slave: Byte, unit: Byte, start: Word, n: nat, s: S)
    requires 1 <= n <= 2000 && ReadsOnly(dev)
    ensures var r := Serve(dev, slave, Frame(Request(unit, 0x01, start, n)), s);
            if CoilsReadable(dev, start, n, s) then
              && r.Normal? && r.user == s && |r.payload| == 3 + (n + 7) / 8
              && r.payload[0] == slave && r.payload[1] == 0x01 && Value(r.payload[2]) == (n + 7) / 8
              && forall k :: 0 <= k < (n + 7) / 8 ==> HoldsCoils(dev, start, n, s, r.payload[3..][k], k)
            else r == Exceptional([slave, 0x81, 0x02], s)
  {
    hide Frame, WordAt, Count, Value, Address, Coils, BitsOf, HoldsCoils, CoilsReadable, ReadsOnly, Request, ToByte;
    var rx := Frame(Request(unit, 0x01, start, n));
    RequestHolds(unit, 0x01, start, n);
    CoilsSomeIff(dev, start, n, s);
    CoilsUnchanged(dev, start, n, s);
    if CoilsReadable(dev, start, n, s) {
      CoilReply(dev, slave, rx, s);
      ByteOf((n + 7) / 8);
    }
  }

  lemma {:induction false} CoilsUnchanged<S(!new)>(dev: Device<S>, start: Word, n: nat, s: S)
    requires n < 0x10000 && ReadsOnly(dev)
    ensures Coils(dev, start, n, s).1 == s
  {
    hide Address;
    if n > 0 { CoilsUnchanged(dev, start, n - 1, s); }
  }

  /** Every register of the range can be read. */
  ghost predicate RegistersReadable<S(!new)>(dev: Device<S>, start: Word, n: nat, s: S)
    requires n < 0x10000
  {
    dev.readReg.Some? && forall i :: 0 <= i < n ==> dev.readReg.value(Address(start, i), s).0.Some?
  }

  lemma {:induction false} RegistersSomeIff<S(!new)>(dev: Device<S>, start: Word, n: nat, s: S)
    requires 1 <= n < 0x10000 && ReadsOnly(dev)
    ensures var (ws, t) := Registers(dev, start, n, s);
            && t == s && (ws.Some? <==> RegistersReadable(dev, start, n, s))
            && (ws.Some? ==> forall i :: 0 <= i < n ==> Some(ws.value[i]) == dev.readReg.value(Address(start, i), s).0)
  {
    hide Address;
    if n > 1 { RegistersSomeIff(dev, start, n - 1, s); }
  }

  lemma {:induction false} WordBytesAt(ws: seq<Word>, i: nat)
    requires i < |ws|
    ensures WordBytes(ws)[2 * i] == Hi(ws[i]) && WordBytes(ws)[2 * i + 1] == Lo(ws[i])
    decreases |ws|
  {
    hide Hi, Lo;
    if i < |ws| - 1 { WordBytesAt(ws[..|ws| - 1], i); }
  }

  /** Main result: an FC03 request for 1 to 125 registers is answered with them, two bytes each and the high one
      first, if all of them can be read, and with "illegal data address" otherwise. */
  lemma RegistersServed<S(!new)>(dev: Device<S>, slave: Byte, unit: Byte, start: Word, n: nat, s: S)
    requires 1 <= n <= 125 && ReadsOnly(dev)
    ensures var r := Serve(dev, slave, Frame(Request(unit, 0x03, start, n)), s);
            if RegistersReadable(dev, start, n, s) then
              && r.Normal? && r.user == s && |r.payload| == 3 + 2 * n
              && r.payload[0] == slave && r.payload[1] == 0x03 && Value(r.payload[2]) == 2 * n
              && forall i :: 0 <= i < n ==>
                   dev.readReg.value(Address(start, i), s).0 == Some(Join(r.payload[3 + 2 * i], r.payload[4 + 2 * i]))
            else r == Exceptional([slave, 0x83, 0x02], s)
  {
    hide Frame, WordAt, Count, Value, Address, Registers, RegistersReadable, ReadsOnly, Request, ToByte, WordBytes,
         Join, Hi, Lo;
    RequestHolds(unit, 0x03, start, n);
    RegistersSomeIff(dev, start, n, s);
    RegistersHaveReader(dev, start, n, s);
    if RegistersReadable(dev, start, n, s) {
      var ws := Registers(dev, start, n, s).0.value;
      ByteOf(2 * n);
      forall i | 0 <= i < n ensures Join(WordBytes(ws)[2 * i], WordBytes(ws)[2 * i + 1]) == ws[i] {
        WordBytesAt(ws, i);
        Joined(ws[i], 0, 0);
      }
    }
  }

  lemma RegistersHaveReader<S(!new)>(dev: Device<S>, start: Word, n: nat, s: S)
    requires n < 0x10000
    ensures RegistersReadable(dev, start, n, s) ==> dev.readReg.Some?
  {
  }

  /** Word k is offered in state k and leads to the next; `done` says whether it is taken. */
  ghost predicate Offer<S>(dev: Device<S>, start: Word, ws: seq<Word>, states: seq<S>, k: nat, done: bool) {
    && k < |ws| && k + 1 < |states| && dev.writeReg.Some?
    && dev.writeReg.value(Address(start, k), ws[k], states[k]) == (done, states[k + 1])
  }

  /** The words of an FC16 request are offered one after another, from `start` on, up to the first that is
      refused. */
  ghost predicate Offered<S>(dev: Device<S>, start: Word, ws: seq<Word>, states: seq<S>, ok: bool) {
    && 1 <= |states| <= |ws| + 1
    && (ok ==> |states| == |ws| + 1 && forall k: nat :: k < |ws| ==> Offer(dev, start, ws, states, k, true))
    && (!ok ==>
          if dev.writeReg.None? then ws != [] && |states| == 1
          else |states| >= 2 && Offer(dev, start, ws, states, |states| - 2, false)
               && forall k: nat :: k < |states| - 2 ==> Offer(dev, start, ws, states, k, true))
  }

  lemma OfferMore<S>(dev: Device<S>, start: Word, ws: seq<Word>, w: Word, states: seq<S>, t: S, k: nat, done: bool)
    requires Offer(dev, start, ws, states, k, done)
    ensures Offer(dev, start, ws + [w], states, k, done) && Offer(dev, start, ws + [w], states + [t], k, done)
  {
    hide Address;
  }

  lemma OfferedMore<S>(dev: Device<S>, start: Word, ws: seq<Word>, w: Word, states: seq<S>, ok: bool)
    requires Offered(dev, start, ws, states, ok)
    ensures !ok ==> Offered(dev, start, ws + [w], states, false)
    ensures ok && dev.writeReg.None? ==> ws == [] && Offered(dev, start, ws + [w], states, false)
    ensures ok && dev.writeReg.Some? ==>
              var (done, t) := dev.writeReg.value(Address(start, |ws|), w, states[|ws|]);
              Offered(dev, start, ws + [w], states + [t], done)
  {
    hide Offer, Address;
    if !ok {
      hide Offered;
      RefusedMore(dev, start, ws, w, states);
    } else if dev.writeReg.None? {
      if ws != [] { OfferHasWriter(dev, start, ws, states, 0); }
    } else {
      hide Offered;
      TakenMore(dev, start, ws, w, states);
    }
  }

  lemma RefusedMore<S>(dev: Device<S>, start: Word, ws: seq<Word>, w: Word, states: seq<S>)
    requires Offered(dev, start, ws, states, false)
    ensures Offered(dev, start, ws + [w], states, false)
  {
    hide Offer, Address;
    if dev.writeReg.Some? {
      OfferMore(dev, start, ws, w, states, states[0], |states| - 2, false);
      forall k: nat | k < |states| - 2 ensures Offer(dev, start, ws + [w], states, k, true) {
        OfferMore(dev, start, ws, w, states, states[0], k, true);
      }
    }
  }

  lemma TakenMore<S>(dev: Device<S>, start: Word, ws: seq<Word>, w: Word, states: seq<S>)
    requires Offered(dev, start, ws, states, true) && dev.writeReg.Some?
    ensures var (done, t) := dev.writeReg.value(Address(start, |ws|), w, states[|ws|]);
            Offered(dev, start, ws + [w], states + [t], done)
  {
    hide Offer, Address;
    var t := dev.writeReg.value(Address(start, |ws|), w, states[|ws|]).1;
    forall k: nat | k < |ws| ensures Offer(dev, start, ws + [w], states + [t], k, true) {
      OfferMore(dev, start, ws, w, states, t, k, true);
    }
    LastOffer(dev, start, ws, w, states);
  }

  lemma LastOffer<S>(dev: Device<S>, start: Word, ws: seq<Word>, w: Word, states: seq<S>)
    requires dev.writeReg.Some? && |states| == |ws| + 1
    ensures var (done, t) := dev.writeReg.value(Address(start, |ws|), w, states[|ws|]);
            Offer(dev, start, ws + [w], states + [t], |ws|, done)
  {
    hide Address;
  }

  lemma OfferHasWriter<S>(dev: Device<S>, start: Word, ws: seq<Word>, states: seq<S>, k: nat)
    requires Offer(dev, start, ws, states, k, true)
    ensures dev.writeReg.Some?
  {
  }

  /** What becomes of the application's state is settled by these calls. */
  lemma {:induction false} StoredInOrder<S>(dev: Device<S>, start: Word, ws: seq<Word>, s: S) returns (states: seq<S>)
    requires |ws| < 0x10000
    ensures var (ok, t) := Stored(dev, start, ws, s);
            && Offered(dev, start, ws, states, ok) && states[0] == s && states[|states| - 1] == t
  {
    hide Address;
    if ws == [] {
      states := [s];
    } else {
      var (front, w) := (ws[..|ws| - 1], ws[|ws| - 1]);
      states := StoredInOrder(dev, start, front, s);
      var ok := Stored(dev, start, front, s).0;
      OfferedMore(dev, start, front, w, states, ok);
      assert front + [w] == ws;
      if ok && dev.writeReg.Some? {
        states := states + [dev.writeReg.value(Address(start, |front|), w, states[|front|]).1];
      }
    }
  }

  // ----- refusals ----------------------------------------------------------

  /** The quantity in a frame. */
  function Quantity(rx: seq<Byte>): nat { if |rx| < 6 then 0 else 256 * Value(rx[4]) + Value(rx[5]) }

  lemma QuantityIs(rx: seq<Byte>)
    requires |rx| >= 6
    ensures Count(WordAt(rx, 4)) == Quantity(rx)
  {
    Joined(0, rx[4], rx[5]);
    hide Join, Hi, Lo, Value;
  }

  lemma CoilsRefused<S>(dev: Device<S>, slave: Byte, rx: seq<Byte>, s: S)
    ensures ReadCoilsReply(dev, slave, rx, s) == Exceptional([slave, 0x81, 0x03], s)
            <==> |rx| < 8 || Quantity(rx) == 0 || Quantity(rx) > 2000
  {
    if |rx| >= 8 { QuantityIs(rx); }
    hide WordAt, Count, Quantity, Coils, BitsOf, ToByte;
  }

  lemma RegistersRefused<S>(dev: Device<S>, slave: Byte, rx: seq<Byte>, s: S)
    ensures ReadRegsReply(dev, slave, rx, s) == Exceptional([slave, 0x83, 0x03], s)
            <==> |rx| < 8 || Quantity(rx) == 0 || Quantity(rx) > 125
  {
    if |rx| >= 8 { QuantityIs(rx); }
    hide WordAt, Count, Quantity, Registers, WordBytes, ToByte;
  }

  lemma WriteOneRefused<S>(dev: Device<S>, slave: Byte, rx: seq<Byte>, s: S)
    ensures WriteRegReply(dev, slave, rx, s) == Exceptional([slave, 0x86, 0x03], s) <==> |rx| < 8
  {
    hide Join, Hi, Lo;
  }

  lemma WriteRefused<S>(dev: Device<S>, slave: Byte, rx: seq<Byte>, s: S)
    ensures var n := Quantity(rx);
            WriteRegsReply(dev, slave, rx, s) == Exceptional([slave, 0x90, 0x03], s)
            <==> |rx| < 9 || n == 0 || n > 123 || Value(rx[6]) != 2 * n || |rx| < 9 + 2 * n
  {
    if |rx| >= 9 { QuantityIs(rx); }
    hide WordAt, Count, Quantity, Value, Stored, WordsAt, Hi, Lo;
  }

  /** Main result: "illegal data value" is the answer exactly to a frame that is too short for its function code,
      asks for no value or for more than 2000 coils or 125 or 123 registers, or whose FC16 byte count is not
      twice its quantity or more than it has. */
  lemma ValueRefusedIff<S>(dev: Device<S>, slave: Byte, rx: seq<Byte>, s: S)
    requires |rx| >= 4
    ensures var n := Quantity(rx);
            Serve(dev, slave, rx, s) == Exceptional([slave, rx[1] | 0x80, 0x03], s)
            <==> || (rx[1] == 0x01 && (|rx| < 8 || n == 0 || n > 2000))
                 || (rx[1] == 0x03 && (|rx| < 8 || n == 0 || n > 125))
                 || (rx[1] == 0x06 && |rx| < 8)
                 || (rx[1] == 0x10 && (|rx| < 9 || n == 0 || n > 123 || Value(rx[6]) != 2 * n || |rx| < 9 + 2 * n))
  {
    hide ReadCoilsReply, ReadRegsReply, WriteRegReply, WriteRegsReply, Quantity, Value;
    CoilsRefused(dev, slave, rx, s);
    RegistersRefused(dev, slave, rx, s);
    WriteOneRefused(dev, slave, rx, s);
    WriteRefused(dev, slave, rx, s);
  }
}

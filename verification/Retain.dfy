/** RETAIN snapshots: one blob for a table of memory regions, and a restore that validates the whole
    blob before it writes anything. */
module Retain {
  type Byte = b: int | 0 <= b < 256

  datatype Region = Region(addr: nat, size: nat)

  datatype Outcome = Restored | Malformed | Mismatch(found: nat, expected: nat)

  const U32 := 0x1_0000_0000

  /** `to_le_bytes` of `x as u32`. */
  function Le32(x: nat): (b: seq<Byte>)
    ensures |b| == 4
  {
    var v := x % U32;
    var (q1, q2, q3) := (v / 256, v / 256 / 256, v / 256 / 256 / 256);
    [v % 256, q1 % 256, q2 % 256, q3]
  }

  function FromLe32(b: seq<Byte>): (x: nat)
    requires |b| == 4
    ensures x < U32
  {
    var (b0: int, b1: int, b2: int, b3: int) := (b[0], b[1], b[2], b[3]);
    b0 + 256 * (b1 + 256 * (b2 + 256 * b3))
  }

  lemma Le32Value(x: nat)
    ensures FromLe32(Le32(x)) == x % U32
  {
    var v := x % U32;
    var q1 := v / 256;
    var q2 := q1 / 256;
    assert v == q1 * 256 + v % 256;
    assert q1 == q2 * 256 + q1 % 256;
    assert q2 == (q2 / 256) * 256 + q2 % 256;
  }

  lemma Le32Bytes(b: seq<Byte>)
    requires |b| == 4
    ensures Le32(FromLe32(b)) == b
  {
    var x := FromLe32(b);
    var (b0: int, b1: int, b2: int, b3: int) := (b[0], b[1], b[2], b[3]);
    assert x / 256 == b1 + 256 * (b2 + 256 * b3);
    assert x / 256 / 256 == b2 + 256 * b3;
  }

  const MAGIC: seq<Byte> := [0x50, 0x4C, 0x43, 0x52]

  /** The region lies in memory of n bytes. */
  predicate InMemory(r: Region, n: nat) { r.addr + r.size <= n }

  predicate Apart(r: Region, q: Region) { r.addr + r.size <= q.addr || q.addr + q.size <= r.addr }

  /** A table of regions that lie in memory and do not overlap. */
  predicate Table(rs: seq<Region>, n: nat) {
    rs != [] ==> InMemory(rs[0], n) && (forall i :: 1 <= i < |rs| ==> Apart(rs[0], rs[i])) && Table(rs[1..], n)
  }

  function Bytes(m: seq<Byte>, r: Region): seq<Byte>
    requires InMemory(r, |m|)
  {
    m[r.addr..r.addr + r.size]
  }

  // ----- the format --------------------------------------------------------

  function Total(rs: seq<Region>): nat { if rs == [] then 0 else 4 + rs[0].size + Total(rs[1..]) }

  function Body(m: seq<Byte>, rs: seq<Region>): seq<Byte>
    requires Table(rs, |m|)
  {
    if rs == [] then [] else Le32(rs[0].size) + Bytes(m, rs[0]) + Body(m, rs[1..])
  }

  function Snapshot(m: seq<Byte>, rs: seq<Region>, sig: nat): seq<Byte>
    requires Table(rs, |m|)
  {
    MAGIC + Le32(sig) + Body(m, rs)
  }

  /** From `pos` on, the blob holds every region with its own size. */
  predicate BodyOk(d: seq<Byte>, pos: nat, rs: seq<Region>)
    decreases rs
  {
    rs != [] ==>
      && pos + 4 <= |d| && FromLe32(d[pos..pos + 4]) == rs[0].size
      && pos + 4 + rs[0].size <= |d|
      && BodyOk(d, pos + 4 + rs[0].size, rs[1..])
  }

  function Check(d: seq<Byte>, rs: seq<Region>, sig: nat): Outcome {
    if |d| < 8 || d[..4] != MAGIC then Malformed
    else if FromLe32(d[4..8]) != sig then Mismatch(FromLe32(d[4..8]), sig)
    else if !BodyOk(d, 8, rs) then Malformed
    else Restored
  }

  function Overwrite(m: seq<Byte>, at: nat, b: seq<Byte>): (m': seq<Byte>)
    requires at + |b| <= |m|
    ensures |m'| == |m|
  {
    m[..at] + b + m[at + |b|..]
  }

  /** Every region overwritten from the blob. */
  function Applied(m: seq<Byte>, rs: seq<Region>, d: seq<Byte>, pos: nat): (m': seq<Byte>)
    requires Table(rs, |m|) && BodyOk(d, pos, rs)
    ensures |m'| == |m|
    decreases rs
  {
    if rs == [] then m
    else Applied(Overwrite(m, rs[0].addr, d[pos + 4..pos + 4 + rs[0].size]), rs[1..], d, pos + 4 + rs[0].size)
  }

  // ----- the round trips ---------------------------------------------------

  /** Writing a table touches nothing apart from it. */
  lemma {:induction false} AppliedElsewhere(m: seq<Byte>, rs: seq<Region>, d: seq<Byte>, pos: nat, q: Region)
    requires Table(rs, |m|) && BodyOk(d, pos, rs) && InMemory(q, |m|)
    requires forall i :: 0 <= i < |rs| ==> Apart(q, rs[i])
    ensures Bytes(Applied(m, rs, d, pos), q) == Bytes(m, q)
    decreases rs
  {
    if rs != [] {
      var r := rs[0];
      assert Apart(q, r);
      var m' := Overwrite(m, r.addr, d[pos + 4..pos + 4 + r.size]);
      assert Bytes(m', q) == Bytes(m, q);
      forall i | 0 <= i < |rs[1..]|
        ensures Apart(q, rs[1..][i])
      {
        assert rs[1..][i] == rs[i + 1];
      }
      AppliedElsewhere(m', rs[1..], d, pos + 4 + r.size, q);
    }
  }

  lemma {:induction false} TotalFits(d: seq<Byte>, pos: nat, rs: seq<Region>)
    requires BodyOk(d, pos, rs) && pos <= |d|
    ensures pos + Total(rs) <= |d|
    decreases rs
  {
    if rs != [] { TotalFits(d, pos + 4 + rs[0].size, rs[1..]); }
  }

  /** After a successful restore a snapshot is, byte for byte, the part of the blob that was consumed. */
  lemma {:induction false} BodyAfterApply(m: seq<Byte>, rs: seq<Region>, d: seq<Byte>, pos: nat)
    requires Table(rs, |m|) && BodyOk(d, pos, rs) && pos <= |d|
    ensures pos + Total(rs) <= |d|
    ensures Body(Applied(m, rs, d, pos), rs) == d[pos..pos + Total(rs)]
    decreases rs
  {
    hide Le32, FromLe32;
    TotalFits(d, pos, rs);
    if rs != [] {
      var r := rs[0];
      var next := pos + 4 + r.size;
      var m' := Overwrite(m, r.addr, d[pos + 4..next]);
      var m'' := Applied(m', rs[1..], d, next);
      forall i | 0 <= i < |rs[1..]|
        ensures Apart(r, rs[1..][i])
      {
        assert rs[1..][i] == rs[i + 1];
      }
      AppliedElsewhere(m', rs[1..], d, next, r);
      assert Bytes(m', r) == d[pos + 4..next];
      Le32Bytes(d[pos..pos + 4]);
      BodyAfterApply(m', rs[1..], d, next);
      assert d[pos..pos + Total(rs)] == d[pos..pos + 4] + d[pos + 4..next] + d[next..next + Total(rs[1..])];
    }
  }

  /** Main result: after a successful restore, of any blob that is accepted, a snapshot is the blob itself
      but for what lies behind the last region. */
  lemma SnapshotAfterApply(m: seq<Byte>, rs: seq<Region>, sig: nat, d: seq<Byte>)
    requires Table(rs, |m|) && sig < U32 && Check(d, rs, sig) == Restored
    ensures 8 + Total(rs) <= |d|
    ensures Snapshot(Applied(m, rs, d, 8), rs, sig) == d[..8 + Total(rs)]
  {
    hide Le32, FromLe32, BodyOk, Body, Applied;
    BodyAfterApply(m, rs, d, 8);
    Le32Bytes(d[4..8]);
    assert d[..8 + Total(rs)] == d[..4] + d[4..8] + d[8..8 + Total(rs)];
  }

  lemma {:induction false} BodyLength(m: seq<Byte>, rs: seq<Region>)
    requires Table(rs, |m|)
    ensures |Body(m, rs)| == Total(rs)
  {
    if rs != [] { BodyLength(m, rs[1..]); }
  }

  lemma SmallMod(x: nat)
    ensures x % U32 == x <==> x < U32
  {
  }

  /** A snapshot is accepted exactly when every size fits the four bytes it is stored in. */
  lemma {:induction false} SnapshotAccepted(m: seq<Byte>, rs: seq<Region>, pre: seq<Byte>)
    requires Table(rs, |m|)
    ensures BodyOk(pre + Body(m, rs), |pre|, rs) <==> forall i :: 0 <= i < |rs| ==> rs[i].size < U32
    decreases rs
  {
    hide Le32, FromLe32;
    if rs != [] {
      var r := rs[0];
      var d := pre + Body(m, rs);
      var head := Le32(r.size) + Bytes(m, r);
      assert d == (pre + head) + Body(m, rs[1..]);
      assert d[|pre|..|pre| + 4] == Le32(r.size);
      Le32Value(r.size);
      SmallMod(r.size);
      SnapshotAccepted(m, rs[1..], pre + head);
      assert forall i :: 1 <= i < |rs| ==> rs[i] == rs[1..][i - 1];
    }
  }

  lemma {:induction false} SameBody(m: seq<Byte>, m': seq<Byte>, rs: seq<Region>, i: nat)
    requires |m| == |m'| && Table(rs, |m|) && i < |rs| && Body(m, rs) == Body(m', rs)
    ensures InMemory(rs[i], |m|) && Bytes(m, rs[i]) == Bytes(m', rs[i])
    decreases rs
  {
    var r := rs[0];
    assert Body(m, rs)[4..4 + r.size] == Bytes(m, r) && Body(m', rs)[4..4 + r.size] == Bytes(m', r);
    assert Body(m, rs)[4 + r.size..] == Body(m, rs[1..]) && Body(m', rs)[4 + r.size..] == Body(m', rs[1..]);
    if i > 0 { SameBody(m, m', rs[1..], i - 1); }
  }

  /** So a program's own snapshot can be restored exactly when no region needs more than 32 bits of
      size. */
  lemma OwnSnapshotAccepted(m: seq<Byte>, rs: seq<Region>, sig: nat)
    requires Table(rs, |m|) && sig < U32
    ensures Check(Snapshot(m, rs, sig), rs, sig) == Restored <==> forall i :: 0 <= i < |rs| ==> rs[i].size < U32
    ensures Snapshot(m, rs, sig)[8..] == Body(m, rs)
  {
    var d := Snapshot(m, rs, sig);
    var pre := MAGIC + Le32(sig);
    assert d == pre + Body(m, rs) && d[..4] == MAGIC && d[4..8] == Le32(sig);
    Le32Value(sig);
    SmallMod(sig);
    hide Le32, FromLe32, BodyOk, Body;
    SnapshotAccepted(m, rs, pre);
  }

  /** Main result: restoring a snapshot of m into any memory recreates m on every region. */
  lemma RoundTrip(m: seq<Byte>, other: seq<Byte>, rs: seq<Region>, sig: nat)
    requires |m| == |other| && Table(rs, |m|) && sig < U32
    requires forall i :: 0 <= i < |rs| ==> rs[i].size < U32
    ensures Check(Snapshot(m, rs, sig), rs, sig) == Restored
    ensures var m' := Applied(other, rs, Snapshot(m, rs, sig), 8);
            && Snapshot(m', rs, sig) == Snapshot(m, rs, sig)
            && forall i :: 0 <= i < |rs| ==> InMemory(rs[i], |m|) && Bytes(m', rs[i]) == Bytes(m, rs[i])
  {
    var d := Snapshot(m, rs, sig);
    OwnSnapshotAccepted(m, rs, sig);
    hide Le32, FromLe32, BodyOk, Body, Applied;
    BodyAfterApply(other, rs, d, 8);
    BodyLength(m, rs);
    assert d[8..8 + Total(rs)] == Body(m, rs);
    forall i | 0 <= i < |rs|
      ensures InMemory(rs[i], |m|) && Bytes(Applied(other, rs, d, 8), rs[i]) == Bytes(m, rs[i])
    {
      SameBody(Applied(other, rs, d, 8), m, rs, i);
    }
  }

  // ----- the module --------------------------------------------------------

  class Application {
    const regions: seq<Region>
    const signature: nat
    const memory: array<Byte>

    ghost predicate Valid()
      reads this
    {
      Table(regions, memory.Length) && signature < U32
    }

    constructor (regions: seq<Region>, signature: nat, memory: array<Byte>)
      requires Table(regions, memory.Length) && signature < U32
      ensures Valid() && this.regions == regions && this.signature == signature && this.memory == memory
    {
      this.regions, this.signature, this.memory := regions, signature, memory;
    }

    method RetainSnapshot() returns (out: seq<Byte>)
      requires Valid()
      ensures out == Snapshot(memory[..], regions, signature)
    {
      out := MAGIC;
      out := out + Le32(signature);
      assert regions[0..] == regions;
      for i := 0 to |regions|
        invariant Table(regions[i..], memory.Length)
        invariant out + Body(memory[..], regions[i..]) == Snapshot(memory[..], regions, signature)
      {
        var r := regions[i];
        assert regions[i..][1..] == regions[i + 1..];
        out := out + Le32(r.size);
        out := out + memory[r.addr..r.addr + r.size];
      }
    }

    /** The blob is applied in full, or nothing is written. */
    method RestoreRetain(data: seq<Byte>) returns (o: Outcome)
      requires Valid()
      modifies memory
      ensures o == Check(data, regions, signature)
      ensures o.Restored? ==> memory[..] == Applied(old(memory[..]), regions, data, 8)
      ensures !o.Restored? ==> memory[..] == old(memory[..])
    {
      if |data| < 8 || data[..4] != MAGIC { return Malformed; }
      var found := FromLe32(data[4..8]);
      if found != signature { return Mismatch(found, signature); }
      var spans;
      o, spans := Validate(data);
      if !o.Restored? { return; }
      ghost var pos := 8;
      assert regions[0..] == regions;
      for i := 0 to |regions|
        invariant Table(regions[i..], memory.Length) && BodyOk(data, pos, regions[i..])
        invariant i < |regions| ==> spans[i].0 == pos + 4
        invariant Applied(memory[..], regions[i..], data, pos) == Applied(old(memory[..]), regions, data, 8)
      {
        var (start, size) := spans[i];
        assert regions[i..][1..] == regions[i + 1..];
        CopyIn(regions[i].addr, data[start..start + size]);
        pos := pos + 4 + size;
      }
    }

    method Validate(data: seq<Byte>) returns (o: Outcome, spans: seq<(nat, nat)>)
      requires |data| >= 8
      ensures o == if BodyOk(data, 8, regions) then Restored else Malformed
      ensures o.Restored? ==> |spans| == |regions|
      ensures o.Restored? ==> forall i :: 0 <= i < |regions| ==> spans[i].1 == regions[i].size
      ensures o.Restored? && regions != [] ==> spans[0].0 == 12
      ensures o.Restored? ==> forall i :: 0 <= i < |regions| - 1 ==> spans[i + 1].0 == spans[i].0 + spans[i].1 + 4
    {
      var pos: nat := 8;
      spans := [];
      assert regions[0..] == regions;
      for i := 0 to |regions|
        invariant pos <= |data| && |spans| == i
        invariant BodyOk(data, 8, regions) == BodyOk(data, pos, regions[i..])
        invariant forall j :: 0 <= j < i ==> spans[j].1 == regions[j].size
        invariant pos == if i == 0 then 8 else spans[i - 1].0 + spans[i - 1].1
        invariant i > 0 ==> spans[0].0 == 12
        invariant forall j :: 0 <= j < i - 1 ==> spans[j + 1].0 == spans[j].0 + spans[j].1 + 4
      {
        assert regions[i..][1..] == regions[i + 1..];
        if |data| < pos + 4 { return Malformed, spans; }
        var size := FromLe32(data[pos..pos + 4]);
        if size != regions[i].size || |data| < pos + 4 + size { return Malformed, spans; }
        spans := spans + [(pos + 4, size)];
        pos := pos + 4 + size;
      }
      o := Restored;
    }

    method CopyIn(at: nat, b: seq<Byte>)
      requires at + |b| <= memory.Length
      modifies memory
      ensures memory[..] == Overwrite(old(memory[..]), at, b)
    {
      for k := 0 to |b|
        invariant forall j :: 0 <= j < memory.Length ==>
                    memory[j] == if at <= j < at + k then b[j - at] else old(memory[j])
      {
        memory[at + k] := b[k];
      }
    }
  }
}

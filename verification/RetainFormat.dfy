/** The layout of a RETAIN snapshot byte by byte, and which blobs a program accepts. */
module RetainFormat {
  import opened Retain

  /** Byte i of a 32-bit number, the lowest first. */
  lemma LittleEndian(x: nat)
    requires x < 0x1_0000_0000
    ensures Le32(x) == [x % 256, x / 256 % 256, x / 65536 % 256, x / 16777216]
    ensures FromLe32(Le32(x)) == x
  {
    Le32Value(x);
    assert x / 256 / 256 == x / 65536 && x / 256 / 256 / 256 == x / 16777216;
  }

  /** The number stored at this place. */
  function Stored(d: seq<Byte>, at: nat): nat
    requires at + 4 <= |d|
  {
    (d[at] as nat) + 256 * (d[at + 1] as nat) + 65536 * (d[at + 2] as nat) + 16777216 * (d[at + 3] as nat)
  }

  /** How much the regions before region i take, each with the four bytes of its size. */
  function Ahead(rs: seq<Region>, i: nat): nat
    requires i <= |rs|
  {
    if i == 0 then 0 else Ahead(rs, i - 1) + 4 + rs[i - 1].size
  }

  lemma {:induction false} AheadInside(rs: seq<Region>, i: nat)
    requires i < |rs|
    ensures Ahead(rs, i + 1) == 4 + rs[0].size + Ahead(rs[1..], i)
  {
    if i > 0 { AheadInside(rs, i - 1); }
  }

  /** At this place in b are the size and the bytes of the region. */
  ghost predicate Holds(b: seq<Byte>, at: nat, m: seq<Byte>, r: Region) {
    && InMemory(r, |m|) && at + 4 + r.size <= |b|
    && b[at..at + 4] == Le32(r.size) && b[at + 4..at + 4 + r.size] == m[r.addr..r.addr + r.size]
  }

  lemma HoldsBehind(a: seq<Byte>, b: seq<Byte>, at: nat, m: seq<Byte>, r: Region)
    requires Holds(b, at, m, r)
    ensures Holds(a + b, |a| + at, m, r)
  {
    hide Le32;
    assert (a + b)[|a| + at..|a| + at + 4] == b[at..at + 4];
    assert (a + b)[|a| + at + 4..|a| + at + 4 + r.size] == b[at + 4..at + 4 + r.size];
  }

  lemma FirstHeld(m: seq<Byte>, r: Region, rest: seq<Byte>)
    requires InMemory(r, |m|)
    ensures Holds(Le32(r.size) + Bytes(m, r) + rest, 0, m, r)
  {
    hide Le32;
    var b := Le32(r.size) + Bytes(m, r) + rest;
    assert b[..4] == Le32(r.size) && b[4..4 + r.size] == Bytes(m, r);
  }

  lemma {:induction false} BodyHolds(m: seq<Byte>, rs: seq<Region>, i: nat)
    requires Table(rs, |m|) && i < |rs|
    ensures Holds(Body(m, rs), Ahead(rs, i), m, rs[i])
    decreases i
  {
    hide Le32, Holds, Bytes, Ahead;
    FirstHeld(m, rs[0], Body(m, rs[1..]));
    NoneAhead(rs);
    if i > 0 {
      BodyHolds(m, rs[1..], i - 1);
      AheadInside(rs, i - 1);
      HoldsBehind(Le32(rs[0].size) + Bytes(m, rs[0]), Body(m, rs[1..]), Ahead(rs[1..], i - 1), m, rs[i]);
      SizeBytes(m, rs[0]);
    }
  }

  lemma NoneAhead(rs: seq<Region>)
    ensures Ahead(rs, 0) == 0
  {
  }

  lemma SizeBytes(m: seq<Byte>, r: Region)
    requires InMemory(r, |m|)
    ensures |Le32(r.size) + Bytes(m, r)| == 4 + r.size
  {
  }

  /** Main result: a snapshot is "PLCR", the signature, and each region's size and bytes, one behind the other;
      numbers are stored in four bytes, the lowest first. */
  lemma SnapshotLayout(m: seq<Byte>, rs: seq<Region>, sig: nat, i: nat)
    requires Table(rs, |m|) && i < |rs|
    ensures var d := Snapshot(m, rs, sig);
            && |d| >= 8 && d[..4] == [0x50, 0x4C, 0x43, 0x52] && d[4..8] == Le32(sig)
            && Holds(d, 8 + Ahead(rs, i), m, rs[i])
  {
    hide Le32, Holds, Body;
    BodyHolds(m, rs, i);
    var head := MAGIC + Le32(sig);
    var d := Snapshot(m, rs, sig);
    assert d == head + Body(m, rs) && d[..4] == MAGIC && d[4..8] == Le32(sig);
    HoldsBehind(head, Body(m, rs), Ahead(rs, i), m, rs[i]);
  }

  /** A table is well-formed when its regions lie in memory, each ahead of or behind every other. */
  lemma {:induction false} TableIff(rs: seq<Region>, n: nat)
    ensures Table(rs, n)
            <==> && (forall i :: 0 <= i < |rs| ==> rs[i].addr + rs[i].size <= n)
                 && forall i, j :: 0 <= i < j < |rs| ==>
                      rs[i].addr + rs[i].size <= rs[j].addr || rs[j].addr + rs[j].size <= rs[i].addr
  {
    if rs != [] {
      TableIff(rs[1..], n);
      assert forall i :: 1 <= i < |rs| ==> rs[i] == rs[1..][i - 1];
      assert forall i :: 0 <= i < |rs[1..]| ==> rs[1..][i] == rs[i + 1];
    }
  }

  // ----- what is accepted --------------------------------------------------

  lemma {:induction false} PrefixAccepted(m: seq<Byte>, rs: seq<Region>, pre: seq<Byte>, rest: seq<Byte>)
    requires Table(rs, |m|) && forall i :: 0 <= i < |rs| ==> rs[i].size < 0x1_0000_0000
    ensures BodyOk(pre + Body(m, rs) + rest, |pre|, rs)
    decreases rs
  {
    hide Le32, FromLe32;
    if rs != [] {
      var r := rs[0];
      var head := Le32(r.size) + Bytes(m, r);
      var d := pre + Body(m, rs) + rest;
      assert d == (pre + head) + Body(m, rs[1..]) + rest;
      assert d[|pre|..|pre| + 4] == Le32(r.size);
      Le32Value(r.size);
      PrefixAccepted(m, rs[1..], pre + head, rest);
    }
  }

  lemma {:induction false} OkSizes(d: seq<Byte>, pos: nat, rs: seq<Region>, i: nat)
    requires BodyOk(d, pos, rs) && i < |rs|
    ensures rs[i].size < 0x1_0000_0000
    decreases rs
  {
    if i > 0 { OkSizes(d, pos + 4 + rs[0].size, rs[1..], i - 1); }
  }

  /** The blob begins with a snapshot that some memory of the program would give. */
  ghost predicate BeginsWithSnapshot(d: seq<Byte>, m: seq<Byte>, rs: seq<Region>, sig: nat) {
    exists m': seq<Byte>, rest: seq<Byte> :: |m'| == |m| && Table(rs, |m'|) && d == Snapshot(m', rs, sig) + rest
  }

  /** Main result: a program accepts exactly the blobs that begin with a snapshot of some memory of it, every
      region being small enough for its size to be stored. */
  lemma AcceptedIff(d: seq<Byte>, m: seq<Byte>, rs: seq<Region>, sig: nat)
    requires Table(rs, |m|) && sig < 0x1_0000_0000
    ensures Check(d, rs, sig) == Restored
            <==> BeginsWithSnapshot(d, m, rs, sig) && forall i :: 0 <= i < |rs| ==> rs[i].size < 0x1_0000_0000
  {
    hide Le32, FromLe32, BodyOk, Body;
    if Check(d, rs, sig) == Restored {
      SnapshotAfterApply(m, rs, sig, d);
      assert d == Snapshot(Applied(m, rs, d, 8), rs, sig) + d[8 + Total(rs)..];
      forall i | 0 <= i < |rs| ensures rs[i].size < 0x1_0000_0000 { OkSizes(d, 8, rs, i); }
    }
    if BeginsWithSnapshot(d, m, rs, sig) && forall i :: 0 <= i < |rs| ==> rs[i].size < 0x1_0000_0000 {
      var m', rest :| |m'| == |m| && Table(rs, |m'|) && d == Snapshot(m', rs, sig) + rest;
      var head := MAGIC + Le32(sig);
      assert d == head + Body(m', rs) + rest && d[..4] == MAGIC && d[4..8] == Le32(sig);
      Le32Value(sig);
      PrefixAccepted(m', rs, head, rest);
    }
  }

  /** A blob is refused as another program's exactly when it has the mark and the number stored behind it is
      not the signature; every other refusal is for its form. */
  lemma MismatchIff(d: seq<Byte>, rs: seq<Region>, sig: nat)
    ensures Check(d, rs, sig).Mismatch?
            <==> |d| >= 8 && d[..4] == [0x50, 0x4C, 0x43, 0x52] && Stored(d, 4) != sig
    ensures Check(d, rs, sig).Mismatch? ==> Check(d, rs, sig) == Mismatch(Stored(d, 4), sig)
  {
    hide BodyOk;
    if |d| >= 8 { assert d[4..8] == [d[4], d[5], d[6], d[7]]; }
  }
}

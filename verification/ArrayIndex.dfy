/** The linear index of an array element: row-major, over any number of dimensions, with every
    subscript clamped into its dimension. */
module ArrayIndex {
  import opened Wrappers
  import opened MachineInts
  import opened Nonlinear
  import T = IntTyping

  /** A dimension's bounds; resolving a declaration never leaves the upper one below the lower. */
  datatype Range = Range(lo: int, hi: int)

  predicate ValidRange(r: Range) { InSigned(r.lo, 64) && InSigned(r.hi, 64) && r.lo <= r.hi && InSigned(r.hi - r.lo,
      64) }

  predicate ValidRanges(rs: seq<Range>) { forall i :: 0 <= i < |rs| ==> ValidRange(rs[i]) }

  function Extent(r: Range): int { if r.hi - r.lo + 1 > 0 then r.hi - r.lo + 1 else 0 }

  /** `array_capacity`. */
  function Capacity(rs: seq<Range>): int {
    if rs == [] then 1 else Extent(rs[0]) * Capacity(rs[1..])
  }

  /** A subscript: its compiled value and its static type. */
  datatype Subscript = Subscript(v: Val, ty: Option<T.IntTy>)

  function Value(s: Subscript): int { T.Read(s.v, s.ty) }

  predicate InBounds(s: Subscript, r: Range) { r.lo <= Value(s) <= r.hi }

  /** The position of offsets in row-major order: the last subscript varies fastest. */
  function RowMajor(rs: seq<Range>, ks: seq<int>): int
    requires |rs| == |ks|
  {
    if rs == [] then 0 else ks[0] * Capacity(rs[1..]) + RowMajor(rs[1..], ks[1..])
  }

  predicate OffsetsOk(rs: seq<Range>, ks: seq<int>) {
    |rs| == |ks| && forall i :: 0 <= i < |rs| ==> 0 <= ks[i] < Extent(rs[i])
  }

  /** The emitted code for one subscript: i64 subtraction of the lower bound, then two selects. */
  function ClampedOffset(s: Subscript, r: Range): int {
    var idx := T.WidenTo(s.v, T.SignednessOf(s.ty), 64);
    var adjusted := AsSigned(Wrap(idx.bits - Wrap(r.lo, 64), 64), 64);
    var last := if r.hi - r.lo > 0 then r.hi - r.lo else 0;
    var clamped := if adjusted < 0 then 0 else adjusted;
    if adjusted > last then last else clamped
  }

  function Nearest(v: int, r: Range): int {
    if v < r.lo then 0 else if v > r.hi then r.hi - r.lo else v - r.lo
  }

  /** Any subscript gives an offset inside its dimension; unless the subtraction wraps it is the one
      nearest to the subscript, so a subscript in bounds keeps its place. */
  lemma OffsetInside(s: Subscript, r: Range)
    requires ValidVal(s.v) && ValidRange(r)
    ensures 0 <= ClampedOffset(s, r) < Extent(r)
    ensures InSigned(Value(s) - r.lo, 64) ==> ClampedOffset(s, r) == Nearest(Value(s), r)
    ensures r.lo <= Value(s) <= r.hi ==> ClampedOffset(s, r) == Value(s) - r.lo
  {
    hide Modulus, Wrap;
    var idx := T.WidenTo(s.v, T.SignednessOf(s.ty), 64);
    T.WidenKeepsValue(s.v, s.ty, 64);
    AsSignedWrap(idx.bits, 64);
    WrapUnsigned(idx.bits, 64);
    WrapSub(Value(s), r.lo, 64);
    if InSigned(Value(s) - r.lo, 64) { WrapSigned(Value(s) - r.lo, 64); }
  }

  lemma {:induction false} CapacityPositive(rs: seq<Range>)
    requires ValidRanges(rs)
    ensures Capacity(rs) >= 1
  {
    if rs != [] {
      CapacityPositive(rs[1..]);
      MulAtLeast(Extent(rs[0]), Capacity(rs[1..]));
    }
  }

  /** In-range offsets land inside the array. */
  lemma {:induction false} RowMajorInside(rs: seq<Range>, ks: seq<int>)
    requires ValidRanges(rs) && OffsetsOk(rs, ks)
    ensures 0 <= RowMajor(rs, ks) < Capacity(rs)
  {
    if rs != [] {
      var c := Capacity(rs[1..]);
      CapacityPositive(rs[1..]);
      RowMajorInside(rs[1..], ks[1..]);
      MulBetween(ks[0], Extent(rs[0]), c);
    }
  }

  lemma MulBetween(k: int, n: int, c: int)
    requires 0 <= k < n && c >= 1
    ensures 0 <= k * c && k * c + c <= n * c
  {
    MulAtLeast(k, c);
    assert (n - k) * c == n * c - k * c;
    MulAtLeast(n - k, c);
  }

  /** The offsets of a position: division with remainder, dimension by dimension. */
  function Offsets(rs: seq<Range>, p: int): (ks: seq<int>)
    requires ValidRanges(rs)
    ensures |ks| == |rs|
  {
    if rs == [] then []
    else
      CapacityPositive(rs[1..]);
      [p / Capacity(rs[1..])] + Offsets(rs[1..], p % Capacity(rs[1..]))
  }

  /** Main result, first half: position and offsets determine each other, so tuples of in-range
      subscripts correspond one to one to 0..capacity. */
  lemma {:induction false} OffsetsOfPosition(rs: seq<Range>, ks: seq<int>)
    requires ValidRanges(rs) && OffsetsOk(rs, ks)
    ensures Offsets(rs, RowMajor(rs, ks)) == ks
  {
    if rs != [] {
      CapacityPositive(rs[1..]);
      RowMajorInside(rs[1..], ks[1..]);
      Euclid(RowMajor(rs, ks), Capacity(rs[1..]), ks[0], RowMajor(rs[1..], ks[1..]));
      OffsetsOfPosition(rs[1..], ks[1..]);
    }
  }

  lemma {:induction false} PositionOfOffsets(rs: seq<Range>, p: int)
    requires ValidRanges(rs) && 0 <= p < Capacity(rs)
    ensures OffsetsOk(rs, Offsets(rs, p)) && RowMajor(rs, Offsets(rs, p)) == p
  {
    if rs != [] {
      var c := Capacity(rs[1..]);
      CapacityPositive(rs[1..]);
      assert p == (p / c) * c + p % c;
      QuotientBelow(p, Extent(rs[0]), c);
      PositionOfOffsets(rs[1..], p % c);
      var ks := Offsets(rs, p);
      assert ks[1..] == Offsets(rs[1..], p % c);
      forall i | 0 <= i < |rs|
        ensures 0 <= ks[i] < Extent(rs[i])
      {
        if i > 0 { assert ks[i] == ks[1..][i - 1] && rs[i] == rs[1..][i - 1]; }
      }
    }
  }

  /** There is an element for every choice of subscripts in bounds. */
  lemma CapacityIs(rs: seq<Range>)
    requires ValidRanges(rs)
    ensures Capacity(rs) == if rs == [] then 1 else (rs[0].hi - rs[0].lo + 1) * Capacity(rs[1..])
  {
  }

  /** One more in dimension d moves on by all elements of the dimensions behind it; in the last one, by one. */
  lemma {:induction false} NextInDimension(rs: seq<Range>, ks: seq<int>, d: nat)
    requires d < |rs| == |ks|
    ensures RowMajor(rs, ks[d := ks[d] + 1]) == RowMajor(rs, ks) + Capacity(rs[d + 1..])
    ensures d == |rs| - 1 ==> Capacity(rs[d + 1..]) == 1
    decreases d
  {
    var js := ks[d := ks[d] + 1];
    if d == 0 {
      assert js[1..] == ks[1..];
      assert (ks[0] + 1) * Capacity(rs[1..]) == ks[0] * Capacity(rs[1..]) + Capacity(rs[1..]);
    } else {
      NextInDimension(rs[1..], ks[1..], d - 1);
      assert js[1..] == ks[1..][d - 1 := ks[d] + 1] && rs[d + 1..] == rs[1..][d..];
    }
  }

  lemma QuotientBelow(p: int, n: int, c: int)
    requires c >= 1 && 0 <= p < n * c
    ensures 0 <= p / c < n
  {
    assert p == (p / c) * c + p % c;
    assert (p / c - n) * c == (p / c) * c - n * c;
    MulAtLeast(p / c - n, c);
    MulAtLeast(p / c, c);
  }

  // ----- the emitted computation -------------------------------------------

  function ClampedOffsets(rs: seq<Range>, subs: seq<Subscript>): (ks: seq<int>)
    requires |rs| == |subs|
    ensures |ks| == |rs| && forall i :: 0 <= i < |rs| ==> ks[i] == ClampedOffset(subs[i], rs[i])
  {
    seq(|rs|, i requires 0 <= i < |rs| => ClampedOffset(subs[i], rs[i]))
  }

  /** The offsets of subscripts in bounds. */
  function PlainOffsets(rs: seq<Range>, subs: seq<Subscript>): seq<int>
    requires |rs| == |subs|
  {
    seq(|rs|, i requires 0 <= i < |rs| => Value(subs[i]) - rs[i].lo)
  }

  lemma OffsetsInside(rs: seq<Range>, subs: seq<Subscript>)
    requires |rs| == |subs| && ValidRanges(rs) && forall i :: 0 <= i < |subs| ==> ValidVal(subs[i].v)
    ensures OffsetsOk(rs, ClampedOffsets(rs, subs))
    ensures 0 <= RowMajor(rs, ClampedOffsets(rs, subs)) < Capacity(rs)
    ensures (forall i :: 0 <= i < |rs| ==> InBounds(subs[i], rs[i])) ==>
              ClampedOffsets(rs, subs) == PlainOffsets(rs, subs)
  {
    hide ClampedOffset, Extent;
    forall i | 0 <= i < |rs|
      ensures 0 <= ClampedOffset(subs[i], rs[i]) < Extent(rs[i])
      ensures InBounds(subs[i], rs[i]) ==> ClampedOffset(subs[i], rs[i]) == Value(subs[i]) - rs[i].lo
    {
      OffsetInside(subs[i], rs[i]);
    }
    RowMajorInside(rs, ClampedOffsets(rs, subs));
  }

  /** The product of the extents after a dimension. */
  method Stride(rs: seq<Range>) returns (p: int)
    ensures p == Capacity(rs)
  {
    p := 1;
    for i := |rs| downto 0
      invariant p == Capacity(rs[i..])
    {
      assert rs[i..][1..] == rs[i + 1..];
      p := Extent(rs[i]) * p;
    }
  }

  /** Main result, second half: in i64, without wrapping, the code computes the row-major position of
      the clamped subscripts. It is inside the array whatever the subscripts are. */
  method LinearIndex(rs: seq<Range>, subs: seq<Subscript>) returns (linear: nat)
    requires |rs| == |subs| && ValidRanges(rs) && Capacity(rs) <= Half(64)
    requires forall i :: 0 <= i < |subs| ==> ValidVal(subs[i].v)
    ensures linear == RowMajor(rs, ClampedOffsets(rs, subs))
    ensures linear < Capacity(rs)
    ensures (forall i :: 0 <= i < |rs| ==> rs[i].lo <= Value(subs[i]) <= rs[i].hi) ==>
              linear == RowMajor(rs, PlainOffsets(rs, subs))
  {
    hide Modulus, Wrap, ClampedOffset, Capacity, RowMajor, OffsetsOk, ValidRanges;
    ghost var ks := ClampedOffsets(rs, subs);
    OffsetsInside(rs, subs);
    linear := 0;
    assert rs[0..] == rs && ks[0..] == ks;
    for dim := 0 to |subs|
      invariant linear + RowMajor(rs[dim..], ks[dim..]) == RowMajor(rs, ks)
    {
      var clamped := ClampedOffset(subs[dim], rs[dim]);
      var stride := Stride(rs[dim + 1..]);
      Peel(rs, ks, dim, linear);
      var component := Wrap(clamped * stride, 64);
      WrapUnsigned(clamped * stride, 64);
      linear := Wrap(linear + component, 64);
      WrapUnsigned(linear, 64);
    }
    NothingLeft(rs[|subs|..], ks[|subs|..]);
  }

  lemma NothingLeft(rs: seq<Range>, ks: seq<int>)
    requires rs == [] && ks == []
    ensures RowMajor(rs, ks) == 0
  {
  }

  /** What one round of the loop takes off the rest. */
  lemma Peel(rs: seq<Range>, ks: seq<int>, dim: nat, linear: nat)
    requires ValidRanges(rs) && OffsetsOk(rs, ks) && dim < |rs| && Capacity(rs) <= Half(64)
    requires linear + RowMajor(rs[dim..], ks[dim..]) == RowMajor(rs, ks)
    ensures var component := ks[dim] * Capacity(rs[dim + 1..]);
            && 0 <= component && linear + component < Half(64)
            && linear + component + RowMajor(rs[dim + 1..], ks[dim + 1..]) == RowMajor(rs, ks)
            && InUnsigned(component, 64) && InUnsigned(linear + component, 64)
            && Wrap(component, 64) == component && Wrap(linear + component, 64) == linear + component
  {
    assert rs[dim..][1..] == rs[dim + 1..] && ks[dim..][1..] == ks[dim + 1..];
    CapacityPositive(rs[dim + 1..]);
    RowMajorInside(rs, ks);
    RowMajorInside(rs[dim + 1..], ks[dim + 1..]);
    MulBetween(ks[dim], Extent(rs[dim]), Capacity(rs[dim + 1..]));
    hide Modulus, Wrap, Capacity, RowMajor;
    WrapUnsigned(ks[dim] * Capacity(rs[dim + 1..]), 64);
    WrapUnsigned(linear + ks[dim] * Capacity(rs[dim + 1..]), 64);
  }
}

/** Option, and the fixed-width integers LLVM computes with: a value is a bit
    pattern `0 <= bits < 2^w` and carries no sign of its own. */
module Wrappers {
  datatype Option<+T> = None | Some(value: T)
}

/** The few facts about products and quotients that the solver needs spelled out. */
module Nonlinear {
  lemma MulAssoc(a: int, b: int, c: int)
    ensures a * (b * c) == (a * b) * c
  {
  }

  lemma MulAtLeast(k: int, m: int)
    requires m > 0
    ensures k >= 1 ==> k * m >= m
    ensures k <= -1 ==> k * m <= -m
  {
    if k >= 1 { assert (k - 1) * m >= 0; }
    if k <= -1 { assert (k + 1) * m <= 0; }
  }

  /** Quotient and remainder are unique. */
  lemma Euclid(x: int, m: int, q: int, r: int)
    requires m > 0 && x == q * m + r && 0 <= r < m
    ensures x / m == q && x % m == r
  {
    var p := x / m;
    assert x == p * m + x % m;
    assert (p - q) * m == p * m - q * m;
    MulAtLeast(p - q, m);
  }

  lemma ModShift(a: int, k: int, m: int)
    requires m > 0
    ensures (a + k * m) % m == a % m
  {
    assert a == (a / m) * m + a % m;
    assert (a / m) * m + k * m == (a / m + k) * m;
    Euclid(a + k * m, m, a / m + k, a % m);
  }
}

module MachineInts {
  import opened Wrappers

  /** The integer widths of IEC 61131-3 variables and of compiled temporaries. */
  type Width = w: nat | w == 8 || w == 16 || w == 32 || w == 64 witness 32

  /** 2^w. */
  function Modulus(w: Width): (m: nat)
    ensures m >= 256
  {
    if w == 8 then 0x100
    else if w == 16 then 0x1_0000
    else if w == 32 then 0x1_0000_0000
    else 0x1_0000_0000_0000_0000
  }

  lemma ModulusGrows(narrow: Width, wide: Width)
    requires narrow <= wide
    ensures Modulus(narrow) <= Modulus(wide)
  {
  }

  function Half(w: Width): (h: nat)
    ensures 2 * h == Modulus(w)
  {
    if w == 8 then 0x80
    else if w == 16 then 0x8000
    else if w == 32 then 0x8000_0000
    else 0x8000_0000_0000_0000
  }

  /** The low w bits of an integer. */
  function Wrap(v: int, w: Width): (bits: nat)
    ensures bits < Modulus(w)
  {
    v % Modulus(w)
  }

  /** The two's-complement reading of a pattern. */
  function AsSigned(bits: nat, w: Width): int {
    if bits < Half(w) then bits else bits - Modulus(w)
  }

  predicate InSigned(v: int, w: Width) { 0 <= v + Half(w) < Modulus(w) }

  predicate InUnsigned(v: int, w: Width) { 0 <= v < Modulus(w) }

  /** An SSA value: a pattern at its own width. */
  datatype Val = Val(w: Width, bits: nat)

  predicate ValidVal(v: Val) { v.bits < Modulus(v.w) }

  function Zext(v: Val, w: Width): Val { Val(w, v.bits) }

  function Sext(v: Val, w: Width): Val { Val(w, Wrap(AsSigned(v.bits, v.w), w)) }

  function Trunc(v: Val, w: Width): Val { Val(w, Wrap(v.bits, w)) }

  /** `resize_int`: extend by `signed`, or truncate. */
  function Resize(v: Val, w: Width, signed: bool): Val {
    if v.w == w then v
    else if v.w > w then Trunc(v, w)
    else if signed then Sext(v, w)
    else Zext(v, w)
  }

  function Max(a: Width, b: Width): Width { if a > b then a else b }

  // ----- modular arithmetic ------------------------------------------------

  /** How often the modulus was taken off. */
  function Laps(v: int, w: Width): (k: int)
    ensures v == Wrap(v, w) + k * Modulus(w)
  {
    v / Modulus(w)
  }

  lemma WrapUnique(v: int, w: Width, r: int, k: int)
    requires 0 <= r < Modulus(w) && v == r + k * Modulus(w)
    ensures Wrap(v, w) == r
  {
    var m := Modulus(w);
    assert (Laps(v, w) - k) * m == r - Wrap(v, w);
  }

  /** Congruence: a pattern may stand for any integer it wraps to. */
  lemma WrapCongruent(a: int, k: int, w: Width)
    ensures Wrap(a + k * Modulus(w), w) == Wrap(a, w)
  {
    var q := Laps(a, w);
    assert (q + k) * Modulus(w) == q * Modulus(w) + k * Modulus(w);
    WrapUnique(a + k * Modulus(w), w, Wrap(a, w), q + k);
  }

  lemma WrapUnsigned(v: int, w: Width)
    requires InUnsigned(v, w)
    ensures Wrap(v, w) == v
  {
    WrapUnique(v, w, v, 0);
  }

  lemma WrapSigned(v: int, w: Width)
    requires InSigned(v, w)
    ensures AsSigned(Wrap(v, w), w) == v
  {
    if v >= 0 { WrapUnique(v, w, v, 0); } else { WrapUnique(v, w, v + Modulus(w), -1); }
  }

  lemma AsSignedWrap(bits: nat, w: Width)
    requires bits < Modulus(w)
    ensures Wrap(AsSigned(bits, w), w) == bits && InSigned(AsSigned(bits, w), w)
  {
    if bits < Half(w) { WrapUnique(bits, w, bits, 0); }
    else { WrapUnique(bits - Modulus(w), w, bits, -1); }
  }

  lemma WrapAdd(a: int, b: int, w: Width)
    ensures Wrap(Wrap(a, w) + Wrap(b, w), w) == Wrap(a + b, w)
  {
    var (p, q) := (Laps(a, w), Laps(b, w));
    assert (p + q) * Modulus(w) == p * Modulus(w) + q * Modulus(w);
    WrapCongruent(Wrap(a, w) + Wrap(b, w), p + q, w);
  }

  lemma WrapSub(a: int, b: int, w: Width)
    ensures Wrap(Wrap(a, w) - Wrap(b, w), w) == Wrap(a - b, w)
  {
    var (p, q) := (Laps(a, w), Laps(b, w));
    assert (p - q) * Modulus(w) == p * Modulus(w) - q * Modulus(w);
    WrapCongruent(Wrap(a, w) - Wrap(b, w), p - q, w);
  }

  lemma WrapMul(a: int, b: int, w: Width)
    ensures Wrap(Wrap(a, w) * Wrap(b, w), w) == Wrap(a * b, w)
  {
    var (p, q, r, s, m) := (Laps(a, w), Laps(b, w), Wrap(a, w), Wrap(b, w), Modulus(w));
    ProductOfSums(p, q, r, s, m);
    WrapCongruent(r * s, p * q * m + p * s + r * q, w);
  }

  lemma ProductOfSums(p: int, q: int, r: int, s: int, m: int)
    ensures (r + p * m) * (s + q * m) == r * s + (p * q * m + p * s + r * q) * m
  {
    calc {
      (r + p * m) * (s + q * m);
      r * s + r * (q * m) + (p * m) * s + (p * m) * (q * m);
      { Regroup(p, q, r, s, m); }
      r * s + (p * q * m + p * s + r * q) * m;
    }
  }

  lemma Regroup(p: int, q: int, r: int, s: int, m: int)
    ensures r * (q * m) + (p * m) * s + (p * m) * (q * m) == (p * q * m + p * s + r * q) * m
  {
    assert (p * m) * (q * m) == (p * q * m) * m;
    assert (p * m) * s == (p * s) * m;
    assert r * (q * m) == (r * q) * m;
  }

  function Ratio(wide: Width, narrow: Width): (f: int)
    requires narrow <= wide
    ensures Modulus(wide) == f * Modulus(narrow)
  {
    Modulus(wide) / Modulus(narrow)
  }

  /** Narrowing after wrapping at a wider width is wrapping at the narrow one. */
  lemma WrapNarrow(v: int, wide: Width, narrow: Width)
    requires narrow <= wide
    ensures Wrap(Wrap(v, wide), narrow) == Wrap(v, narrow)
  {
    var q := Laps(v, wide);
    var f := Ratio(wide, narrow);
    hide Modulus, Wrap, Laps;
    assert q * Modulus(wide) == (q * f) * Modulus(narrow);
    WrapCongruent(Wrap(v, wide), q * f, narrow);
  }
}

/** Division laws, SHL/SHR by counts of any width or sign, and ROL/ROR. */
module ShiftRotate {
  import opened Wrappers
  import opened MachineInts
  import opened IntTyping
  import opened Nonlinear

  function Pow2(n: nat): (p: nat)
    ensures p > 0
  {
    if n == 0 then 1 else 2 * Pow2(n - 1)
  }

  lemma {:induction false} Pow2Sum(a: nat, b: nat)
    ensures Pow2(a + b) == Pow2(a) * Pow2(b)
  {
    if a > 0 { Pow2Sum(a - 1, b); }
  }

  lemma {:induction false} Pow2Small(n: nat)
    requires n <= 4
    ensures Pow2(n) == if n == 4 then 16 else if n == 3 then 8 else if n == 2 then 4 else n + 1
  {
    if n > 0 { Pow2Small(n - 1); }
  }

  lemma {:induction false} Pow2Width(w: Width)
    ensures Pow2(w) == Modulus(w)
  {
    hide Pow2;
    Pow2Sum(w / 2, w / 2);
    if w == 8 { Pow2Small(4); } else { Pow2Width(w / 2); }
  }

  // ----- division ----------------------------------------------------------

  /** For every width and every nonzero divisor, MIN / -1 included, the quotient times the
      divisor plus the MOD is the dividend again, modulo 2^w. */
  lemma DivisionLaw(l: nat, r: nat, w: Width, unsigned: bool)
    requires l < Modulus(w) && 0 < r < Modulus(w)
    ensures var (q, m) := (CheckedIntDiv(true, l, r, w, unsigned), CheckedIntDiv(false, l, r, w, unsigned));
            && q.Some? && m.Some?
            && Wrap(q.value * r + m.value, w) == l
  {
    if unsigned {
      assert l == (l / r) * r + l % r;
      WrapUnsigned(l, w);
    } else if l == Half(w) && r == Modulus(w) - 1 {
      MinOverMinusOne(l, r, w);
    } else {
      SignedDivisionLaw(l, r, w);
    }
  }

  lemma SignedDivisionLaw(l: nat, r: nat, w: Width)
    requires l < Modulus(w) && 0 < r < Modulus(w)
    requires !(l == Half(w) && r == Modulus(w) - 1)
    ensures var (q, m) := (CheckedIntDiv(true, l, r, w, false), CheckedIntDiv(false, l, r, w, false));
            && q.Some? && m.Some?
            && Wrap(q.value * r + m.value, w) == l
  {
    var a, b := AsSigned(l, w), AsSigned(r, w);
    AsSignedWrap(l, w);
    AsSignedWrap(r, w);
    var Q, M := TruncDiv(a, b), TruncRem(a, b);
    var q, m := Wrap(Q, w), Wrap(M, w);
    assert a == Q * b + M;
    WrapMul(Q, b, w);
    WrapAdd(q * r, M, w);
    WrapAdd(Q * b, M, w);
    WrapAdd(q * r, m, w);
    WrapUnsigned(m, w);
  }

  lemma MinOverMinusOne(l: nat, r: nat, w: Width)
    requires l == Half(w) && r == Modulus(w) - 1
    ensures CheckedIntDiv(true, l, r, w, false) == Some(l)
    ensures CheckedIntDiv(false, l, r, w, false) == Some(0)
    ensures Wrap(l * r, w) == l
  {
    var a := AsSigned(l, w);
    assert TruncDiv(a, 1) == a && TruncRem(a, 1) == 0;
    AsSignedWrap(l, w);
    WrapUnsigned(0, w);
    assert l * r == l + (l - 1) * Modulus(w) by {
      assert l * r == l * Modulus(w) - l;
      assert (l - 1) * Modulus(w) == l * Modulus(w) - Modulus(w);
    }
    WrapCongruent(l, l - 1, w);
    WrapUnsigned(l, w);
  }

  /** The MOD is smaller than the divisor and has the sign of the dividend. */
  lemma RemainderBound(l: nat, r: nat, w: Width)
    requires l < Modulus(w) && 0 < r < Modulus(w)
    ensures var m := CheckedIntDiv(false, l, r, w, false);
            var (a, b) := (AsSigned(l, w), AsSigned(r, w));
            && m.Some? && Abs(AsSigned(m.value, w)) < Abs(b)
            && (0 <= a ==> 0 <= AsSigned(m.value, w)) && (a <= 0 ==> AsSigned(m.value, w) <= 0)
  {
    var a, b := AsSigned(l, w), AsSigned(r, w);
    AsSignedWrap(l, w);
    AsSignedWrap(r, w);
    var d := if l == Half(w) && r == Modulus(w) - 1 then 1 else b;
    TruncDivBounds(a, d);
    assert InSigned(TruncRem(a, d), w);
    WrapSigned(TruncRem(a, d), w);
  }

  // ----- the count ---------------------------------------------------------

  /** `shift_operands`: IN at its own type's width, the count brought to that width. */
  function ShiftIn(v: Val, t: Option<IntTy>): Val {
    if t.Some? && BitSize(t.value) < v.w then Trunc(v, BitSize(t.value)) else v
  }

  function ShiftCount(n: Val, nt: Option<IntTy>, w: Width): Val {
    if n.w == w then n
    else if n.w < w then WidenTo(n, SignednessOf(nt), w)
    else Trunc(n, w)
  }

  /** LLVM's `shl` and `lshr` by less than the width. */
  function Shl(bits: nat, n: nat, w: Width): nat { Wrap(bits * Pow2(n), w) }

  function Lshr(bits: nat, n: nat): nat { NatDiv(bits, Pow2(n)); bits / Pow2(n) }

  /** `checked_shift`. */
  function CheckedShift(v: Val, t: Option<IntTy>, n: Val, nt: Option<IntTy>, left: bool): Val {
    var x := ShiftIn(v, t);
    var tooFar := n.bits >= x.w;
    var safe := if tooFar then 0 else ShiftCount(n, nt, x.w).bits;
    var shifted := if left then Shl(x.bits, safe, x.w) else Lshr(x.bits, safe);
    Val(x.w, if tooFar then 0 else shifted)
  }

  lemma SmallCountKept(n: Val, nt: Option<IntTy>, w: Width)
    requires ValidVal(n) && n.bits < w
    ensures ShiftCount(n, nt, w).bits == n.bits == Read(n, nt)
  {
    if n.w < w { WrapUnsigned(n.bits, w); }
    if n.w > w { WrapUnsigned(n.bits, w); }
  }

  lemma FarShift(bits: nat, c: nat, w: Width)
    requires bits < Modulus(w) && c >= w
    ensures Wrap(bits * Pow2(c), w) == 0 && bits / Pow2(c) == 0
  {
    Pow2Sum(c - w, w);
    Pow2Width(w);
    var k := Pow2(c - w);
    MulAssoc(bits, k, Modulus(w));
    WrapCongruent(0, bits * k, w);
    WrapUnsigned(0, w);
    MulAtLeast(k, Modulus(w));
    Euclid(bits, Pow2(c), 0, bits);
  }

  /** IN is the low bits of its value, as many as its type has. */
  lemma ShiftInIs(v: Val, t: Option<IntTy>)
    requires ValidVal(v)
    ensures var w := if t.Some? && BitSize(t.value) < v.w then BitSize(t.value) else v.w;
            ShiftIn(v, t) == Val(w, v.bits % Modulus(w))
  {
    WrapUnsigned(v.bits, v.w);
  }

  /** SHL and SHR by any count of any width: multiplication and division by 2^n on IN's own
      width, hence 0 once every bit is out; a negative count gives 0. */
  lemma ShiftCorrect(v: Val, t: Option<IntTy>, n: Val, nt: Option<IntTy>)
    requires ValidVal(v) && ValidVal(n)
    ensures var w := if t.Some? && BitSize(t.value) < v.w then BitSize(t.value) else v.w;
            var (x, c) := (v.bits % Modulus(w), Read(n, nt));
            var (l, r) := (CheckedShift(v, t, n, nt, true), CheckedShift(v, t, n, nt, false));
            && l.w == r.w == w
            && (c >= 0 ==> l.bits == x * Pow2(c) % Modulus(w) && r.bits == x / Pow2(c))
            && (c < 0 ==> l.bits == 0 && r.bits == 0)
  {
    ShiftInIs(v, t);
    var x, c := ShiftIn(v, t), Read(n, nt);
    if n.bits < x.w {
      SmallCountKept(n, nt, x.w);
    } else if c >= 0 {
      assert c == n.bits;
      FarShift(x.bits, c, x.w);
    }
  }

  // ----- rotation ----------------------------------------------------------

  /** LLVM's `fshl`/`fshr`: shift the double-width concatenation by the count modulo w. */
  function Fshl(hi: nat, lo: nat, n: nat, w: Width): nat {
    ConcatShl(hi, lo, Pow2(Amount(n, w)), w)
  }

  function Fshr(hi: nat, lo: nat, n: nat, w: Width): nat {
    ConcatShr(hi, lo, Pow2(Amount(n, w)), w)
  }

  function Amount(n: int, w: Width): (k: nat)
    ensures k < w
  {
    n % w
  }

  function ConcatShl(hi: nat, lo: nat, p: nat, w: Width): nat {
    Wrap(((hi * Modulus(w) + lo) * p) / Modulus(w), w)
  }

  function ConcatShr(hi: nat, lo: nat, p: nat, w: Width): nat
    requires p > 0
  {
    Wrap((hi * Modulus(w) + lo) / p, w)
  }

  function Rol(v: Val, t: Option<IntTy>, n: Val, nt: Option<IntTy>): Val {
    var x := ShiftIn(v, t);
    Val(x.w, Fshl(x.bits, x.bits, ShiftCount(n, nt, x.w).bits, x.w))
  }

  function Ror(v: Val, t: Option<IntTy>, n: Val, nt: Option<IntTy>): Val {
    var x := ShiftIn(v, t);
    Val(x.w, Fshr(x.bits, x.bits, ShiftCount(n, nt, x.w).bits, x.w))
  }

  /** x rotated left by k: its top k bits move to the bottom. */
  function Rotated(x: nat, k: nat, w: Width): int
    requires k < w
  {
    SwapParts(x, Pow2(k), Pow2(w - k))
  }

  function SwapParts(x: nat, p: nat, s: nat): int
    requires s > 0
  {
    (x % s) * p + x / s
  }

  lemma PowSplit(k: nat, w: Width)
    requires k <= w
    ensures Pow2(k) * Pow2(w - k) == Modulus(w)
  {
    Pow2Sum(k, w - k);
    Pow2Width(w);
  }

  /** hi * s + lo below p * s has hi below p. */
  lemma HighPart(hi: int, lo: int, p: int, s: int)
    requires s > 0 && 0 <= lo < s && 0 <= hi * s + lo < p * s
    ensures 0 <= hi < p
  {
    assert (hi - p) * s == hi * s - p * s;
    MulAtLeast(hi - p, s);
    MulAtLeast(hi, s);
  }

  lemma LowPart(hi: int, lo: int, p: int, s: int)
    requires p > 0 && 0 <= lo < s && 0 <= hi < p
    ensures 0 <= lo * p + hi < p * s
  {
    assert (s - lo) * p == s * p - lo * p;
    MulAtLeast(s - lo, p);
    assert lo * p >= 0;
  }

  lemma RotateLeftIdentity(hi: int, lo: int, p: int, s: int, m: int)
    requires m == p * s
    ensures var x := hi * s + lo;
            (x * m + x) * p == (x * p + hi) * m + lo * p
    ensures (hi * s + lo) * p == lo * p + hi * m
  {
    assert (hi * s + lo) * p == hi * (p * s) + lo * p;
    var x := hi * s + lo;
    assert (x * m + x) * p == (x * p) * m + x * p;
    assert (x * p + hi) * m == (x * p) * m + hi * m;
  }

  lemma RotateRightIdentity(hi: int, lo: int, p: int, s: int, m: int)
    requires m == p * s
    ensures var y := lo * p + hi;
            y * m + y == (y * s + lo) * p + hi && y * s + lo == (hi * s + lo) + lo * m
  {
    var y := lo * p + hi;
    assert (y * s + lo) * p == y * (p * s) + lo * p;
    assert (lo * p + hi) * s == lo * (p * s) + hi * s;
  }

  lemma Parts(x: nat, p: nat, s: nat, m: nat)
    requires p > 0 && s > 0 && m == p * s && x < m
    ensures x == (x / s) * s + x % s && 0 <= x % s < s && 0 <= x / s < p
    ensures 0 <= SwapParts(x, p, s) < m && 0 <= (x % s) * p
  {
    assert x == (x / s) * s + x % s;
    HighPart(x / s, x % s, p, s);
    LowPart(x / s, x % s, p, s);
    MulAtLeast(x % s, p);
  }

  lemma ShlSwaps(x: nat, p: nat, s: nat, w: Width)
    requires p > 0 && s > 0 && Modulus(w) == p * s && x < Modulus(w)
    ensures ConcatShl(x, x, p, w) == SwapParts(x, p, s)
  {
    Parts(x, p, s, Modulus(w));
    RotateLeftIdentity(x / s, x % s, p, s, Modulus(w));
    RotateLeftWrap(x, x / s, x % s, p, w);
  }

  lemma ShrSwapsBack(x: nat, p: nat, s: nat, w: Width)
    requires p > 0 && s > 0 && Modulus(w) == p * s && x < Modulus(w)
    ensures 0 <= SwapParts(x, p, s)
    ensures ConcatShr(SwapParts(x, p, s), SwapParts(x, p, s), p, w) == x
  {
    Parts(x, p, s, Modulus(w));
    RotateRightIdentity(x / s, x % s, p, s, Modulus(w));
    RotateRightWrap(x, SwapParts(x, p, s), x / s, x % s, p, s, w);
  }

  lemma RotateLeftWrap(x: nat, hi: int, lo: int, p: nat, w: Width)
    requires x * p == lo * p + hi * Modulus(w)
    requires (x * Modulus(w) + x) * p == (x * p + hi) * Modulus(w) + lo * p
    requires 0 <= lo * p + hi < Modulus(w) && 0 <= hi && 0 <= lo * p
    ensures Wrap((x * Modulus(w) + x) * p / Modulus(w), w) == lo * p + hi
  {
    Euclid((x * Modulus(w) + x) * p, Modulus(w), x * p + hi, lo * p);
    WrapCongruent(lo * p + hi, hi, w);
    WrapUnsigned(lo * p + hi, w);
  }

  lemma RotateRightWrap(x: nat, y: nat, hi: int, lo: int, p: nat, s: nat, w: Width)
    requires y * Modulus(w) + y == (y * s + lo) * p + hi && 0 <= hi < p
    requires y * s + lo == x + lo * Modulus(w)
    requires x < Modulus(w)
    ensures Wrap((y * Modulus(w) + y) / p, w) == x
  {
    Euclid(y * Modulus(w) + y, p, y * s + lo, hi);
    WrapCongruent(x, lo, w);
    WrapUnsigned(x, w);
  }

  lemma RotateBits(x: nat, n: nat, k: nat, w: Width)
    requires x < Modulus(w) && Amount(n, w) == k
    ensures Fshl(x, x, n, w) == Rotated(x, k, w)
    ensures Fshr(Fshl(x, x, n, w), Fshl(x, x, n, w), n, w) == x
  {
    PowSplit(k, w);
    ShlSwaps(x, Pow2(k), Pow2(w - k), w);
    ShrSwapsBack(x, Pow2(k), Pow2(w - k), w);
  }

  /** Narrowing or widening the count keeps it modulo the width of IN. */
  lemma CountModWidth(n: Val, nt: Option<IntTy>, w: Width)
    requires ValidVal(n)
    ensures Amount(ShiftCount(n, nt, w).bits, w) == Amount(Read(n, nt), w)
  {
    var c := Read(n, nt);
    var s := ShiftCount(n, nt, w);
    AsSignedWrap(n.bits, n.w);
    WrapUnsigned(n.bits, n.w);
    assert Wrap(c, n.w) == n.bits;
    if n.w > w { WrapNarrow(c, n.w, w); }
    if n.w < w && ReadsUnsigned(nt) { WrapUnsigned(n.bits, w); }
    assert s.bits == Wrap(c, w);
    WrapModWidth(c, w);
  }

  lemma WrapModWidth(c: int, w: Width)
    ensures Wrap(c, w) % w == c % w
  {
    var q, f := c / Modulus(w), Modulus(w) / w;
    assert Modulus(w) == f * w;
    assert c == q * Modulus(w) + Wrap(c, w);
    MulAssoc(q, f, w);
    ModShift(Wrap(c, w), q * f, w);
  }

  // ----- bits --------------------------------------------------------------

  /** Bit i of x. */
  function BitAt(x: nat, i: nat): nat { x / Pow2(i) % 2 }

  lemma PowStep(n: nat)
    requires n > 0
    ensures Pow2(n) == 2 * Pow2(n - 1)
  {
  }

  lemma DivShift(b: int, k: int, p: int)
    requires p > 0
    ensures (k * p + b) / p == k + b / p
  {
    assert b == (b / p) * p + b % p;
    assert (k + b / p) * p == k * p + (b / p) * p;
    Euclid(k * p + b, p, k + b / p, b % p);
  }

  lemma EvenMultiple(a: int, p: int, q: int)
    ensures a * (p * (2 * q)) == ((a * q) * 2) * p
  {
    MulAssoc(a, 2 * q, p);
    MulAssoc(a, q, 2);
  }

  lemma LowPlaces(a: int, b: int, p: int, q: int)
    requires p > 0
    ensures (a * (p * (2 * q)) + b) / p % 2 == b / p % 2
  {
    EvenMultiple(a, p, q);
    DivShift(b, (a * q) * 2, p);
    ModShift(b / p, a * q, 2);
  }

  lemma HighPlaces(a: nat, b: nat, p: nat, q: nat)
    requires p > 0 && q > 0 && b < p
    ensures p * q > 0 && (a * p + b) / (p * q) == a / q
  {
    var (d, r) := (a / q, a % q);
    assert a == d * q + r;
    MulAssoc(d, q, p);
    assert (d * q + r) * p == (d * q) * p + r * p;
    LowPart(b, r, p, q);
    MulAtLeast(p, q);
    Euclid(a * p + b, p * q, d, r * p + b);
  }

  /** a on top of the n bits of b. */
  function Above(a: nat, n: nat, b: nat): nat { a * Pow2(n) + b }

  /** The bits below n are those of the lower part. */
  lemma LowBit(a: nat, b: nat, i: nat, n: nat)
    requires i < n
    ensures BitAt(Above(a, n, b), i) == BitAt(b, i)
  {
    hide Pow2;
    Pow2Sum(i, n - i);
    PowStep(n - i);
    LowPlaces(a, b, Pow2(i), Pow2(n - i - 1));
  }

  /** The bits from n on are those of the upper part. */
  lemma HighBit(a: nat, b: nat, i: nat, n: nat)
    requires b < Pow2(n)
    ensures BitAt(Above(a, n, b), n + i) == BitAt(a, i)
  {
    hide Pow2;
    Pow2Sum(n, i);
    HighPlaces(a, b, Pow2(n), Pow2(i));
  }

  lemma BitMoves(hi: nat, lo: nat, k: nat, w: nat, j: nat)
    requires k < w && hi < Pow2(k) && lo < Pow2(w - k) && j < w
    ensures BitAt(Above(lo, k, hi), if j < w - k then k + j else j - (w - k)) == BitAt(Above(hi, w - k, lo), j)
  {
    hide Pow2, BitAt, Above;
    if j < w - k {
      HighBit(lo, hi, j, k);
      LowBit(hi, lo, j, w - k);
    } else {
      LowBit(lo, hi, j - (w - k), k);
      HighBit(hi, lo, j - (w - k), w - k);
    }
  }

  lemma RotatedParts(x: nat, k: nat, w: Width) returns (hi: nat, lo: nat)
    requires x < Modulus(w) && k < w
    ensures hi < Pow2(k) && lo < Pow2(w - k)
    ensures x == Above(hi, w - k, lo) && Rotated(x, k, w) == Above(lo, k, hi)
  {
    hide Pow2;
    PowSplit(k, w);
    Parts(x, Pow2(k), Pow2(w - k), Modulus(w));
    hi, lo := x / Pow2(w - k), x % Pow2(w - k);
  }

  lemma RoundAt(j: nat, k: nat, w: Width)
    requires j < w && k < w
    ensures (j + k) % w == if j < w - k then k + j else j - (w - k)
  {
  }

  /** What was bit j is bit j + k, counted round at w. */
  lemma RotatedBit(x: nat, k: nat, w: Width, j: nat)
    requires x < Modulus(w) && k < w && j < w
    ensures Rotated(x, k, w) >= 0
    ensures BitAt(Rotated(x, k, w), (j + k) % w) == BitAt(x, j)
  {
    RoundAt(j, k, w);
    hide *;
    var hi, lo := RotatedParts(x, k, w);
    BitMoves(hi, lo, k, w, j);
  }

  /** ROL rotates IN, at its own width, by the count modulo that width, however the count had
      to be narrowed or extended and whatever its sign: each bit moves up by the count, and round.
      ROR by the same count undoes it. */
  lemma RotateCorrect(v: Val, t: Option<IntTy>, n: Val, nt: Option<IntTy>)
    requires ValidVal(v) && ValidVal(n)
    ensures var w := if t.Some? && BitSize(t.value) < v.w then BitSize(t.value) else v.w;
            var (x, r) := (v.bits % Modulus(w), Rol(v, t, n, nt));
            && r.w == w && r.bits < Modulus(w) && Ror(r, t, n, nt) == Val(w, x)
            && forall j :: 0 <= j < w ==> BitAt(r.bits, (j + Read(n, nt)) % w) == BitAt(x, j)
  {
    hide Modulus, Wrap, Pow2, Fshl, Fshr, Amount, ShiftCount, Read, Rotated, BitAt;
    ShiftInIs(v, t);
    var (x, c) := (ShiftIn(v, t), Read(n, nt));
    CountModWidth(n, nt, x.w);
    AmountIs(c, x.w);
    var k := Amount(c, x.w);
    RotateBits(x.bits, ShiftCount(n, nt, x.w).bits, k, x.w);
    RotatedBelow(x.bits, k, x.w);
    forall j | 0 <= j < x.w ensures BitAt(Rotated(x.bits, k, x.w), (j + c) % x.w) == BitAt(x.bits, j) {
      RotatedBit(x.bits, k, x.w, j);
      SumMod(j, c, x.w);
    }
    ShiftInKept(Rotated(x.bits, k, x.w), v, t);
  }

  lemma AmountIs(c: int, w: Width)
    ensures Amount(c, w) == c % w
  {
  }

  lemma SumMod(j: int, c: int, w: Width)
    ensures (j + c % w) % w == (j + c) % w
  {
    assert c == (c / w) * w + c % w;
    ModShift(j + c % w, c / w, w);
  }

  lemma RotatedBelow(x: nat, k: nat, w: Width)
    requires x < Modulus(w) && k < w
    ensures 0 <= Rotated(x, k, w) < Modulus(w)
  {
    PowSplit(k, w);
    Parts(x, Pow2(k), Pow2(w - k), Modulus(w));
  }

  lemma ShiftInKept(bits: nat, v: Val, t: Option<IntTy>)
    requires bits < Modulus(ShiftIn(v, t).w)
    ensures ShiftIn(Val(ShiftIn(v, t).w, bits), t) == Val(ShiftIn(v, t).w, bits)
  {
  }
}

/** Integer expressions: the width and signedness an operator runs at
    (`promote_int_operands`), the type its result is reported with
    (`arith_result_type`, `rvalue_iec_type`), and the proof that reading the compiled
    bits with the reported signedness gives the mathematical value. */
module IntTyping {
  import opened MachineInts
  import opened MixedSign
  import Nonlinear
  import opened Wrappers

  datatype IntTy =
    | Byte | Word | Dword | Lword
    | Sint | Int | Dint | Lint
    | Usint | Uint | Udint | Ulint

  function BitSize(t: IntTy): Width {
    match t
    case Byte | Usint | Sint => 8
    case Word | Uint | Int => 16
    case Dword | Udint | Dint => 32
    case Lword | Ulint | Lint => 64
  }

  /** ANY_BIT and ANY_UNSIGNED widen by zero-extension. */
  predicate WidensUnsigned(t: IntTy) {
    !(t.Sint? || t.Int? || t.Dint? || t.Lint?)
  }

  predicate ReadsUnsigned(t: Option<IntTy>) { t.Some? && WidensUnsigned(t.value) }

  datatype Signedness = Signed | Unsigned | Adaptive

  function SignednessOf(t: Option<IntTy>): Signedness {
    match t
    case None => Adaptive
    case Some(ty) => if WidensUnsigned(ty) then Unsigned else Signed
  }

  /** The integer a pattern stands for, given the static type of its expression. */
  function Read(v: Val, t: Option<IntTy>): int {
    if ReadsUnsigned(t) then v.bits else AsSigned(v.bits, v.w)
  }

  /** What a node of width `w` reported as `t` can represent. */
  predicate InRange(v: int, t: Option<IntTy>, w: Width) {
    if ReadsUnsigned(t) then InUnsigned(v, w) else InSigned(v, w)
  }

  predicate InType(v: int, t: IntTy) { InRange(v, Some(t), BitSize(t)) }

  // ----- operand promotion -------------------------------------------------

  function PromoteMixed(unsignedW: Width, signedW: Width, commonW: Width): (Width, bool) {
    if unsignedW < signedW then (commonW, false)
    else if unsignedW >= 64 then (64, true)
    else (Max(commonW, if unsignedW <= 8 then 16 else if unsignedW <= 16 then 32 else 64), false)
  }

  /** The width an operator runs at, and whether it runs unsigned. */
  function PromoteIntOperands(lw: Width, ls: Signedness, rw: Width, rs: Signedness): (Width, bool) {
    var w := Max(lw, rw);
    match (ls, rs)
    case (Unsigned, Unsigned) => (w, true)
    case (Unsigned, Adaptive) => (w, true)
    case (Adaptive, Unsigned) => (w, true)
    case (Unsigned, Signed) => PromoteMixed(lw, rw, w)
    case (Signed, Unsigned) => PromoteMixed(rw, lw, w)
    case _ => (w, false)
  }

  function WidenTo(v: Val, s: Signedness, to: Width): (r: Val)
    ensures r.w == Max(v.w, to)
    ensures ValidVal(v) ==> ValidVal(r)
  {
    if v.w >= to then v
    else if s == Unsigned then Zext(v, to)
    else Sext(v, to)
  }

  function SignedOfWidth(w: Width): IntTy {
    if w <= 8 then Sint else if w <= 16 then Int else if w <= 32 then Dint else Lint
  }

  function ArithResultType(lt: IntTy, rt: IntTy): IntTy {
    var (lw, rw) := (BitSize(lt), BitSize(rt));
    var (ls, rs) := (SignednessOf(Some(lt)), SignednessOf(Some(rt)));
    var (w, unsigned) := PromoteIntOperands(lw, ls, rw, rs);
    if ls != rs && !unsigned then SignedOfWidth(w)
    else if rw > lw then rt else lt
  }

  // ----- expressions -------------------------------------------------------

  datatype ArithOp = Add | Sub | Mul | Div | Mod

  datatype CmpOp = Eq | Ne | Lt | Le | Gt | Ge

  datatype Expr =
    | Lit(v: int)
    | Typed(lty: IntTy, lv: int)
    | Var(name: string, vty: IntTy)
    | Paren(inner: Expr)
    | Neg(operand: Expr)
    | Bin(op: ArithOp, left: Expr, right: Expr)

  /** Variables hold bit patterns. */
  type Store = map<string, nat>

  function Load(st: Store, name: string, t: IntTy): Val {
    Val(BitSize(t), Wrap(if name in st then st[name] else 0, BitSize(t)))
  }

  function ResultType(lt: Option<IntTy>, rt: Option<IntTy>): Option<IntTy> {
    match (lt, rt)
    case (Some(l), Some(r)) => Some(ArithResultType(l, r))
    case (Some(l), None) => lt
    case (None, _) => rt
  }

  /** `rvalue_iec_type`. */
  function RvalueType(e: Expr): Option<IntTy> {
    match e
    case Lit(_) => None
    case Typed(t, _) => Some(t)
    case Var(_, t) => Some(t)
    case Paren(i) => RvalueType(i)
    case Neg(_) => None
    case Bin(_, l, r) => ResultType(RvalueType(l), RvalueType(r))
  }

  /** What running the code of an expression gives. */
  datatype Outcome = Computed(v: Val) | DivByZero | Rejected

  function IntLiteral(v: int): Outcome {
    if !(-0x8000_0000_0000_0000 <= v < 0x1_0000_0000_0000_0000) then Rejected
    else
      var w: Width := if InSigned(v, 16) then 16 else if InSigned(v, 32) then 32 else 64;
      Computed(Val(w, Wrap(v, w)))
  }

  function TruncDiv(a: int, b: int): int
    requires b != 0
  {
    if (a < 0) == (b < 0) then (if a < 0 then -a else a) / (if b < 0 then -b else b)
    else -((if a < 0 then -a else a) / (if b < 0 then -b else b))
  }

  function TruncRem(a: int, b: int): int
    requires b != 0
  {
    a - b * TruncDiv(a, b)
  }

  /** `checked_int_div`: a zero divisor faults, MIN / -1 divides by 1 instead. */
  function CheckedIntDiv(quotient: bool, l: nat, r: nat, w: Width, unsigned: bool): (q: Option<nat>)
    requires l < Modulus(w) && r < Modulus(w)
    ensures q.Some? ==> q.value < Modulus(w)
  {
    if r == 0 then None
    else if unsigned then NatDiv(l, r); Some(if quotient then l / r else l % r)
    else
      var overflow := l == Half(w) && r == Modulus(w) - 1;
      var a, b := AsSigned(l, w), if overflow then 1 else AsSigned(r, w);
      Some(Wrap(if quotient then TruncDiv(a, b) else TruncRem(a, b), w))
  }

  function Arith(op: ArithOp, l: nat, r: nat, w: Width, unsigned: bool): (o: Outcome)
    requires l < Modulus(w) && r < Modulus(w)
    ensures o.Computed? ==> ValidVal(o.v)
  {
    match op
    case Add => Computed(Val(w, Wrap(l + r, w)))
    case Sub => Computed(Val(w, Wrap(l - r, w)))
    case Mul => Computed(Val(w, Wrap(l * r, w)))
    case _ =>
      match CheckedIntDiv(op.Div?, l, r, w, unsigned)
      case None => DivByZero
      case Some(q) => Computed(Val(w, q))
  }

  /** `prepare_int_operands`, then the widening of narrow temporaries to 32 bits. */
  function ArithWidth(lw: Width, ls: Signedness, rw: Width, rs: Signedness): Width {
    Max(PromoteIntOperands(lw, ls, rw, rs).0, 32)
  }

  function Prepare(v: Val, s: Signedness, w: Width, unsigned: bool, to: Width): (r: Val)
    ensures v.w <= w <= to ==> r.w == to
    ensures ValidVal(v) ==> ValidVal(r)
  {
    WidenTo(WidenTo(v, s, w), if unsigned then Unsigned else Signed, to)
  }

  function CompileBin(op: ArithOp, l: Val, lt: Option<IntTy>, r: Val, rt: Option<IntTy>): (o: Outcome)
    requires ValidVal(l) && ValidVal(r)
    ensures o.Computed? ==> ValidVal(o.v)
  {
    var (ls, rs) := (SignednessOf(lt), SignednessOf(rt));
    var (w, unsigned) := PromoteIntOperands(l.w, ls, r.w, rs);
    var to := Max(w, 32);
    WidthsMatch(l.w, ls, r.w, rs);
    Arith(op, Prepare(l, ls, w, unsigned, to).bits, Prepare(r, rs, w, unsigned, to).bits, to, unsigned)
  }

  function Compile(e: Expr, st: Store): (o: Outcome)
    ensures o.Computed? ==> ValidVal(o.v)
  {
    match e
    case Lit(v) => IntLiteral(v)
    case Typed(t, v) => Computed(Val(BitSize(t), Wrap(v, BitSize(t))))
    case Var(n, t) => Computed(Load(st, n, t))
    case Paren(i) => Compile(i, st)
    case Neg(i) =>
      var o := Compile(i, st);
      if !o.Computed? then o
      else
        var v := if o.v.w < 32 then WidenTo(o.v, SignednessOf(RvalueType(i)), 32) else o.v;
        Computed(Val(v.w, Wrap(0 - v.bits, v.w)))
    case Bin(op, l, r) =>
      var (a, b) := (Compile(l, st), Compile(r, st));
      if !a.Computed? then a
      else if !b.Computed? then b
      else CompileBin(op, a.v, RvalueType(l), b.v, RvalueType(r))
  }

  // ----- the mathematical meaning ------------------------------------------

  function MathOp(op: ArithOp, a: int, b: int): Option<int> {
    match op
    case Add => Some(a + b)
    case Sub => Some(a - b)
    case Mul => Some(a * b)
    case Div => if b == 0 then None else Some(TruncDiv(a, b))
    case Mod => if b == 0 then None else Some(TruncRem(a, b))
  }

  /** The exact integer an expression denotes; None is a division by zero. */
  function Math(e: Expr, st: Store): Option<int> {
    match e
    case Lit(v) => Some(v)
    case Typed(_, v) => Some(v)
    case Var(n, t) => Some(Read(Load(st, n, t), Some(t)))
    case Paren(i) => Math(i, st)
    case Neg(i) => var m := Math(i, st); if m.None? then None else Some(-m.value)
    case Bin(op, l, r) =>
      var (a, b) := (Math(l, st), Math(r, st));
      if a.None? || b.None? then None else MathOp(op, a.value, b.value)
  }

  /** The LLVM width of a node. */
  function CodeWidth(e: Expr): Width {
    match e
    case Lit(v) => if InSigned(v, 16) then 16 else if InSigned(v, 32) then 32 else 64
    case Typed(t, _) => BitSize(t)
    case Var(_, t) => BitSize(t)
    case Paren(i) => CodeWidth(i)
    case Neg(i) => Max(CodeWidth(i), 32)
    case Bin(_, l, r) =>
      ArithWidth(CodeWidth(l), SignednessOf(RvalueType(l)), CodeWidth(r), SignednessOf(RvalueType(r)))
  }

  /** What an operator sees of an operand's value: where it runs unsigned, a negative one is its two's
      complement. */
  function Seen(v: int, w: Width, unsigned: bool): int { if unsigned && v < 0 then v + Modulus(w) else v }

  /** The condition on which an operator that runs unsigned at width w is right about a negative operand
      (the other one is then of an unsigned type): always for + - * unless the promoted width is below
      the 32 bits the result is computed at; hardly ever for / and MOD. */
  predicate OperatorRight(op: ArithOp, a: int, b: int, w: Width, unsigned: bool) {
    if !unsigned || (a >= 0 && b >= 0) then true
    else
      match op
      case Add => w >= 32
      case Sub => w >= 32
      case Mul => w >= 32 || a == 0 || b == 0
      case Div => b == 0 || (if a < 0 then b - a > Modulus(w) || (b == 1 && w >= 32) else a + b < 0)
      case Mod =>
        || b == 0
        || (if a < 0 then (w >= 32 && b - a > Modulus(w)) || (-a % b == 0 && Modulus(w) % b == 0)
            else a + b < 0 || (a - b >= Modulus(w) && Modulus(w) % -b == 0))
  }

  /** The same for a comparison: the operands must be a whole modulus apart, or, for = and <>, not
      exactly that. */
  predicate ComparisonRight(op: CmpOp, a: int, b: int, w: Width, unsigned: bool) {
    if !unsigned || (a >= 0 && b >= 0) then true
    else
      var gap := if a < 0 then b - a else a - b;
      match op
      case Eq | Ne => gap != Modulus(w)
      case Lt | Ge => if a < 0 then gap > Modulus(w) else gap >= Modulus(w)
      case Le | Gt => if a < 0 then gap >= Modulus(w) else gap > Modulus(w)
  }

  /** Where a binary operator on two nodes runs. */
  function Promoted(l: Expr, r: Expr): (Width, bool) {
    PromoteIntOperands(CodeWidth(l), SignednessOf(RvalueType(l)), CodeWidth(r), SignednessOf(RvalueType(r)))
  }

  /** Every intermediate result fits its node, and every operator is right about its operands. */
  predicate Exact(e: Expr, st: Store) {
    && (Math(e, st).Some? ==> InRange(Math(e, st).value, RvalueType(e), CodeWidth(e)))
    && match e
       case Paren(i) => Exact(i, st)
       case Neg(i) => Exact(i, st)
       case Bin(op, l, r) =>
         && Exact(l, st) && Exact(r, st)
         && (Math(l, st).Some? && Math(r, st).Some? ==>
               OperatorRight(op, Math(l, st).value, Math(r, st).value, Promoted(l, r).0, Promoted(l, r).1))
       case _ => true
  }

  // ----- proofs ------------------------------------------------------------

  /** Both operands come out of the promotion at the same width. */
  lemma WidthsMatch(lw: Width, ls: Signedness, rw: Width, rs: Signedness)
    ensures PromoteIntOperands(lw, ls, rw, rs).0 >= Max(lw, rw)
  {
  }

  lemma PromoteMonotone(lt: IntTy, lw: Width, rt: IntTy, rw: Width)
    requires BitSize(lt) <= lw && BitSize(rt) <= rw
    ensures BitSize(ArithResultType(lt, rt)) <=
            PromoteIntOperands(lw, SignednessOf(Some(lt)), rw, SignednessOf(Some(rt))).0
  {
    var (ls, rs) := (SignednessOf(Some(lt)), SignednessOf(Some(rt)));
    PromoteWidthMonotone(BitSize(lt), lw, ls, BitSize(rt), rw, rs);
    WidthsMatch(lw, ls, rw, rs);
  }

  lemma PromoteWidthMonotone(lw: Width, lw': Width, ls: Signedness, rw: Width, rw': Width, rs: Signedness)
    requires lw <= lw' && rw <= rw'
    ensures PromoteIntOperands(lw, ls, rw, rs).0 <= PromoteIntOperands(lw', ls, rw', rs).0
  {
  }

  /** A node's LLVM width is never below the size of the type it is reported as. */
  lemma {:induction false} WidthCovers(e: Expr)
    ensures RvalueType(e).Some? ==> BitSize(RvalueType(e).value) <= CodeWidth(e)
  {
    match e
    case Paren(i) => WidthCovers(i);
    case Bin(_, l, r) =>
      WidthCovers(l);
      WidthCovers(r);
      var (lt, rt) := (RvalueType(l), RvalueType(r));
      WidthsMatch(CodeWidth(l), SignednessOf(lt), CodeWidth(r), SignednessOf(rt));
      if lt.Some? && rt.Some? { PromoteMonotone(lt.value, CodeWidth(l), rt.value, CodeWidth(r)); }
    case _ =>
  }

  /** A signed operand meets an unsigned one that fills 64 bits. */
  predicate MixedWide(ls: Signedness, lw: Width, rs: Signedness, rw: Width) {
    (ls == Signed && rs == Unsigned && rw == 64) || (ls == Unsigned && rs == Signed && lw == 64)
  }

  /** The operator and the reported type agree on signedness, although the one is computed from LLVM
      widths and the other from IEC sizes; except that a mixed operation at 64 bits runs unsigned and is
      reported signed, unless the unsigned type is itself 64 bits and wider than the signed one or on
      the left. */
  lemma SignednessAgrees(lt: Option<IntTy>, lw: Width, rt: Option<IntTy>, rw: Width)
    requires lt.Some? ==> BitSize(lt.value) <= lw
    requires rt.Some? ==> BitSize(rt.value) <= rw
    ensures var (ls, rs) := (SignednessOf(lt), SignednessOf(rt));
            ReadsUnsigned(ResultType(lt, rt)) == PromoteIntOperands(lw, ls, rw, rs).1
            <==> (MixedWide(ls, lw, rs, rw) ==>
                    if ls == Unsigned then BitSize(lt.value) == 64
                    else BitSize(rt.value) == 64 && BitSize(lt.value) < 64)
  {
  }

  /** The value a pattern stands for survives widening by its own signedness. */
  lemma WidenKeepsValue(v: Val, t: Option<IntTy>, to: Width)
    requires ValidVal(v)
    ensures ValidVal(WidenTo(v, SignednessOf(t), to))
    ensures Read(WidenTo(v, SignednessOf(t), to), t) == Read(v, t)
  {
    hide Modulus, Wrap;
    if v.w < to && !ReadsUnsigned(t) {
      AsSignedWrap(v.bits, v.w);
      WrapSigned(AsSigned(v.bits, v.w), to);
    }
  }

  function OpReading(v: Val, unsigned: bool): int {
    if unsigned then v.bits else AsSigned(v.bits, v.w)
  }

  lemma NarrowIsSmall(v: Val, w: Width)
    requires ValidVal(v) && v.w < w
    ensures v.bits < Half(w) && AsSigned(v.bits, w) == v.bits
  {
  }

  /** After promotion, the pattern read the operator's way is what the operator sees of the value. */
  lemma PromotedValue(v: Val, t: Option<IntTy>, w: Width, unsigned: bool)
    requires ValidVal(v) && v.w <= w
    requires !unsigned && ReadsUnsigned(t) ==> v.w < w
    ensures var p := WidenTo(v, SignednessOf(t), w);
            p.w == w && ValidVal(p) && OpReading(p, unsigned) == Seen(Read(v, t), w, unsigned)
  {
    hide Modulus, Wrap;
    WidenKeepsValue(v, t, w);
    if !unsigned && ReadsUnsigned(t) { NarrowIsSmall(v, w); }
  }

  lemma PreparedValue(v: Val, t: Option<IntTy>, w: Width, unsigned: bool, to: Width)
    requires ValidVal(v) && v.w <= w <= to
    requires !unsigned && ReadsUnsigned(t) ==> v.w < w
    ensures var p := Prepare(v, SignednessOf(t), w, unsigned, to);
            p.w == to && ValidVal(p) && OpReading(p, unsigned) == Seen(Read(v, t), w, unsigned)
  {
    hide Modulus, Wrap, Seen;
    PromotedValue(v, t, w, unsigned);
    var p := WidenTo(v, SignednessOf(t), w);
    WidenKeepsValue(p, if unsigned then Some(Ulint) else Some(Lint), to);
  }

  /** What promotion promises: room for both operands, a bit more for an unsigned one in a signed
      operation; and it runs unsigned only if one operand is. */
  lemma PromotionFits(lt: Option<IntTy>, lw: Width, rt: Option<IntTy>, rw: Width)
    ensures var (w, unsigned) := PromoteIntOperands(lw, SignednessOf(lt), rw, SignednessOf(rt));
            && lw <= w && rw <= w
            && (!unsigned && ReadsUnsigned(lt) ==> lw < w)
            && (!unsigned && ReadsUnsigned(rt) ==> rw < w)
            && (unsigned ==> ReadsUnsigned(lt) || ReadsUnsigned(rt))
  {
  }

  /** What a pattern of width w can stand for, read either way. */
  predicate InSpan(v: int, w: Width) { 0 <= v + Half(w) && v < Modulus(w) }

  lemma ReadBounds(v: Val, t: Option<IntTy>, w: Width)
    requires ValidVal(v) && v.w <= w
    ensures InSpan(Read(v, t), w) && (ReadsUnsigned(t) ==> 0 <= Read(v, t))
  {
  }

  function Abs(a: int): nat { if a < 0 then -a else a }

  lemma NatDiv(x: nat, y: nat)
    requires y > 0
    ensures 0 <= x / y <= x && y * (x / y) <= x < y * (x / y) + y
  {
    MulGrows(y - 1, x / y);
    assert y * (x / y) == x / y + (y - 1) * (x / y);
  }

  lemma MulGrows(a: nat, b: nat)
    ensures a * b >= 0
  {
  }

  lemma Negations(y: int, q: int)
    ensures y * -q == -(y * q) && -y * q == -(y * q) && -y * -q == y * q
  {
  }

  lemma TruncDivBounds(a: int, b: int)
    requires b != 0
    ensures 0 <= TruncDiv(a, b) + Abs(a) <= 2 * Abs(a)
    ensures Abs(TruncRem(a, b)) < Abs(b)
    ensures 0 <= a ==> 0 <= TruncRem(a, b) <= a
    ensures a <= 0 ==> a <= TruncRem(a, b) <= 0
  {
    var x: nat, y: nat := Abs(a), Abs(b);
    NatDiv(x, y);
    var q: nat := x / y;
    Negations(y, q);
    Negations(b, q);
    assert b * TruncDiv(a, b) == if a < 0 then -(y * q) else y * q;
  }

  predicate OpFits(m: int, w: Width, unsigned: bool) {
    if unsigned then InUnsigned(m, w) else InSigned(m, w)
  }

  /** What an operator promises at width w: the exact result if it fits, a fault if there is none. */
  predicate OpCorrect(o: Outcome, m: Option<int>, w: Width, unsigned: bool) {
    match m
    case None => o == DivByZero
    case Some(x) =>
      && o.Computed? && o.v.w == w && ValidVal(o.v)
      && (OpFits(x, w, unsigned) ==> OpReading(o.v, unsigned) == x)
  }

  lemma Represent(m: int, w: Width)
    ensures InUnsigned(m, w) ==> Wrap(m, w) == m
    ensures InSigned(m, w) ==> AsSigned(Wrap(m, w), w) == m
  {
    hide Modulus, Wrap;
    if InUnsigned(m, w) { WrapUnsigned(m, w); }
    if InSigned(m, w) { WrapSigned(m, w); }
  }

  lemma ReadingWraps(v: Val, unsigned: bool)
    requires ValidVal(v)
    ensures Wrap(OpReading(v, unsigned), v.w) == v.bits
  {
    hide Modulus, Wrap;
    AsSignedWrap(v.bits, v.w);
    WrapUnsigned(v.bits, v.w);
  }

  lemma DivUnsigned(quotient: bool, l: Val, r: Val)
    requires ValidVal(l) && ValidVal(r) && l.w == r.w && r.bits != 0
    ensures CheckedIntDiv(quotient, l.bits, r.bits, l.w, true) ==
            Some(if quotient then TruncDiv(l.bits, r.bits) else TruncRem(l.bits, r.bits))
  {
    assert TruncDiv(l.bits, r.bits) == l.bits / r.bits;
    assert l.bits == r.bits * (l.bits / r.bits) + l.bits % r.bits;
  }

  /** The bits are always those of the operator's result on what it sees. */
  lemma ArithBits(op: ArithOp, l: Val, r: Val, unsigned: bool)
    requires ValidVal(l) && ValidVal(r) && l.w == r.w
    ensures var o := Arith(op, l.bits, r.bits, l.w, unsigned);
            var m := MathOp(op, OpReading(l, unsigned), OpReading(r, unsigned));
            o == if m.None? then DivByZero else Computed(Val(l.w, Wrap(m.value, l.w)))
  {
    hide Modulus, Wrap;
    var w := l.w;
    var a, b := OpReading(l, unsigned), OpReading(r, unsigned);
    ReadingWraps(l, unsigned);
    ReadingWraps(r, unsigned);
    match op
    case Add => WrapAdd(a, b, w);
    case Sub => WrapSub(a, b, w);
    case Mul => WrapMul(a, b, w);
    case _ => if r.bits != 0 { DivBits(op.Div?, l, r, unsigned); }
  }

  lemma DivBits(quotient: bool, l: Val, r: Val, unsigned: bool)
    requires ValidVal(l) && ValidVal(r) && l.w == r.w && r.bits != 0
    ensures var (a, b) := (OpReading(l, unsigned), OpReading(r, unsigned));
            && b != 0
            && CheckedIntDiv(quotient, l.bits, r.bits, l.w, unsigned)
               == Some(Wrap(if quotient then TruncDiv(a, b) else TruncRem(a, b), l.w))
  {
    hide Modulus, Wrap;
    if unsigned {
      DivUnsigned(quotient, l, r);
      var q := if quotient then l.bits / r.bits else l.bits % r.bits;
      NatDiv(l.bits, r.bits);
      WrapUnsigned(q, l.w);
    } else {
      var a, b := AsSigned(l.bits, l.w), AsSigned(r.bits, r.w);
      if l.bits == Half(l.w) && r.bits == Modulus(r.w) - 1 {
        assert b == -1 && a + Half(l.w) == 0;
        assert TruncDiv(a, -1) == -a && TruncRem(a, -1) == 0;
        assert TruncDiv(a, 1) == a && TruncRem(a, 1) == 0;
        WrapCongruent(a, 1, l.w);
      }
    }
  }

  /** So one operator is exact whenever its result fits. */
  lemma ArithExact(op: ArithOp, l: Val, r: Val, unsigned: bool)
    requires ValidVal(l) && ValidVal(r) && l.w == r.w
    ensures OpCorrect(Arith(op, l.bits, r.bits, l.w, unsigned),
                      MathOp(op, OpReading(l, unsigned), OpReading(r, unsigned)), l.w, unsigned)
  {
    ArithBits(op, l, r, unsigned);
    var m := MathOp(op, OpReading(l, unsigned), OpReading(r, unsigned));
    if m.Some? { Represent(m.value, l.w); }
    hide Modulus, Wrap, Arith, MathOp;
  }

  lemma BinBits(op: ArithOp, l: Val, lt: Option<IntTy>, r: Val, rt: Option<IntTy>)
    requires ValidVal(l) && ValidVal(r)
    ensures var (w, unsigned) := PromoteIntOperands(l.w, SignednessOf(lt), r.w, SignednessOf(rt));
            var m := MathOp(op, Seen(Read(l, lt), w, unsigned), Seen(Read(r, rt), w, unsigned));
            CompileBin(op, l, lt, r, rt)
            == if m.None? then DivByZero else Computed(Val(Max(w, 32), Wrap(m.value, Max(w, 32))))
  {
    hide Modulus, Wrap, PromoteIntOperands, Read, Seen, OpReading, Arith, MathOp;
    var (ls, rs) := (SignednessOf(lt), SignednessOf(rt));
    var (w, unsigned) := PromoteIntOperands(l.w, ls, r.w, rs);
    var to := Max(w, 32);
    PromotionFits(lt, l.w, rt, r.w);
    PreparedValue(l, lt, w, unsigned, to);
    PreparedValue(r, rt, w, unsigned, to);
    ArithBits(op, Prepare(l, ls, w, unsigned, to), Prepare(r, rs, w, unsigned, to), unsigned);
  }

  /** A pattern reads as a value that its type can hold exactly when it is the value's pattern. */
  lemma ReadsAs(x: int, bits: nat, t: Option<IntTy>, w: Width)
    requires InRange(x, t, w) && bits < Modulus(w)
    ensures Read(Val(w, bits), t) == x <==> bits == Wrap(x, w)
  {
    hide Modulus, Wrap;
    Represent(x, w);
    AsSignedWrap(bits, w);
  }

  // ----- a negative operand of an unsigned operation -----------------------

  lemma SamePattern(p: int, q: int, w: Width)
    ensures Wrap(p, w) == Wrap(q, w) <==> (p - q) % Modulus(w) == 0
  {
    var (m, i, j) := (Modulus(w), Laps(p, w), Laps(q, w));
    hide Modulus, Wrap;
    if Wrap(p, w) == Wrap(q, w) {
      assert p - q == (i - j) * m + 0;
      Nonlinear.Euclid(p - q, m, i - j, 0);
    }
    if (p - q) % m == 0 {
      var k := (p - q) / m;
      assert p == q + k * m;
      WrapCongruent(q, k, w);
    }
  }

  /** Multiples of 2^to among small numbers. */
  lemma Multiples(s: int, w: Width, to: Width)
    requires to == Max(w, 32) && 0 <= s
    ensures s <= Modulus(w) ==> (s % Modulus(to) == 0 <==> s == 0 || (s == Modulus(w) && w >= 32))
    ensures s < 2 * Modulus(w) ==> (s % Modulus(to) == 0 <==> s == 0 || (s == Modulus(w) && w >= 32))
  {
    if s < Modulus(to) { Nonlinear.Euclid(s, Modulus(to), 0, s); }
    else if s < 2 * Modulus(to) { Nonlinear.Euclid(s, Modulus(to), 1, s - Modulus(to)); }
  }

  predicate OneNegative(a: int, b: int, w: Width) {
    && InSpan(a, w) && InSpan(b, w)
    && ((a < 0 && b >= 0) || (a >= 0 && b < 0))
  }

  lemma SumSeen(op: ArithOp, a: int, b: int, w: Width, to: Width)
    requires OneNegative(a, b, w) && to == Max(w, 32) && (op.Add? || op.Sub?)
    ensures Wrap(MathOp(op, Seen(a, w, true), Seen(b, w, true)).value, to) == Wrap(MathOp(op, a, b).value, to)
            <==> OperatorRight(op, a, b, w, true)
  {
    hide Wrap;
    var (p, q) := (MathOp(op, Seen(a, w, true), Seen(b, w, true)).value, MathOp(op, a, b).value);
    SamePattern(p, q, to);
    SamePattern(q, p, to);
    Multiples(Modulus(w), w, to);
  }

  lemma ProductSeen(a: int, b: int, w: Width, to: Width)
    requires OneNegative(a, b, w) && to == Max(w, 32)
    ensures Wrap(Seen(a, w, true) * Seen(b, w, true), to) == Wrap(a * b, to) <==> OperatorRight(Mul, a, b, w, true)
  {
    hide Wrap;
    var (m, k) := (Modulus(w), if a < 0 then b else a);
    assert Seen(a, w, true) * Seen(b, w, true) - a * b == k * m by {
      if a < 0 { assert (a + m) * b == a * b + b * m; } else { assert a * (b + m) == a * b + a * m; }
    }
    SamePattern(Seen(a, w, true) * Seen(b, w, true), a * b, to);
    if w >= 32 {
      assert to == w;
      hide Modulus;
      Nonlinear.Euclid(k * m, m, k, 0);
    } else {
      SmallProduct(k, w);
    }
  }

  lemma SmallProduct(k: nat, w: Width)
    requires k < Modulus(w) && w < 32
    ensures k * Modulus(w) % Modulus(32) == 0 <==> k == 0
  {
  }

  lemma QuotientSeen(a: int, b: int, w: Width, to: Width)
    requires OneNegative(a, b, w) && b != 0 && to == Max(w, 32)
    requires InSigned(TruncDiv(a, b), to) || InUnsigned(TruncDiv(a, b), to)
    ensures Wrap(TruncDiv(Seen(a, w, true), Seen(b, w, true)), to) == Wrap(TruncDiv(a, b), to)
            <==> OperatorRight(Div, a, b, w, true)
  {
    var m := Modulus(w);
    SamePattern(TruncDiv(Seen(a, w, true), Seen(b, w, true)), TruncDiv(a, b), to);
    if a < 0 {
      NegativeDividend(-a, b, m);
      var s := (m + a) / b + -a / b;
      assert TruncDiv(a, b) == -(-a / b) && TruncDiv(a + m, b) == (m + a) / b;
      Multiples(s, w, to);
    } else {
      NegativeDivisor(a, -b, m);
      var s := a / (m + b) + a / -b;
      assert TruncDiv(a, b) == -(a / -b) && TruncDiv(a, b + m) == a / (m + b);
      Multiples(s, w, to);
    }
    hide Wrap;
  }

  lemma RestSeen(a: int, b: int, w: Width, to: Width)
    requires OneNegative(a, b, w) && b != 0 && to == Max(w, 32)
    ensures Wrap(TruncRem(Seen(a, w, true), Seen(b, w, true)), to) == Wrap(TruncRem(a, b), to)
            <==> OperatorRight(Mod, a, b, w, true)
  {
    var m := Modulus(w);
    if a < 0 {
      SamePattern(TruncRem(Seen(a, w, true), Seen(b, w, true)), TruncRem(a, b), to);
      NegativeDividendRest(-a, b, m);
      var s := (m + a) % b + -a % b;
      RestOfTrunc(a, b);
      RestOfTrunc(a + m, b);
      Multiples(s, w, to);
    } else {
      NegativeDivisorRest(a, -b, m);
      RestOfTrunc(a, b);
      RestOfTrunc(a, b + m);
      SmallRests(a, -b, m, to);
    }
    hide Wrap;
  }

  lemma RestOfTrunc(a: int, b: int)
    requires b != 0
    ensures TruncRem(a, b) == if a < 0 then -(-a % Abs(b)) else a % Abs(b)
  {
    var x: nat, y: nat := Abs(a), Abs(b);
    var q := x / y;
    assert x == y * q + x % y;
    Negations(y, q);
    Negations(b, q);
    assert b * TruncDiv(a, b) == if a < 0 then -(y * q) else y * q;
  }

  lemma SmallRests(a: nat, y: nat, m: nat, to: Width)
    requires 1 <= y < m && a < m <= Modulus(to)
    ensures Wrap(a % (m - y), to) == Wrap(a % y, to) <==> a % (m - y) == a % y
  {
    hide Modulus, Wrap;
    RestAtMost(a, y);
    RestAtMost(a, m - y);
    WrapUnsigned(a % y, to);
    WrapUnsigned(a % (m - y), to);
  }

  /** What the operator computes from what it sees is the right pattern exactly on OperatorRight. */
  lemma SeenRight(op: ArithOp, a: int, b: int, w: Width, unsigned: bool, to: Width)
    requires to == Max(w, 32) && InSpan(a, w) && InSpan(b, w)
    requires unsigned ==> a >= 0 || b >= 0
    requires var m := MathOp(op, a, b); m.Some? ==> InSigned(m.value, to) || InUnsigned(m.value, to)
    ensures var (m, n) := (MathOp(op, a, b), MathOp(op, Seen(a, w, unsigned), Seen(b, w, unsigned)));
            && (m.None? <==> n.None?)
            && (m.Some? ==> (Wrap(n.value, to) == Wrap(m.value, to) <==> OperatorRight(op, a, b, w, unsigned)))
            && (m.None? ==> OperatorRight(op, a, b, w, unsigned))
  {
    hide Modulus, Wrap, TruncDiv, TruncRem;
    if unsigned && (a < 0 || b < 0) {
      match op
      case Add => SumSeen(op, a, b, w, to);
      case Sub => SumSeen(op, a, b, w, to);
      case Mul => ProductSeen(a, b, w, to);
      case Div => if b != 0 { QuotientSeen(a, b, w, to); }
      case Mod => if b != 0 { RestSeen(a, b, w, to); }
    }
  }

  /** Main result, one operator: when the result fits, it is computed exactly on OperatorRight. */
  lemma OperatorExact(op: ArithOp, l: Val, lt: Option<IntTy>, r: Val, rt: Option<IntTy>)
    requires ValidVal(l) && ValidVal(r)
    ensures var (w, unsigned) := PromoteIntOperands(l.w, SignednessOf(lt), r.w, SignednessOf(rt));
            var (m, o, t) := (MathOp(op, Read(l, lt), Read(r, rt)), CompileBin(op, l, lt, r, rt), ResultType(lt, rt));
            && (m.None? <==> o == DivByZero) && (m.Some? ==> o.Computed? && o.v.w == Max(w, 32))
            && (m.Some? && InRange(m.value, t, Max(w, 32)) ==>
                  (Read(o.v, t) == m.value <==> OperatorRight(op, Read(l, lt), Read(r, rt), w, unsigned)))
  {
    var (w, unsigned) := PromoteIntOperands(l.w, SignednessOf(lt), r.w, SignednessOf(rt));
    var (a, b, to, t) := (Read(l, lt), Read(r, rt), Max(w, 32), ResultType(lt, rt));
    PromotionFits(lt, l.w, rt, r.w);
    ReadBounds(l, lt, w);
    ReadBounds(r, rt, w);
    BinBits(op, l, lt, r, rt);
    var m := MathOp(op, a, b);
    SeenNone(op, a, b, w, unsigned);
    hide Modulus, Wrap, PromoteIntOperands, CompileBin, MathOp, ResultType, Read, OperatorRight, Seen;
    if m.Some? && InRange(m.value, t, to) {
      SeenRight(op, a, b, w, unsigned, to);
      ReadsAs(m.value, Wrap(MathOp(op, Seen(a, w, unsigned), Seen(b, w, unsigned)).value, to), t, to);
    }
  }

  lemma SeenNone(op: ArithOp, a: int, b: int, w: Width, unsigned: bool)
    requires InSpan(b, w)
    ensures MathOp(op, a, b).None? <==> MathOp(op, Seen(a, w, unsigned), Seen(b, w, unsigned)).None?
  {
    hide TruncDiv, TruncRem;
  }

  lemma NegExact(v: Val, t: Option<IntTy>)
    requires ValidVal(v)
    ensures var n := if v.w < 32 then WidenTo(v, SignednessOf(t), 32) else v;
            && ValidVal(n) && n.w == Max(v.w, 32)
            && (InSigned(-Read(v, t), n.w) ==> AsSigned(Wrap(0 - n.bits, n.w), n.w) == -Read(v, t))
  {
    hide Modulus, Wrap;
    WidenKeepsValue(v, t, 32);
    var n := if v.w < 32 then WidenTo(v, SignednessOf(t), 32) else v;
    var x := Read(v, t);
    AsSignedWrap(n.bits, n.w);
    WrapUnsigned(n.bits, n.w);
    assert Wrap(x, n.w) == n.bits;
    WrapSub(0, x, n.w);
    WrapUnsigned(0, n.w);
    Represent(-x, n.w);
  }

  /** What a node promises: a fault where there is no value, else, at its width, bits that read
      with its reported type are the value whenever that fits. */
  predicate NodeCorrect(o: Outcome, m: Option<int>, t: Option<IntTy>, w: Width) {
    match m
    case None => o == DivByZero
    case Some(x) => o.Computed? && o.v.w == w && (InRange(x, t, w) ==> Read(o.v, t) == x)
  }

  lemma BinNode(op: ArithOp, l: Val, lt: Option<IntTy>, r: Val, rt: Option<IntTy>)
    requires ValidVal(l) && ValidVal(r)
    requires var (w, unsigned) := PromoteIntOperands(l.w, SignednessOf(lt), r.w, SignednessOf(rt));
             OperatorRight(op, Read(l, lt), Read(r, rt), w, unsigned)
    ensures NodeCorrect(CompileBin(op, l, lt, r, rt), MathOp(op, Read(l, lt), Read(r, rt)),
                        ResultType(lt, rt), ArithWidth(l.w, SignednessOf(lt), r.w, SignednessOf(rt)))
  {
    OperatorExact(op, l, lt, r, rt);
    hide Modulus, Wrap, PromoteIntOperands, CompileBin, MathOp, ResultType, OperatorRight;
  }

  lemma LitNode(v: int)
    ensures InRange(v, None, CodeWidth(Lit(v))) ==>
              NodeCorrect(IntLiteral(v), Some(v), None, CodeWidth(Lit(v)))
  {
    if InSigned(v, CodeWidth(Lit(v))) { WrapSigned(v, CodeWidth(Lit(v))); }
    hide Wrap;
  }

  /** Main result: for every expression whose intermediate results fit, the code faults
      exactly on a division by zero, and otherwise computes, at the node's width, bits
      that read with the reported type are the mathematical value. */
  lemma {:induction false} ExpressionExact(e: Expr, st: Store)
    requires Exact(e, st)
    ensures NodeCorrect(Compile(e, st), Math(e, st), RvalueType(e), CodeWidth(e))
    ensures Math(e, st).Some? ==> Compile(e, st).Computed? && Read(Compile(e, st).v, RvalueType(e)) == Math(e, st).value
  {
    hide Modulus, Wrap, PromoteIntOperands, CompileBin, MathOp, ResultType, OperatorRight, WidenTo,
         AsSigned, IntLiteral;
    match e
    case Lit(v) => LitNode(v);
    case Typed(t, v) => Represent(v, BitSize(t));
    case Var(_, _) =>
    case Paren(i) => ExpressionExact(i, st);
    case Neg(i) =>
      ExpressionExact(i, st);
      if Math(i, st).Some? { NegExact(Compile(i, st).v, RvalueType(i)); }
    case Bin(op, l, r) =>
      ExpressionExact(l, st);
      ExpressionExact(r, st);
      WidthCovers(l);
      WidthCovers(r);
      if Math(l, st).Some? && Math(r, st).Some? {
        BinNode(op, Compile(l, st).v, RvalueType(l), Compile(r, st).v, RvalueType(r));
      }
  }

  // ----- comparisons -------------------------------------------------------

  predicate Holds(op: CmpOp, a: int, b: int) {
    match op
    case Eq => a == b
    case Ne => a != b
    case Lt => a < b
    case Le => a <= b
    case Gt => a > b
    case Ge => a >= b
  }

  /** An `icmp` at the promoted width: EQ/NE on the bits, U- or S-predicates otherwise. */
  predicate CompileCmp(op: CmpOp, l: Val, lt: Option<IntTy>, r: Val, rt: Option<IntTy>) {
    var (ls, rs) := (SignednessOf(lt), SignednessOf(rt));
    var (w, unsigned) := PromoteIntOperands(l.w, ls, r.w, rs);
    var (a, b) := (WidenTo(l, ls, w), WidenTo(r, rs, w));
    if op.Eq? || op.Ne? then Holds(op, a.bits, b.bits)
    else Holds(op, OpReading(a, unsigned), OpReading(b, unsigned))
  }

  lemma ReadingInjective(a: Val, b: Val, unsigned: bool)
    requires ValidVal(a) && ValidVal(b) && a.w == b.w
    ensures OpReading(a, unsigned) == OpReading(b, unsigned) <==> a.bits == b.bits
  {
    ReadingWraps(a, unsigned);
    ReadingWraps(b, unsigned);
    hide Modulus, Wrap;
  }

  /** A comparison compares the operands as it takes them. */
  lemma ComparesSeen(op: CmpOp, l: Val, lt: Option<IntTy>, r: Val, rt: Option<IntTy>)
    requires ValidVal(l) && ValidVal(r)
    ensures var (w, unsigned) := PromoteIntOperands(l.w, SignednessOf(lt), r.w, SignednessOf(rt));
            CompileCmp(op, l, lt, r, rt) == Holds(op, Seen(Read(l, lt), w, unsigned), Seen(Read(r, rt), w, unsigned))
  {
    hide Modulus, Wrap, PromoteIntOperands, WidenTo, Read, OpReading, Seen, Holds;
    var (w, unsigned) := PromoteIntOperands(l.w, SignednessOf(lt), r.w, SignednessOf(rt));
    PromotionFits(lt, l.w, rt, r.w);
    PromotedValue(l, lt, w, unsigned);
    PromotedValue(r, rt, w, unsigned);
    var (p, q) := (WidenTo(l, SignednessOf(lt), w), WidenTo(r, SignednessOf(rt), w));
    ReadingInjective(p, q, unsigned);
    SeenEqual(op, p.bits, q.bits, OpReading(p, unsigned), OpReading(q, unsigned));
  }

  /** Main result: a comparison of operands of any types and widths is mathematically right exactly on
      ComparisonRight. */
  lemma ComparisonExact(op: CmpOp, l: Val, lt: Option<IntTy>, r: Val, rt: Option<IntTy>)
    requires ValidVal(l) && ValidVal(r)
    ensures var (w, unsigned) := PromoteIntOperands(l.w, SignednessOf(lt), r.w, SignednessOf(rt));
            CompileCmp(op, l, lt, r, rt) == Holds(op, Read(l, lt), Read(r, rt))
            <==> ComparisonRight(op, Read(l, lt), Read(r, rt), w, unsigned)
  {
    hide Modulus, Wrap, PromoteIntOperands, Read, Seen, InSpan, ComparisonRight, Holds, CompileCmp;
    var (w, unsigned) := PromoteIntOperands(l.w, SignednessOf(lt), r.w, SignednessOf(rt));
    PromotionFits(lt, l.w, rt, r.w);
    ReadBounds(l, lt, w);
    ReadBounds(r, rt, w);
    ComparesSeen(op, l, lt, r, rt);
    SeenCompares(op, Read(l, lt), Read(r, rt), w, unsigned);
  }

  lemma SeenEqual(op: CmpOp, p: int, q: int, a: int, b: int)
    requires p == q <==> a == b
    ensures op.Eq? || op.Ne? ==> Holds(op, p, q) == Holds(op, a, b)
  {
  }

  lemma SeenCompares(op: CmpOp, a: int, b: int, w: Width, unsigned: bool)
    requires InSpan(a, w) && InSpan(b, w) && (unsigned ==> a >= 0 || b >= 0)
    ensures Holds(op, Seen(a, w, unsigned), Seen(b, w, unsigned)) == Holds(op, a, b)
            <==> ComparisonRight(op, a, b, w, unsigned)
  {
  }

  /** Operands that are not negative, and all operands of a signed comparison, are compared rightly. */
  lemma ComparesRight(op: CmpOp, l: Val, lt: Option<IntTy>, r: Val, rt: Option<IntTy>)
    requires ValidVal(l) && ValidVal(r)
    requires PromoteIntOperands(l.w, SignednessOf(lt), r.w, SignednessOf(rt)).1 ==> Read(l, lt) >= 0 && Read(r, rt) >= 0
    ensures CompileCmp(op, l, lt, r, rt) == Holds(op, Read(l, lt), Read(r, rt))
  {
    hide Modulus, Wrap, PromoteIntOperands, Read, CompileCmp;
    ComparisonExact(op, l, lt, r, rt);
  }

  /** The test of two computed operands answers rightly exactly where the comparison does. */
  predicate Tests(op: CmpOp, l: Expr, r: Expr, a: Val, b: Val, m: int, n: int) {
    CompileCmp(op, a, RvalueType(l), b, RvalueType(r)) == Holds(op, m, n)
    <==> ComparisonRight(op, m, n, Promoted(l, r).0, Promoted(l, r).1)
  }

  /** The test of two expressions whose values are exact. */
  lemma ConditionExact(op: CmpOp, l: Expr, r: Expr, st: Store)
    requires Exact(l, st) && Exact(r, st) && Math(l, st).Some? && Math(r, st).Some?
    ensures var (a, b) := (Compile(l, st), Compile(r, st));
            && a.Computed? && b.Computed?
            && Tests(op, l, r, a.v, b.v, Math(l, st).value, Math(r, st).value)
  {
    hide Modulus, Wrap, PromoteIntOperands, Exact, Compile, Math, CompileCmp, ComparisonRight;
    ExpressionExact(l, st);
    ExpressionExact(r, st);
    ComparisonExact(op, Compile(l, st).v, RvalueType(l), Compile(r, st).v, RvalueType(r));
  }

  /** The comparison with an unsigned value is right in either order. */
  predicate BothOrders(op: CmpOp, l: Val, lt: Option<IntTy>, u: nat, rw: Width, rt: IntTy) {
    && CompileCmp(op, l, lt, Val(rw, u), Some(rt)) == Holds(op, Read(l, lt), u)
    && CompileCmp(op, Val(rw, u), Some(rt), l, lt) == Holds(op, u, Read(l, lt))
  }

  /** For an operand of an untyped expression, or of a signed one against 64 bits. */
  lemma BothOrdersIff(op: CmpOp, l: Val, lt: Option<IntTy>, u: nat, rw: Width, rt: IntTy)
    requires ValidVal(l) && WidensUnsigned(rt) && u < Modulus(rw) && (lt == None || (!ReadsUnsigned(lt) && rw == 64))
    ensures var (a, w) := (Read(l, lt), Max(l.w, rw));
            BothOrders(op, l, lt, u, rw, rt)
            <==> ComparisonRight(op, a, u, w, true) && ComparisonRight(op, u, a, w, true)
  {
    hide Modulus, Wrap, CompileCmp, ComparisonRight, Holds;
    ReadsItself(u, rw, rt);
    ComparisonExact(op, l, lt, Val(rw, u), Some(rt));
    ComparisonExact(op, Val(rw, u), Some(rt), l, lt);
  }

  lemma AllOrders(op: CmpOp, l: Val, lt: Option<IntTy>, rw: Width, rt: IntTy)
    requires ValidVal(l) && WidensUnsigned(rt) && (lt == None || (!ReadsUnsigned(lt) && rw == 64))
    ensures (forall u: nat :: u < Modulus(rw) ==> BothOrders(op, l, lt, u, rw, rt))
            <==> Read(l, lt) >= 0 || ((op.Eq? || op.Ne?) && rw < l.w)
  {
    hide Modulus, Wrap, BothOrders, Read, ComparisonRight, InSpan;
    var a := Read(l, lt);
    ReadBounds(l, lt, l.w);
    if a >= 0 || ((op.Eq? || op.Ne?) && rw < l.w) {
      forall u: nat | u < Modulus(rw) ensures BothOrders(op, l, lt, u, rw, rt) {
        BothOrdersIff(op, l, lt, u, rw, rt);
        UnsignedRight(op, a, u, l.w, rw);
      }
    } else {
      var u := UnsignedWrong(op, a, l.w, rw);
      BothOrdersIff(op, l, lt, u, rw, rt);
    }
  }

  /** Against an unsigned operand of 64 bits, on either side, a signed one is compared rightly with all
      values exactly when it is not negative. */
  lemma MixedAt64(op: CmpOp, l: Val, lt: IntTy, rt: IntTy)
    requires ValidVal(l) && !WidensUnsigned(lt) && WidensUnsigned(rt)
    ensures (forall u: nat :: u < Modulus(64) ==> BothOrders(op, l, Some(lt), u, 64, rt)) <==> Read(l, Some(lt)) >= 0
  {
    hide Modulus, BothOrders, Read;
    AllOrders(op, l, Some(lt), 64, rt);
  }

  /** The same for an operand without a type, at every width; for = and <> it is right about negative
      ones too if it is the wider of the two. */
  lemma NegativeUntyped(op: CmpOp, l: Val, rw: Width, rt: IntTy)
    requires ValidVal(l) && WidensUnsigned(rt)
    ensures (forall u: nat :: u < Modulus(rw) ==> BothOrders(op, l, None, u, rw, rt))
            <==> Read(l, None) >= 0 || ((op.Eq? || op.Ne?) && rw < l.w)
  {
    hide Modulus, BothOrders, Read;
    AllOrders(op, l, None, rw, rt);
  }

  lemma ReadsItself(u: nat, w: Width, t: IntTy)
    requires WidensUnsigned(t)
    ensures Read(Val(w, u), Some(t)) == u
  {
  }

  lemma UnsignedRight(op: CmpOp, a: int, u: nat, lw: Width, rw: Width)
    requires InSpan(a, lw) && u < Modulus(rw)
    ensures a >= 0 || ((op.Eq? || op.Ne?) && rw < lw) ==>
              ComparisonRight(op, a, u, Max(lw, rw), true) && ComparisonRight(op, u, a, Max(lw, rw), true)
  {
  }

  /** A value about which the comparison with a negative one is wrong. */
  lemma UnsignedWrong(op: CmpOp, a: int, lw: Width, rw: Width) returns (u: nat)
    requires InSpan(a, lw) && a < 0 && !((op.Eq? || op.Ne?) && rw < lw)
    ensures u < Modulus(rw) && !ComparisonRight(op, a, u, Max(lw, rw), true)
  {
    u := if op.Eq? || op.Ne? then a + Modulus(rw) else 0;
  }

  // ----- assignment --------------------------------------------------------

  /** `coerce_value`: extend by the source's signedness, or by the destination's when the
      source has no static type; truncate otherwise. */
  function CoerceValue(v: Val, src: Option<IntTy>, dst: IntTy): Val {
    var unsigned := match src case Some(s) => WidensUnsigned(s) case None => WidensUnsigned(dst);
    Resize(v, BitSize(dst), !unsigned)
  }

  /** Storing a value the destination can hold stores exactly that value, whatever the
      widths and signedness on the two sides. */
  lemma CoerceExact(v: Val, src: Option<IntTy>, dst: IntTy)
    requires ValidVal(v)
    requires InType(Read(v, src), dst)
    ensures var c := CoerceValue(v, src, dst);
            c.w == BitSize(dst) && ValidVal(c) && Read(c, Some(dst)) == Read(v, src)
  {
    hide Modulus, Wrap;
    var w := BitSize(dst);
    var x := Read(v, src);
    AsSignedWrap(v.bits, v.w);
    WrapUnsigned(v.bits, v.w);
    assert Wrap(x, v.w) == v.bits;
    Represent(x, w);
    if v.w >= w { WrapNarrow(x, v.w, w); }
    if v.w == w { WrapUnsigned(v.bits, w); }
  }

  /** `x := e` leaves the mathematical value of `e` in `x` whenever `x` can hold it. */
  lemma AssignmentExact(e: Expr, st: Store, dst: IntTy)
    requires Exact(e, st) && Math(e, st).Some? && InType(Math(e, st).value, dst)
    ensures Compile(e, st).Computed?
    ensures Read(CoerceValue(Compile(e, st).v, RvalueType(e), dst), Some(dst)) == Math(e, st).value
  {
    hide Modulus, Wrap;
    ExpressionExact(e, st);
    CoerceExact(Compile(e, st).v, RvalueType(e), dst);
  }
}

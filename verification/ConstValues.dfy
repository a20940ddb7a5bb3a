/** The value a constant has: the mathematical one of its initializer, as long as every step of it fits
    128 bits. */
module ConstValues {
  import opened Wrappers
  import opened DepGraph
  import opened Consts
  import T = IntTyping

  /** The initializer has a mathematical value under the table. */
  predicate Defined(e: Expr, t: Table)
    decreases e, 0
  {
    match e
    case Literal(_) => true
    case Parenthesized(i) => Defined(i, t)
    case TypedLiteral(i) => Defined(i, t)
    case Identifier(n) => Fold(n) in t
    case Member(p, m) => Fold(p + "." + m) in t
    case Neg(i) => Defined(i, t)
    case Binary(op, l, r) =>
      && Defined(l, t) && Defined(r, t) && !op.Other?
      && (op.Div? || op.Mod? ==> Exact(r, t) != 0)
    case NotConstant => false
  }

  function Exact(e: Expr, t: Table): int
    requires Defined(e, t)
    decreases e, 1
  {
    match e
    case Literal(v) => v
    case Parenthesized(i) => Exact(i, t)
    case TypedLiteral(i) => Exact(i, t)
    case Identifier(n) => t[Fold(n)]
    case Member(p, m) => t[Fold(p + "." + m)]
    case Neg(i) => -Exact(i, t)
    case Binary(Add, l, r) => Exact(l, t) + Exact(r, t)
    case Binary(Sub, l, r) => Exact(l, t) - Exact(r, t)
    case Binary(Mul, l, r) => Exact(l, t) * Exact(r, t)
    case Binary(Div, l, r) => T.TruncDiv(Exact(l, t), Exact(r, t))
    case Binary(Mod, l, r) => T.TruncRem(Exact(l, t), Exact(r, t))
  }

  predicate Fits(v: int) {
    -170141183460469231731687303715884105728 <= v <= 170141183460469231731687303715884105727
  }

  /** Every result on the way fits 128 bits; for MOD so does the quotient. */
  predicate Representable(e: Expr, t: Table) {
    && Defined(e, t)
    && match e
       case Parenthesized(i) => Representable(i, t)
       case TypedLiteral(i) => Representable(i, t)
       case Neg(i) => Representable(i, t) && Fits(Exact(e, t))
       case Binary(op, l, r) =>
         && Representable(l, t) && Representable(r, t)
         && Fits(if op.Mod? then T.TruncDiv(Exact(l, t), Exact(r, t)) else Exact(e, t))
       case _ => true
  }

  /** Main result: an initializer evaluates exactly when it is representable, and then to its mathematical
      value, quotients being truncated. */
  lemma {:induction false} EvalIsExact(e: Expr, t: Table)
    ensures Eval(e, t).Some? <==> Representable(e, t)
    ensures Eval(e, t).Some? ==> Eval(e, t).value == Exact(e, t)
  {
    hide T.TruncDiv, T.TruncRem, Fold;
    match e
    case Parenthesized(i) => EvalIsExact(i, t);
    case TypedLiteral(i) => EvalIsExact(i, t);
    case Neg(i) => EvalIsExact(i, t);
    case Binary(_, l, r) =>
      EvalIsExact(l, t);
      EvalIsExact(r, t);
    case _ =>
  }

  /** Main result: in the table that `add_constants` leaves, a constant that was not there before has a value
      exactly when its initializer is representable under that table, and it is the mathematical one. */
  lemma ConstantExact(bs: seq<VarBlock>, t0: Table, t: Table, d: Decl)
    requires Least(bs, t0, t) && DistinctNames(bs) && Declares(bs, d) && Key(d) !in t0
    ensures Key(d) in t <==> d.init.Some? && Representable(d.init.value, t)
    ensures Key(d) in t ==> t[Key(d)] == Exact(d.init.value, t)
  {
    hide Representable, Exact, Eval;
    if d.init.Some? { EvalIsExact(d.init.value, t); }
    if Key(d) in t { var e :| Declares(bs, e) && Key(e) == Key(d) && Init(e, t) == Some(t[Key(d)]); }
  }
}

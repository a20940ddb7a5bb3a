/** Named integer constants: evaluation of their initializers, and the fixed point that adds every
    one that can be evaluated. */
module Consts {
  import opened Wrappers
  import opened DepGraph
  import T = IntTyping

  datatype BinaryOp = Add | Sub | Mul | Div | Mod | Other

  datatype Expr =
    | Literal(v: int)
    | Parenthesized(inner: Expr)
    | TypedLiteral(inner: Expr)
    | Identifier(name: string)
    | Member(pou: string, member: string)
    | Neg(operand: Expr)
    | Binary(op: BinaryOp, left: Expr, right: Expr)
    | NotConstant

  type Table = map<string, int>

  predicate In128(v: int) {
    -0x8000_0000_0000_0000_0000_0000_0000_0000 <= v < 0x8000_0000_0000_0000_0000_0000_0000_0000
  }

  function Checked(v: int): Option<int> { if In128(v) then Some(v) else None }

  function Lookup(t: Table, key: string): Option<int> { if key in t then Some(t[key]) else None }

  function Apply(op: BinaryOp, l: int, r: int): Option<int> {
    match op
    case Add => Checked(l + r)
    case Sub => Checked(l - r)
    case Mul => Checked(l * r)
    case Div => if r == 0 then None else Checked(T.TruncDiv(l, r))
    case Mod => if r == 0 || !In128(T.TruncDiv(l, r)) then None else Some(T.TruncRem(l, r))
    case Other => None
  }

  /** `FB_Type.cMax`: a constant of a POU, reached through the POU's name. */
  function MemberKey(pou: string, member: string): string { Fold(pou + "." + member) }

  function Eval(e: Expr, t: Table): Option<int> {
    match e
    case Literal(v) => Some(v)
    case Parenthesized(i) => Eval(i, t)
    case TypedLiteral(i) => Eval(i, t)
    case Identifier(n) => Lookup(t, Fold(n))
    case Member(p, m) => Lookup(t, MemberKey(p, m))
    case Neg(i) => var v := Eval(i, t); if v.None? then None else Checked(-v.value)
    case Binary(op, l, r) =>
      var (a, b) := (Eval(l, t), Eval(r, t));
      if a.None? || b.None? then None else Apply(op, a.value, b.value)
    case NotConstant => None
  }

  /** The names an initializer needs. */
  function Names(e: Expr): set<string> {
    match e
    case Identifier(n) => {Fold(n)}
    case Member(p, m) => {MemberKey(p, m)}
    case Parenthesized(i) => Names(i)
    case TypedLiteral(i) => Names(i)
    case Neg(i) => Names(i)
    case Binary(_, l, r) => Names(l) + Names(r)
    case _ => {}
  }

  datatype Decl = Decl(name: string, init: Option<Expr>)

  datatype VarBlock = VarBlock(isConstant: bool, declarations: seq<Decl>)

  function Key(d: Decl): string { Fold(d.name) }

  /** The declarations of the CONSTANT blocks. */
  ghost predicate Declares(bs: seq<VarBlock>, d: Decl) {
    exists i :: 0 <= i < |bs| && bs[i].isConstant && d in bs[i].declarations
  }

  ghost predicate DistinctNames(bs: seq<VarBlock>) {
    forall d, e :: Declares(bs, d) && Declares(bs, e) && Key(d) == Key(e) ==> d == e
  }

  /** s agrees with t wherever t is defined. */
  ghost predicate Within(t: Table, s: Table) { forall k :: k in t ==> k in s && s[k] == t[k] }

  function Init(d: Decl, t: Table): Option<int> { if d.init.None? then None else Eval(d.init.value, t) }

  /** A table in which every constant that can be evaluated has its value. */
  ghost predicate Solution(bs: seq<VarBlock>, t0: Table, t: Table) {
    && Within(t0, t)
    && forall d :: Declares(bs, d) && Key(d) !in t0 && Init(d, t).Some? ==> Key(d) in t && t[Key(d)] == Init(d, t).value
  }

  /** Every entry beyond t0 is the value of its own initializer, under this very table. */
  ghost predicate Supported(bs: seq<VarBlock>, t0: Table, t: Table) {
    forall k :: k in t && k !in t0 ==> exists d :: Declares(bs, d) && Key(d) == k && Init(d, t) == Some(t[k])
  }

  ghost predicate Least(bs: seq<VarBlock>, t0: Table, t: Table) {
    && Solution(bs, t0, t) && Supported(bs, t0, t)
    && forall s :: Solution(bs, t0, s) ==> Within(t, s)
  }

  lemma {:induction false} EvalMonotone(e: Expr, t: Table, s: Table)
    requires Within(t, s) && Eval(e, t).Some?
    ensures Eval(e, s) == Eval(e, t)
  {
    match e
    case Parenthesized(i) => EvalMonotone(i, t, s);
    case TypedLiteral(i) => EvalMonotone(i, t, s);
    case Neg(i) => EvalMonotone(i, t, s);
    case Binary(_, l, r) => EvalMonotone(l, t, s); EvalMonotone(r, t, s);
    case _ =>
  }

  lemma {:induction false} EvalNeedsNames(e: Expr, t: Table)
    requires Eval(e, t).Some?
    ensures Names(e) <= t.Keys
  {
    match e
    case Parenthesized(i) => EvalNeedsNames(i, t);
    case TypedLiteral(i) => EvalNeedsNames(i, t);
    case Neg(i) => EvalNeedsNames(i, t);
    case Binary(_, l, r) => EvalNeedsNames(l, t); EvalNeedsNames(r, t);
    case _ =>
  }

  // ----- the loop ----------------------------------------------------------

  /** What the loop keeps: nothing in t that is not in every solution, and only supported entries. */
  ghost predicate Sound(bs: seq<VarBlock>, t0: Table, t: Table) {
    && Within(t0, t) && Supported(bs, t0, t)
    && forall s :: Solution(bs, t0, s) ==> Within(t, s)
  }

  lemma InsertSound(bs: seq<VarBlock>, t0: Table, t: Table, d: Decl)
    requires Sound(bs, t0, t) && Declares(bs, d) && Key(d) !in t && Init(d, t).Some?
    ensures Sound(bs, t0, t[Key(d) := Init(d, t).value])
  {
    var t' := t[Key(d) := Init(d, t).value];
    assert Within(t, t');
    forall k | k in t' && k !in t0
      ensures exists e :: Declares(bs, e) && Key(e) == k && Init(e, t') == Some(t'[k])
    {
      if k == Key(d) {
        EvalMonotone(d.init.value, t, t');
      } else {
        var e :| Declares(bs, e) && Key(e) == k && Init(e, t) == Some(t[k]);
        EvalMonotone(e.init.value, t, t');
      }
    }
    forall s | Solution(bs, t0, s)
      ensures Within(t', s)
    {
      EvalMonotone(d.init.value, t, s);
    }
  }

  /** Nothing is left to add among the first blocks and, in the current one, the first declarations. */
  ghost predicate Settled(ds: seq<Decl>, n: nat, t: Table)
    requires n <= |ds|
  {
    forall j :: 0 <= j < n ==> Key(ds[j]) in t || Init(ds[j], t).None?
  }

  ghost predicate BlocksSettled(bs: seq<VarBlock>, n: nat, t: Table)
    requires n <= |bs|
  {
    forall i :: 0 <= i < n && bs[i].isConstant ==> Settled(bs[i].declarations, |bs[i].declarations|, t)
  }

  lemma SettledIsSolution(bs: seq<VarBlock>, t0: Table, t: Table)
    requires Sound(bs, t0, t) && BlocksSettled(bs, |bs|, t) && DistinctNames(bs)
    ensures Least(bs, t0, t)
  {
    forall d | Declares(bs, d) && Key(d) !in t0 && Init(d, t).Some?
      ensures Key(d) in t && t[Key(d)] == Init(d, t).value
    {
      var i :| 0 <= i < |bs| && bs[i].isConstant && d in bs[i].declarations;
      var j :| 0 <= j < |bs[i].declarations| && bs[i].declarations[j] == d;
      assert Settled(bs[i].declarations, |bs[i].declarations|, t);
      var e :| Declares(bs, e) && Key(e) == Key(d) && Init(e, t) == Some(t[Key(d)]);
    }
  }

  /** Main result: `add_constants` ends, in the least table that extends t0 and gives every constant
      that can be evaluated its value. */
  method AddConstants(bs: seq<VarBlock>, t0: Table) returns (t: Table)
    ensures Sound(bs, t0, t)
    ensures DistinctNames(bs) ==> Least(bs, t0, t)
  {
    t := t0;
    ghost var all := t0.Keys + Keys(bs);
    while true
      invariant Sound(bs, t0, t) && t.Keys <= all
      decreases |all| - |t.Keys|
    {
      var changed := false;
      ghost var before := t;
      for i := 0 to |bs|
        invariant Sound(bs, t0, t) && t.Keys <= all
        invariant if changed then before.Keys < t.Keys else t == before && BlocksSettled(bs, i, t)
      {
        if bs[i].isConstant {
          var more;
          t, more := AddBlock(bs, i, t0, t);
          changed := changed || more;
        }
      }
      if !changed {
        if DistinctNames(bs) { SettledIsSolution(bs, t0, t); }
        return;
      }
      Grown(before.Keys, t.Keys, all);
    }
  }

  ghost function Keys(bs: seq<VarBlock>): set<string> {
    set i, d | 0 <= i < |bs| && d in bs[i].declarations :: Key(d)
  }

  /** One pass over the declarations of one CONSTANT block. */
  method AddBlock(bs: seq<VarBlock>, i: nat, ghost t0: Table, t: Table) returns (t': Table, changed: bool)
    requires i < |bs| && bs[i].isConstant && Sound(bs, t0, t)
    ensures Sound(bs, t0, t') && t'.Keys <= t.Keys + Keys(bs)
    ensures if changed then t.Keys < t'.Keys else t' == t && Settled(bs[i].declarations, |bs[i].declarations|, t)
  {
    var ds := bs[i].declarations;
    t', changed := t, false;
    for j := 0 to |ds|
      invariant Sound(bs, t0, t') && t'.Keys <= t.Keys + Keys(bs)
      invariant if changed then t.Keys < t'.Keys else t' == t && Settled(ds, j, t)
    {
      var key := Key(ds[j]);
      if key in t' { continue; }
      var v := Init(ds[j], t');
      if v.Some? {
        assert Declares(bs, ds[j]);
        InsertSound(bs, t0, t', ds[j]);
        t' := t'[key := v.value];
        changed := true;
      }
    }
  }

  lemma Grown(a: set<string>, b: set<string>, all: set<string>)
    requires a < b <= all
    ensures |a| < |b| <= |all|
  {
    assert b == a + (b - a) && all == b + (all - b);
  }

  /** The least solution depends only on which constants are declared, not on their order or blocks. */
  lemma OrderIrrelevant(bs: seq<VarBlock>, bs': seq<VarBlock>, t0: Table, t: Table, t': Table)
    requires forall d :: Declares(bs, d) <==> Declares(bs', d)
    requires Least(bs, t0, t) && Least(bs', t0, t')
    ensures t == t'
  {
    assert Solution(bs, t0, t') && Solution(bs', t0, t);
    assert Within(t, t') && Within(t', t);
  }

  // ----- which constants are defined ---------------------------------------

  ghost predicate Undeclared(bs: seq<VarBlock>, t0: Table, k: string) {
    k !in t0 && forall d :: Declares(bs, d) && Key(d) == k ==> d.init.None?
  }

  /** All its initializer needs is there, and still it does not evaluate: an overflow, a zero divisor, or
      no constant expression. */
  ghost predicate Overflows(bs: seq<VarBlock>, t0: Table, t: Table, k: string) {
    k !in t0 && exists d :: Declares(bs, d) && Key(d) == k && d.init.Some?
                            && Names(d.init.value) <= t.Keys && Eval(d.init.value, t).None?
  }

  ghost predicate Needs(bs: seq<VarBlock>, t0: Table, k: string, m: string) {
    k !in t0 && exists d :: Declares(bs, d) && Key(d) == k && d.init.Some? && m in Names(d.init.value)
  }

  /** Dependencies leading from p[0] to a name that cannot be evaluated, or round in a circle. */
  ghost predicate Blocked(bs: seq<VarBlock>, t0: Table, t: Table, p: seq<string>) {
    Path(bs, t0, p) && (Undeclared(bs, t0, Last(p)) || Overflows(bs, t0, t, Last(p)) || Repeats(p))
  }

  /** Dependencies of a defined constant are defined. */
  lemma NeedsDefined(bs: seq<VarBlock>, t0: Table, t: Table, k: string, m: string)
    requires Least(bs, t0, t) && DistinctNames(bs) && k in t && Needs(bs, t0, k, m)
    ensures m in t
  {
    var e :| Declares(bs, e) && Key(e) == k && Init(e, t) == Some(t[k]);
    EvalNeedsNames(e.init.value, t);
  }

  lemma {:induction false} PathDefined(bs: seq<VarBlock>, t0: Table, t: Table, p: seq<string>, i: nat)
    requires Least(bs, t0, t) && DistinctNames(bs) && Path(bs, t0, p) && i < |p| && p[0] in t
    ensures p[i] in t
  {
    if i > 0 {
      PathDefined(bs, t0, t, p, i - 1);
      NeedsDefined(bs, t0, t, p[i - 1], p[i]);
    }
  }

  ghost predicate Path(bs: seq<VarBlock>, t0: Table, p: seq<string>) {
    p != [] && forall j :: 0 <= j < |p| - 1 ==> Needs(bs, t0, p[j], p[j + 1])
  }

  /** A circle on a path, from its first visit on. */
  ghost predicate Circle(p: seq<string>, a: nat) { a < |p| - 1 && p[a] == Last(p) }

  /** Without the constants of a circle a solution is still one. */
  lemma WithoutCircle(bs: seq<VarBlock>, t0: Table, t: Table, p: seq<string>, a: nat)
    requires Solution(bs, t0, t) && DistinctNames(bs) && Path(bs, t0, p) && Circle(p, a)
    ensures Solution(bs, t0, t - Elements(p[a..]))
  {
    var s := t - Elements(p[a..]);
    forall k | k in p[a..]
      ensures k !in t0
    {
      var j := OnCircle(p, a, k);
      assert Needs(bs, t0, p[j], p[j + 1]);
    }
    forall d | Declares(bs, d) && Key(d) in p[a..]
      ensures Init(d, s).None?
    {
      var j := OnCircle(p, a, Key(d));
      assert Needs(bs, t0, p[j], p[j + 1]);
      if Init(d, s).Some? {
        EvalNeedsNames(d.init.value, s);
        assert false;
      }
    }
    forall d | Declares(bs, d) && Key(d) !in t0 && Init(d, s).Some?
      ensures Key(d) in s && s[Key(d)] == Init(d, s).value
    {
      EvalMonotone(d.init.value, s, t);
    }
  }

  lemma OnCircle(p: seq<string>, a: nat, k: string) returns (j: nat)
    requires p != [] && Circle(p, a) && k in p[a..]
    ensures a <= j < |p| - 1 && p[j] == k && p[j + 1] in Elements(p[a..])
  {
    var i :| 0 <= i < |p[a..]| && p[a..][i] == k;
    j := if a + i == |p| - 1 then a else a + i;
    assert p[j + 1] == p[a..][j + 1 - a];
  }

  /** No circle of dependencies is defined. */
  lemma CircleUndefined(bs: seq<VarBlock>, t0: Table, t: Table, p: seq<string>)
    requires Least(bs, t0, t) && DistinctNames(bs) && Path(bs, t0, p) && Repeats(p)
    ensures p[0] !in t
  {
    var a :| 0 <= a < |p| - 1 && p[a] == Last(p);
    WithoutCircle(bs, t0, t, p, a);
    var s := t - Elements(p[a..]);
    assert p[a] == p[a..][0] && p[a] in Elements(p[a..]);
    assert Within(t, s);
    if p[0] in t { PathDefined(bs, t0, t, p, a); }
  }

  /** A name without a value that is neither undeclared nor overflowing needs another one. */
  lemma MissingNeed(bs: seq<VarBlock>, t0: Table, t: Table, k: string) returns (m: string)
    requires Least(bs, t0, t) && k !in t && !Undeclared(bs, t0, k) && !Overflows(bs, t0, t, k)
    ensures Needs(bs, t0, k, m) && m !in t && k in Keys(bs)
  {
    var d :| Declares(bs, d) && Key(d) == k && d.init.Some?;
    m :| m in Names(d.init.value) && m !in t.Keys;
  }

  lemma Follow(bs: seq<VarBlock>, t0: Table, t: Table, k: string) returns (p: seq<string>)
    requires Least(bs, t0, t) && k !in t
    ensures Blocked(bs, t0, t, p) && p[0] == k
  {
    p := [k];
    assert Elements(p[..0]) == {};
    while !(Undeclared(bs, t0, Last(p)) || Overflows(bs, t0, t, Last(p)) || Repeats(p))
      invariant Path(bs, t0, p) && p[0] == k && Last(p) !in t
      invariant Elements(p[..|p| - 1]) <= Keys(bs)
      decreases Keys(bs) - Elements(p[..|p| - 1])
    {
      var m := MissingNeed(bs, t0, t, Last(p));
      WalkOn(p, m, Keys(bs));
      p := p + [m];
    }
  }

  /** Main result: a name has no value exactly when following its dependencies leads to a name that is
      not declared, to an initializer that overflows, or round in a circle. */
  lemma UndefinedIffBlocked(bs: seq<VarBlock>, t0: Table, t: Table, k: string)
    requires Least(bs, t0, t) && DistinctNames(bs)
    ensures k !in t <==> exists p :: Blocked(bs, t0, t, p) && p[0] == k
  {
    if k !in t {
      var p := Follow(bs, t0, t, k);
    }
    if p :| Blocked(bs, t0, t, p) && p[0] == k {
      BlockedUndefined(bs, t0, t, p);
    }
  }

  lemma DefinedIsDeclared(bs: seq<VarBlock>, t0: Table, t: Table, k: string)
    requires Least(bs, t0, t) && DistinctNames(bs) && k in t
    ensures !Undeclared(bs, t0, k) && !Overflows(bs, t0, t, k)
  {
    if k !in t0 {
      var e :| Declares(bs, e) && Key(e) == k && Init(e, t) == Some(t[k]);
    }
  }

  lemma BlockedUndefined(bs: seq<VarBlock>, t0: Table, t: Table, p: seq<string>)
    requires Least(bs, t0, t) && DistinctNames(bs) && Blocked(bs, t0, t, p)
    ensures p[0] !in t
  {
    if Repeats(p) {
      CircleUndefined(bs, t0, t, p);
    } else if p[0] in t {
      PathDefined(bs, t0, t, p, |p| - 1);
      DefinedIsDeclared(bs, t0, t, Last(p));
      assert false;
    }
  }
}

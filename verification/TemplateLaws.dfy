/** What the template evaluator computes: the value of the expression tree a text spells, whatever the
    spacing; and what expansion does with the text around it. */
module TemplateLaws {
  import opened Wrappers
  import opened TemplateExpr
  import T = IntTyping

  datatype BinaryOp = Add | Subtract | Multiply | Divide | Remainder

  datatype Tree =
    | Literal(v: int)
    | Variable
    | Negate(operand: Tree)
    | Grouped(inner: Tree)
    | Binary(op: BinaryOp, left: Tree, right: Tree)

  /** There is no negative literal. */
  predicate Spellable(t: Tree) {
    match t
    case Literal(v) => 0 <= v
    case Variable => true
    case Negate(x) => Spellable(x)
    case Grouped(x) => Spellable(x)
    case Binary(_, l, r) => Spellable(l) && Spellable(r)
  }

  /** Literals are what the lexer accepts. */
  predicate Writable(t: Tree) {
    match t
    case Literal(v) => 0 <= v <= 9223372036854775807
    case Variable => true
    case Negate(x) => Writable(x)
    case Grouped(x) => Writable(x)
    case Binary(_, l, r) => Writable(l) && Writable(r)
  }

  // ----- mathematical value ------------------------------------------------

  function Combine(op: BinaryOp, l: int, r: int): int
    requires op.Divide? || op.Remainder? ==> r != 0
  {
    match op
    case Add => l + r
    case Subtract => l - r
    case Multiply => l * r
    case Divide => T.TruncDiv(l, r)
    case Remainder => T.TruncRem(l, r)
  }

  predicate Defined(t: Tree, n: int)
    decreases t, 0
  {
    match t
    case Negate(x) => Defined(x, n)
    case Grouped(x) => Defined(x, n)
    case Binary(op, l, r) => Defined(l, n) && Defined(r, n) && (op.Divide? || op.Remainder? ==> Exact(r, n) != 0)
    case _ => true
  }

  function Exact(t: Tree, n: int): int
    requires Defined(t, n)
    decreases t, 1
  {
    match t
    case Literal(v) => v
    case Variable => n
    case Negate(x) => -Exact(x, n)
    case Grouped(x) => Exact(x, n)
    case Binary(op, l, r) => Combine(op, Exact(l, n), Exact(r, n))
  }

  /** A 64-bit value. */
  predicate Is64(v: int) { -9223372036854775808 <= v <= 9223372036854775807 }

  /** Every subexpression is defined and has a 64-bit value, and none is MIN % -1. */
  predicate Representable(t: Tree, n: int) {
    && Defined(t, n) && Is64(Exact(t, n))
    && match t
       case Negate(x) => Representable(x, n)
       case Grouped(x) => Representable(x, n)
       case Binary(op, l, r) =>
         && Representable(l, n) && Representable(r, n)
         && !(op.Remainder? && Exact(l, n) == -9223372036854775808 && Exact(r, n) == -1)
       case _ => true
  }

  /** From left to right, the first thing to go wrong is a division of the smallest value by -1. */
  predicate DividesMin(t: Tree, n: int) {
    match t
    case Negate(x) => DividesMin(x, n)
    case Grouped(x) => DividesMin(x, n)
    case Binary(op, l, r) =>
      || DividesMin(l, n)
      || (Representable(l, n) && DividesMin(r, n))
      || (Representable(l, n) && Representable(r, n) && !IsRing(op) && Exact(l, n) == -9223372036854775808
          && Exact(r, n) == -1)
    case _ => false
  }

  predicate IsRing(op: BinaryOp) { op.Add? || op.Subtract? || op.Multiply? }

  // ----- checked value -----------------------------------------------------

  function Symbol(op: BinaryOp): char {
    match op
    case Add => '+'
    case Subtract => '-'
    case Multiply => '*'
    case Divide => '/'
    case Remainder => '%'
  }

  /** The value under checked 64-bit arithmetic, operands from left to right. */
  function Value(t: Tree, n: int): Outcome<int> {
    match t
    case Literal(v) => Ok(v)
    case Variable => Ok(n)
    case Negate(x) => (match Value(x, n) case Ok(v) => Checked(-v) case e => e)
    case Grouped(x) => Value(x, n)
    case Binary(op, l, r) =>
      match Value(l, n)
      case Ok(a) => (match Value(r, n) case Ok(b) => Apply(Symbol(op), a, b) case e => e)
      case e => e
  }

  lemma DivisionFits(l: int, r: int)
    requires Fits(l) && r != 0
    ensures Fits(T.TruncDiv(l, r)) <==> !(l == MIN && r == -1)
    ensures Fits(r) ==> Fits(T.TruncRem(l, r))
  {
    hide T.TruncRem;
    var (a, b) := (if l < 0 then -l else l, if r < 0 then -r else r);
    QuotientBound(a, b);
    RemainderOf(l, r);
    assert T.TruncDiv(l, r) == if (l < 0) == (r < 0) then a / b else -(a / b);
  }

  lemma QuotientBound(a: int, b: int)
    requires a >= 0 && b >= 1
    ensures 0 <= a / b <= a && (b == 1 ==> a / b == a) && (b >= 2 ==> 2 * (a / b) <= a)
  {
    var q := a / b;
    assert q >= 0 && a == q * b + a % b;
    if b >= 2 {
      ProductAtLeast(q, b);
    } else {
      assert q * 1 == q;
    }
  }

  lemma ProductAtLeast(q: int, b: int)
    requires q >= 0 && b >= 2
    ensures q * b >= 2 * q
  {
    assert q * b == q * (b - 2) + 2 * q;
  }

  lemma RemainderOf(l: int, r: int)
    requires r != 0
    ensures var b := if r < 0 then -r else r; -b < T.TruncRem(l, r) < b
  {
    var (a, b) := (if l < 0 then -l else l, if r < 0 then -r else r);
    var q := a / b;
    assert b * q == a - a % b;
    assert r * q == (if r < 0 then -(b * q) else b * q) && r * -q == -(r * q);
    assert T.TruncDiv(l, r) == if (l < 0) == (r < 0) then q else -q;
  }

  lemma ApplyIsExact(op: BinaryOp, a: int, b: int)
    requires Fits(a) && Fits(b)
    ensures var o := Apply(Symbol(op), a, b);
            && (o.Ok? <==> && (op.Divide? || op.Remainder? ==> b != 0) && Fits(Combine(op, a, b))
                           && !(op.Remainder? && a == MIN && b == -1))
            && (o.Ok? ==> o.value == Combine(op, a, b)) && o != Err(TooLarge)
            && (o.Panic? <==> !IsRing(op) && a == MIN && b == -1)
  {
    hide T.TruncDiv, T.TruncRem;
    if b != 0 { DivisionFits(a, b); }
  }

  /** Main result: the evaluator has a value exactly when every subexpression is representable, it is the
      mathematical one, and the evaluator panics exactly when it comes to divide the smallest value by -1. */
  lemma {:induction false} ValueIsExact(t: Tree, n: int)
    requires Writable(t) && Fits(n)
    ensures Value(t, n).Ok? <==> Representable(t, n)
    ensures Value(t, n).Ok? ==> Value(t, n).value == Exact(t, n)
    ensures Value(t, n).Panic? <==> DividesMin(t, n)
    ensures Value(t, n) != Err(TooLarge)
  {
    hide Apply, Combine, Symbol;
    match t
    case Negate(x) => ValueIsExact(x, n);
    case Grouped(x) => ValueIsExact(x, n);
    case Binary(op, l, r) =>
      ValueIsExact(l, n);
      ValueIsExact(r, n);
      if Value(l, n).Ok? && Value(r, n).Ok? {
        ApplyIsExact(op, Value(l, n).value, Value(r, n).value);
      }
    case _ =>
  }

  // ----- printing ----------------------------------------------------------

  datatype Level = SumLevel | ProductLevel | UnaryLevel

  predicate IsSum(op: BinaryOp) { op.Add? || op.Subtract? }

  /** The tokens of a tree, with parentheses where it is grouped or precedence needs them. */
  function Print(t: Tree, level: Level): (ts: seq<Tok>)
    ensures ts != []
    decreases t, if level.SumLevel? then 0 else if level.ProductLevel? then 1 else 2
  {
    match t
    case Literal(v) => [Num(v)]
    case Variable => [N]
    case Negate(x) => [Op('-')] + Print(x, UnaryLevel)
    case Grouped(x) => [Op('(')] + Print(x, SumLevel) + [Op(')')]
    case Binary(op, l, r) =>
      if IsSum(op) && level.SumLevel? then Print(l, SumLevel) + [Op(Symbol(op))] + Print(r, ProductLevel)
      else if !IsSum(op) && !level.UnaryLevel? then Print(l, ProductLevel) + [Op(Symbol(op))] + Print(r, UnaryLevel)
      else [Op('(')] + Print(t, SumLevel) + [Op(')')]
  }

  function Parsing(o: Outcome<int>, next: nat): Parsed {
    match o
    case Ok(v) => Done(v, next)
    case Err(e) => Fail(e)
    case Panic => Aborted
  }

  /** ts holds p from i on. */
  predicate At(ts: seq<Tok>, i: nat, p: seq<Tok>) { i + |p| <= |ts| && ts[i..i + |p|] == p }

  lemma AtParts(ts: seq<Tok>, i: nat, a: seq<Tok>, b: seq<Tok>)
    requires At(ts, i, a + b)
    ensures At(ts, i, a) && At(ts, i + |a|, b)
    ensures a != [] ==> ts[i] == a[0]
    ensures b != [] ==> ts[i + |a|] == b[0]
  {
    assert ts[i..i + |a|] == (a + b)[..|a|] == a;
    assert ts[i + |a|..i + |a| + |b|] == (a + b)[|a|..] == b;
  }

  lemma {:induction false} UnaryOf(ts: seq<Tok>, i: nat, t: Tree, n: int)
    requires At(ts, i, Print(t, UnaryLevel)) && Writable(t)
    ensures Unary(ts, i, n) == Parsing(Value(t, n), i + |Print(t, UnaryLevel)|)
    decreases t, if t.Binary? && !IsSum(t.op) then 9 else 4
  {
    hide Sum, Product, Apply, At;
    match t
    case Literal(v) => AtFirst(ts, i, Print(t, UnaryLevel));
    case Variable => AtFirst(ts, i, Print(t, UnaryLevel));
    case Negate(x) =>
      AtParts(ts, i, [Op('-')], Print(x, UnaryLevel));
      UnaryOf(ts, i + 1, x, n);
    case Grouped(x) => GroupOf(ts, i, x, Print(t, UnaryLevel), n);
    case Binary(op, l, r) => ParenthesesOf(ts, i, t, n);
  }

  lemma AtFirst(ts: seq<Tok>, i: nat, p: seq<Tok>)
    requires At(ts, i, p) && p != []
    ensures i < |ts| && ts[i] == p[0]
  {
    assert ts[i] == ts[i..i + |p|][0];
  }

  lemma {:induction false} ParenthesesOf(ts: seq<Tok>, i: nat, t: Tree, n: int)
    requires t.Binary? && At(ts, i, Print(t, UnaryLevel)) && Writable(t)
    ensures Unary(ts, i, n) == Parsing(Value(t, n), i + |Print(t, UnaryLevel)|)
    decreases t, if IsSum(t.op) then 3 else 8
  {
    hide Sum, Product, Apply, Value, At, Unary, Print, Writable;
    PrintedParentheses(t);
    InnerAt(ts, i, Print(t, SumLevel));
    SumOf(ts, i + 1, t, n);
    UnaryParentheses(ts, i, Value(t, n), i + 1 + |Print(t, SumLevel)|, n);
  }

  lemma {:induction false} GroupOf(ts: seq<Tok>, i: nat, x: Tree, p: seq<Tok>, n: int)
    requires p == [Op('(')] + Print(x, SumLevel) + [Op(')')] && At(ts, i, p) && Writable(x)
    ensures Unary(ts, i, n) == Parsing(Value(x, n), i + |p|)
    decreases x, 10
  {
    hide Sum, Product, Apply, Value, At, Unary, Print, Writable;
    assert p == [Op('(')] + (Print(x, SumLevel) + [Op(')')]);
    InnerAt(ts, i, Print(x, SumLevel));
    SumOf(ts, i + 1, x, n);
    UnaryParentheses(ts, i, Value(x, n), i + 1 + |Print(x, SumLevel)|, n);
  }

  lemma InnerAt(ts: seq<Tok>, i: nat, inner: seq<Tok>)
    requires At(ts, i, [Op('(')] + (inner + [Op(')')]))
    ensures At(ts, i + 1, inner) && OpAt(ts, i) == Some('(') && OpAt(ts, i + 1 + |inner|) == Some(')')
  {
    hide At;
    AtParts(ts, i, [Op('(')], inner + [Op(')')]);
    AtParts(ts, i + 1, inner, [Op(')')]);
    AtFirst(ts, i, [Op('(')]);
    AtFirst(ts, i + 1 + |inner|, [Op(')')]);
  }

  lemma PrintedParentheses(t: Tree)
    requires t.Binary?
    ensures Print(t, UnaryLevel) == [Op('(')] + (Print(t, SumLevel) + [Op(')')])
  {
  }

  lemma UnaryParentheses(ts: seq<Tok>, i: nat, o: Outcome<int>, next: nat, n: int)
    requires OpAt(ts, i) == Some('(') && OpAt(ts, next) == Some(')')
    requires Sum(ts, i + 1, n) == TermThen(ts, o, next, n)
    ensures Unary(ts, i, n) == Parsing(o, next + 1)
  {
    hide Sum, Product;
    if o.Ok? { SumStops(ts, next, o.value, n); }
  }

  lemma SumStops(ts: seq<Tok>, i: nat, v: int, n: int)
    requires i <= |ts| && !Additive(OpAt(ts, i))
    ensures SumRest(ts, i, v, n) == Done(v, i)
  {
  }

  /** A parse that goes on behind a factor, if the factor has a value. */
  function FactorThen(ts: seq<Tok>, o: Outcome<int>, next: nat, n: int): Parsed
    requires next <= |ts|
  {
    if o.Ok? then ProductRest(ts, next, o.value, n) else Parsing(o, next)
  }

  function TermThen(ts: seq<Tok>, o: Outcome<int>, next: nat, n: int): Parsed
    requires next <= |ts|
  {
    if o.Ok? then SumRest(ts, next, o.value, n) else Parsing(o, next)
  }

  function Applied(op: BinaryOp, a: Outcome<int>, b: Outcome<int>): Outcome<int> {
    if !a.Ok? then a else if !b.Ok? then b else Apply(Symbol(op), a.value, b.value)
  }

  lemma ValueApplied(t: Tree, n: int)
    requires t.Binary?
    ensures Value(t, n) == Applied(t.op, Value(t.left, n), Value(t.right, n))
  {
  }

  lemma ProductStep(ts: seq<Tok>, i: nat, op: BinaryOp, a: Outcome<int>, b: Outcome<int>, next: nat, n: int)
    requires !IsSum(op) && OpAt(ts, i) == Some(Symbol(op)) && next <= |ts|
    requires Unary(ts, i + 1, n) == Parsing(b, next)
    ensures a.Ok? ==> FactorThen(ts, a, i, n) == FactorThen(ts, Applied(op, a, b), next, n)
    ensures !a.Ok? ==> FactorThen(ts, a, i, n) == Parsing(a, next)
  {
    hide Apply, Unary;
  }

  lemma SumStep(ts: seq<Tok>, i: nat, op: BinaryOp, a: Outcome<int>, b: Outcome<int>, next: nat, n: int)
    requires IsSum(op) && OpAt(ts, i) == Some(Symbol(op)) && next <= |ts| && !Multiplicative(OpAt(ts, next))
    requires Product(ts, i + 1, n) == FactorThen(ts, b, next, n)
    ensures a.Ok? ==> TermThen(ts, a, i, n) == TermThen(ts, Applied(op, a, b), next, n)
    ensures !a.Ok? ==> TermThen(ts, a, i, n) == Parsing(a, next)
  {
    hide Apply, Product;
  }

  /** How a binary operation prints at its own level. */
  lemma PrintedBinary(t: Tree)
    requires t.Binary?
    ensures var sum := IsSum(t.op);
            Print(t, if sum then SumLevel else ProductLevel)
            == Print(t.left, if sum then SumLevel else ProductLevel)
               + ([Op(Symbol(t.op))] + Print(t.right, if sum then ProductLevel else UnaryLevel))
    ensures Writable(t) ==> Writable(t.left) && Writable(t.right)
    ensures if IsSum(t.op) then Additive(Some(Symbol(t.op))) && !Multiplicative(Some(Symbol(t.op)))
            else Multiplicative(Some(Symbol(t.op)))
  {
    var (own, tighter) := if IsSum(t.op) then (SumLevel, ProductLevel) else (ProductLevel, UnaryLevel);
    var (a, b, c) := (Print(t.left, own), [Op(Symbol(t.op))], Print(t.right, tighter));
    hide Print;
    assert (a + b) + c == a + (b + c);
    PrintedFlat(t);
  }

  lemma PrintedFlat(t: Tree)
    requires t.Binary?
    ensures IsSum(t.op) ==>
              Print(t, SumLevel) == Print(t.left, SumLevel) + [Op(Symbol(t.op))] + Print(t.right, ProductLevel)
    ensures !IsSum(t.op) ==>
              Print(t, ProductLevel) == Print(t.left, ProductLevel) + [Op(Symbol(t.op))] + Print(t.right, UnaryLevel)
  {
  }

  lemma PrintedLower(t: Tree)
    ensures !(t.Binary? && IsSum(t.op)) ==> Print(t, SumLevel) == Print(t, ProductLevel)
    ensures !(t.Binary? && !IsSum(t.op)) ==> Print(t, ProductLevel) == Print(t, UnaryLevel)
  {
  }

  /** Parsing a printed product goes on behind it, with its value. */
  lemma {:induction false} ProductOf(ts: seq<Tok>, i: nat, t: Tree, n: int)
    requires At(ts, i, Print(t, ProductLevel)) && Writable(t)
    ensures Product(ts, i, n) == FactorThen(ts, Value(t, n), i + |Print(t, ProductLevel)|, n)
    decreases t, 5
  {
    hide Apply, At, Unary, ProductRest, Product, Value, Applied, FactorThen, Print, Writable, Symbol;
    var next := i + |Print(t, ProductLevel)|;
    if t.Binary? && !IsSum(t.op) {
      PrintedBinary(t);
      var (left, op, right) := (Print(t.left, ProductLevel), [Op(Symbol(t.op))], Print(t.right, UnaryLevel));
      AtParts(ts, i, left, op + right);
      AtParts(ts, i + |left|, op, right);
      ProductOf(ts, i, t.left, n);
      UnaryOf(ts, i + |left| + 1, t.right, n);
      ValueApplied(t, n);
      ProductStep(ts, i + |left|, t.op, Value(t.left, n), Value(t.right, n), next, n);
      if !Value(t.left, n).Ok? { FailedFirst(ts, t.op, Value(t.left, n), Value(t.right, n), next, n); }
    } else {
      PrintedLower(t);
      UnaryOf(ts, i, t, n);
      AtFits(ts, i, Print(t, ProductLevel));
      ProductOfUnary(ts, i, Value(t, n), next, n);
    }
  }

  lemma AtFits(ts: seq<Tok>, i: nat, p: seq<Tok>)
    requires At(ts, i, p)
    ensures i + |p| <= |ts|
  {
  }

  lemma ProductOfUnary(ts: seq<Tok>, i: nat, o: Outcome<int>, next: nat, n: int)
    requires i <= |ts| && next <= |ts| && Unary(ts, i, n) == Parsing(o, next)
    ensures Product(ts, i, n) == FactorThen(ts, o, next, n)
  {
    hide Unary, ProductRest;
  }

  lemma FailedFirst(ts: seq<Tok>, op: BinaryOp, a: Outcome<int>, b: Outcome<int>, next: nat, n: int)
    requires next <= |ts| && !a.Ok?
    ensures FactorThen(ts, Applied(op, a, b), next, n) == Parsing(a, next) == TermThen(ts, Applied(op, a, b), next, n)
  {
  }

  /** Likewise for a printed sum, when what follows does not bind its last term tighter. */
  lemma {:induction false} SumOf(ts: seq<Tok>, i: nat, t: Tree, n: int)
    requires At(ts, i, Print(t, SumLevel)) && Writable(t)
    requires !Multiplicative(OpAt(ts, i + |Print(t, SumLevel)|))
    ensures Sum(ts, i, n) == TermThen(ts, Value(t, n), i + |Print(t, SumLevel)|, n)
    decreases t, if !t.Binary? then 6 else if IsSum(t.op) then 2 else 7
  {
    hide Apply, At, Product, Value, Sum, Applied, TermThen, FactorThen, Print, Writable, Symbol;
    var next := i + |Print(t, SumLevel)|;
    if t.Binary? && IsSum(t.op) {
      PrintedBinary(t);
      var (left, op, right) := (Print(t.left, SumLevel), [Op(Symbol(t.op))], Print(t.right, ProductLevel));
      AtParts(ts, i, left, op + right);
      AtParts(ts, i + |left|, op, right);
      SumOf(ts, i, t.left, n);
      ProductOf(ts, i + |left| + 1, t.right, n);
      ValueApplied(t, n);
      SumStep(ts, i + |left|, t.op, Value(t.left, n), Value(t.right, n), next, n);
      if !Value(t.left, n).Ok? { FailedFirst(ts, t.op, Value(t.left, n), Value(t.right, n), next, n); }
    } else {
      PrintedLower(t);
      ProductOf(ts, i, t, n);
      AtFits(ts, i, Print(t, SumLevel));
      SumOfProduct(ts, i, Value(t, n), next, n);
    }
  }

  lemma SumOfProduct(ts: seq<Tok>, i: nat, o: Outcome<int>, next: nat, n: int)
    requires i <= |ts| && next <= |ts| && !Multiplicative(OpAt(ts, next))
    requires Product(ts, i, n) == FactorThen(ts, o, next, n)
    ensures Sum(ts, i, n) == TermThen(ts, o, next, n)
  {
    hide Product, SumRest;
  }

  /** Evaluating a printed tree gives the tree's value, errors included. */
  lemma EvalPrinted(t: Tree, n: int)
    requires Writable(t)
    ensures EvalTokens(Print(t, SumLevel), n) == Value(t, n)
  {
    var ts := Print(t, SumLevel);
    assert ts[0..|ts|] == ts;
    SumOf(ts, 0, t, n);
  }
}

/** `{expr}` templates: the lexer, the recursive-descent evaluator over 64-bit integers, and the
    expansion of a template.

    Each method is proved against a function of its inputs; TemplateLaws says what these functions
    compute. A panic of the evaluator is the outcome `Panic`. */
module TemplateExpr {
  import opened Wrappers
  import T = IntTyping

  datatype Error =
    | OnlyVariable | Unexpected | TooLarge | EmptyExpression | Overflow | DivisionByZero
    | MissingParen | EndsEarly | Unclosed | Unopened

  datatype Outcome<T> = Ok(value: T) | Err(error: Error) | Panic

  datatype Tok = Num(v: int) | N | Op(c: char)

  const MIN := -0x8000_0000_0000_0000
  const MAX := 0x7fff_ffff_ffff_ffff

  predicate Fits(v: int) { MIN <= v <= MAX }

  function Checked(v: int): Outcome<int> { if Fits(v) then Ok(v) else Err(Overflow) }

  /** `checked_add`, `checked_sub` and `checked_mul`, but the plain `/` and `%`, which panic when the
      quotient overflows. */
  function Apply(op: char, l: int, r: int): Outcome<int> {
    match op
    case '+' => Checked(l + r)
    case '-' => Checked(l - r)
    case '*' => Checked(l * r)
    case _ =>
      if r == 0 then Err(DivisionByZero)
      else if l == MIN && r == -1 then Panic
      else if op == '/' then Ok(T.TruncDiv(l, r))
      else Ok(T.TruncRem(l, r))
  }

  // ----- lexer -------------------------------------------------------------

  predicate Space(c: char) { c in {' ', '\t', '\n', '\r', '\U{000C}'} }
  predicate Digit(c: char) { '0' <= c <= '9' }
  predicate Letter(c: char) { 'a' <= c <= 'z' || 'A' <= c <= 'Z' }
  predicate Word(c: char) { Letter(c) || Digit(c) || c == '_' }
  predicate Operator(c: char) { c in {'+', '-', '*', '/', '%', '(', ')'} }

  function DigitsEnd(s: string, i: nat): (e: nat)
    requires i <= |s|
    ensures i <= e <= |s|
    ensures forall j :: i <= j < e ==> Digit(s[j])
    ensures e < |s| ==> !Digit(s[e])
    decreases |s| - i
  {
    if i < |s| && Digit(s[i]) then DigitsEnd(s, i + 1) else i
  }

  function Decimal(s: string): nat {
    if s == "" then 0
    else 10 * Decimal(s[..|s| - 1]) + if Digit(s[|s| - 1]) then (s[|s| - 1] - '0') as nat else 0
  }

  function LexFrom(s: string, i: nat, out: seq<Tok>): Outcome<seq<Tok>>
    requires i <= |s|
    decreases |s| - i
  {
    if i == |s| then if out == [] then Err(EmptyExpression) else Ok(out)
    else if Space(s[i]) then LexFrom(s, i + 1, out)
    else if Digit(s[i]) then
      var e := DigitsEnd(s, i + 1);
      if Decimal(s[i..e]) <= MAX then LexFrom(s, e, out + [Num(Decimal(s[i..e]))]) else Err(TooLarge)
    else if s[i] == 'n' then
      if i + 1 < |s| && Word(s[i + 1]) then Err(OnlyVariable) else LexFrom(s, i + 1, out + [N])
    else if Operator(s[i]) then LexFrom(s, i + 1, out + [Op(s[i])])
    else if Letter(s[i]) || s[i] == '_' then Err(OnlyVariable)
    else Err(Unexpected)
  }

  method Lex(s: string) returns (r: Outcome<seq<Tok>>)
    ensures r == LexFrom(s, 0, [])
  {
    var out: seq<Tok> := [];
    var i := 0;
    while i < |s|
      invariant i <= |s| && LexFrom(s, i, out) == LexFrom(s, 0, [])
    {
      var c := s[i];
      if Space(c) {
        i := i + 1;
      } else if Digit(c) {
        var start := i;
        i := i + 1;
        while i < |s| && Digit(s[i])
          invariant start < i <= |s| && DigitsEnd(s, i) == DigitsEnd(s, start + 1)
        {
          i := i + 1;
        }
        var v := Decimal(s[start..i]);
        if v > MAX { return Err(TooLarge); }
        out := out + [Num(v)];
      } else if c == 'n' {
        if i + 1 < |s| && Word(s[i + 1]) { return Err(OnlyVariable); }
        out := out + [N];
        i := i + 1;
      } else if Operator(c) {
        out := out + [Op(c)];
        i := i + 1;
      } else if Letter(c) || c == '_' {
        return Err(OnlyVariable);
      } else {
        return Err(Unexpected);
      }
    }
    r := if out == [] then Err(EmptyExpression) else Ok(out);
  }

  // ----- parser ------------------------------------------------------------

  /** A value and the position behind it, or why there is none. */
  datatype Parsed = Done(v: int, next: nat) | Fail(error: Error) | Aborted

  function OpAt(ts: seq<Tok>, i: nat): Option<char> {
    if i < |ts| && ts[i].Op? then Some(ts[i].c) else None
  }

  predicate Additive(o: Option<char>) { o == Some('+') || o == Some('-') }
  predicate Multiplicative(o: Option<char>) { o == Some('*') || o == Some('/') || o == Some('%') }

  function Sum(ts: seq<Tok>, i: nat, n: int): (r: Parsed)
    requires i <= |ts|
    ensures r.Done? ==> i < r.next <= |ts|
    decreases |ts| - i, 3
  {
    var p := Product(ts, i, n);
    if p.Done? then SumRest(ts, p.next, p.v, n) else p
  }

  function SumRest(ts: seq<Tok>, i: nat, v: int, n: int): (r: Parsed)
    requires i <= |ts|
    ensures r.Done? ==> i <= r.next <= |ts|
    decreases |ts| - i, 2
  {
    if !Additive(OpAt(ts, i)) then Done(v, i)
    else
      var p := Product(ts, i + 1, n);
      if !p.Done? then p
      else match Apply(ts[i].c, v, p.v)
           case Ok(w) => SumRest(ts, p.next, w, n)
           case Err(e) => Fail(e)
           case Panic => Aborted
  }

  function Product(ts: seq<Tok>, i: nat, n: int): (r: Parsed)
    requires i <= |ts|
    ensures r.Done? ==> i < r.next <= |ts|
    decreases |ts| - i, 2
  {
    var p := Unary(ts, i, n);
    if p.Done? then ProductRest(ts, p.next, p.v, n) else p
  }

  function ProductRest(ts: seq<Tok>, i: nat, v: int, n: int): (r: Parsed)
    requires i <= |ts|
    ensures r.Done? ==> i <= r.next <= |ts|
    decreases |ts| - i, 1
  {
    if !Multiplicative(OpAt(ts, i)) then Done(v, i)
    else
      var p := Unary(ts, i + 1, n);
      if !p.Done? then p
      else match Apply(ts[i].c, v, p.v)
           case Ok(w) => ProductRest(ts, p.next, w, n)
           case Err(e) => Fail(e)
           case Panic => Aborted
  }

  function Unary(ts: seq<Tok>, i: nat, n: int): (r: Parsed)
    requires i <= |ts|
    ensures r.Done? ==> i < r.next <= |ts|
    decreases |ts| - i, 1
  {
    if OpAt(ts, i) == Some('-') then
      var p := Unary(ts, i + 1, n);
      if p.Done? then if Fits(-p.v) then Done(-p.v, p.next) else Fail(Overflow) else p
    else Atom(ts, i, n)
  }

  function Atom(ts: seq<Tok>, i: nat, n: int): (r: Parsed)
    requires i <= |ts|
    ensures r.Done? ==> i < r.next <= |ts|
    decreases |ts| - i, 0
  {
    if i == |ts| then Fail(EndsEarly)
    else match ts[i]
         case Num(v) => Done(v, i + 1)
         case N => Done(n, i + 1)
         case Op(c) =>
           if c != '(' then Fail(Unexpected)
           else
             var p := Sum(ts, i + 1, n);
             if !p.Done? then p
             else if OpAt(ts, p.next) != Some(')') then Fail(MissingParen)
             else Done(p.v, p.next + 1)
  }

  /** The parser's cursor over the tokens. */
  class Parser {
    const tokens: seq<Tok>
    var pos: nat
    const n: int

    constructor (tokens: seq<Tok>, n: int)
      ensures this.tokens == tokens && this.n == n && pos == 0
    {
      this.tokens := tokens;
      pos := 0;
      this.n := n;
    }

    /** What a parse from here comes to, and where it leaves the cursor. */
    ghost predicate Reached(r: Outcome<int>, p: Parsed)
      reads this
    {
      match p
      case Done(v, next) => r == Ok(v) && pos == next
      case Fail(e) => r == Err(e)
      case Aborted => r == Panic
    }

    method ParseSum() returns (r: Outcome<int>)
      requires pos <= |tokens|
      modifies this
      ensures Reached(r, Sum(tokens, old(pos), n))
      decreases |tokens| - pos, 3
    {
      ghost var start := pos;
      r := ParseProduct();
      if !r.Ok? { return; }
      var v := r.value;
      while Additive(OpAt(tokens, pos))
        invariant start < pos <= |tokens| && SumRest(tokens, pos, v, n) == Sum(tokens, start, n)
        decreases |tokens| - pos
      {
        var op := tokens[pos].c;
        pos := pos + 1;
        r := ParseProduct();
        if !r.Ok? { return; }
        r := Apply(op, v, r.value);
        if !r.Ok? { return; }
        v := r.value;
      }
      r := Ok(v);
    }

    method ParseProduct() returns (r: Outcome<int>)
      requires pos <= |tokens|
      modifies this
      ensures Reached(r, Product(tokens, old(pos), n))
      decreases |tokens| - pos, 2
    {
      ghost var start := pos;
      r := ParseUnary();
      if !r.Ok? { return; }
      var v := r.value;
      while Multiplicative(OpAt(tokens, pos))
        invariant start < pos <= |tokens| && ProductRest(tokens, pos, v, n) == Product(tokens, start, n)
        decreases |tokens| - pos
      {
        var op := tokens[pos].c;
        pos := pos + 1;
        r := ParseUnary();
        if !r.Ok? { return; }
        r := Apply(op, v, r.value);
        if !r.Ok? { return; }
        v := r.value;
      }
      r := Ok(v);
    }

    method ParseUnary() returns (r: Outcome<int>)
      requires pos <= |tokens|
      modifies this
      ensures Reached(r, Unary(tokens, old(pos), n))
      decreases |tokens| - pos, 1
    {
      if OpAt(tokens, pos) == Some('-') {
        pos := pos + 1;
        r := ParseUnary();
        if r.Ok? { r := Checked(-r.value); }
        return;
      }
      r := ParseAtom();
    }

    method ParseAtom() returns (r: Outcome<int>)
      requires pos <= |tokens|
      modifies this
      ensures Reached(r, Atom(tokens, old(pos), n))
      decreases |tokens| - pos, 0
    {
      if pos == |tokens| {
        pos := pos + 1;
        return Err(EndsEarly);
      }
      var tok := tokens[pos];
      pos := pos + 1;
      match tok {
        case Num(v) => r := Ok(v);
        case N => r := Ok(n);
        case Op(c) =>
          if c != '(' { return Err(Unexpected); }
          r := ParseSum();
          if !r.Ok? { return; }
          if OpAt(tokens, pos) != Some(')') { return Err(MissingParen); }
          pos := pos + 1;
      }
    }
  }

  function EvalTokens(ts: seq<Tok>, n: int): Outcome<int> {
    match Sum(ts, 0, n)
    case Done(v, next) => if next == |ts| then Ok(v) else Err(Unexpected)
    case Fail(e) => Err(e)
    case Aborted => Panic
  }

  function EvalText(s: string, n: int): Outcome<int> {
    match LexFrom(s, 0, [])
    case Ok(ts) => EvalTokens(ts, n)
    case Err(e) => Err(e)
    case Panic => Panic
  }

  method Eval(s: string, n: int) returns (r: Outcome<int>)
    ensures r == EvalText(s, n)
  {
    var tokens := Lex(s);
    match tokens {
      case Ok(ts) =>
        var p := new Parser(ts, n);
        r := p.ParseSum();
        if r.Ok? && p.pos != |ts| { r := Err(Unexpected); }
      case Err(e) => r := Err(e);
      case Panic => r := Panic;
    }
  }

  // ----- templates ---------------------------------------------------------

  function Digits(v: nat): string {
    if v < 10 then [(v as char) + '0'] else Digits(v / 10) + [((v % 10) as char) + '0']
  }

  function Show(v: int): string { if v < 0 then "-" + Digits(-v) else Digits(v) }

  /** The first closing brace at or after i, or the end. */
  function Close(t: string, i: nat): (j: nat)
    requires i <= |t|
    ensures i <= j <= |t| && '}' !in t[i..j]
    ensures j < |t| ==> t[j] == '}'
    decreases |t| - i
  {
    if i == |t| || t[i] == '}' then i
    else
      var j := Close(t, i + 1);
      assert t[i..j] == [t[i]] + t[i + 1..j];
      j
  }

  /** The rest of the template, expanded with `ev` evaluating the expressions in it. */
  function ExpandFrom(t: string, i: nat, ev: string -> Outcome<int>, out: string): Outcome<string>
    requires i <= |t|
    decreases |t| - i
  {
    if i == |t| then Ok(out)
    else if (t[i] == '{' || t[i] == '}') && i + 1 < |t| && t[i + 1] == t[i] then ExpandFrom(t, i + 2, ev, out + [t[i]])
    else if t[i] == '{' then
      var j := Close(t, i + 1);
      if j == |t| then Err(Unclosed)
      else match ev(t[i + 1..j])
           case Ok(v) => ExpandFrom(t, j + 1, ev, out + Show(v))
           case Err(e) => Err(e)
           case Panic => Panic
    else if t[i] == '}' then Err(Unopened)
    else ExpandFrom(t, i + 1, ev, out + [t[i]])
  }

  function Expansion(t: string, n: int): Outcome<string> { ExpandFrom(t, 0, e => EvalText(e, n), "") }

  method Expand(t: string, n: int) returns (r: Outcome<string>)
    ensures r == Expansion(t, n)
  {
    hide EvalText, Show, Digits;
    ghost var ev := e => EvalText(e, n);
    var out := "";
    var i := 0;
    while i < |t|
      invariant i <= |t| && ExpandFrom(t, i, ev, out) == ExpandFrom(t, 0, ev, "")
    {
      var c := t[i];
      i := i + 1;
      if c == '{' && i < |t| && t[i] == '{' {
        i := i + 1;
        out := out + "{";
      } else if c == '}' && i < |t| && t[i] == '}' {
        i := i + 1;
        out := out + "}";
      } else if c == '{' {
        var start := i;
        while i < |t| && t[i] != '}'
          invariant start <= i <= |t| && Close(t, i) == Close(t, start)
        {
          i := i + 1;
        }
        if i == |t| { return Err(Unclosed); }
        var v := Eval(t[start..i], n);
        match v {
          case Ok(x) => out := out + Show(x);
          case Err(e) => return Err(e);
          case Panic => return Panic;
        }
        i := i + 1;
      } else if c == '}' {
        return Err(Unopened);
      } else {
        out := out + [c];
      }
    }
    r := Ok(out);
  }

  /** `replace("{{", "")`. */
  function WithoutPairs(s: string): string {
    if s == "" then ""
    else if |s| >= 2 && s[0] == '{' && s[1] == '{' then WithoutPairs(s[2..])
    else [s[0]] + WithoutPairs(s[1..])
  }

  predicate HasPlaceholder(s: string) { '{' in WithoutPairs(s) }
}

/** Which error a text or a template that is refused is refused with. */
module TemplateErrors {
  import opened TemplateExpr
  import opened TemplateLaws
  import opened TemplateText
  import opened Wrappers

  // ----- words -------------------------------------------------------------

  /** A name other than n begins here. */
  predicate OtherName(s: string) {
    && s != "" && (Alphabetic(s[0]) || s[0] == '_')
    && (s[0] == 'n' ==> |s| > 1 && (Alphabetic(s[1]) || '0' <= s[1] <= '9' || s[1] == '_'))
  }

  predicate Alphabetic(c: char) { 'a' <= c <= 'z' || 'A' <= c <= 'Z' }

  /** The character means nothing in an expression. */
  predicate Alien(c: char) {
    && !Alphabetic(c) && c != '_' && !('0' <= c <= '9')
    && c !in {' ', '\t', '\n', '\r', '\U{000C}', '+', '-', '*', '/', '%', '(', ')'}
  }

  lemma Stops(s: string, i: nat, out: seq<Tok>)
    requires i <= |s|
    ensures OtherName(s[i..]) ==> LexFrom(s, i, out) == Err(OnlyVariable)
    ensures i < |s| && Alien(s[i]) ==> LexFrom(s, i, out) == Err(Unexpected)
    ensures i == |s| && out == [] ==> LexFrom(s, i, out) == Err(EmptyExpression)
  {
  }

  /** Main result on words: tokens, and then a name other than n, a character that means nothing, or, if there
      are no tokens, nothing, are refused for that; unless a number before is too large. */
  lemma WordErrors(ts: seq<Tok>, ws: seq<string>, gaps: seq<string>, rest: string, n: int)
    requires Words(ts, ws) && Gaps(ts, gaps) && Lexable(ts) && Apart(ts, gaps, rest)
    ensures var r := EvalText(Text(ws, gaps) + rest, n);
            && (!Small(ts) ==> r == Err(TooLarge))
            && (Small(ts) && OtherName(rest) ==> r == Err(OnlyVariable))
            && (Small(ts) && rest != "" && Alien(rest[0]) ==> r == Err(Unexpected))
            && (ts == [] && rest == "" ==> r == Err(EmptyExpression))
  {
    hide LexFrom, EvalTokens, Spells, Blank, Lexable, Apart, Small, Letter, Alphabetic;
    var s := Text(ws, gaps) + rest;
    assert s[0..] == s && [] + ts == ts;
    LexText(s, 0, ts, ws, gaps, rest, []);
    assert s[|s| - |rest|..] == rest;
    Stops(s, |s| - |rest|, ts);
    if ts == [] { NoneSmall(); }
  }

  lemma NoneSmall()
    ensures Small([])
  {
  }

  // ----- tokens ------------------------------------------------------------

  /** An operator between two operands. */
  predicate Infix(tok: Tok) { tok.Op? && tok.c in {'+', '-', '*', '/', '%'} }

  lemma SumThenEnd(ts: seq<Tok>, i: nat, t: Tree, n: int, v: int)
    requires At(ts, i, Print(t, SumLevel)) && Writable(t) && Value(t, n) == Ok(v)
    requires var next := i + |Print(t, SumLevel)|; next < |ts| ==> !Infix(ts[next])
    ensures Sum(ts, i, n) == Done(v, i + |Print(t, SumLevel)|)
  {
    var next := i + |Print(t, SumLevel)|;
    NotInfix(ts, next);
    AtFits(ts, i, Print(t, SumLevel));
    hide Sum, Print, Writable, Value, At, SumRest;
    SumOf(ts, i, t, n);
    SumStops(ts, next, v, n);
  }

  lemma NotInfix(ts: seq<Tok>, i: nat)
    requires i < |ts| ==> !Infix(ts[i])
    ensures !Additive(OpAt(ts, i)) && !Multiplicative(OpAt(ts, i))
  {
  }

  lemma PrefixAt(a: seq<Tok>, p: seq<Tok>, b: seq<Tok>)
    ensures At(a + p + b, |a|, p)
  {
    assert (a + p + b)[|a|..|a| + |p|] == p;
  }

  /** Main result on tokens: what stands behind an expression and is no operator is unexpected. */
  lemma LeftOver(t: Tree, rest: seq<Tok>, n: int, v: int)
    requires Writable(t) && Value(t, n) == Ok(v) && rest != [] && !Infix(rest[0])
    ensures EvalTokens(Print(t, SumLevel) + rest, n) == Err(Unexpected)
  {
    var ts := Print(t, SumLevel) + rest;
    assert [] + Print(t, SumLevel) + rest == ts;
    PrefixAt([], Print(t, SumLevel), rest);
    hide Sum, Print, Writable, Value, Infix;
    SumThenEnd(ts, 0, t, n, v);
  }

  /** An expression in parentheses without the closing one is refused for that. */
  lemma NotClosed(t: Tree, rest: seq<Tok>, n: int, v: int)
    requires Writable(t) && Value(t, n) == Ok(v) && (rest != [] ==> !Infix(rest[0]) && rest[0] != Op(')'))
    ensures EvalTokens([Op('(')] + Print(t, SumLevel) + rest, n) == Err(MissingParen)
  {
    var ts := [Op('(')] + Print(t, SumLevel) + rest;
    PrefixAt([Op('(')], Print(t, SumLevel), rest);
    hide Print, Writable, Value, Infix, Sum;
    SumThenEnd(ts, 1, t, n, v);
    AtomOpen(ts, n);
    FirstFails(ts, n, MissingParen);
  }

  lemma AtomOpen(ts: seq<Tok>, n: int)
    requires ts != [] && ts[0] == Op('(') && Sum(ts, 1, n).Done?
    ensures OpAt(ts, Sum(ts, 1, n).next) != Some(')') ==> Atom(ts, 0, n) == Fail(MissingParen)
  {
  }

  /** Where an operand is missing, the end is too early and every other token unexpected. */
  lemma NoOperand(ts: seq<Tok>, n: int)
    requires ts == [] || (ts[0].Op? && ts[0].c != '-' && ts[0].c != '(')
    ensures EvalTokens(ts, n) == Err(if ts == [] then EndsEarly else Unexpected)
  {
    FirstFails(ts, n, if ts == [] then EndsEarly else Unexpected);
  }

  lemma FirstFails(ts: seq<Tok>, n: int, e: Error)
    requires Atom(ts, 0, n) == Fail(e) && OpAt(ts, 0) != Some('-')
    ensures EvalTokens(ts, n) == Err(e)
  {
    hide Atom, ProductRest, SumRest;
    assert Unary(ts, 0, n) == Fail(e);
    assert Product(ts, 0, n) == Fail(e);
  }

  /** So it is behind an operator. */
  lemma NoSecondOperand(t: Tree, c: char, rest: seq<Tok>, n: int, v: int)
    requires Writable(t) && Value(t, n) == Ok(v) && (c == '+' || c == '-')
    requires rest == [] || (rest[0].Op? && rest[0].c != '-' && rest[0].c != '(')
    ensures EvalTokens(Print(t, SumLevel) + [Op(c)] + rest, n) == Err(if rest == [] then EndsEarly else Unexpected)
  {
    var (p, e) := (Print(t, SumLevel), if rest == [] then EndsEarly else Unexpected);
    var ts := p + [Op(c)] + rest;
    assert [] + p + ([Op(c)] + rest) == ts;
    PrefixAt([], p, [Op(c)] + rest);
    hide Print, Writable, Value, Sum, SumRest, ProductRest;
    SumOf(ts, 0, t, n);
    MissingTerm(ts, |p|, v, n, e);
    SumWithout(ts, v, |p|, n, e);
  }

  lemma MissingTerm(ts: seq<Tok>, i: nat, v: int, n: int, e: Error)
    requires i < |ts| && (ts[i] == Op('+') || ts[i] == Op('-'))
    requires e == if i + 1 == |ts| then EndsEarly else Unexpected
    requires i + 1 < |ts| ==> ts[i + 1].Op? && ts[i + 1].c != '-' && ts[i + 1].c != '('
    ensures SumRest(ts, i, v, n) == Fail(e)
  {
    assert Atom(ts, i + 1, n) == Fail(e);
    hide Atom;
    assert Product(ts, i + 1, n) == Fail(e);
  }

  lemma SumWithout(ts: seq<Tok>, v: int, i: nat, n: int, e: Error)
    requires i <= |ts| && SumRest(ts, i, v, n) == Fail(e) && Sum(ts, 0, n) == TermThen(ts, Ok(v), i, n)
    ensures EvalTokens(ts, n) == Err(e)
  {
    hide Sum, SumRest;
  }

  // ----- braces ------------------------------------------------------------

  /** Main result on templates: text and expressions that all have values, and then a brace that opens and is
      not closed, or one that closes and was not opened, are refused for that. */
  lemma BraceErrors(ps: seq<Part>, n: int, s: string)
    requires AllProper(ps) && Rendered(ps, n, "").Ok?
    ensures '}' !in s && (s == "" || s[0] != '{') ==> Expansion(Template(ps) + ("{" + s), n) == Err(Unclosed)
    ensures s == "" || s[0] != '}' ==> Expansion(Template(ps) + ("}" + s), n) == Err(Unopened)
  {
    hide Rendered, AllProper, Template;
    var (ev, out) := (e => EvalText(e, n), Rendered(ps, n, "").value);
    hide EvalText;
    BraceBehind(ps, n, "{" + s);
    BraceBehind(ps, n, "}" + s);
    if '}' !in s && (s == "" || s[0] != '{') { OpenEnds(Template(ps), s, ev, out); }
    if s == "" || s[0] != '}' { CloseEnds(Template(ps), s, ev, out); }
  }

  lemma BraceBehind(ps: seq<Part>, n: int, rest: string)
    requires AllProper(ps) && Rendered(ps, n, "").Ok?
    ensures var t := Template(ps) + rest;
            Expansion(t, n) == ExpandFrom(t, |Template(ps)|, e => EvalText(e, n), Rendered(ps, n, "").value)
  {
    hide Rendered, AllProper, Template;
    var t := Template(ps) + rest;
    assert t[0..] == t;
    TemplateFrom(t, 0, ps, rest, n, e => EvalText(e, n), "");
  }

  lemma OpenEnds(a: string, s: string, ev: string -> Outcome<int>, out: string)
    requires '}' !in s && (s == "" || s[0] != '{')
    ensures ExpandFrom(a + ("{" + s), |a|, ev, out) == Err(Unclosed)
  {
    var t := a + ("{" + s);
    assert t[|a|] == '{' && (|a| + 1 < |t| ==> t[|a| + 1] == s[0]);
    assert t[|a| + 1..] == s;
  }

  lemma CloseEnds(a: string, s: string, ev: string -> Outcome<int>, out: string)
    requires s == "" || s[0] != '}'
    ensures ExpandFrom(a + ("}" + s), |a|, ev, out) == Err(Unopened)
  {
    var t := a + ("}" + s);
    assert t[|a|] == '}' && (|a| + 1 < |t| ==> t[|a| + 1] == s[0]);
  }
}

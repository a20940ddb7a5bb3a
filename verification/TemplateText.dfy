/** Text in, text out: every spelling of a tree evaluates to the tree's value, and a template expands to
    its literal parts with the values in between. */
module TemplateText {
  import opened TemplateExpr
  import opened TemplateLaws

  // ----- spelling tokens ---------------------------------------------------

  /** The word is a spelling of the token; a number may have zeros in front. */
  predicate Spells(tok: Tok, w: string) {
    match tok
    case Num(v) => w != "" && (forall i :: 0 <= i < |w| ==> '0' <= w[i] <= '9') && Decimal(w) == v
    case N => w == "n"
    case Op(c) => w == [c]
  }

  ghost predicate Words(ts: seq<Tok>, ws: seq<string>) {
    |ws| == |ts| && forall i :: 0 <= i < |ts| ==> Spells(ts[i], ws[i])
  }

  predicate Blank(s: string) { forall i :: 0 <= i < |s| ==> s[i] in {' ', '\t', '\n', '\r', '\U{000C}'} }

  /** Any amount of white space around the tokens, none included. */
  ghost predicate Gaps(ts: seq<Tok>, gaps: seq<string>) {
    |gaps| == |ts| + 1 && forall i :: 0 <= i < |gaps| ==> Blank(gaps[i])
  }

  /** The words with white space before, between and behind them. */
  function Text(ws: seq<string>, gaps: seq<string>): string
    requires |gaps| == |ws| + 1
  {
    if ws == [] then gaps[0] else gaps[0] + (ws[0] + Text(ws[1..], gaps[1..]))
  }

  predicate Clean(tok: Tok) {
    match tok
    case Num(v) => 0 <= v
    case N => true
    case Op(c) => Operator(c)
  }

  /** No literal is too large for the lexer. */
  predicate Small(ts: seq<Tok>) { forall tok :: tok in ts && tok.Num? ==> tok.v <= MAX }

  /** Tokens the lexer knows, no two operands in a row. */
  ghost predicate Lexable(ts: seq<Tok>) {
    && (forall i :: 0 <= i < |ts| ==> Clean(ts[i]))
    && forall i :: 0 <= i < |ts| - 1 ==> ts[i].Op? || ts[i + 1].Op?
  }

  lemma {:induction false} DigitsAre(v: nat)
    ensures Digits(v) != "" && Decimal(Digits(v)) == v
    ensures forall i :: 0 <= i < |Digits(v)| ==> Digit(Digits(v)[i])
  {
    if v >= 10 {
      DigitsAre(v / 10);
      var d := ((v % 10) as char) + '0';
      assert Digit(d) && (d - '0') as nat == v % 10;
      assert Digits(v)[..|Digits(v)| - 1] == Digits(v / 10);
    } else {
      var d := (v as char) + '0';
      assert Digits(v) == [d] && Digit(d) && (d - '0') as nat == v;
      assert Digits(v)[..0] == "";
    }
  }

  lemma {:induction false} DigitsEndAt(s: string, i: nat, e: nat)
    requires i <= e <= |s| && (e < |s| ==> !Digit(s[e]))
    requires forall j :: i <= j < e ==> Digit(s[j])
    ensures DigitsEnd(s, i) == e
    decreases e - i
  {
    if i < e { DigitsEndAt(s, i + 1, e); }
  }

  lemma {:induction false} SkipGap(s: string, i: nat, g: nat, out: seq<Tok>)
    requires i <= g <= |s| && forall j :: i <= j < g ==> Space(s[j])
    ensures LexFrom(s, i, out) == LexFrom(s, g, out)
    decreases g - i
  {
    if i < g { SkipGap(s, i + 1, g, out); }
  }

  lemma LexToken(s: string, i: nat, tok: Tok, w: string, out: seq<Tok>)
    requires Clean(tok) && Spells(tok, w) && i + |w| <= |s| && s[i..i + |w|] == w
    requires i + |w| < |s| && !tok.Op? ==> !Word(s[i + |w|])
    ensures LexFrom(s, i, out)
            == if tok.Num? && tok.v > MAX then Err(TooLarge) else LexFrom(s, i + |w|, out + [tok])
  {
    var e := i + |w|;
    if tok.Num? {
      forall j | i <= j < e ensures Digit(s[j]) { assert s[j] == s[i..e][j - i]; }
      DigitsEndAt(s, i + 1, e);
    } else {
      assert s[i] == s[i..e][0];
    }
  }

  /** What follows an operand does not lengthen it. */
  lemma TextStart(ts: seq<Tok>, ws: seq<string>, gaps: seq<string>)
    requires Words(ts, ws) && Gaps(ts, gaps) && Lexable(ts) && (ts == [] || ts[0].Op?)
    ensures Text(ws, gaps) == "" || !Word(Text(ws, gaps)[0])
  {
    assert Blank(gaps[0]);
    if ts != [] && gaps[0] == "" { assert Text(ws, gaps)[0] == ts[0].c; }
  }

  lemma LexableTail(ts: seq<Tok>, ws: seq<string>, gaps: seq<string>)
    requires ts != [] && Words(ts, ws) && Gaps(ts, gaps) && Lexable(ts)
    ensures Words(ts[1..], ws[1..]) && Gaps(ts[1..], gaps[1..]) && Lexable(ts[1..])
    ensures Clean(ts[0]) && Spells(ts[0], ws[0]) && Blank(gaps[0])
    ensures ts[0].Op? || ts[1..] == [] || ts[1..][0].Op?
  {
  }

  /** What follows the text does not lengthen its last word. */
  predicate Apart(ts: seq<Tok>, gaps: seq<string>, rest: string) {
    rest == "" || ts == [] || ts[|ts| - 1].Op? || (gaps != [] && gaps[|gaps| - 1] != "") || !Word(rest[0])
  }

  lemma ApartTail(ts: seq<Tok>, ws: seq<string>, gaps: seq<string>, rest: string)
    requires ts != [] && Words(ts, ws) && Gaps(ts, gaps) && Lexable(ts) && Apart(ts, gaps, rest)
    ensures Apart(ts[1..], gaps[1..], rest)
    ensures !ts[0].Op? ==> Text(ws[1..], gaps[1..]) + rest == "" || !Word((Text(ws[1..], gaps[1..]) + rest)[0])
  {
    if ts[1..] == [] {
      assert Text(ws[1..], gaps[1..]) == gaps[1] && Blank(gaps[1]);
    } else if !ts[0].Op? {
      LexableTail(ts, ws, gaps);
      TextStart(ts[1..], ws[1..], gaps[1..]);
      TextSome(ts[1..], ws[1..], gaps[1..]);
    }
  }

  lemma TextSome(ts: seq<Tok>, ws: seq<string>, gaps: seq<string>)
    requires ts != [] && Words(ts, ws) && Gaps(ts, gaps)
    ensures Text(ws, gaps) != ""
  {
    assert Spells(ts[0], ws[0]);
  }

  lemma {:induction false} LexText(s: string, i: nat, ts: seq<Tok>, ws: seq<string>, gaps: seq<string>, rest: string,
      out: seq<Tok>)
    requires Words(ts, ws) && Gaps(ts, gaps) && Lexable(ts) && Apart(ts, gaps, rest)
    requires i <= |s| && s[i..] == Text(ws, gaps) + rest
    ensures |rest| <= |s|
    ensures LexFrom(s, i, out) == if Small(ts) then LexFrom(s, |s| - |rest|, out + ts) else Err(TooLarge)
    decreases |ts|
  {
    hide Spells, Clean, Lexable, LexFrom, Blank, Space, Word, Small, Apart;
    SmallParts(ts);
    var g := i + |gaps[0]|;
    if ts == [] {
      Split(s, i, gaps[0], "", rest);
      GapIsBlank(s, i, g, gaps, ts);
      SkipGap(s, i, g, out);
      assert out + ts == out;
    } else {
      var tail := Text(ws[1..], gaps[1..]) + rest;
      var e := g + |ws[0]|;
      assert s[i..] == gaps[0] + (ws[0] + tail);
      Split(s, i, gaps[0], ws[0], tail);
      LexableTail(ts, ws, gaps);
      ApartTail(ts, ws, gaps, rest);
      GapIsBlank(s, i, g, gaps, ts);
      SkipGap(s, i, g, out);
      assert e < |s| ==> s[e] == tail[0];
      LexToken(s, g, ts[0], ws[0], out);
      LexText(s, e, ts[1..], ws[1..], gaps[1..], rest, out + [ts[0]]);
      assert out + [ts[0]] + ts[1..] == out + ts;
    }
  }

  lemma SmallParts(ts: seq<Tok>)
    ensures Small(ts) <==> ts == [] || ((ts[0].Num? ==> ts[0].v <= MAX) && Small(ts[1..]))
  {
    if ts != [] { assert ts == [ts[0]] + ts[1..]; }
  }

  lemma GapIsBlank(s: string, i: nat, g: nat, gaps: seq<string>, ts: seq<Tok>)
    requires Gaps(ts, gaps) && i <= g <= |s| && s[i..g] == gaps[0]
    ensures forall j :: i <= j < g ==> Space(s[j])
  {
    assert Blank(gaps[0]);
    forall j | i <= j < g ensures Space(s[j]) { assert s[j] == s[i..g][j - i]; }
  }

  lemma Split(s: string, i: nat, a: string, b: string, c: string)
    requires i <= |s| && s[i..] == a + (b + c)
    ensures var (g, e) := (i + |a|, i + |a| + |b|);
            e <= |s| && s[i..g] == a && s[g..e] == b && s[e..] == c
  {
    var (g, e) := (i + |a|, i + |a| + |b|);
    assert s[i..g] == s[i..][..|a|] && s[g..e] == s[i..][|a|..][..|b|] && s[e..] == s[i..][|a|..][|b|..];
  }

  lemma LexableAround(a: seq<Tok>, c: char, b: seq<Tok>)
    requires Lexable(a) && Lexable(b) && Operator(c)
    ensures Lexable(a + ([Op(c)] + b)) && (Small(a + ([Op(c)] + b)) <==> Small(a) && Small(b))
  {
    hide Operator;
    var ts := a + ([Op(c)] + b);
    assert forall tok :: tok in ts <==> tok in a || tok == Op(c) || tok in b;
  }

  lemma PrintedAtom(t: Tree)
    ensures t.Literal? ==> forall level :: Print(t, level) == [Num(t.v)]
    ensures t.Variable? ==> forall level :: Print(t, level) == [N]
    ensures t.Negate? ==> forall level :: Print(t, level) == [] + ([Op('-')] + Print(t.operand, UnaryLevel))
    ensures t.Grouped? ==>
              forall level :: Print(t, level) == ([] + ([Op('(')] + Print(t.inner, SumLevel))) + ([Op(')')] + [])
  {
  }

  lemma PrintedInParentheses(t: Tree, level: Level)
    requires t.Binary? && (level.UnaryLevel? || (level.ProductLevel? && IsSum(t.op)))
    ensures Print(t, level) == ([] + ([Op('(')] + Print(t, SumLevel))) + ([Op(')')] + [])
  {
  }

  lemma {:induction false} PrintLexable(t: Tree, level: Level)
    requires Spellable(t)
    ensures Lexable(Print(t, level)) && (Small(Print(t, level)) <==> Writable(t))
    decreases t, if t.Binary? && (level.UnaryLevel? || (level.ProductLevel? && IsSum(t.op))) then 1 else 0
  {
    hide Print, Lexable, Operator, Small;
    NoTokens();
    PrintedAtom(t);
    match t
    case Literal(v) => OneToken(Num(v));
    case Variable => OneToken(N);
    case Negate(x) =>
      PrintLexable(x, UnaryLevel);
      LexableAround([], '-', Print(x, UnaryLevel));
    case Grouped(x) =>
      PrintLexable(x, SumLevel);
      LexableAround([], '(', Print(x, SumLevel));
      LexableAround([] + ([Op('(')] + Print(x, SumLevel)), ')', []);
    case Binary(op, l, r) =>
      if level.UnaryLevel? || (level.ProductLevel? && IsSum(op)) {
        PrintedInParentheses(t, level);
        PrintLexable(t, SumLevel);
        LexableAround([], '(', Print(t, SumLevel));
        LexableAround([] + ([Op('(')] + Print(t, SumLevel)), ')', []);
      } else {
        var (own, tighter) := if IsSum(op) then (SumLevel, ProductLevel) else (ProductLevel, UnaryLevel);
        PrintLexable(l, own);
        PrintLexable(r, tighter);
        PrintedBinary(t);
        if !IsSum(op) { PrintedLower(t); }
        LexableAround(Print(l, own), Symbol(op), Print(r, tighter));
      }
  }

  lemma NoTokens()
    ensures Lexable([]) && Small([]) && Operator('-') && Operator('(') && Operator(')')
    ensures forall op: BinaryOp :: Operator(Symbol(op))
  {
  }

  lemma OneToken(tok: Tok)
    ensures Clean(tok) ==> Lexable([tok])
    ensures Small([tok]) <==> (tok.Num? ==> tok.v <= MAX)
  {
    assert tok in [tok];
  }

  /** What a text that spells the tree comes to. */
  function Result(t: Tree, n: int): Outcome<int> { if Writable(t) then Value(t, n) else Err(TooLarge) }

  /** Main result: every spelling of an expression evaluates to the value of its tree or fails as the
      tree does, unless a literal is too large, which is then the failure. */
  lemma EvalSpelled(t: Tree, ws: seq<string>, gaps: seq<string>, n: int)
    requires Spellable(t) && Words(Print(t, SumLevel), ws) && Gaps(Print(t, SumLevel), gaps)
    ensures EvalText(Text(ws, gaps), n) == Result(t, n)
  {
    hide Print, Value, EvalTokens, Lexable, Blank, Small, Spells;
    var ts := Print(t, SumLevel);
    var s := Text(ws, gaps);
    PrintLexable(t, SumLevel);
    assert s[0..] == s + "" && [] + ts == ts;
    LexText(s, 0, ts, ws, gaps, "", []);
    if Writable(t) { EvalPrinted(t, n); }
  }

  /** A text that spells a tree is refused for a literal exactly when a literal is too large. */
  lemma TooLargeIff(t: Tree, ws: seq<string>, gaps: seq<string>, n: int)
    requires Spellable(t) && Words(Print(t, SumLevel), ws) && Gaps(Print(t, SumLevel), gaps) && Fits(n)
    ensures EvalText(Text(ws, gaps), n) == Err(TooLarge) <==> !Writable(t)
  {
    hide Print, Value, EvalText, Text, Gaps, Words;
    EvalSpelled(t, ws, gaps, n);
    if Writable(t) { ValueIsExact(t, n); }
  }

  // ----- templates ---------------------------------------------------------

  datatype Part = Plain(text: string) | Expression(tree: Tree, words: seq<string>, gaps: seq<string>)

  ghost predicate Proper(p: Part) {
    p.Expression? ==>
      Spellable(p.tree) && Words(Print(p.tree, SumLevel), p.words) && Gaps(Print(p.tree, SumLevel), p.gaps)
  }

  ghost predicate AllProper(ps: seq<Part>) { forall p :: p in ps ==> Proper(p) }

  predicate Brace(c: char) { c == '{' || c == '}' }

  /** Literal text, its braces doubled. */
  function Escape(s: string): string {
    if s == "" then "" else (if Brace(s[0]) then [s[0], s[0]] else [s[0]]) + Escape(s[1..])
  }

  ghost function Written(p: Part): string
    requires Proper(p)
  {
    match p
    case Plain(s) => Escape(s)
    case Expression(_, ws, gaps) => "{" + (Text(ws, gaps) + "}")
  }

  ghost function Template(ps: seq<Part>): string
    requires AllProper(ps)
  {
    if ps == [] then "" else Written(ps[0]) + Template(ps[1..])
  }

  /** The literal parts and the values in order, up to the first expression that has none. */
  function Rendered(ps: seq<Part>, n: int, out: string): Outcome<string> {
    if ps == [] then Ok(out)
    else match ps[0]
         case Plain(s) => Rendered(ps[1..], n, out + s)
         case Expression(t, _, _) =>
           match Result(t, n)
           case Ok(v) => Rendered(ps[1..], n, out + Show(v))
           case Err(e) => Err(e)
           case Panic => Panic
  }

  lemma {:induction false} ExpandEscaped(t: string, i: nat, s: string, rest: string, ev: string -> Outcome<int>,
      out: string)
    requires i <= |t| && t[i..] == Escape(s) + rest
    ensures i + |Escape(s)| <= |t| && t[i + |Escape(s)|..] == rest
    ensures ExpandFrom(t, i, ev, out) == ExpandFrom(t, i + |Escape(s)|, ev, out + s)
    decreases |s|
  {
    if s == "" {
      assert out + s == out;
    } else {
      var width := if Brace(s[0]) then 2 else 1;
      var tail := Escape(s[1..]);
      assert t[i] == t[i..][0] == s[0] && (width == 2 ==> t[i + 1] == t[i..][1] == s[0]);
      assert t[i + width..] == t[i..][width..] == tail + rest;
      ExpandEscaped(t, i + width, s[1..], rest, ev, out + [s[0]]);
      assert out + [s[0]] + s[1..] == out + s;
    }
  }

  lemma {:induction false} TextHasNoBraces(ts: seq<Tok>, ws: seq<string>, gaps: seq<string>)
    requires Words(ts, ws) && Gaps(ts, gaps) && Lexable(ts)
    ensures '{' !in Text(ws, gaps) && '}' !in Text(ws, gaps)
    decreases |ts|
  {
    assert Blank(gaps[0]);
    if ts != [] {
      LexableTail(ts, ws, gaps);
      TextHasNoBraces(ts[1..], ws[1..], gaps[1..]);
    }
  }

  lemma {:induction false} CloseAt(t: string, i: nat, j: nat)
    requires i <= j < |t| && t[j] == '}' && '}' !in t[i..j]
    ensures Close(t, i) == j
    decreases j - i
  {
    if i < j {
      assert t[i] == t[i..j][0];
      assert t[i + 1..j] == t[i..j][1..];
      CloseAt(t, i + 1, j);
    }
  }

  /** Going on behind an expression, if it has a value. */
  function ThenExpand(t: string, next: nat, ev: string -> Outcome<int>, r: Outcome<int>, out: string): Outcome<string>
    requires next <= |t|
  {
    match r
    case Ok(v) => ExpandFrom(t, next, ev, out + Show(v))
    case Err(e) => Err(e)
    case Panic => Panic
  }

  lemma ExpandExpression(t: string, i: nat, e: string, rest: string, ev: string -> Outcome<int>, out: string)
    requires i <= |t| && t[i..] == "{" + (e + "}") + rest && '{' !in e && '}' !in e
    ensures var next := i + |e| + 2;
            && next <= |t| && t[next..] == rest
            && ExpandFrom(t, i, ev, out) == ThenExpand(t, next, ev, ev(e), out)
  {
    hide Show;
    var j := i + 1 + |e|;
    assert t[i..] == "{" + (e + ("}" + rest));
    Split(t, i, "{", e, "}" + rest);
    assert t[i] == t[i..i + 1][0] && t[j] == t[j..][0] && t[j + 1..] == t[j..][1..];
    assert t[i + 1..j] == e;
    assert e != "" ==> t[i + 1] == e[0];
    CloseAt(t, i + 1, j);
  }

  /** Going on behind the parts, if they have all been rendered. */
  function ThenRest(t: string, i: nat, ev: string -> Outcome<int>, r: Outcome<string>): Outcome<string>
    requires i <= |t|
  {
    match r
    case Ok(out) => ExpandFrom(t, i, ev, out)
    case Err(e) => Err(e)
    case Panic => Panic
  }

  lemma {:induction false} TemplateFrom(t: string, i: nat, ps: seq<Part>, rest: string, n: int,
      ev: string -> Outcome<int>, out: string)
    requires AllProper(ps) && i <= |t| && t[i..] == Template(ps) + rest
    requires forall e :: ev(e) == EvalText(e, n)
    ensures |rest| <= |t| && t[|t| - |rest|..] == rest
    ensures ExpandFrom(t, i, ev, out) == ThenRest(t, |t| - |rest|, ev, Rendered(ps, n, out))
    decreases |ps|
  {
    hide Show, EvalText, ExpandFrom, Print, Text, Proper, Escape, Written, Result;
    if ps == [] {
      assert t[i..] == rest;
    } else {
      var (p, tail) := (ps[0], Template(ps[1..]) + rest);
      assert Proper(p);
      assert t[i..] == Written(p) + tail;
      WrittenAs(p);
      if p.Plain? {
        ExpandEscaped(t, i, p.text, tail, ev, out);
        TemplateFrom(t, i + |Escape(p.text)|, ps[1..], rest, n, ev, out + p.text);
      } else {
        var next := ExpandWritten(t, i, p, tail, n, ev, out);
        RestBehind(t, next, Template(ps[1..]), rest);
        if Result(p.tree, n).Ok? { TemplateFrom(t, next, ps[1..], rest, n, ev, out + Show(Result(p.tree, n).value)); }
      }
    }
  }

  lemma RestBehind(t: string, i: nat, a: string, rest: string)
    requires i <= |t| && t[i..] == a + rest
    ensures |rest| <= |t| && t[|t| - |rest|..] == rest
  {
    assert t[i..][|a|..] == rest;
  }

  lemma ExpandWritten(t: string, i: nat, p: Part, rest: string, n: int, ev: string -> Outcome<int>, out: string)
    returns (next: nat)
    requires Proper(p) && p.Expression? && i <= |t| && t[i..] == Written(p) + rest
    requires forall e :: ev(e) == EvalText(e, n)
    ensures next <= |t| && t[next..] == rest
    ensures ExpandFrom(t, i, ev, out) == ThenExpand(t, next, ev, Result(p.tree, n), out)
  {
    hide Show, EvalText, ExpandFrom, Print, Text, Blank, Written, Result;
    WrittenAs(p);
    var e := Text(p.words, p.gaps);
    EvalSpelled(p.tree, p.words, p.gaps, n);
    ExpandExpression(t, i, e, rest, ev, out);
    next := i + |e| + 2;
  }

  lemma ExpandEnd(t: string, ev: string -> Outcome<int>, out: string)
    ensures ExpandFrom(t, |t|, ev, out) == Ok(out)
  {
  }

  lemma WrittenAs(p: Part)
    requires Proper(p)
    ensures p.Plain? ==> Written(p) == Escape(p.text)
    ensures p.Expression? ==>
              Spellable(p.tree) && Words(Print(p.tree, SumLevel), p.words) && Gaps(Print(p.tree, SumLevel), p.gaps)
    ensures p.Expression? ==>
              var e := Text(p.words, p.gaps);
              Written(p) == "{" + (e + "}") && '{' !in e && '}' !in e
  {
    if p.Expression? {
      PrintLexable(p.tree, SumLevel);
      TextHasNoBraces(Print(p.tree, SumLevel), p.words, p.gaps);
    }
  }

  /** Main result: a template of escaped text and spelled expressions expands to the text with the
      values of the expressions in their places. */
  lemma TemplateExpands(ps: seq<Part>, n: int)
    requires AllProper(ps)
    ensures Expansion(Template(ps), n) == Rendered(ps, n, "")
  {
    hide Template, Rendered;
    assert Template(ps)[0..] == Template(ps) + "";
    TemplateFrom(Template(ps), 0, ps, "", n, e => EvalText(e, n), "");
    if Rendered(ps, n, "").Ok? { ExpandEnd(Template(ps), e => EvalText(e, n), Rendered(ps, n, "").value); }
  }

  // ----- placeholders ------------------------------------------------------

  lemma {:induction false} WithoutPairsFrom(t: string, i: nat)
    requires i < |t|
    ensures var w := WithoutPairs(t[i..]);
            if i + 1 < |t| && t[i] == '{' && t[i + 1] == '{' then w == WithoutPairs(t[i + 2..])
            else w == [t[i]] + WithoutPairs(t[i + 1..])
  {
    var s := t[i..];
    assert s[0] == t[i] && s[1..] == t[i + 1..] && (|s| >= 2 ==> s[1] == t[i + 1] && s[2..] == t[i + 2..]);
  }

  lemma {:induction false} PlaceholderFrom(t: string, i: nat, ev: string -> Outcome<int>,
      ev': string -> Outcome<int>, out: string)
    requires i <= |t|
    ensures '{' !in WithoutPairs(t[i..]) ==> ExpandFrom(t, i, ev, out) == ExpandFrom(t, i, ev', out)
    ensures '{' in WithoutPairs(t[i..]) && (forall e :: !ev(e).Ok?) ==> !ExpandFrom(t, i, ev, out).Ok?
    decreases |t| - i
  {
    hide Show;
    if i < |t| {
      WithoutPairsFrom(t, i);
      if (t[i] == '{' || t[i] == '}') && i + 1 < |t| && t[i + 1] == t[i] {
        if t[i] == '}' { WithoutPairsFrom(t, i + 1); }
        PlaceholderFrom(t, i + 2, ev, ev', out + [t[i]]);
      } else if t[i] != '{' && t[i] != '}' {
        PlaceholderFrom(t, i + 1, ev, ev', out + [t[i]]);
      }
    }
  }

  /** Main result: without a placeholder the expansion does not depend on the variable; with one it
      evaluates an expression, so that it cannot succeed when no expression does. */
  lemma PlaceholderIff(t: string, n: int, m: int, ev: string -> Outcome<int>)
    ensures !HasPlaceholder(t) ==> Expansion(t, n) == Expansion(t, m) == ExpandFrom(t, 0, ev, "")
    ensures HasPlaceholder(t) && (forall e :: !ev(e).Ok?) ==> !ExpandFrom(t, 0, ev, "").Ok?
  {
    hide EvalText;
    assert t[0..] == t;
    PlaceholderFrom(t, 0, e => EvalText(e, n), e => EvalText(e, m), "");
    PlaceholderFrom(t, 0, ev, e => EvalText(e, n), "");
  }
}

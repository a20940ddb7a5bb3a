/** Only spelled expressions evaluate: the evaluator accepts no text but those TemplateText speaks of. */
module TemplateGrammar {
  import opened TemplateExpr
  import opened TemplateLaws
  import opened TemplateText
  import opened Wrappers

  // ----- from tokens back to trees -----------------------------------------

  /** Numbers are what the lexer makes. */
  predicate Sane(ts: seq<Tok>) { forall k :: 0 <= k < |ts| && ts[k].Num? ==> 0 <= ts[k].v <= MAX }

  /** From i to `next` the tokens are those of the tree, whose value is v. */
  ghost predicate Holds(ts: seq<Tok>, i: nat, next: nat, t: Tree, level: Level, n: int, v: int) {
    && At(ts, i, Print(t, level)) && i + |Print(t, level)| == next
    && Value(t, n) == Ok(v) && (Sane(ts) ==> Writable(t))
  }

  lemma AtJoin(ts: seq<Tok>, i: nat, a: seq<Tok>, b: seq<Tok>)
    requires At(ts, i, a) && At(ts, i + |a|, b)
    ensures At(ts, i, a + b)
  {
    assert ts[i..i + |a + b|] == ts[i..i + |a|] + ts[i + |a|..i + |a| + |b|];
  }

  lemma AtOne(ts: seq<Tok>, i: nat)
    requires i < |ts|
    ensures At(ts, i, [ts[i]])
  {
  }

  function OpOf(c: char): BinaryOp {
    if c == '+' then Add else if c == '-' then Subtract else if c == '*' then Multiply
    else if c == '/' then Divide else Remainder
  }

  lemma OpSymbol(o: char)
    ensures Additive(Some(o)) || Multiplicative(Some(o)) ==> Symbol(OpOf(o)) == o
    ensures Additive(Some(o)) ==> IsSum(OpOf(o))
    ensures Multiplicative(Some(o)) ==> !IsSum(OpOf(o))
  {
  }

  /** An operator between two read operands. */
  lemma ReadBinary(ts: seq<Tok>, i: nat, m: nat, next: nat, l: Tree, r: Tree, n: int, a: int, b: int, w: int)
    requires m < |ts| && ts[m].Op? && (Additive(Some(ts[m].c)) || Multiplicative(Some(ts[m].c)))
    requires var sum := Additive(Some(ts[m].c));
             && Holds(ts, i, m, l, if sum then SumLevel else ProductLevel, n, a)
             && Holds(ts, m + 1, next, r, if sum then ProductLevel else UnaryLevel, n, b)
    requires Apply(ts[m].c, a, b) == Ok(w)
    ensures var t := Binary(OpOf(ts[m].c), l, r);
            Holds(ts, i, next, t, if Additive(Some(ts[m].c)) then SumLevel else ProductLevel, n, w)
  {
    var t := Binary(OpOf(ts[m].c), l, r);
    OpSymbol(ts[m].c);
    PrintedFlat(t);
    ValueApplied(t, n);
    var sum := Additive(Some(ts[m].c));
    var x := Print(l, if sum then SumLevel else ProductLevel);
    var y := Print(r, if sum then ProductLevel else UnaryLevel);
    hide Print, Value, Apply, At;
    AtOne(ts, m);
    AtJoin(ts, i, x, [ts[m]]);
    AtJoin(ts, i, x + [ts[m]], y);
  }

  lemma {:induction false} SumRead(ts: seq<Tok>, i: nat, n: int) returns (t: Tree)
    requires i <= |ts| && Sum(ts, i, n).Done?
    ensures Holds(ts, i, Sum(ts, i, n).next, t, SumLevel, n, Sum(ts, i, n).v)
    decreases |ts| - i, 3
  {
    hide Product, SumRest, Holds;
    t := ProductRead(ts, i, n);
    var p := Product(ts, i, n);
    AsSum(ts, i, p.next, t, n, p.v);
    t := SumRestRead(ts, i, p.next, t, p.v, n);
  }

  lemma AsSum(ts: seq<Tok>, i: nat, next: nat, t: Tree, n: int, v: int)
    requires Holds(ts, i, next, t, ProductLevel, n, v) && (t.Binary? ==> !IsSum(t.op))
    ensures Holds(ts, i, next, t, SumLevel, n, v)
  {
    PrintedLower(t);
    hide Print, Value, At;
  }

  lemma AsProduct(ts: seq<Tok>, i: nat, next: nat, t: Tree, n: int, v: int)
    requires Holds(ts, i, next, t, UnaryLevel, n, v) && !t.Binary?
    ensures Holds(ts, i, next, t, ProductLevel, n, v)
  {
    PrintedLower(t);
    hide Print, Value, At;
  }

  lemma {:induction false} SumRestRead(ts: seq<Tok>, start: nat, i: nat, l: Tree, v: int, n: int) returns (t: Tree)
    requires start <= i <= |ts| && Holds(ts, start, i, l, SumLevel, n, v) && SumRest(ts, i, v, n).Done?
    ensures Holds(ts, start, SumRest(ts, i, v, n).next, t, SumLevel, n, SumRest(ts, i, v, n).v)
    decreases |ts| - i, 2
  {
    hide Product, Holds, Apply;
    t := l;
    if Additive(OpAt(ts, i)) {
      var r := ProductRead(ts, i + 1, n);
      var p := Product(ts, i + 1, n);
      var w := Apply(ts[i].c, v, p.v).value;
      ReadBinary(ts, start, i, p.next, l, r, n, v, p.v, w);
      t := SumRestRead(ts, start, p.next, Binary(OpOf(ts[i].c), l, r), w, n);
    }
  }

  lemma {:induction false} ProductRead(ts: seq<Tok>, i: nat, n: int) returns (t: Tree)
    requires i <= |ts| && Product(ts, i, n).Done?
    ensures Holds(ts, i, Product(ts, i, n).next, t, ProductLevel, n, Product(ts, i, n).v)
    ensures t.Binary? ==> !IsSum(t.op)
    decreases |ts| - i, 2
  {
    hide Unary, ProductRest, Holds;
    t := UnaryRead(ts, i, n);
    var p := Unary(ts, i, n);
    AsProduct(ts, i, p.next, t, n, p.v);
    t := ProductRestRead(ts, i, p.next, t, p.v, n);
  }

  lemma {:induction false} ProductRestRead(ts: seq<Tok>, start: nat, i: nat, l: Tree, v: int, n: int)
    returns (t: Tree)
    requires start <= i <= |ts| && Holds(ts, start, i, l, ProductLevel, n, v) && ProductRest(ts, i, v, n).Done?
    requires l.Binary? ==> !IsSum(l.op)
    ensures Holds(ts, start, ProductRest(ts, i, v, n).next, t, ProductLevel, n, ProductRest(ts, i, v, n).v)
    ensures t.Binary? ==> !IsSum(t.op)
    decreases |ts| - i, 1
  {
    hide Unary, Holds, Apply;
    t := l;
    if Multiplicative(OpAt(ts, i)) {
      var r := UnaryRead(ts, i + 1, n);
      var p := Unary(ts, i + 1, n);
      var w := Apply(ts[i].c, v, p.v).value;
      ReadBinary(ts, start, i, p.next, l, r, n, v, p.v, w);
      OpSymbol(ts[i].c);
      t := ProductRestRead(ts, start, p.next, Binary(OpOf(ts[i].c), l, r), w, n);
    }
  }

  lemma {:induction false} UnaryRead(ts: seq<Tok>, i: nat, n: int) returns (t: Tree)
    requires i <= |ts| && Unary(ts, i, n).Done?
    ensures Holds(ts, i, Unary(ts, i, n).next, t, UnaryLevel, n, Unary(ts, i, n).v) && !t.Binary?
    decreases |ts| - i, 1
  {
    hide Holds, Atom;
    if OpAt(ts, i) == Some('-') {
      var x := UnaryRead(ts, i + 1, n);
      var p := Unary(ts, i + 1, n);
      ReadNegate(ts, i, p.next, x, n, p.v);
      t := Negate(x);
    } else {
      t := AtomRead(ts, i, n);
    }
  }

  lemma ReadNegate(ts: seq<Tok>, i: nat, next: nat, x: Tree, n: int, v: int)
    requires i < |ts| && ts[i] == Op('-') && Holds(ts, i + 1, next, x, UnaryLevel, n, v) && Fits(-v)
    ensures Holds(ts, i, next, Negate(x), UnaryLevel, n, -v)
  {
    var t := Negate(x);
    assert Print(t, UnaryLevel) == [ts[i]] + Print(x, UnaryLevel) && Value(t, n) == Ok(-v);
    hide Print, Value, At;
    AtOne(ts, i);
    AtJoin(ts, i, [ts[i]], Print(x, UnaryLevel));
  }

  lemma {:induction false} AtomRead(ts: seq<Tok>, i: nat, n: int) returns (t: Tree)
    requires i <= |ts| && Atom(ts, i, n).Done?
    ensures Holds(ts, i, Atom(ts, i, n).next, t, UnaryLevel, n, Atom(ts, i, n).v) && !t.Binary?
    decreases |ts| - i, 0
  {
    hide Sum;
    match ts[i]
    case Num(v) => t := Literal(v);
    case N => t := Variable;
    case Op(_) =>
      hide Holds;
      var x := SumRead(ts, i + 1, n);
      var p := Sum(ts, i + 1, n);
      ReadGrouped(ts, i, p.next, x, n, p.v);
      t := Grouped(x);
  }

  lemma ReadGrouped(ts: seq<Tok>, i: nat, m: nat, x: Tree, n: int, v: int)
    requires i < |ts| && ts[i] == Op('(') && m < |ts| && ts[m] == Op(')')
    requires Holds(ts, i + 1, m, x, SumLevel, n, v)
    ensures Holds(ts, i, m + 1, Grouped(x), UnaryLevel, n, v)
  {
    var t := Grouped(x);
    assert Print(t, UnaryLevel) == [ts[i]] + Print(x, SumLevel) + [ts[m]] && Value(t, n) == Ok(v);
    hide Print, Value, At;
    AtOne(ts, i);
    AtOne(ts, m);
    AtJoin(ts, i, [ts[i]], Print(x, SumLevel));
    AtJoin(ts, i, [ts[i]] + Print(x, SumLevel), [ts[m]]);
  }

  /** Main result on tokens: what has a value is a printed tree with that value. */
  lemma TokensRead(ts: seq<Tok>, n: int) returns (t: Tree)
    requires EvalTokens(ts, n).Ok?
    ensures Print(t, SumLevel) == ts && Value(t, n) == EvalTokens(ts, n) && (Sane(ts) ==> Writable(t))
  {
    hide Sum, Print, Value;
    t := SumRead(ts, 0, n);
    assert ts[0..|ts|] == ts;
  }

  // ----- from text back to tokens ------------------------------------------

  lemma {:induction false} LexedBack(s: string, i: nat, out: seq<Tok>)
    returns (ts: seq<Tok>, ws: seq<string>, gaps: seq<string>)
    requires i <= |s| && LexFrom(s, i, out).Ok?
    ensures LexFrom(s, i, out) == Ok(out + ts) && Sane(ts)
    ensures Words(ts, ws) && Gaps(ts, gaps) && s[i..] == Text(ws, gaps)
    decreases |s| - i, 0
  {
    hide Decimal;
    if i == |s| {
      ts, ws, gaps := [], [], [""];
      assert out + ts == out;
    } else if Space(s[i]) {
      ts, ws, gaps := LexedBack(s, i + 1, out);
      GapBack(s, i, ts, ws, gaps);
      gaps := [[s[i]] + gaps[0]] + gaps[1..];
    } else if Digit(s[i]) {
      var e := DigitsEnd(s, i + 1);
      ts, ws, gaps := WordBack(s, i, e, Num(Decimal(s[i..e])), out);
    } else if s[i] == 'n' {
      ts, ws, gaps := WordBack(s, i, i + 1, N, out);
    } else {
      ts, ws, gaps := WordBack(s, i, i + 1, Op(s[i]), out);
    }
  }

  lemma {:induction false} WordBack(s: string, i: nat, e: nat, tok: Tok, out: seq<Tok>)
    returns (ts: seq<Tok>, ws: seq<string>, gaps: seq<string>)
    requires i < e <= |s| && LexFrom(s, e, out + [tok]).Ok? && Spells(tok, s[i..e])
    requires tok.Num? ==> 0 <= tok.v <= MAX
    ensures LexFrom(s, e, out + [tok]) == Ok(out + ts) && Sane(ts)
    ensures Words(ts, ws) && Gaps(ts, gaps) && s[i..] == Text(ws, gaps)
    decreases |s| - e, 1
  {
    hide Spells, LexFrom;
    var ts', ws', gaps' := LexedBack(s, e, out + [tok]);
    ts, ws, gaps := [tok] + ts', [s[i..e]] + ws', [""] + gaps';
    assert out + [tok] + ts' == out + ts;
    assert ws[1..] == ws' && gaps[1..] == gaps';
    assert s[i..] == s[i..e] + s[e..];
  }

  lemma GapBack(s: string, i: nat, ts: seq<Tok>, ws: seq<string>, gaps: seq<string>)
    requires i < |s| && Space(s[i]) && Words(ts, ws) && Gaps(ts, gaps) && s[i + 1..] == Text(ws, gaps)
    ensures var more := [[s[i]] + gaps[0]] + gaps[1..]; Gaps(ts, more) && s[i..] == Text(ws, more)
  {
    hide Spells;
    var more := [[s[i]] + gaps[0]] + gaps[1..];
    assert Blank(gaps[0]) && more[1..] == gaps[1..];
    assert s[i..] == [s[i]] + s[i + 1..];
  }

  // ----- the texts that have a value ---------------------------------------

  /** The words spell the tree, which has this mathematical value. */
  ghost predicate Spelling(s: string, n: int, v: int, t: Tree, ws: seq<string>, gaps: seq<string>) {
    && Words(Print(t, SumLevel), ws) && Gaps(Print(t, SumLevel), gaps) && s == Text(ws, gaps)
    && Writable(t) && Representable(t, n) && Exact(t, n) == v
  }

  lemma WritableSpellable(t: Tree)
    ensures Writable(t) ==> Spellable(t)
  {
  }

  lemma SpelledEvaluates(s: string, n: int, v: int, t: Tree, ws: seq<string>, gaps: seq<string>)
    requires Fits(n) && Spelling(s, n, v, t, ws, gaps)
    ensures EvalText(s, n) == Ok(v)
  {
    WritableSpellable(t);
    ValueIsExact(t, n);
    EvalSpelled(t, ws, gaps, n);
    hide Print, Value, Exact, EvalText;
  }

  lemma EvaluatedSpells(s: string, n: int) returns (t: Tree, ws: seq<string>, gaps: seq<string>)
    requires Fits(n) && EvalText(s, n).Ok?
    ensures Spelling(s, n, EvalText(s, n).value, t, ws, gaps)
  {
    hide EvalTokens, LexFrom, Print, Value, Exact, Spells, Text;
    var ts;
    ts, ws, gaps := LexedBack(s, 0, []);
    assert [] + ts == ts && s[0..] == s;
    t := TokensRead(ts, n);
    ValueIsExact(t, n);
  }

  /** Main result: a text has a value exactly when it is an expression, with any white space, parentheses and
      zeros in front of its numbers, all whose parts have mathematical values that fit; and that is it. */
  lemma EvaluatesIff(s: string, n: int, v: int)
    requires Fits(n)
    ensures EvalText(s, n) == Ok(v) <==> exists t, ws, gaps :: Spelling(s, n, v, t, ws, gaps)
  {
    hide EvalText, Spelling;
    if EvalText(s, n) == Ok(v) {
      var t, ws, gaps := EvaluatedSpells(s, n);
    }
    if t, ws, gaps :| Spelling(s, n, v, t, ws, gaps) { SpelledEvaluates(s, n, v, t, ws, gaps); }
  }
}

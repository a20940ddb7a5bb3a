/** What text a value becomes in an expanded template, and that the values can be read back from it. */
module TemplateReads {
  import G = TemplateGrammar
  import opened TemplateExpr
  import opened TemplateLaws
  import opened TemplateText

  // ----- decimal text ------------------------------------------------------

  function Pow10(n: nat): nat { if n == 0 then 1 else 10 * Pow10(n - 1) }

  /** A digit stands for as many powers of ten as there are digits behind it. */
  lemma {:induction false} DecimalPlaces(a: string, b: string)
    ensures Decimal(a + b) == Decimal(a) * Pow10(|b|) + Decimal(b)
    decreases |b|
  {
    if b == "" {
      assert a + b == a;
    } else {
      var (front, c) := (b[..|b| - 1], b[|b| - 1]);
      DecimalPlaces(a, front);
      Snoc(a + front, c);
      Snoc(front, c);
      assert a + b == a + front + [c] && b == front + [c];
      Tenfold(Decimal(a), Pow10(|front|));
      hide Decimal;
    }
  }

  lemma Snoc(s: string, c: char)
    ensures Decimal(s + [c]) == 10 * Decimal(s) + Decimal([c])
  {
    assert (s + [c])[..|s|] == s && [c][..0] == "";
  }

  lemma Tenfold(d: nat, p: nat)
    ensures d * (10 * p) == 10 * (d * p)
  {
  }

  /** Digits that stand for v, with no zero in front but for 0 itself. */
  predicate Numerates(s: string, v: nat) {
    && s != "" && (forall i :: 0 <= i < |s| ==> '0' <= s[i] <= '9')
    && (|s| > 1 ==> s[0] != '0') && Decimal(s) == v
  }

  /** The text is v in decimal, with a minus exactly for a negative one. */
  predicate Shows(s: string, v: int) {
    if v < 0 then s != "" && s[0] == '-' && Numerates(s[1..], -v) else Numerates(s, v)
  }

  lemma {:induction false} NoZeroInFront(v: nat)
    ensures Digits(v) != "" && (v > 0 ==> Digits(v)[0] != '0') && (|Digits(v)| > 1 ==> v >= 10)
  {
    if v >= 10 {
      NoZeroInFront(v / 10);
    } else {
      assert Digits(v) == [(v as char) + '0'];
    }
  }

  lemma DigitsNumerate(v: nat)
    ensures Numerates(Digits(v), v)
  {
    DigitsAre(v);
    NoZeroInFront(v);
    hide Digits, Decimal;
  }

  /** A value is shown in decimal. */
  lemma ShownAs(v: int)
    ensures Shows(Show(v), v)
  {
    hide Digits, Numerates;
    DigitsNumerate(if v < 0 then -v else v);
    if v < 0 { assert Show(v)[1..] == Digits(-v); }
  }

  // ----- and back ----------------------------------------------------------

  function Numeral(v: int): Tree { if v < 0 then Negate(Literal(-v)) else Literal(v) }

  function NumeralWords(v: int): seq<string> { if v < 0 then ["-", Digits(-v)] else [Digits(v)] }

  function NoSpace(n: nat): seq<string> { seq(n, i => "") }

  lemma NumeralText(v: int)
    ensures Spellable(Numeral(v))
    ensures var (ts, ws) := (Print(Numeral(v), SumLevel), NumeralWords(v));
            Words(ts, ws) && Gaps(ts, NoSpace(|ws| + 1)) && Text(ws, NoSpace(|ws| + 1)) == Show(v)
  {
    DigitsAre(if v < 0 then -v else v);
    hide Digits, Decimal;
    var (ws, d) := (NumeralWords(v), Digits(if v < 0 then -v else v));
    assert Text([], NoSpace(1)) == "";
    assert NoSpace(2)[1..] == NoSpace(1) && [d][1..] == [] && Text([d], NoSpace(2)) == d;
    if v < 0 { assert NoSpace(3)[1..] == NoSpace(2) && ws[1..] == [d]; }
  }

  lemma NumeralValue(v: int, n: int)
    requires MIN <= v <= MAX
    ensures Result(Numeral(v), n) == if v > MIN then Ok(v) else Err(TooLarge)
  {
    if v < 0 {
      assert Value(Literal(-v), n) == Ok(-v);
      assert Writable(Literal(-v)) <==> v > MIN;
    }
  }

  /** Main result: the text of every value but the smallest evaluates to that value. (The smallest is refused,
      as `LeastLiteralRefused` says.) */
  lemma ShowEvaluates(v: int, n: int)
    requires MIN <= v <= MAX
    ensures if v > MIN then EvalText(Show(v), n) == Ok(v) else EvalText(Show(v), n) == Err(TooLarge)
  {
    hide Print, EvalText, Text, Gaps, Words, Show;
    NumeralText(v);
    NumeralValue(v, n);
    EvalSpelled(Numeral(v), NumeralWords(v), NoSpace(|NumeralWords(v)| + 1), n);
  }

  // ----- expanded templates ------------------------------------------------

  /** The text is made of the literal parts and, where an expression was, its mathematical value. */
  ghost predicate Reads(text: string, ps: seq<Part>, n: int)
    decreases |ps|
  {
    if ps == [] then text == ""
    else
      exists k: nat :: k <= |text| && PartReads(text[..k], ps[0], n) && Reads(text[k..], ps[1..], n)
  }

  ghost predicate PartReads(text: string, p: Part, n: int) {
    match p
    case Plain(s) => text == s
    case Expression(t, _, _) => Defined(t, n) && Shows(text, Exact(t, n))
  }

  /** Every expression can be written, and has a value that fits. */
  ghost predicate AllValued(ps: seq<Part>, n: int) {
    forall p :: p in ps && p.Expression? ==> Writable(p.tree) && Representable(p.tree, n)
  }

  lemma ReadsMore(text: string, x: string, p: Part, ps: seq<Part>, n: int)
    requires PartReads(x, p, n) && Reads(text, ps, n)
    ensures Reads(x + text, [p] + ps, n)
  {
    hide PartReads;
    var all := x + text;
    assert all[..|x|] == x && all[|x|..] == text && ([p] + ps)[1..] == ps;
  }

  lemma AllValuedParts(p: Part, ps: seq<Part>, n: int)
    ensures AllValued([p] + ps, n)
            <==> (p.Expression? ==> Writable(p.tree) && Representable(p.tree, n)) && AllValued(ps, n)
  {
    if AllValued([p] + ps, n) { assert p in [p] + ps; assert forall q :: q in ps ==> q in [p] + ps; }
  }

  lemma {:induction false} RenderedReads(ps: seq<Part>, n: int, out: string) returns (text: string)
    requires AllProper(ps) && Fits(n)
    ensures Rendered(ps, n, out).Ok? <==> AllValued(ps, n)
    ensures AllValued(ps, n) ==> Rendered(ps, n, out) == Ok(out + text) && Reads(text, ps, n)
    decreases |ps|
  {
    hide Representable, Writable, Exact, Defined, Shows, Show, AllValued, Reads, Gaps, Words;
    if ps == [] {
      text := "";
      NothingReads(n);
      assert out + text == out;
    } else {
      var (p, rest) := (ps[0], ps[1..]);
      assert ps == [p] + rest && Proper(p);
      AllValuedParts(p, rest, n);
      if p.Plain? {
        var more := RenderedReads(rest, n, out + p.text);
        text := p.text + more;
        assert out + p.text + more == out + text;
        if AllValued(rest, n) { ReadsMore(more, p.text, p, rest, n); }
      } else {
        ResultIs(p.tree, n);
        if Result(p.tree, n).Ok? {
          var x := Show(Result(p.tree, n).value);
          var more := RenderedReads(rest, n, out + x);
          text := x + more;
          assert out + x + more == out + text;
          ShownAs(Result(p.tree, n).value);
          if AllValued(rest, n) { ReadsMore(more, x, p, rest, n); }
        } else {
          text := "";
        }
      }
    }
  }

  lemma NothingReads(n: int)
    ensures AllValued([], n) && Reads("", [], n)
  {
  }

  lemma ResultIs(t: Tree, n: int)
    requires Fits(n)
    ensures Result(t, n).Ok? <==> Writable(t) && Representable(t, n)
    ensures Result(t, n).Ok? ==> Defined(t, n) && Result(t, n).value == Exact(t, n)
  {
    hide Value, Exact;
    if Writable(t) { ValueIsExact(t, n); }
  }

  /** Main result: a template expands exactly when all its expressions have values that fit, and then to a text
      in which the literal parts stand as they are and each value in decimal. */
  lemma ExpansionReads(ps: seq<Part>, n: int)
    requires AllProper(ps) && Fits(n)
    ensures Expansion(Template(ps), n).Ok? <==> AllValued(ps, n)
    ensures AllValued(ps, n) ==> Reads(Expansion(Template(ps), n).value, ps, n)
  {
    hide Expansion, Template, Rendered, AllValued, Reads, AllProper;
    TemplateExpands(ps, n);
    var text := RenderedReads(ps, n, "");
    assert "" + text == text;
  }

  // ----- only one text -----------------------------------------------------

  lemma {:induction false} DecimalFits(s: string)
    requires forall i :: 0 <= i < |s| ==> '0' <= s[i] <= '9'
    ensures Decimal(s) < Pow10(|s|)
    ensures s != "" && s[0] != '0' ==> Decimal(s) >= Pow10(|s| - 1)
    decreases |s|
  {
    if s != "" {
      var front := s[..|s| - 1];
      DecimalFits(front);
      assert s == front + [s[|s| - 1]];
      if front == "" { assert Decimal(s) == (s[0] - '0') as nat; }
    }
  }

  lemma {:induction false} Pow10Grows(a: nat, b: nat)
    requires a <= b
    ensures 0 < Pow10(a) <= Pow10(b)
    decreases b
  {
    if a < b { Pow10Grows(a, b - 1); } else if b > 0 { Pow10Grows(a - 1, b - 1); }
  }

  lemma LastDigit(a: string)
    requires a != "" && '0' <= a[|a| - 1] <= '9'
    ensures Decimal(a) == 10 * Decimal(a[..|a| - 1]) + (a[|a| - 1] - '0') as nat && (a[|a| - 1] - '0') as nat < 10
  {
  }

  lemma SameChar(c: char, d: char)
    requires '0' <= c <= '9' && '0' <= d <= '9' && (c - '0') as nat == (d - '0') as nat
    ensures c == d
  {
  }

  lemma {:induction false} SameDigits(a: string, b: string)
    requires |a| == |b| && Decimal(a) == Decimal(b)
    requires forall i :: 0 <= i < |a| ==> '0' <= a[i] <= '9' && '0' <= b[i] <= '9'
    ensures a == b
    decreases |a|
  {
    hide Decimal;
    if a != "" {
      var (x, y) := (a[..|a| - 1], b[..|b| - 1]);
      LastDigit(a);
      LastDigit(b);
      SameChar(a[|a| - 1], b[|b| - 1]);
      SameDigits(x, y);
      assert a == x + [a[|a| - 1]] && b == y + [b[|b| - 1]];
    }
  }

  lemma SameLength(a: string, b: string, v: nat)
    requires Numerates(a, v) && Numerates(b, v)
    ensures |a| <= |b|
  {
    DecimalFits(a);
    DecimalFits(b);
    if |a| > |b| { Pow10Grows(|b|, |a| - 1); }
  }

  /** There is only one decimal text of a value. */
  lemma ShownOnce(a: string, b: string, v: int)
    requires Shows(a, v) && Shows(b, v)
    ensures a == b
  {
    hide Decimal;
    var (x, y, w) := if v < 0 then (a[1..], b[1..], -v) else (a, b, v);
    SameLength(x, y, w);
    SameLength(y, x, w);
    SameDigits(x, y);
    if v < 0 { assert a == ['-'] + x && b == ['-'] + y; }
  }

  lemma {:induction false} ReadsOnce(a: string, b: string, ps: seq<Part>, n: int)
    requires Reads(a, ps, n) && Reads(b, ps, n)
    ensures a == b
    decreases |ps|
  {
    hide PartReads;
    if ps != [] {
      var i: nat :| i <= |a| && PartReads(a[..i], ps[0], n) && Reads(a[i..], ps[1..], n);
      var j: nat :| j <= |b| && PartReads(b[..j], ps[0], n) && Reads(b[j..], ps[1..], n);
      PartReadsOnce(a[..i], b[..j], ps[0], n);
      ReadsOnce(a[i..], b[j..], ps[1..], n);
      assert a == a[..i] + a[i..] && b == b[..j] + b[j..];
    }
  }

  lemma PartReadsOnce(a: string, b: string, p: Part, n: int)
    requires PartReads(a, p, n) && PartReads(b, p, n)
    ensures a == b
  {
    hide Shows, Exact;
    if p.Expression? { ShownOnce(a, b, Exact(p.tree, n)); }
  }

  // ----- every template ----------------------------------------------------

  /** The template is written from these parts, whose expressions all have values. */
  ghost predicate WrittenFrom(t: string, ps: seq<Part>, n: int) {
    AllProper(ps) && AllValued(ps, n) && Template(ps) == t
  }

  lemma WrittenMore(p: Part, ps: seq<Part>, t: string, n: int)
    requires WrittenFrom(t, ps, n) && Proper(p)
    requires p.Expression? ==> Writable(p.tree) && Representable(p.tree, n)
    ensures WrittenFrom(Written(p) + t, [p] + ps, n)
  {
    hide Written, Proper, AllValued;
    AllValuedParts(p, ps, n);
    assert ([p] + ps)[1..] == ps;
  }

  lemma {:induction false} ExpandedBack(t: string, i: nat, n: int, ev: string -> Outcome<int>, out: string)
    returns (ps: seq<Part>)
    requires i <= |t| && Fits(n) && ExpandFrom(t, i, ev, out).Ok? && forall e :: ev(e) == EvalText(e, n)
    ensures WrittenFrom(t[i..], ps, n)
    decreases |t| - i
  {
    hide WrittenFrom, EvalText, Show, Written;
    if i == |t| {
      ps := [];
      NothingWritten(n);
    } else if (t[i] == '{' || t[i] == '}') && i + 1 < |t| && t[i + 1] == t[i] {
      var more := ExpandedBack(t, i + 2, n, ev, out + [t[i]]);
      PlainChar(t[i]);
      WrittenMore(Plain([t[i]]), more, t[i + 2..], n);
      assert t[i..] == [t[i], t[i]] + t[i + 2..];
      ps := [Plain([t[i]])] + more;
    } else if t[i] == '{' {
      var j := Close(t, i + 1);
      var e := t[i + 1..j];
      var more := ExpandedBack(t, j + 1, n, ev, out + Show(ev(e).value));
      var tree, ws, gaps := G.EvaluatedSpells(e, n);
      ExpressionPart(e, n, tree, ws, gaps);
      WrittenMore(Expression(tree, ws, gaps), more, t[j + 1..], n);
      assert t[i..] == "{" + (e + "}") + t[j + 1..];
      ps := [Expression(tree, ws, gaps)] + more;
    } else {
      var more := ExpandedBack(t, i + 1, n, ev, out + [t[i]]);
      PlainChar(t[i]);
      WrittenMore(Plain([t[i]]), more, t[i + 1..], n);
      assert t[i..] == [t[i]] + t[i + 1..];
      ps := [Plain([t[i]])] + more;
    }
  }

  lemma NothingWritten(n: int)
    ensures WrittenFrom("", [], n)
  {
  }

  lemma PlainChar(c: char)
    ensures Proper(Plain([c])) && Written(Plain([c])) == if Brace(c) then [c, c] else [c]
  {
    assert [c][1..] == "" && Escape("") == "";
    assert Escape([c]) == (if Brace(c) then [c, c] else [c]) + Escape("");
  }

  lemma ExpressionPart(e: string, n: int, t: Tree, ws: seq<string>, gaps: seq<string>)
    requires EvalText(e, n).Ok? && G.Spelling(e, n, EvalText(e, n).value, t, ws, gaps)
    ensures var p := Expression(t, ws, gaps);
            Proper(p) && Written(p) == "{" + (e + "}") && Writable(t) && Representable(t, n)
  {
    G.WritableSpellable(t);
    hide EvalText, Print, Representable;
  }

  /** Main result: a template expands to a text exactly when it is written from literal parts, their braces
      doubled, and expressions in braces that all have values that fit, and the text has these values in decimal
      in their places. */
  lemma ExpandsIff(t: string, n: int, text: string)
    requires Fits(n)
    ensures Expansion(t, n) == Ok(text) <==> exists ps :: WrittenFrom(t, ps, n) && Reads(text, ps, n)
  {
    hide Reads, AllValued, AllProper, Template;
    if Expansion(t, n).Ok? {
      assert t[0..] == t;
      var ps := ExpandedBack(t, 0, n, e => EvalText(e, n), "");
      ExpansionReads(ps, n);
    }
    if ps :| WrittenFrom(t, ps, n) && Reads(text, ps, n) {
      ExpansionReads(ps, n);
      ReadsOnce(text, Expansion(t, n).value, ps, n);
    }
  }
}

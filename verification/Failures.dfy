/** One concrete input for each place where the code does not do what a reader would expect. When it
    does is stated, for all inputs, by the lemma named with each. */
module Failures {
  import opened MachineInts
  import opened Wrappers
  import C = Consts
  import opened DepGraph
  import F = ForCount
  import ForLimits
  import O = ForOrbits
  import R = Retain
  import S = Statements
  import SR = StringRoutines
  import TE = TemplateExpr
  import TL = TemplateLaws
  import TT = TemplateText
  import opened TypeResolution
  import Types = TypeLayouts
  import SubrangeBases
  import T = IntTyping

  // ----- integers ----------------------------------------------------------

  /** LINT#-1 = ULINT#18446744073709551615 holds and LINT#-1 < ULINT#0 does not: -1 is taken for
      the largest value (IntTyping.MixedAt64). */
  lemma MinusOneIsLargest()
    ensures var (minusOne, largest) := (Val(64, Modulus(64) - 1), Val(64, Modulus(64) - 1));
            && T.Read(minusOne, Some(T.Lint)) == -1 && T.Read(largest, Some(T.Ulint)) == 18446744073709551615
            && T.CompileCmp(T.Eq, minusOne, Some(T.Lint), largest, Some(T.Ulint))
            && !T.CompileCmp(T.Lt, minusOne, Some(T.Lint), Val(64, 0), Some(T.Ulint))
  {
  }

  /** BYTE#5 > -1 does not hold when -1 has the 32 bits of an untyped expression
      (IntTyping.NegativeUntyped). */
  lemma FiveBelowMinusOne()
    ensures var (five, minusOne) := (Val(8, 5), Val(32, Modulus(32) - 1));
            && T.Read(five, Some(T.Byte)) == 5 && T.Read(minusOne, None) == -1
            && !T.CompileCmp(T.Gt, five, Some(T.Byte), minusOne, None)
  {
  }

  /** LINT#-4 / ULINT#2 is 9223372036854775806 (IntTyping.OperatorExact). */
  lemma NegativeQuotient()
    ensures var minusFour := Val(64, Modulus(64) - 4);
            && T.Read(minusFour, Some(T.Lint)) == -4
            && T.CompileBin(T.Div, minusFour, Some(T.Lint), Val(64, 2), Some(T.Ulint))
               == T.Computed(Val(64, 9223372036854775806))
  {
  }

  function Constant(w: Width, v: nat, t: T.IntTy): S.Rvalue {
    S.Rvalue(st => Val(w, v), Some(t), Some(v))
  }

  /** FOR b := from TO bound BY step DO END_FOR over a BYTE. */
  function ByteLoop(from: nat, bound: S.Rvalue, step: Option<S.Rvalue>): S.Stmt {
    S.For("b", T.Byte, Constant(8, from, T.Byte), bound, step, [])
  }

  lemma {:induction false} EmptyTame(s: S.Stmt, to: Val, step: Val, st: S.Store, rv: S.ResultVar, fuel: nat)
    requires s.For? && s.body == []
    ensures F.Tame(s, to, step, st, rv, fuel)
    decreases fuel
  {
    hide S.WithinBound, S.Advanced, F.Control;
    if fuel > 0 { EmptyTame(s, to, step, S.Advanced(S.Head(s), st, step), rv, fuel - 1); }
  }

  lemma EmptyKeeps(s: S.Stmt, to: Val, step: Val, st: S.Store, rv: S.ResultVar)
    requires s.For? && s.body == []
    ensures F.Keeps(s, to, step, st, rv)
  {
    hide F.Tame;
    forall fuel: nat ensures F.Tame(s, to, step, st, rv, fuel) { EmptyTame(s, to, step, st, rv, fuel); }
  }

  lemma {:induction false} EmptyFinishes(s: S.Stmt, step: Val, st: S.Store, rv: S.ResultVar, n: nat)
    requires s.For? && s.body == []
    ensures O.FinishesRounds(s, step, st, rv, n)
    decreases n
  {
    hide S.Advanced;
    if n > 0 {
      assert S.ExecBody(s.body, st, rv, 0) == S.Normal(st);
      EmptyFinishes(s, step, S.Advanced(S.Head(s), st, step), rv, n - 1);
    }
  }

  /** FOR b := 250 TO 255 over a BYTE never ends (ForLimits.DefaultStepEnds). */
  lemma ByteLoopNeverEnds(st: S.Store, rv: S.ResultVar, fuel: nat)
    ensures S.Exec(ByteLoop(250, Constant(8, 255, T.Byte), None), st, rv, fuel) == S.OutOfFuel
  {
    var s := ByteLoop(250, Constant(8, 255, T.Byte), None);
    var start := S.Put(st, "b", T.Byte, Val(8, 250), Some(T.Byte));
    EmptyKeeps(s, Val(8, 255), S.StepValue(s, start), start, rv);
    hide S.WithinBound, S.Advanced, S.Put, F.Keeps;
    if !S.Exec(s, st, rv, fuel).OutOfFuel? { ForLimits.DefaultStepEnds(s, st, rv); }
  }

  /** FOR b := 0 TO 300 over a BYTE never ends (ForLimits.UnitStops). */
  lemma BoundBeyondType(st: S.Store, rv: S.ResultVar, fuel: nat)
    ensures S.Exec(ByteLoop(0, S.Rvalue(_ => Val(32, 300), None, Some(300)), None), st, rv, fuel) == S.OutOfFuel
  {
    var s := ByteLoop(0, S.Rvalue(_ => Val(32, 300), None, Some(300)), None);
    var start := S.Put(st, "b", T.Byte, Val(8, 0), Some(T.Byte));
    EmptyKeeps(s, Val(32, 300), Val(8, 1), start, rv);
    hide S.WithinBound, S.Advanced, S.Put, F.Keeps;
    ForLimits.NeverEnds(s, Val(32, 300), Val(8, 1), start, rv);
    F.ExecIs(s, st, rv);
    hide S.Exec;
    assert !O.RoundsEnd(s, Val(32, 300), Val(8, 1), start, rv);
  }

  function Tens(): S.Stmt { ByteLoop(0, Constant(8, 250, T.Byte), Some(Constant(8, 10, T.Byte))) }

  lemma TensValue(j: nat)
    requires j <= 51
    ensures O.Value(T.Byte, 0, 10, j) == F.Wrapped(T.Byte, j * 10) == 10 * j % 256
  {
    O.ValueIs(T.Byte, 0, 10, j);
  }

  lemma TensAdmit(c: int)
    requires 0 <= c < 256
    ensures O.Admits(Tens(), Val(8, 250), Val(8, 10), c) <==> c <= 250
  {
  }

  lemma TensStop()
    ensures O.StopsAfter(Tens(), Val(8, 250), Val(8, 10), 0, 51)
  {
    hide O.StopsAfter, O.Value, O.Admits, F.Wrapped;
    forall j: nat | j <= 51 ensures O.Value(T.Byte, 0, 10, j) == 10 * j % 256 { TensValue(j); }
    forall c: int | 0 <= c < 256 ensures O.Admits(Tens(), Val(8, 250), Val(8, 10), c) <==> c <= 250 { TensAdmit(c); }
    O.StopsIff(Tens(), Val(8, 250), Val(8, 10), 0, 51);
  }

  function TensStart(st: S.Store): S.Store { S.Put(st, "b", T.Byte, Val(8, 0), Some(T.Byte)) }

  lemma TensParts(st: S.Store, rv: S.ResultVar, fuel: nat)
    ensures var (s, start) := (Tens(), TensStart(st));
            && s.For? && ValidVal(s.from.eval(st)) && T.InType(T.Read(s.from.eval(st), s.from.ty), s.xt)
            && s.xt == T.Byte && start == S.Put(st, s.x, s.xt, s.from.eval(st), s.from.ty)
            && s.to.eval(st) == Val(8, 250) && S.StepValue(s, start) == Val(8, 10)
            && F.Stepped(s, Val(8, 250), Val(8, 10)) && F.Control(s, start) == 0
            && T.Read(s.from.eval(st), s.from.ty) == 0 && T.Read(Val(8, 10), S.StepType(s)) == 10
            && S.Exec(s, st, rv, fuel) == S.ExecFor(s, Val(8, 250), Val(8, 10), start, rv, fuel)
  {
    hide S.Put, S.ExecFor;
    F.StartsAt(Tens(), st);
  }

  lemma TensEnd(st: S.Store, rv: S.ResultVar)
    ensures O.Ends(Tens(), st, rv)
  {
    hide S.Exec, F.Keeps, F.Control, F.Stepped, O.StopsAfter, O.FinishesRounds, O.Ends, TensStart, T.Read, S.StepType;
    var (s, to, step, start) := (Tens(), Val(8, 250), Val(8, 10), TensStart(st));
    TensParts(st, rv, 0);
    EmptyKeeps(s, to, step, start, rv);
    EmptyFinishes(s, step, start, rv, 51);
    TensStop();
    hide Tens;
    assert O.Stops(s, to, step, start, rv, 51);
    O.ForEndsIff(s, st, rv);
  }

  /** FOR b := 0 TO 250 BY 10 over a BYTE does not end after the 26 rounds up to 250: the next value is not
      260 but 4, and it takes 25 more to stop at 254 (ForCount.ForCountCorrect, ForOrbits.ForVisits). */
  lemma TensGoOn(st: S.Store, rv: S.ResultVar, fuel: nat)
    ensures O.Ends(Tens(), st, rv)
    ensures var o := S.Exec(Tens(), st, rv, fuel);
            var values := F.Visits(Tens(), Val(8, 250), Val(8, 10), TensStart(st), rv, fuel);
            !o.OutOfFuel? ==>
              |values| == 51 && values[26] == 4 && o.Normal? && F.Control(Tens(), o.st) == 254
  {
    hide S.Exec, S.ExecFor, F.Tame, F.Control, F.Visits, F.Stepped, F.Wrapped, O.StopsAfter, O.Ends, TensStart;
    hide T.Read, S.StepType, T.InType;
    TensEnd(st, rv);
    if !S.Exec(Tens(), st, rv, fuel).OutOfFuel? {
      TensParts(st, rv, fuel);
      EmptyTame(Tens(), Val(8, 250), Val(8, 10), TensStart(st), rv, fuel);
      TensStop();
      var k := O.ForVisits(Tens(), st, rv, fuel);
      O.StopsOnce(Tens(), Val(8, 250), Val(8, 10), 0, k, 51);
      TensValue(26);
      TensValue(51);
    }
  }

  // ----- TYPE --------------------------------------------------------------

  lemma OneResolves(d: TypeDecl, reg: Registry)
    requires Types.Complete(ResolveDecl(d, reg))
    ensures Register([d], reg) == Resolved(reg[Key(d) := ResolveDecl(d, reg)])
  {
    hide ResolveDecl, FirstUnresolved;
    Types.DuplicateIff([d]);
    assert [d][..0] == [];
    assert Pass([], reg) == (reg, []);
    assert Pass([d], reg) == (reg[Key(d) := ResolveDecl(d, reg)], []);
  }

  lemma TwoResolve(d: TypeDecl, e: TypeDecl, reg: Registry)
    requires Key(d) != Key(e) && Types.Complete(ResolveDecl(d, reg))
    requires Types.Complete(ResolveDecl(e, reg[Key(d) := ResolveDecl(d, reg)]))
    ensures var r := reg[Key(d) := ResolveDecl(d, reg)];
            Register([d, e], reg) == Resolved(r[Key(e) := ResolveDecl(e, r)])
  {
    hide ResolveDecl, FirstUnresolved;
    Types.DuplicateIff([d, e]);
    var r := reg[Key(d) := ResolveDecl(d, reg)];
    assert [d, e][..1] == [d] && [d][..0] == [];
    assert Pass([], reg) == (reg, []);
    assert Pass([d], reg) == (r, []);
    assert Pass([d, e], reg) == (r[Key(e) := ResolveDecl(e, r)], []);
  }

  lemma NamesUsed()
    ensures Fold("A") == "A" && Fold("S") == "S" && Fold("T") == "T" && Fold("X") == "X"
    ensures Elementary("T").None? && Elementary("X").None? && Elementary("DINT") == Some(Basic("DINT"))
  {
    assert Fold("A") == "A" && Fold("S") == "S" && Fold("T") == "T" && Fold("X") == "X";
    assert Fold("DINT") == "DINT";
  }

  /** TYPE A : X(0..5); */
  function NoSuch(): TypeDecl { TypeDecl("A", SubrangeOf("X", 0, 5)) }

  /** It resolves, to a subrange of INT, and has no declared layout
      (SubrangeBases.SucceedsIffDropped, SubrangeBases.DeclaredLayouts). */
  lemma UndeclaredBaseResolves(depth: nat)
    ensures Register([NoSuch()], map[]) == Resolved(map["A" := Subrange(Basic("INT"), 0, 5)])
    ensures Types.ExpandName(SubrangeBases.Declared([NoSuch()], map[]), "A", depth).None?
  {
    hide Register, Fold, Elementary;
    NamesUsed();
    var d := NoSuch();
    assert [d][..0] == [];
    var u := SubrangeBases.Declared([d], map[]);
    assert u.env.Keys == {"A"} && u.env["A"] == d;
    if depth > 0 {
      assert Types.ExpandName(u, "X", depth - 1).None?;
      assert Types.Expand(u, d.spec, depth - 1).None?;
      assert Types.ExpandDecl(u, d, depth - 1).None?;
    }
    assert ResolveDecl(d, map[]) == Subrange(Basic("INT"), 0, 5);
    OneResolves(d, map[]);
  }

  function Outer(): TypeDecl { TypeDecl("S", StructOf([FieldSpec("f", SubrangeOf("T", 0, 5))])) }

  function Inner(): TypeDecl { TypeDecl("T", Named("DINT")) }

  function OuterTy(base: string): Ty { Struct([Member("f", Subrange(Basic(base), 0, 5))]) }

  lemma OuterIs(reg: Registry)
    requires "T" in reg ==> reg["T"] == Basic("DINT")
    ensures ResolveDecl(Outer(), reg) == OuterTy(if "T" in reg then "DINT" else "INT")
    ensures Types.Complete(ResolveDecl(Outer(), reg))
  {
    hide Fold, Elementary;
    NamesUsed();
    assert Resolve(Outer().spec, reg).fields == OuterTy(if "T" in reg then "DINT" else "INT").fields;
    Types.FieldsComplete(ResolveDecl(Outer(), reg), 0);
    assert Types.Complete(Basic("INT")) && Types.Complete(Basic("DINT"));
  }

  /** TYPE S : STRUCT f : T(0..5); END_STRUCT; T : DINT; resolves with f a subrange of INT, and in the
      other order with f a subrange of DINT (SubrangeBases.DeclaredLayouts, SubrangeBases.OrderMatters). */
  lemma OrderOfFieldMatters()
    ensures Register([Outer(), Inner()], map[]) == Resolved(map["S" := OuterTy("INT"), "T" := Basic("DINT")])
    ensures Register([Inner(), Outer()], map[]) == Resolved(map["T" := Basic("DINT"), "S" := OuterTy("DINT")])
  {
    hide Register, Fold, Elementary, OuterTy;
    NamesUsed();
    OuterIs(map[]);
    OuterIs(map["T" := Basic("DINT")]);
    assert forall reg :: ResolveDecl(Inner(), reg) == Basic("DINT");
    TwoResolve(Outer(), Inner(), map[]);
    TwoResolve(Inner(), Outer(), map[]);
  }

  // ----- strings and templates ---------------------------------------------

  /** RIGHT of "AB" with the least DINT is "AB" and not "" (StringRoutines.RightExact). */
  lemma RightOfLeast()
    ensures SR.RightPart([65, 66], SR.I32_MIN) == [65, 66] && SR.Right([65, 66], SR.I32_MIN) == []
  {
    SR.RightExact([65, 66], SR.I32_MIN);
  }

  /** REPLACE at the least DINT starts behind the end of "AB" and not at its first character
      (StringRoutines.PositionExact). */
  lemma ReplaceAtLeast()
    ensures SR.ReplaceAt([65, 66], SR.I32_MIN) == 2 && SR.Position([65, 66], SR.I32_MIN) == 0
  {
    SR.PositionExact([65, 66], SR.I32_MIN);
  }

  /** MID of "AB" from position 0 reads at index -1, and from position 4 at index 3, behind the NUL
      (StringRoutines.MidWithin). */
  lemma MidOutside()
    ensures SR.MidStart(0) == -1 && !SR.Within(SR.MidStart(0), [65, 66])
    ensures SR.MidStart(4) == 3 && !SR.Within(SR.MidStart(4), [65, 66])
  {
    SR.MidWithin([65, 66], 0);
  }

  /** REPLACE in "AB" of 2147483647 characters from position 2 goes on at index -2147483648
      (StringRoutines.TailWithin). */
  lemma TailOutside()
    ensures SR.ReplaceAt([65, 66], 2) == 1 && SR.ReplaceTail([65, 66], SR.I32_MAX, 1) == SR.I32_MIN
    ensures !SR.Within(SR.ReplaceTail([65, 66], SR.I32_MAX, 1), [65, 66])
  {
    SR.TailWithin([65, 66], SR.I32_MAX, 1);
  }

  lemma NoDigits()
    ensures TE.Decimal("") == 0
  {
  }

  lemma Digit(s: string, c: char, t: string, v: nat, d: nat)
    requires t == s + [c] && TE.Decimal(s) == v && d < 10 && c == d as char + '0'
    ensures TE.Decimal(t) == 10 * v + d
  {
    assert t[..|t| - 1] == s;
  }

  lemma LargestTenth()
    ensures TE.Decimal("922337203685477580") == 922337203685477580
  {
    hide TE.Decimal;
    NoDigits();
    Digit("", '9', "9", 0, 9);
    Digit("9", '2', "92", 9, 2);
    Digit("92", '2', "922", 92, 2);
    Digit("922", '3', "9223", 922, 3);
    Digit("9223", '3', "92233", 9223, 3);
    Digit("92233", '7', "922337", 92233, 7);
    Digit("922337", '2', "9223372", 922337, 2);
    Digit("9223372", '0', "92233720", 9223372, 0);
    Digit("92233720", '3', "922337203", 92233720, 3);
    Digit("922337203", '6', "9223372036", 922337203, 6);
    Digit("9223372036", '8', "92233720368", 9223372036, 8);
    Digit("92233720368", '5', "922337203685", 92233720368, 5);
    Digit("922337203685", '4', "9223372036854", 922337203685, 4);
    Digit("9223372036854", '7', "92233720368547", 9223372036854, 7);
    Digit("92233720368547", '7', "922337203685477", 92233720368547, 7);
    Digit("922337203685477", '5', "9223372036854775", 922337203685477, 5);
    Digit("9223372036854775", '8', "92233720368547758", 9223372036854775, 8);
    Digit("92233720368547758", '0', "922337203685477580", 92233720368547758, 0);
  }

  lemma LargestNumbers()
    ensures TE.Decimal("9223372036854775807") == TE.MAX
    ensures TE.Decimal("9223372036854775808") == TE.MAX + 1
    ensures TE.Decimal("1") == 1
  {
    hide TE.Decimal;
    NoDigits();
    LargestTenth();
    Digit("", '1', "1", 0, 1);
    Digit("922337203685477580", '7', "9223372036854775807", 922337203685477580, 7);
    Digit("922337203685477580", '8', "9223372036854775808", 922337203685477580, 8);
  }

  function MinByMinusOne(): TL.Tree {
    TL.Binary(TL.Divide,
      TL.Grouped(TL.Binary(TL.Subtract, TL.Negate(TL.Literal(TE.MAX)), TL.Literal(1))),
      TL.Negate(TL.Literal(1)))
  }

  function NoGaps(n: nat): seq<string> { seq(n, i => "") }

  /** The words one behind the other. */
  function Closed(ws: seq<string>): string { if ws == [] then "" else ws[0] + Closed(ws[1..]) }

  lemma {:induction false} WithoutGaps(ws: seq<string>)
    ensures TT.Text(ws, NoGaps(|ws| + 1)) == Closed(ws)
  {
    if ws != [] {
      WithoutGaps(ws[1..]);
      assert NoGaps(|ws| + 1)[1..] == NoGaps(|ws|);
    }
  }

  lemma MinByMinusOneValue(n: int)
    ensures TL.Value(MinByMinusOne(), n) == TE.Panic
  {
    var t := MinByMinusOne();
    assert TL.Value(t.left.inner.left, n) == TE.Ok(-TE.MAX) && TL.Value(t.left.inner.right, n) == TE.Ok(1);
    assert TL.Value(t.left.inner, n) == TE.Ok(TE.MIN);
    assert TL.Value(t.left, n) == TE.Ok(TE.MIN);
    assert TL.Value(t.right.operand, n) == TE.Ok(1);
    assert TL.Value(t.right, n) == TE.Ok(-1);
  }

  lemma MinByMinusOneTokens()
    ensures TL.Print(MinByMinusOne(), TL.SumLevel)
            == [TE.Op('('), TE.Op('-'), TE.Num(TE.MAX), TE.Op('-'), TE.Num(1), TE.Op(')'), TE.Op('/'), TE.Op('-'),
                TE.Num(1)]
  {
    var t := MinByMinusOne();
    var d := t.left.inner;
    assert TL.Print(d.left, TL.SumLevel) == [TE.Op('-'), TE.Num(TE.MAX)];
    assert TL.Print(d.right, TL.ProductLevel) == [TE.Num(1)];
    assert TL.Print(d, TL.SumLevel) == [TE.Op('-'), TE.Num(TE.MAX), TE.Op('-'), TE.Num(1)];
    assert TL.Print(t.left, TL.ProductLevel)
           == [TE.Op('('), TE.Op('-'), TE.Num(TE.MAX), TE.Op('-'), TE.Num(1), TE.Op(')')];
    assert TL.Print(t.right, TL.UnaryLevel) == [TE.Op('-'), TE.Num(1)];
  }

  function MinByMinusOneWords(): seq<string> { ["(", "-", "9223372036854775807", "-", "1", ")", "/", "-", "1"] }

  lemma NothingClosed()
    ensures Closed([]) == ""
  {
  }

  lemma Close(w: string, rest: seq<string>, tail: string, ws: seq<string>, text: string)
    requires Closed(rest) == tail && ws == [w] + rest && text == w + tail
    ensures Closed(ws) == text
  {
    assert ws[1..] == rest;
  }

  lemma DividedClosed()
    ensures Closed([")", "/", "-", "1"]) == ")/-1"
  {
    hide Closed;
    NothingClosed();
    Close("1", [], "", ["1"], "1");
    Close("-", ["1"], "1", ["-", "1"], "-1");
    Close("/", ["-", "1"], "-1", ["/", "-", "1"], "/-1");
    Close(")", ["/", "-", "1"], "/-1", [")", "/", "-", "1"], ")/-1");
  }

  lemma MinByMinusOneClosed()
    ensures Closed(MinByMinusOneWords()) == "(-9223372036854775807-1)/-1"
  {
    hide Closed;
    DividedClosed();
    var (one, less) := (["1", ")", "/", "-", "1"], ["-", "1", ")", "/", "-", "1"]);
    Close("1", [")", "/", "-", "1"], ")/-1", one, "1)/-1");
    Close("-", one, "1)/-1", less, "-1)/-1");
    Close("9223372036854775807", less, "-1)/-1", ["9223372036854775807"] + less, "9223372036854775807-1)/-1");
    MinusAndOpen(["9223372036854775807"] + less, "9223372036854775807-1)/-1");
    assert ["(", "-"] + (["9223372036854775807"] + less) == MinByMinusOneWords();
  }

  lemma MinusAndOpen(ws: seq<string>, s: string)
    requires Closed(ws) == s
    ensures Closed(["(", "-"] + ws) == "(-" + s
  {
    hide Closed;
    Close("-", ws, s, ["-"] + ws, "-" + s);
    assert ["("] + (["-"] + ws) == ["(", "-"] + ws && "(" + ("-" + s) == "(-" + s;
    Close("(", ["-"] + ws, "-" + s, ["(", "-"] + ws, "(-" + s);
  }

  lemma MinByMinusOneSpelled()
    ensures TL.Spellable(MinByMinusOne()) && TL.Writable(MinByMinusOne())
    ensures TT.Words(TL.Print(MinByMinusOne(), TL.SumLevel), MinByMinusOneWords())
  {
    LargestNumbers();
    MinByMinusOneTokens();
    hide TL.Print, TE.Decimal;
  }

  /** This text panics (TemplateLaws.ValueIsExact). */
  lemma MinByMinusOnePanics(n: int)
    ensures TE.EvalText("(-9223372036854775807-1)/-1", n) == TE.Panic
  {
    var (t, ws) := (MinByMinusOne(), MinByMinusOneWords());
    MinByMinusOneTokens();
    MinByMinusOneSpelled();
    MinByMinusOneValue(n);
    MinByMinusOneClosed();
    WithoutGaps(ws);
    hide TL.Print, TL.Value, TL.Spellable, TL.Writable, TE.EvalText, TT.Words, TT.Text, Closed, MinByMinusOne;
    TT.EvalSpelled(t, ws, NoGaps(10), n);
  }

  lemma LeastLiteralSpelled()
    ensures var t := TL.Negate(TL.Literal(9223372036854775808));
            && TL.Spellable(t) && !TL.Writable(t)
            && TT.Words(TL.Print(t, TL.SumLevel), ["-", "9223372036854775808"]) && |TL.Print(t, TL.SumLevel)| == 2
  {
    LargestNumbers();
    var t := TL.Negate(TL.Literal(9223372036854775808));
    assert TL.Print(t, TL.SumLevel) == [TE.Op('-'), TE.Num(9223372036854775808)];
    hide TL.Print, TE.Decimal;
  }

  /** This text is refused, though it is a 64-bit value (TemplateText.TooLargeIff). */
  lemma LeastLiteralRefused(n: int)
    requires TE.Fits(n)
    ensures TE.EvalText("-9223372036854775808", n) == TE.Err(TE.TooLarge)
    ensures TL.Exact(TL.Negate(TL.Literal(9223372036854775808)), n) == TE.MIN
  {
    var (t, ws) := (TL.Negate(TL.Literal(9223372036854775808)), ["-", "9223372036854775808"]);
    LeastLiteralSpelled();
    hide TL.Print, TL.Spellable, TL.Writable, TE.EvalText, TT.Words, TT.Text, Closed;
    WithoutGaps(ws);
    NothingClosed();
    Close("9223372036854775808", [], "", ["9223372036854775808"], "9223372036854775808");
    Close("-", ["9223372036854775808"], "9223372036854775808", ws, "-9223372036854775808");
    TT.TooLargeIff(t, ws, NoGaps(3), n);
  }

  // ----- RETAIN ------------------------------------------------------------

  /** A program with one region of 2^32 bytes cannot restore its own snapshot
      (Retain.OwnSnapshotAccepted). */
  lemma HugeRegionLost(m: seq<R.Byte>, sig: nat)
    requires |m| == R.U32 && sig < R.U32
    ensures R.Check(R.Snapshot(m, [R.Region(0, R.U32)], sig), [R.Region(0, R.U32)], sig) != R.Restored
  {
    hide R.Check, R.Snapshot;
    R.OwnSnapshotAccepted(m, [R.Region(0, R.U32)], sig);
    assert [R.Region(0, R.U32)][0].size >= R.U32;
  }

  // ----- constants ---------------------------------------------------------

  /** POU A: CONSTANT C := B.D + 1. */
  function UsesB(): seq<C.VarBlock> {
    [C.VarBlock(true, [C.Decl("C", Some(C.Binary(C.Add, C.Member("B", "D"), C.Literal(1))))])]
  }

  /** With B.D = 1 the constant is 2 inside A and has no value for the table A.C is taken from
      (ConstScopes.OnlyInside). */
  lemma OnlyInsideA()
    ensures C.Least(UsesB(), map[], map[]) && C.Least(UsesB(), map["B.D" := 1], map["B.D" := 1, "C" := 2])
  {
    var d := UsesB()[0].declarations[0];
    UsesOnlyD(d);
    forall s: C.Table | C.Within(map["B.D" := 1], s) ensures C.Init(d, s) == Some(2) {
      assert C.Eval(d.init.value.left, s) == Some(1) && C.Eval(d.init.value.right, s) == Some(1);
    }
    assert C.Init(d, map[]).None? by { assert C.Eval(d.init.value.left, map[]).None?; }
    hide C.Declares, C.Key, C.Init;
    var u := map["B.D" := 1, "C" := 2];
    assert C.Within(map["B.D" := 1], u);
    assert C.Supported(UsesB(), map["B.D" := 1], u);
  }

  lemma UsesOnlyD(d: C.Decl)
    requires d == UsesB()[0].declarations[0]
    ensures C.Key(d) == "C" && C.MemberKey("B", "D") == "B.D"
    ensures forall e :: C.Declares(UsesB(), e) <==> e == d
  {
    assert C.Key(d) == "C" && C.MemberKey("B", "D") == "B.D";
    assert C.Declares(UsesB(), d);
  }

  /** A local K := 2 below a global K = 1 is 1 (ConstScopes.ShadowingIff). */
  lemma ShadowedKeepsOuter()
    ensures var (bs, t) := ([C.VarBlock(true, [C.Decl("K", Some(C.Literal(2)))])], map["K" := 1]);
            C.Least(bs, t, t) && C.Init(bs[0].declarations[0], t) == Some(2) && C.Lookup(t, "K") == Some(1)
  {
    assert C.Key(C.Decl("K", Some(C.Literal(2)))) == "K";
  }
}

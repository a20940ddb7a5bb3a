/** The results on FOR loops and on expressions, carried over to the blocks they are lowered to. */
module Lowered {
  import opened ForCount
  import opened Fuel
  import opened Lowering
  import opened MachineInts
  import opened Statements
  import opened Wrappers
  import T = IntTyping

  // ----- the rounds of a lowered FOR ---------------------------------------

  /** From the body block the n steps are one round: the body, as the statements say, and the increment. */
  ghost predicate Round(g: seq<Block>, s: Stmt, step: Val, rv: ResultVar, c: Config, n: nat, fuel: nat)
    requires s.For?
  {
    var o := ExecBody(s.body, c.st, rv, fuel);
    (o.Normal? || o.Continued?) && Run(g, c, n).st == Advanced(Head(s), o.st, step)
  }

  /** From the bound test on, the run makes one round from the body block for each of the values, with the
      control variable at it, and comes back to the test; after the last it goes on behind the loop. */
  ghost predicate Passes(g: seq<Block>, s: Stmt, l: Layout, q: Point, to: Val, step: Val, rv: ResultVar, c: Config,
      values: seq<int>)
    requires s.For? && l.LFor?
    decreases values
  {
    var d := Run(g, c, 1);
    && ForReady(l, to, step, c) && d.st == c.st
    && if values == [] then !WithinBound(Head(s), c.st, to, step) && At(d, q)
       else
         && WithinBound(Head(s), c.st, to, step) && At(d, Start(l.bodyB)) && Control(s, c.st) == values[0]
         && exists n: nat, fuel: nat ::
              Round(g, s, step, rv, d, n, fuel) && Passes(g, s, l, q, to, step, rv, Run(g, d, n), values[1..])
  }

  /** What a round leads to is settled by where it starts. */
  lemma RoundOnce(g: seq<Block>, s: Stmt, step: Val, rv: ResultVar, c: Config, c': Config, n: nat, n': nat,
      fuel: nat, fuel': nat)
    requires s.For? && c.st == c'.st
    requires Round(g, s, step, rv, c, n, fuel) && Round(g, s, step, rv, c', n', fuel')
    ensures Run(g, c, n).st == Run(g, c', n').st
  {
    hide Run, ExecBody, Advanced;
    if fuel <= fuel' { BodyMore(s.body, c.st, rv, fuel, fuel'); } else { BodyMore(s.body, c.st, rv, fuel', fuel); }
  }

  /** A run passes one list of values only. */
  lemma {:induction false} PassesOnce(g: seq<Block>, s: Stmt, l: Layout, q: Point, to: Val, step: Val, rv: ResultVar,
      c: Config, c': Config, values: seq<int>, values': seq<int>)
    requires s.For? && l.LFor? && c.st == c'.st
    requires Passes(g, s, l, q, to, step, rv, c, values) && Passes(g, s, l, q, to, step, rv, c', values')
    ensures values == values'
    decreases values
  {
    hide Run, Round, Control, WithinBound;
    if values != [] {
      var (d, d') := (Run(g, c, 1), Run(g, c', 1));
      var n: nat, fuel: nat :| Round(g, s, step, rv, d, n, fuel)
                               && Passes(g, s, l, q, to, step, rv, Run(g, d, n), values[1..]);
      var n': nat, fuel': nat :| Round(g, s, step, rv, d', n', fuel')
                                 && Passes(g, s, l, q, to, step, rv, Run(g, d', n'), values'[1..]);
      RoundOnce(g, s, step, rv, d, d', n, n', fuel, fuel');
      PassesOnce(g, s, l, q, to, step, rv, Run(g, d, n), Run(g, d', n'), values[1..], values'[1..]);
      assert values == [values[0]] + values[1..] && values' == [values'[0]] + values'[1..];
    }
  }

  lemma TestPasses(g: seq<Block>, x: Ctx, lo: nat, s: Stmt, l: Layout, p: Point, q: Point, to: Val, step: Val,
      c: Config)
    requires s.For? && l.LFor? && Realizes(g, x, lo, s, l, p, q) && ForReady(l, to, step, c)
    ensures var d := Run(g, c, 1);
            && d.st == c.st && RegVal(d.regs, l.to) == to && OperandVal(d.regs, l.step) == step
            && At(d, if WithinBound(Head(s), c.st, to, step) then Start(l.bodyB) else q)
  {
    hide BodyRealized, Step, Run, WithinBound, ForEntry;
    Fork(g, c, Start(l.head), Bound(Head(s), l.to, l.step), l.bodyB, l.end);
  }

  /** A round of the blocks: from the body block through the increment back to the test. */
  lemma RoundPasses(g: seq<Block>, x: Ctx, lo: nat, s: Stmt, l: Layout, p: Point, q: Point, to: Val, step: Val,
      c: Config, fuel: nat) returns (n: nat)
    requires s.For? && l.LFor? && Realizes(g, x, lo, s, l, p, q)
    requires At(c, Start(l.bodyB)) && RegVal(c.regs, l.to) == to && OperandVal(c.regs, l.step) == step
    requires var o := ExecBody(s.body, c.st, x.result, fuel); o.Normal? || o.Continued?
    ensures ForReady(l, to, step, Run(g, c, n))
    ensures Run(g, c, n).st == Advanced(Head(s), ExecBody(s.body, c.st, x.result, fuel).st, step)
  {
    hide BodyRealized, Step, Run, WithinBound, Advanced, Put;
    var y := x.(exit := Some(l.end), cont := Some(l.inc));
    var lo' := BodyFloor(l);
    n := SimBodyThen(g, y, lo', s.body, l.body, c, l.inc, fuel);
    var e := Run(g, c, n);
    assert Agree(c.regs, e.regs, lo');
    IncrementRuns(g, x, lo, s, l, p, q, e);
    RunSplit(g, c, n, 2);
    n := n + 2;
  }

  lemma IncrementRuns(g: seq<Block>, x: Ctx, lo: nat, s: Stmt, l: Layout, p: Point, q: Point, c: Config)
    requires s.For? && Realizes(g, x, lo, s, l, p, q) && At(c, Start(l.inc))
    ensures Run(g, c, 2) == Config(l.head, 0, Advanced(Head(s), c.st, OperandVal(c.regs, l.step)), c.regs)
  {
    hide Advanced, WithinBound, BodyRealized, ForEntry, Put;
    OneStep(g, c);
    TwoSteps(g, c, 1, Step(g, c));
  }

  lemma NoMore(g: seq<Block>, s: Stmt, l: Layout, q: Point, to: Val, step: Val, rv: ResultVar, c: Config)
    requires s.For? && l.LFor? && ForReady(l, to, step, c) && !WithinBound(Head(s), c.st, to, step)
    requires var d := Run(g, c, 1); d.st == c.st && At(d, q)
    ensures Passes(g, s, l, q, to, step, rv, c, [])
  {
    hide Run, WithinBound;
  }

  lemma OneMore(g: seq<Block>, s: Stmt, l: Layout, q: Point, to: Val, step: Val, rv: ResultVar, c: Config, n: nat,
      fuel: nat, rest: seq<int>)
    requires s.For? && l.LFor? && ForReady(l, to, step, c) && WithinBound(Head(s), c.st, to, step)
    requires var d := Run(g, c, 1);
             && At(d, Start(l.bodyB)) && d.st == c.st && Round(g, s, step, rv, d, n, fuel)
             && Passes(g, s, l, q, to, step, rv, Run(g, d, n), rest)
    ensures Passes(g, s, l, q, to, step, rv, c, [Control(s, c.st)] + rest)
  {
    hide Run, Control, WithinBound, Round;
    assert ([Control(s, c.st)] + rest)[1..] == rest;
  }

  lemma RoundIs(g: seq<Block>, s: Stmt, step: Val, rv: ResultVar, c: Config, n: nat, fuel: nat)
    requires s.For?
    requires ExecBody(s.body, c.st, rv, fuel).Normal? || ExecBody(s.body, c.st, rv, fuel).Continued?
    requires Run(g, c, n).st == Advanced(Head(s), ExecBody(s.body, c.st, rv, fuel).st, step)
    ensures Round(g, s, step, rv, c, n, fuel)
  {
  }

  lemma {:induction false} ForPasses(g: seq<Block>, x: Ctx, lo: nat, s: Stmt, l: Layout, p: Point, q: Point,
      to: Val, step: Val, c: Config, fuel: nat)
    requires s.For? && l.LFor? && Realizes(g, x, lo, s, l, p, q) && ForReady(l, to, step, c)
    requires Runs(s, to, step, c.st, x.result, fuel)
    ensures Passes(g, s, l, q, to, step, x.result, c, Visits(s, to, step, c.st, x.result, fuel))
    decreases fuel
  {
    hide *;
    TestPasses(g, x, lo, s, l, p, q, to, step, c);
    if WithinBound(Head(s), c.st, to, step) {
      BodyTame(s, to, step, c.st, x.result, fuel);
      var d := Run(g, c, 1);
      var n := RoundPasses(g, x, lo, s, l, p, q, to, step, d, fuel);
      RoundIs(g, s, step, x.result, d, n, fuel);
      Unfold(s, to, step, c.st, x.result, fuel);
      ForPasses(g, x, lo, s, l, p, q, to, step, Run(g, d, n), fuel - 1);
      OneMore(g, s, l, q, to, step, x.result, c, n, fuel, Visits(s, to, step, Run(g, d, n).st, x.result, fuel - 1));
    } else {
      UnfoldEnd(s, to, step, c.st, x.result, fuel);
      NoMore(g, s, l, q, to, step, x.result, c);
    }
  }

  /** Main result: if a loop ends, the blocks it is lowered to make their rounds from its body block for
      exactly the values it visits, in order, and for no other list. So they make the counted ones exactly
      on a right course. */
  lemma ForBlocksCount(g: seq<Block>, x: Ctx, lo: nat, s: Stmt, l: Layout, p: Point, q: Point, c: Config,
      fuel: nat, values: seq<int>) returns (k: nat)
    requires s.For? && l.LFor? && Realizes(g, x, lo, s, l, p, q) && At(c, p)
    requires ValidVal(s.from.eval(c.st)) && T.InType(T.Read(s.from.eval(c.st), s.from.ty), s.xt)
    requires var start := Put(c.st, s.x, s.xt, s.from.eval(c.st), s.from.ty);
             Runs(s, s.to.eval(c.st), StepValue(s, start), start, x.result, fuel)
    ensures var start := Put(c.st, s.x, s.xt, s.from.eval(c.st), s.from.ty);
            var (to, step, d) := (s.to.eval(c.st), StepValue(s, start), Run(g, c, k));
            var (w, f) := (CourseOf(s, to, step), T.Read(s.from.eval(c.st), s.from.ty));
            && (Passes(g, s, l, q, to, step, x.result, d, values)
                <==> values == Visits(s, to, step, start, x.result, fuel))
            && (Bounded(s, to, step) ==>
                  (Passes(g, s, l, q, to, step, x.result, d, Progression(f, w.step, Rounds(w, f))) <==> Right(w, f)))
  {
    var start := Put(c.st, s.x, s.xt, s.from.eval(c.st), s.from.ty);
    var (to, step) := (s.to.eval(c.st), StepValue(s, start));
    hide *;
    var d;
    k, d := EntryRuns(g, x, lo, s, l, p, q, c);
    StartsAt(s, c.st);
    ForPasses(g, x, lo, s, l, p, q, to, step, d, fuel);
    var visits := Visits(s, to, step, start, x.result, fuel);
    if Passes(g, s, l, q, to, step, x.result, d, values) {
      PassesOnce(g, s, l, q, to, step, x.result, d, d, values, visits);
    }
    if Bounded(s, to, step) {
      var (w, f) := (CourseOf(s, to, step), T.Read(s.from.eval(c.st), s.from.ty));
      CourseProper(s, to, step);
      VisitsCounted(s, to, step, start, x.result, fuel);
      if Passes(g, s, l, q, to, step, x.result, d, Progression(f, w.step, Rounds(w, f))) {
        PassesOnce(g, s, l, q, to, step, x.result, d, d, Progression(f, w.step, Rounds(w, f)), visits);
      }
    }
  }

  lemma VisitsCounted(s: Stmt, to: Val, step: Val, start: Store, rv: ResultVar, fuel: nat)
    requires s.For? && Bounded(s, to, step) && Runs(s, to, step, start, rv, fuel)
    ensures var (w, c) := (CourseOf(s, to, step), Control(s, start));
            && w.step != 0
            && (Visits(s, to, step, start, rv, fuel) == Progression(c, w.step, Rounds(w, c)) <==> Right(w, c))
  {
    hide Bounded, Runs, Control, Visits, Progression, Rounds, Right, After, ExecFor;
    RoundsJudged(s, to, step, start, rv, fuel);
  }

  lemma EntryRuns(g: seq<Block>, x: Ctx, lo: nat, s: Stmt, l: Layout, p: Point, q: Point, c: Config)
    returns (k: nat, d: Config)
    requires s.For? && l.LFor? && Realizes(g, x, lo, s, l, p, q) && At(c, p)
    ensures var start := Put(c.st, s.x, s.xt, s.from.eval(c.st), s.from.ty);
            d == Run(g, c, k) && d.st == start && ForReady(l, s.to.eval(c.st), StepValue(s, start), d)
  {
    hide Run, Put, StepValue, BodyRealized;
    k, d := ForEntryRuns(g, lo, s, l, p, c);
  }

  // ----- an assignment of an expression ------------------------------------

  /** Main result: a POU whose body is `x := e` runs to its exit with the mathematical value of e in x,
      whenever x can hold it. */
  lemma AssignmentRuns(g: seq<Block>, entry: Point, exit: nat, rv: ResultVar, x: string, xt: T.IntTy, e: T.Expr,
      lo: nat, l: BodyLayout, c: Config)
    requires PouRealized(g, entry, exit, rv, [Assign(x, xt, Compiled(e))], lo, l) && At(c, entry)
    requires T.Exact(e, c.st) && T.Math(e, c.st).Some? && T.InType(T.Math(e, c.st).value, xt)
    ensures exists n, end ::
              Reaches(g, c, exit, n, end) && T.Read(T.Load(end, x, xt), Some(xt)) == T.Math(e, c.st).value
  {
    hide PouRealized, Reaches, Finishes, T.Compile, T.Math, T.Exact, T.Read, Put, T.Load;
    var end := Put(c.st, x, xt, Compiled(e).eval(c.st), Compiled(e).ty);
    AssignmentFinishes(x, xt, e, c.st, rv);
    LoweringCorrect(g, entry, exit, rv, [Assign(x, xt, Compiled(e))], lo, l, c, end);
    var n :| Reaches(g, c, exit, n, end);
    AssignmentStores(x, xt, e, c.st);
  }

  lemma AssignmentFinishes(x: string, xt: T.IntTy, e: T.Expr, st: Store, rv: ResultVar)
    ensures var end := Put(st, x, xt, Compiled(e).eval(st), Compiled(e).ty);
            Finishes([Assign(x, xt, Compiled(e))], st, rv, 0, end)
  {
    hide T.Compile, Put;
    var (s, end) := (Assign(x, xt, Compiled(e)), Put(st, x, xt, Compiled(e).eval(st), Compiled(e).ty));
    assert [s][1..] == [] && Exec(s, st, rv, 0) == Normal(end);
    assert ExecBody([s], st, rv, 0) == ExecBody([], end, rv, 0);
  }

  lemma AssignmentStores(x: string, xt: T.IntTy, e: T.Expr, st: Store)
    requires T.Exact(e, st) && T.Math(e, st).Some? && T.InType(T.Math(e, st).value, xt)
    ensures var end := Put(st, x, xt, Compiled(e).eval(st), Compiled(e).ty);
            T.Read(T.Load(end, x, xt), Some(xt)) == T.Math(e, st).value
  {
    hide T.Compile, T.Math, T.Exact, Modulus, Wrap, Resize;
    T.AssignmentExact(e, st, xt);
    T.ExpressionExact(e, st);
    var v := T.CoerceValue(T.Compile(e, st).v, T.RvalueType(e), xt);
    T.CoerceExact(T.Compile(e, st).v, T.RvalueType(e), xt);
    WrapUnsigned(v.bits, v.w);
  }
}

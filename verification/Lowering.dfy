/** Lowering of structured statements to basic blocks. `Realizes` says which part of a block
    graph a statement became; `LoweringCorrect` proves that such a graph runs exactly as the
    structured semantics says; the class `Compiler` is the builder-moving code generator,
    proved to emit a graph that realizes its input. */
module Lowering {
  import opened Wrappers
  import opened MachineInts
  import opened Statements
  import T = IntTyping

  /** A place in a block: before its instruction `pc`. */
  datatype Point = Point(block: nat, pc: nat)

  function Next(p: Point): Point { Point(p.block, p.pc + 1) }

  /** Where EXIT, CONTINUE and RETURN go. */
  datatype Ctx = Ctx(exit: Option<nat>, cont: Option<nat>, ret: Option<nat>, result: ResultVar)

  // ----- which blocks a statement became -----------------------------------

  datatype BodyLayout = BodyLayout(parts: seq<Layout>, points: seq<Point>)

  datatype Arm = Arm(thenB: nat, elseB: nat, test: Point, body: BodyLayout)

  datatype Layout =
    | LSimple
    | LIf(thenB: nat, elseB: nat, merge: nat, body: BodyLayout, arms: seq<Arm>, els: BodyLayout)
    | LLoop(head: nat, bodyB: nat, end: nat, body: BodyLayout)
    | LFor(head: nat, bodyB: nat, inc: nat, end: nat, from: nat, to: nat, step: Operand, body: BodyLayout)
    | LCase(sel: nat, elseB: nat, end: nat, arms: seq<Arm>, els: BodyLayout)

  ghost predicate InstrAt(g: seq<Block>, p: Point, i: Instr) {
    p.block < |g| && p.pc < |g[p.block].instrs| && g[p.block].instrs[p.pc] == i
  }

  ghost predicate TermAt(g: seq<Block>, p: Point, t: Term) {
    p.block < |g| && p.pc == |g[p.block].instrs| && g[p.block].term == Some(t)
  }

  function Start(b: nat): Point { Point(b, 0) }

  function Last(l: BodyLayout): Point
    requires |l.points| > 0
  {
    l.points[|l.points| - 1]
  }

  /** `s` is the code from p to q; it writes no SSA value below `lo`. */
  ghost predicate Realizes(g: seq<Block>, x: Ctx, lo: nat, s: Stmt, l: Layout, p: Point, q: Point)
    decreases s, 1
  {
    match s
    case Empty => q == p
    case Assign(v, vt, e) => InstrAt(g, p, IAssign(v, vt, e)) && q == Next(p)
    case Exit => x.exit.Some? && TermAt(g, p, Br(x.exit.value))
    case Continue => x.cont.Some? && TermAt(g, p, Br(x.cont.value))
    case Return(None) => x.ret.Some? && TermAt(g, p, Br(x.ret.value))
    case Return(Some(v)) =>
      && x.ret.Some? && x.result.Some?
      && InstrAt(g, p, IAssign(x.result.value.0, x.result.value.1, v))
      && TermAt(g, Next(p), Br(x.ret.value))
    case If(c, t, es, e) =>
      && l.LIf?
      && TermAt(g, p, CondBr(Cond(c), l.thenB, l.elseB))
      && BodyRealized(g, x, lo, t, l.body, Start(l.thenB))
      && TermAt(g, Last(l.body), Br(l.merge))
      && q == Start(l.merge)
      && (es == [] && e.NoElse? ==> l.elseB == l.merge)
      && (es != [] || e.Else? ==> ChainRealized(g, x, lo, s, l))
    case While(c, body) =>
      && l.LLoop?
      && TermAt(g, p, Br(l.head))
      && TermAt(g, Start(l.head), CondBr(Cond(c), l.bodyB, l.end))
      && BodyRealized(g, x.(exit := Some(l.end), cont := Some(l.head)), lo, body, l.body, Start(l.bodyB))
      && TermAt(g, Last(l.body), Br(l.head))
      && q == Start(l.end)
    case Repeat(body, u) =>
      && l.LLoop?
      && TermAt(g, p, Br(l.bodyB))
      && BodyRealized(g, x.(exit := Some(l.end), cont := Some(l.head)), lo, body, l.body, Start(l.bodyB))
      && TermAt(g, Last(l.body), Br(l.head))
      && TermAt(g, Start(l.head), CondBr(Cond(u), l.end, l.bodyB))
      && q == Start(l.end)
    case For(_, _, _, _, _, body) =>
      && l.LFor?
      && ForEntry(g, lo, s, l, p)
      && TermAt(g, Start(l.head), CondBr(Bound(Head(s), l.to, l.step), l.bodyB, l.end))
      && BodyRealized(g, x.(exit := Some(l.end), cont := Some(l.inc)), BodyFloor(l), body, l.body, Start(l.bodyB))
      && TermAt(g, Last(l.body), Br(l.inc))
      && InstrAt(g, Start(l.inc), IAdvance(Head(s), l.step))
      && TermAt(g, Next(Start(l.inc)), Br(l.head))
      && q == Start(l.end)
    case Case(sel, _, _) =>
      && l.LCase? && l.sel >= lo
      && InstrAt(g, p, ISet(l.sel, sel))
      && CaseRealized(g, x, lo, s, l, Next(p))
      && q == Start(l.end)
  }

  /** The values a FOR keeps across its iterations, set before the loop: from, to, the initial
      store, and only then the step. */
  ghost predicate ForEntry(g: seq<Block>, lo: nat, s: Stmt, l: Layout, p: Point)
    requires s.For? && l.LFor?
  {
    && lo <= l.from < l.to
    && InstrAt(g, p, ISet(l.from, s.from))
    && InstrAt(g, Next(p), ISet(l.to, s.to))
    && InstrAt(g, Next(Next(p)), IStoreReg(s.x, s.xt, l.from, s.from.ty))
    && match s.stepBy
       case None => l.step == Konst(Val(T.BitSize(s.xt), 1)) && TermAt(g, Next(Next(Next(p))), Br(l.head))
       case Some(e) =>
         && l.step.Reg? && l.step.r > l.to
         && InstrAt(g, Next(Next(Next(p))), ISet(l.step.r, e))
         && TermAt(g, Next(Next(Next(Next(p)))), Br(l.head))
  }

  /** The first SSA value a FOR body may write. */
  function BodyFloor(l: Layout): nat
    requires l.LFor?
  {
    if l.step.Reg? && l.step.r > l.to then l.step.r + 1 else l.to + 1
  }

  /** Where the i-th ELSIF of an IF is tested (or its ELSE starts, after the last one). */
  function ElsePoint(elseB: nat, arms: seq<Arm>, i: nat): Point
    requires i <= |arms|
  {
    Start(if i == 0 then elseB else arms[i - 1].elseB)
  }

  ghost predicate ArmRealized(g: seq<Block>, x: Ctx, lo: nat, e: Elsif, a: Arm, p: Point, merge: nat)
    decreases e, 0
  {
    && TermAt(g, p, CondBr(Cond(e.cond), a.thenB, a.elseB))
    && BodyRealized(g, x, lo, e.body, a.body, Start(a.thenB))
    && TermAt(g, Last(a.body), Br(merge))
  }

  ghost predicate ArmsRealized(g: seq<Block>, x: Ctx, lo: nat, es: seq<Elsif>, elseB: nat, arms: seq<Arm>, merge: nat)
    decreases es, 0
  {
    && |arms| == |es|
    && forall i :: 0 <= i < |es| ==> ArmRealized(g, x, lo, es[i], arms[i], ElsePoint(elseB, arms, i), merge)
  }

  ghost predicate ChainRealized(g: seq<Block>, x: Ctx, lo: nat, s: Stmt, l: Layout)
    requires s.If? && l.LIf?
    decreases s, 0
  {
    && ArmsRealized(g, x, lo, s.elsifs, l.elseB, l.arms, l.merge)
    && (if s.els.NoElse? then TermAt(g, ElsePoint(l.elseB, l.arms, |l.arms|), Br(l.merge))
        else
          && BodyRealized(g, x, lo, s.els.body, l.els, ElsePoint(l.elseB, l.arms, |l.arms|))
          && TermAt(g, Last(l.els), Br(l.merge)))
  }

  /** The tests of a CASE: all labels of a branch against the selector, which is evaluated once; on to
      the next test, or to the ELSE, if none of them matches. */
  ghost predicate TestRealized(g: seq<Block>, s: Stmt, sel: nat, i: nat, a: Arm)
    requires s.Case? && i < |s.branches|
  {
    if s.branches[i].labels == [] then TermAt(g, a.test, Br(a.elseB))
    else TermAt(g, a.test, CondBr(Labels(s.branches[i].labels, sel, s.selector.ty), a.thenB, a.elseB))
  }

  ghost predicate TestsLinked(arms: seq<Arm>, first: Point) {
    && (arms != [] ==> arms[0].test == first)
    && forall i :: 0 <= i < |arms| - 1 ==> arms[i + 1].test == Start(arms[i].elseB)
  }

  ghost predicate CaseRealized(g: seq<Block>, x: Ctx, lo: nat, s: Stmt, l: Layout, first: Point)
    requires s.Case? && l.LCase?
    decreases s, 0
  {
    && |l.arms| == |s.branches|
    && (if l.arms == [] then TermAt(g, first, Br(l.elseB)) else l.arms[|l.arms| - 1].elseB == l.elseB)
    && TestsLinked(l.arms, first)
    && (forall i :: 0 <= i < |s.branches| ==> TestRealized(g, s, l.sel, i, l.arms[i]))
    && (forall i :: 0 <= i < |s.branches| ==>
          && BodyRealized(g, x, lo, s.branches[i].body, l.arms[i].body, Start(l.arms[i].thenB))
          && TermAt(g, Last(l.arms[i].body), Br(l.end)))
    && (if s.els.NoElse? then l.elseB == l.end
        else BodyRealized(g, x, lo, s.els.body, l.els, Start(l.elseB)) && TermAt(g, Last(l.els), Br(l.end)))
  }

  ghost predicate BodyRealized(g: seq<Block>, x: Ctx, lo: nat, ss: seq<Stmt>, l: BodyLayout, p: Point)
    ensures BodyRealized(g, x, lo, ss, l, p) ==> |l.points| > 0
    decreases ss, 0
  {
    && |l.parts| == |ss| && |l.points| == |ss| + 1 && l.points[0] == p
    && forall i :: 0 <= i < |ss| ==> Realizes(g, x, lo, ss[i], l.parts[i], l.points[i], l.points[i + 1])
  }

  // ----- growing a graph keeps what it realizes ----------------------------

  /** Blocks are only appended to, and never after their terminator. */
  ghost predicate Grows(g: seq<Block>, g': seq<Block>) {
    && |g| <= |g'|
    && forall b :: 0 <= b < |g| ==>
         && g[b].instrs <= g'[b].instrs
         && (g[b].term.Some? ==> g'[b] == g[b])
  }

  lemma {:induction false} Stable(g: seq<Block>, g': seq<Block>, x: Ctx, lo: nat, s: Stmt, l: Layout, p: Point,
      q: Point)
    requires Grows(g, g') && Realizes(g, x, lo, s, l, p, q)
    ensures Realizes(g', x, lo, s, l, p, q)
    decreases s, 1
  {
    match s
    case If(_, t, es, e) =>
      BodyStable(g, g', x, lo, t, l.body, Start(l.thenB));
      if es != [] || e.Else? { ChainStable(g, g', x, lo, s, l); }
    case While(_, body) =>
      BodyStable(g, g', x.(exit := Some(l.end), cont := Some(l.head)), lo, body, l.body, Start(l.bodyB));
    case Repeat(body, _) =>
      BodyStable(g, g', x.(exit := Some(l.end), cont := Some(l.head)), lo, body, l.body, Start(l.bodyB));
    case For(_, _, _, _, _, body) =>
      BodyStable(g, g', x.(exit := Some(l.end), cont := Some(l.inc)), BodyFloor(l), body, l.body, Start(l.bodyB));
    case Case(_, _, _) => CaseStable(g, g', x, lo, s, l, Next(p));
    case _ =>
  }

  lemma {:induction false} ChainStable(g: seq<Block>, g': seq<Block>, x: Ctx, lo: nat, s: Stmt, l: Layout)
    requires s.If? && l.LIf? && Grows(g, g') && ChainRealized(g, x, lo, s, l)
    ensures ChainRealized(g', x, lo, s, l)
    decreases s, 0
  {
    ArmsStable(g, g', x, lo, s.elsifs, l.elseB, l.arms, l.merge);
    hide ArmsRealized;
    if s.els.Else? { BodyStable(g, g', x, lo, s.els.body, l.els, ElsePoint(l.elseB, l.arms, |l.arms|)); }
  }

  lemma {:induction false} ArmsStable(g: seq<Block>, g': seq<Block>, x: Ctx, lo: nat, es: seq<Elsif>, elseB: nat,
      arms: seq<Arm>, merge: nat)
    requires Grows(g, g') && ArmsRealized(g, x, lo, es, elseB, arms, merge)
    ensures ArmsRealized(g', x, lo, es, elseB, arms, merge)
    decreases es, 0
  {
    forall i | 0 <= i < |es|
      ensures ArmRealized(g', x, lo, es[i], arms[i], ElsePoint(elseB, arms, i), merge)
    {
      assert ArmRealized(g, x, lo, es[i], arms[i], ElsePoint(elseB, arms, i), merge);
      BodyStable(g, g', x, lo, es[i].body, arms[i].body, Start(arms[i].thenB));
      hide BodyRealized;
    }
  }

  lemma {:induction false} CaseStable(g: seq<Block>, g': seq<Block>, x: Ctx, lo: nat, s: Stmt, l: Layout, first: Point)
    requires s.Case? && l.LCase? && Grows(g, g') && CaseRealized(g, x, lo, s, l, first)
    ensures CaseRealized(g', x, lo, s, l, first)
    decreases s, 0
  {
    forall i | 0 <= i < |s.branches|
      ensures BodyRealized(g', x, lo, s.branches[i].body, l.arms[i].body, Start(l.arms[i].thenB))
      ensures TermAt(g', Last(l.arms[i].body), Br(l.end))
    {
      BodyStable(g, g', x, lo, s.branches[i].body, l.arms[i].body, Start(l.arms[i].thenB));
    }
    forall i | 0 <= i < |s.branches|
      ensures TestRealized(g', s, l.sel, i, l.arms[i])
    {
      assert TestRealized(g, s, l.sel, i, l.arms[i]);
    }
    if s.els.Else? { BodyStable(g, g', x, lo, s.els.body, l.els, Start(l.elseB)); }
    hide BodyRealized, TestRealized;
  }

  lemma {:induction false} BodyStable(g: seq<Block>, g': seq<Block>, x: Ctx, lo: nat, ss: seq<Stmt>, l: BodyLayout,
      p: Point)
    requires Grows(g, g') && BodyRealized(g, x, lo, ss, l, p)
    ensures BodyRealized(g', x, lo, ss, l, p)
    decreases ss, 0
  {
    forall i | 0 <= i < |ss|
      ensures Realizes(g', x, lo, ss[i], l.parts[i], l.points[i], l.points[i + 1])
    {
      Stable(g, g', x, lo, ss[i], l.parts[i], l.points[i], l.points[i + 1]);
    }
  }

  // ----- simulation --------------------------------------------------------

  ghost predicate At(c: Config, p: Point) { c.block == p.block && c.pc == p.pc }

  /** SSA values below `lo` are as they were. */
  ghost predicate Agree(a: Regs, b: Regs, lo: nat) {
    forall r: nat :: r < lo ==> RegVal(a, r) == RegVal(b, r)
  }

  /** A run that has not halted. */
  ghost predicate Live(g: seq<Block>, c: Config) { c.block < |g| && g[c.block].term.Some? }

  /** After n steps from c the machine is where outcome o of code that ends at q belongs. A
      statement that is still looping when its fuel is spent has kept the machine busy for at
      least that many steps. */
  ghost predicate Lands(g: seq<Block>, x: Ctx, lo: nat, q: Point, c: Config, o: Outcome, fuel: nat, n: nat) {
    var d := Run(g, c, n);
    && Agree(c.regs, d.regs, lo)
    && match o
       case Normal(st) => At(d, q) && d.st == st
       case Exited(st) => x.exit.Some? && At(d, Start(x.exit.value)) && d.st == st
       case Continued(st) => x.cont.Some? && At(d, Start(x.cont.value)) && d.st == st
       case Returned(st) => x.ret.Some? && At(d, Start(x.ret.value)) && d.st == st
       case OutOfFuel => n >= fuel && Live(g, d)
  }

  lemma OneStep(g: seq<Block>, c: Config)
    ensures Run(g, c, 1) == Step(g, c)
  {
    assert Run(g, c, 1) == Run(g, Step(g, c), 0);
  }

  /** A branch taken. */
  lemma Jump(g: seq<Block>, c: Config, p: Point, to: nat)
    requires At(c, p) && TermAt(g, p, Br(to))
    ensures Run(g, c, 1) == c.(block := to, pc := 0)
  {
    OneStep(g, c);
  }

  lemma Fork(g: seq<Block>, c: Config, p: Point, t: Test, a: nat, b: nat)
    requires At(c, p) && TermAt(g, p, CondBr(t, a, b))
    ensures Run(g, c, 1) == c.(block := if Decide(t, c) then a else b, pc := 0)
  {
    OneStep(g, c);
  }

  lemma Arrives(g: seq<Block>, x: Ctx, lo: nat, q: Point, c: Config, n: nat, d: Config, fuel: nat)
    requires Run(g, c, n) == d && d.regs == c.regs && At(d, q)
    ensures Lands(g, x, lo, q, c, Normal(d.st), fuel, n)
  {
  }

  /** k steps first, then landing. */
  lemma LandsAfter(g: seq<Block>, x: Ctx, lo: nat, q: Point, c: Config, k: nat, d: Config, lo': nat, o: Outcome,
      fuel': nat, n: nat, fuel: nat)
    requires Run(g, c, k) == d && Agree(c.regs, d.regs, lo) && lo <= lo'
    requires Lands(g, x, lo', q, d, o, fuel', n) && fuel <= fuel' + k
    ensures Lands(g, x, lo, q, c, o, fuel, k + n)
  {
    RunSplit(g, c, k, n);
  }

  lemma {:induction false} SimStmt(g: seq<Block>, x: Ctx, lo: nat, s: Stmt, l: Layout, p: Point, q: Point, c: Config,
      fuel: nat)
    returns (n: nat)
    requires Realizes(g, x, lo, s, l, p, q) && At(c, p)
    ensures Lands(g, x, lo, q, c, Exec(s, c.st, x.result, fuel), fuel, n)
    decreases fuel, s, 3
  {
    hide Put, BodyRealized, ChainRealized, CaseRealized, ForEntry;
    match s
    case Empty => n := 0;
    case Assign(_, _, _) => n := 1; OneStep(g, c);
    case Exit => n := 1; OneStep(g, c);
    case Continue => n := 1; OneStep(g, c);
    case Return(None) => n := 1; OneStep(g, c);
    case Return(Some(_)) =>
      n := 2;
      RunSplit(g, c, 1, 1);
      OneStep(g, c);
      OneStep(g, Step(g, c));
    case If(_, _, _, _) => n := SimIf(g, x, lo, s, l, p, q, c, fuel);
    case While(_, _) =>
      OneStep(g, c);
      n := SimWhile(g, x, lo, s, l, p, q, Step(g, c), fuel);
      LandsAfter(g, x, lo, q, c, 1, Step(g, c), lo, Exec(s, c.st, x.result, fuel), fuel, n, fuel);
      n := 1 + n;
    case Repeat(_, _) =>
      OneStep(g, c);
      n := SimRepeat(g, x, lo, s, l, p, q, Step(g, c), fuel);
      LandsAfter(g, x, lo, q, c, 1, Step(g, c), lo, Exec(s, c.st, x.result, fuel), fuel, n, fuel);
      n := 1 + n;
    case For(_, _, _, _, _, _) => n := SimForStmt(g, x, lo, s, l, p, q, c, fuel);
    case Case(_, _, _) => n := SimCaseStmt(g, x, lo, s, l, p, q, c, fuel);
  }

  lemma {:induction false} SimBody(g: seq<Block>, x: Ctx, lo: nat, ss: seq<Stmt>, l: BodyLayout, p: Point, i: nat,
      c: Config, fuel: nat)
    returns (n: nat)
    requires BodyRealized(g, x, lo, ss, l, p) && i <= |ss| && At(c, l.points[i])
    ensures Lands(g, x, lo, Last(l), c, ExecBody(ss[i..], c.st, x.result, fuel), fuel, n)
    decreases fuel, ss, 1, |ss| - i
  {
    if i == |ss| {
      n := 0;
    } else {
      assert ss[i..][0] == ss[i] && ss[i..][1..] == ss[i + 1..];
      n := SimStmt(g, x, lo, ss[i], l.parts[i], l.points[i], l.points[i + 1], c, fuel);
      var o := Exec(ss[i], c.st, x.result, fuel);
      if o.Normal? {
        var d := Run(g, c, n);
        var m := SimBody(g, x, lo, ss, l, p, i + 1, d, fuel);
        LandsAfter(g, x, lo, Last(l), c, n, d, lo, ExecBody(ss[i + 1..], d.st, x.result, fuel), fuel, m, fuel);
        n := n + m;
      }
    }
  }

  /** A body from its first block, then the branch its last block ends in. */
  lemma {:induction false} SimBodyThen(g: seq<Block>, x: Ctx, lo: nat, ss: seq<Stmt>, l: BodyLayout, c: Config,
      to: nat, fuel: nat)
    returns (n: nat)
    requires BodyRealized(g, x, lo, ss, l, Point(c.block, c.pc))
    requires TermAt(g, Last(l), Br(to))
    ensures Lands(g, x, lo, Start(to), c, ExecBody(ss, c.st, x.result, fuel), fuel, n)
    decreases fuel, ss, 2
  {
    assert ss[0..] == ss;
    n := SimBody(g, x, lo, ss, l, Point(c.block, c.pc), 0, c, fuel);
    var d := Run(g, c, n);
    if ExecBody(ss, c.st, x.result, fuel).Normal? {
      RunSplit(g, c, n, 1);
      OneStep(g, d);
      n := n + 1;
    }
  }

  lemma {:induction false} SimIf(g: seq<Block>, x: Ctx, lo: nat, s: Stmt, l: Layout, p: Point, q: Point, c: Config,
      fuel: nat)
    returns (n: nat)
    requires s.If? && Realizes(g, x, lo, s, l, p, q) && At(c, p)
    ensures Lands(g, x, lo, q, c, Exec(s, c.st, x.result, fuel), fuel, n)
    decreases fuel, s, 1
  {
    hide Run, Step, Lands, BodyRealized, ChainRealized;
    Fork(g, c, p, Cond(s.cond), l.thenB, l.elseB);
    var d := Run(g, c, 1);
    if True(s.cond.eval(c.st)) {
      n := SimBodyThen(g, x, lo, s.thenBody, l.body, d, l.merge, fuel);
    } else if s.elsifs == [] && s.els.NoElse? {
      n := 0;
      RunNone(g, d);
      Arrives(g, x, lo, q, d, 0, d, fuel);
      assert Exec(s, c.st, x.result, fuel) == Normal(c.st);
    } else {
      ChainEnd(g, x, lo, s, l);
      n := SimElse(g, x, lo, s, l, 0, d, fuel);
    }
    LandsAfter(g, x, lo, q, c, 1, d, lo, Exec(s, c.st, x.result, fuel), fuel, n, fuel);
    n := 1 + n;
  }

  lemma RunNone(g: seq<Block>, c: Config)
    ensures Run(g, c, 0) == c
  {
  }

  lemma ChainAt(g: seq<Block>, x: Ctx, lo: nat, s: Stmt, l: Layout, i: nat)
    requires s.If? && l.LIf? && ChainRealized(g, x, lo, s, l) && i < |s.elsifs|
    ensures |l.arms| == |s.elsifs|
    ensures TermAt(g, ElsePoint(l.elseB, l.arms, i), CondBr(Cond(s.elsifs[i].cond), l.arms[i].thenB, l.arms[i].elseB))
    ensures BodyRealized(g, x, lo, s.elsifs[i].body, l.arms[i].body, Start(l.arms[i].thenB))
    ensures TermAt(g, Last(l.arms[i].body), Br(l.merge))
  {
    hide BodyRealized;
    assert ArmRealized(g, x, lo, s.elsifs[i], l.arms[i], ElsePoint(l.elseB, l.arms, i), l.merge);
  }

  lemma ChainEnd(g: seq<Block>, x: Ctx, lo: nat, s: Stmt, l: Layout)
    requires s.If? && l.LIf? && ChainRealized(g, x, lo, s, l)
    ensures |l.arms| == |s.elsifs|
    ensures s.els.NoElse? ==> TermAt(g, ElsePoint(l.elseB, l.arms, |l.arms|), Br(l.merge))
    ensures s.els.Else? ==> BodyRealized(g, x, lo, s.els.body, l.els, ElsePoint(l.elseB, l.arms, |l.arms|))
    ensures s.els.Else? ==> TermAt(g, Last(l.els), Br(l.merge))
  {
    hide BodyRealized;
  }

  lemma {:induction false} SimElse(g: seq<Block>, x: Ctx, lo: nat, s: Stmt, l: Layout, i: nat, c: Config, fuel: nat)
    returns (n: nat)
    requires s.If? && l.LIf? && |l.arms| == |s.elsifs| && ChainRealized(g, x, lo, s, l) && i <= |s.elsifs| && At(c,
              ElsePoint(l.elseB, l.arms, i))
    ensures Lands(g, x, lo, Start(l.merge), c, ExecElse(s, i, c.st, x.result, fuel), fuel, n)
    decreases fuel, s, 0, |s.elsifs| - i
  {
    hide Run, Step, Lands, BodyRealized, ChainRealized, TermAt;
    ChainEnd(g, x, lo, s, l);
    if i < |s.elsifs| {
      ChainAt(g, x, lo, s, l, i);
      var cond := s.elsifs[i].cond;
      Fork(g, c, ElsePoint(l.elseB, l.arms, i), Cond(cond), l.arms[i].thenB, l.arms[i].elseB);
      var d := Run(g, c, 1);
      if True(cond.eval(c.st)) {
        n := SimBodyThen(g, x, lo, s.elsifs[i].body, l.arms[i].body, d, l.merge, fuel);
      } else {
        n := SimElse(g, x, lo, s, l, i + 1, d, fuel);
      }
      LandsAfter(g, x, lo, Start(l.merge), c, 1, d, lo, ExecElse(s, i, c.st, x.result, fuel), fuel, n, fuel);
      n := 1 + n;
    } else if s.els.Else? {
      n := SimBodyThen(g, x, lo, s.els.body, l.els, c, l.merge, fuel);
    } else {
      n := 1;
      Jump(g, c, ElsePoint(l.elseB, l.arms, i), l.merge);
      Arrives(g, x, lo, Start(l.merge), c, 1, Run(g, c, 1), fuel);
    }
  }

  lemma {:induction false} SimCaseStmt(g: seq<Block>, x: Ctx, lo: nat, s: Stmt, l: Layout, p: Point, q: Point,
      c: Config, fuel: nat)
    returns (n: nat)
    requires s.Case? && Realizes(g, x, lo, s, l, p, q) && At(c, p)
    ensures Lands(g, x, lo, q, c, Exec(s, c.st, x.result, fuel), fuel, n)
    decreases fuel, s, 2
  {
    hide Run, Lands, BodyRealized, CaseRealized;
    OneStep(g, c);
    var d := Step(g, c);
    var sel := s.selector.eval(c.st);
    assert d.regs == c.regs[l.sel := sel] && d.st == c.st && At(d, Next(p));
    CaseAt(g, x, lo, s, l, Next(p));
    if s.branches == [] {
      Jump(g, d, Next(p), l.elseB);
      var e := Run(g, d, 1);
      n := SimCaseElse(g, x, lo, s, l, Next(p), e, fuel);
      LandsAfter(g, x, lo, q, d, 1, e, lo, ExecCase(s, 0, sel, c.st, x.result, fuel), fuel, n, fuel);
      n := 1 + n;
    } else {
      n := SimCase(g, x, lo, s, l, Next(p), 0, d, fuel);
    }
    LandsAfter(g, x, lo, q, c, 1, d, lo, Exec(s, c.st, x.result, fuel), fuel, n, fuel);
    n := 1 + n;
  }

  lemma CaseAt(g: seq<Block>, x: Ctx, lo: nat, s: Stmt, l: Layout, first: Point)
    requires s.Case? && l.LCase? && CaseRealized(g, x, lo, s, l, first)
    ensures |l.arms| == |s.branches|
    ensures s.branches == [] ==> TermAt(g, first, Br(l.elseB))
    ensures s.branches != [] ==> l.arms[0].test == first
  {
    hide BodyRealized;
  }

  /** From the test of branch i, or from the ELSE after the last one. */
  lemma {:induction false} SimCase(g: seq<Block>, x: Ctx, lo: nat, s: Stmt, l: Layout, first: Point, i: nat,
      c: Config, fuel: nat)
    returns (n: nat)
    requires s.Case? && l.LCase? && CaseRealized(g, x, lo, s, l, first)
    requires |l.arms| == |s.branches| && i <= |s.branches|
    requires At(c, if i < |s.branches| then l.arms[i].test else Start(l.elseB))
    ensures Lands(g, x, lo, Start(l.end), c, ExecCase(s, i, RegVal(c.regs, l.sel), c.st, x.result, fuel), fuel, n)
    decreases fuel, s, 1, |s.branches| - i
  {
    hide Run, Step, Lands, BodyRealized, CaseRealized, AnyHit, TermAt;
    var sel := RegVal(c.regs, l.sel);
    if i == |s.branches| {
      n := SimCaseElse(g, x, lo, s, l, first, c, fuel);
    } else {
      var d := CaseTest(g, x, lo, s, l, i, first, c);
      if AnyHit(s.branches[i].labels, sel, s.selector.ty, c.st) {
        n := SimBodyThen(g, x, lo, s.branches[i].body, l.arms[i].body, d, l.end, fuel);
      } else {
        n := SimCase(g, x, lo, s, l, first, i + 1, d, fuel);
      }
      LandsAfter(g, x, lo, Start(l.end), c, 1, d, lo, ExecCase(s, i, sel, c.st, x.result, fuel), fuel, n, fuel);
      n := 1 + n;
    }
  }

  /** One step from the test of branch i: into its body on a match, else to the next test. */
  lemma CaseTest(g: seq<Block>, x: Ctx, lo: nat, s: Stmt, l: Layout, i: nat, first: Point,
      c: Config) returns (d: Config)
    requires s.Case? && l.LCase? && CaseRealized(g, x, lo, s, l, first)
    requires |l.arms| == |s.branches| && i < |s.branches| && At(c, l.arms[i].test)
    ensures d == Run(g, c, 1) && d.st == c.st && d.regs == c.regs
    ensures At(d, if AnyHit(s.branches[i].labels, RegVal(c.regs, l.sel), s.selector.ty, c.st)
                  then Start(l.arms[i].thenB)
                  else if i + 1 < |s.branches| then l.arms[i + 1].test else Start(l.elseB))
    ensures BodyRealized(g, x, lo, s.branches[i].body, l.arms[i].body, Start(l.arms[i].thenB))
    ensures TermAt(g, Last(l.arms[i].body), Br(l.end))
  {
    hide Run, LabelHit, BodyRealized;
    d := Run(g, c, 1);
    var ls := s.branches[i].labels;
    assert TestRealized(g, s, l.sel, i, l.arms[i]);
    if i + 1 < |s.branches| { assert l.arms[i + 1].test == Start(l.arms[i].elseB); }
    if ls == [] {
      Jump(g, c, l.arms[i].test, l.arms[i].elseB);
    } else {
      Fork(g, c, l.arms[i].test, Labels(ls, l.sel, s.selector.ty), l.arms[i].thenB, l.arms[i].elseB);
    }
  }

  lemma {:induction false} SimCaseElse(g: seq<Block>, x: Ctx, lo: nat, s: Stmt, l: Layout, first: Point, c: Config,
      fuel: nat)
    returns (n: nat)
    requires s.Case? && l.LCase? && CaseRealized(g, x, lo, s, l, first) && At(c, Start(l.elseB))
    ensures Lands(g, x, lo, Start(l.end), c, ExecCase(s, |s.branches|, RegVal(c.regs, l.sel), c.st, x.result, fuel),
              fuel, n)
    decreases fuel, s, 0, 0
  {
    if s.els.Else? { n := SimBodyThen(g, x, lo, s.els.body, l.els, c, l.end, fuel); } else { n := 0; }
  }

  /** From the condition block of a WHILE. */
  lemma {:induction false} SimWhile(g: seq<Block>, x: Ctx, lo: nat, s: Stmt, l: Layout, p: Point, q: Point,
      c: Config, fuel: nat)
    returns (n: nat)
    requires s.While? && Realizes(g, x, lo, s, l, p, q) && At(c, Start(l.head))
    ensures Lands(g, x, lo, q, c, ExecWhile(s, c.st, x.result, fuel), fuel, n)
    decreases fuel, s, 1
  {
    hide BodyRealized, Step;
    n := 0;
    if fuel > 0 {
      Fork(g, c, Start(l.head), Cond(s.cond), l.bodyB, l.end);
      var d := Run(g, c, 1);
      if True(s.cond.eval(c.st)) {
        n := SimWhileBody(g, x, lo, s, l, p, q, d, fuel);
      }
      LandsAfter(g, x, lo, q, c, 1, d, lo, ExecWhile(s, c.st, x.result, fuel), fuel - 1, n, fuel);
      n := 1 + n;
    }
  }

  lemma {:induction false} SimWhileBody(g: seq<Block>, x: Ctx, lo: nat, s: Stmt, l: Layout, p: Point, q: Point,
      c: Config, fuel: nat)
    returns (n: nat)
    requires s.While? && Realizes(g, x, lo, s, l, p, q) && At(c, Start(l.bodyB)) && fuel > 0 && True(s.cond.eval(c.st))
    ensures Lands(g, x, lo, q, c, ExecWhile(s, c.st, x.result, fuel), fuel - 1, n)
    decreases fuel, s, 0
  {
    hide BodyRealized, Step, Run;
    var y := x.(exit := Some(l.end), cont := Some(l.head));
    n := SimBodyThen(g, y, lo, s.body, l.body, c, l.head, fuel);
    var o := ExecBody(s.body, c.st, x.result, fuel);
    if o.Normal? || o.Continued? {
      var e := Run(g, c, n);
      var m := SimWhile(g, x, lo, s, l, p, q, e, fuel - 1);
      LandsAfter(g, x, lo, q, c, n, e, lo, ExecWhile(s, e.st, x.result, fuel - 1), fuel - 1, m, fuel - 1);
      n := n + m;
    }
  }

  /** From the body block of a REPEAT. */
  lemma {:induction false} SimRepeat(g: seq<Block>, x: Ctx, lo: nat, s: Stmt, l: Layout, p: Point, q: Point,
      c: Config, fuel: nat)
    returns (n: nat)
    requires s.Repeat? && Realizes(g, x, lo, s, l, p, q) && At(c, Start(l.bodyB))
    ensures Lands(g, x, lo, q, c, ExecRepeat(s, c.st, x.result, fuel), fuel, n)
    decreases fuel, s, 1
  {
    var y := x.(exit := Some(l.end), cont := Some(l.head));
    n := SimBodyThen(g, y, lo, s.body, l.body, c, l.head, fuel);
    var o := ExecBody(s.body, c.st, x.result, fuel);
    if o.Normal? || o.Continued? {
      var d := Run(g, c, n);
      var m := SimUntil(g, x, lo, s, l, p, q, d, fuel);
      LandsAfter(g, x, lo, q, c, n, d, lo, ExecUntil(s, d.st, x.result, fuel), fuel, m, fuel);
      n := n + m;
    }
  }

  /** From the condition block of a REPEAT. */
  lemma {:induction false} SimUntil(g: seq<Block>, x: Ctx, lo: nat, s: Stmt, l: Layout, p: Point, q: Point,
      c: Config, fuel: nat)
    returns (n: nat)
    requires s.Repeat? && Realizes(g, x, lo, s, l, p, q) && At(c, Start(l.head))
    ensures Lands(g, x, lo, q, c, ExecUntil(s, c.st, x.result, fuel), fuel, n)
    decreases fuel, s, 0
  {
    var d := Step(g, c);
    OneStep(g, c);
    n := 0;
    if True(s.until.eval(c.st)) {
      n := 1;
    } else if fuel > 0 {
      n := SimRepeat(g, x, lo, s, l, p, q, d, fuel - 1);
      LandsAfter(g, x, lo, q, c, 1, d, lo, ExecRepeat(s, d.st, x.result, fuel - 1), fuel - 1, n, fuel);
      n := 1 + n;
    }
  }

  /** The values a FOR evaluates once are still in their SSA values. */
  ghost predicate ForReady(l: Layout, to: Val, step: Val, c: Config)
    requires l.LFor?
  {
    At(c, Start(l.head)) && RegVal(c.regs, l.to) == to && OperandVal(c.regs, l.step) == step
  }

  lemma {:induction false} SimForStmt(g: seq<Block>, x: Ctx, lo: nat, s: Stmt, l: Layout, p: Point, q: Point,
      c: Config, fuel: nat)
    returns (n: nat)
    requires s.For? && Realizes(g, x, lo, s, l, p, q) && At(c, p)
    ensures Lands(g, x, lo, q, c, Exec(s, c.st, x.result, fuel), fuel, n)
    decreases fuel, s, 2
  {
    hide Put, BodyRealized, Run, Step;
    var start := Put(c.st, s.x, s.xt, s.from.eval(c.st), s.from.ty);
    var k, d := ForEntryRuns(g, lo, s, l, p, c);
    n := SimFor(g, x, lo, s, l, p, q, s.to.eval(c.st), StepValue(s, start), d, fuel);
    LandsAfter(g, x, lo, q, c, k, d, lo, Exec(s, c.st, x.result, fuel), fuel, n, fuel);
    n := k + n;
  }

  lemma TwoSteps(g: seq<Block>, c: Config, k: nat, d: Config)
    requires Run(g, c, k) == d
    ensures Run(g, c, k + 1) == Step(g, d)
  {
    RunSplit(g, c, k, 1);
    OneStep(g, d);
  }

  lemma ForEntryRuns(g: seq<Block>, lo: nat, s: Stmt, l: Layout, p: Point, c: Config) returns (k: nat, d: Config)
    requires s.For? && l.LFor? && ForEntry(g, lo, s, l, p) && At(c, p)
    ensures Run(g, c, k) == d && Agree(c.regs, d.regs, lo)
    ensures d.st == Put(c.st, s.x, s.xt, s.from.eval(c.st), s.from.ty)
    ensures ForReady(l, s.to.eval(c.st), StepValue(s, d.st), d)
  {
    hide Put;
    var c1 := Step(g, c);
    var c2 := Step(g, c1);
    var c3 := Step(g, c2);
    var c4 := Step(g, c3);
    assert c1.regs == c.regs[l.from := s.from.eval(c.st)] && c1.st == c.st;
    assert c2.regs == c1.regs[l.to := s.to.eval(c.st)] && c2.st == c.st;
    assert c3.regs == c2.regs && RegVal(c2.regs, l.from) == s.from.eval(c.st);
    assert c3.st == Put(c.st, s.x, s.xt, s.from.eval(c.st), s.from.ty);
    OneStep(g, c);
    TwoSteps(g, c, 1, c1);
    TwoSteps(g, c, 2, c2);
    TwoSteps(g, c, 3, c3);
    k, d := 4, c4;
    if s.stepBy.Some? {
      TwoSteps(g, c, 4, c4);
      k, d := 5, Step(g, c4);
      assert c4.regs == c3.regs[l.step.r := s.stepBy.value.eval(c3.st)] && c4.st == c3.st;
    }
  }

  /** From the bound test of a FOR. */
  lemma {:induction false} SimFor(g: seq<Block>, x: Ctx, lo: nat, s: Stmt, l: Layout, p: Point, q: Point, to: Val,
      step: Val, c: Config, fuel: nat)
    returns (n: nat)
    requires s.For? && Realizes(g, x, lo, s, l, p, q) && ForReady(l, to, step, c)
    ensures Lands(g, x, lo, q, c, ExecFor(s, to, step, c.st, x.result, fuel), fuel, n)
    decreases fuel, s, 1
  {
    hide BodyRealized, Step, WithinBound, Advanced, Put, ForEntry;
    n := 0;
    if fuel > 0 {
      Fork(g, c, Start(l.head), Bound(Head(s), l.to, l.step), l.bodyB, l.end);
      var d := Run(g, c, 1);
      if WithinBound(Head(s), c.st, to, step) {
        n := SimForBody(g, x, lo, s, l, p, q, to, step, d, fuel);
      }
      LandsAfter(g, x, lo, q, c, 1, d, lo, ExecFor(s, to, step, c.st, x.result, fuel), fuel - 1, n, fuel);
      n := 1 + n;
    }
  }

  lemma {:induction false} SimForBody(g: seq<Block>, x: Ctx, lo: nat, s: Stmt, l: Layout, p: Point, q: Point,
      to: Val, step: Val, c: Config, fuel: nat)
    returns (n: nat)
    requires s.For? && Realizes(g, x, lo, s, l, p, q) && fuel > 0 && WithinBound(Head(s), c.st, to, step)
    requires At(c, Start(l.bodyB)) && RegVal(c.regs, l.to) == to && OperandVal(c.regs, l.step) == step
    ensures Lands(g, x, lo, q, c, ExecFor(s, to, step, c.st, x.result, fuel), fuel - 1, n)
    decreases fuel, s, 0
  {
    hide BodyRealized, Step, Run, WithinBound, Advanced, Put;
    var y := x.(exit := Some(l.end), cont := Some(l.inc));
    var lo' := BodyFloor(l);
    n := SimBodyThen(g, y, lo', s.body, l.body, c, l.inc, fuel);
    var o := ExecBody(s.body, c.st, x.result, fuel);
    var e := Run(g, c, n);
    assert Agree(c.regs, e.regs, lo');
    if o.Normal? || o.Continued? {
      var m := SimAdvance(g, x, lo, s, l, p, q, to, step, e, fuel);
      LandsAfter(g, x, lo, q, c, n, e, lo, ExecFor(s, to, step, Advanced(Head(s), e.st, step), x.result, fuel - 1),
          fuel - 1, m, fuel - 1);
      n := n + m;
    }
  }

  /** From the increment block of a FOR. */
  lemma {:induction false} SimAdvance(g: seq<Block>, x: Ctx, lo: nat, s: Stmt, l: Layout, p: Point, q: Point,
      to: Val, step: Val, c: Config, fuel: nat)
    returns (n: nat)
    requires s.For? && Realizes(g, x, lo, s, l, p, q) && fuel > 0
    requires At(c, Start(l.inc)) && RegVal(c.regs, l.to) == to && OperandVal(c.regs, l.step) == step
    ensures Lands(g, x, lo, q, c, ExecFor(s, to, step, Advanced(Head(s), c.st, step), x.result, fuel - 1), fuel - 1, n)
    decreases fuel - 1, s, 2
  {
    hide Advanced, WithinBound, BodyRealized, ForEntry, Put;
    var d := Step(g, c);
    var e := Step(g, d);
    OneStep(g, c);
    TwoSteps(g, c, 1, d);
    n := SimFor(g, x, lo, s, l, p, q, to, step, e, fuel - 1);
    LandsAfter(g, x, lo, q, c, 2, e, lo, ExecFor(s, to, step, e.st, x.result, fuel - 1), fuel - 1, n, fuel - 1);
    n := 2 + n;
  }

  // ----- a whole body ------------------------------------------------------

  function BodyCtx(exit: nat, rv: ResultVar): Ctx { Ctx(None, None, Some(exit), rv) }

  /** The graph of a POU: its body from `entry`, then a branch to the one exit block, which is open. */
  ghost predicate PouRealized(g: seq<Block>, entry: Point, exit: nat, rv: ResultVar, body: seq<Stmt>, lo: nat,
      l: BodyLayout) {
    && BodyRealized(g, BodyCtx(exit, rv), lo, body, l, entry)
    && TermAt(g, Last(l), Br(exit))
    && exit < |g| && g[exit].term.None? && g[exit].instrs == []
  }

  /** A body finishes with a store: it runs off its end, or RETURNs. */
  ghost predicate Finishes(body: seq<Stmt>, st: Store, rv: ResultVar, fuel: nat, end: Store) {
    ExecBody(body, st, rv, fuel) == Normal(end) || ExecBody(body, st, rv, fuel) == Returned(end)
  }

  ghost predicate Reaches(g: seq<Block>, c: Config, exit: nat, n: nat, end: Store) {
    At(Run(g, c, n), Start(exit)) && Run(g, c, n).st == end
  }

  lemma {:induction false} Halted(g: seq<Block>, c: Config, n: nat)
    requires c.block < |g| && g[c.block].term.None? && c.pc == |g[c.block].instrs|
    ensures Run(g, c, n) == c
  {
    if n > 0 { Halted(g, c, n - 1); }
  }

  lemma PouLands(g: seq<Block>, entry: Point, exit: nat, rv: ResultVar, body: seq<Stmt>, lo: nat, l: BodyLayout,
      c: Config, fuel: nat)
    returns (n: nat)
    requires PouRealized(g, entry, exit, rv, body, lo, l) && At(c, entry)
    ensures Lands(g, BodyCtx(exit, rv), lo, Start(exit), c, ExecBody(body, c.st, rv, fuel), fuel, n)
  {
    n := SimBodyThen(g, BodyCtx(exit, rv), lo, body, l, c, exit, fuel);
  }

  /** Main result. A graph that realizes a body reaches the exit block with a store exactly when
      the structured semantics finishes with that store; so it runs for ever exactly when the
      structured semantics never finishes. */
  lemma LoweringCorrect(g: seq<Block>, entry: Point, exit: nat, rv: ResultVar, body: seq<Stmt>, lo: nat,
      l: BodyLayout, c: Config, end: Store)
    requires PouRealized(g, entry, exit, rv, body, lo, l) && At(c, entry)
    ensures (exists fuel :: Finishes(body, c.st, rv, fuel, end)) <==> (exists n :: Reaches(g, c, exit, n, end))
  {
    if fuel :| Finishes(body, c.st, rv, fuel, end) {
      var n := PouLands(g, entry, exit, rv, body, lo, l, c, fuel);
      assert Reaches(g, c, exit, n, end);
    }
    if n :| Reaches(g, c, exit, n, end) {
      var m := PouLands(g, entry, exit, rv, body, lo, l, c, n);
      var o := ExecBody(body, c.st, rv, n);
      if o.OutOfFuel? {
        RunSplit(g, c, n, m - n);
        Halted(g, Run(g, c, n), m - n);
        assert false;
      }
      assert At(Run(g, c, m), Start(exit));
      if n <= m {
        RunSplit(g, c, n, m - n);
        Halted(g, Run(g, c, n), m - n);
      } else {
        RunSplit(g, c, m, n - m);
        Halted(g, Run(g, c, m), n - m);
      }
      assert Finishes(body, c.st, rv, n, end);
    }
  }

  ghost predicate StillLooping(body: seq<Stmt>, st: Store, rv: ResultVar, fuel: nat) {
    ExecBody(body, st, rv, fuel).OutOfFuel?
  }

  ghost predicate AtExit(g: seq<Block>, c: Config, exit: nat, n: nat) { At(Run(g, c, n), Start(exit)) }

  /** The same, for running for ever. */
  lemma DivergesTogether(g: seq<Block>, entry: Point, exit: nat, rv: ResultVar, body: seq<Stmt>, lo: nat,
      l: BodyLayout, c: Config)
    requires PouRealized(g, entry, exit, rv, body, lo, l) && At(c, entry)
    ensures (forall fuel :: StillLooping(body, c.st, rv, fuel)) <==> (forall n :: !AtExit(g, c, exit, n))
  {
    if fuel :| !StillLooping(body, c.st, rv, fuel) {
      var n := PouLands(g, entry, exit, rv, body, lo, l, c, fuel);
      assert AtExit(g, c, exit, n);
    }
    if n :| AtExit(g, c, exit, n) {
      var end := Run(g, c, n).st;
      assert Reaches(g, c, exit, n, end);
      LoweringCorrect(g, entry, exit, rv, body, lo, l, c, end);
      var fuel :| Finishes(body, c.st, rv, fuel, end);
      assert !StillLooping(body, c.st, rv, fuel);
    }
  }
}

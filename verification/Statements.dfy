/** Structured Text statements, their structured semantics, and the block machine that
    LLVM's basic blocks form. */
module Statements {
  import opened Wrappers
  import opened MachineInts
  import T = IntTyping

  type Store = T.Store

  /** A compiled expression: a pure function of the store, the type it is reported as, and its
      value when it is a compile-time integer constant (`const_int_of`). */
  datatype Rvalue = Rvalue(eval: Store -> Val, ty: Option<T.IntTy>, constant: Option<int>)

  /** An expression tree, compiled; where it faults its value is of no account. */
  function Compiled(e: T.Expr): Rvalue {
    Rvalue(st => if T.Compile(e, st).Computed? then T.Compile(e, st).v else Val(32, 0), T.RvalueType(e), None)
  }

  datatype Label = One(v: Rvalue) | Range(lo: Rvalue, hi: Rvalue)

  datatype Elsif = Elsif(cond: Rvalue, body: seq<Stmt>)

  datatype Branch = Branch(labels: seq<Label>, body: seq<Stmt>)

  datatype ElsePart = NoElse | Else(body: seq<Stmt>)

  datatype Stmt =
    | Empty
    | Assign(x: string, xt: T.IntTy, e: Rvalue)
    | If(cond: Rvalue, thenBody: seq<Stmt>, elsifs: seq<Elsif>, els: ElsePart)
    | For(x: string, xt: T.IntTy, from: Rvalue, to: Rvalue, stepBy: Option<Rvalue>, body: seq<Stmt>)
    | While(cond: Rvalue, body: seq<Stmt>)
    | Repeat(body: seq<Stmt>, until: Rvalue)
    | Case(selector: Rvalue, branches: seq<Branch>, els: ElsePart)
    | Exit
    | Continue
    | Return(value: Option<Rvalue>)

  /** The result variable of a FUNCTION or METHOD. */
  type ResultVar = Option<(string, T.IntTy)>

  // ----- shared meaning of the primitive operations ------------------------

  predicate True(v: Val) { v.bits != 0 }

  function Put(st: Store, x: string, xt: T.IntTy, v: Val, ty: Option<T.IntTy>): Store {
    st[x := T.CoerceValue(v, ty, xt).bits]
  }

  predicate LabelHit(l: Label, sel: Val, ty: Option<T.IntTy>, st: Store) {
    match l
    case One(v) => T.CompileCmp(T.Eq, sel, ty, v.eval(st), v.ty)
    case Range(lo, hi) =>
      && T.CompileCmp(T.Ge, sel, ty, lo.eval(st), lo.ty)
      && T.CompileCmp(T.Le, sel, ty, hi.eval(st), hi.ty)
  }

  predicate AnyHit(ls: seq<Label>, sel: Val, ty: Option<T.IntTy>, st: Store) {
    exists i :: 0 <= i < |ls| && LabelHit(ls[i], sel, ty, st)
  }

  /** Which way the control variable walks: settled at compile time, or by the sign of the step. */
  datatype StepDir = Up | Down | Runtime

  function StepType(s: Stmt): Option<T.IntTy>
    requires s.For?
  {
    if s.stepBy.None? then Some(s.xt) else s.stepBy.value.ty
  }

  predicate StepIsZero(s: Stmt)
    requires s.For?
  {
    !T.ReadsUnsigned(StepType(s)) && s.stepBy.Some? && s.stepBy.value.constant == Some(0)
  }

  function Direction(s: Stmt): StepDir
    requires s.For?
  {
    if T.ReadsUnsigned(StepType(s)) || s.stepBy.None? then Up
    else
      match s.stepBy.value.constant
      case Some(v) => if v < 0 then Down else Up
      case None => Runtime
  }

  function StepValue(s: Stmt, st: Store): Val
    requires s.For?
  {
    if s.stepBy.None? then Val(T.BitSize(s.xt), 1) else s.stepBy.value.eval(st)
  }

  /** What the bound test and the increment of a FOR loop are compiled from. */
  datatype ForHead = ForHead(x: string, xt: T.IntTy, toTy: Option<T.IntTy>, stepTy: Option<T.IntTy>, dir: StepDir)

  function Head(s: Stmt): ForHead
    requires s.For?
  {
    ForHead(s.x, s.xt, s.to.ty, StepType(s), Direction(s))
  }

  /** The bound test, before every iteration. */
  predicate WithinBound(h: ForHead, st: Store, to: Val, step: Val) {
    var cur := T.Load(st, h.x, h.xt);
    var up := T.CompileCmp(T.Le, cur, Some(h.xt), to, h.toTy);
    var down := T.CompileCmp(T.Ge, cur, Some(h.xt), to, h.toTy);
    match h.dir
    case Up => up
    case Down => down
    case Runtime => if AsSigned(step.bits, step.w) < 0 then down else up
  }

  /** The increment: formed wide enough for both operands, then truncated. */
  function Advanced(h: ForHead, st: Store, step: Val): Store {
    var cur := T.Load(st, h.x, h.xt);
    var wide := Max(cur.w, step.w);
    var a := Resize(cur, wide, !T.WidensUnsigned(h.xt));
    var b := Resize(step, wide, !T.ReadsUnsigned(h.stepTy));
    var sum := Val(wide, Wrap(a.bits + b.bits, wide));
    Put(st, h.x, h.xt, Resize(sum, cur.w, true), Some(h.xt))
  }

  // ----- structured semantics ----------------------------------------------

  datatype Outcome =
    | Normal(st: Store)
    | Exited(st: Store)
    | Continued(st: Store)
    | Returned(st: Store)
    | OutOfFuel

  /** Run a statement; every loop may go round at most `fuel` more times. */
  function Exec(s: Stmt, st: Store, rv: ResultVar, fuel: nat): Outcome
    decreases fuel, s, 1
  {
    match s
    case Empty => Normal(st)
    case Assign(x, xt, e) => Normal(Put(st, x, xt, e.eval(st), e.ty))
    case If(c, t, _, _) => if True(c.eval(st)) then ExecBody(t, st, rv, fuel) else ExecElse(s, 0, st, rv, fuel)
    case Case(sel, _, _) => ExecCase(s, 0, sel.eval(st), st, rv, fuel)
    case While(_, _) => ExecWhile(s, st, rv, fuel)
    case Repeat(_, _) => ExecRepeat(s, st, rv, fuel)
    case For(x, xt, from, to, _, _) =>
      var start := Put(st, x, xt, from.eval(st), from.ty);
      ExecFor(s, to.eval(st), StepValue(s, start), start, rv, fuel)
    case Exit => Exited(st)
    case Continue => Continued(st)
    case Return(None) => Returned(st)
    case Return(Some(v)) => Returned(if rv.None? then st else Put(st, rv.value.0, rv.value.1, v.eval(st), v.ty))
  }

  function ExecBody(ss: seq<Stmt>, st: Store, rv: ResultVar, fuel: nat): Outcome
    decreases fuel, ss, 0
  {
    if ss == [] then Normal(st)
    else
      match Exec(ss[0], st, rv, fuel)
      case Normal(st') => ExecBody(ss[1..], st', rv, fuel)
      case o => o
  }

  /** The ELSIF chain from branch i on, then the ELSE. */
  function ExecElse(s: Stmt, i: nat, st: Store, rv: ResultVar, fuel: nat): Outcome
    requires s.If? && i <= |s.elsifs|
    decreases fuel, s, 0, |s.elsifs| - i
  {
    if i < |s.elsifs| then
      if True(s.elsifs[i].cond.eval(st)) then ExecBody(s.elsifs[i].body, st, rv, fuel)
      else ExecElse(s, i + 1, st, rv, fuel)
    else if s.els.Else? then ExecBody(s.els.body, st, rv, fuel)
    else Normal(st)
  }

  /** The first branch from i on with a matching label, else the ELSE. */
  function ExecCase(s: Stmt, i: nat, sel: Val, st: Store, rv: ResultVar, fuel: nat): Outcome
    requires s.Case? && i <= |s.branches|
    decreases fuel, s, 0, |s.branches| - i
  {
    if i < |s.branches| then
      if AnyHit(s.branches[i].labels, sel, s.selector.ty, st) then ExecBody(s.branches[i].body, st, rv, fuel)
      else ExecCase(s, i + 1, sel, st, rv, fuel)
    else if s.els.Else? then ExecBody(s.els.body, st, rv, fuel)
    else Normal(st)
  }

  function ExecWhile(s: Stmt, st: Store, rv: ResultVar, fuel: nat): Outcome
    requires s.While?
    decreases fuel, s, 0
  {
    if fuel == 0 then OutOfFuel
    else if !True(s.cond.eval(st)) then Normal(st)
    else
      match ExecBody(s.body, st, rv, fuel)
      case Normal(st') => ExecWhile(s, st', rv, fuel - 1)
      case Continued(st') => ExecWhile(s, st', rv, fuel - 1)
      case Exited(st') => Normal(st')
      case o => o
  }

  function ExecRepeat(s: Stmt, st: Store, rv: ResultVar, fuel: nat): Outcome
    requires s.Repeat?
    decreases fuel, s, 0, 1
  {
    match ExecBody(s.body, st, rv, fuel)
    case Normal(st') => ExecUntil(s, st', rv, fuel)
    case Continued(st') => ExecUntil(s, st', rv, fuel)
    case Exited(st') => Normal(st')
    case o => o
  }

  /** The UNTIL test, and the next round if it fails. */
  function ExecUntil(s: Stmt, st: Store, rv: ResultVar, fuel: nat): Outcome
    requires s.Repeat?
    decreases fuel, s, 0, 0
  {
    if True(s.until.eval(st)) then Normal(st)
    else if fuel == 0 then OutOfFuel
    else ExecRepeat(s, st, rv, fuel - 1)
  }

  function ExecFor(s: Stmt, to: Val, step: Val, st: Store, rv: ResultVar, fuel: nat): Outcome
    requires s.For?
    decreases fuel, s, 0
  {
    if fuel == 0 then OutOfFuel
    else if !WithinBound(Head(s), st, to, step) then Normal(st)
    else
      match ExecBody(s.body, st, rv, fuel)
      case Normal(st') => ExecFor(s, to, step, Advanced(Head(s), st', step), rv, fuel - 1)
      case Continued(st') => ExecFor(s, to, step, Advanced(Head(s), st', step), rv, fuel - 1)
      case Exited(st') => Normal(st')
      case o => o
  }

  /** What surrounds a statement: a loop, a POU body to RETURN from, a result variable. */
  datatype Scope = Scope(inLoop: bool, inPou: bool, hasResult: bool)

  /** What codegen accepts: EXIT and CONTINUE only in a loop, RETURN only in a POU body and with a
      value only where there is a result variable, no BY 0. */
  predicate Accepted(s: Stmt, sc: Scope)
    decreases s, 1
  {
    match s
    case Exit => sc.inLoop
    case Continue => sc.inLoop
    case Return(v) => sc.inPou && (v.Some? ==> sc.hasResult)
    case If(_, t, es, e) =>
      && AllAccepted(t, sc)
      && (forall i :: 0 <= i < |es| ==> AllAccepted(es[i].body, sc))
      && (e.Else? ==> AllAccepted(e.body, sc))
    case Case(_, bs, e) =>
      && (forall i :: 0 <= i < |bs| ==> AllAccepted(bs[i].body, sc))
      && (e.Else? ==> AllAccepted(e.body, sc))
    case For(_, _, _, _, _, b) => !StepIsZero(s) && AllAccepted(b, sc.(inLoop := true))
    case While(_, b) => AllAccepted(b, sc.(inLoop := true))
    case Repeat(b, _) => AllAccepted(b, sc.(inLoop := true))
    case _ => true
  }

  predicate AllAccepted(ss: seq<Stmt>, sc: Scope)
    decreases ss, 0
  {
    forall i :: 0 <= i < |ss| ==> Accepted(ss[i], sc)
  }

  // ----- the block machine -------------------------------------------------

  datatype Operand = Reg(r: nat) | Konst(v: Val)

  datatype Instr =
    | IAssign(x: string, xt: T.IntTy, e: Rvalue)
    | ISet(r: nat, e: Rvalue)
    | IStoreReg(x: string, xt: T.IntTy, r: nat, ty: Option<T.IntTy>)
    | IAdvance(head: ForHead, step: Operand)

  datatype Test =
    | Cond(e: Rvalue)
    | Bound(head: ForHead, to: nat, step: Operand)
    | Labels(ls: seq<Label>, sel: nat, ty: Option<T.IntTy>)

  datatype Term = Br(to: nat) | CondBr(test: Test, ifTrue: nat, ifFalse: nat)

  datatype Block = Block(instrs: seq<Instr>, term: Option<Term>)

  /** SSA values, as they stand while the function runs. */
  type Regs = map<nat, Val>

  function RegVal(regs: Regs, r: nat): Val { if r in regs then regs[r] else Val(32, 0) }

  function OperandVal(regs: Regs, o: Operand): Val {
    match o case Reg(r) => RegVal(regs, r) case Konst(v) => v
  }

  datatype Config = Config(block: nat, pc: nat, st: Store, regs: Regs)

  function Do(i: Instr, c: Config): Config {
    var d := c.(pc := c.pc + 1);
    match i
    case IAssign(x, xt, e) => d.(st := Put(c.st, x, xt, e.eval(c.st), e.ty))
    case ISet(r, e) => d.(regs := c.regs[r := e.eval(c.st)])
    case IStoreReg(x, xt, r, ty) => d.(st := Put(c.st, x, xt, RegVal(c.regs, r), ty))
    case IAdvance(head, step) => d.(st := Advanced(head, c.st, OperandVal(c.regs, step)))
  }

  predicate Decide(t: Test, c: Config) {
    match t
    case Cond(e) => True(e.eval(c.st))
    case Bound(head, to, step) => WithinBound(head, c.st, RegVal(c.regs, to), OperandVal(c.regs, step))
    case Labels(ls, sel, ty) => AnyHit(ls, RegVal(c.regs, sel), ty, c.st)
  }

  /** One step; a block without a terminator, or no block at all, is where a run halts. */
  function Step(g: seq<Block>, c: Config): Config {
    if c.block >= |g| then c
    else if c.pc < |g[c.block].instrs| then Do(g[c.block].instrs[c.pc], c)
    else
      match g[c.block].term
      case None => c
      case Some(Br(to)) => c.(block := to, pc := 0)
      case Some(CondBr(t, a, b)) => c.(block := if Decide(t, c) then a else b, pc := 0)
  }

  function Run(g: seq<Block>, c: Config, n: nat): Config
    decreases n
  {
    if n == 0 then c else Run(g, Step(g, c), n - 1)
  }

  lemma {:induction false} RunSplit(g: seq<Block>, c: Config, a: nat, b: nat)
    ensures Run(g, c, a + b) == Run(g, Run(g, c, a), b)
    decreases a
  {
    if a > 0 { RunSplit(g, Step(g, c), a - 1, b); }
  }
}

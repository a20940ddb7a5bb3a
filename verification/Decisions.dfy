/** What IF, CASE, WHILE and REPEAT decide, told by the mathematical values of the expression trees in
    them; and that an accepted statement leaves only what is around it. */
module Decisions {
  import opened MachineInts
  import opened Statements
  import opened Wrappers
  import T = IntTyping

  // ----- conditions --------------------------------------------------------

  /** An integer, which holds unless it is 0, or a comparison, which LLVM answers with one bit. */
  datatype Condition = Nonzero(e: T.Expr) | Compare(op: T.CmpOp, left: T.Expr, right: T.Expr)

  function CondOf(c: Condition): Rvalue {
    match c
    case Nonzero(e) => Compiled(e)
    case Compare(op, l, r) =>
      var (a, b) := (Compiled(l), Compiled(r));
      Rvalue(st => Val(8, if T.CompileCmp(op, a.eval(st), a.ty, b.eval(st), b.ty) then 1 else 0), None, None)
  }

  /** The tree has an exact value. */
  predicate Known(e: T.Expr, st: Store) { T.Exact(e, st) && T.Math(e, st).Some? }

  /** A comparison of two trees that is right about its operands. */
  predicate Comparable(op: T.CmpOp, l: T.Expr, r: T.Expr, st: Store) {
    && Known(l, st) && Known(r, st)
    && T.ComparisonRight(op, T.Math(l, st).value, T.Math(r, st).value, T.Promoted(l, r).0, T.Promoted(l, r).1)
  }

  predicate Decidable(c: Condition, st: Store) {
    match c
    case Nonzero(e) => Known(e, st)
    case Compare(op, l, r) => Comparable(op, l, r, st)
  }

  /** The condition, mathematically. */
  predicate Meaning(c: Condition, st: Store)
    requires Decidable(c, st)
  {
    match c
    case Nonzero(e) => T.Math(e, st).value != 0
    case Compare(Eq, l, r) => T.Math(l, st).value == T.Math(r, st).value
    case Compare(Ne, l, r) => T.Math(l, st).value != T.Math(r, st).value
    case Compare(Lt, l, r) => T.Math(l, st).value < T.Math(r, st).value
    case Compare(Le, l, r) => T.Math(l, st).value <= T.Math(r, st).value
    case Compare(Gt, l, r) => T.Math(l, st).value > T.Math(r, st).value
    case Compare(Ge, l, r) => T.Math(l, st).value >= T.Math(r, st).value
  }

  lemma CompiledIs(e: T.Expr, st: Store)
    requires Known(e, st)
    ensures var v := Compiled(e).eval(st); ValidVal(v) && T.Read(v, Compiled(e).ty) == T.Math(e, st).value
  {
    hide T.Compile, T.Math, T.Exact, T.Read, T.RvalueType, Modulus, Wrap;
    T.ExpressionExact(e, st);
  }

  lemma ComparedIs(op: T.CmpOp, l: T.Expr, r: T.Expr, st: Store)
    requires Comparable(op, l, r, st)
    ensures var (a, b) := (Compiled(l), Compiled(r));
            T.CompileCmp(op, a.eval(st), a.ty, b.eval(st), b.ty)
            == T.Holds(op, T.Math(l, st).value, T.Math(r, st).value)
  {
    hide T.Compile, T.Math, T.Exact, T.RvalueType, T.CompileCmp, T.ComparisonRight, T.Promoted, T.Holds;
    T.ConditionExact(op, l, r, st);
  }

  lemma ReadsZero(v: Val, t: Option<T.IntTy>)
    requires ValidVal(v)
    ensures T.Read(v, t) == 0 <==> v.bits == 0
  {
  }

  /** The code takes a condition as it is meant. */
  lemma ConditionMeant(c: Condition, st: Store)
    requires Decidable(c, st)
    ensures True(CondOf(c).eval(st)) <==> Meaning(c, st)
  {
    hide T.Compile, T.Math, T.Exact, T.Read, T.RvalueType, T.CompileCmp, Comparable;
    match c
    case Nonzero(e) =>
      CompiledIs(e, st);
      ReadsZero(Compiled(e).eval(st), Compiled(e).ty);
    case Compare(op, l, r) =>
      ComparedIs(op, l, r, st);
  }

  // ----- IF ----------------------------------------------------------------

  /** IF and its ELSIFs. */
  datatype Arm = Arm(cond: Condition, body: seq<Stmt>)

  function IfOf(arms: seq<Arm>, els: ElsePart): Stmt
    requires arms != []
  {
    If(CondOf(arms[0].cond), arms[0].body,
       seq(|arms| - 1, i requires 0 <= i < |arms| - 1 => Elsif(CondOf(arms[i + 1].cond), arms[i + 1].body)), els)
  }

  function ElseOutcome(els: ElsePart, st: Store, rv: ResultVar, fuel: nat): Outcome {
    match els case NoElse => Normal(st) case Else(body) => ExecBody(body, st, rv, fuel)
  }

  /** Arm k is the first whose condition is met; for k = |arms| none is. */
  predicate FirstMet(arms: seq<Arm>, k: nat, st: Store)
    requires k <= |arms|
  {
    && (forall i :: 0 <= i < k ==> Decidable(arms[i].cond, st) && !Meaning(arms[i].cond, st))
    && (k < |arms| ==> Decidable(arms[k].cond, st) && Meaning(arms[k].cond, st))
  }

  lemma {:induction false} ElsifDecides(arms: seq<Arm>, els: ElsePart, i: nat, k: nat, st: Store, rv: ResultVar,
      fuel: nat)
    requires arms != [] && i < |arms| && i < k <= |arms| && FirstMet(arms, k, st)
    ensures ExecElse(IfOf(arms, els), i, st, rv, fuel)
            == if k < |arms| then ExecBody(arms[k].body, st, rv, fuel) else ElseOutcome(els, st, rv, fuel)
    decreases k - i
  {
    hide Decidable, Meaning, CondOf, ExecBody, True;
    if i + 1 < |arms| {
      ConditionMeant(arms[i + 1].cond, st);
      if i + 1 < k { ElsifDecides(arms, els, i + 1, k, st, rv, fuel); }
    }
  }

  /** Main result: IF runs the first arm whose condition is met mathematically, else the ELSE. */
  lemma IfDecides(arms: seq<Arm>, els: ElsePart, k: nat, st: Store, rv: ResultVar, fuel: nat)
    requires arms != [] && k <= |arms| && FirstMet(arms, k, st)
    ensures Exec(IfOf(arms, els), st, rv, fuel)
            == if k < |arms| then ExecBody(arms[k].body, st, rv, fuel) else ElseOutcome(els, st, rv, fuel)
  {
    hide Decidable, Meaning, CondOf, ExecBody, ExecElse, True;
    ConditionMeant(arms[0].cond, st);
    if k > 0 { ElsifDecides(arms, els, 0, k, st, rv, fuel); }
  }

  // ----- CASE --------------------------------------------------------------

  datatype LabelTree = Single(e: T.Expr) | Span(lo: T.Expr, hi: T.Expr)

  datatype Choice = Choice(labels: seq<LabelTree>, body: seq<Stmt>)

  function LabelOf(l: LabelTree): Label {
    match l case Single(e) => One(Compiled(e)) case Span(lo, hi) => Range(Compiled(lo), Compiled(hi))
  }

  function LabelsOf(ls: seq<LabelTree>): seq<Label> { seq(|ls|, i requires 0 <= i < |ls| => LabelOf(ls[i])) }

  function CaseOf(sel: T.Expr, choices: seq<Choice>, els: ElsePart): Stmt {
    Case(Compiled(sel),
         seq(|choices|, i requires 0 <= i < |choices| => Branch(LabelsOf(choices[i].labels), choices[i].body)), els)
  }

  /** The comparisons of the selector with a label are right about it. */
  predicate Testable(l: LabelTree, sel: T.Expr, st: Store) {
    match l
    case Single(e) => Comparable(T.Eq, sel, e, st)
    case Span(lo, hi) => Comparable(T.Ge, sel, lo, st) && Comparable(T.Le, sel, hi, st)
  }

  /** The label contains m. */
  predicate Contains(l: LabelTree, m: int, st: Store) {
    match l
    case Single(e) => T.Math(e, st) == Some(m)
    case Span(lo, hi) =>
      T.Math(lo, st).Some? && T.Math(hi, st).Some? && T.Math(lo, st).value <= m <= T.Math(hi, st).value
  }

  predicate AllTestable(ls: seq<LabelTree>, sel: T.Expr, st: Store) {
    forall i :: 0 <= i < |ls| ==> Testable(ls[i], sel, st)
  }

  predicate AnyContains(ls: seq<LabelTree>, m: int, st: Store) {
    exists i :: 0 <= i < |ls| && Contains(ls[i], m, st)
  }

  /** A label is hit exactly by the values it contains. */
  lemma LabelExact(l: LabelTree, sel: T.Expr, st: Store)
    requires Known(sel, st) && Testable(l, sel, st)
    ensures LabelHit(LabelOf(l), Compiled(sel).eval(st), Compiled(sel).ty, st)
            <==> Contains(l, T.Math(sel, st).value, st)
  {
    hide T.Compile, T.Math, T.Exact, T.RvalueType, T.CompileCmp, T.ComparisonRight, T.Promoted;
    match l
    case Single(e) => ComparedIs(T.Eq, sel, e, st);
    case Span(lo, hi) =>
      ComparedIs(T.Ge, sel, lo, st);
      ComparedIs(T.Le, sel, hi, st);
  }

  lemma LabelsExact(ls: seq<LabelTree>, sel: T.Expr, st: Store)
    requires Known(sel, st) && AllTestable(ls, sel, st)
    ensures AnyHit(LabelsOf(ls), Compiled(sel).eval(st), Compiled(sel).ty, st)
            <==> AnyContains(ls, T.Math(sel, st).value, st)
  {
    hide LabelHit, LabelOf, Contains, Testable, T.Math, T.Exact, Compiled;
    forall i | 0 <= i < |ls|
      ensures LabelHit(LabelsOf(ls)[i], Compiled(sel).eval(st), Compiled(sel).ty, st)
              <==> Contains(ls[i], T.Math(sel, st).value, st)
    {
      LabelExact(ls[i], sel, st);
    }
  }

  /** Branch k is the first with a label that contains m; for k = |choices| none has one. */
  predicate FirstContaining(choices: seq<Choice>, k: nat, m: int, st: Store)
    requires k <= |choices|
  {
    && (forall i :: 0 <= i < k ==> !AnyContains(choices[i].labels, m, st))
    && (k < |choices| ==> AnyContains(choices[k].labels, m, st))
  }

  lemma {:induction false} ChoiceDecides(sel: T.Expr, choices: seq<Choice>, els: ElsePart, i: nat, k: nat,
      st: Store, rv: ResultVar, fuel: nat)
    requires i <= k <= |choices| && Known(sel, st)
    requires forall j :: 0 <= j < |choices| && j <= k ==> AllTestable(choices[j].labels, sel, st)
    requires FirstContaining(choices, k, T.Math(sel, st).value, st)
    ensures ExecCase(CaseOf(sel, choices, els), i, Compiled(sel).eval(st), st, rv, fuel)
            == if k < |choices| then ExecBody(choices[k].body, st, rv, fuel) else ElseOutcome(els, st, rv, fuel)
    decreases k - i
  {
    hide AnyHit, AnyContains, LabelsOf, Known, AllTestable, T.Math, Compiled, ExecBody;
    if i < |choices| {
      LabelsExact(choices[i].labels, sel, st);
      if i < k { ChoiceDecides(sel, choices, els, i + 1, k, st, rv, fuel); }
    }
  }

  /** Main result: CASE runs the first branch with a label that contains the selector's mathematical value,
      the ends of a range included, else the ELSE. */
  lemma CaseDecides(sel: T.Expr, choices: seq<Choice>, els: ElsePart, k: nat, st: Store, rv: ResultVar, fuel: nat)
    requires k <= |choices| && Known(sel, st)
    requires forall j :: 0 <= j < |choices| && j <= k ==> AllTestable(choices[j].labels, sel, st)
    requires FirstContaining(choices, k, T.Math(sel, st).value, st)
    ensures Exec(CaseOf(sel, choices, els), st, rv, fuel)
            == if k < |choices| then ExecBody(choices[k].body, st, rv, fuel) else ElseOutcome(els, st, rv, fuel)
  {
    hide Known, AllTestable, FirstContaining, T.Math, Compiled, ExecBody, ExecCase;
    ChoiceDecides(sel, choices, els, 0, k, st, rv, fuel);
  }

  // ----- WHILE and REPEAT --------------------------------------------------

  /** A WHILE goes round exactly while its condition is met mathematically. CONTINUE goes on to the next test,
      EXIT ends the loop, and RETURN the POU. */
  lemma WhileRound(c: Condition, body: seq<Stmt>, st: Store, rv: ResultVar, fuel: nat)
    requires Decidable(c, st) && fuel > 0
    ensures var (o, b) := (Exec(While(CondOf(c), body), st, rv, fuel), ExecBody(body, st, rv, fuel));
            && (!Meaning(c, st) ==> o == Normal(st))
            && (Meaning(c, st) ==>
                  && (b.Normal? || b.Continued? ==> o == Exec(While(CondOf(c), body), b.st, rv, fuel - 1))
                  && (b.Exited? ==> o == Normal(b.st)) && (b.Returned? ==> o == b))
  {
    hide Meaning, Decidable, CondOf, ExecBody, True;
    ConditionMeant(c, st);
  }

  /** A REPEAT goes round once and then until its condition is met. CONTINUE goes on to the test. */
  lemma RepeatRound(c: Condition, body: seq<Stmt>, st: Store, rv: ResultVar, fuel: nat)
    requires fuel > 0
    ensures var (o, b) := (Exec(Repeat(body, CondOf(c)), st, rv, fuel), ExecBody(body, st, rv, fuel));
            && ((b.Normal? || b.Continued?) && Decidable(c, b.st) ==>
                  o == if Meaning(c, b.st) then Normal(b.st) else Exec(Repeat(body, CondOf(c)), b.st, rv, fuel - 1))
            && (b.Exited? ==> o == Normal(b.st)) && (b.Returned? ==> o == b)
  {
    hide Meaning, Decidable, CondOf, ExecBody, True;
    var (s, b) := (Repeat(body, CondOf(c)), ExecBody(body, st, rv, fuel));
    if (b.Normal? || b.Continued?) && Decidable(c, b.st) {
      ConditionMeant(c, b.st);
      assert ExecRepeat(s, st, rv, fuel) == ExecUntil(s, b.st, rv, fuel);
    }
  }

  /** A round that goes on keeps `inv`; a round left by EXIT ends in `left`. */
  ghost predicate RoundsKeep(c: Condition, body: seq<Stmt>, rv: ResultVar, inv: Store -> bool, left: Store -> bool,
      whenMet: bool)
  {
    forall st: Store, fuel: nat :: inv(st) && Decidable(c, st) && (whenMet ==> Meaning(c, st)) ==>
      match ExecBody(body, st, rv, fuel)
      case Normal(t) => inv(t)
      case Continued(t) => inv(t)
      case Exited(t) => left(t)
      case _ => true
  }

  /** Main result: the rule for WHILE. What every round keeps while the condition is met holds at the end,
      where the condition is not met, unless the loop was left by EXIT. */
  lemma {:induction false} WhileRule(c: Condition, body: seq<Stmt>, st: Store, rv: ResultVar, fuel: nat,
      inv: Store -> bool, left: Store -> bool)
    requires inv(st) && RoundsKeep(c, body, rv, inv, left, true)
    requires forall t :: inv(t) ==> Decidable(c, t)
    ensures var o := Exec(While(CondOf(c), body), st, rv, fuel);
            o.Normal? ==> (inv(o.st) && !Meaning(c, o.st)) || left(o.st)
    decreases fuel
  {
    hide Meaning, Decidable, CondOf, ExecBody, True;
    ConditionMeant(c, st);
    var s := While(CondOf(c), body);
    if fuel > 0 && Meaning(c, st) {
      var o := ExecBody(body, st, rv, fuel);
      if o.Normal? || o.Continued? {
        WhileRule(c, body, o.st, rv, fuel - 1, inv, left);
        assert ExecWhile(s, st, rv, fuel) == ExecWhile(s, o.st, rv, fuel - 1);
      }
    }
  }

  /** The same for REPEAT, whose condition ends it. */
  lemma {:induction false} RepeatRule(c: Condition, body: seq<Stmt>, st: Store, rv: ResultVar, fuel: nat,
      inv: Store -> bool, left: Store -> bool)
    requires inv(st) && RoundsKeep(c, body, rv, inv, left, false)
    requires forall t :: inv(t) ==> Decidable(c, t)
    ensures var o := Exec(Repeat(body, CondOf(c)), st, rv, fuel);
            o.Normal? ==> (inv(o.st) && Meaning(c, o.st)) || left(o.st)
    decreases fuel
  {
    hide Meaning, Decidable, CondOf, ExecBody, True;
    var s := Repeat(body, CondOf(c));
    var o := ExecBody(body, st, rv, fuel);
    if o.Normal? || o.Continued? {
      ConditionMeant(c, o.st);
      assert ExecRepeat(s, st, rv, fuel) == ExecUntil(s, o.st, rv, fuel);
      if !Meaning(c, o.st) && fuel > 0 {
        RepeatRule(c, body, o.st, rv, fuel - 1, inv, left);
      }
    }
  }
}

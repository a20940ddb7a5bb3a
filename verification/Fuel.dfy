/** The structured semantics with more fuel: a statement that has finished stays finished. */
module Fuel {
  import opened MachineInts
  import opened Statements
  import opened Wrappers

  lemma {:induction false} ExecMore(s: Stmt, st: Store, rv: ResultVar, a: nat, b: nat)
    requires a <= b && !Exec(s, st, rv, a).OutOfFuel?
    ensures Exec(s, st, rv, b) == Exec(s, st, rv, a)
    decreases a, s, 1
  {
    hide Put, AnyHit, WithinBound, Advanced;
    match s
    case If(c, t, _, _) => if True(c.eval(st)) { BodyMore(t, st, rv, a, b); } else { ElseMore(s, 0, st, rv, a, b); }
    case Case(sel, _, _) => CaseMore(s, 0, sel.eval(st), st, rv, a, b);
    case While(_, _) => WhileMore(s, st, rv, a, b);
    case Repeat(_, _) => RepeatMore(s, st, rv, a, b);
    case For(x, xt, from, to, _, _) =>
      var start := Put(st, x, xt, from.eval(st), from.ty);
      ForMore(s, to.eval(st), StepValue(s, start), start, rv, a, b);
    case _ =>
  }

  lemma {:induction false} BodyMore(ss: seq<Stmt>, st: Store, rv: ResultVar, a: nat, b: nat)
    requires a <= b && !ExecBody(ss, st, rv, a).OutOfFuel?
    ensures ExecBody(ss, st, rv, b) == ExecBody(ss, st, rv, a)
    decreases a, ss, 0
  {
    hide Exec;
    if ss != [] {
      ExecMore(ss[0], st, rv, a, b);
      var o := Exec(ss[0], st, rv, a);
      if o.Normal? { BodyMore(ss[1..], o.st, rv, a, b); }
    }
  }

  lemma {:induction false} ElseMore(s: Stmt, i: nat, st: Store, rv: ResultVar, a: nat, b: nat)
    requires s.If? && i <= |s.elsifs| && a <= b && !ExecElse(s, i, st, rv, a).OutOfFuel?
    ensures ExecElse(s, i, st, rv, b) == ExecElse(s, i, st, rv, a)
    decreases a, s, 0, |s.elsifs| - i
  {
    hide ExecBody;
    if i < |s.elsifs| {
      if True(s.elsifs[i].cond.eval(st)) { BodyMore(s.elsifs[i].body, st, rv, a, b); }
      else { ElseMore(s, i + 1, st, rv, a, b); }
    } else if s.els.Else? {
      BodyMore(s.els.body, st, rv, a, b);
    }
  }

  lemma {:induction false} CaseMore(s: Stmt, i: nat, sel: Val, st: Store, rv: ResultVar, a: nat, b: nat)
    requires s.Case? && i <= |s.branches| && a <= b && !ExecCase(s, i, sel, st, rv, a).OutOfFuel?
    ensures ExecCase(s, i, sel, st, rv, b) == ExecCase(s, i, sel, st, rv, a)
    decreases a, s, 0, |s.branches| - i
  {
    hide ExecBody, AnyHit;
    if i < |s.branches| {
      if AnyHit(s.branches[i].labels, sel, s.selector.ty, st) { BodyMore(s.branches[i].body, st, rv, a, b); }
      else { CaseMore(s, i + 1, sel, st, rv, a, b); }
    } else if s.els.Else? {
      BodyMore(s.els.body, st, rv, a, b);
    }
  }

  lemma {:induction false} WhileMore(s: Stmt, st: Store, rv: ResultVar, a: nat, b: nat)
    requires s.While? && a <= b && !ExecWhile(s, st, rv, a).OutOfFuel?
    ensures ExecWhile(s, st, rv, b) == ExecWhile(s, st, rv, a)
    decreases a, s, 0
  {
    hide ExecBody;
    if True(s.cond.eval(st)) {
      BodyMore(s.body, st, rv, a, b);
      var o := ExecBody(s.body, st, rv, a);
      if o.Normal? || o.Continued? { WhileMore(s, o.st, rv, a - 1, b - 1); }
    }
  }

  lemma {:induction false} RepeatMore(s: Stmt, st: Store, rv: ResultVar, a: nat, b: nat)
    requires s.Repeat? && a <= b && !ExecRepeat(s, st, rv, a).OutOfFuel?
    ensures ExecRepeat(s, st, rv, b) == ExecRepeat(s, st, rv, a)
    decreases a, s, 0
  {
    hide ExecBody;
    BodyMore(s.body, st, rv, a, b);
    var o := ExecBody(s.body, st, rv, a);
    if (o.Normal? || o.Continued?) && !True(s.until.eval(o.st)) { RepeatMore(s, o.st, rv, a - 1, b - 1); }
  }

  lemma {:induction false} ForMore(s: Stmt, to: Val, step: Val, st: Store, rv: ResultVar, a: nat, b: nat)
    requires s.For? && a <= b && !ExecFor(s, to, step, st, rv, a).OutOfFuel?
    ensures ExecFor(s, to, step, st, rv, b) == ExecFor(s, to, step, st, rv, a)
    decreases a, s, 0
  {
    hide ExecBody, WithinBound, Advanced;
    if WithinBound(Head(s), st, to, step) {
      BodyMore(s.body, st, rv, a, b);
      var o := ExecBody(s.body, st, rv, a);
      if o.Normal? || o.Continued? { ForMore(s, to, step, Advanced(Head(s), o.st, step), rv, a - 1, b - 1); }
    }
  }
}

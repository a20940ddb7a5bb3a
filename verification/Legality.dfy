/** Which statements the code generator accepts, told by where EXIT, CONTINUE, RETURN and a BY of 0 occur
    in them; and that an accepted statement leaves only what surrounds it. */
module Legality {
  import opened MachineInts
  import opened Statements
  import opened Wrappers
  import T = IntTyping

  // ----- occurrences -------------------------------------------------------

  /** t is s or a statement in it; `inLoop` says whether a loop of s is around it. */
  ghost predicate Occurs(t: Stmt, inLoop: bool, s: Stmt)
    decreases s, 1
  {
    || (t == s && !inLoop)
    || match s
       case If(_, b, es, e) =>
         || OccursIn(t, inLoop, b)
         || (exists i :: 0 <= i < |es| && OccursIn(t, inLoop, es[i].body))
         || (e.Else? && OccursIn(t, inLoop, e.body))
       case Case(_, bs, e) =>
         || (exists i :: 0 <= i < |bs| && OccursIn(t, inLoop, bs[i].body))
         || (e.Else? && OccursIn(t, inLoop, e.body))
       case For(_, _, _, _, _, b) => inLoop && (OccursIn(t, true, b) || OccursIn(t, false, b))
       case While(_, b) => inLoop && (OccursIn(t, true, b) || OccursIn(t, false, b))
       case Repeat(b, _) => inLoop && (OccursIn(t, true, b) || OccursIn(t, false, b))
       case _ => false
  }

  ghost predicate OccursIn(t: Stmt, inLoop: bool, ss: seq<Stmt>)
    decreases ss, 0
  {
    exists i :: 0 <= i < |ss| && Occurs(t, inLoop, ss[i])
  }

  /** The statement by itself may stand here: EXIT and CONTINUE in a loop, RETURN in a POU body and with a
      value only where there is a result, and no literal step of 0 but an unsigned one. */
  predicate Placed(t: Stmt, sc: Scope, inLoop: bool) {
    match t
    case Exit => sc.inLoop || inLoop
    case Continue => sc.inLoop || inLoop
    case Return(None) => sc.inPou
    case Return(Some(_)) => sc.inPou && sc.hasResult
    case For(_, _, _, _, Some(d), _) => d.constant == Some(0) ==> d.ty.Some? && T.WidensUnsigned(d.ty.value)
    case _ => true
  }

  function Looping(sc: Scope): Scope { sc.(inLoop := true) }

  lemma {:induction false} AcceptedPlaced(s: Stmt, sc: Scope, t: Stmt, inLoop: bool)
    requires Accepted(s, sc) && Occurs(t, inLoop, s)
    ensures Placed(t, sc, inLoop)
    decreases s, 1
  {
    if !(t == s && !inLoop) {
      match s
      case If(_, b, es, e) =>
        if OccursIn(t, inLoop, b) {
          AllPlaced(b, sc, t, inLoop);
        } else if i :| 0 <= i < |es| && OccursIn(t, inLoop, es[i].body) {
          AllPlaced(es[i].body, sc, t, inLoop);
        } else {
          AllPlaced(e.body, sc, t, inLoop);
        }
      case Case(_, bs, e) =>
        if i :| 0 <= i < |bs| && OccursIn(t, inLoop, bs[i].body) {
          AllPlaced(bs[i].body, sc, t, inLoop);
        } else {
          AllPlaced(e.body, sc, t, inLoop);
        }
      case For(_, _, _, _, _, b) => AllPlaced(b, Looping(sc), t, OccursIn(t, true, b));
      case While(_, b) => AllPlaced(b, Looping(sc), t, OccursIn(t, true, b));
      case Repeat(b, _) => AllPlaced(b, Looping(sc), t, OccursIn(t, true, b));
    }
  }

  lemma {:induction false} AllPlaced(ss: seq<Stmt>, sc: Scope, t: Stmt, inLoop: bool)
    requires AllAccepted(ss, sc) && OccursIn(t, inLoop, ss)
    ensures Placed(t, sc, inLoop)
    decreases ss, 0
  {
    var i :| 0 <= i < |ss| && Occurs(t, inLoop, ss[i]);
    AcceptedPlaced(ss[i], sc, t, inLoop);
  }

  /** What is not accepted has a culprit. */
  lemma {:induction false} Culprit(s: Stmt, sc: Scope) returns (t: Stmt, inLoop: bool)
    requires !Accepted(s, sc)
    ensures Occurs(t, inLoop, s) && !Placed(t, sc, inLoop)
    decreases s, 1
  {
    t, inLoop := s, false;
    match s
    case If(_, b, es, e) =>
      if !AllAccepted(b, sc) {
        t, inLoop := CulpritIn(b, sc);
      } else if i :| 0 <= i < |es| && !AllAccepted(es[i].body, sc) {
        t, inLoop := CulpritIn(es[i].body, sc);
      } else {
        t, inLoop := CulpritIn(e.body, sc);
      }
    case Case(_, bs, e) =>
      if i :| 0 <= i < |bs| && !AllAccepted(bs[i].body, sc) {
        t, inLoop := CulpritIn(bs[i].body, sc);
      } else {
        t, inLoop := CulpritIn(e.body, sc);
      }
    case For(_, _, _, _, _, b) =>
      if !StepIsZero(s) { t, inLoop := CulpritInLoop(b, sc); }
    case While(_, b) => t, inLoop := CulpritInLoop(b, sc);
    case Repeat(b, _) => t, inLoop := CulpritInLoop(b, sc);
    case _ =>
  }

  lemma {:induction false} CulpritIn(ss: seq<Stmt>, sc: Scope) returns (t: Stmt, inLoop: bool)
    requires !AllAccepted(ss, sc)
    ensures OccursIn(t, inLoop, ss) && !Placed(t, sc, inLoop)
    decreases ss, 0
  {
    var i :| 0 <= i < |ss| && !Accepted(ss[i], sc);
    t, inLoop := Culprit(ss[i], sc);
  }

  lemma {:induction false} CulpritInLoop(ss: seq<Stmt>, sc: Scope) returns (t: Stmt, inLoop: bool)
    requires !AllAccepted(ss, Looping(sc))
    ensures inLoop && (OccursIn(t, true, ss) || OccursIn(t, false, ss)) && !Placed(t, sc, inLoop)
    decreases ss, 1
  {
    t, inLoop := CulpritIn(ss, Looping(sc));
    inLoop := true;
  }

  /** Main result: a body is accepted exactly when every statement that occurs in it may stand where it
      does. */
  lemma AcceptedIff(ss: seq<Stmt>, sc: Scope)
    ensures AllAccepted(ss, sc) <==> forall t, inLoop :: OccursIn(t, inLoop, ss) ==> Placed(t, sc, inLoop)
  {
    hide AllAccepted, OccursIn, Placed;
    if AllAccepted(ss, sc) {
      forall t, inLoop | OccursIn(t, inLoop, ss) ensures Placed(t, sc, inLoop) { AllPlaced(ss, sc, t, inLoop); }
    } else {
      var t, inLoop := CulpritIn(ss, sc);
    }
  }

  // ----- where control goes ------------------------------------------------

  /** Only a loop around is left by EXIT and CONTINUE, and only a POU body by RETURN. */
  predicate Stays(o: Outcome, sc: Scope) { (o.Exited? || o.Continued? ==> sc.inLoop) && (o.Returned? ==> sc.inPou) }

  lemma {:induction false} StmtStays(s: Stmt, sc: Scope, st: Store, rv: ResultVar, fuel: nat)
    requires Accepted(s, sc)
    ensures Stays(Exec(s, st, rv, fuel), sc)
    decreases fuel, s, 1
  {
    hide True, Put, AnyHit, WithinBound, Advanced;
    match s
    case If(c, b, _, _) =>
      if True(c.eval(st)) { BodyStays(b, sc, st, rv, fuel); } else { ElseStays(s, sc, 0, st, rv, fuel); }
    case Case(sel, _, _) => CaseStays(s, sc, 0, sel.eval(st), st, rv, fuel);
    case While(_, _) => WhileStays(s, sc, st, rv, fuel);
    case Repeat(_, _) => RepeatStays(s, sc, st, rv, fuel);
    case For(x, xt, from, to, _, _) =>
      var start := Put(st, x, xt, from.eval(st), from.ty);
      ForStays(s, sc, to.eval(st), StepValue(s, start), start, rv, fuel);
    case _ =>
  }

  /** Main result: what is accepted outside a loop never asks for one to be left, and outside a POU body
      never returns. */
  lemma {:induction false} BodyStays(ss: seq<Stmt>, sc: Scope, st: Store, rv: ResultVar, fuel: nat)
    requires AllAccepted(ss, sc)
    ensures Stays(ExecBody(ss, st, rv, fuel), sc)
    decreases fuel, ss, 0
  {
    hide Exec, Accepted;
    if ss != [] {
      StmtStays(ss[0], sc, st, rv, fuel);
      var o := Exec(ss[0], st, rv, fuel);
      if o.Normal? { BodyStays(ss[1..], sc, o.st, rv, fuel); }
    }
  }

  lemma {:induction false} ElseStays(s: Stmt, sc: Scope, i: nat, st: Store, rv: ResultVar, fuel: nat)
    requires s.If? && i <= |s.elsifs| && Accepted(s, sc)
    ensures Stays(ExecElse(s, i, st, rv, fuel), sc)
    decreases fuel, s, 0, |s.elsifs| - i
  {
    hide True, ExecBody, AllAccepted;
    if i < |s.elsifs| {
      if True(s.elsifs[i].cond.eval(st)) { BodyStays(s.elsifs[i].body, sc, st, rv, fuel); }
      else { ElseStays(s, sc, i + 1, st, rv, fuel); }
    } else if s.els.Else? {
      BodyStays(s.els.body, sc, st, rv, fuel);
    }
  }

  lemma {:induction false} CaseStays(s: Stmt, sc: Scope, i: nat, sel: Val, st: Store, rv: ResultVar, fuel: nat)
    requires s.Case? && i <= |s.branches| && Accepted(s, sc)
    ensures Stays(ExecCase(s, i, sel, st, rv, fuel), sc)
    decreases fuel, s, 0, |s.branches| - i
  {
    hide AnyHit, ExecBody, AllAccepted;
    if i < |s.branches| {
      if AnyHit(s.branches[i].labels, sel, s.selector.ty, st) { BodyStays(s.branches[i].body, sc, st, rv, fuel); }
      else { CaseStays(s, sc, i + 1, sel, st, rv, fuel); }
    } else if s.els.Else? {
      BodyStays(s.els.body, sc, st, rv, fuel);
    }
  }

  lemma {:induction false} WhileStays(s: Stmt, sc: Scope, st: Store, rv: ResultVar, fuel: nat)
    requires s.While? && Accepted(s, sc)
    ensures Stays(ExecWhile(s, st, rv, fuel), sc)
    decreases fuel, s, 0
  {
    hide True, ExecBody, AllAccepted;
    if fuel > 0 {
      BodyStays(s.body, Looping(sc), st, rv, fuel);
      var o := ExecBody(s.body, st, rv, fuel);
      if o.Normal? || o.Continued? { WhileStays(s, sc, o.st, rv, fuel - 1); }
    }
  }

  lemma {:induction false} RepeatStays(s: Stmt, sc: Scope, st: Store, rv: ResultVar, fuel: nat)
    requires s.Repeat? && Accepted(s, sc)
    ensures Stays(ExecRepeat(s, st, rv, fuel), sc)
    decreases fuel, s, 0
  {
    hide True, ExecBody, AllAccepted;
    BodyStays(s.body, Looping(sc), st, rv, fuel);
    var o := ExecBody(s.body, st, rv, fuel);
    if (o.Normal? || o.Continued?) && fuel > 0 { RepeatStays(s, sc, o.st, rv, fuel - 1); }
  }

  lemma {:induction false} ForStays(s: Stmt, sc: Scope, to: Val, step: Val, st: Store, rv: ResultVar, fuel: nat)
    requires s.For? && Accepted(s, sc)
    ensures Stays(ExecFor(s, to, step, st, rv, fuel), sc)
    decreases fuel, s, 0
  {
    hide WithinBound, Advanced, ExecBody, AllAccepted, StepIsZero;
    if fuel > 0 {
      BodyStays(s.body, Looping(sc), st, rv, fuel);
      var o := ExecBody(s.body, st, rv, fuel);
      if o.Normal? || o.Continued? { ForStays(s, sc, to, step, Advanced(Head(s), o.st, step), rv, fuel - 1); }
    }
  }
}

/** FOR loops without BY: whether they end when the increment can wrap. */
module ForLimits {
  import opened ForCount
  import opened ForOrbits
  import opened MachineInts
  import opened Statements
  import opened Wrappers
  import T = IntTyping

  // ----- the end value at the type's limit ---------------------------------

  function Limit(t: T.IntTy): int {
    if T.WidensUnsigned(t) then Modulus(T.BitSize(t)) - 1 else Half(T.BitSize(t)) - 1
  }

  /** The largest value of the control variable, as the bound test takes it. */
  function Ceiling(s: Stmt, to: Val): int
    requires s.For?
  {
    var (w, unsigned) := Sight(s, to);
    if unsigned && !T.WidensUnsigned(s.xt) then Modulus(w) - 1 else Limit(s.xt)
  }

  /** The bound, as the bound test takes it. */
  function BoundSeen(s: Stmt, to: Val): int
    requires s.For?
  {
    T.Seen(T.Read(to, s.to.ty), Sight(s, to).0, Sight(s, to).1)
  }

  /** Going up by 1 the variable comes to every value of its type. */
  lemma Reaches(t: T.IntTy, c: int, v: int) returns (k: nat)
    requires T.InType(c, t) && T.InType(v, t)
    ensures Wrapped(t, c + k) == v
  {
    var w := T.BitSize(t);
    k := if v >= c then v - c else v - c + Modulus(w);
    ReadWrapped(v, t);
    WrapUnique(v + Modulus(w), w, Wrap(v, w), Laps(v, w) + 1);
  }

  lemma UpAdmits(s: Stmt, to: Val, step: Val, c: int)
    requires s.For? && T.Read(step, StepType(s)) == 1 && T.InType(c, s.xt)
    ensures Admits(s, to, step, c) || BoundSeen(s, to) < Ceiling(s, to)
  {
    SightWide(s, to);
    hide T.PromoteIntOperands, T.Read, StepType;
  }

  lemma SightWide(s: Stmt, to: Val)
    requires s.For?
    ensures T.BitSize(s.xt) <= Sight(s, to).0
  {
    T.WidthsMatch(T.BitSize(s.xt), T.SignednessOf(Some(s.xt)), to.w, T.SignednessOf(s.to.ty));
  }

  lemma TopNotAdmitted(s: Stmt, to: Val, step: Val) returns (v: int)
    requires s.For? && T.Read(step, StepType(s)) == 1 && BoundSeen(s, to) < Ceiling(s, to)
    ensures T.InType(v, s.xt) && !Admits(s, to, step, v)
  {
    v := if Sight(s, to).1 && !T.WidensUnsigned(s.xt) then -1 else Limit(s.xt);
    SightWide(s, to);
    hide T.PromoteIntOperands, T.Read, StepType;
  }

  /** Main result: counting up by 1 a loop comes to a value that stops it exactly when its bound, as the bound
      test takes it, is below the largest value of its variable: FOR b := 0 TO 300 over a BYTE never does. */
  lemma UnitStops(s: Stmt, to: Val, step: Val, c: int)
    requires s.For? && T.Read(step, StepType(s)) == 1 && T.InType(c, s.xt)
    ensures HasStop(s, to, step, c) <==> BoundSeen(s, to) < Ceiling(s, to)
  {
    hide T.Read, StepType, Wrapped, Admits, HasStop, BoundSeen, Ceiling, T.InType;
    StopsSomewhere(s, to, step, c);
    if k: nat :| !Admits(s, to, step, Wrapped(s.xt, c + k * T.Read(step, StepType(s)))) {
      WrapsBack(s.xt, c + k * T.Read(step, StepType(s)));
      UpAdmits(s, to, step, Wrapped(s.xt, c + k * T.Read(step, StepType(s))));
    }
    if BoundSeen(s, to) < Ceiling(s, to) {
      var v := TopNotAdmitted(s, to, step);
      var k := Reaches(s.xt, c, v);
      assert k * T.Read(step, StepType(s)) == k;
    }
  }

  lemma WrapsNegative(t: T.IntTy)
    requires !T.WidensUnsigned(t)
    ensures var v := Val(T.BitSize(t), Wrap(Limit(t) + 1, T.BitSize(t))); ValidVal(v) && T.Read(v, Some(t)) < 0
  {
  }

  /** A step of 1 leads a signed variable to an unsigned 64-bit bound, and stops behind it, from every
      start that is not negative. */
  lemma MixedRight(w: Course, c: int)
    requires Proper(w) && w.mixed && w.step == 1 && !T.WidensUnsigned(w.ty) && T.InType(c, w.ty) && c >= 0
    ensures Right(w, c)
  {
    BeyondBound(w, c);
    if w.bound == Limit(w.ty) {
      WrapsNegative(w.ty);
      hide T.Read, Wrap, Rounds, Beyond;
      assert Beyond(w, c) == w.bound + 1;
    } else {
      BelowLimit(w.bound, w.ty);
      RightWhenRepresentable(w, c);
    }
  }

  lemma BelowLimit(c: int, t: T.IntTy)
    requires T.InType(c, t) && c != Limit(t)
    ensures T.InType(c + 1, t)
  {
  }

  // ----- main result -------------------------------------------------------

  /** Main result: a loop without BY whose bound its variable can hold ends exactly when its body finishes in
      each round and the bound is not the largest value of the variable's type. If a signed variable meets an
      unsigned bound of 64 bits it ends at every bound, without a round if the start is negative. */
  lemma DefaultStepEnds(s: Stmt, st: Store, rv: ResultVar)
    requires s.For? && s.stepBy.None?
    requires ValidVal(s.from.eval(st)) && T.InType(T.Read(s.from.eval(st), s.from.ty), s.xt)
    requires ValidVal(s.to.eval(st)) && T.InType(T.Read(s.to.eval(st), s.to.ty), s.xt)
    requires var start := Put(st, s.x, s.xt, s.from.eval(st), s.from.ty);
             Keeps(s, s.to.eval(st), StepValue(s, start), start, rv)
    ensures var start := Put(st, s.x, s.xt, s.from.eval(st), s.from.ty);
            var (f, t) := (T.Read(s.from.eval(st), s.from.ty), T.Read(s.to.eval(st), s.to.ty));
            var mixed := MixedBound(s, s.to.eval(st));
            Ends(s, st, rv)
            <==> (mixed || t != Limit(s.xt))
                 && FinishesRounds(s, StepValue(s, start), start, rv, if mixed && f < 0 then 0 else Count(f, t, 1))
  {
    var start := Put(st, s.x, s.xt, s.from.eval(st), s.from.ty);
    var (to, step) := (s.to.eval(st), StepValue(s, start));
    StartsAt(s, st);
    ExecIs(s, st, rv);
    hide Exec, ExecFor, Keeps, FinishesRounds, Count, Put, T.Read, T.InType, Ends, RoundsEnd, Head, WithinBound;
    EndsAlike(s, st, to, step, start, rv);
    DefaultStep(s, start, to);
    if !MixedBound(s, to) && T.Read(to, s.to.ty) == Limit(s.xt) {
      LimitIsCeiling(s, to);
      BoundedStepped(s, to, step);
      NeverEnds(s, to, step, start, rv);
    } else {
      DefaultEnds(s, to, step, start, rv);
    }
  }

  /** So a loop with such a bound never ends, unless its body leaves it. */
  lemma NeverEnds(s: Stmt, to: Val, step: Val, start: Store, rv: ResultVar)
    requires s.For? && Keeps(s, to, step, start, rv) && Stepped(s, to, step)
    requires T.Read(step, StepType(s)) == 1 && BoundSeen(s, to) >= Ceiling(s, to)
    ensures !RoundsEnd(s, to, step, start, rv)
  {
    InOwnType(s, to, step, start);
    hide RoundsEnd, Keeps, Stepped, HasStop, Control, BoundSeen, Ceiling, T.InType, T.Read, StepType;
    UnitStops(s, to, step, Control(s, start));
    if RoundsEnd(s, to, step, start, rv) { EndingStops(s, to, step, start, rv); }
  }

  lemma LimitIsCeiling(s: Stmt, to: Val)
    requires s.For? && ValidVal(to) && !MixedBound(s, to) && T.Read(to, s.to.ty) == Limit(s.xt)
    ensures BoundSeen(s, to) >= Ceiling(s, to)
  {
  }

  lemma DefaultEnds(s: Stmt, to: Val, step: Val, start: Store, rv: ResultVar)
    requires s.For? && Keeps(s, to, step, start, rv) && Bounded(s, to, step) && T.Read(step, StepType(s)) == 1
    requires MixedBound(s, to) || T.Read(to, s.to.ty) != Limit(s.xt)
    ensures var (c, t) := (Control(s, start), T.Read(to, s.to.ty));
            RoundsEnd(s, to, step, start, rv)
            <==> FinishesRounds(s, step, start, rv, if MixedBound(s, to) && c < 0 then 0 else Count(c, t, 1))
  {
    var (w, c) := (CourseOf(s, to, step), Control(s, start));
    CourseProper(s, to, step);
    InOwnType(s, to, step, start);
    TestIs(s, to, step, start);
    if w.mixed && c < 0 {
      UnfoldEnd(s, to, step, start, rv, 1);
      FinishesNone(s, step, start, rv);
      hide ExecFor, FinishesRounds;
      assert !ExecFor(s, to, step, start, rv, 1).OutOfFuel?;
    } else {
      if w.mixed { MixedRight(w, c); } else { UnmixedRight(w, c); }
      hide ExecFor, RoundsEnd, FinishesRounds, Keeps, Bounded, Right, Control, Count, WithinBound, T.Read, T.InType;
      ForEnds(s, to, step, start, rv);
    }
  }

  lemma UnmixedRight(w: Course, c: int)
    requires Proper(w) && !w.mixed && w.step == 1 && T.InType(c, w.ty) && w.bound != Limit(w.ty)
    ensures Right(w, c)
  {
    BelowLimit(w.bound, w.ty);
    RightWhenRepresentable(w, c);
  }

  lemma DefaultStep(s: Stmt, start: Store, to: Val)
    requires s.For? && s.stepBy.None? && ValidVal(to) && T.InType(T.Read(to, s.to.ty), s.xt)
    ensures Bounded(s, to, StepValue(s, start)) && T.Read(StepValue(s, start), StepType(s)) == 1
  {
    OneIsOne(s.xt);
  }

  lemma OneIsOne(t: T.IntTy)
    ensures T.Read(Val(T.BitSize(t), 1), Some(t)) == 1 && ValidVal(Val(T.BitSize(t), 1))
  {
  }
}

/** How often a FOR loop runs, and with which values of its control variable. */
module ForCount {
  import opened Fuel
  import opened MachineInts
  import opened Nonlinear
  import opened Statements
  import opened Wrappers
  import T = IntTyping

  /** The control variable, read as its declared type. */
  function Control(s: Stmt, st: Store): int
    requires s.For?
  {
    T.Read(T.Load(st, s.x, s.xt), Some(s.xt))
  }

  /** The values the control variable has at the start of each round. */
  function Visits(s: Stmt, to: Val, step: Val, st: Store, rv: ResultVar, fuel: nat): seq<int>
    requires s.For?
    decreases fuel
  {
    if fuel == 0 || !WithinBound(Head(s), st, to, step) then []
    else
      match ExecBody(s.body, st, rv, fuel)
      case Normal(st') => [Control(s, st)] + Visits(s, to, step, Advanced(Head(s), st', step), rv, fuel - 1)
      case Continued(st') => [Control(s, st)] + Visits(s, to, step, Advanced(Head(s), st', step), rv, fuel - 1)
      case _ => [Control(s, st)]
  }

  /** from, from + d, from + 2 d, ... */
  function Progression(from: int, d: int, n: nat): seq<int>
    decreases n
  {
    if n == 0 then [] else [from] + Progression(from + d, d, n - 1)
  }

  /** max(0, (to - from) / d + 1), with the quotient rounded down. */
  function Count(from: int, to: int, d: int): nat
    requires d != 0
  {
    var q := if d > 0 then (to - from) / d else (from - to) / -d;
    if q + 1 > 0 then q + 1 else 0
  }

  /** In the rounds of this run the body neither writes the control variable nor leaves the loop. */
  predicate Tame(s: Stmt, to: Val, step: Val, st: Store, rv: ResultVar, fuel: nat)
    requires s.For?
    decreases fuel
  {
    fuel > 0 && WithinBound(Head(s), st, to, step) ==>
      match ExecBody(s.body, st, rv, fuel)
      case Normal(st') =>
        Control(s, st') == Control(s, st) && Tame(s, to, step, Advanced(Head(s), st', step), rv, fuel - 1)
      case Continued(st') =>
        Control(s, st') == Control(s, st) && Tame(s, to, step, Advanced(Head(s), st', step), rv, fuel - 1)
      case OutOfFuel => true
      case _ => false
  }

  /** So it is in every round the loop comes to. */
  ghost predicate Keeps(s: Stmt, to: Val, step: Val, st: Store, rv: ResultVar)
    requires s.For?
  {
    forall fuel: nat :: Tame(s, to, step, st, rv, fuel)
  }

  /** A signed control variable against an unsigned bound of 64 bits. */
  predicate MixedBound(s: Stmt, to: Val)
    requires s.For?
  {
    !T.WidensUnsigned(s.xt) && T.ReadsUnsigned(s.to.ty) && to.w == 64
  }

  /** What the step is if there is no BY, and that a literal step fits its type. */
  predicate Stepped(s: Stmt, to: Val, step: Val)
    requires s.For?
  {
    && ValidVal(to) && ValidVal(step)
    && (s.stepBy.Some? && s.stepBy.value.constant.Some? && !T.ReadsUnsigned(StepType(s)) ==>
          s.stepBy.value.constant.value == T.Read(step, StepType(s)))
    && (s.stepBy.None? ==> step == Val(T.BitSize(s.xt), 1))
  }

  /** What a caller can check of a loop before it starts: the bound is representable in the control
      variable's type, and the step is not zero. */
  predicate Bounded(s: Stmt, to: Val, step: Val)
    requires s.For?
  {
    Stepped(s, to, step) && T.InType(T.Read(to, s.to.ty), s.xt) && T.Read(step, StepType(s)) != 0
  }

  lemma LoadValid(s: Stmt, st: Store)
    requires s.For?
    ensures var v := T.Load(st, s.x, s.xt); ValidVal(v) && v.w == T.BitSize(s.xt) && T.InType(Control(s, st), s.xt)
  {
    var v := T.Load(st, s.x, s.xt);
    AsSignedWrap(v.bits, v.w);
  }

  /** The bound test compares mathematically, in the direction of the step, unless it compares a
      negative control variable with an unsigned bound of 64 bits. */
  lemma BoundExact(s: Stmt, st: Store, to: Val, step: Val)
    requires s.For? && Bounded(s, to, step) && (MixedBound(s, to) ==> Control(s, st) >= 0)
    ensures var (t, d) := (T.Read(to, s.to.ty), T.Read(step, StepType(s)));
            WithinBound(Head(s), st, to, step) == (if d > 0 then Control(s, st) <= t else Control(s, st) >= t)
  {
    var cur := T.Load(st, s.x, s.xt);
    LoadValid(s, st);
    BoundUnsigned(s, st, to, step);
    hide Modulus, Wrap, T.CompileCmp, T.PromoteIntOperands;
    T.ComparesRight(T.Le, cur, Some(s.xt), to, s.to.ty);
    T.ComparesRight(T.Ge, cur, Some(s.xt), to, s.to.ty);
    if s.stepBy.None? { WrapUnsigned(1, T.BitSize(s.xt)); }
  }

  lemma BoundUnsigned(s: Stmt, st: Store, to: Val, step: Val)
    requires s.For? && Bounded(s, to, step) && (MixedBound(s, to) ==> Control(s, st) >= 0)
    ensures var cur := T.Load(st, s.x, s.xt);
            T.PromoteIntOperands(cur.w, T.SignednessOf(Some(s.xt)), to.w, T.SignednessOf(s.to.ty)).1 ==>
              Control(s, st) >= 0 && T.Read(to, s.to.ty) >= 0
  {
    LoadValid(s, st);
    hide Wrap, T.Load;
  }

  /** There it takes the control variable for larger than any bound. */
  lemma BoundWrong(s: Stmt, st: Store, to: Val, step: Val)
    requires s.For? && Bounded(s, to, step) && MixedBound(s, to) && Control(s, st) < 0
    ensures WithinBound(Head(s), st, to, step) == (T.Read(step, StepType(s)) < 0)
  {
    var cur := T.Load(st, s.x, s.xt);
    LoadValid(s, st);
    T.ComparisonExact(T.Le, cur, Some(s.xt), to, s.to.ty);
    T.ComparisonExact(T.Ge, cur, Some(s.xt), to, s.to.ty);
    hide Wrap, T.CompileCmp, T.Load;
    if s.stepBy.None? { WrapUnsigned(1, T.BitSize(s.xt)); }
  }

  lemma WidenedWraps(v: Val, t: Option<T.IntTy>, wide: Width)
    requires ValidVal(v) && v.w <= wide
    ensures Resize(v, wide, !T.ReadsUnsigned(t)).bits == Wrap(T.Read(v, t), wide)
  {
    hide Modulus, Wrap;
    AsSignedWrap(v.bits, v.w);
    ModulusGrows(v.w, wide);
    if T.ReadsUnsigned(t) || v.w == wide { WrapUnsigned(v.bits, wide); }
  }

  lemma SumWraps(cur: Val, ct: T.IntTy, step: Val, dt: Option<T.IntTy>)
    requires ValidVal(cur) && ValidVal(step) && cur.w == T.BitSize(ct)
    ensures var wide := Max(cur.w, step.w);
            var (a, b) := (Resize(cur, wide, !T.WidensUnsigned(ct)), Resize(step, wide, !T.ReadsUnsigned(dt)));
            Resize(Val(wide, Wrap(a.bits + b.bits, wide)), cur.w, true)
            == Val(cur.w, Wrap(T.Read(cur, Some(ct)) + T.Read(step, dt), cur.w))
  {
    var wide := Max(cur.w, step.w);
    hide Modulus, Wrap, AsSigned, T.Read;
    WidenedWraps(cur, Some(ct), wide);
    WidenedWraps(step, dt, wide);
    var (c, d) := (T.Read(cur, Some(ct)), T.Read(step, dt));
    WrapAdd(c, d, wide);
    WrapNarrow(c + d, wide, cur.w);
  }

  lemma PutLoad(st: Store, x: string, xt: T.IntTy, v: Val)
    requires v.w == T.BitSize(xt) && ValidVal(v)
    ensures T.Load(Put(st, x, xt, v, Some(xt)), x, xt) == v
  {
    hide Modulus;
    WrapUnsigned(v.bits, v.w);
  }

  /** The value the type makes of x. */
  function Wrapped(t: T.IntTy, x: int): int { T.Read(Val(T.BitSize(t), Wrap(x, T.BitSize(t))), Some(t)) }

  /** The increment adds the step, and wraps to the control variable's type. */
  lemma AdvanceWraps(s: Stmt, st: Store, step: Val)
    requires s.For? && ValidVal(step)
    ensures Control(s, Advanced(Head(s), st, step)) == Wrapped(s.xt, Control(s, st) + T.Read(step, StepType(s)))
  {
    hide Modulus, Wrap, Resize, Put, T.Load, T.Read, T.InType, T.BitSize, T.WidensUnsigned, Advanced, StepType, Max;
    var cur := T.Load(st, s.x, s.xt);
    LoadValid(s, st);
    SumWraps(cur, s.xt, step, StepType(s));
    var next := Val(cur.w, Wrap(Control(s, st) + T.Read(step, StepType(s)), cur.w));
    WrapValid(Control(s, st) + T.Read(step, StepType(s)), cur.w);
    PutLoad(st, s.x, s.xt, next);
    AdvancedIs(s, st, step, next);
  }

  lemma WrapValid(x: int, w: Width)
    ensures ValidVal(Val(w, Wrap(x, w)))
  {
  }

  /** The increment is exact as long as the sum is representable. */
  lemma AdvanceExact(s: Stmt, st: Store, step: Val)
    requires s.For? && ValidVal(step)
    requires T.InType(Control(s, st) + T.Read(step, StepType(s)), s.xt)
    ensures Control(s, Advanced(Head(s), st, step)) == Control(s, st) + T.Read(step, StepType(s))
  {
    AdvanceWraps(s, st, step);
    ReadWrapped(Control(s, st) + T.Read(step, StepType(s)), s.xt);
    hide *;
  }

  lemma ReadWrapped(v: int, t: T.IntTy)
    requires T.InType(v, t)
    ensures Wrapped(t, v) == v
  {
    T.Represent(v, T.BitSize(t));
  }

  lemma AdvancedIs(s: Stmt, st: Store, step: Val, next: Val)
    requires s.For?
    requires var cur := T.Load(st, s.x, s.xt);
             var wide := Max(cur.w, step.w);
             var (a, b) := (Resize(cur, wide, !T.WidensUnsigned(s.xt)), Resize(step, wide,
                 !T.ReadsUnsigned(StepType(s))));
             Resize(Val(wide, Wrap(a.bits + b.bits, wide)), cur.w, true) == next
    ensures Advanced(Head(s), st, step) == Put(st, s.x, s.xt, next, Some(s.xt))
  {
  }

  lemma CountStep(from: int, to: int, d: int)
    requires d != 0 && (if d > 0 then from <= to else from >= to)
    ensures Count(from, to, d) == 1 + Count(from + d, to, d)
  {
    if d > 0 { DivStep(to - from, d); } else { DivStep(from - to, -d); }
  }

  lemma DivStep(x: int, d: int)
    requires d > 0 && x >= 0
    ensures (x - d) / d == x / d - 1 && x / d >= 0
  {
    var q, r := x / d, x % d;
    assert x == q * d + r && (q - 1) * d == q * d - d;
    Euclid(x - d, d, q - 1, r);
    MulAtLeast(q, d);
  }

  lemma DivNegative(x: int, d: int)
    requires d > 0 && x < 0
    ensures x / d <= -1
  {
    assert x == (x / d) * d + x % d;
    MulAtLeast(x / d, d);
  }

  /** What a round is to the semantics. */
  lemma Unfold(s: Stmt, to: Val, step: Val, st: Store, rv: ResultVar, fuel: nat)
    requires s.For? && fuel > 0 && WithinBound(Head(s), st, to, step)
    ensures var o := ExecBody(s.body, st, rv, fuel);
            o.Normal? || o.Continued? ==>
              var next := Advanced(Head(s), o.st, step);
              && ExecFor(s, to, step, st, rv, fuel) == ExecFor(s, to, step, next, rv, fuel - 1)
              && Visits(s, to, step, st, rv, fuel) == [Control(s, st)] + Visits(s, to, step, next, rv, fuel - 1)
  {
    hide ExecBody, WithinBound, Advanced, Control;
  }

  lemma UnfoldEnd(s: Stmt, to: Val, step: Val, st: Store, rv: ResultVar, fuel: nat)
    requires s.For?
    ensures fuel == 0 ==> ExecFor(s, to, step, st, rv, fuel) == OutOfFuel
    ensures fuel > 0 && !WithinBound(Head(s), st, to, step) ==> ExecFor(s, to, step, st, rv, fuel) == Normal(st)
    ensures !WithinBound(Head(s), st, to, step) ==> Visits(s, to, step, st, rv, fuel) == []
    ensures fuel > 0 && WithinBound(Head(s), st, to, step) ==> Visits(s, to, step, st, rv, fuel) != []
  {
    hide ExecBody, WithinBound, Advanced, Control;
  }

  // ----- the control variable by itself ------------------------------------

  /** What decides how the control variable moves: the bound, the step, its type, and whether the bound
      test takes negative values for large ones. */
  datatype Course = Course(bound: int, step: int, ty: T.IntTy, mixed: bool)

  function CourseOf(s: Stmt, to: Val, step: Val): Course
    requires s.For?
  {
    Course(T.Read(to, s.to.ty), T.Read(step, StepType(s)), s.xt, MixedBound(s, to))
  }

  predicate Proper(w: Course) {
    w.step != 0 && T.InType(w.bound, w.ty) && (w.mixed ==> w.bound >= 0)
  }

  /** The bound test, on the value of the control variable. */
  predicate Goes(w: Course, c: int) {
    if w.mixed && c < 0 then w.step < 0 else if w.step > 0 then c <= w.bound else c >= w.bound
  }

  /** The rounds there should be from c on. */
  function Rounds(w: Course, c: int): nat
    requires w.step != 0
  {
    Count(c, w.bound, w.step)
  }

  /** One step beyond the last of them. */
  function Beyond(w: Course, c: int): int
    requires w.step != 0
  {
    c + Rounds(w, c) * w.step
  }

  /** The value after these rounds. */
  function After(w: Course, c: int): int
    requires w.step != 0
  {
    Wrapped(w.ty, Beyond(w, c))
  }

  /** The value after these rounds stops the loop, and the first one starts it. */
  predicate Right(w: Course, c: int)
    requires w.step != 0
  {
    !Goes(w, After(w, c)) && (w.mixed && Rounds(w, c) > 0 ==> c >= 0)
  }

  lemma QuotientEnds(x: int, b: int)
    requires b > 0
    ensures var q := x / b; x < (q + 1) * b <= x + b && (x >= 0 <==> q + 1 > 0) && (q + 1) * -b == -((q + 1) * b)
  {
    var (q, r) := (x / b, x % b);
    assert x == q * b + r && (q + 1) * b == q * b + b;
    if x >= 0 { DivStep(x, b); } else { DivNegative(x, b); }
  }

  /** The counted rounds end just beyond the bound. */
  lemma BeyondBound(w: Course, c: int)
    requires w.step != 0
    ensures var (t, d, e) := (w.bound, w.step, Beyond(w, c));
            if Rounds(w, c) == 0 then e == c && (if d > 0 then c > t else c < t)
            else if d > 0 then c <= t < e <= t + d else t + d <= e < t <= c
  {
    var (t, d) := (w.bound, w.step);
    if d > 0 { QuotientEnds(t - c, d); } else { QuotientEnds(c - t, -d); }
    assert Rounds(w, c) == 0 ==> Rounds(w, c) * d == 0;
  }

  /** A round takes one off, and leaves the end where it is. */
  lemma BeyondStep(w: Course, c: int)
    requires w.step != 0 && Rounds(w, c) > 0
    ensures Rounds(w, c) == 1 + Rounds(w, c + w.step) && Beyond(w, c + w.step) == Beyond(w, c)
    ensures Rounds(w, c) == 1 ==> Beyond(w, c) == c + w.step
  {
    BeyondBound(w, c);
    CountStep(c, w.bound, w.step);
    var n := Rounds(w, c);
    assert n * w.step == w.step + (n - 1) * w.step;
  }

  /** It is right whenever bound + step is representable and negative values are out of play. */
  lemma RightWhenRepresentable(w: Course, c: int)
    requires Proper(w) && T.InType(c, w.ty) && T.InType(w.bound + w.step, w.ty)
    requires w.mixed ==> c >= 0 && w.bound + w.step >= 0
    ensures Right(w, c) && After(w, c) == Beyond(w, c)
  {
    hide Beyond, Rounds, Wrapped;
    BeyondBound(w, c);
    ReadWrapped(Beyond(w, c), w.ty);
  }

  /** Without a round the loop is right; but for a negative value that should have started it. */
  lemma RightNone(w: Course, c: int)
    requires Proper(w) && T.InType(c, w.ty) && !Goes(w, c)
    ensures Right(w, c) <==> Rounds(w, c) == 0
    ensures Rounds(w, c) == 0 ==> After(w, c) == c
  {
    hide Beyond, Rounds, Wrapped, T.InType;
    BeyondBound(w, c);
    ReadWrapped(c, w.ty);
  }

  /** A negative value that starts the loop should not have. */
  lemma RightNegative(w: Course, c: int)
    requires Proper(w) && T.InType(c, w.ty) && Goes(w, c) && w.mixed && c < 0
    ensures Rounds(w, c) == 0 && !Right(w, c)
  {
    hide Beyond, Rounds, Wrapped, T.InType;
    BeyondBound(w, c);
    ReadWrapped(c, w.ty);
  }

  /** The last round. */
  lemma RightLast(w: Course, c: int)
    requires Proper(w) && Goes(w, c) && (w.mixed ==> c >= 0) && Rounds(w, c) == 1
    ensures var next := Wrapped(w.ty, c + w.step); After(w, c) == next && (Right(w, c) <==> !Goes(w, next))
  {
    hide Beyond, Rounds, Wrapped;
    BeyondStep(w, c);
  }

  /** A round before the last: the step does not wrap, and one round less is left. */
  lemma RightOneMore(w: Course, c: int)
    requires Proper(w) && T.InType(c, w.ty) && Goes(w, c) && (w.mixed ==> c >= 0) && Rounds(w, c) > 1
    ensures var next := Wrapped(w.ty, c + w.step);
            && next == c + w.step && T.InType(next, w.ty) && Goes(w, next)
            && Rounds(w, c) == 1 + Rounds(w, next)
            && After(w, next) == After(w, c) && (Right(w, next) <==> Right(w, c))
  {
    hide Beyond, Rounds, Wrapped;
    BeyondStep(w, c);
    BeyondBound(w, c + w.step);
    ReadWrapped(c + w.step, w.ty);
  }

  lemma GoesMore(w: Course, c: int)
    requires Proper(w) && Goes(w, c) && (w.mixed ==> c >= 0)
    ensures Rounds(w, c) > 0
  {
    hide Beyond, Rounds;
    BeyondBound(w, c);
  }

  /** On a right course a round is the last one, and the loop stops, or leaves one less on a right course. */
  lemma RightRound(w: Course, c: int)
    requires Proper(w) && T.InType(c, w.ty) && Goes(w, c) && Right(w, c)
    ensures var next := Wrapped(w.ty, c + w.step);
            && Rounds(w, c) > 0 && (Rounds(w, c) == 1 ==> !Goes(w, next))
            && (Rounds(w, c) > 1 ==> Right(w, next) && Rounds(w, c) == 1 + Rounds(w, next))
  {
    hide Beyond, Rounds, Wrapped, Right, T.InType, After;
    if w.mixed && c < 0 {
      RightNegative(w, c);
    } else {
      GoesMore(w, c);
      if Rounds(w, c) == 1 { RightLast(w, c); } else { RightOneMore(w, c); }
    }
  }

  lemma CourseProper(s: Stmt, to: Val, step: Val)
    requires s.For? && Bounded(s, to, step)
    ensures Proper(CourseOf(s, to, step)) && CourseOf(s, to, step).step != 0 && ValidVal(step)
  {
  }

  lemma TestIs(s: Stmt, to: Val, step: Val, st: Store)
    requires s.For? && Bounded(s, to, step)
    ensures WithinBound(Head(s), st, to, step) <==> Goes(CourseOf(s, to, step), Control(s, st))
  {
    hide WithinBound, Head, Control, T.Read, StepType, Bounded, MixedBound;
    if MixedBound(s, to) && Control(s, st) < 0 {
      BoundWrong(s, st, to, step);
    } else {
      BoundExact(s, st, to, step);
    }
    CourseProper(s, to, step);
  }

  // ----- the rounds of a run -----------------------------------------------

  /** A run of the rounds from here that ends. */
  predicate Runs(s: Stmt, to: Val, step: Val, st: Store, rv: ResultVar, fuel: nat)
    requires s.For?
  {
    && Stepped(s, to, step) && Tame(s, to, step, st, rv, fuel)
    && !ExecFor(s, to, step, st, rv, fuel).OutOfFuel?
  }

  /** One round of such a run: the body leaves the control variable alone, and the increment adds the step. */
  lemma OneRound(s: Stmt, to: Val, step: Val, st: Store, rv: ResultVar, fuel: nat) returns (next: Store)
    requires s.For? && Runs(s, to, step, st, rv, fuel) && WithinBound(Head(s), st, to, step)
    ensures var o := ExecBody(s.body, st, rv, fuel);
            && fuel > 0 && (o.Normal? || o.Continued?) && next == Advanced(Head(s), o.st, step)
    ensures Runs(s, to, step, next, rv, fuel - 1)
    ensures Control(s, next) == Wrapped(s.xt, Control(s, st) + T.Read(step, StepType(s)))
  {
    hide *;
    BodyTame(s, to, step, st, rv, fuel);
    var o := ExecBody(s.body, st, rv, fuel);
    next := Advanced(Head(s), o.st, step);
    AdvanceWraps(s, o.st, step);
  }

  lemma BodyTame(s: Stmt, to: Val, step: Val, st: Store, rv: ResultVar, fuel: nat)
    requires s.For? && Runs(s, to, step, st, rv, fuel) && WithinBound(Head(s), st, to, step)
    ensures var o := ExecBody(s.body, st, rv, fuel);
            && ValidVal(step) && fuel > 0 && (o.Normal? || o.Continued?)
            && Control(s, o.st) == Control(s, st) && Runs(s, to, step, Advanced(Head(s), o.st, step), rv, fuel - 1)
  {
    hide ExecBody, Control, WithinBound, Advanced;
  }

  lemma RunsOn(s: Stmt, to: Val, step: Val, st: Store, rv: ResultVar, fuel: nat)
    requires s.For? && Runs(s, to, step, st, rv, fuel)
    ensures fuel > 0
  {
  }

  /** These values are the counted ones, exactly when the course is right; and then `last` is the value
      after them. */
  predicate Judged(w: Course, c: int, values: seq<int>, o: Outcome, last: int)
    requires w.step != 0
  {
    && (values == Progression(c, w.step, Rounds(w, c)) <==> Right(w, c))
    && (Right(w, c) ==> o.Normal? && last == After(w, c))
  }

  lemma JudgedNone(w: Course, c: int, st: Store)
    requires Proper(w) && T.InType(c, w.ty) && !Goes(w, c)
    ensures Judged(w, c, [], Normal(st), c)
  {
    RightNone(w, c);
    hide Rounds, Right, After;
  }

  lemma JudgedMore(w: Course, c: int, values: seq<int>, o: Outcome, last: int)
    requires Proper(w) && T.InType(c, w.ty) && Goes(w, c)
    requires var next := Wrapped(w.ty, c + w.step);
             if Goes(w, next) then values != [] && (T.InType(next, w.ty) ==> Judged(w, next, values, o, last))
             else values == [] && o.Normal? && last == next
    ensures Judged(w, c, [c] + values, o, last)
  {
    var next := Wrapped(w.ty, c + w.step);
    assert ([c] + values)[1..] == values;
    hide Wrapped, Goes, Rounds, Right, After, T.InType;
    if w.mixed && c < 0 {
      RightNegative(w, c);
    } else {
      GoesMore(w, c);
      if Rounds(w, c) == 1 { RightLast(w, c); } else { RightOneMore(w, c); }
      ProgressionNext(c, w.step, Rounds(w, c), values);
      ProgressionNone(c + w.step, w.step);
    }
  }

  lemma ProgressionNext(c: int, d: int, n: nat, values: seq<int>)
    requires n > 0
    ensures [c] + values == Progression(c, d, n) <==> values == Progression(c + d, d, n - 1)
  {
    assert ([c] + values)[1..] == values;
    assert ([c] + Progression(c + d, d, n - 1))[1..] == Progression(c + d, d, n - 1);
  }

  lemma ProgressionNone(c: int, d: int)
    ensures Progression(c, d, 0) == []
  {
  }

  /** What a run of rounds visits, and where it leaves the control variable. */
  lemma {:induction false} RoundsJudged(s: Stmt, to: Val, step: Val, st: Store, rv: ResultVar, fuel: nat)
    requires s.For? && Bounded(s, to, step) && Runs(s, to, step, st, rv, fuel)
    ensures var (w, o) := (CourseOf(s, to, step), ExecFor(s, to, step, st, rv, fuel));
            && w.step != 0
            && Judged(w, Control(s, st), Visits(s, to, step, st, rv, fuel), o, LastControl(s, o))
    decreases fuel
  {
    hide *;
    var w := CourseOf(s, to, step);
    CourseProper(s, to, step);
    RunsOn(s, to, step, st, rv, fuel);
    TestIs(s, to, step, st);
    InOwnType(s, to, step, st);
    UnfoldEnd(s, to, step, st, rv, fuel);
    if WithinBound(Head(s), st, to, step) {
      var next := OneRound(s, to, step, st, rv, fuel);
      NextOfCourse(s, to, step, st, next);
      Unfold(s, to, step, st, rv, fuel);
      RunsOn(s, to, step, next, rv, fuel - 1);
      TestIs(s, to, step, next);
      UnfoldEnd(s, to, step, next, rv, fuel - 1);
      LastNormal(s, next);
      RoundsJudged(s, to, step, next, rv, fuel - 1);
      var o := ExecFor(s, to, step, next, rv, fuel - 1);
      JudgedMore(w, Control(s, st), Visits(s, to, step, next, rv, fuel - 1), o, LastControl(s, o));
    } else {
      LastNormal(s, st);
      JudgedNone(w, Control(s, st), st);
    }
  }

  function LastControl(s: Stmt, o: Outcome): int
    requires s.For?
  {
    if o.Normal? then Control(s, o.st) else 0
  }

  lemma LastNormal(s: Stmt, st: Store)
    requires s.For?
    ensures Normal(st).Normal? && LastControl(s, Normal(st)) == Control(s, st)
  {
  }

  lemma InOwnType(s: Stmt, to: Val, step: Val, st: Store)
    requires s.For?
    ensures T.InType(Control(s, st), CourseOf(s, to, step).ty)
  {
    LoadValid(s, st);
  }

  lemma NextOfCourse(s: Stmt, to: Val, step: Val, st: Store, next: Store)
    requires s.For? && Control(s, next) == Wrapped(s.xt, Control(s, st) + T.Read(step, StepType(s)))
    ensures var w := CourseOf(s, to, step); Control(s, next) == Wrapped(w.ty, Control(s, st) + w.step)
  {
    hide Control, Wrapped, T.Read, StepType;
  }

  lemma StartsAt(s: Stmt, st: Store)
    requires s.For? && ValidVal(s.from.eval(st)) && T.InType(T.Read(s.from.eval(st), s.from.ty), s.xt)
    ensures Control(s, Put(st, s.x, s.xt, s.from.eval(st), s.from.ty)) == T.Read(s.from.eval(st), s.from.ty)
  {
    hide Modulus, Wrap;
    T.CoerceExact(s.from.eval(st), s.from.ty, s.xt);
    var v := T.CoerceValue(s.from.eval(st), s.from.ty, s.xt);
    WrapUnsigned(v.bits, v.w);
  }

  lemma ExecIs(s: Stmt, st: Store, rv: ResultVar)
    requires s.For?
    ensures var start := Put(st, s.x, s.xt, s.from.eval(st), s.from.ty);
            forall fuel :: Exec(s, st, rv, fuel) == ExecFor(s, s.to.eval(st), StepValue(s, start), start, rv, fuel)
  {
  }

  /** Main result: a loop that ends, whose start and bound its control variable can hold and whose body in
      its rounds neither writes the variable nor leaves the loop, visits exactly the values from,
      from + step, ... up or down to the bound, max(0, (to - from) / step + 1) of them, with a literal or a
      run-time step, if and only if its course is right: the value after them, wrapped to the type, stops
      the loop. */
  lemma ForCountCorrect(s: Stmt, st: Store, rv: ResultVar, fuel: nat)
    requires s.For?
    requires ValidVal(s.from.eval(st)) && T.InType(T.Read(s.from.eval(st), s.from.ty), s.xt)
    requires var start := Put(st, s.x, s.xt, s.from.eval(st), s.from.ty);
             var (to, step) := (s.to.eval(st), StepValue(s, start));
             && Bounded(s, to, step) && Tame(s, to, step, start, rv, fuel)
             && !Exec(s, st, rv, fuel).OutOfFuel?
    ensures var start := Put(st, s.x, s.xt, s.from.eval(st), s.from.ty);
            var (to, step) := (s.to.eval(st), StepValue(s, start));
            var (w, f, o) := (CourseOf(s, to, step), T.Read(s.from.eval(st), s.from.ty), Exec(s, st, rv, fuel));
            && w.step != 0
            && (Visits(s, to, step, start, rv, fuel) == Progression(f, w.step, Rounds(w, f)) <==> Right(w, f))
            && (Right(w, f) ==> o.Normal? && Control(s, o.st) == After(w, f))
  {
    var start := Put(st, s.x, s.xt, s.from.eval(st), s.from.ty);
    StartsAt(s, st);
    ExecIs(s, st, rv);
    hide Bounded, Tame, Exec, ExecFor, Visits, Progression, Control, CourseOf, Rounds, Right, After, Put, StepValue;
    hide StepType, T.Read;
    RoundsJudged(s, s.to.eval(st), StepValue(s, start), start, rv, fuel);
  }

  /** A progression has as many members as asked for, each the one before plus d. */
  lemma {:induction false} ProgressionAt(from: int, d: int, n: nat, i: nat)
    requires i < n
    ensures |Progression(from, d, n)| == n && Progression(from, d, n)[i] == from + i * d
    decreases n
  {
    if n > 1 { ProgressionAt(from + d, d, n - 1, if i == 0 then 0 else i - 1); }
  }
}

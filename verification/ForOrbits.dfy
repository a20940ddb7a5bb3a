/** Where any FOR loop goes, and whether it ends: the control variable runs through from, from + step,
    from + 2 step, ..., wrapped to its type, up to the first value the bound test does not admit. */
module ForOrbits {
  import opened ForCount
  import opened Fuel
  import opened MachineInts
  import opened Statements
  import opened Wrappers
  import T = IntTyping

  // ----- the bound test ----------------------------------------------------

  /** The width of the bound test, and whether it is unsigned. */
  function Sight(s: Stmt, to: Val): (Width, bool)
    requires s.For?
  {
    T.PromoteIntOperands(T.BitSize(s.xt), T.SignednessOf(Some(s.xt)), to.w, T.SignednessOf(s.to.ty))
  }

  /** The bound test on a value of the control variable, both as the test takes them. */
  predicate Admits(s: Stmt, to: Val, step: Val, c: int)
    requires s.For?
  {
    var (w, unsigned) := Sight(s, to);
    var (a, b) := (T.Seen(c, w, unsigned), T.Seen(T.Read(to, s.to.ty), w, unsigned));
    if T.Read(step, StepType(s)) >= 0 then a <= b else a >= b
  }

  lemma AdmitsIs(s: Stmt, to: Val, step: Val, st: Store)
    requires s.For? && Stepped(s, to, step)
    ensures WithinBound(Head(s), st, to, step) <==> Admits(s, to, step, Control(s, st))
  {
    var cur := T.Load(st, s.x, s.xt);
    LoadValid(s, st);
    hide Modulus, Wrap, T.CompileCmp, T.PromoteIntOperands, T.Seen;
    T.ComparesSeen(T.Le, cur, Some(s.xt), to, s.to.ty);
    T.ComparesSeen(T.Ge, cur, Some(s.xt), to, s.to.ty);
    if s.stepBy.None? { WrapUnsigned(1, T.BitSize(s.xt)); }
  }

  // ----- the values --------------------------------------------------------

  /** The value after j increments. */
  function Value(t: T.IntTy, c: int, d: int, j: nat): int
    decreases j
  {
    if j == 0 then c else Value(t, Wrapped(t, c + d), d, j - 1)
  }

  lemma WrappedTwice(t: T.IntTy, x: int, d: int)
    ensures Wrapped(t, Wrapped(t, x) + d) == Wrapped(t, x + d) && T.InType(Wrapped(t, x), t)
  {
    WrapsBack(t, x);
    hide Modulus, Wrap, T.Read, T.InType;
    WrapShift(Wrapped(t, x), x, d, T.BitSize(t));
  }

  lemma WrapsBack(t: T.IntTy, x: int)
    ensures Wrap(Wrapped(t, x), T.BitSize(t)) == Wrap(x, T.BitSize(t)) && T.InType(Wrapped(t, x), t)
  {
    var w := T.BitSize(t);
    WrapValid(x, w);
    AsSignedWrap(Wrap(x, w), w);
    WrapUnsigned(Wrap(x, w), w);
    hide Wrap;
  }

  lemma WrapShift(x: int, y: int, d: int, w: Width)
    requires Wrap(x, w) == Wrap(y, w)
    ensures Wrap(x + d, w) == Wrap(y + d, w)
  {
    WrapAdd(x, d, w);
    WrapAdd(y, d, w);
  }

  lemma {:induction false} ValueIs(t: T.IntTy, c: int, d: int, j: nat)
    requires T.InType(c, t)
    ensures Value(t, c, d, j) == Wrapped(t, c + j * d)
    decreases j
  {
    hide Wrapped, T.InType;
    if j == 0 {
      ReadWrapped(c, t);
      assert c + j * d == c;
    } else {
      WrappedTwice(t, c + d, (j - 1) * d);
      ValueIs(t, Wrapped(t, c + d), d, j - 1);
      assert j * d == d + (j - 1) * d;
    }
  }

  /** The first value from c on that the bound test does not admit is the k-th. */
  predicate StopsAfter(s: Stmt, to: Val, step: Val, c: int, k: nat)
    requires s.For?
    decreases k
  {
    if k == 0 then !Admits(s, to, step, c)
    else Admits(s, to, step, c) && StopsAfter(s, to, step, Wrapped(s.xt, c + T.Read(step, StepType(s))), k - 1)
  }

  lemma {:induction false} StopsAt(s: Stmt, to: Val, step: Val, c: int, k: nat)
    requires s.For? && StopsAfter(s, to, step, c, k)
    ensures !Admits(s, to, step, Value(s.xt, c, T.Read(step, StepType(s)), k))
    decreases k
  {
    hide Admits, Wrapped, T.Read, StepType;
    if k > 0 { StopsAt(s, to, step, Wrapped(s.xt, c + T.Read(step, StepType(s))), k - 1); }
  }

  lemma {:induction false} StopsOnce(s: Stmt, to: Val, step: Val, c: int, a: nat, b: nat)
    requires s.For? && StopsAfter(s, to, step, c, a) && StopsAfter(s, to, step, c, b)
    ensures a == b
    decreases a
  {
    hide Admits, Wrapped, T.Read, StepType;
    if a > 0 && b > 0 { StopsOnce(s, to, step, Wrapped(s.xt, c + T.Read(step, StepType(s))), a - 1, b - 1); }
  }

  /** If some value is not admitted there is a first one. */
  lemma {:induction false} SomeStop(s: Stmt, to: Val, step: Val, c: int, k: nat) returns (first: nat)
    requires s.For? && !Admits(s, to, step, Value(s.xt, c, T.Read(step, StepType(s)), k))
    ensures first <= k && StopsAfter(s, to, step, c, first)
    decreases k
  {
    hide Admits, Wrapped, T.Read, StepType;
    if Admits(s, to, step, c) {
      var m := SomeStop(s, to, step, Wrapped(s.xt, c + T.Read(step, StepType(s))), k - 1);
      first := m + 1;
    } else {
      first := 0;
    }
  }

  lemma StopsIff(s: Stmt, to: Val, step: Val, c: int, k: nat)
    requires s.For?
    ensures var d := T.Read(step, StepType(s));
            StopsAfter(s, to, step, c, k)
            <==> !Admits(s, to, step, Value(s.xt, c, d, k))
                 && forall j: nat :: j < k ==> Admits(s, to, step, Value(s.xt, c, d, j))
  {
    hide Admits, T.Read, StepType, Value, StopsAfter;
    var d := T.Read(step, StepType(s));
    if StopsAfter(s, to, step, c, k) {
      StopsAt(s, to, step, c, k);
      forall j: nat | j < k ensures Admits(s, to, step, Value(s.xt, c, d, j)) {
        if !Admits(s, to, step, Value(s.xt, c, d, j)) {
          var first := SomeStop(s, to, step, c, j);
          StopsOnce(s, to, step, c, first, k);
        }
      }
    } else if !Admits(s, to, step, Value(s.xt, c, d, k)) {
      var first := SomeStop(s, to, step, c, k);
      StopsAt(s, to, step, c, first);
    }
  }

  // ----- runs that end -----------------------------------------------------

  /** These values are the first k, and the k-th is `last`. */
  ghost predicate Follows(t: T.IntTy, c: int, d: int, k: nat, values: seq<int>, last: int) {
    && |values| == k && last == Value(t, c, d, k)
    && forall j: nat :: j < k ==> values[j] == Value(t, c, d, j)
  }

  lemma FollowsMore(t: T.IntTy, c: int, d: int, k: nat, values: seq<int>, last: int)
    requires Follows(t, Wrapped(t, c + d), d, k, values, last)
    ensures Follows(t, c, d, k + 1, [c] + values, last)
  {
    hide Wrapped;
    forall j: nat | j < k + 1 ensures ([c] + values)[j] == Value(t, c, d, j) {
      if j > 0 { assert Value(t, c, d, j) == Value(t, Wrapped(t, c + d), d, j - 1); }
    }
  }

  /** The body finishes in each of the next n rounds. */
  ghost predicate FinishesRounds(s: Stmt, step: Val, st: Store, rv: ResultVar, n: nat)
    requires s.For?
    decreases n
  {
    n == 0
    || exists fuel: nat ::
         var o := ExecBody(s.body, st, rv, fuel);
         (o.Normal? || o.Continued?) && FinishesRounds(s, step, Advanced(Head(s), o.st, step), rv, n - 1)
  }

  lemma FinishesNone(s: Stmt, step: Val, st: Store, rv: ResultVar)
    requires s.For?
    ensures FinishesRounds(s, step, st, rv, 0)
  {
  }

  lemma FinishesOneMore(s: Stmt, step: Val, st: Store, rv: ResultVar, k: nat, n: nat)
    requires s.For?
    requires var o := ExecBody(s.body, st, rv, k);
             (o.Normal? || o.Continued?) && FinishesRounds(s, step, Advanced(Head(s), o.st, step), rv, n)
    ensures FinishesRounds(s, step, st, rv, n + 1)
  {
    hide ExecBody, Advanced;
  }

  lemma FinishesOne(s: Stmt, step: Val, st: Store, rv: ResultVar, n: nat) returns (k: nat)
    requires s.For? && n > 0 && FinishesRounds(s, step, st, rv, n)
    ensures var o := ExecBody(s.body, st, rv, k);
            (o.Normal? || o.Continued?) && FinishesRounds(s, step, Advanced(Head(s), o.st, step), rv, n - 1)
  {
    hide ExecBody, Advanced;
    k :| var o := ExecBody(s.body, st, rv, k);
         (o.Normal? || o.Continued?) && FinishesRounds(s, step, Advanced(Head(s), o.st, step), rv, n - 1);
  }

  /** A run that ends goes to the first value that is not admitted. */
  lemma {:induction false} RunFollows(s: Stmt, to: Val, step: Val, st: Store, rv: ResultVar, fuel: nat)
    returns (k: nat)
    requires s.For? && Runs(s, to, step, st, rv, fuel)
    ensures StopsAfter(s, to, step, Control(s, st), k) && FinishesRounds(s, step, st, rv, k)
    ensures var o := ExecFor(s, to, step, st, rv, fuel);
            && o.Normal?
            && Follows(s.xt, Control(s, st), T.Read(step, StepType(s)), k, Visits(s, to, step, st, rv, fuel),
                 LastControl(s, o))
    decreases fuel
  {
    hide *;
    RunsStepped(s, to, step, st, rv, fuel);
    AdmitsIs(s, to, step, st);
    UnfoldEnd(s, to, step, st, rv, fuel);
    if WithinBound(Head(s), st, to, step) {
      var next := OneRound(s, to, step, st, rv, fuel);
      var m := RunFollows(s, to, step, next, rv, fuel - 1);
      k := m + 1;
      Unfold(s, to, step, st, rv, fuel);
      StopsMore(s, to, step, Control(s, st), m);
      FinishesOneMore(s, step, st, rv, fuel, m);
      FollowsMore(s.xt, Control(s, st), T.Read(step, StepType(s)), m, Visits(s, to, step, next, rv, fuel - 1),
        LastControl(s, ExecFor(s, to, step, next, rv, fuel - 1)));
    } else {
      k := 0;
      StopsNow(s, to, step, Control(s, st));
      FinishesNone(s, step, st, rv);
      LastNormal(s, st);
      FollowsNone(s.xt, Control(s, st), T.Read(step, StepType(s)));
    }
  }

  lemma RunsStepped(s: Stmt, to: Val, step: Val, st: Store, rv: ResultVar, fuel: nat)
    requires s.For? && Runs(s, to, step, st, rv, fuel)
    ensures Stepped(s, to, step) && fuel > 0
  {
  }

  lemma StopsMore(s: Stmt, to: Val, step: Val, c: int, k: nat)
    requires s.For? && Admits(s, to, step, c)
    requires StopsAfter(s, to, step, Wrapped(s.xt, c + T.Read(step, StepType(s))), k)
    ensures StopsAfter(s, to, step, c, k + 1)
  {
    hide Admits, Wrapped;
  }

  lemma StopsNow(s: Stmt, to: Val, step: Val, c: int)
    requires s.For?
    ensures StopsAfter(s, to, step, c, 0) <==> !Admits(s, to, step, c)
  {
  }

  lemma FollowsNone(t: T.IntTy, c: int, d: int)
    ensures Follows(t, c, d, 0, [], c)
  {
  }

  /** These values are the first k, written out, and the k-th is `last`. */
  ghost predicate Wraps(t: T.IntTy, f: int, d: int, k: nat, values: seq<int>, last: int) {
    && |values| == k && last == Wrapped(t, f + k * d)
    && forall j: nat :: j < k ==> values[j] == Wrapped(t, f + j * d)
  }

  lemma FollowsWraps(t: T.IntTy, f: int, d: int, k: nat, values: seq<int>, last: int)
    requires T.InType(f, t) && Follows(t, f, d, k, values, last)
    ensures Wraps(t, f, d, k, values, last)
  {
    hide Wrapped, Value, T.InType;
    ValueIs(t, f, d, k);
    forall j: nat | j < k ensures values[j] == Wrapped(t, f + j * d) { ValueIs(t, f, d, j); }
  }

  /** Main result: a loop that ends, whatever its bound and step, visits exactly the values from,
      from + step, from + 2 step, ..., wrapped to its type, before the first one that the bound test does
      not admit, and leaves the variable at that one. */
  lemma ForVisits(s: Stmt, st: Store, rv: ResultVar, fuel: nat) returns (k: nat)
    requires s.For?
    requires ValidVal(s.from.eval(st)) && T.InType(T.Read(s.from.eval(st), s.from.ty), s.xt)
    requires var start := Put(st, s.x, s.xt, s.from.eval(st), s.from.ty);
             Runs(s, s.to.eval(st), StepValue(s, start), start, rv, fuel)
    ensures var start := Put(st, s.x, s.xt, s.from.eval(st), s.from.ty);
            var (to, step, o) := (s.to.eval(st), StepValue(s, start), Exec(s, st, rv, fuel));
            var (f, d) := (T.Read(s.from.eval(st), s.from.ty), T.Read(step, StepType(s)));
            && StopsAfter(s, to, step, f, k) && o.Normal?
            && Wraps(s.xt, f, d, k, Visits(s, to, step, start, rv, fuel), Control(s, o.st))
  {
    hide *;
    var start := Put(st, s.x, s.xt, s.from.eval(st), s.from.ty);
    var (to, step) := (s.to.eval(st), StepValue(s, start));
    StartsAt(s, st);
    ExecIs(s, st, rv);
    k := RunFollows(s, to, step, start, rv, fuel);
    LastNormal(s, Exec(s, st, rv, fuel).st);
    FollowsWraps(s.xt, T.Read(s.from.eval(st), s.from.ty), T.Read(step, StepType(s)), k,
      Visits(s, to, step, start, rv, fuel), Control(s, Exec(s, st, rv, fuel).st));
  }

  // ----- whether it ends ---------------------------------------------------

  ghost predicate Ends(s: Stmt, st: Store, rv: ResultVar) { exists fuel: nat :: !Exec(s, st, rv, fuel).OutOfFuel? }

  /** The rounds from here come to an end. */
  ghost predicate RoundsEnd(s: Stmt, to: Val, step: Val, st: Store, rv: ResultVar)
    requires s.For?
  {
    exists fuel: nat :: !ExecFor(s, to, step, st, rv, fuel).OutOfFuel?
  }

  lemma {:induction false} TameLess(s: Stmt, to: Val, step: Val, st: Store, rv: ResultVar, a: nat, b: nat)
    requires s.For? && a <= b && Tame(s, to, step, st, rv, b)
    ensures Tame(s, to, step, st, rv, a)
    decreases a
  {
    hide WithinBound, Advanced, Control, ExecBody;
    if a > 0 && WithinBound(Head(s), st, to, step) && !ExecBody(s.body, st, rv, a).OutOfFuel? {
      BodyMore(s.body, st, rv, a, b);
      var o := ExecBody(s.body, st, rv, a);
      if o.Normal? || o.Continued? { TameLess(s, to, step, Advanced(Head(s), o.st, step), rv, a - 1, b - 1); }
    }
  }

  /** One round of a loop that keeps its variable, if the body finishes in it. */
  lemma KeepsRound(s: Stmt, to: Val, step: Val, st: Store, rv: ResultVar, k: nat)
    requires s.For? && Keeps(s, to, step, st, rv) && WithinBound(Head(s), st, to, step)
    requires ExecBody(s.body, st, rv, k).Normal? || ExecBody(s.body, st, rv, k).Continued?
    ensures var o := ExecBody(s.body, st, rv, k);
            Control(s, o.st) == Control(s, st) && Keeps(s, to, step, Advanced(Head(s), o.st, step), rv)
  {
    var next := Advanced(Head(s), ExecBody(s.body, st, rv, k).st, step);
    hide WithinBound, Advanced, Control, ExecBody, Tame;
    TameRound(s, to, step, st, rv, k, 0);
    forall fuel: nat ensures Tame(s, to, step, next, rv, fuel) { TameRound(s, to, step, st, rv, k, fuel); }
  }

  lemma TameRound(s: Stmt, to: Val, step: Val, st: Store, rv: ResultVar, k: nat, fuel: nat)
    requires s.For? && Tame(s, to, step, st, rv, k + fuel + 1) && WithinBound(Head(s), st, to, step)
    requires ExecBody(s.body, st, rv, k).Normal? || ExecBody(s.body, st, rv, k).Continued?
    ensures var o := ExecBody(s.body, st, rv, k);
            Control(s, o.st) == Control(s, st) && Tame(s, to, step, Advanced(Head(s), o.st, step), rv, fuel)
  {
    hide WithinBound, Advanced, Control, ExecBody;
    BodyMore(s.body, st, rv, k, k + fuel + 1);
    TameLess(s, to, step, Advanced(Head(s), ExecBody(s.body, st, rv, k).st, step), rv, fuel, k + fuel);
  }

  lemma {:induction false} StopsThenEnds(s: Stmt, to: Val, step: Val, st: Store, rv: ResultVar, k: nat)
    returns (fuel: nat)
    requires s.For? && Stepped(s, to, step) && Keeps(s, to, step, st, rv)
    requires StopsAfter(s, to, step, Control(s, st), k) && FinishesRounds(s, step, st, rv, k)
    ensures !ExecFor(s, to, step, st, rv, fuel).OutOfFuel?
    decreases k
  {
    hide *;
    AdmitsIs(s, to, step, st);
    StopsLess(s, to, step, Control(s, st), k);
    if k > 0 {
      var a := FinishesOne(s, step, st, rv, k);
      var o := ExecBody(s.body, st, rv, a);
      KeepsRound(s, to, step, st, rv, a);
      SteppedValid(s, to, step);
      AdvanceWraps(s, o.st, step);
      var next := Advanced(Head(s), o.st, step);
      var m := StopsThenEnds(s, to, step, next, rv, k - 1);
      fuel := a + m + 1;
      BodyMore(s.body, st, rv, a, fuel);
      ForMore(s, to, step, next, rv, m, fuel - 1);
      Unfold(s, to, step, st, rv, fuel);
    } else {
      fuel := 1;
      UnfoldEnd(s, to, step, st, rv, 1);
    }
  }

  lemma StopsLess(s: Stmt, to: Val, step: Val, c: int, k: nat)
    requires s.For? && StopsAfter(s, to, step, c, k)
    ensures Admits(s, to, step, c) <==> k > 0
    ensures k > 0 ==> StopsAfter(s, to, step, Wrapped(s.xt, c + T.Read(step, StepType(s))), k - 1)
  {
    hide Admits, Wrapped;
  }

  lemma SteppedValid(s: Stmt, to: Val, step: Val)
    requires s.For? && Stepped(s, to, step)
    ensures ValidVal(step)
  {
  }

  /** It stops at some value, and the body finishes in each round before. */
  ghost predicate Stops(s: Stmt, to: Val, step: Val, st: Store, rv: ResultVar, k: nat)
    requires s.For?
  {
    StopsAfter(s, to, step, Control(s, st), k) && FinishesRounds(s, step, st, rv, k)
  }

  /** Main result: whatever its bound and step, a loop whose body neither writes the control variable nor
      leaves the loop in the rounds it comes to ends exactly when some value is not admitted and the body
      finishes in each round before the first such. */
  lemma RoundsEndIff(s: Stmt, to: Val, step: Val, st: Store, rv: ResultVar)
    requires s.For? && Stepped(s, to, step) && Keeps(s, to, step, st, rv)
    ensures RoundsEnd(s, to, step, st, rv) <==> exists k :: Stops(s, to, step, st, rv, k)
  {
    hide Stepped, Tame, ExecFor, StopsAfter, FinishesRounds, Control;
    if fuel: nat :| !ExecFor(s, to, step, st, rv, fuel).OutOfFuel? {
      var k := RunFollows(s, to, step, st, rv, fuel);
      assert Stops(s, to, step, st, rv, k);
    }
    if k :| Stops(s, to, step, st, rv, k) {
      var fuel := StopsThenEnds(s, to, step, st, rv, k);
    }
  }

  lemma EndsAlike(s: Stmt, st: Store, to: Val, step: Val, start: Store, rv: ResultVar)
    requires s.For?
    requires forall fuel: nat :: Exec(s, st, rv, fuel) == ExecFor(s, to, step, start, rv, fuel)
    ensures Ends(s, st, rv) <==> RoundsEnd(s, to, step, start, rv)
  {
    hide Exec, ExecFor;
    if fuel: nat :| !Exec(s, st, rv, fuel).OutOfFuel? { assert !ExecFor(s, to, step, start, rv, fuel).OutOfFuel?; }
    if fuel: nat :| !ExecFor(s, to, step, start, rv, fuel).OutOfFuel? { assert !Exec(s, st, rv, fuel).OutOfFuel?; }
  }

  /** The same for the statement. */
  lemma ForEndsIff(s: Stmt, st: Store, rv: ResultVar)
    requires s.For?
    requires var start := Put(st, s.x, s.xt, s.from.eval(st), s.from.ty);
             var (to, step) := (s.to.eval(st), StepValue(s, start));
             Stepped(s, to, step) && Keeps(s, to, step, start, rv)
    ensures var start := Put(st, s.x, s.xt, s.from.eval(st), s.from.ty);
            Ends(s, st, rv) <==> exists k :: Stops(s, s.to.eval(st), StepValue(s, start), start, rv, k)
  {
    var start := Put(st, s.x, s.xt, s.from.eval(st), s.from.ty);
    var (to, step) := (s.to.eval(st), StepValue(s, start));
    ExecIs(s, st, rv);
    hide Exec, ExecFor, Ends, RoundsEnd, Stops, Stepped, Keeps, Put, StepValue;
    EndsAlike(s, st, to, step, start, rv);
    RoundsEndIff(s, to, step, start, rv);
  }

  ghost predicate HasStop(s: Stmt, to: Val, step: Val, c: int)
    requires s.For?
  {
    exists k :: StopsAfter(s, to, step, c, k)
  }

  lemma StopsHas(s: Stmt, to: Val, step: Val, c: int, k: nat)
    requires s.For? && StopsAfter(s, to, step, c, k)
    ensures HasStop(s, to, step, c)
  {
    hide Admits, Wrapped;
  }

  lemma EndingStops(s: Stmt, to: Val, step: Val, st: Store, rv: ResultVar)
    requires s.For? && Stepped(s, to, step) && Keeps(s, to, step, st, rv) && RoundsEnd(s, to, step, st, rv)
    ensures HasStop(s, to, step, Control(s, st))
  {
    hide Stepped, Tame, ExecFor, Control, HasStop, StopsAfter, FinishesRounds;
    var fuel: nat :| !ExecFor(s, to, step, st, rv, fuel).OutOfFuel?;
    var k := RunFollows(s, to, step, st, rv, fuel);
    StopsHas(s, to, step, Control(s, st), k);
  }

  /** Whether there is such a value is a question about integers. */
  lemma StopsSomewhere(s: Stmt, to: Val, step: Val, c: int)
    requires s.For? && T.InType(c, s.xt)
    ensures HasStop(s, to, step, c)
            <==> exists k: nat :: !Admits(s, to, step, Wrapped(s.xt, c + k * T.Read(step, StepType(s))))
  {
    hide Admits, Wrapped, T.Read, StepType, T.InType, StopsAfter, Value;
    var d := T.Read(step, StepType(s));
    if k :| StopsAfter(s, to, step, c, k) {
      StopsAt(s, to, step, c, k);
      ValueIs(s.xt, c, d, k);
    }
    if k: nat :| !Admits(s, to, step, Wrapped(s.xt, c + k * d)) {
      ValueIs(s.xt, c, d, k);
      var first := SomeStop(s, to, step, c, k);
      StopsHas(s, to, step, c, first);
    }
  }

  // ----- loops on a right course -------------------------------------------

  lemma {:induction false} RightStops(s: Stmt, to: Val, step: Val, c: int)
    requires s.For? && Bounded(s, to, step) && T.InType(c, s.xt)
    requires var w := CourseOf(s, to, step); w.step != 0 && Right(w, c)
    ensures StopsAfter(s, to, step, c, Rounds(CourseOf(s, to, step), c))
    decreases Rounds(CourseOf(s, to, step), c)
  {
    var (w, next) := (CourseOf(s, to, step), Wrapped(s.xt, c + T.Read(step, StepType(s))));
    CourseProper(s, to, step);
    AdmitsGoes(s, to, step, c);
    WrappedTwice(s.xt, c + T.Read(step, StepType(s)), 0);
    AdmitsGoes(s, to, step, next);
    hide Bounded, Admits, Goes, Rounds, Right, Wrapped, T.InType, T.Read, StepType, Proper;
    if Goes(w, c) {
      RightRound(w, c);
      if Rounds(w, c) > 1 { RightStops(s, to, step, next); } else { StopsNow(s, to, step, next); }
      StopsMore(s, to, step, c, Rounds(w, c) - 1);
    } else {
      RightNone(w, c);
    }
  }

  lemma AdmitsGoes(s: Stmt, to: Val, step: Val, c: int)
    requires s.For? && Bounded(s, to, step) && T.InType(c, s.xt)
    ensures Admits(s, to, step, c) <==> Goes(CourseOf(s, to, step), c)
  {
    var st: Store := map[s.x := Wrap(c, T.BitSize(s.xt))];
    ControlOf(s, c);
    hide Wrap, Admits, Goes, Control, Bounded, T.InType, CourseOf;
    BoundedStepped(s, to, step);
    AdmitsIs(s, to, step, st);
    TestIs(s, to, step, st);
  }

  lemma BoundedStepped(s: Stmt, to: Val, step: Val)
    requires s.For? && Bounded(s, to, step)
    ensures Stepped(s, to, step)
  {
  }

  lemma ControlOf(s: Stmt, c: int)
    requires s.For? && T.InType(c, s.xt)
    ensures Control(s, map[s.x := Wrap(c, T.BitSize(s.xt))]) == c
  {
    ReadWrapped(c, s.xt);
    var w := T.BitSize(s.xt);
    WrapValid(c, w);
    hide Wrap, T.InType;
    WrapUnsigned(Wrap(c, w), w);
  }

  /** Main result: on a right course the loop ends exactly when its body finishes in each of the counted
      rounds. */
  lemma ForEnds(s: Stmt, to: Val, step: Val, st: Store, rv: ResultVar)
    requires s.For? && Bounded(s, to, step) && Keeps(s, to, step, st, rv)
    requires var w := CourseOf(s, to, step); w.step != 0 && Right(w, Control(s, st))
    ensures RoundsEnd(s, to, step, st, rv)
            <==> FinishesRounds(s, step, st, rv, Rounds(CourseOf(s, to, step), Control(s, st)))
  {
    BoundedStepped(s, to, step);
    InOwnType(s, to, step, st);
    RightStops(s, to, step, Control(s, st));
    RoundsEndIff(s, to, step, st, rv);
    hide Bounded, Stepped, RoundsEnd, Keeps, StopsAfter, FinishesRounds, Right, Rounds, Control, CourseOf;
    var n := Rounds(CourseOf(s, to, step), Control(s, st));
    if k :| Stops(s, to, step, st, rv, k) { StopsOnce(s, to, step, Control(s, st), k, n); }
    if FinishesRounds(s, step, st, rv, n) { assert Stops(s, to, step, st, rv, n); }
  }
}

/** What the scan cycle promises over whole runs: the order of the tasks in a step, the fault latch, and
    the grids of the periodic tasks. */
module ScanLaws {
  import opened Scan
  import opened TaskPlan
  import opened Wrappers

  // ----- order within a step -----------------------------------------------

  ghost predicate Ordered(tasks: seq<TaskState>, xs: seq<nat>)
    requires Indices(tasks, xs)
  {
    forall a, b :: 0 <= a < b < |xs| ==> Before(tasks, xs[a], xs[b])
  }

  lemma OrderedHead(tasks: seq<TaskState>, xs: seq<nat>)
    requires Indices(tasks, xs) && xs != [] && Ordered(tasks, xs)
    ensures Indices(tasks, xs[1..]) && Ordered(tasks, xs[1..])
    ensures forall y :: y in xs[1..] ==> y < |tasks| && Before(tasks, xs[0], y)
  {
    hide Before;
  }

  lemma OrderedCons(tasks: seq<TaskState>, x: nat, xs: seq<nat>)
    requires Indices(tasks, xs) && x < |tasks| && Ordered(tasks, xs)
    requires forall y :: y in xs ==> Before(tasks, x, y)
    ensures Indices(tasks, [x] + xs) && Ordered(tasks, [x] + xs)
  {
    hide Before;
  }

  lemma BeforeOrder(tasks: seq<TaskState>, x: nat, y: nat, zs: seq<nat>)
    requires x < |tasks| && y < |tasks| && Indices(tasks, zs)
    ensures x == y || Before(tasks, x, y) || Before(tasks, y, x)
    ensures Before(tasks, x, y) && (forall z :: z in zs ==> Before(tasks, y, z)) ==>
              forall z :: z in zs ==> Before(tasks, x, z)
  {
  }

  lemma {:induction false} InsertOrdered(tasks: seq<TaskState>, xs: seq<nat>, x: nat)
    requires Indices(tasks, xs) && x < |tasks| && Ordered(tasks, xs) && x !in xs
    ensures Ordered(tasks, Insert(tasks, xs, x))
    ensures forall y :: y in Insert(tasks, xs, x) <==> y == x || y in xs
  {
    hide Before, Ordered;
    if xs == [] {
      OrderedCons(tasks, x, []) by { EmptyOrdered(tasks); }
      assert [x] + [] == [x];
    } else {
      OrderedHead(tasks, xs);
      assert xs == [xs[0]] + xs[1..];
      BeforeOrder(tasks, x, xs[0], xs[1..]);
      if Before(tasks, x, xs[0]) {
        OrderedCons(tasks, x, xs);
      } else {
        InsertOrdered(tasks, xs[1..], x);
        OrderedCons(tasks, xs[0], Insert(tasks, xs[1..], x));
      }
    }
  }

  lemma EmptyOrdered(tasks: seq<TaskState>)
    ensures Indices(tasks, []) && Ordered(tasks, [])
  {
  }

  ghost predicate Distinct(xs: seq<nat>) { forall a, b :: 0 <= a < b < |xs| ==> xs[a] != xs[b] }

  lemma {:induction false} PriorityOrdered(tasks: seq<TaskState>, xs: seq<nat>)
    requires Indices(tasks, xs) && Distinct(xs)
    ensures Ordered(tasks, ByPriority(tasks, xs))
    ensures forall y :: y in ByPriority(tasks, xs) <==> y in xs
  {
    if xs != [] {
      var (front, x) := (xs[..|xs| - 1], xs[|xs| - 1]);
      PriorityOrdered(tasks, front);
      assert xs == front + [x] && x !in front;
      InsertOrdered(tasks, ByPriority(tasks, front), x);
    }
  }

  lemma {:induction false} DueIs<V>(app: App<V>, s: State<V>, now: nat, n: nat)
    requires n <= |s.tasks|
    ensures Distinct(Due(app, s, now, n)) && Indices(s.tasks, Due(app, s, now, n))
    ensures forall i: nat :: i in Due(app, s, now, n) <==> i < n && PlanOf(app, s, i, now).activation != Idle
  {
    hide PlanOf;
    DueIndices(app, s, now, n);
    if n > 0 { DueIs(app, s, now, n - 1); }
  }

  lemma PlannedIndices<V>(app: App<V>, s: State<V>, now: nat)
    ensures |PlannedTasks(app, s, now)| == |s.tasks|
    ensures forall i :: 0 <= i < |s.tasks| ==> PlannedTasks(app, s, now)[i].info == s.tasks[i].info
  {
    hide SampleOf, Plan;
    forall i | 0 <= i < |s.tasks| ensures PlanOf(app, s, i, now).task.info == s.tasks[i].info {
      PlanHandle(s.tasks[i], SampleOf(app, s, i, now));
    }
  }

  // ----- what a step runs --------------------------------------------------

  /** The memory with the inputs latched: byte k is input byte k as long as there is one. */
  ghost predicate Latches<V>(s: State<V>, m: Memory<V>) {
    && |m.input| == |s.mem.input| && m.output == s.mem.output && m.vars == s.mem.vars
    && forall k :: 0 <= k < |m.input| ==> m.input[k] == if k < |s.input| then s.input[k] else s.mem.input[k]
  }

  /** The task is switched on, and its SINGLE has just come, or its due point has come with SINGLE not held,
      or it has neither an interval nor a SINGLE. */
  predicate IsDue<V>(app: App<V>, s: State<V>, m: Memory<V>, i: nat, now: nat)
    requires i < |s.tasks|
  {
    var t := s.tasks[i];
    var held := t.info.hasSingle && app.single(i, m);
    && t.handle < |s.slots| && s.slots[t.handle] == Some(true)
    && (|| (held && !t.prevSingle)
        || (t.info.interval > 0 && !held && (t.nextDue.None? || t.nextDue.value <= now))
        || (t.info.interval == 0 && !t.info.hasSingle))
  }

  /** These are the due tasks, a smaller priority number first and the earlier of equals first. */
  ghost predicate DueInOrder<V>(app: App<V>, s: State<V>, m: Memory<V>, now: nat, ran: seq<nat>) {
    && (forall i: nat :: i in ran <==> i < |s.tasks| && IsDue(app, s, m, i, now))
    && forall a, b :: 0 <= a < b < |ran| ==>
         && ran[a] < |s.tasks| && ran[b] < |s.tasks|
         && var (p, q) := (s.tasks[ran[a]].info.priority, s.tasks[ran[b]].info.priority);
            p < q || (p == q && ran[a] < ran[b])
  }

  lemma LatchedIs<V>(s: State<V>, m: Memory<V>)
    ensures Latches(s, m) <==> m == Latched(s).mem
  {
    if Latches(s, m) { assert m.input == Latched(s).mem.input; }
  }

  lemma DueAsPlanned<V>(app: App<V>, s: State<V>, i: nat, now: nat)
    requires i < |s.tasks|
    ensures PlanOf(app, Latched(s), i, now).activation != Idle <==> IsDue(app, s, Latched(s).mem, i, now)
  {
    var s1 := Latched(s);
    DueIff(s1.tasks[i], SampleOf(app, s1, i, now));
    hide Plan, Overlay;
  }

  /** The order in which a step runs its tasks. */
  function Order<V>(app: App<V>, s: State<V>, now: nat): (order: seq<nat>)
    ensures Indices(s.tasks, order)
  {
    var s1 := Latched(s);
    DueIndices(app, s1, now, |s1.tasks|);
    ByPriority(PlannedTasks(app, s1, now), Due(app, s1, now, |s1.tasks|))
  }

  /** Main result: a step runs exactly the tasks that are due, once each and by priority. */
  lemma RanInOrder<V>(app: App<V>, s: State<V>, now: nat)
    ensures DueInOrder(app, s, Latched(s).mem, now, Order(app, s, now))
    ensures Cycle(app, s, now).1.Report? ==> Cycle(app, s, now).1.ran == Order(app, s, now)
  {
    hide PlanOf, RunAll, Due, ByPriority, Halted, Overruns, NextDue, PlannedTasks, PlannedLedgers, IsDue, Before,
         Latched;
    var (s1, order) := (Latched(s), Order(app, s, now));
    LatchedTasks(s);
    DueIs(app, s1, now, |s1.tasks|);
    PlannedIndices(app, s1, now);
    PriorityOrdered(PlannedTasks(app, s1, now), Due(app, s1, now, |s1.tasks|));
    forall i: nat | i < |s.tasks|
      ensures PlanOf(app, s1, i, now).activation != Idle <==> IsDue(app, s, s1.mem, i, now)
    {
      DueAsPlanned(app, s, i, now);
    }
    forall a, b | 0 <= a < b < |order|
      ensures var (p, q) := (s.tasks[order[a]].info.priority, s.tasks[order[b]].info.priority);
              p < q || (p == q && order[a] < order[b])
    {
      BeforeIs(PlannedTasks(app, s1, now), order[a], order[b]);
    }
  }

  lemma LatchedTasks<V>(s: State<V>)
    ensures Latched(s).tasks == s.tasks
  {
  }

  lemma BeforeIs(tasks: seq<TaskState>, i: nat, j: nat)
    requires i < |tasks| && j < |tasks|
    ensures Before(tasks, i, j) <==>
            var (p, q) := (tasks[i].info.priority, tasks[j].info.priority);
            p < q || (p == q && i < j)
  {
  }

  /** The next due time reported is the least of the tasks'. */
  lemma {:induction false} NextDueLeast(tasks: seq<TaskState>)
    ensures NextDue(tasks).None? <==> forall i :: 0 <= i < |tasks| ==> tasks[i].nextDue.None?
    ensures NextDue(tasks).Some? ==>
              && (exists i :: 0 <= i < |tasks| && tasks[i].nextDue == NextDue(tasks))
              && forall i :: 0 <= i < |tasks| && tasks[i].nextDue.Some? ==>
                   NextDue(tasks).value <= tasks[i].nextDue.value
  {
    if tasks != [] { NextDueLeast(tasks[..|tasks| - 1]); }
  }

  /** Tasks after the one that failed have not run: the memory is as if they were not there. */
  lemma {:induction false} LaterNotRun<V>(app: App<V>, order: seq<nat>, mem: Memory<V>)
    requires RunAll(app, order, mem).fault.Some?
    ensures var k := RunAll(app, order, mem).done;
            && k < |order| && RunAll(app, order[..k], mem) == Progress(RunAll(app, order[..k], mem).mem, k, None)
            && var r := app.run(order[k], RunAll(app, order[..k], mem).mem);
               RunAll(app, order, mem) == Progress(r.mem, k, r.fault)
  {
    var front := order[..|order| - 1];
    if RunAll(app, front, mem).fault.Some? {
      LaterNotRun(app, front, mem);
      var k := RunAll(app, front, mem).done;
      assert front[..k] == order[..k];
    } else {
      AllDone(app, front, mem);
      assert order[..|front|] == front;
    }
  }

  lemma {:induction false} AllDone<V>(app: App<V>, order: seq<nat>, mem: Memory<V>)
    requires RunAll(app, order, mem).fault.None?
    ensures RunAll(app, order, mem).done == |order|
  {
    if order != [] { AllDone(app, order[..|order| - 1], mem); }
  }

  // ----- the fault latch ---------------------------------------------------

  /** Stopped: the fault remembered, every task stopped, %Q and the outputs it covers zero. */
  ghost predicate Safe<V>(s: State<V>, stop: Stopped) {
    && s.started && s.fault == Some(stop)
    && (forall i :: 0 <= i < |s.tasks| && Held(s.slots, s.tasks[i].handle) ==>
          s.slots[s.tasks[i].handle] == Some(false))
    && (forall k :: 0 <= k < |s.mem.output| ==> s.mem.output[k] == 0)
    && forall k :: 0 <= k < |s.output| && k < |s.mem.output| ==> s.output[k] == 0
  }

  lemma HaltedIsSafe<V>(s: State<V>, stop: Stopped)
    requires s.started
    ensures Safe(Halted(s, stop), stop)
  {
    hide SwitchAll;
    SwitchAllHolds(s.slots, s.tasks, false);
  }

  /** Any fault, in a task or in an initial value, leaves the PLC safe. */
  lemma FaultIsSafe<V>(app: App<V>, s: State<V>, retained: Option<seq<Byte>>, now: nat)
    requires s.fault.None?
    ensures var (t, r) := Stepped(app, s, retained, now); r.Failed? ==> Safe(t, r.stop)
    ensures var t := Started(app, s, retained).0; t.fault.Some? ==> Safe(t, t.fault.value)
  {
    StartIsSafe(app, s, retained);
    var s1 := if s.started then s else Started(app, s, retained).0;
    StartedIsStarted(app, s, retained);
    if s1.fault.None? { CycleIsSafe(app, s1, now); }
    hide Started, Cycle, Safe;
  }

  lemma StartedIsStarted<V>(app: App<V>, s: State<V>, retained: Option<seq<Byte>>)
    ensures Started(app, s, retained).0.started
  {
    hide Overlay, SwitchAll;
  }

  lemma StartIsSafe<V>(app: App<V>, s: State<V>, retained: Option<seq<Byte>>)
    ensures var t := Started(app, s, retained).0; t.fault.Some? ==> Safe(t, t.fault.value)
  {
    hide Halted, SwitchAll, Safe;
    var s1 := Restarted(s).(started := true);
    var r := app.init(s1.mem);
    if r.fault.Some? {
      HaltedFault(s1.(mem := r.mem), Stopped("init", r.fault.value));
      HaltedIsSafe(s1.(mem := r.mem), Stopped("init", r.fault.value));
    }
  }

  lemma HaltedFault<V>(s: State<V>, stop: Stopped)
    ensures Halted(s, stop).fault == Some(stop)
  {
  }

  lemma CycleIsSafe<V>(app: App<V>, s: State<V>, now: nat)
    requires s.started
    ensures var (t, r) := Cycle(app, s, now); r.Failed? ==> Safe(t, r.stop)
  {
    hide Halted, Safe, RunAll, ByPriority, Due, PlanOf, Overruns, NextDue;
    var s1 := Latched(s);
    DueIndices(app, s1, now, |s1.tasks|);
    var s2 := s1.(tasks := PlannedTasks(app, s1, now), ledgers := PlannedLedgers(app, s1, now));
    var order := ByPriority(s2.tasks, Due(app, s1, now, |s1.tasks|));
    RunAllStops(app, order, s2.mem);
    var p := RunAll(app, order, s2.mem);
    var s3 := s2.(mem := p.mem);
    if p.fault.Some? { HaltedIsSafe(s3, Stopped(s3.tasks[order[p.done]].info.name, p.fault.value)); }
  }

  // ----- runs --------------------------------------------------------------

  /** What may happen to a PLC: a start, a step, new input values, and a task switched by the platform. */
  datatype Happening =
    | Start(retained: Option<seq<Byte>>)
    | Step(retained: Option<seq<Byte>>, now: nat)
    | Inputs(bytes: seq<Byte>)
    | Switch(handle: nat, on: bool)

  function After<V>(app: App<V>, s: State<V>, h: Happening): State<V> {
    match h
    case Start(r) => Started(app, s, r).0
    case Step(r, now) => Stepped(app, s, r, now).0
    case Inputs(bytes) => s.(input := bytes)
    case Switch(handle, on) => s.(slots := Switched(s.slots, handle, on))
  }

  function Run<V>(app: App<V>, s: State<V>, hs: seq<Happening>): State<V> {
    if hs == [] then s else After(app, Run(app, s, hs[..|hs| - 1]), hs[|hs| - 1])
  }

  lemma StillProper<V>(s: State<V>, bytes: seq<Byte>, handle: nat, on: bool)
    requires Proper(s)
    ensures Proper(s.(input := bytes)) && Proper(s.(slots := Switched(s.slots, handle, on)))
  {
    hide Kept;
  }

  /** Main result: over every run, every task stays on the grid of its first due point since it was last
      reset, has been periodically due at most once in a slot, and has been due for exactly the rising
      edges seen. (Whether a due task runs is RanInOrder and LaterNotRun.) */
  lemma {:induction false} RunOnGrid<V>(app: App<V>, s: State<V>, hs: seq<Happening>)
    requires Proper(s)
    ensures Proper(Run(app, s, hs))
    ensures forall i :: 0 <= i < |Run(app, s, hs).tasks| ==>
              Kept(Run(app, s, hs).tasks[i], Run(app, s, hs).ledgers[i])
  {
    if hs != [] {
      hide Stepped, Started;
      var (t, h) := (Run(app, s, hs[..|hs| - 1]), hs[|hs| - 1]);
      RunOnGrid(app, s, hs[..|hs| - 1]);
      OneOnGrid(app, t, h);
    }
  }

  lemma OneOnGrid<V>(app: App<V>, t: State<V>, h: Happening)
    requires Proper(t)
    ensures Proper(After(app, t, h))
  {
    hide Proper, Stepped, Started;
    match h
    case Start(r) => StartProper(app, t, r);
    case Step(r, now) => StepProper(app, t, r, now);
    case Inputs(bytes) => StillProper(t, bytes, 0, true);
    case Switch(handle, on) => StillProper(t, t.input, handle, on);
  }

  /** A start resets the tasks after a fault and only then. */
  lemma StartResets<V>(app: App<V>, s: State<V>, retained: Option<seq<Byte>>)
    requires |s.ledgers| == |s.tasks|
    ensures var t := Started(app, s, retained).0;
            && |t.tasks| == |t.ledgers| == |s.tasks|
            && (s.fault.None? ==> t.tasks == s.tasks && t.ledgers == s.ledgers)
            && (s.fault.Some? ==> forall i :: 0 <= i < |s.tasks| ==>
                  t.tasks[i] == ResetTask(s.tasks[i]) && t.ledgers[i] == EMPTY)
  {
    hide SwitchAll, Overlay;
  }

  /** Main result: until the next start a fault is final. Whatever else happens, no task runs, nothing of
      the program, its outputs or its tasks changes, and every step reports the same fault. */
  lemma {:induction false} FaultLatched<V>(app: App<V>, s: State<V>, stop: Stopped, hs: seq<Happening>)
    requires s.started && s.fault == Some(stop)
    requires forall h :: h in hs ==> !h.Start?
    ensures var t := Run(app, s, hs);
            && t == State(s.tasks, s.ledgers, true, s.fault, s.mem, t.slots, t.input, s.output)
            && (forall r, now: nat :: Stepped(app, t, r, now) == (t, Failed(stop)))
            && ((forall h :: h in hs ==> !h.Switch?) && Safe(s, stop) ==> Safe(t, stop))
  {
    hide Started, Cycle, Safe;
    if hs != [] {
      var (front, h) := (hs[..|hs| - 1], hs[|hs| - 1]);
      FaultLatched(app, s, stop, front);
      assert h in hs && forall g :: g in front ==> g in hs;
      if Safe(s, stop) && h.Inputs? && Safe(Run(app, s, front), stop) { InputsSafe(Run(app, s, front), stop, h.bytes); }
    }
  }

  lemma InputsSafe<V>(s: State<V>, stop: Stopped, bytes: seq<Byte>)
    requires Safe(s, stop)
    ensures Safe(s.(input := bytes), stop)
  {
  }
}

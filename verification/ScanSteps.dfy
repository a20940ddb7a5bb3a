/** What one step and one start do, told without the functions that the cycle is proved against: which
    tasks run on which memory, what a fault leaves, what goes out, and what is reported. */
module ScanSteps {
  import opened Scan
  import opened ScanLaws
  import opened TaskPlan
  import opened Wrappers

  // ----- running the tasks -------------------------------------------------

  /** The fault of the last task that ran. */
  function LastFault<V>(app: App<V>, ran: seq<nat>, mems: seq<Memory<V>>): Option<Fault>
    requires |mems| <= |ran| + 1
  {
    if |mems| < 2 then None else app.run(ran[|mems| - 2], mems[|mems| - 2]).fault
  }

  /** The tasks run one after another, each on the memory the one before leaves, until one fails. */
  ghost predicate Executed<V>(app: App<V>, m: Memory<V>, ran: seq<nat>, mems: seq<Memory<V>>) {
    && 1 <= |mems| <= |ran| + 1 && mems[0] == m
    && (forall k :: 0 <= k < |mems| - 1 ==> mems[k + 1] == app.run(ran[k], mems[k]).mem)
    && (forall k :: 0 <= k < |mems| - 2 ==> app.run(ran[k], mems[k]).fault.None?)
    && (LastFault(app, ran, mems).None? ==> |mems| == |ran| + 1)
  }

  lemma ExecutedMore<V>(app: App<V>, m: Memory<V>, ran: seq<nat>, i: nat, mems: seq<Memory<V>>)
    requires Executed(app, m, ran, mems)
    ensures LastFault(app, ran, mems).Some? ==>
              Executed(app, m, ran + [i], mems) && LastFault(app, ran + [i], mems) == LastFault(app, ran, mems)
    ensures LastFault(app, ran, mems).None? ==>
              var r := app.run(i, mems[|mems| - 1]);
              Executed(app, m, ran + [i], mems + [r.mem]) && LastFault(app, ran + [i], mems + [r.mem]) == r.fault
  {
    assert forall k :: 0 <= k < |ran| ==> (ran + [i])[k] == ran[k];
  }

  lemma {:induction false} RunsExecuted<V>(app: App<V>, order: seq<nat>, m: Memory<V>) returns (mems: seq<Memory<V>>)
    ensures Executed(app, m, order, mems)
    ensures var p := RunAll(app, order, m);
            && p.mem == mems[|mems| - 1] && p.fault == LastFault(app, order, mems)
            && p.done == |mems| - if p.fault.Some? then 2 else 1
  {
    hide Executed;
    if order == [] {
      mems := [m];
      NoneExecuted(app, m);
    } else {
      var (front, i) := (order[..|order| - 1], order[|order| - 1]);
      mems := RunsExecuted(app, front, m);
      ExecutedSome(app, m, front, mems);
      ExecutedMore(app, m, front, i, mems);
      assert front + [i] == order;
      if LastFault(app, front, mems).None? { mems := mems + [app.run(i, mems[|mems| - 1]).mem]; }
    }
  }

  lemma NoneExecuted<V>(app: App<V>, m: Memory<V>)
    ensures Executed(app, m, [], [m])
  {
  }

  lemma ExecutedSome<V>(app: App<V>, m: Memory<V>, ran: seq<nat>, mems: seq<Memory<V>>)
    requires Executed(app, m, ran, mems)
    ensures 1 <= |mems| <= |ran| + 1 && (LastFault(app, ran, mems).None? ==> |mems| == |ran| + 1)
  {
  }

  /** Byte k of the outputs is byte k of the image as long as there is one. */
  ghost predicate Flushed(was: seq<Byte>, image: seq<Byte>, now: seq<Byte>) {
    |now| == |was| && forall k :: 0 <= k < |now| ==> now[k] == if k < |image| then image[k] else was[k]
  }

  /** Main result: a step of a started PLC without fault latches the inputs and runs the due tasks by
      priority. If one fails the step fails with its name and its fault and leaves everything stopped and
      safe; otherwise it reports the tasks and the outputs are flushed. */
  lemma StepRuns<V>(app: App<V>, s: State<V>, retained: Option<seq<Byte>>, now: nat, m: Memory<V>)
    returns (ran: seq<nat>, mems: seq<Memory<V>>)
    requires s.started && s.fault.None? && Latches(s, m)
    ensures DueInOrder(app, s, m, now, ran) && Executed(app, m, ran, mems)
    ensures var ((t, r), last, fault) := (Stepped(app, s, retained, now), mems[|mems| - 1], LastFault(app, ran, mems));
            if fault.None? then
              && r.Report? && r.ran == ran && t.fault.None? && t.slots == s.slots && t.mem == last
              && t.input == s.input && Flushed(s.output, last.output, t.output)
            else
              && ran[|mems| - 2] < |s.tasks|
              && var stop := Stopped(s.tasks[ran[|mems| - 2]].info.name, fault.value);
                 && r == Failed(stop) && Safe(t, stop) && t.mem.vars == last.vars && t.mem.input == last.input
                 && t.input == s.input
  {
    hide RunAll, Halted, PlanOf, PlannedTasks, PlannedLedgers, Overruns, NextDue, ByPriority, Due, Safe, DueInOrder,
         Latches, Latched;
    LatchedIs(s, m);
    RanInOrder(app, s, now);
    PlannedIndices(app, Latched(s), now);
    LatchedTasks(s);
    ran := Order(app, s, now);
    mems := RunsExecuted(app, ran, m);
    ExecutedSome(app, m, ran, mems);
    hide Executed, Order;
    CycleEnds(app, s, now);
  }

  /** How a cycle ends, its parts named. */
  lemma CycleEnds<V>(app: App<V>, s: State<V>, now: nat)
    requires s.started && s.fault.None?
    ensures var ((t, r), order) := (Cycle(app, s, now), Order(app, s, now));
            var p := RunAll(app, order, Latched(s).mem);
            if p.fault.None? then
              && r.Report? && r.ran == order && t.fault.None? && t.slots == s.slots && t.mem == p.mem
              && t.input == s.input && Flushed(s.output, p.mem.output, t.output)
            else
              && p.done < |order| && order[p.done] < |s.tasks|
              && var stop := Stopped(s.tasks[order[p.done]].info.name, p.fault.value);
                 && r == Failed(stop) && Safe(t, stop) && t.mem.vars == p.mem.vars && t.mem.input == p.mem.input
                 && t.input == s.input
  {
    hide RunAll, PlanOf, Overruns, NextDue, ByPriority, Due, Safe, SwitchAll;
    var s1 := Latched(s);
    PlannedIndices(app, s1, now);
    DueIndices(app, s1, now, |s1.tasks|);
    RunAllStops(app, Order(app, s, now), s1.mem);
    CycleIsSafe(app, s, now);
  }

  // ----- what is reported --------------------------------------------------

  function AllOverruns(ls: seq<Ledger>): nat {
    if ls == [] then 0 else AllOverruns(ls[..|ls| - 1]) + ls[|ls| - 1].overruns
  }

  lemma OverrunsStep(ls: seq<Ledger>, n: nat)
    requires n < |ls|
    ensures AllOverruns(ls[..n + 1]) == AllOverruns(ls[..n]) + ls[n].overruns
  {
    assert ls[..n + 1][..n] == ls[..n];
  }

  lemma LedgerAdds<V>(app: App<V>, s: State<V>, now: nat, i: nat)
    requires i < |s.tasks| == |s.ledgers|
    ensures PlannedLedgers(app, s, now)[i].overruns == s.ledgers[i].overruns + PlanOf(app, s, i, now).missed
  {
    hide Plan, SampleOf;
  }

  lemma {:induction false} OverrunsAdd<V>(app: App<V>, s: State<V>, now: nat, n: nat)
    requires n <= |s.tasks| == |s.ledgers|
    ensures AllOverruns(PlannedLedgers(app, s, now)[..n]) == AllOverruns(s.ledgers[..n]) + Overruns(app, s, now, n)
  {
    hide PlanOf;
    if n > 0 {
      hide PlannedLedgers, AllOverruns;
      OverrunsAdd(app, s, now, n - 1);
      LedgersLength(app, s, now);
      OverrunsStep(PlannedLedgers(app, s, now), n - 1);
      OverrunsStep(s.ledgers, n - 1);
      LedgerAdds(app, s, now, n - 1);
    }
  }

  lemma LedgersLength<V>(app: App<V>, s: State<V>, now: nat)
    ensures |PlannedLedgers(app, s, now)| == |s.tasks|
  {
  }

  /** Main result: a step reports the least due time its tasks have afterwards, and as many overruns as it adds
      to their accounts. */
  lemma ReportConserved<V>(app: App<V>, s: State<V>, retained: Option<seq<Byte>>, now: nat)
    requires s.started && s.fault.None? && |s.ledgers| == |s.tasks| && Stepped(app, s, retained, now).1.Report?
    ensures var (t, r) := Stepped(app, s, retained, now);
            && |t.tasks| == |t.ledgers| == |s.tasks|
            && AllOverruns(t.ledgers) == AllOverruns(s.ledgers) + r.overruns
            && (r.nextDue.None? <==> forall i :: 0 <= i < |t.tasks| ==> t.tasks[i].nextDue.None?)
            && (r.nextDue.Some? ==>
                  && (exists i :: 0 <= i < |t.tasks| && t.tasks[i].nextDue == r.nextDue)
                  && forall i :: 0 <= i < |t.tasks| && t.tasks[i].nextDue.Some? ==>
                       r.nextDue.value <= t.tasks[i].nextDue.value)
  {
    hide RunAll, PlanOf, ByPriority, Due, Halted, NextDue, Overruns;
    var (t, s1) := (Stepped(app, s, retained, now).0, Latched(s));
    NextDueLeast(t.tasks);
    OverrunsAdd(app, s1, now, |s.tasks|);
    assert s1.ledgers[..|s.tasks|] == s.ledgers && PlannedLedgers(app, s1, now)[..|s.tasks|] == t.ledgers;
  }

  // ----- starting ----------------------------------------------------------

  /** The tasks go on as they were, or, after a fault, all of them afresh and switched on. */
  ghost predicate Resumed<V>(s: State<V>, t: State<V>) {
    && |t.tasks| == |s.tasks| && |t.slots| == |s.slots|
    && (s.fault.None? ==> t.tasks == s.tasks && t.slots == s.slots)
    && (s.fault.Some? ==> forall i :: 0 <= i < |s.tasks| ==>
          && t.tasks[i] == s.tasks[i].(nextDue := None, prevSingle := false)
          && (Held(s.slots, s.tasks[i].handle) ==> t.slots[s.tasks[i].handle] == Some(true)))
  }

  /** Main result: a start initializes the program. A fault there stops the PLC safely; otherwise the start
      is warm exactly when the storage has data that the program takes, and then continues from them. */
  lemma StartDoes<V>(app: App<V>, s: State<V>, retained: Option<seq<Byte>>)
    ensures var ((t, kind), r) := (Started(app, s, retained), app.init(s.mem));
            var m := if r.fault.None? && retained.Some? then app.restore(r.mem, retained.value) else None;
            && t.started && (kind.Warm? <==> m.Some?)
            && if r.fault.Some? then Safe(t, Stopped("init", r.fault.value))
               else t.fault.None? && Resumed(s, t) && t.mem == (if m.Some? then m.value else r.mem)
                    && t.output == s.output && t.input == s.input
  {
    hide SwitchAll, Safe, Overlay;
    SwitchAllHolds(s.slots, s.tasks, true);
    StartIsSafe(app, s, retained);
    StartedIsStarted(app, s, retained);
  }

  /** The first step starts the PLC, and fails exactly with a fault of the start. */
  lemma FirstStep<V>(app: App<V>, s: State<V>, retained: Option<seq<Byte>>, now: nat)
    requires !s.started
    ensures var (t, r) := (Started(app, s, retained).0, app.init(s.mem));
            if r.fault.Some? then Stepped(app, s, retained, now) == (t, Failed(Stopped("init", r.fault.value)))
            else t.started && t.fault.None? && Stepped(app, s, retained, now) == Stepped(app, t, retained, now)
  {
    hide Started, Cycle, Safe, Resumed;
    StartDoes(app, s, retained);
    var r := app.init(s.mem);
    if r.fault.Some? { SafeFault(Started(app, s, retained).0, Stopped("init", r.fault.value)); }
  }

  lemma SafeFault<V>(s: State<V>, stop: Stopped)
    requires Safe(s, stop)
    ensures s.fault == Some(stop)
  {
  }
}

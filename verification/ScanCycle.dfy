/** The scan cycle: latch inputs, run the due tasks by priority, flush outputs; and the fault that stops
    it until the next start.

    Compiled code is a record of functions on the program's memory, which may report a fault. Each method
    is proved against a function from snapshot to snapshot, so that whole runs can be reasoned about. */
module Scan {
  import Retain
  import opened TaskPlan
  import opened Wrappers

  type Byte = Retain.Byte

  datatype Fault = Fault(code: nat)

  /** %I, %Q and everything else. */
  datatype Memory<V> = Memory(input: seq<Byte>, output: seq<Byte>, vars: V)

  datatype Ran<V> = Ran(mem: Memory<V>, fault: Option<Fault>)

  datatype App<!V> = App(
    tasks: seq<TaskInfo>,
    init: Memory<V> -> Ran<V>,
    run: (nat, Memory<V>) -> Ran<V>,
    single: (nat, Memory<V>) -> bool,
    restore: (Memory<V>, seq<Byte>) -> Option<Memory<V>>)

  datatype Stopped = Stopped(task: string, fault: Fault)

  datatype StepResult =
    | Report(ran: seq<nat>, nextDue: Option<nat>, overruns: nat)
    | Failed(stop: Stopped)

  datatype StartKind = Cold | Warm

  // ----- the platform ------------------------------------------------------

  /** Slots of tasks; each holds whether the task runs, or nothing once destroyed. */
  type Slots = seq<Option<bool>>

  class SimTaskScheduler {
    var tasks: Slots

    constructor ()
      ensures tasks == []
    {
      tasks := [];
    }

    method CreateTask() returns (handle: nat)
      modifies this
      ensures handle == |old(tasks)| && tasks == old(tasks) + [Some(false)]
    {
      handle := |tasks|;
      tasks := tasks + [Some(false)];
    }

    method StartTask(handle: nat) returns (ok: bool)
      modifies this
      ensures ok == (handle < |old(tasks)| && old(tasks)[handle].Some?)
      ensures tasks == if ok then old(tasks)[handle := Some(true)] else old(tasks)
    {
      ok := handle < |tasks| && tasks[handle].Some?;
      if ok { tasks := tasks[handle := Some(true)]; }
    }

    method StopTask(handle: nat) returns (ok: bool)
      modifies this
      ensures ok == (handle < |old(tasks)| && old(tasks)[handle].Some?)
      ensures tasks == if ok then old(tasks)[handle := Some(false)] else old(tasks)
    {
      ok := handle < |tasks| && tasks[handle].Some?;
      if ok { tasks := tasks[handle := Some(false)]; }
    }

    /** None for an invalid handle. */
    method IsRunning(handle: nat) returns (r: Option<bool>)
      ensures r == if handle < |tasks| then tasks[handle] else None
    {
      r := if handle < |tasks| then tasks[handle] else None;
    }
  }

  predicate Held(slots: Slots, handle: nat) { handle < |slots| && slots[handle].Some? }

  function Switched(slots: Slots, handle: nat, on: bool): Slots {
    if Held(slots, handle) then slots[handle := Some(on)] else slots
  }

  /** As many bytes of src over dst as both have. */
  function Overlay(dst: seq<Byte>, src: seq<Byte>): (r: seq<Byte>)
    ensures |r| == |dst|
  {
    seq(|dst|, k requires 0 <= k < |dst| => if k < |src| then src[k] else dst[k])
  }

  lemma OverlayIs(r: seq<Byte>, dst: seq<Byte>, src: seq<Byte>)
    requires |r| == |dst|
    requires forall k :: 0 <= k < |dst| && k < |src| ==> r[k] == src[k]
    requires forall k :: |src| <= k < |dst| ==> r[k] == dst[k]
    ensures r == Overlay(dst, src)
  {
  }

  class SimProcessImage {
    var input: seq<Byte>
    var output: seq<Byte>

    constructor (input: seq<Byte>, output: seq<Byte>)
      ensures this.input == input && this.output == output
    {
      this.input := input;
      this.output := output;
    }

    method ReadInputs(dst: seq<Byte>) returns (latched: seq<Byte>)
      ensures |latched| == |dst|
      ensures forall k :: 0 <= k < |dst| && k < |input| ==> latched[k] == input[k]
      ensures forall k :: |input| <= k < |dst| ==> latched[k] == dst[k]
    {
      var n := if |dst| < |input| then |dst| else |input|;
      latched := input[..n] + dst[n..];
    }

    method WriteOutputs(src: seq<Byte>)
      modifies this`output
      ensures |output| == |old(output)|
      ensures forall k :: 0 <= k < |output| && k < |src| ==> output[k] == src[k]
      ensures forall k :: |src| <= k < |output| ==> output[k] == old(output[k])
    {
      var n := if |output| < |src| then |output| else |src|;
      output := src[..n] + output[n..];
    }
  }

  class Platform {
    const scheduler: SimTaskScheduler
    const image: SimProcessImage
    /** What the retain storage yields. */
    var retained: Option<seq<Byte>>

    constructor (scheduler: SimTaskScheduler, image: SimProcessImage, retained: Option<seq<Byte>>)
      ensures this.scheduler == scheduler && this.image == image && this.retained == retained
    {
      this.scheduler := scheduler;
      this.image := image;
      this.retained := retained;
    }
  }

  // ----- snapshots and what a call does to them ----------------------------

  datatype State<V> = State(
    tasks: seq<TaskState>,
    ledgers: seq<Ledger>,
    started: bool,
    fault: Option<Stopped>,
    mem: Memory<V>,
    slots: Slots,
    input: seq<Byte>,
    output: seq<Byte>)

  function Zeros(n: nat): (z: seq<Byte>)
    ensures |z| == n
  {
    seq(n, i => 0)
  }

  function SwitchAll(slots: Slots, tasks: seq<TaskState>, on: bool): Slots {
    if tasks == [] then slots
    else Switched(SwitchAll(slots, tasks[..|tasks| - 1], on), tasks[|tasks| - 1].handle, on)
  }

  /** Every task stopped, %Q and the platform's outputs cleared, the fault remembered. */
  function Halted<V>(s: State<V>, stop: Stopped): State<V> {
    var output := Zeros(|s.mem.output|);
    s.(slots := SwitchAll(s.slots, s.tasks, false),
       mem := Memory(s.mem.input, output, s.mem.vars),
       output := Overlay(s.output, output),
       fault := Some(stop))
  }

  function ResetTask(t: TaskState): TaskState { t.(nextDue := None, prevSingle := false) }

  /** After a fault the tasks start afresh; otherwise their grids go on. */
  function Restarted<V>(s: State<V>): State<V> {
    if s.fault.None? then s
    else s.(fault := None,
            slots := SwitchAll(s.slots, s.tasks, true),
            tasks := seq(|s.tasks|, i requires 0 <= i < |s.tasks| => ResetTask(s.tasks[i])),
            ledgers := seq(|s.tasks|, i => EMPTY))
  }

  function Started<V>(app: App<V>, s: State<V>, retained: Option<seq<Byte>>): (State<V>, StartKind) {
    var s1 := Restarted(s).(started := true);
    var r := app.init(s1.mem);
    var s2 := s1.(mem := r.mem);
    if r.fault.Some? then (Halted(s2, Stopped("init", r.fault.value)), Cold)
    else if retained.None? then (s2, Cold)
    else
      var m := app.restore(s2.mem, retained.value);
      if m.Some? then (s2.(mem := m.value), Warm) else (s2, Cold)
  }

  /** What the scan sees of task i. */
  function SampleOf<V>(app: App<V>, s: State<V>, i: nat, now: nat): Sample
    requires i < |s.tasks|
  {
    var t := s.tasks[i];
    Sample(Held(s.slots, t.handle) && s.slots[t.handle].value, t.info.hasSingle && app.single(i, s.mem), now)
  }

  function PlanOf<V>(app: App<V>, s: State<V>, i: nat, now: nat): Planned
    requires i < |s.tasks|
  {
    Plan(s.tasks[i], SampleOf(app, s, i, now))
  }

  /** The tasks with something to do, among the first n. */
  function Due<V>(app: App<V>, s: State<V>, now: nat, n: nat): seq<nat>
    requires n <= |s.tasks|
  {
    if n == 0 then []
    else if PlanOf(app, s, n - 1, now).activation == Idle then Due(app, s, now, n - 1)
    else Due(app, s, now, n - 1) + [n - 1]
  }

  function Overruns<V>(app: App<V>, s: State<V>, now: nat, n: nat): nat
    requires n <= |s.tasks|
  {
    if n == 0 then 0 else Overruns(app, s, now, n - 1) + PlanOf(app, s, n - 1, now).missed
  }

  /** Higher priority, or the earlier of equals. */
  predicate Before(tasks: seq<TaskState>, i: nat, j: nat)
    requires i < |tasks| && j < |tasks|
  {
    var (p, q) := (tasks[i].info.priority, tasks[j].info.priority);
    p < q || (p == q && i < j)
  }

  predicate Indices(tasks: seq<TaskState>, xs: seq<nat>) { forall i :: 0 <= i < |xs| ==> xs[i] < |tasks| }

  function Insert(tasks: seq<TaskState>, xs: seq<nat>, x: nat): (r: seq<nat>)
    requires Indices(tasks, xs) && x < |tasks|
    ensures Indices(tasks, r)
  {
    if xs == [] then [x]
    else if Before(tasks, x, xs[0]) then [x] + xs
    else [xs[0]] + Insert(tasks, xs[1..], x)
  }

  /** `sort_by_key` of (priority, index). */
  function ByPriority(tasks: seq<TaskState>, xs: seq<nat>): (r: seq<nat>)
    requires Indices(tasks, xs)
    ensures Indices(tasks, r)
  {
    if xs == [] then [] else Insert(tasks, ByPriority(tasks, xs[..|xs| - 1]), xs[|xs| - 1])
  }

  /** Running tasks in order up to the first fault: the memory, how many finished, and the fault. */
  datatype Progress<V> = Progress(mem: Memory<V>, done: nat, fault: Option<Fault>)

  function RunAll<V>(app: App<V>, order: seq<nat>, mem: Memory<V>): Progress<V> {
    if order == [] then Progress(mem, 0, None)
    else
      var p := RunAll(app, order[..|order| - 1], mem);
      if p.fault.Some? then p
      else
        var r := app.run(order[|order| - 1], p.mem);
        if r.fault.Some? then Progress(r.mem, p.done, r.fault) else Progress(r.mem, p.done + 1, None)
  }

  function Earlier(a: Option<nat>, b: Option<nat>): Option<nat> {
    if a.None? then b else if b.None? then a else if b.value < a.value then b else a
  }

  function NextDue(tasks: seq<TaskState>): Option<nat> {
    if tasks == [] then None else Earlier(NextDue(tasks[..|tasks| - 1]), tasks[|tasks| - 1].nextDue)
  }

  /** Inputs latched. */
  function Latched<V>(s: State<V>): State<V> { s.(mem := Memory(Overlay(s.mem.input, s.input), s.mem.output,
      s.mem.vars)) }

  function PlannedTasks<V>(app: App<V>, s: State<V>, now: nat): seq<TaskState> {
    seq(|s.tasks|, i requires 0 <= i < |s.tasks| => PlanOf(app, s, i, now).task)
  }

  function PlannedLedgers<V>(app: App<V>, s: State<V>, now: nat): seq<Ledger> {
    seq(|s.tasks|, i requires 0 <= i < |s.tasks| =>
      if i < |s.ledgers| then Record(s.ledgers[i], s.tasks[i], SampleOf(app, s, i, now)) else EMPTY)
  }

  lemma {:induction false} DueIndices<V>(app: App<V>, s: State<V>, now: nat, n: nat)
    requires n <= |s.tasks|
    ensures Indices(s.tasks, Due(app, s, now, n))
    ensures forall i :: 0 <= i < |Due(app, s, now, n)| ==> Due(app, s, now, n)[i] < n
  {
    hide PlanOf;
    if n > 0 { DueIndices(app, s, now, n - 1); }
  }

  lemma {:induction false} RunAllStops<V>(app: App<V>, order: seq<nat>, mem: Memory<V>)
    ensures var p := RunAll(app, order, mem); p.done <= |order| && (p.fault.Some? ==> p.done < |order|)
  {
    if order != [] { RunAllStops(app, order[..|order| - 1], mem); }
  }

  /** One cycle of a started, healthy PLC. */
  function Cycle<V>(app: App<V>, s: State<V>, now: nat): (State<V>, StepResult) {
    var s1 := Latched(s);
    DueIndices(app, s1, now, |s1.tasks|);
    var s2 := s1.(tasks := PlannedTasks(app, s1, now), ledgers := PlannedLedgers(app, s1, now));
    var order := ByPriority(s2.tasks, Due(app, s1, now, |s1.tasks|));
    var p := RunAll(app, order, s2.mem);
    RunAllStops(app, order, s2.mem);
    var s3 := s2.(mem := p.mem);
    if p.fault.Some? then
      var stop := Stopped(s3.tasks[order[p.done]].info.name, p.fault.value);
      (Halted(s3, stop), Failed(stop))
    else
      (s3.(output := Overlay(s3.output, p.mem.output)),
       Report(order, NextDue(s3.tasks), Overruns(app, s1, now, |s1.tasks|)))
  }

  function Stepped<V>(app: App<V>, s: State<V>, retained: Option<seq<Byte>>, now: nat): (State<V>, StepResult) {
    var s1 := if s.started then s else Started(app, s, retained).0;
    if s1.fault.Some? then (s1, Failed(s1.fault.value)) else Cycle(app, s1, now)
  }

  // ----- invariant ---------------------------------------------------------

  /** Valid handles, one ledger a task, every task on its grid, and outputs cleared after a fault. */
  ghost predicate Proper<V>(s: State<V>) {
    && |s.ledgers| == |s.tasks|
    && (forall i :: 0 <= i < |s.tasks| ==> Held(s.slots, s.tasks[i].handle))
    && (forall i :: 0 <= i < |s.tasks| ==> Kept(s.tasks[i], s.ledgers[i]))
    && (s.fault.Some? ==> s.started && s.mem.output == Zeros(|s.mem.output|))
  }

  lemma StartKept(t: TaskState)
    requires t.nextDue.None? && !t.prevSingle
    ensures Kept(t, EMPTY)
  {
  }

  lemma {:induction false} SwitchAllHolds(slots: Slots, tasks: seq<TaskState>, on: bool)
    ensures |SwitchAll(slots, tasks, on)| == |slots|
    ensures forall h: nat :: Held(SwitchAll(slots, tasks, on), h) <==> Held(slots, h)
    ensures forall i :: 0 <= i < |tasks| && Held(slots, tasks[i].handle) ==>
              SwitchAll(slots, tasks, on)[tasks[i].handle] == Some(on)
  {
    if tasks != [] { SwitchAllHolds(slots, tasks[..|tasks| - 1], on); }
  }

  lemma StopProper<V>(s: State<V>, stop: Stopped)
    requires Proper(s) && s.started
    ensures Proper(Halted(s, stop))
  {
    hide Kept, SwitchAll;
    SwitchAllHolds(s.slots, s.tasks, false);
  }

  lemma StartProper<V>(app: App<V>, s: State<V>, retained: Option<seq<Byte>>)
    requires Proper(s)
    ensures Proper(Started(app, s, retained).0) && Started(app, s, retained).0.started
  {
    hide Kept, SwitchAll, Halted;
    SwitchAllHolds(s.slots, s.tasks, true);
    forall i | 0 <= i < |s.tasks| ensures Kept(ResetTask(s.tasks[i]), EMPTY) { StartKept(ResetTask(s.tasks[i])); }
    var s1 := Restarted(s).(started := true);
    assert Proper(s1);
    var r := app.init(s1.mem);
    if r.fault.Some? {
      var s2 := s1.(mem := r.mem);
      assert Proper(s2);
      StopProper(s2, Stopped("init", r.fault.value));
      StopStarted(s2, Stopped("init", r.fault.value));
    }
  }

  lemma StopStarted<V>(s: State<V>, stop: Stopped)
    ensures Halted(s, stop).started == s.started
  {
  }

  lemma PlanHandle(t: TaskState, s: Sample)
    ensures Plan(t, s).task.handle == t.handle && Plan(t, s).task.info == t.info
  {
  }

  lemma CycleProper<V>(app: App<V>, s: State<V>, now: nat)
    requires Proper(s) && s.started && s.fault.None?
    ensures Proper(Cycle(app, s, now).0)
  {
    hide Kept, Plan, Record, SampleOf, RunAll, ByPriority, Due, Halted;
    var s1 := Latched(s);
    forall i | 0 <= i < |s.tasks|
      ensures PlanOf(app, s1, i, now).task.handle == s.tasks[i].handle
      ensures Kept(PlanOf(app, s1, i, now).task, Record(s1.ledgers[i], s1.tasks[i], SampleOf(app, s1, i, now)))
    {
      PlanHandle(s1.tasks[i], SampleOf(app, s1, i, now));
      PlanKeeps(s1.tasks[i], s1.ledgers[i], SampleOf(app, s1, i, now));
    }
    var s2 := s1.(tasks := PlannedTasks(app, s1, now), ledgers := PlannedLedgers(app, s1, now));
    assert Proper(s2);
    DueIndices(app, s1, now, |s1.tasks|);
    var order := ByPriority(s2.tasks, Due(app, s1, now, |s1.tasks|));
    RunAllStops(app, order, s2.mem);
    var p := RunAll(app, order, s2.mem);
    var s3 := s2.(mem := p.mem);
    if p.fault.Some? { StopProper(s3, Stopped(s3.tasks[order[p.done]].info.name, p.fault.value)); }
  }

  /** Main result: every step keeps every task on its grid, whatever the program does. */
  lemma StepProper<V>(app: App<V>, s: State<V>, retained: Option<seq<Byte>>, now: nat)
    requires Proper(s)
    ensures Proper(Stepped(app, s, retained, now).0) && Stepped(app, s, retained, now).0.started
  {
    hide Proper, Cycle, Started;
    StartProper(app, s, retained);
    var s1 := if s.started then s else Started(app, s, retained).0;
    if s1.fault.None? {
      CycleProper(app, s1, now);
      CycleStarted(app, s1, now);
    }
  }

  lemma CycleStarted<V>(app: App<V>, s: State<V>, now: nat)
    ensures Cycle(app, s, now).0.started == s.started
  {
    hide RunAll, ByPriority, Due, PlanOf, SwitchAll, Overlay;
  }

  lemma {:induction false} RunAllFails<V>(app: App<V>, order: seq<nat>, k: nat, mem: Memory<V>)
    requires k <= |order| && RunAll(app, order[..k], mem).fault.Some?
    ensures RunAll(app, order, mem) == RunAll(app, order[..k], mem)
    decreases |order|
  {
    if k == |order| {
      assert order[..k] == order;
    } else {
      assert order[..|order| - 1][..k] == order[..k];
      RunAllFails(app, order[..|order| - 1], k, mem);
    }
  }

  lemma RunAllStep<V>(app: App<V>, order: seq<nat>, k: nat, mem: Memory<V>)
    requires k < |order| && RunAll(app, order[..k], mem).fault.None?
    ensures var (p, q) := (RunAll(app, order[..k], mem), RunAll(app, order[..k + 1], mem));
            var r := app.run(order[k], p.mem);
            q == Progress(r.mem, if r.fault.Some? then p.done else p.done + 1, r.fault)
  {
    assert order[..k + 1][..k] == order[..k];
  }

  lemma SwitchAllStep(slots: Slots, tasks: seq<TaskState>, i: nat, on: bool)
    requires i < |tasks|
    ensures SwitchAll(slots, tasks[..i + 1], on) == Switched(SwitchAll(slots, tasks[..i], on), tasks[i].handle, on)
  {
    assert tasks[..i + 1][..i] == tasks[..i];
  }

  lemma SwitchNone(slots: Slots, tasks: seq<TaskState>, on: bool)
    ensures SwitchAll(slots, tasks[..0], on) == slots
  {
  }

  lemma NextDueStep(tasks: seq<TaskState>, i: nat)
    requires i < |tasks|
    ensures NextDue(tasks[..i + 1]) == Earlier(NextDue(tasks[..i]), tasks[i].nextDue)
  {
    assert tasks[..i + 1][..i] == tasks[..i];
  }

  /** A task as it is registered. */
  function Fresh(info: TaskInfo, handle: nat): TaskState { TaskState(info, handle, None, false) }

  // ----- the driver --------------------------------------------------------

  class ScanCycle<V> {
    const app: App<V>
    var tasks: seq<TaskState>
    ghost var ledgers: seq<Ledger>
    var started: bool
    var fault: Option<Stopped>
    var mem: Memory<V>

    ghost function Snapshot(p: Platform): State<V>
      reads this, p, p.scheduler, p.image
    {
      State(tasks, ledgers, started, fault, mem, p.scheduler.tasks, p.image.input, p.image.output)
    }

    ghost predicate Valid(p: Platform)
      reads this, p, p.scheduler, p.image
    {
      Proper(Snapshot(p))
    }

    /** Register every task with the platform's scheduler, running. */
    constructor (app: App<V>, mem: Memory<V>, p: Platform)
      modifies p.scheduler
      ensures Valid(p) && this.app == app && this.mem == mem && !started && fault.None?
      ensures |tasks| == |app.tasks|
      ensures forall i :: 0 <= i < |tasks| ==>
                && tasks[i] == TaskState(app.tasks[i], |old(p.scheduler.tasks)| + i, None, false)
                && p.scheduler.tasks[tasks[i].handle] == Some(true)
      ensures |p.scheduler.tasks| == |old(p.scheduler.tasks)| + |tasks|
      ensures p.scheduler.tasks[..|old(p.scheduler.tasks)|] == old(p.scheduler.tasks)
    {
      var ts: seq<TaskState> := [];
      ghost var before := p.scheduler.tasks;
      for i := 0 to |app.tasks|
        invariant |ts| == i && |p.scheduler.tasks| == |before| + i
        invariant p.scheduler.tasks[..|before|] == before
        invariant forall k :: 0 <= k < i ==>
                    ts[k] == Fresh(app.tasks[k], |before| + k) && p.scheduler.tasks[|before| + k] == Some(true)
      {
        var handle := p.scheduler.CreateTask();
        var ok := p.scheduler.StartTask(handle);
        ts := ts + [Fresh(app.tasks[i], handle)];
      }
      this.app := app;
      this.mem := mem;
      tasks := ts;
      ledgers := seq(|ts|, i => EMPTY);
      started := false;
      fault := None;
      new;
      forall i | 0 <= i < |tasks| ensures Kept(tasks[i], EMPTY) { StartKept(tasks[i]); }
    }

    method StopOnFault(p: Platform, stop: Stopped)
      modifies this`mem, this`fault, p.scheduler, p.image`output
      ensures Snapshot(p) == Halted(old(Snapshot(p)), stop)
    {
      hide SwitchAll, Overlay;
      ghost var slots := p.scheduler.tasks;
      SwitchNone(slots, tasks, false);
      for i := 0 to |tasks|
        invariant mem == old(mem) && fault == old(fault) && p.image.output == old(p.image.output)
        invariant p.scheduler.tasks == SwitchAll(slots, tasks[..i], false)
      {
        SwitchAllStep(slots, tasks, i, false);
        var ok := p.scheduler.StopTask(tasks[i].handle);
      }
      assert tasks[..|tasks|] == tasks;
      mem := Memory(mem.input, Zeros(|mem.output|), mem.vars);
      p.image.WriteOutputs(mem.output);
      OverlayIs(p.image.output, old(p.image.output), mem.output);
      fault := Some(stop);
    }

    /** Clear a fault and start the tasks again. */
    method Restart(p: Platform)
      requires |ledgers| == |tasks|
      modifies this`fault, this`tasks, this`ledgers, p.scheduler
      ensures Snapshot(p) == Restarted(old(Snapshot(p)))
    {
      hide SwitchAll;
      if fault.None? { return; }
      fault := None;
      ghost var (slots, before) := (p.scheduler.tasks, tasks);
      SwitchNone(slots, before, true);
      for i := 0 to |tasks|
        invariant |tasks| == |before| && fault.None?
        invariant p.scheduler.tasks == SwitchAll(slots, before[..i], true)
        invariant forall k :: 0 <= k < |before| ==> tasks[k] == if k < i then ResetTask(before[k]) else before[k]
      {
        SwitchAllStep(slots, before, i, true);
        var ok := p.scheduler.StartTask(tasks[i].handle);
        tasks := tasks[i := tasks[i].(nextDue := None, prevSingle := false)];
      }
      assert before[..|before|] == before;
      ledgers := seq(|tasks|, i => EMPTY);
    }

    /** Initialize, and restore the RETAIN variables if the storage has them for this program. */
    method Start(p: Platform) returns (kind: StartKind)
      requires Valid(p)
      modifies this, p.scheduler, p.image`output
      ensures Valid(p)
      ensures (Snapshot(p), kind) == Started(app, old(Snapshot(p)), p.retained)
    {
      hide Restarted, Halted, Proper;
      ghost var s := Snapshot(p);
      ProperLedgers(s);
      StartProper(app, s, p.retained);
      Restart(p);
      started := true;
      var r := app.init(mem);
      mem := r.mem;
      if r.fault.Some? {
        StopOnFault(p, Stopped("init", r.fault.value));
        return Cold;
      }
      if p.retained.None? { return Cold; }
      var m := app.restore(mem, p.retained.value);
      if m.None? { return Cold; }
      mem := m.value;
      kind := Warm;
    }

    /** Whether task i is due, and how many of its activations were missed. */
    method PlanTask(i: nat, p: Platform, now: nat) returns (due: bool, missed: nat)
      requires i < |tasks| == |ledgers| && Held(p.scheduler.tasks, tasks[i].handle)
      modifies this`tasks, this`ledgers
      ensures var (s, sample) := (old(Snapshot(p)), SampleOf(app, old(Snapshot(p)), i, now));
              && tasks == s.tasks[i := Plan(s.tasks[i], sample).task]
              && ledgers == s.ledgers[i := Record(s.ledgers[i], s.tasks[i], sample)]
              && due == (Plan(s.tasks[i], sample).activation != Idle) && missed == Plan(s.tasks[i], sample).missed
    {
      hide Record;
      var t := tasks[i];
      ledgers := ledgers[i := Record(ledgers[i], t, SampleOf(app, Snapshot(p), i, now))];
      due, missed := false, 0;
      var running := p.scheduler.IsRunning(t.handle);
      if !running.value { return; }
      var single := false;
      if t.info.hasSingle {
        var v := app.single(i, mem);
        var rising := v && !t.prevSingle;
        t := t.(prevSingle := v);
        tasks := tasks[i := t];
        if rising { return true, 0; }
        single := v;
      }
      var interval := t.info.interval;
      if interval == 0 { return !t.info.hasSingle, 0; }
      var next := if t.nextDue.Some? then t.nextDue.value else now;
      t := t.(nextDue := Some(next));
      if now >= next {
        due := !single;
        var n := next + interval;
        if n <= now {
          missed := (now - n) / interval + 1;
          n := n + missed * interval;
        }
        t := t.(nextDue := Some(n));
      }
      tasks := tasks[i := t];
    }

    /** Which tasks are due. */
    method PlanTasks(p: Platform, now: nat) returns (due: seq<nat>, overruns: nat)
      requires |tasks| == |ledgers| && forall i :: 0 <= i < |tasks| ==> Held(p.scheduler.tasks, tasks[i].handle)
      modifies this`tasks, this`ledgers
      ensures var s := old(Snapshot(p));
              && tasks == PlannedTasks(app, s, now) && ledgers == PlannedLedgers(app, s, now)
              && due == Due(app, s, now, |s.tasks|) && overruns == Overruns(app, s, now, |s.tasks|)
    {
      hide Plan, Record, PlanOf, SampleOf, Overlay, SwitchAll;
      ghost var s := Snapshot(p);
      due, overruns := [], 0;
      for i := 0 to |tasks|
        invariant |tasks| == |s.tasks| == |ledgers|
        invariant forall k :: 0 <= k < |tasks| ==> tasks[k] == if k < i then PlanOf(app, s, k, now).task else s.tasks[k]
        invariant forall k :: 0 <= k < |tasks| ==>
                    ledgers[k] == if k < i then Record(s.ledgers[k], s.tasks[k], SampleOf(app, s, k,
                        now)) else s.ledgers[k]
        invariant due == Due(app, s, now, i) && overruns == Overruns(app, s, now, i)
      {
        SampleSame(app, s, Snapshot(p), i, now);
        var isDue, missed := PlanTask(i, p, now);
        if isDue { due := due + [i]; }
        overruns := overruns + missed;
      }
    }

    /** Run the tasks in order; stop at a fault. */
    method RunTasks(due: seq<nat>) returns (failed: Option<(nat, Fault)>)
      modifies this`mem
      ensures var r := RunAll(app, due, old(mem));
              && mem == r.mem && (failed.Some? <==> r.fault.Some?)
              && (failed.Some? ==> r.done < |due| && failed.value == (due[r.done], r.fault.value))
    {
      hide RunAll;
      ghost var before := mem;
      NoneToRun(app, due, before);
      for k := 0 to |due|
        invariant RunAll(app, due[..k], before) == Progress(mem, k, None)
      {
        RunAllStep(app, due, k, before);
        var r := app.run(due[k], mem);
        mem := r.mem;
        if r.fault.Some? {
          RunAllFails(app, due, k + 1, before);
          return Some((due[k], r.fault.value));
        }
      }
      assert due[..|due|] == due;
      failed := None;
    }

    method Earliest() returns (next: Option<nat>)
      ensures next == NextDue(tasks)
    {
      next := None;
      for i := 0 to |tasks|
        invariant next == NextDue(tasks[..i])
      {
        NextDueStep(tasks, i);
        next := Earlier(next, tasks[i].nextDue);
      }
      assert tasks[..|tasks|] == tasks;
    }

    /** Main method: one scan cycle at `now`. */
    method StepAt(p: Platform, now: nat) returns (r: StepResult)
      requires Valid(p)
      modifies this, p.scheduler, p.image`output
      ensures Valid(p)
      ensures (Snapshot(p), r) == Stepped(app, old(Snapshot(p)), p.retained, now)
    {
      hide Started, Proper, PlannedTasks, PlannedLedgers, Due, Overruns, RunAll, ByPriority, Halted, Overlay;
      StepProper(app, Snapshot(p), p.retained, now);
      if !started { var kind := Start(p); }
      if fault.Some? { return Failed(fault.value); }
      ghost var s := Snapshot(p);
      ProperLedgers(s);
      var input := p.image.ReadInputs(mem.input);
      OverlayIs(input, mem.input, p.image.input);
      mem := Memory(input, mem.output, mem.vars);
      DueIndices(app, Snapshot(p), now, |tasks|);
      var due, overruns := PlanTasks(p, now);
      PlannedLength(app, Latched(s), now);
      due := ByPriority(tasks, due);
      var failed := RunTasks(due);
      if failed.Some? {
        var stop := Stopped(tasks[failed.value.0].info.name, failed.value.1);
        StopOnFault(p, stop);
        return Failed(stop);
      }
      var next := Earliest();
      ghost var before := p.image.output;
      p.image.WriteOutputs(mem.output);
      OverlayIs(p.image.output, before, mem.output);
      r := Report(due, next, overruns);
    }
  }

  lemma NoneToRun<V>(app: App<V>, order: seq<nat>, mem: Memory<V>)
    ensures RunAll(app, order[..0], mem) == Progress(mem, 0, None)
  {
  }

  /** What a scan sees of a task does not depend on the others. */
  lemma SampleSame<V>(app: App<V>, s: State<V>, t: State<V>, i: nat, now: nat)
    requires i < |s.tasks| && i < |t.tasks| && s.tasks[i] == t.tasks[i] && s.slots == t.slots && s.mem == t.mem
    ensures SampleOf(app, t, i, now) == SampleOf(app, s, i, now)
    ensures PlanOf(app, s, i, now) == Plan(s.tasks[i], SampleOf(app, s, i, now))
  {
    hide Plan;
  }

  lemma ProperLedgers<V>(s: State<V>)
    requires Proper(s)
    ensures |s.ledgers| == |s.tasks| && forall i :: 0 <= i < |s.tasks| ==> Held(s.slots, s.tasks[i].handle)
  {
  }

  lemma PlannedLength<V>(app: App<V>, s: State<V>, now: nat)
    ensures |PlannedTasks(app, s, now)| == |s.tasks|
  {
  }
}

/** When a task is due: the decision one scan takes for one task, and what these decisions add up to
    over any run. Times are nanoseconds of one clock; they need not even be increasing. */
module TaskPlan {
  import opened Wrappers
  import Nonlinear

  datatype TaskInfo = TaskInfo(name: string, interval: nat, priority: nat, hasSingle: bool)

  datatype TaskState = TaskState(info: TaskInfo, handle: nat, nextDue: Option<nat>, prevSingle: bool)

  /** Why a task runs in a step, if it does. */
  datatype Activation = Idle | Event | Periodic | Free

  datatype Planned = Planned(task: TaskState, activation: Activation, missed: nat)

  /** What a scan sees of a task: whether the scheduler has it running, its SINGLE input, the time. */
  datatype Sample = Sample(running: bool, single: bool, now: nat)

  predicate Rising(t: TaskState, s: Sample) { t.info.hasSingle && s.single && !t.prevSingle }

  function Resampled(t: TaskState, s: Sample): TaskState {
    if t.info.hasSingle then t.(prevSingle := s.single) else t
  }

  /** Grid points between a due point and now that are skipped. */
  function Missed(next: nat, interval: nat, now: nat): nat
    requires interval > 0
  {
    var n := next + interval;
    if n <= now then (now - n) / interval + 1 else 0
  }

  function Plan(t: TaskState, s: Sample): Planned {
    if !s.running then Planned(t, Idle, 0)
    else
      var u := Resampled(t, s);
      if Rising(t, s) then Planned(u, Event, 0)
      else if t.info.interval == 0 then Planned(u, if t.info.hasSingle then Idle else Free, 0)
      else
        var next := if t.nextDue.Some? then t.nextDue.value else s.now;
        if s.now < next then Planned(u.(nextDue := Some(next)), Idle, 0)
        else
          var missed := Missed(next, t.info.interval, s.now);
          Planned(u.(nextDue := Some(next + t.info.interval + missed * t.info.interval)),
                  if t.info.hasSingle && s.single then Idle else Periodic, missed)
  }

  /** Main result: a task is due for an event exactly on a rising edge of its SINGLE; periodically exactly
      when its due point has come and its SINGLE is not held; and freely exactly when it has neither an
      interval nor a SINGLE. */
  lemma DueIff(t: TaskState, s: Sample)
    ensures var (a, held) := (Plan(t, s).activation, t.info.hasSingle && s.single);
            && (a == Event <==> s.running && held && !t.prevSingle)
            && (a == Periodic <==> s.running && t.info.interval > 0 && !held
                                   && (t.nextDue.None? || t.nextDue.value <= s.now))
            && (a == Free <==> s.running && t.info.interval == 0 && !t.info.hasSingle)
  {
  }

  // ----- history -----------------------------------------------------------

  /** What has happened to a task since it was last (re)started: its first due point, how many due
      points were handled and skipped, how many of the handled ones found SINGLE held, the slots of the grid
      it was periodically due in, the SINGLE values seen, and how often it was due for a rising edge. A due
      task runs unless an earlier one of its step fails. */
  datatype Ledger = Ledger(first: Option<nat>, handled: nat, overruns: nat, held: nat, slots: seq<nat>,
      sampled: seq<bool>, events: nat)

  const EMPTY := Ledger(None, 0, 0, 0, [], [], 0)

  /** The scan looks at the task's grid. */
  predicate Consults(t: TaskState, s: Sample) { s.running && !Rising(t, s) && t.info.interval > 0 }

  /** A due point is reached. */
  predicate Reaches(t: TaskState, s: Sample) {
    Consults(t, s) && (t.nextDue.Some? ==> t.nextDue.value <= s.now)
  }

  /** The slot of the grid a time falls into. */
  function Slot(first: nat, interval: nat, now: nat): nat
    requires interval > 0 && first <= now
  {
    (now - first) / interval
  }

  function Record(l: Ledger, t: TaskState, s: Sample): Ledger {
    var p := Plan(t, s);
    var first := if l.first.None? && Reaches(t, s) then Some(s.now) else l.first;
    Ledger(
      first,
      l.handled + if Reaches(t, s) then 1 else 0,
      l.overruns + p.missed,
      l.held + if Reaches(t, s) && t.info.hasSingle && s.single then 1 else 0,
      if p.activation == Periodic && first.Some? && first.value <= s.now && t.info.interval > 0
      then l.slots + [Slot(first.value, t.info.interval, s.now)] else l.slots,
      if s.running && t.info.hasSingle then l.sampled + [s.single] else l.sampled,
      l.events + if p.activation == Event then 1 else 0)
  }

  /** FALSE to TRUE, FALSE being what comes before the first value. */
  function RisingEdges(vs: seq<bool>): nat {
    if vs == [] then 0
    else RisingEdges(vs[..|vs| - 1]) + if vs[|vs| - 1] && (|vs| == 1 || !vs[|vs| - 2]) then 1 else 0
  }

  /** Grid point k. */
  function Point(first: nat, interval: nat, k: nat): nat { first + interval * k }

  ghost predicate Increasing(xs: seq<nat>) { forall i, j :: 0 <= i < j < |xs| ==> xs[i] < xs[j] }

  /** The next due point is on the grid of the first one, and every point before it is accounted for;
      the task is periodically due at most once in a slot, and once for every point that was handled
      without SINGLE held. */
  ghost predicate OnGrid(t: TaskState, l: Ledger) {
    && (t.nextDue.Some? <==> l.first.Some?)
    && (l.first.Some? ==> t.nextDue.value == Point(l.first.value, t.info.interval, l.handled + l.overruns))
    && (l.first.None? ==> l.handled == 0 && l.overruns == 0)
    && Increasing(l.slots) && |l.slots| + l.held == l.handled
    && forall i :: 0 <= i < |l.slots| ==> l.slots[i] < l.handled + l.overruns
  }

  /** Runs for an event are the rising edges of what was seen of the SINGLE input. */
  ghost predicate EdgesSeen(t: TaskState, l: Ledger) {
    && l.events == RisingEdges(l.sampled)
    && t.prevSingle == (l.sampled != [] && l.sampled[|l.sampled| - 1])
  }

  ghost predicate Kept(t: TaskState, l: Ledger) { OnGrid(t, l) && EdgesSeen(t, l) }

  /** Exactly the grid points up to now are skipped, and the next one is after now. */
  lemma Skips(next: nat, interval: nat, now: nat)
    requires interval > 0 && next <= now
    ensures var missed := Missed(next, interval, now);
            && missed == (now - next) / interval
            && next + interval * missed <= now < next + interval * (missed + 1)
            && next + interval + missed * interval == next + interval * (missed + 1)
  {
    var d := now - next;
    var q := d / interval;
    assert d == interval * q + d % interval;
    assert interval * (q + 1) == interval * q + interval;
    if next + interval <= now {
      var e := d - interval;
      var r := e / interval;
      assert e == interval * r + e % interval;
      assert interval * (r + 1) == interval * r + interval;
      Nonlinear.Euclid(d, interval, r + 1, e % interval);
    } else {
      Nonlinear.Euclid(d, interval, 0, d);
    }
    var missed := Missed(next, interval, now);
    assert missed * interval == interval * missed;
  }

  /** The slot of a time between two grid points. */
  lemma SlotOf(first: nat, interval: nat, k: nat, now: nat)
    requires interval > 0 && first + interval * k <= now < first + interval * (k + 1)
    ensures first <= now && Slot(first, interval, now) == k
  {
    assert interval * (k + 1) == interval * k + interval;
    assert interval * k >= 0;
    Nonlinear.Euclid(now - first, interval, k, now - first - interval * k);
  }

  /** A step that consults the grid leaves the next due point after now, at most one interval away if a
      point was reached. */
  lemma ConsultsAhead(t: TaskState, s: Sample)
    requires Consults(t, s)
    ensures var n := Plan(t, s).task.nextDue;
            n.Some? && n.value > s.now && (Reaches(t, s) ==> n.value <= s.now + t.info.interval)
  {
    if Reaches(t, s) {
      var next := if t.nextDue.Some? then t.nextDue.value else s.now;
      Skips(next, t.info.interval, s.now);
      var missed := Missed(next, t.info.interval, s.now);
      assert t.info.interval * (missed + 1) == t.info.interval * missed + t.info.interval;
    }
  }

  /** Main result, one step: the grid and the edges stay accounted for; a task periodically due is so in the
      slot just before the new due point. */
  lemma PlanKeeps(t: TaskState, l: Ledger, s: Sample)
    requires Kept(t, l)
    ensures Kept(Plan(t, s).task, Record(l, t, s))
    ensures PeriodicInSlot(t, l, s)
  {
    GridKept(t, l, s);
    EdgesKept(t, l, s);
  }

  lemma EdgesKept(t: TaskState, l: Ledger, s: Sample)
    requires EdgesSeen(t, l)
    ensures EdgesSeen(Plan(t, s).task, Record(l, t, s))
  {
    if s.running && t.info.hasSingle {
      var vs := l.sampled + [s.single];
      assert vs[..|vs| - 1] == l.sampled;
    }
  }

  lemma GridKept(t: TaskState, l: Ledger, s: Sample)
    requires OnGrid(t, l)
    ensures OnGrid(Plan(t, s).task, Record(l, t, s))
    ensures PeriodicInSlot(t, l, s)
  {
    hide OnGrid, Plan, Record;
    if Reaches(t, s) { GridReached(t, l, s); } else { GridIdle(t, l, s); }
  }

  /** A task periodically due adds the slot that ends at the new due point. */
  ghost predicate PeriodicInSlot(t: TaskState, l: Ledger, s: Sample) {
    var (p, m) := (Plan(t, s), Record(l, t, s));
    p.activation == Periodic ==>
      && Reaches(t, s) && m.slots != [] && m.slots[..|m.slots| - 1] == l.slots
      && m.first.Some? && p.task.nextDue.Some?
      && Point(m.first.value, t.info.interval, m.slots[|m.slots| - 1]) <= s.now < p.task.nextDue.value
  }

  lemma GridIdle(t: TaskState, l: Ledger, s: Sample)
    requires OnGrid(t, l) && !Reaches(t, s)
    ensures OnGrid(Plan(t, s).task, Record(l, t, s)) && PeriodicInSlot(t, l, s)
  {
    hide Point, Missed, Slot;
  }

  lemma GridReached(t: TaskState, l: Ledger, s: Sample)
    requires OnGrid(t, l) && Reaches(t, s)
    ensures OnGrid(Plan(t, s).task, Record(l, t, s)) && PeriodicInSlot(t, l, s)
  {
    hide Point, Missed, Slot;
    var next := if t.nextDue.Some? then t.nextDue.value else s.now;
    var first := if l.first.Some? then l.first.value else s.now;
    FirstPoint(s.now, t.info.interval);
    PointReached(first, t.info.interval, l.handled + l.overruns, next, s.now);
  }

  lemma FirstPoint(first: nat, interval: nat)
    ensures Point(first, interval, 0) == first
  {
  }

  /** From the grid point number `before` on: the new due point, and the slot of now. */
  lemma PointReached(first: nat, interval: nat, before: nat, next: nat, now: nat)
    requires interval > 0 && next == Point(first, interval, before) && next <= now
    ensures var (missed, slot) := (Missed(next, interval, now), if first <= now then Slot(first, interval, now) else 0);
            && first <= now && slot == before + missed
            && next + interval + missed * interval == Point(first, interval, before + 1 + missed)
            && Point(first, interval, slot) <= now < Point(first, interval, before + 1 + missed)
  {
    hide Missed;
    Skips(next, interval, now);
    var missed := Missed(next, interval, now);
    assert interval * (before + missed) == interval * before + interval * missed;
    assert interval * (before + missed + 1) == interval * before + interval * (missed + 1);
    SlotOf(first, interval, before + missed, now);
  }

  // ----- runs --------------------------------------------------------------

  function Follow(t: TaskState, samples: seq<Sample>): TaskState {
    if samples == [] then t
    else Plan(Follow(t, samples[..|samples| - 1]), samples[|samples| - 1]).task
  }

  function History(t: TaskState, samples: seq<Sample>): Ledger {
    if samples == [] then EMPTY
    else Record(History(t, samples[..|samples| - 1]), Follow(t, samples[..|samples| - 1]), samples[|samples| - 1])
  }

  /** Main result: over any run of a task, from its start on, its next due point is its first one plus
      the interval times all points handled or skipped, it was periodically due once for every point
      handled without SINGLE held, each time in a slot of its own, and for an event once for every rising
      edge seen. */
  lemma {:induction false} GridConserved(t: TaskState, samples: seq<Sample>)
    requires t.nextDue.None? && !t.prevSingle
    ensures Kept(Follow(t, samples), History(t, samples))
    ensures Follow(t, samples).info == t.info
  {
    if samples != [] {
      var front := samples[..|samples| - 1];
      GridConserved(t, front);
      PlanKeeps(Follow(t, front), History(t, front), samples[|samples| - 1]);
    }
  }

  /** A rising edge at a due point does not handle the point: the next look at the grid at least one
      interval later skips it. */
  lemma EdgeSkipsPoint(t: TaskState, s: Sample, later: Sample)
    requires t.info.interval > 0 && t.nextDue.Some? && t.nextDue.value <= s.now && s.running && Rising(t, s)
    requires later.running && later.now >= t.nextDue.value + t.info.interval
    ensures var p := Plan(t, s); p.activation == Event && p.task.nextDue == t.nextDue
    ensures Plan(Plan(t, s).task, later).missed >= 1
  {
  }
}

/**
 * What holds over every history of the scheduler: runs never overlap, run ids are
 * consecutive, calendar slots fire once and in order, fixed intervals keep their phase.
 */
module TaskRuns {
  import opened Wrappers
  import opened TaskSchedule
  import opened TaskModel

  // ---- One id at a time ----------------------------------------------------------------------

  lemma WakeupAt(s: State, r: Reading, id: nat)
    ensures var s' := ApplyWakeup(s, r);
            && (id in s'.tasks <==> id in s.tasks)
            && (id in s.tasks ==> s'.tasks[id] == WokenTask(id, s.tasks[id], r, s.live))
            && (forall a :: Run(id, a) in s'.live <==>
                  Run(id, a) in s.live
                  || (id in s.tasks && Dispatches(id, s.tasks[id], r, s.live) && a == s.tasks[id].nextRunId))
            && (id in s'.log <==> id in s.log)
            && (id in s.log ==> s'.log[id] == if id in s.tasks && FiresOn(s.tasks[id], r)
                                              then s.log[id] + [FireNote(id, RefreshTask(s.tasks[id], r), r, s.live)]
                                              else s.log[id])
  {
    var runs := DispatchedRuns(s.tasks, r, s.live);
    forall a
      ensures Run(id, a) in runs <==>
              id in s.tasks && Dispatches(id, s.tasks[id], r, s.live) && a == s.tasks[id].nextRunId
    {
    }
  }

  // ---- Overlap -------------------------------------------------------------------------------

  /** An id is in the table only after its registration, and has runs only after it. */
  ghost predicate Known(s: State, id: nat) {
    && (id in s.tasks ==> id in s.registered)
    && (id in s.log <==> id in s.registered)
    && (id !in s.registered ==> forall a :: Run(id, a) !in s.live)
  }

  ghost predicate AtMostOneRun(s: State, id: nat) {
    forall a, b | Run(id, a) in s.live && Run(id, b) in s.live :: a == b
  }

  /** The live run of a task in the table is the one its handle names. */
  ghost predicate Handled(s: State, id: nat) {
    id in s.tasks ==> forall a: nat | Run(id, a) in s.live :: s.tasks[id].running == Some(a)
  }

  lemma OverlapStep(s: State, e: Event, id: nat)
    requires Enabled(s, e) && Known(s, id) && AtMostOneRun(s, id) && Handled(s, id)
    ensures var s' := Apply(s, e); Known(s', id) && AtMostOneRun(s', id) && Handled(s', id)
  {
    match e {
      case Wakeup(r) => WakeupAt(s, r, id);
      case _ =>
    }
  }

  lemma {:induction false} NeverOverlaps(s: State, es: seq<Event>, id: nat)
    requires Legal(s, es) && Known(s, id) && AtMostOneRun(s, id) && Handled(s, id)
    ensures var s' := Exec(s, es); Known(s', id) && AtMostOneRun(s', id) && Handled(s', id)
    decreases |es|
  {
    if es != [] {
      OverlapStep(s, es[0], id);
      NeverOverlaps(Apply(s, es[0]), es[1..], id);
    }
  }

  /** In every reachable state each task has at most one live run. */
  lemma NoOverlap(es: seq<Event>, id: nat, a: nat, b: nat)
    requires Legal(Initial(), es)
    requires Run(id, a) in Exec(Initial(), es).live && Run(id, b) in Exec(Initial(), es).live
    ensures a == b
  {
    NeverOverlaps(Initial(), es, id);
  }

  // ---- Run ids -------------------------------------------------------------------------------

  function RunIds(notes: seq<Note>): seq<nat> {
    if notes == [] then []
    else
      var last := notes[|notes| - 1].outcome;
      RunIds(notes[..|notes| - 1]) + if last.Dispatched? then [last.runId] else []
  }

  lemma RunIdsAppend(notes: seq<Note>, note: Note)
    ensures RunIds(notes + [note]) == RunIds(notes) + if note.outcome.Dispatched? then [note.outcome.runId] else []
  {
    assert (notes + [note])[..|notes|] == notes;
  }

  ghost predicate Numbered(s: State, id: nat) {
    id in s.log ==>
      && (forall k | 0 <= k < |RunIds(s.log[id])| :: RunIds(s.log[id])[k] == k + 1)
      && (id in s.tasks ==> s.tasks[id].nextRunId == |RunIds(s.log[id])| + 1)
  }

  lemma NumberedNote(notes: seq<Note>, note: Note)
    requires forall k | 0 <= k < |RunIds(notes)| :: RunIds(notes)[k] == k + 1
    requires note.outcome.Dispatched? ==> note.outcome.runId == |RunIds(notes)| + 1
    ensures forall k | 0 <= k < |RunIds(notes + [note])| :: RunIds(notes + [note])[k] == k + 1
    ensures |RunIds(notes + [note])| == |RunIds(notes)| + if note.outcome.Dispatched? then 1 else 0
  {
    RunIdsAppend(notes, note);
  }

  /** A wake-up takes the next run id exactly when it dispatches. */
  lemma WokenRunId(id: nat, t: Task, r: Reading, live: set<Run>)
    ensures var outcome := OutcomeOf(id, RefreshTask(t, r), live);
            && (outcome.Dispatched? ==> outcome.runId == t.nextRunId)
            && WokenTask(id, t, r, live).nextRunId ==
               t.nextRunId + if FiresOn(t, r) && outcome.Dispatched? then 1 else 0
  {
    hide ComputeNextDeadline, ReanchorCronDeadline;
  }

  lemma NumberedStep(s: State, e: Event, id: nat)
    requires Enabled(s, e) && Known(s, id) && Numbered(s, id)
    ensures Numbered(Apply(s, e), id)
  {
    match e {
      case Wakeup(r) =>
        hide RunIds, RefreshTask, WokenTask, FiresOn, OutcomeOf, Dispatches, FirstDeadline;
        if id in s.tasks {
          WokenRunId(id, s.tasks[id], r, s.live);
        }
        WakeupAt(s, r, id);
        if id in s.tasks && FiresOn(s.tasks[id], r) {
          NumberedNote(s.log[id], FireNote(id, RefreshTask(s.tasks[id], r), r, s.live));
        }
      case Trigger(i, r, _) =>
        hide RunIds;
        if i == id && id in s.tasks {
          NumberedNote(s.log[id], ManualNote(id, s.tasks[id], r, s.live));
        }
      case _ =>
    }
  }

  lemma {:induction false} StaysNumbered(s: State, es: seq<Event>, id: nat)
    requires Legal(s, es) && Known(s, id) && AtMostOneRun(s, id) && Handled(s, id) && Numbered(s, id)
    ensures Numbered(Exec(s, es), id)
    decreases |es|
  {
    if es != [] {
      OverlapStep(s, es[0], id);
      NumberedStep(s, es[0], id);
      StaysNumbered(Apply(s, es[0]), es[1..], id);
    }
  }

  /** Manual and scheduled runs of one task are numbered 1, 2, 3, ... without gap or repeat. */
  lemma RunIdsConsecutive(es: seq<Event>, id: nat, k: nat)
    requires Legal(Initial(), es) && id in Exec(Initial(), es).log
    requires k < |RunIds(Exec(Initial(), es).log[id])|
    ensures RunIds(Exec(Initial(), es).log[id])[k] == k + 1
  {
    StaysNumbered(Initial(), es, id);
  }

  // ---- Calendar slots ------------------------------------------------------------------------

  /** Scheduled firings, in the order they happened, are for strictly later and later slots. */
  ghost predicate SlotsIncrease(notes: seq<Note>) {
    forall i, j | 0 <= i < j < |notes| && notes[i].trigger == notes[j].trigger == Scheduled :: notes[i].at < notes[j].at
  }

  /** No scheduled firing happens before its slot by the wall clock. */
  ghost predicate NeverEarly(notes: seq<Note>) {
    forall i | 0 <= i < |notes| && notes[i].trigger == Scheduled :: notes[i].at <= notes[i].wall
  }

  ghost predicate AllBefore(notes: seq<Note>, slot: int) {
    forall i | 0 <= i < |notes| && notes[i].trigger == Scheduled :: notes[i].at < slot
  }

  ghost predicate SlotsKept(s: State, id: nat) {
    id in s.log && id in s.registered && s.registered[id].schedule.Cron? ==>
      && SlotsIncrease(s.log[id]) && NeverEarly(s.log[id])
      && (id in s.tasks ==> s.tasks[id].schedule.Cron?
                            && (s.tasks[id].nextRun.Some? ==> AllBefore(s.log[id], s.tasks[id].nextRun.value.unixMs)))
  }

  /** A consumed slot is not in the future, and the next one is later than both it and the wall clock. */
  lemma CronFires(id: nat, t: Task, r: Reading, live: set<Run>)
    requires t.schedule.Cron? && t.nextRun.Some?
    ensures FiresOn(t, r) ==> var note := FireNote(id, RefreshTask(t, r), r, live);
                              && note.trigger == Scheduled && note.at == t.nextRun.value.unixMs
                              && note.at <= note.wall == r.wall
    ensures var t' := WokenTask(id, t, r, live);
            t'.schedule.Cron? && (t'.nextRun.Some? ==>
              if FiresOn(t, r) then t'.nextRun.value.unixMs > t.nextRun.value.unixMs
              else t'.nextRun.value.unixMs == t.nextRun.value.unixMs)
  {
    ReanchoredDue(t.schedule, t.nextRun.value, Deadline(r.instant, r.wall));
    if FiresOn(t, r) {
      CronAdvance(t.schedule, RefreshTask(t, r).nextRun.value, t.clock.NowFor(t.schedule, r));
    }
  }

  lemma SlotsStep(s: State, e: Event, id: nat)
    requires Enabled(s, e) && Known(s, id) && SlotsKept(s, id)
    ensures SlotsKept(Apply(s, e), id)
  {
    match e {
      case Wakeup(r) =>
        hide WokenTask, FiresOn, FireNote, ReanchorCronDeadline, Dispatches;
        WakeupAt(s, r, id);
        if id in s.tasks && s.tasks[id].schedule.Cron? && s.tasks[id].nextRun.Some? {
          CronFires(id, s.tasks[id], r, s.live);
        }
      case _ =>
    }
  }

  lemma {:induction false} StaysSlotted(s: State, es: seq<Event>, id: nat)
    requires Legal(s, es) && Known(s, id) && AtMostOneRun(s, id) && Handled(s, id) && SlotsKept(s, id)
    ensures SlotsKept(Exec(s, es), id)
    decreases |es|
  {
    if es != [] {
      OverlapStep(s, es[0], id);
      SlotsStep(s, es[0], id);
      StaysSlotted(Apply(s, es[0]), es[1..], id);
    }
  }

  /** However the wall clock jumps, a calendar task fires each slot at most once, in order, and never early. */
  lemma CronSlotsOnceInOrder(es: seq<Event>, id: nat)
    requires Legal(Initial(), es) && id in Exec(Initial(), es).log && id in Exec(Initial(), es).registered
    requires Exec(Initial(), es).registered[id].schedule.Cron?
    ensures SlotsIncrease(Exec(Initial(), es).log[id]) && NeverEarly(Exec(Initial(), es).log[id])
  {
    StaysSlotted(Initial(), es, id);
  }

  // ---- Fixed intervals -----------------------------------------------------------------------

  ghost predicate PhaseKept(s: State, id: nat) {
    id in s.tasks && s.tasks[id].schedule.FixedInterval? ==>
      && id in s.registered
      && s.tasks[id].schedule.interval > 0
      && s.registered[id].at.unixMs >= 0
      && (s.tasks[id].nextRun.Some? ==>
            OnPhase(s.registered[id].at, s.tasks[id].schedule.interval, s.tasks[id].nextRun.value, s.time))
  }

  /** The deadline is registration time plus a positive whole number of intervals, and at most one interval ahead. */
  ghost predicate OnPhase(base: Deadline, interval: Duration, d: Deadline, time: Instant) {
    && (exists k: nat :: k > 0 && OnLattice(base, interval, k, d))
    && d.instant <= time + interval
  }

  lemma FirstOnPhase(clock: TaskClock, interval: Duration, at: Reading, time: Instant)
    requires clock.baseUnixMs >= 0 && at.instant <= time
    requires FirstDeadline(clock, FixedInterval(interval), at).Success?
    ensures interval > 0 && clock.NowFor(FixedInterval(interval), at).unixMs >= 0
    ensures OnPhase(clock.NowFor(FixedInterval(interval), at), interval,
                    FirstDeadline(clock, FixedInterval(interval), at).value, time)
  {
    var base := clock.NowFor(FixedInterval(interval), at);
    assert interval > 0;
    assert OnLattice(base, interval, 0, base);
    var k := LatticeAdvance(base, interval, 0, base, base);
  }

  lemma FiredOnPhase(base: Deadline, id: nat, t: Task, r: Reading, live: set<Run>, time: Instant)
    requires t.schedule.FixedInterval? && t.schedule.interval > 0 && base.unixMs >= 0
    requires t.nextRun.Some? && OnPhase(base, t.schedule.interval, t.nextRun.value, time) && time <= r.instant
    ensures var t' := WokenTask(id, t, r, live);
            && t'.schedule == t.schedule
            && (t'.nextRun.Some? ==> OnPhase(base, t.schedule.interval, t'.nextRun.value, r.instant))
  {
    if t.Due(r.instant) {
      var k: nat :| k > 0 && OnLattice(base, t.schedule.interval, k, t.nextRun.value);
      var k' := LatticeAdvance(base, t.schedule.interval, k, t.nextRun.value, t.clock.NowFor(t.schedule, r));
    }
  }

  lemma PhaseStep(s: State, e: Event, id: nat)
    requires Enabled(s, e) && Known(s, id) && PhaseKept(s, id)
    ensures PhaseKept(Apply(s, e), id)
  {
    match e {
      case Register(i, clock, schedule, at) =>
        if i == id && schedule.FixedInterval? {
          FirstOnPhase(clock, schedule.interval, at, Apply(s, e).time);
        }
      case Wakeup(r) =>
        hide WokenTask, FireNote, Dispatches, OnPhase;
        WakeupAt(s, r, id);
        if id in s.tasks && s.tasks[id].schedule.FixedInterval? && s.tasks[id].nextRun.Some? {
          FiredOnPhase(s.registered[id].at, id, s.tasks[id], r, s.live, s.time);
        }
      case _ =>
    }
  }

  lemma {:induction false} StaysOnPhase(s: State, es: seq<Event>, id: nat)
    requires Legal(s, es) && Known(s, id) && AtMostOneRun(s, id) && Handled(s, id) && PhaseKept(s, id)
    ensures PhaseKept(Exec(s, es), id)
    decreases |es|
  {
    if es != [] {
      OverlapStep(s, es[0], id);
      PhaseStep(s, es[0], id);
      StaysOnPhase(Apply(s, es[0]), es[1..], id);
    }
  }

  /**
   * In every reachable state a fixed task's deadline is its registration time plus a whole
   * number of intervals, with the reported time advanced by as many whole milliseconds.
   */
  lemma FixedPhaseLock(es: seq<Event>, id: nat) returns (k: nat)
    requires Legal(Initial(), es) && id in Exec(Initial(), es).tasks
    requires var t := Exec(Initial(), es).tasks[id]; t.schedule.FixedInterval? && t.nextRun.Some?
    ensures var s := Exec(Initial(), es);
            && id in s.registered && k > 0
            && OnLattice(s.registered[id].at, s.tasks[id].schedule.interval, k, s.tasks[id].nextRun.value)
            && s.tasks[id].nextRun.value.instant <= s.time + s.tasks[id].schedule.interval
  {
    StaysOnPhase(Initial(), es, id);
    var s := Exec(Initial(), es);
    k :| k > 0 && OnLattice(s.registered[id].at, s.tasks[id].schedule.interval, k, s.tasks[id].nextRun.value);
  }

  /** A wake-up leaves no deadline at or before its own time, whatever the schedule. */
  lemma WakeupLeavesNothingDue(s: State, r: Reading, id: nat)
    requires Enabled(s, Wakeup(r)) && id in s.tasks
    ensures !Apply(s, Wakeup(r)).tasks[id].Due(r.instant)
  {
  }

  lemma FewerIntervals(j: nat, k: nat, interval: nat)
    requires j < k
    ensures j * interval + interval <= k * interval
  {
    var more := k - j - 1;
    assert k * interval == j * interval + interval + more * interval;
    ProductNonNegative(more, interval);
  }

  /** However late a wake-up is, it leaves a fixed task at the least point of its lattice that is still ahead. */
  lemma LeastPhaseAhead(es: seq<Event>, r: Reading, id: nat) returns (k: nat)
    requires Legal(Initial(), es) && Enabled(Exec(Initial(), es), Wakeup(r))
    requires var s' := Apply(Exec(Initial(), es), Wakeup(r));
             id in s'.tasks && s'.tasks[id].schedule.FixedInterval? && s'.tasks[id].nextRun.Some?
    ensures var s' := Apply(Exec(Initial(), es), Wakeup(r));
            var interval, next := s'.tasks[id].schedule.interval, s'.tasks[id].nextRun.value;
            && id in s'.registered
            && OnLattice(s'.registered[id].at, interval, k, next)
            && r.instant < next.instant <= r.instant + interval
            && forall j: nat | s'.registered[id].at.instant + j * interval > r.instant :: j >= k
  {
    hide Apply;
    var s := Exec(Initial(), es);
    var s' := Apply(s, Wakeup(r));
    NeverOverlaps(Initial(), es, id);
    StaysOnPhase(Initial(), es, id);
    PhaseStep(s, Wakeup(r), id);
    WokenTime(s, r, id);
    WakeupLeavesNothingDue(s, r, id);
    var base, interval := s'.registered[id].at, s'.tasks[id].schedule.interval;
    k :| k > 0 && OnLattice(base, interval, k, s'.tasks[id].nextRun.value);
    forall j: nat | base.instant + j * interval > r.instant
      ensures j >= k
    {
      if j < k {
        FewerIntervals(j, k, interval);
      }
    }
  }

  lemma WokenTime(s: State, r: Reading, id: nat)
    requires Enabled(s, Wakeup(r))
    ensures Apply(s, Wakeup(r)).time == r.instant && (id in Apply(s, Wakeup(r)).tasks <==> id in s.tasks)
  {
  }

  // ---- Accounting ----------------------------------------------------------------------------

  /**
   * A wake-up turns each deadline it consumes into exactly one note: a new run when no run
   * of the task is live and run ids are left, a skip when one is live, a pause when the ids
   * are exhausted. Every other task is untouched.
   */
  lemma DeadlinesAccounted(es: seq<Event>, r: Reading, id: nat)
    requires Legal(Initial(), es) && Enabled(Exec(Initial(), es), Wakeup(r)) && id in Exec(Initial(), es).tasks
    ensures var s := Exec(Initial(), es);
            var s', t := Apply(s, Wakeup(r)), RefreshTask(s.tasks[id], r);
            && id in s.log && id in s'.log && id in s'.tasks
            && if !t.Due(r.instant) then s'.log[id] == s.log[id] && s'.tasks[id] == t
               else
                 var busy := exists a :: Run(id, a) in s.live;
                 var spent := s.tasks[id].nextRunId >= U64_MAX;
                 && |s'.log[id]| == |s.log[id]| + 1 && s.log[id] <= s'.log[id]
                 && var note := s'.log[id][|s.log[id]|];
                    && note.trigger == Scheduled && note.at == t.nextRun.value.unixMs
                    && (note.outcome.Skipped? <==> busy)
                    && (note.outcome.Exhausted? <==> !busy && spent)
                    && (note.outcome.Dispatched? <==> exists a :: Run(id, a) in s'.live && Run(id, a) !in s.live)
                    && (note.outcome.Dispatched? ==>
                          Run(id, note.outcome.runId) in s'.live && s'.tasks[id].running == Some(note.outcome.runId))
                    && (note.outcome.Exhausted? ==> s'.tasks[id].nextRun.None?)
  {
    var s := Exec(Initial(), es);
    NeverOverlaps(Initial(), es, id);
    WakeupAt(s, r, id);
    if Reaped(id, s.tasks[id], s.live).Some? {
      assert Run(id, s.tasks[id].running.value) in s.live;
    }
  }
}

/**
 * Manual triggers against the schedule, and what an acknowledged stop guarantees.
 */
module TaskLifecycle {
  import opened Wrappers
  import opened TaskSchedule
  import opened TaskModel
  import opened TaskRuns

  // ---- Manual triggers do not disturb the schedule -------------------------------------------

  function WithoutTriggers(es: seq<Event>): seq<Event> {
    if es == [] then []
    else (if es[0].Trigger? then [] else [es[0]]) + WithoutTriggers(es[1..])
  }

  /** The acknowledgement tokens in use. */
  function Acks(s: State): set<nat> {
    s.acked + s.stops.Keys
  }

  /** Two states that allow the same further events. */
  ghost predicate SameCallers(s: State, s': State) {
    && s.registered == s'.registered
    && Acks(s) == Acks(s')
    && s'.time <= s.time
  }

  ghost predicate SameSchedule(s: State, s': State, id: nat) {
    && (id in s.tasks <==> id in s'.tasks)
    && (id in s.tasks ==>
          && s.tasks[id].clock == s'.tasks[id].clock
          && s.tasks[id].schedule == s'.tasks[id].schedule
          && s.tasks[id].nextRun == s'.tasks[id].nextRun)
  }

  /** The schedule of the task was paused because its run ids are exhausted. */
  ghost predicate Paused(s: State, id: nat) {
    && id in s.log
    && exists i :: 0 <= i < |s.log[id]| && s.log[id][i].outcome.Exhausted? && s.log[id][i].trigger == Scheduled
  }

  lemma KnownStep(s: State, e: Event, id: nat)
    requires Enabled(s, e) && Known(s, id)
    ensures Known(Apply(s, e), id)
  {
    if e.Wakeup? {
      WakeupAt(s, e.reading, id);
    }
  }

  lemma PausedStep(s: State, e: Event, id: nat)
    requires Enabled(s, e) && Known(s, id) && Paused(s, id)
    ensures Paused(Apply(s, e), id)
  {
    var i :| 0 <= i < |s.log[id]| && s.log[id][i].outcome.Exhausted? && s.log[id][i].trigger == Scheduled;
    if e.Wakeup? {
      WakeupAt(s, e.reading, id);
    }
    assert Apply(s, e).log[id][i] == s.log[id][i];
  }

  lemma {:induction false} PausedStays(s: State, es: seq<Event>, id: nat)
    requires Legal(s, es) && Known(s, id) && Paused(s, id)
    ensures Paused(Exec(s, es), id)
    decreases |es|
  {
    if es != [] {
      KnownStep(s, es[0], id);
      PausedStep(s, es[0], id);
      PausedStays(Apply(s, es[0]), es[1..], id);
    }
  }

  /** Unless it pauses the task, a wake-up computes the next deadline from the schedule alone. */
  lemma WakeupNextRun(s: State, r: Reading, id: nat)
    requires id in s.tasks && Known(s, id) && !Paused(ApplyWakeup(s, r), id)
    ensures var t := RefreshTask(s.tasks[id], r);
            ApplyWakeup(s, r).tasks[id].nextRun == if t.Due(r.instant) then NextOf(t, r) else t.nextRun
  {
    WakeupAt(s, r, id);
    var s', t := ApplyWakeup(s, r), RefreshTask(s.tasks[id], r);
    if t.Due(r.instant) {
      assert s'.log[id][|s.log[id]|] == FireNote(id, t, r, s.live);
    }
  }

  lemma AcksStep(s: State, e: Event)
    requires Enabled(s, e)
    ensures Acks(Apply(s, e)) == Acks(s) + match e case Remove(_, ack) => {ack} case StopAll(ack) => {ack} case _ => {}
  {
  }

  lemma TimeStep(s: State, e: Event)
    requires Enabled(s, e)
    ensures Apply(s, e).time == match e
                                case Register(_, _, _, at) => if s.time < at.instant then at.instant else s.time
                                case Trigger(_, r, _) => r.instant
                                case Wakeup(r) => r.instant
                                case _ => s.time
    ensures Apply(s, e).registered ==
            if e.Register? then s.registered[e.id := Registration(e.schedule, e.clock.NowFor(e.schedule, e.at))]
                                      else s.registered
  {
  }

  lemma CallersStep(s: State, s': State, e: Event)
    requires SameCallers(s, s') && Enabled(s, e)
    ensures if e.Trigger? then SameCallers(Apply(s, e), s')
            else Enabled(s', e) && SameCallers(Apply(s, e), Apply(s', e))
  {
    assert forall ack :: ack !in Acks(s) <==> ack !in s.acked && ack !in s.stops;
    assert forall ack :: ack !in Acks(s') <==> ack !in s'.acked && ack !in s'.stops;
    hide Apply, Acks, FirstDeadline;
    AcksStep(s, e);
    TimeStep(s, e);
    if !e.Trigger? {
      AcksStep(s', e);
      TimeStep(s', e);
    }
  }

  lemma ScheduleStep(s: State, s': State, e: Event, id: nat)
    requires SameCallers(s, s') && SameSchedule(s, s', id) && Known(s, id) && Known(s', id) && Enabled(s, e)
    requires e.Trigger? || Enabled(s', e)
    requires !Paused(Apply(s, e), id) && (!e.Trigger? ==> !Paused(Apply(s', e), id))
    ensures SameSchedule(Apply(s, e), if e.Trigger? then s' else Apply(s', e), id)
  {
    hide Paused, FirstDeadline, OutcomeOf, WokenTable, DispatchedRuns, WokenLog, HandlesOf;
    if e.Wakeup? {
      ScheduleWakeup(s, s', e.reading, id);
    }
  }

  lemma ScheduleWakeup(s: State, s': State, r: Reading, id: nat)
    requires SameSchedule(s, s', id) && Known(s, id) && Known(s', id)
    requires !Paused(ApplyWakeup(s, r), id) && !Paused(ApplyWakeup(s', r), id)
    ensures SameSchedule(ApplyWakeup(s, r), ApplyWakeup(s', r), id)
  {
    hide ComputeNextDeadline, ReanchorCronDeadline, Paused, WokenTask, Dispatches, FiresOn, FireNote;
    if id in s.tasks {
      WakeupNextRun(s, r, id);
      WakeupNextRun(s', r, id);
      WokenKeeps(id, s.tasks[id], r, s.live);
      WokenKeeps(id, s'.tasks[id], r, s'.live);
    }
  }

  lemma WokenKeeps(id: nat, t: Task, r: Reading, live: set<Run>)
    ensures WokenTask(id, t, r, live).clock == t.clock && WokenTask(id, t, r, live).schedule == t.schedule
  {
  }

  lemma {:induction false} ErasedIsLegal(s: State, s': State, es: seq<Event>)
    requires Legal(s, es) && SameCallers(s, s')
    ensures Legal(s', WithoutTriggers(es))
    decreases |es|
  {
    if es != [] {
      CallersStep(s, s', es[0]);
      if es[0].Trigger? {
        assert WithoutTriggers(es) == WithoutTriggers(es[1..]);
        ErasedIsLegal(Apply(s, es[0]), s', es[1..]);
      } else {
        ErasedIsLegal(Apply(s, es[0]), Apply(s', es[0]), es[1..]);
        assert WithoutTriggers(es)[1..] == WithoutTriggers(es[1..]);
      }
    }
  }

  lemma {:induction false} ErasedKeepsSchedule(s: State, s': State, es: seq<Event>, id: nat)
    requires Legal(s, es) && SameCallers(s, s') && Legal(s', WithoutTriggers(es))
    requires SameSchedule(s, s', id) && Known(s, id) && Known(s', id)
    requires !Paused(Exec(s, es), id) && !Paused(Exec(s', WithoutTriggers(es)), id)
    ensures SameSchedule(Exec(s, es), Exec(s', WithoutTriggers(es)), id)
    decreases |es|
  {
    if es != [] {
      var e := es[0];
      CallersStep(s, s', e);
      KnownStep(s, e, id);
      if Paused(Apply(s, e), id) {
        PausedStays(Apply(s, e), es[1..], id);
      }
      if e.Trigger? {
        assert WithoutTriggers(es) == WithoutTriggers(es[1..]);
        ScheduleStep(s, s', e, id);
        ErasedKeepsSchedule(Apply(s, e), s', es[1..], id);
      } else {
        assert WithoutTriggers(es)[1..] == WithoutTriggers(es[1..]);
        KnownStep(s', e, id);
        if Paused(Apply(s', e), id) {
          PausedStays(Apply(s', e), WithoutTriggers(es[1..]), id);
        }
        ScheduleStep(s, s', e, id);
        ErasedKeepsSchedule(Apply(s, e), Apply(s', e), es[1..], id);
      }
    }
  }

  /**
   * Erasing every manual trigger from a history leaves each task's deadline as it was, as
   * long as neither history exhausts the task's run ids.
   */
  lemma TriggersLeaveDeadlines(es: seq<Event>, id: nat)
    requires Legal(Initial(), es)
    ensures Legal(Initial(), WithoutTriggers(es))
    ensures !Paused(Exec(Initial(), es), id) && !Paused(Exec(Initial(), WithoutTriggers(es)), id) ==>
              SameSchedule(Exec(Initial(), es), Exec(Initial(), WithoutTriggers(es)), id)
  {
    ErasedIsLegal(Initial(), Initial(), es);
    if !Paused(Exec(Initial(), es), id) && !Paused(Exec(Initial(), WithoutTriggers(es)), id) {
      ErasedKeepsSchedule(Initial(), Initial(), es, id);
    }
  }

  // ---- Stops ---------------------------------------------------------------------------------

  ghost predicate Idle(s: State, id: nat) {
    forall a :: Run(id, a) !in s.live
  }

  /** Since the stop `ack` of `id` was handled: the id is gone for good, and the acknowledgement waits for its runs. */
  ghost predicate Stopped(s: State, id: nat, ack: nat, log: seq<Note>) {
    && id !in s.tasks && id in s.registered && id in s.log && s.log[id] == log
    && (ack in s.acked || ack in s.stops)
    && (ack in s.acked ==> Idle(s, id))
    && (ack in s.stops ==> forall a | Run(id, a) in s.live :: Run(id, a) in s.stops[ack])
  }

  lemma StoppedStep(s: State, e: Event, id: nat, ack: nat, log: seq<Note>)
    requires Enabled(s, e) && Stopped(s, id, ack, log)
    ensures Stopped(Apply(s, e), id, ack, log)
  {
    if e.Wakeup? {
      WakeupAt(s, e.reading, id);
    }
  }

  lemma {:induction false} StaysStopped(s: State, es: seq<Event>, id: nat, ack: nat, log: seq<Note>)
    requires Legal(s, es) && Stopped(s, id, ack, log)
    ensures Stopped(Exec(s, es), id, ack, log)
    decreases |es|
  {
    if es != [] {
      StoppedStep(s, es[0], id, ack, log);
      StaysStopped(Apply(s, es[0]), es[1..], id, ack, log);
    }
  }

  /** The stop that takes a task out of the table is final: no further note, and once acknowledged no live run. */
  lemma StopIsFinal(es: seq<Event>, id: nat, ack: nat, later: seq<Event>)
    requires Legal(Initial(), es) && Enabled(Exec(Initial(), es), Remove(id, ack))
    requires id in Exec(Initial(), es).tasks
    requires Legal(Apply(Exec(Initial(), es), Remove(id, ack)), later)
    ensures var s := Exec(Initial(), es);
            var end := Exec(Apply(s, Remove(id, ack)), later);
            && id in s.log && id in end.log && end.log[id] == s.log[id] && id !in end.tasks
            && (ack in end.acked ==> Idle(end, id))
  {
    NeverOverlaps(Initial(), es, id);
    var s := Exec(Initial(), es);
    StaysStopped(Apply(s, Remove(id, ack)), later, id, ack, s.log[id]);
  }

  /** After these events the stop is not acknowledged, or no run of the task is live. */
  ghost predicate AckMeansIdle(s: State, later: seq<Event>, id: nat, ack: nat)
    requires Legal(s, later)
  {
    ack in Exec(s, later).acked ==> Idle(Exec(s, later), id)
  }

  /**
   * Exactly when an acknowledged `Remove` promises that no run is live: the task was still
   * in the table, or it had no live run. A second stop is acknowledged at once, even while
   * the first one is still waiting for its run.
   */
  lemma AckMeansIdleIff(es: seq<Event>, id: nat, ack: nat)
    requires Legal(Initial(), es) && Enabled(Exec(Initial(), es), Remove(id, ack))
    requires id in Exec(Initial(), es).registered
    ensures var s := Exec(Initial(), es);
            var s1 := Apply(s, Remove(id, ack));
            (forall later | Legal(s1, later) :: AckMeansIdle(s1, later, id, ack)) <==> (id in s.tasks || Idle(s, id))
  {
    NeverOverlaps(Initial(), es, id);
    var s := Exec(Initial(), es);
    var s1 := Apply(s, Remove(id, ack));
    if id in s.tasks || Idle(s, id) {
      forall later | Legal(s1, later)
        ensures AckMeansIdle(s1, later, id, ack)
      {
        StaysStopped(s1, later, id, ack, s.log[id]);
      }
    } else {
      var none: seq<Event> := [];
      assert Legal(s1, none) && Exec(s1, none) == s1;
      assert !AckMeansIdle(s1, none, id, ack);
    }
  }

  /** The acknowledgement that the event which took `id` out of the table promised, if it was such a stop. */
  ghost function TakenOutBy(s: State, es: seq<Event>, id: nat): Option<nat>
    requires Legal(s, es)
    decreases |es|
  {
    if es == [] then None
    else
      var s' := Apply(s, es[0]);
      if id in s.tasks && id !in s'.tasks then PromisedAck(es[0]) else TakenOutBy(s', es[1..], id)
  }

  function PromisedAck(e: Event): Option<nat> {
    match e
    case Remove(_, ack) => Some(ack)
    case StopAll(ack) => Some(ack)
    case _ => None
  }

  /** A stop that takes the task out either finds it idle or waits for its run. */
  lemma TakenOutStops(s: State, e: Event, id: nat)
    requires Enabled(s, e) && Known(s, id) && AtMostOneRun(s, id) && Handled(s, id)
    requires id in s.tasks && id !in Apply(s, e).tasks && PromisedAck(e).Some?
    ensures Stopped(Apply(s, e), id, PromisedAck(e).value, s.log[id])
  {
    if e.StopAll? {
      assert forall a | Run(id, a) in s.live :: Run(id, a) in HandlesOf(s.tasks);
    }
  }

  lemma {:induction false} TakenOutStaysStopped(s: State, es: seq<Event>, id: nat) returns (log: seq<Note>)
    requires Legal(s, es) && Known(s, id) && AtMostOneRun(s, id) && Handled(s, id)
    requires TakenOutBy(s, es, id).Some?
    ensures Stopped(Exec(s, es), id, TakenOutBy(s, es, id).value, log)
    decreases |es|
  {
    var e := es[0];
    var s' := Apply(s, e);
    if id in s.tasks && id !in s'.tasks {
      log := s.log[id];
      TakenOutStops(s, e, id);
      StaysStopped(s', es[1..], id, PromisedAck(e).value, log);
    } else {
      OverlapStep(s, e, id);
      log := TakenOutStaysStopped(s', es[1..], id);
    }
  }

  /** The stop that took a task out, once acknowledged, means that the task is idle. */
  lemma TakenOutIdle(es: seq<Event>, id: nat)
    requires Legal(Initial(), es)
    ensures var s, stop := Exec(Initial(), es), TakenOutBy(Initial(), es, id);
            stop.Some? && stop.value in s.acked ==> Idle(s, id)
  {
    if TakenOutBy(Initial(), es, id).Some? {
      var log := TakenOutStaysStopped(Initial(), es, id);
    }
  }

  /**
   * What a caller can check before a stop: the id is still in the table, or the stop that
   * took it out has been acknowledged. Then the acknowledgement of this stop, too, means
   * that the task is idle. What this leaves out is a stop after a detached one, or after one
   * that is still waiting.
   */
  lemma CheckedStopMeansIdle(es: seq<Event>, id: nat, ack: nat, later: seq<Event>)
    requires Legal(Initial(), es) && Enabled(Exec(Initial(), es), Remove(id, ack))
    requires Legal(Apply(Exec(Initial(), es), Remove(id, ack)), later)
    ensures var s, stop := Exec(Initial(), es), TakenOutBy(Initial(), es, id);
            var end := Exec(Apply(s, Remove(id, ack)), later);
            (id in s.tasks || (stop.Some? && stop.value in s.acked)) && ack in end.acked ==> Idle(end, id)
  {
    var s, stop := Exec(Initial(), es), TakenOutBy(Initial(), es, id);
    if id in s.tasks || (stop.Some? && stop.value in s.acked) {
      TakenOutIdle(es, id);
      if stop.Some? {
        var log := TakenOutStaysStopped(Initial(), es, id);
      }
      NeverOverlaps(Initial(), es, id);
      StaysStopped(Apply(s, Remove(id, ack)), later, id, ack, s.log[id]);
    }
  }

  function DetachedThenStopped(): seq<Event> {
    [Register(1, TaskClock(0, 0), FixedInterval(1), Reading(0, 0)), Wakeup(Reading(1, 0)),
     RemoveDetached(1), Remove(1, 7)]
  }

  lemma FourSteps(s: State, es: seq<Event>, s1: State, s2: State, s3: State, s4: State)
    requires |es| == 4
    requires Enabled(s, es[0]) && s1 == Apply(s, es[0]) && Enabled(s1, es[1]) && s2 == Apply(s1, es[1])
    requires Enabled(s2, es[2]) && s3 == Apply(s2, es[2]) && Enabled(s3, es[3]) && s4 == Apply(s3, es[3])
    ensures Legal(s, es) && Exec(s, es) == s4
  {
    hide Apply, Enabled;
    assert es[3..] == [es[3]] && es[3..][1..] == [];
    assert es[2..][1..] == es[3..] && es[1..][1..] == es[2..];
    assert Legal(s4, []) && Exec(s4, []) == s4;
    assert Legal(s3, es[3..]) && Exec(s3, es[3..]) == s4;
    assert Legal(s2, es[2..]) && Exec(s2, es[2..]) == s4;
    assert Legal(s1, es[1..]) && Exec(s1, es[1..]) == s4;
  }

  /** A one-nanosecond task registered at time zero starts its first run at time one. */
  lemma FirstRunStarts()
    ensures var es := DetachedThenStopped();
            && Enabled(Initial(), es[0])
            && var s1 := Apply(Initial(), es[0]);
               && Enabled(s1, es[1])
               && Run(1, 1) in Apply(s1, es[1]).live
               && Apply(s1, es[1]).acked == {} && Apply(s1, es[1]).stops == map[]
  {
    var es := DetachedThenStopped();
    var k := FixedAdvance(1, Deadline(0, 0), Deadline(0, 0));
    var s1 := Apply(Initial(), es[0]);
    WakeupAt(s1, Reading(1, 0), 1);
    assert s1.tasks[1].Due(1) && s1.tasks[1].running.None?;
    assert Dispatches(1, s1.tasks[1], Reading(1, 0), {});
  }

  /** A detached stop followed by a stop: the second is acknowledged while the run is still live. */
  lemma AckWhileLive()
    ensures Legal(Initial(), DetachedThenStopped())
    ensures var end := Exec(Initial(), DetachedThenStopped());
            7 in end.acked && Run(1, 1) in end.live
  {
    FirstRunStarts();
    var es := DetachedThenStopped();
    var s1 := Apply(Initial(), es[0]);
    var s2 := Apply(s1, es[1]);
    var s3 := Apply(s2, es[2]);
    var s4 := Apply(s3, es[3]);
    FourSteps(Initial(), es, s1, s2, s3, s4);
  }

  // ---- Stopping everything -------------------------------------------------------------------

  /** A run that was in the table when everything was stopped. */
  ghost predicate Awaited(s: State, run: Run, ack: nat) {
    && run.task !in s.tasks && run.task in s.registered
    && (ack in s.acked || ack in s.stops)
    && (run in s.live ==> ack in s.stops && ack !in s.acked && run in s.stops[ack])
  }

  lemma AwaitedStep(s: State, e: Event, run: Run, ack: nat)
    requires Enabled(s, e) && Awaited(s, run, ack)
    ensures Awaited(Apply(s, e), run, ack)
  {
    if e.Wakeup? {
      WakeupAt(s, e.reading, run.task);
      assert run == Run(run.task, run.runId);
    }
  }

  lemma {:induction false} StaysAwaited(s: State, es: seq<Event>, run: Run, ack: nat)
    requires Legal(s, es) && Awaited(s, run, ack)
    ensures Awaited(Exec(s, es), run, ack)
    decreases |es|
  {
    if es != [] {
      AwaitedStep(s, es[0], run, ack);
      StaysAwaited(Apply(s, es[0]), es[1..], run, ack);
    }
  }

  /** Once `StopAll` is acknowledged, every run of a task that was in the table has ended, for good. */
  lemma StopAllEndsRuns(es: seq<Event>, ack: nat, later: seq<Event>, run: Run)
    requires Legal(Initial(), es) && Enabled(Exec(Initial(), es), StopAll(ack))
    requires Legal(Apply(Exec(Initial(), es), StopAll(ack)), later)
    requires run.task in Exec(Initial(), es).tasks
    ensures var end := Exec(Apply(Exec(Initial(), es), StopAll(ack)), later);
            run.task !in end.tasks && (ack in end.acked ==> run !in end.live)
  {
    var s := Exec(Initial(), es);
    NeverOverlaps(Initial(), es, run.task);
    assert run == Run(run.task, run.runId);
    assert run in s.live ==> run in HandlesOf(s.tasks);
    StaysAwaited(Apply(s, StopAll(ack)), later, run, ack);
  }
}

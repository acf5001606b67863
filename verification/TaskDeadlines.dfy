/**
 * Which deadline every task has after every event, stated on the clock readings alone. A
 * task never loses its deadline but for the reasons named here.
 */
module TaskDeadlines {
  import opened Wrappers
  import opened TaskSchedule
  import opened TaskModel
  import opened TaskRuns

  ghost predicate Busy(s: State, id: nat) {
    exists a :: Run(id, a) in s.live
  }

  /** No run id is left to hand out. */
  predicate Spent(t: Task) {
    t.nextRunId >= U64_MAX
  }

  // ---- Fixed intervals -----------------------------------------------------------------------

  /** `k` is the number of the first point of the lattice after `now`. */
  ghost predicate FirstAfter(base: Deadline, interval: Duration, now: Instant, k: nat) {
    && now < base.instant + k * interval <= now + interval
    && forall j: nat | base.instant + j * interval > now :: j >= k
  }

  lemma FirstPoint(base: Deadline, interval: Duration, now: Instant, k: nat)
    requires now < base.instant + k * interval <= now + interval
    ensures FirstAfter(base, interval, now, k)
  {
    forall j: nat | base.instant + j * interval > now
      ensures j >= k
    {
      if j < k {
        FewerIntervals(j, k, interval);
      }
    }
  }

  /** One due fixed task over a wake-up that does not pause it. */
  lemma FixedFires(base: Deadline, id: nat, t: Task, r: Reading, live: set<Run>, before: nat) returns (k: nat)
    requires t.schedule.FixedInterval? && t.schedule.interval > 0 && base.unixMs >= 0
    requires t.nextRun.Some? && OnLattice(base, t.schedule.interval, before, t.nextRun.value)
    requires t.nextRun.value.instant <= r.instant
    ensures FirstAfter(base, t.schedule.interval, r.instant, k)
    ensures var point := base.instant + k * t.schedule.interval;
            var next := WokenTask(id, t, r, live).nextRun;
            if OutcomeOf(id, t, live).Exhausted? || point > MAX_INSTANT then next == None
            else next.Some? && OnLattice(base, t.schedule.interval, k, next.value)
  {
    var interval, now := t.schedule.interval, t.clock.NowFor(t.schedule, r);
    k := LatticeAdvance(base, interval, before, t.nextRun.value, now);
    FirstPoint(base, interval, r.instant, k);
    hide ComputeNextDeadline, OnLattice, FirstAfter;
  }

  /** A fixed deadline still ahead is already the first point after the reading. */
  lemma FixedWaits(base: Deadline, id: nat, t: Task, r: Reading, live: set<Run>, time: Instant) returns (k: nat)
    requires t.schedule.FixedInterval? && t.nextRun.Some? && time <= r.instant < t.nextRun.value.instant
    requires OnPhase(base, t.schedule.interval, t.nextRun.value, time)
    ensures FirstAfter(base, t.schedule.interval, r.instant, k)
    ensures OnLattice(base, t.schedule.interval, k, t.nextRun.value)
    ensures WokenTask(id, t, r, live) == t
  {
    k :| k > 0 && OnLattice(base, t.schedule.interval, k, t.nextRun.value);
    FirstPoint(base, t.schedule.interval, r.instant, k);
  }

  lemma ExhaustedIff(s: State, id: nat, t: Task)
    requires Handled(s, id) && id in s.tasks && t.running == s.tasks[id].running
    ensures OutcomeOf(id, t, s.live).Exhausted? <==> !Busy(s, id) && Spent(t)
    ensures OutcomeOf(id, t, s.live).Skipped? <==> Busy(s, id)
  {
    if Reaped(id, t, s.live).Some? {
      assert Run(id, t.running.value) in s.live;
    }
  }

  /**
   * The deadline of a fixed task after any wake-up, however late: the first point of its
   * lattice after the reading. It has none exactly when that point is out of range, or when
   * it was due with no run live and no run id left.
   */
  lemma FixedDeadline(es: seq<Event>, r: Reading, id: nat) returns (k: nat)
    requires Legal(Initial(), es) && Enabled(Exec(Initial(), es), Wakeup(r)) && id in Exec(Initial(), es).tasks
    requires var t := Exec(Initial(), es).tasks[id]; t.schedule.FixedInterval? && t.nextRun.Some?
    ensures var s := Exec(Initial(), es);
            var s', t := Apply(s, Wakeup(r)), s.tasks[id];
            && id in s.registered && id in s'.tasks
            && FirstAfter(s.registered[id].at, t.schedule.interval, r.instant, k)
            && var base, interval := s.registered[id].at, t.schedule.interval;
               var point := base.instant + k * interval;
               var due := t.nextRun.value.instant <= r.instant;
               s'.tasks[id].nextRun ==
               if (due && !Busy(s, id) && Spent(t)) || point > MAX_INSTANT then None
               else Some(Deadline(point, Min(base.unixMs + k * (interval / NANOS_PER_MILLI), I64_MAX)))
  {
    hide WokenTask, FirstAfter, FireNote, Dispatches, FiresOn, OutcomeOf, Spent;
    var s := Exec(Initial(), es);
    var t := s.tasks[id];
    NeverOverlaps(Initial(), es, id);
    StaysOnPhase(Initial(), es, id);
    WakeupAt(s, r, id);
    ExhaustedIff(s, id, t);
    var base := s.registered[id].at;
    if t.nextRun.value.instant <= r.instant {
      var before: nat :| before > 0 && OnLattice(base, t.schedule.interval, before, t.nextRun.value);
      k := FixedFires(base, id, t, r, s.live, before);
    } else {
      k := FixedWaits(base, id, t, r, s.live, s.time);
    }
  }

  // ---- A fixed task keeps going --------------------------------------------------------------

  /** The lattice has a point after `time` that an instant can hold. */
  ghost predicate PointAhead(base: Deadline, interval: Duration, time: Instant) {
    exists k: nat :: time < base.instant + k * interval <= MAX_INSTANT
  }

  ghost predicate KeepsGoing(s: State, id: nat) {
    id in s.tasks && s.tasks[id].schedule.FixedInterval? ==>
      && id in s.registered
      && (!Spent(s.tasks[id]) && PointAhead(s.registered[id].at, s.tasks[id].schedule.interval, s.time) ==>
            s.tasks[id].nextRun.Some?)
  }

  /** A wake-up takes the deadline of a fixed task only when its ids are spent or no point is left. */
  lemma FixedWokenGoes(base: Deadline, id: nat, t: Task, r: Reading, live: set<Run>, time: Instant)
    requires t.schedule.FixedInterval? && t.schedule.interval > 0 && base.unixMs >= 0
    requires t.nextRun.Some? && OnPhase(base, t.schedule.interval, t.nextRun.value, time) && time <= r.instant
    requires !Spent(t) && PointAhead(base, t.schedule.interval, r.instant)
    ensures WokenTask(id, t, r, live).nextRun.Some?
  {
    if t.nextRun.value.instant <= r.instant {
      var before: nat :| before > 0 && OnLattice(base, t.schedule.interval, before, t.nextRun.value);
      var k := FixedFires(base, id, t, r, live, before);
      var later: nat :| r.instant < base.instant + later * t.schedule.interval <= MAX_INSTANT;
      if k < later {
        FewerIntervals(k, later, t.schedule.interval);
      }
    }
  }

  lemma WokenKeepsIds(id: nat, t: Task, r: Reading, live: set<Run>)
    ensures var t' := WokenTask(id, t, r, live);
            && t'.schedule == t.schedule && t'.nextRunId >= t.nextRunId
            && (t.schedule.FixedInterval? && t.nextRun.None? ==> t'.nextRun.None?)
  {
    hide ComputeNextDeadline, ReanchorCronDeadline;
  }

  lemma GoingStep(s: State, e: Event, id: nat)
    requires Enabled(s, e) && Known(s, id) && PhaseKept(s, id) && KeepsGoing(s, id)
    ensures KeepsGoing(Apply(s, e), id)
  {
    match e {
      case Wakeup(r) =>
        hide WokenTask, FireNote, FiresOn, Dispatches, OnPhase, PointAhead;
        WakeupAt(s, r, id);
        if id in s.tasks {
          var t := s.tasks[id];
          WokenKeepsIds(id, t, r, s.live);
          if t.schedule.FixedInterval? && !Spent(t) && PointAhead(s.registered[id].at, t.schedule.interval, r.instant) {
            EarlierPoint(s.registered[id].at, t.schedule.interval, s.time, r.instant);
            FixedWokenGoes(s.registered[id].at, id, t, r, s.live, s.time);
          }
        }
      case Trigger(_, r, _) =>
        hide PointAhead;
        if id in s.tasks && s.tasks[id].schedule.FixedInterval? &&
           PointAhead(s.registered[id].at, s.tasks[id].schedule.interval, r.instant)
        {
          EarlierPoint(s.registered[id].at, s.tasks[id].schedule.interval, s.time, r.instant);
        }
      case Register(_, _, _, at) =>
        hide PointAhead, FirstDeadline;
        if id in s.tasks && s.tasks[id].schedule.FixedInterval? && s.time < at.instant &&
           PointAhead(s.registered[id].at, s.tasks[id].schedule.interval, at.instant)
        {
          EarlierPoint(s.registered[id].at, s.tasks[id].schedule.interval, s.time, at.instant);
        }
      case _ =>
    }
  }

  lemma EarlierPoint(base: Deadline, interval: Duration, time: Instant, later: Instant)
    requires time <= later && PointAhead(base, interval, later)
    ensures PointAhead(base, interval, time)
  {
    var k: nat :| later < base.instant + k * interval <= MAX_INSTANT;
  }

  lemma {:induction false} StaysGoing(s: State, es: seq<Event>, id: nat)
    requires Legal(s, es) && Known(s, id) && AtMostOneRun(s, id) && Handled(s, id)
    requires PhaseKept(s, id) && KeepsGoing(s, id)
    ensures KeepsGoing(Exec(s, es), id)
    decreases |es|
  {
    if es != [] {
      OverlapStep(s, es[0], id);
      PhaseStep(s, es[0], id);
      GoingStep(s, es[0], id);
      StaysGoing(Apply(s, es[0]), es[1..], id);
    }
  }

  /** Over every history a fixed task has a deadline, unless its run ids or the points of its lattice are used up. */
  lemma FixedAlwaysScheduled(es: seq<Event>, id: nat)
    requires Legal(Initial(), es) && id in Exec(Initial(), es).tasks
    requires Exec(Initial(), es).tasks[id].schedule.FixedInterval? && !Spent(Exec(Initial(), es).tasks[id])
    ensures var s := Exec(Initial(), es);
            && id in s.registered
            && (PointAhead(s.registered[id].at, s.tasks[id].schedule.interval, s.time) ==> s.tasks[id].nextRun.Some?)
  {
    StaysGoing(Initial(), es, id);
  }

  // ---- Calendar slots ------------------------------------------------------------------------

  /** The slot lies ahead of the wall clock by a span that both clocks can hold. */
  predicate Representable(r: Reading, slot: I64) {
    && r.wall < slot <= r.wall + I64_MAX
    && r.instant + (slot - r.wall) * NANOS_PER_MILLI <= MAX_INSTANT
  }

  function DeadlineAt(r: Reading, slot: I64): Option<Deadline> {
    if Representable(r, slot) then Some(Deadline(r.instant + (slot - r.wall) * NANOS_PER_MILLI, slot)) else None
  }

  /** One calendar task over a wake-up. */
  lemma CalendarWoken(id: nat, t: Task, r: Reading, live: set<Run>)
    requires t.schedule.Cron? && t.nextRun.Some?
    ensures var slot, next := t.nextRun.value.unixMs, WokenTask(id, t, r, live).nextRun;
            var found := t.schedule.nextSlot(r.wall);
            && (FiresOn(t, r) <==> r.wall + I64_MIN <= slot <= r.wall)
            && next == if slot > r.wall then DeadlineAt(r, slot)
                       else if slot < r.wall + I64_MIN || OutcomeOf(id, t, live).Exhausted? || found.None? then None
                       else DeadlineAt(r, found.value)
  {
  }

  /**
   * The deadline of a calendar task after any wake-up, wherever the wall clock has jumped. A
   * slot still ahead is kept, at the instant at which the wall clock will reach it. A slot
   * that has been reached is consumed, with one note, and replaced by the one the calendar
   * finds from the wall clock. A pause needs a span or instant that cannot be held, no slot
   * found ahead, or spent run ids.
   */
  lemma CalendarDeadline(es: seq<Event>, r: Reading, id: nat)
    requires Legal(Initial(), es) && Enabled(Exec(Initial(), es), Wakeup(r)) && id in Exec(Initial(), es).tasks
    requires var t := Exec(Initial(), es).tasks[id]; t.schedule.Cron? && t.nextRun.Some?
    ensures var s := Exec(Initial(), es);
            var s', t := Apply(s, Wakeup(r)), s.tasks[id];
            var slot, found := t.nextRun.value.unixMs, t.schedule.nextSlot(r.wall);
            && id in s.log && id in s'.log && id in s'.tasks
            && if slot > r.wall then s'.tasks[id].nextRun == DeadlineAt(r, slot) && s'.log[id] == s.log[id]
               else if slot < r.wall + I64_MIN then s'.tasks[id].nextRun == None && s'.log[id] == s.log[id]
               else
                 && |s'.log[id]| == |s.log[id]| + 1 && s.log[id] <= s'.log[id]
                 && var note := s'.log[id][|s.log[id]|];
                    && note.trigger == Scheduled && note.at == slot && note.wall == r.wall
                    && s'.tasks[id].nextRun ==
                       if (!Busy(s, id) && Spent(t)) || found.None? then None else DeadlineAt(r, found.value)
  {
    hide ReanchorCronDeadline, ComputeNextDeadline, WokenTask, FiresOn, OutcomeOf, Spent;
    var s := Exec(Initial(), es);
    NeverOverlaps(Initial(), es, id);
    WakeupAt(s, r, id);
    ExhaustedIff(s, id, s.tasks[id]);
    CalendarWoken(id, s.tasks[id], r, s.live);
    CronFires(id, s.tasks[id], r, s.live);
  }

  /** `nextSlot` finds the first member of `slots` after any time. */
  ghost predicate FindsFirst(nextSlot: I64 -> Option<I64>, slots: iset<I64>) {
    forall time: I64 ::
      match nextSlot(time)
      case None => forall slot | slot in slots :: slot <= time
      case Some(next) => next in slots && time < next && forall slot | slot in slots && slot > time :: slot >= next
  }

  /** A consumed slot is replaced by the first slot of the calendar after the wall clock: none is passed over. */
  lemma NoSlotPassedOver(es: seq<Event>, r: Reading, id: nat, slots: iset<I64>, slot: I64)
    requires Legal(Initial(), es) && Enabled(Exec(Initial(), es), Wakeup(r)) && id in Exec(Initial(), es).tasks
    requires var t := Exec(Initial(), es).tasks[id];
             && t.schedule.Cron? && FindsFirst(t.schedule.nextSlot, slots)
             && t.nextRun.Some? && t.nextRun.value.unixMs <= r.wall
    ensures var next := Apply(Exec(Initial(), es), Wakeup(r)).tasks[id].nextRun;
            next.Some? ==>
              && next.value.unixMs in slots
              && (r.wall < slot < next.value.unixMs ==> slot !in slots)
  {
    CalendarDeadline(es, r, id);
  }

  // ---- The first deadline --------------------------------------------------------------------

  /** What the clock of a fixed task reports at a reading: the start and the whole milliseconds since. */
  function ClockMs(clock: TaskClock, r: Reading): int {
    var elapsed := if r.instant >= clock.baseInstant then r.instant - clock.baseInstant else 0;
    Min(clock.baseUnixMs + elapsed / NANOS_PER_MILLI, I64_MAX)
  }

  /**
   * A registration succeeds exactly for a positive interval whose first point can be held,
   * or a calendar with a slot ahead; the first deadline is one interval, or that slot, away.
   */
  lemma RegisterDeadline(s: State, id: nat, clock: TaskClock, schedule: Schedule, at: Reading)
    requires id !in s.registered && clock.baseUnixMs >= 0
    ensures var first :=
              match schedule
              case Cron(nextSlot) => if nextSlot(at.wall).None? then None else DeadlineAt(at, nextSlot(at.wall).value)
              case FixedInterval(interval) =>
                if interval == 0 || at.instant + interval > MAX_INSTANT then None
                else
                  var unixMs := Min(ClockMs(clock, at) + interval / NANOS_PER_MILLI, I64_MAX);
                  Some(Deadline(at.instant + interval, unixMs));
            && (Enabled(s, Register(id, clock, schedule, at)) <==> first.Some?)
            && (first.Some? ==>
                  var s' := Apply(s, Register(id, clock, schedule, at));
                  && s'.tasks == s.tasks[id := Task(clock, schedule, first, None, 1)]
                  && id in s'.registered && s'.registered[id].schedule == schedule
                  && s'.registered[id].at.instant == at.instant
                  && (schedule.FixedInterval? ==> s'.registered[id].at.unixMs == ClockMs(clock, at)))
  {
    if schedule.FixedInterval? {
      FixedFirst(clock, schedule.interval, at);
    }
  }

  lemma FixedFirst(clock: TaskClock, interval: Duration, at: Reading)
    requires clock.baseUnixMs >= 0
    ensures FirstDeadline(clock, FixedInterval(interval), at) ==
            if interval == 0 then Failure(ZeroInterval)
            else if at.instant + interval > MAX_INSTANT then Failure(InvalidDeadline)
            else Success(Deadline(at.instant + interval, Min(ClockMs(clock, at) + interval / NANOS_PER_MILLI, I64_MAX)))
  {
    if interval > 0 {
      var base := clock.NowFor(FixedInterval(interval), at);
      assert OnLattice(base, interval, 0, base);
      var k := LatticeAdvance(base, interval, 0, base, base);
      if k > 1 {
        FewerIntervals(1, k, interval);
      }
      assert k == 1;
    }
  }

  // ---- Manual triggers -----------------------------------------------------------------------

  /**
   * A manual trigger of a task in the table leaves exactly one note and no trace in the
   * schedule. With a live run it is refused; with no run id left it is unavailable; else the
   * next id is taken, and the run lives if the task's factory succeeds.
   */
  lemma TriggersAccounted(es: seq<Event>, id: nat, r: Reading, factoryOk: bool)
    requires Legal(Initial(), es) && Enabled(Exec(Initial(), es), Trigger(id, r, factoryOk))
    requires id in Exec(Initial(), es).tasks
    ensures var s := Exec(Initial(), es);
            var s', t := Apply(s, Trigger(id, r, factoryOk)), s.tasks[id];
            var reply := TriggerReply(s, id, factoryOk);
            var n := t.nextRunId;
            && id in s.log && id in s'.log && id in s'.tasks
            && s'.tasks[id].nextRun == t.nextRun
            && |s'.log[id]| == |s.log[id]| + 1 && s.log[id] <= s'.log[id]
            && var note := s'.log[id][|s.log[id]|];
               && note.trigger == Manual && note.wall == r.wall
               && note.at == (if t.schedule.Cron? then r.wall else ClockMs(t.clock, r))
               && if Busy(s, id) then note.outcome == Skipped && reply == AlreadyRunning && s'.live == s.live
                  else if Spent(t) then note.outcome == Exhausted && reply == Unavailable && s'.live == s.live
                  else
                    && note.outcome == Dispatched(n)
                    && s'.tasks[id].nextRunId == n + 1 && s'.tasks[id].running == Some(n)
                    && reply == (if factoryOk then Started(n) else Unavailable)
                    && s'.live == s.live + if factoryOk then {Run(id, n)} else {}
  {
    var s := Exec(Initial(), es);
    NeverOverlaps(Initial(), es, id);
    StaysAboveBase(Initial(), es, id);
    ExhaustedIff(s, id, s.tasks[id]);
  }

  ghost predicate AboveBase(s: State, id: nat) {
    id in s.tasks ==> s.tasks[id].clock.baseUnixMs >= 0
  }

  lemma AboveBaseStep(s: State, e: Event, id: nat)
    requires Enabled(s, e) && AboveBase(s, id)
    ensures AboveBase(Apply(s, e), id)
  {
    hide ComputeNextDeadline, ReanchorCronDeadline;
    if e.Wakeup? {
      WakeupAt(s, e.reading, id);
    }
  }

  lemma {:induction false} StaysAboveBase(s: State, es: seq<Event>, id: nat)
    requires Legal(s, es) && AboveBase(s, id)
    ensures AboveBase(Exec(s, es), id)
    decreases |es|
  {
    if es != [] {
      AboveBaseStep(s, es[0], id);
      StaysAboveBase(Apply(s, es[0]), es[1..], id);
    }
  }
}

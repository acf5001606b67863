/**
 * The scheduler without its heap: a table of tasks, the set of live runs, pending stop
 * requests, and one `Apply` per event. Every event acts on each task independently of
 * the others.
 */
module TaskModel {
  import opened Wrappers
  import opened TaskSchedule

  datatype TriggerKind = Scheduled | Manual

  datatype RunContext = RunContext(runId: nat, trigger: TriggerKind, scheduledAt: I64)

  /** One reading of both clocks. */
  datatype Reading = Reading(instant: Instant, wall: I64)

  datatype TaskClock = TaskClock(baseInstant: Instant, baseUnixMs: I64) {
    function NowFor(schedule: Schedule, r: Reading): Deadline {
      if schedule.Cron? then Deadline(r.instant, r.wall)
      else
        var elapsedMs := Min(DurationSince(r.instant, baseInstant) / NANOS_PER_MILLI, I64_MAX);
        Deadline(r.instant, SaturatingAdd(baseUnixMs, elapsedMs))
    }
  }

  /** `running` is the handle of the latest run, kept until it is found finished. */
  datatype Task = Task(clock: TaskClock, schedule: Schedule, nextRun: Option<Deadline>, running: Option<nat>,
                       nextRunId: nat) {
    predicate Due(now: Instant) {
      nextRun.Some? && nextRun.value.instant <= now
    }
  }

  datatype Run = Run(task: nat, runId: nat)

  datatype Outcome = Dispatched(runId: nat) | Skipped | Exhausted

  /** What became of one deadline or manual trigger, and the wall clock at that moment. */
  datatype Note = Note(outcome: Outcome, trigger: TriggerKind, at: I64, wall: I64)

  datatype Registration = Registration(schedule: Schedule, at: Deadline)

  /**
   * `live` holds the runs whose future has not ended. `stops` holds the stop requests not
   * yet acknowledged, each with the runs it waits for. `log` and `registered` are history.
   */
  datatype State = State(tasks: map<nat, Task>, live: set<Run>, stops: map<nat, set<Run>>, acked: set<nat>,
                         log: map<nat, seq<Note>>, registered: map<nat, Registration>, time: Instant)

  datatype Event =
    | Register(id: nat, clock: TaskClock, schedule: Schedule, at: Reading)
    | Remove(id: nat, ack: nat)
    | RemoveDetached(id: nat)
    | StopAll(ack: nat)
    | Trigger(id: nat, reading: Reading, factoryOk: bool)
    | Wakeup(reading: Reading)
    | Finish(run: Run)
    | Acknowledge(ack: nat)

  function Initial(): State {
    State(map[], {}, map[], {}, map[], map[], 0)
  }

  // ---- One task ------------------------------------------------------------------------------

  function ToOption<T, E>(r: Result<T, E>): Option<T> {
    if r.Success? then Some(r.value) else None
  }

  /** The handle, dropped when its run has ended. */
  function Reaped(id: nat, t: Task, live: set<Run>): Option<nat> {
    if t.running.Some? && Run(id, t.running.value) !in live then None else t.running
  }

  /** The next run id; the last 64-bit value is never handed out. */
  function TakeRunId(t: Task): Option<nat> {
    if t.nextRunId + 1 > U64_MAX then None else Some(t.nextRunId)
  }

  function RefreshTask(t: Task, r: Reading): Task {
    if t.schedule.Cron? && t.nextRun.Some?
    then t.(nextRun := ToOption(ReanchorCronDeadline(t.schedule, t.nextRun.value, Deadline(r.instant, r.wall))))
    else t
  }

  function NextOf(t: Task, r: Reading): Option<Deadline>
    requires t.nextRun.Some?
  {
    ToOption(ComputeNextDeadline(t.schedule, t.nextRun.value, t.clock.NowFor(t.schedule, r)))
  }

  /** What a due deadline leads to. */
  function OutcomeOf(id: nat, t: Task, live: set<Run>): Outcome {
    if Reaped(id, t, live).Some? then Skipped
    else if TakeRunId(t).None? then Exhausted
    else Dispatched(t.nextRunId)
  }

  /** The task after its due deadline was consumed, before its run is spawned. */
  function Advanced(id: nat, t: Task, r: Reading, live: set<Run>): Task
    requires t.nextRun.Some?
  {
    var next := NextOf(t, r);
    match OutcomeOf(id, t, live)
    case Skipped => t.(nextRun := next)
    case Exhausted => t.(nextRun := None, running := None)
    case Dispatched(runId) => t.(nextRun := next, running := None, nextRunId := runId + 1)
  }

  /** The task after its due deadline was consumed. */
  function Fired(id: nat, t: Task, r: Reading, live: set<Run>): Task
    requires t.nextRun.Some?
  {
    match OutcomeOf(id, t, live)
    case Dispatched(runId) => Advanced(id, t, r, live).(running := Some(runId))
    case _ => Advanced(id, t, r, live)
  }

  function FireNote(id: nat, t: Task, r: Reading, live: set<Run>): Note
    requires t.nextRun.Some?
  {
    Note(OutcomeOf(id, t, live), Scheduled, t.nextRun.value.unixMs, r.wall)
  }

  /** One task over a whole wake-up. */
  function WokenTask(id: nat, t: Task, r: Reading, live: set<Run>): Task {
    var refreshed := RefreshTask(t, r);
    if refreshed.Due(r.instant) then Fired(id, refreshed, r, live) else refreshed
  }

  predicate FiresOn(t: Task, r: Reading) {
    RefreshTask(t, r).Due(r.instant)
  }

  predicate Dispatches(id: nat, t: Task, r: Reading, live: set<Run>) {
    FiresOn(t, r) && OutcomeOf(id, RefreshTask(t, r), live).Dispatched?
  }

  // ---- Events --------------------------------------------------------------------------------

  /** What the callers guarantee: fresh ids, a computable first deadline, a clock that never goes back. */
  predicate Enabled(s: State, e: Event) {
    match e
    case Register(id, clock, schedule, at) =>
      && id !in s.registered
      && clock.baseUnixMs >= 0
      && FirstDeadline(clock, schedule, at).Success?
    case Remove(_, ack) => ack !in s.acked && ack !in s.stops
    case StopAll(ack) => ack !in s.acked && ack !in s.stops
    case Trigger(_, reading, _) => s.time <= reading.instant
    case Wakeup(reading) => s.time <= reading.instant
    case _ => true
  }

  function FirstDeadline(clock: TaskClock, schedule: Schedule, at: Reading): Result<Deadline, ScheduleError> {
    var now := clock.NowFor(schedule, at);
    ComputeNextDeadline(schedule, now, now)
  }

  function Add(log: map<nat, seq<Note>>, id: nat, note: Note): map<nat, seq<Note>> {
    log[id := (if id in log then log[id] else []) + [note]]
  }

  function HandlesOf(tasks: map<nat, Task>): set<Run> {
    set id | id in tasks && tasks[id].running.Some? :: Run(id, tasks[id].running.value)
  }

  function ApplyRegister(s: State, id: nat, clock: TaskClock, schedule: Schedule, at: Reading): State
    requires FirstDeadline(clock, schedule, at).Success?
  {
    s.(tasks := s.tasks[id := Task(clock, schedule, Some(FirstDeadline(clock, schedule, at).value), None, 1)],
       log := map[id := []] + s.log,
       registered := s.registered[id := Registration(schedule, clock.NowFor(schedule, at))],
       time := if s.time < at.instant then at.instant else s.time)
  }

  function ApplyRemove(s: State, id: nat, ack: nat): State {
    if id in s.tasks && s.tasks[id].running.Some?
    then s.(tasks := s.tasks - {id}, stops := s.stops[ack := {Run(id, s.tasks[id].running.value)}])
    else s.(tasks := s.tasks - {id}, acked := s.acked + {ack})
  }

  function ApplyStopAll(s: State, ack: nat): State {
    if HandlesOf(s.tasks) == {} then s.(tasks := map[], acked := s.acked + {ack})
    else s.(tasks := map[], stops := s.stops[ack := HandlesOf(s.tasks)])
  }

  datatype Reply = Unavailable | AlreadyRunning | Started(runId: nat)

  /** The outcome of a manual trigger of a known task. */
  function ManualNote(id: nat, t: Task, r: Reading, live: set<Run>): Note {
    Note(OutcomeOf(id, t, live), Manual, t.clock.NowFor(t.schedule, r).unixMs, r.wall)
  }

  function TriggeredTask(id: nat, t: Task, live: set<Run>): Task {
    match OutcomeOf(id, t, live)
    case Skipped => t
    case Exhausted => t.(running := None)
    case Dispatched(runId) => t.(running := Some(runId), nextRunId := runId + 1)
  }

  function ApplyTrigger(s: State, id: nat, r: Reading, factoryOk: bool): State {
    if id !in s.tasks then s.(time := r.instant)
    else
      var outcome := OutcomeOf(id, s.tasks[id], s.live);
      s.(tasks := s.tasks[id := TriggeredTask(id, s.tasks[id], s.live)],
         live := s.live + (if outcome.Dispatched? && factoryOk then {Run(id, outcome.runId)} else {}),
         log := Add(s.log, id, ManualNote(id, s.tasks[id], r, s.live)),
         time := r.instant)
  }

  function TriggerReply(s: State, id: nat, factoryOk: bool): Reply {
    if id !in s.tasks then Unavailable
    else match OutcomeOf(id, s.tasks[id], s.live)
      case Skipped => AlreadyRunning
      case Exhausted => Unavailable
      case Dispatched(runId) => if factoryOk then Started(runId) else Unavailable
  }

  /** Runs dispatched by a wake-up. */
  function DispatchedRuns(tasks: map<nat, Task>, r: Reading, live: set<Run>): set<Run> {
    set id | id in tasks && Dispatches(id, tasks[id], r, live) :: Run(id, tasks[id].nextRunId)
  }

  function RefreshedTable(tasks: map<nat, Task>, r: Reading): map<nat, Task> {
    map id | id in tasks :: RefreshTask(tasks[id], r)
  }

  function WokenTable(tasks: map<nat, Task>, r: Reading, live: set<Run>): map<nat, Task> {
    map id | id in tasks :: WokenTask(id, tasks[id], r, live)
  }

  function WokenLog(s: State, r: Reading): map<nat, seq<Note>> {
    map id | id in s.log ::
      if id in s.tasks && FiresOn(s.tasks[id], r)
      then s.log[id] + [FireNote(id, RefreshTask(s.tasks[id], r), r, s.live)]
      else s.log[id]
  }

  /** A wake-up: every task on its own, in no particular order. */
  function ApplyWakeup(s: State, r: Reading): State {
    s.(tasks := WokenTable(s.tasks, r, s.live),
       live := s.live + DispatchedRuns(s.tasks, r, s.live),
       log := WokenLog(s, r),
       time := r.instant)
  }

  function ApplyAcknowledge(s: State, ack: nat): State {
    if ack in s.stops && s.stops[ack] !! s.live
    then s.(stops := s.stops - {ack}, acked := s.acked + {ack})
    else s
  }

  function Apply(s: State, e: Event): State
    requires Enabled(s, e)
  {
    match e
    case Register(id, clock, schedule, at) => ApplyRegister(s, id, clock, schedule, at)
    case Remove(id, ack) => ApplyRemove(s, id, ack)
    case RemoveDetached(id) => s.(tasks := s.tasks - {id})
    case StopAll(ack) => ApplyStopAll(s, ack)
    case Trigger(id, reading, factoryOk) => ApplyTrigger(s, id, reading, factoryOk)
    case Wakeup(reading) => ApplyWakeup(s, reading)
    case Finish(run) => s.(live := s.live - {run})
    case Acknowledge(ack) => ApplyAcknowledge(s, ack)
  }

  // ---- Runs of the actor ---------------------------------------------------------------------

  /** A history that the callers and the clock allow. */
  ghost predicate Legal(s: State, es: seq<Event>)
    decreases |es|
  {
    es == [] || (Enabled(s, es[0]) && Legal(Apply(s, es[0]), es[1..]))
  }

  ghost function Exec(s: State, es: seq<Event>): State
    requires Legal(s, es)
    decreases |es|
  {
    if es == [] then s else Exec(Apply(s, es[0]), es[1..])
  }
}

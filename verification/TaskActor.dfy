/**
 * The scheduler actor: one table, one lazily invalidated heap, one method per event.
 * Each method is proved to do what `TaskModel.Apply` says of the table alone.
 */
module TaskActor {
  import opened Wrappers
  import opened TaskSchedule
  import opened TaskModel
  import opened TaskHeap

  const CRON_RECHECK_NANOS: nat := 30 * NANOS_PER_SECOND

  datatype Spawn = Spawn(id: nat, context: RunContext)

  // ---- One pass over the due tasks -----------------------------------------------------------

  method TakeRunContext(task: Task, trigger: TriggerKind, scheduledAt: I64)
    returns (task': Task, context: Option<RunContext>)
    ensures match TakeRunId(task)
            case None => task' == task && context == None
            case Some(runId) =>
              && task' == task.(nextRunId := runId + 1)
              && context == Some(RunContext(runId, trigger, scheduledAt))
  {
    var runId := task.nextRunId;
    if runId + 1 > U64_MAX {
      return task, None;
    }
    task' := task.(nextRunId := runId + 1);
    context := Some(RunContext(runId, trigger, scheduledAt));
  }

  /** The note that matches the context handed to a run. */
  function NoteOf(context: RunContext, r: Reading): Note {
    Note(Dispatched(context.runId), context.trigger, context.scheduledAt, r.wall)
  }

  /** The run a due deadline starts. */
  function SpawnOf(id: nat, t: Task, live: set<Run>): Option<Spawn>
    requires t.nextRun.Some?
  {
    match OutcomeOf(id, t, live)
    case Dispatched(runId) => Some(Spawn(id, RunContext(runId, Scheduled, t.nextRun.value.unixMs)))
    case _ => None
  }

  /** Where task `id` stands within the pass. */
  ghost predicate Row(before: map<nat, Task>, r: Reading, live: set<Run>, done: set<nat>, tasks: map<nat, Task>,
                      toSpawn: seq<Spawn>, id: nat)
    requires id in before && id in tasks
  {
    && (id in done ==> before[id].Due(r.instant) && tasks[id] == Advanced(id, before[id], r, live))
    && (id !in done ==> tasks[id] == before[id])
    && forall spawn :: spawn in toSpawn && spawn.id == id <==>
       id in done && Some(spawn) == SpawnOf(id, before[id], live)
  }

  ghost predicate Pass(before: map<nat, Task>, r: Reading, live: set<Run>, done: set<nat>, tasks: map<nat, Task>,
                       toSpawn: seq<Spawn>)
  {
    && tasks.Keys == before.Keys && done <= before.Keys
    && (forall i, j | 0 <= i < j < |toSpawn| :: toSpawn[i].id != toSpawn[j].id)
    && (forall spawn | spawn in toSpawn :: spawn.id in before)
    && forall id {:trigger Row(before, r, live, done, tasks, toSpawn, id)} | id in before ::
         Row(before, r, live, done, tasks, toSpawn, id)
  }

  /** A deadline recomputed in this pass is later than the pass, so no task is consumed twice. */
  lemma NotConsumedTwice(before: map<nat, Task>, r: Reading, live: set<Run>, done: set<nat>, tasks: map<nat, Task>,
                         toSpawn: seq<Spawn>, id: nat)
    requires Pass(before, r, live, done, tasks, toSpawn) && id in tasks && tasks[id].Due(r.instant)
    ensures id !in done && tasks[id] == before[id]
    ensures forall spawn | spawn in toSpawn :: spawn.id != id
  {
    assert Row(before, r, live, done, tasks, toSpawn, id);
  }

  lemma PassStep(before: map<nat, Task>, r: Reading, live: set<Run>, done: set<nat>, tasks: map<nat, Task>,
                 toSpawn: seq<Spawn>, id: nat)
    requires Pass(before, r, live, done, tasks, toSpawn) && id in tasks && tasks[id].Due(r.instant)
    ensures var spawn := SpawnOf(id, tasks[id], live);
            Pass(before, r, live, done + {id}, tasks[id := Advanced(id, tasks[id], r, live)],
                 if spawn.Some? then toSpawn + [spawn.value] else toSpawn)
  {
    hide Advanced, OutcomeOf;
    NotConsumedTwice(before, r, live, done, tasks, toSpawn, id);
    var spawn := SpawnOf(id, tasks[id], live);
    var tasks' := tasks[id := Advanced(id, tasks[id], r, live)];
    var toSpawn' := if spawn.Some? then toSpawn + [spawn.value] else toSpawn;
    forall other | other in before
      ensures Row(before, r, live, done + {id}, tasks', toSpawn', other)
    {
      assert Row(before, r, live, done, tasks, toSpawn, other);
    }
    forall i, j | 0 <= i < j < |toSpawn'|
      ensures toSpawn'[i].id != toSpawn'[j].id
    {
      assert i < |toSpawn| && toSpawn[i] in toSpawn;
    }
  }

  /** One deadline consumed, in the heap. */
  lemma HeapStep(tasks: map<nat, Task>, h: Heap, id: nat, task: Task)
    requires Agrees(tasks, h) && h != [] && h[0].id == id && id in tasks
    ensures var h' := if task.nextRun.Some? then Push(h[1..], Entry(task.nextRun.value.instant, id)) else h[1..];
            Agrees(tasks[id := task], h')
  {
    PopKeepsOrder(h);
    forall other | other != id
      ensures Indexed(tasks, h[1..], other)
    {
      assert Indexed(tasks, h, other);
    }
    PushAgrees(tasks, h[1..], id, task);
  }

  /**
   * Consume the deadline on top of the heap: compute the next one and push it, reap a finished
   * run, then start, skip or pause. A pause clears the deadline that was just pushed, and
   * leaves its entry in the heap as a stale one.
   */
  method ConsumeDeadline(tasks: map<nat, Task>, deadlines: Heap, id: nat, r: Reading, live: set<Run>)
    returns (tasks': map<nat, Task>, deadlines': Heap, spawn: Option<Spawn>)
    requires Agrees(tasks, deadlines) && deadlines != [] && deadlines[0].id == id
    requires id in tasks && tasks[id].nextRun.Some?
    ensures tasks' == tasks[id := Advanced(id, tasks[id], r, live)]
    ensures spawn == SpawnOf(id, tasks[id], live)
    ensures Agrees(tasks', deadlines')
    ensures OutcomeOf(id, tasks[id], live).Exhausted? && NextOf(tasks[id], r).Some? ==>
              var stale := Entry(NextOf(tasks[id], r).value.instant, id);
              stale in deadlines' && !Current(tasks', stale)
  {
    hide Agrees, ComputeNextDeadline;
    deadlines' := deadlines[1..];
    var task := tasks[id];
    var scheduledAt := task.nextRun.value;
    var now := task.clock.NowFor(task.schedule, r);
    var next := ComputeNextDeadline(task.schedule, scheduledAt, now);
    task := task.(nextRun := if next.Success? then Some(next.value) else None);
    if task.nextRun.Some? {
      PushHolds(deadlines', Entry(task.nextRun.value.instant, id));
      deadlines' := Push(deadlines', Entry(task.nextRun.value.instant, id));
    }
    HeapStep(tasks, deadlines, id, task);
    ghost var pushed := tasks[id := task];
    if task.running.Some? && Run(id, task.running.value) !in live {
      task := task.(running := None);
    }
    spawn := None;
    if task.running.None? {
      var context;
      task, context := TakeRunContext(task, Scheduled, scheduledAt.unixMs);
      if context.Some? {
        spawn := Some(Spawn(id, context.value));
      } else {
        task := task.(nextRun := None);
      }
    }
    tasks' := tasks[id := task];
    FewerDeadlinesAgree(pushed, tasks', deadlines');
  }

  /** Consume every deadline at or before the reading, in heap order. */
  method ConsumeDueDeadlines(tasks: map<nat, Task>, deadlines: Heap, r: Reading, live: set<Run>)
    returns (tasks': map<nat, Task>, deadlines': Heap, toSpawn: seq<Spawn>, ghost done: set<nat>)
    requires Agrees(tasks, deadlines)
    ensures Agrees(tasks', deadlines') && Pass(tasks, r, live, done, tasks', toSpawn)
    ensures forall id | id in tasks :: id in done <==> tasks[id].Due(r.instant)
  {
    hide Agrees, Pass, Advanced, SpawnOf;
    tasks', deadlines', toSpawn, done := tasks, deadlines, [], {};
    StartPass(tasks, r, live);
    while true
      invariant Agrees(tasks', deadlines') && Pass(tasks, r, live, done, tasks', toSpawn)
      invariant tasks'.Keys == tasks.Keys && done <= tasks.Keys
      decreases tasks.Keys - done
    {
      var deadline;
      deadline, deadlines' := NextDeadline(tasks', deadlines');
      if deadline.None? || deadline.value > r.instant {
        NothingDue(tasks, r, live, done, tasks', toSpawn);
        return;
      }
      var id := deadlines'[0].id;
      NotConsumedTwice(tasks, r, live, done, tasks', toSpawn, id);
      PassStep(tasks, r, live, done, tasks', toSpawn, id);
      var spawn;
      tasks', deadlines', spawn := ConsumeDeadline(tasks', deadlines', id, r, live);
      done := done + {id};
      if spawn.Some? {
        toSpawn := toSpawn + [spawn.value];
      }
    }
  }

  lemma StartPass(tasks: map<nat, Task>, r: Reading, live: set<Run>)
    ensures Pass(tasks, r, live, {}, tasks, [])
  {
  }

  lemma NothingDue(before: map<nat, Task>, r: Reading, live: set<Run>, done: set<nat>, tasks: map<nat, Task>,
                   toSpawn: seq<Spawn>)
    requires Pass(before, r, live, done, tasks, toSpawn)
    requires forall id | id in tasks :: !tasks[id].Due(r.instant)
    ensures forall id | id in before :: id in done <==> before[id].Due(r.instant)
  {
    forall id | id in before
      ensures id in done <==> before[id].Due(r.instant)
    {
      assert Row(before, r, live, done, tasks, toSpawn, id);
    }
  }

  /** Spawn the collected runs and keep their handles. */
  method SpawnCollected(tasks: map<nat, Task>, toSpawn: seq<Spawn>, live: set<Run>)
    returns (tasks': map<nat, Task>, live': set<Run>)
    requires forall i, j | 0 <= i < j < |toSpawn| :: toSpawn[i].id != toSpawn[j].id
    requires forall spawn | spawn in toSpawn :: spawn.id in tasks
    ensures tasks'.Keys == tasks.Keys
    ensures forall spawn | spawn in toSpawn ::
              tasks'[spawn.id] == tasks[spawn.id].(running := Some(spawn.context.runId))
    ensures forall id | id in tasks && (forall spawn | spawn in toSpawn :: spawn.id != id) :: tasks'[id] == tasks[id]
    ensures live' == live + set spawn | spawn in toSpawn :: Run(spawn.id, spawn.context.runId)
  {
    tasks', live' := tasks, live;
    var i := 0;
    while i < |toSpawn|
      invariant 0 <= i <= |toSpawn| && tasks'.Keys == tasks.Keys
      invariant forall k | 0 <= k < i ::
                  tasks'[toSpawn[k].id] == tasks[toSpawn[k].id].(running := Some(toSpawn[k].context.runId))
      invariant forall id | id in tasks && (forall k | 0 <= k < i :: toSpawn[k].id != id) :: tasks'[id] == tasks[id]
      invariant live' == live + set spawn | spawn in toSpawn[..i] :: Run(spawn.id, spawn.context.runId)
    {
      var spawn := toSpawn[i];
      assert spawn in toSpawn;
      assert toSpawn[..i + 1] == toSpawn[..i] + [spawn];
      tasks' := tasks'[spawn.id := tasks'[spawn.id].(running := Some(spawn.context.runId))];
      live' := live' + {Run(spawn.id, spawn.context.runId)};
      i := i + 1;
    }
    assert toSpawn[..i] == toSpawn;
  }

  function FiredTask(id: nat, t: Task, r: Reading, live: set<Run>): Task {
    if t.Due(r.instant) then Fired(id, t, r, live) else t
  }

  function FiredTable(tasks: map<nat, Task>, r: Reading, live: set<Run>): map<nat, Task> {
    map id | id in tasks :: FiredTask(id, tasks[id], r, live)
  }

  function FiredRuns(tasks: map<nat, Task>, r: Reading, live: set<Run>): set<Run> {
    set id | id in tasks && tasks[id].Due(r.instant) && OutcomeOf(id, tasks[id], live).Dispatched? ::
      Run(id, tasks[id].nextRunId)
  }

  /** The context handed to a scheduled run says what its consumed deadline says. */
  ghost predicate Contexts(tasks: map<nat, Task>, live: set<Run>, spawned: seq<Spawn>) {
    forall spawn | spawn in spawned ::
      && spawn.id in tasks && tasks[spawn.id].nextRun.Some?
      && OutcomeOf(spawn.id, tasks[spawn.id], live) == Dispatched(spawn.context.runId)
      && spawn.context.trigger == Scheduled
      && spawn.context.scheduledAt == tasks[spawn.id].nextRun.value.unixMs
  }

  /** The heap-driven pass does to each task what it would do to that task alone. */
  method RunDueTasks(tasks: map<nat, Task>, deadlines: Heap, r: Reading, live: set<Run>)
    returns (tasks': map<nat, Task>, deadlines': Heap, live': set<Run>, spawned: seq<Spawn>)
    requires Agrees(tasks, deadlines)
    ensures tasks' == FiredTable(tasks, r, live)
    ensures live' == live + FiredRuns(tasks, r, live)
    ensures FiredRuns(tasks, r, live) == set spawn | spawn in spawned :: Run(spawn.id, spawn.context.runId)
    ensures Contexts(tasks, live, spawned) && forall spawn | spawn in spawned :: tasks[spawn.id].Due(r.instant)
    ensures Agrees(tasks', deadlines')
  {
    ghost var done;
    ghost var advanced;
    tasks', deadlines', spawned, done := ConsumeDueDeadlines(tasks, deadlines, r, live);
    advanced := tasks';
    tasks', live' := SpawnCollected(tasks', spawned, live);
    PassSpawned(tasks, r, live, done, advanced, spawned, tasks');
    FewerDeadlinesAgree(advanced, tasks', deadlines');
    SpawnedRuns(tasks, r, live, done, advanced, spawned);
    SpawnedContexts(tasks, r, live, done, advanced, spawned);
  }

  lemma SpawnedContexts(before: map<nat, Task>, r: Reading, live: set<Run>, done: set<nat>, advanced: map<nat, Task>,
                        toSpawn: seq<Spawn>)
    requires Pass(before, r, live, done, advanced, toSpawn)
    ensures Contexts(before, live, toSpawn) && forall spawn | spawn in toSpawn :: before[spawn.id].Due(r.instant)
  {
    forall spawn | spawn in toSpawn
      ensures before[spawn.id].Due(r.instant) && Some(spawn) == SpawnOf(spawn.id, before[spawn.id], live)
    {
      assert Row(before, r, live, done, advanced, toSpawn, spawn.id);
    }
  }

  lemma PassSpawned(before: map<nat, Task>, r: Reading, live: set<Run>, done: set<nat>, advanced: map<nat, Task>,
                    toSpawn: seq<Spawn>, tasks: map<nat, Task>)
    requires Pass(before, r, live, done, advanced, toSpawn) && tasks.Keys == advanced.Keys
    requires forall id | id in before :: id in done <==> before[id].Due(r.instant)
    requires forall spawn | spawn in toSpawn ::
               tasks[spawn.id] == advanced[spawn.id].(running := Some(spawn.context.runId))
    requires forall id | id in advanced && (forall spawn | spawn in toSpawn :: spawn.id != id) ::
               tasks[id] == advanced[id]
    ensures forall id | id in before ::
              tasks[id] == FiredTask(id, before[id], r, live) && tasks[id].nextRun == advanced[id].nextRun
  {
    forall id | id in before
      ensures tasks[id] == FiredTask(id, before[id], r, live) && tasks[id].nextRun == advanced[id].nextRun
    {
      hide Advanced;
      assert Row(before, r, live, done, advanced, toSpawn, id);
      if id in done && SpawnOf(id, before[id], live).Some? {
        assert SpawnOf(id, before[id], live).value in toSpawn;
      }
    }
  }

  lemma SpawnedRuns(before: map<nat, Task>, r: Reading, live: set<Run>, done: set<nat>, advanced: map<nat, Task>,
                    toSpawn: seq<Spawn>)
    requires Pass(before, r, live, done, advanced, toSpawn)
    requires forall id | id in before :: id in done <==> before[id].Due(r.instant)
    ensures (set spawn | spawn in toSpawn :: Run(spawn.id, spawn.context.runId)) == FiredRuns(before, r, live)
  {
    var spawned := set spawn | spawn in toSpawn :: Run(spawn.id, spawn.context.runId);
    forall run
      ensures run in spawned <==> run in FiredRuns(before, r, live)
    {
      if run.task in before {
        assert Row(before, r, live, done, advanced, toSpawn, run.task);
        if run in FiredRuns(before, r, live) {
          assert SpawnOf(run.task, before[run.task], live).value in toSpawn;
        }
      }
    }
  }

  /** Refreshing and then running the due tasks is one wake-up of each task. */
  lemma RefreshThenFire(tasks: map<nat, Task>, live: set<Run>, r: Reading)
    ensures var refreshed := RefreshedTable(tasks, r);
            && FiredTable(refreshed, r, live) == WokenTable(tasks, r, live)
            && FiredRuns(refreshed, r, live) == DispatchedRuns(tasks, r, live)
  {
    hide Fired, ReanchorCronDeadline, ComputeNextDeadline;
    var refreshed := RefreshedTable(tasks, r);
    forall run
      ensures run in FiredRuns(refreshed, r, live) <==> run in DispatchedRuns(tasks, r, live)
    {
      if run.task in tasks {
        var t := RefreshTask(tasks[run.task], r);
        assert refreshed[run.task] == t && t.nextRunId == tasks[run.task].nextRunId;
        assert run in FiredRuns(refreshed, r, live) <==>
               t.Due(r.instant) && OutcomeOf(run.task, t, live).Dispatched? && run.runId == t.nextRunId;
      }
    }
  }

  /** A manual trigger: reap a finished run, refuse to overlap a live one, otherwise start a run at once. */
  method TriggerTask(id: nat, task: Task, r: Reading, live: set<Run>, factoryOk: bool)
    returns (task': Task, live': set<Run>, reply: Reply, context: Option<RunContext>)
    ensures context.Some? <==> OutcomeOf(id, task, live).Dispatched?
    ensures context.Some? ==> NoteOf(context.value, r) == ManualNote(id, task, r, live)
    ensures task' == TriggeredTask(id, task, live) && task'.nextRun == task.nextRun
    ensures var outcome := OutcomeOf(id, task, live);
            && live' == live + (if outcome.Dispatched? && factoryOk then {Run(id, outcome.runId)} else {})
            && reply == match outcome
                        case Skipped => AlreadyRunning
                        case Exhausted => Unavailable
                        case Dispatched(runId) => if factoryOk then Started(runId) else Unavailable
  {
    task', live', context := task, live, None;
    if task'.running.Some? && Run(id, task'.running.value) !in live {
      task' := task'.(running := None);
    }
    if task'.running.Some? {
      return task', live', AlreadyRunning, None;
    }
    var now := task'.clock.NowFor(task'.schedule, r);
    task', context := TakeRunContext(task', Manual, now.unixMs);
    if context.None? {
      return task', live', Unavailable, None;
    }
    task' := task'.(running := Some(context.value.runId));
    // The reply is sent once the task factory has returned; a failed factory ends the run at once.
    if factoryOk {
      live' := live' + {Run(id, context.value.runId)};
      reply := Started(context.value.runId);
    } else {
      reply := Unavailable;
    }
  }

  /** Refresh the calendar deadlines if any calendar task is active, then run what is due. */
  method WakeTasks(tasks: map<nat, Task>, deadlines: Heap, recheckCron: bool, r: Reading, live: set<Run>)
    returns (tasks': map<nat, Task>, deadlines': Heap, live': set<Run>, spawned: seq<Spawn>)
    requires Agrees(tasks, deadlines)
    requires recheckCron <==> exists id | id in tasks :: tasks[id].schedule.Cron? && tasks[id].nextRun.Some?
    ensures Agrees(tasks', deadlines')
    ensures tasks' == WokenTable(tasks, r, live)
    ensures live' == live + DispatchedRuns(tasks, r, live)
    ensures DispatchedRuns(tasks, r, live) == set spawn | spawn in spawned :: Run(spawn.id, spawn.context.runId)
    ensures ContextsNoted(tasks, r, live, spawned)
  {
    hide Agrees, RefreshedTable, WokenTable, FiredTable, DispatchedRuns, FiredRuns;
    tasks', deadlines' := tasks, deadlines;
    if recheckCron {
      tasks', deadlines' := RefreshCronDeadlines(tasks', r);
    } else {
      NoCronToRefresh(tasks, r);
    }
    RefreshThenFire(tasks, live, r);
    ghost var refreshed := tasks';
    tasks', deadlines', live', spawned := RunDueTasks(tasks', deadlines', r, live);
    NoteContexts(tasks, refreshed, r, live, spawned);
  }

  /** Each run is handed what the note of its deadline says. */
  ghost predicate ContextsNoted(tasks: map<nat, Task>, r: Reading, live: set<Run>, spawned: seq<Spawn>) {
    forall spawn | spawn in spawned ::
      && spawn.id in tasks && FiresOn(tasks[spawn.id], r)
      && NoteOf(spawn.context, r) == FireNote(spawn.id, RefreshTask(tasks[spawn.id], r), r, live)
  }

  lemma NoteContexts(tasks: map<nat, Task>, refreshed: map<nat, Task>, r: Reading, live: set<Run>, spawned: seq<Spawn>)
    requires refreshed == RefreshedTable(tasks, r) && Contexts(refreshed, live, spawned)
    requires forall spawn | spawn in spawned :: refreshed[spawn.id].Due(r.instant)
    ensures ContextsNoted(tasks, r, live, spawned)
  {
    hide RefreshTask, OutcomeOf;
    assert forall spawn | spawn in spawned :: refreshed[spawn.id] == RefreshTask(tasks[spawn.id], r);
  }

  /** The latest note of a task is the one that matches this context. */
  ghost predicate Noted(log: map<nat, seq<Note>>, id: nat, context: RunContext, r: Reading) {
    id in log && log[id] != [] && log[id][|log[id]| - 1] == NoteOf(context, r)
  }

  lemma WokenKeys(s: State, r: Reading)
    ensures WokenTable(s.tasks, r, s.live).Keys == s.tasks.Keys
  {
  }

  lemma WokenNotes(s: State, r: Reading, spawned: seq<Spawn>)
    requires s.tasks.Keys <= s.log.Keys && ContextsNoted(s.tasks, r, s.live, spawned)
    ensures WokenLog(s, r).Keys == s.log.Keys
    ensures forall spawn | spawn in spawned :: Noted(WokenLog(s, r), spawn.id, spawn.context, r)
  {
  }

  // ---- The actor -----------------------------------------------------------------------------

  class Scheduler {
    var tasks: map<nat, Task>
    var deadlines: Heap
    var cronRecheckAt: Option<nat>
    // The runtime's side: unfinished runs and stop requests still waiting.
    var live: set<Run>
    var stops: map<nat, set<Run>>
    var acked: set<nat>
    // History.
    ghost var log: map<nat, seq<Note>>
    ghost var registered: map<nat, Registration>
    ghost var time: Instant

    ghost predicate Valid()
      reads this
    {
      Agrees(tasks, deadlines) && tasks.Keys <= registered.Keys && tasks.Keys <= log.Keys
    }

    ghost function Abs(): State
      reads this
    {
      State(tasks, live, stops, acked, log, registered, time)
    }

    predicate HasActiveCron()
      reads this
    {
      exists id | id in tasks :: tasks[id].schedule.Cron? && tasks[id].nextRun.Some?
    }

    constructor ()
      ensures Valid() && Abs() == Initial()
    {
      tasks, deadlines, cronRecheckAt, live, stops, acked := map[], [], None, {}, map[], {};
      log, registered, time := map[], map[], 0;
    }

    /**
     * The head of the loop: keep or drop the recheck time, and find when to wake up. The
     * wake-up is never later than any task's deadline.
     */
    method Arm(now: Instant) returns (wakeup: Option<nat>)
      requires Valid()
      modifies this`deadlines, this`cronRecheckAt
      ensures Valid() && Abs() == old(Abs())
      ensures cronRecheckAt == if !HasActiveCron() then None
                               else if old(cronRecheckAt).Some? then old(cronRecheckAt)
                               else Some(now + CRON_RECHECK_NANOS)
      ensures wakeup.None? <==> forall id | id in tasks :: tasks[id].nextRun.None?
      ensures wakeup.Some? ==> NoneBefore(tasks, wakeup.value)
      ensures wakeup.Some? && cronRecheckAt.Some? ==> wakeup.value <= cronRecheckAt.value
      ensures wakeup.Some? ==>
                || wakeup == cronRecheckAt
                || exists id | id in tasks ::
                     tasks[id].nextRun.Some? && tasks[id].nextRun.value.instant == wakeup.value
    {
      if HasActiveCron() {
        if cronRecheckAt.None? {
          cronRecheckAt := Some(now + CRON_RECHECK_NANOS);
        }
      } else {
        cronRecheckAt := None;
      }
      var deadline;
      deadline, deadlines := NextDeadline(tasks, deadlines);
      wakeup := match (deadline, cronRecheckAt)
                case (Some(d), Some(recheck)) => Some(if d <= recheck then d else recheck)
                case (Some(d), None) => Some(d)
                case (None, Some(recheck)) => Some(recheck)
                case (None, None) => None;
      assert deadline.Some? ==> deadlines[0].id in tasks;
    }

    method Register(id: nat, clock: TaskClock, schedule: Schedule, at: Reading)
      requires Valid() && Enabled(Abs(), Event.Register(id, clock, schedule, at))
      modifies this
      ensures Valid() && Abs() == Apply(old(Abs()), Event.Register(id, clock, schedule, at))
    {
      hide Agrees;
      var nextRun := FirstDeadline(clock, schedule, at).value;
      var task := Task(clock, schedule, Some(nextRun), None, 1);
      InsertAgrees(tasks, deadlines, id, task);
      deadlines := Push(deadlines, Entry(nextRun.instant, id));
      tasks := tasks[id := task];
      log := map[id := []] + log;
      registered := registered[id := Registration(schedule, clock.NowFor(schedule, at))];
      time := if time < at.instant then at.instant else time;
    }

    method Remove(id: nat, ack: nat)
      requires Valid() && Enabled(Abs(), Event.Remove(id, ack))
      modifies this
      ensures Valid() && Abs() == Apply(old(Abs()), Event.Remove(id, ack))
    {
      if id in tasks {
        var task := tasks[id];
        tasks := tasks - {id};
        if task.running.Some? {
          stops := stops[ack := {Run(id, task.running.value)}];
        } else {
          acked := acked + {ack};
        }
      } else {
        acked := acked + {ack};
      }
      deadlines := RebuildDeadlineHeap(tasks);
      assert tasks == old(tasks) - {id};
    }

    method RemoveDetached(id: nat)
      requires Valid()
      modifies this`tasks, this`deadlines
      ensures Valid() && Abs() == Apply(old(Abs()), Event.RemoveDetached(id))
    {
      tasks := tasks - {id};
      deadlines := RebuildDeadlineHeap(tasks);
    }

    method StopAll(ack: nat)
      requires Valid() && Enabled(Abs(), Event.StopAll(ack))
      modifies this
      ensures Valid() && Abs() == Apply(old(Abs()), Event.StopAll(ack))
    {
      var running: set<Run> := {};
      var left := tasks.Keys;
      while left != {}
        invariant left <= tasks.Keys
        invariant running == set id | id in tasks && id !in left && tasks[id].running.Some? ::
                               Run(id, tasks[id].running.value)
        invariant Abs() == old(Abs())
        decreases left
      {
        var id :| id in left;
        left := left - {id};
        if tasks[id].running.Some? {
          running := running + {Run(id, tasks[id].running.value)};
        }
      }
      assert running == HandlesOf(tasks);
      tasks := map[];
      deadlines := [];
      if running == {} {
        acked := acked + {ack};
      } else {
        stops := stops[ack := running];
      }
    }

    /** A started run is handed the id, kind and time that its note records. */
    method Trigger(id: nat, r: Reading, factoryOk: bool) returns (reply: Reply, context: Option<RunContext>)
      requires Valid() && Enabled(Abs(), Event.Trigger(id, r, factoryOk))
      modifies this
      ensures Valid() && deadlines == old(deadlines)
      ensures Abs() == Apply(old(Abs()), Event.Trigger(id, r, factoryOk))
      ensures reply == TriggerReply(old(Abs()), id, factoryOk)
      ensures reply.Started? ==> context.Some? && context.value.runId == reply.runId
      ensures context.Some? ==> Noted(log, id, context.value, r)
    {
      hide Agrees;
      time := r.instant;
      if id !in tasks {
        return Unavailable, None;
      }
      var task := tasks[id];
      log := Add(log, id, ManualNote(id, task, r, live));
      task, live, reply, context := TriggerTask(id, task, r, live, factoryOk);
      FewerDeadlinesAgree(tasks, tasks[id := task], deadlines);
      tasks := tasks[id := task];
    }

    /** Every run it starts is handed the id, kind and time that its note records. */
    method Wakeup(r: Reading) returns (spawned: seq<Spawn>)
      requires Valid() && Enabled(Abs(), Event.Wakeup(r))
      requires cronRecheckAt.Some? <==> HasActiveCron()
      modifies this
      ensures Valid() && Abs() == Apply(old(Abs()), Event.Wakeup(r))
      ensures live == old(live) + set spawn | spawn in spawned :: Run(spawn.id, spawn.context.runId)
      ensures forall spawn | spawn in spawned :: Noted(log, spawn.id, spawn.context, r)
      ensures cronRecheckAt == if old(HasActiveCron()) then Some(r.instant + CRON_RECHECK_NANOS) else None
    {
      hide Agrees, DispatchedRuns, WokenLog, WokenTable, ContextsNoted, Noted;
      ghost var before := Abs();
      tasks, deadlines, live, spawned := WakeTasks(tasks, deadlines, cronRecheckAt.Some?, r, live);
      if cronRecheckAt.Some? {
        cronRecheckAt := Some(r.instant + CRON_RECHECK_NANOS);
      }
      WokenNotes(before, r, spawned);
      WokenKeys(before, r);
      log := WokenLog(before, r);
      time := r.instant;
    }

    /**
     * The loop of the actor: arm the wake-up, then handle whichever event comes next. Ends of
     * runs and of stops happen between its turns.
     */
    method Serve(events: seq<Event>, clock: seq<Instant>)
      requires Valid() && Legal(Abs(), events) && |clock| == |events|
      modifies this
      ensures Valid() && Abs() == Exec(old(Abs()), events)
    {
      var i := 0;
      assert events[0..] == events;
      while i < |events|
        invariant 0 <= i <= |events| && Valid() && Legal(Abs(), events[i..])
        invariant Exec(Abs(), events[i..]) == Exec(old(Abs()), events)
      {
        assert events[i..][0] == events[i] && events[i..][1..] == events[i + 1..];
        Handle(events[i], clock[i]);
        i := i + 1;
      }
      assert events[i..] == [];
    }

    /** One turn. */
    method Handle(event: Event, now: Instant)
      requires Valid() && Enabled(Abs(), event)
      modifies this
      ensures Valid() && Abs() == Apply(old(Abs()), event)
    {
      hide Agrees, Apply, Enabled;
      match event {
        case Finish(run) => Finish(run);
        case Acknowledge(ack) => Acknowledge(ack);
        case _ => var wakeup := Arm(now);
      }
      match event {
        case Register(id, clock, schedule, at) => Register(id, clock, schedule, at);
        case Remove(id, ack) => Remove(id, ack);
        case RemoveDetached(id) => RemoveDetached(id);
        case StopAll(ack) => StopAll(ack);
        case Trigger(id, reading, factoryOk) => var reply, context := Trigger(id, reading, factoryOk);
        case Wakeup(reading) => var spawned := Wakeup(reading);
        case _ =>
      }
    }

    /** A run's future ends. */
    method Finish(run: Run)
      requires Valid()
      modifies this`live
      ensures Valid() && Abs() == Apply(old(Abs()), Event.Finish(run))
    {
      live := live - {run};
    }

    /** A stop request whose runs have all ended is acknowledged. */
    method Acknowledge(ack: nat)
      requires Valid()
      modifies this`stops, this`acked
      ensures Valid() && Abs() == Apply(old(Abs()), Event.Acknowledge(ack))
    {
      if ack in stops && stops[ack] !! live {
        stops := stops - {ack};
        acked := acked + {ack};
      }
    }
  }

  lemma {:induction false} PushHolds(h: Heap, e: Entry)
    ensures e in Push(h, e)
  {
    if h != [] && !NotAfter(e, h[0]) {
      PushHolds(h[1..], e);
    }
  }

  lemma InsertAgrees(tasks: map<nat, Task>, h: Heap, id: nat, task: Task)
    requires Agrees(tasks, h) && id !in tasks && task.nextRun.Some?
    ensures Agrees(tasks[id := task], Push(h, Entry(task.nextRun.value.instant, id)))
  {
    PushAgrees(tasks, h, id, task);
  }

  lemma NoCronToRefresh(tasks: map<nat, Task>, r: Reading)
    requires forall id | id in tasks :: !(tasks[id].schedule.Cron? && tasks[id].nextRun.Some?)
    ensures tasks == RefreshedTable(tasks, r)
  {
  }
}

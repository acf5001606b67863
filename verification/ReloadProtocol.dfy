/**
 * Requesters and the application loop, interleaved in atomic steps: the lock section of a
 * request and the sending of its command are separate, and so are the stages of a reload.
 */
module ReloadProtocol {
  import opened Wrappers
  import opened ReloadControl

  /** Where the loop stands. The hashed text is what the recorded target version was computed from. */
  datatype Phase =
    | Waiting
    | Dequeued
    | Loading(hashed: Option<string>)
    | Stopping(hashed: Option<string>, candidate: string)
    | Assembling(hashed: Option<string>, candidate: string)
    | RollingBack
    | Exited

  /** `sending` holds the commands whose requester has left the lock section but not sent yet. */
  datatype World = World(control: ControlState, sending: multiset<Command>, queue: seq<Command>, phase: Phase,
                         assembly: Option<string>, current: string)

  datatype Step =
    | BeginReload
    | BeginStop(command: Command)
    | Send(command: Command)
    | ShutdownSignal
    | Dequeue
    | Start(file: Option<string>, now: nat)
    | Load(file: Option<string>, now: nat)
    | StopAssembly
    | Assemble(ok: bool, now: nat)
    | Rollback(ok: bool, now: nat)

  /** After the first assembly; `hashed` is what the file held when its version was recorded. */
  function InitialWorld(text: string, hashed: Option<string>, outside: Outside): World {
    World(Fresh().(runningVersion := VersionOf(hashed, outside)), multiset{}, [], Waiting, Some(text), text)
  }

  predicate CanStep(w: World, s: Step) {
    match s
    case BeginReload => true
    case BeginStop(command) => command != Reload
    case Send(command) => command in w.sending
    case ShutdownSignal => w.phase.Waiting?
    case Dequeue => w.phase.Waiting? && w.queue != []
    case Start(_, _) => w.phase.Dequeued?
    case Load(_, _) => w.phase.Loading?
    case StopAssembly => w.phase.Stopping?
    case Assemble(_, _) => w.phase.Assembling?
    case Rollback(_, _) => w.phase.RollingBack?
  }

  function Next(w: World, s: Step, outside: Outside): World
    requires CanStep(w, s)
  {
    match s
    case BeginReload =>
      if Busy(w.control) then w else w.(control := Requested(w.control), sending := w.sending + multiset{Reload})
    case BeginStop(command) =>
      w.(control := w.control.(shutdownRequested := true), sending := w.sending + multiset{command})
    case Send(command) =>
      // Once the loop has ended its receiver is gone and the command is lost.
      w.(sending := w.sending - multiset{command}, queue := if w.phase.Exited? then w.queue else w.queue + [command])
    case ShutdownSignal => w.(phase := Exited)
    case Dequeue =>
      w.(queue := w.queue[1..], phase := if w.queue[0] == Reload then Dequeued else Exited)
    case Start(file, now) =>
      w.(control := StartedReload(w.control, VersionOf(file, outside), now), phase := Loading(file))
    case Load(file, now) =>
      if file.Some? && outside.valid(file.value) then w.(phase := Stopping(w.phase.hashed, file.value))
      else w.(control := FailedReload(w.control, now), phase := Waiting)
    case StopAssembly => w.(assembly := None, phase := Assembling(w.phase.hashed, w.phase.candidate))
    case Assemble(ok, now) =>
      if ok then
        w.(assembly := Some(w.phase.candidate), current := w.phase.candidate,
           control := SucceededReload(w.control, now), phase := Waiting)
      else w.(phase := RollingBack)
    case Rollback(ok, now) =>
      if ok then w.(assembly := Some(w.current), control := FailedReload(w.control, now), phase := Waiting)
      else w.(control := FailedReload(w.control, now), phase := Exited)
  }

  ghost predicate Possible(w: World, steps: seq<Step>, outside: Outside)
    decreases |steps|
  {
    steps == [] || (CanStep(w, steps[0]) && Possible(Next(w, steps[0], outside), steps[1..], outside))
  }

  ghost function After(w: World, steps: seq<Step>, outside: Outside): World
    requires Possible(w, steps, outside)
    decreases |steps|
  {
    if steps == [] then w else After(Next(w, steps[0], outside), steps[1..], outside)
  }

  // ---- At most one outstanding reload --------------------------------------------------------

  /** Reload commands being sent, queued, or dequeued but not yet started. */
  function Outstanding(w: World): nat {
    w.sending[Reload] + Queued(w.queue) + if w.phase.Dequeued? then 1 else 0
  }

  function Queued(queue: seq<Command>): nat {
    multiset(queue)[Reload]
  }

  lemma QueuedStep(queue: seq<Command>, command: Command)
    ensures Queued([]) == 0
    ensures Queued(queue + [command]) == Queued(queue) + if command == Reload then 1 else 0
    ensures queue != [] ==> Queued(queue) == Queued(queue[1..]) + if queue[0] == Reload then 1 else 0
  {
    if queue != [] {
      assert queue == [queue[0]] + queue[1..];
    }
  }

  predicate AtWork(p: Phase) {
    p.Loading? || p.Stopping? || p.Assembling? || p.RollingBack?
  }

  ghost predicate SingleReload(w: World) {
    && !(w.control.reloadPending && w.control.reloadInProgress)
    && (!w.phase.Exited? ==>
          && Outstanding(w) == (if w.control.reloadPending then 1 else 0)
          && (w.control.reloadInProgress <==> AtWork(w.phase)))
  }

  /**
   * Only an accepted request adds to the commands on their way; only the start of a reload,
   * or a closed channel, takes one off.
   */
  lemma OutstandingStep(w: World, s: Step, outside: Outside)
    requires CanStep(w, s)
    ensures Outstanding(Next(w, s, outside)) ==
            Outstanding(w) + if s.BeginReload? && !Busy(w.control) then 1
                             else if s.Start? || (s == Send(Reload) && w.phase.Exited?) then -1
                             else 0
  {
    hide Busy, Requested, StartedReload, SucceededReload, FailedReload, Queued;
    QueuedStep(w.queue, if s.Send? then s.command else Reload);
  }

  lemma SingleReloadStep(w: World, s: Step, outside: Outside)
    requires CanStep(w, s) && SingleReload(w)
    ensures SingleReload(Next(w, s, outside))
  {
    hide Outstanding, VersionOf;
    OutstandingStep(w, s, outside);
  }

  lemma {:induction false} StaysSingle(w: World, steps: seq<Step>, outside: Outside)
    requires Possible(w, steps, outside) && SingleReload(w)
    ensures SingleReload(After(w, steps, outside))
    decreases |steps|
  {
    if steps != [] {
      SingleReloadStep(w, steps[0], outside);
      StaysSingle(Next(w, steps[0], outside), steps[1..], outside);
    }
  }

  /**
   * Over every interleaving of requesters with the loop: a reload is never both pending and
   * in progress, and while the loop runs, pending means exactly one reload command on its way.
   */
  lemma AtMostOneReload(text: string, hashed: Option<string>, steps: seq<Step>, outside: Outside)
    requires Possible(InitialWorld(text, hashed, outside), steps, outside)
    ensures var w := After(InitialWorld(text, hashed, outside), steps, outside);
            && !(w.control.reloadPending && w.control.reloadInProgress)
            && (!w.phase.Exited? ==>
                  && Outstanding(w) <= 1
                  && (w.control.reloadPending <==> Outstanding(w) == 1)
                  && (w.control.reloadInProgress <==> AtWork(w.phase)))
  {
    StaysSingle(InitialWorld(text, hashed, outside), steps, outside);
  }

  // ---- What the status reports ---------------------------------------------------------------

  /** Whether this step ends a reload, and how. */
  function Completes(w: World, s: Step, outside: Outside): Option<bool>
    requires CanStep(w, s)
  {
    match s
    case Load(file, _) => if file.Some? && outside.valid(file.value) then None else Some(false)
    case Assemble(ok, _) => if ok then Some(true) else None
    case Rollback(_, _) => Some(false)
    case _ => None
  }

  /** How the latest reload to end has ended, when `last` was the outcome before these steps. */
  ghost function LastOutcome(w: World, steps: seq<Step>, outside: Outside, last: Option<bool>): Option<bool>
    requires Possible(w, steps, outside)
    decreases |steps|
  {
    if steps == [] then last
    else
      var outcome := Completes(w, steps[0], outside);
      LastOutcome(Next(w, steps[0], outside), steps[1..], outside, if outcome.Some? then outcome else last)
  }

  /** A pending or running reload hides the previous failure; otherwise the records tell the latest outcome. */
  ghost predicate Remembers(c: ControlState, last: Option<bool>) {
    && (c.failed ==> last == Some(false))
    && (last == Some(false) && !Busy(c) ==> c.failed)
    && (last == Some(true) ==> c.lastSuccess.Some?)
    && (last == None ==> c.lastSuccess.None?)
  }

  lemma {:induction false} StaysRemembered(w: World, steps: seq<Step>, outside: Outside, last: Option<bool>)
    requires Possible(w, steps, outside) && Remembers(w.control, last)
    ensures Remembers(After(w, steps, outside).control, LastOutcome(w, steps, outside, last))
    decreases |steps|
  {
    if steps != [] {
      var outcome := Completes(w, steps[0], outside);
      StaysRemembered(Next(w, steps[0], outside), steps[1..], outside, if outcome.Some? then outcome else last);
    }
  }

  /**
   * Over every interleaving the status tells the truth while the loop runs: a reload is being
   * worked on, or one command is on its way, or else how the latest reload ended.
   */
  lemma ReportedStatus(text: string, hashed: Option<string>, steps: seq<Step>, outside: Outside)
    requires Possible(InitialWorld(text, hashed, outside), steps, outside)
    requires !After(InitialWorld(text, hashed, outside), steps, outside).phase.Exited?
    ensures var w := After(InitialWorld(text, hashed, outside), steps, outside);
            Status(w.control) ==
            if AtWork(w.phase) then InProgressStatus
            else if Outstanding(w) == 1 then PendingStatus
            else match LastOutcome(InitialWorld(text, hashed, outside), steps, outside, None)
              case None => IdleStatus
              case Some(succeeded) => if succeeded then OkStatus else FailedStatus
  {
    StaysSingle(InitialWorld(text, hashed, outside), steps, outside);
    StaysRemembered(InitialWorld(text, hashed, outside), steps, outside, None);
  }

  // ---- What runs, and what is reported -------------------------------------------------------

  /** The text whose hash the controller reports, when it was `recorded` before these steps. */
  ghost function Recorded(w: World, steps: seq<Step>, outside: Outside, recorded: Option<string>): Option<string>
    requires Possible(w, steps, outside)
    decreases |steps|
  {
    if steps == [] then recorded
    else Recorded(Next(w, steps[0], outside), steps[1..], outside, RecordedBy(w, steps[0], recorded))
  }

  /** A successful reload records what it hashed, unless the file could not be read for hashing. */
  function RecordedBy(w: World, s: Step, recorded: Option<string>): Option<string>
    requires CanStep(w, s)
  {
    if s.Assemble? && s.ok && w.phase.hashed.Some? then w.phase.hashed else recorded
  }

  /** What is true at every stage, however the file changes between its reads. */
  ghost predicate Safe(w: World, recorded: Option<string>, outside: Outside) {
    && (w.phase.Waiting? || w.phase.Dequeued? || w.phase.Loading? || w.phase.Stopping? ==>
          w.assembly == Some(w.current))
    && (w.phase.Assembling? || w.phase.RollingBack? ==> w.assembly == None)
    && (w.phase.Exited? ==> w.assembly in {None, Some(w.current)})
    && w.control.runningVersion == VersionOf(recorded, outside)
    && (w.phase.Loading? || w.phase.Stopping? || w.phase.Assembling? ==>
          w.control.targetVersion == VersionOf(w.phase.hashed, outside))
  }

  lemma SafeStep(w: World, s: Step, outside: Outside, recorded: Option<string>)
    requires CanStep(w, s) && Safe(w, recorded, outside)
    ensures Safe(Next(w, s, outside), RecordedBy(w, s, recorded), outside)
  {
  }

  lemma {:induction false} StaysSafe(w: World, steps: seq<Step>, outside: Outside, recorded: Option<string>)
    requires Possible(w, steps, outside) && Safe(w, recorded, outside)
    ensures Safe(After(w, steps, outside), Recorded(w, steps, outside, recorded), outside)
    decreases |steps|
  {
    if steps != [] {
      SafeStep(w, steps[0], outside, recorded);
      StaysSafe(Next(w, steps[0], outside), steps[1..], outside, RecordedBy(w, steps[0], recorded));
    }
  }

  /**
   * Over every interleaving, through load failures, assembly failures, rollbacks and torn
   * reads: whenever the loop waits, the current configuration runs. The version reported is
   * right exactly when the recorded text has the hash of the current configuration: the text
   * hashed by the latest successful reload that could read the file, else the one at the start.
   */
  lemma ReportedVersionIff(text: string, hashed: Option<string>, steps: seq<Step>, outside: Outside)
    requires Possible(InitialWorld(text, hashed, outside), steps, outside)
    ensures var w := After(InitialWorld(text, hashed, outside), steps, outside);
            var recorded := Recorded(InitialWorld(text, hashed, outside), steps, outside, hashed);
            && w.control.runningVersion == VersionOf(recorded, outside)
            && (w.phase.Waiting? ==>
                  && w.assembly == Some(w.current)
                  && (Consistent(w.assembly, w.current, w.control, outside) <==>
                        recorded.Some? && outside.hash(recorded.value) == outside.hash(w.current)))
  {
    StaysSafe(InitialWorld(text, hashed, outside), steps, outside, hashed);
  }

  // ---- Both reads of one snapshot ------------------------------------------------------------

  /** The load sees the text that was hashed, as if both were reads of one snapshot. */
  predicate Snapshot(w: World, s: Step) {
    s.Load? && w.phase.Loading? ==> s.file == w.phase.hashed
  }

  ghost predicate Snapshots(w: World, steps: seq<Step>, outside: Outside)
    requires Possible(w, steps, outside)
    decreases |steps|
  {
    steps == [] || (Snapshot(w, steps[0]) && Snapshots(Next(w, steps[0], outside), steps[1..], outside))
  }

  lemma {:induction false} SnapshotsRecord(w: World, steps: seq<Step>, outside: Outside, recorded: Option<string>)
    requires Possible(w, steps, outside) && Snapshots(w, steps, outside)
    requires recorded == Some(w.current)
    requires w.phase.Stopping? || w.phase.Assembling? ==> w.phase.hashed == Some(w.phase.candidate)
    ensures Recorded(w, steps, outside, recorded) == Some(After(w, steps, outside).current)
    decreases |steps|
  {
    if steps != [] {
      SnapshotsRecord(Next(w, steps[0], outside), steps[1..], outside, RecordedBy(w, steps[0], recorded));
    }
  }

  /**
   * Through any sequence of load failures, assembly failures and rollbacks, whenever the
   * loop waits again the live assembly is the one of the current configuration; if every
   * reload reads one snapshot, the reported version is that configuration's.
   */
  lemma RollbackSafety(text: string, hashed: Option<string>, steps: seq<Step>, outside: Outside)
    requires Possible(InitialWorld(text, hashed, outside), steps, outside)
    requires After(InitialWorld(text, hashed, outside), steps, outside).phase.Waiting?
    ensures var w := After(InitialWorld(text, hashed, outside), steps, outside);
            && w.assembly == Some(w.current)
            && (hashed == Some(text) && Snapshots(InitialWorld(text, hashed, outside), steps, outside) ==>
                  Consistent(w.assembly, w.current, w.control, outside))
  {
    ReportedVersionIff(text, hashed, steps, outside);
    if hashed == Some(text) && Snapshots(InitialWorld(text, hashed, outside), steps, outside) {
      SnapshotsRecord(InitialWorld(text, hashed, outside), steps, outside, hashed);
    }
  }

  lemma OneMoreStep(w: World, s: Step, rest: seq<Step>, outside: Outside)
    requires CanStep(w, s) && Possible(Next(w, s, outside), rest, outside)
    ensures Possible(w, [s] + rest, outside)
    ensures After(w, [s] + rest, outside) == After(Next(w, s, outside), rest, outside)
  {
    assert ([s] + rest)[1..] == rest;
  }

  /** A reload that hashes one text and then loads another. */
  function TornReload(hashed: string, loaded: string): seq<Step> {
    [BeginReload, Send(Reload), Dequeue, Start(Some(hashed), 0), Load(Some(loaded), 0), StopAssembly, Assemble(true, 0)]
  }

  /** A concrete history after which the wrong version is reported: the file changed between the two reads. */
  lemma TornRead(text: string, hashed: string, loaded: string, outside: Outside)
    requires outside.valid(loaded) && outside.hash(hashed) != outside.hash(loaded)
    ensures var start := InitialWorld(text, Some(text), outside);
            && Possible(start, TornReload(hashed, loaded), outside)
            && var w := After(start, TornReload(hashed, loaded), outside);
               && w.phase.Waiting? && w.assembly == Some(loaded) && w.current == loaded
               && w.control.runningVersion == Some(outside.hash(hashed))
               && !Consistent(w.assembly, w.current, w.control, outside)
  {
    var steps := TornReload(hashed, loaded);
    var w0 := InitialWorld(text, Some(text), outside);
    var w1 := Next(w0, steps[0], outside);
    var w2 := Next(w1, steps[1], outside);
    var w3 := Next(w2, steps[2], outside);
    var w4 := Next(w3, steps[3], outside);
    var w5 := Next(w4, steps[4], outside);
    var w6 := Next(w5, steps[5], outside);
    OneMoreStep(w6, steps[6], [], outside);
    OneMoreStep(w5, steps[5], steps[6..], outside);
    OneMoreStep(w4, steps[4], steps[5..], outside);
    OneMoreStep(w3, steps[3], steps[4..], outside);
    OneMoreStep(w2, steps[2], steps[3..], outside);
    OneMoreStep(w1, steps[1], steps[2..], outside);
    OneMoreStep(w0, steps[0], steps[1..], outside);
  }
}

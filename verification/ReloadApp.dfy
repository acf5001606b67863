/**
 * The application loop: it serves commands, and replaces a running assembly or restores the
 * previous one. A handled reload is one path of the reload protocol.
 */
module ReloadApp {
  import opened Wrappers
  import opened ReloadControl
  import opened ReloadProtocol

  /** What one reload command meets: two reads of the file and the outcome of each assembly. */
  datatype Attempt = Attempt(hashed: Option<string>, loaded: Option<string>, assembleOk: bool, rollbackOk: bool,
                             now: nat)

  datatype Input = Signal | SignalLost | Received(command: Command, attempt: Attempt) | ChannelClosed

  datatype ExitReason = BySignal | ByRequest | ByRestart

  datatype LoopError = SignalTaskLost | ChannelLost | RollbackFailed

  /** Both reads of the file saw the same version of it. */
  predicate Steady(attempt: Attempt, outside: Outside) {
    attempt.loaded.Some? && outside.valid(attempt.loaded.value) && attempt.assembleOk ==>
      attempt.hashed.Some? && outside.hash(attempt.hashed.value) == outside.hash(attempt.loaded.value)
  }

  predicate AllSteady(inputs: seq<Input>, outside: Outside) {
    forall input | input in inputs && IsCommand(input, Reload) :: Steady(input.attempt, outside)
  }

  predicate IsCommand(input: Input, command: Command) {
    input.Received? && input.command == command
  }

  // ---- A reload as a path of the protocol ----------------------------------------------------

  predicate Loads(attempt: Attempt, outside: Outside) {
    attempt.loaded.Some? && outside.valid(attempt.loaded.value)
  }

  /** The protocol steps of one handled reload command. */
  function ReloadSteps(attempt: Attempt, outside: Outside): seq<Step> {
    [Start(attempt.hashed, attempt.now), Load(attempt.loaded, attempt.now)] +
    if !Loads(attempt, outside) then []
    else [StopAssembly, Step.Assemble(attempt.assembleOk, attempt.now)] +
         if attempt.assembleOk then [] else [Rollback(attempt.rollbackOk, attempt.now)]
  }

  /** Where these steps lead. */
  function Reloaded(w: World, attempt: Attempt, outside: Outside): World {
    var started := StartedReload(w.control, VersionOf(attempt.hashed, outside), attempt.now);
    var failed := w.(control := FailedReload(started, attempt.now), phase := Waiting);
    if !Loads(attempt, outside) then failed
    else if attempt.assembleOk then
      w.(control := SucceededReload(started, attempt.now), phase := Waiting,
         assembly := attempt.loaded, current := attempt.loaded.value)
    else if attempt.rollbackOk then failed.(assembly := Some(w.current))
    else failed.(assembly := None, phase := Exited)
  }

  lemma ReloadRun(w: World, attempt: Attempt, outside: Outside)
    requires w.phase.Dequeued?
    ensures Possible(w, ReloadSteps(attempt, outside), outside)
    ensures After(w, ReloadSteps(attempt, outside), outside) == Reloaded(w, attempt, outside)
  {
    hide StartedReload, FailedReload, SucceededReload;
    var steps := ReloadSteps(attempt, outside);
    var w1 := Next(w, steps[0], outside);
    var w2 := Next(w1, steps[1], outside);
    if Loads(attempt, outside) {
      var w3 := Next(w2, steps[2], outside);
      var w4 := Next(w3, steps[3], outside);
      if !attempt.assembleOk {
        OneMoreStep(w4, steps[4], [], outside);
        assert steps[4..] == [steps[4]] + [];
      }
      OneMoreStep(w3, steps[3], steps[4..], outside);
      assert steps[3..] == [steps[3]] + steps[4..];
      OneMoreStep(w2, steps[2], steps[3..], outside);
      assert steps[2..] == [steps[2]] + steps[3..];
    }
    OneMoreStep(w1, steps[1], steps[2..], outside);
    assert steps[1..] == [steps[1]] + steps[2..];
    OneMoreStep(w, steps[0], steps[1..], outside);
    assert steps == [steps[0]] + steps[1..];
  }

  class App {
    const outside: Outside
    const controller: AppController
    // The configuration text the running assembly was built from, if one is running.
    var assembly: Option<string>
    var current: string

    /** The first assembly has succeeded; `hashed` is what a later read of the file sees, if it can be read. */
    constructor (outside: Outside, controller: AppController, initial: string, hashed: Option<string>)
      modifies controller
      ensures this.outside == outside && this.controller == controller && current == initial
              && assembly == Some(initial)
      ensures controller.State() == old(controller.State()).(runningVersion := VersionOf(hashed, outside))
      ensures Consistent(assembly, current, controller.State(), outside) <==>
              hashed.Some? && outside.hash(hashed.value) == outside.hash(initial)
    {
      this.outside, this.controller, this.current, this.assembly := outside, controller, initial, Some(initial);
      new;
      controller.SetRunningConfigVersion(VersionOf(hashed, outside));
    }

    /** This loop as a world of the protocol, with no requester about to send. */
    ghost function View(phase: Phase): World
      reads this, controller
    {
      World(controller.State(), multiset{}, controller.queue, phase, assembly, current)
    }

    method Assemble(config: string, succeeds: bool) returns (built: Option<string>)
      requires assembly.None?
      ensures built == if succeeds then Some(config) else None
    {
      built := if succeeds then Some(config) else None;
    }

    /**
     * One reload: afterwards either the loaded configuration runs, or the previous one does,
     * or the loop must exit. Steady reads never make the reported version wrong, and a steady
     * successful reload makes it right even if it was wrong before.
     */
    method HandleReloadCommand(attempt: Attempt) returns (r: Result<(), LoopError>)
      requires assembly == Some(current)
      modifies this, controller
      ensures var steps := ReloadSteps(attempt, outside);
              && Possible(old(View(Dequeued)), steps, outside)
              && After(old(View(Dequeued)), steps, outside) == View(if r.Success? then Waiting else Exited)
      ensures !Busy(controller.State())
      ensures var loads := Loads(attempt, outside);
              && current == (if loads && attempt.assembleOk then attempt.loaded.value else old(current))
              && (r.Failure? <==> loads && !attempt.assembleOk && !attempt.rollbackOk)
              && (r.Failure? ==> r.error == RollbackFailed && assembly == None)
              && (r.Success? ==> assembly == Some(current))
              && (controller.failed <==> !(loads && attempt.assembleOk))
              && controller.runningVersion == (if loads && attempt.assembleOk && attempt.hashed.Some?
                                               then VersionOf(attempt.hashed, outside)
                                               else old(controller.runningVersion))
      ensures controller.targetVersion == VersionOf(attempt.hashed, outside)
      ensures controller.lastStarted == controller.lastCompleted == Some(attempt.now)
      ensures controller.lastSuccess == if controller.failed then old(controller.lastSuccess) else Some(attempt.now)
      ensures controller.shutdownRequested == old(controller.shutdownRequested)
      ensures r.Success? && Steady(attempt, outside)
              && (!controller.failed || old(Consistent(assembly, current, controller.State(), outside)))
              ==> Consistent(assembly, current, controller.State(), outside)
    {
      ReloadRun(View(Dequeued), attempt, outside);
      hide Possible, After, ReloadSteps;
      controller.MarkReloadStarted(VersionOf(attempt.hashed, outside), attempt.now);
      if attempt.loaded.None? || !outside.valid(attempt.loaded.value) {
        controller.MarkReloadFailed(attempt.now);
        return Success(());
      }
      var candidate, previous := attempt.loaded.value, current;
      assembly := None;
      var built := Assemble(candidate, attempt.assembleOk);
      if built.Some? {
        assembly, current := built, candidate;
        controller.MarkReloadSucceeded(attempt.now);
        return Success(());
      }
      var restored := Assemble(previous, attempt.rollbackOk);
      controller.MarkReloadFailed(attempt.now);
      if restored.Some? {
        assembly := restored;
        return Success(());
      }
      r := Failure(RollbackFailed);
    }

    /** Serve commands until a reason to end; if every reload reads steadily, a consistent state stays consistent. */
    method WaitForTermination(inputs: seq<Input>) returns (r: Option<Result<ExitReason, LoopError>>, handled: nat)
      requires assembly == Some(current)
      modifies this, controller
      ensures handled <= |inputs| && (r.None? ==> handled == |inputs|)
      ensures r == Some(Failure(RollbackFailed)) || assembly == Some(current)
      ensures old(Consistent(assembly, current, controller.State(), outside)) && AllSteady(inputs, outside) ==>
                r == Some(Failure(RollbackFailed)) || Consistent(assembly, current, controller.State(), outside)
      ensures r.Some? ==> handled > 0 && match r.value
                          case Success(BySignal) => inputs[handled - 1] == Signal
                          case Success(ByRequest) => IsCommand(inputs[handled - 1], Shutdown)
                          case Success(ByRestart) => IsCommand(inputs[handled - 1], Restart)
                          case Failure(SignalTaskLost) => inputs[handled - 1] == SignalLost
                          case Failure(ChannelLost) => inputs[handled - 1] == ChannelClosed
                          case Failure(RollbackFailed) => IsCommand(inputs[handled - 1], Reload) && assembly == None
      ensures forall i | 0 <= i < (if r.Some? then handled - 1 else handled) :: IsCommand(inputs[i], Reload)
    {
      handled := 0;
      while handled < |inputs|
        invariant 0 <= handled <= |inputs|
        invariant assembly == Some(current)
        invariant old(Consistent(assembly, current, controller.State(), outside)) && AllSteady(inputs, outside) ==>
                    Consistent(assembly, current, controller.State(), outside)
        invariant forall i | 0 <= i < handled :: IsCommand(inputs[i], Reload)
      {
        var input := inputs[handled];
        handled := handled + 1;
        match input {
          case Signal => return Some(Success(BySignal)), handled;
          case SignalLost => return Some(Failure(SignalTaskLost)), handled;
          case ChannelClosed => return Some(Failure(ChannelLost)), handled;
          case Received(command, attempt) =>
            match command {
              case Shutdown => return Some(Success(ByRequest)), handled;
              case Restart => return Some(Success(ByRestart)), handled;
              case Reload =>
                assert input in inputs;
                var outcome := HandleReloadCommand(attempt);
                if outcome.Failure? {
                  return Some(Failure(outcome.error)), handled;
                }
            }
        }
      }
      r := None;
    }
  }
}

/** The controller: reload bookkeeping under a lock, and a command channel. */
module ReloadControl {
  import opened Wrappers

  datatype Command = Shutdown | Reload | Restart

  datatype ControlState = ControlState(shutdownRequested: bool, reloadPending: bool, reloadInProgress: bool,
                                       lastStarted: Option<nat>, lastCompleted: Option<nat>, lastSuccess: Option<nat>,
                                       failed: bool, runningVersion: Option<string>, targetVersion: Option<string>)

  datatype ReloadStatus = InProgressStatus | PendingStatus | FailedStatus | OkStatus | IdleStatus

  function Fresh(): ControlState {
    ControlState(false, false, false, None, None, None, false, None, None)
  }

  predicate Busy(c: ControlState) {
    c.reloadPending || c.reloadInProgress
  }

  function Requested(c: ControlState): ControlState {
    c.(reloadPending := true, failed := false)
  }

  function StartedReload(c: ControlState, target: Option<string>, now: nat): ControlState {
    c.(reloadPending := false, reloadInProgress := true, lastStarted := Some(now), failed := false,
       targetVersion := target)
  }

  function SucceededReload(c: ControlState, now: nat): ControlState {
    c.(reloadPending := false, reloadInProgress := false, lastCompleted := Some(now), lastSuccess := Some(now),
       failed := false, runningVersion := if c.targetVersion.Some? then c.targetVersion else c.runningVersion)
  }

  function FailedReload(c: ControlState, now: nat): ControlState {
    c.(reloadPending := false, reloadInProgress := false, lastCompleted := Some(now), failed := true)
  }

  function Status(c: ControlState): ReloadStatus {
    if c.reloadInProgress then InProgressStatus
    else if c.reloadPending then PendingStatus
    else if c.failed then FailedStatus
    else if c.lastSuccess.Some? then OkStatus
    else IdleStatus
  }

  /** The controller: its state is only touched under a lock, its command channel outside of it. */
  class AppController {
    var shutdownRequested: bool
    var reloadPending: bool
    var reloadInProgress: bool
    var lastStarted: Option<nat>
    var lastCompleted: Option<nat>
    var lastSuccess: Option<nat>
    var failed: bool
    var runningVersion: Option<string>
    var targetVersion: Option<string>
    var queue: seq<Command>
    var channelOpen: bool

    ghost function State(): ControlState
      reads this
    {
      ControlState(shutdownRequested, reloadPending, reloadInProgress, lastStarted, lastCompleted, lastSuccess, failed,
                   runningVersion, targetVersion)
    }

    constructor ()
      ensures State() == Fresh() && queue == [] && channelOpen
    {
      shutdownRequested, reloadPending, reloadInProgress := false, false, false;
      lastStarted, lastCompleted, lastSuccess := None, None, None;
      failed, runningVersion, targetVersion := false, None, None;
      queue, channelOpen := [], true;
    }

    method Send(command: Command) returns (sent: bool)
      modifies this`queue
      ensures sent == channelOpen
      ensures queue == if channelOpen then old(queue) + [command] else old(queue)
    {
      sent := channelOpen;
      if channelOpen {
        queue := queue + [command];
      }
    }

    /** The part of a reload request that runs under the lock. */
    method BeginReload() returns (accepted: bool)
      modifies this`reloadPending, this`failed
      ensures accepted <==> !old(reloadPending) && !old(reloadInProgress)
      ensures accepted ==> reloadPending && !failed
      ensures State() == if accepted then Requested(old(State())) else old(State())
    {
      if reloadPending || reloadInProgress {
        return false;
      }
      reloadPending := true;
      failed := false;
      accepted := true;
    }

    /** `None` is a refusal because a reload is outstanding; otherwise whether the command was sent. */
    method RequestReload() returns (sent: Option<bool>)
      modifies this`reloadPending, this`failed, this`queue
      ensures sent.None? <==> old(reloadPending) || old(reloadInProgress)
      ensures sent.Some? ==> reloadPending && !failed
      ensures sent.None? ==> State() == old(State()) && queue == old(queue)
      ensures sent.Some? ==> State() == Requested(old(State())) && sent.value == channelOpen
                             && queue == if channelOpen then old(queue) + [Reload] else old(queue)
    {
      var accepted := BeginReload();
      if !accepted {
        return None;
      }
      var ok := Send(Reload);
      sent := Some(ok);
    }

    method RequestStop(command: Command) returns (sent: bool)
      requires command != Reload
      modifies this`shutdownRequested, this`queue
      ensures State() == old(State()).(shutdownRequested := true) && sent == channelOpen
      ensures queue == if channelOpen then old(queue) + [command] else old(queue)
    {
      shutdownRequested := true;
      sent := Send(command);
    }

    method SetRunningConfigVersion(version: Option<string>)
      modifies this`runningVersion
      ensures State() == old(State()).(runningVersion := version)
    {
      runningVersion := version;
    }

    method MarkReloadStarted(target: Option<string>, now: nat)
      modifies this
      ensures State() == StartedReload(old(State()), target, now)
      ensures queue == old(queue) && channelOpen == old(channelOpen)
    {
      reloadPending := false;
      reloadInProgress := true;
      lastStarted := Some(now);
      failed := false;
      targetVersion := target;
    }

    method MarkReloadSucceeded(now: nat)
      modifies this
      ensures State() == SucceededReload(old(State()), now)
      ensures queue == old(queue) && channelOpen == old(channelOpen)
    {
      reloadPending := false;
      reloadInProgress := false;
      lastCompleted := Some(now);
      lastSuccess := Some(now);
      failed := false;
      if targetVersion.Some? {
        runningVersion := targetVersion;
      }
    }

    method MarkReloadFailed(now: nat)
      modifies this
      ensures State() == FailedReload(old(State()), now)
      ensures queue == old(queue) && channelOpen == old(channelOpen)
    {
      reloadPending := false;
      reloadInProgress := false;
      lastCompleted := Some(now);
      failed := true;
    }

    method ReloadSnapshot() returns (status: ReloadStatus)
      ensures status == Status(State())
    {
      status := if reloadInProgress then InProgressStatus
                else if reloadPending then PendingStatus
                else if failed then FailedStatus
                else if lastSuccess.Some? then OkStatus
                else IdleStatus;
    }
  }

  // ---- What both the loop and the protocol speak of ------------------------------------------

  /** How configuration text is judged and hashed; both are outside of this model. */
  datatype Outside = Outside(valid: string -> bool, hash: string -> string)

  function VersionOf(text: Option<string>, outside: Outside): Option<string> {
    if text.Some? then Some(outside.hash(text.value)) else None
  }

  /** The running assembly was built from the current configuration, and the controller reports its version. */
  ghost predicate Consistent(assembly: Option<string>, current: string, control: ControlState, outside: Outside) {
    assembly == Some(current) && control.runningVersion == Some(outside.hash(current))
  }
}

/**
 * Stops do take effect: every promised acknowledgement arrives once the runs it waits for
 * have ended, and a detached stop, too, is final.
 */
module TaskStops {
  import opened Wrappers
  import opened TaskModel
  import opened TaskRuns
  import opened TaskLifecycle

  /** The tasks a stop takes out of the table. */
  function StoppedTasks(s: State, e: Event): set<nat> {
    match e
    case Remove(id, _) => {id}
    case StopAll(_) => s.tasks.Keys
    case _ => {}
  }

  /** Every run the stop waits for is of a task that is gone for good; once acknowledged it stays so. */
  ghost predicate Waits(s: State, ack: nat, waited: set<Run>) {
    && (ack in s.acked || (ack in s.stops && s.stops[ack] == waited))
    && forall run | run in waited :: run.task !in s.tasks && run.task in s.registered
  }

  lemma WaitsStep(s: State, e: Event, ack: nat, waited: set<Run>)
    requires Enabled(s, e) && Waits(s, ack, waited)
    ensures Waits(Apply(s, e), ack, waited)
    ensures forall run | run in waited && run !in s.live :: run !in Apply(s, e).live
  {
    forall run | run in waited
      ensures run.task !in Apply(s, e).tasks && run.task in Apply(s, e).registered
      ensures run !in s.live ==> run !in Apply(s, e).live
    {
      assert run == Run(run.task, run.runId);
      if e.Wakeup? {
        WakeupAt(s, e.reading, run.task);
      }
    }
  }

  lemma {:induction false} StaysWaiting(s: State, es: seq<Event>, ack: nat, waited: set<Run>)
    requires Legal(s, es) && Waits(s, ack, waited)
    ensures Waits(Exec(s, es), ack, waited)
    ensures forall run | run in waited && run !in s.live :: run !in Exec(s, es).live
    decreases |es|
  {
    if es != [] {
      WaitsStep(s, es[0], ack, waited);
      StaysWaiting(Apply(s, es[0]), es[1..], ack, waited);
    }
  }

  /**
   * Once no run that was live when a stop was handled, and belonged to a task it stopped, is
   * live any more, the acknowledgement is due: it has been given, or is given next.
   */
  lemma StopAnswered(es: seq<Event>, e: Event, ack: nat, later: seq<Event>)
    requires Legal(Initial(), es) && Enabled(Exec(Initial(), es), e) && PromisedAck(e) == Some(ack)
    requires Legal(Apply(Exec(Initial(), es), e), later)
    ensures var s := Exec(Initial(), es);
            var end := Exec(Apply(s, e), later);
            (forall run | run in s.live && run.task in StoppedTasks(s, e) :: run !in end.live) ==>
              ack in Apply(end, Acknowledge(ack)).acked
  {
    var s := Exec(Initial(), es);
    var s1 := Apply(s, e);
    var end := Exec(s1, later);
    if forall run | run in s.live && run.task in StoppedTasks(s, e) :: run !in end.live {
      var waited := if ack in s1.stops then s1.stops[ack] else {};
      forall run | run in waited
        ensures run.task in StoppedTasks(s, e) && run.task in s.tasks && run.task in s.registered
      {
        NeverOverlaps(Initial(), es, run.task);
      }
      StaysWaiting(s1, later, ack, waited);
      assert forall run | run in waited :: run !in end.live;
    }
  }

  /** In particular a removed task's one run, if any, is all its stop waits for. */
  lemma RemoveAnswered(es: seq<Event>, id: nat, ack: nat, a: nat)
    requires Legal(Initial(), es) && Enabled(Exec(Initial(), es), Remove(id, ack))
    requires Run(id, a) in Exec(Initial(), es).live
    ensures var s1 := Apply(Exec(Initial(), es), Remove(id, ack));
            ack in Apply(Apply(s1, Finish(Run(id, a))), Acknowledge(ack)).acked
  {
    var s := Exec(Initial(), es);
    var s1 := Apply(s, Remove(id, ack));
    NeverOverlaps(Initial(), es, id);
    var later := [Finish(Run(id, a))];
    assert later[1..] == [] && Legal(Apply(s1, later[0]), []);
    assert Exec(s1, later) == Apply(s1, later[0]);
    forall run | run in s.live && run.task == id
      ensures run == Run(id, a)
    {
      assert run == Run(id, run.runId);
    }
    StopAnswered(es, Remove(id, ack), ack, later);
  }

  // ---- Detached stops ------------------------------------------------------------------------

  ghost predicate Gone(s: State, id: nat, log: seq<Note>, live: set<Run>) {
    && id !in s.tasks && id in s.registered && id in s.log && s.log[id] == log
    && forall a | Run(id, a) in s.live :: Run(id, a) in live
  }

  lemma GoneStep(s: State, e: Event, id: nat, log: seq<Note>, live: set<Run>)
    requires Enabled(s, e) && Gone(s, id, log, live)
    ensures Gone(Apply(s, e), id, log, live)
  {
    if e.Wakeup? {
      WakeupAt(s, e.reading, id);
    }
  }

  lemma {:induction false} StaysGone(s: State, es: seq<Event>, id: nat, log: seq<Note>, live: set<Run>)
    requires Legal(s, es) && Gone(s, id, log, live)
    ensures Gone(Exec(s, es), id, log, live)
    decreases |es|
  {
    if es != [] {
      GoneStep(s, es[0], id, log, live);
      StaysGone(Apply(s, es[0]), es[1..], id, log, live);
    }
  }

  /** A detached stop, too, is final: no further note and no further run, though the live one may go on. */
  lemma DetachedIsFinal(es: seq<Event>, id: nat, later: seq<Event>, a: nat)
    requires Legal(Initial(), es) && id in Exec(Initial(), es).tasks
    requires Legal(Apply(Exec(Initial(), es), RemoveDetached(id)), later)
    ensures var s := Exec(Initial(), es);
            var end := Exec(Apply(s, RemoveDetached(id)), later);
            && id !in end.tasks && id in s.log && id in end.log && end.log[id] == s.log[id]
            && (Run(id, a) in end.live ==> Run(id, a) in s.live)
  {
    var s := Exec(Initial(), es);
    NeverOverlaps(Initial(), es, id);
    StaysGone(Apply(s, RemoveDetached(id)), later, id, s.log[id], s.live);
  }
}

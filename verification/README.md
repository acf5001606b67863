# OxiDNS: scheduler, dependency order, response classification, configuration expansion, reload

This project models five parts of the OxiDNS server in Dafny and proves what each of them is for.
Code that works step by step is written as methods with loops, proved against a declarative
statement; the main results are about all inputs, all reachable states or all histories.

- **Task scheduler** (`src/infra/task.rs`; files `Task*.dfy`). `TaskModel` is the actor without its
  heap: a table, the live runs, the pending stop requests, and one total `Apply` per event in which
  every task is treated on its own. `TaskActor.Scheduler` is the actor as written, with the task
  table, the lazily invalidated heap, one method per event and the loop that serves them; each
  method is proved to do exactly what `Apply` says, and the loop what `Exec` says of a history.
  `TaskRuns`, `TaskLifecycle`, `TaskStops` and `TaskDeadlines` then prove whole-run theorems: no
  overlap, consecutive run ids, calendar slots under arbitrary wall-clock jumps, triggers that leave
  the schedule alone, what an acknowledged stop means and that it comes, and the exact deadline of
  every task after every event, stated on the clock readings alone. Integer widths, saturation and the checked additions
  are explicit in `TaskSchedule`.
- **Plugin dependencies** (`src/plugin/dependency.rs`; files `Dependency*.dfy`). Reference checks,
  Kahn's algorithm and the three-colour search. The initialization order is described without the
  algorithm (each tag is ranked by the position of its latest dependency), shown unique, and shown
  to be what the algorithm returns, whatever order the hash containers iterate in. When the
  algorithm gets stuck, the search always finds a concrete simple cycle. `DependencyMeaning` says
  what each result means for the configured references themselves.
- **Response classification** (`src/core/response.rs`; files `Response*.dfy`). The scan with its hop
  counter and without a visited set equals a reading of the *sets* of records. `ResponseChains`
  shows when the hop limit is exact, that cycles are always rejected, and that the bound is tight;
  `ResponseVerdicts` states each verdict on the records alone.
- **Placeholder expansion** (`src/config/env_expand.rs`; files `Placeholder*.dfy`). The character
  scanner equals "cut into tokens, then render each token"; cutting is lossless, unambiguous and
  blind to the environment. `PlaceholderRoundTrip` settles which texts can be written literally. The
  tree walk with its shared path buffer is proved against a recursive function, which is then shown
  to keep the shape of the tree; `PlaceholderMeaning` says what every string in it becomes, and which
  error is reported where.
- **Reload protocol** (`src/infra/control.rs`, `src/app.rs`; files `Reload*.dfy`). The controller
  and the loop as classes, and an interleaved step system of requesters and loop; a reload handled
  by the loop is proved to be one path of that system.

Assumptions about the surroundings: the monotonic clock never goes back, one wake-up reads each
clock once, task ids and stop requests are fresh, and the calendar library is an arbitrary partial
function from a time to a slot. Between wake-ups the wall clock may jump anywhere.

Three promises turned out to be narrower than they read, and each is stated with its exact
condition:

- `Remove` is acknowledged at once for an id that is no longer in the table, even while an earlier
  stop still waits for its run (`AckMeansIdleIff`; `AckWhileLive` is a concrete history). A caller
  is safe when the id is in the table or the stop that took it out has been acknowledged
  (`CheckedStopMeansIdle`).
- The `$$` escape gives the text back in every environment exactly when every maximal run of `$`
  directly before `{` has odd length (`EscapeWorksIff`; `EvenRunExample` is a concrete text), and no
  other spelling without placeholders can do better (`LiteralSpellingIff`).
- A reload hashes the file and then reads it again, so the reported version can be that of another
  text (`TornRead` is a concrete history). `ReportedVersionIff` says over every interleaving exactly
  when it is right; with both reads of one snapshot it always is (`RollbackSafety`).

`dafny verify dfyconfig.toml` checks the whole project.

## Model

| member | source | states |
|---|---|---|
| ResponseClassifier.ClassifyResponse | src/core/response.rs:62-141 | The verdict is a function of the sets of answer and authority records, the code and the questions: a requested record within 16 unambiguous aliases, a conflict, a dangling alias or a denial |
| ResponseClassifier.FollowAliases | src/core/response.rs:116-140 | The bounded walk finds what the order-free chain relation says, including the early stop at a self-alias |
| ResponseClassifier.InspectAnswersAtName | src/core/response.rs:155-189 | One pass yields the owner's answer: a requested record wins over aliases, a conflict means two different targets, wherever they stand |
| ResponseClassifier.HasAnyAnswerAtName | src/core/response.rs:192-197 | The scan stops at a record of this owner and class if and only if the answer set holds one |
| ResponseClassifier.HasRequestedAnswer | src/core/response.rs:101-105 | The scan finds a record of the queried type at the queried name if and only if the answer set holds one |
| ResponseClassifier.HasNegativeSoaForClass | src/core/response.rs:200-205 | The scan finds an SOA of the class, at any owner, if and only if the authority set holds one |
| ResponseClassifier.DenyOr | src/core/response.rs:134-140 | The shared tail: no data when there are no answers or an SOA denies, else a dangling alias if one was followed, else other |
| ResponseClassifier.StopUnique | src/core/response.rs:119-132 | A chain stops at most once, at one step and with one answer |
| ResponseClassifier.NoEarlierStop | src/core/response.rs:119-132 | A chain that reached step n stopped at no earlier step |
| ResponseClassifier.SelfAliasForever | src/core/response.rs:126-128 | A chain that reaches a self-alias never stops, so returning at once is right |
| ResponseChains.HopLimitExact | src/core/response.rs:116-132 | With at most 16 alias owners the verdict is that of an unbounded walk, and the hop budget is spent if and only if the aliases cycle |
| ResponseChains.CyclesAreRejected | src/core/response.rs:116-132 | Every chain that enters a cycle is `Other`, although no visited set is kept |
| ResponseChains.StopsOrCycles | src/core/response.rs:116-132 | Every chain either stops with one answer or runs into a cycle, never both |
| ResponseChains.StopBound | src/core/response.rs:116-132 | A chain that stops does so within as many steps as there are alias owners |
| ResponseChains.LongWalkCycles | src/core/response.rs:116-132 | A walk longer than the number of alias owners has met a cycle |
| ResponseChains.RecordOrderIrrelevant | src/core/response.rs:62-141 | Permuting or duplicating records changes no verdict, with or without a question |
| ResponseChains.LadderVerdict | src/core/response.rs:13-18 | The limit is tight: a clean chain is a complete answer with up to 16 aliases and `Other` with one more |
| ResponseVerdicts.MismatchIsOther | src/core/response.rs:63-69 | A response to another question is `Other`, whatever it holds |
| ResponseVerdicts.NameDeniedIff | src/core/response.rs:71-77 | The name is denied if and only if the code is NXDOMAIN; any other failure code is `Other` |
| ResponseVerdicts.EmptyIsNoData | src/core/response.rs:79-140 | A positive code without answers is no data, for every question type and for no question |
| ResponseVerdicts.UnaskedIsPositive | src/core/response.rs:79-85 | Without a question any answer is usable |
| ResponseVerdicts.DirectVerdict | src/core/response.rs:87-114 | ANY and CNAME: positive if such a record stands at the name, else no data if there are no answers or an SOA of the class, else `Other` |
| ResponseVerdicts.ChainVerdict | src/core/response.rs:116-140 | Other types: positive iff a chain of single aliases reaches a requested record; no data iff one dangles and nothing answers or an SOA denies; incomplete alias iff one with an alias dangles and nothing denies |
| DependencyAnalysis.BuildPluginMap | src/plugin/dependency.rs:212-222 | Fails on the first repeated tag, otherwise maps every tag to its configuration |
| DependencyAnalysis.ScanReferences | src/plugin/dependency.rs:225-291 | Reports the errors of all references in order and collects the distinct dependencies |
| DependencyAnalysis.ReferenceErrorsMeaning | src/plugin/dependency.rs:230-291 | There is an error if and only if some non-blank reference is to itself, to a missing plugin, or of the wrong kind or type |
| DependencyMeaning.ReportedReferences | src/plugin/dependency.rs:230-324 | An error is in the reported list if and only if some configured reference deserves exactly it: itself, a tag that no configuration has, another kind or type than expected |
| DependencyMeaning.ReportedIff | src/plugin/dependency.rs:212-324 | Repeated tags are reported iff there are any; bad references iff no tag repeats and some reference deserves an error |
| DependencyMeaning.EdgeRefers | src/plugin/dependency.rs:283-316 | The graph has an edge exactly where some configuration's trimmed reference names another configured tag |
| DependencyMeaning.OrderRespectsReferences | src/plugin/dependency.rs:326-392 | A successful order holds each tag once, after every plugin it refers to |
| DependencyMeaning.CycleIsReferences | src/plugin/dependency.rs:364-368 | Each tag of a reported cycle refers to the next, and the last is the first |
| DependencyMeaning.RootsFirst | src/plugin/dependency.rs:326-337 | Plugins that refer to none come first, in ascending order of their tags |
| Text.BelowMeaning | src/plugin/dependency.rs:334-334 | Ascending means by the first differing character, a prefix first |
| DependencyAnalysis.PaddingIgnored | src/plugin/dependency.rs:231-283 | Blanks around a target change neither its errors nor its edge |
| Text.TrimMeaning | src/plugin/dependency.rs:231-240 | A trimmed text is the text between blank margins, with no blank at either end |
| Text.TrimUnique | src/plugin/dependency.rs:231-240 | There is only one such text |
| DependencyAnalysis.AddReverseEdges | src/plugin/dependency.rs:311-316 | Whatever order the hash set yields, each dependency's list gains this tag once |
| DependencyAnalysis.AddConfig | src/plugin/dependency.rs:293-316 | One more configuration extends all three tables to what its prefix of the configuration means |
| DependencyAnalysis.BuildGraph | src/plugin/dependency.rs:224-317 | In-degrees are numbers of distinct dependencies, forward lists are the dependency sets, reverse lists are the dependents in configuration order |
| DependencyAnalysis.Kahn | src/plugin/dependency.rs:326-355 | Ends with every in-degree equal to the number of unsorted distinct dependencies and the sorted tags in the order of their latest dependencies |
| DependencyAnalysis.NotifyDependents | src/plugin/dependency.rs:344-354 | One round keeps that invariant while dependents are notified one by one |
| DependencyAnalysis.NotifyOne | src/plugin/dependency.rs:346-352 | A notified dependent still has a positive degree, so the decrement never underflows; releasing it keeps the order |
| DependencyAnalysis.LeftOverReachesCycle | src/plugin/dependency.rs:357-362 | A tag is left over if and only if a cycle is reachable from it, and that cycle lies among the tags left over |
| DependencyAnalysis.Stuck | src/plugin/dependency.rs:357-362 | The counts agree exactly when nothing reaches a cycle, and then the order is complete |
| DependencyAnalysis.ReportCycle | src/plugin/dependency.rs:357-376 | A concrete cycle is always named; the fallback report is unreachable |
| DependencyAnalysis.SortGraph | src/plugin/dependency.rs:326-377 | Succeeds if and only if the graph has no cycle, with the one initialization order, else with a simple cycle |
| DependencyAnalysis.AnalyzeDependencies | src/plugin/dependency.rs:198-395 | Repeated tags are reported first, then all bad references, then the order or a cycle |
| DependencyAnalysis.ResolveDependencies | src/plugin/dependency.rs:181-196 | The configurations themselves in that order, none lost or invented |
| DependencyAnalysis.TakeInOrder | src/plugin/dependency.rs:187-195 | Moving configurations out of the map by tag follows the order and uses each once |
| DependencyOrder.InitOrderUnique | src/plugin/dependency.rs:310-355 | Only one order qualifies, so no hash iteration order can change it |
| DependencyOrder.Layered | src/plugin/dependency.rs:341-355 | The order is non-decreasing in longest dependency depth |
| DependencyGraph.Dfs | src/plugin/dependency.rs:404-441 | Returns a simple cycle among the remaining tags, or finishes the node with the stack restored and the finishing order ranked |
| DependencyGraph.FindCyclePath | src/plugin/dependency.rs:397-454 | Finds a simple cycle within the remaining tags if and only if one is reachable from them |
| DependencyGraph.RankedReachesNoCycle | src/plugin/dependency.rs:438-440 | Tags finished by the search, or sorted, reach no cycle |
| DependencyGraph.NoDeadEndReachesCycle | src/plugin/dependency.rs:357-369 | Where every remaining tag has a remaining dependency, every one of them reaches a cycle |
| TaskSchedule.FixedAdvance | src/infra/task.rs:251-274 | A fixed deadline moves by the whole number of intervals that lands in the one interval after now; it fails exactly when that instant is out of range |
| TaskSchedule.LatticeAdvance | src/infra/task.rs:251-274 | Advancing gives the lattice point within one interval of now, with the reported time clamped to 64 bits, and fails exactly when it is out of range |
| TaskSchedule.CronAdvance | src/infra/task.rs:275-310 | A calendar deadline is for a slot strictly later than the clock it was computed from |
| TaskSchedule.ReanchoredDue | src/infra/task.rs:326-361 | A re-anchored deadline keeps its slot and is due exactly when the wall clock has reached it |
| TaskHeap.NextDeadline | src/infra/task.rs:1041-1056 | Dropping stale entries yields exactly the minimum over the table, or nothing when nothing is scheduled |
| TaskHeap.RebuildDeadlineHeap | src/infra/task.rs:823-833 | The rebuilt heap holds exactly the current deadlines, one per task |
| TaskHeap.RefreshCronDeadlines | src/infra/task.rs:793-821 | Every calendar deadline is re-anchored to one reading or paused, and the heap agrees again |
| TaskHeap.HeapBounded | src/infra/task.rs:823-872 | The heap never has more entries than the table has tasks |
| TaskHeap.PushAgrees | src/infra/task.rs:870-872 | Giving a task without entry a deadline and pushing it keeps heap and table in agreement |
| TaskActor.TakeRunContext | src/infra/task.rs:961-973 | Hands out the next run id, or nothing and no change when the 64-bit counter cannot advance |
| TaskActor.ConsumeDeadline | src/infra/task.rs:848-903 | One consumed deadline becomes a run, a skip or a pause; heap and table agree again although a pause leaves the entry just pushed behind as a stale one |
| TaskActor.ConsumeDueDeadlines | src/infra/task.rs:844-909 | The loop ends, consumes each due task exactly once and no other, and leaves nothing due |
| TaskActor.NotConsumedTwice | src/infra/task.rs:857-872 | A due task has not been consumed in this pass, so no id is collected twice |
| TaskActor.SpawnCollected | src/infra/task.rs:912-916 | Exactly the collected runs become live and are recorded as handles |
| TaskActor.RunDueTasks | src/infra/task.rs:836-917 | The heap-driven pass does to each task what it would do to that task alone, and hands each run the id, kind and slot of its deadline |
| TaskActor.RefreshThenFire | src/infra/task.rs:684-688 | Re-anchoring the table and then running the pass is one wake-up of each task |
| TaskActor.WakeTasks | src/infra/task.rs:684-688 | Skipping the refresh without active calendar tasks changes nothing |
| TaskActor.TriggerTask | src/infra/task.rs:925-958 | A manual trigger never overlaps a live run, never touches the deadline, hands the run its context and replies with what happened |
| TaskActor.Scheduler.constructor | src/infra/task.rs:653-655 | The actor starts empty |
| TaskActor.Scheduler.Serve | src/infra/task.rs:657-717 | The loop takes any legal history of events to the state that history leads to in the table-only model, with heap and table in agreement |
| TaskActor.Scheduler.Handle | src/infra/task.rs:657-717 | One turn, arming included, is one table-only step |
| TaskActor.Scheduler.Arm | src/infra/task.rs:657-674 | The wake-up time is no later than any deadline and than the calendar recheck, and exists exactly when something is scheduled |
| TaskActor.Scheduler.Register | src/infra/task.rs:734-759 | Registration refines the table-only step |
| TaskActor.Scheduler.Remove | src/infra/task.rs:760-771 | Removal refines the table-only step; the acknowledgement waits for the run in the table, if any |
| TaskActor.Scheduler.RemoveDetached | src/infra/task.rs:772-779 | Detached removal refines the table-only step |
| TaskActor.Scheduler.StopAll | src/infra/task.rs:780-789 | Everything leaves the table; one acknowledgement waits for all runs that were in it |
| TaskActor.Scheduler.Trigger | src/infra/task.rs:919-959 | A trigger refines the table-only step and leaves the heap as it was; the run's context is what its note records |
| TaskActor.Scheduler.Wakeup | src/infra/task.rs:684-694 | A wake-up refines the table-only step and renews the calendar recheck; every run it starts is handed what its note records |
| TaskActor.Scheduler.Finish | src/infra/task.rs:979-1007 | A run's future ends, at any time |
| TaskActor.Scheduler.Acknowledge | src/infra/task.rs:1084-1126 | A stop is acknowledged only once all runs it waits for have ended |
| TaskRuns.NoOverlap | src/infra/task.rs:836-959 | In every reachable state each task has at most one live run |
| TaskRuns.RunIdsConsecutive | src/infra/task.rs:961-973 | Manual and scheduled runs of one task are numbered 1, 2, 3, ... without gap or repeat |
| TaskRuns.CronSlotsOnceInOrder | src/infra/task.rs:793-872 | However the wall clock jumps, a calendar task fires strictly increasing slots and never before its slot |
| TaskRuns.FixedPhaseLock | src/infra/task.rs:853-872 | In every reachable state a fixed deadline is registration time plus a positive multiple of the interval, at most one interval ahead of the last event |
| TaskRuns.LeastPhaseAhead | src/infra/task.rs:251-274 | After every wake-up, however late, it is the least such multiple still ahead |
| TaskRuns.WakeupLeavesNothingDue | src/infra/task.rs:844-872 | A wake-up leaves no deadline at or before its own time |
| TaskRuns.DeadlinesAccounted | src/infra/task.rs:844-917 | Each consumed deadline yields exactly one of a new run, a skip (iff a run is live) or a pause (iff ids are exhausted); other tasks are untouched |
| TaskDeadlines.FixedDeadline | src/infra/task.rs:251-274 | After any wake-up of any history a fixed task has the first lattice point after the reading; it has none iff that point is out of range or it was due with ids spent and no run live |
| TaskDeadlines.FixedAlwaysScheduled | src/infra/task.rs:857-893 | Over every history a fixed task with run ids and a point of its lattice left has a deadline |
| TaskDeadlines.CalendarDeadline | src/infra/task.rs:275-361 | After any wake-up a slot ahead is kept at the instant the wall clock will reach it; a reached slot leaves one note and is replaced by the slot the calendar finds; the pauses are exactly named |
| TaskDeadlines.NoSlotPassedOver | src/infra/task.rs:287-305 | With a calendar that finds first slots, no slot between the wall clock and the new deadline is passed over |
| TaskDeadlines.RegisterDeadline | src/infra/task.rs:527-545 | A registration succeeds exactly for a positive interval or found slot that can be held, and the first deadline is that far away |
| TaskDeadlines.TriggersAccounted | src/infra/task.rs:919-973 | Over every history a trigger is refused iff a run is live, unavailable iff ids are spent, else starts the next run; it leaves one note and the deadline |
| TaskLifecycle.TriggersLeaveDeadlines | src/infra/task.rs:919-959 | Erasing all manual triggers from a history leaves a legal history with the same deadline for each task, unless run ids run out |
| TaskLifecycle.StopIsFinal | src/infra/task.rs:760-771 | After the removal that took a task out, nothing of it is ever started again, and once acknowledged no run of it is live |
| TaskLifecycle.AckMeansIdleIff | src/infra/task.rs:760-771 | An acknowledged removal implies no live run, in all continuations, if and only if the id was in the table or idle |
| TaskLifecycle.TakenOutIdle | src/infra/task.rs:760-789 | Over every history, once the stop that took a task out is acknowledged the task has no live run |
| TaskLifecycle.CheckedStopMeansIdle | src/infra/task.rs:760-789 | If the id is in the table, or the stop that took it out is acknowledged, then the acknowledgement of a further removal means no live run |
| TaskLifecycle.AckWhileLive | src/infra/task.rs:760-779 | A concrete history: a detached removal, then a removal acknowledged while the run is live |
| TaskLifecycle.StopAllEndsRuns | src/infra/task.rs:1097-1126 | Once a stop of everything is acknowledged, no run of any task that was in the table is live |
| TaskStops.StopAnswered | src/infra/task.rs:760-789 | Once the runs a stop found live have ended, its acknowledgement has been given or is given next |
| TaskStops.RemoveAnswered | src/infra/task.rs:1084-1089 | A removed task's one live run is all its acknowledgement waits for |
| TaskStops.DetachedIsFinal | src/infra/task.rs:772-779 | After a detached removal nothing of the task is started or noted again |
| PlaceholderSyntax.TokeniseSpells | src/config/env_expand.rs:222-285 | Cutting into tokens loses nothing and obeys the lexical rules |
| PlaceholderSyntax.TokeniseUnique | src/config/env_expand.rs:222-285 | A text can be read in only one way; token boundaries do not depend on the environment |
| PlaceholderSyntax.OnlyNamesMatter | src/config/env_expand.rs:266-279 | Environments that agree on the names a text mentions expand it alike |
| PlaceholderSyntax.InsertedVerbatim | src/config/env_expand.rs:229-283 | What any token renders to goes as it is between the expansions of its surroundings and is never rescanned, whatever dollars or braces it holds |
| PlaceholderSyntax.VariableVerbatim | src/config/env_expand.rs:266-279 | So environment text, and default text for a missing or empty variable, is inserted verbatim |
| PlaceholderSyntax.RuntimeKeyKept | src/config/env_expand.rs:253-264 | A bare runtime key comes out exactly as written, whatever variables are set |
| PlaceholderSyntax.FirstProblem | src/config/env_expand.rs:222-285 | A failing expansion reports the problem of the first token that does not render |
| PlaceholderSyntax.RenderProblem | src/config/env_expand.rs:272-277 | That problem is the missing brace, the bad name, or the name of an unset variable without default |
| PlaceholderSyntax.DefaultMark | src/config/env_expand.rs:361-364 | The default starts at the first `:-`: there is one at this position and none before it |
| PlaceholderSyntax.ResolveSpelled | src/config/env_expand.rs:250-265 | A name without `:-` followed by `:-` and any text is that variable with that default; a bare name is a runtime key or a variable; `env:` is stripped and never names a runtime key |
| PlaceholderSyntax.SubstituteSucceedsIff | src/config/env_expand.rs:247-278 | Expansion succeeds if and only if every placeholder is terminated, well named, and defined or defaulted |
| PlaceholderSyntax.QuickTestSound | src/config/env_expand.rs:208-216 | A text that fails the quick test expands to itself |
| PlaceholderRoundTrip.EscapeWorksIff | src/config/env_expand.rs:234-246 | Adding one dollar to each run before a brace makes expansion give the text back in every environment if and only if all those runs are odd |
| PlaceholderRoundTrip.EvenRunExample | src/config/env_expand.rs:234-246 | A concrete text with an even run: lost where the variable is unset, back by accident where its value completes the text |
| PlaceholderRoundTrip.LiteralSpellingIff | src/config/env_expand.rs:230-282 | Some spelling without placeholders expands to a text if and only if all its runs before a brace are odd |
| PlaceholderRoundTrip.EscapeOpenings | src/config/env_expand.rs:234-246 | Escaping adds one character for each dollar directly before a brace, and no further such dollar |
| PlaceholderEscape.EscapeRoundTrip | src/config/env_expand.rs:234-246 | The escaped text is literal if and only if all those runs are odd, and then expands to the original |
| PlaceholderEscape.EvenRun | src/config/env_expand.rs:239-246 | An even run of dollars before a brace loses exactly one dollar |
| PlaceholderEscape.OddRunOpens | src/config/env_expand.rs:239-248 | An odd run of dollars before a brace opens a placeholder |
| PlaceholderExpansion.ExpandPlaceholders | src/config/env_expand.rs:222-285 | The scanner computes tokenise-then-substitute, problems included |
| PlaceholderExpansion.ReadPlaceholderBody | src/config/env_expand.rs:337-355 | The body is everything up to the first closing brace |
| PlaceholderExpansion.SplitPlaceholderBody | src/config/env_expand.rs:357-374 | The parts spell the body, the name is not empty and holds no `:-`; it fails exactly when nothing stands before the first `:-` |
| PlaceholderExpansion.ResolveLookupName | src/config/env_expand.rs:376-389 | The explicit prefix is told apart and stripped; it fails exactly when nothing follows it |
| PlaceholderExpansion.RenderBody | src/config/env_expand.rs:250-279 | Splitting, prefix, runtime key and lookup, run one after the other, give what the body means as a token |
| PlaceholderExpansion.RecoverScalar | src/config/env_expand.rs:296-326 | The type changes only for a text that was one placeholder, only into the number, boolean or null a reader finds in the trimmed value, and never with a line break, an inner blank or a `#` |
| PlaceholderExpansion.Walker.constructor | src/config/env_expand.rs:118-119 | The walk starts with an empty path |
| PlaceholderExpansion.Walker.ExpandInValue | src/config/env_expand.rs:122-149 | The walk computes the recursive expansion and restores the path across all recursive calls |
| PlaceholderExpansion.Walker.ExpandString | src/config/env_expand.rs:131-136 | A string scalar is expanded and its type recovered; a problem carries the current path |
| PlaceholderExpansion.Walker.ExpandInSequence | src/config/env_expand.rs:137-144 | Items are expanded in order under their index |
| PlaceholderExpansion.Walker.ExpandInMapping | src/config/env_expand.rs:151-196 | Values first, then keys, and keys only when one needs it |
| PlaceholderExpansion.Walker.ExpandMappingValues | src/config/env_expand.rs:161-166 | The first pass expands values under their original keys |
| PlaceholderExpansion.Walker.RekeyMapping | src/config/env_expand.rs:171-195 | The second pass reinserts all pairs under expanded keys |
| PlaceholderTree.ExpandKeepsShape | src/config/env_expand.rs:122-206 | Plain strings are kept, others become scalars, sequences keep their length, mappings stay mappings whose pairs each come from one original pair, place by place unless keys merge |
| PlaceholderTree.KeyCountKeptIff | src/config/env_expand.rs:178-194 | A mapping keeps its key count, and every pair its place, if and only if the expanded keys stay distinct |
| PlaceholderTree.RekeyedKeys | src/config/env_expand.rs:178-194 | The rebuilt mapping holds each expanded key exactly once, in the order in which the keys first occur |
| PlaceholderTree.RekeyedFrom | src/config/env_expand.rs:178-194 | Under each key stands the value of the last original pair whose key expands to it |
| PlaceholderTree.OnlyTreeNamesMatter | src/config/env_expand.rs:111-196 | Trees expand alike, errors and paths included, under environments that agree on the names they mention |
| PlaceholderMeaning.ExpandMeaning | src/config/env_expand.rs:122-196 | Every string of the tree, keys included, becomes its expansion, read as a number, boolean or null exactly if it was one placeholder and the value is a bare scalar; where keys merge the last value stays |
| PlaceholderMeaning.ExpandFailure | src/config/env_expand.rs:122-206 | Expansion fails if and only if some string does not expand, and names the first one, values before keys, with its path and problem |
| PlaceholderMeaning.SinglePlaceholderIff | src/config/env_expand.rs:328-335 | One placeholder means `${`, a body without `}` and `${`, and `}`, between blanks |
| PlaceholderMeaning.DecimalMeaning | src/config/env_expand.rs:140-140 | Indices in paths are decimal, without leading zeros |
| ReloadControl.AppController.constructor | src/infra/control.rs:233-253 | The controller starts idle with an open, empty channel |
| ReloadControl.AppController.BeginReload | src/infra/control.rs:336-343 | Refused without change while a reload is pending or in progress, otherwise pending |
| ReloadControl.AppController.RequestReload | src/infra/control.rs:335-347 | An accepted request sends one command, unless the channel is closed |
| ReloadControl.AppController.RequestStop | src/infra/control.rs:315-333 | Shutdown and restart are recorded and sent |
| ReloadControl.AppController.Send | src/infra/control.rs:344-346 | Commands are queued in order while the channel is open |
| ReloadControl.AppController.SetRunningConfigVersion | src/infra/control.rs:352-355 | Only the running version changes |
| ReloadControl.AppController.MarkReloadStarted | src/infra/control.rs:357-364 | From pending to in progress, with the target recorded and the error cleared |
| ReloadControl.AppController.MarkReloadSucceeded | src/infra/control.rs:366-378 | The target, if known, becomes the running version |
| ReloadControl.AppController.MarkReloadFailed | src/infra/control.rs:380-386 | The running version is kept and the failure recorded |
| ReloadApp.App.constructor | src/app.rs:296-310 | After the first assembly the reported version is right exactly when the later read hashes like the loaded text |
| ReloadApp.App.HandleReloadCommand | src/app.rs:371-429 | The handled command ends in exactly the world its path of protocol steps leads to: the loaded or the previous configuration runs, or both assemblies failed and the loop must end; times, target and last success are as its outcome says |
| ReloadApp.ReloadRun | src/app.rs:371-429 | Start, load, stop, assemble and roll back, as far as each attempt gets, are possible steps of the protocol |
| ReloadApp.App.WaitForTermination | src/app.rs:333-369 | Only reloads are served before the end, the reason of which is the last input; assembly and configuration agree unless a rollback failed |
| ReloadProtocol.AtMostOneReload | src/infra/control.rs:335-386 | Over every interleaving, never both pending and in progress, and while the loop runs pending means exactly one reload command being sent, queued or just dequeued |
| ReloadProtocol.SingleReloadStep | src/infra/control.rs:335-386 | Each atomic step keeps that balance |
| ReloadProtocol.OutstandingStep | src/infra/control.rs:335-364 | Only an accepted request adds a reload command; only the start of a reload, or a closed channel, takes one off |
| ReloadProtocol.ReportedStatus | src/infra/control.rs:335-412 | Over every interleaving the status is true while the loop runs: at work, or one command on its way, or else how the latest reload ended |
| ReloadProtocol.RollbackSafety | src/app.rs:371-429 | Through any load failures, assembly failures and rollbacks, whenever the loop waits the current configuration runs; with one-snapshot reads its version is reported |
| ReloadProtocol.SafeStep | src/app.rs:371-429 | Each stage of a reload keeps what the next one relies on, however the file changes |
| ReloadProtocol.ReportedVersionIff | src/app.rs:371-404 | Over every interleaving the reported version is that of the text hashed by the latest successful reload that could read the file, else of the first; it is right if and only if that text hashes like the current configuration |
| ReloadProtocol.TornRead | src/app.rs:376-404 | A concrete history: the file changes between hashing and loading, and the wrong version is reported |

## Left out

- The async runtime, threads and channel libraries: events are atomic steps, a channel is a queue, and a panicking task factory is a flag of the event that starts the run.
- The manual-trigger queue of 16 slots, `TaskCenter` and its restart of a dead actor: they only decide which events reach the actor.
- Several clock readings inside one wake-up are one reading; the loop that re-reads the clock for each task is not distinguished from one that does not.
- `Instant` is a count of nanoseconds whose seconds fit 63 bits; other platforms have other ranges. A calendar addition that overflows is an error, as the caught panic is.
- `next_after` never returns an empty deadline in the original, so the model returns a deadline or an error. Parsing of schedules and the check of the interval at construction are not modelled.
- TaskHeap.NextDeadline: the binary heap is observed as the sequence of its entries in popping order; the sift operations of the library are not modelled.
- TaskActor.Scheduler.Serve: the priority among ready sources and the rule that a wake-up waits for its time are not modelled; any legal order of events is served, so every order of the original is covered. The drain after the control channel closes is not modelled.
- Task names, skip-event handlers and log messages.
- Parsing and canonical text of DNS names, the pointer-equality shortcut and the wire codec: names are equal when their canonical text is.
- The nodes, edges and sequence flows of the dependency report, and all error texts.
- DependencyGraph.FindCyclePath: which of several cycles is reported may depend on hash order and is not fixed.
- PlaceholderExpansion.Walker.ExpandInValue: the tree is returned rather than rewritten in place, so a partly rewritten tree after an error is not captured.
- Lossy decoding of environment values, the YAML reader used to recover a scalar, and the debug text of composite keys in paths are parameters.
- Config hashing, parsing and validation, included files, and the contents and globals of an assembly: a configuration text assembles or does not.
- ReloadControl.AppController.ReloadSnapshot: gives the status only, whose meaning `ReportedStatus` states; the other fields are copies.
- Process metrics, the HTTP API, the command line and the shutdown sequence after the loop.

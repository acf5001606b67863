/**
 * The deadline heap and its lazily dropped stale entries, against the task table it
 * indexes. A binary heap of ordered pairs is observed as the sequence of its entries in
 * the order they would be popped.
 */
module TaskHeap {
  import opened Wrappers
  import opened Collections
  import opened TaskSchedule
  import opened TaskModel

  datatype Entry = Entry(instant: Instant, id: nat)

  type Heap = seq<Entry>

  predicate NotAfter(e: Entry, f: Entry) {
    e.instant < f.instant || (e.instant == f.instant && e.id <= f.id)
  }

  ghost predicate Sorted(h: Heap) {
    forall i, j | 0 <= i < j < |h| :: NotAfter(h[i], h[j])
  }

  ghost predicate OnePerTask(h: Heap) {
    forall i, j | 0 <= i < j < |h| :: h[i].id != h[j].id
  }

  ghost predicate Indexed(tasks: map<nat, Task>, h: Heap, id: nat) {
    id in tasks && tasks[id].nextRun.Some? ==> Entry(tasks[id].nextRun.value.instant, id) in h
  }

  /** Each scheduled task has its exact entry; no task has two entries; no entry is for an unknown task. */
  ghost predicate Agrees(tasks: map<nat, Task>, h: Heap) {
    && Sorted(h) && OnePerTask(h)
    && (forall e | e in h :: e.id in tasks)
    && forall id {:trigger Indexed(tasks, h, id)} :: Indexed(tasks, h, id)
  }

  /** An entry that still names its task's deadline. */
  predicate Current(tasks: map<nat, Task>, e: Entry) {
    e.id in tasks && tasks[e.id].nextRun.Some? && tasks[e.id].nextRun.value.instant == e.instant
  }

  /** The heap never outgrows the table. */
  lemma HeapBounded(tasks: map<nat, Task>, h: Heap)
    requires Agrees(tasks, h)
    ensures |h| <= |tasks.Keys|
  {
    var ids := seq(|h|, i requires 0 <= i < |h| => h[i].id);
    DistinctCardinality(ids);
    forall t | t in ToSet(ids)
      ensures t in tasks
    {
      var i :| 0 <= i < |ids| && ids[i] == t;
      assert h[i] in h;
    }
    SubsetCardinality(ToSet(ids), tasks.Keys);
  }

  // ---- Push and pop --------------------------------------------------------------------------

  function Push(h: Heap, e: Entry): Heap {
    if h == [] || NotAfter(e, h[0]) then [e] + h else [h[0]] + Push(h[1..], e)
  }

  /** `p` is `h` with `e` put in at position `k`. */
  ghost predicate InsertedAt(h: Heap, e: Entry, k: nat, p: Heap) {
    && |p| == |h| + 1 && k <= |h| && p[k] == e
    && (forall i | 0 <= i < k :: p[i] == h[i])
    && (forall i | k < i < |p| :: p[i] == h[i - 1])
  }

  lemma {:induction false} PushInserts(h: Heap, e: Entry) returns (k: nat)
    requires Sorted(h)
    ensures InsertedAt(h, e, k, Push(h, e))
    ensures forall i | 0 <= i < k :: NotAfter(h[i], e)
    ensures forall i | k <= i < |h| :: NotAfter(e, h[i])
  {
    if h == [] || NotAfter(e, h[0]) {
      k := 0;
    } else {
      var k' := PushInserts(h[1..], e);
      k := k' + 1;
      forall i | 0 < i < |h|
        ensures h[i] == h[1..][i - 1]
      {
      }
    }
  }

  lemma PushKeepsOrder(h: Heap, e: Entry)
    requires Sorted(h) && OnePerTask(h) && forall f | f in h :: f.id != e.id
    ensures Sorted(Push(h, e)) && OnePerTask(Push(h, e))
    ensures forall f :: f in Push(h, e) <==> f == e || f in h
  {
    var k := PushInserts(h, e);
    InsertKeepsOrder(h, e, k, Push(h, e));
  }

  lemma InsertKeepsOrder(h: Heap, e: Entry, k: nat, p: Heap)
    requires InsertedAt(h, e, k, p)
    requires Sorted(h) && OnePerTask(h) && forall f | f in h :: f.id != e.id
    requires forall i | 0 <= i < k :: NotAfter(h[i], e)
    requires forall i | k <= i < |h| :: NotAfter(e, h[i])
    ensures Sorted(p) && OnePerTask(p)
    ensures forall f :: f in p <==> f == e || f in h
  {
    forall i, j | 0 <= i < j < |p|
      ensures NotAfter(p[i], p[j]) && p[i].id != p[j].id
    {
      assert i != k ==> p[i] == h[if i < k then i else i - 1];
      assert j != k ==> p[j] == h[if j < k then j else j - 1];
    }
    forall f
      ensures f in p <==> f == e || f in h
    {
      if f in h {
        var i :| 0 <= i < |h| && h[i] == f;
        assert p[if i < k then i else i + 1] == f;
      }
    }
  }

  /** Setting a deadline that has no entry yet and pushing it keeps the index. */
  lemma PushAgrees(tasks: map<nat, Task>, h: Heap, id: nat, task: Task)
    requires forall e | e in h :: e.id in tasks && e.id != id
    requires Sorted(h) && OnePerTask(h)
    requires forall other {:trigger Indexed(tasks, h, other)} | other != id :: Indexed(tasks, h, other)
    ensures var h' := if task.nextRun.Some? then Push(h, Entry(task.nextRun.value.instant, id)) else h;
            Agrees(tasks[id := task], h')
  {
    var h' := if task.nextRun.Some? then Push(h, Entry(task.nextRun.value.instant, id)) else h;
    if task.nextRun.Some? {
      PushKeepsOrder(h, Entry(task.nextRun.value.instant, id));
    }
    forall other {:trigger Indexed(tasks[id := task], h', other)}
      ensures Indexed(tasks[id := task], h', other)
    {
      assert other != id ==> Indexed(tasks, h, other);
    }
  }

  lemma PopKeepsOrder(h: Heap)
    requires Sorted(h) && OnePerTask(h) && h != []
    ensures Sorted(h[1..]) && OnePerTask(h[1..])
    ensures forall e :: e in h[1..] <==> e in h && e != h[0]
    ensures forall e | e in h[1..] :: e.id != h[0].id && NotAfter(h[0], e)
  {
    assert h == [h[0]] + h[1..];
    forall e | e in h[1..]
      ensures e.id != h[0].id && NotAfter(h[0], e)
    {
      var i :| 0 < i < |h| && h[i] == e;
    }
  }

  lemma DropStale(tasks: map<nat, Task>, h: Heap)
    requires Agrees(tasks, h) && h != [] && !Current(tasks, h[0])
    ensures Agrees(tasks, h[1..])
  {
    PopKeepsOrder(h);
    forall id
      ensures Indexed(tasks, h[1..], id)
    {
      assert Indexed(tasks, h, id);
    }
  }

  /** Only the deadlines matter to the index; one that is cleared leaves a stale entry behind. */
  lemma FewerDeadlinesAgree(tasks: map<nat, Task>, tasks': map<nat, Task>, h: Heap)
    requires Agrees(tasks, h) && tasks'.Keys == tasks.Keys
    requires forall id | id in tasks :: tasks'[id].nextRun in {None, tasks[id].nextRun}
    ensures Agrees(tasks', h)
  {
    forall id
      ensures Indexed(tasks', h, id)
    {
      assert Indexed(tasks, h, id);
    }
  }

  // ---- The heap operations of the actor ------------------------------------------------------

  /** No scheduled task is earlier than `bound`. */
  ghost predicate NoneBefore(tasks: map<nat, Task>, bound: int) {
    forall id | id in tasks && tasks[id].nextRun.Some? :: bound <= tasks[id].nextRun.value.instant
  }

  /** Drop stale entries from the top until a current one is found: the minimum over the table. */
  method NextDeadline(tasks: map<nat, Task>, deadlines: Heap) returns (deadline: Option<Instant>, deadlines': Heap)
    requires Agrees(tasks, deadlines)
    ensures Agrees(tasks, deadlines') && |deadlines'| <= |deadlines|
    ensures deadline.None? <==> forall id | id in tasks :: tasks[id].nextRun.None?
    ensures deadline.Some? ==>
            deadlines' != [] && Current(tasks, deadlines'[0]) && deadlines'[0].instant == deadline.value
    ensures deadline.Some? ==> NoneBefore(tasks, deadline.value)
  {
    deadlines' := deadlines;
    while deadlines' != []
      invariant Agrees(tasks, deadlines') && |deadlines'| <= |deadlines|
    {
      var top := deadlines'[0];
      if Current(tasks, top) {
        TopIsEarliest(tasks, deadlines');
        assert top.id in tasks && tasks[top.id].nextRun.Some?;
        return Some(top.instant), deadlines';
      }
      DropStale(tasks, deadlines');
      deadlines' := deadlines'[1..];
    }
    forall id | id in tasks
      ensures tasks[id].nextRun.None?
    {
      assert Indexed(tasks, deadlines', id);
    }
    deadline := None;
  }

  lemma TopIsEarliest(tasks: map<nat, Task>, h: Heap)
    requires Agrees(tasks, h) && h != []
    ensures NoneBefore(tasks, h[0].instant)
  {
    forall id | id in tasks && tasks[id].nextRun.Some?
      ensures h[0].instant <= tasks[id].nextRun.value.instant
    {
      assert Indexed(tasks, h, id);
      var i :| 0 <= i < |h| && h[i] == Entry(tasks[id].nextRun.value.instant, id);
      assert i > 0 ==> NotAfter(h[0], h[i]);
    }
  }

  /** Build the heap from the table alone, in whatever order the table is enumerated. */
  method RebuildDeadlineHeap(tasks: map<nat, Task>) returns (deadlines: Heap)
    ensures Agrees(tasks, deadlines)
    ensures forall e | e in deadlines :: Current(tasks, e)
  {
    deadlines := [];
    var left := tasks.Keys;
    while left != {}
      invariant left <= tasks.Keys
      invariant Sorted(deadlines) && OnePerTask(deadlines)
      invariant forall e | e in deadlines :: e.id !in left && Current(tasks, e)
      invariant forall id {:trigger Indexed(tasks, deadlines, id)} | id !in left :: Indexed(tasks, deadlines, id)
      decreases left
    {
      var id :| id in left;
      ghost var before := deadlines;
      left := left - {id};
      if tasks[id].nextRun.Some? {
        PushKeepsOrder(deadlines, Entry(tasks[id].nextRun.value.instant, id));
        deadlines := Push(deadlines, Entry(tasks[id].nextRun.value.instant, id));
      }
      forall other | other !in left
        ensures Indexed(tasks, deadlines, other)
      {
        assert other != id ==> Indexed(tasks, before, other);
      }
    }
  }

  /** Re-anchor every calendar deadline against one reading, then rebuild the heap. */
  method RefreshCronDeadlines(tasks: map<nat, Task>, r: Reading) returns (tasks': map<nat, Task>, deadlines: Heap)
    ensures tasks' == RefreshedTable(tasks, r)
    ensures Agrees(tasks', deadlines)
  {
    tasks' := tasks;
    var left := tasks.Keys;
    while left != {}
      invariant left <= tasks.Keys && tasks'.Keys == tasks.Keys
      invariant forall id | id in tasks :: tasks'[id] == if id in left then tasks[id] else RefreshTask(tasks[id], r)
      decreases left
    {
      var id :| id in left;
      left := left - {id};
      var task := tasks[id];
      if task.schedule.FixedInterval? {
        continue;
      }
      if task.nextRun.None? {
        continue;
      }
      var reanchored := ReanchorCronDeadline(task.schedule, task.nextRun.value, Deadline(r.instant, r.wall));
      match reanchored {
        case Success(deadline) => tasks' := tasks'[id := task.(nextRun := Some(deadline))];
        case Failure(_) => tasks' := tasks'[id := task.(nextRun := None)];
      }
    }
    deadlines := RebuildDeadlineHeap(tasks');
  }
}

/**
 * How far the bounded walk can be trusted: cycles, the pigeonhole bound, and the
 * first chain length at which a complete answer is no longer recognised.
 */
module ResponseChains {
  import opened Wrappers
  import opened Collections
  import opened ResponseClassifier

  /** The names that own an alias of the question's class. */
  function AliasOwners(answers: set<Record>, q: Question): set<Name> {
    set r | r in answers && r.dnsClass == q.qclass && r.data.CnameData? :: r.name
  }

  /** Following aliases from the queried name comes back to a name already visited. */
  ghost predicate AliasCycle(answers: set<Record>, q: Question) {
    exists i: nat, j: nat, x :: i < j && ReachedBy(answers, q, i, x) && ReachedBy(answers, q, j, x)
  }

  ghost predicate EverStops(answers: set<Record>, q: Question, view: OwnerAnswer) {
    exists n: nat :: StopsAt(answers, q, n, view)
  }

  /** The walk still stands on an alias when its hop budget is spent. */
  ghost predicate HitsHopLimit(answers: set<Record>, q: Question) {
    exists x, t :: ReachedBy(answers, q, MAX_CNAME_HOPS, x) && Answers(answers, x, q, Alias(t))
  }

  // ---- Walks --------------------------------------------------------------------------------

  /** The names visited on the way, in order; all but the last own an alias. */
  lemma {:induction false} Trace(answers: set<Record>, q: Question, n: nat, x: Name) returns (visited: seq<Name>)
    requires ReachedBy(answers, q, n, x)
    ensures |visited| == n + 1
    ensures forall k | 0 <= k <= n :: ReachedBy(answers, q, k, visited[k])
    ensures forall k | 0 <= k < n :: visited[k] in AliasOwners(answers, q)
  {
    if n == 0 {
      visited := [x];
    } else {
      var y :| ReachedBy(answers, q, n - 1, y) && Answers(answers, y, q, Alias(x));
      var before := Trace(answers, q, n - 1, y);
      ReachedUnique(answers, q, n - 1, y, before[n - 1]);
      assert HasTarget(answers, y, q, x);
      visited := before + [x];
    }
  }

  lemma LongWalkCycles(answers: set<Record>, q: Question, n: nat, x: Name)
    requires ReachedBy(answers, q, n, x) && n > |AliasOwners(answers, q)|
    ensures AliasCycle(answers, q)
  {
    var visited := Trace(answers, q, n, x);
    var i, j := Pigeonhole(visited[..n], AliasOwners(answers, q));
    assert ReachedBy(answers, q, i, visited[i]) && ReachedBy(answers, q, j, visited[j]);
  }

  /** Once in a cycle of length `period`, the walk repeats. */
  lemma {:induction false} Periodic(answers: set<Record>, q: Question, i: nat, x: Name, period: nat, m: nat, y: Name)
    requires ReachedBy(answers, q, i, x) && ReachedBy(answers, q, i + period, x)
    requires i <= m && ReachedBy(answers, q, m, y)
    ensures ReachedBy(answers, q, m + period, y)
  {
    if m == i {
      ReachedUnique(answers, q, i, x, y);
    } else {
      var y' :| ReachedBy(answers, q, m - 1, y') && Answers(answers, y', q, Alias(y));
      Periodic(answers, q, i, x, period, m - 1, y');
      assert m + period - 1 == m - 1 + period;
    }
  }

  lemma {:induction false} CycleNeverEnds(answers: set<Record>, q: Question, i: nat, j: nat, x: Name, m: nat)
    returns (y: Name)
    requires i < j && ReachedBy(answers, q, i, x) && ReachedBy(answers, q, j, x)
    ensures ReachedBy(answers, q, m, y)
  {
    if m <= j {
      var visited := Trace(answers, q, j, x);
      y := visited[m];
    } else {
      y := CycleNeverEnds(answers, q, i, j, x, m - (j - i));
      Periodic(answers, q, i, x, j - i, m - (j - i), y);
    }
  }

  lemma CycleNeverStops(answers: set<Record>, q: Question, m: nat, view: OwnerAnswer)
    requires AliasCycle(answers, q)
    ensures !StopsAt(answers, q, m, view)
  {
    var i: nat, j: nat, x :| i < j && ReachedBy(answers, q, i, x) && ReachedBy(answers, q, j, x);
    var y := CycleNeverEnds(answers, q, i, j, x, m + 1);
    NoEarlierStop(answers, q, m, m + 1, y, view);
  }

  lemma SomeAnswer(answers: set<Record>, owner: Name, q: Question) returns (view: OwnerAnswer)
    ensures Answers(answers, owner, q, view)
  {
    if HasRequested(answers, owner, q) {
      view := Requested;
    } else if t :| HasTarget(answers, owner, q, t) {
      view := if exists u :: u != t && HasTarget(answers, owner, q, u) then ConflictingAlias else Alias(t);
    } else {
      view := NoAnswer;
    }
  }

  ghost predicate Walks(answers: set<Record>, q: Question, n: nat) {
    exists x :: ReachedBy(answers, q, n, x)
  }

  lemma {:induction false} WalkOrStop(answers: set<Record>, q: Question, n: nat)
    ensures Walks(answers, q, n) || (exists m: nat, view :: m < n && StopsAt(answers, q, m, view))
  {
    if n == 0 {
      assert ReachedBy(answers, q, 0, q.name);
    } else {
      WalkOrStop(answers, q, n - 1);
      if Walks(answers, q, n - 1) {
        var x :| ReachedBy(answers, q, n - 1, x);
        var view := SomeAnswer(answers, x, q);
        if view.Alias? {
          assert ReachedBy(answers, q, n, view.target);
        } else {
          assert StopsAt(answers, q, n - 1, view);
        }
      }
    }
  }

  /** A chain that stops does so within as many steps as there are alias owners. */
  lemma StopBound(answers: set<Record>, q: Question, n: nat, view: OwnerAnswer)
    requires StopsAt(answers, q, n, view)
    ensures n <= |AliasOwners(answers, q)|
  {
    var x :| ReachedBy(answers, q, n, x) && Answers(answers, x, q, view);
    if n > |AliasOwners(answers, q)| {
      LongWalkCycles(answers, q, n, x);
      CycleNeverStops(answers, q, n, view);
    }
  }

  /** Every chain either stops, in exactly one way, or runs into a cycle. */
  lemma StopsOrCycles(answers: set<Record>, q: Question)
    ensures AliasCycle(answers, q) <==> forall view :: !EverStops(answers, q, view)
    ensures forall v, w | EverStops(answers, q, v) && EverStops(answers, q, w) :: v == w
  {
    forall view | AliasCycle(answers, q) && EverStops(answers, q, view)
      ensures false
    {
      var n: nat :| StopsAt(answers, q, n, view);
      CycleNeverStops(answers, q, n, view);
    }
    if forall view :: !EverStops(answers, q, view) {
      var n := |AliasOwners(answers, q)| + 1;
      WalkOrStop(answers, q, n);
      forall m: nat, view
        ensures !StopsAt(answers, q, m, view)
      {
        assert !EverStops(answers, q, view);
      }
      var x :| ReachedBy(answers, q, n, x);
      LongWalkCycles(answers, q, n, x);
    }
    forall v, w | EverStops(answers, q, v) && EverStops(answers, q, w)
      ensures v == w
    {
      var m: nat :| StopsAt(answers, q, m, v);
      var n: nat :| StopsAt(answers, q, n, w);
      StopUnique(answers, q, m, v, n, w);
    }
  }

  // ---- Main results -------------------------------------------------------------------------

  ghost predicate OrdinaryQuery(m: Message, q: Question) {
    && m.rcode == NoError
    && (m.FirstQuestion().Some? ==> m.FirstQuestion() == Some(q))
    && !q.qtype.AnyType? && !q.qtype.CnameType?
  }

  /** What `ClassifyResponse` returns. */
  ghost function Verdict(m: Message, question: Option<Question>): ResponseDisposition {
    Disposition(ToSet(m.answers), ToSet(m.authorities), m.rcode, m.FirstQuestion(), question)
  }

  /**
   * With at most `MAX_CNAME_HOPS` alias owners the hop budget loses nothing: the
   * verdict is the one of an unbounded walk, and the budget is spent exactly when
   * the aliases really cycle.
   */
  lemma HopLimitExact(m: Message, q: Question)
    requires OrdinaryQuery(m, q)
    requires |AliasOwners(ToSet(m.answers), q)| <= MAX_CNAME_HOPS
    ensures var answers := ToSet(m.answers);
            && Verdict(m, Some(q)) == ChainDisposition(answers, ToSet(m.authorities), q,
                                                 EverStops(answers, q, Requested), EverStops(answers, q, NoAnswer))
            && (HitsHopLimit(answers, q) <==> AliasCycle(answers, q))
  {
    var answers := ToSet(m.answers);
    forall view
      ensures EverStops(answers, q, view) <==> StopsWithin(answers, q, MAX_CNAME_HOPS, view)
    {
      if EverStops(answers, q, view) {
        var n: nat :| StopsAt(answers, q, n, view);
        StopBound(answers, q, n, view);
      }
    }
    if HitsHopLimit(answers, q) {
      var x, t :| ReachedBy(answers, q, MAX_CNAME_HOPS, x) && Answers(answers, x, q, Alias(t));
      assert ReachedBy(answers, q, MAX_CNAME_HOPS + 1, t);
      LongWalkCycles(answers, q, MAX_CNAME_HOPS + 1, t);
    }
    if AliasCycle(answers, q) {
      var i: nat, j: nat, x :| i < j && ReachedBy(answers, q, i, x) && ReachedBy(answers, q, j, x);
      var y := CycleNeverEnds(answers, q, i, j, x, MAX_CNAME_HOPS + 1);
      assert HitsHopLimit(answers, q);
    }
  }

  /** Although no visited set is kept, every chain that enters a cycle is rejected. */
  lemma CyclesAreRejected(m: Message, q: Question)
    requires OrdinaryQuery(m, q) && AliasCycle(ToSet(m.answers), q)
    ensures Verdict(m, Some(q)) == Other
  {
    forall n: nat, view
      ensures !StopsAt(ToSet(m.answers), q, n, view)
    {
      CycleNeverStops(ToSet(m.answers), q, n, view);
    }
  }

  /** Permuting or repeating records changes no verdict, with or without a question. */
  lemma RecordOrderIrrelevant(m: Message, n: Message, question: Option<Question>)
    requires m.rcode == n.rcode && m.FirstQuestion() == n.FirstQuestion()
    requires forall r :: r in m.answers <==> r in n.answers
    requires forall r :: r in m.authorities <==> r in n.authorities
    ensures Verdict(m, question) == Verdict(n, question)
  {
    assert ToSet(m.answers) == ToSet(n.answers);
    assert ToSet(m.authorities) == ToSet(n.authorities);
  }

  // ---- The bound is tight -------------------------------------------------------------------

  function Rung(k: nat): Name {
    seq(k, _ => 'a')
  }

  /** A clean chain of `length` aliases that ends in a record of the requested type. */
  function Ladder(length: nat): Message {
    Message([LadderQuestion()], NoError,
            seq(length, i requires 0 <= i => Record(Rung(i), 1, CnameData(Rung(i + 1)))) +
            [Record(Rung(length), 1, OtherData(1))],
            [])
  }

  function LadderQuestion(): Question {
    Question(Rung(0), NumberedType(1), 1)
  }

  lemma RungAnswer(length: nat, k: nat)
    requires k < length
    ensures Answers(ToSet(Ladder(length).answers), Rung(k), LadderQuestion(), Alias(Rung(k + 1)))
  {
    var records := Ladder(length).answers;
    assert records[k] in ToSet(records);
    assert records[k] == Record(Rung(k), 1, CnameData(Rung(k + 1)));
    forall r | r in ToSet(records) && r.name == Rung(k)
      ensures r == records[k]
    {
      var i :| 0 <= i < |records| && records[i] == r;
      assert |r.name| == i && |Rung(k)| == k;
    }
    assert HasTarget(ToSet(records), Rung(k), LadderQuestion(), Rung(k + 1));
  }

  lemma {:induction false} LadderReaches(length: nat, k: nat)
    requires k <= length
    ensures ReachedBy(ToSet(Ladder(length).answers), LadderQuestion(), k, Rung(k))
  {
    if k > 0 {
      LadderReaches(length, k - 1);
      RungAnswer(length, k - 1);
    }
  }

  /** A complete chain is recognised exactly up to `MAX_CNAME_HOPS` aliases; one more and it is `Other`. */
  lemma LadderVerdict(length: nat)
    ensures Verdict(Ladder(length), Some(LadderQuestion())) ==
            if length <= 16 then CompletePositive else Other
  {
    var records, q := ToSet(Ladder(length).answers), LadderQuestion();
    LadderReaches(length, length);
    assert Ladder(length).answers[length] in records;
    assert HasRequested(records, Rung(length), q);
    assert StopsAt(records, q, length, Requested);
    forall n: nat, view | StopsAt(records, q, n, view)
      ensures n == length && view == Requested
    {
      StopUnique(records, q, length, Requested, n, view);
    }
  }
}

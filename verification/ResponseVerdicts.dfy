/**
 * What each verdict says about the message, stated on its records alone.
 */
module ResponseVerdicts {
  import opened Wrappers
  import opened Collections
  import opened ResponseClassifier
  import opened ResponseChains

  /** The response carries no question, or the one that was asked. */
  predicate Answering(m: Message, q: Question) {
    m.questions == [] || m.questions[0] == q
  }

  predicate Ordinary(q: Question) {
    !q.qtype.AnyType? && !q.qtype.CnameType?
  }

  ghost predicate HasSoa(m: Message, qclass: nat) {
    exists r | r in m.authorities :: r.dnsClass == qclass && r.data == SoaData
  }

  lemma AsSets(m: Message)
    ensures forall r :: r in ToSet(m.answers) <==> r in m.answers
    ensures forall r :: r in ToSet(m.authorities) <==> r in m.authorities
    ensures ToSet(m.answers) == {} <==> m.answers == []
  {
    if m.answers != [] {
      assert m.answers[0] in ToSet(m.answers);
    }
  }

  // ---- Verdicts that need no chain -----------------------------------------------------------

  /** A response to another question proves nothing. */
  lemma MismatchIsOther(m: Message, q: Question)
    requires !Answering(m, q)
    ensures Verdict(m, Some(q)) == Other
  {
    assert m.FirstQuestion() == Some(m.questions[0]);
  }

  /** Only the response code can deny the name itself, and any failure code leaves nothing to use. */
  lemma NameDeniedIff(m: Message, question: Option<Question>)
    requires question.Some? ==> Answering(m, question.value)
    ensures Verdict(m, question) == DefinitiveNegative(NegativeName) <==> m.rcode == NxDomain
    ensures m.rcode.OtherRcode? ==> Verdict(m, question) == Other
  {
  }

  /** A positive code without any answer says that there is no data, for every question and for none. */
  lemma EmptyIsNoData(m: Message, question: Option<Question>)
    requires question.Some? ==> Answering(m, question.value)
    requires m.rcode == NoError && m.answers == []
    ensures Verdict(m, question) == DefinitiveNegative(NoData)
  {
    AsSets(m);
    if question.Some? {
      var q := question.value;
      NothingThere(ToSet(m.answers), q.name, q);
      if Ordinary(q) {
        assert ReachedBy(ToSet(m.answers), q, 0, q.name);
        assert StopsAt(ToSet(m.answers), q, 0, NoAnswer);
        OtherStop(ToSet(m.answers), q, 0, NoAnswer);
      }
    }
  }

  lemma NothingThere(answers: set<Record>, owner: Name, q: Question)
    requires answers == {}
    ensures Answers(answers, owner, q, NoAnswer)
  {
  }

  /** Without a question any answer is usable. */
  lemma UnaskedIsPositive(m: Message)
    requires m.rcode == NoError && m.answers != []
    ensures Verdict(m, None) == CompletePositive
  {
    AsSets(m);
  }

  /** For ANY a record at the name answers, for CNAME an alias at the name. */
  ghost predicate AnsweredAtName(m: Message, q: Question) {
    exists r | r in m.answers ::
      r.name == q.name && r.dnsClass == q.qclass && (q.qtype.CnameType? ==> r.data.CnameData?)
  }

  lemma DirectVerdict(m: Message, q: Question)
    requires m.rcode == NoError && Answering(m, q) && !Ordinary(q)
    ensures Verdict(m, Some(q)) ==
            if AnsweredAtName(m, q) then CompletePositive
            else if m.answers == [] || HasSoa(m, q.qclass) then DefinitiveNegative(NoData)
            else Other
  {
    AsSets(m);
    if q.qtype.CnameType? {
      assert forall r | r in m.answers :: r.data.RrType() == CnameType <==> r.data.CnameData?;
    }
  }

  // ---- Chains --------------------------------------------------------------------------------

  /** Some record of the requested kind stands at this owner. */
  ghost predicate RequestedAt(m: Message, q: Question, owner: Name) {
    exists r | r in m.answers :: r.name == owner && r.dnsClass == q.qclass && r.data.RrType() == q.qtype
  }

  ghost predicate AliasAt(m: Message, q: Question, owner: Name, target: Name) {
    Record(owner, q.qclass, CnameData(target)) in m.answers
  }

  /** The owner has this one alias target, and no record of the requested kind. */
  ghost predicate OneAlias(m: Message, q: Question, owner: Name, target: Name) {
    && !RequestedAt(m, q, owner)
    && AliasAt(m, q, owner, target)
    && forall t | AliasAt(m, q, owner, t) :: t == target
  }

  /** The owner has neither a requested record nor an alias. */
  ghost predicate Unanswering(m: Message, q: Question, owner: Name) {
    !RequestedAt(m, q, owner) && forall t :: !AliasAt(m, q, owner, t)
  }

  ghost predicate Linked(m: Message, q: Question, names: seq<Name>, i: nat)
    requires i + 1 < |names|
  {
    OneAlias(m, q, names[i], names[i + 1])
  }

  /** From the queried name on, each name is the one alias target of the name before it. */
  ghost predicate Chain(m: Message, q: Question, names: seq<Name>) {
    && names != [] && names[0] == q.name
    && forall i {:trigger Linked(m, q, names, i)} | 0 <= i < |names| - 1 :: Linked(m, q, names, i)
  }

  ghost predicate Dangles(m: Message, q: Question, names: seq<Name>) {
    Chain(m, q, names) && Unanswering(m, q, names[|names| - 1])
  }

  lemma AtOwner(m: Message, q: Question, owner: Name)
    ensures Answers(ToSet(m.answers), owner, q, Requested) <==> RequestedAt(m, q, owner)
    ensures Answers(ToSet(m.answers), owner, q, NoAnswer) <==> Unanswering(m, q, owner)
    ensures forall t :: Answers(ToSet(m.answers), owner, q, Alias(t)) <==> OneAlias(m, q, owner, t)
  {
    AsSets(m);
    assert forall t :: HasTarget(ToSet(m.answers), owner, q, t) <==> AliasAt(m, q, owner, t);
  }

  lemma {:induction false} ChainReaches(m: Message, q: Question, names: seq<Name>)
    requires Chain(m, q, names)
    ensures ReachedBy(ToSet(m.answers), q, |names| - 1, names[|names| - 1])
    decreases |names|
  {
    hide Answers, OneAlias;
    var n := |names| - 1;
    if n > 0 {
      forall i | 0 <= i < n - 1
        ensures Linked(m, q, names[..n], i)
      {
        assert Linked(m, q, names, i);
      }
      ChainReaches(m, q, names[..n]);
      AtOwner(m, q, names[n - 1]);
      assert Linked(m, q, names, n - 1);
    }
  }

  lemma {:induction false} ReachedChain(m: Message, q: Question, n: nat, x: Name) returns (names: seq<Name>)
    requires ReachedBy(ToSet(m.answers), q, n, x)
    ensures Chain(m, q, names) && |names| == n + 1 && names[n] == x
  {
    hide Answers, OneAlias;
    if n == 0 {
      names := [x];
    } else {
      var y :| ReachedBy(ToSet(m.answers), q, n - 1, y) && Answers(ToSet(m.answers), y, q, Alias(x));
      var before := ReachedChain(m, q, n - 1, y);
      AtOwner(m, q, y);
      names := before + [x];
      forall i | 0 <= i < n
        ensures Linked(m, q, names, i)
      {
        assert i < n - 1 ==> Linked(m, q, before, i);
      }
    }
  }

  /** A chain of at most `MAX_CNAME_HOPS` aliases that ends on a requested record. */
  ghost predicate Resolves(m: Message, q: Question, names: seq<Name>) {
    Chain(m, q, names) && |names| <= MAX_CNAME_HOPS + 1 && RequestedAt(m, q, names[|names| - 1])
  }

  ghost predicate DanglesWithin(m: Message, q: Question, names: seq<Name>) {
    Dangles(m, q, names) && |names| <= MAX_CNAME_HOPS + 1
  }

  lemma ResolvesIff(m: Message, q: Question)
    ensures StopsWithin(ToSet(m.answers), q, MAX_CNAME_HOPS, Requested) <==> exists names :: Resolves(m, q, names)
  {
    var answers := ToSet(m.answers);
    if names :| Resolves(m, q, names) {
      ChainReaches(m, q, names);
      AtOwner(m, q, names[|names| - 1]);
      assert StopsAt(answers, q, |names| - 1, Requested);
    }
    if StopsWithin(answers, q, MAX_CNAME_HOPS, Requested) {
      var n: nat :| n <= MAX_CNAME_HOPS && StopsAt(answers, q, n, Requested);
      var x :| ReachedBy(answers, q, n, x) && Answers(answers, x, q, Requested);
      var names := ReachedChain(m, q, n, x);
      AtOwner(m, q, x);
      assert Resolves(m, q, names);
    }
  }

  lemma DanglesIff(m: Message, q: Question)
    ensures StopsWithin(ToSet(m.answers), q, MAX_CNAME_HOPS, NoAnswer) <==> exists names :: DanglesWithin(m, q, names)
  {
    var answers := ToSet(m.answers);
    if names :| DanglesWithin(m, q, names) {
      ChainReaches(m, q, names);
      AtOwner(m, q, names[|names| - 1]);
      assert StopsAt(answers, q, |names| - 1, NoAnswer);
    }
    if StopsWithin(answers, q, MAX_CNAME_HOPS, NoAnswer) {
      var n: nat :| n <= MAX_CNAME_HOPS && StopsAt(answers, q, n, NoAnswer);
      var x :| ReachedBy(answers, q, n, x) && Answers(answers, x, q, NoAnswer);
      var names := ReachedChain(m, q, n, x);
      AtOwner(m, q, x);
      assert DanglesWithin(m, q, names);
    }
  }

  /** The first name of a dangling chain is an alias exactly when the chain has further names. */
  lemma DanglingStart(m: Message, q: Question, names: seq<Name>)
    requires Dangles(m, q, names)
    ensures |names| > 1 <==> exists t :: Answers(ToSet(m.answers), q.name, q, Alias(t))
  {
    ChainReaches(m, q, names);
    AtOwner(m, q, names[|names| - 1]);
    FollowedSomeAlias(ToSet(m.answers), q, |names| - 1, names[|names| - 1]);
  }

  /**
   * For an ordinary question: a complete answer needs a chain to a requested record; a chain
   * that dangles denies the data when there is no answer or an SOA of the class, and is an
   * incomplete alias otherwise, if it has followed any; all else, conflicts, cycles and too
   * long chains included, is of no use.
   */
  lemma ChainVerdict(m: Message, q: Question)
    requires m.rcode == NoError && Answering(m, q) && Ordinary(q)
    ensures var denies := m.answers == [] || HasSoa(m, q.qclass);
            && (Verdict(m, Some(q)) == CompletePositive <==> exists names :: Resolves(m, q, names))
            && (Verdict(m, Some(q)) == DefinitiveNegative(NoData) <==>
                  denies && exists names :: DanglesWithin(m, q, names))
            && (Verdict(m, Some(q)) == IncompleteAlias <==>
                  !denies && exists names :: DanglesWithin(m, q, names) && |names| > 1)
            && Verdict(m, Some(q)) != DefinitiveNegative(NegativeName)
  {
    hide StopsWithin, Resolves, DanglesWithin, Answers;
    var answers := ToSet(m.answers);
    AsSets(m);
    ResolvesIff(m, q);
    DanglesIff(m, q);
    NotBoth(answers, q);
    forall names | DanglesWithin(m, q, names)
      ensures |names| > 1 <==> exists t :: Answers(answers, q.name, q, Alias(t))
    {
      WithinDangles(m, q, names);
      DanglingStart(m, q, names);
    }
  }

  lemma WithinDangles(m: Message, q: Question, names: seq<Name>)
    requires DanglesWithin(m, q, names)
    ensures Dangles(m, q, names)
  {
  }

  lemma NotBoth(answers: set<Record>, q: Question)
    ensures !(StopsWithin(answers, q, MAX_CNAME_HOPS, Requested) && StopsWithin(answers, q, MAX_CNAME_HOPS, NoAnswer))
  {
    if StopsWithin(answers, q, MAX_CNAME_HOPS, Requested) {
      var n: nat :| n <= MAX_CNAME_HOPS && StopsAt(answers, q, n, Requested);
      OtherStop(answers, q, n, Requested);
    }
  }
}

/**
 * Query-aware classification of a DNS response.
 *
 * `Disposition` is the declarative reading: it speaks of the *sets* of answer and
 * authority records only. `ClassifyResponse` is the scanning algorithm, with its
 * hop counter and without a visited set.
 */
module ResponseClassifier {
  import opened Wrappers
  import opened Collections

  // Names are compared by their canonical text.
  type Name = string

  datatype RecordType = AnyType | CnameType | SoaType | NumberedType(code: nat)

  datatype RData = AnyData | CnameData(target: Name) | SoaData | OtherData(code: nat) {
    function RrType(): RecordType {
      match this
      case AnyData => AnyType
      case CnameData(_) => CnameType
      case SoaData => SoaType
      case OtherData(code) => NumberedType(code)
    }
  }

  datatype Record = Record(name: Name, dnsClass: nat, data: RData) {
    predicate At(owner: Name, c: nat) {
      name == owner && dnsClass == c
    }
  }

  datatype Question = Question(name: Name, qtype: RecordType, qclass: nat)

  datatype Rcode = NoError | NxDomain | OtherRcode(code: nat)

  datatype Message = Message(questions: seq<Question>, rcode: Rcode, answers: seq<Record>, authorities: seq<Record>) {
    function FirstQuestion(): Option<Question> {
      if questions == [] then None else Some(questions[0])
    }
  }

  datatype NegativeKind = NegativeName | NoData

  datatype ResponseDisposition =
    | CompletePositive
    | DefinitiveNegative(kind: NegativeKind)
    | IncompleteAlias
    | Other

  datatype OwnerAnswer = Requested | Alias(target: Name) | ConflictingAlias | NoAnswer

  const MAX_CNAME_HOPS: nat := 16

  // ---- What the records say, without order ------------------------------------------------

  ghost predicate HasRequested(answers: set<Record>, owner: Name, q: Question) {
    exists r | r in answers :: r.At(owner, q.qclass) && r.data.RrType() == q.qtype
  }

  ghost predicate HasTarget(answers: set<Record>, owner: Name, q: Question, target: Name) {
    exists r | r in answers :: r.At(owner, q.qclass) && r.data == CnameData(target)
  }

  /** What one owner name answers: a requested record wins over any aliases there. */
  ghost predicate Answers(answers: set<Record>, owner: Name, q: Question, view: OwnerAnswer) {
    match view
    case Requested => HasRequested(answers, owner, q)
    case Alias(target) =>
      && !HasRequested(answers, owner, q)
      && HasTarget(answers, owner, q, target)
      && forall t | HasTarget(answers, owner, q, t) :: t == target
    case ConflictingAlias =>
      && !HasRequested(answers, owner, q)
      && exists t, u :: t != u && HasTarget(answers, owner, q, t) && HasTarget(answers, owner, q, u)
    case NoAnswer =>
      && !HasRequested(answers, owner, q)
      && forall t :: !HasTarget(answers, owner, q, t)
  }

  /** `x` is reached from the queried name by exactly `n` unambiguous aliases. */
  ghost predicate ReachedBy(answers: set<Record>, q: Question, n: nat, x: Name) {
    if n == 0 then x == q.name
    else exists y :: ReachedBy(answers, q, n - 1, y) && Answers(answers, y, q, Alias(x))
  }

  /** After `n` unambiguous aliases the chain stops, with this answer. */
  ghost predicate StopsAt(answers: set<Record>, q: Question, n: nat, view: OwnerAnswer) {
    !view.Alias? && exists x :: ReachedBy(answers, q, n, x) && Answers(answers, x, q, view)
  }

  ghost predicate StopsWithin(answers: set<Record>, q: Question, bound: nat, view: OwnerAnswer) {
    exists n: nat :: n <= bound && StopsAt(answers, q, n, view)
  }

  ghost predicate DeniesByAuthority(answers: set<Record>, authorities: set<Record>, qclass: nat) {
    answers == {} || exists r | r in authorities :: r.dnsClass == qclass && r.data == SoaData
  }

  /** The verdict when no record of the requested kind was found and `alias` tells whether one was followed. */
  ghost function Unanswered(answers: set<Record>, authorities: set<Record>, qclass: nat, alias: bool)
    : ResponseDisposition
  {
    if DeniesByAuthority(answers, authorities, qclass) then DefinitiveNegative(NoData)
    else if alias then IncompleteAlias
    else Other
  }

  /** The verdict for an ordinary record type, given how far the alias chain may be followed. */
  ghost function ChainDisposition(answers: set<Record>, authorities: set<Record>, q: Question,
                                  found: bool, dangling: bool): ResponseDisposition
  {
    if found then CompletePositive
    else if dangling then
      Unanswered(answers, authorities, q.qclass, exists t :: Answers(answers, q.name, q, Alias(t)))
    else Other
  }

  ghost function Disposition(answers: set<Record>, authorities: set<Record>, rcode: Rcode,
                             first: Option<Question>, question: Option<Question>): ResponseDisposition
  {
    if question.Some? && first.Some? && first != question then Other
    else if rcode.NxDomain? then DefinitiveNegative(NegativeName)
    else if !rcode.NoError? then Other
    else if question.None? then
      if answers == {} then DefinitiveNegative(NoData) else CompletePositive
    else
      var q := question.value;
      if q.qtype.AnyType? then
        if exists r | r in answers :: r.At(q.name, q.qclass) then CompletePositive
        else Unanswered(answers, authorities, q.qclass, false)
      else if q.qtype.CnameType? then
        if HasRequested(answers, q.name, q) then CompletePositive
        else Unanswered(answers, authorities, q.qclass, false)
      else
        ChainDisposition(answers, authorities, q,
                         StopsWithin(answers, q, MAX_CNAME_HOPS, Requested),
                         StopsWithin(answers, q, MAX_CNAME_HOPS, NoAnswer))
  }

  // ---- The chain is a path ------------------------------------------------------------------

  lemma AnswersUnique(answers: set<Record>, owner: Name, q: Question, v: OwnerAnswer, w: OwnerAnswer)
    requires Answers(answers, owner, q, v) && Answers(answers, owner, q, w)
    ensures v == w
  {
  }

  lemma {:induction false} ReachedUnique(answers: set<Record>, q: Question, n: nat, x: Name, y: Name)
    requires ReachedBy(answers, q, n, x) && ReachedBy(answers, q, n, y)
    ensures x == y
  {
    if n > 0 {
      var x' :| ReachedBy(answers, q, n - 1, x') && Answers(answers, x', q, Alias(x));
      var y' :| ReachedBy(answers, q, n - 1, y') && Answers(answers, y', q, Alias(y));
      ReachedUnique(answers, q, n - 1, x', y');
    }
  }

  /** A chain that has reached step `n` had an alias at every earlier step, so it stopped nowhere before. */
  lemma {:induction false} NoEarlierStop(answers: set<Record>, q: Question, m: nat, n: nat, x: Name, view: OwnerAnswer)
    requires m < n && ReachedBy(answers, q, n, x)
    ensures !StopsAt(answers, q, m, view)
  {
    var y :| ReachedBy(answers, q, n - 1, y) && Answers(answers, y, q, Alias(x));
    if m < n - 1 {
      NoEarlierStop(answers, q, m, n - 1, y, view);
    } else if StopsAt(answers, q, m, view) {
      var z :| ReachedBy(answers, q, m, z) && Answers(answers, z, q, view);
      ReachedUnique(answers, q, m, y, z);
      AnswersUnique(answers, y, q, view, Alias(x));
    }
  }

  /** The chain stops at most once. */
  lemma StopUnique(answers: set<Record>, q: Question, m: nat, v: OwnerAnswer, n: nat, w: OwnerAnswer)
    requires StopsAt(answers, q, m, v) && StopsAt(answers, q, n, w)
    ensures m == n && v == w
  {
    var x :| ReachedBy(answers, q, m, x) && Answers(answers, x, q, v);
    var y :| ReachedBy(answers, q, n, y) && Answers(answers, y, q, w);
    if m < n {
      NoEarlierStop(answers, q, m, n, y, v);
    } else if n < m {
      NoEarlierStop(answers, q, n, m, x, w);
    } else {
      ReachedUnique(answers, q, n, x, y);
      AnswersUnique(answers, x, q, v, w);
    }
  }

  /** A name that is its own alias is a step the chain repeats for ever. */
  lemma {:induction false} SelfAliasForever(answers: set<Record>, q: Question, n: nat, x: Name, m: nat,
                                            view: OwnerAnswer)
    requires ReachedBy(answers, q, n, x) && Answers(answers, x, q, Alias(x))
    ensures !StopsAt(answers, q, m, view)
  {
    if m < n {
      NoEarlierStop(answers, q, m, n, x, view);
    } else {
      SelfAliasStays(answers, q, n, x, m + 1);
      NoEarlierStop(answers, q, m, m + 1, x, view);
    }
  }

  lemma {:induction false} SelfAliasStays(answers: set<Record>, q: Question, n: nat, x: Name, m: nat)
    requires n <= m && ReachedBy(answers, q, n, x) && Answers(answers, x, q, Alias(x))
    ensures ReachedBy(answers, q, m, x)
  {
    if n < m {
      SelfAliasStays(answers, q, n, x, m - 1);
    }
  }

  // ---- The algorithm ------------------------------------------------------------------------

  /** One pass over the answer section for one owner name. */
  method InspectAnswersAtName(answers: seq<Record>, owner: Name, q: Question) returns (view: OwnerAnswer)
    ensures Answers(ToSet(answers), owner, q, view)
  {
    var cnameTarget: Option<Name> := None;
    var conflicting := false;
    var i := 0;
    while i < |answers|
      invariant 0 <= i <= |answers|
      invariant !HasRequested(ToSet(answers[..i]), owner, q)
      invariant cnameTarget.None? ==> forall t :: !HasTarget(ToSet(answers[..i]), owner, q, t)
      invariant cnameTarget.Some? ==> HasTarget(ToSet(answers[..i]), owner, q, cnameTarget.value)
      invariant conflicting <==>
                cnameTarget.Some? && exists t :: t != cnameTarget.value && HasTarget(ToSet(answers[..i]), owner, q, t)
    {
      var r := answers[i];
      ScanStep(answers, i, owner, q);
      i := i + 1;
      if !r.At(owner, q.qclass) {
        continue;
      }
      if r.data.RrType() == q.qtype {
        assert r in ToSet(answers);
        return Requested;
      }
      if r.data.CnameData? {
        var candidate := r.data.target;
        if cnameTarget.Some? {
          conflicting := conflicting || cnameTarget.value != candidate;
        } else {
          cnameTarget := Some(candidate);
        }
      }
    }
    assert answers[..i] == answers;
    if conflicting {
      view := ConflictingAlias;
    } else if cnameTarget.Some? {
      view := Alias(cnameTarget.value);
    } else {
      view := NoAnswer;
    }
  }

  lemma ScanStep(answers: seq<Record>, i: nat, owner: Name, q: Question)
    requires i < |answers|
    ensures ToSet(answers[..i + 1]) == ToSet(answers[..i]) + {answers[i]}
    ensures HasRequested(ToSet(answers[..i + 1]), owner, q) <==>
            HasRequested(ToSet(answers[..i]), owner, q)
            || (answers[i].At(owner, q.qclass) && answers[i].data.RrType() == q.qtype)
    ensures forall t :: HasTarget(ToSet(answers[..i + 1]), owner, q, t) <==>
            HasTarget(ToSet(answers[..i]), owner, q, t)
            || (answers[i].At(owner, q.qclass) && answers[i].data == CnameData(t))
  {
    assert answers[..i + 1] == answers[..i] + [answers[i]];
  }

  method HasAnyAnswerAtName(answers: seq<Record>, owner: Name, qclass: nat) returns (found: bool)
    ensures found <==> exists r | r in ToSet(answers) :: r.At(owner, qclass)
  {
    var i := 0;
    while i < |answers|
      invariant 0 <= i <= |answers|
      invariant forall r | r in ToSet(answers[..i]) :: !r.At(owner, qclass)
    {
      if answers[i].At(owner, qclass) {
        assert answers[i] in ToSet(answers);
        return true;
      }
      assert answers[..i + 1] == answers[..i] + [answers[i]];
      i := i + 1;
    }
    assert answers[..i] == answers;
    found := false;
  }

  /** A record of the queried type itself stands at the queried name. */
  method HasRequestedAnswer(answers: seq<Record>, q: Question) returns (found: bool)
    ensures found <==> HasRequested(ToSet(answers), q.name, q)
  {
    var i := 0;
    while i < |answers|
      invariant 0 <= i <= |answers|
      invariant !HasRequested(ToSet(answers[..i]), q.name, q)
    {
      if answers[i].At(q.name, q.qclass) && answers[i].data.RrType() == q.qtype {
        assert answers[i] in ToSet(answers);
        return true;
      }
      ScanStep(answers, i, q.name, q);
      i := i + 1;
    }
    assert answers[..i] == answers;
    found := false;
  }

  method HasNegativeSoaForClass(authorities: seq<Record>, qclass: nat) returns (found: bool)
    ensures found <==> exists r | r in ToSet(authorities) :: r.dnsClass == qclass && r.data == SoaData
  {
    var i := 0;
    while i < |authorities|
      invariant 0 <= i <= |authorities|
      invariant forall r | r in ToSet(authorities[..i]) :: r.dnsClass != qclass || r.data != SoaData
    {
      if authorities[i].dnsClass == qclass && authorities[i].data.RrType() == SoaType {
        assert authorities[i] in ToSet(authorities);
        return true;
      }
      assert authorities[..i + 1] == authorities[..i] + [authorities[i]];
      i := i + 1;
    }
    assert authorities[..i] == authorities;
    found := false;
  }

  method DenyOr(response: Message, qclass: nat, alias: bool) returns (d: ResponseDisposition)
    ensures d == Unanswered(ToSet(response.answers), ToSet(response.authorities), qclass, alias)
  {
    var negative := HasNegativeSoaForClass(response.authorities, qclass);
    assert response.answers == [] <==> ToSet(response.answers) == {} by {
      if response.answers != [] {
        assert response.answers[0] in ToSet(response.answers);
      }
    }
    d := if response.answers == [] || negative then DefinitiveNegative(NoData)
         else if alias then IncompleteAlias else Other;
  }

  /** Follow the alias chain with a hop counter and no visited set. */
  method FollowAliases(response: Message, q: Question) returns (d: ResponseDisposition)
    ensures var answers := ToSet(response.answers);
            d == ChainDisposition(answers, ToSet(response.authorities), q,
                                  StopsWithin(answers, q, MAX_CNAME_HOPS, Requested),
                                  StopsWithin(answers, q, MAX_CNAME_HOPS, NoAnswer))
  {
    ghost var answers := ToSet(response.answers);
    var current := q.name;
    var sawAlias := false;
    var hop := 0;
    while true
      invariant 0 <= hop <= MAX_CNAME_HOPS
      invariant ReachedBy(answers, q, hop, current)
      invariant sawAlias <==> hop > 0
      decreases MAX_CNAME_HOPS - hop
    {
      var view := InspectAnswersAtName(response.answers, current, q);
      match view {
        case Requested =>
          assert StopsAt(answers, q, hop, Requested);
          return CompletePositive;
        case ConflictingAlias =>
          assert StopsAt(answers, q, hop, ConflictingAlias);
          OtherStop(answers, q, hop, ConflictingAlias);
          return Other;
        case NoAnswer =>
          assert StopsAt(answers, q, hop, NoAnswer);
          OtherStop(answers, q, hop, NoAnswer);
          FollowedSomeAlias(answers, q, hop, current);
          break;
        case Alias(target) =>
          assert ReachedBy(answers, q, hop + 1, target);
          if hop == MAX_CNAME_HOPS || target == current {
            NoStopWithin(answers, q, hop, current, target);
            return Other;
          }
          sawAlias := true;
          current := target;
          hop := hop + 1;
      }
    }
    d := DenyOr(response, q.qclass, sawAlias);
  }

  lemma OtherStop(answers: set<Record>, q: Question, n: nat, view: OwnerAnswer)
    requires n <= MAX_CNAME_HOPS && StopsAt(answers, q, n, view)
    ensures forall w :: StopsWithin(answers, q, MAX_CNAME_HOPS, w) <==> w == view
  {
    forall w | StopsWithin(answers, q, MAX_CNAME_HOPS, w)
      ensures w == view
    {
      var m: nat :| m <= MAX_CNAME_HOPS && StopsAt(answers, q, m, w);
      StopUnique(answers, q, n, view, m, w);
    }
  }

  /** The chain went past the queried name exactly when that name is an alias. */
  lemma {:induction false} FollowedSomeAlias(answers: set<Record>, q: Question, n: nat, x: Name)
    requires ReachedBy(answers, q, n, x) && Answers(answers, x, q, NoAnswer)
    ensures n > 0 <==> exists t :: Answers(answers, q.name, q, Alias(t))
  {
    if n > 0 {
      FirstStepIsAlias(answers, q, n, x);
    } else if t :| Answers(answers, q.name, q, Alias(t)) {
      AnswersUnique(answers, x, q, NoAnswer, Alias(t));
    }
  }

  lemma {:induction false} FirstStepIsAlias(answers: set<Record>, q: Question, n: nat, x: Name)
    requires n > 0 && ReachedBy(answers, q, n, x)
    ensures exists t :: Answers(answers, q.name, q, Alias(t))
  {
    var y :| ReachedBy(answers, q, n - 1, y) && Answers(answers, y, q, Alias(x));
    if n > 1 {
      FirstStepIsAlias(answers, q, n - 1, y);
    }
  }

  lemma NoStopWithin(answers: set<Record>, q: Question, n: nat, x: Name, target: Name)
    requires ReachedBy(answers, q, n, x) && Answers(answers, x, q, Alias(target))
    requires n == MAX_CNAME_HOPS || target == x
    ensures forall view :: !StopsWithin(answers, q, MAX_CNAME_HOPS, view)
  {
    forall m: nat, view | m <= MAX_CNAME_HOPS
      ensures !StopsAt(answers, q, m, view)
    {
      if n == MAX_CNAME_HOPS {
        assert ReachedBy(answers, q, n + 1, target);
        NoEarlierStop(answers, q, m, n + 1, target, view);
      } else {
        SelfAliasForever(answers, q, n, x, m, view);
      }
    }
  }

  method ClassifyResponse(response: Message, question: Option<Question>) returns (d: ResponseDisposition)
    ensures d == Disposition(ToSet(response.answers), ToSet(response.authorities), response.rcode,
                             response.FirstQuestion(), question)
  {
    if question.Some? && response.FirstQuestion().Some? && response.FirstQuestion().value != question.value {
      return Other;
    }
    match response.rcode {
      case NxDomain => return DefinitiveNegative(NegativeName);
      case OtherRcode(_) => return Other;
      case NoError =>
    }
    if question.None? {
      assert response.answers != [] ==> response.answers[0] in ToSet(response.answers);
      return if response.answers == [] then DefinitiveNegative(NoData) else CompletePositive;
    }
    var q := question.value;
    if q.qtype.AnyType? {
      var found := HasAnyAnswerAtName(response.answers, q.name, q.qclass);
      if found {
        return CompletePositive;
      }
      d := DenyOr(response, q.qclass, false);
    } else if q.qtype.CnameType? {
      var found := HasRequestedAnswer(response.answers, q);
      if found {
        return CompletePositive;
      }
      d := DenyOr(response, q.qclass, false);
    } else {
      d := FollowAliases(response, q);
    }
  }
}

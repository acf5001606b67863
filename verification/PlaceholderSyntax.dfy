/**
 * Placeholder syntax: a string is cut into tokens without looking at any environment,
 * and each token is then rendered on its own.
 */
module PlaceholderSyntax {
  import opened Wrappers
  import opened Text

  /**
   * `Escape` is the `$$` directly before a `{`, and `DoubleDollar` any other `$$`. A
   * `Plain` dollar is one that neither starts a pair nor opens a placeholder.
   */
  datatype Token =
    | Plain(c: char)
    | DoubleDollar
    | Escape
    | Placeholder(body: string)
    | Unterminated(body: string)

  datatype Problem = UndefinedVariable(name: string) | UnterminatedPlaceholder | EmptyName | EmptyExplicitName

  type Lookup = string -> Option<string>

  const BUILTIN_KEYS: set<string> := {
    "qname", "qtype", "qtype_name", "qclass", "qclass_name", "client_ip", "client_port", "server_name", "url_path",
    "marks", "has_resp", "rcode", "rcode_name", "resp_ip", "cron_plugin_tag", "cron_job_name", "cron_trigger_kind",
    "cron_scheduled_at_unix_ms"
  }

  predicate StartsWith(s: string, c: char) {
    s != [] && s[0] == c
  }

  // ---- Tokens --------------------------------------------------------------------------------

  /** The text a token was read from. */
  function Spelling(t: Token): string {
    match t
    case Plain(c) => [c]
    case DoubleDollar => "$$"
    case Escape => "$$"
    case Placeholder(body) => "${" + body + "}"
    case Unterminated(body) => "${" + body
  }

  function Source(tokens: seq<Token>): string {
    if tokens == [] then "" else Spelling(tokens[0]) + Source(tokens[1..])
  }

  /** The token may stand directly before the text `rest`. */
  predicate Fits(t: Token, rest: string) {
    match t
    case Plain(c) => c == '$' ==> !StartsWith(rest, '$') && !StartsWith(rest, '{')
    case DoubleDollar => !StartsWith(rest, '{')
    case Escape => StartsWith(rest, '{')
    case Placeholder(body) => '}' !in body
    case Unterminated(body) => '}' !in body && rest == ""
  }

  predicate WellLexed(tokens: seq<Token>) {
    tokens == [] || (Fits(tokens[0], Source(tokens[1..])) && WellLexed(tokens[1..]))
  }

  /** The position of the first closing brace, or the length. */
  function BodyEnd(s: string): (n: nat)
    ensures n <= |s| && '}' !in s[..n] && (n < |s| ==> s[n] == '}')
  {
    if s == [] || s[0] == '}' then 0
    else
      assert s[..1 + BodyEnd(s[1..])] == [s[0]] + s[1..][..BodyEnd(s[1..])];
      1 + BodyEnd(s[1..])
  }

  function FirstToken(s: string): Token
    requires s != ""
  {
    if s[0] != '$' then Plain(s[0])
    else if StartsWith(s[1..], '$') then
      if StartsWith(s[2..], '{') then Escape else DoubleDollar
    else if StartsWith(s[1..], '{') then
      var n := BodyEnd(s[2..]);
      if n < |s[2..]| then Placeholder(s[2..][..n]) else Unterminated(s[2..])
    else Plain('$')
  }

  lemma FirstTokenSpelled(s: string)
    requires s != ""
    ensures Spelling(FirstToken(s)) <= s && Spelling(FirstToken(s)) != ""
    ensures Fits(FirstToken(s), s[|Spelling(FirstToken(s))|..])
  {
    if s[0] == '$' && StartsWith(s[1..], '{') {
      var n := BodyEnd(s[2..]);
      assert s == "${" + s[2..];
      assert s[2..][..|s[2..]|] == s[2..];
      if n < |s[2..]| {
        assert s[2..] == s[2..][..n] + "}" + s[2..][n + 1..];
      }
    }
  }

  function Tokenise(s: string): seq<Token>
    decreases |s|
  {
    if s == "" then []
    else
      FirstTokenSpelled(s);
      [FirstToken(s)] + Tokenise(s[|Spelling(FirstToken(s))|..])
  }

  /** Cutting loses nothing and respects the lexical rules. */
  lemma {:induction false} TokeniseSpells(s: string)
    ensures Source(Tokenise(s)) == s && WellLexed(Tokenise(s))
    decreases |s|
  {
    hide FirstToken, Fits, Spelling;
    if s != "" {
      FirstTokenSpelled(s);
      var t := FirstToken(s);
      var rest := s[|Spelling(t)|..];
      TokeniseSpells(rest);
      assert Tokenise(s)[0] == t && Tokenise(s)[1..] == Tokenise(rest);
    }
  }

  lemma {:induction false} BodyEndFound(body: string, rest: string)
    requires '}' !in body
    ensures BodyEnd(body + "}" + rest) == |body|
    ensures BodyEnd(body) == |body|
  {
    if body != "" {
      BodyEndFound(body[1..], rest);
      assert (body + "}" + rest)[1..] == body[1..] + "}" + rest;
    }
  }

  /** The rules leave no choice: the token that fits is the first token of the text. */
  lemma FitsIsFirst(t: Token, rest: string)
    requires Fits(t, rest)
    ensures FirstToken(Spelling(t) + rest) == t
  {
    var s := Spelling(t) + rest;
    assert s != "";
    match t {
      case Plain(c) =>
        assert s[1..] == rest;
      case DoubleDollar =>
        assert s[2..] == rest;
      case Escape =>
        assert s[2..] == rest;
      case Placeholder(body) =>
        OpensFirst(s, body + "}" + rest);
        BodyEndFound(body, rest);
        assert (body + "}" + rest)[..|body|] == body;
      case Unterminated(body) =>
        OpensFirst(s, body);
        BodyEndFound(body, rest);
    }
  }

  /** A text that starts with `${` opens a placeholder. */
  lemma OpensFirst(s: string, tail: string)
    requires s == "${" + tail
    ensures s != ""
    ensures FirstToken(s) == if BodyEnd(tail) < |tail| then Placeholder(tail[..BodyEnd(tail)]) else Unterminated(tail)
  {
    assert s[1..] == "{" + tail && s[2..] == tail;
  }

  /** There is only one way to read a text. */
  lemma {:induction false} TokeniseUnique(tokens: seq<Token>)
    requires WellLexed(tokens)
    ensures Tokenise(Source(tokens)) == tokens
  {
    hide Fits, FirstToken;
    if tokens != [] {
      var rest := Source(tokens[1..]);
      FitsIsFirst(tokens[0], rest);
      TokeniseUnique(tokens[1..]);
      var s := Spelling(tokens[0]) + rest;
      assert s != "" && s[|Spelling(tokens[0])|..] == rest;
    }
  }

  // ---- Bodies --------------------------------------------------------------------------------

  /** The first position of `:-`, or the length. */
  function DefaultMark(body: string): (n: nat)
    ensures n <= |body|
    ensures n < |body| ==> n + 2 <= |body| && body[n] == ':' && body[n + 1] == '-'
    ensures !MarkBefore(body, n)
  {
    if |body| < 2 then |body|
    else if body[0] == ':' && body[1] == '-' then 0
    else
      var n := DefaultMark(body[1..]);
      assert MarkBefore(body, 1 + n) ==> MarkBefore(body[1..], n) by {
        assert forall i | 0 < i < 1 + n && i + 1 < |body| :: body[1..][i - 1] == body[i] && body[1..][i] == body[i + 1];
      }
      1 + n
  }

  /** Some `:-` starts before position `n`. */
  ghost predicate MarkBefore(body: string, n: nat) {
    exists i :: 0 <= i < n && i + 1 < |body| && body[i] == ':' && body[i + 1] == '-'
  }

  datatype Reference = RuntimeTemplate | Variable(name: string, default: Option<string>)

  /** What a placeholder body refers to; the environment plays no part. */
  function Resolve(body: string): Result<Reference, Problem> {
    var mark := DefaultMark(body);
    var name := body[..mark];
    var default := if mark < |body| then Some(body[mark + 2..]) else None;
    if name == "" then Failure(EmptyName)
    else if "env:" <= name then
      if name[4..] == "" then Failure(EmptyExplicitName) else Success(Variable(name[4..], default))
    else if default.None? && Trim(name) in BUILTIN_KEYS then Success(RuntimeTemplate)
    else Success(Variable(name, default))
  }

  /** A name with its explicit prefix, and a default. */
  function Named(name: string, default: Option<string>): Result<Reference, Problem> {
    if name == "" then Failure(EmptyName)
    else if name == "env:" then Failure(EmptyExplicitName)
    else Success(Variable(if "env:" <= name then name[4..] else name, default))
  }

  ghost predicate HasMark(s: string) {
    MarkBefore(s, |s|)
  }

  /** Every body is a name, or a name and a default behind the first `:-`; only a bare name may be a runtime key. */
  lemma ResolveSpelled(name: string, d: string)
    requires !HasMark(name)
    ensures Resolve(name + ":-" + d) == Named(name, Some(d))
    ensures Resolve(name) == if !("env:" <= name) && name != "" && Trim(name) in BUILTIN_KEYS
                             then Success(RuntimeTemplate) else Named(name, None)
  {
    var body := name + ":-" + d;
    assert body[|name|] == ':' && body[|name| + 1] == '-';
    var n, m := DefaultMark(body), DefaultMark(name);
    assert n == |name| && m == |name|;
    assert body[..n] == name && body[n + 2..] == d && name[..m] == name;
  }

  /** The text of a variable: a default also replaces an empty value. */
  function ValueOf(name: string, default: Option<string>, lookup: Lookup): Result<string, Problem> {
    match (lookup(name), default)
    case (Some(value), Some(d)) => Success(if value == "" then d else value)
    case (Some(value), None) => Success(value)
    case (None, Some(d)) => Success(d)
    case (None, None) => Failure(UndefinedVariable(name))
  }

  function Render(t: Token, lookup: Lookup): Result<string, Problem> {
    match t
    case Plain(c) => Success([c])
    case DoubleDollar => Success("$$")
    case Escape => Success("$")
    case Unterminated(_) => Failure(UnterminatedPlaceholder)
    case Placeholder(body) =>
      var reference :- Resolve(body);
      match reference
      case RuntimeTemplate => Success(Spelling(t))
      case Variable(name, default) => ValueOf(name, default, lookup)
  }

  /** All renderings in a row, or the first problem. */
  function Substitute(tokens: seq<Token>, lookup: Lookup): Result<string, Problem> {
    if tokens == [] then Success("")
    else
      var first :- Render(tokens[0], lookup);
      var rest :- Substitute(tokens[1..], lookup);
      Success(first + rest)
  }

  function Expand(s: string, lookup: Lookup): Result<string, Problem> {
    Substitute(Tokenise(s), lookup)
  }

  // ---- The environment is consulted only by name ---------------------------------------------

  function NameIn(t: Token): set<string> {
    if t.Placeholder? && Resolve(t.body).Success? && Resolve(t.body).value.Variable?
    then {Resolve(t.body).value.name}
    else {}
  }

  function NamesIn(tokens: seq<Token>): set<string> {
    if tokens == [] then {} else NameIn(tokens[0]) + NamesIn(tokens[1..])
  }

  lemma {:induction false} SubstituteAgrees(tokens: seq<Token>, one: Lookup, other: Lookup)
    requires forall name | name in NamesIn(tokens) :: one(name) == other(name)
    ensures Substitute(tokens, one) == Substitute(tokens, other)
  {
    if tokens != [] {
      assert forall name | name in NameIn(tokens[0]) :: name in NamesIn(tokens);
      SubstituteAgrees(tokens[1..], one, other);
    }
  }

  /** Two environments that agree on the names a text mentions expand it alike. */
  lemma OnlyNamesMatter(s: string, one: Lookup, other: Lookup)
    requires forall name | name in NamesIn(Tokenise(s)) :: one(name) == other(name)
    ensures Expand(s, one) == Expand(s, other)
  {
    SubstituteAgrees(Tokenise(s), one, other);
  }

  lemma {:induction false} SubstituteConcat(before: seq<Token>, after: seq<Token>, lookup: Lookup)
    ensures Substitute(before + after, lookup) ==
            match Substitute(before, lookup)
            case Failure(problem) => Failure(problem)
            case Success(text) =>
              match Substitute(after, lookup)
              case Failure(problem) => Failure(problem)
              case Success(rest) => Success(text + rest)
  {
    hide Render;
    if before == [] {
      assert before + after == after;
      assert Substitute(after, lookup).Success? ==>
             "" + Substitute(after, lookup).value == Substitute(after, lookup).value;
    } else {
      SubstituteConcat(before[1..], after, lookup);
      assert (before + after)[0] == before[0] && (before + after)[1..] == before[1..] + after;
      var first, middle, rest := Render(before[0], lookup), Substitute(before[1..], lookup), Substitute(after, lookup);
      if first.Success? && middle.Success? && rest.Success? {
        assert first.value + (middle.value + rest.value) == (first.value + middle.value) + rest.value;
      }
    }
  }

  /**
   * What a token renders to goes between the expansions of what stands on both sides as it
   * is: dollars and braces in it open nothing, not even together with the text around it.
   */
  lemma InsertedVerbatim(before: seq<Token>, t: Token, after: seq<Token>, lookup: Lookup)
    ensures && WellLexed(before + [t] + after)
            && Substitute(before, lookup).Success? && Render(t, lookup).Success? && Substitute(after, lookup).Success?
            ==> Expand(Source(before + [t] + after), lookup) ==
                Success(Substitute(before, lookup).value + Render(t, lookup).value + Substitute(after, lookup).value)
  {
    hide WellLexed, Tokenise, Render;
    if WellLexed(before + [t] + after) && Render(t, lookup).Success? {
      TokeniseUnique(before + [t] + after);
      SubstituteConcat(before + [t], after, lookup);
      SubstituteConcat(before, [t], lookup);
      assert [t][1..] == [] && Render(t, lookup).value + "" == Render(t, lookup).value;
    }
  }

  /** What a variable renders to: its value, unless it is missing or empty and there is a default. */
  function Inserted(name: string, default: Option<string>, lookup: Lookup): Option<string> {
    if default.Some? && lookup(name) in {None, Some("")} then default else lookup(name)
  }

  /** Environment text and default text alike are inserted verbatim. */
  lemma VariableVerbatim(before: seq<Token>, body: string, after: seq<Token>, lookup: Lookup, name: string,
                         default: Option<string>)
    ensures && WellLexed(before + [Placeholder(body)] + after)
            && Resolve(body) == Success(Variable(name, default)) && Inserted(name, default, lookup).Some?
            && Substitute(before, lookup).Success? && Substitute(after, lookup).Success?
            ==> Expand(Source(before + [Placeholder(body)] + after), lookup) ==
                Success(Substitute(before, lookup).value + Inserted(name, default, lookup).value +
                        Substitute(after, lookup).value)
  {
    hide Resolve, WellLexed, Tokenise, Expand, Source, Substitute;
    InsertedVerbatim(before, Placeholder(body), after, lookup);
  }

  /** A bare runtime key comes out exactly as it was written, blanks included, whatever variables are set. */
  lemma RuntimeKeyKept(before: seq<Token>, body: string, after: seq<Token>, lookup: Lookup)
    ensures && WellLexed(before + [Placeholder(body)] + after)
            && !HasMark(body) && !("env:" <= body) && body != "" && Trim(body) in BUILTIN_KEYS
            && Substitute(before, lookup).Success? && Substitute(after, lookup).Success?
            ==> Expand(Source(before + [Placeholder(body)] + after), lookup) ==
                Success(Substitute(before, lookup).value + ("${" + body + "}") + Substitute(after, lookup).value)
  {
    hide Resolve, WellLexed, Tokenise, Expand, Source, Substitute, HasMark, Trim;
    if !HasMark(body) {
      ResolveSpelled(body, "");
      InsertedVerbatim(before, Placeholder(body), after, lookup);
    }
  }

  /** A failing expansion reports the problem of the first token that does not render. */
  lemma {:induction false} FirstProblem(tokens: seq<Token>, lookup: Lookup) returns (i: nat)
    requires Substitute(tokens, lookup).Failure?
    ensures i < |tokens| && Render(tokens[i], lookup) == Failure(Substitute(tokens, lookup).error)
    ensures forall j | 0 <= j < i :: Render(tokens[j], lookup).Success?
  {
    hide Render;
    if Render(tokens[0], lookup).Failure? {
      i := 0;
    } else {
      var later := FirstProblem(tokens[1..], lookup);
      i := later + 1;
      assert forall j | 0 < j < |tokens| :: tokens[j] == tokens[1..][j - 1];
    }
  }

  /** Which problem a token has. */
  lemma RenderProblem(t: Token, lookup: Lookup)
    ensures t.Unterminated? ==> Render(t, lookup) == Failure(UnterminatedPlaceholder)
    ensures t.Placeholder? && Resolve(t.body).Failure? ==> Render(t, lookup) == Failure(Resolve(t.body).error)
    ensures t.Placeholder? && Render(t, lookup).Failure? && Resolve(t.body).Success? ==>
              && Resolve(t.body).value.Variable? && Resolve(t.body).value.default.None?
              && lookup(Resolve(t.body).value.name).None?
              && Render(t, lookup) == Failure(UndefinedVariable(Resolve(t.body).value.name))
  {
    hide Resolve;
  }

  /** A token that renders in this environment: terminated, well named, and defined or defaulted. */
  predicate Renders(t: Token, lookup: Lookup) {
    && !t.Unterminated?
    && (t.Placeholder? ==>
          && Resolve(t.body).Success?
          && (Resolve(t.body).value.Variable? ==>
                lookup(Resolve(t.body).value.name).Some? || Resolve(t.body).value.default.Some?))
  }

  lemma RenderSucceedsIff(t: Token, lookup: Lookup)
    ensures Render(t, lookup).Success? <==> Renders(t, lookup)
  {
    hide Resolve;
  }

  lemma {:induction false} SubstituteSucceedsIff(tokens: seq<Token>, lookup: Lookup)
    ensures Substitute(tokens, lookup).Success? <==> forall t | t in tokens :: Renders(t, lookup)
  {
    hide Render, Renders;
    if tokens != [] {
      RenderSucceedsIff(tokens[0], lookup);
      SubstituteSucceedsIff(tokens[1..], lookup);
      assert forall t :: t in tokens <==> t == tokens[0] || t in tokens[1..];
    }
  }

  // ---- The quick test ------------------------------------------------------------------------

  predicate Contains(s: string, c: char, d: char) {
    exists i :: 0 <= i < |s| - 1 && s[i] == c && s[i + 1] == d
  }

  predicate NeedsExpansion(s: string) {
    Contains(s, '$', '{') || Contains(s, '$', '$')
  }

  /** A text that fails the quick test expands to itself, in every environment. */
  lemma {:induction false} QuickTestSound(s: string, lookup: Lookup)
    requires !NeedsExpansion(s)
    ensures Expand(s, lookup) == Success(s)
    decreases |s|
  {
    if s != "" {
      if s[0] == '$' && |s| > 1 {
        assert s[0 + 1] != '$' && s[0 + 1] != '{';
      }
      assert FirstToken(s) == Plain(s[0]);
      forall c, d | Contains(s[1..], c, d)
        ensures Contains(s, c, d)
      {
        var i :| 0 <= i < |s[1..]| - 1 && s[1..][i] == c && s[1..][i + 1] == d;
        assert s[i + 1] == c && s[i + 1 + 1] == d;
      }
      QuickTestSound(s[1..], lookup);
      assert Tokenise(s)[1..] == Tokenise(s[1..]);
      assert s == [s[0]] + s[1..];
    }
  }
}

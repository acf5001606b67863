/**
 * The scanner that expands one string, and the walk that expands a configuration tree.
 */
module PlaceholderExpansion {
  import opened Wrappers
  import opened Text
  import opened PlaceholderSyntax

  // ---- One string ----------------------------------------------------------------------------

  /** The result of expanding the whole text when `output` is what its first part gave. */
  function Prefixed(output: string, rest: Result<string, Problem>): Result<string, Problem> {
    match rest
    case Success(text) => Success(output + text)
    case Failure(problem) => Failure(problem)
  }

  lemma ExpandStep(s: string, lookup: Lookup, output: string)
    requires s != ""
    ensures var t := FirstToken(s);
            && |Spelling(t)| <= |s|
            && Prefixed(output, Expand(s, lookup)) ==
               if Render(t, lookup).Failure? then Failure(Render(t, lookup).error)
               else Prefixed(output + Render(t, lookup).value, Expand(s[|Spelling(t)|..], lookup))
  {
    FirstTokenSpelled(s);
    var t := FirstToken(s);
    assert Tokenise(s)[1..] == Tokenise(s[|Spelling(t)|..]);
    var rest := Expand(s[|Spelling(t)|..], lookup);
    if Render(t, lookup).Success? && rest.Success? {
      assert output + (Render(t, lookup).value + rest.value) == (output + Render(t, lookup).value) + rest.value;
    }
  }

  /** Read up to the closing brace; the position after it, or nothing when it is missing. */
  method ReadPlaceholderBody(input: string, start: nat) returns (r: Result<(string, nat), Problem>)
    requires start <= |input|
    ensures var n := BodyEnd(input[start..]);
            r == if start + n < |input| then Success((input[start..][..n], start + n + 1))
                 else Failure(UnterminatedPlaceholder)
  {
    var body := "";
    var i := start;
    while i < |input|
      invariant start <= i <= |input|
      invariant body == input[start..][..i - start]
      invariant i - start <= BodyEnd(input[start..])
    {
      var ch := input[i];
      assert input[start..][i - start] == ch;
      i := i + 1;
      if ch == '}' {
        return Success((body, i));
      }
      body := body + [ch];
    }
    r := Failure(UnterminatedPlaceholder);
  }

  method ExpandPlaceholders(input: string, lookup: Lookup) returns (r: Result<string, Problem>)
    ensures r == Expand(input, lookup)
  {
    hide Tokenise, Substitute, Expand, Resolve, FirstToken;
    var output := "";
    var i := 0;
    assert input[0..] == input;
    NothingExpanded(input, lookup);
    while i < |input|
      invariant 0 <= i <= |input|
      invariant Expand(input, lookup) == Prefixed(output, Expand(input[i..], lookup))
    {
      ghost var start := i;
      ExpandStep(input[i..], lookup, output);
      TokenAt(input, i);
      var ch := input[i];
      i := i + 1;
      if ch != '$' {
        output := output + [ch];
        continue;
      }
      if i < |input| && input[i] == '$' {
        i := i + 1;
        if i < |input| && input[i] == '{' {
          output := output + "$";
        } else {
          output := output + "$$";
        }
        assert input[start..][2..] == input[i..];
      } else if i < |input| && input[i] == '{' {
        i := i + 1;
        var read := ReadPlaceholderBody(input, i);
        if read.Failure? {
          return Failure(read.error);
        }
        var (body, next) := read.value;
        i := next;
        assert input[start..][|body| + 3..] == input[i..];
        var text := RenderBody(body, lookup);
        if text.Failure? {
          return text;
        }
        output := output + text.value;
      } else {
        output := output + "$";
      }
    }
    assert input[i..] == "";
    NothingLeft(output, lookup);
    r := Success(output);
  }

  lemma NothingExpanded(input: string, lookup: Lookup)
    ensures Prefixed("", Expand(input, lookup)) == Expand(input, lookup)
  {
    assert Expand(input, lookup).Success? ==> "" + Expand(input, lookup).value == Expand(input, lookup).value;
  }

  lemma NothingLeft(output: string, lookup: Lookup)
    ensures Prefixed(output, Expand("", lookup)) == Success(output)
  {
    assert output + "" == output;
  }

  /** The token at a position, read character by character. */
  lemma TokenAt(input: string, i: nat)
    requires i < |input|
    ensures FirstToken(input[i..]) ==
            if input[i] != '$' then Plain(input[i])
            else if i + 1 < |input| && input[i + 1] == '$' then
              (if i + 2 < |input| && input[i + 2] == '{' then Escape else DoubleDollar)
            else if i + 1 < |input| && input[i + 1] == '{' then
              var n := BodyEnd(input[i + 2..]);
              if i + 2 + n < |input| then Placeholder(input[i + 2..][..n]) else Unterminated(input[i + 2..])
            else Plain('$')
    ensures input[i..][1..] == input[i + 1..]
  {
    assert i + 1 < |input| ==> input[i..][2..] == input[i + 2..];
  }

  /** Split at the first `:-`: the name holds none, and both parts together are the body. */
  method SplitPlaceholderBody(body: string) returns (r: Result<(string, Option<string>), Problem>)
    ensures r.Failure? <==> body == "" || ":-" <= body
    ensures r.Failure? ==> r.error == EmptyName
    ensures r.Success? ==> r.value.0 != "" && !HasMark(r.value.0)
                           && body == r.value.0 + if r.value.1.Some? then ":-" + r.value.1.value else ""
  {
    var i := 0;
    while i < |body| && !(i + 1 < |body| && body[i] == ':' && body[i + 1] == '-')
      invariant 0 <= i <= |body| && !MarkBefore(body, i)
    {
      i := i + 1;
    }
    if i == 0 {
      assert body != "" ==> body[0..2] == ":-";
      return Failure(EmptyName);
    }
    MarkedAtOnce(body, i);
    assert !HasMark(body[..i]);
    if i < |body| {
      assert body == body[..i] + ":-" + body[i + 2..];
      return Success((body[..i], Some(body[i + 2..])));
    }
    assert body[..i] == body && body + "" == body;
    r := Success((body, None));
  }

  lemma MarkedAtOnce(body: string, n: nat)
    ensures n > 0 && ":-" <= body ==> MarkBefore(body, n)
  {
    if n > 0 && ":-" <= body {
      assert body[0] == ':' && body[0 + 1] == '-';
    }
  }

  /** Strip the explicit prefix, and tell whether it was there. */
  method ResolveLookupName(name: string) returns (r: Result<(string, bool), Problem>)
    ensures r.Failure? <==> name == "env:"
    ensures r.Failure? ==> r.error == EmptyExplicitName
    ensures r.Success? ==> name == (if r.value.1 then "env:" else "") + r.value.0
    ensures r.Success? ==> (r.value.1 <==> "env:" <= name)
  {
    if |name| < 4 || name[..4] != "env:" {
      return Success((name, false));
    }
    assert name == "env:" + name[4..];
    if name[4..] == "" {
      return Failure(EmptyExplicitName);
    }
    r := Success((name[4..], true));
  }

  method RenderBody(body: string, lookup: Lookup) returns (r: Result<string, Problem>)
    ensures r == Render(Placeholder(body), lookup)
  {
    hide Resolve, HasMark, Trim;
    var split := SplitPlaceholderBody(body);
    if split.Failure? {
      EmptyNamed(body);
      return Failure(split.error);
    }
    var (name, default) := split.value;
    BodyResolves(body, name, default);
    var resolved := ResolveLookupName(name);
    if resolved.Failure? {
      return Failure(resolved.error);
    }
    var (lookupName, explicitEnv) := resolved.value;
    NameResolves(name, lookupName, explicitEnv, default);
    if !explicitEnv && default.None? && Trim(name) in BUILTIN_KEYS {
      // Resolved per request, so the placeholder is kept as it is.
      return Success("${" + body + "}");
    }
    var value := lookup(lookupName);
    if value.Some? && default.Some? && value.value == "" {
      r := Success(default.value);
    } else if value.Some? {
      r := Success(value.value);
    } else if default.Some? {
      r := Success(default.value);
    } else {
      r := Failure(UndefinedVariable(lookupName));
    }
  }

  lemma BodyResolves(body: string, name: string, default: Option<string>)
    requires !HasMark(name) && body == name + if default.Some? then ":-" + default.value else ""
    ensures Resolve(body) == if default.None? && !("env:" <= name) && name != "" && Trim(name) in BUILTIN_KEYS
                             then Success(RuntimeTemplate) else Named(name, default)
  {
    hide Resolve, HasMark, Trim, Named;
    ResolveSpelled(name, if default.Some? then default.value else "");
    assert body == if default.Some? then name + ":-" + default.value else name;
  }

  lemma NameResolves(name: string, lookupName: string, explicitEnv: bool, default: Option<string>)
    requires name != "" && name != "env:" && name == (if explicitEnv then "env:" else "") + lookupName
    requires explicitEnv <==> "env:" <= name
    ensures Named(name, default) == Success(Variable(lookupName, default))
  {
    assert name[if explicitEnv then 4 else 0..] == lookupName;
  }

  lemma EmptyNamed(body: string)
    requires body == "" || ":-" <= body
    ensures Resolve(body) == Failure(EmptyName)
  {
    if body != "" {
      ResolveSpelled("", body[2..]);
      assert body == "" + ":-" + body[2..];
    }
  }

  // ---- Trees ---------------------------------------------------------------------------------

  datatype Value =
    | Null
    | Bool(b: bool)
    | Number(text: string)
    | String(s: string)
    | Sequence(items: seq<Value>)
    | Mapping(pairs: seq<Pair>)
    | Tagged(tag: string, inner: Value)

  datatype Pair = Pair(key: Value, value: Value)

  datatype ExpandError = ExpandError(problem: Problem, path: string)

  /**
   * What lies outside: the variables, how a YAML reader reads a bare scalar, and how a
   * composite mapping key is shown in a path.
   */
  datatype Outside = Outside(lookup: Lookup, reparse: string -> Option<Value>, showKey: Value -> string)

  predicate IsScalar(v: Value) {
    v.Null? || v.Bool? || v.Number? || v.String?
  }

  /** The scalar is exactly one placeholder, but for blanks around it. */
  predicate IsSinglePlaceholder(s: string) {
    var t := Trim(s);
    && |t| >= 3 && t[..2] == "${" && t[|t| - 1] == '}'
    && var body := t[2..|t| - 1];
       '}' !in body && !Contains(body, '$', '{')
  }

  /**
   * Only a scalar that was one placeholder may change its type, and only into what a reader
   * finds in the trimmed text; with a line break, an inner blank or a `#` it stays a string.
   */
  function RecoverScalar(original: string, expanded: string, reparse: string -> Option<Value>): (v: Value)
    ensures v == String(expanded) || (IsScalar(v) && !v.String? && reparse(Trim(expanded)) == Some(v))
    ensures v != String(expanded) ==> IsSinglePlaceholder(original) && '\n' !in expanded && '\r' !in expanded
                                      && '#' !in Trim(expanded) && forall c | c in Trim(expanded) :: !IsWhitespace(c)
  {
    if !IsSinglePlaceholder(original) then String(expanded)
    else if '\n' in expanded || '\r' in expanded then String(expanded)
    else
      var trimmed := Trim(expanded);
      if exists c | c in trimmed :: IsWhitespace(c) || c == '#' then String(expanded)
      else
        match reparse(trimmed)
        case Some(Number(n)) => Number(n)
        case Some(Bool(b)) => Bool(b)
        case Some(Null) => Null
        case _ => String(expanded)
  }

  function ExpandScalar(s: string, path: string, outside: Outside): Result<Value, ExpandError> {
    if !NeedsExpansion(s) then Success(String(s))
    else match Expand(s, outside.lookup)
      case Success(expanded) => Success(RecoverScalar(s, expanded, outside.reparse))
      case Failure(problem) => Failure(ExpandError(problem, path))
  }

  function Decimal(n: nat): string {
    if n < 10 then ["0123456789"[n]] else Decimal(n / 10) + ["0123456789"[n % 10]]
  }

  function ItemPath(path: string, i: nat): string {
    path + "[" + Decimal(i) + "]"
  }

  function KeyPath(path: string, key: Value, outside: Outside): string {
    path + "." + match key
                 case String(s) => s
                 case Number(n) => n
                 case Bool(b) => if b then "true" else "false"
                 case Null => "null"
                 case _ => outside.showKey(key)
  }

  /** Put a pair into an insertion-ordered mapping: an equal key keeps its place and takes the new value. */
  function Insert(pairs: seq<Pair>, pair: Pair): seq<Pair> {
    if pairs == [] then [pair]
    else if pairs[0].key == pair.key then [pair] + pairs[1..]
    else [pairs[0]] + Insert(pairs[1..], pair)
  }

  predicate KeyNeedsExpansion(key: Value) {
    key.String? && NeedsExpansion(key.s)
  }

  function ExpandKey(key: Value, path: string, outside: Outside): Result<Value, ExpandError> {
    if KeyNeedsExpansion(key) then ExpandScalar(key.s, KeyPath(path, key, outside), outside) else Success(key)
  }

  /** Insert the pairs one by one under their expanded keys. */
  function Rekey(pairs: seq<Pair>, path: string, outside: Outside): Result<seq<Pair>, ExpandError> {
    if pairs == [] then Success([])
    else
      var before :- Rekey(pairs[..|pairs| - 1], path, outside);
      var last := pairs[|pairs| - 1];
      var key :- ExpandKey(last.key, path, outside);
      Success(Insert(before, Pair(key, last.value)))
  }

  function ExpandValue(v: Value, path: string, outside: Outside): Result<Value, ExpandError>
    decreases v, 1
  {
    match v
    case String(s) => ExpandScalar(s, path, outside)
    case Sequence(items) =>
      var expanded :- ExpandItems(items, 0, path, outside);
      Success(Sequence(expanded))
    case Mapping(pairs) =>
      var expanded :- ExpandPairValues(pairs, path, outside);
      if exists p | p in expanded :: KeyNeedsExpansion(p.key) then
        var rekeyed :- Rekey(expanded, path, outside);
        Success(Mapping(rekeyed))
      else Success(Mapping(expanded))
    case _ => Success(v)
  }

  function ExpandItems(items: seq<Value>, i: nat, path: string, outside: Outside): (r: Result<seq<Value>, ExpandError>)
    ensures r.Success? ==> |r.value| == |items|
    decreases items, 0
  {
    if items == [] then Success([])
    else
      var first :- ExpandValue(items[0], ItemPath(path, i), outside);
      var rest :- ExpandItems(items[1..], i + 1, path, outside);
      Success([first] + rest)
  }

  function ExpandPairValues(pairs: seq<Pair>, path: string, outside: Outside): (r: Result<seq<Pair>, ExpandError>)
    ensures r.Success? ==> |r.value| == |pairs|
    decreases pairs, 0
  {
    if pairs == [] then Success([])
    else
      assert (pairs decreases to pairs[0]) && (pairs[0] decreases to pairs[0].value);
      var first :- ExpandValue(pairs[0].value, KeyPath(path, pairs[0].key, outside), outside);
      var rest :- ExpandPairValues(pairs[1..], path, outside);
      Success([Pair(pairs[0].key, first)] + rest)
  }

  // ---- The walk with one shared path buffer --------------------------------------------------

  function AfterItems(done: seq<Value>, rest: Result<seq<Value>, ExpandError>): Result<seq<Value>, ExpandError> {
    match rest
    case Success(items) => Success(done + items)
    case Failure(error) => Failure(error)
  }

  function AfterPairs(done: seq<Pair>, rest: Result<seq<Pair>, ExpandError>): Result<seq<Pair>, ExpandError> {
    match rest
    case Success(pairs) => Success(done + pairs)
    case Failure(error) => Failure(error)
  }

  class Walker {
    // Where the walk stands; segments are pushed before a recursive call and truncated after it.
    var path: string
    const outside: Outside

    constructor (outside: Outside)
      ensures path == "" && this.outside == outside
    {
      path := "";
      this.outside := outside;
    }

    /** The path is as before whenever the walk succeeds, and names the failing scalar otherwise. */
    method ExpandInValue(v: Value) returns (r: Result<Value, ExpandError>)
      modifies this`path
      ensures r == ExpandValue(v, old(path), outside)
      ensures r.Success? ==> path == old(path)
      decreases v, 1
    {
      match v {
        case String(s) =>
          r := ExpandString(s);
        case Sequence(items) =>
          var expanded := ExpandInSequence(items);
          r := if expanded.Success? then Success(Sequence(expanded.value)) else Failure(expanded.error);
        case Mapping(pairs) =>
          var expanded := ExpandInMapping(pairs);
          r := if expanded.Success? then Success(Mapping(expanded.value)) else Failure(expanded.error);
        case _ =>
          r := Success(v);
      }
    }

    method ExpandString(s: string) returns (r: Result<Value, ExpandError>)
      ensures r == ExpandScalar(s, path, outside)
    {
      if NeedsExpansion(s) {
        var expanded := ExpandPlaceholders(s, outside.lookup);
        if expanded.Failure? {
          return Failure(ExpandError(expanded.error, path));
        }
        r := Success(RecoverScalar(s, expanded.value, outside.reparse));
      } else {
        r := Success(String(s));
      }
    }

    method ExpandInSequence(items: seq<Value>) returns (r: Result<seq<Value>, ExpandError>)
      modifies this`path
      ensures r == ExpandItems(items, 0, old(path), outside)
      ensures r.Success? ==> path == old(path)
      decreases items, 0
    {
      var expanded: seq<Value> := [];
      var i := 0;
      assert items[0..] == items;
      AfterNoItems(ExpandItems(items, 0, path, outside));
      while i < |items|
        invariant 0 <= i <= |items| && path == old(path)
        invariant ExpandItems(items, 0, path, outside) ==
                  AfterItems(expanded, ExpandItems(items[i..], i, path, outside))
      {
        ghost var rest := items[i..];
        assert rest[0] == items[i] && rest[1..] == items[i + 1..];
        var saved := |path|;
        ghost var entry := path;
        path := ItemPath(path, i);
        var item := ExpandInValue(items[i]);
        if item.Failure? {
          return Failure(item.error);
        }
        path := path[..saved];
        assert path == entry;
        AfterOneMoreItem(expanded, item.value, ExpandItems(rest[1..], i + 1, path, outside));
        expanded := expanded + [item.value];
        i := i + 1;
      }
      assert items[i..] == [] && expanded + [] == expanded;
      r := Success(expanded);
    }

    method ExpandInMapping(pairs: seq<Pair>) returns (r: Result<seq<Pair>, ExpandError>)
      modifies this`path
      ensures Mapped(pairs, old(path), outside, r)
      ensures r.Success? ==> path == old(path)
      decreases pairs, 1
    {
      var walked := ExpandMappingValues(pairs);
      if walked.Failure? {
        return walked;
      }
      if exists p | p in walked.value :: KeyNeedsExpansion(p.key) {
        r := RekeyMapping(walked.value);
      } else {
        r := walked;
      }
    }

    /** First pass: the values, under their original keys. */
    method ExpandMappingValues(pairs: seq<Pair>) returns (r: Result<seq<Pair>, ExpandError>)
      modifies this`path
      ensures r == ExpandPairValues(pairs, old(path), outside)
      ensures r.Success? ==> path == old(path)
      decreases pairs, 0
    {
      var expanded: seq<Pair> := [];
      var i := 0;
      assert pairs[0..] == pairs;
      AfterNoPairs(ExpandPairValues(pairs, path, outside));
      while i < |pairs|
        invariant 0 <= i <= |pairs| && path == old(path)
        invariant ExpandPairValues(pairs, path, outside) ==
                  AfterPairs(expanded, ExpandPairValues(pairs[i..], path, outside))
      {
        ghost var rest := pairs[i..];
        assert rest[0] == pairs[i] && rest[1..] == pairs[i + 1..];
        var saved := |path|;
        ghost var entry := path;
        path := KeyPath(path, pairs[i].key, outside);
        assert (pairs decreases to pairs[i]) && (pairs[i] decreases to pairs[i].value);
        var value := ExpandInValue(pairs[i].value);
        if value.Failure? {
          return Failure(value.error);
        }
        path := path[..saved];
        assert path == entry;
        AfterOneMorePair(expanded, Pair(pairs[i].key, value.value), ExpandPairValues(rest[1..], path, outside));
        expanded := expanded + [Pair(pairs[i].key, value.value)];
        i := i + 1;
      }
      assert pairs[i..] == [] && expanded + [] == expanded;
      r := Success(expanded);
    }

    /** Second pass: rebuild the mapping under the expanded keys. */
    method RekeyMapping(pairs: seq<Pair>) returns (r: Result<seq<Pair>, ExpandError>)
      modifies this`path
      ensures r == Rekey(pairs, old(path), outside)
      ensures r.Success? ==> path == old(path)
    {
      var rebuilt: seq<Pair> := [];
      var i := 0;
      while i < |pairs|
        invariant 0 <= i <= |pairs| && path == old(path)
        invariant Rekey(pairs[..i], path, outside) == Success(rebuilt)
      {
        assert pairs[..i + 1][..i] == pairs[..i];
        var key := pairs[i].key;
        if KeyNeedsExpansion(key) {
          var saved := |path|;
          ghost var entry := path;
          path := KeyPath(path, key, outside);
          var expanded := ExpandString(key.s);
          if expanded.Failure? {
            RekeyFails(pairs, i, entry, outside);
            return Failure(expanded.error);
          }
          path := path[..saved];
          assert path == entry;
          key := expanded.value;
        }
        rebuilt := Insert(rebuilt, Pair(key, pairs[i].value));
        i := i + 1;
      }
      assert pairs[..i] == pairs;
      r := Success(rebuilt);
    }
  }

  ghost predicate Mapped(pairs: seq<Pair>, path: string, outside: Outside, r: Result<seq<Pair>, ExpandError>)
    decreases pairs, 2
  {
    match ExpandPairValues(pairs, path, outside)
    case Failure(error) => r == Failure(error)
    case Success(walked) =>
      r == if exists p | p in walked :: KeyNeedsExpansion(p.key) then Rekey(walked, path, outside) else Success(walked)
  }

  lemma AfterNoItems(rest: Result<seq<Value>, ExpandError>)
    ensures AfterItems([], rest) == rest
  {
    assert rest.Success? ==> [] + rest.value == rest.value;
  }

  lemma AfterOneMoreItem(done: seq<Value>, item: Value, rest: Result<seq<Value>, ExpandError>)
    ensures AfterItems(done + [item], rest) ==
            AfterItems(done, if rest.Success? then Success([item] + rest.value) else Failure(rest.error))
  {
    assert rest.Success? ==> done + [item] + rest.value == done + ([item] + rest.value);
  }

  lemma AfterNoPairs(rest: Result<seq<Pair>, ExpandError>)
    ensures AfterPairs([], rest) == rest
  {
    assert rest.Success? ==> [] + rest.value == rest.value;
  }

  lemma AfterOneMorePair(done: seq<Pair>, pair: Pair, rest: Result<seq<Pair>, ExpandError>)
    ensures AfterPairs(done + [pair], rest) ==
            AfterPairs(done, if rest.Success? then Success([pair] + rest.value) else Failure(rest.error))
  {
    assert rest.Success? ==> done + [pair] + rest.value == done + ([pair] + rest.value);
  }

  lemma {:induction false} RekeyFails(pairs: seq<Pair>, i: nat, path: string, outside: Outside)
    requires i < |pairs| && Rekey(pairs[..i], path, outside).Success?
    requires ExpandKey(pairs[i].key, path, outside).Failure?
    ensures Rekey(pairs, path, outside) == Failure(ExpandKey(pairs[i].key, path, outside).error)
    decreases |pairs|
  {
    var init := pairs[..|pairs| - 1];
    if i < |init| {
      assert init[..i] == pairs[..i];
      RekeyFails(init, i, path, outside);
    } else {
      assert init == pairs[..i];
    }
  }
}

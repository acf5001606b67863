/**
 * What expansion does to every leaf of a tree, in the given environment: which value each
 * string becomes, which error is reported and where.
 */
module PlaceholderMeaning {
  import opened Wrappers
  import opened Collections
  import opened Text
  import opened PlaceholderSyntax
  import opened PlaceholderExpansion
  import opened PlaceholderTree

  // ---- One string ----------------------------------------------------------------------------

  /** `${` and `}` around a body without either, but for blanks around it all. */
  lemma SinglePlaceholderIff(s: string)
    ensures IsSinglePlaceholder(s) <==>
            exists body :: TrimsTo(s, "${" + body + "}") && '}' !in body && !Contains(body, '$', '{')
  {
    TrimMeaning(s);
    var t := Trim(s);
    if IsSinglePlaceholder(s) {
      var body := t[2..|t| - 1];
      assert t == "${" + body + "}";
    }
    if body :| TrimsTo(s, "${" + body + "}") && '}' !in body && !Contains(body, '$', '{') {
      TrimUnique(s, t, "${" + body + "}");
      assert t[2..|t| - 1] == body && t[..2] == "${";
    }
  }

  lemma SingleNeedsExpansion(s: string)
    requires IsSinglePlaceholder(s)
    ensures NeedsExpansion(s)
  {
    TrimMeaning(s);
    var t := Trim(s);
    var before, after :| Blank(before) && Blank(after) && s == before + t + after;
    assert t[..2][0] == '$' && t[..2][1] == '{';
    assert s[|before|] == t[0] && s[|before| + 1] == t[1];
  }

  /** The expanded text may be read as a scalar of its own. */
  predicate Recovers(s: string, x: string) {
    && IsSinglePlaceholder(s)
    && '\n' !in x && '\r' !in x && '#' !in Trim(x)
    && forall c | c in Trim(x) :: !IsWhitespace(c)
  }

  predicate Typed(v: Option<Value>) {
    v.Some? && (v.value.Number? || v.value.Bool? || v.value.Null?)
  }

  /** What a string becomes: its expansion, read as a number, boolean or null if it was one placeholder. */
  predicate Becomes(s: string, w: Value, outside: Outside) {
    && Expand(s, outside.lookup).Success?
    && var x := Expand(s, outside.lookup).value;
       if Recovers(s, x) && Typed(outside.reparse(Trim(x))) then Some(w) == outside.reparse(Trim(x))
       else w == String(x)
  }

  lemma ScalarBecomes(s: string, path: string, outside: Outside)
    ensures match ExpandScalar(s, path, outside)
            case Success(w) => Becomes(s, w, outside)
            case Failure(e) => Expand(s, outside.lookup) == Failure(e.problem) && e.path == path
  {
    hide Expand, Trim, IsSinglePlaceholder;
    if !NeedsExpansion(s) {
      QuickTestSound(s, outside.lookup);
      if IsSinglePlaceholder(s) {
        SingleNeedsExpansion(s);
      }
    }
  }

  /** A key is kept unless it is a string. */
  predicate KeyBecomes(key: Value, w: Value, outside: Outside) {
    if key.String? then Becomes(key.s, w, outside) else w == key
  }

  lemma ExpandKeyBecomes(key: Value, path: string, outside: Outside)
    ensures match ExpandKey(key, path, outside)
            case Success(w) => KeyBecomes(key, w, outside)
            case Failure(e) => KeyFails(key, path, e, outside)
  {
    hide Expand, Becomes;
    if key.String? {
      ScalarBecomes(key.s, KeyPath(path, key, outside), outside);
    }
  }

  /** A string key that does not expand; the error names the place of its entry. */
  predicate KeyFails(key: Value, path: string, e: ExpandError, outside: Outside) {
    key.String? && Expand(key.s, outside.lookup) == Failure(e.problem) && e.path == path + "." + key.s
  }

  // ---- Trees ---------------------------------------------------------------------------------

  /** The tree that results: every string replaced by what it becomes, and nothing else changed. */
  ghost predicate ExpandsTo(v: Value, w: Value, outside: Outside)
    decreases v
  {
    match v
    case String(s) => Becomes(s, w, outside)
    case Sequence(items) =>
      && w.Sequence? && |w.items| == |items|
      && forall i | 0 <= i < |items| :: ExpandsTo(items[i], w.items[i], outside)
    case Mapping(pairs) =>
      && w.Mapping? && |w.pairs| <= |pairs|
      && (|w.pairs| == |pairs| ==> forall i | 0 <= i < |pairs| :: PairBecomes(pairs, i, w.pairs[i], outside))
      && (|w.pairs| < |pairs| ==> forall q | q in w.pairs :: LastOf(pairs, q, outside))
      && forall i | 0 <= i < |pairs| :: HasKey(w.pairs, pairs[i].key, outside)
    case _ => w == v
  }

  ghost predicate PairBecomes(pairs: seq<Pair>, i: nat, q: Pair, outside: Outside)
    requires i < |pairs|
    decreases pairs, 0
  {
    assert (pairs decreases to pairs[i]) && (pairs[i] decreases to pairs[i].value);
    KeyBecomes(pairs[i].key, q.key, outside) && ExpandsTo(pairs[i].value, q.value, outside)
  }

  /** Some pair stands under what the key becomes. */
  ghost predicate HasKey(pairs: seq<Pair>, key: Value, outside: Outside) {
    exists q | q in pairs :: KeyBecomes(key, q.key, outside)
  }

  /** Where keys have merged, a pair stands for the last of those with its key. */
  ghost predicate LastOf(pairs: seq<Pair>, q: Pair, outside: Outside)
    decreases pairs, 1
  {
    exists i :: 0 <= i < |pairs| && PairBecomes(pairs, i, q, outside)
                && forall j | i < j < |pairs| :: !KeyBecomes(pairs[j].key, q.key, outside)
  }

  lemma {:induction false} ExpandMeaning(v: Value, path: string, outside: Outside)
    requires ExpandValue(v, path, outside).Success?
    ensures ExpandsTo(v, ExpandValue(v, path, outside).value, outside)
    decreases v, 1
  {
    match v {
      case String(s) => ScalarBecomes(s, path, outside);
      case Sequence(items) => ItemsMeaning(items, 0, path, outside);
      case Mapping(pairs) =>
        hide Becomes, KeyBecomes, ExpandsTo, PairBecomes;
        ValuesMeaning(pairs, path, outside);
        var walked := ExpandPairValues(pairs, path, outside).value;
        if exists p | p in walked :: KeyNeedsExpansion(p.key) {
          RekeyMeaning(pairs, walked, path, outside);
          MappingExpands(pairs, Rekey(walked, path, outside).value, outside);
        } else {
          KeptMeaning(pairs, walked, path, outside);
          MappingExpands(pairs, walked, outside);
        }
      case _ =>
    }
  }

  /** The four clauses for a mapping, together. */
  lemma MappingExpands(pairs: seq<Pair>, r: seq<Pair>, outside: Outside)
    requires |r| <= |pairs|
    requires |r| == |pairs| ==> forall i | 0 <= i < |pairs| :: PairBecomes(pairs, i, r[i], outside)
    requires |r| < |pairs| ==> forall q | q in r :: LastOf(pairs, q, outside)
    requires forall i | 0 <= i < |pairs| :: HasKey(r, pairs[i].key, outside)
    ensures ExpandsTo(Mapping(pairs), Mapping(r), outside)
  {
  }

  lemma {:induction false} ItemsMeaning(items: seq<Value>, k: nat, path: string, outside: Outside)
    requires ExpandItems(items, k, path, outside).Success?
    ensures var r := ExpandItems(items, k, path, outside).value;
            forall i | 0 <= i < |items| :: ExpandsTo(items[i], r[i], outside)
    decreases items, 0
  {
    if items != [] {
      ExpandMeaning(items[0], ItemPath(path, k), outside);
      ItemsMeaning(items[1..], k + 1, path, outside);
      var r := ExpandItems(items, k, path, outside).value;
      forall i | 0 <= i < |items|
        ensures ExpandsTo(items[i], r[i], outside)
      {
        if i > 0 {
          assert items[i] == items[1..][i - 1];
        }
      }
    }
  }

  lemma {:induction false} ValuesMeaning(pairs: seq<Pair>, path: string, outside: Outside)
    requires ExpandPairValues(pairs, path, outside).Success?
    ensures var r := ExpandPairValues(pairs, path, outside).value;
            forall i | 0 <= i < |pairs| :: r[i].key == pairs[i].key && ExpandsTo(pairs[i].value, r[i].value, outside)
    decreases pairs, 0
  {
    if pairs != [] {
      assert (pairs decreases to pairs[0]) && (pairs[0] decreases to pairs[0].value);
      ExpandMeaning(pairs[0].value, KeyPath(path, pairs[0].key, outside), outside);
      ValuesMeaning(pairs[1..], path, outside);
      var r := ExpandPairValues(pairs, path, outside).value;
      forall i | 0 <= i < |pairs|
        ensures r[i].key == pairs[i].key && ExpandsTo(pairs[i].value, r[i].value, outside)
      {
        if i > 0 {
          assert pairs[i] == pairs[1..][i - 1];
        }
      }
    }
  }

  lemma KeptMeaning(pairs: seq<Pair>, walked: seq<Pair>, path: string, outside: Outside)
    requires |walked| == |pairs|
    requires forall i | 0 <= i < |pairs| ::
               walked[i].key == pairs[i].key && ExpandsTo(pairs[i].value, walked[i].value, outside)
    requires forall p | p in walked :: !KeyNeedsExpansion(p.key)
    ensures forall i | 0 <= i < |pairs| :: PairBecomes(pairs, i, walked[i], outside)
    ensures forall i | 0 <= i < |pairs| :: HasKey(walked, pairs[i].key, outside)
  {
    hide KeyBecomes, ExpandsTo;
    forall i | 0 <= i < |pairs|
      ensures PairBecomes(pairs, i, walked[i], outside) && walked[i] in walked
      ensures HasKey(walked, pairs[i].key, outside)
    {
      assert walked[i] in walked;
      ExpandKeyBecomes(pairs[i].key, path, outside);
    }
  }

  lemma RekeyMeaning(pairs: seq<Pair>, walked: seq<Pair>, path: string, outside: Outside)
    requires |walked| == |pairs| && Rekey(walked, path, outside).Success?
    requires forall i | 0 <= i < |pairs| ::
               walked[i].key == pairs[i].key && ExpandsTo(pairs[i].value, walked[i].value, outside)
    ensures var r := Rekey(walked, path, outside).value;
            && |r| <= |pairs|
            && (|r| == |pairs| ==> forall i | 0 <= i < |pairs| :: PairBecomes(pairs, i, r[i], outside))
            && (forall q | q in r :: LastOf(pairs, q, outside))
            && forall i | 0 <= i < |pairs| :: HasKey(r, pairs[i].key, outside)
  {
    hide KeyBecomes, ExpandsTo, Rekey, NewKeys, Distinct, LastOf, HasKey;
    var r, keys := Rekey(walked, path, outside).value, NewKeys(walked, path, outside);
    KeyCountKeptIff(walked, path, outside);
    forall i | 0 <= i < |pairs|
      ensures KeyBecomes(pairs[i].key, keys[i], outside) && HasKey(r, pairs[i].key, outside)
    {
      NewKeyBecomes(pairs[i].key, walked, path, outside, i);
    }
    forall q | q in r
      ensures LastOf(pairs, q, outside)
    {
      RekeyedLast(pairs, walked, path, outside, q);
    }
  }

  lemma NewKeyBecomes(key: Value, walked: seq<Pair>, path: string, outside: Outside, i: nat)
    requires Rekey(walked, path, outside).Success? && i < |walked| && walked[i].key == key
    ensures KeyBecomes(key, NewKeys(walked, path, outside)[i], outside)
    ensures HasKey(Rekey(walked, path, outside).value, key, outside)
  {
    hide KeyBecomes, Rekey, NewKeys, Distinct;
    var r, keys := Rekey(walked, path, outside).value, NewKeys(walked, path, outside);
    NewKeyAt(walked, path, outside, i);
    ExpandKeyBecomes(key, path, outside);
    RekeyedKeys(walked, path, outside);
    KeysAt(r);
    assert keys[i] in ToSet(Keys(r));
    var m :| 0 <= m < |Keys(r)| && Keys(r)[m] == keys[i];
    assert r[m] in r && r[m].key == keys[i];
  }

  lemma RekeyedLast(pairs: seq<Pair>, walked: seq<Pair>, path: string, outside: Outside, q: Pair)
    requires |walked| == |pairs| && Rekey(walked, path, outside).Success? && q in Rekey(walked, path, outside).value
    requires forall i | 0 <= i < |pairs| ::
               walked[i].key == pairs[i].key && ExpandsTo(pairs[i].value, walked[i].value, outside)
    ensures LastOf(pairs, q, outside)
  {
    hide KeyBecomes, ExpandsTo, Rekey, NewKeys, KeyFrom, HasKey;
    var i := RekeyedFrom(walked, path, outside, q);
    NewKeyBecomes(pairs[i].key, walked, path, outside, i);
    assert PairBecomes(pairs, i, q, outside);
    forall j | i < j < |pairs|
      ensures !KeyBecomes(pairs[j].key, q.key, outside)
    {
      NewKeyBecomes(pairs[j].key, walked, path, outside, j);
      if KeyBecomes(pairs[j].key, q.key, outside) {
        OneKey(pairs[j].key, q.key, NewKeys(walked, path, outside)[j], outside);
      }
    }
  }

  lemma OneKey(key: Value, one: Value, other: Value, outside: Outside)
    requires KeyBecomes(key, one, outside) && KeyBecomes(key, other, outside)
    ensures one == other
  {
  }

  // ---- Errors --------------------------------------------------------------------------------

  predicate KeyExpands(key: Value, outside: Outside) {
    key.String? ==> Expand(key.s, outside.lookup).Success?
  }

  /** Every string in the tree, keys included, expands in this environment. */
  predicate Expandable(v: Value, outside: Outside)
    decreases v
  {
    match v
    case String(s) => Expand(s, outside.lookup).Success?
    case Sequence(items) => forall i | 0 <= i < |items| :: Expandable(items[i], outside)
    case Mapping(pairs) =>
      && (forall i | 0 <= i < |pairs| :: ValueExpands(pairs, i, outside))
      && forall i | 0 <= i < |pairs| :: KeyExpands(pairs[i].key, outside)
    case _ => true
  }

  predicate ValueExpands(pairs: seq<Pair>, i: nat, outside: Outside)
    requires i < |pairs|
    decreases pairs, 0
  {
    assert (pairs decreases to pairs[i]) && (pairs[i] decreases to pairs[i].value);
    Expandable(pairs[i].value, outside)
  }

  /** The error is that of the first string that does not expand, values before keys, and names its place. */
  ghost predicate FailsAt(v: Value, path: string, e: ExpandError, outside: Outside)
    decreases v
  {
    match v
    case String(s) => Expand(s, outside.lookup) == Failure(e.problem) && e.path == path
    case Sequence(items) => exists i :: ItemFails(items, 0, i, path, e, outside)
    case Mapping(pairs) =>
      || (exists i :: ValueFails(pairs, i, path, e, outside))
      || (&& (forall i | 0 <= i < |pairs| :: ValueExpands(pairs, i, outside))
          && exists i :: FirstKeyFails(pairs, i, path, e, outside))
    case _ => false
  }

  ghost predicate ItemFails(items: seq<Value>, k: nat, i: int, path: string, e: ExpandError, outside: Outside)
    decreases items, 1
  {
    && 0 <= i < |items| && !Expandable(items[i], outside)
    && (forall j | 0 <= j < i :: Expandable(items[j], outside))
    && FailsAt(items[i], path + "[" + Decimal(k + i) + "]", e, outside)
  }

  ghost predicate ValueFails(pairs: seq<Pair>, i: int, path: string, e: ExpandError, outside: Outside)
    decreases pairs, 1
  {
    && 0 <= i < |pairs| && !ValueExpands(pairs, i, outside)
    && (forall j | 0 <= j < i :: ValueExpands(pairs, j, outside))
    && (assert (pairs decreases to pairs[i]) && (pairs[i] decreases to pairs[i].value);
        FailsAt(pairs[i].value, path + "." + KeyText(pairs[i].key, outside), e, outside))
  }

  /** How a key is written in a path. */
  function KeyText(key: Value, outside: Outside): string {
    if key.String? then key.s
    else if key.Number? then key.text
    else if key == Bool(true) then "true"
    else if key == Bool(false) then "false"
    else if key == Null then "null"
    else outside.showKey(key)
  }

  /** The number that decimal digits stand for. */
  function DigitsValue(digits: string): int {
    if digits == "" then 0
    else DigitsValue(digits[..|digits| - 1]) * 10 + (digits[|digits| - 1] as int - '0' as int)
  }

  /** An index is written in decimal, without leading zeros. */
  lemma {:induction false} DecimalMeaning(n: nat)
    ensures DigitsValue(Decimal(n)) == n && forall c | c in Decimal(n) :: '0' <= c <= '9'
    ensures Decimal(n) != "" && (n > 0 ==> Decimal(n)[0] != '0')
  {
    if n < 10 {
      assert Decimal(n)[..0] == "";
      assert "0123456789"[n] as int == '0' as int + n;
    } else {
      DecimalMeaning(n / 10);
      var digit := "0123456789"[n % 10];
      assert digit as int == '0' as int + n % 10;
      assert Decimal(n) == Decimal(n / 10) + [digit];
      assert Decimal(n)[..|Decimal(n)| - 1] == Decimal(n / 10);
    }
  }

  predicate FirstKeyFails(pairs: seq<Pair>, i: int, path: string, e: ExpandError, outside: Outside) {
    && 0 <= i < |pairs|
    && KeyFails(pairs[i].key, path, e, outside)
    && forall j | 0 <= j < i :: KeyExpands(pairs[j].key, outside)
  }

  /** Expansion succeeds exactly when every string expands, and otherwise reports the first that does not. */
  lemma {:induction false} ExpandFailure(v: Value, path: string, outside: Outside)
    ensures match ExpandValue(v, path, outside)
            case Success(_) => Expandable(v, outside)
            case Failure(e) => !Expandable(v, outside) && FailsAt(v, path, e, outside)
    decreases v, 1
  {
    hide Expand, ExpandScalar;
    match v {
      case String(s) => ScalarBecomes(s, path, outside);
      case Sequence(items) => var i := ItemsFailure(items, 0, path, outside);
      case Mapping(pairs) =>
        hide ExpandKey, KeyBecomes, ValueExpands, KeyFails;
        var i := ValuesFailure(pairs, path, outside);
        if ExpandPairValues(pairs, path, outside).Success? {
          ValuesMeaning(pairs, path, outside);
          var walked := ExpandPairValues(pairs, path, outside).value;
          KeysFailure(pairs, walked, path, outside);
          if !(exists p | p in walked :: KeyNeedsExpansion(p.key)) {
            forall i | 0 <= i < |pairs|
              ensures KeyExpands(pairs[i].key, outside)
            {
              assert walked[i] in walked;
              if pairs[i].key.String? {
                QuickTestSound(pairs[i].key.s, outside.lookup);
              }
            }
          }
        }
      case _ =>
    }
  }

  /** `i` is the first item that fails, if any does. */
  lemma {:induction false} ItemsFailure(items: seq<Value>, k: nat, path: string, outside: Outside) returns (i: int)
    ensures match ExpandItems(items, k, path, outside)
            case Success(_) => forall j | 0 <= j < |items| :: Expandable(items[j], outside)
            case Failure(e) => ItemFails(items, k, i, path, e, outside)
    decreases items, 0
  {
    i := 0;
    if items != [] {
      ExpandFailure(items[0], ItemPath(path, k), outside);
      if ExpandValue(items[0], ItemPath(path, k), outside).Success? {
        i := ItemsFailure(items[1..], k + 1, path, outside);
        if ExpandItems(items[1..], k + 1, path, outside).Failure? {
          ItemFailsLater(items, k, i, path, ExpandItems(items[1..], k + 1, path, outside).error, outside);
        } else {
          assert forall j | 0 < j < |items| :: items[j] == items[1..][j - 1];
        }
        i := i + 1;
      }
    }
  }

  lemma ItemFailsLater(items: seq<Value>, k: nat, i: int, path: string, e: ExpandError, outside: Outside)
    requires items != [] && Expandable(items[0], outside)
    requires ItemFails(items[1..], k + 1, i, path, e, outside)
    ensures ItemFails(items, k, i + 1, path, e, outside)
  {
    assert items[1..][i] == items[i + 1];
    forall j | 0 <= j < i + 1
      ensures Expandable(items[j], outside)
    {
      assert j > 0 ==> items[j] == items[1..][j - 1];
    }
  }

  /** `i` is the first pair whose value fails, if any does. */
  lemma {:induction false} ValuesFailure(pairs: seq<Pair>, path: string, outside: Outside) returns (i: int)
    ensures match ExpandPairValues(pairs, path, outside)
            case Success(_) => forall j | 0 <= j < |pairs| :: ValueExpands(pairs, j, outside)
            case Failure(e) => ValueFails(pairs, i, path, e, outside)
    decreases pairs, 0
  {
    i := 0;
    if pairs != [] {
      assert (pairs decreases to pairs[0]) && (pairs[0] decreases to pairs[0].value);
      ExpandFailure(pairs[0].value, KeyPath(path, pairs[0].key, outside), outside);
      if ExpandValue(pairs[0].value, KeyPath(path, pairs[0].key, outside), outside).Success? {
        i := ValuesFailure(pairs[1..], path, outside);
        if ExpandPairValues(pairs[1..], path, outside).Failure? {
          ValueFailsLater(pairs, i, path, ExpandPairValues(pairs[1..], path, outside).error, outside);
        } else {
          TailValues(pairs, outside);
        }
        i := i + 1;
      }
    }
  }

  lemma TailValues(pairs: seq<Pair>, outside: Outside)
    requires pairs != []
    ensures forall j | 0 < j < |pairs| :: ValueExpands(pairs, j, outside) <==> ValueExpands(pairs[1..], j - 1, outside)
  {
    forall j | 0 < j < |pairs|
      ensures ValueExpands(pairs, j, outside) <==> ValueExpands(pairs[1..], j - 1, outside)
    {
      assert pairs[j] == pairs[1..][j - 1];
    }
  }

  lemma ValueFailsLater(pairs: seq<Pair>, i: int, path: string, e: ExpandError, outside: Outside)
    requires pairs != [] && ValueExpands(pairs, 0, outside)
    requires ValueFails(pairs[1..], i, path, e, outside)
    ensures ValueFails(pairs, i + 1, path, e, outside)
  {
    assert pairs[1..][i] == pairs[i + 1];
    TailValues(pairs, outside);
  }

  lemma KeysFailure(pairs: seq<Pair>, walked: seq<Pair>, path: string, outside: Outside)
    requires |walked| == |pairs| && forall i | 0 <= i < |pairs| :: walked[i].key == pairs[i].key
    ensures match Rekey(walked, path, outside)
            case Success(_) => forall i | 0 <= i < |pairs| :: KeyExpands(pairs[i].key, outside)
            case Failure(e) =>
              && (exists i :: FirstKeyFails(pairs, i, path, e, outside))
              && exists i :: 0 <= i < |pairs| && !KeyExpands(pairs[i].key, outside)
    decreases |pairs|
  {
    hide ExpandKey, KeyBecomes, KeyExpands, KeyFails, FirstKeyFails;
    if pairs != [] {
      var n := |pairs| - 1;
      KeysFailure(pairs[..n], walked[..n], path, outside);
      ExpandKeyBecomes(pairs[n].key, path, outside);
      KeyOutcome(pairs[n].key, path, outside);
      if Rekey(walked[..n], path, outside).Failure? {
        var e := Rekey(walked[..n], path, outside).error;
        var i :| FirstKeyFails(pairs[..n], i, path, e, outside);
        EarlierKeyFails(pairs, n, i, path, e, outside);
        var m :| 0 <= m < n && !KeyExpands(pairs[..n][m].key, outside);
        assert !KeyExpands(pairs[m].key, outside);
        assert Rekey(walked, path, outside) == Failure(e);
      } else {
        assert forall i | 0 <= i < n :: pairs[..n][i] == pairs[i];
        if ExpandKey(pairs[n].key, path, outside).Failure? {
          var e := ExpandKey(pairs[n].key, path, outside).error;
          LaterKeyFails(pairs, n, path, e, outside);
          assert Rekey(walked, path, outside) == Failure(e);
        }
      }
    }
  }

  lemma EarlierKeyFails(pairs: seq<Pair>, n: nat, i: int, path: string, e: ExpandError, outside: Outside)
    requires n <= |pairs| && FirstKeyFails(pairs[..n], i, path, e, outside)
    ensures FirstKeyFails(pairs, i, path, e, outside)
  {
    hide KeyExpands, KeyFails;
    assert forall j | 0 <= j < i :: pairs[..n][j] == pairs[j];
  }

  lemma LaterKeyFails(pairs: seq<Pair>, n: nat, path: string, e: ExpandError, outside: Outside)
    requires n < |pairs| && KeyFails(pairs[n].key, path, e, outside)
    requires forall j | 0 <= j < n :: KeyExpands(pairs[j].key, outside)
    ensures FirstKeyFails(pairs, n, path, e, outside)
  {
  }

  lemma KeyOutcome(key: Value, path: string, outside: Outside)
    ensures ExpandKey(key, path, outside).Success? <==> KeyExpands(key, outside)
  {
    hide Expand;
    ExpandKeyBecomes(key, path, outside);
  }
}

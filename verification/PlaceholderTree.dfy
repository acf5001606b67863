/**
 * What expansion can and cannot do to a configuration tree.
 */
module PlaceholderTree {
  import opened Wrappers
  import opened Collections
  import opened PlaceholderSyntax
  import opened PlaceholderExpansion

  // ---- Keys ----------------------------------------------------------------------------------

  function Keys(pairs: seq<Pair>): seq<Value> {
    if pairs == [] then [] else [pairs[0].key] + Keys(pairs[1..])
  }

  lemma {:induction false} KeysAt(pairs: seq<Pair>)
    ensures |Keys(pairs)| == |pairs| && forall i | 0 <= i < |pairs| :: Keys(pairs)[i] == pairs[i].key
  {
    if pairs != [] {
      KeysAt(pairs[1..]);
      assert forall i | 0 < i < |pairs| :: pairs[i] == pairs[1..][i - 1];
    }
  }

  lemma {:induction false} InsertNew(pairs: seq<Pair>, pair: Pair)
    requires pair.key !in Keys(pairs)
    ensures Insert(pairs, pair) == pairs + [pair]
  {
    if pairs != [] {
      InsertNew(pairs[1..], pair);
      assert pairs == [pairs[0]] + pairs[1..];
    }
  }

  lemma {:induction false} InsertOld(pairs: seq<Pair>, pair: Pair)
    requires pair.key in Keys(pairs)
    ensures Keys(Insert(pairs, pair)) == Keys(pairs)
    ensures forall p | p in Insert(pairs, pair) :: p == pair || p in pairs
  {
    if pairs[0].key == pair.key {
      assert ([pair] + pairs[1..])[1..] == pairs[1..];
    } else {
      InsertOld(pairs[1..], pair);
      var rest := Insert(pairs[1..], pair);
      assert ([pairs[0]] + rest)[1..] == rest;
    }
  }

  lemma {:induction false} KeysAppend(pairs: seq<Pair>, pair: Pair)
    ensures Keys(pairs + [pair]) == Keys(pairs) + [pair.key]
  {
    if pairs == [] {
      assert [] + [pair] == [pair] && [pair][1..] == [];
    } else {
      KeysAppend(pairs[1..], pair);
      assert (pairs + [pair])[1..] == pairs[1..] + [pair];
    }
  }

  /** The expanded keys, in order, with repeats. */
  function NewKeys(pairs: seq<Pair>, path: string, outside: Outside): (keys: seq<Value>)
    requires Rekey(pairs, path, outside).Success?
    ensures |keys| == |pairs|
  {
    if pairs == [] then []
    else
      NewKeys(pairs[..|pairs| - 1], path, outside) + [ExpandKey(pairs[|pairs| - 1].key, path, outside).value]
  }

  /** Later repeats left out: each member where it first occurs. */
  function FirstOccurrences<T(==)>(s: seq<T>): seq<T> {
    if s == [] then []
    else
      var init, last := FirstOccurrences(s[..|s| - 1]), s[|s| - 1];
      if last in init then init else init + [last]
  }

  /** The rebuilt mapping has each expanded key once, in the order in which the keys first occur. */
  lemma {:induction false} RekeyedKeys(pairs: seq<Pair>, path: string, outside: Outside)
    requires Rekey(pairs, path, outside).Success?
    ensures var r := Rekey(pairs, path, outside).value;
            && Distinct(Keys(r)) && ToSet(Keys(r)) == ToSet(NewKeys(pairs, path, outside))
            && Keys(r) == FirstOccurrences(NewKeys(pairs, path, outside))
    decreases |pairs|
  {
    if pairs != [] {
      var init, last := pairs[..|pairs| - 1], pairs[|pairs| - 1];
      var key := ExpandKey(last.key, path, outside).value;
      var before := Rekey(init, path, outside).value;
      RekeyedKeys(init, path, outside);
      ToSetAppend(NewKeys(init, path, outside), key);
      assert NewKeys(pairs, path, outside)[..|init|] == NewKeys(init, path, outside);
      if key in Keys(before) {
        InsertOld(before, Pair(key, last.value));
        assert key in ToSet(Keys(before));
      } else {
        InsertNew(before, Pair(key, last.value));
        KeysAppend(before, Pair(key, last.value));
        DistinctAppend(Keys(before), key);
        ToSetAppend(Keys(before), key);
      }
    }
  }

  lemma {:induction false} RekeyedInPlace(pairs: seq<Pair>, path: string, outside: Outside)
    requires Rekey(pairs, path, outside).Success? && Distinct(NewKeys(pairs, path, outside))
    ensures var r := Rekey(pairs, path, outside).value;
            && |r| == |pairs|
            && forall i | 0 <= i < |pairs| :: r[i] == Pair(NewKeys(pairs, path, outside)[i], pairs[i].value)
    decreases |pairs|
  {
    if pairs != [] {
      var init, last := pairs[..|pairs| - 1], pairs[|pairs| - 1];
      var key := ExpandKey(last.key, path, outside).value;
      DistinctAppend(NewKeys(init, path, outside), key);
      RekeyedInPlace(init, path, outside);
      RekeyedKeys(init, path, outside);
      var before := Rekey(init, path, outside).value;
      assert key !in ToSet(NewKeys(init, path, outside));
      assert forall k :: k in Keys(before) <==> k in ToSet(Keys(before));
      InsertNew(before, Pair(key, last.value));
    }
  }

  /**
   * Rebuilding a mapping keeps its number of keys exactly when the expanded keys stay
   * distinct, and then every pair keeps its place; otherwise it shrinks.
   */
  lemma KeyCountKeptIff(pairs: seq<Pair>, path: string, outside: Outside)
    requires Rekey(pairs, path, outside).Success?
    ensures var r := Rekey(pairs, path, outside).value;
            && |r| <= |pairs|
            && (|r| == |pairs| <==> Distinct(NewKeys(pairs, path, outside)))
            && (|r| == |pairs| ==>
                  forall i | 0 <= i < |pairs| :: r[i] == Pair(NewKeys(pairs, path, outside)[i], pairs[i].value))
  {
    var r, keys := Rekey(pairs, path, outside).value, NewKeys(pairs, path, outside);
    RekeyedKeys(pairs, path, outside);
    KeysAt(r);
    DistinctCardinality(Keys(r));
    SetOfSequence(keys);
    if Distinct(keys) {
      RekeyedInPlace(pairs, path, outside);
    }
  }

  /** A sequence has as many members as its set exactly when it repeats none. */
  lemma {:induction false} SetOfSequence<T>(s: seq<T>)
    ensures |ToSet(s)| <= |s| && (|ToSet(s)| == |s| <==> Distinct(s))
  {
    if s == [] {
      assert ToSet(s) == {};
    } else {
      var init, last := s[..|s| - 1], s[|s| - 1];
      SetOfSequence(init);
      assert s == init + [last];
      ToSetAppend(init, last);
      DistinctAppend(init, last);
    }
  }

  // ---- Shape ---------------------------------------------------------------------------------

  /**
   * `w` has no more structure than `v`: strings become scalars, sequences keep their
   * length, mappings stay mappings whose every pair comes from a pair of `v`, place by
   * place unless keys have merged.
   */
  ghost predicate Shaped(v: Value, w: Value)
    decreases v
  {
    match v
    case String(s) => ScalarFrom(s, w)
    case Sequence(items) =>
      && w.Sequence? && |w.items| == |items|
      && forall i | 0 <= i < |items| :: Shaped(items[i], w.items[i])
    case Mapping(pairs) =>
      && w.Mapping? && |w.pairs| <= |pairs|
      && (forall q | q in w.pairs :: PairFrom(pairs, q))
      && (|w.pairs| == |pairs| ==> forall i | 0 <= i < |pairs| :: PairShaped(pairs, i, w.pairs[i]))
    case _ => w == v
  }

  /** Plain text is kept; only a text that is one placeholder may become another kind of scalar. */
  predicate ScalarFrom(s: string, w: Value) {
    && IsScalar(w)
    && (!NeedsExpansion(s) ==> w == String(s))
    && (!IsSinglePlaceholder(s) ==> w.String?)
  }

  ghost predicate PairFrom(pairs: seq<Pair>, q: Pair)
    decreases pairs, 1
  {
    exists i :: 0 <= i < |pairs| && PairShaped(pairs, i, q)
  }

  ghost predicate PairShaped(pairs: seq<Pair>, i: nat, q: Pair)
    requires i < |pairs|
    decreases pairs, 0
  {
    assert (pairs decreases to pairs[i]) && (pairs[i] decreases to pairs[i].value);
    KeyFrom(pairs[i].key, q.key) && Shaped(pairs[i].value, q.value)
  }

  /** A key is kept, or was a string with something to expand and became a scalar. */
  ghost predicate KeyFrom(key: Value, key': Value) {
    if key.String? then ScalarFrom(key.s, key') else key' == key
  }

  lemma {:induction false} ExpandKeepsShape(v: Value, path: string, outside: Outside)
    requires ExpandValue(v, path, outside).Success?
    ensures Shaped(v, ExpandValue(v, path, outside).value)
    decreases v, 1
  {
    match v {
      case Sequence(items) =>
        ItemsKeepShape(items, 0, path, outside);
      case Mapping(pairs) =>
        PairsKeepShape(pairs, path, outside);
        var walked := ExpandPairValues(pairs, path, outside).value;
        if exists p | p in walked :: KeyNeedsExpansion(p.key) {
          KeyCountKeptIff(walked, path, outside);
          var rekeyed := Rekey(walked, path, outside).value;
          forall q | q in rekeyed
            ensures PairFrom(pairs, q)
          {
            var i := RekeyedFrom(walked, path, outside, q);
            assert PairShaped(pairs, i, q);
          }
          if |rekeyed| == |pairs| {
            forall i | 0 <= i < |pairs|
              ensures PairShaped(pairs, i, rekeyed[i])
            {
              NewKeyAt(walked, path, outside, i);
            }
          }
        } else {
          forall q | q in walked
            ensures PairFrom(pairs, q)
          {
            var i :| 0 <= i < |walked| && walked[i] == q;
            assert PairShaped(pairs, i, q);
          }
        }
      case _ =>
    }
  }

  lemma {:induction false} ItemsKeepShape(items: seq<Value>, k: nat, path: string, outside: Outside)
    requires ExpandItems(items, k, path, outside).Success?
    ensures var r := ExpandItems(items, k, path, outside).value;
            forall i | 0 <= i < |items| :: Shaped(items[i], r[i])
    decreases items, 0
  {
    if items != [] {
      ExpandKeepsShape(items[0], ItemPath(path, k), outside);
      ItemsKeepShape(items[1..], k + 1, path, outside);
      var r := ExpandItems(items, k, path, outside).value;
      forall i | 0 <= i < |items|
        ensures Shaped(items[i], r[i])
      {
        if i > 0 {
          assert items[i] == items[1..][i - 1];
        }
      }
    }
  }

  lemma {:induction false} PairsKeepShape(pairs: seq<Pair>, path: string, outside: Outside)
    requires ExpandPairValues(pairs, path, outside).Success?
    ensures var r := ExpandPairValues(pairs, path, outside).value;
            forall i | 0 <= i < |pairs| :: r[i].key == pairs[i].key && Shaped(pairs[i].value, r[i].value)
    decreases pairs, 0
  {
    if pairs != [] {
      assert (pairs decreases to pairs[0]) && (pairs[0] decreases to pairs[0].value);
      ExpandKeepsShape(pairs[0].value, KeyPath(path, pairs[0].key, outside), outside);
      PairsKeepShape(pairs[1..], path, outside);
      var r := ExpandPairValues(pairs, path, outside).value;
      forall i | 0 <= i < |pairs|
        ensures r[i].key == pairs[i].key && Shaped(pairs[i].value, r[i].value)
      {
        if i > 0 {
          assert pairs[i] == pairs[1..][i - 1];
        }
      }
    }
  }

  lemma {:induction false} NewKeyAt(pairs: seq<Pair>, path: string, outside: Outside, i: nat)
    requires Rekey(pairs, path, outside).Success? && i < |pairs|
    ensures ExpandKey(pairs[i].key, path, outside) == Success(NewKeys(pairs, path, outside)[i])
    ensures KeyFrom(pairs[i].key, NewKeys(pairs, path, outside)[i])
    decreases |pairs|
  {
    if i < |pairs| - 1 {
      NewKeyAt(pairs[..|pairs| - 1], path, outside, i);
    }
  }

  /** Every pair of the rebuilt mapping holds, under its expanded key, the value of the last pair with that key. */
  lemma {:induction false} RekeyedFrom(pairs: seq<Pair>, path: string, outside: Outside, q: Pair) returns (i: nat)
    requires Rekey(pairs, path, outside).Success? && q in Rekey(pairs, path, outside).value
    ensures i < |pairs| && q.value == pairs[i].value && KeyFrom(pairs[i].key, q.key)
    ensures NewKeys(pairs, path, outside)[i] == q.key
    ensures forall j | i < j < |pairs| :: NewKeys(pairs, path, outside)[j] != q.key
    decreases |pairs|
  {
    var init, last := pairs[..|pairs| - 1], pairs[|pairs| - 1];
    var pair := Pair(ExpandKey(last.key, path, outside).value, last.value);
    var before := Rekey(init, path, outside).value;
    InsertedPairs(init, pair, path, outside, q);
    if q == pair {
      i := |pairs| - 1;
      NewKeyAt(pairs, path, outside, i);
    } else {
      i := RekeyedFrom(init, path, outside, q);
      assert NewKeys(pairs, path, outside)[..|init|] == NewKeys(init, path, outside);
    }
  }

  /** After an insertion the only pair under the inserted key is the inserted one. */
  lemma InsertedPairs(init: seq<Pair>, pair: Pair, path: string, outside: Outside, q: Pair)
    requires Rekey(init, path, outside).Success? && q in Insert(Rekey(init, path, outside).value, pair)
    ensures q == pair || (q in Rekey(init, path, outside).value && q.key != pair.key)
  {
    RekeyedKeys(init, path, outside);
    InsertedOnce(Rekey(init, path, outside).value, pair, q);
  }

  lemma InsertedOnce(before: seq<Pair>, pair: Pair, q: Pair)
    requires Distinct(Keys(before)) && q in Insert(before, pair)
    ensures q == pair || (q in before && q.key != pair.key)
  {
    var after := Insert(before, pair);
    KeysAt(before);
    KeysAt(after);
    var i :| 0 <= i < |after| && after[i] == q;
    if pair.key in Keys(before) {
      InsertOld(before, pair);
      InsertHolds(before, pair);
      var j :| 0 <= j < |after| && after[j] == pair;
      assert i != j ==> Keys(after)[i] != Keys(after)[j];
    } else {
      InsertNew(before, pair);
      assert i < |before| ==> Keys(before)[i] == q.key;
    }
  }

  lemma {:induction false} InsertHolds(pairs: seq<Pair>, pair: Pair)
    ensures pair in Insert(pairs, pair)
  {
    if pairs != [] && pairs[0].key != pair.key {
      InsertHolds(pairs[1..], pair);
    }
  }

  // ---- Environments --------------------------------------------------------------------------

  /** The variable names a tree mentions, in values and in string keys. */
  function Names(v: Value): set<string>
    decreases v, 1
  {
    match v
    case String(s) => NamesIn(Tokenise(s))
    case Sequence(items) => ItemNames(items)
    case Mapping(pairs) => PairNames(pairs)
    case _ => {}
  }

  function ItemNames(items: seq<Value>): set<string>
    decreases items, 0
  {
    if items == [] then {} else Names(items[0]) + ItemNames(items[1..])
  }

  function KeyNames(key: Value): set<string> {
    if key.String? then NamesIn(Tokenise(key.s)) else {}
  }

  function PairNames(pairs: seq<Pair>): set<string>
    decreases pairs, 0
  {
    if pairs == [] then {}
    else
      assert (pairs decreases to pairs[0]) && (pairs[0] decreases to pairs[0].value);
      KeyNames(pairs[0].key) + Names(pairs[0].value) + PairNames(pairs[1..])
  }

  ghost predicate AgreeOn(names: set<string>, one: Outside, other: Outside) {
    && one.reparse == other.reparse && one.showKey == other.showKey
    && forall name | name in names :: one.lookup(name) == other.lookup(name)
  }

  /** Trees expand alike, errors and paths included, in environments that agree on the names they mention. */
  lemma {:induction false} OnlyTreeNamesMatter(v: Value, path: string, one: Outside, other: Outside)
    requires AgreeOn(Names(v), one, other)
    ensures ExpandValue(v, path, one) == ExpandValue(v, path, other)
    decreases v, 1
  {
    match v {
      case String(s) =>
        OnlyNamesMatter(s, one.lookup, other.lookup);
      case Sequence(items) =>
        ItemsAgree(items, 0, path, one, other);
      case Mapping(pairs) =>
        PairsAgree(pairs, path, one, other);
        if ExpandPairValues(pairs, path, one).Success? {
          var walked := ExpandPairValues(pairs, path, one).value;
          forall p | p in walked
            ensures ExpandKey(p.key, path, one) == ExpandKey(p.key, path, other)
          {
            KeyAgrees(pairs, path, one, other, p);
          }
          RekeyAgrees(walked, path, one, other);
        }
      case _ =>
    }
  }

  lemma {:induction false} ItemsAgree(items: seq<Value>, i: nat, path: string, one: Outside, other: Outside)
    requires AgreeOn(ItemNames(items), one, other)
    ensures ExpandItems(items, i, path, one) == ExpandItems(items, i, path, other)
    decreases items, 0
  {
    if items != [] {
      OnlyTreeNamesMatter(items[0], ItemPath(path, i), one, other);
      ItemsAgree(items[1..], i + 1, path, one, other);
    }
  }

  lemma {:induction false} PairsAgree(pairs: seq<Pair>, path: string, one: Outside, other: Outside)
    requires AgreeOn(PairNames(pairs), one, other)
    ensures ExpandPairValues(pairs, path, one) == ExpandPairValues(pairs, path, other)
    decreases pairs, 0
  {
    if pairs != [] {
      assert (pairs decreases to pairs[0]) && (pairs[0] decreases to pairs[0].value);
      OnlyTreeNamesMatter(pairs[0].value, KeyPath(path, pairs[0].key, one), one, other);
      PairsAgree(pairs[1..], path, one, other);
    }
  }

  lemma {:induction false} KeyAgrees(pairs: seq<Pair>, path: string, one: Outside, other: Outside, p: Pair)
    requires AgreeOn(PairNames(pairs), one, other)
    requires ExpandPairValues(pairs, path, one).Success? && p in ExpandPairValues(pairs, path, one).value
    ensures ExpandKey(p.key, path, one) == ExpandKey(p.key, path, other)
  {
    if p.key == pairs[0].key {
      if p.key.String? {
        assert KeyNames(p.key) <= PairNames(pairs);
        OnlyNamesMatter(p.key.s, one.lookup, other.lookup);
      }
    } else {
      KeyAgrees(pairs[1..], path, one, other, p);
    }
  }

  lemma {:induction false} RekeyAgrees(pairs: seq<Pair>, path: string, one: Outside, other: Outside)
    requires forall p | p in pairs :: ExpandKey(p.key, path, one) == ExpandKey(p.key, path, other)
    ensures Rekey(pairs, path, one) == Rekey(pairs, path, other)
    decreases |pairs|
  {
    if pairs != [] {
      RekeyAgrees(pairs[..|pairs| - 1], path, one, other);
    }
  }
}

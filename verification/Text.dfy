/** Text handling shared by the configuration parts: trimming and the order of tags. */
module Text {
  import opened Collections

  predicate IsWhitespace(c: char) {
    || '\U{9}' <= c <= '\U{D}'
    || '\U{2000}' <= c <= '\U{200A}'
    || c in {' ', '\U{85}', '\U{A0}', '\U{1680}', '\U{2028}', '\U{2029}', '\U{202F}', '\U{205F}', '\U{3000}'}
  }

  predicate Blank(s: string) {
    forall c | c in s :: IsWhitespace(c)
  }

  /** `s` is `core` between blank margins, and `core` has no blank margin itself. */
  ghost predicate TrimsTo(s: string, core: string) {
    && (exists before, after :: Blank(before) && Blank(after) && s == before + core + after)
    && (core != [] ==> !IsWhitespace(core[0]) && !IsWhitespace(core[|core| - 1]))
  }

  function Trim(s: string): string {
    if s == [] then s
    else if IsWhitespace(s[0]) then Trim(s[1..])
    else if IsWhitespace(s[|s| - 1]) then Trim(s[..|s| - 1])
    else s
  }

  lemma {:induction false} TrimMeaning(s: string)
    ensures TrimsTo(s, Trim(s))
    decreases |s|
  {
    if s == [] || !(IsWhitespace(s[0]) || IsWhitespace(s[|s| - 1])) {
      assert Blank("") && s == "" + s + "";
    } else if IsWhitespace(s[0]) {
      TrimMeaning(s[1..]);
      MarginGrows(s, Trim(s[1..]), 1, |s|);
    } else {
      TrimMeaning(s[..|s| - 1]);
      MarginGrows(s, Trim(s[..|s| - 1]), 0, |s| - 1);
    }
  }

  lemma Reassociate(a: string, b: string, c: string, d: string, e: string)
    ensures a + (b + c + d) + e == (a + b) + c + (d + e)
  {
  }

  lemma BlankConcat(a: string, b: string)
    requires Blank(a) && Blank(b)
    ensures Blank(a + b)
  {
  }

  lemma MarginGrows(s: string, core: string, from: nat, to: nat)
    requires from <= to <= |s|
    requires TrimsTo(s[from..to], core) && Blank(s[..from]) && Blank(s[to..])
    ensures TrimsTo(s, core)
  {
    hide Blank, IsWhitespace;
    var before, after :| Blank(before) && Blank(after) && s[from..to] == before + core + after;
    var head, tail := s[..from], s[to..];
    assert s == head + (before + core + after) + tail;
    Reassociate(head, before, core, after, tail);
    BlankConcat(head, before);
    BlankConcat(after, tail);
  }

  /** There is only one way to trim a text. */
  lemma TrimUnique(s: string, core: string, other: string)
    requires TrimsTo(s, core) && TrimsTo(s, other)
    ensures core == other
  {
    var b, a :| Blank(b) && Blank(a) && s == b + core + a;
    var b', a' :| Blank(b') && Blank(a') && s == b' + other + a';
    if core == "" {
      NothingLeft(b, core, a, b', other, a');
    } else if other == "" {
      NothingLeft(b', other, a', b, core, a);
    } else {
      CoreStarts(b, core, a, b', other, a');
      CoreStarts(b', other, a', b, core, a);
      CoreEnds(b, core, a, b', other, a');
      CoreEnds(b', other, a', b, core, a);
      assert core == s[|b|..|s| - |a|] == other;
    }
  }

  lemma NothingLeft(b: string, core: string, a: string, b': string, other: string, a': string)
    requires Blank(b) && Blank(a) && b + core + a == b' + other + a' && core == ""
    requires other != [] ==> !IsWhitespace(other[0])
    ensures other == ""
  {
    var s := b + core + a;
    assert forall c | c in other :: c in b' + other + a';
    assert forall c | c in s :: c in b || c in a;
  }

  lemma CoreStarts(b: string, core: string, a: string, b': string, other: string, a': string)
    requires Blank(b') && b + core + a == b' + other + a' && core != "" && !IsWhitespace(core[0])
    ensures |b'| <= |b|
  {
    var s := b + core + a;
    assert s[|b|] == core[0];
    assert forall i | 0 <= i < |b'| :: s[i] == b'[i] && b'[i] in b';
  }

  lemma CoreEnds(b: string, core: string, a: string, b': string, other: string, a': string)
    requires Blank(a') && b + core + a == b' + other + a' && core != "" && !IsWhitespace(core[|core| - 1])
    ensures |a'| <= |a|
  {
    var s := b + core + a;
    var k := |s| - |a'|;
    assert s[|s| - |a| - 1] == core[|core| - 1];
    assert forall i | k <= i < |s| :: s[i] == a'[i - k] && a'[i - k] in a';
  }

  /** Blanks around a text do not change what it is trimmed to. */
  lemma TrimIgnoresPadding(left: string, s: string, right: string)
    requires Blank(left) && Blank(right)
    ensures Trim(left + s + right) == Trim(s)
  {
    var padded := left + s + right;
    TrimMeaning(s);
    TrimMeaning(padded);
    assert padded[..|left|] == left && padded[|left|..|left| + |s|] == s && padded[|left| + |s|..] == right;
    MarginGrows(padded, Trim(s), |left|, |left| + |s|);
    TrimUnique(padded, Trim(padded), Trim(s));
  }

  // ---- The order of tags --------------------------------------------------------------------

  /** Code-point order, which is also the byte order of the UTF-8 encodings. */
  predicate Below(a: string, b: string) {
    b != [] && (a == [] || a[0] < b[0] || (a[0] == b[0] && Below(a[1..], b[1..])))
  }

  /** One string comes first where they differ first, or where it ends first. */
  lemma {:induction false} BelowMeaning(a: string, b: string)
    ensures Below(a, b) <==>
            exists k :: 0 <= k <= |a| && k < |b| && a[..k] == b[..k] && (k == |a| || a[k] < b[k])
  {
    if a == [] || b == [] || a[0] != b[0] {
      assert a[..0] == b[..0];
      forall k | 0 < k <= |a| && k < |b|
        ensures a[..k] == b[..k] ==> a[0] == b[0]
      {
        assert a[..k][0] == a[0] && b[..k][0] == b[0];
      }
    } else {
      BelowMeaning(a[1..], b[1..]);
      forall k | 0 <= k < |a| && k < |b| - 1
        ensures a[1..][..k] == b[1..][..k] <==> a[..k + 1] == b[..k + 1]
      {
        assert a[..k + 1] == [a[0]] + a[1..][..k] && b[..k + 1] == [b[0]] + b[1..][..k];
      }
      if k :| 0 <= k <= |a| && k < |b| && a[..k] == b[..k] && (k == |a| || a[k] < b[k]) {
        assert k > 0;
        assert a[1..][..k - 1] == b[1..][..k - 1];
      }
      var a', b' := a[1..], b[1..];
      if k :| 0 <= k <= |a'| && k < |b'| && a'[..k] == b'[..k] && (k == |a'| || a'[k] < b'[k]) {
        assert a[..k + 1] == b[..k + 1];
      }
    }
  }

  lemma {:induction false} BelowTotal(a: string, b: string)
    ensures a == b || Below(a, b) || Below(b, a)
  {
    if a != [] && b != [] && a[0] == b[0] {
      BelowTotal(a[1..], b[1..]);
      assert a == [a[0]] + a[1..] && b == [b[0]] + b[1..];
    }
  }

  lemma {:induction false} BelowTransitive(a: string, b: string, c: string)
    requires Below(a, b) && Below(b, c)
    ensures Below(a, c)
  {
    if a != [] && a[0] == b[0] == c[0] {
      BelowTransitive(a[1..], b[1..], c[1..]);
    }
  }

  lemma {:induction false} BelowIrreflexive(a: string)
    ensures !Below(a, a)
  {
    if a != [] {
      BelowIrreflexive(a[1..]);
    }
  }

  ghost predicate Ascending(s: seq<string>) {
    forall i, j | 0 <= i < j < |s| :: Below(s[i], s[j])
  }

  lemma AscendingDistinct(s: seq<string>)
    requires Ascending(s)
    ensures Distinct(s)
  {
    forall i, j | 0 <= i < j < |s|
      ensures s[i] != s[j]
    {
      BelowIrreflexive(s[i]);
    }
  }

  /** Collect a set in some unspecified order and sort it. */
  method Sort(items: set<string>) returns (sorted: seq<string>)
    ensures Ascending(sorted) && ToSet(sorted) == items
  {
    sorted := [];
    var left := items;
    while left != {}
      invariant Ascending(sorted)
      invariant left <= items && ToSet(sorted) == items - left
      decreases left
    {
      var item :| item in left;
      left := left - {item};
      sorted := InsertSorted(sorted, item);
    }
  }

  method InsertSorted(sorted: seq<string>, item: string) returns (r: seq<string>)
    requires Ascending(sorted) && item !in sorted
    ensures Ascending(r) && ToSet(r) == ToSet(sorted) + {item}
  {
    var i := 0;
    while i < |sorted| && Below(sorted[i], item)
      invariant 0 <= i <= |sorted|
      invariant forall k | 0 <= k < i :: Below(sorted[k], item)
    {
      i := i + 1;
    }
    forall k | i <= k < |sorted|
      ensures Below(item, sorted[k])
    {
      BelowTotal(sorted[i], item);
      if i < k {
        BelowTransitive(item, sorted[i], sorted[k]);
      }
    }
    r := sorted[..i] + [item] + sorted[i..];
    assert sorted == sorted[..i] + sorted[i..];
    assert ToSet(r) == ToSet(sorted[..i]) + {item} + ToSet(sorted[i..]);
    assert ToSet(sorted) == ToSet(sorted[..i]) + ToSet(sorted[i..]);
  }
}

/**
 * Which texts can be written literally at all: exactly those in which every run of dollars
 * before a brace is odd. For the others, adding a dollar fails in some environment, and so
 * does every other spelling that avoids placeholders.
 */
module PlaceholderRoundTrip {
  import opened Wrappers
  import opened Text
  import opened PlaceholderSyntax
  import opened PlaceholderEscape

  // ---- An even run is lost in some environment -----------------------------------------------

  /** How often a dollar stands directly before a brace. */
  function Openings(s: string): nat {
    if s == "" then 0
    else (if s[0] == '$' && StartsWith(s[1..], '{') then 1 else 0) + Openings(s[1..])
  }

  function Escapes(tokens: seq<Token>): nat {
    if tokens == [] then 0 else (if tokens[0].Escape? then 1 else 0) + Escapes(tokens[1..])
  }

  lemma OpeningsCons(c: char, rest: string)
    ensures Openings([c] + rest) == Openings(rest) + if c == '$' && StartsWith(rest, '{') then 1 else 0
  {
    assert ([c] + rest)[1..] == rest;
  }

  lemma {:induction false} OpeningsSkip(skipped: string, rest: string)
    ensures Openings(skipped + rest) >= Openings(rest)
  {
    if skipped == "" {
      assert skipped + rest == rest;
    } else {
      OpeningsSkip(skipped[1..], rest);
      assert skipped + rest == [skipped[0]] + (skipped[1..] + rest);
      OpeningsCons(skipped[0], skipped[1..] + rest);
    }
  }

  /** An escape or a placeholder takes up one opening of its own. */
  lemma TokenOpening(t: Token, rest: string)
    requires Fits(t, rest)
    ensures Openings(Spelling(t) + rest) >= Openings(rest) + if t.Plain? || t.DoubleDollar? then 0 else 1
  {
    match t {
      case Plain(_) => OpeningsSkip(Spelling(t), rest);
      case DoubleDollar => OpeningsSkip(Spelling(t), rest);
      case Escape =>
        assert "$$" + rest == ['$'] + (['$'] + rest);
        OpeningsCons('$', ['$'] + rest);
        OpeningsCons('$', rest);
      case Placeholder(body) =>
        OpensOnce(body + "}", rest);
        assert Spelling(t) + rest == "${" + (body + "}") + rest;
      case Unterminated(body) =>
        OpensOnce(body, rest);
    }
  }

  lemma OpensOnce(tail: string, rest: string)
    ensures Openings("${" + tail + rest) >= Openings(rest) + 1
  {
    OpeningsSkip("{" + tail, rest);
    assert "${" + tail + rest == ['$'] + ("{" + tail + rest);
    OpeningsCons('$', "{" + tail + rest);
  }

  /** A text with a placeholder has more openings than escapes. */
  lemma {:induction false} EscapesBelowOpenings(tokens: seq<Token>)
    requires WellLexed(tokens)
    ensures Escapes(tokens) + (if Literal(tokens) then 0 else 1) <= Openings(Source(tokens))
  {
    if tokens != [] {
      EscapesBelowOpenings(tokens[1..]);
      TokenOpening(tokens[0], Source(tokens[1..]));
      assert tokens == [tokens[0]] + tokens[1..];
      LiteralStep(tokens[0], tokens[1..]);
    }
  }

  lemma {:induction false} RunOpenings(n: nat, rest: string)
    requires n > 0 && !StartsWith(rest, '$')
    ensures Openings(Dollars(n) + rest) == Openings(rest) + if StartsWith(rest, '{') then 1 else 0
  {
    assert Dollars(n) + rest == ['$'] + (Dollars(n - 1) + rest);
    OpeningsCons('$', Dollars(n - 1) + rest);
    if n == 1 {
      assert Dollars(0) + rest == rest;
    } else {
      RunOpenings(n - 1, rest);
      assert (Dollars(n - 1) + rest)[0] == '$';
    }
  }

  /** Escaping adds one character per opening and no opening. */
  lemma {:induction false} EscapeOpenings(s: string)
    ensures Openings(EscapeText(s)) == Openings(s) && |EscapeText(s)| == |s| + Openings(s)
    decreases |s|
  {
    if s == "" {
    } else if s[0] != '$' {
      EscapeOpenings(s[1..]);
      OpeningsCons(s[0], EscapeText(s[1..]));
    } else {
      var n := DollarRun(s);
      SplitRun(s);
      EscapeUnfold(s);
      EscapeOpenings(s[n..]);
      EscapeKeepsStart(s[n..]);
      RunOpenings(n, s[n..]);
      RunOpenings(if StartsWith(s[n..], '{') then n + 1 else n, EscapeText(s[n..]));
    }
  }

  /** The environment in which every variable has the same value. */
  function Constant(value: string): Lookup {
    _ => Some(value)
  }

  lemma LongRender(t: Token, value: string)
    requires |Spelling(t)| <= |value|
    ensures var r := Render(t, Constant(value));
            r.Success? ==> |r.value| >= |Spelling(t)| - if t.Escape? then 1 else 0
  {
    hide Resolve;
  }

  /** With values as long as the text, only escapes make the result shorter than the text. */
  lemma {:induction false} LongValues(tokens: seq<Token>, value: string)
    requires |Source(tokens)| <= |value|
    ensures var r := Substitute(tokens, Constant(value));
            r.Success? ==> |r.value| >= |Source(tokens)| - Escapes(tokens)
  {
    hide Render, Spelling, Constant;
    if tokens != [] {
      LongRender(tokens[0], value);
      LongValues(tokens[1..], value);
    }
  }

  lemma EvenRunGrows(s: string)
    requires !OddRuns(s)
    ensures Expand(EscapeText(s), Constant(EscapeText(s))) != Success(s)
  {
    hide Tokenise, EscapeText, OddRuns, Substitute, Escapes, Openings;
    var u := EscapeText(s);
    var tokens := Tokenise(u);
    EscapeRoundTrip(s, Constant(u));
    TokeniseSpells(u);
    EscapesBelowOpenings(tokens);
    EscapeOpenings(s);
    LongValues(tokens, u);
  }

  /** The escape gives a text back in every environment exactly when all its runs before a brace are odd. */
  lemma EscapeWorksIff(s: string)
    ensures OddRuns(s) <==> forall lookup: Lookup :: Expand(EscapeText(s), lookup) == Success(s)
  {
    hide Expand, EscapeText, OddRuns;
    if OddRuns(s) {
      forall lookup: Lookup
        ensures Expand(EscapeText(s), lookup) == Success(s)
      {
        EscapeRoundTrip(s, lookup);
      }
    } else {
      EvenRunGrows(s);
    }
  }

  lemma ExampleEscaped()
    ensures EscapeText("$${A}") == "$$${A}"
  {
    hide EscapeText, OddRuns;
    var s := "$${A}";
    assert s[2..] == "{A}" && !StartsWith("{A}", '$');
    SplitRun(s);
    assert s[0] == s[1] == '$' && s[2] == '{';
    assert DollarRun(s) == 2;
    EscapeUnfold(s);
    PlainEscape("{A}");
    assert Dollars(3) == "$$$";
  }

  lemma ExampleTokens()
    ensures Tokenise("$$${A}") == [DoubleDollar, Placeholder("A")]
  {
    TokeniseStep(DoubleDollar, "${A}");
    TokeniseStep(Placeholder("A"), "");
    assert Spelling(DoubleDollar) + "${A}" == "$$${A}" && Spelling(Placeholder("A")) + "" == "${A}";
  }

  /**
   * Why the environment matters: two dollars before `{A}` are lost where `A` is unset, and
   * happen to come back where the value of `A` is `{A}`.
   */
  lemma EvenRunExample(unset: Lookup, lucky: Lookup)
    requires unset("A") == None && lucky("A") == Some("{A}")
    ensures EscapeText("$${A}") == "$$${A}"
    ensures Expand("$$${A}", unset) == Failure(UndefinedVariable("A"))
    ensures Expand("$$${A}", lucky) == Success("$${A}")
  {
    hide Tokenise, Resolve, EscapeText;
    ExampleEscaped();
    ExampleTokens();
    ResolveSpelled("A", "");
    SubstituteStep(Placeholder("A"), [], unset);
    SubstituteStep(Placeholder("A"), [], lucky);
    SubstituteStep(DoubleDollar, [Placeholder("A")], unset);
    SubstituteStep(DoubleDollar, [Placeholder("A")], lucky);
    assert [DoubleDollar] + [Placeholder("A")] == [DoubleDollar, Placeholder("A")];
    assert [Placeholder("A")] + [] == [Placeholder("A")];
    assert "{A}" + "" == "{A}" && "$$" + "{A}" == "$${A}";
    assert Substitute([Placeholder("A")], lucky) == Success("{A}");
  }

  /** A text without dollars needs no escape. */
  lemma {:induction false} PlainEscape(s: string)
    requires '$' !in s
    ensures EscapeText(s) == s
  {
    if s != "" {
      PlainEscape(s[1..]);
    }
  }

  // ---- No literal spelling at all ------------------------------------------------------------

  /** Two more dollars, not before a brace, change the parity of no run. */
  lemma TwoDollarsKeepParity(x: string)
    requires !StartsWith(x, '{')
    ensures OddRuns("$$" + x) <==> OddRuns(x)
  {
    var s := "$$" + x;
    var m := DollarRun(x);
    assert s[1..][1..] == x;
    assert DollarRun(s) == 2 + m;
    assert s[2 + m..] == x[m..];
  }

  lemma OneDollarIsOdd(x: string)
    requires !StartsWith(x, '$')
    ensures OddRuns("$" + x) <==> OddRuns(x)
  {
    var s := "$" + x;
    assert s[1..] == x;
    assert DollarRun(s) == 1;
  }

  /** What literal tokens render to starts as their spelling starts, and has odd runs only. */
  lemma {:induction false} LiteralIsOdd(tokens: seq<Token>, lookup: Lookup)
    requires WellLexed(tokens) && Literal(tokens)
    ensures var r := Substitute(tokens, lookup);
            && r.Success? && OddRuns(r.value)
            && (Source(tokens) == "" <==> r.value == "")
            && (r.value != "" ==> r.value[0] == Source(tokens)[0])
  {
    if tokens != [] {
      assert tokens == [tokens[0]] + tokens[1..];
      LiteralStep(tokens[0], tokens[1..]);
      LiteralIsOdd(tokens[1..], lookup);
      var x := Substitute(tokens[1..], lookup).value;
      match tokens[0] {
        case Plain(c) =>
          if c == '$' {
            OneDollarIsOdd(x);
          } else {
            assert ([c] + x)[1..] == x;
          }
        case DoubleDollar => TwoDollarsKeepParity(x);
        case Escape => OneDollarIsOdd(x);
      }
    }
  }

  /** A text has a spelling without placeholders exactly when all its runs before a brace are odd. */
  lemma LiteralSpellingIff(s: string, lookup: Lookup)
    ensures (exists u :: Literal(Tokenise(u)) && Expand(u, lookup) == Success(s)) <==> OddRuns(s)
  {
    if u :| Literal(Tokenise(u)) && Expand(u, lookup) == Success(s) {
      TokeniseSpells(u);
      LiteralIsOdd(Tokenise(u), lookup);
    }
    if OddRuns(s) {
      EscapeRoundTrip(s, lookup);
      assert Literal(Tokenise(EscapeText(s))) && Expand(EscapeText(s), lookup) == Success(s);
    }
  }
}

/**
 * Writing literal text: adding one dollar to each run of dollars directly before a brace
 * makes a text literal exactly when all those runs have odd length, and then gives it back.
 */
module PlaceholderEscape {
  import opened Wrappers
  import opened PlaceholderSyntax

  /** The length of the maximal run of dollars at the start. */
  function DollarRun(s: string): (n: nat)
    ensures n <= |s| && (forall i | 0 <= i < n :: s[i] == '$') && !StartsWith(s[n..], '$')
  {
    if StartsWith(s, '$') then 1 + DollarRun(s[1..]) else 0
  }

  /** Every maximal run of dollars directly before a brace has odd length. */
  predicate OddRuns(s: string)
    decreases |s|
  {
    if s == "" then true
    else if s[0] != '$' then OddRuns(s[1..])
    else
      var n := DollarRun(s);
      (StartsWith(s[n..], '{') ==> n % 2 == 1) && OddRuns(s[n..])
  }

  /** One more dollar for every maximal run directly before a brace. */
  function EscapeText(s: string): string
    decreases |s|
  {
    if s == "" then ""
    else if s[0] != '$' then [s[0]] + EscapeText(s[1..])
    else
      var n := DollarRun(s);
      s[..n] + (if StartsWith(s[n..], '{') then "$" else "") + EscapeText(s[n..])
  }

  function Dollars(n: nat): string {
    seq(n, _ => '$')
  }

  /** No token depends on an environment. */
  predicate Literal(tokens: seq<Token>) {
    forall t | t in tokens :: !t.Placeholder? && !t.Unterminated?
  }

  lemma TokeniseStep(t: Token, rest: string)
    requires Fits(t, rest)
    ensures Tokenise(Spelling(t) + rest) == [t] + Tokenise(rest)
  {
    FitsIsFirst(t, rest);
    var s := Spelling(t) + rest;
    assert s != "" && s[|Spelling(t)|..] == rest;
  }

  lemma SubstituteStep(t: Token, tokens: seq<Token>, lookup: Lookup)
    ensures Substitute([t] + tokens, lookup) ==
            if Render(t, lookup).Failure? then Failure(Render(t, lookup).error)
            else if Substitute(tokens, lookup).Failure? then Substitute(tokens, lookup)
            else Success(Render(t, lookup).value + Substitute(tokens, lookup).value)
  {
    assert ([t] + tokens)[1..] == tokens;
  }

  lemma LiteralStep(t: Token, tokens: seq<Token>)
    ensures Literal([t] + tokens) <==> !t.Placeholder? && !t.Unterminated? && Literal(tokens)
  {
    assert forall u :: u in [t] + tokens <==> u == t || u in tokens;
  }

  // ---- A run of dollars ----------------------------------------------------------------------

  lemma TwoDollars(n: nat, rest: string)
    requires n >= 2
    ensures Dollars(n) + rest == "$$" + (Dollars(n - 2) + rest)
    ensures StartsWith(Dollars(n - 2) + rest, '{') <==> n == 2 && StartsWith(rest, '{')
  {
    assert Dollars(n) == "$$" + Dollars(n - 2);
    if n > 2 {
      assert (Dollars(n - 2) + rest)[0] == '$';
    } else {
      assert Dollars(0) + rest == rest;
    }
  }

  /** A run not followed by a brace stands for itself. */
  lemma {:induction false} PlainRun(n: nat, rest: string, lookup: Lookup)
    requires !StartsWith(rest, '$') && !StartsWith(rest, '{')
    ensures var tokens := Tokenise(Dollars(n) + rest);
            && (Literal(tokens) <==> Literal(Tokenise(rest)))
            && (Expand(rest, lookup).Success? ==>
                  Expand(Dollars(n) + rest, lookup) == Success(Dollars(n) + Expand(rest, lookup).value))
  {
    if n == 0 {
      assert Dollars(0) + rest == rest;
      assert Expand(rest, lookup).Success? ==> Dollars(0) + Expand(rest, lookup).value == Expand(rest, lookup).value;
    } else if n == 1 {
      assert Dollars(1) == "$";
      TokeniseStep(Plain('$'), rest);
      SubstituteStep(Plain('$'), Tokenise(rest), lookup);
      LiteralStep(Plain('$'), Tokenise(rest));
    } else {
      PlainRun(n - 2, rest, lookup);
      PairStep(DoubleDollar, n, rest, lookup);
      if Expand(rest, lookup).Success? {
        TwoDollars(n, Expand(rest, lookup).value);
      }
    }
  }

  lemma PairStep(t: Token, n: nat, rest: string, lookup: Lookup)
    requires n >= 2 && t == if n == 2 && StartsWith(rest, '{') then Escape else DoubleDollar
    ensures var shorter := Tokenise(Dollars(n - 2) + rest);
            && Tokenise(Dollars(n) + rest) == [t] + shorter
            && (Literal(Tokenise(Dollars(n) + rest)) <==> Literal(shorter))
            && (Expand(Dollars(n - 2) + rest, lookup).Success? ==>
                  Expand(Dollars(n) + rest, lookup) ==
                  Success(Render(t, lookup).value + Expand(Dollars(n - 2) + rest, lookup).value))
  {
    TwoDollars(n, rest);
    TokeniseStep(t, Dollars(n - 2) + rest);
    SubstituteStep(t, Tokenise(Dollars(n - 2) + rest), lookup);
    LiteralStep(t, Tokenise(Dollars(n - 2) + rest));
  }

  /** An even run before a brace loses its last dollar. */
  lemma {:induction false} EvenRun(n: nat, rest: string, lookup: Lookup)
    requires n >= 2 && n % 2 == 0 && StartsWith(rest, '{')
    ensures Literal(Tokenise(Dollars(n) + rest)) <==> Literal(Tokenise(rest))
    ensures Expand(rest, lookup).Success? ==>
            Expand(Dollars(n) + rest, lookup) == Success(Dollars(n - 1) + Expand(rest, lookup).value)
  {
    hide Tokenise, Substitute;
    if n == 2 {
      PairStep(Escape, n, rest, lookup);
      assert Dollars(0) + rest == rest && Dollars(1) == "$";
    } else {
      EvenRun(n - 2, rest, lookup);
      PairStep(DoubleDollar, n, rest, lookup);
      if Expand(rest, lookup).Success? {
        TwoDollars(n - 1, Expand(rest, lookup).value);
      }
    }
  }

  /** An odd run before a brace opens a placeholder. */
  lemma {:induction false} OddRunOpens(n: nat, rest: string, lookup: Lookup)
    requires n % 2 == 1 && StartsWith(rest, '{')
    ensures !Literal(Tokenise(Dollars(n) + rest))
  {
    if n == 1 {
      assert Dollars(1) + rest == "$" + rest;
      var s := "$" + rest;
      assert s[1..] == rest && s != "";
      assert FirstToken(s) in Tokenise(s);
    } else {
      OddRunOpens(n - 2, rest, lookup);
      PairStep(DoubleDollar, n, rest, lookup);
    }
  }

  // ---- Round trip ----------------------------------------------------------------------------

  lemma SplitRun(s: string)
    requires StartsWith(s, '$')
    ensures var n := DollarRun(s); n > 0 && s[..n] == Dollars(n) && s == Dollars(n) + s[n..]
  {
    var n := DollarRun(s);
    assert s == s[..n] + s[n..];
  }

  lemma {:induction false} EscapeKeepsStart(s: string)
    requires !StartsWith(s, '$')
    ensures EscapeText(s) == "" <==> s == ""
    ensures s != "" ==> EscapeText(s)[0] == s[0]
  {
  }

  /**
   * Escaped text is literal exactly when every run of dollars before a brace is odd, and then
   * it expands to the original; with an even run it still holds a placeholder.
   */
  lemma {:induction false} EscapeRoundTrip(s: string, lookup: Lookup)
    ensures Literal(Tokenise(EscapeText(s))) <==> OddRuns(s)
    ensures OddRuns(s) ==> Expand(EscapeText(s), lookup) == Success(s)
    decreases |s|
  {
    if s == "" {
    } else if s[0] != '$' {
      var rest := EscapeText(s[1..]);
      EscapeRoundTrip(s[1..], lookup);
      TokeniseStep(Plain(s[0]), rest);
      SubstituteStep(Plain(s[0]), Tokenise(rest), lookup);
      LiteralStep(Plain(s[0]), Tokenise(rest));
      assert s == [s[0]] + s[1..];
    } else {
      EscapeRun(s, lookup);
    }
  }

  lemma EscapeUnfold(s: string)
    requires StartsWith(s, '$')
    ensures var n, brace := DollarRun(s), StartsWith(s[DollarRun(s)..], '{');
            && EscapeText(s) == Dollars(if brace then n + 1 else n) + EscapeText(s[n..])
            && (OddRuns(s) <==> (brace ==> n % 2 == 1) && OddRuns(s[n..]))
  {
    var n := DollarRun(s);
    assert s[..n] == Dollars(n);
    assert Dollars(n) + "$" == Dollars(n + 1);
    assert Dollars(n) + "" == Dollars(n);
  }

  lemma {:induction false} EscapeRun(s: string, lookup: Lookup)
    requires StartsWith(s, '$')
    ensures Literal(Tokenise(EscapeText(s))) <==> OddRuns(s)
    ensures OddRuns(s) ==> Expand(EscapeText(s), lookup) == Success(s)
    decreases |s|, 0
  {
    hide Tokenise, Expand, Literal, EscapeText, OddRuns;
    var n := DollarRun(s);
    var rest := EscapeText(s[n..]);
    SplitRun(s);
    EscapeUnfold(s);
    EscapeRoundTrip(s[n..], lookup);
    assert !StartsWith(s[n..], '$');
    EscapeKeepsStart(s[n..]);
    if StartsWith(s[n..], '{') {
      assert rest[0] == '{';
      if n % 2 == 1 {
        EvenRun(n + 1, rest, lookup);
      } else {
        OddRunOpens(n + 1, rest, lookup);
      }
    } else {
      PlainRun(n, rest, lookup);
    }
  }
}

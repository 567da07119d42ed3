/** Printing a policy as text and reading it back: exactly when the tree survives. */
module PolicyRoundTrip {
  import opened Text
  import opened PolicyTokens
  import opened PolicyLexer
  import opened PolicyParser

  /** Tokens each preceded by a space, and tokens joined by spaces. */
  function Spaced(ts: seq<Token>): (s: string)
  {
    if |ts| == 0 then "" else " " + (Spelling(ts[0]) + Spaced(ts[1..]))
  }

  function Printed(ts: seq<Token>): (s: string)
  {
    if |ts| == 0 then "" else Spelling(ts[0]) + Spaced(ts[1..])
  }

  /** Lexing and then parsing. */
  function ParseText(s: string): (tree: Option<Expr>)
  {
    var ts := Lex(s);
    if ts.None? then None else Parse(ts.value)
  }

  // ----- one token -----

  ghost predicate Starts(rule: Rule, c: char)
  {
    match rule
    case WS => c == ' ' || c == 't'
    case COUNT => c == 'c'
    case INTLIT => '0' <= c <= '9'
    case AND => c == '&'
    case OR => c == '|'
    case GREATER_THAN => c == '>'
    case LESS_THAN => c == '<'
    case EQUAL => c == '='
    case GREATER_THAN_EQUAL => c == '>'
    case LESS_THAN_EQUAL => c == '<'
    case ID => c == '_' || 'a' <= c <= 'z'
  }

  lemma StartsRight(rule: Rule, s: string)
    requires MatchLength(rule, s) > 0
    ensures s != "" && Starts(rule, s[0])
  {
    match rule
    case COUNT => assert "count"[0] == s[0];
    case AND => assert "&&"[0] == s[0];
    case OR => assert "||"[0] == s[0];
    case GREATER_THAN => assert ">"[0] == s[0];
    case LESS_THAN => assert "<"[0] == s[0];
    case EQUAL => assert "=="[0] == s[0];
    case GREATER_THAN_EQUAL => assert ">="[0] == s[0];
    case LESS_THAN_EQUAL => assert "<="[0] == s[0];
    case _ =>
  }

  lemma WinnerIs(s: string, rule: Rule)
    requires forall r :: Order(r) < Order(rule) ==> MatchLength(r, s) < MatchLength(rule, s)
    requires forall r :: Order(r) > Order(rule) ==> MatchLength(r, s) <= MatchLength(rule, s)
    ensures Winner(s) == rule
  {
    WinnerIsLongestThenEarliest(s, rule);
  }

  /** What may follow a printed token. */
  ghost predicate Ends(rest: string)
  {
    rest == "" || rest[0] == ' '
  }

  lemma SpanStops(p: char -> bool, a: string, rest: string)
    requires (forall i :: 0 <= i < |a| ==> p(a[i])) && (rest == "" || !p(rest[0]))
    ensures Span(p, a + rest) == |a|
  {
    var s := a + rest;
    assert forall i :: 0 <= i < |a| ==> s[i] == a[i];
    assert rest != "" ==> s[|a|] == rest[0];
  }

  lemma IdShape(name: string)
    requires name != "" && IdLength(name) == |name|
    ensures forall i :: 0 <= i < |name| ==> IdRest(name[i])
    ensures name[0] == '_' || 'a' <= name[0] <= 'z'
  {
    var u := Span(Underscore, name);
    forall i | 0 <= i < |name|
      ensures IdRest(name[i])
    {
      if i > u { assert name[u + 1..][i - u - 1] == name[i]; }
    }
  }

  lemma IdStops(name: string, rest: string)
    requires name != "" && IdLength(name) == |name| && Ends(rest)
    ensures IdLength(name + rest) == |name|
  {
    var u := Span(Underscore, name);
    var s := name + rest;
    assert forall i :: 0 <= i < |name| ==> s[i] == name[i];
    assert Span(Underscore, s) == u;
    assert s[u + 1..] == name[u + 1..] + rest;
    SpanStops(IdRest, name[u + 1..], rest);
  }

  lemma IntStops(digits: string, rest: string)
    requires digits != "" && IntLength(digits) == |digits| && Ends(rest)
    ensures IntLength(digits + rest) == |digits|
  {
    var s := digits + rest;
    if digits[0] != '0' {
      assert s[1..] == digits[1..] + rest;
      SpanStops(Digit, digits[1..], rest);
    }
  }

  /** A keyword or operator, by the only other rules that can start like it. */
  lemma LiteralWins(t: Token, rest: string)
    requires !t.IntLit? && !t.Id? && Ends(rest)
    ensures Winner(Spelling(t) + rest) == RuleOf(t)
    ensures MatchLength(RuleOf(t), Spelling(t) + rest) == |Spelling(t)|
  {
    if t == Count { CountWins(rest); } else { OperatorWins(t, rest); }
  }

  lemma CountWins(rest: string)
    requires Ends(rest)
    ensures Winner("count" + rest) == COUNT && MatchLength(COUNT, "count" + rest) == 5
  {
    var s := "count" + rest;
    assert s[0] == 'c' && "count" <= s;
    CountIsId(rest);
    forall r | r != COUNT && r != ID
      ensures MatchLength(r, s) == 0
    {
      if MatchLength(r, s) > 0 { StartsRight(r, s); }
    }
    WinnerIs(s, COUNT);
  }

  lemma OperatorWins(t: Token, rest: string)
    requires !t.IntLit? && !t.Id? && !t.Count? && Ends(rest)
    ensures Winner(Spelling(t) + rest) == RuleOf(t)
    ensures MatchLength(RuleOf(t), Spelling(t) + rest) == |Spelling(t)|
  {
    assert Spelling(t) <= Spelling(t) + rest;
    forall r | r != RuleOf(t)
      ensures var s, n := Spelling(t) + rest, |Spelling(t)|;
        MatchLength(r, s) <= n && (Order(r) < Order(RuleOf(t)) ==> MatchLength(r, s) < n)
    {
      OperatorLosesToNone(t, r, rest);
    }
    WinnerIs(Spelling(t) + rest, RuleOf(t));
  }

  lemma OperatorLosesToNone(t: Token, r: Rule, rest: string)
    requires !t.IntLit? && !t.Id? && !t.Count? && r != RuleOf(t) && Ends(rest)
    ensures var s, n := Spelling(t) + rest, |Spelling(t)|;
      MatchLength(r, s) <= n && (Order(r) < Order(RuleOf(t)) ==> MatchLength(r, s) < n)
  {
    var s := Spelling(t) + rest;
    assert s[0] == Spelling(t)[0];
    if MatchLength(r, s) > 0 {
      StartsRight(r, s);
      if r == GREATER_THAN_EQUAL || r == LESS_THAN_EQUAL {
        assert s[1] == '=';
      }
    }
  }

  lemma CountIsId(rest: string)
    requires Ends(rest)
    ensures IdLength("count" + rest) == 5
  {
    var name := "count";
    assert Span(Underscore, name) == 0;
    assert name[1..] == "ount" && "ount" + "" == "ount";
    assert forall i :: 0 <= i < 4 ==> IdRest("ount"[i]);
    SpanStops(IdRest, "ount", "");
    IdStops(name, rest);
  }

  lemma IntWins(digits: string, rest: string)
    requires WellSpelled(IntLit(digits)) && Ends(rest)
    ensures Winner(digits + rest) == INTLIT && MatchLength(INTLIT, digits + rest) == |digits|
  {
    var s := digits + rest;
    IntStops(digits, rest);
    forall r | r != INTLIT
      ensures MatchLength(r, s) == 0
    {
      if MatchLength(r, s) > 0 { StartsRight(r, s); }
    }
    WinnerIs(s, INTLIT);
  }

  ghost predicate OnlyT(name: string)
  {
    forall i :: 0 <= i < |name| ==> name[i] == 't'
  }

  lemma CountIsShorter(name: string, rest: string)
    requires WellSpelled(Id(name)) && name != "count" && Ends(rest)
    ensures MatchLength(COUNT, name + rest) < |name|
  {
    var s := name + rest;
    var count := "count";
    if |name| < 5 {
      assert ' ' != count[|name|];
      assert |name| < |s| ==> s[|name|] == ' ';
      assert !(count <= s);
    } else if |name| == 5 {
      assert s[..5] == name;
      assert !(count <= s);
    }
  }

  lemma WhiteIsShorter(name: string, rest: string)
    requires WellSpelled(Id(name)) && !OnlyT(name)
    ensures MatchLength(WS, name + rest) < |name|
  {
    IdShape(name);
    var s := name + rest;
    var i :| 0 <= i < |name| && name[i] != 't';
    assert s[i] == name[i] && !White(s[i]);
  }

  lemma IdWins(name: string, rest: string)
    requires WellSpelled(Id(name)) && name != "count" && !OnlyT(name) && Ends(rest)
    ensures Winner(name + rest) == ID && MatchLength(ID, name + rest) == |name|
  {
    var s := name + rest;
    IdStops(name, rest);
    IdShape(name);
    CountIsShorter(name, rest);
    WhiteIsShorter(name, rest);
    forall r | r != ID
      ensures MatchLength(r, s) < |name|
    {
      if MatchLength(r, s) > 0 { StartsRight(r, s); }
    }
    WinnerIs(s, ID);
  }

  /** Does a token at the very start of the text keep its reading? */
  ghost predicate ReadFirst(t: Token)
  {
    t.Id? ==> t.name != "count" && !OnlyT(t.name)
  }

  /** Does a token after a space? The whitespace rule would take a leading `t` with the space. */
  ghost predicate ReadLater(t: Token)
  {
    t.Id? ==> t.name != "count" && (t.name == "" || t.name[0] != 't')
  }

  lemma TokenWins(t: Token, rest: string)
    requires WellSpelled(t) && ReadFirst(t) && Ends(rest)
    ensures Winner(Spelling(t) + rest) == RuleOf(t) && MatchLength(RuleOf(t), Spelling(t) + rest) == |Spelling(t)| > 0
  {
    if t.IntLit? {
      IntWins(t.digits, rest);
    } else if t.Id? {
      IdWins(t.name, rest);
    } else {
      LiteralWins(t, rest);
    }
  }

  lemma LexOne(t: Token, rest: string)
    requires WellSpelled(t) && ReadFirst(t) && Ends(rest)
    ensures Lex(Spelling(t) + rest) == if Lex(rest).None? then None else Some([t] + Lex(rest).value)
  {
    var s := Spelling(t) + rest;
    TokenWins(t, rest);
    LexTakes(s);
    assert s[..|Spelling(t)|] == Spelling(t) && s[|Spelling(t)|..] == rest;
  }

  // ----- what a lexed text can weigh -----

  /** The characters in the spellings of some tokens. */
  function Weight(ts: seq<Token>): (n: nat)
  {
    if |ts| == 0 then 0 else |Spelling(ts[0])| + Weight(ts[1..])
  }

  lemma {:induction false} OccurrencesConcat(a: string, b: string, c: char)
    ensures Occurrences(a + b, c) == Occurrences(a, c) + Occurrences(b, c)
  {
    if a == "" {
      assert a + b == b;
    } else {
      assert (a + b)[1..] == a[1..] + b;
      OccurrencesConcat(a[1..], b, c);
    }
  }

  lemma {:induction false} OccurrencesBound(a: string, c: char)
    ensures Occurrences(a, c) <= |a|
    ensures c !in a ==> Occurrences(a, c) == 0
    ensures (exists i :: 0 <= i < |a| && a[i] != c) ==> Occurrences(a, c) < |a|
  {
    if a != "" {
      OccurrencesBound(a[1..], c);
      if i :| 0 <= i < |a| && a[i] != c {
        assert i > 0 ==> a[1..][i - 1] == a[i];
      }
    }
  }

  lemma NoSpaceInId(s: string)
    ensures ' ' !in s[..IdLength(s)]
  {
    var u := Span(Underscore, s);
    forall i | 0 <= i < IdLength(s)
      ensures s[i] != ' '
    {
      assert i > u ==> s[u + 1..][i - u - 1] == s[i];
    }
  }

  lemma NoSpaceInInt(s: string)
    ensures ' ' !in s[..IntLength(s)]
  {
    forall i | 0 <= i < IntLength(s)
      ensures s[i] != ' '
    {
      assert i > 0 ==> s[1..][i - 1] == s[i];
    }
  }

  /** A token's text is what the rule matched, and has no space in it. */
  lemma MatchedText(rule: Rule, s: string)
    requires rule != WS && MatchLength(rule, s) > 0
    ensures var n := MatchLength(rule, s);
      |Spelling(Make(rule, s[..n]))| == n && ' ' !in s[..n]
  {
    var n := MatchLength(rule, s);
    if rule == INTLIT {
      NoSpaceInInt(s);
    } else if rule == ID {
      NoSpaceInId(s);
    } else {
      assert s[..n] == Spelling(Make(rule, s[..n]));
    }
  }

  /** Every space is skipped, so the tokens weigh at most the other characters. */
  lemma {:induction false} TokensWeighNoSpaces(s: string)
    ensures Lex(s).Some? ==> Weight(Lex(s).value) + Occurrences(s, ' ') <= |s|
    decreases |s|
  {
    if s != "" && MatchLength(Winner(s), s) > 0 {
      var n := MatchLength(Winner(s), s);
      TokensWeighNoSpaces(s[n..]);
      assert s == s[..n] + s[n..];
      OccurrencesConcat(s[..n], s[n..], ' ');
      OccurrencesBound(s[..n], ' ');
      if Winner(s) != WS && Lex(s).Some? {
        MatchedText(Winner(s), s);
        assert Lex(s).value[1..] == Lex(s[n..]).value;
      }
    }
  }

  ghost predicate AllWellSpelled(ts: seq<Token>)
  {
    forall i :: 0 <= i < |ts| ==> WellSpelled(ts[i])
  }

  ghost predicate AllReadLater(ts: seq<Token>)
  {
    forall i :: 0 <= i < |ts| ==> ReadLater(ts[i])
  }

  lemma {:induction false} HeadAndTail(ts: seq<Token>)
    requires |ts| > 0
    ensures AllWellSpelled(ts) <==> WellSpelled(ts[0]) && AllWellSpelled(ts[1..])
    ensures AllReadLater(ts) <==> ReadLater(ts[0]) && AllReadLater(ts[1..])
    ensures AllReadLater(ts[1..]) <==> forall i :: 1 <= i < |ts| ==> ReadLater(ts[i])
  {
    var tail := ts[1..];
    assert forall i :: 1 <= i < |ts| ==> ts[i] == tail[i - 1];
    assert forall i :: 0 <= i < |tail| ==> tail[i] == ts[i + 1];
  }

  lemma {:induction false} SpacedWeighs(ts: seq<Token>)
    requires AllWellSpelled(ts)
    ensures |Spaced(ts)| == Weight(ts) + |ts| && Occurrences(Spaced(ts), ' ') == |ts| && Ends(Spaced(ts))
  {
    if |ts| > 0 {
      HeadAndTail(ts);
      SpacedWeighs(ts[1..]);
      NoSpaceInside(ts[0]);
      var s := Spelling(ts[0]) + Spaced(ts[1..]);
      OccurrencesConcat(Spelling(ts[0]), Spaced(ts[1..]), ' ');
      OccurrencesBound(Spelling(ts[0]), ' ');
      assert (" " + s)[1..] == s;
    }
  }

  lemma NoSpaceInside(t: Token)
    requires WellSpelled(t)
    ensures Spelling(t) != "" && ' ' !in Spelling(t)
  {
    match t
    case IntLit(digits) => MatchedText(INTLIT, digits); assert digits[..|digits|] == digits;
    case Id(name) => MatchedText(ID, name); assert name[..|name|] == name;
    case _ =>
  }

  lemma SwallowedCounts(s: string, n: nat, i: nat)
    requires i < n <= |s| && s[i] != ' '
    ensures |s[n..]| - Occurrences(s[n..], ' ') < |s| - Occurrences(s, ' ')
  {
    assert s == s[..n] + s[n..];
    OccurrencesConcat(s[..n], s[n..], ' ');
    assert s[..n][i] != ' ';
    OccurrencesBound(s[..n], ' ');
  }

  /** If whitespace swallows a character that is no space, the tokens cannot all come back. */
  lemma {:induction false} SwallowedIsLost(s: string, n: nat, i: nat, ts: seq<Token>)
    requires i < n <= |s| && s[i] != ' ' && |s| == Weight(ts) + Occurrences(s, ' ')
    ensures Lex(s[n..]) != Some(ts)
  {
    SwallowedCounts(s, n, i);
    TokensWeighNoSpaces(s[n..]);
  }

  // ----- the whole text -----

  lemma SpaceWins(u: string)
    ensures Winner(" " + u) == WS && MatchLength(WS, " " + u) == 1 + Span(White, u)
  {
    var s := " " + u;
    assert s[0] == ' ' && s[1..] == u;
    forall r | r != WS
      ensures MatchLength(r, s) == 0
    {
      if MatchLength(r, s) > 0 { StartsRight(r, s); }
    }
    WinnerIs(s, WS);
  }

  lemma LexSpace(u: string)
    ensures Lex(" " + u) == Lex(u[Span(White, u)..])
  {
    SpaceWins(u);
    var n := Span(White, u);
    assert (" " + u)[1 + n..] == u[n..];
  }

  lemma {:induction false} CountIsNoName(name: string, rest: string, ts: seq<Token>)
    requires name == "count" && Ends(rest) && |ts| > 0 && ts[0] == Id(name)
    ensures Lex(name + rest) != Some(ts)
  {
    LexOne(Count, rest);
  }

  /** After a space, tokens come back exactly if no name is `count` or starts with `t`. */
  lemma {:induction false} SpacedSurvives(ts: seq<Token>)
    requires AllWellSpelled(ts)
    ensures Lex(Spaced(ts)) == Some(ts) <==> AllReadLater(ts)
  {
    if |ts| > 0 {
      var t, rest := ts[0], Spaced(ts[1..]);
      HeadAndTail(ts);
      SpacedSurvives(ts[1..]);
      SpacedWeighs(ts[1..]);
      NoSpaceInside(t);
      if Spelling(t)[0] == 't' {
        SpacedWeighs(ts);
        StartsWithT(t, rest, ts);
      } else {
        StartsElse(t, rest, ts);
      }
    }
  }

  lemma SpaceSkipped(u: string)
    requires u != "" && !White(u[0])
    ensures Lex(" " + u) == Lex(u)
  {
    LexSpace(u);
    assert Span(White, u) == 0 && u[0..] == u;
  }

  lemma {:induction false} StartsElse(t: Token, rest: string, ts: seq<Token>)
    requires |ts| > 0 && ts[0] == t && WellSpelled(t) && Spaced(ts) == " " + (Spelling(t) + rest) && Ends(rest)
    requires Spelling(t) != "" && ' ' !in Spelling(t) && Spelling(t)[0] != 't'
    ensures Lex(Spaced(ts)) == Some(ts) <==> ReadLater(t) && Lex(rest) == Some(ts[1..])
  {
    var u := Spelling(t) + rest;
    assert u[0] == Spelling(t)[0] && ts == [t] + ts[1..];
    SpaceSkipped(u);
    if t.Id? && t.name == "count" {
      CountIsNoName(t.name, rest, ts);
    } else {
      assert ReadFirst(t);
      LexOne(t, rest);
    }
  }

  /** A `t` after a space is skipped with it. */
  lemma {:induction false} TakesT(u: string, s: string, ts: seq<Token>)
    requires u != "" && u[0] == 't' && s == " " + u && |s| == Weight(ts) + Occurrences(s, ' ')
    ensures Lex(s) != Some(ts)
  {
    LexSpace(u);
    var n := 1 + Span(White, u);
    assert s[n..] == u[n - 1..];
    SwallowedIsLost(s, n, 1, ts);
  }

  lemma {:induction false} StartsWithT(t: Token, rest: string, ts: seq<Token>)
    requires |ts| > 0 && ts[0] == t && WellSpelled(t) && Spaced(ts) == " " + (Spelling(t) + rest)
    requires |Spaced(ts)| == Weight(ts) + Occurrences(Spaced(ts), ' ')
    requires Spelling(t) != "" && Spelling(t)[0] == 't'
    ensures !ReadLater(t) && Lex(Spaced(ts)) != Some(ts)
  {
    var u := Spelling(t) + rest;
    assert u[0] == 't';
    TakesT(u, Spaced(ts), ts);
  }

  /** Which tokens survive being printed and lexed. */
  ghost predicate Survive(ts: seq<Token>)
  {
    |ts| > 0 ==> ReadFirst(ts[0]) && forall i :: 1 <= i < |ts| ==> ReadLater(ts[i])
  }

  lemma {:induction false} PrintedSurvives(ts: seq<Token>)
    requires AllWellSpelled(ts)
    ensures Lex(Printed(ts)) == Some(ts) <==> Survive(ts)
  {
    if |ts| > 0 {
      var t, later := ts[0], ts[1..];
      HeadAndTail(ts);
      SpacedSurvives(later);
      SpacedWeighs(later);
      assert ts == [t] + later;
      if ReadFirst(t) {
        LexOne(t, Spaced(later));
      } else if t.name == "count" {
        CountIsNoName(t.name, Spaced(later), ts);
      } else {
        OnlyTIsLost(t.name, Spaced(later), ts);
      }
    }
  }

  lemma {:induction false} OnlyTIsLost(name: string, rest: string, ts: seq<Token>)
    requires WellSpelled(Id(name)) && OnlyT(name) && Ends(rest) && |ts| > 0 && ts[0] == Id(name)
    requires |rest| == Weight(ts[1..]) + Occurrences(rest, ' ')
    ensures Lex(name + rest) != Some(ts)
  {
    var s := name + rest;
    IdStops(name, rest);
    assert forall i :: 0 <= i < |name| ==> s[i] == name[i] && White(s[i]);
    var n := Span(White, s);
    assert n >= |name|;
    forall r | r != WS
      ensures MatchLength(r, s) <= n
    {
      if MatchLength(r, s) > 0 { StartsRight(r, s); }
    }
    WinnerIs(s, WS);
    NoSpaceInside(Id(name));
    OccurrencesConcat(name, rest, ' ');
    OccurrencesBound(name, ' ');
    assert s[0] != ' ';
    SwallowedIsLost(s, n, 0, ts);
    LexTakes(s);
  }

  /** The text round trip: for every canonical tree with well-spelled leaves, printing and
      reading back gives the tree if and only if no identifier is `count`, none after the first
      token starts with `t`, and the first token is not made of `t` alone. */
  lemma {:induction false} TextRoundTripExactly(e: Expr)
    requires IsCanonical(e) && AllWellSpelled(Yield(e))
    ensures ParseText(Printed(Yield(e))) == Some(e) <==> Survive(Yield(e))
  {
    var ts := Yield(e);
    PrintedSurvives(ts);
    ParsesExactlyCanonicalTrees(ts, e);
    if ParseText(Printed(ts)) == Some(e) {
      ParsesExactlyCanonicalTrees(Lex(Printed(ts)).value, e);
    }
  }

  // ----- accepted texts -----

  /** A lexed token is well spelled, is no name `count` and no name made of `t` alone. */
  lemma LexedToken(s: string)
    requires MatchLength(Winner(s), s) > 0 && Winner(s) != WS
    ensures var t := Make(Winner(s), s[..MatchLength(Winner(s), s)]); WellSpelled(t) && ReadFirst(t)
  {
    var rule, n := Winner(s), MatchLength(Winner(s), s);
    var text := s[..n];
    MatchIsInLanguage(rule, s);
    assert text[..n] == text;
    MatchIsLongest(rule, text, n);
    if rule == ID {
      WinnerIsLongestThenEarliest(s, COUNT);
      WinnerIsLongestThenEarliest(s, WS);
      assert text <= s && forall i :: 0 <= i < n ==> s[i] == text[i];
    }
  }

  ghost predicate AllReadFirst(ts: seq<Token>)
  {
    forall i :: 0 <= i < |ts| ==> WellSpelled(ts[i]) && ReadFirst(ts[i])
  }

  lemma {:induction false} OneMoreToken(t: Token, ts: seq<Token>)
    requires WellSpelled(t) && ReadFirst(t) && AllReadFirst(ts)
    ensures AllReadFirst([t] + ts)
  {
  }

  lemma {:induction false} LexedTokens(s: string)
    requires Lex(s).Some?
    ensures AllReadFirst(Lex(s).value)
    decreases |s|
  {
    if s != "" {
      var n := MatchLength(Winner(s), s);
      LexTakes(s);
      LexedTokens(s[n..]);
      if Winner(s) != WS {
        LexedToken(s);
        OneMoreToken(Make(Winner(s), s[..n]), Lex(s[n..]).value);
      }
    }
  }

  /** Reprinting an accepted text: it reads as the same policy again if and only if no name after
      the first token starts with `t`. */
  lemma {:induction false} ReprintedExactly(s: string)
    requires ParseText(s).Some?
    ensures var ts := Lex(s).value;
      ParseText(Printed(ts)) == ParseText(s) <==>
      forall i :: 1 <= i < |ts| && ts[i].Id? ==> !("t" <= ts[i].name)
  {
    var ts, e := Lex(s).value, ParseText(s).value;
    ParsesExactlyCanonicalTrees(ts, e);
    LexedTokens(s);
    SurviveExactly(ts);
    TextRoundTripExactly(e);
  }

  lemma {:induction false} SurviveExactly(ts: seq<Token>)
    requires AllReadFirst(ts)
    ensures AllWellSpelled(ts)
    ensures Survive(ts) <==> forall i :: 1 <= i < |ts| && ts[i].Id? ==> !("t" <= ts[i].name)
  {
    assert forall name: string :: "t" <= name <==> name != "" && name[0] == 't';
  }

  // ----- an accepted text that does not survive reprinting -----

  lemma {:induction false} FirstName(rest: string, ts: seq<Token>)
    requires rest != "" && rest[0] == '&' && Lex(rest) == Some(ts)
    ensures Lex("a" + rest) == Some([Id("a")] + ts)
  {
    var s := "a" + rest;
    assert s[0] == 'a' && s[1..] == rest && s[..1] == "a";
    NameLength(s);
    forall r | r != ID
      ensures MatchLength(r, s) == 0
    {
      if MatchLength(r, s) > 0 { StartsRight(r, s); }
    }
    WinnerIs(s, ID);
    LexTakes(s);
  }

  lemma NameLength(s: string)
    requires |s| >= 2 && s[0] == 'a' && s[1] == '&'
    ensures MatchLength(ID, s) == 1
  {
    assert Span(Underscore, s) == 0 && s[1..][0] == '&';
  }

  lemma Conjoined(rest: string)
    ensures Lex("&&" + rest) == if Lex(rest).None? then None else Some([And] + Lex(rest).value)
  {
    var s := "&&" + rest;
    assert s[0] == '&' && "&&" <= s && s[2..] == rest;
    forall r | r != AND
      ensures MatchLength(r, s) == 0
    {
      if MatchLength(r, s) > 0 { StartsRight(r, s); }
    }
    WinnerIs(s, AND);
    LexTakes(s);
  }

  ghost predicate TName(name: string)
  {
    WellSpelled(Id(name)) && "t" <= name && !OnlyT(name)
  }

  lemma LexedLast(name: string)
    requires TName(name)
    ensures Lex(name) == Some([Id(name)])
  {
    assert name != "count" by { assert "count"[0] != 't'; }
    LexOne(Id(name), "");
    assert name + "" == name && [Id(name)] + [] == [Id(name)];
  }

  lemma LexedTail(name: string)
    requires TName(name)
    ensures Lex("&&" + name) == Some([And, Id(name)])
  {
    LexedLast(name);
    Conjoined(name);
    assert [And] + [Id(name)] == [And, Id(name)];
  }

  /** `s` is read as `e`, and what is printed for `e` is not. */
  ghost predicate Loses(s: string, e: Expr)
  {
    ParseText(s) == Some(e) && ParseText(Printed(Yield(e))) != Some(e)
  }

  lemma {:induction false} ReprintChanges(s: string, ts: seq<Token>, e: Expr, i: nat)
    requires Lex(s) == Some(ts) && IsCanonical(e) && Yield(e) == ts
    requires 1 <= i < |ts| && ts[i].Id? && "t" <= ts[i].name
    ensures Loses(s, e)
  {
    ParsesExactlyCanonicalTrees(ts, e);
    ReprintedExactly(s);
  }

  lemma TwoNames(a: string, b: string)
    ensures var e := AndExpr(IdExpr(a), IdExpr(b)); IsCanonical(e) && Yield(e) == [Id(a)] + [And, Id(b)]
  {
  }

  /** The failing family: `a&&` and a name that starts with `t`. It is accepted, and its
      reprinted text does not read as the same policy. */
  lemma ReprintLoses(name: string, rest: string)
    requires TName(name) && rest == "&&" + name
    ensures Loses("a" + rest, AndExpr(IdExpr("a"), IdExpr(name)))
  {
    LexedTail(name);
    FirstName(rest, [And, Id(name)]);
    TwoNames("a", name);
    ReprintChanges("a" + rest, [Id("a")] + [And, Id(name)], AndExpr(IdExpr("a"), IdExpr(name)), 2);
  }

  /** Such as `tb`. */
  lemma TbIsTName()
    ensures TName("tb")
  {
    var name := "tb";
    assert Span(Underscore, name) == 0 && name[1..] == "b" && Span(IdRest, "b") == 1;
    assert name[1] != 't';
  }
}

/** weaver/common/policy-dsl/parser/PolicyLexer.js: longest-match lexing with the earlier rule
    winning ties, over the character sets of the serialized table. A character that starts no
    token is a rejection. */
module PolicyLexer {
  import opened Text
  import opened PolicyTokens

  // ----- character sets: pairs of bounds, each stored plus 2 -----

  const WHITE_TABLE := "\"\"vv"
  const NONZERO_TABLE := "3;"
  const DIGIT_TABLE := "2;"
  const UNDERSCORE_TABLE := "aa"
  const LOWER_TABLE := "c|"
  const REST_TABLE := "2;C\\aac|"

  predicate InTable(table: string, c: char)
  {
    && |table| >= 2
    && (table[0] as int - 2 <= c as int <= table[1] as int - 2 || InTable(table[2..], c))
  }

  predicate White(c: char): (b: bool)
    ensures b <==> c == ' ' || c == 't'
  {
    assert "vv"[2..] == "" && !InTable("", c);
    assert InTable("vv", c) <==> c == 't';
    assert WHITE_TABLE[2..] == "vv";
    InTable(WHITE_TABLE, c)
  }

  predicate NonZero(c: char): (b: bool)
    ensures b <==> '1' <= c <= '9'
  {
    assert NONZERO_TABLE[2..] == "" && !InTable("", c);
    InTable(NONZERO_TABLE, c)
  }

  predicate Digit(c: char): (b: bool)
    ensures b <==> '0' <= c <= '9'
  {
    assert DIGIT_TABLE[2..] == "" && !InTable("", c);
    InTable(DIGIT_TABLE, c)
  }

  predicate Underscore(c: char): (b: bool)
    ensures b <==> c == '_'
  {
    assert UNDERSCORE_TABLE[2..] == "" && !InTable("", c);
    InTable(UNDERSCORE_TABLE, c)
  }

  predicate Lower(c: char): (b: bool)
    ensures b <==> 'a' <= c <= 'z'
  {
    assert LOWER_TABLE[2..] == "" && !InTable("", c);
    InTable(LOWER_TABLE, c)
  }

  predicate IdRest(c: char): (b: bool)
    ensures b <==> '0' <= c <= '9' || 'A' <= c <= 'Z' || c == '_' || 'a' <= c <= 'z'
  {
    assert "c|"[2..] == "" && !InTable("", c);
    assert InTable("c|", c) <==> 'a' <= c <= 'z';
    assert "aac|"[2..] == "c|";
    assert InTable("aac|", c) <==> c == '_' || 'a' <= c <= 'z';
    assert "C\\aac|"[2..] == "aac|";
    assert InTable("C\\aac|", c) <==> 'A' <= c <= 'Z' || c == '_' || 'a' <= c <= 'z';
    assert REST_TABLE[2..] == "C\\aac|";
    InTable(REST_TABLE, c)
  }

  // ----- what each rule matches -----

  datatype Rule =
    | WS | COUNT | INTLIT | AND | OR | GREATER_THAN | LESS_THAN | EQUAL
    | GREATER_THAN_EQUAL | LESS_THAN_EQUAL | ID

  /** The length of the longest prefix whose characters are all in a set. */
  function Span(p: char -> bool, s: string): (n: nat)
    ensures n <= |s|
    ensures forall i :: 0 <= i < n ==> p(s[i])
    ensures n < |s| ==> !p(s[n])
  {
    if s == "" || !p(s[0]) then 0 else 1 + Span(p, s[1..])
  }

  function LiteralLength(text: string, s: string): (n: nat)
    ensures n <= |s|
  {
    if text <= s then |text| else 0
  }

  /** A zero, or a non-zero digit and more digits. */
  function IntLength(s: string): (n: nat)
    ensures n <= |s|
  {
    if s == "" then 0
    else if s[0] == '0' then 1
    else if NonZero(s[0]) then 1 + Span(Digit, s[1..])
    else 0
  }

  /** Underscores, a lower-case letter, and then letters, digits and underscores. */
  function IdLength(s: string): (n: nat)
    ensures n <= |s|
  {
    var u := Span(Underscore, s);
    if u < |s| && Lower(s[u]) then u + 1 + Span(IdRest, s[u + 1..]) else 0
  }

  function MatchLength(rule: Rule, s: string): (n: nat)
    ensures n <= |s|
  {
    match rule
    case WS => Span(White, s)
    case COUNT => LiteralLength("count", s)
    case INTLIT => IntLength(s)
    case AND => LiteralLength("&&", s)
    case OR => LiteralLength("||", s)
    case GREATER_THAN => LiteralLength(">", s)
    case LESS_THAN => LiteralLength("<", s)
    case EQUAL => LiteralLength("==", s)
    case GREATER_THAN_EQUAL => LiteralLength(">=", s)
    case LESS_THAN_EQUAL => LiteralLength("<=", s)
    case ID => IdLength(s)
  }

  /** The language of each rule, as its regular expression says. */
  ghost predicate Matches(rule: Rule, text: string)
  {
    match rule
    case WS => text != "" && forall i :: 0 <= i < |text| ==> White(text[i])
    case COUNT => text == "count"
    case INTLIT =>
      text == "0" || (text != "" && NonZero(text[0]) && forall i :: 1 <= i < |text| ==> Digit(text[i]))
    case AND => text == "&&"
    case OR => text == "||"
    case GREATER_THAN => text == ">"
    case LESS_THAN => text == "<"
    case EQUAL => text == "=="
    case GREATER_THAN_EQUAL => text == ">="
    case LESS_THAN_EQUAL => text == "<="
    case ID => exists u :: IdAt(text, u)
  }

  ghost predicate IdAt(text: string, u: int)
  {
    && 0 <= u < |text| && Lower(text[u])
    && (forall i :: 0 <= i < u ==> Underscore(text[i]))
    && (forall i :: u < i < |text| ==> IdRest(text[i]))
  }

  /** The matched prefix is in the rule's language. */
  lemma MatchIsInLanguage(rule: Rule, s: string)
    requires MatchLength(rule, s) > 0
    ensures Matches(rule, s[..MatchLength(rule, s)])
  {
    var text := s[..MatchLength(rule, s)];
    if rule == INTLIT {
      assert forall i :: 1 <= i < |text| ==> text[i] == s[1..][i - 1];
    } else if rule == ID {
      var u := Span(Underscore, s);
      assert forall i :: u < i < |text| ==> text[i] == s[u + 1..][i - u - 1];
      assert IdAt(text, u);
    } else if rule == WS {
      assert forall i :: 0 <= i < |text| ==> text[i] == s[i];
    } else {
      LiteralMatch(rule, s);
    }
  }

  lemma LiteralMatch(rule: Rule, s: string)
    requires rule != WS && rule != INTLIT && rule != ID && MatchLength(rule, s) > 0
    ensures Matches(rule, s[..MatchLength(rule, s)])
  {
  }

  lemma SpanIsLongest(p: char -> bool, s: string, m: nat)
    requires m <= |s| && forall i :: 0 <= i < m ==> p(s[i])
    ensures m <= Span(p, s)
  {
  }

  lemma IdIsLongest(s: string, m: nat, u: int)
    requires m <= |s| && IdAt(s[..m], u)
    ensures m <= IdLength(s)
  {
    assert Span(Underscore, s) == u;
    SpanIsLongest(IdRest, s[u + 1..], m - u - 1);
  }

  lemma IntIsLongest(s: string, m: nat)
    requires m <= |s| && Matches(INTLIT, s[..m])
    ensures m <= IntLength(s)
  {
    if s[0] != '0' {
      SpanIsLongest(Digit, s[1..], m - 1);
    }
  }

  /** No longer prefix is. */
  lemma MatchIsLongest(rule: Rule, s: string, m: nat)
    requires m <= |s| && Matches(rule, s[..m])
    ensures m <= MatchLength(rule, s)
  {
    match rule
    case WS => SpanIsLongest(White, s, m);
    case INTLIT => IntIsLongest(s, m);
    case ID =>
      var u :| IdAt(s[..m], u);
      IdIsLongest(s, m, u);
    case _ =>
  }

  // ----- the winning rule -----

  function Order(rule: Rule): (n: nat)
  {
    match rule
    case WS => 1 case COUNT => 2 case INTLIT => 3 case AND => 4 case OR => 5 case GREATER_THAN => 6
    case LESS_THAN => 7 case EQUAL => 8 case GREATER_THAN_EQUAL => 9 case LESS_THAN_EQUAL => 10 case ID => 11
  }

  function Better(s: string, a: Rule, b: Rule): (r: Rule)
    ensures r == a || r == b
    ensures MatchLength(r, s) >= MatchLength(a, s) && MatchLength(r, s) >= MatchLength(b, s)
  {
    if MatchLength(a, s) >= MatchLength(b, s) then a else b
  }

  /** The rules in the order in which ties are decided. */
  const RULES := [WS, COUNT, INTLIT, AND, OR, GREATER_THAN, LESS_THAN, EQUAL,
                  GREATER_THAN_EQUAL, LESS_THAN_EQUAL, ID]

  function Best(s: string, rules: seq<Rule>): (r: Rule)
    requires |rules| > 0
  {
    if |rules| == 1 then rules[0] else Better(s, rules[0], Best(s, rules[1..]))
  }

  function Winner(s: string): (r: Rule)
  {
    Best(s, RULES)
  }

  lemma {:induction false} BestIsFirstLongest(s: string, rules: seq<Rule>) returns (k: nat)
    requires |rules| > 0
    ensures k < |rules| && Best(s, rules) == rules[k]
    ensures forall i :: 0 <= i < |rules| ==> MatchLength(rules[i], s) <= MatchLength(rules[k], s)
    ensures forall i :: 0 <= i < k ==> MatchLength(rules[i], s) < MatchLength(rules[k], s)
  {
    k := 0;
    if |rules| > 1 {
      var k' := BestIsFirstLongest(s, rules[1..]);
      assert forall i :: 1 <= i < |rules| ==> rules[i] == rules[1..][i - 1];
      if MatchLength(rules[0], s) < MatchLength(rules[k' + 1], s) {
        k := k' + 1;
      }
    }
  }

  lemma InOrder(rule: Rule)
    ensures RULES[Order(rule) - 1] == rule
  {
  }

  lemma InPlace(k: nat)
    requires k < |RULES|
    ensures Order(RULES[k]) == k + 1
  {
  }

  /** The winner has the longest match, and is the earliest rule with a match that long. */
  lemma WinnerIsLongestThenEarliest(s: string, rule: Rule)
    ensures MatchLength(rule, s) <= MatchLength(Winner(s), s)
    ensures MatchLength(rule, s) == MatchLength(Winner(s), s) ==> Order(Winner(s)) <= Order(rule)
  {
    var k := BestIsFirstLongest(s, RULES);
    InOrder(rule);
    InPlace(k);
  }

  // ----- the token stream -----

  function Make(rule: Rule, text: string): (t: Token)
    requires rule != WS
  {
    match rule
    case COUNT => Count
    case INTLIT => IntLit(text)
    case AND => And
    case OR => Or
    case GREATER_THAN => Greater
    case LESS_THAN => Less
    case EQUAL => Equal
    case GREATER_THAN_EQUAL => GreaterEqual
    case LESS_THAN_EQUAL => LessEqual
    case ID => Id(text)
  }

  function Lex(s: string): (ts: Option<seq<Token>>)
  {
    if s == "" then Some([])
    else
      var rule := Winner(s);
      var n := MatchLength(rule, s);
      if n == 0 then None
      else
        var rest := Lex(s[n..]);
        if rest.None? || rule == WS then rest else Some([Make(rule, s[..n])] + rest.value)
  }

  function Spelling(t: Token): (s: string)
  {
    match t
    case Count => "count"
    case IntLit(digits) => digits
    case And => "&&"
    case Or => "||"
    case Greater => ">"
    case Less => "<"
    case Equal => "=="
    case GreaterEqual => ">="
    case LessEqual => "<="
    case Id(name) => name
  }

  /** A literal has the shape of a number, an identifier that of a name. */
  predicate WellSpelled(t: Token)
  {
    match t
    case IntLit(digits) => digits != "" && IntLength(digits) == |digits|
    case Id(name) => name != "" && IdLength(name) == |name|
    case _ => true
  }

  function RuleOf(t: Token): (r: Rule)
    ensures r != WS
  {
    match t
    case Count => COUNT
    case IntLit(_) => INTLIT
    case And => AND
    case Or => OR
    case Greater => GREATER_THAN
    case Less => LESS_THAN
    case Equal => EQUAL
    case GreaterEqual => GREATER_THAN_EQUAL
    case LessEqual => LESS_THAN_EQUAL
    case Id(_) => ID
  }

  // ----- what lexing is, without the lexer -----

  /** The first `n` characters are a piece of this rule: they are in its language, and every
      prefix that is in the language of a rule is shorter, or as long and of no earlier rule. */
  ghost predicate Piece(s: string, rule: Rule, n: nat)
  {
    && 0 < n <= |s| && Matches(rule, s[..n])
    && forall r, m: nat {:trigger Beats(s, rule, n, r, m)} :: Beats(s, rule, n, r, m)
  }

  ghost predicate Beats(s: string, rule: Rule, n: nat, r: Rule, m: nat)
  {
    m <= |s| && Matches(r, s[..m]) ==> m <= n && (m == n ==> Order(rule) <= Order(r))
  }

  /** The text is cut into such pieces to its end, and the tokens are those that are no whitespace. */
  ghost predicate Tokenizes(s: string, ts: seq<Token>)
    decreases |s|
  {
    if s == "" then ts == []
    else exists rule, n :: Piece(s, rule, n) && CutsOff(s, ts, rule, n)
  }

  ghost predicate CutsOff(s: string, ts: seq<Token>, rule: Rule, n: nat)
    requires 0 < n <= |s|
    decreases |s|, 0
  {
    if rule == WS then Tokenizes(s[n..], ts)
    else |ts| > 0 && RuleOf(ts[0]) == rule && Spelling(ts[0]) == s[..n] && Tokenizes(s[n..], ts[1..])
  }

  lemma SameOrder(a: Rule, b: Rule)
    requires Order(a) == Order(b)
    ensures a == b
  {
    InOrder(a);
    InOrder(b);
  }

  lemma WinnerIsPiece(s: string)
    requires MatchLength(Winner(s), s) > 0
    ensures Piece(s, Winner(s), MatchLength(Winner(s), s))
  {
    var n := MatchLength(Winner(s), s);
    MatchIsInLanguage(Winner(s), s);
    forall r, m: nat
      ensures Beats(s, Winner(s), n, r, m)
    {
      if m <= |s| && Matches(r, s[..m]) {
        MatchIsLongest(r, s, m);
        WinnerIsLongestThenEarliest(s, r);
      }
    }
  }

  lemma PieceIsWinner(s: string, rule: Rule, n: nat)
    requires Piece(s, rule, n)
    ensures rule == Winner(s) && n == MatchLength(Winner(s), s)
  {
    MatchIsLongest(rule, s, n);
    WinnerIsLongestThenEarliest(s, rule);
    WinnerIsPiece(s);
    assert Beats(s, rule, n, Winner(s), MatchLength(Winner(s), s));
    SameOrder(rule, Winner(s));
  }

  /** A token made of a piece is the one token of that rule and spelling. */
  lemma MadeExactly(rule: Rule, s: string, t: Token)
    requires rule != WS && MatchLength(rule, s) > 0
    ensures t == Make(rule, s[..MatchLength(rule, s)]) <==>
            RuleOf(t) == rule && Spelling(t) == s[..MatchLength(rule, s)]
  {
    MatchIsInLanguage(rule, s);
  }

  /** The lexer returns these tokens if and only if the text is cut into them. */
  lemma {:induction false} LexExactly(s: string, ts: seq<Token>)
    ensures Lex(s) == Some(ts) <==> Tokenizes(s, ts)
    decreases |s|
  {
    if s != "" {
      var rule, n := Winner(s), MatchLength(Winner(s), s);
      if n > 0 {
        WinnerIsPiece(s);
        WinnerCuts(s, ts);
      }
      if Tokenizes(s, ts) {
        var rule', n' :| Piece(s, rule', n') && CutsOff(s, ts, rule', n');
        PieceIsWinner(s, rule', n');
      }
    }
  }

  lemma LexTakes(s: string)
    requires s != "" && MatchLength(Winner(s), s) > 0
    ensures var rule, n := Winner(s), MatchLength(Winner(s), s);
      Lex(s) == if rule == WS || Lex(s[n..]).None? then Lex(s[n..]) else Some([Make(rule, s[..n])] + Lex(s[n..]).value)
  {
  }

  lemma ConsExactly(t: Token, rest: Option<seq<Token>>, ts: seq<Token>)
    ensures (rest.Some? && [t] + rest.value == ts) <==> |ts| > 0 && ts[0] == t && rest == Some(ts[1..])
  {
    if |ts| > 0 {
      assert ts == [ts[0]] + ts[1..];
    }
    if rest.Some? {
      assert ([t] + rest.value)[1..] == rest.value;
    }
  }

  lemma {:induction false} WinnerCuts(s: string, ts: seq<Token>)
    requires s != "" && MatchLength(Winner(s), s) > 0
    ensures Lex(s) == Some(ts) <==> CutsOff(s, ts, Winner(s), MatchLength(Winner(s), s))
    decreases |s|, 0
  {
    var rule, n := Winner(s), MatchLength(Winner(s), s);
    LexTakes(s);
    if rule == WS {
      LexExactly(s[n..], ts);
    } else {
      ConsExactly(Make(rule, s[..n]), Lex(s[n..]), ts);
      if |ts| > 0 {
        LexExactly(s[n..], ts[1..]);
        MadeExactly(rule, s, ts[0]);
      }
    }
  }
}

/** weaver/common/policy-dsl/parser/PolicyParser.js: the precedence-climbing parser, proved to
    be exactly the inverse of printing canonical trees. A syntax error is a rejection. */
module PolicyParser {
  import opened Text
  import opened PolicyTokens

  datatype Parsed = Parsed(tree: Expr, rest: seq<Token>)

  /** An identifier or a `count_expression`. */
  function ParseAtom(ts: seq<Token>): (r: Option<Parsed>)
    ensures r.Some? ==> |r.value.rest| < |ts|
  {
    if |ts| == 0 then None
    else match ts[0]
      case Id(name) => Some(Parsed(IdExpr(name), ts[1..]))
      case Count =>
        if |ts| >= 3 && ComparisonOf(ts[1]).Some? && ts[2].IntLit?
        then Some(Parsed(CountFirst(ComparisonOf(ts[1]).value, ts[2].digits), ts[3..])) else None
      case IntLit(digits) =>
        if |ts| >= 3 && ComparisonOf(ts[1]).Some? && ts[2].Count?
        then Some(Parsed(CountLast(digits, ComparisonOf(ts[1]).value), ts[3..])) else None
      case _ => None
  }

  /** `expression(p)` on the remaining tokens. */
  function ParseExpression(ts: seq<Token>, p: nat): (r: Option<Parsed>)
    ensures r.Some? ==> |r.value.rest| < |ts|
    decreases |ts|, 1
  {
    var a := ParseAtom(ts);
    if a.None? then None else Climb(a.value.tree, a.value.rest, p)
  }

  /** Does the loop of `expression(p)` go on with this operator? */
  predicate Takes(t: Token, p: nat)
  {
    (t == And && 4 >= p) || (t == Or && 3 >= p)
  }

  /** The precedence at which the right operand is parsed, and the tree that results. */
  function RightLevel(operator: Token): (p: nat)
  {
    if operator == And then 5 else 4
  }

  function Combine(operator: Token, left: Expr, right: Expr): (e: Expr)
  {
    if operator == And then AndExpr(left, right) else OrExpr(left, right)
  }

  /** The loop of `expression(p)`: another operator is taken while its precedence allows. */
  function Climb(left: Expr, ts: seq<Token>, p: nat): (r: Option<Parsed>)
    ensures r.Some? ==> |r.value.rest| <= |ts|
    decreases |ts|, 0
  {
    if |ts| > 0 && Takes(ts[0], p) then
      var right := ParseExpression(ts[1..], RightLevel(ts[0]));
      if right.None? then None else Climb(Combine(ts[0], left, right.value.tree), right.value.rest, p)
    else Some(Parsed(left, ts))
  }

  /** `root`: a whole expression and then the end of input. */
  function Parse(ts: seq<Token>): (tree: Option<Expr>)
  {
    var r := ParseExpression(ts, 0);
    if r.Some? && r.value.rest == [] then Some(r.value.tree) else None
  }

  // ----- soundness -----

  ghost predicate AtLevel(e: Expr, p: nat)
  {
    if p <= 3 then IsCanonical(e) else if p == 4 then IsConjunction(e) else IsAtom(e)
  }

  ghost predicate Begins(ts: seq<Token>, t: Token)
  {
    |ts| > 0 && ts[0] == t
  }

  /** No operator that level `p` would take comes next. */
  ghost predicate Stops(ts: seq<Token>, p: nat)
  {
    (p <= 4 ==> !Begins(ts, And)) && (p <= 3 ==> !Begins(ts, Or))
  }

  lemma AtomSound(ts: seq<Token>)
    requires ParseAtom(ts).Some?
    ensures var r := ParseAtom(ts).value; IsAtom(r.tree) && Yield(r.tree) + r.rest == ts
  {
  }

  lemma {:induction false} ExpressionSound(ts: seq<Token>, p: nat)
    requires ParseExpression(ts, p).Some?
    ensures var r := ParseExpression(ts, p).value;
      AtLevel(r.tree, p) && Yield(r.tree) + r.rest == ts && Stops(r.rest, p)
    decreases |ts|, 1
  {
    AtomSound(ts);
    var a := ParseAtom(ts).value;
    ClimbSound(a.tree, a.rest, p);
  }

  lemma {:induction false} ClimbSound(left: Expr, ts: seq<Token>, p: nat)
    requires Climb(left, ts, p).Some? && AtLevel(left, p) && (IsConjunction(left) || !Begins(ts, And))
    ensures var r := Climb(left, ts, p).value;
      AtLevel(r.tree, p) && Yield(r.tree) + r.rest == Yield(left) + ts && Stops(r.rest, p)
    decreases |ts|, 0
  {
    if |ts| > 0 && Takes(ts[0], p) {
      var op := ts[0];
      ExpressionSound(ts[1..], RightLevel(op));
      var right := ParseExpression(ts[1..], RightLevel(op)).value;
      CombineLevels(op, left, right.tree, p);
      ClimbSound(Combine(op, left, right.tree), right.rest, p);
      Shift(Yield(left), Yield(right.tree), right.rest, ts);
    }
  }

  lemma Shift(left: seq<Token>, right: seq<Token>, rest: seq<Token>, ts: seq<Token>)
    requires |ts| > 0 && right + rest == ts[1..]
    ensures left + [ts[0]] + right + rest == left + ts
  {
    assert ts == [ts[0]] + (right + rest);
  }

  lemma CombineLevels(op: Token, left: Expr, right: Expr, p: nat)
    requires Takes(op, p) && AtLevel(left, p) && (op == And ==> IsConjunction(left)) && AtLevel(right, RightLevel(op))
    ensures AtLevel(Combine(op, left, right), p) && (op == And ==> IsConjunction(Combine(op, left, right)))
    ensures Yield(Combine(op, left, right)) == Yield(left) + [op] + Yield(right)
  {
  }

  // ----- completeness -----

  lemma AtomComplete(e: Expr, rest: seq<Token>)
    requires IsAtom(e)
    ensures ParseAtom(Yield(e) + rest) == Some(Parsed(e, rest))
  {
    var ts := Yield(e) + rest;
    match e
    case IdExpr(_) => assert ts[1..] == rest;
    case CountFirst(op, _) => assert ts[1] == TokenOf(op) && ts[3..] == rest;
    case CountLast(_, op) => assert ts[1] == TokenOf(op) && ts[3..] == rest;
  }

  /** Having read the tokens of a tree of its level, the parser is in its loop with that tree. */
  lemma {:induction false} ReadsTree(e: Expr, rest: seq<Token>, p: nat)
    requires AtLevel(e, p) && (IsConjunction(e) || !Begins(rest, And))
    ensures ParseExpression(Yield(e) + rest, p) == Climb(e, rest, p)
  {
    if IsAtom(e) {
      AtomComplete(e, rest);
    } else {
      var op := if e.AndExpr? then And else Or;
      var more := [op] + (Yield(e.right) + rest);
      assert Yield(e) + rest == Yield(e.left) + more;
      ReadsTree(e.left, more, p);
      ReadsTree(e.right, rest, RightLevel(op));
      assert more[1..] == Yield(e.right) + rest;
    }
  }

  /** The parser returns `e` on `ts` if and only if `e` is canonical and `ts` are its tokens. So
      printing a parsed tree gives the input back, parsing a printed canonical tree gives the
      tree back, and the grammar is unambiguous. */
  lemma ParsesExactlyCanonicalTrees(ts: seq<Token>, e: Expr)
    ensures Parse(ts) == Some(e) <==> IsCanonical(e) && Yield(e) == ts
  {
    if Parse(ts) == Some(e) {
      ExpressionSound(ts, 0);
      assert Yield(e) + [] == Yield(e);
    }
    if IsCanonical(e) && Yield(e) == ts {
      ReadsTree(e, [], 0);
      assert Yield(e) + [] == ts;
    }
  }

  lemma Unambiguous(e: Expr, e': Expr)
    requires IsCanonical(e) && IsCanonical(e') && Yield(e) == Yield(e')
    ensures e == e'
  {
    ParsesExactlyCanonicalTrees(Yield(e), e);
    ParsesExactlyCanonicalTrees(Yield(e), e');
  }

  /** Which comparison each operator is; `==` and every other token is refused. */
  function Meaning(op: Token): (c: Option<Comparison>)
  {
    if op == Greater then Some(IsGreater)
    else if op == Less then Some(IsLess)
    else if op == GreaterEqual then Some(IsGreaterEqual)
    else if op == LessEqual then Some(IsLessEqual)
    else None
  }

  /** `count` and a number, compared by any token, in both orders. */
  lemma CountsExactly(op: Token, digits: string)
    ensures Parse([Count, op, IntLit(digits)]) ==
            if Meaning(op).Some? then Some(CountFirst(Meaning(op).value, digits)) else None
    ensures Parse([IntLit(digits), op, Count]) ==
            if Meaning(op).Some? then Some(CountLast(digits, Meaning(op).value)) else None
  {
    CountAlone([Count, op, IntLit(digits)]);
    CountAlone([IntLit(digits), op, Count]);
  }

  lemma CountAlone(ts: seq<Token>)
    requires |ts| == 3 && (ts[0].Count? || ts[0].IntLit?)
    ensures Parse(ts) == if ParseAtom(ts).None? then None else Some(ParseAtom(ts).value.tree)
  {
    var a := ParseAtom(ts);
    if a.Some? {
      assert a.value.rest == ts[3..] == [];
      assert Climb(a.value.tree, [], 0) == Some(Parsed(a.value.tree, []));
      assert ParseExpression(ts, 0) == Some(Parsed(a.value.tree, []));
    } else {
      assert ParseExpression(ts, 0) == None;
    }
  }

  // ----- the stratified grammar -----

  /** A sentence of the stratified grammar: one or more groups of one or more atoms. */
  ghost predicate WellGrouped(g: seq<seq<Expr>>)
  {
    |g| > 0 && forall i :: 0 <= i < |g| ==> GroupOfAtoms(g[i])
  }

  ghost predicate GroupOfAtoms(atoms: seq<Expr>)
  {
    |atoms| > 0 && forall i :: 0 <= i < |atoms| ==> IsAtom(atoms[i])
  }

  /** Its tokens: atoms joined by `&&`, groups joined by `||`. */
  function GroupTokens(atoms: seq<Expr>): (ts: seq<Token>)
    requires |atoms| > 0
  {
    if |atoms| == 1 then Yield(atoms[0])
    else GroupTokens(atoms[..|atoms| - 1]) + [And] + Yield(atoms[|atoms| - 1])
  }

  ghost function Sentence(g: seq<seq<Expr>>): (ts: seq<Token>)
    requires WellGrouped(g)
  {
    if |g| == 1 then GroupTokens(g[0])
    else Sentence(g[..|g| - 1]) + [Or] + GroupTokens(g[|g| - 1])
  }

  /** Its tree: left-associative, with `&&` binding tighter. */
  function GroupTree(atoms: seq<Expr>): (e: Expr)
    requires |atoms| > 0
  {
    if |atoms| == 1 then atoms[0]
    else AndExpr(GroupTree(atoms[..|atoms| - 1]), atoms[|atoms| - 1])
  }

  ghost function Tree(g: seq<seq<Expr>>): (e: Expr)
    requires WellGrouped(g)
  {
    if |g| == 1 then GroupTree(g[0])
    else OrExpr(Tree(g[..|g| - 1]), GroupTree(g[|g| - 1]))
  }

  lemma {:induction false} GroupIsConjunction(atoms: seq<Expr>)
    requires GroupOfAtoms(atoms)
    ensures IsConjunction(GroupTree(atoms)) && Yield(GroupTree(atoms)) == GroupTokens(atoms)
  {
    if |atoms| > 1 {
      GroupIsConjunction(atoms[..|atoms| - 1]);
    }
  }

  lemma {:induction false} SentenceIsCanonical(g: seq<seq<Expr>>)
    requires WellGrouped(g)
    ensures IsCanonical(Tree(g)) && Yield(Tree(g)) == Sentence(g)
  {
    GroupIsConjunction(g[|g| - 1]);
    if |g| > 1 {
      SentenceIsCanonical(g[..|g| - 1]);
    }
  }

  lemma {:induction false} ConjunctionHasGroup(e: Expr) returns (atoms: seq<Expr>)
    requires IsConjunction(e)
    ensures GroupOfAtoms(atoms) && GroupTree(atoms) == e
  {
    if IsAtom(e) {
      atoms := [e];
    } else {
      var init := ConjunctionHasGroup(e.left);
      atoms := init + [e.right];
      assert atoms[..|atoms| - 1] == init;
    }
  }

  lemma {:induction false} CanonicalHasGroups(e: Expr) returns (g: seq<seq<Expr>>)
    requires IsCanonical(e)
    ensures WellGrouped(g) && Tree(g) == e
  {
    if IsConjunction(e) {
      var atoms := ConjunctionHasGroup(e);
      g := [atoms];
    } else {
      var init := CanonicalHasGroups(e.left);
      var last := ConjunctionHasGroup(e.right);
      g := init + [last];
      assert g[..|g| - 1] == init;
    }
  }

  /** The parser accepts exactly the sentences of the stratified grammar and returns exactly
      their left-associative trees. */
  lemma AcceptsStratifiedGrammar(ts: seq<Token>, e: Expr)
    ensures Parse(ts) == Some(e) <==> exists g :: WellGrouped(g) && Sentence(g) == ts && Tree(g) == e
  {
    ParsesExactlyCanonicalTrees(ts, e);
    if Parse(ts) == Some(e) {
      var g := CanonicalHasGroups(e);
      SentenceIsCanonical(g);
    }
    if g :| WellGrouped(g) && Sentence(g) == ts && Tree(g) == e {
      SentenceIsCanonical(g);
    }
  }

  // ----- the parser object -----

  /** How many activations of `expression` a call at precedence `p` can add. */
  function Budget(p: nat): (n: nat)
  {
    if p <= 3 then 3 else if p == 4 then 2 else 1
  }

  ghost function Result(tree: Option<Expr>, rest: seq<Token>): (r: Option<Parsed>)
  {
    if tree.None? then None else Some(Parsed(tree.value, rest))
  }

  /** The operand after an operator that is taken nests less deep. */
  lemma BudgetDrops(operator: Token, p: nat)
    requires Takes(operator, p)
    ensures Budget(RightLevel(operator)) < Budget(p)
  {
  }

  /** What a climb from a tree comes to; after a rejection there is none. */
  ghost function Climbed(tree: Option<Expr>, rest: seq<Token>, p: nat): (r: Option<Parsed>)
  {
    if tree.None? then None else Climb(tree.value, rest, p)
  }

  lemma NoTurn(tree: Option<Expr>, input: seq<Token>, pos: nat, p: nat)
    requires pos <= |input| && !(tree.Some? && pos < |input| && Takes(input[pos], p))
    ensures Climbed(tree, input[pos..], p) == Result(tree, input[pos..])
  {
  }

  class PolicyParser {
    const input: seq<Token>
    var pos: nat
    /** Activations of `expression` now, and the most there have been. */
    ghost var active: nat
    ghost var deepest: nat

    constructor (input: seq<Token>)
      ensures this.input == input && pos == 0 && active == 0 && deepest == 0
    {
      this.input := input;
      pos, active, deepest := 0, 0, 0;
    }

    /** Never more than three activations of `expression`, however long the input. */
    method Root() returns (tree: Option<Expr>)
      requires pos == 0 && active == deepest == 0
      modifies this
      ensures tree == Parse(input)
      ensures deepest <= 3
    {
      assert input[0..] == input;
      tree := Expression(0, 3);
      if tree.Some? && pos != |input| {
        tree := None;
      }
    }

    /** Room for the activations that this call adds is all that it needs of the limit. */
    method Expression(p: nat, ghost limit: nat) returns (tree: Option<Expr>)
      requires pos <= |input| && deepest <= limit && active + Budget(p) <= limit
      modifies this
      ensures old(pos) <= pos <= |input| && (tree.Some? ==> old(pos) < pos)
      ensures ParseExpression(input[old(pos)..], p) == Result(tree, input[pos..])
      ensures active == old(active) && deepest <= limit
      decreases |input| - pos, 1
    {
      active := active + 1;
      deepest := if deepest < active then active else deepest;
      tree := Primary();
      while tree.Some? && pos < |input| && Takes(input[pos], p)
        invariant old(pos) <= pos <= |input| && (tree.Some? ==> old(pos) < pos)
        invariant ParseExpression(input[old(pos)..], p) == Climbed(tree, input[pos..], p)
        invariant active == old(active) + 1 && deepest <= limit
        decreases |input| - pos
      {
        tree := OneTurn(tree.value, p, limit);
      }
      NoTurn(tree, input, pos, p);
      active := active - 1;
    }

    /** One turn of the loop: an operator that is taken, its right operand, and the new tree. */
    method OneTurn(localctx: Expr, p: nat, ghost limit: nat) returns (tree: Option<Expr>)
      requires pos < |input| && Takes(input[pos], p) && deepest <= limit && active + Budget(p) <= limit + 1
      modifies this
      ensures old(pos) < pos <= |input|
      ensures Climb(localctx, input[old(pos)..], p) == Climbed(tree, input[pos..], p)
      ensures active == old(active) && deepest <= limit
      decreases |input| - pos, 0
    {
      var operator := input[pos];
      BudgetDrops(operator, p);
      assert input[pos..][1..] == input[pos + 1..];
      pos := pos + 1;
      var right := Expression(RightLevel(operator), limit);
      tree := if right.None? then None else Some(Combine(operator, localctx, right.value));
    }

    method Primary() returns (tree: Option<Expr>)
      requires pos <= |input|
      modifies this`pos
      ensures old(pos) <= pos <= |input| && (tree.Some? ==> old(pos) < pos)
      ensures ParseAtom(input[old(pos)..]) == Result(tree, input[pos..])
    {
      if pos < |input| && input[pos].Id? {
        tree := Some(IdExpr(input[pos].name));
        pos := pos + 1;
      } else {
        tree := CountExpression();
      }
    }

    method CountExpression() returns (tree: Option<Expr>)
      requires pos < |input| ==> !input[pos].Id?
      requires pos <= |input|
      modifies this`pos
      ensures old(pos) <= pos <= |input| && (tree.Some? ==> old(pos) < pos)
      ensures ParseAtom(input[old(pos)..]) == Result(tree, input[pos..])
    {
      if pos + 2 >= |input| || ComparisonOf(input[pos + 1]).None? {
        return None;
      }
      var first, op, last := input[pos], ComparisonOf(input[pos + 1]).value, input[pos + 2];
      if first.Count? && last.IntLit? {
        tree := Some(CountFirst(op, last.digits));
      } else if first.IntLit? && last.Count? {
        tree := Some(CountLast(first.digits, op));
      } else {
        return None;
      }
      pos := pos + 3;
    }
  }
}

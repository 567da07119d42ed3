/** Tokens of the verification policy language and the trees the parser builds. */
module PolicyTokens {
  import opened Text

  datatype Token =
    | Count
    | IntLit(digits: string)
    | And
    | Or
    | Greater
    | Less
    | Equal
    | GreaterEqual
    | LessEqual
    | Id(name: string)

  /** The comparisons a count expression may use; `==` is a token but not one of them. */
  datatype Comparison = IsGreater | IsLess | IsGreaterEqual | IsLessEqual

  function ComparisonOf(t: Token): (c: Option<Comparison>)
    ensures c.Some? ==> TokenOf(c.value) == t
  {
    match t
    case Greater => Some(IsGreater)
    case Less => Some(IsLess)
    case GreaterEqual => Some(IsGreaterEqual)
    case LessEqual => Some(IsLessEqual)
    case _ => None
  }

  function TokenOf(c: Comparison): (t: Token)
  {
    match c
    case IsGreater => Greater
    case IsLess => Less
    case IsGreaterEqual => GreaterEqual
    case IsLessEqual => LessEqual
  }

  datatype Expr =
    | IdExpr(name: string)
    | CountFirst(op: Comparison, digits: string)
    | CountLast(digits: string, op: Comparison)
    | AndExpr(left: Expr, right: Expr)
    | OrExpr(left: Expr, right: Expr)

  /** The tokens of a tree, in order; the language has no parentheses. */
  function Yield(e: Expr): (ts: seq<Token>)
    ensures |ts| > 0
  {
    match e
    case IdExpr(name) => [Id(name)]
    case CountFirst(op, digits) => [Count, TokenOf(op), IntLit(digits)]
    case CountLast(digits, op) => [IntLit(digits), TokenOf(op), Count]
    case AndExpr(l, r) => Yield(l) + [And] + Yield(r)
    case OrExpr(l, r) => Yield(l) + [Or] + Yield(r)
  }

  predicate IsAtom(e: Expr)
  {
    !e.AndExpr? && !e.OrExpr?
  }

  /** Atoms joined by `&&`, to the left. */
  predicate IsConjunction(e: Expr)
  {
    IsAtom(e) || (e.AndExpr? && IsConjunction(e.left) && IsAtom(e.right))
  }

  /** Conjunctions joined by `||`, to the left: the canonical trees. */
  predicate IsCanonical(e: Expr)
  {
    IsConjunction(e) || (e.OrExpr? && IsCanonical(e.left) && IsConjunction(e.right))
  }
}

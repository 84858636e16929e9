/**
 * The syntax tree of a boolean expression, with the nullable shape of the
 * parser's structs: every pointer field is an `Option`, and a primary holds a
 * literal text (empty when unset) and an optional parenthesised expression.
 *
 *   Expr        := UnaryExpr ExprRest?
 *   ExprRest    := BinaryOp Expr
 *   UnaryExpr   := UnaryOp* PrimaryExpr
 *   PrimaryExpr := Lit | ParenExpr
 *   ParenExpr   := '(' Expr ')'
 */
module BooleanAst {
  import opened Wrappers
  import opened Lexicon

  datatype Expr = Expr(pos: Position, unary: Option<UnaryExpr>, rest: Option<ExprRest>)

  datatype UnaryExpr = UnaryExpr(pos: Position, ops: seq<UnaryOp>, expr: Option<PrimaryExpr>)

  datatype UnaryOp = UnaryOp(pos: Position, op: string)

  /** The binary operator and the whole expression to its right. */
  datatype ExprRest = ExprRest(pos: Position, op: string, expr: Option<Expr>)

  datatype PrimaryExpr = PrimaryExpr(pos: Position, lit: string, paren: Option<ParenExpr>)

  datatype ParenExpr = ParenExpr(pos: Position, expr: Option<Expr>)

  // The trees the grammar builds from tokens spelled as the lexicon says:
  // no field the grammar fills is nil, a primary holds exactly one of its
  // alternatives, and every literal and operator text is a known spelling.

  predicate WellFormedExpr(e: Expr)
    decreases e, 3
  {
    && e.unary.Some?
    && WellFormedUnary(e.unary.value)
    && (e.rest.Some? ==>
          && e.rest.value.op in AllBinarySpellings
          && e.rest.value.expr.Some?
          && WellFormedExpr(e.rest.value.expr.value))
  }

  predicate WellFormedUnary(u: UnaryExpr)
    decreases u, 2
  {
    && (forall k :: 0 <= k < |u.ops| ==> u.ops[k].op in UnarySpellings)
    && u.expr.Some?
    && WellFormedPrimary(u.expr.value)
  }

  predicate WellFormedPrimary(p: PrimaryExpr)
    decreases p, 1
  {
    match p.paren
    case None => p.lit in LiteralSpellings
    case Some(paren) => p.lit == "" && paren.expr.Some? && WellFormedExpr(paren.expr.value)
  }

  // The same trees with every position replaced by the zero position: what
  // is left is the shape and the texts.

  function EraseExpr(e: Expr): Expr
    decreases e, 3
  {
    Expr(NoPosition,
         match e.unary case None => None case Some(u) => Some(EraseUnary(u)),
         match e.rest case None => None case Some(r) => Some(EraseRest(r)))
  }

  function EraseRest(r: ExprRest): ExprRest
    decreases r, 2
  {
    ExprRest(NoPosition, r.op, match r.expr case None => None case Some(e) => Some(EraseExpr(e)))
  }

  function EraseUnary(u: UnaryExpr): UnaryExpr
    decreases u, 2
  {
    UnaryExpr(NoPosition, EraseOps(u.ops),
              match u.expr case None => None case Some(p) => Some(ErasePrimary(p)))
  }

  function EraseOps(ops: seq<UnaryOp>): seq<UnaryOp>
  {
    seq(|ops|, k requires 0 <= k < |ops| => UnaryOp(NoPosition, ops[k].op))
  }

  function ErasePrimary(p: PrimaryExpr): PrimaryExpr
    decreases p, 1
  {
    PrimaryExpr(NoPosition, p.lit, match p.paren case None => None case Some(q) => Some(EraseParen(q)))
  }

  function EraseParen(q: ParenExpr): ParenExpr
    decreases q, 0
  {
    ParenExpr(NoPosition, match q.expr case None => None case Some(e) => Some(EraseExpr(e)))
  }
}

/**
 * Evaluation of a boolean expression tree to a truth value or to a
 * positioned error. Every step checks the node it is given first (nil
 * pointers, a primary with both alternatives), then evaluates bottom-up:
 * unary operators fold over the primary from the last to the first, and a
 * binary operator combines its left unary with the whole expression to its
 * right.
 */
module BooleanEval {
  import opened Wrappers
  import opened Lexicon
  import opened BooleanAst

  /** The outcome of evaluating a node: where, what value, and the error if any.
      An error result carries the payload `false`. */
  datatype EvalResult = EvalResult(pos: Position, payload: bool, err: Option<string>)

  function ErrorResult(pos: Position, msg: string): EvalResult
  {
    EvalResult(pos, false, Some(msg))
  }

  function SuccessResult(pos: Position, payload: bool): EvalResult
  {
    EvalResult(pos, payload, None)
  }

  /** The text of an invariant-violation error: `invalid <thing> '<value>'`. */
  function InvalidMessage(thing: string, value: string): (m: string)
    ensures |m| == |thing| + |value| + 11
    ensures m[..8] == "invalid " && m[8..8 + |thing|] == thing && m[8 + |thing|..10 + |thing|] == " '"
    ensures m[10 + |thing|..|m| - 1] == value && m[|m| - 1] == '\''
  {
    var m := "invalid " + thing + " '" + value + "'";
    assert m[..8] == "invalid ";
    assert m[8..8 + |thing|] == thing;
    assert m[8 + |thing|..10 + |thing|] == " '";
    assert m[10 + |thing|..|m| - 1] == value;
    m
  }

  /** An error result carries the payload `false`. */
  function Invalid(pos: Position, thing: string, value: string): (r: EvalResult)
    ensures r.pos == pos && !r.payload && r.err == Some(InvalidMessage(thing, value))
  {
    ErrorResult(pos, InvalidMessage(thing, value))
  }

  // ---------------------------------------------------------------------
  // Operators

  /** One unary operator applied to the accumulator, or None for an unknown spelling. */
  function ApplyUnary(op: string, acc: bool): (r: Option<bool>)
    ensures r.Some? <==> op in UnarySpellings
  {
    if op == NotText || op == NotSymb then Some(!acc)
    else if op == NullifyText then Some(false)
    else if op == TruifyText then Some(true)
    else if op == IdText then Some(acc)
    else None
  }

  /** The outcome of folding unary operators: a value, or the first unknown
      operator text met on the way. */
  datatype Fold = Folded(value: bool) | Stuck(op: string)

  /** Folds `ops` over `acc` from the last operator down to the first. */
  function FoldOps(ops: seq<UnaryOp>, acc: bool): (r: Fold)
    ensures r.Stuck? ==> r.op !in UnarySpellings
    decreases |ops|
  {
    if ops == [] then Folded(acc)
    else
      match ApplyUnary(ops[|ops| - 1].op, acc)
      case None => Stuck(ops[|ops| - 1].op)
      case Some(v) => FoldOps(ops[..|ops| - 1], v)
  }

  /** A binary operator applied to its operands, or None for an unknown
      spelling. Both spellings of an operator share one case. The LEFT case
      assigns nothing, so its result is the zero value `false`. */
  function Combine(op: string, left: bool, right: bool): Option<bool>
  {
    if op == AndText || op == AndSymb then Some(left && right)
    else if op == NandText || op == NandSymb then Some(!(left && right))
    else if op == OrText || op == OrSymb then Some(left || right)
    else if op == NorText || op == NorSymb then Some(!(left || right))
    else if op == ImpliesText || op == ImpliesSymb then Some(!left || right)
    else if op == ImpliedByText || op == ImpliedBySymb then Some(left || !right)
    else if op == InhibitsText || op == InhibitsSymb then Some(!left || !right)
    else if op == InhibitedByText || op == InhibitedBySymb then Some(!left || !right)
    else if op == LeftText || op == LeftSymb then Some(false)
    else if op == RightText || op == RightSymb then Some(right)
    else if op == NotLeftText || op == NotLeftSymb then Some(!left)
    else if op == NotRightText || op == NotRightSymb then Some(!right)
    else if op == XnorText || op == XnorSymb || op == IffText then Some(left == right)
    else if op == XorText || op == XorSymb then Some(left != right)
    else None
  }

  /** The connectives' truth table as the language's design states it. */
  function DesignTable(op: BinaryOperator, l: bool, r: bool): bool
  {
    match op
    case And => l && r
    case Nand => !(l && r)
    case Or => l || r
    case Nor => !(l || r)
    case Implies => l ==> r
    case ImpliedBy => r ==> l
    case Inhibits => !(l && r)
    case InhibitedBy => !(l && r)
    case Left => l
    case Right => r
    case NotLeft => !l
    case NotRight => !r
    case Xnor => l <==> r
    case Xor => l != r
  }

  // ---------------------------------------------------------------------
  // Evaluation

  /** A literal means true exactly when it is `True`, at the primary's
      position; a parenthesis' value is at the parenthesis. */
  function EvalPrimaryExpr(expr: Option<PrimaryExpr>): (r: EvalResult)
    ensures r.err.Some? ==> !r.payload
    ensures expr.None? || (expr.value.paren.Some? && expr.value.lit != "") ==> r.err.Some?
    ensures r.err.None? && expr.value.paren.None? ==>
      r.pos == expr.value.pos && expr.value.lit in LiteralSpellings && r.payload == (expr.value.lit == TrueText)
    ensures r.err.None? && expr.value.paren.Some? ==> r.pos == expr.value.paren.value.pos
    decreases expr, 3
  {
    match expr
    case None => Invalid(NoPosition, "primary expression", "nil")
    case Some(p) =>
      if p.paren.Some? && p.lit != "" then Invalid(p.pos, "primary expression", "both Lit and Paren")
      else if p.paren.Some? then EvalParenExpr(p.paren.value)
      else if p.lit == TrueText then SuccessResult(p.pos, true)
      else if p.lit == FalseText then SuccessResult(p.pos, false)
      else Invalid(p.pos, "boolean literal", p.lit)
  }

  /** A parenthesised expression yields the inner result, re-stamped with
      the parenthesis' position, or the inner error unchanged. */
  function EvalParenExpr(expr: ParenExpr): (r: EvalResult)
    ensures r.err.Some? ==> !r.payload
    ensures r.err == EvalExpr(expr.expr).err && r.payload == EvalExpr(expr.expr).payload
    ensures r.err.None? ==> r.pos == expr.pos
    decreases expr, 2
  {
    var inner := EvalExpr(expr.expr);
    if inner.err.Some? then inner else SuccessResult(expr.pos, inner.payload)
  }

  /** The meaning of a unary expression: the primary's error if it failed,
      otherwise the fold of its operators, positioned at the unary expression. */
  function EvalUnary(expr: Option<UnaryExpr>): (r: EvalResult)
    ensures r.err.Some? ==> !r.payload
    ensures r.err.None? ==> expr.Some? && r.pos == expr.value.pos
    decreases expr, 4
  {
    match expr
    case None => Invalid(NoPosition, "unary expression", "nil")
    case Some(u) =>
      var operand := EvalPrimaryExpr(u.expr);
      if operand.err.Some? then operand
      else
        match FoldOps(u.ops, operand.payload)
        case Folded(v) => SuccessResult(u.pos, v)
        case Stuck(op) => Invalid(u.pos, "unary operator", op)
  }

  /** A value is positioned at the expression's own unary expression. */
  function EvalExpr(expr: Option<Expr>): (r: EvalResult)
    ensures r.err.Some? ==> !r.payload
    ensures r.err.None? ==> expr.Some? && expr.value.unary.Some? && r.pos == expr.value.unary.value.pos
    decreases expr, 6
  {
    match expr
    case None => Invalid(NoPosition, "boolean expression", "nil")
    case Some(e) => Transmogrify(e.rest, EvalUnary(e.unary))
  }

  /** Combines the left unary's result with the rest of the chain. The right
      side's error wins over everything; then the left side's error; an
      unknown operator is reported only when both sides succeeded. */
  function Transmogrify(rest: Option<ExprRest>, unaryRes: EvalResult): (r: EvalResult)
    ensures (unaryRes.err.Some? ==> !unaryRes.payload) ==> (r.err.Some? ==> !r.payload)
    ensures r.err.None? ==> unaryRes.err.None? && r.pos == unaryRes.pos
    ensures rest.None? ==> r == unaryRes
    decreases rest, 5
  {
    match rest
    case None => unaryRes
    case Some(r) =>
      var exprRes := EvalExpr(r.expr);
      if exprRes.err.Some? then exprRes
      else if unaryRes.err.Some? then unaryRes
      else
        match Combine(r.op, unaryRes.payload, exprRes.payload)
        case None => Invalid(exprRes.pos, "binary operation", r.op)
        case Some(b) => SuccessResult(unaryRes.pos, b)
  }

  /** The evaluator's unary step as the source runs it: a loop from the last
      operator index down to the first, updating an accumulator. */
  method EvalUnaryExpr(expr: Option<UnaryExpr>) returns (r: EvalResult)
    ensures r == EvalUnary(expr)
  {
    if expr.None? {
      return Invalid(NoPosition, "unary expression", "nil");
    }
    var exprRes := EvalPrimaryExpr(expr.value.expr);
    if exprRes.err.Some? {
      return exprRes;
    }
    var ops := expr.value.ops;
    var acc := exprRes.payload;
    var idx := |ops| - 1;
    assert ops[..idx + 1] == ops;
    while idx >= 0
      invariant -1 <= idx < |ops|
      invariant FoldOps(ops, exprRes.payload) == FoldOps(ops[..idx + 1], acc)
      decreases idx
    {
      var op := ops[idx].op;
      assert ops[..idx + 1][..idx] == ops[..idx];
      if op == NotText || op == NotSymb {
        acc := !acc;
      } else if op == NullifyText {
        acc := false;
      } else if op == TruifyText {
        acc := true;
      } else if op == IdText {
        // no change
      } else {
        return Invalid(expr.value.pos, "unary operator", op);
      }
      idx := idx - 1;
    }
    assert ops[..0] == [];
    return SuccessResult(expr.value.pos, acc);
  }
}

/**
 * What the evaluator promises: literal meaning, the errors for malformed
 * nodes, transparent parentheses, the unary fold order, the truth table of
 * the connectives, error precedence and positions, right-associative
 * chains, and that well-formed trees never reach an invariant error.
 */
module BooleanEvalProperties {
  import opened Wrappers
  import opened Lexicon
  import opened BooleanAst
  import opened BooleanEval

  // ---------------------------------------------------------------------
  // Literals and malformed nodes

  /** A literal means true when spelled TRUE, false when spelled FALSE, and
      is the error "invalid boolean literal '<text>'" otherwise, including
      the empty text of a primary with neither field set. */
  lemma LiteralMeaning(pos: Position, lit: string)
    ensures var r := EvalPrimaryExpr(Some(PrimaryExpr(pos, lit, None)));
      && r.pos == pos
      && (r.err.None? <==> lit in LiteralSpellings)
      && (r.err.None? ==> r.payload == (lit == TrueText))
      && (r.err.Some? ==> r.err.value == InvalidMessage("boolean literal", lit) && !r.payload)
  {
  }

  /** Nil nodes are errors at the zero position naming the missing kind; a
      primary with both alternatives set is an error at its own position. */
  lemma MalformedNodes(p: PrimaryExpr)
    ensures EvalPrimaryExpr(None) == Invalid(NoPosition, "primary expression", "nil")
    ensures EvalUnary(None) == Invalid(NoPosition, "unary expression", "nil")
    ensures EvalExpr(None) == Invalid(NoPosition, "boolean expression", "nil")
    ensures p.paren.Some? && p.lit != "" ==>
      EvalPrimaryExpr(Some(p)) == Invalid(p.pos, "primary expression", "both Lit and Paren")
  {
  }

  // ---------------------------------------------------------------------
  // Parentheses

  /** `( e )` as the grammar builds it: every wrapper node at the `(`. */
  function Parenthesize(e: Expr, p: Position): Expr
  {
    Expr(p, Some(UnaryExpr(p, [], Some(PrimaryExpr(p, "", Some(ParenExpr(p, Some(e))))))), None)
  }

  /** `e` inside |ps| pairs of parentheses, the outermost opening at ps[0]. */
  function Nest(e: Expr, ps: seq<Position>): Expr
    decreases |ps|
  {
    if ps == [] then e else Parenthesize(Nest(e, ps[1..]), ps[0])
  }

  /** One pair of parentheses passes the inner error through and re-stamps a value. */
  lemma ParenOnce(e: Expr, p: Position)
    ensures var inner := EvalExpr(Some(e));
      EvalExpr(Some(Parenthesize(e, p))) == if inner.err.Some? then inner else SuccessResult(p, inner.payload)
  {
    var u := UnaryExpr(p, [], Some(PrimaryExpr(p, "", Some(ParenExpr(p, Some(e))))));
    assert EvalExpr(Some(Parenthesize(e, p))) == EvalUnary(Some(u));
    assert EvalPrimaryExpr(u.expr) == EvalParenExpr(ParenExpr(p, Some(e)));
    assert FoldOps([], EvalExpr(Some(e)).payload) == Folded(EvalExpr(Some(e)).payload);
  }

  /** Parentheses are transparent at any depth: the inner error comes out
      unchanged, and a value comes out stamped with the outermost `(`. */
  lemma {:induction false} ParensTransparent(e: Expr, ps: seq<Position>)
    ensures var inner := EvalExpr(Some(e));
      EvalExpr(Some(Nest(e, ps))) ==
        if ps == [] || inner.err.Some? then inner else SuccessResult(ps[0], inner.payload)
    decreases |ps|
  {
    if ps != [] {
      ParensTransparent(e, ps[1..]);
      ParenOnce(Nest(e, ps[1..]), ps[0]);
    }
  }

  // ---------------------------------------------------------------------
  // Unary operators

  /** The leftmost operator is applied last: folding `o` in front of `rest`
      folds `rest` first and then applies `o` to its value. */
  lemma {:induction false} FoldLeftmostLast(o: UnaryOp, rest: seq<UnaryOp>, acc: bool)
    ensures FoldOps([o] + rest, acc) ==
      match FoldOps(rest, acc)
      case Stuck(t) => Stuck(t)
      case Folded(w) =>
        match ApplyUnary(o.op, w)
        case None => Stuck(o.op)
        case Some(x) => Folded(x)
    decreases |rest|
  {
    if rest != [] {
      var ops := [o] + rest;
      assert ops[|ops| - 1] == rest[|rest| - 1];
      assert ops[..|ops| - 1] == [o] + rest[..|rest| - 1];
      match ApplyUnary(rest[|rest| - 1].op, acc)
      case None =>
      case Some(v) => FoldLeftmostLast(o, rest[..|rest| - 1], v);
    } else {
      assert [o] + rest == [o];
      assert [o][..0] == [];
    }
  }

  /** The fold reaches a value exactly when every operator is known. */
  lemma {:induction false} FoldFolded(ops: seq<UnaryOp>, acc: bool)
    ensures FoldOps(ops, acc).Folded? <==> forall k :: 0 <= k < |ops| ==> ops[k].op in UnarySpellings
    decreases |ops|
  {
    if ops != [] {
      var n := |ops| - 1;
      match ApplyUnary(ops[n].op, acc)
      case None =>
      case Some(v) =>
        FoldFolded(ops[..n], v);
        assert forall k :: 0 <= k < n ==> ops[..n][k] == ops[k];
    }
  }

  /** A stuck fold is stuck on the unknown operator with the highest index
      (the first one the descending loop meets). */
  lemma {:induction false} FoldStuck(ops: seq<UnaryOp>, acc: bool)
    ensures FoldOps(ops, acc).Stuck? ==>
      exists m :: 0 <= m < |ops| && ops[m].op !in UnarySpellings && FoldOps(ops, acc).op == ops[m].op
        && forall k :: m < k < |ops| ==> ops[k].op in UnarySpellings
    decreases |ops|
  {
    if ops != [] {
      var n := |ops| - 1;
      match ApplyUnary(ops[n].op, acc)
      case None =>
        assert ops[n].op !in UnarySpellings;
      case Some(v) =>
        FoldStuck(ops[..n], v);
        if FoldOps(ops[..n], v).Stuck? {
          var m :| 0 <= m < n && ops[..n][m].op !in UnarySpellings && FoldOps(ops[..n], v).op == ops[..n][m].op
            && forall k :: m < k < n ==> ops[..n][k].op in UnarySpellings;
          assert forall k :: 0 <= k < n ==> ops[..n][k] == ops[k];
          assert ops[m].op !in UnarySpellings;
        }
    }
  }

  /** A leftmost `nullify` or `truify` decides the result, whatever the
      operators to its right did, provided none of them is unknown. */
  lemma LeftmostOverride(ops: seq<UnaryOp>, acc: bool)
    requires ops != [] && forall k :: 0 <= k < |ops| ==> ops[k].op in UnarySpellings
    ensures ops[0].op == NullifyText ==> FoldOps(ops, acc) == Folded(false)
    ensures ops[0].op == TruifyText ==> FoldOps(ops, acc) == Folded(true)
  {
    assert ops == [ops[0]] + ops[1..];
    FoldLeftmostLast(ops[0], ops[1..], acc);
    FoldFolded(ops[1..], acc);
    assert forall k :: 0 <= k < |ops| - 1 ==> ops[1..][k] == ops[k + 1];
  }

  /** The number of negations (`not`, `~`) among `ops`. */
  function Negations(ops: seq<UnaryOp>): nat
    decreases |ops|
  {
    if ops == [] then 0
    else Negations(ops[..|ops| - 1]) + (if ops[|ops| - 1].op in [NotText, NotSymb] then 1 else 0)
  }

  /** With only negations and `id`, the result is the operand flipped once
      per negation. */
  lemma {:induction false} NegationParity(ops: seq<UnaryOp>, acc: bool)
    requires forall k :: 0 <= k < |ops| ==> ops[k].op in [NotText, NotSymb, IdText]
    ensures FoldOps(ops, acc) == Folded(if Negations(ops) % 2 == 0 then acc else !acc)
    decreases |ops|
  {
    if ops != [] {
      var n := |ops| - 1;
      var v := ApplyUnary(ops[n].op, acc).value;
      assert forall k :: 0 <= k < n ==> ops[..n][k] == ops[k];
      NegationParity(ops[..n], v);
    }
  }

  /** A failing primary is returned as it is, before any operator is looked at. */
  lemma PrimaryErrorFirst(u: UnaryExpr)
    requires EvalPrimaryExpr(u.expr).err.Some?
    ensures EvalUnary(Some(u)) == EvalPrimaryExpr(u.expr)
  {
  }

  /** An unknown unary operator is an error at the unary expression's position. */
  lemma UnknownUnaryOperator(u: UnaryExpr)
    requires EvalPrimaryExpr(u.expr).err.None?
    requires exists k :: 0 <= k < |u.ops| && u.ops[k].op !in UnarySpellings
    ensures var r := EvalUnary(Some(u));
      r.pos == u.pos && r.err.Some? &&
      exists m :: 0 <= m < |u.ops| && r.err.value == InvalidMessage("unary operator", u.ops[m].op)
  {
    var acc := EvalPrimaryExpr(u.expr).payload;
    FoldFolded(u.ops, acc);
    FoldStuck(u.ops, acc);
    var m :| 0 <= m < |u.ops| && u.ops[m].op !in UnarySpellings && FoldOps(u.ops, acc).op == u.ops[m].op;
    assert EvalUnary(Some(u)) == Invalid(u.pos, "unary operator", u.ops[m].op);
  }

  // ---------------------------------------------------------------------
  // Binary operators

  /** Every spelling of an operator gives the design's truth table, except
      LEFT, whose case assigns nothing and so always gives false. */
  lemma CombineTable(op: BinaryOperator, t: string, l: bool, r: bool)
    requires t in BinarySpellings(op)
    ensures Combine(t, l, r) == Some(if op == Left then false else DesignTable(op, l, r))
  {
    var s := BinarySpellings(op);
    if t == s[0] {
      CombineWord(op, l, r);
    } else if t == s[1] {
      CombineSymbol(op, l, r);
    } else {
      assert op == Xnor && t == IffText;
    }
  }

  /** The truth table for the word spellings. */
  lemma CombineWord(op: BinaryOperator, l: bool, r: bool)
    ensures Combine(BinarySpellings(op)[0], l, r) == Some(if op == Left then false else DesignTable(op, l, r))
  {
  }

  /** The truth table for the symbol spellings. */
  lemma CombineSymbol(op: BinaryOperator, l: bool, r: bool)
    ensures Combine(BinarySpellings(op)[1], l, r) == Some(if op == Left then false else DesignTable(op, l, r))
  {
  }

  /** Both spellings of an operator mean the same. */
  lemma SpellingsAgree(op: BinaryOperator, t1: string, t2: string, l: bool, r: bool)
    requires t1 in BinarySpellings(op) && t2 in BinarySpellings(op)
    ensures Combine(t1, l, r) == Combine(t2, l, r)
  {
    CombineTable(op, t1, l, r);
    CombineTable(op, t2, l, r);
  }

  /** Exactly the binary spellings are known to the combination step. */
  lemma CombineKnown(t: string, l: bool, r: bool)
    ensures Combine(t, l, r).Some? <==> t in AllBinarySpellings
  {
    if t in AllBinarySpellings {
      var k :| 0 <= k < |AllBinarySpellings| && AllBinarySpellings[k] == t;
      SpellingOwned(k);
      CombineTable(SpellingOwners[k], t, l, r);
    }
  }

  /** LEFT ignores both operands and gives false, where the design says it
      gives its left operand: the two disagree whenever the left is true. */
  lemma LeftIsConstantFalse(t: string, l: bool, r: bool)
    requires t in BinarySpellings(Left)
    ensures Combine(t, l, r) == Some(false)
    ensures l ==> Combine(t, l, r) != Some(DesignTable(Left, l, r))
  {
  }

  // ---------------------------------------------------------------------
  // Binary expressions

  /** Without a rest an expression is its unary result, unchanged. */
  lemma NoRest(pos: Position, u: Option<UnaryExpr>)
    ensures EvalExpr(Some(Expr(pos, u, None))) == EvalUnary(u)
  {
  }

  /** Error precedence and positions of a binary expression: the right
      side's error wins even when the left side failed too; then the left
      side's error; an unknown operator only when both succeed, at the right
      side's position; a value at the left unary's position. */
  lemma BinaryPrecedence(pos: Position, u: Option<UnaryExpr>, rest: ExprRest)
    ensures var res := EvalExpr(Some(Expr(pos, u, Some(rest))));
      var left := EvalUnary(u);
      var right := EvalExpr(rest.expr);
      && (right.err.Some? ==> res == right)
      && (right.err.None? && left.err.Some? ==> res == left)
      && (right.err.None? && left.err.None? && rest.op !in AllBinarySpellings ==>
            res == Invalid(right.pos, "binary operation", rest.op))
      && (right.err.None? && left.err.None? && rest.op in AllBinarySpellings ==>
            Combine(rest.op, left.payload, right.payload).Some? &&
            res == SuccessResult(left.pos, Combine(rest.op, left.payload, right.payload).value))
  {
    var left := EvalUnary(u);
    var right := EvalExpr(rest.expr);
    assert EvalExpr(Some(Expr(pos, u, Some(rest)))) == Transmogrify(Some(rest), left);
    CombineKnown(rest.op, left.payload, right.payload);
  }

  /** The connectives' table as the evaluator implements it. */
  function CodeTable(op: BinaryOperator, l: bool, r: bool): bool
  {
    if op == Left then false else DesignTable(op, l, r)
  }

  /** A binary expression whose two sides succeed has the value of the
      evaluator's table, at the left unary's position. */
  lemma BinaryValue(p: Position, u: UnaryExpr, q: Position, op: BinaryOperator, t: string, sub: Expr)
    requires t in BinarySpellings(op)
    requires EvalUnary(Some(u)).err.None? && EvalExpr(Some(sub)).err.None?
    ensures EvalExpr(Some(Expr(p, Some(u), Some(ExprRest(q, t, Some(sub))))))
         == SuccessResult(u.pos, CodeTable(op, EvalUnary(Some(u)).payload, EvalExpr(Some(sub)).payload))
  {
    CombineTable(op, t, EvalUnary(Some(u)).payload, EvalExpr(Some(sub)).payload);
  }

  /** `a op1 b op2 c` is `a op1 (b op2 c)`: the right operand of op1 is the
      whole nested chain. */
  lemma RightAssociative(p1: Position, a: UnaryExpr, q1: Position, op1: BinaryOperator, t1: string,
                         p2: Position, b: UnaryExpr, q2: Position, op2: BinaryOperator, t2: string, c: Expr)
    requires t1 in BinarySpellings(op1) && t2 in BinarySpellings(op2)
    requires EvalUnary(Some(a)).err.None? && EvalUnary(Some(b)).err.None? && EvalExpr(Some(c)).err.None?
    ensures var chain := Expr(p1, Some(a), Some(ExprRest(q1, t1, Some(Expr(p2, Some(b), Some(ExprRest(q2, t2, Some(c))))))));
      var bc := CodeTable(op2, EvalUnary(Some(b)).payload, EvalExpr(Some(c)).payload);
      EvalExpr(Some(chain)) == SuccessResult(a.pos, CodeTable(op1, EvalUnary(Some(a)).payload, bc))
  {
    BinaryValue(p2, b, q2, op2, t2, c);
    BinaryValue(p1, a, q1, op1, t1, Expr(p2, Some(b), Some(ExprRest(q2, t2, Some(c)))));
  }

  // ---------------------------------------------------------------------
  // Well-formed trees

  /** A tree of the grammar's shape, spelled with the lexicon, never reaches
      an invariant error: it evaluates to a value. */
  lemma {:induction false} WellFormedExprEvaluates(e: Expr)
    requires WellFormedExpr(e)
    ensures EvalExpr(Some(e)).err.None?
    decreases e, 2
  {
    WellFormedUnaryEvaluates(e.unary.value);
    if e.rest.Some? {
      WellFormedExprEvaluates(e.rest.value.expr.value);
      CombineKnown(e.rest.value.op, EvalUnary(e.unary).payload, EvalExpr(e.rest.value.expr).payload);
    }
  }

  lemma {:induction false} WellFormedUnaryEvaluates(u: UnaryExpr)
    requires WellFormedUnary(u)
    ensures EvalUnary(Some(u)).err.None?
    decreases u, 1
  {
    WellFormedPrimaryEvaluates(u.expr.value);
    FoldFolded(u.ops, EvalPrimaryExpr(u.expr).payload);
  }

  lemma {:induction false} WellFormedPrimaryEvaluates(p: PrimaryExpr)
    requires WellFormedPrimary(p)
    ensures EvalPrimaryExpr(Some(p)).err.None?
    decreases p, 0
  {
    if p.paren.Some? {
      WellFormedExprEvaluates(p.paren.value.expr.value);
    }
  }

  /** `not nullify True`: `nullify` is applied first, then `not`, giving true. */
  lemma NotNullifyTrue(p: Position, q: Position, s: Position)
    ensures EvalExpr(Some(Expr(p, Some(UnaryExpr(p, [UnaryOp(p, NotText), UnaryOp(q, NullifyText)],
                                                  Some(PrimaryExpr(s, TrueText, None)))), None)))
            == SuccessResult(p, true)
  {
    var ops := [UnaryOp(p, NotText), UnaryOp(q, NullifyText)];
    assert ops[..1] == [UnaryOp(p, NotText)];
    assert ops[..1][..0] == [];
    assert FoldOps(ops[..1], false) == FoldOps([], true);
    assert FoldOps(ops, true) == FoldOps(ops[..1], false);
    assert FoldOps(ops, true) == Folded(true);
    var u := UnaryExpr(p, ops, Some(PrimaryExpr(s, TrueText, None)));
    assert EvalPrimaryExpr(u.expr) == SuccessResult(s, true);
    assert EvalUnary(Some(u)) == SuccessResult(p, true);
  }
}

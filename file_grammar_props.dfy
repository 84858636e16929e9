/**
 * What the file grammar promises: its one expression is the expression
 * grammar's, terminators are kept in order, and whatever follows is an
 * error where the end of input was expected.
 */
module FileGrammarProperties {
  import opened Wrappers
  import opened Lexicon
  import BooleanAst
  import BooleanEval
  import BooleanEvalProperties
  import opened BooleanParser
  import opened BooleanParserProperties
  import opened FileGrammar

  /** A first token that can start no primary fails at index 0. */
  lemma FileBadFirstToken(toks: seq<Token>)
    requires |toks| > 0 && toks[0].kind != LitString && toks[0].kind != UnaryOpString && toks[0].kind != OpenParen
    ensures ParseFile(toks) == Err(ParseError(0, ExpectPrimary))
  {
    NoPrimaryAt(toks, 0);
  }

  /** `ops Lit Bin`: the file parser gives the rest up and reports the
      operator where the end of input was expected, while the expression
      parser reports the deeper error at the end of input. */
  lemma FileDanglingOperator(ops: seq<Token>, lit: Token, bin: Token)
    requires forall k :: 0 <= k < |ops| ==> ops[k].kind == UnaryOpString
    requires lit.kind == LitString && bin.kind == BinaryOpString
    ensures var toks := ops + [lit, bin];
      && ParseFile(toks) == Err(ParseError(|ops| + 1, ExpectEof))
      && ParseExpr(toks) == Err(ParseError(|toks|, ExpectPrimary))
  {
    var toks := ops + [lit, bin];
    UnaryThenLit(toks, 0, |ops|);
    NoPrimaryAt(toks, |toks|);
    var r := ParseExprAt(toks, 0);
    assert r.Done? && r.next == |ops| + 1;
    assert TerminatorRun(toks, |ops| + 1) == 0;
    DanglingOperator(ops, lit, bin);
  }

  /** `Lit Bin (`: the parenthesis fails right after its `(`, so the rest is
      given up without an error and the file reports the operator where the
      end of input was expected; the expression parser reports the deeper
      error at the end of input. */
  lemma FileGivenUpAfterOperator(lit: Token, bin: Token, open: Token)
    requires lit.kind == LitString && bin.kind == BinaryOpString && open.kind == OpenParen
    ensures ParseFile([lit, bin, open]) == Err(ParseError(1, ExpectEof))
    ensures ParseExpr([lit, bin, open]) == Err(ParseError(3, ExpectPrimary))
  {
    var toks := [lit, bin, open];
    var inner := ParseError(3, ExpectPrimary);
    NoPrimaryAt(toks, 3);
    assert ParseParenAt(toks, 2) == Failed(inner, 3);
    assert UnaryOpRun(toks, 2) == 0;
    assert ParsePrimaryAt(toks, 2) == Failed(inner, 2);
    assert ParseUnaryAt(toks, 2) == Failed(inner, 2);
    assert ParseExprAt(toks, 2) == Failed(inner, 2);
    UnaryThenLit(toks, 0, 0);
    var r := ParseExprAt(toks, 0);
    assert r.Done? && r.next == 1 && r.abandoned == Some(inner);
    assert TerminatorRun(toks, 1) == 0;
  }

  /** A file holds one expression: after an expression the expression parser
      accepts and any terminators, a token that can neither continue that
      expression nor end it is reported where it stands, where the end of
      input was expected, whatever comes after it. */
  lemma SecondExpression(e: seq<Token>, terms: seq<Token>, b: Token, more: seq<Token>)
    requires ParseExpr(e).Ok?
    requires forall k :: 0 <= k < |terms| ==> IsTerminator(terms[k])
    requires b.kind != BinaryOpString && !IsTerminator(b)
    ensures ParseFile(e + terms + [b] + more) == Err(ParseError(|e| + |terms|, ExpectEof))
  {
    var toks := e + terms + [b] + more;
    assert toks[|e|] == if |terms| == 0 then b else terms[0];
    assert toks[|e| + |terms|] == b;
    assert Agree(e, toks, |e|);
    var x, ab := WholeExpr(e);
    PrefixExpr(e, toks, 0, x, |e|, ab);
    TerminatorRunLength(toks, |e|, |terms|);
  }

  /** After an expression the expression parser accepts, the terminators
      that end the file are kept in order, in one node at the first of them. */
  lemma TerminatorsKept(e: seq<Token>, terms: seq<Token>)
    requires ParseExpr(e).Ok?
    requires forall k :: 0 <= k < |terms| ==> IsTerminator(terms[k])
    ensures ParseFile(e + terms)
         == Ok(File(e[0].pos, [Expr(e[0].pos, Some(ParseExpr(e).value),
                 if terms == [] then None else Some(ExprTerminator(terms[0].pos, Texts(terms, 0, |terms|))))]))
  {
    var toks := e + terms;
    assert Agree(e, toks, |e|);
    if terms != [] {
      assert toks[|e|] == terms[0];
    }
    var x, ab := WholeExpr(e);
    PrefixExpr(e, toks, 0, x, |e|, ab);
    TerminatorRunLength(toks, |e|, |terms|);
    assert Texts(toks, |e|, |terms|) == Texts(terms, 0, |terms|);
  }

  /** An expression the expression parser accepts spans its whole input. */
  lemma WholeExpr(e: seq<Token>) returns (x: BooleanAst.Expr, ab: Option<ParseError>)
    requires ParseExpr(e).Ok?
    ensures ParseExprAt(e, 0) == Done(x, |e|, ab) && x == ParseExpr(e).value
  {
    var r := ParseExprAt(e, 0);
    x, ab := r.node, r.abandoned;
  }

  /** The run of terminators from `i` is exactly `n` long when the `n`
      tokens from `i` are terminators and the input ends or a token of
      another kind follows. */
  lemma {:induction false} TerminatorRunLength(toks: seq<Token>, i: nat, n: nat)
    requires i + n <= |toks|
    requires forall k :: i <= k < i + n ==> IsTerminator(toks[k])
    requires i + n == |toks| || !IsTerminator(toks[i + n])
    ensures TerminatorRun(toks, i) == n
    decreases n
  {
    if n > 0 {
      TerminatorRunLength(toks, i + 1, n - 1);
    }
  }

  lemma {:induction false} SameWordsTerminators(t1: seq<Token>, t2: seq<Token>, i: nat)
    requires SameWords(t1, t2) && i <= |t1|
    ensures TerminatorRun(t1, i) == TerminatorRun(t2, i)
    ensures Texts(t1, i, TerminatorRun(t1, i)) == Texts(t2, i, TerminatorRun(t1, i))
    decreases |t1| - i
  {
    if i < |t1| && IsTerminator(t1[i]) {
      SameWordsTerminators(t1, t2, i + 1);
    }
  }

  /** The file parser sees only the words of its input: the same error, or
      the same statement up to positions, with the same terminator texts. */
  lemma FileWhitespaceInvariance(t1: seq<Token>, t2: seq<Token>)
    requires SameWords(t1, t2)
    ensures ParseFile(t1).Err? <==> ParseFile(t2).Err?
    ensures ParseFile(t1).Err? ==> ParseFile(t1) == ParseFile(t2)
    ensures ParseFile(t1).Ok? ==>
      var s1 := ParseFile(t1).value.expressions[0];
      var s2 := ParseFile(t2).value.expressions[0];
      && BooleanAst.EraseExpr(s1.boolExpr.value) == BooleanAst.EraseExpr(s2.boolExpr.value)
      && (s1.exprTerminator.Some? <==> s2.exprTerminator.Some?)
      && (s1.exprTerminator.Some? ==> s1.exprTerminator.value.val == s2.exprTerminator.value.val)
  {
    SameWordsExpr(t1, t2, 0);
    match ParseExprAt(t1, 0)
    case Failed(_, _) =>
    case Done(_, j, _) =>
      SameWordsTerminators(t1, t2, j);
  }

  /** On input without terminators the file parser accepts exactly what the
      expression parser accepts, with the same tree; where the expression
      itself fails, both report the same error. */
  lemma FileAgreesWithExpr(toks: seq<Token>)
    requires forall k :: 0 <= k < |toks| ==> !IsTerminator(toks[k])
    ensures ParseFile(toks).Ok? <==> ParseExpr(toks).Ok?
    ensures ParseFile(toks).Ok? ==> ParseFile(toks).value.expressions == [Expr(toks[0].pos, Some(ParseExpr(toks).value), None)]
    ensures ParseExprAt(toks, 0).Failed? ==> ParseFile(toks).Err? && ParseExpr(toks).Err? && ParseFile(toks).error == ParseExpr(toks).error
  {
    match ParseExprAt(toks, 0)
    case Failed(_, _) =>
    case Done(b, j, _) =>
      assert TerminatorRun(toks, j) == 0;
  }

  /** The file parser's expression from well-spelled input is well formed. */
  lemma FileWellFormed(toks: seq<Token>)
    requires WellSpelled(toks)
    ensures ParseFile(toks).Ok? ==> BooleanAst.WellFormedExpr(ParseFile(toks).value.expressions[0].boolExpr.value)
  {
    ExprWellFormed(toks, 0);
  }

  /** A well-spelled file that parses evaluates to a value. */
  lemma ParsedFileEvaluates(toks: seq<Token>)
    requires WellSpelled(toks) && ParseFile(toks).Ok?
    ensures BooleanEval.EvalExpr(ParseFile(toks).value.expressions[0].boolExpr).err.None?
  {
    FileWellFormed(toks);
    BooleanEvalProperties.WellFormedExprEvaluates(ParseFile(toks).value.expressions[0].boolExpr.value);
  }
}

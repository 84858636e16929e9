/**
 * The file grammar: one boolean expression, optionally ended by a run of
 * terminators (`;;` or newlines), and then the end of input.
 *
 *   File           := Expr EOF
 *   Expr           := BooleanExpr ExprTerminator?
 *   ExprTerminator := (DoubleSemicolon | Newline)+
 *
 * A file holds exactly one expression: anything after the first
 * expression and its terminators is reported as an unexpected token where
 * the end of input was expected.
 */
module FileGrammar {
  import opened Wrappers
  import opened Lexicon
  import BooleanAst
  import opened BooleanParser

  datatype ExprTerminator = ExprTerminator(pos: Position, val: seq<string>)

  /** One statement of a file: a boolean expression and its terminators. */
  datatype Expr = Expr(pos: Position, boolExpr: Option<BooleanAst.Expr>, exprTerminator: Option<ExprTerminator>)

  datatype File = File(pos: Position, expressions: seq<Expr>)

  predicate IsTerminator(t: Token)
  {
    t.kind == DoubleSemicolon || t.kind == Newline
  }

  /** The number of terminator tokens in a row from index `i`. */
  function TerminatorRun(toks: seq<Token>, i: nat): (n: nat)
    requires i <= |toks|
    ensures i + n <= |toks|
    ensures forall k :: i <= k < i + n ==> IsTerminator(toks[k])
    ensures i + n == |toks| || !IsTerminator(toks[i + n])
    decreases |toks| - i
  {
    if i < |toks| && IsTerminator(toks[i]) then 1 + TerminatorRun(toks, i + 1) else 0
  }

  /** The texts of tokens `i` up to `i + n`, in order. */
  function Texts(toks: seq<Token>, i: nat, n: nat): (val: seq<string>)
    requires i + n <= |toks|
    ensures |val| == n
    ensures forall k :: 0 <= k < n ==> val[k] == toks[i + k].text
  {
    seq(n, k requires 0 <= k < n => toks[i + k].text)
  }

  /** The terminators from index `i`, if there is at least one. */
  function TerminatorAt(toks: seq<Token>, i: nat): (r: Option<ExprTerminator>)
    requires i <= |toks|
    ensures r.Some? <==> i < |toks| && IsTerminator(toks[i])
    ensures r.Some? ==> r.value.pos == toks[i].pos && |r.value.val| == TerminatorRun(toks, i)
  {
    var n := TerminatorRun(toks, i);
    if n == 0 then None else Some(ExprTerminator(toks[i].pos, Texts(toks, i, n)))
  }

  /** The file parser. */
  function ParseFile(toks: seq<Token>): (r: Result<File, ParseError>)
    ensures r.Err? ==> r.error.at <= |toks|
    ensures r.Ok? ==> |toks| > 0 && r.value.pos == toks[0].pos && |r.value.expressions| == 1
    ensures r.Ok? ==> r.value.expressions[0].boolExpr.Some?
  {
    match ParseExprAt(toks, 0)
    case Failed(e, _) => Err(e)
    case Done(b, j, _) =>
      var k := j + TerminatorRun(toks, j);
      if k == |toks| then Ok(File(toks[0].pos, [Expr(toks[0].pos, Some(b), TerminatorAt(toks, j))]))
      else Err(ParseError(k, ExpectEof))
  }
}

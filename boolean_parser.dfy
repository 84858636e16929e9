/**
 * The expression grammar, as a recursive-descent reading of the token
 * stream the lexer leaves once whitespace is elided:
 *
 *   Expr        := UnaryExpr (BinaryOpString Expr)?
 *   UnaryExpr   := UnaryOpString* PrimaryExpr
 *   PrimaryExpr := LitString | ParenExpr
 *   ParenExpr   := '(' Expr ')'
 *
 * Every node takes the position of the token it starts at. An error names
 * the index of the offending token (the stream's length for the end of
 * input) and what was expected there.
 *
 * A failed parse also says how far it got: the index up to which it
 * consumed tokens on committed paths. As with one token of lookahead, an
 * alternative or an optional part that fails having consumed at most one
 * token is not committed: a parenthesis that fails right after its `(`
 * leaves the primary where it started, and the optional rest of an
 * expression (tried whenever the next token is a binary operator) is given
 * up, without an error, when the expression after the operator got no
 * further than the token after the operator. The error of a rest given up
 * is kept as the deepest one seen, and the expression parser reports it
 * when the input does not end where the expression does. A rest that got
 * further fails the whole parse.
 */
module BooleanParser {
  import opened Wrappers
  import opened Lexicon
  import opened BooleanAst

  datatype Expected = ExpectPrimary | ExpectCloseParen | ExpectEof

  /** An unexpected token: its index (the length of the stream at the end of
      input) and what the grammar expected there. */
  datatype ParseError = ParseError(at: nat, expected: Expected)

  /** A node parsed from index `i` up to `next`, with the deepest error of an
      optional part given up on the way; or the error that stopped the parse,
      with the index the parse had consumed up to on committed paths. */
  datatype Parsed<T> = Done(node: T, next: nat, abandoned: Option<ParseError>) | Failed(error: ParseError, reached: nat)

  /** The deeper of two remembered errors; the earlier one on a tie. */
  function Deeper(a: Option<ParseError>, b: Option<ParseError>): (d: Option<ParseError>)
    ensures d == a || d == b
    ensures a.None? ==> d == b
    ensures b.None? ==> d == a
    ensures a.Some? && b.Some? ==> d.Some? && d.value.at >= a.value.at && d.value.at >= b.value.at
    ensures a.Some? && b.Some? && a.value.at == b.value.at ==> d == a
  {
    if a.None? then b
    else if b.None? then a
    else if b.value.at > a.value.at then b
    else a
  }

  /** The number of unary-operator tokens in a row from index `i`. */
  function UnaryOpRun(toks: seq<Token>, i: nat): (n: nat)
    requires i <= |toks|
    ensures i + n <= |toks|
    ensures forall k :: i <= k < i + n ==> toks[k].kind == UnaryOpString
    ensures i + n == |toks| || toks[i + n].kind != UnaryOpString
    decreases |toks| - i
  {
    if i < |toks| && toks[i].kind == UnaryOpString then 1 + UnaryOpRun(toks, i + 1) else 0
  }

  /** The unary operators of tokens `i` up to `i + n`, in textual order. */
  function OpsOf(toks: seq<Token>, i: nat, n: nat): (ops: seq<UnaryOp>)
    requires i + n <= |toks|
    ensures |ops| == n
    ensures forall k :: 0 <= k < n ==> ops[k] == UnaryOp(toks[i + k].pos, toks[i + k].text)
  {
    seq(n, k requires 0 <= k < n => UnaryOp(toks[i + k].pos, toks[i + k].text))
  }

  function ParseExprAt(toks: seq<Token>, i: nat): (r: Parsed<Expr>)
    requires i <= |toks|
    ensures r.Done? ==> i < r.next <= |toks| && r.node.pos == toks[i].pos
    ensures r.Failed? ==> i <= r.reached <= r.error.at <= |toks|
    ensures r.Done? && r.abandoned.Some? ==> i < r.abandoned.value.at <= |toks|
    decreases |toks| - i, 3
  {
    match ParseUnaryAt(toks, i)
    case Failed(e, c) => Failed(e, c)
    case Done(u, j, ab) =>
      if j < |toks| && toks[j].kind == BinaryOpString then
        match ParseExprAt(toks, j + 1)
        case Failed(e, c) =>
          if c <= j + 1 then Done(Expr(toks[i].pos, Some(u), None), j, Deeper(ab, Some(e)))
          else Failed(e, c)
        case Done(sub, k, ab') =>
          Done(Expr(toks[i].pos, Some(u), Some(ExprRest(toks[j].pos, toks[j].text, Some(sub)))), k, Deeper(ab, ab'))
      else
        Done(Expr(toks[i].pos, Some(u), None), j, ab)
  }

  function ParseUnaryAt(toks: seq<Token>, i: nat): (r: Parsed<UnaryExpr>)
    requires i <= |toks|
    ensures r.Done? ==> i < r.next <= |toks| && r.node.pos == toks[i].pos
    ensures r.Failed? ==> i <= r.reached <= r.error.at <= |toks|
    ensures r.Done? && r.abandoned.Some? ==> i < r.abandoned.value.at <= |toks|
    decreases |toks| - i, 2
  {
    var n := UnaryOpRun(toks, i);
    match ParsePrimaryAt(toks, i + n)
    case Failed(e, c) => Failed(e, c)
    case Done(p, j, ab) => Done(UnaryExpr(toks[i].pos, OpsOf(toks, i, n), Some(p)), j, ab)
  }

  function ParsePrimaryAt(toks: seq<Token>, i: nat): (r: Parsed<PrimaryExpr>)
    requires i <= |toks|
    ensures r.Done? ==> i < r.next <= |toks| && r.node.pos == toks[i].pos
    ensures r.Failed? ==> i <= r.reached <= r.error.at <= |toks|
    ensures r.Done? && r.abandoned.Some? ==> i < r.abandoned.value.at <= |toks|
    decreases |toks| - i, 1
  {
    if i < |toks| && toks[i].kind == LitString then
      Done(PrimaryExpr(toks[i].pos, toks[i].text, None), i + 1, None)
    else
      match ParseParenAt(toks, i)
      case Failed(e, c) => Failed(e, if c > i + 1 then c else i)
      case Done(q, j, ab) => Done(PrimaryExpr(toks[i].pos, "", Some(q)), j, ab)
  }

  /** A parenthesised expression. One that does not start with '(' does not
      match, and the primary it stands in reports that neither of its
      alternatives did. */
  function ParseParenAt(toks: seq<Token>, i: nat): (r: Parsed<ParenExpr>)
    requires i <= |toks|
    ensures r.Done? ==> i < r.next <= |toks| && r.node.pos == toks[i].pos
    ensures r.Failed? ==> i <= r.reached <= r.error.at <= |toks|
    ensures r.Done? && r.abandoned.Some? ==> i < r.abandoned.value.at <= |toks|
    decreases |toks| - i, 0
  {
    if i < |toks| && toks[i].kind == OpenParen then
      match ParseExprAt(toks, i + 1)
      case Failed(e, c) => Failed(e, c)
      case Done(e, j, ab) =>
        if j < |toks| && toks[j].kind == CloseParen then Done(ParenExpr(toks[i].pos, Some(e)), j + 1, ab)
        else Failed(ParseError(j, ExpectCloseParen), j)
    else
      Failed(ParseError(i, ExpectPrimary), i)
  }

  /** The expression parser: one expression that must take the whole input. */
  function ParseExpr(toks: seq<Token>): (r: Result<Expr, ParseError>)
    ensures r.Err? ==> r.error.at <= |toks|
    ensures r.Ok? ==> |toks| > 0 && r.value.pos == toks[0].pos
  {
    match ParseExprAt(toks, 0)
    case Failed(e, _) => Err(e)
    case Done(e, j, ab) =>
      if j == |toks| then Ok(e)
      else if ab.Some? && ab.value.at > j then Err(ab.value)
      else Err(ParseError(j, ExpectEof))
  }
}

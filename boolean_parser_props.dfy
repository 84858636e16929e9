/**
 * What the expression grammar promises: the shape it builds, the error it
 * reports for each kind of bad input, that only the words of the input
 * matter (not where they sit), and that a tree written out as tokens reads
 * back as the same tree. Together with the evaluator: a well-spelled input
 * that parses always evaluates to a value.
 */
module BooleanParserProperties {
  import opened Wrappers
  import opened Lexicon
  import opened BooleanAst
  import opened BooleanEval
  import opened BooleanEvalProperties
  import opened BooleanParser

  // ---------------------------------------------------------------------
  // Shapes and errors

  /** Unary operators are kept in the order they are written, and the
      primary starts at the first token after them. */
  lemma UnaryOpsInOrder(toks: seq<Token>, i: nat)
    requires i <= |toks|
    requires ParseUnaryAt(toks, i).Done?
    ensures var u := ParseUnaryAt(toks, i).node;
      && i + |u.ops| < |toks|
      && (forall k :: 0 <= k < |u.ops| ==> toks[i + k].kind == UnaryOpString && u.ops[k].op == toks[i + k].text)
      && toks[i + |u.ops|].kind != UnaryOpString
      && u.expr.Some? && u.expr.value.pos == toks[i + |u.ops|].pos
  {
  }

  /** Where no primary can start, the expression fails there expecting one. */
  lemma NoPrimaryAt(toks: seq<Token>, i: nat)
    requires i <= |toks|
    requires i == |toks| || (toks[i].kind != LitString && toks[i].kind != UnaryOpString && toks[i].kind != OpenParen)
    ensures ParseExprAt(toks, i) == Failed(ParseError(i, ExpectPrimary), i)
  {
    assert UnaryOpRun(toks, i) == 0;
    assert ParsePrimaryAt(toks, i) == Failed(ParseError(i, ExpectPrimary), i);
    assert ParseUnaryAt(toks, i) == Failed(ParseError(i, ExpectPrimary), i);
  }

  /** `n` unary operators then a literal make one unary expression. */
  lemma UnaryThenLit(toks: seq<Token>, i: nat, n: nat)
    requires i + n < |toks|
    requires forall k :: i <= k < i + n ==> toks[k].kind == UnaryOpString
    requires toks[i + n].kind == LitString
    ensures ParseUnaryAt(toks, i)
         == Done(UnaryExpr(toks[i].pos, OpsOf(toks, i, n), Some(PrimaryExpr(toks[i + n].pos, toks[i + n].text, None))), i + n + 1, None)
  {
    UnaryRunLength(toks, i, n);
    assert ParsePrimaryAt(toks, i + n) == Done(PrimaryExpr(toks[i + n].pos, toks[i + n].text, None), i + n + 1, None);
  }

  /** Tokens that are all unary operators never reach a primary: the parse
      fails at the end of input expecting one. */
  lemma LoneUnaryOps(toks: seq<Token>)
    requires forall k :: 0 <= k < |toks| ==> toks[k].kind == UnaryOpString
    ensures ParseExpr(toks) == Err(ParseError(|toks|, ExpectPrimary))
  {
    var n := UnaryOpRun(toks, 0);
    assert n == |toks|;
    assert ParseParenAt(toks, n) == Failed(ParseError(n, ExpectPrimary), n);
    assert ParsePrimaryAt(toks, n) == Failed(ParseError(n, ExpectPrimary), n);
    assert ParseUnaryAt(toks, 0) == Failed(ParseError(n, ExpectPrimary), n);
  }

  /** A first token that can start no primary fails at index 0. */
  lemma BadFirstToken(toks: seq<Token>)
    requires |toks| > 0 && toks[0].kind != LitString && toks[0].kind != UnaryOpString && toks[0].kind != OpenParen
    ensures ParseExpr(toks) == Err(ParseError(0, ExpectPrimary))
  {
    NoPrimaryAt(toks, 0);
  }

  /** `ops Lit Bin`: the rest is given up at the end of input, and that
      deeper error is the one reported. */
  lemma DanglingOperator(ops: seq<Token>, lit: Token, bin: Token)
    requires forall k :: 0 <= k < |ops| ==> ops[k].kind == UnaryOpString
    requires lit.kind == LitString && bin.kind == BinaryOpString
    ensures var toks := ops + [lit, bin];
      ParseExpr(toks) == Err(ParseError(|toks|, ExpectPrimary))
  {
    var toks := ops + [lit, bin];
    UnaryThenLit(toks, 0, |ops|);
    NoPrimaryAt(toks, |toks|);
    var r := ParseExprAt(toks, 0);
    assert r.Done? && r.next == |ops| + 1 && |toks| == |ops| + 2;
    assert r.abandoned == Some(ParseError(|toks|, ExpectPrimary));
  }

  /** `( ops Lit` with no closing parenthesis fails at the end of input
      expecting one. */
  lemma UnclosedParen(open: Token, ops: seq<Token>, lit: Token)
    requires open.kind == OpenParen && lit.kind == LitString
    requires forall k :: 0 <= k < |ops| ==> ops[k].kind == UnaryOpString
    ensures var toks := [open] + ops + [lit];
      ParseExpr(toks) == Err(ParseError(|toks|, ExpectCloseParen))
  {
    var toks := [open] + ops + [lit];
    UnaryThenLit(toks, 1, |ops|);
    assert ParseExprAt(toks, 1).Done? && ParseExprAt(toks, 1).next == |toks|;
    var e := ParseError(|toks|, ExpectCloseParen);
    assert ParseParenAt(toks, 0) == Failed(e, |toks|);
    assert UnaryOpRun(toks, 0) == 0;
    assert ParsePrimaryAt(toks, 0) == Failed(e, |toks|);
    assert ParseUnaryAt(toks, 0) == Failed(e, |toks|);
    assert ParseExprAt(toks, 0) == Failed(e, |toks|);
  }

  /** `( Lit Bin ( )`: the inner parenthesis fails right after its `(`, so
      the rest after the operator is given up, and the outer parenthesis
      then misses its `)` at the operator. */
  lemma GivenUpInsideParen(open1: Token, lit: Token, bin: Token, open2: Token, close: Token)
    requires open1.kind == OpenParen && lit.kind == LitString && bin.kind == BinaryOpString
    requires open2.kind == OpenParen && close.kind == CloseParen
    ensures ParseExpr([open1, lit, bin, open2, close]) == Err(ParseError(2, ExpectCloseParen))
  {
    var toks := [open1, lit, bin, open2, close];
    var inner := ParseError(4, ExpectPrimary);
    NoPrimaryAt(toks, 4);
    assert ParseParenAt(toks, 3) == Failed(inner, 4);
    assert UnaryOpRun(toks, 3) == 0;
    assert ParsePrimaryAt(toks, 3) == Failed(inner, 3);
    assert ParseUnaryAt(toks, 3) == Failed(inner, 3);
    assert ParseExprAt(toks, 3) == Failed(inner, 3);
    UnaryThenLit(toks, 1, 0);
    assert ParseExprAt(toks, 1).Done? && ParseExprAt(toks, 1).next == 2;
    var e := ParseError(2, ExpectCloseParen);
    assert ParseParenAt(toks, 0) == Failed(e, 2);
    assert UnaryOpRun(toks, 0) == 0;
    assert ParsePrimaryAt(toks, 0) == Failed(e, 2);
    assert ParseUnaryAt(toks, 0) == Failed(e, 2);
    assert ParseExprAt(toks, 0) == Failed(e, 2);
  }

  /** An expression that is one literal. */
  function Leaf(t: Token): Expr
  {
    Expr(t.pos, Some(UnaryExpr(t.pos, [], Some(PrimaryExpr(t.pos, t.text, None)))), None)
  }

  /** A literal, a binary operator and the expression to its right. */
  function Binary(t: Token, op: Token, sub: Expr): Expr
  {
    Expr(t.pos, Some(UnaryExpr(t.pos, [], Some(PrimaryExpr(t.pos, t.text, None)))), Some(ExprRest(op.pos, op.text, Some(sub))))
  }

  lemma LeafAt(toks: seq<Token>, i: nat)
    requires i < |toks| && toks[i].kind == LitString && EndsExpr(toks, i + 1)
    ensures ParseExprAt(toks, i) == Done(Leaf(toks[i]), i + 1, None)
  {
    UnaryThenLit(toks, i, 0);
    assert OpsOf(toks, i, 0) == [];
  }

  lemma BinaryAt(toks: seq<Token>, i: nat, sub: Expr, k: nat)
    requires i + 2 <= |toks| && toks[i].kind == LitString && toks[i + 1].kind == BinaryOpString
    requires ParseExprAt(toks, i + 2) == Done(sub, k, None)
    ensures ParseExprAt(toks, i) == Done(Binary(toks[i], toks[i + 1], sub), k, None)
  {
    UnaryThenLit(toks, i, 0);
    assert OpsOf(toks, i, 0) == [];
  }

  /** `Lit Bin Lit`: the operator's text is stored as written, with the
      second literal as the whole rest. */
  lemma BinaryOpKept(a: Token, bin: Token, b: Token)
    requires a.kind == LitString && bin.kind == BinaryOpString && b.kind == LitString
    ensures ParseExpr([a, bin, b]) == Ok(Binary(a, bin, Leaf(b)))
  {
    var toks := [a, bin, b];
    LeafAt(toks, 2);
    BinaryAt(toks, 0, Leaf(b), 3);
  }

  /** `a op1 b op2 c` nests to the right: the rest of op1 is the expression
      `b op2 c`, the shape the evaluator reads as `a op1 (b op2 c)`. */
  lemma RightNesting(a: Token, op1: Token, b: Token, op2: Token, c: Token)
    requires a.kind == LitString && b.kind == LitString && c.kind == LitString
    requires op1.kind == BinaryOpString && op2.kind == BinaryOpString
    ensures ParseExpr([a, op1, b, op2, c]) == Ok(Binary(a, op1, Binary(b, op2, Leaf(c))))
  {
    var toks := [a, op1, b, op2, c];
    LeafAt(toks, 4);
    BinaryAt(toks, 2, Leaf(c), 5);
    BinaryAt(toks, 0, Binary(b, op2, Leaf(c)), 5);
  }

  // ---------------------------------------------------------------------
  // Only the words matter

  /** Two parse outcomes that agree up to positions. */
  predicate SameOutcome<T(==)>(r1: Parsed<T>, r2: Parsed<T>, erase: T -> T)
  {
    match r1
    case Failed(e, c) => r2 == Failed(e, c)
    case Done(n, j, ab) => r2.Done? && r2.next == j && r2.abandoned == ab && erase(r2.node) == erase(n)
  }

  lemma {:induction false} SameWordsRun(t1: seq<Token>, t2: seq<Token>, i: nat)
    requires SameWords(t1, t2) && i <= |t1|
    ensures UnaryOpRun(t1, i) == UnaryOpRun(t2, i)
    decreases |t1| - i
  {
    if i < |t1| && t1[i].kind == UnaryOpString {
      SameWordsRun(t1, t2, i + 1);
    }
  }

  /** Inputs with the same words, however they are spaced, parse to the same
      tree up to positions, or fail with the same error. */
  lemma {:induction false} SameWordsExpr(t1: seq<Token>, t2: seq<Token>, i: nat)
    requires SameWords(t1, t2) && i <= |t1|
    ensures SameOutcome(ParseExprAt(t1, i), ParseExprAt(t2, i), EraseExpr)
    decreases |t1| - i, 3
  {
    SameWordsUnary(t1, t2, i);
    var r := ParseUnaryAt(t1, i);
    if r.Done? && r.next < |t1| && t1[r.next].kind == BinaryOpString {
      SameWordsExpr(t1, t2, r.next + 1);
    }
    SameWordsExprStep(t1, t2, i);
  }

  /** One expression step: the same unary expression, and the same rest
      after a binary operator, give the same expression. */
  lemma SameWordsExprStep(t1: seq<Token>, t2: seq<Token>, i: nat)
    requires SameWords(t1, t2) && i <= |t1|
    requires SameOutcome(ParseUnaryAt(t1, i), ParseUnaryAt(t2, i), EraseUnary)
    requires var r := ParseUnaryAt(t1, i);
      r.Done? && r.next < |t1| && t1[r.next].kind == BinaryOpString ==>
        SameOutcome(ParseExprAt(t1, r.next + 1), ParseExprAt(t2, r.next + 1), EraseExpr)
    ensures SameOutcome(ParseExprAt(t1, i), ParseExprAt(t2, i), EraseExpr)
  {
    match ParseUnaryAt(t1, i)
    case Failed(_, _) =>
    case Done(u1, j, ab) =>
      var u2 := SameWordsDone(ParseUnaryAt(t1, i), ParseUnaryAt(t2, i), EraseUnary);
      if j < |t1| && t1[j].kind == BinaryOpString {
        assert t2[j].kind == BinaryOpString && t2[j].text == t1[j].text;
        SameWordsRest(t1, t2, i, u1, u2, j, ab);
      } else {
        ExprAloneAt(t1, i, u1, j, ab);
        ExprAloneAt(t2, i, u2, j, ab);
      }
  }

  /** The rest after the binary operator at `j`, under the same words. */
  lemma SameWordsRest(t1: seq<Token>, t2: seq<Token>, i: nat, u1: UnaryExpr, u2: UnaryExpr, j: nat, ab: Option<ParseError>)
    requires SameWords(t1, t2) && i <= |t1|
    requires ParseUnaryAt(t1, i) == Done(u1, j, ab) && ParseUnaryAt(t2, i) == Done(u2, j, ab)
    requires EraseUnary(u2) == EraseUnary(u1)
    requires j < |t1| && t1[j].kind == BinaryOpString && t2[j].kind == BinaryOpString && t2[j].text == t1[j].text
    requires SameOutcome(ParseExprAt(t1, j + 1), ParseExprAt(t2, j + 1), EraseExpr)
    ensures SameOutcome(ParseExprAt(t1, i), ParseExprAt(t2, i), EraseExpr)
  {
    match ParseExprAt(t1, j + 1)
    case Failed(e, c) =>
      ExprRestFailedAt(t1, i, u1, j, ab, e, c);
      ExprRestFailedAt(t2, i, u2, j, ab, e, c);
    case Done(s1, k, ab2) =>
      var s2 := SameWordsDone(ParseExprAt(t1, j + 1), ParseExprAt(t2, j + 1), EraseExpr);
      ExprRestDoneAt(t1, i, u1, j, ab, s1, k, ab2);
      ExprRestDoneAt(t2, i, u2, j, ab, s2, k, ab2);
  }

  /** The second result of a same-outcome pair of completed parses, by value. */
  lemma SameWordsDone<T>(r1: Parsed<T>, r2: Parsed<T>, erase: T -> T) returns (n2: T)
    requires SameOutcome(r1, r2, erase) && r1.Done?
    ensures r2 == Done(n2, r1.next, r1.abandoned) && erase(n2) == erase(r1.node)
  {
    n2 := r2.node;
  }

  /** An expression whose unary is not followed by a binary operator, by value. */
  lemma ExprAloneAt(toks: seq<Token>, i: nat, u: UnaryExpr, j: nat, ab: Option<ParseError>)
    requires i <= |toks| && ParseUnaryAt(toks, i) == Done(u, j, ab)
    requires !(j < |toks| && toks[j].kind == BinaryOpString)
    ensures ParseExprAt(toks, i) == Done(Expr(toks[i].pos, Some(u), None), j, ab)
  {
  }

  /** An expression whose rest after the binary operator at `j` parsed, by value. */
  lemma ExprRestDoneAt(toks: seq<Token>, i: nat, u: UnaryExpr, j: nat, ab: Option<ParseError>, x: Expr, k: nat, ab2: Option<ParseError>)
    requires i <= |toks| && ParseUnaryAt(toks, i) == Done(u, j, ab)
    requires j < |toks| && toks[j].kind == BinaryOpString && ParseExprAt(toks, j + 1) == Done(x, k, ab2)
    ensures ParseExprAt(toks, i)
         == Done(Expr(toks[i].pos, Some(u), Some(ExprRest(toks[j].pos, toks[j].text, Some(x)))), k, Deeper(ab, ab2))
  {
  }

  /** An expression whose rest after the binary operator at `j` failed, by
      value: given up when the failure committed no further than `j + 1`. */
  lemma ExprRestFailedAt(toks: seq<Token>, i: nat, u: UnaryExpr, j: nat, ab: Option<ParseError>, e: ParseError, c: nat)
    requires i <= |toks| && ParseUnaryAt(toks, i) == Done(u, j, ab)
    requires j < |toks| && toks[j].kind == BinaryOpString && ParseExprAt(toks, j + 1) == Failed(e, c)
    ensures ParseExprAt(toks, i)
         == if c <= j + 1 then Done(Expr(toks[i].pos, Some(u), None), j, Deeper(ab, Some(e))) else Failed(e, c)
  {
  }

  lemma {:induction false} SameWordsUnary(t1: seq<Token>, t2: seq<Token>, i: nat)
    requires SameWords(t1, t2) && i <= |t1|
    ensures SameOutcome(ParseUnaryAt(t1, i), ParseUnaryAt(t2, i), EraseUnary)
    decreases |t1| - i, 2
  {
    SameWordsRun(t1, t2, i);
    var n := UnaryOpRun(t1, i);
    SameWordsPrimary(t1, t2, i + n);
    assert EraseOps(OpsOf(t1, i, n)) == EraseOps(OpsOf(t2, i, n));
  }

  lemma {:induction false} SameWordsPrimary(t1: seq<Token>, t2: seq<Token>, i: nat)
    requires SameWords(t1, t2) && i <= |t1|
    ensures SameOutcome(ParsePrimaryAt(t1, i), ParsePrimaryAt(t2, i), ErasePrimary)
    decreases |t1| - i, 1
  {
    if !(i < |t1| && t1[i].kind == LitString) {
      SameWordsParen(t1, t2, i);
    }
  }

  lemma {:induction false} SameWordsParen(t1: seq<Token>, t2: seq<Token>, i: nat)
    requires SameWords(t1, t2) && i <= |t1|
    ensures SameOutcome(ParseParenAt(t1, i), ParseParenAt(t2, i), EraseParen)
    decreases |t1| - i, 0
  {
    if i < |t1| && t1[i].kind == OpenParen {
      SameWordsExpr(t1, t2, i + 1);
    }
  }

  /** The expression parser sees only the words of its input: the same
      error, or the same tree up to positions. */
  lemma WhitespaceInvariance(t1: seq<Token>, t2: seq<Token>)
    requires SameWords(t1, t2)
    ensures ParseExpr(t1).Err? <==> ParseExpr(t2).Err?
    ensures ParseExpr(t1).Err? ==> ParseExpr(t1) == ParseExpr(t2)
    ensures ParseExpr(t1).Ok? ==> EraseExpr(ParseExpr(t1).value) == EraseExpr(ParseExpr(t2).value)
  {
    SameWordsExpr(t1, t2, 0);
  }

  // ---------------------------------------------------------------------
  // Writing a tree out and reading it back

  function Word(kind: TokenKind, text: string): Token
  {
    Token(kind, text, NoPosition)
  }

  /** The tokens of a tree, in order, without positions. */
  function Render(e: Expr): seq<Token>
    decreases e, 3
  {
    (match e.unary case None => [] case Some(u) => RenderUnary(u))
    + (match e.rest
       case None => []
       case Some(r) => [Word(BinaryOpString, r.op)] + (match r.expr case None => [] case Some(x) => Render(x)))
  }

  function RenderUnary(u: UnaryExpr): seq<Token>
    decreases u, 2
  {
    RenderOps(u.ops) + (match u.expr case None => [] case Some(p) => RenderPrimary(p))
  }

  function RenderOps(ops: seq<UnaryOp>): (toks: seq<Token>)
    ensures |toks| == |ops|
    ensures forall k :: 0 <= k < |ops| ==> toks[k] == Word(UnaryOpString, ops[k].op)
  {
    seq(|ops|, k requires 0 <= k < |ops| => Word(UnaryOpString, ops[k].op))
  }

  function RenderPrimary(p: PrimaryExpr): seq<Token>
    decreases p, 1
  {
    match p.paren
    case None => [Word(LitString, p.lit)]
    case Some(q) =>
      [Word(OpenParen, "(")] + (match q.expr case None => [] case Some(x) => Render(x)) + [Word(CloseParen, ")")]
  }

  /** `r` is found in `toks` starting at index `i`. */
  predicate Occurs(toks: seq<Token>, i: nat, r: seq<Token>)
  {
    i + |r| <= |toks| && forall m :: 0 <= m < |r| ==> toks[i + m] == r[m]
  }

  lemma OccursSplit(toks: seq<Token>, i: nat, a: seq<Token>, b: seq<Token>)
    requires Occurs(toks, i, a + b)
    ensures Occurs(toks, i, a) && Occurs(toks, i + |a|, b)
  {
    forall m | 0 <= m < |a| ensures toks[i + m] == a[m] {
      assert (a + b)[m] == a[m];
    }
    forall m | 0 <= m < |b| ensures toks[i + |a| + m] == b[m] {
      assert (a + b)[|a| + m] == b[m];
    }
  }

  /** Tokens `a`, then the token `t`, then tokens `b`. */
  lemma OccursAround(toks: seq<Token>, i: nat, a: seq<Token>, t: Token, b: seq<Token>)
    requires Occurs(toks, i, a + [t] + b)
    ensures Occurs(toks, i, a) && i + |a| < |toks| && toks[i + |a|] == t && Occurs(toks, i + |a| + 1, b)
  {
    OccursSplit(toks, i, a + [t], b);
    OccursSplit(toks, i, a, [t]);
    assert toks[i + |a| + 0] == [t][0];
  }

  /** The token `s`, then tokens `b`, then the token `t`. */
  lemma OccursBetween(toks: seq<Token>, i: nat, s: Token, b: seq<Token>, t: Token)
    requires Occurs(toks, i, [s] + b + [t])
    ensures i + |b| + 1 < |toks| && toks[i] == s && Occurs(toks, i + 1, b) && toks[i + |b| + 1] == t
  {
    var r := [s] + b + [t];
    assert toks[i + 0] == r[0];
    assert toks[i + (|b| + 1)] == r[|b| + 1];
    forall m | 0 <= m < |b| ensures toks[i + 1 + m] == b[m] {
      assert toks[i + (1 + m)] == r[1 + m];
    }
  }

  /** A primary or an expression never starts with a binary operator or a
      closing parenthesis, so what follows a rendered tree decides nothing
      inside it. */
  predicate EndsExpr(toks: seq<Token>, k: nat)
  {
    k == |toks| || (k < |toks| && toks[k].kind != BinaryOpString)
  }

  // One parsing step at a time, with the parts it consumes given.

  /** An expression whose unary is not followed by a binary operator. */
  lemma ExprWithoutRest(toks: seq<Token>, i: nat, u: UnaryExpr, j: nat)
    requires i <= |toks| && ParseUnaryAt(toks, i) == Done(u, j, None) && EndsExpr(toks, j)
    ensures ParseExprAt(toks, i) == Done(Expr(toks[i].pos, Some(u), None), j, None)
  {
  }

  /** An expression whose unary is followed by a binary operator and a
      complete expression. */
  lemma ExprWithRest(toks: seq<Token>, i: nat, u: UnaryExpr, j: nat, sub: Expr, k: nat)
    requires i <= |toks| && ParseUnaryAt(toks, i) == Done(u, j, None)
    requires j < |toks| && toks[j].kind == BinaryOpString
    requires ParseExprAt(toks, j + 1) == Done(sub, k, None)
    ensures ParseExprAt(toks, i) == Done(Expr(toks[i].pos, Some(u), Some(ExprRest(toks[j].pos, toks[j].text, Some(sub)))), k, None)
  {
  }

  /** A unary expression: `n` operators and then a primary. */
  lemma UnaryWith(toks: seq<Token>, i: nat, n: nat, p: PrimaryExpr, k: nat)
    requires i + n <= |toks| && UnaryOpRun(toks, i) == n
    requires ParsePrimaryAt(toks, i + n) == Done(p, k, None)
    ensures ParseUnaryAt(toks, i) == Done(UnaryExpr(toks[i].pos, OpsOf(toks, i, n), Some(p)), k, None)
  {
  }

  /** A parenthesised primary whose inner expression is closed. */
  lemma ParenWith(toks: seq<Token>, i: nat, x: Expr, j: nat)
    requires i < |toks| && toks[i].kind == OpenParen
    requires ParseExprAt(toks, i + 1) == Done(x, j, None)
    requires j < |toks| && toks[j].kind == CloseParen
    ensures ParsePrimaryAt(toks, i) == Done(PrimaryExpr(toks[i].pos, "", Some(ParenExpr(toks[i].pos, Some(x)))), j + 1, None)
  {
  }

  // What one node renders and erases to.

  lemma UnaryOnlyParts(e: Expr, u: UnaryExpr)
    requires e.unary == Some(u) && e.rest.None?
    ensures Render(e) == RenderUnary(u)
    ensures EraseExpr(e) == Expr(NoPosition, Some(EraseUnary(u)), None)
    ensures WellFormedExpr(e) ==> WellFormedUnary(u)
  {
    assert Render(e) == RenderUnary(u) + [];
  }

  lemma BinaryParts(e: Expr, u: UnaryExpr, op: string, x: Expr)
    requires e.unary == Some(u) && e.rest.Some? && e.rest.value.op == op && e.rest.value.expr == Some(x)
    ensures Render(e) == RenderUnary(u) + [Word(BinaryOpString, op)] + Render(x)
    ensures EraseExpr(e) == Expr(NoPosition, Some(EraseUnary(u)), Some(ExprRest(NoPosition, op, Some(EraseExpr(x)))))
    ensures WellFormedExpr(e) ==> WellFormedUnary(u) && WellFormedExpr(x)
  {
  }

  lemma UnaryParts(u: UnaryExpr, p: PrimaryExpr)
    requires u.expr == Some(p)
    ensures RenderUnary(u) == RenderOps(u.ops) + RenderPrimary(p)
    ensures EraseUnary(u) == UnaryExpr(NoPosition, EraseOps(u.ops), Some(ErasePrimary(p)))
    ensures WellFormedUnary(u) ==> WellFormedPrimary(p)
  {
  }

  lemma ParenParts(p: PrimaryExpr, x: Expr)
    requires p.paren.Some? && p.paren.value.expr == Some(x)
    ensures RenderPrimary(p) == [Word(OpenParen, "(")] + Render(x) + [Word(CloseParen, ")")]
    ensures ErasePrimary(p) == PrimaryExpr(NoPosition, p.lit, Some(ParenExpr(NoPosition, Some(EraseExpr(x)))))
    ensures WellFormedPrimary(p) ==> p.lit == "" && WellFormedExpr(x)
  {
  }

  /** The rendered operators are unary-operator tokens that read back as the
      operators, up to positions. */
  lemma OpsTokens(toks: seq<Token>, i: nat, ops: seq<UnaryOp>)
    requires Occurs(toks, i, RenderOps(ops))
    ensures OpsOf(toks, i, |ops|) == EraseOps(ops)
    ensures |ops| > 0 ==> toks[i].pos == NoPosition
  {
    forall m | i <= m < i + |ops| ensures toks[m] == Word(UnaryOpString, ops[m - i].op) {
      assert toks[i + (m - i)] == RenderOps(ops)[m - i];
    }
  }

  /** A rendered primary starts with a literal or an opening parenthesis. */
  lemma RenderPrimaryStart(p: PrimaryExpr, toks: seq<Token>, i: nat)
    requires Occurs(toks, i, RenderPrimary(p))
    ensures i < |toks| && toks[i].pos == NoPosition
    ensures toks[i].kind == LitString || toks[i].kind == OpenParen
    ensures p.paren.None? ==> toks[i] == Word(LitString, p.lit)
  {
    assert toks[i + 0] == RenderPrimary(p)[0];
  }

  /** The run of unary operators from `i` is exactly `n` long when the `n`
      tokens from `i` are unary operators and the next one is not. */
  lemma {:induction false} UnaryRunLength(toks: seq<Token>, i: nat, n: nat)
    requires i + n < |toks|
    requires forall k :: i <= k < i + n ==> toks[k].kind == UnaryOpString
    requires toks[i + n].kind != UnaryOpString
    ensures UnaryOpRun(toks, i) == n
    decreases n
  {
    if n > 0 {
      UnaryRunLength(toks, i + 1, n - 1);
    }
  }

  // Reading a rendered tree back.

  lemma {:induction false} RenderParsesExpr(e: Expr, toks: seq<Token>, i: nat, k: nat)
    requires WellFormedExpr(e) && Occurs(toks, i, Render(e))
    requires k == i + |Render(e)| && EndsExpr(toks, k)
    ensures ParseExprAt(toks, i) == Done(EraseExpr(e), k, None)
    decreases e, 3
  {
    var u := e.unary.value;
    if e.rest.None? {
      UnaryOnlyParts(e, u);
      RenderParsesUnary(u, toks, i, k);
      ExprWithoutRest(toks, i, EraseUnary(u), k);
    } else {
      RenderParsesBinary(e, u, e.rest.value.op, e.rest.value.expr.value, toks, i, k);
    }
  }

  lemma {:induction false} RenderParsesBinary(e: Expr, u: UnaryExpr, op: string, x: Expr, toks: seq<Token>, i: nat, k: nat)
    requires e.unary == Some(u) && e.rest.Some? && e.rest.value.op == op && e.rest.value.expr == Some(x)
    requires WellFormedExpr(e) && Occurs(toks, i, Render(e)) && k == i + |Render(e)| && EndsExpr(toks, k)
    ensures ParseExprAt(toks, i) == Done(EraseExpr(e), k, None)
    decreases e, 2
  {
    BinaryParts(e, u, op, x);
    var j := i + |RenderUnary(u)|;
    OccursAround(toks, i, RenderUnary(u), Word(BinaryOpString, op), Render(x));
    RenderParsesUnary(u, toks, i, j);
    RenderParsesExpr(x, toks, j + 1, k);
    ExprWithRest(toks, i, EraseUnary(u), j, EraseExpr(x), k);
  }

  lemma {:induction false} RenderParsesUnary(u: UnaryExpr, toks: seq<Token>, i: nat, k: nat)
    requires WellFormedUnary(u) && Occurs(toks, i, RenderUnary(u)) && k == i + |RenderUnary(u)|
    ensures i < |toks| && toks[i].pos == NoPosition
    ensures ParseUnaryAt(toks, i) == Done(EraseUnary(u), k, None)
    decreases u, 3
  {
    var p := u.expr.value;
    UnaryParts(u, p);
    RenderParsesOps(u.ops, p, toks, i, k);
  }

  /** Rendered operators and a rendered primary read back as a unary expression. */
  lemma {:induction false} RenderParsesOps(ops: seq<UnaryOp>, p: PrimaryExpr, toks: seq<Token>, i: nat, k: nat)
    requires WellFormedPrimary(p) && Occurs(toks, i, RenderOps(ops) + RenderPrimary(p))
    requires k == i + |ops| + |RenderPrimary(p)|
    ensures i < |toks| && toks[i].pos == NoPosition
    ensures ParseUnaryAt(toks, i) == Done(UnaryExpr(NoPosition, EraseOps(ops), Some(ErasePrimary(p))), k, None)
    decreases p, 2
  {
    UnaryTokens(ops, p, toks, i);
    RenderParsesPrimary(p, toks, i + |ops|, k);
    UnaryWith(toks, i, |ops|, ErasePrimary(p), k);
  }

  /** Where the operators and the primary of a rendered unary expression
      sit, and how the operators read back. */
  lemma UnaryTokens(ops: seq<UnaryOp>, p: PrimaryExpr, toks: seq<Token>, i: nat)
    requires Occurs(toks, i, RenderOps(ops) + RenderPrimary(p))
    ensures i + |ops| <= |toks| && Occurs(toks, i + |ops|, RenderPrimary(p))
    ensures UnaryOpRun(toks, i) == |ops|
    ensures i < |toks| && toks[i].pos == NoPosition
    ensures OpsOf(toks, i, |ops|) == EraseOps(ops)
  {
    OccursSplit(toks, i, RenderOps(ops), RenderPrimary(p));
    OpsRead(ops, p, toks, i);
  }

  /** Operator tokens followed by a rendered primary: the run of operators
      ends at the primary, and reads back as the operators. */
  lemma OpsRead(ops: seq<UnaryOp>, p: PrimaryExpr, toks: seq<Token>, i: nat)
    requires Occurs(toks, i, RenderOps(ops)) && Occurs(toks, i + |ops|, RenderPrimary(p))
    ensures UnaryOpRun(toks, i) == |ops|
    ensures i < |toks| && toks[i].pos == NoPosition
    ensures OpsOf(toks, i, |ops|) == EraseOps(ops)
  {
    OpsTokens(toks, i, ops);
    RenderPrimaryStart(p, toks, i + |ops|);
    OpsRun(toks, i, ops);
  }

  /** The run of unary operators from `i` covers the rendered operators
      when a token of another kind follows them. */
  lemma {:induction false} OpsRun(toks: seq<Token>, i: nat, ops: seq<UnaryOp>)
    requires Occurs(toks, i, RenderOps(ops))
    requires i + |ops| < |toks| && toks[i + |ops|].kind != UnaryOpString
    ensures UnaryOpRun(toks, i) == |ops|
    decreases |ops|
  {
    if |ops| > 0 {
      assert toks[i + 0] == RenderOps(ops)[0];
      forall m | 0 <= m < |ops| - 1 ensures toks[i + 1 + m] == RenderOps(ops[1..])[m] {
        assert toks[i + (1 + m)] == RenderOps(ops)[1 + m];
      }
      OpsRun(toks, i + 1, ops[1..]);
    }
  }

  lemma {:induction false} RenderParsesPrimary(p: PrimaryExpr, toks: seq<Token>, i: nat, k: nat)
    requires WellFormedPrimary(p) && Occurs(toks, i, RenderPrimary(p)) && k == i + |RenderPrimary(p)|
    ensures ParsePrimaryAt(toks, i) == Done(ErasePrimary(p), k, None)
    decreases p, 1
  {
    if p.paren.None? {
      RenderPrimaryStart(p, toks, i);
    } else {
      var x := p.paren.value.expr.value;
      ParenTokens(p, x, toks, i, k);
      RenderParsesExpr(x, toks, i + 1, k - 1);
      ParenWith(toks, i, EraseExpr(x), k - 1);
    }
  }

  /** Where the parentheses and the inner expression of a rendered primary sit. */
  lemma ParenTokens(p: PrimaryExpr, x: Expr, toks: seq<Token>, i: nat, k: nat)
    requires p.paren.Some? && p.paren.value.expr == Some(x)
    requires WellFormedPrimary(p) && Occurs(toks, i, RenderPrimary(p)) && k == i + |RenderPrimary(p)|
    ensures WellFormedExpr(x)
    ensures i + 1 < k <= |toks| && Occurs(toks, i + 1, Render(x)) && k - 1 == i + 1 + |Render(x)|
    ensures toks[i].kind == OpenParen && toks[k - 1].kind == CloseParen && EndsExpr(toks, k - 1)
    ensures ErasePrimary(p) == PrimaryExpr(toks[i].pos, "", Some(ParenExpr(toks[i].pos, Some(EraseExpr(x)))))
  {
    ParenParts(p, x);
    OccursBetween(toks, i, Word(OpenParen, "("), Render(x), Word(CloseParen, ")"));
  }

  /** Reading back a well-formed tree written out as tokens gives the tree,
      up to positions. */
  lemma RenderRoundTrip(e: Expr)
    requires WellFormedExpr(e)
    ensures ParseExpr(Render(e)) == Ok(EraseExpr(e))
  {
    var toks := Render(e);
    RenderParsesExpr(e, toks, 0, |toks|);
  }

  // ---------------------------------------------------------------------
  // Reading an accepted input back from its tree

  /** A token the tree writes out in place of an input token: the same
      class, and the same text except for a parenthesis. */
  predicate SameWord(t: Token, w: Token)
  {
    t.kind == w.kind && (t.kind != OpenParen && t.kind != CloseParen ==> t.text == w.text)
  }

  /** `r` matches `toks` from index `i`, word for word. */
  predicate Matches(toks: seq<Token>, i: nat, r: seq<Token>)
  {
    i + |r| <= |toks| && forall m :: 0 <= m < |r| ==> SameWord(toks[i + m], r[m])
  }

  lemma MatchesCat(toks: seq<Token>, i: nat, a: seq<Token>, b: seq<Token>)
    requires Matches(toks, i, a) && Matches(toks, i + |a|, b)
    ensures Matches(toks, i, a + b)
  {
    forall m | 0 <= m < |a + b| ensures SameWord(toks[i + m], (a + b)[m]) {
      if m >= |a| {
        assert toks[i + m] == toks[i + |a| + (m - |a|)];
      }
    }
  }

  /** The words a parsed expression accounts for: written out, the tree
      matches the tokens it was parsed from, one for one. */
  predicate RendersInput(toks: seq<Token>, i: nat, k: nat, words: seq<Token>)
  {
    i + |words| == k && Matches(toks, i, words)
  }

  lemma {:induction false} ExprRendered(toks: seq<Token>, i: nat)
    requires i <= |toks|
    ensures var r := ParseExprAt(toks, i);
      r.Done? ==> RendersInput(toks, i, r.next, Render(r.node))
    decreases |toks| - i, 3
  {
    UnaryRendered(toks, i);
    var r := ParseUnaryAt(toks, i);
    if r.Failed? {
    } else if r.next < |toks| && toks[r.next].kind == BinaryOpString {
      ExprRendered(toks, r.next + 1);
      ExprRenderedRest(toks, i);
    } else {
      ExprRenderedAlone(toks, i);
    }
  }

  /** An expression without a rest accounts for the tokens of its unary. */
  lemma ExprRenderedAlone(toks: seq<Token>, i: nat)
    requires i <= |toks|
    requires var r := ParseUnaryAt(toks, i); r.Done? && RendersInput(toks, i, r.next, RenderUnary(r.node))
    requires var j := ParseUnaryAt(toks, i).next; !(j < |toks| && toks[j].kind == BinaryOpString)
    ensures var r := ParseExprAt(toks, i);
      r.Done? && RendersInput(toks, i, r.next, Render(r.node))
  {
    UnaryOnlyParts(ParseExprAt(toks, i).node, ParseUnaryAt(toks, i).node);
  }

  /** After a binary operator, the expression accounts for its tokens
      whether the rest is kept or given up. */
  lemma ExprRenderedRest(toks: seq<Token>, i: nat)
    requires i <= |toks|
    requires var r := ParseUnaryAt(toks, i); r.Done? && RendersInput(toks, i, r.next, RenderUnary(r.node))
    requires var j := ParseUnaryAt(toks, i).next;
      && j < |toks| && toks[j].kind == BinaryOpString
      && var x := ParseExprAt(toks, j + 1);
         x.Done? ==> RendersInput(toks, j + 1, x.next, Render(x.node))
    ensures var r := ParseExprAt(toks, i);
      r.Done? ==> RendersInput(toks, i, r.next, Render(r.node))
  {
    if ParseExprAt(toks, ParseUnaryAt(toks, i).next + 1).Done? {
      ExprRenderedBinary(toks, i);
    } else {
      ExprRenderedGivenUp(toks, i);
    }
  }

  /** A rest given up leaves the unary expression alone. */
  lemma ExprRenderedGivenUp(toks: seq<Token>, i: nat)
    requires i <= |toks|
    requires var r := ParseUnaryAt(toks, i); r.Done? && RendersInput(toks, i, r.next, RenderUnary(r.node))
    requires var j := ParseUnaryAt(toks, i).next;
      j < |toks| && toks[j].kind == BinaryOpString && ParseExprAt(toks, j + 1).Failed?
    ensures var r := ParseExprAt(toks, i);
      r.Done? ==> RendersInput(toks, i, r.next, Render(r.node))
  {
    if ParseExprAt(toks, i).Done? {
      UnaryOnlyParts(ParseExprAt(toks, i).node, ParseUnaryAt(toks, i).node);
    }
  }

  /** A unary expression, a binary operator and a complete expression account
      for their tokens one after the other. */
  lemma ExprRenderedBinary(toks: seq<Token>, i: nat)
    requires i <= |toks|
    requires var r := ParseUnaryAt(toks, i); r.Done? && RendersInput(toks, i, r.next, RenderUnary(r.node))
    requires var j := ParseUnaryAt(toks, i).next;
      && j < |toks| && toks[j].kind == BinaryOpString
      && var x := ParseExprAt(toks, j + 1);
         x.Done? && RendersInput(toks, j + 1, x.next, Render(x.node))
    ensures var r := ParseExprAt(toks, i);
      r.Done? && RendersInput(toks, i, r.next, Render(r.node))
  {
    var j := ParseUnaryAt(toks, i).next;
    ExprRestShape(toks, i);
    BinaryWords(toks, i, ParseUnaryAt(toks, i).node, j, ParseExprAt(toks, j + 1).node, ParseExprAt(toks, j + 1).next,
                toks[i].pos, toks[j].pos);
  }

  /** The node an expression builds when the rest after its operator is complete. */
  lemma ExprRestShape(toks: seq<Token>, i: nat)
    requires i <= |toks| && ParseUnaryAt(toks, i).Done?
    requires var j := ParseUnaryAt(toks, i).next;
      j < |toks| && toks[j].kind == BinaryOpString && ParseExprAt(toks, j + 1).Done?
    ensures var u := ParseUnaryAt(toks, i); var j := u.next; var x := ParseExprAt(toks, j + 1);
      var r := ParseExprAt(toks, i);
      && r.Done? && r.next == x.next && r.abandoned == Deeper(u.abandoned, x.abandoned)
      && r.node == Expr(toks[i].pos, Some(u.node), Some(ExprRest(toks[j].pos, toks[j].text, Some(x.node))))
  {
  }

  /** The node an expression builds when no binary operator follows its unary. */
  lemma ExprAloneShape(toks: seq<Token>, i: nat)
    requires i <= |toks| && ParseUnaryAt(toks, i).Done?
    requires var j := ParseUnaryAt(toks, i).next; !(j < |toks| && toks[j].kind == BinaryOpString)
    ensures var u := ParseUnaryAt(toks, i);
      ParseExprAt(toks, i) == Done(Expr(toks[i].pos, Some(u.node), None), u.next, u.abandoned)
  {
  }

  /** The words of a unary expression, an operator token and an expression,
      laid end to end over the tokens, are the words of the binary expression. */
  lemma BinaryWords(toks: seq<Token>, i: nat, u: UnaryExpr, j: nat, x: Expr, k: nat, p: Position, q: Position)
    requires RendersInput(toks, i, j, RenderUnary(u))
    requires j < |toks| && toks[j].kind == BinaryOpString
    requires RendersInput(toks, j + 1, k, Render(x))
    ensures RendersInput(toks, i, k, Render(Expr(p, Some(u), Some(ExprRest(q, toks[j].text, Some(x))))))
  {
    var e := Expr(p, Some(u), Some(ExprRest(q, toks[j].text, Some(x))));
    BinaryParts(e, u, toks[j].text, x);
    assert Matches(toks, j, [Word(BinaryOpString, toks[j].text)]);
    MatchesCat(toks, i, RenderUnary(u), [Word(BinaryOpString, toks[j].text)]);
    MatchesCat(toks, i, RenderUnary(u) + [Word(BinaryOpString, toks[j].text)], Render(x));
  }

  lemma {:induction false} UnaryRendered(toks: seq<Token>, i: nat)
    requires i <= |toks|
    ensures var r := ParseUnaryAt(toks, i);
      r.Done? ==> RendersInput(toks, i, r.next, RenderUnary(r.node))
    decreases |toks| - i, 2
  {
    var n := UnaryOpRun(toks, i);
    PrimaryRendered(toks, i + n);
    var r := ParseUnaryAt(toks, i);
    if r.Done? {
      var p := r.node.expr.value;
      UnaryParts(r.node, p);
      assert Matches(toks, i, RenderOps(r.node.ops)) by {
        forall m | 0 <= m < n ensures SameWord(toks[i + m], RenderOps(r.node.ops)[m]) {
          assert r.node.ops[m] == UnaryOp(toks[i + m].pos, toks[i + m].text);
        }
      }
      MatchesCat(toks, i, RenderOps(r.node.ops), RenderPrimary(p));
    }
  }

  lemma {:induction false} PrimaryRendered(toks: seq<Token>, i: nat)
    requires i <= |toks|
    ensures var r := ParsePrimaryAt(toks, i);
      r.Done? ==> RendersInput(toks, i, r.next, RenderPrimary(r.node))
    decreases |toks| - i, 1
  {
    if i < |toks| && toks[i].kind == LitString {
      assert toks[i + 0] == toks[i];
    } else {
      ParenRendered(toks, i);
      var r := ParsePrimaryAt(toks, i);
      if r.Done? {
        var x := r.node.paren.value.expr.value;
        ParenParts(r.node, x);
        var k := r.next - 1;
        assert Matches(toks, i, [Word(OpenParen, "(")]) && Matches(toks, k, [Word(CloseParen, ")")]);
        MatchesCat(toks, i, [Word(OpenParen, "(")], Render(x));
        MatchesCat(toks, i, [Word(OpenParen, "(")] + Render(x), [Word(CloseParen, ")")]);
      }
    }
  }

  lemma {:induction false} ParenRendered(toks: seq<Token>, i: nat)
    requires i <= |toks|
    ensures var r := ParseParenAt(toks, i);
      r.Done? ==> && i < |toks| && toks[i].kind == OpenParen
                  && toks[r.next - 1].kind == CloseParen && r.node.expr.Some?
                  && RendersInput(toks, i + 1, r.next - 1, Render(r.node.expr.value))
    decreases |toks| - i, 0
  {
    if i < |toks| && toks[i].kind == OpenParen {
      ExprRendered(toks, i + 1);
    }
  }

  /** The tree of an accepted input accounts for every token: written out
      again, it has the input's words, in order, and no others. */
  lemma ParsedRendersInput(toks: seq<Token>)
    requires ParseExpr(toks).Ok?
    ensures |Render(ParseExpr(toks).value)| == |toks|
    ensures Matches(toks, 0, Render(ParseExpr(toks).value))
  {
    ExprRendered(toks, 0);
  }

  // ---------------------------------------------------------------------
  // What follows a complete expression

  /** Two streams that hold the same tokens below index `m`. */
  predicate Agree(t1: seq<Token>, t2: seq<Token>, m: nat)
  {
    m <= |t1| && m <= |t2| && forall k {:trigger t1[k], t2[k]} :: 0 <= k < m ==> t1[k] == t2[k]
  }

  lemma {:induction false} PrefixRun(t1: seq<Token>, t2: seq<Token>, i: nat, m: nat)
    requires i <= |t1| && Agree(t1, t2, m) && i + UnaryOpRun(t1, i) < m
    ensures UnaryOpRun(t2, i) == UnaryOpRun(t1, i)
    decreases |t1| - i
  {
    assert t2[i] == t1[i];
    if t1[i].kind == UnaryOpString {
      PrefixRun(t1, t2, i + 1, m);
    }
  }

  /** A complete expression reads the same whatever follows it, so long as
      no binary operator follows it: nothing after it is looked at, and no
      optional part was given up on the way. */
  lemma {:induction false} PrefixExpr(t1: seq<Token>, t2: seq<Token>, i: nat, e: Expr, m: nat, ab: Option<ParseError>)
    requires i <= |t1| && ParseExprAt(t1, i) == Done(e, m, ab)
    requires Agree(t1, t2, m) && EndsExpr(t1, m) && EndsExpr(t2, m)
    ensures ab.None? && ParseExprAt(t2, i) == Done(e, m, None)
    decreases |t1| - i, 4
  {
    var u, j, uab := ExprStartsUnary(t1, i, e, m, ab);
    if j < |t1| && t1[j].kind == BinaryOpString {
      var x, xab := PrefixRest(t1, i, e, m, ab, u, j, uab);
      PrefixExprBinary(t1, t2, i, u, j, uab, x, m, xab);
    } else {
      ExprAloneShape(t1, i);
      PrefixExprAlone(t1, t2, i, u, j, uab);
    }
  }

  /** `PrefixExpr` when the unary expression is followed by a binary operator. */
  lemma {:induction false} PrefixExprBinary(t1: seq<Token>, t2: seq<Token>, i: nat, u: UnaryExpr, j: nat, uab: Option<ParseError>,
                                            x: Expr, m: nat, xab: Option<ParseError>)
    requires i <= j < |t1| && t1[j].kind == BinaryOpString
    requires ParseUnaryAt(t1, i) == Done(u, j, uab) && ParseExprAt(t1, j + 1) == Done(x, m, xab)
    requires Agree(t1, t2, m) && EndsExpr(t1, m) && EndsExpr(t2, m)
    ensures uab.None? && xab.None?
    ensures ParseExprAt(t2, i) == Done(Expr(t1[i].pos, Some(u), Some(ExprRest(t1[j].pos, t1[j].text, Some(x)))), m, None)
    decreases |t1| - i, 3
  {
    AgreeBelow(t1, t2, m, j);
    PrefixUnary(t1, t2, i, u, j, uab);
    PrefixExpr(t1, t2, j + 1, x, m, xab);
    assert t2[i] == t1[i] && t2[j] == t1[j];
    ExprWithRest(t2, i, u, j, x, m);
  }

  /** `PrefixExpr` when the unary expression is not followed by a binary operator. */
  lemma {:induction false} PrefixExprAlone(t1: seq<Token>, t2: seq<Token>, i: nat, u: UnaryExpr, j: nat, uab: Option<ParseError>)
    requires i <= |t1| && ParseUnaryAt(t1, i) == Done(u, j, uab)
    requires Agree(t1, t2, j) && EndsExpr(t2, j)
    ensures uab.None? && ParseExprAt(t2, i) == Done(Expr(t1[i].pos, Some(u), None), j, None)
    decreases |t1| - i, 3
  {
    PrefixUnary(t1, t2, i, u, j, uab);
    assert t2[i] == t1[i];
    ExprWithoutRest(t2, i, u, j);
  }

  lemma AgreeBelow(t1: seq<Token>, t2: seq<Token>, m: nat, n: nat)
    requires Agree(t1, t2, m) && n <= m
    ensures Agree(t1, t2, n)
  {
  }

  /** A complete expression starts with a complete unary expression. */
  lemma ExprStartsUnary(toks: seq<Token>, i: nat, e: Expr, m: nat, ab: Option<ParseError>) returns (u: UnaryExpr, j: nat, uab: Option<ParseError>)
    requires i <= |toks| && ParseExprAt(toks, i) == Done(e, m, ab)
    ensures ParseUnaryAt(toks, i) == Done(u, j, uab) && i < j <= m
  {
    var r := ParseUnaryAt(toks, i);
    u, j, uab := r.node, r.next, r.abandoned;
  }

  /** After a binary operator, a complete expression followed by no binary
      operator has a complete rest. */
  lemma PrefixRest(t1: seq<Token>, i: nat, e: Expr, m: nat, ab: Option<ParseError>, u: UnaryExpr, j: nat, uab: Option<ParseError>)
    returns (x: Expr, xab: Option<ParseError>)
    requires i <= |t1| && ParseExprAt(t1, i) == Done(e, m, ab) && EndsExpr(t1, m)
    requires ParseUnaryAt(t1, i) == Done(u, j, uab) && j < |t1| && t1[j].kind == BinaryOpString
    ensures ParseExprAt(t1, j + 1) == Done(x, m, xab)
    ensures e == Expr(t1[i].pos, Some(u), Some(ExprRest(t1[j].pos, t1[j].text, Some(x)))) && ab == Deeper(uab, xab)
  {
    var r := ParseExprAt(t1, j + 1);
    x, xab := r.node, r.abandoned;
  }

  lemma {:induction false} PrefixUnary(t1: seq<Token>, t2: seq<Token>, i: nat, u: UnaryExpr, k: nat, ab: Option<ParseError>)
    requires i <= |t1| && ParseUnaryAt(t1, i) == Done(u, k, ab) && Agree(t1, t2, k)
    ensures ab.None? && ParseUnaryAt(t2, i) == Done(u, k, None)
    decreases |t1| - i, 2
  {
    var n := UnaryOpRun(t1, i);
    var p := ParsePrimaryAt(t1, i + n);
    PrefixRun(t1, t2, i, k);
    PrefixPrimary(t1, t2, i + n, p.node, p.next, p.abandoned);
    assert t2[i] == t1[i];
    assert OpsOf(t2, i, n) == OpsOf(t1, i, n);
    UnaryWith(t2, i, n, p.node, k);
  }

  lemma {:induction false} PrefixPrimary(t1: seq<Token>, t2: seq<Token>, i: nat, p: PrimaryExpr, k: nat, ab: Option<ParseError>)
    requires i <= |t1| && ParsePrimaryAt(t1, i) == Done(p, k, ab) && Agree(t1, t2, k)
    ensures ab.None? && ParsePrimaryAt(t2, i) == Done(p, k, None)
    decreases |t1| - i, 1
  {
    assert t2[i] == t1[i];
    if t1[i].kind != LitString {
      var q := ParseParenAt(t1, i);
      PrefixParen(t1, t2, i, q.node, q.next, q.abandoned);
    }
  }

  lemma {:induction false} PrefixParen(t1: seq<Token>, t2: seq<Token>, i: nat, q: ParenExpr, k: nat, ab: Option<ParseError>)
    requires i <= |t1| && ParseParenAt(t1, i) == Done(q, k, ab) && Agree(t1, t2, k)
    ensures ab.None? && ParseParenAt(t2, i) == Done(q, k, None)
    decreases |t1| - i, 0
  {
    var x := ParseExprAt(t1, i + 1);
    assert t2[i] == t1[i] && t2[x.next] == t1[x.next];
    AgreeBelow(t1, t2, k, x.next);
    PrefixExpr(t1, t2, i + 1, x.node, x.next, x.abandoned);
  }

  // ---------------------------------------------------------------------
  // Well-spelled input gives well-formed trees

  /** What an expression parse builds from tokens spelled as the lexicon
      says is a tree the evaluator accepts. */
  lemma {:induction false} ExprWellFormed(toks: seq<Token>, i: nat)
    requires WellSpelled(toks) && i <= |toks|
    ensures ParseExprAt(toks, i).Done? ==> WellFormedExpr(ParseExprAt(toks, i).node)
    decreases |toks| - i, 3
  {
    UnaryWellFormed(toks, i);
    var r := ParseUnaryAt(toks, i);
    if r.Failed? {
    } else if r.next < |toks| && toks[r.next].kind == BinaryOpString {
      ExprWellFormed(toks, r.next + 1);
      assert WellSpelledToken(toks[r.next]);
      ExprWellFormedRest(toks, i);
    } else {
      ExprWellFormedAlone(toks, i);
    }
  }

  /** An expression whose unary is followed by a known binary operator is
      well formed when its unary is well formed and so is the expression
      after the operator, if there is one. */
  lemma ExprWellFormedRest(toks: seq<Token>, i: nat)
    requires i <= |toks| && ParseUnaryAt(toks, i).Done? && WellFormedUnary(ParseUnaryAt(toks, i).node)
    requires var j := ParseUnaryAt(toks, i).next;
      && j < |toks| && toks[j].kind == BinaryOpString && toks[j].text in AllBinarySpellings
      && (ParseExprAt(toks, j + 1).Done? ==> WellFormedExpr(ParseExprAt(toks, j + 1).node))
    ensures ParseExprAt(toks, i).Done? ==> WellFormedExpr(ParseExprAt(toks, i).node)
  {
    if ParseExprAt(toks, ParseUnaryAt(toks, i).next + 1).Done? {
      ExprWellFormedBinary(toks, i);
    } else {
      ExprWellFormedGivenUp(toks, i);
    }
  }

  /** An expression without a rest is well formed when its unary is. */
  lemma ExprWellFormedAlone(toks: seq<Token>, i: nat)
    requires i <= |toks| && ParseUnaryAt(toks, i).Done? && WellFormedUnary(ParseUnaryAt(toks, i).node)
    requires var j := ParseUnaryAt(toks, i).next; !(j < |toks| && toks[j].kind == BinaryOpString)
    ensures ParseExprAt(toks, i).Done? && WellFormedExpr(ParseExprAt(toks, i).node)
  {
  }

  /** An expression whose rest is given up is its unary expression alone. */
  lemma ExprWellFormedGivenUp(toks: seq<Token>, i: nat)
    requires i <= |toks| && ParseUnaryAt(toks, i).Done? && WellFormedUnary(ParseUnaryAt(toks, i).node)
    requires var j := ParseUnaryAt(toks, i).next;
      j < |toks| && toks[j].kind == BinaryOpString && ParseExprAt(toks, j + 1).Failed?
    ensures ParseExprAt(toks, i).Done? ==> WellFormedExpr(ParseExprAt(toks, i).node)
  {
  }

  /** A well-formed unary expression, a known binary operator and a
      well-formed expression make a well-formed expression. */
  lemma ExprWellFormedBinary(toks: seq<Token>, i: nat)
    requires i <= |toks| && ParseUnaryAt(toks, i).Done? && WellFormedUnary(ParseUnaryAt(toks, i).node)
    requires var j := ParseUnaryAt(toks, i).next;
      && j < |toks| && toks[j].kind == BinaryOpString && toks[j].text in AllBinarySpellings
      && ParseExprAt(toks, j + 1).Done? && WellFormedExpr(ParseExprAt(toks, j + 1).node)
    ensures ParseExprAt(toks, i).Done? && WellFormedExpr(ParseExprAt(toks, i).node)
  {
  }

  lemma {:induction false} UnaryWellFormed(toks: seq<Token>, i: nat)
    requires WellSpelled(toks) && i <= |toks|
    ensures ParseUnaryAt(toks, i).Done? ==> WellFormedUnary(ParseUnaryAt(toks, i).node)
    decreases |toks| - i, 2
  {
    var n := UnaryOpRun(toks, i);
    PrimaryWellFormed(toks, i + n);
    forall k | 0 <= k < n ensures OpsOf(toks, i, n)[k].op in UnarySpellings {
      assert WellSpelledToken(toks[i + k]);
    }
  }

  lemma {:induction false} PrimaryWellFormed(toks: seq<Token>, i: nat)
    requires WellSpelled(toks) && i <= |toks|
    ensures ParsePrimaryAt(toks, i).Done? ==> WellFormedPrimary(ParsePrimaryAt(toks, i).node)
    decreases |toks| - i, 1
  {
    if i < |toks| && toks[i].kind == LitString {
      assert WellSpelledToken(toks[i]);
    } else {
      ParenWellFormed(toks, i);
    }
  }

  lemma {:induction false} ParenWellFormed(toks: seq<Token>, i: nat)
    requires WellSpelled(toks) && i <= |toks|
    ensures ParseParenAt(toks, i).Done? ==>
      ParseParenAt(toks, i).node.expr.Some? && WellFormedExpr(ParseParenAt(toks, i).node.expr.value)
    decreases |toks| - i, 0
  {
    if i < |toks| && toks[i].kind == OpenParen {
      ExprWellFormed(toks, i + 1);
    }
  }

  /** The expression parser's tree from well-spelled input is well formed. */
  lemma ParsedWellFormed(toks: seq<Token>)
    requires WellSpelled(toks)
    ensures ParseExpr(toks).Ok? ==> WellFormedExpr(ParseExpr(toks).value)
  {
    ExprWellFormed(toks, 0);
  }

  // ---------------------------------------------------------------------
  // Parsing, then evaluating

  /** An input spelled with the lexicon that parses evaluates to a value:
      none of the evaluator's invariant errors can be reached from the grammar. */
  lemma ParsedEvaluates(toks: seq<Token>)
    requires WellSpelled(toks) && ParseExpr(toks).Ok?
    ensures EvalExpr(Some(ParseExpr(toks).value)).err.None?
  {
    ParsedWellFormed(toks);
    WellFormedExprEvaluates(ParseExpr(toks).value);
  }
}

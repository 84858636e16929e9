/**
 * The vocabulary the grammar and the evaluator share: source positions, the
 * spellings the lexer exports for literals and operators, and the token view
 * the parser consumes once whitespace has been elided.
 *
 * The lexer itself is not part of this model. Its spellings are given the
 * values the language documents (the literals are spelled `True`/`False`);
 * everything proved below depends only on their being pairwise distinct.
 */
module Lexicon {
  import opened Wrappers

  /** Where a token or node starts: file name, byte offset, 1-based line and column. */
  datatype Position = Position(filename: string, offset: nat, line: nat, column: nat)

  /** The zero value of a position, reported when there is no node to take one from. */
  const NoPosition := Position("", 0, 0, 0)

  /** The position of the first byte of an input read from a string. */
  const StartPosition := Position("", 0, 1, 1)

  /** Moves a position past one byte: a newline starts the next line. */
  function Advance(p: Position, c: char): Position
  {
    if c == '\n' then Position(p.filename, p.offset + 1, p.line + 1, 1)
    else Position(p.filename, p.offset + 1, p.line, p.column + 1)
  }

  /** The position reached after reading `s` from the start of the input. */
  function PositionAfter(s: string): Position
    decreases |s|
  {
    if s == [] then StartPosition else Advance(PositionAfter(s[..|s| - 1]), s[|s| - 1])
  }

  /** The number of newlines in `s`. */
  function Newlines(s: string): nat
    decreases |s|
  {
    if s == [] then 0 else Newlines(s[..|s| - 1]) + (if s[|s| - 1] == '\n' then 1 else 0)
  }

  /** Offsets count every byte read, skipped whitespace included; each newline adds a line. */
  lemma {:induction false} PositionCounts(s: string)
    ensures PositionAfter(s).offset == |s|
    ensures PositionAfter(s).line == 1 + Newlines(s)
    ensures PositionAfter(s).filename == ""
    decreases |s|
  {
    if s != [] {
      PositionCounts(s[..|s| - 1]);
    }
  }

  /** The column is one more than the number of bytes read since the last newline. */
  lemma {:induction false} PositionColumn(a: string, b: string)
    requires '\n' !in b
    ensures PositionAfter(a + "\n" + b).column == |b| + 1
    ensures PositionAfter(b).column == |b| + 1
    decreases |b|
  {
    if b == [] {
      assert a + "\n" + b == a + "\n";
      assert (a + "\n")[..|a + "\n"| - 1] == a;
    } else {
      var b' := b[..|b| - 1];
      PositionColumn(a, b');
      assert (a + "\n" + b)[..|a + "\n" + b| - 1] == a + "\n" + b';
    }
  }

  // Spellings of the literals.
  const TrueText := "True"
  const FalseText := "False"

  // Spellings of the unary operators.
  const NotText := "not"
  const NotSymb := "~"
  const NullifyText := "nullify"
  const TruifyText := "truify"
  const IdText := "id"

  // Spellings of the binary operators: a word form and a symbol form each,
  // and a third spelling `iff` for XNOR.
  const AndText := "and"
  const AndSymb := "/\\"
  const NandText := "nand"
  const NandSymb := "~/\\"
  const OrText := "or"
  const OrSymb := "\\/"
  const NorText := "nor"
  const NorSymb := "~\\/"
  const ImpliesText := "implies"
  const ImpliesSymb := "=>"
  const ImpliedByText := "is implied by"
  const ImpliedBySymb := "<="
  const InhibitsText := "inhibits"
  const InhibitsSymb := "/=>"
  const InhibitedByText := "is inhibited by"
  const InhibitedBySymb := "<=/"
  const LeftText := "left"
  const LeftSymb := "<s"
  const RightText := "right"
  const RightSymb := "s>"
  const NotLeftText := "not left"
  const NotLeftSymb := "</"
  const NotRightText := "not right"
  const NotRightSymb := "/>"
  const XnorText := "xnor"
  const XnorSymb := "<=>"
  const IffText := "iff"
  const XorText := "xor"
  const XorSymb := "<~>"

  /** The fourteen connectives of the language. */
  datatype BinaryOperator =
    | And | Nand | Or | Nor | Implies | ImpliedBy | Inhibits | InhibitedBy
    | Left | Right | NotLeft | NotRight | Xnor | Xor

  /** Every spelling that stands for `op`. */
  function BinarySpellings(op: BinaryOperator): seq<string>
  {
    match op
    case And => [AndText, AndSymb]
    case Nand => [NandText, NandSymb]
    case Or => [OrText, OrSymb]
    case Nor => [NorText, NorSymb]
    case Implies => [ImpliesText, ImpliesSymb]
    case ImpliedBy => [ImpliedByText, ImpliedBySymb]
    case Inhibits => [InhibitsText, InhibitsSymb]
    case InhibitedBy => [InhibitedByText, InhibitedBySymb]
    case Left => [LeftText, LeftSymb]
    case Right => [RightText, RightSymb]
    case NotLeft => [NotLeftText, NotLeftSymb]
    case NotRight => [NotRightText, NotRightSymb]
    case Xnor => [XnorText, XnorSymb, IffText]
    case Xor => [XorText, XorSymb]
  }

  /** All spellings of binary operators. */
  const AllBinarySpellings: seq<string> :=
    [ AndText, AndSymb, NandText, NandSymb, OrText, OrSymb, NorText, NorSymb,
      ImpliesText, ImpliesSymb, ImpliedByText, ImpliedBySymb,
      InhibitsText, InhibitsSymb, InhibitedByText, InhibitedBySymb,
      LeftText, LeftSymb, RightText, RightSymb,
      NotLeftText, NotLeftSymb, NotRightText, NotRightSymb,
      XnorText, XnorSymb, IffText, XorText, XorSymb ]

  /** All spellings of unary operators. */
  const UnarySpellings: seq<string> := [NotText, NotSymb, NullifyText, TruifyText, IdText]

  /** All spellings of literals. */
  const LiteralSpellings: seq<string> := [TrueText, FalseText]

  /** The lexicon as one list: literals, unary operators, binary operators. */
  const Lexicon: seq<string> := LiteralSpellings + UnarySpellings + AllBinarySpellings

  /** The spellings are pairwise distinct, so each names one thing. */
  lemma LexiconDistinct()
    ensures forall i, j :: 0 <= i < j < |Lexicon| ==> Lexicon[i] != Lexicon[j]
  {
  }

  /** The operator each entry of `AllBinarySpellings` spells. */
  const SpellingOwners: seq<BinaryOperator> :=
    [ And, And, Nand, Nand, Or, Or, Nor, Nor, Implies, Implies, ImpliedBy, ImpliedBy,
      Inhibits, Inhibits, InhibitedBy, InhibitedBy, Left, Left, Right, Right,
      NotLeft, NotLeft, NotRight, NotRight, Xnor, Xnor, Xnor, Xor, Xor ]

  lemma SpellingOwned(k: nat)
    requires k < |AllBinarySpellings|
    ensures k < |SpellingOwners| && AllBinarySpellings[k] in BinarySpellings(SpellingOwners[k])
  {
  }

  lemma SpellingListed(op: BinaryOperator, t: string)
    requires t in BinarySpellings(op)
    ensures t in AllBinarySpellings
  {
    match op
    case And =>
    case Nand =>
    case Or =>
    case Nor =>
    case Implies =>
    case ImpliedBy =>
    case Inhibits =>
    case InhibitedBy =>
    case Left =>
    case Right =>
    case NotLeft =>
    case NotRight =>
    case Xnor =>
    case Xor =>
  }

  /** A spelling is a binary operator's exactly when it is one of some operator's spellings. */
  lemma BinarySpellingsCover(t: string)
    ensures t in AllBinarySpellings <==> exists op :: t in BinarySpellings(op)
  {
    if t in AllBinarySpellings {
      var k :| 0 <= k < |AllBinarySpellings| && AllBinarySpellings[k] == t;
      SpellingOwned(k);
    }
    if op :| t in BinarySpellings(op) {
      SpellingListed(op, t);
    }
  }

  /** The token classes the grammar refers to. `Unusable` is anything else the
      lexer may produce (an identifier-like word such as `ture` or `notnot`). */
  datatype TokenKind =
    | LitString | UnaryOpString | BinaryOpString | OpenParen | CloseParen
    | DoubleSemicolon | Newline | Unusable

  /** A token as the parser sees it once whitespace is elided. */
  datatype Token = Token(kind: TokenKind, text: string, pos: Position)

  /** A token whose text is one the lexicon defines for its class. */
  predicate WellSpelledToken(t: Token)
  {
    match t.kind
    case LitString => t.text in LiteralSpellings
    case UnaryOpString => t.text in UnarySpellings
    case BinaryOpString => t.text in AllBinarySpellings
    case _ => true
  }

  /** What the lexer is assumed to guarantee: literal and operator tokens are spelled as documented. */
  predicate WellSpelled(toks: seq<Token>)
  {
    forall k :: 0 <= k < |toks| ==> WellSpelledToken(toks[k])
  }

  /** Two token streams that differ at most in positions, as two inputs differing only in whitespace do. */
  predicate SameWords(t1: seq<Token>, t2: seq<Token>)
  {
    |t1| == |t2| && forall k :: 0 <= k < |t1| ==> t1[k].kind == t2[k].kind && t1[k].text == t2[k].text
  }
}

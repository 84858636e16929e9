# A verified model of the boolean-expression core of the `lx` language

The interpreter reads boolean expressions and evaluates them. Its core has four parts, and this project models them in Dafny:

- **The expression tree and its evaluator** (`parser/boolean/interface.go`).
  - The tree keeps the nullable shape of the Go structs. Every pointer is an `Option`, and a primary holds a literal text (empty when unset) and an optional parenthesised expression.
  - Evaluation reduces a tree to a truth value, or to an error stamped with a position.
  - The one loop in the evaluator is `EvalUnaryExpr`. It folds the unary operators from the last to the first. It is a `method` with a `while` loop, proved equal to the functional fold `EvalUnary`.
  - The closure-returning `TransmogrifyUnaryResBasedOnRest` becomes the plain function `Transmogrify(rest, unaryResult)`.
- **The expression grammar** (`ExprParser`, same file). It is a recursive-descent parser over the tokens the lexer leaves once whitespace is elided:
  - `Expr := UnaryExpr (BinaryOpString Expr)?`
  - `UnaryExpr := UnaryOpString* PrimaryExpr`
  - `PrimaryExpr := LitString | ParenExpr`
  - `ParenExpr := '(' Expr ')'`
- **The file grammar** (`FileParser`, `parser/interface.go`). A file is one expression, an optional run of `;;`/newline terminators, and then the end of input.
- **The REPL context and prompt** (`repl/interface.go`). This is an immutable counter plus scope, and the prompt string `lx(<scope>):<number, three digits at least>:0> `.
- **`wrapText` and `min`** (`cmd/ac/main.go`). This is the greedy word wrapper that `drawText` applies to every line it draws on the REPL screen, and that the Enter key applies to the maths input before its lines are joined back with single spaces and evaluated. It is written imperatively, as the source writes it. `ScanBack` is the inner loop that scans back for a space, and `WrapText` is the outer loop that cuts lines. Both are proved against the functional specification `Wrapped`.

Modules, one file each:

| module | what it holds |
|---|---|
| `Wrappers` | stock `Option` and `Result` types |
| `Lexicon` | positions; the lexer's spellings; tokens |
| `BooleanAst` | the tree, its well-formedness, and its position-free shape |
| `BooleanEval` | the evaluator |
| `BooleanEvalProperties` | lemmas about the evaluator |
| `BooleanParser` | the expression grammar |
| `BooleanParserProperties` | lemmas about the expression grammar |
| `FileGrammar` | the file grammar |
| `FileGrammarProperties` | lemmas about the file grammar |
| `Repl` | the REPL context and prompt |
| `Wrap` | the word wrapper and `min` |

### How the model reads the code

- **The literals are spelled `True` and `False`**, as the tests use them. The language description writes them in lower case; the model follows the code.
- **A file holds exactly one expression.** `Expressions []Expr` is captured by a single `@@`, and `EOF` is then required. A second expression is therefore an error at its first token, expecting the end of input. The language description allows several statements per file; the model follows the code.
- **LEFT (`left`, `<s`) always yields `false`.** Its `case` assigns nothing, so `resPayload` keeps Go's zero value. The comment on that case ("no change") and the intended meaning (the left operand) say otherwise.
  - `Combine` models the code.
  - `CodeTable` is the table the code implements, and `DesignTable` is the intended one.
  - `LeftIsConstantFalse` shows that the two differ whenever the left operand is true.
- **INHIBITS and INHIBITED BY share one truth table**, `¬l ∨ ¬r`, exactly as the code writes them.
- **How errors are located.** An error names a token index (the stream's length for the end of input) and the token class that was expected there. A failed parse also carries the index it had committed to, as a parser with one token of lookahead commits:
  - a primary commits only to the literal or to a parenthesis that got past the token after its `(`; a parenthesis that fails right after its `(` leaves the primary uncommitted;
  - the optional rest of an expression is tried whenever a binary operator follows, and is given up, without an error, when the expression after the operator committed to nothing past the token after the operator; the error of a rest given up is remembered, and of two remembered errors the deeper is kept, the earlier on a tie;
  - a rest that committed further fails the whole expression.
  - The expression parser reports the remembered error when input is left over and that error lies further in; otherwise it reports the first unconsumed token, expecting the end of input. That is why `True and` fails at the end of input, expecting a primary, and why `( True and ( )` fails at `and`, expecting `)`.
  - The file parser reports the first token after the expression and its terminators, expecting the end of input. That is why `True and` and `True and (` fail at `and`, expecting `<eof>`.
  - Both behaviours match the two test suites.
- **The expression counter is Go's `uint`, whose width depends on the platform.** The model assumes a 64-bit platform, so `BumpExprNum` wraps from 2⁶⁴−1 to 0.
- **The prompt's indentation is the constant `DEFAULT_INDENTATION`**, which is 0.

## Model

| member | source | states |
|---|---|---|
| Lexicon.PositionCounts | parser/interface_test.go:64-84 | a position read from the start of the input has an offset equal to the number of characters read (skipped whitespace included), and a line equal to one plus the number of newlines |
| Lexicon.PositionColumn | parser/interface_test.go:150-184 | the column is one more than the number of characters read since the last newline, or since the start |
| Lexicon.LexiconDistinct | parser/boolean/interface.go:124-135 | the literal, unary and binary spellings this model assumes for the lexer are pairwise distinct; this is a sanity fact about the assumed lexicon, not something the evaluator guarantees (Go only requires the labels of one `switch` to differ) |
| Lexicon.SpellingOwned | parser/boolean/interface.go:167-195 | every entry of the list of binary spellings is one of the spellings of its operator |
| Lexicon.BinarySpellingsCover | parser/boolean/interface.go:167-195 | a text is in the list of binary spellings exactly when some operator's case lists it |
| BooleanEval.InvalidMessage | parser/boolean/interface.go:81-83 | the message is `invalid `, the kind of thing, ` '`, the offending value and `'`, in that order and nothing else |
| BooleanEval.Invalid | parser/boolean/interface.go:81-84 | an invariant error at the given position, with payload false and that message |
| BooleanEval.EvalPrimaryExpr | parser/boolean/interface.go:86-104 | a nil primary, and one with both a literal and a parenthesis, are errors; a literal value is at the primary's position, is one of the two literal spellings, and is true exactly for `True`; a parenthesis' value is at the parenthesis; every error carries payload false |
| BooleanEval.EvalParenExpr | parser/boolean/interface.go:106-112 | the inner expression's error and payload come out unchanged; a value is re-stamped at the parenthesis |
| BooleanEval.ApplyUnary | parser/boolean/interface.go:124-135 | an operator applies exactly when its text is one of the five unary spellings |
| BooleanEval.FoldOps | parser/boolean/interface.go:123-136 | a fold that gets stuck names a text that is not a unary spelling |
| BooleanEval.EvalUnary | parser/boolean/interface.go:114-138 | a value is positioned at the unary expression, which is not nil; every error carries payload false |
| BooleanEval.EvalExpr | parser/boolean/interface.go:140-146 | a value exists only for an expression with a unary, and is at that unary's position; every error carries payload false |
| BooleanEval.Transmogrify | parser/boolean/interface.go:148-201 | without a rest, the unary result passes through unchanged; a value needs a good unary result and sits at its position; errors keep payload false |
| BooleanEval.EvalUnaryExpr | parser/boolean/interface.go:114-138 | the descending loop that updates the accumulator returns exactly the functional fold `EvalUnary`: the nil error, the primary's error, the first unknown operator met, or the folded value at the unary's position |
| BooleanEvalProperties.LiteralMeaning | parser/boolean/interface.go:96-103 | a literal evaluates to a value exactly when it is `True` or `False`; the value is true exactly for `True`; any other text, the empty text included, is the error `invalid boolean literal '<text>'` with payload false; always at the primary's position |
| BooleanEvalProperties.MalformedNodes | parser/boolean/interface.go:86-92 | a nil primary, unary or boolean expression is `invalid <kind> 'nil'` at the zero position; a primary with both a literal and a parenthesis is `invalid primary expression 'both Lit and Paren'` at its own position |
| BooleanEvalProperties.ParenOnce | parser/boolean/interface.go:106-112 | one pair of parentheses passes the inner error through unchanged and re-stamps an inner value with the parenthesis' position |
| BooleanEvalProperties.ParensTransparent | parser/boolean/interface.go:106-112 | at any nesting depth, the inner error comes out unchanged, and a value comes out at the outermost parenthesis' position |
| BooleanEvalProperties.FoldLeftmostLast | parser/boolean/interface.go:122-136 | the leftmost operator is applied last: folding `o` in front of `rest` folds `rest` first and then applies `o` |
| BooleanEvalProperties.FoldFolded | parser/boolean/interface.go:123-137 | the fold reaches a value exactly when every operator is a known spelling |
| BooleanEvalProperties.FoldStuck | parser/boolean/interface.go:123-135 | a fold that gets stuck names the unknown operator with the highest index, the first one the descending loop meets; every operator after it is known |
| BooleanEvalProperties.LeftmostOverride | parser/boolean/interface.go:127-130 | with only known operators, a leftmost `nullify` gives false and a leftmost `truify` gives true, whatever the operand and the other operators |
| BooleanEvalProperties.NegationParity | parser/boolean/interface.go:125-132 | with only `not`, `~` and `id`, the result is the operand flipped once per negation |
| BooleanEvalProperties.PrimaryErrorFirst | parser/boolean/interface.go:118-121 | a failing primary is returned as it is, before any operator is looked at |
| BooleanEvalProperties.UnknownUnaryOperator | parser/boolean/interface.go:133-135 | an unknown unary operator over a good primary is the error `invalid unary operator '<op>'` about one of the operators, at the unary expression's position |
| BooleanEvalProperties.NotNullifyTrue | parser/boolean/interface.go:122-137 | `not nullify True` is true: `nullify` is applied first, then `not` |
| BooleanEvalProperties.CombineTable | parser/boolean/interface.go:166-195 | every spelling of every connective yields the design truth table, except LEFT, which yields false |
| BooleanEvalProperties.CombineWord | parser/boolean/interface.go:166-195 | the table for each connective's word spelling |
| BooleanEvalProperties.CombineSymbol | parser/boolean/interface.go:166-195 | the table for each connective's symbol spelling |
| BooleanEvalProperties.SpellingsAgree | parser/boolean/interface.go:167-195 | any two spellings of one connective share one case, so they give the same result |
| BooleanEvalProperties.CombineKnown | parser/boolean/interface.go:166-198 | the combination step knows a text exactly when it is a binary spelling |
| BooleanEvalProperties.LeftIsConstantFalse | parser/boolean/interface.go:184-185 | LEFT gives false for all operands, and so disagrees with the left operand whenever that is true |
| BooleanEvalProperties.NoRest | parser/boolean/interface.go:148-153 | an expression without a rest is its unary result, unchanged |
| BooleanEvalProperties.BinaryPrecedence | parser/boolean/interface.go:154-199 | the right side's error wins, even when the left failed too; then the left side's error; an unknown operator only when both succeed, at the right side's position; otherwise the operator's value at the left unary's position |
| BooleanEvalProperties.BinaryValue | parser/boolean/interface.go:160-199 | when both sides succeed, a binary expression has the code's table value of the two payloads, at the left unary's position |
| BooleanEvalProperties.RightAssociative | parser/boolean/interface.go:36-40 | `a op1 b op2 c` evaluates as `a op1 (b op2 c)`: the right operand is the whole nested chain |
| BooleanEvalProperties.WellFormedExprEvaluates | parser/boolean/interface.go:140-201 | a tree of the grammar's shape, spelled with the lexicon, evaluates to a value: no invariant error is reachable |
| BooleanEvalProperties.WellFormedUnaryEvaluates | parser/boolean/interface.go:114-138 | the same for a unary expression |
| BooleanEvalProperties.WellFormedPrimaryEvaluates | parser/boolean/interface.go:86-112 | the same for a primary |
| BooleanParser.Deeper | parser/boolean/interface.go:17 | of two remembered errors, the one further into the input, and the first argument on a tie; it is one of the two, a missing error defers to the other, and it is never less deep than either |
| BooleanParser.UnaryOpRun | parser/boolean/interface.go:27 | the run of unary operators from an index: all of them are operators, and the token after the run is not |
| BooleanParser.OpsOf | parser/boolean/interface.go:27-34 | the operators of the run, one per token, with the token's text and position, in textual order |
| BooleanParser.ParseExprAt | parser/boolean/interface.go:14-18 | an expression consumes at least one token and is positioned at its first token; a failure commits from the start up to at most its error, which lies within the input; a remembered error lies after the start, within the input |
| BooleanParser.ParseUnaryAt | parser/boolean/interface.go:25-29 | the same bounds and position for a unary expression |
| BooleanParser.ParsePrimaryAt | parser/boolean/interface.go:42-46 | the same bounds and position for a primary |
| BooleanParser.ParseParenAt | parser/boolean/interface.go:48-51 | the same bounds and position for a parenthesised expression |
| BooleanParser.ParseExpr | parser/boolean/interface.go:20-23 | an accepted input is non-empty and its tree is at the first token; an error lies within the input |
| BooleanParserProperties.UnaryOpsInOrder | parser/boolean/interface_test.go:200-208 | the unary operators are kept in the order written, each with its token's text, and the primary starts at the first token that is not an operator |
| BooleanParserProperties.NoPrimaryAt | parser/boolean/interface.go:42-46 | where no primary can start, the expression fails there, expecting a primary |
| BooleanParserProperties.UnaryThenLit | parser/boolean/interface.go:25-29 | `n` operators and then a literal make one unary expression with exactly those operators and that literal |
| BooleanParserProperties.LoneUnaryOps | parser/boolean/interface_test.go:174-192 | unary operators alone fail at the end of input, expecting a primary |
| BooleanParserProperties.BadFirstToken | parser/boolean/interface_test.go:194-198 | a first token that starts no primary (such as the one word `notnot`) fails at index 0, expecting a primary |
| BooleanParserProperties.DanglingOperator | parser/boolean/interface_test.go:333-369 | `ops Lit Bin` fails at the end of input, expecting a primary, in the expression parser |
| BooleanParserProperties.UnclosedParen | parser/boolean/interface_test.go:70-104 | `( ops Lit` without `)` fails at the end of input, expecting `)` |
| BooleanParserProperties.BinaryOpKept | parser/boolean/interface_test.go:376-420 | `Lit Bin Lit` is accepted, with the operator's text stored as written and the second literal as the whole rest |
| BooleanParserProperties.GivenUpInsideParen | parser/boolean/interface.go:17 | `( Lit Bin ( )`: the inner parenthesis fails right after its `(`, so the rest is given up and the outer parenthesis misses its `)` at the operator |
| BooleanParserProperties.PrefixExpr | parser/boolean/interface.go:14-18 | an expression that ends where no binary operator follows reads the same whatever comes after it, and nothing was given up on the way |
| BooleanParserProperties.RightNesting | parser/boolean/interface.go:36-40 | `a op1 b op2 c` parses with `b op2 c` as the rest of `op1` |
| BooleanParserProperties.SameWordsExpr | parser/boolean/interface.go:20-23 | two token streams with the same kinds and texts give the same outcome at every index: the same error, or trees equal up to positions that end at the same index with the same remembered error |
| BooleanParserProperties.WhitespaceInvariance | parser/boolean/interface_test.go:106-146 | inputs that differ only in whitespace parse to the same tree up to positions, or fail with the same error |
| BooleanParserProperties.RenderRoundTrip | parser/boolean/interface.go:14-51 | writing a well-formed tree out as tokens and parsing them gives back the tree, up to positions |
| BooleanParserProperties.ExprRendered | parser/boolean/interface.go:14-51 | a successful parse from any index accounts for the tokens it consumed: written out, its tree has their kinds one for one, and their texts at every token that is not a parenthesis |
| BooleanParserProperties.ParsedRendersInput | parser/boolean/interface.go:20-23 | the tree of an accepted input, written out, has exactly as many tokens as the input, with the same kinds in order and the same texts at every token that is not a parenthesis |
| BooleanParserProperties.ExprWellFormed | parser/boolean/interface.go:14-51 | from well-spelled tokens, an expression parse that succeeds builds a well-formed tree |
| BooleanParserProperties.ParsedWellFormed | parser/boolean/interface.go:20-23 | the expression parser's tree from well-spelled input is well formed |
| BooleanParserProperties.ParsedEvaluates | parser/boolean/interface.go:86-201 | a well-spelled input that the expression parser accepts evaluates to a value |
| FileGrammar.TerminatorRun | parser/interface.go:30 | the longest run of `;;`/newline tokens from an index: all are terminators, and the next token is not |
| FileGrammar.Texts | parser/interface.go:30 | the texts of a run of tokens, in order |
| FileGrammar.TerminatorAt | parser/interface.go:25-31 | a terminator node exists exactly when a terminator follows; it is at the first terminator and holds the whole run |
| FileGrammar.ParseFile | parser/interface.go:11-15 | an accepted file is non-empty, positioned at its first token, and holds exactly one expression, which has a boolean expression; `TerminatorsKept`, `SecondExpression` and `FileGivenUpAfterOperator` state its result on whole classes of input |
| FileGrammarProperties.FileBadFirstToken | parser/interface_test.go:15-31 | a first token that starts no primary fails at index 0, expecting a primary |
| FileGrammarProperties.FileDanglingOperator | parser/interface_test.go:378-402 | `ops Lit Bin` fails at the operator, expecting the end of input, in the file parser, while the expression parser fails at the end of input |
| FileGrammarProperties.SecondExpression | parser/interface_test.go:42-84 | after any input the expression parser accepts, followed by any run of terminators, a token that is neither a binary operator nor a terminator fails where it stands, expecting the end of input, whatever follows it |
| FileGrammarProperties.TerminatorsKept | parser/interface.go:28-31 | any input the expression parser accepts, followed by any run of terminators, is one statement with that expression's tree, and its terminator node, present exactly when the run is not empty, sits at the first terminator and keeps every terminator text in order |
| FileGrammarProperties.TerminatorRunLength | parser/interface.go:30 | a run of exactly `n` terminators followed by a non-terminator has length `n` |
| FileGrammarProperties.FileGivenUpAfterOperator | parser/interface.go:22-26 | `Lit Bin (` fails at the operator, expecting the end of input, in the file parser, because the rest is given up; the expression parser reports the primary missing at the end of input |
| FileGrammarProperties.FileWhitespaceInvariance | parser/interface_test.go:226-265 | inputs that differ only in whitespace give the file parser the same error, or statements equal up to positions with the same terminator texts |
| FileGrammarProperties.FileAgreesWithExpr | parser/interface.go:22-26 | without terminators, the file parser accepts exactly what the expression parser accepts, with the same tree; when the expression itself fails, both report the same error |
| FileGrammarProperties.FileWellFormed | parser/interface.go:22-26 | the file's expression from well-spelled input is well formed |
| FileGrammarProperties.ParsedFileEvaluates | parser/interface.go:22-26 | a well-spelled file that parses evaluates to a value |
| Repl.ReplContext.ExprNum | repl/interface.go:26-28 | returns the stored counter |
| Repl.ReplContext.Scope | repl/interface.go:30-32 | returns the stored scope |
| Repl.ReplContext.BumpExprNum | repl/interface.go:34-40 | a new context with the counter one further, wrapping to 0 past the largest word, and the same scope |
| Repl.NewReplContext | repl/interface.go:18-24 | a session starts at expression 1 in scope `main` |
| Repl.Decimal | repl/interface.go:42-44 | the decimal numeral of a number: digits only, no leading zero, reading back as the number |
| Repl.ZeroPad3 | repl/interface.go:42-44 | `%03d` padding: at least three digits, the numeral at the end, zeros before it |
| Repl.PaddedValue | repl/interface.go:42-44 | padding keeps the number the numeral denotes |
| Repl.Prompt | repl/interface.go:42-44 | the prompt starts with `lx(<scope>):`, ends with `:0> `, and leaves room for three digits and a colon between them |
| Repl.PromptShape | repl/interface.go:42-44 | the prompt starts with `lx(<scope>):` and ends with `:0> `; between them is a numeral of at least three digits that reads back as the counter, with no leading zero once it is longer than three |
| Repl.FirstPrompt | repl/interface.go:18-24 | the first prompt of a session is `lx(main):001:0> ` |
| Repl.SessionCounter | repl/interface.go:18-40 | after `n` bumps from a new context, the counter is `n + 1` and the scope is still `main`, as long as the counter has not wrapped |
| Repl.CounterWraps | repl/interface.go:34-40 | bumping the largest word gives 0 |
| Wrap.Wrapped | cmd/ac/main.go:242-267 | never more lines than characters; no line exactly when the text is empty; every line non-empty |
| Wrap.WrapSpec | cmd/ac/main.go:236-268 | no line exactly when the width is positive and the text empty; with a positive width every line is non-empty |
| Wrap.LastSpace | cmd/ac/main.go:243-246 | the last space at an index from 1 up to `k`, or 0 when there is none |
| Wrap.SplitPoint | cmd/ac/main.go:243-250 | a cut lies between 1 and the width |
| Wrap.Remainder | cmd/ac/main.go:257-261 | what is left after a cut is no longer than the text after the cut |
| Wrap.ScanBack | cmd/ac/main.go:243-250 | the inner loop stops at the last space within the width, or cuts hard at the width when there is none |
| Wrap.WrapText | cmd/ac/main.go:236-268 | the loop returns exactly the lines of the wrapping specification |
| Wrap.LinesFit | cmd/ac/main.go:242-267 | every line is non-empty and no longer than the width |
| Wrap.ShortText | cmd/ac/main.go:237-239 | a width of 0 or less gives the text as the only line; a text that fits gives one line, or no line when it is empty |
| Wrap.FirstCut | cmd/ac/main.go:243-256 | the first line ends at the last space within the width; no space lies between the cut and the width; the cut is at a space exactly when there is one within the width |
| Wrap.UnwrapWrapped | cmd/ac/main.go:242-267 | joining the lines again, with a space wherever one was dropped, gives back the text |
| Wrap.Min | cmd/ac/main.go:324-329 | the result is one of the two arguments and no larger than either |

## Left out

- The lexer (`acornlang.dev/lang/lexer`) is not part of this model. Tokens arrive with a kind, a text and a position, and whitespace is already elided. Its spellings take the values the language documents. Only their pairwise distinctness is used.
- Participle's own machinery is not modelled: its lookahead, its message texts (`1:7: unexpected token "<EOF>" (expected ")")`) and its line:column rendering of error positions. An error is a token index plus the expected token class.
- The partial trees that participle returns together with an error are not modelled. Examples are the inner literal still recorded for an unclosed parenthesis, and the first expression of a rejected file.
- UnclosedParen: states the error only, not the partial tree that comes with it, because partial trees are not modelled.
- `errNotImplemented` (parser/boolean/interface.go:77-79) is left out, because nothing calls it.
- The `Context` interface (repl/interface.go:7-11) is left out. Its three methods are modelled directly on `ReplContext`. Because `BumpExprNum` builds a new value, no pointer aliasing is modelled or needed.
- The terminal UI (`interactiveRepl`, `drawText`, `convertHistoryToMode`) is left out: it is screen, keyboard and history I/O.
- `replaceToMath` and `replaceToEnglish` are left out: they apply regular expressions in Go's randomised map order, so their output is not a function of their input.
- `LXEvalPrint` is left out: it calls functions that the source does not define.
- `parser/boolean/boolean.go` and the copies of the structs under `types/ast` are left out: they duplicate the grammar and the tree modelled here.
- Repl.ReplContext.BumpExprNum: wraps at 2⁶⁴ only; the wrap at 2³² of a 32-bit platform's `uint` is not modelled.
- Wrap.WrapText: Go strings are indexed by byte; the model treats a string as one `char` per byte and knows nothing of UTF-8.
- Lexicon.PositionAfter: counts one `char` per byte as well, so offsets and columns of multi-byte UTF-8 text are not modelled.
- Lexicon.PositionAfter, Lexicon.PositionCounts and Lexicon.PositionColumn describe how the lexer advances a position. No token's position is tied to them, because the lexer is not part of this model; the parsers only copy the positions they are given.
- Go's `error` values become the message strings that `fmt.Errorf("invalid %s '%s'", …)` would produce. The `%s` formatting of other kinds of value is not modelled.

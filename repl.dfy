/**
 * The interactive loop's context: which expression of the session comes
 * next and in which scope, and the prompt shown for it. Bumping the counter
 * builds a new context and leaves the old one as it was.
 *
 * The counter is an unsigned machine word; a 64-bit word is assumed, so its
 * successor wraps to 0 after the largest value.
 */
module Repl {
  const UintModulus: nat := 0x1_0000_0000_0000_0000

  type Uint = n: nat | n < UintModulus

  /** The indentation level printed in every prompt. */
  const DefaultIndentation: Uint := 0

  datatype ReplContext = ReplContext(exprNum: Uint, scope: string)
  {
    function ExprNum(): (n: Uint)
      ensures n == exprNum
    {
      exprNum
    }

    function Scope(): (s: string)
      ensures s == scope
    {
      scope
    }

    /** The context of the next expression: the counter one further, with
        wrap-around, and the same scope. */
    function BumpExprNum(): (c: ReplContext)
      ensures c.scope == scope
      ensures exprNum + 1 < UintModulus ==> c.exprNum == exprNum + 1
      ensures exprNum + 1 == UintModulus ==> c.exprNum == 0
    {
      ReplContext((exprNum + 1) % UintModulus, scope)
    }
  }

  /** A session starts at its first expression, in the main scope. */
  function NewReplContext(): (c: ReplContext)
    ensures c.ExprNum() == 1 && c.Scope() == "main"
  {
    ReplContext(1, "main")
  }

  // ---------------------------------------------------------------------
  // Decimal numerals

  predicate IsDigit(c: char)
  {
    '0' <= c <= '9'
  }

  predicate AllDigits(s: string)
  {
    forall k :: 0 <= k < |s| ==> IsDigit(s[k])
  }

  function DigitChar(d: nat): (c: char)
    requires d < 10
    ensures IsDigit(c) && c as int - '0' as int == d
  {
    ('0' as int + d) as char
  }

  /** The number a string of digits denotes, read most significant first. */
  function Value(s: string): nat
    requires AllDigits(s)
    decreases |s|
  {
    if s == [] then 0 else Value(s[..|s| - 1]) * 10 + (s[|s| - 1] as int - '0' as int)
  }

  /** The decimal numeral of `n`, without leading zeros. */
  function Decimal(n: nat): (s: string)
    ensures |s| > 0 && AllDigits(s)
    ensures Value(s) == n
    ensures |s| > 1 ==> s[0] != '0'
    decreases n
  {
    if n < 10 then [DigitChar(n)]
    else
      var init := Decimal(n / 10);
      var s := init + [DigitChar(n % 10)];
      assert s[..|s| - 1] == init;
      s
  }

  /** `k` zero digits. */
  function Zeros(k: nat): (z: string)
    ensures |z| == k && forall i :: 0 <= i < k ==> z[i] == '0'
  {
    seq(k, _ => '0')
  }

  /** A numeral padded with leading zeros to at least three digits, as the
      format `%03d` prints it. */
  function ZeroPad3(s: string): (p: string)
    requires AllDigits(s)
    ensures AllDigits(p)
    ensures |p| == if |s| < 3 then 3 else |s|
    ensures p[|p| - |s|..] == s
    ensures forall k :: 0 <= k < |p| - |s| ==> p[k] == '0'
  {
    var p := if |s| < 3 then Zeros(3 - |s|) + s else s;
    assert p[|p| - |s|..] == s;
    p
  }

  /** `lx(<scope>):<expression number, three digits at least>:<indentation>> `. */
  function Prompt(ctx: ReplContext): (p: string)
    ensures |p| >= |"lx(" + ctx.Scope() + "):"| + 7
    ensures p[..|"lx(" + ctx.Scope() + "):"|] == "lx(" + ctx.Scope() + "):"
    ensures p[|p| - 4..] == ":0> "
  {
    var head := "lx(" + ctx.Scope() + "):";
    var num := ZeroPad3(Decimal(ctx.ExprNum()));
    assert Decimal(DefaultIndentation) == "0";
    var p := head + num + ":" + Decimal(DefaultIndentation) + "> ";
    assert p[..|head|] == head;
    assert p[|p| - 4..] == ":0> ";
    p
  }

  // ---------------------------------------------------------------------
  // Properties

  /** Leading zeros do not change the number a numeral denotes. */
  lemma {:induction false} LeadingZero(s: string)
    requires AllDigits(s)
    ensures AllDigits("0" + s) && Value("0" + s) == Value(s)
    decreases |s|
  {
    if s != [] {
      var init := s[..|s| - 1];
      LeadingZero(init);
      assert ("0" + s)[..|"0" + s| - 1] == "0" + init;
    }
  }

  lemma {:induction false} LeadingZeros(z: string, s: string)
    requires AllDigits(s) && forall k :: 0 <= k < |z| ==> z[k] == '0'
    ensures AllDigits(z + s) && Value(z + s) == Value(s)
    decreases |z|
  {
    if z != [] {
      LeadingZeros(z[1..], s);
      LeadingZero(z[1..] + s);
      assert z + s == "0" + (z[1..] + s);
    } else {
      assert z + s == s;
    }
  }

  /** Padding keeps the number a numeral denotes. */
  lemma PaddedValue(d: string)
    requires AllDigits(d)
    ensures Value(ZeroPad3(d)) == Value(d)
  {
    var p := ZeroPad3(d);
    assert p == p[..|p| - |d|] + d;
    LeadingZeros(p[..|p| - |d|], d);
  }

  lemma PromptParts(ctx: ReplContext)
    ensures Prompt(ctx) == "lx(" + ctx.scope + "):" + ZeroPad3(Decimal(ctx.exprNum)) + ":0> "
  {
    assert Decimal(DefaultIndentation) == "0";
  }

  lemma {:induction false} Slices(a: string, b: string, c: string)
    ensures var p := a + b + c;
      p[..|a|] == a && p[|a|..|p| - |c|] == b && p[|p| - |c|..] == c
  {
    var p := a + b + c;
    assert p[..|a|] == a;
    assert p[|a|..|p| - |c|] == b;
    assert p[|p| - |c|..] == c;
  }

  /** The prompt names the scope, then the expression number as a numeral of
      at least three digits that reads back as that number, then
      indentation 0. */
  lemma PromptShape(ctx: ReplContext)
    ensures var p := Prompt(ctx);
      var head := "lx(" + ctx.scope + "):";
      && |p| >= |head| + 3 + 4
      && p[..|head|] == head
      && p[|p| - 4..] == ":0> "
      && var digits := p[|head|..|p| - 4];
      && |digits| >= 3
      && AllDigits(digits)
      && Value(digits) == ctx.exprNum
      && (|digits| > 3 ==> digits[0] != '0')
  {
    var d := Decimal(ctx.exprNum);
    PromptParts(ctx);
    Slices("lx(" + ctx.scope + "):", ZeroPad3(d), ":0> ");
    PaddedValue(d);
  }

  /** The first prompt of a session. */
  lemma FirstPrompt()
    ensures Prompt(NewReplContext()) == "lx(main):001:0> "
  {
    assert Decimal(1) == "1";
    assert ZeroPad3("1") == "001";
  }

  /** `n` bumps in a row from a context. */
  function Bumped(ctx: ReplContext, n: nat): ReplContext
    decreases n
  {
    if n == 0 then ctx else Bumped(ctx, n - 1).BumpExprNum()
  }

  /** After `n` evaluated expressions the counter stands at `n + 1`, in the
      main scope, as long as it has not wrapped around. */
  lemma {:induction false} SessionCounter(n: nat)
    requires n + 1 < UintModulus
    ensures Bumped(NewReplContext(), n) == ReplContext(n + 1, "main")
    decreases n
  {
    if n > 0 {
      SessionCounter(n - 1);
    }
  }

  /** The counter wraps to 0 after the largest word. */
  lemma CounterWraps(scope: string)
    ensures ReplContext(UintModulus - 1, scope).BumpExprNum() == ReplContext(0, scope)
  {
  }
}

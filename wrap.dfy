/**
 * Word wrapping for the REPL screen, which wraps every line it draws and the
 * maths input before evaluating it: a text is cut into lines
 * of at most `width` bytes, each cut made at the last space that keeps the
 * line within the width (the space itself is dropped), or hard at the width
 * when there is no such space. A text is a sequence of bytes here, one
 * `char` per byte.
 */
module Wrap {

  /** The last index in 1..k holding a space, or 0 when there is none. */
  function LastSpace(text: string, k: nat): (r: nat)
    requires k < |text|
    ensures r <= k
    ensures r > 0 ==> text[r] == ' '
    ensures forall m :: r < m <= k ==> text[m] != ' '
    decreases k
  {
    if k == 0 then 0
    else if text[k] == ' ' then k
    else LastSpace(text, k - 1)
  }

  /** Where a text longer than the width is cut. */
  function SplitPoint(text: string, width: nat): (s: nat)
    requires 0 < width < |text|
    ensures 0 < s <= width
  {
    var k := LastSpace(text, width);
    if k == 0 then width else k
  }

  /** What is left after a cut: the text from the cut on, less one leading space. */
  function Remainder(text: string, s: nat): (rest: string)
    requires s <= |text|
    ensures |rest| <= |text| - s
  {
    var after := text[s..];
    if |after| > 0 && after[0] == ' ' then after[1..] else after
  }

  /** The lines of `text` for a positive width: no more lines than bytes,
      none of them empty, and none at all only for the empty text. */
  function Wrapped(text: string, width: nat): (r: seq<string>)
    requires width > 0
    ensures |r| <= |text|
    ensures r == [] <==> text == []
    ensures forall k :: 0 <= k < |r| ==> r[k] != []
    decreases |text|
  {
    if |text| > width then
      var s := SplitPoint(text, width);
      [text[..s]] + Wrapped(Remainder(text, s), width)
    else if |text| > 0 then [text]
    else []
  }

  /** The wrapping the command line applies: no wrapping at all for a width
      that is not positive. */
  function WrapSpec(text: string, width: int): (r: seq<string>)
    ensures r == [] <==> width > 0 && text == []
    ensures forall k :: 0 <= k < |r| ==> r[k] != [] || width <= 0
  {
    if width <= 0 then [text] else Wrapped(text, width)
  }

  /** One cut of a text longer than the width moves its first line to the
      lines already cut, and leaves the remainder to be wrapped. */
  lemma WrappedStep(lines: seq<string>, text: string, width: nat, s: nat, rest: string)
    requires 0 < width < |text| && s == SplitPoint(text, width)
    requires rest == Remainder(text, s)
    ensures lines + Wrapped(text, width) == (lines + [text[..s]]) + Wrapped(rest, width)
  {
  }

  /** Nothing or the last line is left once the text fits. */
  lemma WrappedEnd(lines: seq<string>, text: string, width: nat)
    requires 0 < width && |text| <= width
    ensures lines + Wrapped(text, width) == if |text| > 0 then lines + [text] else lines
  {
  }

  /** The scan back from the width to the last space, as the source's inner
      loop runs it; the hard cut at the width when there is none. */
  method ScanBack(text: string, width: nat) returns (splitAt: nat)
    requires 0 < width < |text|
    ensures splitAt == SplitPoint(text, width)
  {
    splitAt := width;
    while splitAt > 0 && text[splitAt] != ' '
      invariant 0 <= splitAt <= width
      invariant LastSpace(text, splitAt) == LastSpace(text, width)
      decreases splitAt
    {
      splitAt := splitAt - 1;
    }
    if splitAt == 0 {
      splitAt := width;
    }
  }

  /** The source's loop: cut lines off the front of the text while it is
      longer than the width. */
  method WrapText(text: string, width: int) returns (lines: seq<string>)
    ensures lines == WrapSpec(text, width)
  {
    if width <= 0 {
      return [text];
    }
    var w: nat := width;  // the width, positive from here on
    lines := [];
    var rest := text;
    ghost var whole := Wrapped(text, w);
    while |rest| > w
      invariant lines + Wrapped(rest, w) == whole
      decreases |rest|
    {
      var splitAt := ScanBack(rest, w);
      if splitAt >= |rest| {
        // cannot happen: the cut is at most the width
        assert false;
        break;
      }
      ghost var before := rest;
      var line := rest[..splitAt];
      rest := rest[splitAt..];
      if |rest| > 0 && rest[0] == ' ' {
        rest := rest[1..];
      }
      WrappedStep(lines, before, w, splitAt, rest);
      lines := lines + [line];
    }
    WrappedEnd(lines, rest, w);
    if |rest| > 0 {
      lines := lines + [rest];
    }
  }

  // ---------------------------------------------------------------------
  // Properties

  /** Every line is non-empty and fits the width. */
  lemma {:induction false} LinesFit(text: string, width: nat)
    requires width > 0
    ensures forall k :: 0 <= k < |Wrapped(text, width)| ==> 0 < |Wrapped(text, width)[k]| <= width
    decreases |text|
  {
    if |text| > width {
      LinesFit(Remainder(text, SplitPoint(text, width)), width);
    }
  }

  /** A text that fits is one line, or no line at all when it is empty;
      a width that is not positive leaves the text whole. */
  lemma ShortText(text: string, width: int)
    requires |text| <= width || width <= 0
    ensures WrapSpec(text, width) == if width <= 0 || |text| > 0 then [text] else []
  {
  }

  /** The first cut is at the last space within the width, the space is not
      part of either line, and only when there is no space there is the
      line cut hard at the width. */
  lemma FirstCut(text: string, width: nat)
    requires 0 < width < |text|
    ensures var s := SplitPoint(text, width);
      && Wrapped(text, width)[0] == text[..s]
      && (s < width || text[width] == ' ' || (forall m :: 0 < m <= width ==> text[m] != ' '))
      && (text[s] == ' ' <==> exists m :: 0 < m <= width && text[m] == ' ')
      && (forall m :: s < m <= width ==> text[m] != ' ')
  {
    var s := SplitPoint(text, width);
    if text[s] != ' ' {
      assert s == width && LastSpace(text, width) == 0;
    }
  }

  /** Whether a space was dropped after each line. */
  function Gaps(text: string, width: nat): seq<bool>
    requires width > 0
    decreases |text|
  {
    if |text| > width then
      var s := SplitPoint(text, width);
      [text[s] == ' '] + Gaps(Remainder(text, s), width)
    else if |text| > 0 then [false]
    else []
  }

  /** The lines joined again, with a space wherever one was dropped. */
  function Unwrap(lines: seq<string>, gaps: seq<bool>): string
    requires |lines| == |gaps|
    decreases |lines|
  {
    if lines == [] then ""
    else lines[0] + (if gaps[0] then " " else "") + Unwrap(lines[1..], gaps[1..])
  }

  lemma UnwrapCons(l: string, g: bool, ls: seq<string>, gs: seq<bool>)
    requires |ls| == |gs|
    ensures Unwrap([l] + ls, [g] + gs) == l + (if g then " " else "") + Unwrap(ls, gs)
  {
    assert ([l] + ls)[1..] == ls;
    assert ([g] + gs)[1..] == gs;
  }

  /** A text is its first line, the space dropped after it if any, and the remainder. */
  lemma CutParts(text: string, s: nat)
    requires 0 < s < |text|
    ensures text == text[..s] + (if text[s] == ' ' then " " else "") + Remainder(text, s)
  {
    if text[s] == ' ' {
      assert text == text[..s] + [text[s]] + text[s + 1..];
      assert text[s..][1..] == text[s + 1..];
    } else {
      assert text == text[..s] + text[s..];
    }
  }

  /** Wrapping loses nothing but the spaces it cuts at: putting them back
      between the lines gives the text again. */
  lemma {:induction false} UnwrapWrapped(text: string, width: nat)
    requires width > 0
    ensures |Gaps(text, width)| == |Wrapped(text, width)|
    ensures Unwrap(Wrapped(text, width), Gaps(text, width)) == text
    decreases |text|
  {
    if |text| > width {
      var s := SplitPoint(text, width);
      var rest := Remainder(text, s);
      UnwrapWrapped(rest, width);
      UnwrapCons(text[..s], text[s] == ' ', Wrapped(rest, width), Gaps(rest, width));
      CutParts(text, s);
    } else if |text| > 0 {
      UnwrapCons(text, false, [], []);
      assert text + "" + "" == text;
    }
  }

  // ---------------------------------------------------------------------
  // The smaller of two integers

  function Min(a: int, b: int): (m: int)
    ensures m <= a && m <= b
    ensures m == a || m == b
  {
    if a < b then a else b
  }
}

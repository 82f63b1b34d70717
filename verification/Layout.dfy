/**
 Print-UTF8's indented, centered and separator lines, and how wide they are on the console.

 wcwidth() is a parameter; it is negative for characters that cannot be printed.  Text that is not
 well-formed UTF-8 ends the program, which the methods report as `ok == false`.
 */
module Layout {
  import opened Bytes
  import opened OptionType
  import opened Utf8
  import opened AnsiFilter

  const SPACE: Byte := 32

  type WidthOf = Scalar -> int

  /** wcswidth(): the sum of the widths, or -1 if a character cannot be printed. */
  function WcsWidth(cs: seq<Scalar>, w: WidthOf): int {
    if cs == [] then 0
    else
      var rest := WcsWidth(cs[1..], w);
      if w(cs[0]) < 0 || rest < 0 then -1 else w(cs[0]) + rest
  }

  /** The width of a text without its ANSI sequences; None if it cannot be decoded. */
  function WideWidth(s: Text, w: WidthOf): Option<int> {
    match Decode(Filter(false, s))
    case None => None
    case Some(cs) => Some(WcsWidth(cs, w))
  }

  function AtLeastZero(n: int): nat {
    if n < 0 then 0 else n
  }

  function Max(a: int, b: int): int {
    if a < b then b else a
  }

  /** stringwidth() */
  function StringWidth(s: Text, w: WidthOf): Option<nat> {
    match WideWidth(s, w)
    case None => None
    case Some(n) => Some(AtLeastZero(n))
  }

  function Spaces(n: int): Text {
    seq(AtLeastZero(n), _ => SPACE)
  }

  /** C's division by two. */
  function Half(n: int): int {
    if n < 0 then -(-n / 2) else n / 2
  }

  // ---- What is printed ----

  function IndentedText(s: Text, width: nat, totalIndent: int): Text {
    (if totalIndent > 0 then Spaces(totalIndent - width) else [])
    + s
    + (if totalIndent < 0 then Spaces(-totalIndent - width) else [])
  }

  function CenteredText(s: Text, width: nat, consoleWidth: int, padding: bool): Text {
    var additional := consoleWidth - width;
    Spaces(Half(additional)) + s + (if padding then Spaces(additional - Half(additional)) else [])
  }

  function Repeat(s: Text, n: nat): Text {
    if n == 0 then [] else Repeat(s, n - 1) + s
  }

  lemma RepeatMore(s: Text, n: nat)
    ensures Repeat(s, 0) == [] && Repeat(s, n + 1) == Repeat(s, n) + s
  {}

  lemma OneMore(n: nat, width: nat)
    ensures (n + 1) * width == n * width + width
  {}

  /** What fills a separator line: the separator or, if it has no width, spaces. */
  function Filling(separator: Text, w: WidthOf): (Text, nat)
    requires StringWidth(separator, w).Some?
  {
    var n := StringWidth(separator, w).value;
    if n < 1 then ([SPACE], 1) else (separator, n)
  }

  datatype Mode = MultiLineIndent | MultiLineCenter

  /** What the borders leave of the console; a border that cannot be printed counts as empty. */
  function InnerWidth(w: WidthOf, left: Text, right: Text, consoleWidth: int): int
    requires WideWidth(left, w).Some? && WideWidth(right, w).Some?
  {
    consoleWidth - AtLeastZero(WideWidth(left, w).value) - AtLeastZero(WideWidth(right, w).value)
  }

  /** A line of multi-line mode; None if a part of it that is measured cannot be decoded. */
  function Line(w: WidthOf, left: Text, right: Text, consoleWidth: int, indentWidth: int, mode: Mode, s: Text): Option<Text>
    requires WideWidth(left, w).Some? && WideWidth(right, w).Some?
  {
    var inner := InnerWidth(w, left, right, consoleWidth);
    if mode.MultiLineIndent? && indentWidth == 0 then Some(left + s + right)
    else
      match StringWidth(s, w)
      case None => None
      case Some(n) =>
        Some(left + (if mode.MultiLineIndent? then IndentedText(s, n, indentWidth) else CenteredText(s, n, inner, true)) + right)
  }

  /** All lines, with a newline between them but not at the end. */
  function AllLines(w: WidthOf, left: Text, right: Text, consoleWidth: int, indentWidth: int, mode: Mode, lines: seq<Text>): Option<Text>
    requires WideWidth(left, w).Some? && WideWidth(right, w).Some?
  {
    if lines == [] then Some([])
    else
      var n := |lines| - 1;
      match (AllLines(w, left, right, consoleWidth, indentWidth, mode, lines[..n]),
             Line(w, left, right, consoleWidth, indentWidth, mode, lines[n]))
      case (Some(before), Some(line)) => Some(before + (if n > 0 then [NEWLINE] else []) + line)
      case _ => None
  }

  lemma AllLinesSnoc(w: WidthOf, left: Text, right: Text, consoleWidth: int, indentWidth: int, mode: Mode, lines: seq<Text>, i: nat)
    requires WideWidth(left, w).Some? && WideWidth(right, w).Some? && i < |lines|
    ensures var before := AllLines(w, left, right, consoleWidth, indentWidth, mode, lines[..i]);
            var line := Line(w, left, right, consoleWidth, indentWidth, mode, lines[i]);
            AllLines(w, left, right, consoleWidth, indentWidth, mode, lines[..i + 1]) ==
            if before.None? || line.None? then None
            else Some(before.value + (if i > 0 then [NEWLINE] else []) + line.value)
  {
    hide Line, WideWidth;
    assert lines[..i + 1][..i] == lines[..i];
  }

  lemma NoLines(w: WidthOf, left: Text, right: Text, consoleWidth: int, indentWidth: int, mode: Mode)
    requires WideWidth(left, w).Some? && WideWidth(right, w).Some?
    ensures AllLines(w, left, right, consoleWidth, indentWidth, mode, []) == Some([])
  {}

  lemma {:induction false} LaterLinesDoNotHelp(w: WidthOf, left: Text, right: Text, consoleWidth: int, indentWidth: int,
                                               mode: Mode, lines: seq<Text>, i: nat)
    requires WideWidth(left, w).Some? && WideWidth(right, w).Some? && i <= |lines|
    requires AllLines(w, left, right, consoleWidth, indentWidth, mode, lines[..i]).None?
    ensures AllLines(w, left, right, consoleWidth, indentWidth, mode, lines).None?
    decreases |lines| - i
  {
    if i == |lines| {
      assert lines[..i] == lines;
    } else {
      hide AllLines, Line, WideWidth;
      AllLinesSnoc(w, left, right, consoleWidth, indentWidth, mode, lines, i);
      LaterLinesDoNotHelp(w, left, right, consoleWidth, indentWidth, mode, lines, i + 1);
    }
  }

  // ---- Printing ----

  class Printer {
    const w: WidthOf
    var out: Text

    constructor (width: WidthOf)
      ensures w == width && out == []
    {
      w, out := width, [];
    }

    method Indent(indentWidth: int)
      modifies this
      ensures out == old(out) + Spaces(indentWidth)
    {
      if indentWidth > 0 {
        var indentString := new Byte[indentWidth + 1];
        for i := 0 to indentWidth
          invariant out == old(out)
          invariant forall k :: 0 <= k < i ==> indentString[k] == SPACE
        {
          indentString[i] := SPACE;
        }
        indentString[indentWidth] := NUL;
        assert indentString[..indentWidth] == Spaces(indentWidth);
        out := out + indentString[..indentWidth];
      } else {
        assert out == out + Spaces(indentWidth);
      }
    }

    /** convertToWideStringWithoutANSI() and wcswidth() */
    method Measure(s: Text) returns (r: Option<int>)
      ensures r == WideWidth(s, w)
    {
      var buffer, length := RemoveAnsi(s, true);
      match Decode(buffer[..length]) {
        case None => r := None;
        case Some(cs) => r := Some(WcsWidth(cs, w));
      }
    }

    method Indented(s: Text, totalIndent: int) returns (ok: bool)
      modifies this
      ensures ok == (totalIndent == 0 || StringWidth(s, w).Some?)
      ensures ok ==> out == old(out) + IndentedText(s, if totalIndent == 0 then 0 else StringWidth(s, w).value, totalIndent)
    {
      hide Decode, Filter, WcsWidth, WideWidth, Spaces;
      if totalIndent > 0 {
        var width := Measure(s);
        if width.None? {
          return false;
        }
        Indent(totalIndent - AtLeastZero(width.value));
      }
      out := out + s;
      if totalIndent < 0 {
        var width := Measure(s);
        if width.None? {
          return false;
        }
        Indent(-totalIndent - AtLeastZero(width.value));
      }
      return true;
    }

    method Centered(s: Text, consoleWidth: int, padding: bool) returns (ok: bool)
      modifies this
      ensures ok == StringWidth(s, w).Some?
      ensures ok ==> out == old(out) + CenteredText(s, StringWidth(s, w).value, consoleWidth, padding)
    {
      hide Decode, Filter, WcsWidth, WideWidth, Spaces;
      var width := Measure(s);
      if width.None? {
        return false;
      }
      var additionalSpacing := consoleWidth - AtLeastZero(width.value);
      var indentation := Half(additionalSpacing);
      Indent(indentation);
      out := out + s;
      if padding {
        Indent(additionalSpacing - indentation);
      }
      return true;
    }

    /** Prints as many copies as fit between the borders. */
    method Fill(fill: Text, width: nat, borders: int, consoleWidth: int) returns (ghost copies: nat)
      requires width > 0
      modifies this
      ensures out == old(out) + Repeat(fill, copies)
      ensures copies > 0 ==> borders + copies * width <= consoleWidth
      ensures consoleWidth < borders + (copies + 1) * width
    {
      hide Repeat;
      var i := borders;
      copies := 0;
      RepeatMore(fill, 0);
      OneMore(0, width);
      while i + width <= consoleWidth
        invariant out == old(out) + Repeat(fill, copies)
        invariant i == borders + copies * width
        invariant copies > 0 ==> i <= consoleWidth
        decreases consoleWidth - i
      {
        RepeatMore(fill, copies);
        OneMore(copies, width);
        out := out + fill;
        i := i + width;
        copies := copies + 1;
      }
      OneMore(copies, width);
    }

    method Separator(left: Text, separator: Text, right: Text, consoleWidth: int) returns (ok: bool, ghost copies: nat)
      modifies this
      ensures ok == (StringWidth(left, w).Some? && StringWidth(separator, w).Some? && StringWidth(right, w).Some?)
      ensures ok ==>
                var borders := StringWidth(left, w).value + StringWidth(right, w).value;
                var filling := Filling(separator, w);
                && out == old(out) + left + Repeat(filling.0, copies) + right
                && (copies > 0 ==> borders + copies * filling.1 <= consoleWidth)
                && consoleWidth < borders + (copies + 1) * filling.1
    {
      hide Repeat, WideWidth;
      copies := 0;
      var leftWidth := Measure(left);
      var rightWidth := Measure(right);
      var width := Measure(separator);
      if leftWidth.None? || rightWidth.None? || width.None? {
        return false, copies;
      }
      var fill, fillWidth := separator, AtLeastZero(width.value);
      if fillWidth < 1 {
        fill, fillWidth := [SPACE], 1;
      }
      out := out + left;
      copies := Fill(fill, fillWidth, AtLeastZero(leftWidth.value) + AtLeastZero(rightWidth.value), consoleWidth);
      out := out + right;
      return true, copies;
    }

    method PrintLine(left: Text, right: Text, consoleWidth: int, inner: int, indentWidth: int, mode: Mode, s: Text)
      returns (ok: bool)
      requires WideWidth(left, w).Some? && WideWidth(right, w).Some?
      requires inner == InnerWidth(w, left, right, consoleWidth)
      modifies this
      ensures ok == Line(w, left, right, consoleWidth, indentWidth, mode, s).Some?
      ensures ok ==> out == old(out) + Line(w, left, right, consoleWidth, indentWidth, mode, s).value
    {
      hide Spaces, WideWidth, CenteredText, Decode, Filter, WcsWidth;
      out := out + left;
      if mode == MultiLineIndent {
        ok := Indented(s, indentWidth);
        assert indentWidth == 0 ==> IndentedText(s, 0, 0) == s;
      } else {
        ok := Centered(s, inner, true);
      }
      out := out + right;
    }

    method PrintLines(left: Text, right: Text, consoleWidth: int, inner: int, indentWidth: int, mode: Mode, lines: seq<Text>)
      returns (ok: bool)
      requires WideWidth(left, w).Some? && WideWidth(right, w).Some?
      requires inner == InnerWidth(w, left, right, consoleWidth)
      modifies this
      ensures ok == AllLines(w, left, right, consoleWidth, indentWidth, mode, lines).Some?
      ensures ok ==> out == old(out) + AllLines(w, left, right, consoleWidth, indentWidth, mode, lines).value
    {
      hide Line, AllLines, WideWidth, InnerWidth;
      NoLines(w, left, right, consoleWidth, indentWidth, mode);
      assert lines[..0] == [];
      for i := 0 to |lines|
        invariant var before := AllLines(w, left, right, consoleWidth, indentWidth, mode, lines[..i]);
                  before.Some? && out == old(out) + before.value + (if 0 < i < |lines| then [NEWLINE] else [])
      {
        AllLinesSnoc(w, left, right, consoleWidth, indentWidth, mode, lines, i);
        ok := PrintLine(left, right, consoleWidth, inner, indentWidth, mode, lines[i]);
        if !ok {
          LaterLinesDoNotHelp(w, left, right, consoleWidth, indentWidth, mode, lines, i + 1);
          return false;
        }
        if i + 1 < |lines| {
          out := out + [NEWLINE];
        }
      }
      assert lines[..|lines|] == lines;
      return true;
    }

    method MultiLine(left: Text, right: Text, consoleWidth: int, indentWidth: int, mode: Mode, lines: seq<Text>)
      returns (ok: bool)
      modifies this
      ensures ok == (&& WideWidth(left, w).Some? && WideWidth(right, w).Some?
                     && AllLines(w, left, right, consoleWidth, indentWidth, mode, lines).Some?)
      ensures ok ==> out == old(out) + AllLines(w, left, right, consoleWidth, indentWidth, mode, lines).value
    {
      var inner := consoleWidth;
      var leftWidth := Measure(left);
      if leftWidth.None? {
        return false;
      }
      if leftWidth.value > 0 {
        inner := inner - leftWidth.value;
      }
      var rightWidth := Measure(right);
      if rightWidth.None? {
        return false;
      }
      if rightWidth.value > 0 {
        inner := inner - rightWidth.value;
      }
      ok := PrintLines(left, right, consoleWidth, inner, indentWidth, mode, lines);
    }
  }
}

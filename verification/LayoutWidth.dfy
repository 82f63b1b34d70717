/**
 How wide printed lines are, measured over the whole line with the same filter, decoder and
 wcswidth() that computed the padding.
 */
module LayoutWidth {
  import opened Bytes
  import opened OptionType
  import opened Utf8
  import opened AnsiFilter
  import opened Layout

  /** The characters of a text that are not part of ANSI sequences. */
  function Visible(s: Text): Option<seq<Scalar>> {
    Decode(Filter(false, s))
  }

  /** A text that ends outside an ANSI sequence and whose characters can all be printed. */
  predicate Measurable(s: Text, w: WidthOf) {
    !InsideAfter(false, s) && Visible(s).Some? && WcsWidth(Visible(s).value, w) >= 0
  }

  lemma {:induction false} WcsWidthConcat(a: seq<Scalar>, b: seq<Scalar>, w: WidthOf)
    requires WcsWidth(a, w) >= 0 && WcsWidth(b, w) >= 0
    ensures WcsWidth(a + b, w) == WcsWidth(a, w) + WcsWidth(b, w)
  {
    if a == [] {
      assert a + b == b;
    } else {
      assert (a + b)[0] == a[0] && (a + b)[1..] == a[1..] + b;
      WcsWidthConcat(a[1..], b, w);
    }
  }

  lemma MeasurableWidth(s: Text, w: WidthOf)
    requires Measurable(s, w)
    ensures StringWidth(s, w).Some? && WideWidth(s, w) == Some(StringWidth(s, w).value)
  {}

  /** Measurable parts add up. */
  lemma WidthsAdd(a: Text, b: Text, w: WidthOf)
    requires Measurable(a, w) && Measurable(b, w)
    ensures Measurable(a + b, w)
    ensures StringWidth(a + b, w) == Some(StringWidth(a, w).value + StringWidth(b, w).value)
  {
    hide Filter, InsideAfter, Decode, WcsWidth;
    FilterConcat(false, a, b);
    DecodeConcat(Filter(false, a), Filter(false, b));
    WcsWidthConcat(Visible(a).value, Visible(b).value, w);
  }

  lemma {:induction false} SpacesEncoded(n: nat, w: WidthOf)
    requires w(SPACE) == 1
    ensures Spaces(n) == EncodeAll(seq(n, _ => SPACE))
    ensures WcsWidth(seq(n, _ => SPACE), w) == n
  {
    if n > 0 {
      var cs: seq<Scalar> := seq(n, _ => SPACE);
      assert cs[1..] == seq(n - 1, _ => SPACE) && Spaces(n)[1..] == Spaces(n - 1);
      SpacesEncoded(n - 1, w);
      assert Encode(SPACE) == [SPACE];
      assert Spaces(n) == [SPACE] + Spaces(n)[1..];
    }
  }

  lemma SpacesWidth(n: int, w: WidthOf)
    requires w(SPACE) == 1
    ensures Measurable(Spaces(n), w) && StringWidth(Spaces(n), w) == Some(AtLeastZero(n))
  {
    var k := AtLeastZero(n);
    SpacesEncoded(k, w);
    assert Spaces(n) == Spaces(k);
    FilterWithoutEsc(Spaces(k));
    DecodeEncoded(seq(k, _ => SPACE));
  }

  lemma WidthsAddThree(a: Text, b: Text, c: Text, w: WidthOf)
    requires Measurable(a, w) && Measurable(b, w) && Measurable(c, w)
    ensures Measurable(a + b + c, w)
    ensures StringWidth(a + b + c, w).value ==
            StringWidth(a, w).value + StringWidth(b, w).value + StringWidth(c, w).value
  {
    WidthsAdd(a, b, w);
    WidthsAdd(a + b, c, w);
  }

  /** Padding is exact: an indented text is as wide as the indentation asks for, unless it is wider itself. */
  lemma IndentedWidth(s: Text, totalIndent: int, w: WidthOf)
    requires w(SPACE) == 1 && Measurable(s, w)
    ensures var width := StringWidth(s, w).value;
            var text := IndentedText(s, width, totalIndent);
            Measurable(text, w) && StringWidth(text, w).value == Max(if totalIndent < 0 then -totalIndent else totalIndent, width)
  {
    hide Measurable, StringWidth, Spaces;
    MeasurableWidth(s, w);
    var width := StringWidth(s, w).value;
    SpacesWidth(0, w);
    SpacesWidth(totalIndent - width, w);
    SpacesWidth(-totalIndent - width, w);
    NoSpaces();
    WidthsAddThree(if totalIndent > 0 then Spaces(totalIndent - width) else [], s,
                   if totalIndent < 0 then Spaces(-totalIndent - width) else [], w);
  }

  lemma NoSpaces()
    ensures Spaces(0) == []
  {}

  lemma CenteredWidth(s: Text, consoleWidth: int, w: WidthOf)
    requires w(SPACE) == 1 && Measurable(s, w)
    ensures var width := StringWidth(s, w).value;
            var text := CenteredText(s, width, consoleWidth, true);
            Measurable(text, w) && StringWidth(text, w).value == Max(consoleWidth, width)
  {
    hide Measurable, StringWidth, Spaces;
    MeasurableWidth(s, w);
    var additional := consoleWidth - StringWidth(s, w).value;
    SpacesWidth(Half(additional), w);
    SpacesWidth(additional - Half(additional), w);
    WidthsAddThree(Spaces(Half(additional)), s, Spaces(additional - Half(additional)), w);
  }

  /**
   The width of a whole line of multi-line mode: the console's for a centered line, the indentation
   and both borders for an indented one, and more only if the text does not fit.
   */
  lemma LineWidth(w: WidthOf, left: Text, right: Text, consoleWidth: int, indentWidth: int, mode: Mode, s: Text)
    requires w(SPACE) == 1 && Measurable(left, w) && Measurable(right, w) && Measurable(s, w)
    ensures WideWidth(left, w).Some? && WideWidth(right, w).Some?
    ensures var line := Line(w, left, right, consoleWidth, indentWidth, mode, s);
            var l, r, n := StringWidth(left, w).value, StringWidth(right, w).value, StringWidth(s, w).value;
            && line.Some? && Measurable(line.value, w)
            && StringWidth(line.value, w).value ==
               if mode.MultiLineCenter? then Max(consoleWidth, l + n + r)
               else l + Max(if indentWidth < 0 then -indentWidth else indentWidth, n) + r
  {
    hide Measurable, StringWidth, IndentedText, CenteredText, WideWidth;
    MeasurableWidth(left, w);
    MeasurableWidth(right, w);
    MeasurableWidth(s, w);
    var n := StringWidth(s, w).value;
    var inner := InnerWidth(w, left, right, consoleWidth);
    if mode.MultiLineCenter? {
      CenteredWidth(s, inner, w);
      WidthsAddThree(left, CenteredText(s, n, inner, true), right, w);
    } else {
      IndentedWidth(s, indentWidth, w);
      NotIndented(s, n);
      WidthsAddThree(left, IndentedText(s, n, indentWidth), right, w);
    }
  }

  lemma NotIndented(s: Text, width: nat)
    ensures IndentedText(s, width, 0) == s
  {}

  lemma NothingWidth(w: WidthOf)
    ensures Measurable([], w) && StringWidth([], w) == Some(0)
  {}

  lemma {:induction false} RepeatWidth(s: Text, n: nat, w: WidthOf)
    requires Measurable(s, w)
    ensures Measurable(Repeat(s, n), w) && StringWidth(Repeat(s, n), w).value == n * StringWidth(s, w).value
  {
    hide Measurable, StringWidth, Decode, Filter, WcsWidth;
    if n == 0 {
      NothingWidth(w);
    } else {
      RepeatWidth(s, n - 1, w);
      MeasurableWidth(s, w);
      WidthsAdd(Repeat(s, n - 1), s, w);
      OneMore(n - 1, StringWidth(s, w).value);
    }
  }

  lemma OneSpace()
    ensures Spaces(1) == [SPACE]
  {}

  lemma FillingWidth(separator: Text, w: WidthOf)
    requires w(SPACE) == 1 && Measurable(separator, w)
    ensures StringWidth(separator, w).Some?
    ensures var (fill, width) := Filling(separator, w);
            Measurable(fill, w) && StringWidth(fill, w) == Some(width) && width > 0
  {
    hide Measurable, StringWidth, Spaces;
    MeasurableWidth(separator, w);
    SpacesWidth(1, w);
    OneSpace();
  }

  /**
   A separator whose borders fit is as wide as the console allows: not wider, and one more copy of
   the separator would be too wide.  If the borders do not fit, they are all there is.
   */
  lemma SeparatorWidth(w: WidthOf, left: Text, separator: Text, right: Text, consoleWidth: int, copies: nat)
    requires w(SPACE) == 1 && Measurable(left, w) && Measurable(separator, w) && Measurable(right, w)
    requires var borders := StringWidth(left, w).value + StringWidth(right, w).value;
             var width := Filling(separator, w).1;
             && (copies > 0 ==> borders + copies * width <= consoleWidth)
             && consoleWidth < borders + (copies + 1) * width
    ensures var borders := StringWidth(left, w).value + StringWidth(right, w).value;
            var line := left + Repeat(Filling(separator, w).0, copies) + right;
            && Measurable(line, w)
            && (borders <= consoleWidth ==>
                  StringWidth(line, w).value <= consoleWidth < StringWidth(line, w).value + Filling(separator, w).1)
            && (consoleWidth < borders ==> StringWidth(line, w).value == borders)
  {
    hide Measurable, StringWidth, Filling, Repeat;
    FillingWidth(separator, w);
    var (fill, width) := Filling(separator, w);
    RepeatWidth(fill, copies, w);
    WidthsAddThree(left, Repeat(fill, copies), right, w);
    OneMore(copies, width);
  }

  // ---- Where the padding goes ----

  lemma PaddingIsSpaces(n: int)
    ensures Spaces(n) == seq(AtLeastZero(n), _ => 32)
  {}

  /**
   Multi-line indent with a positive indentation pads in front of the text, with a negative one behind
   it; multi-line center pads on both sides, with the odd column behind the text.  The borders are
   outside the padding.
   */
  lemma LineWritten(w: WidthOf, left: Text, right: Text, consoleWidth: int, indentWidth: int, s: Text)
    requires StringWidth(left, w).Some? && StringWidth(right, w).Some? && StringWidth(s, w).Some?
    ensures WideWidth(left, w).Some? && WideWidth(right, w).Some?
    ensures var n := StringWidth(s, w).value;
            var pad := AtLeastZero((if indentWidth < 0 then -indentWidth else indentWidth) - n);
            Line(w, left, right, consoleWidth, indentWidth, MultiLineIndent, s) ==
            Some(if indentWidth > 0 then left + (seq(pad, _ => 32) + s) + right
                 else if indentWidth < 0 then left + (s + seq(pad, _ => 32)) + right
                 else left + s + right)
    ensures var n := StringWidth(s, w).value;
            var pad := AtLeastZero(consoleWidth - StringWidth(left, w).value - StringWidth(right, w).value - n);
            Line(w, left, right, consoleWidth, indentWidth, MultiLineCenter, s) ==
            Some(left + (seq(pad / 2, _ => 32) + s + seq(pad - pad / 2, _ => 32)) + right)
  {
    hide Decode, Filter, WcsWidth;
    var n := StringWidth(s, w).value;
    assert [] + s + Spaces(-indentWidth - n) == s + Spaces(-indentWidth - n);
    assert Spaces(indentWidth - n) + s + [] == Spaces(indentWidth - n) + s;
  }

  /** A single line: padding in front or behind, or half of it in front; behind a centered text only if asked for. */
  lemma PaddingWritten(s: Text, width: nat, n: nat, consoleWidth: int)
    ensures var pad := if n < width then 0 else n - width;
            && IndentedText(s, width, n) == seq(pad, _ => 32) + s
            && IndentedText(s, width, 0 - n) == s + seq(pad, _ => 32)
    ensures var pad := AtLeastZero(consoleWidth - width);
            && CenteredText(s, width, consoleWidth, false) == seq(pad / 2, _ => 32) + s
            && CenteredText(s, width, consoleWidth, true) == seq(pad / 2, _ => 32) + s + seq(pad - pad / 2, _ => 32)
  {}

  /** A separator line is filled with the separator, or with spaces if the separator has no width. */
  lemma FillingWritten(separator: Text, w: WidthOf)
    requires StringWidth(separator, w).Some?
    ensures StringWidth(separator, w).value >= 1 ==> Filling(separator, w) == (separator, StringWidth(separator, w).value)
    ensures StringWidth(separator, w).value == 0 ==> Filling(separator, w) == ([32], 1)
  {
    hide Decode, Filter, WcsWidth;
  }

  /** One character is as wide as wcwidth() says; a text with one that cannot be printed has no width. */
  lemma {:induction false} WidthOfCharacters(a: seq<Scalar>, c: Scalar, b: seq<Scalar>, w: WidthOf)
    ensures WcsWidth([c], w) == (if w(c) < 0 then -1 else w(c)) && WcsWidth([], w) == 0
    ensures w(c) < 0 ==> WcsWidth(a + [c] + b, w) == -1
  {
    assert WcsWidth([c][1..], w) == 0;
    if a == [] {
      assert (a + [c] + b)[0] == c;
    } else {
      assert (a + [c] + b)[1..] == a[1..] + [c] + b && (a + [c] + b)[0] == a[0];
      WidthOfCharacters(a[1..], c, b, w);
    }
  }

  /** A text is as wide as its visible characters; one that cannot be printed makes it 0 columns wide. */
  lemma TextWidth(s: Text, cs: seq<Scalar>, i: nat, w: WidthOf)
    requires i < |cs|
    ensures var before, c, behind := WcsWidth(cs[..i], w), w(cs[i]), WcsWidth(cs[i + 1..], w);
            Visible(s) == Some(cs) ==>
              && (c < 0 ==> StringWidth(s, w) == Some(0))
              && (before >= 0 && c >= 0 && behind >= 0 ==> StringWidth(s, w) == Some(before + c + behind))
  {
    hide Decode, Filter, WcsWidth;
    var a, c, b := cs[..i], cs[i], cs[i + 1..];
    assert cs == a + [c] + b;
    WidthOfCharacters(a, c, b, w);
    if WcsWidth(a, w) >= 0 && w(c) >= 0 && WcsWidth(b, w) >= 0 {
      WcsWidthConcat(a, [c], w);
      WcsWidthConcat(a + [c], b, w);
    }
  }

  /** Lines are printed one after the other with a newline between them. */
  lemma LinesWritten(w: WidthOf, left: Text, right: Text, consoleWidth: int, indentWidth: int, mode: Mode, lines: seq<Text>, s: Text)
    requires WideWidth(left, w).Some? && WideWidth(right, w).Some?
    requires AllLines(w, left, right, consoleWidth, indentWidth, mode, lines).Some?
    requires Line(w, left, right, consoleWidth, indentWidth, mode, s).Some?
    ensures AllLines(w, left, right, consoleWidth, indentWidth, mode, lines + [s]) ==
            Some(AllLines(w, left, right, consoleWidth, indentWidth, mode, lines).value + (if lines == [] then [] else [10])
                 + Line(w, left, right, consoleWidth, indentWidth, mode, s).value)
  {
    hide Line, WideWidth, AllLines;
    AllLinesSnoc(w, left, right, consoleWidth, indentWidth, mode, lines + [s], |lines|);
    assert (lines + [s])[..|lines|] == lines && (lines + [s])[..|lines| + 1] == lines + [s];
  }
}

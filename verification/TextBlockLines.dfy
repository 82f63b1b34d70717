/**
 The two line-wise ways of marking, characterised without tag positions or loops: full tag lines as
 a fold that asks of every line only whether it contains the tag sought, and the line selection as
 one block of whole lines.
 */
module TextBlockLines {
  import opened Bytes
  import opened Sequences
  import opened TextBlockModel
  import opened TextBlockRun
  import opened TextBlockTape

  predicate Contains(line: Text, tag: Text) {
    StrStr(line, tag).Some?
  }

  // ---- Full tag lines ----

  /**
   With included tags, a line with the begin tag is the first line of a block and the next line with
   the end tag the last; with excluded tags, the block is what lies between these lines.  Equal tags
   make a line with the tag a block of its own, or an empty block behind it.
   */
  function FullLinesTape(m: Marking, lines: seq<Text>, open: bool): Tape
    decreases |lines|
  {
    if lines == [] then (if open then [Leave] else [])
    else FullLineTape(m, lines[0], open) + FullLinesTape(m, lines[1..], OpenAfter(m, lines[0], open))
  }

  function TagSought(m: Marking, open: bool): Text {
    if open then m.endTag else m.beginTag
  }

  function FullLineTape(m: Marking, line: Text, open: bool): Tape {
    if !Contains(line, TagSought(m, open)) then Items(line, open)
    else if m.EqualTags() then
      if m.includeTags then [Enter] + Items(line, true) + [Leave] else Items(line, false) + [Enter, Leave]
    else if !open then
      if m.includeTags then [Enter] + Items(line, true) else Items(line, false) + [Enter]
    else
      if m.includeTags then Items(line, true) + [Leave] else [Leave] + Items(line, false)
  }

  predicate OpenAfter(m: Marking, line: Text, open: bool) {
    if Contains(line, TagSought(m, open)) then !m.EqualTags() && !open else open
  }

  lemma UnmarkedTape(text: Text, begins: bool, lineNo: nat)
    ensures TapeOf([Unmarked(text, begins, lineNo)]) == Items(text, false) + (if begins then [Enter] else [])
  {}

  lemma MarkedTape(text: Text, ends: bool)
    ensures TapeOf([Marked(text, ends)]) == Items(text, true) + (if ends then [Leave] else [])
  {}

  lemma FullLineWithoutTag(m: Marking, line: Text, lineNo: nat, marker: Text)
    requires m.Normalised() && m.Tagged() && Sought(m, marker) && m.fullTagLines && !Contains(line, marker)
    ensures var s := TaggedLine(m, line, lineNo, marker);
            TapeOf(s.calls) == FullLineTape(m, line, TagOpen(m, marker)) && s.marker == marker
  {
    assert line[0..] == line;
    if TagOpen(m, marker) {
      MarkedTape(line, false);
      assert TaggedLine(m, line, lineNo, marker).calls == [Marked(line, false)];
    } else {
      UnmarkedTape(line, false, lineNo);
      assert TaggedLine(m, line, lineNo, marker).calls == [Unmarked(line, false, lineNo)];
    }
  }

  /** A border with no text of its own, then a text. */
  lemma EntersFirst(a: Text, lineNo: nat)
    ensures TapeOf([Unmarked([], true, lineNo), Marked(a, false)]) == [Enter] + Items(a, true)
  {
    hide TapeOf, Items;
    TapeTwo(Unmarked([], true, lineNo), Marked(a, false));
    EmptyTapes();
  }

  lemma LeavesFirst(a: Text, lineNo: nat)
    ensures TapeOf([Marked([], true), Unmarked(a, false, lineNo)]) == [Leave] + Items(a, false)
  {
    hide TapeOf, Items;
    TapeTwo(Marked([], true), Unmarked(a, false, lineNo));
    EmptyTapes();
  }

  lemma IncludedLineTape(a: Text, b: Text, open: bool, ends: bool, lineNo: nat)
    ensures var first := if open then [Marked(a, false)] else [Unmarked([], true, lineNo), Marked(a, false)];
            TapeOf(first + [Marked(b, ends)]) ==
            (if open then [] else [Enter]) + Items(a + b, true) + (if ends then [Leave] else [])
  {
    hide TapeOf, CallTape, Items;
    var first := if open then [Marked(a, false)] else [Unmarked([], true, lineNo), Marked(a, false)];
    TapeConcat(first, [Marked(b, ends)]);
    EntersFirst(a, lineNo);
    MarkedTape(a, false);
    MarkedTape(b, ends);
    ItemsConcat(a, b, true);
    InTurn(if open then [] else [Enter], Items(a, true), Items(b, true), if ends then [Leave] else []);
  }

  lemma InTurn(a: Tape, b: Tape, c: Tape, d: Tape)
    ensures (a + b) + (c + d) == a + (b + c) + d
    ensures b + [] == b == [] + b
  {}

  lemma ExcludedLineTape(a: Text, b: Text, open: bool, begins: bool, lineNo: nat)
    ensures var first := if open then [Marked([], true), Unmarked(a, false, lineNo)] else [Unmarked(a, false, lineNo)];
            TapeOf(first + [Unmarked(b, begins, lineNo)]) ==
            (if open then [Leave] else []) + Items(a + b, false) + (if begins then [Enter] else [])
  {
    hide TapeOf, CallTape, Items;
    var first := if open then [Marked([], true), Unmarked(a, false, lineNo)] else [Unmarked(a, false, lineNo)];
    TapeConcat(first, [Unmarked(b, begins, lineNo)]);
    LeavesFirst(a, lineNo);
    UnmarkedTape(a, false, lineNo);
    UnmarkedTape(b, begins, lineNo);
    ItemsConcat(a, b, false);
    InTurn(if open then [Leave] else [], Items(a, false), Items(b, false), if begins then [Enter] else []);
  }

  /** The calls for a line with the tag that is sought, of which `past` bytes end with the tag. */
  lemma FullLineCalls(m: Marking, line: Text, lineNo: nat, marker: Text, past: nat)
    requires m.Normalised() && m.Tagged() && Sought(m, marker) && m.fullTagLines && Contains(line, marker)
    requires past == StrStr(line, marker).value + |marker| <= |line|
    ensures var s, open, a, b := TaggedLine(m, line, lineNo, marker), TagOpen(m, marker), line[..past], line[past..];
            && s.marker == (if open then m.beginTag else m.endTag)
            && s.calls ==
                 if m.includeTags then
                   (if open then [Marked(a, false)] else [Unmarked([], true, lineNo), Marked(a, false)])
                   + [Marked(b, s.marker == m.beginTag)]
                 else
                   (if open then [Marked([], true), Unmarked(a, false, lineNo)] else [Unmarked(a, false, lineNo)])
                   + (if m.EqualTags() then [Unmarked(b, true, lineNo), Marked([], true)]
                      else [Unmarked(b, !open, lineNo)])
  {
    hide StrStr;
    assert line[0..] == line && line[0..past] == line[..past];
  }

  lemma FullLineMarker(m: Marking, line: Text, lineNo: nat, marker: Text)
    requires m.Normalised() && m.Tagged() && Sought(m, marker) && m.fullTagLines && Contains(line, marker)
    ensures TagOpen(m, TaggedLine(m, line, lineNo, marker).marker) == OpenAfter(m, line, TagOpen(m, marker))
  {
    hide StrStr, TaggedLine;
    FullLineCalls(m, line, lineNo, marker, StrStr(line, marker).value + |marker|);
  }

  lemma EqualExcludedLineTape(a: Text, b: Text, lineNo: nat)
    ensures TapeOf([Unmarked(a, false, lineNo)] + [Unmarked(b, true, lineNo), Marked([], true)]) ==
            Items(a + b, false) + [Enter, Leave]
  {
    hide TapeOf, CallTape, Items;
    var calls := [Unmarked(a, false, lineNo)] + [Unmarked(b, true, lineNo)];
    ExcludedLineTape(a, b, false, true, lineNo);
    TapeConcat(calls, [Marked([], true)]);
    MarkedTape([], true);
    assert calls + [Marked([], true)] == [Unmarked(a, false, lineNo)] + [Unmarked(b, true, lineNo), Marked([], true)];
    assert Items([], true) == [];
  }

  lemma FullLineTapeWithTag(m: Marking, line: Text, marker: Text)
    requires m.Normalised() && m.Tagged() && Sought(m, marker) && Contains(line, marker)
    ensures var open := TagOpen(m, marker);
            FullLineTape(m, line, open) ==
              if m.includeTags then
                (if open then [] else [Enter]) + Items(line, true) + (if open || m.EqualTags() then [Leave] else [])
              else
                (if open then [Leave] else []) + Items(line, false)
                + (if m.EqualTags() then [Enter, Leave] else if open then [] else [Enter])
  {
    hide Items, StrStr;
  }

  lemma IncludedLineWithTag(m: Marking, line: Text, lineNo: nat, marker: Text)
    requires m.Normalised() && m.Tagged() && Sought(m, marker) && m.fullTagLines && Contains(line, marker)
    requires m.includeTags
    ensures TapeOf(TaggedLine(m, line, lineNo, marker).calls) == FullLineTape(m, line, TagOpen(m, marker))
  {
    hide TapeOf, Items, CallTape, StrStr, Find, TaggedLine, FullLineTape;
    FullLineTapeWithTag(m, line, marker);
    var past, open := StrStr(line, marker).value + |marker|, TagOpen(m, marker);
    assert line == line[..past] + line[past..];
    FullLineCalls(m, line, lineNo, marker, past);
    IncludedLineTape(line[..past], line[past..], open, open || m.EqualTags(), lineNo);
  }

  lemma ExcludedLineWithTag(m: Marking, line: Text, lineNo: nat, marker: Text)
    requires m.Normalised() && m.Tagged() && Sought(m, marker) && m.fullTagLines && Contains(line, marker)
    requires !m.includeTags && !m.EqualTags()
    ensures TapeOf(TaggedLine(m, line, lineNo, marker).calls) == FullLineTape(m, line, TagOpen(m, marker))
  {
    hide TapeOf, Items, CallTape, StrStr, Find, TaggedLine, FullLineTape;
    FullLineTapeWithTag(m, line, marker);
    var past, open := StrStr(line, marker).value + |marker|, TagOpen(m, marker);
    assert line == line[..past] + line[past..];
    FullLineCalls(m, line, lineNo, marker, past);
    ExcludedLineTape(line[..past], line[past..], open, !open, lineNo);
  }

  lemma EqualExcludedLineWithTag(m: Marking, line: Text, lineNo: nat, marker: Text)
    requires m.Normalised() && m.Tagged() && Sought(m, marker) && m.fullTagLines && Contains(line, marker)
    requires !m.includeTags && m.EqualTags()
    ensures TapeOf(TaggedLine(m, line, lineNo, marker).calls) == FullLineTape(m, line, TagOpen(m, marker))
  {
    hide TapeOf, Items, CallTape, StrStr, Find, TaggedLine, FullLineTape;
    FullLineTapeWithTag(m, line, marker);
    var past := StrStr(line, marker).value + |marker|;
    assert line == line[..past] + line[past..];
    FullLineCalls(m, line, lineNo, marker, past);
    EqualExcludedLineTape(line[..past], line[past..], lineNo);
  }

  lemma FullLineWithTag(m: Marking, line: Text, lineNo: nat, marker: Text)
    requires m.Normalised() && m.Tagged() && Sought(m, marker) && m.fullTagLines && Contains(line, marker)
    ensures TapeOf(TaggedLine(m, line, lineNo, marker).calls) == FullLineTape(m, line, TagOpen(m, marker))
  {
    hide TapeOf, FullLineTape, StrStr, TaggedLine;
    if m.includeTags {
      IncludedLineWithTag(m, line, lineNo, marker);
    } else if m.EqualTags() {
      EqualExcludedLineWithTag(m, line, lineNo, marker);
    } else {
      ExcludedLineWithTag(m, line, lineNo, marker);
    }
  }

  /** Full tag lines: the tape of a run is the fold over the lines. */
  lemma {:induction false} FullLinesFold(m: Marking, lines: seq<Text>, done: nat, marker: Text)
    requires m.Normalised() && m.Tagged() && Sought(m, marker) && m.fullTagLines
    ensures TapeFrom(m, lines, done, marker) == FullLinesTape(m, lines, TagOpen(m, marker))
    decreases |lines|
  {
    if lines == [] {
      TapeFromNothing(m, done, marker);
    } else {
      hide TaggedLine, TapeOf, TapeFrom, FullLineTape, Contains;
      var s := TaggedLine(m, lines[0], done + 1, marker);
      if Contains(lines[0], marker) {
        FullLineWithTag(m, lines[0], done + 1, marker);
        FullLineMarker(m, lines[0], done + 1, marker);
      } else {
        FullLineWithoutTag(m, lines[0], done + 1, marker);
      }
      TapeFromLine(m, lines, done, marker);
      FullLinesFold(m, lines[1..], done + 1, s.marker);
    }
  }

  lemma FullTagLinesRunIsFold(m: Marking, lines: seq<Text>)
    requires m.Normalised() && m.Tagged() && m.fullTagLines
    ensures TapeOf(Run(m, lines)) == FullLinesTape(m, lines, false)
  {
    RunLinesLegal(m, lines, 0, m.beginTag);
    FullLinesFold(m, lines, 0, m.beginTag);
  }

  // ---- Line selection ----

  /** Is any of `n` lines selected?  SelectEnd == 0 stands for the end of the file. */
  predicate SelectsAny(m: Marking, n: nat) {
    0 < m.selectBegin <= n && (m.selectEnd == 0 || m.selectBegin <= m.selectEnd)
  }

  /** How many of `n` lines come before the end of the selection. */
  function SelectionEnd(m: Marking, n: nat): (hi: nat)
    requires SelectsAny(m, n)
    ensures m.selectBegin <= hi <= n
  {
    if m.selectEnd == 0 || n < m.selectEnd then n else m.selectEnd
  }

  /** The selected lines form one block; `closed` says whether its end is on the tape. */
  function SelectionTape(m: Marking, lines: seq<Text>, closed: bool): Tape {
    if !SelectsAny(m, |lines|) then Items(Join(lines), false)
    else
      var lo, hi := m.selectBegin - 1, SelectionEnd(m, |lines|);
      Items(Join(lines[..lo]), false) + [Enter]
      + Items(Join(lines[lo..hi]), true) + (if closed then [Leave] else [])
      + Items(Join(lines[hi..]), false)
  }

  predicate SelectionClosed(m: Marking, n: nat) {
    m.selectEnd != 0 && m.selectEnd <= n
  }

  lemma UntaggedLineTape(m: Marking, line: Text, lineNo: nat)
    ensures TapeOf(UntaggedLine(m, line, lineNo)) ==
            if !Selected(m, lineNo) then Items(line, false)
            else (if lineNo == m.selectBegin then [Enter] else []) + Items(line, true)
                 + (if lineNo == m.selectEnd then [Leave] else [])
  {
    hide TapeOf, Items;
    var a: seq<Call> := if lineNo == m.selectBegin then [Unmarked([], true, lineNo)] else [];
    var z: seq<Call> := if lineNo == m.selectEnd then [Marked([], true)] else [];
    TapeConcat(a, [Marked(line, false)]);
    TapeConcat(a + [Marked(line, false)], z);
    UnmarkedTape([], true, lineNo);
    MarkedTape(line, false);
    MarkedTape([], true);
    UnmarkedTape(line, false, lineNo);
    EmptyTapes();
  }

  lemma JoinItemsSnoc(lines: seq<Text>, line: Text, inside: bool)
    ensures Items(Join(lines + [line]), inside) == Items(Join(lines), inside) + Items(line, inside)
  {
    JoinSnoc(lines, line);
    ItemsConcat(Join(lines), line, inside);
  }

  /** A selected line behind the begin of the selection joins the block. */
  lemma SelectedSnoc(m: Marking, lines: seq<Text>, line: Text)
    requires Selected(m, |lines| + 1) && m.selectBegin <= |lines|
    ensures SelectionTape(m, lines + [line], false) == SelectionTape(m, lines, false) + Items(line, true)
  {
    hide Items, Join;
    var all, n, lo := lines + [line], |lines| + 1, m.selectBegin - 1;
    assert all[..lo] == lines[..lo] && all[lo..n] == lines[lo..] + [line] && all[n..] == [];
    assert lines[lo..n - 1] == lines[lo..] && lines[n - 1..] == [];
    JoinItemsSnoc(lines[lo..], line, true);
    EmptyTapes();
  }

  /** A line behind the selection comes behind the block. */
  lemma LaterSnoc(m: Marking, lines: seq<Text>, line: Text)
    requires SelectsAny(m, |lines|) && !Selected(m, |lines| + 1)
    ensures SelectionTape(m, lines + [line], true) == SelectionTape(m, lines, true) + Items(line, false)
  {
    hide Items, Join;
    var all, lo, hi := lines + [line], m.selectBegin - 1, SelectionEnd(m, |lines|);
    assert all[..lo] == lines[..lo];
    assert all[lo..hi] == lines[lo..hi];
    assert all[hi..] == lines[hi..] + [line];
    JoinItemsSnoc(lines[hi..], line, false);
  }

  lemma SlicesOfSnoc(lines: seq<Text>, line: Text)
    ensures var all, n := lines + [line], |lines|;
            all[..n] == lines && all[n..n + 1] == [line] && all[n + 1..] == []
  {}

  lemma NothingBehind(tape: Tape)
    ensures tape + [] + [] == tape
  {}

  /** The first selected line begins the block. */
  lemma FirstSnoc(m: Marking, lines: seq<Text>, line: Text)
    requires Selected(m, |lines| + 1) && m.selectBegin == |lines| + 1
    ensures SelectionTape(m, lines + [line], false) == Items(Join(lines), false) + [Enter] + Items(line, true)
  {
    hide Items, Join;
    var n := |lines| + 1;
    SlicesOfSnoc(lines, line);
    JoinOne(line);
    EmptyTapes();
    assert SelectionEnd(m, n) == n;
    NothingBehind(Items(Join(lines), false) + [Enter] + Items(line, true));
  }

  /** Closing the block at the end of the file. */
  lemma SelectionClosing(m: Marking, lines: seq<Text>)
    requires SelectsAny(m, |lines|) && SelectionEnd(m, |lines|) == |lines|
    ensures SelectionTape(m, lines, true) == SelectionTape(m, lines, false) + [Leave]
  {
    hide Items, Join;
    assert lines[|lines|..] == [];
    EmptyTapes();
  }

  lemma NothingSelected(m: Marking, lines: seq<Text>)
    requires !SelectsAny(m, |lines|)
    ensures forall closed :: SelectionTape(m, lines, closed) == Items(Join(lines), false)
  {}

  /** Is the block closed behind the last line read, a selected one? */
  lemma SelectedClosing(m: Marking, lines: seq<Text>)
    requires Selected(m, |lines|) && lines != []
    ensures SelectionTape(m, lines, SelectionClosed(m, |lines|)) ==
            SelectionTape(m, lines, false) + (if |lines| == m.selectEnd then [Leave] else [])
  {
    hide SelectionTape;
    if |lines| == m.selectEnd {
      SelectionClosing(m, lines);
    } else {
      var tape := SelectionTape(m, lines, false);
      assert tape + [] == tape;
    }
  }

  lemma BlockBegins(a: Tape, b: Tape, ends: Tape)
    ensures a + ([Enter] + b + ends) == a + [Enter] + b + ends
    ensures a + ([] + b + ends) == a + b + ends
  {}

  lemma SelectionSnoc(m: Marking, lines: seq<Text>, line: Text)
    ensures SelectionTape(m, lines, SelectionClosed(m, |lines|)) + TapeOf(UntaggedLine(m, line, |lines| + 1)) ==
            SelectionTape(m, lines + [line], SelectionClosed(m, |lines| + 1))
  {
    hide TapeOf, Items, Join, UntaggedLine, SelectionTape;
    var n := |lines| + 1;
    UntaggedLineTape(m, line, n);
    if !SelectsAny(m, n) {
      NothingSelected(m, lines);
      NothingSelected(m, lines + [line]);
      JoinItemsSnoc(lines, line, false);
    } else if !Selected(m, n) {
      LaterSnoc(m, lines, line);
    } else {
      SelectedClosing(m, lines + [line]);
      var ends := if n == m.selectEnd then [Leave] else [];
      if n == m.selectBegin {
        NothingSelected(m, lines);
        FirstSnoc(m, lines, line);
        BlockBegins(Items(Join(lines), false), Items(line, true), ends);
      } else {
        SelectedSnoc(m, lines, line);
        BlockBegins(SelectionTape(m, lines, false), Items(line, true), ends);
      }
    }
  }

  lemma NothingRead(m: Marking)
    requires m.Normalised() && !m.Tagged()
    ensures TapeOf(RunLines(m, [], 0, m.beginTag).calls) == SelectionTape(m, [], SelectionClosed(m, 0))
  {}

  lemma {:induction false} SelectionSoFar(m: Marking, lines: seq<Text>)
    requires m.Normalised() && !m.Tagged()
    ensures TapeOf(RunLines(m, lines, 0, m.beginTag).calls) == SelectionTape(m, lines, SelectionClosed(m, |lines|))
    decreases |lines|
  {
    hide TapeOf, RunLines, SelectionTape, UntaggedLine;
    if lines == [] {
      NothingRead(m);
    } else {
      var before, last := lines[..|lines| - 1], lines[|lines| - 1];
      assert lines == before + [last];
      SelectionSoFar(m, before);
      RunLinesSnoc(m, before, last, 0, m.beginTag);
      SelectionSnoc(m, before, last);
      var s := RunLines(m, before, 0, m.beginTag);
      TapeConcat(s.calls, UntaggedLine(m, last, |lines|));
    }
  }

  lemma NoBlockEnters(text: Text)
    ensures Enters(Items(text, false)) == 0
  {
    hide Items;
    ItemsWellFormed(text, false, []);
    assert Items(text, false) + [] == Items(text, false);
  }

  lemma BordersEnter(tape: Tape)
    ensures Enters([Enter] + tape) == 1 + Enters(tape) && Enters([Leave] + tape) == Enters(tape)
  {
    assert ([Enter] + tape)[1..] == tape && ([Leave] + tape)[1..] == tape;
  }

  lemma OneBlockEnters(a: Text, b: Text, z: Text)
    ensures Enters(Items(a, false) + [Enter] + Items(b, true) + [Leave] + Items(z, false)) == 1
  {
    hide Items, Enters;
    var tail := [Leave] + Items(z, false);
    var inner := Items(b, true) + tail;
    ItemsWellFormed(a, false, [Enter] + inner);
    ItemsWellFormed(b, true, tail);
    NoBlockEnters(z);
    BordersEnter(Items(z, false));
    BordersEnter(inner);
    assert Items(a, false) + [Enter] + Items(b, true) + [Leave] + Items(z, false) == Items(a, false) + ([Enter] + inner);
  }

  lemma SelectionEnters(m: Marking, lines: seq<Text>)
    ensures Enters(SelectionTape(m, lines, true)) == if SelectsAny(m, |lines|) then 1 else 0
  {
    hide Enters, Items, Join;
    if SelectsAny(m, |lines|) {
      var lo, hi := m.selectBegin - 1, SelectionEnd(m, |lines|);
      OneBlockEnters(Join(lines[..lo]), Join(lines[lo..hi]), Join(lines[hi..]));
    } else {
      NoBlockEnters(Join(lines));
    }
  }

  /** Without tags, a run marks exactly the lines of the normalised range, as at most one block. */
  lemma SelectionRunIsRange(m: Marking, lines: seq<Text>)
    requires m.Normalised() && !m.Tagged()
    ensures TapeOf(Run(m, lines)) == SelectionTape(m, lines, true)
    ensures Actions(Run(m, lines)) == if SelectsAny(m, |lines|) then 1 else 0
  {
    SelectionSoFar(m, lines);
    RunLinesLegal(m, lines, 0, m.beginTag);
    var calls := RunLines(m, lines, 0, m.beginTag).calls;
    TapeConcat(calls, Closing(EndState(false, calls)));
    MarkedTape([], true);
    assert Items([], true) == [];
    RunTapeIsWellFormed(m, lines);
    SelectionEnters(m, lines);
  }
}

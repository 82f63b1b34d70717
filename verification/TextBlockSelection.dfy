/**
 What Cat and Enumerate, which never look for tags, make of a line selection: both drop the selected
 lines, and Enumerate leaves a number behind.
 */
module TextBlockSelection {
  import opened Bytes
  import opened Sequences
  import opened OptionType
  import opened TextBlockModel
  import opened TextBlockRun
  import opened TextBlockTape
  import opened TextBlockModes
  import opened TextBlockLines

  // ---- Cat ----

  lemma PlayOutside(c: Config, text: Text)
    requires KeepsOutside(c.mode)
    ensures Play(c, Items(text, false)) == text
  {
    PlayItems(c, text, false);
  }

  lemma CatPlaysSelection(c: Config, a: Text, b: Text, z: Text)
    requires c.mode == Cat
    ensures Play(c, Items(a, false) + [Enter] + Items(b, true) + [Leave] + Items(z, false)) == a + z
  {
    hide Play, Items;
    PlayOutside(c, a);
    PlayOutside(c, z);
    PlayItems(c, b, true);
    CatPlaysNothing(c);
    PlayConcat(c, Items(a, false), [Enter]);
    PlayConcat(c, Items(a, false) + [Enter], Items(b, true));
    PlayConcat(c, Items(a, false) + [Enter] + Items(b, true), [Leave]);
    PlayConcat(c, Items(a, false) + [Enter] + Items(b, true) + [Leave], Items(z, false));
    assert a + [] + [] + [] + z == a + z;
  }

  lemma CatPlaysNothing(c: Config)
    requires c.mode == Cat
    ensures Play(c, [Enter]) == [] == Play(c, [Leave])
  {}

  /** Cat writes the lines in front of the selection and the lines behind it. */
  lemma CatDropsSelection(c: Config, lines: seq<Text>)
    requires c.mode == Cat && c.marking.Normalised() && !c.marking.Tagged()
    ensures RunOutput(c, lines) ==
            if SelectsAny(c.marking, |lines|)
            then Join(lines[..c.marking.selectBegin - 1]) + Join(lines[SelectionEnd(c.marking, |lines|)..])
            else Join(lines)
  {
    hide RunOutput, Play, Items, TapeOf, Run, Join;
    var m := c.marking;
    RunOutputIsPlayed(c, lines);
    SelectionRunIsRange(m, lines);
    if SelectsAny(m, |lines|) {
      var lo, hi := m.selectBegin - 1, SelectionEnd(m, |lines|);
      CatPlaysSelection(c, Join(lines[..lo]), Join(lines[lo..hi]), Join(lines[hi..]));
    } else {
      PlayOutside(c, Join(lines));
    }
  }

  /**
   Cat, documented to copy the input as it is, copies it if and only if no line is selected.  A line
   that getline() has read is never empty.
   */
  lemma CatCopiesIff(c: Config, lines: seq<Text>)
    requires c.mode == Cat && c.marking.Normalised() && !c.marking.Tagged()
    requires forall l :: l in lines ==> l != []
    ensures RunOutput(c, lines) == Join(lines) <==> !SelectsAny(c.marking, |lines|)
  {
    hide RunOutput, Join;
    var m := c.marking;
    CatDropsSelection(c, lines);
    if SelectsAny(m, |lines|) {
      assert lines[m.selectBegin - 1] in lines;
      JoinWithout(lines, m.selectBegin - 1, SelectionEnd(m, |lines|));
    }
  }

  /** Without some of its lines, a text is shorter. */
  lemma JoinWithout(lines: seq<Text>, lo: nat, hi: nat)
    requires lo < hi <= |lines| && lines[lo] != []
    ensures |Join(lines[..lo]) + Join(lines[hi..])| < |Join(lines)|
  {
    hide Join;
    var a, b, z := lines[..lo], lines[lo..hi], lines[hi..];
    assert lines == a + (b + z);
    JoinConcat(a, b + z);
    JoinConcat(b, z);
    JoinNonEmpty(b);
  }

  lemma JoinNonEmpty(lines: seq<Text>)
    requires lines != [] && lines[0] != []
    ensures Join(lines) != []
  {}

  /** Text-Block --cat --select 1 1 writes nothing for a file of one line. */
  lemma CatDropsOnlyLine(labels: LabelKind -> Text, lineNumber: nat -> Text)
    ensures var line := [97, NEWLINE];
            var options := Options(Cat, None, None, false, false, 1, 1, None, labels, lineNumber);
            var normalised := Normalise(options, Some(1));
            normalised.Success? && RunOutput(normalised.value, [line]) == [] != line
  {
    var options := Options(Cat, None, None, false, false, 1, 1, None, labels, lineNumber);
    var c := Normalise(options, Some(1)).value;
    CatDropsSelection(c, [[97, NEWLINE]]);
  }

  // ---- Enumerate ----

  /** A text behind a line number. */
  function NumberedText(text: Text, lineNo: nat): seq<Piece> {
    [Label(Enumerate1), Number(lineNo), Label(Enumerate2), Source(text)]
  }

  /** Every line behind its number; `done` lines have been read before. */
  function Numbered(lines: seq<Text>, done: nat): seq<Piece> {
    if lines == [] then [] else NumberedText(lines[0], done + 1) + Numbered(lines[1..], done + 1)
  }

  /** The lines outside the selection keep their numbers; for all selected lines there is the number of the first. */
  function NumberedOutside(m: Marking, lines: seq<Text>): seq<Piece> {
    if !SelectsAny(m, |lines|) then Numbered(lines, 0)
    else
      var hi := SelectionEnd(m, |lines|);
      Numbered(lines[..m.selectBegin - 1], 0) + NumberedText([], m.selectBegin) + Numbered(lines[hi..], hi)
  }

  lemma {:induction false} NumberedSnoc(lines: seq<Text>, line: Text, done: nat)
    ensures Numbered(lines + [line], done) == Numbered(lines, done) + NumberedText(line, done + |lines| + 1)
  {
    hide NumberedText;
    var all := lines + [line];
    if lines == [] {
      assert Numbered(all[1..], done + 1) == [];
    } else {
      assert all[0] == lines[0] && all[1..] == lines[1..] + [line];
      NumberedSnoc(lines[1..], line, done + 1);
    }
  }

  lemma EnumeratedLine(c: Config, line: Text, lineNo: nat)
    requires c.mode == Enumerate
    ensures Pieces(c, UntaggedLine(c.marking, line, lineNo)) ==
            if !Selected(c.marking, lineNo) then NumberedText(line, lineNo)
            else if lineNo == c.marking.selectBegin then NumberedText([], lineNo)
            else []
  {
    var m := c.marking;
    if Selected(m, lineNo) {
      var a: seq<Call> := if lineNo == m.selectBegin then [Unmarked([], true, lineNo)] else [];
      var z: seq<Call> := if lineNo == m.selectEnd then [Marked([], true)] else [];
      PiecesConcat(c, a + [Marked(line, false)], z);
      PiecesConcat(c, a, [Marked(line, false)]);
    }
  }

  lemma EnumeratedSnoc(m: Marking, lines: seq<Text>, line: Text)
    ensures var n := |lines| + 1;
            NumberedOutside(m, lines + [line]) ==
            NumberedOutside(m, lines) + (if !Selected(m, n) then NumberedText(line, n)
                                         else if n == m.selectBegin then NumberedText([], n)
                                         else [])
  {
    hide NumberedText, Numbered;
    var all, n := lines + [line], |lines| + 1;
    if SelectsAny(m, n) {
      NothingNumbered(n);
      if n == m.selectBegin {
        assert all[..n - 1] == lines && all[n..] == [];
      } else {
        var lo, hi := m.selectBegin - 1, SelectionEnd(m, n - 1);
        assert all[..lo] == lines[..lo];
        if Selected(m, n) {
          assert all[n..] == [] == lines[hi..];
          NothingNumbered(hi);
        } else {
          assert all[hi..] == lines[hi..] + [line];
          NumberedSnoc(lines[hi..], line, hi);
        }
      }
    } else {
      NumberedSnoc(lines, line, 0);
    }
  }

  lemma NothingNumbered(done: nat)
    ensures Numbered([], done) == []
  {}

  lemma NothingEnumerated(c: Config)
    requires c.marking.Normalised() && !c.marking.Tagged()
    ensures Pieces(c, RunLines(c.marking, [], 0, c.marking.beginTag).calls) == NumberedOutside(c.marking, [])
  {}

  lemma {:induction false} EnumeratedSoFar(c: Config, lines: seq<Text>)
    requires c.mode == Enumerate && c.marking.Normalised() && !c.marking.Tagged()
    ensures Pieces(c, RunLines(c.marking, lines, 0, c.marking.beginTag).calls) == NumberedOutside(c.marking, lines)
    decreases |lines|
  {
    hide Pieces, NumberedOutside, UntaggedLine, RunLines;
    if lines == [] {
      NothingEnumerated(c);
    } else {
      var m, before, last := c.marking, lines[..|lines| - 1], lines[|lines| - 1];
      assert lines == before + [last];
      EnumeratedSoFar(c, before);
      RunLinesSnoc(m, before, last, 0, m.beginTag);
      PiecesConcat(c, RunLines(m, before, 0, m.beginTag).calls, UntaggedLine(m, last, |lines|));
      EnumeratedLine(c, last, |lines|);
      EnumeratedSnoc(m, before, last);
    }
  }

  /**
   Enumerate puts its number in front of every line outside the selection.  For the selected lines it
   writes the number of the first of them, and no text.
   */
  lemma EnumerateNumbersLines(c: Config, lines: seq<Text>)
    requires c.mode == Enumerate && c.marking.Normalised() && !c.marking.Tagged()
    ensures Pieces(c, Run(c.marking, lines)) == NumberedOutside(c.marking, lines)
  {
    var calls := RunLines(c.marking, lines, 0, c.marking.beginTag).calls;
    var closing := Closing(EndState(false, calls));
    EnumeratedSoFar(c, lines);
    PiecesConcat(c, calls, closing);
    assert Pieces(c, closing) == [];
  }

  /** What Enumerate writes for one more line: labels and number in front of the line; of a selected line at most the number. */
  lemma EnumerateWritten(c: Config, lines: seq<Text>, line: Text)
    requires c.mode == Enumerate && c.marking.Normalised() && !c.marking.Tagged()
    ensures var n := |lines| + 1;
            RunOutput(c, lines + [line]) ==
            RunOutput(c, lines)
            + (if !Selected(c.marking, n) then c.labels(Enumerate1) + c.lineNumber(n) + c.labels(Enumerate2) + line
               else if n == c.marking.selectBegin then c.labels(Enumerate1) + c.lineNumber(n) + c.labels(Enumerate2)
               else [])
  {
    hide Run, Pieces, NumberedOutside, NumberedText, Written, Selected;
    var m, n := c.marking, |lines| + 1;
    EnumerateNumbersLines(c, lines);
    EnumerateNumbersLines(c, lines + [line]);
    EnumeratedSnoc(m, lines, line);
    var before := NumberedOutside(m, lines);
    WrittenConcat(c, before, NumberedText(line, n));
    WrittenConcat(c, before, NumberedText([], n));
    WrittenConcat(c, before, []);
    NumberIsWritten(c, line, n);
    NumberIsWritten(c, [], n);
    NothingIsWritten(c);
  }

  lemma NothingIsWritten(c: Config)
    ensures Written(c, []) == []
  {}

  lemma NumberIsWritten(c: Config, text: Text, n: nat)
    ensures var number := c.labels(Enumerate1) + c.lineNumber(n) + c.labels(Enumerate2);
            Written(c, NumberedText(text, n)) == number + text && (text == [] ==> number + text == number)
  {
    hide Written;
    WrittenInTurn(c, [], NumberedText(text, n));
    assert [] + Written(c, NumberedText(text, n)) == Written(c, NumberedText(text, n));
    assert [] + c.labels(Enumerate1) == c.labels(Enumerate1);
  }
}

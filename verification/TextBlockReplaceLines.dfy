/**
 Replace with excluded tags where it does not edit the text between two tags: with full tag lines,
 which edit whole lines, and with equal tags, which only insert.  When exactly does a second run change
 nothing?
 */
module TextBlockReplaceLines {
  import opened Bytes
  import opened Sequences
  import opened OptionType
  import opened TextBlockModel
  import opened TextBlockRun
  import opened TextBlockTape
  import opened TextBlockModes
  import opened TextBlockLines
  import opened TextBlockScan
  import opened TextBlockReplace

  // ---- Full tag lines as an edit of lines ----

  /** A configuration for which a run edits whole lines. */
  predicate EditsLines(c: Config) {
    && c.mode == Replace
    && c.marking.Normalised() && c.marking.Tagged() && c.marking.fullTagLines
    && !c.marking.includeTags && !c.marking.EqualTags()
    && FitsLine(c.marking.beginTag) && FitsLine(c.marking.endTag)
    && NUL !in c.marking.beginTag + c.marking.endTag + c.insertion
  }

  /** Keep the lines up to one with the begin tag, then write the insertion up to one with the end tag. */
  function EditedLines(m: Marking, ins: Text, lines: seq<Text>, open: bool): seq<Text>
    decreases |lines|
  {
    if lines == [] then (if open then Lines(ins) else [])
    else
      var found := Contains(lines[0], TagSought(m, open));
      var more := EditedLines(m, ins, lines[1..], if found then !open else open);
      if !open then [lines[0]] + more
      else if found then Lines(ins) + [lines[0]] + more
      else more
  }

  lemma PlayedLine(c: Config, line: Text, open: bool)
    requires EditsLines(c)
    ensures var found := Contains(line, TagSought(c.marking, open));
            && OpenAfter(c.marking, line, open) == (if found then !open else open)
            && Play(c, FullLineTape(c.marking, line, open)) ==
               (if !open then line else if found then c.insertion + line else [])
  {
    hide Contains, Play, Items;
    PlayItems(c, line, open);
    PlayItems(c, line, false);
    PlayConcat(c, Items(line, false), [Enter]);
    PlayConcat(c, [Leave], Items(line, false));
    PlayedOne(c);
    assert line + [] == line;
  }

  lemma PlayedOne(c: Config)
    requires c.mode == Replace
    ensures Play(c, [Enter]) == [] == Play(c, []) && Play(c, [Leave]) == c.insertion
  {}

  lemma {:induction false} PlayedFoldIsEdit(c: Config, lines: seq<Text>, open: bool)
    requires EditsLines(c)
    ensures Play(c, FullLinesTape(c.marking, lines, open)) == Join(EditedLines(c.marking, c.insertion, lines, open))
    decreases |lines|
  {
    hide Play, FullLineTape, Contains, Lines, Join, FitsLine;
    PlayedOne(c);
    if lines == [] {
      NoLinesJoined();
    } else {
      var m, line, ins := c.marking, lines[0], Lines(c.insertion);
      var next := OpenAfter(m, line, open);
      PlayedLine(c, line, open);
      PlayedFoldIsEdit(c, lines[1..], next);
      PlayConcat(c, FullLineTape(m, line, open), FullLinesTape(m, lines[1..], next));
      var more := EditedLines(m, c.insertion, lines[1..], next);
      JoinOne(line);
      JoinConcat([line], more);
      JoinConcat(ins + [line], more);
      JoinSnoc(ins, line);
      assert [] + Join(more) == Join(more);
    }
  }

  lemma NoLinesJoined()
    ensures Join<Byte>([]) == []
  {}

  /** A run of Replace with full tag lines edits the lines. */
  lemma ReplaceIsLineEdit(c: Config, lines: seq<Text>)
    requires EditsLines(c)
    ensures RunOutput(c, lines) == Join(EditedLines(c.marking, c.insertion, lines, false))
  {
    RunOutputIsPlayed(c, lines);
    FullTagLinesRunIsFold(c.marking, lines);
    PlayedFoldIsEdit(c, lines, false);
  }

  // ---- Lines of a text ----

  predicate Ended(line: Text) {
    line != [] && line[|line| - 1] == NEWLINE
  }

  predicate IsLine(line: Text) {
    line != [] && forall i :: 0 <= i < |line| - 1 ==> line[i] != NEWLINE
  }

  /** What the lines of a text are like. */
  predicate ProperLines(lines: seq<Text>) {
    forall i :: 0 <= i < |lines| ==> IsLine(lines[i]) && (i < |lines| - 1 ==> Ended(lines[i]))
  }

  lemma NothingToInsert()
    ensures Lines([]) == []
  {}

  lemma LinesOf(text: Text)
    requires text != []
    ensures Lines(text) == [text[..LineLength(text)]] + Lines(text[LineLength(text)..])
  {}

  lemma FirstLine(text: Text)
    requires text != []
    ensures var n := LineLength(text);
            && IsLine(text[..n]) && Lines(text) == [text[..n]] + Lines(text[n..])
            && (!Ended(text[..n]) ==> n == |text| && NEWLINE !in text)
  {
    hide Lines;
    LinesOf(text);
  }

  lemma ProperConcat(a: seq<Text>, b: seq<Text>)
    requires ProperLines(a) && ProperLines(b) && (b == [] || forall l :: l in a ==> Ended(l))
    ensures ProperLines(a + b)
  {
    hide IsLine, Ended;
    forall i | 0 <= i < |a + b|
      ensures IsLine((a + b)[i]) && (i < |a + b| - 1 ==> Ended((a + b)[i]))
    {
      if i < |a| {
        assert a[i] in a;
      } else {
        assert (a + b)[i] == b[i - |a|];
      }
    }
  }

  lemma {:induction false} LinesAreProper(text: Text)
    ensures ProperLines(Lines(text))
    decreases |text|
  {
    hide Lines, LineLength, IsLine, Ended;
    NothingToInsert();
    if text != [] {
      var n := LineLength(text);
      FirstLine(text);
      LinesAreProper(text[n..]);
      assert n == |text| ==> text[n..] == [];
      LineEnds(text);
      ProperConcat([text[..n]], Lines(text[n..]));
    }
  }

  lemma LineEnds(text: Text)
    requires text != []
    ensures var n := LineLength(text);
            n < |text| ==> Ended(text[..n])
  {}

  /** Text without a newline joins the first line of what follows. */
  lemma {:induction false} LengthMerged(a: Text, rest: Text)
    requires NEWLINE !in a && rest != []
    ensures LineLength(a + rest) == |a| + LineLength(rest)
  {
    if a == [] {
      assert a + rest == rest;
    } else {
      assert (a + rest)[1..] == a[1..] + rest;
      LengthMerged(a[1..], rest);
    }
  }

  lemma LinesMerged(a: Text, rest: Text)
    requires NEWLINE !in a && rest != []
    ensures var n := LineLength(rest);
            Lines(a + rest) == [a + rest[..n]] + Lines(rest[n..])
  {
    hide LineLength;
    LengthMerged(a, rest);
    var n := LineLength(rest);
    assert (a + rest)[..|a| + n] == a + rest[..n] && (a + rest)[|a| + n..] == rest[n..];
  }

  /** The first line of a text is read first. */
  lemma LineIsFirst(line: Text, rest: Text)
    requires IsLine(line) && (rest == [] || Ended(line))
    ensures Lines(line + rest) == [line] + Lines(rest)
  {
    hide Lines, LineLength;
    var n := |line| - 1;
    var a, tail := line[..n], [line[n]] + rest;
    LastByte(line[n], rest);
    LinesMerged(a, tail);
    assert a + tail == line + rest && a + [line[n]] == line;
    assert tail[..1] == [line[n]] && tail[1..] == rest;
  }

  lemma LastByte(b: Byte, rest: Text)
    requires rest == [] || b == NEWLINE
    ensures LineLength([b] + rest) == 1
  {
    if rest == [] {
      assert [b] + rest == [b];
      assert LineLength([]) == 0;
    }
  }

  lemma {:induction false} LinesOfJoined(lines: seq<Text>)
    requires ProperLines(lines)
    ensures Lines(Join(lines)) == lines
    decreases |lines|
  {
    if lines != [] {
      hide Lines, IsLine, Ended;
      LineIsFirst(lines[0], Join(lines[1..]));
      LinesOfJoined(lines[1..]);
    }
  }

  // ---- When a second run changes nothing ----

  /** An insertion of whole lines, none of them with the end tag. */
  predicate InsertsWholeLines(e: Text, ins: Text) {
    forall l :: l in Lines(ins) ==> Ended(l) && !Contains(l, e)
  }

  /** Insertion or no insertion, no line is written behind one that does not end. */
  predicate BlocksBeginEnded(b: Text, ins: Text, lines: seq<Text>) {
    ins == [] || forall l :: l in lines && Contains(l, b) ==> Ended(l)
  }

  lemma {:induction false} EditedIsProper(m: Marking, ins: Text, lines: seq<Text>, open: bool)
    requires ProperLines(lines) && InsertsWholeLines(m.endTag, ins) && BlocksBeginEnded(m.beginTag, ins, lines)
    ensures ProperLines(EditedLines(m, ins, lines, open))
    decreases |lines|
  {
    hide Contains, IsLine, Ended, Lines;
    LinesAreProper(ins);
    NothingToInsert();
    if lines != [] {
      var line := lines[0];
      var found := Contains(line, TagSought(m, open));
      var next := if found then !open else open;
      var more := EditedLines(m, ins, lines[1..], next);
      EditedIsProper(m, ins, lines[1..], next);
      assert ProperLines([line]);
      if !open || found {
        if lines[1..] != [] || !next || ins == [] {
          assert lines[1..] == [] ==> more == [];
        }
        ProperConcat([line], more);
        ProperConcat(Lines(ins), [line] + more);
        assert Lines(ins) + ([line] + more) == Lines(ins) + [line] + more;
      }
    }
  }

  lemma {:induction false} InsertedIsSkipped(m: Marking, ins: Text, inserted: seq<Text>, rest: seq<Text>)
    requires forall l :: l in inserted ==> !Contains(l, m.endTag)
    ensures EditedLines(m, ins, inserted + rest, true) == EditedLines(m, ins, rest, true)
  {
    hide Contains, Lines;
    if inserted == [] {
      assert inserted + rest == rest;
    } else {
      assert (inserted + rest)[0] == inserted[0] && (inserted + rest)[1..] == inserted[1..] + rest;
      InsertedIsSkipped(m, ins, inserted[1..], rest);
    }
  }

  lemma FirstEdited(m: Marking, ins: Text, line: Text, rest: seq<Text>, open: bool)
    ensures var found := Contains(line, TagSought(m, open));
            var more := EditedLines(m, ins, rest, if found then !open else open);
            EditedLines(m, ins, [line] + rest, open) ==
              if !open then [line] + more else if found then Lines(ins) + [line] + more else more
  {
    hide Contains, Lines;
    assert ([line] + rest)[1..] == rest;
  }

  lemma InsertionIsSkipped(m: Marking, ins: Text, rest: seq<Text>)
    requires InsertsWholeLines(m.endTag, ins)
    ensures EditedLines(m, ins, Lines(ins) + rest, true) == EditedLines(m, ins, rest, true)
  {
    hide EditedLines, Lines, Contains;
    InsertedIsSkipped(m, ins, Lines(ins), rest);
  }

  lemma EndTwice(m: Marking, ins: Text, open: bool)
    requires InsertsWholeLines(m.endTag, ins)
    ensures var once := EditedLines(m, ins, [], open);
            EditedLines(m, ins, once, open) == once
  {
    hide Contains, Lines, InsertsWholeLines;
    InsertionIsSkipped(m, ins, []);
    assert Lines(ins) + [] == Lines(ins);
  }

  lemma {:induction false} EditedTwice(m: Marking, ins: Text, lines: seq<Text>, open: bool)
    requires InsertsWholeLines(m.endTag, ins)
    ensures var once := EditedLines(m, ins, lines, open);
            EditedLines(m, ins, once, open) == once
    decreases |lines|
  {
    hide Contains, Lines, EditedLines, InsertsWholeLines;
    if lines == [] {
      EndTwice(m, ins, open);
    } else {
      var line := lines[0];
      var next := if Contains(line, TagSought(m, open)) then !open else open;
      var more := EditedLines(m, ins, lines[1..], next);
      assert lines == [line] + lines[1..];
      FirstEdited(m, ins, line, lines[1..], open);
      EditedTwice(m, ins, lines[1..], next);
      FirstEdited(m, ins, line, more, open);
      if open && !next {
        InsertionIsSkipped(m, ins, [line] + more);
        assert Lines(ins) + ([line] + more) == Lines(ins) + [line] + more;
      }
    }
  }

  lemma LinesTwice(c: Config, text: Text)
    requires EditsLines(c) && InsertsWholeLines(c.marking.endTag, c.insertion)
    requires BlocksBeginEnded(c.marking.beginTag, c.insertion, Lines(text))
    ensures TwiceIsOnce(c, text)
  {
    hide RunOutput, Contains, EditedLines, Lines, FitsLine, InsertsWholeLines, BlocksBeginEnded;
    var once := EditedLines(c.marking, c.insertion, Lines(text), false);
    LinesAreProper(text);
    ReplaceIsLineEdit(c, Lines(text));
    EditedIsProper(c.marking, c.insertion, Lines(text), false);
    LinesOfJoined(once);
    EditedTwice(c.marking, c.insertion, Lines(text), false);
    ReplaceIsLineEdit(c, once);
  }

  lemma {:induction false} EndedTextHasEndedLines(text: Text, line: Text)
    requires Ended(text) && line in Lines(text)
    ensures Ended(line)
    decreases |text|
  {
    hide Lines, LineLength;
    var n := LineLength(text);
    LinesOf(text);
    NothingToInsert();
    if line in Lines(text[n..]) {
      EndedTextHasEndedLines(text[n..], line);
    } else if n < |text| {
      LineEnds(text);
    } else {
      assert text[..n] == text;
    }
  }

  /** A line in which a tag with a newline at its end was found ends there. */
  lemma EndedTagEndsLine(line: Text, tag: Text)
    requires IsLine(line) && Ended(tag) && Contains(line, tag)
    ensures Ended(line)
  {
    var at := StrStr(line, tag).value;
    var k := at + |tag| - 1;
    assert line[at..at + |tag|][|tag| - 1] == line[k] == NEWLINE;
  }

  // ---- When it does ----

  lemma ContainsTag(a: Text, tag: Text, z: Text)
    requires NUL !in a + tag + z
    ensures Contains(a + tag + z, tag)
  {
    assert (a + tag + z)[|a|..|a| + |tag|] == tag;
    assert OccursAt(a + tag + z, tag, |a|);
  }

  lemma {:induction false} OpenIsLong(m: Marking, ins: Text, lines: seq<Text>)
    ensures |Join(EditedLines(m, ins, lines, true))| >= |ins|
    decreases |lines|
  {
    hide Contains, Lines;
    if lines != [] {
      if Contains(lines[0], m.endTag) {
        var more := EditedLines(m, ins, lines[1..], false);
        JoinConcat(Lines(ins) + [lines[0]], more);
        JoinConcat(Lines(ins), [lines[0]]);
      } else {
        OpenIsLong(m, ins, lines[1..]);
      }
    }
  }

  /** The begin tag in a line that does not end: the second run takes part of the insertion for its line. */
  lemma GrowsBehindLastLine(c: Config)
    requires EditsLines(c) && c.insertion != [] && !Ended(c.marking.beginTag)
    ensures var b, ins := c.marking.beginTag, c.insertion;
            && RunOutput(c, Lines(b)) == b + ins
            && |RunOutput(c, Lines(b + ins))| > |b + ins|
  {
    hide RunOutput, Contains, Lines, LineLength;
    var m, b, ins := c.marking, c.marking.beginTag, c.insertion;
    assert NEWLINE !in b by {
      assert b == b[..|b| - 1] + [b[|b| - 1]];
    }
    LineIsFirst(b, []);
    NothingToInsert();
    assert b + [] == b && [b] + [] == [b];
    ContainsTag([], b, []);
    assert [] + b + [] == b;
    ReplaceIsLineEdit(c, [b]);
    assert EditedLines(m, ins, [b], false) == [b] + Lines(ins);
    JoinConcat([b], Lines(ins));
    JoinOne(b);
    var n := LineLength(ins);
    var first, rest := b + ins[..n], Lines(ins[n..]);
    LinesMerged(b, ins);
    ContainsTag([], b, ins[..n]);
    assert [] + b + ins[..n] == first;
    ReplaceIsLineEdit(c, [first] + rest);
    assert ([first] + rest)[1..] == rest;
    var more := EditedLines(m, ins, rest, true);
    assert EditedLines(m, ins, [first] + rest, false) == [first] + more;
    JoinConcat([first], more);
    JoinOne(first);
    OpenIsLong(m, ins, rest);
  }

  lemma MergedLineEnds(m: Marking, ins: Text, rest: Text, el: Text)
    requires NEWLINE !in rest && rest != [] && NUL !in rest + el
    requires IsLine(el) && Ended(el) && m.endTag != [] && m.endTag <= el
    ensures Join(EditedLines(m, ins, Lines(rest + el), true)) != ins + el
  {
    hide Contains, Lines, EditedLines;
    var line, e := rest + el, m.endTag;
    assert IsLine(line) by {
      assert line[..|line| - 1] == rest + el[..|el| - 1];
    }
    LineIsFirst(line, []);
    NothingToInsert();
    assert line + [] == line;
    ContainsTag(rest, e, el[|e|..]);
    assert rest + e + el[|e|..] == line;
    FirstEdited(m, ins, line, [], true);
    NothingEdited(m, ins);
    assert Lines(ins) + [line] + [] == Lines(ins) + [line];
    JoinSnoc(Lines(ins), line);
  }

  lemma NothingEdited(m: Marking, ins: Text)
    ensures EditedLines(m, ins, [], false) == []
  {}

  lemma ClosedIsNotEmpty(m: Marking, ins: Text, text: Text)
    requires text != []
    ensures Join(EditedLines(m, ins, Lines(text), false)) != []
  {
    hide Contains, LineLength;
    FirstLine(text);
    var lines := Lines(text);
    var more := EditedLines(m, ins, lines, false);
    assert more[0] == lines[0] != [];
    assert Join(more) == more[0] + Join(more[1..]);
  }

  lemma LineIsNotLonger(ins: Text, line: Text, more: Text, el: Text)
    requires Ended(line) && more != [] && IsLine(el)
    ensures ins + line + more != ins + el
  {
    var k := |ins| + |line| - 1;
    assert (ins + line + more)[k] == line[|line| - 1] == NEWLINE;
    if |line + more| == |el| {
      assert (ins + el)[k] == el[|line| - 1] != NEWLINE;
    }
  }

  /** The second run ends a block in the insertion, or at a line that begins in it. */
  lemma {:induction false} EndsInInsertion(m: Marking, ins: Text, rest: Text, el: Text)
    requires !InsertsWholeLines(m.endTag, rest) && NUL !in rest + el
    requires IsLine(el) && Ended(el) && m.endTag != [] && m.endTag <= el
    ensures Join(EditedLines(m, ins, Lines(rest + el), true)) != ins + el
    decreases |rest|
  {
    hide Contains, Lines, LineLength, EditedLines;
    NothingToInsert();
    assert rest != [];
    var n := LineLength(rest);
    var line, tail := rest[..n], rest[n..];
    FirstLine(rest);
    if !Ended(line) {
      MergedLineEnds(m, ins, rest, el);
    } else {
      LineIsFirst(line, tail + el);
      assert line + (tail + el) == rest + el;
      FirstEdited(m, ins, line, Lines(tail + el), true);
      if Contains(line, m.endTag) {
        var more := EditedLines(m, ins, Lines(tail + el), false);
        ClosedIsNotEmpty(m, ins, tail + el);
        JoinConcat(Lines(ins) + [line], more);
        JoinSnoc(Lines(ins), line);
        LineIsNotLonger(ins, line, Join(more), el);
      } else {
        EndsInInsertion(m, ins, tail, el);
      }
    }
  }

  /** A line that consists of a tag. */
  function TagLine(tag: Text): Text {
    if Ended(tag) then tag else tag + [NEWLINE]
  }

  lemma TagLineIsLine(tag: Text)
    requires FitsLine(tag) && NUL !in tag
    ensures var line := TagLine(tag);
            IsLine(line) && Ended(line) && NUL !in line && tag <= line && Contains(line, tag)
  {
    var line := TagLine(tag);
    if !Ended(tag) {
      assert line[..|line| - 1] == tag == tag[..|tag| - 1] + [tag[|tag| - 1]];
    }
    ContainsTag([], tag, line[|tag|..]);
    assert [] + tag + line[|tag|..] == line;
  }

  lemma JoinInTurn(a: Text, lines: seq<Text>, z: Text)
    ensures Join([a] + (lines + [z])) == a + (Join(lines) + z)
  {
    JoinConcat([a], lines + [z]);
    JoinSnoc(lines, z);
    JoinOne(a);
  }

  lemma EmptyBlockOnce(c: Config)
    requires EditsLines(c)
    ensures var bl, el := TagLine(c.marking.beginTag), TagLine(c.marking.endTag);
            RunOutput(c, Lines(bl + el)) == bl + (c.insertion + el)
  {
    hide RunOutput, Contains, Lines, FitsLine, TagLine, IsLine, EditedLines;
    var m, ins := c.marking, c.insertion;
    var bl, el := TagLine(m.beginTag), TagLine(m.endTag);
    TagLineIsLine(m.beginTag);
    TagLineIsLine(m.endTag);
    LineIsFirst(bl, el);
    LineIsFirst(el, []);
    NothingToInsert();
    assert el + [] == el && [el] + [] == [el];
    FirstEdited(m, ins, bl, [el], false);
    FirstEdited(m, ins, el, [], true);
    NothingEdited(m, ins);
    ReplaceIsLineEdit(c, Lines(bl + el));
    JoinInTurn(bl, Lines(ins), el);
    assert Lines(ins) + [el] + [] == Lines(ins) + [el];
  }

  lemma BlockAgain(c: Config, rest: Text)
    requires EditsLines(c)
    ensures var bl := TagLine(c.marking.beginTag);
            RunOutput(c, Lines(bl + rest)) == bl + Join(EditedLines(c.marking, c.insertion, Lines(rest), true))
  {
    hide RunOutput, Contains, Lines, FitsLine, TagLine, IsLine, EditedLines;
    var m, ins, bl := c.marking, c.insertion, TagLine(c.marking.beginTag);
    TagLineIsLine(m.beginTag);
    LineIsFirst(bl, rest);
    FirstEdited(m, ins, bl, Lines(rest), false);
    ReplaceIsLineEdit(c, Lines(bl + rest));
    JoinConcat([bl], EditedLines(m, ins, Lines(rest), true));
    JoinOne(bl);
  }

  /** An empty block, if the insertion is not made of whole lines without the end tag. */
  lemma EmptyBlockTwice(c: Config)
    requires EditsLines(c) && !InsertsWholeLines(c.marking.endTag, c.insertion)
    ensures var text := TagLine(c.marking.beginTag) + TagLine(c.marking.endTag);
            NUL !in text && Ended(text) && !TwiceIsOnce(c, text)
  {
    hide RunOutput, Contains, Lines, InsertsWholeLines, FitsLine, TagLine, IsLine, EditedLines;
    var m, ins := c.marking, c.insertion;
    var bl, el := TagLine(m.beginTag), TagLine(m.endTag);
    TagLineIsLine(m.beginTag);
    TagLineIsLine(m.endTag);
    EmptyBlockOnce(c);
    BlockAgain(c, ins + el);
    EndsInInsertion(m, ins, ins, el);
    var more := Join(EditedLines(m, ins, Lines(ins + el), true));
    assert (bl + more)[|bl|..] == more && (bl + (ins + el))[|bl|..] == ins + el;
  }

  /**
   Replace with full tag lines and distinct, excluded tags.  On texts that end with a newline, runs are
   idempotent if and only if the insertion consists of whole lines without the end tag.  On all texts,
   the begin tag must also end with a newline, so that no block begins in a last line without one,
   unless nothing is inserted.
   */
  lemma FullLinesIdempotentIff(c: Config)
    requires EditsLines(c)
    ensures (forall text :: NUL !in text && (text == [] || Ended(text)) ==> TwiceIsOnce(c, text)) <==>
            InsertsWholeLines(c.marking.endTag, c.insertion)
    ensures (forall text :: NUL !in text ==> TwiceIsOnce(c, text)) <==>
            InsertsWholeLines(c.marking.endTag, c.insertion) && (c.insertion == [] || Ended(c.marking.beginTag))
  {
    hide RunOutput, Contains, Lines, FitsLine, InsertsWholeLines, TwiceIsOnce, IsLine, Ended, TagLine;
    var m, b, e, ins := c.marking, c.marking.beginTag, c.marking.endTag, c.insertion;
    if InsertsWholeLines(e, ins) {
      forall text | NUL !in text && (text == [] || Ended(text))
        ensures TwiceIsOnce(c, text)
      {
        NothingToInsert();
        forall l | l in Lines(text)
          ensures Ended(l)
        {
          EndedTextHasEndedLines(text, l);
        }
        LinesTwice(c, text);
      }
      if ins == [] || Ended(b) {
        forall text | NUL !in text
          ensures TwiceIsOnce(c, text)
        {
          EndedBeginTag(b, ins, text);
          LinesTwice(c, text);
        }
      } else {
        GrowsTwice(c);
      }
    } else {
      EmptyBlockTwice(c);
    }
  }

  lemma EndedBeginTag(b: Text, ins: Text, text: Text)
    requires ins == [] || Ended(b)
    ensures BlocksBeginEnded(b, ins, Lines(text))
  {
    hide Contains, Lines, IsLine, Ended;
    LinesAreProper(text);
    forall l | l in Lines(text) && Contains(l, b) && Ended(b)
      ensures Ended(l)
    {
      EndedTagEndsLine(l, b);
    }
  }

  lemma GrowsTwice(c: Config)
    requires EditsLines(c) && c.insertion != [] && !Ended(c.marking.beginTag)
    ensures NUL !in c.marking.beginTag && !TwiceIsOnce(c, c.marking.beginTag)
  {
    hide RunOutput, Lines, FitsLine;
    GrowsBehindLastLine(c);
  }

  /** A begin tag b in a last line without newline, and the line x inserted: b becomes bx, then bx and x. */
  lemma FullLinesTwiceDiffers(labels: LabelKind -> Text, lineNumber: nat -> Text)
    ensures var options := Options(Replace, Some([98]), Some([101]), false, true, 0, 0, Some([120, NEWLINE]), labels, lineNumber);
            var normalised := Normalise(options, None);
            && normalised.Success?
            && RunOutput(normalised.value, Lines([98])) == [98, 120, NEWLINE]
            && |RunOutput(normalised.value, Lines([98, 120, NEWLINE]))| > 3
  {
    hide RunOutput, Lines;
    var c := Config(Replace, Marking([98], [101], false, true, 0, 0), [120, NEWLINE], labels, lineNumber);
    GrowsBehindLastLine(c);
    assert [98] + [120, NEWLINE] == [98, 120, NEWLINE];
  }

  // ---- Equal tags ----

  /** Replace with equal, excluded tags, in lines or in tags only: all blocks are empty. */
  predicate OnlyInserts(c: Config) {
    && c.mode == Replace
    && c.marking.Normalised() && c.marking.Tagged() && c.marking.EqualTags() && !c.marking.includeTags
    && FitsLine(c.marking.beginTag) && NUL !in c.marking.beginTag + c.insertion
  }

  predicate NoneInside(tape: Tape) {
    forall i :: 0 <= i < |tape| ==> !tape[i].Inside?
  }

  lemma {:induction false} ExtractsNothing(c: Config, tape: Tape)
    requires NoneInside(tape) && c.mode == Extract
    ensures Play(c, tape) == []
  {
    if tape != [] {
      hide Play;
      PlayFirst(c, tape);
      ExtractsNothing(c, tape[1..]);
    } else {
      assert Play(c, []) == [];
    }
  }

  lemma {:induction false} LinesNoneInside(m: Marking, lines: seq<Text>)
    requires m.EqualTags() && !m.includeTags
    ensures NoneInside(FullLinesTape(m, lines, false))
    decreases |lines|
  {
    hide Contains;
    if lines != [] {
      LinesNoneInside(m, lines[1..]);
    }
  }

  lemma {:induction false} ScanNoneInside(m: Marking, text: Text)
    requires TagsOnly(m) && m.EqualTags() && !m.includeTags
    ensures NoneInside(ScanTape(m, text, m.beginTag))
    decreases |text|
  {
    hide Find, FindFrom;
    var at := Find(text, m.beginTag);
    if at.Some? {
      ScanNoneInside(m, text[at.value + |m.beginTag|..]);
    }
  }

  lemma NothingInside(c: Config, text: Text)
    requires OnlyInserts(c) && NUL !in text
    ensures RunOutput(c.(mode := Extract), Lines(text)) == []
  {
    hide RunOutput, Lines, NoneInside, FitsLine, Play, ScanTape, FullLinesTape;
    var m := c.marking;
    if m.fullTagLines {
      FullTagLinesRunIsFold(m, Lines(text));
      LinesNoneInside(m, Lines(text));
    } else {
      RunIsScan(m, text);
      ScanNoneInside(m, text);
    }
    RunOutputIsPlayed(c.(mode := Extract), Lines(text));
    ExtractsNothing(c.(mode := Extract), RunTape(m, Lines(text)));
  }

  /** The text with one copy of the insertion per action. */
  lemma OnlyInsertsLength(c: Config, text: Text)
    requires OnlyInserts(c) && NUL !in text
    ensures |RunOutput(c, Lines(text))| == |text| + Actions(Run(c.marking, Lines(text))) * |c.insertion|
    ensures c.insertion == [] ==> RunOutput(c, Lines(text)) == text
  {
    hide RunOutput, Lines, Play, Run, FitsLine;
    var tape := RunTape(c.marking, Lines(text));
    NothingInside(c, text);
    RunTapeIsWellFormed(c.marking, Lines(text));
    RunOutputIsPlayed(c, Lines(text));
    RunOutputIsPlayed(c.(mode := Extract), Lines(text));
    ReplaceLength(c, false, tape);
    if c.insertion == [] {
      ExtractThenReplace(c, Lines(text));
    }
  }

  /** A text that begins with the tag has an action. */
  lemma TagActs(c: Config, rest: Text)
    requires OnlyInserts(c) && NUL !in rest
    ensures Actions(Run(c.marking, Lines(c.marking.beginTag + rest))) >= 1
  {
    hide Lines, Run, FitsLine, Enters, ScanTape, FullLinesTape;
    var m, tag := c.marking, c.marking.beginTag;
    var text := tag + rest;
    RunTapeIsWellFormed(m, Lines(text));
    if m.fullTagLines {
      FullTagLinesRunIsFold(m, Lines(text));
      TagInFirstLine(m, rest);
    } else {
      RunIsScan(m, text);
      TagFirst(m, rest);
    }
  }

  lemma BeginsEmptyBlock(text: Text, rest: Tape)
    ensures Enters(Items(text, false) + [Enter, Leave] + rest) >= 1
  {
    hide Items;
    var tail := [Enter, Leave] + rest;
    ItemsWellFormed(text, false, tail);
    assert Items(text, false) + [Enter, Leave] + rest == Items(text, false) + tail;
    assert tail[0] == Enter;
  }

  lemma TagFirst(m: Marking, rest: Text)
    requires TagsOnly(m) && m.EqualTags() && !m.includeTags
    ensures Enters(ScanTape(m, m.beginTag + rest, m.beginTag)) >= 1
  {
    hide Find, ScanTape, Enters, Items;
    var tag, text := m.beginTag, m.beginTag + rest;
    FindAtStart(tag, rest);
    ScanFound(m, text, tag, 0);
    BeginsEmptyBlock(text[..|tag|], ScanTape(m, text[|tag|..], tag));
  }

  lemma TagInFirstLine(m: Marking, rest: Text)
    requires m.EqualTags() && !m.includeTags && FitsLine(m.beginTag) && NUL !in m.beginTag + rest
    ensures Enters(FullLinesTape(m, Lines(m.beginTag + rest), false)) >= 1
  {
    hide Enters, Items, Contains, Lines, LineLength;
    var tag := m.beginTag;
    TagBeginsLine(tag, rest);
    var lines := Lines(tag + rest);
    var more := FullLinesTape(m, lines[1..], false);
    BeginsEmptyBlock(lines[0], more);
  }

  lemma TagBeginsLine(tag: Text, rest: Text)
    requires FitsLine(tag) && NUL !in tag + rest
    ensures var lines := Lines(tag + rest);
            lines != [] && Contains(lines[0], tag)
  {
    hide Contains, Lines, LineLength;
    assert IsLine(tag);
    NothingToInsert();
    if rest == [] || Ended(tag) {
      LineIsFirst(tag, rest);
      ContainsTag([], tag, []);
      assert [] + tag + [] == tag;
    } else {
      assert NEWLINE !in tag;
      LinesMerged(tag, rest);
      var first := rest[..LineLength(rest)];
      ContainsTag([], tag, first);
      assert [] + tag + first == tag + first;
    }
  }

  lemma PlayedInsertion(c: Config, text: Text)
    requires c.mode == Replace
    ensures Play(c, Items(text, false) + [Enter, Leave] + []) == text + c.insertion
  {
    hide Play, Items;
    assert Items(text, false) + [Enter, Leave] + [] == Items(text, false) + [Enter] + [Leave];
    PlayConcat(c, Items(text, false) + [Enter], [Leave]);
    PlayConcat(c, Items(text, false), [Enter]);
    PlayItems(c, text, false);
    PlayedOne(c);
    assert text + [] == text;
  }

  lemma TagOnce(c: Config)
    requires OnlyInserts(c)
    ensures RunOutput(c, Lines(c.marking.beginTag)) == c.marking.beginTag + c.insertion
  {
    hide RunOutput, Lines, Play, Items, ScanTape, Find, Contains, Run;
    var m, tag := c.marking, c.marking.beginTag;
    RunOutputIsPlayed(c, Lines(tag));
    assert tag + [] == tag;
    if m.fullTagLines {
      FullTagLinesRunIsFold(m, Lines(tag));
      TagBeginsLine(tag, []);
      LineIsFirst(tag, []);
      NothingToInsert();
      assert FullLinesTape(m, [tag], false) == Items(tag, false) + [Enter, Leave] + FullLinesTape(m, [], false);
    } else {
      RunIsScan(m, tag);
      FindAtStart(tag, []);
      ScanFound(m, tag, tag, 0);
      assert tag[..|tag|] == tag && tag[|tag|..] == [];
      NothingToScan(m, tag);
    }
    PlayedInsertion(c, tag);
  }

  lemma TagGrows(c: Config)
    requires OnlyInserts(c) && c.insertion != []
    ensures NUL !in c.marking.beginTag && !TwiceIsOnce(c, c.marking.beginTag)
  {
    hide RunOutput, Lines, Run, FitsLine, Actions, Play, Items;
    var m, tag := c.marking, c.marking.beginTag;
    TagOnce(c);
    TagActs(c, c.insertion);
    OnlyInsertsLength(c, tag + c.insertion);
    var n := Actions(Run(m, Lines(tag + c.insertion)));
    assert n * |c.insertion| >= |c.insertion| by {
      assert n * |c.insertion| == (n - 1) * |c.insertion| + |c.insertion|;
    }
  }

  /** With equal, excluded tags, runs of Replace are idempotent on all texts if and only if nothing is inserted. */
  lemma EqualTagsIdempotentIff(c: Config)
    requires OnlyInserts(c)
    ensures (forall text :: NUL !in text ==> TwiceIsOnce(c, text)) <==> c.insertion == []
  {
    hide RunOutput, Lines, Run, FitsLine, Actions;
    if c.insertion == [] {
      forall text | NUL !in text
        ensures TwiceIsOnce(c, text)
      {
        OnlyInsertsLength(c, text);
      }
    } else {
      TagGrows(c);
    }
  }
}

/**
 Which calls Text-Block's main loop makes, line by line.

 The functions follow the loop's own steps and are what the methods of `TextBlock` are proved
 against; modules `TextBlockScan` and `TextBlockLines` then characterise them without reference to
 lines, tag positions or loops.
 */
module TextBlockRun {
  import opened Bytes
  import opened TextBlockModel

  /** The calls a part of the loop makes, and the values of Pointer and MarkerTag after it. */
  datatype Step = Step(calls: seq<Call>, pointer: nat, marker: Text)

  /** Is `marker` one of the values MarkerTag can have? */
  predicate Sought(m: Marking, marker: Text) {
    marker == m.beginTag || marker == m.endTag
  }

  /**
   The part of the termination measure that decreases when a step leaves Pointer where it is: with
   included tags the begin tag is not consumed, with excluded tags the end tag is not.
   */
  function Phase(m: Marking, marker: Text): nat {
    if m.EqualTags() then 0 else if (marker == m.beginTag) == m.includeTags then 1 else 0
  }

  /** A tag was found at `next`. */
  function TagFound(m: Marking, line: Text, lineNo: nat, p: nat, marker: Text, next: nat): (s: Step)
    requires p <= next && next + |marker| <= |line|
    ensures next <= s.pointer <= next + |marker|
    ensures Sought(m, s.marker)
    ensures Sought(m, marker) && marker != [] && s.pointer == p && !m.fullTagLines ==>
              Phase(m, s.marker) < Phase(m, marker)
  {
    var past := next + |marker|;
    if marker == m.beginTag then
      if m.fullTagLines then
        if m.includeTags then
          Step([Unmarked([], true, lineNo), Marked(line[p..past], false)], past, m.endTag)
        else
          Step([Unmarked(line[p..past], false, lineNo)], past, m.endTag)
      else if m.includeTags then
        if m.EqualTags() then
          Step([Unmarked(line[p..next], true, lineNo), Marked(line[next..past], true)], past, m.endTag)
        else
          Step([Unmarked(line[p..next], true, lineNo)], next, m.endTag)
      else if m.EqualTags() then
        Step([Unmarked(line[p..past], true, lineNo), Marked([], true)], past, m.endTag)
      else
        Step([Unmarked(line[p..past], true, lineNo)], past, m.endTag)
    else if m.fullTagLines then
      if m.includeTags then
        Step([Marked(line[p..past], false)], past, m.beginTag)
      else
        Step([Marked([], true), Unmarked(line[p..past], false, lineNo)], past, m.beginTag)
    else if m.includeTags then
      Step([Marked(line[p..past], true)], past, m.beginTag)
    else
      Step([Marked(line[p..next], true)], next, m.beginTag)
  }

  /** The loop over the tags of a line. */
  function TagLoop(m: Marking, line: Text, lineNo: nat, p: nat, marker: Text): (s: Step)
    requires m.Normalised() && m.Tagged() && Sought(m, marker) && p <= |line|
    ensures s.pointer <= |line| && Sought(m, s.marker)
    decreases |line| - p, Phase(m, marker)
  {
    var next := StrStr(line[p..], marker);
    if next.None? then Step([], p, marker)
    else
      var s := TagFound(m, line, lineNo, p, marker, p + next.value);
      if m.fullTagLines then s
      else
        var rest := TagLoop(m, line, lineNo, s.pointer, s.marker);
        Step(s.calls + rest.calls, rest.pointer, rest.marker)
  }

  /** One round of the loop. */
  lemma TagLoopUnfold(m: Marking, line: Text, lineNo: nat, p: nat, marker: Text)
    requires m.Normalised() && m.Tagged() && Sought(m, marker) && p <= |line|
    ensures var next := StrStr(line[p..], marker);
            TagLoop(m, line, lineNo, p, marker) ==
              if next.None? then Step([], p, marker)
              else
                var s := TagFound(m, line, lineNo, p, marker, p + next.value);
                if m.fullTagLines then s
                else
                  var rest := TagLoop(m, line, lineNo, s.pointer, s.marker);
                  Step(s.calls + rest.calls, rest.pointer, rest.marker)
  {}

  /** The rest of a line, behind the last tag that was handled. */
  function LineRest(m: Marking, line: Text, lineNo: nat, p: nat, marker: Text, found: bool): seq<Call>
    requires p <= |line|
  {
    if m.fullTagLines && found then
      if m.includeTags then [Marked(line[p..], marker == m.beginTag)]
      else if !m.EqualTags() then [Unmarked(line[p..], marker == m.endTag, lineNo)]
      else [Unmarked(line[p..], true, lineNo), Marked([], true)]
    else if marker == m.beginTag then [Unmarked(line[p..], false, lineNo)]
    else [Marked(line[p..], false)]
  }

  function TaggedLine(m: Marking, line: Text, lineNo: nat, marker: Text): (s: Step)
    requires m.Normalised() && m.Tagged() && Sought(m, marker)
    ensures Sought(m, s.marker)
  {
    var s := TagLoop(m, line, lineNo, 0, marker);
    var found := StrStr(line, marker).Some?;
    Step(s.calls + LineRest(m, line, lineNo, s.pointer, s.marker, found), s.pointer, s.marker)
  }

  /** The test for a selected line. */
  predicate Selected(m: Marking, lineNo: nat) {
    m.selectBegin > 0 && lineNo >= m.selectBegin && (m.selectEnd == 0 || lineNo <= m.selectEnd)
  }

  function UntaggedLine(m: Marking, line: Text, lineNo: nat): seq<Call> {
    if Selected(m, lineNo) then
      (if lineNo == m.selectBegin then [Unmarked([], true, lineNo)] else [])
      + [Marked(line, false)]
      + (if lineNo == m.selectEnd then [Marked([], true)] else [])
    else [Unmarked(line, false, lineNo)]
  }

  function LineStep(m: Marking, line: Text, lineNo: nat, marker: Text): (s: Step)
    requires m.Normalised() && Sought(m, marker)
    ensures Sought(m, s.marker)
  {
    if m.Tagged() then TaggedLine(m, line, lineNo, marker)
    else Step(UntaggedLine(m, line, lineNo), 0, marker)
  }

  /** The calls for all lines, of which `done` have been read before, with the last MarkerTag. */
  function RunLines(m: Marking, lines: seq<Text>, done: nat, marker: Text): (s: Step)
    requires m.Normalised() && Sought(m, marker)
    ensures Sought(m, s.marker)
    decreases |lines|
  {
    if lines == [] then Step([], 0, marker)
    else
      var s := LineStep(m, lines[0], done + 1, marker);
      var rest := RunLines(m, lines[1..], done + 1, s.marker);
      Step(s.calls + rest.calls, rest.pointer, rest.marker)
  }

  /** A block that is open at the end of the file is closed there. */
  function Closing(block: bool): seq<Call> {
    if block then [Marked([], true)] else []
  }

  /** All calls of a run over the lines of a file. */
  function Run(m: Marking, lines: seq<Text>): seq<Call>
    requires m.Normalised()
  {
    var calls := RunLines(m, lines, 0, m.beginTag).calls;
    calls + Closing(EndState(false, calls))
  }

  /** What a run writes. */
  function RunOutput(c: Config, lines: seq<Text>): Text
    requires c.marking.Normalised()
  {
    Output(c, Run(c.marking, lines))
  }

  /** Reading one more line. */
  lemma {:induction false} RunLinesSnoc(m: Marking, lines: seq<Text>, line: Text, done: nat, marker: Text)
    requires m.Normalised() && Sought(m, marker)
    ensures var s := RunLines(m, lines, done, marker);
            var t := LineStep(m, line, done + |lines| + 1, s.marker);
            RunLines(m, lines + [line], done, marker).calls == s.calls + t.calls
            && RunLines(m, lines + [line], done, marker).marker == t.marker
    decreases |lines|
  {
    hide LineStep;
    var more := lines + [line];
    if lines == [] {
      var t := LineStep(m, line, done + 1, marker);
      assert more[0] == line && more[1..] == [];
      assert RunLines(m, [], done + 1, t.marker).calls == [];
    } else {
      var s := LineStep(m, lines[0], done + 1, marker);
      assert more[0] == lines[0] && more[1..] == lines[1..] + [line];
      RunLinesSnoc(m, lines[1..], line, done + 1, s.marker);
    }
  }

  // ---- Protocol: InMarkedBlock is determined by MarkerTag and LineNo ----

  /** InMarkedBlock while tags are handled: is the tag sought an end tag that is not also the begin tag? */
  predicate TagOpen(m: Marking, marker: Text) {
    marker != m.beginTag
  }

  /** InMarkedBlock between two lines, after line `lineNo`. */
  predicate BlockOpen(m: Marking, lineNo: nat, marker: Text) {
    if m.Tagged() then TagOpen(m, marker)
    else Selected(m, lineNo) && lineNo != m.selectEnd
  }

  lemma TagFoundLegal(m: Marking, line: Text, lineNo: nat, p: nat, marker: Text, next: nat)
    requires Sought(m, marker) && !m.fullTagLines
    requires p <= next && next + |marker| <= |line|
    ensures var s := TagFound(m, line, lineNo, p, marker, next);
            Leads(TagOpen(m, marker), s.calls, TagOpen(m, s.marker))
  {
    var calls := TagFound(m, line, lineNo, p, marker, next).calls;
    if |calls| == 2 {
      LeadsTwo(calls[0], calls[1]);
      assert calls == [calls[0], calls[1]];
    } else {
      LeadsOne(calls[0]);
      assert calls == [calls[0]];
    }
  }

  lemma {:induction false} TagLoopLegal(m: Marking, line: Text, lineNo: nat, p: nat, marker: Text)
    requires m.Normalised() && m.Tagged() && Sought(m, marker) && p <= |line| && !m.fullTagLines
    ensures var s := TagLoop(m, line, lineNo, p, marker);
            Leads(TagOpen(m, marker), s.calls, TagOpen(m, s.marker))
    decreases |line| - p, Phase(m, marker)
  {
    hide TagLoop, TagFound, StrStr, Leads;
    TagLoopUnfold(m, line, lineNo, p, marker);
    var next := StrStr(line[p..], marker);
    if next.None? {
      LeadsNone(TagOpen(m, marker));
    } else {
      var s := TagFound(m, line, lineNo, p, marker, p + next.value);
      TagFoundLegal(m, line, lineNo, p, marker, p + next.value);
      TagLoopLegal(m, line, lineNo, s.pointer, s.marker);
      var rest := TagLoop(m, line, lineNo, s.pointer, s.marker);
      LeadsBoth(TagOpen(m, marker), s.calls, TagOpen(m, s.marker), rest.calls, TagOpen(m, rest.marker));
    }
  }

  lemma TagsOnlyLineLegal(m: Marking, line: Text, lineNo: nat, marker: Text)
    requires m.Normalised() && m.Tagged() && Sought(m, marker) && !m.fullTagLines
    ensures var s := TaggedLine(m, line, lineNo, marker);
            Leads(TagOpen(m, marker), s.calls, TagOpen(m, s.marker))
  {
    var s := TagLoop(m, line, lineNo, 0, marker);
    TagLoopLegal(m, line, lineNo, 0, marker);
    var rest := LineRest(m, line, lineNo, s.pointer, s.marker, StrStr(line, marker).Some?);
    LeadsOne(rest[0]);
    assert rest == [rest[0]];
    LeadsBoth(TagOpen(m, marker), s.calls, TagOpen(m, s.marker), rest, TagOpen(m, s.marker));
  }

  /** A line with a tag in full-tag-lines mode: the block starts before or after it, or ends there. */
  lemma FullLineLegal(m: Marking, line: Text, lineNo: nat, marker: Text)
    requires m.Normalised() && m.Tagged() && Sought(m, marker) && m.fullTagLines
    ensures var s := TaggedLine(m, line, lineNo, marker);
            Leads(TagOpen(m, marker), s.calls, TagOpen(m, s.marker))
  {
    var block := TagOpen(m, marker);
    var s := TagLoop(m, line, lineNo, 0, marker);
    assert line[0..] == line;
    var rest := LineRest(m, line, lineNo, s.pointer, s.marker, StrStr(line, marker).Some?);
    var via := rest[0].Marked?;
    assert Leads(block, s.calls, via) by {
      if |s.calls| == 2 {
        LeadsTwo(s.calls[0], s.calls[1]);
        assert s.calls == [s.calls[0], s.calls[1]];
      } else if |s.calls| == 1 {
        LeadsOne(s.calls[0]);
        assert s.calls == [s.calls[0]];
      }
    }
    assert Leads(via, rest, TagOpen(m, s.marker)) by {
      if |rest| == 2 {
        LeadsTwo(rest[0], rest[1]);
        assert rest == [rest[0], rest[1]];
      } else {
        LeadsOne(rest[0]);
        assert rest == [rest[0]];
      }
    }
    LeadsBoth(block, s.calls, via, rest, TagOpen(m, s.marker));
  }

  lemma UntaggedLineLegal(m: Marking, line: Text, lineNo: nat, marker: Text)
    requires !m.Tagged() && lineNo > 0
    ensures Leads(BlockOpen(m, lineNo - 1, marker), UntaggedLine(m, line, lineNo), BlockOpen(m, lineNo, marker))
  {
    var block := BlockOpen(m, lineNo - 1, marker);
    if Selected(m, lineNo) {
      var a: seq<Call> := if lineNo == m.selectBegin then [Unmarked([], true, lineNo)] else [];
      var z: seq<Call> := if lineNo == m.selectEnd then [Marked([], true)] else [];
      assert Leads(block, a, true) by {
        if a != [] { LeadsOne(a[0]); }
      }
      LeadsOne(Marked(line, false));
      LeadsBoth(block, a, true, [Marked(line, false)], true);
      assert Leads(true, z, lineNo != m.selectEnd) by {
        if z != [] { LeadsOne(z[0]); }
      }
      LeadsBoth(block, a + [Marked(line, false)], true, z, lineNo != m.selectEnd);
    } else {
      LeadsOne(Unmarked(line, false, lineNo));
    }
  }

  lemma LineStepLegal(m: Marking, line: Text, lineNo: nat, marker: Text)
    requires m.Normalised() && Sought(m, marker) && lineNo > 0
    ensures var s := LineStep(m, line, lineNo, marker);
            Leads(BlockOpen(m, lineNo - 1, marker), s.calls, BlockOpen(m, lineNo, s.marker))
  {
    if !m.Tagged() {
      UntaggedLineLegal(m, line, lineNo, marker);
    } else if m.fullTagLines {
      FullLineLegal(m, line, lineNo, marker);
    } else {
      TagsOnlyLineLegal(m, line, lineNo, marker);
    }
  }

  /** Between lines InMarkedBlock is what BlockOpen says, and no assert has failed. */
  lemma {:induction false} RunLinesLegal(m: Marking, lines: seq<Text>, done: nat, marker: Text)
    requires m.Normalised() && Sought(m, marker)
    ensures var s := RunLines(m, lines, done, marker);
            Leads(BlockOpen(m, done, marker), s.calls, BlockOpen(m, done + |lines|, s.marker))
    decreases |lines|
  {
    var from := BlockOpen(m, done, marker);
    if lines == [] {
      LeadsNone(from);
    } else {
      var s := LineStep(m, lines[0], done + 1, marker);
      var rest := RunLines(m, lines[1..], done + 1, s.marker);
      LineStepLegal(m, lines[0], done + 1, marker);
      RunLinesLegal(m, lines[1..], done + 1, s.marker);
      LeadsBoth(from, s.calls, BlockOpen(m, done + 1, s.marker), rest.calls, BlockOpen(m, done + |lines|, rest.marker));
    }
  }

  /** No run violates an assert, in any configuration, and every run ends outside a block. */
  lemma RunIsLegal(m: Marking, lines: seq<Text>)
    requires m.Normalised()
    ensures Leads(false, Run(m, lines), false)
  {
    RunLinesLegal(m, lines, 0, m.beginTag);
    var calls := RunLines(m, lines, 0, m.beginTag).calls;
    var open := EndState(false, calls);
    if open { LeadsOne(Marked([], true)); }
    LeadsBoth(false, calls, open, Closing(open), false);
  }
}

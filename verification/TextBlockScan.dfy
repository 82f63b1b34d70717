/**
 Tags-only marking as one scan of the whole text.  The program searches line by line; this module
 shows that the lines do not matter: its tape is that of a scan that never heard of lines.
 */
module TextBlockScan {
  import opened Bytes
  import opened Sequences
  import opened OptionType
  import opened TextBlockModel
  import opened TextBlockRun
  import opened TextBlockTape

  /** A tag that fits into a line: if it has a newline, it ends with it. */
  predicate FitsLine(tag: Text) {
    tag != [] && NEWLINE !in tag[..|tag| - 1]
  }

  predicate TagsOnly(m: Marking) {
    m.Normalised() && m.Tagged() && !m.fullTagLines
  }

  // ---- The scan ----

  /** Where the scan goes on after finding the tag at `at`: behind the tag or, if not yet, at it. */
  function Cut(m: Marking, marker: Text, at: nat): nat {
    if Phase(m, marker) == 1 then at else at + |marker|
  }

  /** The text up to there: the begin tag opens a block, the end tag closes it, equal tags do both. */
  function CutTape(m: Marking, text: Text, marker: Text, at: nat): Tape
    requires at + |marker| <= |text|
  {
    var past := at + |marker|;
    if m.EqualTags() then
      if m.includeTags then Items(text[..at], false) + [Enter] + Items(text[at..past], true) + [Leave]
      else Items(text[..past], false) + [Enter, Leave]
    else
      var cut := Cut(m, marker, at);
      Items(text[..cut], TagOpen(m, marker)) + [if TagOpen(m, marker) then Leave else Enter]
  }

  /** The tag sought after `marker`. */
  function OtherTag(m: Marking, marker: Text): Text {
    if marker == m.beginTag then m.endTag else m.beginTag
  }

  function ScanTape(m: Marking, text: Text, marker: Text): Tape
    requires TagsOnly(m) && Sought(m, marker)
    decreases |text|, Phase(m, marker)
  {
    var at := Find(text, marker);
    if at.None? then Items(text, TagOpen(m, marker)) + (if TagOpen(m, marker) then [Leave] else [])
    else
      CutTape(m, text, marker, at.value) + ScanTape(m, text[Cut(m, marker, at.value)..], OtherTag(m, marker))
  }

  /** The tag that the scan still seeks at the end of the text. */
  function ScanMarker(m: Marking, text: Text, marker: Text): (last: Text)
    requires TagsOnly(m) && Sought(m, marker)
    ensures Sought(m, last)
    decreases |text|, Phase(m, marker)
  {
    var at := Find(text, marker);
    if at.None? then marker
    else ScanMarker(m, text[Cut(m, marker, at.value)..], OtherTag(m, marker))
  }

  // ---- Line by line ----

  /** No tag that fits into a line begins in one line and ends in the next. */
  lemma NoStraddling(a: Text, rest: Text, tag: Text)
    requires FitsLine(tag)
    requires a == [] || rest == [] || a[|a| - 1] == NEWLINE
    ensures forall i :: |a| - |tag| < i < |a| ==> !OccursAt(a + rest, tag, i)
  {
    forall i | |a| - |tag| < i < |a|
      ensures !OccursAt(a + rest, tag, i)
    {
      var k := |a| - 1 - i;
      assert tag[k] == tag[..|tag| - 1][k];
      assert 0 <= i && i + |tag| <= |a + rest| ==> (a + rest)[i..i + |tag|][k] == a[|a| - 1];
    }
  }

  /** In a line, a newline comes last. */
  lemma {:induction false} NewlineEndsLine(text: Text, line: Text)
    requires line in Lines(text)
    ensures NEWLINE !in line[..|line| - 1]
    decreases |text|
  {
    var n := LineLength(text);
    assert Lines(text) == [text[..n]] + Lines(text[n..]);
    if line in Lines(text[n..]) {
      NewlineEndsLine(text[n..], line);
    }
  }

  /** A tag with a newline before its end is never found: the program looks for tags in single lines. */
  lemma InnerNewlineIsNeverFound(text: Text, line: Text, p: nat, tag: Text)
    requires line in Lines(text) && p <= |line| && tag != [] && !FitsLine(tag)
    ensures StrStr(line[p..], tag).None?
  {
    NewlineEndsLine(text, line);
    var k :| 0 <= k < |tag| - 1 && tag[..|tag| - 1][k] == NEWLINE;
    var at := StrStr(line[p..], tag);
    if at.Some? {
      FoundInLine(line, p, tag, at.value, k);
    }
  }

  lemma FoundInLine(line: Text, p: nat, tag: Text, at: nat, k: nat)
    requires p <= |line| && OccursAt(line[p..], tag, at) && k < |tag| - 1
    ensures tag[k] in line[..|line| - 1]
  {
    assert line[p..][at..at + |tag|][k] == line[p + at + k];
    assert line[..|line| - 1][p + at + k] == line[p + at + k];
  }

  lemma CutTapeShift(m: Marking, a: Text, text: Text, marker: Text, at: nat)
    requires Sought(m, marker) && at + |marker| <= |text|
    ensures CutTape(m, a + text, marker, |a| + at) == Items(a, TagOpen(m, marker)) + CutTape(m, text, marker, at)
  {
    hide Items, TagOpen;
    var past, open := at + |marker|, TagOpen(m, marker);
    SlicesShift(a, text, at, past);
    ItemsConcat(a, text[..at], open);
    ItemsConcat(a, text[..past], open);
    EqualTagsAreOutside(m, marker);
  }

  lemma EqualTagsAreOutside(m: Marking, marker: Text)
    requires Sought(m, marker)
    ensures m.EqualTags() ==> !TagOpen(m, marker)
  {}

  lemma SlicesShift(a: Text, text: Text, p: nat, q: nat)
    requires p <= q <= |text|
    ensures (a + text)[..|a| + p] == a + text[..p] && (a + text)[..|a| + q] == a + text[..q]
    ensures (a + text)[|a| + p..|a| + q] == text[p..q]
  {}

  /** A text without a tag before the next line only adds its bytes to the tape. */
  lemma ScanSkips(m: Marking, a: Text, rest: Text, marker: Text)
    requires TagsOnly(m) && Sought(m, marker) && FitsLine(marker)
    requires Find(a, marker).None?
    requires a == [] || rest == [] || a[|a| - 1] == NEWLINE
    ensures ScanTape(m, a + rest, marker) == Items(a, TagOpen(m, marker)) + ScanTape(m, rest, marker)
    ensures ScanMarker(m, a + rest, marker) == ScanMarker(m, rest, marker)
  {
    hide CutTape, TagOpen, Items, FitsLine, Find, ScanTape, ScanMarker, OccursAt;
    NoStraddling(a, rest, marker);
    FindAcross(a, rest, marker);
    var at := Find(rest, marker);
    if at.None? {
      ItemsConcat(a, rest, TagOpen(m, marker));
      ScanNothing(m, a + rest, marker);
      ScanNothing(m, rest, marker);
    } else {
      ScanFound(m, rest, marker, at.value);
      ScanFound(m, a + rest, marker, |a| + at.value);
      CutTapeShift(m, a, rest, marker, at.value);
      CutShift(m, marker, |a|, at.value);
      DropMore(a, rest, Cut(m, marker, at.value));
    }
  }

  lemma ScanNothing(m: Marking, text: Text, marker: Text)
    requires TagsOnly(m) && Sought(m, marker) && Find(text, marker).None?
    ensures ScanTape(m, text, marker) ==
            Items(text, TagOpen(m, marker)) + (if TagOpen(m, marker) then [Leave] else [])
    ensures ScanMarker(m, text, marker) == marker
  {}

  lemma ScanFound(m: Marking, text: Text, marker: Text, at: nat)
    requires TagsOnly(m) && Sought(m, marker) && Find(text, marker) == Some(at)
    ensures at + |marker| <= |text| && Cut(m, marker, at) <= |text|
    ensures ScanTape(m, text, marker) ==
            CutTape(m, text, marker, at) + ScanTape(m, text[Cut(m, marker, at)..], OtherTag(m, marker))
    ensures ScanMarker(m, text, marker) == ScanMarker(m, text[Cut(m, marker, at)..], OtherTag(m, marker))
  {}

  lemma CutShift(m: Marking, marker: Text, n: nat, at: nat)
    ensures Cut(m, marker, n + at) == n + Cut(m, marker, at)
  {}

  lemma DropMore(a: Text, b: Text, n: nat)
    requires n <= |b|
    ensures (a + b)[|a| + n..] == b[n..]
  {}

  lemma TagFoundTape(m: Marking, line: Text, lineNo: nat, p: nat, marker: Text, at: nat)
    requires TagsOnly(m) && Sought(m, marker) && p + at + |marker| <= |line|
    ensures var s := TagFound(m, line, lineNo, p, marker, p + at);
            && TapeOf(s.calls) == CutTape(m, line[p..], marker, at)
            && s.pointer == p + Cut(m, marker, at) && s.marker == OtherTag(m, marker)
  {
    hide TapeOf, Items;
    var s := TagFound(m, line, lineNo, p, marker, p + at);
    var past := at + |marker|;
    assert line[p..][..at] == line[p..p + at] && line[p..][..past] == line[p..p + past];
    assert line[p..][at..past] == line[p + at..p + past];
    EmptyTapes();
    if |s.calls| == 2 {
      TapeTwo(s.calls[0], s.calls[1]);
      assert s.calls == [s.calls[0], s.calls[1]];
    } else {
      TapeOne(s.calls[0]);
      assert s.calls == [s.calls[0]];
    }
  }

  /** What is left of a line, scanned together with the rest of the text. */
  lemma {:induction false} LineIsScanned(m: Marking, line: Text, lineNo: nat, p: nat, marker: Text, rest: Text)
    requires TagsOnly(m) && Sought(m, marker) && FitsLine(m.beginTag) && FitsLine(m.endTag)
    requires p <= |line| && NUL !in line
    requires rest == [] || (line != [] && line[|line| - 1] == NEWLINE)
    ensures var s := TagLoop(m, line, lineNo, p, marker);
            ScanTape(m, line[p..] + rest, marker) ==
            TapeOf(s.calls) + Items(line[s.pointer..], TagOpen(m, s.marker)) + ScanTape(m, rest, s.marker)
            && ScanMarker(m, line[p..] + rest, marker) == ScanMarker(m, rest, s.marker)
    decreases |line| - p, Phase(m, marker)
  {
    hide TagLoop, TagFound, CutTape, Cut, TapeOf, Items, ScanTape, ScanMarker, Find, FindFrom, FitsLine;
    TagLoopUnfold(m, line, lineNo, p, marker);
    EmptyTapes();
    var at := StrStr(line[p..], marker);
    if at.None? {
      ScanSkips(m, line[p..], rest, marker);
    } else {
      LineScanStep(m, line, lineNo, p, marker, rest, at.value);
      var s := TagFound(m, line, lineNo, p, marker, p + at.value);
      LineIsScanned(m, line, lineNo, s.pointer, s.marker, rest);
      TapeConcat(s.calls, TagLoop(m, line, lineNo, s.pointer, s.marker).calls);
    }
  }

  lemma LineScanStep(m: Marking, line: Text, lineNo: nat, p: nat, marker: Text, rest: Text, at: nat)
    requires TagsOnly(m) && Sought(m, marker) && p <= |line|
    requires Find(line[p..], marker) == Some(at)
    ensures var s := TagFound(m, line, lineNo, p, marker, p + at);
            ScanTape(m, line[p..] + rest, marker) ==
            TapeOf(s.calls) + ScanTape(m, line[s.pointer..] + rest, s.marker)
            && ScanMarker(m, line[p..] + rest, marker) == ScanMarker(m, line[s.pointer..] + rest, s.marker)
  {
    hide TagFound, CutTape, Cut, TapeOf, Find, ScanTape, ScanMarker, OccursAt;
    FindInPrefix(line[p..], rest, marker);
    ScanFound(m, line[p..] + rest, marker, at);
    FoundFits(line[p..], marker, at);
    TagFoundTape(m, line, lineNo, p, marker, at);
    CutTapePrefix(m, line[p..], rest, marker, at);
    var s := TagFound(m, line, lineNo, p, marker, p + at);
    assert (line[p..] + rest)[s.pointer - p..] == line[s.pointer..] + rest;
  }

  lemma FoundFits(text: Text, tag: Text, at: nat)
    requires Find(text, tag) == Some(at)
    ensures at + |tag| <= |text|
  {}

  lemma CutTapePrefix(m: Marking, a: Text, rest: Text, marker: Text, at: nat)
    requires at + |marker| <= |a|
    ensures CutTape(m, a + rest, marker, at) == CutTape(m, a, marker, at)
  {
    var past := at + |marker|;
    assert (a + rest)[..at] == a[..at] && (a + rest)[..past] == a[..past] && (a + rest)[at..past] == a[at..past];
  }

  lemma TagsOnlyLineTape(m: Marking, line: Text, lineNo: nat, marker: Text)
    requires TagsOnly(m) && Sought(m, marker)
    ensures var s := TagLoop(m, line, lineNo, 0, marker);
            TapeOf(TaggedLine(m, line, lineNo, marker).calls) ==
            TapeOf(s.calls) + Items(line[s.pointer..], TagOpen(m, s.marker))
  {
    hide TagLoop, StrStr;
    var s := TagLoop(m, line, lineNo, 0, marker);
    var rest := LineRest(m, line, lineNo, s.pointer, s.marker, StrStr(line, marker).Some?);
    TapeConcat(s.calls, rest);
    TapeOne(rest[0]);
    assert rest == [rest[0]];
  }

  lemma {:induction false} LinesAreScanned(m: Marking, text: Text, done: nat, marker: Text)
    requires TagsOnly(m) && Sought(m, marker) && FitsLine(m.beginTag) && FitsLine(m.endTag)
    requires NUL !in text
    ensures TapeFrom(m, Lines(text), done, marker) == ScanTape(m, text, marker)
    ensures RunLines(m, Lines(text), done, marker).marker == ScanMarker(m, text, marker)
    decreases |text|
  {
    if text == [] {
      NothingScanned(m, done, marker);
    } else {
      hide TagLoop, TaggedLine, TapeOf, TapeFrom, Items, ScanTape, ScanMarker, FitsLine, LineLength, TagOpen;
      var n := LineLength(text);
      var line, rest := text[..n], text[n..];
      assert Lines(text)[0] == line && Lines(text)[1..] == Lines(rest);
      assert line[0..] + rest == text;
      var s := TaggedLine(m, line, done + 1, marker);
      TapeFromLine(m, Lines(text), done, marker);
      TaggedLineMarker(m, line, done + 1, marker);
      LineIsScanned(m, line, done + 1, 0, marker, rest);
      TagsOnlyLineTape(m, line, done + 1, marker);
      LinesAreScanned(m, rest, done + 1, s.marker);
    }
  }

  lemma NothingScanned(m: Marking, done: nat, marker: Text)
    requires TagsOnly(m) && Sought(m, marker)
    ensures TapeFrom(m, Lines([]), done, marker) == ScanTape(m, [], marker)
    ensures RunLines(m, Lines([]), done, marker).marker == ScanMarker(m, [], marker)
  {
    TapeFromNothing(m, done, marker);
    EmptyTapes();
  }

  lemma TaggedLineMarker(m: Marking, line: Text, lineNo: nat, marker: Text)
    requires m.Normalised() && m.Tagged() && Sought(m, marker)
    ensures TaggedLine(m, line, lineNo, marker).marker == TagLoop(m, line, lineNo, 0, marker).marker
  {}

  /**
   In tags-only mode, with included or excluded, equal or distinct tags, a run over the lines of a
   text marks what one scan of the unsplit text marks, begins and ends the blocks where it does, and
   still seeks the same tag at the end of the file.
   */
  lemma RunIsScan(m: Marking, text: Text)
    requires TagsOnly(m) && FitsLine(m.beginTag) && FitsLine(m.endTag)
    requires NUL !in text
    ensures RunTape(m, Lines(text)) == ScanTape(m, text, m.beginTag)
    ensures RunLines(m, Lines(text), 0, m.beginTag).marker == ScanMarker(m, text, m.beginTag)
  {
    RunLinesLegal(m, Lines(text), 0, m.beginTag);
    LinesAreScanned(m, text, 0, m.beginTag);
  }
}

/**
 build-tool's filter for Debian changelogs: it keeps the complete entries up to the first one that
 closes an ITP ("intent to package") bug, and of that one only its frame and the ITP items.
 */
module Changelog {
  import opened Sequences

  // ---- The patterns ----

  /** `word` and behind it, not overlapping, `next`. */
  predicate ContainsThen(line: string, word: string, next: string) {
    exists i, j :: 0 <= i <= |line| && 0 <= j <= |line| && OccursAt(line, word, i) && OccursAt(line, next, j) && i + |word| <= j
  }

  /** A dot does not match a newline, and a dollar only the end or a newline there. */
  predicate OneLine(line: string) {
    forall i :: 0 <= i < |line| - 1 ==> line[i] != '\n'
  }

  predicate BeginsEntry(line: string) {
    line != "" && ('a' <= line[0] <= 'z' || 'A' <= line[0] <= 'Z') && OneLine(line)
  }

  predicate EndsEntry(line: string) {
    " --" <= line && OneLine(line)
  }

  predicate IsItp(line: string) {
    OneLine(line) && (ContainsThen(line, "Closes:", "ITP") || ContainsThen(line, "ITP", "Closes:"))
  }

  // ---- Lines ----

  /** The characters str.splitlines() splits at. */
  predicate IsSeparator(c: char) {
    c in ['\n', '\r', '\U{0B}', '\U{0C}', '\U{1C}', '\U{1D}', '\U{1E}', '\U{85}', '\U{2028}', '\U{2029}']
  }

  function LengthToSeparator(text: string): (n: nat)
    ensures n <= |text|
    ensures forall i :: 0 <= i < n ==> !IsSeparator(text[i])
    ensures n < |text| ==> IsSeparator(text[n])
  {
    if text == "" || IsSeparator(text[0]) then 0 else 1 + LengthToSeparator(text[1..])
  }

  /** Where the separator at `n` ends; a carriage return and a newline are one. */
  function SeparatorEnd(text: string, n: nat): (end: nat)
    requires n < |text|
    ensures n < end <= |text|
  {
    if text[n] == '\r' && n + 1 < |text| && text[n + 1] == '\n' then n + 2 else n + 1
  }

  /** str.splitlines() */
  function SplitLines(text: string): seq<string>
    decreases |text|
  {
    if text == "" then []
    else
      var n := LengthToSeparator(text);
      if n == |text| then [text]
      else [text[..n]] + SplitLines(text[SeparatorEnd(text, n)..])
  }

  /** How much readlines() takes for a line. */
  function LengthWithNewline(text: string): (n: nat)
    ensures n <= |text|
    ensures text != "" ==> n > 0
  {
    if text == "" then 0 else if text[0] == '\n' then 1 else 1 + LengthWithNewline(text[1..])
  }

  /** readlines() */
  function ReadLines(text: string): seq<string> {
    if text == "" then []
    else
      var n := LengthWithNewline(text);
      [text[..n]] + ReadLines(text[n..])
  }

  // ---- What the filter should do ----

  datatype Entry = Entry(header: string, content: seq<string>, footer: string)
  {
    predicate Itp() {
      exists line :: line in content && IsItp(line)
    }

    /** The entry as it is written; all but the first are set off by an empty line. */
    function Text(first: bool): string {
      (if first then "" else "\n") + header + Join(content) + footer
    }
  }

  /** The complete entries: a header, at least one line of content, and a footer. */
  function Outside(lines: seq<string>): seq<Entry>
    decreases |lines|
  {
    if lines == [] then []
    else if BeginsEntry(lines[0]) then Within(lines[1..], lines[0], [])
    else Outside(lines[1..])
  }

  function Within(lines: seq<string>, header: string, content: seq<string>): seq<Entry>
    decreases |lines|
  {
    if lines == [] then []
    else if EndsEntry(lines[0]) then
      (if content != [] then [Entry(header, content, lines[0])] else []) + Outside(lines[1..])
    else Within(lines[1..], header, content + [lines[0]])
  }

  /** Does a line of the ITP entry survive?  The first two, the last two and the ITP items do. */
  predicate Survives(lines: seq<string>, i: nat)
    requires i < |lines|
  {
    i < 2 || i >= |lines| - 2 || IsItp(lines[i])
  }

  /** The lines of the ITP entry that survive. */
  function CutLines(lines: seq<string>, i: nat): seq<string>
    requires i <= |lines|
    decreases |lines| - i
  {
    if i == |lines| then []
    else (if Survives(lines, i) then [lines[i] + "\n"] else []) + CutLines(lines, i + 1)
  }

  /** Everything up to and including the first ITP entry, which is cut. */
  function Kept(entries: seq<Entry>, first: bool): seq<string>
    decreases |entries|
  {
    if entries == [] then []
    else if entries[0].Itp() then CutLines(SplitLines(entries[0].Text(first)), 0)
    else [entries[0].Text(first)] + Kept(entries[1..], false)
  }

  function Filtered(lines: seq<string>): seq<string> {
    Kept(Outside(lines), true)
  }

  lemma KeptNothing(first: bool)
    ensures Kept([], first) == []
  {}

  lemma JoinNothing()
    ensures Join<char>([]) == ""
  {}

  lemma KeptFirst(e: Entry, rest: seq<Entry>, first: bool)
    ensures Kept([e] + rest, first) ==
            if e.Itp() then CutLines(SplitLines(e.Text(first)), 0) else [e.Text(first)] + Kept(rest, false)
  {
    assert ([e] + rest)[1..] == rest;
  }

  lemma CutLinesStep(parts: seq<string>, i: nat)
    requires i < |parts|
    ensures CutLines(parts, i) == (if Survives(parts, i) then [parts[i] + "\n"] else []) + CutLines(parts, i + 1)
  {}

  lemma NothingCut(lines: seq<string>)
    ensures CutLines(lines, |lines|) == []
  {}

  // ---- The filter ----

  method CutItpEntry(entryContent: string) returns (result: seq<string>)
    ensures result == CutLines(SplitLines(entryContent), 0)
  {
    hide IsItp, SplitLines, CutLines;
    result := [];
    var splitted := SplitLines(entryContent);
    var i := 0;
    while i < |splitted|
      invariant 0 <= i <= |splitted|
      invariant result + CutLines(splitted, i) == CutLines(splitted, 0)
    {
      CutLinesStep(splitted, i);
      var itpLine := splitted[i];
      i := i + 1;
      if i <= 2 || i >= |splitted| - 1 {
        result := result + [itpLine + "\n"];
      } else if IsItp(itpLine) {
        result := result + [itpLine + "\n"];
      }
    }
    NothingCut(splitted);
  }

  method FilterDebianChangelog(lines: seq<string>) returns (result: seq<string>)
    ensures result == Filtered(lines)
  {
    hide BeginsEntry, EndsEntry, IsItp, SplitLines, CutLines, Kept, Join;
    result := [];
    var entries, entryContentLines, entryContent, entryIsItp := 0, 0, "", false;
    ghost var header, content := "", [];
    assert lines[0..] == lines;
    for i := 0 to |lines|
      invariant entries >= 0 && entryContentLines >= 0
      invariant entryContentLines == 0 ==>
                  !entryIsItp && Filtered(lines) == result + Kept(Outside(lines[i..]), entries == 0)
      invariant entryContentLines > 0 ==>
                  && entryContentLines == 1 + |content|
                  && entryContent == (if entries == 0 then "" else "\n") + header + Join(content)
                  && entryIsItp == Entry(header, content, "").Itp()
                  && Filtered(lines) == result + Kept(Within(lines[i..], header, content), entries == 0)
    {
      var line := lines[i];
      assert lines[i..][0] == line && lines[i..][1..] == lines[i + 1..];
      if entryContentLines == 0 {
        if BeginsEntry(line) {
          if entries == 0 {
            entryContent := line;
          } else {
            entryContent := "\n" + line;
          }
          entryContentLines := 1;
          header, content := line, [];
          JoinNothing();
        }
      } else if EndsEntry(line) {
        entryContent := entryContent + line;
        if entryContentLines > 1 {
          ghost var entry := Entry(header, content, line);
          assert entryContent == entry.Text(entries == 0);
          KeptFirst(entry, Outside(lines[i + 1..]), entries == 0);
          entries := entries + 1;
          if !entryIsItp {
            result := result + [entryContent];
          } else {
            var cut := CutItpEntry(entryContent);
            result := result + cut;
            return;
          }
          entryContent := "";
          entryIsItp := false;
        } else {
          assert [] + Outside(lines[i + 1..]) == Outside(lines[i + 1..]);
        }
        entryContentLines := 0;
      } else {
        // The pattern for items matches every line.
        JoinSnoc(content, line);
        content := content + [line];
        entryContent := entryContent + line;
        entryContentLines := entryContentLines + 1;
        if IsItp(line) {
          entryIsItp := true;
        }
      }
    }
    KeptNothing(entries == 0);
  }

  // ---- Filtering the output again ----

  /** A line as readlines() returns it: at most one newline, at the end. */
  predicate IsLine(line: string) {
    line != "" && OneLine(line)
  }

  predicate Terminated(line: string) {
    IsLine(line) && line[|line| - 1] == '\n'
  }

  /** The lines of a text: terminated except possibly the last. */
  predicate Proper(lines: seq<string>) {
    forall i :: 0 <= i < |lines| ==> IsLine(lines[i]) && (i < |lines| - 1 ==> Terminated(lines[i]))
  }

  lemma {:induction false} LengthOfLine(line: string, rest: string)
    requires IsLine(line) && (rest == "" || Terminated(line))
    ensures LengthWithNewline(line + rest) == |line|
    decreases |line|
  {
    var text := line + rest;
    if line[0] != '\n' {
      assert text[1..] == line[1..] + rest;
      if |line| > 1 {
        LengthOfLine(line[1..], rest);
      }
    }
  }

  /** Reading the lines of joined lines gives the lines back. */
  lemma {:induction false} ReadJoined(lines: seq<string>)
    requires Proper(lines)
    ensures ReadLines(Join(lines)) == lines
    decreases |lines|
  {
    if lines != [] {
      var rest := lines[1..];
      assert lines == [lines[0]] + rest;
      JoinConcat([lines[0]], rest);
      JoinOne(lines[0]);
      assert rest == [] ==> Join(rest) == "";
      LengthOfLine(lines[0], Join(rest));
      ReadJoined(rest);
      assert (lines[0] + Join(rest))[|lines[0]|..] == Join(rest);
    }
  }

  /** A line that str.splitlines() splits only at the newline at its end. */
  predicate Plain(line: string) {
    IsLine(line) && forall i :: 0 <= i < |line| ==> IsSeparator(line[i]) ==> line[i] == '\n'
  }

  function Strip(line: string): string {
    if line != "" && line[|line| - 1] == '\n' then line[..|line| - 1] else line
  }

  function Stripped(lines: seq<string>): seq<string> {
    if lines == [] then [] else [Strip(lines[0])] + Stripped(lines[1..])
  }

  lemma {:induction false} LengthOfStripped(line: string, rest: string)
    requires Plain(line) && (rest == "" || Terminated(line))
    ensures LengthToSeparator(line + rest) == |Strip(line)|
    decreases |line|
  {
    var text := line + rest;
    assert text[0] == line[0];
    if !IsSeparator(line[0]) {
      assert text[1..] == line[1..] + rest;
      if |line| > 1 {
        LengthOfStripped(line[1..], rest);
      }
    }
  }

  lemma SplitFirst(line: string, rest: string)
    requires Plain(line) && (rest == "" || Terminated(line))
    ensures SplitLines(line + rest) == [Strip(line)] + SplitLines(rest)
  {
    LengthOfStripped(line, rest);
    var text, n := line + rest, |Strip(line)|;
    if Terminated(line) {
      assert text[n] == '\n' && text[n..n + 1] == [text[n]] && text[n + 1..] == rest && text[..n] == Strip(line);
    } else {
      assert text == line && n == |line|;
    }
  }

  lemma SplitNothing()
    ensures SplitLines("") == []
  {}

  /** splitlines() of joined lines gives the lines without their newlines. */
  lemma {:induction false} SplitJoined(lines: seq<string>)
    requires Proper(lines) && forall i :: 0 <= i < |lines| ==> Plain(lines[i])
    ensures SplitLines(Join(lines)) == Stripped(lines)
    decreases |lines|
  {
    hide SplitLines, Plain, Join, Strip;
    JoinNothing();
    SplitNothing();
    if lines != [] {
      var line, rest := lines[0], lines[1..];
      assert lines == [line] + rest;
      JoinConcat([line], rest);
      JoinOne(line);
      SplitFirst(line, Join(rest));
      SplitJoined(rest);
    }
  }

  // The newline at the end of a line does not matter for the pattern of ITP items.

  lemma OccursStripped(line: string, word: string, i: int)
    requires word != "" && '\n' !in word
    ensures OccursAt(Strip(line), word, i) <==> OccursAt(line, word, i)
  {
    if 0 <= i <= |line| - |word| {
      if i + |word| == |line| {
        assert line[i..i + |word|][|word| - 1] == line[|line| - 1];
        assert word[|word| - 1] in word;
        assert line[i..i + |word|] == word ==> line[|line| - 1] != '\n';
      } else if Strip(line) != line {
        assert Strip(line)[i..i + |word|] == line[i..i + |word|];
      }
    }
  }

  lemma ContainsStripped(line: string, word: string, next: string)
    requires word != "" && '\n' !in word && next != "" && '\n' !in next
    ensures ContainsThen(Strip(line), word, next) <==> ContainsThen(line, word, next)
  {
    forall i
      ensures OccursAt(Strip(line), word, i) <==> OccursAt(line, word, i)
      ensures OccursAt(Strip(line), next, i) <==> OccursAt(line, next, i)
    {
      OccursStripped(line, word, i);
      OccursStripped(line, next, i);
    }
  }

  lemma ItpStripped(line: string)
    requires IsLine(line)
    ensures IsItp(Strip(line)) <==> IsItp(line)
  {
    ContainsStripped(line, "Closes:", "ITP");
    ContainsStripped(line, "ITP", "Closes:");
  }

  // ---- Entries with proper lines ----

  function EntryLines(e: Entry): seq<string> {
    [e.header] + e.content + [e.footer]
  }

  /** The lines of an entry, set off by an empty line unless it is the first. */
  function SetOff(e: Entry, first: bool): seq<string> {
    (if first then [] else ["\n"]) + EntryLines(e)
  }

  lemma SetOffAt(e: Entry, first: bool)
    ensures var lines, o := SetOff(e, first), if first then 0 else 1;
            && |lines| == o + |e.content| + 2
            && (!first ==> lines[0] == "\n")
            && lines[o] == e.header
            && (forall j :: 0 <= j < |e.content| ==> lines[o + 1 + j] == e.content[j])
            && lines[|lines| - 1] == e.footer
  {}

  /** An entry that was read from the lines of a text. */
  predicate Shaped(e: Entry) {
    && BeginsEntry(e.header) && Terminated(e.header)
    && e.content != []
    && (forall j :: 0 <= j < |e.content| ==> Terminated(e.content[j]) && !EndsEntry(e.content[j]))
    && EndsEntry(e.footer) && IsLine(e.footer)
  }

  predicate PlainEntry(e: Entry) {
    Plain(e.header) && (forall j :: 0 <= j < |e.content| ==> Plain(e.content[j])) && Plain(e.footer)
  }

  predicate AllShaped(es: seq<Entry>) {
    forall i :: 0 <= i < |es| ==> Shaped(es[i]) && (i < |es| - 1 ==> Terminated(es[i].footer))
  }

  lemma {:induction false} OutsideIsShaped(lines: seq<string>)
    requires Proper(lines)
    ensures AllShaped(Outside(lines))
    decreases |lines|
  {
    if lines != [] {
      if BeginsEntry(lines[0]) {
        WithinIsShaped(lines[1..], lines[0], []);
      } else {
        OutsideIsShaped(lines[1..]);
      }
    }
  }

  lemma {:induction false} WithinIsShaped(lines: seq<string>, header: string, content: seq<string>)
    requires Proper(lines) && BeginsEntry(header)
    requires lines != [] ==> Terminated(header)
    requires lines != [] ==> forall j :: 0 <= j < |content| ==> Terminated(content[j]) && !EndsEntry(content[j])
    ensures AllShaped(Within(lines, header, content))
    decreases |lines|
  {
    hide BeginsEntry, EndsEntry, IsLine, Terminated, AllShaped;
    NoneShaped();
    if lines != [] {
      if EndsEntry(lines[0]) {
        OutsideIsShaped(lines[1..]);
        if content != [] {
          ShapedFirst(Entry(header, content, lines[0]), Outside(lines[1..]));
        } else {
          assert [] + Outside(lines[1..]) == Outside(lines[1..]);
        }
      } else {
        WithinIsShaped(lines[1..], header, content + [lines[0]]);
      }
    }
  }

  lemma NoneShaped()
    ensures AllShaped([]) && Outside([]) == []
  {}

  lemma ShapedFirst(e: Entry, rest: seq<Entry>)
    requires Shaped(e) && AllShaped(rest) && (rest != [] ==> Terminated(e.footer))
    ensures AllShaped([e] + rest)
  {
    hide Shaped;
  }

  /** The lines of an entry are parsed as this entry. */
  lemma {:induction false} EntryIsParsed(e: Entry, j: nat, rest: seq<string>)
    requires Shaped(e) && j <= |e.content|
    ensures Within(e.content[j..] + [e.footer] + rest, e.header, e.content[..j]) == [e] + Outside(rest)
    decreases |e.content| - j
  {
    var lines := e.content[j..] + [e.footer] + rest;
    if j == |e.content| {
      assert e.content[..j] == e.content && lines == [e.footer] + rest && lines[1..] == rest;
    } else {
      assert lines[1..] == e.content[j + 1..] + [e.footer] + rest;
      assert e.content[..j] + [e.content[j]] == e.content[..j + 1];
      EntryIsParsed(e, j + 1, rest);
    }
  }

  /** An empty line in front of an entry is skipped. */
  lemma BlankIsSkipped(lines: seq<string>)
    ensures Outside(["\n"] + lines) == Outside(lines)
  {
    assert (["\n"] + lines)[1..] == lines;
  }

  lemma EntryLinesAreParsed(e: Entry, rest: seq<string>, first: bool)
    requires Shaped(e)
    ensures Outside(SetOff(e, first) + rest) == [e] + Outside(rest)
  {
    hide Within, EndsEntry, IsLine;
    var lines := EntryLines(e) + rest;
    assert lines[1..] == e.content[0..] + [e.footer] + rest;
    EntryIsParsed(e, 0, rest);
    assert e.content[..0] == [];
    assert SetOff(e, first) + rest == (if first then lines else ["\n"] + lines);
    BlankIsSkipped(lines);
  }

  lemma EntryText(e: Entry, first: bool)
    ensures Join(SetOff(e, first)) == e.Text(first)
  {
    var blank: seq<string> := if first then [] else ["\n"];
    JoinConcat(blank, EntryLines(e));
    JoinConcat([e.header] + e.content, [e.footer]);
    JoinConcat([e.header], e.content);
    JoinOne(e.header);
    JoinOne(e.footer);
    JoinOne("\n");
    JoinNothing();
    assert Join(blank) == if first then "" else "\n";
    assert (if first then "" else "\n") + (e.header + Join(e.content) + e.footer)
        == (if first then "" else "\n") + e.header + Join(e.content) + e.footer;
  }

  // ---- Cutting the ITP entry ----

  /** The content lines that survive: the last, the ITP items and, in the first entry, the first. */
  function CutContent(content: seq<string>, j: nat, first: bool): seq<string>
    requires j <= |content|
    decreases |content| - j
  {
    if j == |content| then []
    else (if (first && j == 0) || j == |content| - 1 || IsItp(content[j]) then [content[j]] else [])
         + CutContent(content, j + 1, first)
  }

  function Cut(e: Entry, first: bool): Entry {
    Entry(e.header, CutContent(e.content, 0, first), Strip(e.footer) + "\n")
  }

  /** CutLines() on lines that still have their newlines. */
  function CutPlain(lines: seq<string>, i: nat): seq<string>
    requires i <= |lines|
    decreases |lines| - i
  {
    if i == |lines| then []
    else (if i < 2 || i >= |lines| - 2 || IsItp(lines[i]) then [Strip(lines[i]) + "\n"] else []) + CutPlain(lines, i + 1)
  }

  lemma {:induction false} StrippedAt(lines: seq<string>, i: nat)
    requires i < |lines|
    ensures |Stripped(lines)| == |lines| && Stripped(lines)[i] == Strip(lines[i])
    decreases |lines|
  {
    if i > 0 {
      StrippedAt(lines[1..], i - 1);
    } else if |lines| > 1 {
      StrippedAt(lines[1..], 0);
    }
  }

  lemma {:induction false} CutIsPlain(lines: seq<string>, i: nat)
    requires i <= |lines| && lines != [] && forall k :: 0 <= k < |lines| ==> IsLine(lines[k])
    ensures |Stripped(lines)| == |lines| && CutLines(Stripped(lines), i) == CutPlain(lines, i)
    decreases |lines| - i
  {
    StrippedAt(lines, 0);
    if i < |lines| {
      StrippedAt(lines, i);
      ItpStripped(lines[i]);
      CutIsPlain(lines, i + 1);
    }
  }

  lemma CutPlainStep(lines: seq<string>, i: nat)
    requires i < |lines|
    ensures CutPlain(lines, i) ==
            (if i < 2 || i >= |lines| - 2 || IsItp(lines[i]) then [Strip(lines[i]) + "\n"] else []) + CutPlain(lines, i + 1)
  {}

  lemma CutContentStep(content: seq<string>, j: nat, first: bool)
    requires j < |content|
    ensures CutContent(content, j, first) ==
            (if (first && j == 0) || j == |content| - 1 || IsItp(content[j]) then [content[j]] else [])
            + CutContent(content, j + 1, first)
  {}

  /** From its content on, an entry is cut to the content lines that survive and its footer. */
  lemma {:induction false} CutFromContent(e: Entry, j: nat, first: bool)
    requires Shaped(e) && j <= |e.content|
    ensures |SetOff(e, first)| > |e.content|
    ensures CutPlain(SetOff(e, first), |SetOff(e, first)| - 1 - |e.content| + j) ==
            CutContent(e.content, j, first) + [Strip(e.footer) + "\n"]
    decreases |e.content| - j
  {
    hide SetOff, IsItp, Shaped, Strip, CutPlain, CutContent;
    var lines := SetOff(e, first);
    SetOffAt(e, first);
    var i := |lines| - 1 - |e.content| + j;
    if j == |e.content| {
      CutFooter(lines, e.content, first);
    } else {
      assert lines[i] == e.content[j];
      assert (i < 2) == (first && j == 0) && (i >= |lines| - 2) == (j == |e.content| - 1);
      ContentIsTerminated(e, j);
      CutPlainStep(lines, i);
      CutContentStep(e.content, j, first);
      CutFromContent(e, j + 1, first);
    }
  }

  lemma CutFooter(lines: seq<string>, content: seq<string>, first: bool)
    requires lines != []
    ensures CutPlain(lines, |lines| - 1) == [Strip(lines[|lines| - 1]) + "\n"]
    ensures CutContent(content, |content|, first) == []
  {}

  lemma ContentIsTerminated(e: Entry, j: nat)
    requires Shaped(e) && j < |e.content|
    ensures Strip(e.content[j]) + "\n" == e.content[j]
  {}

  lemma CutEntryLines(e: Entry, first: bool)
    requires Shaped(e) && PlainEntry(e)
    ensures CutLines(SplitLines(e.Text(first)), 0) == SetOff(Cut(e, first), first)
  {
    hide IsItp, IsLine, Plain, PlainEntry, SetOff, Shaped, CutContent, CutLines, CutPlain, SplitLines, Stripped, EndsEntry;
    var lines := SetOff(e, first);
    SetOffAt(e, first);
    EntryText(e, first);
    ProperEntry(e, first);
    SplitJoined(lines);
    CutIsPlain(lines, 0);
    CutSetOff(e, first);
  }

  lemma CutSetOff(e: Entry, first: bool)
    requires Shaped(e)
    ensures CutPlain(SetOff(e, first), 0) == SetOff(Cut(e, first), first)
  {
    hide IsItp, SetOff, Shaped, Strip, CutContent, CutPlain;
    var lines := SetOff(e, first);
    SetOffAt(e, first);
    CutFromContent(e, 0, first);
    HeaderIsTerminated(e);
    BlankIsTerminated();
    SetOffCut(e, first);
    CutPlainStep(lines, 0);
    if !first {
      CutPlainStep(lines, 1);
    }
  }

  lemma BlankIsTerminated()
    ensures Strip("\n") + "\n" == "\n"
  {}

  lemma SetOffCut(e: Entry, first: bool)
    ensures var rest := CutContent(e.content, 0, first) + [Strip(e.footer) + "\n"];
            SetOff(Cut(e, first), first) == (if first then [e.header] + rest else ["\n"] + ([e.header] + rest))
  {}

  lemma HeaderIsTerminated(e: Entry)
    requires Shaped(e)
    ensures Strip(e.header) + "\n" == e.header
  {}

  lemma ProperEntry(e: Entry, first: bool)
    requires Shaped(e)
    ensures Proper(SetOff(e, first))
    ensures PlainEntry(e) ==> forall i :: 0 <= i < |SetOff(e, first)| ==> Plain(SetOff(e, first)[i])
  {}

  /** What cutting leaves of the content: last and, if kept, first line are the same, all others are ITP items. */
  lemma {:induction false} CutShape(content: seq<string>, j: nat, first: bool)
    requires j < |content|
    ensures var r := CutContent(content, j, first);
            && r != [] && r[|r| - 1] == content[|content| - 1]
            && (first && j == 0 ==> r[0] == content[0])
            && (forall k :: (if first && j == 0 then 1 else 0) <= k < |r| - 1 ==> IsItp(r[k]))
            && (forall line :: line in r ==> line in content)
            && (forall k :: j <= k < |content| && IsItp(content[k]) ==> content[k] in r)
    decreases |content| - j
  {
    hide IsItp, CutContent;
    CutContentStep(content, j, first);
    var rest := CutContent(content, j + 1, first);
    if j + 1 < |content| {
      var kept := if (first && j == 0) || IsItp(content[j]) then [content[j]] else [];
      CutShape(content, j + 1, first);
      assert CutContent(content, j, first) == kept + rest;
      assert forall k :: |kept| <= k < |kept + rest| ==> (kept + rest)[k] == rest[k - |kept|];
    } else {
      NothingToCut(content, first);
    }
  }

  lemma NothingToCut(content: seq<string>, first: bool)
    ensures CutContent(content, |content|, first) == []
  {}

  lemma {:induction false} AllSurvive(content: seq<string>, j: nat, first: bool)
    requires j <= |content|
    requires forall k :: (if first then 1 else 0) <= k < |content| - 1 ==> IsItp(content[k])
    ensures CutContent(content, j, first) == content[j..]
    decreases |content| - j
  {
    hide IsItp;
    if j < |content| {
      AllSurvive(content, j + 1, first);
      assert content[j..] == [content[j]] + content[j + 1..];
    }
  }

  /** A cut ITP entry is an ITP entry that cutting again leaves as it is. */
  lemma CutTwice(e: Entry, first: bool)
    requires Shaped(e) && e.Itp()
    ensures var c := Cut(e, first);
            Shaped(c) && Terminated(c.footer) && c.Itp() && Cut(c, first) == c
  {
    hide IsItp, CutContent, BeginsEntry, EndsEntry, IsLine, Strip;
    var c := Cut(e, first);
    CutShape(e.content, 0, first);
    FooterIsTerminated(e.footer);
    assert c.Itp() by {
      var line :| line in e.content && IsItp(line);
      var k :| 0 <= k < |e.content| && e.content[k] == line;
      assert line in c.content;
    }
    assert Cut(c, first) == c by {
      AllSurvive(c.content, 0, first);
      assert c.content[0..] == c.content;
    }
    forall j | 0 <= j < |c.content|
      ensures Terminated(c.content[j]) && !EndsEntry(c.content[j])
    {
      assert c.content[j] in e.content;
    }
  }

  lemma FooterIsTerminated(footer: string)
    requires IsLine(footer) && EndsEntry(footer)
    ensures var f := Strip(footer) + "\n";
            Terminated(f) && EndsEntry(f) && Strip(f) + "\n" == f
  {}

  // ---- The whole output ----

  /** The lines that the output consists of. */
  function RemainingLines(es: seq<Entry>, first: bool): seq<string>
    decreases |es|
  {
    if es == [] then []
    else if es[0].Itp() then CutLines(SplitLines(es[0].Text(first)), 0)
    else SetOff(es[0], first) + RemainingLines(es[1..], false)
  }

  lemma {:induction false} KeptAsLines(es: seq<Entry>, first: bool)
    ensures Join(Kept(es, first)) == Join(RemainingLines(es, first))
    decreases |es|
  {
    if es != [] && !es[0].Itp() {
      hide IsItp, CutLines, SplitLines, Join, SetOff;
      var e := es[0];
      KeptAsLines(es[1..], false);
      EntryText(e, first);
      JoinConcat(SetOff(e, first), RemainingLines(es[1..], false));
      JoinConcat([e.Text(first)], Kept(es[1..], false));
      JoinOne(e.Text(first));
    }
  }

  lemma ProperConcat(a: seq<string>, b: seq<string>)
    requires Proper(a) && Proper(b)
    requires b != [] && a != [] ==> Terminated(a[|a| - 1])
    ensures Proper(a + b)
  {}

  /** What splitlines() returns has no separators. */
  lemma {:induction false} SplitIsBare(text: string, part: string)
    requires part in SplitLines(text)
    ensures forall i :: 0 <= i < |part| ==> !IsSeparator(part[i])
    decreases |text|
  {
    hide IsSeparator;
    var n := LengthToSeparator(text);
    if part != text[..n] {
      SplitIsBare(text[SeparatorEnd(text, n)..], part);
    }
  }

  predicate PlainLines(lines: seq<string>) {
    forall i :: 0 <= i < |lines| ==> Plain(lines[i]) && Terminated(lines[i])
  }

  lemma {:induction false} CutLinesArePlain(text: string, i: nat)
    requires i <= |SplitLines(text)|
    ensures PlainLines(CutLines(SplitLines(text), i))
    decreases |SplitLines(text)| - i
  {
    hide IsItp, SplitLines, IsSeparator;
    var parts := SplitLines(text);
    if i < |parts| {
      SplitIsBare(text, parts[i]);
      BareIsPlain(parts[i]);
      CutLinesArePlain(text, i + 1);
    }
  }

  lemma BareIsPlain(part: string)
    requires forall i :: 0 <= i < |part| ==> !IsSeparator(part[i])
    ensures Plain(part + "\n") && Terminated(part + "\n")
  {}

  lemma {:induction false} RemainingIsProper(es: seq<Entry>, first: bool)
    requires AllShaped(es)
    ensures Proper(RemainingLines(es, first))
    decreases |es|
  {
    if es != [] {
      hide IsItp, IsLine, Plain, SplitLines, CutLines;
      var e := es[0];
      if e.Itp() {
        CutLinesArePlain(e.Text(first), 0);
      } else {
        RemainingIsProper(es[1..], false);
        ProperEntry(e, first);
        SetOffAt(e, first);
        ProperConcat(SetOff(e, first), RemainingLines(es[1..], false));
      }
    }
  }

  // ---- When the output is filtered to itself ----

  /** Lines that are an ITP entry, set off by an empty line unless it is the first. */
  predicate FormItpEntry(lines: seq<string>, first: bool) {
    var o, last := if first then 0 else 1, |lines| - 1;
    && o + 1 < last
    && (!first ==> lines[0] == "\n")
    && BeginsEntry(lines[o]) && EndsEntry(lines[last])
    && (forall k :: o < k < last ==> !EndsEntry(lines[k]))
    && (exists k :: o < k < last && IsItp(lines[k]))
  }

  /** Between the first two lines and the last two, only ITP items are left. */
  predicate OnlyItems(lines: seq<string>) {
    forall k :: 2 <= k < |lines| - 2 ==> IsItp(lines[k])
  }

  lemma {:induction false} ItemsBehind(lines: seq<string>, i: nat)
    requires 2 <= i <= |lines| && forall k :: 0 <= k < |lines| ==> '\n' !in lines[k]
    ensures var r := CutLines(lines, i);
            |r| <= |lines| - i && forall k :: 0 <= k < |r| - 2 ==> IsItp(r[k])
    decreases |lines| - i
  {
    hide IsItp;
    if i < |lines| {
      ItemsBehind(lines, i + 1);
      ItpTerminated(lines[i]);
    }
  }

  lemma ItpTerminated(line: string)
    requires '\n' !in line
    ensures IsItp(line + "\n") <==> IsItp(line)
  {
    ItpStripped(line + "\n");
  }

  lemma CutLinesAreItems(text: string)
    requires text != ""
    ensures var r := CutLines(SplitLines(text), 0);
            r != [] && PlainLines(r) && OnlyItems(r)
  {
    hide IsItp, PlainLines;
    var parts := SplitLines(text);
    CutLinesArePlain(text, 0);
    assert CutLines(parts, 0) == [parts[0] + "\n"] + CutLines(parts, 1);
    if |parts| > 1 {
      forall k | 0 <= k < |parts|
        ensures '\n' !in parts[k]
      {
        SplitIsBare(text, parts[k]);
      }
      ItemsBehind(parts, 2);
      assert CutLines(parts, 1) == [parts[1] + "\n"] + CutLines(parts, 2);
    }
  }

  /** The lines of an ITP entry form one. */
  lemma SetOffForms(e: Entry, first: bool)
    requires Shaped(e) && e.Itp()
    ensures FormItpEntry(SetOff(e, first), first)
  {
    hide IsItp, BeginsEntry, EndsEntry, SetOff;
    var lines, o := SetOff(e, first), if first then 0 else 1;
    SetOffAt(e, first);
    var line :| line in e.content && IsItp(line);
    var j :| 0 <= j < |e.content| && e.content[j] == line;
    assert lines[o + 1 + j] == line;
    forall k | o < k < |lines| - 1
      ensures !EndsEntry(lines[k])
    {
      assert lines[k] == e.content[k - o - 1];
    }
  }

  /** Lines that form an ITP entry, of which nothing can be cut any more, are filtered to themselves. */
  lemma FormedStays(lines: seq<string>, first: bool)
    requires PlainLines(lines) && OnlyItems(lines) && FormItpEntry(lines, first)
    ensures Kept(Outside(lines), first) == lines
  {
    hide IsItp, BeginsEntry, EndsEntry, Plain, IsLine, CutLines, SplitLines, CutContent, Strip;
    var o, last := if first then 0 else 1, |lines| - 1;
    var e := Entry(lines[o], lines[o + 1..last], lines[last]);
    FormedEntry(lines, e, first);
    EntryLinesAreParsed(e, [], first);
    assert lines + [] == lines && [e] + Outside([]) == [e];
    CutEntryLines(e, first);
    AllSurvive(e.content, 0, first);
    assert e.content[0..] == e.content;
    TerminatedStays(e.footer);
  }

  lemma FormedEntry(lines: seq<string>, e: Entry, first: bool)
    requires PlainLines(lines) && FormItpEntry(lines, first)
    requires var o, last := if first then 0 else 1, |lines| - 1;
             e == Entry(lines[o], lines[o + 1..last], lines[last])
    ensures Shaped(e) && PlainEntry(e) && e.Itp() && SetOff(e, first) == lines
    ensures OnlyItems(lines) ==> forall k :: (if first then 1 else 0) <= k < |e.content| - 1 ==> IsItp(e.content[k])
  {
    hide IsItp, BeginsEntry, EndsEntry, IsLine, Plain, SetOff;
    var o, last := if first then 0 else 1, |lines| - 1;
    PartsOf(lines, e, first);
    var k :| o < k < last && IsItp(lines[k]);
    assert e.content[k - o - 1] == lines[k];
  }

  lemma PartsOf(lines: seq<string>, e: Entry, first: bool)
    requires var o := if first then 0 else 1;
             |lines| >= o + 2 && e == Entry(lines[o], lines[o + 1..|lines| - 1], lines[|lines| - 1])
    requires !first ==> lines[0] == "\n"
    ensures SetOff(e, first) == lines
    ensures forall j :: 0 <= j < |e.content| ==> e.content[j] == lines[(if first then 1 else 2) + j]
  {}

  lemma TerminatedStays(line: string)
    requires Terminated(line)
    ensures Strip(line) + "\n" == line
  {}

  lemma {:induction false} OutsideIsPlain(lines: seq<string>)
    requires PlainLines(lines)
    ensures forall e :: e in Outside(lines) ==> PlainEntry(e)
    decreases |lines|
  {
    hide BeginsEntry, EndsEntry, Plain, Terminated;
    if lines != [] {
      if BeginsEntry(lines[0]) {
        WithinIsPlain(lines[1..], lines[0], []);
      } else {
        OutsideIsPlain(lines[1..]);
      }
    }
  }

  lemma {:induction false} WithinIsPlain(lines: seq<string>, header: string, content: seq<string>)
    requires PlainLines(lines) && Plain(header) && forall j :: 0 <= j < |content| ==> Plain(content[j])
    ensures forall e :: e in Within(lines, header, content) ==> PlainEntry(e)
    decreases |lines|
  {
    hide BeginsEntry, EndsEntry, Plain, Terminated;
    if lines != [] {
      if EndsEntry(lines[0]) {
        OutsideIsPlain(lines[1..]);
      } else {
        WithinIsPlain(lines[1..], header, content + [lines[0]]);
      }
    }
  }

  /** The text of an entry is not a single line. */
  lemma EntryIsNoLine(e: Entry, first: bool)
    requires Shaped(e)
    ensures !OneLine(e.Text(first))
  {
    var text, o := e.Text(first), if first then 0 else 1;
    assert text[o..o + |e.header|] == e.header;
    assert text[o + |e.header| - 1] == e.header[|e.header| - 1] == '\n';
    assert e.footer != "";
  }

  lemma KeptLineIsItp(es: seq<Entry>, lines: seq<string>, first: bool)
    requires es != [] && Shaped(es[0]) && Kept(es, first) == lines
    requires lines != [] && OneLine(lines[0])
    ensures es[0].Itp()
  {
    hide OneLine, IsItp, CutLines, SplitLines;
    EntryIsNoLine(es[0], first);
  }

  /** Lines that are filtered to themselves form an ITP entry. */
  lemma StaysIsFormed(lines: seq<string>, first: bool)
    requires lines != [] && PlainLines(lines) && Kept(Outside(lines), first) == lines
    ensures FormItpEntry(lines, first)
  {
    hide IsItp, BeginsEntry, EndsEntry, OneLine, CutLines, SplitLines, Shaped, PlainEntry, SetOff, Outside;
    var es := Outside(lines);
    OutsideIsShaped(lines);
    OutsideIsPlain(lines);
    assert es != [];
    var e := es[0];
    KeptLineIsItp(es, lines, first);
    CutEntryLines(e, first);
    CutTwice(e, first);
    SetOffForms(Cut(e, first), first);
  }

  // ---- Which ITP entries still are one after the cut ----

  /**
   The parts that splitlines() makes of an entry: the last one is a footer, none of those in between
   that survive is, and one of them is an ITP item.
   */
  predicate StaysItpEntry(parts: seq<string>, first: bool) {
    var o, last := if first then 0 else 1, |parts| - 1;
    && parts != []
    && EndsEntry(parts[last])
    && (forall i :: o < i < last && Survives(parts, i) ==> !EndsEntry(parts[i]))
    && (exists i :: o < i < last && IsItp(parts[i]))
  }

  /** The surviving lines from `i` up to the last line. */
  function Between(parts: seq<string>, i: nat): seq<string>
    decreases |parts| - i
  {
    if i + 1 >= |parts| then []
    else (if Survives(parts, i) then [parts[i] + "\n"] else []) + Between(parts, i + 1)
  }

  lemma {:induction false} CutIsBetween(parts: seq<string>, i: nat)
    requires i < |parts|
    ensures CutLines(parts, i) == Between(parts, i) + [parts[|parts| - 1] + "\n"]
    decreases |parts| - i
  {
    hide IsItp, Survives;
    if i + 1 < |parts| {
      var kept := if Survives(parts, i) then [parts[i] + "\n"] else [];
      CutIsBetween(parts, i + 1);
      assert CutLines(parts, i) == kept + CutLines(parts, i + 1);
      assert Between(parts, i) == kept + Between(parts, i + 1);
    } else {
      LastSurvives(parts);
      assert CutLines(parts, i) == [parts[i] + "\n"] + CutLines(parts, i + 1);
    }
  }

  lemma LastSurvives(parts: seq<string>)
    requires parts != []
    ensures Survives(parts, |parts| - 1)
  {}

  lemma {:induction false} WasBetween(parts: seq<string>, i: nat, line: string) returns (j: nat)
    requires line in Between(parts, i)
    ensures i <= j < |parts| - 1 && Survives(parts, j) && line == parts[j] + "\n"
    decreases |parts| - i
  {
    hide Survives;
    if line in Between(parts, i + 1) {
      j := WasBetween(parts, i + 1, line);
    } else {
      j := i;
    }
  }

  lemma {:induction false} IsBetween(parts: seq<string>, i: nat, j: nat)
    requires i <= j < |parts| - 1 && Survives(parts, j)
    ensures parts[j] + "\n" in Between(parts, i)
    decreases j - i
  {
    hide Survives;
    if i < j {
      IsBetween(parts, i + 1, j);
    }
  }

  lemma FooterTerminated(line: string)
    requires '\n' !in line
    ensures EndsEntry(line + "\n") <==> EndsEntry(line)
  {
    var more := line + "\n";
    assert OneLine(line) && OneLine(more);
    if EndsEntry(more) {
      assert more[0] == ' ' && more[1] == '-' && more[2] == '-' && more[|line|] == '\n';
      assert line[..3] == more[..3];
    }
  }

  /** The surviving lines are the first ones, those in between and the last one. */
  lemma CutIsFrame(parts: seq<string>, o: nat)
    requires o <= 1 && o + 1 < |parts|
    ensures CutLines(parts, 0) ==
            seq(o + 1, k requires 0 <= k <= o => parts[k] + "\n") + Between(parts, o + 1) + [parts[|parts| - 1] + "\n"]
  {
    hide IsItp, Between;
    CutIsBetween(parts, o + 1);
    assert CutLines(parts, 0) == [parts[0] + "\n"] + CutLines(parts, 1);
    if o == 1 {
      assert CutLines(parts, 1) == [parts[1] + "\n"] + CutLines(parts, 2);
    }
  }

  predicate Bare(parts: seq<string>) {
    forall i :: 0 <= i < |parts| ==> '\n' !in parts[i]
  }

  /** The header comes first, behind an empty line unless the entry is the first. */
  predicate BeginsWithHeader(parts: seq<string>, first: bool) {
    var o := if first then 0 else 1;
    |parts| > o && (!first ==> parts[0] == "") && BeginsEntry(parts[o] + "\n")
  }

  lemma InnerLines(parts: seq<string>, first: bool, lines: seq<string>)
    requires var o := if first then 0 else 1;
             && |parts| > o + 1
             && lines == seq(o + 1, k requires 0 <= k <= o => parts[k] + "\n") + Between(parts, o + 1) + [parts[|parts| - 1] + "\n"]
    ensures var o, last := if first then 0 else 1, |lines| - 1;
            && last > o && lines[0] == parts[0] + "\n" && lines[o] == parts[o] + "\n"
            && lines[last] == parts[|parts| - 1] + "\n"
            && lines[o + 1..last] == Between(parts, o + 1)
  {
    hide Between;
  }

  lemma FormedFromParts(parts: seq<string>, first: bool)
    requires Bare(parts) && BeginsWithHeader(parts, first) && StaysItpEntry(parts, first)
    ensures FormItpEntry(CutLines(parts, 0), first)
  {
    hide IsItp, EndsEntry, BeginsEntry, Between, CutLines;
    var o, lines := if first then 0 else 1, CutLines(parts, 0);
    var i :| o < i < |parts| - 1 && IsItp(parts[i]);
    CutIsFrame(parts, o);
    InnerLines(parts, first, lines);
    FooterTerminated(parts[|parts| - 1]);
    var inner := lines[o + 1..|lines| - 1];
    IsBetween(parts, o + 1, i);
    ItpTerminated(parts[i]);
    var k :| 0 <= k < |inner| && inner[k] == parts[i] + "\n";
    assert lines[o + 1 + k] == inner[k];
    forall n | o < n < |lines| - 1
      ensures !EndsEntry(lines[n])
    {
      assert inner[n - o - 1] == lines[n];
      var j := WasBetween(parts, o + 1, lines[n]);
      FooterTerminated(parts[j]);
    }
    assert "" + "\n" == "\n";
  }

  lemma PartsOfFormed(parts: seq<string>, first: bool)
    requires Bare(parts) && BeginsWithHeader(parts, first) && FormItpEntry(CutLines(parts, 0), first)
    ensures StaysItpEntry(parts, first)
  {
    hide IsItp, EndsEntry, BeginsEntry, Between, CutLines;
    var o, lines := if first then 0 else 1, CutLines(parts, 0);
    ShortCut(parts, first);
    CutIsFrame(parts, o);
    InnerLines(parts, first, lines);
    FooterTerminated(parts[|parts| - 1]);
    var inner := lines[o + 1..|lines| - 1];
    var k :| o < k < |lines| - 1 && IsItp(lines[k]);
    assert inner[k - o - 1] == lines[k];
    var i := WasBetween(parts, o + 1, lines[k]);
    ItpTerminated(parts[i]);
    forall j | o < j < |parts| - 1 && Survives(parts, j)
      ensures !EndsEntry(parts[j])
    {
      IsBetween(parts, o + 1, j);
      FooterTerminated(parts[j]);
      var n :| 0 <= n < |inner| && inner[n] == parts[j] + "\n";
      assert lines[o + 1 + n] == inner[n];
    }
  }

  lemma {:induction false} CutIsShorter(parts: seq<string>, i: nat)
    requires i <= |parts|
    ensures |CutLines(parts, i)| <= |parts| - i
    decreases |parts| - i
  {
    hide IsItp;
    if i < |parts| {
      CutIsShorter(parts, i + 1);
    }
  }

  lemma ShortCut(parts: seq<string>, first: bool)
    requires FormItpEntry(CutLines(parts, 0), first)
    ensures |parts| > (if first then 1 else 2)
  {
    hide CutLines, IsItp, EndsEntry, BeginsEntry;
    CutIsShorter(parts, 0);
  }

  lemma FirstPart(text: string)
    requires text != "" && !IsSeparator(text[0])
    ensures var parts := SplitLines(text);
            parts != [] && parts[0] != "" && parts[0][0] == text[0]
  {}

  lemma HeaderIsSplit(e: Entry, first: bool)
    requires Shaped(e)
    ensures BeginsWithHeader(SplitLines(e.Text(first)), first)
  {
    hide SplitLines, Join, LengthToSeparator, EndsEntry;
    var text, parts := e.header + Join(e.content) + e.footer, SplitLines(e.Text(first));
    var o := if first then 0 else 1;
    assert text[0] == e.header[0];
    FirstPart(text);
    if first {
      assert e.Text(first) == text by {
        assert "" + e.header + Join(e.content) + e.footer == text;
      }
    } else {
      assert e.Text(first) == "\n" + text by {
        assert "\n" + e.header + Join(e.content) + e.footer == "\n" + text;
      }
      NewlineIsPlain();
      SplitFirst("\n", text);
    }
    assert parts[o] == SplitLines(text)[0];
    SplitIsBare(e.Text(first), parts[o]);
  }

  lemma NewlineIsPlain()
    ensures Plain("\n") && Terminated("\n") && Strip("\n") == ""
  {}

  lemma PartsAreBare(text: string)
    ensures Bare(SplitLines(text))
  {
    hide SplitLines;
    forall i | 0 <= i < |SplitLines(text)|
      ensures '\n' !in SplitLines(text)[i]
    {
      SplitIsBare(text, SplitLines(text)[i]);
    }
  }

  /** What is left of an entry forms an ITP entry if and only if its parts say so. */
  lemma FormedIffParts(e: Entry, first: bool)
    requires Shaped(e)
    ensures var parts := SplitLines(e.Text(first));
            FormItpEntry(CutLines(parts, 0), first) <==> StaysItpEntry(parts, first)
  {
    hide SplitLines, CutLines, FormItpEntry, StaysItpEntry, Shaped, BeginsWithHeader, Bare;
    var parts := SplitLines(e.Text(first));
    HeaderIsSplit(e, first);
    PartsAreBare(e.Text(first));
    if FormItpEntry(CutLines(parts, 0), first) {
      PartsOfFormed(parts, first);
    }
    if StaysItpEntry(parts, first) {
      FormedFromParts(parts, first);
    }
  }

  /** The first ITP entry, if there is one, is one whose cut is an ITP entry again. */
  predicate ItpEntryStays(es: seq<Entry>, first: bool)
    decreases |es|
  {
    if es == [] then true
    else if es[0].Itp() then StaysItpEntry(SplitLines(es[0].Text(first)), first)
    else ItpEntryStays(es[1..], false)
  }

  /** The output is filtered to itself if and only if the first ITP entry says so. */
  lemma {:induction false} RemainingStays(es: seq<Entry>, first: bool)
    requires AllShaped(es)
    ensures Kept(Outside(RemainingLines(es, first)), first) == Kept(es, first) <==> ItpEntryStays(es, first)
    decreases |es|
  {
    hide IsItp, Shaped, CutLines, SplitLines, SetOff, FormItpEntry, PlainLines, OnlyItems, StaysItpEntry;
    if es == [] {
      assert Outside([]) == [];
    } else {
      var e := es[0];
      if e.Itp() {
        var cut := CutLines(SplitLines(e.Text(first)), 0);
        EntryHasText(e, first);
        CutLinesAreItems(e.Text(first));
        FormedIffParts(e, first);
        if FormItpEntry(cut, first) {
          FormedStays(cut, first);
        } else if Kept(Outside(cut), first) == cut {
          StaysIsFormed(cut, first);
        }
      } else {
        var rest := RemainingLines(es[1..], false);
        EntryLinesAreParsed(e, rest, first);
        KeptFirst(e, Outside(rest), first);
        RemainingStays(es[1..], false);
        assert ([e.Text(first)] + Kept(es[1..], false))[1..] == Kept(es[1..], false);
        assert ([e.Text(first)] + Kept(Outside(rest), false))[1..] == Kept(Outside(rest), false);
      }
    }
  }

  lemma EntryHasText(e: Entry, first: bool)
    requires Shaped(e)
    ensures e.Text(first) != ""
  {}

  lemma {:induction false} ReadIsProper(text: string)
    ensures Proper(ReadLines(text))
    decreases |text|
  {
    if text != "" {
      var n := LengthWithNewline(text);
      FirstLine(text);
      ReadIsProper(text[n..]);
      assert ReadLines(text) == [text[..n]] + ReadLines(text[n..]);
      assert n == |text| ==> text[n..] == "";
    }
  }

  lemma {:induction false} FirstLine(text: string)
    requires text != ""
    ensures var n := LengthWithNewline(text);
            IsLine(text[..n]) && (n < |text| ==> Terminated(text[..n]))
    decreases |text|
  {
    var n := LengthWithNewline(text);
    if text[0] != '\n' && |text| > 1 {
      FirstLine(text[1..]);
      assert text[..n] == [text[0]] + text[1..][..n - 1];
    }
  }

  /**
   Filtering the filtered changelog once more changes nothing if and only if there is no ITP entry or
   the first one, as splitlines() cuts it, ends with a footer, has an ITP item in one piece, and has
   nothing that looks like a footer among the pieces in between that survive.
   */
  lemma FilterTwiceIff(text: string)
    ensures var once := Filtered(ReadLines(text));
            Filtered(ReadLines(Join(once))) == once <==> ItpEntryStays(Outside(ReadLines(text)), true)
  {
    hide Outside, Kept, IsLine, ItpEntryStays;
    var es := Outside(ReadLines(text));
    ReadIsProper(text);
    OutsideIsShaped(ReadLines(text));
    KeptAsLines(es, true);
    RemainingIsProper(es, true);
    ReadJoined(RemainingLines(es, true));
    RemainingStays(es, true);
  }

  /** Only newlines separate the lines of the first ITP entry, if there is one. */
  predicate ItpEntryIsPlain(es: seq<Entry>) {
    es != [] ==> if es[0].Itp() then PlainEntry(es[0]) else ItpEntryIsPlain(es[1..])
  }

  lemma {:induction false} PlainEntryStays(es: seq<Entry>, first: bool)
    requires AllShaped(es) && ItpEntryIsPlain(es)
    ensures ItpEntryStays(es, first)
    decreases |es|
  {
    hide IsItp, Shaped, PlainEntry, CutLines, SplitLines, SetOff, FormItpEntry, StaysItpEntry;
    if es != [] {
      if es[0].Itp() {
        CutEntryLines(es[0], first);
        CutTwice(es[0], first);
        SetOffForms(Cut(es[0], first), first);
        FormedIffParts(es[0], first);
      } else {
        PlainEntryStays(es[1..], false);
      }
    }
  }

  /** Without separators that only splitlines() knows in the ITP entry, filtering twice is filtering once. */
  lemma FilterTwice(text: string)
    requires ItpEntryIsPlain(Outside(ReadLines(text)))
    ensures var once := Filtered(ReadLines(text));
            Filtered(ReadLines(Join(once))) == once
  {
    hide Outside, Kept, IsLine, ItpEntryIsPlain, ItpEntryStays;
    ReadIsProper(text);
    OutsideIsShaped(ReadLines(text));
    PlainEntryStays(Outside(ReadLines(text)), true);
    FilterTwiceIff(text);
  }

  lemma SplitFormFeed(rest: string)
    ensures SplitLines("\U{0C}" + rest) == [""] + SplitLines(rest)
  {
    var text := "\U{0C}" + rest;
    assert text[0] == '\U{0C}' && text[0..1] == "\U{0C}" && text[1..] == rest && text[..0] == "";
    assert LengthToSeparator(text) == 0;
  }

  lemma BehindFormFeed(line: string)
    requires IsItp(line)
    ensures IsItp("\U{0C}" + line)
  {
    var more := "\U{0C}" + line;
    forall word, i | OccursAt(line, word, i)
      ensures OccursAt(more, word, i + 1)
    {
      assert more[i + 1..i + 1 + |word|] == line[i..i + |word|];
    }
    forall word, next | ContainsThen(line, word, next)
      ensures ContainsThen(more, word, next)
    {
      var i, j :| 0 <= i <= |line| && 0 <= j <= |line| && OccursAt(line, word, i) && OccursAt(line, next, j) && i + |word| <= j;
      assert OccursAt(more, word, i + 1) && OccursAt(more, next, j + 1);
    }
  }

  /** An ITP item behind a form feed that looks like a footer. */
  predicate HidesFooter(header: string, item: string, footer: string) {
    && BeginsEntry(header) && Plain(header) && Terminated(header)
    && EndsEntry(item) && IsItp(item) && Plain(item) && Terminated(item)
    && EndsEntry(footer) && Plain(footer) && Terminated(footer)
  }

  lemma HiddenFooterIsRead(header: string, item: string, footer: string)
    requires HidesFooter(header, item, footer)
    ensures var e := Entry(header, ["\U{0C}" + item], footer);
            && ReadLines(e.Text(true)) == EntryLines(e)
            && Outside(EntryLines(e)) == [e] && e.Itp()
  {
    hide ReadLines, IsItp, IsSeparator;
    var line := "\U{0C}" + item;
    var e := Entry(header, [line], footer);
    BehindFormFeed(item);
    assert line in e.content;
    assert line[0] == '\U{0C}';
    EntryText(e, true);
    assert SetOff(e, true) == EntryLines(e) == EntryLines(e) + [];
    ReadJoined(EntryLines(e));
    EntryLinesAreParsed(e, [], true);
    assert [e] + Outside([]) == [e];
  }

  lemma HiddenFooterIsSplit(header: string, item: string, footer: string)
    requires HidesFooter(header, item, footer)
    ensures var e := Entry(header, ["\U{0C}" + item], footer);
            SplitLines(e.Text(true)) == [Strip(header), "", Strip(item), Strip(footer)]
  {
    hide SplitLines, IsItp, IsSeparator, BeginsEntry, EndsEntry, OneLine;
    var e := Entry(header, ["\U{0C}" + item], footer);
    JoinOne(e.content[0]);
    assert e.Text(true) == header + ("\U{0C}" + (item + (footer + "")));
    SplitFirst(header, "\U{0C}" + (item + (footer + "")));
    SplitFormFeed(item + (footer + ""));
    SplitFirst(item, footer + "");
    SplitFirst(footer, "");
    SplitNothing();
    assert SplitLines(e.Text(true)) == [Strip(header), "", Strip(item), Strip(footer)];
  }

  lemma FooterIsStripped(line: string)
    requires EndsEntry(line) && Terminated(line)
    ensures EndsEntry(Strip(line))
  {}

  /** After the first run the hidden footer is a line of its own, and the second run takes it for the end of the entry. */
  lemma HiddenFooterIsFound(header: string, item: string, footer: string)
    requires HidesFooter(header, item, footer)
    ensures var once := Filtered(ReadLines(header + ("\U{0C}" + item) + footer));
            Filtered(ReadLines(Join(once))) != once
  {
    hide ReadLines, Outside, SplitLines, CutLines, IsItp, BeginsEntry, EndsEntry, Plain, IsLine;
    var e := Entry(header, ["\U{0C}" + item], footer);
    JoinOne(e.content[0]);
    assert e.Text(true) == header + ("\U{0C}" + item) + footer;
    HiddenFooterIsRead(header, item, footer);
    HiddenFooterIsSplit(header, item, footer);
    FilterTwiceIff(e.Text(true));
    FooterIsStripped(item);
    var parts := SplitLines(e.Text(true));
    assert Survives(parts, 2) && parts[2] == Strip(item);
  }

  lemma ClosesItp()
    ensures IsItp(" -- Closes:ITP\n")
  {
    var item := " -- Closes:ITP\n";
    assert OccursAt(item, "Closes:", 4) && OccursAt(item, "ITP", 11);
  }

  /** So the filter is not idempotent on all texts. */
  lemma FilterTwiceDiffers()
    ensures var once := Filtered(ReadLines("a\n" + ("\U{0C}" + " -- Closes:ITP\n") + " --\n"));
            Filtered(ReadLines(Join(once))) != once
  {
    hide Filtered, ReadLines, Join, SplitLines, IsItp;
    ClosesItp();
    HiddenFooterIsFound("a\n", " -- Closes:ITP\n", " --\n");
  }

  // ---- The shape of the output ----

  /** The texts of entries, the first of them without an empty line before it. */
  function Texts(es: seq<Entry>, first: bool): seq<string>
    decreases |es|
  {
    if es == [] then [] else [es[0].Text(first)] + Texts(es[1..], false)
  }

  lemma {:induction false} KeptUpToItp(before: seq<Entry>, rest: seq<Entry>, first: bool)
    requires forall e :: e in before ==> !e.Itp()
    ensures Kept(before + rest, first) == Texts(before, first) + Kept(rest, first && before == [])
    decreases |before|
  {
    if before == [] {
      assert before + rest == rest;
    } else {
      hide IsItp, CutLines, SplitLines;
      assert before + rest == [before[0]] + (before[1..] + rest);
      assert before[0] in before;
      KeptFirst(before[0], before[1..] + rest, first);
      KeptUpToItp(before[1..], rest, false);
    }
  }

  function ItpItems(lines: seq<string>): seq<string> {
    if lines == [] then [] else (if IsItp(lines[0]) then [lines[0]] else []) + ItpItems(lines[1..])
  }

  /** The first two and the last two parts, and the ITP items in between. */
  function Survivors(parts: seq<string>): seq<string> {
    var n := |parts|;
    if n < 4 then parts else parts[..2] + ItpItems(parts[2..n - 2]) + parts[n - 2..]
  }

  function WithNewlines(parts: seq<string>): seq<string> {
    if parts == [] then [] else [parts[0] + "\n"] + WithNewlines(parts[1..])
  }

  lemma {:induction false} WithNewlinesConcat(a: seq<string>, b: seq<string>)
    ensures WithNewlines(a + b) == WithNewlines(a) + WithNewlines(b)
  {
    if a == [] {
      assert a + b == b;
    } else {
      assert (a + b)[0] == a[0] && (a + b)[1..] == a[1..] + b;
      WithNewlinesConcat(a[1..], b);
    }
  }

  lemma {:induction false} CutOfLastTwo(parts: seq<string>, i: nat)
    requires i <= |parts| && (i >= |parts| - 2 || |parts| < 4)
    ensures CutLines(parts, i) == WithNewlines(parts[i..])
    decreases |parts| - i
  {
    hide IsItp, CutLines;
    if i < |parts| {
      CutLinesStep(parts, i);
      CutOfLastTwo(parts, i + 1);
      assert parts[i..][1..] == parts[i + 1..];
    } else {
      NothingCut(parts);
    }
  }

  lemma {:induction false} CutOfMiddle(parts: seq<string>, i: nat)
    requires |parts| >= 4 && 2 <= i <= |parts| - 2
    ensures CutLines(parts, i) == WithNewlines(ItpItems(parts[i..|parts| - 2]) + parts[|parts| - 2..])
    decreases |parts| - i
  {
    hide IsItp, CutLines;
    var n := |parts|;
    if i == n - 2 {
      CutOfLastTwo(parts, i);
      assert parts[i..n - 2] == [] && [] + parts[n - 2..] == parts[n - 2..];
    } else {
      CutLinesStep(parts, i);
      CutOfMiddle(parts, i + 1);
      var rest := ItpItems(parts[i + 1..n - 2]) + parts[n - 2..];
      assert parts[i..n - 2][1..] == parts[i + 1..n - 2];
      if IsItp(parts[i]) {
        assert ItpItems(parts[i..n - 2]) + parts[n - 2..] == [parts[i]] + rest;
        assert ([parts[i]] + rest)[1..] == rest;
      } else {
        assert ItpItems(parts[i..n - 2]) == ItpItems(parts[i + 1..n - 2]);
      }
    }
  }

  lemma SurvivorsOfFour(parts: seq<string>)
    requires |parts| >= 4
    ensures Survivors(parts) == [parts[0], parts[1]] + (ItpItems(parts[2..|parts| - 2]) + parts[|parts| - 2..])
  {
    hide ItpItems;
    assert parts[..2] == [parts[0], parts[1]];
  }

  /** The surviving lines of any ITP entry: its first two and last two parts, and the ITP items. */
  lemma CutIsSurvivors(parts: seq<string>)
    ensures CutLines(parts, 0) == WithNewlines(Survivors(parts))
  {
    hide IsItp, CutLines, WithNewlines, ItpItems;
    if |parts| < 4 {
      CutOfLastTwo(parts, 0);
      assert parts[0..] == parts;
    } else {
      hide Survivors;
      CutLinesStep(parts, 0);
      CutLinesStep(parts, 1);
      CutOfMiddle(parts, 2);
      SurvivorsOfFour(parts);
      TwoWithNewlines(parts[0], parts[1]);
      WithNewlinesConcat([parts[0], parts[1]], ItpItems(parts[2..|parts| - 2]) + parts[|parts| - 2..]);
      var a, b := [parts[0] + "\n"], [parts[1] + "\n"];
      assert a + (b + CutLines(parts, 2)) == a + b + CutLines(parts, 2);
    }
  }

  lemma TwoWithNewlines(a: string, b: string)
    ensures WithNewlines([a, b]) == [a + "\n"] + [b + "\n"]
  {
    assert [a, b][1..] == [b];
    assert WithNewlines([b]) == [b + "\n"] + WithNewlines([]);
  }

  /**
   The output is the complete entries, in order and unchanged, up to the first ITP entry; of this one
   the first two and the last two of the lines that splitlines() makes of it, and the ITP items; and
   nothing of what follows.  If only newlines separate its lines, these are the header, the ITP items,
   the last line of content, the footer and, if it is the very first entry, the first line of content.
   */
  lemma OutputShape(lines: seq<string>, before: seq<Entry>, rest: seq<Entry>)
    requires Proper(lines) && Outside(lines) == before + rest
    requires forall e :: e in before ==> !e.Itp()
    requires rest != [] ==> rest[0].Itp()
    ensures Filtered(lines) ==
            Texts(before, true)
            + (if rest == [] then [] else WithNewlines(Survivors(SplitLines(rest[0].Text(before == [])))))
    ensures rest != [] && PlainEntry(rest[0]) ==>
              Filtered(lines) == Texts(before, true) + SetOff(Cut(rest[0], before == []), before == [])
  {
    hide IsItp, CutLines, SplitLines, Shaped, PlainEntry, SetOff, Survivors, WithNewlines;
    OutsideIsShaped(lines);
    KeptUpToItp(before, rest, true);
    if rest != [] {
      assert (before + rest)[|before|] == rest[0];
      CutIsSurvivors(SplitLines(rest[0].Text(before == [])));
      if PlainEntry(rest[0]) {
        CutEntryLines(rest[0], before == []);
      }
    }
  }
}

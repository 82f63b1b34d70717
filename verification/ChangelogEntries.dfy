/**
 The changelog filter on changelogs that are written out: what its patterns match, where its lines are
 split, and what it keeps of a list of entries.
 */
module ChangelogEntries {
  import opened Sequences
  import opened Changelog

  // ---- The patterns ----

  /** A line without a newline, or with one at its end. */
  predicate LineOf(line: string, text: string) {
    '\n' !in text && (line == text || line == text + "\n")
  }

  lemma LineOfIsOneLine(line: string, text: string)
    requires LineOf(line, text)
    ensures OneLine(line) && Strip(line) == text
  {}

  lemma OneLineIsLineOf(line: string)
    requires OneLine(line)
    ensures LineOf(line, Strip(line))
  {
    if line != "" && line[|line| - 1] == '\n' {
      assert line == Strip(line) + "\n";
    } else {
      assert forall i :: 0 <= i < |line| ==> line[i] != '\n';
    }
  }

  /** An entry begins with a line that begins with a letter. */
  lemma BeginsEntryIff(line: string)
    ensures BeginsEntry(line) <==>
            exists letter: char, x: string ::
              ('a' <= letter <= 'z' || 'A' <= letter <= 'Z') && LineOf(line, [letter] + x)
  {
    if BeginsEntry(line) {
      OneLineIsLineOf(line);
      var text := Strip(line);
      assert text != "";
      assert text == [text[0]] + text[1..];
    }
    forall letter: char, x: string | ('a' <= letter <= 'z' || 'A' <= letter <= 'Z') && LineOf(line, [letter] + x)
      ensures BeginsEntry(line)
    {
      LineOfIsOneLine(line, [letter] + x);
    }
  }

  /** An entry ends with a line that begins with a space and two dashes. */
  lemma EndsEntryIff(line: string)
    ensures EndsEntry(line) <==> exists x: string :: LineOf(line, " --" + x)
  {
    if EndsEntry(line) {
      OneLineIsLineOf(line);
      var text := Strip(line);
      assert line[..3] == " --";
      assert |text| >= 3 by {
        assert line[2] == '-';
      }
      assert text[..3] == line[..3];
      assert text == " --" + text[3..];
    }
    forall x: string | LineOf(line, " --" + x)
      ensures EndsEntry(line)
    {
      LineOfIsOneLine(line, " --" + x);
      assert line[..3] == " --";
    }
  }

  /** The two words, one somewhere behind the other. */
  ghost predicate InThisOrder(text: string, word: string, next: string) {
    exists a: string, m: string, z: string :: text == a + word + m + next + z
  }

  lemma CutAtOccurrences(text: string, word: string, next: string, i: nat, j: nat)
    requires OccursAt(text, word, i) && OccursAt(text, next, j) && i + |word| <= j
    ensures text == text[..i] + word + text[i + |word|..j] + next + text[j + |next|..]
  {
    assert text == text[..i] + text[i..i + |word|] + text[i + |word|..j] + text[j..j + |next|] + text[j + |next|..];
  }

  lemma ContainsIsOrder(text: string, word: string, next: string)
    ensures ContainsThen(text, word, next) <==> InThisOrder(text, word, next)
  {
    if ContainsThen(text, word, next) {
      var i, j :| 0 <= i <= |text| && 0 <= j <= |text| && OccursAt(text, word, i) && OccursAt(text, next, j) && i + |word| <= j;
      CutAtOccurrences(text, word, next, i, j);
    }
    forall a: string, m: string, z: string | text == a + word + m + next + z
      ensures ContainsThen(text, word, next)
    {
      OccurrencesInParts(a, word, m, next, z);
    }
  }

  lemma OccurrencesInParts(a: string, word: string, m: string, next: string, z: string)
    ensures ContainsThen(a + word + m + next + z, word, next)
  {
    var text, i, j := a + word + m + next + z, |a|, |a + word + m|;
    assert text == a + (word + (m + next + z));
    assert text[i..i + |word|] == word;
    assert text[j..j + |next|] == next;
    assert OccursAt(text, word, i) && OccursAt(text, next, j);
  }

  /** An ITP item has "Closes:" and somewhere behind it "ITP", or "ITP" and somewhere behind it "Closes:". */
  lemma ItpIff(line: string)
    ensures IsItp(line) <==>
            exists text: string ::
              LineOf(line, text) && (InThisOrder(text, "Closes:", "ITP") || InThisOrder(text, "ITP", "Closes:"))
  {
    hide ContainsThen, InThisOrder;
    ContainsIsOrder(Strip(line), "Closes:", "ITP");
    ContainsIsOrder(Strip(line), "ITP", "Closes:");
    ContainsStripped(line, "Closes:", "ITP");
    ContainsStripped(line, "ITP", "Closes:");
    if IsItp(line) {
      OneLineIsLineOf(line);
    }
    forall text: string | LineOf(line, text)
      ensures OneLine(line) && Strip(line) == text
    {
      LineOfIsOneLine(line, text);
    }
  }

  // ---- Where lines are split ----

  /** A text without the characters that separate lines. */
  predicate Unseparated(text: string) {
    forall i :: 0 <= i < |text| ==>
      text[i] !in {'\n', '\r', '\U{0B}', '\U{0C}', '\U{1C}', '\U{1D}', '\U{1E}', '\U{85}', '\U{2028}', '\U{2029}'}
  }

  lemma {:induction false} LengthOfPart(part: string, rest: string)
    requires Unseparated(part) && (rest == "" || IsSeparator(rest[0]))
    ensures LengthToSeparator(part + rest) == |part|
    decreases |part|
  {
    if part != "" {
      assert (part + rest)[1..] == part[1..] + rest;
      LengthOfPart(part[1..], rest);
    } else {
      assert part + rest == rest;
    }
  }

  /**
   splitlines() ends a part at any of ten characters, takes carriage return and newline for one of
   them, and has no empty part at the end.
   */
  lemma PartsAreSplit(part: string, separator: char, rest: string)
    requires Unseparated(part)
    ensures separator in {'\n', '\U{0B}', '\U{0C}', '\U{1C}', '\U{1D}', '\U{1E}', '\U{85}', '\U{2028}', '\U{2029}'} ==>
              SplitLines(part + ([separator] + rest)) == [part] + SplitLines(rest)
    ensures SplitLines(part + ("\r\n" + rest)) == [part] + SplitLines(rest)
    ensures rest == "" || rest[0] != '\n' ==> SplitLines(part + ("\r" + rest)) == [part] + SplitLines(rest)
    ensures SplitLines(part) == if part == "" then [] else [part]
  {
    hide SplitLines, Unseparated;
    if separator in {'\n', '\U{0B}', '\U{0C}', '\U{1C}', '\U{1D}', '\U{1E}', '\U{85}', '\U{2028}', '\U{2029}'} {
      SplitAtOne(part, separator, rest);
    }
    SplitAtTwo(part, rest);
    if rest == "" || rest[0] != '\n' {
      SplitAtOne(part, '\r', rest);
    }
    SplitUnseparated(part);
  }

  /** One step of splitlines(). */
  lemma SplitStep(text: string, n: nat)
    requires n == LengthToSeparator(text) < |text|
    ensures SplitLines(text) == [text[..n]] + SplitLines(text[SeparatorEnd(text, n)..])
  {}

  lemma SplitAtOne(part: string, separator: char, rest: string)
    requires Unseparated(part) && IsSeparator(separator) && (separator == '\r' ==> rest == "" || rest[0] != '\n')
    ensures SplitLines(part + ([separator] + rest)) == [part] + SplitLines(rest)
  {
    hide IsSeparator, LengthToSeparator, SplitLines, Unseparated;
    var text, n := part + ([separator] + rest), |part|;
    LengthOfPart(part, [separator] + rest);
    assert text[..n] == part && text[n] == separator && text[n + 1..] == rest;
    assert rest != "" ==> text[n + 1] == rest[0];
    SplitStep(text, n);
  }

  lemma SplitAtTwo(part: string, rest: string)
    requires Unseparated(part)
    ensures SplitLines(part + ("\r\n" + rest)) == [part] + SplitLines(rest)
  {
    hide LengthToSeparator, SplitLines, Unseparated;
    var text, n := part + ("\r\n" + rest), |part|;
    LengthOfPart(part, "\r\n" + rest);
    assert text[..n] == part && text[n] == '\r' && text[n + 1] == '\n' && text[n + 2..] == rest;
    SplitStep(text, n);
  }

  lemma SplitUnseparated(part: string)
    requires Unseparated(part)
    ensures SplitLines(part) == if part == "" then [] else [part]
  {
    hide LengthToSeparator;
    LengthOfPart(part, "");
    assert part + "" == part;
  }

  // ---- Entries ----

  /** An entry written out: a letter in front, lines that are no footers, a footer. */
  predicate Written(e: Entry) {
    && BeginsEntry(e.header) && Terminated(e.header)
    && e.content != [] && (forall j :: 0 <= j < |e.content| ==> Terminated(e.content[j]) && !EndsEntry(e.content[j]))
    && EndsEntry(e.footer)
  }

  lemma HeaderWritten(header: string)
    requires header != "" && '\n' !in header && ('a' <= header[0] <= 'z' || 'A' <= header[0] <= 'Z')
    ensures BeginsEntry(header + "\n") && Terminated(header + "\n")
  {}

  lemma FooterWritten(footer: string)
    requires '\n' !in footer
    ensures EndsEntry(" --" + footer + "\n") && EndsEntry(" --" + footer)
  {
    assert (" --" + footer)[..3] == " --" && (" --" + footer + "\n")[..3] == " --";
  }

  lemma NoFooter(line: string)
    requires '\n' !in line && !(" --" <= line)
    ensures Terminated(line + "\n") && !EndsEntry(line + "\n")
  {
    FooterTerminated(line);
  }

  lemma {:induction false} NewlinesAreAppended(lines: seq<string>)
    ensures |WithNewlines(lines)| == |lines|
    ensures forall j :: 0 <= j < |lines| ==> WithNewlines(lines)[j] == lines[j] + "\n"
  {
    if lines != [] {
      NewlinesAreAppended(lines[1..]);
    }
  }

  /** What makes a written entry, without naming the patterns. */
  lemma WrittenOut(header: string, content: seq<string>, footer: string)
    requires header != "" && '\n' !in header && ('a' <= header[0] <= 'z' || 'A' <= header[0] <= 'Z')
    requires content != [] && forall line :: line in content ==> '\n' !in line && !(" --" <= line)
    requires '\n' !in footer
    ensures Written(Entry(header + "\n", WithNewlines(content), " --" + footer + "\n"))
    ensures Written(Entry(header + "\n", WithNewlines(content), " --" + footer))
  {
    hide BeginsEntry, EndsEntry, Terminated, WithNewlines;
    HeaderWritten(header);
    FooterWritten(footer);
    NewlinesAreAppended(content);
    forall j | 0 <= j < |content|
      ensures Terminated(content[j] + "\n") && !EndsEntry(content[j] + "\n")
    {
      assert content[j] in content;
      NoFooter(content[j]);
    }
  }

  /** The lines of entries one after the other. */
  function LinesOf(es: seq<Entry>): seq<string> {
    if es == [] then [] else [es[0].header] + es[0].content + [es[0].footer] + LinesOf(es[1..])
  }

  lemma EntryIsRead(e: Entry, rest: seq<string>)
    requires Written(e)
    ensures Outside([e.header] + e.content + [e.footer] + rest) == [e] + Outside(rest)
  {
    hide BeginsEntry, EndsEntry, Outside;
    FooterIsLine(e.footer);
    assert SetOff(e, true) == [e.header] + e.content + [e.footer];
    EntryLinesAreParsed(e, rest, true);
  }

  lemma InTurn(a: seq<string>, b: seq<string>, c: seq<string>)
    ensures a + b + c == a + (b + c)
  {}

  lemma FirstLinesOf(es: seq<Entry>, rest: seq<string>)
    requires es != []
    ensures LinesOf(es) + rest == [es[0].header] + es[0].content + [es[0].footer] + (LinesOf(es[1..]) + rest)
  {
    InTurn([es[0].header] + es[0].content + [es[0].footer], LinesOf(es[1..]), rest);
  }

  lemma {:induction false} LinesAreEntries(es: seq<Entry>, rest: seq<string>)
    requires forall e :: e in es ==> Written(e)
    ensures Outside(LinesOf(es) + rest) == es + Outside(rest)
  {
    hide Outside, Written, LinesOf;
    if es == [] {
      NoLines(rest);
      assert es + Outside(rest) == Outside(rest);
    } else {
      assert es[0] in es;
      LinesAreEntries(es[1..], rest);
      EntryIsRead(es[0], LinesOf(es[1..]) + rest);
      FirstLinesOf(es, rest);
      assert [es[0]] + (es[1..] + Outside(rest)) == es + Outside(rest);
    }
  }

  lemma NoLines(rest: seq<string>)
    ensures LinesOf([]) + rest == rest
  {}

  lemma FooterIsLine(line: string)
    requires EndsEntry(line)
    ensures IsLine(line)
  {}

  /** An entry as it is written out: behind an empty line unless it is the first. */
  function TextOf(e: Entry, k: nat): string {
    (if k == 0 then "" else "\n") + e.header + Join(e.content) + e.footer
  }

  lemma {:induction false} TextsAre(es: seq<Entry>, first: bool)
    ensures |Texts(es, first)| == |es|
    ensures forall k :: 0 <= k < |es| ==> Texts(es, first)[k] == TextOf(es[k], if first && k == 0 then 0 else 1)
    decreases |es|
  {
    if es != [] {
      TextsAre(es[1..], false);
    }
  }

  /** A written entry without ITP item, in the sense of ItpIff. */
  predicate Ordinary(e: Entry) {
    Written(e) && forall line :: line in e.content ==> !IsItp(line)
  }

  /** Entries without ITP items are all kept, unchanged and in order. */
  lemma OrdinaryEntriesAreKept(es: seq<Entry>)
    requires forall e :: e in es ==> Ordinary(e)
    ensures var result := Filtered(LinesOf(es));
            |result| == |es| && forall k :: 0 <= k < |es| ==> result[k] == TextOf(es[k], k)
  {
    hide Written, IsItp, Outside, Kept, Texts;
    LinesAreEntries(es, []);
    assert LinesOf(es) + [] == LinesOf(es) && Outside([]) == [] && es + [] == es by {
      NothingOutside();
    }
    KeptUpToItp(es, [], true);
    KeptNothing(true && es == []);
    TextsAre(es, true);
    assert Texts(es, true) + [] == Texts(es, true);
  }

  lemma NothingOutside()
    ensures Outside([]) == []
  {}

  /**
   The first entry with an ITP item is the last one of the output, cut to its first two and last two
   lines and its ITP items; the entries in front of it are kept; nothing behind it matters.
   */
  lemma ItpEntryIsLast(es: seq<Entry>, itp: Entry, line: string, rest: seq<string>)
    requires forall e :: e in es ==> Ordinary(e)
    requires Written(itp) && line in itp.content && IsItp(line)
    ensures var result := Filtered(LinesOf(es) + (LinesOf([itp]) + rest));
            && |result| >= |es| && (forall k :: 0 <= k < |es| ==> result[k] == TextOf(es[k], k))
            && result[|es|..] == WithNewlines(Survivors(SplitLines(TextOf(itp, |es|))))
  {
    hide Written, IsItp, Outside, Kept, Texts, CutLines, SplitLines, Survivors, WithNewlines;
    LinesAreEntries(es, LinesOf([itp]) + rest);
    LinesAreEntries([itp], rest);
    KeptUpToItp(es, [itp] + Outside(rest), true);
    KeptFirst(itp, Outside(rest), es == []);
    TextsAre(es, true);
    CutIsSurvivors(SplitLines(TextOf(itp, |es|)));
    assert itp.Text(es == []) == TextOf(itp, |es|);
  }

  /** Lines between entries that do not begin with a letter are skipped. */
  lemma OtherLinesAreSkipped(line: string, rest: seq<string>)
    requires line == "" || !('a' <= line[0] <= 'z' || 'A' <= line[0] <= 'Z')
    ensures Filtered([line] + rest) == Filtered(rest)
  {
    assert ([line] + rest)[1..] == rest;
  }
}

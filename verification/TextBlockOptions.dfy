/**
 From the options to the output: which options are accepted, which tags and lines they mean, and what
 a run with them writes.
 */
module TextBlockOptions {
  import opened Bytes
  import opened Sequences
  import opened OptionType
  import opened TextBlockModel
  import opened TextBlockRun
  import opened TextBlockTape
  import opened TextBlockModes
  import opened TextBlockLines

  // ---- What is accepted ----

  /** An option with a text that is not empty. */
  predicate Given(tag: Option<Text>) {
    tag.Some? && tag.value != []
  }

  /**
   Options are accepted unless they have both a begin tag and a line selection, count lines from the
   end of standard input, or lack an insert file that the mode inserts.  Cat, Discard and Enumerate
   ignore the tags; an end tag alone is ignored; without one, the begin tag is also the end tag.
   */
  lemma AcceptedIff(o: Options, totalLines: Option<nat>)
    ensures Normalise(o, totalLines).Success? <==>
            && !(Given(o.beginTag) && (o.selectBegin != 0 || o.selectEnd != 0))
            && !(totalLines.None? && (o.selectBegin < 0 || o.selectEnd < 0))
            && !(o.insertion.None? && o.mode in {InsertFront, InsertBack, Replace})
    ensures Normalise(o, totalLines).Success? ==>
              var c := Normalise(o, totalLines).value;
              && c.mode == o.mode && c.labels == o.labels && c.lineNumber == o.lineNumber
              && c.marking.includeTags == o.includeTags && c.marking.fullTagLines == o.fullTagLines
              && (o.insertion.Some? ==> c.insertion == o.insertion.value)
              && (if o.mode in {Cat, Discard, Enumerate} || !Given(o.beginTag) then !c.marking.Tagged()
                  else
                    && c.marking.beginTag == o.beginTag.value
                    && c.marking.endTag == if Given(o.endTag) then o.endTag.value else o.beginTag.value)
  {}

  // ---- Lines counted from the end ----

  lemma PlayedSelection(c: Config, a: Text, b: Text, z: Text)
    requires c.mode == Extract
    ensures Play(c, Items(a, false) + [Enter] + Items(b, true) + [Leave] + Items(z, false)) == b
  {
    hide Play, Items;
    PlayItems(c, a, false);
    PlayItems(c, b, true);
    PlayItems(c, z, false);
    PlayedBorders(c);
    PlayConcat(c, Items(a, false), [Enter]);
    PlayConcat(c, Items(a, false) + [Enter], Items(b, true));
    PlayConcat(c, Items(a, false) + [Enter] + Items(b, true), [Leave]);
    PlayConcat(c, Items(a, false) + [Enter] + Items(b, true) + [Leave], Items(z, false));
    assert [] + [] + b + [] + [] == b;
  }

  lemma PlayedBorders(c: Config)
    requires c.mode == Extract
    ensures Play(c, [Enter]) == [] == Play(c, [Leave])
  {}

  /** Extract writes the selected lines. */
  lemma ExtractSelection(c: Config, lines: seq<Text>)
    requires c.mode == Extract && c.marking.Normalised() && !c.marking.Tagged()
    ensures RunOutput(c, lines) ==
            if SelectsAny(c.marking, |lines|)
            then Join(lines[c.marking.selectBegin - 1..SelectionEnd(c.marking, |lines|)])
            else []
  {
    hide RunOutput, Play, Items, TapeOf, Run, Join;
    var m := c.marking;
    RunOutputIsPlayed(c, lines);
    SelectionRunIsRange(m, lines);
    if SelectsAny(m, |lines|) {
      var lo, hi := m.selectBegin - 1, SelectionEnd(m, |lines|);
      PlayedSelection(c, Join(lines[..lo]), Join(lines[lo..hi]), Join(lines[hi..]));
    } else {
      PlayItems(c, Join(lines), false);
    }
  }

  /** Options of Extract for lines of a file, without tags. */
  predicate Selects(o: Options, selectBegin: int, selectEnd: int) {
    o.mode == Extract && !Given(o.beginTag) && o.selectBegin == selectBegin && o.selectEnd == selectEnd
  }

  /** What Extract writes for a file with these lines. */
  function Extracted(o: Options, lines: seq<Text>): Text
    requires o.mode == Extract && !Given(o.beginTag)
  {
    RunOutput(Normalise(o, Some(|lines|)).value, lines)
  }

  /** --select -k -j: from the k-th to the j-th line from the end; the last line is the first from the end. */
  lemma FromTheEnd(o: Options, lines: seq<Text>, k: nat, j: nat)
    requires 1 <= j <= k <= |lines| && Selects(o, 0 - k, 0 - j)
    ensures Extracted(o, lines) == Join(lines[|lines| - k..|lines| - j + 1])
  {
    hide RunOutput, Join;
    ExtractSelection(Normalise(o, Some(|lines|)).value, lines);
  }

  /** --select i -j: from the i-th line to the j-th from the end, if they are in this order. */
  lemma UpToTheEnd(o: Options, lines: seq<Text>, i: nat, j: nat)
    requires 1 <= i && 1 <= j <= |lines| && Selects(o, i, 0 - j)
    ensures Extracted(o, lines) == if i <= |lines| - j + 1 then Join(lines[i - 1..|lines| - j + 1]) else []
  {
    hide RunOutput, Join;
    ExtractSelection(Normalise(o, Some(|lines|)).value, lines);
  }

  /** --select -k i: from the k-th line from the end to the i-th, or to the end of the file for 0 and beyond. */
  lemma FromTheEndOn(o: Options, lines: seq<Text>, k: nat, i: nat)
    requires 1 <= k <= |lines| && Selects(o, 0 - k, i)
    ensures Extracted(o, lines) ==
            if i == 0 || i >= |lines| then Join(lines[|lines| - k..])
            else if |lines| - k + 1 <= i then Join(lines[|lines| - k..i])
            else []
  {
    hide RunOutput, Join;
    ExtractSelection(Normalise(o, Some(|lines|)).value, lines);
    assert lines[|lines| - k..|lines|] == lines[|lines| - k..];
  }

  /** --select i l with positive bounds: these lines, as far as the file has them. */
  lemma FromTheStart(o: Options, lines: seq<Text>, i: nat, l: nat)
    requires 1 <= i && 1 <= l && Selects(o, i, l)
    ensures Extracted(o, lines) ==
            if i <= l && i <= |lines| then Join(lines[i - 1..if l < |lines| then l else |lines|]) else []
  {
    hide RunOutput, Join;
    ExtractSelection(Normalise(o, Some(|lines|)).value, lines);
  }

  /** A begin bound in front of the first line selects nothing, and so does no begin bound at all. */
  lemma BeginBeforeStart(o: Options, lines: seq<Text>)
    requires o.mode == Extract && !Given(o.beginTag)
    requires o.selectBegin == 0 || o.selectBegin + |lines| < 0
    ensures Extracted(o, lines) == []
  {
    hide RunOutput, Join;
    ExtractSelection(Normalise(o, Some(|lines|)).value, lines);
  }

  /**
   An end bound just in front of the first line stands for the end of the file, because it is
   normalised to 0; one further in front selects nothing.
   */
  lemma EndBeforeStart(o: Options, lines: seq<Text>, i: nat)
    requires o.mode == Extract && !Given(o.beginTag) && o.selectBegin == i && 1 <= i <= |lines|
    ensures o.selectEnd == 0 - (|lines| + 1) ==> Extracted(o, lines) == Join(lines[i - 1..])
    ensures o.selectEnd < 0 - (|lines| + 1) ==> Extracted(o, lines) == []
  {
    hide RunOutput, Join;
    ExtractSelection(Normalise(o, Some(|lines|)).value, lines);
    assert lines[i - 1..|lines|] == lines[i - 1..];
  }

  // ---- Discard ----

  lemma {:induction false} DiscardsAll(c: Config, tape: Tape)
    requires c.mode == Discard
    ensures Play(c, tape) == []
  {
    if tape != [] {
      hide Play;
      PlayFirst(c, tape);
      DiscardsAll(c, tape[1..]);
    } else {
      assert Play(c, []) == [];
    }
  }

  lemma DiscardWritesNothing(c: Config, lines: seq<Text>)
    requires c.mode == Discard && c.marking.Normalised()
    ensures RunOutput(c, lines) == []
  {
    hide RunOutput, RunTape;
    RunOutputIsPlayed(c, lines);
    DiscardsAll(c, RunTape(c.marking, lines));
  }
}

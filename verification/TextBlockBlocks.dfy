/**
 One block written out: what a run writes for text in front of the block, the block and what follows,
 for included and excluded tags, in tags only and with full tag lines.  Applied again to what follows,
 this says what is written for any text.
 */
module TextBlockBlocks {
  import opened Bytes
  import opened Sequences
  import opened OptionType
  import opened TextBlockModel
  import opened TextBlockRun
  import opened TextBlockTape
  import opened TextBlockModes
  import opened TextBlockLines
  import opened TextBlockScan

  /**
   What the modes write for text in front of a block, the block and what comes behind it.  For
   Highlight this assumes that single texts are not coloured.
   */
  predicate Writes(c: Config, written: Text, front: Text, block: Text, behind: Text) {
    match c.mode
    case Extract => written == block + behind
    case Remove => written == front + behind
    case Replace => written == front + c.insertion + behind
    case InsertFront => written == front + c.insertion + block + behind
    case InsertBack => written == front + block + c.insertion + behind
    case Highlight => written == front + c.labels(BlockBegin) + block + c.labels(BlockEnd) + behind
    case _ => true
  }

  lemma PlayedOne(c: Config)
    ensures Play(c, [Enter]) == ItemText(c, Enter) && Play(c, [Leave]) == ItemText(c, Leave)
  {}

  lemma BlockIsPlayed(c: Config, front: Text, block: Text, behind: Tape)
    ensures Writes(c, Play(c, Items(front, false) + [Enter] + Items(block, true) + [Leave] + behind), front, block, Play(c, behind))
  {
    hide Play, Items;
    PlayConcat(c, Items(front, false) + [Enter] + Items(block, true) + [Leave], behind);
    PlayConcat(c, Items(front, false) + [Enter] + Items(block, true), [Leave]);
    PlayConcat(c, Items(front, false) + [Enter], Items(block, true));
    PlayConcat(c, Items(front, false), [Enter]);
    PlayItems(c, front, false);
    PlayItems(c, block, true);
    PlayedOne(c);
    PartsInTurn(Play(c, Items(front, false)), ItemText(c, Enter), Play(c, Items(block, true)), ItemText(c, Leave), Play(c, behind));
  }

  /** Parts that are empty do not matter. */
  lemma PartsInTurn(a: Text, b: Text, x: Text, e: Text, z: Text)
    ensures a == [] && b == [] ==> a + b + x + e + z == x + e + z
    ensures b == [] ==> a + b + x + e + z == a + x + e + z
    ensures x == [] ==> a + b + x + e + z == a + b + e + z
    ensures e == [] ==> a + b + x + e + z == a + b + x + z
    ensures a == [] && b == [] && e == [] ==> a + b + x + e + z == x + z
    ensures b == [] && e == [] ==> a + b + x + e + z == a + x + z
    ensures b == [] && x == [] ==> a + b + x + e + z == a + e + z
    ensures b == [] && x == [] && e == [] ==> a + b + x + e + z == a + z
  {}

  /** A run that only begins behind the front text. */
  predicate FirstAt(text: Text, tag: Text, at: nat) {
    Find(text, tag) == Some(at)
  }

  // ---- Tags only ----

  predicate Scanned(c: Config, text: Text) {
    && TagsOnly(c.marking) && FitsLine(c.marking.beginTag) && FitsLine(c.marking.endTag)
    && CutInvisible(c) && HonoursTags(c.mode) && NUL !in text
  }

  lemma OutputIsScan(c: Config, text: Text)
    requires Scanned(c, text)
    ensures RunOutput(c, Lines(text)) == Play(c, ScanTape(c.marking, text, c.marking.beginTag))
  {
    RunOutputIsPlayed(c, Lines(text));
    RunIsScan(c.marking, text);
  }

  /** The scan up to the begin of a block. */
  lemma ScanBegin(m: Marking, front: Text, rest: Text, at: nat)
    requires TagsOnly(m) && !m.EqualTags() && FirstAt(front + rest, m.beginTag, at)
    requires |front| == at + (if m.includeTags then 0 else |m.beginTag|)
    ensures ScanTape(m, front + rest, m.beginTag) == Items(front, false) + [Enter] + ScanTape(m, rest, m.endTag)
  {
    hide Items, ScanTape, Find;
    ScanFound(m, front + rest, m.beginTag, at);
    assert (front + rest)[..|front|] == front && (front + rest)[|front|..] == rest;
  }

  /** The scan up to the end of a block. */
  lemma ScanEnd(m: Marking, block: Text, behind: Text, length: nat)
    requires TagsOnly(m) && !m.EqualTags() && FirstAt(block + behind, m.endTag, length)
    requires |block| == length + (if m.includeTags then |m.endTag| else 0)
    ensures ScanTape(m, block + behind, m.endTag) == Items(block, true) + [Leave] + ScanTape(m, behind, m.beginTag)
  {
    hide Items, ScanTape, Find;
    ScanFound(m, block + behind, m.endTag, length);
    assert (block + behind)[..|block|] == block && (block + behind)[|block|..] == behind;
  }

  lemma BlockInTurn(a: Tape, b: Tape, z: Tape)
    ensures a + [Enter] + (b + [Leave] + z) == a + [Enter] + b + [Leave] + z
    ensures a + [Enter] + (b + [Leave]) == a + [Enter] + b + [Leave] + []
  {}

  lemma TextInThree(front: Text, block: Text, behind: Text)
    ensures var text := front + block + behind;
            && text[..|front|] == front && text[|front|..] == block + behind
            && text[|front|..|front| + |block|] == block && text[|front| + |block|..] == behind
            && (NUL !in text ==> NUL !in behind)
  {}

  lemma Regroup(a: Text, b: Text, x: Text, e: Text, z: Text)
    ensures a + b + x + e + z == a + (b + x + e) + z
    ensures a + b + x + e + z == (a + b) + x + (e + z)
    ensures x + (e + z) == x + e + z
  {
    assert a + b + x + e + z == a + b + x + (e + z);
  }

  lemma BlockAt(c: Config, front: Text, block: Text, behind: Text, at: nat, length: nat)
    requires Scanned(c, front + block + behind) && c.marking.beginTag != c.marking.endTag
    requires FirstAt(front + block + behind, c.marking.beginTag, at) && FirstAt(block + behind, c.marking.endTag, length)
    requires |front| == at + (if c.marking.includeTags then 0 else |c.marking.beginTag|)
    requires |block| == length + (if c.marking.includeTags then |c.marking.endTag| else 0)
    ensures Writes(c, RunOutput(c, Lines(front + block + behind)), front, block, RunOutput(c, Lines(behind)))
  {
    hide RunOutput, Lines, Play, Items, ScanTape, Find, FitsLine, Writes, CutInvisible;
    TextInThree(front, block, behind);
    var m, b := c.marking, c.marking.beginTag;
    assert front + block + behind == front + (block + behind);
    ScanBegin(m, front, block + behind, at);
    ScanEnd(m, block, behind, length);
    BlockInTurn(Items(front, false), Items(block, true), ScanTape(m, behind, b));
    OutputIsScan(c, front + block + behind);
    OutputIsScan(c, behind);
    BlockIsPlayed(c, front, block, ScanTape(m, behind, b));
  }

  /**
   Included tags: the block begins with the first begin tag and ends behind the first end tag from
   there on; what follows is treated like a text of its own.
   */
  lemma IncludedBlock(c: Config, a: Text, x: Text, z: Text)
    requires var b, e := c.marking.beginTag, c.marking.endTag;
             && Scanned(c, a + b + x + e + z) && c.marking.includeTags && b != e
             && FirstAt(a + b + x + e + z, b, |a|) && FirstAt(b + x + e + z, e, |b + x|)
    ensures var b, e := c.marking.beginTag, c.marking.endTag;
            Writes(c, RunOutput(c, Lines(a + b + x + e + z)), a, b + x + e, RunOutput(c, Lines(z)))
  {
    hide *;
    var b, e := c.marking.beginTag, c.marking.endTag;
    Regroup(a, b, x, e, z);
    BlockAt(c, a, b + x + e, z, |a|, |b + x|);
  }

  /**
   Excluded tags: the block begins behind the first begin tag and ends in front of the first end tag
   behind it; what follows begins with this end tag.
   */
  lemma ExcludedBlock(c: Config, a: Text, x: Text, z: Text)
    requires var b, e := c.marking.beginTag, c.marking.endTag;
             && Scanned(c, a + b + x + e + z) && !c.marking.includeTags && b != e
             && FirstAt(a + b + x + e + z, b, |a|) && FirstAt(x + e + z, e, |x|)
    ensures var b, e := c.marking.beginTag, c.marking.endTag;
            Writes(c, RunOutput(c, Lines(a + b + x + e + z)), a + b, x, RunOutput(c, Lines(e + z)))
  {
    hide *;
    var b, e := c.marking.beginTag, c.marking.endTag;
    Regroup(a, b, x, e, z);
    BlockAt(c, a + b, x, e + z, |a|, |x|);
  }

  lemma PlayNothing(c: Config)
    ensures Play(c, []) == []
  {}

  lemma OpenBlockAt(c: Config, front: Text, block: Text, at: nat)
    requires Scanned(c, front + block) && c.marking.beginTag != c.marking.endTag
    requires FirstAt(front + block, c.marking.beginTag, at) && Find(block, c.marking.endTag).None?
    requires |front| == at + (if c.marking.includeTags then 0 else |c.marking.beginTag|)
    ensures Writes(c, RunOutput(c, Lines(front + block)), front, block, [])
  {
    hide RunOutput, Lines, Play, Items, ScanTape, Find, FitsLine, Writes, CutInvisible;
    ScanBegin(c.marking, front, block, at);
    ScanNothing(c.marking, block, c.marking.endTag);
    BlockInTurn(Items(front, false), Items(block, true), []);
    OutputIsScan(c, front + block);
    BlockIsPlayed(c, front, block, []);
    PlayNothing(c);
  }

  /** A block without an end tag reaches to the end of the text. */
  lemma OpenBlock(c: Config, a: Text, x: Text)
    requires var b, e := c.marking.beginTag, c.marking.endTag;
             && Scanned(c, a + b + x) && b != e && FirstAt(a + b + x, b, |a|)
             && Find(if c.marking.includeTags then b + x else x, e).None?
    ensures var b := c.marking.beginTag;
            var output := RunOutput(c, Lines(a + b + x));
            if c.marking.includeTags then Writes(c, output, a, b + x, []) else Writes(c, output, a + b, x, [])
  {
    hide *;
    var b := c.marking.beginTag;
    if c.marking.includeTags {
      assert a + b + x == a + (b + x);
      OpenBlockAt(c, a, b + x, |a|);
    } else {
      OpenBlockAt(c, a + b, x, |a|);
    }
  }

  /** Text without a begin tag is not marked. */
  lemma NoBlock(c: Config, text: Text)
    requires Scanned(c, text) && Find(text, c.marking.beginTag).None?
    ensures RunOutput(c, Lines(text)) == if c.mode == Extract then [] else text
  {
    hide RunOutput, Lines, Play, Items, ScanTape, Find, FitsLine, Writes, CutInvisible;
    OutputIsScan(c, text);
    ScanNothing(c.marking, text, c.marking.beginTag);
    assert Items(text, false) + [] == Items(text, false);
    PlayItems(c, text, false);
  }

  /** Equal tags: every tag is a block or, if it is excluded, has an empty block behind it. */
  lemma EqualTagBlock(c: Config, a: Text, z: Text)
    requires var t := c.marking.beginTag;
             && Scanned(c, a + t + z) && c.marking.EqualTags() && FirstAt(a + t + z, t, |a|)
    ensures var t, output := c.marking.beginTag, RunOutput(c, Lines(a + c.marking.beginTag + z));
            if c.marking.includeTags then Writes(c, output, a, t, RunOutput(c, Lines(z)))
            else Writes(c, output, a + t, [], RunOutput(c, Lines(z)))
  {
    hide RunOutput, Lines, Play, Items, ScanTape, Find, FitsLine, Writes, CutInvisible;
    var m, t := c.marking, c.marking.beginTag;
    var text := a + t + z;
    OutputIsScan(c, text);
    OutputIsScan(c, z);
    ScanFound(m, text, t, |a|);
    assert text[..|a|] == a && text[|a|..|a + t|] == t && text[..|a + t|] == a + t && text[|a + t|..] == z;
    if m.includeTags {
      BlockIsPlayed(c, a, t, ScanTape(m, z, t));
    } else {
      EmptyTapes();
      assert Items(a + t, false) + [Enter, Leave] == Items(a + t, false) + [Enter] + [] + [Leave];
      BlockIsPlayed(c, a + t, [], ScanTape(m, z, t));
    }
  }

  // ---- Full tag lines ----

  predicate LineWise(c: Config) {
    && c.marking.Normalised() && c.marking.Tagged() && c.marking.fullTagLines
    && CutInvisible(c) && HonoursTags(c.mode)
  }

  lemma OutputIsFold(c: Config, lines: seq<Text>)
    requires LineWise(c)
    ensures RunOutput(c, lines) == Play(c, FullLinesTape(c.marking, lines, false))
  {
    RunOutputIsPlayed(c, lines);
    FullTagLinesRunIsFold(c.marking, lines);
  }

  /** Lines without the tag sought stay on their side. */
  lemma {:induction false} FoldSkips(m: Marking, lines: seq<Text>, rest: seq<Text>, open: bool)
    requires forall i :: 0 <= i < |lines| ==> !Contains(lines[i], TagSought(m, open))
    ensures FullLinesTape(m, lines + rest, open) == Items(Join(lines), open) + FullLinesTape(m, rest, open)
  {
    hide Contains, Items, Join;
    if lines == [] {
      EmptyTapes();
      assert lines + rest == rest;
    } else {
      var line, more := lines[0], lines[1..];
      assert lines == [line] + more && (lines + rest)[1..] == more + rest;
      FoldSkips(m, more, rest, open);
      JoinConcat([line], more);
      JoinOne(line);
      ItemsConcat(line, Join(more), open);
    }
  }

  lemma FoldFirst(m: Marking, line: Text, rest: seq<Text>, open: bool)
    ensures FullLinesTape(m, [line] + rest, open) == FullLineTape(m, line, open) + FullLinesTape(m, rest, OpenAfter(m, line, open))
  {
    assert ([line] + rest)[1..] == rest;
  }

  lemma FirstAndLast(m: Marking, first: Text, last: Text)
    requires m.Normalised() && m.Tagged() && !m.EqualTags()
    requires Contains(first, m.beginTag) && Contains(last, m.endTag)
    ensures OpenAfter(m, first, false) && !OpenAfter(m, last, true)
    ensures FullLineTape(m, first, false) ==
            if m.includeTags then [Enter] + Items(first, true) else Items(first, false) + [Enter]
    ensures FullLineTape(m, last, true) ==
            if m.includeTags then Items(last, true) + [Leave] else [Leave] + Items(last, false)
  {
    hide Contains, Items;
  }

  /** A line with the begin tag, lines without the end tag, and a line with it, as tapes. */
  lemma FoldBlock(m: Marking, first: Text, inner: seq<Text>, last: Text, behind: seq<Text>)
    requires m.Normalised() && m.Tagged() && !m.EqualTags()
    requires Contains(first, m.beginTag) && Contains(last, m.endTag)
    requires forall i :: 0 <= i < |inner| ==> !Contains(inner[i], m.endTag)
    ensures FullLinesTape(m, [first] + (inner + ([last] + behind)), false) ==
            FullLineTape(m, first, false) + (Items(Join(inner), true) + (FullLineTape(m, last, true) + FullLinesTape(m, behind, false)))
  {
    hide Contains, Items, Join, FullLineTape, FullLinesTape;
    FirstAndLast(m, first, last);
    FoldFirst(m, first, inner + ([last] + behind), false);
    FoldSkips(m, inner, [last] + behind, true);
    FoldFirst(m, last, behind, true);
  }

  lemma IncludedInTurn(a: Tape, first: Text, inner: Text, last: Text, z: Tape)
    ensures a + ([Enter] + Items(first, true) + (Items(inner, true) + (Items(last, true) + [Leave] + z))) ==
            a + [Enter] + Items(first + inner + last, true) + [Leave] + z
  {
    hide Items;
    ItemsConcat(first + inner, last, true);
    ItemsConcat(first, inner, true);
  }

  lemma ExcludedInTurn(front: Text, first: Text, inner: Tape, last: Tape, z: Tape)
    ensures Items(front, false) + (Items(first, false) + [Enter] + (inner + ([Leave] + last + z))) ==
            Items(front + first, false) + [Enter] + inner + [Leave] + (last + z)
  {
    hide Items;
    ItemsConcat(front, first, false);
  }

  /**
   Full tag lines: a line with the begin tag and, some lines later, one with the end tag.  With included
   tags these lines belong to the block, with excluded tags the block is what lies between them.
   */
  lemma LinesBlock(c: Config, front: seq<Text>, first: Text, inner: seq<Text>, last: Text, behind: seq<Text>)
    requires LineWise(c) && !c.marking.EqualTags()
    requires Contains(first, c.marking.beginTag) && Contains(last, c.marking.endTag)
    requires forall i :: 0 <= i < |front| ==> !Contains(front[i], c.marking.beginTag)
    requires forall i :: 0 <= i < |inner| ==> !Contains(inner[i], c.marking.endTag)
    ensures var output, more := RunOutput(c, front + ([first] + (inner + ([last] + behind)))), RunOutput(c, behind);
            if c.marking.includeTags then Writes(c, output, Join(front), first + Join(inner) + last, more)
            else Writes(c, output, Join(front) + first, Join(inner), (if c.mode == Extract then [] else last) + more)
  {
    hide RunOutput, Play, Items, Contains, Join, FullLineTape, FullLinesTape, Writes;
    var m, z := c.marking, FullLinesTape(c.marking, behind, false);
    OutputIsFold(c, front + ([first] + (inner + ([last] + behind))));
    OutputIsFold(c, behind);
    FoldSkips(m, front, [first] + (inner + ([last] + behind)), false);
    FoldBlock(m, first, inner, last, behind);
    FirstAndLast(m, first, last);
    if m.includeTags {
      IncludedInTurn(Items(Join(front), false), first, Join(inner), last, z);
      BlockIsPlayed(c, Join(front), first + Join(inner) + last, z);
    } else {
      ExcludedInTurn(Join(front), first, Items(Join(inner), true), Items(last, false), z);
      BlockIsPlayed(c, Join(front) + first, Join(inner), Items(last, false) + z);
      PlayConcat(c, Items(last, false), z);
      PlayItems(c, last, false);
    }
  }

  /** Lines without the begin tag are not marked. */
  lemma NoLinesBlock(c: Config, lines: seq<Text>)
    requires LineWise(c) && forall i :: 0 <= i < |lines| ==> !Contains(lines[i], c.marking.beginTag)
    ensures RunOutput(c, lines) == if c.mode == Extract then [] else Join(lines)
  {
    hide RunOutput, Play, Items, Contains, Join;
    OutputIsFold(c, lines);
    FoldSkips(c.marking, lines, [], false);
    assert lines + [] == lines;
    assert Items(Join(lines), false) + [] == Items(Join(lines), false);
    PlayItems(c, Join(lines), false);
  }
}

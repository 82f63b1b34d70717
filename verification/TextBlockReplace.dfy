/**
 Replace and Remove with distinct, excluded tags in tags-only mode, and when running them a second
 time changes nothing.
 */
module TextBlockReplace {
  import opened Bytes
  import opened Sequences
  import opened OptionType
  import opened TextBlockModel
  import opened TextBlockRun
  import opened TextBlockTape
  import opened TextBlockModes
  import opened TextBlockScan
  import opened TextBlockClosings

  /** Replace as a text function: keep the text up to the end of a begin tag, then write the insertion up to an end tag. */
  function Edit(b: Text, e: Text, ins: Text, text: Text, open: bool): Text
    requires b != []
    decreases |text|, open
  {
    if open then
      var at := Find(text, e);
      if at.None? then ins else ins + Edit(b, e, ins, text[at.value..], false)
    else
      var at := Find(text, b);
      if at.None? then text
      else text[..at.value + |b|] + Edit(b, e, ins, text[at.value + |b|..], true)
  }

  /** A configuration for which a run is an edit. */
  predicate Edits(c: Config) {
    && c.mode == Replace
    && TagsOnly(c.marking) && !c.marking.includeTags && !c.marking.EqualTags()
    && FitsLine(c.marking.beginTag) && FitsLine(c.marking.endTag)
    && NUL !in c.marking.beginTag + c.marking.endTag + c.insertion
  }

  function EditOf(c: Config, text: Text): Text
    requires Edits(c)
  {
    Edit(c.marking.beginTag, c.marking.endTag, c.insertion, text, false)
  }

  lemma PlayedCut(c: Config, text: Text, marker: Text, at: nat)
    requires Edits(c) && Sought(c.marking, marker) && at + |marker| <= |text|
    ensures var open := TagOpen(c.marking, marker);
            && Cut(c.marking, marker, at) == (if open then at else at + |marker|)
            && Play(c, CutTape(c.marking, text, marker, at)) == (if open then c.insertion else text[..at + |marker|])
  {
    var open, cut := TagOpen(c.marking, marker), Cut(c.marking, marker, at);
    var border := if open then Leave else Enter;
    assert Play(c, [border]) == ItemText(c, border);
    PlayItems(c, text[..cut], open);
    PlayConcat(c, Items(text[..cut], open), [border]);
  }

  lemma PlayedRest(c: Config, text: Text, open: bool)
    requires c.mode == Replace
    ensures Play(c, Items(text, open) + (if open then [Leave] else [])) == if open then c.insertion else text
  {
    PlayItems(c, text, open);
    PlayConcat(c, Items(text, open), if open then [Leave] else []);
    assert Play(c, [Leave]) == c.insertion;
  }

  lemma {:induction false} PlayedScanIsEdit(c: Config, text: Text, marker: Text)
    requires Edits(c) && Sought(c.marking, marker)
    ensures Play(c, ScanTape(c.marking, text, marker)) ==
            Edit(c.marking.beginTag, c.marking.endTag, c.insertion, text, TagOpen(c.marking, marker))
    decreases |text|, TagOpen(c.marking, marker)
  {
    hide Play, CutTape, Items, Find, FitsLine, Cut;
    var m, open, at := c.marking, TagOpen(c.marking, marker), Find(text, marker);
    if at.None? {
      PlayedRest(c, text, open);
    } else {
      var cut := Cut(m, marker, at.value);
      PlayedCut(c, text, marker, at.value);
      PlayedScanIsEdit(c, text[cut..], OtherTag(m, marker));
      PlayConcat(c, CutTape(m, text, marker, at.value), ScanTape(m, text[cut..], OtherTag(m, marker)));
    }
  }

  /** A run of Replace is an edit of the whole text, whatever its lines are. */
  lemma ReplaceIsEdit(c: Config, text: Text)
    requires Edits(c) && NUL !in text
    ensures RunOutput(c, Lines(text)) == EditOf(c, text)
  {
    RunOutputIsPlayed(c, Lines(text));
    RunIsScan(c.marking, text);
    PlayedScanIsEdit(c, text, c.marking.beginTag);
  }

  lemma {:induction false} EditHasNoNul(b: Text, e: Text, ins: Text, text: Text, open: bool)
    requires b != [] && NUL !in text && NUL !in ins
    ensures NUL !in Edit(b, e, ins, text, open)
    decreases |text|, open
  {
    hide Find;
    var at := Find(text, if open then e else b);
    if at.Some? {
      EditHasNoNul(b, e, ins, text[if open then at.value else at.value + |b|..], !open);
    }
  }

  // ---- Editing twice ----

  /** The end tag first occurs in insertion and end tag where the insertion ends. */
  predicate EndsCleanly(e: Text, ins: Text) {
    Find(ins + e, e) == Some(|ins|)
  }

  /** The begin tag does not occur in the end tag, except possibly at its very end. */
  predicate Apart(b: Text, e: Text)
    requires e != []
  {
    Find(e[..|e| - 1], b).None?
  }

  /** A text that begins with the end tag still does after an edit. */
  lemma EditKeepsEndTag(b: Text, e: Text, ins: Text, text: Text)
    requires b != [] && e != [] && Apart(b, e) && e <= text
    ensures e <= Edit(b, e, ins, text, false)
  {
    var at := Find(text, b);
    if at.Some? && at.value + |b| < |e| {
      assert text == e[..|e| - 1] + text[|e| - 1..];
      OccursInPrefix(e[..|e| - 1], text[|e| - 1..], b, at.value);
    }
  }

  lemma FindBehindInsertion(e: Text, ins: Text, text: Text)
    requires EndsCleanly(e, ins) && e <= text
    ensures Find(ins + text, e) == Some(|ins|)
  {
    FindInPrefix(ins + e, text[|e|..], e);
    assert ins + e + text[|e|..] == ins + text;
  }

  lemma NoEndTagInInsertion(e: Text, ins: Text)
    requires e != [] && EndsCleanly(e, ins)
    ensures Find(ins, e).None?
  {
    if Find(ins, e).Some? {
      FindInPrefix(ins, e, e);
    }
  }

  lemma {:induction false} EditTwice(b: Text, e: Text, ins: Text, text: Text)
    requires b != [] && e != [] && Apart(b, e) && EndsCleanly(e, ins)
    ensures var once := Edit(b, e, ins, text, false);
            Edit(b, e, ins, once, false) == once
    decreases |text|, 0
  {
    var at := Find(text, b);
    if at.Some? {
      var head, rest := text[..at.value + |b|], text[at.value + |b|..];
      var block := Edit(b, e, ins, rest, true);
      assert Find(head + block, b) == Some(at.value) by {
        FirstInHead(text, b);
        FindInPrefix(head, block, b);
      }
      assert (head + block)[..at.value + |b|] == head && (head + block)[at.value + |b|..] == block;
      assert Edit(b, e, ins, block, true) == block by {
        BlockTwice(b, e, ins, rest);
      }
    }
  }

  lemma FirstInHead(text: Text, b: Text)
    requires Find(text, b).Some?
    ensures var at := Find(text, b).value;
            Find(text[..at + |b|], b) == Some(at)
  {
    var at := Find(text, b).value;
    var head, rest := text[..at + |b|], text[at + |b|..];
    assert text == head + rest;
    OccursInPrefix(head, rest, b, at);
    var first := Find(head, b).value;
    OccursInPrefix(head, rest, b, first);
  }

  lemma {:induction false} BlockTwice(b: Text, e: Text, ins: Text, rest: Text)
    requires b != [] && e != [] && Apart(b, e) && EndsCleanly(e, ins)
    ensures var once := Edit(b, e, ins, rest, true);
            Edit(b, e, ins, once, true) == once
    decreases |rest|, 1
  {
    var at := Find(rest, e);
    if at.None? {
      NoEndTagInInsertion(e, ins);
    } else {
      var tail := rest[at.value..];
      var once := Edit(b, e, ins, tail, false);
      EditKeepsEndTag(b, e, ins, tail);
      FindBehindInsertion(e, ins, once);
      assert (ins + once)[|ins|..] == once;
      EditTwice(b, e, ins, tail);
    }
  }

  // ---- When exactly a second run changes nothing ----

  /** A second run over the output of the first changes nothing. */
  predicate TwiceIsOnce(c: Config, text: Text)
    requires c.marking.Normalised()
  {
    RunOutput(c, Lines(RunOutput(c, Lines(text)))) == RunOutput(c, Lines(text))
  }

  lemma TwiceIsEditTwice(c: Config, text: Text)
    requires Edits(c) && NUL !in text
    ensures TwiceIsOnce(c, text) <==> EditOf(c, EditOf(c, text)) == EditOf(c, text)
  {
    hide Edit, RunOutput, FitsLine;
    ReplaceIsEdit(c, text);
    EditHasNoNul(c.marking.beginTag, c.marking.endTag, c.insertion, text, false);
    ReplaceIsEdit(c, EditOf(c, text));
  }

  /**
   Replacing twice by the same text is replacing once, on every text: also where blocks are not
   terminated, share a line, or were spread over lines that the first run has joined.
   */
  lemma ReplaceTwiceIsOnce(c: Config, text: Text)
    requires Edits(c) && NUL !in text
    requires Apart(c.marking.beginTag, c.marking.endTag) && EndsCleanly(c.marking.endTag, c.insertion)
    ensures TwiceIsOnce(c, text)
  {
    TwiceIsEditTwice(c, text);
    EditTwice(c.marking.beginTag, c.marking.endTag, c.insertion, text);
  }

  lemma FindAtStart(tag: Text, rest: Text)
    ensures Find(tag + rest, tag) == Some(0)
  {
    assert (tag + rest)[0..|tag|] == tag;
    assert OccursAt(tag + rest, tag, 0);
  }

  /** A text that begins with the begin tag: the block begins right behind it. */
  lemma EditBehindBeginTag(b: Text, e: Text, ins: Text, rest: Text)
    requires b != []
    ensures Edit(b, e, ins, b + rest, false) == b + Edit(b, e, ins, rest, true)
  {
    hide Find;
    FindAtStart(b, rest);
    assert (b + rest)[..|b|] == b && (b + rest)[|b|..] == rest;
  }

  /** Begin tag, then end tag: the first run writes the insertion between them. */
  lemma EditEmptyBlock(b: Text, e: Text, ins: Text)
    requires b != [] && e != []
    ensures Edit(b, e, ins, b + e, false) == b + (ins + Edit(b, e, ins, e, false))
  {
    hide Find;
    EditBehindBeginTag(b, e, ins, e);
    FindAtStart(e, []);
    assert e + [] == e && e[0..] == e;
  }

  /** An insertion with which the end tag is found too early makes the text grow. */
  lemma GrowsIfNotClean(b: Text, e: Text, ins: Text)
    requires b != [] && e != [] && Find(e, b).None? && !EndsCleanly(e, ins)
    ensures var once := Edit(b, e, ins, b + e, false);
            |Edit(b, e, ins, once, false)| > |once|
  {
    EditEmptyBlock(b, e, ins);
    assert Edit(b, e, ins, e, false) == e;
    var inner := ins + e;
    var at := EarlyEndTag(e, ins);
    EditGrowsBehindEndTag(b, e, ins, inner[at..]);
    EditBehindBeginTag(b, e, ins, inner);
  }

  lemma EarlyEndTag(e: Text, ins: Text) returns (at: nat)
    requires !EndsCleanly(e, ins)
    ensures at < |ins| && Find(ins + e, e) == Some(at) && e <= (ins + e)[at..]
  {
    OccursInSuffix(ins, e, e, |ins|);
    assert OccursAt(e, e, 0);
    at := Find(ins + e, e).value;
    assert (ins + e)[at..][..|e|] == (ins + e)[at..at + |e|];
  }

  lemma EditGrowsBehindEndTag(b: Text, e: Text, ins: Text, tail: Text)
    requires b != [] && e != [] && Find(e, b).None? && e <= tail && |e| < |tail|
    ensures |Edit(b, e, ins, tail, false)| > |e|
  {
    var at := Find(tail, b);
    if at.Some? && at.value + |b| <= |e| {
      assert tail == e + tail[|e|..];
      OccursInPrefix(e, tail[|e|..], b, at.value);
    }
  }

  /** With a begin tag that does not occur in the end tag. */
  lemma IdempotentIfNotNested(c: Config)
    requires Edits(c) && Find(c.marking.endTag, c.marking.beginTag).None?
    ensures (forall text :: NUL !in text ==> TwiceIsOnce(c, text)) <==> EndsCleanly(c.marking.endTag, c.insertion)
  {
    var b, e, ins := c.marking.beginTag, c.marking.endTag, c.insertion;
    if EndsCleanly(e, ins) {
      assert Apart(b, e) by {
        assert e == e[..|e| - 1] + e[|e| - 1..];
        NotInPrefix(e[..|e| - 1], e[|e| - 1..], b);
      }
      forall text | NUL !in text
        ensures TwiceIsOnce(c, text)
      {
        ReplaceTwiceIsOnce(c, text);
      }
    } else {
      TwiceIsEditTwice(c, b + e);
      GrowsIfNotClean(b, e, ins);
    }
  }

  lemma NotInPrefix(a: Text, rest: Text, needle: Text)
    requires Find(a + rest, needle).None?
    ensures Find(a, needle).None?
  {
    if Find(a, needle).Some? {
      FindInPrefix(a, rest, needle);
    }
  }

  // ---- End tags that open the next block ----

  /** The part of an end tag that is kept in front of the next block, which the begin tag in it opens. */
  function Opener(b: Text, e: Text): (h: Text)
    requires b != [] && Find(e, b).Some?
    ensures h <= e && h != []
  {
    e[..Find(e, b).value + |b|]
  }

  /** Once a block is open, an edit writes nothing but insertions and openers. */
  lemma {:induction false} EditIsBlocks(b: Text, e: Text, ins: Text, text: Text)
    requires b != [] && Find(e, b).Some?
    ensures var h := Opener(b, e);
            Edit(b, e, ins, text, true) == ins + Blocks(h + ins, Closings(e, |h|, text))
    decreases |text|
  {
    hide Find, FindFrom, Edit;
    EditOpenBlock(b, e, ins, text);
    var h, at := Opener(b, e), Find(text, e);
    if at.None? {
      assert ins + Blocks(h + ins, 0) == ins;
    } else {
      var rest := text[at.value + |h|..];
      EditIsBlocks(b, e, ins, rest);
      var more := Blocks(h + ins, Closings(e, |h|, rest));
      assert ins + (h + (ins + more)) == ins + (h + ins + more);
    }
  }

  /** An open block, up to the one that its end tag opens. */
  lemma EditOpenBlock(b: Text, e: Text, ins: Text, text: Text)
    requires b != [] && Find(e, b).Some?
    ensures var h, at := Opener(b, e), Find(text, e);
            && (at.None? ==> Edit(b, e, ins, text, true) == ins)
            && (at.Some? ==>
                  && at.value + |h| <= |text|
                  && Edit(b, e, ins, text, true) == ins + (h + Edit(b, e, ins, text[at.value + |h|..], true)))
  {
    hide FindFrom;
    var h, at := Opener(b, e), Find(text, e);
    if at.Some? {
      var tail := text[at.value..];
      assert tail == e + tail[|e|..];
      FindInPrefix(e, tail[|e|..], b);
      assert tail[..|h|] == h && tail[|h|..] == text[at.value + |h|..];
    }
  }

  /** A second edit finds as many closings in the insertions and openers of the first as the first one found. */
  predicate SameClosings(b: Text, e: Text, ins: Text, n: nat)
    requires b != [] && Find(e, b).Some?
  {
    var h := Opener(b, e);
    Closings(e, |h|, ins + Blocks(h + ins, n)) == n
  }

  lemma BlockTwiceIff(b: Text, e: Text, ins: Text, text: Text)
    requires b != [] && Find(e, b).Some?
    ensures var once := Edit(b, e, ins, text, true);
            Edit(b, e, ins, once, true) == once <==> SameClosings(b, e, ins, Closings(e, |Opener(b, e)|, text))
  {
    hide Find, FindFrom, Edit, Closings, Opener;
    var h, once := Opener(b, e), Edit(b, e, ins, text, true);
    var m, n := Closings(e, |h|, text), Closings(e, |h|, once);
    EditIsBlocks(b, e, ins, text);
    EditIsBlocks(b, e, ins, once);
    if Edit(b, e, ins, once, true) == once {
      assert (ins + Blocks(h + ins, m))[|ins|..] == Blocks(h + ins, m);
      assert (ins + Blocks(h + ins, n))[|ins|..] == Blocks(h + ins, n);
      BlocksDiffer(h + ins, m, n);
    }
  }

  /** A second edit can only differ behind the first begin tag. */
  lemma EditTwiceBehindBeginTag(b: Text, e: Text, ins: Text, text: Text)
    requires b != []
    ensures var once, at := Edit(b, e, ins, text, false), Find(text, b);
            && (at.None? ==> Edit(b, e, ins, once, false) == once)
            && (at.Some? ==>
                  var block := Edit(b, e, ins, text[at.value + |b|..], true);
                  Edit(b, e, ins, once, false) == once <==> Edit(b, e, ins, block, true) == block)
  {
    hide FindFrom;
    var at := Find(text, b);
    if at.Some? {
      var head, block := text[..at.value + |b|], Edit(b, e, ins, text[at.value + |b|..], true);
      FirstInHead(text, b);
      FindInPrefix(head, block, b);
      assert (head + block)[..at.value + |b|] == head && (head + block)[at.value + |b|..] == block;
      var twice := Edit(b, e, ins, block, true);
      assert (head + twice)[|head|..] == twice;
    }
  }

  lemma IdempotentIfNested(c: Config)
    requires Edits(c) && Find(c.marking.endTag, c.marking.beginTag).Some?
    ensures (forall text :: NUL !in text ==> TwiceIsOnce(c, text)) <==>
            forall n: nat :: SameClosings(c.marking.beginTag, c.marking.endTag, c.insertion, n)
  {
    hide Find, FindFrom, Edit, Closings, Opener, SameClosings, TwiceIsOnce, FitsLine;
    var b, e, ins := c.marking.beginTag, c.marking.endTag, c.insertion;
    if forall n: nat :: SameClosings(b, e, ins, n) {
      forall text | NUL !in text
        ensures TwiceIsOnce(c, text)
      {
        TwiceIsEditTwice(c, text);
        EditTwiceBehindBeginTag(b, e, ins, text);
        var at := Find(text, b);
        if at.Some? {
          BlockTwiceIff(b, e, ins, text[at.value + |b|..]);
        }
      }
    }
    if forall text :: NUL !in text ==> TwiceIsOnce(c, text) {
      forall n: nat
        ensures SameClosings(b, e, ins, n)
      {
        var rest := TextWithClosings(e, |Opener(b, e)|, n);
        TwiceIsEditTwice(c, b + rest);
        FindAtStart(b, rest);
        assert (b + rest)[|b|..] == rest;
        EditTwiceBehindBeginTag(b, e, ins, b + rest);
        BlockTwiceIff(b, e, ins, rest);
      }
    }
  }

  /**
   What the two tags and the insertion must be like.  With a begin tag in the end tag, the check looks
   at no more copies of opener and insertion than the two have bytes.
   */
  predicate Settles(b: Text, e: Text, ins: Text)
    requires b != []
  {
    if Find(e, b).None? then EndsCleanly(e, ins)
    else forall n :: 0 <= n <= |Opener(b, e)| + |ins| ==> SameClosings(b, e, ins, n)
  }

  lemma FewClosingsDecide(b: Text, e: Text, ins: Text)
    requires b != [] && Find(e, b).Some? && Settles(b, e, ins)
    ensures forall n: nat :: SameClosings(b, e, ins, n)
  {
    hide Find, FindFrom, Closings, Opener;
    var h := Opener(b, e);
    assert (ins + (h + ins))[|h + ins|..] == ins;
    forall n | 0 <= n <= |h + ins|
      ensures Closings(e, |h|, ins + Blocks(h + ins, n)) == n
    {
      assert SameClosings(b, e, ins, n);
    }
    FewCopiesDecide(e, |h|, ins, h + ins);
  }

  /** For all tags and insertions: runs of Replace are idempotent on all texts if and only if tags and insertion settle. */
  lemma ReplaceIdempotentIff(c: Config)
    requires Edits(c)
    ensures (forall text :: NUL !in text ==> TwiceIsOnce(c, text)) <==>
            Settles(c.marking.beginTag, c.marking.endTag, c.insertion)
  {
    hide Find, FindFrom, SameClosings, TwiceIsOnce, FitsLine, EndsCleanly;
    var b, e, ins := c.marking.beginTag, c.marking.endTag, c.insertion;
    if Find(e, b).None? {
      IdempotentIfNotNested(c);
    } else {
      IdempotentIfNested(c);
      if Settles(b, e, ins) {
        FewClosingsDecide(b, e, ins);
      }
    }
  }

  /** A begin tag inside the end tag: the second run of Remove removes part of the first one's output. */
  lemma ShrinksIfNotApart(b: Text, e: Text)
    requires b != [] && e != [] && !Apart(b, e)
    ensures var once := Edit(b, e, [], b + e, false);
            |Edit(b, e, [], once, false)| < |once|
  {
    EditEmptyBlock(b, e, []);
    var kept := EndTagCutShort(b, e);
    assert [] + kept == kept;
    EditBehindBeginTag(b, e, [], kept);
    assert Find(kept, e).None?;
  }

  /** Without its block, such an end tag is cut behind the begin tag in it. */
  lemma EndTagCutShort(b: Text, e: Text) returns (kept: Text)
    requires b != [] && e != [] && !Apart(b, e)
    ensures 0 < |kept| < |e| && Edit(b, e, [], e, false) == kept
  {
    var init, last := e[..|e| - 1], e[|e| - 1..];
    assert e == init + last;
    FindInPrefix(init, last, b);
    var at := Find(init, b).value;
    kept := e[..at + |b|];
    assert |e[at + |b|..]| < |e|;
    assert Find(e[at + |b|..], e).None?;
    assert kept + [] == kept;
  }

  /** Runs of Remove are idempotent on all texts if and only if the tags are apart. */
  lemma RemoveIdempotentIff(c: Config)
    requires Edits(c) && c.insertion == []
    ensures (forall text :: NUL !in text ==> TwiceIsOnce(c.(mode := Remove), text)) <==>
            Apart(c.marking.beginTag, c.marking.endTag)
  {
    var b, e := c.marking.beginTag, c.marking.endTag;
    assert [] + e == e && OccursAt(e, e, 0);
    forall text | NUL !in text
      ensures TwiceIsOnce(c.(mode := Remove), text) <==> TwiceIsOnce(c, text)
    {
      RemoveTwice(c, text);
    }
    if Apart(b, e) {
      forall text | NUL !in text
        ensures TwiceIsOnce(c, text)
      {
        ReplaceTwiceIsOnce(c, text);
      }
    } else {
      TwiceIsEditTwice(c, b + e);
      ShrinksIfNotApart(b, e);
    }
  }

  lemma RemoveTwice(c: Config, text: Text)
    requires c.mode == Replace && c.insertion == [] && c.marking.Normalised()
    ensures TwiceIsOnce(c.(mode := Remove), text) <==> TwiceIsOnce(c, text)
  {
    hide RunOutput;
    assert c == c.(mode := Replace);
    ReplaceByNothingIsRemove(c, Lines(text));
    ReplaceByNothingIsRemove(c, Lines(RunOutput(c, Lines(text))));
  }

  lemma RemoveIsEdit(c: Config, text: Text)
    requires Edits(c) && c.insertion == [] && NUL !in text
    ensures RunOutput(c.(mode := Remove), Lines(text)) == EditOf(c, text)
  {
    hide RunOutput, Edit, FitsLine;
    ReplaceIsEdit(c, text);
    ReplaceByNothingIsRemove(c, Lines(text));
    assert c == c.(mode := Replace);
  }

  lemma RemoveOneByte(b: Text, e: Text, x: Byte, y: Byte)
    requires b == [x] && e == [x, y]
    ensures Edit(b, e, [], b + e, false) == b + b
    ensures Edit(b, e, [], b + b, false) == b
  {
    hide Find, Edit;
    EditEmptyBlock(b, e, []);
    EditBehindBeginTag(b, e, [], [y]);
    EditBehindBeginTag(b, e, [], b);
    assert e == b + [y];
    NoEndTag(b, e, [y]);
    NoEndTag(b, e, b);
    assert b + [] == b && [] + b == b;
  }

  lemma NoEndTag(b: Text, e: Text, text: Text)
    requires b != [] && |text| < |e|
    ensures Edit(b, e, [], text, true) == []
  {}

  lemma RemoveOptions(b: Text, e: Text, labels: LabelKind -> Text, lineNumber: nat -> Text) returns (c: Config)
    requires |b| == 1 && |e| == 2 && NUL !in b + e && NEWLINE !in b + e
    ensures Edits(c) && c.insertion == [] && c.marking.beginTag == b && c.marking.endTag == e
    ensures Normalise(Options(Remove, Some(b), Some(e), false, false, 0, 0, None, labels, lineNumber), None)
         == Success(c.(mode := Remove))
  {
    c := Config(Replace, Marking(b, e, false, false, 0, 0), [], labels, lineNumber);
  }

  /** Text-Block --remove --begin-tag=A --end-tag=AB turns AAB into AA, and AA into A. */
  lemma RemoveTwiceDiffers(labels: LabelKind -> Text, lineNumber: nat -> Text)
    ensures var options := Options(Remove, Some([65]), Some([65, 66]), false, false, 0, 0, None, labels, lineNumber);
            var normalised := Normalise(options, None);
            && normalised.Success?
            && RunOutput(normalised.value, Lines([65, 65, 66])) == [65, 65]
            && RunOutput(normalised.value, Lines([65, 65])) == [65]
  {
    hide Edits, Edit, Lines, RunOutput, Normalise;
    var b, e: Text := [65], [65, 66];
    var c := RemoveOptions(b, e, labels, lineNumber);
    RemoveOneByte(b, e, 65, 66);
    assert b + e == [65, 65, 66] && b + b == [65, 65];
    RemoveIsEdit(c, b + e);
    RemoveIsEdit(c, b + b);
  }

  // ---- Extract, then Replace, with two blocks ----

  /** With equal, included tags, every tag is a block of its own. */
  lemma TagsAreBlocks(m: Marking, tag: Text, rest: Text)
    requires TagsOnly(m) && m.beginTag == tag == m.endTag && m.includeTags
    ensures ScanTape(m, tag + rest, tag) == [Enter] + Items(tag, true) + [Leave] + ScanTape(m, rest, tag)
  {
    hide Find, ScanTape;
    FindAtStart(tag, rest);
    ScanFound(m, tag + rest, tag, 0);
    assert (tag + rest)[..0] == [] && (tag + rest)[0..|tag|] == tag && (tag + rest)[|tag|..] == rest;
    EmptyTapes();
    assert [] + [Enter] == [Enter];
  }

  lemma PlayedBlock(c: Config, tag: Text, rest: Tape)
    requires c.mode == Extract || c.mode == Replace
    ensures Play(c, [Enter] + Items(tag, true) + [Leave] + rest) ==
            (if c.mode == Extract then tag else c.insertion) + Play(c, rest)
  {
    hide Play, Items;
    PlayConcat(c, [Enter] + Items(tag, true) + [Leave], rest);
    PlayConcat(c, [Enter] + Items(tag, true), [Leave]);
    PlayConcat(c, [Enter], Items(tag, true));
    PlayItems(c, tag, true);
    PlayedBorders(c);
    assert [] + tag + [] == tag && [] + [] + c.insertion == c.insertion;
  }

  lemma PlayedBorders(c: Config)
    requires c.mode == Extract || c.mode == Replace
    ensures Play(c, [Enter]) == [] && Play(c, []) == []
    ensures Play(c, [Leave]) == if c.mode == Extract then [] else c.insertion
  {}

  lemma TwoBlocks(c: Config, tag: Text)
    requires TagsOnly(c.marking) && c.marking.beginTag == tag == c.marking.endTag && c.marking.includeTags
    requires FitsLine(tag) && NUL !in tag && (c.mode == Extract || c.mode == Replace)
    ensures RunOutput(c, Lines(tag + tag)) == if c.mode == Extract then tag + tag else c.insertion + c.insertion
  {
    hide Play, Items, ScanTape, RunOutput, RunTape, FitsLine;
    var m := c.marking;
    RunOutputIsPlayed(c, Lines(tag + tag));
    RunIsScan(m, tag + tag);
    TagsAreBlocks(m, tag, tag);
    TagsAreBlocks(m, tag, []);
    assert tag + [] == tag;
    NothingToScan(m, tag);
    PlayedBlock(c, tag, ScanTape(m, tag, tag));
    PlayedBlock(c, tag, []);
    PlayedBorders(c);
    assert [Enter] + Items(tag, true) + [Leave] + [] == [Enter] + Items(tag, true) + [Leave];
    assert (if c.mode == Extract then tag else c.insertion) + [] == if c.mode == Extract then tag else c.insertion;
  }

  lemma NothingToScan(m: Marking, tag: Text)
    requires TagsOnly(m) && m.beginTag == tag == m.endTag
    ensures ScanTape(m, [], tag) == []
  {
    EmptyTapes();
  }

  /** Two tags A, extracted and replaced by what was extracted, become four. */
  lemma ExtractThenReplaceDiffers(labels: LabelKind -> Text, lineNumber: nat -> Text)
    ensures var options := Options(Extract, Some([65]), Some([65]), true, false, 0, 0, Some([65, 65]), labels, lineNumber);
            var extract, replace := Normalise(options, None), Normalise(options.(mode := Replace), None);
            && extract.Success? && replace.Success?
            && RunOutput(extract.value, Lines([65, 65])) == [65, 65] == replace.value.insertion
            && RunOutput(replace.value, Lines([65, 65])) == [65, 65, 65, 65]
  {
    hide RunOutput, Lines;
    var tag: Text := [65];
    var c := Config(Extract, Marking(tag, tag, true, false, 0, 0), [65, 65], labels, lineNumber);
    assert tag + tag == [65, 65];
    TwoBlocks(c, tag);
    TwoBlocks(c.(mode := Replace), tag);
  }
}

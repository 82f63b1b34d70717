/**
 How often a run, or any part of one, writes the insert file and the block labels of Highlight.
 */
module TextBlockCounts {
  import opened Bytes
  import opened Sequences
  import opened TextBlockModel
  import opened TextBlockRun
  import opened TextBlockTape

  function Count(ps: seq<Piece>, p: Piece): nat {
    if ps == [] then 0 else (if ps[0] == p then 1 else 0) + Count(ps[1..], p)
  }

  lemma {:induction false} CountConcat(a: seq<Piece>, b: seq<Piece>, p: Piece)
    ensures Count(a + b, p) == Count(a, p) + Count(b, p)
  {
    if a == [] {
      assert a + b == b;
    } else {
      assert (a + b)[0] == a[0] && (a + b)[1..] == a[1..] + b;
      CountConcat(a[1..], b, p);
    }
  }

  function One(condition: bool): nat {
    if condition then 1 else 0
  }

  /** How often a single call writes the insert file or a block label. */
  lemma CallCounts(c: Config, call: Call)
    ensures Count(CallPieces(c, call), InsertCopy) ==
            One(if call.Unmarked? then call.begins && c.mode.InsertFront?
                else call.ends && (c.mode.InsertBack? || c.mode.Replace?))
    ensures Count(CallPieces(c, call), Label(BlockBegin)) == One(c.mode.Highlight? && call.Unmarked? && call.begins)
    ensures Count(CallPieces(c, call), Label(BlockEnd)) == One(c.mode.Highlight? && call.Marked? && call.ends)
  {
    var ps := CallPieces(c, call);
    assert |ps| <= 4;
    CountUpToFour(ps, InsertCopy);
    CountUpToFour(ps, Label(BlockBegin));
    CountUpToFour(ps, Label(BlockEnd));
  }

  lemma CountUpToFour(ps: seq<Piece>, p: Piece)
    requires |ps| <= 4
    ensures Count(ps, p) == One(|ps| > 0 && ps[0] == p) + One(|ps| > 1 && ps[1] == p)
                            + One(|ps| > 2 && ps[2] == p) + One(|ps| > 3 && ps[3] == p)
    decreases |ps|
  {
    if ps != [] {
      CountUpToFour(ps[1..], p);
    }
  }

  /**
   After any calls that respect the asserts: InsertFront has written the insert file once per action;
   InsertBack and Replace once per action whose block has ended; Highlight as many begin labels as
   actions and as many end labels as ended blocks.
   */
  lemma {:induction false} CopiesMatchActions(c: Config, block: bool, calls: seq<Call>)
    requires Legal(block, calls)
    ensures var ended := Actions(calls) + One(block) - One(EndState(block, calls));
            var ps := Pieces(c, calls);
            && Count(ps, InsertCopy) == (if c.mode.InsertFront? then Actions(calls)
                                         else if c.mode.InsertBack? || c.mode.Replace? then ended
                                         else 0)
            && Count(ps, Label(BlockBegin)) == (if c.mode.Highlight? then Actions(calls) else 0)
            && Count(ps, Label(BlockEnd)) == (if c.mode.Highlight? then ended else 0)
    decreases |calls|
  {
    if calls != [] {
      hide CallPieces, Count;
      var ps, rest := CallPieces(c, calls[0]), Pieces(c, calls[1..]);
      CallCounts(c, calls[0]);
      CopiesMatchActions(c, After(block, calls[0]), calls[1..]);
      CountConcat(ps, rest, InsertCopy);
      CountConcat(ps, rest, Label(BlockBegin));
      CountConcat(ps, rest, Label(BlockEnd));
    }
  }

  // ---- Highlight ----

  /**
   What Highlight writes: unmarked and marked texts, never empty, each in its own pair of labels, and
   a begin and an end label in turn where a block begins and ends.
   */
  predicate Coloured(open: bool, ps: seq<Piece>)
    decreases |ps|
  {
    if ps == [] then true
    else if ps[0] == Label(BlockBegin) then !open && Coloured(true, ps[1..])
    else if ps[0] == Label(BlockEnd) then open && Coloured(false, ps[1..])
    else
      && |ps| >= 3
      && ps[0] == Label(if open then Marked1 else Unmarked1)
      && ps[1].Source? && ps[1].text != []
      && ps[2] == Label(if open then Marked2 else Unmarked2)
      && Coloured(open, ps[3..])
  }

  lemma ColouredText(open: bool, text: Text, rest: seq<Piece>)
    requires text != [] && Coloured(open, rest)
    ensures Coloured(open, [Label(if open then Marked1 else Unmarked1), Source(text),
                            Label(if open then Marked2 else Unmarked2)] + rest)
  {
    var ps := [Label(if open then Marked1 else Unmarked1), Source(text), Label(if open then Marked2 else Unmarked2)] + rest;
    assert ps[3..] == rest;
  }

  lemma ColouredBorder(open: bool, rest: seq<Piece>)
    requires Coloured(!open, rest)
    ensures Coloured(open, [Label(if open then BlockEnd else BlockBegin)] + rest)
  {
    var ps := [Label(if open then BlockEnd else BlockBegin)] + rest;
    assert ps[1..] == rest;
  }

  lemma CallIsColoured(c: Config, block: bool, call: Call, rest: seq<Piece>)
    requires c.mode.Highlight? && block == call.Marked?
    requires Coloured(After(block, call), rest)
    ensures Coloured(block, CallPieces(c, call) + rest)
  {
    hide Coloured, CallPieces;
    HighlightPieces(c, call);
    var colours := [Label(if block then Marked1 else Unmarked1), Source(call.text),
                    Label(if block then Marked2 else Unmarked2)];
    var border := When(if block then call.ends else call.begins, [Label(if block then BlockEnd else BlockBegin)]);
    assert Coloured(block, border + rest) by {
      if border != [] {
        ColouredBorder(block, rest);
      } else {
        assert border + rest == rest;
      }
    }
    assert When(call.text != [], colours) + border + rest == When(call.text != [], colours) + (border + rest);
    if call.text != [] {
      ColouredText(block, call.text, border + rest);
    } else {
      assert [] + (border + rest) == border + rest;
    }
  }

  lemma {:induction false} CallsAreColoured(c: Config, block: bool, calls: seq<Call>)
    requires Legal(block, calls) && c.mode.Highlight?
    ensures Coloured(block, Pieces(c, calls))
    decreases |calls|
  {
    if calls != [] {
      hide CallPieces, Coloured;
      CallsAreColoured(c, After(block, calls[0]), calls[1..]);
      CallIsColoured(c, block, calls[0], Pieces(c, calls[1..]));
    } else {
      assert Coloured(block, []);
    }
  }

  /** The input text that pieces contain; labels and copies of the insert file are erased. */
  function Sources(ps: seq<Piece>): Text {
    if ps == [] then [] else (if ps[0].Source? then ps[0].text else []) + Sources(ps[1..])
  }

  lemma {:induction false} SourcesConcat(a: seq<Piece>, b: seq<Piece>)
    ensures Sources(a + b) == Sources(a) + Sources(b)
  {
    if a == [] {
      assert a + b == b;
    } else {
      assert (a + b)[0] == a[0] && (a + b)[1..] == a[1..] + b;
      SourcesConcat(a[1..], b);
    }
  }

  /** The modes that copy marked and unmarked text. */
  predicate CopiesAll(c: Config) {
    c.mode.Highlight? || c.mode.InsertFront? || c.mode.InsertBack?
  }

  lemma SourcesOne(p: Piece, condition: bool)
    ensures Sources(When(condition, [p])) == if condition && p.Source? then p.text else []
  {}

  lemma SourcesThree(l1: LabelKind, text: Text, l2: LabelKind)
    ensures Sources([Label(l1), Source(text), Label(l2)]) == text
  {
    assert [Label(l1), Source(text), Label(l2)] == When(true, [Label(l1)]) + When(true, [Source(text)]) + When(true, [Label(l2)]);
    SourcesConcat(When(true, [Label(l1)]) + When(true, [Source(text)]), When(true, [Label(l2)]));
    SourcesConcat(When(true, [Label(l1)]), When(true, [Source(text)]));
  }

  lemma SourcesOfHighlight(c: Config, call: Call)
    requires c.mode.Highlight?
    ensures Sources(CallPieces(c, call)) == call.text
  {
    hide Sources, CallPieces;
    var l1, l2 := if call.Marked? then Marked1 else Unmarked1, if call.Marked? then Marked2 else Unmarked2;
    var borders := if call.Marked? then call.ends else call.begins;
    var border := Label(if call.Marked? then BlockEnd else BlockBegin);
    var colours := When(call.text != [], [Label(l1), Source(call.text), Label(l2)]);
    HighlightPieces(c, call);
    SourcesConcat(colours, When(borders, [border]));
    SourcesThree(l1, call.text, l2);
    SourcesOne(border, borders);
    SourcesOne(border, false);
  }

  lemma SourcesOfInsert(c: Config, call: Call)
    requires c.mode.InsertFront? || c.mode.InsertBack?
    ensures Sources(CallPieces(c, call)) == call.text
  {
    hide Sources;
    var copies := if call.Marked? then call.ends && c.mode.InsertBack? else call.begins && c.mode.InsertFront?;
    assert CallPieces(c, call) == When(true, [Source(call.text)]) + When(copies, [InsertCopy]);
    SourcesConcat(When(true, [Source(call.text)]), When(copies, [InsertCopy]));
    SourcesOne(Source(call.text), true);
    SourcesOne(InsertCopy, copies);
  }

  lemma SourcesOfCall(c: Config, call: Call)
    requires CopiesAll(c)
    ensures Sources(CallPieces(c, call)) == call.text
  {
    hide Sources, CallPieces;
    if c.mode.Highlight? {
      SourcesOfHighlight(c, call);
    } else {
      SourcesOfInsert(c, call);
    }
  }

  lemma {:induction false} SourcesAreTexts(c: Config, calls: seq<Call>)
    requires CopiesAll(c)
    ensures Sources(Pieces(c, calls)) == Texts(calls)
  {
    if calls != [] {
      hide CallPieces, Sources;
      SourcesOfCall(c, calls[0]);
      SourcesConcat(CallPieces(c, calls[0]), Pieces(c, calls[1..]));
      SourcesAreTexts(c, calls[1..]);
    } else {
      assert Sources([]) == [];
    }
  }

  /** With their labels and insertions erased, these modes write the input, whatever the labels are. */
  lemma ErasedOutputIsInput(c: Config, lines: seq<Text>)
    requires c.marking.Normalised() && CopiesAll(c)
    ensures Sources(Pieces(c, Run(c.marking, lines))) == Join(lines)
  {
    SourcesAreTexts(c, Run(c.marking, lines));
    RunConservesText(c.marking, lines);
  }

  /** Over a whole run every block has ended, so copies of the insert file and both labels number the actions. */
  lemma RunCopiesMatchActions(c: Config, lines: seq<Text>)
    requires c.marking.Normalised()
    ensures var calls := Run(c.marking, lines);
            var ps := Pieces(c, calls);
            && (c.mode in {InsertFront, InsertBack, Replace} ==> Count(ps, InsertCopy) == Actions(calls))
            && (c.mode.Highlight? ==>
                  && Count(ps, Label(BlockBegin)) == Count(ps, Label(BlockEnd)) == Actions(calls)
                  && Coloured(false, ps))
  {
    hide Count, Coloured, Actions, Pieces, Run;
    RunIsLegal(c.marking, lines);
    CopiesMatchActions(c, false, Run(c.marking, lines));
    if c.mode.Highlight? {
      CallsAreColoured(c, false, Run(c.marking, lines));
    }
  }
}

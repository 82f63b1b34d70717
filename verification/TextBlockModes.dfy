/**
 What the modes make of a run.  A run's tape does not depend on the mode (only a `Marking` goes into
 it), so outputs of different modes for the same marking can be compared through it.
 */
module TextBlockModes {
  import opened Bytes
  import opened Sequences
  import opened TextBlockModel
  import opened TextBlockRun
  import opened TextBlockTape

  // ---- The modes as replacements of single tape items ----

  predicate KeepsOutside(mode: Mode) {
    !mode.Discard? && !mode.Extract?
  }

  predicate KeepsInside(mode: Mode) {
    mode.Extract? || mode.InsertFront? || mode.InsertBack? || mode.Highlight?
  }

  function ItemText(c: Config, item: Item): Text {
    match item
    case Enter => if c.mode.InsertFront? then c.insertion else if c.mode.Highlight? then c.labels(BlockBegin) else []
    case Leave =>
      if c.mode.InsertBack? || c.mode.Replace? then c.insertion else if c.mode.Highlight? then c.labels(BlockEnd) else []
    case Outside(b) => if KeepsOutside(c.mode) then [b] else []
    case Inside(b) => if KeepsInside(c.mode) then [b] else []
  }

  function Play(c: Config, tape: Tape): Text {
    if tape == [] then [] else ItemText(c, tape[0]) + Play(c, tape[1..])
  }

  lemma PlayFirst(c: Config, tape: Tape)
    requires tape != []
    ensures Play(c, tape) == ItemText(c, tape[0]) + Play(c, tape[1..])
  {}

  lemma {:induction false} PlayConcat(c: Config, a: Tape, b: Tape)
    ensures Play(c, a + b) == Play(c, a) + Play(c, b)
  {
    if a == [] {
      assert a + b == b;
    } else {
      assert (a + b)[0] == a[0] && (a + b)[1..] == a[1..] + b;
      PlayConcat(c, a[1..], b);
    }
  }

  lemma {:induction false} PlayItems(c: Config, text: Text, inside: bool)
    ensures Play(c, Items(text, inside)) ==
            if (if inside then KeepsInside(c.mode) else KeepsOutside(c.mode)) then text else []
  {
    if text != [] {
      hide Play;
      assert Items(text, inside)[1..] == Items(text[1..], inside);
      PlayFirst(c, Items(text, inside));
      PlayItems(c, text[1..], inside);
    }
  }

  /** Enumerate labels every call and Highlight colours every text, so they show how the input was cut. */
  predicate CutInvisible(c: Config) {
    && !c.mode.Enumerate?
    && (c.mode.Highlight? ==>
          && c.labels(Unmarked1) == [] && c.labels(Unmarked2) == []
          && c.labels(Marked1) == [] && c.labels(Marked2) == [])
  }

  lemma CallTapePlayed(c: Config, call: Call)
    ensures Play(c, CallTape(call)) ==
            (if (if call.Marked? then KeepsInside(c.mode) else KeepsOutside(c.mode)) then call.text else [])
            + (if call.Marked? && call.ends then ItemText(c, Leave)
               else if call.Unmarked? && call.begins then ItemText(c, Enter)
               else [])
  {
    var items := Items(call.text, call.Marked?);
    PlayItems(c, call.text, call.Marked?);
    PlayConcat(c, items, [Enter]);
    PlayConcat(c, items, [Leave]);
    PlayConcat(c, items, []);
    assert Play(c, [Enter]) == ItemText(c, Enter) && Play(c, [Leave]) == ItemText(c, Leave);
  }

  lemma WrittenWhen(c: Config, condition: bool, p: Piece)
    ensures Written(c, When(condition, [p])) == if condition then PieceText(c, p) else []
  {}

  /** What a call writes in the modes without labels. */
  lemma UnmarkedPlain(c: Config, call: Call)
    requires call.Unmarked? && !c.mode.Highlight? && !c.mode.Enumerate?
    ensures Written(c, CallPieces(c, call)) ==
            (if KeepsOutside(c.mode) then call.text else []) + (if call.begins then ItemText(c, Enter) else [])
  {
    hide Written;
    var kept, added := KeepsOutside(c.mode), call.begins && c.mode.InsertFront?;
    assert CallPieces(c, call) == When(kept, [Source(call.text)]) + When(added, [InsertCopy]);
    WrittenConcat(c, When(kept, [Source(call.text)]), When(added, [InsertCopy]));
    WrittenWhen(c, kept, Source(call.text));
    WrittenWhen(c, added, InsertCopy);
  }

  lemma MarkedPlain(c: Config, call: Call)
    requires call.Marked? && !c.mode.Highlight? && !c.mode.Enumerate?
    ensures Written(c, CallPieces(c, call)) ==
            (if KeepsInside(c.mode) then call.text else []) + (if call.ends then ItemText(c, Leave) else [])
  {
    hide Written;
    var kept, added := KeepsInside(c.mode), call.ends && (c.mode.InsertBack? || c.mode.Replace?);
    assert CallPieces(c, call) == When(kept, [Source(call.text)]) + When(added, [InsertCopy]);
    WrittenConcat(c, When(kept, [Source(call.text)]), When(added, [InsertCopy]));
    WrittenWhen(c, kept, Source(call.text));
    WrittenWhen(c, added, InsertCopy);
  }

  lemma ColoursAreEmpty(c: Config, l1: LabelKind, text: Text, l2: LabelKind)
    requires c.labels(l1) == [] == c.labels(l2)
    ensures Written(c, [Label(l1), Source(text), Label(l2)]) == text
  {
    var a, b, z := [Label(l1)], [Source(text)], [Label(l2)];
    assert [Label(l1), Source(text), Label(l2)] == a + (b + z);
    WrittenConcat(c, a, b + z);
    WrittenConcat(c, b, z);
    assert Written(c, a) == [] && Written(c, b) == text && Written(c, z) == [];
  }

  lemma LabelIsWritten(c: Config, kind: LabelKind)
    ensures Written(c, [Label(kind)]) == c.labels(kind) && Written(c, []) == []
  {}

  lemma HighlightPlain(c: Config, call: Call)
    requires CutInvisible(c) && c.mode.Highlight?
    ensures Written(c, CallPieces(c, call)) ==
            call.text + (if call.Marked? && call.ends then c.labels(BlockEnd)
                         else if call.Unmarked? && call.begins then c.labels(BlockBegin)
                         else [])
  {
    hide Written, PieceText, CallPieces;
    var l1, l2 := if call.Marked? then Marked1 else Unmarked1, if call.Marked? then Marked2 else Unmarked2;
    var border := if call.Marked? then BlockEnd else BlockBegin;
    var text := When(call.text != [], [Label(l1), Source(call.text), Label(l2)]);
    var last := When(if call.Marked? then call.ends else call.begins, [Label(border)]);
    HighlightPieces(c, call);
    WrittenConcat(c, text, last);
    ColoursAreEmpty(c, l1, call.text, l2);
    LabelIsWritten(c, border);
  }

  lemma CallIsPlayed(c: Config, call: Call)
    requires CutInvisible(c)
    ensures Written(c, CallPieces(c, call)) == Play(c, CallTape(call))
  {
    hide Play, Written, CallTape, CallPieces;
    CallTapePlayed(c, call);
    if c.mode.Highlight? {
      HighlightPlain(c, call);
    } else if call.Marked? {
      MarkedPlain(c, call);
    } else {
      UnmarkedPlain(c, call);
    }
  }

  lemma {:induction false} OutputIsPlayed(c: Config, calls: seq<Call>)
    requires CutInvisible(c)
    ensures Output(c, calls) == Play(c, TapeOf(calls))
  {
    if calls != [] {
      hide CallPieces, CallTape;
      CallIsPlayed(c, calls[0]);
      WrittenConcat(c, CallPieces(c, calls[0]), Pieces(c, calls[1..]));
      PlayConcat(c, CallTape(calls[0]), TapeOf(calls[1..]));
      OutputIsPlayed(c, calls[1..]);
    }
  }

  /** What a run writes is its tape, each item replaced by itself, by nothing, by the insertion or by a label. */
  lemma RunOutputIsPlayed(c: Config, lines: seq<Text>)
    requires c.marking.Normalised() && CutInvisible(c)
    ensures RunOutput(c, lines) == Play(c, RunTape(c.marking, lines))
  {
    OutputIsPlayed(c, Run(c.marking, lines));
  }

  // ---- Relations between the modes ----

  /** Which bytes of the input a tape marks. */
  function Mask(tape: Tape): seq<bool> {
    if tape == [] then []
    else (match tape[0]
          case Enter => []
          case Leave => []
          case Outside(_) => [false]
          case Inside(_) => [true])
         + Mask(tape[1..])
  }

  /** The bytes of `text` at the positions where the mask is `which`. */
  function Pick(text: Text, mask: seq<bool>, which: bool): Text
    requires |text| == |mask|
  {
    if text == [] then [] else (if mask[0] == which then [text[0]] else []) + Pick(text[1..], mask[1..], which)
  }

  lemma MaskFirst(tape: Tape)
    requires tape != []
    ensures var kept := tape[0].Outside? || tape[0].Inside?;
            && Erase(tape) == (if kept then [tape[0].b] else []) + Erase(tape[1..])
            && Mask(tape) == (if kept then [tape[0].Inside?] else []) + Mask(tape[1..])
  {}

  lemma PickFirst(b: Byte, marked: bool, text: Text, mask: seq<bool>, which: bool)
    requires |text| == |mask|
    ensures Pick([b] + text, [marked] + mask, which) == (if marked == which then [b] else []) + Pick(text, mask, which)
  {
    assert ([b] + text)[1..] == text && ([marked] + mask)[1..] == mask;
  }

  lemma {:induction false} PlaysPartition(x: Config, r: Config, tape: Tape)
    requires x.mode == Extract && r.mode == Remove
    ensures |Mask(tape)| == |Erase(tape)|
    ensures Play(x, tape) == Pick(Erase(tape), Mask(tape), true)
    ensures Play(r, tape) == Pick(Erase(tape), Mask(tape), false)
  {
    if tape != [] {
      hide Play, Pick, Erase, Mask;
      PlaysPartition(x, r, tape[1..]);
      PlayFirst(x, tape);
      PlayFirst(r, tape);
      MaskFirst(tape);
      var text, mask := Erase(tape[1..]), Mask(tape[1..]);
      if tape[0].Outside? || tape[0].Inside? {
        PickFirst(tape[0].b, tape[0].Inside?, text, mask, true);
        PickFirst(tape[0].b, tape[0].Inside?, text, mask, false);
      } else {
        assert [] + text == text && [] + mask == mask;
        assert [] + Play(x, tape[1..]) == Play(x, tape[1..]) && [] + Play(r, tape[1..]) == Play(r, tape[1..]);
      }
    }
  }

  /** Extract and Remove split the input: each byte goes, in order, to exactly one of the two outputs. */
  lemma ExtractRemovePartition(c: Config, lines: seq<Text>)
    requires c.marking.Normalised()
    ensures var mask := Mask(RunTape(c.marking, lines));
            && |mask| == |Join(lines)|
            && RunOutput(c.(mode := Extract), lines) == Pick(Join(lines), mask, true)
            && RunOutput(c.(mode := Remove), lines) == Pick(Join(lines), mask, false)
  {
    RunConservesText(c.marking, lines);
    RunOutputIsPlayed(c.(mode := Extract), lines);
    RunOutputIsPlayed(c.(mode := Remove), lines);
    PlaysPartition(c.(mode := Extract), c.(mode := Remove), RunTape(c.marking, lines));
  }

  /** A mode that keeps all bytes and inserts nothing at the block borders. */
  predicate AddsNothing(c: Config) {
    || (c.mode.InsertFront? && c.insertion == [])
    || (c.mode.InsertBack? && c.insertion == [])
    || (c.mode.Highlight? && forall k :: c.labels(k) == [])
  }

  lemma {:induction false} PlayAddingNothing(c: Config, tape: Tape)
    requires AddsNothing(c)
    ensures Play(c, tape) == Erase(tape)
  {
    if tape != [] {
      PlayAddingNothing(c, tape[1..]);
    }
  }

  /** InsertFront and InsertBack with an empty insert file and Highlight with empty labels copy the input. */
  lemma AddingNothingIsIdentity(c: Config, lines: seq<Text>)
    requires c.marking.Normalised() && AddsNothing(c)
    ensures RunOutput(c, lines) == Join(lines)
  {
    RunConservesText(c.marking, lines);
    RunOutputIsPlayed(c, lines);
    PlayAddingNothing(c, RunTape(c.marking, lines));
  }

  lemma {:induction false} PlaySame(a: Config, b: Config, tape: Tape)
    requires forall item :: ItemText(a, item) == ItemText(b, item)
    ensures Play(a, tape) == Play(b, tape)
  {
    if tape != [] {
      PlaySame(a, b, tape[1..]);
    }
  }

  /** Replacing by nothing is removing. */
  lemma ReplaceByNothingIsRemove(c: Config, lines: seq<Text>)
    requires c.marking.Normalised() && c.insertion == []
    ensures RunOutput(c.(mode := Replace), lines) == RunOutput(c.(mode := Remove), lines)
  {
    hide RunOutput, RunTape, Play;
    RunOutputIsPlayed(c.(mode := Replace), lines);
    RunOutputIsPlayed(c.(mode := Remove), lines);
    PlaySame(c.(mode := Replace), c.(mode := Remove), RunTape(c.marking, lines));
  }

  /** Cat, which never has tags, treats a line selection as Remove does. */
  lemma CatIsRemove(c: Config, lines: seq<Text>)
    requires c.marking.Normalised()
    ensures RunOutput(c.(mode := Cat), lines) == RunOutput(c.(mode := Remove), lines)
  {
    hide RunOutput, RunTape, Play;
    RunOutputIsPlayed(c.(mode := Cat), lines);
    RunOutputIsPlayed(c.(mode := Remove), lines);
    PlaySame(c.(mode := Cat), c.(mode := Remove), RunTape(c.marking, lines));
  }

  lemma {:induction false} PickAll(text: Text, mask: seq<bool>)
    requires |text| == |mask|
    ensures |Pick(text, mask, true)| + |Pick(text, mask, false)| == |text|
    ensures Pick(text, mask, true) == [] ==> Pick(text, mask, false) == text
  {
    if text != [] {
      hide Pick;
      PickAll(text[1..], mask[1..]);
      assert text == [text[0]] + text[1..] && mask == [mask[0]] + mask[1..];
      PickFirst(text[0], mask[0], text[1..], mask[1..], true);
      PickFirst(text[0], mask[0], text[1..], mask[1..], false);
    }
  }

  // ---- Extract, then Replace ----

  /** Lengths: Replace writes the unmarked bytes and one insertion per block. */
  lemma {:induction false} ReplaceLength(c: Config, block: bool, tape: Tape)
    requires c.mode == Replace && WellFormed(block, tape)
    ensures var blocks := Enters(tape) + (if block then 1 else 0);
            |Play(c, tape)| == |Play(c.(mode := Remove), tape)| + blocks * |c.insertion|
    ensures |Erase(tape)| == |Play(c.(mode := Remove), tape)| + |Play(c.(mode := Extract), tape)|
    decreases |tape|
  {
    if tape != [] {
      var tail := tape[1..];
      var inside := (block && !tape[0].Leave?) || tape[0].Enter?;
      ReplaceLength(c, inside, tail);
      hide Play, Erase;
      PlayFirst(c, tape);
      PlayFirst(c.(mode := Remove), tape);
      PlayFirst(c.(mode := Extract), tape);
      MaskFirst(tape);
      if tape[0].Leave? {
        assert (Enters(tail) + 1) * |c.insertion| == Enters(tail) * |c.insertion| + |c.insertion|;
      }
    }
  }

  lemma {:induction false} ReplaceNoBlock(c: Config, tape: Tape)
    requires c.mode == Replace && WellFormed(false, tape) && Enters(tape) == 0
    ensures Play(c, tape) == Erase(tape) && Play(c.(mode := Extract), tape) == []
    decreases |tape|
  {
    if tape != [] {
      ReplaceNoBlock(c, tape[1..]);
    }
  }

  /** Inside the last block: what is marked comes first, and Replace writes the insertion for it. */
  lemma {:induction false} ReplaceLastBlock(c: Config, tape: Tape) returns (behind: Text)
    requires c.mode == Replace && WellFormed(true, tape) && Enters(tape) == 0
    ensures Erase(tape) == Play(c.(mode := Extract), tape) + behind
    ensures Play(c, tape) == c.insertion + behind
    decreases |tape|
  {
    hide *;
    LastBlockStep(c, tape);
    var x, tail := c.(mode := Extract), tape[1..];
    if tape[0].Leave? {
      ReplaceNoBlock(c, tail);
      behind := Erase(tail);
      NothingBefore(behind);
      NothingBefore(c.insertion + behind);
    } else {
      behind := ReplaceLastBlock(c, tail);
      Associative([tape[0].b], Play(x, tail), behind);
      NothingBefore(c.insertion + behind);
    }
  }

  lemma NothingBefore(t: Text)
    ensures [] + t == t
  {}

  lemma Associative(a: Text, b: Text, c: Text)
    ensures a + (b + c) == (a + b) + c
  {}

  lemma LastBlockStep(c: Config, tape: Tape)
    requires c.mode == Replace && WellFormed(true, tape) && Enters(tape) == 0
    ensures tape != [] && (tape[0].Leave? || tape[0].Inside?) && WellFormed(!tape[0].Leave?, tape[1..]) && Enters(tape[1..]) == 0
    ensures var x, tail := c.(mode := Extract), tape[1..];
            var bytes := if tape[0].Leave? then [] else [tape[0].b];
            && Play(x, tape) == bytes + Play(x, tail) && Erase(tape) == bytes + Erase(tail)
            && Play(c, tape) == (if tape[0].Leave? then c.insertion else []) + Play(c, tail)
  {}

  lemma {:induction false} ReplaceOnlyBlock(c: Config, tape: Tape)
    requires c.mode == Replace && WellFormed(false, tape) && Enters(tape) <= 1
    requires c.insertion == Play(c.(mode := Extract), tape)
    ensures Play(c, tape) == Erase(tape)
    decreases |tape|
  {
    hide *;
    OnlyBlockStep(c, tape);
    if tape != [] {
      var x, tail := c.(mode := Extract), tape[1..];
      NothingBefore(Play(x, tail));
      if tape[0].Enter? {
        var behind := ReplaceLastBlock(c, tail);
        NothingBefore(Play(c, tail));
        NothingBefore(Erase(tail));
      } else {
        ReplaceOnlyBlock(c, tail);
      }
    }
  }

  lemma OnlyBlockStep(c: Config, tape: Tape)
    requires c.mode == Replace && WellFormed(false, tape) && Enters(tape) <= 1
    ensures tape == [] ==> Play(c, tape) == Erase(tape)
    ensures tape != [] ==>
              var x, tail, enters := c.(mode := Extract), tape[1..], tape[0].Enter?;
              && (enters || tape[0].Outside?) && WellFormed(enters, tail) && Enters(tail) <= (if enters then 0 else 1)
              && Play(x, tape) == [] + Play(x, tail)
              && Play(c, tape) == (if enters then [] else [tape[0].b]) + Play(c, tail)
              && Erase(tape) == (if enters then [] else [tape[0].b]) + Erase(tail)
  {}

  /**
   Replacing by what Extract wrote for the same input gives the input back if and only if there was
   at most one action, or nothing was extracted at all.
   */
  lemma ExtractThenReplace(c: Config, lines: seq<Text>)
    requires c.marking.Normalised() && c.mode == Replace
    requires c.insertion == RunOutput(c.(mode := Extract), lines)
    ensures RunOutput(c, lines) == Join(lines) <==>
            Actions(Run(c.marking, lines)) <= 1 || c.insertion == []
  {
    hide *;
    var tape := RunTape(c.marking, lines);
    RunTapeIsWellFormed(c.marking, lines);
    PlayableModes(c);
    RunOutputIsPlayed(c, lines);
    RunOutputIsPlayed(c.(mode := Extract), lines);
    ReplaceLength(c, false, tape);
    if Enters(tape) <= 1 {
      ReplaceOnlyBlock(c, tape);
    } else if c.insertion == [] {
      ReplaceNothing(c, lines);
    } else {
      MoreThanOne(Enters(tape), |c.insertion|);
    }
  }

  lemma PlayableModes(c: Config)
    requires c.mode == Replace
    ensures CutInvisible(c) && CutInvisible(c.(mode := Extract))
  {}

  lemma MoreThanOne(n: nat, k: nat)
    requires n >= 2 && k > 0
    ensures n * k > k
  {
    assert n * k == (n - 1) * k + k;
  }

  lemma ReplaceNothing(c: Config, lines: seq<Text>)
    requires c.marking.Normalised() && c.mode == Replace
    requires c.insertion == [] == RunOutput(c.(mode := Extract), lines)
    ensures RunOutput(c, lines) == Join(lines)
  {
    hide RunOutput, Pick, Mask, Join;
    assert c == c.(mode := Replace);
    ReplaceByNothingIsRemove(c, lines);
    ExtractRemovePartition(c, lines);
    PickAll(Join(lines), Mask(RunTape(c.marking, lines)));
  }
}

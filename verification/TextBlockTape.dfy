/**
 What a run means, independent of how the text was cut into calls: the input's bytes in order, each
 marked or not, with the block borders between them.
 */
module TextBlockTape {
  import opened Bytes
  import opened Sequences
  import opened TextBlockModel
  import opened TextBlockRun

  datatype Item = Enter | Leave | Outside(b: Byte) | Inside(b: Byte)

  type Tape = seq<Item>

  /** A text on the tape, inside or outside a block. */
  function Items(text: Text, inside: bool): (tape: Tape)
    ensures |tape| == |text|
  {
    seq(|text|, i requires 0 <= i < |text| => if inside then Inside(text[i]) else Outside(text[i]))
  }

  function CallTape(call: Call): Tape {
    match call
    case Unmarked(text, begins, _) => Items(text, false) + (if begins then [Enter] else [])
    case Marked(text, ends) => Items(text, true) + (if ends then [Leave] else [])
  }

  function TapeOf(calls: seq<Call>): Tape {
    if calls == [] then [] else CallTape(calls[0]) + TapeOf(calls[1..])
  }

  lemma {:induction false} TapeConcat(a: seq<Call>, b: seq<Call>)
    ensures TapeOf(a + b) == TapeOf(a) + TapeOf(b)
  {
    if a == [] {
      assert a + b == b;
    } else {
      assert (a + b)[0] == a[0] && (a + b)[1..] == a[1..] + b;
      TapeConcat(a[1..], b);
    }
  }

  lemma TapeOne(call: Call)
    ensures TapeOf([call]) == CallTape(call)
  {}

  lemma TapeTwo(call: Call, next: Call)
    ensures TapeOf([call, next]) == CallTape(call) + CallTape(next)
  {
    assert [call, next] == [call] + [next];
    TapeConcat([call], [next]);
  }

  lemma ItemsConcat(a: Text, b: Text, inside: bool)
    ensures Items(a + b, inside) == Items(a, inside) + Items(b, inside)
  {}

  // ---- Conservation ----

  /** The bytes on a tape. */
  function Erase(tape: Tape): Text {
    if tape == [] then []
    else (match tape[0]
          case Enter => []
          case Leave => []
          case Outside(b) => [b]
          case Inside(b) => [b])
         + Erase(tape[1..])
  }

  lemma {:induction false} EraseConcat(a: Tape, b: Tape)
    ensures Erase(a + b) == Erase(a) + Erase(b)
  {
    if a == [] {
      assert a + b == b;
    } else {
      assert (a + b)[0] == a[0] && (a + b)[1..] == a[1..] + b;
      EraseConcat(a[1..], b);
    }
  }

  lemma {:induction false} EraseItems(text: Text, inside: bool)
    ensures Erase(Items(text, inside)) == text
  {
    if text != [] {
      assert Items(text, inside)[1..] == Items(text[1..], inside);
      EraseItems(text[1..], inside);
    }
  }

  /** The texts passed to the two process functions, in order. */
  function Texts(calls: seq<Call>): Text {
    if calls == [] then [] else calls[0].text + Texts(calls[1..])
  }

  lemma {:induction false} TextsConcat(a: seq<Call>, b: seq<Call>)
    ensures Texts(a + b) == Texts(a) + Texts(b)
  {
    if a == [] {
      assert a + b == b;
    } else {
      assert (a + b)[0] == a[0] && (a + b)[1..] == a[1..] + b;
      TextsConcat(a[1..], b);
    }
  }

  lemma EraseCallTape(call: Call)
    ensures Erase(CallTape(call)) == call.text
  {
    var items := Items(call.text, call.Marked?);
    EraseItems(call.text, call.Marked?);
    EraseConcat(items, [Enter]);
    EraseConcat(items, [Leave]);
    EraseConcat(items, []);
    assert Erase([Enter]) == [] && Erase([Leave]) == [];
  }

  lemma {:induction false} EraseTape(calls: seq<Call>)
    ensures Erase(TapeOf(calls)) == Texts(calls)
  {
    if calls != [] {
      hide CallTape, Erase;
      EraseCallTape(calls[0]);
      EraseConcat(CallTape(calls[0]), TapeOf(calls[1..]));
      EraseTape(calls[1..]);
    } else {
      assert Erase([]) == [];
    }
  }

  lemma TextsUpToTwo(calls: seq<Call>)
    requires |calls| <= 2
    ensures Texts(calls) == if |calls| == 0 then [] else if |calls| == 1 then calls[0].text else calls[0].text + calls[1].text
  {
    if |calls| == 2 {
      assert calls == [calls[0]] + [calls[1]];
      TextsConcat([calls[0]], [calls[1]]);
      assert Texts([calls[0]]) == calls[0].text && Texts([calls[1]]) == calls[1].text;
    }
  }

  lemma TagFoundConserves(m: Marking, line: Text, lineNo: nat, p: nat, marker: Text, next: nat)
    requires p <= next && next + |marker| <= |line|
    ensures var s := TagFound(m, line, lineNo, p, marker, next);
            |s.calls| <= 2 && p <= s.pointer <= |line| && Texts(s.calls) == line[p..s.pointer]
  {
    hide Texts;
    var s := TagFound(m, line, lineNo, p, marker, next);
    TextsUpToTwo(s.calls);
    var past := next + |marker|;
    Slices(line, p, next, past);
  }

  lemma Slices(line: Text, p: nat, q: nat, r: nat)
    requires p <= q <= r <= |line|
    ensures line[p..q] + line[q..r] == line[p..r]
    ensures [] + line[p..q] == line[p..q] && [] + line[p..r] == line[p..r]
  {}

  lemma {:induction false} TagLoopConserves(m: Marking, line: Text, lineNo: nat, p: nat, marker: Text)
    requires m.Normalised() && m.Tagged() && Sought(m, marker) && p <= |line|
    ensures var s := TagLoop(m, line, lineNo, p, marker);
            p <= s.pointer && Texts(s.calls) == line[p..s.pointer]
    decreases |line| - p, Phase(m, marker)
  {
    hide TagLoop, TagFound, StrStr, Texts;
    TagLoopUnfold(m, line, lineNo, p, marker);
    var next := StrStr(line[p..], marker);
    if next.None? {
      TextsUpToTwo([]);
    } else {
      var s := TagFound(m, line, lineNo, p, marker, p + next.value);
      TagFoundConserves(m, line, lineNo, p, marker, p + next.value);
      if !m.fullTagLines {
        TagLoopConserves(m, line, lineNo, s.pointer, s.marker);
        var rest := TagLoop(m, line, lineNo, s.pointer, s.marker);
        TextsConcat(s.calls, rest.calls);
        assert line[p..s.pointer] + line[s.pointer..rest.pointer] == line[p..rest.pointer];
      }
    }
  }

  lemma TaggedLineConserves(m: Marking, line: Text, lineNo: nat, marker: Text)
    requires m.Normalised() && m.Tagged() && Sought(m, marker)
    ensures Texts(TaggedLine(m, line, lineNo, marker).calls) == line
  {
    hide TagLoop, StrStr, Texts;
    var s := TagLoop(m, line, lineNo, 0, marker);
    TagLoopConserves(m, line, lineNo, 0, marker);
    var rest := LineRest(m, line, lineNo, s.pointer, s.marker, StrStr(line, marker).Some?);
    TextsUpToTwo(rest);
    TextsConcat(s.calls, rest);
    assert line[0..s.pointer] + line[s.pointer..] == line;
  }

  lemma UntaggedLineConserves(m: Marking, line: Text, lineNo: nat)
    ensures Texts(UntaggedLine(m, line, lineNo)) == line
  {
    hide Texts;
    var a: seq<Call> := if lineNo == m.selectBegin then [Unmarked([], true, lineNo)] else [];
    var z: seq<Call> := if lineNo == m.selectEnd then [Marked([], true)] else [];
    TextsUpToTwo(a);
    TextsUpToTwo(z);
    TextsUpToTwo([Marked(line, false)]);
    TextsUpToTwo([Unmarked(line, false, lineNo)]);
    TextsConcat(a, [Marked(line, false)]);
    TextsConcat(a + [Marked(line, false)], z);
  }

  lemma {:induction false} RunLinesConserves(m: Marking, lines: seq<Text>, done: nat, marker: Text)
    requires m.Normalised() && Sought(m, marker)
    ensures Texts(RunLines(m, lines, done, marker).calls) == Join(lines)
    decreases |lines|
  {
    if lines != [] {
      hide TaggedLine, UntaggedLine;
      var s := LineStep(m, lines[0], done + 1, marker);
      if m.Tagged() {
        TaggedLineConserves(m, lines[0], done + 1, marker);
      } else {
        UntaggedLineConserves(m, lines[0], done + 1);
      }
      RunLinesConserves(m, lines[1..], done + 1, s.marker);
      TextsConcat(s.calls, RunLines(m, lines[1..], done + 1, s.marker).calls);
    }
  }

  /** Whatever is marked, the pieces of a run are the input, in order, nothing lost and nothing twice. */
  lemma RunConservesText(m: Marking, lines: seq<Text>)
    requires m.Normalised()
    ensures Texts(Run(m, lines)) == Join(lines)
    ensures Erase(TapeOf(Run(m, lines))) == Join(lines)
  {
    var calls := RunLines(m, lines, 0, m.beginTag).calls;
    RunLinesConserves(m, lines, 0, m.beginTag);
    TextsConcat(calls, Closing(EndState(false, calls)));
    TextsUpToTwo(Closing(EndState(false, calls)));
    EraseTape(Run(m, lines));
  }

  /** The tape of a run, the same for all modes. */
  function RunTape(m: Marking, lines: seq<Text>): Tape
    requires m.Normalised()
  {
    TapeOf(Run(m, lines))
  }

  /** The tape of the lines still to be read, with the block that is open at the end closed. */
  function TapeFrom(m: Marking, lines: seq<Text>, done: nat, marker: Text): Tape
    requires m.Normalised() && Sought(m, marker)
  {
    var s := RunLines(m, lines, done, marker);
    TapeOf(s.calls + Closing(TagOpen(m, s.marker)))
  }

  lemma TapeFromNothing(m: Marking, done: nat, marker: Text)
    requires m.Normalised() && Sought(m, marker)
    ensures TapeFrom(m, [], done, marker) == if TagOpen(m, marker) then [Leave] else []
  {
    assert RunLines(m, [], done, marker).calls + Closing(TagOpen(m, marker)) == Closing(TagOpen(m, marker));
    TapeOne(Marked([], true));
    EmptyTapes();
  }

  lemma TapeFromLine(m: Marking, lines: seq<Text>, done: nat, marker: Text)
    requires m.Normalised() && Sought(m, marker) && lines != []
    ensures var s := LineStep(m, lines[0], done + 1, marker);
            TapeFrom(m, lines, done, marker) == TapeOf(s.calls) + TapeFrom(m, lines[1..], done + 1, s.marker)
  {
    hide LineStep, TapeOf, TagOpen;
    var s := LineStep(m, lines[0], done + 1, marker);
    var more := RunLines(m, lines[1..], done + 1, s.marker);
    var closing := Closing(TagOpen(m, more.marker));
    TapeConcat(s.calls, more.calls + closing);
    assert s.calls + more.calls + closing == s.calls + (more.calls + closing);
  }

  // ---- Well-formed tapes ----

  function Enters(tape: Tape): nat {
    if tape == [] then 0 else (if tape[0].Enter? then 1 else 0) + Enters(tape[1..])
  }

  /** Blocks do not nest, items are inside exactly between Enter and Leave, and the tape ends outside. */
  predicate WellFormed(block: bool, tape: Tape)
    decreases |tape|
  {
    if tape == [] then !block
    else
      match tape[0]
      case Enter => !block && WellFormed(true, tape[1..])
      case Leave => block && WellFormed(false, tape[1..])
      case Outside(_) => !block && WellFormed(false, tape[1..])
      case Inside(_) => block && WellFormed(true, tape[1..])
  }

  lemma {:induction false} ItemsWellFormed(text: Text, block: bool, rest: Tape)
    ensures WellFormed(block, Items(text, block) + rest) == WellFormed(block, rest)
    ensures Enters(Items(text, block) + rest) == Enters(rest)
  {
    var tape := Items(text, block) + rest;
    if text == [] {
      assert tape == rest;
    } else {
      assert tape[1..] == Items(text[1..], block) + rest;
      ItemsWellFormed(text[1..], block, rest);
    }
  }

  /** The tape of calls that respect the asserts is well-formed and has one Enter per action. */
  lemma {:induction false} LegalTape(block: bool, calls: seq<Call>)
    requires Leads(block, calls, false)
    ensures WellFormed(block, TapeOf(calls)) && Enters(TapeOf(calls)) == Actions(calls)
    decreases |calls|
  {
    if calls != [] {
      hide CallTape, WellFormed, Enters;
      LegalTape(After(block, calls[0]), calls[1..]);
      CallTapeWellFormed(block, calls[0], TapeOf(calls[1..]));
    }
  }

  lemma CallTapeWellFormed(block: bool, call: Call, rest: Tape)
    requires block == call.Marked? && WellFormed(After(block, call), rest)
    ensures WellFormed(block, CallTape(call) + rest)
    ensures Enters(CallTape(call) + rest) == Enters(rest) + (if call.Unmarked? && call.begins then 1 else 0)
  {
    hide Items;
    var borders := if call.Marked? then call.ends else call.begins;
    var border: Tape := if borders then [if call.Marked? then Leave else Enter] else [];
    assert CallTape(call) == Items(call.text, block) + border;
    assert Items(call.text, block) + border + rest == Items(call.text, block) + (border + rest);
    ItemsWellFormed(call.text, block, border + rest);
    if borders {
      assert (border + rest)[0] == border[0] && (border + rest)[1..] == rest;
    } else {
      assert border + rest == rest;
    }
  }

  lemma RunTapeIsWellFormed(m: Marking, lines: seq<Text>)
    requires m.Normalised()
    ensures WellFormed(false, RunTape(m, lines))
    ensures Enters(RunTape(m, lines)) == Actions(Run(m, lines))
    ensures Erase(RunTape(m, lines)) == Join(lines)
  {
    RunIsLegal(m, lines);
    LegalTape(false, Run(m, lines));
    RunConservesText(m, lines);
  }

  lemma EmptyTapes()
    ensures TapeOf([]) == []
    ensures forall inside :: Items([], inside) == []
    ensures Join<Byte>([]) == []
  {}
}

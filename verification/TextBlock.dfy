/**
 Text-Block's main loop and the functions it calls, on the program's own variables.

 `calls` is a ghost record of the calls of processUnmarked and processMarked; their asserts are
 preconditions here, so a verified run is a run on which no assert fails.
 */
module TextBlock {
  import opened Bytes
  import opened TextBlockModel
  import opened TextBlockRun

  const COPY_BUFFER_SIZE := 65536

  /** Recording one call: what has to hold of the variables afterwards. */
  lemma Record(c: Config, calls: seq<Call>, call: Call, before: Text, after: Text)
    requires before == Output(c, calls)
    requires Legal(false, calls) && EndState(false, calls) == call.Marked?
    requires after == before + Written(c, CallPieces(c, call))
    ensures after == Output(c, calls + [call])
    ensures Legal(false, calls + [call])
    ensures EndState(false, calls + [call]) == After(call.Marked?, call)
    ensures Actions(calls + [call]) == Actions(calls) + (if call.Unmarked? && call.begins then 1 else 0)
  {
    LegalConcat(false, calls, [call]);
    LeadsOne(call);
    OutputConcat(c, calls, [call]);
    assert Pieces(c, [call]) == CallPieces(c, call);
  }

  class Editor {
    const c: Config
    const m: Marking := c.marking
    var inMarkedBlock: bool
    var actions: nat
    var lineNo: nat
    var markerTag: Text
    var pointer: nat
    var insertPosition: nat
    var out: Text
    ghost var calls: seq<Call>

    /** Holds whenever control is outside the copy loop. */
    ghost predicate Valid()
      reads this
    {
      && m.Normalised()
      && Sought(m, markerTag)
      && insertPosition == 0
      && Legal(false, calls)
      && inMarkedBlock == EndState(false, calls)
      && actions == Actions(calls)
      && out == Output(c, calls)
    }

    constructor (config: Config)
      requires config.marking.Normalised()
      ensures Valid() && c == config
      ensures calls == [] && lineNo == 0 && markerTag == config.marking.beginTag
    {
      c := config;
      inMarkedBlock, actions, lineNo := false, 0, 0;
      markerTag, pointer, insertPosition := config.marking.beginTag, 0, 0;
      out, calls := [], [];
    }

    /** Copies the insert file in chunks and rewinds it, so that the next copy is complete again. */
    method CopyInsertFileIntoOutputFile()
      requires insertPosition == 0
      modifies this`out, this`insertPosition
      ensures out == old(out) + c.insertion
      ensures insertPosition == 0
    {
      while insertPosition < |c.insertion|
        invariant insertPosition <= |c.insertion|
        invariant out == old(out) + c.insertion[..insertPosition]
      {
        var bytesRead := if |c.insertion| - insertPosition < COPY_BUFFER_SIZE
          then |c.insertion| - insertPosition else COPY_BUFFER_SIZE;
        out := out + c.insertion[insertPosition..insertPosition + bytesRead];
        insertPosition := insertPosition + bytesRead;
      }
      insertPosition := 0;
    }

    /** The output part of ProcessUnmarked. */
    method WriteUnmarked(text: Text, beginOfMarking: bool)
      requires insertPosition == 0
      modifies this`out, this`insertPosition
      ensures insertPosition == 0
      ensures out == old(out) + Written(c, CallPieces(c, Unmarked(text, beginOfMarking, lineNo)))
    {
      match c.mode {
        case Cat => out := out + text;
        case Remove => out := out + text;
        case Replace => out := out + text;
        case InsertFront =>
          out := out + text;
          if beginOfMarking {
            CopyInsertFileIntoOutputFile();
          }
        case InsertBack => out := out + text;
        case Enumerate =>
          out := out + c.labels(Enumerate1);
          out := out + c.lineNumber(lineNo);
          out := out + c.labels(Enumerate2);
          out := out + text;
        case Highlight =>
          if text != [] {
            out := out + c.labels(Unmarked1);
            out := out + text;
            out := out + c.labels(Unmarked2);
          }
          if beginOfMarking {
            out := out + c.labels(BlockBegin);
          }
        case Discard =>
        case Extract =>
      }
      WrittenInTurn(c, old(out), CallPieces(c, Unmarked(text, beginOfMarking, lineNo)));
    }

    /** Handles text outside a block, and begins one behind it if `beginOfMarking`. */
    method ProcessUnmarked(text: Text, beginOfMarking: bool)
      requires Valid()
      requires !inMarkedBlock
      modifies this`out, this`insertPosition, this`inMarkedBlock, this`actions, this`calls
      ensures Valid()
      ensures calls == old(calls) + [Unmarked(text, beginOfMarking, lineNo)]
      ensures inMarkedBlock == beginOfMarking
    {
      hide Output, Legal, EndState, Actions, Sought, CallPieces;
      WriteUnmarked(text, beginOfMarking);
      if beginOfMarking {
        inMarkedBlock := true;
        actions := actions + 1;
      }
      ghost var call := Unmarked(text, beginOfMarking, lineNo);
      Record(c, old(calls), call, old(out), out);
      calls := calls + [call];
    }

    /** The output part of ProcessMarked. */
    method WriteMarked(text: Text, endOfMarking: bool)
      requires insertPosition == 0
      modifies this`out, this`insertPosition
      ensures insertPosition == 0
      ensures out == old(out) + Written(c, CallPieces(c, Marked(text, endOfMarking)))
    {
      match c.mode {
        case Extract => out := out + text;
        case Replace =>
          if endOfMarking {
            CopyInsertFileIntoOutputFile();
          }
        case InsertFront => out := out + text;
        case InsertBack =>
          out := out + text;
          if endOfMarking {
            CopyInsertFileIntoOutputFile();
          }
        case Highlight =>
          if text != [] {
            out := out + c.labels(Marked1);
            out := out + text;
            out := out + c.labels(Marked2);
          }
          if endOfMarking {
            out := out + c.labels(BlockEnd);
          }
        case Cat =>
        case Discard =>
        case Enumerate =>
        case Remove =>
      }
      WrittenInTurn(c, old(out), CallPieces(c, Marked(text, endOfMarking)));
    }

    /** Handles text inside a block, and ends the block behind it if `endOfMarking`. */
    method ProcessMarked(text: Text, endOfMarking: bool)
      requires Valid()
      requires inMarkedBlock
      modifies this`out, this`insertPosition, this`inMarkedBlock, this`calls
      ensures Valid()
      ensures calls == old(calls) + [Marked(text, endOfMarking)]
      ensures inMarkedBlock == !endOfMarking
    {
      hide Output, Legal, EndState, Actions, Sought, CallPieces;
      WriteMarked(text, endOfMarking);
      if endOfMarking {
        inMarkedBlock := false;
      }
      ghost var call := Marked(text, endOfMarking);
      Record(c, old(calls), call, old(out), out);
      calls := calls + [call];
    }

    /** A tag was found at `next`; handles it and advances Pointer and MarkerTag. */
    method HandleTag(line: Text, next: nat)
      requires Valid() && m.Tagged()
      requires pointer <= next && next + |markerTag| <= |line|
      requires inMarkedBlock == TagOpen(m, markerTag)
      modifies this
      ensures Valid() && lineNo == old(lineNo)
      ensures var s := TagFound(m, line, lineNo, old(pointer), old(markerTag), next);
              calls == old(calls) + s.calls && pointer == s.pointer && markerTag == s.marker
      ensures inMarkedBlock == if m.fullTagLines then m.includeTags else TagOpen(m, markerTag)
    {
      hide Output, Legal, EndState, Actions;
      var next := next;
      if markerTag == m.beginTag {
        if m.fullTagLines {
          next := next + |markerTag|;
          if m.includeTags {
            ProcessUnmarked([], true);
            ProcessMarked(line[pointer..next], false);
          } else {
            ProcessUnmarked(line[pointer..next], false);
          }
        } else {
          if !m.includeTags {
            next := next + |markerTag|;
          }
          ProcessUnmarked(line[pointer..next], true);
          if m.beginTag == m.endTag {
            if m.includeTags {
              ProcessMarked(line[next..next + |markerTag|], true);
              next := next + |markerTag|;
            } else {
              ProcessMarked([], true);
            }
          }
        }
        markerTag := m.endTag;
      } else {
        if m.fullTagLines {
          next := next + |markerTag|;
          if m.includeTags {
            ProcessMarked(line[pointer..next], false);
          } else {
            ProcessMarked([], true);
            ProcessUnmarked(line[pointer..next], false);
          }
        } else {
          if m.includeTags {
            next := next + |markerTag|;
          }
          ProcessMarked(line[pointer..next], true);
        }
        markerTag := m.beginTag;
      }
      pointer := next;
    }

    /** Handles what is left of a line when no further tag is looked for. */
    method HandleLineRest(line: Text, foundMarker: bool)
      requires Valid() && m.Tagged() && pointer <= |line|
      requires inMarkedBlock == if m.fullTagLines && foundMarker then m.includeTags else TagOpen(m, markerTag)
      modifies this
      ensures Valid() && lineNo == old(lineNo) && markerTag == old(markerTag)
      ensures calls == old(calls) + LineRest(m, line, lineNo, old(pointer), markerTag, foundMarker)
      ensures inMarkedBlock == TagOpen(m, markerTag)
    {
      hide Output, Legal, EndState, Actions;
      if m.fullTagLines && foundMarker {
        if m.includeTags {
          ProcessMarked(line[pointer..], markerTag == m.beginTag);
        } else if m.beginTag != m.endTag {
          ProcessUnmarked(line[pointer..], markerTag == m.endTag);
        } else {
          ProcessUnmarked(line[pointer..], true);
          ProcessMarked([], true);
        }
      } else if markerTag == m.beginTag {
        ProcessUnmarked(line[pointer..], false);
      } else {
        ProcessMarked(line[pointer..], false);
      }
    }

    /** The loop over the tags of a line. */
    method HandleTags(line: Text) returns (foundMarker: bool)
      requires Valid() && m.Tagged()
      requires inMarkedBlock == TagOpen(m, markerTag)
      modifies this
      ensures Valid() && lineNo == old(lineNo)
      ensures var s := TagLoop(m, line, lineNo, 0, old(markerTag));
              calls == old(calls) + s.calls && pointer == s.pointer && markerTag == s.marker
      ensures pointer <= |line|
      ensures foundMarker == StrStr(line, old(markerTag)).Some?
      ensures inMarkedBlock == if m.fullTagLines && foundMarker then m.includeTags else TagOpen(m, markerTag)
    {
      hide TagLoop, TagFound, StrStr, Output, Legal, EndState, Actions;
      pointer, foundMarker := 0, false;
      ghost var whole := TagLoop(m, line, lineNo, 0, markerTag);
      assert line[0..] == line;
      while true
        invariant Valid() && lineNo == old(lineNo) && pointer <= |line|
        invariant inMarkedBlock == TagOpen(m, markerTag)
        invariant foundMarker ==> !m.fullTagLines && StrStr(line, old(markerTag)).Some?
        invariant !foundMarker ==> pointer == 0 && markerTag == old(markerTag) && calls == old(calls)
        invariant var rest := TagLoop(m, line, lineNo, pointer, markerTag);
                  && calls + rest.calls == old(calls) + whole.calls
                  && rest.pointer == whole.pointer && rest.marker == whole.marker
        decreases |line| - pointer, Phase(m, markerTag)
      {
        TagLoopUnfold(m, line, lineNo, pointer, markerTag);
        var next := StrStr(line[pointer..], markerTag);
        if next.None? {
          break;
        }
        foundMarker := true;
        HandleTag(line, pointer + next.value);
        if m.fullTagLines {
          // Only the first tag of a line counts.
          break;
        }
      }
    }

    /** Handles one line in which tags are sought. */
    method HandleTaggedLine(line: Text)
      requires Valid() && m.Tagged()
      requires inMarkedBlock == TagOpen(m, markerTag)
      modifies this
      ensures Valid() && lineNo == old(lineNo)
      ensures var s := TaggedLine(m, line, lineNo, old(markerTag));
              calls == old(calls) + s.calls && markerTag == s.marker
      ensures inMarkedBlock == TagOpen(m, markerTag)
    {
      hide TagLoop, StrStr, LineRest, Output, Legal, EndState, Actions;
      var foundMarker := HandleTags(line);
      HandleLineRest(line, foundMarker);
    }

    /** Handles a line when no tags are set: the line selection. */
    method HandleUntaggedLine(line: Text)
      requires Valid() && !m.Tagged() && lineNo > 0
      requires inMarkedBlock == BlockOpen(m, lineNo - 1, markerTag)
      modifies this
      ensures Valid() && lineNo == old(lineNo) && markerTag == old(markerTag)
      ensures calls == old(calls) + UntaggedLine(m, line, lineNo)
      ensures inMarkedBlock == BlockOpen(m, lineNo, markerTag)
    {
      hide Output, Legal, EndState, Actions;
      if m.selectBegin > 0 && lineNo >= m.selectBegin && (m.selectEnd == 0 || lineNo <= m.selectEnd) {
        if lineNo == m.selectBegin {
          ProcessUnmarked([], true);
        }
        ProcessMarked(line, false);
        if lineNo == m.selectEnd {
          ProcessMarked([], true);
        }
      } else {
        ProcessUnmarked(line, false);
      }
    }

    /** Handles one line. */
    method HandleLine(line: Text)
      requires Valid() && lineNo > 0
      requires inMarkedBlock == BlockOpen(m, lineNo - 1, markerTag)
      modifies this
      ensures Valid() && lineNo == old(lineNo)
      ensures var s := LineStep(m, line, lineNo, old(markerTag));
              calls == old(calls) + s.calls && markerTag == s.marker
      ensures inMarkedBlock == BlockOpen(m, lineNo, markerTag)
    {
      hide TaggedLine, UntaggedLine, Output, Legal, EndState, Actions;
      if markerTag != [] {
        HandleTaggedLine(line);
      } else {
        HandleUntaggedLine(line);
      }
    }

    /**
     The main loop.  Every call made, everything written and everything counted is determined by
     the configuration and the lines, as `Run` says.
     */
    method ProcessFile(lines: seq<Text>)
      requires Valid() && calls == [] && lineNo == 0 && markerTag == m.beginTag
      modifies this
      ensures Valid() && !inMarkedBlock
      ensures calls == Run(m, lines)
      ensures out == RunOutput(c, lines)
      ensures actions == Actions(Run(m, lines))
      ensures lineNo == |lines|
    {
      hide LineStep, Output, Legal, Actions;
      while lineNo < |lines|
        invariant Valid() && lineNo <= |lines|
        invariant inMarkedBlock == BlockOpen(m, lineNo, markerTag)
        invariant var s := RunLines(m, lines[..lineNo], 0, m.beginTag);
                  calls == s.calls && markerTag == s.marker
      {
        ghost var read := lines[..lineNo];
        var line := lines[lineNo];
        RunLinesSnoc(m, read, line, 0, m.beginTag);
        assert read + [line] == lines[..lineNo + 1];
        lineNo := lineNo + 1;
        HandleLine(line);
      }
      assert lines[..lineNo] == lines;
      if inMarkedBlock {
        ProcessMarked([], true);
      }
    }
  }
}

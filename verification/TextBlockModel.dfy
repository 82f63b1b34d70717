/**
 Text-Block's options, the calls its main loop makes, and what each call writes in each mode.

 The main loop hands every piece of the input to `processUnmarked` or `processMarked`.  A `Call`
 records one such call; which calls are made for which lines is the business of module
 `TextBlockRun`.  A null tag is the empty text: the option handling turns an empty tag into a null
 pointer, so no other empty tag exists.  It also makes equal tags the same pointer, so comparing
 the texts of two tags is comparing the pointers.
 */
module TextBlockModel {
  import opened Bytes
  import opened OptionType

  datatype Mode =
    | Cat | Discard | Enumerate | Highlight | Extract
    | InsertFront | InsertBack | Replace | Remove

  datatype LabelKind =
    | BlockBegin | BlockEnd
    | Unmarked1 | Unmarked2 | Marked1 | Marked2
    | Enumerate1 | Enumerate2

  /** Which parts of the input are marked. */
  datatype Marking = Marking(
    beginTag: Text,
    endTag: Text,
    includeTags: bool,
    fullTagLines: bool,
    selectBegin: int,
    selectEnd: int)
  {
    /** What option handling guarantees about the tags. */
    predicate Normalised() {
      beginTag == [] <==> endTag == []
    }

    predicate Tagged() {
      beginTag != []
    }

    predicate EqualTags() {
      beginTag == endTag
    }
  }

  /** Where things are marked, and what is done with the marked blocks. */
  datatype Config = Config(
    mode: Mode,
    marking: Marking,
    insertion: Text,
    labels: LabelKind -> Text,
    lineNumber: nat -> Text)

  // ---- Option handling ----

  datatype Options = Options(
    mode: Mode,
    beginTag: Option<Text>,
    endTag: Option<Text>,
    includeTags: bool,
    fullTagLines: bool,
    selectBegin: int,
    selectEnd: int,
    insertion: Option<Text>,
    labels: LabelKind -> Text,
    lineNumber: nat -> Text)

  datatype OptionError = SelectWithTags | NegativeSelectOnStdin | NoInsertFile

  datatype Result<+T> = Success(value: T) | Failure(error: OptionError)

  function TagText(tag: Option<Text>): Text {
    match tag case None => [] case Some(t) => t
  }

  predicate HonoursTags(mode: Mode) {
    !mode.Cat? && !mode.Discard? && !mode.Enumerate?
  }

  predicate NeedsInsertFile(mode: Mode) {
    mode.InsertFront? || mode.InsertBack? || mode.Replace?
  }

  /** A bound of the line selection; negative ones count from the end of the file. */
  function SelectBound(bound: int, totalLines: nat): int {
    if bound < 0 then totalLines + bound + 1 else bound
  }

  /** Checks and normalises the options; `totalLines` is the line count of an input file, or None for stdin. */
  function Normalise(o: Options, totalLines: Option<nat>): (r: Result<Config>)
    ensures r.Success? ==> r.value.marking.Normalised()
    ensures r.Success? && r.value.marking.Tagged() ==>
              HonoursTags(o.mode) && r.value.marking.selectBegin == 0 == r.value.marking.selectEnd
    ensures r.Success? && totalLines.None? ==>
              0 <= r.value.marking.selectBegin && 0 <= r.value.marking.selectEnd
  {
    var begin := TagText(o.beginTag);
    var end := if begin == [] || TagText(o.endTag) == [] then begin else TagText(o.endTag);
    if begin != [] && (o.selectBegin != 0 || o.selectEnd != 0) then Failure(SelectWithTags)
    else if totalLines.None? && (o.selectBegin < 0 || o.selectEnd < 0) then Failure(NegativeSelectOnStdin)
    else if o.insertion.None? && NeedsInsertFile(o.mode) then Failure(NoInsertFile)
    else
      var lines := if totalLines.Some? then totalLines.value else 0;
      var marking := Marking(
        if HonoursTags(o.mode) then begin else [], if HonoursTags(o.mode) then end else [],
        o.includeTags, o.fullTagLines,
        SelectBound(o.selectBegin, lines), SelectBound(o.selectEnd, lines));
      Success(Config(o.mode, marking, TagText(o.insertion), o.labels, o.lineNumber))
  }

  // ---- Calls ----

  datatype Call =
    | Unmarked(text: Text, begins: bool, lineNo: nat)
    | Marked(text: Text, ends: bool)

  /** InMarkedBlock after a call. */
  function After(block: bool, call: Call): bool {
    match call
    case Unmarked(_, begins, _) => block || begins
    case Marked(_, ends) => block && !ends
  }

  function EndState(block: bool, calls: seq<Call>): bool
    decreases |calls|
  {
    if calls == [] then block else EndState(After(block, calls[0]), calls[1..])
  }

  /** The two asserts hold at every call. */
  predicate Legal(block: bool, calls: seq<Call>)
    decreases |calls|
  {
    calls != [] ==>
      && block == calls[0].Marked?
      && Legal(After(block, calls[0]), calls[1..])
  }

  /** The number of actions counted. */
  function Actions(calls: seq<Call>): nat {
    if calls == [] then 0 else
      (if calls[0].Unmarked? && calls[0].begins then 1 else 0) + Actions(calls[1..])
  }

  lemma {:induction false} LegalConcat(block: bool, a: seq<Call>, b: seq<Call>)
    ensures EndState(block, a + b) == EndState(EndState(block, a), b)
    ensures Legal(block, a + b) <==> Legal(block, a) && Legal(EndState(block, a), b)
    ensures Actions(a + b) == Actions(a) + Actions(b)
    decreases |a|
  {
    if a == [] {
      assert a + b == b;
    } else {
      assert (a + b)[0] == a[0] && (a + b)[1..] == a[1..] + b;
      LegalConcat(After(block, a[0]), a[1..], b);
    }
  }

  /** The calls respect the asserts and take InMarkedBlock from `from` to `to`. */
  predicate Leads(from: bool, calls: seq<Call>, to: bool) {
    Legal(from, calls) && EndState(from, calls) == to
  }

  lemma LeadsNone(block: bool)
    ensures Leads(block, [], block)
  {}

  lemma LeadsOne(call: Call)
    ensures Leads(call.Marked?, [call], After(call.Marked?, call))
  {}

  lemma LeadsBoth(from: bool, a: seq<Call>, via: bool, b: seq<Call>, to: bool)
    requires Leads(from, a, via) && Leads(via, b, to)
    ensures Leads(from, a + b, to)
  {
    LegalConcat(from, a, b);
  }

  lemma LeadsTwo(call: Call, next: Call)
    requires After(call.Marked?, call) == next.Marked?
    ensures Leads(call.Marked?, [call, next], After(next.Marked?, next))
  {
    assert [call, next] == [call] + [next];
    LeadsBoth(call.Marked?, [call], next.Marked?, [next], After(next.Marked?, next));
  }

  // ---- Output ----

  /** One thing written to the output file. */
  datatype Piece =
    | Source(text: Text)
    | InsertCopy
    | Label(kind: LabelKind)
    | Number(lineNo: nat)

  function PieceText(c: Config, p: Piece): Text {
    match p
    case Source(text) => text
    case InsertCopy => c.insertion
    case Label(kind) => c.labels(kind)
    case Number(n) => c.lineNumber(n)
  }

  function Written(c: Config, ps: seq<Piece>): Text {
    if ps == [] then [] else PieceText(c, ps[0]) + Written(c, ps[1..])
  }

  /** `ps` if the condition holds, otherwise nothing. */
  function When(condition: bool, ps: seq<Piece>): seq<Piece> {
    if condition then ps else []
  }

  function CallPieces(c: Config, call: Call): seq<Piece> {
    match call
    case Unmarked(text, begins, lineNo) => (
      match c.mode
      case Cat => [Source(text)]
      case Remove => [Source(text)]
      case Replace => [Source(text)]
      case InsertFront => [Source(text)] + When(begins, [InsertCopy])
      case InsertBack => [Source(text)]
      case Enumerate => [Label(Enumerate1), Number(lineNo), Label(Enumerate2), Source(text)]
      case Highlight =>
        When(text != [], [Label(Unmarked1), Source(text), Label(Unmarked2)])
        + When(begins, [Label(BlockBegin)])
      case Discard => []
      case Extract => []
    )
    case Marked(text, ends) => (
      match c.mode
      case Extract => [Source(text)]
      case Replace => When(ends, [InsertCopy])
      case InsertFront => [Source(text)]
      case InsertBack => [Source(text)] + When(ends, [InsertCopy])
      case Highlight =>
        When(text != [], [Label(Marked1), Source(text), Label(Marked2)])
        + When(ends, [Label(BlockEnd)])
      case Cat => []
      case Discard => []
      case Enumerate => []
      case Remove => []
    )
  }

  /** Highlight writes the text in the labels of its side, and behind it the label of a border. */
  lemma HighlightPieces(c: Config, call: Call)
    requires c.mode.Highlight?
    ensures CallPieces(c, call) ==
            When(call.text != [], [Label(if call.Marked? then Marked1 else Unmarked1), Source(call.text),
                                   Label(if call.Marked? then Marked2 else Unmarked2)])
            + When(if call.Marked? then call.ends else call.begins, [Label(if call.Marked? then BlockEnd else BlockBegin)])
  {}

  function Pieces(c: Config, calls: seq<Call>): seq<Piece> {
    if calls == [] then [] else CallPieces(c, calls[0]) + Pieces(c, calls[1..])
  }

  lemma {:induction false} WrittenConcat(c: Config, a: seq<Piece>, b: seq<Piece>)
    ensures Written(c, a + b) == Written(c, a) + Written(c, b)
  {
    if a == [] {
      assert a + b == b;
    } else {
      assert (a + b)[0] == a[0] && (a + b)[1..] == a[1..] + b;
      WrittenConcat(c, a[1..], b);
    }
  }

  lemma {:induction false} PiecesConcat(c: Config, a: seq<Call>, b: seq<Call>)
    ensures Pieces(c, a + b) == Pieces(c, a) + Pieces(c, b)
  {
    if a == [] {
      assert a + b == b;
    } else {
      assert (a + b)[0] == a[0] && (a + b)[1..] == a[1..] + b;
      PiecesConcat(c, a[1..], b);
    }
  }

  /** Writing up to four pieces one after the other. */
  lemma WrittenInTurn(c: Config, before: Text, ps: seq<Piece>)
    requires |ps| <= 4
    ensures before + Written(c, ps) ==
            before + (if |ps| > 0 then PieceText(c, ps[0]) else [])
                   + (if |ps| > 1 then PieceText(c, ps[1]) else [])
                   + (if |ps| > 2 then PieceText(c, ps[2]) else [])
                   + (if |ps| > 3 then PieceText(c, ps[3]) else [])
    decreases |ps|
  {
    if ps != [] {
      WrittenInTurn(c, before + PieceText(c, ps[0]), ps[1..]);
      assert before + Written(c, ps) == before + PieceText(c, ps[0]) + Written(c, ps[1..]);
    }
  }

  /** The text a list of calls writes. */
  function Output(c: Config, calls: seq<Call>): Text {
    Written(c, Pieces(c, calls))
  }

  lemma OutputConcat(c: Config, a: seq<Call>, b: seq<Call>)
    ensures Output(c, a + b) == Output(c, a) + Output(c, b)
  {
    PiecesConcat(c, a, b);
    WrittenConcat(c, Pieces(c, a), Pieces(c, b));
  }
}

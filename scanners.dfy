/**
  The parser's state machine as functions on a snapshot of its fields: one
  step function per sub-scanner of `StatefulParser.cpp`, the dispatcher that
  drives them over a chunk, and the invariant every successful step keeps.
  The `StatefulParser` class is proved to compute exactly these functions.
 */
module Scanners {
  import opened Bytes
  import opened MultipartTypes
  import opened PartName
  import opened HeaderWindow

  datatype State = Boundary | AfterBoundary | Headers | Data | Done

  /** The fields of the parser that survive between calls. */
  datatype Cursor = Cursor(
    state: State,
    boundaryCharIndex: nat,    // delimiter bytes matched so far; in AfterBoundary, 1 once the first byte was seen
    readingBody: bool,         // a delimiter mismatch means body bytes, not an error
    checkForBoundary: bool,    // false: the data scanner skips the first CR it finds
    finishingBoundary: bool,   // the byte after the delimiter was '-'
    window: seq<byte>,         // the last four header bytes, oldest first
    headersBuffer: seq<byte>,  // header bytes of the current part not yet parsed
    partIndex: nat,            // header sections delivered so far
    partName: seq<byte>)

  /** What one scanner call reports: bytes consumed, or the error it throws. */
  datatype Verdict = Consumed(n: nat) | Failed(error: ParseError)

  /** The fields after a call, the callbacks it made, and its verdict. */
  datatype Step = Step(next: Cursor, emitted: seq<Event>, verdict: Verdict)

  /** The fields of a freshly constructed parser. */
  function Initial(): Cursor
  {
    Cursor(Boundary, 0, false, true, false, ZEROS, [], 0, [])
  }

  /** The delimiter expected next: without the leading line break before the first part. */
  function Sample(cfg: Config, partIndex: nat): seq<byte>
  {
    if partIndex == 0 then cfg.firstBoundarySample else cfg.nextBoundarySample
  }

  /** The header bytes of the current section never hold a terminator, and the window is their last four. */
  predicate HeaderWindowOk(w: seq<byte>, buffer: seq<byte>)
  {
    w == LastFour(ZEROS + buffer) &&
    forall j :: 0 <= j <= |ZEROS + buffer| ==> !TerminatorEndsAt(ZEROS + buffer, j)
  }

  /** What holds of the fields between any two successful scanner calls. */
  predicate Inv(cfg: Config, c: Cursor)
  {
    ValidConfig(cfg) && |c.window| == 4 &&
    (c.state != Headers ==> c.headersBuffer == []) &&
    match c.state
    case Boundary =>
      c.boundaryCharIndex < |Sample(cfg, c.partIndex)| && (c.readingBody <==> c.partIndex > 0) && !c.finishingBoundary
    case AfterBoundary =>
      c.boundaryCharIndex <= 1 && !c.readingBody && (c.finishingBoundary ==> c.boundaryCharIndex == 1)
    case Headers =>
      c.boundaryCharIndex == 0 && !c.readingBody && !c.finishingBoundary && HeaderWindowOk(c.window, c.headersBuffer)
    case Data =>
      c.boundaryCharIndex == 0 && c.partIndex > 0 && !c.finishingBoundary
    case Done =>
      c.boundaryCharIndex == 0 && !c.readingBody && c.finishingBoundary
  }

  /** The first byte after a delimiter arrived at the end of the previous chunk. */
  predicate SplitAfterBoundary(c: Cursor)
  {
    c.state == AfterBoundary && c.boundaryCharIndex == 1
  }

  /** Decreases on every step that consumes nothing. */
  function Rank(c: Cursor): nat
  {
    if c.state == Data && c.checkForBoundary then 2
    else if c.state == Boundary then 1
    else 0
  }

  // ---------------------------------------------------------------- boundary

  /** `parseNext_Boundary`: match the next bytes of the expected delimiter. */
  function BoundaryStep(cfg: Config, c: Cursor, data: seq<byte>): (r: Step)
    requires Inv(cfg, c) && c.state == Boundary && |data| > 0
  {
    var sample := Sample(cfg, c.partIndex);
    var checkSize := if |sample| - c.boundaryCharIndex > |data| then |data| else |sample| - c.boundaryCharIndex;
    if data[..checkSize] == sample[c.boundaryCharIndex..c.boundaryCharIndex + checkSize] then
      var matched := c.boundaryCharIndex + checkSize;
      if matched == |sample| then
        Step(c.(state := AfterBoundary, boundaryCharIndex := 0, readingBody := false), [], Consumed(checkSize))
      else
        Step(c.(boundaryCharIndex := matched), [], Consumed(checkSize))
    else if c.readingBody then
      var flushed := if c.boundaryCharIndex > 0 then [PartData(sample[..c.boundaryCharIndex])] else [];
      Step(c.(state := Data, boundaryCharIndex := 0, checkForBoundary := false), flushed, Consumed(0))
    else
      Step(c, [], Failed(UnexpectedBoundaryByte))
  }

  /** The boundary scanner keeps the invariant, and a call that consumes nothing moves on to body bytes. */
  lemma BoundaryStepOk(cfg: Config, c: Cursor, data: seq<byte>)
    requires Inv(cfg, c) && c.state == Boundary && |data| > 0
    ensures var r := BoundaryStep(cfg, c, data);
            (r.verdict.Consumed? ==> Inv(cfg, r.next) && r.verdict.n <= |data|) &&
            (r.verdict == Consumed(0) ==> Rank(r.next) < Rank(c)) &&
            !SplitAfterBoundary(r.next)
  {
  }

  // ---------------------------------------------------------- after boundary

  /** `parseNext_AfterBoundary`: tell `--` (end of the body) from CR LF (another part). */
  function AfterBoundaryStep(cfg: Config, c: Cursor, data: seq<byte>): (r: Step)
    requires Inv(cfg, c) && c.state == AfterBoundary && |data| > 0
  {
    if c.boundaryCharIndex == 0 && data[0] != DASH && data[0] != CR then
      Step(c, [], Failed(InvalidCharAfterBoundary))
    else
      var c1 := if c.boundaryCharIndex == 0 && data[0] == DASH then c.(finishingBoundary := true) else c;
      if |data| > 1 || c.boundaryCharIndex == 1 then
        var second := data[1 - c.boundaryCharIndex];
        if c1.finishingBoundary && second == DASH then
          Step(c1.(state := Done, boundaryCharIndex := 0), [], Consumed(2))
        else if !c1.finishingBoundary && second == LF then
          Step(c1.(state := Headers, boundaryCharIndex := 0, window := ZEROS), [], Consumed(2))
        else
          Step(c1, [], Failed(InvalidTrailingChar))
      else
        Step(c1.(boundaryCharIndex := 1), [], Consumed(1))
  }

  /**
    The after-boundary scanner keeps the invariant and consumes one or two
    bytes; it reports more bytes than it was given only when the first of
    the two arrived in the previous chunk.
   */
  lemma AfterBoundaryStepOk(cfg: Config, c: Cursor, data: seq<byte>)
    requires Inv(cfg, c) && c.state == AfterBoundary && |data| > 0
    ensures var r := AfterBoundaryStep(cfg, c, data);
            r.verdict.Consumed? ==>
              Inv(cfg, r.next) && 1 <= r.verdict.n <= 2 && r.emitted == [] &&
              (r.verdict.n > |data| ==> SplitAfterBoundary(c) && |data| == 1) &&
              (SplitAfterBoundary(r.next) ==> r.verdict.n == |data| == 1)
  {
    if !(c.boundaryCharIndex == 0 && data[0] != DASH && data[0] != CR) && (|data| > 1 || c.boundaryCharIndex == 1) {
      HeaderWindowStart();
    }
  }

  /** A new header section starts with an empty buffer and a zero accumulator. */
  lemma HeaderWindowStart()
    ensures HeaderWindowOk(ZEROS, [])
  {
    assert ZEROS + [] == ZEROS;
    assert !TerminatorEndsAt(ZEROS, 4) by {
      assert ZEROS[0..4][0] != TERMINATOR[0];
    }
  }

  // ----------------------------------------------------------------- headers

  /** The header block handed to the header-line parser, once this chunk completes the section. */
  function HeaderBlock(c: Cursor, data: seq<byte>): (r: Option<seq<byte>>)
    requires |c.window| == 4
  {
    match FirstTerminator(c.window, data, 0)
    case None => None
    case Some(i) => Some(c.headersBuffer + data[..i])
  }

  /** `parseNext_Headers`: buffer header bytes until CR LF CR LF, then deliver the part's headers. */
  function HeadersStep(cfg: Config, c: Cursor, data: seq<byte>): (r: Step)
    requires Inv(cfg, c) && c.state == Headers
  {
    match FirstTerminator(c.window, data, 0)
    case None => HeadersBuffered(cfg, c, data)
    case Some(i) => HeadersDelivered(cfg, c, data[..i], i + 1)
  }

  /** A chunk that does not complete the header section is buffered whole. */
  function HeadersBuffered(cfg: Config, c: Cursor, data: seq<byte>): (r: Step)
    requires Inv(cfg, c) && c.state == Headers && FirstTerminator(c.window, data, 0).None?
  {
    Step(c.(window := LastFour(c.window + data), headersBuffer := c.headersBuffer + data), [], Consumed(|data|))
  }

  /**
    The header section ends after `tail`, the bytes of this chunk before its
    final LF, and the chunk's first `n` bytes are consumed: parse the section
    and deliver the part's name.
   */
  function HeadersDelivered(cfg: Config, c: Cursor, tail: seq<byte>, n: nat): (r: Step)
    requires Inv(cfg, c) && c.state == Headers
  {
    var c1 := c.(window := TERMINATOR, headersBuffer := [], partIndex := c.partIndex + 1);
    var named := PartNameOf(cfg.parseHeaders(c.headersBuffer + tail), cfg.parseEnclosed);
    if named.Err? then Step(c1, [], Failed(named.error))
    else Step(c1.(state := Data, checkForBoundary := true, partName := named.value), [PartHeaders(named.value)], Consumed(n))
  }

  /** The headers scanner keeps the invariant and consumes at least one byte of a non-empty chunk. */
  lemma HeadersStepOk(cfg: Config, c: Cursor, data: seq<byte>)
    requires Inv(cfg, c) && c.state == Headers
    ensures var r := HeadersStep(cfg, c, data);
            (r.verdict.Consumed? ==> Inv(cfg, r.next) && (1 <= r.verdict.n <= |data| || (data == [] && r.verdict.n == 0))) &&
            r.next.state != AfterBoundary
  {
    if FirstTerminator(c.window, data, 0).None? {
      HeadersBufferedOk(c, data);
    }
  }

  /** Buffering a chunk without a terminator keeps the window and the no-terminator fact. */
  lemma HeadersBufferedOk(c: Cursor, data: seq<byte>)
    requires |c.window| == 4 && HeaderWindowOk(c.window, c.headersBuffer)
    requires FirstTerminator(c.window, data, 0).None?
    ensures HeaderWindowOk(LastFour(c.window + data), c.headersBuffer + data)
  {
    HistoryExtends(c.headersBuffer, c.window, data);
  }

  // -------------------------------------------------------------------- data

  /** The CR the data scanner stops at: the first one, or the second one when the check flag is off. */
  function StopCR(data: seq<byte>, checkForBoundary: bool): (r: Option<nat>)
    ensures r.Some? ==> r.value < |data| && data[r.value] == CR
    ensures checkForBoundary ==> r == IndexOf(data, 0, CR)
  {
    var first := IndexOf(data, 0, CR);
    if first.Some? && !checkForBoundary then IndexOf(data, first.value + 1, CR) else first
  }

  /** `parseNext_Data`: pass body bytes up to the next CR that may start a delimiter. */
  function DataStep(cfg: Config, c: Cursor, data: seq<byte>): (r: Step)
    requires Inv(cfg, c) && c.state == Data
  {
    match StopCR(data, c.checkForBoundary)
    case Some(p) =>
      Step(c.(checkForBoundary := true, state := Boundary, readingBody := true),
           if p > 0 then [PartData(data[..p])] else [], Consumed(p))
    case None =>
      Step(c.(checkForBoundary := true), [PartData(data)], Consumed(|data|))
  }

  /** The data scanner keeps the invariant, and a call that consumes nothing is followed by a boundary check. */
  lemma DataStepOk(cfg: Config, c: Cursor, data: seq<byte>)
    requires Inv(cfg, c) && c.state == Data
    ensures var r := DataStep(cfg, c, data);
            r.verdict.Consumed? && Inv(cfg, r.next) && r.verdict.n <= |data| &&
            (r.verdict.n == 0 && |data| > 0 ==> Rank(r.next) < Rank(c)) &&
            r.next.state != AfterBoundary
  {
  }

  // -------------------------------------------------------------- dispatcher

  /** The scanner for the current state, run on the unconsumed rest of a chunk. */
  function Scan(cfg: Config, c: Cursor, data: seq<byte>): Step
    requires Inv(cfg, c) && c.state != Done && |data| > 0
  {
    match c.state
    case Boundary => BoundaryStep(cfg, c, data)
    case AfterBoundary => AfterBoundaryStep(cfg, c, data)
    case Headers => HeadersStep(cfg, c, data)
    case Data => DataStep(cfg, c, data)
  }

  /**
    Every scanner call that succeeds keeps the invariant; one that consumes
    nothing lowers the rank; and only the after-boundary quirk reports more
    bytes than it was given.
   */
  lemma ScanOk(cfg: Config, c: Cursor, data: seq<byte>)
    requires Inv(cfg, c) && c.state != Done && |data| > 0
    ensures var r := Scan(cfg, c, data);
            (r.verdict.Consumed? ==> Inv(cfg, r.next)) &&
            (r.verdict == Consumed(0) ==> Rank(r.next) < Rank(c)) &&
            (r.verdict.Consumed? ==>
               r.verdict.n <= |data| || (SplitAfterBoundary(c) && |data| == 1 && r.verdict.n == 2)) &&
            (r.verdict.Consumed? && SplitAfterBoundary(r.next) ==> r.verdict.n == |data|)
  {
    match c.state
    case Boundary => BoundaryStepOk(cfg, c, data);
    case AfterBoundary => AfterBoundaryStepOk(cfg, c, data);
    case Headers => HeadersStepOk(cfg, c, data);
    case Data => DataStepOk(cfg, c, data);
  }

  /**
    `parseNext` from position `pos` on: run scanners on `data[pos..]` until
    the chunk is used up, the body is done, or a scanner throws. The verdict
    is the final position, which the after-boundary quirk can push one past
    the end of the chunk.
   */
  function Dispatch(cfg: Config, c: Cursor, data: seq<byte>, pos: nat): Step
    requires Inv(cfg, c) && pos <= |data| + 1
    decreases |data| - pos, Rank(c), 1
  {
    if pos >= |data| || c.state == Done then Step(c, [], Consumed(pos))
    else DispatchScan(cfg, c, data, pos)
  }

  /** One scanner call on the rest of the chunk, then the dispatcher again unless it failed. */
  function DispatchScan(cfg: Config, c: Cursor, data: seq<byte>, pos: nat): Step
    requires Inv(cfg, c) && pos < |data| && c.state != Done
    decreases |data| - pos, Rank(c), 0
  {
    var s := Scan(cfg, c, data[pos..]);
    ScanOk(cfg, c, data[pos..]);
    match s.verdict
    case Failed(_) => s
    case Consumed(n) =>
      var rest := Dispatch(cfg, s.next, data, pos + n);
      Step(rest.next, s.emitted + rest.emitted, rest.verdict)
  }

  /** A step's callbacks, preceded by the ones already made. */
  function Prepend(earlier: seq<Event>, s: Step): Step
  {
    Step(s.next, earlier + s.emitted, s.verdict)
  }

  /**
    Callbacks made in three stretches, grouped either way. Kept as a lemma so
    that the proof of `parseNext`'s loop takes this one step without
    searching for it among everything else it knows.
   */
  lemma ConcatAssoc(a: seq<Event>, b: seq<Event>, c: seq<Event>)
    ensures a + (b + c) == (a + b) + c
  {
  }

  lemma PrependTwice(a: seq<Event>, b: seq<Event>, s: Step)
    ensures Prepend(a, Prepend(b, s)) == Prepend(a + b, s)
  {
    assert a + (b + s.emitted) == (a + b) + s.emitted;
  }

  /**
    The run of the dispatcher from `pos` on, as `parseNext`'s loop sees it at
    the top of each turn. It is `Dispatch` under a second name that is not
    recursive: facts stated through it do not depend on how far the verifier
    unfolds `Dispatch`, which keeps the proofs about the loop small.
   */
  function Resume(cfg: Config, c: Cursor, data: seq<byte>, pos: nat): Step
    requires Inv(cfg, c) && pos <= |data| + 1
  {
    Dispatch(cfg, c, data, pos)
  }

  /** The dispatcher stops once the chunk is used up or the body is done. */
  lemma DispatchStops(cfg: Config, c: Cursor, data: seq<byte>, pos: nat)
    requires Inv(cfg, c) && pos <= |data| + 1 && (pos >= |data| || c.state == Done)
    ensures Resume(cfg, c, data, pos) == Step(c, [], Consumed(pos))
  {
  }

  /**
    One round of the dispatcher: the scanner for the current state runs on
    the rest of the chunk, and unless it fails, the dispatcher goes on from
    where it stopped with its callbacks in front.
   */
  lemma DispatchOnce(cfg: Config, c: Cursor, data: seq<byte>, pos: nat) returns (s: Step)
    requires Inv(cfg, c) && pos < |data| && c.state != Done
    ensures s == Scan(cfg, c, data[pos..])
    ensures s.verdict.Failed? ==> Resume(cfg, c, data, pos) == s
    ensures s.verdict.Consumed? ==>
              Inv(cfg, s.next) && pos + s.verdict.n <= |data| + 1 &&
              Resume(cfg, c, data, pos) == Prepend(s.emitted, Resume(cfg, s.next, data, pos + s.verdict.n))
    ensures s.verdict == Consumed(0) ==> Rank(s.next) < Rank(c)
    ensures s.verdict.Consumed? ==>
              pos + s.verdict.n <= |data| || (SplitAfterBoundary(c) && pos + 1 == |data| && s.verdict.n == 2)
    ensures s.verdict.Consumed? && SplitAfterBoundary(s.next) ==> pos + s.verdict.n == |data|
  {
    s := Scan(cfg, c, data[pos..]);
    ScanOk(cfg, c, data[pos..]);
    assert Dispatch(cfg, c, data, pos) == DispatchScan(cfg, c, data, pos);
  }

  /** `parseNext` on a whole chunk. */
  function ParseNext(cfg: Config, c: Cursor, data: seq<byte>): Step
    requires Inv(cfg, c)
  {
    Dispatch(cfg, c, data, 0)
  }
}

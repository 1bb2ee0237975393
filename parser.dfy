/**
  `StatefulParser` as an object: the fields the C++ class keeps between
  calls, and its scanner methods, each proved to leave the fields, the
  recorded callbacks and its return value exactly as the step function of
  the same name in `Scanners` says. The two callbacks are appended to
  `events` instead of being logged.
 */
module Parser {
  import opened Bytes
  import opened MultipartTypes
  import opened PartName
  import opened HeaderWindow
  import opened Scanners

  /**
    The loop of `parseNext_Headers`: shift header bytes into the accumulator
    until it equals CR LF CR LF. Returns the accumulator and the index of the
    byte that completed the terminator, if any.
   */
  method ShiftHeaderBytes(acc0: bv32, data: seq<byte>) returns (acc: bv32, end: Option<nat>)
    ensures end == FirstTerminator(Unpack(acc0), data, 0)
    ensures end.None? ==> Unpack(acc) == LastFour(Unpack(acc0) + data)
    ensures end.Some? ==> Unpack(acc) == TERMINATOR
  {
    ghost var w := Unpack(acc0);
    acc := acc0;
    var i := 0;
    while i < |data|
      invariant 0 <= i <= |data|
      invariant Unpack(acc) == LastFour(w + data[..i])
      invariant FirstTerminator(w, data, i) == FirstTerminator(w, data, 0)
    {
      AccumulatorTracksScan(acc, w, data, i);
      acc := ShiftAcc(acc, data[i]);
      if acc == HEADERS_SECTION_END {
        return acc, Some(i);
      }
      i := i + 1;
    }
    assert data[..i] == data;
    return acc, None;
  }

  class StatefulParser {
    const firstBoundarySample: seq<byte>
    const nextBoundarySample: seq<byte>
    const parseHeaders: HeaderParser
    const parseEnclosed: EnclosedParser

    var state: State
    var currBoundaryCharIndex: nat
    var readingBody: bool
    var checkForBoundary: bool
    var finishingBoundary: bool
    var headerSectionEndAccumulator: bv32
    var headersBuffer: seq<byte>
    var currPartIndex: nat
    var currPartName: seq<byte>

    /** The callbacks made so far, in order. */
    var events: seq<Event>

    function Cfg(): Config
    {
      Config(firstBoundarySample, nextBoundarySample, parseHeaders, parseEnclosed)
    }

    /** The fields as a value; the window is the accumulator's four bytes. */
    function Snapshot(): Cursor
      reads this
    {
      Cursor(state, currBoundaryCharIndex, readingBody, checkForBoundary, finishingBoundary,
             Unpack(headerSectionEndAccumulator), headersBuffer, currPartIndex, currPartName)
    }

    ghost predicate Valid()
      reads this
    {
      Inv(Cfg(), Snapshot())
    }

    constructor (firstSample: seq<byte>, nextSample: seq<byte>, headerParser: HeaderParser, enclosedParser: EnclosedParser)
      requires |firstSample| > 0 && |nextSample| > 0
      ensures firstBoundarySample == firstSample && nextBoundarySample == nextSample
      ensures parseHeaders == headerParser && parseEnclosed == enclosedParser
      ensures Valid() && Snapshot() == Initial() && events == []
    {
      firstBoundarySample := firstSample;
      nextBoundarySample := nextSample;
      parseHeaders := headerParser;
      parseEnclosed := enclosedParser;
      state := Boundary;
      currBoundaryCharIndex := 0;
      readingBody := false;
      checkForBoundary := true;
      finishingBoundary := false;
      headerSectionEndAccumulator := 0;
      headersBuffer := [];
      currPartIndex := 0;
      currPartName := [];
      events := [];
      UnpackZero();
    }

    /** `onPartData`: deliver body bytes. */
    method OnPartData(bytes: seq<byte>)
      modifies this`events
      ensures events == old(events) + [PartData(bytes)]
    {
      events := events + [PartData(bytes)];
    }

    /** `onPartHeaders`: count the part, then extract and deliver its name, or throw. */
    method OnPartHeaders(headers: HeaderMap) returns (error: Option<ParseError>)
      modifies this`currPartIndex, this`currPartName, this`events
      ensures var r := PartNameOf(headers, parseEnclosed);
              currPartIndex == old(currPartIndex) + 1 &&
              (r.Ok? ==> error == None && currPartName == r.value && events == old(events) + [PartHeaders(r.value)]) &&
              (r.Err? ==> error == Some(r.error) && currPartName == old(currPartName) && events == old(events))
    {
      currPartIndex := currPartIndex + 1;
      var r := PartNameOf(headers, parseEnclosed);
      if r.Ok? {
        currPartName := r.value;
        events := events + [PartHeaders(r.value)];
        error := None;
      } else {
        error := Some(r.error);
      }
    }

    method ParseNextBoundary(data: seq<byte>) returns (v: Verdict)
      requires Valid() && state == Boundary && |data| > 0
      modifies this
      ensures var s := BoundaryStep(Cfg(), old(Snapshot()), data);
              Snapshot() == s.next && events == old(events) + s.emitted && v == s.verdict
    {
      var sample := Sample(Cfg(), currPartIndex);
      var checkSize := if |sample| - currBoundaryCharIndex > |data| then |data| else |sample| - currBoundaryCharIndex;
      if data[..checkSize] == sample[currBoundaryCharIndex..currBoundaryCharIndex + checkSize] {
        currBoundaryCharIndex := currBoundaryCharIndex + checkSize;
        if currBoundaryCharIndex == |sample| {
          state := AfterBoundary;
          currBoundaryCharIndex := 0;
          readingBody := false;
        }
        return Consumed(checkSize);
      } else if readingBody {
        if currBoundaryCharIndex > 0 {
          OnPartData(sample[..currBoundaryCharIndex]);
        }
        state := Data;
        currBoundaryCharIndex := 0;
        checkForBoundary := false;
        return Consumed(0);
      }
      return Failed(UnexpectedBoundaryByte);
    }

    method ParseNextAfterBoundary(data: seq<byte>) returns (v: Verdict)
      requires Valid() && state == AfterBoundary && |data| > 0
      modifies this
      ensures var s := AfterBoundaryStep(Cfg(), old(Snapshot()), data);
              Snapshot() == s.next && events == old(events) + s.emitted && v == s.verdict
    {
      if currBoundaryCharIndex == 0 {
        if data[0] == DASH {
          finishingBoundary := true;
        } else if data[0] != CR {
          return Failed(InvalidCharAfterBoundary);
        }
      }
      if |data| > 1 || currBoundaryCharIndex == 1 {
        var second := data[1 - currBoundaryCharIndex];
        if finishingBoundary && second == DASH {
          state := Done;
          currBoundaryCharIndex := 0;
          return Consumed(2 - currBoundaryCharIndex);
        } else if !finishingBoundary && second == LF {
          state := Headers;
          currBoundaryCharIndex := 0;
          headerSectionEndAccumulator := 0;
          UnpackZero();
          return Consumed(2 - currBoundaryCharIndex);
        } else {
          return Failed(InvalidTrailingChar);
        }
      }
      currBoundaryCharIndex := 1;
      return Consumed(1);
    }

    method ParseNextHeaders(data: seq<byte>) returns (v: Verdict)
      requires Valid() && state == Headers
      modifies this
      ensures var s := HeadersStep(Cfg(), old(Snapshot()), data);
              Snapshot() == s.next && events == old(events) + s.emitted && v == s.verdict
    {
      ghost var c0 := Snapshot();
      var acc, end := ShiftHeaderBytes(headerSectionEndAccumulator, data);
      if end.None? {
        headerSectionEndAccumulator := acc;
        headersBuffer := headersBuffer + data;
        assert Snapshot() == HeadersBuffered(Cfg(), c0, data).next;
        return Consumed(|data|);
      }
      v := EndHeaderSection(acc, data[..end.value], end.value + 1);
    }

    /**
      The end of `parseNext_Headers` once the accumulator reads CR LF CR LF:
      hand the buffered section and the `tail` of this chunk to the header
      parser, deliver the part, and report `n` bytes consumed.
     */
    method EndHeaderSection(acc: bv32, tail: seq<byte>, n: nat) returns (v: Verdict)
      requires Valid() && state == Headers && Unpack(acc) == TERMINATOR
      modifies this
      ensures var s := HeadersDelivered(Cfg(), old(Snapshot()), tail, n);
              Snapshot() == s.next && events == old(events) + s.emitted && v == s.verdict
    {
      headerSectionEndAccumulator := acc;
      headersBuffer := headersBuffer + tail;
      var headersText := headersBuffer;
      headersBuffer := [];
      var headers := parseHeaders(headersText);
      var error := OnPartHeaders(headers);
      if error.Some? {
        return Failed(error.value);
      }
      state := Data;
      checkForBoundary := true;
      return Consumed(n);
    }

    method ParseNextData(data: seq<byte>) returns (v: Verdict)
      requires Valid() && state == Data
      modifies this
      ensures var s := DataStep(Cfg(), old(Snapshot()), data);
              Snapshot() == s.next && events == old(events) + s.emitted && v == s.verdict
    {
      var found := IndexOf(data, 0, CR);
      if found.Some? && !checkForBoundary {
        found := IndexOf(data, found.value + 1, CR);
      }
      assert found == StopCR(data, checkForBoundary);
      checkForBoundary := true;
      if found.Some? {
        if found.value > 0 {
          OnPartData(data[..found.value]);
        }
        state := Boundary;
        readingBody := true;
        return Consumed(found.value);
      } else {
        OnPartData(data);
      }
      return Consumed(|data|);
    }

    /** The scanner for the current state, on the unconsumed rest of a chunk. */
    method ScanRest(rest: seq<byte>) returns (r: Verdict)
      requires Valid() && state != Done && |rest| > 0
      modifies this
      ensures var s := Scan(Cfg(), old(Snapshot()), rest);
              Snapshot() == s.next && events == old(events) + s.emitted && r == s.verdict
    {
      match state {
        case Boundary => r := ParseNextBoundary(rest);
        case AfterBoundary => r := ParseNextAfterBoundary(rest);
        case Headers => r := ParseNextHeaders(rest);
        case Data => r := ParseNextData(rest);
      }
    }

    /**
      One round of `parseNext`'s loop: if the run of the dispatcher over the
      chunk is `total`, of which the callbacks in `emitted` were made before
      reaching `pos`, run the scanner and report where the run now stands.
     */
    method Round(data: seq<byte>, pos: nat, ghost total: Step, ghost base: seq<Event>, ghost emitted: seq<Event>)
      returns (r: Verdict, ghost emitted': seq<Event>)
      requires Valid() && pos < |data| && state != Done
      requires total == Prepend(emitted, Resume(Cfg(), Snapshot(), data, pos))
      requires events == base + emitted
      modifies this
      ensures events == base + emitted'
      ensures r.Failed? ==> total == Step(Snapshot(), emitted', r)
      ensures r.Consumed? ==> Valid() && pos + r.n <= |data| + 1 &&
                              total == Prepend(emitted', Resume(Cfg(), Snapshot(), data, pos + r.n))
      ensures r.Consumed? ==> r.n > 0 || Rank(Snapshot()) < old(Rank(Snapshot()))
    {
      ghost var c := Snapshot();
      ghost var s := DispatchOnce(Cfg(), c, data, pos);
      if s.verdict.Consumed? {
        PrependTwice(emitted, s.emitted, Resume(Cfg(), s.next, data, pos + s.verdict.n));
      }
      r := ScanRest(data[pos..]);
      emitted' := emitted + s.emitted;
      ConcatAssoc(base, emitted, s.emitted);
    }

    /**
      `parseNext`: feed the unconsumed rest of the chunk to the scanner for
      the current state until the chunk is used up or the body is done.
     */
    method ParseNext(data: seq<byte>) returns (v: Verdict)
      requires Valid()
      modifies this
      ensures var s := Scanners.ParseNext(Cfg(), old(Snapshot()), data);
              Snapshot() == s.next && events == old(events) + s.emitted && v == s.verdict
      ensures v.Consumed? ==> Valid()
    {
      ghost var total := Scanners.ParseNext(Cfg(), Snapshot(), data);
      ghost var emitted: seq<Event> := [];
      var pos: nat := 0;
      while pos < |data| && state != Done
        invariant pos <= |data| + 1
        invariant Valid()
        invariant total == Prepend(emitted, Resume(Cfg(), Snapshot(), data, pos))
        invariant events == old(events) + emitted
        decreases |data| - pos, Rank(Snapshot())
      {
        var r;
        r, emitted := Round(data, pos, total, old(events), emitted);
        if r.Failed? {
          return r;
        }
        pos := pos + r.n;
      }
      DispatchStops(Cfg(), Snapshot(), data, pos);
      return Consumed(pos);
    }
  }
}

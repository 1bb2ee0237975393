/**
  What `parseNext` and the after-boundary scanner promise: where the
  dispatcher stops, how many bytes it reports, that it never stalls, and how
  the two bytes after a delimiter are told apart.
 */
module DispatchProps {
  import opened Bytes
  import opened MultipartTypes
  import opened HeaderWindow
  import opened Scanners

  /** Once the body is done, `parseNext` consumes nothing and changes nothing. */
  lemma DoneConsumesNothing(cfg: Config, c: Cursor, data: seq<byte>)
    requires Inv(cfg, c) && c.state == Done
    ensures ParseNext(cfg, c, data) == Step(c, [], Consumed(0))
  {
  }

  /** The dispatcher keeps the invariant on every run that does not fail. */
  lemma {:induction false} DispatchKeepsInv(cfg: Config, c: Cursor, data: seq<byte>, pos: nat)
    requires Inv(cfg, c) && pos <= |data| + 1
    ensures Resume(cfg, c, data, pos).verdict.Consumed? ==> Inv(cfg, Resume(cfg, c, data, pos).next)
    decreases |data| - pos, Rank(c)
  {
    if pos < |data| && c.state != Done {
      var s := DispatchOnce(cfg, c, data, pos);
      if s.verdict.Consumed? {
        DispatchKeepsInv(cfg, s.next, data, pos + s.verdict.n);
      }
    }
  }

  /**
    The dispatcher from `pos` on reports the whole chunk as consumed, unless
    it stopped early at the end of the body or the after-boundary quirk
    pushed it one past the end; a cursor left waiting for the second byte
    after a delimiter means the chunk was used up.
   */
  lemma {:induction false} DispatchAccounting(cfg: Config, c: Cursor, data: seq<byte>, pos: nat)
    requires Inv(cfg, c) && pos <= |data|
    ensures var r := Resume(cfg, c, data, pos);
            r.verdict.Consumed? ==>
              (r.verdict.n == |data| ||
               (r.next.state == Done && pos <= r.verdict.n <= |data|) ||
               (SplitAfterBoundary(c) && pos + 1 == |data| && r.verdict.n == |data| + 1)) &&
              (SplitAfterBoundary(r.next) ==> r.verdict.n == |data|)
    decreases |data| - pos, Rank(c)
  {
    if pos < |data| && c.state != Done {
      var s := DispatchOnce(cfg, c, data, pos);
      if s.verdict.Consumed? && pos + s.verdict.n <= |data| {
        DispatchAccounting(cfg, s.next, data, pos + s.verdict.n);
      }
    }
  }

  /**
    `parseNext` on a chunk: unless the previous chunk ended between the two
    bytes after a delimiter, the result is the chunk's size, or less when the
    body ended inside the chunk. In that split case a one-byte chunk is
    reported as two bytes.
   */
  lemma ParseNextAccounting(cfg: Config, c: Cursor, data: seq<byte>)
    requires Inv(cfg, c)
    ensures var r := ParseNext(cfg, c, data);
            r.verdict.Consumed? ==>
              Inv(cfg, r.next) &&
              (r.verdict.n == |data| ||
               (r.next.state == Done && r.verdict.n <= |data|) ||
               (SplitAfterBoundary(c) && |data| == 1 && r.verdict.n == 2))
  {
    DispatchKeepsInv(cfg, c, data, 0);
    DispatchAccounting(cfg, c, data, 0);
  }

  /** A scanner call that consumes nothing hands over between the data and boundary scanners. */
  lemma IdleStep(cfg: Config, c: Cursor, data: seq<byte>)
    requires Inv(cfg, c) && c.state != Done && |data| > 0
    ensures var s := Scan(cfg, c, data);
            s.verdict == Consumed(0) ==>
              (c.state == Data && c.checkForBoundary && s.next.state == Boundary && s.next.readingBody) ||
              (c.state == Boundary && s.next.state == Data && !s.next.checkForBoundary)
  {
    match c.state
    case Boundary =>
    case AfterBoundary => AfterBoundaryStepOk(cfg, c, data);
    case Headers => HeadersStepOk(cfg, c, data);
    case Data =>
      if !c.checkForBoundary {
        var first := IndexOf(data, 0, CR);
        if first.Some? {
          assert StopCR(data, false) == IndexOf(data, first.value + 1, CR);
        }
      }
  }

  /**
    `parseNext` never stalls: on the same bytes, a third scanner call in a
    row cannot again consume nothing (data at a CR, then a boundary
    mismatch, then data with the check flag off, which consumes).
   */
  lemma AtMostTwoIdleSteps(cfg: Config, c: Cursor, data: seq<byte>)
    requires Inv(cfg, c) && c.state != Done && |data| > 0
    ensures var s1 := Scan(cfg, c, data);
            s1.verdict == Consumed(0) ==>
              Inv(cfg, s1.next) && s1.next.state != Done &&
              var s2 := Scan(cfg, s1.next, data);
              s2.verdict == Consumed(0) ==>
                Inv(cfg, s2.next) && s2.next.state != Done &&
                Scan(cfg, s2.next, data).verdict != Consumed(0)
  {
    var s1 := Scan(cfg, c, data);
    ScanOk(cfg, c, data);
    IdleStep(cfg, c, data);
    if s1.verdict == Consumed(0) {
      var s2 := Scan(cfg, s1.next, data);
      ScanOk(cfg, s1.next, data);
      IdleStep(cfg, s1.next, data);
      if s2.verdict == Consumed(0) {
        IdleStep(cfg, s2.next, data);
        ScanOk(cfg, s2.next, data);
      }
    }
  }

  /**
    Both bytes after a delimiter in one chunk: `--` ends the body, CR LF
    starts a header section with the window cleared, each consuming two
    bytes; any other first byte, or a second byte that does not fit the
    first, is an error.
   */
  lemma AfterBoundaryBothBytes(cfg: Config, c: Cursor, data: seq<byte>)
    requires Inv(cfg, c) && c.state == AfterBoundary && c.boundaryCharIndex == 0 && |data| >= 2
    ensures var r := AfterBoundaryStep(cfg, c, data);
            (r.verdict.Consumed? <==> data[..2] == [DASH, DASH] || data[..2] == [CR, LF]) &&
            (data[..2] == [DASH, DASH] ==>
               r == Step(c.(finishingBoundary := true, state := Done), [], Consumed(2))) &&
            (data[..2] == [CR, LF] ==> r == Step(c.(state := Headers, window := ZEROS), [], Consumed(2))) &&
            (data[0] != DASH && data[0] != CR ==> r.verdict == Failed(InvalidCharAfterBoundary)) &&
            ((data[0] == DASH && data[1] != DASH) || (data[0] == CR && data[1] != LF) ==>
               r.verdict == Failed(InvalidTrailingChar))
  {
    if data[0] == DASH && data[1] == DASH {
      assert data[..2] == [DASH, DASH];
    } else if data[0] == CR && data[1] == LF {
      assert data[..2] == [CR, LF];
    } else {
      assert data[..2][0] == data[0] && data[..2][1] == data[1];
    }
  }

  /**
    Only the first byte after a delimiter in this chunk: `-` or CR is
    consumed and remembered (`-` sets the finishing flag), and the second
    byte is awaited; any other byte is an error.
   */
  lemma AfterBoundaryFirstByteOnly(cfg: Config, c: Cursor, data: seq<byte>)
    requires Inv(cfg, c) && c.state == AfterBoundary && c.boundaryCharIndex == 0 && |data| == 1
    ensures data[0] == DASH || data[0] == CR ==>
              AfterBoundaryStep(cfg, c, data) ==
              Step(c.(boundaryCharIndex := 1, finishingBoundary := data[0] == DASH), [], Consumed(1))
    ensures data[0] != DASH && data[0] != CR ==>
              AfterBoundaryStep(cfg, c, data) == Step(c, [], Failed(InvalidCharAfterBoundary))
  {
  }

  /**
    The second byte after a delimiter, arriving first in a chunk: it is
    judged against the remembered first byte, and the step reports two bytes
    consumed although only one of them is in this chunk.
   */
  lemma AfterBoundarySecondByte(cfg: Config, c: Cursor, data: seq<byte>)
    requires Inv(cfg, c) && SplitAfterBoundary(c) && |data| > 0
    ensures var r := AfterBoundaryStep(cfg, c, data);
            (c.finishingBoundary && data[0] == DASH ==>
               r == Step(c.(state := Done, boundaryCharIndex := 0), [], Consumed(2))) &&
            (!c.finishingBoundary && data[0] == LF ==>
               r == Step(c.(state := Headers, boundaryCharIndex := 0, window := ZEROS), [], Consumed(2))) &&
            (!(c.finishingBoundary && data[0] == DASH) && !(!c.finishingBoundary && data[0] == LF) ==>
               r == Step(c, [], Failed(InvalidTrailingChar)))
  {
  }
}

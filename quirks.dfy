/**
  Behaviour of `StatefulParser.cpp` that a reader of its purpose would not
  expect, kept in the model as the code has it and shown here: the byte
  count after a delimiter split between chunks, the CR the data scanner
  skips after a delimiter candidate split between chunks, and a `name=`
  found inside `filename=`.
 */
module Quirks {
  import opened Bytes
  import opened MultipartTypes
  import opened PartName
  import opened Scanners
  import opened BoundaryProps

  /** The second byte after a delimiter fits the first one remembered from the previous chunk. */
  predicate SecondByteFits(c: Cursor, b: byte)
  {
    (c.finishingBoundary && b == DASH) || (!c.finishingBoundary && b == LF)
  }

  /**
    When the previous chunk ended after the first byte following a
    delimiter, `parseNext` on a one-byte chunk holding the second byte
    reports two bytes consumed.
   */
  lemma SplitAfterBoundaryOvercounts(cfg: Config, c: Cursor, data: seq<byte>)
    requires Inv(cfg, c) && SplitAfterBoundary(c) && |data| == 1 && SecondByteFits(c, data[0])
    ensures ParseNext(cfg, c, data).verdict == Consumed(2)
  {
    assert data[0..] == data;
    var s := AfterBoundaryStep(cfg, c, data);
    AfterBoundaryStepOk(cfg, c, data);
    var rest := Dispatch(cfg, s.next, data, 2);
    assert rest == Step(s.next, [], Consumed(2));
    assert Dispatch(cfg, c, data, 0) == DispatchScan(cfg, c, data, 0);
    assert DispatchScan(cfg, c, data, 0) == Step(rest.next, s.emitted + rest.emitted, rest.verdict);
  }

  /**
    In the same situation with a longer chunk, the dispatcher resumes at
    index 2: byte 1 of the chunk is never scanned.
   */
  lemma SplitAfterBoundarySkipsByte(cfg: Config, c: Cursor, data: seq<byte>)
    requires Inv(cfg, c) && SplitAfterBoundary(c) && |data| >= 2 && SecondByteFits(c, data[0])
    ensures var s := AfterBoundaryStep(cfg, c, data);
            s.verdict == Consumed(2) && s.emitted == [] && Inv(cfg, s.next) &&
            ParseNext(cfg, c, data) == Dispatch(cfg, s.next, data, 2)
  {
    assert data[0..] == data;
    var s := AfterBoundaryStep(cfg, c, data);
    AfterBoundaryStepOk(cfg, c, data);
    var rest := Dispatch(cfg, s.next, data, 2);
    assert [] + rest.emitted == rest.emitted;
    assert Dispatch(cfg, c, data, 0) == DispatchScan(cfg, c, data, 0);
    assert DispatchScan(cfg, c, data, 0) == Step(rest.next, s.emitted + rest.emitted, rest.verdict);
  }

  /**
    With the check flag off, a chunk whose only CR is at `p` is delivered
    whole as body, even when a delimiter starts at that CR.
   */
  lemma SkippedCRIsBody(cfg: Config, c: Cursor, data: seq<byte>, p: nat)
    requires Inv(cfg, c) && c.state == Data && !c.checkForBoundary
    requires p < |data| && data[p] == CR
    requires forall k :: 0 <= k < |data| && k != p ==> data[k] != CR
    ensures DataStep(cfg, c, data) == Step(c.(checkForBoundary := true), [PartData(data)], Consumed(|data|))
  {
    assert IndexOf(data, 0, CR) == Some(p);
  }

  /**
    A delimiter candidate that straddled chunks and then fails to match
    leaves the check flag off, so the data scanner that follows on the same
    chunk passes its first CR as body: a chunk whose only CR is at `p` is
    delivered whole, whatever follows that CR.
   */
  lemma SplitMismatchSkipsCR(cfg: Config, c: Cursor, data: seq<byte>, p: nat)
    requires Inv(cfg, c) && c.state == Boundary && c.readingBody && c.boundaryCharIndex > 0 && |data| > 0
    requires !(RestOfSample(cfg, c) <= data) && !(data <= RestOfSample(cfg, c))
    requires p < |data| && data[p] == CR
    requires forall k :: 0 <= k < |data| && k != p ==> data[k] != CR
    ensures var s1 := BoundaryStep(cfg, c, data);
            s1.verdict == Consumed(0) && Inv(cfg, s1.next) && s1.next.state == Data &&
            DataStep(cfg, s1.next, data).emitted == [PartData(data)] &&
            DataStep(cfg, s1.next, data).verdict == Consumed(|data|)
  {
    BoundaryMismatch(cfg, c, data);
    BoundaryStepOk(cfg, c, data);
    SkippedCRIsBody(cfg, BoundaryStep(cfg, c, data).next, data, p);
  }

  /** `form-data; filename="a"; name="b"` */
  const FILENAME_FIRST: seq<byte> :=
    [0x66, 0x6F, 0x72, 0x6D, 0x2D, 0x64, 0x61, 0x74, 0x61, 0x3B, 0x20,
     0x66, 0x69, 0x6C, 0x65, 0x6E, 0x61, 0x6D, 0x65, 0x3D, 0x22, 0x61, 0x22, 0x3B, 0x20,
     0x6E, 0x61, 0x6D, 0x65, 0x3D, 0x22, 0x62, 0x22]

  /**
    The first `name=` of `form-data; filename="a"; name="b"` is the one
    inside `filename=`, so the part's name is read from the file name's
    quoted value.
   */
  lemma FilenameShadowsName(enclosed: EnclosedParser)
    ensures FirstNameAt(FILENAME_FIRST, 15)
    ensures match enclosed(FILENAME_FIRST[20..], DQUOTE)
            case None => NameToken(FILENAME_FIRST, enclosed) == Err(UnparsablePartName)
            case Some(n) => NameToken(FILENAME_FIRST, enclosed) == Ok(n)
  {
    forall j | 0 <= j < 15
      ensures !OccursAt(FILENAME_FIRST, NAME_EQ, j)
    {
      assert FILENAME_FIRST[j] != NAME_EQ[0];
      assert FILENAME_FIRST[j..j + 5][0] == FILENAME_FIRST[j];
    }
    assert FILENAME_FIRST[15..20] == NAME_EQ;
    NameTokenQuoted(FILENAME_FIRST, enclosed, 15);
  }
}

/**
  What the boundary and data scanners of `StatefulParser.cpp` promise, stated
  on their step functions: how far a delimiter match goes, what a mismatch
  hands back as body bytes, where the data scanner stops, and that the body
  bytes it delivers are exactly the bytes it consumes.
 */
module BoundaryProps {
  import opened Bytes
  import opened MultipartTypes
  import opened Scanners

  /** The part of the expected delimiter not matched yet. */
  function RestOfSample(cfg: Config, c: Cursor): seq<byte>
    requires Inv(cfg, c) && c.state == Boundary
  {
    Sample(cfg, c.partIndex)[c.boundaryCharIndex..]
  }

  /**
    A chunk that starts with the rest of the delimiter completes it: exactly
    those bytes are consumed, nothing is delivered, and the parser moves on
    to the bytes after the delimiter with the cursor reset and the body over.
   */
  lemma BoundaryCompletes(cfg: Config, c: Cursor, data: seq<byte>)
    requires Inv(cfg, c) && c.state == Boundary && |data| > 0
    requires RestOfSample(cfg, c) <= data
    ensures var r := BoundaryStep(cfg, c, data);
            r.verdict == Consumed(|RestOfSample(cfg, c)|) && r.verdict.n >= 1 && r.emitted == [] &&
            r.next == c.(state := AfterBoundary, boundaryCharIndex := 0, readingBody := false)
  {
    var sample := Sample(cfg, c.partIndex);
    var k := |sample| - c.boundaryCharIndex;
    assert data[..k] == sample[c.boundaryCharIndex..c.boundaryCharIndex + k];
  }

  /**
    A chunk that is shorter than the rest of the delimiter and agrees with it
    is consumed whole; the cursor counts it and stays below the delimiter's
    length, so the match resumes with the next chunk.
   */
  lemma BoundaryContinues(cfg: Config, c: Cursor, data: seq<byte>)
    requires Inv(cfg, c) && c.state == Boundary && |data| > 0
    requires data < RestOfSample(cfg, c)
    ensures var r := BoundaryStep(cfg, c, data);
            r.verdict == Consumed(|data|) && r.emitted == [] &&
            r.next == c.(boundaryCharIndex := c.boundaryCharIndex + |data|) &&
            r.next.boundaryCharIndex < |Sample(cfg, c.partIndex)|
  {
    var sample := Sample(cfg, c.partIndex);
    assert data[..|data|] == sample[c.boundaryCharIndex..c.boundaryCharIndex + |data|];
  }

  /**
    A chunk that disagrees with the rest of the delimiter: inside a body the
    delimiter bytes matched so far turn out to be body bytes and are
    delivered, nothing is consumed, and the data scanner takes over with the
    check flag off; outside a body it is an error.
   */
  lemma BoundaryMismatch(cfg: Config, c: Cursor, data: seq<byte>)
    requires Inv(cfg, c) && c.state == Boundary && |data| > 0
    requires !(RestOfSample(cfg, c) <= data) && !(data <= RestOfSample(cfg, c))
    ensures var r := BoundaryStep(cfg, c, data);
            (c.readingBody ==>
               r.verdict == Consumed(0) &&
               r.emitted == (if c.boundaryCharIndex > 0 then [PartData(Sample(cfg, c.partIndex)[..c.boundaryCharIndex])] else []) &&
               DataBytes(r.emitted) == Sample(cfg, c.partIndex)[..c.boundaryCharIndex] &&
               r.next == c.(state := Data, boundaryCharIndex := 0, checkForBoundary := false)) &&
            (!c.readingBody ==> r == Step(c, [], Failed(UnexpectedBoundaryByte)))
  {
    var sample := Sample(cfg, c.partIndex);
    var r := BoundaryStep(cfg, c, data);
    if c.readingBody && c.boundaryCharIndex > 0 {
      assert r.emitted == [PartData(sample[..c.boundaryCharIndex])];
      assert r.emitted[..0] == [];
    }
  }

  /**
    The delimiter may arrive split between chunks: matching the part of it
    in `a` and then `b` leaves the parser where matching `a + b` in one call
    does, with the same bytes consumed in total.
   */
  lemma BoundarySplitMatch(cfg: Config, c: Cursor, a: seq<byte>, b: seq<byte>)
    requires Inv(cfg, c) && c.state == Boundary && |a| > 0 && |b| > 0
    requires a < RestOfSample(cfg, c)
    requires RestOfSample(cfg, c) <= a + b || a + b <= RestOfSample(cfg, c)
    ensures var r1 := BoundaryStep(cfg, c, a);
            var whole := BoundaryStep(cfg, c, a + b);
            r1.verdict == Consumed(|a|) && Inv(cfg, r1.next) && r1.next.state == Boundary &&
            var r2 := BoundaryStep(cfg, r1.next, b);
            r2.next == whole.next && r1.emitted + r2.emitted == whole.emitted &&
            r2.verdict.Consumed? && whole.verdict == Consumed(|a| + r2.verdict.n)
  {
    BoundaryContinues(cfg, c, a);
    BoundaryStepOk(cfg, c, a);
    var c1 := BoundaryStep(cfg, c, a).next;
    var rest := RestOfSample(cfg, c);
    assert RestOfSample(cfg, c1) == rest[|a|..];
    if rest <= a + b {
      assert RestOfSample(cfg, c1) <= b;
      BoundaryCompletes(cfg, c1, b);
      BoundaryCompletes(cfg, c, a + b);
    } else {
      assert b < RestOfSample(cfg, c1);
      BoundaryContinues(cfg, c1, b);
      BoundaryContinues(cfg, c, a + b);
    }
  }
}

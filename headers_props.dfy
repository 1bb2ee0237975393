/**
  What the header-section scanner of `StatefulParser.cpp` promises: the
  header block it hands to the header-line parser is the section's bytes up
  to the first CR LF CR LF, without its final LF; until then every byte is
  buffered; and how the section is split into chunks makes no difference.
 */
module HeadersProps {
  import opened Bytes
  import opened MultipartTypes
  import opened PartName
  import opened HeaderWindow
  import opened Scanners

  /** `h[..m]` ends with the first CR LF CR LF of `h`. */
  predicate SectionEndsAt(h: seq<byte>, m: nat)
  {
    TerminatorEndsAt(h, m) && forall j :: 0 <= j < m ==> !TerminatorEndsAt(h, j)
  }

  /** A header section has at most one end. */
  lemma SectionEndUnique(h: seq<byte>, m1: nat, m2: nat)
    requires SectionEndsAt(h, m1) && SectionEndsAt(h, m2)
    ensures m1 == m2
  {
  }

  /** The zero bytes the accumulator starts with never take part in a terminator. */
  lemma ZerosShift(h: seq<byte>, j: nat)
    requires j <= |h|
    ensures TerminatorEndsAt(ZEROS + h, j + 4) <==> TerminatorEndsAt(h, j)
  {
    if j >= 4 {
      assert (ZEROS + h)[j..j + 4] == h[j - 4..j];
    } else {
      assert (ZEROS + h)[j..j + 4][0] == 0;
    }
  }

  /** No terminator ends inside the buffered part of a section. */
  lemma NoTerminatorInBuffer(w: seq<byte>, buf: seq<byte>, data: seq<byte>, j: nat)
    requires HeaderWindowOk(w, buf) && j <= |buf|
    ensures !TerminatorEndsAt(buf + data, j)
  {
    if TerminatorEndsAt(buf + data, j) {
      assert (buf + data)[j - 4..j] == buf[j - 4..j];
      ZerosShift(buf, j);
    }
  }

  /** Byte `k` of the chunk completes a terminator exactly when one ends there in the section's bytes. */
  lemma TerminatorInChunk(w: seq<byte>, buf: seq<byte>, data: seq<byte>, k: nat)
    requires w == LastFour(ZEROS + buf) && k < |data|
    ensures EndsAt(w, data, k) <==> TerminatorEndsAt(buf + data, |buf| + k + 1)
  {
    var z := ZEROS + buf;
    var h := buf + data;
    EndsAtInHistory(z, data, k);
    assert z + data == ZEROS + h;
    ZerosShift(h, |buf| + k + 1);
  }

  /**
    With `h` the bytes of the section so far followed by the chunk: the
    chunk completes no section exactly when `h` holds no CR LF CR LF, and
    otherwise the header block is `h` up to the end of its first CR LF CR LF,
    less the final LF, and takes in the whole buffer.
   */
  lemma HeaderBlockIsFirstSection(cfg: Config, c: Cursor, data: seq<byte>)
    requires Inv(cfg, c) && c.state == Headers
    ensures var h := c.headersBuffer + data;
            var block := HeaderBlock(c, data);
            (block.None? <==> forall j :: 0 <= j <= |h| ==> !TerminatorEndsAt(h, j)) &&
            (block.Some? ==> |c.headersBuffer| <= |block.value| < |h| && block.value == h[..|block.value|] &&
                             SectionEndsAt(h, |block.value| + 1))
  {
    var buf := c.headersBuffer;
    var h := buf + data;
    forall j | 0 <= j <= |buf|
      ensures !TerminatorEndsAt(h, j)
    {
      NoTerminatorInBuffer(c.window, buf, data, j);
    }
    match FirstTerminator(c.window, data, 0)
    case None =>
      forall j | |buf| < j <= |h|
        ensures !TerminatorEndsAt(h, j)
      {
        TerminatorInChunk(c.window, buf, data, j - |buf| - 1);
      }
    case Some(i) =>
      TerminatorInChunk(c.window, buf, data, i);
      forall j | |buf| < j < |buf| + i + 1
        ensures !TerminatorEndsAt(h, j)
      {
        TerminatorInChunk(c.window, buf, data, j - |buf| - 1);
      }
      assert h[..|buf| + i] == buf + data[..i];
  }

  /**
    When the chunk completes the section, the block goes to the header-line
    parser and the part is counted; the part's name is then delivered, the
    body follows with the check flag on, and the chunk is consumed up to and
    including the final LF. A part without a name is an error.
   */
  lemma HeadersDeliver(cfg: Config, c: Cursor, data: seq<byte>)
    requires Inv(cfg, c) && c.state == Headers && HeaderBlock(c, data).Some?
    ensures var block := HeaderBlock(c, data).value;
            var named := PartNameOf(cfg.parseHeaders(block), cfg.parseEnclosed);
            var r := HeadersStep(cfg, c, data);
            r.next.partIndex == c.partIndex + 1 && r.next.headersBuffer == [] &&
            (named.Err? ==> r.verdict == Failed(named.error) && r.emitted == []) &&
            (named.Ok? ==>
               r.verdict == Consumed(|block| - |c.headersBuffer| + 1) && r.verdict.n <= |data| &&
               r.emitted == [PartHeaders(named.value)] &&
               r.next.state == Data && r.next.checkForBoundary && r.next.partName == named.value)
  {
  }

  /**
    A chunk that does not complete the section is buffered and consumed
    whole, and the window is then the last four bytes of the section so far.
   */
  lemma HeadersBufferAll(cfg: Config, c: Cursor, data: seq<byte>)
    requires Inv(cfg, c) && c.state == Headers && HeaderBlock(c, data).None?
    ensures var r := HeadersStep(cfg, c, data);
            r.verdict == Consumed(|data|) && r.emitted == [] && r.next.state == Headers &&
            r.next.headersBuffer == c.headersBuffer + data &&
            r.next.window == LastFour(ZEROS + r.next.headersBuffer)
  {
    HeadersStepOk(cfg, c, data);
  }

  /** The header block depends only on the section's bytes so far, not on where the last chunk began. */
  lemma SameSectionSameBlock(cfg: Config, c: Cursor, data: seq<byte>, c': Cursor, data': seq<byte>)
    requires Inv(cfg, c) && c.state == Headers && Inv(cfg, c') && c'.state == Headers
    requires c.headersBuffer + data == c'.headersBuffer + data'
    ensures HeaderBlock(c, data) == HeaderBlock(c', data')
  {
    var h := c.headersBuffer + data;
    HeaderBlockIsFirstSection(cfg, c, data);
    HeaderBlockIsFirstSection(cfg, c', data');
    if HeaderBlock(c, data).Some? && HeaderBlock(c', data').Some? {
      SectionEndUnique(h, |HeaderBlock(c, data).value| + 1, |HeaderBlock(c', data').value| + 1);
    }
  }

  /** Two steps end alike, the second having consumed `offset` bytes fewer. */
  predicate SameOutcome(second: Step, whole: Step, offset: nat)
  {
    second.next == whole.next && second.emitted == whole.emitted &&
    (second.verdict.Failed? <==> whole.verdict.Failed?) &&
    (second.verdict.Failed? ==> second.verdict == whole.verdict) &&
    (second.verdict.Consumed? ==> whole.verdict.n == offset + second.verdict.n)
  }

  /** Scanning `a` without completing the section only buffers it. */
  lemma HeadersSplitFirst(cfg: Config, c: Cursor, a: seq<byte>)
    requires Inv(cfg, c) && c.state == Headers && HeaderBlock(c, a).None?
    ensures var r1 := HeadersStep(cfg, c, a);
            r1.verdict == Consumed(|a|) && r1.emitted == [] && Inv(cfg, r1.next) && r1.next.state == Headers &&
            r1.next == c.(window := r1.next.window, headersBuffer := c.headersBuffer + a)
  {
    HeadersStepOk(cfg, c, a);
  }

  /** The split case of `HeadersSplit` where `a + b` does not complete the section either. */
  lemma HeadersSplitBuffered(cfg: Config, c: Cursor, c1: Cursor, a: seq<byte>, b: seq<byte>)
    requires Inv(cfg, c) && c.state == Headers && Inv(cfg, c1) && c1.state == Headers
    requires c1 == c.(window := c1.window, headersBuffer := c.headersBuffer + a)
    requires HeaderBlock(c, a + b).None? && HeaderBlock(c1, b).None?
    ensures SameOutcome(HeadersStep(cfg, c1, b), HeadersStep(cfg, c, a + b), |a|)
  {
    assert c1.headersBuffer + b == c.headersBuffer + (a + b);
    HeadersBufferAll(cfg, c1, b);
    HeadersBufferAll(cfg, c, a + b);
  }

  /** The split case of `HeadersSplit` where `b` completes the section. */
  lemma HeadersSplitDelivered(cfg: Config, c: Cursor, c1: Cursor, a: seq<byte>, b: seq<byte>)
    requires Inv(cfg, c) && c.state == Headers && Inv(cfg, c1) && c1.state == Headers
    requires c1 == c.(window := c1.window, headersBuffer := c.headersBuffer + a)
    requires HeaderBlock(c, a + b).Some? && HeaderBlock(c1, b) == HeaderBlock(c, a + b)
    ensures SameOutcome(HeadersStep(cfg, c1, b), HeadersStep(cfg, c, a + b), |a|)
  {
    var i := FirstTerminator(c.window, a + b, 0).value;
    var i1 := FirstTerminator(c1.window, b, 0).value;
    assert c.headersBuffer + (a + b)[..i] == c1.headersBuffer + b[..i1];
  }

  /**
    The header scanner does not depend on how the section is cut into
    chunks: scanning `a`, which does not complete it, and then `b` ends in
    the same fields, with the same callbacks, as scanning `a + b` at once,
    and consumes the same bytes in total.
   */
  lemma HeadersSplit(cfg: Config, c: Cursor, a: seq<byte>, b: seq<byte>)
    requires Inv(cfg, c) && c.state == Headers && HeaderBlock(c, a).None?
    ensures var r1 := HeadersStep(cfg, c, a);
            r1.verdict == Consumed(|a|) && r1.emitted == [] && Inv(cfg, r1.next) && r1.next.state == Headers &&
            SameOutcome(HeadersStep(cfg, r1.next, b), HeadersStep(cfg, c, a + b), |a|)
  {
    HeadersSplitFirst(cfg, c, a);
    var c1 := HeadersStep(cfg, c, a).next;
    assert c1.headersBuffer + b == c.headersBuffer + (a + b);
    SameSectionSameBlock(cfg, c1, b, c, a + b);
    if HeaderBlock(c, a + b).None? {
      HeadersSplitBuffered(cfg, c, c1, a, b);
    } else {
      HeadersSplitDelivered(cfg, c, c1, a, b);
    }
  }
}

/**
  What the data scanner of `StatefulParser.cpp` promises: it stops at the CR
  that may start a delimiter, the skipped CR included when the check flag is
  off, and the body bytes it delivers are exactly the bytes it consumes.
 */
module DataProps {
  import opened Bytes
  import opened MultipartTypes
  import opened Scanners

  /** Body bytes delivered by the data scanner are the bytes it consumed, no more and no fewer. */
  lemma DataDeliversConsumed(cfg: Config, c: Cursor, data: seq<byte>)
    requires Inv(cfg, c) && c.state == Data
    ensures var r := DataStep(cfg, c, data);
            r.verdict.Consumed? && r.verdict.n <= |data| &&
            DataBytes(r.emitted) == data[..r.verdict.n] &&
            (forall k :: 0 <= k < |r.emitted| ==> r.emitted[k].PartData?) &&
            (|data| > 0 ==> r.emitted == if r.verdict.n > 0 then [PartData(data[..r.verdict.n])] else []) &&
            (|data| == 0 ==> r.emitted == [PartData([])])
  {
    var r := DataStep(cfg, c, data);
    assert data[..|data|] == data;
    if r.emitted != [] {
      assert r.emitted[..0] == [];
    }
  }

  /**
    The data scanner stops short of the chunk's end only at a CR, which it
    leaves unconsumed for the boundary scanner. With the check flag on the
    consumed bytes hold no CR; with it off they hold at most one, the first
    CR of the chunk, which is passed on as body. The flag is on afterwards.
   */
  lemma DataStopsAtCR(cfg: Config, c: Cursor, data: seq<byte>)
    requires Inv(cfg, c) && c.state == Data
    ensures var r := DataStep(cfg, c, data);
            var n := r.verdict.n;
            r.verdict.Consumed? && n <= |data| &&
            (n < |data| ==> data[n] == CR && r.next == c.(checkForBoundary := true, state := Boundary, readingBody := true)) &&
            (n == |data| ==> r.next == c.(checkForBoundary := true)) &&
            (c.checkForBoundary ==> forall k :: 0 <= k < n ==> data[k] != CR) &&
            (!c.checkForBoundary ==> forall j, k :: 0 <= j < k < n ==> !(data[j] == CR && data[k] == CR)) &&
            (!c.checkForBoundary && IndexOf(data, 0, CR).Some? ==> IndexOf(data, 0, CR).value < n)
  {
  }

  /** With the check flag off the data scanner always consumes something, so the parser cannot stall. */
  lemma DataSkipProgress(cfg: Config, c: Cursor, data: seq<byte>)
    requires Inv(cfg, c) && c.state == Data && !c.checkForBoundary && |data| > 0
    ensures DataStep(cfg, c, data).verdict.n >= 1
  {
    DataStopsAtCR(cfg, c, data);
  }
}

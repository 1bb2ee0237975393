/**
  The header-section terminator detector. The source shifts every header byte
  into a 32-bit accumulator and compares it with CR LF CR LF; this module
  shows that the accumulator is exactly the last four bytes seen, and gives
  the search for the first terminator a specification.
 */
module HeaderWindow {
  import opened Bytes

  const HEADERS_SECTION_END: bv32 := 0x0D0A0D0A
  const TERMINATOR: seq<byte> := [CR, LF, CR, LF]
  const ZEROS: seq<byte> := [0, 0, 0, 0]

  /** The four bytes held by the accumulator, oldest first. */
  function Unpack(acc: bv32): (w: seq<byte>)
    ensures |w| == 4
  {
    [((acc >> 24) & 0xFF) as byte, ((acc >> 16) & 0xFF) as byte,
     ((acc >> 8) & 0xFF) as byte, (acc & 0xFF) as byte]
  }

  /** The source's update of the accumulator by one header byte. */
  function ShiftAcc(acc: bv32, b: byte): bv32
  {
    (acc << 8) | (b as bv32)
  }

  /** Shifting a byte into the accumulator drops the oldest byte and appends the new one. */
  lemma ShiftIn(acc: bv32, b: byte)
    ensures Unpack(ShiftAcc(acc, b)) == Unpack(acc)[1..] + [b]
  {
    var n := (acc << 8) | (b as bv32);
    assert ShiftAcc(acc, b) == n;
    assert (n >> 24) & 0xFF == (acc >> 16) & 0xFF;
    assert (n >> 16) & 0xFF == (acc >> 8) & 0xFF;
    assert (n >> 8) & 0xFF == acc & 0xFF;
    assert n & 0xFF == b as bv32;
  }

  /** Comparing the accumulator with the constant is comparing the window with CR LF CR LF. */
  lemma MatchesTerminator(acc: bv32)
    ensures acc == HEADERS_SECTION_END <==> Unpack(acc) == TERMINATOR
  {
    var w := Unpack(acc);
    if w == TERMINATOR {
      assert w[0] == CR && w[1] == LF && w[2] == CR && w[3] == LF;
      assert (acc >> 24) & 0xFF == 0x0D && (acc >> 16) & 0xFF == 0x0A;
      assert (acc >> 8) & 0xFF == 0x0D && acc & 0xFF == 0x0A;
    }
  }

  /**
    If the accumulator holds the last four bytes of `history`, after one more
    byte it holds the last four of the longer history, and it equals the
    constant exactly when those four are CR LF CR LF.
   */
  lemma AccumulatorTracksWindow(acc: bv32, history: seq<byte>, b: byte)
    requires |history| >= 4 && Unpack(acc) == LastFour(history)
    ensures Unpack(ShiftAcc(acc, b)) == LastFour(history + [b])
    ensures ShiftAcc(acc, b) == HEADERS_SECTION_END <==> LastFour(history + [b]) == TERMINATOR
  {
    ShiftIn(acc, b);
    LastFourSnoc(history, b);
    MatchesTerminator(ShiftAcc(acc, b));
  }

  /** The same, for a scan over `data` that has reached byte `i`. */
  lemma AccumulatorTracksScan(acc: bv32, w: seq<byte>, data: seq<byte>, i: nat)
    requires |w| == 4 && i < |data| && Unpack(acc) == LastFour(w + data[..i])
    ensures Unpack(ShiftAcc(acc, data[i])) == LastFour(w + data[..i + 1])
    ensures ShiftAcc(acc, data[i]) == HEADERS_SECTION_END <==> EndsAt(w, data, i)
  {
    assert w + data[..i + 1] == (w + data[..i]) + [data[i]];
    AccumulatorTracksWindow(acc, w + data[..i], data[i]);
  }

  lemma UnpackZero()
    ensures Unpack(0) == ZEROS
  {
  }

  function LastFour(s: seq<byte>): (w: seq<byte>)
    requires |s| >= 4
    ensures |w| == 4
  {
    s[|s| - 4..]
  }

  /** The window after one more byte. */
  lemma LastFourSnoc(s: seq<byte>, b: byte)
    requires |s| >= 4
    ensures LastFour(s + [b]) == LastFour(s)[1..] + [b]
  {
  }

  /** Only the last four bytes of the history matter for the next window. */
  lemma LastFourAppend(s: seq<byte>, t: seq<byte>)
    requires |s| >= 4
    ensures LastFour(LastFour(s) + t) == LastFour(s + t)
  {
    if |t| < 4 {
      assert (LastFour(s) + t)[|t|..] == LastFour(s + t);
    } else {
      assert (LastFour(s) + t)[4..] == t;
      assert (s + t)[|s|..] == t;
    }
  }

  /** The header bytes `s` hold CR LF CR LF ending just before index `j`. */
  predicate TerminatorEndsAt(s: seq<byte>, j: int)
  {
    4 <= j <= |s| && s[j - 4..j] == TERMINATOR
  }

  /** Scanning from window `w`, the window after `data[i]` is CR LF CR LF. */
  predicate EndsAt(w: seq<byte>, data: seq<byte>, i: nat)
    requires |w| == 4 && i < |data|
  {
    LastFour(w + data[..i + 1]) == TERMINATOR
  }

  /** Index of the first byte of `data` at or after `from` that completes CR LF CR LF. */
  function FirstTerminator(w: seq<byte>, data: seq<byte>, from: nat): (r: Option<nat>)
    requires |w| == 4 && from <= |data|
    ensures r.Some? ==> from <= r.value < |data| && EndsAt(w, data, r.value)
    ensures r.Some? ==> forall j :: from <= j < r.value ==> !EndsAt(w, data, j)
    ensures r.None? ==> forall j :: from <= j < |data| ==> !EndsAt(w, data, j)
    decreases |data| - from
  {
    if from == |data| then None
    else if EndsAt(w, data, from) then Some(from)
    else FirstTerminator(w, data, from + 1)
  }

  /**
    With `w` the window over history `h`, byte `k` of `data` completes a
    terminator exactly when one ends at that byte of `h + data`.
   */
  lemma EndsAtInHistory(h: seq<byte>, data: seq<byte>, k: nat)
    requires |h| >= 4 && k < |data|
    ensures EndsAt(LastFour(h), data, k) <==> TerminatorEndsAt(h + data, |h| + k + 1)
  {
    LastFourAppend(h, data[..k + 1]);
    assert (h + data)[..|h| + k + 1] == h + data[..k + 1];
    assert (h + data)[|h| + k + 1 - 4..|h| + k + 1] == LastFour(h + data[..k + 1]);
  }

  /** A chunk with no terminator completed in it adds none to a history that had none. */
  lemma NoTerminatorExtends(h: seq<byte>, w: seq<byte>, data: seq<byte>)
    requires |h| >= 4 && w == LastFour(h)
    requires forall j :: 0 <= j <= |h| ==> !TerminatorEndsAt(h, j)
    requires forall k :: 0 <= k < |data| ==> !EndsAt(w, data, k)
    ensures forall j :: 0 <= j <= |h + data| ==> !TerminatorEndsAt(h + data, j)
  {
    forall j | 0 <= j <= |h + data| && TerminatorEndsAt(h + data, j)
      ensures false
    {
      if j <= |h| {
        assert (h + data)[j - 4..j] == h[j - 4..j];
        assert TerminatorEndsAt(h, j);
      } else {
        EndsAtInHistory(h, data, j - |h| - 1);
      }
    }
  }

  /**
    Header history `ZEROS + buf` with window `w` and no terminator: scanning a
    chunk that completes none gives the window over, and no terminator in,
    the longer history.
   */
  lemma HistoryExtends(buf: seq<byte>, w: seq<byte>, data: seq<byte>)
    requires w == LastFour(ZEROS + buf)
    requires forall j :: 0 <= j <= |ZEROS + buf| ==> !TerminatorEndsAt(ZEROS + buf, j)
    requires forall k :: 0 <= k < |data| ==> !EndsAt(w, data, k)
    ensures LastFour(w + data) == LastFour(ZEROS + (buf + data))
    ensures forall j :: 0 <= j <= |ZEROS + (buf + data)| ==> !TerminatorEndsAt(ZEROS + (buf + data), j)
  {
    var h := ZEROS + buf;
    assert h + data == ZEROS + (buf + data);
    LastFourAppend(h, data);
    NoTerminatorExtends(h, w, data);
  }
}

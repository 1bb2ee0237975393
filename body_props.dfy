/**
  Body bytes survive the parser unchanged. Inside a part's body the parser
  holds back the bytes that may begin a delimiter; if the delimiter does not
  follow, it hands them back as body bytes. Over any run of `parseNext` that
  stays in the body, the bytes held back before, followed by the bytes
  consumed, are the body bytes delivered followed by the bytes held back
  after: none is lost, altered or reordered. A run that ends the body does
  the same up to the delimiter that ends it, which is not delivered.
 */
module BodyProps {
  import opened Bytes
  import opened MultipartTypes
  import opened Scanners
  import opened BoundaryProps
  import opened DataProps

  /** The parser is inside a part's body: passing body bytes, or matching what may be a delimiter. */
  predicate InBody(c: Cursor)
  {
    c.state == Data || (c.state == Boundary && c.readingBody)
  }

  /** The bytes held back in the cursor: delimiter bytes matched inside a body, which are body bytes if the match fails. */
  function Pending(cfg: Config, c: Cursor): (r: seq<byte>)
    requires Inv(cfg, c)
    ensures |r| < |Sample(cfg, c.partIndex)|
  {
    if c.state == Boundary && c.readingBody then Sample(cfg, c.partIndex)[..c.boundaryCharIndex] else []
  }

  /** The body bytes of two runs of callbacks, one after the other. */
  lemma {:induction false} DataBytesAppend(a: seq<Event>, b: seq<Event>)
    ensures DataBytes(a + b) == DataBytes(a) + DataBytes(b)
    decreases |b|
  {
    if b == [] {
      assert a + b == a;
    } else {
      var front := b[..|b| - 1];
      var last := b[|b| - 1];
      var tail := if last.PartData? then last.bytes else [];
      assert (a + b)[|a + b| - 1] == last;
      assert (a + b)[..|a + b| - 1] == a + front;
      assert DataBytes(a + b) == DataBytes(a + front) + tail;
      assert DataBytes(b) == DataBytes(front) + tail;
      DataBytesAppend(a, front);
      assert DataBytes(a) + DataBytes(front) + tail == DataBytes(a) + (DataBytes(front) + tail);
    }
  }

  /** The events are all `PartData` callbacks. */
  predicate OnlyData(events: seq<Event>)
  {
    forall k :: 0 <= k < |events| ==> events[k].PartData?
  }

  /**
    What one scanner call inside a body does with the bytes: it delivers only
    body bytes, and either stays in the body, with the held-back bytes and
    the consumed bytes equal to the delivered bytes and the bytes held back
    afterwards, or completes a delimiter: the held-back bytes and the
    consumed bytes are then exactly the delimiter, and nothing is delivered.
   */
  predicate KeepsBody(cfg: Config, c: Cursor, data: seq<byte>, s: Step)
    requires Inv(cfg, c)
  {
    s.verdict.Consumed? && s.verdict.n <= |data| && Inv(cfg, s.next) && OnlyData(s.emitted) &&
    ((InBody(s.next) &&
      Pending(cfg, c) + data[..s.verdict.n] == DataBytes(s.emitted) + Pending(cfg, s.next)) ||
     (s.next.state == AfterBoundary && s.emitted == [] &&
      Pending(cfg, c) + data[..s.verdict.n] == Sample(cfg, c.partIndex)))
  }

  /** The data scanner keeps the body: it holds nothing back and delivers what it consumes. */
  lemma DataKeepsBody(cfg: Config, c: Cursor, data: seq<byte>)
    requires Inv(cfg, c) && c.state == Data
    ensures KeepsBody(cfg, c, data, DataStep(cfg, c, data))
  {
    DataStepOk(cfg, c, data);
    DataDeliversConsumed(cfg, c, data);
  }

  /**
    The boundary scanner inside a body keeps the body: a match holds the
    matched bytes back, a completed delimiter is exactly the delimiter, and a
    mismatch hands the held-back bytes back as body bytes.
   */
  lemma BoundaryKeepsBody(cfg: Config, c: Cursor, data: seq<byte>)
    requires Inv(cfg, c) && c.state == Boundary && c.readingBody && |data| > 0
    ensures KeepsBody(cfg, c, data, BoundaryStep(cfg, c, data))
  {
    BoundaryStepOk(cfg, c, data);
    var sample := Sample(cfg, c.partIndex);
    var i := c.boundaryCharIndex;
    var rest := RestOfSample(cfg, c);
    if rest <= data {
      BoundaryCompletes(cfg, c, data);
      assert sample[..i] + data[..|rest|] == sample;
    } else if data < rest {
      BoundaryContinues(cfg, c, data);
      assert data[..|data|] == data;
      assert sample[..i] + data == sample[..i + |data|];
    } else {
      BoundaryMismatch(cfg, c, data);
      assert data[..0] == [];
      if i > 0 {
        assert DataBytes([PartData(sample[..i])]) == DataBytes([]) + sample[..i];
      }
    }
  }

  /** Every scanner call inside a body keeps the body. */
  lemma BodyStep(cfg: Config, c: Cursor, data: seq<byte>)
    requires Inv(cfg, c) && InBody(c) && |data| > 0
    ensures KeepsBody(cfg, c, data, Scan(cfg, c, data))
  {
    if c.state == Data {
      DataKeepsBody(cfg, c, data);
    } else {
      BoundaryKeepsBody(cfg, c, data);
    }
  }

  /** Some event is a `PartHeaders` callback. */
  predicate Announces(events: seq<Event>)
  {
    exists k :: 0 <= k < |events| && events[k].PartHeaders?
  }

  /** A `PartHeaders` callback stays among the events when others come before it. */
  lemma AnnouncesAppend(e1: seq<Event>, e2: seq<Event>)
    requires Announces(e2)
    ensures Announces(e1 + e2) && !OnlyData(e1 + e2)
  {
    var k :| 0 <= k < |e2| && e2[k].PartHeaders?;
    assert (e1 + e2)[|e1| + k] == e2[k];
  }

  /** The later part of a run of `PartData` callbacks is one too. */
  lemma OnlyDataSuffix(e1: seq<Event>, e2: seq<Event>)
    requires OnlyData(e1 + e2)
    ensures OnlyData(e2)
  {
    forall k | 0 <= k < |e2|
      ensures e2[k].PartData?
    {
      assert (e1 + e2)[|e1| + k] == e2[k];
    }
  }

  /** Two stretches that each deliver what they consume, held back bytes included, join into one. */
  lemma JoinDelivered(p0: seq<byte>, a: seq<byte>, b: seq<byte>, e1: seq<Event>, e2: seq<Event>, p1: seq<byte>, p2: seq<byte>)
    requires p0 + a == DataBytes(e1) + p1
    requires p1 + b == DataBytes(e2) + p2
    ensures p0 + (a + b) == DataBytes(e1 + e2) + p2
  {
    DataBytesAppend(e1, e2);
    assert p0 + (a + b) == (p0 + a) + b;
    assert (DataBytes(e1) + p1) + b == DataBytes(e1) + (p1 + b);
    assert DataBytes(e1) + (DataBytes(e2) + p2) == (DataBytes(e1) + DataBytes(e2)) + p2;
  }

  /**
    A run of the dispatcher that starts outside the body and ends inside it
    has passed a header section: a `PartHeaders` callback is among its events.
   */
  lemma {:induction false} ReenteringBodyAnnounces(cfg: Config, c: Cursor, data: seq<byte>, pos: nat)
    requires Inv(cfg, c) && !InBody(c) && pos <= |data| + 1
    ensures var r := Resume(cfg, c, data, pos);
            r.verdict.Consumed? && InBody(r.next) ==> Announces(r.emitted)
    decreases |data| - pos, Rank(c)
  {
    if pos < |data| && c.state != Done {
      var s := DispatchOnce(cfg, c, data, pos);
      if s.verdict.Consumed? {
        var rest := Resume(cfg, s.next, data, pos + s.verdict.n);
        if InBody(s.next) {
          assert s.emitted == [PartHeaders(s.next.partName)];
          assert (s.emitted + rest.emitted)[0].PartHeaders?;
        } else {
          ReenteringBodyAnnounces(cfg, s.next, data, pos + s.verdict.n);
          if rest.verdict.Consumed? && InBody(rest.next) {
            AnnouncesAppend(s.emitted, rest.emitted);
          }
        }
      }
    }
  }

  /**
    False-boundary immunity for a run `r` of the dispatcher from `pos`: if
    it ends inside a body having made only `PartData` callbacks, the bytes
    held back before it and the bytes it consumed are the bytes it delivered
    and the bytes it holds back at its end.
   */
  predicate RunKeepsBody(cfg: Config, c: Cursor, data: seq<byte>, pos: nat, r: Step)
    requires Inv(cfg, c) && pos <= |data|
  {
    r.verdict.Consumed? && InBody(r.next) && OnlyData(r.emitted) ==>
      pos <= r.verdict.n <= |data| && Inv(cfg, r.next) &&
      Pending(cfg, c) + data[pos..r.verdict.n] == DataBytes(r.emitted) + Pending(cfg, r.next)
  }

  /** A scanner call that stays in the body, followed by a run that keeps it, keeps it. */
  lemma StayThenRun(cfg: Config, c: Cursor, data: seq<byte>, pos: nat, s: Step, rest: Step)
    requires Inv(cfg, c) && pos < |data| && KeepsBody(cfg, c, data[pos..], s) && InBody(s.next)
    requires RunKeepsBody(cfg, s.next, data, pos + s.verdict.n, rest)
    ensures RunKeepsBody(cfg, c, data, pos, Prepend(s.emitted, rest))
  {
    var m := pos + s.verdict.n;
    if rest.verdict.Consumed? && InBody(rest.next) && OnlyData(s.emitted + rest.emitted) {
      OnlyDataSuffix(s.emitted, rest.emitted);
      var end := rest.verdict.n;
      assert data[pos..][..s.verdict.n] == data[pos..m];
      assert data[pos..end] == data[pos..m] + data[m..end];
      JoinDelivered(Pending(cfg, c), data[pos..m], data[m..end], s.emitted, rest.emitted,
                    Pending(cfg, s.next), Pending(cfg, rest.next));
    }
  }

  /** A run that re-enters the body only through a header section cannot end in the body with only `PartData` callbacks. */
  lemma LeaveThenRun(cfg: Config, c: Cursor, data: seq<byte>, pos: nat, emitted: seq<Event>, rest: Step)
    requires Inv(cfg, c) && pos <= |data|
    requires rest.verdict.Consumed? && InBody(rest.next) ==> Announces(rest.emitted)
    ensures RunKeepsBody(cfg, c, data, pos, Prepend(emitted, rest))
  {
    if rest.verdict.Consumed? && InBody(rest.next) {
      AnnouncesAppend(emitted, rest.emitted);
    }
  }

  /**
    False-boundary immunity over a run of the dispatcher: a run from inside
    a body that ends inside a body and makes only `PartData` callbacks has
    delivered every byte it consumed, in order, after the bytes held back
    before it, except those it holds back at its end.
   */
  lemma {:induction false} BodyRunDelivers(cfg: Config, c: Cursor, data: seq<byte>, pos: nat)
    requires Inv(cfg, c) && InBody(c) && pos <= |data|
    ensures RunKeepsBody(cfg, c, data, pos, Resume(cfg, c, data, pos))
    decreases |data| - pos, Rank(c)
  {
    if pos == |data| {
      DispatchStops(cfg, c, data, pos);
      assert data[pos..pos] == [];
    } else {
      var s := DispatchOnce(cfg, c, data, pos);
      BodyStep(cfg, c, data[pos..]);
      var m := pos + s.verdict.n;
      if InBody(s.next) {
        BodyRunDelivers(cfg, s.next, data, m);
        StayThenRun(cfg, c, data, pos, s, Resume(cfg, s.next, data, m));
      } else {
        ReenteringBodyAnnounces(cfg, s.next, data, m);
        LeaveThenRun(cfg, c, data, pos, s.emitted, Resume(cfg, s.next, data, m));
      }
    }
  }

  /**
    `parseNext` inside a body: when the call stays in the body and makes only
    `PartData` callbacks, the bytes held back before the call followed by the
    consumed bytes are the delivered body bytes followed by the bytes held
    back after it.
   */
  lemma ParseNextBodyDelivers(cfg: Config, c: Cursor, data: seq<byte>)
    requires Inv(cfg, c) && InBody(c)
    ensures var r := ParseNext(cfg, c, data);
            r.verdict.Consumed? && InBody(r.next) && OnlyData(r.emitted) ==>
              r.verdict.n <= |data| && Inv(cfg, r.next) &&
              Pending(cfg, c) + data[..r.verdict.n] == DataBytes(r.emitted) + Pending(cfg, r.next)
  {
    BodyRunDelivers(cfg, c, data, 0);
    assert data[0..] == data;
  }

  /** A scanner call inside a body keeps the part index, and with it the delimiter expected. */
  lemma BodyStepKeepsPart(cfg: Config, c: Cursor, data: seq<byte>)
    requires Inv(cfg, c) && InBody(c) && |data| > 0
    ensures Scan(cfg, c, data).next.partIndex == c.partIndex
  {
  }

  /** Two runs of `PartData` callbacks, one after the other, are one. */
  lemma OnlyDataAppend(e1: seq<Event>, e2: seq<Event>)
    requires OnlyData(e1) && OnlyData(e2)
    ensures OnlyData(e1 + e2)
  {
    forall k | 0 <= k < |e1 + e2|
      ensures (e1 + e2)[k].PartData?
    {
      if k >= |e1| {
        assert (e1 + e2)[k] == e2[k - |e1|];
      }
    }
  }

  /** A `PartHeaders` callback after a run of `PartData` callbacks lies in what follows them. */
  lemma AnnouncesAfterData(e1: seq<Event>, e2: seq<Event>)
    requires OnlyData(e1) && Announces(e1 + e2)
    ensures Announces(e2)
  {
    var k :| 0 <= k < |e1 + e2| && (e1 + e2)[k].PartHeaders?;
    assert (e1 + e2)[k] == e2[k - |e1|];
  }

  /**
    The run `r` from `pos` leaves the body at `m`: up to `m` it made only the
    `PartData` callbacks `e`, which carry exactly the bytes held back before
    it and the consumed bytes, less the delimiter that ends them; it then
    stands after the delimiter in `c'`, and the rest of `r` is the run from
    there.
   */
  predicate LeavesAt(cfg: Config, c: Cursor, data: seq<byte>, pos: nat, r: Step, m: nat, e: seq<Event>, c': Cursor)
    requires Inv(cfg, c) && pos <= |data|
  {
    pos < m <= |data| && Inv(cfg, c') && c'.state == AfterBoundary && OnlyData(e) &&
    Pending(cfg, c) + data[pos..m] == DataBytes(e) + Sample(cfg, c.partIndex) &&
    r == Prepend(e, Resume(cfg, c', data, m))
  }

  /** `JoinDelivered` for two adjacent slices of one chunk. */
  lemma JoinSlices(p0: seq<byte>, data: seq<byte>, pos: nat, m1: nat, m: nat, e1: seq<Event>, e2: seq<Event>,
                   p1: seq<byte>, p2: seq<byte>)
    requires pos <= m1 <= m <= |data|
    requires p0 + data[pos..m1] == DataBytes(e1) + p1
    requires p1 + data[m1..m] == DataBytes(e2) + p2
    ensures p0 + data[pos..m] == DataBytes(e1 + e2) + p2
  {
    assert data[pos..m] == data[pos..m1] + data[m1..m];
    JoinDelivered(p0, data[pos..m1], data[m1..m], e1, e2, p1, p2);
  }

  /** A scanner call that stays in the body, followed by a run that leaves it at `m`, leaves it at `m`. */
  lemma StayThenLeave(cfg: Config, c: Cursor, data: seq<byte>, pos: nat, s: Step, rest: Step,
                      m: nat, e: seq<Event>, c': Cursor)
    requires Inv(cfg, c) && pos < |data| && KeepsBody(cfg, c, data[pos..], s) && InBody(s.next)
    requires s.next.partIndex == c.partIndex
    requires LeavesAt(cfg, s.next, data, pos + s.verdict.n, rest, m, e, c')
    ensures LeavesAt(cfg, c, data, pos, Prepend(s.emitted, rest), m, s.emitted + e, c')
  {
    assert data[pos..][..s.verdict.n] == data[pos..pos + s.verdict.n];
    JoinSlices(Pending(cfg, c), data, pos, pos + s.verdict.n, m, s.emitted, e,
               Pending(cfg, s.next), Sample(cfg, c.partIndex));
    OnlyDataAppend(s.emitted, e);
    PrependTwice(s.emitted, e, Resume(cfg, c', data, m));
  }

  /** A scanner call that completes a delimiter leaves the body right after it. */
  lemma StepLeaves(cfg: Config, c: Cursor, data: seq<byte>, pos: nat, s: Step, rest: Step)
    requires Inv(cfg, c) && InBody(c) && pos < |data| && KeepsBody(cfg, c, data[pos..], s) && !InBody(s.next)
    requires rest == Resume(cfg, s.next, data, pos + s.verdict.n)
    ensures LeavesAt(cfg, c, data, pos, Prepend(s.emitted, rest), pos + s.verdict.n, s.emitted, s.next)
  {
    var m := pos + s.verdict.n;
    assert data[pos..][..s.verdict.n] == data[pos..m];
    assert DataBytes(s.emitted) == [];
  }

  /**
    False-boundary immunity up to the delimiter that ends a body, for a run
    `r` from `pos`: if it fails, ends outside the body or passes a header
    section, it first leaves the body at some `m`.
   */
  ghost predicate ReachesDelimiter(cfg: Config, c: Cursor, data: seq<byte>, pos: nat, r: Step)
    requires Inv(cfg, c) && pos <= |data|
  {
    r.verdict.Failed? || !InBody(r.next) || Announces(r.emitted) ==>
      exists m, e, c' :: LeavesAt(cfg, c, data, pos, r, m, e, c')
  }

  /** A scanner call that stays in the body, followed by a run that reaches the delimiter, reaches it. */
  lemma StayThenReach(cfg: Config, c: Cursor, data: seq<byte>, pos: nat, s: Step, rest: Step)
    requires Inv(cfg, c) && pos < |data| && KeepsBody(cfg, c, data[pos..], s) && InBody(s.next)
    requires s.next.partIndex == c.partIndex
    requires ReachesDelimiter(cfg, s.next, data, pos + s.verdict.n, rest)
    ensures ReachesDelimiter(cfg, c, data, pos, Prepend(s.emitted, rest))
  {
    var r := Prepend(s.emitted, rest);
    if r.verdict.Failed? || !InBody(r.next) || Announces(r.emitted) {
      if Announces(s.emitted + rest.emitted) {
        AnnouncesAfterData(s.emitted, rest.emitted);
      }
      var m, e, c' :| LeavesAt(cfg, s.next, data, pos + s.verdict.n, rest, m, e, c');
      StayThenLeave(cfg, c, data, pos, s, rest, m, e, c');
    }
  }

  /**
    False-boundary immunity up to the delimiter that ends a body: a run from
    inside a body that fails, leaves the body or passes a header section
    first reaches the end of the body at some `m`. The body bytes it
    delivered up to there are exactly the bytes held back before it and the
    bytes it consumed, less that delimiter.
   */
  lemma {:induction false} BodyRunToDelimiter(cfg: Config, c: Cursor, data: seq<byte>, pos: nat)
    requires Inv(cfg, c) && InBody(c) && pos <= |data|
    ensures ReachesDelimiter(cfg, c, data, pos, Resume(cfg, c, data, pos))
    decreases |data| - pos, Rank(c)
  {
    if pos == |data| {
      DispatchStops(cfg, c, data, pos);
    } else {
      var s := DispatchOnce(cfg, c, data, pos);
      BodyStep(cfg, c, data[pos..]);
      var m1 := pos + s.verdict.n;
      var rest := Resume(cfg, s.next, data, m1);
      if InBody(s.next) {
        BodyStepKeepsPart(cfg, c, data[pos..]);
        BodyRunToDelimiter(cfg, s.next, data, m1);
        StayThenReach(cfg, c, data, pos, s, rest);
      } else {
        StepLeaves(cfg, c, data, pos, s, rest);
      }
    }
  }

  /**
    `parseNext` from inside a body: when the call fails, ends outside the
    body or passes a header section, it first delivered the body bytes held
    back before it and consumed up to some `m`, less the delimiter ending
    them, and the rest of the call runs from just after that delimiter.
   */
  lemma ParseNextToDelimiter(cfg: Config, c: Cursor, data: seq<byte>)
    requires Inv(cfg, c) && InBody(c)
    ensures var r := ParseNext(cfg, c, data);
            r.verdict.Failed? || !InBody(r.next) || Announces(r.emitted) ==>
              exists m, e, c' :: LeavesAt(cfg, c, data, 0, r, m, e, c')
  {
    BodyRunToDelimiter(cfg, c, data, 0);
    assert Resume(cfg, c, data, 0) == ParseNext(cfg, c, data);
  }
}

/** The scanner's offsets mean what the byte-string definitions say: its ranges are
    the payload, its stops are the verdict, and the offsets the parser derives from
    them are the recording cut, the read limit, and a point reading may resume at. */
module ScanMeaning {
  import opened Bytes
  import opened Framing
  import opened ChunkedBody

  function Size(r: Range): nat {
    if r.start <= r.end then r.end - r.start else 0
  }

  function Total(ps: seq<Range>): nat {
    if ps == [] then 0 else Size(ps[0]) + Total(ps[1..])
  }

  predicate Within(b: seq<byte>, ps: seq<Range>) {
    forall r :: r in ps ==> r.start <= r.end <= |b|
  }

  function Gather(b: seq<byte>, ps: seq<Range>): (r: seq<byte>)
    requires Within(b, ps)
    ensures |r| == Total(ps)
  {
    if ps == [] then [] else b[ps[0].start..ps[0].end] + Gather(b, ps[1..])
  }

  /** The complete chunks' ranges, then the partial one's. */
  function Spans(s: PayloadScan): seq<Range> {
    s.payloads + if s.partial.Some? then [s.partial.value] else []
  }

  /** One round of the scan, stated on what it returns. */
  lemma ScanStep(b: seq<byte>, i: nat, left: nat)
    requires i <= |b|
    ensures StepAt(b[i..], left).Chunk? ==>
      var step := StepAt(b[i..], left);
      && AfterChunk(step, i) <= |b|
      && Tail(b[i..], left) == b[AfterChunk(step, i)..]
      && ChunkRange(step, i).start < ChunkRange(step, i).end <= |b|
      && Data(b[i..], left) == b[ChunkRange(step, i).start..ChunkRange(step, i).end]
  {
    hide ScanSizeLine, DataStep;
  }

  lemma GatherCons(b: seq<byte>, r: Range, ps: seq<Range>)
    requires Within(b, [r] + ps)
    ensures Within(b, ps) && r.start <= r.end <= |b|
    ensures Gather(b, [r] + ps) == b[r.start..r.end] + Gather(b, ps)
  {
    assert r in [r] + ps;
    assert forall x :: x in ps ==> x in [r] + ps;
    assert ([r] + ps)[1..] == ps;
  }

  lemma {:induction false} ScanIsPayload(b: seq<byte>, i: nat, left: nat)
    requires i <= |b| && ScanFrom(b, i, left).Scanned?
    ensures var s := ScanFrom(b, i, left).scan;
      && Within(b, Spans(s))
      && Gather(b, Spans(s)) == Payload(b[i..], left)
      && (forall r :: r in s.payloads ==> r.start < r.end)
    decreases |b| - i
  {
    hide StepAt;
    var step := StepAt(b[i..], left);
    var s := ScanFrom(b, i, left).scan;
    if step.Chunk? {
      ScanStep(b, i, left);
      ScanIsPayload(b, AfterChunk(step, i), 0);
      var t := ScanFrom(b, AfterChunk(step, i), 0).scan;
      SpansCons(s, t, ChunkRange(step, i));
      GatherCons(b, ChunkRange(step, i), Spans(t));
      hide Gather, Spans;
    } else if step.Partial? {
      assert Spans(s) == [s.partial.value] + [];
      GatherCons(b, s.partial.value, []);
    }
  }

  lemma SpansCons(s: PayloadScan, t: PayloadScan, r: Range)
    requires s.payloads == [r] + t.payloads && s.partial == t.partial
    ensures Spans(s) == [r] + Spans(t)
  {
  }

  lemma {:induction false} ScanIsVerdict(b: seq<byte>, i: nat, left: nat)
    requires i <= |b|
    ensures match ScanFrom(b, i, left)
      case ScanError(o) => i < o && VerdictOf(b[i..], left) == Malformed(o - i)
      case Scanned(s) =>
        if s.end.Some? then i <= s.end.value && VerdictOf(b[i..], left) == Complete(s.end.value - i)
        else VerdictOf(b[i..], left) == Open
    decreases |b| - i
  {
    hide StepAt;
    var step := StepAt(b[i..], left);
    if step.Chunk? {
      ScanStep(b, i, left);
      ScanIsVerdict(b, AfterChunk(step, i), 0);
    }
  }

  /** What the parser relies on when it scans bytes without a framing error. */
  lemma ScanOfOpen(b: seq<byte>, left: nat)
    requires !VerdictOf(b, left).Malformed?
    ensures ScanFrom(b, 0, left).Scanned?
    ensures var s := ScanFrom(b, 0, left).scan;
      && Within(b, Spans(s)) && Gather(b, Spans(s)) == Payload(b, left)
      && (forall r :: r in s.payloads ==> r.start < r.end <= |b|)
      && (s.partial.Some? ==> s.partial.value.start <= s.partial.value.end <= |b|)
  {
    hide StepAt, VerdictOf, Payload;
    assert b[0..] == b;
    ScanIsVerdict(b, 0, left);
    ScanIsPayload(b, 0, left);
    var s := ScanFrom(b, 0, left).scan;
    assert forall r :: r in s.payloads ==> r in Spans(s);
    assert s.partial.Some? ==> s.partial.value in Spans(s);
  }

  /** The scan shows a partial chunk exactly when the bytes stop inside one. */
  lemma {:induction false} ScanShowsChunk(b: seq<byte>, i: nat, left: nat)
    requires i <= |b| && ScanFrom(b, i, left).Scanned?
    ensures ScanFrom(b, i, left).scan.partial.Some? <==> EndsInChunk(b[i..], left)
    decreases |b| - i
  {
    hide StepAt;
    if StepAt(b[i..], left).Chunk? {
      ScanStep(b, i, left);
      ScanShowsChunk(b, AfterChunk(StepAt(b[i..], left), i), 0);
    }
  }
}

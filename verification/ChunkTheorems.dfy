/** What the chunked reader's definitions promise: encodings decode, the recording is
    cut at the one place where it can be, and scans resume. */
module ChunkTheorems {
  import opened Bytes
  import opened Framing
  import opened Stability
  import opened ChunkedBody
  import opened ScanMeaning
  import opened ChunkLimits
  import opened RequestParser
  import opened Streams

  // ---- resuming a scan ----

  /** Appending bytes never changes the completed ranges, a found end or an error;
      and a scan of everything is the completed ranges followed by a scan from
      `resumeFrom`. */
  lemma {:induction false} ScanResumes(b: seq<byte>, c: seq<byte>, i: nat, left: nat)
    requires i <= |b|
    ensures match ScanFrom(b, i, left)
      case ScanError(o) => ScanFrom(b + c, i, left) == ScanError(o)
      case Scanned(s) =>
        if s.end.Some? then ScanFrom(b + c, i, left) == Scanned(s)
        else
          && s.resumeFrom <= |b|
          && ScanFrom(b + c, i, left) ==
               Prepend(s.payloads, ScanFrom(b + c, s.resumeFrom, if s.payloads == [] then left else 0))
    decreases |b| - i
  {
    hide StepAt;
    var step := StepAt(b[i..], left);
    assert (b + c)[i..] == b[i..] + c;
    if step.Chunk? {
      ExtendChunk(b[i..], c, left);
      ScanStep(b, i, left);
      var next := AfterChunk(step, i);
      ScanResumes(b, c, next, 0);
      if ScanFrom(b, next, 0).Scanned? && ScanFrom(b, next, 0).scan.end.None? {
        var s := ScanFrom(b, next, 0).scan;
        PrependTwice([ChunkRange(step, i)], s.payloads, ScanFrom(b + c, s.resumeFrom, 0));
      }
    } else if step.Decided() {
      ExtendChunk(b[i..], c, left);
    }
  }

  /** After a partial chunk was consumed whole, scanning only the bytes that follow,
      with `data_left`, gives the same payload, end and error as scanning it all. */
  lemma ScanWithDataLeft(b: seq<byte>, c: seq<byte>, left: nat)
    requires ScanFrom(b, 0, left).Scanned?
    requires var s := ScanFrom(b, 0, left).scan;
      s.partial.Some? && s.dataLeft > 0 && Size(s.partial.value) > 0
    ensures var more := ScanFrom(b, 0, left).scan.dataLeft;
      && Payload(b + c, left) == Payload(b, left) + Payload(c, more)
      && VerdictOf(b + c, left) == VerdictOf(c, more).Later(|b|)
  {
    hide StepAt, Payload, VerdictOf;
    assert b[0..] == b;
    ResumeInside(b, 0, left);
    PayloadExtends(b, c, left);
    VerdictExtends(b, c, left);
  }

  // ---- the recording cut ----

  /** A kept wire ends where reading may resume and has exactly its room of payload. */
  lemma {:induction false} KeepResumes(b: seq<byte>, left: nat, room: nat)
    requires |Payload(b, left)| > room
    ensures Resumes(b[..Keep(b, left, room)], left).Some?
    ensures |Payload(b[..Keep(b, left, room)], left)| == room
    decreases |b|
  {
    hide StepAt;
    var k := Keep(b, left, room);
    if |Data(b, left)| > room {
      if room == 0 {
        assert b[..0] == [];
      } else {
        InsideChunk(b, k, left);
      }
    } else if StepAt(b, left).Chunk? {
      KeepResumes(Tail(b, left), 0, room - |Data(b, left)|);
      CutChunk(b, k, left);
    }
  }

  /** Whatever is read past a point where reading may resume starts with payload. */
  lemma ResumedHasPayload(x: seq<byte>, left: nat)
    requires x != [] && Resumes(x, left).Some?
    ensures |Payload(x, left)| > 0
  {
    hide StepAt;
  }

  /** The kept wire is the only prefix that holds the first `n` payload bytes and
      stops where reading may resume: after byte `n` itself, plus its chunk's CRLF
      when it ends the chunk, and before any later size line. */
  lemma RecordingCut(b: seq<byte>, n: nat, k: nat)
    requires |Payload(b, 0)| > n && k <= |b|
    ensures k == Keep(b, 0, n) <==>
      Resumes(b[..k], 0).Some? && Payload(b[..k], 0) == Payload(b, 0)[..n]
  {
    hide StepAt, Payload, Resumes;
    var m := Keep(b, 0, n);
    KeepResumes(b, 0, n);
    PayloadGrows(b[..m], b[m..], 0);
    assert b[..m] + b[m..] == b;
    if Resumes(b[..k], 0).Some? && Payload(b[..k], 0) == Payload(b, 0)[..n] {
      if k < m {
        SameSizeSamePlace(b, k, m);
      } else if m < k {
        SameSizeSamePlace(b, m, k);
      }
    }
  }

  lemma SameSizeSamePlace(b: seq<byte>, j: nat, k: nat)
    requires j < k <= |b| && Resumes(b[..j], 0).Some? && Resumes(b[..k], 0).Some?
    ensures |Payload(b[..j], 0)| < |Payload(b[..k], 0)|
  {
    hide StepAt, Payload, Resumes;
    var x := b[j..k];
    assert b[..k] == b[..j] + x;
    PayloadExtends(b[..j], x, 0);
    ResumesExtends(b[..j], x, 0);
    ResumedHasPayload(x, Resumes(b[..j], 0).value);
  }

  // ---- the read limit ----

  /** Whether a read limit's stop is settled by the stream: its payload is not the limit,
      or it has a framing error, or it stops inside a chunk. */
  ghost predicate Settled(s: seq<byte>, limit: nat) {
    |Payload(s, 0)| != limit || VerdictOf(s, 0).Malformed? || EndsInChunk(s, 0)
  }

  /** With the stop settled, the stream alone decides it: below the limit it is that of
      an unlimited parse; otherwise the parse stops short of the message boundary, with
      exactly the limit delivered, and a framing error is not reported. */
  lemma LimitedStop(s: seq<byte>, limit: nat, taken: seq<byte>, arrived: seq<nat>, stop: ParseStop, complete: bool,
      atEnd: ReadStatus)
    requires limit > 0 && !atEnd.DataRead? && Settled(s, limit)
    requires StopsRight(s, Some(limit), taken, stop, complete, atEnd)
    requires StopsWhereCut(s, Some(limit), taken, arrived, stop, complete)
    ensures |Payload(s, 0)| < limit ==> StopsRight(s, None, taken, stop, complete, atEnd)
    ensures |Payload(s, 0)| >= limit ==> stop == StageComplete && !complete && |Payload(taken, 0)| == limit
  {
    hide VerdictOf, Payload, EndsInChunk;
    if !VerdictOf(s, 0).Open? {
      StopSegment(s, 0);
      assert taken == s[..|taken|];
    }
    if EndsInChunk(s, 0) {
      InChunkIsOpen(s, 0);
      assert s[..|s|] == s;
    }
  }

  /** A body without payload that does not end in a chunk has no chunk at all. */
  lemma {:induction false} NoChunkIn(t: seq<byte>)
    requires Payload(t, 0) == [] && !EndsInChunk(t, 0) && !VerdictOf(t, 0).Malformed?
    ensures var step := StepAt(t, 0); !step.Chunk? && !step.Partial? && !step.BadTerminator?
  {
    hide StepAt;
  }

  /** Nor does any prefix of it. */
  lemma {:induction false} NoChunkBefore(t: seq<byte>, k: nat)
    requires Payload(t, 0) == [] && !EndsInChunk(t, 0) && !VerdictOf(t, 0).Malformed? && k <= |t|
    ensures !EndsInChunk(t[..k], 0) && !StepAt(t, 0).Chunk?
  {
    NoChunkIn(t);
    hide StepAt, Payload, VerdictOf;
    var q := t[..k];
    assert q + t[k..] == t;
    if StepAt(q, 0).Chunk? {
      ExtendChunk(q, t[k..], 0);
    } else if StepAt(q, 0).Partial? {
      PartialStays(q, t[k..], 0);
    }
  }

  /** Cut before its end, a chunk has all of its data only within its CRLF. */
  lemma CutInFirst(s: seq<byte>, m: nat, n: nat)
    requires StepAt(s, 0).Chunk? && m < HeadSize(s, 0) && n >= |Data(s, 0)|
    ensures CutHere(s[..m], n) <==> n == |Data(s, 0)| && m + 2 >= HeadSize(s, 0)
  {
    hide StepAt;
    var step, q := StepAt(s, 0), s[..m];
    assert q + s[m..] == s;
    if StepAt(q, 0).Chunk? { ExtendChunk(q, s[m..], 0); }
    if m + 2 >= HeadSize(s, 0) {
      StepInside(s, step.dataEnd, 0);
      var full := s[..step.dataEnd];
      assert q == full + q[step.dataEnd..];
      PartialStays(full, q[step.dataEnd..], 0);
    } else if StepAt(q, 0).Partial? {
      PartialStays(q, s[m..], 0);
    }
  }

  lemma {:induction false} PayloadHasChunks(s: seq<byte>)
    requires |Payload(s, 0)| > 0 && !VerdictOf(s, 0).Malformed? && !EndsInChunk(s, 0)
    ensures StepAt(s, 0).Chunk? && |Data(s, 0)| > 0 && ChunksSize(s, 0) > 2
  {
    hide StepAt;
  }

  /** In an unsettled stream the arrivals that stop a parse are two: right after the last
      payload byte, and inside its CRLF. */
  lemma {:induction false} CutPoints(s: seq<byte>, n: nat, m: nat)
    requires n == |Payload(s, 0)| > 0 && !VerdictOf(s, 0).Malformed? && !EndsInChunk(s, 0) && m <= |s|
    ensures CutHere(s[..m], n) <==> m + 2 == ChunksSize(s, 0) || m + 1 == ChunksSize(s, 0)
    decreases |s|
  {
    hide StepAt, Data;
    PayloadHasChunks(s);
    var h, t, d := HeadSize(s, 0), Tail(s, 0), |Data(s, 0)|;
    if |Payload(t, 0)| == 0 {
      NoChunkBefore(t, if m >= h then m - h else 0);
    } else {
      PayloadHasChunks(t);
    }
    if m < h {
      CutInFirst(s, m, n);
    } else {
      CutChunk(s, m, 0);
      if |Payload(t, 0)| > 0 { CutPoints(t, n - d, m - h); }
    }
  }

  /** Exactly when the stop is not settled by the stream: it comes early if and only if
      some scan saw the stream cut right after its last payload byte or inside that
      byte's CRLF; otherwise it is that of an unlimited parse. */
  lemma StopsEarlyIff(s: seq<byte>, limit: nat, taken: seq<byte>, arrived: seq<nat>, stop: ParseStop, complete: bool,
      atEnd: ReadStatus)
    requires limit > 0 && !atEnd.DataRead? && !Settled(s, limit)
    requires StopsRight(s, Some(limit), taken, stop, complete, atEnd)
    requires StopsWhereCut(s, Some(limit), taken, arrived, stop, complete)
    ensures var end := ChunksSize(s, 0);
      var cut := exists i :: 0 <= i < |arrived| && (arrived[i] + 2 == end || arrived[i] + 1 == end);
      && (cut ==> stop == StageComplete && !complete)
      && (!cut ==> StopsRight(s, None, taken, stop, complete, atEnd))
  {
    hide VerdictOf, Payload, EndsInChunk, ChunksSize, CutHere;
    forall m: nat | m <= |s|
      ensures CutHere(s[..m], limit) <==> m + 2 == ChunksSize(s, 0) || m + 1 == ChunksSize(s, 0)
    {
      CutPoints(s, limit, m);
    }
    if exists i :: 0 <= i < |arrived| && (arrived[i] + 2 == ChunksSize(s, 0) || arrived[i] + 1 == ChunksSize(s, 0)) {
      var i :| 0 <= i < |arrived| && (arrived[i] + 2 == ChunksSize(s, 0) || arrived[i] + 1 == ChunksSize(s, 0));
      assert arrived[i] <= |s|;
      assert CutHere(s[..arrived[i]], limit);
    }
  }

  datatype Parse = Parse(stop: ParseStop, complete: bool, taken: seq<byte>)

  /** What a parse keeps to under a read limit when the body arrives in these pieces. */
  ghost predicate ParseOf(pieces: seq<seq<byte>>, limit: nat, ending: Ending, r: Parse) {
    && StopsRight(Join(pieces), Some(limit), r.taken, r.stop, r.complete, StatusAt(ending))
    && exists arrived ::
         Arrivals(arrived, 0, pieces) && StopsWhereCut(Join(pieces), Some(limit), r.taken, arrived, r.stop, r.complete)
  }

  method ParsePieces(pieces: seq<seq<byte>>, limit: nat, ending: Ending) returns (r: Parse)
    requires forall i :: 0 <= i < |pieces| ==> pieces[i] != []
    ensures ParseOf(pieces, limit, ending, r)
  {
    hide StepAt, Payload, VerdictOf, Keep, Join, StopsRight, StopsWhereCut, Arrivals;
    var reader := new ByteStream(pieces, ending);
    var parser := new AsyncRequestParser(1, None, false, [], []);
    NothingFed([], 0);
    assert [] + reader.Logical() == Join(pieces);
    var stop, taken, arrived := parser.ParseChunkedBody(reader, [], Some(limit), [], []);
    assert parser.sink == taken;
    r := Parse(stop, parser.isComplete, parser.sink);
  }

  /** The stream in two reads, the first up to its last payload byte. */
  function CutAtPayload(s: seq<byte>): seq<seq<byte>>
    requires ChunksSize(s, 0) >= 2
  {
    [s[..ChunksSize(s, 0) - 2], s[ChunksSize(s, 0) - 2..]]
  }

  /** The read that ends right after the last payload byte makes any parse stop early. */
  lemma ReadCutAtEnd(s: seq<byte>, limit: nat, ending: Ending, r: Parse)
    requires limit > 0 && !Settled(s, limit) && ChunksSize(s, 0) > 2
    requires ParseOf(CutAtPayload(s), limit, ending, r)
    ensures r.stop == StageComplete && !r.complete
  {
    hide Payload, EndsInChunk, ChunksSize, VerdictOf, CutHere;
    var cut := ChunksSize(s, 0) - 2;
    assert s[..cut] + s[cut..] == s;
    TwoPieces(s[..cut], s[cut..]);
    var arrived :|
      Arrivals(arrived, 0, CutAtPayload(s)) && StopsWhereCut(s, Some(limit), r.taken, arrived, r.stop, r.complete);
    StopsEarlyIff(s, limit, r.taken, arrived, r.stop, r.complete, StatusAt(ending));
    if |arrived| > 1 {
      assert arrived[1] + 2 == ChunksSize(s, 0);
    }
  }

  /** One read of everything makes any parse stop as without a limit. */
  lemma ReadWhole(s: seq<byte>, limit: nat, ending: Ending, r: Parse)
    requires limit > 0 && !Settled(s, limit) && ChunksSize(s, 0) > 2
    requires ParseOf([s], limit, ending, r)
    ensures StopsRight(s, None, r.taken, r.stop, r.complete, StatusAt(ending))
    ensures r.stop == StageComplete ==> r.complete
  {
    hide Payload, EndsInChunk, ChunksSize, VerdictOf, CutHere;
    OnePiece(s);
    var arrived :| Arrivals(arrived, 0, [s]) && StopsWhereCut(s, Some(limit), r.taken, arrived, r.stop, r.complete);
    forall i | 0 <= i < |arrived| ensures arrived[i] == 0 || arrived[i] == |s| {}
    StopsEarlyIff(s, limit, r.taken, arrived, r.stop, r.complete, StatusAt(ending));
  }

  lemma WaysToCut(s: seq<byte>)
    requires ChunksSize(s, 0) > 2
    ensures Join(CutAtPayload(s)) == s && forall i :: 0 <= i < |CutAtPayload(s)| ==> CutAtPayload(s)[i] != []
    ensures Join([s]) == s && s != []
  {
    hide ChunksSize;
    var a := CutAtPayload(s);
    assert a[0] + a[1] == s;
    TwoPieces(a[0], a[1]);
    OnePiece(s);
  }

  /** For every stream whose stop is not settled there are two ways of cutting it into
      reads that make the parse stop differently: early, and as without a limit. */
  method LimitStopDependsOnReads(s: seq<byte>, limit: nat, ending: Ending)
    returns (a: seq<seq<byte>>, early: Parse, b: seq<seq<byte>>, late: Parse)
    requires limit > 0 && !Settled(s, limit)
    ensures Join(a) == Join(b) == s
    ensures ParseOf(a, limit, ending, early) && ParseOf(b, limit, ending, late)
    ensures early.stop == StageComplete && !early.complete
    ensures late.stop == StageComplete ==> late.complete
    ensures StopsRight(s, None, late.taken, late.stop, late.complete, StatusAt(ending))
  {
    PayloadHasChunks(s);
    WaysToCut(s);
    hide Payload, EndsInChunk, VerdictOf, CutHere, StopsRight, StopsWhereCut, Arrivals, Settled, Join, ParseOf,
      ChunksSize, CutAtPayload;
    a, b := CutAtPayload(s), [s];
    early := ParsePieces(a, limit, ending);
    ReadCutAtEnd(s, limit, ending, early);
    late := ParsePieces(b, limit, ending);
    ReadWhole(s, limit, ending, late);
  }

  /** Such a stream: one chunk of one byte with its CRLF, under a limit of one byte. */
  lemma OneByteChunk()
    ensures !Settled([49, CR, LF, 97, CR, LF], 1)
  {
    var whole: seq<byte> := [49, CR, LF, 97, CR, LF];
    assert HexRun(whole[1..]) == 0 && whole[..1] == [49];
    assert HexValue([49]) == 16 * HexValue([]) + 1 by {
      assert [49 as byte][..0] == [];
    }
    assert StepAt(whole, 0) == Chunk(3, 4);
    assert Tail(whole, 0) == [] && Data(whole, 0) == [97];
    assert StepAt([], 0) == NeedLine;
    hide StepAt;
    assert Payload(whole, 0) == [97] + Payload([], 0) == [97];
    assert VerdictOf(whole, 0) == Open && VerdictOf([], 0) == Open;
    assert EndsInChunk(whole, 0) == EndsInChunk([], 0) == false;
  }

  lemma OnePiece(s: seq<byte>)
    ensures Join([s]) == s && [s][..0] == [] && [s][..1] == [s] && Join([]) == []
  {
    assert [s][1..] == [];
  }

  lemma TwoPieces(a: seq<byte>, b: seq<byte>)
    ensures Join([a, b]) == a + b && [a, b][..0] == [] && [a, b][..1] == [a] && Join([a]) == a && Join([]) == []
  {
    OnePiece(b);
    OnePiece(a);
    assert [a, b][1..] == [b];
  }
}

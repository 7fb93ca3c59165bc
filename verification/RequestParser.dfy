/** The request body reader: chunked and Content-Length bodies read piece by piece,
    with a limit on what is recorded and a limit on what is read. */
module RequestParser {
  import opened Bytes
  import opened Framing
  import opened ChunkedBody
  import opened ScanMeaning
  import opened ChunkLimits
  import opened Streams

  datatype ParseStop = StageComplete | StreamEnded | ParseFailed | ReadError

  /** A cancelled parse is delivered as the end of the stream would be. */
  function StopAtEnd(status: ReadStatus): ParseStop {
    match status
    case DataRead => StageComplete
    case EndOfStream => StreamEnded
    case ReadFailed => ReadError
    case ReadCancelled => StreamEnded
  }

  function Capped(limit: Option<nat>, n: nat): nat {
    if limit.Some? && limit.value < n then limit.value else n
  }

  /** What the parser is handed of `b` when its first `fed` bytes already were. */
  function Feed(b: seq<byte>, fed: nat, end: nat): seq<byte> {
    if fed <= end <= |b| then b[fed..end] else []
  }

  /** The wire bytes of `taken` that a recording limit keeps. */
  function KeptWire(limit: Option<nat>, taken: seq<byte>): seq<byte> {
    if limit.None? then taken else taken[..Keep(taken, 0, limit.value)]
  }

  /** A segment all of whose bytes belong to the message. */
  predicate AllAttributed(f: seq<byte>, left: nat) {
    VerdictOf(f, left).Attributed(|f|) == |f|
  }

  /** The recording limit treats a segment the same way wherever reads split:
      the cut of the whole is the cut of the part before it, or of the segment. */
  lemma KeptWireGrows(limit: nat, taken: seq<byte>, left: nat, f: seq<byte>)
    requires Resumes(taken, 0) == Some(left) && AllAttributed(f, left)
    requires |Payload(taken, 0)| <= limit ==> Keep(taken, 0, limit) == |taken|
    ensures var p := |Payload(taken, 0)|;
      && |Payload(taken + f, 0)| == p + |Payload(f, left)|
      && (p > limit ==> KeptWire(Some(limit), taken + f) == KeptWire(Some(limit), taken))
      && (p <= limit && p + |Payload(f, left)| <= limit ==> Keep(taken + f, 0, limit) == |taken + f|)
      && (p <= limit < p + |Payload(f, left)| ==>
            KeptWire(Some(limit), taken + f) == taken + f[..Keep(f, left, limit - p)])
  {
    hide Payload, Keep, VerdictOf, Resumes;
    PayloadExtends(taken, f, 0);
    KeepExtends(taken, f, 0, limit);
    var p := |Payload(taken, 0)|;
    if p > limit {
      assert (taken + f)[..Keep(taken, 0, limit)] == taken[..Keep(taken, 0, limit)];
    } else if |Payload(f, left)| <= limit - p {
      KeepAll(f, left, limit - p);
    } else {
      var k := Keep(f, left, limit - p);
      assert (taken + f)[..|taken| + k] == taken + f[..k];
    }
  }

  lemma JoinNone(parts: seq<seq<byte>>)
    ensures Join(parts[|parts|..]) == []
  {
  }

  /** What a parse of a chunked body starts from: the stream it reads, its read limit, the
      head on the wire, the sink's contents, the parser's input and the counters. */
  datatype Job = Job(stream: seq<byte>, limit: Option<nat>, head: seq<byte>, sunk: seq<byte>, input: seq<byte>,
                     start: Start)

  class AsyncRequestParser {
    const maxRead: nat
    const maxBodyKept: Option<nat>
    const upgraded: bool

    var bodyParts: seq<seq<byte>>
    var bodySize: nat
    var isComplete: bool
    var wire: seq<seq<byte>>
    var wireRoom: Option<nat>
    var wireCut: bool
    var chunkDataLeft: nat
    var chunkFed: nat
    var synced: nat
    var sink: seq<byte>
    var parserInput: seq<byte>

    /** The body holds what the limit keeps of `payload`, and counts all of it. */
    ghost predicate BodyHolds(payload: seq<byte>)
      reads this`bodySize, this`bodyParts
    {
      bodySize == |payload| && Join(bodyParts) == payload[..Capped(maxBodyKept, |payload|)]
    }

    /** The wire and the sink after `taken` was attributed to a request whose head
        the wire already held, on a connection whose sink already held `sunk`. */
    ghost predicate WireHolds(taken: seq<byte>, head: seq<byte>, sunk: seq<byte>)
      reads this
    {
      && synced <= |wire|
      && Join(wire) == head + KeptWire(maxBodyKept, taken)
      && (wireCut <==> maxBodyKept.Some? && |Payload(taken, 0)| > maxBodyKept.value)
      && (maxBodyKept.None? ==> wireRoom.None?)
      && (maxBodyKept.Some? && !wireCut ==>
            && wireRoom == Some(maxBodyKept.value - |Payload(taken, 0)|)
            && Keep(taken, 0, maxBodyKept.value) == |taken|)
      && (if wireCut then synced == |wire| && sink == sunk + taken
          else sink + Join(wire[synced..]) == sunk + taken)
    }

    /** A parser whose request head was read and passed to the sink. */
    constructor (maxRead: nat, maxBodyKept: Option<nat>, upgraded: bool, head: seq<byte>, sunk: seq<byte>)
      requires maxRead > 0
      ensures this.maxRead == maxRead && this.maxBodyKept == maxBodyKept && this.upgraded == upgraded
      ensures BodyHolds([]) && WireHolds([], head, sunk) && sink == sunk && synced == |wire|
      ensures chunkDataLeft == 0 && chunkFed == 0 && !isComplete && parserInput == []
    {
      this.maxRead := maxRead;
      this.maxBodyKept := maxBodyKept;
      this.upgraded := upgraded;
      bodyParts, bodySize, isComplete := [], 0, false;
      wire := [head];
      wireRoom, wireCut := maxBodyKept, false;
      chunkDataLeft, chunkFed := 0, 0;
      synced := 1;
      sink := sunk;
      parserInput := [];
      new;
      JoinSnoc([], head);
      assert [] + [head] == [head];
      assert wire[1..] == [];
    }

    // ---- the body ----

    method KeepBody(body: seq<byte>) returns (kept: seq<byte>)
      modifies this`bodySize, this`bodyParts
      ensures old(isComplete) ==> kept == [] && bodySize == old(bodySize) && bodyParts == old(bodyParts)
      ensures !old(isComplete) ==>
        && bodySize == old(bodySize) + |body|
        && Join(bodyParts) == old(Join(bodyParts)) + kept
        && kept == body[..if maxBodyKept.None? then |body| else Min(|body|, Max(maxBodyKept.value - old(bodySize), 0))]
    {
      if isComplete {
        return [];
      }
      var room := if maxBodyKept.None? then |body| else Max(maxBodyKept.value - bodySize, 0);
      bodySize := bodySize + |body|;
      if |body| <= room {
        JoinSnoc(bodyParts, body);
        bodyParts := bodyParts + [body];
        return body;
      }
      kept := body[..room];
      if kept != [] {
        JoinSnoc(bodyParts, kept);
        bodyParts := bodyParts + [kept];
      }
    }

    method DeliverBody(parts: seq<seq<byte>>, complete: bool, ghost before: seq<byte>)
      requires !isComplete && BodyHolds(before)
      modifies this`bodySize, this`bodyParts, this`isComplete
      ensures BodyHolds(before + Join(parts)) && isComplete == complete
    {
      ghost var payload := before;
      assert parts[0..] == parts;
      for i := 0 to |parts|
        invariant BodyHolds(payload) && !isComplete
        invariant before + Join(parts) == payload + Join(parts[i..])
      {
        var kept := KeepBody(parts[i]);
        assert parts[i..][0] == parts[i] && parts[i..][1..] == parts[i + 1..];
        assert payload + (parts[i] + Join(parts[i + 1..])) == payload + parts[i] + Join(parts[i + 1..]);
        payload := payload + parts[i];
      }
      if complete {
        isComplete := true;
      }
      assert Join(parts[|parts|..]) == [];
      assert before + Join(parts) == payload;
    }

    // ---- the recorded wire and the connection sink ----

    method SyncConnectionWire()
      requires synced <= |wire|
      modifies this`sink, this`synced
      ensures sink == old(sink + Join(wire[synced..])) && synced == |wire|
    {
      for i := synced to |wire|
        invariant sink + Join(wire[i..]) == old(sink + Join(wire[synced..]))
      {
        assert wire[i..][0] == wire[i] && wire[i..][1..] == wire[i + 1..];
        assert sink + (wire[i] + Join(wire[i + 1..])) == sink + wire[i] + Join(wire[i + 1..]);
        sink := sink + wire[i];
      }
      assert wire[|wire|..] == [];
      synced := |wire|;
    }

    method AppendWire(data: seq<byte>)
      requires synced <= |wire|
      modifies this`wire
      ensures synced <= |wire| && Join(wire) == old(Join(wire)) + data
      ensures data == [] ==> wire == old(wire)
      ensures Join(wire[synced..]) == old(Join(wire[synced..])) + data
    {
      if data != [] {
        JoinSnoc(wire, data);
        JoinSnoc(wire[synced..], data);
        assert (wire + [data])[synced..] == wire[synced..] + [data];
        wire := wire + [data];
      }
    }

    /** The wire ends with `data[..kept]`; the sink still receives all of `data`. */
    method CutWire(data: seq<byte>, kept: nat)
      requires synced <= |wire| && kept <= |data|
      modifies this`wire, this`wireCut, this`sink, this`synced
      ensures wireCut && synced == |wire|
      ensures Join(wire) == old(Join(wire)) + data[..kept]
      ensures sink == old(sink + Join(wire[synced..])) + data
    {
      AppendWire(data[..kept]);
      wireCut := true;
      SyncConnectionWire();
      assert old(sink + Join(wire[synced..])) + data
          == old(sink) + (old(Join(wire[synced..])) + data[..kept]) + data[kept..];
      sink := sink + data[kept..];
    }

    method ExtendWire(data: seq<byte>, keep: Option<nat>)
      requires synced <= |wire|
      modifies this`wire, this`wireCut, this`sink, this`synced
      ensures synced <= |wire|
      ensures var k := if old(wireCut) then Some(0) else keep;
        if k.None? || k.value >= |data| then
          && wireCut == old(wireCut) && sink == old(sink) && synced == old(synced)
          && Join(wire) == old(Join(wire)) + data
          && Join(wire[synced..]) == old(Join(wire[synced..])) + data
        else
          && wireCut && synced == |wire|
          && Join(wire) == old(Join(wire)) + data[..k.value]
          && sink == old(sink + Join(wire[synced..])) + data
      ensures old(wireCut && synced == |wire|) ==>
        wireCut && synced == |wire| && Join(wire) == old(Join(wire)) && sink == old(sink) + data
    {
      JoinNone(wire);
      var k := if wireCut then Some(0) else keep;
      if k.None? || k.value >= |data| {
        AppendWire(data);
        if wireCut {
          assert old(Join(wire)) + data == old(Join(wire)) && sink + data == sink;
        }
      } else {
        CutWire(data, k.value);
        if old(wireCut) {
          assert old(Join(wire)) + data[..0] == old(Join(wire)) && old(sink) + [] == old(sink);
        }
      }
    }

    /** Where the recording limit cuts this segment, or `None` with the room that is left. */
    method ChunkWireKeep(buffer: seq<byte>, end: nat, delivered: Option<nat>) returns (keep: Option<nat>)
      requires end <= |buffer| && !VerdictOf(buffer[..end], chunkDataLeft).Malformed?
      requires delivered.Some? ==> delivered.value <= |Payload(buffer[..end], chunkDataLeft)|
      modifies this`wireRoom
      ensures var f := buffer[..end];
        var p := if delivered.Some? then delivered.value else |Payload(f, chunkDataLeft)|;
        if old(wireRoom).None? || wireCut then keep.None? && wireRoom == old(wireRoom)
        else if p <= old(wireRoom).value then keep.None? && wireRoom == Some(old(wireRoom).value - p)
        else keep == Some(Keep(f, chunkDataLeft, old(wireRoom).value)) && wireRoom == old(wireRoom)
    {
      hide StepAt, ScanFrom, Payload, VerdictOf, Keep;
      if wireRoom.None? || wireCut {
        return None;
      }
      var f := buffer[..end];
      var room := wireRoom.value;
      var r := ScanChunkPayloads(f, 0, chunkDataLeft);
      ScanOfOpen(f, chunkDataLeft);
      var spans := Spans(r.scan);
      var total := if delivered.Some? then delivered.value else Total(spans);
      if total <= room {
        wireRoom := Some(room - total);
        return None;
      }
      LimitIsKeep(f, chunkDataLeft, room);
      keep := ChunkLimitOffset(r.scan, room);
    }

    /** Attribute `buffer[..end]` to the request, its limit mapped over `[..mapped]`. */
    method AttributeSegment(buffer: seq<byte>, end: nat, mapped: nat, delivered: Option<nat>,
        ghost taken: seq<byte>, ghost head: seq<byte>, ghost sunk: seq<byte>)
      requires mapped <= end <= |buffer|
      requires WireHolds(taken, head, sunk) && Resumes(taken, 0) == Some(chunkDataLeft)
      requires SameChunks(buffer[..end], buffer[..mapped], chunkDataLeft)
      requires delivered.Some? ==> delivered.value == |Payload(buffer[..mapped], chunkDataLeft)|
      modifies this`wire, this`wireRoom, this`wireCut, this`sink, this`synced
      ensures WireHolds(taken + buffer[..end], head, sunk)
    {
      hide StepAt, Payload, VerdictOf, Keep, Resumes, Join;
      ghost var f := buffer[..end];
      ghost var room := wireRoom;
      if maxBodyKept.Some? {
        KeptWireGrows(maxBodyKept.value, taken, chunkDataLeft, f);
        if room.Some? && |Payload(f, chunkDataLeft)| > room.value {
          KeepCuts(f, chunkDataLeft, room.value);
        }
      }
      var keep := ChunkWireKeep(buffer, mapped, delivered);
      ExtendWire(buffer[..end], keep);
      assert sunk + (taken + f) == sunk + taken + f;
      if !old(wireCut) && !wireCut {
        assert head + (taken + f) == head + taken + f;
        assert sink + (old(Join(wire[synced..])) + f) == sink + old(Join(wire[synced..])) + f;
      } else if !old(wireCut) {
        ghost var k := keep.value;
        assert head + (taken + f[..k]) == head + taken + f[..k];
      }
    }

    /** Between reads: everything in `taken` is delivered and recorded. */
    ghost predicate Reading(taken: seq<byte>, head: seq<byte>, sunk: seq<byte>)
      reads this
    {
      && BodyHolds(Payload(taken, 0)) && WireHolds(taken, head, sunk)
      && Resumes(taken, 0) == Some(chunkDataLeft) && !isComplete
    }

    /** Deliver the payload of `buffer[..mapped]`, feed the parser up to `feed` unless
        it already was, and attribute `buffer[..end]`. */
    method DeliverChunks(buffer: seq<byte>, end: nat, mapped: nat, feed: nat, complete: bool,
        ghost taken: seq<byte>, ghost head: seq<byte>, ghost sunk: seq<byte>)
      requires mapped <= end <= |buffer| && feed <= |buffer|
      requires Reading(taken, head, sunk)
      requires SameChunks(buffer[..end], buffer[..mapped], chunkDataLeft)
      modifies this`bodySize, this`bodyParts, this`isComplete, this`parserInput,
        this`wire, this`wireRoom, this`wireCut, this`sink, this`synced
      ensures BodyHolds(Payload(taken + buffer[..end], 0)) && isComplete == complete
      ensures WireHolds(taken + buffer[..end], head, sunk)
      ensures parserInput == old(parserInput) + if upgraded then [] else Feed(buffer, chunkFed, feed)
    {
      hide StepAt, Payload, VerdictOf, Keep, Resumes, Join, AllAttributed;
      if !upgraded {
        parserInput := parserInput + Feed(buffer, chunkFed, feed);
      }
      PayloadExtends(taken, buffer[..end], 0);
      var received := bodySize;
      var parts := ChunkPayloadParts(buffer[..mapped], chunkDataLeft);
      DeliverBody(parts, complete, Payload(taken, 0));
      AttributeSegment(buffer, end, mapped, Some(bodySize - received), taken, head, sunk);
    }

    method FeedChunks(buffer: seq<byte>, d: Delivery,
        ghost taken: seq<byte>, ghost head: seq<byte>, ghost sunk: seq<byte>) returns (rest: seq<byte>)
      requires d.length <= d.feed <= |buffer| && chunkFed <= d.feed
      requires Reading(taken, head, sunk)
      requires Resumes(buffer[..d.length], chunkDataLeft) == Some(d.dataLeft)
      modifies this
      ensures Reading(taken + buffer[..d.length], head, sunk)
      ensures buffer == buffer[..d.length] + rest && chunkDataLeft == d.dataLeft
      ensures chunkFed == d.feed - d.length
      ensures parserInput == old(parserInput) + if upgraded then [] else Feed(buffer, old(chunkFed), d.feed)
    {
      hide StepAt, Payload, VerdictOf, Keep, Resumes, Join;
      ResumesIsOpen(buffer[..d.length], chunkDataLeft);
      ResumesExtends(taken, buffer[..d.length], 0);
      DeliverChunks(buffer, d.length, d.length, d.feed, false, taken, head, sunk);
      rest := buffer[d.length..];
      chunkDataLeft := d.dataLeft;
      chunkFed := d.feed - d.length;
    }

    /** Everything before `offset` becomes part of the request; the rest is handed back. */
    method FinishChunkedPrefix(reader: ByteStream, buffer: seq<byte>, offset: nat, status: ReadStatus, complete: bool,
        ghost taken: seq<byte>, ghost head: seq<byte>, ghost sunk: seq<byte>) returns (stop: ParseStop)
      requires offset <= |buffer| && Reading(taken, head, sunk)
      requires SameChunks(buffer[..offset], buffer[..offset], chunkDataLeft)
      modifies this, reader`unread
      ensures BodyHolds(Payload(taken + buffer[..offset], 0)) && WireHolds(taken + buffer[..offset], head, sunk)
      ensures sink == sunk + (taken + buffer[..offset]) && isComplete == complete
      ensures reader.Logical() == buffer[offset..] + old(reader.Logical())
      ensures stop == StopAtEnd(status)
      ensures parserInput == old(parserInput) + if upgraded then [] else Feed(buffer, old(chunkFed), offset)
    {
      hide StepAt, Payload, VerdictOf, Keep, Resumes, SameChunks;
      DeliverChunks(buffer, offset, offset, offset, complete, taken, head, sunk);
      reader.UnreadData(buffer[offset..]);
      SyncConnectionWire();
      JoinNone(wire);
      return StopAtEnd(status);
    }

    /** The body is malformed: it ends with its bad byte, or earlier with a read limit that the
        payload before that byte meets. */
    method StopAtScanError(reader: ByteStream, buffer: seq<byte>, offset: nat, budget: Option<nat>,
        ghost taken: seq<byte>, ghost head: seq<byte>, ghost sunk: seq<byte>) returns (stop: ParseStop, ghost end: nat)
      requires Reading(taken, head, sunk)
      requires VerdictOf(buffer, chunkDataLeft) == Malformed(offset)
      modifies this, reader`unread
      ensures end <= |buffer|
      ensures BodyHolds(Payload(taken + buffer[..end], 0)) && WireHolds(taken + buffer[..end], head, sunk)
      ensures sink == sunk + (taken + buffer[..end]) && !isComplete
      ensures reader.Logical() == buffer[end..] + old(reader.Logical())
      ensures parserInput == old(parserInput) + if upgraded then [] else Feed(buffer, old(chunkFed), end)
      ensures stop == (if end == offset then ParseFailed else StageComplete)
      ensures budget.None? ==> end == offset
      ensures budget.Some? ==>
        if end == offset then |Payload(buffer, old(chunkDataLeft))| < budget.value
        else ReachesLimit(buffer, old(chunkDataLeft), budget.value, end)
    {
      hide StepAt, Payload, VerdictOf, Keep, Resumes, SameChunks;
      MalformedSegment(buffer, chunkDataLeft);
      if budget.Some? {
        var at := LimitBeforeError(buffer, offset, chunkDataLeft, budget.value);
        if at.Some? {
          end := at.value;
          stop := FinishChunkedPrefix(reader, buffer, at.value, DataRead, false, taken, head, sunk);
          return;
        }
      }
      end := offset;
      DeliverChunks(buffer, offset, offset - 1, offset, false, taken, head, sunk);
      SyncConnectionWire();
      JoinNone(wire);
      reader.UnreadData(buffer[offset..]);
      stop := ParseFailed;
    }

    /** `taken` was the last of the message: recorded, passed to the sink, and the
        rest is back on the stream. */
    ghost predicate Finished(reader: ByteStream, taken: seq<byte>, after: seq<byte>, head: seq<byte>, sunk: seq<byte>)
      reads this, reader
    {
      && BodyHolds(Payload(taken, 0)) && WireHolds(taken, head, sunk) && sink == sunk + taken
      && reader.Logical() == after
    }

    /** Stop at a framing error, at the read limit or at the end of the body, if the
        buffered bytes show one. */
    method StopInBuffer(reader: ByteStream, buffer: seq<byte>, limit: Option<nat>, budget: Option<nat>,
        ghost taken: seq<byte>, ghost head: seq<byte>, ghost sunk: seq<byte>)
        returns (stop: Option<ParseStop>, ghost end: nat, r: ScanResult)
      requires Reading(taken, head, sunk) && FedAhead(buffer, chunkDataLeft, chunkFed)
      requires limit.Some? == budget.Some?
      requires limit.Some? ==> limit.value == |Payload(taken, 0)| + budget.value
      modifies this, reader`unread
      ensures end <= |buffer| && r == ScanFrom(buffer, 0, old(chunkDataLeft))
      ensures stop.None? ==>
        && unchanged(this) && unchanged(reader) && r.Scanned? && r.scan.end.None?
        && (budget.Some? ==> |Payload(buffer, chunkDataLeft)| <= budget.value)
      ensures stop.Some? ==>
        && Finished(reader, taken + buffer[..end], buffer[end..] + old(reader.Logical()), head, sunk)
        && StopsRight(taken + (buffer + old(reader.Logical())), limit, taken + buffer[..end], stop.value,
             isComplete, StatusAt(reader.ending))
        && parserInput == old(parserInput) + (if upgraded then [] else Feed(buffer, old(chunkFed), end))
        && (limit.None? ==> old(chunkFed) <= end)
      ensures limit.Some? ==>
        CutDecides(taken + buffer, limit.value, stop == Some(StageComplete) && !isComplete)
    {
      hide StepAt, ScanFrom, Payload, VerdictOf, Keep, Resumes, SameChunks, StopsRight, ReachesLimit,
        Feed, Join, BodyHolds, WireHolds, CutDecides;
      ghost var rest := reader.Logical();
      var left := chunkDataLeft;
      ghost var atEnd := StatusAt(reader.ending);
      end := 0;
      r := ScanChunkPayloads(buffer, 0, left);
      ScanVerdict(buffer, left);
      if r.ScanError? {
        FedBeforeStop(buffer, left, chunkFed);
        if limit.Some? {
          CutInMalformed(taken, left, buffer, limit.value, true);
          CutInMalformed(taken, left, buffer, limit.value, false);
        }
        var why;
        why, end := StopAtScanError(reader, buffer, r.offset, budget, taken, head, sunk);
        if budget.Some? && end != r.offset {
          StoppedByLimit(taken, left, buffer, rest, budget.value, end, atEnd);
        } else {
          StoppedByVerdict(taken, left, buffer, rest, limit, atEnd);
        }
        return Some(why), end, r;
      }
      if budget.Some? {
        ScanOfOpen(buffer, left);
        CutByLimit(taken, left, buffer, budget.value);
        var at := ChunkLimitOffset(r.scan, budget.value);
        if at.Some? {
          LimitStops(buffer, left, budget.value);
          LimitSegment(buffer, left, budget.value, at.value);
          StoppedByLimit(taken, left, buffer, rest, budget.value, at.value, atEnd);
          var why := FinishChunkedPrefix(reader, buffer, at.value, DataRead, false, taken, head, sunk);
          return Some(why), at.value, r;
        }
        LimitFindsNone(buffer, left, budget.value);
      }
      if r.scan.end.Some? {
        StopSegment(buffer, left);
        StoppedByVerdict(taken, left, buffer, rest, limit, atEnd);
        FedBeforeStop(buffer, left, chunkFed);
        var why := FinishChunkedPrefix(reader, buffer, r.scan.end.value, DataRead, true, taken, head, sunk);
        return Some(why), r.scan.end.value, r;
      }
      stop := None;
    }

    /** Pass what was taken on to the sink. */
    method SyncReading(ghost taken: seq<byte>, ghost head: seq<byte>, ghost sunk: seq<byte>)
      requires Reading(taken, head, sunk)
      modifies this`sink, this`synced
      ensures Reading(taken, head, sunk) && sink == sunk + taken
    {
      hide Join, Payload, Keep, KeptWire;
      SyncConnectionWire();
      JoinNone(wire);
      assert sink + [] == sink;
    }

    /** Deliver what the scanned buffer allows; the rest stays in it. */
    method DeliverScanned(buffer: seq<byte>, scan: PayloadScan,
        ghost taken: seq<byte>, ghost head: seq<byte>, ghost sunk: seq<byte>)
        returns (rest: seq<byte>, payload: nat, ghost piece: seq<byte>)
      requires Reading(taken, head, sunk) && sink == sunk + taken && FedAhead(buffer, chunkDataLeft, chunkFed)
      requires ScanFrom(buffer, 0, chunkDataLeft) == Scanned(scan) && scan.end.None?
      modifies this
      ensures buffer == piece + rest && Reading(taken + piece, head, sunk) && sink == sunk + (taken + piece)
      ensures FedAhead(rest, chunkDataLeft, chunkFed) && chunkFed <= |rest|
      ensures VerdictOf(rest, chunkDataLeft).Open?
      ensures |Payload(taken + piece, 0)| == |Payload(taken, 0)| + payload
      ensures |Payload(buffer, old(chunkDataLeft))| == payload + |Payload(rest, chunkDataLeft)|
      ensures !upgraded ==> old(parserInput) + Feed(buffer, old(chunkFed), |piece| + chunkFed) == parserInput
      ensures old(chunkFed) <= |piece| + chunkFed
    {
      hide StepAt, ScanFrom, Payload, VerdictOf, Keep, Resumes, SameChunks, BodyHolds, WireHolds, Join;
      var d := ChunkDelivery(scan, |buffer|);
      DeliveryResumes(buffer, chunkDataLeft);
      DeliveryFeedsOn(buffer, chunkDataLeft, chunkFed);
      ScanVerdict(buffer, chunkDataLeft);
      payload := d.payload;
      if d.feed > 0 {
        piece := buffer[..d.length];
        DeliveredPart(buffer, chunkDataLeft, d.length, d.dataLeft);
        PayloadExtends(taken, piece, 0);
        rest := FeedChunks(buffer, d, taken, head, sunk);
        SyncReading(taken + piece, head, sunk);
      } else {
        piece, rest := [], buffer;
        assert taken + piece == taken;
        FedWithin(buffer, chunkDataLeft, chunkFed);
      }
    }

    /** Between reads of a parse: `taken` is done with, `buffer` has arrived, the parser was
        fed both as far as it can be, and the sink holds what was taken. */
    ghost predicate Underway(reader: ByteStream, buffer: seq<byte>, counted: nat, taken: seq<byte>, job: Job)
      reads this, reader
    {
      && Reading(taken, job.head, job.sunk) && sink == job.sunk + taken
      && taken + (buffer + reader.Logical()) == job.stream
      && FedAhead(buffer, chunkDataLeft, chunkFed) && chunkFed <= |buffer|
      && counted == |Payload(taken, 0)| && (job.limit.Some? ==> counted <= job.limit.value)
      && (!upgraded ==> parserInput == job.input + taken + buffer[..chunkFed])
      && reader.Watched(job.start, |sink|)
      && job.start.atHand + reader.total == |job.sunk| + |job.stream| + job.start.received
    }

    /** A parse that is over. */
    ghost predicate Ended(reader: ByteStream, stop: ParseStop, taken: seq<byte>, arrived: seq<nat>, job: Job)
      reads this, reader
    {
      && taken + reader.Logical() == job.stream
      && StopsRight(job.stream, job.limit, taken, stop, isComplete, StatusAt(reader.ending))
      && StopsWhereCut(job.stream, job.limit, taken, arrived, stop, isComplete)
      && (job.limit.None? && !upgraded ==> parserInput == job.input + taken)
      && BodyHolds(Payload(taken, 0)) && WireHolds(taken, job.head, job.sunk) && sink == job.sunk + taken
      && reader.Watched(job.start, |sink|)
    }

    method StopUnderway(reader: ByteStream, buffer: seq<byte>, counted: nat, limit: Option<nat>,
        ghost taken: seq<byte>, ghost arrived: seq<nat>, ghost job: Job)
        returns (stop: Option<ParseStop>, ghost end: nat, r: ScanResult)
      requires Underway(reader, buffer, counted, taken, job) && limit == job.limit
      requires NoCutYet(job.stream, limit, arrived)
      modifies this, reader`unread
      ensures end <= |buffer|
      ensures stop.None? ==>
        && unchanged(this) && unchanged(reader)
        && r == ScanFrom(buffer, 0, chunkDataLeft) && r.Scanned? && r.scan.end.None?
        && (limit.Some? ==> |Payload(taken, 0)| + |Payload(buffer, chunkDataLeft)| <= limit.value)
        && NoCutYet(job.stream, limit, arrived + [|taken| + |buffer|])
      ensures stop.Some? ==> Ended(reader, stop.value, taken + buffer[..end], arrived + [|taken| + |buffer|], job)
    {
      hide StepAt, ScanFrom, Payload, VerdictOf, Keep, Resumes, SameChunks, FedAhead, StopsRight,
        Feed, Join, Reading, BodyHolds, WireHolds, CutDecides, StopsWhereCut, NoCutYet, ByteStream.Watched;
      ghost var fed, ahead, before := chunkFed, reader.Logical(), |sink|;
      var budget := if limit.Some? then Some(limit.value - counted) else None;
      stop, end, r := StopInBuffer(reader, buffer, limit, budget, taken, job.head, job.sunk);
      Regroup(taken, buffer, [], ahead);
      if stop.Some? {
        CutSettles(job.stream, limit, arrived, taken + buffer, taken + buffer[..end], stop.value, isComplete);
        Regroup(taken, buffer[..end], buffer[end..], ahead);
        assert buffer[..end] + buffer[end..] == buffer;
        if limit.None? { FeedJoins(job.input, taken, buffer[..end], buffer[end..], fed, 0); }
        reader.WatchGoesOn(job.start, before, |sink|);
      } else {
        CutNotYet(job.stream, limit, arrived, taken + buffer);
      }
    }

    method DeliverUnderway(reader: ByteStream, buffer: seq<byte>, scan: PayloadScan, counted: nat,
        ghost taken: seq<byte>, ghost job: Job) returns (rest: seq<byte>, total: nat, ghost more: seq<byte>)
      requires Underway(reader, buffer, counted, taken, job)
      requires ScanFrom(buffer, 0, chunkDataLeft) == Scanned(scan) && scan.end.None?
      requires job.limit.Some? ==> |Payload(taken, 0)| + |Payload(buffer, chunkDataLeft)| <= job.limit.value
      modifies this
      ensures Underway(reader, rest, total, more, job)
      ensures |more| + |rest| == |taken| + |buffer|
      ensures VerdictOf(rest, chunkDataLeft).Open?
      ensures job.limit.Some? ==> |Payload(more, 0)| + |Payload(rest, chunkDataLeft)| <= job.limit.value
    {
      hide StepAt, ScanFrom, Payload, VerdictOf, Keep, Resumes, SameChunks, FedAhead, Feed, Join, Reading,
        ByteStream.Watched;
      ghost var fed, ahead, before := chunkFed, reader.Logical(), |sink|;
      var payload;
      ghost var piece;
      rest, payload, piece := DeliverScanned(buffer, scan, taken, job.head, job.sunk);
      Regroup(taken, piece, rest, ahead);
      FeedJoins(job.input, taken, piece, rest, fed, chunkFed);
      total, more := counted + payload, taken + piece;
      reader.WatchGoesOn(job.start, before, |sink|);
    }

    /** Between reads the sink holds what was taken, and all of that had been received. */
    lemma SunkWasAtHand(reader: ByteStream, buffer: seq<byte>, counted: nat, taken: seq<byte>, job: Job)
      requires reader.Valid() && Underway(reader, buffer, counted, taken, job)
      ensures |sink| == |job.sunk| + |taken| && |sink| + job.start.received <= job.start.atHand + reader.received
    {
      hide Reading, FedAhead, Payload;
      reader.ReceivedBalance();
    }

    /** Wait for more of the body. */
    method ReceiveUnderway(reader: ByteStream, rest: seq<byte>, counted: nat, ghost taken: seq<byte>, ghost job: Job)
        returns (buffer: seq<byte>, data: seq<byte>, status: ReadStatus)
      requires maxRead > 0 && reader.Valid()
      requires Underway(reader, rest, counted, taken, job)
      modifies reader
      ensures reader.Valid() && Underway(reader, buffer, counted, taken, job)
      ensures buffer == rest + data && |data| + |reader.Logical()| == |old(reader.Logical())|
      ensures status.DataRead? <==> data != []
      ensures !status.DataRead? ==> buffer == rest && reader.Logical() == [] && status == StatusAt(reader.ending)
      ensures old(reader.unread) == [] && old(reader.pieces) != [] ==>
        data == old(reader.pieces)[0] && reader.pieces == old(reader.pieces)[1..] && reader.unread == []
      ensures old(reader.unread) == [] && old(reader.pieces) == [] ==> data == []
    {
      hide StepAt, Payload, Keep, Resumes, Reading, Join, FedAhead;
      SunkWasAtHand(reader, rest, counted, taken, job);
      ghost var ahead := reader.Logical();
      data, status := reader.Read(maxRead, |sink|);
      FedStays(rest, data, chunkDataLeft, chunkFed);
      Regroup([], rest, data, reader.Logical());
      assert rest + ahead == rest + data + reader.Logical();
      buffer := rest + data;
      assert buffer[..chunkFed] == rest[..chunkFed];
    }

    /** The stream ended inside the body: everything received belongs to it. */
    method EndUnderway(reader: ByteStream, rest: seq<byte>, counted: nat, status: ReadStatus,
        ghost taken: seq<byte>, ghost arrived: seq<nat>, ghost job: Job) returns (stop: ParseStop)
      requires Underway(reader, rest, counted, taken, job)
      requires reader.Logical() == [] && !status.DataRead? && status == StatusAt(reader.ending)
      requires VerdictOf(rest, chunkDataLeft).Open?
      requires job.limit.Some? ==> |Payload(taken, 0)| + |Payload(rest, chunkDataLeft)| <= job.limit.value
      requires NoCutYet(job.stream, job.limit, arrived)
      requires arrived != [] && arrived[|arrived| - 1] == |taken| + |rest|
      modifies this, reader`unread
      ensures Ended(reader, stop, taken + rest, arrived, job)
    {
      hide StepAt, Payload, VerdictOf, Keep, Resumes, SameChunks, StopsRight, StopsWhereCut, NoCutYet,
        Feed, Join, BodyHolds, WireHolds, FedAhead, ByteStream.Watched;
      ghost var before := |sink|;
      assert rest[..|rest|] == rest && rest[|rest|..] + [] == [];
      assert job.stream == taken + rest;
      StoppedByEnd(taken, chunkDataLeft, rest, job.limit, status);
      CutAtEnd(job.stream, job.limit, arrived, taken + rest, StopAtEnd(status));
      FeedJoins(job.input, taken, rest, [], chunkFed, 0);
      stop := FinishChunkedPrefix(reader, rest, |rest|, status, false, taken, job.head, job.sunk);
      reader.WatchGoesOn(job.start, before, |sink|);
    }

    /** Scan, deliver, read on.  Whatever the pieces
        were, the outcome is a function of the stream `s` they add up to; only where a
        read limit is met exactly does it also depend on `arrived`, how much of the
        stream was there at each scan. */
    method ParseChunkedBody(reader: ByteStream, initial: seq<byte>, maxBodyBytes: Option<nat>,
        ghost head: seq<byte>, ghost sunk: seq<byte>)
        returns (stop: ParseStop, ghost taken: seq<byte>, ghost arrived: seq<nat>)
      requires maxRead > 0 && reader.Valid() && Reading([], head, sunk) && sink == sunk && chunkFed == 0
      modifies this, reader
      ensures var s := initial + old(reader.Logical());
        && taken + reader.Logical() == s
        && StopsRight(s, maxBodyBytes, taken, stop, isComplete, StatusAt(reader.ending))
        && StopsWhereCut(s, maxBodyBytes, taken, arrived, stop, isComplete)
        && (maxBodyBytes.None? && !upgraded ==> parserInput == old(parserInput) + taken)
      ensures reader.Valid() && reader.Watched(old(reader.Now(|initial|, |sunk|)), |sink|)
      ensures old(reader.unread) == [] ==> Arrivals(arrived, |initial|, old(reader.pieces))
      ensures BodyHolds(Payload(taken, 0)) && WireHolds(taken, head, sunk) && sink == sunk + taken
    {
      hide StepAt, ScanFrom, Payload, VerdictOf, Keep, Resumes, FedAhead, StopsRight, Join, BodyHolds, WireHolds,
        StopsWhereCut, NoCutYet, Arrivals, Receiving, Underway, Ended, ByteStream.Watched;
      var buffer := initial;
      var counted := 0;
      taken, arrived := [], [];
      ghost var job :=
        Job(initial + reader.Logical(), maxBodyBytes, head, sunk, parserInput, reader.Now(|initial|, |sunk|));
      ghost var pieces, plain := reader.pieces, reader.unread == [];
      StartUnderway(reader, buffer, job);
      NothingArrived(job.stream, maxBodyBytes, |initial|, pieces, reader.unread);
      while true
        invariant reader.Valid() && Underway(reader, buffer, counted, taken, job)
        invariant NoCutYet(job.stream, maxBodyBytes, arrived)
        invariant plain ==>
          Receiving(arrived, |initial|, pieces, reader.pieces, reader.unread, |taken| + |buffer|)
        decreases |reader.Logical()|
      {
        ghost var seen := |taken| + |buffer|;
        if plain { ArrivalsSnoc(arrived, |initial|, pieces, reader.pieces, reader.unread, seen); }
        var why, end, r := StopUnderway(reader, buffer, counted, maxBodyBytes, taken, arrived, job);
        arrived := arrived + [seen];
        if why.Some? {
          EndedMeans(reader, why.value, taken + buffer[..end], arrived, job);
          return why.value, taken + buffer[..end], arrived;
        }
        var rest;
        rest, counted, taken := DeliverUnderway(reader, buffer, r.scan, counted, taken, job);
        ghost var coming := reader.pieces;
        var data, status;
        buffer, data, status := ReceiveUnderway(reader, rest, counted, taken, job);
        if !status.DataRead? {
          stop := EndUnderway(reader, rest, counted, status, taken, arrived, job);
          EndedMeans(reader, stop, taken + rest, arrived, job);
          return stop, taken + rest, arrived;
        }
        if plain { MoreReceived(arrived, |initial|, pieces, coming, data, seen); }
      }
    }

    lemma StartUnderway(reader: ByteStream, buffer: seq<byte>, job: Job)
      requires Reading([], job.head, job.sunk) && sink == job.sunk && chunkFed == 0 && reader.Valid()
      requires job.stream == buffer + reader.Logical() && job.input == parserInput
      requires job.start == reader.Now(|buffer|, |job.sunk|)
      ensures Underway(reader, buffer, 0, [], job)
    {
      hide StepAt, Join, Reading;
      reader.ReceivedBalance();
      reader.WatchBegins(|buffer|, |sink|);
      NothingFed(buffer, chunkDataLeft);
      assert parserInput + [] + buffer[..0] == parserInput;
      assert [] + (buffer + reader.Logical()) == buffer + reader.Logical();
      assert sink == job.sunk + [];
    }

    lemma EndedMeans(reader: ByteStream, stop: ParseStop, taken: seq<byte>, arrived: seq<nat>, job: Job)
      requires Ended(reader, stop, taken, arrived, job)
      ensures taken + reader.Logical() == job.stream
      ensures StopsRight(job.stream, job.limit, taken, stop, isComplete, StatusAt(reader.ending))
      ensures StopsWhereCut(job.stream, job.limit, taken, arrived, stop, isComplete)
      ensures job.limit.None? && !upgraded ==> parserInput == job.input + taken
      ensures BodyHolds(Payload(taken, 0)) && WireHolds(taken, job.head, job.sunk) && sink == job.sunk + taken
      ensures reader.Watched(job.start, |sink|)
    {
    }

    // ---- Content-Length bodies ----

    /** The wire and the sink after `taken` plain body bytes, as `WireHolds` for chunks. */
    ghost predicate PlainWireHolds(taken: seq<byte>, head: seq<byte>, sunk: seq<byte>)
      reads this
    {
      && synced <= |wire|
      && Join(wire) == head + taken[..Capped(maxBodyKept, |taken|)]
      && (if wireCut then synced == |wire| && sink == sunk + taken
          else sink + Join(wire[synced..]) == sunk + taken)
    }

    method DeliverLengthBody(data: seq<byte>, ghost taken: seq<byte>, ghost head: seq<byte>, ghost sunk: seq<byte>)
      requires data != [] && !isComplete && BodyHolds(taken) && PlainWireHolds(taken, head, sunk)
      requires wireCut <==> Capped(maxBodyKept, |taken|) < |taken|
      modifies this`bodySize, this`bodyParts, this`wire, this`wireCut, this`sink, this`synced
      ensures BodyHolds(taken + data) && PlainWireHolds(taken + data, head, sunk)
      ensures wireCut <==> Capped(maxBodyKept, |taken + data|) < |taken + data|
    {
      var kept := KeepBody(data);
      assert (taken + data)[..Capped(maxBodyKept, |taken + data|)]
          == taken[..Capped(maxBodyKept, |taken|)] + kept;
      assert head + (taken[..Capped(maxBodyKept, |taken|)] + kept) == head + taken[..Capped(maxBodyKept, |taken|)] + kept;
      assert sunk + (taken + data) == sunk + taken + data;
      if |kept| == |data| {
        assert sink + (Join(wire[synced..]) + data) == sink + Join(wire[synced..]) + data;
        AppendWire(data);
      } else {
        JoinNone(wire);
        assert sink + [] == sink;
        CutWire(data, |kept|);
      }
    }

    /** One read of at most `size` bytes, whatever the stream hands back. */
    method ReadAtMost(reader: ByteStream, size: nat, ghost start: Start) returns (data: seq<byte>, status: ReadStatus)
      requires size > 0 && reader.Valid()
      requires reader.Watched(start, |sink|) && |sink| + start.received <= start.atHand + reader.received
      modifies reader
      ensures reader.Valid() && data + reader.Logical() == old(reader.Logical()) && |data| <= size
      ensures status.DataRead? <==> data != []
      ensures !status.DataRead? ==> reader.Logical() == [] && status == StatusAt(reader.ending)
      ensures reader.Watched(start, |sink|)
    {
      hide Join;
      data, status := reader.Read(size, |sink|);
      if |data| > size {
        Regroup([], data[..size], data[size..], reader.Logical());
        assert data[..size] + data[size..] == data;
        reader.UnreadData(data[size..]);
        data := data[..size];
      }
    }

    method FinishLengthBody(reader: ByteStream, buffer: seq<byte>, complete: bool,
        ghost taken: seq<byte>, ghost head: seq<byte>, ghost sunk: seq<byte>)
      requires BodyHolds(taken) && PlainWireHolds(taken, head, sunk) && !isComplete && reader.Valid()
      modifies this`isComplete, this`sink, this`synced, reader`unread
      ensures reader.Valid()
      ensures BodyHolds(taken) && PlainWireHolds(taken, head, sunk) && sink == sunk + taken
      ensures isComplete == complete && reader.Logical() == buffer + old(reader.Logical())
    {
      if complete {
        isComplete := true;
      }
      reader.UnreadData(buffer);
      SyncConnectionWire();
      JoinNone(wire);
      assert sink + [] == sink;
    }

    /** Read up to the declared length or the read limit, never past it. */
    method ParseContentLengthBody(reader: ByteStream, initial: seq<byte>, length: nat, maxBodyBytes: Option<nat>,
        ghost head: seq<byte>, ghost sunk: seq<byte>) returns (stop: ParseStop, ghost taken: seq<byte>)
      requires maxRead > 0 && reader.Valid() && !isComplete && !wireCut
      requires BodyHolds([]) && PlainWireHolds([], head, sunk) && sink == sunk
      modifies this, reader
      ensures var s := initial + old(reader.Logical());
        var target := Capped(maxBodyBytes, length);
        && taken == s[..Min(target, |s|)] && taken + reader.Logical() == s
        && stop == (if target <= |s| then StageComplete else StopAtEnd(StatusAt(reader.ending)))
        && (isComplete <==> |taken| == length)
      ensures reader.Valid() && reader.Watched(old(reader.Now(|initial|, |sunk|)), |sink|)
      ensures BodyHolds(taken) && PlainWireHolds(taken, head, sunk) && sink == sunk + taken
    {
      hide Join, BodyHolds, PlainWireHolds, LengthUnderway, ByteStream.Watched;
      var target := Capped(maxBodyBytes, length);
      ghost var s, start := initial + reader.Logical(), reader.Now(|initial|, |sunk|);
      reader.ReceivedBalance();
      reader.WatchBegins(|initial|, |sunk|);
      var consumed := if |initial| < target then |initial| else target;
      var buffer := initial[consumed..];
      taken := initial[..consumed];
      StartLength(reader, initial, taken, buffer, head, sunk);
      if consumed > 0 { DeliverAndSync(initial[..consumed], [], head, sunk); }
      LengthBegun(reader, buffer, s, taken, head, sunk);
      reader.WatchGoesOn(start, |sunk|, |sink|);
      var status := DataRead;
      while consumed < target
        invariant consumed == |taken| <= target && reader.Valid() && status == DataRead
        invariant LengthUnderway(reader, buffer, s, taken, head, sunk)
        invariant |sink| == |sunk| + consumed && reader.Watched(start, |sink|) && (consumed < target ==> buffer == [])
        decreases |reader.Logical()|
      {
        var size := if maxRead < target - consumed then maxRead else target - consumed;
        var count;
        count, taken, status := ReceivePiece(reader, size, s, taken, head, sunk, start);
        if !status.DataRead? {
          break;
        }
        consumed := consumed + count;
      }
      LengthMeans(reader, buffer, s, taken, head, sunk);
      FinishLengthBody(reader, buffer, consumed == length, taken, head, sunk);
      stop := StopAtEnd(status);
    }

    /** Between reads of a body of declared length, in the stream `s`. */
    ghost predicate LengthUnderway(reader: ByteStream, buffer: seq<byte>, s: seq<byte>, taken: seq<byte>,
        head: seq<byte>, sunk: seq<byte>)
      reads this, reader
    {
      && BodyHolds(taken) && PlainWireHolds(taken, head, sunk) && !isComplete
      && (wireCut <==> Capped(maxBodyKept, |taken|) < |taken|)
      && taken + (buffer + reader.Logical()) == s
    }

    lemma StartLength(reader: ByteStream, initial: seq<byte>, taken: seq<byte>, buffer: seq<byte>, head: seq<byte>,
        sunk: seq<byte>)
      requires taken + buffer == initial
      ensures taken + (buffer + reader.Logical()) == initial + reader.Logical() && [] + taken == taken
      ensures taken == [] ==> |sunk| == |sunk + taken|
    {
      hide Join;
      assert taken + (buffer + reader.Logical()) == taken + buffer + reader.Logical();
    }

    lemma LengthBegun(reader: ByteStream, buffer: seq<byte>, s: seq<byte>, taken: seq<byte>, head: seq<byte>,
        sunk: seq<byte>)
      requires BodyHolds(taken) && PlainWireHolds(taken, head, sunk) && !isComplete
      requires wireCut <==> Capped(maxBodyKept, |taken|) < |taken|
      requires taken + (buffer + reader.Logical()) == s
      ensures LengthUnderway(reader, buffer, s, taken, head, sunk)
    {
    }

    lemma LengthMeans(reader: ByteStream, buffer: seq<byte>, s: seq<byte>, taken: seq<byte>, head: seq<byte>,
        sunk: seq<byte>)
      requires LengthUnderway(reader, buffer, s, taken, head, sunk)
      ensures BodyHolds(taken) && PlainWireHolds(taken, head, sunk) && !isComplete
      ensures taken + (buffer + reader.Logical()) == s && |taken| + |buffer| + |reader.Logical()| == |s|
      ensures taken == s[..|taken|]
    {
      hide Join, BodyHolds, PlainWireHolds;
    }

    /** Read one piece of the body and deliver it. */
    method ReceivePiece(reader: ByteStream, size: nat, ghost s: seq<byte>, ghost taken: seq<byte>, ghost head: seq<byte>,
        ghost sunk: seq<byte>, ghost start: Start) returns (count: nat, ghost more: seq<byte>, status: ReadStatus)
      requires size > 0 && reader.Valid() && LengthUnderway(reader, [], s, taken, head, sunk)
      requires |sink| == |sunk| + |taken| && reader.Watched(start, |sink|)
      requires start.atHand + reader.total == |sunk| + |s| + start.received
      modifies this, reader
      ensures reader.Valid() && LengthUnderway(reader, [], s, more, head, sunk)
      ensures |sink| == |sunk| + |more| && reader.Watched(start, |sink|)
      ensures count <= size && |more| == |taken| + count && |reader.Logical()| + count == |old(reader.Logical())|
      ensures status.DataRead? <==> count > 0
      ensures !status.DataRead? ==> reader.Logical() == [] && status == StatusAt(reader.ending)
    {
      hide Join, BodyHolds, PlainWireHolds;
      ghost var ahead := reader.Logical();
      reader.ReceivedBalance();
      var data;
      data, status := ReadAtMost(reader, size, start);
      count, more := |data|, taken + data;
      assert taken + ([] + ahead) == more + ([] + reader.Logical());
      if status.DataRead? {
        DeliverAndSync(data, taken, head, sunk);
      } else {
        assert more == taken;
      }
    }

    /** A piece goes to body and wire, and at once to the sink. */
    method DeliverAndSync(data: seq<byte>, ghost taken: seq<byte>, ghost head: seq<byte>, ghost sunk: seq<byte>)
      requires data != [] && !isComplete && BodyHolds(taken) && PlainWireHolds(taken, head, sunk)
      requires wireCut <==> Capped(maxBodyKept, |taken|) < |taken|
      modifies this`bodySize, this`bodyParts, this`wire, this`wireCut, this`sink, this`synced
      ensures BodyHolds(taken + data) && PlainWireHolds(taken + data, head, sunk) && sink == sunk + (taken + data)
      ensures wireCut <==> Capped(maxBodyKept, |taken + data|) < |taken + data|
    {
      hide BodyHolds, Join;
      DeliverLengthBody(data, taken, head, sunk);
      SyncConnectionWire();
      JoinNone(wire);
      assert sink + [] == sink;
    }
  }

  lemma Regroup(taken: seq<byte>, piece: seq<byte>, rest: seq<byte>, ahead: seq<byte>)
    ensures taken + (piece + rest + ahead) == taken + piece + (rest + ahead)
    ensures taken == [] ==> piece + (rest + ahead) == piece + rest + ahead
    ensures (piece + rest)[|piece|..] == rest
  {
    assert taken == [] ==> taken + piece == piece;
  }

  /** Feeding on from `fed` to `more` bytes past the piece hands over each byte once. */
  lemma FeedJoins(input: seq<byte>, taken: seq<byte>, piece: seq<byte>, rest: seq<byte>, fed: nat, more: nat)
    requires fed <= |piece| + more && more <= |rest|
    ensures var b := piece + rest;
      input + taken + b[..fed] + Feed(b, fed, |piece| + more) == input + (taken + piece) + rest[..more]
    ensures input + (taken + piece) + rest[..0] == input + (taken + piece)
    ensures rest == [] ==> piece + rest == piece
  {
    var b := piece + rest;
    var fedNow := Feed(b, fed, |piece| + more);
    assert b[..fed] + fedNow == piece + rest[..more];
    assert input + taken + b[..fed] + fedNow == input + taken + (b[..fed] + fedNow);
    assert input + taken + (piece + rest[..more]) == input + (taken + piece) + rest[..more];
  }

  lemma FedWithin(b: seq<byte>, left: nat, fed: nat)
    requires FedAhead(b, left, fed)
    ensures fed <= |b|
  {
  }

  lemma FedStays(b: seq<byte>, c: seq<byte>, left: nat, fed: nat)
    requires FedAhead(b, left, fed)
    ensures FedAhead(b + c, left, fed)
  {
    hide StepAt;
    if fed > 0 {
      assert (b + c)[..fed] == b[..fed];
    }
  }

  lemma NothingFed(b: seq<byte>, left: nat)
    ensures FedAhead(b, left, 0) && Payload([], 0) == []
  {
  }

  lemma LimitSegment(b: seq<byte>, left: nat, budget: nat, end: nat)
    requires ReachesLimit(b, left, budget, end)
    ensures end <= |b| && SameChunks(b[..end], b[..end], left)
  {
  }

  /** After a delivery the rest of the buffer is open and has the rest of its payload. */
  lemma DeliveredPart(b: seq<byte>, left: nat, k: nat, more: nat)
    requires k <= |b| && Resumes(b[..k], left) == Some(more) && VerdictOf(b, left).Open?
    ensures VerdictOf(b[k..], more).Open?
    ensures |Payload(b, left)| == |Payload(b[..k], left)| + |Payload(b[k..], more)|
  {
    hide StepAt, Payload, Resumes;
    assert b[..k] + b[k..] == b;
    VerdictExtends(b[..k], b[k..], left);
    PayloadExtends(b[..k], b[k..], left);
  }

  lemma ScanVerdict(b: seq<byte>, left: nat)
    ensures match ScanFrom(b, 0, left)
      case ScanError(o) => VerdictOf(b, left) == Malformed(o)
      case Scanned(s) => VerdictOf(b, left) == if s.end.Some? then Complete(s.end.value) else Open
  {
    hide StepAt, ScanFrom, VerdictOf;
    assert b[0..] == b;
    ScanIsVerdict(b, 0, left);
  }

  /** Why a parse stops, given how the body stands in the whole stream. */
  function VerdictStop(v: Verdict, atEnd: ReadStatus): ParseStop {
    match v
    case Complete(_) => StageComplete
    case Malformed(_) => ParseFailed
    case Open => StopAtEnd(atEnd)
  }

  /** What a parse of the stream `s` may do: without a read limit everything is
      settled by `s` alone; with one, the payload taken is. */
  ghost predicate StopsRight(s: seq<byte>, limit: Option<nat>, taken: seq<byte>, stop: ParseStop,
    complete: bool, atEnd: ReadStatus)
  {
    var v := VerdictOf(s, 0);
    && taken <= s
    && (limit.None? ==>
          && |taken| == v.Attributed(|s|)
          && stop == VerdictStop(v, atEnd)
          && complete == v.Complete?)
    && (limit.Some? ==>
          && Payload(taken, 0) == Payload(s, 0)[..Min(limit.value, |Payload(s, 0)|)]
          && (complete ==> v.Complete? && |taken| == v.size && stop.StageComplete?)
          && (stop.ParseFailed? ==> v.Malformed? && |taken| == v.size && |Payload(s, 0)| < limit.value)
          && (stop.StreamEnded? || stop.ReadError? ==> v.Open? && taken == s && stop == StopAtEnd(atEnd))
          && (stop.StageComplete? && !complete ==> limit.value <= |Payload(s, 0)|))
  }

  /** The end of the body or a framing error, found in the buffer. */
  lemma StoppedByVerdict(taken: seq<byte>, left: nat, buffer: seq<byte>, rest: seq<byte>, limit: Option<nat>,
      atEnd: ReadStatus)
    requires Resumes(taken, 0) == Some(left) && !VerdictOf(buffer, left).Open?
    requires limit.Some? ==> |Payload(taken, 0)| + |Payload(buffer, left)| <= limit.value
    requires limit.Some? && VerdictOf(buffer, left).Malformed? ==>
      |Payload(taken, 0)| + |Payload(buffer, left)| < limit.value
    ensures var v := VerdictOf(buffer, left);
      StopsRight(taken + (buffer + rest), limit, taken + buffer[..v.size], VerdictStop(v, atEnd), v.Complete?, atEnd)
  {
    hide StepAt, Payload, VerdictOf, Resumes;
    var v := VerdictOf(buffer, left);
    var f := buffer[..v.size];
    VerdictExtends(taken, buffer + rest, 0);
    PayloadExtends(taken, buffer + rest, 0);
    PayloadExtends(taken, f, 0);
    StopIsFinal(buffer, rest, left);
    StopSegment(buffer, left);
    assert taken + (buffer + rest) == taken + f + (buffer[v.size..] + rest);
  }

  /** The body up to its end, or through its bad byte, has all of its payload. */
  lemma StopSegment(b: seq<byte>, left: nat)
    requires !VerdictOf(b, left).Open?
    ensures var f := b[..VerdictOf(b, left).size];
      Payload(f, left) == Payload(b, left) && (VerdictOf(b, left).Complete? ==> SameChunks(f, f, left))
  {
    hide StepAt, Payload, VerdictOf, Keep;
    var k := VerdictOf(b, left).size;
    if VerdictOf(b, left).Complete? {
      CompleteCut(b, left);
      StopIsFinal(b[..k], b[k..], left);
      assert b[..k] + b[k..] == b;
    } else {
      MalformedCut(b, left, k);
    }
  }

  /** The read limit, met in the buffer. */
  lemma StoppedByLimit(taken: seq<byte>, left: nat, buffer: seq<byte>, rest: seq<byte>, budget: nat, end: nat,
      atEnd: ReadStatus)
    requires Resumes(taken, 0) == Some(left) && ReachesLimit(buffer, left, budget, end)
    ensures StopsRight(taken + (buffer + rest), Some(|Payload(taken, 0)| + budget), taken + buffer[..end],
      StageComplete, false, atEnd)
  {
    hide StepAt, Payload, VerdictOf, Resumes;
    PayloadExtends(taken, buffer + rest, 0);
    PayloadExtends(taken, buffer[..end], 0);
    PayloadGrows(buffer, rest, left);
    assert taken + (buffer + rest) == taken + buffer[..end] + (buffer[end..] + rest);
  }

  /** The stream's end, with the body still open. */
  lemma StoppedByEnd(taken: seq<byte>, left: nat, buffer: seq<byte>, limit: Option<nat>, atEnd: ReadStatus)
    requires Resumes(taken, 0) == Some(left) && VerdictOf(buffer, left).Open? && !atEnd.DataRead?
    requires limit.Some? ==> |Payload(taken, 0)| + |Payload(buffer, left)| <= limit.value
    ensures StopsRight(taken + buffer, limit, taken + buffer, StopAtEnd(atEnd), false, atEnd)
    ensures SameChunks(buffer, buffer, left)
  {
    hide StepAt, Payload, Keep, Resumes;
    VerdictExtends(taken, buffer, 0);
    PayloadExtends(taken, buffer, 0);
  }

  /** The bytes that have arrived hold exactly the read limit and stop inside a chunk. */
  ghost predicate CutHere(a: seq<byte>, limit: nat) {
    |Payload(a, 0)| == limit && EndsInChunk(a, 0)
  }

  /** Whether a parse that has seen `a` stops early is settled where `a` is cut, as long
      as `a` holds no payload past the limit and no framing error. */
  ghost predicate CutDecides(a: seq<byte>, limit: nat, early: bool) {
    && (CutHere(a, limit) ==> early)
    && (early && |Payload(a, 0)| <= limit && !VerdictOf(a, 0).Malformed? ==> CutHere(a, limit))
  }

  /** None of the arrivals so far was a cut. */
  ghost predicate NoCutYet(s: seq<byte>, limit: Option<nat>, arrived: seq<nat>) {
    limit.Some? ==> forall i :: 0 <= i < |arrived| ==> arrived[i] <= |s| && !CutHere(s[..arrived[i]], limit.value)
  }

  /** With a read limit, a parse stops early if what had arrived at some scan was cut at
      the limit, and below or at the limit only then; nothing beyond the last arrival is
      taken. */
  ghost predicate StopsWhereCut(s: seq<byte>, limit: Option<nat>, taken: seq<byte>, arrived: seq<nat>,
      stop: ParseStop, complete: bool)
  {
    && arrived != [] && |taken| <= arrived[|arrived| - 1] <= |s|
    && (limit.Some? ==>
          && (forall i :: 0 <= i < |arrived| && arrived[i] <= |s| && CutHere(s[..arrived[i]], limit.value) ==>
                stop.StageComplete? && !complete)
          && (stop.StageComplete? && !complete && |Payload(s, 0)| <= limit.value && !VerdictOf(s, 0).Malformed? ==>
                CutHere(s[..arrived[|arrived| - 1]], limit.value)))
  }

  /** Each scan sees the initial bytes and one more piece. */
  ghost predicate Arrivals(arrived: seq<nat>, first: nat, pieces: seq<seq<byte>>) {
    forall i :: 0 <= i < |arrived| ==> i <= |pieces| && arrived[i] == first + |Join(pieces[..i])|
  }

  ghost predicate Receiving(arrived: seq<nat>, first: nat, pieces: seq<seq<byte>>, coming: seq<seq<byte>>,
      held: seq<byte>, seen: nat)
  {
    && Arrivals(arrived, first, pieces) && held == [] && |arrived| <= |pieces|
    && coming == pieces[|arrived|..] && seen == first + |Join(pieces[..|arrived|])|
  }

  lemma NothingArrived(s: seq<byte>, limit: Option<nat>, first: nat, pieces: seq<seq<byte>>, held: seq<byte>)
    ensures NoCutYet(s, limit, [])
    ensures held == [] ==> Receiving([], first, pieces, pieces, held, first)
  {
  }

  lemma ArrivalsSnoc(arrived: seq<nat>, first: nat, pieces: seq<seq<byte>>, coming: seq<seq<byte>>,
      held: seq<byte>, seen: nat)
    requires Receiving(arrived, first, pieces, coming, held, seen)
    ensures Arrivals(arrived + [seen], first, pieces) && held == []
    ensures |arrived| <= |pieces| && coming == pieces[|arrived|..] && seen == first + |Join(pieces[..|arrived|])|
  {
  }

  lemma MoreReceived(arrived: seq<nat>, first: nat, pieces: seq<seq<byte>>, coming: seq<seq<byte>>,
      data: seq<byte>, seen: nat)
    requires Arrivals(arrived, first, pieces) && 0 < |arrived| <= |pieces|
    requires coming == pieces[|arrived| - 1..] && coming[0] == data
    requires seen == first + |Join(pieces[..|arrived| - 1])|
    ensures Receiving(arrived, first, pieces, coming[1..], [], seen + |data|)
  {
    var k := |arrived| - 1;
    assert pieces[..k + 1] == pieces[..k] + [pieces[k]];
    JoinSnoc(pieces[..k], pieces[k]);
  }

  /** What has arrived has no more payload than the stream, and fails only if it does. */
  lemma PrefixOfStream(s: seq<byte>, a: seq<byte>)
    requires a <= s
    ensures |Payload(a, 0)| <= |Payload(s, 0)|
    ensures VerdictOf(a, 0).Malformed? ==> VerdictOf(s, 0).Malformed?
  {
    hide StepAt, Payload, VerdictOf;
    assert s == a + s[|a|..];
    PayloadGrows(a, s[|a|..], 0);
    if VerdictOf(a, 0).Malformed? { StopIsFinal(a, s[|a|..], 0); }
  }

  lemma CutNotYet(s: seq<byte>, limit: Option<nat>, arrived: seq<nat>, a: seq<byte>)
    requires NoCutYet(s, limit, arrived) && a <= s
    requires limit.Some? ==> CutDecides(a, limit.value, false)
    ensures NoCutYet(s, limit, arrived + [|a|])
  {
    hide Payload, EndsInChunk, VerdictOf;
    assert s[..|a|] == a;
  }

  lemma CutSettles(s: seq<byte>, limit: Option<nat>, arrived: seq<nat>, a: seq<byte>, taken: seq<byte>,
      stop: ParseStop, complete: bool)
    requires NoCutYet(s, limit, arrived) && taken <= a <= s
    requires limit.Some? ==> CutDecides(a, limit.value, stop.StageComplete? && !complete)
    ensures StopsWhereCut(s, limit, taken, arrived + [|a|], stop, complete)
  {
    PrefixOfStream(s, a);
    hide Payload, EndsInChunk, VerdictOf;
    assert s[..|a|] == a;
  }

  lemma CutAtEnd(s: seq<byte>, limit: Option<nat>, arrived: seq<nat>, taken: seq<byte>, stop: ParseStop)
    requires NoCutYet(s, limit, arrived) && arrived != [] && !stop.StageComplete?
    requires |taken| <= arrived[|arrived| - 1] <= |s|
    ensures StopsWhereCut(s, limit, taken, arrived, stop, false)
  {
    hide Payload, EndsInChunk, VerdictOf;
  }

  lemma CutByLimit(taken: seq<byte>, left: nat, buffer: seq<byte>, budget: nat)
    requires Resumes(taken, 0) == Some(left) && !VerdictOf(buffer, left).Malformed?
    ensures ScanFrom(buffer, 0, left).Scanned?
    ensures CutDecides(taken + buffer, |Payload(taken, 0)| + budget,
                       LimitOffset(ScanFrom(buffer, 0, left).scan, budget).Some?)
  {
    hide StepAt, Payload, VerdictOf, Resumes, EndsInChunk, ScanFrom, LimitOffset;
    ScanOfOpen(buffer, left);
    PayloadExtends(taken, buffer, 0);
    EndsInChunkExtends(taken, buffer, 0);
    var s := ScanFrom(buffer, 0, left).scan;
    if LimitOffset(s, budget).Some? { LimitStops(buffer, left, budget); } else { LimitFindsNone(buffer, left, budget); }
    if |Payload(buffer, left)| == budget { LimitInChunk(buffer, left, budget); }
  }

  /** With the budget met exactly, a stop is found if and only if the bytes end in a chunk. */
  lemma LimitInChunk(b: seq<byte>, left: nat, budget: nat)
    requires !VerdictOf(b, left).Malformed? && |Payload(b, left)| == budget
    ensures ScanFrom(b, 0, left).Scanned?
    ensures LimitOffset(ScanFrom(b, 0, left).scan, budget).Some? <==> EndsInChunk(b, left)
  {
    hide StepAt, Payload, VerdictOf, EndsInChunk, ScanFrom;
    assert b[0..] == b;
    ScanOfOpen(b, left);
    ScanShowsChunk(b, 0, left);
    var s := ScanFrom(b, 0, left).scan;
    SpansTotal(s);
    if budget > 0 {
      if LimitWalk(s.payloads, s.partial, budget).None? {
        WalkFindsNone(b, 0, left, budget);
      } else {
        WalkFindsChunk(s.payloads, s.partial, budget);
      }
    } else {
      NoneMeansEmpty(s.payloads);
    }
  }

  lemma NoneMeansEmpty(ps: seq<Range>)
    requires (forall r :: r in ps ==> r.start < r.end) && Total(ps) == 0
    ensures ps == []
  {
  }

  lemma SpansTotal(s: PayloadScan)
    ensures Total(Spans(s)) == Total(s.payloads) + (if s.partial.Some? then Size(s.partial.value) else 0)
  {
    if s.partial.Some? {
      TotalSnoc(s.payloads, s.partial.value);
    } else {
      assert Spans(s) == s.payloads;
    }
  }

  lemma CutInMalformed(taken: seq<byte>, left: nat, buffer: seq<byte>, limit: nat, early: bool)
    requires Resumes(taken, 0) == Some(left) && VerdictOf(buffer, left).Malformed?
    ensures CutDecides(taken + buffer, limit, early)
  {
    hide StepAt, Payload, VerdictOf, Resumes, EndsInChunk;
    VerdictExtends(taken, buffer, 0);
    if EndsInChunk(taken + buffer, 0) { InChunkIsOpen(taken + buffer, 0); }
  }

  /** `end` is a place to stop at with exactly `budget` payload bytes before it. */
  ghost predicate ReachesLimit(b: seq<byte>, left: nat, budget: nat, end: nat) {
    && end <= |b| && budget <= |Payload(b, left)|
    && Payload(b[..end], left) == Payload(b, left)[..budget]
    && SameChunks(b[..end], b[..end], left)
  }

  /** Where the read limit falls before a bad framing byte, if it does. */
  method LimitBeforeError(b: seq<byte>, offset: nat, left: nat, budget: nat) returns (at: Option<nat>)
    requires VerdictOf(b, left) == Malformed(offset)
    ensures at.None? ==> |Payload(b, left)| < budget
    ensures at.Some? ==> at.value < offset && ReachesLimit(b, left, budget, at.value)
  {
    hide StepAt, Payload, VerdictOf, Keep, Resumes, SameChunks;
    MalformedSegment(b, left);
    var prefix := b[..offset - 1];
    LimitInPrefix(prefix, left, budget);
    var r := ScanChunkPayloads(prefix, 0, left);
    ScanOfOpen(prefix, left);
    at := ChunkLimitOffset(r.scan, budget);
    if at.None? && Total(r.scan.payloads) == budget {
      at := Some(r.scan.resumeFrom);
    }
    if at.Some? {
      assert prefix[..at.value] == b[..at.value];
    }
  }

  /** A malformed body up to its bad byte, with and without it. */
  lemma MalformedSegment(b: seq<byte>, left: nat)
    requires VerdictOf(b, left).Malformed?
    ensures var k := VerdictOf(b, left).size;
      && SameChunks(b[..k], b[..k - 1], left)
      && VerdictOf(b[..k - 1], left).Open?
      && Payload(b[..k - 1], left) == Payload(b, left)
  {
    hide StepAt, Payload, VerdictOf, Keep;
    var k := VerdictOf(b, left).size;
    MalformedCut(b, left, k);
    MalformedCut(b, left, k - 1);
    forall room: nat | room < |Payload(b, left)|
      ensures Keep(b[..k], left, room) == Keep(b[..k - 1], left, room)
    {
      MalformedKeep(b, left, k, room);
      MalformedKeep(b, left, k - 1, room);
    }
  }

  /** A stop ends after the size line that was fed ahead. */
  lemma FedBeforeStop(b: seq<byte>, left: nat, fed: nat)
    requires FedAhead(b, left, fed) && !VerdictOf(b, left).Open?
    ensures fed <= VerdictOf(b, left).size
  {
    hide StepAt;
    if fed > 0 {
      FedBeforeData(b, left, fed);
    }
  }

  /** The stop looked for in the valid prefix of a malformed body. */
  lemma LimitInPrefix(b: seq<byte>, left: nat, budget: nat)
    requires VerdictOf(b, left).Open?
    ensures ScanFrom(b, 0, left).Scanned?
    ensures var s := ScanFrom(b, 0, left).scan;
      var at := if LimitOffset(s, budget).Some? then LimitOffset(s, budget)
                else if Total(s.payloads) == budget then Some(s.resumeFrom) else None;
      if at.None? then |Payload(b, left)| < budget else ReachesLimit(b, left, budget, at.value)
  {
    hide StepAt, Payload, VerdictOf, Keep, Resumes;
    ScanOfOpen(b, left);
    ScanIsVerdict(b, 0, left);
    assert b[0..] == b;
    var s := ScanFrom(b, 0, left).scan;
    if LimitOffset(s, budget).Some? {
      LimitStops(b, left, budget);
    } else {
      LimitFindsNone(b, left, budget);
      if Total(s.payloads) == budget {
        ResumePoint(b, 0, left);
        assert b[0..s.resumeFrom] == b[..s.resumeFrom];
        ResumesIsOpen(b[..s.resumeFrom], left);
        PayloadGrows(b[..s.resumeFrom], b[s.resumeFrom..], left);
        assert b[..s.resumeFrom] + b[s.resumeFrom..] == b;
      }
    }
  }

  /** A read-limit stop has exactly its budget of payload bytes before it. */
  lemma LimitStops(b: seq<byte>, left: nat, budget: nat)
    requires ScanFrom(b, 0, left).Scanned?
    requires LimitOffset(ScanFrom(b, 0, left).scan, budget).Some?
    ensures ReachesLimit(b, left, budget, LimitOffset(ScanFrom(b, 0, left).scan, budget).value)
  {
    hide StepAt, VerdictOf, Keep;
    assert b[0..] == b;
    if budget > 0 {
      WalkStops(b, 0, left, budget);
      var stop := LimitOffset(ScanFrom(b, 0, left).scan, budget).value;
      assert b[0..stop] == b[..stop];
    } else {
      ResumesIsOpen(b[..0], left);
    }
  }

  /** Without a stop the payload is within the budget, and meets it only at the end
      of a complete chunk. */
  lemma LimitFindsNone(b: seq<byte>, left: nat, budget: nat)
    requires ScanFrom(b, 0, left).Scanned? && !VerdictOf(b, left).Malformed?
    requires LimitOffset(ScanFrom(b, 0, left).scan, budget).None?
    ensures |Payload(b, left)| <= budget
    ensures |Payload(b, left)| == budget ==> Total(ScanFrom(b, 0, left).scan.payloads) == budget
  {
    hide StepAt, Payload, VerdictOf;
    assert b[0..] == b;
    ScanOfOpen(b, left);
    var s := ScanFrom(b, 0, left).scan;
    if budget > 0 {
      WalkFindsNone(b, 0, left, budget);
    }
    if s.partial.None? {
      assert Spans(s) == s.payloads;
    }
  }

  lemma ResumesIsOpen(f: seq<byte>, left: nat)
    requires Resumes(f, left).Some?
    ensures VerdictOf(f, left) == Open && SameChunks(f, f, left)
  {
    hide StepAt;
    assert f + [] == f;
    VerdictExtends(f, [], left);
  }

  /** `mapped` is `f` or `f` without its bad byte: the same chunks either way. */
  ghost predicate SameChunks(f: seq<byte>, mapped: seq<byte>, left: nat) {
    && AllAttributed(f, left)
    && !VerdictOf(mapped, left).Malformed?
    && Payload(f, left) == Payload(mapped, left)
    && |mapped| <= |f|
    && forall room: nat :: room < |Payload(f, left)| ==> Keep(f, left, room) == Keep(mapped, left, room)
  }

  /** Payloads of the chunked bytes, with the partial chunk's part when it has one. */
  method ChunkPayloadParts(b: seq<byte>, left: nat) returns (parts: seq<seq<byte>>)
    requires !VerdictOf(b, left).Malformed?
    ensures Join(parts) == Payload(b, left)
    ensures forall i :: 0 <= i < |parts| ==> parts[i] != []
  {
    hide StepAt, ScanFrom, Payload, VerdictOf, Keep;
    var r := ScanChunkPayloads(b, 0, left);
    ScanOfOpen(b, left);
    ghost var spans := Spans(r.scan);
    var ranges := r.scan.payloads;
    parts := [];
    assert spans[0..] == spans;
    for i := 0 to |ranges|
      invariant Within(b, spans[i..])
      invariant Join(parts) + Gather(b, spans[i..]) == Payload(b, left)
      invariant forall k :: 0 <= k < |parts| ==> parts[k] != []
    {
      assert ranges[i] in ranges && spans[i] == ranges[i];
      assert spans[i..] == [ranges[i]] + spans[i + 1..];
      GatherCons(b, ranges[i], spans[i + 1..]);
      var part := b[ranges[i].start..ranges[i].end];
      JoinShift(parts, part, Gather(b, spans[i + 1..]));
      parts := parts + [part];
    }
    if r.scan.partial.Some? {
      var p := r.scan.partial.value;
      assert spans[|ranges|..] == [p] + [];
      GatherCons(b, p, []);
      if p.end > p.start {
        JoinSnoc(parts, b[p.start..p.end]);
        parts := parts + [b[p.start..p.end]];
      }
    }
  }
}

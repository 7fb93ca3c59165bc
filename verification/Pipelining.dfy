/** Whole requests on one connection: heads, bodies, and what each leaves unread. */
module Pipelining {
  import opened Bytes
  import opened Framing
  import opened ChunkedBody
  import opened ChunkGrammar
  import opened Streams
  import opened RequestParser

  /** How a head frames its body, as the foreign head parser reports it. */
  datatype BodyKind = NoBody | Chunked(upgraded: bool) | Length(length: nat) | Unframed

  /** The foreign head parser: whether it refuses a request at the last byte of what it was
      fed, and how a head it accepts frames the body. */
  datatype HeadParser = HeadParser(rejects: seq<byte> -> bool, framing: seq<byte> -> BodyKind)

  /** One request as recorded; `lost` is what a cancelled read of its head took along. */
  datatype Request = Request(
    head: seq<byte>,
    stop: ParseStop,
    complete: bool,
    bodyWire: seq<byte>,
    body: seq<byte>,
    bodySize: nat,
    wire: seq<byte>,
    lost: seq<byte>)

  /** Bytes of a stream that one request takes: its head and its body. */
  function Taken(r: Request): seq<byte> {
    r.head + r.bodyWire
  }

  // ---- heads ----

  /** The first offset after `from`, up to `to`, where the foreign parser refuses. */
  function FirstRejected(p: HeadParser, s: seq<byte>, from: nat, to: nat): (r: Option<nat>)
    requires to <= |s|
    ensures r.Some? ==> from < r.value <= to
    decreases if from < to then to - from else 0
  {
    if from >= to then None
    else if p.rejects(s[..from + 1]) then Some(from + 1)
    else FirstRejected(p, s, from + 1, to)
  }

  /** Feeding in two steps refuses where feeding at once would. */
  lemma {:induction false} FedInTwo(p: HeadParser, s: seq<byte>, from: nat, mid: nat, to: nat)
    requires from <= mid <= to <= |s|
    ensures FirstRejected(p, s, from, to) ==
      if FirstRejected(p, s, from, mid).Some? then FirstRejected(p, s, from, mid) else FirstRejected(p, s, mid, to)
    decreases if from < mid then mid - from else 0
  {
    if from < mid { FedInTwo(p, s, from + 1, mid, to); }
  }

  /** Where the parser refuses does not depend on later bytes. */
  lemma {:induction false} RejectedInPrefix(p: HeadParser, s: seq<byte>, n: nat, from: nat, to: nat)
    requires to <= n <= |s|
    ensures FirstRejected(p, s[..n], from, to) == FirstRejected(p, s, from, to)
    decreases if from < to then to - from else 0
  {
    if from < to {
      assert s[..n][..from + 1] == s[..from + 1];
      RejectedInPrefix(p, s, n, from + 1, to);
    }
  }

  datatype HeadStop = HeadComplete | HeadRefused | HeadEnded

  /** How far the head parser is fed: through the head's empty line, or everything. */
  function HeadBound(s: seq<byte>): (n: nat)
    ensures n <= |s|
  {
    if HeadEnd(s).Some? then HeadEnd(s).value else |s|
  }

  function HeadStopAt(s: seq<byte>, p: HeadParser): HeadStop {
    if FirstRejected(p, s, 0, HeadBound(s)).Some? then HeadRefused
    else if HeadEnd(s).Some? then HeadComplete
    else HeadEnded
  }

  /** The bytes attributed to the head: through the refused byte, through the empty line, or
      all there are, unless a cancelled read took them along. */
  function HeadOf(s: seq<byte>, p: HeadParser, atEnd: ReadStatus): seq<byte> {
    match HeadStopAt(s, p)
    case HeadRefused => s[..FirstRejected(p, s, 0, HeadBound(s)).value]
    case HeadComplete => s[..HeadBound(s)]
    case HeadEnded => if atEnd.ReadCancelled? then [] else s
  }

  /** The first refusal is one, and nothing shorter was refused. */
  lemma {:induction false} FirstRejectedIs(p: HeadParser, s: seq<byte>, from: nat, to: nat)
    requires to <= |s|
    ensures var r := FirstRejected(p, s, from, to);
      && (r.Some? ==> p.rejects(s[..r.value]) && forall k :: from < k < r.value ==> !p.rejects(s[..k]))
      && (r.None? ==> forall k :: from < k <= to ==> !p.rejects(s[..k]))
    decreases if from < to then to - from else 0
  {
    if from < to { FirstRejectedIs(p, s, from + 1, to); }
  }

  /** How a stream's head ends: refused at the first byte the parser refuses, up to its empty
      line; complete with that line; or not at all. */
  lemma HeadIs(s: seq<byte>, p: HeadParser, ending: Ending)
    ensures var bound := if HeadEnd(s).Some? then HeadEnd(s).value else |s|;
      var head := HeadOf(s, p, StatusAt(ending));
      match HeadStopAt(s, p)
      case HeadRefused =>
        && 0 < |head| <= bound && head == s[..|head|] && p.rejects(head)
        && forall k :: 0 < k < |head| ==> !p.rejects(s[..k])
      case HeadComplete =>
        && HeadEnd(s).Some? && head == s[..bound] && forall k :: 0 < k <= bound ==> !p.rejects(s[..k])
      case HeadEnded =>
        && HeadEnd(s).None? && head == (if ending.Cancelled? then [] else s)
        && forall k :: 0 < k <= |s| ==> !p.rejects(s[..k])
  {
    FirstRejectedIs(p, s, 0, HeadBound(s));
  }

  /** What is known while a head is read: nothing fed so far was refused or ended it. */
  ghost predicate HeadUnderway(s: seq<byte>, p: HeadParser, buffer: seq<byte>, fed: nat) {
    && buffer <= s && fed <= |buffer|
    && FirstRejected(p, s, 0, fed).None? && HeadEnd(s[..fed]).None?
  }

  /** Feeding on to the end of the head or of the buffer settles the head, or goes on. */
  lemma HeadFed(s: seq<byte>, p: HeadParser, buffer: seq<byte>, fed: nat)
    requires HeadUnderway(s, p, buffer, fed)
    ensures var to := HeadBound(buffer);
      && fed <= to <= |buffer|
      && (FirstRejected(p, buffer, fed, to).Some? ==>
            HeadStopAt(s, p) == HeadRefused && FirstRejected(p, s, 0, HeadBound(s)) == FirstRejected(p, buffer, fed, to))
      && (FirstRejected(p, buffer, fed, to).None? && HeadEnd(buffer).Some? ==>
            HeadStopAt(s, p) == HeadComplete && HeadBound(s) == to)
      && (FirstRejected(p, buffer, fed, to).None? && HeadEnd(buffer).None? ==>
            to == |buffer| && HeadUnderway(s, p, buffer, |buffer|))
  {
    var to := HeadBound(buffer);
    assert s[..|buffer|] == buffer;
    if HeadEnd(buffer).Some? {
      HeadEndCut(s, |buffer|);
      if to < fed { HeadEndIn(s, fed); }
    } else {
      HeadEndAfter(s, |buffer|);
    }
    RejectedInPrefix(p, s, |buffer|, fed, to);
    hide HeadEnd, FirstRejected;
    FedInTwo(p, s, 0, fed, to);
    FedInTwo(p, s, 0, to, HeadBound(s));
  }

  /** A head that ends within the first `n` bytes ends there already. */
  lemma HeadEndIn(s: seq<byte>, n: nat)
    requires n <= |s| && HeadEnd(s).Some? && HeadEnd(s).value <= n
    ensures HeadEnd(s[..n]).Some?
  {
    FindCut(s, HEADER_TERMINATOR, 0, n);
  }

  lemma HeadEndAfter(s: seq<byte>, n: nat)
    requires n <= |s| && HeadEnd(s[..n]).None?
    ensures n <= HeadBound(s)
  {
    if HeadEnd(s).Some? && HeadEnd(s).value < n { HeadEndIn(s, n); }
  }

  /** Read on until the head ends or is refused, or the stream ends. */
  method ParseHeaders(reader: ByteStream, initial: seq<byte>, p: HeadParser, maxRead: nat, sink: seq<byte>)
    returns (head: seq<byte>, remaining: seq<byte>, sunk: seq<byte>, stop: HeadStop, lost: seq<byte>)
    requires maxRead > 0 && reader.Valid()
    modifies reader
    ensures reader.Valid() && reader.Watched(old(reader.Now(|initial|, |sink|)), |sink|)
    ensures var s := initial + old(reader.Logical());
      && stop == HeadStopAt(s, p) && head == HeadOf(s, p, StatusAt(reader.ending)) && sunk == sink + head
      && head + lost + remaining + reader.Logical() == s
      && (stop.HeadComplete? ==> lost == [])
      && (stop.HeadRefused? ==> lost == [] && remaining == [])
      && (stop.HeadEnded? ==> reader.Logical() == [] && remaining == [])
      && (lost != [] ==> reader.ending.Cancelled?)
  {
    hide Join, HeadEnd, FirstRejected, HeadBound, HeadUnderway;
    ghost var s := initial + reader.Logical();
    var buffer := initial;
    var fed: nat := 0;
    NothingFedYet(s, p, buffer);
    while true
      invariant reader.Watched(old(reader.Now(|initial|, |sink|)), |sink|)
      invariant reader.Valid() && buffer + reader.Logical() == s && HeadUnderway(s, p, buffer, fed) && fed <= |buffer|
      decreases |reader.Logical()|, |buffer| - fed
    {
      if HeadEnd(buffer).None? && fed == |buffer| {
        var status;
        buffer, status := ReadMoreHead(reader, buffer, maxRead, s, |sink|, old(reader.Now(|initial|, |sink|)));
        if !status.DataRead? {
          EndedHead(s, p, status);
          if status.ReadCancelled? { return [], [], sink, HeadEnded, buffer; }
          return buffer, [], sink + buffer, HeadEnded, [];
        }
        MoreHead(s, p, buffer, fed);
      }
      HeadFed(s, p, buffer, fed);
      var to := HeadBound(buffer);
      var refused := FirstRejected(p, buffer, fed, to);
      if refused.Some? {
        SplitHead(s, buffer, reader.Logical(), refused.value);
        head := buffer[..refused.value];
        reader.UnreadData(buffer[refused.value..]);
        return head, [], sink + head, HeadRefused, [];
      }
      fed := to;
      if HeadEnd(buffer).Some? {
        SplitHead(s, buffer, reader.Logical(), fed);
        return buffer[..fed], buffer[fed..], sink + buffer[..fed], HeadComplete, [];
      }
    }
  }

  method ReadMoreHead(reader: ByteStream, buffer: seq<byte>, maxRead: nat, ghost s: seq<byte>, consumed: nat,
      ghost start: Start) returns (more: seq<byte>, status: ReadStatus)
    requires reader.Watched(start, consumed) && consumed <= start.atHand
    requires maxRead > 0 && reader.Valid() && buffer + reader.Logical() == s
    modifies reader
    ensures reader.Valid() && more + reader.Logical() == s && buffer <= more
    ensures reader.Watched(start, consumed)
    ensures status.DataRead? ==> |reader.Logical()| < |old(reader.Logical())| && |buffer| < |more|
    ensures !status.DataRead? ==> more == buffer == s && reader.Logical() == [] && status == StatusAt(reader.ending)
  {
    hide Join;
    var data;
    data, status := reader.Read(maxRead, consumed);
    more := buffer + data;
    assert buffer + (data + reader.Logical()) == more + reader.Logical();
  }

  lemma MoreHead(s: seq<byte>, p: HeadParser, buffer: seq<byte>, fed: nat)
    requires buffer <= s && fed <= |buffer|
    requires HeadUnderway(s, p, s[..fed], fed)
    ensures HeadUnderway(s, p, buffer, fed)
  {
  }

  lemma SplitHead(s: seq<byte>, buffer: seq<byte>, ahead: seq<byte>, k: nat)
    requires buffer + ahead == s && k <= |buffer|
    ensures s[..k] == buffer[..k]
    ensures buffer[..k] + [] + buffer[k..] + ahead == s && buffer[..k] + [] + [] + (buffer[k..] + ahead) == s
  {
  }

  lemma HeadThenRest(s: seq<byte>, head: seq<byte>, lost: seq<byte>, remaining: seq<byte>, rest: seq<byte>)
    requires head + lost + remaining + rest == s
    ensures |head| + |lost| + |remaining| + |rest| == |s| && head <= s
    ensures lost == [] ==> s[|head|..] == remaining + rest
  {
  }

  /** A stream that ended before its head did, with all of it fed. */
  lemma EndedHead(s: seq<byte>, p: HeadParser, status: ReadStatus)
    requires HeadUnderway(s, p, s, |s|)
    ensures HeadStopAt(s, p) == HeadEnded
    ensures HeadOf(s, p, status) == if status.ReadCancelled? then [] else s
    ensures s + [] + [] + [] == s && [] + s + [] + [] == s
  {
    assert s[..|s|] == s;
  }

  lemma NothingFedYet(s: seq<byte>, p: HeadParser, buffer: seq<byte>)
    requires buffer <= s
    ensures HeadUnderway(s, p, buffer, 0)
  {
  }

  // ---- bodies ----

  /** A chunked body under its limits: `t` is the stream after the head. */
  ghost predicate ChunkedRight(r: Request, head: seq<byte>, t: seq<byte>, limit: Option<nat>, kept: Option<nat>,
      atEnd: ReadStatus)
  {
    var payload := Payload(r.bodyWire, 0);
    && r.head == head && r.lost == []
    && StopsRight(t, limit, r.bodyWire, r.stop, r.complete, atEnd)
    && r.body == payload[..Capped(kept, |payload|)] && r.bodySize == |payload|
    && r.wire == head + KeptWire(kept, r.bodyWire)
  }

  function LengthRequest(head: seq<byte>, t: seq<byte>, n: nat, limit: Option<nat>, kept: Option<nat>,
      atEnd: ReadStatus): Request
  {
    var target := Capped(limit, n);
    var taken := t[..Min(target, |t|)];
    var recorded := taken[..Capped(kept, |taken|)];
    Request(head, if target <= |t| then StageComplete else StopAtEnd(atEnd), |taken| == n, taken,
            recorded, |taken|, head + recorded, [])
  }

  /** A body stage that reads nothing. */
  function Unread(head: seq<byte>, stop: ParseStop, complete: bool): Request {
    Request(head, stop, complete, [], [], 0, head, [])
  }

  /** What a body stage does with the stream `t` after the head. */
  ghost predicate BodyRight(r: Request, head: seq<byte>, t: seq<byte>, kind: BodyKind, limit: Option<nat>,
      kept: Option<nat>, atEnd: ReadStatus)
  {
    match kind
    case NoBody => r == Unread(head, StageComplete, true)
    case _ =>
      if limit == Some(0) then r == Unread(head, StageComplete, false)
      else match kind
        case Chunked(_) => ChunkedRight(r, head, t, limit, kept, atEnd)
        case Length(n) => r == LengthRequest(head, t, n, limit, kept, atEnd)
        case _ => r == Unread(head, ParseFailed, false)
  }

  /** Read the body after a complete head; what is past the stopping point goes back. */
  method ContinueParseBody(reader: ByteStream, head: seq<byte>, remaining: seq<byte>, kind: BodyKind,
      limit: Option<nat>, kept: Option<nat>, maxRead: nat, sink: seq<byte>)
    returns (r: Request, sunk: seq<byte>)
    requires maxRead > 0 && reader.Valid()
    modifies reader
    ensures reader.Valid() && reader.Watched(old(reader.Now(|remaining|, |sink|)), |sunk|)
    ensures var t := remaining + old(reader.Logical());
      && r.bodyWire + reader.Logical() == t && sunk == sink + r.bodyWire
      && BodyRight(r, head, t, kind, limit, kept, StatusAt(reader.ending))
    ensures r.head == head && r.lost == []
  {
    hide Join;
    sunk := sink;
    assert sink + [] == sink && [] + (remaining + reader.Logical()) == remaining + reader.Logical();
    if kind.NoBody? || limit == Some(0) {
      reader.UnreadData(remaining);
      return Unread(head, StageComplete, kind.NoBody?), sink;
    }
    match kind
    case Unframed =>
      reader.UnreadData(remaining);
      r := Unread(head, ParseFailed, false);
    case Chunked(upgraded) =>
      r, sunk := ParseChunked(reader, head, remaining, upgraded, limit, kept, maxRead, sink);
    case Length(n) =>
      r, sunk := ParseLength(reader, head, remaining, n, limit, kept, maxRead, sink);
  }

  /** A body is complete only where its stage is. */
  lemma CompleteStops(r: Request, head: seq<byte>, t: seq<byte>, kind: BodyKind, limit: Option<nat>,
      kept: Option<nat>, atEnd: ReadStatus)
    requires BodyRight(r, head, t, kind, limit, kept, atEnd)
    ensures r.complete ==> r.stop.StageComplete?
    ensures kind.NoBody? ==> r.complete
    ensures limit == Some(0) ==> r.complete == kind.NoBody? && r.stop.StageComplete?
  {
    hide Payload, VerdictOf, KeptWire;
  }

  method ParseChunked(reader: ByteStream, head: seq<byte>, remaining: seq<byte>, upgraded: bool, limit: Option<nat>,
      kept: Option<nat>, maxRead: nat, sink: seq<byte>) returns (r: Request, sunk: seq<byte>)
    requires maxRead > 0 && reader.Valid()
    modifies reader
    ensures reader.Valid() && sunk == sink + r.bodyWire
    ensures reader.Watched(old(reader.Now(|remaining|, |sink|)), |sunk|)
    ensures var t := remaining + old(reader.Logical());
      r.bodyWire + reader.Logical() == t && ChunkedRight(r, head, t, limit, kept, StatusAt(reader.ending))
  {
    hide VerdictOf, Payload, Keep, StepAt, Join, StopsRight, StopsWhereCut, Arrivals;
    var parser := new AsyncRequestParser(maxRead, kept, upgraded, head, sink);
    NothingFed([], 0);
    var stop, taken, arrived := parser.ParseChunkedBody(reader, remaining, limit, head, sink);
    var wire := Joined(parser.wire);
    var body := Joined(parser.bodyParts);
    sunk := parser.sink;
    r := Request(head, stop, parser.isComplete, sunk[|sink|..], body, parser.bodySize, wire, []);
    assert r.bodyWire == taken;
  }

  method ParseLength(reader: ByteStream, head: seq<byte>, remaining: seq<byte>, length: nat, limit: Option<nat>,
      kept: Option<nat>, maxRead: nat, sink: seq<byte>) returns (r: Request, sunk: seq<byte>)
    requires maxRead > 0 && reader.Valid()
    modifies reader
    ensures reader.Valid() && sunk == sink + r.bodyWire
    ensures reader.Watched(old(reader.Now(|remaining|, |sink|)), |sunk|)
    ensures var t := remaining + old(reader.Logical());
      && r.bodyWire + reader.Logical() == t
      && r == LengthRequest(head, t, length, limit, kept, StatusAt(reader.ending))
  {
    hide Join;
    var parser := new AsyncRequestParser(maxRead, kept, false, head, sink);
    PlainStart(parser, head, sink);
    var stop, taken := parser.ParseContentLengthBody(reader, remaining, length, limit, head, sink);
    var wire := Joined(parser.wire);
    var body := Joined(parser.bodyParts);
    sunk := parser.sink;
    r := Request(head, stop, parser.isComplete, sunk[|sink|..], body, parser.bodySize, wire, []);
  }

  lemma PlainStart(parser: AsyncRequestParser, head: seq<byte>, sunk: seq<byte>)
    requires parser.WireHolds([], head, sunk) && parser.sink == sunk && parser.synced == |parser.wire|
    ensures parser.PlainWireHolds([], head, sunk) && !parser.wireCut
  {
  }

  method Joined(parts: seq<seq<byte>>) returns (r: seq<byte>)
    ensures r == Join(parts)
  {
    r := [];
    assert parts[0..] == parts;
    for i := 0 to |parts|
      invariant r + Join(parts[i..]) == Join(parts)
    {
      assert parts[i..][0] == parts[i] && parts[i..][1..] == parts[i + 1..];
      r := r + parts[i];
    }
    assert parts[|parts|..] == [];
  }

  // ---- whole requests ----

  ghost function ChunkedRequest(head: seq<byte>, t: seq<byte>, kept: Option<nat>, atEnd: ReadStatus): Request {
    var v := VerdictOf(t, 0);
    var taken := t[..v.Attributed(|t|)];
    var payload := Payload(taken, 0);
    Request(head, VerdictStop(v, atEnd), v.Complete?, taken,
            payload[..Capped(kept, |payload|)], |payload|, head + KeptWire(kept, taken), [])
  }

  /** Without a read limit a body stage is a function of the stream. */
  ghost function BodyOf(head: seq<byte>, t: seq<byte>, kind: BodyKind, kept: Option<nat>, atEnd: ReadStatus): Request {
    match kind
    case NoBody => Unread(head, StageComplete, true)
    case Chunked(_) => ChunkedRequest(head, t, kept, atEnd)
    case Length(n) => LengthRequest(head, t, n, None, kept, atEnd)
    case Unframed => Unread(head, ParseFailed, false)
  }

  lemma UnlimitedBody(r: Request, head: seq<byte>, t: seq<byte>, kind: BodyKind, kept: Option<nat>, atEnd: ReadStatus)
    requires BodyRight(r, head, t, kind, None, kept, atEnd)
    ensures r == BodyOf(head, t, kind, kept, atEnd)
  {
    hide VerdictOf, Payload, KeptWire;
    if kind.Chunked? {
      assert r.bodyWire == t[..|r.bodyWire|];
    }
  }

  /** The stream after a head starts with the whole body that the head announces. */
  ghost predicate HasBody(t: seq<byte>, kind: BodyKind) {
    match kind
    case NoBody => true
    case Chunked(_) => StartsWithBody(t)
    case Length(n) => n <= |t|
    case Unframed => false
  }

  /** Whatever follows, these bytes are no body: unframed, or chunked framing gone wrong. */
  ghost predicate BadBody(t: seq<byte>, kind: BodyKind) {
    kind.Unframed? || (kind.Chunked? && !CanBeBody(t) && !LateBody(t))
  }

  /** Without a read limit the body is complete exactly if it is there whole; otherwise the
      stop says whether it was malformed, the stream ended, or reading failed. */
  lemma BodyStops(head: seq<byte>, t: seq<byte>, kind: BodyKind, kept: Option<nat>, ending: Ending)
    ensures var r := BodyOf(head, t, kind, kept, StatusAt(ending));
      && (r.complete <==> HasBody(t, kind))
      && (!r.complete ==>
            r.stop == if BadBody(t, kind) then ParseFailed else if ending.Broken? then ReadError else StreamEnded)
  {
    if kind.Chunked? {
      MalformedIff(t);
      CompleteIff(t);
      hide VerdictOf, Payload, KeptWire, StartsWithBody, IsBody, CanBeBody, LateBody;
    }
  }

  /** With nothing capped, a request's wire is its head and its body's wire. */
  lemma WholeWire(head: seq<byte>, t: seq<byte>, kind: BodyKind, atEnd: ReadStatus)
    ensures var r := BodyOf(head, t, kind, None, atEnd);
      r.wire == head + r.bodyWire && r.wire[|head|..] == r.bodyWire
  {
    hide VerdictOf, Payload;
    var r := BodyOf(head, t, kind, None, atEnd);
    assert head + [] == head;
    if kind.Length? {
      assert r.bodyWire[..|r.bodyWire|] == r.bodyWire;
    }
  }

  /** The request a stream starts with, defined without mention of reads. */
  ghost function RequestAt(s: seq<byte>, p: HeadParser, kept: Option<nat>, atEnd: ReadStatus): Request {
    var head := HeadOf(s, p, atEnd);
    match HeadStopAt(s, p)
    case HeadRefused => Unread(head, ParseFailed, false)
    case HeadEnded => Unread(head, StopAtEnd(atEnd), false).(lost := if atEnd.ReadCancelled? then s else [])
    case HeadComplete => BodyOf(head, s[|head|..], p.framing(head), kept, atEnd)
  }

  /** What a stream's first request says: nothing after a head that was refused or cut short,
      or that frames no body; else its body, by the declared length or by the chunk grammar,
      counted whole and recorded up to the limit. */
  lemma RequestIs(s: seq<byte>, p: HeadParser, kept: Option<nat>, ending: Ending)
    ensures var r := RequestAt(s, p, kept, StatusAt(ending));
      var head := HeadOf(s, p, StatusAt(ending));
      var cut := if ending.Broken? then ReadError else StreamEnded;
      match HeadStopAt(s, p)
      case HeadRefused => r == Request(head, ParseFailed, false, [], [], 0, head, [])
      case HeadEnded => r == Request(head, cut, false, [], [], 0, head, if ending.Cancelled? then s else [])
      case HeadComplete =>
        && r.head == head && r.lost == []
        && match p.framing(head)
           case NoBody => r == Request(head, StageComplete, true, [], [], 0, head, [])
           case Unframed => r == Request(head, ParseFailed, false, [], [], 0, head, [])
           case Length(n) =>
             var t := s[|head|..];
             var size := if n <= |t| then n else |t|;
             var room := if kept.Some? && kept.value < size then kept.value else size;
             && r == Request(head, if n <= |t| then StageComplete else cut, n <= |t|, t[..size], t[..room], size,
                             head + t[..room], [])
           case Chunked(_) =>
             var t := s[|head|..];
             && (r.complete <==> StartsWithBody(t))
             && (r.complete ==> r.stop == StageComplete && r.bodyWire <= t)
             && (!r.complete ==> r.stop == if CanBeBody(t) || LateBody(t) then cut else ParseFailed)
             && r.bodySize == |Payload(r.bodyWire, 0)|
             && (r.complete ==> IsBody(r.bodyWire, Payload(r.bodyWire, 0)))
             && r.body == (if kept.Some? && kept.value < r.bodySize then Payload(r.bodyWire, 0)[..kept.value]
                           else Payload(r.bodyWire, 0))
  {
    hide HeadStopAt, HeadOf, Payload, VerdictOf, KeptWire, IsBody, CanBeBody, LateBody, StartsWithBody;
    var head := HeadOf(s, p, StatusAt(ending));
    if HeadStopAt(s, p).HeadComplete? {
      HeadIs(s, p, ending);
      var t, kind := s[|head|..], p.framing(head);
      BodyStops(head, t, kind, kept, ending);
      if kind.Chunked? { ChunkedIs(head, t, kept, StatusAt(ending)); }
      if kind.Length? { LengthIs(head, t, kind.length, kept, ending); }
    }
  }

  lemma LengthIs(head: seq<byte>, t: seq<byte>, n: nat, kept: Option<nat>, ending: Ending)
    ensures var size := if n <= |t| then n else |t|;
      var room := if kept.Some? && kept.value < size then kept.value else size;
      LengthRequest(head, t, n, None, kept, StatusAt(ending)) ==
        Request(head, if n <= |t| then StageComplete else if ending.Broken? then ReadError else StreamEnded,
                n <= |t|, t[..size], t[..room], size, head + t[..room], [])
  {
    var size := if n <= |t| then n else |t|;
    assert forall k :: 0 <= k <= size ==> t[..size][..k] == t[..k];
  }

  lemma ChunkedIs(head: seq<byte>, t: seq<byte>, kept: Option<nat>, atEnd: ReadStatus)
    ensures var r := ChunkedRequest(head, t, kept, atEnd);
      var payload := Payload(r.bodyWire, 0);
      && r.bodySize == |payload| && r.bodyWire <= t
      && (r.complete ==> r.stop == StageComplete && IsBody(r.bodyWire, payload))
      && r.body == (if kept.Some? && kept.value < |payload| then payload[..kept.value] else payload)
  {
    var r, v := ChunkedRequest(head, t, kept, atEnd), VerdictOf(t, 0);
    var payload := Payload(r.bodyWire, 0);
    hide VerdictOf, Payload, KeptWire, IsBody;
    assert payload[..|payload|] == payload;
    if v.Complete? {
      CompleteIff(t);
      assert r.bodyWire[..v.size] == r.bodyWire == t[..v.size];
      BodyIff(r.bodyWire, v.size, Payload(t, 0));
    }
  }

  /** The requests of a stream, up to the first one that does not complete. */
  ghost function RequestsAt(s: seq<byte>, p: HeadParser, kept: Option<nat>, atEnd: ReadStatus, n: nat): seq<Request> {
    if n == 0 then []
    else
      var r := RequestAt(s, p, kept, atEnd);
      if !r.complete || |Taken(r)| > |s| then [r]
      else [r] + RequestsAt(s[|Taken(r)|..], p, kept, atEnd, n - 1)
  }

  /** One request, its body framed as its head says.  The bytes the sink gets, those a
      cancelled head read lost and those left are the stream. */
  method ParseRequest(reader: ByteStream, p: HeadParser, kept: Option<nat>, maxRead: nat, sink: seq<byte>)
    returns (r: Request, sunk: seq<byte>)
    requires maxRead > 0 && reader.Valid()
    modifies reader
    ensures reader.Valid()
    ensures r == RequestAt(old(reader.Logical()), p, kept, StatusAt(reader.ending))
    ensures sunk == sink + Taken(r) && Taken(r) + r.lost + reader.Logical() == old(reader.Logical())
    ensures r.lost != [] ==> reader.ending.Cancelled? && !r.complete
  {
    hide Join, HeadStopAt, HeadOf, BodyRight, BodyOf;
    ghost var s, atEnd := reader.Logical(), StatusAt(reader.ending);
    assert [] + s == s;
    var head, remaining, sunkHead, stop, lost := ParseHeaders(reader, [], p, maxRead, sink);
    if stop.HeadComplete? {
      ghost var t := remaining + reader.Logical();
      r, sunk := ContinueParseBody(reader, head, remaining, p.framing(head), None, kept, maxRead, sunkHead);
      UnlimitedBody(r, head, t, p.framing(head), kept, atEnd);
      HeadAndBody(s, sink, head, remaining, t, r, reader.Logical());
    } else {
      HeadAlone(s, p, atEnd, stop, head, lost, remaining, reader.Logical());
      r := Unread(head, if stop.HeadRefused? then ParseFailed else StopAtEnd(StatusAt(reader.ending)), false);
      r := r.(lost := lost);
      sunk := sunkHead;
    }
  }

  lemma HeadAndBody(s: seq<byte>, sink: seq<byte>, head: seq<byte>, remaining: seq<byte>, t: seq<byte>, r: Request,
      rest: seq<byte>)
    requires |t| >= |remaining| && head + [] + remaining + t[|remaining|..] == s && t[..|remaining|] == remaining
    requires r.head == head && r.lost == [] && r.bodyWire + rest == t
    ensures s[|head|..] == t && sink + Taken(r) == sink + head + r.bodyWire && Taken(r) + r.lost + rest == s
  {
    assert remaining + t[|remaining|..] == t;
    assert head + [] + remaining + t[|remaining|..] == head + t;
    assert head + r.bodyWire + [] + rest == head + (r.bodyWire + rest);
  }

  lemma HeadAlone(s: seq<byte>, p: HeadParser, atEnd: ReadStatus, stop: HeadStop, head: seq<byte>, lost: seq<byte>,
      remaining: seq<byte>, rest: seq<byte>)
    requires stop == HeadStopAt(s, p) && !stop.HeadComplete? && head == HeadOf(s, p, atEnd)
    requires head + lost + remaining + rest == s && remaining == []
    requires if stop.HeadRefused? then lost == [] else rest == []
    ensures head + [] == head && head + [] + lost + rest == s
    ensures stop.HeadEnded? ==> lost == if atEnd.ReadCancelled? then s else []
  {
    assert head + lost + [] + rest == head + lost + rest;
    if stop.HeadEnded? {
      assert head + lost + [] == head + lost;
      assert |lost| == |s| - |head|;
      if head == [] { assert [] + lost == lost; }
    }
  }

  // ---- many requests ----

  ghost function AllTaken(rs: seq<Request>): seq<byte> {
    if rs == [] then [] else AllTaken(rs[..|rs| - 1]) + Taken(rs[|rs| - 1])
  }

  /** What a cancelled read lost, in the last request. */
  function LostIn(rs: seq<Request>): seq<byte> {
    if rs == [] then [] else rs[|rs| - 1].lost
  }

  /** Up to `n` pipelined requests: which they are, and where each of them ends,
      depends on the stream alone; the sink and the unread bytes add up to it, and the
      bytes received are those the sink got and those handed back. */
  method ParsePipeline(reader: ByteStream, p: HeadParser, kept: Option<nat>, maxRead: nat, n: nat)
    returns (requests: seq<Request>, sunk: seq<byte>)
    requires maxRead > 0 && reader.Valid()
    modifies reader
    ensures reader.Valid()
    ensures requests == RequestsAt(old(reader.Logical()), p, kept, StatusAt(reader.ending), n)
    ensures sunk == AllTaken(requests)
    ensures sunk + LostIn(requests) + reader.Logical() == old(reader.Logical())
    ensures LostIn(requests) != [] ==> reader.ending.Cancelled?
    ensures reader.received - |reader.unread| ==
      old(reader.received - |reader.unread|) + |sunk| + |LostIn(requests)|
  {
    hide RequestAt, RequestsAt, AllTaken, Taken, Join;
    ghost var s, atEnd := reader.Logical(), StatusAt(reader.ending);
    reader.ReceivedBalance();
    requests, sunk := [], [];
    NoRequests(s, p, kept, atEnd);
    for i := 0 to n
      invariant reader.Valid() && sunk == AllTaken(requests) && LostIn(requests) == []
      invariant sunk + reader.Logical() == s
      invariant requests + RequestsAt(reader.Logical(), p, kept, atEnd, n - i) == RequestsAt(s, p, kept, atEnd, n)
    {
      ghost var before := reader.Logical();
      var r;
      r, sunk := ParseRequest(reader, p, kept, maxRead, sunk);
      RequestsGoOn(requests, r, before, reader.Logical(), p, kept, atEnd, n - i);
      requests := requests + [r];
      if !r.complete {
        reader.ReceivedBalance();
        return;
      }
      assert sunk + [] == sunk;
    }
    NoRequests(reader.Logical(), p, kept, atEnd);
    assert requests + [] == requests && sunk + [] == sunk;
    reader.ReceivedBalance();
  }

  lemma NoRequests(s: seq<byte>, p: HeadParser, kept: Option<nat>, atEnd: ReadStatus)
    ensures RequestsAt(s, p, kept, atEnd, 0) == [] && AllTaken([]) == [] && [] + s == s
    ensures forall rs: seq<Request> :: [] + rs == rs
  {
  }

  lemma RequestsGoOn(requests: seq<Request>, r: Request, s: seq<byte>, rest: seq<byte>,
      p: HeadParser, kept: Option<nat>, atEnd: ReadStatus, n: nat)
    requires n > 0 && r == RequestAt(s, p, kept, atEnd) && Taken(r) + r.lost + rest == s
    requires r.complete ==> r.lost == []
    ensures AllTaken(requests + [r]) == AllTaken(requests) + Taken(r)
    ensures requests + RequestsAt(s, p, kept, atEnd, n) ==
      if r.complete then requests + [r] + RequestsAt(rest, p, kept, atEnd, n - 1) else requests + [r]
    ensures forall x: seq<byte> :: x + Taken(r) + r.lost + rest == x + s
  {
    hide RequestAt, Taken;
    assert (requests + [r])[..|requests|] == requests;
    if r.complete {
      assert s[|Taken(r)|..] == rest;
      var later := RequestsAt(rest, p, kept, atEnd, n - 1);
      assert requests + ([r] + later) == requests + [r] + later;
    }
    forall x: seq<byte>
      ensures x + Taken(r) + r.lost + rest == x + s
    {
      assert x + (Taken(r) + r.lost + rest) == x + Taken(r) + r.lost + rest;
    }
  }

  /** Split independence: two connections that carry the same bytes, cut into reads in
      any two ways and read in any sizes, record the same requests, feed the same
      bytes to the connection sink and leave the same bytes unread. */
  method SplitIndependence(a: ByteStream, b: ByteStream, p: HeadParser, kept: Option<nat>,
      maxReadA: nat, maxReadB: nat, n: nat)
    returns (ra: seq<Request>, sa: seq<byte>, rb: seq<Request>, sb: seq<byte>)
    requires a != b && a.Valid() && b.Valid() && maxReadA > 0 && maxReadB > 0
    requires a.Logical() == b.Logical() && StatusAt(a.ending) == StatusAt(b.ending)
    modifies a, b
    ensures ra == rb && sa == sb && a.Logical() == b.Logical()
  {
    ghost var s := a.Logical();
    ra, sa := ParsePipeline(a, p, kept, maxReadA, n);
    rb, sb := ParsePipeline(b, p, kept, maxReadB, n);
    ghost var used := sa + LostIn(ra);
    assert a.Logical() == s[|used|..] && b.Logical() == s[|used|..];
  }
}

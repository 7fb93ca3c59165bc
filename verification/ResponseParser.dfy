/** Many responses on one upstream stream, and their relay to a client. */
module ResponseParser {
  import opened Bytes
  import opened Framing
  import opened Stability
  import opened ChunkedBody
  import opened ChunkGrammar
  import opened ScanMeaning
  import opened ChunkTheorems
  import opened Streams

  /** What the foreign parser makes of a head: refused after some bytes, or accepted. */
  datatype HeadVerdict = Refused(offset: nat) | Accepted(status: int, framing: BodyFraming)

  /** `Whole`: the message ends with its head.  `UntilClose` is readable only when the
      headers name neither a length nor a transfer coding. */
  datatype BodyFraming = Whole | ChunkedBody | SizedBody(length: nat) | UntilClose(readable: bool)

  datatype Response = Response(status: int, body: seq<byte>, eofDelimited: bool)

  /** A call's outcome, the bytes it attributes to the response, and those it leaves. */
  datatype Next = Next(response: Option<Response>, wire: seq<byte>, rest: seq<byte>)

  /** A body's outcome on the stream after its head. */
  function BodyAt(t: seq<byte>, status: int, framing: BodyFraming, ending: Ending): Next {
    match framing
    case Whole => Next(Some(Response(status, [], false)), [], t)
    case ChunkedBody =>
      (match VerdictOf(t, 0)
       case Complete(n) => Next(Some(Response(status, Payload(t, 0), false)), t[..n], t[n..])
       case Malformed(n) => Next(None, t[..n], t[n..])
       case Open => Next(None, t, []))
    case SizedBody(n) =>
      if n <= |t| then Next(Some(Response(status, t[..n], false)), t[..n], t[n..]) else Next(None, t, [])
    case UntilClose(readable) =>
      Next(if readable && ending.AtEof? then Some(Response(status, t, true)) else None, t, [])
  }

  function FramingFor(framing: BodyFraming, isHead: bool): BodyFraming {
    if isHead then Whole else framing
  }

  function AfterHead(head: seq<byte>, body: Next): Next {
    Next(body.response, head + body.wire, body.rest)
  }

  /** The next response of a stream, defined without mention of reads. */
  function NextAt(s: seq<byte>, decode: seq<byte> -> HeadVerdict, isHead: bool, ending: Ending): Next {
    match HeadEnd(s)
    case None => Next(None, s, [])
    case Some(end) =>
      match decode(s[..end])
      case Refused(offset) => Next(None, s[..Min(offset, end)], s[Min(offset, end)..])
      case Accepted(status, framing) =>
        AfterHead(s[..end], BodyAt(s[end..], status, FramingFor(framing, isHead), ending))
  }

  /** The answer to a HEAD, and any message that ends with its head, has no body: what
      follows the head is left for the next response. */
  ghost predicate EndsWithHead(s: seq<byte>, end: nat, status: int, n: Next)
    requires end <= |s|
  {
    n == Next(Some(Response(status, [], false)), s[..end], s[end..])
  }

  /** A body of declared length, or a stream that ended short of it. */
  ghost predicate IsSized(s: seq<byte>, end: nat, status: int, length: nat, n: Next)
    requires end <= |s|
  {
    if end + length <= |s| then
      n == Next(Some(Response(status, s[end..end + length], false)), s[..end + length], s[end + length..])
    else n == Next(None, s, [])
  }

  /** A chunked body by the grammar, or everything through a framing error, or a stream that
      ended before its body did. */
  ghost predicate IsChunked(s: seq<byte>, end: nat, status: int, n: Next)
    requires end <= |s|
  {
    var t := s[end..];
    && s == n.wire + n.rest && end <= |n.wire|
    && (n.response.Some? <==> StartsWithBody(t))
    && (n.response.Some? ==>
          && n.response.value.status == status && !n.response.value.eofDelimited
          && IsBody(n.wire[end..], n.response.value.body))
    && (n.response.None? && (CanBeBody(t) || LateBody(t)) ==> n.rest == [])
    && (!CanBeBody(t) && !LateBody(t) ==>
          n.response.None? && VerdictOf(t, 0).Malformed? && |n.wire| == end + VerdictOf(t, 0).size)
  }

  /** Everything to the end of the stream; a response only if the end is clean and nothing in
      the head speaks against it. */
  ghost predicate IsRest(s: seq<byte>, end: nat, status: int, readable: bool, ending: Ending, n: Next)
    requires end <= |s|
  {
    && n.wire == s && n.rest == []
    && n.response == if readable && ending.AtEof? then Some(Response(status, s[end..], true)) else None
  }

  /** What the stream's first response is, head and framing given. */
  ghost predicate AnswersRight(s: seq<byte>, decode: seq<byte> -> HeadVerdict, isHead: bool, ending: Ending, n: Next) {
    match HeadEnd(s)
    case None => n == Next(None, s, [])
    case Some(end) =>
      match decode(s[..end])
      case Refused(offset) => n.response.None? && s == n.wire + n.rest && |n.wire| == Min(offset, end)
      case Accepted(status, framing) =>
        if isHead then EndsWithHead(s, end, status, n)
        else match framing
          case Whole => EndsWithHead(s, end, status, n)
          case SizedBody(length) => IsSized(s, end, status, length, n)
          case ChunkedBody => IsChunked(s, end, status, n)
          case UntilClose(readable) => IsRest(s, end, status, readable, ending, n)
  }

  lemma HeadAnd(s: seq<byte>, end: nat, k: nat)
    requires end + k <= |s|
    ensures s[..end] + s[end..][..k] == s[..end + k] && s[end..][k..] == s[end + k..]
    ensures s[..end] + [] == s[..end] && s[..end] + s[end..] == s && s[end..end + k] == s[end..][..k]
    ensures s[..end + k] + s[end + k..] == s && s[..end + k][end..] == s[end..][..k]
  {
  }

  lemma NextIsRight(s: seq<byte>, decode: seq<byte> -> HeadVerdict, isHead: bool, ending: Ending)
    ensures AnswersRight(s, decode, isHead, ending, NextAt(s, decode, isHead, ending))
  {
    hide IsChunked, VerdictOf, Payload;
    match HeadEnd(s)
    case None =>
    case Some(end) =>
      HeadAnd(s, end, 0);
      match decode(s[..end])
      case Refused(offset) => NextConserves(s, decode, isHead, ending);
      case Accepted(status, framing) =>
        match framing
        case ChunkedBody => ChunkedIsRight(s, end, status, ending);
        case SizedBody(length) => if end + length <= |s| { HeadAnd(s, end, length); }
        case _ =>
  }

  lemma ChunkedIsRight(s: seq<byte>, end: nat, status: int, ending: Ending)
    requires end <= |s|
    ensures IsChunked(s, end, status, AfterHead(s[..end], BodyAt(s[end..], status, ChunkedBody, ending)))
  {
    hide *;
    var t := s[end..];
    MalformedIff(t);
    CompleteIff(t);
    var k := if VerdictOf(t, 0).Open? then |t| else VerdictOf(t, 0).size;
    HeadAnd(s, end, k);
    ChunkedCases(s, end, k, status, ending);
  }

  lemma ChunkedCases(s: seq<byte>, end: nat, k: nat, status: int, ending: Ending)
    requires end + k <= |s|
    requires var t := s[end..]; var v := VerdictOf(t, 0);
      && k == (if v.Open? then |t| else v.size)
      && s[..end] + t[..k] == s[..end + k] && t[k..] == s[end + k..] && s[..end] + t == s
      && s[..end + k] + s[end + k..] == s && s[..end + k][end..] == t[..k]
      && (v.Malformed? <==> !CanBeBody(t) && !LateBody(t))
      && (v.Complete? <==> StartsWithBody(t))
      && (v.Complete? ==> IsBody(t[..v.size], Payload(t, 0)))
    ensures IsChunked(s, end, status, AfterHead(s[..end], BodyAt(s[end..], status, ChunkedBody, ending)))
  {
    hide VerdictOf, Payload, IsBody, CanBeBody, LateBody, StartsWithBody;
  }

  lemma BodyConserves(t: seq<byte>, status: int, framing: BodyFraming, ending: Ending)
    ensures var body := BodyAt(t, status, framing, ending); body.wire + body.rest == t
  {
    hide VerdictOf, Payload;
    assert t + [] == t && [] + t == t;
  }

  /** No byte is lost or moved: the wire and what is left are the stream. */
  lemma NextConserves(s: seq<byte>, decode: seq<byte> -> HeadVerdict, isHead: bool, ending: Ending)
    ensures var n := NextAt(s, decode, isHead, ending);
      && n.wire + n.rest == s
      && (n.response.Some? ==> |n.rest| < |s|)
  {
    hide VerdictOf, Payload, BodyAt;
    var end := HeadEnd(s);
    if end.Some? && decode(s[..end.value]).Accepted? {
      var a := decode(s[..end.value]);
      var t := s[end.value..];
      BodyConserves(t, a.status, FramingFor(a.framing, isHead), ending);
      var body := BodyAt(t, a.status, FramingFor(a.framing, isHead), ending);
      assert s[..end.value] + body.wire + body.rest == s[..end.value] + (body.wire + body.rest);
    }
  }

  lemma ScanBounds(b: seq<byte>, i: nat)
    requires i <= |b|
    ensures match ScanFrom(b, i, 0)
      case ScanError(o) => o <= |b|
      case Scanned(s) => s.end.Some? ==> s.end.value <= |b|
  {
    hide VerdictOf, ScanFrom;
    ScanIsVerdict(b, i, 0);
  }

  /** A complete body's payload does not depend on what follows it. */
  lemma {:induction false} CompletePayload(b: seq<byte>, left: nat)
    requires VerdictOf(b, left).Complete?
    ensures Payload(b[..VerdictOf(b, left).size], left) == Payload(b, left)
    decreases |b|
  {
    var k := VerdictOf(b, left).size;
    if StepAt(b, left).Chunk? {
      hide StepAt;
      CutChunk(b, k, left);
      CompletePayload(Tail(b, left), 0);
    } else {
      StepCut(b, k, left);
    }
  }

  class AsyncMultiResponseParser {
    var buffer: seq<byte>

    /** The bytes not yet attributed to a response. */
    ghost function Pending(reader: ByteStream): seq<byte>
      reads this, reader
    {
      buffer + reader.Logical()
    }

    constructor ()
      ensures buffer == []
    {
      buffer := [];
    }

    method ReadMore(reader: ByteStream, maxRead: nat) returns (status: ReadStatus)
      requires maxRead > 0 && reader.Valid()
      modifies this, reader
      ensures reader.Valid() && Pending(reader) == old(Pending(reader))
      ensures status.DataRead? ==>
        && old(buffer) < buffer && |reader.Logical()| < |old(reader.Logical())|
      ensures !status.DataRead? ==>
        && buffer == old(buffer) && reader.Logical() == [] && status == StatusAt(reader.ending)
    {
      var data;
      data, status := reader.Read(maxRead, 0);
      assert buffer + (data + reader.Logical()) == buffer + data + reader.Logical();
      buffer := buffer + data;
    }

    method ReadHeaders(reader: ByteStream, maxRead: nat) returns (end: Option<nat>)
      requires maxRead > 0 && reader.Valid()
      modifies this, reader
      ensures reader.Valid() && Pending(reader) == old(Pending(reader))
      ensures end == HeadEnd(Pending(reader)) && (end.Some? ==> end.value <= |buffer|)
      ensures end.None? ==> reader.Logical() == []
    {
      while true
        invariant reader.Valid() && Pending(reader) == old(Pending(reader))
        decreases |reader.Logical()|
      {
        end := HeadEnd(buffer);
        if end.Some? {
          assert Pending(reader)[..|buffer|] == buffer;
          HeadEndCut(Pending(reader), |buffer|);
          return;
        }
        var status := ReadMore(reader, maxRead);
        if !status.DataRead? {
          assert Pending(reader) == buffer;
          return;
        }
      }
    }

    /** Take the first `n` buffered bytes. */
    method Take(n: nat) returns (data: seq<byte>)
      requires n <= |buffer|
      modifies this
      ensures data == old(buffer)[..n] && buffer == old(buffer)[n..]
    {
      data := buffer[..n];
      buffer := buffer[n..];
    }

    method ParseSizedBody(reader: ByteStream, maxRead: nat, length: nat, status: int)
      returns (response: Option<Response>, wire: seq<byte>)
      requires maxRead > 0 && reader.Valid()
      modifies this, reader
      ensures reader.Valid()
      ensures Next(response, wire, Pending(reader)) ==
        BodyAt(old(Pending(reader)), status, SizedBody(length), reader.ending)
    {
      hide Join;
      ghost var t := Pending(reader);
      var remaining: nat := length;
      wire := [];
      while remaining > 0
        invariant reader.Valid() && wire + Pending(reader) == t && |wire| + remaining == length
        decreases remaining
      {
        if buffer == [] {
          var more := ReadMore(reader, maxRead);
          if !more.DataRead? {
            assert Pending(reader) == [] && wire == t;
            return None, wire;
          }
        }
        var segment := TakeSegment(reader, Min(remaining, |buffer|), wire);
        wire, remaining := wire + segment, remaining - |segment|;
      }
      assert t[..length] == wire && t[length..] == Pending(reader);
      response := Some(Response(status, wire, false));
    }

    /** Move the first `n` buffered bytes to the end of a wire. */
    method TakeSegment(reader: ByteStream, n: nat, wire: seq<byte>) returns (segment: seq<byte>)
      requires n <= |buffer|
      modifies this
      ensures |segment| == n && segment == old(buffer)[..n]
      ensures wire + segment + Pending(reader) == wire + old(Pending(reader))
    {
      hide Join;
      segment := Take(n);
      assert old(Pending(reader)) == segment + Pending(reader);
      assert wire + segment + Pending(reader) == wire + (segment + Pending(reader));
    }

    method ParseCloseDelimitedBody(reader: ByteStream, maxRead: nat, readable: bool, status: int)
      returns (response: Option<Response>, wire: seq<byte>)
      requires maxRead > 0 && reader.Valid()
      modifies this, reader
      ensures reader.Valid()
      ensures Next(response, wire, Pending(reader)) ==
        BodyAt(old(Pending(reader)), status, UntilClose(readable), reader.ending)
    {
      ghost var t := Pending(reader);
      wire := [];
      while true
        invariant reader.Valid() && wire + Pending(reader) == t
        decreases |reader.Logical()|
      {
        var segment := TakeSegment(reader, |buffer|, wire);
        wire := wire + segment;
        var more := ReadMore(reader, maxRead);
        if !more.DataRead? {
          assert wire == t && Pending(reader) == [];
          response := if readable && more.EndOfStream? then Some(Response(status, wire, true)) else None;
          return;
        }
      }
    }

    /** Rescan only from the first incomplete chunk as bytes arrive. */
    method ParseChunkedBody(reader: ByteStream, maxRead: nat, status: int)
      returns (response: Option<Response>, wire: seq<byte>)
      requires maxRead > 0 && reader.Valid()
      modifies this, reader
      ensures reader.Valid()
      ensures Next(response, wire, Pending(reader)) ==
        BodyAt(old(Pending(reader)), status, ChunkedBody, reader.ending)
    {
      hide VerdictOf, Payload, ScanFrom, Join;
      ghost var t := Pending(reader);
      ghost var seen: seq<Range> := [];
      var scanFrom: nat := 0;
      ScanIsVerdict(t, 0, 0);
      assert t[0..] == t;
      while true
        invariant reader.Valid() && Pending(reader) == t && scanFrom <= |buffer|
        invariant ScanFrom(t, 0, 0) == Prepend(seen, ScanFrom(t, scanFrom, 0))
        decreases |reader.Logical()|
      {
        var result := ScanChunkPayloads(buffer, scanFrom, 0);
        ScanBounds(buffer, scanFrom);
        ScanResumes(buffer, reader.Logical(), scanFrom, 0);
        if result.ScanError? {
          wire := TakeWire(reader, result.offset);
          return None, wire;
        }
        if result.scan.end.Some? {
          wire := TakeWire(reader, result.scan.end.value);
          CompletePayload(t, 0);
          return Some(Response(status, Payload(wire, 0), false)), wire;
        }
        PrependTwice(seen, result.scan.payloads, ScanFrom(t, result.scan.resumeFrom, 0));
        seen, scanFrom := seen + result.scan.payloads, result.scan.resumeFrom;
        var more := ReadMore(reader, maxRead);
        if !more.DataRead? {
          assert buffer == t && buffer + [] == buffer;
          wire := Take(|buffer|);
          return None, wire;
        }
      }
    }

    method TakeWire(reader: ByteStream, n: nat) returns (wire: seq<byte>)
      requires n <= |buffer|
      modifies this
      ensures wire == old(Pending(reader))[..n] && Pending(reader) == old(Pending(reader))[n..]
    {
      wire := Take(n);
    }

    /** Parse the next response; what it returns depends on the stream's bytes alone. */
    method NextResponse(reader: ByteStream, maxRead: nat, decode: seq<byte> -> HeadVerdict, isHead: bool)
      returns (response: Option<Response>, wire: seq<byte>)
      requires maxRead > 0 && reader.Valid()
      modifies this, reader
      ensures reader.Valid()
      ensures Next(response, wire, Pending(reader)) == NextAt(old(Pending(reader)), decode, isHead, reader.ending)
      ensures AnswersRight(old(Pending(reader)), decode, isHead, reader.ending, Next(response, wire, Pending(reader)))
      ensures wire + Pending(reader) == old(Pending(reader))
      ensures response.Some? ==> |Pending(reader)| < |old(Pending(reader))|
    {
      hide Join, BodyAt, HeadEnd, AnswersRight;
      ghost var s := Pending(reader);
      NextIsRight(s, decode, isHead, reader.ending);
      NextConserves(s, decode, isHead, reader.ending);
      var end := ReadHeaders(reader, maxRead);
      if end.None? {
        assert buffer == s;
        wire := Take(|buffer|);
        return None, wire;
      }
      assert s[..end.value] == buffer[..end.value];
      match decode(buffer[..end.value]) {
        case Refused(offset) =>
          wire := TakeWire(reader, Min(offset, end.value));
          response := None;
        case Accepted(status, framing) =>
          var head := TakeWire(reader, end.value);
          var body;
          response, body := ParseBody(reader, maxRead, FramingFor(framing, isHead), status);
          wire := head + body;
      }
    }

    method ParseBody(reader: ByteStream, maxRead: nat, framing: BodyFraming, status: int)
      returns (response: Option<Response>, wire: seq<byte>)
      requires maxRead > 0 && reader.Valid()
      modifies this, reader
      ensures reader.Valid()
      ensures Next(response, wire, Pending(reader)) == BodyAt(old(Pending(reader)), status, framing, reader.ending)
    {
      match framing
      case Whole => response, wire := Some(Response(status, [], false)), [];
      case ChunkedBody => response, wire := ParseChunkedBody(reader, maxRead, status);
      case SizedBody(n) => response, wire := ParseSizedBody(reader, maxRead, n, status);
      case UntilClose(readable) => response, wire := ParseCloseDelimitedBody(reader, maxRead, readable, status);
    }
  }

  // ---- any number of calls ----

  /** The outcomes of successive calls; each call says whether its request was a HEAD. */
  function Nexts(s: seq<byte>, decode: seq<byte> -> HeadVerdict, calls: seq<bool>, ending: Ending): seq<Next>
    decreases |calls|
  {
    if calls == [] then []
    else
      var n := NextAt(s, decode, calls[0], ending);
      [n] + Nexts(n.rest, decode, calls[1..], ending)
  }

  function Wires(nexts: seq<Next>): seq<byte> {
    if nexts == [] then [] else nexts[0].wire + Wires(nexts[1..])
  }

  /** What the calls leave of a stream. */
  function Left(s: seq<byte>, nexts: seq<Next>): seq<byte> {
    if nexts == [] then s else nexts[|nexts| - 1].rest
  }

  lemma OneMoreWire(s: seq<byte>, n: Next, later: seq<Next>)
    requires n.wire + n.rest == s && Wires(later) + Left(n.rest, later) == n.rest
    ensures Wires([n] + later) + Left(s, [n] + later) == s
  {
    assert ([n] + later)[1..] == later;
    var w, r := Wires(later), Left(n.rest, later);
    assert n.wire + w + r == n.wire + (w + r);
  }

  /** Over any calls, failing ones included, the wires then what is left are the stream. */
  lemma {:induction false} WiresConserve(s: seq<byte>, decode: seq<byte> -> HeadVerdict, calls: seq<bool>,
      ending: Ending)
    ensures var nexts := Nexts(s, decode, calls, ending); Wires(nexts) + Left(s, nexts) == s
    decreases |calls|
  {
    hide NextAt;
    if calls != [] {
      hide Wires, Left;
      var n := NextAt(s, decode, calls[0], ending);
      NextConserves(s, decode, calls[0], ending);
      WiresConserve(n.rest, decode, calls[1..], ending);
      OneMoreWire(s, n, Nexts(n.rest, decode, calls[1..], ending));
    }
  }

  /** Successive calls on one parser, the reads split however they were. */
  method NextResponses(parser: AsyncMultiResponseParser, reader: ByteStream, maxRead: nat,
                       decode: seq<byte> -> HeadVerdict, calls: seq<bool>)
    returns (nexts: seq<(Option<Response>, seq<byte>)>)
    requires maxRead > 0 && reader.Valid()
    modifies parser, reader
    ensures reader.Valid()
    ensures var all := Nexts(old(parser.Pending(reader)), decode, calls, reader.ending);
      && |nexts| == |all|
      && (forall i :: 0 <= i < |all| ==> nexts[i] == (all[i].response, all[i].wire))
      && parser.Pending(reader) == Left(old(parser.Pending(reader)), all)
  {
    hide NextAt, Join, AnswersRight;
    nexts := [];
    ghost var s := parser.Pending(reader);
    ghost var all: seq<Next> := [];
    for i := 0 to |calls|
      invariant reader.Valid() && |nexts| == |all| == i
      invariant forall k :: 0 <= k < i ==> nexts[k] == (all[k].response, all[k].wire)
      invariant parser.Pending(reader) == Left(s, all)
      invariant Nexts(s, decode, calls, reader.ending) == all + Nexts(parser.Pending(reader), decode, calls[i..], reader.ending)
    {
      assert calls[i..][1..] == calls[i + 1..];
      var response, wire := parser.NextResponse(reader, maxRead, decode, calls[i]);
      nexts := nexts + [(response, wire)];
      ghost var n := Next(response, wire, parser.Pending(reader));
      NextsJoin(all, n, Nexts(n.rest, decode, calls[i + 1..], reader.ending));
      all := all + [n];
    }
    assert all + [] == all;
  }

  lemma NextsJoin(a: seq<Next>, n: Next, b: seq<Next>)
    ensures a + ([n] + b) == a + [n] + b
  {
  }
}

/** Relaying an upstream's responses to the client, with and without 100-continue. */
module Relay {
  import opened Bytes
  import opened Streams
  import opened ResponseParser
  import opened ChunkedBody
  import opened ChunkGrammar
  import P = Pipelining

  /** What the forwarder writes, in order, to either side. */
  datatype Event = ToUpstream(bytes: seq<byte>) | ToClient(status: int, bytes: seq<byte>)

  datatype Relayed = Relayed(events: seq<Event>, response: Option<Response>, rest: seq<byte>)

  /** A 101 or anything from 200 on ends the exchange; other statuses are interim. */
  predicate IsFinal(status: int) {
    status == 101 || status >= 200
  }

  /** Relay wires until the final one. */
  function RelayAt(s: seq<byte>, decode: seq<byte> -> HeadVerdict, isHead: bool, ending: Ending): Relayed
    decreases |s|
  {
    var n := NextAt(s, decode, isHead, ending);
    NextConserves(s, decode, isHead, ending);
    if n.response.None? then Relayed([], None, n.rest)
    else
      var event := ToClient(n.response.value.status, n.wire);
      if IsFinal(event.status) then Relayed([event], n.response, n.rest)
      else
        var later := RelayAt(n.rest, decode, isHead, ending);
        Relayed([event] + later.events, later.response, later.rest)
  }

  /** The bytes the client gets. */
  function ClientBytes(events: seq<Event>): seq<byte> {
    if events == [] then []
    else (if events[0].ToClient? then events[0].bytes else []) + ClientBytes(events[1..])
  }

  /** Interim responses, then a final one exactly when the relay succeeded. */
  predicate InterimsThenFinal(events: seq<Event>, response: Option<Response>) {
    && (forall i :: 0 <= i < |events| ==> events[i].ToClient?)
    && (forall i :: 0 <= i < |events| - 1 ==> events[i].status < 200 && events[i].status != 101)
    && (response.Some? ==>
          && events != [] && events[|events| - 1].status == response.value.status
          && (response.value.status >= 200 || response.value.status == 101))
    && (response.None? && events != [] ==>
          events[|events| - 1].status < 200 && events[|events| - 1].status != 101)
  }

  lemma OneMoreInterim(event: Event, events: seq<Event>, response: Option<Response>)
    requires event.ToClient? && !IsFinal(event.status) && InterimsThenFinal(events, response)
    ensures InterimsThenFinal([event] + events, response)
  {
  }

  lemma OneMoreWrite(event: Event, events: seq<Event>, rest: seq<byte>, s: seq<byte>, tail: seq<byte>)
    requires event.ToClient? && s == event.bytes + tail && ClientBytes(events) <= tail
    ensures ClientBytes([event] + events) <= s
    ensures ClientBytes(events) + rest == tail ==> ClientBytes([event] + events) + rest == s
  {
    assert ([event] + events)[1..] == events;
    var later := ClientBytes(events);
    assert ClientBytes([event] + events) == event.bytes + later;
    assert event.bytes + later + rest == event.bytes + (later + rest);
    assert later == tail[..|later|];
    assert (event.bytes + tail)[..|event.bytes + later|] == event.bytes + later;
  }

  /** The client gets the upstream's interim wires and then one final wire, and these
      bytes are the start of the upstream's stream; all of it but what is left, on success. */
  lemma {:induction false} RelayIsFaithful(s: seq<byte>, decode: seq<byte> -> HeadVerdict, isHead: bool, ending: Ending)
    ensures var r := RelayAt(s, decode, isHead, ending);
      && InterimsThenFinal(r.events, r.response)
      && ClientBytes(r.events) <= s
      && (r.response.Some? ==> ClientBytes(r.events) + r.rest == s)
    decreases |s|
  {
    hide NextAt;
    var n := NextAt(s, decode, isHead, ending);
    NextConserves(s, decode, isHead, ending);
    if n.response.Some? {
      var event := ToClient(n.response.value.status, n.wire);
      if IsFinal(event.status) {
        OneMoreWrite(event, [], n.rest, s, n.rest);
        assert [event] + [] == [event];
        hide ClientBytes;
      } else {
        var later := RelayAt(n.rest, decode, isHead, ending);
        RelayIsFaithful(n.rest, decode, isHead, ending);
        hide ClientBytes, InterimsThenFinal;
        OneMoreInterim(event, later.events, later.response);
        OneMoreWrite(event, later.events, later.rest, s, n.rest);
      }
    }
  }

  lemma EventsJoin(a: seq<Event>, event: Event, b: seq<Event>)
    ensures a + ([event] + b) == a + [event] + b && a + [] == a
  {
  }

  method ReadAndRelay(parser: AsyncMultiResponseParser, reader: ByteStream, maxRead: nat,
                      decode: seq<byte> -> HeadVerdict, isHead: bool)
    returns (events: seq<Event>, result: Option<Response>)
    requires maxRead > 0 && reader.Valid()
    modifies parser, reader
    ensures reader.Valid()
    ensures Relayed(events, result, parser.Pending(reader))
         == RelayAt(old(parser.Pending(reader)), decode, isHead, reader.ending)
  {
    hide NextAt, Join, AnswersRight;
    ghost var s := parser.Pending(reader);
    events := [];
    while true
      invariant reader.Valid()
      invariant var later := RelayAt(parser.Pending(reader), decode, isHead, reader.ending);
        RelayAt(s, decode, isHead, reader.ending) == Relayed(events + later.events, later.response, later.rest)
      decreases |parser.Pending(reader)|
    {
      var response, wire := parser.NextResponse(reader, maxRead, decode, isHead);
      if response.None? {
        EventsJoin(events, ToClient(0, []), []);
        return events, None;
      }
      var event := ToClient(response.value.status, wire);
      EventsJoin(events, event, RelayAt(parser.Pending(reader), decode, isHead, reader.ending).events);
      events := events + [event];
      if IsFinal(event.status) { return events, response; }
    }
  }

  // ---- 100-continue ----

  datatype ForwardError = ResponseParseFailed | RequestParseFailed

  datatype Forwarded = Forwarded(events: seq<Event>, response: Option<Response>, bodyConsumed: bool,
                                 error: Option<ForwardError>)

  /** What stopped the wait for a go-ahead: a relayed 100, a final response not yet
      relayed, or a stream that cannot be parsed. */
  datatype Waited = Waited(events: seq<Event>, next: Next)

  function WaitAt(s: seq<byte>, decode: seq<byte> -> HeadVerdict, isHead: bool, ending: Ending): Waited
    decreases |s|
  {
    var n := NextAt(s, decode, isHead, ending);
    NextConserves(s, decode, isHead, ending);
    if n.response.None? || IsFinal(n.response.value.status) then Waited([], n)
    else
      var event := ToClient(n.response.value.status, n.wire);
      if event.status == 100 then Waited([event], n)
      else
        var later := WaitAt(n.rest, decode, isHead, ending);
        Waited([event] + later.events, later.next)
  }

  /** The wire of a body that starts the client's stream `t`, if it is there whole. */
  ghost function WholeBody(head: seq<byte>, t: seq<byte>, kind: P.BodyKind, atEnd: ReadStatus): Option<seq<byte>> {
    var r := P.BodyOf(head, t, kind, None, atEnd);
    if r.complete then Some(r.bodyWire) else None
  }

  /** That wire is where a body of the announced kind ends, at the start of the stream. */
  lemma WholeBodyIs(head: seq<byte>, t: seq<byte>, kind: P.BodyKind, ending: Ending)
    ensures var body := WholeBody(head, t, kind, StatusAt(ending));
      && (body.Some? <==> P.HasBody(t, kind))
      && (body.Some? ==> body.value <= t)
      && (body.Some? && kind.NoBody? ==> body.value == [])
      && (body.Some? && kind.Length? ==> |body.value| == kind.length)
      && (body.Some? && kind.Chunked? ==> exists payload :: IsBody(body.value, payload))
  {
    P.BodyStops(head, t, kind, None, ending);
    if kind.Chunked? {
      CompleteIff(t);
      hide VerdictOf, Payload, IsBody;
    }
  }

  /** `body` is the request body's wire, if the client sent it whole. */
  function ContinueAt(head: seq<byte>, headComplete: bool, body: Option<seq<byte>>, s: seq<byte>,
                      decode: seq<byte> -> HeadVerdict, isHead: bool, ending: Ending): Forwarded
  {
    var waited := WaitAt(s, decode, isHead, ending);
    var sent := [ToUpstream(head)] + waited.events;
    var n := waited.next;
    if n.response.None? then Forwarded(sent, None, false, Some(ResponseParseFailed))
    else if n.response.value.status != 100 then
      Forwarded(sent + [ToClient(n.response.value.status, n.wire)], n.response, headComplete, None)
    else if body.None? then Forwarded(sent, None, false, Some(RequestParseFailed))
    else
      var upstream := if body.value == [] then [] else [ToUpstream(body.value)];
      var later := RelayAt(n.rest, decode, isHead, ending);
      Forwarded(sent + upstream + later.events, later.response, true,
                if later.response.Some? then None else Some(ResponseParseFailed))
  }

  method WaitForContinue(parser: AsyncMultiResponseParser, reader: ByteStream, maxRead: nat,
                         decode: seq<byte> -> HeadVerdict, isHead: bool)
    returns (events: seq<Event>, response: Option<Response>, wire: seq<byte>)
    requires maxRead > 0 && reader.Valid()
    modifies parser, reader
    ensures reader.Valid()
    ensures Waited(events, Next(response, wire, parser.Pending(reader)))
         == WaitAt(old(parser.Pending(reader)), decode, isHead, reader.ending)
  {
    hide NextAt, Join, AnswersRight;
    ghost var s := parser.Pending(reader);
    events := [];
    while true
      invariant reader.Valid()
      invariant var later := WaitAt(parser.Pending(reader), decode, isHead, reader.ending);
        WaitAt(s, decode, isHead, reader.ending) == Waited(events + later.events, later.next)
      decreases |parser.Pending(reader)|
    {
      response, wire := parser.NextResponse(reader, maxRead, decode, isHead);
      if response.None? || IsFinal(response.value.status) {
        EventsJoin(events, ToClient(0, []), []);
        return;
      }
      var event := ToClient(response.value.status, wire);
      EventsJoin(events, event, WaitAt(parser.Pending(reader), decode, isHead, reader.ending).events);
      events := events + [event];
      if event.status == 100 { return; }
    }
  }

  /** The wait ended in a go-ahead. */
  predicate GoesOn(w: Waited) {
    w.next.response.Some? && w.next.response.value.status == 100
  }

  /** Read the body the client was told to send, with the request parser. */
  method ReadClientBody(client: ByteStream, head: seq<byte>, remaining: seq<byte>, kind: P.BodyKind, maxRead: nat)
    returns (body: Option<seq<byte>>)
    requires maxRead > 0 && client.Valid()
    modifies client
    ensures client.Valid()
    ensures var t := remaining + old(client.Logical());
      && body == WholeBody(head, t, kind, StatusAt(client.ending))
      && P.BodyOf(head, t, kind, None, StatusAt(client.ending)).bodyWire + client.Logical() == t
  {
    hide Join, P.BodyOf, P.BodyRight;
    ghost var t := remaining + client.Logical();
    var r, sunk := P.ContinueParseBody(client, head, remaining, kind, None, None, maxRead, []);
    P.UnlimitedBody(r, head, t, kind, None, StatusAt(client.ending));
    P.WholeWire(head, t, kind, StatusAt(client.ending));
    body := if r.complete then Some(r.wire[|head|..]) else None;
  }

  /** Relay until the go-ahead, read the client's body, forward it and relay the rest. */
  method ForwardWith100Continue(parser: AsyncMultiResponseParser, reader: ByteStream, maxRead: nat,
                                decode: seq<byte> -> HeadVerdict, isHead: bool,
                                client: ByteStream, head: seq<byte>, remaining: seq<byte>, kind: P.BodyKind)
    returns (forwarded: Forwarded)
    requires maxRead > 0 && reader.Valid() && client.Valid() && client != reader
    modifies parser, reader, client
    ensures reader.Valid() && client.Valid()
    ensures var t := remaining + old(client.Logical());
      var body := WholeBody(head, t, kind, StatusAt(client.ending));
      && forwarded ==
        ContinueAt(head, kind.NoBody?, body, old(parser.Pending(reader)), decode, isHead, reader.ending)
      && (if GoesOn(WaitAt(old(parser.Pending(reader)), decode, isHead, reader.ending))
          then P.BodyOf(head, t, kind, None, StatusAt(client.ending)).bodyWire + client.Logical() == t
          else client.Logical() == old(client.Logical()))
  {
    hide NextAt, Join, WaitAt, RelayAt, WholeBody, P.BodyOf;
    var sent := [ToUpstream(head)];
    var events, response, wire := WaitForContinue(parser, reader, maxRead, decode, isHead);
    sent := sent + events;
    if response.None? { return Forwarded(sent, None, false, Some(ResponseParseFailed)); }
    if response.value.status != 100 {
      return Forwarded(sent + [ToClient(response.value.status, wire)], response, kind.NoBody?, None);
    }
    var body := ReadClientBody(client, head, remaining, kind, maxRead);
    if body.None? { return Forwarded(sent, None, false, Some(RequestParseFailed)); }
    var upstream := if body.value == [] then [] else [ToUpstream(body.value)];
    var later, result := ReadAndRelay(parser, reader, maxRead, decode, isHead);
    forwarded := Forwarded(sent + upstream + later, result, true,
                           if result.Some? then None else Some(ResponseParseFailed));
  }

  /** What the wait relays is interim, and only a 100 that was relayed lets the body follow. */
  lemma {:induction false} WaitIsInterim(s: seq<byte>, decode: seq<byte> -> HeadVerdict, isHead: bool, ending: Ending)
    ensures var w := WaitAt(s, decode, isHead, ending);
      && (forall i :: 0 <= i < |w.events| ==> w.events[i].ToClient? && !IsFinal(w.events[i].status))
      && (w.next.response.Some? && w.next.response.value.status == 100 ==>
            w.events != [] && w.events[|w.events| - 1] == ToClient(100, w.next.wire))
      && (w.next.response.Some? && w.next.response.value.status != 100 ==> IsFinal(w.next.response.value.status))
    decreases |s|
  {
    hide NextAt;
    var n := NextAt(s, decode, isHead, ending);
    NextConserves(s, decode, isHead, ending);
    if n.response.Some? && !IsFinal(n.response.value.status) && n.response.value.status != 100 {
      WaitIsInterim(n.rest, decode, isHead, ending);
    }
  }

  /** Body bytes go upstream only right after a 100 was relayed to the client. */
  lemma BodyAfterContinue(head: seq<byte>, headComplete: bool, body: Option<seq<byte>>, s: seq<byte>,
                          decode: seq<byte> -> HeadVerdict, isHead: bool, ending: Ending, i: nat)
    requires var f := ContinueAt(head, headComplete, body, s, decode, isHead, ending);
      i < |f.events| && f.events[i].ToUpstream?
    ensures var f := ContinueAt(head, headComplete, body, s, decode, isHead, ending);
      if i == 0 then f.events[i] == ToUpstream(head)
      else body == Some(f.events[i].bytes) && f.events[i - 1].ToClient? && f.events[i - 1].status == 100
  {
    hide NextAt, WaitAt, RelayAt;
    WaitIsInterim(s, decode, isHead, ending);
    var n := WaitAt(s, decode, isHead, ending).next;
    RelayIsFaithful(n.rest, decode, isHead, ending);
  }

  /** What plain relaying writes after the wait's own writes. */
  function AfterWait(n: Next, decode: seq<byte> -> HeadVerdict, isHead: bool, ending: Ending): Relayed {
    if n.response.None? then Relayed([], None, n.rest)
    else if n.response.value.status == 100 then RelayAt(n.rest, decode, isHead, ending)
    else Relayed([ToClient(n.response.value.status, n.wire)], n.response, n.rest)
  }

  /** Plain relaying is the wait followed by relaying the rest. */
  lemma {:induction false} WaitThenRelay(s: seq<byte>, decode: seq<byte> -> HeadVerdict, isHead: bool, ending: Ending)
    ensures var w := WaitAt(s, decode, isHead, ending); var later := AfterWait(w.next, decode, isHead, ending);
      RelayAt(s, decode, isHead, ending) == Relayed(w.events + later.events, later.response, later.rest)
    decreases |s|
  {
    hide NextAt;
    var n := NextAt(s, decode, isHead, ending);
    NextConserves(s, decode, isHead, ending);
    if n.response.Some? && !IsFinal(n.response.value.status) && n.response.value.status != 100 {
      WaitThenRelay(n.rest, decode, isHead, ending);
      var event := ToClient(n.response.value.status, n.wire);
      var w := WaitAt(n.rest, decode, isHead, ending);
      var later := AfterWait(w.next, decode, isHead, ending);
      hide AfterWait;
      assert [event] + (w.events + later.events) == [event] + w.events + later.events;
    } else {
      var later := AfterWait(n, decode, isHead, ending);
      assert [] + later.events == later.events;
    }
  }

  lemma {:induction false} ClientBytesAppend(a: seq<Event>, b: seq<Event>)
    ensures ClientBytes(a + b) == ClientBytes(a) + ClientBytes(b)
  {
    if a == [] {
      assert a + b == b;
    } else {
      assert (a + b)[1..] == a[1..] + b;
      ClientBytesAppend(a[1..], b);
    }
  }

  predicate IsGoAhead(event: Event) {
    event.ToClient? && event.status == 100
  }

  /** The wait goes on exactly past responses that are neither a 100 nor final. */
  lemma {:induction false} WaitedFor(s: seq<byte>, decode: seq<byte> -> HeadVerdict, isHead: bool, ending: Ending)
    ensures var w := WaitAt(s, decode, isHead, ending);
      && (forall i :: 0 <= i < |w.events| - (if GoesOn(w) then 1 else 0) ==> !IsGoAhead(w.events[i]))
      && (GoesOn(w) ==> w.events != [] && IsGoAhead(w.events[|w.events| - 1]))
    decreases |s|
  {
    hide NextAt;
    var n := NextAt(s, decode, isHead, ending);
    NextConserves(s, decode, isHead, ending);
    if n.response.Some? && !IsFinal(n.response.value.status) && n.response.value.status != 100 {
      WaitedFor(n.rest, decode, isHead, ending);
    }
  }

  /** A 100 is among the responses that plain relaying would write. */
  ghost predicate SaysGoOn(s: seq<byte>, decode: seq<byte> -> HeadVerdict, isHead: bool, ending: Ending) {
    var events := RelayAt(s, decode, isHead, ending).events;
    exists i :: 0 <= i < |events| && IsGoAhead(events[i])
  }

  lemma GoesOnIff(s: seq<byte>, decode: seq<byte> -> HeadVerdict, isHead: bool, ending: Ending)
    ensures GoesOn(WaitAt(s, decode, isHead, ending)) <==> SaysGoOn(s, decode, isHead, ending)
  {
    hide NextAt, RelayAt, WaitAt;
    WaitThenRelay(s, decode, isHead, ending);
    WaitedFor(s, decode, isHead, ending);
    var w := WaitAt(s, decode, isHead, ending);
    var later := AfterWait(w.next, decode, isHead, ending);
    if GoesOn(w) {
      var at := |w.events| - 1;
      assert IsGoAhead((w.events + later.events)[at]);
    }
  }

  /** What forwarding comes to, by the upstream's stream and the client's body: what failed,
      which response there is, and whether the request was used up. */
  lemma ContinueMeans(head: seq<byte>, headComplete: bool, body: Option<seq<byte>>, s: seq<byte>,
                      decode: seq<byte> -> HeadVerdict, isHead: bool, ending: Ending)
    ensures var f := ContinueAt(head, headComplete, body, s, decode, isHead, ending);
      var r := RelayAt(s, decode, isHead, ending);
      var told := SaysGoOn(s, decode, isHead, ending);
      && f.error == (if told && body.None? then Some(RequestParseFailed)
                     else if r.response.None? then Some(ResponseParseFailed) else None)
      && f.response == (if told && body.None? then None else r.response)
      && (f.bodyConsumed <==> if told then body.Some? else headComplete && r.response.Some?)
  {
    RelayIsFaithful(s, decode, isHead, ending);
    GoesOnIff(s, decode, isHead, ending);
    WaitThenRelay(s, decode, isHead, ending);
    hide NextAt, RelayAt, WaitAt;
  }

  lemma ContinueShowsTheSame(head: seq<byte>, headComplete: bool, body: seq<byte>, s: seq<byte>,
                             decode: seq<byte> -> HeadVerdict, isHead: bool, ending: Ending)
    ensures var f := ContinueAt(head, headComplete, Some(body), s, decode, isHead, ending);
      var r := RelayAt(s, decode, isHead, ending);
      ClientBytes(f.events) == ClientBytes(r.events) && f.response == r.response
  {
    hide NextAt, WaitAt, RelayAt;
    WaitThenRelay(s, decode, isHead, ending);
    var w := WaitAt(s, decode, isHead, ending);
    var later := AfterWait(w.next, decode, isHead, ending);
    var upstream := if GoesOn(w) && body != [] then [ToUpstream(body)] else [];
    UpstreamIsUnseen(head, w.events, upstream, later.events, if upstream == [] then [] else body);
    var f := ContinueAt(head, headComplete, Some(body), s, decode, isHead, ending);
    hide ClientBytes;
    assert [ToUpstream(head)] + w.events + [] == [ToUpstream(head)] + w.events;
    if w.next.response.None? {
      assert w.events + [] == w.events;
      assert f.events + [] == f.events;
    }
    assert f.events == [ToUpstream(head)] + w.events + upstream + later.events;
  }

  lemma UpstreamIsUnseen(head: seq<byte>, a: seq<Event>, upstream: seq<Event>, b: seq<Event>, body: seq<byte>)
    requires upstream == [] || upstream == [ToUpstream(body)]
    ensures ClientBytes([ToUpstream(head)] + a + upstream + b) == ClientBytes(a + b)
  {
    ClientBytesAppend([ToUpstream(head)] + a + upstream, b);
    ClientBytesAppend([ToUpstream(head)] + a, upstream);
    ClientBytesAppend([ToUpstream(head)], a);
    ClientBytesAppend(a, b);
    assert ClientBytes([ToUpstream(head)]) == [] && ClientBytes([ToUpstream(body)]) == [];
  }
}

/** One served HTTP connection: its request loop, its records and its close event. */
module ServerConnection {
  import opened Bytes
  import opened Streams
  import R = RequestParser
  import P = Pipelining

  const REQUEST_MAX_READ: nat := 262144
  const FIRST_READ: nat := 8192

  datatype CloseReason =
    | CloseResponse | RequestRead | ResponseAborted | IdleTimeout | MaxRequests | ConnectionClose
    | Client | ProtocolError | Error | Shutdown

  datatype ClosePhase = Idle | RequestHeaders | RequestBody | Responding | ResponseBody | AfterResponse

  datatype Closed = Closed(reason: CloseReason, phase: ClosePhase, reset: bool,
                           requestsCompleted: nat, bytesRead: nat, bytesConsumed: nat)

  datatype Request = Request(serial: nat, bodyComplete: bool)

  datatype Exchange = Exchange(request: Request, response: Option<int>, interim: seq<int>, closed: Option<Closed>)

  datatype Policy = Policy(timeout: Option<real>, maxRequests: Option<nat>, reset: bool)

  // ---- what the surroundings do, one script per round of the loop ----

  /** How a call ended: it returned, raised, or was cancelled. */
  datatype Flow = Returned | Raised | WasCancelled

  function Stopped(cancelled: bool): Flow {
    if cancelled then WasCancelled else Raised
  }

  /** The wait for a request: it reads, or the timer wins, or it is interrupted. */
  datatype Wait = Reads | TimerFires | WaitStops(cancelled: bool)

  /** How putting a response on the wire ended. */
  datatype WriteEnd = Sent | HeadFails(reset: bool) | BodyFails(reset: bool) | BodyStops(cancelled: bool) | DrainFails(reset: bool)

  /** The transport failed during the write. */
  predicate Loses(w: WriteEnd) {
    w.HeadFails? || w.BodyFails? || w.DrainFails?
  }

  datatype HeaderStep = HeaderShutdown | HeaderSend(status: int, closeTokens: bool, write: WriteEnd)

  datatype HeaderEnd = Proceed | CloseEarly(limit: nat, reset: bool) | HeaderStops(cancelled: bool)

  datatype RelayStep = RelayShutdown | RelayWrite | RelayWriteFails(reset: bool) | RelayCuts(reset: bool)

  /** The response built here when the upstream cannot be reached. */
  datatype Fallback = Fallback(closeTokens: bool, abort: Option<bool>, write: WriteEnd)

  datatype RelayEnd = Relayed(status: int, keepAlive: bool, closing: bool) | BadGateway(fallback: Fallback)
                    | RelayStops(cancelled: bool)

  datatype Spec =
    | CloseConnection(delay: Flow, reset: bool)
    | Local(status: int, closeTokens: bool, abort: Option<bool>, write: WriteEnd)
    | Relay(steps: seq<RelayStep>, end: RelayEnd)

  datatype RespondStep = RespondShutdown | Sends(spec: Spec)

  datatype SendResult = SendResult(recorded: Option<int>, shouldClose: bool, closed: bool)

  datatype RespondEnd = LastSend | Answers(result: SendResult) | RespondStops(cancelled: bool)

  /** Whether a shutdown meant for a wait comes, if there were so many waits. */
  predicate Comes(shutdown: Option<nat>, waits: nat) {
    shutdown.Some? && shutdown.value < waits
  }

  /** Every choice the surroundings make in one round; a shutdown can come at any await.
      What arrives, and how it is cut into reads, is up to the connection's reader. */
  datatype Round = Round(
    policy: Policy, idleShutdown: bool, wait: Wait, policyAfter: Policy,
    headShutdown: Option<nat>,
    stage: Option<seq<HeaderStep>>, stageEnd: HeaderEnd,
    bodyShutdown: Option<nat>,
    respond: seq<RespondStep>, respondEnd: RespondEnd)

  /** The responses put on the wire, in order. */
  function SpecsOf(steps: seq<RespondStep>): seq<Spec> {
    if steps == [] then [] else (if steps[0].Sends? then [steps[0].spec] else []) + SpecsOf(steps[1..])
  }

  /** A response put on the wire whole: from here, from an upstream, or instead of one. */
  predicate IsPlain(spec: Spec) {
    match spec
    case CloseConnection(_, _) => false
    case Local(_, _, abort, write) => abort.None? && write.Sent?
    case Relay(_, Relayed(_, _, _)) => true
    case Relay(_, BadGateway(fallback)) => fallback.abort.None? && fallback.write.Sent?
    case Relay(_, RelayStops(_)) => false
  }

  function StatusOf(spec: Spec): int
    requires IsPlain(spec)
  {
    match spec
    case Local(status, _, _, _) => status
    case Relay(_, Relayed(status, _, _)) => status
    case Relay(_, BadGateway(_)) => 502
  }

  /** Whether a response asks for a close: as its head announces, or as its relay found. */
  predicate Asks(spec: Spec, policy: Policy, completed: nat)
    requires IsPlain(spec)
  {
    match spec
    case Local(status, closeTokens, _, _) => Announces(policy, status, closeTokens, completed)
    case Relay(_, Relayed(_, keepAlive, closing)) => closing || !keepAlive
    case Relay(_, BadGateway(fallback)) => Announces(policy, 502, fallback.closeTokens, completed)
  }

  /** Relaying decides a close: a shutdown, a failed write, or a cut. */
  predicate RelayDecides(steps: seq<RelayStep>) {
    exists i :: 0 <= i < |steps| && steps[i] != RelayWrite
  }

  predicate StepDecides(step: RespondStep) {
    step.RespondShutdown? || (step.spec.Relay? && RelayDecides(step.spec.steps))
  }

  /** A close is decided on the way to plain responses. */
  predicate Decides(steps: seq<RespondStep>) {
    exists i :: 0 <= i < |steps| && StepDecides(steps[i])
  }

  /** Whatever the middleware does around it, one response goes out, and whole. */
  predicate OneResponse(steps: seq<RespondStep>) {
    |SpecsOf(steps)| == 1 && IsPlain(SpecsOf(steps)[0])
  }

  /** Whether a close is asked for in the end: by the response, or by the middleware that
      answers in its place or does not return. */
  predicate Asked(steps: seq<RespondStep>, end: RespondEnd, policy: Policy, completed: nat)
    requires OneResponse(steps)
  {
    match end
    case LastSend => Asks(SpecsOf(steps)[0], policy, completed)
    case Answers(answer) => answer.closed || answer.shouldClose
    case RespondStops(_) => true
  }

  datatype FinalHead = FinalHead(status: int, closeTokens: bool, write: WriteEnd)

  /** What header middleware leaves: the final response whose head it wrote, and whether a
      close was decided. */
  datatype StageEffect = StageEffect(final: Option<FinalHead>, decided: bool)
  {
    /** A second final response is refused without effect. */
    predicate Refuses(step: HeaderStep) {
      step.HeaderSend? && !IsInterim(step.status) && final.Some?
    }

    predicate Decides(step: HeaderStep) {
      step.HeaderShutdown? || (!Refuses(step) && Loses(step.write))
    }

    function After(step: HeaderStep): StageEffect {
      var files := step.HeaderSend? && !IsInterim(step.status) && !Refuses(step) && !step.write.HeadFails?;
      StageEffect(if files then Some(FinalHead(step.status, step.closeTokens, step.write)) else final,
                  decided || Decides(step))
    }
  }

  function EffectOf(steps: seq<HeaderStep>): StageEffect {
    if steps == [] then StageEffect(None, false)
    else EffectOf(steps[..|steps| - 1]).After(steps[|steps| - 1])
  }

  /** A send that writes the head of a final response. */
  predicate IsFinalSend(step: HeaderStep) {
    step.HeaderSend? && !(step.status == 100 || 102 <= step.status <= 199) && !step.write.HeadFails?
  }

  predicate IsFirstFinal(steps: seq<HeaderStep>, i: nat, head: FinalHead)
    requires i < |steps|
  {
    && IsFinalSend(steps[i]) && head == FinalHead(steps[i].status, steps[i].closeTokens, steps[i].write)
    && forall k :: 0 <= k < i ==> !IsFinalSend(steps[k])
  }

  /** What header middleware leaves: the first final response whose head it wrote, and a
      decision exactly if it shut down, or lost the client in a send that was not refused. */
  lemma {:induction false} EffectIs(steps: seq<HeaderStep>)
    ensures var e := EffectOf(steps);
      && (e.final.None? ==> forall i :: 0 <= i < |steps| ==> !IsFinalSend(steps[i]))
      && (e.final.Some? ==> exists i :: 0 <= i < |steps| && IsFirstFinal(steps, i, e.final.value))
      && (e.decided <==> exists i :: 0 <= i < |steps| && DecidesAt(steps, i))
  {
    if steps != [] {
      var n := |steps| - 1;
      var front, step := steps[..n], steps[n];
      EffectIs(front);
      var e := EffectOf(front);
      assert forall i :: 0 <= i < n ==> front[i] == steps[i];
      forall i | 0 <= i < n ensures DecidesAt(front, i) <==> DecidesAt(steps, i) {}
      Interims(if step.HeaderSend? then step.status else 0);
      if e.final.Some? {
        var i :| 0 <= i < n && IsFirstFinal(front, i, e.final.value);
        assert IsFirstFinal(steps, i, e.final.value);
      } else if IsFinalSend(step) {
        assert IsFirstFinal(steps, n, e.After(step).final.value);
      }
      assert e.Decides(step) <==> DecidesAt(steps, n);
      if e.decided {
        var i :| 0 <= i < n && DecidesAt(front, i);
        assert DecidesAt(steps, i);
      }
    }
  }

  /** The step shuts down, or loses the client while no final response is out, or in an
      interim response. */
  predicate DecidesAt(steps: seq<HeaderStep>, i: nat)
    requires i < |steps|
  {
    var step := steps[i];
    step.HeaderShutdown? ||
    ((step.write.HeadFails? || step.write.BodyFails? || step.write.DrainFails?)
     && ((step.status == 100 || 102 <= step.status <= 199) || forall k :: 0 <= k < i ==> !IsFinalSend(steps[k])))
  }

  /** Without header middleware nothing is sent and nothing decided. */
  function StageOf(stage: Option<seq<HeaderStep>>): StageEffect {
    if stage.Some? then EffectOf(stage.value) else StageEffect(None, false)
  }

  predicate FixedPolicy(rounds: seq<Round>, p: Policy) {
    forall i :: 0 <= i < |rounds| ==> rounds[i].policy == p && rounds[i].policyAfter == p
  }

  predicate IsInterim(status: int) {
    100 <= status < 200 && status != 101
  }

  /** The interim statuses: 1xx, except the switch of protocols. */
  lemma Interims(status: int)
    ensures IsInterim(status) <==> status == 100 || 102 <= status <= 199
  {
  }

  predicate AtLimit(policy: Policy, completed: nat) {
    policy.maxRequests.Some? && completed >= policy.maxRequests.value
  }

  predicate ZeroTimeout(policy: Policy) {
    policy.timeout.Some? && policy.timeout.value <= 0.0
  }

  /** Whether the wait for a next request is timed: not before the first one. */
  predicate Timed(policy: Policy, completed: nat) {
    completed > 0 && policy.timeout.Some? && policy.timeout.value > 0.0
  }

  /** The closes decided while waiting for a request, each with the counters of `base`;
      `ended` is how the stream ended, if nothing was left of it. */
  function IdleDecisions(r: Round, base: Closed, policy: Policy, ended: Option<Ending>, resets: bool): seq<Closed> {
    (if r.idleShutdown then [base.(reason := Shutdown)] else []) + WaitDecisions(r.wait, base, policy, ended, resets)
  }

  function WaitDecisions(wait: Wait, base: Closed, policy: Policy, ended: Option<Ending>, resets: bool): seq<Closed> {
    if wait.WaitStops? then []
    else if wait.TimerFires? && Timed(policy, base.requestsCompleted) then
      [base.(reason := IdleTimeout, reset := policy.reset)]
    else EndDecisions(base, ended, resets)
  }

  /** The close that the stream's end leads to while waiting. */
  function EndDecisions(base: Closed, ended: Option<Ending>, resets: bool): seq<Closed> {
    if ended == Some(AtEof) then [base] else if ended == Some(Broken) then [base.(reset := resets)] else []
  }

  /** Whether a response's head announces that the connection closes after it. */
  predicate Announces(policy: Policy, status: int, closeTokens: bool, completed: nat) {
    status == 101 || closeTokens || AtLimit(policy, completed)
  }

  /** Whether the close policy ends the connection after a response, nothing having been decided yet. */
  predicate PolicyCloses(policy: Policy, completed: nat, shouldClose: bool) {
    AtLimit(policy, completed) || ZeroTimeout(policy) || shouldClose
  }

  /** After a response, and with nothing decided, the connection ends at the request limit,
      on a keep-alive timeout of zero, or when asked; a positive timeout, or none, keeps it.
      Its head announces the first and the last of these, not the timeout. */
  lemma PolicyIs(policy: Policy, completed: nat, status: int, closeTokens: bool)
    ensures var spent := policy.maxRequests.Some? && policy.maxRequests.value <= completed;
      && (Announces(policy, status, closeTokens, completed) <==> spent || closeTokens || status == 101)
      && (policy.timeout.None? || policy.timeout.value > 0.0 ==>
            forall asked :: PolicyCloses(policy, completed, asked) <==> spent || asked)
      && (policy.timeout.Some? && policy.timeout.value <= 0.0 ==>
            forall asked :: PolicyCloses(policy, completed, asked))
  {
  }

  // ---- what the records must say ----

  function CountComplete(requests: seq<Request>): nat {
    if requests == [] then 0
    else CountComplete(requests[..|requests| - 1]) + (if requests[|requests| - 1].bodyComplete then 1 else 0)
  }

  function FirstOf(attempts: seq<Closed>): Option<Closed> {
    if attempts == [] then None else Some(attempts[0])
  }

  /** One exchange per request, in order; `owed` when the last request still lacks its own. */
  predicate Paired(requests: seq<Request>, exchanges: seq<Exchange>, owed: bool) {
    && |requests| == |exchanges| + (if owed then 1 else 0)
    && forall i :: 0 <= i < |exchanges| ==> exchanges[i].request == requests[i]
  }

  predicate NoneClosed(exchanges: seq<Exchange>) {
    forall i :: 0 <= i < |exchanges| ==> exchanges[i].closed.None?
  }

  /** At most the last exchange carries a close event, and it is `event`. */
  predicate LastCarries(exchanges: seq<Exchange>, event: Option<Closed>) {
    forall i :: 0 <= i < |exchanges| && exchanges[i].closed.Some? ==>
      i == |exchanges| - 1 && exchanges[i].closed == event
  }

  lemma CountOneMore(requests: seq<Request>, request: Request)
    ensures CountComplete(requests + [request]) == CountComplete(requests) + (if request.bodyComplete then 1 else 0)
  {
    assert (requests + [request])[..|requests|] == requests;
  }

  /** No event counts more bytes consumed than read. */
  predicate Sane(attempts: seq<Closed>) {
    forall i :: 0 <= i < |attempts| ==> attempts[i].bytesConsumed <= attempts[i].bytesRead
  }

  datatype Head = Head(bytesRead: nat, bytesConsumed: nat, unread: nat)

  predicate HeadsBalance(heads: seq<Head>) {
    forall i :: 0 <= i < |heads| ==> heads[i].bytesRead == heads[i].bytesConsumed + heads[i].unread
  }

  class HTTPConnection {
    // the wrapped reader, which counts `bytes_read`, and the foreign head parser's verdicts
    const reader: ByteStream
    const headParser: P.HeadParser
    // whether a refused head had its headers reported, and whether read errors are resets
    const headersSeen: seq<byte> -> bool
    const resets: bool
    const maxBodyKept: Option<nat>
    // ConnectionState; `bytes_consumed` is what the sink holds
    var phase: ClosePhase
    var requestsCompleted: nat
    var sink: seq<byte>
    var interim: seq<int>
    var final: Option<int>
    var closed: Option<Closed>
    // the connection's own fields
    var policy: Policy
    var finalized: bool
    var sending: Option<int>
    var sentAny: bool
    var finalSendClose: bool
    // what the recorder got from this connection
    var requests: seq<Request>
    var exchanges: seq<Exchange>
    var closedEvents: seq<Closed>
    // every close decision tried, and the counters at every loop head
    ghost var attempts: seq<Closed>
    ghost var heads: seq<Head>
    // bytes received that are neither in the sink nor back in the reader
    ghost var inFlight: nat

    /** The event is the first decision, published once if finalized; every byte is accounted for. */
    ghost predicate Sound()
      reads this`closed, this`attempts, this`closedEvents, this`finalized, this`sink, this`inFlight, reader
    {
      && closed == FirstOf(attempts) && Sane(attempts)
      && closedEvents == (if finalized && closed.Some? then [closed.value] else [])
      && (finalized ==> closed.Some?)
      && reader.Valid() && |sink| + inFlight + |reader.Logical()| == reader.total
    }

    /** No exchange of a request under way is recorded yet; `counted` and `owed` say how far it got. */
    ghost predicate Serving(counted: bool, owed: bool)
      reads this`closed, this`attempts, this`closedEvents, this`finalized, this`sink, this`inFlight, reader
      reads this`requests, this`exchanges, this`requestsCompleted
    {
      && Sound() && !finalized && Paired(requests, exchanges, owed) && NoneClosed(exchanges)
      && requestsCompleted == CountComplete(requests) + (if counted then 1 else 0)
    }

    /** Between requests, or after the last one. */
    ghost predicate Settled()
      reads this`closed, this`attempts, this`closedEvents, this`finalized, this`sink, this`inFlight, reader
      reads this`requests, this`exchanges, this`requestsCompleted
    {
      && Sound() && Paired(requests, exchanges, false) && LastCarries(exchanges, closed)
      && requestsCompleted == CountComplete(requests)
    }

    lemma NothingOwed()
      requires Serving(false, false)
      ensures Settled() && !finalized
    {
    }

    /** The bytes read are those consumed, those in flight and those given back. */
    lemma ReceivedIsAccounted()
      requires Sound()
      ensures reader.received == |sink| + inFlight + |reader.unread|
    {
      reader.ReceivedBalance();
    }

    constructor (reader: ByteStream, headParser: P.HeadParser, headersSeen: seq<byte> -> bool, resets: bool,
        maxBodyKept: Option<nat>)
      requires reader.Valid() && reader.received == 0 && reader.unread == []
      ensures Serving(false, false) && closed.None? && requests == [] && inFlight == 0 && heads == []
      ensures requestsCompleted == 0 && sink == [] && this.reader == reader && this.headParser == headParser
    {
      this.reader, this.headParser, this.headersSeen, this.resets := reader, headParser, headersSeen, resets;
      this.maxBodyKept := maxBodyKept;
      phase, requestsCompleted, sink := Idle, 0, [];
      interim, final, closed, inFlight := [], None, None, 0;
      policy, finalized := Policy(None, None, false), false;
      sending, sentAny, finalSendClose := None, false, false;
      requests, exchanges, closedEvents, attempts, heads := [], [], [], [], [];
    }

    /** The event a decision made now would record. */
    function EventNow(reason: CloseReason, where_: ClosePhase, reset: bool): Closed
      reads this`requestsCompleted, this`sink, reader`received
    {
      Closed(reason, where_, reset, requestsCompleted, reader.received, |sink|)
    }

    /** The first decision is kept; a later one changes nothing. */
    method Log(event: Closed)
      requires Sound() && event.bytesConsumed <= event.bytesRead
      modifies this`closed, this`attempts
      ensures Sound() && attempts == old(attempts) + [event]
      ensures closed == if old(closed).Some? then old(closed) else Some(event)
    {
      if closed.None? { closed := Some(event); }
      attempts := attempts + [event];
    }

    method Decide(reason: CloseReason, where_: ClosePhase, reset: bool)
      requires Sound()
      modifies this`closed, this`attempts
      ensures Sound() && attempts == old(attempts) + [EventNow(reason, where_, reset)]
      ensures closed == if old(closed).Some? then old(closed) else Some(EventNow(reason, where_, reset))
    {
      ReceivedIsAccounted();
      Log(EventNow(reason, where_, reset));
    }

    /** A shutdown that came at one of a read's waits for the network, now that the read is
        over: it decided with the counters of that wait. */
    method DecideDuringRead(shutdown: Option<nat>, from: nat, ghost start: Start)
      requires Sound() && start.waits == from && reader.Watched(start, |sink|) && start.atHand <= start.received
      modifies this`closed, this`attempts
      ensures Sound() && (old(closed).Some? ==> closed == old(closed))
      ensures closed.Some? <==> old(closed).Some? || Comes(shutdown, |reader.waits| - from)
      ensures attempts == old(attempts) +
        if !Comes(shutdown, |reader.waits| - from) then []
        else var at := reader.waits[from + shutdown.value];
          [Closed(Shutdown, phase, false, requestsCompleted, at.bytesRead, at.bytesConsumed)]
    {
      if Comes(shutdown, |reader.waits| - from) {
        var at := reader.waits[from + shutdown.value];
        Log(Closed(Shutdown, phase, false, requestsCompleted, at.bytesRead, at.bytesConsumed));
      }
    }

    // ---- records ----

    method RecordRequest(bodyComplete: bool) returns (request: Request)
      modifies this`requests
      ensures requests == old(requests) + [request] && request == Request(|old(requests)|, bodyComplete)
    {
      request := Request(|requests|, bodyComplete);
      requests := requests + [request];
    }

    method RecordExchange(request: Request, response: Option<int>)
      requires Serving(false, true) && request == requests[|requests| - 1]
      modifies this`exchanges, this`sending
      ensures Settled() && (closed.None? ==> Serving(false, false))
      ensures exchanges == old(exchanges) + [Exchange(request, response, interim, closed)]
    {
      exchanges, sending := exchanges + [Exchange(request, response, interim, closed)], None;
    }

    /** The counter rises by one when `complete` is first said of a request. */
    method TrackBoundary(complete: bool)
      modifies this`phase, this`requestsCompleted
      ensures !complete ==> phase == RequestBody && requestsCompleted == old(requestsCompleted)
      ensures complete ==> phase == Responding
      ensures old(Serving(false, false)) && old(phase) != Responding ==> Serving(complete, false)
      ensures complete ==> requestsCompleted == old(requestsCompleted) + (if old(phase) == Responding then 0 else 1)
    {
      if !complete {
        phase := RequestBody;
      } else if phase != Responding {
        requestsCompleted, phase := requestsCompleted + 1, Responding;
      }
    }

    /** Record a request as read so far, counting it if it is complete and was not counted yet. */
    method FileRequest(complete: bool) returns (request: Request)
      requires Serving(phase == Responding, false) && (phase == Responding ==> complete)
      modifies this`requests, this`phase, this`requestsCompleted
      ensures Serving(false, true) && request == requests[|requests| - 1]
      ensures requests == old(requests) + [request] && request == Request(|old(requests)|, complete)
      ensures phase == if complete then Responding else RequestBody
      ensures requestsCompleted == old(requestsCompleted) + (if complete && old(phase) != Responding then 1 else 0)
    {
      hide CountComplete;
      request := RecordRequest(complete);
      CountOneMore(old(requests), request);
      TrackBoundary(complete);
    }

    /** The last attempt to decide is this one, with the counters of now. */
    ghost predicate LastDecides(reason: CloseReason, where_: ClosePhase, reset: bool)
      reads this`attempts, this`requestsCompleted, this`sink, reader`received
    {
      attempts != [] && attempts[|attempts| - 1] == EventNow(reason, where_, reset)
    }

    method DecideReadStop(stop: R.ParseStop, headersParsed: bool)
      requires Sound() && !finalized
      modifies this`closed, this`attempts
      ensures Sound() && closed.Some?
      ensures |attempts| == |old(attempts)| + 1 && old(attempts) <= attempts
      ensures var where_ := if headersParsed then RequestBody else RequestHeaders;
        match stop
        case ParseFailed => LastDecides(ProtocolError, where_, false)
        case ReadError => LastDecides(Client, where_, resets)
        case _ => LastDecides(Client, where_, false)
    {
      var where_ := if headersParsed then RequestBody else RequestHeaders;
      match stop
      case ParseFailed => Decide(ProtocolError, where_, false);
      case ReadError => Decide(Client, where_, resets);
      case _ => Decide(Client, where_, false);
    }

    /** A request that is not read on: one record, one exchange, and the close decided.
        In phase Responding its boundary was already seen. */
    method RecordInterrupted(complete: bool, reason: CloseReason, reset: bool)
      requires Serving(phase == Responding, false) && (phase == Responding ==> complete)
      modifies this`requests, this`phase, this`requestsCompleted, this`closed, this`attempts, this`exchanges, this`sending
      ensures Settled() && !finalized && closed.Some?
      ensures attempts == old(attempts) + [EventNow(reason, phase, reset)]
      ensures phase == if complete then Responding else RequestBody
      ensures requests == old(requests) + [Request(|old(requests)|, complete)]
      ensures exchanges == old(exchanges) + [Exchange(Request(|old(requests)|, complete), final, interim, closed)]
      ensures requestsCompleted == old(requestsCompleted) + (if complete && old(phase) != Responding then 1 else 0)
    {
      hide CountComplete, Paired, NoneClosed, LastCarries, FirstOf, Sane;
      var request := FileRequest(complete);
      Decide(reason, phase, reset);
      RecordExchange(request, final);
    }

    /** The end of a read: a whole request goes on to be answered, a partial one is filed at once. */
    method CompleteReading(complete: bool, stop: R.ParseStop) returns (reading: Option<Request>)
      requires Serving(phase == Responding, false) && (phase == Responding ==> complete)
      requires complete ==> stop.StageComplete?
      modifies this`requests, this`phase, this`requestsCompleted, this`closed, this`attempts, this`exchanges, this`sending
      ensures reading.Some? <==> complete
      ensures requests == old(requests) + [Request(|old(requests)|, complete)]
      ensures requestsCompleted == old(requestsCompleted) + (if complete && old(phase) != Responding then 1 else 0)
      ensures complete ==> Serving(false, true) && reading.value == requests[|requests| - 1] && phase == Responding
      ensures complete ==> closed == old(closed) && attempts == old(attempts) && exchanges == old(exchanges)
      ensures !complete ==> Settled() && !finalized && closed.Some?
      ensures !complete ==> |attempts| == |old(attempts)| + 1 && old(attempts) <= attempts
      ensures !complete ==>
        match stop
        case ParseFailed => LastDecides(ProtocolError, RequestBody, false)
        case ReadError => LastDecides(Client, RequestBody, resets)
        case _ => LastDecides(Client, RequestBody, false)
      ensures !complete ==>
        exchanges == old(exchanges) + [Exchange(Request(|old(requests)|, false), final, interim, closed)]
    {
      hide CountComplete, Paired, NoneClosed, LastCarries, FirstOf, Sane;
      var request := FileRequest(complete);
      if complete { return Some(request); }
      DecideReadStop(stop, true);
      RecordExchange(request, final);
      reading := None;
    }

    // ---- writing ----

    /** The effects of a write that ended as `w`: a transport failure decides the close. */
    method Write(w: WriteEnd) returns (flow: Flow)
      requires Sound() && !finalized
      modifies this`sentAny, this`closed, this`attempts
      ensures Sound() && (old(closed).Some? ==> closed == old(closed))
      ensures match w
        case Sent => flow.Returned? && attempts == old(attempts)
        case BodyStops(cancelled) => flow == (if cancelled then WasCancelled else Raised) && attempts == old(attempts)
        case HeadFails(reset) => flow.Raised? && attempts == old(attempts) + [EventNow(Client, phase, reset)]
        case BodyFails(reset) => flow.Raised? && attempts == old(attempts) + [EventNow(Client, phase, reset)]
        case DrainFails(reset) => flow.Raised? && attempts == old(attempts) + [EventNow(Client, phase, reset)]
      ensures !Loses(w) ==> closed == old(closed)
      ensures closed.Some? <==> old(closed).Some? || Loses(w)
    {
      hide FirstOf, Sane;
      sentAny := true;
      match w
      case Sent => flow := Returned;
      case BodyStops(cancelled) => flow := Stopped(cancelled);
      case HeadFails(reset) => Decide(Client, phase, reset); flow := Raised;
      case BodyFails(reset) => Decide(Client, phase, reset); flow := Raised;
      case DrainFails(reset) => Decide(Client, phase, reset); flow := Raised;
    }

    /** What the counter will show when this request has been read. */
    function CompletedWithCurrent(): nat
      reads this`phase, this`requestsCompleted
    {
      if phase == Responding then requestsCompleted else requestsCompleted + 1
    }

    /** The final response header middleware sent is filed, with the close its head announced. */
    predicate Filed(effect: StageEffect, completed: nat)
      reads this`final, this`finalSendClose, this`policy
    {
      && final == (if effect.final.Some? then Some(effect.final.value.status) else None)
      && (effect.final.Some? ==>
            finalSendClose == Announces(policy, effect.final.value.status, effect.final.value.closeTokens, completed))
    }

    /** A response header middleware sends; it is filed once its head was written. */
    method SendHeaderPhase(status: int, closeTokens: bool, w: WriteEnd, ghost counted: bool) returns (flow: Flow)
      requires Serving(counted, false)
      modifies this`interim, this`final, this`finalSendClose, this`sentAny, this`closed, this`attempts
      ensures Serving(counted, false) && old(attempts) <= attempts
      ensures flow.Returned? <==> w.Sent? && (IsInterim(status) || old(final).None?)
      ensures IsInterim(status) || old(final).None? ==>
        attempts == old(attempts) + (if Loses(w) then [EventNow(Client, phase, w.reset)] else [])
      ensures IsInterim(status) ==>
        final == old(final) && interim == old(interim) + (if w.HeadFails? then [] else [status])
      ensures !IsInterim(status) ==> interim == old(interim)
      ensures !IsInterim(status) && old(final).Some? ==> final == old(final) && attempts == old(attempts)
      ensures !IsInterim(status) && old(final).None? ==> final == if w.HeadFails? then None else Some(status)
      ensures final != old(final) ==>
        finalSendClose == Announces(policy, status, closeTokens, CompletedWithCurrent())
      ensures final == old(final) ==> finalSendClose == old(finalSendClose)
      ensures IsInterim(status) || old(final).None? ==> (closed.Some? <==> old(closed).Some? || Loses(w))
      ensures !IsInterim(status) && old(final).Some? ==> closed == old(closed)
    {
      hide Paired, NoneClosed, CountComplete, FirstOf, Sane, Announces;
      var close := false;
      if !IsInterim(status) {
        if final.Some? { return Raised; }
        close := Announces(policy, status, closeTokens, CompletedWithCurrent());
      }
      flow := Write(w);
      if !w.HeadFails? {
        if IsInterim(status) {
          interim := interim + [status];
        } else {
          final, finalSendClose := Some(status), close;
        }
      }
    }

    /** Header middleware: it may send responses and shut the server down before it ends. */
    method RunHeaderStage(steps: seq<HeaderStep>, ghost counted: bool)
      requires Serving(counted, false) && final.None?
      modifies this`interim, this`final, this`finalSendClose, this`sentAny, this`closed, this`attempts
      ensures Serving(counted, false) && old(attempts) <= attempts
      ensures Filed(EffectOf(steps), CompletedWithCurrent())
      ensures closed.Some? <==> old(closed).Some? || EffectOf(steps).decided
    {
      hide Serving, Announces;
      assert steps[..0] == [] && steps[..|steps|] == steps;
      for i := 0 to |steps|
        invariant Serving(counted, false) && old(attempts) <= attempts
        invariant Filed(EffectOf(steps[..i]), CompletedWithCurrent())
        invariant closed.Some? <==> old(closed).Some? || EffectOf(steps[..i]).decided
      {
        assert steps[..i + 1][..i] == steps[..i];
        RunHeaderStep(steps[i], EffectOf(steps[..i]), counted);
      }
    }

    method RunHeaderStep(step: HeaderStep, ghost effect: StageEffect, ghost counted: bool)
      requires Serving(counted, false) && Filed(effect, CompletedWithCurrent())
      modifies this`interim, this`final, this`finalSendClose, this`sentAny, this`closed, this`attempts
      ensures Serving(counted, false) && old(attempts) <= attempts
      ensures Filed(effect.After(step), CompletedWithCurrent())
      ensures closed.Some? <==> old(closed).Some? || effect.Decides(step)
    {
      hide CountComplete, Paired, NoneClosed, FirstOf, Sane, Announces;
      match step
      case HeaderShutdown => Decide(Shutdown, phase, false);
      case HeaderSend(status, closeTokens, write) =>
        var flow := SendHeaderPhase(status, closeTokens, write, counted);
    }

    // ---- reading a request ----

    /** Whether a body read ended in the stream's cancellation. */
    predicate Interrupted(b: P.Request)
      reads this
    {
      b.stop.StreamEnded? && reader.ending.Cancelled?
    }

    /** Read the body under its limit with the request parser; every byte goes to the sink
        or back to the reader, and the message is complete only at its boundary. */
    method ReadBody(r: Round, head: seq<byte>, remaining: seq<byte>, kind: P.BodyKind, limit: Option<nat>)
      returns (b: P.Request)
      requires Sound() && !finalized && |remaining| <= inFlight
      modifies this`sink, this`inFlight, this`closed, this`attempts, reader
      ensures Sound() && old(attempts) <= attempts && (old(closed).Some? ==> closed == old(closed))
      ensures inFlight == old(inFlight) - |remaining| && sink == old(sink) + b.bodyWire
      ensures P.BodyRight(b, head, remaining + old(reader.Logical()), kind, limit, maxBodyKept, StatusAt(reader.ending))
      ensures b.complete ==> b.stop.StageComplete?
      ensures limit.None? ==> b.complete == P.HasBody(remaining + old(reader.Logical()), kind)
      ensures limit.None? && !b.complete ==>
        b.stop == if P.BadBody(remaining + old(reader.Logical()), kind) then R.ParseFailed
                  else if reader.ending.Broken? then R.ReadError else R.StreamEnded
      ensures kind.NoBody? ==> b.complete
      ensures limit == Some(0) ==> b.complete == kind.NoBody? && b.stop.StageComplete?
      ensures |reader.waits| >= old(|reader.waits|)
      ensures closed.Some? <==> old(closed).Some? || Comes(r.bodyShutdown, |reader.waits| - old(|reader.waits|))
      ensures r.bodyShutdown.None? ==> attempts == old(attempts)
    {
      hide Paired, NoneClosed, CountComplete, P.BodyRight, P.BodyOf, P.HasBody, P.BadBody;
      ReceivedIsAccounted();
      ghost var t, start := remaining + reader.Logical(), reader.Now(|remaining|, |sink|);
      var from := |reader.waits|;
      b, sink := P.ContinueParseBody(reader, head, remaining, kind, limit, maxBodyKept, REQUEST_MAX_READ, sink);
      P.CompleteStops(b, head, t, kind, limit, maxBodyKept, StatusAt(reader.ending));
      if limit.None? {
        P.UnlimitedBody(b, head, t, kind, maxBodyKept, StatusAt(reader.ending));
        P.BodyStops(head, t, kind, maxBodyKept, reader.ending);
      }
      inFlight := inFlight - |remaining|;
      ReceivedIsAccounted();
      DecideDuringRead(r.bodyShutdown, from, start);
    }

    /** Parse the head, the bytes that announced it first. */
    method ParseHead(r: Round, first: seq<byte>)
      returns (head: seq<byte>, remaining: seq<byte>, stop: P.HeadStop)
      requires Serving(false, false) && inFlight == |first|
      modifies this`sink, this`inFlight, this`closed, this`attempts, reader
      ensures Serving(false, false) && old(attempts) <= attempts
      ensures var s := first + old(reader.Logical());
        && stop == P.HeadStopAt(s, headParser) && head == P.HeadOf(s, headParser, StatusAt(reader.ending))
        && sink == old(sink) + head
      ensures |remaining| <= inFlight && (stop.HeadComplete? ==> inFlight == |remaining|)
      ensures stop.HeadComplete? ==>
        var s := first + old(reader.Logical()); head <= s && s[|head|..] == remaining + reader.Logical()
      ensures stop.HeadRefused? ==> inFlight == 0
      ensures r.headShutdown.None? ==> attempts == old(attempts)
    {
      hide CountComplete, Paired, NoneClosed, FirstOf, Sane, P.HeadStopAt, P.HeadOf, Join;
      ReceivedIsAccounted();
      ghost var start := reader.Now(|first|, |sink|);
      var from, lost := |reader.waits|, [];
      head, remaining, sink, stop, lost := P.ParseHeaders(reader, first, headParser, REQUEST_MAX_READ, sink);
      inFlight := |remaining| + |lost|;
      P.HeadThenRest(first + old(reader.Logical()), head, lost, remaining, reader.Logical());
      ReceivedIsAccounted();
      DecideDuringRead(r.headShutdown, from, start);
    }

    method ReadRequest(r: Round, first: seq<byte>) returns (reading: Option<Request>, flow: Flow)
      requires Serving(false, false) && phase == RequestHeaders && inFlight == |first|
      modifies this`interim, this`final, this`finalSendClose, this`sentAny, this`closed, this`attempts
      modifies this`sink, this`inFlight, reader
      modifies this`requests, this`phase, this`requestsCompleted, this`exchanges, this`sending
      ensures old(attempts) <= attempts && requestsCompleted <= old(requestsCompleted) + 1
      ensures |requests| <= |old(requests)| + 1
      ensures reading.Some? ==> flow.Returned? && Serving(false, true) && inFlight == 0
      ensures reading.Some? ==> reading.value == requests[|requests| - 1] && reading.value.bodyComplete
      ensures reading.None? ==> Settled() && !finalized
      ensures reading.None? && flow.Returned? ==> closed.Some?
      ensures var s := first + old(reader.Logical());
        if P.HeadStopAt(s, headParser).HeadComplete? then
          var head := P.HeadOf(s, headParser, StatusAt(reader.ending));
          && |head| <= |s| && Filed(StageOf(r.stage), old(requestsCompleted) + 1)
          && (reading.Some? <==>
                (r.stage.None? || r.stageEnd.Proceed?) && P.HasBody(s[|head|..], headParser.framing(head)))
        else reading.None? && final.None?
      ensures r.headShutdown.None? && r.stage.None? && r.bodyShutdown.None? ==>
        |attempts| <= |old(attempts)| + (if reading.Some? then 0 else 1)
      ensures var s := first + old(reader.Logical());
        var head := P.HeadOf(s, headParser, StatusAt(reader.ending));
        match P.HeadStopAt(s, headParser)
        case HeadRefused =>
          flow.Returned? && LastDecides(ProtocolError, if headersSeen(head) then RequestBody else RequestHeaders, false)
        case HeadEnded =>
          (match reader.ending
           case AtEof => flow.Returned? && LastDecides(Client, RequestHeaders, false)
           case Broken => flow.Returned? && LastDecides(Client, RequestHeaders, resets)
           case Cancelled => flow.WasCancelled? && (r.headShutdown.None? ==> attempts == old(attempts)))
        case HeadComplete =>
          (r.stage.None? || r.stageEnd.Proceed?) && reading.None? ==>
            if P.BadBody(s[|head|..], headParser.framing(head)) then
              flow.Returned? && LastDecides(ProtocolError, RequestBody, false)
            else match reader.ending
              case AtEof => flow.Returned? && LastDecides(Client, RequestBody, false)
              case Broken => flow.Returned? && LastDecides(Client, RequestBody, resets)
              case Cancelled => flow.WasCancelled? && LastDecides(Shutdown, RequestBody, false)
    {
      hide *;
      interim, final, finalSendClose := [], None, false;
      var head, remaining, stop := ParseHead(r, first);
      flow := Returned;
      if stop.HeadComplete? {
        var kind := headParser.framing(head);
        TrackBoundary(kind.NoBody?);
        reading, flow := ReadAfterHead(r, head, remaining, kind);
      } else {
        reading := None;
        flow := StopAtHead(head, stop);
      }
    }

    /** The event of a request that could not be read, nothing else having been decided: its
        reason, phase and reset by the stream alone. */
    method ReadAlone(r: Round, first: seq<byte>) returns (reading: Option<Request>, flow: Flow)
      requires Serving(false, false) && phase == RequestHeaders && inFlight == |first| && closed.None?
      requires r.headShutdown.None? && r.stage.None? && r.bodyShutdown.None?
      modifies this`interim, this`final, this`finalSendClose, this`sentAny, this`closed, this`attempts
      modifies this`sink, this`inFlight, reader
      modifies this`requests, this`phase, this`requestsCompleted, this`exchanges, this`sending
      ensures var s := first + old(reader.Logical());
        var head := P.HeadOf(s, headParser, StatusAt(reader.ending));
        var stop := P.HeadStopAt(s, headParser);
        var bad := stop.HeadRefused? ||
          (stop.HeadComplete? && |head| <= |s| && P.BadBody(s[|head|..], headParser.framing(head)));
        && (reading.None? && (bad || !reader.ending.Cancelled?) ==> closed.Some?)
        && (reading.None? && closed.Some? ==>
              var e := closed.value;
              && e.reason == (if bad then ProtocolError else if reader.ending.Cancelled? then Shutdown else Client)
              && e.reset == (!bad && reader.ending.Broken? && resets)
              && e.phase == (if stop.HeadComplete? || (stop.HeadRefused? && headersSeen(head))
                             then RequestBody else RequestHeaders))
    {
      hide CountComplete, Paired, NoneClosed, LastCarries, Sane, P.HeadStopAt, P.HeadOf, P.HasBody, P.BadBody, StageOf,
        Join;
      reading, flow := ReadRequest(r, first);
    }

    /** A head that was refused or cut short: a request whose headers were seen is recorded. */
    method StopAtHead(head: seq<byte>, stop: P.HeadStop) returns (flow: Flow)
      requires Serving(false, false) && phase == RequestHeaders && !stop.HeadComplete?
      modifies this`requests, this`phase, this`requestsCompleted, this`closed, this`attempts, this`exchanges, this`sending
      ensures old(attempts) <= attempts && requestsCompleted == old(requestsCompleted)
      ensures |requests| == |old(requests)| + (if stop.HeadRefused? && headersSeen(head) then 1 else 0)
      ensures Settled() && !finalized && (flow.Returned? ==> closed.Some?)
      ensures |attempts| == |old(attempts)| + (if flow.Returned? then 1 else 0)
      ensures if stop.HeadRefused? then
          flow.Returned? && LastDecides(ProtocolError, if headersSeen(head) then RequestBody else RequestHeaders, false)
        else match reader.ending
          case AtEof => flow.Returned? && LastDecides(Client, RequestHeaders, false)
          case Broken => flow.Returned? && LastDecides(Client, RequestHeaders, resets)
          case Cancelled => flow.WasCancelled? && attempts == old(attempts)
    {
      hide Serving, Settled, Sound;
      flow := Returned;
      if stop.HeadRefused? {
        if headersSeen(head) {
          var reading := CompleteReading(false, R.ParseFailed);
        } else {
          StopBeforeHeaders(R.ParseFailed);
        }
      } else if reader.ending.Cancelled? {
        NothingOwed();
        flow := WasCancelled;
      } else {
        StopBeforeHeaders(R.StopAtEnd(StatusAt(reader.ending)));
      }
    }

    /** A read that stopped before any headers records no request. */
    method StopBeforeHeaders(stop: R.ParseStop)
      requires Serving(false, false)
      modifies this`closed, this`attempts
      ensures Settled() && !finalized && closed.Some?
      ensures |attempts| == |old(attempts)| + 1 && old(attempts) <= attempts
      ensures match stop
        case ParseFailed => LastDecides(ProtocolError, RequestHeaders, false)
        case ReadError => LastDecides(Client, RequestHeaders, resets)
        case _ => LastDecides(Client, RequestHeaders, false)
    {
      DecideReadStop(stop, false);
      NothingOwed();
    }

    /** The header stage, then the body. */
    method ReadAfterHead(r: Round, head: seq<byte>, remaining: seq<byte>, kind: P.BodyKind)
      returns (reading: Option<Request>, flow: Flow)
      requires Serving(kind.NoBody?, false) && phase == (if kind.NoBody? then Responding else RequestBody)
      requires inFlight == |remaining| && final.None?
      modifies this`interim, this`final, this`finalSendClose, this`sentAny, this`closed, this`attempts
      modifies this`sink, this`inFlight, reader
      modifies this`requests, this`phase, this`requestsCompleted, this`exchanges, this`sending
      ensures old(attempts) <= attempts && |requests| == |old(requests)| + 1
      ensures requestsCompleted <= old(requestsCompleted) + (if kind.NoBody? then 0 else 1)
      ensures reading.Some? ==> flow.Returned? && Serving(false, true) && inFlight == 0
      ensures reading.Some? ==> reading.value == requests[|requests| - 1] && reading.value.bodyComplete
      ensures reading.None? ==> Settled() && !finalized && closed.Some?
      ensures reading.Some? <==>
        (r.stage.None? || r.stageEnd.Proceed?) && P.HasBody(remaining + old(reader.Logical()), kind)
      ensures Filed(StageOf(r.stage), old(requestsCompleted) + (if kind.NoBody? then 0 else 1))
      ensures |reader.waits| >= old(|reader.waits|)
      ensures reading.Some? ==>
        && requestsCompleted == old(requestsCompleted) + (if kind.NoBody? then 0 else 1)
        && (closed.Some? <==>
              old(closed).Some? || StageOf(r.stage).decided ||
              Comes(r.bodyShutdown, |reader.waits| - old(|reader.waits|)))
      ensures r.stage.Some? && r.stageEnd.HeaderStops? ==>
        && flow == Stopped(r.stageEnd.cancelled)
        && LastDecides(if r.stageEnd.cancelled then Shutdown else Error, phase, false)
      ensures r.stage.None? && r.bodyShutdown.None? ==>
        |attempts| == |old(attempts)| + (if reading.Some? then 0 else 1)
      ensures (r.stage.None? || r.stageEnd.Proceed?) && reading.None? ==>
        var t := remaining + old(reader.Logical());
        if P.BadBody(t, kind) then flow.Returned? && LastDecides(ProtocolError, RequestBody, false)
        else match reader.ending
          case AtEof => flow.Returned? && LastDecides(Client, RequestBody, false)
          case Broken => flow.Returned? && LastDecides(Client, RequestBody, resets)
          case Cancelled => flow.WasCancelled? && LastDecides(Shutdown, RequestBody, false)
      ensures r.stage.Some? && r.stageEnd.CloseEarly? ==>
        && reading.None?
        && (flow.Returned? ==> inFlight == 0 && LastDecides(RequestRead, phase, r.stageEnd.reset))
        && (r.stageEnd.limit == 0 ==> requests[|requests| - 1].bodyComplete == kind.NoBody?)
    {
      hide Serving, Settled, Sound, P.HasBody, P.BadBody, EffectOf, Announces;
      if r.stage.Some? {
        RunHeaderStage(r.stage.value, kind.NoBody?);
        if r.stageEnd.HeaderStops? {
          StopInStage(kind.NoBody?, r.stageEnd.cancelled);
          return None, Stopped(r.stageEnd.cancelled);
        }
      }
      var early := r.stage.Some? && r.stageEnd.CloseEarly?;
      reading, flow := ReadAndFile(r, head, remaining, kind, if early then Some(r.stageEnd) else None);
    }

    /** Header middleware raised or was cancelled. */
    method StopInStage(complete: bool, cancelled: bool)
      requires Serving(phase == Responding, false) && complete == (phase == Responding)
      modifies this`requests, this`phase, this`requestsCompleted, this`closed, this`attempts, this`exchanges, this`sending
      ensures Settled() && !finalized && closed.Some?
      ensures |requests| == |old(requests)| + 1 && requestsCompleted == old(requestsCompleted)
      ensures attempts == old(attempts) + [EventNow(if cancelled then Shutdown else Error, phase, false)]
    {
      RecordInterrupted(complete, if cancelled then Shutdown else Error, false);
    }

    /** The body, and the request's record; `early` when header middleware closed early. */
    method ReadAndFile(r: Round, head: seq<byte>, remaining: seq<byte>, kind: P.BodyKind, early: Option<HeaderEnd>)
      returns (reading: Option<Request>, flow: Flow)
      requires Serving(kind.NoBody?, false) && phase == (if kind.NoBody? then Responding else RequestBody)
      requires inFlight == |remaining| && (early.Some? ==> early.value.CloseEarly?)
      modifies this`sink, this`inFlight, reader
      modifies this`requests, this`phase, this`requestsCompleted, this`closed, this`attempts, this`exchanges, this`sending
      ensures old(attempts) <= attempts && |requests| == |old(requests)| + 1
      ensures requestsCompleted <= old(requestsCompleted) + (if kind.NoBody? then 0 else 1)
      ensures inFlight == 0 && |reader.waits| >= old(|reader.waits|)
      ensures reading.Some? <==> early.None? && P.HasBody(remaining + old(reader.Logical()), kind)
      ensures reading.Some? ==>
        && flow.Returned? && Serving(false, true)
        && reading.value == requests[|requests| - 1] && reading.value.bodyComplete
        && requestsCompleted == old(requestsCompleted) + (if kind.NoBody? then 0 else 1)
        && (closed.Some? <==>
              old(closed).Some? || Comes(r.bodyShutdown, |reader.waits| - old(|reader.waits|)))
      ensures reading.None? ==> Settled() && !finalized && closed.Some?
      ensures r.bodyShutdown.None? ==> |attempts| == |old(attempts)| + (if reading.Some? then 0 else 1)
      ensures early.Some? && flow.Returned? ==> LastDecides(RequestRead, phase, early.value.reset)
      ensures early.None? && reading.None? ==>
        var t := remaining + old(reader.Logical());
        if P.BadBody(t, kind) then flow.Returned? && LastDecides(ProtocolError, RequestBody, false)
        else match reader.ending
          case AtEof => flow.Returned? && LastDecides(Client, RequestBody, false)
          case Broken => flow.Returned? && LastDecides(Client, RequestBody, resets)
          case Cancelled => flow.WasCancelled? && LastDecides(Shutdown, RequestBody, false)
      ensures early.Some? && early.value.limit == 0 ==> requests[|requests| - 1].bodyComplete == kind.NoBody?
    {
      hide Settled, Sound, CountComplete, Paired, NoneClosed, P.HasBody, P.BadBody, P.BodyRight;
      var b := ReadBody(r, head, remaining, kind, if early.Some? then Some(early.value.limit) else None);
      reading, flow := AfterBody(b, if early.Some? then Some(early.value.reset) else None);
    }

    /** Record the request as its body read left it; `fault` when header middleware closed early. */
    method AfterBody(b: P.Request, fault: Option<bool>) returns (reading: Option<Request>, flow: Flow)
      requires Serving(phase == Responding, false) && (phase == Responding ==> b.complete)
      requires b.complete ==> b.stop.StageComplete?
      modifies this`requests, this`phase, this`requestsCompleted, this`closed, this`attempts, this`exchanges, this`sending
      ensures old(attempts) <= attempts
      ensures requests == old(requests) + [Request(|old(requests)|, b.complete)]
      ensures requestsCompleted == old(requestsCompleted) + (if b.complete && old(phase) != Responding then 1 else 0)
      ensures reading.Some? <==> b.complete && fault.None?
      ensures reading.Some? ==> closed == old(closed)
      ensures flow == if Interrupted(b) then WasCancelled else Returned
      ensures reading.Some? ==> Serving(false, true) && reading.value == requests[|requests| - 1]
      ensures reading.None? ==> Settled() && !finalized && closed.Some?
      ensures |attempts| == |old(attempts)| + (if reading.Some? then 0 else 1)
      ensures fault.Some? && flow.Returned? ==> LastDecides(RequestRead, phase, fault.value)
      ensures flow.WasCancelled? ==> LastDecides(Shutdown, if b.complete then Responding else RequestBody, false)
      ensures fault.None? && !b.complete && flow.Returned? ==>
        match b.stop
        case ParseFailed => LastDecides(ProtocolError, RequestBody, false)
        case ReadError => LastDecides(Client, RequestBody, resets)
        case _ => LastDecides(Client, RequestBody, false)
    {
      hide CountComplete, Paired, NoneClosed, LastCarries, FirstOf, Sane;
      reading, flow := None, Returned;
      if Interrupted(b) {
        RecordInterrupted(b.complete, Shutdown, false);
        flow := WasCancelled;
      } else if fault.Some? {
        RecordInterrupted(b.complete, RequestRead, fault.value);
      } else {
        reading := CompleteReading(b.complete, b.stop);
      }
    }

    // ---- responding ----

    /** A response built here: its head announces a close exactly when the result asks for one. */
    method SendLocal(status: int, closeTokens: bool, abort: Option<bool>, w: WriteEnd)
      returns (result: SendResult, flow: Flow)
      requires Sound() && !finalized
      modifies this`sending, this`sentAny, this`phase, this`closed, this`attempts
      ensures Sound() && old(attempts) <= attempts && (old(closed).Some? ==> closed == old(closed))
      ensures flow.Returned? <==> w.Sent?
      ensures flow.Returned? ==> result.recorded == Some(status) && (result.closed <==> abort.Some?)
      ensures flow.Returned? && abort.None? ==>
        closed == old(closed) && result.shouldClose == Announces(policy, status, closeTokens, requestsCompleted)
      ensures flow.Returned? && abort.Some? ==> closed.Some? && result.shouldClose
      ensures attempts == old(attempts) +
        (if Loses(w) then [EventNow(Client, ResponseBody, w.reset)]
         else if w.Sent? && abort.Some? then [EventNow(ResponseAborted, ResponseBody, abort.value)] else [])
      ensures phase == if w.Sent? && abort.None? then AfterResponse else ResponseBody
    {
      var shouldClose := Announces(policy, status, closeTokens, requestsCompleted);
      result := SendResult(Some(status), shouldClose, false);
      sending, phase := Some(status), ResponseBody;
      flow := Write(w);
      if flow.Returned? {
        if abort.None? {
          phase := AfterResponse;
        } else {
          Decide(ResponseAborted, ResponseBody, abort.value);
          result := SendResult(Some(status), true, true);
        }
      }
    }

    method RunRelay(steps: seq<RelayStep>)
      requires Sound() && !finalized
      modifies this`sentAny, this`phase, this`closed, this`attempts
      ensures Sound() && old(attempts) <= attempts && (old(closed).Some? ==> closed == old(closed))
      ensures closed.Some? <==> old(closed).Some? || RelayDecides(steps)
    {
      hide FirstOf, Sane;
      for i := 0 to |steps|
        invariant Sound() && old(attempts) <= attempts && (old(closed).Some? ==> closed == old(closed))
        invariant closed.Some? <==> old(closed).Some? || exists k :: 0 <= k < i && steps[k] != RelayWrite
      {
        RelayOnce(steps[i]);
      }
    }

    /** A step of a relay: a write goes on in the body; a failed one, a cut by the forwarder
        and a shutdown each decide. */
    method RelayOnce(step: RelayStep)
      requires Sound() && !finalized
      modifies this`sentAny, this`phase, this`closed, this`attempts
      ensures Sound() && old(attempts) <= attempts && (old(closed).Some? ==> closed == old(closed))
      ensures match step
        case RelayShutdown => LastDecides(Shutdown, phase, false) && phase == old(phase) && closed.Some?
        case RelayWrite => attempts == old(attempts) && closed == old(closed) && phase == ResponseBody && sentAny
        case RelayWriteFails(reset) => LastDecides(Client, ResponseBody, reset) && closed.Some?
        case RelayCuts(reset) => LastDecides(ResponseAborted, ResponseBody, reset) && closed.Some?
    {
      match step
      case RelayShutdown => Decide(Shutdown, phase, false);
      case RelayWrite => phase, sentAny := ResponseBody, true;
      case RelayWriteFails(reset) => phase, sentAny := ResponseBody, true; Decide(Client, phase, reset);
      case RelayCuts(reset) => Decide(ResponseAborted, ResponseBody, reset);
    }

    /** Carry out one response spec: close, answer from here, or relay. */
    method SendSpec(spec: Spec) returns (result: SendResult, flow: Flow)
      requires Sound() && !finalized
      modifies this`sending, this`sentAny, this`phase, this`closed, this`attempts
      ensures Sound() && old(attempts) <= attempts && (old(closed).Some? ==> closed == old(closed))
      ensures flow.Returned? && result.closed ==> closed.Some? && result.shouldClose
      ensures IsPlain(spec) ==> PlainlySent(spec, result, flow)
      ensures IsPlain(spec) ==> (closed.Some? <==> old(closed).Some? || StepDecides(Sends(spec)))
      ensures spec.Relay? && spec.end.BadGateway? && flow.Returned? ==> result.recorded == Some(502)
      ensures spec.CloseConnection? ==> flow == spec.delay && phase == old(phase)
      ensures spec.CloseConnection? && flow.Returned? ==>
        && result == SendResult(None, true, true)
        && attempts == old(attempts) + [EventNow(CloseResponse, Responding, spec.reset)]
    {
      hide CountComplete, FirstOf, Sane, Announces, RelayDecides;
      result, flow := SendResult(None, true, true), Returned;
      match spec
      case CloseConnection(delay, reset) =>
        flow := delay;
        if flow.Returned? { Decide(CloseResponse, Responding, reset); }
      case Local(status, closeTokens, abort, write) =>
        sentAny := false;
        result, flow := SendLocal(status, closeTokens, abort, write);
      case Relay(steps, end) =>
        sentAny := false;
        RunRelay(steps);
        match end {
          case RelayStops(cancelled) => flow := Stopped(cancelled);
          case BadGateway(fallback) =>
            sentAny := false;
            result, flow := SendLocal(502, fallback.closeTokens, fallback.abort, fallback.write);
          case Relayed(status, keepAlive, closing) =>
            if closed.None? { phase := AfterResponse; }
            result := SendResult(Some(status), closing || !keepAlive || closed.Some?, closed.Some?);
        }
    }

    /** The result of a response sent whole: unless its relay was cut, what the response asks for. */
    predicate PlainlySent(spec: Spec, result: SendResult, flow: Flow)
      requires IsPlain(spec)
      reads this`policy, this`requestsCompleted, this`closed
    {
      && flow.Returned? && result.recorded == Some(StatusOf(spec)) && (result.closed ==> closed.Some?)
      && (!result.closed ==> result.shouldClose == Asks(spec, policy, requestsCompleted))
    }

    /** Responder and sender middleware around any number of sends. */
    method Respond(steps: seq<RespondStep>, end: RespondEnd) returns (result: SendResult, flow: Flow)
      requires Sound() && !finalized
      modifies this`sending, this`sentAny, this`phase, this`closed, this`attempts
      ensures Sound() && old(attempts) <= attempts && (old(closed).Some? ==> closed == old(closed))
      ensures OneResponse(steps) ==> (closed.Some? <==> old(closed).Some? || Decides(steps))
      ensures OneResponse(steps) && SpecsOf(steps)[0].Local? && closed != old(closed) ==> closed.value.reason.Shutdown?
      ensures match end
        case LastSend => OneResponse(steps) ==> PlainlySent(SpecsOf(steps)[0], result, flow)
        case Answers(answer) => flow.Returned? && result == answer
        case RespondStops(cancelled) => flow == Stopped(cancelled)
    {
      hide CountComplete, FirstOf, Sane, Announces, Asks, IsPlain, StatusOf, RelayDecides;
      result, flow := SendResult(None, false, false), Raised;
      assert steps[0..] == steps && steps[..|steps|] == steps && steps[|steps|..] == [];
      for i := 0 to |steps|
        invariant Sound() && old(attempts) <= attempts && (old(closed).Some? ==> closed == old(closed))
        invariant OneResponse(steps) ==>
          if SpecsOf(steps[i..]) == [] then PlainlySent(SpecsOf(steps)[0], result, flow)
          else SpecsOf(steps[i..]) == SpecsOf(steps)
        invariant OneResponse(steps) ==>
          (closed.Some? <==> old(closed).Some? || exists k :: 0 <= k < i && StepDecides(steps[k]))
        invariant OneResponse(steps) && SpecsOf(steps)[0].Local? && closed != old(closed) ==>
          closed.value.reason.Shutdown?
      {
        assert steps[i..][0] == steps[i] && steps[i..][1..] == steps[i + 1..];
        match steps[i]
        case RespondShutdown => Decide(Shutdown, phase, false);
        case Sends(spec) => result, flow := SendSpec(spec);
      }
      match end
      case LastSend =>
      case Answers(answer) => result, flow := answer, Returned;
      case RespondStops(cancelled) => flow := Stopped(cancelled);
    }

    /** What was decided stands; else limit, zero timeout, request to close: the first that applies. */
    method ApplyClosePolicy(shouldClose: bool) returns (close: bool)
      requires Sound() && !finalized
      modifies this`closed, this`attempts
      ensures Sound() && old(attempts) <= attempts
      ensures close == (old(closed).Some? || PolicyCloses(policy, requestsCompleted, shouldClose))
      ensures closed.Some? == close && (old(closed).Some? ==> closed == old(closed))
      ensures old(closed).None? && close ==>
        closed == Some(
          if AtLimit(policy, requestsCompleted) then EventNow(MaxRequests, AfterResponse, false)
          else if ZeroTimeout(policy) then EventNow(IdleTimeout, AfterResponse, policy.reset)
          else EventNow(ConnectionClose, AfterResponse, false))
    {
      if closed.Some? { return true; }
      close := true;
      if AtLimit(policy, requestsCompleted) {
        Decide(MaxRequests, AfterResponse, false);
      } else if ZeroTimeout(policy) {
        Decide(IdleTimeout, AfterResponse, policy.reset);
      } else if shouldClose {
        Decide(ConnectionClose, AfterResponse, false);
      } else {
        close := false;
      }
    }

    /** Apply the close policy unless sending decided already, and record the exchange. */
    method FinishExchange(request: Request, result: SendResult) returns (close: bool)
      requires Serving(false, true) && request == requests[|requests| - 1]
      modifies this`sending, this`phase, this`closed, this`attempts, this`exchanges
      ensures Settled() && !finalized && old(attempts) <= attempts
      ensures exchanges == old(exchanges) + [Exchange(request, result.recorded, interim, closed)]
      ensures !close ==> closed.None? && Serving(false, false)
      ensures old(closed).Some? ==> closed == old(closed)
      ensures !result.closed ==>
        && close == closed.Some?
        && close == (old(closed).Some? || PolicyCloses(policy, requestsCompleted, result.shouldClose))
      ensures result.closed ==> close
    {
      hide CountComplete, Paired, NoneClosed, LastCarries, FirstOf, Sane;
      close := true;
      if !result.closed {
        phase := AfterResponse;
        close := ApplyClosePolicy(result.shouldClose);
      }
      RecordExchange(request, result.recorded);
    }

    /** A handler that raised or was cancelled: its exchange holds what was sent, and the close. */
    method FailExchange(request: Request, cancelled: bool)
      requires Serving(false, true) && request == requests[|requests| - 1]
      modifies this`sending, this`closed, this`attempts, this`exchanges
      ensures Settled() && !finalized && closed.Some?
      ensures attempts == old(attempts) + [EventNow(if cancelled then Shutdown else Error, phase, false)]
      ensures old(closed).Some? ==> closed == old(closed)
      ensures exchanges == old(exchanges) +
        [Exchange(request, if sentAny then old(sending) else None, interim, closed)]
    {
      hide CountComplete, Paired, NoneClosed, LastCarries, FirstOf, Sane;
      Decide(if cancelled then Shutdown else Error, phase, false);
      RecordExchange(request, if sentAny then sending else None);
    }

    /** One exchange for the request, whatever becomes of its response, and whether to go on. */
    method HandleRequest(r: Round, request: Request) returns (close: bool, flow: Flow)
      requires Serving(false, true) && request == requests[|requests| - 1]
      modifies this`sending, this`sentAny, this`phase, this`closed, this`attempts, this`exchanges
      ensures Settled() && !finalized && old(attempts) <= attempts
      ensures |exchanges| == |old(exchanges)| + 1 && old(exchanges) <= exchanges
      ensures var x := exchanges[|exchanges| - 1]; x.request == request && x.interim == interim && x.closed == closed
      ensures old(final).Some? ==> exchanges[|exchanges| - 1].response == old(final)
      ensures old(final).None? && OneResponse(r.respond) && r.respondEnd.LastSend? ==>
        exchanges[|exchanges| - 1].response == Some(StatusOf(SpecsOf(r.respond)[0]))
      ensures !flow.Returned? ==> closed.Some?
      ensures flow.Returned? && !close ==>
        && closed.None? && Serving(false, false) && !AtLimit(policy, requestsCompleted) && !ZeroTimeout(policy)
      ensures old(final).Some? ==>
        && flow.Returned?
        && close == (old(closed).Some? || PolicyCloses(policy, requestsCompleted, finalSendClose))
      ensures old(final).None? && OneResponse(r.respond) ==>
        && (flow.Returned? <==> !r.respondEnd.RespondStops?)
        && close == (old(closed).Some? || Decides(r.respond) ||
             PolicyCloses(policy, requestsCompleted, Asked(r.respond, r.respondEnd, policy, requestsCompleted)))
        && (old(closed).None? && Decides(r.respond) ==>
              closed.Some? && (SpecsOf(r.respond)[0].Local? ==> closed.value.reason.Shutdown?))
    {
      hide CountComplete, Paired, NoneClosed, LastCarries, FirstOf, Sane, OneResponse, Decides, Asks, IsPlain, StatusOf;
      phase, sending, flow, close := Responding, None, Returned, true;
      var result := SendResult(final, finalSendClose, false);
      if final.None? { result, flow := Respond(r.respond, r.respondEnd); }
      if flow.Returned? {
        close := FinishExchange(request, result);
      } else {
        FailExchange(request, flow.WasCancelled?);
      }
    }

    // ---- the loop ----

    /** The start of a round: bytes of a next request, or a decision why there are none. */
    method AwaitFirstByte(r: Round) returns (first: seq<byte>, flow: Flow)
      requires Serving(false, false) && inFlight == 0
      modifies this`phase, this`inFlight, this`closed, this`attempts, reader
      ensures Serving(false, false) && old(attempts) <= attempts && inFlight == |first|
      ensures first != [] ==> flow.Returned? && phase == RequestHeaders
      ensures first == [] && flow.Returned? ==> closed.Some?
      ensures r.idleShutdown ==>
        && |attempts| > |old(attempts)| && attempts[|old(attempts)|] == old(EventNow(Shutdown, Idle, false))
      ensures var timed := r.wait.TimerFires? && requestsCompleted > 0
          && policy.timeout.Some? && policy.timeout.value > 0.0;
        if r.wait.WaitStops? then first == [] && flow == (if r.wait.cancelled then WasCancelled else Raised)
        else if timed then first == [] && flow.Returned? && LastDecides(IdleTimeout, Idle, policy.reset)
        else if old(reader.Logical()) != [] then first != [] && flow.Returned?
        else match reader.ending
          case AtEof => first == [] && flow.Returned? && LastDecides(Client, Idle, false)
          case Broken => first == [] && flow.Returned? && LastDecides(Client, Idle, resets)
          case Cancelled => first == [] && flow.WasCancelled?
      ensures attempts == old(attempts) + IdleDecisions(r, old(EventNow(Client, Idle, false)), policy,
        if old(reader.Logical()) == [] then Some(reader.ending) else None, resets)
    {
      hide CountComplete, Paired, NoneClosed, FirstOf, Sane, WaitDecisions, Timed, Join, ByteStream.Logical;
      phase := Idle;
      if r.idleShutdown { Decide(Shutdown, Idle, false); }
      first, flow := WaitThenRead(r.wait);
    }

    /** Read unless the wait is interrupted or timed out. */
    method WaitThenRead(wait: Wait) returns (first: seq<byte>, flow: Flow)
      requires Serving(false, false) && inFlight == 0
      modifies this`phase, this`inFlight, this`closed, this`attempts, reader
      ensures Serving(false, false) && old(attempts) <= attempts && inFlight == |first|
      ensures first != [] ==> flow.Returned? && phase == RequestHeaders
      ensures first == [] && flow.Returned? ==> closed.Some?
      ensures var timed := wait.TimerFires? && requestsCompleted > 0
          && policy.timeout.Some? && policy.timeout.value > 0.0;
        if wait.WaitStops? then first == [] && flow == (if wait.cancelled then WasCancelled else Raised)
        else if timed then first == [] && flow.Returned? && LastDecides(IdleTimeout, Idle, policy.reset)
        else if old(reader.Logical()) != [] then first != [] && flow.Returned?
        else match reader.ending
          case AtEof => first == [] && flow.Returned? && LastDecides(Client, Idle, false)
          case Broken => first == [] && flow.Returned? && LastDecides(Client, Idle, resets)
          case Cancelled => first == [] && flow.WasCancelled?
      ensures attempts == old(attempts) + WaitDecisions(wait, old(EventNow(Client, Idle, false)), policy,
        if old(reader.Logical()) == [] then Some(reader.ending) else None, resets)
    {
      hide CountComplete, Paired, NoneClosed, FirstOf, Sane, EndDecisions;
      first, flow := [], Returned;
      if wait.WaitStops? {
        flow := Stopped(wait.cancelled);
      } else if wait.TimerFires? && Timed(policy, requestsCompleted) {
        Decide(IdleTimeout, Idle, policy.reset);
      } else {
        first, flow := ReadFirst();
      }
    }

    /** Read the first bytes, or decide as the stream's end says. */
    method ReadFirst() returns (first: seq<byte>, flow: Flow)
      requires Serving(false, false) && inFlight == 0
      modifies this`phase, this`inFlight, this`closed, this`attempts, reader
      ensures Serving(false, false) && inFlight == |first|
      ensures first != [] ==> flow.Returned? && phase == RequestHeaders
      ensures first == [] && flow.Returned? ==> closed.Some?
      ensures if old(reader.Logical()) != [] then first != [] && flow.Returned?
        else match reader.ending
          case AtEof => first == [] && flow.Returned? && LastDecides(Client, Idle, false)
          case Broken => first == [] && flow.Returned? && LastDecides(Client, Idle, resets)
          case Cancelled => first == [] && flow.WasCancelled?
      ensures attempts == old(attempts) + EndDecisions(old(EventNow(Client, Idle, false)),
        if old(reader.Logical()) == [] then Some(reader.ending) else None, resets)
    {
      hide CountComplete, Paired, NoneClosed, FirstOf, Sane;
      flow := Returned;
      var status;
      first, status := ReceiveFirst();
      match status
      case DataRead => phase := RequestHeaders;
      case EndOfStream => Decide(Client, Idle, false);
      case ReadFailed => Decide(Client, Idle, resets);
      case ReadCancelled => flow := WasCancelled;
    }

    method ReceiveFirst() returns (first: seq<byte>, status: ReadStatus)
      requires Sound() && inFlight == 0
      modifies this`inFlight, reader
      ensures Sound() && inFlight == |first|
      ensures status == if old(reader.Logical()) != [] then DataRead else StatusAt(reader.ending)
      ensures status.DataRead? <==> first != []
      ensures first == [] ==> reader.received == old(reader.received)
    {
      first, status := reader.Read(FIRST_READ, |sink|);
      inFlight := |first|;
    }

    /** One round: wait, read a request, respond. Whether the loop goes on. */
    method ServeOne(r: Round) returns (more: bool, flow: Flow)
      requires Serving(false, false) && inFlight == 0 && closed.None?
      modifies this`policy, this`interim, this`final, this`finalSendClose, this`sentAny, this`closed, this`attempts
      modifies this`sink, this`inFlight, reader
      modifies this`requests, this`phase, this`requestsCompleted, this`exchanges, this`sending
      ensures Settled() && !finalized && old(attempts) <= attempts
      ensures requestsCompleted <= old(requestsCompleted) + 1
      ensures more ==> flow.Returned? && Serving(false, false) && inFlight == 0 && closed.None?
      ensures more ==> !AtLimit(r.policyAfter, requestsCompleted)
    {
      hide Serving, Settled, Sound, AtLimit, ZeroTimeout, PolicyCloses, IdleDecisions, Filed, P.HasBody, StageOf,
        P.HeadStopAt, P.HeadOf;
      more, policy := false, r.policy;
      var first, how := AwaitFirstByte(r);
      NothingOwed();
      if first == [] { return false, how; }
      policy := r.policyAfter;
      var reading;
      reading, flow := ReadRequest(r, first);
      if reading.None? { return; }
      var close;
      close, flow := HandleRequest(r, reading.value);
      more := flow.Returned? && !close;
    }

    /** Decide with no exchange under way. */
    method DecideBetween(reason: CloseReason)
      requires Settled()
      modifies this`closed, this`attempts
      ensures Settled() && closed.Some? && attempts == old(attempts) + [EventNow(reason, phase, false)]
    {
      Decide(reason, phase, false);
    }

    /** The request loop. When the scripted rounds run out, the server shuts down. */
    method Serve(rounds: seq<Round>, ghost fixed: Policy)
      requires Serving(false, false) && inFlight == 0 && heads == []
      requires closed.None? ==> !AtLimit(fixed, requestsCompleted)
      modifies this, reader
      ensures Settled() && !finalized && old(attempts) <= attempts && HeadsBalance(heads)
      ensures FixedPolicy(rounds, fixed) && fixed.maxRequests.Some? && old(requestsCompleted) <= fixed.maxRequests.value ==>
        requestsCompleted <= fixed.maxRequests.value
    {
      hide CountComplete, Paired, NoneClosed, LastCarries, FirstOf, Sane;
      NothingOwed();
      var i := 0;
      while closed.None?
        invariant 0 <= i <= |rounds| && Serving(false, false) && inFlight == 0
        invariant old(attempts) <= attempts && HeadsBalance(heads) && Settled() && !finalized
        invariant closed.None? && FixedPolicy(rounds, fixed) ==> !AtLimit(fixed, requestsCompleted)
        invariant FixedPolicy(rounds, fixed) && fixed.maxRequests.Some? && old(requestsCompleted) <= fixed.maxRequests.value ==>
          requestsCompleted <= fixed.maxRequests.value
        decreases |rounds| - i, closed.None?
      {
        ReceivedIsAccounted();
        heads := heads + [Head(reader.received, |sink|, |reader.unread|)];
        if i == |rounds| {
          phase := Idle;
          DecideBetween(Shutdown);
          return;
        }
        var more, flow := ServeOne(rounds[i]);
        if flow.Raised? { DecideBetween(Error); }
        if !more { return; }
        i := i + 1;
      }
    }

    /** Exactly one event goes out, however often this runs. */
    method Finalize()
      requires Settled()
      modifies this`finalized, this`closed, this`attempts, this`closedEvents
      ensures Settled() && finalized && closed.Some? && closedEvents == [closed.value]
      ensures old(attempts) <= attempts && (old(finalized) ==> attempts == old(attempts))
      ensures old(attempts) == [] ==> closed.value.reason.Error?
    {
      if finalized { return; }
      DecideBetween(Error);
      finalized, closedEvents := true, closedEvents + [closed.value];
    }

    /** A shutdown from outside the loop is one more attempt to decide. */
    method ShutDown()
      requires Settled()
      modifies this`closed, this`attempts
      ensures Settled() && closed.Some? && attempts == old(attempts) + [EventNow(Shutdown, phase, false)]
    {
      DecideBetween(Shutdown);
    }

    /** Serve the connection to its end, whatever the surroundings do. */
    method Run(rounds: seq<Round>, ghost fixed: Policy)
      requires Settled() && Serving(false, false) && inFlight == 0 && heads == [] && requestsCompleted == 0
      requires fixed.maxRequests.Some? ==> fixed.maxRequests.value >= 1
      modifies this, reader
      ensures attempts != [] && old(attempts) <= attempts
      ensures finalized && closedEvents == [attempts[0]] && closed == Some(attempts[0])
      ensures Paired(requests, exchanges, false)
      ensures LastCarries(exchanges, Some(attempts[0]))
      ensures requestsCompleted == CountComplete(requests)
      ensures FixedPolicy(rounds, fixed) && fixed.maxRequests.Some? ==> requestsCompleted <= fixed.maxRequests.value
      ensures HeadsBalance(heads) && Sane(attempts)
      ensures reader.received == |sink| + inFlight + |reader.unread|
      ensures |sink| + inFlight + |reader.Logical()| == reader.total
      ensures old(closed).Some? ==> requests == old(requests) && exchanges == old(exchanges)
    {
      if closed.None? { Serve(rounds, fixed); }
      Finalize();
      ReceivedIsAccounted();
    }
  }
}

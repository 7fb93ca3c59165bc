# localstub, modelled in Dafny

localstub is an asyncio HTTP test server with a forwarding proxy. This project models its
hardest parts and proves what they promise for every input, every split of the network's
reads and every run.

Paths below are relative to the repository; `src/localstub/http/request.py` is written
`request.py` where no confusion is possible.

## The parts

* **The chunked body reader** (`Bytes`, `Framing`, `Stability`, `ChunkedBody`, `ScanMeaning`,
  `ChunkLimits`, `ChunkTheorems`, `ChunkEncoding`, `ChunkGrammar`, `Streams`, `RequestParser`,
  `Pipelining`).
  A chunked byte string has a payload, a verdict (complete, malformed, open) and a recording
  cut, all defined chunk by chunk without mention of reads. `ChunkGrammar` writes the grammar
  down without a scanner and proves that the scanner accepts and refuses exactly that. The reader is a class with the
  source's fields and loops; its contracts equate everything it leaves behind with those
  functions of the whole stream. `Pipelining` puts heads, chunked and Content-Length bodies
  together and states split independence and byte conservation over whole connections,
  refused heads and cancelled reads included.
* **The connection pool** (`PoolState`, `PoolInvariant`, `PoolSteps`, `PoolTheorems`, `PoolMeaning`,
  `PoolProgress`, `ConnectionPool`). The pool and its tasks are a transition system: one step is what runs
  between two awaits, and a task may be cancelled at each of them. One inductive invariant
  carries accounting, cap, wake-ups, ages, ownership and retirement, and a measure that every
  step of a task lowers excludes deadlock and endless running. `PoolMeaning` says what each
  operation does to stacks and counts in every reachable state. `ConnectionPool` is the
  pool as an object, whose helper loops are proved to compute exactly those steps.
* **The served connection** (`ServerConnection`, `Persistence`). `HTTPConnection` reads its
  requests with `Pipelining` from its own `ByteStream` and runs against a script that makes
  every other choice of the surroundings: what handlers and middleware do, which writes fail,
  where a shutdown lands. `Run` holds for all streams, splits and scripts. `Persistence`
  compares what a response head announces with what the client and the server then do.
* **Recording** (`Recording`, `Traffic`): lazy chunked eviction that looks like the last
  bytes written, the bounded queues, and the request timestamps.
* **Responses and relay** (`ResponseParser`, `Relay`): many responses on one upstream stream,
  relayed with and without 100-continue.
* **Throttling and headers** (`Throttle`, `Headers`): the rate bound over every window, and
  layered header lookup.

## Where the source does less than its description suggests

* The server can close after a response whose head announced nothing, so a client that reads
  the head keeps a connection the server is closing. Each reason has an input: a keep-alive
  timeout of zero (`server/connection.py:1125-1126`; `Persistence.SilentClose`), a close
  decided before or during the response, as by a handler that shuts the server down
  (`server/connection.py:1118-1119`; `Persistence.SilentShutdown`), a close decided after header
  middleware had sent the final response, because it closes instead of reading the body, or
  fails, or the body is cut short or malformed (`server/connection.py:783-854`, `967-994`;
  `Persistence.SilentRejection`), and a request limit reached by a relayed response
  (`server/connection.py:1121-1124`; `Persistence.SilentLimit`). When both ends agree is stated
  exactly for requests answered after they were read (`Persistence.RespondAndReuse`), before
  (`Persistence.EarlyFinalAndReuse`), and by an upstream (`Persistence.RelayAndReuse`).
* With `max_body_bytes` the kind of stop can depend on the reads (`request.py:560-568`). It
  does exactly when the payload equals a positive limit, nothing is malformed, and the stream does
  not end inside a chunk. Every such stream has two ways of being read that stop differently
  (`ChunkTheorems.LimitStopDependsOnReads`), and which reads stop early is known
  (`ChunkTheorems.StopsEarlyIff`). In all other cases the stream decides the stop
  (`ChunkTheorems.LimitedStop`); the delivered payload never depends on the reads.

* The scanner's error offset is the first byte with which the bytes cannot be a body, with
  exceptions (`ChunkGrammar.BadSizeIff`, `BadByte`, `MalformedIff`): after digits, a CR is
  blamed for a missing LF, and three wrong starts are refused only once more has arrived, a
  lone CR, an extension without digits, and a first wrong byte after a chunk's data.

## Modelling choices

* Bytes are a newtype over 0..255, text is a sequence of characters, sizes are unbounded as
  Python's are. Times and rates are reals with a clock that does not go backwards.
* A `ByteStream` is the bytes handed back to it and the pieces still to arrive. A read may
  return a whole piece whatever size was asked for, as a `ByteStream` in the source may. It
  ends by EOF, by an error or by a cancellation.
* httptools is a foreign parser. Heads are decided by function parameters (request heads:
  whether it refuses at the last byte of what it was fed, and how an accepted head frames its
  body; response heads: refused after some bytes, or status and framing).
  For chunked bodies it is taken to accept what the scanner accepts and to deliver the same
  payload; `parserInput` records what it is fed, and the contract of `ParseChunkedBody` says
  that this is every byte taken, once. The upgraded path uses no foreign parser and is
  modelled as it is.
* In the pool, origin entries are values in a map. The source holds references to entry
  objects; `UsersRegistered` shows that an entry in use is never retired, so the reference a
  task holds is the registered one. A probe ends fresh, stale or cancelled. The idle probe's
  own steps are not part of this model.
* In `ServerConnection` a request that stopped short of its boundary, for any reason, is not
  complete; that a head the foreign parser rejects is not marked complete is an assumption
  about that parser. A cancellation that reaches a read is a stream that ends `Cancelled`; a
  shutdown during a read comes at one of its waits for the network, with the counters the
  reader noted there. When the scripted rounds run out the server shuts down. A script may combine
  choices the event loop would not, such as a shutdown in every round; the contracts hold for
  those too.

## Model

| member | source | states |
|---|---|---|
| `Framing.ScanChunkPayloads` | src/localstub/http/framing.py:150-198 | The scanning loop, started at any offset and at a size line or inside a chunk (`data_left`), returns exactly the chunk-by-chunk scan: complete ranges, partial chunk, end, resume point and data left, or the offset of the bad byte. |
| `Framing.StepAt` | src/localstub/http/framing.py:92-147 | A complete chunk has data and its CRLF inside the buffer, an error offset names a byte that is there, a partial chunk is partial because bytes are missing, and `data_left` starts at the data. |
| `Stability.StepExtend` | src/localstub/http/framing.py:92-147 | A decided size line, terminator, error or end stays what it is when bytes are appended. |
| `Stability.StepCut` | src/localstub/http/framing.py:92-147 | A complete chunk or end needs no byte past its own extent. |
| `Stability.ErrorPrefix` | src/localstub/http/framing.py:92-147 | Without its last byte a malformed line or terminator is not an error but an incomplete one: the reported offset is the first bad byte. |
| `ScanMeaning.ScanIsPayload` | src/localstub/http/framing.py:150-198 | The ranges found, the partial one included, lie in the buffer and gather to exactly the payload of the chunk grammar. |
| `ScanMeaning.ScanIsVerdict` | src/localstub/http/framing.py:150-198 | The scan ends, fails or stays open at the same offset as the grammar's verdict. |
| `ChunkTheorems.ScanResumes` | src/localstub/http/framing.py:120-130 | Appending bytes never changes completed ranges, a found end or an error offset; the scan of everything is the completed ranges followed by the scan from `resume_from`. |
| `ChunkTheorems.ScanWithDataLeft` | src/localstub/http/framing.py:150-198 | After consuming a partial chunk whole, scanning only the later bytes with `data_left` gives the same payload and the same end or error as scanning everything. |
| `ChunkEncoding.RoundTrip` | tests/unit/http/strategies.py:62-91 | For all non-empty payloads, either hex case, any CRLF-free extensions and any trailers, scanning the encoding between arbitrary bytes returns exactly the payload ranges, in order, and the encoding's end (section 7.1 of RFC 9112). |
| `ChunkEncoding.HexIsHex` | src/localstub/http/framing.py:82-89 | The encoder's digits parse back to the size, in either case, for sizes of any width. |
| `ChunkEncoding.ScansEnd` | src/localstub/http/framing.py:133-140 | After the last-chunk line the scanner finds the end at the first empty line, whatever the trailers and whatever follows. |
| `ChunkGrammar.HexDigits` | src/localstub/http/framing.py:79-89 | The digits are 0-9, a-f and A-F and no other byte, each with its value. |
| `ChunkGrammar.SizeLineIff` | src/localstub/http/framing.py:92-117 | A size line is read, with this value and end, if and only if these bytes are digits (at least one) of that value, an optional extension and CRLF. |
| `ChunkGrammar.BadSizeIff` | src/localstub/http/framing.py:82-117 | A start is refused if and only if it neither is nor can become a size line, except two starts that are refused once more is there: a lone CR, and an extension without digits that has not ended; the offset is that of the first byte that is no digit. |
| `ChunkGrammar.BadByte` | src/localstub/http/framing.py:82-117 | Before the byte at fault the line could be continued, with it no more, except that a CR after digits is at fault when no LF follows. |
| `ChunkGrammar.EndIff` | src/localstub/http/framing.py:133-140 | The body ends exactly where trailer lines, none of them empty, and an empty line end. |
| `ChunkGrammar.ChunkIff` | src/localstub/http/framing.py:150-198 | A chunk is found exactly where a size line of a positive size, that many bytes and CRLF stand. |
| `ChunkGrammar.ScanLeaves` | src/localstub/http/framing.py:120-130 | At the resume point a scan reports a chunk begun, with the data that is there and how much is missing, exactly if a size line stands there; else nothing begun and nothing missing. |
| `ChunkGrammar.BadTerminatorIff` | src/localstub/http/framing.py:143-147 | A chunk whose data is not followed by CRLF is refused, at the first of the two bytes that is wrong, once both are there. |
| `ChunkGrammar.BodyIff` | src/localstub/http/framing.py:150-198 | The verdict is complete after k bytes with a payload if and only if these k bytes are chunks carrying that payload and a last chunk with its end (section 7.1 of RFC 9112). |
| `ChunkGrammar.MalformedIff` | src/localstub/http/framing.py:150-198 | The verdict is malformed if and only if the bytes neither start with a body nor can become one, except the starts that are refused only with the next byte. |
| `ChunkGrammar.MalformedAt` | src/localstub/http/framing.py:150-198 | It fails at the byte at fault of the first size line or chunk that does. |
| `ChunkedBody.PayloadExtends` | src/localstub/http/request.py:1245-1258 | The payload of bytes read before and after a resumable point is the two payloads joined. |
| `ChunkedBody.VerdictExtends` | src/localstub/http/request.py:1205-1270 | The end or error of the whole is that of the later bytes, shifted. |
| `ChunkedBody.KeepExtends` | src/localstub/http/request.py:1114-1147 | The recording cut of the whole is the cut of the first part, or that of the later part with the room that is left. |
| `ChunkedBody.StopIsFinal` | src/localstub/http/request.py:1205-1243 | Once complete or malformed, later bytes change nothing. |
| `ChunkedBody.MalformedKeep` | src/localstub/http/request.py:1339-1360 | Mapping the recording limit over the bytes before the bad one cuts where mapping it over all of them would. |
| `ChunkedBody.KeepAll` | src/localstub/http/request.py:1114-1147 | When all of the payload fits, every attributed byte is kept, framing and trailers included. |
| `ChunkLimits.ChunkLimitOffset` | src/localstub/http/request.py:541-568 | The loop over the scanned ranges computes the walk whose meaning the next rows state. |
| `ChunkLimits.WalkStops` | src/localstub/http/request.py:541-568 | A returned offset has exactly the budget of payload bytes before it, inside the scanned bytes. |
| `ChunkLimits.WalkFindsNone` | src/localstub/http/request.py:541-568 | `None` means the scanned payload does not exceed the budget. |
| `ChunkLimits.LimitIsKeep` | src/localstub/http/request.py:1114-1147 | With more payload than room, the offset is the recording cut. |
| `ChunkTheorems.LimitStopDependsOnReads` | src/localstub/http/request.py:541-568 | For every stream whose stop is not settled, parses of the same bytes cut into reads in two ways stop differently: early and incomplete when a read ends after the last payload byte, as without a limit when everything comes at once. |
| `ChunkTheorems.StopsEarlyIff` | src/localstub/http/request.py:541-568 | For such a stream the parse stops early if and only if some scan saw it end right after its last payload byte or inside that byte's CRLF; otherwise the stop is an unlimited parse's. |
| `ChunkTheorems.OneByteChunk` | src/localstub/http/request.py:541-568 | There are such streams: one chunk of one byte, with its CRLF, under a limit of one byte. |
| `ChunkTheorems.CutPoints` | src/localstub/http/request.py:541-568 | Those two are the only places where cutting such a stream leaves all of its payload in an unfinished chunk. |
| `RequestParser.LimitInChunk` | src/localstub/http/request.py:541-568 | With exactly the budget scanned, an offset is returned if and only if the bytes end inside a chunk. |
| `ChunkLimits.DeliveryResumes` | src/localstub/http/request.py:586-601 | A delivery ends where reading can resume, with `data_left` exact and its payload counted exactly. |
| `ChunkLimits.DeliveryFeedsOn` | src/localstub/http/request.py:1149-1183 | What is fed ahead is the size line left in the buffer, so the next feed starts right after it: no byte is fed twice or skipped. |
| `Streams.ByteStream.UnreadData` | src/localstub/http/stream.py:41-54 | Bytes handed back come out before everything else, in order. |
| `Streams.ByteStream.TakeUnreadData` | src/localstub/http/stream.py:57-76 | Up to the limit of the held bytes, as many as there are, and the rest keeps its order. |
| `Streams.ByteStream.Read` | src/localstub/http/stream.py:79-93 | A read takes a non-empty prefix of the logical stream, or nothing only at its end; it adds to the received bytes what came from the network, and only that, and waits for the network exactly when nothing was handed back. |
| `Streams.ByteStream.ReceivedBalance` | src/localstub/server/connection.py:346-350 | The bytes received are those of the network's total no longer ahead of the reader, plus those handed back to it: bytes read again are counted once. |
| `RequestParser.AsyncRequestParser.constructor` | src/localstub/http/request.py:638-669 | A parser whose head was read starts with an empty body, the head on the wire and nothing delivered. |
| `RequestParser.AsyncRequestParser.KeepBody` | src/localstub/http/request.py:457-474 | Counts every payload byte and keeps the ones within `max_body_kept`; nothing after completion. |
| `RequestParser.AsyncRequestParser.DeliverBody` | src/localstub/http/request.py:998-1012 | Delivering parts extends the payload by exactly their bytes, under the limit. |
| `RequestParser.AsyncRequestParser.SyncConnectionWire` | src/localstub/http/request.py:923-933 | The sink receives the pieces not yet passed on, each once and in order. |
| `RequestParser.AsyncRequestParser.CutWire` | src/localstub/http/request.py:1097-1112 | The wire keeps a prefix and nothing later, while the sink still receives every byte. |
| `RequestParser.AsyncRequestParser.ExtendWire` | src/localstub/http/request.py:1080-1095 | Either everything is kept, or the wire is cut at `keep`, or was cut before; the sink loses nothing in any case. |
| `RequestParser.AsyncRequestParser.ChunkWireKeep` | src/localstub/http/request.py:1114-1147 | The room shrinks by the delivered payload, or the segment is cut at the one place the limit allows. |
| `RequestParser.KeptWireGrows` | src/localstub/http/request.py:1080-1147 | Cutting segment by segment gives the wire that cutting the whole body at once would. |
| `RequestParser.AsyncRequestParser.AttributeSegment` | src/localstub/http/request.py:1339-1360 | After any segment the recorded wire is the head and the kept part of everything taken, and sink plus unsynced pieces is everything taken. |
| `RequestParser.AsyncRequestParser.FeedChunks` | src/localstub/http/request.py:1149-1183 | Delivered bytes leave the buffer, the state stops `data_left` bytes before a chunk's end, and the parser's input grows by the unfed bytes only. |
| `RequestParser.AsyncRequestParser.FinishChunkedPrefix` | src/localstub/http/request.py:1364-1401 | Ends the body at an offset: everything before it is recorded, everything after it is back on the stream. |
| `RequestParser.AsyncRequestParser.StopAtScanError` | src/localstub/http/request.py:1297-1362 | A framing error is attributed up to and including its bad byte, unless the read limit falls before it: then it is not reported and exactly the budget was delivered. |
| `RequestParser.LimitBeforeError` | src/localstub/http/request.py:1313-1334 | The rescan of the valid prefix finds the limit exactly when the payload before the error reaches it. |
| `RequestParser.AsyncRequestParser.StopInBuffer` | src/localstub/http/request.py:1205-1243 | Error, read limit and end of body, in the source's order, each stop the parse as the whole stream demands; otherwise nothing changed. |
| `RequestParser.AsyncRequestParser.DeliverScanned` | src/localstub/http/request.py:1245-1258 | What stays in the buffer is open and starts where the delivered bytes stop; the counted payload is exact. |
| `RequestParser.AsyncRequestParser.ParseChunkedBody` | src/localstub/http/request.py:1185-1270 | For every stream and every split: body, counted size, kept wire, sink, bytes left and (without a read limit) stop kind and completeness are functions of the stream alone; with a read limit the delivered payload is, an error after it is never reported, and where the payload meets the limit the stop follows from what had arrived at each scan; an un-upgraded parser is fed exactly the bytes taken, each once. |
| `RequestParser.ChunkPayloadParts` | src/localstub/http/request.py:1404-1418 | The parts join to the payload and none is empty. |
| `RequestParser.AsyncRequestParser.ParseContentLengthBody` | src/localstub/http/request.py:1014-1065 | Takes exactly min(length, limit) bytes or all there are, never past them; the stop kind and completeness follow from the counts; body, wire and sink hold what was taken; at every wait the sink held no more than had been received. |
| `RequestParser.AsyncRequestParser.SunkWasAtHand` | src/localstub/http/request.py:1245-1270 | At every read of a chunked body the sink holds exactly what was taken, and all of that had been received. |
| `RequestParser.AsyncRequestParser.DeliverLengthBody` | src/localstub/http/request.py:1067-1078 | A piece goes to body, wire and sink together, cut at the same byte in body and wire. |
| `RequestParser.AsyncRequestParser.ReadAtMost` | src/localstub/http/request.py:1042-1056 | A read that hands back too much puts the excess back on the stream. |
| `ChunkTheorems.RecordingCut` | src/localstub/http/request.py:1080-1147 | The kept wire is the only prefix that has exactly the first n payload bytes and stops where reading could resume: after byte n, with its chunk's CRLF when it ends the chunk, and before any later size line. |
| `ChunkTheorems.LimitedStop` | src/localstub/http/request.py:1204-1243 | When the payload is not the limit, or the body is malformed, or it ends inside a chunk, the stream decides the stop: below the limit that of an unlimited parse, otherwise complete-but-unfinished with exactly the limit delivered and no error reported. |
| `Pipelining.HeadIs` | src/localstub/http/request.py:745-791 | A head is refused at the first byte the parser refuses, up to its empty line; complete with that line if none is; and otherwise not finished, with everything read attributed to it unless the read was cancelled. |
| `Pipelining.HeadFed` | src/localstub/http/request.py:747-783 | Feeding the parser on to the head's end or the buffer's settles a head exactly as the whole stream does: refused at the first refused byte, complete, or still open. |
| `Pipelining.ParseHeaders` | src/localstub/http/request.py:717-791 | A head is complete, refused or cut short by the stream's end as the whole stream says, for every split and any bytes read before; head, bytes past it and stream are the original bytes in order, and a refused head hands back exactly what follows the refused byte. |
| `Pipelining.ContinueParseBody` | src/localstub/http/request.py:793-863 | Under every read and recording limit: a body complete at its head, a limit of zero and an unframed body read nothing; the others are those of their readers; what is not taken is handed back. |
| `Pipelining.BodyStops` | src/localstub/http/request.py:793-863 | Without a read limit a body is complete exactly if the stream starts with it: by the chunk grammar, by its length, or because there is none; otherwise it is a parse error exactly if the framing is missing or the bytes cannot become a body, and a read error or end of stream as the stream ends. |
| `Pipelining.ParseRequest` | src/localstub/http/request.py:671-710 | One request, whichever way its head ends and whatever frames its body, is a function of the logical stream; its sink bytes, what is left, and what a cancelled head read lost add up to that stream. |
| `Pipelining.RequestIs` | src/localstub/http/request.py:671-863 | What the first request of a stream is, field by field: nothing after a head that is refused, cut short or frames no body; else the bytes of the declared length or of the chunk grammar, counted whole, recorded up to the limit, with the stop that the stream's end gives. |
| `Pipelining.ParsePipeline` | src/localstub/http/request.py:671-863 | Any number of pipelined requests: which they are and where each ends depends on the stream alone; the sink plus what is unread is the original stream, also when recording limits cut the wire and after a refused head; and at every boundary bytes received are sink bytes plus bytes handed back. |
| `Pipelining.SplitIndependence` | src/localstub/http/request.py:1185-1270 | Two connections carrying the same bytes, cut and read in any two ways, give the same requests, sink bytes and leftovers, refused heads and malformed, truncated and unframed bodies included. |
| `PoolSteps.StepKeeps` | src/localstub/http/clients/pool.py:189-430 | Every atomic step of acquire, release, dial, probe, wait, cancellation and shutdown keeps the invariant. |
| `PoolTheorems.EveryState` | src/localstub/http/clients/pool.py:189-430 | The invariant holds in every state of every run: any number of tasks, any interleaving, cancellation at any await. |
| `PoolTheorems.Accounting` | src/localstub/http/clients/pool.py:200-215 | Each origin's `open_count` is its idle, held, dialed and probed connections, at most one of them probed, and never exceeds the cap. |
| `PoolTheorems.OneOwner` | src/localstub/http/clients/pool.py:150-157 | No connection is in two places. |
| `PoolTheorems.IdleBounded` | src/localstub/http/clients/pool.py:237-247 | Idle connections in total never exceed the maximum. |
| `PoolTheorems.NoLostWakeup` | src/localstub/http/clients/pool.py:212-224 | A task parked and not notified: the pool is open, its origin has nothing idle and is at the cap. |
| `PoolTheorems.FreeingWakes` | src/localstub/http/clients/pool.py:417-430 | A step that frees a slot, adds an idle connection or closes the pool leaves nobody parked on that origin. |
| `PoolTheorems.UsersRegistered` | src/localstub/http/clients/pool.py:425-429 | The origin of every connection or reservation in use, or waited for, is in the map: no lookup of it fails. |
| `PoolTheorems.RegisteredInUse` | src/localstub/http/clients/pool.py:293-300 | A registered origin has an idle connection or a task that uses or waits for it. |
| `PoolTheorems.ClosedForGood` | src/localstub/http/clients/pool.py:254-284 | Once closed, the pool stays closed, nothing is ever idle again and no acquire succeeds. |
| `PoolTheorems.ClosedEmpties` | src/localstub/http/clients/pool.py:293-300 | A closed pool's origin map is empty once the last holder, dialer and waiter left. |
| `PoolTheorems.PruneIsExact` | src/localstub/http/clients/pool.py:375-392 | Pruning removes exactly the connections past expiry, in every origin, and keeps the rest in order. |
| `PoolTheorems.EvictsGloballyOldest` | src/localstub/http/clients/pool.py:397-415 | The evicted connection is at least as old as every idle one. |
| `PoolTheorems.OldestExists` | src/localstub/http/clients/pool.py:402-412 | With anything idle there is a connection to evict. |
| `PoolTheorems.ReleaseNeverStuck` | src/localstub/http/clients/pool.py:227-249 | With the lock free a release can always proceed. |
| `PoolProgress.ParkedBehindUsers` | src/localstub/http/clients/pool.py:212-224 | A task parked and not notified has exactly as many other tasks using its origin as the cap allows. |
| `PoolProgress.WaitsOnlyForHolders` | src/localstub/http/clients/pool.py:189-430 | In every reachable state a step that needs no holder to release is possible if and only if some task is neither done nor holding nor parked; otherwise every parked task waits behind holders only, the cap's number of them. |
| `PoolProgress.UnfinishedGoes` | src/localstub/http/clients/pool.py:169-173 | With a cap of at least one, a task that has not ended means that some task can go on: there is no deadlock. |
| `PoolProgress.AdvanceDescends` | src/localstub/http/clients/pool.py:189-430 | Every step of a task, cancellations included, brings the pool nearer its end: the tasks' ranks fall, or idle connections go, or fewer woken tasks have yet to look again. |
| `PoolProgress.NoEndlessRun` | src/localstub/http/clients/pool.py:189-430 | No run goes on for ever without new tasks: no tasks wake, probe and park in circles. |
| `PoolProgress.EveryoneFinishes` | src/localstub/http/clients/pool.py:189-430 | From every reachable state, tasks that go on and release what they hold all end, without a cancellation. |
| `PoolMeaning.AcquireChooses` | src/localstub/http/clients/pool.py:196-224 | In every reachable state, looking for a connection probes the newest one that is not expired, else dials under the cap, else parks; stack and count change by exactly that, and a closed pool refuses. |
| `PoolMeaning.AcquirePrunesOthers` | src/localstub/http/clients/pool.py:375-392 | Meanwhile the other origins lose exactly their expired connections. |
| `PoolMeaning.NewestFirst` | src/localstub/http/clients/pool.py:315-320 | In every run, a connection that a task starts to probe was the newest of its origin, once the expired ones are gone: those left are at least as old. |
| `PoolMeaning.StaleMeans` | src/localstub/http/clients/pool.py:315-334 | A stale probe's connection is closed and the next newest is probed, or its slot is used to dial. |
| `PoolMeaning.EndsGiveUp` | src/localstub/http/clients/pool.py:227-373 | A cancelled probe, a failed dial, a dial that ends in a closed pool, and releasing what may not be kept each free one slot of their origin and change no stack. |
| `PoolMeaning.HandedOut` | src/localstub/http/clients/pool.py:336-373 | A fresh probe and a dial that ends in an open pool hand out their connection and change nothing else. |
| `PoolMeaning.ReleaseShelves` | src/localstub/http/clients/pool.py:237-252 | Releasing a reusable connection puts it on top of its stack, stamped now, after closing the pool's oldest idle connection exactly if there were as many as allowed. |
| `PoolMeaning.HeldUntilReleased` | src/localstub/http/clients/pool.py:150-157 | A held connection stays with its holder until the holder starts to release it. |
| `PoolMeaning.CancelledAnywhere` | src/localstub/http/clients/pool.py:217-224 | A task can be cancelled at each await of acquiring; it then ends, or still has to give back its place in the queue, its reservation or its dialed connection. |
| `PoolMeaning.ShutdownMeans` | src/localstub/http/clients/pool.py:268-277 | Shutting down closes every idle connection, and no task stays parked. |
| `PoolSteps.UnexpiredIs` | src/localstub/http/clients/pool.py:375-390 | On a stack in age order, stopping at the first survivor misses no expired connection. |
| `PoolSteps.CheckoutKeeps` | src/localstub/http/clients/pool.py:205-217 | Popping, reserving and parking each keep counts, order, cap and wake-up condition. |
| `PoolSteps.CloseKeeps` | src/localstub/http/clients/pool.py:417-430 | The close transition frees one slot of its origin and leaves nobody parked there. |
| `ConnectionPool.ConnectionPool.CloseConnection` | src/localstub/http/clients/pool.py:417-430 | Unlists the connection if idle, frees its slot and wakes the origin's waiters. |
| `ConnectionPool.ConnectionPool.RetireOrigin` | src/localstub/http/clients/pool.py:293-300 | Forgets an origin without open connections and waiters, and no other; `RetireKeeps` says what that keeps. |
| `PoolSteps.RetireKeeps` | src/localstub/http/clients/pool.py:293-300 | Retiring an origin keeps every count, order, cap and owner, and leaves every origin in use registered. |
| `ConnectionPool.ConnectionPool.PruneExpired` | src/localstub/http/clients/pool.py:375-392 | The nested loops leave the state of the one-step description: every origin pruned, unused ones gone, the retained one kept, waiters woken only where something closed. |
| `ConnectionPool.ConnectionPool.IdleTotal` | src/localstub/http/clients/pool.py:394-395 | Sums the idle stacks. |
| `ConnectionPool.ConnectionPool.EvictOldestIdle` | src/localstub/http/clients/pool.py:397-415 | The minimum search closes a connection no idle one is older than. |
| `ConnectionPool.ConnectionPool.CheckoutIdle` | src/localstub/http/clients/pool.py:315-334 | Takes the newest idle connection to probe under the lock, else reserves below the cap, else parks: what `AcquireChooses` and `NewestFirst` say; `CheckoutKeeps` says what that keeps. |
| `ConnectionPool.ConnectionPool.DiscardStale` | src/localstub/http/clients/pool.py:319-334 | A stale probe frees its slot and goes on to the next idle connection, a reservation or the queue, keeping the invariant. |
| `ConnectionPool.ConnectionPool.FinishDial` | src/localstub/http/clients/pool.py:344-373 | A dialed connection is handed over, or closed and its slot freed when the pool was closed meanwhile; the invariant is kept. |
| `ConnectionPool.ConnectionPool.Enter` | src/localstub/http/clients/pool.py:196-224 | The entry segment of acquire computes its step and keeps the invariant. |
| `ConnectionPool.ConnectionPool.ResumeWaiter` | src/localstub/http/clients/pool.py:217-224 | A woken waiter leaves the queue, and retries, or retires the origin if it was cancelled; the invariant is kept. |
| `ConnectionPool.ConnectionPool.Release` | src/localstub/http/clients/pool.py:227-249 | Release computes its step and keeps the invariant, whether it closes, evicts or shelves. |
| `ConnectionPool.ConnectionPool.Shutdown` | src/localstub/http/clients/pool.py:268-277 | Closing every idle connection, waking everyone and retiring unused origins is the shutdown step, and keeps the invariant. |
| `ServerConnection.HTTPConnection.Decide` | src/localstub/server/connection.py:280-305 | The first decision is recorded with the counters of that moment; later ones change nothing. |
| `ServerConnection.HTTPConnection.ReceivedIsAccounted` | src/localstub/server/connection.py:317-350 | Whenever the connection's state is sound, the bytes received are those the sink consumed, those in flight and those handed back. |
| `ServerConnection.HTTPConnection.TrackBoundary` | src/localstub/server/connection.py:1014-1027 | A request is counted the first time it is seen whole, at its head or at its body, and only then. |
| `ServerConnection.HTTPConnection.DecideReadStop` | src/localstub/server/connection.py:996-1012 | A parse error decides `protocol_error`, a read error `client` with its reset, anything else `client` without; in the body's phase exactly if the headers were reported. |
| `ServerConnection.HTTPConnection.RecordInterrupted` | src/localstub/server/connection.py:832-854 | An interrupted request is recorded with one exchange and a decided close, counted exactly if complete. |
| `ServerConnection.HTTPConnection.CompleteReading` | src/localstub/server/connection.py:967-994 | A complete request is recorded and awaits its response; a partial one gets its exchange and close. |
| `ServerConnection.HTTPConnection.RecordExchange` | src/localstub/server/connection.py:1036-1051 | The exchange carries the close event decided so far, or none. |
| `ServerConnection.HTTPConnection.SendHeaderPhase` | src/localstub/server/connection.py:903-946 | Interim responses accumulate, at most one final response is filed, a second is refused without effect, and its announced close is remembered. |
| `ServerConnection.HTTPConnection.RunHeaderStage` | src/localstub/server/connection.py:855-889 | Whatever header middleware sends, the final response filed is the first whose head was written, with the close that head announced, and a close is decided exactly by its shutdowns and failed writes. |
| `ServerConnection.HTTPConnection.DecideDuringRead` | src/localstub/server/connection.py:573-590 | A shutdown at one of a read's waits decides with the counters of that wait, and those never had more consumed than received: this comes from the parser, not from the script. |
| `ServerConnection.HTTPConnection.ParseHead` | src/localstub/server/connection.py:763-765 | The head is read by the request parser from the connection's own reader, its bytes consumed by the sink and the rest in flight. |
| `ServerConnection.HTTPConnection.ReadBody` | src/localstub/server/connection.py:783-802 | The body stage is the request parser's on the stream after the head: every byte in flight is consumed or handed back, and a message is complete only at its boundary. |
| `ServerConnection.EffectIs` | src/localstub/server/connection.py:903-946 | What header middleware leaves, by its sends alone: the first final response whose head was written, and a decided close exactly if it shut down or lost the client in a send that was not refused. |
| `ServerConnection.HTTPConnection.ReadRequest` | src/localstub/server/connection.py:743-809 | Reading one request records at most one, raises the counter by at most one, and either owes a response or has decided why not; a response is owed exactly when the head is complete, the header stage proceeds and the stream holds the body whole; otherwise the last decision follows from the stream: `protocol_error` for a refused head and for a body that is or can be none, `client` for a stream that ends in head or body, with reset only if reading failed, `shutdown` if it was cancelled, each in its phase; a final response sent meanwhile is filed with what its head announced. |
| `ServerConnection.HTTPConnection.ReadAlone` | src/localstub/server/connection.py:996-1012 | With nothing else decided, the close event of a request that could not be read has its reason, phase and reset from the stream alone. |
| `ServerConnection.HTTPConnection.ReadAfterHead` | src/localstub/server/connection.py:774-809 | The request goes on to be answered if and only if the header stage proceeds and the stream holds its body whole; a final response of the header stage is filed with the close its head announced; otherwise the stream decides why, as for `ReadRequest`; a failing stage decides shutdown or error; an early close decides `request_read` with the fault's reset and, with limit zero, reads no body. |
| `ServerConnection.HTTPConnection.SendLocal` | src/localstub/server/connection.py:1189-1199 | A response written whole asks for a close exactly as its head announced; an aborted one decides the close. |
| `ServerConnection.HTTPConnection.SendSpec` | src/localstub/server/connection.py:1175-1265 | Each kind of response spec yields a result consistent with the close it decided; one sent whole asks for a close as its head announced or its relay found. |
| `ServerConnection.HTTPConnection.Respond` | src/localstub/server/connection.py:1133-1173 | Around one response sent whole, a close is decided exactly by the shutdowns and relay failures on the way, and the result is the response's, or the middleware's own. |
| `ServerConnection.HTTPConnection.RelayOnce` | src/localstub/server/connection.py:1208-1240 | A relay's write is a response's body; a failed one decides `client`, a cut by the forwarder `response_aborted`, each with its reset. |
| `ServerConnection.PolicyIs` | src/localstub/server/connection.py:1110-1131 | Without a decision a positive timeout, or none, keeps the connection below the request limit unless asked to close; a timeout of zero ends it, and is the one reason that no head announces. |
| `ServerConnection.Interims` | src/localstub/server/connection.py:145-151 | 100 and 102 to 199 are interim, 101 is final. |
| `ServerConnection.HTTPConnection.ApplyClosePolicy` | src/localstub/server/connection.py:1110-1131 | Closes exactly when already decided, at the request limit, on a zero timeout or when asked, with that precedence of reasons. |
| `ServerConnection.HTTPConnection.HandleRequest` | src/localstub/server/connection.py:1053-1087 | One exchange per request on every path; the connection goes on only undecided, below the limit; for a plain local response whenever one response goes out whole, the close is an earlier decision, one made on the way, or the policy applied to what the response or the middleware asked. |
| `ServerConnection.HTTPConnection.FailExchange` | src/localstub/server/connection.py:1089-1108 | A failed handler still gets one exchange, with the close decided. |
| `ServerConnection.HTTPConnection.AwaitFirstByte` | src/localstub/server/connection.py:686-715 | Each way of waiting decides exactly its close: client at the stream's end, with reset if reading failed, or idle timeout if the timer fires after a first request under a positive timeout, which it does not otherwise. |
| `ServerConnection.HTTPConnection.Serve` | src/localstub/server/connection.py:664-684 | Over every script of rounds the records pair up, at every loop head bytes received are bytes the sink consumed plus bytes handed back, and a fixed policy's request limit is never exceeded. |
| `ServerConnection.HTTPConnection.Finalize` | src/localstub/server/connection.py:611-629 | Publishes exactly one event, the first decision or an error; a second call does nothing. |
| `ServerConnection.HTTPConnection.ShutDown` | src/localstub/server/connection.py:573-590 | A shutdown keeps an earlier decision. |
| `ServerConnection.HTTPConnection.Run` | src/localstub/server/connection.py:545-571 | Over every run: exactly one close event, equal to the first decision; one exchange per request, in order; at most the last carries the event; `requests_completed` counts the complete requests and stays within a fixed policy's limit; no event counts more bytes consumed than read; at every loop head the bytes received are those consumed plus those handed back, and in the end the network's bytes are those consumed, in flight and unread, read limits, early closes and refused heads included. |
| `Persistence.ParseConnectionTokens` | src/localstub/http/connection.py:24-31 | The loop collects the lowercase, stripped, non-empty pieces between commas. |
| `Persistence.AppendToken` | src/localstub/server/connection.py:159-174 | Appending `, token` to a value adds that token and no other. |
| `Persistence.WithConnectionToken` | src/localstub/server/connection.py:159-174 | The loop edits the first Connection header, or adds one. |
| `Persistence.WithTokenAdds` | src/localstub/server/connection.py:159-174 | Whatever headers there were, exactly the token is added to the Connection tokens. |
| `Persistence.HeadTokens` | src/localstub/server/connection.py:82-127 | A head's Connection tokens are the response's plus `close`, or `keep-alive` with a hint, or nothing. |
| `Persistence.HeadCarriesClose` | src/localstub/server/connection.py:1337-1355 | A local final response's head carries `close` exactly when the server means to announce a close; `VersionsPersist` and `AlwaysAnnounced` say when it does. |
| `Persistence.VersionsPersist` | src/localstub/http/connection.py:114-122 | For all requests: without a Connection header HTTP/1.1 persists and HTTP/1.0 does not; `close` and `keep-alive` turn that round, and neither matters to the other version; no other version persists (section 9.3 of RFC 9112). |
| `Persistence.HeadsPersist` | src/localstub/server/connection.py:82-127 | Carried to the head: below the request limit a plain response to such a request carries `close` exactly if the request does not persist. |
| `Persistence.AlwaysAnnounced` | src/localstub/server/connection.py:1337-1355 | Status 101, the response's own `close`, and the last request allowed are announced for every request. |
| `Persistence.HeadFrames` | src/localstub/server/connection.py:96-114 | A head that has no body names no length; any other has the response's own framing, or else exactly the body's length. |
| `Persistence.PieceTokensAre` | src/localstub/http/connection.py:24-31 | A value's tokens are its pieces, stripped and in lower case, and not empty. |
| `Persistence.SplitIs` | src/localstub/http/connection.py:27 | Pieces have no comma and, with commas between them, are the text. |
| `Persistence.StripIs` | src/localstub/http/connection.py:28 | What is stripped is whitespace, at both ends, all of it. |
| `Persistence.ConnectionTokensAre` | src/localstub/http/connection.py:34-43 | A header list's tokens are those of its Connection headers. |
| `Persistence.ResponseAllowsReuse` | src/localstub/http/connection.py:61-79 | The loop decides reuse by completeness, framing, version, 101 and the `close` token; `ReuseRuledOut` says what each of them rules out. |
| `Persistence.ReuseRuledOut` | src/localstub/http/connection.py:61-79 | An incomplete or close-delimited response, another version, 101 and the `close` token each rule out reuse; a plain one without a Connection header allows it. |
| `Persistence.ClientAgrees` | src/localstub/http/connection.py:61-79 | For a complete, length-delimited HTTP/1.1 response the client reuses exactly when no close was announced (section 9.3 of RFC 9112). |
| `Persistence.BothEndsAgreeIff` | src/localstub/server/connection.py:1110-1131 | The client's answer to a local head and the server's close, for whatever was decided and asked: both ends agree if and only if an announced close comes from a decision, a request or the policy, and an unannounced one from none of them. |
| `Persistence.RespondAndReuse` | src/localstub/server/connection.py:1053-1131 | The same of a request answered after it was read, from here or with a 502 for want of an upstream, whatever middleware does around the response: if the response's own result is the answer, both ends agree exactly when the close was announced, or none was decided before or during it and the timeout is not zero. |
| `Persistence.EarlyFinalAndReuse` | src/localstub/server/connection.py:774-854 | The same of a request that header middleware answers early: both ends agree exactly when the close was announced, or the stage proceeds, the body is there whole, nothing is decided and the timeout is not zero. |
| `Persistence.RelayedAgreeIff` | src/localstub/forward.py:175-195 | For a relayed response the exact condition, with the two ways to disagree: a client that may reuse meets a limit, a timeout, a decision or its own request to close; one that may not is waited for after a response that is not HTTP/1.1. |
| `Persistence.RelayedPersists` | src/localstub/forward.py:175-195 | A relayed response keeps the connection alive after HTTP/1.1 unless it or the request says otherwise, after HTTP/1.0 only if it says so, and never after 101 or up to the end of the stream. |
| `Persistence.RelayAndReuse` | src/localstub/server/connection.py:1247-1265 | The same of a served request that is answered by a relayed response. |
| `Persistence.SilentRejection` | tests/unit/server/test_connection.py:1457-1490 | Header middleware answers a plain 403 and closes instead of reading the body: the client keeps the connection and the server closes it, a concrete input. |
| `Persistence.SilentLimit` | src/localstub/server/connection.py:1121-1124 | The last request allowed is relayed: the upstream's head announces nothing and the server closes, a concrete input. |
| `Persistence.SilentShutdown` | tests/unit/server/test_connection.py:515-533 | A handler that shuts the server down and returns a plain 200, without any timeout: the client keeps the connection and the server closes it, a concrete input. |
| `Persistence.SilentClose` | src/localstub/server/connection.py:1125-1126 | With a zero timeout a plain 200 announces nothing, the client keeps the connection, and the server closes it: a concrete input. |
| `Recording.BoundedByteBuffer.Extend` | src/localstub/recording.py:93-117 | Contents become the last `maxsize` of everything written since the last clear, evictions counted exactly, whichever of the three paths a write takes. |
| `Recording.BoundedByteBuffer.EvictExcess` | src/localstub/recording.py:150-168 | Popping chunks and advancing the head offset drops exactly the oldest excess. |
| `Recording.BoundedByteBuffer.SealPending` | src/localstub/recording.py:145-148 | Sealing moves the pending bytes to a chunk and changes no content. |
| `Recording.BoundedByteBuffer.Clear` | src/localstub/recording.py:119-125 | Forgets the contents without counting them as dropped, deferred evictions included. |
| `Recording.BoundedByteBuffer.ToBytes` | src/localstub/recording.py:127-134 | Returns the contents, carrying out deferred evictions first. |
| `Recording.BoundedByteBuffer.Len` | src/localstub/recording.py:136-137 | The length is that of the bounded view even while eviction is deferred. |
| `Recording.BoundedByteBuffer.Dropped` | src/localstub/recording.py:88-91 | Counts exactly the bytes evicted over the whole run, across clears. |
| `Recording.ChunkCountBounded` | src/localstub/recording.py:45-54 | (chunks - 1) * coalesce_size <= 2 * maxsize, and the deferred overflow is at most the pending length, itself below coalesce_size. |
| `Traffic.BoundedRecordQueue.Put` | src/localstub/recording.py:201-211 | Never blocks, holds the latest entries, drops the oldest only when full and counts it. |
| `Traffic.BoundedRecordQueue.GetNowait` | src/localstub/recording.py:217-222 | Hands out entries in the order put, each once. |
| `Traffic.TrimHistory` | src/localstub/recording.py:225-238 | Keeps the latest entries and returns the others, in order. |
| `Traffic.TrafficRecorder.RecordRequest` | src/localstub/recording.py:304-322 | The history is the latest requests and timestamps exist for exactly those, each its own. |
| `Traffic.TrafficRecorder.GetRequestTimestamp` | src/localstub/recording.py:369-382 | Found if and only if the request is still in the history, with the time it was received. |
| `ResponseParser.NextConserves` | src/localstub/http/response.py:245-317 | Wire and leftover are the stream, on error paths too, and a response takes at least a byte. |
| `ResponseParser.CompletePayload` | src/localstub/http/response.py:410-422 | A complete chunked body's payload does not depend on what follows it. |
| `ResponseParser.AsyncMultiResponseParser.ReadHeaders` | src/localstub/http/response.py:335-344 | Finds the head's end in the whole stream, or reads all of it. |
| `ResponseParser.AsyncMultiResponseParser.ParseSizedBody` | src/localstub/http/response.py:362-392 | Takes exactly the declared length or fails with everything there is. |
| `ResponseParser.AsyncMultiResponseParser.ParseChunkedBody` | src/localstub/http/response.py:394-428 | Rescanning only from `resume_from` finds the end or error of the whole stream. |
| `ResponseParser.AsyncMultiResponseParser.ParseCloseDelimitedBody` | src/localstub/http/response.py:430-460 | Takes everything to the end; a response only at a clean end without other framing. |
| `ResponseParser.AsyncMultiResponseParser.NextResponse` | src/localstub/http/response.py:245-317 | What a call returns, consumes and leaves is a function of buffer plus unread stream, for every split of the reads, and is right for the request's method and the head's framing. |
| `ResponseParser.NextIsRight` | src/localstub/http/response.py:245-317 | What the first response of a stream is: after a HEAD, and for a message that ends with its head, no body, a wire that is the head, and everything after it left; else the declared length, a body of the chunk grammar, or the rest of a stream that ends cleanly; and failure with what was read otherwise. |
| `ResponseParser.WiresConserve` | src/localstub/http/response.py:245-317 | Over any sequence of calls, failing ones included, the wires and what is left are the bytes read. |
| `ResponseParser.NextResponses` | src/localstub/http/response.py:225-234 | Successive calls on one parser give the responses of the stream one after the other, for every split. |
| `Relay.ReadAndRelay` | src/localstub/forward.py:413-452 | The relay loop writes the upstream's wires up to the final one. |
| `Relay.RelayIsFaithful` | src/localstub/forward.py:413-452 | The client receives interim wires and then exactly one final (101 or from 200) on success, only interim ones on failure, and these bytes are the upstream's, in order and complete. |
| `Relay.WaitForContinue` | src/localstub/forward.py:572-601 | Relays interim responses until a 100 was relayed or a final one arrived unrelayed. |
| `Relay.ReadClientBody` | src/localstub/forward.py:503-522 | The body read after the go-ahead is the request parser's: its wire if it is there whole, and what follows it stays on the client's stream. |
| `Relay.ForwardWith100Continue` | src/localstub/forward.py:454-570 | The writes to both sides, the result and the error of every path, as one function of the two streams; the client's stream is read only after a go-ahead. |
| `Relay.WholeBodyIs` | src/localstub/forward.py:503-522 | The client's body is whole exactly if its stream starts with one of the announced kind, and is that. |
| `Relay.ContinueMeans` | src/localstub/forward.py:490-570 | The request failed exactly if a 100 came and the body was not whole, the response exactly if the upstream's stream has no final one; the request counts as used up after its body was sent, or if it had none. |
| `Relay.BodyAfterContinue` | src/localstub/forward.py:502-523 | Body bytes go upstream only right after a 100 was relayed to the client. |
| `Relay.WaitThenRelay` | src/localstub/forward.py:572-601 | Waiting and then relaying the rest writes what plain relaying would. |
| `Relay.ContinueShowsTheSame` | src/localstub/forward.py:480-559 | With the body sent whole, the client sees the same bytes and response as from plain relaying. |
| `Throttle.TokenBucket.Refill` | src/localstub/throttle.py:59-69 | Moves the bucket to the call's time; `RefillAdds` and `RefillTwice` say what that means, and a clock that stands still changes nothing. |
| `Throttle.RefillAdds` | src/localstub/throttle.py:59-69 | The level never falls or passes the capacity, and rises by at most what flowed in since the last call. |
| `Throttle.RefillTwice` | src/localstub/throttle.py:59-69 | Refilling at a moment in between changes nothing. |
| `Throttle.TokenBucket.TryAcquire` | src/localstub/throttle.py:47-57 | Grants, refuses with the time to wait, or rejects the amount, and leaves the matching bucket: the run that `RateBound` and `RetryAfterIsExact` are about. |
| `Throttle.DecisionIs` | src/localstub/throttle.py:47-69 | Zero, negative and too large amounts are invalid and change nothing; any other is granted exactly if the refilled bucket holds it, and taken out, or refused with the time until it does. |
| `Throttle.RateBound` | src/localstub/throttle.py:47-69 | In every window of every run the amount granted is at most capacity plus rate times the window. |
| `Throttle.RetryAfterIsExact` | src/localstub/throttle.py:53-57 | After a refusal, with nothing granted meanwhile, a retry succeeds if and only if `retry_after` has passed, however many other tries were refused. |
| `Throttle.TokenBucketThrottler.Check` | src/localstub/throttle.py:109-125 | Uses the key's own bucket, created full at its first request. |
| `Throttle.KeysAreIndependent` | src/localstub/throttle.py:109-125 | A key's decisions in an interleaved run are those of a run with only its requests. |
| `Headers.PatchSet` | src/localstub/http/headers.py:100-121 | Accepts exactly the patches that encode and name each header once, reports the first fault in order otherwise, and returns the same headers for an empty patch. |
| `Headers.AcceptedIff` | src/localstub/http/headers.py:100-121 | A patch is accepted exactly if every name is ASCII, every value Latin-1, and no name repeats an earlier one in any case. |
| `Headers.FaultIs` | src/localstub/http/headers.py:100-121 | The fault reported is that of the first item with one: its name, its name again, its value. |
| `Headers.LowerIff` | src/localstub/http/headers.py:154-158 | Two names are the same header exactly if they differ at most in the case of ASCII letters. |
| `Headers.LookupIgnoresCase` | src/localstub/http/headers.py:132-160 | Names that differ in case only look up the same values, through every chain of patches. |
| `Headers.ValuesAre` | src/localstub/http/headers.py:142-158 | The values under a name are those of the items with that name in any case, in order. |
| `Headers.ExceptIs` | src/localstub/http/headers.py:186-197 | A patch leaves out exactly the items it names, in any case. |
| `Headers.LookupIsFilter` | src/localstub/http/headers.py:132-160 | For every chain of patches, `get_all` is the flattened list filtered by case-insensitive name, in order; a non-ASCII name matches nothing. |
| `Headers.PatchReplaces` | src/localstub/http/headers.py:100-121 | A patched name has exactly its new value and every other name reads as before. |
| `Headers.PatchKeepsOthers` | src/localstub/http/headers.py:186-201 | Items of other names stay, in their order, and the patch's items follow. |
| `Headers.PatchOverPatch` | src/localstub/http/headers.py:186-201 | A later patch of the same names hides an earlier one completely. |
| `Headers.EqualLookups` | src/localstub/http/headers.py:69-75 | Headers that flatten alike answer every lookup alike, whatever their patch history. |

## Left out

- Framing.ScanChunkPayloads: Python's limit on the digits of an integer does not apply to base 16, so no size limit is modelled.
- Pipelining.ParseHeaders: a head ends at the first empty line; input that the foreign parser takes past it, such as empty lines before a request line, is not modelled, nor is `_body_parse_error`, for which that parser would have to refuse a body whose framing is right.
- Streams.ByteStream.Read: every reader modelled asks for a positive number of bytes; reading to the end with a negative number is not modelled.
- RequestParser.AsyncRequestParser.AttributeSegment: `delivered` is the whole payload of the segment, since the foreign parser is taken to deliver what the scan finds. Sharing one object between body and wire is memory layout; pieces are byte sequences here.
- RequestParser.AsyncRequestParser.ParseChunkedBody: with a read limit the wire offset of the stop depends on the reads by design (`tests/integration/test_connection_faults.py:215-254`); the payload delivered does not.
- PoolProgress.EveryoneFinishes: that a task which can take a step eventually takes it is the event loop's fairness and is not modelled.
- ConnectionPool.ConnectionPool.Release: releasing one connection twice is the caller's error; a task releases what it holds, once. The drain tasks that finish transport shutdowns are not modelled.
- ServerConnection.HTTPConnection.Run: `bytes_written`, timestamps and the writer's transport calls are left out; a second cancellation of `run()` while it waits for the cancelled loop, and header middleware that sends after its stage ended, are not modelled.
- ServerConnection.HTTPConnection.RecordExchange: the partial response of a failed exchange is modelled by its status only, and present exactly when bytes of it were written.
- Persistence.RespondAndReuse: requests that sender middleware answers with more than one response, and responses whose write fails or is aborted, are outside it; the client then has no whole response, or one it did not ask for.
- Persistence.HeadTokens: status line, header line serialization and the wording of the Keep-Alive hint are left out; whitespace and letter case are Python's within Latin-1.
- ResponseParser.AsyncMultiResponseParser.NextResponse: a cancelled read raises in the source; here the call ends like a failed read, and the bytes taken so far are its wire. A body the foreign parser rejects although its framing is right is not modelled.
- Relay.ForwardWith100Continue: a client write that fails, or a cancelled body read, ends the forwarding with an exception in the source; the write is not modelled and the read counts as a body that is not whole. Response transformers and wire logs are left out.
- Throttle.RateBound: `reset` refills a bucket and is not part of a run.
- Traffic.TrafficRecorder.RecordRequest: recording a request that is still in the history again is the caller's error; responses, exchanges and close events use the same queue and trimming and are not repeated.
- Headers.PatchSet: iteration over a mapping is a sequence of pairs; header names are compared as ASCII bytes.
- Sockets, TLS, TCP resets, the accept loop, certificate files, command line, configuration, JSONL export, URI parsing, gzip, lazy byte descriptors and caches: input and output or library wrappers.
- Routing, response sequences, fault steps, the single-response parser: easy next to what is modelled.

# Verified model of the LogCabin Redis proxy

The proxy takes Redis requests from clients and answers them from a LogCabin
cluster. This project models two parts of it and proves what they are for.

**The pipelined request and response path.** The bytes of a connection arrive
in arbitrary chunks. A resumable decoder (`deps/simple_resp`) cuts them into
requests with consecutive ids. A pool of workers computes responses in any
order, a pool of senders hands them to the context of the session, and the
context restores the order of the requests.

**The ae event loop.** A table of file events, its cached greatest descriptor
and the epoll interest set that must follow it; and a linked list of timers that
callbacks change while the loop is walking it.

## How the model is laid out

| file | content |
|---|---|
| `Text.dfy` | byte strings, CRLF, `std::to_string` and `std::stoi` |
| `Decoder.dfy`, `DecoderLaws.dfy` | the decode context as a class; the scan it computes; laws for all byte strings |
| `RoundTrip.dfy`, `EncodedRequests.dfy` | pipelines of requests, their encoding, and what the decoder makes of them and of their prefixes |
| `Encoder.dfy`, `Replies.dfy` | the two encoders, and a client's reader that inverts them |
| `Session.dfy`, `SessionLaws.dfy` | the reordering context as a class; invariants under every arrival order and every pattern of failed writes |
| `ProxySystem.dfy`, `EndToEnd.dfy`, `Closing.dfy` | the whole proxy as a state machine, its invariant, the results over whole runs, and how sessions begin and end |
| `Proxy.dfy` | the session table and the handlers of `main.cc` as objects that take the steps of that machine |
| `FileTable.dfy`, `FileLaws.dfy`, `EventLoop.dfy` | the file-event table, epoll, and the dispatch loop: values, laws, and the class that changes them in place |
| `Clock.dfy`, `TimerPass.dfy`, `TimerLaws.dfy`, `TimerList.dfy`, `TimerSleep.dfy` | times and sleeps; one pass over the timers on a sequence; its laws; the linked list that refines it; sleeps over whole runs |

Code that changes things in place is a class whose methods are proved equal to
functions on values (`DecodeContext`, `SessionCtx`, `SessionManager`, `Proxy`,
`EventLoop`, `TimerList`); the laws are about these functions. What the code does
not determine is arbitrary in the model: how the input is cut, the schedule of
the threads, the response to a request, how much each write takes, what epoll
refuses, what the clock shows, what callbacks do, and the contents of fields and
memory that are not initialised (`reading_str_size`, `session_counter`, slots of
a grown table). Statements about byte strings are made for all sequences of
characters, so in particular for bytes.

## Where the code is not what one would expect

The model follows the code; these are the points where a property one would want
fails, each with the exact condition under which it holds and inputs for which it
does not.

- A pipeline is read back if and only if every request has elements, sizes that
  fit an `int`, and a non-empty bulk string at its end (`PipelineRoundTrip`). An
  array whose last element is a `:` line, and `*0`, are never dispatched, and then
  neither is anything after them (`ColonStep`, `UndeliverableBlocks`); the test case with `*3`, `:1`, `:2`, `:3` in
  `deps/simple_resp/test/decode_encode_test.cc` never reaches its assertion. An
  empty last bulk string dispatches its request and then throws out of the event
  loop (`EmptyLastThrows`). A declared size over the range of `int` throws
  (`HeaderStep`).
- A connection outside `INIT` can still dispatch if and only if fewer elements than
  declared were read and no declared size was negative (`LivenessBoundary`). A negative
  size becomes an unsigned one above 2^63, which no string or list can reach: after
  `*-1`, or `$-1` inside a request, the connection is dead for ever
  (`NegativeCountIsDead`, `NegativeSizeIsDead`).
- A reply without inner arrays is read back if and only if its simple strings and
  errors hold no CRLF (`ReplyRoundTrip`). Integers are encoded as bulk strings. An
  array inside a list is counted but not written, so such a list never ends at its
  own bytes (`NestedArraysSwallow`).
- A write error, -1, counts as success, and so does a write of a part; the client
  reads its replies if and only if every write was taken whole
  (`ClientSeesRepliesInOrder`; input: `IncompleteWriteIsLost`, `ReplyLostInRun`).
- A write that takes nothing gives up the reply if it was tried on arrival; one that
  had waited is tried again. The replies have no gap if and only if none is given up
  (`GapFree`, `SessionGapFree`; input: `GapAfterFailedWrite`, `GapInRun`).
- Timers created by a finalizer can be dropped; none is if and only if no finalizer
  of a timer removed at the head, before the last one removed there, creates one
  (`LostExactly`; input: `LostTimer`).
- The loop sleeps exactly if and only if the wait fits an `int`; a timer of 2^31 ms
  makes it sleep for ever (`EveryRunSleepsExactly`, `SleepsForEver`). After the clock
  went back, a deadline can be slept past if and only if it is short of its second
  by more than a millisecond, which a negative delay makes it (`SpoiledExactly`,
  `OversleepsAfterClockStepsBack`).
- Registration keeps table and epoll in step if and only if the resulting mask is not
  empty, so not when a new descriptor is registered for nothing (`CreateKeeps`).
  Removal does if and only if the kernel does not refuse or the interest stays the
  same, so not when it refuses to remove the last interest (`DeleteKeeps`).
- A report is delivered if and only if it shares a bit with the mask, so an error or
  hang-up alone is not for a descriptor registered for reading only (`Undelivered`).

## Model

| member | source | states |
|---|---|---|
| EndToEnd.ClientSeesRepliesInOrder | src/proxy/main.cc:56-144 | End to end: the client sends encoded requests, in any chunks; in every state of every schedule of event loop, workers and senders, while the session is open and no `reply` was non-positive, the replies handed to `write` are those to its first requests in order, and to all of them once everything was received and the session is idle; the client reads exactly these replies if and only if every one of these writes was taken whole |
| EndToEnd.ReadIfComplete | src/proxy/SessionManager.cc:16-32 | For any writes of replies: the client reads exactly these replies if and only if each write was complete |
| EndToEnd.IncompleteWriteIsLost | src/proxy/SessionManager.cc:16-32 | A write that fails with -1 or takes only a part leaves the session open, and the client does not read that reply |
| EndToEnd.RepliesInOrder | src/proxy/SessionManager.cc:34-76 | In every reachable state a session that is open and saw no non-positive `reply` has handed to `write` exactly a prefix of the responses in request order; when none of its tasks is queued or held by a thread, all of them, and its map is empty |
| EndToEnd.RepliesNeverMixed | src/proxy/SessionManager.cc:34-76 | Whatever the writes do and whenever sessions close: successful replies leave in increasing request order, at most one per request, each the response computed for that request, which was decoded on that very session |
| EndToEnd.Conservation | src/proxy/main.cc:56-120 | In every reachable state each dispatched request is in at most one of worker queue, sender queue, sender thread, session; in exactly one while its session is undisturbed |
| EndToEnd.DispatchedRequests | deps/simple_resp/src/simple_resp.cc:45-144 | In every reachable state, if the bytes of a connection are a prefix of encoded requests, exactly the requests wholly received have been dispatched, with ids from 0 |
| EndToEnd.PoolsStop | src/proxy/main.cc:56-120 | Under every schedule the two pools take at most as many steps as a weighted count of their tasks: no run of the pools is infinite |
| EndToEnd.PoolStepDecreases | src/proxy/main.cc:56-120 | Each worker and sender step lowers that count |
| EndToEnd.StoppedMeansReplied | src/proxy/main.cc:56-120 | Where the pools can take no step, every undisturbed session has handed over the responses to all its requests in order and holds none back: no deadlock |
| EndToEnd.StoppedIsIdle | src/proxy/main.cc:56-120 | A state without a possible pool step has no task left anywhere |
| EndToEnd.FreshSession | src/proxy/SessionManager.cc:87-125 | In every reachable state the next session id has never been used |
| EndToEnd.ErasedIsFrozen | src/proxy/SessionManager.cc:107-135 | Once a session is erased and no sender is past its check, no continuation of the run changes its context |
| ProxySystem.AfterKeeps | src/proxy/main.cc:56-169 | The system invariant (decoders, contexts, queues, conservation, session table) holds after every run |
| ProxySystem.StepKeeps | src/proxy/main.cc:56-169 | Every single event keeps it |
| ProxySystem.AcceptKeeps | src/proxy/main.cc:147-169 | Accepting a connection keeps it, registered with the event loop or not |
| ProxySystem.ReadKeeps | src/proxy/main.cc:122-144 | Decoding a chunk and queueing the requests found keeps it, also if the decoder throws |
| ProxySystem.CloseKeeps | src/proxy/SessionManager.cc:107-118 | Erasing a session keeps it |
| Closing.CloseEnds | src/proxy/main.cc:129-137 | Closing takes the session out of the table and of the read events and sets end of file in its context; nothing else of it changes, nor anything of the other sessions or in the queues |
| Closing.AfterClose | src/proxy/SessionManager.cc:107-118 | However a run goes on after a close: the session stays out of the table, nothing more is read from it, no response of it comes past its check, and once the responses already past it are delivered nothing changes its context any more |
| Closing.ClosedStep | src/proxy/SessionManager.cc:107-118 | No event reads from a closed session or closes it again, and only a delivery already past its check changes its context |
| Closing.CheckDecides | src/proxy/main.cc:57-63 | A response comes past its check exactly if its session is in the table without end of file; otherwise it is dropped |
| Closing.EofForever | src/proxy/SessionManager.cc:34-118 | Once a context has seen end of file, by a close or by a write that took nothing, it stays so, and no response comes past its check any more |
| Closing.AcceptOpens | src/proxy/main.cc:147-169 | A new session, never used before, is in the table with a new context and decode context, and has a read event exactly if the registration succeeded; all others are untouched |
| Closing.NeverReadable | src/proxy/main.cc:164-167 | A session without a read event never gets one again and nothing is read from it, in every run; so one whose registration failed |
| Closing.ReadThrows | src/proxy/main.cc:138-144 | Reading ends the event loop exactly if the decoder throws on these bytes, and the requests before the exception are queued all the same |
| Closing.CrashedForever | deps/simple_resp/src/simple_resp.cc:73-83 | After an exception nothing happens any more |
| ProxySystem.WorkKeeps | src/proxy/main.cc:73-120 | A worker step keeps it |
| ProxySystem.CheckKeeps | src/proxy/main.cc:56-61 | The check of a sender keeps it, dropping the response if the session ended |
| ProxySystem.DeliverKeeps | src/proxy/main.cc:61-66 | Handing a response to a context keeps it, whatever happened since the check |
| ProxySystem.NewTasksAre | src/proxy/main.cc:159-163 | The tasks queued after a read are exactly the new handler calls of that session, each once |
| Proxy.Proxy.AcceptTcpHandler | src/proxy/main.cc:147-169 | The handler takes exactly the accept step of the state machine, and the new context writes to the accepted descriptor |
| Proxy.Proxy.ReadFromClient | src/proxy/main.cc:122-144 | A failed or empty read takes the close step, any other the read step |
| Proxy.Proxy.DecodeChunk | src/proxy/main.cc:140-144 | The decode context moves to what its stream becomes by these bytes, and the worker queue grows by the new calls |
| Proxy.Proxy.ProcesserWorker | src/proxy/main.cc:73-120 | The worker takes the work step, with an arbitrary response |
| Proxy.Proxy.SendReply | src/proxy/main.cc:68-71 | The response joins the sender queue |
| Proxy.Proxy.SenderCheck | src/proxy/main.cc:56-60 | The first half of the sender takes the check step and yields the context it found open |
| Proxy.Proxy.SenderDeliver | src/proxy/main.cc:61-66 | The second half takes the deliver step on the context it still holds, erased or not |
| Proxy.SessionManager.InsertNewStatus | src/proxy/SessionManager.cc:87-95 | A new, never used id maps to a new context; all others are untouched |
| Proxy.SessionManager.GetNextSessionCounterNumber | src/proxy/SessionManager.cc:120-125 | The counter goes up by one and its value is returned |
| Proxy.SessionManager.EraseSession | src/proxy/SessionManager.cc:107-118 | The entry leaves the table, its context sees end of file, and nothing else changes; an unknown id changes nothing |
| Proxy.SessionManager.SessionGetEof | src/proxy/SessionManager.cc:97-105 | Only the context of that session sees end of file |
| Proxy.SessionManager.GetCtx | src/proxy/SessionManager.cc:127-135 | The context of the id, or null exactly if there is none |
| Decoder.DecodeContext.Parse | deps/simple_resp/src/simple_resp.cc:55-144 | The loop computes the recursive scan `Run`: same handler calls, same fields and leftover bytes, or the same exception |
| Decoder.DecodeContext.HandleToken | deps/simple_resp/src/simple_resp.cc:71-132 | The switch over the state takes a token as `OnToken` says: an exception, a token to be kept open, or the new fields |
| Decoder.DecodeContext.Decode | deps/simple_resp/src/simple_resp.cc:45-53 | Decoding the buffer is feeding no bytes to the stream |
| Decoder.DecodeContext.PushElement | deps/simple_resp/src/simple_resp.cc:27-43 | The element joins the partial list; at the declared size the request is handed over and the context is back in INIT |
| Decoder.DecodeContext.PopBuffer | deps/simple_resp/src/simple_resp.cc:15-19 | Removes exactly the first bytes |
| Decoder.DecodeContext.AppendNewBuffer | deps/simple_resp/src/simple_resp.cc:21-25 | Adds the bytes at the end |
| Decoder.DecodeContext.constructor | deps/simple_resp/src/simple_resp.cc:5-14 | A new context is in INIT with nothing buffered; one size is unset |
| DecoderLaws.ChunkingInvariance | deps/simple_resp/src/simple_resp.cc:21-144 | For all bytes, malformed ones included: feeding a and then b gives the calls, state, leftover bytes or exception of feeding a + b |
| DecoderLaws.AnyChunking | deps/simple_resp/src/simple_resp.cc:21-144 | The same for any list of chunks |
| DecoderLaws.RunThenMore | deps/simple_resp/src/simple_resp.cc:57-143 | A scan that stopped can be resumed from the start of its leftover bytes once more arrive |
| DecoderLaws.ResidueNormalForm | deps/simple_resp/src/simple_resp.cc:57-143 | Leftover bytes are a suffix of the input and hold no CRLF, except in a payload at offsets below its declared size |
| DecoderLaws.DecodeAgain | deps/simple_resp/src/simple_resp.cc:45-53 | Decoding again without new bytes changes nothing |
| DecoderLaws.FeedKeepsGood | deps/simple_resp/src/simple_resp.cc:27-43 | For all byte streams: ids are 0, 1, 2, ..., no request is empty, INIT has an empty partial list, calls are never taken back |
| DecoderLaws.RunKeepsGood | deps/simple_resp/src/simple_resp.cc:27-131 | The same for one scan |
| DecoderLaws.NextDispatchHasDeclaredSize | deps/simple_resp/src/simple_resp.cc:27-43 | The next request handed over has the declared size and extends the partial list |
| DecoderLaws.EveryRequestHasDeclaredSize | deps/simple_resp/src/simple_resp.cc:27-131 | For every request of every byte stream, malformed ones included: the stream can be cut between two requests after exactly the calls before it, and the first line from there, less its first character, is its size |
| DecoderLaws.EveryRequestOfConnection | deps/simple_resp/src/simple_resp.cc:5-144 | The same for a new connection, however its bytes are cut into chunks |
| DecoderLaws.HeaderGovernsDispatch | deps/simple_resp/src/simple_resp.cc:73-83 | Between requests, the next line less its first character is the size of the next request |
| DecoderLaws.InitLine | deps/simple_resp/src/simple_resp.cc:73-83 | Between requests every line is a header, whatever its first character: it throws exactly if it is empty or holds no number, and otherwise sets the size |
| DecoderLaws.ElementLine | deps/simple_resp/src/simple_resp.cc:84-116 | Inside a request a `:` line is kept whole, a `$` line announces a payload, is the empty one, or throws, and any other line changes nothing |
| DecoderLaws.PayloadLine | deps/simple_resp/src/simple_resp.cc:117-131 | In a payload the first CRLF at or behind the announced size counts: right at it the payload is taken, behind it the line is dropped and the scan goes on still waiting for a payload of that size |
| DecoderLaws.PayloadWaits | deps/simple_resp/src/simple_resp.cc:117-131 | Without such a CRLF nothing happens |
| DecoderLaws.NextElementHasDeclaredSize | deps/simple_resp/src/simple_resp.cc:117-131 | A payload that is awaited has exactly the announced size in the request it is dispatched with, whatever bytes come |
| DecoderLaws.HeaderGovernsElement | deps/simple_resp/src/simple_resp.cc:92-131 | After a `$` header the next element of the dispatched request has exactly the size it announced |
| DecoderLaws.NoFreeReturn | deps/simple_resp/src/simple_resp.cc:27-143 | A scan that ends in INIT without a handler call consumed nothing |
| DecoderLaws.StuckForever | deps/simple_resp/src/simple_resp.cc:27-43 | With at least the declared number of elements outside INIT, no input ever dispatches again |
| RoundTrip.LivenessBoundary | deps/simple_resp/src/simple_resp.cc:71-131 | Outside INIT with nothing buffered: the decoder can still dispatch on some string below 2^63 bytes, the most there can be, if and only if it is not dead, that is neither holds as many elements as declared nor has a size that was negative before the cast |
| RoundTrip.NegativeCountIsDead | deps/simple_resp/src/simple_resp.cc:73-83 | After a negative element count, such as `*-1`, nothing is ever dispatched again |
| RoundTrip.NegativeSizeIsDead | deps/simple_resp/src/simple_resp.cc:92-110 | After a negative payload size, such as `$-1`, the same |
| DecoderLaws.DeadForever | deps/simple_resp/src/simple_resp.cc:27-131 | A dead decoder dispatches nothing on any string there can be |
| DecoderLaws.ConnectionIsSized | deps/simple_resp/src/simple_resp.cc:55-144 | The decoder of every connection is within the bounds these results ask for: sizes as `stoi` gives them, and a partial list no longer than the bytes received |
| RoundTrip.PipelineRoundTrip | deps/simple_resp/src/simple_resp.cc:55-144 | Decoding a pipeline yields exactly its requests, consecutive ids, INIT and an empty buffer if and only if every request is deliverable: sizes fit an int, it is not empty, and its last element is a non-empty bulk string; payloads are arbitrary, and `:` elements may come before the last |
| RoundTrip.PrefixExactness | deps/simple_resp/src/simple_resp.cc:57-143 | On every prefix of a pipeline, exactly the requests wholly inside it are dispatched, and the decoder is neither stuck nor dead |
| RoundTrip.WholeRequests | deps/simple_resp/src/simple_resp.cc:57-143 | The reference count: the greatest number of requests whose encodings fit the prefix |
| RoundTrip.ProperPrefixIsSilent | deps/simple_resp/src/simple_resp.cc:57-143 | A proper prefix of one request dispatches nothing and does not throw |
| RoundTrip.WireIsUnambiguous | deps/simple_resp/src/simple_resp.cc:55-144 | Pipelines with the same bytes carry the same requests |
| RoundTrip.PayloadStep | deps/simple_resp/src/simple_resp.cc:117-131 | A payload is taken by its length whatever CR and LF it holds |
| RoundTrip.BulkHeaderStep | deps/simple_resp/src/simple_resp.cc:92-110 | A `$` line: too large throws, zero pushes the empty string at once, else the payload is awaited; nothing else depends on how much is buffered |
| RoundTrip.ColonStep | deps/simple_resp/src/simple_resp.cc:89-91 | A `:` line is kept whole and does not complete a request |
| RoundTrip.HeaderStep | deps/simple_resp/src/simple_resp.cc:73-83 | A header line sets the size, or throws if it is over the range of int |
| RoundTrip.ElementStep | deps/simple_resp/src/simple_resp.cc:84-131 | An element is read as itself unless it is an empty or `:` last one |
| RoundTrip.RequestStep | deps/simple_resp/src/simple_resp.cc:55-144 | A deliverable request is read as itself in front of any bytes |
| RoundTrip.EmptyLastThrows | deps/simple_resp/src/simple_resp.cc:96-100 | An empty last bulk string dispatches the request, and its own line then throws |
| RoundTrip.UndeliverableBlocks | deps/simple_resp/src/simple_resp.cc:73-131 | A request that is not deliverable throws or leaves the decoder stuck |
| EncodedRequests.EncodeDecode | deps/simple_resp/src/simple_resp.cc:181-211 | `decode` of the concatenated `encode(ARRAYS, args)` gives back every request with ids 0, 1, ... and an empty buffer if and only if each has arguments, sizes fit an int and its last argument is not empty |
| EncodedRequests.EncodedRequest | deps/simple_resp/src/simple_resp.cc:203-208 | `encode(ARRAYS, args)` writes the request of these bulk strings |
| Text.StoiDecimal | deps/simple_resp/src/simple_resp.cc:77-79 | `stoi(to_string(n))` is n, or out of range exactly above INT_MAX |
| Text.DecimalValue | deps/simple_resp/src/simple_resp.cc:152 | `to_string` writes digits only, and they read back as the number |
| Text.PlainForm | deps/simple_resp/src/simple_resp.cc:152 | And in the only form without leading zeros |
| Text.StoiReads | deps/simple_resp/src/simple_resp.cc:77-79 | `stoi` takes white space, a sign, digits and anything else, and gives the number exactly if it fits an int |
| Text.StoiRejects | deps/simple_resp/src/simple_resp.cc:77-79 | Without a digit in that place it throws |
| Encoder.EncodeList | deps/simple_resp/src/simple_resp.cc:146-179 | The loop writes the list form: integers as bulk strings, nested arrays not at all |
| Encoder.Encode | deps/simple_resp/src/simple_resp.cc:181-211 | The other overload writes the scalar form; on ARRAYS it agrees with the first on bulk strings |
| Replies.ReplyRoundTrip | deps/simple_resp/src/simple_resp.cc:146-211 | A client reads a reply without inner arrays back from in front of any bytes, stopping exactly at its end, if and only if no simple string or error in it holds a CRLF |
| Replies.ListRoundTrip | deps/simple_resp/src/simple_resp.cc:146-179 | The same for lists: the items read are the ones written if and only if each is readable |
| Replies.ReadsExactly | deps/simple_resp/src/simple_resp.cc:146-211 | A client reads exactly these replies exactly from the concatenation of their bytes |
| Replies.ScalarRoundTrip | deps/simple_resp/src/simple_resp.cc:155-176 | A scalar reads back if it is not a simple string or an error holding a CRLF, and otherwise a different one is read |
| Replies.PrefixCode | deps/simple_resp/src/simple_resp.cc:146-211 | No reply is a proper prefix of another, and equal bytes are equal replies, up to INTEGERS and BULK_STRINGS sharing a form |
| Replies.StreamRoundTrip | deps/simple_resp/src/simple_resp.cc:146-211 | Any concatenation of replies splits uniquely back into them |
| Replies.NestedArraysSwallow | deps/simple_resp/src/simple_resp.cc:173-175 | Arrays inside a list are counted but not written: for every list with m of them the client takes the other items and then exactly m scalars of what follows, and the list ends at its own bytes if and only if m is 0 |
| Session.SessionCtx.InsertNewResponse | src/proxy/SessionManager.cc:34-55 | The method takes the step `Insert` on the whole context |
| Session.SessionCtx.SendFirstResponse | src/proxy/SessionManager.cc:57-76 | The loop computes `Drain` |
| Session.SessionCtx.Reply | src/proxy/SessionManager.cc:16-32 | One attempt is recorded with the count of its only `write`, which may be -1, partial or zero; the result is that count, or 1 after an error and for an empty response |
| Session.SessionCtx.constructor | src/proxy/SessionManager.cc:10-14 | A new context waits for id 0 and holds nothing |
| SessionLaws.InsertSound | src/proxy/SessionManager.cc:34-76 | Whatever the writes do: the new id joins the arrived ones, these are [0, cursor) and the buffered keys, every attempt carries its own response, successes are increasing, and while no `reply` was non-positive the cursor is not buffered and the log is exactly that of [0, cursor) |
| SessionLaws.InsertGrows | src/proxy/SessionManager.cc:34-76 | Nothing sent is taken back and end of file is sticky |
| SessionLaws.FirstResponseIsKept | src/proxy/SessionManager.cc:48-52 | Of two responses to a buffered id the first one is kept |
| SessionLaws.StaleBlocks | src/proxy/SessionManager.cc:57-76 | With a response buffered below the cursor only what comes as the next one is sent, and it stays there for ever |
| SessionLaws.LateResponseIsStale | src/proxy/SessionManager.cc:48-52 | That is where a response to an id below the cursor goes |
| SessionLaws.DrainSound | src/proxy/SessionManager.cc:57-76 | Draining changes no arrived id and leaves the invariant with the cursor unbuffered unless a write failed |
| SessionLaws.EofExactly | src/proxy/SessionManager.cc:34-76 | Arrivals set the end-of-file flag if and only if one of the responses that can be sent, as all before it are there, meets a write of zero bytes |
| SessionLaws.AfterArrivals | src/proxy/SessionManager.cc:34-76 | After any distinct ids of which none that can be sent meets a write of zero bytes, the log is that of [0, k), k the least id not arrived, and the map holds exactly the arrived ids above k with their responses |
| SessionLaws.Confluence | src/proxy/SessionManager.cc:34-76 | Two arrival orders of the same ids both set the flag or neither does; and if they do not, they end in the same context |
| SessionLaws.Canonical | src/proxy/SessionManager.cc:34-76 | An undisturbed context is determined by the set of ids that arrived |
| EndToEnd.SessionGapFree | src/proxy/main.cc:56-144 | In every reachable state, closed sessions and failing writes included: the ids with a positive `reply` are those below the cursor except the ones a delivery of the run gave up, so there is no gap if and only if none did |
| EndToEnd.GapInRun | src/proxy/SessionManager.cc:37-54 | A run with such a gap: two requests, the second answered first, and a first write of zero bytes |
| EndToEnd.ReplyLostInRun | src/proxy/SessionManager.cc:16-32 | A run of one request whose write fails with -1 or takes only a part: the session stays open and the client does not read the reply |
| SessionLaws.GapFree | src/proxy/SessionManager.cc:34-76 | For every arrival order and every pattern of writes: the ids with a positive `reply` are those below the cursor except the ones given up, that is those that came as the next one and met a write of zero bytes; so there is no gap if and only if there is none of these |
| SessionLaws.InsertAllSends | src/proxy/SessionManager.cc:34-76 | The same from any state on |
| SessionLaws.GapAfterFailedWrite | src/proxy/SessionManager.cc:37-54 | Such a gap: the first reply is given up and the second one still goes out |
| SessionLaws.FailedWriteGoesUnnoticed | src/proxy/SessionManager.cc:16-32 | After a write error the session stays open, the cursor moves on and nothing was sent |
| TimerList.TimerList.ProcessTimeEvents | src/ae/ae.c:246-319 | The pass over the linked list, relinked in place while callbacks prepend and mark nodes, keeps the promise of a pass: on the timers as they are if `now` is not below the time of the last pass, and otherwise on the same timers with every deadline at the first second; the result counts exactly the timers that fired |
| TimerList.TimerList.RunTimers | src/ae/ae.c:274-317 | Its main loop; the list stays linked and free of repetitions |
| TimerList.TimerList.VisitNode | src/ae/ae.c:278-316 | One turn of the loop is one step of the sequence pass, with the pointers to the current and the previous node kept right |
| TimerList.TimerList.UnlinkNode | src/ae/ae.c:283-289 | Taking out a node is `Unlink`: if nothing was kept yet the successor becomes the head |
| TimerList.TimerList.RearmNode | src/ae/ae.c:309-313 | The timer gets a deadline computed from the result, or a mark |
| TimerList.TimerList.ForceTimers | src/ae/ae.c:261-268 | Exactly the deadlines are changed, to the first second |
| TimerList.TimerList.CreateTimeEvent | src/ae/ae.c:188-205 | The timer is prepended with the next id |
| TimerList.TimerList.DeleteTimeEvent | src/ae/ae.c:207-218 | The first timer with the id is marked, and found exactly if there is one |
| TimerList.TimerList.SearchNearestTimer | src/ae/ae.c:231-244 | The first of the lexicographically nearest timers of the list, null exactly if there is none |
| TimerList.TimerList.PollTimeout | src/ae/ae.c:342-383 | The timeout handed to the kernel: the wait for the nearest timer converted to `int`, zero, or for ever |
| TimerList.NothingIsNewer | src/ae/ae.c:292-300 | The pass never reaches a timer made during it: the test for newer ids is dead code |
| TimerList.StepsFinish | src/ae/ae.c:274-317 | Taking the turns one by one ends in the state the recursive pass computes |
| TimerLaws.PassIsExact | src/ae/ae.c:246-319 | A state is the result of the pass if and only if it keeps this promise: every original timer is reached once, in order, with the counters of callbacks, clock readings and ids where the visit before left them; it is removed exactly if marked before or deleted by an earlier callback, else fired exactly if due; the list then holds the timers born meanwhile, newest first, save the lost ones, and behind them the survivors in order, each with its deadline, and marked exactly if a later callback deleted it or its own said so |
| TimerLaws.OnePass | src/ae/ae.c:246-319 | The promise leaves no freedom: two results that keep it are equal |
| TimerLaws.EveryPassIsExact | src/ae/ae.c:188-319 | After every run of calls and passes, the pass that comes next keeps its promise on the timers as they are, or, if the clock has gone back, on them with every deadline at the first second and nothing else changed |
| TimerLaws.DueTimersFire | src/ae/ae.c:261-316 | On a clock that has not gone back, a timer that is not due at any reading of the pass does not fire, and one that is due at all of them fires unless it was deleted before it was reached |
| TimerLaws.LostExactly | src/ae/ae.c:282-290 | Read off the list and the scripts before the pass: of the timers it creates exactly the first `Lost` ones are missing afterwards, and none is missing if and only if no finalizer of a timer removed at the head, before the last one removed there, creates a timer |
| TimerLaws.HarmlessLosesNothing | src/ae/ae.c:282-290 | That count is zero exactly under that condition |
| TimerLaws.LostTimer | src/ae/ae.c:282-290 | A concrete list whose pass loses the timer it creates |
| TimerLaws.MarkIsExact | src/ae/ae.c:207-218 | On a numbered list exactly the timer with that id is marked |
| TimerLaws.OpsEffect | src/ae/ae.c:188-218 | What the calls of one callback do: old timers stay in order behind the new ones, whose deadlines and marks are given, and are marked exactly if deleted; ids and clock readings advance by one per creation |
| Clock.AddMillisecondsExact | src/ae/ae.c:174-186 | The deadline is now plus the delay for every delay, with milliseconds in range exactly if the truncated remainder does not borrow |
| Clock.DueMeansPast | src/ae/ae.c:302-303 | The comparison means the deadline has passed |
| Clock.WaitIsExact | src/ae/ae.c:358-371 | Splitting the wait into seconds and microseconds and converting it back gives max(0, deadline - now), converted to `int` |
| Clock.WaitIsSplit | src/ae/ae.c:358-371 | The wait is split into whole seconds and less than a second of microseconds |
| Clock.NeverOversleeps | src/ae/ae_epoll.c:112-117 | With settled deadlines the sleep is exact, past no deadline and up to one that is due, if and only if the wait is below 2^31 ms; it passes no deadline if and only if the low 32 bits of the wait are not negative |
| Clock.SpoiledExactly | src/ae/ae.c:231-244 | A deadline can be slept past because of another one, on a wait that fits an int, if and only if it is more than a millisecond short of its second, seen from before that second, and within the range of a wait |
| Clock.OversleepsAfterClockStepsBack | src/ae/ae.c:174-186 | Such deadlines: a negative delay of less than a second made right on a second, once the clock is back behind it |
| TimerSleep.EveryRunSleepsExactly | src/ae/ae_epoll.c:112-117 | In every state of every run on a clock that does not go back: the sleep is exact if and only if the wait is below 2^31 ms, and passes no deadline if and only if the low 32 bits of the wait are not negative |
| TimerSleep.SleepsForEver | src/ae/ae_epoll.c:116-117 | A single timer of 2^31 ms, or any delay whose low 32 bits are negative, makes the loop sleep for ever |
| TimerSleep.LoopSettled | src/ae/ae.c:174-319 | Every run keeps all deadlines in the form this needs |
| EventLoop.EventLoop.CreateFileEvent | src/ae/ae.c:120-138 | The method computes `Create`, and its result says exactly whether it succeeded |
| EventLoop.EventLoop.DeleteFileEvent | src/ae/ae.c:140-156 | The method with its downward scan computes `Delete`, whose `maxfd` is the greatest descriptor left |
| EventLoop.EventLoop.ResizeSetSize | src/ae/ae.c:91-107 | The method computes `Resize`, on memory that starts with arbitrary contents |
| EventLoop.EventLoop.EmptyFrom | src/ae/ae.c:102-105 | Exactly the slots from there on lose their masks |
| EventLoop.EventLoop.constructor | src/ae/ae.c:48-67 | A new event loop is consistent, with no descriptor registered |
| EventLoop.EventLoop.GetFileEvents | src/ae/ae.c:158-163 | The mask of the descriptor, none if it is out of range |
| EventLoop.EventLoop.EpollCtl | src/ae/ae_epoll.c:90-110 | The interest set changes as the kernel defines, or not at all on a refusal |
| EventLoop.EventLoop.TakeReports | src/ae/ae_epoll.c:119-132 | Every report is handed over with its mask |
| EventLoop.EventLoop.ProcessFired | src/ae/ae.c:385-404 | The loop computes `FireAll`, with callbacks changing the table in between |
| FileTable.CreateKeeps | src/ae/ae.c:120-138 | From a consistent table registration fails exactly if the descriptor is out of range or the kernel refuses, so ADD and MOD are chosen right; it keeps epoll and `maxfd` in step if and only if the resulting mask is not empty; no other mask changes |
| FileTable.CreateStores | src/ae/ae.c:131-135 | A registration stores the callback under every direction it is for and keeps the other, stores the data, and changes no other slot |
| FileTable.DeleteStores | src/ae/ae.c:145-147 | A removal changes nothing but the mask of its descriptor |
| FileTable.BitsOfMasks | src/ae/ae.c:131-147 | Registering adds bits and removing takes them away, each by itself |
| FileTable.DeleteKeeps | src/ae/ae.c:140-156 | Removal keeps epoll in step if and only if the kernel does not refuse or the interest stays the same; `maxfd` stays exact in any case; no other mask changes |
| FileTable.ResizeKeeps | src/ae/ae.c:91-107 | A resize is refused exactly if a registered descriptor would not fit or the size is negative; else no registration is lost |
| FileTable.GreatestIsGreatest | src/ae/ae.c:147-155 | `Greatest` is the greatest descriptor with a mask, -1 exactly if there is none |
| FileTable.ResizedMasks | src/ae/ae.c:102-105 | The slots above `maxfd` are empty after a resize and those below unchanged |
| FileLaws.RunKeeps | src/ae/ae_epoll.c:77-110 | Over every run, refused calls included, epoll and `maxfd` agree with the table at every point if and only if every call is safe where it is made |
| FileLaws.ApplyKeeps | src/ae/ae_epoll.c:77-110 | One call keeps the agreement if and only if it is safe |
| FileLaws.WatchedAfterRun | src/ae/ae_epoll.c:77-110 | After every safe run, resizes included, epoll watches a descriptor for exactly what its own successful registrations less its removals add up to |
| FileLaws.WatchedBitAfterRun | src/ae/ae_epoll.c:77-110 | After every safe run epoll watches for input, or output, exactly if the last call about that bit was a successful registration |
| FileLaws.StoredAfterRun | src/ae/ae.c:91-156 | After every safe run, resizes and removals included, a descriptor with a mask has the data of its last successful registration, and for each bit of the mask the callback of its last one for that bit |
| FileLaws.OnlyCurrentEvents | src/ae/ae.c:385-404 | In every batch whose callbacks do nothing unsafe where they run, a callback is called only for a bit that was reported and that epoll is then watching its descriptor for, never for a registration removed earlier in the batch |
| FileLaws.ServedWhenReached | src/ae/ae.c:385-404 | Where a report is reached, exactly the bits epoll is then watching for are served, the writable one after a new look and not by the callback just called; each call is of the callback and with the client data the table holds at that moment, and the log and the table change in no other way |
| FileLaws.CallsWhatWasRegistered | src/ae/ae.c:385-404 | These are the callback and the data last registered in the run |
| FileLaws.TableAfterBatch | src/ae/ae.c:385-404 | A batch changes the table exactly by the scripts of the callbacks it calls, in the order of the calls |
| FileLaws.WantedIsServed | src/ae/ae.c:385-404 | Once the batch is done, every report that was still wanted when reached has been served |
| FileLaws.Undelivered | src/ae/ae_epoll.c:125-131 | A report calls nothing exactly if it shares no bit with the mask: an error or hang-up alone is not delivered to a descriptor registered for reading only |
| FileLaws.ReadyMask | src/ae/ae_epoll.c:122-130 | Readable means input, writable means output, error or hang-up |

## Left out

- Sockets, options, logging and the accept loop (`src/ae/anet.c`,
  `src/proxy/proxy.cc`, the rest of `src/proxy/main.cc`): plumbing around the path
  modelled here.
- What a command does (`src/proxy/handler.cc`, `to_uppercase` and the command
  table): a response is an arbitrary value per request; the LogCabin client is
  not part of this model. Nothing is claimed about the order in which commands
  are executed, since workers run concurrently.
- Session.SessionCtx.Reply: does not model the narrowing of a `write` count to
  `int`, which matters for single writes of more than 2^31 bytes, nor what error a
  -1 stands for.
- Races outside the locks (`get_ctx`, the singleton, `is_eof_reach`), reuse of a
  closed file descriptor, the internals of `ThreadPool` and failing allocation:
  steps are atomic, and a sender is two steps because its check is outside the
  lock.
- Wrap-around of ids, counters and the buffer index (`int` in the source), which
  would need more than two thousand million requests, sessions, timers or buffered
  bytes; integers are unbounded here, except where `stoi` and the unsigned sizes
  limit them.
- Clock.WaitIsExact: does not model overflow of `long`, which deadlines of more than
  about 290 million years would need; the conversion of the timeout to `int` is
  modelled.
- EventLoop.EventLoop.CreateFileEvent: takes no negative descriptor. The source does
  not reject one, and the accept handler passes on the -1 of a failed accept, which
  then reads and writes in front of the table; C gives that no meaning to model.
- FileTable.CreateKeeps: the same.
- FileLaws.OnlyCurrentEvents: callbacks do not resize the table, which would leave
  the loop with a pointer into freed memory, and do not re-enter the loop.
- The timer list and the file events are two classes although the source keeps
  both in one structure; they share no field except through the event loop.
- `aeWait`, `aeMain`, `aeStop`, the before-sleep hook, the real clock and the real
  kernel; the clock, epoll and its reports are parameters.
- The status of an encoding, which is always OK, and `split_list_elements`, which
  is never called.
- Freeing of memory: an unlinked timer and an erased session are just no longer
  reachable.

# Dapr WASM components: delivery, streams, byte pipelines and codecs

A Dafny model of the parts of the Dapr WASM components that hold real protocols, loops, printers and
routers, with proofs of what they promise. `dafny verify dfyconfig.toml` checks the whole project.

## What is modelled

- **Delivering events to the app** (`delivery_protocol.dfy`, `delivery_queue.dfy`). Any number of `Deliver` calls
  register under a lock, send their id on a channel of 1024 slots in a separate step and wait on a one-slot reply
  channel; one pump takes ids, calls the app and completes them. The protocol is a step relation over every
  interleaving, with a step for each locked section and each channel operation and with the nil dereference, the two
  panics and a reply that would block as faults of the pump. The class `Deliveries` has the package's variables, the
  `pending` structs are heap objects shared by the map and their `Deliver` call, and every method is shown to be a step
  of the protocol or, for `Next`, `Complete` and `PumpRound`, a sequence of them.
- **The in-process bidirectional stream** (`stream_protocol.dfy`, `stream_buffers.dfy`). One client and one handler
  goroutine over a rendezvous channel; every case of every select, the order of the handler's two deferred calls and
  an external cancel are steps, and the client may push, half-close and wait in any order and any number of times. The
  class `Bidi` has the stream's fields, and its responses are heap buffers, so that a handler which overwrites a buffer
  after `Send` is part of the model.
- **Byte pipelines** (`crypto_stream.dfy`, `streaming_upload.dfy`, `wasi_socket.dfy`). The buffered crypto path from
  `write` through numbered payloads and their reassembly to chunked reads and the `io::Read` adapter; the streaming
  upload that latches an early answer of the sidecar; TCP connections whose handles another goroutine may drop at any
  sleep.
- **Codecs and routers** (`json_printer.dfy` against the reader in `json_grammar.dfy`, `any_json.dfy`,
  `grpc_frame.dfy`, `base64.dfy`, `interval_text.dfy`, `host_lookup.dfy`, `actor_routes.dfy`, `pubsub_routes.dfy`).
  The reader of `json_grammar.dfy` follows sections 2 to 7 of RFC 8259 and is written without regard to the printer.
- **The compare-and-swap counter** (`counter_cas.dfy`), run by any number of processes at once.
- `decimal.dfy` holds the digit text that several of these print or read, `common.dfy` the types they share and
  `host_streams.dfy` what the two writers to host streams share.

What the environment does is a parameter: oracles indexed by poll or sleep (streams, clock, scheduler, the sidecar's
answer), functions (`floatText` for Rust's float formatter, `nearest` for rounding a decimal to a double, `decode` for
percent-decoding) or the actions of a step relation. Runs are of any finite length: the number of sleeps or waits a
run has left is a parameter (`horizon`), a call that needs one more ends as `Blocked`, and it ends so only then.

The assumptions are these. The app's callbacks return. Fewer than 2^64 deliveries are ever registered. In the socket
code goroutines switch only where a call sleeps (`components/go-outbound/wasisock/wasisock.go:7-10`), and one goroutine
at a time reads and one writes. Dropping a handle again does nothing, because the bindings forget it
(`components/go-outbound/internal/wit/wasi_io_streams/wit_bindings.go:92-97`), and every other call on a forgotten
handle traps. An input stream hands over no more than was asked for, ends only after all of its bytes or after it
failed, and a write that fails has accepted nothing. The store never reuses an etag, and it takes a first-write only
when its etag is the stored one, or the key is absent and it has none; a write reported as failed for another reason
may have been taken. `serde_json` and Go may round a number to different doubles. `usize` has 32 bits, as on wasm32.

## What turned out not to hold

- `base64_decode` traps on a group of four padding characters: `3 - pad` is then below zero.
  `Base64.TrapsExactlyOnPadGroups` and `Base64.DecodesExactlyWhen` say for every text when it traps and when it decodes.
  The encoding of one or two bytes without its padding is accepted and decodes to three bytes
  (`Base64.PaddingIsNeeded`).
- The two actor routers disagree on a timer or reminder name of several segments: the Rust router keeps the first
  segment, the Go router all of them. `ActorRoutes.RoutersAgree` shows that this is the only disagreement on plain
  paths, `ActorRoutes.LongNamesDisagree` what each router chooses there, and `ActorRoutes.LongNameExample` such a path.
- The two JSON packers agree exactly on the texts whose numbers all fit a finite double for Rust's parser and which
  both parsers round to the same doubles (`AnyJson.GoPack`). Rust's parser refuses other numbers, Go packs a NaN
  (`AnyJson.MisfitPacksDiffer`).
- The text of a CloudEvent attribute is JSON exactly when the attribute is not a string and holds only finite numbers
  (`JsonPrinter.AttributeTextReads`). The comment on `value_to_json` promises valid JSON, and a NaN or an infinity
  inside a list or struct breaks it (`JsonPrinter.PrintedJsonReads`).
- An empty `Write` on a closed connection flushes a dropped stream, and `CloseWrite`, which does not look at `closed`,
  touches a dropped handle exactly when the connection is closed before it or while it drains (`WasiSocket.Conn.Write`,
  `WasiSocket.Conn.CloseWrite`, with a run of each in `EmptyWriteAfterClose` and `HalfCloseOverlapsClose`). `Read`,
  `Close` and every other `Write` never do.
- The first end of file that `Read` reports leaves input undelivered exactly when an earlier `Read` had failed with
  input still to come; the `Read` after the failed one does report it, unless its deadline is over or the connection is
  closed (`WasiSocket.Conn.Read`, with a run in `EndOfFileAfterReset`).
- A frame whose length plus five reaches 2^32 is refused by `unframe`, because the end of the slice wraps
  (`GrpcFrame.UnframeInvertsFrame`); no such frame fits 32-bit memory.

## Model

| member | source | states |
|---|---|---|
| DeliveryProtocol.InflightIsPartitioned | components/go-outbound/internal/events/events.go:52-99 | in every interleaving of the locked sections and channel operations the keys of `inflight` are the disjoint union of the ids registered but not sent, queued and held by the pump, and the channel holds no id twice |
| DeliveryProtocol.ChannelIsBounded | components/go-outbound/internal/events/events.go:34 | the channel never holds more than 1024 ids, and a registered call can send exactly while it holds fewer |
| DeliveryProtocol.PumpNeverFaults | components/go-outbound/internal/events/events.go:74-98 | `Next` never meets a nil entry and `Complete` never an unknown id, a mismatched case or a full reply slot |
| DeliveryProtocol.FaultsAreSeen | components/go-outbound/internal/events/events.go:74-98 | in any state, reachable or not, exactly a missing entry, another case and a full slot would be faults |
| DeliveryProtocol.PumpStepsAreSafe | components/go-outbound/internal/events/events.go:74-98 | whatever other goroutines do between the steps of `Next` and `Complete`: the lookup and the delete find the entry, and the reply finds the result's case and an empty slot |
| DeliveryProtocol.EventsReachAppOnceInOrder | components/go-outbound/internal/events/events.go:63-82 | each event reaches the app at most once, in the order in which the ids entered the channel; the app has been called for every id sent except those still queued or held |
| DeliveryProtocol.EachCallerGetsItsOwnResult | components/go-outbound/internal/events/events.go:60-98 | a `Deliver` that returned has the app's result for its own event, from the only call of the app made for its id |
| DeliveryProtocol.CellKeepsItsEvent | components/go-outbound/internal/events/events.go:58-61 | for the rest of a run the entry of an id holds the event its `Deliver` was given |
| DeliveryProtocol.NewIdIsFresh | components/go-outbound/internal/events/events.go:58-61 | a registration never overwrites an entry that is in flight or was ever used |
| DeliveryProtocol.AllReturnedMeansAllHandled | components/go-outbound/internal/events/events.go:52-99 | once every call has returned the app was called exactly once per registration and nothing is left in flight |
| DeliveryProtocol.RoundAnswersTheHead | components/go-inbound/src/lib.rs:42-48 | a round of the pump calls the app once, with the event at the head of the channel, and leaves the answer for exactly that event's `Deliver` |
| DeliveryProtocol.LogIsDispatched | components/go-inbound/src/lib.rs:55-142 | every call of the app was answered in the result case of its own event case |
| DeliveryProtocol.TagsTellCasesApart | components/go-outbound/internal/events/events.go:95 | equal case numbers mean the same callback, so the check of `Complete` tells all fourteen apart |
| DeliveryProtocol.PendingCallsCanMove | components/go-outbound/internal/events/events.go:34-99 | while a call is pending some step other than a new call is enabled, also when the channel is full |
| DeliveryProtocol.StepsLoseWeight | components/go-outbound/internal/events/events.go:52-99 | every step that is not a new call makes a weight over registered, queued, held and completed deliveries smaller |
| DeliveryProtocol.DrainTerminates | components/go-outbound/internal/events/events.go:52-99 | without new calls a bounded number of steps follows, and where none is left all calls have returned |
| DeliveryQueue.Deliveries.Attach | components/go-outbound/internal/events/events.go:37-42 | is the protocol's attach step on the package variables |
| DeliveryQueue.Deliveries.Register | components/go-outbound/internal/events/events.go:52-62 | without a pump nothing changes and the call is refused; otherwise it is the registration step, with a new pending struct that belongs to the caller |
| DeliveryQueue.Deliveries.Send | components/go-outbound/internal/events/events.go:63 | is the protocol's send step, taken only when the channel has room |
| DeliveryQueue.Deliveries.Next | components/go-outbound/internal/events/events.go:71-82 | receives an id and looks it up in two steps, and dereferences an entry that is always there |
| DeliveryQueue.Deliveries.Complete | components/go-outbound/internal/events/events.go:87-99 | never panics or blocks; forgets the entry and, in a second step, puts the result into the reply slot of the right pending struct |
| DeliveryQueue.Deliveries.Reply | components/go-outbound/internal/events/events.go:92-98 | after the delete, and whatever came between, the checks pass and the pending struct taken from the map gets the reply |
| DeliveryQueue.Deliveries.Receive | components/go-outbound/internal/events/events.go:64 | the waiting call returns the result left for it |
| DeliveryQueue.Deliveries.PumpRound | components/go-inbound/src/lib.rs:44-47 | a round is take, call and complete of the same event |
| DeliveryQueue.DeliverOne | components/go-outbound/internal/events/events.go:52-99 | a whole `Deliver` with a round of the pump returns the app's answer to its event, in the event's own case |
| DeliveryQueue.DeliverAll | components/go-outbound/internal/events/events.go:37-99 | from the start, any list of events delivered one after the other: each gets the app's answer to it |
| StreamProtocol.ReceivedIsWhatWasAccepted | components/go-outbound/internal/streams/streams.go:68-122 | what `Recv` returned is, in order, what `Push` returned nil for, up to one exchange only one side has returned from |
| StreamProtocol.EofComesAfterAllRequests | components/go-outbound/internal/streams/streams.go:92-122 | when no push follows the half-close, a handler that saw the end has received every accepted request and none is under way |
| StreamProtocol.PushFailsOnlyWithTheHandlersResult | components/go-outbound/internal/streams/streams.go:54-89 | without an external cancel no `Push`, before or after any `Wait`, returns a context error; a failing one returns the handler's final result, as does every later one |
| StreamProtocol.WaitReturnsWhatWasSent | components/go-outbound/internal/streams/streams.go:98-135 | every `Wait`, also a repeated one, returns exactly the responses whose `Send` returned nil, in order, and the handler's error |
| StreamProtocol.PushAfterWaitIsRefused | components/go-outbound/internal/streams/streams.go:66-89 | a `Push` after a `Wait`, also on a cancelled stream, is never accepted: it returns the error that `Wait` returned, or `ErrHandlerDone` for nil |
| StreamProtocol.ResultIsFinal | components/go-outbound/internal/streams/streams.go:54-60 | after `done` closes neither the error nor the responses change |
| StreamProtocol.OnlyDeadlockIsAnUnclosedWait | components/go-outbound/internal/streams/streams.go:68-135 | a call cannot go on exactly when the handler waits for a request on a stream neither half-closed nor cancelled while the client waits or runs its own code |
| StreamProtocol.UnclosedWaitIsReachable | components/go-outbound/internal/streams/streams.go:98-122 | the deadlock of a client that waits without half-closing does occur |
| StreamProtocol.HalfCloseIsSeen | components/go-outbound/internal/streams/streams.go:91-118 | in every run the stream is half-closed exactly from the first `CloseSend` on, and exactly from then on a handler in `Recv` can see the end |
| StreamProtocol.CancelIsSeen | components/go-outbound/internal/streams/streams.go:105-129 | in every run the context is cancelled exactly from the first cancel or the handler's exit on, and exactly from then on `Recv` and `Push` can leave by it and `Send` refuses |
| StreamBuffers.Bidi.Send | components/go-outbound/internal/streams/streams.go:126-135 | refused exactly on a cancelled stream; otherwise a fresh buffer with the bytes the message holds at that moment is added |
| StreamBuffers.Bidi.SendAllThrough | components/go-outbound/internal/streams/streams.go:124-135 | a handler that reuses one buffer for messages of any lengths leaves each as it was when sent |
| StreamBuffers.Bidi.Push | components/go-outbound/internal/streams/streams.go:68-89 | nil exactly for the request case, and then the request is handed over; otherwise the handler's error or `ErrHandlerDone` once `done` is closed, also through the inner select, and the context's error before |
| StreamBuffers.Bidi.Recv | components/go-outbound/internal/streams/streams.go:113-122 | returns exactly the request the channel handed over, the end, or the context's error, for each ready case; at the end, when no push followed the half-close, every accepted request has been received |
| StreamBuffers.Bidi.Exit | components/go-outbound/internal/streams/streams.go:54-60 | result, then `done`, then cancel: three steps of the protocol in this order |
| StreamBuffers.Bidi.CloseSend | components/go-outbound/internal/streams/streams.go:92-94 | closes the stream, however often it is called, and changes nothing else |
| StreamBuffers.Bidi.Cancel | components/go-outbound/internal/streams/streams.go:107-109 | cancels the context, however often it is called, and changes nothing else |
| StreamBuffers.AnswerUntilCloseSend | components/go-outbound/internal/streams/streams.go:45-135 | for all requests and every handler function: the handler gets the requests in order and then the end, the client all answers in order and no error |
| StreamBuffers.PushAfterExit | components/go-outbound/internal/streams/streams.go:66-89 | pushes after the handler's exit return its error, also on a cancelled stream |
| StreamBuffers.Bidi.Wait | components/go-outbound/internal/streams/streams.go:98-103 | the returned buffers hold all responses whose `Send` returned nil |
| CryptoStream.PayloadsPartitionTheInput | components/wasi-grpc-outbound/src/crypto.rs:99-112 | the payloads are numbered from 0, hold at most `CHUNK` bytes, all but the last exactly that, one empty payload exactly for empty input, and join to the input |
| CryptoStream.CollectPayload | components/wasi-grpc-outbound/src/crypto.rs:85-97 | fails exactly when the stream does, with its first failure, and otherwise joins the chunks in `seq` order |
| CryptoStream.EmptyMessagesAreIgnored | components/wasi-grpc-outbound/src/crypto.rs:90-94 | a message without a payload counts for nothing, wherever it stands |
| CryptoStream.AnyArrivalOrderCollects | components/wasi-grpc-outbound/src/crypto.rs:82-112 | payloads of some data that arrive in any order are put together to that data |
| CryptoStream.SortedIsStable | components/wasi-grpc-outbound/src/crypto.rs:95 | chunks with the same number keep their order of arrival |
| CryptoStream.OrderIsUnique | components/wasi-grpc-outbound/src/crypto.rs:95 | with distinct numbers there is only one ordering by number |
| CryptoStream.Cryptor.Finish | components/wasi-grpc-outbound/src/crypto.rs:202-211 | the collected input is sent as payloads; it fails exactly when the answer to them does, and otherwise the output serves the data the answer delivers, in whatever chunks and order |
| CryptoStream.CryptoOutput.Read | components/wasi-grpc-outbound/src/crypto.rs:258-267 | `None` exactly at the end; otherwise the next bytes, as many as asked (at least one) or as are left |
| CryptoStream.ReadChunks | components/wasi-grpc-outbound/src/crypto.rs:258-267 | reads of any sizes deliver in order exactly as much as they ask for, or all there is |
| CryptoStream.OutputReader.Read | app-sdk/dapr-app/src/lib.rs:482-501 | fills the front of the buffer with exactly as many of the next bytes as are pending or, when none are, as one request of at most 64 KiB brings, and leaves the rest of it alone; 0 on a non-empty buffer exactly at the end |
| CryptoStream.OutputReader.ReadEach | app-sdk/dapr-app/src/lib.rs:482-501 | reads of any sizes skip and repeat nothing, and each with a non-empty buffer delivers something until the end |
| CryptoStream.OutputReader.ReadToEnd | app-sdk/dapr-app/src/lib.rs:482-501 | reading until 0 yields all that is left |
| CryptoStream.EchoPipeline | components/wasi-grpc-outbound/src/crypto.rs:85-267 | against a sidecar that sends its payloads back in any order: writes, chunked reads and then reader reads of any sizes, the bytes out are the bytes in |
| CryptoStream.EchoEchoes | components/wasi-grpc-outbound/src/crypto.rs:85-112 | a sidecar that sends the payloads back one by one is one of those `EchoPipeline` is about |
| CryptoStream.Pipeline | components/wasi-grpc-outbound/src/crypto.rs:85-267 | against a sidecar that answers its payloads with a function of the data, cut and ordered in any way: the bytes out are that function of all the bytes written |
| CryptoStream.EncryptThenDecrypt | components/wasi-grpc-outbound/src/crypto.rs:85-267 | encrypting and then decrypting through both paths gives back the input when the sidecar's decryption inverts its encryption |
| CryptoStream.DeliveredIsCollected | components/wasi-grpc-outbound/src/crypto.rs:82-97 | chunks with distinct numbers, cut in any way and arriving in any order, are put together to their data |
| StreamingUpload.StreamingRequest.Write | components/wasi-http-outbound/src/streaming.rs:94-123 | success sends all of the data; it ends early at exactly the first poll at which the answer is there or the body broke, having sent exactly what the polls before allowed, and latches the sidecar's answer; it waits only where a poll finds no room; a latched failure comes back and sends nothing |
| StreamingUpload.StreamingRequest.Finish | components/wasi-http-outbound/src/streaming.rs:127-171 | a latched failure comes back; otherwise success exactly when flush and body ended well and the answer is 2xx, with that answer's body to read, and any other end is what the sidecar's answer amounts to |
| StreamingUpload.WriteAll | components/wasi-http-outbound/src/streaming.rs:94-123 | a sequence of writes meets its first failure or trap only at the first poll at which the upload cannot go on, and then with the sidecar's answer; it repeats a failure and stops at a trap; what was sent is a prefix of the input with the data of every successful write |
| StreamingUpload.StreamingRequest.AnswerOrPanic | components/wasi-http-outbound/src/streaming.rs:190-206 | the recoverable failure of a whole body with a status outside 2xx and 5xx, or the trap of the other answers, reading the one-shot future |
| StreamingUpload.EarlyAnswerMeans | components/wasi-http-outbound/src/sidecar.rs:220-231 | which answers are recoverable (a whole body with a status outside 2xx and 5xx, as that status and body), and which trap with what: no answer, a broken body, 5xx, an early 2xx |
| StreamingUpload.StreamingRequest.AwaitResponse | components/wasi-http-outbound/src/streaming.rs:208-216 | exactly the answer, or the trap for a failed transport or a future already read, after one wait |
| StreamingUpload.StreamingRequest.EarlyFailure | components/wasi-http-outbound/src/streaming.rs:175-188 | returns and latches the same failure, or the component is dead |
| StreamingUpload.ReadAll | components/wasi-http-outbound/src/streaming.rs:253-274 | the whole body, or a trap exactly when it breaks off |
| StreamingUpload.ResponseBody.Read | components/wasi-http-outbound/src/streaming.rs:231-249 | the next non-empty bytes, at most as many as asked; `None` exactly at the end and ever after, a trap exactly when the body breaks off there |
| StreamingUpload.RunUpload | components/wasi-http-outbound/src/crypto.rs:178-190 | over a whole upload the future is never read twice and nothing is written after the end; every failure and trap is what the sidecar's answer amounts to, a write meets it only at the first poll at which the upload cannot go on, and a failure is returned by every later call; what was sent is a prefix of the input, all of it when every write succeeded; then the end succeeds exactly on a whole body and a 2xx answer; it waits only where a poll finds no room and once for the answer |
| WasiSocket.Conn.Read | components/go-outbound/wasisock/wasisock.go:331-364 | never touches a dropped handle; delivers the next bytes of the input; sleeps only while there is nothing to deliver or report; end of file only after all of the input or, with input missing, exactly after a failed read, and on every later read; an error is the closed one exactly when closed, otherwise the deadline one exactly when it is over, otherwise the stream's |
| WasiSocket.Conn.Write | components/go-outbound/wasisock/wasisock.go:366-398 | the count is exactly the prefix handed over, what the polls before an error allowed, and the error nil exactly for all of it; it goes on exactly until the first close, deadline, refusal or failure, in this order of precedence, and sleeps only where a poll finds no room; a dropped handle is touched exactly by an empty write on a closed connection |
| WasiSocket.Conn.Drain | components/go-outbound/wasisock/wasisock.go:402-413 | waits until the output is flushed or broken, the time is over or somebody closed, and no longer |
| WasiSocket.Conn.Close | components/go-outbound/wasisock/wasisock.go:423-433 | never touches a dropped handle, however many closes complete while it drains; closes only after draining; the host is asked to drop the handles exactly once (a second `Drop` does nothing, components/go-outbound/internal/wit/wasi_io_streams/wit_bindings.go:92-97); a second close does nothing |
| WasiSocket.Conn.CloseWrite | components/go-outbound/wasisock/wasisock.go:415-421 | touches a dropped handle exactly when the connection is closed before it or while it drains; otherwise shuts down after draining and reports how that went |
| WasiSocket.EmptyWriteAfterClose | components/go-outbound/wasisock/wasisock.go:366-398 | a run in which an empty write calls the dropped output stream |
| WasiSocket.EndOfFileAfterReset | components/go-outbound/wasisock/wasisock.go:331-364 | a run with a reset and then an end of file, with a byte of the input missing |
| WasiSocket.HalfCloseOverlapsClose | components/go-outbound/wasisock/wasisock.go:402-421 | a run in which a close completes while a half-close drains, which then calls the dropped socket |
| WasiSocket.Conn.ReadEach | components/go-outbound/wasisock/wasisock.go:331-364 | whatever the buffer sizes, errors and closes: the bytes read are the next of the input, as many as reported; every read is made until the run ends, and delivers something or reports an error with its cause; at an end of file without a failure all is read |
| JsonPrinter.PrintedJsonReads | components/wasi-grpc-inbound/src/lib.rs:409-464 | the printed text is a JSON text exactly when the tree holds only finite numbers, and then it reads back, with nothing left over, as that tree with unset kinds as null and each number as what its text denotes |
| JsonPrinter.PrintedJsonRoundTrips | components/wasi-grpc-inbound/src/lib.rs:409-464 | read back and with its numbers rounded to doubles, the text gives the very tree, for a float formatter whose texts round back |
| JsonPrinter.DoublesPrintInjectively | components/wasi-grpc-inbound/src/lib.rs:409-464 | such trees of any finite doubles that print alike are equal |
| JsonPrinter.NonFiniteIsNotJson | components/wasi-grpc-inbound/src/lib.rs:413-419 | NaN and the infinities print as words, and a list with one of them is not JSON |
| JsonPrinter.ValueReads | components/wasi-grpc-inbound/src/lib.rs:409-445 | the same inside any surrounding text that ends a number |
| JsonPrinter.TextIsCompact | components/wasi-grpc-inbound/src/lib.rs:422-433 | a list or struct has its brackets, one comma between two parts, one colon in each field and nothing else around its parts |
| JsonPrinter.ReadingIsExact | components/wasi-grpc-inbound/src/lib.rs:414-421 | for integral numbers below 10^15 and set kinds the tree read back is the very tree printed |
| JsonPrinter.PrinterIsInjective | components/wasi-grpc-inbound/src/lib.rs:409-464 | such trees that print alike are equal |
| JsonPrinter.AttributeTextReads | components/wasi-grpc-inbound/src/lib.rs:409-435 | the text of an attribute reads back (as in `PrintedJsonReads`) exactly when the attribute is not a string and holds only finite numbers |
| JsonPrinter.AttributeTextIs | components/wasi-grpc-inbound/src/lib.rs:405-435 | the text of an attribute is the string itself verbatim, or else JSON that reads back as the attribute exactly when it holds only finite numbers |
| JsonPrinter.ExtensionAttributes | components/wasi-grpc-inbound/src/lib.rs:391-403 | every extension attribute keeps its name and place and gets that text; none without extensions |
| JsonPrinter.NumberTextReads | components/wasi-grpc-inbound/src/lib.rs:413-419 | a finite number prints as one number of the grammar, which for an integral one below 10^15 denotes it; a NaN or infinity prints as no JSON value |
| JsonPrinter.IntegralTextParses | components/wasi-grpc-inbound/src/lib.rs:414-418 | an integral number below 10^15 prints as digits and a sign that denote it, whatever the float formatter does, and exactly the other finite numbers are left to that |
| JsonPrinter.EscapedTextReads | components/wasi-grpc-inbound/src/lib.rs:448-464 | the escapes of any text read back as that text, up to the closing quote |
| JsonPrinter.EscapesAreShort | components/wasi-grpc-inbound/src/lib.rs:452-460 | only the five characters with a short escape take two characters, other control characters six, and everything else stands for itself |
| JsonPrinter.JsonString | components/wasi-grpc-inbound/src/lib.rs:448-464 | the buffer loop produces the quoted, escaped text |
| AnyJson.ToValue | components/go-outbound/internal/anyjson/anyjson.go:44-78 | the Go loops build the tree the Rust recursion builds (components/wasi-grpc-outbound/src/anyjson.rs:12-30) |
| AnyJson.ConversionSaysTheDocument | components/wasi-grpc-outbound/src/anyjson.rs:12-30 | a proto value is what the document converts to exactly when it has the document's nulls, flags, texts, items and members and the doubles of its numbers |
| AnyJson.FromValue | components/go-outbound/internal/anyjson/anyjson.go:82-107 | the same for the way back (components/wasi-grpc-outbound/src/anyjson.rs:32-52) |
| AnyJson.RoundTripNormalizes | components/wasi-grpc-outbound/src/anyjson.rs:12-52 | to a proto value and back gives the document with its numbers as doubles, null for those that have none |
| AnyJson.ValuesComeBack | components/wasi-grpc-outbound/src/anyjson.rs:12-52 | a proto value to JSON and back: itself, with unset kinds and numbers that are not finite as null |
| AnyJson.SecondPassChangesNothing | components/wasi-grpc-outbound/src/anyjson.rs:12-52 | a document that came back once comes back unchanged |
| AnyJson.NaNMarksMisfits | components/wasi-grpc-outbound/src/anyjson.rs:17 | the value holds a NaN exactly when a number of the document fits no finite double |
| AnyJson.GoPack | components/go-outbound/internal/anyjson/anyjson.go:145-151 | never fails on a JSON text; packs what `pack_json` (components/wasi-grpc-outbound/src/anyjson.rs:67-74) packs exactly when every number fits for Rust's parser and Go's rounds it to the same double |
| AnyJson.PacksExactlyWhatFits | components/wasi-grpc-outbound/src/anyjson.rs:67-74 | `pack_json` refuses a text exactly when one of its numbers fits no finite double, and otherwise packs the converted tree |
| AnyJson.TreesAgreeExactly | components/wasi-grpc-outbound/src/anyjson.rs:12-30 | two roundings give equal trees exactly when they give equal doubles for every number of the document |
| AnyJson.MisfitPacksDiffer | components/wasi-grpc-outbound/src/anyjson.rs:67-74 | a list with a number out of range is refused by the Rust packer and packed with a NaN by the Go one |
| GrpcFrame.UnframeInvertsFrame | components/wasi-grpc-inbound/src/lib.rs:319-342 | for every message, the frame comes apart into it exactly when message and header end below 2^32 |
| GrpcFrame.UnframeAcceptsExactly | components/wasi-grpc-inbound/src/lib.rs:319-333 | exactly which bodies yield a message and which message: nothing for nothing, otherwise the bytes an uncompressed header names, which must all be there |
| GrpcFrame.UnframeByLength | components/wasi-grpc-inbound/src/lib.rs:330-332 | the slice named by the big-endian length, refused when its end exceeds the body or wraps |
| GrpcFrame.HeaderNamesTheLength | components/wasi-grpc-inbound/src/lib.rs:336-342 | a header names a length exactly when it is the header of the messages of that length |
| GrpcFrame.FourBytesAre | components/wasi-grpc-inbound/src/lib.rs:330 | the length is read most significant byte first |
| GrpcFrame.Frame | components/wasi-grpc-inbound/src/lib.rs:336-342 | an uncompressed frame whose header holds the length modulo 2^32 in big-endian order; `unframe` gives the message back exactly when it ends below 2^32 |
| Base64.DecodeInvertsEncode | components/wasi-http-inbound/src/lib.rs:890-915 | the padded encoding (section 4 of RFC 4648) of any bytes, with whitespace inserted anywhere, decodes to those bytes |
| Base64.EncodingDecodes | components/wasi-http-inbound/src/lib.rs:890-915 | decoding the padded encoding of any bytes gives those bytes |
| Base64.Base64Decode | components/wasi-http-inbound/src/lib.rs:890-915 | the loop over chunks computes the group-wise decoding |
| Base64.DecodeChunk | components/wasi-http-inbound/src/lib.rs:904-913 | one group through the accumulator: its bytes less the padding, its first invalid character, or the trap |
| Base64.SpaceIsIgnored | components/wasi-http-inbound/src/lib.rs:902 | one whitespace character anywhere changes nothing |
| Base64.WhitespaceIs | components/wasi-http-inbound/src/lib.rs:902 | whitespace is the blank, tab, line feed, form feed and carriage return |
| Base64.AlphabetIs | components/wasi-http-inbound/src/lib.rs:892-900 | the alphabet the decoder inverts is table 1 of RFC 4648 |
| Base64.DigitsAreTheBits | components/wasi-http-inbound/src/lib.rs:906-911 | the digits of a group are the bits of its bytes, most significant first |
| Base64.TrapsExactlyOnPadGroups | components/wasi-http-inbound/src/lib.rs:905-912 | it traps exactly when an aligned group is all padding and no invalid character comes before it |
| Base64.PadGroupTraps | components/wasi-http-inbound/src/lib.rs:905-912 | the text `====` traps |
| Base64.PaddingIsNeeded | components/wasi-http-inbound/src/lib.rs:904-912 | the encoding of one or two bytes without its padding, such as `QQ`, is accepted and decodes to three bytes |
| Base64.DecodesExactlyWhen | components/wasi-http-inbound/src/lib.rs:890-915 | it succeeds exactly when, whitespace aside, every character is in the alphabet or padding and no aligned group is all padding |
| Base64.ReencodesExactlyWhenCanonical | components/wasi-http-inbound/src/lib.rs:890-915 | of the accepted texts exactly the canonical ones encode back to themselves |
| Base64.EncodingIsCanonical | components/wasi-http-inbound/src/lib.rs:890-915 | every encoding is canonical |
| ActorRoutes.RoutersAgree | components/wasi-http-inbound/src/lib.rs:630-677 | on plain paths this router and `invokeActor` (components/go-outbound/internal/appcallback/channel.go:183-223) choose the same callback with the same arguments, or both none, exactly unless a timer or reminder name has several segments |
| ActorRoutes.LongNamesDisagree | components/wasi-http-inbound/src/lib.rs:651-662 | on every plain path with such a name this router keeps its first segment and `invokeActor` (components/go-outbound/internal/appcallback/channel.go:197-213) all of it |
| ActorRoutes.LongNamesExist | components/wasi-http-inbound/src/lib.rs:651-662 | any list of plain segments that names a long timer or reminder, such as t/i/method/timer/a/b, is the split of a plain path |
| ActorRoutes.LongNameExample | components/wasi-http-inbound/src/lib.rs:651-662 | for the path t/i/method/timer/a/b the two routers choose differently |
| ActorRoutes.GoRouteBySegments | components/go-outbound/internal/appcallback/channel.go:183-223 | the router that splits into at most four decides as one that splits fully and joins the rest |
| ActorRoutes.GoMethodPaths | components/go-outbound/internal/appcallback/channel.go:183-217 | what the Go router chooses for every type, id and rest behind the method marker, empty or not |
| ActorRoutes.GoOtherPaths | components/go-outbound/internal/appcallback/channel.go:184-196 | of the other paths it takes exactly the deletions of a non-empty type and id |
| ActorRoutes.RustRouteDecodes | components/wasi-http-inbound/src/lib.rs:630-677 | what the Rust router chooses on every path without empty segments, by its decoded segments |
| ActorRoutes.EmptySegmentsAreIgnored | components/wasi-http-inbound/src/lib.rs:631-635 | an empty segment anywhere changes nothing in the Rust router |
| ActorRoutes.DecisionsAgree | components/go-outbound/internal/appcallback/channel.go:190-217 | the two decisions on the same segments are equal exactly without a long name |
| ActorRoutes.SplitNJoinsTheRest | components/go-outbound/internal/appcallback/channel.go:184 | splitting into at most n parts leaves in the last what a full split has from there on, joined |
| PubsubRoutes.AdvertisedPathsReachTheirCallback | components/wasi-http-inbound/src/lib.rs:138-263 | for every subscription list, a POST to any advertised URL reaches the bulk callback exactly when bulk is configured and enabled, else the single one, with the declared rule path normalized to one leading slash and cut at a `?` or `#`, or with none without routes |
| PubsubRoutes.EntriesNameTheirSubscription | components/wasi-http-inbound/src/lib.rs:219-243 | every subscription is advertised under its own pub/sub name, topic, bulk settings, dead-letter topic and metadata, in order |
| PubsubRoutes.TrimTakesTheSlashes | components/wasi-http-inbound/src/lib.rs:265-269 | normalizing takes away all leading slashes and nothing else |
| PubsubRoutes.RulePathComesBackExactlyWhen | components/wasi-http-inbound/src/lib.rs:265-269 | the app sees the very path it declared exactly when delivery leaves it alone: for a path without `?`, `#` and percent-encoding, when it has exactly one leading slash |
| PubsubRoutes.OnlyPubsubPathsReachPubsub | components/wasi-http-inbound/src/lib.rs:97-196 | a pub/sub callback is reached exactly by POSTs to its route or below it |
| PubsubRoutes.DiscoveryRoutes | components/wasi-http-inbound/src/lib.rs:104-136 | exactly which requests reach health, discovery and the check of a binding |
| PubsubRoutes.JobRoutes | components/wasi-http-inbound/src/lib.rs:159-164 | exactly the POSTs below /job/ fire a job, that of the decoded rest |
| PubsubRoutes.ConfigurationRoutes | components/wasi-http-inbound/src/lib.rs:166-174 | a POST below /configuration/ updates the store of its first segment, unless that is empty |
| PubsubRoutes.ActorRoutesThere | components/wasi-http-inbound/src/lib.rs:176-181 | a path below /actors/ goes to the actor callback the actor router chooses, and to none when it declines |
| PubsubRoutes.FallbackRoutes | components/wasi-http-inbound/src/lib.rs:183-196 | a declared binding gets only POSTs to its name, and service invocation only what no actor or binding takes |
| PubsubRoutes.BasesAreDisjoint | components/wasi-http-inbound/src/lib.rs:70-75 | nothing under one route is under the other, despite the shared prefix |
| PubsubRoutes.AdvertisedPathsIdentifyTheirRule | components/wasi-http-inbound/src/lib.rs:265-269 | two advertised paths are the same URL exactly for the same kind of delivery and the same normalized rule path |
| IntervalText.TextDenotesDuration | components/wasi-grpc-outbound/src/jobs.rs:70-79 | the text before the unit is a decimal number that denotes the duration to the nanosecond |
| IntervalText.IntervalIsSeconds | components/wasi-grpc-outbound/src/jobs.rs:70-79 | the interval is that number followed by the unit s |
| IntervalText.NegativePartsAreZero | components/wasi-grpc-outbound/src/jobs.rs:71-72 | negative seconds or nanoseconds count as zero |
| IntervalText.FractionIsShortest | components/wasi-grpc-outbound/src/jobs.rs:76-77 | a dot is followed by digits that do not end in a zero |
| IntervalText.FractionReads | components/wasi-grpc-outbound/src/jobs.rs:76-77 | the digits after the dot are one to nine and denote the nanoseconds |
| IntervalText.IntervalsAreDistinct | components/wasi-grpc-outbound/src/jobs.rs:70-79 | different durations print differently |
| HostLookup.Lookup | components/go-outbound/wasisock/wasisock.go:236-273 | stops at the first poll that is no address and no wait, and answers by it: the error, no addresses, or all that arrived in the preferred order |
| HostLookup.PreferredPermutes | components/go-outbound/wasisock/wasisock.go:262-267 | the order loses and invents nothing |
| HostLookup.Ipv4ComesFirst | components/go-outbound/wasisock/wasisock.go:262-267 | every IPv4 address comes before every IPv6 address |
| HostLookup.FamiliesKeepTheirOrder | components/go-outbound/wasisock/wasisock.go:262-267 | IPv4 in reverse order of arrival, IPv6 in order of arrival |
| HostLookup.ToIpAddress | components/go-outbound/wasisock/wasisock.go:101-116 | the record's bytes in network order are the given bytes |
| HostLookup.FromIpAddress | components/go-outbound/wasisock/wasisock.go:118-130 | the bytes of the record in network order |
| HostLookup.OctetsIdentifyTheAddress | components/go-outbound/wasisock/wasisock.go:101-130 | different addresses have different bytes, so the conversions are inverse both ways |
| CounterCas.NoUpdateIsLost | e2e/apps/microservice/src/lib.rs:571-605 | with any number of processes the counter is its first value plus the number of successful calls and of calls whose write was applied but reported as failed (modulo 2^64); each of them saved exactly once, and no other call saved |
| CounterCas.AttemptsAreBounded | e2e/apps/microservice/src/lib.rs:572-603 | no call makes more than sixteen attempts |
| CounterCas.AttemptsCountReads | e2e/apps/microservice/src/lib.rs:572-604 | in every run a call reads and writes in turns, reading again before it writes again; it does neither more than sixteen times, and both sixteen times when it gives up on conflicts |
| CounterCas.UndisturbedCallSucceeds | e2e/apps/microservice/src/lib.rs:571-605 | from every reachable state a new call that is not disturbed succeeds and leaves the counter one higher |
| CounterCas.GivingUpMeansOvertaken | e2e/apps/microservice/src/lib.rs:600-604 | a call that gave up on conflicts, its reads having come with an etag, was overtaken by at least sixteen saves of others |
| CounterCas.NextTextParses | e2e/apps/microservice/src/lib.rs:575-588 | the text written back parses as the count plus one, wrapping at 2^64 |
| CounterCas.CounterTextReads | e2e/apps/microservice/src/lib.rs:575-577 | digits below 2^64, with or without a plus sign, count as their value |
| CounterCas.OtherTextIsZero | e2e/apps/microservice/src/lib.rs:575-577 | only such texts count as anything but zero |
| CounterCas.StateStore.Attempt | e2e/apps/microservice/src/lib.rs:572-602 | one pass ends exactly as its reads, its write and the saves of others in between determine, saves exactly when its write matches what is stored and is applied, keeps the saves of others, and conflicts only when another save came between or the read had no etag |
| CounterCas.StateStore.Increment | e2e/apps/microservice/src/lib.rs:571-605 | the loop, with others saving in between, ends with its first pass that is no conflict: exactly one save of its own on success, at most one when a write failed and none otherwise; none of the others lost; an error only when a read or write failed; reads with etags are exhausted by conflicts only after sixteen saves of others |

## Left out

- InflightIsPartitioned: ids are taken modulo 2^64, and the delivery results hold for runs with fewer than 2^64 registrations.
- PrintedJsonReads: the float formatter that prints non-integral and large numbers is a parameter, of which it is assumed that it prints one number and, for the round trip, one that rounds back; negative zero is not told apart from zero.
- RoutersAgree: paths with an empty or percent-encoded segment are excluded; there one router filters and decodes and the other does not.
- TextDenotesDuration: durations are non-negative with nanos below 10^9, as `google.protobuf.Duration` requires of intervals; other values are clamped part by part.
- OnlyDeadlockIsAnUnclosedWait: a handler that never calls the stream again is not a stuck call and is not excluded.
- Conn.Write: a failing host write is taken to have accepted nothing.
- AdvertisedPathsReachTheirCallback: the path of a request is the advertised text up to a `?` or `#`; that the sidecar's HTTP client sends other characters unchanged is assumed.
- ResponseBody.Read: a body is what the host's stream delivers; how it is split over the host's reads is arbitrary.
- Finish: `consume` and `stream` failing on a response, which no sequence of calls can bring about, and building the request (`put`, `split_base`, `header_pairs`).
- Text parsing by `serde_json` and `encoding/json`, protobuf encoding, the unwrapping of `BytesValue` and `StringValue`, and lossy UTF-8: foreign code or one branch each.
- The order in which Rust and Go walk a map: entries of a struct are a sequence in the printer and a map in the converters.
- `Accept`, `dial`, `listen`, ports, backoff durations and wall-clock time: deadlines are oracles.
- Two goroutines reading, or writing, the same connection at once.
- `RecvMsg`, `SendMsg` and the header and trailer methods of `Bidi`.
- Request options sent with the first crypto message, and the mapping of sidecar failures to typed errors.
- Parsing of timer and reminder bodies, bulk deliveries (`bulk_to_single`) and CloudEvents.
- Job failure policies other than the interval text.
- The runtime's start, generated code, the end-to-end harness and the rest of the microservice.

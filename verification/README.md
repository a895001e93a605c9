# Verification of the Codex load balancer

A Dafny model of the stateful parts of the proxy, and proofs of what they promise. The model follows
the code, branch by branch; what is proved is stated for all inputs, all ways of cutting a stream,
all interleavings, or all runs.

`dafny verify dfyconfig.toml` checks everything.

## What is modelled

**WebSocket bytes.** `WebSocketFrames` has the frame header of RFC 6455 (sections 5.2 and 5.3), the
pull decoder and the encoder, and proves them inverse. `WebSocketObserver` has the machine that watches
the upstream-to-client direction byte by byte, and proves that it reports what parsing the whole stream
into frames and messages prescribes. `ObserverChunks` feeds it in arbitrary chunks, with the pipe to the
JSON decoder through which every text goes, and says exactly when the cut does not matter.
`WebSocketUsageCapture` is the capture object with its loops.
`FrameMeaning` says what frames mean from the side of the peer that cuts its messages into them, and that
the observer sees just these. `WebSocketRewriter` has the client-to-upstream copy loop, also with writes
that fail, and `RewriterMeaning` proves that it preserves the meaning of the stream (section 5.4) except for the text
messages it is there to change, as far as it gets.
`SseCapture` is the line-based capture for server-sent events. `ToolInjection` is the change made to
a request.

**Usage accounting.** `UsageSink` is the bounded queue with its hourly overflow buckets and the
batch-then-single insert, `UsageLedger` the event table with the dashboard queries.
`UsageConservation` considers every interleaving of record, stop, take, insert and exit;
`UsageTotals` derives what the numbers on the dashboard are worth.

**Token pool.** `TokenPool` gives every lock-protected store operation as a function on a value and
ranks the candidates; `TokenStore` is the store object, each method proved against that function.
`Turns` gives what one request does to the pool as a function of what it met (choice, refreshes, replies,
times), and proves what every turn and every request keeps; `Failover` has the two handlers, each step
proved against that function. `RefreshProtocol` is the double-checked refresh of one token by any number
of goroutines, `RefreshAnswers` what its callers are told, and `TokenDirectory` the store as a cache of a
directory.

## How to read the model

- JSON inspection, white-space trimming, text folding and tool injection inside the copy loop are
  function parameters, so every result holds for whatever they compute.
- The random mask, the clock, the order in which a map is iterated, upstream replies, refresh results,
  database answers, failing writes and file contents are parameters or arbitrary choices.
- Times are natural numbers (seconds for the accounting, any unit elsewhere) and do not decrease.
  Percentages are reals. Byte counts and token counts are unbounded.
- The 10 MB limit is a parameter named `cap`.
- Steps of the store are atomic, as its mutexes make them. In `Failover` an `interfering` request lets
  the rest of the server do anything to the store between any two of its steps; a request that runs
  alone promises more.
- Objects that the code updates in place are classes; the methods are proved against functions on
  values, and the lemmas are about those functions. What these functions compute is tied down once more
  without them: on octets and bits, the fields of replies and tokens, seconds, and literal texts.

Where the documentation and the code differ, the model follows the code: the ranking described in
README.md:113-116 is not the one in store.go:406-419, which first compares the smaller of a token's two remaining
limits.

## Findings

These are results about the code, each with its exact condition in the model.

- A text message whose decoder has its value, or its syntax error, before the last byte can stop the
  tunnel: the decoder goroutine returns without closing its end of the pipe (usage_capture.go:559-562), and
  the next write to the pipe never returns. An empty object and a newline is such a text when the stream is
  cut between the two (`ObserverChunks.ObjectCutBeforeNewline`); in one write it is reported
  (`ObserverChunks.ObjectInOneWrite`). Every cut of a stream is observed alike if and only if no text that
  the stream begins goes on after its decoder has returned (`ObserverChunks.AnyChunking`).
- Removing a token forgets its refresh lock (store.go:217-219), so a caller that still holds the lock and
  one that arrives after a reload can be past it at the same time (`RefreshProtocol.RemovalLosesTheLock`).
  Forgetting is safe if and only if no caller waits for the lock or is past it
  (`RefreshProtocol.ForgettingIsSafeExactly`); removals, reloads and failed writes do no harm by themselves.
- A refresh token that the server has replaced is sent again if its replacement is lost: because the file
  cannot be written (`RefreshProtocol.FailedWriteReplays`), or because the reply is lost, undecodable or
  without an access token (`RefreshProtocol.LostReplyReplays`). Without removal and reload these are exactly
  the steps that lead to a replay (`RefreshProtocol.ReplayExactly`). A failed write also lets two successful
  exchanges come closer than the debounce if and only if it happens within that distance of the exchange
  (`RefreshProtocol.CrowdingExactly`).
- A file that does not parse is remembered by its time even after it is deleted. A good file that appears
  under the same name is loaded if and only if its time is later (`TokenDirectory.BadFileIsRemembered`).
- If somebody writes the auth file between the two halves of a refresh and a scan reads it there, the
  refreshed credentials hide that file until its time grows (`TokenDirectory.LateRefreshHidesFile`).
- Injecting tools again changes nothing if and only if every applicable type is declared by a tool of the
  request or by a specification that was added; a type declared by neither is added on every pass
  (`ToolInjection.SettlesExactly`).
- If the accepted reply must be streamed and the response writer is no `http.Flusher`, or if it is a
  protocol switch and the connection cannot be hijacked, the handler writes nothing
  (`Failover.Request.HandleProxy`, `Failover.Request.HandleWebSocket`). The writers of net/http can flush,
  so the first needs a wrapped writer; what net/http itself sends then is not part of this model.

## Model

| member | source | states |
|---|---|---|
| WebSocketFrames.MaskTwice | usage_capture.go:625-629 | Masking twice with one mask and offset gives the payload back. |
| WebSocketFrames.MaskSplit | usage_capture.go:423-428 | Unmasking piece by piece with a running offset unmasks the whole. |
| WebSocketFrames.ApplyMaskFromOffset | usage_capture.go:625-629 | The loop flips bit k of octet i, in place, exactly if bit k of the key octet (offset + i) modulo 4 is set. |
| WebSocketFrames.BigEndianInverse | websocket_transform.go:186-193 | A length written in big-endian bytes of sufficient width is read back. |
| WebSocketFrames.HeaderOfPrefix | websocket_transform.go:157-198 | Header length and header fields depend on the header bytes alone, not on what follows. |
| WebSocketFrames.ReadHeader | websocket_transform.go:125-136 | Reads exactly the header, or reports which part of it is cut off. |
| WebSocketFrames.ReadBody | websocket_transform.go:137-154 | Refuses a payload above the cap before reading it, reports a cut payload, else returns the frame with its payload unmasked bit by bit with the key of the header, and leaves the rest. |
| WebSocketFrames.ReadFrame | websocket_transform.go:124-155 | The reader gets the frame whose octets stand at the front of the stream and keeps what follows; each way of failing is reported as such. |
| WebSocketFrames.BuildHeader | websocket_transform.go:213-252 | Writes first byte, length code with mask bit, and the extended length. |
| WebSocketFrames.BuildFrame | websocket_transform.go:212-274 | The octets of the frame: header, the key given, and the payload flipped by it; an unmasked frame carries the payload as it is. |
| WebSocketFrames.DecodedIsOnWire | websocket_transform.go:124-198 | What is decoded stands on the wire octet by octet: FIN, RSV and opcode, mask bit and length code, extended length in network order, key, and each payload bit flipped exactly if the bit of key octet i modulo 4 is set; what is left is what follows. |
| WebSocketFrames.WireIsDecoded | websocket_transform.go:124-198 | The converse: the octets of a frame of at most the cap are decoded as that frame and no other, whatever follows. |
| WebSocketFrames.DecodeFailsExactly | websocket_transform.go:124-184 | Which of the four errors a stream gives, by its first octets and its length; otherwise it is decoded. |
| WebSocketFrames.EncodedIsOnWire | websocket_transform.go:212-274 | The encoder writes the octets of the frame with the key it was given and the shortest length code. |
| WebSocketFrames.RoundTrip | websocket_transform.go:124-274 | Encoding, then decoding, gives the frame back for every opcode, FIN, RSV, mask and payload up to the cap, and leaves all bytes after it. |
| WebSocketFrames.CodeIsShortest | websocket_transform.go:226-252 | No header, whoever wrote it, spends fewer length bytes on its payload length than the encoder would. |
| WebSocketFrames.EncoderIsShortest | websocket_transform.go:226-252 | Any decoded frame can be encoded, in no more bytes than its sender used. |
| WebSocketObserver.LimitWriteSplit | usage_capture.go:602-612 | The bounded text buffer ends up the same however the text is cut. |
| WebSocketObserver.RunConcat | usage_capture.go:333-363 | Running the machine over a concatenation is running it over the parts in turn. |
| WebSocketObserver.RunPayload | usage_capture.go:351-360 | A chunk of payload taken at once has the effect of its bytes one by one. |
| WebSocketObserver.RunHeader | usage_capture.go:372-405 | Header bytes, however they arrive, start the frame they announce. |
| WebSocketObserver.RunFrame | usage_capture.go:333-471 | Over a complete frame, given as header, raw payload and the rest, the machine does what handling the decoded frame prescribes. |
| WebSocketObserver.RunCutFrame | usage_capture.go:333-363 | An incomplete frame at the end of the stream reports nothing. |
| WebSocketObserver.AddFrameStep | usage_capture.go:440-510 | Handling a frame keeps the machine in step with the message reassembly of section 5.4 of RFC 6455. |
| WebSocketObserver.RunReportsStream | usage_capture.go:333-543 | The byte machine, which is the object as long as its writes return, makes the calls, in order, and ends with the usage and flags that parsing the whole stream into frames and text messages prescribes: one inspection per message, limit reported once. |
| ObserverChunks.RefusedIsEarly | usage_capture.go:556-572 | A write to the decoder pipe fails to return only if the decoder returns before the last byte of the piece. |
| ObserverChunks.LatePayload | usage_capture.go:419-438 | Within one frame, byte by byte, a write does not return exactly when the text with this payload goes on after its decoder has returned. |
| ObserverChunks.ObservedReportsStream | usage_capture.go:333-543 | When every write returns, the report is that of the whole stream. |
| ObserverChunks.HarmlessIsObserved | usage_capture.go:333-363 | If no text of the stream goes on after its decoder has returned, every write returns, however the stream is cut. |
| ObserverChunks.AnyChunking | usage_capture.go:333-363 | Every way of cutting a stream into writes gives the report of the whole stream if and only if no text that the stream begins, complete, dropped or still open, goes on after its decoder has returned. |
| ObserverChunks.ObjectInOneWrite | usage_capture.go:556-583 | An empty object and a newline in one write is reported as one message. |
| ObserverChunks.ObjectCutBeforeNewline | usage_capture.go:556-572 | Cut before the newline, the second write never returns. |
| WebSocketObserver.CapOnlyRefusesLarge | websocket_transform.go:137-139 | A capped pull reader gets the frames of the uncapped one unless some frame is larger than the cap. |
| ObserverChunks.PushAgreesWithPull | usage_capture.go:333-543 | Whenever the writes return, observer and pull reader agree on every stream the pull reader accepts. |
| WebSocketObserver.EncodedFramesReadBack | websocket_transform.go:124-274 | Frames encoded one after the other, with any masks, are read back as that list. |
| ObserverChunks.EncodedFramesAreObserved | usage_capture.go:333-543 | Any encoding of any list of frames, in any chunks that return, makes the observer report the messages of that list; all chunks return if no text of the list goes on after its decoder has returned. |
| WebSocketUsageCapture.UsageCapture.Write | usage_capture.go:333-363 | The call returns if and only if the decoder takes every piece of text in the chunk; then the object is in the state of the whole stream so far, and its calls, usage and flags are those of parsing it at once. |
| WebSocketUsageCapture.UsageCapture.TakeHeader | usage_capture.go:339-349 | The header branch consumes at least one byte and has the effect of the bytes it consumed, finishing an empty frame at once. |
| WebSocketUsageCapture.UsageCapture.TakePayload | usage_capture.go:351-360 | The payload branch takes what the frame has left and no more, finishes the frame at its last byte, and does not return if the decoder does not take the piece. |
| WebSocketUsageCapture.UsageCapture.ConsumeHeader | usage_capture.go:372-387 | Collects header bytes across writes until a frame starts or the input is used up. |
| WebSocketUsageCapture.UsageCapture.HeaderOneByte | usage_capture.go:375-384 | One header byte; the header array never overflows. |
| WebSocketUsageCapture.UsageCapture.BeginFrame | usage_capture.go:389-417 | Starts the frame its collected header announces; a new data frame drops an open message. |
| WebSocketUsageCapture.UsageCapture.ConsumePayload | usage_capture.go:419-438 | Unmasks from the running offset and passes text and its continuations to the open text message only; other payload never waits. |
| WebSocketUsageCapture.UsageCapture.WriteTextPayload | usage_capture.go:473-484 | Returns if and only if there is no open text or its decoder takes the piece; then the piece is in the text and in the bounded limit buffer. |
| WebSocketUsageCapture.UsageCapture.FinishFrame | usage_capture.go:440-471 | Ends the frame; only a final text frame or a final continuation of a text message is inspected. |
| WebSocketUsageCapture.UsageCapture.FinishTextMessage | usage_capture.go:486-510 | Inspects the message for a limit, then for usage, reports what it finds, and closes it. |
| WebSocketUsageCapture.UsageCapture.MarkLimitFound | usage_capture.go:516-524 | The limit call is made at most once. |
| WebSocketRewriter.CopyClientToUpstream | websocket_transform.go:26-100 | With injection on, exactly the frames of the reference copy are written, each masked, and what a failing write leaves of its frame, with the byte count and error of the reference; with injection off the bytes pass untouched. |
| WebSocketRewriter.CopyFrame | websocket_transform.go:41-98 | One frame is passed on, transformed, buffered, or refused as its opcode, RSV bits, FIN and the open message demand; a failing write is reported with the bytes it did write. |
| WebSocketRewriter.WriteToolInjectedText | websocket_transform.go:112-122 | One final text frame with the transformed payload, or the injection error and nothing written, or the error of the write. |
| WebSocketRewriter.WriteFrame | websocket_transform.go:200-210 | The masked encoding is written, whole or up to the failure, and the bytes are counted. |
| WebSocketRewriter.AppendTextFragment | websocket_transform.go:102-110 | Grows the buffered text within the cap, or refuses and leaves it as it was. |
| RewriterMeaning.HandleSucceeds | websocket_transform.go:41-98 | On a sequenced stream a frame is refused exactly when its text is too large or cannot be transformed, and only Close ends the loop. |
| RewriterMeaning.HandleMeans | websocket_transform.go:41-98 | What is written for a frame means, to a receiver, the transformed event that the frame completes. |
| RewriterMeaning.HandledIsPrefix | websocket_transform.go:35-99 | The frames the loop finished with are the first frames of the stream. |
| RewriterMeaning.ReadFailureHandlesAll | websocket_transform.go:36-39 | If reading failed, all frames that could be read were finished with. |
| RewriterMeaning.SuccessReachesClose | websocket_transform.go:35-99 | The loop ends without error only at a Close frame, having finished with every frame up to it and read nothing after it. |
| RewriterMeaning.CopyMeans | websocket_transform.go:26-122 | However the loop ends, the frames written whole mean the transformed events of the frames it finished with. |
| RewriterMeaning.SentReadsBack | websocket_transform.go:200-274 | Decoding the writes gives the written frames, in order, then whatever follows them. |
| RewriterMeaning.CutFrameUnread | websocket_transform.go:200-210 | A receiver reads no frame from a write that failed before its last byte. |
| RewriterMeaning.SucceedsExactly | websocket_transform.go:26-122 | On every sequenced stream that reaches Close the loop succeeds if and only if every plain text can be transformed within the cap and the connection takes every write that is due: one for each frame but the fragments of a plain text that goes on. |
| RewriterMeaning.RewriterPreservesMeaning | websocket_transform.go:26-122 | For every stream, also one that fails, ends early or cannot be sent: if the frames the loop finished with are sequenced, decoding the wire gives frames that mean their events in the same order, plain text messages transformed, binary, control and RSV text unchanged; nothing after Close is read. |
| RewriterMeaning.SequencedClientsAreUnderstood | websocket_transform.go:26-122 | The same from what the client sends alone: if the frames of the stream are sequenced, the meaning of those finished with is preserved, however the loop ends. |
| FrameMeaning.FramesMeanWhatWasSent | websocket_transform.go:157-198 | However a peer cuts its messages into frames, the frames are sequenced and mean the messages and control frames sent, in order. |
| FrameMeaning.TextMessagesAreEvents | usage_capture.go:440-510 | On sequenced frames the text messages the observer inspects are the text messages of section 5.4. |
| FrameMeaning.ObserverSeesWhatWasSent | usage_capture.go:333-543 | What an observer must have reported of a stream is told by the text messages its sender cut into it. |
| FrameMeaning.EveryFrame | websocket_transform.go:41-98 | Every frame in any place, by its opcode: a text completed within the cap is replaced by its transform, a fragment is held, another data frame inside a held text is an error, opcode 8 ends the loop, all else passes unchanged. |
| SseCapture.LinesAreUnique | usage_capture.go:234-245 | Complete lines and an unterminated rest are the only way to split the bytes so. |
| SseCapture.LinesJoin | usage_capture.go:234-245 | Lines and rest put together are the bytes. |
| SseCapture.LinesConcat | usage_capture.go:230-245 | New bytes extend the lines starting from the unterminated rest. |
| SseCapture.FoundStep | usage_capture.go:247-274 | Handling one line keeps the findings right for all lines so far. |
| SseCapture.LineKinds | usage_capture.go:247-262 | Which lines are blank, name an event, or carry data, by the text between their outer white space; an empty payload or [DONE] carries none. |
| SseCapture.NamesAreText | usage_capture.go:19-24 | The prefixes, event names and end mark are those texts. |
| SseCapture.SseUsageCapture.Write | usage_capture.go:229-278 | After every write, event, usage and limit flag are those of the complete lines of everything written, the limit call was made at most once, and the buffer is exactly the unterminated rest. |
| SseCapture.SseUsageCapture.HandleLine | usage_capture.go:247-274 | One line sets or clears the event, or is inspected under the event in force. |
| SseCapture.FindingsAreUnique | usage_capture.go:229-304 | The findings are a function of the bytes: no two ways of cutting the stream differ. |
| ToolInjection.FilterResponseToolInjections | tool_injection.go:115-125 | Keeps, in order, the additions that neither the plan nor the model excludes. |
| ToolInjection.AppendMissingTools | tool_injection.go:175-193 | Appends the specifications of the types not yet seen, each type once, and says whether there were any. |
| ToolInjection.InjectTools | tool_injection.go:41-93 | The method computes the reference injection for every body, also empty or undecodable ones, and for specifications that cannot be encoded. |
| ToolInjection.MissingIsExact | tool_injection.go:184-191 | What is appended has distinct new types, and afterwards no addition is missing. |
| ToolInjection.UnchangedExactly | tool_injection.go:41-113 | A body is left alone if and only if the request takes no tools (by type, by fields, or because its tool list is neither absent, null nor a list) or every applicable type is in its list. |
| ToolInjection.ChangesExactly | tool_injection.go:41-166 | A request changes if and only if it asks for a response (type response.create, or no type and tools, model or input), its tools are absent, null or a list, and some addition suits plan and model and has a type no tool declares. |
| ToolInjection.ImageToolExactly | tool_injection.go:24-31 | For the built-in addition: the plan does not fold to free, the model does not end in spark, and no tool is an image generation. |
| ToolInjection.InjectionAddsWhatIsMissing | tool_injection.go:41-193 | All other fields are kept, the existing tools come first and unchanged, the new ones are applicable, of new and distinct types, and every applicable type is present. |
| ToolInjection.InjectionSettles | tool_injection.go:41-93 | Injecting into an injected request changes nothing. |
| ToolInjection.SettlesExactly | tool_injection.go:41-93 | For every list of additions, a second pass changes nothing if and only if every applicable type is declared by a tool the request had or by an added specification. |
| ToolInjection.ImageToolOnce | tool_injection.go:24-39 | With the built-in addition a changed request has exactly one image generation tool, the last. |
| UsageLedger.UsageDB.InsertUsage | usage_db.go:202-207 | One row with the columns of the record and its time, or the present one if it has none; no row on failure. |
| UsageLedger.UsageDB.InsertUsageBatch | usage_db.go:209-236 | All rows, each with the columns of its record, if every statement and the commit succeed, otherwise none. |
| UsageLedger.UsageDB.RekeyTokenUsage | usage_db.go:238-250 | Replaces the account of the rows of one token; empty arguments change nothing. |
| UsageLedger.UsageDB.DailyUsageBuckets | usage_db.go:356-413 | One bucket per day, oldest first and today last, each with the tokens of the rows in the 86400 seconds of that UTC day, zero where no row falls. |
| UsageLedger.UsageDB.GlobalPeriodTotals | usage_db.go:302-349 | The one pass gives the sums of the rows since midnight UTC, since 7, 30 and 90 times 86400 seconds ago, and of all rows; no window holds more than a longer one. |
| UsageLedger.RekeyTouchesOnlyTheToken | usage_db.go:238-292 | Rekeying changes the account of rows of that token only; global totals and the totals of every token stay. |
| UsageLedger.RekeyGains | usage_db.go:238-250 | The account gains exactly the tokens the rows of that token had under other accounts. |
| UsageSink.UsageSink.Record | usage_sink.go:88-108 | Stopped is reported exactly if the sink is stopped; full exactly if it runs, the queue and the buckets are at capacity and no bucket has the account, token, path, status, stream flag and UTC hour of the record. Otherwise the record is queued if the queue has room, else its tokens are added to the bucket of that kind and no other bucket changes. |
| UsageSink.UsageSink.QueueOverflow | usage_sink.go:133-147 | Merges into the bucket of the kind, whether or not the buckets are at capacity, opens one if there is room, and refuses otherwise. |
| UsageSink.RefusedExactly | usage_sink.go:88-147 | A record is lost if and only if the sink is stopped, or the queue is full, the buckets are at capacity and none is that of the record. |
| UsageSink.UsageSink.TakeBatch | usage_sink.go:112-131 | Hands over the queue and each bucket once, in any order, and empties both; fails only when nothing is left after Stop. |
| UsageSink.UsageSink.Stop | usage_sink.go:69-79 | After Stop the sink is stopped. |
| UsageSink.InsertUsageBatch | usage_sink.go:180-197 | One transaction, then single inserts if it fails; the rows that result are given for every pattern of failures. |
| UsageSink.StoredAtMostOnce | usage_sink.go:193-196 | Single inserts store each record at most once: the rows come, in order, from strictly ascending positions, and these are exactly the ones at which the statement succeeds. |
| UsageSink.BatchStoredOnce | usage_sink.go:180-197 | If single inserts succeed, each record becomes exactly one row, however the transaction went. |
| UsageConservation.RecordKeepsCoalescing | usage_sink.go:133-172 | A merge keeps every bucket equal to the sum of the records behind it and mapped to its own key. |
| UsageTotals.EveryRun | usage_sink.go:52-147 | In every interleaving, for records with and without a time: both stores stay within capacity, every bucket maps back to its key, every batch holds the tokens of the records behind it, accepted tokens are those waiting plus those in the batches, at most one batch is taken after Stop, and after the exit of the worker nothing waits and the batches hold all accepted tokens. |
| UsageConservation.StoppedWorkerDrains | usage_sink.go:112-131 | After Stop every worker step brings it closer to its exit and no outside call sets it back. |
| UsageConservation.StoppedWorkerIsNeverStuck | usage_sink.go:52-67 | A stopped worker that has not exited always has a step to take. |
| UsageTotals.BucketsHoldTheSpills | usage_sink.go:133-172 | Summing bucket by bucket or record by record is the same. |
| UsageTotals.BatchSum | usage_sink.go:123-127 | The tokens of a batch are those of its queued records and of the records behind its buckets. |
| UsageTotals.TokensAreConserved | usage_sink.go:88-172 | In every run, for each key (account, token, path, status, stream flag, hour) and each token count: accepted equals queued plus bucket plus handed over. |
| UsageTotals.InsertedSum | usage_sink.go:180-197 | Whatever happens to the transaction, the rows an insert leaves hold the tokens of its batch if single inserts succeed. |
| UsageTotals.DaysAreExact | usage_db.go:356-413 | At every moment of every run, whichever transactions failed, the totals of the table for every UTC day are those of storing separately each record behind the batches inserted so far; after a drained run these are the accepted records. |
| UsageTotals.WindowsAreClose | usage_db.go:302-349 | At every moment of every run a rolling total of the table is never higher than that of the records behind the batches inserted so far, and lower by at most the tokens recorded in the first hour after the cutoff; after a drained run these are the accepted records. |
| TokenPool.RemainingPoints | store.go:20-29 | The full 100 points if the window or its limit is unknown; else what the limit leaves, never negative, and nothing exactly when it is used up. |
| TokenPool.AvailabilityLasts | store.go:48-62 | Time alone never makes an available token unavailable. |
| TokenPool.BetterIsTotal | store.go:406-419 | Of two candidates with different IDs exactly one is better; none is better than itself. |
| TokenPool.BetterIsTransitive | store.go:406-419 | The ranking is transitive. |
| TokenPool.SelectBestCandidate | store.go:396-404 | The loop returns the candidate with the most left: the largest smaller share of its two windows, then the largest five-hour share, then the largest weekly share, then the first ID. |
| TokenPool.BetterHasMostLeft | store.go:406-419 | A better candidate has the most left, in the order just said. |
| TokenPool.BeforeMeansFirst | store.go:418 | An ID comes first if it ends, or has the smaller byte, where the two first differ. |
| TokenPool.AvailableExactly | store.go:48-62 | A token is available if and only if it has no invalid mark, no cooldown that lasts, and no known window with a limit that is used up. |
| TokenPool.InvalidTokensWait | store.go:134-141 | In every interleaving a token marked invalid is not selected until a reload or new credentials. |
| TokenPool.RestoredTokensServe | store.go:99-132 | After a reload or new credentials a token is usable at once, unless it was tried or a window is used up. |
| TokenPool.BestIsUnique | store.go:361-404 | The best candidate is the same for every order of the candidates. |
| TokenPool.CooledTokensWait | store.go:134-150 | In every interleaving of store operations a token cooled down until some time is not selected before it, unless a reload, new credentials or a shorter cooldown lifts it. |
| TokenPool.StaysFiled | store.go:83-323 | Every operation keeps each token under its own ID. |
| TokenStore.Store.UpsertToken | store.go:99-132 | Adds the token or overwrites credentials, path and non-empty metadata, clears invalid mark and cooldown, and notes the time. |
| TokenStore.Store.MarkInvalid | store.go:134-141 | Marks a present token; an unknown ID changes nothing. |
| TokenStore.Store.MarkCooldown | store.go:143-150 | Sets the cooldown of a present token and nothing else. |
| TokenStore.Store.UpdateUsage | store.go:152-161 | Sets both windows and the sync time of a present token and nothing else. |
| TokenStore.Store.UpdateCredentials | store.go:190-201 | Sets both tokens and the refresh time, clears invalid mark and cooldown. |
| TokenStore.Store.RemoveToken | store.go:203-223 | The token, its file time and its sessions go; the removed token is returned. |
| TokenStore.Store.PruneMissingTokens | store.go:225-264 | Exactly the tokens whose file lay in the directory and is gone are removed, with their times and sessions, in any map order. |
| TokenStore.Store.ClearSessionsForToken | store.go:315-323 | Exactly the sessions bound to the token go. |
| TokenStore.Store.SelectToken | store.go:342-359 | The token of the session exactly if it is untried and in service; else the untried token in service with the most left; nothing if and only if there is none. The binding is dropped exactly if its token is untried and not in service, and nothing else changes. |
| TokenStore.Store.AvailableCandidates | store.go:361-379 | Every usable token once, with its remaining points, in any order. |
| TokenStore.Store.HasAvailableToken | store.go:381-394 | True if and only if some untried token is available. |
| Failover.Request.SelectProxyToken | proxy_token.go:9-38 | An untried token. Alone: the usable token of the session, else the best one, with the credentials it has in the store after its refresh; nothing if and only if none is usable at that moment; and the store is what dropping a dead binding and renewing the token leave. |
| Failover.Request.RefreshTokenAfterUnauthorized | proxy_token.go:40-59 | True if and only if the refresh gave new credentials, which the caller then holds; alone, the store is exactly what the result leaves: new credentials, an invalid mark, a cooldown, or nothing. |
| Failover.Request.RetryWithAlternateToken | proxy_token.go:61-66 | Alone: the token gets a cooldown of 60 from that moment and loses its sessions, nothing else changes, and there is another attempt if and only if this was the first and another token is usable. |
| Failover.Request.RetryAfterUsageLimit | proxy_token.go:68-72 | The same for a usage limit. |
| Failover.Request.RetryAfterDeactivatedWorkspace | proxy_token.go:74-78 | Alone: the token is removed with its file time and its sessions; another attempt under the same condition. |
| Failover.Request.MarkTokenUsageLimit | proxy_token.go:80-84 | Alone: the token gets a cooldown of 60 from that moment, its sessions go, and nothing else changes. |
| Failover.Request.BindProxySession | proxy_token.go:86-98 | Alone: the session of the request, if it has one and was not sticky, is bound to the token, and nothing else changes. |
| Turns.MergeUsage | proxy_http.go:199-210 | An unknown window changes nothing; a known one replaces the percentages and keeps the reset times it does not give. |
| Failover.Request.ApplyUsageFromHeaders | proxy_http.go:175-197 | Alone, exactly the windows the reply names replace those of a present token; an unknown token or a reply without windows changes nothing. |
| Failover.Request.CallUpstream | proxy_http.go:75-92 | One call with the credentials selected, and a second one if and only if a 401 led to a refresh; alone, these are the credentials in the store and the new ones, and the store is what the refresh leaves. |
| Failover.Request.TryAnother | proxy_http.go:94-134 | A 401 cools the token, a deactivated workspace removes it, a limit is accounted and then cools it; the reply is kept for the next attempt or passed on. |
| Failover.Request.Attempt | proxy_http.go:55-134 | One attempt ends with a response, with a rejected reply kept for the next attempt, or with an accepted reply to deliver. Alone, its token is the one that had to be chosen, and the store is exactly what its turn leaves, with the usage of an accepted reply applied before it is delivered; which replies are rejected is `Turns.Client.HTTPReplies`. |
| Failover.Request.DeliverHTTP | proxy_http.go:136-156 | Binds the session, then streams or writes; a limit found while streaming settles the token after all. Alone, nothing else changes. |
| Failover.Request.DeliverWebSocket | proxy_ws.go:104-146 | Passes a refused upgrade on and leaves the store, sessions included, as it is; a tunnel binds the session, and a limit found in it settles the token. |
| Failover.Request.HandleProxy | proxy_http.go:52-158 | Exactly one response (none only where an accepted stream cannot be flushed); at most two tokens and four calls; no available tokens only if none was called. Alone, on the fields of the replies: a token whose last reply is a 401, a non-streamed limit or a stream that shows a limit is cooling for 60 or gone and has no session; it is gone exactly for a deactivated workspace; a second token is called if and only if the last reply to the first is a 401, a deactivated workspace or a non-streamed limit and another token is in service; any other reply ends the request; the session is bound to the last token exactly if its reply is none of these. |
| Failover.Request.HandleWebSocket | proxy_ws.go:20-148 | The same promises for the WebSocket handler, where every limit reply asks for another token and only a reply with status 101 is a tunnel and binds the session. |
| Failover.Request.ServedFailsOver | proxy_http.go:52-158 | Every request that runs alone, over both handlers, fails over exactly on the replies that ask for it. |
| Turns.Client.HTTPReplies | proxy_http.go:94-136 | Over HTTP the replies that send the request on are a 401, a deactivated workspace, and a limit that is not streamed; a deliverable stream that shows a limit counts against its token; every other reply binds the session. |
| Turns.Client.WebSocketReplies | proxy_ws.go:60-110 | For an upgrade they are a 401, a deactivated workspace, and any limit; only a reply with status 101 binds the session. |
| Turns.NoneEarlier | store.go:48-62 | If no token is usable at some time, none was before. |
| Turns.Client.FirstChoice | store.go:342-359 | The first token of a request is that of its session if that is usable when the request arrives; if none is chosen, none was usable then. |
| Turns.Client.ReachedKeeps | proxy_http.go:56-92 | Choosing a token, renewing it and calling change no quota window and no session but a dead one. |
| Turns.Client.RejectionMarks | proxy_http.go:94-134 | A rejected token has no session and is cooling down, or is removed exactly for a deactivated workspace; a limit reply is accounted. |
| Turns.Client.DeliverySettlesOrBinds | proxy_http.go:136-156 | Delivery leaves the session with the token, or settles the token if a limit shows in the stream; a refused upgrade binds nothing; no quota window and no other token changes. |
| Turns.Client.TurnIsClean | proxy_http.go:55-157 | Whatever a turn meets: its token is settled if its reply failed, removed exactly if its workspace is deactivated, and has the quota windows of the reply merged otherwise; another session is lost only with a failed token; the own one is bound to a token that answered and never otherwise; no other token changes. |
| Turns.Client.TwoAreClean | proxy_http.go:55-157 | Two clean turns of different tokens are clean together: the first token stays settled, removed or accounted through the second. |
| Turns.Client.RequestIsClean | proxy_http.go:52-158 | Every request that runs alone, for every choice, refresh result and reply: each used token is settled, removed or accounted by its last reply, other tokens and the sessions of tokens that did not fail are untouched, the session is bound to the token whose accepted reply binds it and is never bound anew otherwise, and the first token called is the usable one of the session. |
| RefreshProtocol.Normalize | refresh.go:34-42 | Interval and debounce are positive; positive values are kept. |
| RefreshProtocol.StepKeepsLock | refresh.go:102-104 | Every step keeps the engaged callers on one lock and its owner alone past it, if the lock is not forgotten under them. |
| RefreshProtocol.ForgettingIsSafeExactly | store.go:203-223 | The lock may be forgotten if and only if no caller waits for it or is past it: then every continuation, with removals, reloads and failed writes, keeps one caller past the lock; else some continuation has two. |
| RefreshProtocol.EveryRunIsExclusive | refresh.go:102-104 | In every run in which the lock is forgotten only so, at most one caller is past it. |
| RefreshProtocol.RemovalLosesTheLock | store.go:203-223 | A run with a removal and a reload in which two callers are past the lock. |
| RefreshProtocol.StepKeepsToken | refresh.go:106-118 | Past the lock a caller knows the token in the store, its checks still hold when it sends, and a reported refresh is an update since its first look. |
| RefreshProtocol.ExchangeKeepsFresh | refresh.go:120-126 | An exchange sends a token that was never replaced before, and the one on its way to the store is unspent. |
| RefreshProtocol.WriteKeepsFresh | refresh.go:128-130 | A write that fails harms nothing unless it loses a new refresh token. |
| RefreshProtocol.ReplayExactly | refresh.go:120-134 | Without removal and reload, a step lets a spent token be sent again if and only if it loses a replaced token: its reply is lost, or it cannot be written. |
| RefreshProtocol.FailedWriteReplays | refresh.go:128-130 | A run with a failed write in which the spent token is sent again. |
| RefreshProtocol.LostReplyReplays | refresh.go:167-202 | A run with a lost reply in which the spent token is sent again. |
| RefreshProtocol.CheckKeepsPace | refresh.go:106-118 | The second look lets a caller send only when every earlier exchange is long enough ago. |
| RefreshProtocol.CrowdingExactly | refresh.go:113-130 | Without removal and reload, a step lets two successful exchanges come too close if and only if it is a failed write less than the distance after the exchange. |
| RefreshProtocol.EveryRunIsSafe | refresh.go:87-148 | In every interleaving: at most one caller is past the lock unless it is forgotten under them; without removal and reload a replaced refresh token is never sent again unless its replacement was lost, successful exchanges are at least the gap apart unless one was forgotten too soon, and a caller told so finds updated credentials. When a caller does send is `RefreshAnswers.SendsExactly`. |
| RefreshAnswers.ComparisonIsExact | refresh.go:136-141 | Without removal and reload, comparing refresh time and access token says exactly whether there was an update since the first look. |
| RefreshAnswers.EveryCallerIsToldExactly | refresh.go:87-118 | In every run without removal and reload a caller that waited and does not send is told true if and only if the store was updated between its two looks, and never finds the refresh token gone. |
| RefreshAnswers.DefaultsAreExact | refresh.go:34-42 | The interval is 691200 seconds and the debounce 30 unless the caller asks for something positive. |
| RefreshAnswers.GoesOnExactly | refresh.go:90-104 | The first look goes on to the lock if and only if there is a refresh token and, in stale mode, the last refresh is known and longer ago than the interval; else the call is done at once. |
| RefreshAnswers.SendsExactly | refresh.go:106-120 | The second look leads to an exchange if and only if, in stale mode, the last refresh is known and longer ago than the interval, or, in forced mode, it is unknown or at least the debounce ago. |
| RefreshAnswers.LoneCallerRefreshes | refresh.go:87-134 | Progress: whenever a call is due and the lock is free, the call left to itself sends the refresh token and brings the answer to the store with the present time, and returns true. |
| RefreshAnswers.FailuresAreReported | refresh.go:120-130 | A refused or lost exchange and a failed write are reported as errors and leave the store alone. |
| TokenDirectory.LoadFile | tokens.go:53-84 | An unchanged file is skipped, a bad one loses its token and is remembered, a good one is stored. |
| TokenDirectory.LoadTokensFromDirChanged | tokens.go:35-95 | The loop and the pruning compute the reference scan for every listing; an unreadable directory changes nothing. |
| TokenDirectory.ChangedMeansReloaded | tokens.go:87-94 | The scan reports a change if and only if some file whose time has grown parses. |
| TokenDirectory.LoadAllAt | tokens.go:44-85 | What loading leaves for one file does not depend on the other files or their order. |
| TokenDirectory.ScanIsExact | tokens.go:35-95 | After a scan the store agrees with a file if and only if its time had grown or the store agreed before. |
| TokenDirectory.ScanPrunes | tokens.go:90-93 | After a scan every token has its auth file. |
| TokenDirectory.ScanTouches | tokens.go:44-95 | A listed file ending in .json whose time the store has seen, or that cannot be examined, is left alone with its token; any other is read: its token has the fields of the file, with marks cleared and windows kept, or is gone if the file does not parse. |
| TokenDirectory.ScanIgnores | tokens.go:44-53 | A directory, or a name that does not end in .json, has no token after a scan. |
| TokenDirectory.BadFileIsRemembered | tokens.go:62-68 | A good file that replaces a deleted bad one is loaded if and only if its time is later. |
| TokenDirectory.LateRefreshHidesFile | store.go:190-201 | Credentials stored after a scan agree with the file after the next scan if and only if they are those of the file. |
| TokenDirectory.StepKeepsInv | tokens.go:35-95 | Every write, deletion, scan, refresh half and store step keeps the store current or due for a reload, file by file. |
| TokenDirectory.StoreMirrorsDirectory | tokens.go:35-95 | After any history in which every change of a file has a later time and nobody else writes it during a refresh, a scan leaves the token of each examined auth file in the store if and only if the file parses, with its access and refresh tokens, and no other token. |

## Left out

- Sockets, TLS, HTTP servers and clients, hijacking and tunnel shutdown: modelled only as outcomes of a call.
- JSON parsing, base64 and the real file writes: parameters, parsed contents and steps that may fail.
- SQLite itself: the table is a sequence of rows and each query is written out as a sum; the schema, the indexes and the migrations are not modelled.
- WebSocketUsageCapture.UsageCapture.WriteTextPayload: scheduling between the pipe and its goroutine (usage_capture.go:545-591) is not modelled, only which bytes the decoder has taken and whether it has returned. An error from the pipe cannot occur there: its reading end is never closed, and its writing end only after the last write. A call that never returns is a result, and the object is not used after it.
- WebSocketRewriter.CopyClientToUpstream: without injection the copy is one write; how `io.Copy` cuts it is not modelled. The random source does not fail.
- UsageTotals.TokensAreConserved: stated per hour for records that carry a time, as all records of the server do (usage_capture.go:48-59). A record without one gets the hour of its merge or insert; for such records `UsageTotals.EveryRun` conserves every total that does not ask for the time.
- UsageTotals.DaysAreExact: times before 1970 are not modelled, and single inserts are taken to succeed; which rows remain when they fail is the subject of `UsageSink.StoredAtMostOnce`.
- UsageLedger.UsageDB.DailyUsageBuckets: days are counted from the epoch; the text form of dates and failing queries are not modelled.
- 64-bit wrap-around of token counts, byte counts and mask offsets.
- TokenPool.BetterIsTotal: percentages are reals; NaN and infinity are rejected where windows are read and do not occur.
- Failover.Request.RefreshTokenAfterUnauthorized: the refresh is an arbitrary result; the protocol behind it is `RefreshProtocol`.
- Failover.Request.RetryAfterDeactivatedWorkspace: deleting the file on disk (syncer.go:154-176) is not modelled.
- TokenStore.Store.RemoveToken: dropping the token and clearing its sessions are two critical sections in the code and one step here; the lock map is in `RefreshProtocol` only.
- RefreshProtocol.EveryRunIsSafe: the call is a transition system over values, since its lines interleave with those of other callers; there is no method for it. The server is taken to return no refresh token, the same one, or one it never issued.
- TokenDirectory.StoreMirrorsDirectory: a scan is one step, and the last-refresh time and identity fields are not compared.
- ToolInjection.InjectTools: the byte form of the re-encoded request is not modelled.
- The worker goroutine of the sink (usage_sink.go:52-67) is the transitions of `UsageConservation`, not a method with an endless loop.
- The websocket and HTTP usage records made along the way (proxy_http.go:119-123, proxy_ws.go:86-90) are not part of `Failover`.
- `TotalTokens`, `TokenRefs`, account metadata, quota windows and rate-limit windows, dashboards, flags and logging: read off one body each.
- Path allow-listing, header copying, authorization checks and error classification.

# Verified model of the exchange client core

A Dafny model of the parts of the crate that carry state or arithmetic, with the
properties they are relied on for. `dafny verify dfyconfig.toml` checks all of it.

- **Order book** (`LevelWrites`, `OrderBook`, `BookRefinement`, `FeedChain`): the
  local book as a class with the fields of `LocalOrderBook`. The venue is a log of
  numbered updates, and the true book at id *n* is what the first *n* updates write.
  A truthful delta may conflate updates: only the last write at each price has to
  agree. Synced means equal to the venue's book at the local update id, under every
  drop, duplicate, reordering and overlap. On chained feeds the id arithmetic is shown
  equivalent to a receiver that counts chain positions.
- **Order client** (`OrderProtocol`, `OrderSafety`, `OrderResults`, `OrderClient`): the
  requesters, the writer task and the reader task as a transition system whose steps
  are the atomic actions of the Rust code; the invariant is inductive over every
  interleaving. `OrderClient` is the shared state as a class that keeps this invariant:
  it performs every step in place, and its `SendAndAwait` is a whole call with any steps
  of the other parties between its own.
- **Feed runner** (`SendGuard`, `Backoff`, `FeedRunner`, `FeedOutcome`, `Supervisor`,
  `RunnerTrace`, `SupervisorOutcome`): the send guard with every clock read as an input,
  the reconnect loop over a stream of session outcomes, and the token-refresh supervisor
  around it: what they emit, how long they wait, and what exactly decides their end.
- **Requests** (`Retry`, `Nonces`, `Encoding`, `Queries`, `ParamsString`): the retry loop
  with its two budgets, the shared nonce generator under interleaving, percent and form
  encoding with an independent decoder and parser, signed queries, and the canonical
  parameter string.
- **Dates and candles** (`Calendar`, `Klines`, `KlinePaging`, `KlineCoverage`): days to
  calendar dates against a closed-form day number, and paged candle fetching.

`Options`, `Collections` and `Sorting` hold what several of these share.

Loops that would not end (the runner, the supervisor, the paging loop against a venue
that sends only unreadable rows) consume a finite stream of inputs and report that
the stream ended first; every statement is over all such streams.

## Where the code differs from what it says

- The send guard can exceed its quota: a check that reads the exact instant at which the
  oldest stamp is one window old neither drops it nor sleeps, however many stamps the
  deque holds (src/ws/runner.rs:252-272). `SendGuard.NextCheckKeepsRateIff` says exactly
  when the next check can break the bound, for every deque a run can leave, in terms of
  the deque and the clock before it; runs without such a moment keep the bound
  (`SendGuard.RateBound`, `SendGuard.RunIntervalBound`). `SendGuard.DequeBoundedIff` says
  exactly which runs keep the deque bounded. A strictly advancing clock gives both
  (`SendGuard.StrictClockKeepsRate`); `SendGuard.StandingClockBreaksRateBound` is a run
  that breaks the bound.
- `close` is documented to resolve pending requests with `connection_closed`
  (src/ws/orders.rs:248-249). `OrderResults.ClosingGuaranteedIff` says for whom that
  holds: of the calls in flight and unanswered when the reader drains, exactly those that
  already wait, their frame handed over, are guaranteed the answer. A call that has
  inserted its sender is sent it, but can still report a gone writer or a full queue; one
  that inserts after the drain is never answered, and its own timeout resolves it, or the
  queue refuses it. `OrderResults.LateInsertIsReachable` shows that race.
- The branch that reports a response channel closed before the ack
  (src/ws/orders.rs:333-340) cannot be reached while in-flight client ids are distinct.
- The rate-limit error says five times (src/http.rs:359-366); it is the sixth 429 that
  ends the call.
- `fetch_klines_extended` steps one bar below the window start (src/rest/market.rs:231).
  The code only sends the two ends of a window; that a venue includes the bars at both is
  an assumption, made by `KlineCoverage.Complete`. Under it, when now is inside a bar, the
  bar that starts between two windows is never asked for; when now is a bar start, each
  page holds one bar more than its batch and the final truncation drops the newest bars.
  `KlineCoverage.NewestBarsIff` gives the exact condition under which the newest
  `total` bars come back; `KlineCoverage.AlignedFetchMisses` and
  `KlineCoverage.UnalignedFetchMisses` are a query of each kind that misses one.

## Model

| member | source | states |
|---|---|---|
| LevelWrites.LastWriteWins | src/book.rs:309-317 | after any sequence of level writes a price holds what the last write at it says, and nothing if that write was zero |
| LevelWrites.WritesOverwrite | src/book.rs:309-317 | every price that occurs ends as its last entry says, removed if that is zero; every other price stays |
| LevelWrites.OverwrittenIsUnique | src/book.rs:309-317 | those two facts determine the side |
| LevelWrites.ListingRebuilds | src/book.rs:309-317 | writing any complete listing of a side over an empty side gives the side back |
| LevelWrites.AscendingLists | src/book.rs:270-276 | the ordered listing of a side holds each level once, prices strictly rising |
| OrderBook.WriteLevels | src/book.rs:309-317 | the loop leaves every price as its last entry says, removed if that is zero, and the others as they were |
| OrderBook.LocalOrderBook.Apply | src/book.rs:160-197 | the answer by the update ids alone, a delta without ids applied unchecked, and what each answer does to sides, id, names and time |
| OrderBook.ApplyMeaning | src/book.rs:160-206 | the same for every book and message: the two are told without reference to how the book computes them |
| OrderBook.DeltasWithoutIdsApply | src/book.rs:176-196 | a synced book applies every delta of a run without update ids, and both sides end overwritten by all their levels in turn |
| OrderBook.RunKeepsSource | src/book.rs:200-206 | a book that has a symbol keeps it and its exchange through every run, snapshots included |
| OrderBook.LocalOrderBook.BestBid | src/book.rs:223-225 | the entry with the greatest bid price, none exactly when there are no bids |
| OrderBook.LocalOrderBook.BestAsk | src/book.rs:229-231 | the entry with the least ask price, none exactly when there are no asks |
| OrderBook.LocalOrderBook.IsCrossed | src/book.rs:248-253 | true exactly when some bid price is at or above some ask price |
| OrderBook.LocalOrderBook.Bids | src/book.rs:258-265 | the best `depth` entries, prices strictly falling, nothing better left out |
| OrderBook.LocalOrderBook.Asks | src/book.rs:270-276 | the best `depth` entries, prices strictly rising, nothing better left out |
| OrderBook.LocalOrderBook.ExportSnapshot | src/book.rs:293-305 | both sides listed in full, bids falling and asks rising, under the book's own update id; a fresh book fed the message becomes the exporting one |
| OrderBook.RunStoresNoZeroQuantity | src/book.rs:309-317 | no run of messages ever leaves a level of quantity zero |
| OrderBook.UnsyncedIsFrozen | src/book.rs:172-174 | an unsynced book is unchanged by any run of deltas, each answered as awaiting a snapshot |
| OrderBook.GapFreezesBook | src/book.rs:180-187 | after a gap the contents and id stay as they were until a snapshot comes |
| OrderBook.SnapshotRoundTrip | src/book.rs:290-305 | a fresh book fed an exported snapshot equals the exporting book and is synced |
| BookRefinement.OverlapLandsOnTrueSide | src/book.rs:153-156 | re-applying updates already held together with new ones gives the venue's side at the new id |
| BookRefinement.ApplyRefines | src/book.rs:160-197 | every truthful message keeps the book equal to the venue's book at its own update id |
| BookRefinement.RunRefines | src/book.rs:160-197 | the same over runs with any drops, duplicates and reordering |
| BookRefinement.SyncedBookIsTrueBook | src/book.rs:1-11 | whenever the book is synced, both sides equal the venue's true book at the last update id |
| BookRefinement.ExportIsTruthful | src/book.rs:290-305 | what a book that follows the venue exports is itself a truthful snapshot, even after a gap |
| BookRefinement.SeededBookRefines | src/book.rs:290-291 | a consumer seeded from that export follows the venue through every later run |
| FeedChain.StepFollowsPosition | src/okx/ws.rs:242-253 | with ids chained as the OKX and Crypto.com parsers build them, one message is answered as a receiver counting chain positions would |
| FeedChain.DeliveryFollowsPositions | src/cryptocom/ws.rs:369-376 | the same for whole deliveries under drops, duplicates and reordering |
| FeedChain.FirstHoleIsTheGap | src/book.rs:172-188 | of an in-order delivery with drops, messages before the first hole apply, the first one past it reports the gap with both ids, the rest wait |
| FeedChain.CompleteDeliveryNeverGaps | src/book.rs:176-188 | a complete delivery of a chain applies every message |
| FeedChain.RepeatedIdsNeverGap | src/okx/ws.rs:242-253 | a complete delivery of a chain that may repeat ids answers each message as stale if its id repeats the one before, else applies it, and never reports a gap |
| OrderProtocol.ChannelNeverLost | src/ws/orders.rs:333-340 | in every state that keeps the tables, no waiting request can find its sender dropped |
| OrderProtocol.StepKeepsTables | src/ws/orders.rs:184-230 | every step keeps pending entries owned by unanswered in-flight requests, senders held, acks routed and ids distinct |
| OrderSafety.StepKeepsFrames | src/ws/orders.rs:159-180 | every step keeps the queue bounded and the written frames the front of the enqueued ones |
| OrderSafety.StepKeepsOwners | src/ws/orders.rs:314-329 | a frame enters the queue once, and exactly for the requests that got past `try_send`: none that failed as closed, full or writer-gone |
| OrderSafety.StepKeepsFlags | src/ws/orders.rs:175-178 | a task that has marked or signalled its end has set the shared flags |
| OrderSafety.ReachableInvariant | src/ws/orders.rs:137-239 | all of these hold in every state reachable from a fresh connection |
| OrderResults.OneshotIsLinear | src/ws/orders.rs:303-351 | a waiting request's sender is pending or consumed by a delivered ack, never both or neither; the channel-closed error never occurs |
| OrderResults.AckIsOwn | src/ws/orders.rs:197-209 | an ack that a call returns carries the caller's client id, or is the closing answer |
| OrderResults.ReaderAckDelivers | src/ws/orders.rs:199-209 | the frame read reaches, word for word, the one call that is pending under its client id and still receiving; nothing else changes |
| OrderResults.AckWasReceived | src/ws/orders.rs:199-202 | every server ack that a call holds or returns is word for word one that the reader received in the run |
| OrderResults.IdleClientHoldsNothing | src/ws/orders.rs:316-347 | with no request in flight the pending map is empty |
| OrderResults.FramesAreSound | src/ws/orders.rs:159-180 | at most 256 frames are queued; frames are written in enqueue order, at most once, and none of a request that failed before enqueueing |
| OrderResults.WriterMayStopIff | src/ws/orders.rs:161-168 | a writer between frames may stop exactly on shutdown, or with every handle gone and everything enqueued written |
| OrderResults.StoppedWriterWritesNothing | src/ws/orders.rs:174-180 | once the writer has left its loop nothing more is written, and what is left in the queue is gone |
| OrderResults.RunAnswers | src/ws/orders.rs:189-229 | an answer once delivered stays; none is delivered after the drain; no server ack after the reader has left its loop |
| OrderResults.DrainAnswersIff | src/ws/orders.rs:215-229 | of the requests unanswered at the drain, exactly those with their sender in the map and their receiver alive get the closing answer, and the others never get one |
| OrderResults.ClosingAnswerIff | src/ws/orders.rs:248-255 | of the calls unanswered at the drain, exactly those whose sender was in the map and whose frame enters the queue return the closing answer; those with a sender in the map and no frame report queue-full or writer-gone |
| OrderResults.ClosingGuaranteedIff | src/ws/orders.rs:248-255 | of the calls in flight and unanswered at the drain, exactly those that wait there are guaranteed the closing answer in every run, and they can return it at once |
| OrderResults.UnqueuedCanFail | src/ws/orders.rs:308-329 | from any reachable drain, a call that has passed the closed check but is not yet waiting has a run in which it reports a gone writer |
| OrderResults.DrainAnswersWaiting | src/ws/orders.rs:215-229 | every waiting request without an answer at the drain gets the closing answer and can only return it |
| OrderResults.LateRequestIsNeverAcked | src/ws/orders.rs:308-309 | a request still unanswered after the drain never returns an ack |
| OrderResults.OnlyTimeoutResolves | src/ws/orders.rs:341-349 | such a request, once waiting, waits in the pending map until its own timeout |
| OrderResults.NewcomersAreTurnedAway | src/ws/orders.rs:304-306 | once the closed flag is set it stays set, and later callers fail at the check |
| OrderResults.LateInsertIsReachable | src/ws/orders.rs:304-331 | a run strands a request on a closed and drained connection |
| OrderClient.WsOrderClient.SendAndAwait | src/ws/orders.rs:303-351 | a whole call under any interference: fails as closed exactly if the flag was set, returns the closing answer or word for word an ack that the reader received for its client id while it was pending, never finds its channel closed, leaves nothing in the map, and has enqueued its frame exactly if it was acked or timed out |
| OrderClient.WsOrderClient.Perform | src/ws/orders.rs:159-230 | every step of the transition system, done in place on the shared state, keeps the invariant |
| OrderClient.WsOrderClient.CheckOpen | src/ws/orders.rs:304-306 | admitted exactly if the flag is not set; nobody else's sender is under the client id |
| OrderClient.WsOrderClient.Close | src/ws/orders.rs:250-255 | flag and signal are set, no request or pending entry changes, and every later call is turned away |
| OrderClient.WsOrderClient.TrySend | src/ws/orders.rs:314-329 | refused exactly if the writer is gone or the queue is full, in that order; the frame is in the queue exactly if it was not refused |
| OrderClient.WsOrderClient.Await | src/ws/orders.rs:331-350 | resolves with the answer if there is one, the caller's own or the closing one, with no entry left; else by the deadline |
| OrderClient.WsOrderClient.WriterRecv | src/ws/orders.rs:162-168 | the frame taken is the first enqueued one not yet written |
| OrderClient.WsOrderClient.WriterSend | src/ws/orders.rs:170-173 | the written frames become the next longer front of the enqueued ones, or stay |
| OrderClient.WsOrderClient.RouteAck | src/ws/orders.rs:199-209 | the ack touches only the one request pending under its client id, which if still receiving gets exactly that frame; an unmatched one changes nothing |
| OrderClient.WsOrderClient.AnswerPending | src/ws/orders.rs:219-229 | in whatever order the map drains, every pending sender sends the closing answer and the map ends empty |
| SendGuard.WsMsgGuard.Check | src/ws/runner.rs:249-273 | exactly the leading stamps older than 10 s go; no sleep with fewer than 100 left or the oldest 10 s old, else until it is; with exactly 100 left no shorter sleep would keep the bound |
| SendGuard.SleepIsLeast | src/ws/runner.rs:261-269 | with exactly 100 stamps left the bound survives a stamp if and only if it is recorded after at least this sleep |
| SendGuard.CheckKeepsSpacingIff | src/ws/runner.rs:249-273 | whatever the clock reads after the sleep, the check keeps the bound if and only if it does not leave more than 100 stamps, the hundredth latest of them younger than the oldest |
| SendGuard.NextCheckKeepsRateIff | src/ws/runner.rs:249-273 | the same for the next check of any run that has kept the bound, whatever its deque |
| SendGuard.RateBound | src/ws/runner.rs:227-231 | over every run with no check at such a moment, any 101 consecutive sends span at least the window |
| SendGuard.SharpBreaksRate | src/ws/runner.rs:252-272 | a run that has kept the bound and reaches such a moment is one check away from breaking it |
| SendGuard.RunIntervalBound | src/ws/runner.rs:15-19 | over every run with no check at such a moment, no half-open interval as long as the window holds more than 100 sends |
| SendGuard.DequeBoundedIff | src/ws/runner.rs:252-272 | the deque never exceeds 101 entries if and only if no check holds 101 stamps with the oldest exactly one window old |
| SendGuard.StrictClockKeepsRate | src/ws/runner.rs:227-231 | while the deque stays bounded, and so under every strictly advancing clock, both rate bounds hold |
| SendGuard.StandingClockBreaksRateBound | src/ws/runner.rs:252-272 | a run with a clock that stands still once breaks the bound |
| Backoff.DelayDoublesUpToCap | src/ws/runner.rs:318-324 | the delay of attempt k is min(base * 2^min(k-1,4), cap): saturation never shows |
| Backoff.DelayNeverShrinks | src/ws/runner.rs:318-324 | delays never shrink and never exceed the cap |
| Backoff.TotalDelayClosedForm | src/ws/runner.rs:147-152 | the sum of a block of delays: a geometric part and a constant tail |
| Backoff.DefaultBlocks | src/ws/runner.rs:187-201 | 95 s for the bare runner, 35 s under the supervisor |
| FeedRunner.RunFeed | src/ws/runner.rs:300-397 | events, delays, sessions consumed and the end of the run, for every stream of sessions |
| FeedOutcome.SessionIsReported | src/ws/runner.rs:359-366 | each disconnected session is reported in its place with its own uptime, the number of short sessions directly before it, and as a cascade start exactly if first and under 5 s |
| FeedOutcome.NothingElseReported | src/ws/runner.rs:346-393 | beyond those only giving up is reported, last |
| FeedOutcome.FeedWaits | src/ws/runner.rs:316-332 | the waits of a run: none before a first attempt, else the base doubled up to four times, capped |
| FeedOutcome.CleanStopIsExact | src/ws/runner.rs:346-358 | the runner stops cleanly exactly at the first session that does not disconnect, if no block of short ones comes first |
| FeedRunner.ExhaustionIsExact | src/ws/runner.rs:373-393 | the runner gives up exactly at the end of the first block of max+1 consecutive sessions shorter than 60 s |
| FeedRunner.ShortRunSleepsWholeBlock | src/ws/runner.rs:157-161 | a run of nothing but short sessions sleeps exactly the whole backoff block |
| Supervisor.RunFeedSupervised | src/ws/runner.rs:835-945 | events, refresh calls, endpoints and the end of the supervised run |
| SupervisorOutcome.CycleStartsIff | src/ws/runner.rs:846-930 | cycle k starts if and only if the bootstrap succeeded and every earlier cycle gave up within the budget, saw no shutdown and got a new endpoint, the one it connects to |
| SupervisorOutcome.LastCycleDecidesEnd | src/ws/runner.rs:867-942 | the last cycle decides the end: clean stop, budget spent with its url, shutdown, or the refresh error with its message; and how often the closure ran |
| SupervisorOutcome.TraceIsThatOfCycles | src/ws/runner.rs:866-930 | the trace is that of the cycles started, each closed by its refresh or by the exhausted budget |
| SupervisorOutcome.BootstrapDecides | src/ws/runner.rs:849-852 | a refused bootstrap ends the supervisor at once, with its error and one call |
| RunnerTrace.FeedTrace | src/ws/runner.rs:359-394 | the events of one feed obey the grammar, and giving up is the last of them |
| RunnerTrace.SupervisedTrace | src/ws/runner.rs:846-944 | every supervised trace obeys the grammar; refreshes are numbered 1, 2, 3, ...; the refresh closure has run exactly 1 + max cycles times when the supervisor gives up |
| RunnerTrace.ExhaustionClosesBlock | src/ws/runner.rs:380-391 | each reconnects-exhausted event closes a block of short sessions, attempts 0 to max |
| RunnerTrace.CascadesAreSeparated | src/ws/runner.rs:409-425 | between two cascade starts lies a stable session or a token refresh |
| RunnerTrace.ShutdownStopsSupervisor | src/ws/runner.rs:884-918 | once a shutdown is seen before or during the delay of a cycle, no refresh follows |
| RunnerTrace.CycleUsesLatestEndpoint | src/ws/runner.rs:921-930 | every cycle connects to what the latest refresh returned |
| Retry.ExecuteWithRetries | src/client.rs:219-306 | the first response, `retries`-th network error or sixth 429 decides and is reported as it came; the fall-through needs zero retries |
| Retry.SendWithRetry | src/http.rs:329-394 | the first response, third network error or sixth 429 ends the call, reported as it came, within 8 requests |
| Retry.DecidedOnce | src/http.rs:337-388 | at most one reply of a stream decides |
| Retry.DecisiveReply | src/http.rs:338-387 | what the deciding reply is, in both directions |
| Nonces.StepKeepsOrder | src/kraken/private.rs:383-391 | each atomic step keeps issued nonces rising, below the counter and not below their clock readings |
| Nonces.StepKeepsIds | src/cryptocom/private.rs:624-626 | each atomic step keeps request ids held and issued distinct |
| Nonces.NoncesAreFresh | src/cryptocom/private.rs:628-636 | under every interleaving and any clock jumps, nonces strictly rise in increment order, none is below its clock reading, and no id repeats |
| Nonces.NoncesTrackClock | src/kraken/private.rs:383-391 | a nonce exceeds the latest clock reading by at most the number issued before it |
| Nonces.IdsCountFromOne | src/cryptocom/private.rs:624-626 | request ids count from 1, and none is skipped |
| Nonces.SignedBodiesDiffer | src/kraken/private.rs:448-461 | no two signed bodies of all calls and retries are the same text |
| Nonces.SignedNoncesDifferIff | src/cryptocom/private.rs:634-635 | the saturating conversion keeps two nonces apart exactly while the earlier is below the 64-bit maximum |
| Nonces.ConversionKeepsOrder | src/cryptocom/private.rs:633-635 | below the 64-bit maximum a nonce is sent as it is, and the conversion keeps the order |
| Nonces.KrakenPrivateClient.NextNonce | src/kraken/private.rs:383-391 | the nonce is the larger of counter and clock, past whatever others add, and the counter ends one above it |
| Nonces.KrakenPrivateClient.SignBody | src/kraken/private.rs:448-461 | the body carries a fresh nonce in front of the parameters |
| Nonces.KrakenPrivateClient.Post | src/kraken/private.rs:402-441 | one fresh, larger nonce and a different body for every request built, at most 8, all above the nonce of the signature made up front |
| Encoding.PercentEncode | src/http.rs:46-69 | unreserved bytes as they are, every other byte as `%XX` |
| Encoding.FormUrlEncode | src/kraken/auth.rs:128-152 | the same with a space as `+` |
| Encoding.DecodeEncode | src/http.rs:46-69 | decoding the encoded text gives back any byte sequence |
| Encoding.ByteText | src/http.rs:46-69 | exactly the listed unreserved bytes stay themselves, a space in a form is `+`, any other byte is `%` and its two upper-case digits |
| Encoding.EncodesByteByByte | src/http.rs:46-69 | encoding goes byte by byte |
| Encoding.DecimalRoundTrip | src/kraken/private.rs:448-461 | a number is written in digits without a leading zero and reads back as itself |
| Encoding.EncodeIsWireText | src/http.rs:43-45 | encoded text is unreserved characters and `%XX` only, with `+` only in forms |
| Queries.FormEncode | src/kraken/auth.rs:110-124 | the loop builds the pairs joined by `&` |
| Queries.QueryRoundTrip | src/http.rs:75-84 | the query string parses back to exactly the parameter list |
| Queries.FormRoundTrip | src/kraken/auth.rs:105-124 | the form body parses back to exactly the parameter list |
| Queries.SignedQuery | src/binance/signed_rest.rs:285-308 | what is sent is what was signed, the mark and the signature of exactly those bytes |
| Queries.SignedQueryText | src/binance/signed_rest.rs:285-308 | the text: parameters, `recvWindow`, `timestamp`, `signature`, in this order |
| Queries.FinalMarkCutsAtSignedBytes | src/binance/signed_rest.rs:279-284 | the final mark is at the end of the signed bytes, even if a parameter is named signature |
| Queries.SignedQueryRoundTrip | src/binance/signed_rest.rs:285-308 | the whole query parses to the parameters, the two stamps and the signature |
| Queries.NonceBodyNamesNonce | src/kraken/private.rs:452-457 | equal bodies have equal nonces and parameters |
| Queries.NonceBodyText | src/kraken/private.rs:452-457 | the text: `nonce=`, the number, then the parameters |
| ParamsString.BuildParamsString | src/cryptocom/auth.rs:106-110 | the serialiser computes the parameter string |
| ParamsString.AppendValue | src/cryptocom/auth.rs:116-138 | the buffer grows by the label and the value's string, at every nesting depth |
| ParamsString.SortedObjectIsConcatenated | src/cryptocom/auth.rs:101-104 | an object with alphabetical keys gives its keys and values in turn |
| ParamsString.ComparesAlphabetically | src/cryptocom/auth.rs:132-133 | keys compare as a prefix first, else by the smaller character at the first difference |
| ParamsString.ObjectIsFirstKeyAndRest | src/cryptocom/auth.rs:130-136 | an object is its alphabetically first key, that value, and the rest |
| ParamsString.TwoKeys | src/cryptocom/auth.rs:99-104 | of two keys the alphabetically first leads, whichever was inserted first |
| ParamsString.ArrayIsItemsInOrder | src/cryptocom/auth.rs:125-129 | an array is its items in order, with nothing between |
| ParamsString.LeafTexts | src/cryptocom/auth.rs:120-124 | null is nothing, booleans the two words, numbers and strings their text |
| ParamsString.ReorderingKeepsParams | src/cryptocom/auth.rs:99-104 | values that differ only in the order of object keys, at any depth, give the same string |
| ParamsString.PermutedObjectIsSame | src/cryptocom/auth.rs:130-136 | any permutation of an object's entries is such a reordering |
| Calendar.DaysToYmd | scripts/lint_report.rs:197-223 | the loops end in a valid Gregorian date whose closed-form day number is the input |
| Calendar.YearLength | scripts/lint_report.rs:225-227 | the closed-form start of a year agrees with the leap rule |
| Calendar.DayNumberOrdersDates | scripts/lint_report.rs:197-223 | day numbers order dates lexicographically, and no two valid dates share one |
| Calendar.KnownDays | scripts/lint_report.rs:225-227 | the epoch, a leap day, the ends of a leap year and a common century have their known numbers |
| Calendar.TimestampAt | scripts/lint_report.rs:183-192 | all fields are in range and determine the second |
| Klines.FetchKlinesExtended | src/rest/market.rs:178-237 | the windows asked for and the result, for every stream of replies |
| KlinePaging.RowsAreRead | src/rest/market.rs:216-225 | an unreadable row is skipped, and the readable ones before and after it stay in order |
| KlinePaging.ReadIffRow | src/rest/market.rs:216-225 | a candle is read exactly if some row of the reply is it |
| KlinePaging.WindowsAskedFor | src/rest/market.rs:190-232 | for every stream of replies: which pages are asked for, and both ends of each window |
| KlinePaging.ResultIsOldestReceived | src/rest/market.rs:226-236 | when the fetch ends, and that it returns the oldest `total` candles received, sorted, equal times in the order received |
| Sorting.SortIsStable | src/rest/market.rs:234-234 | candles of equal time keep their order |
| Klines.WindowsAreDisjoint | src/rest/market.rs:190-231 | windows never overlap, whatever the replies |
| Klines.FetchTerminates | src/rest/market.rs:190-232 | a venue whose non-empty replies hold a readable candle is asked at most `total` times |
| Klines.ResultRises | src/rest/market.rs:234-236 | from an honest venue times strictly rise and at most `total` candles come back |
| KlineCoverage.UnalignedLosesBar | src/rest/market.rs:231-231 | when now is inside a bar and one page does not suffice, no complete run fetches the bar that starts between the first window and the next |
| KlineCoverage.TruncationDropsNewest | src/rest/market.rs:234-235 | keeping the oldest `total` of more bars is never the newest `total` |
| KlineCoverage.NewestBarsIff | src/rest/market.rs:174-237 | from a venue with every bar, the newest `total` bars come back if and only if now is a bar start and `total` is a multiple of `pageSize + 1`, or now is inside a bar and one page suffices |
| KlineCoverage.CompleteRunExists | src/rest/market.rs:190-232 | for every query and time a venue that has every bar answers the fetch to its end |
| KlineCoverage.AlignedFetchMisses | src/rest/market.rs:234-235 | one bar asked for at a bar start with pages of one: the bar before the newest comes back |
| KlineCoverage.UnalignedFetchMisses | src/rest/market.rs:231-231 | two bars asked for inside a bar with pages of one: the second newest is missing from the answer |

## Left out

- Sockets, TLS, HTTP, the async runtime and logging: they are nondeterministic steps, streams of outcomes and explicit clock readings here.
- HMAC, SHA and base64: signing is an arbitrary function of the signed text; only its lower-case hex form is used.
- JSON decoding and the per-venue field parsers: field mapping; only the update ids of OKX and Crypto.com book messages are modelled.
- Floating point: prices and quantities are reals, so NaN and negative zero do not occur; jitter and the length of HTTP backoff waits are not modelled.
- Integer widths: update ids stay below the 64-bit maximum, attempt and cycle counters below the 32-bit maximum, nonces below overflow of the shared counter; page sizes fit in 64 bits.
- Deltas without update ids (Kraken, Coinbase): the book applies them unchecked by design; they are in the model of `Apply` but not in the refinement.
- Order client assumptions: in-flight client ids are distinct (they are random, except through `send_raw`) and request futures are not cancelled.
- Protocol pong replies: they bypass the send guard, so the rate bound covers guarded sends only.
- The bar length of a candle query: it is a number here; reading it from the granularity text and scaling it to milliseconds are not modelled.
- One session of the runner (`single_session`): abstracted to its outcome and duration.
- The order in which concurrently signed requests arrive at a venue: nonces rise in the order they are minted, not in the order they are received.
- Spread, midpoint and depth counts of the book, contract sizing, error classification and order-status accessors: they would only add easy members.

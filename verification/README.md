# Verification of the exchange SDK's stateful core

A Dafny 4.11 model of the parts of the SDK that carry state or exact arithmetic, with machine-checked
proofs of what they promise. `dafny verify dfyconfig.toml` checks everything.

Code that changes things step by step keeps that form: a class whose methods change its fields, with
loops where the Go code has loops. Each such method is proved equal to a transition function, and the
results about whole runs are lemmas about that function. Code that only computes is a function with
lemmas beside it.

## Contents

**Local order books.** Go keys a price level by `price.RatString()`; the key here is the exact price.
`Decimals` gives decimal texts their exact values, `BookLevels` says what a level map and a sorted view
mean, and `ExchangeLog` is the exchange's side: a log of absolute quantity changes, and what makes a
snapshot or an update true of it. For each adapter two kinds of result belong together: what is shown is
true and in order, and what must be shown is shown (`...Progress`, and `CoinbaseNumbering`).

- `DepthSync`, `DepthSyncRuns`, `DepthSyncProgress`, `BinanceOrderBook` – the Binance event loop over
  inputs, snapshot results and a retry timer. An arrival is a constructor of `Arrival`; a snapshot may
  arrive at any time while one is being fetched, however old its request is.
- `BybitOrderBook`, `BybitProgress`, `BybitProcessor`, `BybitExchange` – a book pruned to the stream's
  depth. The exchange's book is not pruned and may change below that depth without a word; `BybitExchange`
  says what a truthful snapshot or delta is and what the local levels then are.
- `BitgetOrderBook`, `BitgetProgress`, `BitgetHandler` – a bridging first update, a chain, one recovery per
  connection.
- `CoinbaseOrderBook`, `CoinbaseProcessor`, `CoinbaseExchange` – messages of several events.
  `CoinbaseNumbering` is about the numbers of whole connections, heartbeats and other products included.

**Rate limiter.** `Limits`, `LimitRuns`, `LimitSafety`, `LimitReference`, `ChargeNormalization`,
`ChargeSafety`, `MemoryBackend`. `LimitReference` is a limiter without buckets that never forgets; the real
one is proved to decide and report the same. Time is an integer; operations that read the clock do so in
lock order (`LimitSafety.ClockOk`), because the Go code reads it outside the lock. Window claims hold since
a rule's last change, which empties its bucket. `used + units - limit` is modelled without wrapping: for
positive units the intermediate sum may wrap in Go, but the result is in range whenever `used` and the
charge are, so the final value is the same.

**Sessions and subscriptions.** `SessionProtocol` has one step per lock section of `stream.Session` and per
call made outside the lock, for `Run`, `Close` and `Reconnect` in any order; `Session` holds the lock
sections as methods. `SessionProgress` says when Run may end and that it goes on otherwise. `MarketStreams`
runs beside that machine the command lock, the remembered set and what each connection has been told;
`MarketStream` is the object. A write that returns no error counts as applied, one that returns an error as
not.

**Numbers.** `Decimals` (sums, comparison, printing), `Candles` and `CandleAggregation`, `Constraints`
(increments, minimums, orders), `BybitBalance`, `Backoff`.

**REST executor.** `Executor`: what limiter, builder, sender and body reader answer is a script, and an
object writes down every call they get.

`Results`, `Integers`, `Texts` and `Sorting` hold shared helpers.

## Where the code does less than one might expect

- `normalizeCharges` adds units in 64 bits. The result is what the caller asked for if and only if the
  total per key fits (`ChargeNormalization.ExactIffTotalFits`), and then no window is exceeded
  (`ChargeSafety.CallersStayWithinLimit`). `ChargeSafety.HugeChargesLowerUsage`: units 2^63-1 and 1 for
  the same key are granted by a rule that is used up, and lower its count.
- A `Retry-After` in seconds is multiplied into nanoseconds without a guard. The session waits as long as
  asked, up to its maximum, in every configuration if and only if the product fits a duration
  (`Backoff.WaitsAsAskedIff`); `LongHeaderIsIgnored` gives 9223372037 seconds as an input for which it
  waits only its own backoff.
- Both jittered delays draw from `rand.Int64N(ceiling + 1)`, which panics when the sum wraps. In a
  session this never happens if and only if the maximum is below the largest duration
  (`Backoff.SessionAlwaysDrawsIff`); `FullJitterBackoff(1, math.MaxInt64)` panics at attempt 64. For an
  accepted retry policy the condition is `Backoff.PolicyAlwaysWaitsIff`; two attempts with base and
  maximum delay `math.MaxInt64` panic at the first wait.
- Coinbase: a message of another channel or product does not advance the remembered number. Suppose the
  exchange numbers all messages of a connection one after the other and all are valid. Then the processor
  never asks for a reconnect if and only if no message is about the product, or the first that is opens
  with a snapshot and no other message comes between two that are (`CoinbaseNumbering.GivesUpExactly`).
  The public stream always subscribes heartbeats, so a connection for a single product can be given up too
  (`CoinbaseNumbering.HeartbeatLooksLikeAGap`); a heartbeat ahead of the snapshot does no harm
  (`CoinbaseNumbering.LeadingHeartbeatIsHarmless`).

## Model

| member | source | states |
|---|---|---|
| `Texts.TrimFuncEmpty` | exchange/binance/local_order_book.go:490 | trimming leaves nothing exactly when every character is in the cutset |
| `Decimals.TrimIsZeroTest` | exchange/binance/local_order_book.go:485-498 | the text test by which a level is deleted holds exactly for quantities that are numerically zero |
| `Decimals.ParseKeepsValue` | unified/candles.go:116-126 | parsing keeps the exact value and remembers how many fraction digits were written |
| `Decimals.ScaleIntegerKeepsValue` | unified/candles.go:155-161 | rescaling changes the integer and not the value |
| `Decimals.AddIsExact` | unified/candles.go:144-153 | the sum of two scaled decimals has the exact sum of their values |
| `Decimals.CompareIsExact` | unified/candles.go:128-142 | comparison succeeds exactly for two decimals and orders them by exact value, whatever their lengths |
| `Decimals.ParseOfString` | unified/candles.go:163-173 | printing any scaled decimal and parsing the text gives back the same integer and scale |
| `Decimals.StringDenotesValue` | unified/candles.go:163-173 | the printed text is a decimal of the same value with exactly `scale` fraction digits |
| `Decimals.AddDecimals` | unified/candles.go:12-25 | for any list: success exactly when it is not empty and all texts are decimals; then the exact sum at the longest fraction |
| `BookLevels.ParseDepthFields` | exchange/binance/local_order_book.go:500-510 | accepts exactly two decimal texts with a positive price, and keeps both texts |
| `BookLevels.ApplyLevelMeaning` | exchange/binance/local_order_book.go:485-498 | one row sets its price's quantity, deletes it when zero, leaves every other price alone and keeps keys and prices in one-to-one correspondence |
| `BookLevels.ApplyRowsMeaning` | exchange/binance/local_order_book.go:463-483 | after a list of rows each price has the quantity of its last row, or its old one if no row mentions it |
| `BookLevels.ApplyRowsConcat` | exchange/coinbase/local_order_book.go:253-273 | replaying two lists one after the other is replaying their concatenation |
| `BookLevels.ApplyLocalLevels` | exchange/binance/local_order_book.go:463-483 | the loop fails exactly on a malformed row and otherwise computes the replay |
| `BookLevels.CheckRows` | exchange/binance/local_order_book.go:419-423 | the validation loop accepts exactly lists of well-formed rows |
| `BookLevels.ViewIsTopOfBook` | exchange/binance/local_order_book.go:527-551 | a view is strictly sorted, carries the true quantities, is at most `depth` long, and every omitted price is worse than all `depth` listed ones |
| `BookLevels.BidsDescendAsksAscend` | exchange/binance/local_order_book.go:512-551 | bids are listed from the highest price down, asks from the lowest up |
| `BookLevels.SortedLocalLevels` | exchange/binance/local_order_book.go:527-551 | collecting a map in any order and sorting gives its one view |
| `BookLevels.BestKeysOfSubset` | exchange/bybit/local_order_book.go:311-347 | removing levels that are not among the best `depth` does not change the best `depth` |
| `BookLevels.ApplyRowsAt` | exchange/bybit/local_order_book.go:256-296 | what rows make of a price depends on the old map only where no row mentions the price |
| `ExchangeLog.FaithfulRowsAdvance` | exchange/binance/local_order_book.go:463-483 | an update that reaches back to or before the book's position brings the mirrored book exactly to the update's end |
| `ExchangeLog.CompleteRowsMirror` | exchange/binance/local_order_book.go:427-444 | a complete snapshot applied to an empty book mirrors the exchange's book at the snapshot's number |
| `ExchangeLog.MirrorShowsBook` | exchange/binance/local_order_book.go:512-525 | the view of a mirroring book is the top of the exchange's own book |
| `BinanceOrderBook.LocalDepthState.Apply` | exchange/binance/local_order_book.go:463-483 | skipped, gap and malformed leave the book as specified; otherwise the object changes to the applied book |
| `BinanceOrderBook.LocalOrderBook.Synchronize` | exchange/binance/local_order_book.go:273-322 | the closure computes one synchronisation attempt on the captured variables |
| `BinanceOrderBook.LocalOrderBook.OnSnapshotResult` | exchange/binance/local_order_book.go:334-352 | the snapshot case changes the variables as its transition says |
| `BinanceOrderBook.LocalOrderBook.OnInputEvent` | exchange/binance/local_order_book.go:353-404 | the input case changes the variables as its transition says |
| `BinanceOrderBook.LocalOrderBook.FirstRelevant` | exchange/binance/local_order_book.go:278-283 | the loop finds where the buffer without its stale front begins |
| `BinanceOrderBook.LocalOrderBook.ReplayBuffer` | exchange/binance/local_order_book.go:301-316 | the loop replays the buffer on the candidate up to the end, a gap or a malformed event |
| `BinanceOrderBook.LocalOrderBook.Receive` | exchange/binance/local_order_book.go:325-404 | one pass of the select changes the variables by one step |
| `BinanceOrderBook.LocalOrderBook.CheckInput` | exchange/binance/local_order_book.go:408-425 | accepts exactly valid inputs and names the complaint otherwise |
| `BinanceOrderBook.LocalOrderBook.CheckSnapshot` | exchange/binance/local_order_book.go:446-461 | accepts exactly valid snapshots |
| `BinanceOrderBook.LocalOrderBook.RunInputs` | exchange/binance/local_order_book.go:213-406 | for every sequence of arrivals the loop ends in the state of the run the theorems speak about, with the same views published |
| `DepthSyncRuns.ReplayGoesForward` | exchange/binance/local_order_book.go:301-316 | replaying validated events never fails halfway, only moves the update id forward, and stops at a gap with a shorter valid buffer |
| `DepthSyncRuns.RunKeepsInv` | exchange/binance/local_order_book.go:219-404 | every run keeps the loop invariant that the results below rest on |
| `DepthSyncRuns.AlwaysInOneMode` | exchange/binance/local_order_book.go:324-404 | after the first input exactly one of fetching, retry armed, snapshot pending with empty buffer, live with empty buffer holds, and the buffer is bounded and of the current generation |
| `DepthSyncRuns.PublishesInOrder` | exchange/binance/local_order_book.go:267-403 | over the whole run the published (generation, update id) pairs rise strictly in lexicographic order, across gaps and resynchronisations |
| `DepthSyncRuns.OnlyValidationRejects` | exchange/binance/local_order_book.go:324-424 | the loop ends only by validation of the arriving message, a full buffer, a handler error, the context or the stream: applying never fails halfway |
| `DepthSyncRuns.PublishesExchangeBook` | exchange/binance/local_order_book.go:213-498 | over every interleaving, if valid messages are true of one exchange log, every published view shows the exchange's own book at its update id |
| `DepthSyncRuns.BridgingSnapshotPublishes` | exchange/binance/local_order_book.go:273-322 | with adjoining buffered events, an arriving snapshot leads to a view exactly when the events reach over it, and the view stands at the last event |
| `DepthSyncProgress.LiveEventIsShownExactly` | exchange/binance/local_order_book.go:353-385 | in every run with a book at id n, a valid event of the connection from first to final adds exactly one view, of its own id and time, if first <= n+1 <= final; changes nothing if final <= n; and is a counted gap, kept alone while a snapshot is fetched, if first > n+1 |
| `DepthSyncProgress.AdjoiningEventsAreShown` | exchange/binance/local_order_book.go:353-385 | from any live state of any run, adjoining events are shown one by one, without a gap |
| `DepthSyncProgress.GapIsRecovered` | exchange/binance/local_order_book.go:273-404 | after every gap, adjoining events within the buffer limit and a snapshot they reach over lead to one view of the last of them, with one gap and one synchronisation more |
| `DepthSyncProgress.NewerConnectionStartsOver` | exchange/binance/local_order_book.go:360-403 | the first event of a newer connection drops book, snapshot and buffer, is the only one kept, and a request or retry is under way |
| `DepthSyncProgress.WaitingEventIsBuffered` | exchange/binance/local_order_book.go:386-403 | while a snapshot is fetched or a retry is due, an event is appended and nothing else changes; one beyond the limit ends the run |
| `DepthSyncProgress.WaitingSnapshotMeetsEvent` | exchange/binance/local_order_book.go:386-403 | a waiting snapshot is completed by an event exactly when it reaches from the snapshot to beyond it; one within it is dropped, one too far asks for another snapshot |
| `DepthSyncProgress.ReachedSnapshotShowsLastEvent` | exchange/binance/local_order_book.go:273-322 | a snapshot that the buffered adjoining events reach over leads to exactly one view, of the last of them |
| `DepthSyncProgress.EarlySnapshotWaits` | exchange/binance/local_order_book.go:278-286 | a snapshot ahead of all buffered events waits for the next one, and the events are dropped |
| `DepthSyncProgress.LateSnapshotIsRetried` | exchange/binance/local_order_book.go:290-296 | a snapshot behind the first buffered event is given up for another one; the buffer stays |
| `DepthSyncProgress.HoleBehindSnapshotIsAGap` | exchange/binance/local_order_book.go:301-316 | a hole behind the snapshot is one counted gap: what lies behind it is kept, nothing is shown, another snapshot is asked for |
| `DepthSyncProgress.FailedSnapshotIsRetried` | exchange/binance/local_order_book.go:326-338 | a failed request and the timer after it lead back to where the run was, fetching |
| `DepthSyncProgress.AcceptedMeans` | exchange/binance/local_order_book.go:408-425 | which inputs pass validation, and which complaint comes first |
| `DepthSyncProgress.OldOrInvalidEvents` | exchange/binance/local_order_book.go:353-359 | events of older connections change nothing, invalid ones end the run with their complaint |
| `DepthSyncProgress.InvalidSnapshotEndsTheRun` | exchange/binance/local_order_book.go:446-461 | a snapshot ends the run exactly when it has no usable id or a malformed row |
| `DepthSyncProgress.EndsAndStrays` | exchange/binance/local_order_book.go:324-333 | context and stream end a run at once; after that nothing happens |
| `BybitOrderBook.PruningCommutes` | exchange/bybit/local_order_book.go:256-321 | pruning the delta applied to the best levels gives the best levels of the complete book after the delta, for every delta that mentions each newcomer |
| `BybitOrderBook.ViewOfBest` | exchange/bybit/local_order_book.go:323-361 | a view no deeper than the pruning depth is the view of the complete book |
| `BybitOrderBook.ProcessFollows` | exchange/bybit/local_order_book.go:162-217 | a message's view follows the last one without a missing update inside a synchronisation, or starts a new one |
| `BybitOrderBook.RunOrderly` | exchange/bybit/local_order_book.go:162-278 | whatever the stream sends, views chain and neither side ever holds more than `depth` levels |
| `BybitProgress.DeltaIsShownExactly` | exchange/bybit/local_order_book.go:191-211 | with a book at number u and sequence q, a valid delta is shown exactly when its number is u+1, is not 1, and its sequence exceeds q; ignored exactly when its number is u and not 1; otherwise a counted gap and a reconnect. The view carries its numbers and times |
| `BybitProgress.DeltaNeedsBook` | exchange/bybit/local_order_book.go:174-194 | without a book of its connection every valid delta is a counted gap |
| `BybitProgress.SnapshotIsShown` | exchange/bybit/local_order_book.go:182-190 | a valid snapshot of the present or a new connection is always shown and begins a synchronisation |
| `BybitProgress.UnbrokenStreamIsShown` | exchange/bybit/local_order_book.go:162-211 | from any state of any run, also after a gap: a snapshot and deltas numbered one after the other with rising sequences are all shown, with the gap count unchanged |
| `BybitExchange.DeltaHoldsBest` | exchange/bybit/local_order_book.go:256-321 | with `before` and `after` the exchange's own offers: local levels that are the best `depth` before a delta, with its rows applied and pruned, are the best `depth` after it, whatever happened further down |
| `BybitExchange.SnapshotHoldsBest` | exchange/bybit/local_order_book.go:241-254 | a snapshot that lists the best levels makes the local levels exactly these |
| `BybitExchange.SilentBelowDepth` | exchange/bybit/local_order_book.go:311-321 | changes that leave the best levels alone need no row: a delta without rows is true of them |
| `BybitExchange.BestShowsTop` | exchange/bybit/local_order_book.go:323-361 | a view no deeper than the pruned levels is the top of the exchange's own book: sorted, true quantities, and every other offered price is worse than all its rows |
| `BybitExchange.RunAgrees` | exchange/bybit/local_order_book.go:162-211 | over every run of a truthful stream a present book holds the exchange's best levels at its update id |
| `BybitExchange.PublishesExchangeBook` | exchange/bybit/local_order_book.go:162-211 | over every run of a truthful stream, whatever is lost, repeated or out of order, every published view shows the top of the exchange's own book after the update it names |
| `BybitProcessor.Prune` | exchange/bybit/local_order_book.go:311-321 | the deleting loop leaves exactly the best `depth` levels |
| `BybitProcessor.LocalOrderBookState.Apply` | exchange/bybit/local_order_book.go:256-278 | both sides are applied and pruned in place; fails exactly on a malformed row |
| `BybitProcessor.LocalOrderBookProcessor.Process` | exchange/bybit/local_order_book.go:162-211 | the object's fields, the view and the two flags are those of the transition |
| `BybitProcessor.LocalOrderBookProcessor.CheckEvent` | exchange/bybit/local_order_book.go:219-239 | accepts exactly valid events |
| `BitgetOrderBook.NothingAfterAGap` | exchange/bitget/local_order_book.go:120-165 | once a connection has shown a gap, whatever is published or counted later belongs to a later connection |
| `BitgetOrderBook.ViewsFormChains` | exchange/bitget/local_order_book.go:175-212 | each view's gap count is the number of gaps before it; a view after an update is linked to the view before it: the first straddles the snapshot, later ones start where it ended |
| `BitgetOrderBook.RunOrderly` | exchange/bitget/local_order_book.go:108-217 | over every run views and gaps are chained and counted, with no assumption on the stream |
| `BitgetOrderBook.PublishesExchangeBook` | exchange/bitget/local_order_book.go:108-279 | if valid messages are true of one exchange log, every view shows the exchange's book at its sequence |
| `BitgetProgress.UnbrokenStreamIsShown` | exchange/bitget/local_order_book.go:127-216 | from any state of any run, on a new connection after a gap too: a snapshot and updates that continue it without a hole are shown message by message, with no gap |
| `BitgetProgress.UpdateIsShownExactly` | exchange/bitget/local_order_book.go:183-212 | with a book an update from its previous sequence to its own is shown exactly when it goes forward and bridges the snapshot, or begins where the chain stands; a repetition is ignored; everything else is a counted gap that gives the connection up. The view carries its sequence, time and depth |
| `BitgetProgress.UpdateNeedsBook` | exchange/bitget/local_order_book.go:183-189 | without a book every valid update gives the connection up |
| `BitgetProgress.SnapshotIsShown` | exchange/bitget/local_order_book.go:175-182 | a snapshot is shown on every connection not given up, and begins a synchronisation |
| `BitgetProgress.OtherMessages` | exchange/bitget/local_order_book.go:145-173 | messages of older connections and of one given up are passed over; other invalid ones end the run |
| `BitgetHandler.ValidateUpdate` | exchange/bitget/local_order_book.go:219-249 | accepts exactly valid updates and picks the update's timestamp before the envelope's |
| `BitgetHandler.LocalOrderBookState.Apply` | exchange/bitget/local_order_book.go:262-279 | the book object changes to the applied book; fails exactly on a malformed row |
| `BitgetHandler.LocalOrderBook.Handle` | exchange/bitget/local_order_book.go:127-216 | the captured variables, the view and the two flags are those of the transition |
| `CoinbaseOrderBook.RunOrderly` | exchange/coinbase/local_order_book.go:151-239 | up to the first invalid message the number is remembered exactly while there is a book, and views between two resets carry consecutive numbers |
| `CoinbaseOrderBook.BookIsReplay` | exchange/coinbase/local_order_book.go:186-273 | over every run the book is the left-to-right replay of all target updates since the latest snapshot, however split into events and messages |
| `CoinbaseExchange.EventsMirror` | exchange/coinbase/local_order_book.go:186-212 | the loop over the events of a true message, snapshots and updates mixed, brings the book from where the exchange stood at its predecessor to where it stands at the message |
| `CoinbaseExchange.PublishesExchangeBook` | exchange/coinbase/local_order_book.go:124-349 | over every run of messages that are each true of their own number, whatever is lost, repeated or out of order and wherever the connection changes, every published view shows the exchange's own book at the number it carries |
| `CoinbaseNumbering.GivesUpExactly` | exchange/coinbase/local_order_book.go:124-211 | for every sequence of valid messages of one connection, of all channels and products, numbered one after the other, and every processor that remembers nothing of the connection: no reconnect is ever asked for if and only if no message is about the product, or the first that is opens with a snapshot and no other message comes between two that are; then each of these is shown |
| `CoinbaseNumbering.RunGivesUpExactly` | exchange/coinbase/local_order_book.go:124-239 | in a whole run, whatever came before, such a connection never ends the run, and leaves the gap count as it was exactly under that condition |
| `CoinbaseNumbering.NumberDecides` | exchange/coinbase/local_order_book.go:175-182 | with a remembered number a message about the product is shown when its number is the next, a gap when it is later, and ignored otherwise |
| `CoinbaseNumbering.InvalidMessagesEndTheRun` | exchange/coinbase/local_order_book.go:125-191 | error messages, undecodable data, negative numbers, unreadable times and invalid events end the run |
| `CoinbaseNumbering.OthersAreInvisible` | exchange/coinbase/local_order_book.go:124-171 | a message of another channel changes nothing in any state; one about other products changes nothing but to enter a new connection, whatever number it carries |
| `CoinbaseNumbering.HeartbeatLooksLikeAGap` | exchange/coinbase/websocket.go:629-631 | snapshot, heartbeat, update of one product, numbered 0, 1, 2: the update makes the processor give the connection up |
| `CoinbaseNumbering.OtherProductLooksLikeAGap` | exchange/coinbase/local_order_book.go:168-182 | the same with a level2 message about another product in the middle |
| `CoinbaseNumbering.LeadingHeartbeatIsHarmless` | exchange/coinbase/websocket.go:629-631 | heartbeat, snapshot, update, numbered 0, 1, 2: the connection is kept |
| `CoinbaseProcessor.LocalOrderBookProcessor.Handle` | exchange/coinbase/local_order_book.go:124-148 | the closure around the processor: error messages end the run, other channels are ignored, the rest is processed |
| `CoinbaseProcessor.ParseUpdate` | exchange/coinbase/local_order_book.go:288-309 | accepts exactly updates with a known side, a valid row and a readable event time |
| `CoinbaseProcessor.LocalOrderBookState.Apply` | exchange/coinbase/local_order_book.go:253-286 | the loop over mixed sides replays the updates in place; fails exactly on an invalid update |
| `CoinbaseProcessor.LocalOrderBookProcessor.FilterEvents` | exchange/coinbase/local_order_book.go:222-232 | keeps exactly the product's events, in order |
| `CoinbaseProcessor.LocalOrderBookProcessor.ValidateEvent` | exchange/coinbase/local_order_book.go:241-251 | accepts exactly valid events |
| `CoinbaseProcessor.LocalOrderBookProcessor.Process` | exchange/coinbase/local_order_book.go:151-220 | the object's fields, the view and the two flags are those of the transition, also when an event in the middle of a message ends it |
| `CoinbaseProcessor.LocalOrderBookProcessor.TakeEvents` | exchange/coinbase/local_order_book.go:186-212 | the loop over the events stops at the first that ends it and keeps what came before |
| `ChargeNormalization.NormalizeCharges` | ratelimit/limiter.go:312-327 | an error exactly for a blank key or units that are not positive; otherwise one charge per trimmed key, ascending, with the 64-bit sum of its units |
| `ChargeNormalization.CombineCharges` | ratelimit/limiter.go:313-320 | the first loop adds up equal trimmed keys in 64 bits and fails exactly on an invalid charge |
| `ChargeNormalization.AscendingKeysAreDistinct` | ratelimit/limiter.go:325 | ascending keys are distinct keys |
| `ChargeNormalization.ExactIffTotalFits` | ratelimit/limiter.go:319 | a normalised charge is what the caller asked for exactly when the total fits in 64 bits |
| `ChargeNormalization.HugeChargesWrap` | ratelimit/limiter.go:312-327 | two valid charges that are normalised to the smallest 64-bit number |
| `ChargeSafety.NormalizedIsExact` | ratelimit/limiter.go:312-327 | when no key's total leaves 64 bits, normalisation gives distinct keys, each charged what the caller wrote |
| `ChargeSafety.CallersStayWithinLimit` | ratelimit/limiter.go:90-222 | over every run in lock order of whatever callers wrote, if no total leaves 64 bits, no window ever holds more acquired units than its rule allows |
| `ChargeSafety.HugeChargesLowerUsage` | ratelimit/limiter.go:186-222 | without that condition it fails: a rule that is used up and not blocked grants two valid charges of together 2^63 units at once and its count falls by 2^63 |
| `LimitRuns.ExpirationIsExact` | ratelimit/limiter.go:224-232 | the search finds an event whenever enough units are held, never falls through, and its time is the first by which enough units have left |
| `LimitRuns.ChargeWaitIsExact` | ratelimit/limiter.go:202-211 | one charge fits at a later instant exactly from the wait the code computes, which lies in the future |
| `LimitRuns.CheckIsExact` | ratelimit/limiter.go:190-215 | the combined wait of all charges is exact |
| `LimitRuns.WaitIsExact` | ratelimit/limiter.go:186-222 | the multi-key charge is granted exactly when every charge fits, and a refusal names the least time at which it would be |
| `LimitRuns.CheckErrors` | ratelimit/limiter.go:191-201 | unknown rules and oversized charges are reported, and only those |
| `LimitRuns.AdmissibleMeans` | ratelimit/limiter.go:191-201 | a charge list is admissible exactly when each charge has units, a rule and fits its limit |
| `LimitRuns.AllFitMeans` | ratelimit/limiter.go:202-215 | a charge list fits at an instant exactly when each of its charges does |
| `LimitSafety.NoWindowExceedsLimit` | ratelimit/limiter.go:146-222 | over every run of rule changes, acquisitions, reports, blocks and reads, for every rule and every instant, the units acquired in the window before it since the rule's last change never exceed the limit |
| `LimitSafety.RefusalIsExact` | ratelimit/limiter.go:186-222 | in every reachable state a refusal names the exact future instant from which the charge succeeds if nobody else acts |
| `LimitSafety.RefusalChargesNothing` | ratelimit/limiter.go:213-222 | a refused or rejected acquisition adds no usage to any rule |
| `LimitSafety.ReportOnlyRaises` | ratelimit/limiter.go:252-270 | an external report can only raise the count, and raises it to what it says |
| `LimitSafety.BlockRaises` | ratelimit/limiter.go:284-293 | a block never shortens another and covers every named rule |
| `LimitSafety.BlockLasts` | ratelimit/limiter.go:146-295 | nothing but a change of the rule itself shortens a block |
| `LimitSafety.BlockedIsRefused` | ratelimit/limiter.go:202-215 | while a rule is blocked no charge that includes it is granted |
| `LimitReference.RunRefines` | ratelimit/limiter.go:146-310 | over every run the limiter stays in step with a reference that keeps every unit ever charged or reported and every block |
| `LimitReference.GrantedExactlyWhenFitting` | ratelimit/limiter.go:186-222 | after every run an acquisition is granted if and only if each charge has a rule that is not blocked and room in its window, counting all that was charged or reported since the rule last changed |
| `LimitReference.ReadingIsExact` | ratelimit/limiter.go:297-310 | what is read after every run: the rule, all units of its window, the time of the first of them, and the latest block |
| `LimitReference.BlockForIsExact` | ratelimit/limiter.go:272-295 | exactly the named rules are blocked, until the later of their old block and now + duration, and nothing else changes; a failing call changes nothing |
| `LimitReference.BlockLastsItsDuration` | ratelimit/limiter.go:186-295 | until now + duration no acquisition that names a blocked rule is granted, whatever happens in between except a change of that rule |
| `MemoryBackend.Memory.SetRule` | ratelimit/limiter.go:146-155 | stores the rule and empties its bucket exactly when the rule changed |
| `MemoryBackend.Memory.BucketFor` | ratelimit/limiter.go:234-250 | the dropping loop leaves the unexpired events and their count |
| `MemoryBackend.Memory.ExpirationOf` | ratelimit/limiter.go:224-232 | the loop computes the expiration the theorem speaks about |
| `MemoryBackend.Memory.TryAcquire` | ratelimit/limiter.go:186-222 | the two loops compute the atomic acquisition |
| `MemoryBackend.Memory.ObserveUsed` | ratelimit/limiter.go:252-270 | fails exactly for a negative count or an unknown rule, and changes the bucket as specified |
| `MemoryBackend.Memory.BlockFor` | ratelimit/limiter.go:272-295 | fails without any effect on an unknown rule, otherwise blocks every named rule |
| `MemoryBackend.Memory.ReadSnapshot` | ratelimit/limiter.go:297-310 | reports the rule, the time of its oldest unexpired usage, the usage and the block, or nothing for an unknown rule |
| `Session.Session.Begin` | stream/session.go:248-261 | the lock section of start, with its two errors |
| `Session.Session.Install` | stream/session.go:279-289 | the lock section of install; refused exactly after Close |
| `Session.Session.Remove` | stream/session.go:291-297 | removes only the connection it names |
| `Session.Session.ReconnectCause` | stream/session.go:299-307 | attributes and clears a request exactly for the installed connection |
| `Session.Session.Reconnect` | stream/session.go:210-224 | sets the request and names the connection to close, or says why there is none |
| `Session.Session.Close` | stream/session.go:226-246 | the lock section of Close, at most once effective |
| `Session.Session.Finish` | stream/session.go:263-277 | the lock section of finish |
| `SessionProtocol.RunKeepsInv` | stream/session.go:103-307 | every interleaving keeps the session invariant |
| `SessionProtocol.ReturnsWithEverythingClosed` | stream/session.go:103-177 | when Run has returned, every connection Connect ever returned is closed and none is installed |
| `SessionProtocol.GenerationCountsInstalls` | stream/session.go:279-289 | the generation is the number of installs and the installed connection is the newest |
| `SessionProtocol.NothingInstalledAfterClose` | stream/session.go:226-289 | once Close has had the lock, no connection is installed any more |
| `SessionProtocol.RequestsMeanTheirOwnConnection` | stream/session.go:210-307 | a reconnect request is only ever attributed to the connection it was made for, at most once |
| `SessionProtocol.RequestsAreHonoured` | stream/session.go:299-307 | unless the session was closed meanwhile, the end of a connection with a request is put down to it |
| `SessionProtocol.WritesGoToTheNewest` | stream/session.go:180-195 | in every reachable state a write goes to the newest installed connection, which Run still has to close, and to no other while that one is hooked up or consumed; it is refused as closed exactly after Close |
| `SessionProtocol.NeverDialsTooOften` | stream/session.go:381-390 | with a limit on attempts nothing is dialed after more failures in a row than that |
| `SessionProtocol.CloseMakesRunReturn` | stream/session.go:118-277 | after Close, Run has returned after at most eight more steps of its own, whatever other callers do |
| `SessionProgress.RunEndsOnlyForAReason` | stream/session.go:103-177 | over every run: Run ends only because the session was closed, the context had ended at a check, the handler failed, a wait was not resumed, or there were more failures in a row than the limit |
| `SessionProgress.ReasonMakesRunReturn` | stream/session.go:118-177 | and each of these reasons does make Run return, at most six steps of its own later |
| `SessionProgress.RunDialsAgain` | stream/session.go:118-177 | in an open session without such a reason, Run dials again from a failed dial, a failed hook or an ended connection, after the counted number of its own steps, whatever other callers do |
| `SessionProgress.RunConsumesAgain` | stream/session.go:118-177 | and consumes the new connection, installed, after at most nine, when dialing and the hook succeed |
| `SessionProgress.AttemptCountsFailures` | stream/session.go:118-176 | the attempt counter is the number of failed dials, failed hooks and ended connections since a hook last completed |
| `SessionProgress.CloseTakesEffect` | stream/session.go:226-246 | Close closes at once and leaves the connection in use to its caller; a second one does nothing |
| `SessionProgress.RequestTakesEffect` | stream/session.go:210-224 | a reconnect request is for the generation in use and leaves its connection to its caller |
| `SessionProgress.OlderConnectionsDisturbNothing` | stream/session.go:291-307 | removing or examining a connection that is no longer installed changes nothing, and a request is put down to a connection at most once |
| `MarketStreams.LimitKept` | exchange/binance/websocket.go:218-229 | a command that goes through keeps the remembered set within 1024 |
| `MarketStreams.RunKeepsInv` | exchange/binance/websocket.go:211-349 | every interleaving of commands with the session keeps the agreement invariant |
| `MarketStreams.SubscriptionsAgree` | exchange/binance/websocket.go:211-349 | whenever the command lock is free and the current connection's hook has completed, the connection has been told exactly the remembered streams; before that, never more |
| `MarketStreams.ConsumedConnectionsAreSubscribed` | stream/session.go:141-161 | a connection being consumed has completed its hook, and at most 1024 streams are remembered at any moment |
| `MarketStreams.WriteAgrees` | exchange/binance/websocket.go:236-244 | a sent command moves its connection as the remembered set will move, also when another connection was installed meanwhile |
| `MarketStreams.CommandKeepsItsPromise` | exchange/binance/websocket.go:211-278 | whatever sessions, hooks and other commands do between its steps, a command leaves the remembered set that `Subscribe` and `Unsubscribe` promise, its target told the same and no other connection anything; a failed write leaves both as they were |
| `MarketStreams.CommandMayEndEarly` | exchange/binance/websocket.go:211-278 | a command with nothing to send, without a target or given up leaves everything as it was |
| `MarketStreams.HookResubscribes` | exchange/binance/websocket.go:307-333 | whatever others do meanwhile, a hook that gets the command lock tells its connection all remembered streams and lets it be consumed, or fails with its write and tells it nothing |
| `MarketStream.ValidateMarketStreams` | exchange/binance/websocket.go:564-586 | accepts exactly one to 1024 distinct trimmed names without control characters |
| `MarketStream.MarketStream.Subscribe` | exchange/binance/websocket.go:211-245 | what is sent, the new remembered set, and that success means all names are remembered |
| `MarketStream.MarketStream.Unsubscribe` | exchange/binance/websocket.go:248-278 | what is sent, the new remembered set, and that success means no name is remembered |
| `MarketStream.MarketStream.Resubscribe` | exchange/binance/websocket.go:307-333 | the hook sends all remembered streams in one ascending list; it fails exactly when there are some and the write fails |
| `Candles.ByStartIsFirst` | unified/candles.go:36-47 | a start time counts exactly when some candle has it, with the first such candle |
| `Candles.BucketStart` | unified/candles.go:57 | the bucket start is a multiple of the interval at most one interval before the time |
| `Candles.WinnerWins` | unified/candles.go:75-88 | the running high (or low) is the numeric extreme, the oldest of equal ones |
| `Candles.TotalIsSum` | unified/candles.go:90 | the running volume is the exact sum at the longest fraction |
| `Candles.ResultsSummarise` | unified/candles.go:54-107 | every result is aligned and summarises exactly the counted candles of its interval: open, close, high, low and exact volume |
| `Candles.ResultsNewestFirst` | unified/candles.go:94-107 | at most `limit` results, strictly newest first |
| `Candles.ResultsAreNewest` | unified/candles.go:94-107 | a counted candle is inside one of the results, unless there are `limit` of them and all begin after it |
| `Candles.OrderDoesNotMatter` | unified/candles.go:29-109 | the same candles in any order, repeated or not, give the identical result |
| `CandleAggregation.KeepFirst` | unified/candles.go:36-47 | the first loop keeps the first candle of each time and fails exactly on a negative time |
| `CandleAggregation.Merge` | unified/candles.go:75-90 | merging a further candle fails exactly on a text that is no decimal and otherwise compares and adds exactly |
| `CandleAggregation.FoldBuckets` | unified/candles.go:54-93 | the second loop succeeds exactly when every counted candle is numeric and then holds every bucket |
| `CandleAggregation.ListNewest` | unified/candles.go:94-107 | the sorted and cut keys give the newest buckets, whatever order the map has |
| `CandleAggregation.SortedKeysAreBuckets` | unified/candles.go:94-98 | sorting the map's keys in whatever order gives the buckets from the newest |
| `CandleAggregation.AggregateCandles` | unified/candles.go:29-109 | success exactly for a positive whole number of milliseconds, a positive limit and usable candles; then the result the lemmas speak about |
| `Constraints.IncrementIsExact` | unified/constraints.go:11-19 | the increment for p places, shifted p places, is exactly one |
| `Constraints.MultipleMeans` | unified/constraints.go:79-82 | the quotient is an integer exactly when the value is a whole number of increments |
| `Constraints.AcceptedDigits` | unified/constraints.go:67-84 | with the increment of p places a decimal is accepted exactly when every fraction digit after position p is zero |
| `Constraints.ProductIsExact` | unified/constraints.go:104-114 | the notional is the exact product of the two values |
| `Constraints.AcceptedMeans` | unified/constraints.go:23-65 | an order is accepted exactly when it is well formed, for this market, in whole increments and at least every minimum, in exact arithmetic |
| `Constraints.AcceptedLimitOrder` | unified/constraints.go:23-65 | an accepted limit order has no digits behind the market's places |
| `Constraints.AcceptedNotional` | unified/constraints.go:51-63 | its exact notional is at least the minimum |
| `BybitBalance.Rescale` | exchange/bybit/unified.go:385-391 | every integer is brought to the common scale in place |
| `BybitBalance.ParseAll` | exchange/bybit/unified.go:362-384 | fails exactly on a text that is no decimal; otherwise the integers, scales and the longest fraction |
| `BybitBalance.Subtract` | exchange/bybit/unified.go:392-395 | the first integer less the sum of the others |
| `BybitBalance.DifferenceDenotes` | exchange/bybit/unified.go:392-398 | the integers at one scale decide and subtract exactly as the values do |
| `BybitBalance.ReadMeans` | exchange/bybit/unified.go:362-372 | an empty text counts as zero, any other as itself |
| `BybitBalance.SubtractBybitDecimals` | exchange/bybit/unified.go:361-408 | success exactly when all texts are decimals and the subtrahends are worth at most the minuend; then result plus subtrahends is the minuend, with empty texts read as zero |
| `BybitBalance.BybitSpotAvailable` | exchange/bybit/unified.go:353-359 | available plus borrowed plus locked is the wallet balance |
| `Backoff.ExponentialBackoff` | stream/session.go:451-471 | min(maximum, minimum·2^(attempt-1)) for every attempt, with no overflow on the way, and zero for an unusable configuration |
| `Backoff.RetryCeiling` | exchange/executor.go:281-292 | the same formula for the executor's ceiling |
| `Backoff.FullJitterBackoff` | stream/session.go:475-484 | panics exactly when the maximum is the largest duration and the doubled minimum reaches it; otherwise the delay lies between zero and the exponential one |
| `Backoff.RetryDelay` | exchange/executor.go:281-298 | the same for the wait after an attempt under an accepted policy |
| `Backoff.SessionAlwaysDrawsIff` | stream/session.go:475-484 | for every minimum from one nanosecond up to the maximum: no attempt panics if and only if the maximum is below the largest duration |
| `Backoff.SixtyFourthAttemptPanics` | stream/session.go:475-484 | from one nanosecond to the largest duration the 64th attempt is the first that panics |
| `Backoff.PolicyAlwaysWaitsIff` | exchange/executor.go:271-295 | no wait of an accepted policy panics if and only if its maximum is below the largest duration, it allows one attempt, or its base does not reach the largest duration by the last wait |
| `Backoff.LargestPolicyPanics` | exchange/executor.go:271-295 | a policy of two attempts with both delays at the largest duration is accepted and panics |
| `Backoff.DelayBounds` | stream/session.go:391-400 | the reconnect delay is between zero and the maximum, at least the shorter of the maximum and either wish, and no longer than both wishes |
| `Backoff.WaitsAsAskedIff` | stream/session.go:391-400 | the session honours a Retry-After of so many seconds in every configuration exactly when the seconds fit a duration |
| `Backoff.LongHeaderIsIgnored` | stream/session.go:486-494 | a header for which only the backoff is waited |
| `Backoff.DateIsWaitedFor` | stream/session.go:391-500 | a date ahead is waited for up to the maximum; one that has passed or an unreadable header leaves the backoff alone |
| `Backoff.BlockDuration` | exchange/executor.go:409-417 | how long a rate-limit answer blocks: the seconds it names while they fit, the time to its date, or one second |
| `Executor.ExecuteAttempt` | exchange/executor.go:194-269 | asks limiter, builder, sender and body reader in this order, each only after the one before succeeded, and returns what the answers amount to; the trace holds every call made |
| `Executor.Execute` | exchange/executor.go:151-192 | built on it, the loop yields the specified result and trace, and the return behind it is never reached |
| `Executor.SendsAreAcquired` | exchange/executor.go:194-269 | in the trace of every execution each send comes right after its own build and acquisition, and a block of the limiter's keys only after a response was read |
| `Executor.SentAtMost` | exchange/executor.go:168-192 | a mutation is sent at most once and a read at most as often as the policy allows, never more often than the limiter was asked |
| `Executor.MutationErrors` | exchange/executor.go:348-391 | a retryable error for a mutation means nothing was sent; an error after sending says the state is unknown or the route does not exist |
| `Executor.ReadStopsWhenSettled` | exchange/executor.go:179-191 | on the script alone: a read goes on exactly while attempts are left, the last one is worth repeating and the wait completes; the limiter is asked once per attempt, and the caller gets what the last attempt came to, or a timeout when a wait was cut short |
| `Executor.RetriedExactly` | exchange/executor.go:225-269 | an attempt asks for another exactly for a read that was answered completely with 408, 425, 500, 502, 503 or 504, or whose request or answer was lost, though not for want of a route, while the caller still waits |
| `Executor.AnswerOf` | exchange/executor.go:194-269 | the status of a complete answer, or the error of the first of the four parts that failed |
| `Executor.SuccessEndsTheExecution` | exchange/executor.go:168-192 | a complete 2xx answer ends a read or a mutation with its status and exactly one more send |
| `Executor.MutationIsAttemptedOnce` | exchange/executor.go:168-192 | a mutation is attempted once, whatever comes of it |
| `Executor.CallsAre` | exchange/executor.go:194-269 | the exact calls of every attempt; keys are held back exactly after a complete 429 or 418 |

## Left out

- Goroutine scheduling, channels and timers: the order of arrivals and of lock sections is free instead. Loops that only sleep (`memoryBackend.Wait`, `waitCommandSlot`) are not modelled; what decides how long they sleep is.
- HTTP, JSON, signing, URL building, subscription acknowledgements and pong or control frames: decoded messages are inputs. `RFC3339` and HTTP-date parsing are inputs too: a time text carries whether it parses.
- `uint64` counters (generation, synchronisation and gap counts) are unbounded.
- DepthSyncRuns.PublishesExchangeBook: takes snapshots as complete; what lies behind a snapshot's own depth limit is not modelled.
- BitgetOrderBook.PublishesExchangeBook: takes snapshots as complete, likewise.
- CoinbaseExchange.PublishesExchangeBook: takes snapshots as complete and each update as one change of the exchange's log.
- MarketStreams.SubscriptionsAgree: counts a write without an error as applied and one with an error as not; what the exchange then answers is not modelled.
- Buckets of the limiter are values in a map, so aliasing between the map and the pointer that `bucketFor` returns is not modelled.
- The limiter's results across a change of a rule, or with clocks that run backwards in lock order, are outside what the code guarantees.
- Run contexts and their cancellation are inputs of the steps that look at them.
- A Bitget reconnect that itself fails ends the run; the model lets the run go on.
- The texts of Bitget's optional fields are modelled as decoded, and a view shows the decoded maximum depth.
- Random jitter beyond its range, and ping timers.
- Bithumb and Coinone order books: per-message checks of complete snapshots.
- Bybit and Coinbase subscription managers: a partly failed command leaves wire and remembered set apart, so the Binance agreement does not hold for them.
- The request checks of `Execute` before its loop, the executor's observer, and which keys a rate-limit answer blocks: the trace only holds that the limiter is told to.
- BybitExchange.PublishesExchangeBook: a delta that continues the number of the present book is taken to come from the same run of the exchange's service; a restart that is not announced by a snapshot could not be noticed.
- `transport`, `credential`, `support`, `cmd` and `conformance`.

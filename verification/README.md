# Verification of the MEXC connector's stateful core

The connector downloads candle and funding-rate histories page by page, limits its own request
rate, keeps a queue of WebSocket subscriptions, and signs spot requests. This project models those
four pieces in Dafny and proves what they guarantee over whole runs. `dafny verify dfyconfig.toml`
checks everything.

## How the model is laid out

* `History.dfy` - a candle history is an ascending sequence; `Between` is the reference answer of
  every download ("all candles of [start, end]"), `Below` turns times into indices, `Merged` joins
  pages that arrive newest first.
* `SpotCandles.dfy` - the spot request rules and the download loop, for any server that answers with
  candles of the requested window. `Pages` and `Requests` specify the loop; `GetHistoricalPrices` is
  the loop. `SpotServers.dfy` states two contracts for the exchange: *suffix* (the newest candles of
  the window) and *forward* (the first candles from the start time, and the newest ones when no
  start time is sent). `SpotSuffix.dfy` and `SpotForward.dfy` hold the theorems for each,
  `SpotForwardDense.dfy` those of the second for dense histories.
* `FuturesCandles.dfy` - column responses, the futures download loop in seconds and its theorem;
  `ExchangeConnector.dfy` - the same call in milliseconds, end to end.
* `FundingRates.dfy` - the page loop with its early stop and the final sort.
* `RateLimiter.dfy` - the limiter as a class with a log of (recorded, released) times, used by one
  caller at a time; `ConcurrentLimiter.dfy` - the same critical sections as steps of any number of
  threads.
* `Subscriptions.dfy` - the session's fields and handlers as a class, tied to a step function with
  logs; `SubscriptionRuns.dfy` - what every run keeps; `SubscriptionReplies.dfy` - when a reply
  reaches its own request, and what de-duplication compares; `SubscriptionNulls.dfy` - when null is
  listed, and when queueing throws or is undefined; `SubscriptionEnds.dfy` - what ends a session.
* `QueryString.dfy`, `SignedRequest.dfy` - building, reading back and signing query strings.

Times are integers, prices and quantities are carried along unchanged, and the exchange, the clock
and the authentication code are parameters. A history is fixed for the length of a download.

## What turned out to hold, and what did not

* **Spot, suffix contract.** The download is always one contiguous piece of the history ending at
  the newest candle up to the end time. It equals "all candles of [start, end]" exactly when
  `SpotSuffix.Complete` holds: a short range always; a long one when the first page, which is asked
  for without a start time, does not reach below the start, and no gap below it is longer than
  1001 intervals. On a dense history that reaches the end time both always hold.
* **Spot, forward contract.** The follow-up window `[cur - 1000 I, cur]` is inclusive and can hold
  1001 candles; the newest of them is then never delivered. Above the same kind of gap as before, the
  download is exactly the history without those candles (`SpotForward.Lost`), and it is complete
  exactly when `SpotForward.Complete` holds. On a dense history the lost candles are known from their
  position, and nothing is lost exactly when at most 1000 candles of the range lie below the first
  page (a short range: when it does not hold 1001).
* **Futures.** A candle in range comes back exactly when a newer one is in range too. Through the
  connector one earlier candle can slip in, when the start is not a whole second; `RoundingHarmless`
  is the exact condition.
* **Funding rates.** Complete for every list that runs from new to old; for a list in any order exactly
  when no page that triggers the early stop is followed by a record in range.
* **Rate limiter.** A call sleeps exactly when the tenth request before it was recorded within the last
  1000 ms, until 1010 ms after that time. Not 10 but 11 releases fit into a closed window of 1000 ms,
  because the time recorded is the one before the sleep. Eleven fit exactly behind a request that was
  released later than it was recorded. With several threads at most ten requests are admitted *without
  sleeping* in any window, while the number of sleepers released at one instant has no bound.
* **Subscriptions.** In any run, requests queued by other threads in the middle of a read included,
  nothing is confirmed that was not accepted, and no request counts twice. A reply reaches the request
  it answers exactly when requests and replies take turns; a data event between them breaks this. A
  request that cannot be dumped as text is taken from the queue without being sent, and can then be
  confirmed by the reply to another one; everything confirmed was sent exactly when no success arrives
  while such a request is awaited. A success that comes when nothing is awaited lists null, which keeps
  every later request out unless a refusal takes it off again. Requests of the shape the stream
  manager builds are never recognised as duplicates: the comparison then asks a constant JSON object
  for a key it does not have, which the JSON library leaves undefined.
* **Signing.** Removing the signature from the final query leaves the signed text exactly when the
  caller's map held no signature before; as signing writes into that map, a second signing of the
  same map fails this.

The header of the spot client says that the last candle is removed
(include/vk/mexc/mexc_spot_rest_client.h:45); the code does not do so, and the model follows the code.

## Model

| member | source | states |
|---|---|---|
| SpotCandles.GetHistoricalPrices | src/mexc_spot_rest_client.cpp:136-201 | for each listed interval the loop asks the server of the name sent for that interval, ends whenever that server stays inside the requested window, writes exactly the specified pages, sends exactly the specified requests, and returns the written pages joined in reverse order of arrival |
| SpotCandles.StepIsNamedLength | src/mexc.cpp:12-64 | for every interval the step is the length that the text sent to the exchange names: its number times its unit |
| SpotCandles.ListedLengths | src/mexc.cpp:14-33 | the ten lengths in milliseconds |
| SpotCandles.NamesDiffer | src/mexc.cpp:39-64 | a listed interval is named differently from every other one |
| SpotCandles.AfterPage | src/mexc_spot_rest_client.cpp:171-198 | each page moves the loop to a request whose end is strictly earlier, and both logs agree with the specification before and after |
| SpotCandles.DownloadIsAscending | src/mexc_spot_rest_client.cpp:171-201 | with any such server whose pages are ascending the result is strictly ascending, holds nothing after the end, and nothing before the start when the first request names it |
| SpotCandles.UnlistedIntervalRepeats | src/mexc.cpp:34-35 | an interval outside the ten listed has step 0, and there is a server that makes the loop ask the same request for ever |
| SpotServers.ContractsAreHonest | src/mexc_spot_rest_client.cpp:91-121 | a server that meets either contract on the parameters actually sent stays inside the requested window |
| SpotServers.ContractsCanBeMet | src/mexc_spot_rest_client.cpp:153-165 | for every history there is a server of either contract |
| SpotServers.SuffixAnswerBelow | src/mexc_spot_rest_client.cpp:100-109 | which candles a follow-up request brings under the suffix contract, with start times of zero or less left out of the request |
| SpotServers.ForwardAnswerBelow | src/mexc_spot_rest_client.cpp:100-109 | the same under the forward contract |
| SpotSuffix.DownloadIsSegment | src/mexc_spot_rest_client.cpp:153-200 | for every history with spacing of at least one interval the result is a contiguous piece ending at the newest candle up to the end; what is missed lies below a gap of more than 1001 intervals, and extra candles come only from an unbounded first request |
| SpotSuffix.StopIndexSpec | src/mexc_spot_rest_client.cpp:189-197 | where the backward walk stops, and that it stops early exactly at such a gap |
| SpotSuffix.DownloadIsRangeIffComplete | src/mexc_spot_rest_client.cpp:153-200 | the result is all candles of [start, end] if and only if a condition on gaps and on the first page holds |
| SpotSuffix.DenseDownloadIsRange | src/mexc_spot_rest_client.cpp:153-200 | on a dense history reaching the end time nothing is lost and nothing extra comes back |
| SpotSuffix.IntervalDownloadIsRange | src/mexc_spot_rest_client.cpp:136-201 | for each listed interval, when the server answers the name sent with gapless candles of the length it names, exactly the range comes back |
| SpotSuffix.HoleLosesCandle | src/mexc_spot_rest_client.cpp:192-197 | a history with a hole of 1002 intervals whose oldest candle in range is not returned |
| SpotSuffix.CandleBeforeStart | src/mexc_spot_rest_client.cpp:160-164 | a history of two candles for which a long range returns one from before its start |
| SpotSuffix.RequestBound | src/mexc_spot_rest_client.cpp:171-198 | n candles in range of a dense history cost at most n/1000 + 2 requests |
| SpotForward.PageShape | src/mexc_spot_rest_client.cpp:192-197 | for every history with spacing of at least one interval a follow-up page is empty exactly when no candle is left in range or a gap of more than 1001 intervals hides it; it misses its newest candle exactly when the window is full with a positive start; otherwise it is everything from its oldest candle on |
| SpotForward.StopSpec | src/mexc_spot_rest_client.cpp:189-197 | where the walk stops, and that it stops early exactly at such a gap |
| SpotForward.LostSpec | src/mexc_spot_rest_client.cpp:192-197 | a candle lost on the way lies above the stop and is the newest one of a full window |
| SpotForward.DownloadIsExcept | src/mexc_spot_rest_client.cpp:153-200 | for every such history the result is the first page preceded by all candles down to the stop, without the newest one of each full window met on the way |
| SpotForward.DownloadIsRangeIffComplete | src/mexc_spot_rest_client.cpp:153-200 | the result is all candles of [start, end] if and only if a condition on gaps, full windows and the first page holds |
| SpotForwardDense.LostIsSkipped | src/mexc_spot_rest_client.cpp:192-197 | on a dense history the lost candles are those at the top of each 1001 counted down from the first page, while the window has a positive start |
| SpotForwardDense.DownloadIsKept | src/mexc_spot_rest_client.cpp:153-200 | on a dense history the result is the first page preceded by the range below it without those |
| SpotForwardDense.DownloadIsRangeIffComplete | src/mexc_spot_rest_client.cpp:153-200 | on a dense history the result is all candles of [start, end] if and only if the counts of candles involved meet a condition |
| SpotForwardDense.FullWindowLosesCandle | src/mexc_spot_rest_client.cpp:195-196 | 2002 candles without a gap, of which one is not returned |
| SpotForwardDense.ThousandIntervals | src/mexc_spot_rest_client.cpp:160-168 | a range of exactly 1000 intervals holds 1001 candles and comes back without the newest |
| SpotForwardDense.OverThousandIntervals | src/mexc_spot_rest_client.cpp:160-168 | a millisecond more, and all 1001 come back |
| FuturesCandles.FromJson | src/mexc_models.cpp:417-446 | columns become rows index by index, seconds become milliseconds, a missing or empty time column gives no rows |
| FuturesCandles.RowsOfColumns | src/mexc_models.cpp:435-445 | reading a response gives back the rows it carries if and only if they open on whole seconds |
| FuturesCandles.ContractCanBeMet | src/mexc_futures_rest_client.cpp:222-223 | sending the right rows as columns is a server of the contract the futures theorem asks for |
| FuturesCandles.GetHistoricalPrices | src/mexc_futures_rest_client.cpp:217-263 | the loop ends for every server inside the requested range, writes the specified pages and returns them joined, without the newest candle; when the server holds a history, a candle of it is in the result if and only if it opens at the start or later and a newer one opens up to the end, and the result is ascending |
| FuturesCandles.DepthFalls | src/mexc_futures_rest_client.cpp:246-253 | the range still to fetch strictly shrinks with every page |
| FuturesCandles.Collect | src/mexc_futures_rest_client.cpp:230-254 | stepping to one second before the oldest candle, with the strict test, loses nothing |
| FuturesCandles.DownloadIsRange | src/mexc_futures_rest_client.cpp:217-263 | for every start and end, equal and reversed ones included, the result is the reference answer of [start, end] without its newest candle |
| FuturesCandles.AllInRange | src/mexc_futures_rest_client.cpp:217-263 | the same from the history alone: exactly the candles in range that have a newer one in range, in ascending order |
| FuturesCandles.NothingAsked | src/mexc_futures_rest_client.cpp:226-228 | for an equal or reversed range no page is fetched, whatever the server would send |
| History.DropNewestBetween | src/mexc_futures_rest_client.cpp:256-260 | taking the last candle off leaves exactly those of the range that have a newer one in it |
| ExchangeConnector.GetHistoricalCandles | src/mexc_futures_exchange_connector.cpp:279-304 | converts milliseconds to seconds, downloads, and copies every candle in order; when the server holds a history, the bars are in ascending order copies, field by field, of exactly the candles that open after one second before the start and have a newer one up to the end |
| ExchangeConnector.CandlesOfRoundedRange | src/mexc_futures_exchange_connector.cpp:285-301 | end to end the result is the range from the start rounded to its second up to the end, without the newest |
| ExchangeConnector.BarsAnswer | src/mexc_futures_exchange_connector.cpp:285-301 | the same for every server of the contract, in milliseconds and from the history alone |
| ExchangeConnector.CandlesAreRangeIff | src/mexc_futures_exchange_connector.cpp:285-301 | it is the range asked for without the newest if and only if rounding lets no candle in; always when the start is a whole second |
| ExchangeConnector.StartInsideSecond | src/mexc_futures_exchange_connector.cpp:286-287 | a start in the middle of a second for which the candle from before it comes back and nothing should |
| FundingRates.GetHistoricalFundingRates | src/mexc_futures_exchange_connector.cpp:237-277 | the result is ascending and has one rate for each record in range of the pages fetched, with its symbol, rate and time, and no other; for each record of the whole list if and only if no page that triggers the early stop is followed by a record in range, so always for a list from new to old |
| FundingRates.KeepInRange | src/mexc_futures_exchange_connector.cpp:248-257 | filtering a page appends its records in range in order, as many as there are positions in range |
| FundingRates.InRangeCounts | src/mexc_futures_exchange_connector.cpp:248-257 | what is kept has one rate for each position in range, and each rate as often as its symbol, rate and time occur there |
| FundingRates.SortByFundingTime | src/mexc_futures_exchange_connector.cpp:271-274 | the sort returns an ascending arrangement of the same records |
| FundingRates.NothingAfterStop | src/mexc_futures_exchange_connector.cpp:259-268 | in a list from new to old no page after the stop holds a record in range |
| FundingRates.StopPageSpec | src/mexc_futures_exchange_connector.cpp:259-268 | the download passes every page before the first one whose last record settled before the start, and ends there or at the last page |
| FundingRates.CompleteIff | src/mexc_futures_exchange_connector.cpp:259-268 | for a list in any order the pages fetched hold the whole answer if and only if no page that triggers the early stop is followed by a record in range |
| FundingRates.UnsortedListLosesRecord | src/mexc_futures_exchange_connector.cpp:263-266 | a list of another order for which the early stop loses a record |
| RateLimiting.RateLimiter.Wait | src/mexc_futures_rest_client.cpp:28-50 | purges, records the time before the sleep, and keeps the log a run; the call goes on at once unless the tenth request before it was recorded within the last 1000 ms, and otherwise 1010 ms after that time |
| RateLimiting.SleepOfRun | src/mexc_futures_rest_client.cpp:34-44 | in every run the sleep found from the purged queue ends at the time that the log alone gives |
| RateLimiting.SleepBounds | src/mexc_spot_rest_client.cpp:37-51 | a full queue always makes the caller sleep, for 10 to 1010 ms, whatever the order of its entries |
| RateLimiting.CallIsBounded | src/mexc_spot_rest_client.cpp:32-54 | in every run at most ten entries remain after the purge, at most eleven are stored, and the sleep is bounded |
| RateLimiting.QueueOfRun | src/mexc_spot_rest_client.cpp:37-53 | the queue holds exactly the requests recorded within the window of the last one |
| RateLimiting.QueueIsSorted | src/mexc_spot_rest_client.cpp:37-53 | in every run the queue is in order of time |
| RateLimiting.TwelveReleasesSpan | src/mexc_futures_rest_client.cpp:28-50 | any twelve consecutive releases of any run span more than 1000 ms |
| RateLimiting.ElevenReleasesSpan | src/mexc_futures_rest_client.cpp:28-50 | behind a request that was not delayed, eleven already do |
| RateLimiting.ElevenFitIff | src/mexc_futures_rest_client.cpp:39-49 | a window opening with the last release can take ten more if and only if that request was delayed |
| RateLimiting.ElevenReached | src/mexc_futures_rest_client.cpp:39-49 | a run with eleven releases at one instant |
| ConcurrentLimiter.LegalRunsKeepInv | src/mexc_futures_rest_client.cpp:28-50 | every interleaving of threads keeps recent direct admissions in the queue, though sleepers push stale times out of order |
| ConcurrentLimiter.EnterSpec | src/mexc_futures_rest_client.cpp:34-49 | what a call does in any state, in numbers: which entries it drops, when it sleeps and until when |
| ConcurrentLimiter.QueueHoldsRecorded | src/mexc_futures_rest_client.cpp:34-49 | in every interleaving the queue holds only times recorded by requests let go, and each recorded time not older than 1000 ms exactly as often as it was recorded |
| ConcurrentLimiter.DirectAdmissionsBounded | src/mexc_futures_rest_client.cpp:28-50 | in every interleaving at most ten requests are admitted without sleeping in any closed 1000 ms window |
| ConcurrentLimiter.SleepersUnbounded | src/mexc_futures_rest_client.cpp:42-49 | for every n some run releases n sleepers at one instant |
| Subscriptions.WebSocketSession.WriteSubscription | src/mexc_futures_ws_session.cpp:44-57 | appends the request or leaves everything as it was, with the outcome of the first colliding entry |
| Subscriptions.WebSocketSession.ReadSubscription | src/mexc_futures_ws_session.cpp:59-76 | moves the front of the queue into the slot and returns its text, or nothing |
| Subscriptions.WebSocketSession.HandleApiControlMsg | src/mexc_futures_ws_session.cpp:90-112 | success appends the slot, failure removes its first copy, both empty the slot; data that is not a text throws before any change, and a refused request that cannot be dumped throws after its removal and before the slot is emptied |
| Subscriptions.WebSocketSession.FindSubscription | src/mexc_futures_ws_session.cpp:98-100 | the first occurrence, and that cutting it out is removing the first copy |
| Subscriptions.WebSocketSession.IsSubscribed | src/mexc_futures_ws_session.cpp:114-122 | true exactly for members of the confirmed list |
| Subscriptions.WebSocketSession.AsyncWrite | src/mexc_futures_ws_session.cpp:191-194 | the text is added to what has been written and one more write is outstanding |
| Subscriptions.WebSocketSession.OnHandshake | src/mexc_futures_ws_session.cpp:184-195 | the handshake writes once: the text of the first request queued, or an empty one |
| Subscriptions.WebSocketSession.OnWrite | src/mexc_futures_ws_session.cpp:197-208 | a completed write starts one read |
| Subscriptions.WebSocketSession.HandleMessage | src/mexc_futures_ws_session.cpp:213-245 | the first half of a completed read: the message is handled, or ends in an exception |
| Subscriptions.WebSocketSession.SendOrRead | src/mexc_futures_ws_session.cpp:247-262 | the second half, after the lock is released: the next request with a text is written, or a read starts; it closes with nothing subscribed and nothing to send |
| Subscriptions.WebSocketSession.OnRead | src/mexc_futures_ws_session.cpp:210-268 | without another thread in between the two halves follow each other, and after an exception the session closes instead of starting an operation |
| SubscriptionRuns.RunsKeepInv | src/mexc_futures_ws_session.cpp:44-268 | the invariants of the queue, the slot, the operations and the credits hold in every reachable state |
| SubscriptionRuns.NothingInvented | src/mexc_futures_ws_session.cpp:44-112 | in every reachable state confirmed, awaited and queued requests together fit into the accepted ones |
| SubscriptionRuns.QueueKeepsOrder | src/mexc_futures_ws_session.cpp:56-75 | accepted requests are the pulled ones followed by the queued ones, in order; the ones sent are exactly the pulled ones that have a text, in order; operations never overlap |
| SubscriptionRuns.RequestsGoOut | src/mexc_futures_ws_session.cpp:247-262 | while the session stays up the request at position p of the queue is taken by the (p+1)-th message handled and, when it has a text, sent right after those before it |
| SubscriptionReplies.AttributionIff | src/mexc_futures_ws_session.cpp:68-108 | in every run the k-th reply is credited to the k-th request sent, for every k, if and only if requests and replies take turns: k + 1 had been sent by then and the newest one taken was the last of them |
| SubscriptionReplies.ConfirmedIsFoldOfReplies | src/mexc_futures_ws_session.cpp:90-112 | then the confirmed list is the fold of the replies over the requests sent, and null is never stored |
| SubscriptionReplies.MisattributedReply | src/mexc_futures_ws_session.cpp:235-251 | a run in which a data event makes the session list the refused request instead of the confirmed one |
| SubscriptionReplies.AlwaysSentIff | src/mexc_futures_ws_session.cpp:66-108 | in every run everything confirmed was sent, at every moment, if and only if no success arrived while the slot held a request that cannot be dumped |
| SubscriptionReplies.PrintableRunsConfirmSent | src/mexc_futures_ws_session.cpp:66-108 | so it holds whenever all accepted requests can be dumped |
| SubscriptionReplies.UnsentConfirmed | src/mexc_futures_ws_session.cpp:66-108 | a run in which a request that was never sent is confirmed and the session stays up |
| SubscriptionReplies.NullEndsSubscribing | src/mexc_futures_ws_session.cpp:47-56 | once null is listed, no request is accepted in any continuation without a refusal |
| SubscriptionNulls.NullsOfRun | src/mexc_futures_ws_session.cpp:93-108 | in every run the list holds as many nulls as the replies credited to nobody call for |
| SubscriptionNulls.NullListedIff | src/mexc_futures_ws_session.cpp:93-108 | in a run without a refusal credited to nobody, null is listed if and only if some success was credited to nobody |
| SubscriptionNulls.NullStored | src/mexc_futures_ws_session.cpp:93-108 | a run with two requests sent and two successes that ends with the second one and null in the list |
| SubscriptionNulls.ThrowsIff | src/mexc_futures_ws_session.cpp:47-54 | queueing throws if and only if the first listed entry that does not differ is null |
| SubscriptionNulls.UndefinedIff | src/mexc_futures_ws_session.cpp:47-54 | it is undefined if and only if the first listed entry that does not differ lacks a key the comparison reads |
| SubscriptionEnds.EndedIff | src/mexc_futures_ws_session.cpp:184-268 | which failures, messages and refusals end a session, and that nothing else does |
| SubscriptionEnds.NothingAfterEnd | src/mexc_futures_ws_session.cpp:184-268 | after such a step nothing is sent, taken, answered or handled in any continuation |
| SubscriptionEnds.EndedStays | src/mexc_futures_ws_session.cpp:184-268 | an ended session can only queue requests |
| SubscriptionEnds.IgnoredGoesOn | src/mexc_futures_ws_session.cpp:230-262 | JSON that is no object, control messages without data and data events change no list; the session goes on with a write exactly when the next request has a text, and with a read otherwise |
| SubscriptionEnds.WritesThenReads | src/mexc_futures_ws_session.cpp:191-207 | the handshake starts a write, text or not, and a completed write starts a read |
| SubscriptionEnds.RefusalSpec | src/mexc_futures_ws_session.cpp:96-105 | a refusal takes one copy of what is awaited off the list and empties the slot, unless writing the log entry throws, which ends the session |
| SubscriptionReplies.TopLevelDeduplicates | src/mexc_futures_ws_session.cpp:48-54 | with method and symbol at the top level, duplicates are exactly equal pairs |
| SubscriptionReplies.StreamManagerNeverDeduplicates | src/mexc_event_models.cpp:37-42 | with the symbol under "param" nothing is recognised as a duplicate, and one confirmed entry of the same method makes the lookup undefined |
| QueryString.CreateQueryStr | src/mexc_http_spot_session.cpp:38-52 | appending with a trailing separator and taking it off gives the entries joined by '&' |
| QueryString.LessIff | src/mexc_http_spot_session.cpp:41 | keys are in the order of their characters, a shorter one before a longer one it begins |
| QueryString.RoundTripIff | src/mexc_http_spot_session.cpp:38-52 | splitting on '&' and the first '=' gives back the map if and only if no entry contains '&' and no key contains '=' |
| QueryString.SeparatorInValue | src/mexc_http_spot_session.cpp:41-46 | a map with '&' in a value that does not come back |
| QueryString.BuildInjective | src/mexc_http_spot_session.cpp:38-52 | such maps with equal query strings are equal |
| QueryString.EmptyOnlyForEmpty | src/mexc_http_spot_session.cpp:48-51 | the query string is empty only for the empty map |
| SignedRequest.Sign | src/mexc_http_spot_session.cpp:54-68 | signs the query string of the sorted map with the timestamp in it; afterwards the value under "signature" is the code of that text, the one under "timestamp" the time given, and every other key is as before |
| SignedRequest.CreateRequest | src/mexc_http_spot_session.cpp:70-91 | the target is the path, with "?" and the query of the map when that is not empty; a private call has put the time and the code of the signed text into the map, a public one has changed nothing |
| SignedRequest.PutSorted | src/mexc_http_spot_session.cpp:56-67 | inserting keeps the map in key order |
| SignedRequest.LookupPut | src/mexc_http_spot_session.cpp:56-67 | inserting changes the value under its own key only |
| SignedRequest.SignatureCoversRestIff | src/mexc_http_spot_session.cpp:54-82 | deleting the signature from the final map leaves exactly the signed text if and only if the caller's map held none before |
| SignedRequest.SecondSignatureCoversFirst | src/mexc_http_spot_session.cpp:54-68 | signing the same map twice always signs the first signature too |
| SignedRequest.ServerRebuildsSignedText | src/mexc_http_spot_session.cpp:54-82 | a server that parses the final query, deletes the signature and builds the rest gets the signed text |
| SignedRequest.ServerAccepts | src/mexc_http_spot_session.cpp:54-82 | and finds under "signature" the code it computes over that text, and the time under "timestamp" |
| SignedRequest.SignedEmptyMap | src/mexc_http_spot_session.cpp:38-68 | the query of a signed empty map, character by character |

## Left out

- HTTP, TLS, TCP, DNS, ping timers and buffers; only the order in which handlers start reads and writes is kept.
- JSON parsing and the value readers, which live in a submodule that is not part of this model; downloads start from parsed records.
- Decimal and double conversions of prices and rates; they are carried as real numbers and never computed with.
- 64-bit overflow: times are unbounded integers, while the source subtracts and multiplies 64-bit ones; millisecond timestamps of this era are far from the limits.
- Histories that change while they are being downloaded; the server is one function of the request.
- The rate limiter is not called inside the modelled downloads; it is modelled on its own.
- Month candles: the nominal step is 30 days, longer than February, so the spacing the spot theorems ask for does not hold across it.
- SpotCandles.GetHistoricalPrices: asks for a listed interval and for a server that stays inside the requested window, since with others the loop of the source need not end.
- FuturesCandles.GetHistoricalPrices: asks for a server that stays inside the requested range, for the same reason.
- FundingRates.GetHistoricalFundingRates: asks for a server that pages one fixed list in thousands; its total page count is then right and never changes.
- FuturesCandles.FromJson: asks for value columns as long as the time column, because the source reads past a shorter one.
- Subscriptions.WebSocketSession.WriteSubscription: an outcome that the JSON library leaves undefined is reported as such and ends a run; null, array and scalar requests are not modelled.
- Failed writes: a request counts as sent once its text is handed to the socket; after a failed write the session starts nothing more.
- The stream manager's caches, the client's threads, field-copying conversions, order placement and the futures HTTP session, whose query builder repeats the spot one: only easy members.

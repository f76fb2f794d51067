# A verified model of the gateway's billing and routing core

The gateway sells access to model-serving nodes: it limits callers, holds money for a request, picks a node, pays it
with a probabilistic ticket, and bills what the node reports. This project models the parts of it that keep state or
do arithmetic, and proves what they promise. `dafny verify dfyconfig.toml` checks all of it.

| file | models |
|---|---|
| `Wire.dfy`, `Messages.dfy`, `Codec.dfy` | the payment messages on the wire: byte layer, decoded and encoded values, the generated decode loops and encoders |
| `Convert.dfy` | bigints and hex strings of the domain to and from wire bytes |
| `SlidingWindow.dfy`, `Semaphore.dfy`, `RateLimiter.dfy` | the rate limiter: a sorted-set window, a shared slot counter, and their composition |
| `CircuitBreaker.dfy`, `Router.dfy`, `Retry.dfy` | the per-node circuit breaker, the weighted pick, the retry loop |
| `Pricing.dfy`, `Wallet.dfy`, `Dispatch.dfy`, `Streaming.dfy` | prices, the prepaid wallet, and the reserve, commit and refund lifecycle of the two chat dispatchers |
| `Glob.dfy`, `RateCard.dfy` | globs compiled to regular expressions, and the resolution of models on the rate card |
| `Sessions.dfy` | the cache of paid sessions |
| `Wrappers.dfy`, `Filters.dfy`, `Decimals.dfy`, `Division.dfy` | shared: optional values and thrown errors, filtered lists, decimal digits, division |

Code that updates state in place is modelled by classes and methods with loops; each is proved to compute a
specification function, and the properties are lemmas about that function. Each such function is pinned by lemmas that
do not go through it: element by element, by numbers, or by the events that led there. Concurrency is modelled by step systems:
a state, the steps that are enabled in it, and runs of any steps in any order. Clocks, random draws, node replies,
Redis failures and database failures are inputs.

Messages share one decode function over a sum type of the five messages (`Messages.DecodeFields`), so that round
trip and forward compatibility are proved once for all of them. A message in range is one the encoder does not throw
on: integers that fit their wire type and parts shorter than 2^32 bytes.

Where a property does not hold of the code as written, the model keeps the code and states exactly when it does:

- A regular expression's `.` matches no line terminator, so a glob means what it says on an input if and only if the
  input has none (`Glob.AgreesExactlyOnOneLine`).
- The input-only price and the partial-stream price floor to micro-cents before they round up, and so charge a cent
  less than the exact ceiling under the stated conditions (`Pricing.InputOnlyAgreement`, `Pricing.PartialAgreement`).
- The semaphore's key has a time to live. An expiry can let more requests than the limit hold a slot if and only if the
  limit is positive and a request is in flight (`Semaphore.ExpiryBreaksLimitExactly`); the counter still never goes
  negative.
- A window's key that is lost before its admissions leave the window lets the next call tell, and only then
  (`SlidingWindow.LossUnobservableExactly`).
- A failure reported on an open circuit makes the node degraded, hence selectable again; from the threshold on each
  further failure flips between the two, except those that answer a probe (`CircuitBreaker.TraceCharacterised`).
- A node of weight 0 is selected if and only if it is the first eligible one and the draw or the total is 0
  (`Router.ZeroWeightSelectedExactly`).
- A transcription's hold is capped at an hour. The bill fits it exactly as long as seconds times rate do
  (`Pricing.ReservationCoversTranscription`), which a long recording does not (`Pricing.LongTranscriptionExceedsHold`).
- The wallet overwrites a reservation under a work id that is used again, and loses its hold if that was open
  (`Wallet.ReserveKeepsWorth`). Dispatchers make fresh work ids.
- A win probability given in decimal comes back from the wire in hex (`Convert.WinProbRoundTrip`), and hex strings
  come back only if they are `0x` and an even number of digits (`Convert.HexRoundTrip`).
- A streaming dispatch sends no end marker if and only if it does not stream or the price it settles by is gone
  (`Streaming.EndMarkerExactly`). It leaves its hold open if and only if the retry loop throws, that price is gone, or
  the wallet call is lost (`Streaming.StreamClosesHold`).

The comment above the sliding-window script says that entries older than the window are purged; the code also purges
one that is exactly as old as the window, and the model follows the code.

## Model

| member | source | states |
|---|---|---|
| Wire.Uint32Reads | src/providers/payerDaemon/gen/livepeer/payments/v1/types.ts:161 | a varint written for an unsigned 32-bit value reads back as that value, and reading ends right behind it |
| Wire.Int64Reads | src/providers/payerDaemon/gen/livepeer/payments/v1/types.ts:168 | the same for signed 64-bit values in two's complement, negative ones included |
| Wire.SkipsRecord | src/providers/payerDaemon/gen/livepeer/payments/v1/types.ts:199 | skipping consumes exactly the body of any well-formed record, groups nested to any depth included |
| Wire.VarintDigits | src/providers/payerDaemon/gen/livepeer/payments/v1/types.ts:137 | byte i of a written varint holds the i-th group of seven bits, least significant first, with the high bit set on all but the last |
| Wire.ReadsGroups | src/providers/payerDaemon/gen/livepeer/payments/v1/types.ts:161 | any varint, also one longer than needed, reads as the number whose groups it holds |
| Wire.VarintFailsExactly | src/providers/payerDaemon/gen/livepeer/payments/v1/types.ts:161 | reading fails if and only if no byte within ten ends the varint: for want of bytes, or as too long |
| Wire.IntegersKeepLowBits | src/providers/payerDaemon/gen/livepeer/payments/v1/types.ts:161-187 | an unsigned field is the low 32 bits of its varint, a signed one the low 64 in two's complement |
| Wire.RecordLayout | src/providers/payerDaemon/gen/livepeer/payments/v1/types.ts:134-154 | the bytes of a record of each wire type: field number times eight plus wire type, then the framed body |
| Wire.SkipByWireType | src/providers/payerDaemon/gen/livepeer/payments/v1/types.ts:199 | how far each wire type is skipped; the end of a group and unused types are refused |
| Messages.DecodeFieldsLocal | src/providers/payerDaemon/gen/livepeer/payments/v1/types.ts:289-359 | a message that decodes inside its length prefix decodes to the same value wherever it is nested |
| Messages.DecodeIgnoresUnknown | src/providers/payerDaemon/gen/livepeer/payments/v1/types.ts:352-356 | the decode loop over any well-formed records, whose known ones read cleanly, gives the value it gives with the unknown ones taken out, and still consumes every byte |
| Messages.DecodeFolds | src/providers/payerDaemon/gen/livepeer/payments/v1/types.ts:634-688 | the decode loop over the bytes of well-formed records is the fold of the records' effects, and ends where they end |
| Messages.RecordsAreKnown | src/providers/payerDaemon/gen/livepeer/payments/v1/types.ts:615-632 | every record an encoder writes is well formed and has a tag its decoder has a case for |
| Messages.PriceLayout | src/providers/payerDaemon/gen/livepeer/payments/v1/types.ts:134-154 | which field stands under which number, exactly those that are not at their default, in field order |
| Messages.ExpirationLayout | src/providers/payerDaemon/gen/livepeer/payments/v1/types.ts:522-533 | the same for expiration params |
| Messages.SenderLayout | src/providers/payerDaemon/gen/livepeer/payments/v1/types.ts:442-450 | the same for sender params |
| Messages.ParamsLayout | src/providers/payerDaemon/gen/livepeer/payments/v1/types.ts:264-287 | the same for ticket params and their submessage |
| Messages.SendersLayout | src/providers/payerDaemon/gen/livepeer/payments/v1/types.ts:625-627 | ticket i of a payment is its i-th record of number 4 |
| Messages.PaymentLayout | src/providers/payerDaemon/gen/livepeer/payments/v1/types.ts:615-632 | which field of a payment stands under which number, in field order, and one record for every ticket |
| Messages.RangesExactly | src/providers/payerDaemon/gen/livepeer/payments/v1/types.ts:134-154 | the ranges outside of which an encoder throws, in numbers |
| Messages.RoundTrip | src/providers/payerDaemon/gen/livepeer/payments/v1/types.ts:614-688 | for each of the five messages in range, decoding what was encoded returns the message and consumes exactly the bytes written: nested submessages, repeated tickets, absent versus empty submessages and omitted defaults included |
| Messages.RoundTripInside | src/providers/payerDaemon/gen/livepeer/payments/v1/types.ts:634-637 | the same inside any buffer, given where the message starts and how long it is |
| Messages.EncodeInjective | src/providers/payerDaemon/gen/livepeer/payments/v1/types.ts:614-632 | no two messages of one kind are written as the same bytes |
| Messages.DecodesSpliced | src/providers/payerDaemon/gen/livepeer/payments/v1/types.ts:289-359 | forward compatibility: well-formed foreign records spliced in at record boundaries, at the top and inside submessages to any depth, leave the decoded message unchanged |
| Messages.WrittenIsSpliced | src/providers/payerDaemon/gen/livepeer/payments/v1/types.ts:264-287 | what an encoder writes meets the premise of forward compatibility, with nothing spliced in |
| Codec.DecodePriceInfo | src/providers/payerDaemon/gen/livepeer/payments/v1/types.ts:156-202 | the loop leaves the message and the reader position of the specified decoding, or fails with its error |
| Codec.DecodeTicketExpirationParams | src/providers/payerDaemon/gen/livepeer/payments/v1/types.ts:535-565 | the loop leaves the message and the reader position of the specified decoding, or fails with its error |
| Codec.DecodeTicketSenderParams | src/providers/payerDaemon/gen/livepeer/payments/v1/types.ts:452-482 | the loop leaves the message and the reader position of the specified decoding, or fails with its error |
| Codec.DecodeTicketParams | src/providers/payerDaemon/gen/livepeer/payments/v1/types.ts:289-359 | the loop, with its nested decoder, leaves the message and the reader position of the specified decoding, or fails with its error |
| Codec.DecodePayment | src/providers/payerDaemon/gen/livepeer/payments/v1/types.ts:634-688 | the loop, with its four nested decoders and the repeated tickets, leaves the message and the reader position of the specified decoding, or fails with its error |
| Codec.EncodePriceInfo | src/providers/payerDaemon/gen/livepeer/payments/v1/types.ts:134-154 | throws exactly on values out of range, else appends exactly the message's records |
| Codec.EncodeTicketExpirationParams | src/providers/payerDaemon/gen/livepeer/payments/v1/types.ts:522-533 | throws exactly on values out of range, else appends exactly the message's records |
| Codec.EncodeTicketSenderParams | src/providers/payerDaemon/gen/livepeer/payments/v1/types.ts:442-450 | throws exactly on values out of range, else appends exactly the message's records |
| Codec.EncodeTicketParams | src/providers/payerDaemon/gen/livepeer/payments/v1/types.ts:264-287 | throws exactly on values out of range, else appends exactly the message's records, the submessage behind its length |
| Codec.EncodeNestedTicketParams | src/providers/payerDaemon/gen/livepeer/payments/v1/types.ts:616-618 | fork and join put a submessage behind its tag and length and leave the outer writer as it was |
| Codec.EncodeAllTicketSenderParams | src/providers/payerDaemon/gen/livepeer/payments/v1/types.ts:625-627 | one record for each ticket, in order; throws exactly if one of them is out of range |
| Codec.EncodePayment | src/providers/payerDaemon/gen/livepeer/payments/v1/types.ts:615-632 | throws exactly on payments out of range, else appends exactly the payment's records |
| Codec.ReencodePayment | src/providers/payerDaemon/gen/livepeer/payments/v1/types.ts:614-688 | encoding into a new writer and decoding its whole buffer without a length gives the payment back, or throws exactly out of range |
| Codec.ReencodeTicketParams | src/providers/payerDaemon/gen/livepeer/payments/v1/types.ts:263-359 | the same for ticket params on their own |
| Convert.PaddedHexIsBigEndian | src/providers/payerDaemon/convert.ts:10-12 | hex digits padded to even length and read as bytes are the base-256 digits of the number |
| Convert.BytesValueIsValueOf | src/providers/payerDaemon/convert.ts:15-19 | reading bytes through their hex digits gives their value in base 256 |
| Convert.BigintRoundTrip | src/providers/payerDaemon/convert.ts:7-19 | every natural number survives the trip to bytes and back, and its bytes have no leading zero |
| Convert.BytesRoundTrip | src/providers/payerDaemon/convert.ts:7-19 | bytes survive the trip to a bigint and back if and only if they have no leading zero |
| Convert.BigEndianDigits | src/providers/payerDaemon/convert.ts:10-12 | the most significant byte comes first: each byte is its digit in base 256 |
| Convert.BytesToHexRoundTrip | src/providers/payerDaemon/convert.ts:21-28 | bytes survive the trip to hex and back |
| Convert.HexRoundTrip | src/providers/payerDaemon/convert.ts:21-28 | a string survives the trip to bytes and back, up to digit case, if and only if it is `0x` and an even number of hex digits |
| Convert.HexToBytesIsWritten | src/providers/payerDaemon/convert.ts:25-28 | a hex string, with or without its prefix, becomes the bytes whose digits it writes, high digit first, in the usual alphabet |
| Convert.FromHexStops | src/providers/payerDaemon/convert.ts:25-28 | of any other string exactly what stands before the first pair that is not two hex digits is read |
| Convert.WinProbRoundTrip | src/providers/payerDaemon/convert.ts:62-74 | a win probability comes back as it was, up to digit case, if and only if it is `0x` and an even number of hex digits: one given in decimal never does |
| Convert.WinProbBytes | src/providers/payerDaemon/convert.ts:62-70 | every natural number printed in decimal, with or without leading zeros, goes out as that number in base 256, and hex as the bytes it writes |
| Convert.HundredIsOneByte | src/providers/payerDaemon/convert.ts:62-70 | "100" goes out as the one byte 0x64 |
| Convert.WireFields | src/providers/payerDaemon/convert.ts:30-44 | each wire field carries its own domain field |
| Convert.DomainFields | src/providers/payerDaemon/convert.ts:46-60 | each domain field comes from its own wire field; absent expiration params become round 0 and an empty hash |
| Convert.DomainRoundTrip | src/providers/payerDaemon/convert.ts:30-60 | ticket params go to the wire form and back unchanged, up to hex case, if and only if all hex fields are well formed |
| Convert.DomainToWireThrows | src/providers/payerDaemon/convert.ts:7-8 | the conversion throws exactly on a negative amount or block |
| Convert.WireRoundTrip | src/providers/payerDaemon/convert.ts:30-60 | wire params go to the domain and back unchanged if and only if their integers have no leading zero and expiration params are present |
| Convert.EndToEnd | src/providers/payerDaemon/convert.ts:30-60 | domain, wire, bytes, wire, domain is the identity up to hex case, with every byte consumed |
| SlidingWindow.WindowStore.Run | src/service/rateLimit/slidingWindow.ts:7-29 | the script, step by step in place, leaves the sorted set and the reply of the specified run |
| SlidingWindow.TiedSteps | src/service/rateLimit/slidingWindow.ts:13-21 | one run of the script decides as the log of admissions does, and keeps the set a suffix of the log that misses nothing a later window counts |
| SlidingWindow.RunIsTied | src/service/rateLimit/slidingWindow.ts:7-29 | along any run with a nondecreasing clock, distinct members and keys that may expire once their time to live is over, the set stays tied to the log |
| SlidingWindow.AdmitsAsTheLogDoes | src/service/rateLimit/slidingWindow.ts:13-21 | refinement: a call is admitted if and only if fewer than `limit` admissions lie in (now - window, now], and the count it is told is theirs and its own |
| SlidingWindow.ReplyByLog | src/service/rateLimit/slidingWindow.ts:13-28 | the whole reply, and what is admitted, by the log of admissions alone |
| SlidingWindow.PurgeExactly | src/service/rateLimit/slidingWindow.ts:13 | the purge keeps exactly the entries newer than the window, of any sorted set |
| SlidingWindow.AddExactly | src/service/rateLimit/slidingWindow.ts:17 | adding puts in the member with its score in place of what was under it, keeps the rest, and keeps the order |
| SlidingWindow.TimeToLive | src/service/rateLimit/slidingWindow.ts:16-18 | an admission lets the key live one window more, a denial does not |
| SlidingWindow.WindowNeverOverfull | src/service/rateLimit/slidingWindow.ts:13-21 | no half-open interval of the window's length, wherever it starts, ever holds more than `limit` admissions |
| SlidingWindow.ExpiryUnobservable | src/service/rateLimit/slidingWindow.ts:18 | two runs with the same call times get the same replies, whenever their keys expired |
| SlidingWindow.LossUnobservableExactly | src/service/rateLimit/slidingWindow.ts:13-27 | whenever the key is lost, the next reply is unchanged if and only if no admission lies in the window that ends at it |
| SlidingWindow.ResetNamesOldest | src/service/rateLimit/slidingWindow.ts:22-27 | every reply, admitted or not, tells exactly when the oldest admission still in the window falls out of it |
| SlidingWindow.DenialLeavesFull | src/service/rateLimit/slidingWindow.ts:22-27 | on a denial with a positive limit the reset lies in (0, window] and is when the oldest of exactly `limit` entries falls out |
| SlidingWindow.RetryAfterExact | src/service/rateLimit/slidingWindow.ts:22-57 | after a denial and with no admission since, a call is admitted if and only if it comes at the reset time or later |
| SlidingWindow.ResetSecondsExact | src/service/rateLimit/slidingWindow.ts:56 | the reset in whole seconds is never too short and never a full second too long |
| Semaphore.SlotCounter.AcquireSlot | src/service/rateLimit/concurrency.ts:21-34 | undisturbed, a slot is taken if and only if fewer than the limit are, and a refusal leaves the counter as it was |
| Semaphore.SlotCounter.ReleaseSlot | src/service/rateLimit/concurrency.ts:35-37 | a release gives one slot back and never takes the counter below 0 |
| Semaphore.StepKeepsInv | src/service/rateLimit/concurrency.ts:21-37 | every command of every request, failed or not, and every expiry keeps the balance of counter, increments in flight, leaks and wiped increments |
| Semaphore.SlotSafety | src/service/rateLimit/concurrency.ts:5-37 | over every interleaving the counter is never negative and holders exceed the limit by at most the wiped increments; if the key expires only while no request is in flight, the counter is the increments in flight plus the leaks and at most `limit` requests hold a slot |
| Semaphore.SlotSafetyWithoutExpiry | src/service/rateLimit/concurrency.ts:5-37 | the two exact claims for every run without an expiry |
| Semaphore.CounterExactly | src/service/rateLimit/concurrency.ts:21-37 | without an expiry the counter is the requests in flight and one for every lost command that leaks |
| Semaphore.HoldsExactly | src/service/rateLimit/concurrency.ts:26-32 | a request that increments holds a slot if and only if the counter was below the limit |
| Semaphore.RefusedWhenFull | src/service/rateLimit/concurrency.ts:26-31 | a request is refused if and only if increments in flight and leaks already fill the limit |
| Semaphore.ExpiryBreaksLimitExactly | src/service/rateLimit/concurrency.ts:3-33 | after a run that kept the limit, an expiry lets some continuation without another one exceed the limit if and only if the limit is positive and a request was in flight, whether counted, refused or holding |
| Semaphore.LostKeyBreaksLimit | src/service/rateLimit/concurrency.ts:21-37 | from any state with a positive limit and a request in flight, the steps after the expiry that lead to more holders than the limit |
| Semaphore.ExpiryBreaksLimit | src/service/rateLimit/concurrency.ts:3-33 | for every positive limit some run from the start exceeds it |
| RateLimiter.Limiter.Acquire | src/service/rateLimit/concurrency.ts:21-34 | at which failures acquiring throws, and which of them leave an increment behind |
| RateLimiter.Limiter.Check | src/service/rateLimit/index.ts:42-126 | the windows and the counter are left, and the answer given, as specified; a check that does not fail open takes exactly one slot within the limit, a denied one none |
| RateLimiter.CheckDecided | src/service/rateLimit/index.ts:42-126 | the answer in every case, by the admissions its windows hold and the slots taken: without a fault the first full limit is named with its limit and retry-after, and a check that meets none passes without failing open and is told what remains |
| RateLimiter.FailsOpenExactly | src/service/rateLimit/index.ts:51-114 | a check fails open if and only if Redis fails at a step that it reaches |
| RateLimiter.PassesExactly | src/service/rateLimit/index.ts:42-126 | over runs without faults a check passes if and only if its minute and day hold fewer admissions than their limits and fewer than `concurrent` checks are unreleased |
| RateLimiter.SlotsAreUnreleased | src/service/rateLimit/index.ts:90-135 | without faults the counter is exactly the checks that passed and are not released |
| RateLimiter.AcquireIsARun | src/service/rateLimit/concurrency.ts:21-34 | an acquisition, failing anywhere, leaves the counter that its commands leave as steps of the semaphore |
| RateLimiter.ReleaseIsAStep | src/service/rateLimit/index.ts:128-135 | a release leaves the counter that its command leaves there, and nothing changes after a fail-open |
| RateLimiter.PassesWithinLimits | src/service/rateLimit/index.ts:42-135 | over every run of checks and releases with Redis failing anywhere, the checks that pass without failing open are at most `perMinute` in every minute and `perDay` in every day, and at most `concurrent` of them are unreleased |
| RateLimiter.WindowSeesItsCalls | src/service/rateLimit/index.ts:51-56 | each window is as if it alone had been called, by the checks whose script reached it |
| RateLimiter.Limiter.Release | src/service/rateLimit/index.ts:128-135 | gives back what a check took, and nothing after one that failed open |
| CircuitBreaker.TraceCharacterised | src/service/routing/circuitBreaker.ts:38-142 | over every event sequence, every field by the events alone: the failure count is the failures since the last success, healthy means none, from the threshold on failures that answer no probe alternate between open and degraded, half-open means open and probed since the last report a cool-down after the last failure, an open circuit is timed from the last failure and a degraded one past the threshold from the failure before |
| CircuitBreaker.OneFailureFromOpening | src/service/routing/circuitBreaker.ts:90-102 | the next failure opens the circuit if and only if it is not broken and the count reaches the threshold |
| CircuitBreaker.ProbeRefusedExactly | src/service/routing/circuitBreaker.ts:117-142 | a probe is refused if and only if the node is excluded or has a probe in flight, and by the events, if and only if the circuit is open and cools down or was probed since the last report |
| CircuitBreaker.ExcludedExactly | src/service/routing/circuitBreaker.ts:194-205 | by the events: a node is excluded if and only if its circuit is open and cools down since the last failure, probed or not |
| CircuitBreaker.TransitionExactly | src/service/routing/circuitBreaker.ts:38-142 | by the events: which report or probe makes which transition, and that no other does |
| CircuitBreaker.LogFitsState | src/service/routing/circuitBreaker.ts:38-142 | every transition log is of the language: first an opening, closings only directly after half-openings, after a closing only an opening |
| CircuitBreaker.OneProbeBetweenReports | src/service/routing/circuitBreaker.ts:132-141 | between two reports at most one half-open probe is granted, and none while one is in flight |
| CircuitBreaker.ObservableLogs | src/service/routing/circuitBreaker.ts:38-142 | a transition log can happen if and only if it is of that language |
| CircuitBreaker.NodesIndependent | src/service/routing/circuitBreaker.ts:152-185 | each node's state is that of its own events alone |
| CircuitBreaker.Breaker.State | src/service/routing/circuitBreaker.ts:158-165 | looking at a node starts it healthy and changes no other |
| CircuitBreaker.Breaker.ReportSuccess | src/service/routing/circuitBreaker.ts:167-171 | applies a success to that node alone and returns its transition |
| CircuitBreaker.Breaker.ReportFailure | src/service/routing/circuitBreaker.ts:173-177 | applies a failure to that node alone and returns its transition |
| CircuitBreaker.Breaker.AskProbe | src/service/routing/circuitBreaker.ts:179-185 | applies a probe to that node alone and returns its answer and transition |
| CircuitBreaker.Breaker.CurrentExclusions | src/service/routing/circuitBreaker.ts:194-205 | lists exactly the nodes that are broken and still cooling down, each once |
| Router.FilterEligible | src/service/routing/router.ts:49-50 | the candidates that are not excluded, in their order |
| Router.EligibleInOrder | src/service/routing/router.ts:50 | the eligible nodes are the candidates not excluded, each as often and in the order given |
| Router.PickWeighted | src/service/routing/router.ts:54-61 | the subtracting loop returns the node of the specified index |
| Router.SelectNode | src/service/routing/router.ts:38-62 | the node chosen is a candidate that is not excluded; it throws exactly if every candidate is excluded |
| Router.SelectsFirstToReach | src/service/routing/router.ts:54-61 | for any weights, negative ones included: the first node whose weights so far reach the pick, the first of all if none does or the total is 0 |
| Router.UnweightedIsUniform | src/service/routing/router.ts:54-60 | nodes without weights are drawn from uniformly |
| Router.PicksItsInterval | src/service/routing/router.ts:56-60 | a positive pick within the total selects a node if and only if it lies in the interval of its weight |
| Router.DrawsMatchWeight | src/service/routing/router.ts:54-60 | of the draws 1 to the total, exactly as many select a node as it weighs, so none selects a node of weight 0 |
| Router.SelectionByInterval | src/service/routing/router.ts:54-61 | with a draw strictly between 0 and 1 the chosen node has positive weight and the fallback behind the loop is not reached |
| Router.ZeroDrawTakesFirst | src/service/routing/router.ts:55-59 | a draw of 0, or a total of 0, takes the first eligible node |
| Router.ZeroWeightSelectedExactly | src/service/routing/router.ts:54-61 | a node of weight 0 is selected if and only if it comes first and the draw or the total is 0 |
| Retry.RunWithRetry | src/service/routing/retry.ts:75-116 | the loop returns the outcome, makes the attempts and leaves the breaker of the specified run |
| Retry.AttemptsInOrder | src/service/routing/retry.ts:82-98 | attempts are numbered in turn and never exceed `maxAttempts`, and each is told exactly the nodes blamed before it |
| Retry.NeverPicksExcluded | src/service/routing/retry.ts:83-100 | every attempted node was a candidate, not excluded when picked, and the one the draw selects, with the breaker as all reports up to then left it |
| Retry.StopsForAReason | src/service/routing/retry.ts:92-96 | a run returns the result of its last attempt, which was final or the last allowed, and no attempt before it was final |
| Retry.BreakerIsTold | src/service/routing/retry.ts:82-101 | the breaker is left as the outside events and one failure for every blamed attempt leave it, except that a run that returns does not report its last attempt |
| Retry.RunExtendsHistory | src/service/routing/retry.ts:82-101 | the same as one history of the breaker; a run throws only when every candidate of its last turn is excluded |
| Retry.NoAttemptAllowed | src/service/routing/retry.ts:108-115 | with no attempt allowed none is made and a failure is returned |
| Retry.PerNodeBound | src/service/routing/retry.ts:82-106 | in a run inside the cool-down without outside events, a node not broken at the start with F failures on record is attempted at most max(1, threshold - F) times, a broken one at most twice |
| Pricing.CostIsCeiling | src/service/pricing/index.ts:100-117 | the chat cost is the least number of cents that covers the exact price |
| Pricing.PartialIsCeiling | src/dispatch/streamingChatCompletion.ts:373-378 | the partial-stream charge is the least number of cents that covers both prices, each cut to micro-cents |
| Pricing.EstimateIsCeiling | src/service/pricing/index.ts:37-68 | a reservation is the least number of cents that covers the estimated prompt, at least one token, and the most completion tokens |
| Pricing.ActualIsCeiling | src/service/pricing/index.ts:75-92 | the cost of reported usage, likewise |
| Pricing.PerUnitCeilings | src/service/pricing/index.ts:197-285 | images and seconds cost the least number of cents that covers them |
| Pricing.CharactersAreTokens | src/service/pricing/index.ts:53 | three characters make a token, rounded up |
| Pricing.EstimatedSeconds | src/service/pricing/index.ts:249-261 | the estimated seconds cover the file at 8000 bytes a second, between one second and an hour, and no more |
| Pricing.InputOnlyAgreement | src/service/pricing/index.ts:155-159 | the input-only cost is the exact ceiling, except for one cent less if and only if 0 < tokens * rate mod 10^10 < 10^6 |
| Pricing.PartialAgreement | src/dispatch/streamingChatCompletion.ts:373-378 | the partial-stream charge never exceeds the chat cost and is at most one cent below it, with the exact condition for the cent |
| Pricing.CostMonotone | src/service/pricing/index.ts:100-117 | more tokens never cost less |
| Pricing.CostSubadditive | src/service/pricing/index.ts:100-117 | a split bill is never cheaper than the joint one and at most one cent dearer |
| Pricing.ReservationCoversChat | src/service/pricing/index.ts:37-92 | usage within the estimate never bills more than was reserved, by reported usage or by the partial charge |
| Pricing.ReservationCoversEmbeddings | src/service/pricing/index.ts:124-159 | an embeddings bill within the held tokens fits the hold; beyond them it fits if and only if its price stays below the hold and a micro-cent |
| Pricing.ReservationCoversSpeech | src/service/pricing/index.ts:207-239 | the same for speech characters, where no input characters hold nothing |
| Pricing.ReservationCoversImages | src/dispatch/images.ts:122-145 | an image bill fits its hold if and only if no more images came back than asked for, or images are free |
| Pricing.ReservationCoversTranscription | src/service/pricing/index.ts:249-285 | a transcription bill fits its hold if and only if seconds times rate do not exceed the held cents, which is so within the estimated seconds |
| Pricing.LongTranscriptionExceedsHold | src/service/pricing/index.ts:250-261 | because the estimate is capped at an hour, a recording priced a cent beyond that hour exceeds its hold whatever the file size |
| Pricing.TwoHoursExceedHold | src/service/pricing/index.ts:250-261 | two hours at 0.003 USD a minute do |
| Wallet.PrepaidWallet.DoReserve | examples/wallets/prepaid-usd.ts:34-48 | takes the amount from the balance and opens a hold, or throws with the wallet unchanged |
| Wallet.PrepaidWallet.DoCommit | examples/wallets/prepaid-usd.ts:50-60 | closes an open hold and gives back what was not billed; nothing for any other |
| Wallet.PrepaidWallet.DoRefund | examples/wallets/prepaid-usd.ts:62-69 | closes an open hold and gives all of it back; nothing for any other |
| Wallet.ReserveExactly | examples/wallets/prepaid-usd.ts:34-48 | a reservation succeeds if and only if the balance covers it, and what it then changes; a failure tells balance and need |
| Wallet.SettlesOnce | examples/wallets/prepaid-usd.ts:50-70 | settling closes that hold for good: nothing asked of it afterwards changes anything |
| Wallet.ReserveKeepsWorth | examples/wallets/prepaid-usd.ts:39-46 | reserving keeps balance plus open holds if and only if it overwrites no open hold of the caller |
| Wallet.CommitChargesExactly | examples/wallets/prepaid-usd.ts:50-60 | a commit lowers balance plus open holds by min(reserved, billed), and only its own caller's |
| Wallet.RefundKeepsWorth | examples/wallets/prepaid-usd.ts:62-69 | a refund keeps balance plus open holds of every caller |
| Wallet.RefundUndoesReserve | examples/wallets/prepaid-usd.ts:34-69 | a reservation and its refund leave every balance as it was |
| Wallet.LedgerConserved | examples/wallets/prepaid-usd.ts:33-70 | over every sequence of operations with distinct work ids, balance, open holds and charges of each caller add up to what it started with, and no balance goes negative |
| Dispatch.TryDispatch | src/dispatch/chatCompletion.ts:92-179 | what the try block leaves in the wallet, in `handle` and in `committed`, wherever it fails |
| Dispatch.DispatchChatCompletion | src/dispatch/chatCompletion.ts:63-190 | when it returns; what the caller pays in every case: min(reserved, billed) once the commit took effect, also if the dispatch then throws, else nothing, or the reservation if the refund is lost; the hold stays open if and only if the commit did not take effect and the refund was lost; no other caller or hold is touched |
| Dispatch.FirstFailureNamed | src/dispatch/chatCompletion.ts:95-133 | the error is that of the first step that failed |
| Dispatch.DispatchIsARun | src/dispatch/chatCompletion.ts:92-189 | a dispatch is a run of the step system, and leaves the ledger that its steps leave |
| Dispatch.StepKeepsInv | src/dispatch/chatCompletion.ts:92-189 | every step of every dispatch keeps the ledger the result of the calls made, with fresh work ids, and leaves no hold open behind a commit or a refund |
| Dispatch.DispatchesBalance | src/dispatch/chatCompletion.ts:92-189 | over every interleaving of dispatches with failures anywhere, each caller's balance, open holds and charges add up to the seed, no balance goes negative, finished dispatches whose refund was not lost leave no open hold |
| Streaming.Session.Forward | src/dispatch/streamingChatCompletion.ts:200-237 | the loop writes the forwarded chunks of the events received, keeps their text and last usage, and holds the first-token flag if and only if the text is not empty |
| Streaming.ReceivedUpToTheEnd | src/dispatch/streamingChatCompletion.ts:206-211 | the events received are exactly those before the first abort or end marker |
| Streaming.ForwardsExactly | src/dispatch/streamingChatCompletion.ts:212-233 | the data sent are, in order, those of exactly the content chunks, and of the usage chunks if asked for |
| Streaming.TextConcatenates | src/dispatch/streamingChatCompletion.ts:229-232 | the accumulated text is put together from its parts in order |
| Streaming.UsageIsLast | src/dispatch/streamingChatCompletion.ts:221-222 | the captured usage is the last one |
| Streaming.Session.Run | src/dispatch/streamingChatCompletion.ts:118-268 | what a dispatch writes and asks of the wallet is determined by the events before the end alone, and the wallet is left as those calls leave it, or as it was if the call is lost |
| Streaming.CompletesExactly | src/dispatch/streamingChatCompletion.ts:118-268 | a dispatch completes if and only if it streams and the price it settles by is not gone |
| Streaming.ClientSees | src/dispatch/streamingChatCompletion.ts:206-267 | for every dispatch: nothing before a stream, then the forwarded chunks, an error chunk with the counted tokens if and only if no usage was received, and one end marker; the forwarded chunks alone if the price is gone |
| Streaming.EndMarkerExactly | src/dispatch/streamingChatCompletion.ts:264-267 | the end marker is sent if and only if the dispatch streams and no price is gone, last and once |
| Streaming.SettledExactlyOnce | src/dispatch/streamingChatCompletion.ts:118-420 | a reserved handle gets exactly one wallet call, a commit or a refund by usage and text received; none if and only if the retry loop throws or the price it needs is gone |
| Streaming.CommitsWhatWasUsed | src/dispatch/streamingChatCompletion.ts:295-389 | a commit bills the exact ceiling of the last usage's price, or without usage that of the prompt and the counted text, each cut to micro-cents |
| Streaming.StreamClosesHold | src/dispatch/streamingChatCompletion.ts:118-420 | the hold is open afterwards if and only if it was and the retry loop throws, the price is gone, or the wallet call is lost |
| Streaming.NeverBillsMoreThanReserved | src/dispatch/streamingChatCompletion.ts:290-420 | under unchanged rates and with counts within the estimate, no commit exceeds the reservation |
| Glob.SourceParses | src/service/pricing/glob.ts:23-31 | every glob compiles, and its source parses to one term for each character between two anchors: each metacharacter is matched as itself |
| Glob.CompilationPreservesMeaning | src/service/pricing/glob.ts:19-39 | for every glob and input, the compiled form matches if and only if the input splits as the glob says, with wildcards that stay within a line |
| Glob.GlobMatchIsGlobMeaning | src/service/pricing/glob.ts:36-39 | the matcher accepts nothing the glob does not mean, and on an input of one line all that it means |
| Glob.AgreesExactlyOnOneLine | src/service/pricing/glob.ts:1-3 | all globs mean what they say on an input if and only if it has no line terminator |
| Glob.PlainGlobMatchesItself | src/service/pricing/glob.ts:27 | a glob without wildcards matches itself and nothing else |
| Glob.QuestionMatchesExactly | src/service/pricing/glob.ts:26 | `?` matches every single character but the four line terminators |
| Glob.SourceOfExample | src/service/pricing/glob.ts:23-29 | the source text of one pattern, character by character |
| Glob.Compiler.CompileGlob | src/service/pricing/glob.ts:19-34 | the appending loop builds the specified source; every cache entry equals recompilation, before and after |
| Glob.Compiler.GlobMatch | src/service/pricing/glob.ts:37-39 | a match is decided by glob and input alone, whatever is cached |
| RateCard.ResolvesInOrder | src/service/pricing/rateCardLookup.ts:38-104 | a model resolves to the first exact entry, else to the first pattern that applies by what globs mean, and to nothing if and only if there is neither |
| RateCard.InsertedPattern | src/service/pricing/rateCardLookup.ts:42-44 | a pattern put in changes a resolution only if it applies, no exact entry is there and no pattern before it applies |
| Sessions.KeyStringInjective | src/service/payments/sessions.ts:17-19 | two keys have the same string if and only if node and block agree and the recipients are equal character by character but for case, also if node ids contain the separator |
| Sessions.LowerTellsApart | src/service/payments/sessions.ts:18 | lowering tells two recipients apart if and only if they differ in more than the case of letters |
| Sessions.BarInRecipientCollides | src/service/payments/sessions.ts:17-19 | with the separator in a recipient two sessions would share a string |
| Sessions.SessionsConserved | src/service/payments/sessions.ts:33-93 | over every sequential run each started session is live, close-attempted or dropped on expiry, once, and every entry sits under its own key |
| Sessions.ClosedAtMostOnce | src/service/payments/sessions.ts:51-93 | a session whose work id the daemon answers no second time is, if started, in exactly one of the three, and is never asked to close twice |
| Sessions.ReusesTheRightSession | src/service/payments/sessions.ts:44-48 | a session is reused if and only if one for the same node, recipient and block has not expired |
| Sessions.StartsExactly | src/service/payments/sessions.ts:38-75 | a live session is handed out and nothing changes; else the expired one is dropped and exactly what the daemon answers is started and handed out |
| Sessions.HandsOutTheRightSession | src/service/payments/sessions.ts:38-75 | a work id handed out belongs to an entry then in the map, for the session asked for, not expired or just started |
| Sessions.CloseTakesOutTheNode | src/service/payments/sessions.ts:77-86 | closing a node removes its entries and nothing else, and asks once for each of them to be closed |
| Sessions.CloseKeepsOrder | src/service/payments/sessions.ts:77-86 | the closes are asked for, and the other entries kept, in the order in which they were put in |
| Sessions.CloseAllTakesOutAll | src/service/payments/sessions.ts:88-93 | closing all asks for every entry to be closed, in order, and keeps none |
| Sessions.SessionCache.GetOrStart | src/service/payments/sessions.ts:38-75 | reuse, drop of an expired entry before the start, and a start that may throw, as specified |
| Sessions.SessionCache.Close | src/service/payments/sessions.ts:77-86 | the two loops leave the map without the node's entries, the others in their order, and attempt the closes in order |
| Sessions.SessionCache.CloseAll | src/service/payments/sessions.ts:88-93 | empties the map and attempts to close every entry in order |

## Left out

- The bodies of `BinaryReader` and `BinaryWriter` are not part of this model; their byte format is taken from the
  Protocol Buffers encoding specification ("Base 128 Varints", "Message Structure", "Length-Delimited Records").
- Text encoding: the `constraint` string is carried as its UTF-8 octets.
- `toJSON`, `fromJSON`, `fromPartial`, the other generated messages and the service stubs: the same pattern, or wiring.
- Messages.DecodesSpliced: foreign records are spliced into what the encoder writes; re-ordered or repeated known
  records, which the decoder also accepts, are covered by Messages.DecodeFolds only.
- SlidingWindow.Add: an entry with the score of others goes behind them, while Redis orders equal scores by member;
  no result depends on it.
- SlidingWindow.ExpiryUnobservable: a key is taken to expire by the clock that the callers read, and a script to run at
  the time its caller read. By Redis's own clock, or with a delay between the two, a key can be lost while an admission
  is still in a caller's window; SlidingWindow.LossUnobservableExactly says when that shows.
- SlidingWindow.RunIsTied: one limit and one window length throughout a run; a policy change between calls is not
  modelled.
- RateLimiter.PassesWithinLimits: one check at a time and no expiry of the slot counter; the interleaving of slot
  commands and their key's expiry are in the semaphore's step system. A check that fails open claims no limit.
- Registry, quote cache, payments service, node client and quote refresher: their answers and reports are inputs. The
  refresher reports to the breaker in any order, so nothing is claimed about one report per tick.
- `classifyRetryReason`, `attemptLabel`, `classifyNodeError`, metrics and token audit: labels and observation.
- Rates: `Math.round` over floating-point dollars is not modelled; rates are the resulting natural numbers. Token and
  character counts are natural numbers.
- Router.SelectNode: draws are real numbers, so the rounding of `rng() * totalWeight` is not modelled.
- Dispatch of embeddings, images, speech and transcriptions: the lifecycle is that of the chat dispatcher; only their
  prices are modelled.
- Wallet.PrepaidWallet.SeedBalance: seeding is taken to come before the run whose ledger is balanced.
- Streaming.Session.Run: writing a chunk is assumed not to throw. Usage records are left out: an insertion that fails
  is swallowed.
- Glob.Matches: characters of the basic plane; a character beyond it is two code units to a regular expression that
  is not in Unicode mode.
- Sessions.Lower: lowers the ASCII letters, which are all the letters a hexadecimal address can hold.
- Sessions.SessionCache.GetOrStart: sequential; two concurrent calls for one key may both start a session, and the
  code does not prevent it. The ticket params kept in an entry are never read and are left out.
- HTTP routes, dashboard, admin, configuration loading, request schemas, database repositories and rollups.

# Float protocol gateway: a Dafny model

This project models the hard parts of a satellite-to-cellular protocol gateway in Dafny and proves properties of them
over all inputs, all runs and all interleavings. `dafny verify dfyconfig.toml` checks everything.

| part | modules | form |
|---|---|---|
| shard admission under backpressure | `Sharding` | interleaved atomic steps, and a class |
| circuit breaker | `Breaker` | interleaved atomic steps, a class, and a specification over call histories |
| batching loops | `AsyncBatching`, `Transmission` | step machines with their sent batches, and classes |
| spread routing | `Ewma`, `Cadence`, `Routing` | classes over step functions |
| translation cache and its use | `Cache`, `Gateway`, `Translator` | classes over step functions |
| checksummed frames | `Crc`, `Period`, `Hex`, `Iridium`, `Inmarsat`, `HfVhf` | bit-vector register, loops, arrays |
| span and bundle codecs | `CompactSpan`, `Truncation`, `Bundle`, `Utf8` | loops over buffers against recursive formats |
| snapshot store | `Snapshots` | a class over a step function |
| bi-temporal reconciler | `Decimal`, `Converter`, `Reconciler` | loops and a class over recursive definitions |

`Bytes` and `Protocols` hold what the others share.

## Main results

- **Admission** (`Sharding.AdmissionBound`, `AdmissionBoundTight`, `CounterExactIff`, `Wedged`): the exact account of
  the lock-free counter under every interleaving, the exact peak occupancy, exactly when the counter is right, and
  what follows from workers that never decrement.
- **Breaker** (`Breaker.SequentialRuns`, `CallerTold`, `HalfOpenLimiter`, `HalfOpenLimitIff`, `SoloCall`): the fields
  track the history of calls and every call is told what the history says over every run, the half-open slot is
  exclusive under every interleaving, exactly when trial calls are limited to one, and the two models agree.
- **Batching** (`AsyncBatching.Conserved`, `AsyncBatching.SendsExactly`, `Transmission.SendsExactly`): nothing is lost
  or reordered, and over every run exactly when a batch leaves, in terms of inputs and outputs alone.
- **Error detection** (`Crc.BurstDetected`, `Crc.OddErrorDetected`, `Period.TwoBitErrorUndetectedIff`): every burst of
  up to 16 bits and every odd number of bit errors is detected over messages of any length, and exactly which pairs of
  bit errors are, so every error of up to three bits in messages of up to 4095 bytes.
- **Routing** (`Routing.OrderedPartition`, `BatchingIrrelevant`, `ProtocolsIndependent`, `BurstInStream`,
  `Ewma.ClosedForm`): a conserving ordered partition that depends neither on batching nor on other protocols, decided
  by the 57/16 rule on the closed forms of mean and deviation.
- **Cache** (`Cache.RunKeeps`, `Cache.LookupAfter`, `Gateway.RoutedOnce`, `Gateway.HitsAgreeIff`): queue and map never
  drift apart, what every operation does to every lookup, each routed message is answered or passed on exactly once,
  and the exact condition under which answering from the cache equals translating anew.
- **Codecs** (`CompactSpan.RoundTripIffFits`, `Truncation.PanicsIff`, `Bundle.RoundTripAnyRun`): two-way codecs with
  exact conditions, and the exact inputs on which decoding panics.
- **Snapshots** (`Snapshots.QueueIsSuffix`, `InOrderIff`): the queue is what was created less what was popped, and
  exactly which creation sequences are evicted oldest first.
- **As-of queries** (`Reconciler.OnlyUpToMatters`, `SameBeliefsIff`, `WireToRecord`): beliefs at T depend on nothing
  after T, and of the order of arrival exactly on which record of an entity and time came last; times survive from
  wire to record.

## Where code and comments disagree

The model follows the code.

- src/iridium_sbd.rs:49 says `parse` returns None for a bad checksum; it does not look at the checksum
  (`Iridium.ParseAsDocumentedIff`, `Iridium.WrongChecksumParsed`).
- src/reliability.rs:86 says half-open calls are limited to one; callers that loaded Open are not counted
  (`Breaker.OpenLoadersUnlimited`; exactly when the limit holds: `Breaker.HalfOpenLimitIff`).
- src/sharding.rs:74-75 says the counter counts messages in the regular shards; workers never decrement it
  (`Sharding.CounterExactIff`, `Sharding.Wedged`).
- src/cache.rs:6-10 says equal payloads give equal translations, which holds; unequal payloads can share a key
  (`Gateway.CollisionExists`).
- src/snapshot.rs:209 says eviction takes the oldest; a re-created id is evicted by its first place
  (`Snapshots.RecreatedGoesFirst`; exactly when it is right: `Snapshots.InOrderIff`).

## Assumptions

- Clocks are parameters and, in the breaker, do not run backwards. Snapshot ages and span spreads wrap in 64 bits, as
  in release builds.
- The moving average is over `real`; rounding of `f64` is not modelled.
- Atomic and event counters (`round_robin`, the message counter, the failure count) are unbounded naturals.
- Memory orderings are taken as sequentially consistent: each atomic operation is one step.
- Compression libraries are function parameters: deterministic, and where a result says so, lossless, refusing data
  that starts with a zero byte, and marking packed data so that only its own type unpacks it.
- Receivers of output channels are alive, and calls through the breaker run to completion.
- Text is a sequence of bytes; `Utf8.Scan` follows section 4 of RFC 3629.
- The checksum generator is that of section 2 of ITU-T Recommendation V.41, with initial value 0xFFFF.

## Model

| member | source | states |
|---|---|---|
| `Sharding.NextKeeps` | src/sharding.rs:160-178 | Every atomic step of pushers, drainers and workers keeps the exact account of the counter (counter + sent-but-uncounted = in the shards + drained-but-unsubtracted + taken by workers + lost to clipping) and the overshoot bound. |
| `Sharding.RunKeeps` | src/sharding.rs:160-178 | Both invariants hold after every interleaving of any length, from empty shards and any number of callers. |
| `Sharding.AdmissionBound` | src/sharding.rs:160-178 | In every interleaving, counter plus pending adds covers occupancy plus unsubtracted drains although subtraction saturates, and the regular shards never hold more than limit − 1 + the number of concurrent callers. |
| `Sharding.AdmissionBoundTight` | src/sharding.rs:160-178 | The exact peak, for a positive limit, at least one regular shard, and every number of callers, shards and any capacity: no interleaving puts more than min(total capacity, limit − 1 + callers) messages in the shards, and some interleaving puts exactly that many. |
| `Sharding.FreshPeak` | src/sharding.rs:115-118 | The same for the code's own limit of 8/10: exactly limit − 1 + callers up to the spare capacity plus one callers (up to 1401 callers for 8 shards of 1000), and full shards beyond. |
| `Sharding.CounterIsOccupancyIff` | src/sharding.rs:74-77 | At rest, the counter exceeds the messages in the regular shards exactly by what workers took and what saturation clipped: it is equal iff both are zero. |
| `Sharding.CounterExactIff` | src/sharding.rs:74-77 | The comment's "count of messages in regular shards" holds throughout every run if and only if neither workers nor drainers take part. |
| `Sharding.UndisturbedExact` | src/sharding.rs:234-250 | The counter is exact over every run in which no worker takes a message and nothing is subtracted while a message is sent but not yet counted. |
| `Sharding.WorkerDrift` | src/sharding.rs:292-320 | Witness: one message taken by a worker leaves the counter at 1 with empty shards. |
| `Sharding.DrainRace` | src/sharding.rs:241-248 | Witness: a drain that overtakes the counting of a push is clipped by the saturating subtraction and leaves the counter at 1 with an empty shard. |
| `Sharding.Wedged` | src/sharding.rs:160-165 | In every configuration, with any number of callers of drain_shard, some run ends with all shards empty and all callers at rest, after which no continuation ever sends another message. |
| `Sharding.StuckForEver` | src/sharding.rs:234-250 | With the counter at the limit, callers at rest and empty shards, workers and drainers find nothing, so nothing is ever taken off the counter. |
| `Sharding.CounterNeverFalls` | src/sharding.rs:292-320 | Without drains of regular shards the counter plus pending adds is the number of messages ever sent, and sends still to come stay under the limit. |
| `Sharding.LifetimeBound` | src/sharding.rs:292-320 | Because workers never decrement, at most limit − 1 + callers messages are ever accepted, however fast the workers empty the shards. |
| `Sharding.RefusedForEver` | src/sharding.rs:162-165 | Once the counter is at the limit with all callers at rest, every continuation leaves it there and sends nothing more. |
| `Sharding.SelectedStep` | src/sharding.rs:366-371 | The n-th selection adds one to the count of the shard at n mod m and to no other: the closed form of the count agrees with the code's step. |
| `Sharding.SelectionsBalanced` | src/sharding.rs:366-371 | After any number of selections any two regular shards have been picked equally often up to one. |
| `Sharding.RoomBelowLimit` | src/sharding.rs:115-118 | Below 80% of the capacity the shard that round robin picks next still has room, and there is a regular shard at all, so the modulus is not zero. |
| `Sharding.ShardManager.constructor` | src/sharding.rs:89-138 | A new manager has empty shards, a zero counter and the limit of 8/10: ten times the limit is at most eight times the capacity of the regular shards, and less by under ten. |
| `Sharding.ShardManager.GetReceiver` | src/sharding.rs:227-229 | Hands out each shard's receiver once. |
| `Sharding.ShardManager.Push` | src/sharding.rs:160-178 | An uninterrupted push is exactly the four atomic steps in a row; it reports backpressure iff the counter is at the limit, and otherwise the next shard in turn gets the message, or Full is reported iff that shard is full, which does not happen before any drain. |
| `Sharding.ShardManager.PushSpread` | src/sharding.rs:189-199 | Appends to the spread shard iff it has room, with no gate and no counting. |
| `Sharding.ShardManager.PushDeadzone` | src/sharding.rs:208-218 | Appends to the deadzone shard iff it has room, with no gate and no counting. |
| `Sharding.ShardManager.DrainRegular` | src/sharding.rs:234-250 | Empties one regular shard in order and lowers the counter by as many, not below zero; does nothing once a worker has the receiver. |
| `Sharding.ShardManager.DrainSpread` | src/sharding.rs:234-250 | Empties the spread shard in order, unless its receiver was taken, and leaves the counter alone. |
| `Sharding.ShardManager.WorkerRound` | src/sharding.rs:292-320 | A worker round takes the oldest messages of its shard, at least one and at most batch_size, and leaves the counter as it was. |
| `Breaker.CircuitBreaker.constructor` | src/reliability.rs:49-58 | A new breaker is closed with no failures. |
| `Breaker.CircuitBreaker.Call` | src/reliability.rs:60-111 | A call that nothing interferes with changes state, failure count, failure time and half-open count, and answers, as the specification of one call says; CallerTold says what the answer means. |
| `Breaker.CallTracks` | src/reliability.rs:60-137 | One call keeps the relation between the breaker's fields and the history of executed and rejected calls; it is rejected iff the history says so. |
| `Breaker.SequentialRuns` | src/reliability.rs:60-137 | Over every run of calls: the state between calls is Closed or Open, it is Open exactly when max(1, threshold) failures ran since the last success, and calls run exactly when closed or more than recovery_timeout after the last recorded failure. |
| `Breaker.CallerTold` | src/reliability.rs:60-111 | Over every run, what each call is told: an open error iff max(1, threshold) failures have run since the last success and no more than recovery_timeout has passed since the last of them; otherwise Ok iff its own future succeeds and the inner error iff it fails. |
| `Breaker.OutageLoad` | src/reliability.rs:60-137 | During an outage, past the first max(1, threshold) calls, each further call that is let through costs one recovery timeout. |
| `Breaker.ActWeight` | src/reliability.rs:87-107 | One atomic action moves the half-open count by exactly what it does to its caller, and lets a caller through only at zero. |
| `Breaker.HalfOpenLimiter` | src/reliability.rs:60-111 | In every interleaving of callers, half_open_calls is the number of callers between their increment and their decrement, so it never underflows and is zero when none is in flight. |
| `Breaker.OneProbeRuns` | src/reliability.rs:86-92 | In every interleaving, no two callers that loaded HalfOpen run their futures at once. |
| `Breaker.OpenLoadersUnlimited` | src/reliability.rs:78-92 | The commented limit of one half-open call fails for callers that loaded Open: any number of them can run at once in the half-open state. |
| `Breaker.HalfOpenLimitIff` | src/reliability.rs:78-92 | From every state at rest, a fresh breaker included: at most one trial future (of a caller that loaded Open or HalfOpen) runs at a time in all interleavings if and only if there is at most one caller. |
| `Breaker.TrialBound` | src/reliability.rs:78-92 | In every interleaving, running trial futures number at most one more than the callers in flight that loaded Open. |
| `Breaker.ReachesOpen` | src/reliability.rs:124-137 | From every state at rest, a fresh breaker included, failing calls lead to an open breaker at rest. |
| `Breaker.WholeCall` | src/reliability.rs:60-111 | Inside the interleaved system, one caller's whole call changes the shared state, and is answered, as the sequential call. |
| `Breaker.SoloCall` | src/reliability.rs:60-111 | The two models agree: the atomic actions of one caller, uninterrupted, compose to the sequential call, in what they do to the fields and in what the caller is told. |
| `Breaker.EachToldItsOwn` | src/reliability.rs:94-108 | In every interleaving, the outcomes a caller is told of are those of its own futures, in order and each once, the last perhaps not yet: Ok for success, the inner error for failure. |
| `AsyncBatching.Conserved` | src/batcher.rs:50-89 | Over every run, sent batches plus the buffer are the non-emergency inputs in order, emergencies leave in order as singletons, every batch is nonempty, at most max(1, max_batch_size) long, with at most 5 SafetyCritical messages and only its last over the spread threshold. |
| `AsyncBatching.LossAtClose` | src/batcher.rs:76-76 | At close only the newest non-emergency messages, fewer than max(1, max_batch_size), are undelivered; every emergency was delivered. |
| `AsyncBatching.EmergencyAtOnce` | src/batcher.rs:56-59 | An emergency leaves alone, in the step in which it arrives, after any run. |
| `AsyncBatching.WaitingInTime` | src/batcher.rs:62-72 | Over every run, each waiting message arrived after the last flush and before its timeout. |
| `AsyncBatching.BoundedWait` | src/batcher.rs:62-88 | Over every run: when the loop wakes for the timer or a regular message at or after a waiting message's arrival plus the timeout, everything waiting leaves in that step, in order. |
| `AsyncBatching.SendsExactly` | src/batcher.rs:50-89 | Over every run, in terms of what came in and what went out: an emergency goes alone; a regular message goes with all unsent ones iff they make a full batch, are five SafetyCritical, it is over the spread threshold, or it comes a timeout after the last batch was sent, and else waits and nothing is sent; the timer sends what is unsent iff there is any and the timeout is over; closing sends nothing. |
| `AsyncBatching.SilentOnceClosed` | src/batcher.rs:76-76 | Nothing is sent after the channel has closed. |
| `AsyncBatching.BatchTask.CheckFlush` | src/batcher.rs:108-120 | The scan flushes iff five messages are SafetyCritical or some spread is over the threshold. |
| `AsyncBatching.BatchTask.OnMessage` | src/batcher.rs:53-78 | Receiving a message is the arrival step of the specification machine; SendsExactly says over every run what that step sends. |
| `AsyncBatching.BatchTask.OnTimer` | src/batcher.rs:81-87 | The timeout branch is the timer step of the specification machine. |
| `Transmission.Conserved` | src/transmission_batcher.rs:53-84 | Over every run, sent batches plus the buffer are the inputs in order. |
| `Transmission.NothingLost` | src/transmission_batcher.rs:53-84 | After close everything received was sent, in order, in batches of 1 to max(1, max_batch_size). |
| `Transmission.SendsExactly` | src/transmission_batcher.rs:53-84 | Over every run, in terms of what came in and what went out: a message goes with all unsent ones iff they make a full batch or it comes a timeout after the last batch, and else waits and nothing is sent; the timer sends what is unsent iff the timeout is over; closing sends the rest. |
| `Transmission.SilentOnceClosed` | src/transmission_batcher.rs:67-73 | Nothing is sent after the channel has closed. |
| `Transmission.TransmissionTask.OnMessage` | src/transmission_batcher.rs:55-66 | Receiving a message is the arrival step of the specification machine. |
| `Transmission.TransmissionTask.OnTimer` | src/transmission_batcher.rs:76-82 | The timeout branch is the timer step of the specification machine. |
| `Transmission.TransmissionTask.OnClose` | src/transmission_batcher.rs:67-73 | Closing flushes what is buffered and leaves the loop. |
| `Ewma.EwmaSpreadState.Update` | src/gateway.rs:59-72 | The update of mean and deviation is one step of the specification, whose closed form over whole streams is ClosedForm. |
| `Ewma.EwmaSpreadState.AdaptiveThreshold` | src/gateway.rs:74-80 | The threshold cast to i64, never below the protocol base. |
| `Ewma.CastExact` | src/gateway.rs:74-80 | For positive spreads, comparing with the truncated threshold is the same as comparing with the real one. |
| `Ewma.RoutedIff` | src/gateway.rs:306-314 | After a protocol's first message, a message is routed to the spread shard iff its spread exceeds the base and exceeds the prior mean by more than 57/16 of the prior deviation. |
| `Ewma.FirstNotRouted` | src/gateway.rs:59-80 | A protocol's first message is never routed to the spread shard. |
| `Ewma.ClosedForm` | src/gateway.rs:59-72 | After any stream x1..xn the mean is 0.95^(n−1)·x1 plus the sum of 0.05·0.95^(n−i)·xi over i ≥ 2, and the deviation is the same weighting of abs(x1) and of each spread's distance from the mean before it. |
| `Ewma.ConstantDeviation` | src/gateway.rs:59-72 | On a stream of n equal spreads v the deviation is exactly 0.95^(n−1)·abs(v). |
| `Ewma.StaysInRange` | src/gateway.rs:59-72 | Over every stream the mean stays within the observed spreads and the deviation within max(abs(first), range). |
| `Ewma.ConstantNotRouted` | src/gateway.rs:59-80 | A stream of one constant spread never has a message routed to the spread shard. |
| `Ewma.DeviationShrinks` | src/gateway.rs:59-72 | On a constant stream the deviation falls at least like 19·abs(v)/(18 + n). |
| `Ewma.AdaptsToLag` | src/gateway.rs:59-80 | After a constant stream that is long enough in proportion to its level, every larger spread over the base is routed. |
| `Cadence.FirstRuleApplies` | src/cadence_translation.rs:174-177 | The rule found is the first that applies to message type and protocol; none is found exactly when none applies. |
| `Cadence.CadenceTranslator.AddRule` | src/cadence_translation.rs:111-113 | Appends the rule. |
| `Cadence.CadenceTranslator.AskLimiter` | src/cadence_translation.rs:73-92 | Asks or creates the limiter of a key; it passes iff its interval has gone by. |
| `Cadence.CadenceTranslator.TranslateMessage` | src/cadence_translation.rs:162-223 | The action of the first matching rule, with the emergency pass-through and the limiter's verdict. |
| `Cadence.LimiterSpacing` | src/cadence_translation.rs:73-92 | Over every run of messages under any rules, of each type and protocol that is rate limited or throttled exactly the greedy subsequence is sent, whose neighbours are at least one interval apart, whatever other messages do. |
| `Cadence.ActionInRun` | src/cadence_translation.rs:162-223 | Over every run, the answer to one more message: sent if it is an emergency, has no rule or passes through; buffered or copied as the first rule of its type and protocol says; under a rate limit or throttle sent iff the interval has passed since the last of its kind that was sent. |
| `Cadence.DefaultActions` | src/cadence_translation.rs:115-158 | The default rules: of Iridium messages that are no emergency, 720 copies of heartbeats, 60 of telemetry, one location per ten seconds, and everything else is sent once. |
| `Routing.Router.RouteOne` | src/gateway.rs:306-347 | The body of the partition loop is one step of the specification: average, spread decision, cadence, copies. |
| `Routing.Router.Partition` | src/gateway.rs:301-351 | The partition loop over a batch is the specification's fold, for any rules. |
| `Routing.BatchingIrrelevant` | src/gateway.rs:301-351 | However a stream is cut into batches, outputs and final state are those of the whole stream, for any rules. |
| `Routing.OrderedPartition` | src/gateway.rs:301-351 | With the default rules the spread output is the ordered subsequence of burst messages, the normal output the ordered expansion of the others (60 copies per Iridium message, one per other). |
| `Routing.NothingLost` | src/gateway.rs:301-351 | Conservation: for every message, its count in the normal output is its copies times its occurrences that were not routed to the spread shard. |
| `Routing.ProtocolsIndependent` | src/gateway.rs:306-347 | Filtering the outputs by a protocol equals routing the filtered stream, for any rules: protocols do not disturb one another. |
| `Routing.EwmaIs` | src/gateway.rs:307-310 | After any stream, a protocol's average is that of its own spreads in order, whatever the rules and the other protocols. |
| `Routing.BurstInStream` | src/gateway.rs:307-314 | Over every stream: the next message goes to the spread shard iff its protocol was heard before, its spread exceeds the base, and it exceeds the weighted mean of the earlier spreads by more than 57/16 of their weighted deviation, both in closed form. |
| `Routing.SecondInStream` | src/gateway.rs:307-314 | The second message of a protocol goes to the spread shard iff its spread s exceeds the base and s − x > 57/16·abs(x) for the first spread x. |
| `Routing.BurstBases` | src/protocol.rs:166-190 | The base of each protocol in milliseconds: after a message without spread the next goes to the spread shard iff its spread exceeds 1000 for ASTS, 3000 for VSAT, 5000 for Samsara, 10000 for NIDD, 30000 for HF/VHF, 60000 for LoRa, 120000 for Iridium and RockBLOCK, 300000 for Inmarsat C. |
| `Routing.ConstantNeverRouted` | src/gateway.rs:307-314 | A protocol whose messages all have one spread has nothing in the spread output, whatever else is in the stream. |
| `Routing.CopiesInStream` | src/gateway.rs:316-347 | Over every stream and for any rules, how often a message that is not routed to the spread shard goes on: once, or for Iridium messages that are no emergency as the first telemetry rule says (its count of copies; one or none under a limit, by the time since the last one let through). |
| `Protocols.SpreadIsLag` | src/protocol.rs:88-90 | Where the lag fits a signed word the spread is t_system − t_event. |
| `Cache.HashData` | src/cache.rs:206-210 | The djb2 loop in 64-bit wrapping arithmetic is the recursive hash. |
| `Cache.HashOfAbc` | src/cache.rs:206-210 | The published djb2 value of abc, 193485963. |
| `Cache.OneByteChangesKey` | src/cache.rs:206-210 | Payloads that differ in one byte never share a key, whatever their length. |
| `Cache.RunKeeps` | src/cache.rs:69-190 | Every reachable cache has a duplicate-free queue whose elements are exactly the map's keys, and at most max(1, max_entries) entries. |
| `Cache.HitIsLatest` | src/cache.rs:53-66 | After every run a hit is the message of the latest write to its key, and that write is younger than the time to live. |
| `Cache.LookupAfter` | src/cache.rs:53-190 | Over every run, what one more operation does to every lookup: a write is found under its key until its time to live is over and takes away the oldest key of a full cache, even when overwriting; invalidation takes away exactly the messages of the protocol, and of the closed event-time range; clearing takes all; nothing else changes. |
| `Cache.FoundAgain` | src/cache.rs:53-91 | After any run, a message written under a new key is found by every lookup within its time to live, through up to max_entries − 1 further writes; if one of them wrote the key again, that one is found. |
| `Cache.FreshKeySurvives` | src/cache.rs:83-90 | A newly written key is still present after any max_entries − 1 further writes, overwrites in a full cache included. |
| `Cache.AsyncCache.Get` | src/cache.rs:53-66 | Hit iff the key is present and younger than its time to live. |
| `Cache.AsyncCache.Set` | src/cache.rs:69-91 | Evicts the oldest key of a full cache, inserts, and queues only new keys. |
| `Cache.AsyncCache.GetBatch` | src/cache.rs:95-113 | The batch loop, with its own hashing and expiry test, gives what a lookup of each key gives, in order. |
| `Cache.AsyncCache.SetBatch` | src/cache.rs:116-143 | The batch loop, with its own eviction, insertion and queueing, leaves the cache that writing the entries one after the other leaves. |
| `Cache.AsyncCache.Retain` | src/cache.rs:153-165 | For every iteration order of the map, removing first positions leaves the queue equal to its filtered old self, and the invariant. |
| `Cache.AsyncCache.InvalidateProtocolTimeRange` | src/cache.rs:147-166 | Drops exactly the entries of the protocol with t_event in the closed range. |
| `Cache.AsyncCache.Invalidate` | src/cache.rs:169-182 | Drops exactly the entries of the protocol. |
| `Cache.AsyncCache.Clear` | src/cache.rs:185-190 | Leaves the empty cache. |
| `Gateway.TranslationPath.ProcessEmergency` | src/gateway.rs:257-261 | The emergency path sends the translation, whose content the Translator rows fix, and writes it under the message's key, or does neither. |
| `Gateway.TranslationPath.ProcessBatch` | src/gateway.rs:402-454 | A worker's batch writes and sends the translation of each message that translates, in order (WritesSplit fixes the writes); the spread drain at lines 474-498 does the same. |
| `Gateway.TranslationPath.RouteBatch` | src/gateway.rs:366-388 | Splits a batch into hits with their cached message and misses, as BatchSplits and RoutedOnce describe. |
| `Gateway.BatchSplits` | src/gateway.rs:366-388 | The hits answer, in order, exactly the messages found in the cache, each with what was found for it; the misses are, in order, exactly the others. |
| `Gateway.RoutedOnce` | src/gateway.rs:366-388 | Over every run, each routed message is in exactly one of the two outputs: both are ordered subsequences of the routed messages, selected by complementary flags, and their occurrences add up. |
| `Gateway.CacheIsHistory` | src/gateway.rs:404-438 | The cache after any run is what writing the translations of all processed messages, in order, leaves. |
| `Gateway.WritesSplit` | src/gateway.rs:404-438 | Each processed message that translates is written in its place, under its own protocol and payload, and no other. |
| `Gateway.HitWrittenFor` | src/gateway.rs:366-379 | After every run, a message is a hit only if a processed message with its protocol and payload hash was translated within the time to live, and it gets the translation of the latest of these; otherwise it is a miss. |
| `Gateway.HitWhileKept` | src/gateway.rs:366-379 | After every run, a message is a hit, within the time to live of the latest translation under its key, as long as fewer than max_entries messages were processed after the first one under that key. |
| `Gateway.HitsAgreeIff` | src/gateway.rs:366-379 | Over all runs on a set of messages, every hit has the protocol and data that translating anew would give if and only if messages of the set with one key translate alike. |
| `Gateway.NoCollisionFaithful` | src/cache.rs:6-10 | Without a hash collision among payloads of one protocol the condition holds, as the cache's documentation promises. |
| `Gateway.CollisionExists` | src/cache.rs:206-210 | The hash alone does not give it: two two-byte NIDD payloads share a key and translate differently. |
| `Crc.Continue` | src/iridium_sbd.rs:33-45 | The two nested loops compute the recursive CRC from any start value. |
| `Period.CheckValue` | src/inmarsat_c.rs:61-64 | The CRC of the digits 123456789 is 0x29B1, the check value published for CRC-16/IBM-3740. |
| `Crc.Chained` | src/iridium_sbd.rs:31-45 | Continuing over the payload from the header's CRC equals one CRC over the concatenation. |
| `Crc.CrcInjective` | src/iridium_sbd.rs:33-45 | For fixed data the CRC is a bijection on the register. |
| `Crc.ResidueIsChecksum` | src/iridium_sbd.rs:85-87 | The CRC over data and two bytes is zero iff the two bytes are the CRC of the data. |
| `Crc.CrcIsFeed` | src/iridium_sbd.rs:33-45 | The byte-wise register equals feeding the message bit by bit through the generator x^16 + x^12 + x^5 + 1. |
| `Crc.FeedDifference` | src/iridium_sbd.rs:33-45 | The register is linear: two runs differ as the run of the differences. |
| `Crc.BurstDetected` | src/iridium_sbd.rs:33-45 | Two equal-length messages with zero residue that differ only within 16 consecutive bits, anywhere, are equal. |
| `Crc.OddErrorDetected` | src/iridium_sbd.rs:33-45 | Two equal-length messages with zero residue differ in an even number of bits. |
| `Crc.SpellsWord` | src/iridium_sbd.rs:70-75 | Exactly one pair of bytes spells a checksum word. |
| `Period.PowerIsOneIff` | src/iridium_sbd.rs:22-45 | The powers of x modulo the generator 0x1021 return to 1 at the multiples of 32767 and nowhere else. |
| `Period.TwoBitErrorUndetectedIff` | src/iridium_sbd.rs:33-45 | Messages that differ in exactly two bits have the same CRC if and only if the distance of the bits is a multiple of 32767. |
| `Period.TwoBitErrorDetected` | src/iridium_sbd.rs:33-45 | Two messages of residue zero that agree outside two bits, whose distance is no multiple of 32767, are equal. |
| `Period.ThreeBitErrorDetected` | src/iridium_sbd.rs:33-45 | Two messages of residue zero and at most 4095 bytes that agree outside three bits are equal. |
| `Iridium.Parse` | src/iridium_sbd.rs:50-81 | The parser with its array of 340 zeroed bytes yields the specified packet: accepted iff three header bytes, a length of at most 340 and the payload are there; a missing checksum reads as 0. |
| `Iridium.ComputeCrc` | src/iridium_sbd.rs:92-100 | The chained computation is one CRC over header and payload. |
| `Iridium.ValidateChecksum` | src/iridium_sbd.rs:85-87 | Valid iff the CRC of header and payload is the stored checksum. |
| `Iridium.ValidIffZeroResidue` | src/iridium_sbd.rs:85-100 | A parsed packet is valid iff the whole packet, checksum included, has residue zero. |
| `Iridium.ParseAsDocumentedIff` | src/iridium_sbd.rs:48-81 | The parser agrees with its documentation (None for an invalid checksum) if and only if the data is no packet or the packet has residue zero. |
| `Iridium.OneChecksumAgrees` | src/iridium_sbd.rs:48-81 | For every header and payload, exactly one of the 65536 pairs of checksum bytes makes the parser agree with its documentation: the two bytes of the CRC. |
| `Iridium.WrongChecksumParsed` | src/iridium_sbd.rs:48-81 | Witness: five zero bytes are parsed although their checksum is wrong. |
| `Inmarsat.Encode` | src/inmarsat_c.rs:147-176 | Filling the buffer in place gives the specified frame, checksum last, or the panic of copying an id of fewer than four bytes. |
| `Inmarsat.AcceptedIffZeroResidue` | src/inmarsat_c.rs:66-145 | A frame is accepted iff it has 16 bytes, the magic number and residue zero. |
| `Inmarsat.RefusedFor` | src/inmarsat_c.rs:66-145 | The error of a refused frame: its length under 16 bytes, else its first four bytes as a big-endian number, else the two checksums; the two errors about ids never occur. |
| `Inmarsat.ZeroResidueIsSealed` | src/inmarsat_c.rs:61-98 | Residue zero means the last two bytes are the checksum of the rest. |
| `Inmarsat.BurstRejected` | src/inmarsat_c.rs:66-98 | No two distinct accepted frames of one length differ only within 16 consecutive bits, also across the data/checksum boundary. |
| `Inmarsat.AdjacentBytesRejected` | src/inmarsat_c.rs:66-98 | No two distinct accepted frames of one length differ only within two adjacent bytes. |
| `Inmarsat.OddErrorRejected` | src/inmarsat_c.rs:66-98 | No two accepted frames of one length differ in an odd number of bits. |
| `Inmarsat.ThreeBitErrorRejected` | src/inmarsat_c.rs:66-98 | No two distinct accepted frames of one length, up to 4095 bytes, differ in at most three bits. |
| `Inmarsat.WireParts` | src/inmarsat_c.rs:147-176 | Every encoded frame is accepted, with its payload cut to 114 bytes and its ids normalised. |
| `Inmarsat.IdOnTheWay` | src/inmarsat_c.rs:155-163 | An id arrives as its first eight digits in lower case, or as eight zeros if it is not hexadecimal text. |
| `Inmarsat.ParseEncode` | src/inmarsat_c.rs:66-176 | Encoding does not panic and parsing its result gives the message back iff both ids are eight lower-case hex digits and the payload is at most 114 bytes. |
| `Inmarsat.EncodeParse` | src/inmarsat_c.rs:66-176 | Encoding what was parsed gives the same bytes iff the frame has at most 130; a longer one is cut after 128 bytes and sealed anew. |
| `Hex.DecodeEncode` | src/inmarsat_c.rs:110-130 | Decoding hexadecimal text that was encoded gives the bytes back, in lower case. |
| `Hex.EncodeDecode` | src/inmarsat_c.rs:157-162 | Encoding what was decoded gives the text back if it is lower case. |
| `Hex.EncodeAt` | src/inmarsat_c.rs:110-130 | Each byte is written as two lower-case digits, the high one first. |
| `Hex.DecodeIff` | src/inmarsat_c.rs:155-163 | Exactly pairs of hexadecimal digits in either case are read, and writing them again gives them in lower case. |
| `HfVhf.Parse` | src/hfvhf.rs:22-55 | The chunk loop decodes modulation and every complete 16-bit sample; frames under 8 bytes or with another modulation byte are refused. |
| `HfVhf.Encode` | src/hfvhf.rs:58-79 | Writing by index gives frequency, modulation and little-endian samples. |
| `HfVhf.FieldsRead` | src/hfvhf.rs:22-55 | A frame is accepted iff it has eight bytes and a modulation code up to 3; it gives the big-endian frequency, AM, FM, SSB or CW for 0 to 3, and each pair of bytes as a little-endian sample in two's complement. |
| `HfVhf.ParseEncode` | src/hfvhf.rs:22-79 | Parsing an encoding gives the message back iff it has at least two samples. |
| `HfVhf.EncodeParse` | src/hfvhf.rs:22-79 | Encoding what was parsed gives the frame without at most one odd trailing byte. |
| `Translator.IridiumTranslation` | src/translator.rs:157-206 | An Iridium or RockBLOCK message is translated iff the declared payload of at most 340 bytes is there (the packets the parser takes), to the protocol byte and the payload; the checksum plays no part. As in all rows of this kind the result is an ASTS message cut to 120000000 bytes, stamped now, with the priority, t_event and t_system of the original. |
| `Translator.VsatTranslation` | src/translator.rs:191-195 | A VSAT message is translated iff it has 16 bytes, to the compressed packet: reparsing and rewriting it changes nothing. |
| `Translator.InmarsatTranslation` | src/translator.rs:185-189 | An Inmarsat C message is translated iff it has 16 bytes, the four magic bytes and residue zero, to the same bytes up to 130 and to the first 128 sealed anew beyond. |
| `Translator.InmarsatIdempotent` | src/translator.rs:185-189 | Translating a translated frame changes nothing more. |
| `Translator.HfVhfTranslation` | src/translator.rs:197-201 | An HF/VHF message is translated iff it has eight bytes and a modulation code up to 3, to the frame less one odd trailing byte. |
| `Translator.SamsaraTranslation` | src/translator.rs:208-278 | A Samsara message that starts with a version 1 packet is translated to the protocol byte 7, device id, timestamp, position and payload. |
| `Translator.SamsaraAccepted` | src/translator.rs:208-278 | Only a Samsara message that starts with such a packet, with a device id of at most 1024 bytes of UTF-8, is translated. |
| `Translator.PlainTranslation` | src/translator.rs:283-299 | NIDD, ASTS and LoRa messages are always translated, to their own payload. |
| `CompactSpan.Encode` | src/otel_compact_span.rs:124-173 | The appending encoder produces the specified wire form, lengths cut to one byte. |
| `CompactSpan.Layout` | src/otel_compact_span.rs:124-173 | Where each field of an encoding is: ids at 0, 16 and 24, length bytes and texts, four big-endian times, the number of attributes, and the status, 0 for Ok and 1 for Error, in the last byte. |
| `CompactSpan.AttributesLayout` | src/otel_compact_span.rs:158-168 | Each attribute is written in its place as key and value, each behind its length cut to a byte. |
| `CompactSpan.ReadAttributes` | src/otel_compact_span.rs:223-246 | The attribute loop reads the specified attributes or fails as specified. |
| `CompactSpan.Decode` | src/otel_compact_span.rs:176-269 | The cursor decoder is the specified decoding, unchecked reads shown as panics. |
| `CompactSpan.EncodedSizeExact` | src/otel_compact_span.rs:272-281 | encoded_size is the exact length of the encoding. |
| `CompactSpan.DecodeEncode` | src/otel_compact_span.rs:124-269 | Decoding an encoding with any suffix gives the span back, for fields and counts up to 255. |
| `CompactSpan.EncodeDecode` | src/otel_compact_span.rs:124-269 | Whatever decodes to a span starts with the encoding of that span, which fits. |
| `CompactSpan.RoundTripIffFits` | src/otel_compact_span.rs:124-269 | The round trip holds iff every length and count fits one byte. |
| `CompactSpan.TruncationNeverDecodes` | src/otel_compact_span.rs:176-269 | No proper prefix of an encoding decodes: the format is prefix-free. |
| `CompactSpan.LastByte` | src/otel_compact_span.rs:249-254 | An encoding with another last byte decodes to the span with that status for 0 and 1, and is refused for every other value. |
| `CompactSpan.BadName` | src/otel_compact_span.rs:195-201 | A name that is not UTF-8 is refused as such. |
| `CompactSpan.UncheckedRead` | src/otel_compact_span.rs:196-216 | Some input of 68 bytes passes the length check and reads past the end. |
| `Utf8.ValidIff` | src/otel_compact_span.rs:200-201 | Text is accepted iff it is a concatenation of scalar values encoded as section 3 of RFC 3629 says. |
| `Truncation.CutOutcome` | src/otel_compact_span.rs:176-269 | What decoding makes of every encoding cut after k bytes: the error that names what is missing, or a panic where the missing bytes are read unguarded. |
| `Truncation.CutIff` | src/otel_compact_span.rs:196-250 | A cut encoding makes decoding panic exactly if at least 68 bytes are left and the cut falls within the 33 bytes after the name, right before the attribute count, or right before the status. |
| `Truncation.PanicsIff` | src/otel_compact_span.rs:176-269 | Decoding reads past its input if and only if the input is a valid encoding cut at one of those places; on all other inputs it returns a span or an error. |
| `Bundle.BundleSizeExact` | src/otel_bundle.rs:258-266 | encoded_size of a bundle is exact. |
| `Bundle.TelemetryBundle.AddSpan` | src/otel_bundle.rs:53-55 | Appends the span and leaves compressed data as it is. |
| `Bundle.TelemetryBundle.WithCompression` | src/otel_bundle.rs:58-61 | Changes the compression type only. |
| `Bundle.TelemetryBundle.RawData` | src/otel_bundle.rs:74-80 | The loop writes each span behind its length. |
| `Bundle.TelemetryBundle.Compress` | src/otel_bundle.rs:64-108 | Stores the packed spans, or nothing for an empty bundle or no compression; fails iff the library fails. |
| `Bundle.TelemetryBundle.Encode` | src/otel_bundle.rs:112-149 | Header, payload length and payload. |
| `Bundle.WireFields` | src/otel_bundle.rs:112-149 | Where each field of an encoded bundle is: number and time in big-endian words, type 0, 1 or 2 at 16, data flag at 17, payload length at 18, payload at 22. |
| `Bundle.RawLayout` | src/otel_bundle.rs:74-80 | Each span is written in its place behind its own length. |
| `Bundle.FieldsAfter` | src/otel_bundle.rs:38-61 | After any run a bundle has the number and time it was made with, the spans added, in order, and the type set last. |
| `Bundle.DecodeSpans` | src/otel_bundle.rs:198-208 | The span loop reads spans while four bytes remain, with its errors; lines 213-222 and 235-244 repeat it. |
| `Bundle.Decode` | src/otel_bundle.rs:152-250 | The decoder is the specified reading of header, payload and spans, error by error. |
| `Bundle.ReadRaw` | src/otel_bundle.rs:198-208 | Any number of spans that fit is read back from the raw payload; up to three bytes behind them are ignored. |
| `Bundle.CutBundle` | src/otel_bundle.rs:152-182 | Every cut of an encoded bundle is refused: a short header before byte 22, a short payload after it. |
| `Bundle.UnknownKind` | src/otel_bundle.rs:164-172 | A bundle is refused for its compression type iff that byte exceeds 2. |
| `Bundle.OtherFlag` | src/otel_bundle.rs:174-190 | Any other data flag than one leaves the spans out. |
| `Bundle.TrailingIgnored` | src/otel_bundle.rs:174-190 | Bytes behind a bundle change nothing. |
| `Bundle.CompressedHasSpans` | src/otel_bundle.rs:64-108 | Over every run of operations, compressed data is present only in a bundle with spans. |
| `Bundle.Received` | src/otel_bundle.rs:112-250 | A bundle whose payload unpacks to the given spans is received with its number, time and type and those spans. |
| `Bundle.RoundTripAfterCompress` | src/otel_bundle.rs:64-250 | After any run of operations, compress and encode, decoding gives number, time, type and spans back, for a lossless library and lengths below 2^32. |
| `Bundle.RoundTripPlain` | src/otel_bundle.rs:112-250 | Without compression the round trip holds for any number of spans. |
| `Bundle.AddedAfterCompressIsLost` | src/otel_bundle.rs:53-149 | Any number of spans added after compress are lost: the receiver gets those compressed, which is the bundle iff nothing was added. |
| `Bundle.NeverCompressedIsRefused` | src/otel_bundle.rs:133-142 | Spans under a compressed type without compress are written raw, and no receiver unpacks them. |
| `Bundle.Delivered` | src/otel_bundle.rs:53-250 | What the receiver gets after any run of additions, changes of type and compressions whose stored data, if any, is of the current type: all spans, those of the last successful compression, or an error. |
| `Bundle.RoundTripIff` | src/otel_bundle.rs:53-250 | After any run whose stored data, if any, is of the current type, the receiver gets the bundle back if and only if the type is None or compression last succeeded after the last span was added. |
| `Bundle.MismatchIsRefused` | src/otel_bundle.rs:192-246 | Data packed under another type than the current one is refused, whether read as packed or as plain spans. |
| `Bundle.RoundTripAnyRun` | src/otel_bundle.rs:53-250 | Over every run, changes of type included: the receiver gets the bundle back if and only if the stored data covers all spans and is of the current type, or nothing is stored and the type is None or there are no spans. |
| `Snapshots.EvictsOne` | src/snapshot.rs:211-218 | However many ghosts and duplicates the queue holds, eviction from a nonempty map removes exactly one snapshot, the first live one, and pops no id beyond it. |
| `Snapshots.RunKeeps` | src/snapshot.rs:56-83 | Every reachable store has each map key in its queue, each snapshot under its id, and at most max(1, max_snapshots) snapshots. |
| `Snapshots.QueueIsSuffix` | src/snapshot.rs:209-218 | The queue is always the list of created ids without those popped, so all eviction-loop iterations of a run plus the queue equal the creates: the amortised O(1) of the comment. |
| `Snapshots.StoredAfter` | src/snapshot.rs:56-162 | Over every run, what one more operation does to what is stored under each id: a creation stores its snapshot and takes away at most one other, a drain takes those of its device from `since` on that are younger than the time to live, clearing takes those as old or older, deletion takes one; nothing else changes. |
| `Snapshots.StoredIsLast` | src/snapshot.rs:56-83 | Over every run, what is stored under an id is the last snapshot created under it. |
| `Snapshots.EvictsOldestIff` | src/snapshot.rs:209-218 | Read on the queue: the evicted snapshot is the one created first of those left iff every other live id is queued after the victim's last place. |
| `Snapshots.InOrderIff` | src/snapshot.rs:209-218 | For every limit, over all runs that create along a sequence of ids, with evictions, drains, deletions and expiries in between, eviction takes the oldest if and only if the limit is at most one or no id recurs in the sequence after a different one. |
| `Snapshots.BlocksInOrder` | src/snapshot.rs:209-218 | The sufficient half for every limit: if no id recurs after a different one, eviction takes the oldest. |
| `Snapshots.DistinctIdsEvictOldest` | src/snapshot.rs:209-218 | In every run that creates no id twice, eviction takes the oldest. |
| `Snapshots.RecreatedGoesFirst` | src/snapshot.rs:76-81 | A re-created id keeps its old place: create a, b, a and the newer a is evicted before b. |
| `Snapshots.SnapshotManager.EvictOldest` | src/snapshot.rs:211-218 | The pop loop computes the specified store and number of pops. |
| `Snapshots.SnapshotManager.CreateSnapshot` | src/snapshot.rs:56-83 | Evicts when full, queues the id, and files the snapshot with its messages, protocol, device, creation time and total size. |
| `Snapshots.SnapshotManager.DrainForUplink` | src/snapshot.rs:100-116 | Returns and removes exactly the snapshots of the device since the given time that are younger than the time to live, each once, for every map order. |
| `Snapshots.SnapshotManager.DeleteSnapshot` | src/snapshot.rs:148-152 | Removes one id from the map and says whether it was there; the queue keeps a ghost. |
| `Snapshots.SnapshotManager.ClearExpiredSnapshots` | src/snapshot.rs:155-162 | Removes exactly the snapshots not younger than the time to live. |
| `Decimal.ParsePrint` | src/otel_reconciler.rs:74-80 | Every i64 reads back from its decimal text, the most negative one included. |
| `Decimal.PrintParse` | src/otel_reconciler.rs:74-80 | A text that parses is what printing its value gives iff it is canonical: no plus sign, leading zero or negative zero. |
| `Decimal.ParseIff` | src/otel_reconciler.rs:74-80 | A text is read iff it is one or more digits behind at most one sign whose number is an i64, so checking each digit for overflow comes to checking the number. |
| `Decimal.DigitAt` | src/otel_converter.rs:60-73 | Place k from the right of a printed number is its digit of 10^k. |
| `Converter.FromCompact` | src/otel_converter.rs:50-91 | The pushes and the loop build the specified span: t_event, t_system, sensor_id, spread_ms, then the custom attributes. |
| `Converter.TimesSurvive` | src/otel_converter.rs:60-73 | The first-match lookups on a converted span give its exact t_event, t_system and spread, even if custom attributes reuse those names. |
| `Converter.FieldsKept` | src/otel_converter.rs:50-91 | A converted span carries ids that decode to the originals, no parent iff the parent id is zero, name, start, end and status, the sensor, the exact spread where it fits, and behind its own four attributes those of the compact span. |
| `Converter.ReadTimeIs` | src/otel_reconciler.rs:74-80 | The first attribute with the key decides if it is an integer; otherwise the time is zero. |
| `Converter.SameEntityIff` | src/otel_reconciler.rs:61-61 | The entity of a converted span is the two ids in hexadecimal with a colon between them, and two spans belong to one entity iff their trace and span ids agree. |
| `Reconciler.HistoryKept` | src/otel_reconciler.rs:56-71 | After every run an entity's records are exactly those ingested or corrected for it, in order of arrival. |
| `Reconciler.LatestIs` | src/otel_reconciler.rs:126-130 | There is a belief iff there is a record at or before T; it has maximal t_system and is the last inserted among equals. |
| `Reconciler.AddEffect` | src/otel_reconciler.rs:56-71 | The complete effect of a record on the belief at T: it replaces the entity's belief iff it is at or before T and not older than it. |
| `Reconciler.OnlyUpToMatters` | src/otel_reconciler.rs:122-138 | Over every run, what is believed at T is what would be believed had nothing after T been recorded. |
| `Reconciler.BeliefsCannotBeRewritten` | src/otel_reconciler.rs:197-209 | Any number of later ingests and corrections with t_system > T leaves system_belief_at(T) unchanged. |
| `Reconciler.SameBeliefsIff` | src/otel_reconciler.rs:122-138 | Two runs lead to the same beliefs at all times if and only if, for every entity and transaction time, the last record to arrive is the same. |
| `Reconciler.ArrivalOrderIrrelevant` | src/otel_reconciler.rs:122-138 | Exchanging neighbours in a run, unless they share entity and t_system, changes no belief at any time. |
| `Reconciler.CorrectionReplaces` | src/otel_reconciler.rs:197-209 | A correction of a span under its own t_system replaces it in every belief that held it, by a record with the new t_event, the same t_system and the span. |
| `Reconciler.WireToRecord` | src/otel_reconciler.rs:56-71 | A span that is encoded, received with any suffix, decoded, converted and ingested leaves a record of the converted span with its exact times under its entity. |
| `Reconciler.FindLatest` | src/otel_reconciler.rs:127-130 | The filter and max_by_key loop computes the belief. |
| `Reconciler.BitemporalReconciler.IngestSpan` | src/otel_reconciler.rs:56-71 | Appends the record with the times read from the attributes. |
| `Reconciler.BitemporalReconciler.RetroactiveCorrection` | src/otel_reconciler.rs:197-209 | Appends the record with the new valid time and the span's transaction time. |
| `Reconciler.BitemporalReconciler.SystemBeliefAt` | src/otel_reconciler.rs:122-138 | Lists the believed spans, each entity once, for every map order. |
| `Reconciler.BitemporalReconciler.Clear` | src/otel_reconciler.rs:212-214 | Leaves no records. |

## Left out

- HTTP uplink, telemetry pings, credentials and metrics: input and output; emitted messages appear as results.
- Hardware, GNSS, provisioning, LoRa and sensor drivers: device access.
- Storage: the write-ahead log writes an 18-byte header and reads 16, so its behaviour is not settled by the code.
- Clock reconciliation before routing: messages enter the model with their corrected `t_event`.
- `TranslatorPool` and `BufferPool`: which pooled translator is used does not change the result.
- The async translator loop and zero-copy hot path of src/translator.rs: only `translate_sync` is modelled.
- `evict_idle` and dynamic shard creation in `get_shard`: they remove or replace channels.
- Snapshot ids (FNV-1a over the content): ids are parameters, so equal ids are covered without the hash.
- `get_snapshot`, `get_protocol_snapshots` and the statistics functions: reads that would add only easy members.
- Valid-time and transaction-time range queries and spread statistics of the reconciler: flat filters.
- JSON and binary export of spans, VSAT and NIDD parsers, `RetryPolicy`, `HealthChecker`, `resample`: flat code.
- Sharding.ShardManager.Push: `NotFound` is not modelled, because no shard is removed.
- Bundle.RoundTripIff: when the stored data is of another type than the bundle has now, the outcome depends on the
  library; Bundle.RoundTripAnyRun decides it for libraries that mark their formats.

# Tensor pool client: a verified model

This project models the concurrent and stateful core of a C client for a shared-memory tensor pool and proves what that
core is meant to guarantee. Each module models one component:

- **Frame ring** (`FrameRing*`, `FrameProgress*`): a producer publishes frames into header and payload slots under a
  commit word; consumers read them without locks. Producer stores and consumer loads interleave one field or one payload
  byte at a time.
- **Ring queue** (`MpscQueue*`): a bounded queue with one sequence counter per slot, for any number of offering and
  polling threads, as a machine of single shared-memory accesses, and as the in-place structure a lone caller sees.
- **Trace ids** (`TraceId*`): a lock-free generator over one packed word, as a machine of threads and in place.
- **Tensor headers** (`Tensor*`): stride inference in place and what it means for addressing.
- **Join barrier** (`JoinBarrier*`): readiness decisions over running per-input state. The in-place class is proved equal
  to functions on values, and those are proved equal to predicates over the whole history of updates.
- **Merge-map registry** (`MergeMapRegistry`): a fixed table refining a bounded map.
- **Run-level state machines**: lease keepalives (`LeaseKeepalive`, `LeaseOutcomes`), metadata blobs (`MetadataPoller`), the
  progress cache (`ProgressTracker`, `ProgressRotation`), a consumer's mapping, gap accounting and reports (`ConsumerEpoch`,
  `ConsumerControl`), and the producer's trace history (`TraceHistory`).
- `Bits` holds machine-word arithmetic: masks, shifts, disjunction, wrap-around and two's complement. `Folds` runs a
  machine over a list of inputs; `Options` is a value that may be missing.

Verify with `dafny verify dfyconfig.toml`.

## Where the code does not meet the plain statement

Each of these has a lemma with a concrete input, next to the exact condition under which the code is right. Sums and
products that overflow a signed type are taken to wrap.

- A queue of capacity one is accepted by initialisation and loses items (`MpscQueueTheorems.OneSlotLosesItems`,
  `LosslessIffCapacityAboveOne`).
- Stride products are formed in 32 bits. When one wraps, an accepted header can put two elements at one address
  (`TensorAddressing.WrappedStridesCollide`). With the outer strides inferred, elements are apart and in bounds exactly
  when there are none or all products fit (`TensorCollisions.SoundIffExactFits`); nested strides are exactly those
  whose products fit (`TensorAddressing.RoomyIffExactFits`).
- A wrapped stride can also be negative; then the consumer refuses what the producer accepted
  (`TensorAddressing.WrappedStridesAreNotFixed`; the exact condition is `ValidationIsFixedPoint`).
- A payload or header slot is addressed by a 32-bit product, while the driver sizes the region by a wider one. Once the
  product of the last slot does not fit, slots overlap and publications tear a committed frame's payload
  (`FrameRingPayload.PayloadSlotsCoincide`, `FrameRingOverlap.WrappedSlotTearsPayload`). Exact conditions are
  `PayloadSlotsDisjointIffProductFits`, `HeaderSlotsDisjointIffRingFits` and, over all schedules,
  `FrameRingOverlap.PayloadsIntactIffProductsFit`.
- A clock past the timestamp field makes ids repeat (`TraceIdSafety.LateClockRepeatsIds`, `ReadingPastTheField`,
  `IdsDistinctIffReadingsFit`). Ids of different nodes stay apart whatever the clock says.
- Offset rules read the out-sequence as signed; from 2^63 on they no longer mean what they say
  (`JoinBarrierHistory.LastOutSequenceAsksForFour`), and a window is never ready at out-sequence 2^64 - 1
  (`LastOutSequenceClosesWindows`); the exact condition for both is `SequenceRuleExactIffFits`.
- A lateness that wraps makes a negative required time ready, and an observed time too small
  (`JoinBarrierTimes.WrappedLatenessIsReady`, `NegativeTargetReadyIffLatenessWraps`, `LatenessWrapsObservedTime`); the
  exact condition is `TimestampRuleExactIffFits`.
- After sequence number 2^64 - 1 a consumer counts a lower number as a gap (`ConsumerEpoch.LateDescriptorCountedAsGap`,
  `NoGapWithoutAdvanceIffNotAtMaximum`, and over a whole mapping `GapCountIsSkippedIffNothingAfterMaximum`).
- Three announcement periods are formed in 64 bits; when they wrap, an announcement can count as too old within a period
  and a half (`ConsumerControl.LongPeriodIgnoresRecent`; the exact condition is `FreshnessExactIffPeriodFits`).
- Nothing in a claim prevents a second commit, which defeats the commit word (`FrameRingMisuse.RecommitTearsReads`); a
  schedule without one is `PublishesOnce`, and there `NoTornRead` holds. Nothing prevents a claim from staying open for
  a whole lap either, which exposes a later frame's payload (`OpenClaimTearsPayload`, `OpenClaimCanSurviveALap`); a
  schedule in which every claim is closed within a lap is `DisciplinedRun`, and there `PayloadIntactAtVerdict` holds.
- The check of a progress report loads the tensor header after its last look at the commit word, so it may judge a later
  frame's header (`FrameProgressHeaders.RefusedHeaderAccepted`, `LapDecidesVerdict`). It judges the frame's own header
  whenever the commit word still stands once the header words are loaded (`StandingWordJudgesOwnHeader`), and an
  acceptance bounds the report by the published payload in any case (`FrameProgressCheck.AcceptedProgressIsWithinFrame`).

The queue is named for a single consumer; the code takes each position with an exchange, and the theorems hold for any
number of polling threads.

## Assumptions

Memory is sequentially consistent, and an exchange may fail for no reason. One producer publishes at a time. Clocks, the
outcome of offers, the outcome of attaching, and the external progress validator are parameters. A message or a slot is a
record of its fields. The pool ids of an attached configuration are distinct, which attaching does not check.

## Model

| member | source | states |
|---|---|---|
| FrameRing.InProgress | include/tensor_pool/common/tp_seqlock.h:8-11 | an in-progress word is even, and below the 63-bit limit it is twice the sequence number |
| FrameRing.Committed | include/tensor_pool/common/tp_seqlock.h:13-16 | a committed word is odd, and below the 63-bit limit it is twice the sequence number plus one |
| FrameRing.IsCommitted | include/tensor_pool/common/tp_seqlock.h:18-21 | masking the low bit recognises exactly the odd words |
| FrameRing.SequenceOf | include/tensor_pool/common/tp_seqlock.h:23-26 | shifting right recovers half the word, so the number a committed word was made of |
| FrameRing.FindPoolForLength | src/client/tp_producer.c:1847-1865 | the pool found is large enough, no larger than any other that is, and the first of its size; none only if none is large enough |
| FrameRingSafety.HeaderRoundTrip | src/client/tp_producer.c:1476-1522 | decoding the embedded tensor header gives back every field that was encoded |
| FrameRingSafety.PreparedIsSettled | src/client/tp_producer.c:1524-1556 | the consumer's validation accepts what a producer prepared exactly when no stride inferred from the producer's header wraps below zero, in particular when the exact strides fit 32 bits, and then leaves it unchanged |
| FrameRingSafety.StepKeeps | src/client/tp_producer.c:1592-1668 | each single store of a publication and each single load of a reader keeps the invariant tying commit words, fields, jobs and readers to the published frames |
| FrameRingSafety.NoTornRead | src/client/tp_consumer.c:1592-1669 | under every interleaving of field stores and field loads, a successful read returns exactly the frame published under the number asked for: no mix, no other lap |
| FrameRingPayload.PayloadSlotAddress | src/client/tp_producer.c:1612-1613 | the payload address formed in 32 bits is the exact one exactly when the product of index and stride fits |
| FrameRingPayload.PayloadSlotsDisjointIffProductFits | src/client/tp_producer.c:1893-1904 | the payload slots of a pool share no byte exactly when the product of the last slot and the stride fits 32 bits |
| FrameRingPayload.PayloadSlotsCoincide | src/driver/tp_driver.c:806-816 | with 8192 slots of a mebibyte, which the driver sizes in full and attaching accepts, slots 0 and 4096 start at the same byte |
| FrameRingPayload.HeaderSlotsDisjointIffRingFits | src/common/tp_slot.c:11-14 | the header slots share no byte exactly when the ring has at most 2^24 of them |
| FrameRingPayload.PayloadIntactAtVerdict | src/client/tp_consumer.c:1592-1669 | at the second load of the commit word of a successful read, the payload is byte for byte the published one and lies inside slot sn mod nslots, if the pools' products fit and no claim stays open for a whole lap |
| FrameRingProgress.OfferCommits | src/client/tp_producer.c:1625-1668 | a publication that runs to its end has committed exactly its frame, in its slot, and kept everything else |
| FrameRingProgress.InterpretOwnFrame | src/common/tp_slot.c:16-66 | the decoded fields of a published slot pass the reader's checks and give the frame's own view exactly when its tensor header validates |
| FrameRingProgress.ReadAloneReturnsFrame | src/client/tp_consumer.c:1592-1669 | an undisturbed read of a slot that holds a frame returns that frame exactly when its tensor header validates, and skips it otherwise |
| FrameRingProgress.OfferedFrameIsRead | src/client/tp_producer.c:1788-1845 | round trip from any reachable state: a frame offered, committed and read comes back as prepared, in the best-fitting pool, at its own sequence number, exactly when no stride inferred from the header offered wraps below zero, and is skipped otherwise |
| FrameRingCalls.PreparedMeans | src/client/tp_producer.c:1524-1556 | a prepared header has the dimensions given, the inferred strides, nothing beyond them, and all else unchanged |
| FrameRingCalls.OfferOutcome | src/client/tp_producer.c:1788-1845 | an offer too large for every pool changes nothing; one whose header is refused spends its number; any other marks its slot and begins to publish its frame in the best-fitting pool |
| FrameRingCalls.ClaimOutcome | src/client/tp_producer.c:1867-1907 | a claim too large for every pool changes nothing; any other marks its slot and is open under the next number in the best-fitting pool |
| FrameRingCalls.CommitOutcome | src/client/tp_producer.c:1909-1944 | a commit whose header is refused leaves the claim open; any other closes it and begins to publish the bytes of its payload slot |
| FrameRingCalls.ClaimedFrameIsRead | src/client/tp_producer.c:1867-1944 | round trip from any reachable state: a claim committed and then read comes back with the header prepared, its own pool, slot, length and number, exactly when no stride inferred from its header wraps below zero |
| FrameRingReads.EveryViewIsSafe | src/client/tp_consumer.c:1592-1669 | under every schedule, second commits and late claims included, a view handed out lies inside its pool and has a header that passed validation |
| FrameRingReads.InterpretedIff | src/common/tp_slot.c:16-66 | seven fields and a header of any origin are accepted exactly when they name the slot, a known pool with room, offset 0, the right lengths, and a tensor message that validates |
| FrameRingReads.ReadAloneOutcome | src/client/tp_consumer.c:1592-1669 | whatever a slot holds, an undisturbed read is late without a committed word, skipped when the fields or the header are not acceptable, late when the number is another one, and otherwise returns those fields |
| FrameRingReads.LateNeedsCause | src/client/tp_consumer.c:1592-1669 | a read is late only if the slot does not hold the number asked for, committed, or no longer the word first seen |
| FrameRingReads.SkipNeedsCause | src/client/tp_consumer.c:1592-1669 | a read is skipped only for what it loaded: if the word was and still is that of the number asked for, the header of its frame does not validate |
| FrameRingMisuse.RecommitTearsReads | src/client/tp_producer.c:1909-1944 | committing a claim a second time lets an interrupted read succeed with the timestamp of one commit and the version of the other |
| FrameRingMisuse.OpenClaimTearsPayload | src/client/tp_producer.c:1867-1907 | an open claim of any length in the same pool, on the slot of a committed frame, can change any byte of that frame's payload within that length under an unchanged commit word |
| FrameRingMisuse.OpenClaimCanSurviveALap | src/client/tp_producer.c:1867-1907 | such a claim is reachable in every ring: claim, then offer as many frames of that size as there are slots |
| FrameRingOverlap.WrappedSlotTearsPayload | src/client/tp_producer.c:1612-1625 | in a pool whose products do not fit, publishing into the first slot that wraps overwrites the first frame's payload while its commit word stands, as long as the two header slots differ |
| FrameRingOverlap.PayloadsIntactIffProductsFit | src/client/tp_producer.c:1592-1668 | over all schedules that commit each claim once and within a lap, every successful read points at the published payload if and only if the products of every pool fit 32 bits |
| FrameRingOverlap.WrappedSlotOf8192Mebibytes | src/client/tp_producer.c:1612-1625 | 8192 slots of a mebibyte are such a pool |
| FrameProgressCheck.StepStays | src/client/tp_consumer.c:1716-1746 | a committed frame is never replaced, and while its commit word stands its slot does not change |
| FrameProgressCheck.AcceptedProgressIsWithinFrame | src/client/tp_consumer.c:1672-1798 | an accepted progress report is about the mapped stream and epoch and a published number, with no more bytes than that publication holds, although the tensor header is read after the last look at the commit word |
| FrameProgressCheck.CheckAloneIsExact | src/client/tp_consumer.c:1716-1797 | an undisturbed check of a slot that holds a frame accepts exactly the reports within its payload, provided its tensor header validates |
| FrameProgressVerdicts.ReportsOnOthersAreLeftOpen | src/client/tp_consumer.c:1699-1707 | a report on another stream or epoch is left open, any other is looked into |
| FrameProgressVerdicts.FirstWordVerdict | src/client/tp_consumer.c:1716-1727 | the first look at the word: uncommitted leaves the report open, another number rejects it |
| FrameProgressVerdicts.LoadedVerdict | src/client/tp_consumer.c:1729-1786 | whatever a slot held and holds, the report is left open exactly when its word is not the same committed one at all three loads, and passed on exactly when that word and the fields are right |
| FrameProgressVerdicts.FieldVerdict | src/client/tp_consumer.c:1729-1786 | under every interleaving a frame whose word still stands has its report judged by its payload, and a frame that has moved on leaves it open |
| FrameProgressVerdicts.HeaderVerdict | src/client/tp_consumer.c:1788-1797 | the header words of any origin are accepted exactly when they are a tensor message that validates |
| FrameProgressHeaders.StandingWordJudgesOwnHeader | src/client/tp_consumer.c:1748-1797 | under every interleaving, if the commit word still stands once the header words are loaded, the verdict is that of the frame's own tensor header, whatever becomes of the ring afterwards |
| FrameProgressHeaders.LaterHeaderIsJudged | src/client/tp_consumer.c:1716-1797 | if the fields are judged while the slot holds one frame and the header words are loaded while it holds another, the other's header alone decides |
| FrameProgressHeaders.LapDecidesVerdict | src/client/tp_consumer.c:1716-1797 | a run of that kind in a ring of any size: with a lap of other frames in between, the report is accepted exactly when no stride inferred from their header wraps below zero |
| FrameProgressHeaders.RefusedHeaderAccepted | src/client/tp_consumer.c:1716-1797 | in a ring of one slot, a report on a frame whose own header is refused is accepted |
| MpscQueueSafety.StepKeepsInv | src/common/tp_mpsc_queue.c:118-198 | every single shared-memory access of any number of offering and polling threads keeps the queue invariant |
| MpscQueueTheorems.FirstInFirstOut | src/common/tp_mpsc_queue.c:118-198 | what a poll took for a position is what the offer of that position put in; every position below head is taken or being read; at most a capacity is outstanding |
| MpscQueueTheorems.TakenIsPrefixOfClaimed | src/common/tp_mpsc_queue.c:168-198 | the items taken, in head order, are a prefix of the items claimed, in tail order |
| MpscQueueTheorems.HistoryGrows | src/common/tp_mpsc_queue.c:118-198 | a step claims at most one item, the stepping thread's own, and takes at most one new position, whose item that thread returns |
| MpscQueueTheorems.SlotsAreExclusive | src/common/tp_mpsc_queue.c:127-138 | no two threads own the same slot |
| MpscQueueTheorems.NothingLost | src/common/tp_mpsc_queue.c:118-198 | with capacity two or more, a written item stays in its slot until it is taken |
| MpscQueueTheorems.FullIsJustified | src/common/tp_mpsc_queue.c:139-143 | offer reports full exactly when the tail equals its position and the position one capacity earlier is unreleased |
| MpscQueueTheorems.EmptyIsJustified | src/common/tp_mpsc_queue.c:189-192 | poll reports empty exactly when the head equals its position and that position is unpublished |
| MpscQueueAnswers.FullNeedsCause | src/common/tp_mpsc_queue.c:118-150 | whatever a thread was doing, a step that answers full is the sequence load of an offer whose position is the tail and one capacity ahead of an untaken position |
| MpscQueueAnswers.EmptyNeedsCause | src/common/tp_mpsc_queue.c:168-199 | whatever a thread was doing, a step that answers empty is the sequence load of a poll whose position is the head and unclaimed or still being written |
| MpscQueueAnswers.OffersStayOffers | src/common/tp_mpsc_queue.c:118-150 | an offer that loses its exchange goes on offering the same item, and accepted is answered only after claiming and writing it |
| MpscQueueAnswers.PollsStayPolls | src/common/tp_mpsc_queue.c:168-199 | a poll that loses its exchange goes on polling, and an item is answered only after claiming and reading it |
| MpscQueueAnswers.LoneCallsAnswer | src/common/tp_mpsc_queue.c:118-199 | from any reachable state a thread left alone anywhere inside a call answers within size + 7 steps: an offer has its item claimed last unless the queue is full, a poll takes the oldest item unless there is none to take |
| MpscQueueTheorems.OneSlotLosesItems | src/common/tp_mpsc_queue.c:27-43 | a queue of capacity one, which initialisation accepts, overwrites an untaken item |
| MpscQueueTheorems.LosslessIffCapacityAboveOne | src/common/tp_mpsc_queue.c:27-43 | of the accepted capacities, exactly those above one lose nothing under every schedule |
| MpscQueueInPlace.Ring.constructor | src/common/tp_mpsc_queue.c:45-77 | a freshly allocated ring is empty |
| MpscQueueInPlace.Ring.Offer | src/common/tp_mpsc_queue.c:94-150 | used alone, offer appends the item exactly when the size matches and the ring is not full, and otherwise changes nothing; only in a ring of one slot is a full ring overwritten |
| MpscQueueInPlace.Ring.Poll | src/common/tp_mpsc_queue.c:152-199 | used alone, poll returns and removes the oldest item, or reports empty or a size mismatch and changes nothing |
| TraceId.InitIsWellFormed | src/common/tp_trace.c:46-73 | an accepted layout has the bits and offset asked for, at most 22 of them together, and a node that fits its field |
| TraceId.InitAcceptance | src/common/tp_trace.c:40-82 | an undefined shift needs the byte-wide sum of bit counts to wrap, and then nothing is accepted; without a wrap exactly the sensible arguments are accepted and every other one gets the error of its first fault |
| TraceId.IdShape | src/common/tp_trace.c:122-146 | disjunction with the node bits is addition: the id is timestamp, node and sequence side by side |
| TraceId.Packing | src/common/tp_trace.c:154-182 | the three extract functions recover exactly the timestamp, node and sequence of an id |
| TraceIdSafety.StepKeepsInv | src/common/tp_trace.c:109-151 | every step of every thread keeps the shared word well packed and the issued ids increasing |
| TraceIdSafety.StepKeepsPacked | src/common/tp_trace.c:109-151 | under any clock every step of every thread keeps the shared word, the proposals and the issued ids well packed |
| TraceIdSafety.EveryIdCarriesNode | src/common/tp_trace.c:100-152 | under any clock every id carries the node of its generator |
| TraceIdSafety.IdsIncrease | src/common/tp_trace.c:100-152 | while clock readings fit the field, each id is nonzero and exceeds every id whose exchange came earlier, over all threads |
| TraceIdSafety.NodesNeverCollide | src/common/tp_trace.c:46-74 | generators with the same layout and different nodes never issue the same id, whatever their clocks |
| TraceIdSafety.TimestampsOrderedAndBounded | src/common/tp_trace.c:119-147 | while clock readings fit the field, timestamps never go back along the issued ids, and at most 2^sequence_bits of them share one |
| TraceIdSafety.FirstIdTellsTimeIffClockFits | src/common/tp_trace.c:115-129 | the first id carries the true time exactly when the clock reading is not before the offset and fits the shifted field |
| TraceIdSafety.LateClockRepeatsIds | src/common/tp_trace.c:119-129 | every clock reading that does not fit the field makes two undisturbed calls return the same id |
| TraceIdSafety.ReadingPastTheField | src/common/tp_trace.c:119-129 | in the default layout the reading 2^42 makes node 5 issue its bare node bits twice |
| TraceIdSafety.IdsDistinctIffReadingsFit | src/common/tp_trace.c:109-151 | over all schedules with readings from a given set, ids are distinct, and increasing, exactly when every reading of the set fits |
| TraceIdInPlace.Generator.Next | src/common/tp_trace.c:100-152 | used alone, next passes over the readings that are not ahead of the word while all sequence numbers of its timestamp are used, and issues at the first other one: if it fits, the first number of its time, or else the next number of the old time |
| TraceIdCalls.WaitsIffExhausted | src/common/tp_trace.c:132-147 | a call waits exactly when its reading is not ahead of the timestamp of the word and all 2^sequence_bits numbers of that timestamp are used |
| TraceIdCalls.CallIssuesNext | src/common/tp_trace.c:109-151 | an undisturbed call with a reading that fits issues the id of the new time with number 0, or of the old time with the next number |
| TraceIdCalls.StandingClock | src/common/tp_trace.c:109-151 | with a clock that has moved on and then stands still, up to 2^sequence_bits undisturbed calls all return, with the numbers 0, 1, and so on, under one timestamp |
| TraceIdCalls.AMillisecondHoldsEverySequence | src/common/tp_trace.c:132-147 | a fresh generator issues each of the 2^sequence_bits numbers of a millisecond once, and the call after them waits |
| TraceIdCalls.CallsEndWithAnId | src/common/tp_trace.c:109-151 | among any other threads and under any clock, a call ends only by issuing the id of the word it installs, and changes nothing shared before |
| TraceIdCalls.LoneCallReturns | src/common/tp_trace.c:109-151 | from any reachable state, a thread left alone anywhere inside a call with a clock ahead of the word returns one id within five steps |
| Tensor.TensorHeader.FillInPlace | src/common/tp_tensor.c:170-234 | the in-place loops compute the specified strides and verdict, for both major orders |
| Tensor.TensorHeader.ValidateInPlace | src/common/tp_tensor.c:280-336 | in-place validation leaves the header and verdict of the specification |
| Tensor.TensorHeader.CheckProgress | src/common/tp_tensor.c:236-278 | the progress check decides the specified predicate |
| TensorAddressing.AcceptedIff | src/common/tp_tensor.c:170-336 | validation accepts exactly the headers whose strides, given or inferred, each meet the inner neighbour's demand, and leaves exactly those strides |
| TensorAddressing.ValidationIsFixedPoint | src/common/tp_tensor.c:280-336 | validating a validated header succeeds and changes nothing exactly when no stride inferred from the header given wraps below zero |
| TensorAddressing.RoomyIffExactFits | src/common/tp_tensor.c:178-229 | of the accepted headers, exactly those whose products, formed exactly from the header given, fit 32 bits have nested strides: each axis steps over all inner elements |
| TensorAddressing.ExactFitsIsFixedPoint | src/common/tp_tensor.c:280-336 | for those, a second validation succeeds and changes nothing |
| TensorAddressing.AddressingIsCollisionFree | src/common/tp_tensor.c:170-234 | when the exact products of the header given fit 32 bits, different in-range index tuples are at least one innermost stride apart and no element passes the outermost stride times its dimension, in both orders |
| TensorCollisions.SoundIffExactFits | src/common/tp_tensor.c:170-234 | with the outer strides inferred, different elements have different addresses and none lies outside the outermost axis if and only if there is no element or the exact products of the header given fit 32 bits |
| TensorCollisions.ExactFitsIffVolumeFits | src/common/tp_tensor.c:178-229 | for such headers the products fit exactly when the bytes under one outermost index do |
| TensorCollisions.NoStrideGiven | src/common/tp_tensor.c:170-234 | an accepted header without any stride of its own is of this kind |
| TensorCollisions.GivenStridesMayLeaveRoom | src/common/tp_tensor.c:178-229 | with outer strides given the condition is not needed: a header whose products do not fit is addressed soundly |
| TensorLayout.SizeIsWidth | src/common/tp_tensor.c:14-37 | for each of the thirteen element types of the wire schema, the size of its code is the width its name gives |
| TensorLayout.OnlyTypesHaveSizes | src/common/tp_tensor.c:14-37 | exactly the codes of those types have a size |
| TensorLayout.AcceptedHasType | src/common/tp_tensor.c:280-310 | an accepted header has one of those types, and an innermost stride left open becomes that type's width |
| TensorLayout.ElementBytesDisjoint | src/common/tp_tensor.c:170-234 | with the innermost stride left open and exact products that fit, the bytes of different elements do not overlap and none passes the outermost axis |
| TensorLayout.InferredLayoutIsContiguous | src/common/tp_tensor.c:170-234 | an accepted header without strides whose products fit describes the contiguous layout of its order: an element's address is its width times its row-major or column-major number |
| TensorLayout.ProgressStrideIsTrue | src/common/tp_tensor.c:236-278 | a declared progress stride passes exactly when it is not zero and is the distance in bytes between adjacent rows, or columns |
| TensorAddressing.WrappedStridesCollide | src/common/tp_tensor.c:178-198 | a header whose product wraps is accepted with two elements at one address |
| TensorAddressing.WrappedStridesAreNotFixed | src/common/tp_tensor.c:312-322 | a header whose product wraps below zero is accepted once and refused when validated again |
| JoinBarrierInPlace.BarrierState.ApplySequence | src/common/tp_join_barrier.c:176-205 | applying a sequence map in place gives the specified barrier, or refuses and changes nothing |
| JoinBarrierInPlace.BarrierState.ApplyTimestamp | src/common/tp_join_barrier.c:207-238 | the same for a timestamp map, lateness included |
| JoinBarrierInPlace.BarrierState.FindState | src/common/tp_join_barrier.c:304-324 | the search finds the first input of a stream |
| JoinBarrierInPlace.BarrierState.UpdateObservedSeq | src/common/tp_join_barrier.c:326-356 | the in-place update is the specified one: verdict and whole new state |
| JoinBarrierInPlace.BarrierState.UpdateProcessedSeq | src/common/tp_join_barrier.c:358-382 | the in-place update is the specified one: verdict and whole new state |
| JoinBarrierInPlace.BarrierState.UpdateObservedTime | src/common/tp_join_barrier.c:405-442 | the in-place update is the specified one, clock and source checks included |
| JoinBarrierInPlace.BarrierState.UpdateProcessedTime | src/common/tp_join_barrier.c:444-480 | the in-place update is the specified one, clock and source checks included |
| JoinBarrierInPlace.BarrierState.InvalidateLatest | src/common/tp_join_barrier.c:857-869 | invalidation changes the first input of the stream alone |
| JoinBarrierInPlace.BarrierState.IsReadySequence | src/common/tp_join_barrier.c:554-629 | the loop decides the specified sequence readiness |
| JoinBarrierInPlace.BarrierState.IsReadyTimestamp | src/common/tp_join_barrier.c:697-748 | the loop decides the specified timestamp readiness and remembers the out-time |
| JoinBarrierInPlace.BarrierState.IsReadyLatest | src/common/tp_join_barrier.c:750-855 | the loop decides the specified latest-value readiness and remembers the out-time under timestamp ordering |
| JoinBarrierInPlace.BarrierState.Collect | src/common/tp_join_barrier.c:871-943 | collecting returns the specified selections or refuses |
| JoinBarrierInPlace.BarrierState.CollectStale | src/common/tp_join_barrier.c:497-552 | the stale streams in rule order, only their number without a buffer, refused when the buffer is too small |
| JoinBarrierHistory.RunningMaximum | src/common/tp_join_barrier.c:326-480 | a channel of an input is set exactly when something was ever offered on it, and then holds the largest value offered, accepted or not |
| JoinBarrierHistory.StalenessFromHistory | src/common/tp_join_barrier.c:482-495 | an input is stale exactly when its last advancing observation is too old |
| JoinBarrierHistory.StaleStreamsAreTheStaleOnes | src/common/tp_join_barrier.c:497-552 | a stream is reported stale exactly when one of its inputs is |
| JoinBarrierHistory.SequenceReadyIffHistory | src/common/tp_join_barrier.c:554-629 | the answer is 1 exactly when there are rules and every rule of an input that is not stale has been offered (and processed, where required) what it asks for |
| JoinBarrierMaps.SequenceMapReadyIffHistory | src/common/tp_join_barrier.c:176-205 | the same under an applied map, whatever the barrier held before, with streams, rules and stale timeout taken from the map |
| JoinBarrierMaps.TimestampMapReadyIffHistory | src/common/tp_join_barrier.c:207-238 | the timestamp answer under an applied map, with streams, sources, clock, lateness, stale timeout and rules taken from the map |
| JoinBarrierMaps.LatestOfSequenceMap | src/common/tp_join_barrier.c:176-205 | the latest-value answer under an applied sequence map, which brings no clock |
| JoinBarrierMaps.LatestOfTimestampMap | src/common/tp_join_barrier.c:207-238 | the latest-value answer under an applied timestamp map, with its clock, sources and stale timeout |
| JoinBarrierMaps.MapsApplyIffTheyFit | src/common/tp_join_barrier.c:176-238 | a map is applied exactly when its rules fit and the barrier is of the kind asked for; otherwise nothing changes |
| JoinBarrierMaps.AppliedSequenceMap | src/common/tp_join_barrier.c:176-205 | an applied sequence map clears every input and the remembered out-time, and its terms are in force |
| JoinBarrierMaps.AppliedTimestampMap | src/common/tp_join_barrier.c:207-238 | an applied timestamp map clears every input and the remembered out-time, and its terms, lateness included, are in force |
| JoinBarrierMaps.LatenessIsInForce | src/common/tp_join_barrier.c:231-231 | under a map with lateness 50 an input observed at 60 is ready at out-time 100, under one with lateness 0 it is not |
| JoinBarrierAnswers.UpdateAcceptedIffHistory | src/common/tp_join_barrier.c:326-480 | an update is accepted exactly when it names an input, comes from its clock and source, and carries no value or one not below what was offered before |
| JoinBarrierAnswers.SequenceAnswerByHistory | src/common/tp_join_barrier.c:554-629 | all three answers of a sequence barrier: the first input in rule order that is not ready decides between not ready and refused |
| JoinBarrierAnswers.TimestampAnswerByHistory | src/common/tp_join_barrier.c:697-748 | all three answers of a timestamp barrier: the wrong clock and an out-time below an earlier one are refused, then the first rule that is not ready decides |
| JoinBarrierAnswers.LatestAnswerByHistory | src/common/tp_join_barrier.c:750-855 | all three answers of a latest-value barrier, in the order of its checks |
| JoinBarrierAnswers.CollectingByHistory | src/common/tp_join_barrier.c:871-943 | collecting succeeds exactly when the buffer holds all inputs, ordering by time has a clock, and every input, stale or not, is current and comparable; it then gives the largest number and time of each, in rule order |
| JoinBarrierAnswers.StaleStreamsInOrder | src/common/tp_join_barrier.c:497-552 | the stale streams come in rule order, one for each stale input |
| JoinBarrierHistory.AskedIsTargetIffFits | src/common/tp_join_barrier.c:588-606 | a rule asks for what it means exactly when its sums stay inside the machine word |
| JoinBarrierHistory.SequenceRuleExactIffFits | src/common/tp_join_barrier.c:588-629 | a rule agrees with exact arithmetic on all observed and processed sequence numbers exactly when out + offset is below 2^63 and a window is not asked about 2^64 - 1, or the input lacks the numbers it needs |
| JoinBarrierHistory.LastOutSequenceAsksForFour | src/common/tp_join_barrier.c:588-595 | out-sequence 2^64 - 1 with offset 5 is ready at sequence number 4 |
| JoinBarrierHistory.LastOutSequenceClosesWindows | src/common/tp_join_barrier.c:596-606 | a window rule is not ready at out-sequence 2^64 - 1 although that number was observed |
| JoinBarrierHistory.SequenceReadyIsStable | src/common/tp_join_barrier.c:554-629 | with staleness off, once ready stays ready under any further updates |
| JoinBarrierTimes.AskedIsTargetIffFits | src/common/tp_join_barrier.c:644-678 | a timestamp rule waits for what it means exactly when its sums stay inside the machine word |
| JoinBarrierTimes.TimestampRuleOnState | src/common/tp_join_barrier.c:636-695 | for every input, a timestamp rule is met exactly when what it waits for is not negative and reached by the observed time (and the processed one, where required) plus lateness, in 64 bits |
| JoinBarrierTimes.TimestampRuleExactIffFits | src/common/tp_join_barrier.c:636-695 | a timestamp rule agrees with exact arithmetic on all observed and processed times exactly when its sums fit and no lateness can wrap a time it waits for, or it lets every time pass and rightly so, or the input lacks the times it needs |
| JoinBarrierTimes.LatenessWrapsObservedTime | src/common/tp_join_barrier.c:680-684 | under a lateness of 2^64 - 2 an input observed at 100 is not ready at out-time 100 |
| JoinBarrierTimes.NegativeTargetReadyIffLatenessWraps | src/common/tp_join_barrier.c:646-659 | a rule with a negative target is met exactly when lateness minus offset wraps past the out-time |
| JoinBarrierTimes.WrappedLatenessIsReady | src/common/tp_join_barrier.c:646-659 | a lateness of 2^63 makes out-time 0 ready under an offset of -2^63 |
| JoinBarrierTimes.AcceptedTimesNeverDecrease | src/common/tp_join_barrier.c:713-726 | the out-times a barrier does not refuse never go back, whatever updates come between |
| JoinBarrierTimes.RegressionIffLaterQuestion | src/common/tp_join_barrier.c:713-726 | over any run an out-time is below the remembered one exactly when a later out-time was asked about before |
| JoinBarrierTimes.TimestampReadyIffHistory | src/common/tp_join_barrier.c:697-748 | the answer is 1 exactly when the clock is right, no later out-time was asked about before, and every rule of an input that is not stale has been offered the time it waits for |
| JoinBarrierTimes.RuleMetWithinLateness | src/common/tp_join_barrier.c:636-695 | in range that is: some time within the lateness of the rule's target was offered |
| JoinBarrierLatest.ValidityFromHistory | src/common/tp_join_barrier.c:857-869 | an input is current exactly when an observation advanced it after its last invalidation |
| JoinBarrierLatest.FirstSequenceBelowObserved | src/common/tp_join_barrier.c:340-355 | the minimum of the epoch is set exactly when a sequence number was observed and never exceeds the running maximum |
| JoinBarrierLatest.FirstSequenceIsFirstOffer | src/common/tp_join_barrier.c:347-351 | that minimum is the first sequence number offered since the map was applied |
| JoinBarrierLatest.LatestReadyIffHistory | src/common/tp_join_barrier.c:750-855 | the answer is 1 exactly when every input that is not stale is current by its history and, under timestamp ordering, no later out-time was asked about before; the remaining guards are redundant |
| JoinBarrierLatest.ReadyMeansCollectable | src/common/tp_join_barrier.c:899-942 | with staleness off, ready implies that collecting succeeds with the largest sequence number and time of each input, in rule order |
| MergeMapRegistry.Registry.FindEntry | src/common/tp_merge_map.c:903-928 | the search finds the first live entry with key and epoch, or none |
| MergeMapRegistry.Registry.FindSlot | src/common/tp_merge_map.c:930-959 | the entry of the key and epoch, else a free one, else none and every entry is in use |
| MergeMapRegistry.Registry.InvalidateStream | src/common/tp_merge_map.c:961-984 | exactly the entries of the key under another epoch are freed |
| MergeMapRegistry.Registry.UpsertSequence | src/common/tp_merge_map.c:986-1034 | an accepted upsert is found under the sequence kind, its own output stream and its own epoch, no other epoch, and leaves every other lookup of either kind alone; it is refused, changing nothing, exactly when the table is full and lacks the key |
| MergeMapRegistry.Registry.UpsertTimestamp | src/common/tp_merge_map.c:1036-1084 | the same for timestamp maps under the timestamp kind |
| MergeMapRegistry.Registry.FindSequence | src/common/tp_merge_map.c:1086-1109 | lookup answers from the abstract table: a sequence map of the stream and epoch asked for, if there is one |
| MergeMapRegistry.Registry.FindTimestamp | src/common/tp_merge_map.c:1111-1134 | the same for timestamp maps |
| MergeMapRegistry.TableContents | src/common/tp_merge_map.c:903-928 | the table's keys are those of the live entries, with their maps |
| MergeMapRegistry.WriteAfterInvalidate | src/common/tp_merge_map.c:997-1033 | invalidating the key and writing one entry keeps one live entry per key and updates the table at that key alone |
| MergeMapRegistry.FirstKeysOwnTheTable | src/common/tp_merge_map.c:930-1084 | over any run the table holds exactly the first keys announced, as many as fit |
| MergeMapRegistry.KeyIsName | src/common/tp_merge_map.c:986-1084 | a map's key is the kind of map it is and its output stream |
| MergeMapRegistry.LookupFindsLastAnnounced | src/common/tp_merge_map.c:986-1134 | a lookup finds a map exactly when it is the last one announced of its kind and output stream, its key is owned, and its own epoch is the one asked for |
| LeaseKeepalive.DriverClient.UpdateLease | src/client/tp_driver_client.c:1787-1805 | an attach installs lease and expiry and leaves the time of the last keepalive |
| LeaseKeepalive.DriverClient.RecordKeepalive | src/client/tp_driver_client.c:1807-1836 | a keepalive is recorded and the expiry extended, in 64-bit arithmetic |
| LeaseKeepalive.DriverClient.KeepaliveDue | src/client/tp_driver_client.c:1838-1852 | decides whether a keepalive is due |
| LeaseKeepalive.DriverClient.LeaseExpired | src/client/tp_driver_client.c:1854-1873 | decides whether the lease has expired |
| LeaseKeepalive.Client.DoWork | src/client/tp_client.c:276-306 | the loop serves the drivers in order and stops at the first lost lease or failed offer |
| LeaseKeepalive.NeverExpires | src/client/tp_client.c:276-306 | a lease attached with an interval and a gap to spare never expires over any run of calls at gaps of at most (grace - 1) intervals |
| LeaseKeepalive.LongerGapLosesLease | src/client/tp_driver_client.c:1807-1873 | for every longer gap there is a properly attached, properly paced run that loses the lease |
| LeaseKeepalive.ExpiryNeverDecreases | src/client/tp_driver_client.c:1817-1834 | the recorded expiry never decreases, whether offers succeed or fail, and a lost lease stays lost |
| LeaseKeepalive.NoLeaseExpires | src/client/tp_client.c:276-306 | the guarantee holds at once for every lease of a client with several drivers |
| LeaseOutcomes.LostIffOver | src/client/tp_driver_client.c:1854-1873 | a call finds the lease lost exactly when there is one with a deadline and the deadline has come |
| LeaseOutcomes.ServeOutcome | src/client/tp_client.c:276-306 | a lost lease gives up its id; a failed offer changes nothing; a keepalive sent is recorded and moves the deadline to grace intervals from now, if that is later |
| LeaseOutcomes.RemembersLastSent | src/client/tp_driver_client.c:1807-1836 | over any run the remembered time is that of the last keepalive sent |
| LeaseOutcomes.FailedKeepaliveIsRetried | src/client/tp_client.c:276-306 | a keepalive whose offer failed is wanted again at the next call, unless the lease is over by then |
| LeaseOutcomes.ClockWentBack | src/client/tp_driver_client.c:1838-1852 | a clock below the last keepalive makes one due unless the interval is longer than 2^64 minus the step back |
| LeaseOutcomes.WalkStopsAtFirstFailure | src/client/tp_client.c:276-306 | a walk over the drivers serves each one before the first failure, that one included, and leaves the others alone; it succeeds exactly when there is no failure |
| MetadataPoller.Poller.Begin | src/client/tp_metadata_poller.c:25-39 | an announcement starts a blob at offset zero |
| MetadataPoller.Poller.ValidateChunk | src/client/tp_metadata_poller.c:41-96 | a chunk is accepted and advances the offset, or resets the blob, as specified |
| MetadataPoller.Poller.ValidateComplete | src/client/tp_metadata_poller.c:98-135 | a completion is accepted exactly when identity, checksum and length agree |
| MetadataPoller.Poller.Handle | src/client/tp_metadata_poller.c:179-217 | dispatch performs the specified step |
| MetadataPoller.CompletionIffWholeBlob | src/client/tp_metadata_poller.c:98-135 | a completion is delivered exactly when chunks since an announcement of the same stream, version and checksum tile its length |
| MetadataPoller.ChunkIffContinues | src/client/tp_metadata_poller.c:41-96 | a chunk is delivered exactly when it is not empty and continues, inside the length, a tiling since an announcement of its stream and version |
| MetadataPoller.AnnouncementsAreDelivered | src/client/tp_metadata_poller.c:179-217 | every announcement is delivered, and messages of other kinds are neither delivered nor noticed |
| MetadataPoller.EveryByteOnce | src/client/tp_metadata_poller.c:41-96 | in a tiled stretch every byte below the offset arrived in exactly one chunk and none beyond |
| MetadataPoller.OffsetNeverBeyondTotal | src/client/tp_metadata_poller.c:79-84 | a contiguous chunk never lies beyond the total length, so that check cannot fire |
| MetadataPoller.NothingCompletesTwice | src/client/tp_metadata_poller.c:203-217 | between two completions of which the second is delivered there is a new announcement |
| ProgressTracker.Poller.Resize | src/client/tp_progress_poller.c:141-181 | growing the table keeps every entry and adds empty ones |
| ProgressTracker.Poller.SetConsumer | src/client/tp_progress_poller.c:356-385 | following a consumer sets the slot count and grows the table to it |
| ProgressTracker.Poller.Validate | src/client/tp_progress_poller.c:16-139 | validation performs the specified step in both modes |
| ProgressTracker.RejectedChangesNoEntry | src/client/tp_progress_poller.c:26-139 | a rejected update changes no entry |
| ProgressTracker.SlotHoldsLast | src/client/tp_progress_poller.c:47-96 | a direct-mapped slot holds the last update accepted into it |
| ProgressTracker.DirectMappedAcceptance | src/client/tp_progress_poller.c:47-96 | accepted are exactly the updates within the limit that pass the validator and do not go below the same frame's last update still in the slot |
| ProgressTracker.DirectMappedIsMonotone | src/client/tp_progress_poller.c:47-96 | a lower byte count for a frame is accepted only after another frame took its slot |
| ProgressRotation.NoFrameHeldTwice | src/client/tp_progress_poller.c:98-138 | without a slot count no frame is ever held twice |
| ProgressRotation.RememberedForOneTable | src/client/tp_progress_poller.c:132-138 | a frame is remembered exactly until as many others were inserted as the table has entries |
| ProgressRotation.RotatingIsMonotone | src/client/tp_progress_poller.c:98-138 | a lower byte count for a frame is accepted only after it was forgotten |
| ProgressRotation.RotatingAcceptance | src/client/tp_progress_poller.c:98-138 | from an empty table, accepted are exactly the updates within the limit that pass the validator and do not go below the last count accepted for a frame still remembered |
| ConsumerEpoch.ConsumerState.UnmapRegions | src/client/tp_consumer.c:59-91 | unmapping resets state, epoch, attach time, the three counters and the time of the last report |
| ConsumerEpoch.ConsumerState.Apply | src/client/tp_consumer.c:267-377 | applying an announcement has the specified effect for each way attaching can end |
| ConsumerEpoch.ConsumerState.HandleAnnounce | src/client/tp_consumer.c:564-644 | the announcement handler performs the specified step |
| ConsumerEpoch.ConsumerState.HandleConfig | src/client/tp_consumer.c:670-701 | the configuration handler performs the specified step |
| ConsumerEpoch.ConsumerState.HandleDescriptor | src/client/tp_consumer.c:513-543 | the descriptor handler performs the specified step |
| ConsumerEpoch.ConsumerState.CountLateRead | src/client/tp_consumer.c:1600-1606 | a read that comes too late is counted |
| ConsumerEpoch.ConsumerState.ReportIfDue | src/client/tp_consumer.c:1918-1933 | a poll reports at once after unmapping and then when a period has passed, in 64 bits |
| ConsumerEpoch.MappedEpochIsLastAdopted | src/client/tp_consumer.c:618-641 | over any run, mapped implies shared memory in use and the mapped epoch equal to the last adopted one |
| ConsumerEpoch.MappedEpochsNeverDecrease | src/client/tp_consumer.c:618-641 | mapped epochs never go back, whatever was unmapped in between |
| ConsumerEpoch.DeliveredMeansMappedEpoch | src/client/tp_consumer.c:513-543 | a descriptor is delivered exactly when regions are mapped for its epoch, which is the last one adopted |
| ConsumerEpoch.GapsAreConserved | src/client/tp_consumer.c:530-537 | over one mapping the gap count is the numbers skipped between first and largest plus, in 64 bits, the sum of the numbers that came after 2^64 - 1 |
| ConsumerEpoch.GapCountIsSkippedIffNothingAfterMaximum | src/client/tp_consumer.c:530-537 | so it is exactly what was skipped if and only if that sum is 0 in 64 bits, as it is while 2^64 - 1 has not been seen |
| ConsumerEpoch.LateReadsAreCounted | src/client/tp_consumer.c:1600-1666 | over one mapping the late counter counts exactly the reads that came too late, in 64 bits |
| ConsumerEpoch.LateDescriptorCountedAsGap | src/client/tp_consumer.c:530-533 | after number 2^64 - 1 a late descriptor numbered 7 adds 7 to the gap count |
| ConsumerEpoch.NoGapWithoutAdvanceIffNotAtMaximum | src/client/tp_consumer.c:530-533 | a descriptor that does not advance leaves the gap count alone exactly when the last number was not 2^64 - 1, or it is 0 |
| ConsumerControl.AdoptedIff | src/client/tp_consumer.c:564-644 | an announcement whose attaching succeeds is adopted exactly when shared memory is chosen, it concerns this consumer, is fresh, and its epoch is not below the last one adopted; its epoch is then mapped with nothing counted |
| ConsumerControl.OthersAreIgnored | src/client/tp_consumer.c:564-616 | one that does not concern the consumer or is not fresh changes nothing but the time listening began |
| ConsumerControl.OlderEpochUnmaps | src/client/tp_consumer.c:618-641 | one of an older epoch takes the mapping away, or changes nothing if there is none |
| ConsumerControl.FailedAttaches | src/client/tp_consumer.c:267-377 | an attach that is refused costs a mapping of another epoch only, one that fails costs any, and a fallback counts the epoch as adopted |
| ConsumerControl.FreshnessExactIffPeriodFits | src/client/tp_consumer.c:577-590 | announcements are judged by their exact age exactly when three periods fit 64 bits |
| ConsumerControl.LongPeriodIgnoresRecent | src/client/tp_consumer.c:577-590 | with a period of 2^63 an announcement just over one period old is ignored |
| ConsumerControl.ChoiceIsLastConfiguration | src/client/tp_consumer.c:670-701 | over any run shared memory is in use exactly as the last configuration addressed to the consumer says |
| ConsumerControl.ConfigurationOutcome | src/client/tp_consumer.c:670-701 | a configuration for another consumer, or with half a channel assigned, changes nothing; one against shared memory unmaps and falls back; one for it ends a fallback |
| ConsumerControl.DescriptorOutcome | src/client/tp_consumer.c:513-543 | without a mapping a descriptor changes nothing; one of another epoch unmaps; one of the mapped epoch keeps the largest number |
| ConsumerControl.ReportsWhenDue | src/client/tp_consumer.c:1918-1933 | a poll reports exactly when connected, reporting is on, and a period has passed since the last report or there was none |
| ConsumerControl.ReportsAfterClockWentBack | src/client/tp_consumer.c:1918-1933 | with a clock below the last report, exactly when the period does not exceed 2^64 minus the step back |
| ConsumerControl.ReportsAreSpaced | src/client/tp_consumer.c:1918-1933 | while the clock does not go back and nothing is unmapped, two reports of a run are at least a period apart |
| TraceHistory.RingHoldsMostRecent | src/client/tp_producer.c:142-154 | a slot holds the most recent record of its residue class |
| TraceHistory.AcceptedIffCurrent | src/client/tp_producer.c:156-183 | the ring agrees with the full log, except for the blank link of an unused class |
| TraceHistory.TraceLinks.Record | src/client/tp_producer.c:142-154 | recording appends to the log the ring stands for |
| TraceHistory.TraceLinks.Validate | src/client/tp_producer.c:156-183 | for a nonzero trace id the validator accepts exactly the most recent link of its residue class in the full log |

## Left out

- MpscQueueTheorems.FirstInFirstOut: positions are unbounded; wrap-around of the 64-bit head and tail is not modelled, and the same holds of the other queue theorems.
- FrameRingSafety.NoTornRead: requires that no claim is committed twice and that fewer than 2^63 numbers are used; the second commit is covered by a counterexample.
- FrameRingPayload.PayloadIntactAtVerdict: requires claims closed within a lap and pools whose products fit 32 bits, without which it fails; both have a counterexample.
- FrameProgressCheck.AcceptedProgressIsWithinFrame: does not say whose tensor header was validated, because it may be a later frame's; `FrameProgressHeaders` says when it is the frame's own.
- TensorCollisions.SoundIffExactFits: requires the outer strides to be inferred and the innermost one to divide 2^32; with outer strides given, overflowing products may be harmless, as `GivenStridesMayLeaveRoom` shows, and only the sufficient condition is stated.
- FrameRingOverlap.WrappedSlotTearsPayload: requires the wrapped slot below 2^24, where its header slot differs from the first one; the theorem over all schedules has no such bound.
- ConsumerControl.AdoptedIff: requires three announcement periods to fit 64 bits, as do the other lemmas on announcements; `FreshnessExactIffPeriodFits` says that this is what exact ages need.
- ConsumerControl.ReportsAreSpaced: requires a clock that does not go back and no unmapping in between; `ReportsAfterClockWentBack` and `ReportsAfterUnmapping` say what happens otherwise.
- LeaseOutcomes.ServeOutcome: requires a clock not below the last keepalive and sums inside 64 bits; `ClockWentBack` covers the first, and `RecordKeepalive` states the wrapped sum.
- TraceIdCalls.StandingClock: requires a reading that fits the timestamp field; `LateClockRepeatsIds` says what happens otherwise.
- MpscQueueAnswers.LoneCallsAnswer: requires a capacity above one, as do the causes of full and empty; with one slot items are lost.
- LeaseKeepalive.NeverExpires: assumes that no sum of the run leaves 64 bits and that every keepalive offer succeeds.
- The byte layout of messages and slots, padding, and the generated codecs; the enumeration checks of the tensor header decoder, which validation repeats.
- Publications, subscriptions, fragment assembly and the conductor: an offer is an oracle, and a handler receives decoded messages.
- Memory orders weaker than sequential consistency, and the queue's allocation on first use.
- `tp_producer_queue_claim` in fixed-pool mode, which stamps an old slot with a new number.
- Resource bookkeeping while attaching (regions, URIs, superblocks) and attaching through the driver: only the mapping and epoch fields are kept, and attaching ends as an oracle says.
- Allocation failure, null-argument guards, logging and error texts.
- The consumer registry and minimum aggregation, which would repeat the registry argument more simply.
- Shared-memory files and permissions, URI parsing, configuration loading, discovery, the supervisor, examples, tools and fuzz drivers.

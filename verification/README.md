# Feed handler core: a verified model

This Dafny project models a market-data feed handler and proves what it promises.
One thread publishes ticks into a single-producer single-consumer ring; another
takes them out and applies them to an order book of 64 price levels a side; a
capture layer records ticks to a file and replays them.

The modules follow the program:

- `Ticks`, `Bits`: ticks, levels, machine words, and the bit mask of a ring slot.
- `RingMachine`, `RingSafety`, `RingTheorems`, `RingCalls`, `RingWrap`,
  `RingOfOne`: the lock-free ring, cut at every access to shared memory and
  interleaved in every order, in the release/acquire fragment of the C++20 memory
  model. An acquire load may return any entry of a slot's modification history
  that is not hidden by a later one that happens before the load; a data race on a
  tick cell is a state `UB`. Sequential consistency is the special case in which
  loads return the newest entry. The machine exists with cursors that wrap at 2^64
  and with unbounded ones.
- `Disruptors`: the ring's arrays and cursors, for calls that run to completion.
- `Levels`, `DeepBook`: one side as a sorted list; the unbounded book of the same
  deltas; how much of the second the first still shows.
- `Book`, `BookRuns`, `Snapshots`, `Sequences`: ticks, clears, snapshot batches,
  counters and queries of a whole book, over all runs.
- `BookSides`, `OrderBooks`, `Engines`: the same in the form the program has them,
  arrays and counters updated in place, proved against the value models.
- `Pipelines`, `LongBatches`: producer, ring and engine together, interleaved step
  by step, and how long one batch can get.
- `Capture`: the record codec, the recorder, and the reader fed in chunks.

What a reader may not expect:

- The compile-time check on the ring size admits one slot, and a ring of one slot
  is not safe: `cursor + 1` and `cursor + RING_SIZE` coincide there. Among the
  admitted sizes exactly those of two or more are safe (`RingOfOne.SafeIffTwoSlots`).
- The tracked side is not always the best 64 levels of the true book, because an
  evicted level does not come back. Let L count the removals since the last clear
  that came after the first lost level: the best 64 - L levels are exact
  (`DeepBook.TopOfBookExact`), and no bound that looks only at L does better
  (`DeepBook.ExactnessIsTight`). For each depth n, 64 included, the best n levels
  are exact if and only if every price that was lost and is live is tracked again
  or beaten by n tracked levels (`DeepBook.TopExactIff`). L can be computed from the
  result codes that `apply` returns (`BookRuns.CodesTell`).
- `NoOp` does not mean that nothing changed (`BookRuns.NoOpKeepsSideIff`,
  `BookRuns.NoOpCanClear`).
- A first snapshot with the id u32::MAX does not clear, and neither does any batch
  that comes with the id already stored: it is merged
  (`Snapshots.FirstSnapshotMerges`). A batch leaves exactly its own best 64 levels
  if and only if its id is new or no old level survives it, that is, each is
  overwritten or beaten by 64 levels of the batch (`Snapshots.SnapshotReplacesIff`).
- A single batch of 2^32 or more ticks undercounts. With a producer that keeps up
  there is such a batch in a ring of any size (`LongBatches.BatchCountWraps`), and
  one of exactly 2^32 ticks is not counted at all (`LongBatches.LongBatchUncounted`);
  counting is right exactly below 2^32, up to whole turns of the u64 counter
  (`Pipelines.BatchCountsIff`).
- The repository's README says that capture and replay are not shipped; they are.
  A comment in the concurrency test speaks of four slots; the code has two. The
  model follows the code.

Binary search is written as a plain bisection. Prices on a side are distinct, so
every correct search returns the index proved here. Integers that the program
increments with `+=` wrap, as they do in a release build.

## Model

| member | source | states |
|---|---|---|
| Bits.MaskIsMod | src/ring_buffer.rs:16 | masking with 2^k - 1 is the remainder modulo 2^k, for all operands |
| RingMachine.MaskIsIndex | src/ring_buffer.rs:145-146 | the masked cursor is an index below RING_SIZE and equals the cursor modulo the size |
| RingSafety.InitInv | src/ring_buffer.rs:92-112 | a new ring satisfies the invariant: slot i waits for cursor i |
| RingSafety.ProducerLoad | src/ring_buffer.rs:146-152 | whatever history entry the producer's load may return, it equals the cursor exactly when it is the newest entry and fewer than N ticks are outstanding |
| RingSafety.ConsumerLoad | src/ring_buffer.rs:169-174 | whatever entry the consumer's load may return, it equals cursor + 1 exactly when it is the newest and some tick is outstanding |
| RingSafety.PublishFills | src/ring_buffer.rs:23-26 | the publishing store turns the free slot of the next cursor into the full slot of that cursor |
| RingSafety.ReleaseFrees | src/ring_buffer.rs:23-26 | the releasing store turns the slot of the oldest unread cursor into the free slot of the cursor one lap ahead |
| RingSafety.StepInv | src/ring_buffer.rs:141-180 | every micro-step of either thread keeps the protocol invariant |
| RingSafety.Reachable | src/ring_buffer.rs:141-180 | the invariant holds after every schedule |
| RingTheorems.Safety | src/ring_buffer.rs:36-39 | under weak memory no schedule reaches a data race; a thread that passed its check holds the slot of its own next cursor, whose last access by the other thread happens before; the consumer's cell holds the tick accepted for that cursor; the two threads never hold the same slot |
| RingTheorems.PublishOutcome | src/ring_buffer.rs:145-152 | a publish passes exactly when its load was up to date and the ring was not full at that load; stale loads only refuse spuriously |
| RingTheorems.ConsumeOutcome | src/ring_buffer.rs:168-174 | a consume passes exactly when its load was up to date and the ring was not empty at that load |
| RingTheorems.RefinesQueue | src/ring_buffer.rs:141-180 | every micro-step of every schedule is a step of a FIFO queue of capacity N: enqueue at the publishing store, dequeue at the releasing store, no change elsewhere |
| RingTheorems.CallersView | tests/loom_ring_buffer.rs:39-70 | ticks come out in the order of the accepted publish calls, none lost, doubled or reordered; accepted plus refused calls are all finished calls, and dropped is the refused ones modulo 2^64 |
| RingTheorems.CursorGap | src/ring_buffer.rs:182-187 | at any instant the unbounded cursors differ by -1 to N + 1, and by the outstanding count when neither thread is between its two stores |
| RingCalls.PublishAlone | src/ring_buffer.rs:141-159 | from any reachable state, with the consumer stopped anywhere, a publish that runs alone and whose load is up to date ends and appends its tick exactly when fewer than N are outstanding, else counts one drop (a stale load may refuse: see `RingTheorems.PublishOutcome`) |
| RingCalls.ConsumeAlone | src/ring_buffer.rs:164-180 | likewise a consume that runs alone and whose load is up to date returns the oldest tick, or nothing exactly when the ring is empty |
| RingWrap.WrappingRefinesUnbounded | src/ring_buffer.rs:145-178 | under every schedule the machine on wrapping u64 words is the unbounded machine with its words reduced modulo 2^64, through any number of wraparounds |
| RingOfOne.OneSlotOverfills | src/ring_buffer.rs:18 | in a ring of one slot a second publish is accepted while the first tick is unread |
| RingOfOne.OneSlotCollides | src/ring_buffer.rs:18 | a schedule of the one-slot ring that ends in a data race |
| RingOfOne.SafeIffTwoSlots | src/ring_buffer.rs:18 | among the sizes the compile-time check admits, every schedule is free of undefined behaviour exactly when the size is at least two |
| Disruptors.PublishWord | src/ring_buffer.rs:149 | between calls the producer's slot word equals its cursor exactly when there is room |
| Disruptors.ConsumeWord | src/ring_buffer.rs:172 | between calls the consumer's slot word equals its cursor + 1 exactly when a tick is there, and the cell holds the oldest one |
| Disruptors.SpscDisruptor.constructor | src/ring_buffer.rs:92-112 | for every admitted size slot i starts at sequence i with a blank tick and all counters at zero; from two slots on this is an empty ring |
| Disruptors.SpscDisruptor.TryPublish | src/ring_buffer.rs:141-159 | a call that no other call overlaps appends the tick exactly when the ring is not full; otherwise it counts one more refusal |
| Disruptors.SpscDisruptor.TryConsume | src/ring_buffer.rs:164-180 | a call that no other call overlaps returns and removes the oldest tick, nothing exactly when the ring is empty |
| Disruptors.SpscDisruptor.Pending | src/ring_buffer.rs:182-187 | between calls the wrapping cursor difference is the number of ticks held |
| Disruptors.SpscDisruptor.DroppedCount | src/ring_buffer.rs:189-194 | the number of publish calls refused since construction, modulo 2^64 |
| Levels.DeltaMeaning | src/types.rs:186-245 | which case a delta is (by tracked, zero, 64 levels, beats the worst), exactly which levels are left, the change of count, and that the side stays strictly sorted with at most 64 levels |
| Levels.InsertionUnique | src/types.rs:202-210 | an index that splits the side into better and worse prices is the insertion point, and the price is untracked |
| DeepBook.LostMeans | src/types.rs:232-244 | the prices a delta loses are exactly those it makes live but untracked |
| DeepBook.TopOfBookExact | src/types.rs:186-245 | after any deltas on a cleared side, L removals of which came after the first lost level, the best 64 - L levels with quantities are those of the unbounded book |
| DeepBook.TopByRemovals | src/types.rs:186-245 | so are the best 64 - R, R counting all removals |
| DeepBook.TopExactIff | src/types.rs:186-245 | for every depth n the best n levels are exact if and only if every lost live price is tracked again or beaten by n tracked levels |
| DeepBook.ExactnessIsTight | src/types.rs:236-244 | on both sides and for every L from 1 on, a run with L removals, all late, after which the level behind the guaranteed ones is wrong |
| DeepBook.LossInvHolds | src/types.rs:186-245 | every live untracked price was evicted or discarded, and at least 64 - L tracked levels beat it |
| DeepBook.LossySoundness | src/types.rs:186-245 | a tracked level is live with its latest quantity; a price never lost, in particular one better than all lost prices, is tracked exactly when it is live |
| DeepBook.LevelConservation | src/types.rs:212-245 | the count is the Inserted results less the Removed ones, and a level is evicted or discarded only when the side was full |
| DeepBook.SideFills | src/types.rs:148 | every length up to 64 is reached by insertions alone |
| DeepBook.ResultsLate | src/types.rs:252-263 | L is a function of the result codes alone: the Removed codes after the first InsertedEvicted or Discarded |
| DeepBook.RankingUnique | src/types.rs:150-153 | an unbounded book has one best-first listing |
| BookSides.BookSide.constructor | src/types.rs:167-173 | a new side is empty |
| BookSides.BookSide.Clear | src/types.rs:175-178 | the side is empty afterwards, stale data left in place |
| BookSides.BookSide.Best | src/types.rs:180-183 | the first level, none exactly when empty |
| BookSides.BookSide.Search | src/types.rs:201-210 | finds the price exactly when it is tracked; the index is its position, or its insertion point |
| BookSides.BookSide.Remove | src/types.rs:212-222 | the block move takes out exactly the level at the index |
| BookSides.BookSide.Insert | src/types.rs:224-245 | inserts below 64 levels, at 64 evicts the last or, past the end, discards |
| BookSides.BookSide.ApplyDelta | src/types.rs:185-199 | new levels and result code are those of the linear-search list model, in both directions and whatever lies past the count |
| Book.ApplyMeans | src/types.rs:316-363 | result code by result code, every field outside the sides: a tick of another symbol is counted and discarded; Updated, Inserted, Removed and InsertedEvicted are tracked and stamped with the receive time; NoOp and Discarded change nothing |
| Book.RunWellFormed | src/types.rs:316-343 | both sides stay strictly sorted and hold at most 64 levels over any run of ticks |
| Book.QueriesMean | src/types.rs:382-400 | on every reachable book: crossed means some bid above some ask; the spread is none iff a side is empty, zero iff some bid is at or above some ask, otherwise the least difference over all pairs |
| BookRuns.SideSeparation | src/types.rs:332-335 | after any run a side and its snapshot id depend only on that side's matching-symbol ticks |
| BookRuns.InterleavingIrrelevant | src/types.rs:316-343 | two interleavings of the same bid and ask streams leave the same sides |
| BookRuns.SideIsEpoch | src/types.rs:368-380 | a side holds what the deltas since its last clear leave on an empty side |
| BookRuns.ClearsAreChanges | src/types.rs:365-380 | over any run of ticks on a book a side is cleared once for every change in its snapshot-id stream with the stored id in front, and the stored id is the last of them |
| BookRuns.NoOpKeepsSideIff | src/types.rs:328-340 | a NoOp tick kept the side's levels exactly when it did not clear or the side was empty; nothing outside the sides changes, so its sequence is not tracked |
| BookRuns.NoOpCanClear | src/types.rs:328-340 | a bid that a snapshot tick of zero quantity wipes out with the result NoOp |
| BookRuns.ResultIsLast | src/types.rs:316-343 | the code `apply` returns for a tick is that of its delta among those since the last clear |
| BookRuns.CodesAreResults | src/types.rs:316-343 | the codes `apply` returned for a side since its last clear are those of its deltas |
| BookRuns.TopOfSideExact | src/types.rs:316-343 | after any run on a fresh book and for both sides: with L and the insert and remove counts taken from the codes `apply` returned since the last clear, the best 64 - L levels are exact and the count is inserts less removals |
| BookRuns.LossOnlyWhenFull | src/types.rs:224-245 | a tick of the book's symbol is discarded or evicts only when its side holds 64 levels and is not cleared by it |
| BookRuns.FreshBook | src/types.rs:292-313 | a fresh book: both sides empty, both ids 0xFFFFFFFF, every counter and stamp zero |
| BookRuns.FirstSnapshot | src/types.rs:298-303 | after any run on a fresh book, the first snapshot tick of a side finds it cleared if and only if its id is not 0xFFFFFFFF, and stores its id |
| Snapshots.BatchRun | src/types.rs:365-380 | a batch is merged into the side's levels if they have its id, else into nothing |
| Snapshots.MergedIff | src/types.rs:186-245 | merging deltas into old levels leaves the best 64 of the deltas alone exactly when no old level survives |
| Snapshots.SnapshotReplacesIff | src/types.rs:80-83 | however it is interleaved, a batch leaves its best 64 levels and nothing else if and only if its id is new or no old level survives it |
| Snapshots.SnapshotReplaces | src/types.rs:80-83 | so a batch with a new id replaces the side, whatever the book held |
| Snapshots.FirstSnapshotMerges | src/types.rs:298-303 | a first snapshot with the id 0xFFFFFFFF leaves the bid quoted before it |
| Snapshots.RunSettled | src/types.rs:316-343 | every side reached from a fresh book is sorted, within 64 levels and free of zero quantities |
| Snapshots.SnapshotOrderIrrelevant | src/types.rs:365-380 | two orders of one batch with distinct prices, put on the same levels (on any two sides if the id is new), leave the same side |
| Sequences.CountersMean | src/types.rs:345-363 | the two counters are, modulo 2^64, the adjacent jumps above one and the adjacent non-increases of the ticks whose code is Updated, Inserted, Removed or InsertedEvicted |
| Sequences.CountersExact | src/types.rs:345-363 | with fewer than 2^64 ticks they are exact |
| Sequences.CleanIffConsecutive | src/types.rs:350-363 | no jump and no non-increase exactly when the numbers are consecutive |
| Sequences.GapsBoundMissing | src/types.rs:350-363 | without reorders the missing numbers are at least the gaps, and none is missing iff there is no gap |
| Sequences.FeedHealth | src/types.rs:275-280 | the same two facts for the counters of a book after any run of fewer than 2^64 ticks |
| Sequences.LastUpdateMeans | src/types.rs:337-340 | after any run `last_update_ns` is the receive time of the last tick that changed a level, 0 if none did |
| Sequences.StaleMeans | src/types.rs:402-410 | a book is stale exactly when now is more than the threshold after that time |
| Sequences.MismatchesMean | src/types.rs:322-326 | after any run `symbol_mismatches` is the number of ticks of other symbols modulo 2^64 |
| OrderBooks.OrderBook.constructor | src/types.rs:292-313 | a new book is empty, its snapshot ids 0xFFFFFFFF, its counters zero |
| OrderBooks.OrderBook.MaybeClearForSnapshot | src/types.rs:365-380 | clears one side exactly when the id differs from the stored one, and stores it |
| OrderBooks.OrderBook.TrackSequenceNumber | src/types.rs:345-363 | the three-way classification of a number; the addition of one never overflows |
| OrderBooks.OrderBook.Apply | src/types.rs:315-343 | new book state and result are those of the value model, which `Book.ApplyMeans` and `Levels.DeltaMeaning` explain; sequence, receive time, flag, gap, reorder and mismatch fields per result code |
| OrderBooks.OrderBook.ComputeSpread | src/types.rs:382-387 | returns the spread that `Book.QueriesMean` explains |
| OrderBooks.OrderBook.ComputeCrossed | src/types.rs:389-400 | returns the crossed flag that `Book.QueriesMean` explains |
| OrderBooks.OrderBook.ComputeStale | src/types.rs:402-410 | returns the flag that `Sequences.StaleMeans` explains |
| OrderBooks.OrderBook.ForChecksum | src/types.rs:412-428 | calls the visitor on exactly the checksum input, in order |
| OrderBooks.OrderBook.RecordChecksumFailure | src/types.rs:430-433 | only the failure counter moves, by one |
| OrderBooks.ChecksumInputMeans | src/types.rs:412-428 | on every reachable book the input is the best min(n, count) bids descending, then asks ascending; what is left out is worse |
| Engines.BookEngine.RunOne | src/book_engine.rs:39-56 | takes the oldest tick, applies it and counts it; does nothing exactly when the ring is empty |
| Engines.BookEngine.Drain | src/book_engine.rs:60-68 | the loop ends with a quiet producer, empties the ring, counts the ticks in a u32, and leaves the book of repeated single applications |
| Engines.BookEngine.RunBatch | src/book_engine.rs:58-68 | book, ring, returned count and tick counter after a batch with a quiet producer; in a ring of fewer than 2^32 slots, as the shipped 4096, the count is the number of outstanding ticks |
| Engines.BookEngine.RunOneByOne | src/book_engine.rs:36-56 | calling `run_one` until it returns nothing leaves the book and the empty ring of a batch, and counts every tick modulo 2^64 |
| Engines.BatchIsRepeatedOnes | src/book_engine.rs:39-68 | applying the queued ticks from the front is the fold of `apply` over them |
| Pipelines.EndToEnd | src/book_engine.rs:39-68 | in every state of producer and engine interleaved, the book is the fold of apply over a prefix of the accepted ticks, behind the consumed ones by at most the one in flight |
| Pipelines.EngineTicks | src/book_engine.rs:54-66 | between calls the tick counter is the applied ticks, less whole multiples of 2^32 lost by batches |
| Pipelines.BatchCountsIff | src/book_engine.rs:61-66 | in every reachable state, ending the batch in progress counts all its ticks modulo 2^64 exactly when their number modulo 2^64 is below 2^32 |
| LongBatches.LongBatch | src/book_engine.rs:58-65 | for every k some schedule has one batch in progress that has applied k ticks |
| LongBatches.BatchCountWraps | src/book_engine.rs:61-67 | for every k some run ends with k ticks applied, by one batch, and the counter at k modulo 2^32 |
| LongBatches.LongBatchUncounted | src/book_engine.rs:61-67 | a run that applies 2^32 ticks and leaves the counter at zero |
| Pipelines.PipelineTopExact | src/book_engine.rs:39-68 | whatever the schedule, the codes of the ticks applied so far tell how many of the best levels are exact, and how many there are |
| Capture.ReadsBackWord | src/types.rs:87-101 | a word that fits reads back from its little-endian bytes |
| Capture.LittleEndianByte | src/types.rs:87-101 | byte i of a word x is (x / 2^(8i)) mod 256 |
| Capture.EncodedBytes | src/types.rs:87-101 | what a recorded tick has at each of its 64 offsets: five u64 words at 0, 8, 16, 24 and 32, the symbol at 40, exchange 0, 1 or 2 at 56, side 0 or 1 at 57, snapshot flag at 58, pad at 59, the id at 60 |
| Capture.DecodeMeans | src/capture.rs:113-157 | a record reads as the tick whose image it is if bytes 56, 57 and 58 are at most 2, 1 and 1; otherwise the error names the first of them out of range, and its value |
| Capture.DecodesEncoded | src/capture.rs:113-126 | decoding the 64 bytes of a tick returns the tick, pad byte included |
| Capture.EncodesDecoded | src/capture.rs:130-157 | a record that passes validation is the encoding of the tick it decodes to |
| Capture.IterationYieldsRecords | src/capture.rs:82-128 | one `next` call takes the first of the records of the rest of a file and leaves the others |
| Capture.RecordsOfEncoded | src/capture.rs:180-200 | recorded ticks come back first and in order, the rest stays aligned |
| Capture.TruncatedCapture | src/capture.rs:202-227 | q whole records and a partial one yield q ticks, one error naming its length, then nothing |
| Capture.CorruptRecordIsolated | src/capture.rs:229-249 | a corrupt record yields one error and later records are read as before |
| Capture.CaptureReadsBack | src/capture.rs:180-200 | the ticks of a capture are the recorded ticks |
| Capture.ReplayReproduces | src/capture.rs:1-4 | replaying a capture, also one appended to an older one, reproduces the book of the original sessions |
| Capture.TickRecorder.Record | src/capture.rs:44-57 | appends the image of the tick that `EncodedBytes` describes; the file stays the encoding of the session |
| Capture.TickReader.Read | src/capture.rs:89-100 | one read returns an interruption or a failure exactly when the next event is one, else a nonempty part of the rest of the file unless at its end |
| Capture.TickReader.Fill | src/capture.rs:86-101 | the reading loop fills the buffer with the next bytes of the file, all 64 unless the file ends; it fails exactly when a read fails before that |
| Capture.TickReader.Next | src/capture.rs:85-128 | returns the read error exactly when a read fails before the record is complete; otherwise the next record, whatever the chunk sizes and interruptions |
| Capture.TickReader.Collect | src/capture.rs:195-196 | iterating to the end ends and, when no read fails, yields exactly the records of the file, whatever the chunks and interruptions |

## Left out

- Disruptors.SpscDisruptor.constructor: promises an empty queue from two slots on only, because `RingOfOne.SafeIffTwoSlots` shows the one-slot ring to be unsafe; the shipped sizes are 4096 and 2.
- Disruptors.SpscDisruptor.TryPublish: describes a call that runs to completion by itself; interleaved calls are those of `RingMachine`, where `RingCalls` proves the same outcome for a call alone among them.
- Disruptors.SpscDisruptor.TryConsume: the same.
- Snapshots.SnapshotReplacesIff: asks that old levels be well-formed and of nonzero quantity, which `Snapshots.RunSettled` proves of every side reached by ticks, and nothing at all where the id is new.
- Capture.TickReader.Next: after a read error other than an interruption the bytes already read for the record are gone, as in the program; the contract says how many at most and nothing of the records after it.
- Capture.DecodeMeans: the text of an error message is not modelled.
- Memory model: relaxed loads of a thread's own cursor are thread-local, as one thread alone writes it; executions outside the view-based release/acquire model (load buffering) are not represented. A store that this model could place behind an entry unseen by its thread counts as `UB`.
- Metrics, timers and the shim between the standard library and the concurrency checker: formatting, clocks and re-exports. Timestamps are arbitrary inputs.
- Latency histogram and tick statistics: array increments and copies.
- Debug builds: the thread canary and the panic on a wrong symbol; the model has one producer, one consumer and release behaviour.
- Cache lines, padding, struct sizes, speed.
- Opening, buffering and flushing files, and write errors: a capture is a byte sequence, read through a schedule of chunk sizes.
- Big-endian machines: the record layout is the little-endian one.
- `pending` called by a third thread as two loads at different times; the bound at one instant is proved.
- Sides whose public `count` or `levels` fields were changed from outside; every side reached through the operations is well-formed.

# FlyBy: a verified model

FlyBy moves records from a source (network, file or replayed capture) through decode, preprocess and placement
stages into sinks, most notably a lock-free ring in shared memory; a deterministic simulator drives the same
traits under virtual time. This project models five connected parts of it in Dafny and proves what they promise.

1. **Shared-memory ring and sink.** `SpscProtocol` is the concurrent claim / fill / commit protocol as a machine of
   single producer and consumer steps over two wrapping 64-bit counters, each side seeing any value of the other's
   counter between the last one it saw and the current one (release / acquire plus coherence). `Slot`, `Memory`,
   `Region` and `SharedMemorySink` are the sequential code over one flat byte array, which refines a bounded FIFO of
   (header, payload). `RingRefinement` shows its pushes and pops to be runs of the concurrent protocol, and `EndToEnd`
   follows a file's records through the pipeline into the ring.
2. **File source.** `Framing` defines framing a whole file at once; `FileBooks` and `PollPlan` say what agreement with
   it means and what one poll must do; `FileSource` is the buffered reader with short reads and three end-of-file
   policies, held to that plan.
3. **Pipeline.** `Pipeline` is `SimplePipeline` over the file source, with its pending queue, six back-pressure
   strategies, overflow sink and the single-threaded runner; `Dispositions` is what becomes of each frame.
   `Placements` is round-robin
   placement. `SinkContract` is what it relies on from a sink, and what `SharedMemorySink.SharedMemorySink.Write` meets.
4. **Simulator tick loop.** `SimWorld` is one tick as a function; `SimScheduler` is the scheduler that updates its
   fields step by step; `SimObjects` shows the real source, batch, ring and consumer objects doing the same;
   `SimRuns`, `SourceRuns`, `TimelineRuns`, `Pausing` and `Breakpoints` are theorems about whole runs.
5. **Captures, replay, pacing, faults.** `PcapCodec`, `PcapSource`, `Replay`, `Pacing`, `VirtualNic`, `Fault`, `Lcg`.

Where the source changes state in place the model does too: a class whose methods equate the new state, as a value,
with a function of the old one. The theorems are about those functions.

## Where the code departs from what it says

The model follows the code in each case, and says for all inputs when code and promise agree.

- A read error leaves 64 KiB of zeros in the read buffer (`crates/flyby-storage/src/file.rs:145-147`). A source polled
  again behaves as if the file had those zeros inserted where the read stood (`FileBooks.FailedReadInserts`,
  `FileSource.FileSource.DeliversWhatIsShown`); the next record it frames from them is the file's own if and only if the
  bytes that were missing exist and are all zero
  (`FileBooks.AfterFailedRead`, with an input in `FileBooks.FailedReadInventsRecord`).
- Records framed in front of an error are in the batch, but the frame adapter returns the error first and never hands
  them on (`crates/flyby/src/pipeline.rs:690`), and frames beyond `batch_size` are cut off, not deferred
  (`crates/flyby/src/pipeline.rs:334-336`). Over a whole file none is lost exactly under the condition of
  `PollPlan.NoneLost`; `Pipeline.RunSingleThread` polls exactly that many. Inputs: `PollPlan.RecordBeforeCorruption`,
  `PollPlan.RecordBeyondBatchSize`.
- A refused frame goes through decode, preprocess and placement again on the next step
  (`crates/flyby/src/pipeline.rs:527-540`). Stages without memory keep its route
  (`Pipeline.SimplePipeline.StatelessKeepsRoute`); round-robin placement keeps it if and only if there is one sink, the
  wrap of its counter aside (`Pipeline.SimplePipeline.RefusedFrameMovesOn`, `Placements.RetryMovesOn`).
- `AdaptiveBatching` is documented as retrying once and `Block` as ending at shutdown
  (`crates/flyby/src/runtime/backpressure.rs:12-26`). The write loop treats the two and `Spin` alike and never looks at
  shutdown: a frame refused throughout is written `retries + 1` times and without a budget for ever, so there is one
  retry exactly when the budget is one (`Pipeline.SimplePipeline.WriteWithBackpressure`).
- A drop rate of 1.0 is documented as "always", but a draw whose high word is all ones slips through: `Fault.FullDropRate`,
  with a seed in `Fault.FullDropRateMisses`.
- An empty capture packet can be counted corrupted although no byte of it was: a byte is flipped if and only if there is
  one (`SimSource.AfflictsOneByte`, `SimSource.EmptyPacketCountsAsCorrupted`).
- `FixedRate` truncates the period, so the rate is exact if and only if it divides 10^9: `Pacing.RateIsExact`.
- The simulator's ring indexes with a modulo, so past 2^64 pushes it is a FIFO if and only if its capacity divides 2^64;
  any other capacity loses the oldest payload at the wrap: `SimRing.FifoPastWrap`, `SimRing.WrapLosesOldest`.
- With several sources each poll empties the batch the others filled, so packets vanish from the statistics:
  `SimRuns.SumHoldsUnlessShadowed`, `SimRuns.ShadowedExactly`, `SimRuns.TwoSourcesShadow`.
- A capture cut inside a record header or between records parses without error, and the writer wraps seconds at 2^32:
  `PcapCodec.CutFile`, `PcapCodec.CutInHeaderIsSilent`, `PcapCodec.RoundTrip`.
- `len` of the shared-memory ring is called approximate; loaded by a third party it can be near 2^64:
  `SpscProtocol.LenSeen`, `SpscProtocol.OnlookerSeesHugeLen`.

## Model
| member | source | states |
|---|---|---|
| SpscProtocol.DeliversInOrder | crates/flyby-memory/src/ring.rs:107-148 | In every interleaving of single producer and consumer steps, under any stale but monotone view of the other side's counter, what has been popped is byte for byte the first part of what was pushed, and at most `capacity` slots are outstanding |
| SpscProtocol.SlotsAreExclusive | crates/flyby-memory/src/ring.rs:5-20 | The slot the producer fills is neither unread nor being read; its previous occupant's release, and for the reader the slot's publication, have been acquired |
| SpscProtocol.NextPreservesInv | crates/flyby-memory/src/ring.rs:107-148 | Every enabled step of either thread keeps the protocol invariant that ties the wrapping counters to the unbounded history |
| SpscProtocol.RunPreservesInv | crates/flyby-memory/src/ring.rs:107-148 | The invariant holds after any finite run from a state that satisfies it |
| SpscProtocol.FullTestSound | crates/flyby-memory/src/ring.rs:107-114 | The `==` full test on wrapped counters answers the unbounded question, and agrees with a `>=` test, in every reachable state |
| SpscProtocol.EmptyTestSound | crates/flyby-memory/src/ring.rs:131-138 | The `==` empty test on wrapped counters answers the unbounded question |
| SpscProtocol.ClaimDecision | crates/flyby-memory/src/ring.rs:107-114 | A claim succeeds exactly when the tail seen leaves room; a stale view can only refuse, and a current one refuses exactly when the ring is full |
| SpscProtocol.PopDecision | crates/flyby-memory/src/ring.rs:131-138 | A read claim succeeds exactly when the head seen shows an unread slot |
| SpscProtocol.ClaimedSlotIsFree | crates/flyby-memory/src/ring.rs:107-114 | The claimed slot is none of the unread ones |
| SpscProtocol.WritePreservesInv | crates/flyby-memory/src/region.rs:240-250 | Byte writes into the claimed slot keep every unread slot's contents |
| SpscProtocol.ProducerPreservesInv | crates/flyby-memory/src/ring.rs:107-124 | Producer loads and the commit store keep the invariant |
| SpscProtocol.ConsumerPreservesInv | crates/flyby-memory/src/ring.rs:131-148 | Consumer loads, byte reads and the release store keep the invariant |
| SpscProtocol.InitEstablishesInv | crates/flyby-memory/src/ring.rs:62-90 | A zero-initialised ring of any contents satisfies the invariant |
| SpscProtocol.LenSeen | crates/flyby-memory/src/ring.rs:156-165 | `len` from any heads and tails ever stored is the difference if and only if the tail loaded is not ahead of the head loaded, else it wraps to a huge number; the producer errs only upwards within the capacity, the consumer only downwards |
| SpscProtocol.OnlookerSeesHugeLen | crates/flyby-memory/src/ring.rs:156-165 | An onlooker that loads the head before, and the tail after, the first payload passes reads 2^64 - 1 |
| RingRefinement.FreshShowsInit | crates/flyby-memory/src/region.rs:116-182 | The bytes of a new region show an initial state of the concurrent protocol |
| RingRefinement.PushIsARun | crates/flyby-memory/src/region.rs:240-250 | What a successful push does to the bytes is a run of protocol steps that pushes the slot's image |
| RingRefinement.FailedFillIsARun | crates/flyby-memory/src/region.rs:240-250 | A fill that fails is a run that claims the slot, writes it and abandons it |
| RingRefinement.RefusedPushIsARun | crates/flyby-memory/src/region.rs:240-242 | A push refused because full is a run that ends where it began |
| RingRefinement.PopIsARun | crates/flyby-memory/src/region.rs:259-269 | What a pop does to the bytes is a run that pops the oldest slot, handing over its image |
| RingRefinement.PushRuns | crates/flyby-memory/src/region.rs:240-250 | `Region.Region.Push`, whatever its fill does, is a run of the concurrent protocol over the region's bytes |
| RingRefinement.PopRuns | crates/flyby-memory/src/region.rs:259-269 | `Region.Region.Pop` is a run of the concurrent protocol over the region's bytes |
| U64.MaskIsModulo | crates/flyby-memory/src/ring.rs:74-90 | Masking with `2^k - 1` is the residue modulo `2^k` |
| U64.MaskedIndex | crates/flyby-memory/src/ring.rs:107-114 | `head & mask` is `head % capacity`, for every power-of-two capacity |
| U64.IndexOfWrapped | crates/flyby-memory/src/ring.rs:107-138 | The masked index of a wrapped counter is the index of the unbounded one |
| U64.WrappedDifference | crates/flyby-memory/src/ring.rs:107-114 | Wrapping subtraction recovers the unbounded difference of counters less than 2^64 apart |
| U64.WrappedSuccessor | crates/flyby-memory/src/ring.rs:121-148 | Wrapping increment follows the unbounded counter |
| Slot.SlotSizeRoundsUp | crates/flyby-memory/src/slot.rs:50-59 | The mask rounds header plus payload up to the least multiple of a cache line, and fails exactly on overflow |
| Slot.EncodeInto | crates/flyby-memory/src/slot.rs:136-154 | Encoding succeeds exactly when header and payload fit, then starts the slot with them, and otherwise leaves the slot alone |
| Slot.EncodeSlot | crates/flyby-memory/src/slot.rs:136-154 | The in-place encoder does exactly that to its destination |
| Slot.DecodeEncoded | crates/flyby-memory/src/slot.rs:136-200 | Decoding an encoded slot gives header and payload back whatever stale bytes follow, if and only if magic and length are well-formed |
| Slot.EncodedDecoded | crates/flyby-memory/src/slot.rs:176-200 | A slot that decodes begins with the encoding of what it decodes to |
| Slot.ParseHeaderBytes | crates/flyby-memory/src/slot.rs:74-118 | Reading the 32 header bytes back gives the header |
| Slot.HeaderBytesParse | crates/flyby-memory/src/slot.rs:74-118 | Re-encoding a parsed header gives its 32 bytes |
| Slot.HeaderLayout | crates/flyby-memory/src/slot.rs:97-113 | Magic at 0, schema id at 4, flags at 6, sequence at 8, timestamp at 16, payload length at 24, zero at 28 |
| Slot.DecodeExact | crates/flyby-memory/src/slot.rs:176-200 | A slot decodes if and only if it has 32 bytes, the magic at 0 and as many bytes from 32 on as the number at 24 says; its payload is those bytes, and anything else is a decoding error |
| Memory.Copy | crates/flyby-memory/src/region.rs:216-222 | A copy into the region changes exactly the bytes it covers |
| Memory.StoreU64 | crates/flyby-memory/src/ring.rs:121-124 | A counter store writes its eight bytes and reads back as the value stored |
| Memory.LoadU64 | crates/flyby-memory/src/ring.rs:107-109 | A counter load reads the eight little-endian bytes |
| Region.ValidateParamsExact | crates/flyby-memory/src/region.rs:184-208 | Parameters are accepted exactly for a power-of-two count and a cache-line multiple of at least a header, both below 2^32: the overflow guard never decides |
| Region.SlotWriteFrame | crates/flyby-memory/src/region.rs:216-230 | A write inside one slot changes that slot's bytes only: no other slot, neither counter, not the header |
| Region.CounterStoreFrame | crates/flyby-memory/src/region.rs:43-48 | A counter store changes no slot, not the other counter, not the header |
| Region.SlotBounds | crates/flyby-memory/src/region.rs:216-230 | Slots do not overlap |
| Region.SlotOffsetIs | crates/flyby-memory/src/region.rs:216-217 | Slot addresses have the source's closed form |
| Region.FreshRegionIsEmpty | crates/flyby-memory/src/region.rs:116-182 | A zero-filled mapping with its header written is an empty ring |
| Region.HeaderImageFields | crates/flyby-memory/src/region.rs:54-68 | Region magic at 0, version 1 at 8, slot count at 16, slot size at 20, all other header bytes zero |
| Region.Region.SlotAt | crates/flyby-memory/src/region.rs:216-233 | Slot i starts i slot sizes after the header and the counters, and lies inside the region |
| Region.HeadSlotIsFree | crates/flyby-memory/src/ring.rs:107-114 | Unless the ring is full, the head's slot is none of the unread ones, across counter wrap |
| Region.NextTailSlot | crates/flyby-memory/src/ring.rs:145-148 | Advancing the tail renumbers the unread slots by one, across counter wrap |
| Region.PushAppends | crates/flyby-memory/src/region.rs:240-250 | Filling the claimed slot and storing the head appends that slot's image to the unread queue |
| Region.FillLeavesUnread | crates/flyby-memory/src/region.rs:240-250 | A fill that is not committed leaves the unread queue as it was |
| Region.PopRemovesFirst | crates/flyby-memory/src/region.rs:259-269 | Storing the tail removes the oldest slot from the unread queue |
| Region.SpscRing.constructor | crates/flyby-memory/src/ring.rs:74-90 | A view of zeroed counters is an empty ring |
| Region.SpscRing.TryPush | crates/flyby-memory/src/ring.rs:107-114 | Refuses exactly when `capacity` slots are in use, else names the head's slot; changes nothing |
| Region.SpscRing.CommitPush | crates/flyby-memory/src/ring.rs:121-124 | One more slot in use; only the head's eight bytes change |
| Region.SpscRing.TryPop | crates/flyby-memory/src/ring.rs:131-138 | Refuses exactly when empty, else names the tail's slot; changes nothing |
| Region.SpscRing.CommitPop | crates/flyby-memory/src/ring.rs:145-148 | One fewer slot in use; only the tail's eight bytes change |
| Region.Region.Anonymous | crates/flyby-memory/src/region.rs:116-182 | A region exists exactly for acceptable geometry and a mapping the system grants, else `Config` or `Io`; it starts with the documented header and an empty queue |
| Region.Region.Push | crates/flyby-memory/src/region.rs:240-250 | For any fill: full means untouched; a fill that succeeds appends its image to the queue; one that fails leaves the queue unchanged |
| Region.Region.Pop | crates/flyby-memory/src/region.rs:259-269 | Hands over the oldest unread slot and removes it; empty means untouched |
| Region.Region.Len | crates/flyby-memory/src/region.rs:282-284 | The length is the number of unread slots |
| SharedMemorySink.SlotDecodes | crates/flyby-memory/src/slot.rs:136-200 | An encoded slot decodes to what was encoded whatever bytes an earlier lap left behind |
| SharedMemorySink.SharedMemorySink.New | crates/flyby-memory/src/lib.rs:112-125 | A sink exists exactly for a power-of-two count below 2^32, a payload whose rounded slot stays below 2^32, and a granted mapping; it starts empty |
| SharedMemorySink.SharedMemorySink.Write | crates/flyby-memory/src/lib.rs:182-241 | Success appends (header, payload) to a bounded FIFO of accepted messages; each failure has its documented kind and leaves region and count untouched |
| SharedMemorySink.WriteVerdict | crates/flyby-memory/src/lib.rs:182-241 | A write succeeds if and only if the message fits the slot, encodes, reports the length it announced and finds a free slot; each failure, the first reason counting, has its kind |
| SharedMemorySink.EntryHolds | crates/flyby-memory/src/lib.rs:200-218 | A slot that decodes to what was queued for a message holds it byte by byte: magic, the message's schema id, valid flag and suspect flag as the message says, its sequence, timestamp, length and payload |
| SharedMemorySink.SharedMemorySink.Pop | crates/flyby-memory/src/lib.rs:151-159 | The slot handed over holds, field by field in its raw bytes, the oldest message queued, which leaves the queue: the n-th slot popped since `init` is the n-th message accepted |
| SharedMemorySink.SharedMemorySink.Init | crates/flyby-memory/src/lib.rs:161-171 | Terminates with an empty queue and a zero count |
| SharedMemorySink.SharedMemorySink.Len | crates/flyby-memory/src/lib.rs:139-141 | The length is the number of queued messages |
| SharedMemorySink.RoundTrip | crates/flyby-memory/src/lib.rs:151-241 | Two writes then two pops give the two payloads back in order |
| EndToEnd.RecordsReachTheConsumer | crates/flyby-memory/src/lib.rs:151-241 | With the ring as a registered sink, the entries its consumer pops, then those queued, are in number and order the frames written to it, each encoded from the message its frame was decoded and routed to |
| Framing.PrefixStable | crates/flyby-storage/src/framing.rs:30-43 | Once a built-in framer has decided (a length or corrupt), more data never changes the decision |
| Framing.RecordInRange | crates/flyby-storage/src/framing.rs:70-195 | A framed record is non-empty and inside the buffer; an empty buffer needs more data |
| Framing.PrefixedDecision | crates/flyby-storage/src/framing.rs:131-159 | A buffer that begins with a length n, most significant byte first in 1, 2 or 4 bytes, is corrupt if and only if n exceeds the limit, else one record of prefix and n bytes as soon as they are all there |
| Framing.PrefixIncomplete | crates/flyby-storage/src/framing.rs:133-137 | Fewer bytes than the prefix need more data |
| Framing.PrefixExamples | crates/flyby-storage/src/framing.rs:104-113 | On [0, 2, 7, 8] a two-byte prefix frames 4 bytes; on [2, 0, 7, 8] it waits for 512 |
| Framing.DelimiterDecision | crates/flyby-storage/src/framing.rs:183-200 | On any buffer: a body without the sentinel, and the sentinel, are one record when they fit `maxLen`, else corrupt; without a sentinel corrupt if and only if `maxLen` bytes are there |
| Framing.FixedDecision | crates/flyby-storage/src/framing.rs:70-78 | A fixed-length record is the first n bytes, once they are there |
| Framing.FramingUndoesLaying | crates/flyby-storage/src/framing.rs:15-48 | Records that each frame to themselves, laid end to end, frame to themselves in order, with what follows left over as incomplete or corrupt |
| Framing.PrefixedFileFrames | crates/flyby-storage/src/framing.rs:131-159 | A file written as prefix and payload, for any payloads within the limit and the width, frames to exactly those records |
| Framing.DelimitedFileFrames | crates/flyby-storage/src/framing.rs:183-200 | A file of bodies without the sentinel, each ended by it and within `maxLen`, frames to exactly those records |
| Framing.FixedFileFrames | crates/flyby-storage/src/framing.rs:70-78 | A file of equally long records frames to exactly those, a shorter tail left over |
| Framing.OwnBytesDecide | crates/flyby-storage/src/framing.rs:70-195 | A record's own bytes suffice to frame it |
| Framing.FramedWithin | crates/flyby-storage/src/framing.rs:70-195 | Records that end by some byte are framed from the bytes before it alone |
| Framing.Resume | crates/flyby-storage/src/framing.rs:30-43 | Framing a file can be resumed at any record boundary |
| Framing.NextFromBuffer | crates/flyby-storage/src/framing.rs:70-195 | Any buffered prefix of the rest of the file frames to the file's own next record, or to its corrupt spot, or not yet |
| Framing.FramingGrows | crates/flyby-storage/src/framing.rs:70-195 | Appending to a file only appends to its framing; a corrupt spot stays where it was |
| Framing.Position | crates/flyby-storage/src/framing.rs:183-195 | The delimiter found is the first one |
| RecordBatch.RawRecordBatch.constructor | crates/flyby-storage/src/batch.rs:66-84 | A new batch is empty with the capacity asked for |
| RecordBatch.RawRecordBatch.Push | crates/flyby-storage/src/batch.rs:140-155 | Stores the whole record after the others, or refuses it whole, full before oversized; counts records stored and oversized ones |
| RecordBatch.RawRecordBatch.TryPush | crates/flyby-storage/src/batch.rs:158-171 | The same with the error kinds of a poll |
| RecordBatch.RawRecordBatch.Reset | crates/flyby-storage/src/batch.rs:94-96 | Empties the batch and keeps its capacity |
| PollPlan.CleanPlan | crates/flyby-storage/src/file.rs:287-335 | Without corrupt or oversized records a poll delivers what is left of the file capped by the room; under Loop one further pass, so at least one record when the file has any |
| PollPlan.CorruptTailPlan | crates/flyby-storage/src/file.rs:309-322 | A poll that meets corruption fails after delivering every record in front of it |
| PollPlan.StopPlan | crates/flyby-storage/src/file.rs:287-335 | A poll under Stop delivers as many records as there is room for up to the first oversized or corrupt one, and fails exactly when it meets that with room left |
| PollPlan.HandedOnTotal | crates/flyby/src/pipeline.rs:329-338 | Over a whole file, successive polls hand on full polls, each cut at the batch size, then the rest unless it fails, in closed form |
| PollPlan.NoneLost | crates/flyby/src/pipeline.rs:329-338 | No deliverable record is lost if and only if: with polls within the batch size, nothing blocks the file or full polls end exactly at the blockage; with larger polls, nothing precedes a blockage, or the whole file fits the batch size |
| PollPlan.HandedOnStep | crates/flyby/src/pipeline.rs:688-695 | One poll's share of that total; after a failing poll nothing more comes |
| PollPlan.DeliverableAll | crates/flyby-storage/src/file.rs:229-237 | Without oversized records everything up to corruption is deliverable |
| PollPlan.RecordBeforeCorruption | crates/flyby/src/pipeline.rs:688-695 | A file whose one good record is lost in polls of four and handed on in polls of one |
| PollPlan.RecordBeyondBatchSize | crates/flyby/src/pipeline.rs:333-336 | A two-record file of which a batch size of one loses the second |
| PollPlan.NthInPass | crates/flyby-storage/src/file.rs:170-201 | Record `i` of any pass over a looped file is the file's record `i`, with its own offset and a running index |
| PollPlan.TrackTake | crates/flyby-storage/src/file.rs:309-322 | Taking one record keeps a poll on its plan |
| PollPlan.TrackRewind | crates/flyby-storage/src/file.rs:170-201 | Rewinding keeps a poll on its plan |
| PollPlan.TrackEnds | crates/flyby-storage/src/file.rs:287-335 | However a poll stops (full, oversized, corrupt, end of file, nothing to loop over), it has done what the plan says |
| FileBooks.TakenInSync | crates/flyby-storage/src/file.rs:213-252 | Taking the buffer's first record takes the file's next record, with its true offset and index |
| FileBooks.FilledInSync | crates/flyby-storage/src/file.rs:139-155 | A short read of any length keeps agreement with the file |
| FileBooks.EndInSync | crates/flyby-storage/src/file.rs:324-331 | At end of file with no framable record buffered, the pass has delivered every record |
| FileBooks.CorruptInSync | crates/flyby-storage/src/file.rs:313-313 | A framing error is reported exactly at the file's corrupt spot |
| FileBooks.StoppedInSync | crates/flyby-storage/src/file.rs:162-169 | Stopping discards only the incomplete tail |
| FileBooks.RewoundInSync | crates/flyby-storage/src/file.rs:170-201 | A rewind starts the next pass clean: no partial tail is spliced onto it |
| FileBooks.GrownInSync | crates/flyby-storage/src/file.rs:202-208 | A followed file may grow: everything delivered stays the start of the new framing |
| FileBooks.FreshInSync | crates/flyby-storage/src/file.rs:256-275 | Initialisation agrees with any file |
| FileBooks.BooksBalance | crates/flyby-storage/src/file.rs:64-87 | Deliveries are a prefix of the file's records repeated, each with its true offset and index; index = loops x records + records this pass; bytes = loops x length + position; at exhaustion all records are out |
| FileBooks.FailedReadBreaksSync | crates/flyby-storage/src/file.rs:145-147 | A failed read leaves 64 KiB of zeros in the buffer, which then never agrees with the file; `FileBooks.FailedReadInserts` says what is delivered |
| FileBooks.FailedReadInserts | crates/flyby-storage/src/file.rs:145-147 | From a failed read on, the source agrees with the file that has the zeros inserted where the read stood: deliveries are that file's records, with its offsets shifted |
| FileBooks.FilledDoctored | crates/flyby-storage/src/file.rs:139-155 | Later reads take the same bytes from either file and end at the same point |
| FileBooks.AfterFailedRead | crates/flyby-storage/src/file.rs:145-147 | For every built-in framer: a record framed from the grown buffer is the file's own next record if and only if the bytes it lacked exist in the file and are all zero |
| FileBooks.FixedLengthAfterFailedRead | crates/flyby-storage/src/file.rs:145-147 | For fixed-length records: one is framed if and only if it fits the grown buffer, and is the file's own if and only if its missing bytes exist and are zero |
| FileBooks.FailedReadInventsRecord | crates/flyby-storage/src/file.rs:145-148 | A one-byte file whose first read fails then yields a record it does not contain |
| FileSource.FileSource.constructor | crates/flyby-storage/src/file.rs:93-109 | A new source is uninitialised with empty books |
| FileSource.FileSource.Init | crates/flyby-storage/src/file.rs:256-275 | Opening starts everything over; failing to open changes nothing |
| FileSource.FileSource.Shutdown | crates/flyby-storage/src/file.rs:277-283 | Buffer dropped, not waiting, uninitialised; all counters stand |
| FileSource.FileSource.FileGrows | crates/flyby-storage/src/file.rs:202-208 | Growth of a followed file between polls keeps the source valid |
| FileSource.FileSource.FillBuf | crates/flyby-storage/src/file.rs:139-155 | Appends the next 1 to 65536 bytes, nothing only at end of file, or fails with the buffer already grown, as if the file had zeros there |
| FileSource.FileSource.FailRead | crates/flyby-storage/src/file.rs:145-147 | The books of a source whose read failed agree with the file with the zeros inserted |
| FileSource.FileSource.DeliversWhatIsShown | crates/flyby-storage/src/file.rs:287-335 | Under Stop and Follow, however many reads failed: deliveries are the first records of the file with the zeros of those reads inserted, with their offsets there, and all of them at exhaustion |
| FileSource.FileSource.ConsumeRecord | crates/flyby-storage/src/file.rs:213-252 | Moves one framed record into the batch with its metadata, or refuses it and changes nothing |
| FileSource.FileSource.HandleEof | crates/flyby-storage/src/file.rs:160-210 | Stop, Loop and Follow act as documented; Loop rewinds at most once a poll, fails when the pass framed nothing, and on a failing seek has dropped the buffer |
| FileSource.FileSource.DrainBuffer | crates/flyby-storage/src/file.rs:308-322 | Frames what is buffered, record by record, until the batch is full, the data runs short or a record is bad |
| FileSource.FileSource.PollRound | crates/flyby-storage/src/file.rs:307-332 | One turn of the loop progresses (more file read, or the one rewind), or ends the poll as the plan says |
| FileSource.FileSource.ReadOn | crates/flyby-storage/src/file.rs:324-331 | With nothing framable buffered: more is read, the file is rewound once, or the poll ends as the plan says |
| FileSource.FileSource.Gate | crates/flyby-storage/src/file.rs:288-302 | An uninitialised, exhausted or waiting source does not poll |
| FileSource.FileSource.PollBatch | crates/flyby-storage/src/file.rs:287-335 | Terminates for every file, framer, policy and read sizes; appends exactly the planned records to the batch and to the history, with the planned outcome, rewinds and exhaustion, over the file with the zeros of earlier failed reads inserted; fails with `Io` exactly when a read or seek fails in it |
| Dispositions.Conservation | crates/flyby/src/pipeline.rs:522-571 | Frames passed over = written + dropped + skipped |
| Dispositions.LogInOrder | crates/flyby/src/pipeline.rs:358-441 | Each sink's log is an in-order subsequence of the frames, no frame twice |
| Dispositions.LogComplete | crates/flyby/src/pipeline.rs:368-373 | Every written frame is in the log of the sink that took it |
| Dispositions.StoredOnce | crates/flyby/src/pipeline.rs:383-417 | A frame is stored in at most one sink, the overflow sink included |
| Dispositions.LogsHoldWritten | crates/flyby/src/pipeline.rs:368-401 | The sinks together hold exactly the written frames |
| Pipeline.StorageBatchSource.constructor | crates/flyby/src/pipeline.rs:654-659 | Wraps a source with a batch of the given sizes |
| Pipeline.StorageBatchSource.PollFrames | crates/flyby/src/pipeline.rs:688-695 | A successful poll appends exactly the newly delivered records; a failing one appends nothing, not even records delivered before the failure; either way the account of records still to be handed on balances |
| Pipeline.StorageBatchSource.Share | crates/flyby/src/pipeline.rs:688-695 | A poll that goes as planned hands on its share of what was to come |
| Pipeline.SimplePipeline.SettledBalanced | crates/flyby/src/pipeline.rs:526-536 | Passing over the head frame with any legitimate fate keeps queue, sinks and counters in balance |
| Pipeline.SimplePipeline.RefilledBalanced | crates/flyby/src/pipeline.rs:329-338 | Queueing polled frames keeps the balance |
| Pipeline.SimplePipeline.RegisterSink | crates/flyby/src/pipeline.rs:573-592 | Refuses late, nameless and duplicate registration with the documented kinds |
| Pipeline.SimplePipeline.Init | crates/flyby/src/pipeline.rs:461-478 | First or again: needs a sink and an openable source, else changes nothing; then queue, sinks and counters start empty |
| Pipeline.SimplePipeline.StartOver | crates/flyby/src/pipeline.rs:468-476 | Sinks keep their ids and lose their contents; all counters are zero |
| Pipeline.SimplePipeline.WriteWithBackpressure | crates/flyby/src/pipeline.rs:358-441 | Strategy by strategy: which result, which sink stores the message, how many write calls (retries + 1 when refused), which counters move; no result but Written stores anything |
| Pipeline.SimplePipeline.WriteOverflow | crates/flyby/src/pipeline.rs:383-417 | One write to the overflow sink when it is set, registered and another sink; otherwise drop or the documented error |
| Pipeline.SimplePipeline.VerdictCases | crates/flyby/src/pipeline.rs:376-417 | Under a strategy that does not block: an accepted write stores, a broken one fails with its kind, a refused one drops; under overflow the other sink is tried once, with its own error kinds when it is NONE or not registered |
| Pipeline.SimplePipeline.RefillPending | crates/flyby/src/pipeline.rs:329-338 | Queues the first `batch_size` of the records delivered, or nothing when the poll fails; queue and deliveries stay equal if and only if the poll returns at most that many, or fails without having delivered any; the total to be handed on is conserved |
| Pipeline.SimplePipeline.ProcessOneFrame | crates/flyby/src/pipeline.rs:341-356 | A frame is settled with a recorded fate, or on error and back-pressure stays at the head with no sink changed; it is skipped if and only if decoder, preprocessor or placement leaves it out, and the first failing stage's error is the step's |
| Pipeline.SimplePipeline.ExplainsMeans | crates/flyby/src/pipeline.rs:341-356 | A fate that `Stage` explains was earned stage by stage: a written message is what decode and then preprocess made of the frame and went where the placement said or to the overflow sink; a frame is skipped exactly when one of the three leaves it out |
| Pipeline.SimplePipeline.StagesExclusive | crates/flyby/src/pipeline.rs:341-356 | On one attempt a frame is left out, meets an error, or has a message and a sink, and only one of these |
| Pipeline.SimplePipeline.DrainPending | crates/flyby/src/pipeline.rs:526-542 | Skips frames up to the first that is written, dropped or refused |
| Pipeline.SimplePipeline.Step | crates/flyby/src/pipeline.rs:522-571 | Progress settles one frame past any skipped ones; anything else changes no sink; a refused frame stays at the head; Exhausted only with an empty queue, even when exhaustion came with the last records; the account of records to be handed on is conserved |
| Pipeline.SimplePipeline.PollAndDrain | crates/flyby/src/pipeline.rs:548-570 | The same for the half of a step that polls |
| Pipeline.SimplePipeline.Standing | crates/flyby/src/pipeline.rs:522-571 | Whenever the pipeline is valid: frames polled are settled or queued, each written message is what the stages made of its frame in the sink the placement named (or the overflow sink), a frame is skipped if and only if a stage leaves it out, counters add up and every sink holds exactly its frames' messages in order |
| Pipeline.SimplePipeline.StatelessKeepsRoute | crates/flyby/src/pipeline.rs:341-356 | Stages that ignore the attempt number settle every frame as its first attempt had routed it |
| Pipeline.SimplePipeline.RefusedFrameMovesOn | crates/flyby/src/pipeline.rs:524-540 | Under round-robin placement a refused frame is routed to the same sink on its retry if and only if there is one sink, the wrap of the call counter aside |
| Pipeline.SimplePipeline.RoundRobinSettles | crates/flyby/src/pipeline.rs:128-135 | A written frame is in the sink of an earlier call if and only if the calls are a multiple of the number of sinks apart |
| Placements.RoundRobinPlacement.New | crates/flyby/src/pipeline.rs:109-125 | Refuses an empty list and `SinkId::NONE` |
| Placements.RoundRobinPlacement.Route | crates/flyby/src/pipeline.rs:131-135 | Call n gets sink n modulo their number and readies call n + 1, the counter wrapping |
| Placements.SameSink | crates/flyby/src/pipeline.rs:131-135 | Two calls go to the same of distinct sinks if and only if their wrapped numbers differ by a multiple of the number of sinks |
| Placements.RetryStays | crates/flyby/src/pipeline.rs:131-135 | Consecutive calls go to the same sink if and only if there is one sink, or the counter wraps between them at a multiple of their number |
| Placements.RetryMovesOn | crates/flyby/src/pipeline.rs:131-135 | With two sinks the first frame, refused, is offered to the other sink next |
| Pipeline.SimplePipeline.SettledAreRecords | crates/flyby/src/pipeline.rs:522-571 | Over a file read to its end, frames settled are the file's records in order, and at exhaustion all of them |
| Pipeline.SimplePipeline.Turn | crates/flyby/src/runtime/scheduler.rs:84-99 | One turn of the run delivers, settles or retries, and keeps the run on course |
| Pipeline.RunSingleThread | crates/flyby/src/runtime/scheduler.rs:71-103 | Terminates while sinks do not refuse for ever; by exhaustion, or when a poll fails, it has polled exactly the number of frames `HandedOn` says of the file; every settled frame's fate was earned by decode, preprocess and placement on it; by exhaustion each was settled once, in order, and counters and sink logs follow; when polls fit the batch size they are all the file's records |
| Lcg.FullPeriod | simulator/src/fault.rs:132-139 | From any seed, n steps return to the seed if and only if 2^64 divides n |
| Lcg.StepInjective | simulator/src/fault.rs:132-139 | Distinct states have distinct successors |
| Lcg.SeedsNeverMerge | simulator/src/fault.rs:132-139 | Streams from distinct seeds differ at every step |
| Lcg.NoShortCycle | simulator/src/traffic.rs:286-292 | Two positions of one stream agree only a multiple of 2^64 steps apart |
| Lcg.IterateClosedForm | simulator/src/fault.rs:132-139 | n steps are multiplication by a^n plus a geometric sum, modulo 2^64 |
| Lcg.GeometricDivisibility | simulator/src/fault.rs:132-139 | For a = 1 mod 4 the geometric sum of n terms has exactly the powers of two n has |
| Fault.CorruptsOneByte | simulator/src/fault.rs:118-124 | Corruption changes exactly one byte, and flipping it again restores the payload |
| Fault.FlipInvertsBits | simulator/src/fault.rs:118-124 | The corrupted byte has all eight bits inverted, the others none |
| Fault.DecisionsExactly | simulator/src/fault.rs:84-139 | Drop, corruption and spike are each decided at their own rate: never and without a draw at zero, else by one step of the generator whose high word is below the rate times u32::MAX; a spike is as long as the policy says |
| Fault.UnitRange | simulator/src/fault.rs:127-130 | The unit draw lies in [0, 1] and reaches 1 exactly when the high word is all ones |
| Fault.FullDropRate | simulator/src/fault.rs:84-89 | At rate 1.0 a draw drops exactly when its high word is not all ones, although the rate is documented as always |
| Fault.FullDropRateMisses | simulator/src/fault.rs:26-32 | A seed whose first draw slips through rate 1.0 |
| Fault.FaultInjector.constructor | simulator/src/fault.rs:77-79 | Starts at the seed |
| Fault.FaultInjector.Advance | simulator/src/fault.rs:132-139 | One step of the recurrence, stored and returned |
| Fault.FaultInjector.Decision | simulator/src/fault.rs:84-99 | A zero rate decides without advancing; any other advances once and compares |
| Fault.FaultInjector.Drops | simulator/src/fault.rs:84-89 | The drop decision at the drop rate |
| Fault.FaultInjector.Corrupts | simulator/src/fault.rs:94-99 | The corruption decision at the corruption rate |
| Fault.FaultInjector.Spikes | simulator/src/fault.rs:104-113 | The spike length when the spike decision fires, else zero |
| Fault.FaultInjector.Corrupt | simulator/src/fault.rs:118-124 | Flips one byte from the offset on, in place; an empty payload draws nothing |
| SimRing.FifoPastWrap | simulator/src/ring.rs:95-95 | The slot to fill is free of unread payloads, for every tail and length, if and only if the capacity divides 2^64 |
| SimRing.WrapOverwrites | simulator/src/ring.rs:95-95 | For every other capacity, with 2^64 mod capacity payloads unread at the wrap the next push is given the oldest one's slot |
| SimRing.WrapLosesOldest | simulator/src/ring.rs:87-118 | For every such capacity that push finds room, and the next payload popped is the new one in place of the oldest |
| SimRing.WrapCollides | simulator/src/ring.rs:95-95 | With three slots, the first push after the wrap lands on an unread payload's slot |
| SimRing.NextSlotIsFree | simulator/src/ring.rs:87-103 | The slot to fill is none of the unread ones, short of a wrap the capacity does not divide |
| SimRing.FillAppends | simulator/src/ring.rs:95-97 | Filling that slot appends the payload to the queue |
| SimRing.VirtualSharedMemory.constructor | simulator/src/ring.rs:42-57 | A new ring is empty |
| SimRing.VirtualSharedMemory.TryPush | simulator/src/ring.rs:87-103 | Oversized before full; otherwise appends to a bounded FIFO and returns the next sequence number; counters say which; a refusal changes no slot |
| SimRing.VirtualSharedMemory.TryPop | simulator/src/ring.rs:108-118 | Takes the oldest payload, or nothing when empty |
| SimRing.VirtualSharedMemory.Peek | simulator/src/ring.rs:123-129 | Shows the payload at an offset from the oldest and consumes nothing |
| SimRing.VirtualConsumer.Slow | simulator/src/consumer.rs:32-39 | A budget of at least one |
| SimRing.VirtualConsumer.Drain | simulator/src/consumer.rs:61-72 | Takes exactly the least of limit, budget and length, oldest first, and counts it |
| Pacing.FixedRateAccounts | simulator/src/traffic.rs:241-254 | Emitted x period + carry never exceeds the time elapsed, and equals it if and only if no tick was capped and no addition saturated |
| Pacing.FixedRateExact | simulator/src/traffic.rs:241-254 | An uncapped run from fresh emits exactly the whole periods elapsed |
| Pacing.WindowBound | simulator/src/traffic.rs:241-254 | Any window, capped or not, emits at most floor((D + period - 1) / period) |
| Pacing.CarryBounded | simulator/src/traffic.rs:241-254 | The carry stays below one period |
| Pacing.FixedTick | simulator/src/traffic.rs:241-254 | The same account for one tick; only a full batch leaves time unaccounted for |
| Pacing.RateIsExact | simulator/src/traffic.rs:245-253 | Because the period is truncated, the long-run rate is exact if and only if the rate divides 10^9, and otherwise runs fast |
| Pacing.FlatPatterns | simulator/src/traffic.rs:240-251 | Over any ticks: full speed, and a rate above one packet a nanosecond, fill every batch; a rate of zero and a burst of nothing emit none |
| Pacing.GaussianRun | simulator/src/traffic.rs:273-281 | Gaussian traffic emits, tick by tick, the next sample up to the batch |
| Pacing.BurstCycle | simulator/src/traffic.rs:255-273 | A cycle is ceil(burst / batch) ticks emitting the burst in all, then ceil(gap / tick) silent ones |
| Pacing.BurstPeriodic | simulator/src/traffic.rs:255-273 | k cycles from a fresh pacer emit exactly k bursts and end where a cycle ends |
| Pacing.BurstDrains | simulator/src/traffic.rs:255-273 | Owed packets go out a batch at a time, then the gap starts |
| Pacing.GapPasses | simulator/src/traffic.rs:258-261 | The gap passes in silence, tick by tick |
| Pacing.TrafficPacer.constructor | simulator/src/traffic.rs:212-229 | Starts with a whole burst owed and no carry |
| Pacing.TrafficPacer.PacketsForTick | simulator/src/traffic.rs:237-284 | The in-place pacer does one `Tick` per call |
| Replay.BurstState | simulator/src/replay.rs:132-147 | The gap is armed exactly after each full burst, counted from its last release |
| Replay.RefusedOnlyInGap | simulator/src/replay.rs:132-147 | A request is refused if and only if a full burst has just ended and its resume time has not come |
| Replay.BurstPace | simulator/src/replay.rs:132-147 | Under a nondecreasing clock release k comes no earlier than the first release plus floor(k / count) gaps, short of saturation |
| Replay.StepsExactly | simulator/src/replay.rs:87-93 | In single-step mode, over any asks, advances, pauses and resumes: an ask not made in a pause is let go if and only if nothing has gone since the last advance, or the start; so no more than one and one for each advance ever go |
| Replay.StepArmed | simulator/src/replay.rs:71-93 | The step is armed exactly while nothing has gone since it began |
| Replay.StepExample | simulator/src/replay.rs:171-178 | Two asks, an advance, two asks: the first and the third go |
| Replay.FullSpeedExactly | simulator/src/replay.rs:85-85 | At full speed exactly the asks made in a pause are refused |
| Replay.PausedRefuses | simulator/src/replay.rs:79-82 | Paused, every mode refuses every ask and is not changed by it |
| Replay.PausedExactly | simulator/src/replay.rs:56-63 | Paused means that the last pause or resume was a pause |
| Replay.PauseOnlyDelays | simulator/src/replay.rs:79-82 | In every mode a run lets go exactly what it would without the asks made in pauses, and ends in the same state |
| Replay.SimReplay.New | simulator/src/replay.rs:38-48 | Refuses a burst of nothing; otherwise starts fresh, armed and not paused |
| Replay.SimReplay.Advance | simulator/src/replay.rs:71-75 | Arms the next step in single-step mode only |
| Replay.SimReplay.Ready | simulator/src/replay.rs:79-108 | The in-place gate answers and moves as `ReadyAt` says, mode by mode |
| NetBatch.RawBatch.constructor | crates/flyby-net/src/batch.rs:71-87 | A new batch is empty with the capacity asked for |
| NetBatch.RawBatch.Reset | crates/flyby-net/src/batch.rs:94-96 | Forgets its packets, whoever put them there |
| NetBatch.RawBatch.RecordDrop | crates/flyby-net/src/batch.rs:134-136 | Counts a drop and keeps the packets |
| NetBatch.RawBatch.Push | crates/flyby-net/src/batch.rs:170-191 | Appends the packet cut to the frame size with its true length on record; says truncated or full, and counts both |
| NetBatch.FittedKeepsHead | crates/flyby-net/src/batch.rs:170-191 | What a slot keeps: as much of the head as it holds, stamp and queue as given, and the greater of the length on record and the true one |
| PcapCodec.ParsePcap | simulator/src/pcap.rs:65-138 | The parsing loop computes `Parse`: header checks, four magics, truncation error, trailing bytes ignored |
| PcapCodec.WritePcap | simulator/src/pcap.rs:152-177 | The writing loop computes `Encode` |
| PcapCodec.RoundTrip | simulator/src/pcap.rs:65-177 | Parsing what was written gives the packets as stored; with nanoseconds it gives the packets themselves if and only if every timestamp's seconds fit 32 bits |
| PcapCodec.GlobalHeaderBytes | simulator/src/pcap.rs:152-163 | The 24 header bytes written: magic of the resolution, version 2.4, zeros, 65535, link type 1, least significant byte first |
| PcapCodec.RecordBytes | simulator/src/pcap.rs:165-177 | A written record: seconds modulo 2^32, fraction at the file's resolution, captured length and original length both the data's, then the data |
| PcapCodec.FileGrowsByRecords | simulator/src/pcap.rs:152-179 | A written file is the header and one record after another |
| PcapCodec.MagicDecides | simulator/src/pcap.rs:65-86 | The first four bytes choose byte order and resolution among four; any others, or fewer than 24 bytes, are a decoding error |
| PcapCodec.RecordsRead | simulator/src/pcap.rs:87-137 | What is read at a record boundary: seconds at 0, fraction at 4 and length at 8 in the file's byte order, time in nanoseconds without saturation, data from 16; a missing byte of data is a decoding error, fewer than 16 bytes are passed over |
| PcapCodec.MicrosecondFloor | simulator/src/pcap.rs:163-170 | With microseconds a timestamp is floored to 1000 ns |
| PcapCodec.SecondsFit | simulator/src/pcap.rs:163-170 | A nanosecond timestamp survives if and only if its seconds fit 32 bits |
| PcapCodec.RecordsRoundTrip | simulator/src/pcap.rs:95-137 | The same for the records alone |
| PcapCodec.TruncationDetected | simulator/src/pcap.rs:105-137 | The record part of a file, cut, is rejected if and only if the cut falls inside a payload; any other cut yields a prefix of the packets |
| PcapCodec.CutFile | simulator/src/pcap.rs:65-138 | A file cut anywhere is rejected if and only if the cut falls inside the global header or inside a payload; any other cut silently yields a prefix of the packets |
| PcapCodec.CutInHeaderIsSilent | simulator/src/pcap.rs:105-137 | A one-packet capture cut ten bytes into its record header parses as an empty capture |
| PcapCodec.ByteOrderIrrelevant | simulator/src/pcap.rs:65-138 | Byte-swapping every header field of a well-formed file leaves the parse unchanged |
| PcapSource.PollConserves | simulator/src/pcap.rs:330-432 | Packets examined = dropped + delivered = how far the cursor moved; never more than the room |
| PcapSource.QuietPoll | simulator/src/pcap.rs:358-428 | A clean poll delivers the packets the cursor passes, untouched and in order |
| PcapSource.DeliversPrefix | simulator/src/pcap.rs:330-432 | Over any polls, advances, pauses and resumes a clean source delivers a prefix of the capture, each packet once |
| PcapSource.TimedPoll | simulator/src/pcap.rs:358-372 | With room to spare a timed poll goes up to the first packet not yet due |
| PcapSource.OriginalTimingExact | simulator/src/replay.rs:110-130 | In a time-ordered capture polled at nondecreasing clocks with room, whatever pauses and advances come between, exactly the packets with ts - ts_0 <= the clock of the last poll not made in a pause are out |
| PcapSource.SingleStepPoll | simulator/src/replay.rs:87-93 | A single-step poll passes one packet if the step is armed, the source not paused and there is one and room for it, else none; passing it, dropped or not, takes the step |
| PcapSource.SingleStepPaces | simulator/src/pcap.rs:284-297 | Over any requests and faults no more packets leave a single-step capture than one and one for each advance |
| PcapSource.PausedPoll | simulator/src/pcap.rs:358-372 | A poll of a paused source delivers nothing and changes nothing, but that an ended capture shows as exhausted |
| PcapSource.FullSpeedPoll | simulator/src/pcap.rs:358-428 | At full speed a clean poll fills the batch as far as the capture goes |
| PcapSource.ExhaustedExactly | simulator/src/pcap.rs:358-368 | A poll marks the source exhausted if and only if it came to the end with room to spare |
| PcapSource.DropComesFirst | simulator/src/pcap.rs:370-409 | A turn stops at the end or where the replay refuses; otherwise the first draw decides on the drop, a dropped packet takes no other, and a sent one carries its time and length after the remaining draws |
| PcapSource.PcapSource.AdvanceReplay | simulator/src/pcap.rs:285-287 | Does to the replay what `advance` does and nothing else |
| PcapSource.PcapSource.PauseReplay | simulator/src/pcap.rs:290-292 | Pauses the replay and does nothing else |
| PcapSource.PcapSource.ResumeReplay | simulator/src/pcap.rs:295-297 | Resumes the replay and does nothing else |
| PcapSource.PollKeepsSpec | simulator/src/pcap.rs:330-432 | Polling does not change the fault policy |
| PcapSource.PcapSource.New | simulator/src/pcap.rs:209-239 | Refuses an invalid replay mode; otherwise starts uninitialised at the first packet |
| PcapSource.PcapSource.Init | simulator/src/pcap.rs:308-321 | Rewinds; the fault stream keeps its place |
| PcapSource.PcapSource.SetFault | simulator/src/pcap.rs:279-282 | A new policy restarts the fault stream from the seed; nothing else changes |
| PcapSource.PcapSource.TakeSpike | simulator/src/pcap.rs:269-273 | Hands over the pending spike time and clears it |
| PcapSource.PcapSource.NextTurn | simulator/src/pcap.rs:358-409 | One turn of the poll loop holds back, loses or sends the packet at the cursor as `Step` says |
| PcapSource.PcapSource.PollBatch | simulator/src/pcap.rs:330-432 | The in-place poll leaves source and batch as `Poll` says; uninitialised polls fail and change nothing |
| VirtualNic.EmitConserves | simulator/src/nic.rs:206-294 | Packets generated = dropped + delivered; never more than the pacer allows or the batch holds |
| SimSource.AfflictsOneByte | simulator/src/fault.rs:118-124 | Length and everything in front of the offset survive; a packet counted corrupted had exactly one byte flipped if and only if there is a byte from the offset on |
| SimSource.AfflictDraws | simulator/src/fault.rs:94-124 | Which draw decides what, in a packet not dropped: corruption first, then the position if there is a byte to flip, then the spike; the byte flipped, the stream's place and the counters follow |
| SimSource.EmptyPacketCountsAsCorrupted | simulator/src/pcap.rs:389-392 | An empty capture packet is counted corrupted with nothing to corrupt |
| SimSource.AfflictInPlace | simulator/src/pcap.rs:389-400 | The in-place steps leave packet, injector and counters as `Afflict` says |
| VirtualNic.EmitsIntactHeaders | simulator/src/nic.rs:241-253 | A delivered frame is the generated one, or it with exactly one payload byte flipped and counted; the headers in front of a payload are never hit |
| VirtualNic.EmitAllWhenQuiet | simulator/src/nic.rs:206-294 | Without drops exactly as many go out as the pacer allows and the batch holds |
| VirtualNic.EmitKeepsSettings | simulator/src/nic.rs:195-295 | Polling changes neither traffic nor fault policy |
| VirtualNic.UdpFrameFields | simulator/src/generator.rs:308-335 | A receiver reads an IPv4 UDP frame for the configured port, its length fields equal to the sizes modulo 2^16, checksums zero, the payload at the end |
| VirtualNic.UdpFrameBytes | simulator/src/generator.rs:308-335 | Every header byte of a frame by position: broadcast, fixed sender, IPv4 and UDP, addresses, ports, lengths most significant byte first, zero checksums, then the payload |
| VirtualNic.DropComesFirst | simulator/src/nic.rs:218-246 | The first draw for a packet decides on the drop; a dropped packet takes no other draw and no payload |
| VirtualNic.CleanEmit | simulator/src/nic.rs:195-263 | A clean poll, packet by packet: as many as pacer and batch allow, packet j around the next payload by number, stamped clock + j up to saturation, with its length |
| VirtualNic.RestartForgets | simulator/src/nic.rs:170-186 | Initialised again, sources that agree on traffic and faults agree altogether, whatever they did before; one that did nothing is not changed |
| VirtualNic.SettingsTakeOver | simulator/src/nic.rs:140-152 | New traffic is like a restart with it, but counters go on; a new fault policy starts its stream over and touches nothing else |
| VirtualNic.VirtualNic.constructor | simulator/src/nic.rs:94-119 | Starts uninitialised with fresh pacing, faults and counters |
| VirtualNic.VirtualNic.Init | simulator/src/nic.rs:170-186 | Zeroes counters and restarts pacing; the fault stream keeps its place |
| VirtualNic.VirtualNic.SetTraffic | simulator/src/nic.rs:140-146 | New traffic starts with fresh pacing; counters and faults carry on |
| VirtualNic.VirtualNic.SetFault | simulator/src/nic.rs:149-152 | A new policy restarts the fault stream from the seed |
| VirtualNic.VirtualNic.TakeSpike | simulator/src/nic.rs:133-137 | Hands over the pending spike time and clears it |
| VirtualNic.VirtualNic.NextPacket | simulator/src/nic.rs:218-263 | One packet dropped, or framed, afflicted and stamped, as `EmitOne` says |
| VirtualNic.VirtualNic.PollBatch | simulator/src/nic.rs:195-295 | The in-place poll leaves source and batch as `Poll` says; uninitialised polls fail and change nothing |
| Timeline.SortIsStable | simulator/src/scheduler.rs:253-258 | The timeline is ordered by time and keeps the given order within an instant |
| Timeline.StableSortUnique | simulator/src/scheduler.rs:253-258 | No other order is sorted and stable: the actions given determine the timeline |
| Timeline.FirstAfter | simulator/src/scheduler.rs:512-516 | Where applying stops: everything before is due, the next is not |
| SimWorld.CatchUpFrame | simulator/src/scheduler.rs:512-547 | Timeline actions leave clock, counters and ring alone and never go back |
| SimWorld.TickMovesClock | simulator/src/scheduler.rs:470-486 | A tick never moves the clock back, and a positive tick moves it forward until it saturates |
| SimWorld.NextStands | simulator/src/scheduler.rs:393-487 | A tick applies no timeline action of its own |
| SimScheduler.StepMovesClock | simulator/src/scheduler.rs:358-487 | A step that goes on moved the clock, still short of the duration; one that does not ended or paused the run |
| SimScheduler.SimScheduler.constructor | simulator/src/scheduler.rs:210-227 | Starts idle without sources, ring, consumers, timeline or controls |
| SimRuns.LastSourceOwnsTheBatch | simulator/src/scheduler.rs:266-268 | A source registered after others is polled after them and does not disturb them; if live, the tick's batch is its packets alone |
| SimRuns.LastConsumerGetsTheRest | simulator/src/scheduler.rs:242-244 | A consumer registered after others takes nothing from them and reads at most what their budgets leave |
| SimScheduler.SimScheduler.WithTimeline | simulator/src/scheduler.rs:253-258 | Keeps the actions sorted by time and stable |
| SimScheduler.SimScheduler.Begin | simulator/src/scheduler.rs:489-510 | Starts a run unless one is under way: sources initialised, clock at start, counters zero, actions for time zero applied |
| SimScheduler.SimScheduler.ApplyAction | simulator/src/scheduler.rs:519-545 | Every source or consumer of the name obeys the action; nothing else changes |
| SimScheduler.SimScheduler.ApplyTimeline | simulator/src/scheduler.rs:512-547 | Applies in order exactly the actions from `timeline_idx` on that are due |
| SimScheduler.SimScheduler.PollSources | simulator/src/scheduler.rs:402-406 | Polls every source in turn into one batch, each poll resetting it, and sums the spikes with saturation |
| SimScheduler.SimScheduler.MovePackets | simulator/src/scheduler.rs:408-458 | Pushes the batch into the ring packet by packet, then lets the consumers drain in order, and counts both |
| SimScheduler.SimScheduler.SnapshotStats | simulator/src/scheduler.rs:573-582 | The packet counters become the sums over the sources |
| SimScheduler.SimScheduler.RunTick | simulator/src/scheduler.rs:393-487 | The in-place tick does what `Tick` says |
| SimScheduler.SimScheduler.Step | simulator/src/scheduler.rs:358-487 | Begins if need be; then ends the run, stops at a control with the timeline caught up, or executes one tick |
| Breakpoints.StepStopsAtControls | simulator/src/scheduler.rs:358-391 | Short of the duration a step executes no tick and pauses if and only if the clock has reached `breakpoint_ns` or the tick count `breakpoint_tick` or `max_steps`; otherwise exactly one tick, and it continues while the clock is short of the duration |
| Breakpoints.RunStops | simulator/src/scheduler.rs:328-346 | A whole run under any controls executes exactly the ticks before the first control reached, or the duration, and is paused in the one case and finished in the other |
| Breakpoints.TickLimitStops | simulator/src/scheduler.rs:380-391 | With only `breakpoint_tick`, or only `max_steps`, k: exactly min(k, length) ticks, paused if and only if k is less than the length |
| Breakpoints.TimeBreakpointStops | simulator/src/scheduler.rs:374-379 | With only `breakpoint_ns` b: every tick executed started at a clock below b, and the run pauses at the first clock that reaches b short of the duration |
| Breakpoints.FirstStop | simulator/src/scheduler.rs:328-346 | Every run with a positive tick has such a first stop |
| Breakpoints.BegunAtZero | simulator/src/scheduler.rs:489-510 | A run begins at the scenario's start with all counters zero |
| Breakpoints.RunClock | simulator/src/scheduler.rs:489-510 | From the beginning of a run: after n ticks the clock reads the start plus n ticks plus all spikes, up to saturation, and the statistics carry it |
| SimScheduler.SimScheduler.Run | simulator/src/scheduler.rs:328-346 | For a positive tick it terminates, and leaves the state `RunOf` describes |
| SimScheduler.SimScheduler.Finish | simulator/src/scheduler.rs:549-571 | Counters snapshot, sources shut down, not running |
| SimRuns.ClockLaw | simulator/src/scheduler.rs:470-486 | After n ticks the clock reads start + n x tick + every spike, up to the largest 64-bit value, and n ticks are counted |
| SourceRuns.LiveOverRun | simulator/src/scheduler.rs:489-571 | A run starts every source and keeps it live, so each is polled at every tick; each tick takes all the spike time its own polls left; finishing stops all |
| SourceRuns.SourceTurn | simulator/src/scheduler.rs:400-412 | What a tick does to a source depends on that source alone, not on the others |
| SourceRuns.PacedOverRun | simulator/src/scheduler.rs:393-412 | Over any run a synthetic source whose traffic no action sets has generated exactly what its pacer gives for that many ticks, whatever its faults, the spikes and the other sources |
| SourceRuns.FixedRateOverRun | simulator/src/traffic.rs:241-254 | A fixed-rate source with batches to spare has generated, after n ticks of a run, floor(n * tick / period) packets: time added by spikes does not count |
| SourceRuns.CaptureOverRun | simulator/src/scheduler.rs:393-412 | A clean, time-ordered capture in a run has sent, after each tick, exactly the packets due when that tick began |
| SourceRuns.FullSpeedFillsBatch | simulator/src/scheduler.rs:393-405 | A clean full-speed source polled last fills the batch with what its traffic asks for, up to the scenario's batch size and at least one |
| SourceRuns.FramesFitSlots | simulator/src/scheduler.rs:394-397 | Batch slots are sized so that a frame is cut if and only if its payload exceeds the scenario's payload size |
| SimRuns.TickClock | simulator/src/scheduler.rs:470-486 | The same for one tick, the saturating sums notwithstanding |
| SimRuns.LengthExact | simulator/src/scheduler.rs:367-370 | The run is over after exactly `Length` ticks and not before |
| SimRuns.ShortenedBySpikes | simulator/src/scheduler.rs:470-486 | A run takes at most n ticks if and only if n ticks and their spikes reach the duration |
| SimRuns.TickBound | simulator/src/scheduler.rs:470-486 | A run takes at most ceil((duration - start) / tick) ticks, and exactly that many when no spike fires on the way |
| SimRuns.ZeroTickNeverEnds | simulator/src/scheduler.rs:470-486 | With a zero tick and no spikes no number of ticks ends the run |
| SimRuns.Conservation | simulator/src/scheduler.rs:393-487 | Over any run, hot-swaps and budgets included: generated = dropped + written + overflows + packets shadowed by a later poll; and the ring holds what it began with plus what was written, minus what was consumed, in order |
| SimRuns.OneSourceConserves | simulator/src/scheduler.rs:402-458 | With one source: generated = dropped + written + overflows, and length at start + written = consumed + length |
| SimRuns.SumHoldsUnlessShadowed | simulator/src/scheduler.rs:402-406 | With any sources the sum holds if and only if nothing was shadowed |
| SimRuns.ShadowedExactly | simulator/src/scheduler.rs:402-406 | Nothing is shadowed in a tick if and only if every source with a live one after it delivers nothing |
| SimRuns.TwoSourcesShadow | simulator/src/nic.rs:208-208 | Two drop-free synthetic sources at full speed break the sum in the first tick |
| SimRuns.RoundConserves | simulator/src/scheduler.rs:402-406 | A round of polls accounts for every packet generated |
| SimRuns.PolledConserves | simulator/src/nic.rs:206-294 | Either kind of source drops or delivers what it generates |
| SimRuns.PushCounts | simulator/src/scheduler.rs:408-440 | Pushing a batch counts every packet once, appends exactly the admitted payloads and respects the capacity |
| SimRuns.DrainCounts | simulator/src/scheduler.rs:442-458 | Consumers together take a prefix of the ring and count it |
| SimRuns.TickRing | simulator/src/scheduler.rs:408-458 | In a tick the batch goes into the ring first, as far as there is room, and the consumers then take what their budgets together allow, oldest first; overflows are exactly what did not fit |
| SimRuns.FastConsumersEmptyTheRing | simulator/src/scheduler.rs:442-458 | Consumers whose budgets together cover the ring leave it empty after every tick |
| SimRuns.DrainTotal | simulator/src/consumer.rs:61-72 | Consumers together take the least of their summed budgets and the length |
| SimRuns.PushTotal | simulator/src/ring.rs:87-103 | Without oversized payloads the ring admits exactly the head of the batch that fits |
| SimRuns.TickBalances | simulator/src/scheduler.rs:393-487 | A tick keeps the books of the run |
| SimRuns.OneSourceUnshadowed | simulator/src/scheduler.rs:402-406 | With a single source nothing is ever shadowed |
| TimelineRuns.TimelineExact | simulator/src/scheduler.rs:512-547 | When a tick executes, the actions applied are exactly those with a time at or before the clock |
| TimelineRuns.SettingsInForce | simulator/src/scheduler.rs:512-547 | Each tick runs on the latest settings due by its clock, in stable time order: traffic and faults of every source, budget of every consumer, and the original ones where none was due |
| TimelineRuns.NthForce | simulator/src/scheduler.rs:512-547 | The same between ticks |
| TimelineRuns.CatchUpExact | simulator/src/scheduler.rs:512-547 | Catching up a sorted timeline stops at the first action not due |
| TimelineRuns.ApplyAllForce | simulator/src/scheduler.rs:519-545 | Applying actions in order puts the last one for each target in force |
| TimelineRuns.TickForce | simulator/src/scheduler.rs:393-487 | A tick leaves the settings in force |
| Pausing.PausingIsTransparent | simulator/src/scheduler.rs:328-391 | After any script of run, step, pause, resume, breakpoints and finish_run, the worlds after each tick are a prefix of those of one uninterrupted run; all of them once the run is over unless it was finished by hand; and cleared and run on, it ends in the identical state |
| Pausing.FinishedByHand | simulator/src/scheduler.rs:348-352 | A run finished by hand reports exactly what its last tick had counted |
| Pausing.CountersStand | simulator/src/scheduler.rs:573-582 | After every tick, and before the first, the packet counters are those of the sources |
| Pausing.CatchUpIdempotent | simulator/src/scheduler.rs:372-391 | A breakpoint step only re-applies the timeline, and catching up twice is catching up once |
| Pausing.StepOnTrack | simulator/src/scheduler.rs:358-487 | A step, whatever it does, leaves the run on the track of the uninterrupted one |
| Pausing.LoopOnTrack | simulator/src/scheduler.rs:334-341 | So does the loop of a run |
| Pausing.ObeyOnTrack | simulator/src/scheduler.rs:318-352 | So does every command but finish_run, which stops the run where it stands |
| Pausing.PlayOnTrack | simulator/src/scheduler.rs:318-391 | So does every script, unless it finishes the run by hand, which stops it where it stands |
| Pausing.TrackLength | simulator/src/scheduler.rs:367-370 | A run on track is over exactly after all of its ticks |
| Pausing.FreeRun | simulator/src/scheduler.rs:328-346 | Cleared of its controls, a run on track ends like the uninterrupted run |
| Pausing.RunCompletes | simulator/src/scheduler.rs:328-346 | An uninterrupted run takes exactly `Length` ticks, ends at or past the duration and is finished |
| Pausing.FirstCommandBegins | simulator/src/scheduler.rs:358-361 | On an idle scheduler `step` and `run` begin the run first |
| SimObjects.TickRig | simulator/src/scheduler.rs:393-487 | Over the real source, batch, ring and consumer objects, mutated in place, a tick leaves exactly the values, clock and counters the tick function gives |
| SimObjects.PushBatch | simulator/src/scheduler.rs:408-436 | Pushing a batch into the ring object does what the push function says |
| SimObjects.DrainRing | simulator/src/scheduler.rs:442-458 | Draining the ring object does what the drain function says |

## Left out

- The memory mapping itself, raw pointers, `Drop`, threads, sleeps and yields, metrics, events, the user interfaces
  and the scenario languages: input and output or wrappers around what is modelled.
- The AF_XDP, DPDK, io_uring and SPDK back ends, `VirtualStorageSource` (its scratch batch is never reset,
  `simulator/src/storage.rs:166`), the worker pool, CPU affinity and the built-in placements: none would add a hard property.
- Machine limits of bookkeeping counters: cumulative `u64` counters, file offsets, `usize` sums and the `u32` retry count
  are unbounded here. The counters of both rings, the simulator's clock, the pacers, timestamps, slot and region sizes and every encoded
  field are modelled at their width.
- `usize` is 64 bits wide and the machine is little-endian, as the region layout assumes.
- Custom framers and custom payloads, which are arbitrary closures. What a payload generator fills in is an arbitrary
  function of the packet's number and the fill's number.
- Gaussian sampling and `TimeScaled` replay, which are floating point: Gaussian samples are an arbitrary stream,
  `TimeScaled` is not modelled.
- The real-time clock mode of the simulator: every run theorem is about virtual time.
- `Instant` in the Follow policy is a flag that says whether the interval has elapsed.
- Loading a capture from disk.
- SpscProtocol.DeliversInOrder: slot bytes are read and written at the current memory; that no stale byte can be observed
  is the pair of acquired releases stated in `SpscProtocol.SlotsAreExclusive`, not a model of store buffers.
- FileSource.FileSource.PollBatch: of a looped file after a failed read or seek it describes the batch, the history and the
  outcome of the failing poll, and not which records later polls deliver.
- FileBooks.FailedReadInserts: of a looped file, the pass before the first rewind.
- FileSource.FileSource.FileGrows: a followed file only grows; truncation and rewriting are not modelled.
- Pipeline.StorageBatchSource.PollFrames: the adapter is over a file source; the network adapter has the same body.
- Pipeline.SimplePipeline.Init: sinks cannot fail to initialise, and `shutdown`, which flushes them, is not modelled.
- Pipeline.SimplePipeline.StartOver: sinks cannot fail to initialise.
- Pipeline.SimplePipeline.WriteWithBackpressure: unlimited blocking needs a sink that some day accepts or fails, which is a
  precondition of the pipeline and not a promise of the source.
- Pipeline.RunSingleThread: under a blocking strategy it terminates only for sinks that do not refuse for ever, since the
  source retries such a frame without end.
- Fault.FaultInjector.Decision: rates and draws are exact reals; the comparison with a rounded quotient is not modelled.
- Fault.FaultInjector.Drops: the same.
- Fault.FaultInjector.Corrupts: the same.
- Fault.FaultInjector.Spikes: the same.
- Replay.SimReplay.Ready: `TimeScaled` is not modelled.
- Replay.SimReplay.New: the validation of `TimeScaled` factors is not modelled.
- SimRing.VirtualSharedMemory.TryPush: once a capacity that does not divide 2^64 has wrapped, only the length and the
  outcome are described.
- PcapSource.PcapSource.PollBatch: `loop_capture` is not modelled; with a fault stream that drops everything that loop does not end.
- SimScheduler.SimScheduler.constructor: sources, ring and consumers are values inside the scheduler, which owns them;
  `SimObjects.TickRig` ties a tick to the objects for one synthetic source, one ring and one consumer.
- SimObjects.TickRig: one source and one consumer; several are covered on values only.
- SimScheduler.SimScheduler.Run: asks for a positive tick, as scenario files must have
  (`simulator/src/dsl/compile.rs:192`); `SimRuns.ZeroTickNeverEnds` is the other case.
- SimRuns.Conservation: a run's sources are those registered when it begins.
- Pausing.PausingIsTransparent: commands after the end of the run, which would start another, are ignored; wall-clock time
  and the last batch kept for inspection are not part of the tick states.
- EndToEnd.RecordsReachTheConsumer: that the ring is the registered sink is a premise, since a pipeline's sinks are logs here.

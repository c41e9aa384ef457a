# Verified model of the network telemetry utilities

This project models, in Dafny 4.11, the data structures that carry telemetry
between the collectors and the reducer, and proves what they promise. Machine
words are natural numbers with the wrap-around written out (`Bits.dfy`); code
that updates memory in place is a class with the same fields, arrays and loops,
proved against functions on values; properties of runs are stated over every
run or every interleaving.

| files | component |
|---|---|
| `ElementQueueLayout`, `ElementQueueProtocol`, `ElementQueueTheorems`, `ElementQueueProgress` | the shared-memory queue as a state machine with one shared access per step: layout, safety of every interleaving, progress |
| `ElementQueue`, `ElementQueueChannel` | the coded queue and writer; a writer and a reader object over one shared block, which keep the protocol state reachable |
| `TDigestSpec`, `TDigest`, `TDigestMonotone` | the quantile digest over the reals: merging, compression, accumulation, estimation |
| `JitbufLayout`, `JitbufReader`, `JitbufProgram`, `JitbufMeaning`, `JitbufTheorems`, `JitbufExact`, `JitbufPointers`, `JitbufLengths`, `JitbufBlobs`, `JitbufHandler`, `JitbufExamples` | message transforms: descriptors, the plan, the emitted instruction list with an interpreter, and the message handler |
| `WordBits`, `BitmapSpec`, `BitmapIterator`, `Bitmap` | the hierarchical bitmap and its iterator |
| `PoolAllocator`, `Pool`, `FixedHash` | the free-list allocator, the element pool and the fixed-capacity hash |
| `FastDiv`, `Histogram`, `MetricWindow`, `MetricStore` | approximate division, bin selection and the rotating window of change queues |
| `Lookup3`, `Lookup3Hash`, `Lookup3Answers` | the lookup3 hash functions, one reference definition for all their readers, and known answers |
| `PerfRingSpec`, `PerfRing` | the perf ring: records with in-band headers in a wrapping byte ring |
| `Bits`, `Common`, `LittleEndian` | words, shared declarations, bytes of numbers |

Where the code does less than its comments or its callers expect, the code is
modelled as it is, a concrete input is given, and the exact condition is proved:

- the element queue's offset helper compares signed differences: it is right for
  every cursor and length exactly up to buffers of 2^30 bytes
  (`NextOffsetWordFails`, `NextOffsetWordExact`);
- lengths above 2^32 - 8 round to zero, so a drained queue accepts them, and an
  accepted length fits exactly when it is not one of them (`OversizedAccepted`,
  `AcceptedFitsExactly`);
- `compute_positions` works in 16 bits: the positions are safe exactly when the
  layout is smaller than 2^16 bytes (`OverflowExample`, `PositionsSafeExactly`);
- the pointer of a blob is computed with a signed 16-bit index: it is right
  exactly for offsets below 2^15 (`PointerExample`, `PointerExact`);
- the length of the sender's last blob is stored over its pointer, and pointers
  overlap in slots that the layout makes 4 bytes wide: a blob's struct holds its
  pointer and its length exactly when the blob is not the last one and no other
  store overlaps them (`RemainderExample`, `PointerHeldExactly`,
  `LengthHeldExactly`); where none overlap, all structs lie inside the message
  exactly when the last one does (`MessageBlobsExactly`);
- for the same reason blob stores reach fixed fields: a matched field arrives,
  and an unmatched one is left alone, exactly at the bytes that no blob store
  reaches (`ClobberExample`, `MatchedArrivesExactly`, `UnfilledKeptExactly`);
- the quantile estimate can fall as the quantile grows: it does not exactly when
  neighbouring gaps between the means are even enough (`FallingExample`,
  `GrowsExactly`);
- the multiplier of a `fast_div` needs 33 bits for an exact power of two with
  the largest shift, and the cast of that is undefined: the quotient is as
  promised exactly for the other divisors (`UnitDivisor`, `DividesExactly`);
- more than 32 required bits of a `fast_div` are cut by the final cast
  (`WideExample`, `HighBits`);
- `histogram_bin` puts an item into the last bin, not the first, when its
  subtraction overflows (`LastBinExample`, `BinClamps`);
- `handle_multiple` never returns an error and may not return at all: it ends
  exactly when every message before the first one not handled reports a positive
  length (`HiddenErrorExample`, `StallExample`, `EndsExactly`, `ResultExactly`);
- the perf ring passes lengths as 16 bits: a read returns what was written
  exactly for elements shorter than 2^16 bytes (`LongExample`,
  `ReturnedExactly`).

`dafny verify dfyconfig.toml` checks the whole project.

## Model

| member | source | states |
|---|---|---|
| ElementQueueLayout.Align8WordExact | util/element_queue.c:65-65 | rounding a length up to 8 in 32 bits is the true rounding exactly for lengths up to 2^32 - 8; longer ones round to zero |
| ElementQueueLayout.NextOffsetWordCorrect | util/element_queue.c:12-19 | the 32-bit offset helper with its signed comparison computes the unbounded next offset modulo 2^32, for every cursor and every length below the buffer size |
| ElementQueueLayout.NextOffsetWordFails | util/element_queue.c:15-16 | a 2^31-byte buffer: the concrete cursor and length where the signed comparison misses the wrap |
| ElementQueueLayout.NextOffsetWordExact | util/element_queue.c:12-19 | among the power-of-two buffers the helper is right for every cursor and length if and only if the buffer has at most 2^30 bytes |
| ElementQueueLayout.Contiguous | util/element_queue.c:73-87 | an element never straddles the end of the buffer: consecutive bytes have consecutive offsets |
| ElementQueueLayout.Aligned | util/element_queue.c:73-87 | every element start and end is a multiple of 8, for every history of lengths |
| ElementQueueLayout.LiveDisjoint | util/element_queue.c:73-87 | two different unreleased elements share no byte of the buffer |
| ElementQueueProtocol.WriteDecision | util/element_queue.c:61-88 | on wrapped 32-bit cursors and for lengths up to 2^32 - 8 the writer accepts, refuses or rejects exactly as the unbounded positions say, and claims the offset of the layout |
| ElementQueueProtocol.ReadDecision | util/element_queue.c:121-142 | the reader's recomputed offset is the offset the writer chose for that element |
| ElementQueueProtocol.WriteStep | util/element_queue.c:61-88 | claiming an element keeps the protocol invariant, with the reader anywhere in its own program |
| ElementQueueProtocol.CopyStep | util/element_queue_cpp.h:197-207 | storing one payload byte keeps the invariant and touches no element the reader may still read |
| ElementQueueProtocol.ReadStep | util/element_queue.c:121-142 | taking an element keeps the invariant |
| ElementQueueProtocol.CopyOutStep | util/element_queue_cpp.h:265-279 | loading one payload byte stays inside the buffer and yields the byte that was written |
| ElementQueueProtocol.LoadHeadsStep | util/element_queue.h:84-91 | the writer's loads of the two shared heads, one at a time, keep the invariant although the reader may store between them |
| ElementQueueProtocol.StoreTailsStep | util/element_queue.h:110-120 | the writer's two separate stores of the tails keep the invariant |
| ElementQueueProtocol.LoadTailStep | util/element_queue.h:128-137 | the reader's load of the shared tail, and the delivery of an element, keep the invariant |
| ElementQueueProtocol.StoreHeadsStep | util/element_queue.h:165-173 | the reader's two separate stores of the heads keep the invariant |
| ElementQueueProtocol.StepInv | util/element_queue.h:84-173 | every enabled step of either side keeps the invariant |
| ElementQueueProtocol.RunInv | util/element_queue.h:84-173 | the invariant holds after every interleaving of any length |
| ElementQueueTheorems.FifoDelivery | util/element_queue.c:61-142 | in every reachable state the byte strings delivered are an in-order prefix of those accepted, and the offsets found are a prefix of the offsets placed |
| ElementQueueTheorems.NeverOverwritten | util/element_queue.h:84-173 | an element whose space has not been released still holds exactly its bytes, at an aligned offset inside the buffer |
| ElementQueueTheorems.Occupancy | util/element_queue.c:73-87 | unreleased elements never exceed the slot count nor their padded bytes the buffer, in every reachable state |
| ElementQueueTheorems.PairwiseDisjoint | util/element_queue.c:73-87 | in every reachable state two unreleased elements occupy different bytes |
| ElementQueueTheorems.InBounds | util/element_queue.c:61-142 | no reachable step reads or writes outside the slot array or the buffer |
| ElementQueueTheorems.EmptyExactly | util/element_queue.c:131-133 | the wrapped head and tail of the reader are equal exactly when it has read everything it knows of, across counter wrap-around |
| ElementQueueTheorems.DrainedAcceptance | util/element_queue.c:65-82 | in a drained queue a length up to 2^32 - 8 is accepted if and only if its padded size fits before the end of the buffer or in front of the cursor |
| ElementQueueTheorems.OversizedAccepted | util/element_queue.c:65-82 | every length above 2^32 - 8 is accepted by a drained queue of any size, and claims no byte of the buffer |
| ElementQueueTheorems.AcceptedFitsExactly | util/element_queue.c:65-82 | in a drained queue an accepted length of any 32-bit size fits the buffer from its offset if and only if it is at most 2^32 - 8 |
| ElementQueueTheorems.HalfAlwaysFits | util/element_queue.c:65-82 | in a drained queue every element of at most half the buffer is accepted |
| ElementQueueTheorems.HalfIsTight | util/element_queue.c:65-82 | for every buffer of at least 32 bytes a reachable drained state refuses half the buffer plus 8 |
| ElementQueueTheorems.WholeWrite | util/element_queue_cpp.h:197-207 | a whole write call is a run of the protocol: it ends in a reachable state that holds the new bytes |
| ElementQueueTheorems.WholeRead | util/element_queue_cpp.h:265-279 | a whole read call is a run of the protocol and returns the next unread element byte for byte |
| ElementQueueProgress.ReaderDrains | util/element_queue.h:128-173 | from every reachable state whose elements are all published, reader steps alone lead to a reachable state in which all are read and released |
| ElementQueueProgress.WriterDrains | util/element_queue.h:84-173 | from every reachable state with the writer in a batch, publishing the tails and then reader steps lead to a reachable drained state with the same elements accepted |
| ElementQueueProgress.RetryCanEnd | util/element_queue_writer.cc:29-49 | from every reachable state with the writer in a batch a run exists after which any element of at most half the buffer is accepted, so the wait for space can always end |
| ElementQueueImpl.ElementQueue.InitContig | util/element_queue.c:29-51 | accepted exactly for a non-null block and sizes that are zero or powers of two; the cursors are those of the shared block |
| ElementQueueImpl.ElementQueue.StartWriteBatch | util/element_queue.h:84-91 | the heads become those of the shared block and nothing else changes |
| ElementQueueImpl.ElementQueue.Write | util/element_queue.c:61-88 | result code, cursors and length array are those of the protocol step, for every 32-bit length |
| ElementQueueImpl.ElementQueue.FinishWriteBatch | util/element_queue.h:110-120 | both tails are published |
| ElementQueueImpl.ElementQueue.StartReadBatch | util/element_queue.h:128-137 | the tail becomes that of the shared block |
| ElementQueueImpl.ElementQueue.Peek | util/element_queue.c:90-97 | the length of the next element, or -ENOENT exactly when the cursors meet |
| ElementQueueImpl.ElementQueue.PeekOffset | util/element_queue.c:99-119 | the offset and length that the next read will give |
| ElementQueueImpl.ElementQueue.Read | util/element_queue.c:121-142 | offset, length and cursors are those of the protocol step; -EAGAIN exactly when empty |
| ElementQueueImpl.ElementQueue.FinishReadBatch | util/element_queue.h:165-173 | both heads are published |
| ElementQueueImpl.ElementQueue.WriteBytes | util/element_queue_cpp.h:197-207 | on success the buffer is the old one with the bytes spliced in at the claimed offset, on failure nothing changes |
| ElementQueueImpl.ElementQueue.ReadBytes | util/element_queue_cpp.h:265-279 | the bytes at the offset of the next element, or nothing exactly when empty |
| ElementQueueImpl.ElementQueue.MoveFrom | util/element_queue.c:144-176 | moves one element between queues, or leaves cursors, lengths and bytes of both untouched with the error of the failing side |
| ElementQueueImpl.ElementQueueWriter.StartWrite | util/element_queue_writer.cc:22-56 | retries exactly as long as the published heads leave no space, with the documented back-off, and ends with the first attempt that is not refused for space |
| ElementQueueImpl.RetryEnds | util/element_queue_writer.cc:29-49 | once the reader has published a drained queue, the retry loop succeeds for every element of at most half the buffer |
| ElementQueueChannel.HeadLengthFits | util/element_queue.c:121-142 | in every reachable state the length word under the head of a non-empty reader is the length of the next accepted element and fits the buffer |
| ElementQueueChannel.DecidedByHistory | util/element_queue.c:61-88 | in every reachable state the writer accepts, refuses or rejects a length by the unbounded layout of everything accepted so far and the heads it has loaded |
| ElementQueueChannel.Channel.constructor | util/element_queue.c:29-51 | a writer object and a reader object over one shared block and the same arrays hold the initial protocol state |
| ElementQueueChannel.Channel.Delivered | util/element_queue.c:61-142 | at every point between calls on the two objects, what was delivered is an in-order prefix of what was accepted |
| ElementQueueChannel.Channel.StartWriteBatch | util/element_queue.h:84-91 | the objects keep holding a reachable state; the writer knows the published heads |
| ElementQueueChannel.Channel.Write | util/element_queue_cpp.h:197-207 | accepted, refused or rejected exactly as the history says; the objects keep holding a reachable state in which the bytes are appended to the accepted elements, or nothing has changed |
| ElementQueueChannel.Channel.FinishWriteBatch | util/element_queue.h:110-120 | the objects keep holding a reachable state; every accepted element is published |
| ElementQueueChannel.Channel.StartReadBatch | util/element_queue.h:128-137 | the objects keep holding a reachable state; the reader knows the published tail |
| ElementQueueChannel.Channel.Read | util/element_queue_cpp.h:265-279 | returns byte for byte the first accepted element not yet read, whatever the writer object has done since; nothing exactly when all known elements are read |
| ElementQueueChannel.Channel.FinishReadBatch | util/element_queue.h:165-173 | the objects keep holding a reachable state; the space of every element read is released |
| ElementQueueChannel.Channel.MoveTo | util/element_queue.c:144-176 | moving between two channels: the next element leaves one and is appended whole to the other exactly when the history there leaves room; otherwise both stay as they are, with -ENOENT, -ENOSPC or -ENOSYS as coded |
| TDigestSpec.KToQShape | util/tdigest.cc:14-23 | the scale function is 0 at 0, 1 at its end, strictly increasing and symmetric |
| TDigestSpec.KToQQuadratic | util/tdigest.cc:14-23 | up to the middle, where it is one half, the scale function times d squared is twice k squared, so doubling k multiplies it by four |
| TDigestSpec.LimitIs | util/tdigest.cc:14-23 | the hundred limits in numbers: (j + 1)^2 / 5000 of the count in the lower half, mirrored in the upper one |
| TDigestSpec.LimitReachesTotal | util/tdigest.cc:14-23 | the limit of the last centroid is the full count |
| TDigestSpec.AbsorbMass | util/tdigest.h:69-75 | adding to a centroid conserves mean times weight |
| TDigestSpec.MergeRunsCorrect | util/tdigest.cc:159-168 | merging two sorted runs is sorted and conserves total weight and total mass |
| TDigestSpec.MergeRunsTies | util/tdigest.cc:159-168 | for every mean, the merged run holds exactly the items of both runs with that mean, the right run first, in order |
| TDigestSpec.CompressConserves | util/tdigest.cc:159-198 | compression conserves total weight and total mass and keeps weights positive |
| TDigestSpec.CompressGroups | util/tdigest.cc:159-188 | each output centroid is the sum of one consecutive, non-empty group of input items, and the groups cover the input in order |
| TDigestSpec.CompressLimited | util/tdigest.cc:159-188 | at most 100 centroids; the group of each has one item, or ends at a cumulative weight of at most k_to_q(j + 1, 100) times the count |
| TDigestSpec.CompressGreedy | util/tdigest.cc:176-186 | a group ends only where its next item would have taken it past its limit |
| TDigestSpec.TailsAlone | util/tdigest.cc:159-188 | the first item stays alone unless the first two weigh at most a 5000th of all, and the last one whenever it weighs a 5000th |
| TDigestSpec.CompressSorted | util/tdigest.cc:159-196 | over the reals the output is already sorted and stays within the first and last input mean |
| TDigestImpl.TDigestMerger.Consider | util/tdigest.cc:159-188 | one turn of the merge loop on the scratch buffer mirrors one step of the compression |
| TDigestImpl.TDigestMerger.MergeLoop | util/tdigest.cc:126-188 | the scratch buffer ends up holding exactly the compression of the merged runs, within its 101 slots |
| TDigestImpl.TDigestMerger.Install | util/tdigest.cc:190-198 | the digest becomes the sorted permutation of the scratch buffer |
| TDigestImpl.SortUnique | util/tdigest.cc:190-196 | centroids with distinct means have only one sorted order, whatever sort is used |
| TDigestImpl.InstalledLimited | util/tdigest.cc:159-198 | hence with distinct means the installed digest is the compression itself, centroid by centroid, and obeys its limits |
| TDigestImpl.MergeResult | util/tdigest.cc:190-198 | whatever sort is used, the result keeps the total weight and mass, the bounds and at most 100 centroids |
| TDigestImpl.MergedConsistent | util/tdigest.cc:112-199 | count, sum, minimum and maximum after a merge are those of all values ever added |
| TDigestImpl.TDigestMerger.MergeFromValues | util/tdigest.cc:112-199 | the digest stays consistent with the multiset of all values; its centroids are the compression of the old ones merged with the sorted values |
| TDigestImpl.TDigestMerger.Merge | util/tdigest.cc:201-278 | merging two digests, also a digest with itself, gives a digest of all values of both; merging an empty one changes nothing, merging into an empty one copies |
| TDigestImpl.TDigestAccumulator.Add | util/tdigest.cc:93-101 | a value is neither lost nor duplicated; every 500th one flushes the buffer, the others leave the digest as it is |
| TDigestImpl.TDigestAccumulator.Flush | util/tdigest.cc:103-110 | after a flush the digest accounts for every value added |
| TDigestImpl.FindSlot | util/tdigest.cc:59-71 | the search finds a centroid whose weight interval contains the rank |
| TDigestImpl.SlotUnique | util/tdigest.cc:59-71 | there is only one such centroid |
| TDigestImpl.EstimateValueAtQuantile | util/tdigest.cc:46-91 | the estimate lies in [min, max], is exact at both ends, and interpolates within the neighbouring means of the centroid of that rank |
| TDigestMonotone.SpacedEstimate | util/tdigest.cc:46-91 | on evenly spaced centroids of equal weight the estimate of every quantile q is m + h (q n - 1/2), clamped to the first and last mean |
| TDigestMonotone.GrowsExactly | util/tdigest.cc:46-91 | over all quantiles a larger one never has a smaller estimate, if and only if every gap between neighbouring means is empty or as wide as the estimate moves in the two half slots beside it |
| TDigestMonotone.FallingExample | util/tdigest.cc:46-91 | the centroids of 0, 1 and 10: quantile 0.3 is estimated as 0.4, quantile 0.4 as 0 |
| TDigestMonotone.EstimateTwice | util/tdigest.cc:46-91 | the coded estimates are those that statement is about, for every digest and every two quantiles |
| JitbufLayout.Descriptor.ComputePositions | jitbuf/descriptor_reader.cc:93-135 | positions, variable-field count and size are those of the unbounded layout modulo 2^16 |
| JitbufLayout.FittingIsSafe | jitbuf/descriptor_reader.cc:93-135 | when the layout fits, every positioned field is aligned, behind the header, inside the size and disjoint from all others |
| JitbufLayout.PositionsSafeExactly | jitbuf/descriptor_reader.cc:93-135 | the positions are safe if and only if the layout is smaller than 2^16 bytes |
| JitbufReader.WidthOfCode | jitbuf/descriptor.h:57-75 | type codes 0 to 3 are the logarithms of the widths, 4 is a blob of 2 or 4 bytes with alignment 2, 5 has 16 bytes, and there are no others |
| JitbufExamples.EveryTypeExample | jitbuf/descriptor_reader.cc:93-135 | a descriptor with a field of every type: all positions and the size in numbers, packed and unpacked |
| JitbufReader.ReadField | jitbuf/descriptor_reader.cc:47-91 | one field word decodes as specified, including the array flag and the error cases |
| JitbufReader.Read | jitbuf/descriptor_reader.cc:11-91 | reading a descriptor is the specified decoding, with every error case |
| JitbufReader.DecodesExactly | jitbuf/descriptor_reader.cc:11-91 | accepted if and only if the header announces what the length holds and every field word has a known type and, for an array, a size of 1 to 4096; then id and fields are the words at their places |
| JitbufReader.HeaderErrors | jitbuf/descriptor_reader.cc:13-35 | the order of the header errors |
| JitbufReader.FirstError | jitbuf/descriptor_reader.cc:46-87 | among the fields the first one that is not decodable decides, its array size before its type |
| JitbufReader.RoundTrip | jitbuf/descriptor_reader.cc:11-91 | decoding the encoding of any valid descriptor gives it back |
| JitbufProgram.CopyFields | jitbuf/transform_builder.cc:97-113 | one copy per matched fixed field, and the largest source end |
| JitbufProgram.ListBlobs | jitbuf/transform_builder.cc:140-186 | one entry per source blob up to the last wanted one, with the length copies of the wanted ones |
| JitbufProgram.DropTailIs | jitbuf/transform_builder.cc:181-186 | resizing after the last wanted blob is dropping the unwanted tail |
| JitbufProgram.GetXformTo | jitbuf/transform_builder.cc:70-197 | the plan built is the specified one, or none exactly when a copy would read past the fixed part |
| JitbufTheorems.BuildsExactly | jitbuf/transform_builder.cc:86-117 | a transform is built if and only if every fixed destination field that some fixed source field matches finds all its bytes, from the last such source field on, inside the fixed part |
| JitbufTheorems.AgreeingBuilds | jitbuf/transform_builder.cc:86-117 | so one is always built when the fields in common agree in type and count, in particular between equal descriptors |
| JitbufTheorems.BlobTargets | jitbuf/transform_builder.cc:127-186 | the i-th variable source field is the i-th blob, written exactly when the destination has a variable field with its id, at the last such one, with its own length word or, for the last, what remains |
| JitbufProgram.GetXform | jitbuf/transformer.cc:46-259 | the emitted instruction list is the specified one |
| JitbufMeaning.CopyStep | jitbuf/transformer.cc:81-144 | a copy emitted as a load and store or as a memcpy has the same effect: the bytes are copied |
| JitbufMeaning.MovesExactly | jitbuf/transformer.cc:108-144 | a copy is a register move if and only if its size is 1, 2, 4, 8 or 16 and both ends are multiples of it |
| JitbufMeaning.OrMask | jitbuf/transformer.cc:115-117 | the combined alignment test holds if and only if both positions are aligned |
| JitbufMeaning.BlobsRun | jitbuf/transformer.cc:146-222 | the interpreted blob code keeps the offset chain and stores the pointers and lengths of the specification |
| JitbufTheorems.PlanRuns | jitbuf/transformer.cc:80-249 | interpreting the emitted program performs the copies, then the blob stores in order, and returns the total or fixed length |
| JitbufTheorems.TruncationHarmless | jitbuf/transform_builder.cc:181-186 | dropping the trailing unwanted blobs changes neither memory nor the stores made nor the returned length |
| JitbufTheorems.BuiltPlanFits | jitbuf/transform_builder.cc:110-117 | every plan the builder accepts reads inside the fixed part of the message |
| JitbufTheorems.TransformSafe | jitbuf/handler.cc:107-113 | with the handler's length guard no read of a compiled transform leaves the message |
| JitbufTheorems.TransformCopiesFields | jitbuf/transform_builder.cc:86-117 | after a transform a matched fixed field holds the source bytes and an unmatched one its old bytes, at every byte no blob store reaches |
| JitbufTheorems.MatchingFieldArrives | jitbuf/transform_builder.cc:86-117 | a field with equal id, type and element count on both sides arrives byte for byte where no blob store reaches it |
| JitbufTheorems.BlobPointer | jitbuf/transformer.cc:146-222 | the pointer stored for the i-th blob is the fixed size plus the lengths of all earlier blobs, in 16-bit arithmetic |
| JitbufTheorems.PointerExact | jitbuf/transformer.cc:163-163 | that pointer is the true offset if and only if the offset is below 2^15, because the 16-bit index is sign-extended |
| JitbufExact.MatchedArrivesExactly | jitbuf/transformer.cc:80-222 | a byte of a field with equal id, type and element count on both sides arrives from every message into every memory if and only if no written pointer or length of a blob lies over it |
| JitbufExact.TouchedCannotTell | jitbuf/transformer.cc:146-222 | where one does, two messages that differ in that byte only are given, and one of them does not arrive |
| JitbufExact.UnfilledKeptExactly | jitbuf/transformer.cc:146-222 | a destination byte that no field copy fills keeps its value for every initial memory if and only if no blob store reaches it |
| JitbufPointers.PointerHeldExactly | jitbuf/transformer.cc:146-222 | over whole runs: from every message at every address into every memory, the pointer stored for a wanted blob is still in the destination afterwards, if and only if the blob is not the sender's last and no later blob's pointer overlaps it |
| JitbufPointers.RemainderInsidePointer | jitbuf/transformer.cc:187-200 | after every transform that wants the sender's last blob, bytes 2 and 3 of its pointer hold its length and the other six the pointer; so the pointer is there if and only if those two bytes of the address happen to be the length |
| JitbufLengths.LengthHeldExactly | jitbuf/transformer.cc:146-222 | over whole runs: the length of a wanted blob is behind its pointer afterwards, for every message, address and memory, if and only if the blob is not the sender's last and neither another pointer nor a later length overlaps it |
| JitbufBlobs.InPlaceExactly | jitbuf/transformer.cc:146-222 | the pointer and length as they are computed for one blob, before later stores, are those of its place in the message if and only if its offset is below 2^15 and its end, from the length words and the total, is at most the message length |
| JitbufBlobs.StoredValuesExactly | jitbuf/transformer.cc:146-222 | for every compiled transform: all values stored, before later stores lie over them, are those of the place of their blob if and only if that holds of the last wanted one |
| JitbufBlobs.MessageBlobsExactly | jitbuf/handler.cc:107-117 | over whole runs, for every compiled transform whose blob stores do not overlap and every message: all structs in the destination point at their blobs and end inside the message if and only if the last wanted blob is at an offset below 2^15 and its length word ends it inside |
| JitbufExamples.ClobberExample | jitbuf/transformer.cc:146-222 | two concrete descriptors and a message where a blob store overwrites a matched fixed field |
| JitbufExamples.RemainderExample | jitbuf/transformer.cc:187-200 | the same message at address 0x10000: the pointer left for its string is not 0x10008, because the length lies over it |
| JitbufExamples.OverflowExample | jitbuf/descriptor_reader.cc:93-135 | one INT128 field of 4096 elements: the size wraps to 16, and the positions are not safe |
| JitbufExamples.PointerExample | jitbuf/transformer.cc:163-163 | two strings, the first of 0x8000 bytes: the pointer stored for the second is -32762 from the message |
| JitbufHandler.CompiledRuns | jitbuf/handler.cc:107-113 | a registered transform runs on every message that passes the guard |
| JitbufHandler.Handler.Add | jitbuf/handler.cc:14-27 | registers a transform, and refuses a second one for the same id |
| JitbufHandler.Handler.Handle | jitbuf/handler.cc:74-120 | timestamp, unknown id and short message are rejected as coded; otherwise the transform can run, and the 16-bit length of the user's handler function, whatever it is, decides between rejection and the consumed length |
| JitbufHandler.Handler.HandleMultiple | jitbuf/handler.cc:132-156 | on a buffer where the loop ends, it ends as the specified loop does, and what it returns is the count of bytes handled |
| JitbufHandler.NeverOverruns | jitbuf/handler.cc:143-145 | after any number of turns the position is inside the buffer, and the check that should not fire does not: only an exception of handle ends the loop that way |
| JitbufHandler.EndsExactly | jitbuf/handler.cc:138-149 | the loop ends if and only if every message before the first one not handled reports a positive length |
| JitbufHandler.TimestampsProgress | jitbuf/handler.cc:138-149 | with timestamps it always ends |
| JitbufHandler.ResultExactly | jitbuf/handler.cc:132-156 | a result is the one 32-bit number with sign congruent to the count of bytes handled, the count itself below 2^31; it is zero if and only if the buffer is empty, the first message is rejected, or a positive count is a multiple of 2^32: no error code is ever returned |
| JitbufExamples.StallExample | jitbuf/handler.cc:138-149 | a concrete message with total zero on which the loop never ends |
| JitbufExamples.HiddenErrorExample | jitbuf/handler.cc:134-155 | a buffer of one byte is rejected by handle and gives zero, whatever is registered |
| Bitmap.FiveLevels | util/iterable_bitmap.h:17-27 | at most five levels for up to 2^30 bits, and the level count of the code |
| Bitmap.IterableBitmap.constructor | util/iterable_bitmap.h:29-33 | an empty bitmap with all levels zero |
| BitmapSpec.SetCorrect | util/iterable_bitmap.h:98-109 | setting keeps every summary bit equal to "child word is non-zero" and adds exactly that element |
| BitmapSpec.ClearSummarizes | util/iterable_bitmap.h:115-126 | a summary bit is cleared exactly when the word below has become zero |
| BitmapSpec.ClearCorrect | util/iterable_bitmap.h:115-126 | clearing keeps the summaries and removes exactly that element |
| Bitmap.IterableBitmap.Set | util/iterable_bitmap.h:98-109 | the in-place update of all levels adds the index to the set the bitmap stands for |
| Bitmap.IterableBitmap.Clear | util/iterable_bitmap.h:115-126 | the in-place update of all levels removes the index |
| Bitmap.IterableBitmap.Get | util/iterable_bitmap.h:128-128 | membership |
| BitmapIterator.AdvanceCorrect | util/iterable_bitmap.h:42-85 | from any element of a level, advancing reaches the next element of that level or ends when there is none, at every number of levels |
| BitmapIterator.NextCorrect | util/iterable_bitmap.h:42-85 | operator++ moves to the next larger element, skipping none, or ends when there is none |
| BitmapIterator.BeginCorrect | util/iterable_bitmap.h:130-178 | begin stands at the smallest element, or has ended exactly when the bitmap is empty |
| Bitmap.IterableBitmap.AdvanceFrom | util/iterable_bitmap.h:42-85 | the nested blocks of operator++ compute the specified advance |
| Bitmap.IterableBitmap.Increment | util/iterable_bitmap.h:42-85 | operator++ computes the specified next iterator |
| Bitmap.IterableBitmap.First | util/iterable_bitmap.h:130-178 | begin computes the specified first iterator |
| Bitmap.IterableBitmap.Enumerate | util/iterable_bitmap.h:40-178 | a full iteration terminates and yields exactly the elements, each once, in ascending order |
| PoolAllocator.Init | util/pool_allocator.c:8-21 | accepted exactly for a non-null, non-empty pool of slots that hold a link; nothing is allocated at first |
| PoolAllocator.HeadReady | util/pool_allocator.h:54-54 | the asserted order of free list and frontier holds, and the head is a valid slot or the null index |
| PoolAllocator.AllocKeeps | util/pool_allocator.h:48-76 | allocation keeps the free list intact, never returns a live slot, zeroes the slot it returns, and fails if and only if all slots are live |
| PoolAllocator.FreeKeeps | util/pool_allocator.h:81-87 | freeing a live slot keeps the free list intact and removes exactly that slot from the live ones |
| PoolAllocator.FreeThenAlloc | util/pool_allocator.h:48-87 | a slot freed is the next one allocated, and the pair restores the allocator |
| PoolAllocator.CountLive | util/pool_allocator.h:48-87 | live and listed slots together are exactly those below the frontier |
| PoolAllocator.RunSound | util/pool_allocator.h:48-87 | over every run of allocations and legal frees: the list is acyclic, holds exactly the freed slots and ends at the frontier; live slots are those the caller holds; and the frontier is the largest number ever held at once |
| PoolAllocator.RunAlloc | util/pool_allocator.h:48-76 | in every run an allocation returns an index not held, or 2^32 - 1 because all are held |
| PoolAllocator.Allocator.Alloc | util/pool_allocator.h:48-76 | the in-place allocation meets the specification |
| PoolAllocator.Allocator.Free | util/pool_allocator.h:81-87 | the in-place free meets the specification |
| Pool.Pool.constructor | util/pool.h:52-62 | an empty pool |
| Pool.InvalidMark | util/pool.h:20-26 | the invalid index is the largest value of its type and no index of the pool; 65535 elements need the larger type |
| Pool.Pool.Get | util/pool.h:85-97 | the element at a live index |
| Pool.Pool.Emplace | util/pool.h:117-139 | refused exactly when full; otherwise adds the element at a fresh index, or leaves contents, bitmap and counters unchanged when its construction throws |
| Pool.Pool.Remove | util/pool.h:145-157 | removes exactly that element from storage, bitmap, counter and allocator |
| FixedHash.SameCount | util/fixed_hash.h:69-127 | a one-to-one index has as many keys as there are live slots |
| FixedHash.FixedHash.Sizes | util/fixed_hash.h:56-56 | size, number of keys and number of bits set are equal |
| FixedHash.FixedHash.Find | util/fixed_hash.h:69-78 | finds the key's own index, which holds the value bound to it, or reports invalid exactly when there is none |
| FixedHash.FixedHash.Insert | util/fixed_hash.h:85-106 | binds a new key, is refused exactly for a full hash or a present key, and leaves the map unchanged when construction throws |
| FixedHash.FixedHash.Erase | util/fixed_hash.h:112-127 | removes exactly that key, and reports whether it was there |
| FastDiv.MultiplierFits | util/fast_div.h:125-137 | the multiplier fits in 32 bits if and only if the divisor is not an exact power of two with the largest shift |
| FastDiv.UnitDivisor | util/fast_div.h:125-147 | divisor 1 with 16 bits: the multiplier needs 33 bits, and if the cast makes it 0 every quotient is 0 |
| FastDiv.DivideIs | util/fast_div.h:144-147 | the 64-bit product, shift and 32-bit cast keep exactly the low bits of the exact result that both leave |
| FastDiv.LowBits | util/fast_div.h:144-147 | up to 32 required bits come out as if nothing had wrapped |
| FastDiv.HighBits | util/fast_div.h:144-147 | more than 32 required bits survive if and only if the product x * mul has zeros where the final cast cuts |
| FastDiv.WideExample | util/fast_div.h:144-147 | 2^32 divided by 1 with 40 required bits gives 0 |
| FastDiv.Accuracy | util/fast_div.h:125-147 | a multiplier that is 2^shift / amt rounded down never makes the quotient exceed x / amt, nor fall short of it by x / 2^shift + 1 |
| FastDiv.FittingKeeps | util/fast_div.h:125-147 | a multiplier that fits the cast gives every dividend the required low bits of a quotient within that error |
| FastDiv.PowerOfTwoExactly | util/fast_div.h:125-147 | a multiplier that does not fit keeps the promise for every dividend if and only if the cast saturates |
| FastDiv.DividesExactly | util/fast_div.h:125-147 | for every divisor of at least one and up to 32 required bits: whatever an overflowing cast leaves, every dividend gets the promised quotient if and only if the divisor is not an exact power of two with the largest shift |
| FastDiv.ShiftIsLargest | util/fast_div.h:127-134 | no larger shift keeps both the required bits and a 32-bit multiplier |
| Histogram.BinClamps | util/histogram.h:13-24 | the mask arithmetic, with wrap-around, clamps the item to the bins if and only if the 32-bit subtraction does not overflow or there is one bin |
| Histogram.LastBinExample | util/histogram.h:13-24 | the smallest 32-bit item with two bins lands in bin 1, where clamping gives 0 |
| MetricWindow.RunGood | util/metric_store.h:37-120 | in every run each queue stays free of duplicates |
| MetricWindow.PoppedOncePerEnqueue | util/metric_store.h:37-120 | in every run, for every epoch and index, what is queued is what was enqueued minus what was popped |
| MetricWindow.ArrivesAfterAdvances | util/metric_store.h:90-120 | an index queued at bin b is in the current queue right after the b-th advance, whatever lookups and pops happen in between |
| MetricWindow.LookupQueues | util/metric_store.h:90-103 | a lookup with enqueue leaves the index queued at its bin |
| MetricStore.ThreadedPush | util/metric_store.h:98-101 | linking an element in front keeps the list intact, and linked stays the same as queued |
| MetricStore.ThreadedPop | util/metric_store.h:37-49 | unlinking the head keeps the list intact and marks exactly that element as not queued |
| MetricStore.RelativeExact | util/metric_store.h:125-134 | the 16-bit difference of two slots is their true difference if and only if that lies in [-2^15, 2^15) |
| MetricStore.IndexMarks | util/metric_store.h:22-24 | the two list marks are the largest values of the index type and no index; 65534 elements need the larger type |
| MetricStore.MetricStore.constructor | util/metric_store.h:58-70 | all queues empty and no element linked |
| MetricStore.MetricStore.ViewGood | util/metric_store.h:144-160 | the links of a valid store thread duplicate-free queues, so the statements about runs apply to it |
| MetricStore.MetricStore.LookupRelative | util/metric_store.h:90-103 | reports whether the element was queued at that epoch and performs the specified enqueue |
| MetricStore.MetricStore.Empty | util/metric_store.h:29-29 | empty exactly when the queue has no members |
| MetricStore.MetricStore.Pop | util/metric_store.h:31-49 | returns and unlinks the most recently queued index |
| MetricStore.MetricStore.Advance | util/metric_store.h:113-120 | moves the window by one epoch and the 16-bit slot by one |
| MetricStore.MetricStore.RelativeTimeslot | util/metric_store.h:125-134 | the distance of the slot of t from the current slot, exact if and only if it fits in 16 bits |
| MetricStore.MetricStore.LookupAt | util/metric_store.h:78-82 | the bin is the slot distance clamped to [0, N - 1] whenever the slots differ by less than 2^15 |
| Lookup3.UnmixMix | util/lookup3.c:117-137 | mix can be undone |
| Lookup3.MixUnmix | util/lookup3.c:117-137 | mix reaches every state |
| Lookup3.UnfinalFinal | util/lookup3.c:164-180 | final can be undone |
| Lookup3Answers.RotBits | util/lookup3.c:71-71 | bit i of a word is bit (i + k) mod 32 of its rotation by k |
| Lookup3Hash.Last32 | util/lookup3.c:344-395 | the masked 32-bit reads of the last block add exactly the bytes of the key |
| Lookup3Hash.Last16 | util/lookup3.c:453-494 | so do the 16-bit reads |
| Lookup3Hash.Last8 | util/lookup3.c:519-548 | so do the byte reads |
| Lookup3Hash.Hash32 | util/lookup3.c:319-395 | the aligned 32-bit reader computes the reference hash of the first length bytes, whatever follows them |
| Lookup3Hash.Hash16 | util/lookup3.c:438-494 | the 16-bit reader computes the same |
| Lookup3Hash.Hash8 | util/lookup3.c:496-549 | the byte reader computes the same |
| Lookup3Hash.HashBytes | util/lookup3.c:318-549 | whichever reader machine and address select, the state is the reference state |
| Lookup3Hash.HashLittle | util/lookup3.c:307-553 | the hash depends on the key bytes, the length and the seed only |
| Lookup3Hash.HashLittle2 | util/lookup3.c:565-825 | both hashes come from the same reference; with a zero second seed the primary hash is that of hashlittle |
| Lookup3Hash.LengthInBytes | util/lookup3.c:203-203 | shifting the length before or after the cast to 32 bits makes no difference |
| Lookup3Hash.HashWord | util/lookup3.c:195-230 | hashing words equals hashlittle on their little-endian bytes |
| Lookup3Hash.HashWord2 | util/lookup3.c:240-278 | the same with two seeds; with a zero second seed the primary hash is that of hashword |
| Lookup3Answers.HashInBlocks | util/lookup3.c:319-395 | a key of n > 0 bytes is mixed (n - 1) / 12 times, and its last 1 to 12 bytes go through final |
| Lookup3Answers.EmptyAnswers | util/lookup3.c:1255-1260 | the three answers that the source lists for the empty key |
| Lookup3Answers.FourScoreAnswer | util/lookup3.c:1261-1262 | the answer that the source lists for a key of thirty bytes, worked line by line through two mixes and final |
| PerfRing.PerfRing.Init | util/perf_ring.c:8-28 | accepted exactly for powers of two of at least 8 bytes; the records already between the two shared cursors are those of the ring |
| PerfRingSpec.HeaderInside | util/perf_ring.c:52-55 | a header never straddles the end of the ring |
| PerfRingSpec.FreeStore | util/perf_ring.c:30-58 | storing into free space keeps every record |
| PerfRingSpec.Fill | util/perf_ring_cpp.h:281-294 | writing a payload keeps every other record and the header in front of it |
| PerfRingSpec.Pop | util/perf_ring.c:181-207 | dropping the first record keeps all others |
| PerfRingSpec.EmptyExactly | util/perf_ring.c:191-193 | the cursors meet exactly when there is no record |
| PerfRingSpec.ReturnedExactly | util/perf_ring_cpp.h:271-295 | after a write with the length cast to 16 bits, a read at that place returns the element and fewer than 8 bytes if and only if the element is shorter than 2^16 bytes |
| PerfRingSpec.LongExample | util/perf_ring_cpp.h:271-295 | a 2^16-byte element in a 2^17-byte ring: 8 bytes are reserved and the read returns nothing |
| PerfRingSpec.ShortExample | util/perf_ring.c:30-58 | three bytes in an empty ring: every byte of header and payload in numbers |
| PerfRing.PerfRing.Reserve | util/perf_ring.c:30-58 | rejected and refused exactly as the unbounded cursors say; otherwise a record is appended behind the others and its payload offset returned |
| PerfRing.PerfRing.CopyIn | util/perf_ring_cpp.h:285-294 | copying in one piece or in two stores exactly the bytes, and nothing else changes |
| PerfRing.PerfRing.Write | util/perf_ring_cpp.h:271-295 | for every element that is refused or does not exceed the ring: result code and reserved size are those of the cast length, the whole ring afterwards is stated, and the element is what a read returns if and only if it is shorter than 2^16 bytes; then exactly that record is appended |
| PerfRing.PerfRing.PeekSize | util/perf_ring.c:60-73 | the padded payload size of the first record, or -ENOENT exactly when there is none |
| PerfRing.PerfRing.Pieces | util/perf_ring.c:121-145 | the one or two stretches are the bytes in order, wherever the ring wraps |
| PerfRing.PerfRing.PeekAligned | util/perf_ring.c:97-107 | reads the 32-bit word at any aligned offset of the first payload, wherever the ring wraps |
| PerfRing.PerfRing.Peek | util/perf_ring.c:148-179 | the two views together are the event inside the first payload |
| PerfRing.PerfRing.PopRecord | util/perf_ring.c:181-207 | drops exactly the first record, or reports -EAGAIN exactly when there is none |
| PerfRing.PerfRing.Read | util/perf_ring_cpp.h:348-367 | returns the payload of the oldest record followed by fewer than 8 bytes, and removes it; nothing exactly when there is no record |

## Left out

- Hardware memory ordering: steps of the element queue are sequentially consistent; the barriers themselves are not modelled.
- Floating-point rounding: the digest, the divisor of `fast_div` and the interpolation work over the reals.
- TDigestImpl.TDigestMerger.Install: the order of equal means after the sort is left open; with distinct means InstalledLimited fixes it.
- TDigestImpl.TDigestMerger.MergeFromValues: values are merged as centroids of weight one through the same loop that merges two digests; the code spells the loop out twice.
- ElementQueueImpl.ElementQueueWriter.StartWrite: the heads that the reader publishes during the waits are a parameter, some of which must leave space, since the wait has no bound of its own; RetryCanEnd proves that such heads can always come, not that a scheduler lets them.
- ElementQueueProtocol.WriteDecision: lengths above 2^32 - 8, which round to zero, are covered by OversizedAccepted and AcceptedFitsExactly instead.
- ElementQueueTheorems.DrainedAcceptance: the same lengths, covered by the same two lemmas.
- ElementQueueImpl.ElementQueue.WriteBytes: an accepted length above 2^32 - 8 makes the copy leave the buffer, which has no meaning to model; `Write` itself covers every 32-bit length.
- ElementQueueChannel.Channel.Write: the same lengths; calls on the two objects of a channel do not overlap in time, while the steps of the protocol interleave freely.
- ElementQueueImpl.ElementQueue.ReadBytes: a stored length that does not fit the buffer would make the copy leave it; HeadLengthFits proves that no reachable state has one, and the channel needs no such condition.
- ElementQueueImpl.ElementQueue.MoveFrom: the two queues share no memory, and the stored length fits as for ReadBytes; `MoveTo` discharges the latter.
- `peek_value`, `elem_count` and `buf_used` of the element queue: thin wrappers over the modelled operations.
- JitbufProgram.GetXform: instructions are modelled as a list with an interpreter; LLVM types, passes and the JIT engine are not.
- JitbufHandler.Handler.Handle: the user's handler function is a function of the message and of the outcome of the transform; what else it does is not modelled.
- JitbufHandler.Handler.HandleMultiple: stated for buffers on which the loop ends, as a method must; EndsExactly says which they are. The destination memory is the same at every call.
- JitbufMeaning.CopyStep: a misaligned move is undefined by the offsets in message and destination, not by their addresses; the alignment of pointer stores and 16-bit loads and stores is not judged.
- Bitmap.IterableBitmap.AdvanceFrom: the iterator is a value that is replaced, not an object updated in place; five nested blocks are one recursion over the levels.
- Bitmap.IterableBitmap.Load: a read past a level gives zero in the model; no iterator that stands at an element makes one.
- PoolAllocator.Allocator.Free: the index must be live, as the code's callers guarantee; freeing twice is not modelled.
- Pool.Pool.Emplace: constructing an element is a parameter that is a value or an exception; destructors do nothing.
- FixedHash.FixedHash.Erase: the key is a value; erasing with a reference into the erased element is not modelled.
- FixedHash.FixedHash.Insert: the hash table of keys is a map; hashing and probing are not modelled.
- FastDiv.MultiplierFits: divisors are at least one, as the bit count taken from the logarithm requires.
- FastDiv.DividesExactly: up to 32 required bits; HighBits gives the condition for more.
- Histogram.BinClamps: C leaves the overflowing subtraction undefined; the model lets it wrap around.
- MetricStore.MetricStore.LookupRelative: the metric itself is left out; the epoch stands for the reference returned.
- MetricStore.MetricStore.Pop: pops are on the current queue, as the interface hands it out.
- Lookup3Hash.Hash32: the word that holds the last byte is readable, as the code assumes; the VALGRIND variant and the big-endian hash are left out.
- Lookup3Hash.HashWord2: keys of 2^62 words or more, whose length in bytes would wrap in 64 bits.
- PerfRing.PerfRing.Init: the memory between the two shared cursors holds well-formed records, as every writer leaves it, and the ring has at most 2^31 bytes, so that its offsets are non-negative integers.
- PerfRing.PerfRing.Write: an accepted element longer than the whole ring; its copy leaves the ring, or wraps around more than once.
- Batches of the perf ring: writer and reader share one struct; publishing the cursors to the shared page is left out, as are the bytes-remaining query and the 64-bit and 16-bit peeks.
- `util/LRU.h` and the RPC scheduling: they rest on code that is not part of this model.
- Channels, publishers, formatters, cloud metadata, logging, file and process handling: plumbing around these structures.

# gammaray: a Dafny model

gammaray watches a virtual machine's disk. A crawler reads a disk image once and writes an index of
its file system; an NBD server, or a patched emulator, forwards every sector write; an inference
engine matches the writes against the index, which it keeps in Redis, and publishes what happened to
which file; a FUSE file system reads files back through the same index.

This project models the parts of that pipeline where something can go subtly wrong, and proves what
they promise:

- `redis_pipeline.dfy`: the shared Redis connection with its enqueuer, periodic flusher and any number
  of flush jobs, as a transition system.
- `nbd_spec.dfy`, `nbd.dfy`, `nbd_requests.dfy`, `nbd_log.dfy`: the NBD server's incremental state machine,
  its answers to encoded requests, and the write queue between it and the inference engine.
- `kv_store.dfy`, `extent_index.dfy`, `inference.dfy`: the inference engine over a store whose one
  connection answers in order.
- `bson_spec.dfy`, `bson.dfy`: the BSON encoder and decoder, and reading documents from a file.
- `bitarray.dfy`, `md_filter.dfy`: the metadata filter, from the crawler to the enqueuer.
- `ext4_extents.dfy`, `ext4_block_map.dfy`, `ext4_inodes.dfy`: the crawler's ext4 lookups and caches.
- `ext4_layout.dfy`, `structs.dfy`: the on-disk structures of ext4, read back by both programs.
- `ntfs_fixup.dfy`, `ntfs_runs.dfy`, `ntfs_stream.dfy`: NTFS record fixup, data runs, stream assembly.
- `gray_fs.dfy`, `file_reads.dfy`: the FUSE read path, and reading a file through the list the inference
  engine has made of its extents.
- `bytes.dfy`, `arithmetic.dfy`: bytes, powers of two, little- and big-endian integers; products and
  quotients.

`dafny verify dfyconfig.toml` checks everything.

## Where the code does not do what one would expect

The model follows the code. Where a property turned out false, a lemma shows an input on which it
fails and another states the exact condition under which it holds.

- `redis_dequeue` and `redis_publish` read one reply without flushing. What they read is the oldest
  unread reply, their own if and only if nothing is outstanding. The extent diff has commands outstanding
  when it dequeues, unless the last of them has just filled the pipeline, so queued bytes can be attributed
  to the next sector. The queue may then gain a sector; the number of queued writes plus replies that carry
  one never grows, which is what termination rests on.
- The depth-0 extent diff reads the old list length once. Extents behind it are placed right, and the file
  reads right, if and only if only the last extent reaches past it.
- The extent search never enters the last entry of an index node with several entries, so blocks below it
  read as holes.
- The triple-indirect lookup does not reduce its second-level index modulo A and reads past the pointer
  block from rebased number A^2 on.
- `ntfs_parse_data_run` sign-extends from one bit too low: a k-byte distance below -2^(8k-2) is misread.
- The inferencer's sector list for an NTFS file goes on behind the end of the file when a run other than the
  last straddles it.
- An NBD option other than EXPORT_NAME and ABORT is answered without being consumed, for ever, and a READ past
  the end of the disk is never answered. The handler returns if and only if it meets neither.
- The NBD server counts writes whose seek fails. It offers FUA, but takes a request's flags for part of the
  command, so that a request with the flag set ends the connection.
- The mode test that selects files with extents lets sockets pass.
- The write queue carries whole sectors only: a write is put back as it was made if and only if its offset and
  length are multiples of 512.
- The upper half of an ext4 block number in an extent or index entry is shifted by 48 bits; the "Extent Tree"
  section of the Linux kernel's ext4 documentation has it at bit 32. The two agree if and only if it is zero.
- A metadata filter is reloaded with its byte count taken for a bit count; every sector keeps its answer if and
  only if the disk has at least 256 KiB.
- `bson_deserialize` adds signed lengths to its position and takes them off its size unchecked. The size stays
  within the capacity of the buffer, which `bson_readf` relies on, if and only if what a call takes off is
  neither more than the size nor less than the size minus the capacity.
- `bitarray_init_data` copies past its array if and only if the byte count is eight or more above a power of two.

## Model

| member | source | states |
|---|---|---|
| RedisPipeline.StepKeepsInv | src/gray-inferencer/redis_queue.c:133-187 | every step of the enqueuer, the periodic flusher or any flush job keeps the invariant on counts, semaphore, locks and dropped writes |
| RedisPipeline.RunKeepsInv | src/gray-inferencer/redis_queue.c:133-187 | so does every finite schedule |
| RedisPipeline.ReachableInv | src/gray-inferencer/redis_queue.c:133-187 | every state reachable from start-up satisfies the invariant |
| RedisPipeline.AccountingTheorem | src/gray-inferencer/redis_queue.c:665-724 | in every reachable state the unread replies equal the counter plus what live jobs still have to read plus commands appended or handed over but not yet counted; a job about to read finds a reply and a job about to wait on the semaphore does not block |
| RedisPipeline.BacklogTheorem | src/gray-inferencer/redis_queue.c:698-717 | the counter never exceeds the pipeline limit by more than one write, is below it whenever the enqueuer is not inside its critical section, and no job is larger; between calls the byte counter is within its limit; the enqueuer starts a job only when over one of the two |
| RedisPipeline.ByteTheorem | src/gray-inferencer/redis_queue.c:698-722 | over every schedule outstanding_bytes is the size of what has been appended since the enqueuer last started a job, before the first on top of its uninitialised value |
| RedisPipeline.MarkedNeverDropped | src/gray-inferencer/redis_queue.c:671-688 | a write whose sector the filter marks is never among the refused ones, however the locks are contended |
| RedisPipeline.NoWriteIsLost | src/gray-inferencer/redis_queue.c:671-696 | over every schedule the writes begun are, in order, those refused and those pushed, and last the one being worked on; the commands appended are sector and payload of each pushed write, pair after pair, and nothing else |
| RedisPipeline.RefusedOnlyWhenContended | src/gray-inferencer/redis_queue.c:671-688 | a write is refused only when its sector is unmarked and some step of the schedule met a taken lock while handling it |
| RedisPipeline.MarkedIsPushed | src/gray-inferencer/redis_queue.c:690-695 | once the enqueuer is idle every marked write ever begun has its sector and payload side by side among the commands appended |
| RedisPipeline.LockOrder | src/gray-inferencer/redis_queue.c:138-160 | a thread that waits for a lock holds only locks earlier in the order flush_lock, conn_lock, cmd_lock |
| RedisPipeline.Progress | src/gray-inferencer/redis_queue.c:671-721 | in every invariant state with work under way, some thread already working can take its next step (the step is returned) |
| RedisPipeline.DeadlockFreedom | src/gray-inferencer/redis_queue.c:138-184 | no reachable state with unfinished work is stuck |
| RedisPipeline.StepUsesWork | src/gray-inferencer/redis_queue.c:143-157 | every step of an operation under way strictly lowers a work bound |
| RedisPipeline.ContinuationsAreBounded | src/gray-inferencer/redis_queue.c:143-157 | a schedule that starts nothing new is no longer than the work bound, whatever the order |
| RedisPipeline.MaximalRunsDrain | src/gray-inferencer/redis_queue.c:133-187 | when nothing can continue, all locks are free, the semaphore is zero and the unread replies are those in the counter |
| BsonSpec.PayloadRoundTrip | src/bson/bson-decoder.c:199-300 | wherever the body of a value of any type but REGEX and JS_CODE stands in a buffer, decoding it gives the value and the position behind it |
| BsonSpec.ElementRoundTrip | src/bson/bson-decoder.c:181-308 | an encoded element decodes to itself at any place in any buffer |
| BsonSpec.DecodePrefix | src/bson/bson-decoder.c:181-308 | a decode that stays inside a document gives the same in a longer buffer, whatever an earlier document left behind it |
| BsonSpec.ElementsRoundTrip | src/bson/bson-decoder.c:181-308 | an element list followed by the terminator decodes to the list, the terminator met with exactly one byte left |
| BsonSpec.DocumentRoundTrip | src/bson/bson-encoder.c:446-464 | a finalized document carries its own length, ends in NUL and decodes to the elements it was made from |
| BsonSpec.FlattenIsValid | src/bson/bson-encoder.c:275-438 | fields with nested documents and arrays flatten to elements the encoder accepts |
| BsonSpec.TreeRoundTrip | src/bson/bson-decoder.c:162-179 | documents and arrays nested to any depth are read back as the tree that was written |
| BsonSpec.EncodedIsContained | src/bson/bson-decoder.c:181-308 | any number of decodes of an encoded list leave the position inside it |
| BsonSpec.LeavesDocument | src/bson/bson-decoder.c:204-209 | a correctly framed document of five body bytes, with room behind it in the buffer, whose one element ends outside the document |
| BsonSpec.GoesBack | src/bson/bson-decoder.c:162-179 | a correctly framed document of seven body bytes with an embedded length of -2^31: the call succeeds and the position goes in front of the buffer |
| Bson.NewSize | src/bson/bson-encoder.c:64-71 | the doubling loop ends at the first size in the doubling sequence that is large enough, within 32 bits |
| Bson.BsonInfo.Resize | src/bson/bson-encoder.c:73-89 | the buffer grows to the size asked for and what was written stays |
| Bson.BsonInfo.CheckSize | src/bson/bson-encoder.c:91-99 | room for the bytes to come, contents and position unchanged; a buffer that has the room is kept |
| Bson.BsonInfo.Serialize | src/bson/bson-encoder.c:275-438 | an element of any type is appended to what was written, in its encoded form |
| Bson.BsonInfo.Finalize | src/bson/bson-encoder.c:446-464 | shifting in place turns what was written into length prefix, elements, terminator |
| Bson.BsonInfo.MakeReadable | src/bson/bson-decoder.c:43-50 | position 4 and the signed length prefix less four modulo 2^64, for every prefix; failure on fewer than five bytes; the size is within the capacity exactly for the prefixes named |
| Bson.BsonInfo.Deserialize | src/bson/bson-decoder.c:181-308 | one call equals the decoding function at the current position, for every signed length; unless type, key or length lie outside the buffer, what is added to the position is taken off the size, modulo 2^64, and the size stays within the capacity if and only if size - capacity <= taken <= size |
| Bson.BsonInfo.ReadDocument | src/bson/bson-decoder.c:52-93 | from any reader: 1 with exactly the next document of the file in the buffer, 0 at its end, -1 otherwise; bytes spill over the buffer exactly when the size field makes it keep one that is too small, so never from a size field within the capacity, which then is so again |
| Bson.WriteDocument | src/bson/bson-encoder.c:43-62 | init, serialize each, finalize leaves the framed encoding of the list |
| Bson.ReadElements | src/bson/bson-decoder.c:181-308 | calling the decoder until it stops returns the list encoded, position plus size constant at every step, terminator at size 1 |
| Bson.RoundTrip | src/bson/bson-encoder.c:440-464 | serialize all, finalize, make readable, deserialize returns the same list |
| Bson.NextOfConcat | src/bson/bson-decoder.c:52-93 | the first document of a concatenation is found whole and the rest is the rest |
| Bson.ReadDocuments | src/bson/bson-decoder.c:52-93 | any concatenation of finalized documents is read back as exactly that sequence, from any valid reader state |
| Bson.ReadAndDecode | src/bson/bson-decoder.c:52-93 | the same with any number of decodes after each read, wherever they stop, for documents these decodes do not leave: the size field stays within the capacity from one document to the next |
| Bson.FinalizedIsContained | src/bson/bson-encoder.c:446-464 | finalized documents are such documents |
| Bson.DownIff | src/bson/bson-decoder.c:162-179 | for amounts of either sign: the size field stays within the capacity if and only if size - capacity <= amount <= size |
| Bson.SizeEscapes | src/bson/bson-decoder.c:181-308 | for both documents, after the element the size field is above every capacity |
| Bson.EscapedSpills | src/bson/bson-decoder.c:70-85 | with such a size field the next document spills if and only if it is longer than the buffer |
| BitArrays.BitAfter | src/datastructures/bitarray.c:41-59 | setting or clearing a bit of a byte changes that bit only |
| BitArrays.HighestSetBit | src/util/util.c:49-57 | the shift loop returns the index of the top set bit |
| BitArrays.BitArray.constructor | src/datastructures/bitarray.c:90-102 | length rounded down to a power of two, every bit of a whole byte clear |
| BitArrays.BitArray.FromData | src/datastructures/bitarray.c:104-116 | length the power of two below the byte count taken as bits, one for no bytes; the bytes are those of the source, as many as the count over eight and as fit the array |
| BitArrays.CopyFitsIff | src/datastructures/bitarray.c:104-116 | the copy fits the array if and only if the count is less than eight above the power of two below it |
| BitArrays.CopyOverruns | src/datastructures/bitarray.c:104-116 | 24 bytes: an array of two bytes into which three are copied |
| BitArrays.BitArray.GetBit | src/datastructures/bitarray.c:41-47 | the bit, false out of range |
| BitArrays.BitArray.SetBit | src/datastructures/bitarray.c:49-53 | that bit set, every other bit as before, out of range nothing |
| BitArrays.BitArray.UnsetBit | src/datastructures/bitarray.c:55-59 | that bit clear, every other bit as before |
| BitArrays.BitArray.SetAll | src/datastructures/bitarray.c:61-64 | every bit of a whole byte set |
| BitArrays.BitArray.UnsetAll | src/datastructures/bitarray.c:66-69 | every bit of a whole byte clear |
| MdFilter.Serialize | src/datastructures/bitarray.c:135-168 | the filter becomes one finalized record holding its bytes |
| MdFilter.InspectRecord | src/gray-inferencer/qemu_common.c:38-66 | the first elements of a record, read from a buffer the previous record left half decoded, decide as the record itself does, whatever the type of the element that names it |
| MdFilter.NameAt | src/gray-inferencer/qemu_common.c:49 | the C string at the first element’s data pointer, scanned for in the buffer, is the name of the record, for every element type and also when its NUL stands in a later element |
| MdFilter.DataStartsThere | src/bson/bson-decoder.c:199-300 | the bytes handed on as data are the first `size` bytes at the data pointer, for every type |
| MdFilter.ScanIndex | src/gray-inferencer/qemu_common.c:38-68 | scanning an index finds the bytes of the first filter record, or nothing |
| MdFilter.Load | src/gray-inferencer/qemu_common.c:33-71 | an array if and only if there is a filter record, rebuilt from its bytes with their number taken for a number of bits, also for no bytes |
| MdFilter.FilterShape | src/datastructures/bitarray.c:90-116 | from 256 KiB on the filter is a multiple of 64 bits, so the reloaded array has as many bits as the filter had bytes and they are all copied |
| MdFilter.FilterSurvivesReload | src/datastructures/bitarray.c:41-59 | then every sector below the end of the disk answers the same before and after the reload |
| MdFilter.SameAnswersIff | src/datastructures/bitarray.c:104-116 | every reload of every filter of a disk answers as the filter did, for every sector, if and only if the disk has at least 256 KiB |
| MdFilter.SmallDiskForgets | src/datastructures/bitarray.c:104-116 | for every smaller disk, a filter with block 0 marked and a reload that answers no |
| MdFilter.SaveAndLoad | src/gray-crawler/gray-crawler.c:153 | saving the filter behind any index and loading it back gives the same answer for every sector of the disk |
| MdFilter.MarkedWriteIsNeverDropped | src/gray-inferencer/redis_queue.c:671-688 | in every interleaving a write at a sector the crawler marked is not refused by the enqueuer using the reloaded filter |
| MdFilter.MarkedWriteIsPushed | src/gray-inferencer/redis_queue.c:690-695 | and, once the enqueuer is idle again, its sector and payload stand in the queue |
| NbdSpec.ResponseFields | src/nbd/nbd.c:337-351 | a reply has sixteen bytes from which a client reads magic, error and handle back |
| NbdSpec.WriteAtBytes | src/nbd/nbd.c:486-494 | a write changes exactly its range; a gap behind the old end reads as zeros |
| NbdSpec.PassProgress | src/nbd/nbd.c:596-624 | a pass of the handler loop that goes round again has advanced the phase or consumed input |
| NbdSpec.UnknownOptionSpins | src/nbd/nbd.c:405-408 | with any option but EXPORT_NAME and ABORT the loop goes round for ever, input untouched, one reply per pass |
| NbdSpec.ReturnsIff | src/nbd/nbd.c:596-624 | on every input in every phase the handler returns if and only if the input uses no other option and no READ it meets reaches past the end of the disk |
| NbdSpec.StalledIff | src/nbd/nbd.c:437-442 | the handler function ends in the absorbing phase exactly when the handler meets such a READ |
| NbdSpec.HandleSplit | src/nbd/nbd.c:596-624 | handling part of the input now and the rest later is handling all of it at once |
| NbdSpec.SplitInvariance | src/nbd/nbd.c:286-306 | every way of cutting a byte stream into arrivals gives the same state, responses, disk, write queue and counters |
| Nbd.NbdClient.NewStyle | src/nbd/nbd.c:627-654 | greeting bytes sent, handshake phase, nothing pending |
| Nbd.NbdClient.OldStyle | src/nbd/nbd.c:656-690 | old handshake with the export size sent, request phase |
| Nbd.NbdClient.ClientHandler | src/nbd/nbd.c:596-624 | the loop terminates and computes the handler function |
| Nbd.NbdClient.Receive | src/nbd/nbd.c:596-624 | arrivals one after the other leave the state of the whole stream in one piece |
| NbdRequests.RequestReadsBack | src/nbd/nbd.c:506-524 | the five fields of an encoded request are read back at their offsets |
| NbdRequests.ReadAnswer | src/nbd/nbd.c:419-446 | an encoded READ inside the disk is answered by sixteen bytes without error and byte offset + i of the disk for every i; nothing else changes |
| NbdRequests.WriteAnswer | src/nbd/nbd.c:448-504 | after an encoded WRITE the disk has the payload in its range, zeros in a gap before it and every other byte as before; sector number and payload are queued, sector first; the counters count it |
| NbdRequests.TrimAnswer | src/nbd/nbd.c:563-574 | a TRIM zeroes its range and keeps every other byte and the size; of no bytes or at a negative offset it is answered with an error and changes nothing |
| NbdRequests.FlushAnswer | src/nbd/nbd.c:555-562 | a FLUSH is answered without error and changes nothing |
| NbdRequests.SeekFails | src/nbd/nbd.c:434-435 | where the seek fails READ and WRITE are answered with an error, disk and queue stay, and the write is counted |
| NbdRequests.EndOfRequests | src/nbd/nbd.c:549-591 | DISC and every command above 4, flags in the upper half included, end the connection; disk and queue stay and nothing is sent |
| NbdRequests.NegotiationAnswer | src/nbd/nbd.c:353-400 | zero flags and the export name are answered by the size, the flags 0x3d and 124 zeros, and requests follow |
| NbdRequests.UnsupportedAnswer | src/nbd/nbd.c:324-335 | any other option: each pass sends twenty bytes that echo the option and say it is unsupported |
| NbdRequests.WriteThenRead | src/nbd/nbd.c:506-593 | over one stream, x written at an offset and read back: the output ends with x, for every disk |
| WriteLog.HandleWrites | src/nbd/nbd.c:459-503 | disk and write queue are the accepted writes applied in order to each of them; the counters are those of the writes tried, including writes whose seek fails |
| WriteLog.Fifo | src/include/redis_queue.h:89-90 | items popped so far followed by those still in the list are always the items pushed, in order, however pushes and pops interleave |
| WriteLog.PairsStayTogether | src/gray-inferencer/redis_queue.c:726-783 | item 2i popped is the sector of write i and item 2i+1 its data |
| WriteLog.WriteQueue.Dequeue | src/gray-inferencer/redis_queue.c:726-783 | the oldest pair as a write, or refusal when the first item is not eight bytes |
| WriteLog.StackTail | src/gray-inferencer/redis_queue.c:726-783 | the oldest write of a queue is at its tail and passes the length check |
| WriteLog.ReplayFirst | src/gray-inferencer/redis_queue.c:726-783 | the dequeuing loop: n writes taken from the list in a row and applied as the whole sectors the dequeued write announces are the first n that were pushed, when those are whole sectors |
| WriteLog.PlayKeepsInv | src/gray-inferencer/redis_queue.c:726-783 | every interleaving of arrivals, handler passes, deliveries to the list and pops keeps the invariant tying server run, list and dequeued writes |
| WriteLog.ReplayFollowsServer | src/gray-inferencer/redis_queue.c:726-783 | in every such run of an NBD client without TRIM, applying the writes dequeued so far, each as the whole sectors it announces, over the initial disk gives the client’s disk right after as many accepted writes, when these are whole sectors at whole sectors; a pop never meets an item of the wrong length |
| WriteLog.AlignmentIsNeeded | src/gray-inferencer/redis_queue.c:759-762 | a dequeued write puts back what was written, on every disk, if and only if offset and length are multiples of 512 or there are no bytes |
| KvStores.KvStore.constructor | src/gray-inferencer/redis_queue.c:197-235 | a store with exactly the index given, fields missing or not, an empty queue and a fresh connection satisfies the invariant |
| KvStores.KvStore.Flush | src/gray-inferencer/redis_queue.c:116-131 | all outstanding replies read, fuel not increased |
| KvStores.KvStore.Pipeline | src/gray-inferencer/redis_queue.c:237-254 | one command counted, the pipeline flushed at the limit |
| KvStores.KvStore.Lookup | src/gray-inferencer/redis_queue.c:386-405 | the pointer of the sector, with nothing outstanding afterwards |
| KvStores.KvStore.LastSector | src/gray-inferencer/redis_queue.c:366-384 | the last sector of the list; an empty list leaves the caller’s variable alone |
| KvStores.KvStore.Publish | src/gray-inferencer/redis_queue.c:256-263 | the event is appended; the reply read may be an older one |
| KvStores.KvStore.Dequeue | src/gray-inferencer/redis_queue.c:265-287 | the key is gone, the bytes are those of the oldest unread reply, and bytes cost one unit of fuel |
| KvStores.DequeueIsOwnIffNothingOutstanding | src/gray-inferencer/redis_queue.c:265-287 | the dequeue returns what was queued for its sector, whatever that was, if and only if no command is outstanding |
| KvStores.BytesOfAnotherSector | src/gray-inferencer/deep_inspection.c:1044-1083 | two queued blocks reinspected in a row by the extent diff: the second call gets the first one’s bytes |
| ExtentIndex.PlaceBlocksAt | src/gray-inferencer/deep_inspection.c:1044-1073 | one extent overwrites inside the old list and appends behind it |
| ExtentIndex.LocatedIffLastAloneGrows | src/gray-inferencer/deep_inspection.c:975-978 | after the diff of a sorted leaf every covered block’s entry is its sector if and only if no extent but the last ends past the old length; then other entries stay and new gaps are -1 |
| ExtentIndex.SecondExtentIsMisplaced | src/gray-inferencer/deep_inspection.c:1085-1117 | two new extents behind an empty list: the second block reads as a hole |
| ExtentIndex.PlaceAgain | src/gray-inferencer/deep_inspection.c:1044-1117 | diffing the same leaf again leaves the sector list alone |
| ExtentIndex.PointAgain | src/gray-inferencer/deep_inspection.c:1079-1113 | and the reverse pointers too |
| ExtentIndex.PointersAreRight | src/gray-inferencer/deep_inspection.c:1075-1080 | each covered sector points at (b*block_size, (b+1)*block_size, file) |
| ExtentIndex.OtherPointersStay | src/gray-inferencer/deep_inspection.c:1075-1080 | sectors that hold no covered block keep their pointer |
| Inference.DifferencesAreExact | src/include/deep_inspection.h:42-46 | an event is published for exactly the fields whose value read differs, with that value and the inode’s |
| Inference.MergeAt | src/include/deep_inspection.h:54-59 | afterwards whatever is stored of the file is the inode’s, and other files’ fields are untouched; also when fields are missing |
| Inference.OldIsPreviousNew | src/gray-inferencer/deep_inspection.c:344-418 | in a chained history each event’s old value is the new value of the previous event on that field |
| Inference.NextDifference | src/gray-inferencer/deep_inspection.c:1400-1410 | publishing a differing field keeps the fold of the events equal to the stored metadata merged so far, and the chain, whatever a missing field’s variable held |
| Inference.DiffMetadata | src/gray-inferencer/deep_inspection.c:1376-1423 | the values read are those stored, where stored; published events are their differences from the inode, the record is merged with it, and the fold, chain and latest-inode invariant holds again |
| Inference.EmitFileBytes | src/gray-inferencer/deep_inspection.c:547-690 | one data event with the part of the write inside the file; the queue keeps the file’s last block and drops a block before it |
| Inference.PartOfFile | src/gray-inferencer/deep_inspection.c:647-658 | a block that starts inside its file: the event carries bytes 0 .. min(len, size - start) of the write, so file bytes start + i below the size; they stay queued under the sector exactly when the block holds the end of the file |
| Inference.BehindFile | src/gray-inferencer/deep_inspection.c:647-652 | a block behind the end of its file: the whole write is published and the queue is left alone |
| Inference.QueueGainsSector | src/gray-inferencer/deep_inspection.c:420-451 | a sector with nothing queued, reinspected with another sector’s bytes first among the unread replies: the queue holds it afterwards |
| Inference.UnexplainedByte | src/gray-inferencer/deep_inspection.c:1748-1815 | byte k of block n of a write nothing is known about is byte k of what is queued under the sector of that block |
| Inference.UnexplainedOthers | src/gray-inferencer/deep_inspection.c:1748-1815 | sectors outside the write keep what was queued for them |
| Inference.Reinspect | src/gray-inferencer/deep_inspection.c:420-451 | for every store: terminates; fuel does not grow; a sector that is not an inode table leaves stored metadata, latest inodes and field events alone; on file data the index is unchanged, and the queue gains a sector if and only if the bytes were queued for another sector and the block holds the end of the file; a leaf block changes its file’s part of the index only; with nothing outstanding the queued bytes are the ones published |
| Inference.PlaceBlock | src/gray-inferencer/deep_inspection.c:1058-1080 | one list entry and one pointer change; no inode table appears and no listed sector becomes one |
| Inference.DiffBlock | src/gray-inferencer/deep_inspection.c:1058-1083 | one list entry and one pointer change, whatever the reinspection does |
| Inference.DiffExtent | src/gray-inferencer/deep_inspection.c:1044-1117 | list and pointers after one extent, holes included |
| Inference.RecordLeaf | src/gray-inferencer/deep_inspection.c:1014-1028 | a new leaf block is recorded in the three places, and stays so whatever a waiting write makes of it; only this file’s part of the index changes; metadata, latest inodes and field events never do |
| Inference.DiffIndexEntry | src/gray-inferencer/deep_inspection.c:998-1042 | an index entry that is zero, or met when leaf blocks are already known, changes no index; otherwise the leaf is recorded; only this file’s part of the index changes and the record never does |
| Inference.DiffExtents | src/gray-inferencer/deep_inspection.c:945-1128 | a depth-0 node leaves exactly the list and the pointers of the placement functions; an index node records every leaf it names as the file’s when none is known, and changes no index otherwise; a node of any depth changes only this file’s list, leaf blocks and pointers, and leaves metadata, latest inodes and field events alone |
| Inference.FollowInode | src/gray-inferencer/deep_inspection.c:1425-1449 | extents first, and only if the mode has them; then, exactly when the file has grown, the write queued for its last block is inspected and published; metadata, latest inodes and field events stay when listed sectors are apart from inode tables |
| Inference.CheckLast | src/gray-inferencer/deep_inspection.c:1436-1449 | the sector inspected is the last of the file’s list, or what the variable held before; a whole block of file data queued for it is published and the queue is what that leaves |
| Inference.DiffInode | src/gray-inferencer/deep_inspection.c:1376-1449 | with listed sectors apart from inode tables, at any depth: field events, metadata and latest inode are exactly those of the inode against the values read; for depth-0 extents also list and pointers, also when the file has grown into file data |
| Inference.DiffInodes | src/gray-inferencer/deep_inspection.c:1319-1457 | on every store the invariant holds again; on a complete index with listed sectors apart from inode tables the record (metadata, latest inodes, field events) is that of the inodes in the written block, file by file in order |
| Inference.DiffedFilesAre | src/gray-inferencer/deep_inspection.c:1376-1423 | that record: every file of the table has the inode at its offset in the block as its latest and each field its value there, every other file what it had |
| Inference.DiffExtentTree | src/gray-inferencer/deep_inspection.c:1466-1498 | a leaf block is diffed for the file recorded for it; only that file’s part of the index changes, at any depth; metadata, latest inodes and field events stay |
| Inference.Dispatch | src/gray-inferencer/deep_inspection.c:1608-1659 | the branch for the kind of sector, at most one sector queued: an inode table gives the record of its inodes, any other sector leaves the record alone, a leaf block is diffed for its file and changes nothing of another |
| Inference.InspectBlock | src/gray-inferencer/deep_inspection.c:1748-1815 | an unknown block is queued under its own sector and nothing else changes; file data is published; a leaf block is placed and touches its file only; an inode table gives the record of its inodes and only it changes the record |
| Inference.DeepInspect | src/gray-inferencer/deep_inspection.c:1737-1820 | terminates for every write on every store, complete or not; fuel grows by at most the number of blocks; a write nothing is known about is queued block by block; a one-block write has exactly the effect of its block; on a complete index with listed sectors apart from inode tables the record is that of the table blocks in the write, in order |
| Inference.WriteStep | src/gray-inferencer/deep_inspection.c:1748-1815 | the effect of the blocks so far and of the next block compose to that of the blocks up to it |
| Inference.InspectRun | src/gray-inferencer/gray-inferencer.c:61-85 | over any run of writes the stored metadata, the latest inodes and the field events are those of the inode-table blocks written, in order; after a run whose last write is a block of an inode table, every file of the table has the inode in it as its latest and as its stored metadata |
| Inference.LastTableDecides | src/gray-inferencer/deep_inspection.c:1376-1423 | over any run, the latest inode of a file and every field of it are those in the last inode-table block written that lists it; a file no such block lists keeps what it had |
| Inference.UpperHalfIff | src/gray-crawler/ext4/ext4.c:700-710 | extent start and index leaf are the block number of the format, upper half at bit 32, if and only if the upper half is zero, that is below block 2^32 |
| Inference.UpperHalfMisread | src/gray-crawler/ext4/ext4.c:700-704 | an extent at block 2^32 + 5 is read as block 2^48 + 5 |
| Inference.LeafUpperHalfMisread | src/gray-crawler/ext4/ext4.c:706-710 | and so is an index entry |
| Ext4Extents.SectorExtentBlock | src/gray-crawler/ext4/ext4.c:1442-1508 | the restarting search terminates (depth, then entries left) with the sector of the extent the lookup finds, 0 for none; a one-entry index is entered whatever its key |
| Ext4Extents.ReadExtentBlock | src/gray-crawler/ext4/ext4.c:712-776 | the same search, returning the bytes of the block, zeros for none |
| Ext4Extents.SerializeExtentSector | src/gray-crawler/ext4/ext4.c:778-915 | the same search, returning the low 32 bits of the sector, failure for none |
| Ext4Extents.FoundIff | src/gray-crawler/ext4/ext4.c:726-770 | an extent is found if and only if one maps the block and no multi-entry index node on the way has its last key at or below the block; it is one that maps the block |
| Ext4Extents.MapsOnce | src/gray-crawler/ext4/ext4.c:726-770 | at most one extent of a tree maps a block |
| Ext4Extents.IndexStep | src/gray-crawler/ext4/ext4.c:730-756 | a pass over an index entry keeps the scan of the lookup and lowers the depth or moves to the next entry |
| Ext4Extents.StaleEntrySpins | src/gray-crawler/ext4/ext4.c:745-754 | when the first key of a node is above the block, a node reached through the previous entry is entered again unchanged, for ever |
| Ext4Extents.LastLeafIsMissed | src/gray-crawler/ext4/ext4.c:745-755 | every block below the last entry of a two-entry index is reported as a hole although an extent maps it |
| Ext4BlockMap.NumberOfPath | src/gray-crawler/ext4/ext4.c:1316-1330 | the four ranges partition the block numbers: a number is recovered from its path |
| Ext4BlockMap.PathOfNumber | src/gray-crawler/ext4/ext4.c:1316-1330 | and every valid path from its number |
| Ext4BlockMap.SecondLevel | src/gray-crawler/ext4/ext4.c:1396-1425 | below A^2 the unreduced second-level index is the digit, from A^2 on it is past the pointer block |
| Ext4BlockMap.MappedStaysInside | src/gray-crawler/ext4/ext4.c:1336-1434 | the block map itself never leaves a pointer block |
| Ext4BlockMap.ReadFileBlock | src/gray-crawler/ext4/ext4.c:1309-1434 | the mixed-radix walk, end of file and range errors included, except past the buffer exactly in the triple range from A^2 on with non-zero pointers above |
| Ext4BlockMap.OverrunExample | src/gray-crawler/ext4/ext4.c:1396-1425 | with any two or more addresses per block, a mapped block A^2 into the triple range on the way to which the lookup overruns |
| Ext4BlockMap.SerializeBlockSector | src/gray-crawler/ext4/ext4.c:917-1188 | the same outcome in 32-bit arithmetic up to 4096-byte blocks, with file sector and disk sector of the block found |
| Ext4BlockMap.BoundsFit | src/gray-crawler/ext4/ext4.c:928-943 | the 32-bit range bounds do not wrap for block sizes up to 4096 |
| Ext4BlockMap.SectorIsTheBlockRead | src/gray-crawler/ext4/ext4.c:979-983 | with blocks of whole sectors the serialized sector times 512 is block * size + partition offset if and only if the partition starts on a sector and the number fits 32 bits |
| Ext4BlockMap.KeyIsFileSector | src/gray-crawler/ext4/ext4.c:979-983 | the key beside it times 512 is the block’s offset in the file, while that fits |
| Ext4Inodes.CacheDescriptors | src/gray-crawler/ext4/ext4.c:342-368 | the cache is the descriptor table on disk |
| Ext4Inodes.GroupsHoldBlocks | src/gray-crawler/ext4/ext4.c:291-297 | as many groups as hold the blocks, and no more |
| Ext4Inodes.CacheInodes | src/gray-crawler/ext4/ext4.c:370-426 | up to the first table that would cross the end of the partition, each part of the cache is the table on disk |
| Ext4Inodes.ReadInode | src/gray-crawler/ext4/ext4.c:603-667 | the inode returned is the one on disk, and sector * 512 + offset is its address |
| Ext4Inodes.CrawlInode | src/gray-crawler/ext4/ext4.c:603-667 | both caches filled and read through, for every inode number of a file system whose tables stay inside the partition |
| Ext4Inodes.BlockAddress | src/gray-crawler/ext4/ext4.c:642-654 | rounding to a block and taking the offset loses nothing, wherever the partition starts |
| Ext4Inodes.InferredAddressIff | src/gray-inferencer/deep_inspection.c:453-522 | the inferencer’s sector and offset name the same address if and only if the partition starts on a sector boundary |
| Ext4Layout.InodeReadsBack | src/include/ext4.h:148-176 | an inode encoded field by field as the struct declares it, standing anywhere in a buffer, is read as that inode, and its block area follows |
| Ext4Layout.TableReadsBack | src/gray-inferencer/deep_inspection.c:1390-1398 | after the diff of a block with an encoded inode, each named field of its file is the value encoded |
| Ext4Layout.HasExtentsIff | src/gray-inferencer/deep_inspection.c:1425-1428 | extents are followed for the file types 4, 5, 8, 9, 12 and 13 of the mode, directories, regular files and sockets, and no other |
| Ext4Layout.HeaderReadsBack | src/include/ext4.h:178-185 | entries and depth of an encoded node header |
| Ext4Layout.NoMagicNoEntries | src/gray-inferencer/deep_inspection.c:960-966 | a node without the magic number counts as empty |
| Ext4Layout.ExtentReadsBack | src/include/ext4.h:187-193 | block and length of an encoded extent, and its start if and only if that is below 2^32 |
| Ext4Layout.IndexReadsBack | src/include/ext4.h:195-201 | the leaf of an encoded index entry, if and only if it is below 2^32 |
| Ext4Layout.LeafReadsBack | src/gray-inferencer/deep_inspection.c:945-980 | an encoded leaf node is read back extent by extent if and only if all its blocks are below 2^32 |
| Ext4Layout.DescriptorReadsBack | src/include/ext4.h:120-146 | the inode table of an encoded group descriptor starts at table * block size + partition offset |
| Ext4Layout.CrawlEncoded | src/gray-crawler/ext4/ext4.c:603-667 | on every formatted image the crawler, through both caches, returns bytes that decode to the inode encoded at table * block size + offset + ((n - 1) mod inodes per group) * inode size, and records that address |
| NtfsFixup.FixupData | src/gray-crawler/ntfs/ntfs.c:569-600 | fails exactly when a covered trailer is not the sequence number, changes only covered trailers, else restores them all |
| NtfsFixup.FixupUndoesStamping | src/gray-crawler/ntfs/ntfs.c:569-600 | stamped records carry the number everywhere and are restored to the original |
| NtfsFixup.WriteAndFixup | src/gray-crawler/ntfs/ntfs.c:539-600 | every record of whole sectors survives stamping and fixup |
| NtfsRuns.ParseDataRun | src/gray-crawler/ntfs/ntfs.c:612-642 | one run, the end marker or an undefined read, as the parsing function says |
| NtfsRuns.ExtendBelowTop | src/util/util.c:60-69 | called with the index of the top bit, the sign extension drops that bit and extends from the one below |
| NtfsRuns.DistanceIff | src/gray-crawler/ntfs/ntfs.c:633-637 | a signed distance in k bytes is read back if and only if it is at least -2^(8k-2) |
| NtfsRuns.LostSign | src/util/util.c:60-69 | with one byte -64 is read back and -65 reads as 63 |
| NtfsRuns.ParseStep | src/gray-crawler/ntfs/ntfs.c:612-642 | the parser steps through an encoded list run by run and stops at its end |
| NtfsRuns.RunsRoundTrip | src/gray-crawler/ntfs/ntfs.c:612-642 | encoding and parsing a readable run list gives lengths and running-sum clusters back |
| NtfsStream.CopyRun | src/gray-crawler/ntfs/ntfs.c:739-800 | the run, cut to the bytes wanted, is copied piece by piece; the position moves by whole pieces |
| NtfsStream.AssembleStream | src/gray-crawler/ntfs/ntfs.c:645-810 | with clusters a multiple of 4096 bytes, byte k of the stream, in run j, is disk byte lcn_j * cluster + partition offset + (k - bytes of the runs before j), for every k below the real size that the runs reach; runs behind the real size may be anything |
| NtfsStream.ContentByte | src/gray-crawler/ntfs/ntfs.c:706-719 | the same of the concatenated runs |
| NtfsStream.ContentLength | src/gray-crawler/ntfs/ntfs.c:739-800 | as many bytes as the real size, or all the runs have if that is less |
| NtfsStream.ContentIsCut | src/gray-crawler/ntfs/ntfs.c:739-800 | a smaller real size gives a prefix |
| NtfsStream.ListRun | src/gray-crawler/ntfs/ntfs.c:729-737 | one entry per eight sectors of the run |
| NtfsStream.CrawlSectors | src/gray-crawler/ntfs/ntfs.c:706-810 | the crawler’s list: runs until the size, cut at each run, is used up, as 32-bit values |
| NtfsStream.CrawlEntry | src/gray-crawler/ntfs/ntfs.c:729-737 | entry i of run j’s part of the list is the run’s first sector plus 8 * i, as a 32-bit number, for every run that starts before the end of the file |
| NtfsStream.Int32Is | src/gray-crawler/ntfs/ntfs.c:734 | that number is the sector if and only if it is below 2^31 |
| NtfsStream.InferSectors | src/gray-inferencer/deep_inspection.c:1182-1223 | the inferencer’s list: runs until the size, reduced modulo 2^64, is zero |
| NtfsStream.InferEntry | src/gray-inferencer/deep_inspection.c:1182-1223 | entry i of run j’s part is the run’s first sector plus 8 * i |
| NtfsStream.EntryIsAddress | src/gray-crawler/ntfs/ntfs.c:213-219 | on a sector-aligned partition that sector times 512 is lcn * cluster + partition offset + 4096 * i |
| NtfsStream.SameSectorsIff | src/gray-inferencer/deep_inspection.c:1182-1223 | both lists are the same if and only if no run but the last straddles the end of the file |
| NtfsStream.StraddleExample | src/gray-inferencer/deep_inspection.c:1182-1223 | a file of one cluster whose first run has two: the inferencer also lists the sector of the second run |
| GrayFs.RangeCovers | src/include/redis_queue.h:59-60 | the inclusive list range always covers an unaligned request |
| GrayFs.CopyRange | src/gray-fs/gray-fs.c:219-255 | the loop copies the bytes of the listed blocks, holes as zeros, and stops at the bytes wanted or the end of the range |
| GrayFs.Read | src/gray-fs/gray-fs.c:191-261 | for every offset and size: an error past the end, else min(size, file size - offset) bytes equal to that slice of the file; with a short list, the bytes it covers |
| FileReads.SectorIsAddress | src/gray-inferencer/deep_inspection.c:1060-1063 | the sector the diff records times 512 is the address the format gives the block |
| FileReads.DiffedByte | src/gray-fs/gray-fs.c:219-255 | after the diff of a sorted leaf each byte read through the list is the byte of the extent’s block, zero where no extent holds the block |
| FileReads.ReadAfterDiff | src/gray-fs/gray-fs.c:191-261 | for every offset and size the FUSE read through the list the diff leaves returns that slice of the file as its extents lay it out |
| FileReads.ReadsRightIff | src/gray-inferencer/deep_inspection.c:975-978 | reads through that list are right on every disk if and only if no extent but the last reaches past the old end of the list |
| FileReads.PublishedIsFile | src/gray-inferencer/deep_inspection.c:547-690 | a write to a block of a diffed leaf, once on the disk: the event published with the pointer the diff left is the slice of the file from the block’s start, cut at the end of the file, and the queue keeps the file’s last block only |

## Left out

- Socket, event-loop, hiredis and FUSE set-up and teardown, command-line programs and everything that prints.
- Short reads and writes, errno replies but for a failed seek, allocation failure (also of a zero-length reallocation) and key expiry: I/O is complete and keys live.
- Lazy loading of index parts and the index loader.
- `__diff_superblock` and `__diff_bgds`: modelled only by their effect on the connection; what they publish on the file system's own channel is not part of this model.
- `ext4_sector_file_block`, MBR and GPT parsing, NTFS directory walking and attribute search, UTF-16 names, the Python tools and the emulator patches.
- BSON elements of type REGEX and JS_CODE, which encoder and decoder treat differently; encoded documents are limited to 2^30 bytes.
- Bson.BsonInfo.ReadDocument: what happens after bytes have spilled over the buffer; a length prefix within four of the least 32-bit number, on which the source's subtraction overflows, counts as negative.
- Bson.BsonInfo.Deserialize: a call whose type, key or length lies outside the buffer is reported as an overrun; a text length of -2^31, on which the source's decrement overflows, is taken as it stands.
- BitArrays.BitArray.FromData: the bytes C writes behind the array, when BitArrays.CopyFitsIff says the copy does not fit, are dropped.
- NbdSpec.SplitInvariance: a read past the end of the export, on which the server loops, is an absorbing stalled state; the uninitialised bytes sent behind the reply to a failed seek are zeros here.
- WriteLog.ReplayFollowsServer: runs without TRIM, which the queue does not carry.
- KvStores.KvStore.Publish: an event is identified by the file's number, not by its channel name.
- Inference.EmitFileBytes: reading a missing size leaves the caller's variable as it was, modelled as an arbitrary value; then only termination, queue keys and the history invariant are stated.
- Inference.DiffInode: list and pointers are stated for depth-0 nodes, and after growth when the last listed sector is file data; in the other cases nested diffs may change them again. When a listed sector is itself an inode table the diff may rewrite other files' metadata; then the history invariant, the published prefix and fuel are stated.
- Inference.DiffExtents: for index nodes the exact list is unstated, as nested diffs of waiting writes may place further leaves of the file.
- Inference.DiffInodes: what is published for a field that is missing from the store depends on the variable's earlier content, modelled as an arbitrary value; a missing inode offset likewise.
- Inference.InspectRun: the record of a whole run, and of a write of several blocks, is stated when no extent claims an inode table's sector during it; the clause on the last write needs no such condition.
- Inference.Read: bytes past the end of a written block are undefined in C and read as zero here.
- Ext4Extents.SectorExtentBlock: trees on which the first key of an index node of several entries on the path is above the block are outside; Ext4Extents.StaleEntrySpins shows why.
- Ext4BlockMap.SerializeBlockSector: block sizes above 4096, for which the 32-bit range bounds wrap; the indirect blocks saved beside the sectors.
- Ext4Inodes.CacheInodes: a table that starts behind the end of the partition makes the read size wrap; modelled as a failed read.
- NtfsFixup.FixupData: records that are not whole sectors.
- NtfsRuns.ParseDataRun: widths for which C reads outside its variables or shifts by more than 31 are reported as undefined.
- NtfsStream.AssembleStream: clusters that are not a multiple of 4096 bytes, with which the source leaves gaps; cluster numbers of runs taken outside the asserted range; what the buffer holds behind runs that fall short of the real size.
- FileReads.ReadAfterDiff: block sizes other than the 4096 bytes the FUSE reader assumes, and partitions that do not start on a sector boundary.
- GrayFs.Read: a listed block that is not on the disk, on which the source loops at the end of the file.

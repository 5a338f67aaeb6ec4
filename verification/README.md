# A Dafny model of the Tracefs trace pipeline

Tracefs records file-system operations in the kernel and replays them in user space. The model
covers the path a record takes:

- an assembler fills a record in place, with the kernel's structure layouts (`Layout`, `Records`,
  `RecordBytes`);
- producers number their records and send pointers to them through a circular queue to one log
  thread (`MsgQueue`, `Pipeline`, `PipelineIds`, `PipelineBuffers`, `PipelineRuns`);
- the log thread packs whole records into a 4096-byte page and writes the page to the trace file
  (`LogThread`);
- the reader reads the file back page by page and splits it into records (`Reader`, `ReaderExact`,
  `ReaderEnds`, `ReaderPartial`, `ReaderIntended`);
- the replay functions decode a record with the userland layouts and repeat its system call, with
  a linked list from (file address, pid) to descriptor (`Decoding`, `DecodeBytes`,
  `RoundTrip`, `Omap`, `OmapTrace`, `Replay`);
- `TracedRuns`, `EndToEnd` and `StrictReplay` join the stages, and `CrcTable` and `Crc` model the checksum.

Code that works by updating memory is modelled by classes, arrays and loops; each such method is
tied to a function on values (`Take`, `Put`, `SplitFrom`, `ReadTurn`, `RunOp`, ...), and the
theorems are about those functions and about runs of them. Concurrency is a state machine
(`Pipeline.Step`) whose steps are the critical sections and the unlocked accesses of the source;
theorems about it hold for every schedule of any number of producers.

## Where the code departs from its evident intent

The code is modelled as written. Where a property it is evidently meant to have fails, there is a
theorem that says exactly when it holds.

- The splitter reports a straddling record by its whole size, and `main` rewinds by that. A file is
  replayed record for record if and only if every page end inside it is a record boundary
  (`ReaderExact.ReplaysIffAligned`). `ReaderIntended` is the reader with the rewind by the bytes
  that are left, which reads every trace back (`ReaderIntended.ReadsBack`). The reader as
  written need not end, in two ways: `main`'s loop can come back to where it was
  (`ReaderEnds.NeverEnds`), and after a rewind into the middle of a record the splitter can meet a size
  of zero and never return (`ReaderEnds.RewindHangs`). `ReaderEnds.EndsIff` says when it does end.
- A record whose id is 127 ends tracing and loses the last page (`LogThread.WholeTraceIff`,
  `LogThread.StopLosesLastPage`, `PipelineIds.TraceEndsAt126`).
- A message sent to a full queue is reported as sent and its buffer is lost
  (`MsgQueue.Node.Send`, `PipelineBuffers.LeakedIffDropped`).
- A record id is read after the lock is released: ids are distinct if and only if no increment falls
  between another's increment and read (`PipelineIds.IdsDistinctIff`).
- A failed receive frees one pointer under two names (`PipelineBuffers.NoDoubleFreeIff`).
- A link record takes both lengths from the old name, and rename's first path is not terminated
  (`RoundTrip.DecodesFaithfullyIff`); a link record can leave its allocation (`Records.TextsFitIff`,
  `Records.PastTheEnd`).
- The list keeps the first descriptor of a key opened twice (`OmapTrace.ListIsMapIff`).
- With -n the system calls are made all the same, and only the output differs (`Replay.CheckIsPlain`,
  `Replay.OutputAlikeIff`).
- The checksum shifts a signed int (`Crc.AgreesWithRfcIff`). The repository's README says that it
  guards the records; nothing in the record path calls it.

## Model

| member | source | states |
|---|---|---|
| `EndToEnd.ReadBackIsAccepted` | trfs/tr_fs.c:156-224 | for every interleaving of producers and log thread whose receives succeed and in which the thread has not stopped, the flushed file read back with the intended rewind is exactly the records handled: a prefix of those accepted, each once, in order |
| `EndToEnd.ReaderAsWrittenOnTrace` | Userland/treplay.c:46-187 | on the same files the reader as written finishes with exactly those records if and only if every page end inside the file is a record boundary |
| `EndToEnd.TracedIsReplayed` | Userland/treplay.c:46-106 | with the intended rewind, for every interleaving: the records read from the flushed file decode, in order, to the traced operations as the code replays them (`ReplayedAs`: a link's new name cut, an oversized symlink target making no call, rename's first path running on), and to the traced operations themselves if and only if every one is faithful |
| `EndToEnd.TracedIsReplayedAsWritten` | Userland/treplay.c:46-187 | both statements for the reader as written, whatever its page held, on a trace all of whose page ends are record boundaries; it finishes |
| `EndToEnd.TracedCallsAreRepeated` | Userland/trfs_ops.c:93-231 | with the intended rewind, for every interleaving, mode and operating system: replaying the flushed file makes the calls of the traced operations as the code replays them, in order, all of them unless -s ends the run, each file operation on the descriptor that replay got for the oldest open of its file and process not yet closed; where every operation is faithful these are the traced calls, one each |
| `EndToEnd.TracedCallsAreRepeatedAsWritten` | Userland/trfs_ops.c:93-231 | the same calls for the reader as written, on a trace all of whose page ends are record boundaries |
| `TracedRuns.AnyEventsRun` | trfs/trfs_ops.c:25-350 | any operations, up to 125 of them, whose records fit a page have a run in which the log thread handles exactly their records, so that the theorems above apply to them |
| `EndToEnd.DescriptorIsOldestOpen` | Userland/trfs_ops.c:170-231 | in every replay, whatever the mode, the descriptor that a read, write or close uses is the one given for the oldest open of its key not yet closed, or -1 |
| `Reader.SplitPage` | Userland/treplay.c:38-107 | the splitter's loop, header read before the length check included, dispatches and returns what the recursive `SplitFrom` says, and hangs, with the records dispatched until then, exactly on a size of zero |
| `Reader.SplitCovers` | Userland/treplay.c:46-107 | the records dispatched cover the page when nothing straddles; otherwise the value returned exceeds the bytes left |
| `Reader.ReadTraceFile` | Userland/treplay.c:175-187 | the read, split and seek loop in the page array is the `limit`-fold turn function, stale page bytes included |
| `ReaderExact.TurnLinked` | Userland/treplay.c:177-187 | conservation: position plus `fsize` never falls below the file size, bytes are dispatched more than once only after a rewind, and a turn that ends with neither in excess began so and moved on by one page |
| `ReaderExact.ReplaysIffAligned` | Userland/treplay.c:46-187 | for every trace of framed records and all stale memory: the reader as written finishes having dispatched exactly the records if and only if every page end inside the file is a record boundary |
| `ReaderExact.StraddleResumesEarly` | Userland/treplay.c:48-51 | a straddle whose seek succeeds keeps position plus `fsize` and resumes before the first byte not replayed, by the record's size less the bytes left |
| `ReaderExact.StraddledTraceIsLost` | Userland/treplay.c:183-186 | two records with a page end inside the second are never replayed as they are |
| `ReaderExact.DispatchesUpTo` | Userland/treplay.c:46-187 | on any trace, aligned or not, the reader as written first dispatches, in order, every record that ends by the first page end that is not a record boundary |
| `ReaderEnds.StandsStillIff` | Userland/treplay.c:177-187 | a turn leaves position and `fsize` as they were if and only if the splitter returns as many bytes as were read |
| `ReaderEnds.CrossingTurn` | Userland/treplay.c:46-51 | a turn that meets a record across the page end dispatches the records before it and rewinds from the page end by the size of the crossing record |
| `ReaderEnds.StraddleTurn` | Userland/treplay.c:46-51 | if the crossing record is exactly a page long, the turn rewinds to where it began, having dispatched the records before it |
| `ReaderEnds.NeverEnds` | Userland/treplay.c:177-187 | if such a record crosses the first page end that is not a boundary, the loop never ends, whatever the page held |
| `ReaderEnds.DispatchesAgain` | Userland/treplay.c:177-187 | and on every further turn it dispatches the records between the start of that page and the crossing record once more |
| `ReaderEnds.ShortThenPageNeverEnds` | Userland/treplay.c:177-187 | a short record followed by one of a page is a trace on which the loop never ends |
| `ReaderEnds.RewindHangs` | Userland/treplay.c:46-52 | if the rewind over the record across the first page end that is not a boundary lands where the size field reads zero, the splitter never returns from the next turn |
| `ReaderEnds.ZerosThenCrossingHangs` | Userland/treplay.c:46-52 | two framed records, the second across the page end and the first with zeros where the rewind takes a size from, are a trace on which the reader hangs on its second turn |
| `ReaderEnds.ZerosHang` | Userland/treplay.c:46-52 | a file of six or more zero bytes hangs the reader on its first turn |
| `ReaderEnds.AlignedEnds` | Userland/treplay.c:177-187 | on a trace all of whose page ends are record boundaries the loop ends, complete, and stays so |
| `ReaderEnds.EndsIff` | Userland/treplay.c:46-187 | on every file, whole records or not, and whatever the page held, `main` leaves its loop if and only if it is never twice at the same position with the same page and the splitter never meets a size of zero |
| `ReaderEnds.DecidedByBound` | Userland/treplay.c:46-187 | whether the reader ends, loops or hangs is how it stands after a number of turns that depends on the file's size alone |
| `ReaderPartial.FailedSeekStays` | Userland/treplay.c:183-186 | a rewind to before the file moves nothing: the turn ends behind the page it read, with `fsize` raised all the same |
| `ReaderPartial.TruncatedTail` | Userland/treplay.c:177-187 | a file of at most a page that ends in the beginning, six bytes or more, of a record that claims more than the file ends the reading partially, with exactly the records before it dispatched |
| `ReaderPartial.ShortFileReadsStale` | Userland/treplay.c:47-51 | of a file of at most four bytes the size is read from what the page held before: zero hangs the reader, more than the file makes it give up |
| `ReaderIntended.SplitPage` | Userland/treplay.c:46-107 | with a tail shorter than a header taken for a straddle, the splitter gives the whole records of the page and the number of bytes left |
| `ReaderIntended.ReadTraceFile` | Userland/treplay.c:177-187 | the loop with the rewind by the bytes left terminates with `ReadAll` of the file and, when it reads all of it, never reads more often than it dispatches |
| `ReaderIntended.PageOfRecords` | Userland/treplay.c:46-107 | the first `n` bytes of a trace split into exactly the records that fit whole into `n` bytes |
| `ReaderIntended.ReadsBack` | Userland/treplay.c:177-187 | reading back the concatenation of any framed records gives the records |
| `LogThread.Writer.Consume` | trfs/tr_fs.c:199-229 | one turn of the thread in its page array, with write pointer and page size, is `Take` on the log; the stop message frees the page and leaves its size |
| `LogThread.Writer.Run` | trfs/tr_fs.c:183-224 | the loop over the received messages is `TakeAll` |
| `LogThread.Writer.Flush` | trfs/tr_fs.c:156-159 | the file gains the bytes of the page; after the thread has stopped it gains nothing, and the old page size is asked for from a null page |
| `LogThread.PackingInvariant` | trfs/tr_fs.c:183-223 | at every turn the file is a concatenation of whole messages from before the first that begins with 127, page and file are all of them until one stops the thread, the page holds at most 4096 bytes, and the thread runs just while no message began with 127 |
| `LogThread.WholeTraceIff` | trfs/tr_fs.c:199-224 | the flushed file is the concatenation of all messages if and only if none begins with 127 |
| `LogThread.StopLosesLastPage` | trfs/tr_fs.c:199-229 | a message that begins with 127 costs the last page and no more: the file keeps the writes made so far, the messages in the page, at most 4096 bytes of them and not none if there were any, are lost, and nothing later is written |
| `LogThread.WritesAreFull` | trfs/tr_fs.c:205-213 | the loop never writes an empty page, and two writes in a row carry more than a page |
| `LogThread.FlushBound` | trfs/tr_fs.c:205-213 | n writes, two or more, carry more than 4096 * floor(n / 2) bytes |
| `MsgQueue.PutAppends` | trfs/trfs_msgq.c:326-366 | putting keeps the index invariant and appends to the cyclic reading of the slots, or changes nothing when the queue is full |
| `MsgQueue.GetTakesOldest` | trfs/trfs_msgq.c:370-396 | getting keeps the index invariant, and the slot read is the head of the cyclic reading, whose tail is left |
| `MsgQueue.Node.PutMsg` | trfs/trfs_msgq.c:326-366 | the slot array and indices in place follow `Put`, with the full code just when the queue was full |
| `MsgQueue.Node.GetMsg` | trfs/trfs_msgq.c:370-396 | the oldest message comes out and the rest stay, or the empty code and no change |
| `MsgQueue.Node.Send` | trfs/trfs_msgq.c:175-207 | the message joins the queue unless it is full; either way the length is returned |
| `MsgQueue.Node.Recv` | trfs/trfs_msgq.c:243-263 | exit flag, empty queue or the oldest message with its own length, and what each leaves queued |
| `MsgQueue.RingRefinesFifo` | trfs/trfs_msgq.c:175-396 | over every run of sends and receives the circular queue accepts, drops and hands out what a bounded first-in first-out sequence does, and accepted == handed out + queued |
| `Pipeline.GetFindsOldest` | trfs/trfs_msgq.c:238-263 | in every interleaving, after the unlocked look found a message, the locked get finds one: the oldest accepted not yet handed out, with its length |
| `Pipeline.AcceptedIsTakenAndQueued` | trfs/trfs_msgq.c:197-261 | in every interleaving the accepted records are those handed to the log thread followed by those queued |
| `Pipeline.TraceFileHoldsHandled` | trfs/tr_fs.c:187-224 | in every interleaving whose receives succeed, the thread has stopped just when the last record it handled had id 127, and the flushed file is all the records handled just until then |
| `Pipeline.ExitLosesLastPage` | trfs/tr_fs.c:191-229 | in every interleaving, a thread that is gone, by id 127 or by a failed receive, leaves the records it had written in the file and loses exactly those in its page |
| `PipelineIds.FileOrderPerProducer` | trfs/tr_fs.c:25-33 | in every interleaving with fewer than 2^32 ids, each producer's records reach the trace file in strictly increasing order of id |
| `PipelineIds.CounterWraps` | trfs/tr_fs.c:27-31 | in every interleaving the counter is one more than the increments of the schedule so far, modulo 2^32 |
| `PipelineIds.IdsDistinctIff` | trfs/tr_fs.c:25-33 | once every producer that incremented has read, the ids are all different if and only if the schedule has no increment between another one and the read that follows that |
| `PipelineIds.DuplicateIdRun` | trfs/tr_fs.c:29-32 | a run of two producers in which both get id 3 |
| `PipelineIds.TraceEndsAt126` | trfs/tr_fs.c:199-202 | with one producer and nothing dropped, the thread never handles more than 126 records and stops exactly at the 126th |
| `PipelineRuns.TraceReaches` | trfs/tr_fs.c:187-224 | for every queue and every n up to 126 there is a run of one producer, with nothing dropped, in which the thread handles n records, and it has stopped just when n is 126 |
| `PipelineBuffers.OnePlaceEach` | trfs/tr_fs.c:189-237 | in every interleaving whose receives succeed, every buffer ever allocated is in exactly one place: with a producer, queued, with the log thread, freed, or lost with a dropped record |
| `PipelineBuffers.AcceptedHasOneOwner` | trfs/trfs_msgq.c:347-355 | an accepted record's buffer is in exactly one of the queue, the log thread's hands and the freed memory |
| `PipelineBuffers.DroppedIsLost` | trfs/tr_fs.h:21-26 | in every interleaving, failed receives included, the buffer of a record sent to a full queue is never freed |
| `PipelineBuffers.LeakedIffDropped` | trfs/tr_fs.h:21-26 | in every interleaving, when producers and log thread hold nothing, the buffers not freed are exactly those of the records sent to a full queue and of those still queued |
| `PipelineRuns.DropHappens` | trfs/trfs_msgq.c:332-340 | for every queue there is a run that drops a record and never frees its buffer |
| `PipelineBuffers.NoDoubleFreeIff` | trfs/tr_fs.c:225-238 | no buffer is freed twice if and only if the schedule has no failed receive |
| `PipelineRuns.DoubleFreeHappens` | trfs/tr_fs.c:189-195 | the run in which the first receive fails and the first buffer is freed twice |
| `Crc.ChecksumCompute` | trfs/trfs_crc.c:48-58 | the loop over the buffer is `Checksum` with the sign-copying shift |
| `CrcTable.EntryIsRemainder` | trfs/trfs_crc.c:1-45 | every entry of the literal table is eight shift-and-xor steps with 0xEDB88320 from its index |
| `Crc.ByteStepIsBitSerial` | trfs/trfs_crc.c:55-56 | a table-driven turn is eight bit-serial steps from the state with the byte added in, with the top byte inverted just when the state was negative |
| `Crc.ChecksumChains` | trfs/trfs_crc.c:48-58 | checksumming the second piece from the checksum of the first is checksumming the whole |
| `Crc.LoopXor` | trfs/trfs_crc.c:55-56 | the loop is linear over XOR in state and message together |
| `Crc.OnlyZeroVanishes` | trfs/trfs_crc.c:55-56 | no state but zero goes to zero on a zero byte, sign copying included |
| `Crc.SameChecksumIff` | trfs/trfs_crc.c:48-58 | two messages of one length have the same checksum if and only if their difference takes the zero state to zero, whatever the seed |
| `Crc.BurstDetected` | trfs/trfs_crc.c:48-58 | different messages that differ only inside four consecutive bytes have different checksums, from every seed |
| `Crc.BurstOfFiveMissed` | trfs/trfs_crc.c:48-58 | four is the most: every window of five bytes of every message has a change that keeps the checksum |
| `Crc.AgreesWithRfcIff` | trfs/trfs_crc.c:48-58 | the checksum agrees with the unsigned update of section 8 of RFC 1952 on every prefix of a message if and only if no state that is shifted has its top bit set |
| `Crc.PlainSeedDisagrees` | trfs/trfs_crc.c:53-56 | from every seed with the top bit clear the two differ on every one-byte message |
| `Crc.CheckValues` | trfs/trfs_crc.c:48-58 | of "123456789" from seed 0 the unsigned update gives the check value 0xCBF43926 and the code as written 0x206AF85B |
| `Omap.List.Add` | Userland/trfs_ops.c:13-28 | a new node joins the end of the list, which stays acyclic and free of repeats |
| `Omap.List.GetFd` | Userland/trfs_ops.c:76-88 | the descriptor of the first entry for the key, or -1 |
| `Omap.List.Delete` | Userland/trfs_ops.c:32-57 | the first entry for the key goes and the rest keep their order; at most one node is freed, one that was in the list, and allocated == freed + reachable |
| `Omap.List.Destroy` | Userland/trfs_ops.c:61-72 | every remaining node is freed once, so every node ever allocated has been freed exactly once |
| `OmapTrace.ListIsQueuePerKey` | Userland/trfs_ops.c:13-88 | on every trace of opens and closes the list holds, for each key, the queue of its descriptors not yet closed, and a lookup is the head of that queue |
| `OmapTrace.ListIsMap` | Userland/trfs_ops.c:13-88 | when keys are reopened only after their close, there is at most one entry a key and a lookup is the map's |
| `OmapTrace.ListIsMapIff` | Userland/trfs_ops.c:13-88 | on every trace, failed opens included, list and map agree for every key throughout if and only if every open of a key with entries left got the descriptor the list answers with, and every close leaves none but that of a failed open |
| `OmapTrace.FreshListIsMapIff` | Userland/trfs_ops.c:13-88 | with descriptors that are not in use, list and map agree throughout if and only if no key is reopened before its close |
| `OmapTrace.ReopenedKeyKeepsFirst` | Userland/trfs_ops.c:76-88 | a key opened twice: the list answers with the first descriptor, the map with the second |
| `Layout.StructsLaidOut` | trfs/structs.h:16-129 | the offsets and sizes used for both files' structures are those of the LP64 alignment rule |
| `Layout.LayoutsAgree` | Userland/structs.h:18-131 | the two declarations place every field alike, with the same width but for `ppos` |
| `Layout.PposDiffers` | Userland/structs.h:31-55 | `ppos` lies at 32 in both, in two bytes of the kernel's structure and four of userland's |
| `Records.AssembleRecord` | trfs/trfs_ops.c:25-350 | filling the fields and copying the texts in place, in memory that held anything and goes on after the allocation, gives `AssembleIn` |
| `RecordBytes.AssembledIsSpelled` | trfs/trfs_ops.c:25-350 | every record equals its bytes spelled out with literal numbers: length, id, size, type, each field at its place, the bytes no store touches, the texts |
| `Records.TextsFitIff` | trfs/trfs_ops.c:128-142 | the fields and texts of a record stay inside its allocation if and only if it is not a link whose new name is more than three bytes longer than the old one |
| `Records.LinkLeavesAllocation` | trfs/trfs_ops.c:128-142 | a link that does not fit |
| `Records.PastTheEnd` | trfs/trfs_ops.c:140-141 | the memory after the allocation stays as it was if the texts fit; otherwise the end of the new name and its NUL are written over it, and nothing else |
| `Records.FillSets` | trfs/trfs_ops.c:25-350 | after all stores every field that was set holds its value: no later store touches it |
| `RoundTrip.AssembledIsFramed` | trfs/trfs_ops.c:25-350 | an assembled record of at most a page claims its own length and begins with its id |
| `Decoding.FieldComesBack` | Userland/structs.h:18-131 | every field the assembler sets, `ppos` apart, reads back at the userland offset as what was set |
| `RoundTrip.RecordDecodes` | Userland/trfs_ops.c:93-231 | the record of every traced operation, whatever the memory held and whether or not the texts fit the allocation, decodes to the operation, with link, symlink and rename as the code treats them |
| `DecodeBytes.DecodedIsSpelled` | Userland/treplay.c:55-102 | every sequence of bytes, a record of the assemblers or not, decodes as spelled out with literal types, sizes, places and buffer limits |
| `DecodeBytes.OthersAreSkipped` | Userland/treplay.c:78-101 | a record of any type but the ten with a replay function that calls leaves calls, list and output as they were, in every mode |
| `RoundTrip.DecodesFaithfullyIff` | Userland/trfs_ops.c:112-168 | a record decodes to the traced operation if and only if: for a link the new name is no longer than the old, for a symlink the target is shorter than 256 bytes, for a rename the unterminated buffer has a NUL after the path |
| `RoundTrip.LinkIsCut` | Userland/trfs_ops.c:112-124 | a link from "a" to "bc" is replayed as one to "b" |
| `RoundTrip.RenameRunsOn` | Userland/trfs_ops.c:158-168 | a rename of "a" in a buffer that held "xy" is replayed as one of "ay" |
| `Replay.Replayer.Dispatch` | Userland/treplay.c:55-102 | one record replayed on the descriptor list in place, with `MAP_RETVAL` going on, returning or exiting, is `RunOp`: the call issued, the list, the lines printed and the exit |
| `Replay.Replayer.Replay` | Userland/trfs_ops.c:93-231 | replaying a trace is `RunAll`; nothing follows an exit |
| `Replay.CheckIsPlain` | Userland/trfs_ops.h:27-41 | for every trace and operating system, -n, although it returns early from replay functions, makes the calls and keeps the list of a run without a flag, and neither exits |
| `Replay.PrintsAlikeIff` | Userland/trfs_ops.h:28-34 | a record prints the same with -n and without a flag if and only if it does not compare or its comparison fails |
| `Replay.OutputAlikeIff` | Userland/trfs_ops.h:28-34 | the whole output is the same with -n and without a flag if and only if no comparison agrees |
| `Replay.StrictIsPrefix` | Userland/trfs_ops.h:35-41 | for every trace and operating system there is a first record whose comparison fails, and the run with -s is the plain run up to its call, the words of the abort and nothing after; or there is none, and it is the plain run |
| `Replay.OnlyComparisonsAbort` | Userland/trfs_ops.c:93-231 | in every run and mode, a record ends the run if and only if the mode is -s and the record compares and fails; so no open, close, truncate or undispatched record does |
| `StrictReplay.FailsIff` | Userland/trfs_ops.c:93-231 | in terms of the traced event: a comparison fails if and only if the event is no open, no close and no symlink that makes no call, and the operating system answers its call otherwise than the traced result, for a write than the bytes given |
| `StrictReplay.StrictPassesIff` | Userland/trfs_ops.h:27-41 | a run with -s goes through, as the plain run, if and only if the operating system repeats every compared result and takes every write whole |
| `StrictReplay.TracedPassesStrict` | Userland/treplay.c:46-187 | for every interleaving, with the intended rewind: replaying the flushed file with -s makes all the calls without aborting on such an operating system, and aborts on every other |
| `StrictReplay.PrintsForEvent` | Userland/trfs_ops.c:93-231 | what replaying the record of each traced event prints, from the event and the answer to its call |

## Left out

- The VFS wrappers (inode.c, file.c, lookup.c, dentry.c, mmap.c, main.c, super.c), the ioctl and mount options, and the bitmap filter: they decide when a record is made, not what becomes of it.
- The assemblers of the mknod, xattr and truncate records: the reader dispatches none of them to a function that does anything with what they hold.
- `trfsMqOpen`, the search for a queue by its id, a NULL message and the failures of either: one queue that exists is modelled, without the initialisation loop's last index.
- Records of more than 4096 bytes and messages of fewer than 4: `Packable` excludes them from the log thread.
- A failing `kmalloc` in an assembler or in the log thread.
- `vfs_write` is taken to write everything, and `read` to return all there is up to a page; a trace file of 2 GB or more, whose size does not fit the reader's int, is not modelled.
- The flush at unmount is taken to happen while the log thread waits; a write from a null page is taken to add nothing to the file. The end message that unmount sends after closing the file is not a step of `Pipeline`.
- The exit flag and an interrupted wait are one step, `FailRecv`, that can happen whenever the log thread waits.
- Reader.ReadTraceFile: takes a bound on the number of turns, because the loop as written need not end (`ReaderEnds.ShortThenPageNeverEnds`), and reports a splitter that never returns as the status `Hung`; the theorems are about every bound.
- ReaderIntended.ReadTraceFile: is the evident design, not the code; it also stops on a page that yields no whole record.
- Records.AssembleRecord: what the memory after the allocation is used for, and so what writing over it does, is not modelled. The stores are made in the order of the structure, which is immaterial because the fields do not overlap.
- RoundTrip.DecodesFaithfullyIff: a record that would take a replay function past its 256-byte path buffers decodes to `Overrun`, which makes no call; what the overrun itself would do is not modelled, nor is a read of more than 4096 bytes into the read function's buffer.
- DecodeBytes.DecodedIsSpelled: a record of fewer than seven bytes, whose type the reader takes from past its copy of the record, counts as not dispatched; what lies there is not modelled.
- `ppos`, which the two layouts give different widths and no replay function reads.
- Crc.ChecksumCompute: a negative size is not modelled.
- The paths in the lines the replay functions print; the lines themselves are in `Replay.State`.

# CCF plumbing in Dafny

A model, with proofs, of the parts of CCF that move and keep bytes around the consensus protocol: the ring
buffer between host and enclave and the message layers on top of it, the host's ledger files, the persistent
maps behind the key-value store, the Merkle tree and its receipts, the worker threads' task lists and timers,
node-to-node framing, and the status of a transaction. `dafny verify dfyconfig.toml` checks everything.

| component | modules | form |
|---|---|---|
| ring buffer | `RingBuffer`, `RingBufferWindow`, `RingBufferTape`, `RingBufferInvariant`, `RingBufferSafety`, `RingBufferDelivery`, `RingBufferTheorems`, `RingBufferProgress`, `RingBufferReads`, `RingBufferWaiting` | a step system: any number of writers and one reader, one step for every access to shared memory |
| ring buffer seen from above | `RingWriters`, `RingSlots` | a class for the layers on top, and what ties it to the step system |
| oversized messages | `Oversized`, `OversizedReader`, `OversizedTheorems`, `OversizedRing`, `OversizedSystem` | classes for writer and reader; interleavings on values; runs of the ring buffer, with the writers cut into its steps |
| non-blocking writer | `NonBlocking`, `NonBlockingRuns` | a class, and runs of it against a plain list |
| ledger | `LedgerChunks`, `LedgerFiles`, `LedgerRecovery`, `LedgerTiles`, `LedgerStore`, `LedgerRanges`, `Ledgers`, `LedgerRuns`, `LedgerReads`, `LedgerChunkEnds`, `LedgerLayout`, `SerialisedEntries` | a class for a file of bytes, a class for the ledger, and the plain log both refine |
| CHAMP map | `ChampBits`, `Champ`, `ChampOps`, `ChampBins`, `ChampCorrect`, `ChampMap`, `ChampEntries`, `ChampSize`, `ChampSnapshot`, `ChampTies`, `ChampHistories` | recursive functions; a class for the collision bins |
| red-black map | `RbMap`, `RbCorrect`, `RbSnapshot` | recursive functions |
| map snapshots | `MapSerializers`, `SnapshotBuffers`, `SnapshotFormat` | functions, and methods that fill and scan a buffer |
| Merkle tree, receipts | `Merkle`, `PythonReceipts`, `JsonReceipts`, `TransactionLeaves` | a class for the tree, loops for the verifiers |
| task list | `TaskQueue`, `TaskQueueInvariant`, `TaskQueueTheorems`, `TaskQueueAdders` | a step system over a heap of linked messages |
| timers | `Timers`, `TimerTheorems`, `TimerRuns` | a class, and runs of it |
| node connections | `NodeConnections`, `NodeFraming`, `NodeReplication` | a class for the resumable parser, the frames it reads, and the ledger entries in them |
| transaction status | `ViewHistories`, `TxStatuses` | a class for the view history, and the consensus states around it |

`Bytes`, `Sequences`, `KeyValue` and `Options` hold what the components share.

## What does not hold

Some properties one would expect are false of the code. For each there is a lemma with an input, or a family of
inputs, on which it fails, and one that says exactly when it holds.

- A CHAMP map's kept serialised size is wrong after overwriting one of two colliding keys with a value of
  another size (`ChampSize.SizeDrifts`); a put keeps it right exactly under `ChampSize.PutExactIff`, and every
  history does under `ChampSize.UniformExact`.
- CHAMP maps with the same contents, put together in different orders, have the same snapshot bytes if and only
  if no two keys share a 32-bit hash, whatever sort by hash is used (`ChampHistories.SameSnapshotIff`).
- `finish` of an oversized message complains of a payload that is not all written exactly when the first
  fragment is not full (`OversizedTheorems.FinishAccepts`); a shorter message than announced can be finished
  (`OversizedTheorems.ShortMessageAccepted`). It is then not dispatched as long as messages in progress at once have
  different identifiers (`OversizedTheorems.ShortNeverDispatched`), and dispatched with bytes of another message if its
  identifier is used again for one of the right length (`OversizedTheorems.ReuseDispatches`).
- Fragments are put together right exactly as long as messages in progress at once have different identifiers
  (`OversizedTheorems.RightIffApart`); otherwise a first fragment is taken for the next piece of another message
  (`OversizedReader.MistakenFragment`), which makes the reader throw, dispatch the other message, or go on, depending
  on the lengths (`OversizedReader.MistakenOutcome`).
- Finishing a queued message without payload marks an earlier one of the kind exactly while one is queued before
  it (`NonBlocking.FinishMarksIff`). Of two such messages, both finished, the second stays in the queue through later
  prepares and flushes, and everything behind it (`NonBlockingRuns.SecondNeverFlushed`). A run in which at most one
  message without payload is prepared holds exactly the messages of the plain list (`NonBlockingRuns.Execute`).
- Writing past the end of a queued message is refused only while it has room left, or by the message next to it in
  memory (`NonBlocking.PastEndRefusedIff`); otherwise the bytes become that message's (`NonBlocking.SpillsOver`)
  or go to the ring buffer under an address for an index (`NonBlocking.NothingFollows`).
- A size-capped range read of the ledger can return nothing although entries fit the cap
  (`LedgerReads.CapRunsOutAtBoundary`), exactly when the first entry that exceeds the cap begins the range or
  its chunk (`LedgerReads.CappedReadNoneIff`).
- A ledger chunk can end in an entry that is not committable, which writing refuses elsewhere
  (`LedgerStore.ChunkEndsUncommittable`): exactly where a write, successful or not, asked for a new chunk when the
  last entry was not committable, and no truncation has gone back before it (`LedgerChunkEnds.BadEndsExactly`,
  `LedgerChunkEnds.NewBadEnd`, `LedgerChunkEnds.ChunksEndCommittableIff`).
- A ledger file cut short in its table of positions is read as if it held more entries exactly when the part of the
  table that was written is as long as its first two positions, read as a header, announce
  (`LedgerRecovery.TornTableReopens`); there is such a file (`LedgerRecovery.TornTableMisread`).
- A verifier that looks at the root alone can be given an inner node of the tree for a leaf
  (`Merkle.InnerNodePasses`), or what is hashed into a leaf (`Merkle.BelowLeafPasses`). A receipt that folds to the
  root is for a leaf, collisions apart, exactly if it has as many steps as the leaf that its directions lead to is
  deep (`Merkle.ReceiptForLeafIff`); `Merkle.ReceiptFor` says what it is for if not.
- How the reader of a connection fails on a frame too short for its message depends on how the stream is cut
  (`NodeFraming.MisfitDependsOnCut`): it throws exactly if the read that completes the frame brings the bytes after the
  frame's length to fewer than a message's header (`NodeFraming.MisfitThrowsIff`).
- One tick can fire more than the timers due when it begins, a chain of any length if each is added without delay
  (`TimerTheorems.ChainFiresInOneTick`): exactly if those due leave some timer due that they added
  (`TimerTheorems.TickFiresMoreIff`).
- A message with ledger entries goes out with its right length exactly if that fits four bytes
  (`NodeFraming.OutboundLengthIff`), and a serialised entry can be recovered exactly if its size fits six
  (`SerialisedEntries.SerialisedRead`).
- The C++ verifier reads any characters as digits, so the Python one reads the same digest from a string that it
  accepts exactly if all are hexadecimal (`JsonReceipts.HashAgreesIff`); of a step with both keys one takes the left
  and the other none (`JsonReceipts.BothKeys`).
- The Python audit of a ledger computes the leaves that the node added exactly if no transaction has claims and no
  commit evidence (`TransactionLeaves.AuditFindsTree`).
- The search for a possible match never ends if the view of version 0 is above the one searched for, and ends
  otherwise (`ViewHistories.SearchEndsIff`); the start of that view reads as unknown (`ViewHistories.ViewExtent`).
- A final transaction status can change for view 0 (`TxStatuses.ViewZeroNotFinal`), and for no other view
  (`TxStatuses.StatusIsFinal`).

## Model

| member | source | states |
|---|---|---|
| RingBufferTheorems.MessagesDelivered | src/ds/ring_buffer.h:162-210 | in every interleaving the handler gets a prefix of the reservations in tail order, each finished, once, with its type and bytes |
| RingBufferReads.ReadKeepsLimit | src/ds/ring_buffer.h:162-210 | from the beginning of a call of read until another begins, whatever the writers do, no more messages are handed over than its limit, and it returns how many there were |
| RingBufferReads.ReadStopsOnlyAt | src/ds/ring_buffer.h:171-196 | in every run the scan ends only at the limit, at a message that is absent or pending, or at the end of the block |
| RingBufferReads.ReadAlone | src/ds/ring_buffer.h:162-210 | from every reachable state an undisturbed call of read returns, having handed over messages up to one of these |
| RingBufferTheorems.OffsetsOrdered | src/ds/ring_buffer.h:364-445 | in every reachable state head_cache <= head <= tail <= head + size |
| RingBufferTheorems.NeverOutOfBounds | src/ds/ring_buffer.h:329-362 | no reachable step reads or writes outside the buffer or wraps a subtraction |
| RingBufferTheorems.LiveMessagesDisjoint | src/ds/ring_buffer.h:398-445 | what is not yet released, message or padding, is contiguous in the buffer and no byte belongs to two of them |
| RingBufferTheorems.FreeBytesZero | src/ds/ring_buffer.h:202-207 | every byte that belongs to no reservation is zero |
| RingBufferTheorems.UnwrittenBytesZero | src/ds/ring_buffer.h:162-186 | a message or padding that is reserved but has no header is all zero, so it reads as no message |
| RingBufferTheorems.HistoryGrows | src/ds/ring_buffer.h:162-210 | nothing delivered is taken back and no finished message changes, over any continuation of a run |
| RingBufferTheorems.IdentifiersUnique | src/ds/ring_buffer.h:221-229 | two reservations never have the same identifier |
| RingBufferProgress.ReserveAlone | src/ds/ring_buffer.h:364-445 | an undisturbed writer gets its space exactly when there is room in one piece, however stale the head cache |
| RingBufferProgress.EmptyBufferHasSpace | src/ds/ring_buffer.h:80-88 | a reservation of up to half the size always fits an empty buffer |
| RingBufferProgress.HalfIsMost | src/ds/ring_buffer.h:80-88 | and nothing longer does: half the size is exactly what fits an empty buffer whatever its offsets |
| RingBufferProgress.AcceptableIff | src/ds/ring_buffer.h:247-279 | prepare accepts exactly messages of a type that is not reserved, short enough to leave the pending flag clear, and that fit an empty buffer whatever its offsets |
| RingBufferWaiting.WaitingReserves | src/ds/ring_buffer.h:241-303 | from every reachable state a prepare that waits, wherever it is and however stale what it has loaded, has its reservation after at most sixteen steps of its own if there is room in one piece |
| RingBufferWaiting.WaitingServed | src/ds/ring_buffer.h:162-303 | once all messages reserved are finished, however full the buffer, the reader alone makes room and the waiting prepare gets its reservation |
| RingBufferWaiting.OwnerFinishes | src/ds/ring_buffer.h:289-348 | from every reachable state a writer with its reservation can write any bytes it has room for after those written, and finish, in at most five steps of its own |
| RingBufferProgress.FinishedMessageDelivered | src/ds/ring_buffer.h:162-210 | from every reachable state, wherever the reader is, it alone delivers the next message if that is finished, in at most twelve steps |
| RingSlots.RunAllowed | src/ds/ring_buffer.h:241-348 | in every run each step does to the messages, as the layers above see them, what prepare, write_bytes or finish may do and nothing else; identifiers increase |
| RingSlots.PrepareCall | src/ds/ring_buffer.h:241-303 | whatever other threads do during the call, prepare comes back empty only if it would not wait, and with a marker only to a new empty message of its own, as asked; a refused message changes nothing |
| Oversized.Writer.Create | src/ds/oversized.h:137-156 | a writer exists exactly when the fragment size exceeds the header and is below the total |
| Oversized.Writer.Prepare | src/ds/oversized.h:158-220 | throws exactly when already preparing, over the total, oversized without waiting, or the ring buffer refuses the message or its fragment; otherwise a plain reservation or a first fragment with header and room |
| Oversized.Writer.WriteBytes | src/ds/oversized.h:248-314 | small messages pass through; of an oversized one exactly the specified fragments are emitted and no other slot is touched |
| Oversized.Writer.WriteFragments | src/ds/oversized.h:262-313 | the loop fills the fragment in hand and emits further ones, as `Wrote` says |
| Oversized.Writer.Finish | src/ds/oversized.h:222-246 | fails exactly when the fragment in hand has room left; otherwise finishes it |
| OversizedReader.FragmentReconstructor.OnFragment | src/ds/oversized.h:43-93 | one fragment extends or completes its message, or is rejected, as `Received` says |
| OversizedReader.FragmentFate | src/ds/oversized.h:43-93 | of any bytes: with an identifier not in use they begin a message of the type and length in their header, with one in use they go on with it; too many are rejected, all complete it, fewer are kept; anything too short is rejected and changes nothing |
| OversizedTheorems.JobFragments | src/ds/oversized.h:158-314 | for any division of the payload into calls the fragments carry it in order, none empty or over the limit, and remainder ends 0 |
| OversizedTheorems.CallFillsFragments | src/ds/oversized.h:262-313 | a call goes on to another fragment only when the one in hand is full, and all but the last that it emits are as large as they may be |
| OversizedTheorems.Reassembled | src/ds/oversized.h:43-93 | after any part of any interleaving, identifiers in use at once being different, exactly the begun messages are in the making and exactly the completed ones dispatched |
| OversizedTheorems.RightIffApart | src/ds/oversized.h:43-93 | the reader does right by every fragment exactly if messages in progress at once have different identifiers |
| OversizedReader.MistakenFragment | src/ds/oversized.h:45-77 | a first fragment taken, header and all, for the next piece of a message in progress with the same identifier |
| OversizedReader.MistakenOutcome | src/ds/oversized.h:45-92 | such a fragment makes the reader throw, dispatch the other message with it, or keep it, exactly as it is more than, as much as or less than that message lacks |
| OversizedTheorems.EachDispatchedOnce | src/ds/oversized.h:63-92 | once all fragments arrived, each message was dispatched once, whole, and none is left |
| OversizedTheorems.MessagesArrive | src/ds/oversized.h:36-314 | messages written in any parts and fragments interleaved in any way come out once, with their type and bytes |
| OversizedRing.WriterWritesJob | src/ds/oversized.h:158-314 | while a writer is at work what it has left in the ring buffer is the first fragments of its message, the finished ones complete |
| OversizedRing.FinishWritesJob | src/ds/oversized.h:222-240 | once it has finished, all of them |
| OversizedRing.RingMessagesArrive | src/ds/oversized.h:36-314 | over every run of the ring buffer the reader, fed what is handed over, has dispatched exactly the messages whose last fragment was, right, and each once when all were |
| OversizedSystem.SysStep | src/ds/oversized.h:158-314 | with any number of oversized writers cut into the ring buffer's steps, and other threads beside them, every step keeps each writer's reservations its own, apart from the others', and filled with the beginnings of its fragments, those left behind or finished in full |
| OversizedSystem.SystemMessagesArrive | src/ds/oversized.h:36-314 | so over every interleaving of such steps, without a premise on what is in the ring buffer, the reader has dispatched exactly the messages whose last fragment was handed over, and each writer's message once when all is handed over |
| OversizedTheorems.FinishAccepts | src/ds/oversized.h:222-240 | finish succeeds exactly when at least a first fragment's payload was written |
| OversizedTheorems.ShortMessageAccepted | src/ds/oversized.h:222-240 | an incomplete payload that finish accepts |
| OversizedTheorems.ShortNeverDispatched | src/ds/oversized.h:79-92 | what a message finished short of its announced size has sent is all but the last fragment of one of that size; in every interleaving with others, identifiers in use at once being different, it is not dispatched, stays in the table, and exactly the completed ones are dispatched |
| OversizedTheorems.ReuseDispatches | src/ds/oversized.h:45-92 | the messages whose identifier is used again while they lack their last fragment that are dispatched, with the other's header and bytes at the end |
| OversizedTheorems.IncompleteNeverDispatched | src/ds/oversized.h:79-92 | a message with fragments missing is not dispatched and stays in the table with what arrived of it; what is dispatched is exactly the completed messages |
| NonBlocking.NonBlockingWriter.Prepare | src/ds/non_blocking.h:47-75 | the message, with or without payload, is last in prepare order; it is queued exactly if anything is queued already or the ring buffer has no space; refused exactly if nothing is and the ring buffer refuses it |
| NonBlocking.NonBlockingWriter.WriteBytes | src/ds/non_blocking.h:98-142 | for any bytes, in the ring buffer or the queue: they reach one message and change no other; refused exactly if they do not fit that queued message; they go elsewhere exactly if the message in the ring buffer is finished or too small for them, or no queued buffer has the marker |
| NonBlocking.ReceiverInside | src/ds/non_blocking.h:103-133 | while a queued message has room, bytes written through its marker reach that message |
| NonBlocking.PastEndRefusedIff | src/ds/non_blocking.h:103-141 | bytes past the end of a queued message are refused exactly if it has room left or the fresh message behind it in memory is too small too |
| NonBlocking.SpillsOver | src/ds/non_blocking.h:106-133 | bytes written past a full message that become the first bytes of the next one in memory |
| NonBlocking.NothingFollows | src/ds/non_blocking.h:139-141 | bytes written past a full message that go to the ring buffer with an address for an index |
| NonBlocking.NonBlockingWriter.Finish | src/ds/non_blocking.h:77-96 | exactly the message that `Marked` names is finished |
| NonBlocking.NonBlockingWriter.TryFlushPending | src/ds/non_blocking.h:151-182 | messages and their order are unchanged, only finished ones move to the ring buffer, until none is left, one is not finished or the ring buffer has no space; true exactly if none is left; throws only at a finished one that the ring buffer refuses |
| NonBlocking.PendingFound | src/ds/non_blocking.h:103-111 | a marker inside a queued buffer finds that buffer, even where another one ends at the same address |
| NonBlocking.FinishMarksIff | src/ds/non_blocking.h:77-92 | finishing a queued message marks it exactly if it has a payload or none without payload is queued before it, and otherwise marks the first of those |
| NonBlockingRuns.SecondNeverFlushed | src/ds/non_blocking.h:47-182 | of two messages without payload queued and finished the second stays queued, with all behind it, through any later prepares and flushes |
| NonBlockingRuns.Execute | src/ds/non_blocking.h:47-182 | through any run of writes, refusals and flushes ring buffer and queue hold the plain list of messages in prepare order, to the end if at most one message without payload is prepared; if more are, possibly only until a finish marks an earlier one of them, when they do not |
| LedgerFiles.LedgerFile.WriteEntry | src/host/ledger.h:326-346 | the entry is appended to an open file's bytes, over a torn tail if there is one, and its position recorded; a completed file loses its table |
| LedgerFiles.LedgerFile.EntriesSize | src/host/ledger.h:349-394 | the size and last index that halving the range arrives at |
| LedgerChunks.SizeOfRead | src/host/ledger.h:349-428 | the size and index found are those of what is read, and zeros exactly if nothing is |
| LedgerChunks.FittingToFits | src/host/ledger.h:365-391 | halving ends, within the range and the cap, unless the first entry alone exceeds it; without a cap at the end asked for |
| LedgerChunks.FittingHalved | src/host/ledger.h:365-391 | what is kept is the range halved as often as it takes to fit and no more often |
| LedgerFiles.LedgerFile.Read | src/host/ledger.h:396-428 | the bytes read are the entries of the range laid end to end |
| LedgerFiles.LedgerFile.Truncate | src/host/ledger.h:430-482 | the file ends with the entry at the index, or is deleted, or is left alone, or it throws, in exactly the cases of the source |
| LedgerChunks.TruncateExactly | src/host/ledger.h:430-482 | a committed file is left alone, any other too unless the index is before its last and at least the one before its first; then it is deleted if nothing is left, and otherwise ends with the index, open |
| LedgerFiles.LedgerFile.Complete | src/host/ledger.h:484-524 | the table of positions follows the entries and its offset leads the file |
| LedgerFiles.LedgerFile.Commit | src/host/ledger.h:553-591 | takes effect exactly for a complete, uncommitted file at its last index |
| LedgerChunks.CommitOnce | src/host/ledger.h:553-591 | a commit has an effect exactly for a complete, uncommitted file at its last index, and nothing changes the file after that |
| LedgerRecovery.OpenFile | src/host/ledger.h:175-286 | the scan finds positions, length and completeness as `Reopen` says, or fails |
| LedgerRecovery.ReopenAny | src/host/ledger.h:175-286 | of any bytes: reopening fails exactly if they are too few for an offset or the offset is beyond them; with offset zero they are divided into framed entries, as many as there are, and a rest that begins with none |
| LedgerRecovery.CompletedReopens | src/host/ledger.h:196-229 | reopening a completed file gives back its positions and length |
| LedgerRecovery.TornReopens | src/host/ledger.h:230-285 | an uncompleted file cut at any byte after its header gives the positions of exactly its whole entries |
| LedgerRecovery.WholeMaximal | src/host/ledger.h:239-284 | those are as many entries as fit: one more would not |
| LedgerRecovery.TornTableReopens | src/host/ledger.h:230-285 | a file cut in its table gives exactly its entries if and only if that part of the table is shorter than the entry its first bytes announce, and otherwise its entries and further ones |
| LedgerRecovery.TornTableMisread | src/host/ledger.h:230-285 | a file cut in its table that reopens with more entries than it has |
| LedgerRecovery.RecoverFile | src/host/ledger.h:910-940 | reopening and truncating leaves a file of the whole entries and nothing else, or deletes it if there are none |
| LedgerStore.WriteKeeps | src/host/ledger.h:1132-1202 | writing appends to the log or fails without changing it, and keeps the tiling of chunks |
| LedgerStore.WriteChunks | src/host/ledger.h:1143-1199 | an entry begins a chunk exactly if the latest is complete or its flag says so, and ends one exactly if committable and flagged or over the threshold |
| LedgerStore.ChunkEndsUncommittable | src/host/ledger.h:1143-1170 | a chunk that ends in an entry that is not committable, because the next one asked for a new chunk |
| LedgerChunkEnds.NewBadEnd | src/host/ledger.h:1143-1199 | a write makes a chunk end in an uncommittable entry exactly if it asks for a chunk while the latest is open and its last entry is uncommittable, even if the write then throws |
| LedgerChunkEnds.BadEndsExactly | src/host/ledger.h:1132-1279 | after every run the chunks that end in an uncommittable entry are exactly those, less the truncated ones |
| LedgerChunkEnds.ChunksEndCommittableIff | src/host/ledger.h:1132-1279 | all through a run chunks end in committable entries exactly if no write asks for a chunk after an uncommittable one |
| LedgerLayout.LayoutExact | src/host/ledger.h:1132-1279 | after every run complete chunks end at exactly the entries that flags, sizes, threshold and truncations say, and the committed files reach exactly to the last such end that a commit has come to |
| SerialisedEntries.SerialisedRead | src/kv/serialised_entry_format.h:10-40 | the ledger reads the chunk flags of a serialised entry as they were set, and recovery frames it right exactly if its size fits |
| SerialisedEntries.SerialisedChunks | src/host/ledger.h:1141-1199 | wherever the ledger stands, an entry serialised to ask for a chunk before it begins one, and one to ask for a chunk after it ends one or is refused |
| LedgerStore.TruncateKeeps | src/host/ledger.h:1204-1240 | truncating cuts the log at an index no lower than the commit index and keeps the tiling |
| LedgerStore.CommitKeeps | src/host/ledger.h:1242-1279 | committing changes no entry, moves whole chunks to the committed files and keeps the tiling |
| LedgerRuns.LedgerIsLog | src/host/ledger.h:1132-1279 | every run of writes, truncations and commits refines a plain log with a commit index |
| LedgerRuns.ChunksInOrder | src/host/ledger.h:605-628 | after every run chunks tile the log, all but the latest are complete, and a new file is required exactly if the latest is not open |
| LedgerRuns.CommittedEntriesKept | src/host/ledger.h:1204-1279 | no entry up to the commit index changes in any continuation of a run, and the commit index never recedes |
| Ledgers.Ledger.WriteEntry | src/host/ledger.h:1132-1202 | the method does what `WroteEntry` says, chunk flags and threshold included |
| Ledgers.Ledger.Truncate | src/host/ledger.h:1204-1240 | the loop over files does what `TruncatedAt` says |
| Ledgers.Ledger.Commit | src/host/ledger.h:1242-1279 | the loop over files does what `CommittedAt` says |
| Ledgers.Ledger.GetFileFromCache | src/host/ledger.h:648-721 | finds a committed file of the ledger's own exactly for indices in one; the cache holds committed files only, keeps its bound, and becomes what `Recent` says |
| Ledgers.RecentKeeps | src/host/ledger.h:707-717 | the file just read is in the cache, none is there twice, and only the oldest of a full cache goes |
| Ledgers.Ledger.GetFileFromIdx | src/host/ledger.h:723-750 | finds the file that contains the index, exactly if there is one within reach |
| Ledgers.Ledger.ReadEntriesRange | src/host/ledger.h:761-827 | the loop over files returns what `ReadResult` says |
| LedgerReads.ReadReturnsRange | src/host/ledger.h:761-827 | after any run an uncapped read returns the log entries of the range, exactly if they are all there |
| LedgerReads.LenientReadStops | src/host/ledger.h:777-788 | a read that is not strict stops at the end of the log, of committed files alone if it lies within those, and finds nothing beyond it |
| LedgerReads.CappedReadFits | src/host/ledger.h:789-827 | a capped read, strict or going on past the end of the log, returns a contiguous, non-empty beginning of the range within the cap |
| LedgerReads.CappedReadNoneIff | src/host/ledger.h:789-827 | it returns nothing exactly when the first entry over the cap, up to the end of the log, begins the range or its chunk |
| LedgerReads.CommittedReadNoneIff | src/host/ledger.h:777-827 | the same for committed files alone, and also nothing when these end before the range and within the cap |
| LedgerReads.CappedReadKeepsHalf | src/host/ledger.h:365-391 | it keeps at least half of what would fit of the chunk it stops in, and all before that |
| LedgerReads.CapRunsOutAtBoundary | src/host/ledger.h:805-809 | entries that fit the cap and are lost because it runs out where a chunk ends |
| ChampBins.Collisions.Get | src/ds/champ_map.h:108-118 | the loop finds the value of the key in its bin, as `BinsGet` says |
| ChampBins.Collisions.PutMut | src/ds/champ_map.h:120-135 | replaces or adds the entry in its bin, with the size the source returns |
| ChampBins.Collisions.RemoveMut | src/ds/champ_map.h:137-153 | removes the entry from its bin, with the size the source returns |
| ChampCorrect.PutCorrect | src/ds/champ_map.h:214-298 | put maps the key to the value, leaves every other key alone, and returns zero exactly for a new key |
| ChampCorrect.RemoveCorrect | src/ds/champ_map.h:300-342 | remove takes the key out and leaves every other alone |
| ChampMap.HistoryRepresents | src/ds/champ_map.h:418-454 | for every hash function and history lookups agree with a mathematical map and the size is its number of keys |
| ChampSize.EntriesListed | src/ds/champ_map.h:344-369 | foreach lists the contents, each key once |
| ChampSize.PutDrift | src/ds/champ_map.h:433-441 | by how much a put moves the kept serialised size away from the real one |
| ChampSize.RemoveDrift | src/ds/champ_map.h:443-454 | the same for a remove |
| ChampSize.PutExactIff | src/ds/champ_map.h:126-130 | a put keeps the size right exactly unless it replaces a key in a bin by one of another size |
| ChampSize.UniformExact | src/ds/champ_map.h:433-454 | with fixed aligned sizes the kept size is right after every history |
| ChampSize.SizeDrifts | src/ds/champ_map.h:126-149 | every hash function with a collision has a history after which the kept size is wrong |
| ChampSnapshot.SnapshotLength | src/ds/champ_map.h:491-525 | a snapshot has the real size of its entries |
| ChampSnapshot.SnapshotRoundTrip | src/ds/champ_map.h:491-539 | reading a snapshot back gives the same map, without the read versions |
| ChampSnapshot.ByteIdentical | src/ds/champ_map.h:512-537 | equal maps without colliding keys have equal snapshots, whatever their histories |
| ChampTies.SubTwisted | src/ds/champ_map.h:214-298 | two keys of one hash, put in either order into any trie without them, are neighbours in iteration in that order, and all else is in the same place |
| ChampHistories.SameSnapshotIff | src/ds/champ_map.h:491-539 | for any sort that sees only hashes, all histories with the same contents give one snapshot exactly when no two keys share a hash |
| MapSerializers.DeserializeEntries | src/ds/map_serializers.h:73-97 | the loop reads the entries that `ReadAll` says, or fails |
| MapSerializers.RoundTrip | src/ds/map_serializers.h:18-97 | reading what was written gives back the entries in order |
| SnapshotFormat.ReadIff | src/ds/map_serializers.h:60-97 | of any bytes: reading gives these entries exactly if the bytes are a snapshot of them, with lengths and anything for padding; all others are rejected |
| SnapshotFormat.PaddedLeast | src/ds/map_serializers.h:18-26 | blocks are filled up to the next multiple of eight bytes and no further |
| SnapshotBuffers.Serialize | src/ds/rb_map.h:303-319 | the buffer is filled with exactly the serialised entries if it has exactly their size, and otherwise this fails |
| RbCorrect.PutInvariant | src/ds/rb_map.h:201-229 | a put updates the map that the tree lists, and keeps the keys in order, the colours, the black heights and the cached sizes right |
| RbCorrect.GetLists | src/ds/rb_map.h:121-134 | lookup is lookup in the listed map |
| RbCorrect.BuildInvariant | src/ds/rb_map.h:201-269 | after any puts no red node has a red child and all paths have equally many black nodes |
| RbCorrect.BuildRepresents | src/ds/rb_map.h:121-166 | after any puts lookups agree with a mathematical map, iteration is sorted, and the cached sizes are exact |
| RbCorrect.BuildHeight | src/ds/rb_map.h:231-269 | the height is at most twice the logarithm of the size plus one |
| RbSnapshot.ByteIdentical | src/ds/rb_map.h:303-319 | equal maps have equal snapshots, which fill a buffer of the cached size |
| RbSnapshot.SnapshotCompatible | src/ds/test/map_test.cpp:393-440 | of a red-black and a CHAMP map with the same contents, after any histories, either snapshot read into either kind gives these contents |
| Merkle.RootBindsLeaves | python/ccf/merkletree.py:20-75 | a root and a number of leaves determine every leaf in order, or the folds of some leaf in the two trees collide at a step |
| Merkle.MerkleTree.CalculateNextLevel | python/ccf/merkletree.py:42-67 | the loop pairs the nodes of a level and promotes a lone last one |
| Merkle.MerkleTree.MakeTree | python/ccf/merkletree.py:69-75 | the loop ends with all levels, the root's first |
| Merkle.MerkleTree.GetMerkleRoot | python/ccf/merkletree.py:32-40 | the root of the leaves, if there are any |
| Merkle.BottomUpIsTopDown | python/ccf/merkletree.py:42-75 | for every number of leaves it is the tree that splits at the largest power of two below, as in section 2.1 of RFC 6962 without its prefix bytes |
| Merkle.CalculateRoot | include/ccf/receipt.h:71-88 | the loop folds the proof over the leaf digest |
| Merkle.PathLeadsToRoot | include/ccf/receipt.h:71-88 | for every leaf of every tree folding its siblings gives the root |
| Merkle.ProofBinds | include/ccf/receipt.h:71-88 | equal roots and directions mean equal leaves and siblings, or these two folds hash different bytes to one digest at a step |
| Merkle.ReceiptForLeaf | include/ccf/receipt.h:71-88 | a receipt with a leaf's directions that folds to a tree's root is for that leaf, or its fold and the leaf's collide at a step |
| Merkle.ReceiptForNode | include/ccf/receipt.h:71-88 | one with only the last of a leaf's directions is for the node as many steps up from the leaf as it lacks, or their folds collide |
| Merkle.InnerNodePasses | include/ccf/receipt.h:71-104 | components and a proof for which an inner node of a tree passes as a leaf |
| Merkle.BelowLeafPasses | include/ccf/receipt.h:71-104 | components hashed into a leaf that pass as one, with one step more than the leaf's |
| Merkle.ReceiptFor | include/ccf/receipt.h:71-88 | any receipt that folds to the root is for a node above the leaf its directions lead to, for that leaf, or for something hashed into it, as it has fewer, as many or more steps than the leaf is deep; or its fold and the leaf's collide |
| Merkle.ReceiptForLeafIff | include/ccf/receipt.h:71-88 | it is for a leaf exactly if it has as many steps as that, or they collide |
| Merkle.LeafBinds | include/ccf/receipt.h:90-104 | a leaf digest determines its components and whether there is a claims digest, or the bytes hashed for these two leaves, or their commit evidences, collide |
| Merkle.ReceiptBinds | include/ccf/receipt.h:71-104 | a root and directions determine a receipt component by component, or these two leaves or folds collide |
| TransactionLeaves.IssuedReceiptVerifies | src/node/rpc/claims.h:22-55 | the receipt issued for any transaction, with or without claims, folds to the root of the tree of the leaves that the node added |
| TransactionLeaves.ReceiptForTransaction | include/ccf/receipt.h:71-104 | a receipt with that transaction's directions that folds to the root has its write set digest, commit evidence and claims, or collides with the one issued |
| TransactionLeaves.AuditFindsTree | python/ccf/ledger.py:718-737 | the audit computes the leaves of the node's tree, or fails, exactly if some transaction has claims without commit evidence |
| PythonReceipts.Root | python/ccf/receipt.py:12-23 | the loop over dictionaries folds hexadecimal digests, with white space as Python allows it, or raises |
| PythonReceipts.VerifiersAgree | python/ccf/receipt.py:12-23 | on every proof the Python and the C++ verifier compute the same root |
| PythonReceipts.FromHexInTwo | python/ccf/receipt.py:17-22 | digits read in two parts, with white space between bytes, are read at once |
| PythonReceipts.OnlyWhiteSpace | python/ccf/receipt.py:17-22 | a character that is no digit is skipped exactly if it is ASCII white space |
| JsonReceipts.HashAgreesIff | include/ccf/ds/hex.h:13-73 | of a string that the C++ verifier accepts the Python one reads the same digest exactly if all its characters are hexadecimal digits |
| JsonReceipts.JsonVerifiersAgree | src/node/receipt.cpp:112-141 | on every proof in JSON that the C++ verifier accepts, with hexadecimal digests, both compute the same root |
| JsonReceipts.ProofReadBack | src/node/receipt.cpp:104-141 | a proof written to JSON is read back as it was |
| JsonReceipts.BothKeys | src/node/receipt.cpp:120-128 | a step with both keys is rejected by C++ and read as a left one by Python; one with neither is rejected by both |
| TaskQueueTheorems.TasksRunInOrder | src/ds/thread_messaging.h:54-82 | in every interleaving tasks run in the order of their compare-exchange, once, and none that was pushed is lost, even if addresses are reused |
| TaskQueueAdders.TasksPushedOrInHand | src/ds/thread_messaging.h:74-82 | in every interleaving the tasks given to add_task are those pushed and those that threads are still adding |
| TaskQueueAdders.AdderPushes | src/ds/thread_messaging.h:74-82 | from every reachable state a thread in add_task, left alone, has pushed its own task and left after at most five steps |
| TaskQueueAdders.MessagesFreed | src/ds/thread_messaging.h:54-82 | in every interleaving as many messages are allocated as tasks were given and have not run |
| TaskQueueTheorems.NoDanglingAccess | src/ds/thread_messaging.h:54-82 | no step of any interleaving touches a freed message |
| TaskQueueTheorems.WorkerCatchesUp | src/ds/thread_messaging.h:54-72 | from every reachable state the worker alone runs everything pushed |
| TaskQueueTheorems.RelinkKeeps | src/ds/thread_messaging.h:169-185 | a step of the reversal in place keeps the three lists apart and the order in which they will run |
| Timers.TimerQueue.AddTaskAfter | src/ds/thread_messaging.h:109-120 | a timer is entered at its deadline, and the next time offset stays at or below the earliest |
| Timers.TimerQueue.CancelTimerTask | src/ds/thread_messaging.h:122-131 | the timer is removed exactly if it is there, with the same care for the next time offset |
| Timers.TimerQueue.Tick | src/ds/thread_messaging.h:133-155 | the loop ends, callbacks being finite data, and fires what `Ticked` says although they add and cancel timers; the next time offset may be anything if none is left |
| TimerTheorems.TickEnds | src/ds/thread_messaging.h:133-155 | after any run a tick ends, callbacks being finite data, fires in order of deadline and then of creation, even what its callbacks add, and leaves none due |
| TimerRuns.TicksAddUp | src/ds/thread_messaging.h:133-135 | after any run the clock shows the sum of what the ticks elapsed |
| TimerRuns.TimerFiresIff | src/ds/thread_messaging.h:109-155 | a timer added at any time with any delay and not cancelled has, after any further events, fired exactly if there was a tick and the ticks add up to the delay |
| TimerTheorems.TickFiresDue | src/ds/thread_messaging.h:133-155 | if nothing is added without delay, a tick fires exactly the due timers not cancelled by one firing before them, in order |
| TimerTheorems.SurvivorsExactly | src/ds/thread_messaging.h:139-149 | of timers due together one fires exactly if no earlier one that fires cancels it |
| TimerTheorems.TimersAccounted | src/ds/thread_messaging.h:109-155 | over any run each timer added has fired, was cancelled or is waiting, and only one of these |
| TimerTheorems.ChainFiresInOneTick | src/ds/thread_messaging.h:133-155 | callbacks added without delay that make one tick fire as many timers as one likes |
| TimerTheorems.TickInRounds | src/ds/thread_messaging.h:133-155 | a tick fires the survivors of the timers due when it begins, and then goes on as a tick at the same time would |
| TimerTheorems.TickFiresMoreIff | src/ds/thread_messaging.h:133-155 | after any run a tick fires more than those survivors exactly if they leave a timer due that they added |
| NodeConnections.NodeConnection.OnRead | src/host/node_connections.h:38-110 | the loop delivers the complete messages, keeps the unconsumed bytes and the length read, and names the node by its first message |
| NodeFraming.Resumes | src/host/node_connections.h:45-109 | parsing some bytes and then more with what was left is parsing them all, as long as messages fit their frames |
| NodeFraming.ChunkingIrrelevant | src/host/node_connections.h:45-109 | however a byte stream is cut into reads, a message that does not fit its frame is met or not, and if not, the messages and the rest are the same |
| NodeFraming.MisfitDependsOnCut | src/host/node_connections.h:66-80 | a stream on which reading throws or reads past a frame, depending on the cut |
| NodeFraming.MisfitThrowsIff | src/host/node_connections.h:45-109 | for every stream that fails and every cut, reading throws exactly if fewer bytes than a message's header have arrived after the frame's length with the read that completes the frame |
| NodeFraming.FramesDelivered | src/host/node_connections.h:38-110 | of frames and part of another exactly the whole ones are delivered and exactly the rest is kept |
| NodeFraming.NodeNamedOnce | src/host/node_connections.h:82-96 | however messages are spread over reads, the connection belongs to the node that the first names, from then on |
| NodeFraming.OutboundFramed | src/host/node_connections.h:320-375 | what goes out is the frame of the message with the announced ledger entries at its end |
| NodeFraming.OutboundLengthIff | src/host/node_connections.h:322-372 | the length that goes out is that of message and entries exactly if it fits four bytes |
| NodeReplication.AffixFailsIff | src/host/node_connections.h:327-338 | sending fails exactly for a consensus message too short for its type, or for the indices of one that appends entries |
| NodeReplication.EntriesReplicated | src/host/node_connections.h:38-375 | the receiver gets the sender's messages, in order, each with the entries of the sender's log that it announces, whatever the ledger does in between and however the stream is cut |
| ViewHistories.ViewHistory.Update | src/consensus/aft/impl/state.h:36-56 | refuses to move backwards, and otherwise enters the view and those skipped at the version |
| ViewHistories.ViewHistory.Initialise | src/consensus/aft/impl/state.h:26-34 | takes over a history exactly when it is in order, and stops before the first entry that is not |
| ViewHistories.ViewHistory.Rollback | src/consensus/aft/impl/state.h:113-117 | drops the views that start after the version |
| ViewHistories.UpdatedViews | src/consensus/aft/impl/state.h:36-69 | an update changes the view of its version and later ones, and of no earlier one |
| ViewHistories.RolledBackViews | src/consensus/aft/impl/state.h:58-117 | a rollback changes the view of no version up to its own |
| ViewHistories.ViewExtent | src/consensus/aft/impl/state.h:71-105 | the versions of a view are exactly those from its start to its end, but for the view of version 0 |
| ViewHistories.ViewHistory.FindHighestPossibleMatch | src/consensus/aft/raft.h:932-964 | the result is the highest version, within the log and the given one, whose view is not above the given one |
| ViewHistories.SearchEndsIff | src/consensus/aft/raft.h:942-955 | the search ends, from any version, exactly if the view of version 0 is not above the one searched for |
| TxStatuses.StatusIsFinal | include/ccf/tx_status.h:68-123 | in every run a Committed or Invalid status never changes, whatever is appended, rolled back or committed later |
| TxStatuses.StatusMeans | include/ccf/tx_status.h:68-123 | of any view above 0 and in any valid state: Committed is held up to the commit point, Pending held above it, Unknown not held but committed by some continuation, Invalid committed by none |
| TxStatuses.PendingIsHeld | include/ccf/tx_status.h:101-106 | a status is Pending exactly if committing up to that sequence number would make it Committed |
| TxStatuses.OneViewCommits | src/endpoints/base_endpoint_registry.cpp:20-46 | at most one view is ever Committed at a sequence number |
| TxStatuses.StatusAlwaysDefined | include/ccf/tx_status.h:79-85 | once the first version is committed in a known view no status query throws |
| TxStatuses.ViewZeroNotFinal | include/ccf/tx_status.h:68-123 | a run in which an identifier in view 0 goes from Invalid back to Pending |

## Left out

- Raft and the committers of the key-value store: consensus appears only as the steps on log, commit index and view history that transaction status depends on.
- Weak memory: the ring buffer and the task list are sequentially consistent step systems, in which a head cache may be arbitrarily stale.
- Overflow of 64-bit counters and offsets and of 32-bit file positions: indices are unbounded, and reopening a completed file asks for positions below the limit.
- Ledger directories: scanning, `init`, recovery files and their renaming, read-only directories and the asynchronous read job; runs start from an empty ledger at any base and an empty cache.
- Ledgers.Ledger.GetFileFromCache: looks in the ledger's own directory alone, and opening a file there does not fail.
- Ledgers.Ledger: its list of files holds chunks as values, as `LedgerFiles` keeps them in bytes, so sharing of file objects between the list and the cache is not captured.
- Ledger write failures, flushing and buffering: a file's bytes are what was written to it.
- ChampCorrect.PutCorrect: nodes are values, so editing in place on a private copy is not captured; old versions of a map are unchanged by construction.
- Bitmaps of the CHAMP nodes are sequences of 32 bits, not machine words.
- OversizedRing.RingMessagesArrive: what each writer has left in the ring buffer is a premise, which `OversizedSystem` discharges for writers cut into steps, and `WriterWritesJob`, `FinishWritesJob` and `OthersKeepJob` for the class.
- OversizedSystem.SystemMessagesArrive: a writer sends one message there, through two ring buffer writers of its own, as it reserves a fragment before it finishes the last; a thread that sends several is several of them. Positions stay below 2^64.
- Oversized messages over the non-blocking writer: the two are not composed; its queued path sets no identifier, and `RightIffApart` says when that matters.
- NonBlocking.NonBlockingWriter.WriteBytes: which memory a write outside all messages hits is not modelled.
- NonBlocking.Place: markers of the ring buffer and addresses of queued messages carry a tag, so that they never conflict, which the source assumes; queued buffers without bytes have the null address.
- NonBlockingRuns.Execute: asks for messages that the ring buffer would not refuse.
- NodeFraming.Resumes: what the source does once it reads past a frame is not modelled beyond the messages delivered before.
- Timers.TimerQueue.Tick: callbacks are finite data, so one that adds itself without end cannot be written down.
- ViewHistories.ViewHistory.FindHighestPossibleMatch: asks that the view of version 0 is not above the given one, without which the source's loop does not end.
- The hash function of the Merkle tree is any function with 32-byte results: a result holds or names the two inputs that collide.
- Transport, TLS, certificates, JSON beyond the dictionaries of a proof, endpoints and logging: glue around foreign libraries.

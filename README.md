# SimpleDB buffer pool and update-record undo, in Dafny

This project models two parts of SimpleDB's storage engine (nehakerkar/SimpleDB) and proves what they promise.

- **The basic buffer manager** (`BasicBufferMgr`). It has a fixed array of buffer frames. An index maps each block to the frame holding it. It also keeps the count of unpinned frames and the clock hand of a generalized-clock (GClock) replacement policy. The operations are pin, pinNew, unpin, flushAll, available, and the map lookups. Victims are chosen by GClock: the hand sweeps the pool at most five times. A pinned frame is skipped. An unpinned frame with reference credits loses one credit. An unpinned frame with no credits is the victim.
- **The UPDATE log record** (`UpdateRecord`). This covers the fields it writes to the log and how it is decoded from a log cursor. It also covers `op`, `txNumber` and its display text. Its `undo` pins a saved block, restores the frame's image from it, and unpins it.

Layout:

- `wrappers.dfy`: `Option` and `Result`, standing in for Java's `null` and thrown errors.
- `buffers.dfy`: blocks, disk writes and buffer frames as values. A frame is its block, pin count, reference value, modifying transaction and page image. It also has the effects of `flush` and `decrRefCount` on a frame.
- `gclock.dfy`: the victim search as a function `Scan(frames, hand, steps)`. The lemmas prove exactly when k sweeps fail and what a failed sweep leaves behind.
- `pool_spec.dfy`: the pool as a value `PoolState`, each operation as a function on it, and the invariant with the lemmas about them.
- `basic_buffer_mgr.dfy`: the class `BasicBufferMgr`. Its fields are those of the Java class, and its frames live in an array. Every method is proved to move `State()` exactly as its `PoolSpec` function says and to keep `Valid()`. `chooseUnpinnedBuffer` is the nested loop of the source, proved against `Scan`.
- `decimal.dfy`: the decimal text of an `int` and its inverse.
- `log_record.dfy`: the record, its log fields, the decoder, the display text and its inverse, and an in-memory log with `append`.
- `undo.dfy`: `undo` as a function of the pool and as a method on a `BasicBufferMgr`.

Java's `Buffer` references are frame slots here. `pin` and `pinNew` return `Some(slot)` or `None` (Java's `null`), and `unpin` takes a slot. Disk reads become parameters:

- the disk image of the block being loaded;
- the formatted page and the block number the file gives to an appended block;
- the saved image `restoreBlock` reads.

Disk writes are recorded in order in a trace. `defaultRefCount` (5 unless the server is started with another value, `simpledb/server/Startup.java:10-13`) is a constructor parameter.

Consequences of the policy that the lemmas make explicit:

- `GClock.GClockExhaustion` proves that k full sweeps fail exactly when every unpinned frame starts with at least k credits. After a failure, every unpinned frame has lost k credits and the hand is back where it started.
- The search makes 5 sweeps and a frame gets 5 credits when it is loaded or becomes free. So a search in which every unpinned frame was freshly loaded or freshly released always fails, even though frames are free (`PoolSpec.PinFailure`).

### Where the code departs from a textbook GClock (the model follows the code)

- After choosing a victim, the clock hand stays on the victim's slot. A textbook GClock advances the hand past the victim.
- A failed search is not free of side effects. Every unpinned frame has lost its 5 credits (`PoolSpec.ChooseUnpinnedSpec`, `frames == DecayAll(frames, PASSES)`), though pins, the index, the hand and the free count are unchanged.
- `undo` pins block `("SavedBlocks.txt", offset)`, not the record's own `(filename, blockNum)`. If that pin returns null, `restoreBlock` at line 50 is called on null and throws a `NullPointerException` before anything is restored; here that is the outcome `None` / `false`. `undo` reaches the pool through the `BufferMgr` wrapper, which is not modelled and may wait or abort before returning.

## Model

| member | source | states |
|---|---|---|
| Buffers.FlushTwice | simpledb/buffer/BasicBufferMgr.java:46-48 | a flushed frame is clean for every transaction, so flushing it again writes nothing and leaves it as it is |
| Buffers.DecayedCompose | simpledb/buffer/BasicBufferMgr.java:146-153 | a visits of the clock hand followed by b more leave a frame exactly as a + b visits do |
| GClock.Next | simpledb/buffer/BasicBufferMgr.java:155 | the hand moves to the next slot and wraps from the last slot to 0, staying in range |
| GClock.Scan | simpledb/buffer/BasicBufferMgr.java:143-159 | the search keeps the number of frames and the hand in range; a victim it returns is unpinned and has no credits |
| GClock.ScanOnlyDecays | simpledb/buffer/BasicBufferMgr.java:146-155 | the search never changes a pinned frame, never changes block, pins, dirtiness or contents, and only lowers credits |
| GClock.ScanSplit | simpledb/buffer/BasicBufferMgr.java:144-157 | a+b steps of the search are a steps followed by b more from where they stopped (unless a victim was found) |
| GClock.SweepRange | simpledb/buffer/BasicBufferMgr.java:145-156 | a sweep over slots [lo, hi) fails iff none of them is evictable; it then visits each once and leaves the hand at hi (0 at the end of the pool) |
| GClock.OneSweep | simpledb/buffer/BasicBufferMgr.java:145-156 | one full sweep from any hand position fails iff every unpinned frame has credits; it then decays each once and the hand returns to its start |
| GClock.DecayAllAgain | simpledb/buffer/BasicBufferMgr.java:144-157 | a failed sweep followed by k - 1 more decays every unpinned frame as k sweeps do, and they fail under the same condition |
| GClock.GClockExhaustion | simpledb/buffer/BasicBufferMgr.java:144-158 | k sweeps fail iff every unpinned frame starts with at least k credits; after a failure each unpinned frame has lost k and the hand is back at its start |
| GClock.ScanReaches | simpledb/buffer/BasicBufferMgr.java:145-151 | when no frame in [lo, p) is evictable and frame p is, the search from lo stops at p, having decayed each frame of [lo, p) once |
| GClock.ScanFindsFirst | simpledb/buffer/BasicBufferMgr.java:144-155 | the victim is the first evictable frame the hand reaches going round from its start; only the frames passed over change, each losing one credit if unpinned |
| GClock.FirstEvictableExists | simpledb/buffer/BasicBufferMgr.java:144-151 | as soon as one frame is evictable, there is a first evictable frame from any hand position |
| PoolSpec.Init | simpledb/buffer/BasicBufferMgr.java:31-37 | a new pool has numbuffs frames and satisfies the invariant |
| PoolSpec.ChooseUnpinned | simpledb/buffer/BasicBufferMgr.java:143-159 | the search keeps the pool size, the free count and the disk writes; a victim lies under the hand, unpinned and without credits; a failed search leaves the index as it was |
| PoolSpec.Pin | simpledb/buffer/BasicBufferMgr.java:60-72 | pin keeps the pool size; an indexed block always gets its own frame back; a returned frame holds blk, is pinned and is indexed under blk |
| PoolSpec.PinNew | simpledb/buffer/BasicBufferMgr.java:96-103 | pinNew keeps the pool size; a returned frame holds the new block with exactly one pin and the formatted page, and is indexed under it |
| PoolSpec.Unpin | simpledb/buffer/BasicBufferMgr.java:112-117 | unpin takes one pin off frame i and changes no other frame, the index or the disk writes |
| PoolSpec.FlushAll | simpledb/buffer/BasicBufferMgr.java:45-49 | after flushAll(t) no frame is dirty for t; the pool size, index and free count are unchanged |
| PoolSpec.CountZero | simpledb/buffer/BasicBufferMgr.java:135-137 | the count of unpinned frames is 0 iff every frame is pinned, and the pool size iff none is |
| PoolSpec.InitValid | simpledb/buffer/BasicBufferMgr.java:31-39 | a new pool has numbuffs fresh frames, all free, an empty index, the hand at 0, and satisfies the invariant |
| PoolSpec.ChooseUnpinnedSpec | simpledb/buffer/BasicBufferMgr.java:143-159 | the search keeps the invariant and every pin count; it fails iff every unpinned frame has at least 5 credits, and then leaves the index and hand unchanged; a victim is unpinned with no credits, the hand rests on it, and its old block is removed from the index (which frame is the victim: PoolSpec.ChooseUnpinnedFirst) |
| PoolSpec.ChooseUnpinnedFirst | simpledb/buffer/BasicBufferMgr.java:143-155 | when some unpinned frame has no credits, chooseUnpinnedBuffer returns the first such frame the hand reaches, in the first sweep; the frames passed over lose one credit if unpinned, all others are unchanged, the hand rests on the victim and only its old block leaves the index |
| PoolSpec.ChooseUnpinnedKeepsInv | simpledb/buffer/BasicBufferMgr.java:146-155 | the search keeps the invariant, the free count, the disk writes, and everything in each frame but its credits |
| PoolSpec.ChooseUnpinnedOutcome | simpledb/buffer/BasicBufferMgr.java:144-158 | when the search fails and what it leaves; what a victim looks like and that only its block leaves the index |
| PoolSpec.UnmapKeepsCoherent | simpledb/buffer/BasicBufferMgr.java:149 | removing the victim's block from the index leaves every other cached block indexed to its frame |
| PoolSpec.AssignKeepsInv | simpledb/buffer/BasicBufferMgr.java:66-67 | loading a block into an unpinned, unindexed victim (after flushing it) keeps the invariant |
| PoolSpec.PinFrameKeepsInv | simpledb/buffer/BasicBufferMgr.java:69-72 | pinning a frame that holds blk and indexing blk to it keeps the invariant, including the free count |
| PoolSpec.PinKeepsInv | simpledb/buffer/BasicBufferMgr.java:60-72 | pin keeps the invariant, and keeps the index complete when it was |
| PoolSpec.PinHit | simpledb/buffer/BasicBufferMgr.java:60-72 | pinning an indexed block returns its frame with one more pin, runs no search and writes nothing; the free count drops only if the frame was unpinned |
| PoolSpec.PinSuccess | simpledb/buffer/BasicBufferMgr.java:69-72 | after a successful pin the returned frame holds blk, has one more pin than before, the index maps blk to it, and the free count is adjusted accordingly |
| PoolSpec.PinFailure | simpledb/buffer/BasicBufferMgr.java:60-65 | pin returns null iff blk is not indexed and every unpinned frame has at least 5 credits; it then assigns nothing and writes nothing, and keeps the index, hand, free count and pins |
| PoolSpec.PinAllPinnedFails | simpledb/buffer/BasicBufferMgr.java:60-65 | with every frame pinned, pinning an unindexed block returns null |
| PoolSpec.PinNewSpec | simpledb/buffer/BasicBufferMgr.java:96-106 | pinNew keeps the invariant; it fails iff the search does and then allocates and writes nothing; on success the new block is indexed to a frame with one pin, the free count drops by one, and the formatted page is the last disk write |
| PoolSpec.PinNewKeepsInv | simpledb/buffer/BasicBufferMgr.java:96-106 | pinNew keeps the invariant: the victim is flushed, loaded with the new block and pinned once, and the free count drops by one |
| PoolSpec.PinNewOutcome | simpledb/buffer/BasicBufferMgr.java:96-106 | pinNew returns null iff every unpinned frame has at least 5 credits, and then writes, indexes and frees nothing; otherwise the new block is indexed to a frame with one pin and its formatted page is the last disk write |
| PoolSpec.PinNewKeepsCoherent | simpledb/buffer/BasicBufferMgr.java:96-106 | when the new block was not cached, every cached block stays indexed to its frame after pinNew |
| PoolSpec.PinMissKeepsCoherent | simpledb/buffer/BasicBufferMgr.java:63-72 | loading a block that was not indexed leaves every cached block indexed to its frame |
| PoolSpec.UnpinSpec | simpledb/buffer/BasicBufferMgr.java:112-117 | unpin keeps the invariant and the index; the pin count drops by one, and only when it reaches 0 does the free count rise and the credits reset to the default |
| PoolSpec.PinTwiceUnpinTwice | simpledb/buffer/BasicBufferMgr.java:60-117 | pinning a block twice returns the same frame; one unpin leaves it pinned, and the second restores its pin count and the free count |
| PoolSpec.DirtyWritesCount | simpledb/buffer/BasicBufferMgr.java:45-49 | flushAll(t) writes exactly as many images as there are frames dirtied by t |
| PoolSpec.DirtyWritesFromDirty | simpledb/buffer/BasicBufferMgr.java:46-48 | every image flushAll(t) writes is the page of a frame dirtied by t, written to the block that frame holds |
| PoolSpec.FlushAllIdempotent | simpledb/buffer/BasicBufferMgr.java:45-49 | after flushAll(t) no frame is dirty for t, so a second flushAll(t) writes nothing and changes nothing |
| PoolSpec.FlushAllKeepsInv | simpledb/buffer/BasicBufferMgr.java:45-49 | flushAll keeps the pool invariant |
| PoolSpec.FlushAllSpec | simpledb/buffer/BasicBufferMgr.java:45-49 | flushAll(t) cleans exactly the frames dirtied by t, leaves all others, the index, hand and free count, and keeps the invariant |
| PoolSpec.IndexedIffCached | simpledb/buffer/BasicBufferMgr.java:167-169 | with a complete index, a block is indexed iff some frame holds it |
| PoolSpec.NoDuplicateBlocks | simpledb/buffer/BasicBufferMgr.java:60-72 | with a complete index, no two frames hold the same block |
| PoolSpec.RestoreSpec | simpledb/tx/recovery/UpdateRecord.java:50 | restoreBlock changes only the page image of one frame and keeps the invariant |
| BufferPool.BasicBufferMgr.constructor | simpledb/buffer/BasicBufferMgr.java:31-39 | the new manager's state is numbuffs fresh frames, all available, an empty map, the clock at 0 |
| BufferPool.BasicBufferMgr.FlushAll | simpledb/buffer/BasicBufferMgr.java:45-49 | the loop flushes exactly as PoolSpec.FlushAll says and keeps the invariant |
| BufferPool.BasicBufferMgr.Pin | simpledb/buffer/BasicBufferMgr.java:60-85 | the method's new state and result are PoolSpec.Pin of the old state, and the invariant holds |
| BufferPool.BasicBufferMgr.PinNew | simpledb/buffer/BasicBufferMgr.java:96-106 | the method's new state and result are PoolSpec.PinNew of the old state, and the invariant holds |
| BufferPool.BasicBufferMgr.Unpin | simpledb/buffer/BasicBufferMgr.java:112-129 | the method's new state is PoolSpec.Unpin of the old state, and the invariant holds |
| BufferPool.BasicBufferMgr.Available | simpledb/buffer/BasicBufferMgr.java:135-137 | the returned count is the number of unpinned frames, between 0 and the pool size |
| BufferPool.BasicBufferMgr.FindExistingBuffer | simpledb/buffer/BasicBufferMgr.java:139-141 | returns a frame iff blk is in the map, and that frame holds blk |
| BufferPool.BasicBufferMgr.ChooseUnpinnedBuffer | simpledb/buffer/BasicBufferMgr.java:143-159 | from any clock position in range, the nested loop ends in exactly the state and result of the GClock search function |
| BufferPool.BasicBufferMgr.ContainsMapping | simpledb/buffer/BasicBufferMgr.java:167-169 | true iff blk is in the map; then some frame holds blk, and with a complete index the converse holds |
| BufferPool.BasicBufferMgr.GetMapping | simpledb/buffer/BasicBufferMgr.java:176-178 | non-null iff containsMapping holds; the frame it returns holds blk |
| BufferPool.BasicBufferMgr.RestoreBlock | simpledb/tx/recovery/UpdateRecord.java:50 | the frame's page becomes the saved image, nothing else changes, and the invariant holds |
| Decimal.DigitsRoundTrip | simpledb/tx/recovery/UpdateRecord.java:43 | the decimal digits written for a number read back to that number |
| Decimal.IntRoundTrip | simpledb/tx/recovery/UpdateRecord.java:43 | the text of every int, negative or not, parses back to it and has no space |
| Decimal.IntToStringInjective | simpledb/tx/recovery/UpdateRecord.java:43 | different ints have different texts |
| LogRecords.UpdateRecord.Op | simpledb/tx/recovery/UpdateRecord.java:36-38 | op() is the tag writeToLog writes as the record's first field |
| LogRecords.UpdateRecord.TxNumber | simpledb/tx/recovery/UpdateRecord.java:39-41 | txNumber() is the field writeToLog writes just after the tag |
| LogRecords.Fields | simpledb/tx/recovery/UpdateRecord.java:33 | the record's five fields decode, from just past the tag, back to the record with the cursor at their end |
| LogRecords.Decode | simpledb/tx/recovery/UpdateRecord.java:25-31 | a successful decode consumes exactly four fields, all inside the log; a failure names a position among those four |
| LogRecords.DecodeSpec | simpledb/tx/recovery/UpdateRecord.java:25-31 | decoding succeeds iff four fields of kinds int, string, int, int follow the cursor; it then consumes exactly those four and the record holds their values; otherwise it fails at the first missing or mistyped one |
| LogRecords.EncodeDecode | simpledb/tx/recovery/UpdateRecord.java:16-35 | wherever the record's fields sit in the log, the first is its op tag, and decoding after it returns the same txnum, filename, blockNum and offset, with the cursor just past them |
| LogRecords.DecodeEncode | simpledb/tx/recovery/UpdateRecord.java:25-33 | a record decoded after an UPDATE tag re-encodes to exactly the fields it was read from |
| LogRecords.OpAndTxNumber | simpledb/tx/recovery/UpdateRecord.java:36-41 | op() is UPDATE, which writeToLog writes first; txNumber() of a decoded record is the transaction field it was read from |
| LogRecords.ToString | simpledb/tx/recovery/UpdateRecord.java:42-44 | the display text starts with "<UPDATE " and ends with '>' |
| LogRecords.SplitDisplayParts | simpledb/tx/recovery/UpdateRecord.java:43 | the first word, the last word and the word before it are cut back out of the joined text, whatever the file name between them contains |
| LogRecords.DisplayRoundTrip | simpledb/tx/recovery/UpdateRecord.java:42-44 | the display text of every record, whatever its file name, reads back to the same record |
| LogRecords.ToStringInjective | simpledb/tx/recovery/UpdateRecord.java:42-44 | two records with equal display texts are the same record |
| LogRecords.LogMgr.Append | simpledb/tx/recovery/UpdateRecord.java:34 | the log grows by exactly the appended fields, and the position returned is where they start |
| LogRecords.WriteToLog | simpledb/tx/recovery/UpdateRecord.java:32-35 | writeToLog appends exactly the five fields [UPDATE, txnum, filename, blockNum, offset]; the returned position holds the tag, and decoding past it gives the record back |
| Recovery.Undo | simpledb/tx/recovery/UpdateRecord.java:46-52 | after a successful undo, the frame it used holds ("SavedBlocks.txt", offset) with the saved image |
| Recovery.UndoSpec | simpledb/tx/recovery/UpdateRecord.java:46-52 | undo fails iff its pin does; on success the frame holds ("SavedBlocks.txt", offset) with the saved image; its pin count and the free count are back where they were; its credits are reset only if it ends unpinned; the invariant holds |
| Recovery.UndoKeepsInv | simpledb/tx/recovery/UpdateRecord.java:46-52 | pin, restore and unpin keep the pool invariant, and keep the index complete when it was |
| Recovery.UndoRestores | simpledb/tx/recovery/UpdateRecord.java:48-51 | after a successful undo the frame holds ("SavedBlocks.txt", offset) with the saved image, its pin count and the free count are as before, and its credits are reset only if it ends unpinned |
| Recovery.UndoRecord | simpledb/tx/recovery/UpdateRecord.java:46-52 | pin, restore and unpin on the manager leave exactly the state of Recovery.Undo, and report whether the pin succeeded |

## Left out

- The `System.out.println` dumps in the constructor, `pin`, `unpin` and `chooseUnpinnedBuffer` are left out: they are output only. Among them is the "available" figure `length - map.size()`, which is not the free count.
- The unused field `glocknumAvailable` is left out.
- `synchronized` and concurrent callers are not modelled. Each method is one atomic step on the pool.
- `Buffer.java` is not part of this model. A frame is its block, pins, reference value, modifying transaction and page. A new `Buffer()` is taken to have no block, no pins, no credits, no modifier and an empty page.
- `Buffer.flush` is a recorded disk write. Forcing the log up to the frame's LSN is not modelled, because the log manager is not part of this model.
- `assignToBlock`'s disk read, the formatter in `assignToNew` and the file append are parameters of `Pin` and `PinNew`. So is the saved image that `restoreBlock` reads.
- Page sizes and layouts are not modelled.
- `assignToNew` is taken to leave the frame's credits as they are. The victim has none.
- Marking a frame modified (`setModified`) is outside this core, so no modelled operation makes a frame dirty. The flushAll lemmas hold for any dirty frames an invariant-satisfying pool may hold.
- The modifying transaction is `Option<int>`; Java's `-1` for "none" becomes `None`.
- Buffers.FRESH_BUFFER: a fresh frame's initial credits are taken as 0 and its page as empty, because `Buffer.java` is not part of this model.
- BufferPool.BasicBufferMgr.Unpin: requires the frame to be pinned. The source does not check this. Unpinning an unpinned buffer would drive its pin count negative, which this model does not represent.
- PoolSpec.Unpin: the same requirement as `BasicBufferMgr.Unpin`.
- BufferPool.BasicBufferMgr.constructor: `numbuffs` is a `nat`, so a negative size, for which Java throws `NegativeArraySizeException` at line 32, is not represented.
- Java `int` arithmetic is unbounded here. Pin counts, the free count, transaction numbers, block numbers and offsets never wrap around at 32 bits.
- A caller holding a `Buffer` object is modelled as holding its slot. Aliasing between callers' references is not represented.
- LogRecords.UPDATE: `LogRecord.java` is not part of this model. The numeric value 6 of the tag is an assumption. No property depends on its value.
- The log manager and `BasicLogRecord` are an in-memory sequence of typed fields with an index as the cursor. `append` returns the position of the record's first field in place of an LSN.
- Reading the log backwards, dispatching on other record kinds, and the other log record kinds are out of this core.
- Recovery.UndoRecord: `undo` goes through `SimpleDB.bufferMgr()`, a `BufferMgr`; `BufferMgr.java` and `SimpleDB.java` are not part of this model, so the method calls `BasicBufferMgr` directly, and any waiting or retrying the wrapper does when a pin fails is not modelled.
- Recovery.UndoRecord: its `txnum` parameter is unused, as in the source. The "SavedBlocks.txt" side store and how its images are captured are outside this core.
- `simpledb/server/Startup.java` is not modelled beyond its default reference count, which is a constructor parameter. The rest of it is RMI registry setup and argument parsing.

# Horreum, verified

Horreum is a sharded in-memory store: values live as blobs in mapped arenas, an
open-addressing index per shard maps keys to blob handles, an S3-FIFO policy
picks what to evict, a write-ahead log and checkpoints make the handles durable,
values can be LZ4-compressed, and clients speak a length-prefixed binary
protocol. This project models that logic in Dafny and proves what it is for.
`dafny verify dfyconfig.toml` checks all of it.

| file | what it models |
|---|---|
| `Bytes` | bytes, truncating little-endian integers, handles, slices |
| `Lz4Format`, `Lz4Decoder`, `Lz4Accept`, `Lz4Encoder`, `Lz4Greedy`, `Lz4Codec` | the LZ4 block codec, what its decoder accepts and which matches its encoder finds, by the sections "Compressed block format" and "Matches" of the LZ4 Block Format Description |
| `Probing`, `ShardIndex`, `ShardScan` | linear probing with backward-shift deletion; the shard index; cursor scans over shards |
| `HashIndex`, `Powers` | the index that recovery fills and checkpoints list; rounding its capacity up to a power of two |
| `Allocator`, `AllocatorRuns`, `Arena` | the region allocator, sequentially and under interleaving; the multi-region blob store |
| `Wal`, `WalLog`, `Checkpoint`, `Superblock`, `Recovery`, `Machine`, `Persist`, `SmallRegions` | log, checkpoint, superblock, and crash recovery over whole runs; values, superblock and checkpoint share one file; the store at work, with the placements of its allocator and the limit of its log; how small a region may be |
| `RingBuffer`, `S3Fifo` | eviction rings and the S3-FIFO policy |
| `ShardWorker` | the worker queue as a concurrent state machine |
| `Protocol` | request frames and the streaming parser |
| `Packed`, `Lists`, `Sets`, `Hashes` | packed list, set and hash payloads |
| `Formats` | each byte format, spelled out on an example |

The hash functions are arbitrary functions, time is a parameter, and whether the
ghost index knows a key is a parameter. Code that updates in place is modelled by
classes and methods with loops, each proved against a function or a map; the
theorems are about those.

Main results:

- LZ4: for every input and every hash, decompressing what was compressed gives the
  input back, the output fits the reserved buffer, and the decoder's result does not
  depend on what the buffer held before. The decoder accepts exactly the blocks of the
  format, with three liberties at the end. The encoder takes a match at a position exactly
  when the last position it remembers with the same hash shows the same four bytes within
  64 KiB, and every match is as long as can be.
- The shard index is a map from keys to handles with expiry over every run; prefix
  deletion removes exactly the matching keys although deletion moves entries; an expiry
  scan leaves no expired key where it found it; scanning by cursors lists every matching
  key once.
- Recovery finds the acknowledged handles after any run of writes, refused and torn
  writes, checkpoints interrupted at any stage, and restarts, for regions from 16 KiB
  less 14 bytes on. Values and checkpoint share a file: over the runs that the allocator
  and the log limit allow, the store is durable exactly from that size on, and in every
  smaller region four operations lose a key. Expiry times come back exactly for the keys
  put since the last checkpoint.
- In every interleaving of allocations and frees, blocks are disjoint, aligned, in
  bounds, and account for every byte below the bump pointer; a thread is refused only when
  no place is left, for good, and tries again only when another thread got a block.
- The arena returns the bytes that were put, whatever else was put, freed or, from that
  size on, checkpointed in between.
- Eviction loses and duplicates no handle that entered the queues; which handle is given
  back and which is promoted follows from the touches; a second chance is granted
  boundedly often.
- The worker handles jobs in order, at most once, and cancels only after it has stopped
  running; which accepted jobs are never handled is characterised exactly.
- The parser does not see how the stream was cut.
- Packed payloads refine sequences, sets and maps over every run.

Where the code does not do what one would expect, the model keeps the code and
states exactly when it does:

- A touch at the top frequency wraps to zero; `docs/internals.md` line 977 says the two
  bits saturate (`S3Fifo.TouchRaises`).
- A log record's key must be shorter than 65536 bytes (`Wal.ReadsBack`); the comment on
  DEL headers says 12 bytes, the code uses 11.
- A checkpoint drops expiry times and the high byte of Meta (`Checkpoint.SnapshotExact`),
  so after a restart a key put before the last checkpoint does not expire
  (`Machines.RestartKeepsExpiry`).
- Log repair does not look at the magic of a record, reading does (`Wal.ReadOrRepair`).
- The LZ4 decoder accepts a block that ends after a match, does not look at the match half
  of the last token, and accepts match length bytes that break off
  (`Lz4Accept.AcceptsExactly`).
- An expiry scan can pass over an expired entry that a deletion moves into the slot just
  left (`ShardIndexes.PassedOver`); turn by turn, `ShardIndexes.ShardIndex.DeleteExpired`
  says what goes.
- A scan cursor has 16 bits for the shard, so only the first 65536 shards are listed
  (`ShardScan.ShardSet.ScanEverything`).
- The size formula of the reserved prefix covers superblock and checkpoint exactly from
  16 KiB regions on (`Superblocks.PrefixCovers`). Objects start at the next multiple of
  eight, so they are clear of both already 14 bytes earlier, and the store is durable
  exactly from there on (`Superblocks.ObjectsClear`, `SmallRegions.DurableExactly`,
  `SmallRegions.LosingRun`, `SmallRegions.AlwaysLost`, `Arena.CheckpointHits`).
- Removing a handle from the eviction queues only marks its slot dead, and eviction does
  not look at the mark. A removed handle is handed back exactly when it would have been
  without the removal, or queued as alive again (`S3Fifo.RemovalUnseen`,
  `S3Fifo.RemovedHandedBack`, `S3Fifo.RemovedAlive`).
- Loading a checkpoint does not grow the index. It ends exactly when there is a slot for
  each key, and absent keys can be searched for afterwards exactly when a slot is left
  (`Persist.LoadEndsExactly`, `HashIndexes.ProbeEndsExactly`).
- Storing over an entry of the hash index keeps the caller's slice, and a nil slice marks
  the slot empty (`HashIndexes.NilKeyExact`).
- Rounding an allocation up overflows above 2^32 - 8; such a request is given a place for
  no bytes (`Allocators.AllocSizeCovers`, `AllocatorRuns.WrappedKeeps`).
- Deleting a hash field leaves its value's bytes behind (`Hashes.DeleteExact`,
  `Hashes.DeleteDecodes`, `Hashes.DeleteLoses`).
- Pushing at the back of an empty list fails (`Lists.PushBackExact`).
- A job submitted while the worker exits can be accepted and never handled
  (`ShardWorker.HandledIffEarly`, `ShardWorker.LateSubmit`).

## Model

| member | source | states |
|---|---|---|
| `Lz4Format.CopyMatch` | internal/compress/lz4.go:341-352 | a match copy extends the output so that every new byte repeats the one `offset` before it, overlaps included |
| `Lz4Format.CopyMatchRebuilds` | internal/compress/lz4.go:341-352 | where the input repeats itself, copying the match rebuilds it |
| `Lz4Format.SequenceSize` | internal/compress/lz4.go:163-196 | one sequence costs at most its length plus a 255th: the amortised step of the size bound |
| `Lz4Format.BlockSize` | internal/compress/lz4.go:74-79 | a block of length n takes at most n + n/255 + 2 bytes |
| `Lz4Decoder.ReadsExtension` | internal/compress/lz4.go:289-300 | reading 255-extended lengths inverts writing them |
| `Lz4Decoder.DecodesBlock` | internal/compress/lz4.go:278-356 | decoding the bytes of any well-formed block gives the block's meaning |
| `Lz4Decoder.ReadLengthBytes` | internal/compress/lz4.go:289-300 | the length loop reads exactly the encoded length and stops after it |
| `Lz4Decoder.CopyOverlapping` | internal/compress/lz4.go:347-352 | the copy loop is the byte-by-byte match copy of what was written before |
| `Lz4Decoder.DecodeMatch` | internal/compress/lz4.go:317-352 | one match step: rejects exactly what the decoder specification rejects, otherwise continues it |
| `Lz4Decoder.DecompressBlock` | internal/compress/lz4.go:278-356 | terminates on all bytes, stays in bounds, and its result is a function of source and size alone: stale buffer bytes are never read |
| `Lz4Accept.AcceptedSpells` | internal/compress/lz4.go:278-356 | whatever the decoder accepts is sequences and an end of the format, and the result is their meaning |
| `Lz4Accept.SpelledAccepted` | internal/compress/lz4.go:278-356 | and every such byte string whose meaning fits the room is accepted |
| `Lz4Accept.AcceptsExactly` | internal/compress/lz4.go:278-356 | so the decoder accepts exactly those, and rejects everything else |
| `Lz4Encoder.MatchIsMaximal` | internal/compress/lz4.go:233-239 | the match length is the longest repetition |
| `Lz4Encoder.ParseMeans` | internal/compress/lz4.go:133-228 | for any hash, the sequences the match finder emits are well-formed and mean the input |
| `Lz4Encoder.RoundTrip` | internal/compress/lz4.go:133-356 | decoding the encoded parse gives the input, within n + n/255 + 16 bytes |
| `Lz4Encoder.AppendLen` | internal/compress/lz4.go:262-269 | appends exactly the 255-extension of a length |
| `Lz4Encoder.EmitSequence` | internal/compress/lz4.go:163-196 | appends exactly token, lengths, literals and offset of a sequence |
| `Lz4Encoder.CountMatch` | internal/compress/lz4.go:233-239 | the counting loop finds the maximal extension |
| `Lz4Encoder.Turn` | internal/compress/lz4.go:146-207 | one turn of the main loop: a hit emits its sequence, a miss moves on, the table remembers the position |
| `Lz4Encoder.CompressBlock` | internal/compress/lz4.go:133-228 | writes exactly the encoded parse behind the prefix, and never past the reserved n + n/255 + 16 bytes |
| `Lz4Greedy.FindsExactly` | internal/compress/lz4.go:146-207 | at every position no match runs over, a match starts exactly when the last remembered position with the same hash is not 0, less than 65536 back and shows the same four bytes, and then it refers to that |
| `Lz4Greedy.MatchesAreLongest` | internal/compress/lz4.go:163-207 | every match repeats what is its offset back, and ends where that ends |
| `Lz4Greedy.PeriodIsOneMatch` | internal/compress/lz4.go:133-228 | an input of period p whose windows have slots of their own is p + 1 literals and one match |
| `Lz4Greedy.PeriodSize` | internal/compress/lz4.go:133-228 | and takes at most p + 7 bytes and a 255th of its length |
| `Lz4Codec.RoundTrips` | internal/compress/lz4.go:68-112 | decompressing compressed bytes gives the input, size prefix included |
| `Lz4Codec.Lz4.Compress` | internal/compress/lz4.go:68-89 | succeeds exactly on inputs within limits that shrink; a success decompresses to the input; what shrinks follows from `Lz4Greedy.FindsExactly` |
| `Lz4Codec.RepetitionShrinks` | internal/compress/lz4.go:68-89 | every input of at least 64 bytes with a period below 65536 that repeats twice, its windows in slots of their own, gets shorter |
| `Lz4Codec.Lz4.Decompress` | internal/compress/lz4.go:93-112 | the result is that of the decoder specification, with short and oversized inputs refused |
| `Lz4Codec.DecompressExactly` | internal/compress/lz4.go:93-112 | which of the errors comes when, and that a value comes exactly from a block of the announced length |
| `Probing.MaskIsRemainder` | internal/transport/transport.go:648-655 | masking with capacity - 1 is the remainder, for a power-of-two capacity |
| `Probing.AbsentAt` | internal/transport/transport.go:673-690 | an empty slot met on the way from a key's home proves the key absent |
| `Probing.InsertKeeps` | internal/transport/transport.go:648-671 | storing a key at the end of its probe keeps the table searchable |
| `Probing.MustMoveIsOnPath` | internal/transport/transport.go:698-712 | the shift condition with its two wraparound cases holds exactly when the gap lies on the entry's probe path |
| `Probing.ShiftMove` | internal/transport/transport.go:698-712 | moving an entry into the gap keeps every other entry reachable up to the new gap |
| `Probing.ShiftEnd` | internal/transport/transport.go:698-712 | at the next empty slot the table is searchable again |
| `Probing.DetourMove` | internal/transport/transport.go:692-715 | a move brings no key in front of the deleted slot, also across the end of the table |
| `Probing.NearerMoved` | internal/transport/transport.go:698-712 | a move brings the key towards its home |
| `Probing.NeverBack` | internal/transport/transport.go:692-715 | a key that has left its slot never comes back to it |
| `ShardIndexes.Probe` | internal/transport/transport.go:653-670 | the probe loop ends, at the key's slot or at the empty slot where it belongs |
| `ShardIndexes.ShardIndex.constructor` | internal/transport/transport.go:638-646 | 64 empty slots, the empty map |
| `ShardIndexes.ShardIndex.Put` | internal/transport/transport.go:648-671 | the map with the key set; returns the old handle; grows at three quarters, and a quarter of the slots stays empty |
| `ShardIndexes.ShardIndex.Grow` | internal/transport/transport.go:735-751 | twice the slots, the same map, and no insertion grows again |
| `ShardIndexes.ShardIndex.Get` | internal/transport/transport.go:673-690 | finds exactly the keys present and not expired |
| `ShardIndexes.ShardIndex.DeleteAt` | internal/transport/transport.go:692-715 | removes exactly the slot's key from the map; moves no key in front of the slot; every other key stays or moves towards its home |
| `ShardIndexes.ShardIndex.ShiftBack` | internal/transport/transport.go:698-714 | the shifting loop ends and leaves the table searchable with the same entries |
| `ShardIndexes.ShardIndex.Delete` | internal/transport/transport.go:717-733 | the map without the key; returns its handle |
| `ShardIndexes.ShardIndex.DeleteExpired` | internal/transport/transport.go:753-773 | looks at the slots of its window one by one and removes a key exactly when its slot holds an expired one in that turn, by the tables it goes through; returns each one's handle once; no slot of the window still holds the expired key it held; nothing goes exactly when no slot of the window holds an expired entry, and the first to go is in the first slot that does |
| `ShardIndexes.PassedOver` | internal/transport/transport.go:753-773 | two expired keys of one home: the first goes, the second moves into its slot and stays |
| `ShardIndexes.ShardIndex.DeletePrefix` | internal/transport/transport.go:808-829 | removes exactly the keys with the prefix, and returns each key and handle once, although deletion moves entries |
| `ShardScan.Run` | internal/transport/transport.go:648-733 | over every run of put, get and delete, the answers are those of a map with expiry |
| `ShardScan.ScanPrefix` | internal/transport/transport.go:775-806 | one page: the live matching keys from the cursor to where it stopped, at most `limit`, and full when there is a next cursor |
| `ShardScan.BetweenSplit` | internal/transport/transport.go:775-806 | pages that meet at a cursor list together what one scan lists |
| `ShardScan.PageStep` | internal/transport/transport.go:964-993 | a page through the packed 16/48-bit cursor continues the listing where the last one stopped |
| `ShardScan.UptoExact` | internal/transport/transport.go:964-993 | the listing holds exactly the live matching keys of its shards, without duplicates |
| `ShardScan.ShardSet.Scan` | internal/transport/transport.go:964-993 | unpacks the cursor, scans one shard, and packs the cursor of the rest or of the next shard |
| `ShardScan.ShardSet.ScanAll` | internal/transport/transport.go:964-993 | following cursors from zero until zero ends, and lists the shards in order |
| `ShardScan.ShardSet.ScanEverything` | internal/transport/transport.go:932-993 | that listing holds every live matching key of every shard a cursor can name, each once |
| `Powers.NextPowerIsNext` | internal/index/index.go:310-322 | filling the bits below the top one gives the next power of two, exactly up to 2^63 |
| `Powers.SmearFills` | internal/index/index.go:314-320 | each shift doubles how far the bits reach, so six fill 64 |
| `HashIndexes.HashIndex.constructor` | internal/index/index.go:31-38 | an empty table of the next power of two of slots |
| `HashIndexes.ProbeBuckets` | internal/index/index.go:46-66 | comparing hash, length and bytes finds the key's slot, or the empty slot where it belongs; ends when there is one of the two |
| `HashIndexes.ProbeEndsExactly` | internal/index/index.go:70-85 | a search ends exactly when a slot is empty or the key is there |
| `HashIndexes.NilKeyExact` | internal/index/index.go:58-64 | storing over an entry goes well exactly when the slice is not nil |
| `HashIndexes.HashIndex.Put` | internal/index/index.go:42-67 | the map with the key set, from any table, full ones included; grows at three quarters |
| `HashIndexes.HashIndex.Get` | internal/index/index.go:70-85 | finds exactly the keys present and not expired |
| `HashIndexes.HashIndex.Add` | internal/index/index.go:157-173 | adds without growing, also into the last slot; a key already there keeps its entry |
| `HashIndexes.HashIndex.Grow` | internal/index/index.go:175-189 | twice the slots, the same map |
| `Probing.ClosingMove` | internal/index/index.go:92-106 | in a table that was full the shifting loop can go round more than once; every move brings keys closer to home |
| `Probing.ShiftAround` | internal/index/index.go:92-106 | once around without a move, the table is searchable |
| `HashIndexes.HashIndex.DeleteAt` | internal/index/index.go:87-107 | removes exactly the slot's key, by the remembered hashes, and ends on full tables too |
| `HashIndexes.HashIndex.Delete` | internal/index/index.go:110-124 | the map without the key; returns its handle |
| `HashIndexes.HashIndex.Snapshot` | internal/index/index.go:137-148 | lists every entry of the map exactly once, each with its key's hash |
| `Allocators.SizeClassIsSmallest` | internal/arena/allocator.go:55-90 | the class is the smallest that holds the request |
| `Allocators.AllocSizeCovers` | internal/arena/allocator.go:122-128 | the block covers the request exactly up to 2^32 - 8 bytes |
| `Allocators.AllocSizeTight` | internal/arena/allocator.go:122-128 | and is less than twice the request up to 8 KiB, or 8 bytes, and less than 8 bytes more above |
| `Allocators.Apart` | internal/arena/allocator.go:102-153 | blocks of a tiled heap are disjoint, aligned, and between start and bump pointer |
| `Allocators.Conserved` | internal/arena/allocator.go:102-153 | the bump pointer is the aligned start plus live, free and abandoned bytes |
| `Allocators.PopSound` | internal/arena/allocator.go:109-120 | popping a freelist makes one free block live and changes nothing else |
| `Allocators.ReleaseSound` | internal/arena/allocator.go:144-153 | freeing makes one live block free, or abandons a large one, and changes nothing else |
| `Allocators.BumpSound` | internal/arena/allocator.go:122-140 | bumping adds one live block behind all others |
| `AllocatorRuns.AllocateGives` | internal/arena/allocator.go:102-141 | an allocation gives a block that was not live and covers the request; a refusal changes nothing and means there is no room |
| `AllocatorRuns.AllocateExact` | internal/arena/allocator.go:102-141 | refused exactly when no block of the class is free and no multiple of eight leaves room; a free block is used again first |
| `AllocatorRuns.WrappedKeeps` | internal/arena/allocator.go:122-140 | a request whose rounding overflows changes no block and is given a place that is none |
| `AllocatorRuns.Allocator.constructor` | internal/arena/allocator.go:39-45 | an empty sound heap |
| `AllocatorRuns.Allocator.Skip` | internal/arena/allocator.go:50-52 | everything allocated later lies above the skipped prefix |
| `AllocatorRuns.Allocator.Alloc` | internal/arena/allocator.go:102-141 | refines the allocation function, or the overflowing one, and keeps the heap sound |
| `AllocatorRuns.Allocator.Free` | internal/arena/allocator.go:144-153 | refines the release of a live block and keeps the heap sound |
| `AllocatorRuns.StepKeeps` | internal/arena/allocator.go:102-153 | every atomic step of any thread (freelist pop, offset load, compare-and-swap, free) keeps the invariant, and a completed allocation gives a fresh block |
| `AllocatorRuns.FailureIsProgress` | internal/arena/allocator.go:130-140 | a compare-and-swap that fails was overtaken by another allocation |
| `AllocatorRuns.ListExact` | internal/arena/allocator.go:109-120 | a thread goes on to the bump exactly when no block of its class is free |
| `AllocatorRuns.SwapExact` | internal/arena/allocator.go:130-140 | a compare-and-swap refuses exactly when no place is left above what was read, tries again exactly when overtaken while one is, and otherwise takes it |
| `AllocatorRuns.RefusedForGood` | internal/arena/allocator.go:130-140 | in every interleaving, after a refusal no later state has a place for the request |
| `AllocatorRuns.LostRace` | internal/arena/allocator.go:130-140 | in every interleaving, between the load and a swap that fails another thread got a block |
| `AllocatorRuns.RunsAreSound` | internal/arena/allocator.go:102-153 | the invariant holds in every state of every interleaving |
| `AllocatorRuns.SoundApart` | internal/arena/allocator.go:102-153 | in such a state blocks are disjoint, aligned, in bounds and above the prefix |
| `AllocatorRuns.SoundConserves` | internal/arena/allocator.go:102-153 | and the bump pointer accounts for every byte |
| `AllocatorRuns.EmptyIsSound` | internal/arena/allocator.go:39-52 | a fresh allocator satisfies the invariant |
| `Arena.PlaceKeeps` | internal/arena/arena.go:209-264 | placing a blob changes no byte of another live handle |
| `Arena.PrefixKeeps` | internal/arena/persist/recovery.go:226-239 | a write below the first multiple of eight above the prefix changes no live object |
| `Arena.CheckpointHits` | internal/arena/arena.go:35-50 | for every smaller region of at least 8 KiB: an object that a checkpoint write changes |
| `Arena.CellsDistinct` | internal/arena/arena.go:380-402 | live handles of a region use different meta cells |
| `Arena.Manager.constructor` | internal/arena/arena.go:136-148 | one region, nothing live |
| `Arena.Manager.OpenFile` | internal/arena/arena.go:160-186 | the first region starts above the reserved prefix |
| `Arena.Manager.Put` | internal/arena/arena.go:209-264 | a new handle for the bytes; every other handle keeps its own; a region is added exactly when the current one has no room and there are fewer than the limit, and the put is refused exactly when the value is too large or neither the current region nor a new one has room; refusals change nothing live; prefixes are untouched, and of the first region only the bytes of the new block change |
| `Arena.PutExact` | internal/arena/arena.go:209-264 | when a put is refused and when it adds a region, each as an if-and-only-if over the allocator's state |
| `Arena.PutKeeps` | internal/arena/arena.go:209-264 | a put keeps every live handle's block and bytes and gives the new one its own |
| `Arena.PutResets` | internal/arena/arena.go:209-264 | a put clears the meta cell of its block and no other |
| `Arena.Manager.View` | internal/arena/arena.go:266-277 | an unfreed handle shows the bytes that were put |
| `Arena.Manager.Free` | internal/arena/arena.go:279-292 | only that handle goes; no byte and no prefix changes; a handle out of bounds is refused |
| `Arena.Manager.CopyToArena` | internal/arena/persist/recovery.go:226-239 | writes exactly those bytes of the first region; below where objects start, every live object is kept |
| `Arena.Manager.PersistenceFits` | internal/arena/arena.go:35-50 | superblock and checkpoint fit below the first object exactly from 16 KiB less 14 bytes on |
| `Wal.WholeCut` | internal/arena/persist/wal.go:138-179 | a record cut short anywhere is not taken for whole |
| `Wal.ReadsBack` | internal/arena/persist/wal.go:215-262 | a record is read back as written exactly when its lengths fit their fields |
| `Wal.RepairExact` | internal/arena/persist/wal.go:138-179 | for every byte prefix of a log, repair keeps a run of whole records |
| `Wal.KeptIsLongest` | internal/arena/persist/wal.go:138-179 | and that run is the longest that fits |
| `Wal.ReadAllBack` | internal/arena/persist/wal.go:332-387 | iterating a log yields its records, in order |
| `Wal.ReadOrRepair` | internal/arena/persist/wal.go:138-179 | repair and reading agree on a record with the right magic; repair does not look at the magic, reading stops at a wrong one |
| `Wal.RepairTwice` | internal/arena/persist/wal.go:138-179 | on any bytes, repairing again changes nothing |
| `WalLog.WholeBytes` | internal/arena/persist/wal.go:138-179 | the repair loop finds the length of the whole records |
| `WalLog.Log.Open` | internal/arena/persist/wal.go:105-122 | opening repairs the tail |
| `WalLog.Log.RepairTail` | internal/arena/persist/wal.go:138-179 | truncates to the whole records and appends there |
| `WalLog.Log.AppendRecord` | internal/arena/persist/wal.go:215-262 | appends the record or refuses a full log; every state on the way is the log with a prefix of the record |
| `WalLog.Log.Rotate` | internal/arena/persist/wal.go:287-298 | empties the log |
| `WalLog.Iterator.Next` | internal/arena/persist/wal.go:332-387 | reads the record at the offset and moves behind it |
| `Checkpoint.EntryBack` | internal/arena/persist/checkpoint.go:71-174 | an entry is decoded with everything but expiry and the high byte of Meta |
| `Checkpoint.SnapshotBack` | internal/arena/persist/checkpoint.go:71-174 | decoding an encoded snapshot gives its surviving entries, whatever follows |
| `Checkpoint.SnapshotExact` | internal/arena/persist/checkpoint.go:94-171 | nothing is lost exactly when no entry expires and every Meta is below 256 |
| `Checkpoint.EncodeCheckpoint` | internal/arena/persist/checkpoint.go:71-116 | succeeds exactly when keys and buffer allow, and then writes the snapshot's bytes |
| `Checkpoint.DecodeCheckpoint` | internal/arena/persist/checkpoint.go:120-174 | the loop decodes, or reports exactly the error the format defines |
| `Checkpoint.DecodeExactly` | internal/arena/persist/checkpoint.go:120-174 | which error comes when; without one, as many entries as the header counts |
| `Superblocks.RoundTrip` | internal/arena/persist/superblock.go:73-113 | a superblock is read back exactly when its version is current |
| `Superblocks.DecodeExactly` | internal/arena/persist/superblock.go:92-113 | which error comes when |
| `Superblocks.AreaSizes` | internal/arena/persist/superblock.go:117-127 | the checkpoint area is an eighth of the region between 4 KiB and 1 MiB; the prefix is that and 4 KiB, or half the region |
| `Superblocks.PrefixCovers` | internal/arena/persist/superblock.go:117-127 | the two size formulas agree: the reserved prefix covers superblock and checkpoint exactly from 16 KiB on |
| `Superblocks.ObjectsClear` | internal/arena/arena.go:35-50 | with the alignment of blocks, objects are clear of both exactly 14 bytes earlier |
| `Recovery.ReplayLooksUp` | internal/arena/persist/recovery.go:163-196 | replay leaves each key as the log last mentions it |
| `Recovery.ReplayLeaves` | internal/arena/persist/recovery.go:163-196 | and with the expiry time of the last record: 0 for a set, the record's own for a set with expiry |
| `Recovery.ReplayIgnores` | internal/arena/persist/recovery.go:163-196 | keys the log does not mention keep their entry |
| `Recovery.RecoverExactly` | internal/arena/persist/persist.go:122-148 | a restart fails exactly on a bad superblock, a wrong checkpoint version or entries that break off; without the magic the log alone counts |
| `Recovery.ReplayAgain` | internal/arena/persist/recovery.go:163-196 | replaying a log over its own result changes no handle |
| `Recovery.SurvivorsKeepHandles` | internal/arena/persist/persist.go:141-143 | loading a checkpoint restores the handles of the index it was taken from |
| `Recovery.BodyAfterBody` | internal/arena/persist/checkpoint.go:195-228 | the body write leaves the superblock and makes the body decode to the snapshot |
| `Recovery.BodyAfterSuperblock` | internal/arena/persist/checkpoint.go:195-228 | the superblock write leaves the body and the log, and changes only the entry count and the log offset of the superblock |
| `Recovery.CheckpointSafe` | internal/arena/persist/persist.go:290-302 | a crash before the body, after it, after the superblock, or after rotation recovers the same handles |
| `Recovery.CheckpointRecovers` | internal/arena/persist/persist.go:290-302 | a finished checkpoint recovers to exactly the index, without expiry times |
| `Recovery.TornLog` | internal/arena/persist/wal.go:138-179 | a torn append is repaired to the log without it, or with it when all its bytes arrived |
| `Recovery.SpillKeepsFront` | internal/arena/arena.go:209-225 | a value, or what a crash left of it, changes neither superblock nor checkpoint |
| `Recovery.FrontRecovers` | internal/arena/persist/persist.go:122-148 | recovery depends on superblock, checkpoint and log alone |
| `Recovery.NextKeepsGood` | internal/arena/persist/persist.go:122-302 | every write, refused write, torn write, interrupted or finished checkpoint, and restart keeps "a restart finds the acknowledged handles"; a write stores its value in the arena file first |
| `Recovery.RunsAreDurable` | internal/arena/persist/persist.go:122-302 | so it holds throughout every run, for regions from 16 KiB less 14 bytes on |
| `Recovery.FreshIsGood` | internal/arena/persist/recovery.go:110-120 | and it holds for a fresh disk |
| `Recovery.FreshFields` | internal/arena/persist/recovery.go:110-120 | what the superblock of a new store says |
| `Machines.PutLaid` | internal/arena/persist/persist.go:185-238 | a put with the allocator's placement and the log's limit is the disk's write, refused write, or nothing, and keeps every live value |
| `Machines.CheckLaid` | internal/arena/persist/checkpoint.go:195-228 | a checkpoint keeps the layout, and from 16 KiB less 14 bytes on every live value |
| `Machines.StepDetermined` | internal/arena/persist/persist.go:185-302 | an operation's outcome and its effect are determined by the state, but for the entries a snapshot lists |
| `Machines.StepKeepsInv` | internal/arena/persist/persist.go:185-302 | every put, kept or refused, deletion, free and checkpoint keeps "live values read as put and a restart finds the index's handles" |
| `Machines.RunsAreSafe` | internal/arena/persist/persist.go:185-302 | so it holds throughout every run from a new store, from that size on |
| `Machines.RunsRecall` | internal/arena/persist/persist.go:122-302 | over every run from a new store, a restart recovers exactly the index, with the expiry times of the keys put since the last checkpoint |
| `Machines.StepEnters` | internal/arena/persist/persist.go:185-261 | an acknowledged put is in the index with its handle and its own expiry time, an acknowledged deletion is not, and no other key changes |
| `Machines.RestartKeepsExpiry` | internal/arena/persist/persist.go:122-302 | after every run, a restart finds a key that was put and not changed since: until its expiry time, or always if it has none or a checkpoint was written since |
| `Machines.CheckCounts` | internal/arena/persist/persist.go:286-302 | after a checkpoint the superblock counts its entries |
| `Machines.LogSizes` | internal/arena/persist/superblock.go:129-140 | the log may take a quarter of the region, between 4 KiB and 64 MiB |
| `SmallRegions.DurableExactly` | internal/arena/arena.go:35-50 | of all regions from 4 KiB on, every run of the store from a new one stays recoverable exactly for those sizes |
| `SmallRegions.LosingRun` | internal/arena/persist/persist.go:185-302 | for every smaller region of at least 8 KiB, a run with the allocator's own placements: a put the log refuses, a long key, a checkpoint, and a value in the block given back, inside the checkpoint; a restart misses the long key |
| `SmallRegions.AlwaysLost` | internal/arena/persist/persist.go:185-302 | every run of those four operations on a new store of such a size misses it |
| `SmallRegions.LoseKey` | internal/arena/persist/persist.go:185-302 | the four operations through the manager and an index end in a disk from which a restart does not find the index's handles |
| `Persist.ReplayTo` | internal/arena/persist/recovery.go:163-196 | the loop over the log leaves the index at the replayed map, each key with handle and expiry time as the last record with it says; ends also when it starts from a full index whose first deletions are of keys it has |
| `Persist.RoomyReplays` | internal/arena/persist/recovery.go:163-196 | with four slots, one of them free, and no empty keys, any log can be replayed |
| `Persist.LoadEndsExactly` | internal/arena/persist/persist.go:141-143 | every entry of a checkpoint finds a slot exactly when its keys are at most the slots; a slot is left exactly when they are fewer |
| `Persist.PersistentManager.Create` | internal/arena/persist/recovery.go:45-120 | a new store has exactly the fresh disk |
| `Persist.PersistentManager.Put` | internal/arena/persist/persist.go:185-238 | the value into the arena, then the record onto the log: exactly the disk of a write; refused by the arena exactly when `Arena.Refuses`, by the log exactly when the record does not fit its limit, and then the block is given back and nothing is held |
| `Persist.PersistentManager.Delete` | internal/arena/persist/persist.go:248-261 | logs the deletion, or refuses exactly when the log is full |
| `Persist.PersistentManager.LoadIndex` | internal/arena/persist/persist.go:122-148 | fills the index with exactly what recovery defines, or reports the damaged checkpoint |
| `Persist.PersistentManager.AddEntries` | internal/arena/persist/persist.go:141-143 | loads the entries into an index with a slot for each key, filling it if need be; repeated keys are ignored |
| `Persist.PersistentManager.WriteCheckpoint` | internal/arena/persist/checkpoint.go:195-228 | the disks on the way are exactly: before, after the body, after the superblock, after rotation; from 16 KiB less 14 bytes on, every live object reads as before |
| `Persist.PersistentManager.CheckpointIndex` | internal/arena/persist/persist.go:290-302 | from each of those disks a restart finds the handles the index had, and live objects are kept; succeeds exactly when the snapshot fits, and then the superblock counts the index's keys |
| `Persist.PersistentManager.FreeHeld` | internal/arena/arena.go:279-292 | the block of a live value goes back; no byte on disk changes |
| `Persist.SnapshotSize` | internal/index/index.go:137-148 | a snapshot has as many entries as the index has keys |
| `Persist.Session` | internal/arena/persist/persist.go:185-302 | does every put, deletion, free and checkpoint of a run, with the outcome of each and the index kept beside it, as a run of the machine; from 16 KiB less 14 bytes on, after every operation every value put and not freed reads as it was put and a restart finds the index's handles |
| `Rings.PushQueue` | internal/eviction/queue.go:63-74 | a push writes behind the tail and overwrites no queued slot |
| `Rings.AliveQueued` | internal/eviction/queue.go:97-105 | looking at all slots finds an alive entry exactly when it is queued between head and tail |
| `Rings.RingBuffer.constructor` | internal/eviction/queue.go:34-47 | the next power of two, empty |
| `Rings.RingBuffer.Push` | internal/eviction/queue.go:63-74 | appends, or refuses exactly when full |
| `Rings.RingBuffer.Pop` | internal/eviction/queue.go:76-86 | removes the oldest entry |
| `Rings.RingBuffer.ScanFromHead` | internal/eviction/queue.go:97-105 | finds exactly alive queued entries |
| `Rings.RingBuffer.Remove` | internal/eviction/queue.go:107-116 | marks one alive entry dead in place; order and size stay |
| `S3Fifo.EvictMConserves` | internal/eviction/s3fifo.go:143-160 | main eviction keeps or returns every handle |
| `S3Fifo.EvictSConserves` | internal/eviction/s3fifo.go:110-138 | small eviction keeps, promotes or returns every handle |
| `S3Fifo.AddConserves` | internal/eviction/s3fifo.go:84-160 | handles before, plus the new one exactly when its ring had room, are handles after plus those returned; rings stay within capacity |
| `S3Fifo.EvictMProgress` | internal/eviction/s3fifo.go:143-160 | a main eviction frees the oldest handle exactly when its frequency is 0, and otherwise lowers the total frequency by one |
| `S3Fifo.SecondChancesRunOut` | internal/eviction/s3fifo.go:143-160 | without touches, at most three times the queue's length evictions in a row free nothing |
| `S3Fifo.SmallOverflow` | internal/eviction/s3fifo.go:110-138 | a full small queue gives its oldest handle back when that was touched less than twice, and otherwise moves it to the end of the main queue, untouched and tagged, if there is room |
| `S3Fifo.FullMain` | internal/eviction/s3fifo.go:110-160 | into a full main queue a promoted handle comes exactly in place of an oldest handle without a chance left; otherwise it is given back |
| `S3Fifo.MainOverflow` | internal/eviction/s3fifo.go:84-105 | a known key on a full main queue gives the oldest handle back, or queues it again with one chance less |
| `S3Fifo.RoomyAdd` | internal/eviction/s3fifo.go:84-105 | with room, a handle is queued last, untouched, with the tag of its queue |
| `S3Fifo.TouchesSave` | internal/eviction/s3fifo.go:110-138 | two touches save the oldest handle of a full small queue, one does not |
| `S3Fifo.TouchRaises` | internal/arena/arena.go:380-402 | a touch raises the frequency exactly below 3; at 3 it wraps to zero |
| `S3Fifo.Eviction.constructor` | internal/eviction/s3fifo.go:44-62 | two empty rings of the next powers of two of a tenth of the capacity, at least 1, and of the rest |
| `S3Fifo.Eviction.Add` | internal/eviction/s3fifo.go:84-105 | refines the policy's step; over the whole run, handles entered are handles queued plus handles returned |
| `S3Fifo.Eviction.EvictSmall` | internal/eviction/s3fifo.go:110-138 | refines small eviction |
| `S3Fifo.Eviction.EvictMain` | internal/eviction/s3fifo.go:143-160 | refines main eviction |
| `S3Fifo.Eviction.Touch` | internal/eviction/s3fifo.go:167-184 | counts a hit exactly for a handle alive in its tagged queue; queues stay |
| `S3Fifo.Eviction.Remove` | internal/eviction/s3fifo.go:206-218 | one queued entry that was alive dies in place, if there is any; the balance of handles stays |
| `S3Fifo.RemovalKills` | internal/eviction/s3fifo.go:206-218 | exactly one alive entry of the handle becomes dead, in the small queue if it is there, and its tag is cleared; without one nothing changes |
| `S3Fifo.RemovalUnseen` | internal/eviction/s3fifo.go:84-218 | over every run of additions, each hands back exactly what it would have without the removal: a removed handle comes back exactly when it would have been evicted |
| `S3Fifo.RemovedHandedBack` | internal/eviction/s3fifo.go:110-138 | a removed handle that the next addition hands back |
| `S3Fifo.RemovedAlive` | internal/eviction/s3fifo.go:143-160 | a removed handle that the next addition queues as alive |
| `ShardWorker.OrderKept` | internal/transport/shard_worker.go:43-99 | every step of submitters, worker and shutdown keeps taken jobs a prefix of enqueue order |
| `ShardWorker.PlaceKept` | internal/transport/shard_worker.go:65-77 | every step keeps each job in one place: submitter, queue side, or refused |
| `ShardWorker.RunsKeepInv` | internal/transport/shard_worker.go:43-99 | both hold throughout every interleaving of a new worker, and a job is refused only when a shutdown has begun |
| `ShardWorker.TakenInOrder` | internal/transport/shard_worker.go:43-63 | executed jobs, then cancelled ones, are the first enqueued; nothing is cancelled while the worker still runs jobs |
| `ShardWorker.HandledOnce` | internal/transport/shard_worker.go:43-99 | no job is handled twice |
| `ShardWorker.SubmitMeans` | internal/transport/shard_worker.go:65-77 | a refused submit cancelled its job exactly once and never enqueued it; an accepted one enqueued it |
| `ShardWorker.LateIsRefused` | internal/transport/shard_worker.go:65-77 | in every interleaving, a job submitted after the shutdown has begun never gets into the queue |
| `ShardWorker.HandledIffEarly` | internal/transport/shard_worker.go:43-77 | after the worker's exit, an enqueued job was handled exactly when it was enqueued before the exit |
| `ShardWorker.ExitIsFinal` | internal/transport/shard_worker.go:43-63 | after the exit nothing more is handled |
| `ShardWorker.LateSubmit` | internal/transport/shard_worker.go:65-77 | a run in which an accepted job is never handled |
| `ShardWorker.StopCancels` | internal/transport/shard_worker.go:43-63 | a run in which an accepted job is cancelled by the worker |
| `Protocol.ParseIn` | internal/proto/proto.go:424-458 | a frame lies within the bytes given |
| `Protocol.ParseExactly` | internal/proto/proto.go:424-458 | byte by byte, what a frame is made of, when more bytes are needed, and which error comes when |
| `Protocol.ParseStable` | internal/proto/proto.go:424-458 | more bytes change neither a frame nor an error already seen |
| `Protocol.ParseAllAppend` | internal/proto/proto.go:371-420 | parsing a longer stream goes on where parsing its beginning stopped |
| `Protocol.PendingIsShort` | internal/proto/proto.go:371-420 | the bytes kept hold no whole frame and no error |
| `Protocol.ChunkingIsInvisible` | internal/proto/proto.go:371-420 | however a stream is cut, frames, leftover bytes and first error are those of one feed |
| `Protocol.RequestRoundTrip` | internal/proto/proto.go:138-156 | a request is parsed back, whatever follows, exactly when its operation is known and its lengths are within limits |
| `Protocol.RequestsArrive` | internal/proto/proto.go:138-420 | requests sent arrive as sent and in order, in any chunking |
| `Protocol.AppendRequest` | internal/proto/proto.go:138-156 | appends exactly the request's frame to the buffer |
| `Protocol.Parser.Feed` | internal/proto/proto.go:371-420 | frames, kept bytes and error are those of parsing pending bytes and buffer together |
| `Protocol.Parser.ParseLoop` | internal/proto/proto.go:374-390 | the loop yields the frames, and the rest or the first error |
| `Packed.ItemAt` | internal/ds/hash.go:85-104 | a decoded item lies within the payload and its lengths fit their fields |
| `Packed.ItemPins` | internal/ds/hash.go:85-104 | the bytes an item was read from are its encoding |
| `Packed.DecodeExact` | internal/ds/hash.go:158-192 | a payload decodes to its items exactly when count and lengths fit their fields |
| `Packed.RepresentedDecodes` | internal/ds/list.go:108-113 | the count header is the number of decoded items |
| `Packed.LocateFirst` | internal/ds/hash.go:78-111 | on any bytes, searching finds the first decoded item with the name |
| `Packed.FindBack` | internal/ds/hash.go:78-111 | on a payload, the search ends at the item's own bytes |
| `Packed.AddedExact` | internal/ds/set.go:37-43 | adding writes the payload of the longer sequence, read back exactly when that fits |
| `Packed.CutRepresents` | internal/ds/set.go:67-75 | cutting an item's bytes leaves the payload of the others |
| `Packed.Search` | internal/ds/set.go:86-104 | the search loop finds what the search function defines |
| `Packed.Collect` | internal/ds/set.go:108-129 | the listing loop yields exactly the decoded items |
| `Lists.PushFrontExact` | internal/ds/list.go:8-21 | puts the element in front exactly when there is room |
| `Lists.PushBackExact` | internal/ds/list.go:24-43 | works exactly on non-empty lists, and then appends exactly when there is room |
| `Lists.PopFrontFirst` | internal/ds/list.go:46-68 | on any bytes, pops the first decoded element, if there is one |
| `Lists.PopFrontRest` | internal/ds/list.go:46-68 | on a list, leaves the others |
| `Lists.PopBackLast` | internal/ds/list.go:71-105 | on any bytes, pops the last element exactly when as many decode as the count says |
| `Lists.PopBackRest` | internal/ds/list.go:71-105 | on a list, leaves the others |
| `Lists.RunsRefineSequences` | internal/ds/list.go:8-113 | over every run, payload and sequence agree, and a run fails exactly where it pushes at the back of an empty list |
| `Lists.LeftPush` | internal/ds/list.go:8-21 | on a list with room, the element before the list |
| `Lists.RightPush` | internal/ds/list.go:24-43 | on a non-empty list with room, the element behind the list; fails on the empty one |
| `Lists.LeftPop` | internal/ds/list.go:46-68 | first element and the rest; otherwise the payload unchanged |
| `Lists.RightPop` | internal/ds/list.go:71-105 | last element and the rest; otherwise the payload unchanged |
| `Lists.Length` | internal/ds/list.go:108-113 | the number of elements |
| `Sets.AddInserts` | internal/ds/set.go:9-44 | the set with the member, without duplicates |
| `Sets.AddExact` | internal/ds/set.go:9-44 | a new member is read back exactly when it is shorter than 65536 bytes and the count does not wrap |
| `Sets.RemoveDeletes` | internal/ds/set.go:47-79 | the set without the member |
| `Sets.RunsRefineSets` | internal/ds/set.go:9-79 | over every run, the payload decodes to the set and its count is the set's size |
| `Sets.AddMember` | internal/ds/set.go:9-44 | inserts; reports whether the member is new |
| `Sets.RemoveMember` | internal/ds/set.go:47-79 | deletes; reports whether the member was there |
| `Sets.IsMember` | internal/ds/set.go:82-105 | on any bytes, membership in what they decode to |
| `Sets.ListMembers` | internal/ds/set.go:108-129 | the decoded members, in payload order |
| `Hashes.SetUpdates` | internal/ds/hash.go:9-75 | the map with the field set, without duplicates |
| `Hashes.SameLength` | internal/ds/hash.go:48-51 | overwriting a value of the same length in place is the same as rebuilding the payload |
| `Hashes.RunsRefineMaps` | internal/ds/hash.go:9-75 | over every run of sets, the payload decodes to the map and its count is the number of fields |
| `Hashes.SetField` | internal/ds/hash.go:9-75 | sets the field, in place exactly when the length stays, in a new buffer otherwise |
| `Hashes.GetField` | internal/ds/hash.go:78-111 | on any bytes, the field's value in what they decode to |
| `Hashes.GetAll` | internal/ds/hash.go:158-192 | all decoded fields and values, in payload order |
| `Hashes.DeleteField` | internal/ds/hash.go:114-155 | reports whether the field was there and returns what the deletion function leaves |
| `Hashes.DeleteExact` | internal/ds/hash.go:114-155 | leaves the packed form of the other fields exactly when the field was absent, alone, or had an empty value |
| `Hashes.DeleteDecodes` | internal/ds/hash.go:114-155 | what is decoded afterwards is right exactly when the later fields' bytes begin the value's bytes followed by them |
| `Hashes.DeleteLoses` | internal/ds/hash.go:114-155 | a payload of two fields from which deleting one loses the other |
| `Formats.LogBytes` | internal/arena/persist/wal.go:6-20 | the bytes of one record of each kind |
| `Formats.CheckpointBytes` | internal/arena/persist/checkpoint.go:6-24 | the bytes of a checkpoint of one entry |
| `Formats.SuperblockBytes` | internal/arena/persist/superblock.go:24-38 | the bytes of a superblock |
| `Formats.RequestBytes` | internal/proto/proto.go:138-156 | the bytes of a request |
| `Formats.PackedBytes` | internal/ds/hash.go:9-75 | the bytes of a hash, a set and a list of one item |
| `Formats.AbabBytes` | internal/compress/lz4.go:68-89 | "ab" 32 times compresses to these twelve bytes |
| `Formats.HashExamples` | internal/compress/lz4.go:116-121 | the hash of two windows |

## Left out

- Network, TLS, QUIC, HTTP, metrics, logging, configuration, the command line, and mapping files into memory: input and output only.
- AES-GCM and SHA-256: foreign code.
- The shard cache end to end (internal/transport/transport.go:106-433): evicted handles are freed while the index still has them, so "get returns the last set" does not hold once a ring overflows.
- GhostIndex (internal/eviction/ghost.go): whether it knows a key is the parameter `known` of `S3Fifo.Eviction.Add`; removal leaves holes in its probe chains, so it is not a set.
- Eviction.Delete (internal/eviction/s3fifo.go:188-201): `S3Fifo.Eviction.Remove` plus a ghost removal.
- DeleteExpired, ScanPrefix and DeletePrefix of the hash index (internal/index/index.go:192-268): the same loops as in the shard index.
- HashIndexes.HashIndex.Put: a nil slice must not be stored over the entry of the empty key, because that marks its slot empty (internal/index/index.go:62; `HashIndexes.NilKeyExact`); the runs of `Recovery.RunsAreDurable` write no empty keys.
- HashIndexes.HashIndex.constructor: a negative number of buckets is left out.
- HashIndexes.HashIndex.Add: requires, like Get and Delete, that a slot is free or the key is there, because otherwise the search does not end (`HashIndexes.ProbeEndsExactly`); the key is not nil, as the checkpoint decoder makes it.
- AllocatorRuns.Allocator.Free: a block is freed once and with its own size class, as the program demands of its callers.
- AllocatorRuns.Allocator.Skip: before the first allocation, as the program calls it.
- Arena.Manager.Put: one caller at a time; regions are values inside the manager's field, so aliasing between views and the mapped bytes is not captured. Mapping a new region cannot fail.
- Arena.Manager.Free: a handle is freed at most once.
- Persist.PersistentManager.Create: regions below 8 KiB, which have no room for superblock and checkpoint, are left out, and so is opening an existing file as an object; `Recovery.Recover` says what its disk stands for.
- Persist.PersistentManager.Put: the wait for the log to reach the disk is one step with the append.
- Persist.Session: starts with a free slot among at least four, so that searches end, and with index and operations together below 2^64 keys; what it says of restarts is for keys of 1 to 65535 bytes (`Wal.ReadsBack`, `HashIndexes.NilKeyExact`).
- New puts after a cold start: the bump pointer is rebuilt from payload sizes, so they can overwrite recovered values; the handles are covered by `Recovery.RunsAreDurable`, which lets a value go anywhere above the prefix.
- Recovery.CheckpointSafe: the copy of the checkpoint body is one step; a half-written body is not modelled.
- Superblocks.RoundTrip: the encoder is a function of the fields and not a sequence of writes into a buffer.
- Protocol.Parser.Feed: frames are values. That they view a buffer which a later compaction overwrites, and when the buffer is compacted, is not captured. The other request encoders and responses are left out; they differ in the value they build.
- Lists.RightPush: the failure stands for slicing a buffer beyond its capacity.
- Rings.RingBuffer.Push: the 64-bit counters do not wrap.
- ShardWorker.LateSubmit: the wait for the worker with a deadline at shutdown is left out.
- Lz4Encoder.CompressBlock: that the last five bytes of a block are literals, an end-of-block rule of the LZ4 Block Format Description, is not claimed; matches run to the end of the input.
- Buffer pools: a pooled buffer is a fresh array of arbitrary contents.

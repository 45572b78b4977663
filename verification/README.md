# Redis 4.0.6: dictionary, persistence, cluster, bit operations and indexes

A Dafny model of the algorithms at the core of the Redis server in `hw5/redis-4.0.6/src`, with proofs that
hold for all inputs, all interleavings and all reachable states.

* **Dictionary (`dict.c`).** `Table`, `DictState` and `DictSteps` describe two power-of-two chained tables
  under incremental rehashing and the map they stand for; `Dictionary` is the mutable dictionary whose
  operations refine that map. `Reversal`, `Cursor`, `Expansion`, `Scan` and `ScanCondition` treat
  `dictScan`: the reversed cursor, what one call covers and exactly when, whole scans over a changing table,
  and a scan that loses a key. `DictIterator` treats safe iterators under concurrent use.
* **Append only file (`aof.c`).** `Resp` is the command printer and the loader, with the round trip and the
  truncation theorem, `RespCorrupt` what the loader does with a damaged log. `AofBuffers` has the block list
  and the flush routine. `AofProtocol` is the parent/child rewrite as a step relation with partial writes
  and the stop handshake, and the theorem that the log always rebuilds the data; `AofCrash` is what survives
  a crash, and from when on. `AofServer` does the parent's steps with the buffers. `AofObjects` is the
  chunking rewriter.
* **Cluster (`cluster.c`).** `SlotTable` keeps slot owners, bitmaps, counts and open slots in agreement
  while nodes come and go. `SlotClaims` shows exactly when slot claims converge. `ClusterNode` has the epoch
  and election handlers of one server, `ClusterProtocol` the message-passing system of all servers with
  epoch domination and election safety, `ClusterOutcome` what elections and messages bring about,
  `ClusterServer` the steps done by the server's methods, and `ClusterStaleAcks` the exact number of stale
  acks it takes for two slaves to win one epoch.
* **Bit operations (`bitops.c`).** `Bits`, `Popcount`, `Bitpos`, `Bitfield` and `BitfieldOps`: fast scans
  equal naive ones, and the algebra of fields of 1 to 63 bits under the three overflow rules.
* **Indexes and pools.** `SortedIndex` and `Keyspace` (`db.c`), `AdList` (`adlist.c`) and `EvictionPool`
  (`evict.c`).

`Words` defines machine words as numbers with the bitwise operators of C, `ByteMasks` the single-bit masks
of a byte, and `Options` the optional value. What the code reads from clocks, sockets, files, flags and
random numbers is a parameter of the operation or of the step. State that the source updates in place is a
class. The theorems about runs are over step relations; those of the cluster are built from the very
functions that specify the methods of `ClusterNode.Server`.

## Where the code and its documentation differ

* The comment of `dictScan` promises that every element present throughout a scan is returned. The code
  keeps the promise for a call made during a rehash exactly when the cursor's bits in `m0 ^ m1` are
  contiguous low ones (`ScanCondition.CallCondition`). A table that shrinks by more than a factor of two in
  the middle of a scan can break it (`Scan.ShrinkingScanMisses`); one that never shrinks cannot
  (`Scan.GrowingScanCovers`).
* The election comments promise one winner per epoch. The code also counts acks of the previous attempt that
  arrive after the next one is scheduled and before its votes are asked for. With a fixed set of masters two
  slaves can win one epoch exactly when their attempts counted enough of these: one for an odd number of
  masters, two for an even one (`ClusterStaleAcks.StaleAcksDecide`). Without such acks there is one winner
  (`ClusterProtocol.ElectionSafety`).
* Slot claims are meant to converge to the highest epoch in whatever order they arrive. They do so exactly
  when every slot is decided: nobody can take it, or one claim to it comes after every epoch its prior owner
  and its rivals are defended with (`SlotClaims.ClaimsConverge`). Distinct epochs are enough
  (`SlotClaims.FreshClaimsDecide`) unless a claimant is already known at a later epoch than it claims with
  (`SlotClaims.StaleClaimDiverges`) or the prior owner gives the slot up at a later epoch
  (`SlotClaims.SilentOwnerBlocks`).
* A saturating BITFIELD SET of an unsigned field stores the maximum for a negative argument
  (`BitfieldOps.SetUnsignedSaturates`).
* RENAME drops an expire time of exactly -1 (`Keyspace.Database.Rename`).

## Model

| member | source | states |
|---|---|---|
| `Reversal.Rev` | hw5/redis-4.0.6/src/dict.c:742-750 | the loop of ever smaller block swaps computes the bit reversal of the 64-bit word, defined bit by bit |
| `Reversal.ReverseInvolution` | hw5/redis-4.0.6/src/dict.c:742-750 | reversing twice gives back the word, for every width |
| `Reversal.SameBucket` | hw5/redis-4.0.6/src/dict.c:742-750 | two hashes share a bucket of a 2^k table exactly when their reversals lie in the same aligned block of 2^(n-k) |
| `Cursor.AdvanceRank` | hw5/redis-4.0.6/src/dict.c:904-909 | setting the unmasked bits, reversing, incrementing and reversing moves the reversed cursor to the next multiple of 2^(n-k), or to zero after the last one |
| `Cursor.AdvanceCovers` | hw5/redis-4.0.6/src/dict.c:904-909 | every hash whose reversal is passed by one advance lies in the cursor's bucket of the smaller table |
| `Cursor.AdvancePasses` | hw5/redis-4.0.6/src/dict.c:904-909 | and every hash of that bucket at or after the cursor is passed by that advance |
| `Cursor.AdvanceIncreases` | hw5/redis-4.0.6/src/dict.c:904-909 | the reversed cursor grows strictly until the cursor is zero again |
| `Expansion.NextExpansionField` | hw5/redis-4.0.6/src/dict.c:896 | one step of the inner loop keeps the smaller table's index and counts the remaining bits of the larger index up by one, wrapping to zero |
| `Expansion.LoopTest` | hw5/redis-4.0.6/src/dict.c:899 | the loop condition is non-zero exactly while those bits are not back at zero |
| `Expansion.CoverageCondition` | hw5/redis-4.0.6/src/dict.c:885-909 | a call made during a rehash has the larger table's bucket of every hash it passes over in its list of visited buckets if and only if the cursor's bits in m0^m1 are contiguous low ones |
| `Expansion.SomethingMissed` | hw5/redis-4.0.6/src/dict.c:885-909 | when they are not, some hash is passed over although its bucket in the larger table is not in that list |
| `Expansion.ConditionHolds` | hw5/redis-4.0.6/src/dict.c:885-909 | the condition holds when the cursor has no bits in m0^m1 and when the two sizes differ by a factor of two |
| `Scan.ScanExpansions` | hw5/redis-4.0.6/src/dict.c:885-899 | the do-while emits the entries of exactly the buckets from the cursor's own index upwards that expand the smaller index, and stops |
| `Scan.DictScan` | hw5/redis-4.0.6/src/dict.c:836-912 | one call emits what the specification says, in order, and returns the advanced cursor, zero on an empty dictionary; what is emitted is pinned by ScanCondition.EmitsExactly and EmittedOnce |
| `Scan.CallCovers` | hw5/redis-4.0.6/src/dict.c:836-912 | a safe call emits every stored key whose reversed hash it passes over, in whichever table the key sits |
| `Scan.ScanCovers` | hw5/redis-4.0.6/src/dict.c:752-912 | for every sequence of well-formed dictionary states met by the calls of one scan from cursor 0 to 0, a key present at every call is emitted, if each call made during a rehash meets the exact condition |
| `Scan.GrowingScanCovers` | hw5/redis-4.0.6/src/dict.c:752-912 | if the table never shrinks during the scan the coverage needs no condition on the calls |
| `Scan.CursorRises` | hw5/redis-4.0.6/src/dict.c:904-909 | the reversed cursor rises with every call of a scan that has not come back to 0, whatever happens to the tables in between |
| `Scan.UnfinishedIsShort` | hw5/redis-4.0.6/src/dict.c:836-912 | so a scan that has not come back to 0 has made fewer calls than there are words |
| `Scan.ScanEnds` | hw5/redis-4.0.6/src/dict.c:836-912 | and, whatever tables the calls find, one of the first 2^n calls from cursor 0 returns 0 |
| `Scan.ShrinkingScanMisses` | hw5/redis-4.0.6/src/dict.c:836-912 | the promise in the comment is false: a concrete scan that starts on 16 buckets and goes on while they shrink to 4 never emits a key that is present throughout |
| `ScanCondition.EmitsExactly` | hw5/redis-4.0.6/src/dict.c:866-909 | a call at rest emits a stored key if and only if the key shares the cursor's bucket; during a rehash a key of the smaller table under the same condition, and one of the larger table if and only if its bucket is among those visited; only stored keys are emitted |
| `ScanCondition.EmittedStored` | hw5/redis-4.0.6/src/dict.c:836-909 | every entry a call emits is stored with that value |
| `ScanCondition.EmittedOnce` | hw5/redis-4.0.6/src/dict.c:836-909 | no call emits a key, or an entry, twice |
| `ScanCondition.CallCondition` | hw5/redis-4.0.6/src/dict.c:866-909 | for a cursor and two table sizes, the call emits every key it passes over in every dictionary being rehashed between these sizes, if and only if the cursor's bits in m0^m1 are contiguous low ones |
| `DictState.ContentsAgree` | hw5/redis-4.0.6/src/dict.c:476-495 | the two tables denote one map: a lookup in either table is a lookup in the map, and the used counts add up to its size |
| `DictSteps.StepBucketKeepsMap` | hw5/redis-4.0.6/src/dict.c:188-231 | moving one bucket of the old table keeps the invariant and the map |
| `DictSteps.FinishKeepsMap` | hw5/redis-4.0.6/src/dict.c:220-226 | dropping the emptied table keeps the invariant and the map |
| `DictSteps.ResizedKeepsMap` | hw5/redis-4.0.6/src/dict.c:147-183 | installing a first table or a rehash target keeps the invariant and the map |
| `DictSteps.AddEntryAddsToMap` | hw5/redis-4.0.6/src/dict.c:292-316 | a new entry at the head of its chain, in the new table during a rehash, adds exactly that key to the map |
| `DictSteps.OverwriteChangesMap` | hw5/redis-4.0.6/src/dict.c:325-346 | overwriting changes the value of exactly that key |
| `DictSteps.UnlinkRemovesFromMap` | hw5/redis-4.0.6/src/dict.c:364-399 | unlinking removes exactly that key from the map |
| `Dictionary.NextPower` | hw5/redis-4.0.6/src/dict.c:939-950 | the loop returns the least power of two that is at least 4 and at least the size |
| `Dictionary.Search` | hw5/redis-4.0.6/src/dict.c:482-491 | walking a chain finds the position of the key, or the end of the chain |
| `Dictionary.Dictionary.constructor` | hw5/redis-4.0.6/src/dict.c:111-131 | a new dictionary is valid and denotes the empty map |
| `Dictionary.Dictionary.Expand` | hw5/redis-4.0.6/src/dict.c:147-183 | refuses exactly during a rehash, for a size below the entries or an unchanged size; otherwise installs the next power of two and keeps the map |
| `Dictionary.Dictionary.Resize` | hw5/redis-4.0.6/src/dict.c:135-144 | refuses exactly when resizing is disabled, a rehash runs or the size is already least; otherwise rehashes to the least size that holds the entries, or creates a first table of 4; the map stays |
| `Dictionary.Dictionary.MoveChain` | hw5/redis-4.0.6/src/dict.c:203-216 | pushes the entries of a chain one by one onto their new buckets, first entry first |
| `Dictionary.Dictionary.MoveBucket` | hw5/redis-4.0.6/src/dict.c:198-218 | moves the bucket at rehashidx to the new table and advances rehashidx, keeping the invariant and the map |
| `Dictionary.Dictionary.SkipEmptyBuckets` | hw5/redis-4.0.6/src/dict.c:198-201 | the inner loop stops at the first non-empty bucket, or after exactly the empty visits that were left, and passes empty buckets only |
| `Dictionary.Dictionary.Rehash` | hw5/redis-4.0.6/src/dict.c:188-231 | keeps the invariant and the map; the buckets it passes hold at most n busy ones and at most 10n empty ones, one of the two limits is reached unless the rehash ends, and the result says whether something is left; the assert on rehashidx holds |
| `Dictionary.Dictionary.RehashStep` | hw5/redis-4.0.6/src/dict.c:260-262 | moves one busy bucket, or visits ten empty ones, unless an iterator is running; the map stays |
| `Dictionary.Dictionary.Locate` | hw5/redis-4.0.6/src/dict.c:482-493 | the search through both tables ends at the entry with the key, or reports that no table has it |
| `Dictionary.Dictionary.Find` | hw5/redis-4.0.6/src/dict.c:476-495 | returns exactly what the map holds under the key, and keeps the map |
| `Dictionary.Dictionary.ExpandIfNeeded` | hw5/redis-4.0.6/src/dict.c:917-936 | creates a first table of 4, grows to twice the entries exactly when the load reaches one and resizing is enabled or the load exceeds 5, and otherwise changes nothing; it cannot fail and keeps the map |
| `Dictionary.Dictionary.Add` | hw5/redis-4.0.6/src/dict.c:265-316 | fails exactly when the key is present and then changes nothing in the map; otherwise adds the pair, at the head of its chain in the new table during a rehash |
| `Dictionary.Dictionary.Replace` | hw5/redis-4.0.6/src/dict.c:325-346 | the map is updated at the key, and the result is 1 exactly when the key was new |
| `Dictionary.Dictionary.Delete` | hw5/redis-4.0.6/src/dict.c:364-399 | returns the value the map held under the key, and the key is gone from the map; everything else stays |
| `DictIterator.Next` | hw5/redis-4.0.6/src/dict.c:562-595 | a call on a safe iterator returns the head of the entries still to come and leaves the rest, or NULL when none is left |
| `DictIterator.RemainingKept` | hw5/redis-4.0.6/src/dict.c:562-595 | an add, replace, lookup, resize or delete of a key other than the remembered next one leaves every other key due exactly as before |
| `DictIterator.SafeIteration` | hw5/redis-4.0.6/src/dict.c:555-606 | over every interleaving of dictNext with adds, replaces, finds, resizes and deletes of any key but the remembered next one, a key present throughout is returned exactly once |
| `Resp.CatCommand` | hw5/redis-4.0.6/src/aof.c:450-473 | builds the RESP array of bulk strings of the arguments, appended to the buffer |
| `Resp.ParseDecimal` | hw5/redis-4.0.6/src/aof.c:704-718 | a printed length reads back as itself, whatever non-digit follows it |
| `Resp.LoadArgs` | hw5/redis-4.0.6/src/aof.c:710-735 | the argument loop reads exactly the announced arguments, or reports end of file or a format error |
| `Resp.LoadCommand` | hw5/redis-4.0.6/src/aof.c:696-735 | one round of the loader is one command, the end of the file, a short read or a format error |
| `Resp.LoadFile` | hw5/redis-4.0.6/src/aof.c:682-755 | the loop runs the commands the specification reads, stops for the specified reason and keeps valid_up_to at the end of the last whole command |
| `Resp.LoadLog` | hw5/redis-4.0.6/src/aof.c:450-473 | for every list of printable commands with arbitrary bytes, loading the printed log runs exactly that list and reaches the end of the file |
| `Resp.LoadPrefix` | hw5/redis-4.0.6/src/aof.c:682-800 | for every prefix of a printed log the loader runs exactly the commands wholly inside it, and valid_up_to is the end of the last one |
| `Resp.WholeCommandsFit` | hw5/redis-4.0.6/src/aof.c:770-800 | the number of whole commands is the largest whose printed form fits the prefix |
| `RespCorrupt.GarbageRefused` | hw5/redis-4.0.6/src/aof.c:695-701 | a log followed by bytes that do not start a command: exactly its commands are run, and a format error is reported, not a truncated file, with valid_up_to at the end of the log |
| `RespCorrupt.BadCountRefused` | hw5/redis-4.0.6/src/aof.c:703-704 | the same for a count line that says less than one |
| `RespCorrupt.BadArgumentRefused` | hw5/redis-4.0.6/src/aof.c:710-716 | the same for a command that announces more arguments than start with a length |
| `AofBuffers.RewriteBuffer.constructor` | hw5/redis-4.0.6/src/aof.c:70-76 | an empty rewrite buffer |
| `AofBuffers.RewriteBuffer.Append` | hw5/redis-4.0.6/src/aof.c:125-170 | the bytes are appended across blocks, each within its size and all but the first and last full, and nothing else changes |
| `AofBuffers.RewriteBuffer.WriteDiffData` | hw5/redis-4.0.6/src/aof.c:95-121 | bytes sent plus bytes kept are the bytes that were there, in order, for every sequence of partial pipe writes; writes within the first block send exactly what they report; sending stops only when told to, when nothing is left or when the pipe refuses |
| `AofBuffers.RewriteBuffer.WriteAll` | hw5/redis-4.0.6/src/aof.c:174-194 | success exactly when every block was written whole; otherwise the blocks before the first short or failed write |
| `AofBuffers.Writer.constructor` | hw5/redis-4.0.6/src/aof.c:288-426 | an empty file and buffer, with size zero |
| `AofBuffers.Writer.Feed` | hw5/redis-4.0.6/src/aof.c:565-567 | appends to aof_buf and nothing else |
| `AofBuffers.Writer.Flush` | hw5/redis-4.0.6/src/aof.c:288-426 | exactly when a write is postponed, when the process exits, how many bytes move from aof_buf to the file for a full write, an error, and a short write whose truncate succeeds or fails, and that file followed by aof_buf stays all bytes fed and aof_current_size the file length |
| `AofProtocol.LoggedWorks` | hw5/redis-4.0.6/src/aof.c:518-526 | the SELECT logged when the database changes makes the replay execute the command in the right database |
| `AofProtocol.ConservedStep` | hw5/redis-4.0.6/src/aof.c:95-194 | every step of parent and child keeps the bytes fed since the fork equal to child diff, pipe and rewrite buffer together, in order, through the stop handshake |
| `AofProtocol.RewriteConserves` | hw5/redis-4.0.6/src/aof.c:1053-1547 | in every interleaving that ends in a successful rename the new file is the snapshot's encoding followed by every byte fed since the fork, once and in order, and aof_buf is empty |
| `AofProtocol.LogRebuildsData` | hw5/redis-4.0.6/src/aof.c:512-573 | in every state of every run with the AOF on, loading the file followed by aof_buf rebuilds the data set, across rewrites, failed children and flushes |
| `AofProtocol.RewriteCanFinish` | hw5/redis-4.0.6/src/aof.c:95-121 | from every state with a child rewriting there is a way to its end, by which the child's file holds the snapshot and everything fed since the fork, and the parent's buffer is empty |
| `AofProtocol.FailureIsHarmless` | hw5/redis-4.0.6/src/aof.c:1561-1584 | a child that fails, or whose file cannot be put in place, leaves file, aof_buf and data as they are, and another one may be forked |
| `AofCrash.CrashRecovers` | hw5/redis-4.0.6/src/aof.c:630-810 | in every state of every run with the AOF on, loading the file without aof_buf executes exactly the logged commands that lie in the file whole, ends as loaded or truncated, and gives the data set of a moment no earlier than any moment at which aof_buf was empty |
| `AofCrash.FlushIsDurable` | hw5/redis-4.0.6/src/aof.c:288-426 | after a flush of n bytes a crash recovers exactly the commands of the log that lie whole in the old file and n bytes more; after a complete flush, all of the data |
| `AofCrash.FlushedSurvives` | hw5/redis-4.0.6/src/aof.c:288-426 | what was fed before a complete flush survives every later crash of the run, across rewrites |
| `AofCrash.RewriteIsDurable` | hw5/redis-4.0.6/src/aof.c:1438-1547 | a successful rewrite switches the AOF on and leaves all of the data in the new file |
| `AofServer.Feed` | hw5/redis-4.0.6/src/aof.c:512-573 | feedAppendOnlyFile does to aof_buf and the rewrite buffer what the protocol step says |
| `AofServer.Flush` | hw5/redis-4.0.6/src/aof.c:288-426 | flushAppendOnlyFile is one flush step of the protocol, and a complete one when the write is complete and not postponed |
| `AofServer.SendDiff` | hw5/redis-4.0.6/src/aof.c:95-121 | aofChildWriteDiffData is one send step, and sends nothing once stopped |
| `AofServer.RewriteDone` | hw5/redis-4.0.6/src/aof.c:1438-1584 | backgroundRewriteDoneHandler is the successful or the failing last step |
| `AofObjects.WriteBulks` | hw5/redis-4.0.6/src/aof.c:832-1032 | writes the items of one command as bulk strings, one after the other |
| `AofObjects.RewriteItems` | hw5/redis-4.0.6/src/aof.c:832-1032 | the chunking loop emits the printed form of commands whose headers announce exactly the arguments that follow |
| `AofObjects.ChunkSizes` | hw5/redis-4.0.6/src/aof.c:832-1032 | every command but the last carries exactly K items, the last one between one and K, for every K>=1 |
| `AofObjects.OneItem` | hw5/redis-4.0.6/src/aof.c:832-1032 | the commands of objects of one item: hashes are written field first, sorted sets score first |
| `AofObjects.ChunksRebuild` | hw5/redis-4.0.6/src/aof.c:832-1032 | replaying the chunks adds all the items, wherever the cuts fall |
| `AofObjects.ObjectRebuilds` | hw5/redis-4.0.6/src/aof.c:832-1032 | replaying the commands of a list, set, sorted set or hash under a fresh key rebuilds the object |
| `AofObjects.SnapshotRebuilds` | hw5/redis-4.0.6/src/aof.c:1065-1146 | replaying the rewritten log, with its SELECTs and expires, rebuilds the whole data set |
| `AofObjects.ForkIsSound` | hw5/redis-4.0.6/src/aof.c:1065-1146 | the child's walk gives the rewrite protocol a snapshot that encodes the data at the fork |
| `SlotTable.SetBitEffect` | hw5/redis-4.0.6/src/cluster.c:3504-3515 | setting a bit sets that bit and no other |
| `SlotTable.Table.constructor` | hw5/redis-4.0.6/src/cluster.c:3504-3614 | an empty table without nodes agrees with its bitmaps |
| `SlotTable.Table.AddNode` | hw5/redis-4.0.6/src/cluster.c:867-873 | fails exactly on a known name; otherwise the node enters with an empty bitmap and no slots, and the agreement is kept |
| `SlotTable.Table.DelNode` | hw5/redis-4.0.6/src/cluster.c:886-913 | the node is gone together with every reference to it: its slots are free, nothing is imported from it or migrated to it, and every other entry stays |
| `SlotTable.Table.SetMigrating` | hw5/redis-4.0.6/src/cluster.c:4185-4194 | fails exactly when this node does not own the slot or the target is unknown; otherwise marks that slot and no other |
| `SlotTable.Table.SetImporting` | hw5/redis-4.0.6/src/cluster.c:4196-4206 | fails exactly when this node owns the slot or the source is unknown; otherwise marks that slot and no other |
| `SlotTable.Table.NodeSetSlotBit` | hw5/redis-4.0.6/src/cluster.c:3542-3564 | returns the old bit, sets it and counts it once |
| `SlotTable.Table.NodeClearSlotBit` | hw5/redis-4.0.6/src/cluster.c:3567-3572 | returns the old bit, clears it and uncounts it once |
| `SlotTable.Table.AddSlot` | hw5/redis-4.0.6/src/cluster.c:3583-3588 | fails exactly on an owned slot; otherwise table, bitmap and count change together |
| `SlotTable.Table.DelSlot` | hw5/redis-4.0.6/src/cluster.c:3593-3600 | fails exactly on a free slot; otherwise the assert on the owner's bit holds and table, bitmap and count change together |
| `SlotTable.Table.DelNodeSlots` | hw5/redis-4.0.6/src/cluster.c:3604-3614 | frees exactly the slots of the node and returns their number |
| `SlotTable.Table.ClaimSlots` | hw5/redis-4.0.6/src/cluster.c:2810-2815 | all slots of the old master, and no others, go to the new one |
| `SlotTable.Table.UpdateSlotsConfigWith` | hw5/redis-4.0.6/src/cluster.c:1511-1571 | a claimed slot goes to the sender if and only if it is free or its owner is known at a lower epoch, and it is not being imported; an update about this node itself changes nothing; newmaster and the dirty slots are exact; the agreement is kept |
| `SlotTable.CountsAddUp` | hw5/redis-4.0.6/src/cluster.c:3504-3614 | in every state where bitmaps and table agree, the slot counts of the nodes add up to the number of assigned slots |
| `SlotClaims.LeaderIsHighest` | hw5/redis-4.0.6/src/cluster.c:1511-1571 | a claim that leads a slot has the highest epoch of all claims to it and a higher one than its prior owner was known at |
| `SlotClaims.SlotSettles` | hw5/redis-4.0.6/src/cluster.c:1511-1571 | a slot that nobody else can take from its prior owner, or that one claim leads, ends with that owner or that claimant, in every order of the claims and with any repeats |
| `SlotClaims.SettledUnique` | hw5/redis-4.0.6/src/cluster.c:1511-1571 | the owner so described is unique and depends only on which claims there are |
| `SlotClaims.ClaimsConverge` | hw5/redis-4.0.6/src/cluster.c:1511-1571 | for any claims of different masters, owners included: all orders of them, with any repeats, end in the same table if and only if every slot is decided, that is unchallenged or led by a claim that comes after everything its prior owner and every rival claim are defended with |
| `SlotClaims.FreshClaimsDecide` | hw5/redis-4.0.6/src/cluster.c:1678-1679 | claims with different epochs, from masters not known at a later one, decide every slot that its prior owner does not claim to have given up |
| `SlotClaims.OrderMatters` | hw5/redis-4.0.6/src/cluster.c:1511-1571 | two claims of different masters end in the same table in both orders if and only if every slot is decided |
| `SlotClaims.SilentOwnerBlocks` | hw5/redis-4.0.6/src/cluster.c:1540-1550 | a master that gives up a slot at an epoch as late as its successor's claim keeps the slot or loses it, depending on which message arrives first |
| `SlotClaims.StaleClaimDiverges` | hw5/redis-4.0.6/src/cluster.c:1678-1679 | a concrete pair of claims that ends differently in the two orders: one claimant is already known at a later epoch than it claims with |
| `ClusterNode.GetMaxEpoch` | hw5/redis-4.0.6/src/cluster.c:949-963 | the loop returns the greatest of all configEpochs and currentEpoch |
| `ClusterNode.TestClaims` | hw5/redis-4.0.6/src/cluster.c:2674-2692 | the loop over the claimed slots accepts exactly when no claimed slot has an owner at a greater configEpoch |
| `ClusterNode.MaxEpochIsCurrent` | hw5/redis-4.0.6/src/cluster.c:949-963 | while currentEpoch dominates, that maximum is currentEpoch |
| `ClusterNode.HeaderIsLeast` | hw5/redis-4.0.6/src/cluster.c:1668-1683 | processing a header from a known node is the least growth of the epochs that learns both epochs of the message |
| `ClusterNode.UpdateIsLeast` | hw5/redis-4.0.6/src/cluster.c:2027-2048 | an UPDATE about a known node is the least growth beyond its header that learns the reported epoch |
| `ClusterNode.OneOfTwoMoves` | hw5/redis-4.0.6/src/cluster.c:1058-1073 | of two masters with the same configEpoch that hear from each other, the one with the smaller name moves above everything it knows and the other one stays |
| `ClusterNode.FreshKeeps` | hw5/redis-4.0.6/src/cluster.c:1058-1073 | a move to currentEpoch+1 lands strictly above every configEpoch the node knows and keeps domination |
| `ClusterNode.Server.constructor` | hw5/redis-4.0.6/src/cluster.c:949-1073 | a fresh node has all epochs at zero |
| `ClusterNode.Server.AddNode` | hw5/redis-4.0.6/src/cluster.c:867-873 | a new node is known at epoch zero; fails exactly on a known one |
| `ClusterNode.Server.DelNode` | hw5/redis-4.0.6/src/cluster.c:886-913 | the node is not known any more; all other epochs stay |
| `ClusterNode.Server.SetConfigEpoch` | hw5/redis-4.0.6/src/cluster.c:4547-4582 | allowed exactly for a node that knows no other and has epoch zero; then currentEpoch is at least the new epoch |
| `ClusterNode.Server.ProcessHeader` | hw5/redis-4.0.6/src/cluster.c:1668-1683 | a header from a known node raises currentEpoch and the sender's configEpoch to the maximum; from an unknown one it does nothing |
| `ClusterNode.Server.ProcessPlain` | hw5/redis-4.0.6/src/cluster.c:1058-1073 | after the header of a master with the node's own configEpoch, the node moves to the next epoch if and only if its name is the smaller one |
| `ClusterNode.Server.ProcessUpdate` | hw5/redis-4.0.6/src/cluster.c:2027-2048 | an update about a known node raises its configEpoch if greater and otherwise changes nothing |
| `ClusterNode.Server.BumpWithoutConsensus` | hw5/redis-4.0.6/src/cluster.c:993-1011 | moves exactly when the own epoch is zero or not the maximum the node knows |
| `ClusterNode.Server.SendFailoverAuthIfNeeded` | hw5/redis-4.0.6/src/cluster.c:2599-2699 | the vote is granted if and only if the voter serves slots, the request is of no earlier epoch than the voter's and not of one it voted in, the requester is a slave of a known failed or yielding master, there was no recent vote about it, and no claimed slot is served at a later epoch; only then lastVoteEpoch becomes the request's epoch |
| `ClusterNode.Server.ProcessAck` | hw5/redis-4.0.6/src/cluster.c:2002-2014 | an ack counts exactly when its sender is known and serves slots and its epoch is not before the election's |
| `ClusterNode.Server.HandleSlaveFailover` | hw5/redis-4.0.6/src/cluster.c:2906-2998 | one call schedules an attempt, asks for votes in the next epoch, or wins with more than half of the masters, and the winner's own configEpoch then is the election's epoch, unless later already; no other epoch changes |
| `ClusterProtocol.EpochDomination` | hw5/redis-4.0.6/src/cluster.c:949-1073 | in every state of every run currentEpoch is at least every stored configEpoch, and no message carries a configEpoch above its currentEpoch |
| `ClusterProtocol.EpochsMonotone` | hw5/redis-4.0.6/src/cluster.c:1668-1683 | along every run currentEpoch never decreases, nor does the configEpoch stored for a node that stays known |
| `ClusterProtocol.MovesLandAbove` | hw5/redis-4.0.6/src/cluster.c:993-1073 | in every run a bump or a collision move lands strictly above every configEpoch the node knew and knows |
| `ClusterProtocol.VotesAreUnique` | hw5/redis-4.0.6/src/cluster.c:2599-2699 | in every run a node grants at most one vote per epoch |
| `ClusterProtocol.CountIsVotes` | hw5/redis-4.0.6/src/cluster.c:2002-2014 | a candidate's count is a set of votes for it in its election epoch if and only if no ack was counted between scheduling and request |
| `ClusterOutcome.VotesAreDeserved` | hw5/redis-4.0.6/src/cluster.c:2599-2699 | in every run a request gets a vote, and an ack is sent, if and only if it is deserved, is of no earlier epoch than the voter's, and the voter has not voted in that epoch before |
| `ClusterOutcome.ElectionEpochIsNew` | hw5/redis-4.0.6/src/cluster.c:2968-2981 | in every run the epoch an election is held in is later than every configEpoch the candidate knows, and is the epoch of its request |
| `ClusterOutcome.WinnerTakesEpoch` | hw5/redis-4.0.6/src/cluster.c:2983-2998 | in every run the winner has more than half of the masters' acks, its own configEpoch becomes the epoch it won unless later already, and no other configEpoch it knows changes |
| `ClusterOutcome.WinnersKeepEpoch` | hw5/redis-4.0.6/src/cluster.c:2983-2998 | in every later state every winner is known to itself at the epoch it won or a later one |
| `ClusterOutcome.EpochsSpread` | hw5/redis-4.0.6/src/cluster.c:1668-1683 | in every run a ping, pong or UPDATE can be received at any later moment, and whoever receives it and knows the sender then has epochs no earlier than those the sender had |
| `ClusterServer.Act` | hw5/redis-4.0.6/src/cluster.c:2599-2998 | every step of the protocol is a call of a method of the acting server, which gets it to the state the protocol says |
| `ClusterProtocol.WinnersShareNoVoter` | hw5/redis-4.0.6/src/cluster.c:2599-2699 | in every run different winners of one epoch have no voter in common, and voters and stale acks of each make up its quorum |
| `ClusterProtocol.OneWinnerPerEpoch` | hw5/redis-4.0.6/src/cluster.c:2837-2998 | two victories in one epoch that together had more voters than there are masters are of the same node |
| `ClusterProtocol.TwoWinnersNeedStale` | hw5/redis-4.0.6/src/cluster.c:2837-2998 | in every run with a fixed set of masters, two different nodes win one epoch only if together they counted at least as many stale acks as two quorums exceed the masters |
| `ClusterProtocol.ElectionSafety` | hw5/redis-4.0.6/src/cluster.c:2837-2998 | with a fixed set of masters and no ack counted between scheduling and request, at most one node wins any epoch, in every run |
| `ClusterStaleAcks.StaleAcksElectTwo` | hw5/redis-4.0.6/src/cluster.c:2906-2982 | for every number of masters there is a run in which two slaves win one epoch with exactly that many stale acks, because the count is zeroed at scheduling but the epoch moves only at the request |
| `ClusterStaleAcks.StaleAcksDecide` | hw5/redis-4.0.6/src/cluster.c:2837-2998 | so with m masters two nodes can win one epoch with at most a given number of stale acks if and only if that number is at least 1, for odd m, or 2, for even m |
| `Popcount.FoldLanes` | hw5/redis-4.0.6/src/bitops.c:66-79 | the three folding lines leave each byte's number of ones in that byte of the word |
| `Popcount.GatherLanes` | hw5/redis-4.0.6/src/bitops.c:80-86 | the multiplication by 0x01010101 adds the four lanes in the top byte without overflow, for lanes up to 56 |
| `Popcount.BlockCount` | hw5/redis-4.0.6/src/bitops.c:54-87 | a block of seven words yields the number of ones in its 28 bytes |
| `Popcount.RedisPopcount` | hw5/redis-4.0.6/src/bitops.c:40-92 | for every byte string and alignment the result is the bit-by-bit count |
| `Bitpos.WordSkips` | hw5/redis-4.0.6/src/bitops.c:132-142 | a word equals all zeros or all ones exactly when each of its bytes does |
| `Bitpos.Skip` | hw5/redis-4.0.6/src/bitops.c:118-142 | nothing before the stopping place matches, and the next padded word decides |
| `Bitpos.LoadPadded` | hw5/redis-4.0.6/src/bitops.c:144-159 | the loaded word is the number the next 64 bits write, with zeros past the end |
| `Bitpos.RedisBitpos` | hw5/redis-4.0.6/src/bitops.c:101-186 | the least matching position; without one, count*8 for a zero and -1 for a one; the panic is unreachable |
| `Bitfield.SetUnsigned` | hw5/redis-4.0.6/src/bitops.c:209-222 | the field's bits become the low bits of the value and every other bit stays |
| `Bitfield.GetUnsigned` | hw5/redis-4.0.6/src/bitops.c:229-241 | the number the field's bits write |
| `Bitfield.HeldNumber` | hw5/redis-4.0.6/src/bitops.c:209-241 | reading back a stored value gives its low bits |
| `BitfieldOps.GetSigned` | hw5/redis-4.0.6/src/bitops.c:243-263 | the two's complement reading of the field, for 1 to 63 bits |
| `BitfieldOps.SetSigned` | hw5/redis-4.0.6/src/bitops.c:224-227 | stores the value modulo 2^64 |
| `BitfieldOps.StoreThenRead` | hw5/redis-4.0.6/src/bitops.c:209-263 | get after set gives the value wrapped to the field, the value itself when it fits, and no other bit changes |
| `BitfieldOps.WrappedIs` | hw5/redis-4.0.6/src/bitops.c:314-323 | the wrapped value is the one and only value in range that is congruent modulo 2^bits |
| `BitfieldOps.ClampIs` | hw5/redis-4.0.6/src/bitops.c:288-375 | saturation gives the one value of the field that is nearest, and the value itself when it fits |
| `BitfieldOps.ReadingIs` | hw5/redis-4.0.6/src/bitops.c:243-263 | a field is read as the congruent value in its range, negative exactly when it is signed and its top bit is set |
| `BitfieldOps.CheckUnsignedIs` | hw5/redis-4.0.6/src/bitops.c:288-323 | reports 0 exactly when value plus increment fits, 1 for a sum above the range or any overflow that wraps, -1 for one below, and gives the congruent value in range, the nearest value, or nothing |
| `BitfieldOps.CheckSignedIs` | hw5/redis-4.0.6/src/bitops.c:325-375 | the same for signed fields |
| `BitfieldOps.IncrBy` | hw5/redis-4.0.6/src/bitops.c:1022-1081 | the reply is the exact sum if it fits, else the congruent value in range, the nearest value or nothing, by overflow type; the field then reads as the reply; a failed overflow changes nothing |
| `BitfieldOps.Set` | hw5/redis-4.0.6/src/bitops.c:1036-1081 | replies the old value and stores the value if it fits, else the congruent value, the nearest value or nothing, taking the argument of an unsigned field as unsigned 64-bit |
| `BitfieldOps.SetUnsignedSaturates` | hw5/redis-4.0.6/src/bitops.c:1066-1071 | so a saturating SET of an unsigned field stores the nearest value if and only if the argument is not negative; a negative one stores the maximum |
| `SortedIndex.SeekFinds` | hw5/redis-4.0.6/src/db.c:1414 | seeking a member of the sorted index finds it |
| `SortedIndex.InsertSorted` | hw5/redis-4.0.6/src/db.c:1380-1381 | inserting keeps the order and adds exactly that string |
| `SortedIndex.RemoveSorted` | hw5/redis-4.0.6/src/db.c:1382-1383 | removing keeps the order and removes exactly that string |
| `Keyspace.SlotsAscend` | hw5/redis-4.0.6/src/db.c:1369-1386 | slots never decrease along the index, whatever the keys |
| `Keyspace.SeekSlot` | hw5/redis-4.0.6/src/db.c:1434-1435 | seeking the two slot bytes of a slot that has keys finds an entry of that slot |
| `Keyspace.Database.constructor` | hw5/redis-4.0.6/src/db.c:1369-1386 | an empty database agrees with its indexes |
| `Keyspace.Database.SlotToKeyUpdateKey` | hw5/redis-4.0.6/src/db.c:1369-1386 | index entry and slot count change together for the key |
| `Keyspace.Database.Add` | hw5/redis-4.0.6/src/db.c:167-174 | adds a new key and keeps expires, index and counts in agreement |
| `Keyspace.Database.Overwrite` | hw5/redis-4.0.6/src/db.c:181-197 | changes the value of a key and nothing else |
| `Keyspace.Database.ExpireIfNeeded` | hw5/redis-4.0.6/src/db.c:1097-1131 | a key without an expire, with a negative one, or not past it stays; one past it is deleted, unless this is a slave; while loading nothing changes; the result is whether the time has passed |
| `Keyspace.Database.LookupKeyWrite` | hw5/redis-4.0.6/src/db.c:146-149 | a key past its time on a master that is not loading is gone and not found; otherwise nothing changes and the result is whether it is there |
| `Keyspace.Database.SetKey` | hw5/redis-4.0.6/src/db.c:206-215 | sets the key and makes it persistent, whether or not it was due to expire |
| `Keyspace.Database.SyncDelete` | hw5/redis-4.0.6/src/db.c:248-258 | removes the key from both dictionaries, the index and the counts; true exactly when it was there |
| `Keyspace.Database.RemoveExpire` | hw5/redis-4.0.6/src/db.c:1033-1038 | removes the expire; true exactly when there was one |
| `Keyspace.Database.SetExpire` | hw5/redis-4.0.6/src/db.c:1044-1056 | sets the expire of an existing key |
| `Keyspace.Database.GetExpire` | hw5/redis-4.0.6/src/db.c:1060-1072 | the expire or -1; the safety assertion holds |
| `Keyspace.Database.Flush` | hw5/redis-4.0.6/src/db.c:1396-1401 | everything is empty and in agreement |
| `Keyspace.Database.Rename` | hw5/redis-4.0.6/src/db.c:839-879 | NoSuchKey exactly when the source is missing or past its time; Same for equal names; Refused exactly when nx is set and the destination is there and not past its time; otherwise value and expire move to the new name, replacing what was there, the expire if and only if it is not -1; the state after each |
| `Keyspace.Database.GetKeysInSlot` | hw5/redis-4.0.6/src/db.c:1406-1421 | up to count different keys of the slot, and all of them when fewer are returned |
| `Keyspace.Database.DelFirstInSlot` | hw5/redis-4.0.6/src/db.c:1433-1441 | each round deletes a key of the slot |
| `Keyspace.Database.DelKeysInSlot` | hw5/redis-4.0.6/src/db.c:1425-1444 | ends, removes exactly the keys of the slot from both dictionaries, and returns their number |
| `AdList.List.constructor` | hw5/redis-4.0.6/src/adlist.c:41-53 | an empty list |
| `AdList.List.AddNodeHead` | hw5/redis-4.0.6/src/adlist.c:88-106 | a fresh node with the value in front of the sequence |
| `AdList.List.AddNodeTail` | hw5/redis-4.0.6/src/adlist.c:114-132 | a fresh node with the value at the end of the sequence |
| `AdList.List.InsertNode` | hw5/redis-4.0.6/src/adlist.c:134-161 | a fresh node right before or after the given one |
| `AdList.List.DelNode` | hw5/redis-4.0.6/src/adlist.c:167-180 | the sequence without that node, the others still linked both ways |
| `AdList.List.Index` | hw5/redis-4.0.6/src/adlist.c:315-327 | the node at the index, from the tail for negative ones, null out of range |
| `AdList.List.Rotate` | hw5/redis-4.0.6/src/adlist.c:330-343 | the last node comes first; lists of at most one node stay |
| `AdList.List.Join` | hw5/redis-4.0.6/src/adlist.c:347-362 | the concatenation of two lists without common nodes, leaving the other empty and valid |
| `AdList.Iter.constructor` | hw5/redis-4.0.6/src/adlist.c:186-197 | starts at the head or the tail |
| `AdList.Iter.Next` | hw5/redis-4.0.6/src/adlist.c:229-240 | returns the remembered node and remembers its successor in the direction |
| `AdList.TraverseFromHead` | hw5/redis-4.0.6/src/adlist.c:215-240 | a traversal that deletes any of the nodes just returned visits every original node once, in order, and leaves exactly the others |
| `AdList.TraverseFromTail` | hw5/redis-4.0.6/src/adlist.c:215-240 | the same from the tail, in the opposite order |
| `EvictionPool.OfferedKeepsBest` | hw5/redis-4.0.6/src/evict.c:208-240 | an insert keeps the ascending order and the 16 most idle of the old items and the new one; what is lost is no more idle than anything kept |
| `EvictionPool.OfferedAllKeepsBest` | hw5/redis-4.0.6/src/evict.c:162-255 | so do any number of inserts: the pool holds the 16 most idle of everything offered |
| `EvictionPool.InsertGood` | hw5/redis-4.0.6/src/evict.c:208-255 | the array after the shift and the write holds those items as a prefix, and its cached buffers are still a permutation |
| `EvictionPool.WrittenKeeps` | hw5/redis-4.0.6/src/evict.c:243-253 | writing a key into a cached buffer disturbs no other entry's key |
| `EvictionPool.Pool.constructor` | hw5/redis-4.0.6/src/evict.c:139-151 | an empty pool with sixteen different buffers |
| `EvictionPool.Pool.FindPlace` | hw5/redis-4.0.6/src/evict.c:208-211 | the first empty entry or the first at least as idle |
| `EvictionPool.Pool.Open` | hw5/redis-4.0.6/src/evict.c:219-240 | the shift right or left, with the freed buffer passed to the vacated entry |
| `EvictionPool.Pool.Insert` | hw5/redis-4.0.6/src/evict.c:208-255 | the occupied entries become the offered sequence, and the pool stays well formed |
| `EvictionPool.Pool.Populate` | hw5/redis-4.0.6/src/evict.c:162-255 | the fold of the inserts over the samples |
| `EvictionPool.Pool.PopBest` | hw5/redis-4.0.6/src/evict.c:436-463 | the most idle entry whose key still exists is taken, everything at or above it is emptied, everything below stays |

## Left out

- Chains of `dict.c` are sequences: `next` pointers and the lifetime of entries are not modelled.
- Bucket indexes that do not fit an `int` (2^31 buckets or more).
- Dictionary.NextPower: does not model the cap at LONG_MAX, which no table in memory reaches.
- The bucket callback of `dictScan`, unsafe iterators and `dictFingerprint`, random keys, `dictGetSomeKeys`.
- Hash functions and CRC16 are arbitrary functions of the key.
- DictIterator.Next: works on dictionary values and returns the changed iterator, since iterator and
  dictionary only share the counter `iterators`.
- Scan.DictScan: works on dictionary values, since the call does not change the dictionary.
- The loader on a NUL byte right after a `*`, on counts that overflow `atoi`, and a zero-length file.
- AOF truncation inside MULTI/EXEC, the RDB preamble, starting and stopping the AOF while running, and module
  values.
- AofObjects.SnapshotRebuilds: the data set walked has no keys past their expire time, which a rewrite skips.
- AofObjects.ForkIsSound: the same.
- The translation of EXPIRE and SETEX to absolute times when a command is logged.
- AofObjects.RewriteItems: one loop for lists, sets, sorted sets and hashes, with one or two strings to an
  item; the encodings the items are read from are not modelled.
- AofBuffers.Writer.Flush: background fsync is a flag; the file is a byte sequence without a page cache.
- Gossip, failure detection, timers, slave migration, manual failover bookkeeping, hard reset and restart of
  nodes; senders in handshake.
- ClusterNode.Server.HandleSlaveFailover: the preconditions of the call (role, failed master, data age) and
  its clocks are parameters or left to the caller.
- SlotTable.Table.UpdateSlotsConfigWith: turning into a slave of the new owner and deleting the keys of lost
  slots are reported, not carried out.
- SlotTable.Table.DelNode: failure reports and the list of slaves of the deleted node's master.
- SlotClaims.ClaimsConverge: one claim from each master, not a series of claims with rising epochs.
- BitfieldOps.GetSigned: 64-bit signed fields, whose sign extension shifts by the word size.
- BitfieldOps.CheckSignedIs: the same.
- BitfieldOps.IncrBy: the same.
- BitfieldOps.Set: the same, and arguments so far below a signed range that `max - value` overflows.
- Popcount.RedisPopcount: the 256-entry table of byte counts is taken as the number of ones of the byte.
- Bitpos.RedisBitpos: words of eight bytes; other word sizes are not modelled.
- BITOP, BITCOUNT ranges, growing the string and the GET path of BITFIELD.
- Other databases than the one indexed, lazy freeing and the propagation of expired keys in `db.c`; the radix
  tree is a sorted sequence of byte strings.
- EvictionPool.Pool.Populate: sampling and the idle score of a key are inputs.
- listDup, listSearchKey and value destructors in `adlist.c`.

# uldb, verified

A Dafny 4.11 model of the embedded database uldb and proofs about it: the persistent hash trie behind snapshots,
branches and transactions; the MVCC store and server-side sessions; the LSM read and write path with its cache; log and
page formats with recovery; and the search indexes. `dafny verify dfyconfig.toml` checks everything.

| component | modules |
|---|---|
| hash trie, branches | `Bits`, `Hamt`, `Branch` |
| MVCC, sessions | `VersionChains`, `MvccStore`, `Interleavings`, `Serializability`, `SessionRuns`, `Sessions` |
| LSM path | `Lex`, `Pages`, `Compaction`, `Memtables`, `Caches`, `EngineRuns`, `Engines` |
| formats, recovery | `BigEndian`, `Decimals`, `Wal`, `Recovery`, `PageCodec`, `PageStore` |
| search | `EditDistance`, `Graph`, `Beam`, `Neighbours`, `Hnsw`, `Tokens`, `Bm25`, `Relevance`, `KeywordIndex` |

Objects the program updates in place are classes whose methods are proved against functions on values; the main
theorems are about those functions, over every input, every run or every interleaving. Words are unbounded integers
with 16-, 32- and 64-bit limits and wrap-around written out where the code depends on them. FNV, CRC-32, DEFLATE, the
logarithm and vector distance are function parameters. The only facts assumed of them are that inflating undoes
deflating, that `ln` is positive above one, and that distances are totally ordered; the laws of ranking by rarity also
take `ln` as increasing, and `PageCodec.RoundTripExact` that a cut DEFLATE stream does not inflate. Distances and
scores are reals. Choices the program leaves to a hash map's order are nondeterministic.

Hypotheses that come from the code:

- *Distinct hashes.* Two keys with equal 64-bit hashes make insertion recurse without end
  (`src/tx/hamt.rs:222-230`), so every trie carries a set of keys in play whose hashes differ.
- *Worker drained.* A flushed page counts as added to the levels before the next read: the table is emptied before it is
  frozen (`src/engine.rs:641-663`), so nothing else would answer for its keys.
- *Commit granularity.* `Interleavings` splits a commit into single-key steps, as the per-key lock does
  (`src/tx/mvcc.rs:224-245`). Serial equivalence takes the commit as one step, and so does `SessionRuns` for
  `commit_tx`, which validates and applies under separate locks (`src/server.rs:201`, `src/server.rs:218`).

Where the code and its documentation disagree, or a promise fails, the model follows the code; the exact condition is
proved and an input that fails is given:

- `merge_pages` is documented for newest-first pages (`src/storage/compaction.rs:84-95`) but gets L0 oldest first
  (`src/storage/compaction.rs:50-54`): `Compaction.AddPageExact`, `Compaction.MergeResurrectsOldest`.
- `branch_merge` does not invalidate the cache (`src/engine.rs:774-782`): `EngineRuns.MergeReadExact`,
  `EngineRuns.StaleAfterMerge`.
- `branch_merge` must be durable by its own comment but does not flush the log writer (`src/engine.rs:774-782`):
  `Engines.Engine.BranchMerge`, `EngineRuns.LostMergeExact`, `EngineRuns.UnloggedMergeIsLost`.
- The log is said to be truncated after replay (`src/engine.rs:211-212`) but is appended to
  (`src/storage/wal.rs:39-42`): `Recovery.WritesBehindTornTailExact`, `Recovery.WritesBehindTornTailAreLost`.
- An empty value replays as a delete (`src/engine.rs:181-183`): `Recovery.RecoveryIsExact`,
  `EngineRuns.EmptyValueIsLost`.
- A memtable at the threshold after replay is drained before the trie is rebuilt from it
  (`src/engine.rs:197-209`): `Recovery.StateRebuiltExact`, `Recovery.FullReplayEmptiesTrie`.
- `scan` takes an engine that has not flushed since it was opened for one with no pages
  (`src/engine.rs:447-457`): `Engines.ScanExact`, `Engines.ScanMissesReopenedPages`.
- `levenshtein` is said to return `max_dist + 1` when exceeded (`src/index/fuzzy.rs:55`) but may return more:
  `EditDistance.Levenshtein`, `EditDistance.DocumentedResultMissed`. It also compares byte lengths of Unicode strings
  (`src/index/fuzzy.rs:57-61`): `EditDistance.ByteCutCanBeWrong`.
- Unreadable page files are said to be skipped (`src/storage/page_store.rs:87-88`), but one whose record count does not
  match panics (`src/storage/page.rs:197`): `PageStore.PageDirectory.LoadAll`, `PageCodec.MissingRecordAborts`.
- An intent covered by another one is never stamped though its transaction reports success
  (`src/tx/mvcc.rs:92-101`): `Interleavings.WriteSurvivesExactly`, `Interleavings.CoveredIntentIsLost`.
- Indexing a key again without removing it leaves two live documents, as replay does (`src/engine.rs:186-190`):
  `KeywordIndex.KeywordSearch.AddDocument`, `KeywordIndex.IndexReplayed`.

## Model

| member | source | states |
|---|---|---|
| `Bits.PopcountIsRank` | src/tx/hamt.rs:78-81 | counting the ones of a bitmap masked below a bit gives that bit's rank, the number of set bits under it, for every bitmap and bit |
| `Bits.RankMonotone` | src/tx/hamt.rs:78-81 | ranks grow with the bit, strictly across a set bit, so children in the dense array stay in bit order |
| `Bits.SlotHasBit` | src/tx/hamt.rs:43-57 | every slot of the dense array belongs to a set bit whose rank it is, so popcount and array length agree both ways |
| `Bits.SetBit` | src/tx/hamt.rs:256-262 | setting a clear bit adds one child, keeps every other bit, and shifts the ranks above it by one |
| `Bits.ClearBit` | src/tx/hamt.rs:286-329 | clearing a set bit keeps every other bit and shifts the ranks above it down by one |
| `Hamt.DigitsDetermineHash` | src/tx/hamt.rs:73-75 | the 13 five-bit digits of a 64-bit hash determine it |
| `Branch.SeparationIsExact` | src/tx/hamt.rs:222-230 | two hashes differ in some digit at level 12 or above exactly when they differ, so colliding inserts end |
| `Hamt.InsertValid` | src/tx/hamt.rs:202-280 | insertion keeps the invariant: bitmap matches children, every leaf lies on its own hash path, no digit beyond level 12 is taken |
| `Hamt.InsertLookup` | src/tx/hamt.rs:202-280 | after an insert the inserted key reads as the new value and every other key on the way reads as before |
| `Hamt.RemoveValid` | src/tx/hamt.rs:286-329 | removal keeps the invariant and never leaves an empty branch behind |
| `Hamt.RemoveLookup` | src/tx/hamt.rs:286-329 | after a removal the key is absent and every other key reads as before |
| `Hamt.LeavesAreLookups` | src/tx/hamt.rs:335-346 | a binding is among the collected leaves exactly when the digit walk finds it |
| `Hamt.LeavesDistinct` | src/tx/hamt.rs:335-346 | no key is collected twice |
| `Hamt.ContentsAreLookups` | src/tx/hamt.rs:115-140 | the trie's abstract map, its entry list and its lookups agree for every key |
| `Hamt.Get` | src/tx/hamt.rs:115-140 | the loop over levels returns what the finite map holds for the key |
| `Hamt.Put` | src/tx/hamt.rs:145-153 | the map with the key bound to the value, and a length equal to its size |
| `Hamt.Delete` | src/tx/hamt.rs:158-168 | the map without the key, unchanged when it was absent, and a length equal to its size |
| `Branch.TrieIsMap` | src/tx/hamt.rs:94-168 | for every sequence of puts and deletes over keys with distinct hashes, every lookup and the length equal those of the finite map built by the same sequence |
| `Branch.CollectLeaves` | src/tx/hamt.rs:335-346 | the recursive push appends exactly the leaves of the node, in order |
| `Branch.Iter` | src/tx/hamt.rs:179-185 | every binding once and nothing else, as many as `len` |
| `Branch.MergeFrom` | src/tx/hamt.rs:189-195 | the other trie's bindings laid over this one's, and how many there were |
| `Branch.BranchDiff` | src/engine.rs:795-826 | exactly the keys on which live and branch differ, each once with both values |
| `VersionChains.GcPreservesChain` | src/tx/mvcc.rs:130-158 | collection at a horizon keeps every read and every committed-since answer at or above it, keeps order and never empties a chain |
| `VersionChains.GcPreservesReads` | src/tx/mvcc.rs:130-158 | the same for every key of the store |
| `VersionChains.GcReadExact` | src/tx/mvcc.rs:130-158 | at any snapshot, below the horizon too, a read is unchanged exactly when it found nothing or a version it may see was kept |
| `VersionChains.GcCutsAtHorizon` | src/tx/mvcc.rs:130-158 | what is left is a prefix that ends at the first stamped version below the horizon with a stamped one above it, or the whole chain when there is none: nothing collectable stays |
| `VersionChains.CutIsUnique` | src/tx/mvcc.rs:130-158 | there is only one such prefix, so collecting less or more is no cut at the horizon |
| `MvccStore.Mvcc.Read` | src/tx/mvcc.rs:67-79 | the newest version committed at or before the snapshot |
| `MvccStore.Mvcc.WriteIntent` | src/tx/mvcc.rs:81-90 | one unstamped version on top of the key's chain, everything else untouched |
| `MvccStore.Mvcc.CommitKey` | src/tx/mvcc.rs:92-101 | stamps the head exactly when it is an unstamped version of that transaction, and says whether it did |
| `MvccStore.Mvcc.AbortKey` | src/tx/mvcc.rs:103-114 | drops the head exactly when it is an unstamped version of that transaction |
| `MvccStore.Mvcc.HasCommittedSince` | src/tx/mvcc.rs:116-128 | whether some version of the key carries a later timestamp |
| `MvccStore.Mvcc.Gc` | src/tx/mvcc.rs:130-158 | every chain is cut at its horizon, so everything collectable goes and nothing else; no key disappears, and the count returned is the drop in the number of versions |
| `MvccStore.Mvcc.VersionCount` | src/tx/mvcc.rs:160-176 | the number of versions over all chains |
| `MvccStore.Transaction.Get` | src/tx/mvcc.rs:206-218 | own writes first, then the snapshot (the current timestamp under read committed); a serializable fall-through read is recorded |
| `MvccStore.Transaction.Commit` | src/tx/mvcc.rs:224-245 | fails exactly on a conflict and then changes nothing; otherwise one new version per written key, all with the next timestamp |
| `Interleavings.StepKeepsOrder` | src/tx/mvcc.rs:57-114 | every single intent, draw, stamp, abort and collection keeps each chain ordered by present and future timestamps |
| `Interleavings.ChainsStayDescending` | src/tx/mvcc.rs:92-101 | in every interleaving from an empty store, stamped versions stay in strictly descending order |
| `Interleavings.StableExactly` | src/tx/mvcc.rs:57-158 | a read at a snapshot is the same in every continuation exactly when every version that can still be stamped at or below the snapshot holds the value read already |
| `Interleavings.SnapshotIsStable` | src/tx/mvcc.rs:224-245 | so a snapshot taken when no commit at or below it is half stamped reads the same for every key in every continuation whose collections stay at or below it |
| `Interleavings.UnfinishedCommitShows` | src/tx/mvcc.rs:224-245 | a run from an empty store in which a snapshot at a drawn timestamp reads nothing, and the value after the next stamp |
| `Interleavings.StampTakesEffect` | src/tx/mvcc.rs:92-101 | a stamp changes the store, and some snapshot can read the write from then on, exactly when the intent still heads its chain |
| `Interleavings.WriteSurvivesExactly` | src/tx/mvcc.rs:224-245 | a committed write becomes readable exactly when no other intent came on the key between its intent and its stamp; otherwise no continuation ever makes it readable |
| `Interleavings.CoveredIntentIsLost` | src/tx/mvcc.rs:81-101 | two overlapping commits on one key from an empty store: the covered one draws its timestamp and is never readable, whatever follows |
| `Serializability.CommitMoves` | src/tx/mvcc.rs:224-233 | a serializable transaction that passes validation saw exactly what it would see if it ran entirely at its commit point |
| `Serializability.ConflictExact` | src/tx/mvcc.rs:224-233 | in every reachable state a commit fails exactly when it is serializable and some key it read from the store was written by a transaction that committed after its snapshot |
| `Serializability.ReadCommittedIsCurrent` | src/tx/mvcc.rs:206-218 | in every reachable state a read-committed transaction reads the latest committed state under its own writes |
| `Serializability.BeginReadsLatest` | src/tx/mvcc.rs:189-204 | a transaction that begins now sees everything committed so far, at every level |
| `Serializability.StepKeepsInv` | src/tx/mvcc.rs:180-271 | every begin, get, put, commit, drop and collection keeps store, transactions and committed log consistent |
| `Serializability.HistoryIsSerial` | src/tx/mvcc.rs:206-245 | in every run with atomic commits, timestamps count the commits, each committed serializable transaction saw what serial execution in that order shows it, a snapshot one what its snapshot showed, a read-committed one at every read the state committed at that moment, and current reads are the serial result |
| `Serializability.TransfersConserve` | src/tx/mvcc.rs:206-245 | any stretch of committed serializable transfers leaves the total over the accounts unchanged, whatever was interleaved |
| `SessionRuns.BufferIsOverlay` | src/tx/session.rs:87-104 | scanning the write buffer backwards and falling back to the snapshot equals looking the key up in the snapshot with the buffer applied |
| `Sessions.SessionGet` | src/tx/session.rs:87-104 | that value, and the key recorded exactly for a serializable read that falls through |
| `SessionRuns.ValidationIsExact` | src/server.rs:191-214 | a commit is refused exactly when it is serializable and the live map would not have given the transaction the reads it saw |
| `SessionRuns.TxStepKeepsInv` | src/server.rs:180-284 | every begin, get, write, commit, rollback and plain write keeps: the live map is the serial result, each active session has the snapshot of its begin and a consistent past, each applied one is explained |
| `SessionRuns.RunsAreSerial` | src/server.rs:180-284 | in every run of those steps the live map is the serial execution of the applied sessions in commit order, each serializable one explained at its place, every other one at the place of its begin |
| `Sessions.CommitRunsAtCommitTime` | src/server.rs:191-235 | an accepted serializable commit has the same reads and final map as running the whole transaction at commit time |
| `Sessions.ApplyBuffer` | src/server.rs:217-233 | the buffered operations reach the engine in order: trie, history and log agree with them, by a run of engine steps |
| `Sessions.CommitSession` | src/server.rs:191-235 | a conflict leaves the engine as it was; otherwise the buffered operations applied in order and their number |
| `Sessions.IsolationOf` | src/tx/session.rs:38-46 | one is read committed, three is serializable, every other byte a snapshot |
| `Sessions.Handler.BeginTx` | src/server.rs:180-186 | a fresh session on the live trie under an unused identifier, as a begin step |
| `Sessions.Handler.TxGet` | src/server.rs:245-258 | the session's view and its read set after it, or, when there is no such session, a plain engine read with its effect on the cache |
| `Sessions.Handler.TxWrite` | src/server.rs:261-284 | appends to the session's buffer, or reports that there is none |
| `Sessions.Handler.RollbackTx` | src/server.rs:238-241 | forgets the session and leaves the live map alone |
| `Sessions.Handler.CommitTx` | src/server.rs:191-235 | the session is gone in every case; not found, refused and committed are told apart exactly; a commit step of the run, with the writes put through the engine |
| `Sessions.Handler.PlainWrite` | src/server.rs:330-373 | a write outside any session is a plain step of the run and one engine write |
| `Lex.LessMeans` | src/storage/page.rs:216-228 | keys compare bytewise: the first difference decides and a proper prefix comes first, both ways |
| `Lex.PrefixesLieTogether` | src/engine.rs:446-485 | a key with a prefix is not below the prefix and is below every greater key without it, so a range from the prefix holds it |
| `Lex.PrefixRangeExact` | src/engine.rs:446-485 | the keys from a prefix to its successor are exactly those that have it |
| `Pages.BinarySearch` | src/storage/page.rs:202-210 | the position of the key, or the boundary between smaller and not smaller keys when it is absent |
| `Pages.Probe` | src/storage/page.rs:202-210 | live value, tombstone or silence, as the first record for the key says |
| `Pages.Range` | src/storage/page.rs:216-228 | exactly the records with start ≤ key < end |
| `Pages.UnsharedKeyOrderFree` | src/storage/compaction.rs:84-95 | when no two pages hold the key, newest-first and oldest-first stacks answer alike |
| `Compaction.CollectLatest` | src/storage/compaction.rs:86-95 | for every key the record of the first page that holds it |
| `Compaction.MergePages` | src/storage/compaction.rs:86-114 | a strictly sorted page that answers like the first page in the list that holds the key, tombstones dropped only when asked |
| `Compaction.PromotionKeepsView` | src/storage/compaction.rs:71-80 | dropping tombstones on the way into L2 changes no read |
| `Compaction.MergeDropsTombstones` | src/storage/compaction.rs:71-80 | a page merged for L2 holds no tombstone |
| `Compaction.AddKeepsTidy` | src/storage/compaction.rs:41-80 | every added page leaves L0 below its limit, at most one L1 page and that within its size, at most one L2 page and that without tombstones |
| `Compaction.MergeView` | src/storage/compaction.rs:49-68 | keeping tombstones in L1 keeps older L2 values hidden: a read after the merge is the merged pages' first answer, else what lay below |
| `Compaction.AddPageExact` | src/storage/compaction.rs:41-68 | after `add_l0_page` a key reads as the new page laid over the old view exactly when no merge ran or the oldest and newest L0 page holding it agree |
| `Compaction.UnsharedPagesMergeSafely` | src/storage/compaction.rs:41-68 | so the view is preserved whenever the merged L0 pages do not share the key |
| `Compaction.MergeResurrectsOldest` | src/storage/compaction.rs:50-54 | four flushed versions of one key: the merge brings the oldest back |
| `Compaction.CompactionManager.AddL0Page` | src/storage/compaction.rs:41-80 | the page joins L0, or everything above L2 is merged into L1 and promoted exactly when its size is over the limit; L0 is below its limit afterwards, and levels in shape stay so |
| `Compaction.CompactionManager.Get` | src/storage/compaction.rs:117-152 | the newest-wins view of all levels |
| `Compaction.CompactionManager.Scan` | src/storage/compaction.rs:162-183 | holds a key with a value exactly when start ≤ key < end and `get` returns that value |
| `Memtables.Memtable.Write` | src/storage/memtable.rs:46-90 | the newest entry per key under the next sequence number, and a flush signal exactly when the accounted bytes reach the threshold |
| `Memtables.BufferSizeUpdate` | src/storage/memtable.rs:46-90 | an empty table has no size, a new key costs its bytes, its value's and eight, a delete gives back the value's bytes, and overwriting changes the total by the new entry minus the old one, so the running count never drifts |
| `Memtables.Memtable.Drain` | src/storage/memtable.rs:139-145 | hands over everything and leaves an empty table |
| `Caches.LruCache.Get` | src/storage/cache.rs:40-47 | the cached value, which becomes the most recently used; the cached map is unchanged |
| `Caches.LruCache.FindVictim` | src/storage/cache.rs:63-70 | the least recently used entry, whatever order the scan takes |
| `Caches.LruCache.Insert` | src/storage/cache.rs:50-80 | the new binding, and an eviction exactly for a new key in a full cache, of the least recently used entry |
| `Caches.LruCache.Invalidate` | src/storage/cache.rs:83-85 | only that key goes |
| `EngineRuns.StepKeepsInv` | src/engine.rs:239-440 | every safe step keeps: memtable over levels is the newest write, cached keys are not in the memtable, cached values are those of the levels |
| `EngineRuns.GetReturnsNewestWrite` | src/engine.rs:378-410 | in every safe run of puts, deletes, batches, reads, flushes, branch merges and reopenings from an empty directory, `get` returns the newest write the log kept |
| `EngineRuns.FlushExact` | src/engine.rs:632-673 | after a flush the levels hold the newest write of a key exactly when no merge ran or the oldest and newest merged pages agree on it |
| `EngineRuns.MergeBranchExact` | src/engine.rs:766-787 | `branch_merge` keeps the invariant exactly when it writes no cached key |
| `EngineRuns.MergeThenFlushExact` | src/engine.rs:766-787 | after a merge every key reads right until the next flush; after it a cached key does exactly when the merge left its value alone, any other key exactly when the flush merged its pages safely |
| `EngineRuns.MergeReadExact` | src/engine.rs:774-782 | with room in L0 the wrong reads are exactly those of cached keys to which the branch gave another value |
| `EngineRuns.StaleAfterMerge` | src/engine.rs:774-782 | a run from an empty directory that ends with a read of the value from before the merge |
| `EngineRuns.ReopenedBufferIsTruth` | src/engine.rs:177-194 | replay gives every logged key its last value, an empty value coming back as a delete, and no other key |
| `EngineRuns.ReopenExact` | src/engine.rs:126-213 | reopening re-establishes the invariant for the logged writes exactly when they leave no empty value and mention every key on disk |
| `EngineRuns.EmptyValueIsLost` | src/engine.rs:181-183 | a key put with an empty value reads as empty before reopening and as absent after |
| `EngineRuns.LostMergeExact` | src/engine.rs:774-782 | after a crash whose log kept the writes up to some point of a merge, a key reads as merged exactly when the lost part left its value alone and that value is not empty |
| `EngineRuns.FlushedMergeIsShadowed` | src/engine.rs:774-782 | the same when the merge had been flushed to a page, for every key the log mentions: the logged value shadows the page |
| `EngineRuns.UnloggedMergeIsLost` | src/engine.rs:774-782 | a run from an empty directory: the merged value is read, and after a crash that loses the merge's record the older one is |
| `Engines.Engine.Put` | src/engine.rs:239-264 | log file, memtable, cache and trie all take the write, nothing stays pending, a flush follows exactly when the memtable is full, and reads stay right when that flush merges pages safely |
| `Engines.Engine.Delete` | src/engine.rs:416-440 | the same for a tombstone, logged as an empty value |
| `Engines.Engine.PutBatch` | src/engine.rs:302-329 | one batch step, and a flush exactly when the memtable filled up after some entry |
| `Engines.Engine.BulkIngest` | src/engine.rs:342-370 | one batch step and the number of entries, nothing for an empty batch |
| `Engines.Engine.Get` | src/engine.rs:378-410 | memtable, frozen tables, cache, levels in that order, filling the cache from the levels only; while reads are right it returns the newest write and keeps them right, and with trie and history in step it returns what the trie holds |
| `Engines.AskFrozen` | src/engine.rs:386-391 | the newest frozen table that holds the key decides |
| `Engines.Engine.FlushMemtable` | src/engine.rs:632-660 | the memtable's page goes to the levels, a fresh memtable takes over, log and trie stay |
| `Engines.Engine.Scan` | src/engine.rs:446-485 | ascending keys, each in range with the value an uncached read gives and no other, exactly when the fast path is not taken or the levels decide no key of the range; always so for an engine opened empty |
| `Engines.ScanExact` | src/engine.rs:447-457 | the condition under which the fast path is right, both ways |
| `Engines.PrefixScan` | src/engine.rs:446-485 | a right scan from a prefix to its successor lists exactly the keys that have the prefix, each with its value |
| `Engines.Engine.SnapshotCreate` | src/engine.rs:696-705 | the name, or the next counted name for an empty one, is bound to the trie as it is now |
| `Engines.Engine.BranchCreate` | src/engine.rs:749-759 | a copy of the live trie or of the named snapshot, refused exactly when that name is unknown |
| `Engines.Engine.BranchMerge` | src/engine.rs:766-787 | live overlaid by branch by putting exactly its bindings, the count the branch's size, the branch gone; log records stay pending unless the last is as large as the writer's buffer, and exactly then a replay of the file gives every write back; reads stay right exactly when no key of the branch is cached; unknown names change nothing |
| `Engines.Engine.Open` | src/engine.rs:115-232 | the engine whose directory it is after the `Reopen` step, and after a flush when the replayed memtable is full; the trie is that of the replayed memtable |
| `Engines.ScanMissesReopenedPages` | src/engine.rs:447-457 | one logged write reopened at a threshold it reaches: a read finds the key, a scan over it lists nothing |
| `BigEndian.Put16Order` | src/storage/wal.rs:161-187 | 16-bit fields compare bytewise as their numbers do: most significant byte first |
| `BigEndian.Put32Order` | src/storage/wal.rs:161-187 | the same for 32-bit fields |
| `Wal.HeaderFields` | src/storage/wal.rs:161-187 | the record format field by field: checksum of all that follows it, key length, value length, key, value |
| `Wal.Replay` | src/storage/wal.rs:95-157 | the reading loop returns the records up to the first bad or missing one and at most one corruption |
| `Wal.ReadBack` | src/storage/wal.rs:95-187 | a record within the limits, followed by anything, is read back and reading resumes right after it |
| `Wal.ReadTorn` | src/storage/wal.rs:95-157 | any strict prefix of a record yields nothing, a corruption once its checksum is there |
| `Wal.DamageFound` | src/storage/wal.rs:95-157 | damage behind the header of a record is found exactly when it changes the checksum of what follows the checksum field |
| `Wal.DamageEndsReplay` | src/storage/wal.rs:95-157 | with such a record in a log, the records before it come back, it and all behind it are dropped, and one corruption is reported |
| `Wal.RoundTripExact` | src/storage/wal.rs:95-187 | a record survives exactly when its key is under 65536 bytes and its value within the reader's limit |
| `Wal.ReplayPrefix` | src/storage/wal.rs:95-187 | any byte prefix of a log replays to exactly the records wholly inside it |
| `Wal.ReplayDirtyTail` | src/storage/wal.rs:95-187 | arbitrary bytes behind a full log never lose or alter an earlier record |
| `Wal.Append` | src/storage/wal.rs:52-58 | file and buffer together gain the record, the file only grows, small data stays in the buffer, and nothing stays exactly when the data is as large as the buffer |
| `Wal.ReadIsWritten` | src/storage/wal.rs:95-187 | whatever is read as a record is the encoding of that record |
| `Wal.RecordsExact` | src/storage/wal.rs:95-187 | bytes replay to a list of records exactly when they start with its encoding and no record follows |
| `Recovery.ReplayIsReopening` | src/engine.rs:177-194 | replaying the log of a history leaves the memtable of the `Reopen` step |
| `Recovery.RecoversWholeWrites` | src/engine.rs:126-213 | for a log cut at any byte, every key reads as after the writes whose records are whole, and the memtable shadows loaded pages |
| `Recovery.RecoveryIsExact` | src/engine.rs:126-213 | the engine reopened on its whole log reads every key as before the crash exactly when no key held an empty value |
| `Recovery.PendingWritesAreLost` | src/storage/wal.rs:52-68 | what reached the file replays to a prefix of the writes, and to all of them exactly when nothing was pending |
| `Recovery.WritesBehindTornTailExact` | src/storage/wal.rs:38-49 | the log is appended to, never truncated: writes behind a torn tail are replayed exactly when torn and new bytes together start with the new ones and no record follows them |
| `Recovery.WritesBehindTornTailAreLost` | src/storage/wal.rs:38-49 | behind a record torn after its header, later writes shorter than what it lacks are all lost, for every checksum |
| `Recovery.ReplayInto` | src/engine.rs:165-213 | below the threshold memtable and trie both hold the replayed map; at or above it the map goes to a page and both are empty |
| `Recovery.RebuildState` | src/engine.rs:203-209 | the trie of all live memtable entries |
| `Recovery.StateRebuiltExact` | src/engine.rs:196-209 | the rebuilt trie equals the map before the crash exactly when the replayed memtable stayed below the threshold and no value was empty, or the map was empty |
| `Recovery.FullReplayEmptiesTrie` | src/engine.rs:196-209 | one write that reaches the threshold: the key is in a page and the rebuilt trie is empty |
| `Recovery.DrainedPage` | src/engine.rs:662-673 | a sorted page that answers for every key as the memtable did |
| `PageCodec.RecordLayout` | src/storage/page.rs:18-24 | the record format field by field, with its magic and tombstone byte |
| `PageCodec.FileLayout` | src/storage/page.rs:10-16 | the page file field by field, with its magic, version, count and lengths; the body in its shorter form while both lengths fit 32 bits |
| `PageCodec.Serialize` | src/storage/page.rs:96-129 | the file of the page, never longer than its raw form while sizes fit 32 bits |
| `PageCodec.Deserialize` | src/storage/page.rs:132-199 | the checks in their order: length, magic, truncation, inflation, record magic, record count |
| `PageCodec.ParseExact` | src/storage/page.rs:166-195 | a prefix of a body parses to the page exactly when every record fits its widths and nothing is cut off |
| `PageCodec.RoundTripWidths` | src/storage/page.rs:96-199 | with a stored form under 4 GiB a page survives exactly when its records and its record count fit their widths |
| `PageCodec.RoundTripExact` | src/storage/page.rs:96-199 | given that a cut stream does not inflate, a page survives exactly when its records, its record count and the length of the stored form fit their widths |
| `PageCodec.RoundTrip` | src/storage/page.rs:96-199 | pages within the widths round-trip whether or not the compressed form is chosen |
| `PageCodec.TornFileRefused` | src/storage/page.rs:132-151 | a page file cut anywhere is refused, never read as fewer records |
| `PageCodec.MissingRecordAborts` | src/storage/page.rs:197-198 | a record count that does not match is a panic, not a refusal |
| `Decimals.ParsePadded` | src/storage/page_store.rs:213-223 | four-digit padding never changes the index read back, for all 64-bit indices |
| `Decimals.PaddedOrder` | src/storage/page_store.rs:71-71 | padded numbers of one width sort by name as by value |
| `Decimals.PaddedWidth` | src/storage/page_store.rs:71-71 | at least four digits, and exactly four up to 9999 |
| `PageStore.FileNameParses` | src/storage/page_store.rs:71-71 | the name written for a level and an index has the page extension and parses back to both |
| `PageStore.NameOrderIsNotIndexOrder` | src/storage/page_store.rs:71-71 | page 10000 sorts before page 9999 by name |
| `PageStore.LoadIsDeterministic` | src/storage/page_store.rs:96-166 | a directory has one load, whatever order it is listed in |
| `PageStore.SaveThenLoad` | src/storage/page_store.rs:64-173 | loading after saving gives the same pages in the same levels and order, for any page count and whatever was in the directory before, and does not panic |
| `PageStore.TornFileIsSkipped` | src/storage/page_store.rs:136-160 | a torn page file is skipped and every other file is read as before |
| `PageStore.PageDirectory.SaveAll` | src/storage/page_store.rs:64-79 | old page files gone, one file per page, other files untouched |
| `PageStore.PageDirectory.LoadAll` | src/storage/page_store.rs:89-173 | every readable page file once, by level, index and name; a panic exactly when some file's record count does not match |
| `EditDistance.LevIsMinimum` | src/index/fuzzy.rs:70-88 | the recurrence value is the length of some edit script and of no shorter one |
| `EditDistance.NoShorterScript` | src/index/fuzzy.rs:70-88 | no script of inserts, deletes and substitutions is shorter |
| `EditDistance.Symmetric` | src/index/fuzzy.rs:57-57 | swapping the operands never changes the answer |
| `EditDistance.AtLeastLengthGap` | src/index/fuzzy.rs:57-61 | the length gap is a lower bound, so the first cut is safe |
| `EditDistance.AtLeastRowMinimum` | src/index/fuzzy.rs:82-84 | every later row is at least the row minimum, so the early exit is safe |
| `EditDistance.Row` | src/index/fuzzy.rs:71-80 | the next row of the table and its minimum |
| `EditDistance.Table` | src/index/fuzzy.rs:63-88 | one more than the bound exactly when a whole row exceeds it, otherwise the distance |
| `EditDistance.Levenshtein` | src/index/fuzzy.rs:56-89 | right on all ASCII strings; on any strings, right exactly when the byte-length gap is within bounds or the distance is not; the documented `max_dist + 1` exactly when the cut fires rightly, a row stops the loop, or the distance is at most that |
| `EditDistance.ReturnsMoreThanDocumented` | src/index/fuzzy.rs:55-89 | a family of ASCII pairs on which bound one is exceeded and three comes back |
| `EditDistance.DocumentedResultMissed` | src/index/fuzzy.rs:55-89 | "xyz" and "yzqq" with bound one give three, not two |
| `EditDistance.ByteCutCanBeWrong` | src/index/fuzzy.rs:57-61 | an empty string and one two-byte letter: distance one, byte gap two |
| `Graph.RelationGraph.AddNode` | src/index/graph.rs:117-128 | the node's index, the old one if the key was known; links unchanged |
| `Graph.RelationGraph.AddEdge` | src/index/graph.rs:131-138 | exactly one more link, mirrored backwards, endpoints created as needed |
| `Graph.BuildRows` | src/index/graph.rs:142-178 | CSR arrays in which each row is the node's adjacency list |
| `Graph.AllFound` | src/index/graph.rs:232-292 | whatever a walk within the depth bound reaches is found no deeper than the walk is long |
| `Graph.VisitsAreDistances` | src/index/graph.rs:232-292 | recorded depths are shortest-path lengths |
| `Graph.Search` | src/index/graph.rs:232-292 | each node within the bound once and no other, in non-decreasing depth, depth the shortest-path length, a relation by which it was reached |
| `Graph.BackwardIsReverse` | src/index/graph.rs:232-292 | backward walks are the forward walks reversed |
| `Graph.RelationGraph.Bfs` | src/index/graph.rs:232-292 | the same for keys, building first when needed, empty for an unknown start |
| `Beam.SearchLayer` | src/index/hnsw.rs:370-459 | terminates; sorted, no duplicates, at most `ef`; visited nodes left out are at least as far as those returned, every neighbour of a returned node was visited, and all reachable nodes are returned when `ef` is enough for them |
| `Neighbours.SelectNeighbours` | src/index/hnsw.rs:463-485 | greedy in candidate order: each chosen one is diverse, each passed over was blocked by earlier choices, the nearest candidate comes first |
| `Neighbours.ChoiceIsDiverse` | src/index/hnsw.rs:463-485 | in distances: each chosen node is at least as near to the owner as to any chosen before it, and while there is room a candidate is left out only when a chosen one is strictly nearer to it than the owner is |
| `Neighbours.Prune` | src/index/hnsw.rs:487-495 | the greedy choice among the links sorted by distance to their owner |
| `Neighbours.JoinKeepsConnected` | src/index/hnsw.rs:231-251 | a node linked both ways joins a connected layer without breaking any path while the lists have room for every other node |
| `Hnsw.LinkBack` | src/index/hnsw.rs:237-248 | only that node changes, only on that layer: the link is added once, or the list pruned when it would be too long |
| `Hnsw.Descend` | src/index/hnsw.rs:224-228 | never moves away from the query and ends where no neighbour is nearer |
| `Hnsw.InsertAtLayer` | src/index/hnsw.rs:231-251 | the new node gets a non-empty greedy choice from the beam, nearest first; every chosen node links back, pruned when full, every other one and every other layer keeps its links |
| `Hnsw.NextStart` | src/index/hnsw.rs:250-251 | the next layer down is searched from the nearest node found, no farther than where this layer started and a local minimum of it |
| `Hnsw.LinkNode` | src/index/hnsw.rs:230-251 | that on every layer up to the top shared one, each starting where the one above led; layers above keep their links |
| `Hnsw.AttachKeepsConnected` | src/index/hnsw.rs:192-259 | with at most `2 * m + 1` nodes every node stays reachable from every other on the bottom layer |
| `Hnsw.HnswIndex.Add` | src/index/hnsw.rs:192-259 | bad vectors change nothing; otherwise one more node, on every layer it shares with the index linked and linked back as `LinkNode` says from where the descent ended, all other links kept, lists within bounds, the entry point moved exactly for a higher level; up to `2 * m + 1` nodes all stay reachable |
| `Hnsw.HnswIndex.Search` | src/index/hnsw.rs:268-302 | nothing exactly for an empty index or a bad query; otherwise at most `k` keys by distance with their ranks, none farther than a neighbour left out, the `k` nearest of all reachable, or all of them, when the beam is wide enough; in an index of at most `2 * m + 1` vectors and no more than the beam, the `k` nearest of all stored |
| `Tokens.TokensExact` | src/index/bm25.rs:448-487 | the tokens are the maximal alphanumeric stretches between case boundaries, lower-cased, each once and in the order of the text |
| `Tokens.SeparatorSplits` | src/index/bm25.rs:448-487 | any byte that is no ASCII letter or digit separates: the tokens are those before it and those behind it |
| `Tokens.CamelCaseSplits` | src/index/bm25.rs:448-487 | a capital behind a lower-case letter separates in the same way |
| `Tokens.SolidIsOneToken` | src/index/bm25.rs:448-487 | nothing else separates, and capitals count as their lower-case letters |
| `Tokens.Tokenize` | src/index/bm25.rs:448-487 | exactly those tokens, in order |
| `Bm25.InternAndCount` | src/index/bm25.rs:243-265 | the term's count goes up by one, all other counts and all known identifiers stay |
| `Bm25.CountText` | src/index/bm25.rs:175-223 | the direct pass records the same length and per-term counts as tokenising first |
| `Bm25.PostingsAfterAdd` | src/index/bm25.rs:225-239 | every term's posting list stays the list of slots holding it with their counts, and document frequencies its length |
| `Relevance.ContributionPositive` | src/index/bm25.rs:373-399 | every contribution is positive because a document frequency never exceeds the number of slots |
| `Relevance.RarerWeighsMore` | src/index/bm25.rs:378-378 | for an increasing logarithm the term in fewer documents has the greater weight |
| `Relevance.ContributionOrder` | src/index/bm25.rs:378-393 | what a term contributes falls with its document frequency, grows with its occurrences and falls with the document's length, strictly |
| `Relevance.FrequencyCountsHolders` | src/index/bm25.rs:225-239 | the document frequency is the number of slots that hold the term |
| `Relevance.QueryScoreAdds` | src/index/bm25.rs:366-399 | parts of a query score apart, so the order of its terms does not matter |
| `Relevance.RarerTermScoresHigher` | src/index/bm25.rs:366-399 | of two documents of one length, each holding one query term once, the one with the rarer term scores higher |
| `KeywordIndex.ExpectedOnePerSlot` | src/index/bm25.rs:225-239 | no slot occurs twice in a posting list |
| `KeywordIndex.TopK` | src/index/bm25.rs:402-424 | the best `k` touched slots, best first, none left out scoring higher |
| `KeywordIndex.Accumulate` | src/index/bm25.rs:366-399 | exactly the live slots holding a query term are touched, none twice, each with its BM25 sum |
| `KeywordIndex.KeywordSearch.AddDocument` | src/index/bm25.rs:175-239 | one new slot with the tokens of both texts; one live document per key is kept exactly when the key was not indexed or is empty |
| `KeywordIndex.TwoSlotsShowTwice` | src/index/bm25.rs:351-437 | two live slots of one key make a search with room list the key twice |
| `KeywordIndex.IndexReplayed` | src/engine.rs:177-194 | two log records of one key indexed as replay does: the key has two live documents and a search lists it twice |
| `KeywordIndex.HitsAreRight` | src/index/bm25.rs:351-437 | with one live slot per key the hits are right by key |
| `KeywordIndex.KeywordSearch.RemoveDocument` | src/index/bm25.rs:322-344 | the key's slot is blanked and its length taken out of the total; posting lists stay |
| `KeywordIndex.KeywordSearch.OnPut` | src/index/manager.rs:50-63 | the key's document is that of its newest value, one live document per key is kept, and the average length stays that of the live documents |
| `KeywordIndex.KeywordSearch.OnDelete` | src/index/manager.rs:67-72 | the key has none; the average length stays that of the live documents |
| `KeywordIndex.KeywordSearch.Search` | src/index/bm25.rs:351-437 | the best live slots holding a query term, each once with its score; by key, each stored non-empty key at most once, none left out while there is room, none left out scoring higher; the lengths are measured against the mean over the live documents |
| `KeywordIndex.RarerTermFirst` | src/index/bm25.rs:351-437 | of two stored documents of one length, each holding one query term once, the one with the rarer term comes first |

## Left out

- Network server, TLS, authentication, response encoding, watch, flow, config and backup handlers: I/O plumbing.
- Python bindings and agent payload storage: thin wrappers.
- The background compaction thread and its channel: only its effect, one finished `add_l0_page` per page.
- Files, fsync and I/O errors: the log is a byte string, the pages directory a map from name to bytes.
- Profiling variants and operation counters; `put_profiled` also skips cache invalidation.
- `snapshot_restore`: it replaces the trie only, so nothing engine-wide rests on it.
- Internals of FNV, CRC-32 and DEFLATE; that damage changes a checksum is not claimed, only what follows when it does.
- Floating point: rounding and NaN ordering of distances and scores; equal distances are ordered by node number.
- 64-bit overflow of timestamps, sequence numbers, generations and counters.
- Bloom filter, schema validation, query planner, rank fusion, namespaces: small and comparatively easy.
- Trigram candidate selection in the fuzzy matcher, graph depth-first search, graph and HNSW file formats.
- `add_document` and `add_document_parts`, older forms of indexing; `Engines.Engine.Open` does not replay the index.
- KeywordIndex.KeywordSearch.OnPut: texts are bytes, as the unchecked conversion leaves them; the fuzzy index it also
  feeds is not modelled.
- Hnsw.HnswIndex.Add: the random level is a parameter.
- Hnsw.HnswIndex.Search: no claim on recall when the beam is narrower than the reachable layer; the algorithm promises
  none, and beyond `2 * m + 1` vectors pruning may cut nodes off.
- Engines.Engine.Scan: requires start ≤ end, since the ordered-map range panics otherwise.
- PageCodec.RoundTripExact: assumes that a cut DEFLATE stream does not inflate, which only matters for compressed forms
  of 4 GiB or more; `PageCodec.RoundTripWidths` does without it below that size.
- Interleavings.WriteSurvivesExactly: no abort on the key between intent and stamp, as no transaction calls `abort_key`.
- Sessions.Handler.CommitTx: validation and writes are one step; key scoping by namespace is left out.
- Engines.Engine.Open: page files and log file are given as values; indexes are not loaded.

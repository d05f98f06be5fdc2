# Verified model of the blob archive engine

The repository stores a file tree as two blobs: the files' contents, concatenated and optionally compressed, and an
index of entries found by path. This project models the engine that writes, reads, caches, extracts and pulls such
archives, and proves what it is relied on for. The compressor, the hashes, JSON and index decoding, file reads and
registry replies are parameters; the claims hold for every choice of them, or for those that decode what they encode,
or that have no collisions, where a contract says so.

Layout, by what is modelled:

- `Pipeline`, `PipelineSafety`, `PipelineTheorems` (module `PipelineRuns`), `PipelineLiveness`, `PipelineErrors`: the
  pipelined group reader as a step system. Producer, readers, semaphore, consumer and the reports of errors are program
  counters; a run is any list of steps.
- `WorkerPool`: the strided workers inside a group, one step per atomic operation.
- `Batch`, `PipelinedBatch`, `PooledBatch`, `BatchBudget`: selection, validation, sorting, grouping, cutting, decoding and
  the sinks; the pipeline over them, with serial groups or worker pools, and its byte budget.
- `Walk`, `Create`, `Index`, `DirListing`, `ArchiveListing`, `CreatedListing`: the order of creation, lookup, prefix
  scans, listings, and the round trip.
- `Archive`, `Readers`, `StreamingFile`: validation and the four readers that verify content.
- `Disk`, `SizedStore`, `BlockCache`, `ContentCache`, `CachedBlob`: pruning, byte counters, and reads through caches.
- `Manifest`, `Registry`, `DigestChain`: pulling by tag or digest, from the digest down to a file's bytes.
- `Regex`, `Glob`, `GitHubSubject`: the patterns that trust policies compile, read back by a parser and given a meaning.

Where the obvious claim is false of the code, the project proves exactly when it holds and gives a failing input:

- Creation keeps the walk's order, not byte order, so lookup can miss a file that is archived
  (`Create.AllReadableIff`, `Create.OvertakenFileIsMissed`). The comments at core/create.go:27 and
  core/internal/index/index.go:17 promise path order.
- `ReadDir` promises entries sorted by name; over a sorted index they are sorted with a slash appended to directories
  (`DirListing.DirectoryListing`, `ArchiveListing.SortedListingsIff`, `DirListing.ListedOutOfOrder`). In walk order they
  are sorted by name for every tree, and can be incomplete instead (`CreatedListing.CreatedSorted`,
  `CreatedListing.CompleteIff`, `CreatedListing.OvertakenListsNothing`).
- A read-ahead budget that is too small can leave the pipeline stuck with no error
  (`PipelineLiveness.DeadlockFreeIff`, `BatchBudget.PipelinedDeadlockFreeIff`,
  `PipelineLiveness.TwoGroupsCanBeStuck`).
- A failing read can surface as "read pipeline ended unexpectedly" (`PipelineErrors.EndedUnexpectedlyIff`,
  `PipelineErrors.TwoGroupsEndUnexpectedly`).
- A content-cache insertion that would fit can fail and empty the cache (`ContentCache.Cache.Put`,
  `ContentCache.FittingPutCanFail`, `ContentCache.TiedPutCanFail`).
- After reporting surplus data once, a streaming file can report a normal end and close without error
  (`StreamingFile.ReadAfterSurplus`, `StreamingFile.File.Close`, `StreamingFile.SurplusExample`).
- The subject pattern leaves the dot of `.github` unquoted (`GitHubSubject.DotIsAnyCharacter`).

`dafny verify dfyconfig.toml` checks the whole project.

## Model

| member | source | states |
|---|---|---|
| `PipelineSafety.StepInv` | core/internal/batch/batch.go:245-375 | every step of producer, reader, semaphore, consumer or error report keeps the invariant: one place per group, exact budget, no loss before an error, genuine errors, agreement with the sequential loop |
| `PipelineSafety.EarlyEndMeansFailedRead` | core/internal/batch/batch.go:341-346 | when the consumer finds the channel closed before any error is reported, the read of the group it waits for has failed, everything before that group has succeeded, each group that far fits the budget, and if no later read fails the later groups fit together |
| `PipelineRuns.SequentialOrder` | core/internal/batch/batch.go:232-242 | the sequential loop hands groups to the sink in index order, all of them when it succeeds |
| `PipelineRuns.RunSequential` | core/internal/batch/batch.go:232-242 | the loop that reads and processes group after group is the recursive reference that the pipeline is compared with |
| `PipelineRuns.SinkSeesSequentialPrefix` | core/internal/batch/batch.go:335-372 | in every interleaving the groups handed to the sink are 0, 1, 2, ..., a prefix of the sequential trace, and the sink is in the state after exactly those |
| `PipelineRuns.PipelineRefinesSequential` | core/internal/batch/batch.go:245-375 | when all goroutines have returned, success is reported exactly when the sequential loop succeeds, with the same trace and sink |
| `PipelineRuns.BudgetConserved` | core/internal/batch/batch.go:278-304 | in every reachable state the semaphore's counter is the sum of the sizes of the groups acquired and not released, these are the groups being read, sent, buffered or processed, the limit is respected and nothing is released twice |
| `PipelineRuns.NoGroupLost` | core/internal/batch/batch.go:264-372 | until an error is returned or reported, each group dispatched and not consumed is with one reader or buffered, never both |
| `PipelineLiveness.StepLowersMeasure` | core/internal/batch/batch.go:245-375 | every step, also after errors, lowers a measure |
| `PipelineLiveness.RunsAreBounded` | core/internal/batch/batch.go:245-375 | every run's length is bounded by the measure of the initial state |
| `PipelineLiveness.Progress` | core/internal/batch/batch.go:255-375 | with a sufficient budget some goroutine can move in every state that is not final, after errors too |
| `PipelineLiveness.OverfullCanBeStuck` | core/internal/batch/batch.go:278-282 | when groups j..k-1 exceed the budget and the later ones fit, reader 0 can be overtaken while it holds group j, and the run ends stuck |
| `PipelineLiveness.InsufficientBudgetCanBeStuck` | core/internal/batch/batch.go:278-282 | an insufficient budget has a stuck run even if every read and every group would succeed |
| `PipelineLiveness.DeadlockFreeIff` | core/internal/batch/batch.go:255-375 | no run gets stuck, whatever fails, if and only if there is no limit, or one reader and each group fits, or several readers and all groups fit together |
| `PipelineLiveness.TwoGroupsCanBeStuck` | core/internal/batch/batch.go:347-352 | two one-byte groups, two readers and a budget of one byte reach a stuck state |
| `PipelineErrors.ErrorsAreGenuine` | core/internal/batch/batch.go:373-374 | the error that a failing run returns really happened: a failing read, a group whose processing fails in the sequential loop too, or the unexpected end after a failing read |
| `PipelineErrors.EndedUnexpectedlyIff` | core/internal/batch/batch.go:273-346 | with one reader, or a sufficient budget, or at most one failing read, some run returns "read pipeline ended unexpectedly" if and only if some group's read fails after everything before it succeeded, each group that far fits the budget and the later ones fit together: a reader signs off before its error is reported |
| `PipelineErrors.EndsUnexpectedlyIf` | core/internal/batch/batch.go:273-346 | under that condition such a run exists for every number of readers, every budget and any failing reads |
| `PipelineErrors.EarlyEndIsReturned` | core/internal/batch/batch.go:341-346 | from every such state a run finishes and returns that error in place of the read's own |
| `PipelineErrors.TwoGroupsEndUnexpectedly` | core/internal/batch/batch.go:341-346 | two groups, two readers, no budget, a failing first read: a run returns the unexpected end |
| `PipelineErrors.TightNeverEndsUnexpectedly` | core/internal/batch/batch.go:278-346 | room for the later groups cannot be left out: with two readers, a budget of 3 and groups of 1, 3 and 3 bytes, the first and last unreadable, each group fits and no run returns the unexpected end |
| `PipelinedBatch.SinkHoldsFirstGroups` | core/internal/batch/batch.go:335-372 | in every reachable state of pipelined extraction with serial groups the sink holds the entries of the first groups in offset order, up to the first failure |
| `PipelinedBatch.PipelinedExtraction` | core/internal/batch/batch.go:159-214 | with serial groups, under any number of readers and any budget, every complete pipelined run succeeds exactly when all group reads succeed and every entry verifies and is taken, and then sink and statistics are those of delivering the entries one by one |
| `PipelinedBatch.Prepare` | core/internal/batch/batch.go:159-203 | before the pipeline starts: refused exactly when a selected entry is invalid, nothing to do only when nothing is selected, else the groups of an offset order in which each entry stands as often as it was given if it is selected, and not at all otherwise |
| `PipelinedBatch.PipelinedAgreesWithReads` | core/internal/batch/batch.go:159-214 | from the caller's entries to the sink: a complete pipelined run succeeds exactly when all group reads succeed and every selected entry can be read on its own and is taken; then the sink holds what those reads return, in offset order, each delivery as often as the caller's entries ask for it |
| `PooledBatch.PoolAgreesWithSerial` | core/internal/batch/batch.go:387-396 | under any schedule a worker pool succeeds on a group exactly when serial processing does, and then leaves the same in the sink and counts the same bytes |
| `PooledBatch.PooledExtraction` | core/internal/batch/batch.go:159-214 | the same for complete pipelined runs in which each group is processed serially or by a pool, the sink compared as a multiset |
| `PooledBatch.PooledAgreesWithReads` | core/internal/batch/batch.go:159-214 | the same with worker pools, the sink compared as a multiset with the same counts |
| `BatchBudget.PipelinedHolds` | core/internal/batch/batch.go:278-304 | in every reachable state of pipelined extraction the semaphore holds the stored bytes of all entries in the groups acquired and not released, which are within the limit |
| `BatchBudget.PooledHolds` | core/internal/batch/batch.go:278-304 | the same with worker pools |
| `BatchBudget.SizeIsBytes` | core/internal/batch/batch.go:416-420 | a group is charged the stored bytes of its entries |
| `BatchBudget.PipelinedDeadlockFreeIff` | core/internal/batch/batch.go:255-375 | pipelined extraction cannot get stuck, whatever reads and sinks do, if and only if there is no limit, or one reader and each group's entries' stored bytes fit, or several readers and those of all entries fit together |
| `BatchBudget.PooledDeadlockFreeIff` | core/internal/batch/batch.go:255-396 | the same with worker pools under any schedules |
| `WorkerPool.StepInv` | core/internal/batch/batch.go:437-478 | every atomic step of a worker keeps the stride, history and error-slot invariant |
| `WorkerPool.AttemptedOnceAndNeverBlocked` | core/internal/batch/batch.go:437-478 | in every interleaving an entry about to be tried was not tried before, and every worker that has not returned can move, so the send of the error never blocks |
| `WorkerPool.PoolResult` | core/internal/batch/batch.go:437-478 | when all workers returned: success exactly when no attempt failed, exactly when every entry succeeds; then each entry was processed once with the serial count and byte total modulo 2^64; a reported error is a real one |
| `WorkerPool.PoolStatistics` | core/internal/batch/batch.go:437-478 | when all workers returned, after an error too, every attempt was counted or failed, and count and byte total are those of the counted entries, all of which succeeded |
| `WorkerPool.RunsAreBounded` | core/internal/batch/batch.go:446-468 | every schedule of the pool is finite |
| `WorkerPool.ProcessSerial` | core/internal/batch/batch.go:423-434 | the serial loop stops at the first failing entry with the count and byte total so far |
| `Batch.GroupAdjacent` | core/internal/batch/group.go:18-45 | for validated entries the groups concatenate to the input, each group's entries tile its range, and no two consecutive groups can be merged |
| `Batch.CutEntry` | core/internal/batch/batch.go:481-496 | cutting an entry with wrapping 64-bit arithmetic succeeds exactly when its local range is inside the group's bytes |
| `Batch.CutIsStored` | core/internal/batch/batch.go:481-496 | in a tiled group the overflow branch is dead and the cut is the entry's slice of the source |
| `Batch.GroupAt` | core/internal/batch/batch.go:417-420 | each group's entries stand contiguously in the order, its range is inside the source and its size fits a signed 64-bit integer; `BatchBudget.SizeIsBytes` says what the budget is charged for it |
| `Batch.ProcessEntry` | core/internal/batch/batch.go:481-534 | for both kinds of sink, an entry comes to what its specification says, and a writer is committed when content was written, discarded when decoding or writing failed, never both |
| `Batch.HandleOk` | core/internal/batch/batch.go:498-533 | handling an entry succeeds exactly when it can be read and the sink takes it, with the content of a whole-file read |
| `Batch.ProcessGroup` | core/internal/batch/batch.go:423-434 | the serial loop over a group delivers its entries in order on top of what was delivered, up to the first failure |
| `Batch.ExtractGroups` | core/internal/batch/batch.go:232-242 | processing all groups in order is delivering all entries in order |
| `Batch.DeliverAllIff` | core/internal/batch/batch.go:423-434 | delivery succeeds exactly when handling every entry succeeds, and then lists each path with its content |
| `Batch.FirstFailure` | core/internal/batch/batch.go:423-434 | when delivery stops at a failing entry, exactly the entries before it are delivered, with their content and their bytes counted, and its error is the result |
| `Batch.SelectedCounts` | core/internal/batch/batch.go:166-174 | selection takes each accepted entry exactly as often as it is given |
| `Batch.Extract` | core/internal/batch/batch.go:159-214 | one invalid selected entry rejects the batch before anything is delivered; otherwise the outcome is delivery in an offset order in which each entry stands as often as it was given if it is selected, and not at all otherwise |
| `Batch.ExtractAgreesWithReads` | core/internal/batch/batch.go:159-214 | a batch succeeds exactly when every selected entry can be read on its own and the sink takes it; then each delivery, a path with the content read, is made as often as the caller's selected entries give it |
| `Archive.WrapIsModulo` | core/internal/sizing/size.go:25-31 | the wrapping addition and subtraction are arithmetic modulo 2^64 |
| `Archive.AddUint64` | core/internal/sizing/size.go:25-31 | overflow is reported exactly when the true sum does not fit, and otherwise the sum is exact |
| `Archive.ValidateAll` | core/internal/file/validation.go:16-66 | validation passes exactly when the range is inside the source without overflow, sizes are within the limit, the hash has 32 bytes, and uncompressed sizes agree |
| `Readers.EnsureNoExtra` | core/internal/file/hasher.go:35-48 | one more byte is an overflow, a clean end passes, a failing stream's error is handed on |
| `Readers.ReadAll` | core/internal/file/reader.go:106-132 | whole-file reads return exactly the specified content or error, for any chunking of the stream |
| `Readers.DecodeBuffered` | core/internal/batch/batch.go:498-512 | the buffered batch decoder returns exactly what whole-file reads return |
| `Readers.DecodeStreaming` | core/internal/batch/batch.go:594-628 | the streaming batch decoder returns what its specification says, for writers that fail after any number of bytes |
| `Readers.WriteStoredOk` | core/internal/batch/batch.go:537-628 | streaming into a writer succeeds exactly when the whole-file read does and the writer has room, with the same content |
| `StreamingFile.File.Read` | core/internal/file/file.go:45-84 | bytes are delivered in order and hashed; the first end or error is the specification's verdict; a hash mismatch is repeated by every later read |
| `StreamingFile.File.Close` | core/internal/file/file.go:142-172 | with verification on close, success exactly when the whole stream has the promised size and hash; after a surplus report, exactly when the rest of the stream ends cleanly and the promised part has the hash |
| `StreamingFile.Drain` | core/internal/file/file.go:45-84 | reading to the end with any buffer sizes gives the specified content or error |
| `StreamingFile.FourReadersAgree` | core/internal/file/file.go:45-84 | streaming, whole-file, buffered and streaming-batch readers accept the same entries with the same content, and fail with the same error, up to 2^63 - 1 bytes; a decoder that breaks off early is the one exception, and each reader's error for it is stated |
| `StreamingFile.ReadAfterSurplus` | core/internal/file/file.go:215-231 | the read after a surplus report ends normally exactly when one surplus byte followed content with the right hash |
| `StreamingFile.SurplusExample` | core/internal/file/file.go:142-231 | a file of one promised and two decoded bytes reports surplus data, then a normal end, and closes without error |
| `Walk.WalkSortedIff` | core/create.go:120-133 | the walk emits strictly byte-sorted paths exactly when no directory holding archived files has such a sibling whose name is its own followed by a byte below the slash |
| `Walk.WalkDistinct` | core/create.go:120-133 | the walk emits no path twice |
| `Walk.WalkIffFileAt` | core/create.go:120-133 | the walk emits a path with some content exactly when descending the tree by path components finds that file |
| `Walk.ValidElementsIff` | core/blob.go:353-355 | the path check, component after component, accepts exactly the paths in which no stretch between slashes is empty, a dot or two dots |
| `Create.WriteData` | core/create.go:99-139 | creation succeeds exactly within its limits, 200,000 files unless set and no limit when negative, and each error names a limit that is exceeded; entries follow walk order, lie end to end, are compressed exactly when compression is on and the path is not skipped, and each describes its file's stored form, size and hash |
| `Create.ReadFile` | core/blob.go:352-369 | an uncached read refuses exactly the paths that are not UTF-8 or have a component that is empty, a dot or two dots, the path "." aside; it looks the path up and returns the verified content |
| `Create.RoundTrip` | core/internal/fb/Entry.go:61-83 | from the archive of any tree without overtaking, reading p gives exactly p's bytes, and not-found for every path that is no file |
| `Create.AllReadableIff` | core/create.go:231-266 | every archived file can be looked up if and only if no directory is overtaken |
| `Create.CreateThenRead` | core/create.go:99-139 | creation followed by a read, end to end |
| `Create.OvertakenFileIsMissed` | core/create.go:120-133 | with directory a holding b beside file a., the archived a/b is not found |
| `Index.LookupByKey` | core/internal/fb/Entry.go:61-83 | the binary search ends, finds only entries with the key, and over a sorted index misses exactly the absent keys |
| `Index.LookupFinds` | core/internal/index/index.go:78-84 | over a sorted index lookup finds each entry under its path |
| `Index.AllFoundIffSorted` | core/internal/fb/Entry.go:61-83 | the search finds every entry exactly when the index is strictly sorted |
| `Index.PrefixRun` | core/internal/index/index.go:112-142 | in a sorted index the entries with a prefix are one run from the first path not below the prefix |
| `Index.EntriesWithPrefix` | core/internal/index/index.go:112-142 | the prefix scan is determined by the index, and over a sorted one it is exactly the in-order filter by prefix |
| `DirListing.OpenDir.Next` | core/blob.go:955-984 | the iterator yields the first pending child and drops it |
| `DirListing.OpenDir.ReadDir` | core/blob.go:886-907 | n entries or all that are left, and end of file exactly when none is left and n is positive |
| `DirListing.ReadInChunks` | core/blob.go:886-918 | over any index, chunks of any sizes concatenate to what reading at once returns; over a sorted one to the listing of all entries for ".", and of those below the path and a slash for any other directory |
| `DirListing.ListingIsChildren` | core/blob.go:955-984 | the iterator's listing holds a child exactly when some entry has it, each once, in key order |
| `DirListing.NameSortedIff` | core/blob.go:421-444 | a listing in key order is sorted by name exactly when no directory is listed after an extension of its name by a byte below the slash |
| `DirListing.DirectoryListing` | core/blob.go:955-984 | over a sorted index with no file that is also a directory: "." lists exactly the first components of the paths, another directory exactly the components after its path and a slash, with the right kind, each once, in key order, and in name order exactly when no two entries of the index under the directory have children out of order |
| `DirListing.ListedOutOfOrder` | core/blob.go:421-444 | an index of a. and a/b is sorted and its listing is not sorted by name |
| `ArchiveListing.SortedListing` | core/blob.go:955-984 | over a sorted index of a tree's files "." lists exactly the tree's own children that hold a file, with their kinds, and another directory those of the directory found by descending the tree by its path; in name order exactly when the index has no out-of-order pair there |
| `ArchiveListing.PrefixLeads` | core/internal/file/path.go:22-27 | for every path, the prefix made of it leads to the directory that descending the tree component by component finds, or to none if there is none |
| `ArchiveListing.SortedListingsIff` | core/blob.go:421-444 | over a sorted index of a tree's files every listing is sorted by name if and only if no directory of the tree is overtaken |
| `CreatedListing.CreatedSorted` | core/create.go:120-133 | in an archive as creation writes it, of any tree, every listing is sorted by name and lists only children of the directory that the path leads to, with the right kinds |
| `CreatedListing.CreatedComplete` | core/blob.go:955-984 | in an archive of a tree without overtaking every listing is complete: for "." exactly the tree's own children that hold a file, for another directory exactly those of the directory that its path leads to |
| `CreatedListing.CompleteIff` | core/internal/index/index.go:112-142 | in an archive of any tree a listing is complete, compared with the directory that the path leads to, if and only if that directory has no files or the binary search for its prefix ends at an entry of its first child |
| `CreatedListing.OvertakenListsNothing` | core/blob.go:955-984 | in the archive of a/b beside a. the directory a lists nothing |
| `Disk.CollectByAge` | core/cache/disk/size.go:46-80 | every file is collected once in (time, path) order with the exact total |
| `Disk.PruneDir` | core/cache/disk/size.go:46-108 | freed and remaining add up to the total, what remains fits, every removed file was modified before every kept one, or at the same time under a smaller path, and keeping the youngest removed file would not fit |
| `Disk.PruneUnique` | registry/cache/disk/size.go:46-108 | these conditions determine the removed set: the shortest run of oldest files |
| `Disk.RemovedIff` | core/cache/disk/size.go:82-107 | pruning removes exactly the files that do not fit together with everything younger, ties broken by path |
| `SizedStore.Store.EnsureCapacity` | core/cache/disk/blockcache.go:411-425 | room is made exactly unless the data can never fit, by pruning to the limit less the need |
| `SizedStore.Store.Put` | registry/cache/disk/cache.go:477-545 | the counter stays the exact stored total and within the limit; when there is room nothing is evicted, else exactly what pruning to the limit less the need removes; all else is kept unchanged and the new file added |
| `SizedStore.Store.Delete` | registry/cache/disk/cache.go:561-582 | the file is gone and the counter exact |
| `SizedStore.Store.Prune` | registry/cache/disk/cache.go:596-609 | pruning reports the freed bytes and leaves the counter exact |
| `SizedStore.RunOps` | registry/cache/disk/cache.go:193-341 | over any run of insertions, deletions and prunes the reported size is exact, stays within a limit once within it, and every file is an original or inserted one; without a limit insertions lose nothing |
| `BlockCache.KeyBytesInjective` | core/cache/disk/blockcache.go:387-398 | source identifier plus two eight-byte integers encode a block uniquely |
| `BlockCache.KeyLayout` | core/cache/disk/blockcache.go:387-398 | a key is the source's identifier, then the block size and the index, each in eight bytes that spell the number most significant first |
| `BlockCache.HexAt` | core/cache/disk/blockcache.go:387-398 | a file name has two lower-case hexadecimal digits for each byte of the hash, in order |
| `BlockCache.PathOfInjective` | core/cache/disk/blockcache.go:400-409 | with a collision-free hash different blocks have different files, for any sharding |
| `BlockCache.CoherentStep` | core/cache/disk/blockcache.go:305-385 | evictions and storing one block keep every stored block of the right length equal to its source slice |
| `BlockCache.GetBlock` | core/cache/disk/blockcache.go:305-338 | a stored block of the right length is served and nothing changes; otherwise the source's block comes back and replaces what was there; other files stay unless there is a limit; from a coherent cache the result is the source's block, and coherence and the counter are kept |
| `BlockCache.CachedSource.ReadAt` | core/cache/disk/blockcache.go:179-239 | an empty buffer reads nothing without error, a negative offset is an error, an offset at or behind the end is the end of file; else as many of the source's bytes as fit come back, with the end of file exactly when fewer were left than asked for, for any block size and bypass threshold, and nothing changes behind the count |
| `BlockCache.CachedSource.ReadRange` | core/cache/disk/blockcache.go:241-259 | a range read in any pieces gives the section of the source, with the errors for bad ranges |
| `BlockCache.ReadThrough` | core/cache/disk/blockcache.go:179-239 | the same, case by case, from any coherent cache directory on |
| `BlockCache.CoherentExample` | core/cache/disk/blockcache.go:305-338 | the hypotheses can be met: any source with its first block stored, and the identity as hash |
| `ContentCache.Cache.Put` | core/cache/disk/cache.go:124-174 | fails exactly when room must be made and the temporary file exceeds what the limit leaves, together with every file younger than it; otherwise stored, or skipped as too large, and nothing is evicted but what pruning takes when room must be made; the counter never under-reports and respects the limit, for any modification times |
| `ContentCache.Cache.Delete` | core/cache/disk/cache.go:177-199 | only the content's file is removed and the counter still never under-reports |
| `ContentCache.NewestSurvives` | core/cache/disk/cache.go:138-171 | when no file is younger than the temporary one, it is removed exactly when it exceeds the target alone, and then everything is |
| `ContentCache.RunOps` | core/cache/disk/cache.go:124-259 | over any run the reported size is at least what is stored and stays within a limit once within it |
| `ContentCache.FittingPutCanFail` | core/cache/disk/cache.go:138-171 | two bytes stored, a limit of three: inserting two bytes fails and leaves nothing |
| `ContentCache.TiedPutCanFail` | core/cache/disk/cache.go:138-171 | three bytes stored in the same tick under a larger path, a limit of four: inserting two bytes fails |
| `CachedBlob.ReadCached` | core/cache_support.go:39-119 | a cached file is returned only if it has the hash; otherwise a mismatch is reported and the file deleted |
| `CachedBlob.ReadFile` | core/blob.go:352-414 | from any cache state only bytes with the entry's hash come back; a cached file with the hash is returned as it is and nothing changes; a miss reads the source; a corrupt file is deleted; without a limit other files stay; coherence is kept; from a coherent cache, without collisions, the result is the uncached one whenever that succeeds |
| `CachedBlob.OpenAndRead` | core/blob.go:193-231 | the same for open and read; after a miss the result is the streamed one, except that it fails exactly when the insertion fails |
| `CachedBlob.StaysCoherent` | core/cache_support.go:160-175 | evictions, and filing content under its own hash, keep the cache coherent |
| `CachedBlob.CachedAgrees` | core/blob.go:352-414 | without collisions, content with the entry's hash is what the uncached read returns |
| `Manifest.ParseBlobManifest` | registry/manifest.go:55-107 | parsing succeeds exactly for an image manifest of the archive's artifact type with one index and one data layer and no other, and names the right layers; a missing index is reported exactly when there is no index layer and no second data layer, missing data exactly when there is one index layer and no data layer |
| `Manifest.DescribesUnique` | registry/manifest.go:55-107 | a well-formed manifest has one parsed form |
| `Registry.DigestCache.Get` | registry/cache/disk/cache.go:439-472 | whatever is on disk, data comes back exactly when it has the digest and can be decoded; anything else under its name is deleted |
| `Registry.DigestCache.Put` | registry/cache/disk/cache.go:477-545 | an existing file is kept, only data with the digest is written, it is written whenever it can fit, a refusal changes nothing and without a limit nothing is lost |
| `Registry.DigestCache.PathOfDigest` | registry/cache/disk/cache.go:547-558 | the file of a digest "algorithm:hex" is named by the hexadecimal digits alone, below a directory named by the first of them when sharding is on |
| `Registry.HexDigestIff` | registry/cache/disk/cache.go:920-940 | a text names a file exactly when it is an algorithm without a colon, a colon and hexadecimal digits, or such digits alone |
| `Registry.MatchesUnder` | registry/cache/disk/cache.go:904-918 | data is checked under the algorithm that the digest names before its first colon |
| `Registry.FormatIff` | registry/cache/disk/cache.go:344-375 | a cached digest is well formed exactly when it is a nonempty name of letters, digits and the four signs, a colon and hexadecimal digits |
| `Registry.RefCache.PathOfInjective` | registry/cache/disk/cache.go:251-259 | references share a file only if their hashes collide |
| `Registry.RefCache.GetDigest` | registry/cache/disk/cache.go:154-190 | a digest comes back exactly when the file exists, is no older than the age limit if there is one, and is a named algorithm, a colon and hexadecimal digits; otherwise the file is deleted |
| `Registry.FetchManifest` | registry/oras/client.go:210-259 | a manifest comes back exactly when the digest is valid, the media type is absent or right, and the bytes read, as many as the reply names or all of a clean body, have the digest and can be decoded; an honest reply is accepted as it is |
| `Registry.EvaluatePolicies` | registry/policy.go:41-80 | success exactly when there is no policy, or the digest is valid and every policy accepts this request |
| `Registry.Client.ResolveDigest` | registry/fetch.go:58-92 | a reference with a colon is its own digest; a tag gives the fresh cached digest, or else the registry's reply, which is cached |
| `Registry.Client.FetchManifestByDigest` | registry/fetch.go:96-125 | the manifest was read from bytes with the digest, from the cache exactly when that holds a usable file, and then from the bytes in it; after a miss no file is left under the digest |
| `Registry.Client.Fetch` | registry/fetch.go:14-54 | for any cache contents and replies a returned manifest is what the resolved digest says and passed every policy in this call; a rejected one is not left under that digest, for tags too, unless the cache was skipped, and then it is untouched; whatever the caches hold, an honest registry's manifest comes back for every resolved digest written "algorithm:hex" |
| `Registry.Client.TryIndexCache` | registry/pull.go:122-156 | a cached index has the digest, the named size and is within the limit, and every such file is a hit; one that is too large is left alone, and no other file is touched |
| `Registry.Client.FetchIndexBlob` | registry/pull.go:81-119 | the index has the digest that the manifest names; too large and mismatching replies are told apart; an honest reply for a digest written "algorithm:hex" always comes back |
| `Registry.Client.Pull` | registry/pull.go:27-78 | a pull gives a trusted manifest under the pinned digest and an index with the digest named in it, and succeeds for an honest registry and digests written "algorithm:hex", given or resolved from a tag, whatever the caches hold |
| `Registry.KitExample` | registry/cache/disk/cache.go:904-918 | the hypotheses can be met: a digest that spells out the data has no collisions |
| `DigestChain.PinnedUnique` | registry/fetch.go:14-125 | without collisions a digest determines the content of every path |
| `DigestChain.PullAndRead` | registry/pull.go:27-78 | for any caches and replies, content comes from a manifest that passed every policy in that call, through the index that it names; and what a digest-pinned pull reads is what every other pull of that digest reads |
| `Glob.GlobToRegexIsEmitAll` | policy/slsa/options.go:110-113 | quoting and then replacing escaped stars is replacing each star of the glob, also next to backslashes |
| `Glob.GlobCompiles` | policy/slsa/options.go:110-113 | the anchored pattern matches exactly the strings got by replacing each star with a run without slashes |
| `Glob.CompileRefs` | policy/slsa/options.go:48-67 | the options append one anchored pattern per branch and tag, in order |
| `Glob.RefsAcceptUnion` | policy/slsa/options.go:48-67 | a list of branches and tags accepts exactly the union of what its globs mean under their prefixes |
| `GitHubSubject.BuildSubject` | policy/sigstore/github_actions.go:116-148 | the built text is the pattern whose language the next rows give |
| `GitHubSubject.SubjectLanguage` | policy/sigstore/github_actions.go:116-148 | the pattern accepts exactly: the repository's URL, any character, github/workflows/, a nonempty workflow without an at sign, an at sign, an allowed ref |
| `GitHubSubject.SubjectAccepts` | policy/sigstore/github_actions.go:129-148 | with branches, tags and refs the allowed refs are exactly the union of the globs' meanings, and refs/ followed by something nonempty without a line break when all lists are empty |
| `GitHubSubject.DotIsAnyCharacter` | policy/sigstore/github_actions.go:121-121 | a subject stays accepted when the dot of .github is replaced by any character but a line break |

## Left out

- PipelineErrors.EndedUnexpectedlyIff: for several readers, a budget below the total and more than one failing read, `PipelineErrors.EndsUnexpectedlyIf` gives a sufficient condition and `PipelineErrors.ErrorsAreGenuine` a necessary one; what lies between is a question of how groups fall to readers.
- StreamingFile.FourReadersAgree: the streaming reader is compared with the others only up to 2^63 - 1 bytes, the most that the others accept.
- Create.RoundTrip: assumes that files do not change while they are archived, within the size limits, and a codec whose decoder undoes its encoder.
- BlockCache.CachedSource.ReadAt: the source's reads succeed and return its bytes, and sizes stay below 2^63, so offset arithmetic does not wrap.
- CachedBlob.ReadFile: one call at a time; the second cache check inside singleflight, which does not verify the hash, needs a concurrent writer to matter.
- SizedStore.RunOps: file operations succeed; permissions, partial writes and races between processes on one directory are not modelled.
- Registry.Client.Pull: stops at the index; the HTTP data source is a byte sequence given to the reads that follow.
- Registry.Client.ResolveDigest: the registry may answer a tag with any digest; only digest-pinned pulls are reproducible.
- PooledBatch.PooledExtraction: which entries a failing pool has put into the sink depends on its schedule; `WorkerPool.PoolStatistics` says what it counts.
- Pipeline: errgroup, channels and the weighted semaphore follow golang.org/x/sync v0.19.0 (first-in-first-out queue; a request above the whole budget waits for cancellation; the first reported error is returned); the producer's group-size error cannot occur for validated entries (`Batch.GroupAt`).
- Streams never return zero bytes without an error for a nonempty buffer, and repeat the error they ended with.
- UTF-8 validity of paths is a parameter of path validation; strings of policies are sequences of characters.
- Regular expressions: the parser covers the constructs that the patterns use, not the whole syntax.
- File system effects of the file sink, HTTP range requests, credentials, pushing, tagging and signing: wrappers over other services.
- The FlatBuffers layout, zstd and SHA-256: the index is a sequence of entries, the rest functions.
- Worker-count heuristics, decoder pooling, logging, progress callbacks and option builders: no property beyond their bodies.
- Verification of signatures and provenance documents: calls into other libraries.
- `File.ReadAt`, `DirStats`, path normalisation and the copy helpers: easy beside the above.

# A verified model of the spkdfs distributed file system

spkdfs is a small erasure-coded distributed file system: a replicated namenode keeps the metadata,
datanodes keep shards of blocks, and a client with an upload daemon splits, encodes, places, caches and
aggregates files. This project models the parts of it with the most state and proves what they promise
over all inputs and all runs. `dafny verify dfyconfig.toml` checks everything.

The modules, by part of the system:

- Extendible hash table: `Bits`, `ExtendibleHashing`, `HashTableRuns`. A heap class whose directory
  aliases shared buckets; the insertion loop, bucket splits, directory doubling with empty slots and both
  loops of the redistribution are carried out step by step. The hash is an arbitrary function.
- Namenode metadata: `Metadata` (what one log entry does to the store), `RocksStore` (the operations, in
  place), `BatchCommit`, `PutBatches`, `Batches`, `NestedCommits` (batches against one-by-one requests),
  `Namenode` and `NamenodeServer` (proposing, applying, serving), `Listing`, `NamenodeRuns`, `ListingGaps`,
  `Leases`, `Decisions`, `FileRecords` and `MarkedRuns` (what holds over whole runs). A path is the sequence of its components, `[]`
  being "/". A request is one atomic step at a clock reading, which is a parameter of the step: check, then
  apply. A request carries what the namenode's parsers make of its storage type and of its range.
- Client block pipeline: `Text`, `Ranges`, `ShardList`, `StorageTypes`, `Placement`, `Recovery`,
  `WholeFile`, `BlockCounters`, `BlockReads`, `CachedReads`, `HeldBlocks`, `WriteSegments`, `Aggregates`,
  `AggregateReads`, `Gets`, `LostBlocks`, `Retypes`, `RetypedReads`. Reed-Solomon coding enters as two functions with the hypothesis
  that any k shards decode to the block; the digest enters as an injective function into separator-free
  text; the outcome of each upload attempt and of each fetch is an arbitrary oracle.
- Upload daemon: `UploadQueues`, as queue classes and as a machine over interleaved atomic steps, and
  `QueueHistory`, the same told from the history of events.
- Election and ids: `Elections`, `Quorums`, `Snowflake`. Scan results and clock readings are parameters.

`Division` and `Options` are small shared libraries.

Where the code falls short of what one would expect of it, the model keeps the code's behaviour and the
exact condition is proved:

- For files under lease, committing a batch equals committing its files one by one exactly when no file is
  the parent of another (`BatchIsFoldExactly`; `NestedBatchDiffers` reaches such a store). A batch of puts
  equals the puts one by one exactly when no path occurs twice (`PutBatchIsFoldExactly`). Both check or read
  the store as it was before the batch.
- A batch commit does not end the lease of a file that is the parent of another committed file, and drops
  that file's own commit (`LockEffect`, `PutOkBatchRecord`).
- Listings are exact throughout a run exactly when no mkdir is served over a path that still has a live
  child (`StepExactly`, `RunExactly`). Two ways to such a mkdir: a directory removed with children in it and
  made again (`GapAfterRemoval`), and a file committed below a removed, empty directory (`GapAfterCommit`).
- Block lists and listings are one field. A request on a child of a path that is no live directory puts the
  child's name into that path's block list, or takes it out, exactly when the name is new, or there
  (`ChildChangesBlocks`); a file below a live file is accepted (`NameAmongBlocks`, `BlocksOfAFileGrow`).
- A put that is not committed changes the storage type under which the old shard lists are read. Blocks are
  still decoded to what was put exactly when the new type is the same code, that is, both replicate or k and
  m agree (`RetypedExactly`), and then get gives the file back (`RetypedFileReads`). Ranged reads stay right
  exactly when, besides, the block size is the same or the file fits into one block of either size
  (`RetypedReadsExactly`).
- A file that was once committed in an aggregate keeps its aggregate mark after a plain upload
  (`AggregateMarkStays`, `PlainFileMarked`), and get goes by the mark: it reads the entry of the last listed
  node as a range and drops that shard. It throws when the entry does not read as a range; an address x.y.z.w
  reads as (x, y). Such a file is given back exactly when the mark is empty or that range happens to be the
  whole file (`MarkDecides`), so with any byte but zero beyond the range, exactly when it is empty
  (`UnmarkedExactly`, and in a run `MarkedFileLost`).
- Ranged reads pay no heed to the range of an aggregated file: they read from the start of the aggregate
  (`AggregateRead`, over runs `AggregateRunRead`). All of them are right exactly when the file is what the
  aggregate starts with, but for zeros past the first block (`ReadsRightExactly`).
- get writes nothing for a block that cannot be decoded and resizes the result, so it yields a file of the
  right length whatever was lost (`GetOutcome`, `LostFile`). A file that does not end in a zero is given back
  exactly when every block can be decoded (`GivenBackExactly`).
- A ranged read through the cache leaves a block that cannot be decoded out of its bytes. If two are lost, or
  one and the read ends inside a block, the read runs past the bytes at hand; if one is lost and the read
  ends at a block boundary, it returns the later blocks moved up (`ReadOutcome`, `WrongBlock`).
- The placement loop runs for ever exactly when the check already holds, shards are missing and no attempt
  succeeds any more (`EndsExactly`). Whole-file uploads carry the counters from block to block
  (`SuccIsTotal`, `CarriedOver`): once the shards of all blocks so far satisfy the check, no later block
  gives up (`LaterBlocksComplete`), and before that a block after one that gave up gives up, too, at the end
  of its first pass exactly when no attempt of that pass failed (`AfterGivingUp`).
- Block index arithmetic converts to a 32-bit int, so it covers a byte range exactly when the range ends
  below 2^31 (`CoversExactly`).
- Insertion into the hash table ends exactly when the key is stored or fewer than bucket_size stored keys
  share its low 30 hash bits; otherwise it arrives at a full bucket of depth 30, which an int mask cannot
  split (`Insert`).
- get reads an aggregated file back exactly when it is not empty (`AggregateRoundTrip`).
- A small file that alone reaches the batch bound blocks every batch until fsync takes it out
  (`HeadBlocks`); batches never stall exactly when "small" means strictly below the bound
  (`BatchesNeverStall`).
- A membership change towards a shorter list may leave a majority of the old peers without a survivor
  (`ShrinkingMayLoseQuorum`, `OldQuorumsExactly`).

## Model

| member | source | states |
|---|---|---|
| `ExtendibleHashing.Bucket.Remove` | include/common/extendible_hash_table.hpp:154-163 | true exactly for a stored key; afterwards the bucket holds exactly the other pairs |
| `ExtendibleHashing.Bucket.Insert` | include/common/extendible_hash_table.hpp:173-186 | fails exactly for a new key in a full bucket; otherwise the pair replaces or joins the others and none is lost |
| `ExtendibleHashing.ExtendibleHashTable.Find` | include/common/extendible_hash_table.hpp:55-58 | returns exactly what the plain map holds under the key |
| `ExtendibleHashing.ExtendibleHashTable.Remove` | include/common/extendible_hash_table.hpp:101-104 | removes the key from the plain map, keeps the table valid, reports whether the key was there |
| `ExtendibleHashing.ExtendibleHashTable.Insert` | include/common/extendible_hash_table.hpp:66-94 | the loop inserts exactly when the key is stored or depth 30 has room, stopping at the least depth with room and no deeper than any depth D with room; otherwise it arrives, contents unchanged, at a full bucket of depth 30; the directory shape is kept throughout |
| `ExtendibleHashing.ExtendibleHashTable.TryInsert` | include/common/extendible_hash_table.hpp:68-68 | the loop guard succeeds exactly for a known key or when fewer than bucket_size stored keys share the bucket's hash bits |
| `ExtendibleHashing.ExtendibleHashTable.SplitBucketOf` | include/common/extendible_hash_table.hpp:71-92 | one iteration keeps the whole table valid and the map unchanged, and deepens the key's bucket by exactly one |
| `ExtendibleHashing.ExtendibleHashTable.RedistributeBucket` | include/common/extendible_hash_table.hpp:205-227 | exactly the bucket's slots are repointed, by their next bit; the two halves hold exactly the pairs with that hash bit |
| `ExtendibleHashing.ExtendibleHashTable.Repoint` | include/common/extendible_hash_table.hpp:217-222 | striding by 2^d from index mod 2^d visits exactly the slots that agree on d bits |
| `ExtendibleHashing.ExtendibleHashTable.Reinsert` | include/common/extendible_hash_table.hpp:223-226 | every pair lands in the half of its hash bit and no reinsertion fails |
| `ExtendibleHashing.ExtendibleHashTable.FillEmptySlots` | include/common/extendible_hash_table.hpp:84-91 | exactly the empty slots of the new half alias the old half |
| `ExtendibleHashing.RepointedDirectory` | include/common/extendible_hash_table.hpp:75-91 | doubling with empty slots, repointing and filling gives every slot the bucket it aliased before or one of the two halves |
| `ExtendibleHashing.SplitShape` | include/common/extendible_hash_table.hpp:71-92 | after a split, slots share a bucket exactly when they agree on its local depth, which stays at most the global depth |
| `ExtendibleHashing.SplitBuckets` | include/common/extendible_hash_table.hpp:213-222 | a split makes the number of distinct buckets exactly one larger |
| `ExtendibleHashing.SplitOk` | include/common/extendible_hash_table.hpp:205-227 | a split neither loses, duplicates nor changes a pair and keeps every pair in its key's slot |
| `ExtendibleHashing.BucketKeys` | include/common/extendible_hash_table.hpp:235-238 | a key's bucket stores exactly the current keys that agree with it on the bucket's local depth |
| `Bits.LowIsRemainder` | include/common/extendible_hash_table.hpp:235-238 | masking the hash is the remainder modulo the directory size |
| `Bits.SlotCount` | include/common/extendible_hash_table.hpp:215-222 | exactly 2^(G-d) of 2^G slots share a d-bit suffix |
| `HashTableRuns.BucketSlots` | include/common/extendible_hash_table.hpp:215-222 | every bucket of local depth d is aliased by exactly 2^(G-d) slots |
| `HashTableRuns.Run` | include/common/extendible_hash_table.hpp:55-104 | if no bucket_size + 1 keys agree on their low D hash bits, every sequence of insertions, lookups and removals ends, answers as the plain map does and leaves the directory no deeper than D or than it was |
| `HashTableRuns.SpreadMakesRoom` | include/common/extendible_hash_table.hpp:66-94 | that spread of hashes leaves room at depth D for every new key of the set |
| `HashTableRuns.RoomExists` | include/common/extendible_hash_table.hpp:66-94 | some depth has room exactly when fewer than bucket_size stored keys have the very same hash |
| `RocksStore.Erase` | src/node/rocksdb.cpp:224-229 | remove-then-erase drops exactly the given name and keeps the order |
| `Listing.EraseInOrder` | src/node/rocksdb.cpp:224-229 | erasing keeps all other names in their order, as often as they stood |
| `RocksStore.RocksDB.InternalMkdir` | src/node/rocksdb.cpp:381-399 | carries out the mkdir entry: parent listing extended once, directory written |
| `RocksStore.RocksDB.InternalPutOk` | src/node/rocksdb.cpp:257-287 | carries out the commit entry: listed once, unlocked, block list and size set on the stored inode |
| `RocksStore.RocksDB.InternalRm` | src/node/rocksdb.cpp:217-237 | carries out the removal entry: both listed forms erased, the inode invalidated |
| `RocksStore.RocksDB.InternalPutBatch` | src/node/rocksdb.cpp:310-322 | carries out a batch of puts, later ones over earlier ones |
| `RocksStore.RocksDB.InternalPutOkBatch` | src/node/rocksdb.cpp:324-379 | reading parents once, computing files from the old store and writing parents last, in any order, gives the batch entry's store |
| `BatchCommit.BatchIsFold` | src/node/rocksdb.cpp:324-379 | the batch commit equals the fold of single commits (and the aggregate id) when no file is the parent of another |
| `BatchCommit.BatchIsFoldExactly` | src/node/rocksdb.cpp:324-379 | for files under lease, exactly then |
| `NestedCommits.NestedBatchDiffers` | src/node/rocksdb.cpp:324-379 | put /a and put /a/b reach a store in which the batch commit of both passes every check, under lease, and differs from the commits one by one |
| `Namenode.OnApply` | src/node/raft_nn.cpp:77-143 | applies exactly a prefix of the entries, in order; all of them unless the next one fails the parent assertion, and then it says how many |
| `Namenode.ApplyOne` | src/node/raft_nn.cpp:98-133 | every entry type is dispatched to its store operation |
| `Namenode.LogGrouping` | src/node/raft_nn.cpp:77-143 | the store does not depend on how raft groups the log into calls |
| `Namenode.ApplyEntryKeys` | src/node/rocksdb.cpp:217-399 | every entry keeps each record under its own path |
| `NamenodeServer.Leader.CheckPuts` | src/node/namenode.cpp:174-186 | all puts of a batch are checked against the store before the batch; the first error wins |
| `NamenodeServer.Leader.CheckCommits` | src/node/namenode.cpp:292-310 | all commits of a batch are checked against the store before the batch, refused when the first sub carries no range, and tagged with one id |
| `NamenodeServer.Leader.Serve` | src/node/namenode.cpp:65-234 | a request changes the store as its run step says, or not at all, and reports which |
| `NamenodeServer.Leader.Session` | src/node/namenode.cpp:65-386 | any session of requests leaves exactly the store that its run defines |
| `NamenodeServer.ClientRequestsParse` | src/node/namenode.cpp:149-306 | the storage types and ranges that the client prints pass the namenode's parsers unchanged |
| `Listing.StepKeepsListing` | src/node/rocksdb.cpp:171-399 | every served request, batches included, keeps every live directory's listing right |
| `Listing.NeverBothForms` | src/node/rocksdb.cpp:381-389 | a live directory never lists both "n" and "n/" |
| `Listing.BatchSub` | src/node/rocksdb.cpp:339-350 | after a batch commit a parent lists exactly the old names and the batch's own, once each |
| `NamenodeRuns.RunListing` | src/node/rocksdb.cpp:171-399 | in every reachable store each listed name denotes a live inode of the matching kind, without duplicates |
| `NamenodeRuns.StepExactly` | src/node/rocksdb.cpp:171-399 | a served request on exact listings leaves them exact exactly when it is no mkdir over a path with a live child |
| `NamenodeRuns.RunExactly` | src/node/rocksdb.cpp:171-399 | listings are exact after every prefix of a run exactly when no served mkdir of the run is over a path with a live child |
| `NamenodeRuns.RunListsExactly` | src/node/rocksdb.cpp:171-399 | in such a run a live directory lists exactly its live subdirectories and the files committed since their last removal, once each |
| `NamenodeRuns.RunKinds` | src/node/rocksdb.cpp:171-399 | over every run a path is a directory, a file or nothing as the last served mkdir, put or rm of that very path made it |
| `NamenodeRuns.CommitsDecided` | src/node/rocksdb.cpp:183-193 | over every run a commit passes its check exactly when the path was put since it was last removed |
| `ListingGaps.GapAfterRemoval` | src/node/rocksdb.cpp:217-237 | in any run, removing a directory with a child in it and making it again leaves the live child unlisted |
| `ListingGaps.GapAfterCommit` | src/node/rocksdb.cpp:239-287 | in any run, committing a file below a removed, empty directory and making that directory again leaves the file unlisted |
| `PutBatches.PutBatchIsFoldExactly` | src/node/namenode.cpp:174-194 | an accepted batch of puts equals the puts one by one exactly when no path occurs twice |
| `Leases.LockEffect` | src/common/inode.cpp:21-33 | what any served request does to the lock field of any path, requests on its children and nested batches included |
| `Leases.RunLeases` | src/node/namenode.cpp:365-379 | over every run, while a lease is out its path is live and the lock field outlasts the lease |
| `Leases.LeaseExclusion` | src/common/inode.cpp:21-29 | over every run, a put is served only more than 60 seconds after every lease granted on its path since its last commit or removal |
| `Leases.RunLeasesExact` | src/common/inode.cpp:28-33 | over every run the lock field is exactly the end of the last lease, or zero |
| `Leases.LeasesDecide` | src/node/rocksdb.cpp:171-181 | over every run a put is served exactly when its storage type parses, its path is no live directory and all leases on it have run out |
| `Decisions.MkdirsDecided` | src/node/rocksdb.cpp:98-108 | over every run a mkdir is served exactly when its parent was last made and its path was last removed or never made |
| `Decisions.RemovalsDecided` | src/node/rocksdb.cpp:195-198 | over every run an rm is served exactly when its path is live and its parent was ever made |
| `Decisions.LocksDecided` | src/node/namenode.cpp:365-379 | over every run a lock is served exactly when its path is live, leases or not |
| `Decisions.CommitsServed` | src/node/rocksdb.cpp:183-287 | over every run a commit is served exactly when its path is a file and its parent was ever made |
| `Decisions.StoredExactly` | src/node/rocksdb.cpp:217-399 | over every run a record is stored of exactly the paths that were ever made |
| `Decisions.AllDecided` | src/node/namenode.cpp:65-386 | over every run every request, batches included, is served or refused, and with which error, exactly as the history of requests says |
| `FileRecords.RunRecords` | src/node/rocksdb.cpp:171-379 | over every run a path that is no live directory carries exactly the block list, size, storage type and aggregate mark that the served requests on it and on its children define |
| `FileRecords.ChildChangesBlocks` | src/node/rocksdb.cpp:257-272 | a request on a child changes a path's record exactly when the path is no live directory and the listed name is new (mkdir, commit) or there (rm); then only the block list changes, by that name |
| `FileRecords.NameAmongBlocks` | src/node/rocksdb.cpp:257-272 | uploading a file below a live file is served and appends its name to that file's block list |
| `FileRecords.BlocksOfAFileGrow` | src/node/rocksdb.cpp:257-272 | such a run from the empty store |
| `Retypes.RetypedBlock` | src/common/storage_type.cpp:124-178 | a shard list written under one type gives the block under another of the same code exactly when enough shards are readable |
| `Retypes.OtherCodeFails` | src/common/storage_type.cpp:124-178 | for every other code there is a library, sound for both, under which the list never gives the block, whatever the replies |
| `Retypes.RetypedExactly` | src/node/namenode.cpp:146-149 | a block survives a change of type, for all sound libraries, placements and replies, exactly when the code is the same |
| `Retypes.RetypedFileReads` | src/node/rocksdb.cpp:171-181 | in any run, an uncommitted put of the same code leaves a readable plain file to get as it was |
| `Retypes.RetypedFileFails` | src/client/sdk.cpp:598-604 | under another code, with that library, get yields a file that starts otherwise |
| `RetypedReads.RetypedReadsExactly` | src/client/sdk.cpp:650-728 | every ranged read of every file of a length stays right exactly when the block size is the same or the file fits into one block of either size |
| `RetypedReads.ReadsShifted` | src/client/sdk.cpp:713-728 | a read at the new block size returns the byte at the old one, or zero |
| `RetypedReads.ReadsShort` | src/client/sdk.cpp:713-728 | with a larger block size a read past the first old block runs past the bytes at hand |
| `FileRecords.CommitIsReadBack` | src/node/rocksdb.cpp:257-287 | after a served commit the store gives back exactly the committed block list and size |
| `Batches.BatchFileRecord` | src/node/rocksdb.cpp:352-367 | of several commits of one path in a batch the last one is written |
| `Batches.PutOkBatchRecord` | src/node/rocksdb.cpp:324-379 | what a batch commit leaves of any path: the last commit, or, for a parent of a committed file, the old record with the new names |
| `Batches.PutBatchRecord` | src/node/rocksdb.cpp:310-322 | of several puts of one path in a batch the last one is written, and no other path changes |
| `FileRecords.AggregateMarkStays` | src/node/rocksdb.cpp:257-287 | a put and its commit leave the aggregate mark of an earlier batch commit in place |
| `MarkedRuns.PlainFileMarked` | src/node/rocksdb.cpp:257-379 | in any run, a batch of one and then a plain upload leave the plain record with the batch's mark |
| `MarkedRuns.MarkedFileLost` | src/client/sdk.cpp:569-597 | after such a run get does not give the file back, all shards being readable |
| `ShardList.NodeTextIsIdentity` | src/common/node.cpp:114-124 | parsing and printing a canonical address gives it back |
| `ShardList.NodeTexts` | src/common/node.cpp:114-124 | an address without a port gets port 0, a port is read up to its last digit, and anything else is refused |
| `ShardList.EncodeOneSub` | src/common/inode.cpp:61-69 | the loop with the popped comma prints the entries separated by commas |
| `ShardList.DecodeOneSub` | src/common/inode.cpp:71-85 | the getline loop yields the parsed entries in order |
| `ShardList.ShardFields` | src/common/inode.cpp:71-85 | an entry splits at its first bar, a second bar ends the digest, and without a bar the digest is empty |
| `ShardList.ShardListRoundTrip` | src/common/inode.cpp:61-85 | printing and parsing a canonical shard list is the identity |
| `StorageTypes.StorageTypeReadsBack` | src/common/storage_type.cpp:66-90 | a printed storage type of any of the three kinds is parsed as itself |
| `StorageTypes.TypeExactly` | src/common/storage_type.cpp:66-90 | a text is parsed as a storage type exactly when it is that type's prefix, its numbers in digits, leading zeros allowed, and a bracket |
| `Text.SignedReadsBack` | src/node/namenode.cpp:256-264 | numbers are read with their sign, and refused outside the range of an int |
| `Placement.PlaceShards` | src/client/sdk.cpp:499-527 | the loop ends in the state of its run, with exactly shards 0, 1, ... listed at the nodes whose attempts succeeded |
| `Placement.RunKeeps` | src/client/sdk.cpp:503-527 | after any history the stored shards are those of exactly the successful attempts, in order, and attempt t goes to node t mod n |
| `Placement.FairShare` | src/client/sdk.cpp:518-518 | after T attempts no node holds more than ceil(T/n) shards |
| `Placement.EveryPass` | src/client/sdk.cpp:519-526 | while the check does not hold, each full pass stores a shard or ends the loop |
| `Placement.EndsExactly` | src/client/sdk.cpp:503-527 | the loop ends exactly when its history never leaves it with the check satisfied, shards missing and no further success |
| `Placement.GivesUpShort` | src/client/sdk.cpp:519-524 | the loop gives up only while the check does not hold, and otherwise stores every shard |
| `Placement.NeverGivesUp` | src/client/sdk.cpp:519-524 | from counters that satisfy the check on, the loop never gives up |
| `Recovery.DecodeOneBlock` | src/client/sdk.cpp:531-557 | decodes the first DecodeBlocks() shards that arrive with the right digest, or yields nothing |
| `Recovery.BlockDurable` | src/client/sdk.cpp:494-557 | print, parse, fetch and decode give the block exactly when enough listed shards are readable, and nothing otherwise |
| `Recovery.CheckedBlockSurvives` | src/common/storage_type.cpp:134-180 | when the check was satisfied, the block survives the loss of one listed shard, and of all but one under replication |
| `Recovery.CheckExactly` | src/common/storage_type.cpp:134-180 | the check holds exactly when the block comes back without any one of its shards, or, under replication, when it comes back at all |
| `Recovery.EncodeOneBlock` | src/client/sdk.cpp:494-529 | places the shards of one block and returns their printed list |
| `Recovery.EncodedBlockSurvives` | src/client/sdk.cpp:494-557 | the same end to end, for every history of upload attempts and every pattern of read failures |
| `WholeFile.SplitAllBlock` | include/common/data_retrive.hpp:86-106 | the reused buffer yields full blocks and a last one with stale bytes of the block before |
| `WholeFile.StaleTail` | include/common/data_retrive.hpp:98-105 | the last block of a file that is no multiple of the block size ends in the bytes of the block before, or in zeros |
| `WholeFile.SplitRoundTrip` | include/common/data_retrive.hpp:86-106 | for every length, concatenating the blocks and resizing to the file size gives the file |
| `WholeFile.BlocksInTurn` | include/common/data_retrive.hpp:190-219 | attempt t of a whole file goes to node t mod n, across blocks |
| `BlockCounters.SuccIsTotal` | include/common/data_retrive.hpp:190-203 | the success counter is the number of shards stored for all blocks so far |
| `BlockCounters.CarriedOver` | include/common/data_retrive.hpp:190-218 | each block starts with the node, successes, failures and attempts that the block before left |
| `BlockCounters.PassEnds` | include/common/data_retrive.hpp:210-217 | a pass, from any node and counters, gives up at its end exactly when the check does not hold and the failures counted before and in it equal the number of nodes |
| `BlockCounters.LaterBlocksComplete` | include/common/data_retrive.hpp:190-218 | once all shards stored so far satisfy the check, no later block gives up and each that ends is stored whole |
| `BlockCounters.AfterGivingUp` | include/common/data_retrive.hpp:210-217 | after a block that gave up, and while the check does not hold, the next one gives up at its first pass exactly when none of its attempts failed |
| `WholeFile.DatanodePut` | include/common/data_retrive.hpp:186-225 | every block is placed from the counters of the block before, and its text recorded |
| `WholeFile.PutFile` | src/client/sdk.cpp:296-310 | a file becomes one recorded text per block of its split |
| `WholeFile.GetFile` | src/client/sdk.cpp:598-604 | the decoded blocks, concatenated and cut to the file size |
| `WholeFile.PutGetIdentity` | src/client/sdk.cpp:559-605 | put then get is the identity for every file length when enough shards of each block are readable |
| `Gets.MarkedAggregateReads` | src/client/sdk.cpp:569-597 | a non-empty file of an aggregate is given back through its mark, and an empty one refused |
| `Gets.AddressIsRange` | src/client/sdk.cpp:575-587 | the entry of a node x.y.z.w reads as the range (x, y) |
| `Gets.MarkedPlainRead` | src/client/sdk.cpp:569-597 | a plain shard list is read as the range that its last entry denotes, of the block that all but the last shard give, or refused |
| `Gets.MarkDecides` | src/client/sdk.cpp:559-605 | a plain, readable file is given back exactly when the mark is empty or that range is the whole file |
| `Gets.UnmarkedExactly` | src/client/sdk.cpp:569-569 | with a byte other than zero past the length of that range, if any, exactly when the mark is empty |
| `LostBlocks.GetOutcome` | src/client/sdk.cpp:598-604 | for every pattern of failing reads get yields the decodable blocks one after the other, resized |
| `LostBlocks.LostFile` | src/client/sdk.cpp:598-604 | that file is right up to the first lost block and zero once the blocks had are used up |
| `LostBlocks.GivenBackExactly` | src/client/sdk.cpp:598-604 | a file that does not end in a zero is given back exactly when every block can be decoded, and the length is right in any case |
| `BlockReads.CoversExactly` | src/client/sdk.cpp:650-653 | the index range covers the bytes exactly when they end below 2^31 |
| `BlockReads.FullRead` | src/client/sdk.cpp:713-728 | a read that gets all its blocks returns exactly the bytes from offset to the smaller of offset + size and the file size |
| `BlockReads.ReadOutcome` | src/client/sdk.cpp:676-728 | what a read returns for any set of lost blocks: the right bytes, the later blocks moved up, or bytes past the end, each with its exact condition |
| `BlockReads.WrongBlock` | src/client/sdk.cpp:686-708 | a read of the first block of a larger file, when that block cannot be fetched, returns the second |
| `BlockReads.ContentIsPut` | src/client/sdk.cpp:713-728 | the bytes of a file as put left it are the original ones |
| `CachedReads.BlockCache.UpdateInode` | src/client/sdk.cpp:203-219 | on open exactly the block files of that path whose shard list changed or is gone are removed |
| `CachedReads.BlockCache.ReadBlocks` | src/client/sdk.cpp:676-711 | each block is had from its file or by decoding now and its file filled with what was had, be it nothing; zeros past the last one |
| `CachedReads.BlockCache.Read` | src/client/sdk.cpp:713-728 | answers by cutting the range out of the blocks as they were had, for any inode, or says that the file is not open |
| `CachedReads.PutIsIntact` | src/client/sdk.cpp:559-605 | the shard lists that put records decode to the file's blocks or to nothing, whatever the datanodes reply, and the blocks hold the file |
| `CachedReads.Session` | src/client/sdk.cpp:203-219 | from an empty cache, over every run of opens and reads and whatever fails in between, the cache answers as the block files of the run say |
| `CachedReads.RunFiles` | src/client/sdk.cpp:203-219 | over every run, while every opened shard list stands for one block, a non-empty block file holds the block that the last opened inode names |
| `CachedReads.RunReads` | src/client/sdk.cpp:676-728 | over every run each read answers from the file as of its last open, without exactly the blocks neither in a file nor decodable now |
| `CachedReads.ExactRead` | src/client/sdk.cpp:713-728 | so a read of a run that loses no block returns exactly the bytes of the range of a file of full blocks |
| `HeldBlocks.FetchedIsNotLost` | src/client/sdk.cpp:686-708 | over every run a block once fetched is lost to no later read, whatever the datanodes reply, while opens bring the same shard list |
| `HeldBlocks.StaysInFile` | src/client/sdk.cpp:203-219 | until then its block file keeps the bytes fetched |
| `HeldBlocks.OfflineRead` | src/client/sdk.cpp:713-728 | with all datanodes down a read of fetched blocks returns exactly the bytes of the range |
| `AggregateReads.AggregateDecodes` | src/client/sdk.cpp:531-557 | the text of an aggregated file, range included, decodes to the whole aggregate when enough listed shards are readable |
| `AggregateReads.SmallIsStanding` | src/client/sdk.cpp:676-711 | so the inode of each file of a batch stands for the aggregate as its one block, whatever the replies |
| `AggregateReads.AggregateRead` | src/client/sdk.cpp:713-728 | a ranged read of such a file returns bytes from the start of the aggregate, and zeros from the second block on |
| `AggregateReads.ReadsRightExactly` | src/client/sdk.cpp:713-728 | all ranged reads are right exactly when the file is a prefix of the aggregate and zero past the first block |
| `AggregateReads.FirstReadsRight` | src/client/sdk.cpp:713-728 | which holds for the first non-empty file of a batch that fits into a block |
| `AggregateReads.SecondReadsFirst` | src/client/sdk.cpp:713-728 | of two files of one byte a read of the second returns the first |
| `AggregateReads.AggregateRunRead` | src/client/sdk.cpp:676-728 | over every run of opens and reads, the same when the aggregate is in a block file or decodable now |
| `WriteSegments.Segments` | src/client/sdk.cpp:736-764 | the segments tile the written range in order, one block each, and their pieces concatenate to the input |
| `WriteSegments.PieceIs` | src/client/sdk.cpp:745-764 | each segment's piece is the input at the segment's own file position |
| `Aggregates.Aggregate` | src/client/daemon_upload.cpp:196-223 | the aggregate is the concatenation, with each file's range recorded |
| `Aggregates.RangesTile` | src/client/daemon_upload.cpp:200-223 | the ranges tile the aggregate and each holds exactly its file, up to the int range |
| `Ranges.GetLastPair` | src/node/namenode.cpp:235-274 | the last comma-separated field, split at its bar, as two ints with blanks and signs, or an error |
| `Ranges.RangeReadsBack` | src/client/sdk.cpp:568-587 | client and namenode both read back the range written behind any shard list |
| `Ranges.FirstBarSplits` | src/node/namenode.cpp:252-258 | the namenode splits the last field at its first bar and ignores what follows the second number |
| `Ranges.NoBarRefused` | src/node/namenode.cpp:245-271 | a last field without a bar, and an empty sub, are refused |
| `Ranges.BlankBetween` | src/client/sdk.cpp:575-587 | the client skips blanks before the character between the two numbers |
| `Aggregates.GetAggregated` | src/client/sdk.cpp:569-604 | cuts the parsed range out of the decoded aggregate, or refuses |
| `Aggregates.ExtractedAt` | src/client/sdk.cpp:588-605 | every byte of the result for any range: one byte more than the range, zeros after it, and exactly which ranges are refused |
| `Aggregates.AggregateRoundTrip` | src/client/sdk.cpp:569-604 | every non-empty file of a batch is read back exactly, and an empty one refused |
| `UploadQueues.UploadQueue.PushBack` | src/client/daemon_upload_queue.cpp:27-41 | appends unless full, and records the task under its remote path |
| `UploadQueues.UploadQueue.GetUntilSize` | src/client/daemon_upload_queue.cpp:43-53 | takes a prefix that nothing can be added to below the bound |
| `UploadQueues.UploadQueue.ExistInQue` | src/client/daemon_upload_queue.cpp:132-143 | takes out exactly the first task with both paths |
| `UploadQueues.UploadQueue.AllSize` | src/client/daemon_upload_queue.cpp:55-62 | the total size of the waiting tasks |
| `UploadQueues.BatchIsLongest` | src/client/daemon_upload_queue.cpp:47-51 | the batch is the longest prefix whose total is strictly below the bound |
| `UploadQueues.EmptyBatch` | src/client/daemon_upload_queue.cpp:47-51 | a batch is empty exactly when nothing waits or the first task alone reaches the bound |
| `UploadQueues.BatchesNeverStall` | src/client/daemon_upload.cpp:47-51 | queues of small files never stall exactly when the small-file limit is below the batch bound |
| `UploadQueues.DaemonUpload.Upload` | src/client/daemon_upload.cpp:37-62 | is one step of the machine: accepted into the queue of its size, or refused |
| `UploadQueues.DaemonUpload.FsyncFirst` | src/client/daemon_upload.cpp:72-75 | is one step of the machine: the waiting task leaves the small queue |
| `UploadQueues.DaemonUpload.FsyncSecond` | src/client/daemon_upload.cpp:78-82 | is one step of the machine: the task enters the big queue, or none when that is full |
| `UploadQueues.DaemonUpload.BigTurn` | src/client/daemon_upload.cpp:159-165 | is one step of the machine: the oldest big file is dispatched |
| `UploadQueues.DaemonUpload.SmallTurn` | src/client/daemon_upload.cpp:179-186 | is one step of the machine: a batch is dispatched once enough waits, or on the timer |
| `UploadQueues.RunInv` | src/client/daemon_upload.cpp:37-93 | under every interleaving tasks are conserved, small files leave in order of acceptance, and batches stay below the bound |
| `UploadQueues.ExactlyOnePlace` | src/client/daemon_upload.cpp:154-192 | under every interleaving an accepted task is in exactly one queue, in transit or dispatched, and dispatched at most once |
| `QueueHistory.BigInOrder` | src/client/daemon_upload.cpp:154-171 | over every interleaving the big tasks sent are the first arrivals, large uploads and moved small ones, as many as there were turns, and the others wait in order |
| `QueueHistory.BigPrefix` | src/client/daemon_upload.cpp:154-171 | what was sent or waited at any time is the front of what was at any later time |
| `QueueHistory.SmallInOrder` | src/client/daemon_upload.cpp:175-192 | over every interleaving batches and small queue are the small uploads in order, without those that fsync moved |
| `QueueHistory.FsyncTakesOldest` | src/client/daemon_upload.cpp:64-85 | fsync moves the oldest waiting task of its two paths |
| `UploadQueues.HeadBlocks` | src/client/daemon_upload.cpp:175-192 | a first small file that reaches the bound stays first and no batch carries anything until fsync takes it |
| `Elections.BinarySearch` | src/node/raft_dn.cpp:133-137 | agrees with membership by ip on a sorted list |
| `Elections.FilterSorted` | src/node/raft_dn.cpp:121-124 | filtering a sorted list leaves it sorted |
| `Elections.LessAtFirstDifference` | src/common/node.cpp:56-56 | ips are ordered by their first different character, a front before the longer text |
| `Elections.ScanOthers` | src/node/raft_dn.cpp:140-156 | scanning in chunks appends exactly the first online candidates, as many as are still needed |
| `Elections.AddedAreFirst` | src/node/raft_dn.cpp:140-156 | those are the first online candidates in order, moved to the namenode port |
| `Elections.OnLeaderStart` | src/node/raft_dn.cpp:114-162 | chooses the online namenodes in ip order, then those; fails exactly when nobody is online |
| `Elections.ElectionOutcome` | src/node/raft_dn.cpp:114-156 | distinct ips, at most expected_nn, old online namenodes first, only nodes found online, and every online datanode when the list stays short |
| `Elections.ElectionsKeep` | src/node/raft_dn.cpp:60-72 | over every series of elections the list stays duplicate-free by ip, never too long, and made of datanodes |
| `Quorums.ChangeNamenodesList` | src/node/server.cpp:78-94 | chooses a membership change exactly when the survivors outnumber half of the new list, that is, are a majority of it |
| `Quorums.SurvivorsAreShared` | src/node/server.cpp:80-85 | for duplicate-free old peers the counting loop counts exactly the shared ips |
| `Quorums.MeetsExactly` | src/node/server.cpp:89-93 | every majority meets a subset exactly when the subset is at least half |
| `Quorums.ChangeKeepsQuorum` | src/node/server.cpp:89-90 | then, if the old list is no longer, survivors are a strict majority of both lists and every majority of either contains one |
| `Quorums.OldQuorumsExactly` | src/node/server.cpp:89-93 | every old majority contains a survivor exactly when the survivors are at least half of the old list |
| `Quorums.ShrinkingMayLoseQuorum` | src/node/server.cpp:89-90 | with a longer old list a membership change can leave an old majority without a survivor |
| `Snowflake.PackIs` | include/common/agg_inode.h:37-38 | shifting and or-ing the fields is their weighted sum and never overflows a long |
| `Snowflake.FirstId` | include/common/agg_inode.h:17-22 | ids count from the first millisecond of 2021 |
| `Snowflake.Unpacks` | include/common/agg_inode.h:60-68 | timestamp, machine and sequence are recoverable |
| `Snowflake.PackOrder` | include/common/agg_inode.h:37-38 | ids of one machine compare as timestamp, then sequence |
| `Snowflake.Generator.WaitForNextMillis` | include/common/agg_inode.h:52-58 | returns the first reading past the last timestamp it comes to |
| `Snowflake.Generator.GenerateID` | include/common/agg_inode.h:24-43 | the new id's timestamp and sequence come strictly after the last ones, wrap-around and waiting included; a new millisecond starts at sequence 0, the same one counts on by one |
| `Snowflake.Generator.Run` | include/common/agg_inode.h:24-43 | over any non-decreasing clock all ids of one generator strictly increase |

## Left out

- RPC, raft, the RocksDB engine, JSON, streams, FUSE, the command-line client, timers and logging: foreign libraries and plumbing.
- Reed-Solomon arithmetic, SHA-256 and MD5: library calls, kept as hypotheses (`Recovers`, `Injective`, `CleanDigests`).
- Exceptions of the erasure-code library: decoding is a total function in the model.
- Interleaving of check and apply on the leader: the checks run before the entry is applied, so listing and lease results are for atomic requests.
- Builds with assertions disabled: a missing parent record stops a replica in the model, as the assertion in `get_parent_inode` does.
- Requests on "/" itself and paths that are not in normal form: paths are component sequences below the root.
- Requests that only read a record (ls, get): they look up one inode and change nothing.
- A lock request for several paths is several single-path requests in a run; the code applies them one after the other.
- `agg_rm`: it looks up an inode with an empty path and writes nothing back, so removal entries have no further effect.
- The aggregate's own record (OP_PUTAGG): it is stored under its id, which no path operation reads.
- Fields of an upload task other than its paths and size (status, owning queue), and cancelling a waiting upload.
- Storing and printing the id of an aggregate as hexadecimal text, and uniqueness across generators: each request builds a new one.
- Bytes that write_data leaves on disk: the stream is opened for appending before it seeks, so only the segmentation is proved.
- The block cache across writes and closes: closing drops the cached inode but keeps the block files.
- Opening a file under a path that is not its normal form: open and read would then use different cache directories.
- Files of length zero at upload: the memory mapping of an empty file is refused by the operating system before the modelled code runs; the split itself covers length zero.
- Printing an empty shard list: the code pops a character of an empty string, so `EncodeOneSub` and its callers ask for one stored shard.
- A batch commit without any sub: the code dereferences the end of an empty list; the model refuses the commit.
- Locales and stream states: numbers are read as blanks, a sign and digits within an int, and anything else fails.
- CachedReads.BlockCache.Read: asks that the range, cut at the file size, ends below 2^31, because the indices are wrong beyond (`CoversExactly`); bytes past those at hand, undefined in C++, are the answer `PastTheEnd`.
- CachedReads.RunReads: asks that every shard list stands for one block, as those of completed puts, of aggregates and of retyped files of the same code do; what a foreign code decodes to is left to `Session`, which asks nothing of it.
- AggregateReads.SmallIsStanding: asks that no digest is the decimal text of an int, because the range is parsed as one more shard; digests have 64 characters.
- `PathLocks`: the recorded mode is fixed by the first use of a key, so no reader/writer law follows.
- Placement.PlaceShards: takes the number of iterations that ends the loop as a ghost argument, because the loop need not end; `EndsExactly` says when it does.
- ExtendibleHashing.ExtendibleHashTable.Insert: stops with a negative answer at a full bucket of depth 30, where the code goes on to shift past the range of an int; `RoomExists` says when some depth, however large, has room.

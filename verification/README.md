# A verified model of the 996 blockchain core

The project models the core of the 996.Blockchain node in Dafny and proves what it is built to keep: the tree of competing branches in memory, the database it flushes to, the retarget arithmetic, block production and parallel mining, the sync protocol, the wire formats and the query cache.

`dafny verify dfyconfig.toml` checks everything.

## How it is organised

The chain is modelled twice. `ChainModel` is a reference model on plain lists: every listed branch is the whole list of its blocks from genesis on, and one function per operation (add a batch, maintain) gives the next state. `ChainInvariants`, `ChainMaintenance`, `ChainRuns` and `ChainChecks` prove what every step and every run of it keeps, and `ChainExact` and `Sync` say what each operation does in terms of the listed and stored blocks alone. `BlockTree` and `Chain` are the program's own form: linked blocks with parent and child links, branches with block and evidence caches, a chain object with its branch list, longest pointer and oldest block, and a key-value store. Every operation of the linked form is proved to take memory, caches, marks and database exactly where the reference model says (`ChainMemory`, `MemoryPruning`, `MemoryCutting`, `Replay`), so all theorems about runs hold of the linked form. A search in a cache, a child count or a walk along parent links is thereby shown to agree with a search in the plain list.

| file | component |
|---|---|
| `Records` | block, header and evidence records, 64-bit subtraction |
| `Difficulty` | compact targets and retargeting |
| `ChainModel`, `ChainInvariants`, `ChainMaintenance`, `ChainRuns`, `ChainChecks` | the reference model, its invariants and what every block has passed |
| `ChainExact` | a batch and a maintenance in all their effects |
| `Examples`, `LateRefusal`, `TwinEvidence`, `StaleBranch`, `OddKeys` | concrete runs from genesis and concrete keys |
| `Restart` | the chain loaded from a filled database |
| `BlockTree`, `ChainMemory`, `MemoryPruning`, `MemoryCutting`, `Chain`, `Replay` | linked blocks, branches, caches and the chain object |
| `BigEndian`, `Database` | big-endian integers, key schema and block store |
| `Sync`, `Net`, `Transfer` | answers to peers, the waiting list, delivery, what the receiver takes |
| `Codec`, `Layout`, `Pow`, `Mining`, `Merkle`, `Producer` | wire format and its offsets, nonce cache, mining job, Merkle roots, block production |
| `TcpStream` | packets on a TCP stream |
| `QueryCache` | queries over cached and stored blocks |

Hypotheses are stated where they are used and nowhere else: `HashIdentity` (no two blocks of the run share a hash unless they share a header, and none hashes to the made-up parent of genesis), `ChecksBlocks` (the structural checks refuse malformed blocks; proved of the actual checks in `Producer.RulesCheckBlocks`), `Fits` (heights below 2^63), `Orderly` (a new branch accepts its first block) and `Shallow` (no fork below the newest stored block). SHA-256, CRC-32, signatures and the floating-point retarget scale are arbitrary functions. Time, tie-breaking coins and the pool of evidence are inputs.

Places where the code does not do what one would expect are kept as they are, each with an input and the exact condition:

- A fork whose first block is refused stays listed, and its head is then no leaf (`Examples.RefusedForkStaysListed`); heads stay distinct leaves exactly when that does not happen (`Chain.BlockChain.AddBlocks`). The existing child sent again goes onto such a branch and overwrites the child entry; pruning the branch then unlinks the shared stem and falls off the oldest block (`StaleBranch.PruningFalls`). A pruning walk falls off exactly if no block of its path has another child (`BlockTree.RemoveBranch`), which never happens while the heads are distinct leaves (`Chain.DropBranch`).
- A restart loads twenty-one blocks, but forks up to eight below the head are let in. The retarget walk of a branch then stays in memory exactly if its head is at most at height 21 or not below the restart tip (`Restart.RestartWalk`, `Restart.ForkAfterRestart`).
- The age check of a fork looks at the first branch that knows the parent, not at the longest one. A lagging branch can let a fork in below the newest stored block; when that fork wins, the next flush meets a wrong height and stops the program (`Examples.DeepForkCrashes`). Maintenance fails exactly in diverged states (`ChainMaintenance.MaintainSound`), and a batch takes the chain out of the safe states exactly if it forks below the newest stored block (`ChainRuns.ForksAndDatabase`).
- Pruning compares heights by an unsigned difference, so a branch taller than the longest one counts as too far away. A batch refused late skips the comparison and can leave such a branch, which the next maintenance deletes (`LateRefusal.TallestIsPruned`). The greatest listed height drops exactly then (`ChainRuns.MaintenanceAndTallest`), and never right after a complete network batch (`ChainRuns.NothingTallerIsPruned`).
- A block's evidence is compared with its branch and the database, but not with itself. A block with two pieces of one evidence hash is accepted, and the database, which keeps one record per hash, gives back another block (`TwinEvidence.StoredTwinDiffers`). Queries answer with the longest branch's own block exactly if it is not stored yet or has no such twins (`QueryCache.QCache.GetBlockViaHeight`), and a peer takes served blocks exactly under the same condition, with no evidence left out (`Transfer.SentGoesIn`).
- The count of missing blocks is unsigned. A peer that sends too many gets past zero; its entry stays, with nothing handed on, and every further response makes it younger (`Net.OneTooMany`). Blocks are handed on with the first response that completes the count modulo 2^32, and never otherwise (`Net.Delivery`). The check `remainNums < 0` never holds.
- The packet length of the TCP splitter is computed in 32 bits. A stream of packets is found whole exactly if no length wraps and the last payload is not empty (`TcpStream.StreamFoundExactly`); the loop never ends exactly if it gets to a length field of 2^32 - 9 with more than nine bytes left (`TcpStream.EndlessExactly`).
- Lookups do not check the length of a hash. Bytes of another length can spell the key of a score or of an account's evidence (`Database.UnderAnyTag`, with an input in `OddKeys.HashOfNothing`); fetching the header or the evidence itself then finds nothing (`Database.BlockStore.GetHeaderViaHash`, `Database.BlockStore.GetEvidenceViaHash`).
- An account is any 33 bytes, and its prefix can be the beginning of a header, block or evidence key. The list of such an account has pieces of other keys in it (`OddKeys.StrayAccount`); it is the account's evidence exactly if no stored key of another family begins with the prefix (`Database.BlockStore.GetEvidenceViaKey`, `QueryCache.QCache.GetAccount`).
- A query cache may be twenty seconds old while the database is not. Scores then count the blocks stored since twice (`QueryCache.QCache.GetAccount`, with an input in `TwinEvidence.OldCacheCountsTwice`).

The documentation gives the retarget weights as 0.9 and 0.1; the code uses 7/8 and 1/8, and so does `Difficulty.ScaleMeasures`. The laws of retargeting hold for every scale.

## Model

| member | source | states |
|---|---|---|
| `Difficulty.RoundTrip` | core/blockchain/difficulty.go:92-129 | encoding and decoding a difficulty clears all but its top 24 significant bits, exactly for difficulties of at most 255 bits |
| `Difficulty.EncodingRoundsDown` | core/blockchain/difficulty.go:112-129 | the encoded value is the greatest one that any target can stand for without exceeding the difficulty |
| `Difficulty.DecodeEncodeDecode` | core/blockchain/difficulty.go:92-129 | decode, encode, decode gives the same value as decode for every 32-bit target, canonical or not |
| `Difficulty.EncodingMonotone` | core/blockchain/difficulty.go:112-129 | a greater difficulty never has a smaller target |
| `Difficulty.RetargetBounds` | core/blockchain/difficulty.go:53-89 | for every scale the new difficulty is at most the limit and at least half the last one rounded down, the 24-bit loss included |
| `Difficulty.DecodedValue` | core/blockchain/difficulty.go:92-109 | a target is its low 24 bits times two to the number of bits beyond 24 that its high byte gives |
| `Difficulty.RetargetExactly` | core/blockchain/difficulty.go:53-89 | the new target decodes to the greatest difficulty that a target can express and that exceeds neither the limit nor the floor of the last one times the scale, or times a half if that is more |
| `Difficulty.OnScheduleKeeps` | core/blockchain/difficulty.go:63-69 | at scale one a difficulty within the limit stays as it is |
| `Difficulty.RetargetMonotone` | core/blockchain/difficulty.go:63-80 | a larger scale never gives a smaller difficulty |
| `Difficulty.ScaleMeasures` | core/blockchain/difficulty.go:57-63 | in reals, blocks on schedule have scale one and longer intervals never a smaller scale |
| `ChainInvariants.AcceptedEvidenceIsFresh` | core/blockchain/branch.go:195-218 | an accepted block shares no evidence with any earlier block of its branch, in memory or only in the database |
| `ChainInvariants.AcceptedDifficulty` | core/blockchain/branch.go:96-116 | an accepted block keeps the difficulty window along its branch |
| `ChainInvariants.WalkStaysInMemory` | core/blockchain/branch.go:96-116 | the twenty steps back of a retarget stay above the cut |
| `ChainInvariants.HashIsNew` | core/blockchain/chain.go:443-468 | a block accepted on a leaf or a fresh fork has a hash of its own among all listed blocks |
| `ChainInvariants.AppendSound` | core/blockchain/branch.go:71-86 | putting an accepted block on a branch keeps every invariant and makes the heads distinct leaves |
| `ChainInvariants.ForkSound` | core/blockchain/chain.go:443-468 | opening a branch keeps every invariant except that its head is no leaf yet |
| `ChainInvariants.NotifySound` | core/blockchain/chain.go:470-498 | after the comparison no listed branch is taller than the longest one, and all invariants stay |
| `ChainInvariants.AddBlocksSound` | core/blockchain/chain.go:401-432 | a batch keeps every invariant; heads stay distinct leaves exactly if no fork had its first block refused |
| `ChainMaintenance.SurvivorHeights` | core/blockchain/chain.go:344-353 | with the unsigned difference, a branch survives exactly if it is not above the longest one and at most alpha below it |
| `ChainMaintenance.PruneSound` | core/blockchain/chain.go:344-353 | pruning keeps every invariant and the database a prefix of the survivors |
| `ChainMaintenance.StemGrows` | core/blockchain/chain.go:355-359 | a block has one child exactly if all branches go on through the same next block |
| `ChainMaintenance.TurnSound` | core/blockchain/chain.go:361-393 | one turn of the flush loop keeps every invariant |
| `ChainMaintenance.FlushCrashes` | core/blockchain/chain.go:355-398 | the flush loop meets a wrong height exactly if the stem has left the database below its newest block |
| `ChainMaintenance.MaintainSound` | core/blockchain/chain.go:340-399 | a maintenance fails exactly in diverged states; otherwise it keeps all invariants and the longest branch, and only extends the database |
| `ChainRuns.StepSound` | core/blockchain/chain.go:340-432 | every step keeps the invariants, the longest height never drops, the database only grows at its end |
| `ChainRuns.RunSound` | core/blockchain/chain.go:260-432 | every state of every run from genesis satisfies all invariants and has distinct leaves as heads |
| `ChainRuns.EvidenceIsNeverRepeated` | core/blockchain/branch.go:171-218 | in every run no evidence hash is in two blocks of one branch, blocks only the database still has included |
| `ChainRuns.DifficultyStaysInWindow` | core/blockchain/branch.go:155-159 | in every run no difficulty exceeds the limit and none beyond the reference window is below half its parent's |
| `ChainChecks.AcceptedTarget` | core/blockchain/branch.go:96-116 | the target is the limit up to height 22, and above it what the interval to the head first and the twenty blocks before second make of the head's difficulty |
| `ChainChecks.AcceptedChecked` | core/blockchain/branch.go:139-191 | an accepted block has passed every check against its history: form, parent, time, work, target, root and evidence |
| `ChainChecks.RunChecked` | core/blockchain/branch.go:139-191 | in every state of every run, every block after genesis on every listed branch and in the database has passed all checks |
| `ChainChecks.EveryBlockIsChecked` | core/blockchain/branch.go:139-191 | the same for one block: its value is below its difficulty, times never fall, the target is right, its root is that of its evidence and each piece is valid |
| `ChainChecks.ExtendTimely` | core/blockchain/branch.go:147-155 | what a batch adds is at most three seconds ahead of its time |
| `ChainChecks.EvidenceAcceptedExactly` | core/blockchain/branch.go:195-218 | while the database is a prefix of all branches, evidence passes exactly if it is valid and on no block of the whole branch |
| `ChainChecks.AcceptedExactly` | core/blockchain/branch.go:139-191 | while the database is a prefix of all branches, a block passes exactly if all of this holds of it |
| `ChainRuns.RetargetWalkIsSafe` | core/blockchain/branch.go:104-110 | in every run, after any forks, prunes and cuts, the retarget walk never meets a missing parent |
| `Restart.InitFromDB` | core/blockchain/chain.go:282-317 | the loaded branch has the last twenty-one stored blocks, linked, cached and marked |
| `Restart.RestartWalk` | core/blockchain/branch.go:104-110 | in every run of batches after a restart, the retarget walk of a branch is safe exactly if its head is at most at height 21 or not below the block the database ended in |
| `Restart.ForkAfterRestart` | core/blockchain/branch.go:104-110 | a concrete fork below the restart tip that is let in and whose walk runs out of memory |
| `ChainRuns.RunIsMonotone` | core/blockchain/chain.go:401-498 | in every run the longest branch is a listed one, lastHeight is at most its height, its height never drops and the database is append-only |
| `ChainRuns.NetworkBatchFindsTallest` | core/blockchain/chain.go:429-431 | after a network batch that went in completely no listed branch is taller than the longest one |
| `ChainRuns.NetworkStepFindsTallest` | core/blockchain/chain.go:401-432 | in every run, after a network step whose batch went in completely no listed branch is taller than the longest one |
| `ChainRuns.MaintenanceAndTallest` | core/blockchain/chain.go:344-353 | a maintenance leaves the longest branch the tallest, and makes the greatest listed height drop exactly if some branch was taller than the longest one |
| `ChainRuns.NothingTallerIsPruned` | core/blockchain/chain.go:344-353 | in every run, right after a complete network batch a maintenance keeps the greatest height |
| `ChainRuns.ForksAndDatabase` | core/blockchain/chain.go:443-468 | a batch keeps the database a prefix of all branches exactly if it opens no branch below the newest stored block |
| `ChainRuns.DeepForkNeedsLaggingBranch` | core/blockchain/chain.go:447-452 | such a fork needs a branch below the longest height of the last maintenance |
| `ChainRuns.ShallowRunsNeverCrash` | core/blockchain/chain.go:355-398 | in every run without such forks the database is a prefix of all branches and every stored height is the latest plus one |
| `ChainExact.ForkExactly` | core/blockchain/chain.go:443-468 | a branch may be opened exactly if some branch has the parent in memory, the first such branch's head is at most eight above it and no branch goes on from it with that hash; it starts as that branch up to the parent |
| `ChainExact.ExtendExactly` | core/blockchain/chain.go:421-427 | the blocks before the first refused one are added, and the batch is complete exactly if there is none |
| `ChainExact.TallestExactly` | core/blockchain/chain.go:470-485 | a tallest branch; of several, the last one whose coin falls for it, else the first |
| `ChainExact.NotifyExactly` | core/blockchain/chain.go:487-498 | pointer and height stay unless a listed branch is taller than the height; then the pointer goes to the tallest and the height becomes its height |
| `ChainExact.AddBlocksExactly` | core/blockchain/chain.go:401-432 | a batch goes onto the first branch with its parent as head, else onto a new branch if it may fork, and else changes nothing; the longest branch is looked for only after a complete batch from the network |
| `ChainExact.OpensExactly` | core/blockchain/chain.go:401-411 | a batch opens a branch exactly if its parent is no head and a branch may fork off there |
| `ChainExact.PruneExactly` | core/blockchain/chain.go:344-353 | the survivors are, in their order, exactly the branches not above the longest and at most eight below it |
| `ChainExact.FlushExactly` | core/blockchain/chain.go:355-398 | flushing ends where the branches part or eight below the head; everything below is stored then, in order, and memory starts 129 below the head if flushing got that far |
| `ChainExact.MaintainExactly` | core/blockchain/chain.go:340-399 | one maintenance in all its effects: survivors, pointer, database, marks and cut |
| `Examples.RefusedForkStaysListed` | core/blockchain/chain.go:411-427 | a concrete run from genesis after which a branch head lies inside another branch |
| `StaleBranch.ChildIsResent` | core/blockchain/chain.go:434-441 | a child sent again goes onto the branch that a refused fork left |
| `StaleBranch.PruningFalls` | core/blockchain/block.go:83-92 | the linked blocks through that run: the child entry is overwritten, and pruning the stale branch unlinks the shared stem and falls off genesis |
| `Examples.DeepForkCrashes` | core/blockchain/chain.go:340-468 | a concrete run of orderly steps from genesis after which maintenance fails |
| `LateRefusal.TallestIsPruned` | core/blockchain/chain.go:344-353 | a concrete orderly run from genesis in which a batch refused at its last block leaves a taller branch that the next maintenance deletes |
| `TwinEvidence.StoredTwinDiffers` | core/blockchain/branch.go:171-184 | a concrete orderly run without deep forks that accepts and stores a block with two pieces of evidence of one hash, which the database gives back differently |
| `TwinEvidence.OldCacheCountsTwice` | core/qcache.go:149-185 | a concrete run in which an old cache counts twelve blocks of a miner who mined eleven |
| `BlockTree.Node.Remove` | core/blockchain/block.go:83-92 | a childless block is unlinked from its parent in both directions, any other stays as it is |
| `BlockTree.RemoveBranch` | core/blockchain/branch.go:56-69 | blocks are unlinked from the head down to the first with another child and nothing below changes; the walk falls off the oldest block exactly if no block of the path has a child but the next one |
| `BlockTree.Branch.constructor` | core/blockchain/branch.go:24-54 | both caches hold exactly the blocks and evidence of the walk down from the start |
| `BlockTree.Branch.GetBlock` | core/blockchain/branch.go:118-127 | the lookup finds a hash exactly if a plain walk does |
| `BlockTree.Branch.HasEvidence` | core/blockchain/branch.go:129-137 | evidence is found exactly if a block of the walk carries it |
| `BlockTree.Branch.Add` | core/blockchain/branch.go:71-86 | the block is linked above the head and both caches stay exact |
| `BlockTree.Branch.RemoveFromCache` | core/blockchain/branch.go:224-232 | the oldest block and its evidence leave the caches, which stay exact |
| `ChainMemory.ChildrenAgree` | core/blockchain/block.go:66-81 | the children kept by a block are the next blocks of the branches through it |
| `ChainMemory.MemoryGrows` | core/blockchain/branch.go:71-86 | after linking a new block, live blocks, links, walks, caches and marks are what the reference state says |
| `ChainMemory.MemoryForks` | core/blockchain/chain.go:461-463 | listing a branch over an existing path keeps memory in step |
| `MemoryPruning.BranchUnhooks` | core/blockchain/branch.go:56-69 | unlinking takes out exactly the blocks above the stop and no block whose parent stays |
| `MemoryPruning.OthersStay` | core/blockchain/chain.go:344-353 | no surviving branch runs through an unlinked block |
| `MemoryPruning.BranchDropped` | core/blockchain/chain.go:344-353 | after a branch is pruned, memory holds exactly the blocks the other branches reach, with mutual links |
| `MemoryCutting.MemoryMarks` | core/blockchain/chain.go:363-369 | marking a stored block keeps memory in step |
| `MemoryCutting.MemoryCuts` | core/blockchain/chain.go:379-393 | cutting the oldest block leaves walks, links, caches and marks in step with the next one as the oldest |
| `Chain.NextBlockTarget` | core/blockchain/branch.go:96-116 | the walk along parent links gives the target of the plain history and never misses a parent |
| `Chain.VerifyEvidence` | core/blockchain/branch.go:195-218 | evidence passes exactly if it is valid and neither in the branch in memory nor in the database |
| `Chain.VerifyBlock` | core/blockchain/branch.go:139-191 | a block passes exactly if the rules accept it on the branch's history |
| `Chain.DropBranch` | core/blockchain/branch.go:56-69 | a pruned branch leaves memory in step with the branch list without it |
| `Chain.Thin` | core/blockchain/chain.go:344-353 | the kept branches, in order, are the survivors of the reference model and the longest one is among them where it says |
| `Chain.CutOldest` | core/blockchain/chain.go:379-391 | the oldest block is cut off its only child and out of every cache |
| `Chain.FlushTurn` | core/blockchain/chain.go:355-393 | a turn stores, advances and cuts as the reference model, and fails exactly when the height is not the next one |
| `Chain.FlushLoop` | core/blockchain/chain.go:355-398 | the loop ends where the reference flush ends, or is fatal exactly when that crashes |
| `Chain.BlockChain.constructor` | core/blockchain/chain.go:260-280 | a chain over an empty store starts in the genesis state with all invariants |
| `Chain.BlockChain.Grow` | core/blockchain/chain.go:421-427 | an accepted block is linked, cached and counted as in the reference model |
| `Chain.BlockChain.CreateBranch` | core/blockchain/chain.go:443-468 | a branch is opened exactly when the reference model finds a fork point, over that history |
| `Chain.BlockChain.NotifyCheck` | core/blockchain/chain.go:470-498 | the longest pointer moves exactly as in the reference model |
| `Chain.BlockChain.ExtendBranch` | core/blockchain/chain.go:421-427 | blocks go in until the first refused one, with everything in step |
| `Chain.BlockChain.AddBlocks` | core/blockchain/chain.go:401-432 | a batch refines the reference model; heads stay distinct leaves exactly if no fork had its first block refused |
| `Chain.BlockChain.PruneBranches` | core/blockchain/chain.go:344-353 | memory after pruning is the pruned reference state |
| `Chain.BlockChain.FlushStem` | core/blockchain/chain.go:355-398 | memory and database after flushing are the flushed reference state |
| `Chain.BlockChain.Maintain` | core/blockchain/chain.go:340-399 | a maintenance refines the reference model and is fatal exactly when that crashes |
| `Chain.BlockChain.GetSyncHash` | core/blockchain/chain.go:105-152 | the answer by hash and 32-bit distance is that of the reference state; the walk never runs out of blocks |
| `Chain.BlockChain.GetSyncBlocks` | core/blockchain/chain.go:155-208 | the blocks come from memory or database as in the reference state |
| `Chain.BlockChain.GetUnstoredBlocks` | core/blockchain/chain.go:236-258 | the longest branch from its head down to the first marked block, newest first, with heights |
| `Replay.Follow` | core/blockchain/chain.go:319-432 | the linked chain goes through exactly the states of every run of the reference model and is never fatal in it |
| `Database.KeysAreInjective` | db/schema.go:38-75 | keys of one family differ whenever their heights, hashes or accounts do |
| `Database.PutAgrees` | db/badger.go:451-540 | after one more block every key family agrees with the plain list of blocks |
| `Database.UnderAnyTag` | db/schema.go:48-66 | what is found under a tag followed by bytes of any length: the index entry for 32 bytes, a score or an account entry that the bytes spell, nothing else |
| `OddKeys.HashOfNothing` | db/schema.go:48-71 | 37 concrete bytes that are no hash and have a height |
| `Database.ReadBackExactly` | db/badger.go:422-449 | a block is read back as it was exactly if evidence comes with a root and no two different pieces share a hash |
| `Database.ScoresSumToHeight` | db/badger.go:522-540 | the scores of all miners sum to the latest height |
| `Database.HashFindsHeight` | db/badger.go:327-344 | the height under a hash is the block's own when hashes are distinct |
| `Database.BlockStore.PutTx` | db/badger.go:451-540 | the writes of one transaction, evidence by evidence |
| `Database.BlockStore.PutGenesis` | db/badger.go:75-95 | an empty store indexes the genesis block at height 1 |
| `Database.BlockStore.PutBlock` | db/badger.go:97-120 | a block is stored exactly if its height is the latest plus one, and the store then indexes the longer chain |
| `Database.BlockStore.GetHash` | db/badger.go:123-142 | the hash at a height of the plain list |
| `Database.BlockStore.GetHeaderHeight` | db/badger.go:327-344 | the newest height with this hash, and for bytes of another length exactly the entry they spell |
| `Database.BlockStore.GetHeaderViaHash` | db/badger.go:158-170 | header and height exactly of the 32-byte hashes of stored blocks, whatever the length of the argument |
| `Database.BlockStore.GetHeaderViaHeight` | db/badger.go:144-156 | header and hash at a height of the plain list |
| `Database.BlockStore.HasEvidence` | db/badger.go:251-267 | for 32-byte hashes exactly the evidence of stored blocks with a root, for other lengths exactly the entries they spell |
| `Database.BlockStore.GetScoreViaKey` | db/badger.go:269-293 | the number of stored blocks mined by the key |
| `Database.BlockStore.GetBlock` | db/badger.go:422-449 | the block under a matching height and hash, nothing for others |
| `Database.BlockStore.GetBlockViaHeight` | db/badger.go:172-184 | the block at a height of the plain list |
| `Database.BlockStore.GetBlockViaHash` | db/badger.go:186-198 | the block and height under a hash, nothing for arguments of another length |
| `Database.BlockStore.GetEvidenceViaHash` | db/badger.go:200-212 | the last piece with this hash in the newest block that carries one, and its height |
| `Database.BlockStore.GetLatestHeight` | db/badger.go:295-311 | the length of the plain list |
| `Database.BlockStore.GetEvidenceViaKey` | db/badger.go:214-249 | for every 33-byte key the scan gives the account's evidence with its heights and the entries of other families the key spells, with the heights their bytes read as; it is the account's evidence alone exactly if there are none |
| `Database.StrayEvidence` | db/schema.go:58-75 | every key that spells the beginning of a stored evidence key meets it |
| `OddKeys.StrayAccount` | db/schema.go:58-75 | a concrete account that owns nothing and has seven bytes of an evidence hash in its list |
| `Sync.SyncAgrees` | core/blockchain/chain.go:105-208 | what the hash answer promises the blocks answer delivers: that many blocks modulo 2^32, linked from base to end, with the contents of the promised blocks as read back or stripped of evidence |
| `Sync.SyncHashExactly` | core/blockchain/chain.go:105-152 | unknown exactly if no block of the longest branch in memory and no stored block has the hash, up to date exactly if the head has it; else the head for a block in memory, and for one only stored the stored block 128 above or the newest, with the distance |
| `Sync.SyncBlocksExactly` | core/blockchain/chain.go:155-208 | with both ends in memory the blocks between or a bad range; else the stored blocks between; else that the database is behind if the base is stored and the end in memory; else nothing |
| `Sync.AheadByNothing` | core/blockchain/chain.go:131-151 | the hash answer is ahead by nothing exactly if base is the newest stored block and no block of the longest branch in memory has its hash, or the distance is a multiple of 2^32; the blocks answer then finds nothing |
| `Sync.AheadByNothingInMemory` | core/blockchain/chain.go:131-151 | while the database is a prefix of the longest branch, that happens exactly if the newest stored block has just been cut out of memory |
| `Sync.SentExactly` | core/blockchain/chain.go:155-208 | the promised blocks are sent as they are exactly if none has evidence when only headers are asked for and none from the database has two different pieces of one hash |
| `Transfer.SentGoesIn` | core/net.go:389-421 | a node that would take the promised blocks takes what is sent exactly if they are sent as they are |
| `Transfer.RootsCollide` | core/merkle/merkle.go:33-67 | two different lists of equally much evidence with one root give a hash collision |
| `Net.Responses` | core/net.go:363-387 | batches of sixteen, the last one shorter, that concatenate to the list |
| `Net.RespondKeeps` | core/net.go:389-421 | one entry per peer stays, remaining plus received stays what was asked, and blocks are handed on only when as many came as were asked for |
| `Net.CompleteAtFirst` | core/net.go:393-398 | a count is complete at the first non-empty prefix of responses whose total is what was missing modulo 2^32 |
| `Net.Delivery` | core/net.go:389-421 | whatever all peers send, the blocks of a peer with an entry are handed on once, in order, with the first response that completes the count modulo 2^32, and the entry goes; without one nothing is handed on and the entry stays, as old as the last response |
| `Net.OneTooMany` | core/net.go:393-413 | a concrete peer that sends one block too many: nothing is handed on and its entry stays, made younger by every response |
| `Net.SyncCompletes` | core/net.go:328-421 | serving and requesting side together: the list handed on links up from the base to the peer's end, with the last response and not before |
| `Net.Node.HandleSyncResponse` | core/net.go:354-361 | answers count only while waited for |
| `Net.Node.HandleBlocksResponse` | core/net.go:389-421 | the waiting list moves as specified and a finished list has the asked length modulo 2^32 |
| `Net.Node.DropSilent` | core/net.go:242-258 | exactly the entries heard from within eighty seconds stay |
| `Net.Node.Sync` | core/net.go:236-316 | a tick drops silent peers while blocks are awaited, otherwise asks for hashes or, once answers are in, for blocks; initialisation ends exactly when nothing is missing |
| `Net.Node.RequestBlocks` | core/net.go:261-316 | one peer is asked for every different offer, no offer is asked for twice, initialisation ends exactly when all peers are up to date |
| `Codec.EvidenceExactly` | serialize/cp/evidence.go:42-116 | reading gives an evidence and a rest exactly from its marshalled bytes followed by that rest, with fields within their prefixes |
| `Codec.HeaderExactly` | serialize/cp/block_header.go:39-106 | the same for headers |
| `Codec.BlockExactly` | serialize/cp/block.go:22-56 | the same for blocks with their evidence lists |
| `Codec.ResponseExactly` | serialize/cp/block_response.go:22-56 | the same for lists of blocks |
| `Codec.SizeIsLength` | serialize/cp/evidence.go:172-174 | Size is the marshalled length |
| `BigEndian.FourDigits` | serialize/cp/block_header.go:86-91 | four bytes are the digits to the base 256, the highest first |
| `BigEndian.EightDigits` | serialize/cp/block_header.go:86-91 | eight bytes are the high four before the low four |
| `Layout.HeaderLayout` | serialize/cp/block_header.go:86-106 | the offset of every field of a header |
| `Layout.EvidenceLayout` | serialize/cp/evidence.go:93-116 | the offset of every field of a piece of evidence |
| `Layout.BlockLayout` | serialize/cp/block.go:45-56 | header, number of evidence and the evidence in order, by offset |
| `Layout.ResponseLayout` | serialize/cp/block_response.go:45-56 | version, kind, reserved bytes, number of blocks and the blocks in order, by offset |
| `Layout.PacketLayout` | p2p/tcp_utils.go:26-37 | length, checksum, protocol and payload of a packet, by offset |
| `Codec.UnmarshalEvidence` | serialize/cp/evidence.go:42-91 | the reader gives what the parse gives and is left with its rest |
| `Codec.UnmarshalHeader` | serialize/cp/block_header.go:39-84 | the same for headers |
| `Codec.UnmarshalBlock` | serialize/cp/block.go:22-43 | the same for blocks, read evidence by evidence |
| `Codec.UnmarshalResponse` | serialize/cp/block_response.go:22-43 | the same for responses, read block by block |
| `Codec.WriteBlock` | serialize/cp/block.go:45-56 | the buffer filled in a loop is the marshalled block |
| `Codec.WriteResponse` | serialize/cp/block_response.go:45-56 | the buffer filled in a loop is the marshalled response |
| `Pow.HeaderNonceAt` | serialize/cp/block_header.go:144-146 | overwriting four bytes at index 9 is marshalling with another nonce |
| `Pow.EvidenceNonceAt` | serialize/cp/evidence.go:133-135 | overwriting four bytes at index 1 is marshalling with another nonce |
| `Pow.PowCache.Update` | serialize/cp/pow_cache.go:34-37 | the cached bytes are patched in place and hashed |
| `Pow.MinedHeader.NextNonce` | serialize/cp/block_header.go:135-147 | every call gives the value of marshalling and hashing the header from scratch |
| `Pow.MinedHeader.SetTarget` | serialize/cp/block_header.go:129-131 | setting another field leaves the cache right exactly if nothing was cached or changed |
| `Mining.Search` | core/parallel_mine.go:104-137 | a worker ends with the first good nonce of its range or at the first filled look, whichever is earlier, and fails exactly after all nonces, both ends included |
| `Mining.NoSendWaits` | core/parallel_mine.go:40-101 | in every reachable state every channel has room for whoever is about to send |
| `Mining.StepKeeps` | core/parallel_mine.go:40-137 | every step of workers, coordinator and caller keeps the invariant |
| `Mining.StepShortens` | core/parallel_mine.go:40-137 | every step brings the job closer to its end |
| `Mining.IdleIsDone` | core/parallel_mine.go:61-101 | nobody can go on exactly when the coordinator and all workers are done |
| `Mining.MiningRun` | core/parallel_mine.go:40-137 | for every worker count and interleaving at most one result is delivered, good or exhausted or timed out, and the run is bounded |
| `Mining.JobAnswers` | core/parallel_mine.go:59-101 | a job that ended without being terminated delivers exactly one result, a timeout only if there was one; without either it is a nonce exactly if some nonce of the ranges is good, else exhaustion |
| `Mining.StopsAreSeen` | core/parallel_mine.go:63-68 | once the coordinator has left, every worker that looks at the stop channel ends there |
| `Mining.DeliveredNonce` | core/parallel_mine.go:104-137 | a delivered nonce gives a value below the difficulty; exhaustion means no nonce up to the last end does |
| `Mining.RangesFit` | core/parallel_mine.go:41-50 | the ranges stay within 32 bits and leave out fewer nonces than there are workers |
| `Merkle.OneLevel` | core/merkle/merkle.go:51-63 | one level overwritten in place |
| `Merkle.ComputeRoot` | core/merkle/merkle.go:33-67 | the in-place loop ends with the root of the top-down tree, and fails exactly on no leaves |
| `Merkle.LevelKeepsRoot` | core/merkle/merkle.go:45-64 | a level keeps the root of the tree split at the largest power of two below n, as in section 2.1 of RFC 6962 without prefixes |
| `Merkle.SmallRoots` | core/merkle/merkle.go:38-64 | a single leaf is its root, two are hashed left to right, and a leaf without a partner goes up as it is |
| `Merkle.OrderExactly` | core/merkle/merkle.go:16-18 | of two different leaves the one with the smaller first differing byte, or the prefix, comes first |
| `Merkle.EqualRootsCollide` | core/merkle/merkle.go:33-67 | two different lists of equally many 32-byte leaves with equal roots give a hash collision |
| `Merkle.SortedRootIgnoresOrder` | core/merkle/merkle.go:26-29 | the sorted root depends on the multiset of leaves only |
| `Merkle.SortAndComputeRoot` | core/merkle/merkle.go:26-29 | the root of the leaves in increasing order |
| `Producer.RulesCheckBlocks` | serialize/cp/block.go:58-84 | the structural checks guarantee the lengths and the empty-root rule the chain relies on |
| `Producer.GetEvidence` | core/scheduler.go:107-129 | evidence is taken exactly until a block of 1048576 bytes is full or the pool empty; what is accepted comes once per hash, the last of each, and there are at most 13798 pieces |
| `Producer.ProducedIsAccepted` | core/scheduler.go:131-153 | a built block with its target and a good nonce passes all checks exactly if its time is not before the head's and not too far ahead |
| `Producer.MinedIsAdded` | core/scheduler.go:65-103 | a nonce any run of the mining job delivers gives a block the unchanged chain puts on top of its longest branch; the score of the node's own key rises by one and no other |
| `TcpStream.Buffer.SplitStream` | p2p/tcp_utils.go:39-62 | the packets and the rest of the plain split, or none if a length wraps to zero |
| `TcpStream.SplitEarly` | p2p/tcp_utils.go:39-62 | splitting early and carrying over comes to the same as splitting late, for every byte stream |
| `TcpStream.ChunksDoNotMatter` | utils/tcp.go:182-225 | however a stream is cut into chunks, the packets are the same |
| `TcpStream.StreamFoundExactly` | p2p/tcp_utils.go:39-62 | a stream of packets is found whole exactly if every packet length fits into 32 bits and the last payload is not empty |
| `TcpStream.BuiltAreFound` | p2p/tcp_utils.go:39-62 | of packets that fit all are found, except that an empty last one stays in the buffer |
| `TcpStream.EndlessExactly` | p2p/tcp_utils.go:43-59 | for every buffer, the loop never ends exactly if it gets to an offset with more than nine bytes and a length field of 2^32 - 9 |
| `TcpStream.StreamEndless` | p2p/tcp_utils.go:43-59 | a stream of packets that fit never gets there, a payload of 2^32 - 9 bytes after such packets does |
| `TcpStream.AcceptedExactlyBuilt` | p2p/tcp_utils.go:64-83 | a packet of its own length is accepted with a payload and protocol exactly if it was built from them |
| `TcpStream.StreamDelivers` | p2p/tcp_utils.go:26-83 | packets sent in a row and received in any chunks come out in order exactly if all lengths fit and the last payload is not empty, and each that fits is accepted with its payload and protocol |
| `QueryCache.UnstoredIsAboveDatabase` | core/blockchain/chain.go:236-258 | with the database a prefix of all branches, the unstored blocks are exactly those above it |
| `QueryCache.CacheBlock` | core/qcache.go:209-227 | the evidence of a block goes under its hashes and to its owners, and nothing else changes |
| `QueryCache.QCache.Fill` | core/qcache.go:185-243 | the cache lists, indexes and counts exactly the unstored blocks of the longest branch, with their evidence by hash and, piece by piece, by owner |
| `QueryCache.QCache.Refresh` | core/qcache.go:179-245 | the cache is filled anew if it is due and stays as it is otherwise |
| `QueryCache.QCache.FindBlock` | core/qcache.go:68-86 | the cached or stored block at a height; height 0 with an empty cache fails |
| `QueryCache.QCache.FindAccount` | core/qcache.go:149-177 | the cached and the stored score add up; the list has every cached piece and every entry of the scan, counted |
| `QueryCache.QCache.GetBlockViaHeight` | core/qcache.go:68-86 | in every run without deep forks, the exact answer of a cache filled now or in an earlier state; a fresh one has at every height up to the head a block with the header and hash of the longest branch's block, and it is that block exactly if it is not stored yet or no two different pieces of its evidence share a hash |
| `QueryCache.QCache.GetAccount` | core/qcache.go:149-177 | for every 33-byte key, in such runs: a fresh cache counts every block of the longest branch the account mined once, an older one those of that time and again those stored since; the list is stated with multiplicities and, when fresh, has exactly the hashes of the account's evidence if and only if no other entry's key begins with the account's prefix |
| `QueryCache.QCache.GetEvidence` | core/qcache.go:112-147 | in such runs, the exact answer of a cache filled now or earlier; a fresh one finds a hash exactly if it is on the longest branch, with a block that carries it |

## Left out

- Database.BlockStore.GetBlock: not stated for hashes of 1, 29 or 57 bytes, for which its key could spell another entry; no caller passes one.
- Database.BlockStore.GetScoreViaKey: 33-byte keys only.
- Database.BlockStore.GetEvidenceViaKey: 33-byte keys only, the length the endpoint checks; the order in which the scan lists its keys is not modelled.
- QueryCache.QCache.GetAccount: 33-byte keys only; an account's list is described by how often each hash is in it, not by the order.
- Database.BlockStore.PutBlock: heights below 2^63, and a transaction is one atomic update; Badger's own errors and garbage collection are not modelled.
- Chain.BlockChain.AddBlocks: all blocks of a batch are checked against one time, and the random tie-break is a sequence of coins.
- Chain.BlockChain.constructor: starts from genesis; a chain loaded by `Restart.InitFromDB` does not satisfy the invariants of a run, and only its branch and its retarget walks are modelled.
- Chain.VerifyBlock: signatures and the description check are arbitrary predicates, and the retarget scale is an arbitrary real instead of a rounded float.
- Difficulty.ScaleMeasures: in reals; the rounding of the program's floating-point scale is not modelled.
- ChainChecks.AcceptedExactly: the converse of the checks is for states in which the database is a prefix of all branches; after a deep fork evidence of stored blocks outside the branch is refused as well.
- Producer.GetEvidence: the pool is an arbitrary sequence and the chain's verdict a function that does not change while it runs.
- Merkle.ComputeRoot: slices are values, so writing into spare capacity of a leaf's backing array is not modelled.
- Merkle.SortAndComputeRoot: the library's sort is specified by its result.
- Mining.MiningRun: the timer and the caller act at any moment; the caller terminates a job at most once.
- Net.Node.HandleBlocksResponse: the blocks are returned instead of being queued for the chain.
- Sync.SyncAgrees: both answers are given in one state of the peer; between the two requests a flush may make the second one fail.
- Transfer.SentGoesIn: takes it as given that equal roots of equally much evidence mean equal evidence for the blocks concerned; where they do not, `Transfer.RootsCollide` gives the collision.
- TcpStream.Buffer.SplitStream: a loop that would never end is an outcome, since it cannot be run.
- QueryCache.QCache.Refresh: whether twenty seconds have passed is an input.
- Pow.MinedHeader.SetTarget: stands for the other setters, which leave the cache alone in the same way.
- Broadcasts and the relay filter, the evidence pool, the status report and the light-node switch beyond header-only copies: only easy members.
- HTTP, configuration, logging, sockets, peer discovery, handshakes and the storage records' own encoding: input and output, or codecs of the same shape as the ones modelled.

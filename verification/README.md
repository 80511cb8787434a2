# Huntercore in Dafny

A Dafny 4.11 model of the core data structures and protocols of Huntercore, a node descended from Bitcoin
and Namecoin, with proofs of what they promise. The modules follow the source files:

| module | what it models |
|---|---|
| `CheckQueue` | the parallel script-check queue: a state machine over the steps of any number of workers and one master |
| `Coins` | the stack of write-back UTXO caches with DIRTY and FRESH flags over the coin database |
| `Merkle` | the Merkle root and branches of a block, in one pass over the leaves with a 32-bit counter |
| `PartialMerkle` | partial Merkle trees: building, packing the flag bits, unpacking and extracting |
| `AddrTables`, `AddrMan`, `AddrCheck`, `AddrDisk` | the address manager: the tables and their agreement, the operations, the self-check, saving and loading |
| `Miner` | the selection of mempool packages for a new block |
| `RollingBloom` | the rolling Bloom filter with two-bit generation stamps packed into 64-bit words |
| `CuckooCache` | the signature cache: bit-packed flags, epochs, the displacement chain |
| `SkipHeights`, `Chain` | skip pointers, ancestors, forks, locators, the active chain |
| `NetFraming` | splitting the byte stream of a peer into messages, and the send queue |
| `CompactBlocks` | compact block relay from the sender's block to the receiver's |
| `Arith256`, `ProofOfWork` | 256-bit arithmetic on 32-bit limbs, compact targets, the retarget rule, block work |
| `Bech32`, `Base58` | the two address encodings |
| `AuxPow` | merged-mining proofs |
| `Numbers`, `SetSums` | arithmetic and sums over finite sets |

`dafny verify dfyconfig.toml` checks everything.

Code that works by changing fields or buffers is a class or a method with loops here, specified by functions on
values; the properties are lemmas about those functions and invariants kept by the methods. Integer widths and
wraparounds of the source are written out wherever they matter. Hash functions are arbitrary parameters: a theorem
that could fail only by a collision names the two colliding pairs, among those that the code really hashes.

## Model

| member | source | states |
|---|---|---|
| `CheckQueue.StepKeeps` | src/checkqueue.h:66-158 | Whatever step any worker or the master takes next, spurious wakeups included, the whole protocol invariant holds again: the counters, the verdict so far, the conservation of checks and the absence of lost wakeups. |
| `CheckQueue.RunKeeps` | src/checkqueue.h:66-158 | The invariant holds after every interleaving, of any length, of any number of workers with one master. |
| `CheckQueue.EveryWaitIsExact` | src/checkqueue.h:66-143 | In every run from a fresh queue, each `Wait` returned exactly the conjunction of the checks added since the previous one. What was executed is among what was added, and is all of it when the verdict is true; nothing leaks from one round into the next. |
| `CheckQueue.CountersAreExact` | src/checkqueue.h:66-124 | In every run, `nTodo` is the number of queued checks plus the checks in batches not yet reported, the divisor of the batch size is positive, and `nTodo == 0` means that no thread runs a batch. |
| `CheckQueue.NoWakeupIsLost` | src/checkqueue.h:66-124 | In every run, a master asleep without a pending signal implies an empty queue and a worker that still holds checks. |
| `CheckQueue.BatchLengthInRange` | src/checkqueue.h:107-108 | The batch size formula gives at least one and at most all of the queued checks. |
| `CheckQueue.TakeBackKeepsChecks` | src/checkqueue.h:108-114 | Moving a batch off the back of the queue keeps the multiset of checks and the conjunction of their results. |
| `CheckQueue.AddKeeps` | src/checkqueue.h:146-158 | `Add` keeps the invariant, whichever sleeping workers the notification wakes. |
| `CheckQueue.InternalStepDecreases` | src/checkqueue.h:66-124 | Every step of the queue itself (not an `Add`, a new `Wait` or a spurious wakeup) decreases a measure. |
| `CheckQueue.WaitIsNeverStuck` | src/checkqueue.h:66-143 | While the master is inside `Wait`, some step of the queue itself is possible. |
| `CheckQueue.WaitReturns` | src/checkqueue.h:66-143 | Runs of the queue's own steps are bounded, and when no such step is left the master has returned. |
| `CheckQueue.WorkersWakeUp` | src/checkqueue.h:66-158 | In every run, while checks are queued and there is a worker, some worker is awake: added checks are never left to sleeping workers. |
| `CheckQueue.BatchesAreCapped` | src/checkqueue.h:107-114 | In every run, a batch that a thread works on has at least one check, and at most `nBatchSize` or one. |
| `CheckQueue.StepNotices` | src/checkqueue.h:66-158 | Every step keeps this: a notification wakes a worker when all sleep, and a worker sleeps only on an empty queue. |
| `Coins.CoinsStack.PushCache` | src/coins.cpp:42-42 | A new cache on top shows what the view below it shows, and changes no other view. |
| `Coins.CoinsStack.PopCache` | src/coins.cpp:26-38 | Dropping the top cache leaves every other view as it was. |
| `Coins.CoinsStack.GetCoinFromBase` | src/coins.cpp:26-28 | A lookup in the view below finds exactly what that view shows, and changes no view although it may fill caches. |
| `Coins.CoinsStack.FetchCoin` | src/coins.cpp:48-63 | Looking a coin up may fill the caches on the way, but keeps the invariant and every view; the only entry that can appear in the cache is what its base shows. |
| `Coins.CoinsStack.GetCoin` | src/coins.cpp:65-72 | Returns exactly the unspent coin that the view shows, or nothing if it shows none. |
| `Coins.CoinsStack.HaveCoin` | src/coins.cpp:134-137 | True exactly if the view shows an unspent coin; no view changes. |
| `Coins.CoinsStack.Uncache` | src/coins.cpp:301-308 | Removes an entry exactly if it is neither dirty nor fresh; no view changes. |
| `Coins.CoinsStack.AddCoin` | src/coins.cpp:74-93 | Asserts exactly for a spent coin and throws exactly when an unspent coin is cached and no overwrite is announced; otherwise the top view changes by exactly that coin, no other view changes, and truthful flags stay truthful if and only if an overwrite was announced or no coin was visible. |
| `Coins.CoinsStack.SpendCoin` | src/coins.cpp:107-121 | The top view loses exactly that coin, which is moved out; no other view changes. |
| `Coins.CoinsStack.AddCoins` | src/coins.cpp:95-105 | Throws exactly if nothing is announced (no `check`, not a coinbase) and the top cache holds one of the outputs unspent. Otherwise exactly the spendable outputs become visible in the top view, no other view changes, and the flags stay truthful if and only if they are announced or none was visible. |
| `Coins.CoinsStack.BatchWrite` | src/coins.cpp:228-285 | Throws exactly if some dirty entry marked FRESH meets an unspent entry; if the written flags are truthful it does not, and the cache then shows what the cache above showed, with truthful flags and exact memory accounting. |
| `Coins.CoinsStack.BatchWriteDb` | src/txdb.cpp:159-220 | The database refuses a null best block; for truthful flags it becomes exactly what the cache over it showed. |
| `Coins.CoinsStack.Flush` | src/coins.cpp:287-299 | A flush at any level of any stack never throws, empties the cache, makes the view below equal to its own, and changes no other view and no best block from there on; it asserts exactly when the lowest cache has entries and no best block. |
| `Coins.CoinsStack.Run` | src/coins.h:156-320 | Every sequence of pushes, pops, reads, drops, flushes, spends, and additions that announce what they overwrite, shows at every level what a plain stack of maps performing the same operations holds. |
| `Coins.AddedShows` | src/coins.cpp:74-93 | An added coin is visible at once; the flags stay truthful if and only if the overwrite was announced or no coin was visible. |
| `Coins.SpentShows` | src/coins.cpp:107-121 | A spent coin disappears from the view, whether its entry is erased or marked, and the flags stay truthful. |
| `Coins.MergeShows` | src/coins.cpp:234-280 | Merging a dirty entry with truthful flags is never misapplied: either the entry stays with the coin of the child and truthful flags, or it is dropped, and then the coin is spent and nothing below shows it. |
| `Coins.NeverMisapplied` | src/coins.cpp:252-259 | With truthful flags in the child no entry triggers the exception for a misapplied FRESH flag. |
| `Coins.WrittenShows` | src/coins.cpp:228-285 | After all entries are merged, in whatever order, the base shows what the child showed and its flags are truthful. |
| `Coins.FlushedKeeps` | src/coins.cpp:287-299 | Emptying a cache whose base has come to show the same keeps the stack valid and every view from there on. |
| `Coins.FlushedBest` | src/coins.cpp:144-148 | Flushing a cache with a best block makes its base report the same one, and changes none above. |
| `Coins.DropUnmodified` | src/coins.cpp:301-308 | An entry that is not dirty can be dropped: the view stays the same and the flags stay truthful. |
| `Coins.UnmarkedOverwriteLosesASpend` | src/coins.cpp:84-91 | Adding over a visible coin without announcing it marks the entry FRESH wrongly: spending the new coin makes the old one visible again. |
| `Merkle.CompleteNodes` | src/consensus/merkle.cpp:56-61 | On each level the tree has as many nodes as full subtrees fit in the leaves, and at most one more. |
| `Merkle.CounterFits` | src/consensus/merkle.cpp:102-127 | Up to 2^31 leaves the 32-bit leaf counter never wraps while the right edge is padded. |
| `Merkle.CounterWraps` | src/consensus/merkle.cpp:45-127 | Between 2^31 and 2^32 leaves, which the comment still allows, the padded counter reaches 2^32 and wraps to 0. |
| `Merkle.Climb` | src/consensus/merkle.cpp:73-84 | Combining the new leaf with the stored subtrees, while the counter carries, gives the node that the new leaf completes on the level reached; a repeated subtree is noticed exactly where its two halves are equal. |
| `Merkle.Absorb` | src/consensus/merkle.cpp:65-90 | After each leaf the stored hashes are exactly the full subtrees that the bits of the counter name, the branch of the wanted leaf is right so far, and a twin is reported exactly if this leaf completed one. |
| `Merkle.Double` | src/consensus/merkle.cpp:102-127 | On the right edge an odd node is combined with itself; one turn reaches a higher level on which the hash in hand is the last node. |
| `Merkle.Sweep` | src/consensus/merkle.cpp:91-131 | From the stored subtrees the loop finds the root of the tree built level by level, and the branch of the wanted leaf. |
| `Merkle.MerkleComputation` | src/consensus/merkle.cpp:45-131 | For every list of up to 2^31 leaves: the root is that of the tree built level by level; `mutated` holds exactly if somewhere two full neighbouring subtrees have one hash; the branch is the list of siblings of the wanted leaf. |
| `Merkle.ComputeMerkleRootFromBranch` | src/consensus/merkle.cpp:145-156 | The loop folds the branch by the bits of the index. |
| `Merkle.BranchLeadsToRoot` | src/consensus/merkle.cpp:139-156 | The branch computed for a leaf leads from that leaf to the root, for every list and position. |
| `Merkle.LastRepeated` | src/consensus/merkle.cpp:9-43 | The known weakness: appending the last of an odd number of leaves again keeps the root, and is reported as mutated. |
| `Merkle.ChangesDetected` | src/consensus/merkle.cpp:9-43 | Two different lists of one height with one root: one of them is reported as mutated, or two different pairs hashed for them collide. |
| `Merkle.IncompleteTwin` | src/consensus/merkle.cpp:9-43 | A last subtree that was padded and still equals its neighbour also shows a repeated full subtree below, or a collision. |
| `Merkle.HeightsMatter` | src/consensus/merkle.cpp:9-43 | Lists of different heights may have one root without any report: two leaves, and their hash as the only leaf. |
| `PartialMerkle.TreeHeight` | src/merkleblock.cpp:121-124 | The height found by the loop is one at which the tree has a single node. |
| `PartialMerkle.NodesDiffer` | src/merkleblock.cpp:40-58 | For any hash and distinct transactions, different nodes of a level have different hashes, or two different pairs hashed for the tree collide. |
| `PartialMerkle.ExtractEncoded` | src/merkleblock.cpp:78-114 | At any node and at any place in the stream: extraction of what was encoded there fails exactly if a node that it descends into has two children with one hash; otherwise it consumes exactly that and returns the hash of the node and the matches below it. |
| `PartialMerkle.ExtractAuthentic` | src/merkleblock.cpp:78-114 | Whatever hash, bits and hashes are given: if extraction succeeds with the true hash of a node, every match returned is the real transaction at that index, or a pair that the extraction hashed collides with one of the tree. |
| `PartialMerkle.RoundTrip` | src/merkleblock.cpp:132-163 | Building, packing the bits, unpacking and extracting returns the root of the level-by-level tree and exactly the matched transactions with their indices, for every block of distinct transactions within the size limit and every selection, unless two different pairs hashed for the tree collide. |
| `PartialMerkle.Authentic` | src/merkleblock.cpp:132-163 | For any hash and arbitrary received bits and hashes: if decoding succeeds with the true root, every (txid, index) returned is real, or a pair that the decoder hashed collides with one of the tree. |
| `PartialMerkle.HashBound` | src/merkleblock.cpp:60-76 | A partial tree has at least one hash, at most one per transaction, and at most one plus the number of matches times the height. |
| `PartialMerkle.FlagBitBound` | src/merkleblock.h:44-49 | There are at most 2 * hashes - 1 flag bits if and only if no node above a match has a single child. |
| `PartialMerkle.FlagBitBoundFails` | src/merkleblock.h:44-49 | Three transactions with the last one matched need two hashes and four bits, against the documented bound. |
| `PartialMerkle.PartialMerkleTree.constructor` | src/merkleblock.cpp:116-128 | The tree built holds exactly the depth-first encoding of the block and the selection. |
| `PartialMerkle.PartialMerkleTree.Unserialize` | src/merkleblock.h:92-98 | Unpacking reads eight bits from each byte, least significant first, with no flag set. |
| `PartialMerkle.PartialMerkleTree.PackBits` | src/merkleblock.h:99-104 | Packing uses as few bytes as possible, and unpacks to the same bits with zeros after them. |
| `PartialMerkle.PartialMerkleTree.TraverseAndBuild` | src/merkleblock.cpp:60-76 | Appends exactly the encoding of the subtree to the bits and hashes. |
| `PartialMerkle.PartialMerkleTree.TraverseAndExtract` | src/merkleblock.cpp:78-114 | Appends the matches and advances both counters as the recursive extraction does, of which `ExtractEncoded`, `ExtractAuthentic` and `TwinsNotDecoded` speak; `fBad` is set exactly when that fails. |
| `PartialMerkle.PartialMerkleTree.ExtractMatches` | src/merkleblock.cpp:132-163 | Returns the root and the matches of the decoding, of which `DecodeEncoded`, `Authentic` and `TwinsNotDecoded` speak, or zero exactly when one of the checks fails. |
| `PartialMerkle.NodeOfLevel` | src/merkleblock.cpp:40-58 | Every node hash of the recursive definition is the entry of the tree built level by level, with children in order. |
| `PartialMerkle.TopNode` | src/merkleblock.cpp:40-58 | The hash of the top node is the root that the block header commits to. |
| `PartialMerkle.DecodeEncoded` | src/merkleblock.cpp:132-163 | For every block within the size limit and every selection, decoding what was built fails exactly if some node above a match has two children with one hash, and otherwise returns the root of the level-by-level tree and exactly the matched transactions. |
| `PartialMerkle.TwinsMetExactly` | src/merkleblock.cpp:78-114 | The traversal meets twins exactly if some node above a match has two children with one hash. |
| `PartialMerkle.TwinsNotDecoded` | src/merkleblock.cpp:101-108 | Whatever bits and hashes are received: if the traversal descends into a node whose two children come out equal, decoding fails. |
| `PartialMerkle.DistinctNoTwins` | src/merkleblock.cpp:101-108 | With distinct transactions no node above a match has two children with one hash, or two different pairs of the tree collide. |
| `AddrTables.SwapKeeps` | src/addrman.cpp:93-111 | Exchanging two elements of `vRandom` with the positions in their entries keeps all tables in agreement. |
| `AddrTables.DeleteKeeps` | src/addrman.cpp:113-125 | Removing the last element of `vRandom` with its entry keeps all tables in agreement. |
| `AddrTables.NewSlotKeeps` | src/addrman.cpp:127-139 | Filling or freeing a slot of the new table with the reference count adjusted keeps all tables in agreement. |
| `AddrTables.TriedSlotKeeps` | src/addrman.cpp:142-188 | Filling or freeing a slot of the tried table with the flag adjusted keeps all tables in agreement. |
| `AddrTables.NewOccupant` | src/addrman.cpp:127-139 | An occupied new slot holds a known id that hashes to it, is not tried and has one to eight references. |
| `AddrTables.TriedOccupant` | src/addrman.cpp:161-165 | An occupied tried slot holds a known id that hashes to it, is tried and has no references. |
| `AddrTables.CollisionsKeep` | src/addrman.cpp:537-587 | Ids that wait in the collision set still face an occupied tried slot after every step that only evolves the tables. |
| `AddrTables.RandomSize` | src/addrman.cpp:402-403 | `vRandom` has one element for every id, so its size is nTried + nNew. |
| `AddrTables.InsertedEvolves` | src/addrman.cpp:305-318 | Putting an id into a slot after its occupant was released changes no address and no id of any other entry. |
| `AddrTables.PromotionFrom` | src/addrman.cpp:142-188 | Leaving the new table, evicting an occupant and taking the tried slot, in this order, is one promotion: exactly the promoted id, the evicted one and the one displaced by it change. |
| `AddrMan.AddrMan.SwapRandom` | src/addrman.cpp:93-111 | Swaps two elements of `vRandom`, adjusts the two entries and keeps the invariant. |
| `AddrMan.AddrMan.Delete` | src/addrman.cpp:113-125 | Removes exactly that id from all structures; its asserts hold. |
| `AddrMan.AddrMan.ClearNew` | src/addrman.cpp:127-139 | Frees the slot; the id in it loses one reference and disappears exactly when that was the last; no other entry changes. |
| `AddrMan.AddrMan.MakeTried` | src/addrman.cpp:142-188 | The id takes its tried slot without references; an id that was there goes back to its new slot with one reference; what was in that slot loses one and disappears exactly if that was its last; nothing else changes, and none of the asserts fires. |
| `AddrMan.AddrMan.Good_` | src/addrman.cpp:190-252 | Keeps the invariant. Unknown exactly if the address is, another service exactly if the port differs; else already tried, collided or moved exactly by the flag and by whether the slot is taken and is to be tested first. The entry gets the success and the try at this time and no failures, and keeps its other statistics. Moving is exactly one promotion; a collision changes nothing else and is recorded if fewer than ten are pending. The exit for an id without a bucket is never taken. |
| `AddrMan.AddrMan.Create` | src/addrman.cpp:81-91 | A new id with a fresh number appears in `mapInfo`, `mapAddr` and `vRandom`. |
| `AddrMan.AddrMan.Add_` | src/addrman.cpp:254-325 | Keeps the invariant; returns true exactly for a routable address that was unknown. Such an address is stored, with its penalised time, exactly if its slot is free or holds an entry that is terrible or has other references while this one has none; the occupant then loses its reference, and nothing else changes. A known address gets its services and its newer time, and a further slot exactly if it has news, is not tried, has fewer than eight slots, the draw allows it and the slot is open to it. |
| `AddrMan.AddrMan.Attempt_` | src/addrman.cpp:327-347 | Only the entry of exactly that service changes, and only its times and its count of failures, which grows by one exactly if counting was asked for and some address succeeded since this one was last counted. |
| `AddrMan.AddrMan.GetAddr_` | src/addrman.cpp:474-493 | Returns known addresses that are not terrible, no address twice, and as many as there are up to 23 percent of all and up to 2500. |
| `AddrMan.AddrMan.ResolveCollisions_` | src/addrman.cpp:537-587 | Keeps the invariant. A collision stays exactly if it was not settled in the state in which its turn came. |
| `AddrMan.AddrMan.ResolveCollision` | src/addrman.cpp:540-585 | A collision is settled exactly if its id is gone or invalid, the occupant succeeded less than four hours ago, or it was tried without success more than a minute and less than four hours ago. Exactly in the last case the colliding id takes the slot; otherwise no table changes. |
| `AddrMan.AddrMan.SelectTriedCollision_` | src/addrman.cpp:589-614 | Nothing without a collision; nothing for a chosen id that is gone, which is then forgotten; and for any other the entry of the tried table that it faces: it never looks up id -1. |
| `AddrMan.AddrMan.Run` | src/addrman.cpp:81-614 | Every sequence of `Add_`, `Good_`, `Attempt_`, `GetAddr_`, `ResolveCollisions_` and `SelectTriedCollision_` keeps the invariant between all tables. |
| `AddrMan.EveryBucketVisited` | src/addrman.cpp:219-229 | The search for a bucket from a random start visits every bucket. |
| `AddrMan.GatheredDistinct` | src/addrman.cpp:474-493 | The partial shuffle never returns an address twice. |
| `AddrMan.AddrMan.PlaceNew` | src/addrman.cpp:303-323 | The id takes its slot exactly if that is open to it, its occupant losing one reference; otherwise an id without any reference is deleted and one with references stays as it was. |
| `AddrMan.AddrMan.AddUnknown` | src/addrman.cpp:296-323 | A new entry is stored, in the slot of its source, exactly if the slot is open to it; otherwise nothing is left of it. |
| `AddrMan.AddrMan.AddKnown` | src/addrman.cpp:268-295 | A known address gets services and time, and a further slot exactly under the five conditions. |
| `AddrMan.AddedEvolves` | src/addrman.cpp:254-325 | A stored address changes no other entry than the occupant of its slot. |
| `AddrMan.GatheredCount` | src/addrman.cpp:474-493 | The walk over the shuffled list passes over terrible addresses only, so it returns the limit or all good ones. |
| `AddrCheck.CheckEntries` | src/addrman.cpp:405-429 | In a valid state only times can be wrong; without such an error it collects exactly the tried ids, and the others with their reference counts. |
| `AddrCheck.CheckTried` | src/addrman.cpp:436-448 | The walk over the tried table finds every tried id once: no error, and nothing is left over. |
| `AddrCheck.CheckNew` | src/addrman.cpp:450-461 | The walk over the new table finds every reference once: no error, and nothing is left over. |
| `AddrCheck.Check_` | src/addrman.cpp:397-471 | In every valid state the manager's own check returns 0 if and only if all times are set and the key is not null; every other code speaks of one of those two. |
| `AddrDisk.Serialize` | src/addrman.h:316-364 | What is written describes the tables with ids renumbered by rank; the two count asserts hold. |
| `AddrDisk.LoadOneTried` | src/addrman.h:416-432 | A tried entry is lost exactly if its slot is taken; otherwise it takes the slot and the next id, and its address leads to it. |
| `AddrDisk.LoadTried` | src/addrman.h:414-433 | The entries are read in order, each as above; those lost are counted, and none is lost from a saved manager. |
| `AddrDisk.LoadItem` | src/addrman.h:439-450 | One reference is restored exactly if the item names a new entry, the slot is free and the entry has fewer than eight; nothing else changes. |
| `AddrDisk.PruneAll` | src/addrman.h:453-463 | Removes exactly the entries that found no slot, with the links from their addresses, leaves the others as they were, and `vRandom` lists exactly the entries afterwards; from a saved manager nothing is pruned. |
| `AddrDisk.Unserialize` | src/addrman.h:366-469 | Refused exactly for a wrong key size or too many entries. Any other record gives what it makes of empty tables, without the entries that found no place, with right counts; the result is valid exactly if no entry that found a place shares its address with another one. The record of a valid manager gives a valid manager with the same tables up to renumbering. |
| `AddrDisk.SaveAndLoad` | src/addrman.h:316-469 | Saving any valid manager and loading it gives a valid manager with the same tables, entries and reference counts up to renumbering. |
| `AddrDisk.RoundTrip` | src/addrman.h:366-469 | Tables filled from a saved record agree with each other and are the original ones up to renumbering. |
| `AddrDisk.RefsLoaded` | src/addrman.h:435-451 | While buckets are loaded no reference count exceeds the original one, and in the end they are equal. |
| `AddrDisk.WithinLimits` | src/addrman.h:386-392 | A valid manager never exceeds the limits that loading checks. |
| `AddrDisk.NothingLost` | src/addrman.h:453-463 | No entry of a saved manager is pruned. |
| `AddrDisk.LoadOneNew` | src/addrman.h:395-411 | An entry gets the next id; if the positions cannot be used it takes the slot of its source exactly if that is free. |
| `AddrDisk.AllSound` | src/addrman.h:395-451 | Whatever the record holds: every reference count is the number of slots that hold the entry and at most eight, every slot holds an entry that hashes to it, and every address leads to an entry with that address. |
| `AddrDisk.MadeConsistent` | src/addrman.h:395-469 | After pruning, the tables agree if and only if no entry that found a place shares its address with another one. |
| `AddrDisk.CleanRecord` | src/addrman.h:395-451 | A record in which no address repeats always satisfies that condition. |
| `AddrDisk.RepeatSpoils` | src/addrman.h:395-411 | If the positions cannot be used, a record whose first new entry has its address again never does. |
| `AddrDisk.TriedComesBack` | src/addrman.h:414-433 | Whatever the record, the first tried entry for a slot comes back in that slot with all that was stored; the others for it are lost. |
| `AddrDisk.NewComesBack` | src/addrman.h:395-411 | If the positions cannot be used, a new entry comes back exactly if it is the first for the slot of its source, and then it is there with one reference. |
| `Miner.BlockAssembler.constructor` | src/miner.cpp:63-100 | A new assembler has an empty block within the limits; a maximum weight inside the allowed range is kept. |
| `Miner.BlockAssembler.TestPackage` | src/miner.cpp:216-224 | True exactly if four times the size and the sigops keep the block strictly below both limits. |
| `Miner.BlockAssembler.SortForBlock` | src/miner.cpp:354-363 | The result has exactly the transactions of the package, in order of ancestor count. |
| `Miner.BlockAssembler.AddToBlock` | src/miner.cpp:284-310 | Appends the transaction and keeps weight, sigops and `inBlock` exact. |
| `Miner.BlockAssembler.UpdateDescendant` | src/miner.h:110-120 | One included ancestor is subtracted from a descendant, starting from the cached sums if it was not yet modified; the fee subtracted then is the modified one, and otherwise the plain one. |
| `Miner.BlockAssembler.UpdatePackagesForAdded` | src/miner.cpp:312-338 | Every descendant outside the added set has exactly the sizes and sigops of its added ancestors subtracted, and their fees: the modified fee of the ancestor that made the entry, the plain fees of the others. |
| `Miner.BlockAssembler.IncludePackage` | src/miner.cpp:485-501 | Includes a package that fits, ancestors first; the limits hold, and `mapModifiedTx` bounds what is missing again. |
| `Miner.BlockAssembler.TryPackage` | src/miner.cpp:449-501 | The verdict is exactly: it does not fit, or something missing is not allowed, or it is included. Inclusion appends exactly the missing ancestors and the transaction; otherwise the block stays and the entry is given up. |
| `Miner.BlockAssembler.PickPackage` | src/miner.cpp:398-442 | The candidate is never in the block (so the assert holds); what is known of it bounds what is missing; and it is better than every other transaction that is still open, by its fee rate for what is missing. |
| `Miner.BlockAssembler.Consider` | src/miner.cpp:382-501 | One round of the loop: the best open candidate is judged as the rules say, and the block grows by exactly what is missing for it or stays; unless the fee floor ends the loop it makes progress. |
| `Miner.BlockAssembler.AddPackageTxs` | src/miner.cpp:375-503 | Terminates for every mempool; the block has each transaction once and after all its ancestors, within the weight and sigop limits, and extends what was there. It is the outcome of rounds: each takes the best transaction that is not in the block and was not refused before, by the fee rate of what is missing; judges it by floor, room and rules; and includes exactly what is missing, or nothing. The rounds end exactly at the fee floor, after more than 1000 misfits in a row with the block nearly full, or when nothing is left; then everything outside the block was refused at a moment when it did not fit or was not allowed. A mempool that fits entirely is included entirely, unless what is missing for some transaction outside pays less than the floor for its size; if no fee was changed by hand, in its actual fees. |
| `Miner.AncestorCountSmaller` | src/miner.cpp:354-363 | An ancestor has a smaller ancestor count, so sorting by it is a topological order. |
| `Miner.SortedPackage` | src/miner.cpp:354-363 | In a sorted package the ancestors of each transaction come before it or are in the block, and nothing comes twice. |
| `Miner.AccountedKeeps` | src/miner.cpp:312-338 | Sizes and sigops in `mapModifiedTx` stay upper bounds on what is missing after a package is added. |
| `Miner.FreshPackage` | src/miner.cpp:405-437 | For a transaction without a modified entry, and that has not failed, the cached sums are upper bounds on what is missing. |
| `Miner.FailedKeeps` | src/miner.cpp:449-457 | Erasing a failed entry keeps the bounds for all others. |
| `Miner.AccountedFees` | src/miner.cpp:312-338 | The fees in `mapModifiedTx`, for entries that have not failed, are the cached ones without the modified fee of one included ancestor and the plain fees of the others. |
| `Miner.TooLittleIsCheap` | src/miner.cpp:443-447 | If no fee was changed by hand, a package that the loop stops at pays less, in the actual fees of what is missing, than the floor for its actual size. |
| `Miner.BlockAssembler.BestModified` | src/txmempool.h:307-345 | The entry of `mapModifiedTx` with the highest fee rate, the smaller hash among equal ones. |
| `Miner.BlockAssembler.Advance` | src/miner.cpp:443-501 | One round, with the count of consecutive failures: it stops exactly below the fee floor, or after more than 1000 misfits in a row while the block is within 4000 of the weight limit. |
| `Miner.BetterTransitive` | src/txmempool.h:307-345 | The order by fee rate, then hash, is transitive. |
| `Miner.BetterTotal` | src/txmempool.h:307-345 | Of two different transactions one is better. |
| `Miner.CandidateStep` | src/miner.cpp:398-442 | The better one of the next entry by ancestor score and the best modified entry is better than everything that is still open, including entries whose cached score is out of date. |
| `Miner.RunEnds` | src/miner.cpp:375-503 | When nothing is left, every transaction outside the block was refused in some round, and did not fit or was not allowed then. |
| `Miner.RoomyRefuses` | src/miner.cpp:449-482 | In a mempool that fits entirely no candidate is ever refused. |
| `Miner.FeesOfMissing` | src/miner.cpp:312-338 | If no fee was changed by hand, these are exactly the fees of what is missing. |
| `RollingBloom.RollingBloomFilter.constructor` | src/bloom.cpp:216-241 | Starts empty; two generations are at least the number of elements asked for. |
| `RollingBloom.RollingBloomFilter.Insert` | src/bloom.cpp:256-285 | The bit-packed table after an insertion is the one of the exact model with the key appended to its log. |
| `RollingBloom.RollingBloomFilter.Contains` | src/bloom.cpp:293-305 | True exactly if every position of the key was last touched in the current or one of the two generations before; in particular for every key among the last 2 * nEntriesPerGeneration insertions. |
| `RollingBloom.RollingBloomFilter.Reset` | src/bloom.cpp:313-321 | Forgets everything and starts with a new tweak. |
| `RollingBloom.RollingBloomFilter.Wipe` | src/bloom.cpp:264-272 | The word-wide bit trick clears exactly the positions stamped with the given generation. |
| `RollingBloom.RollingBloomFilter.Turn` | src/bloom.cpp:258-274 | At the turn of a generation the table shows what the next generation must show, and the counters are right. |
| `RollingBloom.RollingBloomFilter.Mark` | src/bloom.cpp:276-284 | Afterwards the table shows the key as inserted in the current generation, and every other position as before. |
| `RollingBloom.ShownNext` | src/bloom.cpp:258-274 | Clearing the number about to be reused turns what one generation must show into what the next must show. |
| `RollingBloom.RecentGeneration` | src/bloom.cpp:258-274 | An insertion among the last two generations' worth is less than three generations back. |
| `RollingBloom.TouchedSince` | src/bloom.cpp:293-305 | The last touch of a position is no older than any insertion that touched it. |
| `CuckooCache.FlagIsShift` | src/cuckoocache.h:92-95 | The mask of flag k in its byte is 1 << k. |
| `CuckooCache.BitPackedFlags.BitSet` | src/cuckoocache.h:92-95 | Sets the flag in the packed bytes, and no other. |
| `CuckooCache.BitPackedFlags.BitUnset` | src/cuckoocache.h:103-106 | Clears the flag in the packed bytes, and no other. |
| `CuckooCache.Cache.constructor` | src/cuckoocache.h:340-353 | An empty table of at least two slots is valid. |
| `CuckooCache.Cache.NewEpoch` | src/cuckoocache.h:305-311 | Exactly the elements of the old epoch are released, those of the current one become the old one, and none is live. |
| `CuckooCache.Cache.EpochCheck` | src/cuckoocache.h:289-321 | The epoch changes exactly if the live elements reach the bound when the counter runs out; the counter is set as the code says, and afterwards the live elements plus the counter stay below the bound. |
| `CuckooCache.Cache.Insert` | src/cuckoocache.h:392-440 | Present: the table stays, and its slot is kept and marked current. Otherwise the table as a multiset becomes T + {e} - {x}. With a collectable slot among its eight, e goes into the first, x is what was there and nothing else moves. An element that was to be kept, or e itself, is lost only if every move up to the depth limit found all eight slots in use. Every slot holds an element that hashes to it, none twice; the live elements stay below the bound. |
| `CuckooCache.Cache.Displace` | src/cuckoocache.h:406-440 | The chain moves elements from slot to slot as the code chooses them until a collectable slot is found; the flags and epochs move with them; it gives up, dropping the one in hand, exactly after the depth limit. |
| `CuckooCache.Cache.Contains` | src/cuckoocache.h:467-477 | True exactly if the element is in the table, and then it was inserted before; erasing only releases its slot. |
| `CuckooCache.WriteKeeps` | src/cuckoocache.h:408-415 | A slot may be overwritten by any element that hashes to it. |
| `CuckooCache.KeptDropped` | src/cuckoocache.h:406-440 | If the dropped element is e or one that was to be kept, every hand before the depth limit had all its slots in use. |
| `CuckooCache.OpenTaken` | src/cuckoocache.h:406-415 | An element with a collectable slot takes the first one at once, whatever else the table holds. |
| `SkipHeights.InvertIsBitwise` | src/chain.cpp:98-98 | The 32-bit operation obeys the recursive equations by which the model clears the lowest one bit. |
| `SkipHeights.GetSkipHeight` | src/chain.cpp:101-109 | The skip height is below the height. |
| `SkipHeights.StepsBound` | src/chain.cpp:111-136 | From height w, any lower height is reached in at most (L * L + 16 L + 20) / 4 steps, where L is the binary logarithm of w. |
| `Chain.AncestorOfAncestor` | src/chain.cpp:111-136 | An ancestor of an ancestor is the ancestor: the walk along `pprev` can be cut anywhere. |
| `Chain.GetAncestor` | src/chain.cpp:111-136 | Equals the plain walk along `pprev` for every height, gives nothing for a height out of range, and takes at most (L * L + 16 L + 20) / 4 steps where the skip pointers are set. |
| `Chain.BlockTree.AddBlock` | src/chain.cpp:143-147 | A new block is linked to its parent, with the skip pointer to the ancestor at the skip height; the rest of the tree stays. |
| `Chain.BlockTree.BuildSkip` | src/chain.cpp:143-147 | Sets the skip pointer to the ancestor at the skip height and changes nothing else. |
| `Chain.LastCommonUnique` | src/chain.cpp:199-214 | There is only one last common ancestor. |
| `Chain.LastCommonAncestor` | src/chain.cpp:199-214 | Returns the highest block that is an ancestor of both, or nothing if there is none. |
| `Chain.ActiveChain.SetTip` | src/chain.cpp:39-49 | With its early stop it still leaves at every height the ancestor of the tip at that height. |
| `Chain.ActiveChain.ContainsIffAncestor` | src/chain.h:464-466 | A block is in the chain exactly if it is the ancestor of the tip at its height. |
| `Chain.ActiveChain.FindFork` | src/chain.cpp:79-88 | The fork with the chain is the last common ancestor with the tip. |
| `Chain.ActiveChain.GetLocator` | src/chain.cpp:51-77 | Ancestors of the block at strictly decreasing heights down to genesis, at most 12 plus the binary logarithm of the height. |
| `Chain.Run` | src/chain.cpp:39-147 | Any sequence of new blocks and new tips keeps the tree well formed, with all skip pointers set, and the chain the list of ancestors of its tip. |
| `NetFraming.CommandRoundTrip` | src/protocol.cpp:87-99 | A command reads back from the padded field if and only if it has at most twelve bytes and no zero byte. |
| `NetFraming.ParseOn` | src/net.cpp:742-792 | Parsing bytes in two parts gives the same as parsing them at once. |
| `NetFraming.ParseStream` | src/net.cpp:742-792 | Every prefix of the stream of sendable messages parses to a prefix of those messages, and the whole stream to all of them. |
| `NetFraming.ReadHeader` | src/net.cpp:821-850 | Takes in bytes up to a full header, and refuses only a size above the limit. |
| `NetFraming.ReadData` | src/net.cpp:852-867 | Takes in bytes up to the announced size. |
| `NetFraming.Receiver.TakeIn` | src/net.cpp:751-774 | One step takes in at least one byte and completes at most one message. |
| `NetFraming.Receiver.ReceiveMsgBytes` | src/net.cpp:742-792 | For every fragmentation, the messages held are what the bytes received so far parse to; it fails exactly when they do not parse; `complete` tells whether a message was completed. |
| `NetFraming.OversizedIsBad` | src/net.cpp:842-844 | A header that announces too much never becomes a message, whatever follows. |
| `NetFraming.Sender.SendOnce` | src/net.cpp:892-927 | One send moves exactly as many bytes as the socket takes from the queue to the wire, in order; a whole entry leaves the queue. |
| `NetFraming.Sender.Advance` | src/net.cpp:901-914 | After a partial or whole send the queue, the offset, the sizes and the pause flag are right again. |
| `NetFraming.Sender.SocketSendData` | src/net.cpp:886-936 | For any answers of the socket: exactly the bytes they take are sent, entry by entry up to the first that is not taken whole, and none without a connection. The wire followed by the queue is the stream of all messages pushed. |
| `NetFraming.Sender.Enqueue` | src/net.cpp:2819-2844 | Header and data, if any, are queued as separate entries; `nSendSize` is the total queued size and `fPauseSend` holds exactly if it exceeds the limit. |
| `NetFraming.Sender.PushMessage` | src/net.cpp:2817-2852 | Every message pushed is appended to the stream exactly once; it is sent at once exactly if the queue was empty and there is a connection, as far as the socket takes it. |
| `NetFraming.Delivered` | src/net.cpp:742-936 | At any time, for every split of the bytes on both sides, the completed messages at the receiver are a prefix of the messages pushed, byte for byte; when everything is sent and received they are all of them. |
| `NetFraming.DeliveredCommands` | src/net.cpp:742-936 | The receiver reads back the command of each delivered message from its header, where the command fits the field. |
| `CompactBlocks.EncodeIndexes` | src/blockencodings.h:63-66 | Increasing indexes are written as differences, none of them negative. |
| `CompactBlocks.DecodeIndexes` | src/blockencodings.h:42-61 | The loop computes the running sums with the sixteen-bit offset, and fails exactly when one does not fit. |
| `CompactBlocks.IndexRoundTrip` | src/blockencodings.h:37-69 | Increasing indexes come back from their differences. |
| `CompactBlocks.DecodedSum` | src/blockencodings.h:54-61 | Up to the first wrap, the k-th decoded index is the sum of the first k + 1 differences plus k. |
| `CompactBlocks.DecodedIncreases` | src/blockencodings.h:54-61 | What is decoded is increasing if and only if no sum of received differences (with their positions) before the last reaches 65535. |
| `CompactBlocks.DecodedWraps` | src/blockencodings.h:54-61 | The offset wraps around: the differences 65535, 5 decode to the indexes 65535, 5, which do not increase. |
| `CompactBlocks.Prefill` | src/blockencodings.cpp:58-74 | Accepts exactly the positions that are in range and not beyond what the short ids can fill; the slots then hold exactly those transactions, and as many slots are empty as there are short ids. |
| `CompactBlocks.MapShortIds` | src/blockencodings.cpp:80-98 | For every acceptable message the scan stays in bounds; it ends for all short ids if and only if there are none or fewer than 65536 transactions are prefilled, and then maps each short id to the (sixteen-bit) position of the empty slot with its number. Otherwise the very first scan never ends. |
| `CompactBlocks.PositionsFit` | src/blockencodings.cpp:80-98 | All positions of empty slots survive the sixteen bits if and only if there are at most 65536 transactions, although up to 100000 are accepted. |
| `CompactBlocks.LastPositionWraps` | src/blockencodings.cpp:80-132 | With 65537 transactions and different short ids the last short id is recorded at position 0, and its transaction, found in the mempool, overwrites the coinbase there. |
| `CompactBlocks.LocatedLeads` | src/blockencodings.cpp:80-103 | For a described block of at most 65536 transactions each short id leads to its own transaction's position. |
| `CompactBlocks.CreateCompact` | src/blockencodings.cpp:18-28 | The message describes the block: the first transaction prefilled, short ids for the others in order. |
| `CompactBlocks.PartiallyDownloadedBlock.MatchPool` | src/blockencodings.cpp:104-132 | The slots, the places already used and the count are those of going through the mempool, where the second match for a place empties it; stopping early makes no difference. |
| `CompactBlocks.PartiallyDownloadedBlock.MatchExtra` | src/blockencodings.cpp:134-163 | The same for the extra transactions, where only a different transaction empties a place; both counts grow alike. |
| `CompactBlocks.PartiallyDownloadedBlock.InitData` | src/blockencodings.cpp:48-168 | Invalid exactly for a null header, no transactions, too many, or bad positions. Otherwise it never returns exactly if 65536 transactions are prefilled and there is a short id; it fails exactly if a bucket is too large or two short ids are equal; and else the slots are exactly what the search through mempool and extra transactions leaves. For a described block without collisions every filled slot agrees with the block, and a slot is filled exactly if it was prefilled or its transaction is in the mempool or among the extra ones. |
| `CompactBlocks.PartiallyDownloadedBlock.MissingIndexes` | src/net_processing.cpp:2525-2528 | The positions asked for are those of the empty slots, in order, cut down to sixteen bits; up to 65536 transactions they are exactly the empty slots and increase. |
| `CompactBlocks.PartiallyDownloadedBlock.FillBlock` | src/blockencodings.cpp:176-218 | Invalid exactly if the number of transactions given is not the number missing; otherwise every slot keeps its transaction or gets the next one given, in order, and the answer is that of the block check. With the missing ones of a block in order it gives exactly that block. |
| `CompactBlocks.AnswerIsMissing` | src/net_processing.cpp:1306-1313 | Answering a request by position gives the missing transactions in order. |
| `CompactBlocks.Relay` | src/blockencodings.cpp:18-218 | Sender and receiver together: the receiver gives up exactly if a bucket is too large or two short ids of the block are equal, and otherwise asks, in order, for exactly the transactions that it does not have, and ends with the sender's exact transaction list and the answer of the block check. |
| `CompactBlocks.ScansStop` | src/blockencodings.cpp:81-84 | For every acceptable message: every scan ends, at the empty slot with its number, if and only if there is no short id or at most 65535 transactions are prefilled. |
| `CompactBlocks.EndlessMessage` | src/blockencodings.cpp:81-84 | A message with 65536 prefilled transactions and one short id is not invalid, and every slot its scan looks at, for ever, is filled. |
| `CompactBlocks.FoundOfBlock` | src/blockencodings.cpp:104-163 | For a described block without collisions, the search fills exactly the slots of transactions that the receiver has. |
| `CompactBlocks.SearchedOfBlock` | src/blockencodings.cpp:104-163 | ... and never puts a wrong transaction into a slot, although it stops as soon as all are found. |
| `CompactBlocks.RequestedOnly` | src/net_processing.cpp:2525-2528 | What is then asked for are exactly the transactions the receiver does not have. |
| `Arith256.BaseUint.AddAssign` | src/arith_uint256.h:141-151 | Addition modulo 2^256; the 64-bit carry never overflows. |
| `Arith256.BaseUint.SubAssign` | src/arith_uint256.h:153-157 | Subtraction modulo 2^256. |
| `Arith256.BaseUint.Negated` | src/arith_uint256.h:83-90 | -x modulo 2^256. |
| `Arith256.BaseUint.Increment` | src/arith_uint256.h:179-186 | x + 1 modulo 2^256. |
| `Arith256.BaseUint.Decrement` | src/arith_uint256.h:196-203 | x - 1 modulo 2^256. |
| `Arith256.BaseUint.MulAssign32` | src/arith_uint256.cpp:58-67 | Multiplication by a limb modulo 2^256; the 64-bit product with carry never overflows. |
| `Arith256.BaseUint.MulAssign` | src/arith_uint256.cpp:70-83 | Schoolbook multiplication modulo 2^256; no 64-bit intermediate overflows. |
| `Arith256.BaseUint.ShiftLeftAssign` | src/arith_uint256.cpp:24-38 | x * 2^n modulo 2^256 for every n. |
| `Arith256.BaseUint.ShiftRightAssign` | src/arith_uint256.cpp:41-55 | x / 2^n for every n. |
| `Arith256.BaseUint.CompareTo` | src/arith_uint256.cpp:112-121 | The order of the values. |
| `Arith256.BaseUint.Bits` | src/arith_uint256.cpp:174-185 | The position of the highest one bit. |
| `Arith256.BaseUint.DivideOnce` | src/arith_uint256.cpp:99-106 | One step of the shift-and-subtract division keeps dividend = quotient * divisor + rest. |
| `Arith256.BaseUint.DivAssign` | src/arith_uint256.cpp:86-109 | Fails exactly for a zero divisor; otherwise the exact quotient. |
| `Arith256.OrDisjoint` | src/arith_uint256.cpp:24-38 | Or-ing numbers without common bits adds them. |
| `ProofOfWork.SetCompact` | src/arith_uint256.cpp:206-224 | The value of a compact number modulo 2^256, exactly when it is negative, and overflow exactly if the number it stands for is 2^256 or more. |
| `ProofOfWork.GetCompact` | src/arith_uint256.cpp:226-247 | The compact form of every number. |
| `ProofOfWork.DecodeCompact` | src/arith_uint256.cpp:206-247 | Encoding and decoding rounds down to the bits kept, with neither flag set. |
| `ProofOfWork.CompactRoundTrip` | src/arith_uint256.cpp:206-247 | Decoding the encoding gives at most the number, with a relative loss below 2^-15, and zero only for zero. |
| `ProofOfWork.CompactIdempotent` | src/arith_uint256.cpp:206-247 | Encoding again changes nothing. |
| `ProofOfWork.SplitQuotient` | src/pow.cpp:49-75 | The split of 2Tb/a into two quotients is exact. |
| `ProofOfWork.Change` | src/pow.cpp:81-91 | The split computation gives 2Tb/a modulo 2^256, for every target and every 32-bit difference. |
| `ProofOfWork.MovedUp` | src/pow.cpp:88-89 | T + floor(2Tb/a) is floor(T(a+2b)/a). |
| `ProofOfWork.MovedDown` | src/pow.cpp:90-91 | T - floor(2Tc/a) is ceil(T(a-2c)/a). |
| `ProofOfWork.Retarget` | src/pow.cpp:81-91 | The target computed, for every input, with both wraparounds. |
| `ProofOfWork.ComputedTame` | src/pow.cpp:81-91 | Where nothing leaves 256 bits and the difference fits 32, what is computed is T(a+2b)/a, rounded down when it grows and up when it shrinks. |
| `ProofOfWork.ComputedZero` | src/pow.cpp:81-91 | For shrinking targets the result is zero exactly when the wrapped change equals the target. |
| `ProofOfWork.MovedPositive` | src/pow.cpp:81-91 | The exact new target is positive if and only if the old one was and a + 2b is. |
| `ProofOfWork.LimitedInRange` | src/pow.cpp:93-96 | The limited, rounded target passes the range check if and only if what was computed is not zero. |
| `ProofOfWork.GetLastBlockIndex` | src/pow.cpp:13-22 | The last block of the algorithm at or before the given one. |
| `ProofOfWork.GetNextWorkRequired` | src/pow.cpp:24-97 | For every chain: the limited, rounded target computed from the last two blocks of the algorithm, or powLimit without them. It passes the range check if and only if what was computed is not zero; where the change does not wrap, if and only if the old target was not zero and not (b < 0, a <= -2b and T(-2b-a) < a); where nothing wraps, if and only if it was not zero and a + 2b > 0. |
| `ProofOfWork.NextTargetZero` | src/pow.cpp:24-97 | A chain of twelve blocks, each later than the median of the eleven before it, on which the next target is out of range whatever the bits: with a = 2017 * 120, the last block is 120900 seconds older than its predecessor. |
| `ProofOfWork.CompactInRange` | src/pow.cpp:99-112 | A positive target at most powLimit passes the range check after encoding. |
| `ProofOfWork.CheckProofOfWork` | src/pow.cpp:99-117 | True exactly if the target is in range and the hash does not exceed it. |
| `ProofOfWork.WorkIs` | src/chain.cpp:157-161 | ~T/(T+1) + 1 is 2^256/(T+1). |
| `ProofOfWork.GetBlockProof` | src/chain.cpp:149-178 | floor(2^256/(T+1)), shifted by 12 bits modulo 2^256 for scrypt; zero for an invalid target. |
| `ProofOfWork.OverflowExact` | src/arith_uint256.cpp:206-224 | The three size comparisons of the source say exactly that the number does not fit 256 bits; otherwise nothing is cut off. |
| `ProofOfWork.ZeroShrunk` | src/pow.cpp:81-91 | Where the change does not wrap around, a shrinking target becomes zero if and only if it was, or a <= -2b and T(-2b-a) < a. |
| `ProofOfWork.ZeroGrown` | src/pow.cpp:81-91 | Where nothing wraps around, a target that grows or stays becomes zero if and only if it was. |
| `ProofOfWork.LateChainTimely` | src/chain.h:298-310 | Every block of that chain is later than the median of the up to eleven blocks before it. |
| `Bech32.PolyMod` | src/bech32.cpp:37-94 | The packed 32-bit loop computes the remainder of the polynomial over GF(32), by its six coefficients. |
| `Bech32.StepPacked` | src/bech32.cpp:80-92 | One step of the packed form, with its five constants, is one step on the coefficients. |
| `Bech32.AddedValues` | src/bech32.cpp:34-36 | Up to six values added to a list are added to its remainder, each in its place. |
| `Bech32.PolyModInjective` | src/bech32.cpp:37-94 | Different remainders stay different whatever values follow. |
| `Bech32.BurstDetected` | src/bech32.cpp:37-94 | Two lists of any length that differ, but only within six consecutive positions, have different remainders. |
| `Bech32.ChecksumUnique` | src/bech32.cpp:128-139 | A list of six values completes the data to one that verifies if and only if it is the checksum computed. |
| `Bech32.CreateChecksum` | src/bech32.cpp:128-139 | Computes the only six values that complete the data to one that verifies. |
| `Bech32.BurstsAreCaught` | src/bech32.cpp:118-125 | For one prefix and any length, two different value lists whose differences fit in six consecutive positions do not both verify. |
| `Bech32.CharsetRevTwice` | src/bech32.cpp:12-25 | Every character of the table comes back, in lower case; case does not matter for the value. |
| `Bech32.Decode` | src/bech32.cpp:159-190 | Returns a prefix and data exactly if the string, of one case, printable and at most 90 long, is in lower case the encoding of that prefix and data; there is only one such pair. |
| `Bech32.RoundTrip` | src/bech32.cpp:147-190 | A prefix and data come back if and only if the prefix is not empty, printable and without upper-case letters, and the whole is at most 90 long. |
| `Base58.EncodeFits` | src/base58.cpp:93-93 | 256^n <= 58^(n*138/100 + 1) for every n: the buffer of the encoder is large enough. |
| `Base58.DecodeFits` | src/base58.cpp:47-47 | 58^n <= 256^(n*733/1000 + 1) for every n: the buffer of the decoder is large enough. |
| `Base58.Absorb` | src/base58.cpp:95-109 | The carry loop, which touches only the digits in use, multiplies the number in the buffer and adds a digit; no carry is left, so the assert holds. |
| `Base58.DigitsUnique` | src/base58.cpp:34-121 | Digits are determined by their value and the number of leading zeros. |
| `Base58.EncodeBase58` | src/base58.cpp:83-121 | The characters are digits that stand for the bytes: same value, same number of leading zeros. |
| `Base58.DecodeBase58` | src/base58.cpp:34-81 | Succeeds exactly if there are only base-58 characters between surrounding spaces, and gives the bytes they stand for. |
| `Base58.DecodeBase58String` | src/base58.cpp:128-131 | A string is read up to its first NUL. |
| `Base58.DecodeEncoded` | src/base58.cpp:34-121 | Decoding an encoding gives the bytes back, for every input. |
| `Base58.EncodeDecoded` | src/base58.cpp:34-121 | Encoding what was decoded gives the characters between the spaces back. |
| `Base58.DecodeBase58Check` | src/base58.cpp:142-157 | Succeeds exactly for what the encoder writes for some bytes, with spaces around, and returns those bytes. |
| `Base58.DecodeEncodedCheck` | src/base58.cpp:133-157 | Decoding an encoding with checksum gives the bytes back. |
| `AuxPow.ExpectedIndex` | src/auxpow.cpp:155-178 | The slot is inside the tree. |
| `AuxPow.SlotUnbounded` | src/auxpow.cpp:155-178 | For heights up to 30 the wrapped 32-bit computation gives the slot of unbounded arithmetic. |
| `AuxPow.CheckMerkleBranch` | src/auxpow.cpp:181-196 | Folds the branch by the bits of the index; null for index -1. |
| `AuxPow.FoldedInjective` | src/auxpow.cpp:181-196 | For any hash: two folds of one length and index with one root come from one leaf and one branch, or two different pairs hashed at the same level collide, and the level is given. |
| `AuxPow.Check` | src/auxpow.cpp:76-152 | Accepts exactly the proofs whose branches, commitment, header, size and slot are right. |
| `AuxPow.OneCommitment` | src/auxpow.cpp:76-152 | Two accepted proofs for one chain with one coinbase script that contains the header have the same slot and height, and commit to the same block, or two pairs they hash collide at the level given. |
| `AuxPow.InitAccepted` | src/auxpow.cpp:200-235 | The minimal proof is accepted if and only if the chain ID is not the parent's under strict rules, the script does not happen to contain the header, and the hash is not 32 times the push opcode. |
| `AuxPow.PushHashRejected` | src/auxpow.cpp:200-235 | The minimal proof for the hash of 32 bytes 40 is rejected, whatever the rules. |
| `AuxPow.HeaderHashRejected` | src/auxpow.cpp:200-235 | The minimal proof for every hash that ends in the reversed merged-mining header is rejected. |
| `AuxPow.Commitments` | src/auxpow.cpp:76-152 | Any two accepted proofs for one chain with one coinbase: with the header both commitments are in one place. Without it both start in the first 20 bytes, so that the two roots agree in the twelve or more bytes where they overlap. In one place they commit to one block, or two pairs collide. |
| `AuxPow.TwoCommitments` | src/auxpow.cpp:76-152 | One proof whose coinbase has no header and that is accepted for two different blocks, at places 0 and 4. |
| `AuxPow.FoldedFromBranch` | src/auxpow.cpp:181-196 | The fold of the branch check is the one of the Merkle code, which takes the bits of the index from below. |
| `AuxPow.BranchAccepted` | src/auxpow.cpp:37-41 | The branch that the Merkle code computes for a transaction leads the branch check to the Merkle root, for every block and position. |

## Findings

Properties that the documentation or the purpose of the code suggests and that the code does not have for all
inputs. Each has a lemma with an input on which it fails, and the exact condition under which it holds.

- The comment on the serialised partial Merkle tree (src/merkleblock.h:48) bounds the flag bits by 2 * N - 1 for N
  hashes. `PartialMerkle.FlagBitBoundFails` has four bits for two hashes; `PartialMerkle.FlagBitBound` proves that
  the bound holds if and only if no node above a match has a single child.
- The one-pass Merkle computation is documented for up to 2^32 leaves (src/consensus/merkle.cpp:45). Its 32-bit
  counter stays right up to 2^31 leaves (`Merkle.CounterFits`), and wraps to zero for every larger list below 2^32
  (`Merkle.CounterWraps`).
- The `mutated` flag is meant to detect every known change of the transactions that keeps the root
  (src/consensus/merkle.cpp:38-42). `Merkle.HeightsMatter` has two lists of different heights with one root and no
  report; among lists of one height every such change is reported, unless two pairs collide
  (`Merkle.ChangesDetected`).
- Adding a coin without announcing that it replaces a visible one (src/coins.cpp:84-91) marks it FRESH wrongly:
  `Coins.UnmarkedOverwriteLosesASpend` spends the new coin and sees the old one again. The flags stay truthful if and
  only if the overwrite is announced or no coin was visible (`Coins.CoinsStack.AddCoin`).
- The offset in the index decoder of compact block requests is sixteen bits wide (src/blockencodings.h:54-61), so
  after index 65535 it starts again at 0: `CompactBlocks.DecodedWraps`. Decoded indexes increase if and only if no
  sum of the received differences before the last reaches 65535: `CompactBlocks.DecodedIncreases`.
- The scan for a free slot has a sixteen-bit offset too (src/blockencodings.cpp:81-84), so that with all 65536
  positions prefilled it never ends: `CompactBlocks.EndlessMessage`. For acceptable messages every scan ends, at the
  right slot, if and only if there is no short id or at most 65535 transactions are prefilled:
  `CompactBlocks.ScansStop`.
- Positions of short ids are stored in sixteen bits (src/blockencodings.cpp:80), but up to 100000 transactions are
  accepted: in `CompactBlocks.LastPositionWraps` the last transaction overwrites the coinbase. Every position fits if
  and only if there are at most 65536 transactions: `CompactBlocks.PositionsFit`.
- The retarget rule (src/pow.cpp:81-96) can compute target zero, whose compact form the proof-of-work check rejects:
  `ProofOfWork.NextTargetZero` is such a chain, with a block 120900 seconds older than its predecessor but later than
  the median of the eleven before it. The result is in range if and only if what is computed is not zero. Where the
  change does not wrap around, it is zero if and only if the old target T was, or b < 0, a <= -2b and T(-2b-a) < a
  (`ProofOfWork.ZeroGrown`, `ProofOfWork.ZeroShrunk`); where nothing wraps around, if and only if T was zero or a +
  2b <= 0 (`ProofOfWork.GetNextWorkRequired`). `ProofOfWork.ComputedZero` covers all other shrinking targets.
- A coinbase without the merged-mining header may commit to more than one chain root, although the root must start
  early (src/auxpow.cpp:122-129): `AuxPow.TwoCommitments` is one proof accepted for two blocks. Two commitments are
  in one place if there is a header, and otherwise share at least twelve bytes of their roots (`AuxPow.Commitments`).
- The minimal merged-mining proof (src/auxpow.cpp:200-235) is not accepted for every block: `AuxPow.PushHashRejected`
  and `AuxPow.HeaderHashRejected` are rejected hashes, and `AuxPow.InitAccepted` proves exactly when it is accepted.

- Loading a saved address manager ends with a self-check in debug builds (src/addrman.h:468), but not every accepted
  record gives tables that agree: in `AddrDisk.RepeatSpoils` an address repeats among the new entries. They agree if
  and only if no entry that found a place shares its address with another one (`AddrDisk.MadeConsistent`,
  `AddrDisk.Unserialize`), for instance whenever no address repeats in the record (`AddrDisk.CleanRecord`).

Smaller observations, each of which follows from a contract or an invariant:

- `SpendCoin` also returns true for an entry of the top cache that is spent already.
- The branch of `FetchCoin` that marks a pruned entry FRESH is never taken: a base never returns a spent coin.
- Flushing the lowest cache with entries but without a best block runs into the assert of the database.
- When `AddCoin` throws, the memory usage has already been reduced by the old coin.
- The exit of `Good_` for an id without a bucket, and the branch of `ResolveCollisions_` for a known id whose tried
  slot has become free, are never taken.
- The limit on message sizes and the limit on serialised sizes are equal, so the second size check of
  `ReceiveMsgBytes` never decides anything.
- A comment in the cuckoo cache speaks of the first location where the code starts from the second.
- The bound proved for the walk along skip pointers is quadratic in the logarithm of the height. For 2^18 blocks it
  is 158, above the 110 steps of which the comment speaks (src/chain.cpp:106); whether a smaller bound holds is not
  shown.

## Left out

- `Coins`: names, the game state and their caches, the batching of database writes by size, and cursors. The base
  pointer of a cache is its place in a stack; the database is a map. Memory usage is any function of the coin that is
  zero for a spent one.
- MerkleComputation: lists of more than 2^31 leaves, for which the counter wraps; what is then computed is not stated.
  The branch position is a natural number, with any value beyond the list for none.
- `PartialMerkle`: tree sizes above 2^31, where the 32-bit widths would wrap. Hashes are natural numbers with 0 for
  the null hash.
- `AddrMan`: the choice of an address to connect to (`Select_`), `Connected_` and `SetServices_`; random draws and the
  time are parameters. Buckets and positions are any functions of the address with values in range.
- `AddrDisk`: the byte encoding itself, and streams that are too short or hold a negative bucket count. Loading
  starts from a fresh manager, because clearing one does not clear the set of pending collisions.
- `Miner`: the rounding of the comparison of fee rates, whose products are doubles in the source and exact here; the
  coinbase, the game-step check, and the details of finality and witness tests, which are a set of allowed
  transactions. The order of the mempool's index by ancestor score is taken as given.
- `RollingBloom`: the floating-point formulas for the table size and the number of hash functions, which are
  parameters; the table has an even and positive number of words, as the formula gives.
- `CuckooCache`: concurrent erasure through the atomic flags, and sizing by bytes. The default element, which marks
  empty slots, is not inserted.
- `Chain`: pointers are numbers; chain work, validity flags and `FindEarliestAtLeast` are not modelled.
- `NetFraming`: sockets, whose answers are parameters, time, logging and the checksum of a message, which is any
  function of its data.
- `CompactBlocks`: the hash table's bucket sizes and the block check are parameters. The counts that are kept
  for the log are not stated.
- `ProofOfWork`: consensus parameters with (nInterval + 1) * spacing outside 32 bits.
- `Bech32`, `Base58`: strings longer than an `int` can count. White space is that of the C locale.
- `AuxPow`: the serialisation of a proof; a coinbase is taken to have an input, whose script is what is modelled.
- The rest of the repository: script execution, validation of blocks and transactions, the game rules, wallets, the
  RPC interface and storage.

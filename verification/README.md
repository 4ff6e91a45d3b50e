# Formal model of the Actinium node's core

Actinium is a full node for a Bitcoin-derived currency. This project models its stateful core in Dafny and proves what
that core promises. Nothing here is executed; the statements are about the model, and the model follows the code
branch by branch.

| component | modules |
|---|---|
| Coin caches: any stack of caches over the database shows one flat map of unspent coins; writes that are cut off | CoinsStack, CoinsDatabase, CoinsCache |
| Address manager: two hashed bucket tables, records and a random order, over all runs; its file format | AddrTable, AddrTableLemmas, AddrMoves, AddrOps, AddrRuns, AddrClear, AddrMan, AddrCheck, AddrSerialize, AddrLoad, AddrStream |
| Script check queue: one master and any number of workers, every interleaving | CheckQueue |
| Partial Merkle trees: soundness against any encoding, and the round trip down to bytes | MerkleTree, MerkleRoundTrip, MerkleSize, MerkleBlock |
| Block assembly: package selection from the mempool | Mempool, Packages, BlockAssembler |
| Message framing: send queue, byte stream, incremental receiver | Framing, PeerBuffers, Connection |
| Signature cache: cuckoo table with epochs | CuckooCache |
| Rolling Bloom filter | RollingBloom |
| Block index and active chain: skip list, forks, locators | Chain |
| Base58 and Bech32 | Positional, Base58, Bech32Checksum, Bech32Errors, Bech32 |
| Compact blocks (BIP 152, "HeaderAndShortIDs" and "BlockTransactionsRequest") | IndexLists, CompactBlocks |
| 256-bit arithmetic on limbs, compact targets, difficulty rules | Limbs, LimbShifts, LimbDivision, CompactTarget, Retarget, MovingAverage, NextWork |
| Shared: a value that may be missing, small arithmetic, powers, limits | Wrappers, Arithmetic, Powers, Consensus |

Code that works in place is modelled by classes, arrays and loops. Each such method is proved against a function on
values, and the properties are proved about that function. Hash functions, clocks, random draws, socket results and
the mempool are parameters or free choices, so every statement holds for all of them; a hash is injective only where a
lemma says so. 32-bit and 64-bit wrap-around is written out where it can occur.

Where code and comments disagree, the model follows the code:

- The bounds of 2*N-1 flag bits and 10 + ceil(32.25*N) bytes (src/merkleblock.h:31-47) do not hold in general; the
  exact conditions are proved.
- The first displacement in the cuckoo table goes to the second location, not to the first as its comment says, and a
  later one can take out the element just put in (src/cuckoocache.h:417-430); the exact condition is proved.
- `SpendCoin` returns true also for an output that is only cached as spent (src/coins.cpp:98-112).
- `CAddrMan::Clear` leaves `m_tried_collisions` as it was (src/addrman.h:472-494), so the lookup of
  `SelectTriedCollision_` can read an empty cell and add a default record, which makes the tables inconsistent; a run
  that gets there and the exact condition are given.
- The moving-average difficulty rule is not held to the limit (src/pow.cpp:198-200): on the main network the limit
  holds, for all targets within it, exactly if the window took no longer than expected, and on the regression-test
  network the product wraps.
- The other two difficulty rules can lead from headers that pass the proof-of-work test to a target of zero, which does
  not pass (src/pow.cpp:100); the exact condition is proved.
- `Unserialize` accepts streams that leave the tables inconsistent (src/addrman.h:367-470); the exact condition is
  proved.
- `FillBlock` can be called again after it was given too few transactions (src/blockencodings.cpp:187-192).

`dafny verify dfyconfig.toml` checks the project.

## Model

| member | source | states |
|---|---|---|
| CoinsStack.GetRefines | src/coins.cpp:57-64 | reading through any stack of caches returns what the flat map of unspent coins holds, leaves every level's view unchanged and keeps the flag invariant |
| CoinsStack.FetchRefines | src/coins.cpp:40-55 | fetching changes no level's view; the entry is cached exactly if the view shows a coin or an entry was there, and it tells what the view shows |
| CoinsStack.AddRefines | src/coins.cpp:66-85 | throws exactly on an unclaimed overwrite of a cached unspent coin; otherwise the view gains the coin, and the invariant survives if and only if the no-overwrite claim hides no coin of the base view |
| CoinsStack.SpendCached | src/coins.cpp:104-111 | erasing or blanking a cached entry removes exactly that coin from the view and keeps the flag meanings |
| CoinsStack.SpendRefines | src/coins.cpp:98-112 | spending removes exactly one coin from the top view, moves out that coin, and reports success exactly if the coin was visible or an entry was cached |
| CoinsStack.SpendTwiceReportsSuccess | src/coins.cpp:98-112 | a second spend of the same output still reports success: the result does not mean that a coin was unspent |
| CoinsStack.MergeOneRefines | src/coins.cpp:150-198 | merging one child entry into the parent keeps the flag meanings against the grandparent and shows the child's coin |
| CoinsStack.MergeAt | src/coins.cpp:145-201 | pointwise form of the merge, independent of the order of iteration; the misapplied-FRESH error is never reached |
| CoinsStack.WriteBackRefines | src/coins.cpp:145-201 | BatchWrite makes the parent's view equal to the child's, never throws for a valid child, keeps DIRTY and FRESH meaningful against the grandparent, and leaves lower views alone |
| CoinsStack.FlushRefines | src/coins.cpp:203-208 | a flush keeps the top view, makes the next level show the same, and keeps the invariant |
| CoinsStack.UncacheRefines | src/coins.cpp:210-217 | dropping a clean entry changes no view and keeps the invariant |
| CoinsStack.StepRefines | src/coins.cpp:40-217 | every operation of the cache does to the top view what the flat map does |
| CoinsStack.RunRefines | src/coins.cpp:40-217 | after any run of operations on a stack of any depth the view is that of one flat map after the same run, and the flag invariant holds |
| CoinsStack.AddOutputsRefines | src/coins.cpp:87-96 | adding all outputs of a transaction equals adding them to the flat map one by one |
| CoinsCache.UsageWithout | src/coins.cpp:36-38 | the memory total loses exactly the share of a removed entry |
| CoinsCache.FlushApplies | src/coins.cpp:203-208 | while the flag invariant holds a flush never meets a misapplied FRESH flag |
| CoinsCache.MergeStep | src/coins.cpp:145-201 | handling one more child entry in place takes the merge of those done to the merge with that entry added |
| CoinsDatabase.CoinsViewDB.BatchWrite | src/txdb.cpp:83-130 | merges the dirty entries into the database in any order and any number of batches; wherever it is cut off, the disk is as before, finished, or names the transition with every coin old or new |
| CoinsDatabase.WriteAgain | src/txdb.cpp:91-99 | the same write over an interrupted one starts from the same block and leaves the coins of an uninterrupted write |
| CoinsCache.CoinsViewCache.GetBestBlock | src/coins.cpp:135-139 | the first block named on the way down to the database, kept at every level passed, with no change to the answer |
| CoinsCache.CoinsViewCache.FetchCoin | src/coins.cpp:40-55 | in place, refines the value-level fetch down the chain of caches and keeps the usage counters exact |
| CoinsCache.CoinsViewCache.GetCoin | src/coins.cpp:57-64 | in place, refines the value-level read |
| CoinsCache.CoinsViewCache.HaveCoin | src/coins.cpp:125-128 | true exactly if the flat map has the coin, with the caching side effect of a read |
| CoinsCache.CoinsViewCache.AddCoin | src/coins.cpp:66-85 | in place, refines the value-level addition; the usage counter stays exact unless it throws |
| CoinsCache.CoinsViewCache.SpendCoin | src/coins.cpp:98-112 | in place, refines the value-level spend; the usage counter loses the coin's share and nothing is added back |
| CoinsCache.CoinsViewCache.WriteEntry | src/coins.cpp:150-198 | one entry of BatchWrite: exact condition for the throw and exact new contents |
| CoinsCache.CoinsViewCache.BatchWrite | src/coins.cpp:145-201 | in any order of iteration, throws exactly if some FRESH flag is misapplied and otherwise leaves the merged map with exact usage and the child's block |
| CoinsCache.CoinsViewCache.Flush | src/coins.cpp:203-208 | in place, refines the value-level flush, never throws while the invariant holds, and passes the block on to the parent or the database |
| CoinsCache.CoinsViewCache.Uncache | src/coins.cpp:210-217 | in place, refines the value-level uncache with exact usage |
| CoinsCache.CoinsViewCache.AddCoins | src/coins.cpp:87-96 | in place, throws exactly when the value-level version does and otherwise refines it |
| AddrTableLemmas.CreateKeeps | src/addrman.cpp:81-91 | a new record keeps the address and random-order maps inverse and leaves exactly one record uncounted |
| AddrTableLemmas.SwapKeeps | src/addrman.cpp:93-111 | swapping two entries of the random order keeps it inverse to the recorded positions |
| AddrTableLemmas.DeleteKeeps | src/addrman.cpp:113-125 | deleting an unreferenced untried record keeps all links and counters; its assertions cannot fail |
| AddrTableLemmas.ClearNewKeeps | src/addrman.cpp:127-140 | clearing a cell keeps all links; the address there has a positive count and is deleted only at zero |
| AddrMoves.RemovedKeeps | src/addrman.cpp:142-154 | probing every bucket at the hashed position finds all references of an address, so its count reaches zero |
| AddrMoves.EvictedKeeps | src/addrman.cpp:160-168 | the evicted occupant becomes an untried record without references, with the counters off by one as expected |
| AddrMoves.ReturnedKeeps | src/addrman.cpp:170-181 | the evicted occupant gets exactly one new cell at its hashed position |
| AddrMoves.EnteredKeeps | src/addrman.cpp:183-187 | the promoted record takes its own tried cell and the links hold |
| AddrOps.MakeTriedKeeps | src/addrman.cpp:142-188 | the whole promotion keeps the invariant, empties no tried cell, changes no address, and no assertion on the way can fail |
| AddrOps.GoodFindsBucket | src/addrman.cpp:219-234 | a known untried address always has a cell, so the search for one succeeds |
| AddrOps.GoodKeeps | src/addrman.cpp:190-252 | Good_ keeps the invariant, only adds collisions and none without test-before-evict |
| AddrOps.GoodCollisions | src/addrman.cpp:236-251 | a noted collision is over an occupied tried cell and the set stays within its cap |
| AddrRuns.PlaceKeeps | src/addrman.cpp:303-323 | whether or not the cell is taken, every remaining untried record has a cell afterwards |
| AddrRuns.AddKeeps | src/addrman.cpp:254-325 | Add_ keeps the invariant, empties no tried cell and leaves the collisions alone, for every random draw |
| AddrRuns.ResolveKeeps | src/addrman.cpp:537-587 | resolving collisions in any order keeps the invariant, only removes collisions and keeps the rest meaningful |
| AddrRuns.SelectedIsTried | src/addrman.cpp:589-614 | the contested cell is occupied by a tried address other than the contender, so the lookup never uses an empty cell's -1 |
| AddrRuns.GatherCollects | src/addrman.cpp:474-493 | the loop collects the presentable addresses of a prefix of the order it leaves behind and stops short only at the limit |
| AddrRuns.SampleIsFair | src/addrman.cpp:474-493 | a sample stays within its limit, names no address twice and nothing terrible, and below the limit names every presentable address |
| AddrRuns.StepKeeps | src/addrman.cpp:81-614 | every operation keeps the invariant, the collision property and the tried cells |
| AddrRuns.RunKeeps | src/addrman.cpp:81-614 | after any run of operations the structural conditions of Check_ hold: inverse maps, exact reference counts between 1 and 8, cells at hashed positions, exact counters, meaningful collisions |
| AddrRuns.EmptyIsSound | src/addrman.h:472-494 | the empty manager satisfies the invariant that runs keep |
| AddrClear.ClearedRunSafe | src/addrman.h:472-494 | if no collision was pending at Clear, the lookup for a pending collision finds an occupied cell after every later run |
| AddrClear.StaleCollision | src/addrman.cpp:603-613 | any collision left over by Clear comes to name an address announced afterwards, and the tried cell that the lookup reads for it is empty |
| AddrClear.ClearSafeIff | src/addrman.cpp:603-613 | the lookup is safe after Clear, whatever is announced, if and only if no collision was pending |
| AddrClear.CollisionReached | src/addrman.cpp:190-246 | from empty tables, two addresses with one tried cell that succeed one after the other leave exactly the second pending |
| AddrClear.LookupKeepsIff | src/addrman.cpp:589-614 | the lookup leaves the tables consistent if and only if the cell it reads is occupied; otherwise it adds a default record |
| AddrClear.StaleCollisionReached | src/addrman.cpp:589-614 | that run, Clear and one announcement lead from empty tables to the lookup of an empty cell, after which the tables are not consistent |
| AddrMan.AddrMan.SwapRandom | src/addrman.cpp:93-111 | in place, refines the value-level swap |
| AddrMan.AddrMan.Delete | src/addrman.cpp:113-125 | in place, refines the value-level deletion |
| AddrMan.AddrMan.ClearNew | src/addrman.cpp:127-140 | in place on the bucket array, refines the value-level clearing |
| AddrMan.AddrMan.MakeTried | src/addrman.cpp:142-188 | in place on both bucket arrays, refines the value-level promotion |
| AddrMan.AddrMan.Good | src/addrman.cpp:190-252 | in place, refines the value-level Good_, from any starting bucket of the search |
| AddrMan.AddrMan.Create | src/addrman.cpp:81-91 | in place, refines the value-level creation |
| AddrMan.AddrMan.Add | src/addrman.cpp:254-325 | in place, refines the value-level Add_ including its result |
| AddrMan.AddrMan.Attempt | src/addrman.cpp:327-347 | in place, refines the value-level Attempt_ |
| AddrMan.AddrMan.GetAddr | src/addrman.cpp:474-493 | in place, shuffles the random order and collects as the value-level loop does |
| AddrMan.AddrMan.Connected | src/addrman.cpp:495-513 | in place, refines the value-level Connected_ |
| AddrMan.AddrMan.SetServices | src/addrman.cpp:515-531 | in place, refines the value-level SetServices_ |
| AddrMan.AddrMan.ResolveCollisions | src/addrman.cpp:537-587 | in place, resolves every pending collision once, in some order |
| AddrMan.AddrMan.SelectTriedCollision | src/addrman.cpp:589-614 | in place, reports the occupant of the contested cell, or creates and reports a default record for an empty one |
| AddrCheck.OrderIsInverse | src/addrman.cpp:402-429 | positions tested from the records' side, with the right count, make the random order a permutation of the records |
| AddrCheck.RandomSize | src/addrman.cpp:402-403 | the random order has exactly as many entries as there are tried and new addresses |
| AddrCheck.CheckTried | src/addrman.cpp:436-449 | the scan ends without error and with nothing left over exactly if tried addresses and tried cells correspond one to one |
| AddrCheck.CheckNew | src/addrman.cpp:451-462 | the scan ends without error and with nothing left over exactly if every new cell is at its hashed position and every reference count is the number of cells |
| AddrCheck.AcceptedIff | src/addrman.cpp:397-471 | the stages of the check together say exactly: order, cells, reference counts, counters and times are right and every record is found in the address index |
| AddrCheck.Check | src/addrman.cpp:397-471 | Check_ returns 0 exactly on the accepted states, among them all consistent ones; surplus index entries and the record counter are what it cannot see |
| AddrSerialize.RoundTrip | src/addrman.h:316-470 | reading back a written state restores key, counters, every record and every cell up to renumbering, loses nothing to taken cells or to pruning, keeps the reader's pending collisions, and is consistent again |
| AddrSerialize.RestoredSound | src/addrman.h:366-452 | a state restored up to renumbering satisfies the invariant |
| AddrLoad.PruneRemoves | src/addrman.h:454-464 | the last loop of Unserialize removes exactly the untried records without a cell |
| AddrLoad.LoadSoundIff | src/addrman.h:367-470 | after any accepted stream the tables are consistent if and only if the counts are not negative and no record that stays shares its address with another record that was read |
| AddrLoad.LoadSound | src/addrman.h:367-470 | so streams of different addresses with counts that are not negative give consistent tables, whatever their bucket table says |
| AddrLoad.RepeatedAddress | src/addrman.h:367-470 | a stream of two untried records of one address is accepted and leaves the tables inconsistent |
| AddrStream.WriteStream | src/addrman.h:316-364 | the writing loops produce exactly the stream of the round trip, for the order in which they met the records |
| AddrStream.PruneRecords | src/addrman.h:454-464 | in place, visits the records in order of id and equals the value-level pruning |
| AddrStream.ReadStream | src/addrman.h:367-470 | the reading loops, on any stream including negative counts, build exactly the state that the value-level reader describes or fail when it does |
| CheckQueue.StepKeeps | src/checkqueue.h:66-158 | every step of every thread keeps the conservation, verdict, wake-up and head-count invariants |
| CheckQueue.EnterSafe | src/checkqueue.h:77-82 | whoever acknowledges the last check wakes a waiting master |
| CheckQueue.ReturnKeeps | src/checkqueue.h:88-97 | when the master returns, its answer is true exactly if no added check fails, and the queue is reset |
| CheckQueue.BatchLength | src/checkqueue.h:102-107 | a batch has at least one check and never more than are queued |
| CheckQueue.TakeBack | src/checkqueue.h:108-114 | the batch and the rest of the queue together are the queue |
| CheckQueue.RunSafe | src/checkqueue.h:66-158 | the invariant holds after every interleaving of one master and any number of workers |
| CheckQueue.Promises | src/checkqueue.h:66-158 | after every interleaving each check is in one place, nTodo counts the outstanding ones, and every completed Wait answered whether all checks added for it hold |
| CheckQueue.NeverStuck | src/checkqueue.h:85-101 | while the master waits some thread can move: no wake-up is lost |
| CheckQueue.ProgressLighter | src/checkqueue.h:66-124 | every step of progress decreases a measure |
| CheckQueue.OtherStep | src/checkqueue.h:66-124 | a spurious wake-up does not increase the measure, and a worker that starts increases it by two |
| CheckQueue.WaitBounded | src/checkqueue.h:66-143 | whatever the schedule, with any spurious wake-ups and starting workers, at most the measure plus two per start steps of progress are taken before Wait returns |
| MerkleTree.TreeHeight | src/merkleblock.cpp:121-124 | counting up heights ends at a level of width one |
| MerkleTree.NodesDiffer | src/merkleblock.cpp:101-108 | with distinct leaves two nodes of a level never have the same hash, so the duplicate check never rejects an honest tree |
| MerkleTree.TraverseSound | src/merkleblock.cpp:78-114 | whatever bits and hashes are fed, a traversal that ends with the true hash of its node has found only true transactions at true positions |
| MerkleTree.ExtractSound | src/merkleblock.cpp:132-163 | if extraction from an arbitrary encoding yields the Merkle root of a list, every reported id is the list's at the reported index and the indexes increase |
| MerkleRoundTrip.TraverseBuilt | src/merkleblock.cpp:60-114 | extraction from a built encoding consumes exactly that encoding and yields the true hash and exactly the matches |
| MerkleRoundTrip.HashBounds | src/merkleblock.h:36-40 | at most one hash per transaction is stored, and at most one per level and match plus one |
| MerkleRoundTrip.BitsExact | src/merkleblock.h:41-47 | the number of flag bits is twice the hashes less one plus the visited one-child nodes |
| MerkleRoundTrip.BitLimitIff | src/merkleblock.h:41-47 | the documented limit of 2*N-1 bits holds if and only if no match lies below a one-child node |
| MerkleRoundTrip.BitLimitExceeded | src/merkleblock.h:41-47 | three transactions with the last one matched exceed that limit |
| MerkleSize.SizeGuaranteeIff | src/merkleblock.h:31-50 | within the limit on transactions, the documented bound on the serialized size holds if and only if there are fewer than 253 flag bytes or at most a quarter as many as hashes, rounded up |
| MerkleSize.SizeGuaranteed | src/merkleblock.h:31-50 | the bound holds whenever no match lies below a one-child node |
| MerkleSize.SizeExceeded | src/merkleblock.h:31-50 | 1012 transactions that are all matched take one byte more than the bound |
| MerkleBlock.Pack | src/merkleblock.h:99-104 | bit p of the packed bytes is flag p, and padding is zero |
| MerkleBlock.Unpack | src/merkleblock.h:92-98 | flag p of the unpacked bits is bit p of the bytes |
| MerkleBlock.ExtractBuilt | src/merkleblock.cpp:116-163 | extraction from the padded encoding of a block returns the true root and exactly the matched ids with their indexes, and the hash bounds hold |
| MerkleBlock.PartialMerkleTree.TraverseAndBuild | src/merkleblock.cpp:60-76 | in place, appends exactly the bits and hashes of the recursive definition |
| MerkleBlock.PartialMerkleTree.TraverseAndExtract | src/merkleblock.cpp:78-114 | in place, advances both cursors and sets the bad flag as the recursive definition says |
| MerkleBlock.PartialMerkleTree.ExtractMatches | src/merkleblock.cpp:132-163 | in place, refines the value-level extraction with all its rejections |
| MerkleBlock.SendAndExtract | src/merkleblock.cpp:116-163 | build, pack to bytes, unpack and extract returns the true root and exactly the matched transactions |
| Mempool.AncestorCounts | src/miner.h:80-87 | an ancestor has a smaller ancestor count than its descendant |
| Mempool.WeightBound | src/miner.cpp:203-204 | four times the total size bounds the total weight |
| Packages.UpdateStep | src/miner.cpp:255-267 | subtracting one more included ancestor gives the closed form, whether the entry is new or modified |
| Packages.UpdateKeeps | src/miner.cpp:244-270 | after a package is added every corrected total is at least what is left and exact for entries that never failed, and untouched entries have no ancestor in the block |
| Packages.CandidateTotals | src/miner.cpp:367-374 | the totals by which a candidate is judged are never too small, and exact if it never failed |
| Packages.SortedParentsFirst | src/miner.cpp:286-295 | sorting a package by ancestor count puts every ancestor in the block or ahead |
| BlockAssembler.UpdatePackagesForAdded | src/miner.cpp:244-270 | the nested loops, in any order of iteration, compute the closed form for every descendant |
| BlockAssembler.SortForBlock | src/miner.cpp:286-295 | the result is sorted by ancestor count and hash and lists exactly the package |
| BlockAssembler.PackageFits | src/miner.cpp:200-208 | adding a package raises the block's weight by at most four times the size it is judged by and its signature operations by exactly the remaining total |
| BlockAssembler.BlockAssembler.OnlyUnconfirmed | src/miner.cpp:187-198 | leaves exactly the transactions that are not in the block |
| BlockAssembler.BlockAssembler.TestPackageTransactions | src/miner.cpp:214-223 | true exactly if every transaction of the package may be mined |
| BlockAssembler.BlockAssembler.AddToBlock | src/miner.cpp:225-242 | appends one transaction and keeps all counters, the parents-first order and the absence of duplicates |
| BlockAssembler.BlockAssembler.TryPackage | src/miner.cpp:381-427 | adds exactly the missing ancestors and the transaction, or nothing; the limits still hold |
| BlockAssembler.BlockAssembler.Evaluate | src/miner.cpp:367-433 | one turn keeps all of that; a rejected transaction was, the first time, judged by its exact totals |
| BlockAssembler.BlockAssembler.AddPackageTxs | src/miner.cpp:307-435 | terminates, and for every choice of candidates the block has no duplicates, every ancestor ahead, exact counters, weight within the maximum and signature operations below the limit; a selection that runs to its end leaves a transaction out only if its package, at some earlier point, could not be mined or does not fit now, and one that stops early has put every candidate looked at into the block or rejected it |
| Framing.LittleEndianRoundTrip | src/protocol.h:48-54 | the size field reads back as written |
| Framing.CommandRoundTrip | src/protocol.cpp:87-99 | a command of at most twelve non-zero bytes reads back as written |
| Framing.HeaderFields | src/net.cpp:2826-2832 | start bytes, command, size and checksum of a header are those of the message |
| Framing.FeedAllAppend | src/net.cpp:742-792 | how the stream is cut into pieces does not matter |
| Framing.ReceivedIsSent | src/net.cpp:742-792 | the frames received are exactly the bytes received, cut into well-formed frames |
| Framing.FinishedStay | src/net.cpp:742-792 | finished messages never change while more arrives |
| Framing.FeedMessage | src/net.cpp:764-775 | a message becomes one finished frame, or drops the connection exactly if it is longer than the limit |
| Framing.AllDelivered | src/net.cpp:742-792 | the stream of all messages is accepted if and only if none is too long, and then all arrive |
| Framing.PrefixDelivered | src/net.cpp:742-792 | after any prefix of the stream the finished messages are the first ones sent, unchanged and in order, and no byte is lost |
| PeerBuffers.ReadHeader | src/net.cpp:821-850 | takes as many header bytes as are missing and fails exactly when the announced size exceeds MAX_SIZE |
| PeerBuffers.ReadData | src/net.cpp:852-867 | takes as much data as is missing; the buffer never exceeds the announced size nor runs more than 256 KiB ahead, has exactly that size at the end, and everything is hashed |
| PeerBuffers.Absorb | src/net.cpp:757-771 | one piece given to the current message does what feeding its bytes one by one does |
| PeerBuffers.TakePiece | src/net.cpp:749-790 | one turn of the loop finishes one message or none, and fails exactly if the byte-wise receiver does |
| Connection.Node.ReceiveMsgBytes | src/net.cpp:742-792 | in place, equals the byte-wise receiver on all bytes received so far; `complete` says whether a message was finished |
| Connection.Node.MoveFinished | src/net.cpp:1370-1384 | all finished messages move, in order, from the receive queue to the processing queue; size and pause flag follow |
| Connection.Node.TakeMessage | src/net_processing.cpp:3009-3018 | hands out the first waiting message, if there is one; size and pause flag follow |
| Connection.Node.SocketSendData | src/net.cpp:886-936 | for every sequence of partial sends, bytes sent plus bytes pending stay the stream of the messages pushed, nSendSize is the sum of the queue, the drain assertions hold, fPauseSend means that the limit is exceeded, and a willing socket drains the queue |
| Connection.Node.PushMessage | src/net.cpp:2820-2855 | one more message is on record, and bytes sent plus bytes pending are the stream of all of them |
| Connection.Delivered | src/net.cpp:742-936 | two nodes, any sends, any chunks and any moves between the queues: the messages that the receiver has finished, and those it has processed, are the first ones pushed, in order and unchanged, and all of them once everything is sent and received |
| Connection.NeverDropped | src/net.cpp:742-792 | the receiver accepts every next piece of a stream of messages within the length limit |
| Arithmetic.ScaledHash | src/cuckoocache.h:243-253 | a hash is mapped to a slot of the table |
| CuckooCache.FirstDisplacement | src/cuckoocache.h:417-430 | the first displacement goes to the second location |
| CuckooCache.MovesOnIff | src/cuckoocache.h:417-430 | a later displacement leaves the element just put in alone if and only if its location does not occur again right after its first occurrence |
| CuckooCache.MovesBack | src/cuckoocache.h:417-430 | with two equal hashes the element just put in is taken out again |
| CuckooCache.LoadBound | src/cuckoocache.h:289-321 | at most two epochs within their limit are stored at once |
| CuckooCache.RoomLeft | src/cuckoocache.h:340-355 | in all but the smallest tables some slot is always free |
| CuckooCache.AgedCounts | src/cuckoocache.h:305-311 | ending an epoch releases the old one and turns the current one into the old one |
| CuckooCache.StoreKeeps | src/cuckoocache.h:409-416 | storing the element in hand on a free slot loses nothing |
| CuckooCache.SwapKeeps | src/cuckoocache.h:430-439 | a swap conserves elements and epoch flags, and the displaced element is at hand with its own locations |
| CuckooCache.StoredIsFound | src/cuckoocache.h:467-477 | every stored element is found by a lookup |
| CuckooCache.Cache.EpochCheck | src/cuckoocache.h:289-321 | leaves room for one more element within the limit of the current epoch; only a full epoch ends |
| CuckooCache.Cache.Contains | src/cuckoocache.h:467-477 | found exactly if the element is at one of its eight locations; an erased hit stays findable until overwritten |
| CuckooCache.Cache.Place | src/cuckoocache.h:406-443 | the table and at most one element given up hold together what was there and the new element; all are at their own locations, and nothing is given up if one of the new element's locations is free |
| CuckooCache.Cache.Insert | src/cuckoocache.h:392-444 | at most one stored element is lost, none but the element itself if it was already there, none if one of its locations is free; the epoch bounds are kept |
| RollingBloom.WipedMark | src/bloom.cpp:264-271 | the masked wipe unsets exactly the marks of one generation |
| RollingBloom.ExpectedNext | src/bloom.cpp:258-272 | beginning a generation forgets exactly what was last written three generations ago |
| RollingBloom.WipeTracks | src/bloom.cpp:258-272 | after the wipe every cell shows its last write if that is within three generations |
| RollingBloom.InsertTracks | src/bloom.cpp:273-285 | after the marks are set every cell shows its last write, overwritten cells included |
| RollingBloom.RecentSeen | src/bloom.cpp:293-305 | every key of the current and the two preceding generations is found |
| RollingBloom.LastOnesSeen | src/bloom.h:113-114 | each of the last nElements keys, rounded up to even, is found |
| RollingBloom.RollingBloomFilter.Insert | src/bloom.cpp:256-285 | in place, keeps the exact correspondence between marks and history |
| RollingBloom.RollingBloomFilter.Contains | src/bloom.cpp:293-305 | true exactly if all cells of the key are marked, and always for the last nElements keys |
| RollingBloom.RollingBloomFilter.Reset | src/bloom.cpp:313-321 | forgets everything and starts again under a new hash |
| Chain.SkipHeight | src/chain.cpp:73-81 | a skip goes strictly down |
| Chain.GetAncestor | src/chain.cpp:83-108 | the skip list leads to the same block as single steps, or to null outside the range; it terminates and its assertion holds |
| Chain.BlockIndex.On | src/chain.cpp:115-119 | a new block's skip pointer leads to the ancestor it is meant for |
| Chain.LastCommonAncestor | src/chain.cpp:155-170 | returns the highest common block, or null exactly if the branches have different genesis blocks; its assertion always holds |
| Chain.ActiveChain.SetTip | src/chain.cpp:11-21 | afterwards entry h is the tip's ancestor at height h for every h, despite the early stop |
| Chain.ActiveChain.FindFork | src/chain.cpp:51-59 | returns the highest block of the chain below the given block |
| Chain.ActiveChain.GetLocator | src/chain.cpp:23-49 | the entries are the ancestors at the heights of a closed formula, down to the genesis block |
| Chain.LocatorLength | src/chain.cpp:23-49 | a locator has at most 12+n entries if and only if the height is at most 2^(n+1)+9 |
| Chain.LocatorDescends | src/chain.cpp:23-49 | locator heights strictly decrease and end at zero |
| Chain.LocatorIsClose | src/chain.cpp:23-49 | for any distance d some entry is between d and 2d below the start, so a peer sharing all but d blocks finds a fork point at most twice as far |
| Positional.EnoughDigits | src/base58.cpp:47-48 | if p^x >= q^y, then s digits to the base p hold n digits to the base q whenever s/n >= x/y |
| Positional.MultiplyAndAdd | src/base58.cpp:96-104 | the in-place carry loop multiplies the number in the buffer and adds to it; with room for the result no carry is left |
| Base58.EncodeRoom | src/base58.cpp:93-94 | the estimate 138/100 is large enough for every input |
| Base58.DecodeRoom | src/base58.cpp:47-48 | the estimate 733/1000 is large enough for every input |
| Base58.DecodeEncode | src/base58.cpp:34-121 | decoding gives back every byte sequence that was encoded |
| Base58.EncodeDecode | src/base58.cpp:34-121 | encoding gives back the word that was decoded |
| Base58.DecodesIff | src/base58.cpp:34-81 | every string: it decodes to given bytes if and only if, up to the first zero character, it is one word of alphabet characters with spaces around it that means those bytes |
| Base58.ConvertWord | src/base58.cpp:46-66 | the loop over the characters computes the number to the base 256 and fails exactly on a foreign character; its assertion holds |
| Base58.EncodeBase58 | src/base58.cpp:83-121 | the loops compute the encoding; the assertion on the carry holds |
| Base58.DecodeBase58 | src/base58.cpp:34-81 | the loops compute the decoding with all its rejections |
| Bech32Checksum.StepLinear | src/bech32.cpp:65-88 | one step of the remainder is linear in word and value together |
| Bech32Checksum.StepKernel | src/bech32.cpp:65-88 | a step takes only zero to zero |
| Bech32Checksum.ChecksumIsUnique | src/bech32.cpp:127-138 | exactly one choice of six values brings the remainder to the wanted one |
| Bech32Checksum.BurstChangesRemainder | src/bech32.cpp:36-91 | lists that differ only within six consecutive values have different remainders |
| Bech32.ToCharFrom | src/bech32.cpp:12-25 | the two character tables are inverse, and no value is written as a separator or in upper case |
| Bech32.VerifyIff | src/bech32.cpp:117-138 | a list verifies if and only if it ends with the checksum that is created for it |
| Bech32.BurstDetected | src/bech32.cpp:117-124 | any change within six consecutive values of a valid list, at any length, makes verification fail |
| Bech32Errors.ValueFar | src/bech32.cpp:44-51 | within ninety steps no single value leads to a single value again |
| Bech32.TwoErrorsDetected | src/bech32.cpp:44-51 | any change of one or two values, up to 89 places apart, makes verification fail |
| Bech32.DecodeEncode | src/bech32.cpp:146-189 | for a printable lower-case human-readable part decoding gives back what was encoded if that part is not empty and the string has at most 90 characters, and fails otherwise |
| Bech32.EncodeDecode | src/bech32.cpp:146-189 | every accepted string is, in lower case, the encoding of its contents |
| Bech32.PolyMod | src/bech32.cpp:36-91 | the loop computes the recursive remainder |
| Bech32.EncodeText | src/bech32.cpp:146-155 | the loop computes the encoding |
| Bech32.DecodeText | src/bech32.cpp:158-189 | the loops compute the decoding with all its rejections |
| IndexLists.DecodedIncreasing | src/blockencodings.h:55-61 | every accepted list is strictly increasing, fits 16 bits and encodes to what it was read from |
| IndexLists.DecodeEncode | src/blockencodings.h:38-68 | a list of 16-bit indexes survives if and only if it is strictly increasing |
| IndexLists.ReadIndexes | src/blockencodings.h:42-61 | the two in-place loops compute the decoding |
| CompactBlocks.PlacePrefilled | src/blockencodings.cpp:58-76 | accepts exactly the well-formed lists; positions increase, are in range, and nothing else is filled |
| CompactBlocks.MapShortIds | src/blockencodings.cpp:83-107 | without out-of-range access the i-th short id is mapped to the i-th empty slot; fails exactly if two ids are equal or a bucket is overfull |
| CompactBlocks.Scan | src/blockencodings.cpp:110-166 | every transaction put in a slot has the slot's short id, prefilled slots are untouched, the count is exact, and a matched slot is emptied only by a second match |
| CompactBlocks.FromBlock | src/blockencodings.cpp:18-28 | the announcement of a block describes that block |
| CompactBlocks.MergeMissing | src/blockencodings.cpp:182-191 | filling the gaps of agreeing slots with the missing transactions in order gives the block |
| CompactBlocks.BlockRebuilt | src/blockencodings.cpp:48-197 | without short id collisions the announced block is rebuilt exactly |
| CompactBlocks.PartiallyDownloadedBlock.InitData | src/blockencodings.cpp:48-168 | INVALID exactly for malformed announcements and FAILED exactly for equal ids or overfull buckets; otherwise a slot is filled by a transaction with its short id and stays empty only if none or two at hand have it, and mempool_count plus prefilled_count is the number of filled slots |
| CompactBlocks.PartiallyDownloadedBlock.FillBlock | src/blockencodings.cpp:176-214 | INVALID exactly if the number of transactions given differs from the number of gaps, otherwise the merged block; after too few the header stays set and the slots passed are empty |
| Limbs.AddAssign | src/arith_uint256.h:134-144 | sum modulo 2^256 |
| Limbs.Increment | src/arith_uint256.h:172-179 | successor modulo 2^256 |
| Limbs.Negate | src/arith_uint256.h:76-83 | negation modulo 2^256 |
| Limbs.SubtractAssign | src/arith_uint256.h:146-150 | difference modulo 2^256 |
| Limbs.MultiplySmall | src/arith_uint256.cpp:57-67 | product with a 32-bit number modulo 2^256 |
| Limbs.MultiplyAssign | src/arith_uint256.cpp:69-83 | product of two 256-bit numbers modulo 2^256, from the truncated schoolbook rows |
| LimbShifts.ShiftLeftAssign | src/arith_uint256.cpp:23-38 | multiplication by 2^shift modulo 2^256, for every shift |
| LimbShifts.ShiftRightAssign | src/arith_uint256.cpp:40-55 | floor division by 2^shift, for every shift |
| LimbDivision.CompareTo | src/arith_uint256.cpp:111-121 | the sign of the difference |
| LimbDivision.Bits | src/arith_uint256.cpp:173-185 | the position of the highest bit plus one |
| LimbDivision.DivideAssign | src/arith_uint256.cpp:85-109 | exact floor division; an error exactly on zero |
| CompactTarget.OverflowExact | src/arith_uint256.cpp:206-224 | the overflow flag is set if and only if the number does not fit into 256 bits |
| CompactTarget.SetCompact | src/arith_uint256.cpp:206-224 | the number meant, modulo 2^256, with both flags |
| CompactTarget.GetCompact | src/arith_uint256.cpp:226-247 | the compact form of the number, with the sign bit for a negative one; both assertions hold |
| CompactTarget.RoundsDown | src/arith_uint256.cpp:226-247 | the compact form rounds down by at most one part in 2^15 |
| CompactTarget.RoundingIsStable | src/arith_uint256.cpp:226-247 | rounding again gives the same compact form |
| CompactTarget.CompactRoundTrip | src/arith_uint256.cpp:206-247 | what GetCompact writes fits 32 bits, and SetCompact reads it without flags as the rounded number, which is stable |
| CompactTarget.GetBlockProof | src/chain.cpp:121-134 | zero for an invalid target, otherwise floor(2^256 / (target + 1)) |
| Retarget.LegacyBounds | src/pow.cpp:64-86 | the new target is at most the limit and four times the old one, and at least a quarter of the old one less two |
| Retarget.MainParameters | src/chainparams.cpp:85-92 | the parameters of the main network meet the conditions under which nothing wraps |
| Retarget.LegacyExact | src/pow.cpp:70-83 | for an old target within the limit, the shift that makes room for one bit is enough: the rule on 256 bits is the rule on integers |
| Retarget.LegacyPositive | src/pow.cpp:70-86 | the new target is not zero if and only if the old one, halved if need be, times the timespan is at least the expected timespan |
| Retarget.LegacyReachesZero | src/pow.cpp:70-88 | a target of three that passes CheckProofOfWork is followed by a target of zero, which does not |
| Retarget.CalculateNextWorkRequired | src/pow.cpp:58-89 | on limbs, for every old target, the compact form of the rule on 256 bits, within the limit; it is in the range of CheckProofOfWork exactly if the scaled target is not zero |
| Retarget.AverageBetween | src/pow.cpp:129-142 | the running average lies between the smallest and the largest target |
| Retarget.CutAverageExact | src/pow.cpp:128-142 | for targets up to 2^256/25 no step of the average wraps |
| Retarget.AveragePast | src/pow.cpp:127-142 | on limbs, for all targets, the loop computes the running average modulo 2^256 |
| Retarget.WaveBounds | src/pow.cpp:127-160 | the new target lies between a third of the smallest and three times the largest of the last 24, and is at most the limit |
| Retarget.WaveExact | src/pow.cpp:127-160 | for targets within the limit the rule on 256 bits is the rule on integers |
| Retarget.WaveReachesZero | src/pow.cpp:127-160 | targets of two that pass CheckProofOfWork are followed by a target of zero, which does not |
| Retarget.DarkGravityWave | src/pow.cpp:110-161 | on limbs, for all targets, the compact form of the limit at the reset height and for short histories, otherwise of the rule on 256 bits; it is in the range of CheckProofOfWork exactly if the scaled average is not zero |
| MovingAverage.LwmaBounds | src/pow.cpp:167-201 | the new target is at most six times the largest of the window |
| MovingAverage.LwmaCalculateNextWorkRequired | src/pow.cpp:167-201 | on limbs, for all targets, the sum does not wrap and the result is the compact form, modulo 2^256, of the weighted time times the average target divided by the expected weight |
| MovingAverage.OnTimeWithinLimit | src/pow.cpp:167-201 | a window that took no longer than expected in the weighted sum keeps the new target within the limit that its targets are within |
| MovingAverage.LimitHoldsIff | src/pow.cpp:167-201 | for given times, the limit holds for all targets up to a representable one if and only if the window of that one target meets it |
| MovingAverage.MainRoundsAbove | src/pow.cpp:198-200 | rounding to the compact form does not bring a number back within the main network's limit |
| MovingAverage.MainLimitIff | src/pow.cpp:167-201 | on the main network, target and header stay within the limit for all targets within it if and only if the weighted time is at most 274500, the expected one |
| MovingAverage.MainLate | src/pow.cpp:167-201 | one second more, and the window of the largest target within the limit leads above it |
| MovingAverage.LwmaExceedsLimit | src/pow.cpp:198-200 | on the main network, a slow window of targets within the limit leads to more than five times the limit |
| MovingAverage.LwmaWrapsAround | src/pow.cpp:198-200 | on the regression-test network the same window's product exceeds 256 bits |
| NextWork.FirstExists | src/pow.cpp:41-53 | the block that the legacy rule looks back to exists, so the assertion holds |
| NextWork.GetNextWorkRequired | src/pow.cpp:203-236 | picks the rule by height, with the rules for late blocks on test networks and the walk back over blocks of least difficulty |
| NextWork.ChainExact | src/pow.cpp:14-161 | a chain that follows the legacy and DarkGravityWave rules stays within the limit, and no product of any step is cut, without a condition on its targets |
| NextWork.ChainInRangeIff | src/pow.cpp:91-108 | all headers of such a chain are in the range of CheckProofOfWork if and only if no step scales to less than one |
| NextWork.LargeEnough | src/pow.cpp:70-160 | a step scales to at least one if the last target is at least 8, or the last 24 are at least 3 |
| NextWork.MainChain | src/chainparams.cpp:85-92 | both for the main network before height 85000 |
| NextWork.ChainEnds | src/validation.cpp:3244-3245 | after a window of the largest target whose weighted time is above 274500, the expected one, no header has both the bits asked for and a passing proof of work |

## Left out

- Replaying blocks after an interrupted database write.
- `Select_` and `GetChance` of the address manager: they choose by floating-point probabilities.
- The byte-level encoding of the address manager's file.
- Overflow of the address manager's record counter, and clocks that advance within one operation.
- BlockAssembler.BlockAssembler.AddPackageTxs: does not total fees, which the code itself keeps in two ways (src/miner.h:115 and src/miner.cpp:260), nor fix the fee-rate order of candidates; fees only choose candidates, and every choice is covered.
- The coinbase transaction, block templates and mempool maintenance around package selection.
- Validity of message headers beyond size, and statistics of bytes per command.
- BlockAssembler.UpdatePackagesForAdded: does not count the updated descendants, a number that is only logged.
- Concurrent lookups in the signature cache, and the float logarithm that sets the depth limit, which is a parameter.
- The floating-point sizing of the rolling filter; number of hash functions and words are parameters.
- 32-bit overflow of the locator step for heights near 2^31.
- `FindEarliestAtLeast` and chain work, which would add only easy members.
- CompactBlocks.PartiallyDownloadedBlock.InitData: does not model `extra_count`, a statistic that can be decremented for a slot filled from the mempool.
- CompactBlocks.PartiallyDownloadedBlock.FillBlock: whether the block is valid is a parameter, since CheckBlock is not part of this model.
- Three and four scattered errors in a Bech32 string.
- Hexadecimal conversion and floating-point views of 256-bit numbers.
- Wallet, RPC, scripts, the database engine, networking threads and start-up.

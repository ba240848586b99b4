# hbcur: a verified model of the node's core

hbcur is a node of the Bitcoin and PIVX family. This project models the parts of it whose correctness rests on
invariants over whole runs, and proves those invariants. Hashes, signatures and the disk are abstracted away: a hash
that chooses a slot is an arbitrary function with a bounded range, a stored record is an entry of a map, the outcome
of a check that is not modelled is a parameter.

The six parts, and the modules that hold them:

- **Chain state** (`src/main.cpp`, `src/chain.cpp`). `BlockIndex` has block index entries, the skip list and last
  common ancestors; `Chain` the active-chain vector and locators; `BlockTree` the invariant of `CheckBlockIndex` and
  what every kind of step does to it; `ChainState` block arrivals and the activation of the best chain as methods of
  one class; `InFlight` and `Download` the bookkeeping of requested blocks; `MedianTime` the median of past times.
- **Coins** (`src/coins.cpp`, `src/coins.h`, `src/compressor.*`). `Coins` is the flat map from transactions to unspent
  outputs, the specification of every view; `BlockCoins` connecting and disconnecting one block on it; `Conservation`
  and `CoinChain` the money supply along a chain; `Unspent` the unspent outputs told from the transactions alone; `CoinState` the runs that connect and disconnect tips;
  `CoinsCache` stacks of write-back caches, `BlockViews` connecting and disconnecting a block through a cache;
  `CCoins`, `CoinsCodec`, `UndoCodec`, `Compressor` and `VarInt` coins and undo records as objects and as bytes.
- **Address manager** (`src/addrman.*`). `AddrTables` has the five redundant structures and their invariant,
  `AddrMan` the operations in place on two bucket tables, `AddrFile` writing and reading.
- **Check queue** (`src/checkqueue.h`). `CheckQueue` is a state machine whose steps are the critical sections of one
  master and any number of workers, with spurious wake-ups.
- **Large integers** (`src/arith_uint256.*`). `Limbs` gives limb lists their value, `ArithUint` has the limb loops,
  `Compact` the compact target format.
- **Base 58** (`src/base58.cpp`). `Radix` has numbers in any base, `Base58` the conversions in their fixed buffers.

`Options` and `Arithmetic` hold what several of them share.

Where the code does something else than its comments or its callers expect, the model follows the code:

- `DisconnectBlock` does not restore `fCoinStake`, and the undo records that it reads back from disk keep `nVersion`
  without its sign. Undoing a block is exact if and only if no undo record of a last output carries the flag or, for
  a coin of an earlier block, a negative version (`BlockCoins.DisconnectInvertsConnect`).
  `BlockCoins.CoinStakeFlagIsLost` and `BlockCoins.VersionSignIsLost` are blocks for which it is not, on coins that
  chains of valid blocks leave (`CoinChain.LossIsReachable`). `CoinState.CCoinState` therefore keeps track of the
  coins that were restored, and its invariant holds for all runs.
- The compact integers in which `CCoins` stores version and height do not carry a sign. Reading undoes writing if and
  only if neither is negative (`CoinsCodec.UnchangedIff`); `CoinsCodec.NegativeVersionIsLost` is an input for which it
  does not.
- `FinalizeNode` does not lower `nQueuedValidatedHeaders`. The counter is the true count plus what left with
  finalized peers (`leaked` in `Download.CNodes`).
- `Add_` of the address manager returns true even if the new entry found no place and was dropped again.
- The comment above `CCoins` gives its header code three flags (src/coins.h:33-39). The code has a fourth, for a
  coinstake, and so shifts the rest by four bits: this is what is modelled.
- `GetSerializeSize` of `CCoins` uses a factor of 8 where `Serialize` uses 16; only `Serialize` is modelled.

## Model
| member | source | states |
|---|---|---|
| CheckQueue.StepInv | src/checkqueue.h:69-127 | every step of any thread, spurious wake-ups included, keeps the invariant: exact counters, and the verdict so far stands for the checks that are gone |
| CheckQueue.ReachableInv | src/checkqueue.h:69-158 | so it holds in every state that any interleaving of any number of workers reaches |
| CheckQueue.WaitReturnsConjunction | src/checkqueue.h:139-143 | Wait returns exactly the conjunction of all checks added since it returned last, and leaves the queue idle and empty |
| CheckQueue.CountersExact | src/checkqueue.h:45-60 | nTodo is the number of queued and held checks, nIdle and nTotal are numbers of threads |
| CheckQueue.IdleBeforeAdding | src/checkqueue.h:183-190 | the assertion of the next controller's constructor cannot fire |
| CheckQueue.NoLostWakeup | src/checkqueue.h:80-104 | while the master is blocked some worker still holds a batch, so its wake-up is still to come |
| CheckQueue.OrdinaryStepEnabled | src/checkqueue.h:69-127 | inside Wait some step that needs neither luck nor a new thread is always possible |
| CheckQueue.OrdinaryStepSmaller | src/checkqueue.h:69-127 | every such step makes a lexicographic measure smaller or lets Wait return |
| CheckQueue.WaitTerminates | src/checkqueue.h:69-143 | from every such state those steps alone lead to the return of Wait |
| CheckQueue.ShareFits | src/checkqueue.h:105-117 | a batch has at least one check and never more than the queue |
| CheckQueue.FairShare | src/checkqueue.h:105-119 | a batch is one check, or as many as go into an even share of the queue but at most nBatchSize; the checks taken are exactly those that leave the queue; after a failure none of them is run |
| CheckQueue.ReachableShared | src/checkqueue.h:69-158 | in every reachable state no batch is larger than nBatchSize or one, and while checks are queued the workers do not all sleep |
| CheckQueue.AddWakes | src/checkqueue.h:154-157 | Add of one check wakes the worker that is picked, Add of more wakes all of them |
| BlockIndex.ClearsLowestOne | src/main.cpp:3528-3529 | n & (n - 1) clears exactly the lowest one bit |
| BlockIndex.GetSkipHeight | src/main.cpp:3531-3541 | a skip height is below the height it starts from |
| BlockIndex.SkipsAreFew | src/main.cpp:3531-3541 | skip pointers alone lead to genesis in as many steps as an even height has one bits, and in half as many and one more from an odd height |
| BlockIndex.GetAncestor | src/main.cpp:3543-3569 | the walk over skip pointers finds the same block as walking pprev, for every height |
| BlockIndex.BuildSkip | src/main.cpp:3571-3575 | a new entry's skip pointer is its ancestor at the skip height |
| BlockIndex.LastCommonIsLast | src/main.cpp:434-452 | the last common block is a common ancestor and every common ancestor is below it |
| BlockIndex.LastCommonAncestor | src/main.cpp:434-452 | levelling by the skip list and walking down finds it; the two walks always meet |
| Chain.CChain.SetTip | src/chain.cpp:13-24 | with its early stop, entry i of the vector still is the tip's ancestor at height i |
| Chain.CChain.FindFork | src/chain.cpp:55-62 | the last block in common with the active chain |
| Chain.CChain.GetLocator | src/chain.cpp:26-53 | the hashes of ancestors at the depths of a locator, down to genesis |
| Chain.LocatorShape | src/chain.cpp:26-53 | depths grow strictly, the last entry is genesis, and there are at most 12 + log2(height) entries |
| Chain.CChain.FindForkInGlobalIndex | src/main.cpp:574-586 | the first locator entry that is on the active chain, or genesis |
| Chain.ForkFoundIsClose | src/main.cpp:574-586 | on a locator it finds a common ancestor, exact down to depth 11 and at most twice as deep as the true fork below that |
| BlockTree.ChainTxExact | src/main.cpp:4242-4283 | nChainTx is non-zero exactly if the block and all its ancestors have data, and then is the sum of nTx along the path |
| BlockTree.WorseIsStrictOrder | src/main.cpp:105-124 | the comparator of the candidate set is a strict total order |
| BlockTree.HeaderAdded | src/main.cpp:3016-3083 | a new header keeps the invariant of CheckBlockIndex |
| BlockTree.DataStored | src/main.cpp:3086-3097 | storing a block's data leaves exactly that block to be linked |
| BlockTree.RelinkStep | src/main.cpp:3104-3123 | one round of the relinking loop keeps its invariant: the queue holds the blocks taken out of mapBlocksUnlinked |
| BlockTree.LinkOneNumbered | src/main.cpp:3108-3115 | linked blocks have distinct ids in the order in which they were linked, and a block linked now is a candidate only if it has more work than the tip |
| BlockTree.DataDeferred | src/main.cpp:3124-3128 | a block whose parent is not linked waits in mapBlocksUnlinked unless its parent failed |
| BlockTree.MarkedFailed | src/main.cpp:3498-3504 | a block that fails CheckBlock is marked without disturbing the rest |
| BlockTree.ChainRemoved | src/main.cpp:2780-2797 | marking the blocks above a failed one and dropping them as candidates loses no good candidate |
| BlockTree.TipDisconnected | src/main.cpp:2539-2578 | during an activation, disconnecting the tip keeps a best candidate in reach |
| BlockTree.TipRejected | src/main.cpp:1966-1984 | so does a rejected block, which was no block of a former tip's chain |
| BlockTree.TipConnected | src/main.cpp:2590-2660 | so does a connected block together with the pruning that follows it |
| BlockTree.ActingDone | src/main.cpp:2805-2816 | when the greatest candidate is the tip, the candidate rule of CheckBlockIndex holds again |
| BlockTree.GreatestExists | src/main.cpp:2755-2761 | a non-empty candidate set has a greatest element under the comparator |
| ChainState.CChainState.AcceptBlockHeader | src/main.cpp:3422-3467 | exactly when a header is accepted, and that the whole invariant is kept |
| ChainState.CChainState.AcceptBlock | src/main.cpp:3469-3526 | exactly when a block is accepted, exactly which header, data or failure mark is added, and that the whole invariant is kept |
| ChainState.CChainState.ReceivedBlockTransactions | src/main.cpp:3086-3131 | storing data and relinking breadth first restores the invariant, whatever the order of arrivals, and makes no block with the work of the tip a candidate |
| ChainState.CChainState.Relink | src/main.cpp:3104-3123 | the relinking loop ends and leaves nothing linkable behind |
| ChainState.CChainState.FindFailed | src/main.cpp:2763-2799 | the walk from a candidate down to the active chain finds a failed ancestor if there is one; missing data cannot occur |
| ChainState.CChainState.RemoveChain | src/main.cpp:2780-2794 | exactly the blocks above the failed one on the way to the candidate are marked, and exactly those and the failed one are no candidates any more |
| ChainState.CChainState.FindMostWorkChain | src/main.cpp:2750-2803 | the greatest candidate without a failed ancestor, which always exists; every candidate it drops is marked failed, and so is all that lies between it and a failed block below |
| ChainState.CChainState.PruneBlockIndexCandidates | src/main.cpp:2805-2816 | exactly the candidates worse than the tip go, and the set does not become empty, as the source asserts |
| ChainState.CChainState.ConnectTip | src/main.cpp:2590-2660 | its parent is the tip whenever it is called; a rejected block is marked and is no candidate |
| ChainState.CChainState.DisconnectTip | src/main.cpp:2539-2578 | the tip becomes its parent, or the disconnection fails and leaves it alone |
| ChainState.CChainState.DisconnectToFork | src/main.cpp:2829-2833 | the active blocks above the fork are disconnected, or the one at which that failed is the tip |
| ChainState.CChainState.ActivateBestChainStep | src/main.cpp:2822-2885 | a step reaches its goal, or gives the tip more work, or marks a block as failed; it fails only at a disconnection that failed or at the next block on the way to its goal, which met a system error |
| ChainState.CChainState.ActivateBestChain | src/main.cpp:2892-2945 | it terminates; on success the tip is the only candidate, clean, and the old tip or one with more work, and the invariant holds; it fails only on the way to the greatest candidate, at a failed disconnection or a system error, and so not at all where there is neither |
| ChainState.CChainState.ProcessNewBlock | src/main.cpp:3577-3649 | in every run of arrivals the tip changes only for more work: of several chains with the same work the one linked first stays |
| ChainState.TipIsBest | src/main.cpp:2892-2945 | after a success no block with all data and no failed ancestor has more work than the tip, and none with the same work was linked before it |
| InFlight.CounterIsCount | src/main.cpp:370-397 | a peer's nBlocksInFlight is the number of blocks in flight from it: map and lists are in bijection |
| InFlight.ReceivedOk | src/main.cpp:370-381 | removing a received block keeps map and lists mirrored, and says by how much the validated count changes |
| InFlight.InFlightOk | src/main.cpp:384-397 | so does adding a requested block |
| InFlight.FinalizedOk | src/main.cpp:349-367 | so does a peer that goes: exactly its blocks leave the map |
| Download.CNodes.InitializeNode | src/main.cpp:341-347 | a peer that is known already keeps its state |
| Download.CNodes.FinalizeNode | src/main.cpp:349-367 | exactly the peer's blocks leave the map, and by how much the counter of validated headers stays too high |
| Download.CNodes.MarkBlockAsReceived | src/main.cpp:370-381 | the entry leaves map and list, all counters follow, and its peer does not count as stalling any more |
| Download.CNodes.MarkBlockAsInFlight | src/main.cpp:384-397 | the block is asked of this peer and of nobody else, at the end of its list; all other peers and fields stay |
| Download.CNodes.ProcessBlockAvailability | src/main.cpp:400-413 | an announced block that is known by now becomes the peer's best block if it is no worse |
| Download.CNodes.UpdateBlockAvailability | src/main.cpp:416-432 | what becomes of the peer's best known block, which never loses work |
| Download.WantsAre | src/main.cpp:493-535 | the blocks asked for are ancestors of the peer's best block, missing and not in flight |
| Download.WantsAscend | src/main.cpp:505-526 | they are in ascending order, and so distinct |
| Download.WantsAll | src/main.cpp:508-534 | none in between is left out |
| Download.LastLinkedIs | src/main.cpp:513-515 | pindexLastCommonBlock becomes the last block looked at that is there and linked |
| Download.SeenIsUnique | src/main.cpp:493-535 | there is only one height at which the walk can end, and so only one result |
| Download.CNodes.Walk | src/main.cpp:485-536 | the runs of at least 128 blocks give exactly the missing blocks of the window up to where the walk stops, and why it stops there; the peer that stalls, if and only if one does; the last block that is there and linked |
| Download.CNodes.FindNextBlocksToDownload | src/main.cpp:456-536 | at most count of them, inside the window; where the search starts and ends; exactly when and which peer counts as stalling; exactly what becomes of the peer's state |
| MedianTime.GetMedianTimePast | src/chain.h:285-299 | of the last eleven block times, or of fewer near genesis, one with at most half of them below it and more than half not above it |
| MedianTime.TimesAt | src/chain.h:293-295 | these times are those of the block and of its ancestors, one after the other |
| MedianTime.RankOf | src/chain.h:297-298 | in a sorted list entry k is at least m exactly if at most k entries are below m |
| MedianTime.MedianNeverDecreases | src/main.cpp:3390-3395 | if every block is later than its parent's median, the median never decreases along a chain, short windows near genesis included |
| Coins.UndoAfterSpend | src/coins.cpp:35-51 | undoing the spending of one output restores the view, but for the coinstake flag and the sign of the version of a coin that was spent entirely |
| BlockCoins.UndoAfterConnect | src/main.cpp:2130-2185 | undoing a block restores the view it was connected to, with chained spends inside the block; what is lost, and when it reports so, is given exactly |
| BlockCoins.DisconnectInvertsConnect | src/main.cpp:2111-2196 | DisconnectBlock exactly inverts ConnectBlock with fClean true if and only if no undo record of a last output is a coinstake's or, for a coin of an earlier block, has a negative version |
| BlockCoins.SpendAfterUndo | src/main.cpp:2162-2183 | conversely: whatever the record, if restoring an output is clean, spending it again gives the view and the record back |
| BlockCoins.ConnectInvertsDisconnect | src/main.cpp:2111-2196 | and if undoing a block is clean, the block connects to what that leaves, and gives the view and the records back |
| BlockCoins.CoinStakeFlagIsLost | src/main.cpp:2166-2173 | a block whose disconnection loses the flag |
| BlockCoins.VersionSignIsLost | src/main.cpp:2122-2125 | a block whose disconnection loses the sign of a version |
| CoinChain.LossIsReachable | src/main.cpp:2162-2184 | both are reached by chains of valid blocks |
| BlockCoins.HaveInputsSuffices | src/coins.cpp:232-244 | if all inputs are there and distinct, all can be spent: the assertion in UpdateCoins cannot fire |
| BlockViews.UpdateCoins | src/main.cpp:1986-2000 | inputs spent in order, outputs added, and the undo records of exactly those spends, on a cache over any stack of views |
| BlockViews.GetValueIn | src/coins.cpp:220-230 | the value of the inputs |
| BlockViews.ConnectBlock | src/main.cpp:2311-2362 | exactly when it fails; the new flat map, the undo data, nValueIn, nValueOut and nFees; nothing changes below the cache |
| BlockViews.RestoreInputs | src/main.cpp:2157-2184 | the inputs of a transaction restored last to first, and whether that was clean |
| BlockViews.DisconnectBlock | src/main.cpp:2111-2196 | the transactions undone last to first, and exactly when it fails or reports an unclean undo |
| BlockViews.ConnectTip | src/main.cpp:2593-2625 | flushed, the cache leaves the views below with the block connected; dropped, it leaves them as they were |
| BlockViews.DisconnectTip | src/main.cpp:2548-2554 | likewise for a block that is disconnected |
| CoinState.CCoinState.ConnectTip | src/main.cpp:2590-2660 | in every run the coins seen through pcoinsTip stay the replay of the active chain and the best block is the tip; undo data is written on the first connection only |
| CoinState.CCoinState.DisconnectTip | src/main.cpp:2539-2578 | so they do when a tip is disconnected with undo data of an earlier connection; it fails exactly if a coin of one of the block's coinstakes has lost its flag or was spent entirely by the block itself |
| CoinState.StakesWholeIff | src/main.cpp:2135-2155 | that condition on the coins at hand is the one on the history of the chain |
| CoinState.MoneySupplyIsRight | src/main.cpp:2359-2362 | in every reachable state unspent value plus value dropped as unspendable is the tip's nMoneySupply |
| Conservation.TotalApplyTx | src/main.cpp:1986-2000 | a transaction changes the total by its outputs minus its inputs minus what is unspendable |
| Unspent.ReplayIsUnspent | src/main.cpp:1986-2000 | what replaying a chain leaves spendable are exactly the outputs that a transaction of the chain made and none spent since |
| Unspent.CoinsAreMade | src/coins.h:91-99 | all coins carry the flags, height and version of the transaction that made them, and its outputs |
| CoinChain.MintSplit | src/main.cpp:2337-2362 | nMint is what the coinbase pays plus the surplus of coinstakes minus nFees |
| CoinChain.SupplyConserved | src/main.cpp:2359-2362 | on every chain of connected blocks value is conserved |
| CoinChain.ConnectWorn | src/main.cpp:2311-2357 | connecting a block does not depend on what restored coins have lost |
| CoinChain.UndoTxsIgnoresFlag | src/main.cpp:2166-2173 | neither does undoing one |
| CoinsCache.CoinsView.FetchCoins | src/coins.cpp:85-101 | reading through a stack of caches changes no flat map and finds what the flat map has, up to pruned entries |
| CoinsCache.CoinsView.GetCoins | src/coins.cpp:103-111 | what a read returns agrees with the flat map |
| CoinsCache.CoinsView.HaveCoins | src/coins.cpp:142-150 | true exactly for transactions with an unspent output |
| CoinsCache.CoinsView.ModifyCoins | src/coins.cpp:113-130 | modifying and cleaning up through a modifier is modifying the flat map; views below do not change |
| CoinsCache.CoinsView.BatchWrite | src/coins.cpp:164-199 | writing a child's entries applies exactly its dirty ones; the assertion on FRESH cannot fire |
| CoinsCache.CoinsView.Flush | src/coins.cpp:201-206 | flushing leaves the flat map as it was and moves it below; what becomes of the best block |
| CoinsCache.CoinsView.GetBestBlock | src/coins.cpp:152-157 | the best block of the nearest view that knows one |
| CoinsCache.CoinsView.SetBestBlock | src/coins.cpp:159-162 | the best block, unless it is set to zero |
| CoinsCache.WriteEntryOk | src/coins.cpp:167-196 | every case of BatchWrite keeps the meaning of FRESH: the view below has no unpruned entry |
| CoinsCache.EndModifyOk | src/coins.cpp:268-276 | so does the modifier's destructor |
| CoinsCache.WrittenIsOverlay | src/txdb.cpp:53-72 | writing a cache's dirty entries to the database makes of it the flat map that the cache stands for |
| CoinsCache.UnprunedStays | src/txdb.cpp:18-24 | the database never holds pruned coins |
| CCoins.CCoins.Cleanup | src/coins.h:119-126 | exactly the spent outputs at the end go |
| CCoins.CCoins.ClearUnspendable | src/coins.h:128-135 | unspendable outputs become null, then the end is cleaned |
| CCoins.CCoins.FromTx | src/coins.h:91-99 | the coins a transaction creates |
| CCoins.CCoins.Spend | src/coins.cpp:35-51 | exactly when an output can be spent, what is left, and the undo record |
| CCoins.CCoins.IsPruned | src/coins.h:279-285 | true exactly if no output is left |
| CCoins.CCoins.CalcMaskSize | src/coins.cpp:16-33 | the mask up to its last byte that is not zero, and the number of bytes that are not zero |
| CCoins.CCoins.Serialize | src/coins.h:199-227 | the bytes of coins; the assertion that something is left to write holds |
| CCoins.CCoins.Unserialize | src/coins.h:229-263 | on every stream the coins that the format says, and the rest of the stream |
| CoinsCodec.MaskBit | src/coins.h:212-219 | a bit of the mask says whether its output is unspent |
| CoinsCodec.MaskRead | src/coins.h:242-253 | reading as many non-zero bytes as were counted reads the whole mask, zero bytes inside it included |
| CoinsCodec.HeaderRead | src/coins.h:201-207 | flags and byte count can be read off the header code |
| CoinsCodec.OutsRead | src/coins.h:254-259 | the outputs come back at their places |
| CoinsCodec.CleanedBack | src/coins.h:262 | cleaning up removes the padding of the mask and nothing else |
| CoinsCodec.RoundTrip | src/coins.h:199-263 | reading what was written gives the coins back and leaves what follows, for all unpruned cleaned coins |
| CoinsCodec.UnchangedIff | src/coins.h:199-263 | exactly which coins come back unchanged |
| CoinsCodec.NegativeVersionIsLost | src/coins.h:208-209 | an input that does not |
| UndoCodec.RecordBack | src/undo.h:35-60 | reading an undo record undoes writing it, up to the sign of the version |
| UndoCodec.RecordUnchangedIff | src/undo.h:35-60 | exactly which undo records come back unchanged |
| UndoCodec.BlockUndoBack | src/main.cpp:2122-2125 | every record that connecting a block leaves is read back as DisconnectBlock uses it |
| VarInt.WriteVarInt | src/serialize.h:398-413 | the code of a number; its buffer is never too short |
| VarInt.ReadVarInt | src/serialize.h:415-428 | on every stream the number the format says |
| VarInt.ReadCode | src/serialize.h:361-428 | a code read from any stream it starts gives its number and the rest |
| VarInt.CodeOfNegative | src/serialize.h:398-413 | a negative number has the code of its last seven bits |
| VarInt.CodeFormula | src/serialize.h:361-383 | the code is the documented one: digits in base 128, one subtracted from all but the last, the high bit in all but the last |
| Compressor.CompressAmount | src/compressor.cpp:137-154 | the three loops compute the compressed amount modulo 2^64 |
| Compressor.DecompressAmount | src/compressor.cpp:156-180 | and its inverse modulo 2^64 |
| Compressor.DecompressCompress | src/compressor.cpp:137-180 | decompressing undoes compressing for every amount |
| Compressor.CompressDecompress | src/compressor.cpp:137-180 | compressing undoes decompressing for every number |
| Compressor.CompressFits | src/compressor.cpp:137-154 | amounts up to a tenth of the 64-bit range, and so all money, compress without overflow |
| Compressor.CompressFormula | src/compressor.cpp:128-135 | the compressed amount is the documented one, for less than nine zeros |
| Compressor.CompressBillions | src/compressor.cpp:128-135 | and for nine or more |
| Compressor.ScriptBack | src/compressor.cpp:43-126 | every special script is what its compact form decompresses to |
| Compressor.ScriptRoundTrip | src/compressor.h:69-96 | every script comes back from its stream form, special or not |
| Compressor.TxOutRoundTrip | src/compressor.h:99-127 | every output in money range comes back |
| AddrTables.SwapRandomOk | src/addrman.cpp:101-119 | a swap keeps vRandom and the positions in step |
| AddrTables.DeleteOk | src/addrman.cpp:121-133 | deleting an entry without references keeps the invariant of Check_ |
| AddrTables.CreateOk | src/addrman.cpp:89-99 | so does a new entry, up to the reference and the count it still lacks |
| AddrTables.ReleaseOk | src/addrman.cpp:139-143 | taking an entry out of a slot: the reference count stays the number of slots |
| AddrTables.PlaceOk | src/addrman.cpp:302-305 | putting an entry into a slot likewise |
| AddrTables.UntryOk | src/addrman.cpp:175-178 | taking an entry out of the tried table |
| AddrTables.TryOk | src/addrman.cpp:193-195 | moving an entry into it |
| AddrTables.NoSlotLeft | src/addrman.cpp:152-162 | an entry that is in none of its slots has no reference: the assertion of MakeTried holds |
| AddrTables.CountsAddUp | src/addrman.cpp:379-380 | vRandom has nTried + nNew entries |
| AddrMan.CAddrMan.Find | src/addrman.cpp:76-87 | the id of a known address |
| AddrMan.CAddrMan.SwapRandomPos | src/addrman.cpp:101-119 | its assertions hold and it swaps |
| AddrMan.CAddrMan.DeleteEntry | src/addrman.cpp:121-133 | exactly one entry goes |
| AddrMan.CAddrMan.ClearNew | src/addrman.cpp:135-148 | the slot is empty; its entry is deleted only with its last reference; all others stay |
| AddrMan.CAddrMan.UnlinkAll | src/addrman.cpp:152-162 | the loop over all buckets takes an entry out of every slot it is in |
| AddrMan.CAddrMan.Settle | src/addrman.cpp:180-189 | an entry in no table takes its place in the new table, and at most its occupant is lost |
| AddrMan.CAddrMan.Evict | src/addrman.cpp:168-191 | the entry in the way goes back to the new table and takes the place of at most one other |
| AddrMan.CAddrMan.MakeTried | src/addrman.cpp:150-196 | the entry is tried, and what became of every other entry; all four assertions hold |
| AddrMan.CAddrMan.FindBucket | src/addrman.cpp:224-239 | the search for a bucket always succeeds: the exit for a missing bucket is unreachable |
| AddrMan.CAddrMan.Good | src/addrman.cpp:198-245 | a peer known under the same port ends up tried; anything else changes nothing |
| AddrMan.CAddrMan.Refresh | src/addrman.cpp:256-264 | the new time and services of a known entry |
| AddrMan.CAddrMan.WantsMore | src/addrman.cpp:266-283 | what must hold for a known entry to get another reference |
| AddrMan.CAddrMan.Seat | src/addrman.cpp:291-311 | exactly when an entry takes its slot, and that at most the slot's occupant or the entry itself is lost |
| AddrMan.CAddrMan.Add | src/addrman.cpp:247-313 | the invariant is kept; true exactly for a routable unknown address; the whole effect |
| AddrMan.CAddrMan.Attempt | src/addrman.cpp:315-332 | only the entry's attempts and last try change; what Check_ tests still holds if and only if the peer is unknown or the time is not negative |
| AddrMan.CAddrMan.Connected | src/addrman.cpp:472-490 | only the entry's time changes, at most every twenty minutes |
| AddrMan.CAddrMan.GetAddr | src/addrman.cpp:451-470 | distinct entries that are not terrible, at most 23 in a hundred and 2500; all of them if that many are not reached |
| AddrMan.TerribleIff | src/addrman.cpp:34-52 | exactly which entries are terrible |
| AddrMan.SearchedAll | src/addrman.cpp:224-234 | a wrapped search sees every bucket |
| AddrFile.Serialize | src/addrman.h:275-323 | the stream of an address manager; the assertions on the counts hold |
| AddrFile.OrderAll | src/addrman.h:289-308 | every entry is saved once, new ones before tried ones, in the order of their ids |
| AddrFile.Unserialize | src/addrman.h:325-421 | read into a fresh object, a saved address manager has all its entries and the same tables up to the numbering of entries, and satisfies the invariant |
| AddrFile.TakeTried | src/addrman.h:366-385 | no tried entry is lost to a collision |
| AddrFile.TakeIndex | src/addrman.h:387-403 | every saved reference is taken |
| AddrFile.TriedOne | src/addrman.h:366-385 | the tried table, which is not saved, comes back from the entries |
| AddrFile.FinishState | src/addrman.h:405-421 | every new entry has its references back, so that nothing is pruned |
| Limbs.ValBound | src/arith_uint256.h:27-32 | a number of w limbs is below 2^(32 w) |
| Limbs.LeftValue | src/arith_uint256.cpp:57-72 | limbs put together from two neighbours are the number shifted left, modulo 2^BITS |
| Limbs.RightValue | src/arith_uint256.cpp:74-89 | and shifted right, rounded down |
| Limbs.Decides | src/arith_uint256.cpp:145-155 | the highest limb that differs decides a comparison |
| Limbs.HighestBit | src/arith_uint256.cpp:195-208 | the highest bit of the highest limb that is not zero is the highest bit |
| Limbs.SetBit | src/arith_uint256.cpp:134-137 | setting a quotient bit below which all are zero adds its power of two |
| ArithUint.BaseUint.Assign64 | src/arith_uint256.h:91-98 | the value is the 64-bit number |
| ArithUint.BaseUint.GetLow64 | src/arith_uint256.h:267-271 | the value modulo 2^64 |
| ArithUint.BaseUint.AddAssign | src/arith_uint256.h:138-147 | addition modulo 2^BITS, also of a number to itself; the accumulator does not overflow |
| ArithUint.BaseUint.Complement | src/arith_uint256.h:72-78 | 2^BITS - 1 minus the value |
| ArithUint.BaseUint.Negate | src/arith_uint256.h:80-87 | the negative modulo 2^BITS |
| ArithUint.BaseUint.SubAssign | src/arith_uint256.h:149-153 | subtraction modulo 2^BITS |
| ArithUint.BaseUint.Increment | src/arith_uint256.h:175-182 | plus one modulo 2^BITS |
| ArithUint.BaseUint.Decrement | src/arith_uint256.h:192-199 | minus one modulo 2^BITS |
| ArithUint.BaseUint.MulAssign32 | src/arith_uint256.cpp:91-101 | multiplication by one limb modulo 2^BITS; the accumulator does not overflow |
| ArithUint.BaseUint.AddRow | src/arith_uint256.cpp:108-115 | one row of the schoolbook multiplication |
| ArithUint.BaseUint.MulAssign | src/arith_uint256.cpp:103-117 | multiplication modulo 2^BITS by another number; zero if a number is multiplied by itself; the 64-bit accumulator never overflows |
| ArithUint.BaseUint.ShiftLeft | src/arith_uint256.cpp:57-72 | multiplication by a power of two modulo 2^BITS, for every shift |
| ArithUint.BaseUint.ShiftRight | src/arith_uint256.cpp:74-89 | division by a power of two, for every shift |
| ArithUint.BaseUint.CompareTo | src/arith_uint256.cpp:145-155 | the order of the numbers |
| ArithUint.BaseUint.NumBits | src/arith_uint256.cpp:195-208 | the position of the highest bit plus one |
| ArithUint.BaseUint.DivAssign | src/arith_uint256.cpp:119-143 | the exact floor quotient for every divisor but zero, which is refused |
| Compact.OverflowIff | src/arith_uint256.cpp:258-260 | the three tests say exactly that mantissa * 256^(size - 3) reaches 2^256 |
| Compact.SetCompact | src/arith_uint256.cpp:244-262 | the number of a compact form, exact unless the overflow flag is set; when either flag is set |
| Compact.GetCompact | src/arith_uint256.cpp:264-285 | the compact form of a number; both assertions hold |
| Compact.RoundTrip | src/arith_uint256.cpp:242-285 | for every number the form rounds down and loses less than one part in 2^15 |
| Compact.Idempotent | src/arith_uint256.cpp:242-285 | writing what was read back gives the same form |
| Radix.DigitsOfNum | src/base58.cpp:56-64 | digits without leading zeros are those of their number |
| Radix.Fits | src/base58.cpp:33-34 | how many digits of one base fit into how many of another |
| Base58.BuffersSuffice | src/base58.cpp:33-104 | 733/1000 and 138/100 of the length plus one are always enough digits |
| Base58.Alphanumeric | src/base58.cpp:19-20 | the digits are all alphanumeric characters except for 0, I, O and l |
| Base58.MulAdd | src/base58.cpp:41-48 | the inner loop multiplies and adds in place |
| Base58.ToBase58 | src/base58.cpp:91-104 | the buffer holds the number of the bytes; carry is always 0 |
| Base58.ReadDigits | src/base58.cpp:33-50 | exactly when a word is not decoded, and the buffer holds its number; carry is always 0 |
| Base58.EncodeBase58 | src/base58.cpp:83-116 | the encoded string |
| Base58.DecodeBase58 | src/base58.cpp:22-66 | the decoded bytes, or that the string is invalid |
| Base58.DecodeEncode | src/base58.cpp:22-116 | decoding undoes encoding for every byte string, leading zeros included |
| Base58.EncodeDecode | src/base58.cpp:22-116 | encoding undoes decoding for every string of digits, leading ones included |
| Base58.PaddingIgnored | src/base58.cpp:24-55 | spaces around the digits do not matter |
| Base58.DecodedShape | src/base58.cpp:24-55 | nothing else decodes |

## Left out

Restrictions of what is modelled:

- A failure with `CorruptionPossible` (src/main.cpp:1978) is not recorded as failed, so the same block would be tried again; `ConnectBlock`'s verdict is a fixed function of the block that accepts, rejects for good, or stands for a system error.
- The state starts after genesis was connected; `InvalidateBlock`, `ReconsiderBlock`, `DisconnectBlocksAndReprocess` and the recovery in `LoadBlockIndexDB` change the tip or the failure marks outside the main protocol.
- The branch of `FindMostWorkChain` for missing data belongs to pruned nodes; here every linked block has its data, and the model asserts that the branch is not taken.
- ChainState.CChainState.AcceptBlockHeader: a header that is accepted has a proof of at least one. `AcceptBlock` checks its difficulty bits before (`CheckWork`, src/main.cpp:3350-3373, called at 3486); for headers announced by themselves (src/main.cpp:5198) it is an assumption.
- Work, heights, amounts, times and sequence ids are unbounded integers, except where a module says how many bits it has.
- Block index entries are immutable values with their parents inside; their flags and counters are maps and sets beside them. Two entries are the same only if their whole chains are.
- Transaction ids are fresh, as the 'Specification' section of BIP 30 demands: the source checks this only for blocks without a hash (src/main.cpp:2279), so `CCoinState.ConnectTip` requires it.
- ChainState.CChainState.ActivateBestChain: the periodic write to disk after a success (src/main.cpp:2940-2942) is not modelled.
- CoinsCache.WrittenIsOverlay: the database keeps coins as values and returns them unchanged; in the source a coin that was flushed to it and is read back has lost the sign of a negative version (`CoinsCodec.UnchangedIff`).
- ChainState.CChainState.ProcessNewBlock: whether the block's signature is good, and whether CheckBlock accepts it, are parameters; a block below an unknown parent is turned away.
- CoinState.CCoinState.ConnectTip: script checks, rewards and the other outcomes of `ConnectBlock` that do not concern coins are one parameter.
- `CScript::IsUnspendable` is a leading OP_RETURN; nHeight of coins that are undone is at least 1, because an undo record signals its metadata by a non-zero height (src/main.cpp:2166).
- `fQuit` of the check queue is never set by the source and is not modelled; a thrown exception inside a check is not either.
- AddrFile.Unserialize: reads streams that `Serialize` wrote, into a fresh object; other versions, other bucket counts and damaged streams are not modelled, and `Clear` leaves two maps alone when an object is used again.
- AddrMan.CAddrMan.WantsMore: the outcome of the random test is arbitrary, so only what must hold for a success is stated.
- `Select_` and `GetChance` of the address manager compute with floating point and draw random slots until one is full.
- AddrMan.CAddrMan.Good: the time must be positive, as `Check_` demands of the stored times of tried entries.
- Compressor.ScriptRoundTrip: public-key decompression is assumed to undo compression for valid keys; the curve itself is not modelled.
- CoinsCodec.RoundTrip: at most 2^30 outputs and amounts up to a tenth of the 64-bit range, which every block and all money respect; the memory-only field nRounds is read as that of a new output.
- `getdouble`, hexadecimal conversion and the bitwise operators of the large integers.
- Download.CNodes.FindNextBlocksToDownload: the vector it appends to is empty, as at its one call.
- MedianTime.GetMedianTimePast: std::sort is an insertion sort, proved to sort and to permute.
- Base58.DecodeBase58: characters beyond ASCII, for which the source's isspace is undefined, count as no space; Base58Check and its checksum are not modelled.

Not modelled, because it would add only plumbing or easy members: message handling and peers, RPC, initialisation and command
line, the databases, scripts, signatures, hashing and wallets, stake modifiers, masternodes and budgets, fees and priority, bloom
filters, limited maps and locked pages.

# A verified model of the node's core

This project models the stateful and arithmetic cores of a Bitcoin-derived node in Dafny and proves
what they promise, for every input and every run.

| files | what they model |
|---|---|
| `CoinModel`, `CoinsCache`, `CoinsUpdate`, `CoinsStack` | the write-back cache of unspent coins over a database or another cache, with DIRTY and FRESH flags, and the update of a view by a transaction |
| `AddrTables`, `AddrMoves`, `AddrCheck`, `AddrMan`, `AddrFile`, `AddrSound`, `AddrLoad`, `AddrRestart` | the address manager's five redundant structures, its self-check, and its file |
| `CheckQueue`, `CheckProgress` | the queue of checks shared by a master and any number of workers, as atomic steps between which anything may interleave |
| `MessageStream`, `Peers` | message framing, the send queue and incremental receipt |
| `Merkle`, `PartialMerkleTree`, `FlagBits` | proofs that transactions are in a block ("Partial Merkle branch format" of BIP 37) |
| `BlockLinking` | linking blocks that arrive in any order into chains with complete data |
| `BlockDownload`, `NextBlocks`, `DownloadManager` | which block is requested from which peer |
| `Limbs`, `ArithUint256`, `Compact`, `ProofOfWork`, `TargetChains` | 256-bit arithmetic in 32-bit limbs, compact targets, work, retargeting and chains of targets on the networks there are |
| `Radix`, `Base58` | base 58 texts of byte strings |
| `Bloom` | Bloom filters and the rolling pair of them |
| `MapSums`, `FiniteSets`, `Sequences`, `Bytes`, `ByteBits` | sums over maps, finite sets, sequences without repetition, bytes and bits |

Objects that the source updates in place are classes or arrays with loops, proved against functions on
values; what is promised of whole runs is proved of those functions and of the class invariants.

What the model takes as given: hash functions are arbitrary functions (for Merkle proofs, an injective
one is a hypothesis of the theorems that need it); random draws, clock readings, results of `send` and
scheduling are parameters, so the proofs hold for all of them; the coin database is a map.
The service flags of an address are the set of the numbers of its bits.
Masks and shifts by constants are written as remainders and quotients, and `|=` on limbs as a bitwise or
on numbers, proved to be addition where bits do not meet.

## Where the code does less than one might expect

* `AddCoin` without a possible overwrite decides on FRESH from the cached entry alone. If the base
  has an unspent coin that is not cached, the flag is wrong and the old coin can come back
  (`CoinModel.HiddenCoinComesBack`); it is right exactly when there is no such coin
  (`CoinModel.AddKeepsFlagsIff`, `CoinsCache.CoinsViewCache.AddCoin`; `CoinsCache.HiddenCoinReplaced`
  is an input).
* When `AddCoin` throws, the old coin's memory usage has already been deducted, so the accounting is
  wrong unless that was zero (`CoinsCache.ThrowLosesUsage`).
* `Flush` of a cache that never had a best block of its own overwrites the parent's with the null hash;
  `CoinsCache.CoinsViewCache.Flush` says exactly when the best block is kept, and
  `CoinsCache.FlushForgetsBest` is an input on which it is not.
* `Trim` keeps its height step in a variable that all caches share; here it is a parameter and a result.
* `Add_` of the address manager returns true for every unknown routable address, also when the entry is
  dropped again at once (`AddrMan.AcceptedButNotStored`); it is stored exactly if its slot was free or can
  be taken over (`AddrMan.AddrManager.Add`).
* The address manager's tables never depend on times, but its self-check does: it passes exactly if the
  times on record make sense, which they do unless a success came at time zero or earlier or an attempt
  before that (`AddrMan.AddrManager.RunAndCheck`).
* Loading the address manager's file does not look for repeated addresses. With one, the file is still
  loaded, but an address may lead to another entry or to none (`AddrRestart.LoadedButInvalid`);
  `AddrRestart.Unserialize` says exactly when. With a negative count the counts are wrong.
* The workers' quit flag of the check queue is never set, so workers never leave.
* Recording a block that is empty, that has come before and has another linked on it, or that comes before
  its parent and is filed twice or not at all, leaves the bookkeeping wrong
  (`BlockLinking.EmptyReceived`, `BlockLinking.ReceivedAgain`, `BlockLinking.FiledTwice`,
  `BlockLinking.NotFiled`); `BlockLinking.BlockMap.ReceivedBlockTransactions` keeps it in all other cases.
* In retargeting, a negative spacing counts as 1 but a spacing of 0 as 0
  (`ProofOfWork.NegativeSpacingIsNotLess`). The factor goes through a 32-bit parameter and wraps there
  when it is negative (`ProofOfWork.FactorBounds`, `ProofOfWork.NegativeFactorRaises`), and the product
  wraps at 256 bits when the limit is too high (`ProofOfWork.HighLimitDrifts`). Neither happens on any of
  the three networks there are: the test and regression networks have the high limit but never retarget,
  and the main network's constants rule both out (`TargetChains.NothingWrapsAnywhere`).
* Multiplying a 256-bit number by itself in place gives zero (`ArithUint256.MulAssign`).
* The documented bound of 2N-1 flag bits for Merkle proofs is exceeded at odd edges
  (`FlagBits.OneBitTooMany`); it holds exactly when no such edge has a match (`FlagBits.BitsWithinBoundIff`).
  The documented bounds on hashes hold (`PartialMerkleTree.ProofSize`).

## Model

| member | source | states |
|---|---|---|
| CoinModel.LookupMeaning | src/coins.cpp:92-129 | what a lookup through the cache answers is the coin of the visible unspent set, whether the entry is cached or must come from below |
| CoinModel.FetchKeeps | src/coins.cpp:92-117 | caching a coin fetched from below (marking a spent one FRESH) keeps the flag invariant and changes nothing that is visible |
| CoinModel.AddKeepsFlagsIff | src/coins.cpp:131-159 | the FRESH flag that AddCoin sets keeps the invariant if and only if overwriting was declared possible or the base hides no unspent coin at that outpoint |
| CoinModel.HiddenCoinComesBack | src/coins.cpp:131-195 | the inputs on which it does not: adding over an uncached base coin sets FRESH, and spending the new coin brings the old one back |
| CoinModel.NotVisibleNotHidden | src/coins.cpp:131-159 | a caller that adds only where nothing is visible always meets that condition |
| CoinModel.SpendRemoves | src/coins.cpp:175-195 | spending removes exactly one outpoint from the visible set, whether the entry is erased (FRESH) or cleared (otherwise), and keeps the flags right |
| CoinModel.SpendUsage | src/coins.cpp:175-195 | the summed memory usage of the entries falls by the spent coin's usage, a cleared coin counting zero |
| CoinModel.CoinUsageIs | src/memusage.h:69-84 | a coin takes nothing for a script of up to 28 bytes, and for a longer one the least multiple of 16 that holds it and 16 bytes more |
| CoinModel.MergeStep | src/coins.cpp:241-314 | merging one dirty child entry into a parent writes that coin through in the parent's view, keeps the parent's flags right relative to its own base, and cannot meet the misapplied-FRESH throw |
| CoinModel.MergeUsage | src/coins.cpp:241-314 | how the parent's usage sum changes in each branch of the merge |
| CoinModel.WriteThroughDrop | src/coins.cpp:241-314 | a child entry may be dropped once its coin has been written below: the child's view stays |
| CoinModel.WriteThroughKeep | src/coins.cpp:241-314 | an unspent child entry may be kept as a clean one once its coin has been written below |
| CoinModel.CleanOverlay | src/coins.cpp:316-321 | a cache without dirty entries shows exactly what lies below it |
| CoinModel.DropUnflagged | src/coins.cpp:323-445 | dropping an unmodified entry changes nothing that is visible |
| CoinsCache.CoinsViewDB.GetCoin | src/txdb.cpp:79 | the database is a map of unspent coins |
| CoinsCache.CoinsViewDB.BatchWrite | src/txdb.cpp:89-143 | writing a child's entries makes the stored map the child's view; spent entries leave the child with their usage, unspent ones stay in it clean; the best block is written unless it is null |
| CoinsCache.CoinsViewCache.GetCoinBelow | src/coins.cpp:49-51 | a request passed to the level below answers from that level's view and changes no level's view |
| CoinsCache.CoinsViewCache.FetchCoin | src/coins.cpp:92-117 | the entry is cached if there is one anywhere below; no view at any level of the stack changes |
| CoinsCache.CoinsViewCache.GetCoin | src/coins.cpp:119-129 | returns the visible coin at every depth of the stack |
| CoinsCache.CoinsViewCache.AccessCoin | src/coins.cpp:199-211 | returns the visible coin, or the empty one |
| CoinsCache.CoinsViewCache.HaveCoin | src/coins.cpp:213-218 | true exactly when an unspent coin is visible |
| CoinsCache.CoinsViewCache.GetBestBlock | src/coins.cpp:227-233 | the first non-null best block going down; caching it changes nothing visible |
| CoinsCache.CoinsViewCache.SetBestBlock | src/coins.cpp:235-239 | sets the best block; the null hash makes the one below show again; no view changes |
| CoinsCache.CoinsViewCache.AddCoin | src/coins.cpp:131-159 | throws exactly when the cache itself holds an unspent coin there and overwriting was excluded, after that coin's usage has been deducted, so the cache is still valid if and only if the usage was zero; otherwise the view gains the coin, and the cache is valid if and only if overwriting was possible or no coin below was hidden; unspendable outputs change nothing |
| CoinsCache.CoinsViewCache.SpendCoin | src/coins.cpp:175-195 | removes the coin from this level's view, hands it out, leaves every other level's view alone |
| CoinsCache.CoinsViewCache.Uncache | src/coins.cpp:434-445 | drops an unmodified entry; the view stays |
| CoinsCache.CoinsViewCache.BatchWrite | src/coins.cpp:241-314 | the parent's view becomes the child's, its invariant and usage sum stay exact, the child keeps its clean entries with their exact usage |
| CoinsCache.CoinsViewCache.MergeEntry | src/coins.cpp:241-314 | one turn of that loop |
| CoinsCache.CoinsViewCache.Flush | src/coins.cpp:316-321 | the level below shows the cache's old view, the cache still shows it, nothing stays dirty; which best block the level below then has, and that it is the cache's if and only if this cache has one of its own, or the base is the database, or the parent's is its base's |
| CoinsCache.CoinsViewCache.TrimPass | src/coins.cpp:323-445 | one pass drops only unmodified entries below the height and ends within the target or with none of those left; nothing is dropped if the target was met before |
| CoinsCache.CoinsViewCache.UsageIs | src/coins.cpp:71-75 | the usage reported is that of nodes, buckets and all coins |
| CoinsCache.CoinsViewCache.Trim | src/coins.cpp:323-445 | terminates although it re-adjusts its height, keeps the view, and ends within the target or with only modified entries; the step it leaves for the next call is the one it came with after so many moves, and 50 more, up to the tip's height, if nothing was erased; unless the first height wraps, an entry above the last trim height goes only when no unmodified one is left below it |
| CoinsCache.ThrowLosesUsage | src/coins.cpp:140-150 | an input on which the throw leaves the accounting wrong: a 29-byte script added twice |
| CoinsCache.HiddenCoinReplaced | src/coins.cpp:131-159 | an input on which a coin below is replaced without a throw and the cache is not valid |
| CoinsCache.FlushForgetsBest | src/coins.cpp:241-321 | a flush after which the parent's best block is the null hash although one had been set |
| CoinsUpdate.SpendAllIsDifference | src/main.cpp:918-932 | spending the inputs one after the other is set difference |
| CoinsUpdate.SpentCoinsExact | src/main.cpp:918-932 | the undo record holds the removed coins in input order |
| CoinsUpdate.OutputsMeaning | src/coins.cpp:161-173 | the coins added are exactly the spendable outputs, under the transaction's id |
| CoinsUpdate.OutputsMinted | src/coins.cpp:161-173 | field by field: each coin added has its output, the height and the transaction's time, and is marked as a coinbase's or a stake's exactly if the transaction is one; outputs that begin with OP_RETURN add nothing |
| CoinsUpdate.AddCoins | src/coins.cpp:161-173 | the view gains exactly the spendable outputs, each with its output, height, time and marks field by field |
| CoinsUpdate.UpdateCoins | src/main.cpp:918-932 | the view becomes (view minus inputs) plus spendable outputs, and the undo record the spent coins; every new coin is stated field by field |
| CoinsUpdate.ValueConserved | src/main.cpp:918-932 | total unspent value changes by spendable outputs minus inputs |
| CoinsUpdate.UndoRecoversView | src/main.cpp:918-932 | removing the outputs and putting the undo record back gives the old view |
| CoinsStack.PushCache | src/coins.cpp:67-69 | a new cache on top shows what the level under it shows |
| CoinsStack.FlushAt | src/coins.cpp:316-321 | flushing any level of a stack of any depth is the flat step of copying its map one level down |
| CoinsStack.PopCache | src/coins.cpp:67-69 | discarding the top cache discards its map only |
| CoinsStack.Replay | src/coins.cpp:92-445 | for every legal run of reads, adds, spends, uncaches, trims, flushes and new caches over any depth, each cache shows what a plain map under the same operations holds |
| AddrTables.ClearSlot | src/addrman.cpp:153-168 | emptying a slot takes one reference off its entry, the rest of the tables stays in agreement |
| AddrTables.FillSlot | src/addrman.cpp:277-360 | filling a free slot adds one reference, the count stays equal to the slots held |
| AddrTables.Evict | src/addrman.cpp:190-214 | taking an entry out of its tried slot leaves it referenced from nowhere and everything else in place |
| AddrTables.Promote | src/addrman.cpp:215-219 | an unreferenced entry enters its own free tried slot |
| AddrTables.SwapKeepsIndex | src/addrman.cpp:119-137 | swapping two positions keeps vRandom and the entries inverse to one another |
| AddrTables.RemoveLastKeepsIndex | src/addrman.cpp:139-151 | removing the last position keeps all three indexes |
| AddrTables.KeptStats | src/addrman.cpp:444-529 | statistics stay sane exactly when those of the entries that changed are |
| AddrMoves.MadeTriedStats | src/addrman.cpp:170-220 | moving an entry to the tried table keeps statistics sane exactly if it has had a success |
| AddrMoves.EnteredBySteps | src/addrman.cpp:324-358 | creating and placing an entry is storing it, with one reference, exactly if its slot was free or could be taken over |
| AddrMoves.ReannouncedBySteps | src/addrman.cpp:292-358 | refreshing and perhaps placing a known entry gives it one more reference exactly if it is eligible and the slot can be had |
| AddrMoves.DrawingStep | src/addrman.cpp:537-549 | each draw adds one to the addresses offered exactly if the entry drawn is not terrible at that moment |
| AddrMoves.OneReading | src/addrman.cpp:537-549 | if the clock stands still, the draws together meet each entry that is not terrible exactly once, whatever the order |
| AddrMoves.TerribleIs | src/addrman.cpp:53-76 | exactly when an entry is terrible, in seconds and attempts |
| AddrMoves.NoBetterByFailing | src/addrman.cpp:53-76 | more failures never make a terrible entry acceptable, and one that answered within a minute is never terrible |
| AddrCheck.Check | src/addrman.cpp:444-529 | the self-check returns 0 if and only if all indexes, counts, slots and references agree; any other code names what is wrong, entry by entry and slot by slot |
| AddrMan.AddrManager.constructor | src/addrman.h:512-538 | a new manager is empty and in agreement |
| AddrMan.AddrManager.Find | src/addrman.cpp:94-105 | finds the entry of an address exactly when there is one |
| AddrMan.AddrManager.Create | src/addrman.cpp:107-117 | appends an entry under the next id, not yet in any bucket |
| AddrMan.AddrManager.SwapRandom | src/addrman.cpp:119-137 | exchanges two positions; its assertions hold |
| AddrMan.AddrManager.Delete | src/addrman.cpp:139-151 | removes exactly one unreferenced entry; its assertions hold |
| AddrMan.AddrManager.ClearNew | src/addrman.cpp:153-168 | empties one slot and drops its entry exactly when that was the last reference |
| AddrMan.AddrManager.MakeTried | src/addrman.cpp:170-220 | the entry has left all its new slots and holds its tried slot; whoever held that is a new entry again, with one reference, in the slot its source gives it; the occupant of that slot loses a reference, and is lost exactly if it was the last; no other entry or slot changes; no assertion fails |
| AddrMan.AddrManager.Good | src/addrman.cpp:222-275 | a known address gets fresh statistics and, if it was not tried, moves to the tried table as MakeTried says, everybody else as there; an unknown one changes nothing; statistics stay sane if and only if the time is positive; its record afterwards is stated field by field |
| AddrMan.AddrManager.FindNewBucket | src/addrman.cpp:252-269 | the search from a random bucket always finds one that holds the entry |
| AddrMan.AddrManager.Update | src/addrman.cpp:294-301 | what an announcement makes of a known entry, field by field: services are those of either side, the time moves exactly if none was on record or it is old enough, and nothing else changes |
| AddrMan.AddrManager.Refresh | src/addrman.cpp:292-322 | the update of a known entry, and exactly when it may gain another reference |
| AddrMan.AddrManager.Place | src/addrman.cpp:331-358 | exactly when the slot is taken over, who loses a reference and who is dropped |
| AddrMan.AddrManager.Add | src/addrman.cpp:277-360 | a known address is refreshed and has one more reference exactly if eligible and the slot can be had; an unknown one is stored with time and source, and one reference, exactly if its slot was free or can be taken over, and true is returned either way; what other entries say stays, the new table changes in that slot only, and whoever is lost was on its last reference and terrible; the entry afterwards is stated field by field, for a known address and for a new one |
| AddrMan.AddrManager.Attempt | src/addrman.cpp:362-384 | only the statistics of exactly that address change, and stay sane if and only if the time is not negative |
| AddrMan.AddrManager.Connected | src/addrman.cpp:553-572 | only the time of exactly that address changes, at most every 20 minutes |
| AddrMan.AddrManager.SetServices | src/addrman.cpp:574-591 | only the service bits of exactly that address change |
| AddrMan.AddrManager.GetAddr | src/addrman.cpp:531-551 | with a reading of the clock for every draw: exactly as many addresses as the smallest of 2500, 23 percent of the entries and the number of entries that are not terrible when drawn; of different entries, each not terrible when it was drawn; only the order of vRandom changes |
| AddrMan.AddrManager.ValidAgrees | src/addrman.cpp:444-529 | under the invariant the self-check passes if and only if the statistics are sane |
| AddrMan.AddrManager.RunAndCheck | src/addrman.cpp:107-591 | after every run of operations, whatever the random draws and clock readings, the structures agree, and the self-check returns 0 if and only if the statistics are sane, which they are if no clock was before the epoch |
| AddrMan.AcceptedButNotStored | src/addrman.cpp:324-358 | an input on which an address is reported as new and not stored |
| AddrFile.IdsComplete | src/addrman.h:336-350 | an entry's place in the file is the number of entries of its kind before it |
| AddrFile.Serialize | src/addrman.h:323-380 | the file holds the new entries, then the tried ones, in order of id, and each bucket's entries by their place; neither count assertion fails; each entry of the file has the six saved fields of the entry it stands for |
| AddrFile.Flip30Is | src/addrman.h:333-335 | writing and reading the number of buckets inverts bit 30 and no other |
| AddrSound.NewRead | src/addrman.h:415-437 | reading a new entry, whatever file it is from, keeps tables and counts in agreement, and each address leads to the last entry about it |
| AddrSound.TriedRead | src/addrman.h:439-461 | so does reading a tried entry whose slot is free; it is the first for that slot |
| AddrSound.SlotRead | src/addrman.h:464-485 | so does giving a free slot to an entry with room for a reference |
| AddrSound.FirstSkipped | src/addrman.h:444-461 | a tried entry whose slot is taken is not the first for it, so each tried slot holds the first entry for it |
| AddrSound.PrunePosition | src/addrman.h:487-503 | dropping an entry meets no failing assertion, whatever the file was |
| AddrSound.PruneKeeps | src/addrman.h:487-503 | dropping an entry that got no slot keeps tables and counts in agreement, and its address leads nowhere from then on |
| AddrSound.IndexedIfUnshared | src/addrman.h:415-503 | the index of addresses is right exactly if no entry kept is about the same address as another one, kept or dropped |
| AddrSound.DistinctUnshared | src/addrman.h:415-503 | which is so if no address is in the file twice |
| AddrSound.TwoPortsShare | src/addrman.h:439-461 | and is not so if two tried entries about one address are each the first for its slot |
| AddrLoad.NewEntry | src/addrman.h:415-437 | reading the next new entry extends all indexes |
| AddrLoad.TriedEntry | src/addrman.h:439-461 | the next tried entry finds its own slot empty |
| AddrLoad.BucketIndex | src/addrman.h:464-485 | each index finds its entry's slot empty and room for the reference |
| AddrLoad.AllBack | src/addrman.h:383-510 | when everything has been read, every entry, slot and reference of the saved manager is back under a new number, with all six saved fields as they were and no attempt on record |
| AddrRestart.WithinLimits | src/addrman.h:405-413 | the counts of a manager in agreement never exceed the limits the reader enforces |
| AddrRestart.Unserialize | src/addrman.h:383-510 | loading what was saved succeeds, loses nothing and restores key, counts, slots and references up to the numbering, in agreement again; a file is refused exactly for its header or length; any other with counts that are not negative gives a manager that knows nothing but what the file says and whose positions, tables and counts agree; all structures agree exactly if, besides, no entry kept shares its address with another one of the file that was kept or dropped, and in particular if no address is in the file twice |
| AddrRestart.LoadedButInvalid | src/addrman.h:383-510 | an input: a file with two tried ports of one address is loaded, and the index of addresses is wrong |
| AddrRestart.Restart | src/addrman.h:323-510 | saving and loading a manager gives one that is equal up to the numbering, with sane statistics if they were; service, flags, time, source, last success and attempts of every entry are as before |
| CheckQueue.ProceedBooks | src/checkqueue.h:108-141 | taking a batch off the queue loses and invents no check, and a batch holds at least one check and no more than the limit, or one if the limit is lower |
| CheckQueue.BatchIs | src/checkqueue.h:126-132 | a batch is the largest number of checks up to the limit of which every counted thread and one more could have as many, but at least one |
| CheckQueue.WokenAre | src/checkqueue.h:93-101 | who is woken: the sleeping master exactly by a worker that hands in the last checks, a sleeping worker exactly by an addition that notifies it |
| CheckQueue.StepKeeps | src/checkqueue.h:83-182 | every atomic step of any thread keeps the invariant: nTodo is queued plus in-hand checks, the result flag accounts for every finished check, nIdle and nTotal count threads |
| CheckQueue.RunInv | src/checkqueue.h:83-182 | the invariant holds in every state of every run, for any number of workers, any interleaving and spurious wake-ups |
| CheckQueue.WaitIsRight | src/checkqueue.h:83-160 | whenever Wait returns, it returns whether every check added since the last return succeeded |
| CheckQueue.HistoryIsWhatWasAdded | src/checkqueue.h:162-175 | those checks are exactly the ones the Add calls brought |
| CheckQueue.NoLostWakeUp | src/checkqueue.h:95-125 | while the master sleeps without a wake-up, some worker has unfinished checks and can take a step |
| CheckQueue.IdleBetweenRounds | src/checkqueue.h:178-205 | between rounds the queue is idle, as the controller asserts |
| CheckProgress.NeverRaised | src/checkqueue.h:83-160 | no step of a worker or the master raises the work left: queued checks, batches in hand and locks to come |
| CheckProgress.SomeoneCanMove | src/checkqueue.h:83-160 | in every reachable state with the master in Wait some thread can take a step that lowers it, without a spurious wake-up |
| CheckProgress.WorkRunsOut | src/checkqueue.h:83-160 | so on any stretch of a run without calls from outside at most as many steps lower it as there was work |
| MessageStream.HeaderSize | src/net.cpp:3187-3193 | the size read back from a header is the payload's |
| MessageStream.HeaderLayout | src/protocol.h:69-76 | a header is the network's four bytes, the command, and size and checksum with the lowest byte first |
| MessageStream.PrefixParses | src/net.cpp:762-824 | complete messages whose bytes begin the wire are the messages sent, header by header and payload by payload |
| MessageStream.SameRaw | src/net.cpp:762-824 | the bytes absorbed by complete messages are those of the messages they equal |
| Peers.ReadHeader | src/net.cpp:857-892 | takes exactly the header bytes that are missing, and refuses a size above the limit |
| Peers.ReadData | src/net.cpp:894-911 | takes at most the bytes that are missing, the buffer grows in bounded steps and keeps what it held |
| Peers.Receiver.ReceiveMsgBytes | src/net.cpp:762-824 | any chunk extends the bytes accounted for by exactly that chunk, or stops at an oversized header; `complete` tells whether a message was completed |
| Peers.TakesAll | src/net.cpp:924-991 | a socket that takes whatever it is offered empties the queue |
| Peers.Sender.SocketSendData | src/net.cpp:924-991 | for any results of send: bytes sent and bytes pending make up the wire, nSendSize is the sum of the queued buffers, nSendOffset stays below the front buffer's length, fPauseSend is exact, and exactly what the socket took has left the queue |
| Peers.Sender.PushMessage | src/net.cpp:3181-3224 | the wire grows by header and payload; something is sent at once only if the queue was empty; the header is laid out as the protocol wants it, and what is queued behind others is exactly header and payload |
| Peers.NeverStops | src/net.cpp:780-795 | a receiver of legitimate messages never meets an oversized header |
| Peers.CompletedIsSent | src/net.cpp:762-824 | the completed messages are a prefix of those sent |
| Peers.CompletedExactly | src/net.cpp:762-824 | of the first n bytes of the wire exactly those messages are completed that are in them as a whole, and all of them when n is the whole wire |
| Peers.Converse | src/net.cpp:762-991 | end to end: for any pushes, any partial writes and any chunking, the receiver's messages are exactly those pushed that are in the delivered bytes as a whole, with identical headers and payloads, and all of them once the queue is sent and delivered; byte by byte, each received header has the network's bytes, the pushed command, and size and checksum lowest byte first |
| Merkle.WidthMeaning | src/merkleblock.h:79 | a node exists exactly when it has a leaf under it |
| Merkle.Children | src/merkleblock.cpp:76-95 | the children of a node split its leaves, with one child at an odd edge |
| Merkle.SiblingsDiffer | src/merkleblock.cpp:154-161 | under an injective hash different nodes of one level have different hashes, so the duplicate-sibling test never hits an honest tree |
| Merkle.ExtractBuild | src/merkleblock.cpp:97-170 | decoding an encoded subtree, whatever follows it, gives its hash and its selected ids and reads exactly its bits and hashes |
| Merkle.ExtractSound | src/merkleblock.cpp:122-170 | whatever the proof holds, if the hash of a subtree comes out right then every id extracted below it is one of its leaves, in order |
| Merkle.HashBounds | src/merkleblock.cpp:97-120 | a subtree stores at most one hash per leaf and at most one more than matches times height |
| Merkle.SelectedCount | src/merkleblock.cpp:97-120 | the matches counted are the ids selected |
| PartialMerkleTree.PackBits | src/merkleblock.h:118-124 | bit p of the bytes is flag p, padding is zero |
| PartialMerkleTree.UnpackBits | src/merkleblock.h:108-116 | flag p is bit p of the bytes |
| PartialMerkleTree.PackRoundTrip | src/merkleblock.h:104-125 | unpacking packed flags gives them back with padding |
| ByteBits.MaskIs | src/merkleblock.h:104-125 | the bit of place p is that of value 2^(p % 8) |
| PartialMerkleTree.Complete | src/merkleblock.cpp:172-221 | for distinct ids within the count limit and any mask, the packed and padded proof yields the Merkle root and exactly the matched ids in order |
| PartialMerkleTree.NothingToSpare | src/merkleblock.cpp:211-220 | a proof that is accepted is refused with another hash, or another byte of bits, behind it |
| PartialMerkleTree.Sound | src/merkleblock.cpp:189-221 | if extraction yields the true root, every extracted id is a transaction of the block, in order, whatever bits and hashes the proof held |
| PartialMerkleTree.ProofSize | src/merkleblock.cpp:97-120 | a proof has at most as many hashes as transactions, and at most one more than matches times tree height |
| FlagBits.BitCount | src/merkleblock.cpp:97-120 | a subtree takes two flag bits per hash less one, plus one for each node descended into that has a single child |
| FlagBits.EdgeSingles | src/merkleblock.cpp:97-120 | there are none of those if and only if no height has an odd number of nodes below it and a match under its last node, and at most one per height |
| FlagBits.BitsWithinBoundIff | src/merkleblock.h:60 | the documented bound of 2N-1 flag bits for N hashes holds if and only if that is so; otherwise it is exceeded by at most the tree's height |
| FlagBits.OneBitTooMany | src/merkleblock.h:60 | an input on which it does not hold: the third of three transactions, with two hashes and four bits |
| PartialMerkleTree.PartialTree.TraverseAndBuild | src/merkleblock.cpp:97-120 | appends the encoding of the subtree |
| PartialMerkleTree.PartialTree.TraverseAndExtract | src/merkleblock.cpp:122-170 | advances over exactly what decoding the subtree reads, and marks the tree bad exactly when decoding fails |
| PartialMerkleTree.PartialTree.ExtractMatches | src/merkleblock.cpp:189-221 | the answer is null unless all limits are respected and all bits (but padding) and hashes are used |
| PartialMerkleTree.ProveAndVerify | src/merkleblock.cpp:172-221 | building, packing, unpacking and extracting returns the root and the matched ids |
| BlockLinking.KeepsPromise | src/main.cpp:1412-1468 | the bookkeeping from parent to child implies, for whole chains: nChainTx is non-zero exactly when the block and all its ancestors are received, is then the sum of nTx along the chain, and exactly the other received blocks are filed under their parents |
| BlockLinking.AncestorsFirst | src/main.cpp:1436-1440 | of two linked blocks on a chain the ancestor has the smaller sequence number |
| BlockLinking.LinkKeeps | src/main.cpp:1433-1457 | one turn of the worklist keeps queue, filing and links in agreement |
| BlockLinking.ReceiveReady | src/main.cpp:1417-1430 | a block whose parent is linked starts the worklist, also a second time as long as nothing has been linked on it |
| BlockLinking.ReceiveEarly | src/main.cpp:1459-1465 | a block that comes before its parent is linked is filed under it |
| BlockLinking.BlockMap.Link | src/main.cpp:1433-1457 | links the front block and queues the blocks filed under it |
| BlockLinking.BlockMap.ReceivedBlockTransactions | src/main.cpp:1412-1468 | the worklist terminates, only the received block's own data is new, and whatever else was linked stays as it was; the invariant holds afterwards if and only if the block is not empty and, with its parent linked, is new or has nothing linked on it, or otherwise is new exactly if the parent is valid |
| BlockLinking.BlockMap.WorkOff | src/main.cpp:1429-1457 | the worklist from one received block on: it ends, and ends in the invariant if it began in it |
| BlockLinking.Unkept | src/main.cpp:1417-1457 | an empty block, or a second receipt of one on which another is linked, leaves counts or numbers wrong |
| BlockLinking.MisfiledEarly | src/main.cpp:1459-1465 | before its parent is linked, a second receipt under a valid parent files a block twice, and a first one under an invalid parent not at all |
| BlockLinking.EmptyReceived | src/main.cpp:1417-1457 | a run: a block without transactions is received, and the bookkeeping is wrong |
| BlockLinking.ReceivedAgain | src/main.cpp:1417-1457 | a run: a block, one on it, and the first again |
| BlockLinking.FiledTwice | src/main.cpp:1459-1465 | a run: a block twice before its parent |
| BlockLinking.NotFiled | src/main.cpp:1459-1465 | a run: a block before a parent that is not valid |
| BlockLinking.Replay | src/main.cpp:1412-1468 | for every sequence of headers and block data in any order, nChainTx and the unlinked blocks are those of the plain definition on the set of arrivals |
| BlockDownload.RequestedOnce | src/messages.cpp:465-484 | no block is in two lists, or twice in one |
| BlockDownload.ReceivedKeeps | src/messages.cpp:273-297 | erasing one list node through its registered iterator keeps register and lists inverse and the per-peer counts exact |
| BlockDownload.RequestedKeeps | src/messages.cpp:465-484 | appending a request does |
| BlockDownload.LeaveKeeps | src/messages.cpp:170-207 | forgetting a peer's requests does |
| NextBlocks.FindNextBlocksToDownload | src/messages.cpp:513-603 | reading the chain backwards in batches of at least 128 finds what looking at one height after the other finds |
| NextBlocks.Search.ResultGood | src/messages.cpp:541-602 | the blocks chosen are neither here nor requested, on a valid chain, inside the window, in order of height and at most as many as asked for, and none of that kind below the last one is passed over; a staller is reported only when nothing can be fetched |
| NextBlocks.Search.ResultTracked | src/messages.cpp:541-602 | the search stops at the first block that is not on a valid chain, or is needed and out of the window or the last one wanted; up to there the peer waited for is the one with the lowest requested block, and the last common block moves up to the highest block with a complete chain; that peer is reported as the staller exactly if the search stopped at a needed block beyond the window with nothing chosen, and it is another peer |
| DownloadManager.Downloads.InitializeNode | src/messages.cpp:153-167 | a new peer starts with nothing requested |
| DownloadManager.Downloads.FinalizeNode | src/messages.cpp:170-215 | exactly the leaving peer's requests are forgotten, all counters stay exact, and the consistency assertions hold |
| DownloadManager.Downloads.MarkBlockAsReceived | src/messages.cpp:273-297 | returns whether the block was requested; takes it off the one list it is in and adjusts counters, stalling and download times |
| DownloadManager.Downloads.MarkBlockAsInFlight | src/messages.cpp:465-484 | the block is registered to this peer only, whoever it was requested from before, and at the end of its list; no peer goes over 64 requests if and only if this one had fewer or had been asked for the block already |
| DownloadManager.Downloads.UpdatePreferredDownload | src/messages.cpp:501-509 | the count of preferred peers stays exact |
| DownloadManager.Downloads.StartSync | src/messages.cpp:2545-2551 | the count of syncing peers stays exact |
| DownloadManager.Downloads.FetchAnnounced | src/messages.cpp:1447-1464 | an announced block is requested exactly if nobody has been asked for it and the peer has room |
| DownloadManager.Downloads.FetchDirectly | src/messages.cpp:1989-1998 | requests until all are requested or the peer has 64 |
| DownloadManager.Downloads.FetchNext | src/messages.cpp:2875-2895 | requests what the search found within the peer's room; the staller it dereferences is a live peer; if nothing was found, an idle peer's staller is marked with the time unless it was marked before, and nothing else changes |
| DownloadManager.NothingRegistered | src/messages.cpp:209-214 | with no peer left nothing is in flight |
| DownloadManager.NothingCounted | src/messages.cpp:209-214 | and all counters are zero |
| DownloadManager.Replay | src/messages.cpp:153-603 | for every sequence of events the register and the per-peer lists are inverse, all counters equal what they count and no peer has more than 64 blocks in flight |
| ArithUint256.AddAssign | src/arith_uint256.h:153-163 | addition modulo 2^256, also with itself |
| ArithUint256.Complement | src/arith_uint256.h:87-93 | 2^256 - 1 - b |
| ArithUint256.Increment | src/arith_uint256.h:191-198 | plus one modulo 2^256 |
| ArithUint256.Negate | src/arith_uint256.h:95-102 | negation modulo 2^256 |
| ArithUint256.SubAssign | src/arith_uint256.h:165-169 | subtraction modulo 2^256 |
| ArithUint256.MulAssign32 | src/arith_uint256.cpp:73-83 | the product with a 32-bit number modulo 2^256 |
| ArithUint256.MulAssign | src/arith_uint256.cpp:86-101 | the product modulo 2^256; zero if the operand is the target itself, which is cleared before it is read |
| ArithUint256.ShiftLeft | src/arith_uint256.cpp:37-52 | multiplication by 2^shift modulo 2^256, for every shift |
| ArithUint256.ShiftRight | src/arith_uint256.cpp:55-70 | the quotient by 2^shift, for every shift |
| ArithUint256.Bits | src/arith_uint256.cpp:197-212 | the position of the highest bit plus one |
| ArithUint256.CompareTo | src/arith_uint256.cpp:132-142 | the order of the numbers |
| ArithUint256.EqualTo | src/arith_uint256.cpp:145-158 | equality with a 64-bit number |
| ArithUint256.GetLow64 | src/arith_uint256.h:264-268 | the number modulo 2^64 |
| ArithUint256.DivAssign | src/arith_uint256.cpp:104-129 | shift and subtract gives the exact quotient; division by zero fails |
| Compact.SetCompact | src/arith_uint256.cpp:232-251 | the value modulo 2^256; the overflow flag is set exactly when the true value is at least 2^256, the negative flag exactly when it is non-zero with the sign bit |
| Compact.GetCompact | src/arith_uint256.cpp:253-278 | the compact form by size and three leading bytes; both assertions hold; the sign only on request and never on zero |
| Compact.LosesLittle | src/arith_uint256.cpp:253-278 | compacting rounds down by less than one part in 2^15 |
| Compact.GreatestBelow | src/arith_uint256.cpp:232-278 | no compact number lies strictly between the rounded value and the number |
| Compact.Monotone | src/arith_uint256.cpp:253-278 | compacting is monotone |
| Compact.ExpandedIsExact | src/arith_uint256.cpp:232-278 | a value that came from a compact form is kept exactly |
| Compact.Idempotent | src/arith_uint256.cpp:232-278 | compacting twice is compacting once |
| Compact.Canonical | src/arith_uint256.cpp:232-278 | a form beyond three bytes whose leading byte is needed is that of its value |
| ProofOfWork.GetBlockProof | src/pow.cpp:54-67 | floor(2^256 / (target + 1)) for every valid target and zero for the others; the addition never wraps and the division never fails |
| ProofOfWork.CheckProofOfWork | src/pow.cpp:30-52 | true exactly for the genesis hash, and for hashes at most a target that is positive, fits 256 bits and is within the limit |
| ProofOfWork.GetLastBlockIndex | src/main.cpp:1904-1909 | the last block of the kind, or the first block |
| ProofOfWork.GetNextTargetRequired | src/main.cpp:1912-1979 | every branch, with the factor wrapping at 32 bits and the product at 256 |
| ProofOfWork.SpacingIs | src/main.cpp:1950-1966 | the spacing aimed at: 150 seconds exactly after the hard fork; once for stake; once, twice or three times for work, as none, one or more blocks have come since |
| ProofOfWork.WithinLimit | src/main.cpp:1973-1978 | the next target never exceeds the limit |
| ProofOfWork.FactorBounds | src/main.cpp:1969-1970 | the factor is negative, and so wraps in its 32-bit parameter, if and only if the spacing aimed at is beyond the timespan and more than twice the actual one |
| ProofOfWork.ScaledExactly | src/main.cpp:1969-1971 | scaling gives the exact quotient if and only if the factor is not negative and the product fits 256 bits |
| ProofOfWork.NegativeFactorRaises | src/main.cpp:1965-1971 | an input of no network there is on which the factor wraps: a timespan of 100 and a spacing of 450 turn a target of 1000 into 9544370768 |
| ProofOfWork.MainNetNeverWraps | src/networks/netman.cpp:64-67 | with the main network's constants nothing wraps for any target within its limit |
| ProofOfWork.HighLimitDrifts | src/main.cpp:1968-1971 | on a network that retargets with a limit of 2^255 - 1, of which there is none, the product wraps: the highest target does not survive blocks that come exactly as aimed |
| TargetChains.MainNetLimitIs | src/networks/netman.cpp:64-65 | the main network's limit is 2^236 - 1 |
| TargetChains.AskedWithinLimit | src/main.cpp:1912-1979 | a network that retargets never asks for more than its limit, or for a negative target |
| TargetChains.TargetsWithinLimit | src/main.cpp:1912-1979 | so in a chain that follows the rules every target after the first is within the limit |
| TargetChains.NeverRetargeted | src/main.cpp:1927-1931 | where nothing is retargeted, every block of a chain that follows the rules carries the first one's target |
| TargetChains.NothingWrapsAnywhere | src/main.cpp:1912-1979 | on the main, test and regression networks, after any chain that follows the rules, the next target is the first block's, the limit, or the quotient as computed with integers of any size |
| TargetChains.MainNetTarget | src/main.cpp:1936-1978 | the main network in numbers: for stake and work, before and after the hard fork, and for each gap, by what the last target of the kind is multiplied and divided |
| ProofOfWork.NothingWraps | src/main.cpp:1968-1976 | with a factor that is not negative and a product that fits, the result is min(limit, floor(target * factor / divisor)) |
| ProofOfWork.ClampOrder | src/main.cpp:1939-1947 | clamping keeps the order of two spacings if and only if they are not a negative one and zero |
| ProofOfWork.MonotoneInSpacing | src/main.cpp:1939-1978 | under that condition a larger spacing never gives a smaller target |
| ProofOfWork.NegativeSpacingIsNotLess | src/main.cpp:1939-1971 | the input on which it does: spacing -1 gives a larger target than spacing 0 |
| ProofOfWork.SteadyState | src/main.cpp:1939-1978 | blocks at the aimed spacing reproduce a canonical nBits within the limit if and only if the product fits 256 bits |
| Radix.ConvertBack | src/base58.cpp:37-122 | converting to another base and back gives the digits, leading zeros included |
| Base58.EncodeFits | src/base58.cpp:96 | 138/100 digits plus one hold any byte string |
| Base58.DecodeFits | src/base58.cpp:50 | 733/1000 bytes plus one hold any text |
| Base58.MulAdd | src/base58.cpp:59-66 | the in-place pass multiplies and adds; its carry assertion holds |
| Base58.EncodeBase58 | src/base58.cpp:86-122 | one '1' per leading zero byte, then the number in base 58 |
| Base58.DecodeBase58 | src/base58.cpp:37-84 | succeeds exactly when the text without surrounding space has only letters of the alphabet, and then finds the bytes it is the text of |
| Base58.LetterIs | src/base58.cpp:34-35 | the letters are those of the alphabet, in its order |
| Base58.SpaceIs | src/base58.cpp:39-41 | which characters around a text are skipped |
| Base58.EncodedInjective | src/base58.cpp:86-122 | different byte strings have different texts |
| Base58.DecodeOfEncode | src/base58.cpp:37-122 | decoding undoes encoding on every byte string |
| Base58.EncodeOfDecode | src/base58.cpp:37-122 | encoding undoes decoding on every string of letters |
| Base58.EncodeBase58Check | src/base58.cpp:130-137 | the text of the bytes followed by the first four bytes of their hash |
| Base58.DecodeBase58Check | src/base58.cpp:139-155 | succeeds with b exactly on the text of b followed by four bytes of its hash |
| Bloom.Hasher.NoFalseNegative | src/bloom.cpp:67-108 | what was inserted is covered, for any hash functions |
| Bloom.BloomFilter.Insert | src/bloom.cpp:67-78 | exactly the key's bits are added to those of the items so far |
| Bloom.BloomFilter.Contains | src/bloom.cpp:94-108 | true exactly when full, or not empty and every bit of the key was set by some item |
| Bloom.BloomFilter.Hash | src/bloom.cpp:61-65 | the place of a key under each hash function |
| Bloom.BloomFilter.Clear | src/bloom.cpp:124-129 | nothing is left |
| Bloom.RollingBloomFilter.Reset | src/bloom.cpp:276-282 | both filters start again empty, with the same new tweak |
| Bloom.RollingBloomFilter.Insert | src/bloom.cpp:237-253 | through every wrap-around and staggered clear each filter holds exactly a known number of the latest insertions |
| Bloom.RollingBloomFilter.WindowBounds | src/bloom.cpp:237-268 | answers are drawn from at least the last nElements insertions and at most twice as many |
| Bloom.RollingBloomFilter.Contains | src/bloom.cpp:261-268 | true for each of the last nElements insertions since the reset, and otherwise exactly what the bits of that window say |

## Left out

- Sockets, threads' primitives, files, the database engine, HTTP and RPC, arguments and logging: input and output.
- Keys, signatures, scripts, SHA, Murmur and Sip hashes: taken as arbitrary functions.
- ConnectBlock, DisconnectBlock, ActivateBestChain and the mempool: they would bring in script and consensus code that is not modelled.
- SetBackend, Cursor, GetPriority and AccessByTxid of the coin views: they add nothing to the cache's behaviour.
- CoinModel.SpendUsage: a coin's memory counts the script's length; the capacity of its vector and allocator rounding are a fixed function of that length.
- The serialized form of a coin: its flags are combined with `&` on zero, so there is no round trip to claim.
- The best-block hash in CoinsStack.Replay: runs are about coins; the best block is stated call by call.
- AddrMan.AddrManager.constructor: the bucket tables are sequences of sequences held in fields, not arrays; aliasing of buckets does not arise in the source.
- Select_ and GetChance of the address manager: random retry loops and floating point, without an exact claim.
- Clear on a manager that is not empty: it leaves two of the maps filled, so only new managers are loaded into.
- AddrRestart.Unserialize: the stream is a record of fields, not bytes, and a file that ends early counts as refused. Which new entries of a file from elsewhere are dropped for want of a slot is not said before the call; of a file with negative counts only that it is loaded and that the counts are wrong.
- AddrCheck.Check: a count that `operator[]` would insert as zero is read as zero without being inserted.
- Peers.Sender.SocketSendData: statistics, logging and closing the socket on an error are not modelled.
- Peers.Receiver.ReceiveMsgBytes: counts per command and the payload checksum, which is checked later, are not modelled.
- CheckQueue.StepKeeps: a critical section is one step; memory order inside it is not modelled.
- BlockLinking.BlockMap.ReceivedBlockTransactions: the set of tip candidates and the dirty set are not modelled, and nChainTx does not wrap at 32 bits. That a block is received once and is not empty is what its one caller sees to (src/processblock.cpp:185-205 and src/main.cpp:1590-1597).
- NextBlocks.FindNextBlocksToDownload: the walk to the peer's best block is given as the path to it; LastCommonAncestor and ProcessBlockAvailability come before it and are not modelled.
- DownloadManager.Downloads.FinalizeNode: ban scores, orphans and the block source map are not modelled.
- ArithUint256.DivAssign: bitwise operators, decrement, hexadecimal text and conversion to double are not modelled beside it.
- ProofOfWork.GetNextTargetRequired: a chain is the sequence of its blocks, a block's median time is given, and the consensus constants are positive and small enough for the 64-bit products around them (a spacing below 2^31, a timespan below 2^61).
- ProofOfWork.ScaledExactly: for timespans below 2^30, where the factor is never too large for 32 bits.
- GetBlockProofEquivalentTime: two products and a division on top of the work.
- Base58.DecodeBase58: space is that of the C locale; key and address formats on top of it are not modelled.
- Bloom.BloomFilter.Contains: the size of a filter and its number of hash functions, computed in floating point, are parameters; IsRelevantAndUpdate is not modelled.
- Stake kernel and reward tables, limitedmap, amount compression, subnet matching and the key store: they would only add easier members.

# Verified models of Soqucoin Core's data structures and codecs

Soqucoin Core is a node written in C++. Several of its parts pair a fast or compact form
with a simple meaning: a stack of write-back caches that should read like one map, a table
of peer addresses with redundant indexes, a pool of checking threads, proofs, filters and
text codecs. This project models these parts in Dafny and proves that the fast form has
the simple meaning. `dafny verify dfyconfig.toml` verifies everything.

Each part comes in two layers. The first is a model on values: what an operation does to a
state, with lemmas about single operations, about all runs and about round trips. The
second is the code in its own form, classes with fields and arrays and methods with loops,
each method proved to leave exactly the state that the first layer prescribes.

| part | files |
|---|---|
| cache of unspent outputs, over any number of levels | `Coins`, `CoinsView`, `CoinsRun`, `CoinsHave`, `CoinsUsage`, `CoinsCache` |
| record of a transaction's unspent outputs | `VarInt`, `ScriptCodec`, `CoinsCodec`, `CoinsRecord`, `Amount`, `AmountExact` |
| parallel check queue | `CheckQueue` |
| partial Merkle trees | `MerkleBlock`, `PartialMerkleTree`, `Bits` |
| address manager and its file | `AddrManModel`, `AddrManOps`, `AddrManRun`, `AddrManager`, `AddrManStream`, `AddrManLoad`, `AddrManFile` |
| cuckoo cache | `Cuckoo`, `CuckooCache` |
| block index and active chain | `Chain`, `SkipBits`, `ChainSteps` |
| 256-bit arithmetic, targets and work | `Limbs`, `Shifts`, `BaseUint`, `Compact` |
| rolling bloom filter | `RollingBloom` |
| compact blocks | `CompactBlock` |
| Base58 and Bech32 text | `Radix`, `Base58`, `Bech32`, `Bech32Text` |
| consensus parameters by height | `ConsensusTiers` |
| shared definitions and arithmetic | `Basics`, `Powers` |

## Parameters of the models

- Hash functions (Merkle nodes, address buckets, cuckoo slots, bloom positions, short ids)
  are arbitrary functions, collisions included: Merkle soundness names the collision that
  the decoder met, Merkle completeness the nodes that must differ. That a compact block is
  rebuilt is stated for pools in which no entry has the short id of a different transaction
  of the block.
- Random choices, the clock and thread scheduling are parameters or events, so results hold
  for all of them. The elliptic curve of short pay-to-pubkey forms is a parameter of which
  only "a point is given by one coordinate and a parity" is assumed. `CheckBlock` and the
  size of a hash bucket are parameters.
- A 64-bit word of the bloom filter and the 30-bit Bech32 register are lists of bits. Bytes
  and limbs are numbers below 256 and below 2^32; where the code combines disjoint bits with
  a bitwise or, the model does so too or adds, which `Limbs.BitOrIsSum` shows to be the same.
- `CCheckQueue::fQuit` is never set by the code and is left out of the state machine.

## Where the code and its comments differ

- `CCoinsViewCache::BatchWrite` takes over the child's best block even when it is null
  (src/coins.cpp:241), so flushing a cache that has none can lose the parent's:
  `CoinsView.FlushCanLoseBestBlock`, with the exact condition in `CoinsView.FlushKeepsBestBlock`.
- `CAddrMan::Add_` may report a new address that it has dropped again (src/addrman.cpp:242-313):
  `AddrManRun.ReportedButDropped`, with the exact condition in `AddrManRun.AddKeeps`.
- `ModifyNewCoins` does not remember the use of the record it overwrites (src/coins.cpp:152), so a
  coinbase that replaces a cached record leaves `cachedCoinsUsage` too high for good:
  `CoinsCache.CoinsViewCache.ModifyNewCoins`, with the exact amount.
- `CAddrMan::Clear` leaves `mapInfo` and `mapAddr` as they are (src/addrman.h:456-475), so clearing a
  manager that is in use breaks what `Check_` checks, and so does reading a file into one:
  `AddrManRun.ClearedTripsGood` and `AddrManLoad.ReloadIsInconsistent`, with the exact conditions in
  `AddrManRun.ClearKeepsExactly` and `AddrManLoad.LoadIsConsistentExactly`.
- `GetLocator` calls the skip list O(log n) (src/chain.cpp:71); the longest walk grows with the
  square of the logarithm: `ChainSteps.LongestWalk`. The "max 110 steps" at src/chain.cpp:108 is right.
- `WriteVarInt` writes seven bits of a negative number (src/serialize.h:316-331), and a record's
  version is a signed number: `VarInt.RoundTrip`, with the exact condition for a whole record in
  `CoinsCodec.RecordComesBack`.
- `x *= x` gives 0, as the operand is read after it was cleared (src/arith_uint256.cpp:70-71):
  `BaseUint.BaseUint.Multiply`.
- The comment at src/cuckoocache.h:393 has a displacement start at the first slot of an
  element; the code takes the second: `Cuckoo.FirstDisplaced`.
- The comment in src/amount.h gives 2049638230412172714 as the approximate limit of the
  amount codec; the static assertion below it has 2049638230412172403, which is the first
  amount that is corrupted: `AmountExact.RoundTripsExactly`.
- `ExtractMatches` empties its list of txids but not its list of indexes
  (src/merkleblock.cpp:150-181); the model appends likewise.
- `FillBlock` with too few transactions leaves the block open but has already given away the
  transactions before the gap (src/blockencodings.cpp:202-211): `CompactBlock.ShortFillLoses`,
  and `CompactBlock.Retry` says exactly when a second call is of no use.

## Model

| member | source | states |
|---|---|---|
| `Coins.TrimIsLongestUnspentPrefix` | src/coins.h:114-119 | trimming gives the longest prefix that does not end in a spent output; everything cut off was spent |
| `Coins.CleanedKeepsAvailability` | src/coins.h:114-119 | cleaning up hides no unspent output, makes nothing pruned that was not, leaves an empty list exactly for pruned coins, and is idempotent |
| `Coins.Cleanup` | src/coins.h:114-119 | the loop that pops spent outputs computes the trimmed record |
| `Coins.Spend` | src/coins.cpp:35-42 | spending fails exactly where nothing is available; otherwise exactly that output becomes unavailable and the record is clean |
| `CoinsView.FetchKeeps` | src/coins.cpp:72-88 | a read, with all the caching it does on the way down, changes no answer at any level and keeps the flags honest |
| `CoinsView.UncacheKeeps` | src/coins.cpp:252-259 | dropping a clean entry changes no answer |
| `CoinsView.ModifyCoinsKeeps` | src/coins.cpp:99-118 | opening a modifier changes no answer; the FRESH mark it sets is honest about the parent |
| `CoinsView.ModifyNewCoinsKeeps` | src/coins.cpp:120-153 | under the BIP 30 precondition, or for a coinbase, the call does not throw, reads as absent, and FRESH is honest |
| `CoinsView.ModifyNewCoinsNeedsBip30` | src/coins.cpp:120-153 | for a non-coinbase the call goes well and leaves honest flags if and only if nothing unspent is under the txid |
| `CoinsView.AssignKeeps` | src/coins.h:355-368 | writing through the modifier changes the answer for its txid only |
| `CoinsView.EndModifyKeeps` | src/coins.cpp:322-334 | closing a modifier (clean up, drop a FRESH pruned entry) changes no answer |
| `CoinsView.NoneMisapplied` | src/coins.cpp:188-243 | where the child's flags are honest, the "FRESH flag misapplied" error cannot be raised |
| `CoinsView.MergeAllIsWritten` | src/coins.cpp:188-243 | merging a child's entries makes the cache answer what was written, and every merged entry is honest about the level below |
| `CoinsView.BatchWriteKeeps` | src/coins.cpp:188-243 | a batch never throws and makes every read answer what the batch says, else what it answered before |
| `CoinsView.FlushKeeps` | src/coins.cpp:245-250 | a flush never throws, changes no read at its level, and makes the parent read the same |
| `CoinsView.RememberKeeps` | src/coins.cpp:178-182 | remembering a best block on the way changes neither the best block nor any read |
| `CoinsView.FlushKeepsBestBlock` | src/coins.cpp:178-250 | the best block survives a flush if and only if the flushed cache has one of its own, or the parent's own one adds nothing |
| `CoinsView.FlushCanLoseBestBlock` | src/coins.cpp:178-250 | a concrete stack of two caches whose best block goes from 7 to 3 when the upper one is flushed |
| `CoinsRun.StepRefines` | src/coins.cpp:72-259 | one operation at any depth of any stack: no throw, flags still honest, still equal to the plain maps |
| `CoinsRun.RunRefines` | src/coins.cpp:72-259 | in every run, at every moment and every level, the stack of caches refines one plain map per level and the flags are honest |
| `CoinsRun.RunNeverThrows` | src/coins.cpp:120-243 | after any run every allowed operation goes through: neither exception and no assertion on a live modifier can be reached |
| `CoinsRun.RunReads` | src/coins.cpp:90-97 | what a read answers anywhere in any run, at any depth, is the plain map's answer, pruned counting as absent |
| `CoinsHave.HaveIsRead` | src/coins.cpp:164-171 | looking only for outputs that are listed answers whether something is unspent, for every record but one under modification |
| `CoinsHave.EndModifyKeepsTidy` | src/coins.cpp:322-334 | after the clean-up no cached record has its outputs all spent but still listed |
| `CoinsHave.StepKeepsTidy` | src/coins.cpp:72-259 | one operation at any depth of any stack keeps it so |
| `CoinsHave.RunHaves` | src/coins.cpp:164-171 | anywhere in any run, at any depth, HaveCoins answers whether the plain map has the transaction, unless that record is under modification |
| `CoinsHave.ModifiedRecordCanDiffer` | src/coins.cpp:164-171 | a record under modification with all outputs spent: HaveCoins says yes, a read says no |
| `CoinsCache.CoinsViewDB.BatchWrite` | src/txdb.cpp:75-98 | the loop over the batch leaves the store that the value model prescribes, best block included |
| `CoinsCache.CoinsViewCache.FetchCoins` | src/coins.cpp:72-88 | the recursive fetch leaves every level of the stack in the prescribed state, returns the prescribed coins, and moves the memory counter of every level with what it adds there |
| `CoinsCache.CoinsViewCache.HaveCoins` | src/coins.cpp:164-171 | the answer of the value model, with the same caching as a read |
| `CoinsCache.CoinsViewCache.ModifyCoins` | src/coins.cpp:99-118 | the in-place code, fetching from below where needed, leaves the stack that CoinsView.ModifyCoinsKeeps is about; no memory counter drifts |
| `CoinsCache.CoinsViewCache.ModifyNewCoins` | src/coins.cpp:134-153 | the code leaves the cache that CoinsView.ModifyNewCoinsKeeps is about, or throws exactly when the value model does and leaves the cache as it was; the memory counter drifts by exactly what the overwritten record used, so it stays right if and only if there was none or it used nothing |
| `CoinsCache.CoinsViewCache.EndModify` | src/coins.cpp:322-334 | the destructor's clean-up and erasure leave the cache that CoinsView.EndModifyKeeps is about; subtracting the old use and adding the new keeps the memory counter as right as it was |
| `CoinsCache.CoinsViewCache.WriteEntries` | src/coins.cpp:188-243 | the loop merges every dirty entry of the batch and takes it out of the child's map, or stops with an error exactly when some entry is misapplied, both maps then half way; the memory counter follows |
| `CoinsCache.CoinsViewCache.BatchWrite` | src/coins.cpp:188-243 | the loop ends in the merged cache with the given best block, or throws exactly when some FRESH flag is misapplied, leaving what is merged merged and the rest with the child |
| `CoinsCache.CoinsViewCache.Flush` | src/coins.cpp:245-250 | writing down and emptying leave the whole stack as CoinsView.FlushKeeps describes it and the memory counter at 0; an exception skips the emptying and leaves parent and child half way |
| `CoinsCache.CoinsViewCache.Uncache` | src/coins.cpp:252-259 | an entry is dropped exactly when it is there and clean, and its use is counted off |
| `CoinsCache.CoinsViewCache.GetBestBlock` | src/coins.cpp:178-182 | the best block found; every level down to the first that knows it remembers it, and no read changes |
| `CoinsUsage.TotalWithout` | src/coins.cpp:86 | what the records of a cache use together, which the memory counter stands for, does not depend on the order of counting |
| `CoinsUsage.InvHolds` | src/coins.cpp:316-319 | in every stack with honest flags every modifier points at a DIRTY record, which is all the counter laws of the cache ask |
| `VarInt.RoundTrip` | src/serialize.h:316-345 | a number is read back from its bytes, whatever follows them, if and only if it is not negative; of a negative one the lowest seven bits arrive |
| `VarInt.RoundTrip32` | src/serialize.h:316-345 | a reader of 32 bits loses nothing of a number that a writer of 32 bits has sent |
| `VarInt.DecodedIsEncoded` | src/serialize.h:316-345 | the bytes consumed by a successful read are the one encoding of the number read |
| `VarInt.EncodeLength` | src/serialize.h:319 | a number of k bits needs at most (k + 6) / 7 bytes, the size of the write buffer |
| `VarInt.Write` | src/serialize.h:316-331 | the loop through the fixed buffer writes the encoding of any number of the type, signed or not, and never leaves the buffer |
| `VarInt.Read` | src/serialize.h:333-345 | into an unsigned type of any width the loop reads the number denoted, modulo 2^width, or fails where the stream ends: wrapping at every group amounts to wrapping once |
| `ScriptCodec.ScriptRoundTrip` | src/compressor.h:55-89 | a script whose size fits 32 bits comes back if and only if it has at most 10000 bytes, and otherwise as a single OP_RETURN; exactly its own bytes are used |
| `ScriptCodec.DecompressCompressed` | src/compressor.cpp:48-131 | each of the short forms has the length its first byte announces and stands for its script |
| `CoinsCodec.MaskRoundTrip` | src/coins.h:166-209 | the mask loop of the reader consumes exactly the bytes of the mask and restores every flag |
| `CoinsCodec.NonZeroExactly` | src/coins.cpp:17-33 | the number of non-zero mask bytes is 0 exactly when no flag is set, so the reader never stops early |
| `CoinsCodec.CodeRoundTrip` | src/coins.h:163-196 | the header code gives back the coinbase flag, the first two flags and the number of non-zero mask bytes |
| `CoinsCodec.OutputsRoundTrip` | src/coins.h:175-211 | the outputs come back at their positions, spent ones blank, and exactly their bytes are used |
| `CoinsCodec.RecordRoundTrip` | src/coins.h:156-217 | what any record with an unspent output is read back as: every output restored, trailing spent ones trimmed, seven bits of a negative version or height, the rest of the stream untouched |
| `CoinsCodec.RestoredExactly` | src/compressor.h:92-125 | an output comes back if and only if it is blank, or its script has legal size and its amount, as an unsigned number, is a multiple of 10 or below 2049638230412172403 |
| `CoinsCodec.RecordComesBack` | src/coins.h:156-217 | a record is read back as it was if and only if version and height are not negative, its last output is unspent and every output is one that comes back |
| `CoinsCodec.StorableRoundTrip` | src/coins.h:156-217 | a clean record with amounts in range and scripts of legal size is read back as it was |
| `CoinsRecord.CalcMaskSize` | src/coins.cpp:17-33 | the two nested loops compute the length of the mask and its number of non-zero bytes |
| `CoinsRecord.Serialize` | src/coins.h:156-183 | the loops write the record, whatever the signs of version and height; the assertion that something is unspent holds |
| `CoinsRecord.Unserialize` | src/coins.h:185-217 | the loops read the record, each number cut to its 32 bits, failing exactly where the stream ends too early |
| `Amount.AmountRoundTrip` | src/compressor.cpp:142-185 | the 64-bit amount codec is lossless for every amount below 2049638230412172403 and for every multiple of 10 |
| `Amount.AmountCorrupts` | src/amount.h:68-79 | for every other amount the code does not fit 64 bits, and 2049638230412172403 itself comes back as 10000 |
| `AmountExact.RoundTripsExactly` | src/compressor.cpp:142-185 | a 64-bit amount comes back if and only if it is below 2049638230412172403 or a multiple of 10 |
| `AmountExact.OneSolution` | src/compressor.cpp:161-185 | modulo 2^64 at most one amount could equal itself less a constant times a power of ten, which is what a wrapped code stands for |
| `Amount.FitsExactly` | src/compressor.cpp:142-159 | the code of an amount exceeds 64 bits if and only if its last digit d is not 0 and 9n + d - 9 does |
| `Amount.MoneyRoundTrip` | src/amount.h:68-85 | every amount up to MAX_MONEY survives, and two of them add up within 63 bits |
| `Amount.CompressAmount` | src/compressor.cpp:142-159 | the loop computes the code, with the wrap-around of unsigned 64-bit arithmetic |
| `Amount.DecompressAmount` | src/compressor.cpp:161-185 | the loop computes the amount, with the same wrap-around |
| `CheckQueue.StepKeeps` | src/checkqueue.h:69-161 | the invariant holds after every step of any thread, for any number of workers and any batch size |
| `CheckQueue.EveryWaitIsRight` | src/checkqueue.h:143-146 | in every interleaving a Wait returns true exactly when every check added since the previous one is valid |
| `CheckQueue.CountersAreExact` | src/checkqueue.h:69-127 | in every interleaving nTodo is the queued checks plus those in unfinished batches, and nIdle and nTotal count threads exactly |
| `CheckQueue.RunIsSafe` | src/checkqueue.h:105-110 | in every interleaving whatever a thread does next divides by a positive number of threads |
| `CheckQueue.SleepingMasterHasAWorker` | src/checkqueue.h:84-104 | a master asleep and not notified means some worker holds a batch: no wake-up is lost |
| `CheckQueue.NeverStuck` | src/checkqueue.h:69-127 | while the master waits, some thread can make a step that helps |
| `CheckQueue.StepMeasure` | src/checkqueue.h:69-127 | while the master waits, a step that helps strictly lowers a measure of the work left, and no other step, not even a spurious wake-up, raises it |
| `CheckQueue.WaitReturns` | src/checkqueue.h:143-146 | however threads are scheduled and however often they wake up spuriously, a waiting pool makes at most so many helpful steps as the measure says |
| `CheckQueue.SomeoneIsBusy` | src/checkqueue.h:69-127 | while the master waits some thread, the master itself or a worker with a batch, has something to do that no lock keeps it from |
| `CheckQueue.BusyStays` | src/checkqueue.h:69-127 | such a thread keeps having it to do whatever the others do, and when it acts it helps |
| `CheckQueue.FairnessHelps` | src/checkqueue.h:69-127 | weak fairness of each thread alone makes helpful steps never cease |
| `CheckQueue.WaitAlwaysReturns` | src/checkqueue.h:143-146 | in every unending run under a scheduler that lets every thread act that keeps having something to do, and whatever spurious wake-ups there are, after any moment comes one at which the master is out of Wait |
| `MerkleBlock.WidthCountsLeaves` | src/merkleblock.h:66-68 | a node exists at a height exactly when the leftmost leaf under it does |
| `MerkleBlock.NodeSound` | src/merkleblock.cpp:96-132 | whatever the bits and hashes: if a node decodes to its true hash and the decoder met no collision, every match under it is genuine and in order |
| `MerkleBlock.ExtractIsSound` | src/merkleblock.cpp:150-181 | whatever the bits and hashes: if they are accepted and give the true root, every match is a txid of the block at its index, in order, or the decoder combined, at some node of the tree, another pair of hashes into the node's own hash |
| `MerkleBlock.NodesDiffer` | src/merkleblock.cpp:117-123 | where no two nodes of one height are a collision, distinct txids make distinct nodes at every height |
| `MerkleBlock.NoTwins` | src/merkleblock.cpp:117-123 | so no siblings have the same hash, whatever is matched: the duplicate check rejects no honest proof |
| `MerkleBlock.NodeComplete` | src/merkleblock.cpp:78-132 | decoding what was built for a node gives its hash and matches, uses exactly what was built, and is bad exactly where siblings with the same hash were passed |
| `MerkleBlock.BuildIsAccepted` | src/merkleblock.cpp:134-181 | build, pack, unpack, extract: the true root and exactly the matched transactions, for any hash function; accepted if and only if no two siblings that are descended past have the same hash |
| `MerkleBlock.SameTwiceIsRefused` | src/merkleblock.cpp:117-123 | a block that lists one transaction twice has such siblings |
| `MerkleBlock.StoredAtMostLeaves` | src/merkleblock.h:36-48 | no more hashes than transactions, and at least one bit per hash |
| `MerkleBlock.StoredAtMostPerMatch` | src/merkleblock.h:36-48 | at most one hash, plus one per match and level |
| `MerkleBlock.UnpackPacked` | src/merkleblock.h:87-105 | unpacking gives back the packed bits, and no whole byte beyond them |
| `MerkleBlock.ReturnedIsMask` | src/merkleblock.cpp:150-181 | the two returned lists say what the mask says: an index is listed exactly when its flag is set, with its txid, in order |
| `PartialMerkleTree.PartialMerkleTree.constructor` | src/merkleblock.cpp:134-146 | the recursive construction leaves the bits and hashes of the specification |
| `PartialMerkleTree.PartialMerkleTree.TraverseAndBuild` | src/merkleblock.cpp:78-94 | a call appends the bits and hashes of its node and changes nothing else |
| `PartialMerkleTree.PartialMerkleTree.Serialize` | src/merkleblock.h:87-105 | the loop packs the bits, eight to a byte, the last byte padded with zeros |
| `PartialMerkleTree.PartialMerkleTree.Unserialize` | src/merkleblock.h:87-105 | the loop unpacks every bit of every byte and clears fBad |
| `PartialMerkleTree.PartialMerkleTree.TraverseAndExtract` | src/merkleblock.cpp:96-132 | a call computes what the specification decodes, with counters, lists and fBad |
| `PartialMerkleTree.PartialMerkleTree.ExtractMatches` | src/merkleblock.cpp:150-181 | the root and lists if all checks pass and nothing was bad before, and 0 otherwise; the index list is appended to, not cleared |
| `PartialMerkleTree.RelayMatches` | src/merkleblock.cpp:134-181 | one node builds and packs, another unpacks and extracts: where txids differ and no two nodes collide, the true root and exactly the matched txids with their indexes in order |
| `AddrManModel.CreateKeeps` | src/addrman.cpp:81-91 | a created entry is consistent but for standing in no table, whichever others stand in none |
| `AddrManModel.SwapKeeps` | src/addrman.cpp:93-111 | a swap keeps everything Check_ asks and changes only the random order |
| `AddrManModel.DeleteKeeps` | src/addrman.cpp:113-125 | deleting an entry that stands in no table trips no assertion, removes it from all three indexes and touches nothing else |
| `AddrManOps.ClearNewKeeps` | src/addrman.cpp:127-140 | clearing a slot keeps consistency, deletes its entry exactly with its last reference, and touches no other |
| `AddrManOps.EvictKeeps` | src/addrman.cpp:163-180 | sending a tried entry back to the new table keeps consistency, whatever it displaces there |
| `AddrManOps.MakeTriedKeeps` | src/addrman.cpp:142-188 | MakeTried trips no assertion, keeps consistency, and the entry ends up tried |
| `AddrManRun.GoodKeeps` | src/addrman.cpp:190-240 | Good_ keeps consistency, and a known address ends up tried |
| `AddrManRun.NewEntryIsInTable` | src/addrman.cpp:216-232 | the exit of Good_ for an entry found in no bucket cannot be taken |
| `AddrManRun.PlaceKeeps` | src/addrman.cpp:291-310 | a placement keeps consistency, and an entry survives it if and only if it has references or its slot is free or yields |
| `AddrManRun.AddKeeps` | src/addrman.cpp:242-313 | Add_ keeps consistency; it reports a new address exactly when the address is routable and unknown, and keeps it if and only if its slot is free or yields |
| `AddrManRun.ReportedButDropped` | src/addrman.cpp:242-313 | two addresses and one slot: the second is reported as new, and the manager does not know it |
| `AddrManRun.ShuffleKeeps` | src/addrman.cpp:462-481 | the partial shuffle of GetAddr_ keeps consistency |
| `AddrManRun.StepKeeps` | src/addrman.cpp:190-519 | any operation on a consistent manager, Clear only of an empty one, trips no assertion and leaves it consistent |
| `AddrManRun.RunKeeps` | src/addrman.cpp:385-459 | from an empty manager every run of operations, without Clear of a manager in use, keeps the structural part of Check_ |
| `AddrManRun.RunIsSafe` | src/addrman.cpp:81-313 | after any run without Clear of a manager in use, whatever operation comes next trips no assertion |
| `AddrManRun.SizeIsSum` | src/addrman.cpp:390-392 | vRandom lists every entry once, and there are nTried + nNew of them |
| `AddrManRun.ClearKeepsExactly` | src/addrman.h:456-475 | Clear, which leaves two of the maps as they are, keeps a consistent manager consistent if and only if there is no entry in it, and then gives a new manager |
| `AddrManRun.ClearedTripsGood` | src/addrman.h:456-475 | one address is added, the manager cleared, the address added again: the next Good of it trips an assertion |
| `AddrManager.AddrManager.constructor` | src/addrman.h:456-481 | a new manager, which Clear makes, is empty |
| `AddrManager.AddrManager.Clear` | src/addrman.h:456-475 | both tables are wiped and all counters reset, while the map of entries and the map of addresses stay |
| `AddrManager.AddrManager.Create` | src/addrman.cpp:81-91 | the new id is the old counter, and maps, vector and back-pointer are those that AddrManModel.CreateKeeps is about |
| `AddrManager.AddrManager.SwapRandom` | src/addrman.cpp:93-111 | the two entries and their back-pointers are exchanged, and nothing else changes |
| `AddrManager.AddrManager.Delete` | src/addrman.cpp:113-125 | swap to the end, pop and erase leave the manager that AddrManModel.DeleteKeeps is about |
| `AddrManager.AddrManager.ClearNew` | src/addrman.cpp:127-140 | slot, reference count and, with the last reference, the entry go, as in AddrManOps.ClearNewKeeps |
| `AddrManager.AddrManager.DetachFromNew` | src/addrman.cpp:144-157 | the loop over all new buckets takes the entry off every slot it stands in and counts its references down by as many |
| `AddrManager.AddrManager.EvictTried` | src/addrman.cpp:163-180 | the evicted entry gets the slot of its own source in the new table, clearing what stood there |
| `AddrManager.AddrManager.MakeTried` | src/addrman.cpp:142-188 | the loop over all buckets, the eviction of another entry and the move leave the manager that AddrManOps.MakeTriedKeeps is about |
| `AddrManager.AddrManager.Find` | src/addrman.cpp:68-79 | an entry is found exactly when the address leads to one |
| `AddrManager.AddrManager.FindNewBucket` | src/addrman.cpp:216-232 | the search from a random bucket on fails exactly when the entry stands in no bucket |
| `AddrManager.AddrManager.Good` | src/addrman.cpp:190-240 | the code with its early exits leaves the manager that AddrManRun.GoodKeeps is about, consistent again |
| `AddrManager.AddrManager.Attempt` | src/addrman.cpp:315-335 | of a known address exactly the attempt statistics change, the counter only once per good connection |
| `AddrManager.AddrManager.Add` | src/addrman.cpp:242-313 | the code with its early exits leaves the manager, and reports the answer, that AddrManRun.AddKeeps is about |
| `AddrManager.AddrManager.GetAddr` | src/addrman.cpp:462-481 | the random order is a partial shuffle; the answer holds distinct known entries that are not terrible, within both limits |
| `AddrManStream.LoadOfSave` | src/addrman.h:300-454 | saving any consistent manager and loading it into any one without entries gives the same manager under new ids and in a new random order: same entries, references, slots and counters |
| `AddrManStream.NothingLost` | src/addrman.h:438-448 | nothing of a saved manager is lost to collisions when it is loaded |
| `AddrManStream.LoadIsConsistent` | src/addrman.h:350-454 | the loaded manager is consistent |
| `AddrManLoad.LoadNewKeeps` | src/addrman.h:379-397 | the first list of any file becomes entries that stand in no table, an address leading to the last of those that have it |
| `AddrManLoad.LoadTriedKeeps` | src/addrman.h:399-418 | the second list becomes tried entries in their own slots; those whose slot is taken are dropped and counted off |
| `AddrManLoad.LoadBucketsKeeps` | src/addrman.h:420-436 | whatever indexes the buckets hold, references, slots and the limit of eight stay right |
| `AddrManLoad.LoadIsConsistentExactly` | src/addrman.h:350-454 | a file loads into a consistent manager if and only if no counter on it is negative and entries that share an address are all among those given up at the end |
| `AddrManLoad.LoadAnyIsConsistent` | src/addrman.h:350-454 | so any file without negative counters that has no address twice does |
| `AddrManLoad.SharedAddressIsInconsistent` | src/addrman.h:379-448 | a file with one address under two ports, one slot: the entry that is given up takes the index of the other with it |
| `AddrManLoad.TriedTwiceIsConsistent` | src/addrman.h:399-418 | a file with a tried entry twice loads into a consistent manager |
| `AddrManLoad.LoadCanPrune` | src/addrman.h:438-448 | whatever is on the stream, the deletions at its end trip no assertion, if every new entry that the manager holds beforehand has references |
| `AddrManLoad.ConsistentCanLoad` | src/addrman.h:350-454 | so loading any well-formed stream into any consistent manager, even one in use, trips no assertion |
| `AddrManLoad.ReloadIsInconsistent` | src/addrman.h:350-475 | a file loaded into the manager that wrote it: the reference of its entry is counted twice, and the manager is inconsistent |
| `AddrManFile.Serialize` | src/addrman.h:300-348 | the loops write the stream of the value model, and neither counter assertion fires |
| `AddrManFile.Unserialize` | src/addrman.h:350-454 | beginning with Clear, the loops load what the value model loads from any well-formed stream into any manager, throw exactly when a counter exceeds its table, and leave a manager without entries consistent exactly when LoadIsConsistentExactly says so |
| `AddrManFile.Prune` | src/addrman.h:438-448 | the one pass that deletes while iterating removes exactly the new entries without references, whatever was loaded, and leaves every other entry as it was but for its place in the random order |
| `AddrManFile.SavedCanBeRead` | src/addrman.h:371-377 | a file that a consistent manager wrote is well-formed and within both limits |
| `AddrManFile.SaveAndLoad` | src/addrman.h:300-454 | writing one manager and reading it into another one without entries gives the renamed manager |
| `Cuckoo.DisplaceConserves` | src/cuckoocache.h:393-415 | through any chain of displacements every live element stays in the slot where a search finds it, and at most one is lost |
| `Cuckoo.PlaceConserves` | src/cuckoocache.h:368-416 | after the epoch check an insertion adds its element and loses at most one live element in all |
| `Cuckoo.InsertKeeps` | src/cuckoocache.h:368-416 | an insertion keeps the invariant, epoch bound included, and loses at most one element that the epoch check left |
| `Cuckoo.EraseRemoves` | src/cuckoocache.h:443-453 | erasing removes exactly the one live copy of an element |
| `Cuckoo.LiveOnce` | src/cuckoocache.h:368-416 | no element is live twice, and a live element is in one of its own slots |
| `Cuckoo.LiveIsContained` | src/cuckoocache.h:443-453 | a live element is always found |
| `Cuckoo.EpochCheckKeeps` | src/cuckoocache.h:264-296 | the epoch check only frees slots, and leaves room for one more current entry |
| `Cuckoo.RunKeeps` | src/cuckoocache.h:264-416 | after every run from setup: live elements are where they are searched for, and current entries never exceed epoch_size + max(1, epoch_size / 16) |
| `Cuckoo.ContainsOnlyInserted` | src/cuckoocache.h:443-453 | after every run from setup, contains says yes only to an element that was inserted, or to the one the table starts with |
| `Cuckoo.FirstDisplaced` | src/cuckoocache.h:393-405 | a displacement chain starts at the second of an element's slots, contrary to the comment |
| `CuckooCache.BitPackedFlags.SetFlag` | src/cuckoocache.h:92-95 | one flag is set and no other changes |
| `CuckooCache.BitPackedFlags.ClearFlag` | src/cuckoocache.h:103-106 | one flag is cleared and no other changes |
| `CuckooCache.Cache.EpochCheck` | src/cuckoocache.h:264-296 | the two loops leave the state of the value model |
| `CuckooCache.Cache.Insert` | src/cuckoocache.h:368-416 | the three loops leave the state of the value model, and lose the element it loses |
| `CuckooCache.Cache.Contains` | src/cuckoocache.h:443-453 | the search answers as the value model, and with erase flags the slot found |
| `Chain.InvertTakesLowestOne` | src/chain.cpp:100 | n & (n - 1) is n without its lowest bit |
| `Chain.SkipIsEarlier` | src/chain.cpp:103-111 | every skip goes strictly back |
| `Chain.BlockIndex.GetAncestor` | src/chain.cpp:113-137 | the walk along skip pointers ends and gives the block that following pprev alone gives, NULL out of range; where every block has its skip pointer it takes as many steps as Chain.Steps counts |
| `Chain.BlockIndex.BuildSkip` | src/chain.cpp:144-148 | a new block gets the skip pointer of its height, the tree stays well formed with all its skip pointers, and no other ancestor changes |
| `Chain.Chain.SetTip` | src/chain.cpp:41-51 | although it stops early, the chain is exactly the path from height 0 to the tip |
| `Chain.Chain.FindFork` | src/chain.cpp:81-90 | the highest block of the chain that the given block descends from, NULL exactly when there is none |
| `Chain.Chain.GetLocator` | src/chain.cpp:53-79 | the locator holds the ancestors of the block at exactly the heights of the specification, by either way of finding them |
| `Chain.LocatorAt` | src/chain.cpp:53-79 | those heights in closed form: twelve in a row, then gaps of 2, 4, 8 and so on, and the first 0 ends the list |
| `Chain.LocatorIsShort` | src/chain.cpp:53-79 | the heights fall strictly from the block's to 0, and for a height below 2^m there are at most 11 + m |
| `ChainSteps.StepsBound` | src/chain.cpp:103-137 | by the highest bit in which height and target differ and the bits set below it, no walk is longer than so |
| `ChainSteps.WalkToTwo` | src/chain.cpp:103-137 | for target 2 that is the exact length, from every height whose bits below are odd, a multiple of 8 or a single one |
| `ChainSteps.NoWalkIsLonger` | src/chain.cpp:103-137 | from any height below 2^m, m at least 9, to any target the walk takes at most MaxSteps(m) steps |
| `ChainSteps.LongestWalk` | src/chain.cpp:103-137 | and from 2^m - 8 to height 2 it takes exactly MaxSteps(m) |
| `ChainSteps.MaxStepsIs` | src/chain.cpp:103-137 | in closed form this is (m^2 + 8m - 28) / 4, rounded down |
| `ChainSteps.AtMost110` | src/chain.cpp:107-109 | for heights below 2^18 the longest walk takes exactly 110 steps, the number that the source reports from simulation |
| `BaseUint.BaseUint.Add` | src/arith_uint256.h:135-145 | the sum modulo 2^(32 width) |
| `BaseUint.BaseUint.Increment` | src/arith_uint256.h:173-180 | one more, modulo 2^(32 width) |
| `BaseUint.Negated` | src/arith_uint256.h:77-84 | minus the number, modulo 2^(32 width) |
| `BaseUint.BaseUint.Subtract` | src/arith_uint256.h:147-151 | the difference modulo 2^(32 width), exact where it is not negative |
| `BaseUint.BaseUint.Multiply` | src/arith_uint256.cpp:66-80 | the product modulo 2^(32 width), and 0 when the operand is the number itself, which is cleared before it is read |
| `BaseUint.BaseUint.AddRow` | src/arith_uint256.cpp:72-79 | one row adds limb times operand in its place; an operand that is this very number is all zeros and stays so |
| `BaseUint.RowFits` | src/arith_uint256.cpp:73-77 | the sum in a step of the multiplication always fits 64 bits |
| `BaseUint.BaseUint.ShiftLeft` | src/arith_uint256.cpp:22-36 | the number times 2^shift, modulo 2^(32 width) |
| `BaseUint.BaseUint.ShiftRight` | src/arith_uint256.cpp:39-53 | the quotient by 2^shift |
| `BaseUint.BaseUint.CompareTo` | src/arith_uint256.cpp:109-119 | the sign is that of the comparison of the numbers |
| `BaseUint.BaseUint.Bits` | src/arith_uint256.cpp:171-184 | the exact number of bits |
| `BaseUint.BaseUint.Divide` | src/arith_uint256.cpp:83-107 | the shift-and-subtract loop gives the floor of the quotient; division by 0 throws and leaves 0 |
| `BaseUint.BaseUint.SubtractShifted` | src/arith_uint256.cpp:95-104 | the loop from the highest shift down ends with the floor of the quotient |
| `BaseUint.DivideStep` | src/arith_uint256.cpp:96-103 | each round keeps dividend = quotient * divisor + rest, with the rest below twice the shifted divisor |
| `Compact.SetCompact` | src/arith_uint256.cpp:204-222 | the number denoted, modulo 2^256; the overflow flag is set exactly when it does not fit, the negative one exactly for a signed non-zero number |
| `Compact.OverflowIsExact` | src/arith_uint256.cpp:217-220 | the byte-count test is true if and only if mantissa * 256^(size - 3) is at least 2^256 |
| `Compact.GetCompact` | src/arith_uint256.cpp:224-245 | the compact form of the number: rounded down to the lowest byte kept, with at least its 15 highest bits, and the sign as asked for |
| `Compact.CompactRoundsDown` | src/arith_uint256.cpp:224-245 | encoding rounds down to a multiple of the last byte of the mantissa, never up, never negative |
| `Compact.CompactIsStable` | src/arith_uint256.cpp:204-245 | encoding the rounded number again gives the same compact form: nothing more is lost the second time |
| `Compact.RecodesExactly` | src/arith_uint256.cpp:204-245 | encoding what a compact form denotes gives that form back if and only if it is 0, or its mantissa is at least 0x8000 with nothing below the last byte that counts |
| `Compact.Recode` | src/arith_uint256.cpp:204-245 | the same of the code: SetCompact and then GetCompact, for every form that does not overflow |
| `Compact.TargetPlusOneFits` | src/chain.cpp:157-162 | no compact form denotes 2^256 - 1, so adding one to a target never wraps |
| `Compact.GetBlockProof` | src/chain.cpp:150-163 | floor(2^256 / (target + 1)) for a valid target, 0 for one that is negative, too large or zero |
| `RollingBloom.WipeForgets` | src/bloom.cpp:252-266 | wiping the marks of the generation that begins forgets exactly what is three generations old |
| `RollingBloom.RecentIsRemembered` | src/bloom.cpp:249-277 | an insertion is in the current or the two previous generations exactly when it is one of the remembered last ones |
| `RollingBloom.LastOnesArePresent` | src/bloom.h:113-114 | the last nElements keys, and up to one and a half times as many, are never missing |
| `RollingBloom.RollingBloomFilter.constructor` | src/bloom.cpp:217-242 | a new filter holds nothing |
| `RollingBloom.RollingBloomFilter.Insert` | src/bloom.cpp:249-277 | every mark is that of the last insertion that hit the position, if recent enough, and else none; the counters are those of the history |
| `RollingBloom.RollingBloomFilter.Contains` | src/bloom.cpp:285-297 | true if and only if each position of the key was hit by one of the remembered insertions |
| `RollingBloom.RollingBloomFilter.Reset` | src/bloom.cpp:305-313 | everything is forgotten, and the hash functions are the new ones |
| `CompactBlock.MakeDescribes` | src/blockencodings.cpp:20-30 | the message that the sender makes describes its block |
| `CompactBlock.PrefilledShape` | src/blockencodings.cpp:67-87 | prefilled transactions never meet: exactly as many slots stay empty as there are short ids |
| `CompactBlock.PartiallyDownloadedBlock.NextSlot` | src/blockencodings.cpp:96-103 | the search for the next slot always finds it, so the check after it never fails |
| `CompactBlock.PartiallyDownloadedBlock.InitData` | src/blockencodings.cpp:50-181 | exactly when each status is returned and what state each leaves; on success what was prefilled stays, any other slot is empty or holds an entry with its short id, and the count of matches is exact; of a fresh object, a slot is empty where no entry has its short id, and filled where some has and none contradicts; without collisions every slot is empty or holds the block's own transaction |
| `CompactBlock.HarvestedIs` | src/blockencodings.cpp:119-176 | what the two loops over the pools have tracked says for every short id what its slot is: empty when nobody offers it, filled when it is offered undisputed |
| `CompactBlock.FilledIsFaithful` | src/blockencodings.cpp:119-176 | whatever holds a slot's short id is the slot's transaction, if no entry collides with the block |
| `CompactBlock.PartiallyDownloadedBlock.FillBlock` | src/blockencodings.cpp:192-237 | exactly when each status is returned and what is left open; with the right missing transactions the block is the original list |
| `CompactBlock.Retry` | src/blockencodings.cpp:192-216 | after a call with too few transactions, one with as many as were missing at first is invalid if and only if a slot before the gap was filled |
| `CompactBlock.ShortFillLoses` | src/blockencodings.cpp:192-216 | two transactions, the first prefilled, and a call with none: the block is open and the first transaction is gone |
| `CompactBlock.RestoredIs` | src/blockencodings.h:47-60 | reading a request succeeds exactly when every index stays within 16 bits, and then gives the running sums |
| `CompactBlock.RequestRoundTrip` | src/blockencodings.h:37-68 | increasing indexes are read back as they were |
| `CompactBlock.RequestIsIncreasing` | src/blockencodings.h:37-68 | whatever is read is strictly increasing, and is what the encoder would have sent for it |
| `CompactBlock.ReadIndexes` | src/blockencodings.h:43-60 | the in-place loops compute the indexes, or fail where they must |
| `CompactBlock.Relay` | src/blockencodings.cpp:20-237 | message, matching, request and filling together: without collisions the receiver ends with the sender's block, the only failures are those of size, short ids and CheckBlock, and of what the pools offer undisputed nothing is asked for, of what they do not offer everything |
| `Base58.RoundTrip` | src/base58.cpp:21-109 | every list of bytes is read back from its text |
| `Base58.EncodeOfDecode` | src/base58.cpp:21-109 | every accepted text, without the spaces around it, is the text of what it denotes |
| `Base58.Alphabet` | src/base58.cpp:18-19 | digits and alphabet are in bijection, no character of it is a space, and 1 is the digit 0 |
| `Radix.TextFits` | src/base58.cpp:34 | 58^n <= 256^(n * 733 / 1000 + 1) for every n: the decoder's buffer always suffices |
| `Radix.BytesFit` | src/base58.cpp:81 | 256^n <= 58^(n * 138 / 100 + 1) for every n: the encoder's buffer always suffices |
| `Base58.MulAdd` | src/base58.cpp:43-52 | the digit loop multiplies the number in the buffer and adds a digit, and no carry is left where the result fits |
| `Base58.Convert` | src/base58.cpp:71-109 | the loop over all digits gives the shortest digits of the same number in the other base |
| `Base58.EncodeBase58` | src/base58.cpp:71-109 | the text of the bytes; the assertion on the carry holds |
| `Base58.DecodeBase58` | src/base58.cpp:21-69 | the bytes denoted, or failure exactly for texts that denote nothing; the assertion on the carry holds |
| `Bech32.StepLinear` | src/bech32.cpp:36-49 | a step of the checksum is linear over exclusive or |
| `Bech32.PolyLinear` | src/bech32.cpp:36-49 | the checksum of a text is the exclusive or of what the register makes of zeros and what the text makes of an empty register |
| `Bech32.ChecksumIsRight` | src/bech32.cpp:72-94 | six symbols verify if and only if they are the created checksum |
| `Bech32.StepIsInjective` | src/bech32.cpp:36-49 | different registers stay different |
| `Bech32.BurstShows` | src/bech32.cpp:36-49 | changing up to six consecutive symbols always changes the checksum |
| `Bech32Text.BurstIsDetected` | src/bech32.cpp:72-80 | a change confined to six consecutive symbols never verifies under the same encoding |
| `Bech32Text.OneErrorIsDetected` | src/bech32.cpp:72-80 | a change of one symbol never verifies under the same encoding |
| `Bech32Text.ExpandTellsPrefixes` | src/bech32.cpp:56-70 | different prefixes of one-byte characters expand to different symbols |
| `Bech32Text.RoundTrip` | src/bech32.cpp:98-150 | every legible prefix and payload within 90 characters come back with their encoding, the prefix in lower case |
| `Bech32Text.EncodeOfDecode` | src/bech32.cpp:98-150 | every accepted text, in lower case, is the text of what it stands for |
| `Bech32Text.ComputePolyMod` | src/bech32.cpp:36-49 | the loop computes the checksum of the specification |
| `Bech32Text.EncodeText` | src/bech32.cpp:98-114 | the loops compute the text |
| `Bech32Text.DecodeText` | src/bech32.cpp:116-150 | the loops compute the parts, or fail where the specification does |
| `ConsensusTiers.Params.GetConsensusIsLatest` | src/chainparams.cpp:1730-1743 | in an ordered tree the tier with the greatest height not above h is found; where there is none, the first tier is given |
| `ConsensusTiers.Params.ArmMigrationTiers` | src/chainparams.cpp:156-165 | every tier of the tree, and so the one found for any height, carries the values; nothing else changes |
| `ConsensusTiers.Params.Link` | src/chainparams.cpp:1177-1180 | linking an ordered tree of lower and one of higher tiers under a tier gives an ordered tree of all of them |
| `ConsensusTiers.MainTiers` | src/chainparams.cpp:520-527 | mainnet: the tree is ordered, and at every height the tier in force is the last reached of 0 and 1 |
| `ConsensusTiers.RegtestTiers` | src/chainparams.cpp:1166-1180 | regtest: the same for the heights 0, 10 and 20 |
| `ConsensusTiers.StagenetTiers` | src/chainparams.cpp:1590-1654 | stagenet: the same for the heights 0, 1, 100 and 100000 |

## Left out

- Threads: the check queue is a state machine whose steps are the stretches of code between two lock operations; locks and condition variables themselves are not code here, and the cuckoo cache's flags are not shared atomics.
- CoinsUsage.TotalUsage: what a record uses is a function of its value, so the spare capacity that a vector keeps after shrinking is not modelled; the counter is an unbounded number, and `DynamicMemoryUsage` of the map itself is left out.
- The chainstate database beyond a map with a best block: batching, failing writes and the other tables of src/txdb.cpp.
- VarInt.Read: reads into unsigned types; where the code reads into an `int`, shifting beyond its width is undefined in C++ and the model wraps around instead.
- AddrManFile.Unserialize: the items of the file stand for its bytes, without the version and key-size bytes and the fallback for another bucket count. Reading into a manager whose maps already hold entries without references could trip an assertion in the deletions at the end, and is excluded.
- `Select_` and `GetChance` of the address manager, which only read and depend on floating-point chances; `IsTerrible` is a plain test on given times.
- Floating-point sizing and false-positive rates of the bloom filter and the cuckoo cache.
- Block headers of compact blocks beyond whether they are null, the logged counters `prefilled_count` and `extra_count`, and the compact-size bytes of request indexes.
- Detection of several scattered errors by the Bech32 checksum, which rests on a computation over all pairs of positions rather than on an argument.
- `GetBlockProofEquivalentTime`, and hexadecimal and floating-point conversions of large numbers: easy beside what is here.
- Everything that talks to disks, sockets, wallets or the script interpreter, and the plain bloom filter, whose laws are easier than those of the rolling one.

# Verified models of the core of the node

Dafny models of the parts of the node with the most state and the most arithmetic, and proofs of what they promise.

| files | source | what is proved |
|---|---|---|
| `AddrBook`, `AddrMan` | `src/addrman.cpp` | every operation of the address manager keeps its full invariant, and has exactly the stated effect |
| `AddrCheck` | `src/addrman.cpp` | the consistency oracle accepts exactly the states with that invariant, up to three things it does not look at |
| `AddrFile`, `AddrLoad`, `AddrRoundTrip` | `src/addrman.h` | reading a written address manager gives it back up to renaming ids |
| `CheckQueue` | `src/checkqueue.h` | in every interleaving the result of `Wait` is exact, no wake-up is lost, and `Wait` ends |
| `Coins` | `src/coins.cpp` | a stack of coin caches of any depth acts like one flat map of unspent coins |
| `CuckooCache` | `src/cuckoocache.h` | an insert follows its exact path of displacements and loses at most one element, none is stored twice, and the load is bounded over every run |
| `PartialMerkleTree` | `src/merkleblock.cpp` | extraction is sound for arbitrary data and inverts building |
| `MerkleRoot` | `src/consensus/merkle.cpp` | the computation in constant space finds the root level by level, and the root determines the transactions unless they are reported as mutated |
| `Limbs`, `Shifts`, `ArithUint` | `src/arith_uint256.cpp` | limb arithmetic refines arithmetic modulo 2^256; division is exact |
| `Compact`, `CompactTarget` | `src/arith_uint256.cpp`, `src/chain.cpp` | the compact code is a monotone, idempotent rounding; block proofs are exact |
| `Pow`, `Retarget` | `src/pow.cpp` | exactly when the retarget rule averages, stays within a factor of three, and asks for a target at all |
| `Chain`, `SkipSteps` | `src/chain.cpp` | skip pointers with the exact maximum of their steps, tip changes, forks and locators |
| `Numerals`, `Base58` | `src/base58.cpp` | both round trips, and the size estimates |
| `Bech32`, `TenBits`, `Bech32Errors` | `src/bech32.cpp` | both round trips, and detection of every change within six neighbouring symbols and of any three within 1023 |
| `RollingBloom` | `src/bloom.cpp` | the filter table holds exactly the positions of the last two full generations and the current one |
| `NetFraming` | `src/net.cpp` | what was pushed is received in order, for any partial sends and any chunks |

`Hiding`, `Wrappers`, `Folded`, `NatMath`, `Sets`, `Bags` and `BitByte` are shared helpers.  `Hiding.Look` keeps
definitions folded: a body behind `Look` plays a part only in proofs that mention `Look`, and the lemma `XIs` of such a definition `X` unfolds it.

Objects that the source updates in place are classes, its loops are loops, its limb and digit buffers are arrays; the
concurrent queue is a state machine over its critical sections, wake-ups and single checks.  Clocks, random draws, hash
functions and the results of the socket are parameters.

## Where the code does something else than expected

- `a *= a` through the same object gives zero (`ArithUint.Uint.MulAssign`): the factor is read after it was cleared.
- The average of the retarget rule lies between the targets if and only if 25 times the greatest target a block can
  carry fits 256 bits (`RetargetExact.FaithfulIff`).  On the regression test network it does not: 24 blocks with bits
  0x207fffff have a smaller average (`RetargetExact.RegtestAverage`).
- The product of average and time span is cut to 256 bits, and only 32 bits of the span reach it.  On the regression
  test network 24 blocks with bits 0x20040000 that took 64 seconds make the next target zero, and no hash is accepted
  any more (`RetargetExact.RegtestVanishes`, `Pow.RegtestStops`); nothing in `src/pow.cpp` reads the switch that turns
  retargeting off.  `RetargetExact.RetargetsIff` says exactly which limits and spacings are safe.
- The average counts the newest of the 24 targets twice (`RetargetSpec.NewestCountsTwice`).
- The seven largest sizes of a cuckoo cache get no flags, because the number of flag bytes is computed in 32 bits
  (`PackedFlags.FlagsSuffice`).
- The epoch size of the cuckoo cache is computed in 32 bits, so `45 * size` wraps around for large tables.  The comment
  says that the first displacement takes the first place of an element; the code takes the second (`CuckooCache.NextPlace`).
- The comment limits the computation of a Merkle root to 2^32 leaves; its 32-bit count holds up to 2^31.
- Extracting from a partial Merkle tree clears the list of matches, but only appends to the list of indexes.
- Adding an address reports a new entry even if that entry found no place and was deleted again.
- The oracle of the address manager accepts an address that leads to no entry (`AddrCheck.StaleAddressPasses`), because
  it never goes through the address index, and looking up a missing address inserts a zero.
- A coin cache stays consistent after `AddCoin` if and only if the coin is unspendable, overwriting was announced, the
  outpoint is cached, or no coin is shown there.

## Model

| member | source | states |
|---|---|---|
| `AddrBook.Keyed.TriedBucket` | src/addrman.cpp:12-17 | the bucket is one of the 256 tried buckets, whatever the hash |
| `AddrBook.Keyed.NewBucket` | src/addrman.cpp:19-25 | the bucket is one of the 1024 new buckets, whatever the hash |
| `AddrBook.Keyed.BucketPosition` | src/addrman.cpp:27-31 | the position is one of the 64 of a bucket |
| `AddrBook.TriedSpread` | src/addrman.h:147-148 | all addresses of one group together reach at most eight tried buckets, whatever the hash |
| `AddrBook.NewSpread` | src/addrman.h:150-151 | all that one source group announces reaches at most 64 new buckets |
| `AddrBook.TriedBucketsAreFree` | src/addrman.cpp:12-17 | the hash places every address on its own: any two tried buckets are possible for two different addresses |
| `AddrBook.NewBucketsAreFree` | src/addrman.cpp:19-25 | the new bucket depends on the groups of address and source alone, and any two are possible for different pairs of groups |
| `AddrBook.PositionsAreFree` | src/addrman.cpp:27-31 | any two positions are possible if table, bucket or address differs |
| `AddrBook.IsTerrible` | src/addrman.cpp:33-51 | not tried within a minute, and without a time, from the future, older than 30 days, failed three times without ever a success, or failed ten times and not once successful within a week |
| `AddrBook.UnslotKeeps` | src/addrman.cpp:127-140 | emptying a new slot keeps the invariant; an entry that loses its last slot is exactly what is then in limbo and over-counted by one |
| `AddrBook.SlotKeeps` | src/addrman.cpp:303-305 | filling a free new slot with an entry of fewer than eight references keeps the invariant and takes the entry out of limbo |
| `AddrBook.DropKeeps` | src/addrman.cpp:113-125 | deleting an entry that is in no table keeps the invariant of the rest |
| `AddrBook.NewEntryHasSlot` | src/addrman.cpp:219-229 | an entry that is not tried is found at its computed position in some new bucket |
| `AddrBook.FindIsExact` | src/addrman.cpp:68-79 | the address index leads to exactly the entry with that service, if there is one |
| `AddrMan.AddrMan.constructor` | src/addrman.h:456-483 | the empty address manager satisfies the invariant |
| `AddrMan.AddrMan.SwapRandom` | src/addrman.cpp:93-111 | two positions of the random order are exchanged; every entry still knows its own position and nothing else changes |
| `AddrMan.AddrMan.Delete` | src/addrman.cpp:113-125 | an entry without references disappears from all three maps; the order stays a permutation with exact back-pointers |
| `AddrMan.AddrMan.ClearNew` | src/addrman.cpp:127-140 | the slot is empty, its old entry has one reference less or, with the last one gone, is deleted; the invariant is kept |
| `AddrMan.AddrMan.LeaveNewTable` | src/addrman.cpp:144-154 | the entry is in no new bucket any more and its reference count is exactly zero, so the assertion cannot fail |
| `AddrMan.AddrMan.TakeFromTried` | src/addrman.cpp:163-170 | the evicted id is a known entry other than the one being moved |
| `AddrMan.AddrMan.Evict` | src/addrman.cpp:161-182 | the evicted entry is back in its own new bucket with one reference; only the entry in the way there loses a slot |
| `AddrMan.AddrMan.TakeTriedSlot` | src/addrman.cpp:183-187 | the moved entry is in its tried slot and counted, and the invariant is complete again |
| `AddrMan.AddrMan.MakeTried` | src/addrman.cpp:142-188 | the whole new state: the promoted entry, the evicted one, the one it displaces, both tables; no assertion fails |
| `AddrMan.AddrMan.FindService` | src/addrman.cpp:68-79 | an id exactly if some entry has this address and port |
| `AddrMan.AddrMan.NoteSuccess` | src/addrman.cpp:208-213 | times and attempts of the entry are updated and the invariant is kept |
| `AddrMan.AddrMan.FindNewBucket` | src/addrman.cpp:219-234 | the scan always ends in a bucket that holds the entry: the exit for no bucket is unreachable |
| `AddrMan.AddrMan.Good` | src/addrman.cpp:190-239 | an unknown service changes nothing; a known one gets its times of success and try and no attempts, while its own time stays; it ends up in the tried table, and what that moves is stated |
| `AddrMan.AddrMan.Create` | src/addrman.cpp:81-91 | a new id, indexed by its address, at the end of the order and in no table |
| `AddrMan.Refreshed` | src/addrman.cpp:257-264 | a repeated announcement changes at most the time and the services of an entry |
| `AddrMan.RefreshRule` | src/addrman.cpp:256-261 | the time of a known entry changes exactly if it had none, or is behind by more than the penalty and an hour (a day for addresses not seen within a day); it never goes back |
| `AddrMan.MoreRule` | src/addrman.cpp:266-283 | no further bucket without news, for a tried entry or with eight references; otherwise for one of 2^refCount random draws |
| `AddrMan.ReplaceRule` | src/addrman.cpp:293-301 | which slots a new reference may take: free ones, those of terrible entries, and for an entry without a reference those of entries that have others |
| `AddrMan.StochasticTest` | src/addrman.cpp:279-283 | one more reference is allowed with chance one in two to the number of references |
| `AddrMan.AddrMan.Refresh` | src/addrman.cpp:256-283 | what a repeated announcement records and whether a further bucket is tried, in every case |
| `AddrMan.AddrMan.TakeSlot` | src/addrman.cpp:302-306 | the slot goes to the entry and its old holder loses one reference or is deleted |
| `AddrMan.AddrMan.Place` | src/addrman.cpp:291-311 | who gets the chosen slot: nothing changes if the entry has it, it is taken from a terrible or multiply referenced holder, and an entry left without a place is deleted |
| `AddrMan.AddrMan.Introduce` | src/addrman.cpp:284-289 | the entry of an unknown address, counted and with the penalised time |
| `AddrMan.AddrMan.AddKnown` | src/addrman.cpp:256-312 | the whole effect of announcing a known address |
| `AddrMan.AddrMan.AddUnknown` | src/addrman.cpp:284-312 | the new entry as announced in its one slot, or nothing at all; no slot is taken from a decent entry with a single reference |
| `AddrMan.AddrMan.Add` | src/addrman.cpp:241-315 | the result and the whole effect for unroutable, unknown and known addresses; the fields of a new entry; no slot is taken from an entry with a single reference that was tried within a minute, or was seen within 30 days and has not failed too often |
| `AddrMan.AddrMan.Attempt` | src/addrman.cpp:315-335 | exactly one entry gets the new try, and a counted failure at most once per success |
| `AddrMan.AddrMan.Connected` | src/addrman.cpp:483-501 | the time of a connected entry moves only after twenty minutes |
| `AddrMan.AddrMan.GetAddr` | src/addrman.cpp:463-482 | at most 23 percent and at most 2500 addresses, each once; only entries that were tried within a minute, or were seen within 30 days and have not failed too often; and all of those below the limit |
| `AddrMan.ListLimit` | src/addrman.cpp:464-466 | the greatest number up to 23 percent and 2500 |
| `AddrCheck.CheckEntry` | src/addrman.cpp:396-416 | zero exactly if everything that is checked about one entry holds, and otherwise the code of something that does not; a missing address is looked up as zero and inserted |
| `AddrCheck.CheckEntries` | src/addrman.cpp:393-417 | zero exactly if all entries pass; the collected sets are the tried ids and the references of the new ones |
| `AddrCheck.CheckTriedBucket` | src/addrman.cpp:425-435 | zero exactly if the bucket holds only entries that belong in their slots; crosses off those seen |
| `AddrCheck.CheckTried` | src/addrman.cpp:424-436 | the same for the whole tried table |
| `AddrCheck.CheckNewSlot` | src/addrman.cpp:440-447 | a slot is refused only if the new table or a reference count is wrong |
| `AddrCheck.CheckNewBucket` | src/addrman.cpp:439-448 | the same for the slots of a bucket, counting references down |
| `AddrCheck.CheckNew` | src/addrman.cpp:438-449 | the same for the whole new table |
| `AddrCheck.Check` | src/addrman.cpp:385-459 | the oracle returns zero exactly on the states with `Passes`, any other code names a fault that is there, and at most zeroes are inserted into the address index |
| `AddrCheck.FaultsFail` | src/addrman.cpp:385-459 | each fault that a code can name is incompatible with `Passes` |
| `AddrCheck.PassesIsInvariant` | src/addrman.cpp:385-459 | what the oracle accepts is the invariant of the address manager, up to the three things it overlooks; both directions |
| `AddrCheck.Pigeonhole` | src/addrman.cpp:390-412 | as many positions as entries and one back-pointer per entry make the order a permutation |
| `AddrCheck.StaleAddressPasses` | src/addrman.cpp:385-459 | a state that the oracle accepts and the invariant rejects |
| `AddrCheck.CheckValid` | src/addrman.cpp:385-459 | on every state with the invariant the oracle returns zero and changes nothing |
| `AddrFile.CountsWritten` | src/addrman.h:316-332 | the counters are exact, so the assertions while writing cannot fail |
| `AddrFile.WriteNews` | src/addrman.h:314-324 | the entries with references in ascending order, and the index of each |
| `AddrFile.WriteTrieds` | src/addrman.h:325-333 | the tried entries in ascending order |
| `AddrFile.WriteTable` | src/addrman.h:334-347 | for every bucket the indexes of the entries it holds |
| `AddrFile.WriteBucket` | src/addrman.h:341-346 | the indexes of one bucket in order |
| `AddrFile.Serialize` | src/addrman.h:301-348 | both counters, the records of the new and the tried entries and the indexes of every bucket, as the state has them |
| `AddrFile.SectionsOfJoined` | src/addrman.h:363-364 | the counters tell the new entries from the tried ones again |
| `AddrLoad.LoadNew` | src/addrman.h:380-396 | one new entry is read |
| `AddrLoad.LoadTried` | src/addrman.h:401-417 | one tried entry is read, or lost to a collision and counted as lost |
| `AddrLoad.LoadIndex` | src/addrman.h:424-435 | one table index is read; it is ignored unless its slot is free and the entry has fewer than eight references |
| `AddrLoad.PruneOne` | src/addrman.h:440-448 | exactly an entry without a bucket is deleted |
| `AddrLoad.Prune` | src/addrman.h:438-448 | exactly the entries without a bucket are deleted, and the invariant is complete again |
| `AddrLoad.LoadEntries` | src/addrman.h:379-418 | the state after both loops over the entries |
| `AddrLoad.LoadTable` | src/addrman.h:420-436 | the state after the loop over the buckets |
| `AddrLoad.LoadedIsSound` | src/addrman.h:379-436 | before pruning, the loaded state breaks the invariant only by entries without a bucket |
| `AddrLoad.LoadedWithoutTable` | src/addrman.h:386-396 | from a file of another version or with another number of buckets, every new slot goes to the first entry that has it as its primary slot |
| `AddrLoad.LoadedNeverTried` | src/addrman.h:68-77 | a loaded entry remembers no connection attempt |
| `AddrLoad.Unserialize` | src/addrman.h:351-454 | fails exactly on a wrong key size, too many entries or fewer records than the counters announce; otherwise the invariant holds and only entries without a bucket are lost |
| `AddrRoundTrip.WrittenIsSmall` | src/addrman.h:371-377 | a consistent address manager never exceeds the limits of the reader |
| `AddrRoundTrip.LoadAfterSave` | src/addrman.h:301-454 | reading what was written loses no entry; service, services, time, source, success, attempts, reference count and table of every entry come back, as do slots and counters, up to renaming ids; the times of tries start at zero |
| `AddrRoundTrip.SaveAndLoad` | src/addrman.h:301-454 | the same for the two methods, with the invariant at the end |
| `CheckQueue.BatchSize` | src/checkqueue.h:107 | a thread takes at least one check and never more than are queued |
| `CheckQueue.BatchIsShare` | src/checkqueue.h:103-107 | the greatest share of the queue among all threads, the idle ones counted twice, that keeps to the limit, but at least one check |
| `CheckQueue.PoppedAt` | src/checkqueue.h:109-114 | checks are taken last in, first out |
| `CheckQueue.PoppedBag` | src/checkqueue.h:109-114 | the batch and what stays queued are together exactly the old queue |
| `CheckQueue.StepInv` | src/checkqueue.h:66-124 | every step of every thread keeps the invariant: `nTodo` is the queued checks plus all batches in flight, the thread counts are exact, the verdict accounts for every check that is gone |
| `CheckQueue.RunInv` | src/checkqueue.h:66-158 | the invariant holds in every state of every interleaving |
| `CheckQueue.WaitIsExact` | src/checkqueue.h:88-97 | in every run `Wait` returns only after every added check is accounted for, and returns true exactly if all checks added since the previous `Wait` pass, although checks are skipped after a failure |
| `CheckQueue.AddedIsHistory` | src/checkqueue.h:146-158 | the checks added since the last `Wait`, read off the run itself |
| `CheckQueue.SkippedAfterFailure` | src/checkqueue.h:115-122 | once a check has failed, no check of a batch taken later is run until `Wait` returns |
| `CheckQueue.WaitCanProceed` | src/checkqueue.h:75-117 | inside `Wait` some thread always has a step, and a sleeping master waits for a batch that a worker holds |
| `CheckQueue.AddWakesEnough` | src/checkqueue.h:146-158 | adding two checks or more leaves no worker asleep; adding one wakes one sleeping worker and no other |
| `CheckQueue.RunAwake` | src/checkqueue.h:66-158 | in every state of every run with queued checks and a worker in the loop, some worker is not asleep |
| `CheckQueue.WorkersProceed` | src/checkqueue.h:66-158 | no wake-up of a worker is lost: in every state of every run with queued checks and a worker in the loop, some worker is awake and has a step |
| `CheckQueue.StepBringsReturnCloser` | src/checkqueue.h:73-123 | every step inside `Wait` but a spurious wake-up decreases a measure |
| `CheckQueue.WaitTerminates` | src/checkqueue.h:140-143 | a run without spurious wake-ups that is longer than the measure contains the return of `Wait` |
| `Coins.MergedIsSound` | src/coins.cpp:145-199 | merging an honest entry never throws, shows exactly what the child showed and leaves an entry that the views below allow |
| `Coins.MergedFlags` | src/coins.cpp:145-199 | the flags of a merged entry, and exactly when it disappears |
| `Coins.MergeInto` | src/coins.cpp:145-199 | fails exactly if some FRESH flag is misapplied; otherwise every entry is merged, in any order |
| `Coins.StoreInto` | src/coins.cpp:145-199 | the same for the database under the lowest cache |
| `Coins.CoinsView.Database` | src/coins.cpp:10-14 | a map of unspent coins is a valid lowest view |
| `Coins.CoinsView.OnTop` | src/coins.cpp:34 | an empty cache shows what is below it |
| `Coins.CoinsView.LookUnspent` | src/coins.cpp:57-64 | no view ever shows a spent coin |
| `Coins.CoinsView.FetchCoin` | src/coins.cpp:40-55 | the shown coins do not change, at any depth; the entry is cached exactly if there is one to cache |
| `Coins.CoinsView.GetCoin` | src/coins.cpp:57-64 | finds exactly the unspent coin that the view shows |
| `Coins.CoinsView.HaveCoin` | src/coins.cpp:125-128 | true exactly if the view shows an unspent coin |
| `Coins.CoinsView.AddCoin` | src/coins.cpp:66-85 | throws exactly on a promised-absent cached coin; shows the coin, sets exactly these flags and changes nothing else; the cache stays consistent if and only if the overwrite promise was true or not needed |
| `Coins.CoinsView.AddCoins` | src/coins.cpp:87-96 | every output is shown with its value, script, height and origin, unless its script starts with OP_RETURN or exceeds 10000 bytes; nothing else changes |
| `Coins.CoinsView.SpendCoin` | src/coins.cpp:98-112 | the coin is gone and returned; nothing else changes; a fresh entry leaves no trace |
| `Coins.CoinsView.Uncache` | src/coins.cpp:210-217 | dropping an unmodified entry changes nothing that is shown |
| `Coins.CoinsView.BatchWrite` | src/coins.cpp:145-201 | throws exactly on a misapplied FRESH flag; with honest flags it shows the written coins over the old ones |
| `Coins.CoinsView.Flush` | src/coins.cpp:203-208 | never throws; afterwards the view below and the emptied cache both show what the cache showed |
| `Coins.CoinsView.Perform` | src/coins.cpp:40-217 | one honest operation has exactly its effect on the flat map of unspent coins |
| `Coins.CoinsView.Run` | src/coins.cpp:40-217 | any run of honest operations on a stack of any depth acts as if there were no caches |
| `PackedFlags.Setup` | src/cuckoocache.h:61-68 | all flags that fit the bytes are set; the number of bytes is computed in 32 bits |
| `PackedFlags.FlagsSuffice` | src/cuckoocache.h:61-68 | every entry has a flag if and only if the size is at most 0xFFFFFFF8; the seven larger sizes get no flag at all |
| `PackedFlags.BitSet` | src/cuckoocache.h:92-95 | sets one flag and no other |
| `PackedFlags.BitUnset` | src/cuckoocache.h:103-106 | clears one flag and no other |
| `CuckooCache.LocInRange` | src/cuckoocache.h:243-253 | all eight places of an element are slots of the table |
| `CuckooCache.LocsDivide` | src/cuckoocache.h:243-253 | each place is its own hash scaled down to the table |
| `CuckooCache.EverySlotReached` | src/cuckoocache.h:243-253 | every slot is the place of some hash |
| `CuckooCache.NextPlace` | src/cuckoocache.h:416-430 | the second of the eight places at first, and never the place looked at last if the eight differ |
| `CuckooCache.NextPlaceIs` | src/cuckoocache.h:420-430 | the place after the first one that is the one looked at last, going round |
| `CuckooCache.FoundAtLocs` | src/cuckoocache.h:467-477 | a stored element that is not the default is at one of its eight places |
| `CuckooCache.Cache.constructor` | src/cuckoocache.h:340-353 | nothing is stored and the invariant holds, unless the size is one of the seven that get no flags; the epoch size is 45 percent of the size computed in 32 bits |
| `CuckooCache.Cache.Contains` | src/cuckoocache.h:467-477 | true exactly if the element is in the table; erasing frees exactly its slot |
| `CuckooCache.Cache.CountUnused` | src/cuckoocache.h:297-300 | the exact number of live elements of the current epoch |
| `CuckooCache.Cache.AgeEpochs` | src/cuckoocache.h:306-310 | the previous epoch is freed and the current one becomes the previous |
| `CuckooCache.Cache.EpochCheck` | src/cuckoocache.h:289-321 | afterwards one more element fits the bound, although elements are counted only when the counter runs out; the new counter in every case |
| `CuckooCache.Cache.KeepIfPresent` | src/cuckoocache.h:400-405 | an element that is there is live and of the current epoch, and no other is touched |
| `CuckooCache.Cache.TryStore` | src/cuckoocache.h:408-415 | the element takes the first of its places that is free, or all eight are taken |
| `CuckooCache.Cache.Swap` | src/cuckoocache.h:430-435 | the held element and a live one change places; no element is stored twice |
| `CuckooCache.Cache.Displace` | src/cuckoocache.h:406-439 | the exact path of displacements: each round with all eight places taken moves the element in hand to its next place; it ends with a free place, or after the depth limit with the loss of the element in hand; all others are kept |
| `CuckooCache.Cache.Insert` | src/cuckoocache.h:392-440 | the same after the epoch check, with the invariant; an element with a free place is stored there at once and nothing is lost; if nothing is lost, the new element is in the table |
| `CuckooCache.StoredAtOnce` | src/cuckoocache.h:406-415 | a free place ends the insertion in the first round |
| `CuckooCache.Cache.InsertAndErase` | src/cuckoocache.h:442-456 | an inserted element that is found and erased is found again |
| `CuckooCache.Cache.LoadIsBounded` | src/cuckoocache.h:289-321 | at most 2 * (E + max(1, E / 16)) live elements, for epoch size E |
| `CuckooCache.Cache.Run` | src/cuckoocache.h:289-477 | every run of inserts and erasing lookups keeps that bound |
| `MerkleSpec.WidthIsLeafCount` | src/merkleblock.h:66-68 | a node exists exactly if its first leaf does |
| `MerkleSpec.Children` | src/merkleblock.cpp:67-75 | the children of a node split its leaves; the right one may be missing |
| `MerkleSpec.ExtractIsSound` | src/merkleblock.cpp:78-114 | for arbitrary bits and hashes: if the hash of a node is the true one, every match reported below it is authentic, even if the number of transactions is not the claimed one, as long as they are distinct |
| `MerkleSpec.ExtractionIsSound` | src/merkleblock.cpp:132-163 | the same for the whole tree and its limits, for every claimed number that gives a tree of the same height |
| `MerkleSpec.SiblingsDiffer` | src/merkleblock.cpp:100-107 | distinct transactions never trip the check for equal branches |
| `MerkleSpec.ExtractConsumes` | src/merkleblock.cpp:60-114 | decoding the encoding of a node gives its hash and exactly its matches |
| `MerkleSpec.RoundTrip` | src/merkleblock.cpp:60-163 | building and extracting gives the true root and exactly the matched transactions with their positions, in order, and uses every hash |
| `MerkleSpec.RootIsLevelRoot` | src/consensus/merkle.cpp:14-30 | that root is what is left when neighbours are hashed level by level, the last of an odd number with itself |
| `MerkleSpec.MatchedIsExact` | src/merkleblock.cpp:93-96 | the reported positions are exactly the matched ones, ascending |
| `MerkleSpec.HashCount` | src/merkleblock.cpp:60-76 | at most one hash per transaction and at most one plus the height per match |
| `PartialMerkleTree.PackBits` | src/merkleblock.h:100-102 | every bit is in its place, and the padding is zero |
| `PartialMerkleTree.UnpackBits` | src/merkleblock.h:95-97 | every bit of every byte, in order |
| `PartialMerkleTree.ComputeHeight` | src/merkleblock.cpp:121-124 | the least height whose power of two reaches the number of transactions |
| `PartialMerkleTree.ParentOfMatch` | src/merkleblock.cpp:61-64 | true exactly if some transaction below the node is matched |
| `PartialMerkleTree.Tree.constructor` | src/merkleblock.cpp:116-128 | holds the encoding of the whole tree |
| `PartialMerkleTree.Tree.FromBytes` | src/merkleblock.h:91-98 | holds the fields that were read |
| `PartialMerkleTree.Tree.TraverseAndBuild` | src/merkleblock.cpp:60-76 | appends exactly the encoding of the node |
| `PartialMerkleTree.Tree.TraverseAndExtract` | src/merkleblock.cpp:78-114 | refines the decoder on values, with the counters and lists it updates |
| `PartialMerkleTree.Tree.ExtractMatches` | src/merkleblock.cpp:132-163 | zero and no matches on every violated limit; otherwise zero unless all hashes and all bits but the padding are used; the list of matches is cleared, the list of indexes only grows |
| `PartialMerkleTree.SendAndReceive` | src/merkleblock.cpp:60-163 | building, packing, unpacking and extracting, end to end, gives the root of the block |
| `MerkleRoot.AddLeaf` | src/consensus/merkle.cpp:54-90 | one leaf of the computation in constant space: the array holds the last complete subtree of every height with an odd number of them |
| `MerkleRoot.Sweep` | src/consensus/merkle.cpp:91-127 | the sweep over the last branch ends with the root |
| `MerkleRoot.ComputeMerkleRoot` | src/consensus/merkle.cpp:46-137 | zero for no transactions, and otherwise the root found level by level; mutated exactly if two complete subtrees that are hashed together are equal |
| `MerkleRoot.RootDeterminesList` | src/consensus/merkle.cpp:37-42 | two lists with the same root and trees of the same height are equal, unless one of them is reported as mutated |
| `MerkleRoot.RepeatedLastIsMutated` | src/consensus/merkle.cpp:14-42 | repeating the last of an odd number of transactions keeps the root and is reported |
| `MerkleRoot.DistinctIsNotMutated` | src/consensus/merkle.cpp:37-42 | distinct transactions are never reported |
| `ArithUint.Uint.AddAssign` | src/arith_uint256.h:141-151 | addition modulo two to the width, also with itself |
| `ArithUint.Uint.Complement` | src/arith_uint256.h:75-81 | the complement and the number add up to all ones |
| `ArithUint.Uint.Increment` | src/arith_uint256.h:179-186 | adds one, modulo two to the width |
| `ArithUint.Uint.Negated` | src/arith_uint256.h:83-90 | the negation modulo two to the width |
| `ArithUint.Uint.SubAssign` | src/arith_uint256.h:153-157 | subtraction modulo two to the width |
| `ArithUint.Uint.MulAssign32` | src/arith_uint256.cpp:58-67 | multiplication by a 32-bit number, modulo two to the width |
| `ArithUint.Uint.MulRow` | src/arith_uint256.cpp:74-81 | one row of the product, with the carries that leave the number |
| `ArithUint.Uint.MulAssign` | src/arith_uint256.cpp:70-83 | multiplication modulo two to the width, unless the factor is the same object: then the result is zero |
| `ArithUint.Uint.ShiftLeft` | src/arith_uint256.cpp:24-38 | multiplication by a power of two, modulo two to the width, for every shift |
| `ArithUint.Uint.ShiftRight` | src/arith_uint256.cpp:41-55 | division by a power of two, rounded down, for every shift |
| `ArithUint.Uint.Bits` | src/arith_uint256.cpp:174-186 | the number of binary digits |
| `ArithUint.Uint.DivStep` | src/arith_uint256.cpp:99-106 | numerator minus quotient times divisor is kept in every round |
| `ArithUint.Uint.LongDivide` | src/arith_uint256.cpp:98-107 | the loop ends with the exact quotient |
| `ArithUint.Uint.DivAssign` | src/arith_uint256.cpp:86-109 | the exact quotient, rounded down, for every divisor but zero; zero is reported |
| `ArithUint.Aligned` | src/arith_uint256.cpp:91-98 | aligning the divisor never overflows |
| `ArithUint.Uint.CompareTo` | src/arith_uint256.cpp:112-121 | the order of the numbers |
| `ArithUint.Uint.EqualTo` | src/arith_uint256.cpp:124-135 | equality with a 64-bit number |
| `ArithUint.Uint.Assign64` | src/arith_uint256.h:94-101 | the 64-bit number |
| `ArithUint.Uint.GetLow64` | src/arith_uint256.h:251-255 | the number modulo two to the 64 |
| `CompactTarget.SetCompact` | src/arith_uint256.cpp:206-224 | the decoded number cut to 256 bits; overflow is reported exactly if it does not fit, and negative exactly for a sign on a number that is not zero |
| `CompactTarget.LeadingBytes` | src/arith_uint256.cpp:228-235 | the three leading bytes |
| `CompactTarget.GetCompact` | src/arith_uint256.cpp:226-247 | the code of the number, with the sign on request |
| `CompactSpec.CompactRoundsDown` | src/arith_uint256.cpp:226-247 | coding rounds down by less than one part in 2^15 and sets no flag |
| `CompactSpec.CompactIdempotent` | src/arith_uint256.cpp:206-247 | coding a decoded code gives the same code |
| `CompactSpec.CompactMonotone` | src/arith_uint256.cpp:206-247 | rounding through the code keeps the order |
| `CompactSpec.CodedIsExact` | src/arith_uint256.cpp:206-247 | what a code stands for is not rounded again |
| `CompactSpec.CompactIsGreatest` | src/arith_uint256.cpp:226-247 | the code of a number stands for the greatest number up to it that has a code |
| `CompactTarget.GetBlockProof` | src/chain.cpp:166-179 | for every accepted code the exact quotient of 2^256 and the target plus one; zero for any other code |
| `CompactTarget.Work` | src/chain.cpp:174-178 | that quotient without leaving 256 bits |
| `CompactTarget.TargetBound` | src/chain.cpp:178 | no code stands for 2^256 - 1, so the divisor is never zero |
| `CompactTarget.WorkOf` | src/chain.cpp:174-178 | the identity behind the complement |
| `Pow.CheckProofOfWork` | src/pow.cpp:69-87 | accepted exactly if the code is a target within the limit and the hash does not exceed it |
| `Pow.AverageStep` | src/pow.cpp:107-108 | one step of the running average in 256 bits |
| `Pow.PastAverage` | src/pow.cpp:101-115 | the running average of the last 24 targets and the oldest of those blocks |
| `Pow.Rescale` | src/pow.cpp:121-129 | scaling by the clamped time span, of which 32 bits reach the multiplication |
| `Pow.DarkGravityWave` | src/pow.cpp:89-136 | the code of the limit for fewer than 25 blocks; otherwise the code of the rescaled average of the last 24 targets, with the time since the 24th |
| `RetargetSpec.SmoothBetween` | src/pow.cpp:101-115 | without overflow the running average lies between the smallest and the largest target |
| `RetargetSpec.SmoothIsMean` | src/pow.cpp:101-115 | and it is the running average in unbounded integers |
| `RetargetSpec.NewestCountsTwice` | src/pow.cpp:101-115 | which is the mean in which the newest of the 24 targets counts twice, less at most 299/25 for rounding |
| `RetargetSpec.RescaledIsProportional` | src/pow.cpp:117-133 | without overflow the next target is the average times the time taken, between a third of the intended time and three times as much, over the intended time, rounded down |
| `RetargetExact.FaithfulIff` | src/pow.cpp:101-115 | for all 24 codes of targets up to a limit the average lies between them, if and only if 25 times the greatest of these targets fits 256 bits |
| `RetargetSpec.NothingWraps` | src/pow.cpp:101-133 | with room for the products no step of the rule wraps |
| `RetargetSpec.RescaledBounds` | src/pow.cpp:119-133 | never above the limit or three times the average, for any inputs; at least a third of the average (or the limit) unless the span is cut or the product wraps |
| `RetargetSpec.NextTargetBounds` | src/pow.cpp:119-133 | the same after 24 targets, with the condition on average and spacing only |
| `RetargetExact.WithinThreeIff` | src/pow.cpp:119-133 | for all time spans the next target is within a factor of three of the average, if and only if the average is at most two, or the longest span fits 32 bits and its product with the average 256 bits |
| `RetargetExact.RetargetsIff` | src/pow.cpp:89-136 | for all 24 codes up to the limit and all block times the rule stays within a factor of three of the targets, if and only if no target exceeds two, or the shortest span fits 32 bits and the longest one leaves the product with the greatest target in 256 bits |
| `RetargetExact.NeverZeroIff` | src/pow.cpp:117-133 | with that room, no block times make the next target zero, if and only if the average is at least three |
| `RetargetExact.MainNetwork` | src/chainparams.cpp:75-76 | the limit and spacing of the main network (and of the test network, lines 208-210) satisfy both conditions |
| `RetargetExact.RegtestAverage` | src/chainparams.cpp:339-341 | on the regression test network 24 blocks with bits 0x207fffff have an average below their common target |
| `RetargetExact.RegtestVanishes` | src/chainparams.cpp:339-341 | there 24 blocks with bits 0x20040000 that took 64 seconds make the next target zero |
| `Pow.RetargetBounds` | src/pow.cpp:89-136 | if the products with the largest target fit, the decoded result lies between the rounding of min(smallest / 3, limit) and min(3 * largest, limit) |
| `Pow.NextWorkIsInRange` | src/pow.cpp:77-79 | the range check of `CheckProofOfWork` accepts the result if and only if the limit and the wrapped product of average and span, divided by the intended span, are not zero |
| `Pow.NextWorkIsTarget` | src/pow.cpp:77-79 | with room on the network and an average of at least three it always does |
| `Pow.RegtestStops` | src/pow.cpp:77-79 | after the 24 blocks above no hash is accepted on the regression test network |
| `SkipList.LowestOneInverted` | src/chain.cpp:115 | the lowest one bit becomes zero |
| `SkipList.BlockIndex.constructor` | src/validation.cpp:3525-3538 | a block indexed on top of a linked one is linked: its height is one more than that of its predecessor |
| `SkipList.BlockIndex.GetAncestor` | src/chain.cpp:128-153 | skip pointers find what stepping back finds, null exactly outside the chain; with all pointers built the walk takes the stated number of steps |
| `SkipList.BlockIndex.BuildSkip` | src/chain.cpp:160-164 | a tree grown block by block keeps valid skip pointers, and all of them |
| `SkipSteps.NearBound` | src/chain.cpp:118-153 | within 2^l of a multiple of a larger power of two: at most (l^2 + 6 l - 7) / 4 steps |
| `SkipSteps.WalkBound` | src/chain.cpp:118-153 | between any two heights below 2^l, for every l from ten: at most (l^2 + 8 l - 28) / 4 steps |
| `SkipSteps.WorstWalk` | src/chain.cpp:118-153 | and exactly that many from 2^l - 8 to 2, so the bound is the maximum |
| `SkipSteps.WalkBound18` | src/chain.cpp:123-124 | at most 110 steps within 2^18 blocks, as the comment found in simulations |
| `SkipSteps.WorstWalk18` | src/chain.cpp:123-124 | one walk takes all 110 |
| `SkipList.LastCommonAncestor` | src/chain.cpp:200-215 | the two blocks have the same ancestor at exactly the heights up to the returned block; null if there is no such height |
| `SkipList.CommonBelow` | src/chain.cpp:207-213 | below a common ancestor everything is common |
| `ActiveChain.Chain.constructor` | src/chain.h:515-517 | the empty chain |
| `ActiveChain.Chain.ContainsAncestors` | src/chain.h:545-548 | a block is in the chain exactly if it is an ancestor of the tip |
| `ActiveChain.Chain.SetTip` | src/chain.cpp:56-66 | the early stop leaves exactly the full chain of the new tip |
| `ActiveChain.Chain.FindFork` | src/chain.cpp:96-105 | the last common ancestor of the block and the tip |
| `ActiveChain.Chain.GetLocator` | src/chain.cpp:68-94 | the hashes at the locator heights, whichever way they are reached |
| `ActiveChain.LocatorDescends` | src/chain.cpp:75-91 | a locator starts at the block, strictly descends and ends at the genesis block |
| `ActiveChain.LocatorDistances` | src/chain.cpp:81-90 | the distances between its entries |
| `ActiveChain.LocatorIsShort` | src/chain.cpp:68-94 | at most 12 + log2(height) entries |
| `Base58.FindSymbol` | src/base58.cpp:43-45 | the value of a character, or none |
| `Base58.AlphabetIs` | src/base58.cpp:23 | the alphabet |
| `Base58.MulAdd` | src/base58.cpp:46-55 | the buffer is multiplied and the digit added; the carry always ends at zero |
| `Base58.EstimatesSuffice` | src/base58.cpp:37-38 | 733/1000 and 138/100 digits always suffice |
| `Base58.Significant` | src/base58.cpp:63-66 | leading zero digits are dropped and nothing else |
| `Base58.DecodeWord` | src/base58.cpp:37-57 | the number that the characters stand for, up to white space |
| `Base58.Encode` | src/base58.cpp:75-113 | the text stands for the bytes |
| `Base58.Decode` | src/base58.cpp:25-73 | succeeds exactly if the trimmed text has only alphabet characters, and then gives the bytes it stands for |
| `Base58.BytesUnique` | src/base58.cpp:25-113 | a text stands for one byte string only |
| `Base58.TextUnique` | src/base58.cpp:25-113 | a byte string has one text only |
| `Base58.DecodeAfterEncode` | src/base58.cpp:25-113 | decoding an encoded byte string gives it back, for every byte string |
| `Base58.EncodeAfterDecode` | src/base58.cpp:25-113 | encoding a decoded text without white space gives it back |
| `Bech32.AddSymbol` | src/bech32.cpp:80-91 | one step of the remainder |
| `Bech32.PolyMod` | src/bech32.cpp:37-94 | the remainder of the whole list |
| `Bech32Checksum.ShiftLinear` | src/bech32.cpp:80-91 | a step is linear over exclusive or |
| `Bech32Checksum.ShiftInjective` | src/bech32.cpp:80-91 | a step maps only zero to zero |
| `Bech32Checksum.FoldLinear` | src/bech32.cpp:37-94 | so the difference of two remainders is the remainder of the difference |
| `Bech32Checksum.BurstDetected` | src/bech32.cpp:37-94 | any change within six neighbouring symbols changes the remainder, for lists of any length |
| `Bech32Checksum.SingleChangeDetected` | src/bech32.cpp:118-125 | changing exactly one symbol changes the remainder |
| `Bech32Checksum.ChecksumVerifies` | src/bech32.cpp:118-139 | a created checksum verifies |
| `Bech32Checksum.ChecksumUnique` | src/bech32.cpp:118-139 | and no other six symbols do |
| `Bech32.ExpandHRP` | src/bech32.cpp:103-115 | the high bits, a zero and the low bits of the prefix |
| `Bech32.VerifyChecksum` | src/bech32.cpp:118-125 | true exactly if the remainder is one |
| `Bech32.CreateChecksum` | src/bech32.cpp:128-139 | the checksum symbols |
| `Bech32.Encode` | src/bech32.cpp:147-156 | prefix, separator, symbols and checksum |
| `Bech32.CheckCharacters` | src/bech32.cpp:160-167 | printable and not of both cases |
| `Bech32.ReadValues` | src/bech32.cpp:174-184 | the symbols, if all characters are in the character set |
| `Bech32.ReadPrefix` | src/bech32.cpp:185-188 | the prefix in lower case |
| `Bech32.RFind` | src/bech32.cpp:168 | the last separator |
| `Bech32.CharsetIs` | src/bech32.cpp:13 | the character set in the order of the symbols |
| `Bech32.Decode` | src/bech32.cpp:159-193 | every refusal and the result |
| `Bech32.DecodeAfterEncode` | src/bech32.cpp:147-193 | decoding an encoded text gives back a lower-case prefix and the symbols |
| `Bech32.EncodeAfterDecode` | src/bech32.cpp:147-193 | encoding a decoded text gives it back in lower case |
| `Bech32.SampleDecodes` | src/test/bech32_tests.cpp:28-29 | the shortest valid text of the tests decodes to its prefix and no symbols |
| `Bech32.ChangedValuesFail` | src/bech32.cpp:118-125 | a valid list of symbols changed within six neighbouring ones does not verify |
| `Bech32.ChangedTextRefused` | src/bech32.cpp:159-193 | a valid text with up to six neighbouring data characters replaced is refused, as long as the separator stays the last one |
| `TenBits.OrderIs1023` | src/bech32.cpp:46-48 | in the field with 1024 elements no smaller power of the generating element than the 1023rd fixes anything but zero |
| `TenBits.ThreeTerms` | src/bech32.cpp:46-48 | three terms at different places within 1023 that cancel under three consecutive powers vanish |
| `Bech32Errors.Roots` | src/bech32.cpp:84-91 | three consecutive powers are roots of the generator: the five constants are the five bits of x^6 there |
| `Bech32Errors.ValueOfShift` | src/bech32.cpp:66-91 | at a root of the generator a step of the remainder is multiplication |
| `Bech32Errors.ValueOfFold` | src/bech32.cpp:37-94 | so the remainder of a list has the value of the list there |
| `Bech32Errors.ThreeChangesDetected` | src/bech32.cpp:46-48 | up to three changed symbols within a window of 1023 always change the remainder, for lists of any length |
| `Bech32Errors.ThreeChangedValuesFail` | src/bech32.cpp:118-125 | so up to three wrong symbols within 1023 of a valid list do not verify |
| `Bech32Errors.ThreeChangedTextRefused` | src/bech32.cpp:159-193 | and a valid text with up to three data characters replaced is refused, as long as the separator stays the last one |
| `GenerationBits.Write` | src/bloom.cpp:273-274 | writes one bit and no other |
| `GenerationBits.Read` | src/bloom.cpp:291 | the bit |
| `RollingBloom.WipePair` | src/bloom.cpp:260-263 | removes one generation from 64 positions |
| `RollingBloom.Wipe` | src/bloom.cpp:259-264 | removes one generation from all positions and changes no other label |
| `RollingBloom.Mark` | src/bloom.cpp:270-274 | labels one position and changes no other |
| `RollingBloom.PositionIs` | src/bloom.cpp:270-271 | which word and which bit a hash value points to |
| `RollingBloom.EveryPositionReached` | src/bloom.cpp:270-271 | every bit of every word below 2^26 is the position of some hash value |
| `RollingBloom.WipeKeeps` | src/bloom.cpp:250-265 | wiping the oldest generation leaves the labels of younger keys |
| `RollingBloom.CoveredAfterWipe` | src/bloom.cpp:250-265 | and leaves only labels of younger keys |
| `RollingBloom.LastOnesAreYoung` | src/bloom.cpp:222-224 | the last two full generations and the current one are young enough |
| `RollingBloom.KeepsAfterWipe` | src/bloom.cpp:250-265 | so after wiping the table still holds exactly the positions of the keys of the last three generations |
| `RollingBloom.Filter.constructor` | src/bloom.cpp:216-241 | an empty filter |
| `RollingBloom.Filter.Reset` | src/bloom.cpp:304-312 | an empty filter again |
| `RollingBloom.Filter.NextGeneration` | src/bloom.cpp:250-265 | the generation number goes round and nothing that must be kept is lost |
| `RollingBloom.Filter.MarkAll` | src/bloom.cpp:268-275 | all positions of the key carry the current generation, and no other position is touched |
| `RollingBloom.Filter.Insert` | src/bloom.cpp:248-276 | one more key in the history, with the invariant |
| `RollingBloom.Filter.LabelsAreKnown` | src/bloom.cpp:248-296 | the labels in the table are exactly the positions of the keys that are kept |
| `RollingBloom.Filter.AllLabelled` | src/bloom.cpp:286-295 | true exactly if all positions are labelled |
| `RollingBloom.Filter.Contains` | src/bloom.cpp:284-296 | true for each of the last `nElements` keys, and true only if every position of the key is a position of a key that is kept |
| `Frames.HeaderSize` | src/protocol.h:30-60 | the size can be read back from a header |
| `Frames.HeaderCommand` | src/protocol.cpp:144-156 | the command can be read back from a header |
| `Frames.HeaderFields` | src/protocol.h:28-60 | start bytes, long command, size with the lowest byte first, and checksum |
| `Frames.FirstHeader` | src/net.cpp:745-785 | what the first bytes of a stream decide: more than four million announced bytes are refused |
| `Frames.ScanAppend` | src/net.cpp:745-785 | only the unfinished bytes matter for what comes next |
| `Frames.ScanWire` | src/net.cpp:738-788 | messages within the limit are found again in the stream of their bytes |
| `Frames.PartOfWire` | src/net.cpp:738-788 | of any part of that stream exactly the finished messages are found, in order |
| `Sending.SendQueue.constructor` | src/net.h:633-636 | an empty queue is consistent |
| `Sending.SendQueue.SendFront` | src/net.cpp:888-923 | one call of the socket |
| `Sending.SendQueue.SocketSendData` | src/net.cpp:882-932 | any partial sends keep the invariant, and no assertion fails; the sent bytes are those the socket took |
| `Sending.AcceptedAll` | src/net.cpp:888-923 | a socket that takes all it is offered empties the queue |
| `Sending.AcceptedLess` | src/net.cpp:904-910 | a socket that takes less ends the loop at once |
| `Sending.SendQueue.PushMessage` | src/net.cpp:2797-2832 | the message is appended; the queue is sent at once exactly if it was empty |
| `Sending.SendQueue.SentIsPrefix` | src/net.cpp:882-932 | what the socket took is a prefix of the stream of the pushed messages, and all of it once the queue is empty |
| `Sending.SendQueue.CountersAreExact` | src/net.cpp:897-930 | `nSendSize` is the number of queued bytes and sending pauses exactly while it exceeds the limit |
| `Receiving.NetMessage.constructor` | src/net.h:575-581 | an empty message |
| `Receiving.NetMessage.ReadHeader` | src/net.cpp:817-846 | takes header bytes, and refuses exactly a size above 32 MiB |
| `Receiving.NetMessage.ReadData` | src/net.cpp:848-863 | takes data bytes; the buffer never grows beyond the message, nor more than 256 KiB ahead of the data |
| `Receiving.ReadSome` | src/net.cpp:754-767 | header or data bytes, and both size checks |
| `Receiving.Receiver.constructor` | src/net.cpp:745-752 | no message |
| `Receiving.Receiver.Current` | src/net.cpp:747-752 | the unfinished message, or a new one |
| `Receiving.Receiver.Absorb` | src/net.cpp:754-784 | the current message takes bytes off the chunk |
| `Receiving.Receiver.ReceiveMsgBytes` | src/net.cpp:738-788 | accepts a chunk exactly if the stream so far is well-formed; the messages held are those in the stream, whatever the chunks |
| `Receiving.ReceivedInOrder` | src/net.cpp:738-788 | a receiver that has consumed a part of the stream holds exactly the finished messages, in order |
| `Receiving.Deliver` | src/net.cpp:738-932 | from sender to receiver, for any partial sends and any chunks |

## Left out

- AddrLoad.Unserialize: requires counters that are not negative, and that the file lists no address twice and gives tried entries a time of success, because the reader checks none of these; the records of the file are modelled, not their bytes; a new object is filled instead of clearing an old one.
- AddrFile.Serialize: gives the records of the file, not their bytes.
- AddrCheck.Check: says that a negative code names a fault that is there, not which of several faults it names.
- AddrMan.AddrMan.Good: requires a positive time, because the oracle refuses a tried entry without one.
- AddrMan.AddrMan.Attempt: requires a time that is not negative, because the oracle refuses such an entry.
- `Select_` and `GetChance` of the address manager: random loops over floating-point chances.
- `SetServices_` of the address manager, which overwrites one field of a known entry, the vector form of `Add`, which calls `Add` for each address, and the locking wrappers around the operations.
- Bucket tables, the cuckoo table and the random order are sequences in fields that are reassigned, not arrays.
- CheckQueue.BatchSize: the counters are unbounded integers; the scope guard around the queue and its destructor are not modelled.
- Coins.CoinsView.AddCoins: requires that, without the check, a transaction that is no coinbase overwrites no coin, as its callers promise.
- Best-block hashes, memory accounting and cursors of the coin views; the database is a map.
- CuckooCache.Cache.constructor: takes the depth limit as a parameter, because the source computes it in floating point; memory orderings and lookups that run during an insert are not modelled.
- MerkleSpec.RoundTrip: the pair hash is an injective function on unbounded numbers, the ideal that a cryptographic hash approaches.
- MerkleRoot.ComputeMerkleRoot: requires at most 2^31 transactions, because beyond that the 32-bit count of the source overflows; Merkle branches are not modelled.
- MerkleRoot.RootDeterminesList: compares trees of the same height, because a transaction id may equal the hash of a pair.
- The choice of the matched transactions by a bloom filter or a set of ids.
- Bitwise operators, hexadecimal text and floating-point values of 256-bit numbers.
- Pow.DarkGravityWave: the time span is an unbounded integer until it is cut to 32 bits, and three times the intended span does not overflow.
- `GetNextTargetRequired`: returns what `DarkGravityWave` returns; the proof-of-stake rule after that return is never reached.
- Accumulated work, network hash rate and search by time in the chain.
- Detection of four wrong symbols within 89, which the comment in `src/bech32.cpp` also claims; a change that moves the last separator of a Bech32 text.
- Base58 with a checksum, and the address types on top of Base58 and Bech32.
- RollingBloom.Filter.constructor: takes the number of hash functions and filter bits, which the source computes in floating point, and requires both the number of elements and the number of bits to be positive, because the source divides by the size of the table.
- Statistics, disconnection and message hashes of the network code; the checksum is an arbitrary function of the payload.
- Receiving.Receiver.ReceiveMsgBytes: finished messages are never handed over to the message thread, so the list only grows; with that, the size of the list of waiting messages and the pause it causes are not modelled.

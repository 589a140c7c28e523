# 405Coin node: verified core

This project models the stateful algorithms and codecs at the core of the 405Coin node, a
Bitcoin/Dash-derived full node, and proves what they are for. `dafny verify dfyconfig.toml` checks
all of it.

Each part has a short meaning (a map, a set, an integer, a sequence) and a concrete algorithm, and
the proofs tie the second to the first for every input or every run.

- **Unspent outputs** (`Coins`, `CoinsRuns`, `CoinsCaches`): stacks of write-back caches with DIRTY
  and FRESH flags behave, at every level and over every run, like plain maps from outpoints to coins.
- **Address manager** (`AddrManState`, `AddrMan`, `AddrManRuns`, `AddrManEffects`, `AddrManChecks`,
  `AddrManClass`): two bucket tables, an id map, an address map, a shuffled vector with back-pointers, reference counts and counters stay
  consistent in every run from construction; whom each operation adds, moves, evicts and removes. `Inv` follows the author's own `Check_`, with addresses
  normalised the way `Find`, `Create` and `Delete` do; `AddrManChecks` holds `Check_` as written. An *orphan* is a record that no bucket holds
  in the middle of an operation.
- **Check queue** (`CheckQueue`): the mutex and condition-variable protocol as a transition system;
  soundness of `Wait` about the checks handed in, conservation of checks, no lost wake-up and no endless work, in every
  interleaving of a master and any number of workers.
- **Block tree and active chain** (`SkipWalk`, `Chain`, `ActiveChain`): skip-list lookup against the plain
  walk, the number of its steps, and the vector indexed by height against the branch it caches.
- **Overlays and caches** (`KeyOrder`, `DbTransaction`, `DbIterator`, `CuckooFlags`, `CuckooCache`,
  `RollingBloom`): a database transaction and its merging iterator, the cuckoo cache, the rolling
  bloom filter.
- **Arithmetic** (`Limbs`, `ArithSteps`, `ArithUint`, `Compact`): multi-limb numbers of any width,
  shift-subtract division, compact targets and block work.
- **Text codecs** (`Radix`, `Base58`, `Base58Codec`, `Bech32`, `Bech32Table`, `Bech32Codec`): round
  trips both ways, sufficient buffers, error detection.
- **Block filters** (`BitStream`, `Golomb`, `BlockFilter`): bit streams, Golomb-Rice coding, matching
  (BIP 158).
- **Compact blocks** (`CompactBlock`, `PartialBlock`): placement and reconstruction (BIP 152).

Classes whose fields the source updates in place are Dafny classes whose methods are proved against
specification functions; the properties are proved of those functions. Hashes (bucket, short-id,
bloom, cuckoo, SipHash, the checksum hash of base58) are arbitrary fixed functions given as
parameters or fields. The clock and every random draw are parameters.

## Findings

Five places where the code does not do what its comments or its callers might expect. Each has a lemma
with the input and, where a property fails, the exact condition under which it holds.

- `AddCoin` without announcing an overwrite keeps the cache invariant exactly when the view lacks the
  coin. The source throws only when the cache itself holds the coin unspent; over a coin that only
  the base holds it goes on, and after the next spend the old coin is back
  (`Coins.AddKeepsExactlyWhen`, `Coins.UnannouncedOverwriteResurrects`, src/coins.cpp:84-117).
- `SpendCoin` reports success whenever it finds an entry, not only when there was an unspent coin: also
  for a spent entry of the cache, and for a spent coin of a database right below it. Spending a coin
  twice reports success twice (`Coins.SpendReportsExactlyWhen`, `Coins.SpentTwiceReports`,
  src/coins.cpp:134-148, src/coins.h:313-318).
- A filter is built and encoded for any number of elements below 2^32, but its count is read back by a
  routine that refuses more than 0x02000000. A built filter matches its elements, and is accepted when
  parsed, exactly when it has no more than that many; otherwise every query throws
  (`BlockFilter.BuiltParses`, `BlockFilter.UnreadableCount`, src/serialize.h:432, src/blockfilter.cpp:103, 155).
- `Check_` looks addresses up as they stand, while `Find`, `Create` and `Delete` normalise the port. The
  raw lookup finds every record exactly when ports are part of an address or no record has one. The
  lookup inserts a missing key with id 0, so `Check_` does not object to record 0; it accepts a
  consistent state exactly when ports are part of an address or no record but number 0 has one
  (`AddrManChecks.RawFoundExactlyWhen`, `AddrManChecks.RunChecked`, `AddrManChecks.TwoPortsRejected`,
  src/addrman.cpp:438). The invariant of the model follows the operations.
- The comment in the cuckoo cache's `insert` says the first element pushed out sits at the first hash
  position; with no last position the code picks the second (`CuckooCache.CuckooCache.NextLoc`,
  src/cuckoocache.h:404-418).

## Model

| member | source | states |
|---|---|---|
| `Coins.RebaseKeeps` | src/coins.h:119-157 | a base that shows the same coins can replace another under a cache: the invariant and every level's view stay |
| `Coins.GetKeeps` | src/coins.cpp:57-82 | a read through any stack keeps the invariant, changes no level's view, and reports exactly the coin the view shows |
| `Coins.FetchKeeps` | src/coins.cpp:57-73 | filling the cache from below keeps the invariant and every view |
| `Coins.UncacheKeeps` | src/coins.cpp:244-250 | forgetting an unflagged entry changes no view at any level |
| `Coins.FetchFills` | src/coins.cpp:57-73 | a coin shown from below is cached without flags, and forgetting it gives the cache back as it was |
| `Coins.UncacheExactly` | src/coins.cpp:244-250 | exactly the entry asked for is forgotten, and only without flags |
| `Coins.AddKeepsExactlyWhen` | src/coins.cpp:84-117 | `AddCoin` throws exactly when the cache holds the coin unspent and no overwrite was announced; otherwise it keeps the invariant if and only if the view lacks the coin, an overwrite was announced, or the script is unspendable |
| `Coins.UnannouncedOverwriteResurrects` | src/coins.cpp:95-115 | over an unspent coin that only the base holds, an unannounced overwrite breaks the invariant, and spending the new coin shows the old one again |
| `Coins.AddRefines` | src/coins.cpp:84-117 | an allowed add sets exactly one outpoint of the view (none for an unspendable script) and keeps the invariant |
| `Coins.SpendRefines` | src/coins.cpp:134-148 | a spend removes exactly one outpoint from the view, whether or not the entry was FRESH, and leaves the views below alone |
| `Coins.SpendPrunes` | src/coins.cpp:134-148 | a shown coin that is spent leaves an entry exactly when it was not FRESH; the entry is then spent, DIRTY and not FRESH |
| `Coins.SpendReportsExactlyWhen` | src/coins.cpp:134-148 | a spend reports success exactly when the view shows the coin, the cache has an entry for it, or a database right below has one |
| `Coins.SpentTwiceReports` | src/coins.cpp:134-148 | a coin just spent is shown nowhere, and spending it again reports success |
| `Coins.FlushNeverThrows` | src/coins.cpp:181-235 | under the invariant no entry has a misapplied FRESH flag, so `BatchWrite` never throws |
| `Coins.MergeEntryOk` | src/coins.cpp:181-231 | merging one child entry gives a parent entry in a documented state relative to the grandparent, showing the child's coin |
| `Coins.MergePrunes` | src/coins.cpp:181-231 | a changed entry is taken over, FRESH exactly when the base below is known to lack the coin, and dropped exactly when it is then spent |
| `Coins.FlushRefines` | src/coins.cpp:181-242 | after a flush the parent shows what the child showed and satisfies its own invariant against the grandparent |
| `CoinsRuns.ReadTopKeeps` | src/coins.cpp:75-82 | each kind of read of the top cache answers as the map does and changes no view |
| `CoinsRuns.ReadAtKeeps` | src/coins.cpp:57-82 | a read at any depth of the stack answers as that level's map does and changes no view above or below |
| `CoinsRuns.StepRefines` | src/coins.cpp:57-250 | every operation on a stack does to each level's view what the plain map operation does, with the same answer |
| `CoinsRuns.FlushedLevels` | src/coins.cpp:237-242 | a flush makes the parent's map the child's map and leaves every other level as it was |
| `CoinsRuns.RunRefines` | src/coins.cpp:57-250 | for a stack of any depth and any run of reads, adds, spends, uncaches, flushes and new levels: no throw, the invariant holds, every level shows its plain map, and all answers agree |
| `CoinsRuns.StartRefines` | src/coins.h:190-223 | a bare database is a valid stack that shows its unspent coins |
| `CoinsCaches.CoinsViewCache.constructor` | src/coins.cpp:51 | a new cache is empty over its base and accounts for no memory |
| `CoinsCaches.CoinsViewCache.GetCoin` | src/coins.cpp:75-82 | the whole stack changes as specified and the reported coin is the specified one; memory use stays exact at every level |
| `CoinsCaches.CoinsViewCache.FetchCoin` | src/coins.cpp:57-73 | the same for the fetch itself |
| `CoinsCaches.CoinsViewCache.HaveCoin` | src/coins.cpp:161-164 | true exactly when the view shows an unspent coin |
| `CoinsCaches.CoinsViewCache.AccessCoin` | src/coins.cpp:152-159 | returns the shown coin, or the empty coin |
| `CoinsCaches.CoinsViewCache.AddCoin` | src/coins.cpp:84-117 | new state, throw and memory use, including the understated memory use that a throw leaves behind |
| `CoinsCaches.CoinsViewCache.SpendCoin` | src/coins.cpp:134-148 | new state, exact memory use, the moved-out coin as the view showed it, and the returned flag by a condition on the state before |
| `CoinsCaches.CoinsViewCache.UncacheCoin` | src/coins.cpp:244-250 | new state and exact memory use |
| `CoinsCaches.CoinsViewCache.MergeEntry` | src/coins.cpp:182-231 | one turn of the merge loop: the merged entry, no other entry touched, exact memory use |
| `CoinsCaches.CoinsViewCache.BatchWrite` | src/coins.cpp:181-235 | throws exactly when some FRESH flag is misapplied; otherwise the entries are the merge, in whatever order the loop visits them |
| `CoinsCaches.CoinsViewCache.Flush` | src/coins.cpp:237-242 | the base takes over the view, the cache is empty and its memory use zero |
| `CoinsCaches.CoinsViewCache.HaveInputs` | src/coins.cpp:267-276 | true exactly when every input is shown unspent (or the transaction is a coinbase); no view changes |
| `CoinsCaches.AddOutput` | src/coins.cpp:123-131 | one output is added to the view, with the overwrite flag that the view or the coinbase flag gives; the cache entry is exactly the one `AddCoin` makes with it |
| `CoinsCaches.AddCoins` | src/coins.cpp:119-132 | all outputs of a transaction appear in the view and nothing else changes |
| `AddrManState.SizesAgree` | src/addrman.cpp:419-420 | the sizes `Check_` compares agree: random vector, id map, address map, and the sum of both counters |
| `AddrManState.FreshOk` | src/addrman.h:516-537 | the constructed manager satisfies the invariant |
| `AddrManState.CreateKeeps` | src/addrman.cpp:92-106 | a new record is in all indexes; it is the only orphan added |
| `AddrManState.SwapKeeps` | src/addrman.cpp:108-125 | swapping two positions keeps vector and back-pointers inverse, also when they are equal |
| `AddrManState.DeleteKeeps` | src/addrman.cpp:127-143 | deleting an unreferenced record removes it from every index |
| `AddrManState.ClearSlotKeeps` | src/addrman.cpp:145-157 | emptying a slot lowers the count of exactly its occupant, an orphan if that was its last slot |
| `AddrManState.FillSlotKeeps` | src/addrman.cpp:331-334 | filling an empty slot at its hashed position raises the count and stays within eight |
| `AddrManState.UnslotKeeps` | src/addrman.cpp:159-168 | leaving all new buckets removes exactly the slots that hold the record |
| `AddrManState.UntryKeeps` | src/addrman.cpp:178-186 | taking a record out of its tried slot turns it into an orphan and adjusts the counters |
| `AddrManState.EnterTriedKeeps` | src/addrman.cpp:199-203 | an orphan put into its own empty tried slot is a proper tried record |
| `AddrMan.ClearNewKeeps` | src/addrman.cpp:145-157 | clearing any new slot, deleting an occupant left unreferenced, keeps the invariant |
| `AddrMan.EvictKeeps` | src/addrman.cpp:177-198 | an evicted tried record lands in its home bucket with exactly one reference; ids, addresses and collisions are undisturbed |
| `AddrMan.MakeTriedKeeps` | src/addrman.cpp:159-204 | the record fills its own tried slot; what was there is back in a new bucket; no other tried slot becomes empty, no id is reused |
| `AddrManRuns.UntriedIsHeld` | src/addrman.cpp:234-249 | a record that is not tried is in some new bucket, so the search in `Good_` always finds one |
| `AddrManRuns.GoodMoveEffect` | src/addrman.cpp:251-270 | either the collision is recorded (up to ten) and nothing else changes, or the record becomes tried |
| `AddrManRuns.GoodKeeps` | src/addrman.cpp:206-270 | `Good_` keeps the invariant |
| `AddrManRuns.GoodCollisions` | src/addrman.cpp:256-263 | a collision is recorded only for a known record whose tried slot is occupied |
| `AddrManRuns.PlaceNewKeeps` | src/addrman.cpp:320-340 | placing a record into a bucket, overwriting or giving up, keeps the invariant and leaves no orphan |
| `AddrManRuns.AddKeeps` | src/addrman.cpp:272-342 | `Add_`, on every branch, keeps the invariant, the tried slots and the collisions |
| `AddrManRuns.SelectKeeps` | src/addrman.cpp:491-509 | the shuffling of `GetAddr_` keeps the invariant |
| `AddrManRuns.SelectEffect` | src/addrman.cpp:491-509 | `GetAddr_` selects distinct existing records, none terrible, and no more than its limit; all records stay as they are but for their places in the vector |
| `AddrManRuns.SelectStopsOnlyWhenFull` | src/addrman.cpp:497-508 | the loop passes over no record that is not terrible, and stops early only with a full selection |
| `AddrManRuns.SelectPicks` | src/addrman.cpp:491-509 | the whole selection is full, or holds every record that is not terrible |
| `AddrManRuns.ResolveOneKeeps` | src/addrman.cpp:563-614 | resolving one collision keeps the invariant and adds no collision |
| `AddrManRuns.ResolveKeeps` | src/addrman.cpp:563-614 | resolving all collisions keeps the invariant |
| `AddrManRuns.SelectCollisionFindsTried` | src/addrman.cpp:616-640 | for a collision whose record still exists the answer is an existing tried record, never id -1 |
| `AddrManRuns.RunCollisions` | src/addrman.cpp:563-640 | in every run from construction, a collision whose record exists has an occupied tried slot, and the answer of `SelectTriedCollision_` is the tried record in it |
| `AddrManRuns.StepKeeps` | src/addrman.cpp:206-640 | every public operation keeps the full consistency, never empties a tried slot and never reuses an id |
| `AddrManRuns.RunKeeps` | src/addrman.cpp:413-489 | so does every run of operations |
| `AddrManRuns.RunFromFresh` | src/addrman.cpp:413-489 | every run from construction ends consistent, with the sizes in agreement |
| `AddrManEffects.TerribleExactly` | src/addrman.cpp:41-60 | terrible exactly when not tried within a minute and: not seen in thirty days or from the future, or never reached in three attempts, or failing ten times for a week |
| `AddrManEffects.TerribleStays` | src/addrman.cpp:41-60 | a terrible record stays terrible until it is touched, unless only its time lies ahead |
| `AddrManEffects.FindExactly` | src/addrman.cpp:75-90 | `Find` answers with a record exactly when it has the address, and the port if ports count; the other operations want the very same port |
| `AddrManEffects.RefreshedExactly` | src/addrman.cpp:286-295 | the time of a known record never goes back and moves exactly when it lags by more than the update interval and the penalty; services are only added |
| `AddrManEffects.OneDrawInMany` | src/addrman.cpp:297-314 | of 2^n draws in a row exactly one lets a record with n slots, fewer than eight, have another |
| `AddrManEffects.NoDraw` | src/addrman.cpp:297-307 | no draw does so for a tried record, one with eight slots, or without newer information |
| `AddrManEffects.ClearNewEffect` | src/addrman.cpp:145-157 | the occupant loses one slot, and is deleted exactly when it was the last; no other record changes |
| `AddrManEffects.PlaceNewEffect` | src/addrman.cpp:320-340 | the slot goes to the newcomer exactly when its occupant is terrible, or has other slots and the newcomer none; otherwise nothing changes but that a newcomer without a slot is deleted |
| `AddrManEffects.AddKnownEffect` | src/addrman.cpp:286-340 | a known address keeps its refreshed record, and takes one more slot exactly when it wants one and the slot is empty or its occupant terrible |
| `AddrManEffects.AddUnknownEffect` | src/addrman.cpp:315-340 | an unknown address gets a record with one slot exactly when the occupant of its slot gives way; otherwise no record changes |
| `AddrManEffects.AddDropsOnlyTerrible` | src/addrman.cpp:272-342 | `Add_` never removes a record that is not terrible |
| `AddrManEffects.AddKnowsExactly` | src/addrman.cpp:272-342 | afterwards an address is known exactly when it was before, or is routable and the occupant of its slot gave way |
| `AddrManEffects.AddRecords` | src/addrman.cpp:272-342 | a record that is new after `Add_` has the next id and is that of the address, dated back by the penalty unless the node announces itself |
| `AddrManEffects.AddRefreshes` | src/addrman.cpp:272-342 | the record of a known address is refreshed with that penalty and gains at most one slot |
| `AddrManEffects.EvictEffect` | src/addrman.cpp:180-199 | the evicted record is in its home slot with one reference, the occupant there has lost that slot, and no other record changes |
| `AddrManEffects.MakeTriedEffect` | src/addrman.cpp:159-204 | the record leaves all its new slots for its tried slot, the record there goes home, and no other record changes but the occupant of that home |
| `AddrManEffects.GoodEffect` | src/addrman.cpp:206-270 | the success is noted in the record with this very port and nowhere else; it becomes tried unless testing is asked for and the slot is taken, and then is noted as a collision if there are fewer than ten |
| `AddrManEffects.GoodSparesOthers` | src/addrman.cpp:206-270 | tried records in other slots stay where and as they are |
| `AddrManEffects.ResolveWaits` | src/addrman.cpp:563-614 | a collision moves nothing unless the tried record is failing, and is dropped exactly when the challenger is gone or invalid or that record has succeeded within four hours |
| `AddrManEffects.ResolveSwaps` | src/addrman.cpp:588-599 | the challenger of a failing record takes its slot, and the failing record is back in the new table with one reference |
| `AddrManEffects.ResolveSpares` | src/addrman.cpp:563-614 | over the whole loop, every tried record that is not failing stays where and as it is |
| `AddrManEffects.TestBeforeEvict` | src/addrman.cpp:206-640 | in every step but a `Good_` that asks for no test, a tried record keeps its slot unless the step resolves collisions and the record is failing |
| `AddrManEffects.CountedOnce` | src/addrman.cpp:344-363 | a failed attempt is counted at most once between two successes with any peer |
| `AddrManEffects.NotesOne` | src/addrman.cpp:511-547 | `Connected_` moves the time only after twenty minutes, `SetServices_` replaces the services, of the record found and no other |
| `AddrManChecks.RawFoundExactlyWhen` | src/addrman.cpp:438-439 | looking records up by their address as it stands finds all of them exactly when ports are part of an address or no record has one |
| `AddrManChecks.RawAcceptedExactlyWhen` | src/addrman.cpp:438-439 | error -5 is not reported exactly when ports are part of an address or no record but number 0 has one, since a missing key reads as 0 |
| `AddrManChecks.TwoPortsRejected` | src/addrman.cpp:413-489 | two addresses with ports, added while ports are ignored, give a consistent state that `Check_` rejects |
| `AddrManChecks.RunTimes` | src/addrman.cpp:425-427 | in every run whose clock has started no record has a negative time, and every tried record has once been reached (errors -1, -6, -8) |
| `AddrManChecks.CheckAcceptsExactlyWhen` | src/addrman.cpp:413-489 | of consistent states, all conditions of `Check_` together accept exactly those that the address lookup accepts |
| `AddrManChecks.RunChecked` | src/addrman.cpp:413-489 | the same for every run from construction |
| `AddrManClass.AddressManager.constructor` | src/addrman.h:516-542 | tables filled with -1, empty indexes, a consistent state |
| `AddrManClass.AddressManager.Find` | src/addrman.cpp:75-90 | the record under the normalised address |
| `AddrManClass.AddressManager.CreateEntry` | src/addrman.cpp:92-106 | id and new state |
| `AddrManClass.AddressManager.SwapRandom` | src/addrman.cpp:108-125 | new state, with the vector updated in place |
| `AddrManClass.AddressManager.DeleteEntry` | src/addrman.cpp:127-143 | new state |
| `AddrManClass.AddressManager.ClearNewSlot` | src/addrman.cpp:145-157 | new state, table updated in place; the asserted reference count is positive |
| `AddrManClass.AddressManager.LeaveNew` | src/addrman.cpp:159-170 | the loop over all buckets removes exactly the slots that hold the record and ends at reference count zero |
| `AddrManClass.AddressManager.EvictTried` | src/addrman.cpp:177-198 | new state of the eviction |
| `AddrManClass.AddressManager.MakeTriedEntry` | src/addrman.cpp:159-204 | new state, all asserts of the source holding on the way |
| `AddrManClass.AddressManager.FindBucket` | src/addrman.cpp:234-244 | the wrapping search from a random bucket finds one exactly when some bucket holds the record |
| `AddrManClass.AddressManager.MarkGood` | src/addrman.cpp:206-270 | new state |
| `AddrManClass.AddressManager.MoveGood` | src/addrman.cpp:230-270 | new state of the second half of `Good_` |
| `AddrManClass.AddressManager.AddAddress` | src/addrman.cpp:272-342 | new state, and true exactly for a routable address that was unknown |
| `AddrManClass.AddressManager.RefreshKnown` | src/addrman.cpp:285-342 | new state on the branch for a known address |
| `AddrManClass.AddressManager.InsertUnknown` | src/addrman.cpp:313-342 | new state on the branch for an unknown address |
| `AddrManClass.AddressManager.Overwrite` | src/addrman.cpp:331-334 | the old occupant is cleared before the slot is filled |
| `AddrManClass.AddressManager.Place` | src/addrman.cpp:320-340 | new state of the placement |
| `AddrManClass.AddressManager.NoteAttempt` | src/addrman.cpp:344-363 | new state |
| `AddrManClass.AddressManager.NoteConnected` | src/addrman.cpp:511-528 | new state |
| `AddrManClass.AddressManager.NoteServices` | src/addrman.cpp:530-545 | new state |
| `AddrManClass.AddressManager.GetAddresses` | src/addrman.cpp:491-509 | new state, and the addresses in order of distinct records that are not terrible: min(2500, 23 * size / 100) of them, or all there are |
| `AddrManClass.AddressManager.ResolveCollision` | src/addrman.cpp:565-612 | new state after one collision |
| `AddrManClass.AddressManager.ResolveCollisions` | src/addrman.cpp:563-614 | new state after all of them |
| `AddrManClass.AddressManager.SelectTriedCollision` | src/addrman.cpp:616-640 | the id map is untouched; the answer is the record in the tried slot that the collision is about, or nothing when its own record is gone |
| `CheckQueue.StepKeeps` | src/checkqueue.h:73-186 | every enabled step can pop its batch without underflow and keeps the invariant: `nTodo` is the queue plus all batches in hand, checks of the round are queued, held or handed back |
| `CheckQueue.RunKeeps` | src/checkqueue.h:73-186 | so does every interleaving |
| `CheckQueue.WaitIsSound` | src/checkqueue.h:73-186 | in every interleaving from the start, `Wait` returns true exactly when every check handed in since the return before passes, and all of them were then called; the checks the schedule hands in are those of the returns and of the open round |
| `CheckQueue.ReportsHonest` | src/checkqueue.h:73-186 | the same from any state that satisfies the invariant |
| `CheckQueue.FailureIsReported` | src/checkqueue.h:73-186 | a failing check handed in makes the return of its round false |
| `CheckQueue.BatchIsFair` | src/checkqueue.h:112-117 | a thread takes the largest share, up to the batch size and at least one, that leaves as much for each other thread and idle one |
| `CheckQueue.SleeperIsOwed` | src/checkqueue.h:83-106 | whenever the master sleeps unnotified, some worker holds a batch and will notify it |
| `CheckQueue.SpuriousWakeIdles` | src/checkqueue.h:94-106 | a wake-up with nothing to do changes nothing |
| `CheckQueue.WaitCanProceed` | src/checkqueue.h:73-133 | while the master is in `Wait` some thread has a productive step |
| `CheckQueue.ProductiveWorks` | src/checkqueue.h:73-133 | every productive step lowers the measure of work left |
| `CheckQueue.WorkRunsOut` | src/checkqueue.h:73-133 | in every schedule without new checks, needless wake-ups included, the working steps done and the work still left do not exceed the work at the start |
| `CheckQueue.MaximalRunReturns` | src/checkqueue.h:73-164 | a schedule that no working step can continue, or that has done all the work, leaves the master outside `Wait` |
| `SkipWalk.InvertsLowestOne` | src/chain.cpp:75-76 | `n & (n - 1)` clears exactly the lowest set bit |
| `SkipWalk.SkipDescends` | src/chain.cpp:79-87 | the skip height is below the height, for every height from one |
| `SkipWalk.OddSkips` | src/chain.cpp:96-109 | from an odd height the skip is taken whenever it does not overshoot |
| `SkipWalk.Phase` | src/chain.cpp:89-113 | the steps until the highest bit in which height and target differ is cleared, by the number of ones below it |
| `SkipWalk.WalkIsShort` | src/chain.cpp:83-85 | below height 2^k every ancestor is at most StepBound(k) steps away |
| `SkipWalk.StepBoundValues` | src/chain.cpp:83-85 | StepBound(18) is 110, the number in the source's comment, and StepBound(k) is at most (k^2 + 9k + 4) / 4 |
| `Chain.BlockIndex.AncestorOfAncestor` | src/chain.cpp:89-113 | ancestors of ancestors are ancestors |
| `Chain.BlockIndex.GetAncestor` | src/chain.cpp:89-113 | the skipping walk returns the block that following `pprev` reaches, and null outside the range |
| `Chain.BlockIndex.WalkBack` | src/chain.cpp:94-112 | the loop: the same block, and where all skips are built no more than StepBound(k) steps below height 2^k |
| `Chain.BlockIndex.BuildSkip` | src/chain.cpp:119-122 | the skip pointer is the ancestor at the skip height; on a built branch the whole branch is built afterwards |
| `Chain.LastCommonAncestor` | src/chain.cpp:157-172 | a common ancestor above which the two branches agree nowhere |
| `ActiveChain.LocatorDescends` | src/chain.cpp:24-50 | locator heights strictly descend and end at genesis |
| `ActiveChain.LocatorIsShort` | src/chain.cpp:24-50 | a locator from below height 2^k has at most 11 + k entries |
| `ActiveChain.LocatorExact` | src/chain.cpp:24-50 | entry i lies i blocks below the start up to the twelfth entry, then 9 + 2^(i - 10), or is genesis |
| `ActiveChain.LocatorNear` | src/chain.cpp:38-46 | for every distance from the start some entry is at least that far and at most twice as far |
| `ActiveChain.LocatorSpreads` | src/chain.cpp:24-50 | the heights end at the first 0, at the stated distances, and are near every distance |
| `ActiveChain.ActiveChain.LocatorMeetsFork` | src/chain.cpp:24-50 | a chain that shares a block with the start shares a locator entry at most twice as far down |
| `ActiveChain.ActiveChain.ContainsAncestors` | src/chain.h:438-440 | a block is in the chain exactly when it is the tip's ancestor at its height, and then so are its ancestors |
| `ActiveChain.ActiveChain.NextIsChild` | src/chain.h:443-448 | the next block has this one as its predecessor, and only the tip has none |
| `ActiveChain.ActiveChain.SetTip` | src/chain.cpp:11-22 | although it stops at the first matching slot, every slot holds the tip's ancestor |
| `ActiveChain.ActiveChain.FindFork` | src/chain.cpp:52-61 | the highest block shared with the branch: contained, and nothing above it is |
| `ActiveChain.ActiveChain.GetLocator` | src/chain.cpp:24-50 | the block's ancestors at exactly the locator heights, whether read from the chain or from the branch; these are the stated distances below the start, and for every distance some entry is at least that far and at most twice as far |
| `ActiveChain.ActiveChain.FindEarliestAtLeast` | src/chain.cpp:63-73 | the lowest block at or past the given time and height |
| `DbTransaction.OverlayWrite` | src/dbwrapper.h:613-627 | a write changes one key of the overlay, whatever was written or deleted before |
| `DbTransaction.OverlayErase` | src/dbwrapper.h:675-684 | an erase removes one key of the overlay |
| `DbTransaction.UsageWrite` | src/dbwrapper.h:613-627 | the source's increments keep the exact sum of key and value sizes |
| `DbTransaction.UsageErase` | src/dbwrapper.h:675-684 | the same for an erase |
| `DbTransaction.CommittedOverlay` | src/dbwrapper.h:692-700 | deleting first and writing second produces the overlay |
| `DbTransaction.Transaction.constructor` | src/dbwrapper.h:606 | an empty transaction shows its parent |
| `DbTransaction.Transaction.Write` | src/dbwrapper.h:613-627 | one key of the view changes; writes and deletes stay disjoint and the accounting exact |
| `DbTransaction.Transaction.Erase` | src/dbwrapper.h:675-684 | one key leaves the view |
| `DbTransaction.Transaction.Read` | src/dbwrapper.h:634-651 | reads the overlay |
| `DbTransaction.Transaction.Exists` | src/dbwrapper.h:658-668 | true exactly for keys of the overlay |
| `DbTransaction.Transaction.Clear` | src/dbwrapper.h:686-690 | nothing written, nothing deleted, no memory |
| `DbTransaction.Transaction.Commit` | src/dbwrapper.h:692-700 | the target becomes the overlay, and the transaction is clean |
| `DbTransaction.Transaction.IsClean` | src/dbwrapper.h:702-704 | true exactly when nothing is pending, and then the view is the parent's |
| `DbTransaction.Transaction.GetMemoryUsage` | src/dbwrapper.h:706-717 | the exact sum, so never negative |
| `DbIterator.OverlayKeys` | src/dbwrapper.h:519-527 | the overlay's keys are the written ones and the parent's that are neither written nor deleted |
| `DbIterator.TransactionIterator.CurrentIsLeast` | src/dbwrapper.h:529-541 | the chosen cursor stands on the least key still to visit |
| `DbIterator.TransactionIterator.Seek` | src/dbwrapper.h:431-436 | what remains is exactly the overlay's keys from the seek point |
| `DbIterator.TransactionIterator.SeekToFirst` | src/dbwrapper.h:419-424 | what remains is all of the overlay's keys |
| `DbIterator.TransactionIterator.Next` | src/dbwrapper.h:442-455 | exactly the current key is gone from what remains |
| `DbIterator.TransactionIterator.HasNext` | src/dbwrapper.h:438-440 | true exactly while keys remain |
| `DbIterator.TransactionIterator.GetKey` | src/dbwrapper.h:484-493 | the least remaining key |
| `DbIterator.TransactionIterator.GetValue` | src/dbwrapper.h:506-516 | its value in the overlay |
| `DbIterator.TransactionIterator.SkipDeletedAndOverwritten` | src/dbwrapper.h:519-527 | the parent cursor ends on a key that shows through, passing none that does |
| `DbIterator.Scan` | src/dbwrapper.h:395-542 | a full pass visits the overlay's keys from the seek point in strictly ascending order, each once |
| `CuckooFlags.BitPackedFlags.SetBit` | src/cuckoocache.h:88-90 | sets one bit and no other |
| `CuckooFlags.BitPackedFlags.UnsetBit` | src/cuckoocache.h:98-100 | clears one bit and no other |
| `CuckooCache.CuckooCache.constructor` | src/cuckoocache.h:329-343 | an empty cache within its epoch bound; the epoch is 45% of the size, in 32 bits, and at least one |
| `CuckooCache.CounterFits` | src/cuckoocache.h:301-310 | the counter set by the heuristic cannot carry the epoch past its bound |
| `CuckooCache.CuckooCache.CountCurrent` | src/cuckoocache.h:287-290 | the number of live entries of the current epoch |
| `CuckooCache.CuckooCache.Age` | src/cuckoocache.h:296-300 | exactly the entries of the old epoch are given up |
| `CuckooCache.CuckooCache.EpochCheck` | src/cuckoocache.h:280-311 | exactly when the counter has run out and the epoch is full, exactly the old epoch is given up; the counter afterwards; live current-epoch entries plus the counter stay within epoch_size + max(1, epoch_size / 16) |
| `CuckooCache.CuckooCache.Settle` | src/cuckoocache.h:394-403 | putting an element into its first free slot makes it live, in the first of its slots that holds it, and current if it comes with that flag; nothing is lost and no other slot changes |
| `CuckooCache.CuckooCache.Revive` | src/cuckoocache.h:386-393 | an element that is in the table already is kept and made current, and no other slot changes |
| `CuckooCache.CuckooCache.NextLoc` | src/cuckoocache.h:404-418 | the position after the last one used, cyclically; the second when there is no last one |
| `CuckooCache.CuckooCache.LocsScale` | src/cuckoocache.h:235-245 | each slot is one of the eight 32-bit hashes scaled down to the size of the table |
| `CuckooCache.CuckooCache.Displace` | src/cuckoocache.h:418-426 | a swap exchanges the element in hand for the one in the slot, epoch flags included, and keeps the epoch count |
| `CuckooCache.CuckooCache.PushIn` | src/cuckoocache.h:383-428 | the new element is stored, displacing along the stated chain; an element is lost exactly when none of the first depth-limit elements in hand has a discardable slot, and then it is the last one in hand; otherwise the last one is in its first discardable slot; every element keeps its epoch and the new one is current |
| `CuckooCache.CuckooCache.Insert` | src/cuckoocache.h:381-428 | every live element stays at one of its eight positions and in one slot only; of the elements live after the epoch check and the new one, all are live but the lost one; one is lost exactly when the new element is in none of its slots and no element in hand up to the depth limit has a discardable slot, so never when the new one has; elements keep their epoch and the new one is current; no entry of the current epoch is aged away; the epoch bound holds in every reachable state |
| `CuckooCache.CuckooCache.Contains` | src/cuckoocache.h:455-464 | finds every live element; erasing marks exactly its slot discardable, so that exactly that element is no longer live |
| `RollingBloom.WipeBits` | src/bloom.cpp:319-327 | the word-parallel wipe clears bit by bit exactly the pairs that spell the given generation |
| `RollingBloom.SpellWipe` | src/bloom.cpp:319-327 | the generation spelled at every other position is untouched |
| `RollingBloom.SpellSet` | src/bloom.cpp:336-338 | setting two bits spells the generation at one position and no other |
| `RollingBloom.RollingBloomFilter.constructor` | src/bloom.cpp:272-296 | half of the elements, rounded up, per generation; the given number of words and hashes; no position carries a generation yet |
| `RollingBloom.RollingBloomFilter.Wipe` | src/bloom.cpp:319-327 | over the whole array, exactly the positions of the reused generation are cleared |
| `RollingBloom.RollingBloomFilter.MarkAll` | src/bloom.cpp:331-339 | exactly the positions of the item get the current generation |
| `RollingBloom.RollingBloomFilter.BeginGeneration` | src/bloom.cpp:313-328 | the next of three generations, its old positions wiped, the two generations before it still covered |
| `RollingBloom.RollingBloomFilter.Insert` | src/bloom.cpp:312-340 | every position afterwards, and the invariant that covers the last three generations |
| `RollingBloom.RollingBloomFilter.RecentIsCovered` | src/bloom.cpp:272-340 | each of the last 2 * ceil(nElements / 2) inserted items has all its positions marked |
| `RollingBloom.RollingBloomFilter.Contains` | src/bloom.cpp:347-358 | so it is reported as contained, after any run of inserts |
| `RollingBloom.RollingBloomFilter.Reset` | src/bloom.cpp:365-370 | no position carries a generation, and the first generation is empty |
| `Bits.FastMod` | src/bloom.cpp:308-310 | the index is x * n / 2^32, below n |
| `Bits.FastModOnto` | src/bloom.cpp:305-310 | up to 2^32 every index is reached, by an interval of hashes in the order of the indexes |
| `ArithUint.BaseUint.FromWord` | src/arith_uint256.h:54-61 | a number from 64 bits, at any width |
| `ArithUint.BaseUint.Assign` | src/arith_uint256.h:89-95 | the same as an assignment |
| `ArithUint.BaseUint.Set` | src/arith_uint256.h:48-52 | limbs copied, also from itself |
| `ArithUint.BaseUint.ShiftLeft` | src/arith_uint256.cpp:22-35 | x * 2^shift modulo 2^bits, for every shift and width |
| `ArithUint.BaseUint.ShiftRight` | src/arith_uint256.cpp:38-51 | floor(x / 2^shift), for every shift and width |
| `ArithUint.BaseUint.AddAssign` | src/arith_uint256.h:131-139 | the sum modulo 2^bits, also when both operands are one object |
| `ArithUint.BaseUint.Increment` | src/arith_uint256.h:166-172 | the successor modulo 2^bits |
| `ArithUint.BaseUint.Complement` | src/arith_uint256.h:72-77 | 2^bits - 1 - x |
| `ArithUint.BaseUint.Negate` | src/arith_uint256.h:79-85 | the two's complement |
| `ArithUint.BaseUint.SubAssign` | src/arith_uint256.h:141-144 | the difference modulo 2^bits, exact when it is not negative |
| `ArithUint.BaseUint.MulWord` | src/arith_uint256.cpp:54-62 | the product with a 32-bit number modulo 2^bits |
| `ArithUint.BaseUint.MulAssign` | src/arith_uint256.cpp:65-77 | the schoolbook product modulo 2^bits, also for a square |
| `ArithUint.BaseUint.AddRow` | src/arith_uint256.cpp:68-73 | the inner loop adds one shifted row, no intermediate needing more than 64 bits |
| `ArithUint.BaseUint.CompareTo` | src/arith_uint256.cpp:105-113 | the order of the integers |
| `ArithUint.BaseUint.BitLength` | src/arith_uint256.cpp:185-196 | 2^(r-1) <= x < 2^r, or zero for zero |
| `ArithUint.BaseUint.GetLow64` | src/arith_uint256.h:262-265 | x modulo 2^64 |
| `ArithUint.BaseUint.DivideStep` | src/arith_uint256.cpp:92-99 | one round keeps dividend = quotient * divisor + remainder and halves the bound on the remainder |
| `ArithUint.BaseUint.DivAssign` | src/arith_uint256.cpp:80-102 | floor(x / d) for every divisor but zero and every width; for zero it throws and leaves zero behind |
| `Compact.CompactUnique` | src/arith_uint256.cpp:252-272 | a target has exactly one compact form: at one exponent only is the mantissa in range |
| `Compact.CompactTruncates` | src/arith_uint256.cpp:233-272 | reading a compact form back drops the bytes below its exponent and nothing else, less than one part in 2^15 |
| `Compact.CompactIdempotent` | src/arith_uint256.cpp:233-272 | the truncated target has the same compact form |
| `Compact.OverflowExactly` | src/arith_uint256.cpp:246-248 | the overflow condition holds exactly when mantissa * 256^(exponent-3) is at least 2^256 |
| `Compact.SetCompact` | src/arith_uint256.cpp:233-250 | the target modulo 2^256, overflow exactly at 2^256, the sign of every non-zero target |
| `Compact.GetCompact` | src/arith_uint256.cpp:252-272 | the one compact form of the number, with the sign bit only beside a non-zero mantissa; both asserts hold |
| `Compact.ReadBack` | src/arith_uint256.cpp:233-272 | write, read, write again: never an overflow, only low bytes lost, the same word again |
| `Compact.WorkFormula` | src/chain.cpp:131-135 | (2^256 - 1 - t) / (t + 1) + 1 is 2^256 / (t + 1) |
| `Compact.GetBlockProof` | src/chain.cpp:124-136 | floor(2^256 / (target + 1)) for every usable compact target, else zero |
| `Radix.NumberOfDigits` | src/base58.cpp:96-110 | the digits of a number stand for it |
| `Radix.DigitsOfNumber` | src/base58.cpp:111-114 | a digit string without leading zeros is the digits of its number |
| `Radix.RebaseInverse` | src/base58.cpp:35-122 | changing base and back is the identity, leading zeros included |
| `Base58.TableInverse` | src/base58.cpp:15-33 | the table inverts the alphabet |
| `Base58.TableOnto` | src/base58.cpp:15-33 | and the alphabet inverts the table on every character it accepts |
| `Base58.RoundTrip` | src/base58.cpp:35-122 | decoding an encoding gives the bytes back, for every byte string |
| `Base58.DecodedIsEncoded` | src/base58.cpp:35-122 | a text that decodes is the encoding of the result, but for spaces around it and what follows a NUL |
| `Base58.KnownTexts` | src/test/data/base58_encode_decode.json:3-4 | 626262 is a3gV, and 61 after two zero bytes is 2g after two ones |
| `Base58.EncodeFits` | src/base58.cpp:92-107 | 256^n < 58^(floor(138 n / 100) + 1) for every n: the encode buffer suffices |
| `Base58.DecodeFits` | src/base58.cpp:46-63 | 58^n <= 256^(floor(733 n / 1000) + 1) for every n: the decode buffer suffices |
| `Base58Codec.MulAdd` | src/base58.cpp:97-108 | the in-place carry loop computes buffer * base + digit, keeps the unused cells zero, and ends with no carry |
| `Base58Codec.SkipZeros` | src/base58.cpp:111-114 | what follows the leading zeros is the digits of the number |
| `Base58Codec.ConvertBytes` | src/base58.cpp:92-114 | the base58 digits of the bytes, with the buffer never overrun |
| `Base58Codec.EncodeBase58` | src/base58.cpp:84-122 | the encoding |
| `Base58Codec.ReadWord` | src/base58.cpp:46-75 | stops with failure exactly at a character outside the alphabet, else yields the bytes of the word |
| `Base58Codec.DecodeBase58` | src/base58.cpp:35-82 | the decoding, with failure exactly for text that is not one base58 word between spaces |
| `Base58Codec.CheckedExactly` | src/base58.cpp:140-154 | accepted are exactly the texts of byte strings followed by the first four bytes of their hash |
| `Base58Codec.CheckedRoundTrip` | src/base58.cpp:132-154 | a sealed byte string comes back |
| `Base58Codec.EncodeBase58Check` | src/base58.cpp:132-138 | the encoding of the bytes followed by the first four of their hash |
| `Base58Codec.DecodeBase58Check` | src/base58.cpp:140-154 | the checked decoding: the bytes b exactly when the text decodes to b followed by the first four bytes of its hash |
| `Bech32.StepLinear` | src/bech32.cpp:57-84 | one step of the checksum is linear over exclusive or |
| `Bech32.RunLinear` | src/bech32.cpp:30-86 | so is the whole checksum |
| `Bech32.RunZeros` | src/bech32.cpp:57-84 | no number of further zero symbols hides a difference |
| `Bech32.PackInjective` | src/bech32.cpp:57-84 | up to six symbols are packed without loss |
| `Bech32.BurstDetected` | src/bech32.cpp:108-114 | two different words of any length that differ only within six neighbouring symbols are not both valid under one prefix |
| `Bech32.SingleErrorDetected` | src/bech32.cpp:108-114 | in particular no two valid words differ in exactly one symbol |
| `Bech32.SwapDetected` | src/bech32.cpp:108-114 | nor in the order of two neighbours |
| `Bech32.PrefixDetected` | src/bech32.cpp:94-114 | two prefixes of characters with the same upper bits that differ only within six neighbouring characters do not both make a word valid |
| `Bech32Table.TableInverse` | src/bech32.cpp:13-25 | the reverse table inverts the character set, which has no capitals and no separator |
| `Bech32Table.TableOnto` | src/bech32.cpp:16-25 | and the other way round, up to case |
| `Bech32Table.FirstHalf` | src/bech32.cpp:13 | the first sixteen characters, in order |
| `Bech32Table.SecondHalf` | src/bech32.cpp:13 | and the others |
| `Bech32Codec.GroupsPack` | src/bech32.cpp:121-126 | the six groups of a 30-bit number pack to it |
| `Bech32Codec.ChecksumExactly` | src/bech32.cpp:108-127 | six symbols make a word valid exactly when they are its checksum |
| `Bech32Codec.PolyMod` | src/bech32.cpp:30-86 | the loop computes the checksum polynomial |
| `Bech32Codec.ExpandPrefix` | src/bech32.cpp:94-105 | high bits, a zero, low bits of the prefix |
| `Bech32Codec.VerifyChecksum` | src/bech32.cpp:108-114 | true exactly for valid words |
| `Bech32Codec.CreateChecksum` | src/bech32.cpp:117-127 | the checksum |
| `Bech32Codec.RoundTrip` | src/bech32.cpp:134-176 | decoding gives prefix and data back exactly for non-empty printable prefixes without capitals and at most 90 characters in all |
| `Bech32Codec.DecodedIsEncoded` | src/bech32.cpp:134-176 | whatever decodes is, in lower case, the encoding of the result |
| `Bech32Codec.KnownText` | src/test/bech32_tests.cpp:29 | nothing under the prefix a is a12uel5l |
| `Bech32Codec.Encode` | src/bech32.cpp:134-143 | the encoding |
| `Bech32Codec.CheckCharacters` | src/bech32.cpp:147-154 | accepts exactly printable text in one case |
| `Bech32Codec.ReverseFind` | src/bech32.cpp:155 | the last separator |
| `Bech32Codec.Decode` | src/bech32.cpp:146-176 | the decoding, every failure included |
| `BitStream.BitWriter.constructor` | src/streams.h:510 | nothing written |
| `BitStream.BitWriter.Write` | src/streams.h:519-534 | appends exactly the low bits of the value, across byte boundaries; refuses more than 64 |
| `BitStream.BitWriter.Flush` | src/streams.h:539-547 | completes the current byte with zeros |
| `BitStream.BitReader.constructor` | src/streams.h:468 | all bits remain |
| `BitStream.BitReader.Read` | src/streams.h:473-492 | the next bits as a number, failing exactly when there are too few |
| `BlockFilter.MapIntoRange` | src/blockfilter.cpp:51-74 | the split multiplication is floor(x * n / 2^64), below n, with no intermediate overflow |
| `Golomb.CodeRoundTrip` | src/blockfilter.cpp:18-44 | decoding inverts encoding for every 64-bit value, whatever follows |
| `Golomb.ListRoundTrip` | src/blockfilter.cpp:141-146 | a list of ascending values coded as differences is decoded to itself |
| `Golomb.KnownCode` | src/blockfilter.cpp:18-31 | nine with two low bits is 11001 |
| `Golomb.GolombRiceEncode` | src/blockfilter.cpp:18-31 | appends the code, the unary part in chunks of 64 |
| `Golomb.GolombRiceDecode` | src/blockfilter.cpp:34-44 | the decoding of the next code, failing exactly when the bits run out |
| `BlockFilter.CountRoundTrip` | src/serialize.h:397-435 | a count is read back exactly when it does not exceed the limit |
| `BlockFilter.UnreadableCount` | src/serialize.h:432-433 | the smallest count that cannot be read back |
| `BlockFilter.KnownCounts` | src/serialize.h:397-411 | the shortest and longest count of each form |
| `BlockFilter.HashToRange` | src/blockfilter.cpp:76-81 | floor(hash * range / 2^64) |
| `BlockFilter.BuildHashedSet` | src/blockfilter.cpp:83-91 | the values floor(hash * range / 2^64) in ascending order, each as often as elements have it |
| `BlockFilter.BuildFilter` | src/blockfilter.cpp:121-149 | throws exactly from 2^32 elements; else the encoding is the count and the coded hashes, padded to a byte |
| `BlockFilter.WriteAll` | src/blockfilter.cpp:139-148 | the bits behind the count |
| `BlockFilter.CodedReads` | src/blockfilter.cpp:96-149 | what a reader of a built filter sees |
| `BlockFilter.ParseFilter` | src/blockfilter.cpp:96-119 | accepts exactly encodings with as many codes as stated and no further byte |
| `BlockFilter.ReadCodes` | src/blockfilter.cpp:110-115 | reads the stated number of codes, failing exactly when the bits run out |
| `BlockFilter.BuiltParses` | src/blockfilter.cpp:96-149 | a built filter is accepted exactly when its count is within the limit |
| `BlockFilter.MergeScanExactly` | src/blockfilter.cpp:160-179 | the merge scan answers true only if the lists meet, and exactly then when both ascend |
| `BlockFilter.MatchInternal` | src/blockfilter.cpp:151-180 | the merge scan of the decoded values and the queries, whatever they are; throws exactly when the count cannot be read |
| `BlockFilter.Match` | src/blockfilter.cpp:182-185 | true exactly when floor(hash * range / 2^64) is among the values; so for every element the filter was built from, unless there are too many to read |
| `BlockFilter.MatchAny` | src/blockfilter.cpp:187-190 | true exactly when floor(hash * range / 2^64) of some element is among the values |
| `CompactBlock.PlacementBijection` | src/blockencodings.cpp:58-87 | accepted prefilled positions strictly increase within the block; the places for short ids are the other positions, as many as there are short ids |
| `CompactBlock.PositionsRoundTrip` | src/blockencodings.cpp:58-64 | the distances sent for strictly increasing positions give them back |
| `CompactBlock.AcceptableExactly` | src/blockencodings.cpp:49-75 | accepted are exactly non-empty messages within the limit, without null transactions, whose positions lie within the block and in 16 bits |
| `CompactBlock.PlacesLeft` | src/blockencodings.cpp:60-75 | each prefilled transaction takes its own slot |
| `CompactBlock.Announce` | src/blockencodings.cpp:20-30 | the sender's message describes its block and is acceptable |
| `CompactBlock.FillExactly` | src/blockencodings.cpp:184-199 | filling gives a block exactly when the slots agree with it and the missing ones come in order |
| `PartialBlock.ConsiderKeeps` | src/blockencodings.cpp:112-157 | one candidate keeps the counter exact and never takes it below zero |
| `PartialBlock.PartiallyDownloadedBlock.PlacePrefilled` | src/blockencodings.cpp:58-75 | accepts exactly indexes within range, and places all |
| `PartialBlock.PartiallyDownloadedBlock.MapShortIds` | src/blockencodings.cpp:82-104 | short id k gets free slot k, never leaving the array; fails exactly on a repeated id or a crowded bucket |
| `PartialBlock.PartiallyDownloadedBlock.SkipFilled` | src/blockencodings.cpp:85-86 | there always is a next free slot |
| `PartialBlock.PartiallyDownloadedBlock.ScanPool` | src/blockencodings.cpp:106-133 | after the mempool every place holds what its answers leave, and the scan ends with the mempool or right after the first entry that leaves no place empty |
| `PartialBlock.PartiallyDownloadedBlock.ScanExtra` | src/blockencodings.cpp:135-164 | the same over the extra transactions, which clear a place only with another transaction |
| `PartialBlock.TwoAnswersClear` | src/blockencodings.cpp:117-126 | two mempool entries with one short id, both scanned, leave its place empty |
| `PartialBlock.ExactAgrees` | src/blockencodings.cpp:106-164 | absent collisions every filled slot holds the block's own transaction |
| `PartialBlock.ExactComplete` | src/blockencodings.cpp:106-164 | and if no two mempool entries share a short id, a place is filled exactly when a candidate answers |
| `PartialBlock.PartiallyDownloadedBlock.InitData` | src/blockencodings.cpp:49-170 | the status, exactly; every place holds the first answer to its short id, or nothing if two mempool entries answered or an extra one with another hash; absent collisions every filled slot holds the block's transaction, and a slot is filled exactly when a candidate answers |
| `PartialBlock.PartiallyDownloadedBlock.FillBlock` | src/blockencodings.cpp:178-224 | invalid exactly when the number of missing transactions is wrong, else the filled block and the verdict on it; the object is empty afterwards, or, with too few, emptied up to the first slot that could not be filled |
| `PartialBlock.Rebuilds` | src/blockencodings.cpp:184-192 | the missing transactions of a block, supplied in order, rebuild it from any slots that agree with it |
| `PartialBlock.Relay` | src/blockencodings.cpp:20-224 | absent short-id collisions the receiver rebuilds the sender's transaction list exactly |

## Left out

- Serialization of the address manager (which keys its address map by the raw address, src/addrman.h:424), repeated `Clear`, `Select_` and `GetChance`: floating point.
- `Check_`'s condition that the key is not null (-16): keys are part of the fixed hash functions.
- Wrap-around of `nIdCount` and of other counters at 2^31 or 2^32 operations.
- Service flags are sets of flag numbers, not machine words.
- The best-block hash of the coin caches, `AccessByTxid`, `ReallocateCache` and the error-catching view.
- Stop requests in the middle of a round of the check queue, and real locks: critical sections are atomic steps.
- `CBloomFilter`, and how the rolling filter derives its size and number of hash functions: floating point.
- The cuckoo cache's `setup_bytes` and memory ordering of its flags.
- Reading a key of a database transaction with another value type than it was written with (the source throws), and LevelDB itself.
- Hexadecimal text and `getdouble` of multi-limb numbers; `GetBlockProofEquivalentTime`.
- Base58 and bech32 on texts longer than an `int` can count; the 5-to-8-bit regrouping of addresses.
- Detection by bech32 of up to four scattered errors in 89 characters: it rests on the minimum distance of the code.
- Which scripts of a block become filter elements, and filter headers.
- `extra_count` of compact blocks, which is only logged (and may wrap when a mempool match is reset), and logging.
- CompactBlock.Announce: the random nonce and the key derived from it are the given short-id function.
- PartialBlock.PartiallyDownloadedBlock.InitData: asks for at most 65535 transactions, as its 16-bit positions do; deserialization, the only source of messages outside the sender, refuses more (src/blockencodings.h:121-124); the hash-table heuristic is an arbitrary verdict for each short id.
- AddrManEffects.RefreshedExactly: asks for a penalty that is not negative and a 32-bit time, as the callers and the field have them; the model's refresh wraps at 32 bits as the source does.
- AddrManEffects.NotesOne: asks for a 32-bit time; the model's `Connected_` wraps at 32 bits as the source does.
- Golomb.GolombRiceEncode: asks for a parameter below 64, since the source's shift is undefined from 64.
- Golomb.GolombRiceDecode: asks for a parameter below 64, for the same reason.
- Bech32Codec.Encode: asks for symbols below 32, since the source indexes its table with them.
- Compact.GetBlockProof: takes the compact target, not the block index that holds it.

# HyperStake: a verified model of its self-contained state machines, searches and codecs

HyperStake is a Bitcoin and PPCoin descendant. This project models the parts of its C++ and C sources that keep
state or compute something by themselves, and proves what they promise. Hash functions, operating system calls,
clocks, random numbers and database reads are parameters; everything else is the algorithm of the source.

| file | models |
|---|---|
| AddrBook.dfy, AddrManState.dfy, AddrMan.dfy | the address manager: what each operation means, the invariant of its five indexes, the class |
| TriedShuffle.dfy | the shuffle of a tried bucket, and which entry it gives up |
| AddrManCheck.dfy | the manager's own consistency check |
| AddrManSerialize.dfy | writing a manager and reading it back |
| StakeModifier.dfy, StakeKernel.dfy | the stake modifier, the chain that carries it, the kernel search and its verifier |
| Merkle.dfy, TxOrder.dfy, Locator.dfy | Merkle tree and branches, replacement order of transactions, block locator |
| BlockTemplate.dfy | filling a block from the memory pool |
| Radix.dfy, BigNum.dfy, Base58.dfy | numbers as digits, the byte and compact forms of big numbers, base-58 text |
| KeccakWords.dfy, KeccakRounds.dfy, KeccakSponge.dfy | the unrolled Keccak rounds against FIPS 202, and the buffering hash |
| Blake.dfy | buffering, padding and the bit counter of BLAKE-28 and BLAKE-32 |
| Bloom.dfy, PageLocks.dfy | the Bloom filter, stacking page locks |
| BitOps.dfy, Bytes.dfy, Numbers.dfy | numbers as bits, byte strings, least and greatest |

## How the parts are proved

**Address manager.** `AddrManState.Inv` says how `mapInfo`, `mapAddr`, `vRandom`, `vvTried`, `vvNew`, `nNew` and `nTried`
agree: `vRandom` lists the ids once each at their recorded positions, a reference count is the number of new buckets
holding the id, a tried id sits once in the bucket its hash names, no bucket exceeds 64. Every method of `CAddrMan`
keeps it and is proved to be one step of the abstract book in `AddrBook`, which knows only addresses, what is recorded
about each, and the buckets it is in. Safety over whole runs is then proved on the book. The source's checker `Check_` is
modelled test by test, with the code of each and the entries its reads of `mapAddr` insert; `CheckExact` says what it
misses: a state passes it and `Unchecked` exactly when it satisfies the invariant, and `StaleAddressPasses` is a state
it lets through. The `assert`s of the source hold and the "something bad happened" exit of `Good_` is unreachable. Times
passed to Good and Attempt are positive, as clock readings are.

**Stake.** A chain is the sequence of its blocks. Selection is specified by `Chosen`, the draw by `Picked` and `Shows`,
the next modifier by `NextModifier`; the loops of the source meet them, the outcome is unique, and the error of a round
without a candidate cannot happen. The search of `CheckStakeKernelHash` is one step per attempt, as `Searched` says,
wrap-around included. For a coin of an accepted block, whose transaction is no later than its block, `SearchExact` says
when search and check mode agree whatever the 256-bit hash function and the sign of the target: exactly if nothing can hit
at the starting age or no attempt can overflow 32 bits. `Disagreement` gives the hash function for every other coin and start,
`WrappedTimeFails` is one such run with numbers, and `NegativeTargetFails` shows what a coin no accepted block holds can
do. Unsigned wrap-around and division towards zero are written out.

**Keccak.** `Fips202` states sections 3.1 to 3.4 of FIPS 202 bit by bit, and `Sponge` sections 4 and 5.1. The macros of
keccak.c are methods over the array of lanes and the argument list that renames them. The renaming is the pi step; the six
complemented lanes become the twelve that KHI expects and come back; the round constants and rotations are recomputed from
Algorithms 2, 5 and 6. `KeccakHash.Hash` covers every message, every split into calls and every number of extra bits. The
extra bits are those the code uses: with n bits, bits 8 - n to 7 of `ub` in this order, while the header names them from 7
down (`ExtraOrder` says for which the two agree). The functions are those of the original Keccak submission: no suffix is added before the padding.

**BLAKE.** The compression function is a parameter. `Chained` gives each block the counter of section 2.1.3 of the BLAKE
submission; the proof shows that setting the counter back before the last block, and the carry of the block loop, yield it.

**Everything else.** Each loop is a method proved against a function or a predicate with properties of its own: round
trips (base 58, big-number bytes, the compact form), uniqueness and its exact limits (Merkle leaves and roots), order
(transaction replacement), bounds (locator), a whole run of the scheduler (block template), monotonicity over runs (Bloom
filter), reference counts and termination (page locks).

## Where code and comments differ

- `SelectTried` is said to find the least recently tried entry of those it shuffles to the front. It compares times of
  success, and it records the slot the entry was drawn from, where another one stands after the swap. `OldestIsTaken`
  gives the buckets for which the slot holds the entry found whatever is drawn: those of one entry, and of two with the
  older one first. `TakenIsAsOld` gives those for which it holds one as old: these, and buckets with a single time of
  success. `OldestIsMissed` is a full bucket, as `SelectTried` always meets it, for which the most recent entry is given up.
  `OldestMayLeave` says when the one oldest entry of a bucket can be given up at all: only from the first four slots.
- The page-lock loop adds the page size to the page address; for a range that reaches the last page of the address space
  the sum wraps to 0 and the loop does not end, and with a page size of 0, which the constructor's assertion lets pass
  (`PowerOfTwoTest`), it stands still. `LoopEndsExactly` says when it ends; `LockRange` and `UnlockRange` require that.
- A pool transaction with an input that is nowhere to be found is dropped, but if an earlier input was unconfirmed
  `mapDependers` keeps the pointer to its freed `COrphan`; `DanglesExactly` says that this is exactly when. The pointer is
  followed as soon as that earlier input's transaction gets into the block: `Fill` ends there, and states that it does so
  exactly if such a transaction is in the block. `FreedOrphanReached` is a pool of two.
- sph_keccak.h names the extra bits from number 7 down, the code takes them upwards: `ExtraOrderDiffers` is an
  input for which they differ.

## Model

| member | source | states |
|---|---|---|
| AddrBook.AddKeeps | src/addrman.cpp:312-368 | Adding keeps every bucket at or below 64, every entry in 1 to 4 new buckets or tried, and forgets at most new entries |
| AddrBook.GoodKeeps | src/addrman.cpp:261-310 | Marking an address good keeps the invariant and the set of known addresses, whether or not a tried entry is sent back |
| AddrBook.StepKeeps | src/addrman.cpp:261-387 | Every operation keeps the invariant, no operation forgets a tried address, and only Add changes which addresses are known |
| AddrBook.SizeBound | src/addrman.h:95-132 | At most 64\*64 + 256\*64 = 20480 addresses are known |
| AddrBook.RunKeeps | src/addrman.cpp:93-368 | In every run from the empty manager each book reached satisfies the invariant and the bound |
| AddrBook.ForgottenWasNew | src/addrman.cpp:149-201 | An address lost during a run was not in the tried table and was lost to an Add |
| AddrBook.FirstRecord | src/addrman.cpp:345-366 | A first announcement records its service, flags, source and time less the penalty, no try and no success, and puts the entry into the one new bucket of its service and source |
| AddrBook.KnownRecord | src/addrman.cpp:323-366 | A repeated announcement moves the time exactly if it was behind by more than an hour, or a day for a peer not seen today, and the penalty; flags add up; another bucket comes exactly with news, fewer than four of them, and the draw 0 |
| AddrBook.FlagsAddUp | src/addrman.cpp:330-331 | A set of flags is absent afterwards exactly if it was absent and not announced |
| AddrBook.GoodRecord | src/addrman.cpp:276-286 | After Good the success, the try and the time are the given one, the failures are forgotten and the entry is tried |
| AddrBook.GoodEvicts | src/addrman.cpp:203-310 | With 64 tried entries of the same hash modulo 64, Good sends exactly one of them back: to the bucket of its own service and source unless that holds 64 others, else to a bucket the good entry was in; with fewer it changes no other entry |
| AddrBook.AttemptsAddUp | src/addrman.cpp:370-387 | Any number of attempts adds up to their number and the time of the last |
| AddrBook.NeverReached | src/addrman.cpp:40-60 | An address announced once and tried k times in vain, the last time over a minute ago, is terrible exactly for k of 3 or more, or a time more than 10 minutes ahead or 30 days back |
| AddrBook.ReachedBefore | src/addrman.cpp:40-60 | After a success and k attempts since, the last over a minute ago, it is terrible exactly after 30 days, or after 7 with k of 10 or more |
| AddrBook.JustTried | src/addrman.cpp:40-43 | What was tried within the last minute is not terrible, whatever else is recorded |
| AddrBook.TerribleIs | src/addrman.cpp:40-60 | The five tests in their order amount to one condition on the seconds and the counts recorded |
| AddrManState.AbsInv | src/addrman.cpp:434-507 | The indexes of a state that satisfies the invariant describe a good book, and nNew + nTried is the size |
| AddrManState.DeleteInv | src/addrman.cpp:149-201 | Deleting the last reference of an entry from all indexes keeps them in agreement and drops exactly that address |
| AddrManState.MoveInv | src/addrman.cpp:203-228 | Moving an entry from the new to the tried table keeps the indexes in agreement |
| AddrManState.SwapInv | src/addrman.cpp:230-259 | Exchanging an entry with a tried one, which returns to a new bucket with room, keeps the indexes in agreement |
| AddrMan.CAddrMan.constructor | src/addrman.h:382-391 | A new manager is valid and knows no address |
| AddrMan.CAddrMan.SwapRandom | src/addrman.cpp:105-123 | Two ids change places in vRandom and their recorded positions follow |
| AddrMan.CAddrMan.Delete | src/addrman.cpp:149-201 | Swap and pop leave every other entry with its exact position |
| AddrMan.CAddrMan.ShrinkNew | src/addrman.cpp:149-201 | A full new bucket loses one entry and nothing else changes: with result 0 its first terrible one, with result 1, when it has none, the first of the least recently seen at four drawn ranks; which result it is follows from the times and counts recorded, written out in seconds |
| AddrMan.CAddrMan.PickOldest | src/addrman.cpp:174-188 | Of the entries at the drawn ranks the first with the least time is taken |
| AddrMan.CAddrMan.SelectTried | src/addrman.cpp:125-147 | The bucket is shuffled by the draws, and the slot returned is the one from which the first of the least recently successful of the shuffled entries was drawn |
| TriedShuffle.OldestIsTaken | src/addrman.cpp:125-147 | Whatever is drawn that slot holds this entry, exactly for buckets of one entry and of two with the older first |
| TriedShuffle.TakenIsAsOld | src/addrman.cpp:125-147 | Whatever is drawn the entry there succeeded as long ago, exactly for these and for buckets with one time of success |
| TriedShuffle.OldestIsMissed | src/addrman.cpp:125-147 | A full bucket and draws for which the least recent entry of all is found and the most recent of all is returned |
| TriedShuffle.OldestMayLeave | src/addrman.cpp:125-147 | Some draws give up the one least recently successful entry of a bucket exactly if it stands in one of the first four slots |
| AddrMan.CAddrMan.MakeTried | src/addrman.cpp:203-259 | The entry leaves every new bucket for its tried bucket; from a full one some entry returns to its own new bucket or, if that is full, to the origin; the tried table is the old one with the entry at the end of its bucket or in the slot that SelectTried's draws give |
| AddrMan.CAddrMan.Evict | src/addrman.cpp:230-259 | With a full tried bucket the entry in the slot that SelectTried's draws give is replaced and returns to a new bucket with room |
| AddrMan.CAddrMan.Good | src/addrman.cpp:261-310 | Good is the abstract step GoodStep and keeps the invariant; the tried table changes exactly for a known service that is not tried, which enters its bucket as MakeTried says |
| AddrMan.CAddrMan.Add | src/addrman.cpp:312-368 | Add is the abstract step AddStep, with its result and its draw, and keeps the invariant: a known entry with n references gets another one exactly if there is news, it is not tried, n < 4 and the draw from 2^n is 0 |
| AddrMan.CAddrMan.Attempt | src/addrman.cpp:370-387 | Attempt changes the last try and the attempts of the entry with this very service, and nothing else |
| AddrMan.CAddrMan.Connected | src/addrman.cpp:509-527 | Connected refreshes a time more than 20 minutes old, and nothing else |
| AddrMan.CAddrMan.GetAddr | src/addrman.cpp:493-507 | The answer is pairwise distinct known addresses, 23 percent of them and at most 2500; the book does not change |
| AddrMan.Apply | src/addrman.h:382-500 | Every operation of the class is a step of the book, so what holds of every run holds of every use |
| AddrManCheck.CheckNew | src/addrman.cpp:475-487 | The new-table part passes exactly when no id is in more new buckets than its count says, and returns the counts not used up |
| AddrManCheck.CheckTried | src/addrman.cpp:465-473 | The tried-table part passes exactly when no slot repeats an id and all are tried ids |
| AddrManCheck.Check | src/addrman.cpp:434-490 | The result is the code of the first test that fails, in the order of the source, and the reads of mapAddr insert 0 for exactly the addresses it lacks |
| AddrManCheck.CheckPasses | src/addrman.cpp:434-490 | The code is 0 exactly for the states CheckOk describes |
| AddrManCheck.CheckReadsOnly | src/addrman.cpp:456 | On a state that satisfies the invariant the check inserts nothing |
| AddrManCheck.StaleAddressPasses | src/addrman.cpp:434-490 | A stale address in mapAddr passes the check and breaks the invariant |
| AddrManCheck.CheckExact | src/addrman.cpp:434-490 | The invariant holds exactly when the check passes and the few facts it does not look at hold; of the addresses of the ids it misses that of id 0 only |
| AddrManSerialize.Write | src/addrman.h:280-317 | What is written numbers the new entries from 0 in the order of their ids, lists new and tried entries in that order, and every bucket by these numbers in ascending order, under version 0 |
| AddrManSerialize.RenumberedInv | src/addrman.h:318-378 | A state that is the old one under new ids satisfies the invariant and describes the same book |
| AddrManSerialize.Read | src/addrman.h:318-378 | Reading what was written gives a valid manager with the same book, and loses no tried entry |
| AddrManSerialize.RoundTrip | src/addrman.h:269-380 | Writing a manager and reading it elsewhere gives the same addresses, fields, tried status and new buckets; nLost is 0 |
| StakeModifier.GetStakeModifierSelectionInterval | src/kernel.cpp:60-76 | The selection interval is the sum of its 64 sections |
| StakeModifier.SectionRatio | src/kernel.cpp:60-65 | Sections never shrink and the last is three times the first, which is the ratio kernel.h announces |
| StakeModifier.SectionShare | src/kernel.cpp:60-65 | Section n is 63/(189-2n) of the interval of the network, 21600 or 60 seconds, rounded down |
| StakeModifier.SelectionOrder | src/kernel.cpp:98-109 | The order of the draw in the hashes themselves: a proof-of-stake block counts with a 2^32th of the hash of its proof, a proof-of-work block with its own |
| StakeModifier.ChosenExactly | src/kernel.cpp:81-125 | A candidate is the one chosen exactly if no unselected one up to the stop is preferred in that order, or as good and earlier; without one, exactly if it is the first unselected |
| StakeModifier.SelectBlockFromCandidates | src/kernel.cpp:81-125 | The block chosen is the first of least hash among the unselected up to the stop time, so none of them is preferred in the order of SelectionOrder, else the earliest unselected; it fails exactly when all are selected or an unknown candidate is met first |
| StakeModifier.CandidatesAre | src/kernel.cpp:160-175 | The sorted candidates are exactly the blocks of the window, in time order, without a repeated hash |
| StakeModifier.PicksDistinct | src/kernel.cpp:177-195 | No block is drawn twice |
| StakeModifier.DrawModifier | src/kernel.cpp:177-195 | The rounds never fail; bit r of the result is the entropy bit of round r and all higher bits are 0 |
| StakeModifier.ComputeNextStakeModifier | src/kernel.cpp:140-227 | The next modifier is the old one or the drawn one as NextModifier says; it fails only on a chain that never generated |
| StakeModifier.NextModifierOnce | src/kernel.cpp:140-227 | Every node that has the chain computes the same modifier |
| StakeModifier.LastStop | src/kernel.cpp:163-184 | After 64 rounds the stop time is the aligned boundary of the interval of the last block |
| StakeModifier.CarriesModifier | src/main.h:1287-1297 | Each block carries the modifier of its nearest generating ancestor or of itself |
| StakeModifier.GeneratesLater | src/kernel.cpp:150-158 | A block generates exactly when its parent is in a later interval than the last generation |
| StakeModifier.GrownHasModifier | src/kernel.cpp:140-158 | On a chain grown by the rule some block always generated, so the next modifier can be computed |
| StakeModifier.IntervalsApart | src/kernel.cpp:150-158 | With times that never decrease no two generating blocks share an interval |
| StakeKernel.GetKernelStakeModifier | src/kernel.cpp:231-266 | The modifier is that of the first generating block at least a selection interval after the coin's block, if there is one |
| StakeKernel.KernelModifierStable | src/kernel.cpp:231-266 | Extending the main chain never changes a modifier found |
| StakeKernel.WeightMono | src/kernel.cpp:310-319 | The truncated coin weight of a non-negative value does not fall with age |
| StakeKernel.WeightIs | src/kernel.cpp:310-316 | Dividing by the coin and then by the day is one division by 86400000000, towards zero |
| StakeKernel.ValidIs | src/kernel.cpp:303-356 | What the check accepts at a time, with the six numbers hashed and the bound written out |
| StakeKernel.TriedTimes | src/kernel.cpp:361-367 | The times tried from a start are exactly the next ones modulo 2^32, as many as the drift |
| StakeKernel.KernelTells | src/kernel.cpp:303-356 | For old enough coins and times some 256-bit hash function makes the check accept one and reject the other exactly if any of the six numbers hashed differs or the bound of the first is above that of the second |
| StakeKernel.Search | src/kernel.cpp:358-392 | The loop ends as the attempts, each from the time the last success left, determine; it succeeds exactly when some attempt hits at the starting age; without overflow it ends later by at most d(d+1)/2, at a time the check accepts if the target and value have one sign or the coin is of an accepted block |
| StakeKernel.CheckStakeKernelHash | src/kernel.cpp:322-393 | It succeeds exactly if the coin is old enough, has a modifier, and the hash of modifier, block time, offset, transaction time, output and a time is below the weighted target: at the given time in check mode, else at one of the times of the drift after it; a search then ends at an accepted time under the same provisos |
| StakeKernel.AcceptanceStable | src/kernel.cpp:231-266 | A coin accepted on a chain is accepted on every extension |
| StakeKernel.SearchedValid | src/kernel.cpp:361-392 | Without overflow, and with one sign or a coin of an accepted block, a successful search ends at a time the check accepts |
| StakeKernel.SearchExact | src/kernel.cpp:310-392 | For a coin of an accepted block and a drift d with d(d+1)/2 seconds below its time, every 256-bit hash function makes search and check agree exactly when the target bound at the starting age is not positive or no attempt can overflow |
| StakeKernel.Disagreement | src/kernel.cpp:361-392 | In every other case a hash function makes the search end before the coin's own time, which the check rejects |
| StakeKernel.NegativeTargetFails | src/kernel.cpp:310-392 | A coin later than its block and a negative target for which a search succeeds and leaves a time the check rejects |
| StakeKernel.WrappedTimeFails | src/kernel.cpp:361-392 | A search from the end of the 32-bit range that succeeds at time 0, which the check rejects |
| Merkle.CBlock.BuildMerkleTree | src/main.h:959-976 | The flat array holds all levels and the root is that of the recursive tree |
| Merkle.CBlock.GetMerkleBranch | src/main.h:978-992 | The branch read from the flat array is the siblings of the path |
| Merkle.CBlock.CheckMerkleBranch | src/main.h:994-1007 | The check folds the branch, and gives 0 for index -1 |
| Merkle.BranchLeadsToRoot | src/main.h:959-1007 | For every list and index the branch of a leaf leads to the root |
| Merkle.OnlyTheLeaf | src/main.h:994-1007 | With an injective hash the branch accepts its leaf and no other |
| Merkle.RootInjective | src/main.h:959-976 | With an injective hash two lists of one length with one root are the same |
| Merkle.RootTellsExactly | src/main.h:959-976 | With an injective hash the root tells every two lists of n and k leaves apart exactly when n = k |
| Merkle.RootsMeet | src/main.h:959-976 | Whatever the hash, for any two different lengths there are lists with one root |
| Merkle.RepeatedLeaf | src/main.h:965-974 | The last leaf of every odd list of more than one may be repeated without changing the root |
| Merkle.RepeatedLeaves | src/main.h:965-974 | So may the leaves of the last node of every odd level of whole nodes |
| TxOrder.IsNewerThan | src/main.h:503-530 | The one-pass loop holds exactly when the inputs agree and the least old sequence number at differing inputs is below the least new one |
| TxOrder.NewerStrict | src/main.h:503-530 | Replacement is irreflexive and asymmetric |
| TxOrder.NewerTransitive | src/main.h:503-530 | Replacement is transitive |
| Locator.CBlockLocator.Set | src/main.h:1464-1479 | The list holds the blocks at the distances 0 to 11, 13, 17, 25 and so on, then the genesis block |
| Locator.CBlockLocator.GetDistanceBack | src/main.h:1481-1500 | The second step schedule retraces the first: the result is the distance of the first entry on the main chain |
| Locator.CBlockLocator.GetBlockIndex | src/main.h:1502-1516 | The block found is the first entry on the main chain, or the genesis block |
| Locator.LocatorShape | src/main.h:1464-1479 | Heights strictly fall and the length is logarithmic in the height |
| Locator.ForkFound | src/main.h:1481-1516 | For a fork at depth d the block found is at depth d to 2d and its distance is its depth, or it is the genesis block |
| BlockTemplate.TakeBest | src/miner.cpp:311-322 | A transaction that no other is above leaves the queue: no higher fee rate when fees decide, no higher priority otherwise, the other number breaking ties |
| BlockTemplate.FirstIs | src/miner.cpp:55-73 | None is above a transaction exactly if none has a higher fee rate, or an equal one and a higher priority, when fees decide; the other way round otherwise |
| BlockTemplate.ReadInputs | src/miner.cpp:242-283 | A transaction becomes an orphan exactly when an unconfirmed input comes before any missing one, and waits for all of those; with a missing one it is dropped and its orphan freed |
| BlockTemplate.ReadPool | src/miner.cpp:228-302 | Every eligible transaction is either queued or an orphan, every parent knows its dependers, and one of them is freed exactly if some transaction misses an input after an unconfirmed one |
| BlockTemplate.DanglesExactly | src/miner.cpp:242-283 | mapDependers points to a freed orphan exactly if some candidate misses an input after an unconfirmed one |
| BlockTemplate.FreedOrphanReached | src/miner.cpp:242-283 | A pool of two in which the second spends the first and an unknown one; it is reached once the first is in the block |
| BlockTemplate.Release | src/miner.cpp:389-405 | Each depender loses this parent; those with none left are released once each; a freed one is met exactly if the map names one |
| BlockTemplate.ReleaseKeeps | src/miner.cpp:389-405 | After a release the queue again holds every ready transaction not yet taken, once |
| BlockTemplate.Test | src/miner.cpp:324-372 | The answer is yes exactly when every test passes, and fees decide from then on exactly when they did or the priority part has ended |
| BlockTemplate.Fill | src/miner.cpp:304-408 | The loop ends and the block is the one its turns build: at each the queue holds the ready transactions not yet taken, the one with the highest fee rate, or priority while that decides, is taken, and it joins the block exactly if it passes; sizes, signature operations and fees are sums over the block within the limits, nothing comes before what it spends, and a transaction got a turn exactly if it became ready; a freed orphan is met exactly if one of its parents is in the block |
| BlockTemplate.TurnDecides | src/miner.cpp:304-408 | A transaction is in the finished block exactly when it passed at its one turn |
| BlockTemplate.ByFeeStays | src/miner.cpp:343-351 | Once fees decide they decide to the end of the run |
| Radix.MinimalOfValue | src/base58.h:45-60 | Digits are the minimal digits of their number and then zeros |
| BigNum.BytesRoundTrip | src/bignum.h:269-294 | setvch undoes getvch for every integer |
| BigNum.ValueRoundTrip | src/bignum.h:269-294 | getvch undoes setvch exactly on the shortest byte strings |
| BigNum.WordBytes | src/bignum.h:140-208 | The bytes built from a 64-bit word and a sign stand for that number |
| BigNum.CBigNum.SetInt64 | src/bignum.h:140-181 | Every 64-bit signed integer is taken over, the least one included |
| BigNum.CBigNum.SetUint64 | src/bignum.h:183-208 | Every 64-bit unsigned integer is taken over |
| BigNum.CBigNum.GetUint64 | src/bignum.h:210-223 | The result is the low 64 bits of the magnitude |
| BigNum.CBigNum.SetVch | src/bignum.h:269-282 | The number is the one the sign-magnitude bytes stand for |
| BigNum.CBigNum.GetVch | src/bignum.h:284-294 | The bytes are the shortest sign-magnitude bytes of the number |
| BigNum.CBigNum.SetCompact | src/bignum.h:296-313 | Both shift branches give sign, word and exponent their one meaning |
| BigNum.CBigNum.GetCompact | src/bignum.h:315-337 | The compact form is the signed byte count and the leading 23 bits, the count cut to 8 bits |
| BigNum.CompactIdempotent | src/bignum.h:296-337 | A second trip through the compact form changes nothing, for every 32-bit value |
| BigNum.CompactMonotone | src/bignum.h:315-337 | On numbers of at most 254 bytes and a sign larger numbers have larger compact forms |
| BigNum.CompactAccurate | src/bignum.h:296-337 | The loss is downward and below n / 2^15 exactly for n below 2^2039 |
| Base58.RebasedTwice | src/base58.h:27-119 | Changing base and back, leading zeros kept, is the identity |
| Base58.LettersAre | src/base58.h:22-24 | The alphabet is the digits and Latin letters without 0, I, O and l |
| Base58.DecodeEncode | src/base58.h:27-119 | Decoding undoes encoding on every byte string |
| Base58.EncodeDecode | src/base58.h:27-119 | Encoding undoes decoding on every string over the alphabet |
| Base58.EncodeBase58 | src/base58.h:27-65 | The division loop and the zero loop write the bytes in base 58 |
| Base58.DecodeBase58 | src/base58.h:75-119 | Decoding succeeds exactly on white space, letters, white space, and gives the bytes of the letters |
| Base58.SpacedUnique | src/base58.h:81-100 | There is one way to read a string as letters between white space |
| KeccakRounds.RenamingIsPi | src/keccak.c:1139-1156 | Passing on the renamed argument list is the pi step of FIPS 202 |
| KeccakRounds.NamingsRename | src/keccak.c:1139-1156 | Each of P1 to P8 is the renaming of the list before it |
| KeccakRounds.ThetaIsTheta | src/keccak.c:958-1014 | THETA is the theta step in any naming |
| KeccakRounds.OffsetTable | src/keccak.c:1016-1045 | The 24 rotations of RHO are the offsets of Algorithm 2 of FIPS 202 |
| KeccakRounds.RhoStep | src/keccak.c:1016-1045 | RHO is the rho step in any naming |
| KeccakRounds.ThetaMasked | src/keccak.c:1047-1056 | Through theta the six complemented lanes become the fixed other set |
| KeccakRounds.KhiMasked | src/keccak.c:1058-1135 | KHI on its twelve complemented inputs is chi with six complemented outputs |
| KeccakRounds.RcTable | src/keccak.c:136-149 | The table holds the round constants of Algorithms 5 and 6 of FIPS 202 |
| KeccakRounds.KfElt | src/keccak.c:1392-1397 | One unrolled round is the round of FIPS 202, complemented lanes kept |
| KeccakRounds.Restore | src/keccak.c:1313-1347 | P8_TO_P0 brings the lanes back to source order |
| KeccakRounds.KeccakF1600 | src/keccak.c:1454-1467 | The unrolled permutation is KECCAK-f[1600] for every state, with six lanes complemented before and after |
| KeccakHash.InputBuf | src/keccak.c:183-188 | The lanes of the buffer are XORed in as the bits of the block |
| KeccakHash.XorBlockMasked | src/keccak.c:1525-1566 | Absorbing respects the complemented lanes |
| KeccakHash.ExtraOrder | src/keccak.c:1618 | The extra bits are those the header names in reverse order, the same exactly if they read the same both ways |
| KeccakHash.ExtraOrderDiffers | src/keccak.c:1618 | Two extra bits for which code and header differ |
| KeccakHash.TailIsPad | src/keccak.c:1618-1635 | The closing bytes, in all three cases, are the extra bits and pad10\*1 |
| KeccakHash.Context.Init | src/keccak.c:1525-1566 | The initial lanes are the zero state with six lanes complemented |
| KeccakHash.Context.Core | src/keccak.c:1568-1603 | The call appends its data to the message, through the early return or the block loop |
| KeccakHash.Context.Close | src/keccak.c:1607-1647 | The output is KECCAK[c] of the message and the extra bits, and the context starts anew |
| KeccakHash.Hash | src/keccak.c:1568-1647 | However the message is cut into calls, the output is the sponge of its bits |
| Blake.RunAppend | src/blake.c:800-836 | The block loop on a message is the loop on a part of whole blocks and then on the rest |
| Blake.SmallContext.CompressBuffer | src/blake.c:827-829 | The two counter words go up by 512 as one 64-bit number before each compression |
| Blake.SmallContext.Core | src/blake.c:800-836 | A call compresses the whole blocks of buffer and data and keeps the rest |
| Blake.SmallContext.Update | src/blake.c:800-836 | The state after any calls is that of the whole message |
| Blake.PaddedIsBytes | src/blake.c:851-883 | The closing bytes are the padding of section 2.1.3: extra bits, a one, zeros, the final bit, the length |
| Blake.ChainedRun | src/blake.c:818-833 | On blocks full of message the loop gives every compression the bits hashed so far |
| Blake.SmallContext.Rewind | src/blake.c:857-866 | The three wrap-around assignments make the next counter the message length, or 0 for a block without message |
| Blake.FinalBlocks | src/blake.c:867-883 | The last one or two blocks complete the chain of the specification |
| Blake.SmallContext.Close | src/blake.c:838-889 | The result has 4 bytes for each of the seven or eight words of the specified hash, most significant bit first, for every message below 2^64 bits |
| Blake.Hash | src/blake.c:790-889 | However the message is cut into calls, the bits of the result are those of the words of its specified hash |
| Bloom.CBloomFilter.Insert | src/bloom.cpp:40-51 | The probes of the key are set, and the full shortcut changes nothing |
| Bloom.CBloomFilter.Contains | src/bloom.cpp:67-81 | The answer is that of the probe bits whatever the flags say, but for an empty filter without hash functions |
| Bloom.IndexIs | src/bloom.cpp:34-38 | The seeds of the probes start at the tweak and step by 0xFBA4C795 in 32-bit arithmetic; a probe is the hash under its seed modulo the bits of the table |
| Bloom.SetProbesBits | src/bloom.cpp:40-51 | Inserting sets the bits at the probes of the key and no other |
| Bloom.EmptyProbes | src/bloom.cpp:67-81 | The empty shortcut answers like the bits exactly if there is a hash function |
| Bloom.CBloomFilter.IsRelevantAndUpdate | src/bloom.cpp:102-169 | The answer, with the same exception, and the table afterwards are those of BIP 37 filter matching |
| Bloom.CBloomFilter.UpdateEmptyFull | src/bloom.cpp:171-182 | The flags say exactly whether all or no bits are set |
| Bloom.Apply | src/bloom.cpp:40-182 | Every operation of the class is its step on table and flags |
| Bloom.RunGrows | src/bloom.cpp:40-182 | Over any run bits only appear |
| Bloom.BlindExactly | src/bloom.cpp:40-182 | A run leaves the empty flag deciding against the bits exactly with no hash function, no bit ever set, and the flags updated after the last insertion |
| Bloom.InsertedStays | src/bloom.cpp:40-81 | After any run the class says that an inserted key is contained, exactly outside that case |
| Bloom.SpendIsRelevant | src/bloom.cpp:102-169 | After any run the class says that whoever spends an output that matched, and that the flags have added (1: any, 2: pay to key), is relevant, exactly outside that case |
| PageLocks.PowerOfTwoTest | src/allocators.h:48-53 | The constructor's bit test, on a size_t, holds exactly for 0 and the powers of two |
| PageLocks.MaskIsFloor | src/allocators.h:50-62 | Masking an address gives the start of its page |
| PageLocks.TouchedPages | src/allocators.h:60-63 | The loop visits exactly the pages that hold a byte of the range |
| PageLocks.StepsPast | src/allocators.h:62-63 | The page step overflows exactly when the range reaches the last page of the address space |
| PageLocks.LoopEndsExactly | src/allocators.h:60-63 | For every page size the constructor accepts, the loop over a range passes its last page exactly when the size is not 0 and the range ends before the last page of the address space |
| PageLocks.LockedPageManager.LockRange | src/allocators.h:55-76 | One more live range; each page's count is the number of live ranges touching it |
| PageLocks.LockedPageManager.UnlockRange | src/allocators.h:78-99 | One live range less, counts likewise; the assertion that the area was locked holds |
| PageLocks.LockedPageManager.HeldWhileTouched | src/allocators.h:33-43 | A page is held by the operating system exactly while some live range touches it |

## Left out

- `CAddrMan::Select_` and `GetChance`: floating point, and a loop that ends only with probability one.
- AddrManSerialize.Read: reads streams the writer produced; other streams, other bucket counts, the byte layout of the fields and the serialization version are not modelled.
- Address manager, arithmetic: overflow of `nIdCount`, of attempt counters and of 64-bit time differences; `nTime` itself is cut to 32 bits.
- Locks and threads: every public method of a modelled class is one atomic step.
- Stake modifier: the hard checkpoints of modifier checksums and the debug output.
- Stake kernel: the hash left behind by a search, the map of hashed blocks, and the transaction checks of `CheckProofOfStake`.
- StakeKernel.SearchExact: requires that d(d+1)/2 is at most the coin's time for a drift of d seconds, which the wallet caps at 60.
- StakeKernel.Disagreement: requires the same.
- `CheckStakeKernelHash`: the block and transaction are the fields the protocol hashes; reading them from disk is not modelled.
- Merkle: an index below -1 in the check is folded as the shift operators do; one is never produced by the source.
- Locator: overflow of the 32-bit step, which needs a chain of about 2^30 blocks.
- Block template: what happens after a freed orphan is met; the model ends the run there.
- Block template: the values of priorities and fees per kilobyte, computed in floating point; the heap layout, any largest element may come first; coinbase, coinstake and header.
- Block template, orphans: list nodes and pointers to them are places in a sequence, and a popped node keeps its place.
- Big numbers: the four-byte size in front of the OpenSSL stream, so byte strings of 2^32 or more; 256-bit conversions and hexadecimal text repeat the 64-bit pattern; a negative zero is zero.
- Base 58: the address and key wrappers with checksums.
- Keccak: the 32-bit and interleaved code paths and other unrollings; FIPS 202 suffixes, which the source does not add.
- BLAKE: the compression function, the salt, and the 64-bit variants, which repeat the same code.
- Bloom filter: sizes from floating point, filters without a table, serialization, and script parsing.
- PageLocks.LockedPageManager.LockRange: requires that its loop ends, as `LoopEndsExactly` says when; failure of the operating system calls is not modelled.
- PageLocks.LockedPageManager.UnlockRange: requires the same, and a range that was locked, as the source asserts.
- OpenSSL curves, scripts, AES, scrypt, the other hash cores, disk, network, RPC and user interface: foreign or without rules of their own.

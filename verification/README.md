# Verified models of the node's stateful cores

Dafny models of the parts of the coin daemon whose correctness rests on several functions together, with proofs
that hold for every input, every random draw, every interleaving or every run. Each module follows one component;
a class stands for an object whose methods update it in place, a function for what such a method is proved to compute.

* **Address manager** (`AddrTypes`, `AddrTables`, `AddrSteps`, `AddrRuns`, `AddrDates`, `AddrSelect`, `AddrMan`, `AddrCheck`,
  `AddrStore`, `AddrEffects`, `AddrLayout`). The class `AddrMan` has the fields of `CAddrMan`; its value is a `Tables`. `Structured` is the invariant of
  the seven structures, which every operation keeps; `StructuredBut` is the broken state in the middle of `Add_`, where the
  id being added is counted but in no bucket yet. `Consistent` adds what `Check_` demands of the times in the records, and
  `AddrDates` says exactly when an operation keeps that. `AddrEffects` tells what the operations do by the fields of the
  records and literal times, and `AddrLayout` what stands where in the file. Random draws are arbitrary numbers
  in range, the two hash chains are arbitrary functions of the fields they hash.
* **Check queue** (`CheckQueue`, `CheckQueueRuns`). The critical sections of `CCheckQueue`, as methods, and the transition
  system of one master and any number of workers, in which a step is one critical section or one check outside the mutex.
  Notifications wake any waiting thread, and a thread may wake up without one.
* **Keccak** (`KeccakSpec`, `KeccakCode`, `KeccakSponge`, `Buffers`). The permutation as FIPS 202 states it, the macros of
  the unrolled code on an array of 25 registers, and the sponge with its buffer. A word is its 64 bits, lowest first.
* **BLAKE-256** (`Blake`). Streaming, counters and padding around an arbitrary compression function.
* **Coins** (`VarInt`, `Amount`, `TxOuts`, `CoinsFormat`, `CoinsCode`, `Spending`). The formats of unspent outputs and undo
  records, spending and disconnecting. Numbers have the widths of the original: unsigned words of 32 and 64 bits wrap around,
  signed ones are two's complement, also where a reader shifts a number out of its type. A stream is a sequence of bytes, and
  a read gives the value and the rest of the stream, or nothing if it ends too early.
* **Merkle trees** (`Merkle`), **Base58** (`Radix`, `BigNumBytes`, `Base58`, `Base58Data`), **compact targets** (`Compact`).
  A `CBigNum` is an integer; its bytes follow the MPI format of OpenSSL.
* **Key store** (`KeyStore`), **page locks** (`LockedPages`), **Bloom filter** (`Bloom`).
* `Vectors` holds values that the tests and comments of the repository give: integers, amounts, coins, Base58 texts, compact
  words, and the smallest Merkle trees.
* `FiniteSets`, `Ascending`, `Sequences`, `Words`, `Wrappers` and `Arithmetic` hold facts about sets, ordered iteration,
  reversal, machine words, optional results and division.

What lies outside is a parameter: hashes, elliptic curve, cipher, checksum, clock and random numbers. Where a result needs
something of them it is in the `requires`: the curve decompresses what it compresses, to keys of 65 bytes (`TxOuts.Sound`),
the cipher decrypts what it encrypts under one key and initial vector (`KeyStore`'s `World.Sound`), a checksum has four bytes
(`Base58Data.IsChecksum`). Nothing is required of the hash of Merkle trees: what does not lead to a leaf leads to a collision.

## Where the code and its comments differ

* `SelectTried` promises the position of the oldest of the entries it inspects. It records the position an entry was drawn
  from, after the entry has been swapped away from there. `AddrSelect.SelectedIsOldestExactly` says for which draws the
  position holds an inspected entry that none is older than: the oldest one was not moved, or an equally old one has taken
  its place. Before the call, with a full bucket: the position is as good as promised for all draws if and only if all
  entries of the bucket are equally old (`AddrSelect.OldEnoughExactly`); `AddrSelect.MovedOldestIsMissed` is a full bucket in
  which a younger entry is returned. The method is proved with what it does return, and the invariant does not depend on it.
* `Check_` demands that times are not negative and that a tried entry has had a success. `Good_` and `Attempt_` store any time
  they are given. A step keeps the demand exactly if it names a service that is not known, or a time above 0 for `Good_` and
  of at least 0 for `Attempt_` (`AddrDates.StepKeepsExactly`); everything else holds whatever the times
  (`AddrRuns.RunsAreStructured`). `AddrDates.GoodAtZero` and `AddrDates.AttemptBeforeZero` are runs of two operations after
  which `Check_` finds fault.
* `CCheckQueueControl` asserts on entry that `fAllOk` is true. `nTodo = 0` with the master outside `Wait` does not suffice: it
  is true exactly when all checks added since the last `Wait` have passed (`CheckQueueRuns.QuiescentControl`), and a failed
  check that nobody has waited for leaves it false (`FailedCheckLingers`).
* The header of the key store says that `mapKeys` is empty once `fUseCrypto` is set. `EncryptKeys` sets the flag first and
  returns in the middle when a key does not encrypt. The invariant survives exactly when every key of the store can be
  encrypted under the master key (`KeyStore.EncryptionKeepsInvariant`); a master key that is not of 32 bytes breaks it for
  every store with a key in it (`KeyStore.ShortMasterKey`, and `KeyStore.InvariantBreaks` for an instance). All addresses
  keep their keys exactly when each key was one of 32 bytes under the address of its own public key
  (`KeyStore.SameKeysExactly`).
* The comment on variable-length integers says that every integer has one encoding. Of the bytes this is true
  (`VarInt.DecodedIsEncoded`), but a reader of w bits takes longer encodings too: what it reads is written as the bytes it was
  read from exactly when they stand for a number below 2^w (`VarInt.EncodingIsUnique`). The bytes 8E FE FE FF 00 are read as
  0 by a reader of 32 bits (`VarInt.WrappedStream`). Two of its examples are wrong: 80 FF 7F, given for 16511, stands for
  32895, and 82 FD 7F, given for 65535, for 65407 (`Vectors.VarIntExamples`).
* Unserialized coins equal the serialized ones exactly under the condition in `CoinsFormat.SurvivesExactly`. A negative
  number is written as one byte, its low seven bits, so it is read as another one: version -1 comes back as 127
  (`CoinsFormat.NegativeVersionIsLost`).
* A spent output's record restores the coins exactly when another output was available or the height is not 0
  (`Spending.UndoExactly`, and `Spending.RunIsUndone` for runs); `Spending.LastAtHeightZero` shows what is lost otherwise.
  The record itself survives its format only up to a height of 2^31 - 1, since the height is doubled in 32 bits
  (`Spending.UndoRoundTrip`, `Spending.UndoAtLimit`); `Spending.StoredUndoExactly` puts the two together.
* The comment on the compression of amounts calls the code decodable. On natural numbers it is (`Amount.DecompressCompress`).
  In 64 bits an amount is recovered if and only if it has a trailing zero or is at most 2049638230412172402, which is when
  its code fits (`Amount.RecoveredIn64Bits`); no other amount is recovered by chance, `Amount.LargestIsLost` being one.
* The page sweep of the lock manager ends exactly when the address after the last page does not wrap
  (`LockedPages.SweepEndsExactly`); a compact word stands for its rounded number exactly when the exponent fits a byte
  (`Compact.RecoveredExactly`).
* `Check_` looks addresses up with `operator[]`, which inserts id 0 for a missing one. `AddrCheck.Check` models this; when
  every record is indexed, the check changes nothing.

## Model

| member | source | states |
|---|---|---|
| AddrTypes.GroupReachesFewTriedBuckets | src/addrman.cpp:10-22 | however many services of one address group there are, at most 4 tried buckets ever hold them |
| AddrTypes.SourceReachesFewNewBuckets | src/addrman.cpp:24-36 | whatever addresses one source group announces, they reach at most 32 new buckets |
| AddrTables.EmptyIsConsistent | src/addrman.h:380-388 | the empty manager satisfies the invariant, and the demands on times |
| AddrTables.CreatedKeeps | src/addrman.cpp:94-104 | creating an unknown entry breaks the invariant only in that the new id is counted once and held by no bucket |
| AddrTables.SwappedKeeps | src/addrman.cpp:106-124 | exchanging two positions keeps positions and order inverse to each other and changes nothing else of any record |
| AddrTables.ForgottenKeeps | src/addrman.cpp:150-202 | swapping an entry to the end and erasing it keeps both indexes exact and leaves all other records but their positions alone |
| AddrTables.UnreferencedKeeps | src/addrman.cpp:150-202 | taking an id out of one new bucket, with deletion at the last reference, keeps the invariant also while another id is pending |
| AddrTables.InsertedKeeps | src/addrman.cpp:359-367 | putting the pending id into a bucket with room restores the whole invariant |
| AddrTables.RestatedKeeps | src/addrman.cpp:371-388 | statistics of an entry may change freely without disturbing the invariant |
| AddrSteps.PlacesKeeps | src/addrman.cpp:359-367 | shrinking a full bucket while the id is pending and then inserting it restores the whole invariant |
| AddrSteps.ReferencedKeeps | src/addrman.cpp:340-366 | a known new entry with fewer than 4 references may take one more, which makes it pending |
| AddrSteps.AddKeeps | src/addrman.cpp:313-369 | every outcome of Add keeps the invariant |
| AddrSteps.ExchangedKeeps | src/addrman.cpp:228-260 | evicting any entry of a full tried bucket for the promoted one keeps the invariant |
| AddrSteps.ReturnBucketHasRoom | src/addrman.cpp:240-252 | the new bucket that the evicted entry returns to always has room, so no bucket exceeds 64 |
| AddrSteps.MakeTriedKeeps | src/addrman.cpp:204-260 | promotion with or without eviction keeps the invariant |
| AddrSteps.GoodKeeps | src/addrman.cpp:262-311 | every outcome of Good keeps the invariant, whatever the time |
| AddrRuns.StepKeeps | src/addrman.cpp:262-529 | Add, Good, Attempt, Connected and GetAddr keep the invariant, whatever is drawn |
| AddrRuns.RunsAreStructured | src/addrman.cpp:262-529 | every state of every run from the empty manager satisfies the invariant, whatever times the operations are given |
| AddrRuns.SizeIsBounded | src/addrman.h:391-394 | the order lists exactly the counted entries, at most 256*64 new and 64*64 tried ones |
| AddrRuns.AddForgets | src/addrman.cpp:313-369 | Add makes a routable address known and says whether it was unknown; it costs at most one other address |
| AddrRuns.GoodMakesTried | src/addrman.cpp:262-311 | Good leaves exactly the same addresses known, the given one tried, with no reference and fresh statistics; an unknown service changes nothing |
| AddrRuns.TriedStaysKnown | src/addrman.cpp:204-260 | no step makes a tried address unknown |
| AddrRuns.GetAddrIsFair | src/addrman.cpp:494-508 | GetAddr returns exactly min(23*size/100, 2500) pairwise distinct known addresses as their records state them |
| AddrEffects.PlacedHasEntered | src/addrman.cpp:150-202 | a full new bucket loses one entry: the first that was not tried within 60 seconds and was never seen, seen more than 10 minutes ahead or not for 60 days, tried 3 times without a success, or 20 times and not with one in 7 days; only if there is none of these, another; it loses one reference, and is forgotten with its last |
| AddrEffects.AddCreates | src/addrman.cpp:313-369 | an unknown routable address gets the next id, a fresh record with the announced time less the penalty and one reference, and enters the new bucket that the two hashes over key and groups select |
| AddrEffects.AddRefreshes | src/addrman.cpp:322-352 | a known one has services added, and its time moved exactly if the announced one is ahead by more than an hour, or a day, and the penalty; it takes the further bucket exactly if the draw below 2^N is 0, the announced time is still later, and it is new with fewer than 4 references and not there yet |
| AddrEffects.GoodMoves | src/addrman.cpp:204-311 | the entry leaves all new buckets for its tried bucket; if that held 64, one entry of it becomes new with one reference, and the buckets that hold it are exactly its own one if that has room without the promoted entry, or else one that the promoted entry leaves |
| AddrEffects.OnlyStatistics | src/addrman.cpp:371-388 | Attempt, Connected, and Good for a tried entry change the stated fields of one record and nothing else |
| AddrDates.GoodDates | src/addrman.cpp:262-311 | after Good the times satisfy Check_ if and only if the stated time is positive or the service is unknown |
| AddrDates.AttemptDates | src/addrman.cpp:371-388 | after Attempt the times satisfy Check_ if and only if the stated time is not negative or the service is unknown |
| AddrDates.GoodAtZero | src/addrman.cpp:262-311 | a run that adds any routable address and calls Good for it at time 0 leaves a tried entry without a success, the rest of the invariant intact |
| AddrDates.AttemptBeforeZero | src/addrman.cpp:371-388 | a run that adds any routable address and calls Attempt for it at time -1 leaves a negative time |
| AddrDates.StepKeepsExactly | src/addrman.cpp:262-529 | a step leaves the invariant with the demands on times intact if and only if its own time fits |
| AddrDates.RunsAreConsistent | src/addrman.cpp:435-491 | every state of every run with times as a clock gives them satisfies the invariant and the demands on times |
| AddrSelect.ShuffleIsPermutation | src/addrman.cpp:126-148 | the shuffle of the front of a bucket permutes it, whatever is drawn |
| AddrSelect.SelectsExactly | src/addrman.cpp:126-148 | four entries are inspected, or all of fewer, and the one found oldest is the first of those with the least time of the last success |
| AddrSelect.SelectedIsOldestExactly | src/addrman.cpp:126-148 | the returned position holds an inspected entry that no inspected one is older than if and only if the one found oldest was drawn from its own place or an equally old inspected one stands there |
| AddrSelect.OldEnoughExactly | src/addrman.cpp:126-148 | in a bucket of at least 64, the entry at the returned position is as old as every inspected one for all draws if and only if all entries of the bucket are equally old |
| AddrSelect.MovedOldestIsMissed | src/addrman.cpp:126-148 | a bucket of 64, and four draws with which a younger entry than the oldest inspected one is selected |
| AddrMan.AddrMan.constructor | src/addrman.h:380-388 | a new manager is the empty one and satisfies the invariant |
| AddrMan.AddrMan.Find | src/addrman.cpp:81-92 | finds the id of an address, and fails only if no record has it |
| AddrMan.AddrMan.Create | src/addrman.cpp:94-104 | the new id, record, index entry and last position, and nothing else changes |
| AddrMan.AddrMan.SwapRandom | src/addrman.cpp:106-124 | both positions and both back-pointers are exchanged; the method is called only where its asserts hold |
| AddrMan.AddrMan.SelectTried | src/addrman.cpp:126-148 | the bucket is shuffled by 4 draws (or its size), and the position is the draw of the first of the oldest inspected entries |
| AddrMan.AddrMan.ShrinkNew | src/addrman.cpp:150-202 | releases one entry: returns 0 exactly if an expendable one exists and releases the first of these, else 1 and the oldest of four drawn ones; expendable is told by the fields of the record and literal times |
| AddrMan.AddrMan.MakeTried | src/addrman.cpp:204-260 | leaves all new buckets, enters its own tried bucket, evicts when full; no internal assert fails |
| AddrMan.AddrMan.Evict | src/addrman.cpp:228-260 | the entry at the selected position changes places with the promoted one and returns to a new bucket |
| AddrMan.AddrMan.Good | src/addrman.cpp:262-311 | is a Good step of the run relation and keeps the invariant, for every time |
| AddrMan.AddrMan.FindNewBucket | src/addrman.cpp:286-302 | from any random start the search finds a bucket that holds the id |
| AddrMan.AddrMan.Add | src/addrman.cpp:313-369 | is an Add step, with the answer, and keeps the invariant |
| AddrMan.AddrMan.Attempt | src/addrman.cpp:371-388 | is an Attempt step, changes records only, and keeps the invariant, for every time |
| AddrMan.AddrMan.Connected | src/addrman.cpp:510-529 | is a Connected step, changes records only, and keeps the invariant |
| AddrMan.AddrMan.GetAddr | src/addrman.cpp:494-508 | is a GetAddr step that touches only order and positions, and keeps the invariant |
| AddrCheck.ConsistentIffChecks | src/addrman.cpp:435-491 | the invariant with the demands on times is equivalent to the conditions of Check_ together with the listed ones it does not check |
| AddrCheck.OnlyDatesFail | src/addrman.cpp:435-491 | of tables that satisfy the invariant, Check_ finds fault if and only if some time does not meet its demands |
| AddrCheck.Check | src/addrman.cpp:435-491 | the loops with their working copies return 0 if and only if the conditions hold, which are stated by inverse maps, exact slots and exact reference counts |
| AddrCheck.CheckAfterRun | src/addrman.cpp:435-491 | after every run the check changes nothing, and returns 0 if and only if the times meet its demands, as they do when a clock gave them |
| AddrStore.Save | src/addrman.h:279-316 | writes header, new and tried records in order of id, and every bucket by the numbers of its members |
| AddrLayout.HeaderStands | src/addrman.h:250-262 | the file begins with version 0, the key, the two counts and 256, and has one record for each entry, one number for each bucket and one for each reference |
| AddrLayout.NewRecordStands | src/addrman.h:285-295 | the record of a new entry stands behind the header and the new entries with smaller ids |
| AddrLayout.TriedRecordStands | src/addrman.h:296-306 | the record of a tried entry stands behind all the new ones and the tried entries with smaller ids |
| AddrLayout.RecordFields | src/addrman.h:48-54 | the fields of an entry that are written, and what becomes of the others when it is read |
| AddrLayout.BlocksStand | src/addrman.h:307-316 | the buckets fill the rest of the file |
| AddrLayout.BlockStands | src/addrman.h:307-316 | the block of a bucket stands behind those of the buckets before it |
| AddrLayout.BlockTells | src/addrman.h:307-316 | a block is the size of its bucket and, in the order of the ids, the number of the record of each member |
| AddrStore.Load | src/addrman.h:316-378 | reading what was saved, whatever follows it, fills any manager with the saved tables up to numbering; nothing is lost for room and the rest of the stream is untouched |
| AddrStore.Reload | src/addrman.h:248-378 | saving and reading into a new manager restores the tables and the invariant |
| AddrStore.RestoredIsStructured | src/addrman.h:318-376 | tables that are the saved ones up to numbering satisfy the invariant |
| AddrStore.RestoredIsConsistent | src/addrman.h:318-376 | and the demands on times if the saved ones did |
| AddrStore.RestoredIsTheSame | src/addrman.h:318-376 | exactly the same addresses are known, with the same record (time of last try, which is not stored, cleared), new buckets and tried bucket |
| CheckQueue.Queue.Add | src/checkqueue.h:136-147 | appends the checks, counts them, and notifies one or all |
| CheckQueue.Queue.CleanUp | src/checkqueue.h:69-81 | accounts for a finished batch; a worker that finishes the last one notifies the master |
| CheckQueue.Queue.Decide | src/checkqueue.h:82-111 | returns, waits, or takes from 1 up to all of the checks off the end of the queue |
| CheckQueue.BatchIsShare | src/checkqueue.h:101-101 | a batch is at least one check; a larger one is within the limit and within the share of the queue for the threads, idle ones counted twice; and one more would not be |
| CheckQueue.SectionExactly | src/checkqueue.h:67-111 | what a critical section does to each field; it returns exactly as the master with nothing queued or outstanding, takes exactly if something is queued, the end of the queue, last check first, and notifies exactly as a worker that finished the last check |
| CheckQueue.Queue.Execute | src/checkqueue.h:112-116 | tells whether all checks of the batch pass, though it skips those after a failure |
| CheckQueue.Queue.Enter | src/checkqueue.h:67-111 | one critical section: clean-up or the end of a wait, then the decision, as one function of fields and thread |
| CheckQueue.Queue.Round | src/checkqueue.h:65-118 | a critical section and the batch taken in it; what the thread takes into the next one is the verdict on its checks |
| CheckQueue.Queue.Loop | src/checkqueue.h:61-118 | whatever the fields are each time the mutex is acquired, the thread passes through the specified sections and returns the verdict of the last one; only the master returns |
| CheckQueueRuns.StepKeeps | src/checkqueue.h:61-147 | every step keeps nTodo = queued + held, the idle and total counts, the verdict and the wakefulness of somebody |
| CheckQueueRuns.SectionIsStep | src/checkqueue.h:67-111 | a critical section of the loop is the step of its thread in the transition system: it changes the fields, moves the thread and wakes the master |
| CheckQueueRuns.BatchIsExecuted | src/checkqueue.h:112-116 | the checks of a batch, one step each, lead where the loop over the batch leads |
| CheckQueueRuns.BehavioursKeepInv | src/checkqueue.h:61-147 | every state of every interleaving satisfies that invariant |
| CheckQueueRuns.WaitTellsTheTruth | src/checkqueue.h:130-133 | Wait returns true if and only if all checks added since the last Wait pass; then the queue is empty and no thread holds a batch |
| CheckQueueRuns.AddedIsTheHistory | src/checkqueue.h:86-89 | the recorded history is what was added since the last return of Wait, and nothing else |
| CheckQueueRuns.QuiescentControl | src/checkqueue.h:164-170 | with nothing to do and the master outside Wait, nTotal = nIdle, and fAllOk holds exactly if all checks added since the last Wait pass |
| CheckQueueRuns.FailedCheckLingers | src/checkqueue.h:164-170 | a behaviour after which the assert on fAllOk fails |
| CheckQueueRuns.UnusedQueuePassesControl | src/checkqueue.h:164-170 | right after Wait, or before the first Add, all three asserts hold |
| CheckQueueRuns.SomeThreadMoves | src/checkqueue.h:71-95 | while the master is in Wait some thread is not asleep: no wake-up of the master is lost |
| CheckQueueRuns.SomeWorkerMoves | src/checkqueue.h:136-147 | while checks are to be done and the master is elsewhere, some worker is not asleep |
| CheckQueueRuns.RunDoesWork | src/checkqueue.h:61-118 | every step of a thread that is awake decreases the work left; a spurious wake-up changes nothing or helps |
| CheckQueueRuns.WaitTerminates | src/checkqueue.h:61-118 | under every schedule, with any number of spurious wake-ups in between, the other steps taken while the master is in Wait are at most as many as the work left at its start |
| KeccakSpec.OffsetsFollow | src/keccak.c:1016-1044 | the table of rotations is the one of Algorithm 2 of FIPS 202, section 3.2.2: (t+1)(t+2)/2 at the lane reached in step t |
| KeccakSpec.EveryLaneIsVisited | src/keccak.c:1016-1044 | that algorithm visits every lane but the first, so it determines all offsets |
| KeccakSpec.ConstantsFollow | src/keccak.c:136-149 | the 24 round constants come from the shift register of Algorithm 5, section 3.2.5 |
| KeccakSpec.SevenBits | src/keccak.c:136-149 | bit 2^j - 1 of a round constant is the output of the shift register after 7i + j steps |
| KeccakSpec.OnlySevenBits | src/keccak.c:136-149 | and its other bits are zeros |
| KeccakSpec.AllRoundsEnd | src/keccak.c:1392-1467 | a run of rounds from a state ends in one state only |
| KeccakSpec.IsThetaOf | src/keccak.c:958-1014 | bit by bit: theta adds to a bit the five of the column before it and the five of the column after it one bit lower (FIPS 202, section 3.2.1) |
| KeccakSpec.IsRhoOf | src/keccak.c:1016-1044 | bit by bit: rho moves a bit up by the offset of its lane, (t+1)(t+2)/2 for the lane visited at step t (FIPS 202, section 3.2.2) |
| KeccakSpec.OtherSteps | src/keccak.c:1046-1186 | bit by bit: what pi, chi and iota do (FIPS 202, sections 3.2.3 to 3.2.5) |
| KeccakCode.ThEltIsParity | src/keccak.c:958-973 | the regrouped exclusive ors give the parities of the two neighbouring columns |
| KeccakCode.RotlIsRol | src/sph_types.h:939-939 | the two shifts of the macro together rotate a word to the left |
| KeccakCode.ThetaMacro | src/keccak.c:975-1014 | under any register names the macro computes theta, as a function and bit by bit |
| KeccakCode.RhoMacro | src/keccak.c:1016-1044 | under any register names the macro computes rho, as a function and bit by bit |
| KeccakCode.KhiRowMacro | src/keccak.c:1079-1090 | under any register names the five temporaries and assignments compute one row, and change no register of another |
| KeccakCode.NextRow | src/keccak.c:1070-1135 | rows that were computed before do not disturb the next one |
| KeccakCode.KhiMacro | src/keccak.c:1070-1135 | under any register names the macro, row after row in place, computes its mixture of and and or |
| KeccakCode.KhiIsChi | src/keccak.c:1046-1135 | on lanes complemented before chi it gives chi of the lanes, complemented as between rounds |
| KeccakCode.MaskAfterTheta | src/keccak.c:975-1014 | where theta moves the complemented lanes a04, a10, a20, a22, a23, a31 |
| KeccakCode.MaskAfterPi | src/keccak.c:1139-1186 | where pi moves the complemented lanes, which is what the chi macro expects |
| KeccakCode.MaskedRound | src/keccak.c:1046-1056 | one round on complemented lanes is one round of FIPS 202 complemented again, for every state and constant |
| KeccakCode.NextIsPi | src/keccak.c:1139-1186 | each name list is the previous one composed with pi |
| KeccakCode.ListsClose | src/keccak.c:1139-1186 | the 24 lists follow one another by pi and the first follows the last |
| KeccakCode.RenamingIsPi | src/keccak.c:1139-1186 | reading the registers under the next list is the pi step, without any move |
| KeccakCode.KfElt | src/keccak.c:1392-1397 | one element is one standard round, from one name list to the next |
| KeccakCode.GatheredFits | src/keccak.c:1313-1347 | the moves bring what stands under the ninth list under the first |
| KeccakCode.P8ToP0 | src/keccak.c:1313-1347 | the cycles through a temporary perform those moves in place |
| KeccakCode.UnrolledRounds | src/keccak.c:1454-1467 | successive elements advance the standard run by as many rounds |
| KeccakCode.KeccakF1600 | src/keccak.c:1454-1467 | the unrolled, renamed, complemented code computes the 24 rounds of Keccak-f of the lanes |
| KeccakSponge.InputOfComplemented | src/keccak.c:1568-1603 | adding a block to complemented registers adds it to the lanes |
| KeccakSponge.PadBits | src/keccak.c:1607-1648 | the padding is a 1, the fewest zeros and a 1 that fill a block |
| KeccakSponge.BlockBits | src/keccak.c:1568-1603 | which bit of which lane a bit of a block is added to |
| KeccakSponge.SqueezedBits | src/keccak.c:1643-1645 | which bit of which lane a bit of the digest is |
| KeccakSponge.TailPads | src/keccak.c:1607-1648 | the closing bytes are the remaining bits followed by pad10*1 of the whole message (FIPS 202, section 5.1) |
| KeccakSponge.Context.InputBuf | src/keccak.c:1568-1603 | the registers take in the first lim bytes of the buffer, and no others |
| KeccakSponge.Context.Core | src/keccak.c:1568-1603 | what the context holds grows by the data: feeding a, then b is feeding a + b |
| KeccakSponge.Context.Init | src/keccak.c:1525-1565 | the context holds the empty message, with the rate of its digest length |
| KeccakSponge.Context.Close | src/keccak.c:1607-1648 | the digest is that of the sponge on message and last bits, and the context begins anew |
| KeccakSponge.Hash | src/keccak.c:1525-1707 | for every message, every split in two and up to 7 more bits, the digest is the one of the sponge construction |
| Blake.Context.Count | src/blake.c:800-836 | the two-word counter grows by 512 modulo 2^64 |
| Blake.Context.Update | src/blake.c:800-836 | what the context holds grows by the data, whatever the calls before |
| Blake.Context.AdjustCounter | src/blake.c:838-889 | the next growth of the counter arrives at the bits of the message, or at 0 if the block has none, despite wrap-around |
| Blake.Context.Close | src/blake.c:838-889 | ends with the chain over the padded message that the BLAKE proposal defines, for both digest lengths |
| Blake.Hash | src/blake.c:790-889 | for every message, split and number of last bits, the state is the chain over message, 1, zeros, 1 or 0, and 64-bit length, with the counter of the bits so far |
| Blake.OneBlockMore | src/blake.c:838-889 | message and length end in one block |
| Blake.TwoBlocksMore | src/blake.c:838-889 | the length needs a block of its own, which is counted as 0 |
| Blake.ChainedIsAfter | src/blake.c:800-836 | the chain over the padded message agrees with streaming on whole blocks |
| Blake.LengthAndCounter | src/blake.c:838-862 | length field and counter of the last block, from the counter of the whole blocks |
| Blake.ValueOfBigEndian | src/blake.c:871-872 | the k bits written for n, the highest first, have the value n modulo 2^k |
| Blake.PaddedEnds | src/blake.c:838-889 | the padded message is the message, a 1, zeros, a 1 or 0 by the digest length, and 64 bits whose value is the length of the message modulo 2^64 |
| Blake.EncodedBytes | src/blake.c:886-888 | byte i of a word in the digest is the value of the word divided by 256^(3-i), modulo 256 |
| Blake.CounterParts | src/blake.c:846-862 | subtracting in advance and adding 512 gives the wanted counter in each of the three cases |
| VarInt.GetSizeOfVarInt | src/serialize.h:259-270 | the size is the number of bytes written, also for a negative number |
| VarInt.EncodeIsShort | src/serialize.h:272-276 | a number of a type of w bits has at most (w+6)/7 bytes, the length of the buffer |
| VarInt.WriteVarInt | src/serialize.h:272-287 | the loop stays inside the buffer, and with its reversal writes the encoding |
| VarInt.ReadVarInt | src/serialize.h:289-302 | the loop decodes into an unsigned type of any width and wraps as that does, and reports the end of the stream |
| VarInt.ReadVarSigned | src/serialize.h:289-302 | the loop decodes into a signed type of 32 bits |
| VarInt.EncodingStandsFor | src/serialize.h:237-258 | the encoding stands for its integer, whatever follows it, if and only if that is not negative |
| VarInt.RoundTrip | src/serialize.h:237-302 | an integer is read back by a reader of w bits, whatever follows it, if and only if it is at least 0 and below 2^w |
| VarInt.DecodedIsEncoded | src/serialize.h:237-258 | whatever bytes stand for is written as those bytes: every integer has one encoding |
| VarInt.EncodingIsUnique | src/serialize.h:237-302 | what a reader of w bits reads is written as the bytes it was read from if and only if they stand for a number below 2^w |
| VarInt.WrappedStream | src/serialize.h:289-302 | five bytes that a reader of 32 bits takes for 0, which is written as one byte |
| Vectors.VarIntExamples | src/serialize.h:252-256 | the bytes of the integers in the comment, which are right but for 16511 and 65535 |
| Vectors.LongVarInt | src/serialize.h:257-257 | and of 2^32 |
| Amount.MantissaAndExponent | src/core.cpp:130-138 | the exponent takes out all trailing zeros, up to 9 |
| Amount.CompressAmount | src/core.cpp:140-157 | the loop computes the code modulo 2^64; it is the code itself if and only if the amount has a trailing zero or is at most 2049638230412172402, as amounts of money are |
| Amount.DecompressAmount | src/core.cpp:159-183 | the loop computes the amount modulo 2^64, and the amount itself when it has 64 bits |
| Amount.DecompressCompress | src/core.cpp:140-183 | every amount is recovered from its code |
| Amount.CompressDecompress | src/core.cpp:140-183 | every number is the code of an amount |
| Amount.RecoveredIn64Bits | src/core.cpp:140-183 | computed in 64 bits, an amount is recovered if and only if it has a trailing zero or is at most 2049638230412172402, and that is when its code fits; every amount of money meets this |
| Amount.LargestIsLost | src/core.cpp:140-183 | the largest number of 64 bits is not recovered |
| Vectors.AmountPairs | src/test/compress_tests.cpp:40-45 | the codes of six amounts |
| TxOuts.ShortForm | src/script.cpp:1855-1938 | a short form starts with its kind, has the length of that kind and gives the script back |
| Vectors.ScriptForms | src/script.cpp:1819-1884 | the bytes written for each kind of script: 0 or 1 and the hash, the compressed key, 4 or 5 and the first coordinate by the parity of the second, or the length and 6 before the script |
| TxOuts.ScriptRoundTrip | src/script.h:606-666 | a script is read back, with a short form or without, whatever follows, if and only if its length and 6 more fit 32 bits |
| TxOuts.UncountableIsLost | src/script.h:606-666 | a longer script is not read back, since its length wraps |
| TxOuts.TxOutRoundTrip | src/core.h:304-327 | an output of any 64-bit value is read back if and only if its amount is recovered from the code, as every amount of money is, and the length of its script fits |
| CoinsFormat.CompressorIsInverse | src/core.h:304-327 | the output compressor meets what the coins format needs of one |
| CoinsFormat.MaskIsRead | src/core.h:551-560 | reading stops exactly at the end of the mask, from every byte on and with zero bytes inside |
| CoinsFormat.BeyondMask | src/core.cpp:185-204 | no output beyond the mask is available |
| CoinsFormat.ReadWrite | src/core.h:513-572 | reading what was written gives the coins without trailing spent outputs, whatever follows |
| CoinsFormat.SurvivesExactly | src/core.h:490-572 | the coins themselves come back if and only if null outputs are in their null form, the last output is unspent, and version and height are not negative |
| CoinsFormat.NegativeVersionIsLost | src/core.h:513-572 | coins of version -1 are read back with version 127 |
| Vectors.FirstExample | src/core.h:402-415 | the bytes of the first commented example, for any address |
| Vectors.SecondExample | src/core.h:417-434 | and of the second, with outputs 4 and 16 of a coinbase |
| CoinsCode.CCoins.Cleanup | src/core.h:459-464 | drops exactly the null outputs at the end |
| CoinsCode.CCoins.CalcMaskSize | src/core.cpp:188-204 | length of the mask without trailing zero bytes, and number of its other bytes |
| CoinsCode.CCoins.Spend | src/core.cpp:206-220 | succeeds if and only if the output is available, else changes nothing; records height, version and kind when the last output goes |
| CoinsCode.CCoins.Restore | src/main.cpp:2002-2024 | puts an output back as the record says, and tells whether anything was implausible |
| CoinsCode.CCoins.Serialize | src/core.h:513-540 | emits the format |
| CoinsCode.CCoins.GetSerializeSize | src/core.h:490-511 | equals the length of what Serialize emits |
| CoinsCode.CCoins.Unserialize | src/core.h:542-572 | reads the format into any coins, with the wrap-around of its 32-bit numbers, and fails exactly where the stream ends too early |
| CoinsCode.CCoins.UnserializeMask | src/core.h:551-560 | the loop over mask bytes and bits collects the availabilities |
| Spending.SpendConserves | src/core.cpp:206-220 | remaining value plus recorded value is the value before |
| Spending.SpendTakesOne | src/core.cpp:206-220 | exactly the spent output becomes unavailable; the others are unchanged |
| Spending.SpendableExactly | src/core.cpp:206-220 | a run of spends succeeds if and only if its outputs are available at first and all different |
| Spending.RunConserves | src/core.cpp:206-220 | over a run, remaining plus recorded values are the value before; when everything is spent the records hold all of it |
| Spending.UndoExactly | src/main.cpp:2002-2024 | the record brings back the coins, with height, version and kind, if and only if another output was available or the height is not 0 |
| Spending.LastAtHeightZero | src/main.cpp:2002-2024 | for the only output of coins at height 0 the record brings back neither version nor kind, and the program reports a missing transaction |
| Spending.RunIsUndone | src/main.cpp:1999-2026 | undoing the records of a run in reverse order leads back to where it began if and only if some output was not spent in it or the height is not 0 |
| Spending.UndoRoundTrip | src/core.h:353-370 | a record survives its format if and only if its height is below 2^31 and its version is not negative, and is 0 when the height is |
| Spending.UndoAtLimit | src/core.h:353-370 | at height 2^31 the written code is that of height 0, and the version is read as the output |
| Spending.StoredUndoExactly | src/main.cpp:1999-2026 | spending, writing the record, reading it back and restoring gives the coins if and only if another output was available, or the height is positive and the version not negative |
| Merkle.Block.BuildMerkleTree | src/core.cpp:233-250 | the flat array holds all levels, and the result is the recursively defined root, or zero for no transactions |
| Merkle.Block.GetMerkleBranch | src/core.cpp:252-266 | collects the nodes beside the way up from the cached tree, whatever transactions that belongs to, building it first if it is empty; for the tree of the current transactions they are the branch of the leaf |
| Merkle.CheckMerkleBranch | src/core.cpp:268-281 | folds the branch onto the hash, from the side that the index says; zero for index -1 |
| Merkle.InTree | src/core.cpp:233-250 | every node stands at the offset of its level in the flat array |
| Merkle.BranchInTree | src/core.cpp:252-266 | in the flat array of all levels the nodes collected are the branch of the recursively defined tree |
| Merkle.BranchLeadsUp | src/core.cpp:252-281 | from every node of every level the rest of the branch leads to the root |
| Merkle.LeafChecks | src/core.cpp:233-281 | every leaf checks to the root with its own branch at its own index, and at every index that leads to it because a last node is taken twice |
| Vectors.SmallRoots | src/core.cpp:233-250 | the roots over one, two and three leaves, the third hashed with itself |
| Vectors.SmallFold | src/core.cpp:268-281 | the four ways up with a branch of two nodes, by the bits of the index |
| Merkle.MeetingWays | src/core.cpp:268-281 | two values and branches of one length that fold to the same hash but differ give a level at which different pairs hash alike |
| Merkle.OnlyLeafChecks | src/core.cpp:268-281 | for every hash and every index, beyond the leaves too: a value and a branch of the depth of the tree that check are the leaf the index leads to and its branch, or some level shows a pair other than the two children in the tree with the same hash |
| Radix.ConvertBack | src/base58.h:30-122 | leading zeros and value survive conversion between any two bases |
| BigNumBytes.BytesGiveBack | src/bignum.h:240-265 | every number, with its sign, is given back by its bytes |
| BigNumBytes.ShortestBytes | src/bignum.h:240-265 | bytes are those of their number if and only if they are the shortest ones for it |
| BigNumBytes.SetInt64 | src/bignum.h:125-167 | for every 64-bit number, the smallest included, the bytes handed to the library stand for it and are the shortest |
| BigNumBytes.BytesOfWord | src/bignum.h:169-191 | the loop over a 64-bit word gives its base-256 digits without leading zeros, with the sign placed |
| Base58.AlphabetIsChars | src/base58.h:27-27 | the alphabet holds, digit by digit, the characters that stand for the digits |
| Base58.EncodeBase58 | src/base58.h:30-68 | division, reversal and leading ones give the base-58 text of the bytes |
| Base58.DecodeBase58 | src/base58.h:78-122 | returns the decoded bytes, or fails, as the grammar of spaces and digits says |
| Base58.TrimSign | src/base58.h:106-112 | dropping the last byte when it only keeps the sign clear leaves exactly the digits |
| Base58.DecodeEncode | src/base58.h:30-122 | every byte string comes back from its text, with spaces around it |
| Base58.EncodeDecode | src/base58.h:30-122 | what decodes is, between the spaces, the text of what it decodes to |
| Base58.AlphabetIsExact | src/base58.h:30-122 | every string over the alphabet decodes and is the text of what it decodes to |
| Base58.AcceptedExactly | src/base58.h:78-122 | a string is accepted if and only if, up to a NUL, it is spaces, digits, spaces |
| Base58.EncodedLength | src/base58.h:44-48 | the reserved space of size*138/100 + 1 is always enough |
| Base58Data.EncodeBase58Check | src/base58.h:135-142 | the text of bytes and checksum |
| Base58Data.DecodeBase58Check | src/base58.h:146-165 | succeeds only with a right checksum, and otherwise returns nothing |
| Base58Data.DecodeEncodeCheck | src/base58.h:134-165 | every byte string comes back from its checked text, with spaces around it |
| Base58Data.EncodeDecodeCheck | src/base58.h:134-165 | what passes the check is the checked text of what it decodes to |
| Base58Data.Data.SetData | src/base58.h:193-199 | the data, and the version cut to a byte |
| Base58Data.Data.SetString | src/base58.h:207-223 | splits version and data; a failure clears both |
| Base58Data.Data.ToString | src/base58.h:230-235 | shows version and data |
| Base58Data.ShownIsSet | src/base58.h:207-235 | data shown and set again, with spaces around, are the same |
| Base58Data.SetIsShown | src/base58.h:207-235 | data set from a string are shown as that string without its spaces |
| Base58Data.ShownBytes | src/base58.h:230-235 | the bytes behind a shown string are the version, the data and the checksum of both |
| Vectors.OneByte | src/test/data/base58_encode_decode.json:3-3 | 61 is shown as 2g |
| Vectors.ThreeBytes | src/test/data/base58_encode_decode.json:4-4 | 626262 is shown as a3gV |
| Vectors.FourBytes | src/test/data/base58_encode_decode.json:10-10 | 572e4794 is shown as 3EFU7m |
| Vectors.ZeroBytes | src/test/data/base58_encode_decode.json:13-13 | zero bytes are shown as as many ones |
| Vectors.Blanks | src/base58.h:85-100 | the characters that may stand around the digits are the six of isspace |
| Compact.BigNum.SetCompact | src/bignum.h:289-307 | for every 32-bit word, the number of its mantissa, exponent and sign; zero has no sign |
| Compact.BigNum.GetCompact | src/bignum.h:309-330 | the word made of exponent, mantissa and sign, with the renormalisation that keeps the sign bit clear |
| Compact.ExponentBounds | src/bignum.h:309-330 | a number lies between the two half powers that belong to its exponent |
| Compact.CompactRounds | src/bignum.h:289-330 | decoding an encoded number rounds towards zero by less than one part in 2^15, keeps the sign, and encodes to the same word |
| Compact.CompactIsMonotone | src/bignum.h:309-330 | larger numbers have words that are not smaller |
| Compact.RecoveredExactly | src/bignum.h:289-330 | the word of a number stands for the rounded number if and only if the exponent fits a byte |
| Compact.TargetsFit | src/bignum.h:267-288 | every target of 256 bits meets that condition |
| Vectors.CompactWords | src/test/bignum_tests.cpp:128-176 | the numbers that nine words stand for |
| Vectors.CompactNumbers | src/test/bignum_tests.cpp:128-176 | the words of nine numbers |
| KeyStore.CryptoKeyStore.SetCrypted | src/keystore.cpp:54-63 | switches unless plain keys are present |
| KeyStore.CryptoKeyStore.Lock | src/keystore.cpp:65-77 | forgets the master key, or fails and changes nothing |
| KeyStore.CryptoKeyStore.Unlock | src/keystore.cpp:79-106 | succeeds on an encrypted store if and only if the secret at the least address decrypts to 32 bytes whose public key, with that entry's compression, is the stored one, or there is no entry; a wrong master key leaves the old one as it was |
| KeyStore.OpensExactly | src/keystore.cpp:86-100 | the test of a master key is that of the entry with the least address, told by the cipher and the curve |
| KeyStore.CryptoKeyStore.AddKeyPubKey | src/keystore.cpp:108-127 | stores plain or encrypted, or fails and changes nothing |
| KeyStore.CryptoKeyStore.AddKey | src/keystore.cpp:108-140 | the key is found from then on under its address, no other answer changes, and the invariant is kept |
| KeyStore.CryptoKeyStore.AddCryptedKey | src/keystore.cpp:130-140 | stores an encrypted key unless plain keys are present |
| KeyStore.CryptoKeyStore.GetKey | src/keystore.cpp:142-164 | the key of an address, decrypted and checked in an encrypted store |
| KeyStore.CryptoKeyStore.HaveKey | src/keystore.h:138-147 | true exactly for the addresses of the store |
| KeyStore.CryptoKeyStore.GetPubKey | src/keystore.cpp:166-181 | the public key of an address, also while locked |
| KeyStore.CryptoKeyStore.GetKeys | src/keystore.h:150-165 | exactly the addresses of the store |
| KeyStore.CryptoKeyStore.EncryptKeys | src/keystore.cpp:183-205 | refuses when encrypted already; otherwise encrypts all keys and drops the plain ones, or stops at the first that fails with those before it encrypted |
| KeyStore.EncryptionKeepsInvariant | src/keystore.h:103-105 | encryption succeeds, and the stated invariant holds after it, if and only if every key of the store encrypts under the master key; after a failure the plain keys are still there and no address gives a key |
| KeyStore.ShortMasterKey | src/keystore.cpp:183-205 | a master key that is not of 32 bytes breaks the invariant of every store that has a key |
| KeyStore.InvariantBreaks | src/keystore.cpp:183-205 | a store of one key and an empty master key, after which the invariant does not hold |
| KeyStore.RightKeyOpens | src/keystore.cpp:79-106 | the master key that encrypted the keys opens the store |
| KeyStore.UnlocksExactly | src/keystore.cpp:79-106 | a store encrypted under one master key is opened by exactly those that take its first secret, as encrypted, to 32 bytes with the same public key |
| KeyStore.EntriesExactly | src/keystore.cpp:183-205 | what is stored for a key: its public key, and its secret under the master key and the initial vector of the public key |
| KeyStore.GivesExactly | src/keystore.cpp:142-164 | when exactly a store gives a key for an address |
| KeyStore.SameKey | src/keystore.cpp:142-205 | under that master key every address gives the key it gave before encryption |
| KeyStore.SameKeysExactly | src/keystore.cpp:142-205 | all addresses keep their keys if and only if each key is one of 32 bytes under the address of its own public key |
| KeyStore.SameIds | src/keystore.h:138-165 | the same addresses are known as before, locked or not |
| KeyStore.LockedGivesNothing | src/keystore.cpp:142-164 | a locked store gives no key |
| KeyStore.EncryptLockUnlock | src/keystore.cpp:65-205 | encrypting, locking and unlocking succeeds if and only if every key encrypts, and then answers every query as before, with no plain key left |
| KeyStore.EncryptLockTry | src/keystore.cpp:65-205 | encrypted under one master key, locked and tried with another, a store opens exactly for those keys, and otherwise stays locked |
| LockedPages.LockedPageManager.LockRange | src/allocators.h:57-77 | the counters are those of the outstanding ranges and the new one, and a page is locked if and only if its counter is positive |
| LockedPages.LockedPageManager.UnlockRange | src/allocators.h:80-100 | releasing any outstanding range leaves exactly the counters and locks of the others; the assert never fails |
| LockedPages.LockedPageManager.GetLockedPageCount | src/allocators.h:103-107 | the number of locked pages |
| LockedPages.CountedExactly | src/allocators.h:57-77 | a counter is positive if and only if an outstanding range has a byte on the page |
| LockedPages.TouchedPages | src/allocators.h:61-64 | the pages with a byte of the range are those from first to last masked address |
| LockedPages.MaskKeepsPages | src/allocators.h:49-55 | the mask ~(page_size - 1), bit by bit, takes every 64-bit address to its page |
| LockedPages.AssertedExactly | src/allocators.h:53-53 | the assert page_size & (page_size - 1) == 0 holds of a positive size exactly for powers of two |
| LockedPages.PageSizesExactly | src/allocators.h:49-55 | the page sizes the constructor lets pass are the powers of two below 2^64 |
| LockedPages.NotIsComplement | src/allocators.h:52-52 | ~ flips every bit |
| LockedPages.CountWithout | src/allocators.h:80-100 | one range less lowers the counters of its own pages by one, and no others |
| LockedPages.SweepEndsExactly | src/allocators.h:64-76 | the sweep passes the last page if and only if the address after it does not wrap |
| Bloom.BloomFilter.InsertKey | src/bloom.cpp:38-48 | the bits after all hash functions, or unchanged for the single full byte |
| Bloom.BloomFilter.ContainsKey | src/bloom.cpp:64-76 | true if and only if all bits of the key are set, or the filter is the single full byte |
| Bloom.BloomFilter.UpdateFromOutputs | src/bloom.cpp:97-132 | true exactly if an output matches the filter as it has grown so far; the matched ones are inserted as the flags say |
| Bloom.BloomFilter.IsRelevantAndUpdate | src/bloom.cpp:97-160 | true exactly for a relevant transaction, and inputs insert nothing |
| Bloom.InsertExactly | src/bloom.cpp:38-76 | an inserted key is contained, no bit is lost, and no bit but its own is set |
| Bloom.ContainsExactly | src/bloom.cpp:32-36 | the bits looked at for a key are those of the hash with seeds 0xFBA4C795 apart, modulo 2^32, and modulo the size |
| Bloom.OutputUpdates | src/bloom.cpp:112-131 | what becomes of the bits when an output is looked at, for each of the four update modes: inserted under mode 1, and under mode 2 for outputs that pay to keys, and untouched otherwise |
| Bloom.RunGrows | src/bloom.cpp:38-160 | over any run bits only grow |
| Bloom.InsertedIsContained | src/bloom.cpp:38-76 | a key inserted at any point of a run is contained at its end |
| Bloom.NamingIsRelevant | src/bloom.cpp:97-160 | a transaction that is what has been inserted, pays to it or is signed with it is relevant from then on |
| Bloom.SpendingIsRelevant | src/bloom.cpp:97-160 | once an output has matched under BLOOM_UPDATE_ALL, or under BLOOM_UPDATE_P2PUBKEY_ONLY if it pays to keys, every later transaction that spends it is relevant |

## Left out

- AddrStore.Load: reads what was written with 256 new buckets and the same key; files with another number of buckets, and arbitrary file contents, are not modelled.
- AddrMan.AddrMan.Attempt: the attempt counter and the id counter are unbounded integers, and times have no width except where the code cuts them to 32 bits.
- `Select_` and `GetChance`: random selection with floating-point weights, which ends with probability one only.
- The clock is one value per call; locks around the public methods of the address manager are not modelled.
- CheckQueueRuns.WaitTerminates: `fQuit`, which nothing sets, and the end of worker threads are not modelled; fairness between threads is, as the steps of threads that can move.
- Keccak: the 32-bit variants, and the unrollings by other than 8 rounds, of which only the name lists and the single round are shown.
- BLAKE: the compression function itself, salt, and the 64-bit variant, whose streaming is the same with wider words.
- CoinsCode.CCoins.Serialize: takes fewer than 2^32 - 16 outputs, so that the counts of outputs and mask bytes in 32 bits do not wrap; longer vectors do not fit a block.
- CoinsFormat.SurvivesExactly: the same bound on the number of outputs, as in `CoinsFormat.ReadWrite`.
- TxOuts.ScriptRoundTrip: covers data that the writer produced; decompression of foreign short forms is part of the format, but nothing is proved about points that are not on the curve.
- Spending.UndoExactly: the coins view and the checks of DisconnectBlock around the restoring of inputs are not modelled.
- Merkle.Block.GetMerkleBranch: a cached tree has all levels for the number of transactions, since the original reads beyond the end of a shorter one; so it does for a negative index with two transactions or more.
- Merkle.CheckMerkleBranch: an index below -1 is folded by flooring division, as the right shift of the usual compilers does.
- Base58.EncodeBase58: allocation failures of the big-number library are not modelled; `setuint256` and `getuint256` are not either.
- KeyStore.CryptoKeyStore.EncryptKeys: locks, the signal of a change of status, and the wallet's override of `AddCryptedKey`, which also writes to its database and may fail, are not modelled.
- KeyStore.EncryptLockUnlock: the cipher is an exact inverse for 32-byte secrets, so a wrong master key is one under which the first key does not decrypt to its own public key.
- LockedPages.LockedPageManager.LockRange: ranges whose end is beyond the address space, which no allocated memory has, and ranges after whose last page the sweep would not end (`LockedPages.SweepEndsExactly`) are excluded, and so is a page size of 0, which the assert lets pass; failures of the operating system to lock a page are not modelled.
- Bloom.BloomFilter.IsRelevantAndUpdate: a script is the list of its data pushes and whether it is one of the kinds of BLOOM_UPDATE_P2PUBKEY_ONLY; the size formulas of the constructor and an empty filter with hash functions are not modelled.
- `CPartialMerkleTree`, `CCoinsViewCache`, `CTxMemPool`, `mruset`, `limitedmap`, alerts, RPC, databases and the other hash functions of the chain: not modelled.

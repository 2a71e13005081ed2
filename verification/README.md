# uid-generator: a Dafny model

A Dafny 4.11 model of the TypeScript uid-generator: a snowflake-style generator of signed 64-bit ids (sign, delta
seconds, worker id, sequence), with a default variant that reads the clock for every id and a cached variant that
borrows whole future seconds into a ring buffer. `dafny verify dfyconfig.toml` verifies the project.

The project has two layers. Value modules say what the objects mean and carry the theorems about whole runs; class
modules follow the source's methods, arrays and loops and are proved to compute exactly those values.

| file | what it models |
|---|---|
| `JavaLong.dfy` | Java `long` arithmetic on unbounded integers: two's complement and/or, masked shift distances, wrapping, `bitCount`, the 32-bit shift |
| `BitsAllocator.dfy` | the bit layout for symbolic widths, `allocate`, and the decoding shifts of `parseUID` |
| `RingModel.dfy` | the ring as an append-only log, a cursor and the set of unread sequences |
| `TakeProtocol.dfy` | nested takes and puts as the steps claim, finish, put and the slot read of an empty take |
| `PaddingModel.dfy` | a padding pass and the take that triggers it; runs of operations |
| `CacheRuns.dfy` | all interleavings of takes, padding passes and a shutdown: order, loss, starvation, capacity |
| `ClosedForm.dfy` | the seconds a run spends, and the closed form of a run of takes |
| `Slots.dfy`, `Buffers.dfy` | `RingBuffer`, `ExecutorService`, `BufferPaddingExecutor` as classes over slot and flag arrays |
| `DefaultModel.dfy`, `DefaultRuns.dfy` | the default generator against an arbitrary sequence of clock readings |
| `CachedModel.dfy` | the batch of a second, and the UIDs the cached generator returns over whole runs |
| `Generators.dfy` | `DefaultUidGenerator` and `CachedUidGenerator` as classes |
| `Worker.dfy`, `Cluster.dfy` | worker ids from the node table; launches, crashes and relaunches of a cluster |
| `JavaDate.dfy` | the date pattern printer and parser on field records |
| `Sequences.dfy`, `Wrappers.dfy` | orders and repetitions in sequences; optional values |

The central invariant of the ring is that every unread sequence lies in the last `bufferSize` positions of the log, and
that each accepted sequence is either unread or was returned exactly once. A take advances the cursor before it reads
the slot, and the padding pass it may trigger runs in between, on the same stack; `Claim`, `TriggerPadding` and
`FinishTake` of `Buffers.RingBuffer` are those three parts of the source's `take`.

The clock of the default generator is a sequence of readings with a position. A call that still waits when the readings
end has the outcome `NoReading`; every call that returns consumes finitely many readings, so nothing is lost by this.
The handler of rejected puts only logs, as the default does. The handler of rejected takes may offer UIDs of its own to
the ring and then throws (the default does at once) or returns. An executor in the model pads the ring it is attached
to. A provider of batches is a function; the batch loop of the cached generator is proved to compute the function its
executor is given. Handlers and providers that call back into the ring are the subject of `TakeProtocol.dfy`.

## Where a documented property does not hold

- The project's README says the highest bit is always 0. `BitsAllocation.AllocateSign` gives the exact condition, and
  `SignBitReached` the first delta that breaks it. The default generator refuses such deltas, so that its ids are
  non-negative exactly from the epoch on (`DefaultRuns.NonNegativeFromTheEpoch`); the cached generator has no check, and
  `CachedModel.ReturnedUidsSigns` and `FirstUidNegative` say which of its ids are negative.
- The default generator refuses a clock that moves back, so its ids should only rise. When an exhaustion error leaves
  the spin loop, the sequence is already reset but the last second is not; when a later call reads the old second again,
  it issues old sequences. `DefaultModel.RisesUnlessReplayed` and `DefaultRuns.UidsIncrease` state the exact condition,
  `DefaultRuns.DistinctUnlessReplayed` shows that a replay always repeats an id, and
  `DefaultRuns.ReplayDuplicates` is such a run. Far enough before the epoch the delta wraps:
  `DefaultRuns.EarlyClockDecreases` is a run with a smaller later id under a clock that only moves on.
- A take from an empty ring is documented as always rejected. `CacheRuns.EmptyTake` gives the exact exceptions, all with
  a handler that returns: a UID that a refused padding task had left unread comes back once a fresh executor is attached
  (`AbandonedComesBack`, `AbandonedReached`), and a ring that was never filled returns the last UID of the lap that its
  refill or its handler has just put (`NewRingReturnsLast`).
- A take is documented to return the UID it claims. An empty take whose handler returns reads the cursor's slot although
  it has claimed nothing; `TakeProtocol.HonestExactlyWithoutSteals` shows that every claim is honoured exactly when no
  such read finds its slot unread, and `TakeProtocol.InnerTakeSteals` is a run in which one does.
- A padding factor whose threshold rounds down to 0 never triggers padding: `CacheRuns.StarvesExactlyBelowOne`.

## Model

| member | source | states |
|---|---|---|
| JavaLong.OrDisjoint | src/deps/java/long.ts:53-55 | OR of two fields that do not overlap is their sum, for every field boundary and also for a negative upper field |
| JavaLong.OrBits | src/deps/java/long.ts:53-55 | every bit of an OR is the OR of the two bits, for negative numbers too |
| JavaLong.AndBits | src/deps/java/long.ts:58-60 | every bit of an AND is the AND of the two bits, for negative numbers too |
| JavaLong.LongOperators | src/deps/java/long.ts:48-70 | NOT, sum and difference fit 64 bits and are exact up to whole words |
| JavaLong.AndMask | src/deps/java/long.ts:58-60 | AND with a mask of k ones is the remainder modulo 2^k, also for negative numbers |
| JavaLong.MiddleField | src/deps/java/long.ts:33-45 | shifting left and then logically right cuts the field of a given width and position out of a 64-bit number |
| JavaLong.BitCount | src/deps/java/long.ts:73-81 | the shifting loop computes the population count of the low 32 bits |
| JavaLong.PopCountOne | src/buffer/ring-buffer.ts:94 | a population count of one singles out exactly the powers of two |
| JavaLong.ShiftedPowerOfTwo | src/impl/cached-uid-generator.ts:116 | the 32-bit shift of a batch size multiplies by 2^(boostPower mod 32) as long as the exponents add up to at most 30, and is not positive beyond |
| BitsAllocation.CreateMasks | src/bits-allocator.ts:61-79 | exactly the widths adding up to 63 are accepted, negative ones included, and each mask has as many ones as its width modulo 64 says |
| BitsAllocation.CreateLegal | src/bits-allocator.ts:61-79 | for widths that are not negative the constructor's masks and shifts are the largest values and positions of its fields exactly when the worker and sequence fields are not empty |
| BitsAllocation.AllocateIsPositional | src/bits-allocator.ts:89-94 | a UID is the 64-bit truncation of the three fields written in positional notation |
| BitsAllocation.AllocateSign | src/bits-allocator.ts:82-94 | the highest bit is 0 if and only if the delta modulo its span is at most `maxDeltaSeconds` |
| BitsAllocation.SignBitReached | src/bits-allocator.ts:82-94 | in every layout, the first delta beyond its field gives a negative UID for every worker and sequence |
| BitsAllocation.DecodeAllocate | src/impl/default-uid-generator.ts:112-122 | decoding gives worker id and sequence back, and the delta modulo 2^(timeBits+1): the delta itself exactly when it is in that range |
| BitsAllocation.AllocateDecode | src/impl/default-uid-generator.ts:112-122 | re-encoding the decoded fields of any number gives its low 64 bits, so encoding and decoding are a bijection on signed 64-bit numbers |
| BitsAllocation.AllocateOrder | src/bits-allocator.ts:89-94 | for one worker and any deltas, UIDs are ordered exactly as (wrapped delta, sequence) is lexicographically, and a delta is not wrapped exactly when it fits the field with its sign |
| BitsAllocation.AllocateInjective | src/bits-allocator.ts:89-94 | equal UIDs have equal worker ids, sequences and deltas modulo the span |
| BitsAllocation.AllocateWrappedDelta | src/impl/default-uid-generator.ts:167-171 | the 64-bit subtraction of the epoch before `allocate` never changes the UID |
| BitsAllocation.AllocateOffset | src/impl/cached-uid-generator.ts:99-106 | adding an offset to the first UID of a second equals allocating that sequence, without carry or wrap, whatever the delta |
| BitsAllocation.RecoversExactly | src/impl/default-uid-generator.ts:112-122 | over all widths that are not negative, decoding recovers every triple of fields if and only if the worker and the sequence field are not empty |
| TakeProtocol.HonestExactlyWithoutSteals | src/buffer/ring-buffer.ts:150-188 | every finish, in every continuation of every part of a run of nested takes and puts, returns its own claim if and only if no empty take of the run reads a slot that is still unread |
| TakeProtocol.InnerTakeSteals | src/buffer/ring-buffer.ts:171-183 | for every size, a run in which an empty take returns the UID an unfinished take has claimed, whose finish then throws |
| TakeProtocol.NothingReturnedTwice | src/buffer/ring-buffer.ts:113-188 | in every run, such reads included, each accepted UID is returned at most once and no accepted put writes a slot not yet returned |
| TakeProtocol.EveryFinishReturnsItsClaim | src/buffer/ring-buffer.ts:150-188 | after a run without such reads, finishing an outstanding take of sequence q returns exactly the q-th accepted UID, never returned before |
| TakeProtocol.PutsSpareUnreadSlots | src/buffer/ring-buffer.ts:113-139 | after such a run no accepted put writes the slot of a claimed or a waiting sequence |
| RingModel.FlagCheckIsExact | src/buffer/ring-buffer.ts:124-129 | behind the distance guard, the flag is clear if and only if the put overwrites no unread slot |
| TakeProtocol.ClaimedSlotIsAtRisk | src/buffer/ring-buffer.ts:117-129 | a run in which the distance guard alone would let a claimed slot be overwritten |
| RingModel.Capacity | src/buffer/ring-buffer.ts:117-122 | never more unread UIDs than slots, and at most one less waiting once the first take has happened |
| Slots.PutRepresents | src/buffer/ring-buffer.ts:131-136 | writing slot and flag at the next index keeps the arrays a representation of the longer log |
| Slots.FinishRepresents | src/buffer/ring-buffer.ts:176-183 | clearing the flag of a read slot removes exactly the sequence that lived there |
| Buffers.RingBuffer.Create | src/buffer/ring-buffer.ts:91-103 | the constructor succeeds exactly for the powers of two below 2^32 and factors between 0 and 100, and yields an empty valid ring whose threshold is the whole part of that percentage and whose take handler throws; otherwise the first failing check is reported, and longer sizes by the flag array |
| Buffers.RingBuffer.InitFlags | src/buffer/ring-buffer.ts:215-222 | the loop yields a fresh array of clear flags |
| Buffers.RingBuffer.CalSlotIndex | src/buffer/ring-buffer.ts:193-195 | the mask computes the Euclidean remainder, also for the start point -1 |
| Buffers.RingBuffer.Put | src/buffer/ring-buffer.ts:113-139 | on the arrays: appends to the log and answers true, or changes nothing and answers false, as the ring's meaning demands |
| Buffers.RingBuffer.Claim | src/buffer/ring-buffer.ts:152-153 | the cursor update claims the next sequence, or nothing on an empty ring |
| Buffers.RingBuffer.ReadSlot | src/buffer/ring-buffer.ts:176-187 | returns the UID living in the slot and frees it, or reports that the slot cannot be taken |
| Buffers.RingBuffer.HandleRejectedTake | src/buffer/ring-buffer.ts:171-174 | the puts of a take handler leave the ring of all its accepted UIDs, also past a rejected one |
| Buffers.RingBuffer.Take | src/buffer/ring-buffer.ts:150-188 | claim, inline refill, handler and slot read together give the result and the state of a take, for every state of ring and executor; without an executor a throwing handler rejects every empty take |
| Buffers.ExecutorService.Submit | src/deps/java/executors.ts:61-97 | after a shutdown nothing is accepted; otherwise submission n runs under worker n modulo the pool size |
| Buffers.BufferPaddingExecutor.OfferBatch | src/buffer/buffer-padding-executor.ts:148-153 | the inner loop puts the batch in order up to the first rejection |
| Buffers.BufferPaddingExecutor.PaddingBuffer | src/buffer/buffer-padding-executor.ts:135-159 | terminates for non-empty batches with the ring and last second of a padding pass; does nothing while one is running |
| Buffers.BufferPaddingExecutor.AsyncPadding | src/buffer/buffer-padding-executor.ts:126-130 | pads inline, or changes nothing when the pool was shut down |
| PaddingModel.PadExtends | src/buffer/buffer-padding-executor.ts:144-154 | a pass only appends to the log and ends where the next put is rejected |
| PaddingModel.PadStream | src/buffer/buffer-padding-executor.ts:144-157 | a pass appends the first n UIDs of the stream of later seconds and advances the last second by n divided by the batch size, plus one |
| PaddingModel.PadFills | src/buffer/buffer-padding-executor.ts:144-154 | with nothing abandoned a pass accepts exactly the free room |
| PaddingModel.TakeBorrows | src/buffer/ring-buffer.ts:158-168 | a take advances the borrowed second if and only if fewer than the threshold are left after its claim, the pool accepts and no pass is running |
| PaddingModel.ThrowingHandlerRejects | src/buffer/ring-buffer.ts:171-174 | with a throwing handler an empty take is rejected and returns nothing, unless the pool refuses first |
| CacheRuns.TakeCases | src/buffer/ring-buffer.ts:150-188 | in every reachable state a take returns the next accepted UID unless the ring was empty or the pool refused; neither the refill in the middle nor the handler disturbs the claimed slot |
| CacheRuns.IssuedInOrder | src/buffer/ring-buffer.ts:150-188 | over any interleaving, UIDs leave in the order they were accepted and each at most once |
| CacheRuns.NothingLost | src/buffer/ring-buffer.ts:150-188 | without a shutdown the sequences returned are exactly 0 up to the cursor |
| CacheRuns.RefusedTakeLosesOne | src/deps/java/executors.ts:61-64 | after a shutdown a take below the threshold throws with the cursor moved; no later operation with the same executor returns its UID or passes its slot |
| CacheRuns.NoStarvation | src/buffer/ring-buffer.ts:158-174 | with an executor and a threshold of at least 1, every take in every interleaving succeeds and at least one UID waits between calls |
| CacheRuns.StarvesExactlyBelowOne | src/buffer/ring-buffer.ts:158-174 | takes alone never fail if and only if an executor is attached and the threshold is at least 1 |
| CacheRuns.EmptyTake | src/buffer/ring-buffer.ts:171-187 | a take on an empty ring yields a UID if and only if the handler returns, no task is refused, and the cursor's slot is unread or a ring that was never filled has just been filled; and which UID |
| CacheRuns.AbandonedComesBack | src/buffer/ring-buffer.ts:158-187 | the last waiting UID, abandoned by a refused take, is returned by the next take once a fresh executor is attached |
| CacheRuns.AbandonedReached | src/buffer/ring-buffer.ts:158-174 | a take and a shutdown of a ring of two slots lead to the state in which that happens |
| CacheRuns.NewRingReturnsLast | src/buffer/ring-buffer.ts:171-187 | a take from a new ring returns the last UID of the lap the refill or the handler puts |
| CacheRuns.PutFailsOnlyAtCapacity | src/buffer/ring-buffer.ts:113-139 | over any run the flag check never fires, and a put fails exactly when the ring holds its capacity |
| ClosedForm.RunAccounted | src/buffer/buffer-padding-executor.ts:144-157 | conservation: while only padding puts, the log is an increasing sub-stream of the seconds spent, and spent minus accepted UIDs lies between one and one batch per pass |
| ClosedForm.StaysUndiluted | src/buffer/ring-buffer.ts:171-174 | only padding puts when the handler offers nothing, or with a positive threshold and no shutdown |
| ClosedForm.PassCost | src/buffer/buffer-padding-executor.ts:144-157 | the exact UIDs and seconds of one pass, from the free room |
| ClosedForm.TakesInClosedForm | src/buffer/ring-buffer.ts:150-188 | which second and offset the m-th take returns, and the last second borrowed after it, for all m |
| DefaultModel.SecondOfReading | src/deps/java/time-unit.ts:13 | the second of every time value is the one whole number of seconds towards 1970 it lies within |
| DefaultModel.RefusedReadings | src/impl/default-uid-generator.ts:189-198 | readings from 1970 on are refused exactly from the first millisecond after the last second of the delta field |
| DefaultModel.IssuedFields | src/impl/default-uid-generator.ts:142-172 | a returned UID decodes to the second of the last reading used, the worker id and the sequence the state is left with, which counts on within a second and restarts with a new one |
| DefaultModel.ReadingDecides | src/impl/default-uid-generator.ts:142-198 | the next reading decides the outcome: exhausted, refused with the positive number of seconds it lies behind, issued at once, or issued at the first reading of a later second unless an exhausted one comes first |
| DefaultModel.RisesUnlessReplayed | src/impl/default-uid-generator.ts:142-198 | for every sequence of readings, (second, sequence) rises over all successful calls if and only if no call after an escaped exhaustion reads the old second |
| DefaultRuns.ReturnedAreUids | src/impl/default-uid-generator.ts:167-171 | the UIDs the calls of a run return, in order, are those of the seconds and sequences they have gone through |
| DefaultRuns.CallReturns | src/impl/default-uid-generator.ts:142-172 | call k of every run appends its UID, with the fields of its last reading, this worker and the sequence reached |
| DefaultRuns.ParsedTime | src/impl/default-uid-generator.ts:112-124 | the time parsed from a returned UID is the whole second of the reading it was issued at, unless that lies before the epoch |
| DefaultRuns.DistinctUnlessReplayed | src/impl/default-uid-generator.ts:142-172 | a replay always returns a UID twice; over seconds within one delta span, UIDs are distinct if and only if no call replays |
| DefaultRuns.ReturnedCarryWorker | src/impl/default-uid-generator.ts:167-171 | every UID a run returns decodes to the worker id of its configuration |
| DefaultRuns.UidsIncrease | src/impl/default-uid-generator.ts:142-172 | the UIDs every run returns are strictly increasing exactly when the wrapped stamps rise; within the span of the delta field, exactly when no call replays its second |
| DefaultRuns.FirstSecondFits | src/impl/default-uid-generator.ts:142-172 | a run stays within that span if and only if its first second does |
| DefaultRuns.NonNegativeFromTheEpoch | src/impl/default-uid-generator.ts:167-171 | the sign of each UID of a run; within the span none is negative if and only if the first second is not before the epoch |
| DefaultRuns.EarlyClockDecreases | src/impl/default-uid-generator.ts:142-198 | a run before the span, under a clock that only moves on, whose second UID is smaller |
| DefaultRuns.ReplayDuplicates | src/impl/default-uid-generator.ts:151-164 | a run of four calls that returns three UIDs, the last two equal |
| DefaultRuns.MonotoneClockIncreases | src/impl/default-uid-generator.ts:142-198 | under a clock that never goes back no call replays, and the UIDs of every run increase if the first second fits the span, in general exactly when the wrapped stamps rise |
| DefaultRuns.ExhaustionIsFinal | src/impl/default-uid-generator.ts:189-198 | under such a clock every call after the first exhaustion error is refused and no further UID is returned |
| DefaultRuns.RunCounts | src/impl/default-uid-generator.ts:151-162 | within a second the sequences count on by one, and a new second starts at zero |
| DefaultRuns.SecondsSpanned | src/impl/default-uid-generator.ts:151-171 | n UIDs span at least n / (maxSequence + 1) distinct seconds |
| Generators.DefaultUidGenerator.AfterPropertiesSet | src/impl/default-uid-generator.ts:81-101 | which widths and worker ids are rejected, and that the generator is ready otherwise |
| Generators.DefaultUidGenerator.GetCurrentSecond | src/impl/default-uid-generator.ts:189-198 | one reading gives the second it lies within, in milliseconds, or is refused exactly from the first millisecond after the delta field |
| Generators.DefaultUidGenerator.GetNextSecond | src/impl/default-uid-generator.ts:177-184 | the spin loop reads up to the first second after the last one, which is the second of its last reading, or fails on the way |
| Generators.DefaultUidGenerator.NextId | src/impl/default-uid-generator.ts:142-172 | result and state of one call, for every state and reading; the object stays the one of the recorded run |
| Generators.DefaultUidGenerator.GetUID | src/impl/default-uid-generator.ts:103-110 | on the object: appends its UID to those returned; the UID decodes to the last reading's second, the worker and the sequence; everything returned so far is increasing, and distinct, exactly when no call has replayed, within the stated spans |
| Generators.DefaultUidGenerator.ParseFields | src/impl/default-uid-generator.ts:112-124 | for any number, the parsed fields are in range and encode back to its low 64 bits; the time shown is the epoch plus the delta, in milliseconds |
| CachedModel.FullSecondIsBatch | src/impl/cached-uid-generator.ts:93-109 | the batch of a second is what the default generator returns in that second when it uses all sequences |
| CachedModel.ReturnedUidsOrder | src/impl/cached-uid-generator.ts:70-109 | over any interleaving in which only padding puts, the returned UIDs strictly increase while the deltas fit their field, and stay pairwise distinct while the seconds borrowed span at most 2^(timeBits+1) |
| CachedModel.ReturnedUidsSigns | src/impl/cached-uid-generator.ts:93-109 | every returned UID belongs to a borrowed second, which decides its sign; from the epoch on and within one span it is negative exactly beyond the delta field |
| CachedModel.FirstUidNegative | src/impl/cached-uid-generator.ts:93-151 | a generator initialized in the last second of the delta field returns a negative UID first |
| CachedModel.ReturnedGrows | src/impl/cached-uid-generator.ts:70-77 | a take appends exactly the UID it returns to those returned before, in any state of the ring |
| CachedModel.ReturnedUidsCarryWorker | src/impl/cached-uid-generator.ts:99-103 | every UID returned by such a run decodes to the worker id of its generator |
| CachedModel.CachedClosedForm | src/impl/cached-uid-generator.ts:93-151 | the m-th call of `getUID` returns `allocate` of the second and sequence in closed form |
| Generators.CachedUidGenerator.NextIdsForOneSecond | src/impl/cached-uid-generator.ts:93-109 | the offset loop computes the batch in which every UID is allocated on its own |
| Generators.CachedUidGenerator.InitRingBuffer | src/impl/cached-uid-generator.ts:114-151 | succeeds if and only if the size fits an int and the factor is in range, and leaves the filled ring the run theorems start from, with the second the clock shows and the threshold that is the whole part of the percentage |
| Generators.CachedUidGenerator.GetUID | src/impl/cached-uid-generator.ts:70-77 | on the object: appends its UID to those returned, which stay increasing and distinct under the run's own bounds; borrows seconds exactly when what is left has fallen below the configured share; never fails before a shutdown with a positive threshold, and returns the closed form when only takes happened |
| Generators.CachedUidGenerator.PaddingBuffer | src/buffer/buffer-padding-executor.ts:91-99 | a scheduled pass between calls keeps the object that of its recorded run |
| Generators.CachedUidGenerator.Destroy | src/impl/cached-uid-generator.ts:83-86 | shutting down keeps the object that of its recorded run |
| Worker.SqlWorkerNodeDAO.AddWorkerNode | src/worker/dao/sql-worker-node-dao.ts:123-136 | inserts exactly one row and writes the generated key back into the entity |
| Worker.DisposableWorkerIdAssigner.AssignWorkerId | src/worker/disposable-worker-id-assigner.ts:51-60 | every launch inserts a row of its own and returns the key generated for it; that keys grow is how the table is modelled, and what the cluster relies on |
| Cluster.CallIssues | src/impl/default-uid-generator.ts:103-110 | a call on a live node appends the answer of its generator to what the node has returned and changes no other node |
| Cluster.LaunchAdds | src/impl/default-uid-generator.ts:81-101 | a launch adds exactly one live node with the fresh key, configured as planned and with nothing returned, or none when the key exceeds the worker field |
| Cluster.CrashIsFinal | src/worker/disposable-worker-id-assigner.ts:51-60 | a crashed incarnation never returns anything again, whatever happens afterwards |
| Cluster.ClusterUnique | src/worker/disposable-worker-id-assigner.ts:51-60 | over all launches, calls, crashes and relaunches no UID is returned twice anywhere in the cluster |
| JavaDate.FormatPattern | src/deps/java/java-date.ts:43-90 | the printing loop computes the pattern's text, or reports an unsupported letter |
| JavaDate.ParsePattern | src/deps/java/java-date.ts:99-149 | the parsing loop computes the field record, a mismatch or an unsupported letter |
| JavaDate.DigitAt | src/deps/java/java-date.ts:35-37 | a printed number shows its decimal digits, most significant first |
| JavaDate.PadShows | src/deps/java/java-date.ts:35-37 | a padded number that fits its width shows the digits of exactly that many places |
| JavaDate.FormatFails | src/deps/java/java-date.ts:43-90 | printing fails if and only if the pattern has a letter other than the seven |
| JavaDate.ShortYear | src/deps/java/java-date.ts:62-66 | a year of two letters shows its last two digits |
| JavaDate.MonthName | src/deps/java/java-date.ts:67-69 | a month of three letters or more shows the beginning of its English name |
| JavaDate.DayText | src/utils/date-utils.ts:32 | the day pattern prints four digits of the year, the month counted from 1 and the day |
| JavaDate.DateTimeText | src/utils/date-utils.ts:33 | the date-time pattern adds hour, minute and second |
| JavaDate.ParsedIffSpelled | src/deps/java/java-date.ts:99-149 | a text parses to a record if and only if the pattern spells it to its end: every literal matches and every field is a number of its permitted length |
| JavaDate.RoundTrip | src/deps/java/java-date.ts:43-149 | for any pattern that can carry the fields, parsing consumes the printed text and recovers every field the pattern names |
| JavaDate.DayRoundTrip | src/deps/java/java-date.ts:99-149 | the day pattern gives year, month and day back and midnight for the time of day |
| JavaDate.TimeRoundTrip | src/deps/java/java-date.ts:99-149 | a time of day on its own comes back on the first of January 1970 |
| JavaDate.DateTimeRoundTrip | src/utils/date-utils.ts:34 | the date-time pattern with milliseconds gives all seven fields back, for all values of at most ten digits |

## Left out

- Database sessions, SQL text, URL parsing and drivers: the node table is a map with a growing key; a driver that reports no key is not modelled.
- Timers and the schedule itself: a scheduled pass is a `PaddingBuffer` call at any point between calls.
- Logging, exception texts, thread names and string rendering, including the JSON text and the date of `parseUID`.
- Handlers and providers that throw or call back into the ring inside the class model; `TakeProtocol.dfy` covers nested takes and puts as steps in any order, without the padding lock.
- Overflow of `tail`, `cursor` and `lastSecond` past 2^63: they are unbounded integers.
- Rounding of the padding factor: it is a real number.
- Plain setters of the cached generator: their values are parameters of `InitRingBuffer`, which stands for the initialization; inheritance from the default generator is its `Config`.
- Parsing of the epoch string: `SetEpochSeconds` takes the seconds; `JavaDate.DayRoundTrip` says which fields its day pattern yields.
- JavaScript `Date` arithmetic, time zones, lenient rollover and the year shift after parsing: only the field record is modelled.
- The bodies of tasks that throw inside the pool: a padding pass of the model does not throw.
- BitsAllocation.CreateLegal: widths that are not negative, because the generators' setters ignore all others; for negative widths only the masks are stated (`CreateMasks`).
- ClosedForm.RunAccounted: runs in which an empty take puts UIDs of its handler are excluded, because those UIDs belong to no borrowed second; so are they where the UIDs themselves are ordered (`CachedModel.ReturnedUidsOrder`).
- Cluster.ClusterUnique: each incarnation's own conditions (no replayed second, no UIDs of a take handler, seconds within one delta span) are hypotheses, because the clock and the epoch decide them.
- JavaDate.RoundTrip: the pattern condition is sufficient; two-letter years and month names lose information and are not characterised further.

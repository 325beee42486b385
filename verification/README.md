# A model of parallel I/O benchmarks

IOR, mdtest and md-workbench measure parallel storage. This project models the
parts that decide which rank touches which byte or object, and when, and proves
what those parts are for. MPI collectives are pure functions over the ranks, the
clock and the random generators are arbitrary, and a file is a map from place to
byte. `dafny verify dfyconfig.toml` checks everything.

| module | what it models |
|---|---|
| `Lfsr`, `LfsrWidths`, `LfsrRange` | random blocks without repetition: shift registers over power-of-two sub-ranges |
| `Aio`, `AioRuns` | the asynchronous back end: buffer pool, queue, a kernel that completes in any order; when all its runs are right |
| `MdWorkbench`, `MdStonewall` | the FIFO working set of md-workbench, all interleavings of its ranks, and where the stonewall ends them |
| `IorTrace`, `IorRandomOffsets`, `IorReadBack`, `IorSeeds` | the access loop of IOR with stonewall and wear-out, random offsets, acting as another rank, reading back what was written |
| `S3Multipart`, `S3Object` | part numbers at write time, the order of ETags at close time, and the object they make |
| `MpiioView`, `MpiioContents` | MPI-IO file views (section 13.3 of MPI 3.1) over subarray types (section 4.1.3), the coalesced strided datatype, and what it writes |
| `Patterns` | data patterns: generate, update, verify |
| `MdtestTree`, `MdtestItems`, `MdtestStat`, `MdtestDirs`, `MdtestRename` | the directory tree of mdtest, its items, visiting and renaming them |
| `Arithmetic`, `Sequences` | quotients and remainders; permutations, duplicates and swaps |

Each component has a specification on values (sequences, sets, maps, transition
functions), the imperative code proved against it, and lemmas about it.

## What does not hold in general

Where a property fails for some inputs, the exact condition is proved:

- The loop that completes a wear-out phase never ends on a rank without any
  transfer in a segment (`IorTrace.CompletionEndsIffTransfers`). With random offsets
  in a shared file that is a rank which no number names
  (`IorRandomOffsets.NothingDealtIff`).
- With random offsets, a file per process and no seed given, each writer seeds by
  its clock and stores it, and a reader adds the rank it acts as to what it stored.
  The read then visits transfers that were never written, also if every rank reads
  its own file, unless there is one rank only (`IorSeeds.AlwaysWithinIff`). The
  option check (src/ior.c:1598-1599) asks for a seed only when a read is verified.
- Closing a segmented multipart upload orders ETags by what each rank wrote, while
  part numbers count full blocks: they agree if and only if the blocks were full
  or there is one task (`S3Multipart.SegmentedPartsAgreeIff`).
- md-workbench never misses an object if and only if `num` is at most `precreate`,
  or a rank's objects come back to it: it creates objects, at least one is there in
  advance, and twice the offset is a multiple of the number of ranks
  (`MdWorkbench.NeverMissesIff`).
- Asynchronous writes leave the files of the synchronous program in every run if
  and only if they agree on the bytes they share, for any list of writes that fits
  into the free buffers (`AioRuns.RightInEveryRunIff`). From any state at all it is
  the writes not carried out yet that count (`AioRuns.AlwaysRightIff`).
- With a total and a number of items per directory that are equal, the items
  visited are a proper part of those created, unless one directory holds them all
  (`MdtestStat.CreateAndStat`).
- Coalesced strided calls that stop early transfer the wrong amount
  (`MpiioView.CoalescedCountIff`), and with data that changes they lose it
  (`MpiioContents.CoalescingWritesSameIff`). The options coalesce exactly where
  neither can happen (`MpiioContents.CoalescingIsRightIff`).
- With a negative seed the timestamp pattern does not record the rank, as long as
  seed and index stay negative (`Patterns.RankIsLostIff`).

## Preconditions

- `LfsrRange.EveryGroupIsPermutation` assumes `Maximal` for the widths in use; the
  source states this as validated by a separate program. It is proved for widths 2
  to 7, hence for all counts below 256 without hypothesis.
- `Aio.Backend` takes a granularity of at least 1. The parameter check
  (src/aiori-aio.c:146-156) bounds it only from above.
- `IorTrace` covers `minTimeDuration = 0`, and sequential or `randomOffset == 1`
  offsets; the block is a multiple of the transfer size, as the parameter check
  demands.
- `IorSeeds.WriteThenRead`: every rank has a transfer in each segment, for the
  reason given above. It covers the first repetition, in which all ranks have the
  same seed option.
- `AioRuns` covers runs in which the kernel carries out everything in full;
  `Aio.Backend` covers short and failed results as well.
- `MdWorkbench` covers a fault-free back end, a non-negative offset, and a
  stonewall only with wear-out.
- The mdtest modules cover a branch factor of at least 1, one directory loop and no
  stonewall. One directory loop means that a total and a number per directory, if
  both are given, are equal (src/mdtest.c:2435-2439).

## Model

| member | source | states |
|---|---|---|
| Lfsr.TableIsUsable | src/utilities-rand.c:28-94 | every table row of width 2 to 63 has two or four taps, the first one is the top bit and the others lie below it |
| Lfsr.StepIsBijection | src/utilities-rand.c:137-169 | on the states below 2^n a step of the register has a two-sided inverse, for every usable tap set |
| Lfsr.ZeroIsIsolated | src/utilities-rand.c:137-169 | a step leads to zero exactly from zero, so a nonzero register never gets stuck |
| Lfsr.OrbitIsPureCycle | src/utilities-rand.c:137-169 | from every nonzero seed the register comes back to that very seed in fewer than 2^n steps |
| Lfsr.MaximalFromAnySeed | src/utilities-rand.c:205-208 | if the orbit of 1 is maximal, 2^n - 1 steps from any nonzero seed visit each of 1 to 2^n - 1 exactly once |
| Lfsr.WidthTwoIsMaximal | src/utilities-rand.c:32 | the hypothesis about the taps holds for width 2 |
| Lfsr.WidthThreeIsMaximal | src/utilities-rand.c:33 | the hypothesis about the taps holds for width 3 |
| LfsrWidths.StepOfValue | src/utilities-rand.c:137-169 | on a state written out bit by bit, a step moves the bits up and puts the exclusive-or of the taps below them |
| LfsrWidths.MaximalByAvoiding | src/utilities-rand.c:137-169 | a register that is not back at 1 before 2^n - 1 steps has maximal taps |
| LfsrWidths.WidthFourIsMaximal | src/utilities-rand.c:34 | the hypothesis about the taps holds for width 4 |
| LfsrWidths.WidthFiveIsMaximal | src/utilities-rand.c:35 | the hypothesis about the taps holds for width 5 |
| LfsrWidths.WidthSixIsMaximal | src/utilities-rand.c:36 | the hypothesis about the taps holds for width 6 |
| LfsrWidths.WidthSevenIsMaximal | src/utilities-rand.c:37 | the hypothesis about the taps holds for width 7 |
| LfsrRange.AdvanceRemoves | src/utilities-rand.c:246-259 | a sub-range returns an offset it had left and keeps all others, including the zero that comes last and the widths 0 and 1 that never step |
| LfsrRange.Select | src/utilities-rand.c:239-245 | the weighted choice ends on an existing sub-range that has a block left |
| LfsrRange.SelectIsWeighted | src/utilities-rand.c:239-245 | a sub-range is chosen for exactly as many draws as it has blocks left |
| LfsrRange.PendingBounds | src/utilities-rand.c:200-221 | side-by-side sub-ranges have their pending blocks inside their span, and as many of them as the sum of what the sub-ranges have left |
| LfsrRange.AdvanceOneRemoves | src/utilities-rand.c:239-259 | a block taken from any sub-range was pending, and exactly that one stops being pending |
| LfsrRange.FreshIsFull | src/utilities-rand.c:187-225 | after a start the pending blocks are all of [0, blocks), and the sum of what is left is the block count |
| LfsrRange.NextRemoves | src/utilities-rand.c:227-260 | a call without restart returns a pending block, leaves all others pending and keeps the invariant |
| LfsrRange.DrainReturnsPending | src/utilities-rand.c:227-260 | as many calls as blocks are left return each pending block once and end with nothing left |
| LfsrRange.RestartIsTransparent | src/utilities-rand.c:232-237 | running from an exhausted state is running from the state it restarts with |
| LfsrRange.GroupIsPermutation | src/utilities-rand.c:227-260 | one group of N calls from a start on is a permutation of [0, N) and ends at a start again |
| LfsrRange.EveryGroupIsPermutation | src/utilities-rand.c:187-260 | for every block count, all seeds and all choices, in a run of any length each group of N calls from a start on returns every block of [0, N) exactly once, given maximal taps for the widths of the set bits |
| LfsrRange.SmallCountsNeedNoHypothesis | src/utilities-rand.c:28-37 | below 256 blocks the hypothesis about taps holds |
| LfsrRange.RemainsStep | src/utilities-rand.c:201-221 | each round of the set-up loop looks at the next bit of the block count, and what is left of the count shrinks by 2^bit if the bit is set |
| LfsrRange.RandomBlocks.constructor | src/utilities-rand.c:187-225 | a new range holds one full sub-range for each set bit, ascending, side by side from 0, each seeded odd |
| LfsrRange.RandomBlocks.AddAllSubRanges | src/utilities-rand.c:200-222 | the loop over the bits builds exactly that list; it fits the array, and is empty only for zero blocks |
| LfsrRange.RandomBlocks.AddSubRange | src/utilities-rand.c:203-218 | one more sub-range starts where the last one ends and is full |
| LfsrRange.RandomBlocks.Restart | src/utilities-rand.c:232-237 | the whole range becomes a newly set-up one of the same block count |
| LfsrRange.RandomBlocks.Choose | src/utilities-rand.c:240-245 | the loop stops before the end of the array, on the sub-range of the weighted choice |
| LfsrRange.RandomBlocks.Step | src/utilities-rand.c:227-260 | one call performs exactly one admissible transition of the abstract run, or returns the largest word when there are no blocks at all |
| LfsrRange.RandomBlocks.Take | src/utilities-rand.c:246-259 | the chosen sub-range advances, all others and the block count stay |
| LfsrRange.DrawGroup | src/utilities-rand.c:227-260 | as many calls as blocks, from a start on, return a permutation of [0, N) and end at a start |
| LfsrRange.DrawGroups | src/utilities-rand.c:187-260 | set up once, any number of groups of N calls return a permutation of [0, N) each |
| Aio.BufferHasOneOwner | src/aiori-aio.c:280-309 | no two outstanding operations use one pool buffer, none uses a free one, and the free ones and the outstanding ones add up to the pool |
| Aio.OneOwnerByIndex | src/aiori-aio.c:195-199 | an index identifies the outstanding operation it belongs to, so giving it back frees no one else's buffer |
| Aio.InFlightComplementsFree | src/aiori-aio.c:124-137 | free buffers plus operations in flight are the pool, which has the maximum of pending operations once it exists |
| Aio.SubmitKeepsInv | src/aiori-aio.c:173-187 | submission keeps the invariant: each pool index has one place, bytes are accounted, full results leave the account even, buffers hold the synchronous bytes, finished operations are stored, and files differ from the synchronous ones only where a write is outstanding |
| Aio.CarryOutKeepsInv | src/aiori-aio.c:178-178 | whatever operation the kernel carries out next, and with whatever result, the invariant stays |
| Aio.ReapKeepsInv | src/aiori-aio.c:189-201 | reaping keeps the invariant; results were all full before exactly if the rest are and this one is |
| Aio.EnqueueKeepsInv | src/aiori-aio.c:284-307 | taking a buffer and queueing an operation keeps the invariant |
| Aio.NewPoolKeepsInv | src/aiori-aio.c:124-137 | replacing the pool when nothing is outstanding keeps the invariant |
| Aio.DrainedFilesAreSynchronous | src/aiori-aio.c:203-224 | when all is drained and the byte count is zero, the files equal those of the writes performed at once in call order, provided writes in flight together agreed wherever they met |
| Aio.Backend.constructor | src/aiori-aio.c:89-104 | the initial backend is valid, with nothing outstanding, no pool and no short result |
| Aio.Backend.GetEvents | src/aiori-aio.c:239-239 | between the least and the most events asked for are ready; asking for more than the kernel holds is excluded by precondition, so no wait is for ever |
| Aio.Backend.SubmitPending | src/aiori-aio.c:173-187 | the pending array goes to the kernel in order and is empty afterwards |
| Aio.Backend.ReapOne | src/aiori-aio.c:189-201 | the first finished event leaves, its bytes are subtracted and its buffer is pushed on the free stack; it fails exactly for a negative result |
| Aio.Backend.ReapAll | src/aiori-aio.c:216-219 | a batch of events is reaped one by one and the counter in flight falls by their number; only a result that was not full makes it fail |
| Aio.Backend.CompleteAll | src/aiori-aio.c:203-224 | terminates with nothing outstanding, zero pending bytes and all buffers free whenever all results were full; if writes agreed where they met, the files are the synchronous ones |
| Aio.Backend.ProcessSome | src/aiori-aio.c:226-249 | if something is in flight, at least one buffer is free afterwards, nothing is pending, and as many are reaped as are in flight, up to the granularity and 512; only a result that was not full makes it fail |
| Aio.Backend.SetupPool | src/aiori-aio.c:124-137 | the pool exists with buffers of at least the size asked for, and is only replaced after a drain; with full results it never fails, and a pool that is large enough stays as it is |
| Aio.Backend.MakeRoom | src/aiori-aio.c:273-283 | terminates, with full results, with a free buffer that is large enough; if there is one already nothing changes |
| Aio.Backend.FillBuffer | src/aiori-aio.c:284-299 | the top of the free stack is taken and, for a write, holds the data |
| Aio.Backend.AddIocb | src/aiori-aio.c:301-303 | the operation joins the pending array and is counted |
| Aio.Backend.Xfer | src/aiori-aio.c:251-309 | an access queues exactly one operation, whose buffer holds the data; the synchronous files are updated as by an immediate write; agreement is lost only where an outstanding write is going to store another byte; with full results, or a free buffer, it never fails, and with a free buffer nothing else happens |
| Aio.Backend.ReadBack | src/aiori-aio.c:258-271 | a verification read sees what all earlier writes stored, and in full returns all bytes asked for |
| Aio.Backend.WriteAllAndSync | src/aiori-aio.c:311-329 | any number of writes that agree wherever they meet, and a drain, succeed with full results and give the files of the writes one after the other |
| Aio.AgreedByte | src/aiori-aio.c:287-289 | where writes agree, each of them says what is there after all of them |
| AioRuns.AlwaysRightIff | src/aiori-aio.c:203-249 | from any state with full results: every order in which the kernel can carry out the rest ends with the synchronous files if and only if each write that is not carried out yet will store what the synchronous program has there, and the files are right everywhere else |
| AioRuns.RightInEveryRunIff | src/aiori-aio.c:251-329 | from any drained state with that many free buffers: every run with full results that requests these writes and drains leaves the files of the writes one after the other, if and only if any two of them agree on the bytes they share |
| AioRuns.DrainLast | src/aiori-aio.c:203-224 | any waiting write can be the last to be carried out, and then its bytes remain |
| AioRuns.QueueAll | src/aiori-aio.c:273-309 | as many writes as buffers are free can all be requested before any is carried out, each with its data in its buffer |
| Aio.ToldInBatches | src/aiori-aio.c:301-307 | without a drain the kernel has received the largest multiple of the granularity of all requests, and the rest are pending |
| Aio.Backend.Queue | src/aiori-aio.c:284-308 | the operation is queued, and the array is handed over exactly when it holds as many as the granularity |
| AioRuns.OverlappingWritesCanSwap | src/aiori-aio.c:149-151 | with eight buffers, two writes of different bytes to one place have a run that ends with other files |
| MdWorkbench.ReadRankIsRemainder | src/md-workbench.c:624-625 | the remainder with the sign of the dividend and its correction give the mathematical remainder |
| MdWorkbench.NeighboursAreInverse | src/md-workbench.c:624-697 | the rank that reads from a rank and the rank that writes to it undo each other, for every data set |
| MdWorkbench.VictimHasOneReader | src/md-workbench.c:621-626 | each object is read by one rank only and created by one rank only |
| MdWorkbench.VictimExists | src/md-workbench.c:621-673 | in every reachable state the object that a rank stats, reads or deletes is there and holds the pattern of its item and owner |
| MdWorkbench.NewcomerIsAhead | src/md-workbench.c:695-697 | an object being created lies ahead of what its reader has deleted |
| MdWorkbench.StepKeepsInv | src/md-workbench.c:616-729 | every single operation of any rank keeps the invariant, as long as all ranks are within the precreated distance, or create the objects that they read |
| MdWorkbench.AllReduceKeepsInv | src/md-workbench.c:731-761 | the collective at the stonewall keeps the invariant, with all ranks adopting one iteration count |
| MdWorkbench.MaxPosIsMax | src/md-workbench.c:743 | the reduction yields an upper bound of all positions that one of them attains |
| MdWorkbench.EveryInterleavingIsSafe | src/md-workbench.c:602-774 | with safe parameters the invariant, with no stat or read missing and no wrong pattern, holds after any interleaving of any length |
| MdWorkbench.PhaseStartInv | src/md-workbench.c:1026-1029 | a full window satisfies the invariant at the start of a phase |
| MdWorkbench.PhaseEnd | src/md-workbench.c:755-771 | at the end of a phase all ranks have the same iteration count, at most num: the maximum of the contributed positions after exactly one all-reduce each with a stonewall, else num; the window is full again |
| MdWorkbench.EveryPhaseKeepsTheWindow | src/md-workbench.c:1020-1044 | over any number of phases no object is missed and every directory ends with exactly the indices from the current index on |
| MdWorkbench.RunsAreBounded | src/md-workbench.c:616-761 | every run of a phase is finite, with an explicit bound |
| MdWorkbench.SomethingIsEnabled | src/md-workbench.c:731-761 | until all ranks are done, an operation or the collective is enabled: the two places of the all-reduce cannot deadlock |
| MdWorkbench.DoubleOffset | src/md-workbench.c:624-695 | the rank that creates an object is the one that reads it, in every data set, if and only if twice the offset is a multiple of the number of ranks |
| MdWorkbench.MissIsPossible | src/md-workbench.c:616-649 | with all other parameters there is an interleaving in which a stat misses |
| MdWorkbench.NeverMissesIff | src/md-workbench.c:602-774 | from a full window no interleaving misses or misreads an object if and only if num <= precreate, or objects are created, precreate >= 1 and twice the offset is a multiple of the number of ranks |
| MdWorkbench.PatternsDiffer | src/md-workbench.c:580 | different objects of the data sets have different patterns |
| MdWorkbench.WrongPatternIsFound | src/md-workbench.c:659-668 | an object that holds another pattern is noticed by the rank that reads it first |
| MdStonewall.StonewallEndsPhase | src/md-workbench.c:731-761 | in every complete run of a phase with a stonewall, whatever the parameters, all ranks make as many iterations as the largest contribution: for each rank the iteration behind which its clock first passes the stonewall, or num |
| MdStonewall.NoneGoesOn | src/md-workbench.c:731-761 | if every rank passes the stonewall no later than behind iteration k, no rank makes more than k + 1 iterations |
| MdStonewall.StepKeepsGiven | src/md-workbench.c:731-761 | no step of any rank changes what a rank is going to have contributed |
| MdWorkbench.WorkingSet.WholeRun | src/md-workbench.c:1004-1058 | precreation, any number of phases with any interleavings, and cleanup: no error, no miss, and nothing is left |
| MdWorkbench.WorkingSet.RunPrecreate | src/md-workbench.c:544-599 | one rank's directories and objects appear with their patterns, and nothing else changes |
| MdWorkbench.WorkingSet.RunCleanup | src/md-workbench.c:776-808 | one rank's window disappears; without stray objects every directory is empty before it is removed |
| MdWorkbench.WorkingSet.PrecreateAll | src/md-workbench.c:1004-1018 | from nothing, without an error, the first full window |
| MdWorkbench.WorkingSet.CleanupAll | src/md-workbench.c:1046-1058 | from a full window at any index, without an error, nothing is left |
| IorTrace.PrefixGrows | src/ior.c:1882-1902 | a transfer at the loop counters is the next one of the nominal sequence, also after wrapping over |
| IorTrace.AccessLoop | src/ior.c:1856-1915 | the loop stops after the first transfer at which the clock is past the deadline or the limit is reached, or at the end; the trace is the nominal sequence up to there, bytes are counted, and the counters point just behind it |
| IorTrace.SegmentLoop | src/ior.c:1882-1913 | within a segment the loop makes one transfer after the other up to the first at which it stops, or all of them |
| IorTrace.CountWithoutDeadline | src/ior.c:1904-1906 | without a deadline the loop makes as many transfers as the limit says, or all |
| IorTrace.Complete | src/ior.c:1939-1980 | whatever point a rank was stopped at, the resumed loop extends the trace to exactly the first `goal` transfers, nothing skipped or repeated across the fix-up of the counters, in as many rounds as counted |
| IorTrace.Round | src/ior.c:1946-1979 | one round of the resume loop makes the transfers that are left in the segment, with or without transfers in it |
| IorTrace.OneMoreRound | src/ior.c:1946-1979 | rounds add up one by one |
| IorTrace.CompletionEndsIffTransfers | src/ior.c:1946-1979 | the resume loop reaches its goal if and only if the rank has a transfer per segment; otherwise it makes no progress in any number of rounds |
| IorTrace.MaxIsMax | src/ior.c:1922-1923 | the reduction yields an upper bound that is one of the counts |
| IorTrace.AccessPhase | src/ior.c:1793-1984 | with wear-out the trace of every rank is the first M of its nominal sequence, M the maximum over ranks, and M times the transfer size is counted; without, it is the prefix the rank was stopped at |
| IorTrace.NominalOfSequential | src/ior.c:1894-1899 | the n-th transfer of a rank in a shared file lies at its mixed-radix index |
| IorTrace.CoveredOnce | src/ior.c:1882-1902 | a byte of a shared file has at most one rank and transfer, and lies within blockSize * segmentCount * numTasks |
| IorTrace.EveryByteCovered | src/ior.c:1857-1914 | every byte below that size is transferred by some rank |
| IorTrace.OwnFileIsContiguous | src/ior.c:1894-1896 | with a file per process the transfers are consecutive and fill blockSize * segmentCount |
| IorRandomOffsets.CountOffsets | src/ior.c:1668-1679 | the first pass counts exactly the transfers dealt to the rank |
| IorRandomOffsets.FillOffsets | src/ior.c:1692-1700 | the second pass, on the same random stream, fills the array exactly, without overrun or gap |
| IorRandomOffsets.Mix | src/ior.c:1701-1708 | the in-place shuffle performs the swaps of the stream |
| IorRandomOffsets.Mixed | src/ior.c:1701-1708 | the shuffle keeps the multiset of offsets |
| IorRandomOffsets.GetOffsetArrayRandom | src/ior.c:1658-1711 | the result is a rearrangement of what was dealt to the rank |
| IorRandomOffsets.DealtToOne | src/ior.c:1694-1699 | each transfer is dealt to the one rank that the stream names for it, once |
| IorRandomOffsets.DealtAreTransfers | src/ior.c:1694-1699 | only transfers of the segment are dealt |
| IorRandomOffsets.ArraysPartitionSegment | src/ior.c:1658-1711 | each transfer of a segment is in the array of one rank, at one place |
| IorRandomOffsets.PlaceOf | src/ior.c:1694-1708 | for each transfer of a segment the rank and the place in its array |
| IorRandomOffsets.RandomCoveredOnce | src/ior.c:1884-1888 | over all segments no byte is transferred twice, by whatever ranks |
| IorRandomOffsets.RandomCoversEverything | src/ior.c:1884-1888 | over all segments every byte of the file is transferred |
| IorRandomOffsets.EveryOrderIsMixed | src/ior.c:1701-1708 | every order of the offsets can come out of the mixing |
| IorRandomOffsets.OwnArrayIsBlock | src/ior.c:1686-1690 | with a file per process the array holds each transfer of one block at one place |
| IorRandomOffsets.OwnRandomCoveredOnce | src/ior.c:1884-1886 | with random offsets in a file per process no byte is transferred twice, and none beyond blockSize * segmentCount |
| IorRandomOffsets.OwnRandomCoversEverything | src/ior.c:1884-1886 | and every byte below that is transferred |
| IorRandomOffsets.NothingDealtIff | src/ior.c:1672-1679 | a rank is dealt nothing if and only if no number of the stream names it |
| IorReadBack.RotationIsPermutation | src/ior.c:1352-1359 | under the constant offset the acted ranks are a permutation |
| IorReadBack.RotationReads | src/ior.c:1352-1359 | a rank reads the data of the rank that many ranks on, and its own only if the distance is a multiple of the number of ranks |
| IorReadBack.RotationByBlocks | src/ior.c:1354-1358 | with the tasks of a node next to each other, the writer is the task with the same place, that many nodes on |
| IorReadBack.RotationInTurn | src/ior.c:1354-1358 | with the tasks dealt out to the nodes in turn, the writer is on the node that many nodes on |
| IorReadBack.Shuffle | src/ior.c:1395-1406 | the loop performs the specified swaps |
| IorReadBack.EveryOrderIsShuffled | src/ior.c:1400-1406 | every permutation of the ranks is what the shuffle ends in for some numbers drawn |
| IorReadBack.SameShuffleIff | src/ior.c:1400-1406 | two streams of numbers end in the same permutation if and only if they pick the same target in every step |
| IorReadBack.Shuffled | src/ior.c:1395-1406 | the shuffled ranks are a rearrangement of all ranks |
| IorReadBack.ShuffleIsPermutation | src/ior.c:1385-1409 | the shuffled ranks are a permutation, and adding the rank to the stored difference gives back the entry |
| Sequences.EveryOrderIsReached | src/ior.c:1400-1406 | swaps that fill place after place reach every order |
| Sequences.SameOrderIff | src/ior.c:1400-1406 | and reach the same order only with the same targets |
| IorSeeds.WriteSeedsDiffer | src/ior.c:1618-1643 | with a seed given, ranks with files of their own use different seeds; a shared file has one seed for all |
| IorSeeds.ReadReachesLimit | src/ior.c:1299-1301 | a read that is bounded by the stored count reaches it on the rank that has the most to read |
| IorSeeds.WriteThenRead | src/ior.c:1799-1811 | write and read compute their offsets from the seeds they find; after a wear-out write every rank reads only transfers that its counterpart wrote, in that order, and all of them unless a deadline stops it, if the offsets are reproducible; how far the write got is the largest count at which a clock stopped a rank |
| IorSeeds.SameMode | src/ior.c:1618-1643 | with a shared file, a given seed, one rank or without random offsets, the reader computes the writer's offsets |
| IorSeeds.SameOffsetCount | src/ior.c:1669-1684 | reader and writer always have equally many offsets |
| IorSeeds.ReadsElsewhere | src/ior.c:1622-1627 | otherwise a generator and clocks exist for which the first transfer read is not the one written |
| IorSeeds.AlwaysWithinIff | src/ior.c:1618-1643 | for every assignment of readers to writers: whatever the generator, the clocks and the stonewall, only written transfers are read, if and only if the offsets are not random, the file is shared, a seed is given, or there is one rank |
| S3Multipart.Upload.NextPart | src/aiori-S3-4c.c:779-790 | the part number is computed from the local count, which grows by one |
| S3Multipart.Upload.Put | src/aiori-S3-4c.c:757-853 | one more ETag without its quotes is kept beside the part number it belongs to; an answer of another length ends the run |
| S3Multipart.TagInGathered | src/aiori-S3-4c.c:1103-1107 | in the text gathered from all ranks each ETag lies whole at its rank's and its own place |
| S3Multipart.TagAtPointer | src/aiori-S3-4c.c:1143-1178 | at every pointer of the nested loops there is a whole ETag inside the buffer, the one for that position of the list |
| S3Multipart.OrderTags | src/aiori-S3-4c.c:1168-1193 | the completion list has the ETag that belongs at each position |
| S3Multipart.Close | src/aiori-S3-4c.c:1143-1193 | closing yields that list if all ranks wrote equally many parts, and an error otherwise |
| S3Multipart.StridedPartsAgree | src/aiori-S3-4c.c:785-786 | strided: position q of the list holds the write that was given part number q |
| S3Multipart.SegmentedPartsAgreeIff | src/aiori-S3-4c.c:781-784 | segmented: the same holds for all positions if and only if every rank wrote its full block or there is one rank |
| S3Multipart.PartNumbersAreUnique | src/aiori-S3-4c.c:779-790 | part numbers lie in [0, numTasks * partsPerRank), and the position they name gives back the rank and its write |
| S3Multipart.PartNumberIsPlace | src/aiori-S3-4c.c:277-280 | with the parameter check, part number times transfer size is the offset of the write |
| S3Multipart.UncheckedPartsAreMisplaced | src/aiori-S3-4c.c:277-280 | without it some write lands elsewhere |
| S3Multipart.ObjectIsFile | src/aiori-S3-4c.c:1143-1193 | with the parts in the order of the completion list, the concatenated object is byte for byte the file that writing at offsets would give |
| S3Object.WriteParts | src/aiori-S3-4c.c:757-853 | one rank puts all its parts, under numbers that no other write has |
| S3Object.AtItsPlace | src/aiori-S3-4c.c:1168-1193 | the ETag at each position of the list is that of the part which the server has under that number |
| S3Object.Complete | src/aiori-S3-4c.c:1143-1196 | the server accepts the list if and only if each number has a part with the listed ETag, and then joins the parts |
| S3Object.CloseOwn | src/aiori-S3-4c.c:1201-1231 | a rank's own list has its ETags in the order of its writes |
| S3Object.WholeOwnUpload | src/aiori-S3-4c.c:757-1231 | with an object per rank the list is accepted, and the object is byte for byte the file of the rank |
| S3Object.WholeUpload | src/aiori-S3-4c.c:757-1196 | all ranks put their parts, rank 0 orders the ETags and the server completes: the list is accepted, and every byte of the object is the one that writing at offsets would put there |
| MpiioView.VisibleBeforeClosed | src/aiori-MPIIO.c:301-319 | the number of elements that the tiled subarray shows before a place, in closed form |
| MpiioView.SeekShared | src/aiori-MPIIO.c:692-697 | the view offset of transfer j of segment i is i * (blockSize / transferSize) + j, with division truncating as in C |
| MpiioView.SeekFindsTheTransfer | src/aiori-MPIIO.c:666-703 | the element at the computed view offset is shown to the rank and is the one at its absolute offset, for shared and per-process files |
| MpiioView.CoalescedCall | src/aiori-MPIIO.c:484-497 | a coalesced call of the first segment accesses the transfers of all segments with that index, and one of a later segment nothing |
| MpiioView.CoalescingAccessesTheSame | src/aiori-MPIIO.c:482-508 | over a whole run coalesced calls access the same offsets as one call per transfer, and as many |
| MpiioView.StridedAccessesNominal | src/aiori-MPIIO.c:482-508 | with any access, deadline, pair limit and pattern the calls access exactly the transfers of the nominal sequence performed so far |
| MpiioView.CoalescedCountIff | src/aiori-MPIIO.c:484-488 | coalesced calls that stop early access the right number of transfers only at the start, at the end or with one segment, which is why deadlines and limits rule them out |
| MpiioView.StoredAt | src/aiori-MPIIO.c:509-521 | what a byte holds after aligned writes of one buffer, in whatever order |
| MpiioView.CoalescingWritesTheSame | src/aiori-MPIIO.c:482-508 | writing a buffer that does not change, the file ends up the same with and without coalescing |
| MpiioContents.SameFileIff | src/aiori-MPIIO.c:509-521 | two lists of aligned writes leave the same file, whatever was there, if and only if they are the same writes |
| MpiioContents.CoalescedWrites | src/aiori-MPIIO.c:482-508 | coalesced calls write each transfer from the buffer of the same transfer of the first segment |
| MpiioContents.CoalescingWritesSameIff | src/aiori-MPIIO.c:482-508 | a whole coalesced run writes the file of one call per transfer if and only if equal transfers of all segments have the same data |
| MpiioContents.StridedCallsAreRight | src/aiori-MPIIO.c:482-508 | for every access, deadline, limit and pattern, the calls as the options coalesce them write the same file, read the same transfers, and check each transfer at its own offset |
| MpiioContents.CoalescingIsRightIff | src/aiori-MPIIO.c:484-488 | with several segments, coalescing is right whatever the data and wherever the loop can stop, if and only if the options ask for it, apart from a limit that is never reached |
| Patterns.Buffer.Generate | src/utilities.c:160-193 | the words and the tail bytes of the chosen pattern; a timestamp buffer already verifies for every item |
| Patterns.Buffer.Update | src/utilities.c:93-124 | after an update the buffer holds the item, whatever item it held before |
| Patterns.Buffer.UpdateRandom | src/utilities.c:107-117 | every word is the state of the local generator after as many rounds |
| Patterns.Buffer.UpdateMarks | src/utilities.c:119-123 | the first word of each 4 KiB carries the mark of the item, all others stay |
| Patterns.Buffer.Verify | src/utilities.c:205-263 | returns 0 if and only if every word and tail byte is as expected for the item |
| Patterns.Buffer.Invalidate | src/utilities.c:195-203 | complementing the first byte makes a buffer that verified for anything not verify for it |
| Patterns.Buffer.Run | src/utilities.c:93-263 | generate once, then update and verify any sequence of items: no error, for every size and packet type |
| Patterns.MarkIsInjective | src/utilities.c:122 | marks agree if and only if the ranks and the items modulo 2^32 agree |
| Patterns.PatternsAgreeIff | src/utilities.c:205-263 | for the offset and the incompressible pattern, what two (item, rank) pairs expect of at least one word is the same if and only if the ranks and the items modulo 2^32 agree |
| Patterns.HoldsForOtherIff | src/utilities.c:205-263 | a buffer of at least 8 bytes that verifies for one pair verifies for another if and only if they agree in that sense |
| Patterns.PlainFill | src/utilities.c:184-184 | a timestamp or offset word is the rank above the sum of seed and index, or the sign-extended sum if that is negative |
| Patterns.FillTellsApart | src/utilities.c:242-246 | timestamp or offset words with non-negative seeds are equal if and only if the ranks and the sums of seed and index are |
| Patterns.TimestampHoldsIff | src/utilities.c:205-263 | a timestamp buffer that verifies for one rank and seed verifies for another if and only if both are the same |
| Patterns.ShiftedDoesNotHold | src/utilities.c:205-263 | a timestamp buffer shifted by whole words does not verify |
| Patterns.RankIsLostIff | src/utilities.c:184-184 | with a negative seed two ranks have the same timestamp pattern if and only if all sums of seed and index are negative |
| Patterns.IncompressibleTellsApart | src/utilities.c:236-241 | incompressible words are equal if and only if both numbers drawn for them are |
| Patterns.RandomStateBack | src/utilities.c:111-115 | a random word determines the state before it but for three bits |
| Patterns.MarksAgreeIff | src/utilities.c:119-123 | the marks of two blocks agree if and only if the item times their distance is a multiple of 2^32 |
| Patterns.OddItemsMarkBlocks | src/utilities.c:119-123 | for an odd item every block has a mark of its own |
| MdtestTree.NumDirsIsFirst | src/mdtest.c:2485-2495 | the computed size is the number of the first directory below the leaves, and the size minus b^depth that of the first leaf |
| MdtestTree.FirstIsGeometric | src/mdtest.c:2493 | level sizes are powers of the branch factor and sum up to the geometric quotient |
| MdtestTree.ChildrenOf | src/mdtest.c:636-640 | dividing gives the parent exactly for the numbers from d * b + 1 to d * b + b |
| MdtestTree.UnderIsDisjoint | src/mdtest.c:563-571 | what is below different siblings is different |
| MdtestTree.UnderWholeLevel | src/mdtest.c:541-574 | below a whole level are all directories from there on, or the leaves if only they hold items |
| MdtestItems.Walker.CreateItemsHelper | src/mdtest.c:442-467 | one directory receives its items with consecutive numbers |
| MdtestItems.Walker.CreateItems | src/mdtest.c:509-574 | the recursion appends exactly the items of the specified walk, in order |
| MdtestItems.Walker.CreateBranch | src/mdtest.c:543-570 | one branch appends its own items and then those below it |
| MdtestItems.BranchesMembers | src/mdtest.c:541-574 | the walk below siblings makes an item if and only if its path is that of its number divided by the items per directory, and that directory is below them |
| MdtestItems.BranchesOnce | src/mdtest.c:541-574 | and makes no item twice |
| MdtestItems.WalkMembers | src/mdtest.c:509-574 | the walk makes each item in place with a number in one interval, exactly once, and nothing else |
| MdtestStat.ComputeSizes | src/mdtest.c:2484-2518 | with one of the two numbers given, the item count is that of the walk and a given total is rounded down by less than one item per directory; with both, they stay as given |
| MdtestStat.RandArray | src/mdtest.c:2520-2556 | the array is filled from the last place down by the swaps of the numbers drawn, and is a rearrangement of all numbers |
| MdtestStat.EveryOrderIsDrawn | src/mdtest.c:2532-2555 | every visiting order can be drawn |
| MdtestStat.SameRandOrderIff | src/mdtest.c:2532-2555 | two visiting orders are the same if and only if the same numbers were drawn |
| MdtestStat.PathOf | src/mdtest.c:629-644 | the loop ends and builds the path of the item's directory |
| MdtestStat.Stat | src/mdtest.c:577-657 | the i-th visit is to the i-th item, or to the one the array names |
| MdtestStat.VisitsWhatWasMade | src/mdtest.c:586-657 | for every branch factor, depth, items per directory and visiting order, leaf-only or not, the items visited are among those the walk made, none twice, and all of them if and only if there are as many visits as items |
| MdtestStat.VisitsTheFirst | src/mdtest.c:586-657 | the visits are to exactly the items with the lowest numbers, each once |
| MdtestStat.CreateAndStat | src/mdtest.c:2435-2556 | a run from the options to the visits, in natural or random order: nothing is visited that was not made, and everything is if and only if one number was given or one directory holds all items |
| MdtestDirs.FileSystem.Mkdir | src/mdtest.c:1996-1998 | a directory can be made if and only if it is new and lies in an existing one |
| MdtestDirs.FileSystem.Rmdir | src/mdtest.c:2014-2016 | a directory can be removed if and only if it exists and is empty |
| MdtestDirs.MadeMembers | src/mdtest.c:2024-2048 | the directories below siblings, by number |
| MdtestDirs.GrownApart | src/mdtest.c:2024-2048 | a directory is not below itself, and siblings share nothing |
| MdtestDirs.MadeInside | src/mdtest.c:2025-2036 | each of them lies in the siblings' directory or in another of them |
| MdtestDirs.ReadyInParts | src/mdtest.c:2024-2048 | when siblings can be made or removed one after the other |
| MdtestDirs.ReadyBelow | src/mdtest.c:2028-2044 | a directory can be made before, and removed after, what is below it |
| MdtestDirs.CreateRemoveTree | src/mdtest.c:1982-2050 | the recursion makes or removes exactly the tree, and every mkdir and rmdir succeeds |
| MdtestDirs.Branch | src/mdtest.c:2025-2047 | one branch does so for one directory and what is below it |
| MdtestDirs.TreeIsAllDirs | src/mdtest.c:2485-2495 | the tree has as many directories as computed: those with numbers below that |
| MdtestDirs.TreeIsNew | src/mdtest.c:1991-1998 | if the root of the tree is new in a well-formed file system, all of the tree is, and nothing else lies in it |
| MdtestDirs.CreateTree | src/mdtest.c:1982-2050 | from such a file system, the tree is added without a warning |
| MdtestDirs.CreateThenRemoveTree | src/mdtest.c:1982-2050 | making and removing the tree gives back the file system |
| MdtestDirs.ItemsLieInTree | src/mdtest.c:548-554 | the directories that items are placed in are those of the tree, or its leaves if only they hold items |
| MdtestRename.Files.RenameTest | src/mdtest.c:860-929 | no rename misses a source or overwrites a target; the names stay, the contents of all items but the last are rotated by one, and fewer than two items are left alone |
| MdtestRename.StepFrom | src/mdtest.c:917-927 | each rename leads from an existing source to an unused target and to the next stage |
| MdtestRename.NamesAreDistinct | src/mdtest.c:882-914 | the names gone through are distinct, and the temporary one is none of them |
| MdtestRename.RotatedAgain | src/mdtest.c:860-929 | rename phases add up |
| MdtestRename.FullTurn | src/mdtest.c:860-929 | after as many phases as items are rotated every item has its own contents again |

## Left out

- MPI itself, timers, statistics and output: collectives are functions over all ranks, and every comparison with the clock is arbitrary.
- All other storage back ends and the GPU code.
- Option parsing and the building of file names; names are tuples or paths of directory numbers.
- The maximality of the tap sets for widths above 7, which needs up to 2^63 steps.
- Lfsr: words are natural numbers below a power of two, and shifts, masks and exclusive-or are written out on them; `u_lfsr_step` ends the program for widths 0 and 1, which `u_lfsr_range_step` never passes to it.
- LfsrRange.SplitMix64: returns an arbitrary 64-bit word; its arithmetic is not modelled.
- Aio.Backend.Xfer: an interrupted wait (EINTR) and failed submissions are not modelled; a read leaves its data in the pool buffer, as the code never copies it to the caller.
- The memory of `struct iocb` and of the buffers, which are values here.
- MdWorkbench: waiting modes, timing and counters of successful operations; a stonewall without wear-out, about which the program itself warns.
- IorTrace: the broadcast of the stonewall decision in synchronized mode, prefilling segments, `randomOffset` 2 and 3, and `minTimeDuration`.
- IorReadBack: `reorderTasksRandom == 1`, which draws each rank's offset from its own stream and is not a permutation.
- S3Multipart: HTTP, XML text and the broadcast of the upload id; ETags are texts of fixed length.
- MpiioView: the retry loop after short transfers and accesses without a file view.
- Patterns: `rand_r` is an arbitrary function of the seed, and the GPU variants are not modelled.
- Mdtest: stonewalls, several directory loops, collective creation and reading or removing items, which go through the same numbers.
- MdtestDirs: items inside directories; the tree is removed when they are gone.
- Overflow of C integers in the tree and trace components; word widths are kept in the registers and the data patterns.

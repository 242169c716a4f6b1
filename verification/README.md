# Verification model of tailslayer

Tailslayer hides DRAM refresh stalls by keeping copies of data on different memory channels
and taking whichever copy answers first. This project models the parts of it whose
correctness is not visible from one function body, and proves what they are for:

- **Pairing and percentiles** (`Pairing`, `PairingOptimality`, `PairingInvariance`, `Sorting`,
  `LatencyPercentiles`, `HedgedReports`). The greedy merge that turns per-channel samples
  into hedged reads is
  an optimal matching for monotone timestamps. The hedged latencies are no worse, in any order
  statistic, than those of a single channel.
- **Gosper's hack** (`Bits`, `Gosper`). The enumeration is sound, complete, ascending and has
  C(n, k) elements; the step is the least successor.
- **Contiguity** (`Multiples`, `Contiguity`, `LargePages`). The one-pass scan for physically
  contiguous memory equals the brute-force definition, agrees with the second checker, and
  the retry loop around it leaks no block.
- **The hedged vector** (`HedgedVector`, `ChannelSeparation`, `ReaderSetup`). The strided
  shift/mask layout refines a plain sequence, and a reader built on the region that the setup
  finds has its replicas on different channels.
- **Topology and thread manager** (`Processors`, `Topology`, `TopologyEntries`,
  `TopologyFacts`, `ThreadPool`, `ThreadRelease`, `ThreadManager`, `AdmissionCheck`,
  `Admission`, `Launch`, `HybridCores`). The Windows topology pass
  establishes the allocator's invariant, every operation keeps it, no thread is lost or handed
  out twice, and the benchmark's three roles never share a physical core.
- **The measurement protocol** (`RunArm`, `RunArmRuns`, `RunArmWork`, `SignalReset`). A state
  machine for the main thread,
  the workers and their flags, with safety in every reachable state and termination of every
  fair execution.

Code that updates state is modelled by classes and loops (`HedgedReader`,
`ProcessorConfigurationVector`, `DynamicThreadManager`, the operating system `Os`, and the
methods over sequences and arrays), each proved against a function or predicate about which the
lemmas speak. Unordered maps are visited in any order: `begin()` is an arbitrary key, so all
results hold for every order. `dafny verify dfyconfig.toml` checks the project.

## What the proofs say about the code

Where a promise does not hold on all inputs, a lemma gives the exact condition:

- The hedged report is never worse than a channel's own report, whatever the latencies, if and
  only if all equal-index tuples are within the gap (then no sample is lost) or nothing is
  paired (`HedgingWorsensNoReport`; for monotone timestamps, no close tuple exists).
- The utilization check admits only requests that can be served if and only if, for every
  number k of channels it admits at all, the k largest free cores have at most two threads more
  than the average share of k cores, rounded down (`CheckIsSoundExactly`). Equal cores satisfy this
  (`AdmissionGuarantees`); five two-thread and eight one-thread cores do not
  (`MixedCoresMayFail`).
- `freeProcessor` keeps the bookkeeping if and only if it has nothing to do or the core is known
  and fully allocated, and `freeThread` if and only if the thread is free already or known
  (`FreeProcessorIsRightFor`, `FreeThreadIsRightFor`).
- The `initialize` without arguments succeeds if and only if no core record has a thread, and
  never yields a usable manager (`InitializeDefault`).
- The selected arms are all served if and only if single and hedged arms, and quiet and stress
  arms, are not mixed (`ServedWhenNotMixed`).
- Shift and mask indexing works if and only if the chunk length is a power of two
  (`ShiftMaskNeedPow2`).
- `compute_channel` tells all replicas apart if and only if there are at most two
  (`SanityCheckPassesForTwo`), as the repository's README says in its porting notes.
- `setup_memory` succeeds if and only if the allocation attempt that stops the retries is
  contiguous as a whole; a contiguous huge page inside a larger block is given back
  (`SetupMemory`).
- `insert` accepts exactly the first capacity - 1 elements, although one more would fit
  (`LastSlotIsRefused`, `LastSlotWouldFit`).
- The threads of an arm always sample together if and only if it starts with the signal reset
  (`ResetIsNeeded`); an arm leaves the signal set (`EveryFairRunFinishes`).

## Model

| member | source | states |
|---|---|---|
| `Pairing.PairSamples` | benchmark/source/benchmark.cpp:337-392 | appends one value per tuple of the greedy merge: it is the latency of one of the tuple's samples and at most that of every other; returns the new size; no channel: 0 and no change; the loop ends on every input, sorted or not |
| `Pairing.ScanHeads` | benchmark/source/benchmark.cpp:345-378 | one pass over the heads decides all four questions: is a channel exhausted, are all heads pairwise within the gap, which is the first lagging channel (never -1 when it is used), which latency is the fastest |
| `Pairing.PairSamplesSimple` | benchmark/source/benchmark.cpp:395-420 | appends for each index the least latency of the samples with that index, timestamps ignored |
| `Pairing.MinimumIsLeast` | benchmark/source/benchmark.cpp:370-380 | the fold that starts at UINT64_MAX is an element of the list and at most every element |
| `Pairing.EffectiveIsFastest` | benchmark/source/benchmark.cpp:370-380 | the effective latency of a tuple is the latency of one of its samples and at most that of every other |
| `PairingOptimality.PairingIsOptimal` | benchmark/source/benchmark.cpp:337-392 | with nondecreasing timestamps the emitted tuples are a matching, and no family of sample-disjoint close tuples, crossing or not, has more tuples |
| `PairingOptimality.PairableOnSamples` | benchmark/source/benchmark.cpp:356-380 | a tuple may be paired if and only if every channel has that sample and all their timestamps are less than 400 apart |
| `PairingOptimality.UncrossedIsChain` | benchmark/source/benchmark.cpp:356-388 | any matching becomes a chain of the same length, still within the gap, by sorting each channel's indices |
| `PairingOptimality.StaysAhead` | benchmark/source/benchmark.cpp:356-388 | against any strictly increasing sequence of close tuples, the i-th emitted tuple is no later in any channel, and there are at least as many |
| `PairingOptimality.LaggingHeadIsUnusable` | benchmark/source/benchmark.cpp:381-388 | when the heads are too far apart, no close tuple still ahead uses the head that is discarded |
| `PairingOptimality.TieBreakIsIrrelevant` | benchmark/source/benchmark.cpp:360-368 | all merges that advance any one of the tied earliest channels emit the same tuples |
| `PairingOptimality.RunIsGreedy` | benchmark/source/benchmark.cpp:356-388 | the merge that always takes the first earliest channel is one of these merges |
| `PairingOptimality.GreedyIsChain` | benchmark/source/benchmark.cpp:345-392 | on any input the emitted tuples are close, in bounds and strictly increasing in every channel |
| `PairingInvariance.ChannelOrderIsIrrelevant` | benchmark/source/benchmark.cpp:337-392 | listing the channels in another order permutes each tuple's components and leaves the emitted latencies unchanged |
| `PairingInvariance.EverySampleIsAccountedFor` | benchmark/source/benchmark.cpp:345-392 | on any input: the merge stops with a channel exhausted, and in each channel the final head is pairs plus discards |
| `PairingInvariance.SamplesAreConserved` | benchmark/source/benchmark.cpp:345-392 | summed over the channels: consumed samples = emitted tuples times channels + discarded samples |
| `PairingInvariance.AgreesWithSimplePairing` | benchmark/source/benchmark.cpp:395-420 | the merge pairs exactly the equal-index tuples if and only if all of them are within the gap; then both functions emit the same latencies |
| `LatencyPercentiles.ComputePercentiles` | benchmark/source/stats.cpp:59-82 | sorts the list in place into its unique sorted rearrangement and reports, of the old contents, what every field's name says; all zero for an empty list |
| `LatencyPercentiles.SelectPercentiles` | benchmark/source/stats.cpp:69-82 | the values picked by index from a sorted list, with the index of p999 and p9999 capped, and the mean |
| `LatencyPercentiles.PercentilesAreRanks` | benchmark/source/stats.cpp:67-81 | on the unsorted list: each percentile is the value of the largest rank r with r/n at most the fraction, least and greatest value are those of the first and last rank, the mean times the size is the sum and lies between them |
| `LatencyPercentiles.RankIsUnique` | benchmark/source/stats.cpp:67-76 | a rank has one value, so that statement determines the report |
| `LatencyPercentiles.HedgingWorsensNothing` | benchmark/source/benchmark.cpp:370-380 | every order statistic and the mean of the hedged reads are at most those of any single channel in the same reads |
| `HedgedReports.HedgingWorsensNoReport` | benchmark/source/benchmark.cpp:109-126 | for fixed timestamps: no channel's own report beats the hedged one, for any latencies, if and only if all equal-index tuples are within the gap or nothing is paired |
| `HedgedReports.HedgingWorsensNoMonotoneReport` | benchmark/source/benchmark.cpp:109-126 | the same for monotone timestamps, with the second condition stated on the input: no close tuple exists |
| `HedgedReports.LostSamplesMatter` | benchmark/source/benchmark.cpp:381-388 | for any timestamps at which some tuple is paired and some sample is lost there are latencies for which channel 0's own report has a smaller minimum than the hedged one |
| `LatencyPercentiles.ProcessHedgedData` | benchmark/source/benchmark.cpp:300-329 | nothing for one channel, otherwise the number of pairs, fastest latencies, and a right report of them that no channel beats in the same reads |
| `Sorting.SortIsUnique` | benchmark/source/stats.cpp:67 | a sorted rearrangement is determined by the elements, so the result does not depend on the sorting algorithm |
| `Sorting.SortedDominance` | benchmark/source/stats.cpp:67-76 | if each element exceeds its partner by at most d, so does every order statistic |
| `Gosper.GospersHack` | benchmark/scripts/probe_bits.py:4-32 | for n, k >= 0 the result is exactly the ascending list of the integers below 2^n with k set bits; also the early returns and the error for a negative shift count |
| `Gosper.NextIsLeastSuccessor` | benchmark/scripts/probe_bits.py:25-30 | for every x > 0 the update keeps the population count, strictly increases x, and skips no integer with that count |
| `Gosper.NextOfComposed` | benchmark/scripts/probe_bits.py:25-30 | the update on x = (head, 0, q ones, p zeros): the head's block becomes (head, 1) followed by q - 1 low ones |
| `Gosper.EnumerationIsExact` | benchmark/scripts/probe_bits.py:4-7 | the reference list holds an integer if and only if it is below the bound and has k set bits, in strictly ascending order |
| `Gosper.EnumerationLength` | benchmark/scripts/probe_bits.py:4-7 | the list for n bits and k set bits has C(n, k) elements |
| `Gosper.ChooseIsBinomial` | benchmark/scripts/probe_bits.py:4-7 | Pascal's triangle is the binomial coefficient: C(n, k) k! (n - k)! = n! |
| `Bits.AndBits` | benchmark/scripts/probe_bits.py:25 | the recursive & sets a bit exactly when both operands have it, also for the negative -x |
| `Bits.OrBits` | benchmark/scripts/probe_bits.py:30 | the recursive bitwise or sets a bit exactly when one of the operands has it |
| `Bits.XorBits` | benchmark/scripts/probe_bits.py:29 | the recursive ^ sets a bit exactly when the operands differ in it |
| `Contiguity.FindLargestPhysicalRegion` | tailslayer/include/tailslayer/utilities.hpp:291-346 | without a target the leftmost longest run of pages with consecutive translations; with a target the first place where a run of exactly the target rounded up to pages is complete, else the longest; the empty region for a target below a page |
| `Contiguity.BestIsLongest` | tailslayer/include/tailslayer/utilities.hpp:312-345 | the pair that the one-pass scan maintains is the longest run by the brute-force definition over all start and end pages, leftmost among equals |
| `Contiguity.RunsEndingAt` | tailslayer/include/tailslayer/utilities.hpp:323-331 | pages i..j-1 form a run if and only if j - i is at most the length the scan has at j |
| `Contiguity.VerifyHugePageIsContiguous` | tailslayer/include/tailslayer/utilities.hpp:230-289 | the alternating two-slot check is true exactly when the memory reader exists and all pages form one run (for zero pages: when the address translates) |
| `Contiguity.CheckersAgree` | tailslayer/include/tailslayer/utilities.hpp:230-346 | the scan returns a region of all n pages if and only if they form one run, the condition of the two-slot check, and then it is the whole block |
| `Contiguity.AlignedIsNotTop` | tailslayer/include/tailslayer/utilities.hpp:262-268 | page-aligned translations are never the values that the two-slot check confuses with failure |
| `LargePages.AllocateLargePageMin` | tailslayer/include/tailslayer/utilities.hpp:349-405 | attempts at 5, 6, 7, ... percent of what is available, rounded up to pages, stop at the first region large enough or after 75; the answer is the last attempt's block, null if that was too small or absent; a non-null block is the only new live one and contains a usable region; on null nothing is left live |
| `LargePages.NullMeansExhausted` | tailslayer/include/tailslayer/utilities.hpp:370-400 | when failed allocations find nothing, the answer is null if and only if 75 attempts were all too small |
| `LargePages.LargestRegionIsContiguous` | tailslayer/include/tailslayer/utilities.hpp:291-346 | in the region found, page k translates to the first frame plus k pages |
| `HedgedVector.HedgedReader.constructor` | tailslayer/include/tailslayer/hedged_reader.hpp:57-85 | the precomputed shift, mask, stride and capacity are those of the layout, replica i starts i channel offsets into the page, and the vector is empty |
| `HedgedVector.HedgedReader.Insert` | tailslayer/include/tailslayer/hedged_reader.hpp:103-117 | accepted if and only if the next index is below the capacity; then appends one element to the abstract sequence in every replica, and every earlier element of every replica keeps its value |
| `HedgedVector.LastSlotIsRefused` | tailslayer/include/tailslayer/hedged_reader.hpp:106 | of any number of inserts exactly the first capacity - 1 are accepted |
| `HedgedVector.LastSlotWouldFit` | tailslayer/include/tailslayer/hedged_reader.hpp:106 | the slot that is never used lies inside the page, apart from all others |
| `HedgedVector.HedgedReader.Read` | tailslayer/include/tailslayer/hedged_reader.hpp:149-168 | any replica returns the j-th inserted value for index j, and the fill pattern for an index not yet inserted |
| `HedgedVector.HedgedReader.NextLogicalIndexAddress` | tailslayer/include/tailslayer/hedged_reader.hpp:171-180 | the shift/mask computation gives the address of block (j / E) * C + i, position j mod E |
| `HedgedVector.HedgedReader.ReplicaCores` | tailslayer/include/tailslayer/hedged_reader.hpp:247-258 | replica i runs on core i + 1 |
| `HedgedVector.AddressInPage` | tailslayer/include/tailslayer/hedged_reader.hpp:71-76 | below the capacity, every replica of every index lies inside the huge page |
| `HedgedVector.CapacityIsLargest` | tailslayer/include/tailslayer/hedged_reader.hpp:71-76 | one more stride would leave the huge page, so the capacity is the largest number of whole strides |
| `HedgedVector.AddressIs` | tailslayer/include/tailslayer/hedged_reader.hpp:171-180 | in plain arithmetic: element j of replica i lies at ((j / E) * C + i) * channel offset + (j mod E) * element size |
| `HedgedVector.AddressesDisjoint` | tailslayer/include/tailslayer/hedged_reader.hpp:171-180 | different (replica, index) pairs occupy disjoint bytes |
| `HedgedVector.SlotIsInjective` | tailslayer/include/tailslayer/hedged_reader.hpp:171-180 | (replica, index) to slot is injective for replicas below the channel count |
| `HedgedVector.ShiftMaskNeedPow2` | tailslayer/include/tailslayer/hedged_reader.hpp:77-78 | shift and mask compute quotient and remainder for every index if and only if the chunk length is a power of two, which the constructor does not check |
| `HedgedVector.WriteKeepsOthers` | tailslayer/include/tailslayer/hedged_reader.hpp:103-117 | a write to one (replica, index) changes the value stored at no other |
| `ChannelSeparation.ReplicasOnDifferentChannels` | tailslayer/include/tailslayer/utilities.hpp:798-800 | in a region found contiguous, with a channel offset of 2^bit and addresses modulo 2^64: two replicas of any element are on different channels if and only if their distance is odd; with two channels always |
| `ChannelSeparation.SanityCheckPassesForTwo` | README.md:28-65 | the commented-out check that all replicas differ in compute_channel passes if and only if there are at most two replicas, as the repository's README observes |
| `ChannelSeparation.ChannelIsChannelBit` | tailslayer/include/tailslayer/utilities.hpp:798-800 | the channel of an address is its channel bit |
| `ChannelSeparation.ReplicaBlock` | tailslayer/include/tailslayer/hedged_reader.hpp:171-180 | for any number of channels and an aligned region that does not wrap around, replica i lies in a block congruent to the first block + i modulo the channel count |
| `ChannelSeparation.PhysicalOffset` | tailslayer/include/tailslayer/utilities.hpp:312-345 | inside a contiguous region a byte's physical address is the region's plus the byte's offset |
| `ChannelSeparation.SetupMemory` | tailslayer/include/tailslayer/hedged_reader.hpp:183-244 | succeeds if and only if the attempt that stopped the retries has a block that is contiguous as a whole; then a live, page-aligned, contiguous region of at least a huge page; failure leaves no block live |
| `ReaderSetup.ConstructReader` | tailslayer/include/tailslayer/hedged_reader.hpp:57-85 | allocation, search, layout and channels together, under the same condition: on success the reader is empty, its region is a live contiguous huge page, and the replicas of every index share a channel exactly when their numbers have the same parity, so up to two are always apart; on failure no block is left |
| `ReaderSetup.RegionSeparates` | tailslayer/include/tailslayer/hedged_reader.hpp:239-242 | over any contiguous huge region all replicas of all indices are on different channels if and only if there are at most two |
| `Processors.UniqueCoreIDIsUnique` | tailslayer/include/tailslayer/proc.hpp:107-113 | the packed identifier is equal exactly when core and package are |
| `Topology.ProcessorConfigurationVector.ProcessCurrentConfiguration` | tailslayer/source/proc.cpp:137-337 | the three passes build the table described by the records, with its counts; a failed system call leaves it empty |
| `Topology.ProcessorConfigurationVector.GetPhysicalCoreThreadAffinity` | tailslayer/source/proc.cpp:11-29 | appends the masks of the core's threads, in table order, and nothing for a core number above the last |
| `TopologyFacts.TopologyIsGood` | tailslayer/source/proc.cpp:200-336 | for disjoint nonempty single-group cores with one owner package each: one processor per set mask bit, as many per core as its mask has bits, listed by core and bit, single-bit masks inside the core's mask, core ids dense, global ids equal to positions, unique core ids that tell the cores apart; each processor carries the number of the one package whose mask has its bit, and the right usability flag |
| `TopologyFacts.ThreadsAreMaskBits` | tailslayer/source/proc.cpp:452-458 | the manager's thread list of a core is as long as the core's mask has bits |
| `TopologyFacts.CoreProcsFacts` | tailslayer/source/proc.cpp:236-290 | the same for the processors of the first n core records, before packages are known |
| `TopologyFacts.OwnerDecides` | tailslayer/source/proc.cpp:297-326 | with one record that has the bits of a core, every thread of the core ends with that record's id, wherever it stands |
| `TopologyEntries.LastPackageWins` | tailslayer/source/proc.cpp:297-326 | on any hardware a processor ends with the number of the last package record that has its group and bit, and keeps its old id if none has |
| `TopologyEntries.CoversOnBits` | tailslayer/include/tailslayer/proc.hpp:41-43 | a record matches a single-bit affinity if and only if one of its masks is for that group and has that bit |
| `TopologyEntries.IdIsRecordNumber` | tailslayer/source/proc.cpp:205-226 | the id of a record is the number of different first masks before it first appeared |
| `TopologyEntries.FlagsOfCores` | tailslayer/source/proc.cpp:269-278 | on any hardware a processor is usable if and only if its group is allowed and, in the primary group, the process mask has its bit |
| `TopologyEntries.EveryEntryHasItsBit` | tailslayer/source/proc.cpp:236-290 | on any hardware, also with several groups per core, every table entry stands for a set bit of a core record and carries the record's number |
| `TopologyEntries.EveryBitHasItsEntry` | tailslayer/source/proc.cpp:236-290 | and every set bit of a core record has its entry |
| `TopologyFacts.CountsAreRight` | tailslayer/source/proc.cpp:333-335 | the published thread, core and package counts are the numbers of processors, of distinct unique core ids and of different package records |
| `TopologyFacts.EarlyExitMissesNothing` | tailslayer/source/proc.cpp:16-18 | the early return of the affinity lookup skips no thread |
| `TopologyFacts.AffinitiesInOrder` | tailslayer/source/proc.cpp:21-27 | the affinities of a core are exactly those of its threads, in table order |
| `TopologyFacts.InitializeFromHardware` | tailslayer/source/proc.cpp:443-469 | topology pass followed by the manager's initialisation starts in a valid state with every thread free |
| `ThreadManager.DynamicThreadManager.Initialize` | tailslayer/source/proc.cpp:443-469 | refuses unless the own table is empty; otherwise copies the configuration and lists every core as free with all its threads |
| `ThreadManager.DynamicThreadManager.InitializeDefault` | tailslayer/source/proc.cpp:427-440 | succeeds if and only if the table was empty and no core record has a set mask bit, and then claims UINT32_MAX cores and threads; whenever the hardware could be read the manager is not usable |
| `Topology.TableIsEmpty` | tailslayer/source/proc.cpp:236-290 | the table is empty if and only if no core record has a set mask bit |
| `ThreadManager.InitialPoolIsValid` | tailslayer/source/proc.cpp:452-467 | after initialisation the invariant holds if and only if the two claimed counts are the true ones; all threads are free |
| `ThreadManager.DynamicThreadManager.AllocateProcessor` | tailslayer/source/proc.cpp:483-498 | fails exactly when no core is free; otherwise hands out all threads of some free core, whichever the map yields, and keeps the invariant |
| `ThreadManager.DynamicThreadManager.AllocateCore` | tailslayer/include/tailslayer/proc.hpp:226-237 | the first processor of the retired core in the table stands for it; the sentinel when no core is free |
| `ThreadManager.DynamicThreadManager.AllocateThread` | tailslayer/source/proc.cpp:539-573 | fails exactly when no thread is free; takes from a partially free core if there is one, otherwise opens a free core, and keeps the invariant |
| `ThreadManager.DynamicThreadManager.FreeProcessor` | tailslayer/source/proc.cpp:501-536 | the whole new state, also for cores it should not be called on |
| `ThreadManager.DynamicThreadManager.FreeThread` | tailslayer/source/proc.cpp:576-605 | the whole new state, also for processors the manager does not know |
| `ThreadManager.DynamicThreadManager.Destroy` | tailslayer/source/proc.cpp:472-480 | back to an empty manager with zero counters |
| `ThreadPool.TakeCoreKeeps` | tailslayer/source/proc.cpp:483-498 | the invariant survives, and exactly the core's threads, all free before, leave the free set |
| `ThreadPool.TakeThreadKeeps` | tailslayer/source/proc.cpp:539-573 | the invariant survives, and exactly one thread, free before, leaves the free set |
| `ThreadPool.TakeThreadPacks` | tailslayer/source/proc.cpp:549-569 | a thread allocation opens a core only if none is partially free, so it never adds a second partially free core |
| `ThreadPool.FreeThreadsAreListed` | tailslayer/source/proc.cpp:452-467 | the free-thread counter is the total length of the lists of the free and the partially free cores |
| `ThreadPool.CountersAreHonest` | tailslayer/source/proc.cpp:544-553 | a positive counter means that something can be allocated, so the inner emptiness test never fires |
| `ThreadRelease.FreeThreadIsRightFor` | tailslayer/source/proc.cpp:576-605 | freeThread keeps the invariant and frees exactly the given thread if and only if the thread is free already, when nothing changes, or is one of the manager's |
| `ThreadRelease.FreeProcessorIsRightFor` | tailslayer/source/proc.cpp:501-536 | freeProcessor keeps the invariant if and only if it has nothing to do or the core is known and fully allocated; then exactly its threads become free |
| `ThreadRelease.PutPartialCoreBreaks` | tailslayer/source/proc.cpp:525-534 | on a partially free core the counter is raised by threads that are counted already |
| `ThreadRelease.FreeUndoesAllocateThread` | tailslayer/source/proc.cpp:539-605 | allocating a thread and freeing it restores every field |
| `ThreadRelease.FreeUndoesAllocateCore` | tailslayer/source/proc.cpp:483-536 | allocating a core and freeing it restores every field |
| `ThreadManager.StepKeeps` | tailslayer/source/proc.cpp:443-605 | every operation keeps the invariant and the balance: held and free threads are disjoint and together all threads |
| `ThreadManager.RunsKeepBalance` | tailslayer/source/proc.cpp:443-605 | in every state of every run no thread is lost and none is both held and free |
| `ThreadManager.FreshRunsKeepBalance` | tailslayer/source/proc.cpp:443-605 | every run from a freshly initialised manager keeps the invariant, and every thread on exactly one side |
| `ThreadManager.AllocationsPack` | tailslayer/source/proc.cpp:539-573 | in every run of core and thread allocations from a fresh manager at most one core is ever partially free |
| `AdmissionCheck.AdmissionGuarantees` | benchmark/source/main.cpp:280-300 | with equally sized free cores, also beside partially free ones, every request that passes the utilization check can be served, whichever cores the map yields |
| `AdmissionCheck.CheckIsSoundExactly` | benchmark/source/main.cpp:280-300 | the check admits only requests that can be served if and only if for every admissible number k of channels the k largest free cores hold at most two threads more than the average share of k cores, rounded down |
| `AdmissionCheck.GuaranteedExactly` | benchmark/source/main.cpp:286-300 | a request can be served whichever cores the map yields if and only if there are enough cores and the largest ones leave enough threads |
| `AdmissionCheck.LargestIsMost` | tailslayer/source/proc.cpp:483-498 | no choice of k cores has more threads than the k picked largest first |
| `AdmissionCheck.AdmittedChannelsFit` | benchmark/source/main.cpp:280-293 | a request that passes the check leaves at least one core, so every channel gets one |
| `HybridCores.MixedCoresMayFail` | benchmark/source/main.cpp:280-300 | a processor with five two-thread and eight one-thread cores, in the table that the topology pass builds and with the main thread's core taken: four channels and nine stress threads pass the check, yet one choice of cores leaves too few threads |
| `Admission.AllocateChannels` | benchmark/source/main.cpp:287-293 | succeeds exactly when there are enough free cores; then one different core per channel is gone, nothing else |
| `Admission.AllocateStressThreads` | benchmark/source/main.cpp:295-299 | succeeds exactly when there are enough free threads; then that many different threads, free before, are gone |
| `Admission.ServedWhenNotMixed` | benchmark/source/main.cpp:263-274 | the two selections serve all selected arms if and only if single and hedged arms, and quiet and stress arms, are not mixed (or have nothing to differ in); they never exceed the largest need |
| `Admission.AllocatesLeastNeed` | benchmark/source/main.cpp:263-274 | in cores and in stress threads the allocation is the need of the selected arm that needs least |
| `Admission.StressElsewhere` | benchmark/source/main.cpp:287-299 | no stress thread shares a physical core with a channel or the main thread, and no two channels share one |
| `Admission.ExecuteBenchmarks` | benchmark/source/main.cpp:250-300 | every channel gets a different free core; success if and only if those cores leave enough threads, hence always when the check is sound for the pool; on success the roles are isolated, the stress threads are different threads that were free, and exactly they and the channels' cores are no longer free |
| `Launch.PrepareBenchmark` | benchmark/source/app_config.cpp:79-94 | from the hardware records to the allocated benchmark: a good table; success if and only if the check passes and the chosen cores leave enough threads, always when the check is sound, in particular for equal core masks; isolation on success |
| `RunArm.StepKeeps` | benchmark/source/benchmark.cpp:135-255 | every step of every thread keeps the invariant that ties flags, threads and buffers to the main thread's position |
| `RunArmRuns.EveryStateIsSafe` | benchmark/source/benchmark.cpp:17-255 | in every state of every execution: sampling only with all threads created, the signal set and the load on, no pinned stress thread having ended; each sample goes to the next place of an allocated buffer; processing only after all joins, of buffers that are full, or still zero where a thread could not be pinned; freeing only after all processing |
| `RunArmRuns.HelpfulMoves` | benchmark/source/benchmark.cpp:184-203 | no deadlock: until the end, the main thread or the thread it waits for can always move |
| `RunArmRuns.StepLowersRank` | benchmark/source/benchmark.cpp:17-255 | every step changes nothing or lowers a rank that is never negative |
| `RunArmWork.EveryFairRunFinishes` | benchmark/source/benchmark.cpp:135-255 | every fair execution reaches a point from which on all threads have ended, all buffers are freed, the hedged report has been computed exactly once from ready buffers, and every pinned thread has made all its iterations; the signal is then still set |
| `RunArmWork.HedgedReportIsComputed` | benchmark/source/benchmark.cpp:184-208 | by the end of an execution there is exactly one step at which the hedged report is computed; all measurement and stress threads have ended, all buffers are settled and all channels' own processing has been started there |
| `RunArmWork.EveryIterationIsMade` | benchmark/source/benchmark.cpp:36-57 | at any time the number of iterations a thread has made is the one its state claims; for a thread that ended well, all warm-up and sampling iterations |
| `SignalReset.StaleSignalStartsEarly` | benchmark/source/benchmark.cpp:12-14 | for every number of channels, stress threads and samples: an arm started with the signal still set has a run in which the first thread samples before the second one is created or the signal given |
| `SignalReset.ResetIsNeeded` | benchmark/source/benchmark.cpp:12-14 | for every configuration with a channel: in all executions the threads sample together if and only if the arm starts with the signal reset |

## Left out

- PercentilesOf: percentile indices are floors of exact fractions and the mean is a real number; the source computes both in double precision.
- Admitted: the thread-to-core ratio is an exact fraction; the source uses single precision, and its assertion is the method's precondition.
- SortInPlace: std::sort is taken by its contract (ascending, same elements), not by an algorithm.
- PairSamples: sample buffers are sequences and indices unbounded integers; the source's 32-bit index and count are modelled for sample counts that fit. The unused, uninitialised latency maximum of pair_samples_n2 is dropped.
- FindLargestPhysicalRegion: the scanned range ends within the 64-bit address space and its size plus one page is below 2^64, where the source's loop counter would wrap around; address translation does not change during one scan.
- VerifyHugePageIsContiguous: no page may translate to the top address or one page below it (NoTopPages), the values the check uses for failure; page-aligned translations satisfy this (AlignedIsNotTop).
- AllocateLargePageMin: VirtualAlloc, VirtualFree and the available memory are nondeterministic operations on a set of live blocks; available memory is below 2^56 bytes, so that the percentage does not overflow, and large pages are below 2^48 bytes.
- HedgedReader: addresses are relative to the huge page and element values are byte strings; worker threads, the wait and work functions and the destructor are not modelled. The constructor requires a power-of-two chunk, and Read an index below the capacity, as the source leaves both unchecked; a failed assertion in insert is a false result.
- SetupMemory: the privilege call and the Linux branch are left out.
- ProcessCurrentConfiguration: the byte buffer of variable-length records is a sequence of records, and the affinity and group queries are an input.
- TopologyIsGood: needs regular hardware, that is single-group, nonempty, pairwise disjoint cores with exactly one owner package each; the pass itself is modelled without that.
- DynamicThreadManager: counters are unbounded integers; on the runs the invariant covers they never leave the range of 32 bits.
- ExecuteBenchmarks: only up to the first arm; running an arm is modelled separately.
- RunArm: thread creation, joins and each loop iteration are atomic steps over sequentially consistent flags; the number of stress contexts equals the number of stress threads handed over, as its only caller ensures. Buffers count their samples, whose values are the pairing model's input; the zeros in the buffer of a thread that could not be pinned, which the source processes and pairs like samples, are only counted as no samples.
- Actual pinning, priorities, cache flushes, fences and time-stamp counters: a thread's pinning may fail, nothing else of them is modelled; isolation is about what the manager hands out.
- Linux branches: the Linux topology pass, allocateLargePage and allocateLargePageMax are operating-system plumbing.
- process_and_write: a duplicate of process_hedged_data that nothing calls.
- Command line, printing, CSV files, plots, GHz calibration, the refresh-interval probe and the sandbox: input/output or floating-point statistics.

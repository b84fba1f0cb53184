# PAPI with NeoMPX: a Dafny model

PAPI counts hardware events. NeoMPX adds a sampling thread to it and repairs the
sampled series afterwards. This project models the parts of the C sources where the
most can go wrong and proves what they promise, for all inputs, all interleavings
or all runs.

| file | models |
|---|---|
| `Bipartite.dfy` | the recursive counter allocator, `src/papi_bipartite.h` |
| `MpxProtocol.dfy` | the client/worker hand-off of `src/papi_accurate_multiplexing.c` as a transition system |
| `Series.dfy`, `KMeans.dfy` | differences, running sums and the one-dimensional Lloyd clustering of `src/dataprocessing_utils.c` |
| `TeFix.dfy`, `MissingFix.dfy`, `Estimators.dfy`, `Pipeline.dfy` | the passes over the sampled series, and one after the other |
| `CpuRing.dfy` | the reference-counted ring of CPUs, `src/cpus.c` |
| `MemList.dfy` | the list of allocations, `src/papi_memory.c` |
| `EventSets.dfy`, `Overflow.dfy`, `StartStop.dfy` | event sets, their overflow table, start and stop, `src/papi.c` |
| `Sessions.dfy` | runs that mix all calls on event sets |
| `Words.dfy`, `Dispatch.dfy` | machine words, the software overflow dispatcher of `src/extras.c` and the decoder of its vector |
| `NativeCodes.dfy` | native event codes and their enumeration, `src/papi_libpfm3_events.c` |
| `AixGroups.dfy` | POWER event tables and group allocation, `src/aix.c` |
| `Sets.dfy`, `Codes.dfy` | facts about finite sets and sequences; the answer codes of `src/papi.h` |

Code that changes things in place is modelled by classes and by methods over
arrays, each proved against a function or predicate of its input. The lemmas then say
what that function means. A long loop of the source is sometimes cut into several
methods, one for each nested part.

Main results:

- The allocator answers 1 exactly if the events have a system of distinct
  representatives, and then leaves disjoint singletons. Its recursion ends because
  the sum of the set sizes drops.
- In every interleaving the worker executes a prefix of the issued commands, at most
  one behind, and after finalize it has executed all of them, unless an ADD failed.
  A client that follows each START with STOP and ends with finalize is never stuck,
  and its runs are bounded by an explicit number of progress steps.
- The clustering loop ends on all inputs. Each pass that is not the last lowers the
  total squared distance by more than the squared threshold. An empty cluster divides
  0 by 0; the model carries the resulting NaN through the comparisons.
- The estimates of DIRA and TAM have closed forms and bounds, and the corrected
  series rise, start at the first count and are off by less than one for each sample.
- A CPU is in the ring exactly while acquisitions exceed releases, and its count of
  users is the difference.
- The software overflow vector, profiling and the decoder are right for all counts
  exactly if a condition on the counter positions holds, one for each of the three.
- Enumeration of native events stops exactly if the events fit their field or the event
  library does not know one of them.
- Group allocation finds the lowest group that counts all events, and fails exactly
  if there is none.

Where the code does not do what its surroundings suggest, the model follows the code,
and the cases are exact:

- `PAPI_MPX_sampling_init` takes `mut2` after it has created the thread. If the worker
  is faster, its unlock is lost and the client waits for ever
  (`MpxProtocol.RacedInitDeadlocks`); in all other runs the hand-off works.
- `sampling` is never set back to 1, so every START after the first takes one sample
  (`MpxProtocol.OneMeetingPerStart`), and the STOP after it hands the passes a series of
  one, though all of them need two (`MpxProtocol.SeriesLongEnough`,
  `MpxProtocol.SecondStopIsShort`).
- Two overflowing events with the same first counter position cancel in the vector
  (`Dispatch.SharedPositionCancels`, `Dispatch.VectorIsExact`).
- If the first `sigaction` fails, its use of the signal is never given back, so that
  `sigaction` is never tried again; later starts succeed and arm the timer with no
  handler. A start by software leaves a handler installed exactly if it was installed or
  no use had leaked before (`StartStop.Start`; over all runs `StartStop.HandledExactly`, the
  failing run `StartStop.RunsWithoutHandler`). A stop removes no handler either, because
  `sigaction` without an action changes nothing.
- A stop whose timer refuses leaves a set that is marked running and does not count
  (`StartStop.Stop`, `StartStop.RunsWithoutCounting`).
- An attached set can be started twice (`StartStop.StartsTwice`), and one that overflows by
  software keeps its slot when it stops, so that nothing starts there any more
  (`StartStop.SlotStaysTaken`).
- A component that refuses the first overflow entry leaves it in the table with the flag
  clear, where it cannot be dropped until a later call is accepted
  (`Overflow.WhenRepaired`, `Overflow.RefusedEntry`). One that refuses the drop of the only
  entry leaves the flag set, and not even a successful cleanup clears it
  (`Overflow.Cleanup`, `Overflow.FlagOutlivesCleanup`). A cleanup that the component refuses at
  its end has wiped the events already. Dropping one of several entries without a
  handler leaves the others with none (`Overflow.DropLosesTheHandler`).
- `te_fix` can lower an enabled time below the running time. DIRA still rises afterwards
  (`Pipeline.DiraAfterTeFix`), TAM can fall (`Pipeline.TamFallsAfterTeFix`).
- A CPU that cannot be created is counted through a null pointer
  (`CpuRing.CpuList.LookupOrCreate`).
- `_papi_libpfm_ntv_name_to_code` accepts unit mask index 16, for which two of the
  three layouts have no room (`NativeCodes.NameRoundTrip`).
- With more events than the event field can number, enumeration runs in a circle
  (`NativeCodes.EventsWalkGoesRound`).
- `remove_mem_ptr`, and so freeing a block and the cleanup of all allocations, frees the
  list node but not the block it describes; as many blocks leak as nodes were removed
  (`MemList.Memory.LeakedBlocks`).

## Model

| member | source | states |
|---|---|---|
| `Bipartite.BipartiteAlloc` | src/papi_bipartite.h:59-188 | answers true exactly if the events given have an injective assignment to counters of their own sets; then the list holds pairwise disjoint singletons, each within the event's original set; nothing beyond `count` changes; ends by total rank |
| `Bipartite.Propagate` | src/papi_bipartite.h:69-109 | keeps exactly the same assignments, narrows every set; failure means no assignment exists; success leaves every single-counter event mapped and its counter with no other event |
| `Bipartite.ClaimCounter` | src/papi_bipartite.h:84-108 | the scan for one queue entry keeps the assignments, queues no event twice, never outgrows `idx_q`, and fails only if no assignment exists |
| `Bipartite.BuildQueue` | src/papi_bipartite.h:71-77 | queues exactly the events of rank 1, marks none as mapped |
| `Bipartite.PropagateStep` | src/papi_bipartite.h:86-104 | taking the claimed counter from one more event keeps the invariant of the scan, and queues the event exactly if one counter is left to it |
| `Bipartite.PreemptKeepsAssignments` | src/papi_bipartite.h:95-99 | removing the counter of a one-counter event from another event loses no assignment |
| `Bipartite.ClashRefutes` | src/papi_bipartite.h:91-93 | two events on the same single counter have no assignment |
| `Bipartite.QueueFull` | src/papi_bipartite.h:110 | the queue is as long as the list exactly if every event is in it |
| `Bipartite.QueueHasRoom` | src/papi_bipartite.h:64-76 | an event not yet queued always finds room in `idx_q` |
| `Bipartite.CopyUnmapped` | src/papi_bipartite.h:117-143 | both scratch lists hold the unmapped events in order and the copy stays within `num_cntrs` entries |
| `Bipartite.ChooseCounter` | src/papi_bipartite.h:149-160 | fixes the first event to the counter and removes it from all others |
| `Bipartite.TryCounters` | src/papi_bipartite.h:145-171 | finds an allocation of the remaining events, or there is none |
| `Bipartite.TrialRefutes` | src/papi_bipartite.h:162-170 | a failed trial rules out every assignment that gives the first event this counter |
| `Bipartite.RankDrops` | src/papi_bipartite.h:149-163 | narrowing one set strictly lowers the total rank |
| `Bipartite.RemainderIsSmaller` | src/papi_bipartite.h:133-143 | the remainder is not empty, no longer than the list, of no greater rank, and its first event has other than one counter |
| `Bipartite.WriteBack` | src/papi_bipartite.h:177-183 | every unmapped event gets its entry of the solved remainder, the mapped ones stay |
| `Bipartite.SolveRest` | src/papi_bipartite.h:114-187 | solves the unmapped events and merges, or leaves the list and reports that they have no assignment |
| `Bipartite.MergeIsAllocation` | src/papi_bipartite.h:177-186 | settled events and a solved remainder together are an allocation of the original events |
| `Bipartite.SingletonsAllocate` | src/papi_bipartite.h:110-112 | disjoint singletons within the original sets are an assignment |
| `MpxProtocol.LoadStore` | src/papi_accurate_multiplexing.c:750-841 | what a call stores in the shared record is the command the worker reads from it |
| `MpxProtocol.StepInv` | src/papi_accurate_multiplexing.c:637-841 | every step of either thread keeps the invariant, and every step but a further sample or a spurious wakeup lowers the measure |
| `MpxProtocol.ExecutedInOrder` | src/papi_accurate_multiplexing.c:645-727 | executed commands are a prefix of those issued and these of the script; without a failed ADD at most one is outstanding and `status` is overwritten only when it is WAIT; client and worker are never both in the critical section |
| `MpxProtocol.FinalizeMeansAllExecuted` | src/papi_accurate_multiplexing.c:750-762 | when finalize returns, all commands have been executed in order, exactly if no ADD failed |
| `MpxProtocol.FailedAddStopsTheWorker` | src/papi_accurate_multiplexing.c:672-691 | after a failed ADD the worker executes nothing more and at most one more command is issued |
| `MpxProtocol.RacedInitNeverIssues` | src/papi_accurate_multiplexing.c:742-747 | if the worker released the token before init took it, no command is ever issued |
| `MpxProtocol.OneMeetingPerStart` | src/papi_accurate_multiplexing.c:432-469 | both threads meet at the barrier once for each START; every START after the first takes exactly one sample |
| `MpxProtocol.NeverStuck` | src/papi_accurate_multiplexing.c:645-650 | with a disciplined client, no race at init and no failed ADD some progress step is always enabled until all calls have returned: no wakeup is lost |
| `MpxProtocol.HandlerBeforeKill` | src/papi_accurate_multiplexing.c:810-825 | the handler is installed before a disciplined client sends the signal |
| `MpxProtocol.AliveRun` | src/papi_accurate_multiplexing.c:821-825 | a disciplined client's process is never ended by its own signal |
| `MpxProtocol.CompleteRun` | src/papi_accurate_multiplexing.c:637-841 | every disciplined script has a run that executes all of it |
| `MpxProtocol.StopSeries` | src/papi_accurate_multiplexing.c:400-469 | the series a STOP processes has one sample more than the worker took before the signal if the STOP belongs to the first START, and a single sample otherwise |
| `MpxProtocol.SeriesLongEnough` | src/papi_accurate_multiplexing.c:511-527 | in a run that has executed its script every STOP gets the two samples the passes need exactly if the script starts at most once and then sampled before the signal |
| `MpxProtocol.SecondStopIsShort` | src/papi_accurate_multiplexing.c:440-464 | every script that starts twice has a complete run in which a STOP gets one sample |
| `MpxProtocol.ProgressIsBounded` | src/papi_accurate_multiplexing.c:637-841 | the measure pays for every progress step, two more for each spurious wakeup |
| `MpxProtocol.EveryRunCompletes` | src/papi_accurate_multiplexing.c:637-841 | at most 40 n + 53 progress steps for n calls plus two for each spurious wakeup; a run that can progress no further has executed the whole script exactly if init did not race and no ADD failed |
| `MpxProtocol.WorkerWinsTheRace` | src/papi_accurate_multiplexing.c:655-661 | the race at init can happen |
| `MpxProtocol.RacedInitDeadlocks` | src/papi_accurate_multiplexing.c:733-748 | for every disciplined script there is a run that stops with nothing executed |
| `Series.Diff` | src/dataprocessing_utils.c:144-149 | writes the differences of neighbours and nothing else |
| `Series.CumSum` | src/dataprocessing_utils.c:206-217 | rebuilds the series from its first element and the differences, in place; it writes a second element even where the length is below 2 |
| `Series.SumsOfDiffs` | src/dataprocessing_utils.c:206-217 | summing the differences gives the series back |
| `Series.DiffsOfSums` | src/dataprocessing_utils.c:144-149 | differencing the sums gives the differences back |
| `Series.SumsNondecreasing` | src/dataprocessing_utils.c:206-217 | the sums rise exactly if no difference is negative |
| `KMeans.MinArrayIndex` | src/dataprocessing_utils.c:18-33 | the index of the minimum, the lowest such index, NaN never displacing an earlier element |
| `KMeans.MaxArrayIndex` | src/dataprocessing_utils.c:38-53 | the lowest index of a maximum |
| `KMeans.GetCenter` | src/dataprocessing_utils.c:56-65 | the mean of a group, NaN for an empty one |
| `KMeans.Equal` | src/dataprocessing_utils.c:68-78 | true exactly if no pair of centres differs by more than the threshold, where NaN never differs |
| `KMeans.EqualMeans` | src/dataprocessing_utils.c:68-78 | two lists of centres are equal exactly if no two numbers in the same place are more than 0.00001 apart |
| `KMeans.Assign` | src/dataprocessing_utils.c:80-101 | every point is labelled with its nearest centre |
| `KMeans.GatherGroup` | src/dataprocessing_utils.c:102-113 | a row of the group buffer holds exactly the members of a cluster, in order |
| `KMeans.Cluster` | src/dataprocessing_utils.c:80-118 | the new centres are the means of the clusters of nearest points |
| `KMeans.NearestLabel` | src/dataprocessing_utils.c:18-33 | the label of a point is a centre that is a number and at least as near as every other such centre |
| `KMeans.LabelMeans` | src/dataprocessing_utils.c:80-97 | the label is the lowest index of a number at the least distance; without a number at index 0 it is 0 |
| `KMeans.MoveToMean` | src/dataprocessing_utils.c:56-65 | moving a centre to the mean lowers its cost by the size of the cluster times the squared move |
| `KMeans.PassDescends` | src/dataprocessing_utils.c:173-182 | a pass after which `Equal` fails lowers the total squared distance by more than the squared threshold |
| `KMeans.NaNEndsTheLoop` | src/dataprocessing_utils.c:173-182 | if centre 0 is NaN the next pass is the last and every label is 0 |
| `KMeans.PassesBounded` | src/dataprocessing_utils.c:173-182 | the number of passes is bounded by the initial cost over the squared threshold, plus 2, on all inputs |
| `KMeans.LloydSettles` | src/dataprocessing_utils.c:173-191 | the result is one pass from centres that `Equal` accepts as the same |
| `KMeans.KMeans` | src/dataprocessing_utils.c:151-192 | the loop ends within the bound; from k elements whose indices are the multiples of the greatest stride that fits, it makes passes as long as some centre moves by more than the threshold, and leaves the last centres and the labels that belong to them |
| `KMeans.PickInitialCenters` | src/dataprocessing_utils.c:151-172 | with the greatest stride s for which (k-1)*s is an index, centre i is element i*s |
| `KMeans.InitialCentersAre` | src/dataprocessing_utils.c:163-171 | that stride and these centres exist for every series and every number of clusters from two |
| `KMeans.LloydRuns` | src/dataprocessing_utils.c:173-182 | the loop is a run of passes from its start to its result in which every pass but the last moves some centre by more than the threshold, and the last moves none |
| `KMeans.Mode` | src/dataprocessing_utils.c:194-204 | the lowest label of maximal count |
| `KMeans.CountIsMultiplicity` | src/dataprocessing_utils.c:200-201 | the count of a label is the number of its occurrences |
| `KMeans.CountsSumToSamples` | src/dataprocessing_utils.c:194-204 | the counts of all labels sum to the number of samples |
| `TeFix.Run` | src/papi_accurate_multiplexing.c:133-152 | replaces the time series, in place, by the sums of the fixed steps |
| `TeFix.CentersAre` | src/papi_accurate_multiplexing.c:142-143 | the centres used are the end of a run of passes that starts at evenly spaced steps |
| `TeFix.FixedStepMeaning` | src/papi_accurate_multiplexing.c:133-152 | a step keeps its value if its nearest centre is the mode and otherwise becomes the truncated mode centre, which is a number; the mode is a cluster of maximal membership |
| `TeFix.FixedTimes` | src/papi_accurate_multiplexing.c:133-152 | the first time stays, and so does every step labelled with the mode |
| `TeFix.ModeIsNumber` | src/papi_accurate_multiplexing.c:146-149 | the centre used as replacement is never NaN |
| `TeFix.FixedTimesNondecreasing` | src/papi_accurate_multiplexing.c:133-152 | rising times stay rising |
| `MissingFix.ComputeKnnMean` | src/dataprocessing_utils.c:219-237 | the truncated mean of the clipped window around the index, 0 for a negative `knn_k` other than -1 |
| `MissingFix.KnnMeanBounds` | src/dataprocessing_utils.c:219-237 | for nonnegative values the mean lies between 0 and their maximum |
| `MissingFix.KnnOfConstant` | src/dataprocessing_utils.c:219-237 | where all k+1 elements from index - ceil(k/2) to index + floor(k/2) hold c, the mean is c |
| `MissingFix.KnnRaised` | src/dataprocessing_utils.c:219-237 | for nonnegative values, raising any one of these elements by k+1 raises the mean by exactly 1 |
| `MissingFix.KnnOutside` | src/dataprocessing_utils.c:219-237 | changing an element outside leaves the mean |
| `MissingFix.KnnOfNothing` | src/dataprocessing_utils.c:219-237 | for a `knn_k` below -1 the mean is 0 |
| `MissingFix.WindowNeverClips` | src/dataprocessing_utils.c:219-237 | at the indices the pass fills, the clipping never fires, for every `knn_k` |
| `MissingFix.SortedTestCounts` | src/papi_accurate_multiplexing.c:342-369 | the element at len/3 of the sorted differences is positive exactly if at most len/3 differences are not |
| `MissingFix.SortedPermutes` | src/papi_accurate_multiplexing.c:342-369 | the sorted copy has the same elements |
| `MissingFix.NonPositiveCounts` | src/papi_accurate_multiplexing.c:353-356 | the count the test rests on is the number of indices whose step is not positive |
| `MissingFix.FilledKeeps` | src/papi_accurate_multiplexing.c:342-369 | nonzero and out-of-window differences survive the in-place filling |
| `MissingFix.FilledBounds` | src/papi_accurate_multiplexing.c:342-369 | filling raises differences and never beyond the original maximum |
| `MissingFix.FixedNondecreasing` | src/papi_accurate_multiplexing.c:342-369 | a rising series stays rising, starts the same, is nowhere lowered and has no greater step than before |
| `MissingFix.FixedKeepsSteps` | src/papi_accurate_multiplexing.c:342-369 | nonzero and out-of-window steps stay; the series changes only if more than a third of the steps are not positive |
| `MissingFix.FixedGap` | src/papi_accurate_multiplexing.c:358-366 | a gap within the bounds becomes the mean of its k+1 neighbours, the earlier ones as already filled, the later ones as they were |
| `MissingFix.Run` | src/papi_accurate_multiplexing.c:342-369 | the pass computes this series in place |
| `Estimators.DiraRawToEst` | src/papi_accurate_multiplexing.c:114-130 | the loop computes the estimate |
| `Estimators.DiraClosedForm` | src/papi_accurate_multiplexing.c:114-130 | for a ratio of at least 1 the estimate is an arithmetic series plus a fractional tail |
| `Estimators.DiraBounds` | src/papi_accurate_multiplexing.c:114-130 | and lies between the ratio times the smaller and times the greater count |
| `Estimators.Dira` | src/papi_accurate_multiplexing.c:273-305 | replaces the counts, in place, by the DIRA series, whose steps `DiraSteps` gives |
| `Estimators.DiraSteps` | src/papi_accurate_multiplexing.c:287-302 | step i of the result from the samples: with a the step of the count, b the next one (0 after the last) and x the ratio of the steps of enabled and running time (1 where the latter stands still), the truncated progression from a with slope (b-a)/x over the whole slots plus the fraction at b, and for x below 1 the truncated a + x*b |
| `Estimators.EstimateIsDrift` | src/papi_accurate_multiplexing.c:114-130 | the loop over the slots sums to this for every positive ratio |
| `Estimators.DiraBelowOne` | src/papi_accurate_multiplexing.c:114-130 | for a ratio below 1 the estimate is the count and the ratio times the next one |
| `Estimators.DiraOnCounts` | src/papi_accurate_multiplexing.c:273-305 | for rising counts and positive ratios, also below 1, the result rises, starts the same, and sample t is below the untruncated sum by at most t |
| `Estimators.DiraUnscaled` | src/papi_accurate_multiplexing.c:273-305 | where the counter was never switched off the counts come back unchanged |
| `Estimators.TruncationError` | src/papi_accurate_multiplexing.c:273-305 | summing truncated nonnegative estimates loses at most one a step |
| `Estimators.Tam` | src/papi_accurate_multiplexing.c:207-237 | replaces the counts, in place, by the TAM series, whose steps `TamSteps` gives |
| `Estimators.TamSteps` | src/papi_accurate_multiplexing.c:220-234 | step i of the result from the samples: half the first scaled step for i = 0, and the scaled trapezoid of two neighbouring steps plus half their difference after it, truncated |
| `Estimators.TamEstimateAtLeast` | src/papi_accurate_multiplexing.c:207-237 | estimate i+1 is at least difference i |
| `Estimators.TamOnCounts` | src/papi_accurate_multiplexing.c:207-237 | for rising counts the result rises and sample t is never below raw sample t-1 |
| `Estimators.TamRisesExactly` | src/papi_accurate_multiplexing.c:207-237 | on all inputs the result rises exactly if no difference, scaled by one minus its ratio, outweighs the one before it, scaled by one plus that ratio, by 2 or more |
| `Estimators.TamTelescopes` | src/papi_accurate_multiplexing.c:207-237 | the untruncated total is the weighted trapezoid sum plus half of first minus last difference |
| `Estimators.TamUnscaled` | src/papi_accurate_multiplexing.c:207-237 | where the counter was never switched off the estimate is the difference before, half the first one for the first |
| `Pipeline.CoverSurvives` | src/papi_accurate_multiplexing.c:557-590 | `te_fix` keeps the enabled time above the running time exactly if no replaced step ran longer than the truncated mode centre |
| `Pipeline.RatiosSurvive` | src/papi_accurate_multiplexing.c:557-590 | and the ratios positive exactly if that centre is positive or no replaced step ran |
| `Pipeline.DiraAfterTeFix` | src/papi_accurate_multiplexing.c:557-590 | then DIRA on rising counts rises, starts the same and loses at most one a sample, also where ratios have fallen below 1 |
| `Pipeline.DiraThenMissingFix` | src/papi_accurate_multiplexing.c:557-606 | and `missing_fix` after both keeps that and is nowhere below |
| `Pipeline.TamAfterTeFix` | src/papi_accurate_multiplexing.c:557-590 | TAM keeps its lower bound where the cover survives |
| `Pipeline.TamFallsAfterTeFix` | src/papi_accurate_multiplexing.c:557-590 | on given rising series TAM alone rises and TAM after `te_fix` falls |
| `CpuRing.CpuList.Lookup` | src/cpus.c:28-56 | finds the CPU exactly if it has users, and then only rotates the ring so that it is the head; otherwise the ring is unchanged |
| `CpuRing.CpuList.Insert` | src/cpus.c:242-269 | the ring stays circular and gets the entry as head, the old head last |
| `CpuRing.CpuList.LookupOrCreate` | src/cpus.c:58-83 | the increment goes through a null pointer exactly if the CPU has no users and memory or init_thread fails, and then nothing has changed; otherwise it adds one user; the entry is the head; a known CPU is only rotated to, an unknown one is new and in front of the ring |
| `CpuRing.CpuList.InitializeCpu` | src/cpus.c:274-303 | puts a new entry without users at the head, the old head last; its first user makes the tally right; after a failure there is no entry and the ring is as before |
| `CpuRing.CpuList.FindPredecessor` | src/cpus.c:144-186 | the walk ends at the true predecessor, also for the head and a ring of one |
| `CpuRing.CpuList.Remove` | src/cpus.c:144-186 | the ring without the entry, still circular |
| `CpuRing.CpuList.Free` | src/cpus.c:189-239 | gives back one user, and unlists the entry exactly if it was the last |
| `CpuRing.CpuList.RingIsTheBalance` | src/cpus.c:58-239 | over every run a CPU is in the ring exactly while it was acquired more often than released, and `num_users` is the difference |
| `CpuRing.UsersAreTheBalance` | src/cpus.c:58-239 | counting users up and down gives acquisitions minus releases |
| `MemList.Memory.Insert` | src/papi_memory.c:382-398 | the doubly linked list stays well-formed with the node in front |
| `MemList.Memory.Remove` | src/papi_memory.c:404-417 | the doubly linked list stays well-formed without the node |
| `MemList.Memory.Malloc` | src/papi_memory.c:123-166 | 0 exactly for size 0, no block or no node, and then the list is unchanged; otherwise the block leads the list with its size |
| `MemList.Memory.Realloc` | src/papi_memory.c:76-110 | the entry is redescribed in its place; without a block nothing changes; a null pointer allocates |
| `MemList.Memory.Free` | src/papi_memory.c:225-243 | exactly the entry of the pointer leaves the list, and its block stays allocated |
| `MemList.Memory.ValidFree` | src/papi_memory.c:190-222 | answers 1 exactly for live pointers, whose entry then leaves the list while the block stays allocated |
| `MemList.Memory.GetMemPtr` | src/papi_memory.c:343-354 | the back pointer before a live block leads to its own node |
| `MemList.Memory.Overhead` | src/papi_memory.c:279-299 | the sum of the live sizes, and a constant for each live node, as the type asks |
| `MemList.Memory.CleanupAll` | src/papi_memory.c:302-329 | the loop ends with an empty list and all blocks still allocated |
| `MemList.Memory.LeakedBlocks` | src/papi_memory.c:404-417 | over every run as many blocks are allocated but not live as nodes have been removed, so the allocated blocks are the live ones exactly while none has |
| `MemList.TotalWithout` | src/papi_memory.c:279-299 | removing an entry lowers the total by its size |
| `EventSets.LookupCode` | src/papi_internal.c:1005-1018 | the first event with the code, PAPI_EINVAL exactly if there is none |
| `EventSets.ScanReaches` | src/papi.c:7084-7095 | the scan of an event's positions reaches exactly those that no negative one precedes |
| `EventSets.PutAligned` | src/papi.c:5417-5440 | storing an entry keeps codes distinct and indices those of the codes |
| `EventSets.PutMeans` | src/papi.c:5424-5440 | after storing, the given entry is the only one of its code, and an entry of any other code is there exactly if it was before |
| `EventSets.DroppedAligned` | src/papi.c:5396-5416 | so does dropping one, and its code is gone |
| `EventSets.DropMeans` | src/papi.c:5396-5416 | after dropping, no entry has the code and all others are there exactly if they were before |
| `Overflow.Call` | src/papi.c:5326-5483 | the table changes exactly if no check refuses, to the old one with `Entry(code, index, threshold, threshold)` as its only entry of the code, or with none, and all other entries kept; otherwise everything is unchanged and the error is that of the first check that fails; the arrays stay aligned and within `num_cntrs`; after success OVERFLOWING is set exactly if there are entries, and these are held in forced software or in hardware, never both; where the component refuses, the kind bits are those of the call, and a right flag becomes wrong exactly if the call stored the first entry or dropped the only one; a wrong flag is put right, where it was clear, exactly by success, where it was set, exactly by a change of the table; an overflowing set that had a handler keeps one exactly if the call brought one, changed nothing, or dropped the only entry |
| `Overflow.RefusalMeans` | src/papi.c:5334-5390 | the checks pass exactly for a stopped set with a component, not attached, that holds the event, with a threshold that is not negative, a handler and threshold for the first entry, and room; each of the first refusals with its own answer |
| `Overflow.AppliedMeans` | src/papi.c:5396-5483 | a call that passes the checks changes the table exactly if the code to drop has an entry, or the entry to store does not mix forced software with hardware; what the component is asked and the bits after success are spelled out |
| `Overflow.WhenRepaired` | src/papi.c:5326-5483 | where entries are left with the flag clear, exactly the calls with a positive threshold, a handler, a known event, room for an entry, no mixing of kinds, and a component that accepts put the flag right |
| `Overflow.RefusedEntry` | src/papi.c:5384-5460 | after a refused first entry the drop is PAPI_EINVAL, and after a later accepted call the entry can be dropped |
| `Overflow.DropLosesTheHandler` | src/papi.c:5447 | dropping one of two entries with no handler leaves an overflowing set with nobody to call |
| `Overflow.UpdateTable` | src/papi.c:5396-5440 | drops the entry, or stores the given one whether the code had an entry or not; an absent code to drop is PAPI_EINVAL and mixing forced software with hardware PAPI_ECNFLCT, without change |
| `Overflow.Compact` | src/papi.c:5404-5416 | closing the gap drops exactly one entry from all four arrays |
| `Overflow.ShiftedEnds` | src/papi.c:5404-5411 | shifting the tail down by one is dropping the entry |
| `Overflow.Finish` | src/papi.c:5448-5482 | success leaves flag, handler and kind of overflow in agreement with the table, a refusal by the component leaves the flag alone |
| `Overflow.DropAll` | src/papi.c:3455-3464 | removing entry 0 `total` times empties the table and clears the flag, or stops at the first refusal |
| `Overflow.Clear` | src/papi_internal.c:1754-1857 | wipes the events, and if the component agrees removes them with the overflow part and the component |
| `Overflow.Cleanup` | src/papi.c:3428-3491 | answers the first refusal; success on a set with a component leaves no events, an empty table and no component, and the overflowing bit set exactly if it was set with an empty table; table and events get out of step exactly if entries were left with the flag clear and the component refuses at the end |
| `Overflow.FlagOutlivesCleanup` | src/papi.c:3455-3491 | after a refused drop of the only entry a successful cleanup leaves the overflowing bit set |
| `Words.Ffsll` | src/extras.c:498-518 | one more than the position of the lowest one-bit of a 64-bit word, 0 for the word 0, found by halves |
| `Dispatch.ReadEntries` | src/extras.c:277-305 | every reached deadline is moved on, the vector, the flag and the overshoots are those of the reached deadlines |
| `Dispatch.RearmedMeans` | src/extras.c:284-291 | every entry whose count has reached its deadline gets the count plus its threshold as the next one, and nothing else changes |
| `Dispatch.AlignedIndices` | src/papi.c:5417-5440 | the tables PAPI_overflow keeps name every event at most once, as the exact conditions below need |
| `Dispatch.VectorParity` | src/extras.c:277-295 | whatever the table, a bit is set exactly if an odd number of entries on it reached their deadline |
| `Dispatch.VectorBits` | src/extras.c:277-295 | with distinct first positions a bit is set exactly if it is the first position of an event whose deadline was reached |
| `Dispatch.SharedPositionCancels` | src/extras.c:289-293 | for any two entries with the same first position there are counts at which exactly these two reach their deadlines and the vector is empty |
| `Dispatch.VectorIsExact` | src/extras.c:277-295 | the vector is right for all counts exactly if no two entries share their first position |
| `Dispatch.ProfileBits` | src/extras.c:309-343 | the bit loop ends and profiles the owners of the bits, without overshoot in hardware, failing exactly if a bit has no owner |
| `Dispatch.OwnerReaches` | src/extras.c:316-328 | the owner of a bit is the first entry whose event has it among the positions that no negative one precedes, and there is none exactly if no entry has |
| `Dispatch.ProfiledInOrder` | src/extras.c:309-343 | profiling goes through the bits from the lowest up, each with its owner and the overshoot of that entry, and stops at the first bit without owner |
| `Dispatch.ProfilesTheFired` | src/extras.c:309-343 | if no entry reaches the first position of a later one, each event whose deadline was reached is profiled once, no other, with its own overshoot, and as many as there are bits |
| `Dispatch.ProfilingIsExact` | src/extras.c:309-343 | profiling is right for all counts exactly under that condition |
| `Dispatch.BitIsOwned` | src/extras.c:316-337 | every bit of a software vector belongs to an entry that reached its deadline, and has an owner |
| `Dispatch.DispatchSoftware` | src/extras.c:270-343 | fails exactly if the read fails, and then tells nobody; otherwise every reached deadline becomes the count plus the threshold, and if there is one, the profiler is told if the set profiles and the handler if not |
| `Dispatch.DispatchHardware` | src/extras.c:296-343 | tells the profiler, without overshoot, exactly if the set profiles, and otherwise the handler about the first entry's bit or the component's vector; fails exactly if profiling meets a bit without owner |
| `Dispatch.DispatchSignal` | src/extras.c:235-348 | without an overflowing set in the thread's slot nobody is told; a set of another component or thread is PAPI_ENOCMP or PAPI_EBUG; otherwise one of these, and only software moves deadlines |
| `Dispatch.FiringsAreSpaced` | src/extras.c:284-291 | by threshold and deadline alone, the k-th firing comes no earlier than the deadline plus k thresholds |
| `Dispatch.EntriesFireAlone` | src/extras.c:277-295 | along every run of interrupts each entry of a table fires by its own threshold, deadline and counts alone |
| `Dispatch.EntryFiringsAreSpaced` | src/extras.c:277-295 | so the k-th firing of an entry of the table comes no earlier than its deadline plus k thresholds |
| `Dispatch.DecodesTheFired` | src/papi.c:7054-7100 | if no simple event reaches the first position of another event's entry, the decoder finds exactly the simple events whose deadline was reached |
| `Dispatch.DecodingIsExact` | src/papi.c:7054-7100 | decoding is right for all counts exactly under that condition |
| `Dispatch.DecodedOnce` | src/papi.c:7080-7099 | and then no event is found twice |
| `Dispatch.GetOverflowEventIndex` | src/papi.c:7054-7100 | writes the decoded indices as far as the array reaches, and their number; refuses exactly an empty vector, an empty array or an empty set |
| `Dispatch.DecodedExactly` | src/papi.c:7080-7099 | an event is found exactly if it is not derived or a compound and one of its positions that no negative one precedes is in the vector |
| `Dispatch.DecodedInOrder` | src/papi.c:7080-7099 | an event is found once for each bit of the vector it matches, by ascending bits, and for each bit in the order of the set |
| `StartStop.Start` | src/papi.c:2634-2798 | succeeds exactly if nothing refuses, and then the set runs, counts and holds its slot (an attached one only if it overflows by software); otherwise the first refusal is the answer: no component, an occupied slot, no events, a dirty context, the signal, the component, the timer; and a stopped set is as before; slots and signal count keep their invariants; a set started by software has a handler exactly if it was installed or no use had leaked |
| `StartStop.StartSoftware` | src/papi.c:2731-2767 | the same for the branch with signal and timer; a failure of the component or the timer gives the signal back |
| `StartStop.Stop` | src/papi.c:2851-2934 | succeeds exactly for a running set that nothing refuses, and then the set is stopped and the slot is free, unless the set is attached, whose slot stays; otherwise the first refusal is the answer, and marks, slots and signal count are as before; the set counts exactly if it is marked running, unless only the timer refused |
| `StartStop.OneSetPerSlot` | src/papi.c:2665-2668 | no two running sets that are not attached share a thread and component |
| `StartStop.FreshSets` | src/papi.c:2634-2934 | sets as created satisfy the invariants |
| `StartStop.IdleSignal` | src/extras.c:442-460 | without leaked uses the use count is 0 exactly if no set runs with software overflow |
| `StartStop.HandledExactly` | src/extras.c:403-460 | over every run of starts and stops the sets running by software have a handler exactly if it is installed or nothing but the leaked use is counted; without a leaked use they always have; it is installed exactly if the first sigaction worked |
| `StartStop.Signal.Start` | src/extras.c:403-440 | counts the use even when installing the handler fails, installs it only in the first use, and keeps that the first sigaction decides |
| `StartStop.Signal.Stop` | src/extras.c:442-460 | gives one use back and leaves the handler as it is |
| `StartStop.RunsWithoutHandler` | src/papi.c:2731-2767 | a failed first start and then a successful one leave a set running by software without handler |
| `StartStop.RunsWithoutCounting` | src/papi.c:2913-2917 | a timer that refuses to stop leaves a set marked running that does not count |
| `StartStop.StartsTwice` | src/papi.c:2665-2668 | an attached set is started twice with success and ends up marked stopped and running |
| `StartStop.SlotStaysTaken` | src/papi.c:2928-2934 | after the stop of an attached set that overflows by software its slot is still taken, and every start there is PAPI_EISRUN |
| `Sessions.CallOverflow` | src/papi.c:5326-5483 | keeps slots, signal count and the tables of all sets |
| `Sessions.CallCleanup` | src/papi.c:3428-3491 | keeps slots and signal count, and the tables of all sets unless it wipes events that the set's table still names; success leaves no events and no component |
| `Sessions.NoStartAfterCleanup` | src/papi.c:2653-2656 | after a successful cleanup a start is PAPI_ENOCMP |
| `Sessions.NeverWrong` | src/extras.c:251-259 | in every run a thread's slot holds no set of another component or thread |
| `Sessions.CallStart` | src/papi.c:2634-2798 | keeps slots, signal count and the tables of all sets |
| `Sessions.CallStop` | src/papi.c:2851-2934 | keeps slots, signal count and the tables of all sets |
| `Sessions.Interrupt` | src/extras.c:216-348 | keeps slots, signal count and the tables of all sets |
| `NativeCodes.LayoutsHaveFields` | src/papi_libpfm3_events.c:518-531 | the constants of the layouts describe adjacent event and mask fields below the flag bit |
| `NativeCodes.RoundTrip` | src/papi_libpfm3_events.c:47-95 | decoding gives the encoded event and mask back exactly if the event exists and both fit their fields |
| `NativeCodes.CodeIsSum` | src/papi_libpfm3_events.c:47-60 | as a number a code is 0x40000000, the mask times two to the power of the shift and the event |
| `NativeCodes.PrepareUmask` | src/papi_libpfm3_events.c:97-114 | the indices of the one-bits, strictly ascending, and nothing else written |
| `NativeCodes.EncodeNativeEvent` | src/papi_libpfm3_events.c:61-75 | the loop sets the bit of every index in the mask field |
| `NativeCodes.EncodePrepared` | src/papi_libpfm3_events.c:47-114 | encoding the prepared indices of a mask is encoding the mask |
| `NativeCodes.EncodedRoundTrip` | src/papi_libpfm3_events.c:61-95 | a list of indices comes back from its code exactly if all are below the width of the field |
| `NativeCodes.NameRoundTrip` | src/papi_libpfm3_events.c:183-224 | a name whose mask indices pass the guard gets a code that means the same exactly if no index is 16 or the field is wider than 16 |
| `NativeCodes.NameRefused` | src/papi_libpfm3_events.c:183-224 | a name is refused exactly if it has more than 16 masks or an index above 16, or is unknown; one whose masks are rejected gets the code without mask |
| `NativeCodes.IndexSixteenIsDropped` | src/papi_libpfm3_events.c:183-224 | index 16 passes the guard but comes back only from Pentium 4 codes |
| `NativeCodes.EventsWalk` | src/papi_libpfm3_events.c:359-389 | enumeration from the first event meets every event once, in order, and stops after the last one or the first one the library does not know |
| `NativeCodes.EnumerationFromFirst` | src/papi_libpfm3_events.c:359-389 | ENUM_FIRST answers 0x40000000 whatever code it is given, and from there the walk meets every event |
| `NativeCodes.EventsWalkGoesRound` | src/papi_libpfm3_events.c:383-389 | with more known events than the field can number the walk repeats itself for ever |
| `NativeCodes.EventsWalkEnds` | src/papi_libpfm3_events.c:359-389 | the walk stops exactly if the events fit the field or the library does not know one whose number does |
| `NativeCodes.EnumerationRefuses` | src/papi_libpfm3_events.c:359-412 | an unknown code or event is PAPI_ENOEVNT, and an unknown modifier PAPI_EINVAL |
| `NativeCodes.CombosWalk` | src/papi_libpfm3_events.c:390-396 | enumeration of combinations meets every mask of the event once, then stops |
| `NativeCodes.UmasksWalk` | src/papi_libpfm3_events.c:397-410 | enumeration of unit masks meets every single-bit mask once, then stops |
| `AixGroups.Tables.Record` | src/aix.c:117-135 | one list entry updates the entry of its name or adds one |
| `AixGroups.Tables.RecordLists` | src/aix.c:105-136 | the table has one entry for each name of the lists, with the counters it is listed for and its id on each |
| `AixGroups.Tables.MarkGroups` | src/aix.c:72-88 | the bitmap has exactly the ids of the groups that count the event on a counter |
| `AixGroups.Tables.StoreRows` | src/aix.c:90-103 | every group's row is stored under its id |
| `AixGroups.Tables.Setup` | src/aix.c:67-140 | table, name map, bitmaps and group rows agree with the lists and groups given |
| `AixGroups.CommonGroups` | src/aix.c:165-171 | the bitmap of the ids common to all events |
| `AixGroups.LowestGroup` | src/aix.c:173-178 | the lowest id in a bitmap, -1 exactly if it is empty |
| `AixGroups.Tables.DoCounterAllocation` | src/aix.c:159-193 | the lowest id common to all bitmaps, and for each event the last counter that matches the group's row |
| `AixGroups.CommonIds` | src/aix.c:165-171 | a common id is the id of a group that counts all events, and the other way round |
| `AixGroups.OneEventPerPosition` | src/aix.c:183-190 | two events counted at one position of a group are the same event |
| `AixGroups.Tables.AllocateRegisters` | src/aix.c:200-251 | succeeds exactly if all events are known and some group counts them all; then the group is the lowest such, each event is counted at its position, distinct events at distinct positions; a failure leaves the positions alone |

## Left out

- CAM and DCAM (`src/papi_accurate_multiplexing.c:172-205`, `239-271`): they rest on `log` and `pow`.
- `outlier_fix`, `boundry_fix` and the helpers they use: they need square roots; the low-side line of `boundry_fix` compares instead of assigning.
- `estimation` and the driver that reads the sample file and chooses the passes: file I/O and arithmetic of one line.
- Rounding of `double` and overflow of `long long`: numbers are real and integer; NaN from an empty cluster is modelled.
- KMeans.KMeans: at least two clusters, since one divides by zero in the choice of the initial centres.
- MissingFix.ComputeKnnMean: `knn_k` is not -1, which divides by zero; the pass itself is modelled for -1 as well where it fills nothing.
- Estimators.Dira: at least two samples, as for every pass; and where the enabled time does not move although the running time does, the ratio is 0, the estimate NaN and its conversion to an integer undefined, so such series are excluded.
- TeFix.Run: at least two samples. With one, the pass clusters no points and adds scratch memory to the element behind the series; which STOPs get one is `MpxProtocol.SeriesLongEnough`.
- MissingFix.Run: at least two samples, for the same reason.
- Estimators.Tam: at least two samples; with one the source writes in front of its scratch array.
- MpxProtocol.StepInv: unlocking `mut2` while nobody holds it is undefined for POSIX mutexes and taken to do nothing; memory ordering outside the mutexes is that of interleaving.
- An ADD fails in the model for either error that ends the worker; `papi_mpx_add_event_func` returns PAPI_EINVAL only when the set refuses the event, because `==` binds tighter than `&` in its own check.
- Bipartite.BipartiteAlloc: the scratch lists can always be allocated; the components' own event records and the Pentium 4 register rules behind the six helpers are abstracted to sets of counters.
- CpuRing.CpuList.LookupOrCreate: what an increment through a null pointer does; the memory a failed init_thread leaves behind and the locks are left out.
- MemList.Memory.Malloc: blocks come from outside as fresh nonzero numbers; the byte layout of prolog and epilog and the checks for overruns in debug builds are left out.
- MemList.Memory.Overhead: the sum is not wrapped to 32 bits.
- MemList.Memory.Free: a pointer that is neither null nor live reads its back pointer from foreign memory in the source and is excluded.
- Overflow.Call: programming the component is a parameter; kernel profiling is left out.
- Overflow.Cleanup: the end of hardware profiling answers through a parameter; sets multiplexed in software, the memory given back, and that the component's wiping covers event places beyond those in use are left out. A set that got a component again after a cleanup is not modelled.
- StartStop.Start: sets multiplexed in software are left out, and so are the CPU's own slot, which neither call reads, and the reprogramming of hardware overflow when the context is dirty. Component, signal and timer answer through parameters.
- StartStop.Stop: reading the counters, copying the values and flushing a kernel profile are left out.
- Dispatch.DispatchSignal: the lookup of thread and running set, and what the profiler does with an entry.
- AixGroups.Tables.Setup: the native table has room for all names and group ids are distinct and below the number of bits in a bitmap; the source checks the first of these nowhere and the second only after writing the bitmap.
- AixGroups.Tables.AllocateRegisters: at least one event is requested; for none the source reads an uninitialised entry.
- Platform substrates, timers, locks, option handling, preset tables, Fortran wrappers and profiling histograms.

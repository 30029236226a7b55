# Thunderfish tracking core in Dafny

This project models the core of the thunderfish wave-type electric fish
tracker and proves properties of that model. The tracker turns the
fundamental frequencies detected at each time step into per-fish frequency
trajectories. A trajectory ("fish") is an array with one slot per time step,
holding either a frequency or NaN.

- **First-level sorting** (`first_level_fish_sorting` with its `clean_up`,
  module `FishSorting`). Each candidate frequency goes to a tolerated fish
  that is still free at that step, preferring the fish missing for the
  fewest steps. Otherwise it starts a new fish. Fishes with at most 10
  samples are periodically deleted.
- **Filtering** (`exclude_fishes`, module `FishFilter`).
- **Rise detection** (`detect_rises` / `detect_single_rise`, module
  `RiseDetection`). A rise is a sharp frequency peak followed by a slow
  decay.
- **Cutting at rises** (`cut_at_rises`, module `RiseCutting`).
- **Combining fragments** (`combine_fishes`, module `FishCombining`). A
  score matrix is built, and then the best-scored pair is merged repeatedly.
- **Peak and trough detection** (`detect_peaks_troughs`, `detect_peaks`,
  `accept_peak`, `trim`, `trim_to_peak`, module `PeakDetection`).
- **Billauer's `peakdet` and `create_outp_folder`** (module `Auxiliary`).

Modelling conventions:

- A fish is a `seq<Option<real>>`; `None` stands for NaN.
- The detection rate `dpm` (detections per minute) is a parameter. The
  source computes it from the time array.
- `np.median` is a function parameter.
- Every `sys.exit` and every crash the code reaches on a reachable input
  becomes a `Failure` of a `Result`.
- Loops that update lists become methods with loop invariants. Each is
  proved against a specification function or a stated property.
- Module `Trajectory` holds the shared helpers (counting samples,
  order-preserving selection, per-time-step columns as multisets).
- Module `Wrappers` holds `Option` and `Result`.

Code and documentation disagree in several places. The model follows the
code:

- `detect_single_rise` works with 10 s, 30 s and 3 s windows; its
  documentation speaks of minutes.
- The outer loop of `detect_rises` stops when the valid samples span no
  more than 10 s plus one step.
- A fish that has been missing too long is "forgotten" by setting its last
  frequency to the sentinel 0, not by a separate state.
- `cut_at_rises` prunes only the original fishes; the new fragments are
  never pruned.
- `combine_fishes` scores a pair only when the two fishes share at most 20
  time steps, but it refuses to merge a pair that shares 20 or more.
- `np.argsort` sorts with quicksort by default, which is not stable, so
  the order among equal keys is up to NumPy. The model breaks such ties
  by position.
- The `peakdet` docstring says a maximum is "preceded (to the left) by a
  value lower by DELTA". The code confirms a maximum by a *later* drop, and
  the first maximum needs no earlier drop (`Auxiliary.FirstMaxUnpreceded`).

## Model

| member | source | states |
|---|---|---|
| Trajectory.Absent | thunderfish/tracker.py:159 | a new fish of `n` slots holds no sample anywhere |
| Trajectory.ValidIndices | thunderfish/tracker.py:320 | the valid indices are increasing, as many as the samples, and name exactly the slots that hold one |
| Trajectory.LongMask | thunderfish/tracker.py:148 | a fish is kept exactly when it has more than 10 samples |
| FishSorting.CleanUp | thunderfish/tracker.py:137-154 | the three parallel lists keep, in order and aligned, exactly the entries of fishes with more than 10 samples, which is `Clean` of the lists; the popped fishes are exactly those with at most 10 |
| FishSorting.CleanUpSplits | thunderfish/tracker.py:148-152 | the kept lists stay equally long; every kept fish has more than 10 samples and every removed one at most 10 |
| FishSorting.Clean | thunderfish/tracker.py:148-154 | the clean-up keeps the lists aligned and keeps only fishes of the input with more than 10 samples |
| FishSorting.CleanFits | thunderfish/tracker.py:148-152 | the clean-up leaves every fish array, kept or deleted, at its length |
| FishSorting.PickAmong | thunderfish/tracker.py:175-194 | among the first `k` fishes: none exactly when none is both within tolerance and free at this step; otherwise such a fish that comes no later, in the try order of the two argsorts, than every other such fish |
| FishSorting.PickAmongNext | thunderfish/tracker.py:188-194 | looking at one more fish replaces the pick exactly when that fish is eligible and tried before the current pick |
| FishSorting.PickUnique | thunderfish/tracker.py:175-194 | an eligible fish tried before every other eligible fish is the fish picked, so the try order alone decides the pick |
| FishSorting.PickFish | thunderfish/tracker.py:175-194 | the loop returns `Pick`: no fish exactly when no fish is both within tolerance and free at this step; otherwise such a fish with no fewer misses than any other, first in the try order of the two argsorts |
| FishSorting.NewFish | thunderfish/tracker.py:182-183 | a new fish holds exactly one sample, `f` at slot `s` |
| FishSorting.Assign | thunderfish/tracker.py:174-199 | the candidate goes to slot `s` of the picked fish, which then remembers `f` and has its miss counter reset, or to one new fish appended at the end; no other fish changes |
| FishSorting.AssignColumns | thunderfish/tracker.py:174-199 | assigning a candidate adds it to its step's column and to no other, and changes no other slot |
| FishSorting.AssignCandidate | thunderfish/tracker.py:174-199 | the method computes `Pick` and then `Assign`: the candidate is written into the picked fish, which is eligible and first in the try order, or into a new fish when no fish is eligible; the step's column gains exactly `f` |
| FishSorting.ColumnWrite | thunderfish/tracker.py:190 | writing into an absent slot adds the frequency to that time step's column only |
| FishSorting.ColumnNew | thunderfish/tracker.py:182-183 | appending a new fish adds its frequency to that time step's column only |
| FishSorting.AssignAll | thunderfish/tracker.py:174-199 | assigning a step's candidates in order keeps the lists aligned and never removes a fish |
| FishSorting.AssignAllColumns | thunderfish/tracker.py:174-199 | after all candidates of a step, that step's column has gained exactly the candidates, as a multiset, and no other column has changed |
| FishSorting.AssignAllSlots | thunderfish/tracker.py:174-199 | after all candidates of a step, every slot outside the step is unchanged and the new fishes are absent outside the step |
| FishSorting.AssignTimestep | thunderfish/tracker.py:174-199 | the loop over the candidates computes `AssignAll`, the assignment of each candidate in its given order |
| FishSorting.Misses | thunderfish/tracker.py:201-206 | the bookkeeping keeps the fish arrays and the lengths of the lists |
| FishSorting.UpdateMisses | thunderfish/tracker.py:201-206 | the loop computes `Misses`: a fish missing for at least the limit is forgotten (last frequency 0); the miss counter grows exactly for the fishes without a sample at this step |
| FishSorting.CleanFacts | thunderfish/tracker.py:168-172 | the periodic clean-up leaves only fishes with more than 10 samples, keeps the shapes and the sentinel in front, and splits every column between the kept and the deleted fishes without loss |
| FishSorting.StepOf | thunderfish/tracker.py:167-206 | one time step keeps the lists aligned and every fish array at its length |
| FishSorting.SortTimestep | thunderfish/tracker.py:167-206 | one pass of the outer loop computes `StepOf`: the clean-up when due, the assignment of the step's candidates in order, then the miss bookkeeping |
| FishSorting.StepFacts | thunderfish/tracker.py:167-206 | one time step keeps the shapes, leaves earlier columns split as before (the fishes the clean-up deletes join the deleted ones), and splits the new column into exactly the step's candidates |
| FishSorting.AssignShaped | thunderfish/tracker.py:174-199 | assigning a step's candidates to fishes that are empty from that step on keeps every fish at full length and empty after the step, keeps the sentinel in front, leaves the earlier columns as they were, and puts exactly the candidates into the step's column |
| FishSorting.ScheduleDue | thunderfish/tracker.py:165-172 | the loop's test `enu == clean_up_idx` holds exactly when the clean-up is due: at the positive multiples of `int(30 * dpm)`, or only at step 0 when that is 0 |
| FishSorting.ScheduleNext | thunderfish/tracker.py:168-172 | moving the index on by `int(30 * dpm)` after a clean-up keeps it the next due step |
| FishSorting.MultiplesApart | thunderfish/tracker.py:165-172 | two different due steps lie at least one period apart, so a skipped index is never due |
| FishSorting.SortRun | thunderfish/tracker.py:159-206 | after any number of steps, the lists are aligned and every fish array has one slot per step plus the sentinel slot |
| FishSorting.RunStart | thunderfish/tracker.py:159-162 | the sentinel fish alone, with slot 0 set, starts the loop in the invariant |
| FishSorting.StepGrows | thunderfish/tracker.py:167-206 | one more time step extends the invariant by that step |
| FishSorting.StepSorted | thunderfish/tracker.py:167-206 | the run after one more step is still in the invariant |
| FishSorting.RunSorted | thunderfish/tracker.py:159-206 | after every number of steps, the fish arrays are absent after the current slot, the sentinel marker is only in the first fish, and each step's candidates are split exactly between the fishes and the deleted ones |
| FishSorting.SortRunStep | thunderfish/tracker.py:167-206 | the run after one more step is `StepOf` of the run so far, with the clean-up when `CleanDue` |
| FishSorting.SortAll | thunderfish/tracker.py:159-206 | the loop over the time steps computes `SortRun`, cleaning up exactly at the steps the schedule makes due |
| FishSorting.DropSentinelAsWritten | thunderfish/tracker.py:215-216 | the statement as written fails exactly when no fish is left (or the first has no slot); otherwise it drops at most the first fish |
| FishSorting.SelectSentinel | thunderfish/tracker.py:137-154 | deleting fishes keeps the sentinel marker, if it survives, only in the first fish |
| FishSorting.DropSentinel | thunderfish/tracker.py:214-216 | the corrected step, taken before the slicing, drops only a first fish that carries the sentinel marker, always drops it, and leaves no marked fish behind |
| FishSorting.EmptySortingFails | thunderfish/tracker.py:209-216 | when every fish has at most 10 samples, the final clean-up leaves none, and the code as written fails while the corrected step returns no fish |
| FishSorting.SentinelKeptAsWritten | thunderfish/tracker.py:209-216 | a sentinel that took ten candidates survives the clean-up; the step as written keeps it with only 10 samples, the corrected step drops it |
| FishSorting.TailsConserve | thunderfish/tracker.py:211-212 | slicing off slot 0 of every fish shifts every column down by one |
| FishSorting.MoveFirst | thunderfish/tracker.py:215-216 | moving the first fish to the deleted ones keeps every column's split |
| FishSorting.FinishFacts | thunderfish/tracker.py:209-216 | the final clean-up and dropping a marked sentinel fish keep every column's split; the fishes left carry no marker and have more than 10 samples |
| FishSorting.UnmarkedFacts | thunderfish/tracker.py:214-216 | after dropping a marked sentinel fish, no fish left carries the marker |
| FishSorting.TailFacts | thunderfish/tracker.py:211-212 | after the slicing, every fish has one slot per time step, keeps its more than 10 samples, and the columns are split as before, shifted by one |
| FishSorting.SortedFacts | thunderfish/tracker.py:113-223 | every result fish has one slot per time step and more than 10 samples; every candidate of every time step ends up exactly once, at its own step, in a result fish or in a deleted one |
| FishSorting.FirstLevelFishSorting | thunderfish/tracker.py:113-223 | the method returns `Sorted`, the final step applied to the run of the loop; every result fish has one slot per step and more than 10 samples, and every candidate of every time step ends up exactly once in a result fish or in a deleted fish, at its own time step |
| FishFilter.OccurMask | thunderfish/tracker.py:503-505 | a fish's flag is set exactly when it has at least `min_occure_time * dpm` samples |
| FishFilter.ExcludeFishes | thunderfish/tracker.py:490-507 | the survivors are exactly the fishes that occur long enough, and nothing else |
| FishFilter.ExcludeIdempotent | thunderfish/tracker.py:490-507 | filtering the survivors again changes nothing |
| FishFilter.ExcludeKeepsOrder | thunderfish/tracker.py:503-507 | the survivors are the fishes at strictly increasing positions, so their relative order is kept |
| RiseDetection.CountAtMost | thunderfish/tracker.py:271 | the number of candidate peak positions never exceeds the valid indices, and excludes the last one when it lies beyond the bound |
| RiseDetection.LastBelow | thunderfish/tracker.py:273 | `help_idx` is the last position below the bound: everything after it is at or above the bound |
| RiseDetection.Between | thunderfish/tracker.py:298 | the samples within the 10 s before the peak are exactly the valid indices in that window, still in order |
| RiseDetection.LastGap | thunderfish/tracker.py:299-301 | the chosen gap is at least 3 s, and every later gap is shorter; no choice means no gap is long enough |
| RiseDetection.ShiftedStartGap | thunderfish/tracker.py:298-304 | the reported start is a valid sample at most 10 s before the peak, and it is either the peak or preceded by at least 3 s without samples |
| RiseDetection.ScanEnds | thunderfish/tracker.py:280-306 | the end returned is the first candidate where the scan stops (a sample not below the peak, 10 minutes reached, or the end condition) when that candidate drops by the duration-dependent threshold; none exactly when no such first end exists |
| RiseDetection.NoFirstEnd | thunderfish/tracker.py:282-306 | a scan that breaks, or runs out of candidates, before accepting an end means the peak has no first end |
| RiseDetection.FirstEndAt | thunderfish/tracker.py:292-295 | the first candidate meeting the end condition with a large enough drop is the peak's first end |
| RiseDetection.RiseFromValid | thunderfish/tracker.py:302-304 | a reported rise starts at a valid sample before its end and records the fish's frequencies there |
| RiseDetection.DetectSingleRise | thunderfish/tracker.py:242-307 | no rise and only the last valid index exactly when no candidate peak has a first end; otherwise the rise of the first such peak, ending at its first end, with the valid indices after it |
| RiseDetection.SingleRiseFound | thunderfish/tracker.py:297-304 | a peak with a first end, after peaks without one, yields the result `detect_single_rise` promises |
| RiseDetection.TryPeak | thunderfish/tracker.py:273-306 | the end returned for a candidate peak is its first end; no end means the candidate is not accepted, because it is no peak or has no first end |
| RiseDetection.FirstRiseUnique | thunderfish/tracker.py:271-304 | two first accepted peaks, with their ends and rises, are the same peak, end and rise |
| RiseDetection.RisesAgree | thunderfish/tracker.py:242-307 | two results found for the same valid indices carry the same rise and the same remaining indices |
| RiseDetection.FirstEndUnique | thunderfish/tracker.py:280-306 | a peak has at most one first end |
| RiseDetection.FoundUnique | thunderfish/tracker.py:271-304 | the first accepted peak and its end determine a single rise |
| RiseDetection.SingleRiseUnique | thunderfish/tracker.py:242-307 | the result `detect_single_rise` promises is unique: the rise and the remaining indices are determined by the fish and its valid indices |
| RiseDetection.FishRises | thunderfish/tracker.py:320-327 | the rises are the results of the loop's calls of `detect_single_rise`, each on the indices the previous call left, until they span at most 10 s plus one step, with a trailing empty result dropped; every rise is genuine, and consecutive rises do not overlap |
| RiseDetection.StepsExtend | thunderfish/tracker.py:321-323 | one more call on the remaining indices extends the calls made so far |
| RiseDetection.Advance | thunderfish/tracker.py:321-323 | one pass of the loop strictly shrinks the valid indices and keeps the loop's invariant: the non-empty results so far are the rises, chained in order, each the result of the call on the previous remainder |
| RiseDetection.Finish | thunderfish/tracker.py:320-327 | when the loop stops, the results are the rises with at most one trailing empty result, and the rises are the loop's rises for the fish |
| RiseDetection.StepsSpread | thunderfish/tracker.py:321 | every call of the loop got indices spanning more than 10 s plus one step |
| RiseDetection.CallsAgree | thunderfish/tracker.py:321-323 | two runs whose call gets the same indices get the same result and the same remaining indices |
| RiseDetection.RunsAgree | thunderfish/tracker.py:320-327 | two runs of the loop that reach the same indices make the same calls from there on |
| RiseDetection.RisesOfUnique | thunderfish/tracker.py:320-327 | the rise list of a fish is determined by the fish |
| RiseDetection.ChainExtend | thunderfish/tracker.py:322-324 | each new rise ends before the remaining valid indices, so the list stays ordered and genuine |
| RiseDetection.DetectRises | thunderfish/tracker.py:226-330 | one rise list per fish, which is the loop's result for that fish; every rise is genuine for its fish and the rises of a fish are disjoint and in order |
| RiseCutting.Before | thunderfish/tracker.py:529 | the cut fish keeps its samples before the cut index and is cleared from there on |
| RiseCutting.From | thunderfish/tracker.py:527-528 | the new fish is cleared before the cut index and equals the fish from there on |
| RiseCutting.Singletons | thunderfish/tracker.py:530 | the new rise lists hold one rise each, the fish's rises from the last to the first |
| RiseCutting.CutFishAt | thunderfish/tracker.py:525-531 | one fish's cuts: the fish becomes its remainder, its new fishes are appended, and its rise list moves to single-rise lists at the end |
| RiseCutting.CutPieces | thunderfish/tracker.py:521-531 | after the first loop, the fishes are the remainders, the new fishes are all fragments, and the rise lists are empty for originals and single for fragments |
| RiseCutting.PruneOriginals | thunderfish/tracker.py:532-536 | the kept originals are exactly those with more than 10 samples left, and one empty rise list remains per kept original |
| RiseCutting.CutAtRises | thunderfish/tracker.py:510-541 | the corrected return: kept remainders then new fishes, with rise lists that stay aligned with them |
| RiseCutting.CutAtRisesAsWritten | thunderfish/tracker.py:536-541 | the return as written, which skips the pruning of fishes when nothing was cut |
| RiseCutting.CutFishShape | thunderfish/tracker.py:525-528 | cutting creates one new fish per rise, each as long as the fish |
| RiseCutting.CutFishConserves | thunderfish/tracker.py:527-529 | at every time step the remainder and the new fishes together hold exactly the fish's sample |
| RiseCutting.CutFishRemainder | thunderfish/tracker.py:529 | the remainder equals the fish before its earliest rise start and is cleared from every rise start on |
| RiseCutting.CutFishFragment | thunderfish/tracker.py:526-529 | the fragment of a rise is cleared before the rise's start and equals the fish from there up to the next rise start |
| RiseCutting.CutAligned | thunderfish/tracker.py:536-541 | the corrected result has as many rise lists as fishes |
| RiseCutting.FragmentsCarryTheirRise | thunderfish/tracker.py:527-530 | every new fish carries exactly one rise, taken from the fish it was cut from, and is a part of that fish |
| RiseCutting.CutConserves | thunderfish/tracker.py:521-541 | no sample is lost or duplicated: returned fishes and deleted remainders together hold the input's samples at every step |
| RiseCutting.ShortFishMisaligned | thunderfish/tracker.py:538-539 | with no rise at all and a fish of 5 samples, the return as written keeps the fish but drops its rise list |
| FishCombining.FirstIdx | thunderfish/tracker.py:382-384 | the first valid index of a fish: a sample, with none before it |
| FishCombining.LastIdx | thunderfish/tracker.py:382-384 | the last valid index of a fish: a sample, with none after it |
| FishCombining.OccurOrder | thunderfish/tracker.py:386 | every fish appears once, sorted by first index, ties by position |
| FishCombining.RiseStartingAt | thunderfish/tracker.py:400-401 | the rise found starts at the requested index and is in the list; none found means no rise starts there |
| FishCombining.LatestBefore | thunderfish/tracker.py:402-404 | the last sample of the earlier fish below the compare index, with no sample between it and that index |
| FishCombining.Score | thunderfish/tracker.py:419-428 | a score is non-negative, needs a sample of the later fish at its compare index, and is given only when the fishes share at most 20 steps |
| FishCombining.Entry | thunderfish/tracker.py:395-428 | a fish is scored only against a fish that starts earlier, when it starts inside that fish or less than `max_time_tolerance` minutes after its end |
| FishCombining.CompareIdxRange | thunderfish/tracker.py:399-417 | the compare index lies between the fish's first sample and its end |
| FishCombining.CostRow | thunderfish/tracker.py:388-433 | the intended row has one entry per fish and scores only fishes that occur earlier |
| FishCombining.CostRowAsWritten | thunderfish/tracker.py:432-433 | the row as written has one entry per fish |
| FishCombining.EarlierListed | thunderfish/tracker.py:393 | the fishes before a position in the occurrence order are exactly the fishes that occur earlier |
| FishCombining.ScoreRow | thunderfish/tracker.py:393-428 | the inner loop computes the intended row of the fish |
| FishCombining.BuildCosts | thunderfish/tracker.py:379-433 | the score matrix holds, for every fish, its intended row |
| FishCombining.ScoreRowAsWritten | thunderfish/tracker.py:393-433 | the inner loop as written changes only the fish's row, to the row as written: stored only when the scan reaches fish 0 with a score found |
| FishCombining.BuildCostsAsWritten | thunderfish/tracker.py:379-433 | the matrix as written is the one described by `CostRowAsWritten` |
| FishCombining.RowAtZeroAsWritten | thunderfish/tracker.py:432-433 | the row stored as written holds exactly the scores against fishes from fish 0 on in the order |
| FishCombining.EarlyFishGetsNoRow | thunderfish/tracker.py:432 | a pair the intended matrix scores is missing from the matrix as written, so it is never combined |
| FishCombining.Best | thunderfish/tracker.py:437-442 | none exactly when no score is left; otherwise the smallest score, first in row-major order |
| FishCombining.MinScore | thunderfish/tracker.py:456-465 | the smaller of two optional scores, where a missing score never wins |
| FishCombining.Redirect | thunderfish/tracker.py:455-465 | every row's score for the merged fish moves to the fish it merged into when smaller; no score is added |
| FishCombining.Cleared | thunderfish/tracker.py:455-466 | after a merge the score matrix stays square |
| FishCombining.MergePair | thunderfish/tracker.py:451-471 | the samples and rises move to the earlier fish, scores are redirected, the merged fish's row is cleared, and at least one score disappears |
| FishCombining.MergeCovers | thunderfish/tracker.py:451-452 | merging keeps the set of time steps at which some fish is present |
| FishCombining.MergeSamples | thunderfish/tracker.py:451-452 | merging invents no sample: every sample comes from the input at the same time step |
| FishCombining.MergeKeepsRises | thunderfish/tracker.py:468-471 | merging keeps every rise (as a multiset) |
| FishCombining.MergePointsBack | thunderfish/tracker.py:455-466 | after merging into an earlier fish, scores still only point to fishes that occur earlier |
| FishCombining.DropEmpty | thunderfish/tracker.py:480-487 | the fishes without samples and their rise lists are deleted, the others kept in order |
| FishCombining.Round | thunderfish/tracker.py:444-471 | a round keeps one rise list per fish, a square matrix and fishes of one length |
| FishCombining.CombineRound | thunderfish/tracker.py:441-474 | a round is the `Round` of the best pair: it drops a pair sharing 20 or more steps, or merges it; either way the invariants hold and a score disappears |
| FishCombining.BestUnique | thunderfish/tracker.py:437-442 | a matrix has at most one best pair |
| FishCombining.GreedyScored | thunderfish/tracker.py:437-442 | every round but the last starts from a matrix that still holds a score |
| FishCombining.RoundsAgree | thunderfish/tracker.py:437-471 | two runs at the same stage make the same next round |
| FishCombining.RunsMatch | thunderfish/tracker.py:435-474 | two runs of the loop that meet at a stage agree from there on and stop together |
| FishCombining.CombinedUnique | thunderfish/tracker.py:333-487 | the result of `combine_fishes` is determined by its input and its score matrix |
| FishCombining.TraceExtend | thunderfish/tracker.py:437-474 | one more round on the best pair extends a run |
| FishCombining.CombineFishes | thunderfish/tracker.py:333-487 | the result is the live fishes, with their rise lists, of the run that merges the best pair until no score is left; no time step loses its last sample, no sample is invented, no rise is lost, every fish left holds a sample, and the lists stay aligned |
| PeakDetection.Run | thunderfish/peakdetection.py:72-148 | after `n` samples, every detection's extremum lies before the sample that revealed it, both below `n` |
| PeakDetection.AcceptPeakEntry | thunderfish/peakdetection.py:594-598 | the entry is the index, then the time when given, then the value at the index; the threshold is not changed |
| PeakDetection.DetectPeaksTroughs | thunderfish/peakdetection.py:5-150 | the result is the scan's peak and trough lists; it fails exactly for a non-positive threshold, mismatched lengths, or empty data |
| PeakDetection.Sample | thunderfish/peakdetection.py:72-148 | the loop body advances the scan one step and appends that step's detection to the matching list |
| PeakDetection.DetectPeaks | thunderfish/peakdetection.py:153-265 | the peak list equals the first list of `detect_peaks_troughs`, with the same failures |
| PeakDetection.RunScanned | thunderfish/peakdetection.py:72-148 | the scan invariant holds after every sample |
| PeakDetection.EventsJustified | thunderfish/peakdetection.py:72-148 | every peak is the largest sample since the previous trough and at least `threshold` above the revealing sample (troughs likewise), and peaks and troughs alternate |
| PeakDetection.AlternatingPositions | thunderfish/peakdetection.py:72-148 | the indices of peaks and troughs strictly interleave, starting with the first detection's kind |
| PeakDetection.IndexOutput | thunderfish/peakdetection.py:127-142 | without time and callbacks, the lists are the detections' indices, all inside the data |
| PeakDetection.IndicesAlternate | thunderfish/peakdetection.py:72-148 | peak and trough indices strictly alternate, whichever comes first |
| PeakDetection.ReportsAreIndices | thunderfish/peakdetection.py:127-142 | without time and callbacks, each reported entry is the index of its detection |
| PeakDetection.Trim | thunderfish/peakdetection.py:636-651 | both lists are cut to a common length; one of them is left whole, and both results are prefixes |
| PeakDetection.TrimIdempotent | thunderfish/peakdetection.py:636-651 | trimming twice changes nothing |
| PeakDetection.TrimToPeak | thunderfish/peakdetection.py:654-674 | the first trough is dropped exactly when it precedes the first peak; the results are equally long, as long as possible, and slices of the inputs |
| PeakDetection.TrimToPeakPairs | thunderfish/peakdetection.py:654-674 | on alternating lists, each peak is paired with the trough after it |
| PeakDetection.TrimDropsAtMostOne | thunderfish/peakdetection.py:649-651 | on alternating lists, `trim` drops at most one entry of each |
| Auxiliary.DetRun | thunderfish/Auxiliary.py:51-80 | after the first sample both running extremes exist; each equals the sample at its recorded position; recorded extrema lie among the samples seen |
| Auxiliary.PeakDet | thunderfish/Auxiliary.py:10-82 | the loop returns the tables the scan describes; it fails on a length mismatch, then on a non-positive `delta` |
| Auxiliary.Visit | thunderfish/Auxiliary.py:55-80 | the loop body keeps the variables in step with one more sample of the scan |
| Auxiliary.DetRunScanned | thunderfish/Auxiliary.py:51-80 | the scan invariant holds from the first sample on: extrema alternate, are separated by more than `delta`, and each is the extreme of its window |
| Auxiliary.MaxConfirmed | thunderfish/Auxiliary.py:67-68 | every reported maximum has a later sample more than `delta` below it |
| Auxiliary.MinConfirmed | thunderfish/Auxiliary.py:74-75 | every reported minimum has a later sample more than `delta` above it |
| Auxiliary.MaxPreceded | thunderfish/Auxiliary.py:74-80 | every maximum after the first has an earlier sample more than `delta` below it |
| Auxiliary.MinPreceded | thunderfish/Auxiliary.py:67-73 | every minimum has an earlier sample more than `delta` above it |
| Auxiliary.MaxOfWindow | thunderfish/Auxiliary.py:57-59 | each maximum is the largest sample between the minima around it |
| Auxiliary.MinOfWindow | thunderfish/Auxiliary.py:61-63 | each minimum is the smallest sample between the maxima around it |
| Auxiliary.PeakDetTables | thunderfish/Auxiliary.py:31-82 | for positive `delta` the tables exist, `maxtab`/`maxidx` and `mintab`/`minidx` are equally long, maxima number the minima or one more, and consecutive extrema differ by more than `delta` |
| Auxiliary.PeakDetPositions | thunderfish/Auxiliary.py:37-38 | without `x` the positions are sample indices below `len(v)`, maxima and minima taking turns in increasing order |
| Auxiliary.FirstMaxUnpreceded | thunderfish/Auxiliary.py:51-71 | on `[5, 0]` with `delta` 1 the maximum at index 0 is reported with no sample before it |
| Auxiliary.Split | thunderfish/Auxiliary.py:132 | `str.split` yields at least one piece, and no piece contains the separator |
| Auxiliary.JoinSplit | thunderfish/Auxiliary.py:132 | joining the pieces of a split gives back the string |
| Auxiliary.SplitJoin | thunderfish/Auxiliary.py:132 | splitting a join of separator-free pieces gives back the pieces |
| Auxiliary.TwoBeforeLast | thunderfish/Auxiliary.py:132 | the slice `[-3:-1]` is the two items before the last one, or as many as there are |
| Auxiliary.EnsureSlash | thunderfish/Auxiliary.py:136-138 | the path gains at most one character, keeps its text as a prefix, and ends with `/` |
| Auxiliary.EnsureSlashIdempotent | thunderfish/Auxiliary.py:136-138 | adding the slash twice is adding it once |
| Auxiliary.OutputFolder | thunderfish/Auxiliary.py:130-141 | fails exactly when the path has no `.` or either folder name is empty; otherwise starts with the output path and ends with `/` |
| Auxiliary.FieldFolderParts | thunderfish/Auxiliary.py:132 | the field folder names the two directories holding the file, or fewer for a shallow path |
| Auxiliary.OutputFolderShape | thunderfish/Auxiliary.py:134-141 | with no slash to add, the folder is the output path, the field folder and a closing `/` |
| Auxiliary.BareFileNameFails | thunderfish/Auxiliary.py:132-137 | a bare file name gives an empty field folder, whose last character the code cannot read |

## Left out

- Printing, plotting, saving `.npy` files, progress output and the
  configuration helpers of `tracker.py` are left out. They do no tracking.
- `extract_fundamentals`, `fish_tracker` and `main` are left out. They are
  the spectral front end and the I/O driver.
- `butter_lowpass`, `butter_lowpass_filter`, `load_trace` and
  `conv_to_single_ch_audio` are left out. They are filtering, audio I/O and
  an external `avconv` call.
- The time array is left out. `dpm` is a parameter and times are not
  stored.
- NaN inputs to the peak detectors and frequencies that are NaN inside a
  candidate list are not modelled. Real numbers are exact; floating point
  rounding is not modelled.
- `np.isscalar` checks are left out; the model's thresholds are scalars by
  type.
- Callbacks of the peak detectors are left out, except `accept_peak`. An
  arbitrary `check_peak_func` and a changing threshold are not modelled.
- `detect_dynamic_peaks_troughs`, `detect_dynamic_peaks`,
  `accept_psd_peaks` and `trim_closest` are left out. They are outside the
  modelled core.
- FishSorting.FirstLevelFishSorting: returns the result of the corrected
  final step (see Findings). The sentinel marker is tested before the
  slicing, and an empty clean-up gives no fish instead of an `IndexError`.
  `DropSentinelAsWritten` models the step as written.
- FishSorting.Sorted: the corrected final step, as for
  `FirstLevelFishSorting`.
- FishSorting.PickFish: the order among tolerated fishes with equal miss
  counts and equal frequency differences follows the model's tie-break by
  position. NumPy's default argsort does not fix that order. The fewest
  misses property holds for any tie-break.
- PeakDetection.TrimToPeak: modelled on integer index lists only. The
  source also accepts time arrays.
- RiseDetection.DetectRises: requires every fish to hold a sample. The
  code would crash on `non_nan_idx[-1]` for a fish without samples, and the
  pipeline never passes one.
- FishCombining.CombineFishes: requires every fish to hold a sample and all
  fishes to be equally long, as the sorting produces them. A fish without
  samples would crash at `non_nan_idx[0]`.
- FishCombining.CombineFishes: proved for the corrected score matrix (see
  Findings). `BuildCostsAsWritten` models the matrix as written.
- In-place mutation of NumPy arrays shared between callers (aliasing) is
  not modelled. Every stage returns new sequences.
- `Auxiliary.PeakDet` returns its tables as sequences of reals. The
  source's integer `maxidx`/`minidx` without `x` are these reals.

## Findings

| source | as written | input that shows it | evidently intended | confidence | as-written member | corrected member |
|---|---|---|---|---|---|---|
| thunderfish/tracker.py:215-216 | `fishes[0][0]` is read after the final clean-up without checking that a fish is left | recordings where every fish has at most 10 samples, so the clean-up deletes all of them | return no fish | not executed | FishSorting.DropSentinelAsWritten, FishSorting.EmptySortingFails | FishSorting.DropSentinel |
| thunderfish/tracker.py:214-216 | the test for the sentinel fish reads slot 0 after the slicing, which is time step 0, not the sentinel marker | ten time steps with one 0.1 Hz candidate each and a frequency tolerance of 0.5: the sentinel takes every candidate, survives the clean-up with 11 samples and is returned with 10 | test the marker before the slicing and drop the sentinel fish | not executed | FishSorting.DropSentinelAsWritten, FishSorting.SentinelKeptAsWritten | FishSorting.DropSentinel |
| thunderfish/tracker.py:538-539 | when no fish was cut, the unpruned `fishes` are returned, although their rise lists were pruned | one fish of 5 samples and no rises: one fish is returned with no rise list | return `fishes[return_idx]` in both branches | not executed | RiseCutting.CutAtRisesAsWritten, RiseCutting.ShortFishMisaligned | RiseCutting.CutAtRises |
| thunderfish/tracker.py:432 | a fish's score row is stored only when the scan over the earlier fishes reaches fish 0 | fish 1 seen at steps 0-1 and fish 0 from step 2 at the same frequency: the pair is scored but never stored | store the row of every fish after scoring all earlier fishes | not executed | FishCombining.CostsAsWritten, FishCombining.EarlyFishGetsNoRow | FishCombining.Costs |

# DSA-Visualizer, modelled in Dafny

DSA-Visualizer is a React front end that animates sorting, searching and data-structure
operations. This project models its core:

- **Step traces.** Each sorting and searching algorithm on the algorithm detail page
  produces a trace of steps. A step is a snapshot of the array, the indices it highlights,
  and comparison, swap and found flags. The seven generators are modelled over a private
  copy of the input array, as the page runs them.
  - Bubble, selection, insertion, merge and quick sort are imperative methods on an `array<int>`.
  - Linear and binary search are methods over the snapshot sequence.
- **Playback.** The player consumes one step per tick and shows the rounded progress and
  the comparison and swap counters. It can be reset, started, paused, ticked and run to the end.
- **The race page.** It races several algorithms on simulated progress. It has the
  algorithm selection, the per-algorithm entries, the tick of the race interval, the
  leaderboard ranking, and the custom-input dialog that parses a typed array.
- **The data-structure pages.** The array, stack, queue and linked-list pages, each a
  class. Each has dialogs, the edit handlers, the one-second step timer of its animation,
  and the disabled state of its buttons.

What the model proves:
- every sort ends on a sorted permutation of its input;
- every snapshot of bubble, selection and quick sort is a permutation of the input. For
  insertion sort this holds for its placement steps and its final step; its shift steps
  show a cell duplicated;
- the exact comparison counts of selection sort;
- the placement count of insertion sort;
- a search's verdict holds exactly when the target is present;
- playback counters equal the trace's flags, for a player started from a reset view (zero
  counters) with a single live interval;
- every raced algorithm completes within a bounded number of ticks;
- the leaderboard is a permutation in the documented order;
- custom input reports exactly the documented errors;
- last in, first out and first in, first out for the stack and queue pages;
- each data-structure page keeps its invariant through every handler and timer firing.

Where the written description of the system and the code differ, the model follows the code:

- **Early 100 %.** The player's progress for step `k` rounds `k / total * 100` to the nearest
  integer (the model rounds the exact fraction; see "## Left out").
  It reaches 100 before the last step as soon as `total >= 200`.
  - `Playback.EarlyHundred` shows `Progress(199, 200) == 100`.
  - `Playback.ProgressBelowHundred` gives the exact condition.
- **Binary-search comparisons.** The found step is flagged as a comparison too, so the
  player counts one more comparison than the windows probed: searching `[1, 2, 4, 9]` for 9
  counts four, not three (`BinarySearch.NineInFour`).
- **Merge sort's last step.** Merge sort sorts a copy (`mergeSortHelper([...arr], …)`).
  Its closing step therefore shows the array as it was, and the sorted array is the
  snapshot just before it.
- **Linked-list highlight.** The insert and remove handlers clear the index field before
  the step timer reads it. `parseInt("")` is `NaN`, so those animations highlight no traversal.
- **`handleCustomInput` sorts in place.** It stores the array and then sorts it
  (`input.sort`). The stored array is therefore the sorted one whenever binary search is
  selected on a searching page.
- **React state.** State updates are applied at once. Each handler reads the state as its
  closure saw it.

## Model

| member | source | states |
|---|---|---|
| BubbleSort.BubbleSortTrace | src/algorithm-detail.tsx:181-225 | the trace ends with a neutral step on a sorted permutation of the input; every snapshot is a permutation of the input; every swap step directly follows the comparison of the same adjacent pair; an already sorted input stops after one pass, giving `n` steps (`n - 1` comparisons and the final step) |
| BubbleSort.Pass | src/algorithm-detail.tsx:186-214 | one outer pass keeps the array a permutation of the input and settles one more largest element at the end; a pass with no swap leaves the array unchanged and sorted after exactly `n - i - 1` comparison steps; a sorted array never swaps |
| BubbleSort.CompareAndSwap | src/algorithm-detail.tsx:189-208 | the inner body records the comparison step, swaps exactly when the left cell is larger, and records the swap step after it |
| BubbleSort.WellFormedMeans | src/algorithm-detail.tsx:189-208 | a trace built step by step has only permutation snapshots, and each swap step comes right after the comparison of the same pair |
| SelectionSort.SelectionSortTrace | src/algorithm-detail.tsx:228-272 | the trace ends with a neutral step on a sorted permutation of the input; every step is a permutation snapshot with in-range indices; exactly `n (n - 1) / 2` comparison steps; at most `n - 1` swap steps |
| SelectionSort.ScanMin | src/algorithm-detail.tsx:233-247 | the inner scan finds the first index of the minimum of `arr[i..]` and records one comparison per later cell and no swap |
| SelectionSort.SelectRound | src/algorithm-detail.tsx:232-260 | one outer round places the minimum at `i`; the prefix stays sorted and no larger than the rest, and the comparison count grows by `n - i - 1` |
| SelectionSort.PlaceMinimum | src/algorithm-detail.tsx:249-251 | swapping the first minimum into place extends the sorted prefix and permutes the array |
| SelectionSort.OuterDone | src/algorithm-detail.tsx:232 | when the loop `i < n - 1` exits the array is sorted, there were `n (n - 1) / 2` comparisons and at most `n - 1` swaps |
| InsertionSort.InsertionSortTrace | src/algorithm-detail.tsx:275-335 | the trace ends with a neutral step on a sorted permutation of the input; every step has in-range indices, and its placement steps and final step are permutation snapshots; exactly `n - 1` placement steps |
| InsertionSort.InsertRound | src/algorithm-detail.tsx:279-323 | one round inserts `arr[i]` into the sorted prefix, extending it by one, with one placement step |
| InsertionSort.ShiftOnce | src/algorithm-detail.tsx:291-312 | one shift copies `arr[j]` to `j + 1` and records the shift step, then the next comparison when `j - 1 >= 0` |
| InsertionSort.KeyInserted | src/algorithm-detail.tsx:315 | writing the key after the shifted cells gives the prefix with the key moved to its place (`Inserted`), ascending |
| InsertionSort.InsertedIsPermutation | src/algorithm-detail.tsx:291-315 | moving the key into place permutes the array |
| InsertionSort.InsertedAscending | src/algorithm-detail.tsx:291-315 | moving a key past the larger cells of a sorted prefix, behind one no larger, extends the sorted prefix |
| InsertionSort.Inserted | src/algorithm-detail.tsx:291-315 | the array with `a[i]` moved to `p`: the cells before `p` and after `i` are kept, and those in `p..i-1` shift right |
| MergeSort.MergeSortTrace | src/algorithm-detail.tsx:338-433 | the last step is the neutral step on the input as given; with two or more elements, the step before it shows the sorted input; shorter inputs give only the final step |
| MergeSort.MergeSortHelper | src/algorithm-detail.tsx:411-420 | sorts the segment `[left, right]` in place, leaving the rest unchanged; a segment of two or more cells adds placements and ends on a snapshot of the array |
| MergeSort.SortRightAndMerge | src/algorithm-detail.tsx:416-418 | with the left half sorted, sorting the right half and merging sorts the whole segment |
| MergeSort.Merge | src/algorithm-detail.tsx:341-409 | the segment becomes the merge of its two runs and the rest is unchanged; one placement per cell; the last snapshot is the array |
| MergeSort.MergeHeads | src/algorithm-detail.tsx:352-378 | the first loop takes the smaller head, the left one on ties, until a run is used up |
| MergeSort.Drain | src/algorithm-detail.tsx:380-408 | the two tail loops copy what is left of either run |
| MergeSort.Take | src/algorithm-detail.tsx:361-367 | taking one head into the next cell keeps the merge invariant |
| MergeSort.Place | src/algorithm-detail.tsx:362-375 | writing a cell records a placement step showing it |
| MergeSort.MergedIsSpliced | src/algorithm-detail.tsx:341-409 | a merged segment is the merge of the two runs spliced into the array |
| MergeSort.MergeSeqPermutation | src/algorithm-detail.tsx:341-409 | the merge of two runs is a permutation of their concatenation |
| MergeSort.MergeSeqSorted | src/algorithm-detail.tsx:352-408 | merging two sorted runs gives a sorted run starting with one of their heads |
| MergeSort.MergeSeqIsSort | src/algorithm-detail.tsx:341-409 | merging two sorted runs is sorting their concatenation |
| MergeSort.MergeOfSorts | src/algorithm-detail.tsx:411-419 | merging the sorts of two halves is the sort of the whole |
| QuickSort.QuickSortTrace | src/algorithm-detail.tsx:436-502 | the last step is the neutral step on the sorted input; every step is a permutation snapshot with in-range indices |
| QuickSort.QuickSortHelper | src/algorithm-detail.tsx:481-488 | sorts `[low, high]` in place and leaves the rest unchanged, keeping the array a permutation of the input |
| QuickSort.SortSides | src/algorithm-detail.tsx:485-486 | after a partition, sorting both sides sorts the whole segment |
| QuickSort.Partition | src/algorithm-detail.tsx:439-479 | the segment is partitioned around the old `arr[high]`, now at the returned index; smaller cells lie before it and the others after; it is a permutation; one comparison per cell before the pivot; one swap per smaller cell plus the closing pivot swap, which is the last step |
| QuickSort.PartitionLoop | src/algorithm-detail.tsx:443-466 | the loop keeps `[low, i]` below the pivot and `(i, j)` not below it, with its counts |
| QuickSort.PartitionBody | src/algorithm-detail.tsx:445-465 | one iteration records the comparison and swaps a smaller cell forward |
| QuickSort.PartitionDone | src/algorithm-detail.tsx:468-478 | the closing pivot swap leaves the segment partitioned around the pivot, a permutation of the input |
| QuickSort.PivotJoin | src/algorithm-detail.tsx:481-487 | sorting both sides of a partitioned segment and joining them around the pivot is sorting the segment |
| QuickSort.JoinSorted | src/algorithm-detail.tsx:481-487 | two sorted runs around a pivot that separates them form a sorted run |
| QuickSort.SegmentJoined | src/algorithm-detail.tsx:481-487 | a partitioned segment with both sides sorted is the ascending sort of the segment |
| QuickSort.HelperStep | src/algorithm-detail.tsx:481-487 | partitioning and then sorting both sides sorts the segment |
| MergeSort.HelperStep | src/algorithm-detail.tsx:411-419 | sorting both halves and merging sorts the segment |
| LinearSearch.LinearSearchTrace | src/algorithm-detail.tsx:505-541 | probes positions `0..p` and then a found step, where `p` is the first occurrence; without an occurrence it probes every position and ends with the not-found step; never a swap |
| LinearSearch.FirstIndex | src/algorithm-detail.tsx:508-529 | the first position holding the target, or none exactly when the target is absent |
| LinearSearch.FirstIndexIs | src/algorithm-detail.tsx:508-529 | a position holding the target with no earlier occurrence is the first index |
| BinarySearch.BinarySearchTrace | src/algorithm-detail.tsx:544-598 | the loop emits exactly the window and update steps of `BinarySteps` from the full window |
| BinarySearch.BinarySearchFinds | src/algorithm-detail.tsx:544-598 | on a sorted array the trace ends with a found step exactly when the target is present |
| BinarySearch.BinarySteps | src/algorithm-detail.tsx:549-595 | the steps from a window number at least one and at most two per cell of the window plus the closing step. Its shape is `BinarySearch.BinaryStepsShape`, and its verdict `BinaryStepsFound` |
| BinarySearch.BinaryStepsShape | src/algorithm-detail.tsx:549-595 | every step but the last is unfound and swap-free; comparison windows are ordered and in range; a found step highlights a cell holding the target; otherwise the last step is the not-found step |
| BinarySearch.NarrowedKeeps | src/algorithm-detail.tsx:573-577 | on a sorted array, narrowing the window keeps the target in the window exactly when it was there |
| BinarySearch.BinaryStepsFound | src/algorithm-detail.tsx:549-595 | on a sorted array, the steps from a window end found exactly when the target lies in the window |
| BinarySearch.NineInFour | src/algorithm-detail.tsx:549-597 | searching `[1, 2, 4, 9]` for 9 records six steps, four of them comparisons (three windows and the found step), ending found at index 3 |
| BinarySearch.UpdateOutOfRange | src/algorithm-detail.tsx:579-585 | the update step can highlight indices outside the array (`[0, -1, -1]` when searching `[1]` for 0) |
| Dispatch.Chosen | src/algorithm-detail.tsx:84-120 | the algorithm the page's `switch` picks is of the page's kind: the one named by the key, else bubble sort or linear search |
| Dispatch.ChosenByKey | src/algorithm-detail.tsx:89-117 | every algorithm is chosen by its own key |
| Dispatch.GenerateTrace | src/algorithm-detail.tsx:122-134 | the steps played are the chosen algorithm's trace. A searching page without a target plays none. Every sort but merge sort ends sorted, and merge sort ends on the array as it was. Linear search, and binary search on a sorted array, end found exactly when the target is present |
| Playback.Progress | src/algorithm-detail.tsx:148 | `Math.round(100 k / total)` as an integer within one half of `100 k / total` and within `[0, 100]` |
| Playback.ProgressBelowHundred | src/algorithm-detail.tsx:148 | progress stays below 100 exactly when `200 k < 199 total` |
| Playback.ProgressMonotone | src/algorithm-detail.tsx:148 | progress never decreases from one step to the next |
| Playback.EarlyHundred | src/algorithm-detail.tsx:148 | with 200 steps, the last step consumed already shows 100 |
| Playback.ShortTraceBelowHundred | src/algorithm-detail.tsx:142-159 | with fewer than 200 steps, progress stays below 100 until completion |
| Playback.ReplayMeans | src/algorithm-detail.tsx:142-159 | consuming a range of steps adds their comparison and swap flags to the counters and shows the last consumed step's array, indices and progress |
| Playback.PlayedToEnd | src/algorithm-detail.tsx:139-170 | started from a reset view (zero counters), playing a whole trace ends completed at 100 with the trace's comparison and swap counts and its last snapshot |
| Playback.Player.Reset | src/algorithm-detail.tsx:48-74 | the drawn array, sorted for binary search on a searching page; the target drawn from it; a fresh view; not running and not paused |
| Playback.Player.constructor | src/algorithm-detail.tsx:27-41 | the page starts with no array, no target, the initial view, not running and not paused |
| Playback.Player.Start | src/algorithm-detail.tsx:76-174 | when paused, only the pause is lifted; otherwise the chosen trace is generated and the interval scheduled from step 0 |
| Playback.Player.Pause | src/algorithm-detail.tsx:176-178 | sets the pause flag and nothing else |
| Playback.Player.Tick | src/algorithm-detail.tsx:140-169 | consumes the next step, or, past the last one, completes the view and stops |
| Playback.Player.RunInterval | src/algorithm-detail.tsx:139-170 | ticking to the end leaves the completed replay of the remaining steps |
| Race.InitialStates | src/pages/race/algorithm-race.tsx:50-63 | one fresh entry showing the array for every algorithm of the table, and no other key |
| Race.ToggleFlips | src/pages/race/algorithm-race.tsx:70-75 | toggling flips the membership of the name and of no other; toggling twice restores the selection |
| Race.ToggleKeepsNoDuplicates | src/pages/race/algorithm-race.tsx:70-75 | toggling never duplicates a name |
| Race.ToggledInTable | src/pages/race/algorithm-race.tsx:70-75 | toggling a table name keeps the selection within the table |
| Race.Remove | src/pages/race/algorithm-race.tsx:71-72 | `filter` removes every occurrence of the name and keeps every other name; the order is `Race.RemoveConcat` |
| Race.RemoveConcat | src/pages/race/algorithm-race.tsx:72 | `filter` works name by name in order: removing from `a + b` is removing from `a`, then from `b`, and a single name is dropped exactly when it is the removed one |
| Race.ShowingArray | src/pages/race/algorithm-race.tsx:82-91 | every entry is kept, under the same keys, with the sorted array shown |
| Race.ShowingArrayCoherent | src/pages/race/algorithm-race.tsx:82-91 | showing the sorted array in every entry keeps every entry's progress and completion coherent |
| Race.IncrementBounds | src/pages/race/algorithm-race.tsx:131-175 | every increment is non-negative; an algorithm of the table gains at least its minimum times `speed / 50`; at least one comparison; at least one swap on a sorting page |
| Race.TickEntryMeans | src/pages/race/algorithm-race.tsx:177-232 | a tick keeps an entry coherent, never lowers progress, caps it at 100, marks completion exactly at 100 and shows no swaps on a searching page |
| Race.RaceTick | src/pages/race/algorithm-race.tsx:121-244 | the loop over the captured selection throws exactly when a captured name has no entry (`FirstMissing`); otherwise it computes `TickRound`: the new entries and whether all selected have completed |
| Race.FirstMissing | src/pages/race/algorithm-race.tsx:125-126 | the first captured name with no entry, where `newStates[algo].completed` throws; every earlier name has one; none exactly when every name has one |
| Race.TakeTurn | src/pages/race/algorithm-race.tsx:125-235 | one turn of the loop for a captured name that has an entry extends the round by that name: the result is the round over one more name, with the same keys |
| Race.TickRound | src/pages/race/algorithm-race.tsx:121-244 | the round over a selection whose every name has an entry, the case where the updater does not throw; it keeps the keys of the entries |
| Race.IncrementOf | src/pages/race/algorithm-race.tsx:131-175 | each algorithm's increments from the three draws; a searching page adds no swaps. Its bounds are `Race.IncrementBounds` |
| Race.TickEntry | src/pages/race/algorithm-race.tsx:177-232 | the updated entry: progress at most 100, completed exactly at 100, no swaps on a searching page. What it keeps is `Race.TickEntryMeans` |
| Race.TickOutcome | src/pages/race/algorithm-race.tsx:121-244 | a round that does not throw keeps every entry coherent and the keys, and reports all completed exactly when every captured algorithm has a completed entry |
| Race.TickRoundCoherent | src/pages/race/algorithm-race.tsx:125-236 | a tick keeps every entry coherent |
| Race.TickRoundUnchanged | src/pages/race/algorithm-race.tsx:125-126 | unselected and completed entries are left as they were |
| Race.TickRoundTicked | src/pages/race/algorithm-race.tsx:125-232 | every selected, uncompleted entry is ticked once with its own draws |
| Race.TickRoundAllCompleted | src/pages/race/algorithm-race.tsx:123-238 | the interval stops exactly when every selected algorithm has completed |
| Race.CompletesWithin | src/pages/race/algorithm-race.tsx:140-177 | at speed 10 or more, any algorithm of the table completes within 1000 ticks |
| Race.RepeatProgress | src/pages/race/algorithm-race.tsx:140-177 | repeated ticks keep the entry coherent and add at least the minimum gain per tick until completion |
| RacePage.Page.ResetArray | src/pages/race/algorithm-race.tsx:33-68 | the drawn array, sorted for binary search on a searching page; the target drawn from it; a fresh entry per table algorithm; not running and not paused |
| RacePage.Page.constructor | src/pages/race/algorithm-race.tsx:20-26 | the page starts sorting at speed 50 with no array, no selection, no entries, not running and not paused |
| RacePage.Page.Toggle | src/pages/race/algorithm-race.tsx:70-94 | the toggled selection; selecting binary search on a searching page sorts the array and shows it in every entry |
| RacePage.Page.StartRace | src/pages/race/algorithm-race.tsx:96-257 | when paused, only the pause is lifted; with nothing selected, nothing; otherwise running, with an interval that captures the selection, kind and speed |
| RacePage.Page.PauseRace | src/pages/race/algorithm-race.tsx:259-263 | sets the pause flag; the interval keeps running |
| RacePage.Page.Tick | src/pages/race/algorithm-race.tsx:120-245 | when a captured name has no entry the updater throws and nothing changes; otherwise the entries become the tick of the captured selection, and the interval stops exactly when all selected algorithms have completed |
| RacePage.Page.Settle | src/pages/race/algorithm-race.tsx:238-243 | the advanced entries are stored, and the interval and the running flag are cleared exactly when all captured algorithms completed; nothing else changes |
| RacePage.TabSwitchMidRace | src/pages/race/algorithm-race.tsx:28-31 | selecting bubble sort, starting the race and switching to searching, with the effect's `resetArray`, makes the next firing of the interval throw |
| RacePage.Page.HandleCustomInput | src/pages/race/algorithm-race.tsx:269-296 | the typed array, sorted when binary search is selected on a searching page; fresh entries; not running and not paused |
| RacePage.Page.SetSearchTarget | src/pages/race/algorithm-race.tsx:298-300 | sets the target and nothing else |
| RacePage.Page.ChangeType | src/pages/race/algorithm-race.tsx:302-305 | switches the page kind and clears the selection, keeping a scheduled interval; the effect on the page kind then runs `resetArray` (`RacePage.Page.ResetArray`), which rebuilds the entries for the new table |
| RacePage.Page.SetSpeed | src/pages/race/algorithm-race.tsx:474 | sets the speed within the slider's range |
| Leaderboard.RankedPermutation | src/pages/race/race-leaderboard.tsx:20-32 | the ranking is a permutation of the algorithms |
| Leaderboard.Ranking | src/pages/race/race-leaderboard.tsx:20-32 | the ranked order lists every position of the input exactly once |
| Leaderboard.RankedOrder | src/pages/race/race-leaderboard.tsx:20-32 | completed before uncompleted; completed by time; uncompleted by decreasing progress; ties in their original order |
| Leaderboard.Compare | src/pages/race/race-leaderboard.tsx:20-32 | the comparator puts a completed entry before an uncompleted one. Its order is `Leaderboard.CompareFlips`, `BeforeTransitive` and `BeforeTotal` |
| Leaderboard.CompareFlips | src/pages/race/race-leaderboard.tsx:20-32 | the comparator is antisymmetric |
| Leaderboard.BeforeTransitive | src/pages/race/race-leaderboard.tsx:20-32 | the ranking order is transitive |
| Leaderboard.BeforeTotal | src/pages/race/race-leaderboard.tsx:20-32 | the ranking order is total on distinct positions |
| Leaderboard.Rows | src/pages/race/race-leaderboard.tsx:68-101 | one row per entry, in ranked order. Its columns are `Leaderboard.RowsMeans` |
| Leaderboard.RowsMeans | src/pages/race/race-leaderboard.tsx:68-101 | the rank column is the trophy in the first row exactly when some algorithm completed, otherwise the position; row `i` shows the name, completion and comparisons of the `i`-th ranked entry, and the fifth column its swaps on a sorting page and its comparisons on a searching page |
| CustomInput.Tokens | src/pages/race/custom-input.tsx:35-37 | the pieces between runs of commas and white space, none empty; that they are the maximal runs is `CustomInput.TokensSplit` with `TokenAlone` |
| CustomInput.TokensBefore | src/pages/race/custom-input.tsx:35-37 | text followed by a separator run splits into its own tokens, then those of the rest |
| CustomInput.TokensSplit | src/pages/race/custom-input.tsx:35-37 | a separator cuts the text: the tokens of `a + [c] + b` are those of `a` followed by those of `b` |
| CustomInput.TokenAlone | src/pages/race/custom-input.tsx:35-37 | a non-empty text without separators is exactly one token, itself |
| CustomInput.TokensKeepText | src/pages/race/custom-input.tsx:35-37 | the tokens, joined, are exactly the text's non-separator characters |
| CustomInput.TokensOfJoined | src/pages/race/custom-input.tsx:35-37 | splitting tokens joined by single separators returns them |
| CustomInput.TrimStartDrops | src/pages/race/custom-input.tsx:37 | `trimStart` drops exactly the leading white space |
| CustomInput.TrimEndDrops | src/pages/race/custom-input.tsx:37 | `trimEnd` drops exactly the trailing white space |
| CustomInput.TrimStart | src/pages/race/custom-input.tsx:37 | the result is no longer than the text and does not start with white space |
| CustomInput.TrimEnd | src/pages/race/custom-input.tsx:37 | the result is no longer than the text and does not end with white space |
| CustomInput.ParseInt | src/pages/race/custom-input.tsx:39 | `parseInt` without a radix: blank text is NaN. What it reads is `CustomInput.ParseShown`, `ParseIntRejects` and the two examples |
| CustomInput.ParseShown | src/pages/race/custom-input.tsx:39 | `parseInt` reads back the decimal numeral of any integer, whatever non-digit text follows it |
| CustomInput.ParseIntRejects | src/pages/race/custom-input.tsx:39-42 | text starting with anything but space, a sign or a digit is rejected |
| CustomInput.ParsePrefixExample | src/pages/race/custom-input.tsx:39 | `parseInt("12abc")` is 12 |
| CustomInput.ParseFractionExample | src/pages/race/custom-input.tsx:39 | `parseInt("3.9")` is 3 |
| CustomInput.ParseAll | src/pages/race/custom-input.tsx:38-44 | all readings succeed exactly when the result is the array of the readings; otherwise the error names the first unreadable token |
| CustomInput.ReadingAt | src/pages/race/custom-input.tsx:38-39 | the reading of the i-th token is `parseInt` of the trimmed token |
| CustomInput.FirstBad | src/pages/race/custom-input.tsx:38-44 | the first reading that failed, with every earlier one successful, or none when all succeeded |
| CustomInput.CheckedReports | src/pages/race/custom-input.tsx:38-52 | the parse and count checks report the documented error for every input |
| CustomInput.ParseArray | src/pages/race/custom-input.tsx:35-52 | an accepted list has 2 to 100 numbers. What it accepts and reports is `CustomInput.ParseArrayMeans` |
| CustomInput.ParseArrayMeans | src/pages/race/custom-input.tsx:35-52 | parsing succeeds exactly when every token reads and there are 2 to 100 of them; each error message matches its case |
| CustomInput.HandleSubmit | src/pages/race/custom-input.tsx:32-73 | the effects of a submit: only an error, or ending with the dialog closed. Their order and values are `CustomInput.HandleSubmitMeans` |
| CustomInput.HandleSubmitMeans | src/pages/race/custom-input.tsx:32-73 | an error only sets the message; with a typed target, it must parse; otherwise the target (typed, or drawn from the array), the submitted array, the cleared error and the closed dialog, in that order |
| CustomInput.RandomIndex | src/pages/race/custom-input.tsx:63 | `Math.floor(Math.random() * n)` is an index of the array |
| ArrayUtils.SwappedIsPermutation | public/lib/array-utils.ts:18-22 | a swap permutes the array |
| ArrayUtils.SwappedTwice | public/lib/array-utils.ts:18-22 | swapping the same pair twice restores the array |
| ArrayUtils.Swap | public/lib/array-utils.ts:18-22 | the array after the in-place swap is `Swapped` of the old one, a permutation of it |
| ArrayUtils.Swapped | public/lib/array-utils.ts:18-22 | the two cells are exchanged |
| ArrayUtils.SwappedSelf | public/lib/array-utils.ts:18-22 | swapping a cell with itself changes nothing |
| Ordering.SortAscCorrect | src/pages/race/algorithm-race.tsx:38 | `sort((a, b) => a - b)` gives a sorted permutation |
| Ordering.SortAscUnique | src/pages/race/algorithm-race.tsx:38 | any sorted permutation of an array is its ascending sort |
| Ordering.SortedPermutationUnique | src/pages/race/algorithm-race.tsx:38 | two sorted permutations of each other are equal |
| Operations.ReadNumber | src/pages/data-structures/arrays.tsx:111-114 | a blank field reads as nothing, and other text as `parseInt` of it. Reading a numeral is `Operations.ReadNumberShown` |
| Operations.ReadNumberShown | src/pages/data-structures/arrays.tsx:111-114 | typing the numeral of an integer into a field reads back that integer |
| Operations.InsertAt | src/pages/data-structures/arrays.tsx:144-146 | `splice(i, 0, v)`: `v` at `i`, the cells before kept and the cells after shifted right |
| Operations.RemoveAt | src/pages/data-structures/arrays.tsx:166-168 | `splice(i, 1)`: the cells before `i` kept and the cells after shifted left |
| Operations.Advance | src/pages/data-structures/arrays.tsx:33-52 | the timer's next step lies above the current one and at most the maximum |
| Operations.RemoveInserted | src/pages/data-structures/arrays.tsx:144-146 | removing what was just inserted restores the array |
| Operations.InsertRemoved | src/pages/data-structures/arrays.tsx:166-168 | re-inserting the removed element restores the array |
| Operations.FiringsCount | src/pages/data-structures/arrays.tsx:33-52 | from step 1, an animation of `max` steps is idle again after exactly `max` firings |
| ArrayPage.Page.Click | src/pages/data-structures/arrays.tsx:474-498 | a dialog opens only when its button is enabled |
| ArrayPage.Page.constructor | src/pages/data-structures/arrays.tsx:18-30 | the page starts with `[10, 20, 30, 40, 50]`, empty fields, no dialog and idle |
| ArrayPage.Page.Dismiss | src/pages/data-structures/arrays.tsx:273 | closing a dialog changes nothing else |
| ArrayPage.Page.Type | src/pages/data-structures/arrays.tsx:291-446 | typing sets the value and index fields and nothing else |
| ArrayPage.Page.HandleAdd | src/pages/data-structures/arrays.tsx:110-128 | a blank or unreadable value changes nothing; otherwise the value is appended and highlighted, the field cleared and the dialog closed |
| ArrayPage.Page.HandleInsert | src/pages/data-structures/arrays.tsx:130-153 | only a readable value at a readable index in `0..length` is spliced in there |
| ArrayPage.Page.InsertValue | src/pages/data-structures/arrays.tsx:136-152 | once both fields are read: a value at an index in `0..length` is spliced in there, highlighted, and the fields cleared; anything else changes nothing |
| ArrayPage.Page.HandleRemove | src/pages/data-structures/arrays.tsx:155-175 | only a readable index of an element removes that element; the value field is kept |
| ArrayPage.Page.RemoveIndex | src/pages/data-structures/arrays.tsx:159-174 | once the index is read: the element at a valid index is removed and the field cleared; anything else changes nothing |
| ArrayPage.Page.HandleUpdate | src/pages/data-structures/arrays.tsx:177-200 | only a readable value at a readable element index replaces that element and no other |
| ArrayPage.Page.UpdateValue | src/pages/data-structures/arrays.tsx:183-199 | once both fields are read: the element at a valid index is replaced and no other; anything else changes nothing |
| ArrayPage.Page.Fire | src/pages/data-structures/arrays.tsx:33-68 | the next step up to the operation's count, then idle with nothing highlighted |
| StackPage.Pushed | src/pages/data-structures/stacks.tsx:113 | the pushed value is on top, with the stack below it unchanged; related to `Popped` by `StackPage.PushPop` |
| StackPage.Popped | src/pages/data-structures/stacks.tsx:131 | drops the top and keeps every value below it; emptying the stack reverses it (`StackPage.PopAllReverses`) |
| StackPage.PushPop | src/pages/data-structures/stacks.tsx:100-133 | popping after a push restores the stack; the pushed value is on top |
| StackPage.PopAllReverses | src/pages/data-structures/stacks.tsx:100-133 | last in, first out: emptying the stack yields it in reverse order |
| StackPage.UsageExample | src/pages/data-structures/stacks.tsx:323-329 | after pushing 10, 20 and 30, peek shows 30, pop gives 30 and two remain |
| StackPage.Page.Click | src/pages/data-structures/stacks.tsx:258-275 | a disabled button does nothing; push opens its dialog; pop and peek act at once |
| StackPage.Page.constructor | src/pages/data-structures/stacks.tsx:18-25 | the page starts with `[10, 20, 30, 40, 50]`, an empty field, no dialog and idle |
| StackPage.Page.Dismiss | src/pages/data-structures/stacks.tsx:211 | closing the dialog changes nothing else |
| StackPage.Page.Type | src/pages/data-structures/stacks.tsx:229 | typing sets the value field and nothing else |
| StackPage.Page.HandlePush | src/pages/data-structures/stacks.tsx:100-119 | a readable value goes on top and is highlighted; the field is cleared and the dialog closed |
| StackPage.Page.HandlePop | src/pages/data-structures/stacks.tsx:121-133 | the top is highlighted and removed; nothing on an empty stack |
| StackPage.Page.HandlePeek | src/pages/data-structures/stacks.tsx:135-142 | the top is highlighted; the stack is kept |
| StackPage.Page.Fire | src/pages/data-structures/stacks.tsx:28-72 | the next step, then idle; the pushed value is forgotten except after a peek |
| QueuePage.Enqueued | src/pages/data-structures/queues.tsx:113 | the enqueued value joins at the back, with the queue before it unchanged; related to `Dequeued` by `QueuePage.EnqueueDequeue` |
| QueuePage.Dequeued | src/pages/data-structures/queues.tsx:131 | drops the front and keeps the rest in order; first in, first out (`QueuePage.FirstInFirstOut`) |
| QueuePage.EnqueueDequeue | src/pages/data-structures/queues.tsx:100-133 | enqueueing and dequeueing commute on a non-empty queue, and enqueueing keeps the front |
| QueuePage.FirstInFirstOut | src/pages/data-structures/queues.tsx:100-133 | first in, first out: dequeuing all yields the values in the order they were enqueued |
| QueuePage.EnqueueAllAppends | src/pages/data-structures/queues.tsx:100-119 | enqueueing values one by one appends them in order |
| QueuePage.DequeueAllKeeps | src/pages/data-structures/queues.tsx:121-133 | dequeueing until empty yields the queue front to back |
| QueuePage.UsageExample | src/pages/data-structures/queues.tsx:322-328 | after enqueueing 10, 20 and 30, peek shows 10, dequeue gives 10 and two remain |
| QueuePage.Page.Click | src/pages/data-structures/queues.tsx:258-274 | a disabled button does nothing; enqueue opens its dialog; dequeue and peek act at once |
| QueuePage.Page.constructor | src/pages/data-structures/queues.tsx:18-25 | the page starts with `[10, 20, 30, 40, 50]`, an empty field, no dialog and idle |
| QueuePage.Page.Dismiss | src/pages/data-structures/queues.tsx:210 | closing the dialog changes nothing else |
| QueuePage.Page.Type | src/pages/data-structures/queues.tsx:228 | typing sets the value field and nothing else |
| QueuePage.Page.HandleEnqueue | src/pages/data-structures/queues.tsx:100-119 | a readable value joins at the back and is highlighted; the field is cleared and the dialog closed |
| QueuePage.Page.HandleDequeue | src/pages/data-structures/queues.tsx:121-133 | the front is highlighted and removed; nothing on an empty queue |
| QueuePage.Page.HandlePeek | src/pages/data-structures/queues.tsx:135-142 | the front is highlighted; the queue is kept |
| QueuePage.Page.Fire | src/pages/data-structures/queues.tsx:28-72 | the next step, then idle; the enqueued value is forgotten except after a peek |
| LinkedListPage.Traversal | src/pages/data-structures/linked-lists.tsx:109-148 | a firing sets a highlight exactly on steps 1 and 2 of adding and inserting and step 1 of removing, never when idle. Its meaning is `LinkedListPage.TraversalMeans` |
| LinkedListPage.TraversalMeans | src/pages/data-structures/linked-lists.tsx:109-148 | a traversal highlights a prefix `0..k`; adding walks at most the list's nodes; with the index field cleared, inserting and removing highlight nothing |
| LinkedListPage.UpTo | src/pages/data-structures/linked-lists.tsx:109-148 | the positions `0..k`, none for a negative or unreadable `k` |
| LinkedListPage.UsageExample | src/pages/data-structures/linked-lists.tsx:606-613 | appending 10, 20, 30, inserting 15 at 1 and removing at 2 gives `10 -> 15 -> 30` |
| LinkedListPage.Page.Click | src/pages/data-structures/linked-lists.tsx:461-479 | a dialog opens only when its button is enabled |
| LinkedListPage.Page.constructor | src/pages/data-structures/linked-lists.tsx:18-29 | the page starts with `10 -> 20 -> 30 -> 40 -> 50`, empty fields, no dialog, idle and nothing highlighted |
| LinkedListPage.Page.Dismiss | src/pages/data-structures/linked-lists.tsx:316 | closing a dialog changes nothing else |
| LinkedListPage.Page.Type | src/pages/data-structures/linked-lists.tsx:334-431 | typing sets the value and index fields and nothing else |
| LinkedListPage.Page.HandleAddToEnd | src/pages/data-structures/linked-lists.tsx:151-169 | a readable value is appended; the field is cleared and the dialog closed |
| LinkedListPage.Page.HandleInsert | src/pages/data-structures/linked-lists.tsx:171-195 | only a readable value at a readable index in `0..length` is spliced in there, and both fields are cleared |
| LinkedListPage.Page.InsertValue | src/pages/data-structures/linked-lists.tsx:177-194 | once both fields are read: a value at an index in `0..length` is spliced in there and the fields cleared; anything else changes nothing |
| LinkedListPage.Page.HandleRemove | src/pages/data-structures/linked-lists.tsx:197-217 | only a readable index of a node removes that node; the index field is cleared |
| LinkedListPage.Page.RemoveIndex | src/pages/data-structures/linked-lists.tsx:201-216 | once the index is read: the node at a valid index is removed and the index field cleared; anything else changes nothing |
| LinkedListPage.Page.Fire | src/pages/data-structures/linked-lists.tsx:32-68 | the next step with the traversal of the step shown, then idle with nothing highlighted |

## Left out

- Rendering, styling, icons, the code samples in other languages, and the animation messages.
- Wall-clock time and `timeElapsed`. The leaderboard takes each algorithm's elapsed time as given.
- Timer delays. Each `setInterval` or `setTimeout` firing is a method call, and the
  interval period (`1000 / (speed / 10)` on the detail page, 100 ms on the race page) is not modelled.
- Delayed list updates. Each page changes its list after a delay, and the model applies
  the change when the handler runs. The delays are:
  - 1 s to add and update on the array page, and 2 s to insert and remove;
  - 1 s to push and enqueue, and 2 s to pop and dequeue;
  - 3 s to add and remove on the linked-list page, and 4 s to insert.
- StackPage.Page.HandlePush and QueuePage.Page.HandleEnqueue: the source sets the
  highlighted index inside that delayed update (`stacks.tsx` and `queues.tsx`, lines
  111-114). The model sets it in the handler.
- Completion timeouts. The completion timeout and the extra 1.5 s peeking delay are
  collapsed into the one firing that returns to idle.
- `Math.random`. Every draw is a parameter with the range the source gives it:
  - the drawn array: any sequence of integers (the page draws `arraySize` values in
    [5, 100]; nothing in the model depends on that range);
  - the target index;
  - the race's progress, comparison and swap increments;
  - the race's cosmetic snapshot and indices.
- The race's cosmetic snapshot and indices. The partially sorted array and the binary-search
  window shown during a race are taken as drawn values. The window arithmetic of
  `algorithm-race.tsx` lines 206-219 is not modelled.
- Floating point. Race progress is a `real`, and the leaderboard's percentage and seconds
  formatting are not modelled.
- RacePage.Page.Tick: when the updater throws, the model reports it and keeps the state.
  What React then does (it unmounts the page, since no error boundary catches the error)
  is not modelled.
- Race.RaceTick: the selection captured when the race started is used throughout. Pausing
  does not stop the interval, and `startRace` after a pause schedules no new one. Two
  intervals at once (a second start while one runs) are not modelled.
- Playback.Progress: the model rounds the exact fraction `100 k / total`, while the source
  rounds the floating-point product `(k / total) * 100`. That product can fall just below a
  half, and the source then shows one less: for step 23 of 40 the product is
  57.49999999999999, so the source shows 57 and the model 58. Floating-point rounding is
  not modelled. The bounds, the monotonicity and the early 100 hold for both.
- Playback.PlayedToEnd: Visualize does not reset the view, so a second run after a completed
  one adds to the old counters. The lemma covers only a run from zero counters.
- Playback.Player.Start: Reset is never disabled and does not clear a running interval,
  so Reset then Visualize leaves two live intervals. Both then advance the counters and the
  shown step. The model keeps one interval: `Start` replaces the trace and the step index
  of the earlier one. The counters equal the trace's flags only while a single interval is live.
- Playback.Player.Tick: the `isPaused` check inside the interval callback reads the value
  captured when the interval was created. The model ticks regardless of the pause flag.
- Dialogs. Each page's modal dialogs are a single optional open dialog, so at most one is open.
- `parseInt` beyond 2^53 and `-0`. Numbers are unbounded integers, so precision loss
  above 2^53 and the sign of `-0` are not modelled.
- Array size. The detail and race pages' array-size slider only changes how many values
  are drawn, so it is a parameter of the drawn array.
- `delay` from `public/lib/array-utils.ts` is an asynchronous timer. It is used nowhere in
  the core and is left out.

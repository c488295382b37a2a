# Sorting visualizer — a Dafny model

The application shows three panels side by side: selection sort, bubble sort
and insertion sort. Each panel holds its own copy of one array of bars. Each
bar is an item `{value, id}`; the id lets the renderer follow a bar while it
moves. A panel is a `Visualizer` object with the fields `array`,
`isSorting`, `stopRequested` and `nextId`. "Sort all" starts every panel's
driver and "Stop all" raises every panel's stop flag. A driver reads its
panel's flag at fixed check points and breaks out when the flag is set.
Every panel gets a new array in three ways:

- a random array at page load and on "Generate", with no validation;
- a random array after the size input accepts a new size (only the size is
  validated);
- a manually typed list, after the list is validated.

The model is split into these modules:

- `ArrayModel` defines items, swaps and traces of swaps. It proves that every
  swap trace is a permutation that keeps ids unique. It also proves that
  swapping only strict adjacent inversions keeps equal values in id order.
  Finally it proves that two stable sorted results of the same array are
  equal.
- `SortSteps` holds the invariants of the three drivers: smallest first,
  largest last and sorted prefix. Its lemmas cover one comparison or one swap
  each.
- `Playback` is the reference definition of the three drivers as step
  machines from one check point to the next (`Advance`), and `Replay`, the
  reference run after a given number of clear readings. It proves that run
  correct: each check point has its `Progress`, every step keeps it, and at
  the end it means sorted. The run's array is what its `Swaps` make of the
  input, and those swaps are of the kind each algorithm allows.
- `SortVisualizer` holds the `Visualizer` class (`SetArray`, `StartSort`,
  `StopSort`) and the three drivers as methods over the panel's `array`. Each
  driver is split into its outer loop, one method per outer iteration and one
  per inner iteration. Every driver method keeps `Tracks`: the panel's array
  and the check point the driver stands at are those of `Replay` after the
  clear readings so far. The module also holds the two input handlers, which
  validate and then act.
- `BarColors` models the colour priority of a bar.
- `InputRules` models the bounds and the validation of the inputs.

A stop request can only arrive while a driver is paused between redraws. The
model numbers a driver's check points from 0. The flag stays set once set, so
only the first request of a run matters. A run therefore takes `stopAt`: the
check point just before which the first `stopSort` arrives, or `None` when
none arrives. Every value is allowed, so the proofs cover any timing of the
"Stop all" click.

Each driver returns the number of check points it went through, the check
point it left at and the trace of its swaps. These facts pin down what a
stop does:

- `Heeded`: the flag is exactly the starting flag or a request before one of
  those check points.
- `FirstSetReading`: a stopped run ends at the first check point that read
  the flag set.
- `Tracks`: the array and the check point are those of the reference run
  after as many steps as there were clear readings. No swap happens after a
  set reading, and the run's swaps are exactly the reference run's `Swaps`.

So `StartSort(Some(k))` leaves the array exactly as `Replay` has it after `k`
steps, which is at most `k` swaps. If the run stops, it stops at check point
`k`. When `k` is 0 the array is left untouched. After an inner loop breaks,
the source reads the already set flag once more on its way out. No pause and
no swap come between, so the model does not count that reading as a check
point.

## Model

| member | source | states |
|---|---|---|
| `ArrayModel.ApplySwapsPermutes` | main.js:219-219 | Any sequence of in-place swaps leaves a permutation of the starting array (same multiset, same length). |
| `ArrayModel.ApplySwapsKeepsUniqueIds` | main.js:49-53 | Swaps never duplicate or lose an id: ids that `setArray` made unique stay unique. |
| `ArrayModel.InversionTraceIsStable` | main.js:251-260 | Swaps of adjacent pairs whose left value is strictly larger keep items of equal value in their id order (the stability of bubble and insertion sort). |
| `ArrayModel.InversionTracedSnoc` | main.js:282-293 | A swap of `j` and `j+1` taken when `a[j] > a[j+1]` extends a stable adjacent-swap history. |
| `ArrayModel.SelectionTracedSnoc` | main.js:208-219 | A swap of `i` with the leftmost minimum of `a[i..]`, taken only when that minimum is not at `i`, extends a selection history whose left positions strictly increase. |
| `ArrayModel.InversionTracedOutcome` | main.js:233-307 | After any bubble or insertion run, stopped or not, the array is a permutation of the start, ids stay unique and equal values stay in id order. |
| `ArrayModel.SelectionTracedOutcome` | main.js:185-231 | After any selection run, stopped or not, the array is a permutation of the start and ids stay unique. |
| `ArrayModel.StrictlyOrderedUnique` | main.js:233-307 | Two arrays holding the same items and strictly ordered by (value, id) are identical: the fact that makes the bubble and insertion results agree. |
| `ArrayModel.StableResultsAgree` | main.js:233-307 | Two sorted, tie-stable permutations of the same array are equal, so the bubble and insertion panels end identical when neither is stopped. |
| `SortSteps.SelectionStep` | main.js:208-219 | Swapping position `i` with the leftmost minimum of `a[i..]` extends the sorted, smallest-first prefix from `i` to `i+1`. |
| `SortSteps.SmallestFirstSorted` | main.js:186-186 | When the smallest-first prefix covers all but the last position, the array is sorted. |
| `SortSteps.BubbleStep` | main.js:251-260 | One compare-and-swap of `j`, `j+1` carries the running maximum of `a[0..j+1]` to position `j+1` without disturbing the sorted, maximal suffix. |
| `SortSteps.BubblePassDone` | main.js:239-270 | After the inner loop of pass `i` completes, the last `i+1` items are sorted and no smaller than anything before them. |
| `SortSteps.LargestLastSorted` | main.js:235-236 | When the sorted maximal suffix covers all but the first position, the array is sorted. |
| `SortSteps.SinkStart` | main.js:280-280 | Starting to insert `a[i]` when `a[0..i]` is sorted sets up the sinking invariant. |
| `SortSteps.SinkStep` | main.js:282-294 | Swapping `a[j-1] > a[j]` moves the inserted item one place left and keeps the rest of `a[0..i+1]` sorted around it. |
| `SortSteps.SinkDone` | main.js:282-282 | When the inserted item reaches position 0 or a neighbour no larger than it, `a[0..i+1]` is sorted. |
| `SortSteps.SinkingSortedBelow` | main.js:283-283 | While an item sinks, the prefix to its left is still sorted (what a stop inside the inner loop leaves). |
| `Playback.Start` | main.js:185-280 | Every driver starts at the check of its first outer iteration (`i = 0`, or `i = 1` for insertion sort) on the unchanged array; it is finished at once exactly when the array has fewer than two items. |
| `Playback.SelectionNext` | main.js:186-229 | One step of selection sort from a check point keeps the length and lands on a check point selection sort can reach. Only the step after the check that ends a scan changes the array. |
| `Playback.BubbleNext` | main.js:236-270 | One step of bubble sort from a check point keeps the length and lands on a check point bubble sort can reach. Only a comparison changes the array. |
| `Playback.SinkOrNext` | main.js:282-282 | The inner guard of insertion sort leads to another inner check exactly when `j > 0` and the left neighbour is strictly greater. |
| `Playback.InsertionNext` | main.js:278-303 | One step of insertion sort from a check point keeps the length and lands on a check point insertion sort can reach. Only an inner step changes the array. |
| `Playback.Advance` | main.js:185-307 | A step keeps the array length and a reachable check point, and a finished run stays as it is. |
| `Playback.Replay` | main.js:175-175 | The reference run after `c` clear readings has the input's length, stands at a reachable check point, and after none is the start. |
| `Playback.ReplayOneMore` | main.js:187-187 | One more clear reading is one more `Advance` of the reference run. |
| `Playback.ReplayStaysFinished` | main.js:175-176 | Once the reference run is finished, further clear readings leave it unchanged, so a stop request that arrives after the end changes nothing. |
| `Playback.ScanStepProgress` | main.js:203-205 | One comparison of the scan, which takes `j` only when it is strictly smaller, keeps `min` the leftmost minimum of what has been scanned, and of `a[i..]` when the scan is complete. |
| `Playback.PlaceProgress` | main.js:208-219 | The swap that ends pass `i` extends the smallest-first prefix to `i+1`, and the last pass leaves the array sorted. |
| `Playback.SelectionNextProgress` | main.js:186-229 | Every step of selection sort keeps `SelectionProgress`: smallest first before pass `i`, the leftmost minimum so far during the scan and of `a[i..]` after it, sorted at the end. |
| `Playback.BubbleNextProgress` | main.js:236-270 | Every step of bubble sort keeps `BubbleProgress`: the largest values in order at the end before pass `i`, the running maximum at `j` before comparing `j, j+1`, sorted at the end. |
| `Playback.SinkOrNextProgress` | main.js:282-282 | Testing the inner guard with a sinking item keeps `InsertionProgress`: either the item keeps sinking past a strictly greater neighbour, or `a[..i+1]` is sorted. |
| `Playback.InsertionNextProgress` | main.js:278-303 | Every step of insertion sort keeps `InsertionProgress`: sorted prefix and untouched rest before pass `i`, a sinking item strictly smaller than its left neighbour during the inner loop, sorted at the end. |
| `Playback.AdvanceProgress` | main.js:185-307 | Every step of every driver keeps its progress. |
| `Playback.ReplayProgress` | main.js:185-307 | The reference run has its progress after any number of clear readings, so a finished run leaves the array sorted. |
| `Playback.StepSwaps` | main.js:210-293 | A step performs at most one swap of two valid positions, and the new array is the old one with exactly that swap. |
| `Playback.SelectionSwapsStep` | main.js:208-219 | A step of selection sort extends a selection trace, keeps every swap before the current pass, and keeps `SelectionProgress`. |
| `Playback.InversionSwapsStep` | main.js:251-293 | A step of bubble or insertion sort extends an inversion trace: its swap, if any, exchanges a strict adjacent inversion. |
| `Playback.SelectionRunSwaps` | main.js:186-229 | Any number of selection steps from a traced point extend the trace by exactly the swaps they perform. |
| `Playback.InversionRunSwaps` | main.js:236-303 | Any number of bubble or insertion steps from a traced point extend the trace by exactly the swaps they perform. |
| `Playback.SelectionReplaySwaps` | main.js:185-231 | The reference run of selection sort is what its swaps make of the input, and they form a selection trace. |
| `Playback.InversionReplaySwaps` | main.js:233-307 | The reference runs of bubble and insertion sort are what their swaps make of the input, and every swap exchanges a strict adjacent inversion. |
| `BarColors.GetBarColor` | main.js:118-124 | The colour is one the annotations ask for at that index, and no colour they ask for ranks higher: swap, then current, then minimum, then compared, then default. |
| `BarColors.SwapOverridesCompare` | main.js:119-122 | An index both in the swap pair and among the compared ones is drawn in the swap colour. |
| `BarColors.CurrentOverridesCompare` | main.js:120-122 | An index that is both the current and a compared index is drawn in the current colour. |
| `BarColors.PlainRedrawIsDefault` | main.js:123-123 | The final redraw without annotations paints every bar in the default colour. |
| `InputRules.CheckArraySize` | main.js:378-381 | A size passes exactly when it is between 2 and 50 inclusive. |
| `InputRules.CheckManualArray` | main.js:397-408 | A list passes exactly when it has 2 to 50 values, all between 5 and 100. The first failing rule gives the error, in the order count too small, count too large, value out of range. |
| `InputRules.AcceptsBoundaryValues` | main.js:405-405 | The bounds 5 and 100 themselves are accepted. |
| `InputRules.RefusesValueBelowMinimum` | main.js:405-408 | The list `1,2` is refused for its value, not for its count. |
| `InputRules.SizeBoundary` | main.js:378-378 | Size 50 passes and size 51 is refused. |
| `SortVisualizer.RequestedBeforeStep` | main.js:173-181 | The flag stays set once set: no request comes before check point 0, and one has come before check point `k+1` exactly when one came before `k` or arrives just before `k`. |
| `SortVisualizer.ClearReadings` | main.js:187-191 | The count of check points that read a clear flag is at most `k`. It is 0 when the flag was already set, and never more than the check point the request came before. |
| `SortVisualizer.TracksStep` | main.js:187-187 | A check point that reads the flag clear moves a run that follows the reference run one `Advance` on. |
| `SortVisualizer.TrackedOutcome` | main.js:185-307 | A run that follows the reference run has its progress and is sorted once finished. Its array is what the reference run's swaps make of the input: a selection trace for selection sort, strict adjacent inversions for the others. |
| `SortVisualizer.Visualizer.constructor` | main.js:21-35 | A new panel has an empty array, both flags cleared and `nextId` 0. |
| `SortVisualizer.Visualizer.SetArray` | main.js:49-53 | The panel gets a fresh array holding the values in order, with ids `0..n-1` (so unique and in position order) and `nextId == n`. |
| `SortVisualizer.Visualizer.StopSort` | main.js:179-181 | Sets the stop flag and changes nothing else. |
| `SortVisualizer.Visualizer.Poll` | main.js:187-187 | A check point: the flag afterwards is the old flag or a new request, and the driver sees exactly that flag. |
| `SortVisualizer.Visualizer.StartSort` | main.js:171-177 | While a sort runs, a second start changes nothing. Otherwise the flag is cleared and the bound driver runs. Once it returns, `isSorting` is false and the array is exactly the reference run's after the run's clear readings, made by exactly the reference run's swaps: a permutation with unique ids, with ties in id order for bubble and insertion. Without a stop read the run finished and the array is sorted. With no request the run is never stopped. With a request before check point `k`, the array is the reference run's after `k` steps (at most `k` swaps), and a run that stops ends right after check point `k`. A request before check point 0 leaves the array as it was. |
| `SortVisualizer.SwapItems` | main.js:219-219 | Exchanges exactly the two named positions of the array and leaves every other one unchanged. |
| `SortVisualizer.Check` | main.js:240-240 | A check point: the flag becomes the old flag or the request the schedule holds for it, and the driver sees that flag. The flag stays exactly what the schedule says. A clear reading adds one clear reading and a set one adds none. A set reading after clear ones is the first set reading of the run. |
| `SortVisualizer.ScanForMin` | main.js:190-206 | Never changes the array. Unless it read a set flag, it returns the leftmost minimum of `a[i..]` and stands at the check after the scan. If it did, that check point was the run's first set reading and the run stands at a scan check of pass `i`. The reference run agrees at either point. |
| `SortVisualizer.PlaceMin` | main.js:208-228 | The check after a completed scan; unless it reads a set flag, the new array is the old one with `i` and `minIdx` swapped, or unchanged when they are equal, and the run moves on to the next pass or the end, as the reference run does. |
| `SortVisualizer.SelectionPass` | main.js:186-229 | One outer iteration. If any of its checks reads a set flag, the array is untouched, the run has reached its first set reading and it stands at a check of pass `i`. Otherwise `minIdx` is the leftmost minimum of `a[i..]`, the new array is the old one with `i` and `minIdx` swapped (unchanged when they are equal), and the run stands at the next pass or the end. The reference run agrees at every point. |
| `SortVisualizer.SelectionLoop` | main.js:186-229 | The outer loop follows the reference run throughout and, never stopped, leaves it finished. The flag and the first set reading match the schedule. |
| `SortVisualizer.SelectionSort` | main.js:185-231 | The array is the reference run's after the run's clear readings and its swaps are the reference run's: a selection trace, hence a permutation with unique ids, no more swaps than clear readings. `SelectionProgress` holds where the run left off, and the array is sorted when never stopped. A stopped run ends at its first set reading. |
| `SortVisualizer.BubbleIteration` | main.js:240-269 | One inner iteration. A set reading leaves the array as it was. Otherwise the new array is the old one with `j, j+1` swapped exactly when `a[j] > a[j+1]`, and the run moves to `j+1` or past the pass, as the reference run does. |
| `SortVisualizer.BubbleSweep` | main.js:239-270 | The inner loop of pass `i` follows the reference run. If it is not stopped it ends at the next pass or the end; if it is, it ended at the run's first set reading, at a comparison of pass `i`. |
| `SortVisualizer.BubblePass` | main.js:236-270 | One outer iteration: the check at its start, then the inner loop. It follows the reference run, also when the first check already reads a set flag, and ends at the next pass, the end, or a check of pass `i`. |
| `SortVisualizer.BubbleLoop` | main.js:236-271 | The outer loop follows the reference run throughout and, never stopped, leaves it finished. The flag and the first set reading match the schedule. |
| `SortVisualizer.BubbleSort` | main.js:233-273 | The array is the reference run's after the run's clear readings and its swaps are the reference run's, all strict adjacent inversions, hence a permutation keeping ids unique and ties in id order, no more swaps than clear readings. `BubbleProgress` holds where the run left off, and the array is sorted when never stopped. A stopped run ends at its first set reading. |
| `SortVisualizer.SinkIteration` | main.js:283-302 | One inner iteration. A set reading leaves the array as it was. Otherwise the item moves from `j` to `j-1` and the run goes on to the inner guard, as the reference run does. `pos` is where the item stands. |
| `SortVisualizer.InsertionSweep` | main.js:282-303 | The inner loop of pass `i` follows the reference run. Not stopped, it ends at the next pass or the end; stopped, it ended at the run's first set reading, at an inner check of pass `i`. |
| `SortVisualizer.InsertionPass` | main.js:279-304 | One outer iteration: the check at its start, then the inner loop. It follows the reference run and ends at the next pass, the end, or a check of pass `i`. |
| `SortVisualizer.InsertionLoop` | main.js:278-305 | The outer loop follows the reference run throughout and, never stopped, leaves it finished. The flag and the first set reading match the schedule. |
| `SortVisualizer.InsertionSort` | main.js:275-307 | The array is the reference run's after the run's clear readings and its swaps are the reference run's, all strict adjacent inversions, hence a permutation keeping ids unique and ties in id order, no more swaps than clear readings. `InsertionProgress` holds where the run left off: sorted prefix, untouched rest. The array is sorted when never stopped. A stopped run ends at its first set reading. |
| `SortVisualizer.Config.constructor` | main.js:4-5 | The configured array size starts at 15. |
| `SortVisualizer.Config.SetArraySize` | main.js:376-384 | The outcome is the size validation. Only a valid size replaces the configured one, and a refusal leaves it as it was. |
| `SortVisualizer.SubmitManualArray` | main.js:391-411 | The outcome is the manual-array validation. A refusal changes no panel. Acceptance seeds every panel with a fresh array of the values in order and ids `0..n-1`, no two panels sharing an array, and leaves the flags alone. |

## Left out

- Rendering: `init`, `updateVisualization`, the bar and label transitions and the hex colours of the palette are not modelled. `BarColors` models only which palette entry a bar gets. A driver's redraws do not touch the array, so the model drops them.
- Pauses and timing: the `setTimeout` awaits between redraws and the speed slider, which only changes the two delays, are not modelled.
- Concurrency: "Sort all" runs the three drivers together under `Promise.all`. The model runs one panel's driver at a time. The interleaving shows only through the stop schedule, which allows a request before any check point.
- Random generation: `generateAndSetArray` draws its values with `Math.random`, which is not modelled.
- `SortVisualizer.Config.SetArraySize`: does not regenerate the panels' arrays after accepting a size, because generation is random. `SubmitManualArray` shows how an accepted array seeds every panel.
- Button enabling and disabling and the `alert` messages are not modelled. The model returns an `InputError` instead of an alert.
- Parsing the manual input: splitting on commas, `Number` conversion and dropping `NaN` entries are not modelled. The model starts from the parsed list, with values as mathematical integers. Fractional JavaScript numbers are not modelled.
- `containerId` and the SVG geometry fields of a panel are not modelled.
- Id reuse: `setArray` resets `nextId` to 0 on every call (main.js:50), so ids are unique within one array and restart at 0 for the next; the model does the same.
- Selection sort gives no tie-order guarantee, because its long-distance swap can reorder equal values. `StartSort` states `TiesInIdOrder` only for the other two drivers.
- `SortVisualizer.Visualizer.StartSort`: does not model a new array arriving during a run. "Generate", the size input and the manual input are never disabled while sorting (main.js:337-341, 376-384, 391-411), so `setArray` can replace a panel's array mid-run. The drivers re-read `visualizer.array` at every access (main.js:203, 251, 282). Bubble and insertion sort keep the length `n` they read at the start (main.js:234, 276). With a shorter new array, `visualizer.array[j + 1].value` throws, line 176 is never reached, `isSorting` stays true and every later start does nothing. The model's drivers work on the array they started with, so its guarantees hold only for runs that no new array interrupts.

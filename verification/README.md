# Adaptive microlearning planner: a Dafny model of the recommendation core

The planner keeps a document of lectures. Each lecture is a list of segments, and each
segment has a topic, a length in minutes, a difficulty and an order. Given a daily target
in minutes and the learner's last fatigue score, it recommends a batch of segments:

1. It flattens the document into one record per segment.
2. It drops segments whose (lecture title, topic) is already completed.
3. It optionally restricts the list to chosen lectures.
4. It applies a soft-order gate: order `k` of a lecture is offered only if orders `1 .. k-1`
   are present.
5. It picks a subset whose total length, counted in tenths of a minute ("units"), is the
   best fit for a budget window derated by fatigue. The pick uses a 0/1 subset-sum table.

Two pieces of bookkeeping come with it: the fatigue increment of a finished batch, and the
day streak.

The project is one module per stage:

- `Results`: `Option`, `Result` and the two faults the code can raise on the inputs the
  model represents. One is a segment without minutes. The other is the selector reading past its table.
- `Units`: conversion from minutes to units (round half to even, never negative) and back.
  Also truncation toward zero.
- `Segments`: the lecture document and the flattening.
- `Sequences`: a generic filter with its counting lemmas.
- `Eligibility`: completion exclusion, scoping, grouping by title, the stable sort by order,
  and the soft-order gate. The gate is characterised by an independent predicate
  `Unlocked` (order `k` is offered exactly when `1 .. k-1` all occur).
- `Budget`: the unit window and its fatigue derates.
- `FatigueModel`: the capped linear fatigue increment.
- `Streak`: the streak update. The current day is a parameter.
- `Knapsack`: the reachability table, checked against a recursive reference definition of
  subset-sum reachability (`Reachable`). Also the choice of target total (as written and
  corrected), and the backtrack.
- `Recommend`: the whole pipeline as the code is written, including the selector's fault
  described under Findings. A corrected pipeline (`ChooseCorrected`, `RecommendCorrected`)
  sits alongside it.

Where the documented behaviour and the code differ, the model follows the code:

- The two fatigue derates chain. Above 0.8, both the 0.9/0.85 and the 0.9/0.7 multipliers
  apply, each truncating.
- A non-positive daily target raises no error. It yields a degenerate window.
- Among the modelled inputs, only a segment without minutes makes flattening fail. A missing
  title or topic does not.
- For `m >= 0`, the round trip `from_units(to_units(m))` lies within 0.05 minutes of `m`, inclusive. The
  bound is reached exactly at ties such as `m = 0.05`.

## Model

| member | source | states |
|---|---|---|
| Units.RoundHalfEven | adaptive_microlearning_app.py:33-34 | The result is within one half of the input, and a tie goes to the even neighbour. This is the rounding rule of the built-in `round`. |
| Units.Truncate | adaptive_microlearning_app.py:109-112 | `int(x)` drops the fraction toward zero: for `x >= 0` the result is the floor, and for negative `x` it is the ceiling. |
| Units.TruncateMonotone | adaptive_microlearning_app.py:109-112 | Dropping the fraction of non-negative values preserves order. |
| Units.ToUnits | adaptive_microlearning_app.py:33-34 | Non-positive minutes weigh 0 units. Otherwise, converting the units back lands within 0.05 minutes of the input. |
| Units.FromUnits | adaptive_microlearning_app.py:36-37 | Units back to minutes divides by the scale of 10: ten times the result is the unit count, and the result is non-negative exactly when the count is. |
| Units.ToUnitsFromUnits | adaptive_microlearning_app.py:33-37 | Units to minutes and back is the identity on every unit count. |
| Units.ToUnitsMonotone | adaptive_microlearning_app.py:33-34 | A longer segment never weighs fewer units. |
| Segments.LectureRecords | adaptive_microlearning_app.py:42-51 | The records of one lecture fail exactly when one of its first `n` segments lacks minutes, naming the first such segment. Otherwise record `si` carries segment `si` with the lecture's index and title and defaults 3 and 1 filled in. |
| Segments.FlattenPrefix | adaptive_microlearning_app.py:39-52 | Over the first `n` lectures, flattening fails exactly when some segment there lacks minutes. Otherwise it places segment `si` of lecture `li` at position `Offset(li) + si`. |
| Segments.Flatten | adaptive_microlearning_app.py:39-52 | It fails exactly when some segment has no minutes, and the fault names such a segment. Otherwise there is one record per segment, lectures in order and segments in order within each lecture. |
| Segments.FlattenRecordsAreSegments | adaptive_microlearning_app.py:39-52 | Every flattened record is the record of the segment at its own position, so nothing is duplicated or invented. |
| Eligibility.ExcludeCompleted | adaptive_microlearning_app.py:79-80 | A segment whose (title, topic) is completed occurs zero times. Every other segment keeps its multiplicity. |
| Eligibility.RestrictToScope | adaptive_microlearning_app.py:82-83 | A non-empty scope keeps exactly the segments of scoped lectures, with their multiplicity. An empty scope keeps everything. |
| Eligibility.Titles | adaptive_microlearning_app.py:88-90 | The grouping keys: every title occurs, only titles of the input occur, and none occurs twice. |
| Eligibility.FirstAppearance | adaptive_microlearning_app.py:88-90 | The index of the first segment of a lecture, or the input length when there is none: no earlier segment has that title. |
| Eligibility.TitlesInFirstAppearanceOrder | adaptive_microlearning_app.py:88-92 | The grouping keys are listed in the order in which each title first appears in the input, which is the order the grouping dictionary iterates. |
| Eligibility.InsertPermutes | adaptive_microlearning_app.py:94 | Inserting adds exactly the inserted segment to the multiset. |
| Eligibility.InsertSorted | adaptive_microlearning_app.py:94 | Inserting into an order-sorted list keeps it sorted. |
| Eligibility.SortByOrderSorted | adaptive_microlearning_app.py:94 | The sort by order (`SortByOrder`) yields an order-sorted permutation of its input. |
| Eligibility.SortByOrderStable | adaptive_microlearning_app.py:94 | The sort is stable: the segments of each order keep their relative order. |
| Eligibility.UnlockedContiguous | adaptive_microlearning_app.py:95-99 | The recursive unlock predicate is equivalent to "`k >= 1` and every order `1 .. k-1` occurs". |
| Eligibility.GateFromKeepsUnlocked | adaptive_microlearning_app.py:95-99 | The frontier pass (`GateFrom`) over order-sorted segments keeps exactly the unlocked ones, in order. |
| Eligibility.GateCount | adaptive_microlearning_app.py:88-100 | The gate (`Gate`) outputs each segment as often as the input holds it when its order is unlocked in its lecture, and never otherwise. |
| Eligibility.GateMembers | adaptive_microlearning_app.py:88-100 | A segment passes the gate if and only if it is in the input and its order is unlocked in its lecture. |
| Eligibility.GateKeepsPredecessor | adaptive_microlearning_app.py:95-99 | Every kept segment has order at least 1. A kept segment of order `k != 1` has a kept segment of order `k-1` in the same lecture. |
| Eligibility.GapBlocksHigherOrders | adaptive_microlearning_app.py:95-99 | If some order `j < k` is missing from a lecture, no segment of order `k` in that lecture passes. |
| Budget.Derate | adaptive_microlearning_app.py:109-112 | A derate never grows the unit count, and it is the floor of the scaled count. |
| Budget.DerateMonotone | adaptive_microlearning_app.py:109-112 | Derating by the same factor preserves order: a larger unit count never derates to a smaller one. |
| Budget.BudgetWindow | adaptive_microlearning_app.py:106-112 | Fatigue never widens the window beyond the base 0.7/1.3 window (`BaseWindow`). At fatigue 0.6 or below, the window is the base window. |
| Budget.BudgetMonotone | adaptive_microlearning_app.py:106-112 | More fatigue never widens either edge of the window. |
| FatigueModel.ComputeFatigue | adaptive_microlearning_app.py:54-56 | The increment is the minimum of 1.0 and the linear score. |
| FatigueModel.FatigueInUnitRange | adaptive_microlearning_app.py:54-56 | For non-negative minutes and difficulty the increment lies in [0, 1]. |
| FatigueModel.FatigueMonotone | adaptive_microlearning_app.py:54-56 | More minutes or harder material never lowers the increment. |
| Streak.UpdateStreak | adaptive_microlearning_app.py:58-71 | The date becomes today and the fatigue is untouched. On a new day the minutes restart at the session's minutes, and the streak becomes the old streak plus one if the session meets the target and 0 otherwise. On the same day the minutes accumulate, and the streak rises by one if and only if the total crosses the target. |
| Streak.SameDayRisesAtMostOnce | adaptive_microlearning_app.py:62-69 | Over any run of same-day updates with non-negative minutes, the streak rises by exactly one when the day's total crosses the target during the run, and otherwise stays put. |
| Streak.FirstSessionDecidesDay | adaptive_microlearning_app.py:62-69 | On a new day the outcome has three cases. A first session that meets the target gives the old streak plus one. A shorter first session gives 1 if the day later reaches the target, and 0 otherwise. |
| Streak.TwoCrossingSessionsCountOnce | adaptive_microlearning_app.py:66-69 | Two same-day sessions that each meet a positive target add exactly one day, not two. At a zero target no day is added, since the target is never crossed from below. |
| Knapsack.SubsetIsReachable | adaptive_microlearning_app.py:119-124 | Every subset's unit total is reachable in the reference sense. |
| Knapsack.ReachableIsSubset | adaptive_microlearning_app.py:119-124 | Every reachable total is the total of some subset of positive-weight items. |
| Knapsack.BuildTable | adaptive_microlearning_app.py:117-124 | The table has `cap + 1` entries, and entry 0 is the start mark. Entry `s` is reached if and only if `s` is a reachable subset total, and it then records the first item whose addition reaches `s`. |
| Knapsack.LastReached | adaptive_microlearning_app.py:126-128 | The upward scan of `[low, cap]` returns the largest reached total there, or the default. |
| Knapsack.FirstReachedDown | adaptive_microlearning_app.py:129-131 | The downward scan returns the largest reached total at or below its start, or -1 if there is none. |
| Knapsack.FirstReachedUp | adaptive_microlearning_app.py:132-134 | The last upward scan returns the smallest reached total in its range, or -1. |
| Knapsack.ChooseBestAsWritten | adaptive_microlearning_app.py:126-134 | The choice as written fails if and only if `low` exceeds the table length, with an out-of-range read at index `low - 1`. Otherwise it yields -1 or a reached total of the table. |
| Knapsack.ChooseBest | adaptive_microlearning_app.py:126-134 | The target is a reached total in the table. It is the largest reached total at or above `low` when one exists, and otherwise the largest below `low`. |
| Knapsack.AsWrittenFaultsOnlyPastTable | adaptive_microlearning_app.py:126-134 | The as-written choice fails if and only if `low` exceeds the table length. Otherwise it agrees with the corrected choice. |
| Knapsack.FallbackScanIsDead | adaptive_microlearning_app.py:132-134 | When the first scan finds nothing, the downward scan always succeeds and the last fallback's range is empty of reached totals. |
| Knapsack.TargetIgnoresLowEdge | adaptive_microlearning_app.py:126-131 | The chosen target does not depend on the window's low edge: it is always the largest reached total. |
| Knapsack.AsWrittenFaultsOnZeroWeights | adaptive_microlearning_app.py:117-131 | When every item weighs zero units, the table is `[-2]`, and any `low >= 2` makes the as-written choice read index `low - 1` of a table of length 1. |
| Knapsack.Reconstruct | adaptive_microlearning_app.py:137-142 | The backtrack from a reachable target takes distinct positive-weight items whose units sum to exactly the target. The repeat guard never fires. |
| Knapsack.NoSubsetBeatsTarget | adaptive_microlearning_app.py:116-135 | No subset whose total fits the capacity has more units than the target. |
| Knapsack.SelectAsWritten | adaptive_microlearning_app.py:116-142 | The selector as written fails exactly when `low > cap + 1`, reading index `low - 1` of a table of length `cap + 1`. Otherwise its target satisfies `BestTarget`: it is the largest reachable total within the capacity. The picked distinct positive-weight items sum to it. |
| Knapsack.Select | adaptive_microlearning_app.py:116-142 | With the target choice corrected, the selector never fails. Its target satisfies `BestTarget`: it is the largest reachable total within the capacity `min(sum, high)` (`Capacity`), and it is at or above `low` exactly when some reachable total there is. The picked distinct positive-weight items sum to it. |
| Recommend.PicksOfSub | adaptive_microlearning_app.py:144-148 | The chosen list is a sub-multiset of the summaries of the eligible segments. |
| Recommend.PicksOfTotals | adaptive_microlearning_app.py:144-150 | The reported total is the picked segments' minutes, and their units are the picked index set's units. |
| Recommend.PicksOfWeigh | adaptive_microlearning_app.py:120-121 | When every picked index weighs some units, every chosen record does too. The table never records a zero-weight item, so no such item reaches the chosen list. |
| Recommend.Eligible | adaptive_microlearning_app.py:75-100 | It fails exactly when a segment lacks minutes. Every eligible segment is uncompleted, in scope and flattened from the document. A segment is eligible if and only if it is a candidate whose order is unlocked among its lecture's candidates. |
| Recommend.TinySegmentWeighsNothing | adaptive_microlearning_app.py:33-34 | A segment of at most 0.05 minutes weighs zero units. |
| Recommend.AsWrittenFaultsOnTinySegments | adaptive_microlearning_app.py:116-131 | When all eligible segments are at most 0.05 minutes and the low edge is at least 2 units, the as-written target choice reads past the table. |
| Recommend.EqualMinutes | adaptive_microlearning_app.py:106 | The available minutes of `n` segments of `c` minutes each are `c * n`. |
| Recommend.ShortTargetWindow | adaptive_microlearning_app.py:107-112 | A 0.3-minute target at fatigue 0 gives the unit window [2, 4]. |
| Recommend.OpenGateKeepsAll | adaptive_microlearning_app.py:93-99 | When every segment has order 1, the gate keeps every segment with its multiplicity. |
| Recommend.TinyDocumentFlattens | adaptive_microlearning_app.py:39-52 | A document of one lecture with six 0.04-minute segments of default order flattens without fault into six records of 0.04 minutes and order 1. |
| Recommend.TinyDocumentEligible | adaptive_microlearning_app.py:74-100 | A document of one lecture with six 0.04-minute segments of default order flattens without fault, and with nothing completed and no scope all six segments are eligible. |
| Recommend.TinySegmentsFault | adaptive_microlearning_app.py:106-131 | Six eligible 0.04-minute segments under the window [2, 4] pass the take-everything guard, weigh nothing, and leave the low edge past the table, so the as-written selector reads out of range. |
| Recommend.TinyDocumentFaults | adaptive_microlearning_app.py:74-131 | On that document with a 0.3-minute target at fatigue 0, the take-everything guard does not fire and the low edge lies past the table, so the as-written pipeline fails. |
| Recommend.OutcomeNothingExactly | adaptive_microlearning_app.py:126-135 | Once there are eligible segments and the take-everything guard has not fired, a result allowed by `Outcome` is `Nothing` if and only if no positive unit total is reachable within the capacity. This is the `best <= 0` return, in both directions. |
| Recommend.Collect | adaptive_microlearning_app.py:144-150 | Given picked indices of positive-weight segments, as the backtrack yields: the chosen records are a sub-multiset of the eligible segments' summaries, each weighing some units. The reported total is their minutes, their units are the picked index set's units, and every key named comes from an eligible segment. |
| Recommend.Choose | adaptive_microlearning_app.py:102-150 | The code as written. It fails, with an out-of-range read at `low - 1` of a table of length `cap + 1`, exactly when `SelectorFaults` holds: there are eligible segments, the take-everything guard does not fire, and `low > cap + 1`. Otherwise the result is as `Outcome` states, with three cases. `Nothing` means no eligible segment, or no positive reachable total within the capacity. `TakeAll` means the low edge exceeds the available minutes, and it returns every segment with their sum. `Chosen` is a non-empty list of distinct eligible segments, each weighing some units, whose positive unit total is the selector's target (`BestTarget`) and whose reported total is their true minutes. Because `Chosen` needs a positive reachable target, `Nothing` is the only result when there is none, as the `best <= 0` return gives. |
| Recommend.ChooseCorrected | adaptive_microlearning_app.py:102-150 | With the target choice corrected, the result is as `Outcome` states, in the same three cases as `Choose`, and there is no failure. |
| Recommend.Recommend | adaptive_microlearning_app.py:74-150 | The code as written. A segment without minutes makes the call fail with that fault. Otherwise the eligible segments are computed, and the call fails with an out-of-range read exactly when `SelectorFaults` holds of them and the fatigue-derated window. On success the result is as `Outcome` states, and it never names a completed or out-of-scope segment. |
| Recommend.RecommendCorrected | adaptive_microlearning_app.py:74-150 | With the target choice corrected, the call fails exactly when a segment lacks minutes. Otherwise the result is as `Outcome` states over the eligible segments and the fatigue-derated window, naming no completed or out-of-scope segment. |

## Left out

- Loading and saving the store, and the whole interactive interface: these are file I/O and UI, not logic.
- `date.today()` is replaced by a `today: Day` parameter of `Streak.UpdateStreak`.
- The default daily target of 15.0 and the default streak record used when the store lacks them are not modelled. The target and the record are parameters.
- The accumulation of fatigue and streak when a batch is marked done happens in the interface code, outside the core.
- Binary floating point is not modelled. Minutes are exact reals, so sums and scalings that round in IEEE doubles are exact here. `round` and `int` are modelled exactly on reals.
- The record identifier string `"li-si"` is not modelled. Each record carries its segment index, which together with the lecture index determines it.
- A missing lecture title or topic (`None` in the code) is not modelled: titles and topics are plain strings. A lecture without a segment list is the empty list.
- Difficulty and order values that `int(...)` would convert from strings or floats are not modelled. They are integers or absent. So the faults the code raises on a stored `null` difficulty or order (`int(None)`) or on non-numeric minutes are not modelled either.
- Recommend.Choose, Recommend.ChooseCorrected, Recommend.Recommend, Recommend.RecommendCorrected: the `Chosen` list is in ascending index order, while the code lists it in set iteration order. The contract states that the list holds only positive-weight eligible segments, with the selector's unit total and their true minutes, not which of several subsets with the same total the backtrack finds.
- Knapsack.Select, Knapsack.SelectAsWritten: state the target and that the picked items sum to it, not which subset the table's backtrack picks.
- Recommend.Eligible: states membership (and, through `Eligibility.GateCount`, multiplicity), not the output order: lectures by first appearance (which `Eligibility.TitlesInFirstAppearanceOrder` states of the grouping keys), then segments by order.

## Findings

| source | as written | input that shows it | evidently intended | confidence | as-written member | corrected member |
|---|---|---|---|---|---|---|
| adaptive_microlearning_app.py:129-131 | When no reached total lies in `[low_u, cap]`, the fallback scans down from `dp[low_u - 1]`. That index is past the table's end whenever `low_u >= cap + 2`. | A daily target of 0.3 minutes at fatigue 0 gives `low_u = 2` and `high_u = 4`. Take one lecture with six segments of 0.04 minutes, default order, nothing completed. Each segment weighs 0 units, so `cap = 0` and the table is `[-2]`. The available 0.24 minutes are not below `from_units(2) = 0.2`, so the take-everything return is skipped and the scan reads `dp[1]`, raising `IndexError`. Stated by `Recommend.TinyDocumentFaults` together with the contract of `Recommend.Recommend`. | Start the downward scan at `min(low_u - 1, cap)`. It then always ends at the largest reached total below the window, at worst the empty selection. | not executed | Knapsack.ChooseBestAsWritten, Knapsack.SelectAsWritten, Recommend.Recommend | Knapsack.ChooseBest, Knapsack.Select, Recommend.RecommendCorrected |

# Animated treemap: data preparation and period sequencing

A Dafny model of the data path of the Power BI treemap visual's `update`
method (`src/visual.ts`). The host supplies a table of
`(category, value, period)` rows. `update` does five things:

1. It copies the rows into three parallel columns: `names`, `values` and `periods`.
2. It builds the period axis: the distinct periods, sorted ascending.
3. For each period it keeps the `{ category, value }` records of the rows
   with exactly that period (`filteredData`).
4. It groups those records by category and sums each group with `d3.group` and
   `d3.sum`. It then sums the group totals into `totalValue`.
5. It labels each leaf with `value / totalValue * 100`.

`animatePeriods` draws one such frame per period. It starts at index 0 and
stops once the index reaches the number of periods.

Modules, from the most basic up:

- `Seqs` (seqs.dfy): duplicate-freedom and ordering predicates, the left-fold
  `Sum` that `d3.sum` computes, and `Distinct`. `Distinct` gives the
  insertion-ordered contents of a `Set` or the key order of a `Map`. The
  period axis and the group order both use it.
- `Table` (table.dfy): rows, columns and the row split.
- `Periods` (periods.dfy): `new Set(periods)` followed by the numeric sort.
- `Filter` (filter.dfy): `filteredData`.
- `Grouping` (grouping.dfy): `d3.group`, the per-group `d3.sum`, and `totalValue`.
- `Shares` (shares.dfy): the percentage label and the leaves that one
  `createTreemap` call draws.
- `Scheduler` (scheduler.dfy): the index progression of `animatePeriods`, as
  a pure "render and go to the next index, or stop" step.
- `Visual` (visual.dfy): the whole of `update`, as the sequence of frames it draws.

Categories are strings and values and periods are integers. The percentage is
an exact real. When `totalValue` is zero, the label becomes the IEEE special
value that JavaScript division yields there: `NaN`, `+Infinity` or `-Infinity`.
When the data of a frame is empty, `groupedData` is empty and the hierarchy
root is the only leaf. The model draws it as a bare root node with no key, no
value and the label `NaN` (`undefined / 0 * 100`).

Some behaviour of `src/visual.ts` that the model keeps as it is:

- The code has no value interpolation between periods.
- The code has no "largest first" ordering. Groups come out in the order their
  category is first seen.
- The code has no cancellation and no scheduler state. There is only the
  self-rescheduling `animatePeriods` chain, with a fixed 2-second delay.
- With a single period, the code still schedules one more call. That call
  renders nothing. The model shows this as a chain that renders once and
  then stops.

## Model

| member | source | states |
|---|---|---|
| Table.Split | src/visual.ts:28-36 | The three columns have the length of the row table, and index `i` of `names`, `values` and `periods` holds the category, value and period of row `i`. |
| Seqs.Distinct | src/visual.ts:39 | The insertion-ordered contents of a `Set` have no duplicates and hold a value exactly when the input does. |
| Seqs.DistinctKeepsFirstOccurrenceOrder | src/visual.ts:39 | In a `Set` (or a `Map`'s keys) an element comes before another only if it was seen before every occurrence of the other. The elements are in first-occurrence order. |
| Periods.SortAscending | src/visual.ts:39 | The numeric sort returns an ascending permutation of its input, with the same multiset. |
| Periods.UniquePeriods | src/visual.ts:39 | `uniquePeriods` is strictly ascending, so it has no duplicates, and it contains a period exactly when the period column does. |
| Periods.SortedSetIsUnique | src/visual.ts:39 | Two strictly ascending sequences with the same elements are equal. The result does not depend on which sort algorithm is used. |
| Periods.UniquePeriodsIsSortedSetOfPeriods | src/visual.ts:39 | `uniquePeriods` is the only strictly ascending enumeration of the distinct periods. |
| Filter.MatchingIndices | src/visual.ts:42-43 | The row indices whose period is `===` to the chosen one. Each listed index matches, every matching index is listed, and the indices increase. |
| Filter.FilteredDataSelectsMatchingRows | src/visual.ts:42-49 | The map-to-`undefined`-then-filter pipeline yields one `{ category, value }` record per matching index, in index order, and nothing else. |
| Filter.FilterKeepsExactlyTheRowsOfPeriod | src/visual.ts:28-49 | In terms of the rows: record `k` of `filteredData(p)` is the category and value of the `k`-th row with period `p`. Every row with period `p` is kept and order is preserved. |
| Filter.FilteredDataNonEmptyIff | src/visual.ts:42-49 | `filteredData(p)` is non-empty if and only if some row has period `p`. |
| Grouping.FindKey | src/visual.ts:52 | The `Map` lookup either finds a bucket whose key is the category, or reports that no bucket has that key. |
| Grouping.GroupByKeys | src/visual.ts:52 | The keys of `d3.group` are the distinct categories of the data, in order of first occurrence. |
| Grouping.GroupByMembers | src/visual.ts:52 | Each bucket of `d3.group` holds exactly the records of its category, in data order, as the independent per-category filter `OfCategory` selects them. |
| Grouping.OfCategoryFromData | src/visual.ts:52 | The per-category reference selection only contains records of the data that have that category. |
| Grouping.GroupSumKeys | src/visual.ts:52 | The keys of `groupedData` are the distinct categories of the data: pairwise different, in order of first occurrence, holding each category present and nothing else. |
| Grouping.GroupSumValues | src/visual.ts:52 | Each entry of `groupedData` carries the sum of the values of that category's records, as the independent per-category selection `OfCategory` gives them. |
| Grouping.GroupByKeepsTotal | src/visual.ts:52 | The bucket sums of `d3.group` together add up to the sum of all record values. |
| Grouping.TotalValueConserves | src/visual.ts:52-55 | `totalValue` (the sum of the grouped values) equals the sum of all the filtered records' values. |
| Shares.Percentage | src/visual.ts:106 | The label is finite exactly when the total is non-zero. A finite label times the total equals 100 times the value. With `0 <= value <= total` and a positive total, the label lies in [0, 100]. With a zero total, it is `NaN` exactly when the value is 0. |
| Shares.CreateTreemap | src/visual.ts:51-106 | With non-empty data, every node is a group leaf and the leaf keys are the distinct categories of the data in order of first occurrence, so no key repeats. Each leaf's value is its category's sum, and its label is that sum's percentage of the sum of all the data's values. The frame is the bare root labelled `NaN` exactly when the data is empty. |
| Shares.LeavesPercentSum | src/visual.ts:55 | With a non-zero total, the labels of the leaves add up to (sum of group values) / total × 100. |
| Shares.SharesSumToHundred | src/visual.ts:106 | With non-negative group values and a positive `totalValue`, every label is finite and in [0, 100], and the labels sum to 100. |
| Shares.TreemapSharesSumToHundred | src/visual.ts:52-55 | The same for one `createTreemap(data)` call, given non-negative record values with a positive sum. |
| Shares.SingleRecordFrame | src/visual.ts:52-55 | A single record draws a single leaf with its category and value, labelled with its share of itself. |
| Shares.TwoCategoryFrame | src/visual.ts:52-55 | Two records of different categories draw two leaves in record order, each labelled with its share of the pair's sum. |
| Shares.EqualPairSplitsEvenly | src/visual.ts:106 | Two categories of equal positive value are each labelled 50%. |
| Scheduler.RunFrom | src/visual.ts:135-145 | Starting from index `i`, the chain renders indices `i, i+1, …, n-1` in order, each with its own period, and nothing else. |
| Scheduler.AnimateVisitsEachPeriodOnce | src/visual.ts:135-147 | `animatePeriods(uniquePeriods)` renders index `k` as its `k`-th render, for every `k < n`. Each index is rendered exactly once. A call at index `n` renders nothing. |
| Visual.AxisOfRows | src/visual.ts:28-39 | In terms of the rows: the period axis is strictly ascending and holds a period exactly when some row carries it. |
| Visual.EmptyPeriodHasNoGroups | src/visual.ts:42-106 | A period that no row carries gives no groups and a zero `totalValue`. Its frame is the bare hierarchy root, labelled `NaN`. |
| Visual.UpdateDrawsEachPeriodOnce | src/visual.ts:135-147 | `update` draws one frame per distinct period, in ascending period order. Frame `k` is `createTreemap(filteredData(uniquePeriods[k]))`. Every drawn frame is non-empty and consists of group leaves only, never the bare root. |
| Visual.PeriodFrameSharesSumToHundred | src/visual.ts:52-55 | Suppose the rows of period `p` have non-negative values with a positive sum. Then every label of that period's frame is finite and in [0, 100], and the labels sum to 100. |
| Visual.UpdateSharesSumToHundred | src/visual.ts:137-139 | Suppose all values are non-negative and every period's values have a positive sum. Then every frame `update` draws has finite labels in [0, 100] that sum to 100. |
| Visual.TwoPeriodExample | src/visual.ts:28-55 | For rows (X,10,1), (Y,5,1), (X,20,2), the first frame shows X=10 and Y=5 and the second shows X=20 alone. |

## Left out

- Treemap tiling (`d3.treemap` with size, padding and rounding, src/visual.ts:58-68) is a library algorithm whose source is not part of this model. It contributes only one leaf per grouped entry, in `groupedData` order, or the bare root when there is no entry. No rectangle coordinates are modelled.
- SVG and DOM work is rendering I/O and is not modelled. This covers element creation, the keyed enter/exit/update join, label offsets and the 800 ms transitions (src/visual.ts:12-17, 24, 74-132).
- Colour assignment through `d3.scaleOrdinal(d3.schemeCategory10)` (src/visual.ts:71) is a library call.
- The 2-second `setTimeout` between periods (src/visual.ts:141-143) is timing. Only the order of the calls is modelled.
- Timer chains of earlier `update` calls keep running alongside later ones, because the code never cancels them. That is concurrency, and it is not modelled.
- `toFixed(1)` formatting and double-precision rounding of the label (src/visual.ts:106) are not modelled. The label is an exact real.
- The Power BI interface is not modelled: `options.dataViews[0]`, the viewport, and a missing data view or table (src/visual.ts:20-27).
- Values and periods are JavaScript numbers, which are doubles. The model takes them as integers: fractional values and periods are not modelled, and `d3.sum` is exact addition. In the code, the sums round. Grouping changes the order in which values are added, so `Grouping.TotalValueConserves` and the labels summing to 100 hold exactly in the code only for integer data whose partial sums stay below 2^53.
- Rows are modelled as typed `(string, int, int)` triples. The source types them `any`. Non-numeric periods, where the `a - b` comparator gives `NaN`, are not modelled. Neither are non-numeric values, which `d3.sum` would skip or coerce.

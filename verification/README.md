# Tide analyzer: verified model of the tide picker

The tide analyzer reads a spreadsheet of timestamped gauge readings, keeps the
rows of a chosen date range, turns each raw reading into a "modified value"
(`constant - raw`), and then picks the three highest crests and the three
lowest troughs that lie at least 24 hours apart. This project models, in Dafny,
the two pure pieces of that pipeline in `combinedFinal.py`:

- `select_tides`: sort the rows by value (descending for crests, ascending for
  troughs), walk them in that order, accept a row only when it is at least
  `min_gap_hours` away in absolute time from every row already accepted, stop
  as soon as `n` rows are held, and return the accepted rows sorted by time;
- the row filter and transform of `process_excel`: keep the rows whose
  calendar date lies in `[start, end]` (both ends inclusive), in their order,
  and set `modified = constant - raw`.

Modules:

- `Tables` (`tables.dfy`): the `Row` entity (time in whole seconds, raw level,
  modified value), the crest/trough `Mode`, the two sort keys, and absolute
  time distance.
- `Sorting` (`sorting.dfy`): what any `sort_values` call guarantees (a
  reordering in ascending key order, `IsSortOf`), an insertion sort as one
  concrete sort, proved stable (`SortStable`), and the fact that with
  distinct timestamps the time sort has only one possible outcome.
- `TideSelection` (`selection.dfy`): the greedy scan, an unbounded reference
  greedy, the wrapper that sorts the result by time, and the properties.
- `Preprocess` (`preprocess.dfy`): the date-range filter and transform.

Modelling decisions:

- pandas' default `sort_values` is not stable, so ties between equal values
  may come out in any order. `SelectTidesFrom` takes the value-sorted order as
  an argument (`IsValueOrder`: a reordering of the input, sorted by value in
  the mode's direction), and every property is proved for every such order.
  `SelectTides` fixes one order, the stable insertion sort.
- The final sort by time is also described only by what any sort guarantees:
  the output is a time-sorted reordering of the accepted rows.
  `SeparatedTimeSortUnique` shows that with a positive gap the choice of
  sort makes no difference.
- Time is an integer number of seconds and `timedelta(hours=h)` is
  `h * 3600` (`GapSeconds`). Values are `real`.
- `n` is an unrestricted integer, as in the source. `min_gap_hours` is any
  whole number of hours; a gap too large for a `timedelta` is an error (see
  below). The length check runs after every candidate, so for `n <= 0` it can never fire:
  the first candidate is always accepted (nothing is selected yet to block
  it), so the length is already at least one at the first check. The scan then
  runs to the end (`ScanIsTruncatedGreedy`).
- Selecting from an empty table raises in the source: `pd.DataFrame([])` has
  no time column for `sort_values(by=time_col)` to sort by. The model returns
  `Failure(EmptySelection)`, which happens exactly when the input is empty.
- `timedelta(hours=min_gap_hours)` is built inside the acceptance test, once
  per comparison with an accepted row, and raises `OverflowError` when
  `min_gap_hours // 24` lies outside ±999,999,999 days (`GapRepresentable`).
  The first candidate meets an empty selection, so the gap is first built
  when a second candidate is tested: with at least two rows and `n != 1`
  (`ComparesGapExactly`). The model returns `Failure(GapOverflow)` exactly
  then.

## Model

| member | source | states |
|---|---|---|
| TideSelection.Scan | combinedFinal.py:46-54 | the scan only ever appends: the rows accepted so far stay a prefix of the result, and it never holds more than `n` rows when `n` is positive |
| TideSelection.ScanDrawsFromCandidates | combinedFinal.py:45-52 | every returned row is drawn from the candidates, each candidate position at most once (a sub-multiset) |
| TideSelection.ScanSeparated | combinedFinal.py:50-52 | any two returned rows are at least the gap apart in absolute time |
| TideSelection.StepSeparated | combinedFinal.py:50-52 | accepting a candidate only when it is at least the gap from every accepted row keeps the accepted rows pairwise separated |
| TideSelection.Greedy | combinedFinal.py:48-52 | the scan without the count limit only ever appends: the rows held so far stay a prefix of its result |
| TideSelection.ScanIsTruncatedGreedy | combinedFinal.py:52-54 | the `break` after `n` rows only cuts the unbounded greedy short: the result is its first `n` picks for positive `n`, and all of its picks for `n <= 0` |
| TideSelection.GreedyMaximal | combinedFinal.py:48-52 | every candidate the scan visits is either accepted or lies strictly within the gap of an accepted row |
| TideSelection.ScanAccounts | combinedFinal.py:45-54 | over a value-sorted candidate list, every candidate is accepted, or blocked by an accepted row at least as extreme, or (after the early stop) no more extreme than every accepted row |
| TideSelection.ComparesGapExactly | combinedFinal.py:48-53 | starting from an empty selection, the scan compares a candidate with an accepted row (and so builds the gap `timedelta`) exactly when there are at least two candidates and `n != 1` |
| TideSelection.FirstAccepted | combinedFinal.py:48-52 | the first candidate is always accepted, because `all` over an empty selection is true |
| TideSelection.SeparatedPermutation | combinedFinal.py:56 | reordering the selection (the final sort by time) keeps every pair of rows at least the gap apart |
| TideSelection.SelectTidesFrom | combinedFinal.py:43-56 | for any value-sorted order of the input: fails with `EmptySelection` exactly when the input is empty, and with `GapOverflow` exactly when there are at least two rows, `n != 1` and `timedelta(hours=min_gap_hours)` is out of range; otherwise returns a time-sorted reordering of the accepted rows, a sub-multiset of the input, pairwise at least `min_gap_hours` apart, at most `n` rows when `n >= 1` |
| TideSelection.SelectTides | combinedFinal.py:43-56 | with the stable value order (ties in input order): the same two failures under the same conditions; otherwise returns time-sorted rows drawn from the input, pairwise at least `min_gap_hours` apart, at most `n` rows when `n >= 1` |
| TideSelection.SelectHasExtremum | combinedFinal.py:45-52 | a successful result contains a row whose value is at least every input value for crests, at most every input value for troughs |
| TideSelection.SelectMaximal | combinedFinal.py:48-54 | when fewer than `n` rows are returned (or `n <= 0`), every input row is returned or lies strictly within `min_gap_hours` of a returned row |
| TideSelection.SelectDominance | combinedFinal.py:45-54 | an input row left out although strictly more extreme than some returned row lies strictly within `min_gap_hours` of a returned row at least as extreme as itself |
| TideSelection.SeparatedTimeSortUnique | combinedFinal.py:56 | rows pairwise at least a positive gap apart have only one time-sorted order, so the unstable time sort cannot change the output |
| TideSelection.SelectLoop | combinedFinal.py:46-54 | the `for`/`break` loop computes exactly the recursive scan from an empty selection |
| Sorting.Sort | combinedFinal.py:45 | sorting returns a reordering of the input (same multiset) in ascending key order |
| Sorting.InsertWithKey | combinedFinal.py:45 | inserting a row into a sorted sequence puts it ahead of every row that shares its key and leaves the order of the rows of each key otherwise unchanged |
| Sorting.SortStable | combinedFinal.py:45 | the insertion sort is stable for every key: the rows carrying any one key value appear in the result in their input order |
| Sorting.ValueSortStable | combinedFinal.py:45 | the value order `SelectTides` uses (one of the orders pandas' sort may produce) keeps rows of equal value in the order they were read |
| Sorting.TimeSortUnique | combinedFinal.py:56 | two time-sorted reorderings of the same rows with pairwise distinct times are equal |
| Preprocess.FilterRows | combinedFinal.py:27-35 | an input row is kept exactly when its date lies in `[start, end]`; every kept row comes from the input, lies in the range and has `modified = constant - raw`; no more rows than the input |
| Preprocess.FilterRowsAppend | combinedFinal.py:27-30 | the filter decides row by row and preserves order: filtering a concatenation is the concatenation of the filtered parts |
| Preprocess.InRangeSeconds | combinedFinal.py:27-30 | the inclusive day range is the half-open range of timestamps from midnight of the start day to midnight after the end day |

## Left out

- Reading the Excel file, renaming the first column, and parsing the
  timestamp and start/end date strings (combinedFinal.py:9-25) are file I/O
  and library parsing. Timestamps arrive as seconds and dates as day numbers,
  and the parse errors they raise are not modelled.
- The error raised when the sheet has no third column (combinedFinal.py:36-37)
  is not modelled. Each reading carries its third-column value.
- Columns other than the timestamp, the third column and the modified value
  are not carried in `Row`.
- Sub-second timestamps and fractional `min_gap_hours` are not modelled.
  Times are whole seconds and the gap is a whole number of hours.
- Floating-point arithmetic and NaN values are not modelled. Values are exact
  reals, so pandas' placement of NaN at the end of a sort does not arise.
- `plot_tide_results` (combinedFinal.py:58-76) is plotting.
- `main` (combinedFinal.py:80-131) is Streamlit UI, spreadsheet export and the
  download button. Its two calls to `select_tides` (n = 3, 24 hours, crests
  and troughs) are instances of `SelectTidesFrom` for whatever value order
  pandas produces; they agree with `SelectTides` when that order keeps ties
  in input order.
- The column-name parameters `value_col` and `time_col` of `select_tides`
  (combinedFinal.py:43) are fixed to `Row.modified` and `Row.time`, and the
  defaults `min_gap_hours=24` and `high=True` are not modelled: every argument
  is explicit, as in both calls from `main` (combinedFinal.py:114-117).

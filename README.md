# carbideui core rules, modelled in Dafny

carbideui is an Angular widget library. This project models the rules that
four of its components hold, apart from rendering and framework plumbing:

- **Data table** (`ngcc-table.ts`, `ngcc-table-search.service.ts`,
  `ngcc-table.service.ts`). `processedRows` is a pure pipeline over a copy of
  the caller's rows: filter, then sort, then paginate. The sort orders the
  rows by the table's comparator: null first in both directions, numeric
  when both values read as numbers, `localeCompare` otherwise, negated for
  descending. The module also covers:
  - the three-state sort toggle and the sort indicators;
  - page clamping and the page count;
  - row selection as a set of indices, with select-all and indeterminate;
  - the case-insensitive substring search, whose query lives in one
    root-provided `SearchService` that every table shares;
  - the shared store that clears the selection when rows are replaced.

  Rows are maps from column keys to `Null | Num(int) | Str(string)`.
  `DataTable` and `TableStore` are classes whose methods update the
  component's fields.
- **Pagination** (`ngcc-pagination.ts`). Page count, first and last item
  shown, the disabled flags, and clamped navigation by page number or arrow
  keys, with optional wrap-around. Each emission is an `Option<int>`.
- **Date-picker calendar** (`ngcc-date-picker-calendar.ts`). The grid has
  leading blanks, then one cell per day, each carrying its flags. The model
  also covers the chunking into weeks, keyboard focus movement, month
  stepping, and the focus on today's cell.
  - `BuildCells` and `Weeks` keep the source's loops and are proved against
    specification functions.
  - The component is the class `DatePickerCalendar`. The clock is a `today`
    parameter.
- **Date-picker input** (`ngcc-date-picker.ts`). The display formats
  MM/DD/YYYY, DD/MM/YYYY and YYYY-MM-DD, the ISO strings exchanged with
  forms, and the class `DatePickerInput`. Its methods update the
  `value`/`endValue`/`calendarOpen`/`selectingRangeEnd`/`invalid`/`warn`
  fields on calendar clicks, on typed text and on form writes.

Dates are calendar triples `Date(year, month0, day)` in the proleptic
Gregorian calendar. `CivilDate.MakeDate` models `new Date(y, m, d)`, including:
- the constructor reading years 0..99 as 1900..1999;
- month overflow carrying into the year;
- day overflow stepping across month lengths.

`Text` models the JavaScript string and number conversions the components
use: `String(n)`, `Number(s)`, `padStart`, `split`, `trim`, `toLowerCase`,
`includes` and `localeCompare`.

Behaviour of the code that the proofs pin down:
- **Two-digit years.** The display and ISO round trips hold only for years
  outside 0..99.
  - The code prints the full year but reads it back through the Date
    constructor, which maps 0..99 to 1900..1999. `"01/02/5"` reads as
    2 January 1905 (`DatePicker.TwoDigitYearExample`).
  - The ISO round trip also needs a non-negative year, because a minus sign
    in the year adds a fourth `-`-separated part.
- **YYYY-MM-DD never reads back.** A picker in this format cannot read back
  its own display text, because `displayToDate` splits only on `/`
  (`DatePicker.IsoFormatNeverParses`). A range picker in this format therefore
  always treats the second click as a new start.
- **Mixed sort columns.** The comparator is not transitive on a column that
  mixes numeric and non-numeric text ("2" < "10" numerically, "10" < "1a"
  and "1a" < "2" as strings). Sortedness is therefore proved for columns
  whose values are all numeric-or-null or all text-or-null. Null-first and
  permutation are proved for every column. On a mixed column ECMAScript
  leaves the order `sort` produces implementation-defined; the model's
  insertion-sort order is one permitted outcome.
- **Stable sort.** Rows that compare equal leave the sort in the order they
  entered it, on every column (`TableSort.SortRowsStable`). In particular
  rows without a key keep their input order in both directions
  (`TableSort.SortRowsNullsKeepOrder`).
- **Select-all twice.** From a partial selection of a non-empty page,
  toggling all rows twice leaves the selection empty, not as it was
  (`Table.ToggleAllTwiceClears`). From a full selection it selects every
  shown row again (`Table.ToggleAllTwiceFromAll`).
- **One keystroke, two emissions.** Typing into a range field emits the ISO
  pair whenever either end reads as a day, and then emits the range again in
  the configured form (`DatePicker.TypedRangeEmitsTwice`). Only the second
  of these reaches the form's change callback. Typed single
  text that does not read as a day is emitted as it stands.
- **Copies, not mutation.** `processedRows` never alters the caller's rows.
  The pipeline is a function from the rows to a new sequence.

## Model

| member | source | states |
|---|---|---|
| Text.IntToStringRoundTrip | projects/carbideui/src/lib/ngcc-datepicker/ngcc-date-picker.ts:462-477 | `Number(String(n)) == n` for every integer, the step the date parsers rely on |
| Text.Pad | projects/carbideui/src/lib/ngcc-datepicker/ngcc-date-picker.ts:440-442 | `padStart(2, '0')` gives at least two decimal digits that read back as `n` |
| Text.SplitThree | projects/carbideui/src/lib/ngcc-datepicker/ngcc-date-picker.ts:464-465 | splitting three separator-free pieces joined by the separator gives exactly those three pieces |
| Text.SplitNoSeparator | projects/carbideui/src/lib/ngcc-datepicker/ngcc-date-picker.ts:464-465 | text without the separator splits into the single piece itself |
| Text.LocaleCompareAntisymmetric | projects/carbideui/src/lib/ngcc-table/ngcc-table.ts:140 | the string order used for non-numeric sort keys is antisymmetric |
| Text.LocaleCompareTransitive | projects/carbideui/src/lib/ngcc-table/ngcc-table.ts:140 | the string order is transitive |
| Text.LocaleCompareZero | projects/carbideui/src/lib/ngcc-table/ngcc-table.ts:140 | the string order returns 0 exactly for equal strings |
| Text.ParseNumber | projects/carbideui/src/lib/ngcc-datepicker/ngcc-date-picker.ts:469-474 | `Number(s)` on the modelled forms: the empty string reads as 0 and any other text that reads ends in a digit; its round trip is `Text.IntToStringRoundTrip` |
| Text.Split | projects/carbideui/src/lib/ngcc-datepicker/ngcc-date-picker.ts:464-465 | `split` returns at least one piece; the pieces are pinned down by `Text.SplitThree` and `Text.SplitNoSeparator` |
| Text.LocaleCompare | projects/carbideui/src/lib/ngcc-table/ngcc-table.ts:140 | returns -1, 0 or 1; a total order by `Text.LocaleCompareAntisymmetric`, `Text.LocaleCompareTransitive` and `Text.LocaleCompareZero` |
| CivilDate.DaysInMonth | projects/carbideui/src/lib/ngcc-datepicker/ngcc-date-picker-calendar.ts:270-273 | months have 28 to 31 days, and 29 exactly for February of a leap year |
| CivilDate.MonthSteppingInverse | projects/carbideui/src/lib/ngcc-datepicker/ngcc-date-picker-calendar.ts:243-263 | stepping a month back undoes stepping forward and vice versa |
| CivilDate.BeforeIsDayNumberOrder | projects/carbideui/src/lib/ngcc-datepicker/ngcc-date-picker-calendar.ts:318-330 | calendar order of valid days is the order of their day numbers (timestamps at midnight), and equal days have equal numbers |
| CivilDate.NextMonthWeekday | projects/carbideui/src/lib/ngcc-datepicker/ngcc-date-picker-calendar.ts:269-272 | the first of the next month falls `DaysInMonth` weekdays after the first of this month |
| CivilDate.WeekdayExamples | projects/carbideui/src/lib/ngcc-datepicker/ngcc-date-picker-calendar.ts:272 | `getDay()` with Sunday = 0 on known dates |
| CivilDate.MakeDate | projects/carbideui/src/lib/ngcc-datepicker/ngcc-date-picker.ts:476 | `new Date(y, m, d)` yields an existing calendar day (no range limit in this model) |
| CivilDate.MakeDateDayNumber | projects/carbideui/src/lib/ngcc-datepicker/ngcc-date-picker.ts:476 | `new Date(y, m, d)` lands `d - 1` days after the first of month `m`, with months carried into years and years 0..99 read as 1900+y |
| CivilDate.MakeDateIdentity | projects/carbideui/src/lib/ngcc-datepicker/ngcc-date-picker.ts:476 | constructing an existing day outside years 0..99 from its own fields gives that day |
| CivilDate.MakeDateInMonth | projects/carbideui/src/lib/ngcc-datepicker/ngcc-date-picker-calendar.ts:294-295 | `new Date(y, m0, d)` for a day of the month is that day of the (two-digit-adjusted) year |
| CivilDate.MakeDateLastDay | projects/carbideui/src/lib/ngcc-datepicker/ngcc-date-picker-calendar.ts:270-273 | `new Date(y, m0 + 1, 0)` is the last day of month m0 |
| CivilDate.StripIdentity | projects/carbideui/src/lib/ngcc-datepicker/ngcc-date-picker-calendar.ts:284-285 | rebuilding an existing day of a year outside 0..99 from its own fields gives the same day |
| TableTypes.Field | projects/carbideui/src/lib/ngcc-table/ngcc-table.ts:130-131 | a missing key reads as null, a present key as its value |
| TableTypes.ValueText | projects/carbideui/src/lib/ngcc-table/ngcc-table.ts:275-277 | `stringify`: null is '', a string is itself, a number's text reads back as the number |
| TableTypes.PageSizeOf | projects/carbideui/src/lib/ngcc-table/ngcc-table.ts:147 | `pageSize ?? 10` |
| TableTypes.Toggled | projects/carbideui/src/lib/ngcc-table/ngcc-table.service.ts:20-27 | toggling flips the membership of the index and of no other index |
| TableTypes.ToggledTwice | projects/carbideui/src/lib/ngcc-table/ngcc-table.service.ts:20-27 | toggling the same index twice restores the set |
| TableSearch.SomeColumnMatchesExists | projects/carbideui/src/lib/ngcc-table/ngcc-table-search.service.ts:23-27 | a row matches iff some listed column's lower-cased text contains the query |
| TableSearch.FilterRows | projects/carbideui/src/lib/ngcc-table/ngcc-table-search.service.ts:22-28 | keeps exactly the matching rows, with their multiplicities, never more rows than given |
| TableSearch.FilterLocal | projects/carbideui/src/lib/ngcc-table/ngcc-table-search.service.ts:18-29 | a query empty after trimming returns the input unchanged; otherwise a row is kept iff it matches the trimmed, lower-cased query |
| TableSearch.FilterLocalSubsequence | projects/carbideui/src/lib/ngcc-table/ngcc-table-search.service.ts:22 | the result is an order-preserving subsequence of the input |
| TableSearch.NullFieldNeverMatches | projects/carbideui/src/lib/ngcc-table/ngcc-table-search.service.ts:24 | a null or missing field reads as '' and never contains a non-empty query |
| TableSearch.NoColumnsNoRows | projects/carbideui/src/lib/ngcc-table/ngcc-table-search.service.ts:23 | with no columns and a non-empty query nothing is kept |
| TableSearch.SearchService.constructor | projects/carbideui/src/lib/ngcc-table/ngcc-table-search.service.ts:3-5 | the one root-provided service starts with the empty query |
| TableSort.Compare | projects/carbideui/src/lib/ngcc-table/ngcc-table.ts:129-142 | null equals null and precedes every defined value, in both directions |
| TableSort.CompareRows | projects/carbideui/src/lib/ngcc-table/ngcc-table.ts:129-142 | the sort callback: the comparator on the two rows' values at the sort key; its laws are the `Compare` rows |
| TableSort.DescendingNegatesAscending | projects/carbideui/src/lib/ngcc-table/ngcc-table.ts:141 | for two defined values descending is the negation of ascending; null placement is the same in both |
| TableSort.CompareAntisymmetric | projects/carbideui/src/lib/ngcc-table/ngcc-table.ts:129-142 | swapping the operands negates the comparison |
| TableSort.CompareTransitive | projects/carbideui/src/lib/ngcc-table/ngcc-table.ts:129-142 | on numeric-or-null values, or on text-or-null values, the comparator is transitive |
| TableSort.SortRows | projects/carbideui/src/lib/ngcc-table/ngcc-table.ts:128-142 | `filtered.sort(...)` returns as many rows as it is given; permutation, order and stability are the next rows |
| TableSort.SortRowsPermutation | projects/carbideui/src/lib/ngcc-table/ngcc-table.ts:129 | sorting returns the same rows with the same multiplicities |
| TableSort.SortRowsAdjacentOrdered | projects/carbideui/src/lib/ngcc-table/ngcc-table.ts:129-142 | every neighbouring pair of the sorted rows is in comparator order |
| TableSort.NullsFirst | projects/carbideui/src/lib/ngcc-table/ngcc-table.ts:132-135 | in sorted rows every row before a null key also has a null key |
| TableSort.SortRowsOrdered | projects/carbideui/src/lib/ngcc-table/ngcc-table.ts:129-142 | on a homogeneous key column every pair of sorted rows is in comparator order |
| TableSort.CompareTiesTransitive | projects/carbideui/src/lib/ngcc-table/ngcc-table.ts:129-142 | two values that each compare equal to a third compare equal to each other, on every column |
| TableSort.SortRowsStable | projects/carbideui/src/lib/ngcc-table/ngcc-table.ts:129-142 | for every row `x`, the rows that compare equal to `x` come out of the sort in their input order |
| TableSort.SortRowsNullsKeepOrder | projects/carbideui/src/lib/ngcc-table/ngcc-table.ts:132-135 | the rows with a null or undefined key come out of the sort exactly as they went in, in either direction |
| Table.Paginate | projects/carbideui/src/lib/ngcc-table/ngcc-table.ts:147-150 | the page is the slice from `max(0, page) * size` of at most `size` rows, element by element |
| Table.FilteredSorted | projects/carbideui/src/lib/ngcc-table/ngcc-table.ts:117-142 | never more rows than given; with a query empty after trimming, the same rows with the same multiplicities |
| Table.PageOf | projects/carbideui/src/lib/ngcc-table/ngcc-table.ts:145-152 | without pagination the whole list; with it, the slice of the filtered and sorted rows for the page |
| Table.ProcessedRows | projects/carbideui/src/lib/ngcc-table/ngcc-table.ts:116-152 | never more rows than the caller's, and never more than a page when paginated |
| Table.FilteredSortedFromInput | projects/carbideui/src/lib/ngcc-table/ngcc-table.ts:117-143 | the filtered and sorted rows come from the caller's rows, are no more than them, and match a non-empty query |
| Table.TotalPages | projects/carbideui/src/lib/ngcc-table/ngcc-table.ts:156-161 | at least 1; 1 without pagination; otherwise the ceiling of the unfiltered row count over the page size |
| Table.ClampPage | projects/carbideui/src/lib/ngcc-table/ngcc-table.ts:227 | the page index is clamped to `[0, pages - 1]` and kept when already inside |
| Table.PagesCoverRows | projects/carbideui/src/lib/ngcc-table/ngcc-table.ts:145-161 | every filtered and sorted row `k` appears on page `k / size` at position `k % size`, and that page is below the page count |
| Table.NextSort | projects/carbideui/src/lib/ngcc-table/ngcc-table.ts:252-260 | no sort or another key goes to ascending, ascending to descending, descending on the key to none |
| Table.SortCycle | projects/carbideui/src/lib/ngcc-table/ngcc-table.ts:250-263 | three toggles of one key go none, ascending, descending, none |
| Table.SortIcon | projects/carbideui/src/lib/ngcc-table/ngcc-table.ts:230-234 | `getSortIcon`; its agreement with the aria state is `Table.SortIndicatorsAgree` |
| Table.SortAria | projects/carbideui/src/lib/ngcc-table/ngcc-table.ts:236-239 | `getSortAria`; its agreement with the icon and label is `Table.SortIndicatorsAgree` |
| Table.SortAriaLabel | projects/carbideui/src/lib/ngcc-table/ngcc-table.ts:241-249 | `getSortAriaLabel`; its agreement with the aria state is `Table.SortIndicatorsAgree` |
| Table.SortIndicatorsAgree | projects/carbideui/src/lib/ngcc-table/ngcc-table.ts:230-249 | icon, aria state and aria label agree on whether and in which direction a column is sorted; every label ends with the key |
| Table.ColumnWidth | projects/carbideui/src/lib/ngcc-table/ngcc-table.ts:287-295 | falsy widths give null, a CSS string is itself, a number is its digits followed by `px` |
| Table.RangeSize | projects/carbideui/src/lib/ngcc-table/ngcc-table.ts:209-211 | the set `{0..n-1}` has n elements |
| Table.SubsetOfRangeSize | projects/carbideui/src/lib/ngcc-table/ngcc-table.ts:197-201 | a selection of indices below n has at most n elements, and exactly n only when it is all of them |
| Table.AllSelected | projects/carbideui/src/lib/ngcc-table/ngcc-table.ts:197-201 | `isAllSelected`; its meaning over the shown indices is `Table.SelectionStates` |
| Table.Indeterminate | projects/carbideui/src/lib/ngcc-table/ngcc-table.ts:219-223 | `isIndeterminate`; its meaning is `Table.SelectionStates` |
| Table.SelectionStates | projects/carbideui/src/lib/ngcc-table/ngcc-table.ts:197-223 | all-selected iff the selection is every shown index of a non-empty page; indeterminate iff it is non-empty and not all |
| Table.DataTable.constructor | projects/carbideui/src/lib/ngcc-table/ngcc-table.ts:38-161 | inputs set and the given search service kept, its query untouched; no sort, page 0, empty selection |
| Table.DataTable.ToggleSort | projects/carbideui/src/lib/ngcc-table/ngcc-table.ts:250-263 | a non-sortable column changes and emits nothing; otherwise the sort advances one step and the new sort is emitted |
| Table.DataTable.GoToPage | projects/carbideui/src/lib/ngcc-table/ngcc-table.ts:225-229 | the current page becomes the clamped index, always a valid page |
| Table.DataTable.ToggleRowSelect | projects/carbideui/src/lib/ngcc-table/ngcc-table.ts:185-195 | flips the membership of the index and no other |
| Table.DataTable.ToggleAllRowsSelected | projects/carbideui/src/lib/ngcc-table/ngcc-table.ts:203-218 | all selected: empties the selection and emits the empty list; otherwise selects every shown index, emits the shown rows in order, and leaves all selected; the new selection is `ToggledAll` of the old |
| Table.SelectEvery | projects/carbideui/src/lib/ngcc-table/ngcc-table.ts:207-216 | selects exactly the indices 0 to n-1 and collects every shown row, in index order |
| Table.ToggledAll | projects/carbideui/src/lib/ngcc-table/ngcc-table.ts:204-218 | the selection left by select-all: empty from all selected, every shown index otherwise |
| Table.ToggleAllTwiceClears | projects/carbideui/src/lib/ngcc-table/ngcc-table.ts:204-218 | from a partial selection of a non-empty page, the first toggle selects every shown index and the second leaves nothing selected |
| Table.ToggleAllTwiceFromAll | projects/carbideui/src/lib/ngcc-table/ngcc-table.ts:204-218 | from a full selection, the first toggle empties it and the second selects every shown index again |
| Table.DataTable.HandleSearchInput | projects/carbideui/src/lib/ngcc-table/ngcc-table.ts:267-274 | dynamic search emits the text and leaves the shared query; static search writes the text into the shared service's query and emits nothing |
| TableService.TableStore.constructor | projects/carbideui/src/lib/ngcc-table/ngcc-table.service.ts:8-10 | no columns, no rows, empty selection |
| TableService.TableStore.SetColumns | projects/carbideui/src/lib/ngcc-table/ngcc-table.service.ts:12-14 | replaces the columns; rows and selection unchanged |
| TableService.TableStore.SetRows | projects/carbideui/src/lib/ngcc-table/ngcc-table.service.ts:15-19 | replaces the rows and empties the selection; columns unchanged |
| TableService.TableStore.ToggleSelect | projects/carbideui/src/lib/ngcc-table/ngcc-table.service.ts:20-27 | flips the membership of the index only; rows and columns unchanged |
| TableService.TableStore.ClearSelection | projects/carbideui/src/lib/ngcc-table/ngcc-table.service.ts:28-30 | empties the selection; rows and columns unchanged |
| TableExamples.SortExamples | projects/carbideui/src/lib/ngcc-table/ngcc-table.spec.ts:72-95 | on the test rows ascending by id starts 1, 2 and descending starts 3, 2 |
| TableExamples.PageExamples | projects/carbideui/src/lib/ngcc-table/ngcc-table.spec.ts:97-111 | three rows at page size 2 make 2 pages, the second holding the third row |
| TableExamples.SearchExample | projects/carbideui/src/lib/ngcc-table/ngcc-table.spec.ts:201-209 | searching "Alice" over the test rows leaves exactly the Alice row |
| TableExamples.SharedQuery | projects/carbideui/src/lib/ngcc-table/ngcc-table.ts:38 | two tables built on the one service share it; a static search typed into the first is the query the second reads |
| TableExamples.SharedQueryShows | projects/carbideui/src/lib/ngcc-table/ngcc-table.ts:116-125 | the second table, which never saw the search input, shows only the Alice row |
| Arith.CeilDiv | projects/carbideui/src/lib/ngcc-pagination/ngcc-pagination.ts:64 | `Math.ceil(a / b)` for a positive divisor: the least multiple count covering `a` |
| Pagination.TotalPages | projects/carbideui/src/lib/ngcc-pagination/ngcc-pagination.ts:61-65 | at least 1; 1 for a non-positive size or no items; otherwise the ceiling of items over size |
| Pagination.TotalZeroSafe | projects/carbideui/src/lib/ngcc-pagination/ngcc-pagination.ts:121-123 | 0 when there are no items, the start otherwise |
| Pagination.StartItem | projects/carbideui/src/lib/ngcc-pagination/ngcc-pagination.ts:67-71 | `startItem`; its value on a valid page is `Pagination.ItemRange` |
| Pagination.EndItem | projects/carbideui/src/lib/ngcc-pagination/ngcc-pagination.ts:73-78 | `endItem`; its value on a valid page is `Pagination.ItemRange` |
| Pagination.DisablePrev | projects/carbideui/src/lib/ngcc-pagination/ngcc-pagination.ts:80 | `disablePrev`; it holds iff the left arrow emits nothing without wrap-around (`Pagination.DisabledMeansNoStep`) |
| Pagination.DisableNext | projects/carbideui/src/lib/ngcc-pagination/ngcc-pagination.ts:81 | `disableNext`; it holds iff the right arrow emits nothing without wrap-around (`Pagination.DisabledMeansNoStep`) |
| Pagination.ClampPage | projects/carbideui/src/lib/ngcc-pagination/ngcc-pagination.ts:85-86 | the target clamped to `[1, totalPages]`, kept when inside |
| Pagination.GoToPage | projects/carbideui/src/lib/ngcc-pagination/ngcc-pagination.ts:84-90 | emits the clamped page exactly when it differs from the current one; any emission is a valid page |
| Pagination.OnKeydown | projects/carbideui/src/lib/ngcc-pagination/ngcc-pagination.ts:98-117 | arrows step by one inside the range; past an end they wrap to the other end only with loop navigation; other keys do nothing |
| Pagination.ItemRange | projects/carbideui/src/lib/ngcc-pagination/ngcc-pagination.ts:67-78 | on a valid page the shown items are `size*(page-1)+1 .. min(size*page, total)`, a full page except on the last |
| Pagination.DisabledMeansNoStep | projects/carbideui/src/lib/ngcc-pagination/ngcc-pagination.ts:80-81 | without wrap-around a button is disabled iff its arrow key emits nothing |
| Pagination.ArrowsInverse | projects/carbideui/src/lib/ngcc-pagination/ngcc-pagination.ts:98-117 | from an inner page, left then right returns to the page |
| Pagination.WrapEmitsUnchangedPage | projects/carbideui/src/lib/ngcc-pagination/ngcc-pagination.ts:102-116 | with one page and wrap-around both arrows emit the current page, which `goToPage` would not |
| Pagination.Examples | projects/carbideui/src/lib/ngcc-pagination/ngcc-pagination.spec.ts:35-142 | the test values: 5 pages for 50 items of 10, ranges 1–10, 11–20, 41–50, 0–0, disabled ends, arrow moves and wrap |
| Calendar.BuildCells | projects/carbideui/src/lib/ngcc-datepicker/ngcc-date-picker-calendar.ts:265-348 | the two loops build exactly the specified grid |
| Calendar.Cells | projects/carbideui/src/lib/ngcc-datepicker/ngcc-date-picker-calendar.ts:265-348 | the grid the two loops build; its layout is `Calendar.CellsLayout`, `Calendar.CellAt` and `Calendar.CellColumnIsWeekday` |
| Calendar.BuildDayCell | projects/carbideui/src/lib/ngcc-datepicker/ngcc-date-picker-calendar.ts:294-344 | the day loop's body builds the specified cell of day `d`, flags included |
| Calendar.CellAt | projects/carbideui/src/lib/ngcc-datepicker/ngcc-date-picker-calendar.ts:289-345 | each position holds a blank before the first weekday and the day cell for its day after it |
| Calendar.CellsLayout | projects/carbideui/src/lib/ngcc-datepicker/ngcc-date-picker-calendar.ts:269-345 | `weekday(first of month)` blanks then exactly `daysInMonth` day cells, day k at position `lead + k - 1`, whose index is its position |
| Calendar.DayPosition | projects/carbideui/src/lib/ngcc-datepicker/ngcc-date-picker-calendar.ts:294-344 | past the leading blanks, position i holds day `i - lead + 1` of the shown month, with index i |
| Calendar.CellColumnIsWeekday | projects/carbideui/src/lib/ngcc-datepicker/ngcc-date-picker-calendar.ts:269-296 | every day cell sits in the column of its weekday |
| Calendar.InRangeMeaning | projects/carbideui/src/lib/ngcc-datepicker/ngcc-date-picker-calendar.ts:302-316 | `inRange` iff the day is strictly between start and end, or strictly between start and the hovered day in either order |
| Calendar.RangeEndpointsNotInRange | projects/carbideui/src/lib/ngcc-datepicker/ngcc-date-picker-calendar.ts:302-316 | the start is never in range, nor the end when nothing is hovered |
| Calendar.DisabledMeaning | projects/carbideui/src/lib/ngcc-datepicker/ngcc-date-picker-calendar.ts:318-330 | `disabled` iff the day, rebuilt by the Date constructor, is before the rebuilt minimum or after the rebuilt maximum, or is a disabled date |
| Calendar.DisabledByDay | projects/carbideui/src/lib/ngcc-datepicker/ngcc-date-picker-calendar.ts:318-330 | for days outside years 0..99, `disabled` iff the day is before the minimum or after the maximum by day, or is a disabled date |
| Calendar.Weeks | projects/carbideui/src/lib/ngcc-datepicker/ngcc-date-picker-calendar.ts:82-90 | concatenating the weeks gives the cells back; every week but the last has 7 cells, none is empty |
| Calendar.MovedFocus | projects/carbideui/src/lib/ngcc-datepicker/ngcc-date-picker-calendar.ts:202-238 | the target clamped to `[0, len-1]`, unchanged when inside; Home and End stay in the week row, at its first or last column |
| Calendar.SelectEmission | projects/carbideui/src/lib/ngcc-datepicker/ngcc-date-picker-calendar.ts:350-353 | emits a date exactly for an enabled day cell, and that cell's date |
| Calendar.TodayIndexFrom | projects/carbideui/src/lib/ngcc-datepicker/ngcc-date-picker-calendar.ts:96-97 | the first enabled today cell at or after the start, or none when there is none |
| Calendar.DatePickerCalendar.constructor | projects/carbideui/src/lib/ngcc-datepicker/ngcc-date-picker-calendar.ts:92-133 | shows the month of the start, else the end, else today, and focuses today's enabled cell |
| Calendar.DatePickerCalendar.PrevMonth | projects/carbideui/src/lib/ngcc-datepicker/ngcc-date-picker-calendar.ts:243-252 | one month back with year borrow, month kept in 0..11 |
| Calendar.DatePickerCalendar.NextMonth | projects/carbideui/src/lib/ngcc-datepicker/ngcc-date-picker-calendar.ts:254-263 | one month on with year carry, month kept in 0..11 |
| Calendar.DatePickerCalendar.HandleKey | projects/carbideui/src/lib/ngcc-datepicker/ngcc-date-picker-calendar.ts:191-241 | the event it returns and the new focus and shown month are `KeyOutcome` of the key, the old focus and month, and the cells shown before the key |
| Calendar.KeyOutcome | projects/carbideui/src/lib/ngcc-datepicker/ngcc-date-picker-calendar.ts:191-241 | the month stays in 0..11, a focus stays non-negative and is present after the key exactly when it was before; the `KeyOutcome` lemmas give each key's effect |
| Calendar.DatePickerCalendar.HandleFocusedKey | projects/carbideui/src/lib/ngcc-datepicker/ngcc-date-picker-calendar.ts:202-238 | with a focus: a moving key moves the focus to the clamped target and emits nothing; Enter keeps the focus and emits `EnterEvent` of the focused cell |
| Calendar.DatePickerCalendar.MoveFocus | projects/carbideui/src/lib/ngcc-datepicker/ngcc-date-picker-calendar.ts:202-238 | the focus moves to the clamped target of the key |
| Calendar.DatePickerCalendar.Activate | projects/carbideui/src/lib/ngcc-datepicker/ngcc-date-picker-calendar.ts:227-232 | Enter emits `EnterEvent` of the focused index in the shown cells |
| Calendar.EnterEvent | projects/carbideui/src/lib/ngcc-datepicker/ngcc-date-picker-calendar.ts:227-232 | emits a date exactly when the index is inside the cells and the cell there is an enabled day, and then that cell's date; never closes |
| Calendar.KeyOutcomeCloses | projects/carbideui/src/lib/ngcc-datepicker/ngcc-date-picker-calendar.ts:192-199 | only Escape closes; Escape, a key with no focus and an unhandled key leave focus and month unchanged; with no focus nothing is emitted |
| Calendar.KeyOutcomeMoves | projects/carbideui/src/lib/ngcc-datepicker/ngcc-date-picker-calendar.ts:202-238 | a moving key emits nothing, keeps the month and lands the focus on an existing cell |
| Calendar.KeyOutcomePages | projects/carbideui/src/lib/ngcc-datepicker/ngcc-date-picker-calendar.ts:215-220 | PageUp and PageDown keep the focus index and move the shown month one back or one forward, wrapping the year |
| Calendar.KeyOutcomeEnter | projects/carbideui/src/lib/ngcc-datepicker/ngcc-date-picker-calendar.ts:227-232 | Enter keeps focus and month and selects exactly when the focused cell is an enabled day, emitting its date |
| Calendar.DatePickerCalendar.SetHover | projects/carbideui/src/lib/ngcc-datepicker/ngcc-date-picker-calendar.ts:355-357 | stores the hovered day |
| Calendar.DatePickerCalendar.ClearHover | projects/carbideui/src/lib/ngcc-datepicker/ngcc-date-picker-calendar.ts:359-361 | clears the hovered day |
| Calendar.DatePickerCalendar.GoToToday | projects/carbideui/src/lib/ngcc-datepicker/ngcc-date-picker-calendar.ts:363-369 | shows today's month and focuses today's enabled cell, keeping the focus when there is none |
| DatePicker.DisplayToDate | projects/carbideui/src/lib/ngcc-datepicker/ngcc-date-picker.ts:462-477 | null for empty text, for other than three '/'-parts, or when a part is 0 or not a number; otherwise an existing day |
| DatePicker.FormatDisplay | projects/carbideui/src/lib/ngcc-datepicker/ngcc-date-picker.ts:445-460 | `formatDateDisplay`; in YYYY-MM-DD it is the ISO text of the day; its parts are `DatePicker.DisplayParts` |
| DatePicker.DateToIso | projects/carbideui/src/lib/ngcc-datepicker/ngcc-date-picker.ts:480-482 | `dateToISO`; its parts are `DatePicker.IsoParts` and it reads back by `DatePicker.IsoRoundTrip` |
| DatePicker.ValidateFormat | projects/carbideui/src/lib/ngcc-datepicker/ngcc-date-picker.ts:425-434 | `validateFormat`: empty text or a pattern that does not compile passes, otherwise the pattern's test decides |
| DatePicker.MonthFirstText | projects/carbideui/src/lib/ngcc-datepicker/ngcc-date-picker.ts:462-477 | MM/DD/YYYY text of three non-zero numbers is the day the Date constructor makes of year, month - 1 and day |
| DatePicker.IsoToDate | projects/carbideui/src/lib/ngcc-datepicker/ngcc-date-picker.ts:484-493 | null for empty text, for other than three '-'-parts, or when a part is 0 or not a number; otherwise an existing day |
| DatePicker.IsoToDisplay | projects/carbideui/src/lib/ngcc-datepicker/ngcc-date-picker.ts:495-498 | empty exactly when the ISO text does not read as a day |
| DatePicker.DisplayToIso | projects/carbideui/src/lib/ngcc-datepicker/ngcc-date-picker.ts:500-503 | null exactly when the display text does not read as a day |
| DatePicker.EmitRange | projects/carbideui/src/lib/ngcc-datepicker/ngcc-date-picker.ts:330-346 | a pair of days (null when unreadable) or a pair of ISO strings, '' exactly when unreadable and otherwise `DateToIso` of the day read |
| DatePicker.DisplayParts | projects/carbideui/src/lib/ngcc-datepicker/ngcc-date-picker.ts:445-470 | the display text of a day splits at '/' into its month, day and year numbers, in the format's order |
| DatePicker.DisplayRoundTrip | projects/carbideui/src/lib/ngcc-datepicker/ngcc-date-picker.ts:445-477 | in MM/DD/YYYY and DD/MM/YYYY the shown text of a day reads back as that day, for years outside 0..99 |
| DatePicker.IsoFormatNeverParses | projects/carbideui/src/lib/ngcc-datepicker/ngcc-date-picker.ts:445-466 | in YYYY-MM-DD the shown text of a day never reads back |
| DatePicker.IsoParts | projects/carbideui/src/lib/ngcc-datepicker/ngcc-date-picker.ts:480-489 | the ISO text of a day of a non-negative year splits at '-' into its year, month and day numbers |
| DatePicker.IsoRoundTrip | projects/carbideui/src/lib/ngcc-datepicker/ngcc-date-picker.ts:480-493 | the ISO text of a day reads back as that day, for years of 100 and more |
| DatePicker.IsoShownAsDay | projects/carbideui/src/lib/ngcc-datepicker/ngcc-date-picker.ts:480-498 | in every display format, a form's ISO value of a day of a year of 100 or more shows as that day |
| DatePicker.IsoWriteReadBack | projects/carbideui/src/lib/ngcc-datepicker/ngcc-date-picker.ts:480-503 | in MM/DD/YYYY and DD/MM/YYYY, for years of 100 and more, a form's ISO value shows as that day and is emitted back as the same ISO text |
| DatePicker.TwoDigitYearExample | projects/carbideui/src/lib/ngcc-datepicker/ngcc-date-picker.ts:462-477 | "01/02/5" reads as 2 January 1905 |
| DatePicker.EndClickOrdered | projects/carbideui/src/lib/ngcc-datepicker/ngcc-date-picker.ts:297-311 | after an end click the two fields read as the earlier and the later of the start and the clicked day |
| DatePicker.TypingSwapOrdered | projects/carbideui/src/lib/ngcc-datepicker/ngcc-date-picker.ts:379-400 | after typing, two readable ends hold the same two days, earlier first |
| DatePicker.TypingInvalidSymmetric | projects/carbideui/src/lib/ngcc-datepicker/ngcc-date-picker.ts:379-423 | swapping the two typed texts gives the same invalid verdict for every pattern and bounds, so reversed ends are never themselves the reason for invalid |
| DatePicker.ItemDisplay | projects/carbideui/src/lib/ngcc-datepicker/ngcc-date-picker.ts:207-213 | an array element shows as its date, its ISO text, or '' for anything else |
| DatePicker.InputDisplay | projects/carbideui/src/lib/ngcc-datepicker/ngcc-date-picker.ts:214-224 | a non-array value shows as its date or ISO text; an array outside range mode, or anything else, shows as '' |
| DatePicker.DatePickerInput.constructor | projects/carbideui/src/lib/ngcc-datepicker/ngcc-date-picker.ts:72-103 | inputs set; empty fields, calendar closed, not invalid |
| DatePicker.DatePickerInput.SetDisabledState | projects/carbideui/src/lib/ngcc-datepicker/ngcc-date-picker.ts:239-241 | stores the disabled flag |
| DatePicker.DatePickerInput.OpenCalendar | projects/carbideui/src/lib/ngcc-datepicker/ngcc-date-picker.ts:246-254 | nothing when disabled or read-only; otherwise open, picking the end only in range mode; outside range mode the waiting-for-end flag stays as it was, which the class invariant makes false |
| DatePicker.DatePickerInput.CloseCalendar | projects/carbideui/src/lib/ngcc-datepicker/ngcc-date-picker.ts:256-260 | closed and not picking the end |
| DatePicker.DatePickerInput.ToggleCalendar | projects/carbideui/src/lib/ngcc-datepicker/ngcc-date-picker.ts:262-268 | closes an open calendar, otherwise opens it as `OpenCalendar` does |
| DatePicker.DatePickerInput.OnDateSelected | projects/carbideui/src/lib/ngcc-datepicker/ngcc-date-picker.ts:273-328 | single: shows and emits the day (Date or ISO), touches and closes; range start, or end without a readable start: stores the start, waits for the end, emits partially; range end: ordered ends, valid, emitted, touched, closed |
| DatePicker.DatePickerInput.SelectInRange | projects/carbideui/src/lib/ngcc-datepicker/ngcc-date-picker.ts:276-312 | the first click, or one with no readable start, stores the start and waits for the end; otherwise the click finishes the range |
| DatePicker.DatePickerInput.FinishRange | projects/carbideui/src/lib/ngcc-datepicker/ngcc-date-picker.ts:297-311 | the ends become `EndClick` of the start text and the clicked day, the range is valid and emitted, and the calendar closes |
| DatePicker.DatePickerInput.OnInputChange | projects/carbideui/src/lib/ngcc-datepicker/ngcc-date-picker.ts:351-377 | stores the trimmed text; range: the fields become `TypingSwap` of the typed texts, invalid is `TypingInvalid` of them, the warning clears, `valueChange` receives `TypedRangeEmissions`, the form only its last value `EmitRange`, and the control is not touched; otherwise: the single field holds the text, invalid iff it fails the format check, `valueChange` and the form both receive the one `TypedSingleEmission`, touched |
| DatePicker.DatePickerInput.TypedIntoSingle | projects/carbideui/src/lib/ngcc-datepicker/ngcc-date-picker.ts:366-376 | the field holds the text, invalid iff it fails the format check, the end field and warning are unchanged, and `valueChange` and the form both receive `TypedSingleEmission` of the text |
| DatePicker.DatePickerInput.TypedIntoRange | projects/carbideui/src/lib/ngcc-datepicker/ngcc-date-picker.ts:354-364 | with the typed text in its field, both ends are re-checked as `ValidateRangeTyping` does; `valueChange` receives `TypedRangeEmissions` of the re-checked fields and the form only the last of them, `EmitRange` |
| DatePicker.DatePickerInput.RangeEmissions | projects/carbideui/src/lib/ngcc-datepicker/ngcc-date-picker.ts:361-364 | sends the ISO pair to `valueChange` when either field reads as a day, then the configured pair, which alone also goes to the form |
| DatePicker.TypedRangeEmissions | projects/carbideui/src/lib/ngcc-datepicker/ngcc-date-picker.ts:361-364 | one or two emissions; two exactly when an end reads as a day, the first then being the ISO pair; the last is always `EmitRange` of the fields |
| DatePicker.TypedRangeEmitsTwice | projects/carbideui/src/lib/ngcc-datepicker/ngcc-date-picker.ts:361-364 | a keystroke that leaves an end readable emits twice, the ISO pair first; without Date objects both emissions are the same pair |
| DatePicker.TypedSingleEmission | projects/carbideui/src/lib/ngcc-datepicker/ngcc-date-picker.ts:370-373 | the ISO text of the day the typed text reads as, or the typed text itself when it does not read |
| DatePicker.TypedSingleReadsBack | projects/carbideui/src/lib/ngcc-datepicker/ngcc-date-picker.ts:370-373 | typed text that reads as a day of a year of 100 or more is emitted as ISO text that reads back as that same day |
| DatePicker.DatePickerInput.ValidateRangeTyping | projects/carbideui/src/lib/ngcc-datepicker/ngcc-date-picker.ts:379-423 | swaps reversed readable ends; invalid iff a non-empty field fails the pattern or a readable end is outside the limits by day; warning cleared |
| DatePicker.DatePickerInput.CheckBounds | projects/carbideui/src/lib/ngcc-datepicker/ngcc-date-picker.ts:405-419 | a readable end is flagged exactly when it falls before the minimum or after the maximum by day (`OutOfBounds`) |
| DatePicker.DatePickerInput.WriteValue | projects/carbideui/src/lib/ngcc-datepicker/ngcc-date-picker.ts:203-225 | a range takes an array's first two elements; otherwise the value shows a Date or ISO text and a range's end is cleared |

## Left out

- The document click listener, its `effect`, `ngOnDestroy` and the element references: DOM plumbing.
- `Intl.DateTimeFormat` month and weekday labels: foreign locale calls.
- The clock: "today" is a parameter of the calendar operations that read it.
- Time zones, daylight saving and time of day: every date is a calendar day at local midnight.
- `Number()` is modelled on the empty string, an optional sign and ASCII digits. Other numeric forms (fractions, exponents, hex, surrounding whitespace) read as NaN here, and table values are integers, so float subtraction in the comparator is integer subtraction.
- `trim` and `toLowerCase` are modelled on ASCII; Unicode case mapping and Unicode white space are not modelled.
- `localeCompare` is modelled as code-point lexicographic order; only its total-order facts are used.
- The `RegExp` engine: a compiled pattern is an uninterpreted test on strings, and a pattern that does not compile is a separate case.
- TableSort.SortRowsOrdered: full pairwise order is stated only for key columns whose values are all numeric-or-null or all text-or-null, because the comparator is not transitive on mixed columns; adjacent order, null-first and permutation hold for every column. On a mixed column ECMAScript leaves the order of `sort` implementation-defined, so the insertion-sort order there is this model's choice.
- The table requires a page size of at least 1 when pagination is on: a page size of 0 divides by zero in `totalPages` and is not defaulted by `??`.
- The table's `ngOnInit` effect that would reset the page reads no signal, so it is not modelled as a guarantee. The table's constructor effect that copies rows and columns into the store is also not modelled.
- Table.DataTable.ToggleRowSelect: the `rowSelect` payload (rows looked up by index in the unprocessed rows) is not returned.
- The search service's `loading` effect; the toolbar, skeleton and search directive files; Storybook files.
- `ngOnChanges`, the getter one-liners, template guards and `handlePageSizeChange`: framework glue.
- DatePicker.DatePickerInput.OnInputChange: reading the input element out of the DOM event is left out; the handler takes the element's text as a parameter (a missing value is the empty string).
- The `onChange`/`onTouched` callbacks are not called: `OnDateSelected` returns the value sent to both `valueChange` and `onChange`; `OnInputChange` returns the values sent to `valueChange` in order and, separately, the one value sent to `onChange`; each also returns whether the control is touched.
- DatePicker.DisplayRoundTrip and DatePicker.IsoRoundTrip: they hold only for years outside 0..99 (ISO: 100 and more). The code prints the full year but reads it back through the Date constructor's two-digit-year rule.
- DatePicker.EndClickOrdered and DatePicker.TypingSwapOrdered: ordering after the swap is proved for days whose years are outside 0..99, for the same reason. In YYYY-MM-DD nothing reads back at all.
- Date objects written by a form are existing calendar days; an Invalid Date is not modelled.
- CivilDate.MakeDate, DatePicker.DisplayToDate and DatePicker.IsoToDate: a JavaScript Date holds only times within about 8.64e15 ms of 1970 (years -271821 to 275760). Beyond that the constructor gives an Invalid Date, which is truthy and shows as "NaN/NaN/NaN" (for example for "01/01/300000"). The model's integers are unbounded, so every year yields an existing day.

# DataTable engine in Dafny

A model of the data engine inside the `DataTable` class of `datatables.js`,
a small client-side widget that filters, sorts, paginates and selects the
rows of an HTML table. Without the DOM work, the engine is a state machine
over a list of rows. It keeps the row store `rows`, the current
`filteredData`, `currentPage`, `sortOrder`, `sortedColumnIndex` and a checkbox per
row. Its handlers each change that state and then re-render one page.

The project has seven modules:

- `Text` (`text.dfy`): the string primitives the engine calls.
  - JavaScript's `trim`, with its white-space set.
  - `toLowerCase`, limited to ASCII and Latin-1.
  - `includes`.
  - The "is this cell a number" test of the numeric-column check.
  - Code-point lexicographic order for text columns.
- `Rows` (`rows.dfy`): the row datatype, a row's text, the checkbox cell
  that `addCheckboxesToRows` inserts, and the order-preserving subsequence
  relation.
- `Search` (`search.dfy`): the filter predicate and the filter over the
  row store.
- `Sorting` (`sorting.dfy`):
  - the asc/desc toggle;
  - the all-or-nothing numeric classification;
  - the comparator, as a key function and a direction;
  - the stable sort, defined as a functional insertion sort;
  - the in-place array sort, proved equal to that definition.
- `Pagination` (`pagination.dfy`):
  - entries per page (`'*'` means all rows);
  - the visible slice;
  - the info numbers;
  - the page controls, as a list of (label, target, active) items, built
    by a loop like the one in `updatePagination`.
- `Selection` (`selection.dfy`): the selected rows in store order, and what
  the guarded action does.
- `Table` (`datatable.dfy`): the `DataTable` class. Its fields are the
  engine's state, and its methods are the constructor and the handlers. Its
  object invariant says the rendered page, info numbers and controls always
  match the current state. Two clients of the class state properties over
  several events. `SelectionSurvivesSearch` shows a checked row is still
  selected after any search and its reset. `ClickHeaderTwice` shows two
  clicks on one header give reversed orders when no two rows share a key.

The sort of `sortColumn` is `Array.prototype.sort`, which section 23.1.3.30
of ECMA-262 (2023 edition) requires to be stable. Only one stable sort
exists for a given comparator, so the model fixes it as insertion sort. The
lemmas then prove the properties the sort must have:
- it is a permutation;
- it is ordered in the chosen direction;
- rows with equal keys keep their relative order.

Select-all and `getSelectedItems` reach every row of the store, not only
the rows of the current page. Both iterate over `this.rows`, and
`row.querySelector` finds a row's checkbox even when the row is not in the
document. So `SelectAll` sets every flag, and `GetSelectedItems` scans the
whole store.

The select-all checkbox sits in header cell 0, and that header has the
sort listener of `makeTableSortable`. A click on the checkbox therefore
also sorts by column 0, the checkbox column. `SelectAllClicked` models the
whole click, and its contract shows that this sort keeps the row order. It
does record column 0, toggle the direction and go to page 1.

## Model

| member | source | states |
|---|---|---|
| Text.TrimSpec | datatables.js:116 | `trim` leaves no white space at either end and returns a contiguous part of the cell text, with only white space cut on each side |
| Text.TrimStartSpec | datatables.js:116 | the leading-trim step removes exactly a run of white space and stops at the first non-space character |
| Text.TrimEndSpec | datatables.js:116 | the trailing-trim step removes exactly a run of white space and stops at the last non-space character |
| Text.Lower | datatables.js:182 | lower-casing keeps the length, turns each capital into its small letter (code point + 32), and changes no other character |
| Text.LowerIgnoresCase | datatables.js:182-184 | texts that differ only in the case of their letters lower-case to the same text |
| Text.Contains | datatables.js:184 | `includes` holds exactly when the needle occurs at some position of the text |
| Text.ContainsEmpty | datatables.js:184 | every text includes the empty string |
| Text.NumericCellExamples | datatables.js:117 | "42" and "-3.5" are numeric cells, with values 42 and -3.5 |
| Text.NonNumericCellExamples | datatables.js:117 | "" passes `!isNaN` but fails the non-empty test; ".", "-", "x", "1,5" and "1.2.3" are not numeric |
| Text.LexLeTotal | datatables.js:133 | any two texts are ordered one way or the other |
| Text.LexLeAntisymmetric | datatables.js:133 | texts ordered both ways are equal |
| Text.LexLeTransitive | datatables.js:133 | the text order is transitive |
| Rows.CheckboxCellShiftsColumns | datatables.js:37-45 | the checkbox cell is an empty first cell: it leaves the row's text and identity alone and moves every other cell one column right |
| Rows.SubsequenceMultiset | datatables.js:183-185 | an order-preserving subsequence never holds a row more often than the store does |
| Search.Filter | datatables.js:183-185 | the filter keeps exactly the rows of the store whose lower-cased text contains the term, with no extra copies |
| Search.FilterIsSubsequence | datatables.js:183-185 | the kept rows are in store order |
| Search.FilterEmptyTerm | datatables.js:181-187 | an empty term keeps every row, in order |
| Search.FilterIdempotent | datatables.js:183-185 | filtering a result again with the same term gives the same result |
| Search.SearchIgnoresTermCase | datatables.js:182-185 | search terms that differ only in letter case keep the same rows |
| Search.MatchIgnoresRowCase | datatables.js:184 | rows whose texts differ only in letter case match the same terms |
| Sorting.NextOrder | datatables.js:111 | the new order is desc exactly when the same column was last sorted asc; otherwise it is asc |
| Sorting.ToggleAlternates | datatables.js:111-112 | clicking one column repeatedly alternates asc and desc |
| Sorting.IsNumericColumn | datatables.js:115-118 | a column is numeric exactly when every filtered row's trimmed cell there is a non-empty number |
| Sorting.OneTextCellMakesTextColumn | datatables.js:115-118 | one empty or non-numeric cell makes the whole column compare as text |
| Sorting.KeyLeTotal | datatables.js:121-134 | any two sort keys are ordered one way or the other |
| Sorting.KeyLeTransitive | datatables.js:121-134 | the key order is transitive |
| Sorting.KeyLeAntisymmetric | datatables.js:121-134 | keys ordered both ways are equal |
| Sorting.LeTotal | datatables.js:121-134 | the comparator orders any two rows, in either direction |
| Sorting.LeTransitive | datatables.js:121-134 | the comparator is transitive in either direction |
| Sorting.LeTies | datatables.js:121-134 | two rows tie under the comparator exactly when their keys are equal |
| Sorting.InsertMultiset | datatables.js:121 | inserting one row adds exactly that row |
| Sorting.InsertSorted | datatables.js:121 | inserting into a sorted list keeps it sorted |
| Sorting.InsertTieOrder | datatables.js:121 | an inserted row goes after every earlier row with the same key |
| Sorting.SortPermutation | datatables.js:121-134 | the sorted rows are a permutation of the filtered rows: same multiset, same length |
| Sorting.SortOrdered | datatables.js:121-134 | the sorted rows are ordered by the comparator |
| Sorting.SortDirection | datatables.js:126-133 | asc gives non-decreasing keys, desc non-increasing keys |
| Sorting.SortStable | datatables.js:121-134 | for every key, the rows with that key keep their relative order (stability) |
| Sorting.UniformKeySortIdentity | datatables.js:121-134 | a sort by a key every row shares (such as the empty checkbox column) leaves the rows in place |
| Sorting.NumericColumnPermutation | datatables.js:115-118 | reordering the rows does not change the numeric classification of a column |
| Sorting.ReverseSorted | datatables.js:126-133 | rows sorted in one direction, read back to front, are sorted in the other direction |
| Sorting.SortKeepsDistinctKeys | datatables.js:121-134 | if no two rows share a key before the sort, none do after it |
| Sorting.SortedUnique | datatables.js:121-134 | with distinct keys, a collection of rows has only one sorted order |
| Sorting.SecondSortReverses | datatables.js:111-134 | with distinct keys, sorting the sorted rows again in the other direction gives the first order reversed |
| Sorting.InsertInPlace | datatables.js:121 | the in-place insertion step turns `a[..i+1]` into the insertion of `a[i]` into the sorted prefix, and leaves the rest alone |
| Sorting.SortInPlace | datatables.js:121-134 | the array sorted in place holds the specified stable sort of its old contents |
| Pagination.EntriesPerPage | datatables.js:149 | entries per page is zero only for '*' over no rows |
| Pagination.PageRows | datatables.js:150-152 | a page shows at most `e` rows, and none once its start lies past the data |
| Pagination.TotalPages | datatables.js:202 | `ceil(total/e)` is the fewest pages of `e` rows that hold every row |
| Pagination.FirstPageLength | datatables.js:150-152 | page 1 shows `min(e, total)` rows |
| Pagination.AllFitsOnFirstPage | datatables.js:149-152 | with '*' page 1 shows every row |
| Pagination.PastLastPageEmpty | datatables.js:150-152 | a page after the last one is empty rather than an error |
| Pagination.PagesUpToPrefix | datatables.js:150-152 | pages 1..k together are the first `k*e` rows |
| Pagination.PagesCoverData | datatables.js:150-152 | pages 1..totalPages, one after another, are exactly the data |
| Pagination.PageInfo | datatables.js:164-171 | the total is the data length; start and end are `(p-1)*e+1` and `min(p*e, total)`, or both 0 with no rows; the notice is up exactly for no rows |
| Pagination.InfoDescribesPage | datatables.js:150-171 | the info numbers are the 1-based range of the visible rows; a page past the end shows nothing and reports start > end |
| Pagination.NoticeOutlivesEmptyResult | datatables.js:174-176 | the notice as written stays up after an empty search is followed by one that finds 25 rows |
| Pagination.NumberButtons | datatables.js:209-211 | there is one numbered button per page |
| Pagination.SeveralPages | datatables.js:200-205 | more rows than fit on a page always means at least two pages |
| Pagination.ControlsSuppressed | datatables.js:200 | there are no controls exactly when one page holds every row, and never with '*' |
| Pagination.ControlsLayout | datatables.js:202-215 | totalPages+4 items: First to 1, Previous to max(p-1,1), button k to k, Next to min(p+1,totalPages), Last to totalPages |
| Pagination.ControlsActive | datatables.js:207-213 | only the current page's button is active, and no button is when the page lies past the end |
| Pagination.ControlsTargetsInRange | datatables.js:206-214 | from an existing page, every control leads to an existing page |
| Pagination.TwentyFiveRowsExample | datatables.js:148-216 | 25 rows at 10 per page: page 1 shows rows 1-10 of 25, with buttons 1 (active), 2, 3, Next to 2 and Last to 3 |
| Pagination.BuildControls | datatables.js:196-216 | the control list built item by item in the loop is the specified layout |
| Selection.Selected | datatables.js:64-73 | the selection is never longer than the store |
| Selection.SelectedExactly | datatables.js:64-73 | every checked row is selected, and every selected row is a checked row |
| Selection.SelectedIsSubsequence | datatables.js:66-71 | the selection keeps store order |
| Selection.SelectedAllOrNone | datatables.js:55-73 | with every box checked the selection is the whole store; with none it is empty |
| Table.DataTable.constructor | datatables.js:6-35 | the store gets a checkbox cell per row when checkboxes are on; every row passes; page 1; no sort; nothing checked; the first page is rendered |
| Table.DataTable.Display | datatables.js:148-161 | the rendered rows, info and controls are those of the current page |
| Table.DataTable.GoToPage | datatables.js:232-235 | the page is set and re-rendered; data, sort state and page size are unchanged (frame) |
| Table.DataTable.TargetInRange | datatables.js:206-214 | a rendered control never points past the last page when the current page is in range |
| Table.DataTable.ClickControl | datatables.js:224-227 | clicking a control goes to its target, which stays within the pages |
| Table.DataTable.SearchChanged | datatables.js:181-187 | the new data is the whole store filtered by the lower-cased term; page 1; checkboxes and sort state unchanged |
| Table.DataTable.EntriesChanged | datatables.js:192 | a new page size goes to page 1 and leaves the data unchanged |
| Table.DataTable.SortColumn | datatables.js:101-145 | the toggled order and column are recorded, the new data is the stable sort of the old by the classified comparator, page 1, store and checkboxes unchanged |
| Table.DataTable.SelectAll | datatables.js:55-61 | every row of the store, visible or not, gets the same checked state |
| Table.DataTable.SelectAllClicked | datatables.js:47-61 | a click on the select-all checkbox in header 0 runs the sort of column 0: the rows stay in order, column 0 and the toggled direction are recorded, and the page is 1; then every row gets the checkbox's state |
| Table.DataTable.ToggleRow | datatables.js:39-43 | one row's checkbox changes and no other does |
| Table.DataTable.GetSelectedItems | datatables.js:64-73 | the loop returns the checked rows in store order |
| Table.DataTable.PerformActionOnSelected | datatables.js:75-82 | the callback runs exactly when the selection is non-empty, and then gets the whole selection |
| Table.SelectionSurvivesSearch | datatables.js:64-73 | a checked row is still selected after a search and a reset of the search |
| Table.ClickHeaderTwice | datatables.js:101-145 | two clicks on one header record opposite directions; with distinct keys the second click shows the first click's rows in reverse |

## Left out

- DOM work is not modelled: element lookup and creation, `innerHTML`, `appendChild`, event listener registration, `preventDefault`, cursor and icon class names and the label strings. The rendered view is kept as three values: the visible rows, the info numbers and the control items.
- Labels: the four configurable labels are kept as tags (`FirstLabel` and so on), not as strings.
- `script.js` is not part of this model; it only creates two tables and runs a host-side action.
- `alert` in `performActionOnSelected` becomes the `NothingSelected` outcome, and the host callback becomes the `CallbackInvoked` outcome carrying its argument.
- Text.IsNumberText: only decimal literals (optional sign, digits, optional fraction) count as numbers. `isNaN` also accepts exponent forms (`1e5`), hexadecimal, binary and octal literals (`0x1F`, `0b101`, `0o17`) and `Infinity`. The model classifies these as text, so a column holding one is text-compared.
- Text.NumValue: exact rational values stand in for `parseFloat` doubles, and `numA - numB` becomes exact comparison; rounding is not modelled.
- Text.LexLe: `localeCompare` is locale-dependent collation; the model orders text by code points.
- Text.Lower: only ASCII and Latin-1 upper-case letters are lower-cased; the rest of Unicode case mapping is not modelled.
- Rows.RowText: `textContent` also includes the white-space text nodes between cells of the markup; the model concatenates the cell texts only.
- Table.DataTable.SortColumn: requires that every filtered row has a cell in the sorted column. In the source, a missing cell throws a `TypeError` from `textContent` of `undefined`; that error path is not modelled.
- Pagination.PageSize: the selector's value is '*' or a positive count. Other values are left out:
  - 0 with rows makes `totalPages` infinite, so the button loop never ends;
  - a negative count `e` gives no controls, and the page slice `slice(0, e)` drops the last `|e|` rows;
  - a value `parseInt` cannot read (`NaN`) gives no controls and an empty page.
- Sorting.InsertionSort: the model fixes the sort as insertion sort. It relies on a stable sort being unique for a given comparator, but that uniqueness is not proved.
- Table.DataTable.Display: the rendered notice is the corrected one, `PageInfo`'s `noEntries`, which is up exactly while the data is empty. The source's notice stays up after the first empty result (see Findings); that behaviour is modelled only by `Pagination.NoticeAsWritten`, not by the class.
- Concurrency and event ordering are not modelled: each handler runs to completion before the next.

## Findings

| source | as written | input that shows it | evidently intended | confidence | as-written member | corrected member |
|---|---|---|---|---|---|---|
| datatables.js:174-176 | `updateInfo` sets the info element's text to "No entries found" when there are no rows, and nothing ever puts the "showing start to end of total" text back | search for a term that matches nothing, then clear the search with 25 rows in the table | the notice shows only while the current data is empty | medium, not executed | Pagination.NoticeOutlivesEmptyResult | Pagination.PageInfo |

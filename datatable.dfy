/** The `DataTable` engine: the state the widget keeps between events and
    the handlers that change it. Every handler that changes which rows are
    visible re-renders, and the object invariant says that the rendered
    page, info numbers and controls always match the current state. */
module Table {
  import opened Text
  import opened Rows
  import opened Search
  import opened Sorting
  import opened Pagination
  import opened Selection

  class DataTable {
    /** `this.rows`: every body row, in document order; never reassigned. */
    const rows: seq<Row>
    /** `config.hasCheckboxes`: whether rows carry a checkbox. */
    const hasCheckboxes: bool
    /** `checkbox.checked` of each row's checkbox, in the order of `rows`. */
    const checked: array<bool>

    /** The value of the entries-per-page selector. */
    var pageSize: PageSize
    var currentPage: PageNumber
    /** The rows that passed the last search, in the last sort's order. */
    var filteredData: seq<Row>
    /** Both undefined until the first header click. */
    var sortOrder: Option<Order>
    var sortedColumnIndex: Option<nat>

    /** What the last `displayTable` rendered: the body rows, the info
        numbers and the page controls. */
    var visible: seq<Row>
    var info: Info
    var controls: seq<PageItem>

    /** The entries per page `displayTable` uses for the current data. */
    function Entries(): nat
      reads this
    {
      EntriesPerPage(pageSize, |filteredData|)
    }

    /** The number of pages of the current data (0 when there is none). */
    ghost function PageCount(): nat
      reads this
    {
      if Entries() == 0 then 0 else TotalPages(|filteredData|, Entries())
    }

    /** The state invariant: one checkbox per row, nothing checked without
        checkboxes, with checkboxes every row starts with the empty checkbox
        cell, and the filtered data holds rows of the store only. */
    ghost predicate Invariant()
      reads this, checked
    {
      && checked.Length == |rows|
      && (!hasCheckboxes ==> forall i :: 0 <= i < checked.Length ==> !checked[i])
      && (hasCheckboxes ==> forall i :: 0 <= i < |rows| ==> |rows[i].cells| > 0 && rows[i].cells[0] == "")
      && multiset(filteredData) <= multiset(rows)
    }

    /** The view shows the current page of the current data. */
    ghost predicate Rendered()
      reads this
    {
      && visible == PageRows(filteredData, currentPage, Entries())
      && info == PageInfo(|filteredData|, currentPage, Entries())
      && controls == Controls(|filteredData|, currentPage, Entries())
    }

    ghost predicate Valid()
      reads this, checked
    {
      Invariant() && Rendered()
    }

    /** `new DataTable(config)` over the table's body rows: with checkboxes
        every row gets its (unchecked) checkbox cell first; then every row
        passes, page 1, no sort yet, and the first render. */
    constructor (bodyRows: seq<Row>, hasCheckboxes: bool, pageSize: PageSize)
      ensures Valid() && fresh(checked)
      ensures rows == if hasCheckboxes then AddCheckboxCells(bodyRows) else bodyRows
      ensures this.hasCheckboxes == hasCheckboxes && this.pageSize == pageSize
      ensures filteredData == rows && currentPage == 1
      ensures sortOrder == None && sortedColumnIndex == None
      ensures forall i :: 0 <= i < checked.Length ==> !checked[i]
    {
      var store := if hasCheckboxes then AddCheckboxCells(bodyRows) else bodyRows;
      rows := store;
      this.hasCheckboxes := hasCheckboxes;
      checked := new bool[|store|](_ => false);
      this.pageSize := pageSize;
      currentPage := 1;
      filteredData := store;
      sortOrder := None;
      sortedColumnIndex := None;
      visible := [];
      info := Info(0, 0, 0, true);
      controls := [];
      new;
      Display();
    }

    /** `displayTable(this.filteredData, this.currentPage)`: the page slice,
        `updateInfo` and `updatePagination`. */
    method Display()
      modifies this`visible, this`info, this`controls
      ensures Rendered()
    {
      var entries := Entries();
      visible := PageRows(filteredData, currentPage, entries);
      info := PageInfo(|filteredData|, currentPage, entries);
      controls := BuildControls(|filteredData|, currentPage, entries);
    }

    /** `goToPage(page)`: sets the page and re-renders; the data, the sort
        state and the page size stay as they are. */
    method GoToPage(page: PageNumber)
      requires Invariant()
      modifies this`currentPage, this`visible, this`info, this`controls
      ensures Valid()
      ensures currentPage == page
    {
      currentPage := page;
      Display();
    }

    /** The click handler of control number `k` (`createPageItem`): goes to
        its target, which from an existing page is an existing page again. */
    method ClickControl(k: nat)
      requires Valid() && k < |controls|
      modifies this`currentPage, this`visible, this`info, this`controls
      ensures Valid()
      ensures currentPage == old(controls[k].target)
      ensures old(currentPage) <= PageCount() + 1 ==> currentPage <= PageCount()
    {
      var target := controls[k].target;
      TargetInRange(k);
      GoToPage(target);
    }

    /** The target of control `k` of a rendered view lies within the
        pages of the current data once the current page does. */
    lemma TargetInRange(k: nat)
      requires Valid() && k < |controls|
      ensures currentPage <= PageCount() + 1 ==> controls[k].target <= PageCount()
    {
      if currentPage <= PageCount() + 1 {
        ControlsTargetsInRange(|filteredData|, currentPage, Entries());
        assert controls[k] in controls;
      }
    }

    /** The search input handler: filters the whole row store (not the
        previous result) by the lower-cased term and goes to page 1. The
        sort state and the checkboxes are left alone. */
    method SearchChanged(value: string)
      requires Invariant()
      modifies this`filteredData, this`currentPage, this`visible, this`info, this`controls
      ensures Valid()
      ensures filteredData == Filter(rows, Lower(value))
      ensures currentPage == 1
      ensures checked[..] == old(checked[..])
    {
      var searchTerm := Lower(value);
      filteredData := Filter(rows, searchTerm);
      GoToPage(1);
    }

    /** The entries-per-page handler: the selector now reads `size`, and
        the table goes to page 1. */
    method EntriesChanged(size: PageSize)
      requires Invariant()
      modifies this`pageSize, this`currentPage, this`visible, this`info, this`controls
      ensures Valid()
      ensures pageSize == size && currentPage == 1
    {
      pageSize := size;
      GoToPage(1);
    }

    /** `sortColumn(index)`: toggles the direction, classifies the column
        over the current filtered rows, sorts a copy of them stably, stores
        it and goes to page 1. The row store and the checkboxes are left
        alone. A row without a cell in the column makes the source throw,
        so the column must exist in every filtered row. */
    method SortColumn(index: nat)
      requires Invariant()
      requires forall r :: r in filteredData ==> index < |r.cells|
      modifies this`sortOrder, this`sortedColumnIndex, this`filteredData
      modifies this`currentPage, this`visible, this`info, this`controls
      ensures Valid()
      ensures sortOrder == Some(NextOrder(old(sortedColumnIndex), old(sortOrder), index))
      ensures sortedColumnIndex == Some(index)
      ensures filteredData == InsertionSort(
                ColumnComparator(index, IsNumericColumn(old(filteredData), index), sortOrder.value),
                old(filteredData))
      ensures currentPage == 1
      ensures checked[..] == old(checked[..])
    {
      var data := filteredData;
      var sorting := new Row[|data|](i requires 0 <= i < |data| => data[i]);
      sortOrder := Some(NextOrder(sortedColumnIndex, sortOrder, index));
      sortedColumnIndex := Some(index);
      var isNumericColumn := IsNumericColumn(data, index);
      var comparator := ColumnComparator(index, isNumericColumn, sortOrder.value);
      assert sorting[..] == data;
      SortInPlace(sorting, comparator);
      SortPermutation(comparator, data);
      filteredData := sorting[..];
      GoToPage(1);
    }

    /** The select-all handler: every row of the store, on the page or not,
        filtered out or not, gets the same checked state. */
    method SelectAll(isChecked: bool)
      requires Valid() && hasCheckboxes
      modifies checked
      ensures Valid()
      ensures forall i :: 0 <= i < checked.Length ==> checked[i] == isChecked
    {
      for i := 0 to checked.Length
        invariant forall k :: 0 <= k < i ==> checked[k] == isChecked
      {
        checked[i] := isChecked;
      }
    }

    /** A click on the select-all checkbox. The checkbox sits in header
        cell 0, so the click first reaches that header's sort listener:
        `sortColumn(0)` sorts by the empty checkbox cells, which keeps the
        order of the rows but records column 0, toggles the direction and
        goes to page 1. After the click the checkbox's change handler checks
        or clears every row. */
    method SelectAllClicked(isChecked: bool)
      requires Valid() && hasCheckboxes
      modifies this`sortOrder, this`sortedColumnIndex, this`filteredData
      modifies this`currentPage, this`visible, this`info, this`controls, checked
      ensures Valid()
      ensures sortOrder == Some(NextOrder(old(sortedColumnIndex), old(sortOrder), 0))
      ensures sortedColumnIndex == Some(0)
      ensures filteredData == old(filteredData) && currentPage == 1
      ensures forall i :: 0 <= i < checked.Length ==> checked[i] == isChecked
    {
      var data := filteredData;
      var comparator := ColumnComparator(0, IsNumericColumn(data, 0), NextOrder(sortedColumnIndex, sortOrder, 0));
      forall r | r in data
        ensures 0 < |r.cells| && comparator.key(r) == TextKey("")
      {
        assert r in multiset(rows);
      }
      UniformKeySortIdentity(comparator, data, TextKey(""));
      SortColumn(0);
      SelectAll(isChecked);
    }

    /** The user ticking or clearing the checkbox of row `i` of the store. */
    method ToggleRow(i: nat, isChecked: bool)
      requires Valid() && hasCheckboxes && i < checked.Length
      modifies checked
      ensures Valid()
      ensures checked[i] == isChecked
      ensures forall k :: 0 <= k < checked.Length && k != i ==> checked[k] == old(checked[k])
    {
      checked[i] := isChecked;
    }

    /** `getSelectedItems()`: the checked rows, in store order, whatever the
        current search, sort or page. */
    method GetSelectedItems() returns (selectedItems: seq<Row>)
      requires Invariant()
      ensures selectedItems == Selected(rows, checked[..])
    {
      selectedItems := [];
      var i := 0;
      while i < |rows|
        invariant 0 <= i <= |rows|
        invariant selectedItems == Selected(rows[..i], checked[..i])
      {
        assert rows[..i + 1][..i] == rows[..i] && checked[..i + 1][..i] == checked[..i];
        if hasCheckboxes && checked[i] {
          selectedItems := selectedItems + [rows[i]];
        }
        i := i + 1;
      }
      assert rows[..|rows|] == rows && checked[..|rows|] == checked[..];
    }

    /** `performActionOnSelected(callback)`: the callback gets the selection
        exactly when it is non-empty; otherwise the empty selection is
        reported instead. */
    method PerformActionOnSelected() returns (outcome: ActionOutcome)
      requires Invariant()
      ensures outcome.CallbackInvoked? <==> |Selected(rows, checked[..])| > 0
      ensures outcome.CallbackInvoked? ==> outcome.selection == Selected(rows, checked[..])
    {
      var selectedRows := GetSelectedItems();
      if |selectedRows| > 0 {
        outcome := CallbackInvoked(selectedRows);
      } else {
        outcome := NothingSelected;
      }
    }
  }

  /** A checked row stays selected through any search and back: selection
      is kept per row of the store, not per visible row. */
  method SelectionSurvivesSearch(t: DataTable, i: nat, term: string) returns (selection: seq<Row>)
    requires t.Valid() && t.hasCheckboxes && i < |t.rows|
    modifies t, t.checked
    ensures t.rows[i] in selection
  {
    t.ToggleRow(i, true);
    t.SearchChanged(term);
    t.SearchChanged("");
    selection := t.GetSelectedItems();
    SelectedExactly(t.rows, t.checked[..]);
  }

  /** Two clicks on the same header. When no two filtered rows share a key
      in that column, the second click shows the rows of the first click
      in reverse. */
  method ClickHeaderTwice(t: DataTable, index: nat) returns (once: seq<Row>)
    requires t.Invariant()
    requires forall r :: r in t.filteredData ==> index < |r.cells|
    requires DistinctKeys(ColumnKey(index, IsNumericColumn(t.filteredData, index)), t.filteredData)
    modifies t`sortOrder, t`sortedColumnIndex, t`filteredData
    modifies t`currentPage, t`visible, t`info, t`controls
    ensures once == InsertionSort(ColumnComparator(index, IsNumericColumn(old(t.filteredData), index),
                                                   NextOrder(old(t.sortedColumnIndex), old(t.sortOrder), index)),
                                  old(t.filteredData))
    ensures t.filteredData == Reverse(once)
    ensures t.sortOrder == Some(Opposite(NextOrder(old(t.sortedColumnIndex), old(t.sortOrder), index)))
    ensures t.sortedColumnIndex == Some(index) && t.currentPage == 1
  {
    var data := t.filteredData;
    var numeric := IsNumericColumn(data, index);
    var comparator := ColumnComparator(index, numeric, NextOrder(t.sortedColumnIndex, t.sortOrder, index));
    t.SortColumn(index);
    once := t.filteredData;
    SortPermutation(comparator, data);
    forall r | r in once
      ensures index < |r.cells|
    {
      assert r in multiset(data);
    }
    NumericColumnPermutation(data, once, index);
    t.SortColumn(index);
    SecondSortReverses(comparator, data);
  }
}

/** The paginator: entries per page, the slice of rows a page shows, the
    "showing start to end of total" numbers and the page-button layout. */
module Pagination {
  import opened Rows

  /** Page numbers start at 1; every page a control can request is one. */
  type PageNumber = p: int | p >= 1 witness 1

  /** The value of the entries-per-page selector: '*' or a positive count. */
  datatype PageSize = All | PerPage(n: PageNumber)

  function Min(a: int, b: int): int { if a <= b then a else b }

  function Max(a: int, b: int): int { if a >= b then a else b }

  /** `entriesSelect.value === '*' ? data.length : parseInt(entriesSelect.value)`.
      Zero entries per page happens only for '*' over no rows. */
  function EntriesPerPage(size: PageSize, total: nat): (e: nat)
    ensures e >= 1 || total == 0
  {
    match size
    case All => total
    case PerPage(n) => n
  }

  // ---------------------------------------------------------------------
  // The visible slice
  // ---------------------------------------------------------------------

  /** `data.slice((page - 1) * e, (page - 1) * e + e)`: both ends clipped
      to the length of `data`, so never more than `e` rows. */
  function PageRows(data: seq<Row>, page: PageNumber, e: nat): (r: seq<Row>)
    ensures |r| <= e
    ensures (page - 1) * e >= |data| ==> r == []
  {
    var start := (page - 1) * e;
    var end := start + e;
    data[Min(start, |data|)..Min(end, |data|)]
  }

  /** `Math.ceil(total / e)`: the fewest pages of `e` rows that hold
      `total` rows. */
  function TotalPages(total: nat, e: nat): (n: nat)
    requires e >= 1
    ensures n * e >= total
    ensures n == 0 || (n - 1) * e < total
  {
    var n := (total + e - 1) / e;
    assert n * e + (total + e - 1) % e == total + e - 1;
    assert (n - 1) * e == n * e - e;
    n
  }

  /** The first page shows `min(e, total)` rows. */
  lemma FirstPageLength(data: seq<Row>, e: nat)
    ensures |PageRows(data, 1, e)| == Min(e, |data|)
  {
  }

  /** With '*' the first page shows every row. */
  lemma AllFitsOnFirstPage(data: seq<Row>)
    ensures PageRows(data, 1, EntriesPerPage(All, |data|)) == data
  {
  }

  /** A page past the last one is empty; it does not fail. */
  lemma PastLastPageEmpty(data: seq<Row>, page: PageNumber, e: nat)
    requires e >= 1 && page > TotalPages(|data|, e)
    ensures PageRows(data, page, e) == []
  {
    var n := TotalPages(|data|, e);
    assert (page - 1) * e >= n * e by {
      assert page - 1 >= n;
      MulMonotone(n, page - 1, e);
    }
  }

  lemma MulMonotone(a: nat, b: nat, e: nat)
    requires a <= b
    ensures a * e <= b * e
  {
  }

  /** Pages 1..k shown one after the other. */
  function PagesUpTo(data: seq<Row>, e: nat, k: nat): seq<Row> {
    if k == 0 then [] else PagesUpTo(data, e, k - 1) + PageRows(data, k, e)
  }

  /** Pages 1..k together are the first `k * e` rows. */
  lemma {:induction false} PagesUpToPrefix(data: seq<Row>, e: nat, k: nat)
    ensures PagesUpTo(data, e, k) == data[..Min(k * e, |data|)]
  {
    if k > 0 {
      PagesUpToPrefix(data, e, k - 1);
      assert (k - 1) * e + e == k * e;
      var lo := Min((k - 1) * e, |data|);
      var hi := Min(k * e, |data|);
      assert data[..lo] + data[lo..hi] == data[..hi];
    }
  }

  /** The pages 1..TotalPages, shown one after another, are exactly the
      data: every row is on exactly one page and in order. */
  lemma PagesCoverData(data: seq<Row>, e: nat)
    requires e >= 1
    ensures PagesUpTo(data, e, TotalPages(|data|, e)) == data
  {
    PagesUpToPrefix(data, e, TotalPages(|data|, e));
  }

  // ---------------------------------------------------------------------
  // The info numbers
  // ---------------------------------------------------------------------

  /** What `updateInfo` writes: the start and end entry numbers (1-based),
      the total, and whether the "No entries found" notice is up. */
  datatype Info = Info(start: int, end: int, total: nat, noEntries: bool)

  /** `updateInfo(total, page, e)`: start = (page-1)*e+1 and
      end = min(page*e, total), both 0 when there are no rows; a page past
      the end is not clamped. */
  function PageInfo(total: nat, page: PageNumber, e: nat): (r: Info)
    ensures r.total == total
    ensures r.noEntries <==> total == 0
    ensures total == 0 ==> r.start == 0 && r.end == 0
    ensures total > 0 ==> r.start == (page - 1) * e + 1 && r.end == Min(page * e, total)
  {
    if total == 0 then Info(0, 0, 0, true)
    else Info((page - 1) * e + 1, Min(page * e, total), total, false)
  }

  /** The info numbers describe the visible slice: when the page has rows,
      they are entries start..end of the data (1-based) and there are
      end - start + 1 of them; a page past the end shows nothing and
      reports start > end. */
  lemma InfoDescribesPage(data: seq<Row>, page: PageNumber, e: nat)
    requires e >= 1 && |data| > 0
    ensures var info := PageInfo(|data|, page, e);
            var rows := PageRows(data, page, e);
            && (info.start <= |data| ==>
                  1 <= info.start <= info.end <= |data| && rows == data[info.start - 1..info.end]
                  && |rows| == info.end - info.start + 1)
            && (info.start > |data| ==> rows == [] && info.start > info.end)
  {
    assert page * e == (page - 1) * e + e;
  }

  /** Findings: the "No entries found" notice as the source writes it.
      `updateInfo` puts it up when a render has no rows and no later
      render takes it down. */
  function NoticeAsWritten(shown: bool, total: nat): bool {
    shown || total == 0
  }

  /** A search that matches nothing, followed by one that matches 25 rows:
      the notice as written still says there are no entries, while
      `PageInfo`, which the model uses, takes it down. */
  lemma NoticeOutlivesEmptyResult()
    ensures NoticeAsWritten(NoticeAsWritten(false, 0), 25)
    ensures !PageInfo(25, 1, 10).noEntries
  {
  }

  // ---------------------------------------------------------------------
  // The page controls
  // ---------------------------------------------------------------------

  /** The label of a control: the four configurable labels, or a page number. */
  datatype Label = FirstLabel | PreviousLabel | PageLabel(n: PageNumber) | NextLabel | LastLabel

  /** `createPageItem(label, page, active)`: a control that goes to `target`
      when clicked. */
  datatype PageItem = PageItem(caption: Label, target: PageNumber, active: bool)

  /** The numbered buttons 1..count; the one for `page` is active. */
  function NumberButtons(count: nat, page: PageNumber): (r: seq<PageItem>)
    ensures |r| == count
  {
    seq(count, k requires 0 <= k < count => PageItem(PageLabel(k + 1), k + 1, k + 1 == page))
  }

  /** `updatePagination(total, page, e)`: nothing when one page holds every
      row; otherwise First, Previous, the buttons 1..totalPages, Next, Last. */
  function Controls(total: nat, page: PageNumber, e: nat): seq<PageItem>
    requires e >= 1 || total == 0
  {
    if e >= total then []
    else
      var totalPages := TotalPages(total, e);
      if totalPages > 1 then
        [PageItem(FirstLabel, 1, false), PageItem(PreviousLabel, if page > 1 then page - 1 else 1, false)]
        + NumberButtons(totalPages, page)
        + [PageItem(NextLabel, if page < totalPages then page + 1 else totalPages, false),
           PageItem(LastLabel, totalPages, false)]
      else []
  }

  /** More rows than fit on a page means at least two pages, so the
      `totalPages > 1` test never suppresses the controls on its own. */
  lemma SeveralPages(total: nat, e: nat)
    requires 1 <= e < total
    ensures TotalPages(total, e) > 1
  {
  }

  /** There are no controls exactly when one page holds every row; with
      '*' there are none, not even for an empty table. */
  lemma ControlsSuppressed(total: nat, page: PageNumber, e: nat)
    requires e >= 1 || total == 0
    ensures Controls(total, page, e) == [] <==> e >= total
    ensures Controls(total, page, EntriesPerPage(All, total)) == []
  {
    if e < total { SeveralPages(total, e); }
  }

  /** The layout of the controls: totalPages + 4 items, First to page 1,
      Previous to max(page - 1, 1), button k to page k for k = 1..totalPages,
      Next to min(page + 1, totalPages), Last to totalPages. */
  lemma ControlsLayout(total: nat, page: PageNumber, e: nat)
    requires 1 <= e < total
    ensures var n := TotalPages(total, e);
            var r := Controls(total, page, e);
            && |r| == n + 4
            && r[0] == PageItem(FirstLabel, 1, false)
            && r[1] == PageItem(PreviousLabel, Max(page - 1, 1), false)
            && (forall k :: 1 <= k <= n ==> r[k + 1].caption == PageLabel(k) && r[k + 1].target == k)
            && r[n + 2] == PageItem(NextLabel, Min(page + 1, n), false)
            && r[n + 3] == PageItem(LastLabel, n, false)
  {
    SeveralPages(total, e);
  }

  /** Exactly one control is active, the button of the current page, when
      the current page exists; none is when it lies past the last page. */
  lemma ControlsActive(total: nat, page: PageNumber, e: nat)
    requires 1 <= e < total
    ensures var n := TotalPages(total, e);
            var r := Controls(total, page, e);
            forall k :: 0 <= k < |r| ==> (r[k].active <==> page <= n && k == page + 1)
  {
    SeveralPages(total, e);
  }

  /** From any existing page (or the one just past the end), every control
      leads to an existing page. */
  lemma ControlsTargetsInRange(total: nat, page: PageNumber, e: nat)
    requires e >= 1 || total == 0
    requires e >= 1 ==> page <= TotalPages(total, e) + 1
    ensures forall item :: item in Controls(total, page, e) ==> item.target <= TotalPages(total, e)
  {
    if e < total {
      SeveralPages(total, e);
      var n := TotalPages(total, e);
      var r := Controls(total, page, e);
      forall item | item in r
        ensures item.target <= n
      {
        var k :| 0 <= k < |r| && r[k] == item;
        if 2 <= k < n + 2 {
          assert r[k] == NumberButtons(n, page)[k - 2];
        }
      }
    }
  }

  /** The worked example: 25 rows, 10 per page, page 1 shows entries 1 to
      10 of 25 and the controls First, Previous to 1, buttons 1 (active),
      2 and 3, Next to 2, Last to 3. */
  lemma TwentyFiveRowsExample(data: seq<Row>)
    requires |data| == 25
    ensures PageRows(data, 1, 10) == data[..10]
    ensures PageInfo(25, 1, 10) == Info(1, 10, 25, false)
    ensures Controls(25, 1, 10) ==
      [ PageItem(FirstLabel, 1, false), PageItem(PreviousLabel, 1, false),
        PageItem(PageLabel(1), 1, true), PageItem(PageLabel(2), 2, false), PageItem(PageLabel(3), 3, false),
        PageItem(NextLabel, 2, false), PageItem(LastLabel, 3, false) ]
  {
    assert TotalPages(25, 10) == 3;
    assert NumberButtons(3, 1) == [PageItem(PageLabel(1), 1, true), PageItem(PageLabel(2), 2, false), PageItem(PageLabel(3), 3, false)];
  }

  /** The page-control loop of `updatePagination`, building the list one
      item at a time; the result is `Controls`. */
  method BuildControls(total: nat, page: PageNumber, e: nat) returns (items: seq<PageItem>)
    requires e >= 1 || total == 0
    ensures items == Controls(total, page, e)
  {
    items := [];
    if e >= total {
      return;
    }
    var totalPages := (total + e - 1) / e;
    assert totalPages == TotalPages(total, e);
    if totalPages > 1 {
      items := items + [PageItem(FirstLabel, 1, false)];
      items := items + [PageItem(PreviousLabel, if page > 1 then page - 1 else 1, false)];
      var i := 1;
      while i <= totalPages
        invariant 1 <= i <= totalPages + 1
        invariant items == [PageItem(FirstLabel, 1, false), PageItem(PreviousLabel, if page > 1 then page - 1 else 1, false)]
                           + NumberButtons(i - 1, page)
      {
        assert NumberButtons(i, page) == NumberButtons(i - 1, page) + [PageItem(PageLabel(i), i, i == page)];
        items := items + [PageItem(PageLabel(i), i, i == page)];
        i := i + 1;
      }
      items := items + [PageItem(NextLabel, if page < totalPages then page + 1 else totalPages, false)];
      items := items + [PageItem(LastLabel, totalPages, false)];
    }
  }
}

/** The paginated, selectable table component: its page arithmetic, page-button rule and
    row-selection state. Rendering is not modelled; only the values it is computed from. */
module DataTable {
  import opened Sequences

  /** A row of the table; only its `id` matters to pagination and selection. */
  datatype Row = Row(id: int, cells: map<string, string>)

  /** The page sizes offered by the rows-per-page selector. */
  const PageSizeOptions: set<int> := {10, 25, 50}

  /** The page size before the user picks one. */
  const InitialPageSize: int := 10

  function Min(a: int, b: int): int { if a < b then a else b }
  function Max(a: int, b: int): int { if a < b then b else a }

  // ---------------------------------------------------------------------------
  // Pagination arithmetic

  /** `Math.ceil(data.length / pageSize)`: the fewest pages of `size` rows that hold `len` rows. */
  function TotalPages(len: nat, size: nat): (r: nat)
    requires size > 0
    ensures r * size >= len
    ensures r > 0 ==> (r - 1) * size < len
    ensures r == 0 <==> len == 0
  {
    if len % size == 0 then len / size else len / size + 1
  }

  /** `(currentPage - 1) * pageSize`. */
  function StartIndex(page: int, size: nat): int
  {
    (page - 1) * size
  }

  /** `startIndex + pageSize`. */
  function EndIndex(page: int, size: nat): int
  {
    StartIndex(page, size) + size
  }

  /** `s.slice(start, end)` for non-negative bounds: indexes past the end are clamped. */
  function Slice<T>(s: seq<T>, start: nat, end: nat): (r: seq<T>)
    ensures |r| == if start >= |s| || end <= start then 0 else Min(end, |s|) - start
    ensures forall i :: 0 <= i < |r| ==> r[i] == s[start + i]
  {
    if start >= |s| || end <= start then [] else s[start..Min(end, |s|)]
  }

  /** `currentData`: the rows shown on page `page`. */
  function CurrentData(data: seq<Row>, page: int, size: nat): (r: seq<Row>)
    requires page >= 1 && size > 0
    ensures StartIndex(page, size) >= 0
    ensures |r| <= size
    ensures r == [] <==> StartIndex(page, size) >= |data|
    ensures r != [] ==> StartIndex(page, size) + |r| <= |data|
    ensures r != [] ==> |r| == Min(EndIndex(page, size), |data|) - StartIndex(page, size)
    ensures forall i :: 0 <= i < |r| ==> r[i] == data[StartIndex(page, size) + i]
  {
    assert StartIndex(page, size) >= 0;
    Slice(data, StartIndex(page, size), EndIndex(page, size))
  }

  /** A page shows rows exactly when it is one of the pages 1..totalPages; pages past
      the last one (the current page is not reset when the data shrinks) show none. */
  lemma PageNonEmptyIff(data: seq<Row>, page: int, size: nat)
    requires page >= 1 && size > 0
    ensures CurrentData(data, page, size) != [] <==> page <= TotalPages(|data|, size)
  {
    var t := TotalPages(|data|, size);
    if page <= t {
      MulLe(page - 1, t - 1, size);
    } else {
      MulLe(t, page - 1, size);
    }
  }

  /** Every page but the last is full; the last holds what is left. */
  lemma PageSizes(data: seq<Row>, page: int, size: nat)
    requires size > 0 && 1 <= page <= TotalPages(|data|, size)
    ensures page < TotalPages(|data|, size) ==> |CurrentData(data, page, size)| == size
    ensures page == TotalPages(|data|, size) ==>
      |CurrentData(data, page, size)| == |data| - (page - 1) * size
  {
    var t := TotalPages(|data|, size);
    PageNonEmptyIff(data, page, size);
    if page < t {
      MulLe(page, t - 1, size);
      assert (page - 1) * size + size == page * size;
    } else {
      assert (page - 1) * size + size == page * size;
    }
  }

  /** Row `j` appears on page `j / size + 1`, at position `j % size`: each row is on a page. */
  lemma RowOnItsPage(data: seq<Row>, size: nat, j: nat)
    requires size > 0 && j < |data|
    ensures 1 <= j / size + 1 <= TotalPages(|data|, size)
    ensures j % size < |CurrentData(data, j / size + 1, size)|
    ensures CurrentData(data, j / size + 1, size)[j % size] == data[j]
  {
    var p := j / size + 1;
    assert StartIndex(p, size) == (j / size) * size;
    assert (j / size) * size + j % size == j;
    PageNonEmptyIff(data, p, size);
    var t := TotalPages(|data|, size);
    if p > t {
      MulLe(t, p - 1, size);
      assert false;
    }
  }

  /** Multiplication by a non-negative factor is monotone. */
  lemma MulLe(a: int, b: int, c: nat)
    requires a <= b
    ensures a * c <= b * c
  {
  }

  /** `Showing {startIndex + 1}-{Math.min(endIndex, data.length)} of {data.length} items`. */
  function ShowingRange(page: int, size: nat, len: nat): (r: (int, int, nat))
  {
    (StartIndex(page, size) + 1, Min(EndIndex(page, size), len), len)
  }

  /** On a page in range, the summary names the 1-based positions of exactly the rows
      shown; with no data it reads "Showing 1-0 of 0". */
  lemma ShowingMatchesRows(data: seq<Row>, page: int, size: nat)
    requires size > 0 && page >= 1
    ensures 1 <= page <= TotalPages(|data|, size) ==>
      var (first, last, n) := ShowingRange(page, size, |data|);
      && 1 <= first <= last <= n == |data|
      && last - first + 1 == |CurrentData(data, page, size)|
      && CurrentData(data, page, size) == data[first - 1..last]
    ensures data == [] ==> ShowingRange(page, size, 0) == (StartIndex(page, size) + 1, 0, 0)
  {
    if page <= TotalPages(|data|, size) {
      PageNonEmptyIff(data, page, size);
      assert (page - 1) * size >= 0;
      var cur := CurrentData(data, page, size);
      var (first, last, n) := ShowingRange(page, size, |data|);
      assert cur == data[first - 1..last];
    }
  }

  /** The twelve-row example: with pages of ten, page 1 shows rows 0-9 and page 2 rows 10-11. */
  lemma TwelveRows(data: seq<Row>)
    requires |data| == 12
    ensures TotalPages(12, 10) == 2
    ensures CurrentData(data, 1, 10) == data[0..10]
    ensures CurrentData(data, 2, 10) == data[10..12]
    ensures CurrentData(data, 3, 10) == []
  {
  }

  // ---------------------------------------------------------------------------
  // Page buttons

  /** The page numbers 1..total. */
  function PageNumbers(total: nat): (r: seq<int>)
    ensures |r| == total && forall i :: 0 <= i < total ==> r[i] == i + 1
  {
    seq(total, i => i + 1)
  }

  /** Page button `k` is rendered when there are at most five pages, or it is the first,
      the last, or next to the current page. */
  predicate ShowPageButton(k: int, total: int, current: int)
  {
    total <= 5 || k == 1 || k == total || (k >= current - 1 && k <= current + 1)
  }

  /** The page buttons rendered, in order. */
  function PageButtons(total: nat, current: int): seq<int>
  {
    Filter(PageNumbers(total), (k: int) => ShowPageButton(k, total, current))
  }

  /** Page `k` is among 1..total exactly when it is a page number. */
  lemma PageNumbersMembers(total: nat)
    ensures forall k :: k in PageNumbers(total) <==> 1 <= k <= total
  {
    var all := PageNumbers(total);
    forall k ensures k in all <==> 1 <= k <= total {
      if 1 <= k <= total { assert all[k - 1] == k; }
    }
  }

  /** The rendered buttons are increasing and are exactly the pages 1..total that pass
      the rule; first, last and current page always appear; up to five pages all appear. */
  lemma PageButtonsShape(total: nat, current: int)
    ensures Increasing(PageButtons(total, current))
    ensures forall k :: k in PageButtons(total, current) <==>
      1 <= k <= total && (total <= 5 || k == 1 || k == total || -1 <= k - current <= 1)
    ensures total >= 1 ==> 1 in PageButtons(total, current) && total in PageButtons(total, current)
    ensures 1 <= current <= total ==> current in PageButtons(total, current)
    ensures total <= 5 ==> PageButtons(total, current) == PageNumbers(total)
  {
    var all := PageNumbers(total);
    var keep := (k: int) => ShowPageButton(k, total, current);
    assert Increasing(all);
    FilterIncreasing(all, keep);
    PageNumbersMembers(total);
    if total <= 5 {
      FilterKeepsAll(all, keep);
    }
  }

  /** Beyond five pages at most five buttons are drawn: first, last, and the current
      page with its two neighbours. */
  lemma PageButtonsAtMostFive(total: nat, current: int)
    ensures |PageButtons(total, current)| <= 5 || total <= 5
  {
    if total > 5 {
      var r := PageButtons(total, current);
      var allowed := {1, total, current - 1, current, current + 1};
      assert (set x | x in r) <= allowed;
      var all := PageNumbers(total);
      assert Increasing(all);
      FilterIncreasing(all, (k: int) => ShowPageButton(k, total, current));
      assert Distinct(r);
      DistinctCardinality(r);
      SubsetCardinality((set x | x in r), allowed);
    }
  }

  /** A subset has no more elements than its superset. */
  lemma SubsetCardinality(a: set<int>, b: set<int>)
    requires a <= b
    ensures |a| <= |b|
  {
    assert b == a + (b - a);
  }

  /** The previous-page button: `Math.max(1, page - 1)`. */
  function PrevPage(page: int): int
  {
    Max(1, page - 1)
  }

  /** The next-page button: `Math.min(totalPages, page + 1)`. */
  function NextPage(page: int, total: int): int
  {
    Min(total, page + 1)
  }

  /** From a page in range, both buttons stay in range and move by at most one;
      from a page past the end, next jumps back to the last page. */
  lemma PrevNextInRange(page: int, total: int)
    ensures 1 <= page <= total ==> 1 <= PrevPage(page) <= total && 1 <= NextPage(page, total) <= total
    ensures 1 <= page ==> page - 1 <= PrevPage(page) <= page
    ensures page <= total ==> page <= NextPage(page, total) <= page + 1
    ensures page > total ==> NextPage(page, total) == total
  {
  }

  /** The pagination bar is drawn only when enabled and there is data. */
  function ShowPagination(pagination: bool, len: nat): bool
  {
    pagination && len > 0
  }

  /** Whenever the pagination bar is drawn there is at least one page, so next-page
      can never set the page to 0. */
  lemma PaginationBarHasPages(pagination: bool, len: nat, size: nat)
    requires size > 0
    ensures ShowPagination(pagination, len) ==> TotalPages(len, size) >= 1
  {
  }

  // ---------------------------------------------------------------------------
  // Header and empty row

  /** The header cells: an optional select-all box, one title per column, and "Actions". */
  datatype HeaderCell = SelectAllBox | ColumnTitle(key: string) | ActionsTitle

  function HeaderCells(columnKeys: seq<string>, selection: bool): (r: seq<HeaderCell>)
  {
    (if selection then [SelectAllBox] else [])
      + seq(|columnKeys|, i requires 0 <= i < |columnKeys| => ColumnTitle(columnKeys[i]))
      + [ActionsTitle]
  }

  /** `columns.length + (selection ? 1 : 0) + 1`. */
  function EmptyRowColSpan(columns: nat, selection: bool): nat
  {
    columns + (if selection then 1 else 0) + 1
  }

  /** The "No data available" cell spans the whole header row. */
  lemma EmptyRowSpansHeader(columnKeys: seq<string>, selection: bool)
    ensures EmptyRowColSpan(|columnKeys|, selection) == |HeaderCells(columnKeys, selection)|
  {
  }

  // ---------------------------------------------------------------------------
  // Selection

  /** `rows.map(row => row.id)`. */
  function Ids(rows: seq<Row>): (r: seq<int>)
    ensures |r| == |rows| && forall i :: 0 <= i < |rows| ==> r[i] == rows[i].id
  {
    seq(|rows|, i requires 0 <= i < |rows| => rows[i].id)
  }

  /** `allSelected`: some row is visible and every visible row is selected. */
  predicate AllSelected(current: seq<Row>, selected: seq<int>)
  {
    |current| > 0 && forall i :: 0 <= i < |current| ==> current[i].id in selected
  }

  /** `someSelected`: some visible row is selected. */
  predicate SomeSelected(current: seq<Row>, selected: seq<int>)
  {
    exists i :: 0 <= i < |current| && current[i].id in selected
  }

  /** The selection that "select all" installs: the visible ids, and nothing else. */
  function SelectAllIds(current: seq<Row>, checked: bool): (r: seq<int>)
    ensures Distinct(r)
    ensures checked ==> forall x :: x in r <==> x in Ids(current)
    ensures checked && Distinct(Ids(current)) ==> r == Ids(current)
    ensures !checked ==> r == []
  {
    if checked then SetOf(Ids(current)) else []
  }

  /** The selection after a row's box changes: that id added or removed, nothing else. */
  function SelectRowIds(selected: seq<int>, rowId: int, checked: bool): (r: seq<int>)
    requires Distinct(selected)
    ensures Distinct(r)
  {
    if checked then SetAdd(selected, rowId) else SetDelete(selected, rowId)
  }

  /** Everything selected implies something selected. */
  lemma AllImpliesSome(current: seq<Row>, selected: seq<int>)
    requires AllSelected(current, selected)
    ensures SomeSelected(current, selected)
  {
    assert current[0].id in selected;
  }

  /** Checking "select all" selects exactly the visible rows: the header box then shows
      all selected (when there are rows), and ids chosen on other pages are dropped.
      Unchecking it empties the selection. */
  lemma SelectAllEffect(current: seq<Row>, previous: seq<int>)
    ensures forall x :: x in SelectAllIds(current, true) <==> exists i :: 0 <= i < |current| && current[i].id == x
    ensures |current| > 0 ==> AllSelected(current, SelectAllIds(current, true))
    ensures forall x :: x in previous && x !in Ids(current) ==> x !in SelectAllIds(current, true)
    ensures SelectAllIds(current, false) == [] && !SomeSelected(current, SelectAllIds(current, false))
  {
    var ids := Ids(current);
    forall x ensures x in SetOf(ids) <==> exists i :: 0 <= i < |current| && current[i].id == x {
      if x in ids {
        var i :| 0 <= i < |ids| && ids[i] == x;
        assert current[i].id == x;
      }
    }
    forall i | 0 <= i < |current| ensures current[i].id in SetOf(ids) {
      assert ids[i] == current[i].id;
    }
  }

  /** Checking a row adds only its id (at the end, unless already there) and
      unchecking removes only it; every other selected id stays, in its order. */
  lemma SelectRowEffect(selected: seq<int>, rowId: int, checked: bool)
    requires Distinct(selected)
    ensures checked ==> forall x :: x in SelectRowIds(selected, rowId, checked) <==> x in selected || x == rowId
    ensures !checked ==> forall x :: x in SelectRowIds(selected, rowId, checked) <==> x in selected && x != rowId
    ensures checked ==> IsSubsequence(selected, SelectRowIds(selected, rowId, checked))
    ensures !checked ==> IsSubsequence(SelectRowIds(selected, rowId, checked), selected)
    ensures checked && rowId !in selected ==> SelectRowIds(selected, rowId, checked) == selected + [rowId]
  {
  }

  /** "Select all" on page 2 of twelve rows selects rows 10 and 11 only, even if row 0
      was selected on page 1. */
  lemma SelectAllOnSecondPage(data: seq<Row>)
    requires |data| == 12 && forall i :: 0 <= i < 12 ==> data[i].id == i
    ensures SelectAllIds(CurrentData(data, 2, 10), true) == [10, 11]
  {
    var cur := CurrentData(data, 2, 10);
    assert cur == data[10..12];
    assert Ids(cur) == [10, 11];
    assert Ids(cur)[..1] == [10];
    assert SetOf([10]) == [10] by { assert [10][..0] == []; }
  }

  // ---------------------------------------------------------------------------
  // Component state

  /** The component's state: `currentPage`, `pageSize` and `selectedRows`, a `Set` of ids
      kept in insertion order. The props (`data`, `columns`, the flags) are passed to each
      handler as they were at the render that installed it. */
  class Table {
    var currentPage: int
    var pageSize: int
    var selectedRows: seq<int>

    /** The page is at least 1, the page size is one of the options, and no id is
        selected twice. */
    ghost predicate Valid()
      reads this
    {
      currentPage >= 1 && pageSize in PageSizeOptions && Distinct(selectedRows)
    }

    constructor ()
      ensures Valid()
      ensures currentPage == 1 && pageSize == InitialPageSize && selectedRows == []
    {
      currentPage := 1;
      pageSize := InitialPageSize;
      selectedRows := [];
    }

    /** The rows visible at this state. */
    function Visible(data: seq<Row>): (r: seq<Row>)
      reads this
      requires Valid()
      ensures |r| <= pageSize
      ensures forall i :: 0 <= i < |r| ==>
        0 <= StartIndex(currentPage, pageSize) + i < |data| && r[i] == data[StartIndex(currentPage, pageSize) + i]
    {
      CurrentData(data, currentPage, pageSize)
    }

    /** `handleSelectAll`: replaces the selection with the visible ids, or clears it.
        It does not call `onRowSelect`. */
    method HandleSelectAll(data: seq<Row>, checked: bool)
      requires Valid()
      modifies this`selectedRows
      ensures Valid()
      ensures selectedRows == SelectAllIds(old(Visible(data)), checked)
    {
      var currentData := CurrentData(data, currentPage, pageSize);
      if checked {
        selectedRows := SetOf(Ids(currentData));
      } else {
        selectedRows := [];
      }
    }

    /** `handleSelectRow`: adds or removes one id and returns the new selection, in
        insertion order, as the list `onRowSelect` receives. */
    method HandleSelectRow(rowId: int, checked: bool) returns (notified: seq<int>)
      requires Valid()
      modifies this`selectedRows
      ensures Valid()
      ensures selectedRows == SelectRowIds(old(selectedRows), rowId, checked)
      ensures notified == selectedRows
    {
      var newSelected := selectedRows;
      if checked {
        newSelected := SetAdd(newSelected, rowId);
      } else {
        newSelected := SetDelete(newSelected, rowId);
      }
      selectedRows := newSelected;
      notified := newSelected;
    }

    /** The previous-page button. */
    method ClickPrev()
      requires Valid()
      modifies this`currentPage
      ensures Valid()
      ensures currentPage == PrevPage(old(currentPage))
    {
      currentPage := Max(1, currentPage - 1);
    }

    /** The next-page button; it exists only while the pagination bar is shown, that is
        while there is data. */
    method ClickNext(dataLength: nat)
      requires Valid() && dataLength > 0
      modifies this`currentPage
      ensures Valid()
      ensures currentPage == NextPage(old(currentPage), TotalPages(dataLength, pageSize))
    {
      var totalPages := TotalPages(dataLength, pageSize);
      currentPage := Min(totalPages, currentPage + 1);
    }

    /** A page-number button: it jumps to that page. */
    method ClickPage(page: int, dataLength: nat)
      requires Valid() && 1 <= page <= TotalPages(dataLength, pageSize)
      modifies this`currentPage
      ensures Valid() && currentPage == page
    {
      currentPage := page;
    }

    /** The rows-per-page selector: sets the size and returns to page 1. */
    method ChangePageSize(size: int)
      requires Valid() && size in PageSizeOptions
      modifies this`pageSize, this`currentPage
      ensures Valid()
      ensures pageSize == size && currentPage == 1
    {
      pageSize := size;
      currentPage := 1;
    }
  }
}

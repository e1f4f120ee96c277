/** The data table component: the derived row pipeline (filter, sort,
    paginate), page count and clamping, the sort toggle and its ARIA
    rendering, column widths, and the component's row selection. */
module Table {
  import opened Wrappers
  import opened Arith
  import opened TableTypes
  import TableSearch
  import TableSort
  import Text

  lemma DivMod(k: nat, size: int)
    requires size >= 1
    ensures k / size >= 0 && 0 <= k % size < size && (k / size) * size + k % size == k
  {
  }

  /** `max(0, page) * size`: the index of a page's first row. */
  function PageStart(page: int, size: int): (start: int)
    requires size >= 1
    ensures start >= 0
    ensures page >= 0 ==> start == page * size
  {
    MulNonNegative(Max(0, page), size);
    Max(0, page) * size
  }

  /** `rows.slice(start, start + size)` from the page's first row. */
  function Paginate(rows: seq<Row>, size: int, page: int): (r: seq<Row>)
    requires size >= 1
    ensures var start := PageStart(page, size);
      && |r| == Max(0, Min(size, |rows| - start))
      && forall k :: 0 <= k < |r| ==> start + k < |rows| && r[k] == rows[start + k]
  {
    var start := PageStart(page, size);
    var lo := Min(start, |rows|);
    var hi := Min(start + size, |rows|);
    rows[lo..hi]
  }

  /** The filter and sort stages of `processedRows`: the local search when
      the normalized query is non-empty, then the sort when one is set. */
  function FilteredSorted(rows: seq<Row>, columns: seq<Column>, query: string, sort: Option<SortState>): (r: seq<Row>)
    ensures |r| <= |rows|
    ensures TableSearch.NormalizedQuery(query) == "" ==> multiset(r) == multiset(rows)
  {
    var filtered :=
      if TableSearch.NormalizedQuery(query) != "" then TableSearch.FilterLocal(rows, ColumnKeys(columns), query)
      else rows;
    if sort.Some? then TableSort.SortRowsPermutation(filtered, sort.value); TableSort.SortRows(filtered, sort.value)
    else filtered
  }

  /** The pagination stage of `processedRows`: with pagination off the
      whole list, with it on the page's slice, never more than a page long. */
  function PageOf(all: seq<Row>, cfg: TableConfig, page: int): (r: seq<Row>)
    requires cfg.pagination ==> PageSizeOf(cfg) >= 1
    ensures !cfg.pagination ==> r == all
    ensures cfg.pagination ==>
      var start := PageStart(page, PageSizeOf(cfg));
      && |r| == Max(0, Min(PageSizeOf(cfg), |all| - start))
      && forall k :: 0 <= k < |r| ==> start + k < |all| && r[k] == all[start + k]
  {
    if cfg.pagination then Paginate(all, PageSizeOf(cfg), page) else all
  }

  /** The rows the table shows. */
  function ProcessedRows(rows: seq<Row>, columns: seq<Column>, query: string, sort: Option<SortState>,
                         cfg: TableConfig, page: int): (r: seq<Row>)
    requires cfg.pagination ==> PageSizeOf(cfg) >= 1
    ensures |r| <= |rows|
    ensures cfg.pagination ==> |r| <= PageSizeOf(cfg)
  {
    PageOf(FilteredSorted(rows, columns, query, sort), cfg, page)
  }

  /** Every row kept by the filter and sort stages is one of the caller's
      rows, and with a non-empty query it matches the query in some column. */
  lemma FilteredSortedFromInput(rows: seq<Row>, columns: seq<Column>, query: string, sort: Option<SortState>)
    ensures |FilteredSorted(rows, columns, query, sort)| <= |rows|
    ensures forall x :: x in FilteredSorted(rows, columns, query, sort) ==>
      x in rows
      && (TableSearch.NormalizedQuery(query) != "" ==>
            TableSearch.SomeColumnMatches(x, ColumnKeys(columns), TableSearch.NormalizedQuery(query)))
  {
    var filtered :=
      if TableSearch.NormalizedQuery(query) != "" then TableSearch.FilterLocal(rows, ColumnKeys(columns), query)
      else rows;
    if sort.Some? {
      TableSort.SortRowsPermutation(filtered, sort.value);
      forall x | x in FilteredSorted(rows, columns, query, sort)
        ensures x in filtered
      {
        assert x in multiset(FilteredSorted(rows, columns, query, sort));
      }
    }
  }

  /** `totalPages`: 1 without pagination, otherwise the pages needed for
      the raw (unfiltered) row count, and never fewer than 1. */
  function TotalPages(cfg: TableConfig, rowCount: nat): (r: int)
    requires cfg.pagination ==> PageSizeOf(cfg) >= 1
    ensures r >= 1
    ensures !cfg.pagination ==> r == 1
    ensures cfg.pagination && rowCount == 0 ==> r == 1
    ensures cfg.pagination && rowCount > 0 ==> (r - 1) * PageSizeOf(cfg) < rowCount <= r * PageSizeOf(cfg)
  {
    if !cfg.pagination then 1 else Max(1, CeilDiv(rowCount, PageSizeOf(cfg)))
  }

  /** `Math.max(0, Math.min(idx, pages - 1))`. */
  function ClampPage(idx: int, pages: int): (r: int)
    requires pages >= 1
    ensures 0 <= r < pages
    ensures 0 <= idx < pages ==> r == idx
    ensures idx < 0 ==> r == 0
    ensures idx >= pages ==> r == pages - 1
  {
    Max(0, Min(idx, pages - 1))
  }

  /** Row `k` of a list no longer than the row count is shown at position
      `k % size` of page `k / size`, and that page is within the count. */
  lemma {:induction false} PagesCover(all: seq<Row>, cfg: TableConfig, rowCount: nat, k: int)
    requires cfg.pagination && PageSizeOf(cfg) >= 1
    requires |all| <= rowCount && 0 <= k < |all|
    ensures var size := PageSizeOf(cfg);
      var shown := PageOf(all, cfg, k / size);
      && k / size < TotalPages(cfg, rowCount)
      && k % size < |shown|
      && shown[k % size] == all[k]
  {
    var size := PageSizeOf(cfg);
    var p := k / size;
    DivMod(k, size);
    var pages := TotalPages(cfg, rowCount);
    if p >= pages {
      MulMonotone(pages, p, size);
      assert false;
    }
  }

  /** Every row the filter and sort keep is shown on some page that the
      page count (taken over the raw rows) admits. */
  lemma PagesCoverRows(rows: seq<Row>, columns: seq<Column>, query: string,
                       sort: Option<SortState>, cfg: TableConfig, k: int)
    requires cfg.pagination && PageSizeOf(cfg) >= 1
    requires 0 <= k < |FilteredSorted(rows, columns, query, sort)|
    ensures var size := PageSizeOf(cfg);
      var shown := ProcessedRows(rows, columns, query, sort, cfg, k / size);
      && k / size < TotalPages(cfg, |rows|)
      && k % size < |shown|
      && shown[k % size] == FilteredSorted(rows, columns, query, sort)[k]
  {
    FilteredSortedFromInput(rows, columns, query, sort);
    PagesCover(FilteredSorted(rows, columns, query, sort), cfg, |rows|, k);
  }

  /** `toggleSort` on a sortable column: a new key starts ascending, an
      ascending sort turns descending and a descending one is cleared. */
  function NextSort(cur: Option<SortState>, key: string): (r: Option<SortState>)
    ensures r.Some? ==> r.value.key == key
    ensures cur.None? || cur.value.key != key ==> r == Some(SortState(key, Asc))
    ensures cur == Some(SortState(key, Asc)) ==> r == Some(SortState(key, Desc))
    ensures cur == Some(SortState(key, Desc)) ==> r.None?
  {
    if cur.None? || cur.value.key != key then Some(SortState(key, Asc))
    else if cur.value.dir == Asc then Some(SortState(key, Desc))
    else None
  }

  /** `getSortIcon`. */
  function SortIcon(cur: Option<SortState>, key: string): string {
    if cur.None? || cur.value.key != key then "sort_icon"
    else if cur.value.dir == Asc then "arrow_up"
    else "arrow_down"
  }

  /** `getSortAria`. */
  function SortAria(cur: Option<SortState>, key: string): string {
    if cur.None? || cur.value.key != key then "none"
    else if cur.value.dir == Asc then "ascending"
    else "descending"
  }

  /** `getSortAriaLabel`. */
  function SortAriaLabel(cur: Option<SortState>, key: string): string {
    if cur.Some? && cur.value.key == key then
      (if cur.value.dir == Asc then "Sorted ascending by " + key else "Sorted descending by " + key)
    else "Sort by " + key
  }

  /** Three clicks on the same header return to where they started, passing
      through the ARIA states none, ascending, descending. */
  lemma SortCycle(key: string)
    ensures var s1 := NextSort(None, key);
      var s2 := NextSort(s1, key);
      var s3 := NextSort(s2, key);
      && SortAria(None, key) == "none"
      && SortAria(s1, key) == "ascending"
      && SortAria(s2, key) == "descending"
      && s3 == None
  {
  }

  /** The icon, the ARIA state and the ARIA label of a header all describe
      the same sort: neutral exactly when the column is not the sort key,
      up arrow and "ascending" together, down arrow and "descending"
      together; the label always ends with the column key. */
  lemma SortIndicatorsAgree(cur: Option<SortState>, key: string)
    ensures SortIcon(cur, key) == "sort_icon" <==> SortAria(cur, key) == "none"
    ensures SortIcon(cur, key) == "arrow_up" <==> SortAria(cur, key) == "ascending"
    ensures SortIcon(cur, key) == "arrow_down" <==> SortAria(cur, key) == "descending"
    ensures SortAria(cur, key) == "none" <==> SortAriaLabel(cur, key) == "Sort by " + key
    ensures SortAria(cur, key) == "none" <==> cur.None? || cur.value.key != key
    ensures var text := SortAriaLabel(cur, key); |text| >= |key| && text[|text| - |key|..] == key
  {
    if cur.Some? && cur.value.key == key {
      var other := if cur.value.dir == Asc then "Sorted ascending by " else "Sorted descending by ";
      assert (other + key)[4] != ("Sort by " + key)[4];
    }
  }

  /** `getColumnWidth`: a falsy width (absent, 0 or "") gives no width, a
      number `n` gives "<n>px" and a string is passed through. */
  function ColumnWidth(w: Width): (r: Option<string>)
    ensures r.None? <==> (w.NoWidth? || (w.PxWidth? && w.px == 0) || (w.CssWidth? && w.css == ""))
    ensures r.Some? ==> r.value != ""
    ensures w.CssWidth? && r.Some? ==> r.value == w.css
    ensures w.PxWidth? && r.Some? ==>
      var s := r.value;
      && |s| >= 2 && s[|s| - 2..] == "px"
      && Text.ParseNumber(s[..|s| - 2]) == Some(w.px)
  {
    match w
    case NoWidth => None
    case PxWidth(n) =>
      if n == 0 then None
      else
        var digits := Text.IntToString(n);
        Text.IntToStringRoundTrip(n);
        assert (digits + "px")[..|digits|] == digits;
        Some(digits + "px")
    case CssWidth(css) => if css == "" then None else Some(css)
  }

  /** `{0, ..., n-1}`. */
  function Range(n: nat): (r: set<int>)
    ensures forall i :: i in r <==> 0 <= i < n
  {
    if n == 0 then {} else Range(n - 1) + {n - 1}
  }

  lemma {:induction false} RangeSize(n: nat)
    ensures |Range(n)| == n
  {
    if n > 0 {
      RangeSize(n - 1);
    }
  }

  /** A selection of indices below `n` has at most `n` members, and has
      exactly `n` only when it is all of them. */
  lemma {:induction false} SubsetOfRangeSize(sel: set<int>, n: nat)
    requires forall i :: i in sel ==> 0 <= i < n
    ensures |sel| <= n
    ensures |sel| == n ==> sel == Range(n)
  {
    if n == 0 {
      assert forall i :: i !in sel;
      assert sel == {};
    } else {
      var rest := sel - {n - 1};
      SubsetOfRangeSize(rest, n - 1);
      if n - 1 in sel {
        assert sel == rest + {n - 1};
        assert |sel| == |rest| + 1;
        if |sel| == n {
          assert rest == Range(n - 1);
        }
      } else {
        assert sel == rest;
      }
    }
  }

  /** `isAllSelected`. */
  predicate AllSelected(sel: set<int>, total: int) {
    total > 0 && |sel| == total
  }

  /** `isIndeterminate`. */
  predicate Indeterminate(sel: set<int>, total: int) {
    0 < |sel| < total
  }

  /** The selection `toggleAllRowsSelected()` leaves over `total` shown
      rows: empty when all were selected, every shown index otherwise. */
  function ToggledAll(sel: set<int>, total: nat): set<int> {
    if AllSelected(sel, total) then {} else Range(total)
  }

  /** Select-all twice from a partial selection ends with nothing selected,
      not with the selection it started from. */
  lemma ToggleAllTwiceClears(sel: set<int>, total: nat)
    requires total > 0 && !AllSelected(sel, total)
    ensures ToggledAll(sel, total) == Range(total)
    ensures ToggledAll(ToggledAll(sel, total), total) == {}
  {
    RangeSize(total);
  }

  /** Select-all twice from a full selection selects every shown row again. */
  lemma ToggleAllTwiceFromAll(sel: set<int>, total: nat)
    requires AllSelected(sel, total)
    ensures ToggledAll(sel, total) == {}
    ensures ToggledAll(ToggledAll(sel, total), total) == Range(total)
  {
  }

  /** When the selection holds only indices of shown rows, the header
      checkbox is in exactly one state: empty, indeterminate or all
      selected, and "all selected" means every shown index is selected. */
  lemma SelectionStates(sel: set<int>, total: nat)
    requires forall i :: i in sel ==> 0 <= i < total
    ensures AllSelected(sel, total) <==> total > 0 && sel == Range(total)
    ensures Indeterminate(sel, total) <==> sel != {} && !AllSelected(sel, total)
    ensures sel == {} ==> !AllSelected(sel, total) && !Indeterminate(sel, total)
  {
    SubsetOfRangeSize(sel, total);
    RangeSize(total);
  }

  /** The table component's own state. */
  class DataTable {
    var columns: seq<Column>
    var rows: seq<Row>
    var config: TableConfig
    var sortState: Option<SortState>
    var currentPage: int
    /** The root-provided search service, shared with every other table. */
    const search: TableSearch.SearchService
    var selected: set<int>

    /** A paginated table has a positive page size. */
    ghost predicate Valid()
      reads this`config
    {
      config.pagination ==> PageSizeOf(config) >= 1
    }

    constructor (columns: seq<Column>, rows: seq<Row>, config: TableConfig, search: TableSearch.SearchService)
      requires config.pagination ==> PageSizeOf(config) >= 1
      ensures Valid()
      ensures this.columns == columns && this.rows == rows && this.config == config
      ensures this.search == search
      ensures sortState == None && currentPage == 0 && selected == {}
    {
      this.columns := columns;
      this.rows := rows;
      this.config := config;
      sortState := None;
      currentPage := 0;
      this.search := search;
      selected := {};
    }

    /** `processedRows()`. */
    function Processed(): seq<Row>
      reads this`rows, this`columns, this`sortState, this`config, this`currentPage, search`query
      requires Valid()
    {
      ProcessedRows(rows, columns, search.query, sortState, config, currentPage)
    }

    /** `totalPages()`. */
    function Pages(): int
      reads this`rows, this`config
      requires Valid()
    {
      TotalPages(config, |rows|)
    }

    /** `toggleSort(key, sortable)`: returns the emitted sort change, if any. */
    method ToggleSort(key: string, sortable: bool) returns (emitted: Option<Option<SortState>>)
      requires Valid()
      modifies this`sortState
      ensures Valid()
      ensures !sortable ==> emitted == None && sortState == old(sortState)
      ensures sortable ==> sortState == NextSort(old(sortState), key) && emitted == Some(sortState)
    {
      if !sortable {
        return None;
      }
      var cur := sortState;
      var next: Option<SortState>;
      if cur.None? || cur.value.key != key {
        next := Some(SortState(key, Asc));
      } else if cur.value.dir == Asc {
        next := Some(SortState(key, Desc));
      } else {
        next := None;
      }
      sortState := next;
      emitted := Some(next);
    }

    /** `goToPage(idx)`. */
    method GoToPage(idx: int)
      requires Valid()
      modifies this`currentPage
      ensures Valid()
      ensures currentPage == ClampPage(idx, Pages())
      ensures 0 <= currentPage < Pages()
    {
      var pages := Pages();
      currentPage := Max(0, Min(idx, pages - 1));
    }

    /** `toggleRowSelect(i)`: flips the membership of `i` only. */
    method ToggleRowSelect(i: int)
      requires Valid()
      modifies this`selected
      ensures Valid()
      ensures selected == Toggled(old(selected), i)
      ensures i in selected <==> i !in old(selected)
      ensures forall j :: j != i ==> (j in selected <==> j in old(selected))
    {
      var next := selected;
      if i in next {
        next := next - {i};
      } else {
        next := next + {i};
      }
      selected := next;
    }

    /** `toggleAllRowsSelected()`: selects every shown index unless all are
        already selected, in which case it clears the selection; returns the
        emitted rows, in index order. */
    method ToggleAllRowsSelected() returns (emitted: seq<Row>)
      requires Valid()
      modifies this`selected
      ensures Valid()
      ensures AllSelected(old(selected), |Processed()|) ==> selected == {} && emitted == []
      ensures !AllSelected(old(selected), |Processed()|) ==>
        selected == Range(|Processed()|) && emitted == Processed()
      ensures !AllSelected(old(selected), |Processed()|) && |Processed()| > 0 ==>
        AllSelected(selected, |Processed()|)
      ensures selected == ToggledAll(old(selected), |Processed()|)
    {
      var totalRows := Processed();
      var next: set<int> := {};
      emitted := [];
      if !AllSelected(selected, |totalRows|) {
        next, emitted := SelectEvery(totalRows);
        RangeSize(|totalRows|);
      }
      selected := next;
    }

    /** `handleSearchInput(value)`: a dynamic table emits the text for the
        caller to search with; a static one filters locally. */
    method HandleSearchInput(value: string) returns (emitted: Option<string>)
      requires Valid()
      modifies search`query
      ensures Valid()
      ensures config.searchMode == DynamicSearch ==> emitted == Some(value) && search.query == old(search.query)
      ensures config.searchMode == StaticSearch ==> emitted == None && search.query == value
    {
      if config.searchMode == DynamicSearch {
        emitted := Some(value);
      } else {
        emitted := None;
        search.query := value;
      }
    }
  }

  /** The loop of `toggleAllRowsSelected()` that selects every shown index
      and collects the shown rows in index order. */
  method SelectEvery(shown: seq<Row>) returns (indices: set<int>, picked: seq<Row>)
    ensures indices == Range(|shown|) && picked == shown
  {
    indices := {};
    picked := [];
    for i := 0 to |shown|
      invariant indices == Range(i)
      invariant picked == shown[..i]
    {
      indices := indices + {i};
      picked := picked + [shown[i]];
    }
  }
}

/** The in-memory table of uploaded CSV rows (src/components/DataTable.tsx):
    its three pieces of state, the handlers that change them, and the views
    derived from them on each render. */
module DataTableComponent {
  import opened Js
  import Pagination

  /** A CSV row: header name to cell text; a header the row lacks is absent. */
  type Row = map<string, string>

  /** `ROWS_PER_PAGE_OPTIONS`, the sizes the rows-per-page select offers. */
  const RowsPerPageOptions: seq<int> := [25, 50, 100, 250]

  /** The initial `rowsPerPage`. */
  const InitialRowsPerPage := 100

  // ===========================================================================
  // filteredData

  /** `headers.some(header => row[header]?.toString().toLowerCase().includes(term))`
      for an already lowercased `term`: a header missing from the row gives
      `undefined` and does not match. */
  predicate RowMatches(row: Row, headers: seq<string>, term: string) {
    exists i | 0 <= i < |headers| :: headers[i] in row && Includes(ToLowerCase(row[headers[i]]), term)
  }

  /** `data.filter(...)`: the rows that match, in their order. */
  function FilterMatching(data: seq<Row>, headers: seq<string>, term: string): seq<Row> {
    if data == [] then []
    else
      FilterMatching(data[..|data| - 1], headers, term)
      + (if RowMatches(data[|data| - 1], headers, term) then [data[|data| - 1]] else [])
  }

  /** `filteredData`: a blank search term keeps every row; otherwise the
      rows that match the lowercased term, which is not trimmed. */
  function FilterRows(data: seq<Row>, headers: seq<string>, searchTerm: string): seq<Row> {
    if Trim(searchTerm) == "" then data
    else FilterMatching(data, headers, ToLowerCase(searchTerm))
  }

  /** The filter keeps exactly the matching rows, in order: its result is
      picked out of `data` by a strictly increasing list of positions, and
      those positions are exactly the positions of matching rows. */
  lemma {:induction false} FilterMatchingPositions(data: seq<Row>, headers: seq<string>, term: string)
    returns (idx: seq<int>)
    ensures |idx| == |FilterMatching(data, headers, term)|
    ensures forall k | 0 <= k < |idx| :: 0 <= idx[k] < |data| && FilterMatching(data, headers, term)[k] == data[idx[k]]
    ensures forall k, l | 0 <= k < l < |idx| :: idx[k] < idx[l]
    ensures forall i | 0 <= i < |data| :: i in idx <==> RowMatches(data[i], headers, term)
  {
    if data == [] {
      idx := [];
    } else {
      var init, last := data[..|data| - 1], data[|data| - 1];
      var rest := FilterMatchingPositions(init, headers, term);
      idx := if RowMatches(last, headers, term) then rest + [|init|] else rest;
      var r := FilterMatching(data, headers, term);
      assert r == FilterMatching(init, headers, term) + (if RowMatches(last, headers, term) then [last] else []);
      forall k | 0 <= k < |idx| ensures 0 <= idx[k] < |data| && r[k] == data[idx[k]] {
        if k < |rest| {
          assert idx[k] == rest[k] && data[rest[k]] == init[rest[k]];
        }
      }
      forall i | 0 <= i < |data| ensures i in idx <==> RowMatches(data[i], headers, term) {
        if i < |init| {
          assert data[i] == init[i];
          assert i in idx <==> i in rest;
        }
      }
    }
  }

  /** A row of the filtered view is a matching row of `data`, and with a
      blank term the view is `data` itself. */
  lemma FilterRowsMembers(data: seq<Row>, headers: seq<string>, searchTerm: string, row: Row)
    ensures Trim(searchTerm) == "" ==> FilterRows(data, headers, searchTerm) == data
    ensures Trim(searchTerm) != "" ==>
      (row in FilterRows(data, headers, searchTerm) <==> row in data && RowMatches(row, headers, ToLowerCase(searchTerm)))
  {
    if Trim(searchTerm) != "" {
      var term := ToLowerCase(searchTerm);
      var idx := FilterMatchingPositions(data, headers, term);
      var r := FilterMatching(data, headers, term);
      if row in r {
        var k :| 0 <= k < |r| && r[k] == row;
        assert data[idx[k]] == row;
      }
      if row in data && RowMatches(row, headers, term) {
        var i :| 0 <= i < |data| && data[i] == row;
        var k :| 0 <= k < |idx| && idx[k] == i;
        assert r[k] == row;
      }
    }
  }

  /** Search ignores the case of the term and of the cells. */
  lemma FilterIgnoresTermCase(data: seq<Row>, headers: seq<string>, a: string, b: string)
    requires ToLowerCase(a) == ToLowerCase(b)
    ensures FilterRows(data, headers, a) == FilterRows(data, headers, b)
  {
    TrimOfLower(a);
    TrimOfLower(b);
  }

  /** Filtering never adds rows. */
  lemma {:induction false} FilterShrinks(data: seq<Row>, headers: seq<string>, term: string)
    ensures |FilterMatching(data, headers, term)| <= |data|
  {
    if data != [] {
      FilterShrinks(data[..|data| - 1], headers, term);
    }
  }

  // ===========================================================================
  // totalPages, currentData, startRow and endRow

  /** `Math.ceil(filteredData.length / rowsPerPage)`. */
  function PageCount(rows: nat, rowsPerPage: int): int
    requires rowsPerPage > 0
  {
    Pagination.CeilDiv(rows, rowsPerPage)
  }

  /** `filteredData.slice(start, start + rowsPerPage)` with
      `start = (currentPage - 1) * rowsPerPage`; a slice past the end is
      cut short or empty. */
  function PageSlice(filtered: seq<Row>, page: int, rowsPerPage: int): (r: seq<Row>)
    requires page >= 1 && rowsPerPage > 0
    ensures (page - 1) * rowsPerPage >= 0
    ensures |r| <= rowsPerPage
    ensures r == [] || (page - 1) * rowsPerPage + |r| <= |filtered|
    ensures forall k | 0 <= k < |r| :: r[k] == filtered[(page - 1) * rowsPerPage + k]
    ensures (page - 1) * rowsPerPage + rowsPerPage <= |filtered| ==> |r| == rowsPerPage
    ensures (page - 1) * rowsPerPage < |filtered| <= (page - 1) * rowsPerPage + rowsPerPage ==>
      |r| == |filtered| - (page - 1) * rowsPerPage
    ensures |filtered| <= (page - 1) * rowsPerPage ==> r == []
  {
    Pagination.MulMonotone(0, page - 1, rowsPerPage);
    var start := (page - 1) * rowsPerPage;
    var end := start + rowsPerPage;
    if start >= |filtered| then []
    else if end >= |filtered| then filtered[start..]
    else filtered[start..end]
  }

  /** `startRow = (currentPage - 1) * rowsPerPage + 1`. */
  function StartRowOf(page: int, rowsPerPage: int): int {
    (page - 1) * rowsPerPage + 1
  }

  /** `endRow = Math.min(currentPage * rowsPerPage, filteredData.length)`. */
  function EndRowOf(page: int, rowsPerPage: int, rows: nat): int {
    if page * rowsPerPage < rows then page * rowsPerPage else rows
  }

  /** On a page that exists, the "showing rows start to end" range counts
      exactly the rows the page shows, and the rows come from the right
      place: row `startRow + k` of the filtered view, numbered from 1, is
      the `k`-th shown. */
  lemma ShownRangeMatchesSlice(filtered: seq<Row>, page: int, rowsPerPage: int)
    requires rowsPerPage > 0
    requires 1 <= page <= PageCount(|filtered|, rowsPerPage)
    ensures 1 <= StartRowOf(page, rowsPerPage) <= EndRowOf(page, rowsPerPage, |filtered|) <= |filtered|
    ensures |PageSlice(filtered, page, rowsPerPage)|
      == EndRowOf(page, rowsPerPage, |filtered|) - StartRowOf(page, rowsPerPage) + 1
    ensures forall k | 0 <= k < |PageSlice(filtered, page, rowsPerPage)| ::
      PageSlice(filtered, page, rowsPerPage)[k] == filtered[StartRowOf(page, rowsPerPage) - 1 + k]
  {
    var q := PageCount(|filtered|, rowsPerPage);
    Pagination.MulMonotone(page, q, rowsPerPage);
    Pagination.MulMonotone(0, page - 1, rowsPerPage);
    Pagination.MulMonotone(page - 1, q - 1, rowsPerPage);
    assert page * rowsPerPage == (page - 1) * rowsPerPage + rowsPerPage;
  }

  /** A non-empty filtered view has at least one page, and every page from
      1 to the page count shows at least one row. */
  lemma PagesAreNonEmpty(filtered: seq<Row>, page: int, rowsPerPage: int)
    requires rowsPerPage > 0
    ensures |filtered| > 0 ==> PageCount(|filtered|, rowsPerPage) >= 1
    ensures 1 <= page <= PageCount(|filtered|, rowsPerPage) ==> PageSlice(filtered, page, rowsPerPage) != []
  {
    Pagination.TotalPagesIsLeast(|filtered|, rowsPerPage);
    if 1 <= page <= PageCount(|filtered|, rowsPerPage) {
      ShownRangeMatchesSlice(filtered, page, rowsPerPage);
    }
  }

  // ===========================================================================
  // goToPage

  /** `Math.max(1, Math.min(page, totalPages))`. */
  function ClampPage(page: int, totalPages: int): int {
    var upper := if page < totalPages then page else totalPages;
    if upper > 1 then upper else 1
  }

  /** The target page is at least 1, at most the page count when there are
      pages, a page already in range is kept, and clamping twice is
      clamping once. */
  lemma ClampPageBounds(page: int, totalPages: int)
    ensures ClampPage(page, totalPages) >= 1
    ensures totalPages >= 1 ==> ClampPage(page, totalPages) <= totalPages
    ensures 1 <= page <= totalPages ==> ClampPage(page, totalPages) == page
    ensures ClampPage(ClampPage(page, totalPages), totalPages) == ClampPage(page, totalPages)
  {
  }

  // ===========================================================================
  // The component

  /** One mounted `DataTable`, with its props `data` and `headers` and its
      state `currentPage`, `rowsPerPage` and `searchTerm`. */
  class DataTable {
    const data: seq<Row>
    const headers: seq<string>
    var currentPage: int
    var rowsPerPage: int
    var searchTerm: string

    /** The state every handler keeps: the page is at least 1, and the page
        size is one the select offers. */
    predicate Valid()
      reads this
    {
      currentPage >= 1 && rowsPerPage in RowsPerPageOptions
    }

    /** The first render: page 1, 100 rows per page, no search term. */
    constructor (data: seq<Row>, headers: seq<string>)
      ensures Valid()
      ensures this.data == data && this.headers == headers
      ensures currentPage == 1 && rowsPerPage == InitialRowsPerPage && searchTerm == ""
    {
      this.data := data;
      this.headers := headers;
      currentPage := 1;
      rowsPerPage := InitialRowsPerPage;
      searchTerm := "";
    }

    function FilteredData(): seq<Row>
      reads this
    {
      FilterRows(data, headers, searchTerm)
    }

    function TotalPages(): int
      reads this
      requires Valid()
    {
      PageCount(|FilteredData()|, rowsPerPage)
    }

    function CurrentData(): seq<Row>
      reads this
      requires Valid()
    {
      PageSlice(FilteredData(), currentPage, rowsPerPage)
    }

    function StartRow(): int
      reads this
    {
      StartRowOf(currentPage, rowsPerPage)
    }

    function EndRow(): int
      reads this
    {
      EndRowOf(currentPage, rowsPerPage, |FilteredData()|)
    }

    /** `handleSearchChange`: a new term, back to page 1, nothing else. */
    method HandleSearchChange(value: string)
      requires Valid()
      modifies this
      ensures Valid()
      ensures searchTerm == value && currentPage == 1 && rowsPerPage == old(rowsPerPage)
    {
      searchTerm := value;
      currentPage := 1;
    }

    /** `handleRowsPerPageChange`: a page size from the select, back to
        page 1, nothing else. */
    method HandleRowsPerPageChange(value: int)
      requires Valid()
      requires value in RowsPerPageOptions
      modifies this
      ensures Valid()
      ensures rowsPerPage == value && currentPage == 1 && searchTerm == old(searchTerm)
    {
      rowsPerPage := value;
      currentPage := 1;
    }

    /** `goToPage`: the requested page, clamped to the pages there are. */
    method GoToPage(page: int)
      requires Valid()
      modifies this
      ensures Valid()
      ensures currentPage == ClampPage(page, old(TotalPages()))
      ensures rowsPerPage == old(rowsPerPage) && searchTerm == old(searchTerm)
    {
      ClampPageBounds(page, TotalPages());
      currentPage := ClampPage(page, TotalPages());
    }
  }

  /** Every page size the select offers is positive, and the initial size
      is one of them. */
  lemma RowsPerPageChoices()
    ensures forall v | v in RowsPerPageOptions :: v > 0
    ensures InitialRowsPerPage in RowsPerPageOptions
    ensures |RowsPerPageOptions| == 4
  {
  }

  /** After `goToPage`, a table with rows shows a page that exists and has
      rows on it. */
  method GoToPageShowsRows(t: DataTable, page: int)
    requires t.Valid() && t.FilteredData() != []
    modifies t
    ensures t.Valid()
    ensures 1 <= t.currentPage <= t.TotalPages()
    ensures t.CurrentData() != []
  {
    t.GoToPage(page);
    PagesAreNonEmpty(t.FilteredData(), t.currentPage, t.rowsPerPage);
    ClampPageBounds(page, t.TotalPages());
    PagesAreNonEmpty(t.FilteredData(), t.currentPage, t.rowsPerPage);
  }
}

/** `POST /api/search` of the paper server (server/server.js): the request
    body is cleaned, turned into a WHERE clause with its parameters, and the
    count and page queries are prepared with the page window appended. The
    database calls themselves are not modelled; what is modelled is the SQL
    text and the argument lists they would receive. */
module SearchEndpoint {
  import opened Js
  import opened SearchQuery
  import Pagination

  /** The text before the WHERE clause of the counting query. The SQL
      literals here and elsewhere are written as concatenations of pieces;
      each concatenation spells the source's literal. */
  const CountPrefix: string := "SELECT COUNT(*)" + " as count" + " FROM papers "

  /** The text before the WHERE clause of the page query. */
  const DataPrefix: string := "SELECT * FROM papers "

  const OrderBy: string := " ORDER BY record_id"

  /** The text after the WHERE clause of the page query. */
  const PageSuffix: string := OrderBy + LimitWord + Mark + OffsetWord + Mark

  const LimitWord: string := " LIMIT "
  const OffsetWord: string := " OFFSET "

  /** A placeholder for a bound parameter. */
  const Mark: string := "?"

  /** `SELECT COUNT(*) as count FROM papers ${where}`: its placeholders are
      those of the WHERE clause. */
  function CountSql(where: string): (sql: string)
    ensures Placeholders(sql) == Placeholders(where)
  {
    CountPrefixPlain();
    PlaceholdersAppend(CountPrefix, where);
    CountPrefix + where
  }

  /** `SELECT * FROM papers ${where} ORDER BY record_id LIMIT ? OFFSET ?`,
      written on one line: two placeholders more than the WHERE clause, for
      LIMIT and OFFSET. */
  function DataSql(where: string): (sql: string)
    ensures Placeholders(sql) == Placeholders(where) + 2
  {
    SuffixPlaceholders();
    DataPrefixPlain();
    PlaceholdersAppend3(DataPrefix, where, PageSuffix);
    DataPrefix + where + PageSuffix
  }

  /** A parsed page number or limit as the value bound to a `?`: NaN when
      `parseInt` gave NaN. */
  function AsValue(n: Option<int>): Value {
    if n.Some? then Number(n.value) else NaN
  }

  lemma CountPrefixPlain()
    ensures Placeholders(CountPrefix) == 0
  {
    PlaceholdersOfPlain(CountPrefix);
  }

  lemma DataPrefixPlain()
    ensures Placeholders(DataPrefix) == 0
  {
    PlaceholdersOfPlain(DataPrefix);
  }

  lemma OrderByPlain()
    ensures Placeholders(OrderBy) == 0
  {
    PlaceholdersOfPlain(OrderBy);
  }

  lemma WordsPlain()
    ensures Placeholders(LimitWord) == 0 && Placeholders(OffsetWord) == 0
  {
    PlaceholdersOfPlain(LimitWord);
    PlaceholdersOfPlain(OffsetWord);
  }

  lemma MarkPlaceholder()
    ensures Placeholders(Mark) == 1
  {
    assert Mark[1..] == [];
  }

  /** The text after the WHERE clause holds the two placeholders of LIMIT
      and OFFSET. */
  lemma SuffixPlaceholders()
    ensures Placeholders(PageSuffix) == 2
  {
    OrderByPlain();
    WordsPlain();
    MarkPlaceholder();
    PlaceholdersAppend3(OrderBy, LimitWord, Mark);
    PlaceholdersAppend3(OrderBy + LimitWord + Mark, OffsetWord, Mark);
  }

  /** The queries of one search request and the arguments they are run
      with. */
  datatype Prepared = Prepared(
    countSql: string,
    countArgs: seq<Value>,
    dataSql: string,
    dataArgs: seq<Value>,
    window: Pagination.SearchWindow)

  /** The search handler up to the database calls: clean the body, build
      the WHERE clause, compute the window, and bind the parameters of the
      WHERE clause to both queries and the window to the page query. */
  method PrepareSearch(body: Filters, parsedPage: Option<int>, parsedLimit: Option<int>) returns (q: Prepared)
    ensures q.window == Pagination.SearchWindowOf(parsedPage, parsedLimit)
    ensures q.countSql == CountSql(WhereText(SqlOf(Clauses(CleanedFilters(body)))))
    ensures q.dataSql == DataSql(WhereText(SqlOf(Clauses(CleanedFilters(body)))))
    ensures q.countArgs == ParamsOf(Clauses(CleanedFilters(body)))
    ensures q.dataArgs == q.countArgs + [AsValue(q.window.limit), AsValue(q.window.offset)]
    ensures Placeholders(q.countSql) == |q.countArgs| && Placeholders(q.dataSql) == |q.dataArgs|
    ensures WellTyped(body) ==> q.countArgs == ParamsOf(Clauses(body))
  {
    var window := Pagination.SearchWindowOf(parsedPage, parsedLimit);
    var cleanFilters := CleanFilters(body);
    var where, params := BuildWhereClause(cleanFilters);
    if WellTyped(body) {
      CleanedClauses(body, ColumnOrder);
    }
    q := Prepared(CountSql(where), params, DataSql(where),
                  params + [AsValue(window.limit), AsValue(window.offset)], window);
  }

  /** The JSON body of a successful search: the count the counting query
      returned, the parsed page and limit, and the page count. */
  datatype SearchResponse = SearchResponse(count: nat, page: Option<int>, limit: Option<int>, totalPages: Pagination.Number)

  function ResponseOf(total: nat, window: Pagination.SearchWindow): (r: SearchResponse)
    ensures r.count == total && r.page == window.page && r.limit == window.limit
    ensures r.totalPages == Pagination.TotalPages(total, window.limit)
    ensures window.limit.Some? && window.limit.value < 0 ==>
      r.totalPages.Finite? && r.totalPages.n * window.limit.value <= total < (r.totalPages.n - 1) * window.limit.value
    ensures window.limit.Some? && window.limit.value > 0 ==>
      r.totalPages.Finite? && total <= r.totalPages.n * window.limit.value
      && (r.totalPages.n == 0 || (r.totalPages.n - 1) * window.limit.value < total)
    ensures window.limit == Some(0) && total > 0 ==> r.totalPages == Pagination.Infinity
    ensures window.limit.None? || (window.limit == Some(0) && total == 0) ==> r.totalPages == Pagination.NotANumber
  {
    var r := SearchResponse(total, window.page, window.limit, Pagination.TotalPages(total, window.limit));
    if window.limit.Some? && window.limit.value > 0 then
      Pagination.TotalPagesIsLeast(total, window.limit.value);
      r
    else
      r
  }
}

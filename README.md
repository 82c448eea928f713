# Retraction-database search: a verified model

The system is a small web application over a SQLite table of retracted
papers. The model covers three parts of it.

- **The Express server** (`server/server.js`):
  - `GET /api/papers` lists the table page by page;
  - `POST /api/search` cleans the filter fields of the request body, turns them into a parameterised WHERE clause with `buildWhereClause` and returns one page of matches;
  - `GET /api/options` serves the dropdown values behind a five-minute cache.
- **The React table** of an uploaded CSV file (`src/components/DataTable.tsx`). It has a search box, a rows-per-page selector and page navigation, and it filters and slices in memory.
- **The offline lookup** `checkPaperExistence` (`src/lib/mockData.ts`). It finds a paper in a constant list by title and author, ignoring case and surrounding whitespace.

The modules are:

- `Js` (`js.dfy`): the JavaScript built-ins the code relies on, on an ASCII character set:
  - truthiness;
  - `toLowerCase`;
  - `trim`;
  - `replace(/\s+/g, '')`;
  - `includes`;
  - `split` and `join`.
- `SearchQuery` (`search_query.dfy`):
  - `normalizeForSearch` and `isSaveethaSearch` with its keyword list;
  - the filter cleaning;
  - `buildWhereClause`. Each SQL condition is a small syntax tree (column, `LOWER`, `REPLACE`, `?`, fixed LIKE patterns) rendered to text. `BuildWhereClause` is a method that appends to `conditions` and `params` block by block, and its output is tied to a functional description (`Clauses`, `SqlOf`, `ParamsOf`) that the lemmas reason about.
- `Pagination` (`pagination.dfy`): the page, limit, offset and page-count arithmetic of both listing endpoints.
- `SearchEndpoint` (`search_endpoint.dfy`): `POST /api/search` up to the database calls. It produces the two queries and their argument lists.
- `OptionsCache` (`options_cache.dfy`):
  - the country list: split on `;`, trimmed, empties dropped, deduplicated, sorted in code-unit order;
  - the cache, as a class whose fields are `optionsCache` and `optionsCacheTime`, with the current time passed in.
- `DataTableComponent` (`data_table.dfy`):
  - the component as a class with the state `currentPage`, `rowsPerPage` and `searchTerm` and the three handlers;
  - the derived views as functions.
- `MockData` (`mock_data.dfy`): `mockPapers` and `checkPaperExistence`.

## Model

| member | source | states |
|---|---|---|
| SearchQuery.NormalizeForSearch | server/server.js:85-88 | The result is the lowercased input with every whitespace character removed. The `''` case and the trim make no difference. |
| SearchQuery.NormalizedIsClean | server/server.js:85-88 | The empty string normalises to `''`. Every result is lowercase and contains no whitespace. |
| SearchQuery.NormalizeIdempotent | server/server.js:85-88 | Normalising a normalised text changes nothing. |
| SearchQuery.NormalizeIgnoresCaseAndSpacing | server/server.js:85-88 | Texts that agree once lowercased and stripped of whitespace normalise alike. |
| SearchQuery.MatchesKeyword | server/server.js:77-81 | Definition: both sides are lowercased and stripped of whitespace, and either contains the other. Its properties are `SearchQuery.KeywordIsSaveethaSearch`, `SearchQuery.BlankIsSaveethaSearch` and `SearchQuery.MasseyIsSaveethaSearch`. |
| SearchQuery.IsSaveethaSearch | server/server.js:76-82 | Definition: some keyword of `SAVEETHA_KEYWORDS` matches. Its properties are the three lemmas named in the row above. |
| SearchQuery.KeywordIsSaveethaSearch | server/server.js:61-82 | Every keyword of `SAVEETHA_KEYWORDS`, in any casing and spacing, is recognised as a Saveetha search. |
| SearchQuery.BlankIsSaveethaSearch | server/server.js:76-82 | A blank term is contained in every keyword, so the two-way test accepts it. |
| SearchQuery.MasseyIsSaveethaSearch | server/server.js:61-193 | "Massey" contains the keyword "sse", so it is a Saveetha search. An institution search for it gets the alias clause, which binds no value. |
| SearchQuery.CleanValue | server/server.js:412-429 | A date field is copied untouched. A text field that is a truthy string becomes that string trimmed. Any other text field becomes `undefined`. |
| SearchQuery.CleanedTextField | server/server.js:412-436 | A text field survives cleaning exactly when it was a string that is not blank, and it survives trimmed. |
| SearchQuery.CleanedDateField | server/server.js:412-436 | A date field survives unless it was absent or `''`, and it survives untouched. |
| SearchQuery.CleanIdempotent | server/server.js:412-436 | Cleaning an already cleaned object changes nothing. |
| SearchQuery.CleanedFilters | server/server.js:432-436 | No surviving value is `undefined` or `''`. |
| SearchQuery.DeleteDropped | server/server.js:432-436 | After the `forEach`, a key remains exactly when it was present and either holds a kept value or was not visited. Remaining values are unchanged. |
| SearchQuery.CleanFilters | server/server.js:412-436 | The cleaned object equals `CleanedFilters(body)`. Every truthy text field in it is a string. |
| SearchQuery.ColumnName | server/server.js:100-246 | No column name contains a `?`. |
| SearchQuery.TemplateShape | server/server.js:97-247 | Each condition template binds exactly its kind's number of values: text, exact, id and two-sided date bind 2, country binds 3, one-sided date binds 1, the alias clause binds 0. Its fixed patterns contain no `?`. |
| SearchQuery.AliasTemplateShape | server/server.js:150-193 | The Saveetha/SIMATS condition binds no value, and its eight fixed patterns contain no `?`. |
| SearchQuery.ConditionSql | server/server.js:97-247 | The rendered condition has as many `?` as its kind binds values. |
| SearchQuery.RenderConditionPlaceholders | server/server.js:100-246 | Rendering a condition writes one `?` per bound parameter of the tree. |
| SearchQuery.TextClause | server/server.js:96-247 | An author, title or DOI clause is a text match on its column and pushes 2 values. |
| SearchQuery.ExactClause | server/server.js:112-147 | An article-type, journal or publisher clause is an equality test on its column and pushes 2 values. |
| SearchQuery.CountryClause | server/server.js:120-131 | The country clause is on the country column and pushes 3 values. |
| SearchQuery.InstitutionClause | server/server.js:149-193 | The institution clause takes its alias form exactly when the lowercased, trimmed text is a Saveetha search. The alias form pushes 0 values, and the text-match form pushes 2. |
| SearchQuery.DateClause | server/server.js:195-233 | A date clause pushes the bounds that are set, `from` before `to`: 2 values for a two-sided range, 1 for a one-sided range. Its kind is the two-sided test when both bounds are set, the lower-bound test when only `from` is, and the upper-bound test when only `to` is. |
| SearchQuery.DateConditionText | server/server.js:195-233 | The lower-bound condition renders as `column >= ?` and the upper-bound one as `column <= ?`. The two-sided one is `(column >= ? AND column <= ?)`, lower bound first. |
| SearchQuery.IdClause | server/server.js:208-240 | A PubMed-ID clause is an id match on its column and pushes 2 values. |
| SearchQuery.Emit | server/server.js:96-247 | A column gets a clause exactly when its guard holds. That clause names the column and pushes its kind's number of values. |
| SearchQuery.BuildWhereClause | server/server.js:92-253 | `where` and `params` are the rendering of `Clauses(filters)`. The `?` count of `where` equals `params.length`. `where` is `''` exactly when no clause is written. |
| SearchQuery.WherePlaceholders | server/server.js:249-252 | `WHERE` plus the conditions joined by ` AND ` has one `?` per value. It is `''` exactly when there are no conditions. |
| SearchQuery.ClausesFollowRequests | server/server.js:96-247 | Clauses come in the fixed column order, no column gets two clauses, and a column gets a clause exactly when it is requested. |
| SearchQuery.NothingRequested | server/server.js:92-252 | There are no clauses exactly when no filter is active. Then `where` is `''` and `params` is empty. |
| SearchQuery.InstitutionPrecedence | server/server.js:149-193 | While `institution` is set, the clause is built from `institution` and `affiliation` has no effect. Otherwise the clause is built from `affiliation`. |
| SearchQuery.AliasIgnoresSpelling | server/server.js:150-193 | Every alias search gives the same clause, and it binds no value. |
| SearchQuery.ParamsInBlocks | server/server.js:96-247 | The values of each clause form one contiguous block of `params`, in clause order. |
| SearchQuery.SqlIgnoresValues | server/server.js:96-247 | The SQL text depends only on the columns and kinds of the clauses, never on the user's values. |
| SearchQuery.ClauseOfTrimmed | server/server.js:97-247 | Trimming a text before the builders see it changes no clause. |
| SearchQuery.EmitOfCleaned | server/server.js:412-439 | Column by column, the cleaned filters give the clause the raw body would give. |
| SearchQuery.CleanedClauses | server/server.js:412-439 | For any body whose text fields are strings, `buildWhereClause` gives the same clauses with or without the cleaning. |
| Pagination.OrDefault | server/server.js:284-285 | The fallback of `parseInt(x)` to the default `d` keeps every non-zero parse and gives `d` for NaN or 0. So it is 0 only when the default is. |
| Pagination.Clamp | server/server.js:284-288 | A limit above 500 becomes 500, and a limit of at most 500 is left alone. So the capped limit is at most 500 and at most the requested limit. |
| Pagination.PapersWindow | server/server.js:284-288 | Page and limit fall back to 1 and 100 when parsing gives NaN or 0. The limit is nonzero and at most 500. The offset is `(page-1)*limit`. |
| Pagination.PapersDefaults | server/server.js:284-288 | A request without usable values reads page 1 of 100 records from offset 0. |
| Pagination.PapersCapExample | server/server.js:285-288 | Page 3 with limit 10000 gives limit 500 and offset 1000. |
| Pagination.SearchWindowOf | server/server.js:399-409 | The search endpoint keeps NaN: the offset is defined exactly when page and limit are, and equals `(page-1)*limit`. The limit is capped at 500. |
| Pagination.CeilDiv | server/server.js:302 | The result is the ceiling of `a/b` for a divisor of either sign. |
| Pagination.TotalPages | server/server.js:302 | `Math.ceil(total / limit)` is finite exactly when the limit is a non-zero number. It is Infinity exactly for limit 0 over a non-empty result, and otherwise NaN. With a positive limit it is the least page count that covers every record. With a negative limit it is the ceiling of the negative quotient. |
| Pagination.TotalPagesIsLeast | server/server.js:302 | With a positive limit, `totalPages` is the least page count whose pages hold every record. It is 0 exactly when there are no records. |
| Pagination.PapersPagesFinite | server/server.js:284-302 | `GET /api/papers` always reports a finite page count. |
| Pagination.NegativeLimitPages | server/server.js:283-409 | A limit of -5 survives the fallback to 100 and the cap of 500, on both endpoints. 12 records then give -2 pages. |
| Pagination.SearchPagesDegenerate | server/server.js:405-469 | A search with limit 0 reports Infinity pages over a non-empty result, and NaN pages with a NaN limit. |
| Pagination.PagesPartitionRecords | server/server.js:284-302 | Every record index lies in exactly one page window between 1 and `totalPages`. |
| SearchEndpoint.CountSql | server/server.js:449 | The count query has exactly the WHERE clause's `?` count. |
| SearchEndpoint.DataSql | server/server.js:450-455 | The page query has two `?` more than the WHERE clause, for LIMIT and OFFSET. |
| SearchEndpoint.PrepareSearch | server/server.js:382-461 | The count query is bound to `params`. The page query is bound to `params` then limit and offset. Each query has exactly as many `?` as arguments. For a string-typed body, `params` equals what the uncleaned body would give. |
| SearchEndpoint.ResponseOf | server/server.js:465-470 | The response echoes count, page and limit. With a positive limit, `totalPages` is the least page count that covers every record, as `Math.ceil` gives. Limit 0 gives Infinity over a non-empty result. A NaN limit, or limit 0 with no records, gives NaN. A negative limit gives the ceiling of the negative quotient. In every case `totalPages` is `TotalPages(total, limit)`. |
| OptionsCache.LessTransitive | server/server.js:359 | The default sort order is transitive. |
| OptionsCache.LessTotal | server/server.js:359 | The default sort order is total on distinct strings. |
| OptionsCache.Sort | server/server.js:359 | `sort()` returns a permutation of its input. |
| OptionsCache.SortSorted | server/server.js:359 | A list without repeats sorts into strictly increasing order, with the same elements. |
| OptionsCache.Dedupe | server/server.js:359 | `[...new Set(xs)]` has no repeats and the same elements as `xs`. |
| OptionsCache.CellCountryShape | server/server.js:355-358 | Each country taken from a cell is non-empty, trimmed, free of `;`, and is the trim of one of the cell's `;`-parts. |
| OptionsCache.CountryList | server/server.js:355-359 | Definition: all countries of all cells, deduplicated and sorted. Its properties are `OptionsCache.CountryListSpec` and `OptionsCache.CountryListDeterminedBySet`. |
| OptionsCache.BuildOptions | server/server.js:322-371 | Definition: the four option lists, where the country list is `CountryList` of the country cells. It is what `OptionsCache.OptionsCache.GetOptions` caches. |
| OptionsCache.OptionsCache.IsFresh | server/server.js:317 | Definition: a cached value exists and is less than five minutes old. `OptionsCache.OptionsCache.GetOptions` and `OptionsCache.TwoRequests` state its effect. |
| OptionsCache.CountryListSpec | server/server.js:355-359 | The country list is strictly sorted and holds exactly the countries of all cells. Each entry is non-empty, trimmed and free of `;`. |
| OptionsCache.CountryListDeterminedBySet | server/server.js:355-359 | The list depends only on which countries occur, not on the order or repetition of rows. |
| OptionsCache.OptionsCache.constructor | server/server.js:27-28 | The cache starts empty, with time 0. |
| OptionsCache.OptionsCache.GetOptions | server/server.js:314-372 | A cache younger than five minutes is returned and kept unchanged. Otherwise the options are rebuilt from the query results, cached, and stamped with `now`. |
| OptionsCache.TwoRequests | server/server.js:312-372 | A second request within five minutes of a refresh gets the first answer, whatever the tables hold by then. |
| DataTableComponent.FilterRows | src/components/DataTable.tsx:34-44 | Definition: `filteredData`. Its properties are `DataTableComponent.FilterRowsMembers`, `DataTableComponent.FilterMatchingPositions`, `DataTableComponent.FilterIgnoresTermCase` and `DataTableComponent.FilterShrinks`. |
| DataTableComponent.FilterMatchingPositions | src/components/DataTable.tsx:38-43 | The filtered rows are picked from `data` by strictly increasing positions, and those are exactly the positions of the matching rows. |
| DataTableComponent.FilterRowsMembers | src/components/DataTable.tsx:35-44 | A blank term leaves `data` as it is. Otherwise a row is in the view exactly when it is in `data` and some header's cell, lowercased, contains the lowercased, untrimmed term. |
| DataTableComponent.FilterIgnoresTermCase | src/components/DataTable.tsx:34-44 | Terms that differ only in case filter alike, blank terms included. |
| DataTableComponent.FilterShrinks | src/components/DataTable.tsx:39-43 | Filtering never adds rows. |
| DataTableComponent.PageCount | src/components/DataTable.tsx:46 | Definition: `totalPages`, the ceiling division of the row count by the page size. `Pagination.CeilDiv` states that it is the ceiling. |
| DataTableComponent.PageSlice | src/components/DataTable.tsx:49-53 | `currentData` has at most `rowsPerPage` rows, and they are `filtered[start + k]`. It is full before the last page, cut short on the last page, and empty past the end. |
| DataTableComponent.StartRowOf | src/components/DataTable.tsx:70 | Definition: `startRow`. `DataTableComponent.ShownRangeMatchesSlice` states what it means. |
| DataTableComponent.EndRowOf | src/components/DataTable.tsx:71 | Definition: `endRow`. `DataTableComponent.ShownRangeMatchesSlice` states what it means. |
| DataTableComponent.ShownRangeMatchesSlice | src/components/DataTable.tsx:46-71 | On an existing page, `startRow` is at least 1, `endRow` is at least `startRow`, and `endRow` is at most the number of filtered rows. `endRow - startRow + 1` is the number of rows shown, and row `startRow + k` is the k-th shown. |
| DataTableComponent.PagesAreNonEmpty | src/components/DataTable.tsx:46-53 | A non-empty view has at least one page, and every page between 1 and `totalPages` shows rows. |
| DataTableComponent.ClampPage | src/components/DataTable.tsx:67 | Definition: the target of `goToPage`. `DataTableComponent.ClampPageBounds` states its properties. |
| DataTableComponent.ClampPageBounds | src/components/DataTable.tsx:66-68 | The `goToPage` target is at least 1, at most `totalPages` when there are pages, and unchanged when already in range. Clamping is idempotent. |
| DataTableComponent.DataTable.constructor | src/components/DataTable.tsx:30-32 | The table starts on page 1 with 100 rows per page and no search term. |
| DataTableComponent.DataTable.HandleSearchChange | src/components/DataTable.tsx:56-59 | Sets the term, goes back to page 1, and keeps the page size. |
| DataTableComponent.DataTable.HandleRowsPerPageChange | src/components/DataTable.tsx:61-64 | Sets the page size chosen in the select, goes back to page 1, and keeps the term. |
| DataTableComponent.DataTable.GoToPage | src/components/DataTable.tsx:66-68 | Sets the page to `max(1, min(page, totalPages))` and changes nothing else. |
| DataTableComponent.RowsPerPageChoices | src/components/DataTable.tsx:27-31 | The four selectable sizes are positive, and the initial 100 is one of them. |
| DataTableComponent.GoToPageShowsRows | src/components/DataTable.tsx:46-68 | After `goToPage` on a non-empty view, the page exists and shows rows. |
| MockData.FindFirst | src/lib/mockData.ts:33-37 | `find` returns the first matching position, or no position when nothing matches. |
| MockData.CheckPaperExistenceIn | src/lib/mockData.ts:30-43 | `found` holds exactly when some paper's lowercased title and author equal the lowercased, trimmed inputs. A found paper is the first such paper. |
| MockData.LookupIgnoresCaseAndEnds | src/lib/mockData.ts:30-31 | Inputs that agree once lowercased and trimmed get the same answer. |
| MockData.CheckPaperExistence | src/lib/mockData.ts:23-44 | A found paper is one of `mockPapers`. Its other properties are stated for any list by `MockData.CheckPaperExistenceIn`. |
| MockData.AiEthicsIsFound | src/lib/mockData.ts:7-43 | ("AI Ethics", "Jane Doe") finds the paper dated 2023-01-15. |
| MockData.MismatchedAuthorIsNotFound | src/lib/mockData.ts:7-43 | ("AI Ethics", "John Smith") is not found: title and author must match the same paper. |
| Js.LowerIsLower | server/server.js:85-88 | A lowercased string holds no upper-case letter. |
| Js.LowerIdempotent | server/server.js:85-88 | Lowercasing twice is lowercasing once. |
| Js.TrimSpec | server/server.js:87 | `trim()` returns a slice of its input whose ends are not whitespace, with only whitespace cut away. |
| Js.TrimOfBlank | server/server.js:97 | A string trims to `''` exactly when it is all whitespace. |
| Js.RemoveWhitespaceSpec | server/server.js:85-88 | The result of `replace(/\s+/g, '')` holds no whitespace, is no longer than the input, and holds every non-whitespace character of the input. |
| Js.RemoveWhitespacePositions | server/server.js:85-88 | The result of `replace(/\s+/g, '')` is picked out of the input by strictly increasing positions, and those are exactly the positions of the non-whitespace characters. So exactly those characters are kept, in order and with their multiplicity. |
| Js.RemoveWhitespaceOfTrim | server/server.js:87 | Trimming before removing whitespace changes nothing. |
| Js.Split | server/server.js:355 | `split(';')` gives one more piece than there are `;`, and no piece contains `;`. |
| Js.JoinSplit | server/server.js:355 | Joining the pieces of a split with the same separator gives back the string. |

## Left out

- HTTP plumbing is not modelled: Express routing, CORS, compression, JSON responses, status codes, the `try`/`catch` that turns an exception into a 500 response, `app.listen`, and the `console.log` and `console.error` logging.
- The database is not modelled. That covers better-sqlite3, pragmas, statement preparation and caching, and the evaluation of LIKE and `=` by SQLite. Counts and query rows are inputs: `GetOptions` takes the four result lists, and `ResponseOf` takes the count.
- `rowToPaper` (a field rename) and the `results` it produces are not modelled.
- `server/init-db.js` and `server/migrate-db.js` are not part of this model. They are one-shot scripts of file and database I/O.
- `Date.now()` is a parameter `now`. `parseInt` is modelled by its outcome, an integer or NaN (`None`).
- JavaScript numbers are unbounded integers. `Math.ceil(total / limit)` is integer ceiling division for a limit of either sign: Infinity for a zero divisor over a non-zero count, and NaN for NaN or 0/0. A negative quotient that rounds to zero is `-0` in JavaScript. The model gives 0, and `JSON.stringify` writes both the same way.
- A fractional `page` would make a fractional offset in JavaScript. `parseInt` cannot produce one, so this case is not modelled.
- The character set is ASCII. `toLowerCase` folds A-Z only, and `\s` and `trim` treat space, tab, line feed, vertical tab, form feed and carriage return as whitespace. Unicode case mapping and Unicode whitespace are not modelled.
- The SQL text is rendered on one line. The multi-line template literals of the country and alias conditions and of the page query differ from the model only in layout whitespace. The count of `?` is what the model proves about the text.
- SearchQuery.BuildWhereClause: requires that every truthy text field holds a string. Otherwise the source's `.trim()` throws, and its only caller, the search endpoint, always passes the cleaned filters, which satisfy this (`SearchQuery.CleanFilters`).
- SearchQuery.BuildWhereClause: the thirteen repeated if-blocks are factored into one helper method per block kind (`PushTextCondition`, `PushExactCondition`, `PushCountryCondition`, `PushInstitutionCondition`, `PushDateCondition`, `PushIdCondition`). Each helper performs the block's pushes on `conditions` and `params`.
- The request fields of `cleanFilters` and `buildWhereClause` are modelled as a map over the sixteen known field names. Other keys of the request body are ignored, as they are by the destructuring in the source.
- DataTableComponent.DataTable.GoToPage: takes an integer. The page input passes `Number(e.target.value)`, which can be fractional, such as 2.5. That gives a fractional `currentPage` and a fractional `slice` range, and non-integer page arguments are not modelled.
- DataTableComponent.DataTable.HandleRowsPerPageChange: takes the number after `Number(value)`. It requires that the number is one of the sizes the select offers, since the select only fires with those values.
- DataTableComponent.DataTable: `data` and `headers` are fixed at construction. A re-render with new props is a new table in the model, so the page is not clamped when the props change. The component does not clamp it either.
- The `<Table>` markup, the navigation buttons' disabled states and number formatting (`toLocaleString`) are presentation and are not modelled.
- MockData.CheckPaperExistence: the one-second `setTimeout` delay and the `Promise` wrapper are left out. The result is the value the promise resolves to.
- The two-way containment test of `isSaveethaSearch` is modelled as written. `SearchQuery.MasseyIsSaveethaSearch` states one consequence: short fragments and unrelated names that contain a keyword, such as "sse", also count as Saveetha searches.

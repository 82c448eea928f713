/** The page arithmetic of the two listing endpoints of the paper server
    (server/server.js): the defaults for values that do not parse, the cap
    of 500 records per response, the offset of a page and the page count
    reported beside the results. */
module Pagination {
  import opened Js

  const MaxLimit := 500
  const DefaultPage := 1
  const DefaultLimit := 100

  /** `parseInt(x) || d`: a value that does not parse (NaN) or parses to 0
      falls back to `d`. */
  function OrDefault(parsed: Option<int>, d: int): (r: int)
    ensures parsed.Some? && parsed.value != 0 ==> r == parsed.value
    ensures parsed.None? || parsed.value == 0 ==> r == d
    ensures r == 0 ==> d == 0
  {
    if parsed.Some? && parsed.value != 0 then parsed.value else d
  }

  /** `if (limit > 500) limit = 500`: a ceiling that leaves smaller limits
      alone. */
  function Clamp(limit: int): (r: int)
    ensures r <= MaxLimit && r <= limit
    ensures limit <= MaxLimit <==> r == limit
    ensures limit > MaxLimit ==> r == MaxLimit
  {
    if limit > MaxLimit then MaxLimit else limit
  }

  // ===========================================================================
  // GET /api/papers

  /** The page, the limit and the offset of a listing request. */
  datatype Window = Window(page: int, limit: int, offset: int)

  /** `GET /api/papers`: page and limit default to 1 and 100, the limit is
      capped at 500, and the offset skips the earlier pages. */
  function PapersWindow(parsedPage: Option<int>, parsedLimit: Option<int>): (w: Window)
    ensures w.page != 0 && w.limit != 0 && w.limit <= MaxLimit
    ensures w.offset == (w.page - 1) * w.limit
    ensures parsedPage.Some? && parsedPage.value != 0 ==> w.page == parsedPage.value
    ensures parsedPage.None? || parsedPage == Some(0) ==> w.page == DefaultPage
    ensures parsedLimit.None? || parsedLimit == Some(0) ==> w.limit == DefaultLimit
    ensures parsedLimit.Some? && parsedLimit.value != 0 ==> w.limit == Clamp(parsedLimit.value)
  {
    var page := OrDefault(parsedPage, DefaultPage);
    var limit := Clamp(OrDefault(parsedLimit, DefaultLimit));
    Window(page, limit, (page - 1) * limit)
  }

  /** A request without usable page or limit reads the first 100 records. */
  lemma PapersDefaults()
    ensures PapersWindow(None, None) == Window(1, 100, 0)
    ensures PapersWindow(Some(0), Some(0)) == Window(1, 100, 0)
  {
  }

  /** Asking for 10000 records per page gets 500. */
  lemma PapersCapExample()
    ensures PapersWindow(Some(3), Some(10000)) == Window(3, 500, 1000)
  {
  }

  // ===========================================================================
  // POST /api/search

  /** The search endpoint parses page and limit without a fallback, so
      each may be NaN (`None`); NaN propagates through the offset. */
  datatype SearchWindow = SearchWindow(page: Option<int>, limit: Option<int>, offset: Option<int>)

  /** `pageNum`, `limitNum` (capped, since `NaN > 500` is false a NaN limit
      stays NaN) and `offset = (pageNum - 1) * limitNum`. The destructuring
      defaults of the endpoint make an absent page or limit parse as 1 or
      100. */
  function SearchWindowOf(parsedPage: Option<int>, parsedLimit: Option<int>): (w: SearchWindow)
    ensures w.page == parsedPage
    ensures w.limit.Some? <==> parsedLimit.Some?
    ensures w.limit.Some? ==> w.limit.value == Clamp(parsedLimit.value) && w.limit.value <= MaxLimit
    ensures w.offset.Some? <==> w.page.Some? && w.limit.Some?
    ensures w.offset.Some? ==> w.offset.value == (w.page.value - 1) * w.limit.value
  {
    var limit := if parsedLimit.Some? then Some(Clamp(parsedLimit.value)) else None;
    var offset := if parsedPage.Some? && limit.Some? then Some((parsedPage.value - 1) * limit.value) else None;
    SearchWindow(parsedPage, limit, offset)
  }

  // ===========================================================================
  // totalPages: Math.ceil(total / limit)

  /** The JavaScript numbers `Math.ceil(total / limit)` can produce. */
  datatype Number = Finite(n: int) | Infinity | NotANumber

  /** The ceiling of `a / b`, for a divisor of either sign. */
  function CeilDiv(a: int, b: int): (q: int)
    requires b != 0
    ensures b > 0 ==> (q - 1) * b < a <= q * b
    ensures b < 0 ==> q * b <= a < (q - 1) * b
  {
    if b > 0 then
      var m, r := (-a) / b, (-a) % b;
      assert -a == m * b + r && 0 <= r < b;
      assert (-m) * b == a + r;
      -m
    else
      var m, r := a / (-b), a % (-b);
      assert a == m * (-b) + r && 0 <= r < -b;
      assert (-m) * b == a - r;
      -m
  }

  /** `Math.ceil(total / limit)`: a NaN limit gives NaN, a zero limit gives
      Infinity, or NaN when there are no records either. */
  function TotalPages(total: nat, limit: Option<int>): (r: Number)
    ensures r.Finite? <==> limit.Some? && limit.value != 0
    ensures r == Infinity <==> limit == Some(0) && total > 0
    ensures limit.Some? && limit.value > 0 ==>
      r.Finite? && total <= r.n * limit.value && (r.n == 0 || (r.n - 1) * limit.value < total)
    ensures limit.Some? && limit.value < 0 ==>
      r.Finite? && r.n * limit.value <= total < (r.n - 1) * limit.value
  {
    if limit.None? then NotANumber
    else if limit.value == 0 then (if total == 0 then NotANumber else Infinity)
    else Finite(CeilDiv(total, limit.value))
  }

  /** With a positive limit the page count is the least number of pages of
      `limit` records that hold every record; no records means no pages. */
  lemma TotalPagesIsLeast(total: nat, limit: int)
    requires limit > 0
    ensures TotalPages(total, Some(limit)).Finite?
    ensures var p := TotalPages(total, Some(limit)).n;
      p >= 0 && total <= p * limit && (p == 0 || (p - 1) * limit < total)
    ensures total == 0 <==> TotalPages(total, Some(limit)) == Finite(0)
  {
    var p := CeilDiv(total, limit);
    MulMonotone(-1, p - 1, limit);
    if total == 0 {
      MulMonotone(p, 0, limit);
    }
  }

  /** Multiplying by a positive number keeps the order. */
  lemma MulMonotone(a: int, b: int, k: int)
    requires k > 0
    ensures a <= b <==> a * k <= b * k
  {
    if a <= b {
      assert b * k - a * k == (b - a) * k;
    } else {
      assert a * k - b * k == (a - b) * k;
    }
  }

  /** `GET /api/papers` always reports a finite page count. */
  lemma PapersPagesFinite(parsedPage: Option<int>, parsedLimit: Option<int>, total: nat)
    ensures TotalPages(total, Some(PapersWindow(parsedPage, parsedLimit).limit)).Finite?
  {
  }

  /** A search request with limit 0 over a non-empty result reports
      Infinity pages, and NaN pages with an unparsable limit. */
  lemma SearchPagesDegenerate(total: nat)
    ensures total > 0 ==> TotalPages(total, SearchWindowOf(Some(1), Some(0)).limit) == Infinity
    ensures TotalPages(total, SearchWindowOf(Some(1), None).limit) == NotANumber
  {
  }

  /** A negative limit passes both the `|| 100` fallback and the cap, and
      `Math.ceil(12 / -5)` is -2 pages. */
  lemma NegativeLimitPages()
    ensures PapersWindow(Some(1), Some(-5)).limit == -5
    ensures SearchWindowOf(Some(1), Some(-5)).limit == Some(-5)
    ensures TotalPages(12, Some(-5)) == Finite(-2)
  {
  }

  /** With a positive limit, pages 1 to `totalPages` split the records: every
      record index lies in exactly one page's window `[offset, offset +
      limit)`. */
  lemma {:induction false} PagesPartitionRecords(total: nat, limit: int, r: nat)
    requires limit > 0 && r < total
    ensures var p := r / limit + 1;
      1 <= p <= CeilDiv(total, limit) && (p - 1) * limit <= r < p * limit
    ensures forall p: int :: (p - 1) * limit <= r < p * limit ==> p == r / limit + 1
  {
    var p := r / limit + 1;
    var q := CeilDiv(total, limit);
    assert r == (r / limit) * limit + r % limit;
    assert p * limit == (p - 1) * limit + limit;
    MulMonotone(p, q, limit);
    forall p': int | (p' - 1) * limit <= r < p' * limit ensures p' == p {
      assert p' * limit == (p' - 1) * limit + limit;
      MulMonotone(p', p - 1, limit);
      MulMonotone(p, p' - 1, limit);
    }
  }
}

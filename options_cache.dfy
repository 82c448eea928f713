/** The dropdown options of the paper server (server/server.js,
    `GET /api/options`): the country list built from the stored
    `;`-joined country cells, and the five-minute cache in front of it. */
module OptionsCache {
  import opened Js

  /** `OPTIONS_CACHE_TTL`, five minutes in milliseconds. */
  const OptionsCacheTtl := 5 * 60 * 1000

  /** The response of `GET /api/options`. */
  datatype Options = Options(
    articleTypes: seq<string>,
    countries: seq<string>,
    journals: seq<string>,
    publishers: seq<string>)

  // ===========================================================================
  // The order of Array.prototype.sort without a comparator

  /** Code-unit order on strings: the first differing character decides,
      and a proper prefix comes first. */
  predicate Less(a: string, b: string) {
    if b == [] then false
    else if a == [] then true
    else if a[0] != b[0] then a[0] < b[0]
    else Less(a[1..], b[1..])
  }

  lemma {:induction false} LessIrreflexive(a: string)
    ensures !Less(a, a)
  {
    if a != [] { LessIrreflexive(a[1..]); }
  }

  lemma {:induction false} LessTransitive(a: string, b: string, c: string)
    requires Less(a, b) && Less(b, c)
    ensures Less(a, c)
  {
    if a != [] && a[0] == b[0] && b[0] == c[0] {
      LessTransitive(a[1..], b[1..], c[1..]);
    }
  }

  lemma {:induction false} LessTotal(a: string, b: string)
    requires a != b
    ensures Less(a, b) || Less(b, a)
  {
    if a != [] && b != [] && a[0] == b[0] {
      assert a == [a[0]] + a[1..] && b == [b[0]] + b[1..];
      LessTotal(a[1..], b[1..]);
    }
  }

  lemma {:induction false} LessAsymmetric(a: string, b: string)
    requires Less(a, b)
    ensures !Less(b, a)
  {
    if a != [] && a[0] == b[0] {
      LessAsymmetric(a[1..], b[1..]);
    }
  }

  predicate StrictlySorted(s: seq<string>) {
    forall i, j | 0 <= i < j < |s| :: Less(s[i], s[j])
  }

  // ===========================================================================
  // Sorting, as the insertion of each element into a sorted list

  /** `x` inserted at its place in a sorted list. */
  function Insert(x: string, s: seq<string>): (r: seq<string>)
    ensures multiset(r) == multiset(s) + multiset{x}
  {
    if s == [] then [x]
    else
      assert s == [s[0]] + s[1..];
      if Less(s[0], x) then [s[0]] + Insert(x, s[1..]) else [x] + s
  }

  lemma {:induction false} InsertSorted(x: string, s: seq<string>)
    requires StrictlySorted(s) && x !in s
    ensures StrictlySorted(Insert(x, s))
  {
    if s != [] {
      if Less(s[0], x) {
        InsertSorted(x, s[1..]);
        var r := Insert(x, s[1..]);
        forall j | 0 <= j < |r| ensures Less(s[0], r[j]) {
          assert r[j] in multiset(r);
          if r[j] != x {
            assert r[j] in s[1..];
            var k :| 0 <= k < |s[1..]| && s[1..][k] == r[j];
            assert s[k + 1] == r[j];
          }
        }
        var out := [s[0]] + r;
        assert Insert(x, s) == out;
        forall i, j | 0 <= i < j < |out| ensures Less(out[i], out[j]) {
          assert out[j] == r[j - 1];
          if i > 0 { assert out[i] == r[i - 1]; }
        }
      } else {
        LessTotal(s[0], x);
        forall j | 0 <= j < |s| ensures Less(x, s[j]) {
          if j > 0 { LessTransitive(x, s[0], s[j]); }
        }
      }
    }
  }

  /** The strings of `xs` in code-unit order. */
  function Sort(xs: seq<string>): (r: seq<string>)
    ensures multiset(r) == multiset(xs)
  {
    if xs == [] then []
    else
      assert xs == [xs[0]] + xs[1..];
      Insert(xs[0], Sort(xs[1..]))
  }

  predicate Distinct(s: seq<string>) {
    forall i, j | 0 <= i < j < |s| :: s[i] != s[j]
  }

  /** A list without repeats sorts into strictly increasing order, with the
      same elements. */
  lemma {:induction false} SortSorted(xs: seq<string>)
    requires Distinct(xs)
    ensures StrictlySorted(Sort(xs))
    ensures forall x :: x in Sort(xs) <==> x in xs
  {
    if xs != [] {
      var t := xs[1..];
      assert Distinct(t) by {
        forall i, j | 0 <= i < j < |t| ensures t[i] != t[j] {
          assert t[i] == xs[i + 1] && t[j] == xs[j + 1];
        }
      }
      SortSorted(t);
      forall k | 0 <= k < |t| ensures t[k] != xs[0] {
        assert t[k] == xs[k + 1];
      }
      assert xs[0] !in Sort(t);
      InsertSorted(xs[0], Sort(t));
    }
    forall x ensures x in Sort(xs) <==> x in xs {
      assert x in Sort(xs) <==> x in multiset(Sort(xs));
    }
  }

  // ===========================================================================
  // [...new Set(xs)]

  /** The distinct elements of `xs` in order of first occurrence. */
  function Dedupe(xs: seq<string>): (r: seq<string>)
    ensures Distinct(r)
    ensures forall x :: x in r <==> x in xs
  {
    if xs == [] then []
    else
      var init, last := xs[..|xs| - 1], xs[|xs| - 1];
      assert xs == init + [last];
      var rest := Dedupe(init);
      if last in rest then rest else rest + [last]
  }

  // ===========================================================================
  // The country list

  /** `.map(c => c.trim())`. */
  function TrimAll(xs: seq<string>): (r: seq<string>)
    ensures |r| == |xs| && forall i | 0 <= i < |xs| :: r[i] == Trim(xs[i])
  {
    seq(|xs|, i requires 0 <= i < |xs| => Trim(xs[i]))
  }

  /** `.filter(Boolean)` on strings: the empty ones are dropped. */
  function NonEmpty(xs: seq<string>): (r: seq<string>)
    ensures forall x :: x in r <==> x in xs && x != ""
  {
    if xs == [] then []
    else (if xs[0] != "" then [xs[0]] else []) + NonEmpty(xs[1..])
  }

  /** `(r.country || '').split(';').map(c => c.trim()).filter(Boolean)`;
      a NULL cell is `None`. */
  function CellCountries(cell: Option<string>): seq<string> {
    NonEmpty(TrimAll(Split(if cell.Some? then cell.value else "", ';')))
  }

  /** The `flatMap` over all country cells. */
  function AllCountries(cells: seq<Option<string>>): seq<string> {
    if cells == [] then []
    else AllCountries(cells[..|cells| - 1]) + CellCountries(cells[|cells| - 1])
  }

  /** `[...new Set(countries)].sort()`. */
  function CountryList(cells: seq<Option<string>>): seq<string> {
    Sort(Dedupe(AllCountries(cells)))
  }

  /** A country of a cell is one of its `;`-separated parts, trimmed: it is
      not empty, has no surrounding whitespace and holds no `;`. */
  lemma CellCountryShape(cell: Option<string>, c: string)
    requires c in CellCountries(cell)
    ensures c != "" && Trim(c) == c && ';' !in c
    ensures exists p | p in Split(if cell.Some? then cell.value else "", ';') :: c == Trim(p)
  {
    var pieces := Split(if cell.Some? then cell.value else "", ';');
    var k :| 0 <= k < |pieces| && TrimAll(pieces)[k] == c;
    var p := pieces[k];
    TrimOfTrimmed(p);
    TrimSpec(p);
    var a, b :| 0 <= a <= b <= |p| && Trim(p) == p[a..b];
    assert ';' !in p;
    forall i | 0 <= i < |c| ensures c[i] != ';' {
      assert c[i] == p[a + i];
    }
  }

  /** Some cell yields the country `c`. */
  predicate Occurs(cells: seq<Option<string>>, c: string) {
    exists i | 0 <= i < |cells| :: c in CellCountries(cells[i])
  }

  lemma OccursSnoc(init: seq<Option<string>>, last: Option<string>, c: string)
    ensures Occurs(init + [last], c) <==> Occurs(init, c) || c in CellCountries(last)
  {
    var cells := init + [last];
    if Occurs(init, c) {
      var i :| 0 <= i < |init| && c in CellCountries(init[i]);
      assert cells[i] == init[i];
    }
    if c in CellCountries(last) {
      assert cells[|init|] == last;
    }
    if Occurs(cells, c) {
      var i :| 0 <= i < |cells| && c in CellCountries(cells[i]);
      if i < |init| { assert init[i] == cells[i]; }
    }
  }

  lemma {:induction false} AllCountriesMembers(cells: seq<Option<string>>, c: string)
    ensures c in AllCountries(cells) <==> Occurs(cells, c)
  {
    if cells != [] {
      var init, last := cells[..|cells| - 1], cells[|cells| - 1];
      assert cells == init + [last];
      AllCountriesMembers(init, c);
      OccursSnoc(init, last, c);
    }
  }

  /** The country list holds each country of each cell exactly once, in
      strictly increasing code-unit order, and nothing else; every entry is
      a non-empty trimmed part of some cell. */
  lemma CountryListSpec(cells: seq<Option<string>>)
    ensures StrictlySorted(CountryList(cells))
    ensures forall c :: c in CountryList(cells) <==> Occurs(cells, c)
    ensures forall c | c in CountryList(cells) :: c != "" && Trim(c) == c && ';' !in c
  {
    SortSorted(Dedupe(AllCountries(cells)));
    forall c ensures c in CountryList(cells) <==> Occurs(cells, c) {
      AllCountriesMembers(cells, c);
    }
    forall c | c in CountryList(cells) ensures c != "" && Trim(c) == c && ';' !in c {
      AllCountriesMembers(cells, c);
      var i :| 0 <= i < |cells| && c in CellCountries(cells[i]);
      CellCountryShape(cells[i], c);
    }
  }

  lemma FirstIsMember(s: seq<string>)
    ensures s == [] || s[0] in s
  {
  }

  /** Two strictly sorted lists with the same elements are the same list. */
  lemma {:induction false} SortedUnique(a: seq<string>, b: seq<string>)
    requires StrictlySorted(a) && StrictlySorted(b)
    requires forall x :: x in a <==> x in b
    ensures a == b
  {
    if a == [] || b == [] {
      FirstIsMember(a);
      FirstIsMember(b);
    } else {
      assert a[0] in b && b[0] in a;
      var i :| 0 <= i < |b| && b[i] == a[0];
      var j :| 0 <= j < |a| && a[j] == b[0];
      if i > 0 && j > 0 {
        LessAsymmetric(b[0], a[0]);
      } else if i > 0 {
        LessIrreflexive(b[0]);
      } else if j > 0 {
        LessIrreflexive(a[0]);
      }
      assert a[0] == b[0];
      forall x ensures x in a[1..] <==> x in b[1..] {
        if x in a[1..] {
          var k :| 0 <= k < |a[1..]| && a[1..][k] == x;
          assert Less(a[0], a[k + 1]);
          LessIrreflexive(x);
          assert x in a;
          var m :| 0 <= m < |b| && b[m] == x;
          assert b[1..][m - 1] == x;
        }
        if x in b[1..] {
          var k :| 0 <= k < |b[1..]| && b[1..][k] == x;
          assert Less(b[0], b[k + 1]);
          LessIrreflexive(x);
          assert x in b;
          var m :| 0 <= m < |a| && a[m] == x;
          assert a[1..][m - 1] == x;
        }
      }
      SortedUnique(a[1..], b[1..]);
      assert a == [a[0]] + a[1..] && b == [b[0]] + b[1..];
    }
  }

  /** The country list depends only on which countries occur, not on the
      order or the repetition of the cells. */
  lemma CountryListDeterminedBySet(cells: seq<Option<string>>, cells': seq<Option<string>>)
    requires forall c :: Occurs(cells, c) <==> Occurs(cells', c)
    ensures CountryList(cells) == CountryList(cells')
  {
    CountryListSpec(cells);
    CountryListSpec(cells');
    SortedUnique(CountryList(cells), CountryList(cells'));
  }

  // ===========================================================================
  // The cache

  /** The options built from fresh query results: article types, journals
      and publishers as the queries return them, countries split, cleaned,
      deduplicated and sorted. */
  function BuildOptions(articleTypes: seq<string>, countryCells: seq<Option<string>>,
                        journals: seq<string>, publishers: seq<string>): Options {
    Options(articleTypes, CountryList(countryCells), journals, publishers)
  }

  /** The module-level `optionsCache` and `optionsCacheTime`. */
  class OptionsCache {
    var cache: Option<Options>
    var cacheTime: int

    /** `let optionsCache = null; let optionsCacheTime = 0;` */
    constructor ()
      ensures cache == None && cacheTime == 0
    {
      cache := None;
      cacheTime := 0;
    }

    /** The guard `optionsCache && (now - optionsCacheTime) < OPTIONS_CACHE_TTL`. */
    predicate IsFresh(now: int)
      reads this
    {
      cache.Some? && now - cacheTime < OptionsCacheTtl
    }

    /** `GET /api/options` at time `now`, with the results the four
        queries would return: a fresh cache is served as it is; otherwise
        the options are rebuilt, cached and stamped with `now`. */
    method GetOptions(now: int, articleTypes: seq<string>, countryCells: seq<Option<string>>,
                      journals: seq<string>, publishers: seq<string>) returns (options: Options)
      modifies this
      ensures old(IsFresh(now)) ==> options == old(cache).value && cache == old(cache) && cacheTime == old(cacheTime)
      ensures !old(IsFresh(now)) ==>
        options == BuildOptions(articleTypes, countryCells, journals, publishers)
        && cache == Some(options) && cacheTime == now
    {
      if cache.Some? && now - cacheTime < OptionsCacheTtl {
        return cache.value;
      }
      var uniqueCountries := CountryList(countryCells);
      cache := Some(Options(articleTypes, uniqueCountries, journals, publishers));
      cacheTime := now;
      options := cache.value;
    }
  }

  /** Two requests in a row: the second, within five minutes of the first
      refresh, is served the first one's options, whatever the tables hold
      by then. */
  method TwoRequests(t1: int, t2: int, a1: seq<string>, c1: seq<Option<string>>, j1: seq<string>, p1: seq<string>,
                     a2: seq<string>, c2: seq<Option<string>>, j2: seq<string>, p2: seq<string>)
    returns (first: Options, second: Options)
    requires t1 <= t2 < t1 + OptionsCacheTtl
    ensures first == BuildOptions(a1, c1, j1, p1)
    ensures second == first
  {
    var cache := new OptionsCache();
    first := cache.GetOptions(t1, a1, c1, j1, p1);
    second := cache.GetOptions(t2, a2, c2, j2, p2);
  }
}

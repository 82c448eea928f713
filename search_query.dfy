/** The search-query layer of the paper server (server/server.js): text
    normalisation, the Saveetha/SIMATS alias test, the cleaning of the search
    request's filter object, and `buildWhereClause`, which turns the cleaned
    filters into the text of a WHERE clause and the ordered list of values
    bound to its `?` placeholders. */
module SearchQuery {
  import opened Js

  // ===========================================================================
  // normalizeForSearch

  /** `normalizeForSearch(text)`: `''` for an empty string, otherwise the
      text lowercased, trimmed and with all whitespace removed. */
  function NormalizeForSearch(text: string): (r: string)
    ensures r == RemoveWhitespace(ToLowerCase(text))
  {
    RemoveWhitespaceOfTrim(ToLowerCase(text));
    if text == "" then "" else RemoveWhitespace(Trim(ToLowerCase(text)))
  }

  /** The normalised text is lowercase and holds no whitespace; the empty
      string normalises to the empty string. */
  lemma NormalizedIsClean(text: string)
    ensures text == "" ==> NormalizeForSearch(text) == ""
    ensures IsLower(NormalizeForSearch(text)) && NoWhitespace(NormalizeForSearch(text))
  {
    RemoveWhitespaceOfLower(text);
    LowerIsLower(RemoveWhitespace(text));
    RemoveWhitespaceSpec(ToLowerCase(text));
  }

  /** Normalising twice is normalising once. */
  lemma NormalizeIdempotent(text: string)
    ensures NormalizeForSearch(NormalizeForSearch(text)) == NormalizeForSearch(text)
  {
    var n := NormalizeForSearch(text);
    NormalizedIsClean(text);
    assert ToLowerCase(n) == n;
    RemoveWhitespaceOfClean(n);
  }

  /** Two inputs that differ only in case and spacing normalise alike. */
  lemma NormalizeIgnoresCaseAndSpacing(a: string, b: string)
    requires RemoveWhitespace(ToLowerCase(a)) == RemoveWhitespace(ToLowerCase(b))
    ensures NormalizeForSearch(a) == NormalizeForSearch(b)
  {
  }

  // ===========================================================================
  // The Saveetha/SIMATS alias test

  const SaveethaKeywords: seq<string> := [
    "saveetha",
    "simats",
    "sse",
    "saveethaengineeringcollege",
    "saveetha engineering college",
    "saveetha school of engineering",
    // One literal of the source, written in two pieces.
    "saveetha institute of medical" + " and technical sciences",
    "simats university",
    "simats deemed university",
    "saveetha dental college",
    "saveetha medical college"
  ]

  /** How `isSaveethaSearch` compares one keyword with a search term, both
      lowercased and stripped of whitespace: either contains the other. */
  predicate MatchesKeyword(searchTerm: string, keyword: string) {
    var normalized := RemoveWhitespace(ToLowerCase(searchTerm));
    var normalizedKeyword := RemoveWhitespace(ToLowerCase(keyword));
    Includes(normalized, normalizedKeyword) || Includes(normalizedKeyword, normalized)
  }

  /** `isSaveethaSearch(searchTerm)`: some keyword matches. */
  predicate IsSaveethaSearch(searchTerm: string) {
    exists k | 0 <= k < |SaveethaKeywords| :: MatchesKeyword(searchTerm, SaveethaKeywords[k])
  }

  /** Every keyword, in any casing and spacing, is recognised. */
  lemma KeywordIsSaveethaSearch(k: nat, searchTerm: string)
    requires k < |SaveethaKeywords|
    requires RemoveWhitespace(ToLowerCase(searchTerm)) == RemoveWhitespace(ToLowerCase(SaveethaKeywords[k]))
    ensures IsSaveethaSearch(searchTerm)
  {
    IncludesSelf(RemoveWhitespace(ToLowerCase(searchTerm)));
    assert MatchesKeyword(searchTerm, SaveethaKeywords[k]);
  }

  /** The test runs both ways and "sse" is a keyword, so any term holding
      those three letters counts: an institution search for "Massey" is
      answered with the Saveetha/SIMATS clause instead of a text match. */
  lemma MasseyIsSaveethaSearch()
    ensures IsSaveethaSearch("Massey")
    ensures InstitutionClause("Massey").kind == InstitutionAliases && InstitutionClause("Massey").params == []
  {
    MasseyNormalized();
    SseNormalized();
    assert OccursAt("massey", "sse", 2);
    assert MatchesKeyword("Massey", SaveethaKeywords[2]);
    MasseyTrimmedNormalized();
    assert MatchesKeyword(Trim(ToLowerCase("Massey")), SaveethaKeywords[2]);
  }

  /** The institution text as `buildWhereClause` tests it, lowercased and
      trimmed, normalises like "Massey" itself. */
  lemma MasseyTrimmedNormalized()
    ensures RemoveWhitespace(ToLowerCase(Trim(ToLowerCase("Massey")))) == RemoveWhitespace(ToLowerCase("Massey"))
  {
    var lower := ToLowerCase("Massey");
    LowerIdempotent("Massey");
    TrimOfLower(lower);
    RemoveWhitespaceOfTrim(lower);
  }

  lemma MasseyNormalized()
    ensures RemoveWhitespace(ToLowerCase("Massey")) == "massey"
  {
    assert ToLowerCase("Massey") == "massey";
    RemoveWhitespaceOfClean("massey");
  }

  lemma SseNormalized()
    ensures RemoveWhitespace(ToLowerCase(SaveethaKeywords[2])) == "sse"
  {
    assert ToLowerCase("sse") == "sse";
    RemoveWhitespaceOfClean("sse");
  }

  /** A blank term is contained in every keyword, so it counts as a Saveetha
      search; `buildWhereClause` never asks about blank terms. */
  lemma BlankIsSaveethaSearch(searchTerm: string)
    requires AllWhitespace(searchTerm)
    ensures IsSaveethaSearch(searchTerm)
  {
    assert AllWhitespace(ToLowerCase(searchTerm));
    RemoveWhitespaceOfBlank(ToLowerCase(searchTerm));
    IncludesEmpty(RemoveWhitespace(ToLowerCase(SaveethaKeywords[0])));
    assert MatchesKeyword(searchTerm, SaveethaKeywords[0]);
  }

  // ===========================================================================
  // The filter object

  /** The filter keys of the search request body, in the order in which the
      cleaned filter object lists them. */
  datatype Field =
    | Author | Title | ArticleType | Country | Journal | Publisher
    | Affiliation | Institution
    | OriginalPaperFromDate | OriginalPaperToDate | OriginalPaperPubMedID | OriginalPaperDOI
    | RetractionFromDate | RetractionToDate | RetractionPubMedID | RetractionDOI

  const FieldOrder: seq<Field> := [
    Author, Title, ArticleType, Country, Journal, Publisher, Affiliation, Institution,
    OriginalPaperFromDate, OriginalPaperToDate, OriginalPaperPubMedID, OriginalPaperDOI,
    RetractionFromDate, RetractionToDate, RetractionPubMedID, RetractionDOI
  ]

  lemma FieldOrderComplete(k: Field)
    ensures k in FieldOrder
  {
    match k
    case Author => assert FieldOrder[0] == k;
    case Title => assert FieldOrder[1] == k;
    case ArticleType => assert FieldOrder[2] == k;
    case Country => assert FieldOrder[3] == k;
    case Journal => assert FieldOrder[4] == k;
    case Publisher => assert FieldOrder[5] == k;
    case Affiliation => assert FieldOrder[6] == k;
    case Institution => assert FieldOrder[7] == k;
    case OriginalPaperFromDate => assert FieldOrder[8] == k;
    case OriginalPaperToDate => assert FieldOrder[9] == k;
    case OriginalPaperPubMedID => assert FieldOrder[10] == k;
    case OriginalPaperDOI => assert FieldOrder[11] == k;
    case RetractionFromDate => assert FieldOrder[12] == k;
    case RetractionToDate => assert FieldOrder[13] == k;
    case RetractionPubMedID => assert FieldOrder[14] == k;
    case RetractionDOI => assert FieldOrder[15] == k;
  }

  /** The four date keys are passed through by the cleaning, untrimmed. */
  predicate IsDateField(k: Field) {
    k.OriginalPaperFromDate? || k.OriginalPaperToDate? || k.RetractionFromDate? || k.RetractionToDate?
  }

  /** A JavaScript object keyed by filter name; a missing key reads as
      `undefined`. */
  type Filters = map<Field, Value>

  function Get(f: Filters, k: Field): Value {
    if k in f then f[k] else Undefined
  }

  // ===========================================================================
  // Cleaning the request's filters

  /** The value the object literal `cleanFilters` gives key `k`: a text
      field keeps a truthy string, trimmed, and is `undefined` otherwise; a
      date field is copied as it is. */
  function CleanValue(k: Field, v: Value): (r: Value)
    ensures IsDateField(k) ==> r == v
    ensures !IsDateField(k) && Truthy(v) && v.Str? ==> r == Str(Trim(v.s)) && Trim(r.s) == r.s
    ensures !IsDateField(k) && !(Truthy(v) && v.Str?) ==> r == Undefined
  {
    if IsDateField(k) then v
    else if Truthy(v) && v.Str? then TrimOfTrimmed(v.s); Str(Trim(v.s))
    else Undefined
  }

  /** The values the `forEach` deletes. */
  predicate IsDropped(v: Value) {
    v == Undefined || v == Str("")
  }

  predicate Kept(body: Filters, k: Field) {
    !IsDropped(CleanValue(k, Get(body, k)))
  }

  /** The cleaned filter object. */
  function CleanedFilters(body: Filters): (clean: Filters)
    ensures forall k | k in clean :: !IsDropped(clean[k])
  {
    map k | k in FieldOrder && !IsDropped(CleanValue(k, Get(body, k))) :: CleanValue(k, Get(body, k))
  }

  /** A text field survives exactly when the request gave it a string that
      is not blank, and it survives trimmed. */
  lemma CleanedTextField(body: Filters, k: Field)
    requires !IsDateField(k)
    ensures k in CleanedFilters(body) <==> Get(body, k).Str? && Trim(Get(body, k).s) != ""
    ensures k in CleanedFilters(body) ==> CleanedFilters(body)[k] == Str(Trim(Get(body, k).s))
  {
    FieldOrderComplete(k);
  }

  /** A date field survives unless it was absent or the empty string, and it
      survives exactly as sent. */
  lemma CleanedDateField(body: Filters, k: Field)
    requires IsDateField(k)
    ensures k in CleanedFilters(body) <==> Get(body, k) != Undefined && Get(body, k) != Str("")
    ensures k in CleanedFilters(body) ==> CleanedFilters(body)[k] == Get(body, k)
  {
    FieldOrderComplete(k);
  }

  /** Cleaning an already clean object changes nothing. */
  lemma CleanIdempotent(body: Filters)
    ensures CleanedFilters(CleanedFilters(body)) == CleanedFilters(body)
  {
    var c := CleanedFilters(body);
    forall k ensures k in c ==> CleanValue(k, Get(c, k)) == c[k] {
      FieldOrderComplete(k);
      if k in c && !IsDateField(k) {
        CleanedTextField(body, k);
        TrimOfTrimmed(Get(body, k).s);
      }
    }
    forall k ensures k in CleanedFilters(c) <==> k in c {
      FieldOrderComplete(k);
    }
  }

  /** The `forEach` over the keys of the object literal: every key of
      `keys` whose value is `undefined` or `''` is deleted, in turn. */
  method DeleteDropped(body: Filters, keys: seq<Field>, clean0: Filters) returns (clean: Filters)
    requires forall k | k in clean0 :: clean0[k] == CleanValue(k, Get(body, k))
    ensures forall k :: k in clean <==> k in clean0 && (Kept(body, k) || k !in keys)
    ensures forall k | k in clean :: clean[k] == clean0[k]
  {
    clean := clean0;
    var i := 0;
    while i < |keys|
      invariant 0 <= i <= |keys|
      invariant forall k :: k in clean <==> k in clean0 && (Kept(body, k) || k !in keys[..i])
      invariant forall k | k in clean :: clean[k] == clean0[k]
    {
      var key := keys[i];
      assert keys[..i + 1] == keys[..i] + [key];
      if key in clean && (clean[key] == Undefined || clean[key] == Str("")) {
        clean := clean - {key};
      }
      i := i + 1;
    }
    assert keys[..i] == keys;
  }

  /** The filter handling of the search endpoint: build the object literal,
      then delete every key whose value is `undefined` or `''`. */
  method CleanFilters(body: Filters) returns (clean: Filters)
    ensures clean == CleanedFilters(body)
    ensures WellTyped(clean)
  {
    var literal := map k | k in FieldOrder :: CleanValue(k, Get(body, k));
    clean := DeleteDropped(body, FieldOrder, literal);
    forall k ensures k in clean <==> k in CleanedFilters(body) {
      FieldOrderComplete(k);
    }
  }

  /** What `buildWhereClause` needs of its argument so that no `.trim()` call
      fails: a truthy text field holds a string. */
  predicate WellTyped(f: Filters) {
    forall k | k in f && !IsDateField(k) :: Truthy(f[k]) ==> f[k].Str?
  }

  /** The test `filters.x && filters.x.trim()`. */
  predicate TextActive(f: Filters, k: Field) {
    var v := Get(f, k);
    Truthy(v) && v.Str? && Trim(v.s) != ""
  }

  // ===========================================================================
  // SQL conditions: a small syntax tree and its rendering

  /** The columns the clauses test, in the order of the clauses. */
  datatype Column =
    | AuthorColumn | TitleColumn | ArticleTypeColumn | CountryColumn | JournalColumn
    | PublisherColumn | InstitutionColumn
    | OriginalPaperDateColumn | OriginalPaperPubMedIdColumn | OriginalPaperDoiColumn
    | RetractionDateColumn | RetractionPubMedIdColumn | RetractionDoiColumn

  function ColumnName(c: Column): (name: string)
    ensures '?' !in name
  {
    match c
    case AuthorColumn => "author"
    case TitleColumn => "title"
    case ArticleTypeColumn => "article_type"
    case CountryColumn => "country"
    case JournalColumn => "journal"
    case PublisherColumn => "publisher"
    case InstitutionColumn => "institution"
    case OriginalPaperDateColumn => "original_paper_date"
    case OriginalPaperPubMedIdColumn => "original_paper_pubmed_id"
    case OriginalPaperDoiColumn => "original_paper_doi"
    case RetractionDateColumn => "retraction_date"
    case RetractionPubMedIdColumn => "retraction_pubmed_id"
    case RetractionDoiColumn => "retraction_doi"
  }

  /** An operand: a column, `LOWER(t)`, `REPLACE(t, ' ', '')`, a bound
      parameter `?`, or a quoted LIKE pattern that is part of the program. */
  datatype Term =
    | Col(column: Column)
    | LowerOf(t: Term)
    | Unspaced(t: Term)
    | Param
    | Pattern(text: string)

  datatype Op = Like | Equals | AtLeast | AtMost

  datatype Pred = Pred(lhs: Term, op: Op, rhs: Term)

  /** One pushed condition: a single comparison, or a parenthesised
      disjunction or conjunction of comparisons. */
  datatype Condition =
    | Single(p: Pred)
    | AnyOf(ps: seq<Pred>)
    | AllOf(ps: seq<Pred>)

  function RenderTerm(t: Term): string {
    match t
    case Col(c) => ColumnName(c)
    case LowerOf(u) => "LOWER(" + RenderTerm(u) + ")"
    case Unspaced(u) => "REPLACE(" + RenderTerm(u) + ", ' ', '')"
    case Param => "?"
    case Pattern(p) => "'" + p + "'"
  }

  function RenderOp(op: Op): (s: string)
    ensures '?' !in s
  {
    match op
    case Like => " LIKE "
    case Equals => " = "
    case AtLeast => " >= "
    case AtMost => " <= "
  }

  function RenderPred(p: Pred): string {
    RenderTerm(p.lhs) + RenderOp(p.op) + RenderTerm(p.rhs)
  }

  function RenderPreds(ps: seq<Pred>, sep: string): string {
    if ps == [] then ""
    else if |ps| == 1 then RenderPred(ps[0])
    else RenderPred(ps[0]) + sep + RenderPreds(ps[1..], sep)
  }

  function RenderCondition(c: Condition): string {
    match c
    case Single(p) => RenderPred(p)
    case AnyOf(ps) => "(" + RenderPreds(ps, " OR ") + ")"
    case AllOf(ps) => "(" + RenderPreds(ps, " AND ") + ")"
  }

  // Number of bound parameters in each piece of syntax.

  function TermParams(t: Term): nat {
    match t
    case Col(_) => 0
    case LowerOf(u) => TermParams(u)
    case Unspaced(u) => TermParams(u)
    case Param => 1
    case Pattern(_) => 0
  }

  function PredParams(p: Pred): nat {
    TermParams(p.lhs) + TermParams(p.rhs)
  }

  function PredsParams(ps: seq<Pred>): nat {
    if ps == [] then 0 else PredParams(ps[0]) + PredsParams(ps[1..])
  }

  function ConditionParams(c: Condition): nat {
    match c
    case Single(p) => PredParams(p)
    case AnyOf(ps) => PredsParams(ps)
    case AllOf(ps) => PredsParams(ps)
  }

  /** No program-supplied LIKE pattern contains a `?`. */
  predicate TermPatternsPlain(t: Term) {
    match t
    case Col(_) => true
    case LowerOf(u) => TermPatternsPlain(u)
    case Unspaced(u) => TermPatternsPlain(u)
    case Param => true
    case Pattern(p) => '?' !in p
  }

  predicate PatternsPlain(c: Condition) {
    match c
    case Single(p) => TermPatternsPlain(p.lhs) && TermPatternsPlain(p.rhs)
    case AnyOf(ps) => forall i | 0 <= i < |ps| :: TermPatternsPlain(ps[i].lhs) && TermPatternsPlain(ps[i].rhs)
    case AllOf(ps) => forall i | 0 <= i < |ps| :: TermPatternsPlain(ps[i].lhs) && TermPatternsPlain(ps[i].rhs)
  }

  // Counting `?` characters in SQL text.

  function Placeholders(s: string): nat {
    if s == [] then 0 else (if s[0] == '?' then 1 else 0) + Placeholders(s[1..])
  }

  lemma {:induction false} PlaceholdersAppend(a: string, b: string)
    ensures Placeholders(a + b) == Placeholders(a) + Placeholders(b)
  {
    if a == [] {
      assert a + b == b;
    } else {
      assert (a + b)[0] == a[0] && (a + b)[1..] == a[1..] + b;
      PlaceholdersAppend(a[1..], b);
    }
  }

  lemma {:induction false} PlaceholdersOfPlain(s: string)
    requires '?' !in s
    ensures Placeholders(s) == 0
  {
    if s != [] {
      assert s[0] in s;
      PlaceholdersOfPlain(s[1..]);
    }
  }

  lemma PlaceholdersAppend3(a: string, b: string, c: string)
    ensures Placeholders(a + b + c) == Placeholders(a) + Placeholders(b) + Placeholders(c)
  {
    PlaceholdersAppend(a + b, c);
    PlaceholdersAppend(a, b);
  }

  /** Text without `?` around a middle part adds no placeholder. */
  lemma PlaceholdersWrapped(pre: string, mid: string, post: string)
    requires '?' !in pre && '?' !in post
    ensures Placeholders(pre + mid + post) == Placeholders(mid)
  {
    PlaceholdersAppend3(pre, mid, post);
    PlaceholdersOfPlain(pre);
    PlaceholdersOfPlain(post);
  }

  lemma {:induction false} RenderTermPlaceholders(t: Term)
    requires TermPatternsPlain(t)
    ensures Placeholders(RenderTerm(t)) == TermParams(t)
  {
    match t
    case Col(c) =>
      PlaceholdersOfPlain(ColumnName(c));
    case LowerOf(u) =>
      RenderTermPlaceholders(u);
      PlaceholdersWrapped("LOWER(", RenderTerm(u), ")");
    case Unspaced(u) =>
      RenderTermPlaceholders(u);
      PlaceholdersWrapped("REPLACE(", RenderTerm(u), ", ' ', '')");
    case Param =>
      assert Placeholders("?") == 1;
    case Pattern(p) =>
      PlaceholdersOfPlain(p);
      PlaceholdersWrapped("'", p, "'");
  }

  lemma RenderPredPlaceholders(p: Pred)
    requires TermPatternsPlain(p.lhs) && TermPatternsPlain(p.rhs)
    ensures Placeholders(RenderPred(p)) == PredParams(p)
  {
    RenderTermPlaceholders(p.lhs);
    RenderTermPlaceholders(p.rhs);
    PlaceholdersOfPlain(RenderOp(p.op));
    PlaceholdersAppend3(RenderTerm(p.lhs), RenderOp(p.op), RenderTerm(p.rhs));
  }

  lemma {:induction false} RenderPredsPlaceholders(ps: seq<Pred>, sep: string)
    requires '?' !in sep
    requires forall i | 0 <= i < |ps| :: TermPatternsPlain(ps[i].lhs) && TermPatternsPlain(ps[i].rhs)
    ensures Placeholders(RenderPreds(ps, sep)) == PredsParams(ps)
  {
    if ps == [] {
    } else if |ps| == 1 {
      RenderPredPlaceholders(ps[0]);
      assert ps[1..] == [];
    } else {
      RenderPredPlaceholders(ps[0]);
      RenderPredsPlaceholders(ps[1..], sep);
      PlaceholdersOfPlain(sep);
      PlaceholdersAppend3(RenderPred(ps[0]), sep, RenderPreds(ps[1..], sep));
    }
  }

  /** The rendered text of a condition has one `?` per bound parameter. */
  lemma RenderConditionPlaceholders(c: Condition)
    requires PatternsPlain(c)
    ensures Placeholders(RenderCondition(c)) == ConditionParams(c)
  {
    PlaceholdersOfPlain("(");
    PlaceholdersOfPlain(")");
    match c
    case Single(p) =>
      RenderPredPlaceholders(p);
    case AnyOf(ps) =>
      RenderPredsPlaceholders(ps, " OR ");
      PlaceholdersAppend3("(", RenderPreds(ps, " OR "), ")");
    case AllOf(ps) =>
      RenderPredsPlaceholders(ps, " AND ");
      PlaceholdersAppend3("(", RenderPreds(ps, " AND "), ")");
  }

  // ===========================================================================
  // The condition templates of buildWhereClause

  /** The kinds of condition `buildWhereClause` pushes. */
  datatype Kind =
    | TextMatch           // space-stripped or lowercased LIKE (author, title, institution, DOIs)
    | ExactMatch          // space-stripped or case-insensitive equality (article type, journal, publisher)
    | CountryMatch        // three LIKE patterns, one of them `;`-prefixed
    | InstitutionAliases  // the fixed Saveetha/SIMATS disjunction, no parameters
    | DateBetween         // `>=` and `<=`
    | DateFrom            // `>=` only
    | DateTo              // `<=` only
    | IdMatch             // space-stripped LIKE without lowercasing (PubMed IDs)

  /** The number of values each kind of condition binds. */
  function Arity(k: Kind): nat {
    match k
    case TextMatch => 2
    case ExactMatch => 2
    case CountryMatch => 3
    case InstitutionAliases => 0
    case DateBetween => 2
    case DateFrom => 1
    case DateTo => 1
    case IdMatch => 2
  }

  /** The fixed patterns of the Saveetha/SIMATS clause; the flag says whether
      the column is space-stripped before the LIKE. */
  const SaveethaPatterns: seq<(bool, string)> := [
    (false, "%saveetha%"),
    (false, "%simats%"),
    (false, "%saveethaengineeringcollege%"),
    (true, "%saveethaengineeringcollege%"),
    (true, "%saveethaschoolofengineering%"),
    // One literal of the source, written in two pieces.
    (true, "%saveethainstituteof" + "medicalandtechnicalsciences%"),
    (true, "%simatsuniversity%"),
    (true, "%simatsdeemed%")
  ]

  function AliasPreds(patterns: seq<(bool, string)>): (ps: seq<Pred>)
    ensures |ps| == |patterns|
    ensures forall i | 0 <= i < |ps| :: ps[i].rhs == Pattern(patterns[i].1) && TermParams(ps[i].lhs) == 0
    ensures forall i | 0 <= i < |ps| :: TermPatternsPlain(ps[i].lhs)
  {
    if patterns == [] then []
    else
      var (stripped, pattern) := patterns[0];
      var column := if stripped then LowerOf(Unspaced(Col(InstitutionColumn))) else LowerOf(Col(InstitutionColumn));
      [Pred(column, Like, Pattern(pattern))] + AliasPreds(patterns[1..])
  }

  function Template(c: Column, k: Kind): Condition {
    var col := Col(c);
    match k
    case TextMatch =>
      AnyOf([Pred(LowerOf(Unspaced(col)), Like, Param), Pred(LowerOf(col), Like, Param)])
    case ExactMatch =>
      AnyOf([Pred(LowerOf(Unspaced(col)), Equals, Param), Pred(LowerOf(col), Equals, LowerOf(Param))])
    case CountryMatch =>
      AnyOf([Pred(LowerOf(Unspaced(col)), Like, Param), Pred(LowerOf(col), Like, Param), Pred(LowerOf(col), Like, Param)])
    case InstitutionAliases =>
      AnyOf(AliasPreds(SaveethaPatterns))
    case DateBetween =>
      AllOf([Pred(col, AtLeast, Param), Pred(col, AtMost, Param)])
    case DateFrom =>
      Single(Pred(col, AtLeast, Param))
    case DateTo =>
      Single(Pred(col, AtMost, Param))
    case IdMatch =>
      AnyOf([Pred(Unspaced(col), Like, Param), Pred(col, Like, Param)])
  }

  lemma {:induction false} AliasPredsParams(patterns: seq<(bool, string)>)
    ensures PredsParams(AliasPreds(patterns)) == 0
  {
    if patterns != [] {
      AliasPredsParams(patterns[1..]);
      assert AliasPreds(patterns)[1..] == AliasPreds(patterns[1..]);
    }
  }

  /** None of the fixed patterns contains a `?`. */
  lemma SaveethaPatternsPlain()
    ensures forall i | 0 <= i < |SaveethaPatterns| :: '?' !in SaveethaPatterns[i].1
  {
    assert '?' !in "%saveetha%" && '?' !in "%simats%";
    assert '?' !in "%saveethaengineeringcollege%";
    assert '?' !in "%saveethaschoolofengineering%";
    assert '?' !in "%saveethainstituteof" && '?' !in "medicalandtechnicalsciences%";
    assert '?' !in "%simatsuniversity%" && '?' !in "%simatsdeemed%";
  }

  lemma AliasTemplateShape()
    ensures PatternsPlain(Template(InstitutionColumn, InstitutionAliases))
    ensures ConditionParams(Template(InstitutionColumn, InstitutionAliases)) == 0
  {
    AliasPredsParams(SaveethaPatterns);
    SaveethaPatternsPlain();
  }

  /** Each template binds exactly as many values as its kind's arity, and its
      program-supplied patterns are free of `?`. */
  lemma TemplateShape(c: Column, k: Kind)
    ensures PatternsPlain(Template(c, k))
    ensures ConditionParams(Template(c, k)) == Arity(k)
  {
    match k
    case InstitutionAliases => AliasTemplateShape();
    case DateBetween => DateTemplateShape(c, k);
    case DateFrom => DateTemplateShape(c, k);
    case DateTo => DateTemplateShape(c, k);
    case TextMatch => MatchTemplateShape(c, k);
    case ExactMatch => MatchTemplateShape(c, k);
    case CountryMatch => CountryIdTemplateShape(c, k);
    case IdMatch => CountryIdTemplateShape(c, k);
  }

  lemma DateTemplateShape(c: Column, k: Kind)
    requires k == DateBetween || k == DateFrom || k == DateTo
    ensures PatternsPlain(Template(c, k))
    ensures ConditionParams(Template(c, k)) == Arity(k)
  {
  }

  /** The three date conditions as SQL text: a lower bound is `>= ?`, an
      upper bound `<= ?`, and a two-sided range is both, lower bound first. */
  lemma DateConditionText(c: Column)
    ensures ConditionSql(c, DateFrom) == ColumnName(c) + " >= " + "?"
    ensures ConditionSql(c, DateTo) == ColumnName(c) + " <= " + "?"
    ensures ConditionSql(c, DateBetween) ==
      "(" + (ColumnName(c) + " >= " + "?") + " AND " + (ColumnName(c) + " <= " + "?") + ")"
  {
    DateBoundText(c);
    DateRangeText(c);
  }

  lemma DateBoundText(c: Column)
    ensures ConditionSql(c, DateFrom) == ColumnName(c) + " >= " + "?"
    ensures ConditionSql(c, DateTo) == ColumnName(c) + " <= " + "?"
  {
    var lower, upper := Pred(Col(c), AtLeast, Param), Pred(Col(c), AtMost, Param);
    assert Template(c, DateFrom) == Single(lower);
    assert Template(c, DateTo) == Single(upper);
    assert RenderPred(lower) == ColumnName(c) + " >= " + "?";
    assert RenderPred(upper) == ColumnName(c) + " <= " + "?";
  }

  lemma DateRangeText(c: Column)
    ensures ConditionSql(c, DateBetween) ==
      "(" + (ColumnName(c) + " >= " + "?") + " AND " + (ColumnName(c) + " <= " + "?") + ")"
  {
    var lower, upper := Pred(Col(c), AtLeast, Param), Pred(Col(c), AtMost, Param);
    assert Template(c, DateBetween) == AllOf([lower, upper]);
    assert RenderPred(lower) == ColumnName(c) + " >= " + "?";
    assert RenderPred(upper) == ColumnName(c) + " <= " + "?";
    assert [lower, upper][1..] == [upper];
    assert RenderCondition(AllOf([lower, upper])) == "(" + RenderPred(lower) + " AND " + RenderPred(upper) + ")";
  }

  lemma MatchTemplateShape(c: Column, k: Kind)
    requires k == TextMatch || k == ExactMatch
    ensures PatternsPlain(Template(c, k))
    ensures ConditionParams(Template(c, k)) == Arity(k)
  {
  }

  lemma CountryIdTemplateShape(c: Column, k: Kind)
    requires k == CountryMatch || k == IdMatch
    ensures PatternsPlain(Template(c, k))
    ensures ConditionParams(Template(c, k)) == Arity(k)
  {
  }

  /** The SQL text of a clause; it depends on the column and the kind only. */
  function ConditionSql(c: Column, k: Kind): (sql: string)
    ensures Placeholders(sql) == Arity(k)
  {
    TemplateShape(c, k);
    RenderConditionPlaceholders(Template(c, k));
    RenderCondition(Template(c, k))
  }

  // ===========================================================================
  // The clauses buildWhereClause emits, column by column

  /** One pushed condition together with the values pushed beside it. */
  datatype Clause = Clause(column: Column, kind: Kind, params: seq<Value>)

  /** The template literal `%${s}%`. */
  function Wrap(s: string): string {
    "%" + s + "%"
  }

  /** The guard of the if-statement that writes a condition on column `c`. */
  predicate Requested(f: Filters, c: Column) {
    match c
    case AuthorColumn => TextActive(f, Author)
    case TitleColumn => TextActive(f, Title)
    case ArticleTypeColumn => TextActive(f, ArticleType)
    case CountryColumn => TextActive(f, Country)
    case JournalColumn => TextActive(f, Journal)
    case PublisherColumn => TextActive(f, Publisher)
    case InstitutionColumn => TextActive(f, Institution) || TextActive(f, Affiliation)
    case OriginalPaperDateColumn =>
      Truthy(Get(f, OriginalPaperFromDate)) || Truthy(Get(f, OriginalPaperToDate))
    case OriginalPaperPubMedIdColumn => TextActive(f, OriginalPaperPubMedID)
    case OriginalPaperDoiColumn => TextActive(f, OriginalPaperDOI)
    case RetractionDateColumn =>
      Truthy(Get(f, RetractionFromDate)) || Truthy(Get(f, RetractionToDate))
    case RetractionPubMedIdColumn => TextActive(f, RetractionPubMedID)
    case RetractionDoiColumn => TextActive(f, RetractionDOI)
  }

  /** Author, title, DOI and non-alias institution searches: a space-stripped
      pattern and a lowercased, trimmed pattern. */
  function TextClause(c: Column, s: string): (r: Clause)
    ensures r.column == c && |r.params| == Arity(r.kind)
    ensures r.kind == TextMatch && |r.params| == 2
  {
    Clause(c, TextMatch, [Str(Wrap(NormalizeForSearch(s))), Str(Wrap(Trim(ToLowerCase(s))))])
  }

  /** Article type, journal and publisher: the normalised value and the
      trimmed value, compared for equality. */
  function ExactClause(c: Column, s: string): (r: Clause)
    ensures r.column == c && |r.params| == Arity(r.kind)
    ensures r.kind == ExactMatch && |r.params| == 2
  {
    Clause(c, ExactMatch, [Str(NormalizeForSearch(s)), Str(Trim(s))])
  }

  /** Country: the text patterns plus one that matches the value after a `;`
      in a multi-country cell. */
  function CountryClause(s: string): (r: Clause)
    ensures r.column == CountryColumn && |r.params| == Arity(r.kind)
    ensures r.kind == CountryMatch && |r.params| == 3
  {
    var lower := Trim(ToLowerCase(s));
    Clause(CountryColumn, CountryMatch, [Str(Wrap(NormalizeForSearch(s))), Str(Wrap(lower)), Str("%;" + lower + "%")])
  }

  /** Institution: the fixed Saveetha/SIMATS clause when the text is an alias,
      the usual text match otherwise. */
  function InstitutionClause(s: string): (r: Clause)
    ensures r.column == InstitutionColumn && |r.params| == Arity(r.kind)
    ensures r.kind == InstitutionAliases <==> IsSaveethaSearch(Trim(ToLowerCase(s)))
    ensures r.kind == InstitutionAliases ==> r.params == []
    ensures r.kind != InstitutionAliases ==> r.kind == TextMatch && |r.params| == 2
  {
    if IsSaveethaSearch(Trim(ToLowerCase(s))) then Clause(InstitutionColumn, InstitutionAliases, [])
    else TextClause(InstitutionColumn, s)
  }

  /** The text the institution condition is built from: `institution` when
      it is set, `affiliation` only when it is not. */
  function InstitutionText(f: Filters): string
    requires TextActive(f, Institution) || TextActive(f, Affiliation)
  {
    if TextActive(f, Institution) then Get(f, Institution).s else Get(f, Affiliation).s
  }

  /** A date range: both bounds, the lower one or the upper one, as given. */
  function DateClause(c: Column, from: Value, to: Value): (r: Clause)
    requires Truthy(from) || Truthy(to)
    ensures r.column == c && |r.params| == Arity(r.kind)
    ensures r.params == (if Truthy(from) then [from] else []) + (if Truthy(to) then [to] else [])
    ensures r.kind == (if Truthy(from) && Truthy(to) then DateBetween else if Truthy(from) then DateFrom else DateTo)
  {
    if Truthy(from) && Truthy(to) then Clause(c, DateBetween, [from, to])
    else if Truthy(from) then Clause(c, DateFrom, [from])
    else Clause(c, DateTo, [to])
  }

  /** PubMed IDs: trimmed and space-stripped, not lowercased. */
  function IdClause(c: Column, s: string): (r: Clause)
    ensures r.column == c && |r.params| == Arity(r.kind)
    ensures r.kind == IdMatch && |r.params| == 2
  {
    Clause(c, IdMatch, [Str(Wrap(RemoveWhitespace(Trim(s)))), Str(Wrap(Trim(s)))])
  }

  /** The clause `buildWhereClause` writes for column `c`, if any. */
  function Emit(f: Filters, c: Column): (r: Option<Clause>)
    ensures r.Some? <==> Requested(f, c)
    ensures r.Some? ==> r.value.column == c && |r.value.params| == Arity(r.value.kind)
  {
    if !Requested(f, c) then None
    else Some(
      match c
      case AuthorColumn => TextClause(c, Get(f, Author).s)
      case TitleColumn => TextClause(c, Get(f, Title).s)
      case ArticleTypeColumn => ExactClause(c, Get(f, ArticleType).s)
      case CountryColumn => CountryClause(Get(f, Country).s)
      case JournalColumn => ExactClause(c, Get(f, Journal).s)
      case PublisherColumn => ExactClause(c, Get(f, Publisher).s)
      case InstitutionColumn => InstitutionClause(InstitutionText(f))
      case OriginalPaperDateColumn => DateClause(c, Get(f, OriginalPaperFromDate), Get(f, OriginalPaperToDate))
      case OriginalPaperPubMedIdColumn => IdClause(c, Get(f, OriginalPaperPubMedID).s)
      case OriginalPaperDoiColumn => TextClause(c, Get(f, OriginalPaperDOI).s)
      case RetractionDateColumn => DateClause(c, Get(f, RetractionFromDate), Get(f, RetractionToDate))
      case RetractionPubMedIdColumn => IdClause(c, Get(f, RetractionPubMedID).s)
      case RetractionDoiColumn => TextClause(c, Get(f, RetractionDOI).s))
  }

  /** The order of the if-statements of `buildWhereClause`. */
  const ColumnOrder: seq<Column> := [
    AuthorColumn, TitleColumn, ArticleTypeColumn, CountryColumn, JournalColumn, PublisherColumn,
    InstitutionColumn, OriginalPaperDateColumn, OriginalPaperPubMedIdColumn, OriginalPaperDoiColumn,
    RetractionDateColumn, RetractionPubMedIdColumn, RetractionDoiColumn
  ]

  /** The position of a column's if-statement. */
  function Rank(c: Column): (r: nat)
    ensures r < |ColumnOrder| && ColumnOrder[r] == c
  {
    match c
    case AuthorColumn => 0
    case TitleColumn => 1
    case ArticleTypeColumn => 2
    case CountryColumn => 3
    case JournalColumn => 4
    case PublisherColumn => 5
    case InstitutionColumn => 6
    case OriginalPaperDateColumn => 7
    case OriginalPaperPubMedIdColumn => 8
    case OriginalPaperDoiColumn => 9
    case RetractionDateColumn => 10
    case RetractionPubMedIdColumn => 11
    case RetractionDoiColumn => 12
  }

  function OptionList(o: Option<Clause>): seq<Clause> {
    if o.Some? then [o.value] else []
  }

  /** The clauses written by the if-statements for `cols`, in that order. */
  function ClausesOver(f: Filters, cols: seq<Column>): seq<Clause> {
    if cols == [] then []
    else ClausesOver(f, cols[..|cols| - 1]) + OptionList(Emit(f, cols[|cols| - 1]))
  }

  /** Every clause `buildWhereClause` writes for `f`, in order. */
  function Clauses(f: Filters): seq<Clause> {
    ClausesOver(f, ColumnOrder)
  }

  /** The `conditions` array for a list of clauses. */
  function SqlOf(cls: seq<Clause>): seq<string> {
    if cls == [] then []
    else
      var last := cls[|cls| - 1];
      SqlOf(cls[..|cls| - 1]) + [ConditionSql(last.column, last.kind)]
  }

  /** The `params` array for a list of clauses. */
  function ParamsOf(cls: seq<Clause>): seq<Value> {
    if cls == [] then [] else ParamsOf(cls[..|cls| - 1]) + cls[|cls| - 1].params
  }

  /** The `where` string built from the conditions. */
  function WhereText(conditions: seq<string>): string {
    if |conditions| > 0 then "WHERE " + Join(conditions, " AND ") else ""
  }

  lemma SqlOfSnoc(cls: seq<Clause>, c: Clause)
    ensures SqlOf(cls + [c]) == SqlOf(cls) + [ConditionSql(c.column, c.kind)]
    ensures ParamsOf(cls + [c]) == ParamsOf(cls) + c.params
  {
    assert (cls + [c])[..|cls|] == cls;
  }

  /** The state of `conditions` and `params` once the if-statements of
      the columns `done` have run. */
  ghost predicate Built(f: Filters, conditions: seq<string>, params: seq<Value>, done: seq<Column>) {
    var cls := ClausesOver(f, done);
    conditions == SqlOf(cls) && params == ParamsOf(cls)
  }

  /** The if-statements run one column at a time, in `ColumnOrder`. */
  lemma ColumnOrderInSteps()
    ensures ColumnOrder == [] + [AuthorColumn] + [TitleColumn] + [ArticleTypeColumn] + [CountryColumn] + [JournalColumn] + [PublisherColumn] + [InstitutionColumn] + [OriginalPaperDateColumn] + [OriginalPaperPubMedIdColumn] + [OriginalPaperDoiColumn] + [RetractionDateColumn] + [RetractionPubMedIdColumn] + [RetractionDoiColumn]
  {
  }

  /** One if-statement extends the state by the clause of its column. */
  lemma Step(f: Filters, conditions: seq<string>, params: seq<Value>, done: seq<Column>, c: Column)
    requires Built(f, conditions, params, done)
    ensures var e := Emit(f, c);
      if e.Some? then
        Built(f, conditions + [ConditionSql(e.value.column, e.value.kind)], params + e.value.params, done + [c])
      else Built(f, conditions, params, done + [c])
  {
    assert (done + [c])[..|done|] == done;
    var e := Emit(f, c);
    assert ClausesOver(f, done + [c]) == ClausesOver(f, done) + OptionList(e);
    if e.Some? {
      SqlOfSnoc(ClausesOver(f, done), e.value);
    } else {
      assert ClausesOver(f, done) + OptionList(e) == ClausesOver(f, done);
    }
  }

  // ===========================================================================
  // buildWhereClause

  /** The request key a column's if-statement tests first. */
  function FilterKey(c: Column): Field {
    match c
    case AuthorColumn => Author
    case TitleColumn => Title
    case ArticleTypeColumn => ArticleType
    case CountryColumn => Country
    case JournalColumn => Journal
    case PublisherColumn => Publisher
    case InstitutionColumn => Institution
    case OriginalPaperDateColumn => OriginalPaperFromDate
    case OriginalPaperPubMedIdColumn => OriginalPaperPubMedID
    case OriginalPaperDoiColumn => OriginalPaperDOI
    case RetractionDateColumn => RetractionFromDate
    case RetractionPubMedIdColumn => RetractionPubMedID
    case RetractionDoiColumn => RetractionDOI
  }

  /** The block shared by author, title and the two DOIs. */
  method PushTextCondition(filters: Filters, ghost done: seq<Column>, column: Column, conditions: seq<string>, params: seq<Value>)
    returns (conditions': seq<string>, params': seq<Value>)
    requires WellTyped(filters) && Built(filters, conditions, params, done)
    requires column in [AuthorColumn, TitleColumn, OriginalPaperDoiColumn, RetractionDoiColumn]
    ensures Built(filters, conditions', params', done + [column])
  {
    Step(filters, conditions, params, done, column);
    var value := Get(filters, FilterKey(column));
    conditions', params' := conditions, params;
    if Truthy(value) && Trim(value.s) != "" {
      var normalized := NormalizeForSearch(value.s);
      conditions' := conditions + [ConditionSql(column, TextMatch)];
      params' := params + [Str(Wrap(normalized)), Str(Wrap(Trim(ToLowerCase(value.s))))];
    }
  }

  /** The block shared by article type, journal and publisher. */
  method PushExactCondition(filters: Filters, ghost done: seq<Column>, column: Column, conditions: seq<string>, params: seq<Value>)
    returns (conditions': seq<string>, params': seq<Value>)
    requires WellTyped(filters) && Built(filters, conditions, params, done)
    requires column in [ArticleTypeColumn, JournalColumn, PublisherColumn]
    ensures Built(filters, conditions', params', done + [column])
  {
    Step(filters, conditions, params, done, column);
    var value := Get(filters, FilterKey(column));
    conditions', params' := conditions, params;
    if Truthy(value) && Trim(value.s) != "" {
      var normalized := NormalizeForSearch(value.s);
      conditions' := conditions + [ConditionSql(column, ExactMatch)];
      params' := params + [Str(normalized), Str(Trim(value.s))];
    }
  }

  lemma EmitCountry(f: Filters)
    ensures Emit(f, CountryColumn) == if TextActive(f, Country) then Some(CountryClause(Get(f, Country).s)) else None
  {
  }

  /** The country block. */
  method PushCountryCondition(filters: Filters, ghost done: seq<Column>, conditions: seq<string>, params: seq<Value>)
    returns (conditions': seq<string>, params': seq<Value>)
    requires WellTyped(filters) && Built(filters, conditions, params, done)
    ensures Built(filters, conditions', params', done + [CountryColumn])
  {
    Step(filters, conditions, params, done, CountryColumn);
    EmitCountry(filters);
    var country := Get(filters, Country);
    conditions', params' := conditions, params;
    if Truthy(country) && Trim(country.s) != "" {
      var countryNormalized := NormalizeForSearch(country.s);
      var countryLower := Trim(ToLowerCase(country.s));
      conditions' := conditions + [ConditionSql(CountryColumn, CountryMatch)];
      params' := params + [Str(Wrap(countryNormalized)), Str(Wrap(countryLower)), Str("%;" + countryLower + "%")];
    }
  }

  lemma EmitInstitution(f: Filters)
    ensures Emit(f, InstitutionColumn) ==
      if TextActive(f, Institution) || TextActive(f, Affiliation) then Some(InstitutionClause(InstitutionText(f))) else None
  {
  }

  /** The institution block, with its fallback to `affiliation`. */
  method PushInstitutionCondition(filters: Filters, ghost done: seq<Column>, conditions: seq<string>, params: seq<Value>)
    returns (conditions': seq<string>, params': seq<Value>)
    requires WellTyped(filters) && Built(filters, conditions, params, done)
    ensures Built(filters, conditions', params', done + [InstitutionColumn])
  {
    Step(filters, conditions, params, done, InstitutionColumn);
    EmitInstitution(filters);
    var institution := Get(filters, Institution);
    var affiliation := Get(filters, Affiliation);
    conditions', params' := conditions, params;
    if Truthy(institution) && Trim(institution.s) != "" {
      var institutionLower := Trim(ToLowerCase(institution.s));
      var institutionNormalized := NormalizeForSearch(institution.s);
      if IsSaveethaSearch(institutionLower) {
        conditions' := conditions + [ConditionSql(InstitutionColumn, InstitutionAliases)];
      } else {
        conditions' := conditions + [ConditionSql(InstitutionColumn, TextMatch)];
        params' := params + [Str(Wrap(institutionNormalized)), Str(Wrap(institutionLower))];
      }
    } else if Truthy(affiliation) && Trim(affiliation.s) != "" {
      var affiliationLower := Trim(ToLowerCase(affiliation.s));
      var affiliationNormalized := NormalizeForSearch(affiliation.s);
      if IsSaveethaSearch(affiliationLower) {
        conditions' := conditions + [ConditionSql(InstitutionColumn, InstitutionAliases)];
      } else {
        conditions' := conditions + [ConditionSql(InstitutionColumn, TextMatch)];
        params' := params + [Str(Wrap(affiliationNormalized)), Str(Wrap(affiliationLower))];
      }
    }
  }

  /** The block shared by the two date ranges. */
  method PushDateCondition(filters: Filters, ghost done: seq<Column>, column: Column, to: Field, conditions: seq<string>, params: seq<Value>)
    returns (conditions': seq<string>, params': seq<Value>)
    requires Built(filters, conditions, params, done)
    requires (column == OriginalPaperDateColumn && to == OriginalPaperToDate)
          || (column == RetractionDateColumn && to == RetractionToDate)
    ensures Built(filters, conditions', params', done + [column])
  {
    Step(filters, conditions, params, done, column);
    var fromValue, toValue := Get(filters, FilterKey(column)), Get(filters, to);
    conditions', params' := conditions, params;
    if Truthy(fromValue) || Truthy(toValue) {
      if Truthy(fromValue) && Truthy(toValue) {
        conditions' := conditions + [ConditionSql(column, DateBetween)];
        params' := params + [fromValue, toValue];
      } else if Truthy(fromValue) {
        conditions' := conditions + [ConditionSql(column, DateFrom)];
        params' := params + [fromValue];
      } else {
        conditions' := conditions + [ConditionSql(column, DateTo)];
        params' := params + [toValue];
      }
    }
  }

  /** The block shared by the two PubMed IDs. */
  method PushIdCondition(filters: Filters, ghost done: seq<Column>, column: Column, conditions: seq<string>, params: seq<Value>)
    returns (conditions': seq<string>, params': seq<Value>)
    requires WellTyped(filters) && Built(filters, conditions, params, done)
    requires column in [OriginalPaperPubMedIdColumn, RetractionPubMedIdColumn]
    ensures Built(filters, conditions', params', done + [column])
  {
    Step(filters, conditions, params, done, column);
    var value := Get(filters, FilterKey(column));
    conditions', params' := conditions, params;
    if Truthy(value) && Trim(value.s) != "" {
      var pubmedNormalized := RemoveWhitespace(Trim(value.s));
      conditions' := conditions + [ConditionSql(column, IdMatch)];
      params' := params + [Str(Wrap(pubmedNormalized)), Str(Wrap(Trim(value.s)))];
    }
  }

  /** `buildWhereClause(filters)`: every requested column, in the fixed
      order, contributes its condition to `where` and its values to
      `params`; the `?` placeholders of `where` and the values of `params`
      agree in number. */
  method BuildWhereClause(filters: Filters) returns (where: string, params: seq<Value>)
    requires WellTyped(filters)
    ensures where == WhereText(SqlOf(Clauses(filters)))
    ensures params == ParamsOf(Clauses(filters))
    ensures Placeholders(where) == |params|
    ensures where == "" <==> Clauses(filters) == []
  {
    var conditions: seq<string> := [];
    params := [];
    ghost var done: seq<Column> := [];
    conditions, params := PushTextCondition(filters, done, AuthorColumn, conditions, params);
    done := done + [AuthorColumn];
    conditions, params := PushTextCondition(filters, done, TitleColumn, conditions, params);
    done := done + [TitleColumn];
    conditions, params := PushExactCondition(filters, done, ArticleTypeColumn, conditions, params);
    done := done + [ArticleTypeColumn];
    conditions, params := PushCountryCondition(filters, done, conditions, params);
    done := done + [CountryColumn];
    conditions, params := PushExactCondition(filters, done, JournalColumn, conditions, params);
    done := done + [JournalColumn];
    conditions, params := PushExactCondition(filters, done, PublisherColumn, conditions, params);
    done := done + [PublisherColumn];
    conditions, params := PushInstitutionCondition(filters, done, conditions, params);
    done := done + [InstitutionColumn];
    conditions, params := PushDateCondition(filters, done, OriginalPaperDateColumn, OriginalPaperToDate, conditions, params);
    done := done + [OriginalPaperDateColumn];
    conditions, params := PushIdCondition(filters, done, OriginalPaperPubMedIdColumn, conditions, params);
    done := done + [OriginalPaperPubMedIdColumn];
    conditions, params := PushTextCondition(filters, done, OriginalPaperDoiColumn, conditions, params);
    done := done + [OriginalPaperDoiColumn];
    conditions, params := PushDateCondition(filters, done, RetractionDateColumn, RetractionToDate, conditions, params);
    done := done + [RetractionDateColumn];
    conditions, params := PushIdCondition(filters, done, RetractionPubMedIdColumn, conditions, params);
    done := done + [RetractionPubMedIdColumn];
    conditions, params := PushTextCondition(filters, done, RetractionDoiColumn, conditions, params);
    done := done + [RetractionDoiColumn];
    ColumnOrderInSteps();
    where := if |conditions| > 0 then "WHERE " + Join(conditions, " AND ") else "";
    ClausesWellFormed(filters, ColumnOrder);
    WherePlaceholders(Clauses(filters));
  }

  /** Every clause binds as many values as its kind requires. */
  lemma {:induction false} ClausesWellFormed(f: Filters, cols: seq<Column>)
    ensures forall i | 0 <= i < |ClausesOver(f, cols)| ::
      |ClausesOver(f, cols)[i].params| == Arity(ClausesOver(f, cols)[i].kind)
  {
    if cols != [] {
      ClausesWellFormed(f, cols[..|cols| - 1]);
    }
  }

  /** The placeholders of the WHERE text and the bound values match in
      number for any list of well-formed clauses. */
  lemma {:induction false} WherePlaceholders(cls: seq<Clause>)
    requires forall i | 0 <= i < |cls| :: |cls[i].params| == Arity(cls[i].kind)
    ensures Placeholders(WhereText(SqlOf(cls))) == |ParamsOf(cls)|
    ensures WhereText(SqlOf(cls)) == "" <==> cls == []
  {
    JoinPlaceholders(cls);
    if cls != [] {
      PlaceholdersAppend("WHERE ", Join(SqlOf(cls), " AND "));
      PlaceholdersOfPlain("WHERE ");
      assert "WHERE "[0] == 'W';
      assert (WhereText(SqlOf(cls)))[0] == 'W';
    }
  }

  lemma {:induction false} JoinPlaceholders(cls: seq<Clause>)
    requires forall i | 0 <= i < |cls| :: |cls[i].params| == Arity(cls[i].kind)
    ensures |SqlOf(cls)| == |cls|
    ensures Placeholders(Join(SqlOf(cls), " AND ")) == |ParamsOf(cls)|
  {
    if cls != [] {
      var init, last := cls[..|cls| - 1], cls[|cls| - 1];
      JoinPlaceholders(init);
      var sql := ConditionSql(last.column, last.kind);
      if init == [] {
        assert SqlOf(cls) == [sql];
      } else {
        JoinSnoc(SqlOf(init), sql, " AND ");
        PlaceholdersAppend3(Join(SqlOf(init), " AND "), " AND ", sql);
        PlaceholdersOfPlain(" AND ");
      }
    }
  }

  // ===========================================================================
  // Properties of the clauses

  /** The columns of `cols` that belong to `wanted`, in order. */
  function Select(wanted: set<Column>, cols: seq<Column>): seq<Column> {
    if cols == [] then []
    else Select(wanted, cols[..|cols| - 1]) + (if cols[|cols| - 1] in wanted then [cols[|cols| - 1]] else [])
  }

  /** The columns the filters ask a clause for. */
  function RequestedColumns(f: Filters): (cs: set<Column>)
    ensures forall c :: c in cs <==> Requested(f, c)
  {
    set c | c in ColumnOrder && Requested(f, c)
  }

  function ColumnsOf(cls: seq<Clause>): (cs: seq<Column>)
    ensures |cs| == |cls| && forall i | 0 <= i < |cls| :: cs[i] == cls[i].column
  {
    seq(|cls|, i requires 0 <= i < |cls| => cls[i].column)
  }

  /** The clauses name exactly the requested columns, in the same order. */
  lemma {:induction false} ClauseColumns(f: Filters, cols: seq<Column>)
    ensures ColumnsOf(ClausesOver(f, cols)) == Select(RequestedColumns(f), cols)
  {
    if cols != [] {
      ClauseColumns(f, cols[..|cols| - 1]);
      var prev := ClausesOver(f, cols[..|cols| - 1]);
      var e := Emit(f, cols[|cols| - 1]);
      assert ColumnsOf(prev + OptionList(e)) == ColumnsOf(prev) + ColumnsOf(OptionList(e));
    }
  }

  /** Over a prefix of the column order, the selected columns are exactly
      the wanted columns of that prefix. */
  lemma {:induction false} SelectPrefix(wanted: set<Column>, n: nat)
    requires n <= |ColumnOrder|
    ensures forall c | Rank(c) < n :: c in wanted <==> c in Select(wanted, ColumnOrder[..n])
    ensures forall c | c in Select(wanted, ColumnOrder[..n]) :: Rank(c) < n
  {
    if n > 0 {
      SelectPrefix(wanted, n - 1);
      assert ColumnOrder[..n][..n - 1] == ColumnOrder[..n - 1];
      var last := ColumnOrder[n - 1];
      assert Rank(last) == n - 1;
      forall c | Rank(c) < n
        ensures c in wanted <==> c in Select(wanted, ColumnOrder[..n])
      {
        if Rank(c) == n - 1 {
          assert c == last;
        }
      }
    }
  }

  /** Over a prefix of the column order, the selected columns come in
      strictly increasing rank. */
  lemma {:induction false} SelectInOrder(wanted: set<Column>, n: nat)
    requires n <= |ColumnOrder|
    ensures forall i, j | 0 <= i < j < |Select(wanted, ColumnOrder[..n])| ::
      Rank(Select(wanted, ColumnOrder[..n])[i]) < Rank(Select(wanted, ColumnOrder[..n])[j])
  {
    if n > 0 {
      SelectInOrder(wanted, n - 1);
      SelectPrefix(wanted, n - 1);
      assert ColumnOrder[..n][..n - 1] == ColumnOrder[..n - 1];
      var last := ColumnOrder[n - 1];
      assert Rank(last) == n - 1;
      var prev := Select(wanted, ColumnOrder[..n - 1]);
      var rs := Select(wanted, ColumnOrder[..n]);
      assert rs == prev + (if last in wanted then [last] else []);
      forall i, j | 0 <= i < j < |rs| ensures Rank(rs[i]) < Rank(rs[j]) {
        assert rs[i] == prev[i];
        if j == |prev| {
          assert rs[j] == last;
          assert prev[i] in prev;
          assert Rank(prev[i]) < n - 1;
        } else {
          assert rs[j] == prev[j];
          assert Rank(prev[i]) < Rank(prev[j]);
        }
      }
    }
  }

  /** `buildWhereClause` writes one clause for each requested column and
      no other, in the fixed column order; in particular no column, and so
      neither institution nor affiliation, gets two clauses. */
  lemma ClausesFollowRequests(f: Filters)
    ensures forall i, j | 0 <= i < j < |Clauses(f)| :: Rank(Clauses(f)[i].column) < Rank(Clauses(f)[j].column)
    ensures forall i, j | 0 <= i < j < |Clauses(f)| :: Clauses(f)[i].column != Clauses(f)[j].column
    ensures forall c :: Requested(f, c) <==> c in ColumnsOf(Clauses(f))
  {
    var w := RequestedColumns(f);
    SelectPrefix(w, |ColumnOrder|);
    SelectInOrder(w, |ColumnOrder|);
    assert ColumnOrder[..|ColumnOrder|] == ColumnOrder;
    ClauseColumns(f, ColumnOrder);
  }

  /** No clause at all, and so an empty `where` and no values, exactly when
      no filter is active. */
  lemma NothingRequested(f: Filters)
    ensures Clauses(f) == [] <==> forall c :: !Requested(f, c)
    ensures Clauses(f) == [] ==> ParamsOf(Clauses(f)) == [] && WhereText(SqlOf(Clauses(f))) == ""
  {
    ClausesFollowRequests(f);
    if Clauses(f) != [] {
      assert ColumnsOf(Clauses(f))[0] in ColumnsOf(Clauses(f));
    }
  }

  /** `institution` wins over `affiliation`: while it is set, the
      affiliation value has no effect; when it is not, the clause is built
      from the affiliation. */
  lemma InstitutionPrecedence(f: Filters, v: Value)
    ensures TextActive(f, Institution) ==>
      Emit(f[Affiliation := v], InstitutionColumn) == Emit(f, InstitutionColumn)
    ensures TextActive(f, Institution) ==>
      Emit(f, InstitutionColumn) == Some(InstitutionClause(Get(f, Institution).s))
    ensures !TextActive(f, Institution) && TextActive(f, Affiliation) ==>
      Emit(f, InstitutionColumn) == Some(InstitutionClause(Get(f, Affiliation).s))
  {
    assert Get(f[Affiliation := v], Institution) == Get(f, Institution);
  }

  /** Any two institution texts recognised as Saveetha/SIMATS give the
      same clause, with no bound value: the user's spelling is ignored. */
  lemma AliasIgnoresSpelling(s: string, t: string)
    requires IsSaveethaSearch(Trim(ToLowerCase(s))) && IsSaveethaSearch(Trim(ToLowerCase(t)))
    ensures InstitutionClause(s) == InstitutionClause(t)
    ensures InstitutionClause(s).kind == InstitutionAliases && InstitutionClause(s).params == []
  {
  }

  lemma {:induction false} ParamsOfAppend(a: seq<Clause>, b: seq<Clause>)
    ensures ParamsOf(a + b) == ParamsOf(a) + ParamsOf(b)
  {
    if b == [] {
      assert a + b == a;
    } else {
      var b', last := b[..|b| - 1], b[|b| - 1];
      assert (a + b)[..|a + b| - 1] == a + b';
      assert (a + b)[|a + b| - 1] == last;
      ParamsOfAppend(a, b');
    }
  }

  /** Where the values of clause `i` start in `params`. */
  function Offset(cls: seq<Clause>, i: nat): nat
    requires i <= |cls|
  {
    |ParamsOf(cls[..i])|
  }

  /** The values of each clause form one contiguous block of `params`, and
      the blocks follow the clause order: every value of a clause precedes
      every value of a later clause. */
  lemma ParamsInBlocks(cls: seq<Clause>, i: nat)
    requires i < |cls|
    ensures Offset(cls, i + 1) == Offset(cls, i) + |cls[i].params|
    ensures Offset(cls, i + 1) <= |ParamsOf(cls)|
    ensures ParamsOf(cls)[Offset(cls, i)..Offset(cls, i + 1)] == cls[i].params
  {
    assert cls[..i + 1][..i] == cls[..i];
    assert cls == cls[..i + 1] + cls[i + 1..];
    ParamsOfAppend(cls[..i + 1], cls[i + 1..]);
  }

  /** The SQL text of a list of clauses depends on their columns and kinds
      only, never on the values bound to them. */
  lemma {:induction false} SqlIgnoresValues(a: seq<Clause>, b: seq<Clause>)
    requires |a| == |b|
    requires forall i | 0 <= i < |a| :: a[i].column == b[i].column && a[i].kind == b[i].kind
    ensures SqlOf(a) == SqlOf(b)
  {
    if a != [] {
      SqlIgnoresValues(a[..|a| - 1], b[..|b| - 1]);
    }
  }

  /** The two derived texts the clause builders use are blind to a
      previous trim. */
  lemma TrimmedTexts(s: string)
    ensures NormalizeForSearch(Trim(s)) == NormalizeForSearch(s)
    ensures Trim(ToLowerCase(Trim(s))) == Trim(ToLowerCase(s))
    ensures Trim(Trim(s)) == Trim(s)
  {
    TrimOfTrimmed(s);
    TrimOfLower(s);
    TrimOfTrimmed(ToLowerCase(s));
    RemoveWhitespaceOfTrim(ToLowerCase(s));
  }

  /** Trimming a text before it reaches a clause builder changes nothing:
      every builder trims again. */
  lemma ClauseOfTrimmed(c: Column, s: string)
    ensures TextClause(c, Trim(s)) == TextClause(c, s)
    ensures ExactClause(c, Trim(s)) == ExactClause(c, s)
    ensures IdClause(c, Trim(s)) == IdClause(c, s)
  {
    TrimmedTexts(s);
  }

  lemma CountryOfTrimmed(s: string)
    ensures CountryClause(Trim(s)) == CountryClause(s)
  {
    TrimmedTexts(s);
  }

  lemma InstitutionOfTrimmed(s: string)
    ensures InstitutionClause(Trim(s)) == InstitutionClause(s)
  {
    TrimmedTexts(s);
    var l, l' := Trim(ToLowerCase(s)), Trim(ToLowerCase(Trim(s)));
    assert l == l';
    if IsSaveethaSearch(l) {
      assert IsSaveethaSearch(l');
    } else {
      assert !IsSaveethaSearch(l');
      assert TextClause(InstitutionColumn, Trim(s)) == TextClause(InstitutionColumn, s) by {
        ClauseOfTrimmed(InstitutionColumn, s);
      }
    }
  }

  /** A text filter as `buildWhereClause` reads it after cleaning. */
  lemma CleanedText(body: Filters, k: Field)
    requires WellTyped(body) && !IsDateField(k)
    ensures TextActive(CleanedFilters(body), k) <==> TextActive(body, k)
    ensures TextActive(body, k) ==> Get(CleanedFilters(body), k).s == Trim(Get(body, k).s)
  {
    CleanedTextField(body, k);
    if Get(body, k).Str? {
      TrimOfTrimmed(Get(body, k).s);
    }
  }

  /** A date filter as `buildWhereClause` reads it after cleaning. */
  lemma CleanedDate(body: Filters, k: Field)
    requires IsDateField(k)
    ensures Truthy(Get(CleanedFilters(body), k)) <==> Truthy(Get(body, k))
    ensures Truthy(Get(body, k)) ==> Get(CleanedFilters(body), k) == Get(body, k)
  {
    CleanedDateField(body, k);
  }

  /** Column by column, the cleaned filters give the same clause as the
      request body itself. */
  lemma EmitOfCleaned(body: Filters, c: Column)
    requires WellTyped(body)
    ensures Emit(CleanedFilters(body), c) == Emit(body, c)
  {
    match c
    case OriginalPaperDateColumn => EmitOfCleanedDate(body, c);
    case RetractionDateColumn => EmitOfCleanedDate(body, c);
    case InstitutionColumn => EmitOfCleanedInstitution(body);
    case CountryColumn =>
      CleanedText(body, Country);
      if TextActive(body, Country) {
        CountryOfTrimmed(Get(body, Country).s);
      }
    case _ => EmitOfCleanedText(body, c);
  }

  lemma EmitOfCleanedDate(body: Filters, c: Column)
    requires WellTyped(body)
    requires c == OriginalPaperDateColumn || c == RetractionDateColumn
    ensures Emit(CleanedFilters(body), c) == Emit(body, c)
  {
    CleanedDate(body, OriginalPaperFromDate);
    CleanedDate(body, OriginalPaperToDate);
    CleanedDate(body, RetractionFromDate);
    CleanedDate(body, RetractionToDate);
  }

  lemma EmitOfCleanedInstitution(body: Filters)
    requires WellTyped(body)
    ensures Emit(CleanedFilters(body), InstitutionColumn) == Emit(body, InstitutionColumn)
  {
    CleanedText(body, Institution);
    CleanedText(body, Affiliation);
    if Requested(body, InstitutionColumn) {
      InstitutionOfTrimmed(InstitutionText(body));
      assert InstitutionText(CleanedFilters(body)) == Trim(InstitutionText(body));
    }
  }

  lemma EmitOfCleanedText(body: Filters, c: Column)
    requires WellTyped(body)
    requires c !in [OriginalPaperDateColumn, RetractionDateColumn, InstitutionColumn, CountryColumn]
    ensures Emit(CleanedFilters(body), c) == Emit(body, c)
  {
    var k := FilterKey(c);
    CleanedText(body, k);
    if TextActive(body, k) {
      ClauseOfTrimmed(c, Get(body, k).s);
    }
  }

  /** Cleaning the request first does not change `buildWhereClause`'s
      output for a body whose text fields are strings. */
  lemma {:induction false} CleanedClauses(body: Filters, cols: seq<Column>)
    requires WellTyped(body)
    ensures ClausesOver(CleanedFilters(body), cols) == ClausesOver(body, cols)
  {
    if cols != [] {
      CleanedClauses(body, cols[..|cols| - 1]);
      EmitOfCleaned(body, cols[|cols| - 1]);
    }
  }
}

/**
 * The records of backend/models/article.py: the article and search schemas
 * with their declared defaults, and the validation FastAPI applies to the
 * body of a search request before the handler runs.
 */
module Models {
  import opened Wrappers

  /**
   * ArticleSchema, which mirrors the columns of ArticleDB. `citationsPerYear`
   * is a float in the source; here it is an exact real number.
   * Timestamps are abstract instants (`int`).
   */
  datatype Article = Article(
    id: Option<int>,
    title: string,
    authors: Option<string>,
    venue: Option<string>,
    publisher: Option<string>,
    year: Option<int>,
    citations: int,
    citationsPerYear: real,
    description: Option<string>,
    url: Option<string>,
    createdAt: Option<int>)

  /** `ArticleSchema(title=t)`: every field but the title takes its declared default. */
  function NewArticle(title: string): (a: Article)
    ensures a.title == title && a.citations == 0 && a.citationsPerYear == 0.0
    ensures a.id == None && a.authors == None && a.venue == None && a.publisher == None
    ensures a.year == None && a.description == None && a.url == None && a.createdAt == None
  {
    Article(None, title, None, None, None, None, 0, 0.0, None, None, None)
  }

  /** SearchSchema: a search with the articles attached to it. */
  datatype SearchRecord = SearchRecord(
    id: Option<int>,
    keyword: string,
    startYear: Option<int>,
    endYear: Option<int>,
    totalResults: int,
    createdAt: Option<int>,
    articles: seq<Article>)

  /** `SearchSchema(keyword=k, start_year=s, end_year=e)`: no result counted and no article yet. */
  function NewSearch(keyword: string, startYear: Option<int>, endYear: Option<int>): (s: SearchRecord)
    ensures s.keyword == keyword && s.startYear == startYear && s.endYear == endYear
    ensures s.totalResults == 0 && s.articles == [] && s.id == None && s.createdAt == None
  {
    SearchRecord(None, keyword, startYear, endYear, 0, None, [])
  }

  // ---------------------------------------------------------------------------
  // SearchRequest

  /** The request body as the client sends it: a field with a default may be absent. */
  datatype RequestBody = RequestBody(
    keyword: Option<string>,
    numResults: Option<int>,
    startYear: Option<int>,
    endYear: Option<int>,
    sortBy: Option<string>)

  /** The fields of the request body, as a validation error names them. */
  datatype RequestField = Keyword | NumResults | StartYear | EndYear | SortBy

  /** The field's name in the error's `loc`. */
  function FieldLoc(f: RequestField): string
  {
    match f
    case Keyword => "keyword"
    case NumResults => "num_results"
    case StartYear => "start_year"
    case EndYear => "end_year"
    case SortBy => "sort_by"
  }

  /** The names of the failing fields, in order. */
  function Locs(fs: seq<RequestField>): (names: seq<string>)
    ensures |names| == |fs| && forall i | 0 <= i < |fs| :: names[i] == FieldLoc(fs[i])
  {
    if fs == [] then [] else [FieldLoc(fs[0])] + Locs(fs[1..])
  }

  /** A validated SearchRequest. */
  datatype SearchRequest = SearchRequest(
    keyword: string,
    numResults: int,
    startYear: Option<int>,
    endYear: Option<int>,
    sortBy: string)

  const DefaultNumResults := 50
  const DefaultSortBy := "citations"

  predicate KeywordOk(k: Option<string>) { k.Some? && 1 <= |k.value| <= 200 }

  predicate NumResultsOk(n: int) { 10 <= n <= 1000 }

  /**
   * `Field(None, ge=1900, le=datetime.now().year)`: the bound is the year at
   * the moment the module was imported, passed in as `maxYear`.
   */
  predicate YearOk(y: Option<int>, maxYear: int) { y.None? || 1900 <= y.value <= maxYear }

  /** The anchored pattern `^(citations|citations_per_year|year)$`. */
  predicate SortByOk(s: string) { s == "citations" || s == "citations_per_year" || s == "year" }

  /**
   * Pydantic's validation of the body: defaults for absent fields, then every
   * constraint; a rejection names the failing fields in declaration order.
   */
  function Validate(body: RequestBody, maxYear: int): (r: Result<SearchRequest, seq<RequestField>>)
    ensures var n, s := body.numResults.GetOr(DefaultNumResults), body.sortBy.GetOr(DefaultSortBy);
      r.Ok? <==> KeywordOk(body.keyword) && NumResultsOk(n) && YearOk(body.startYear, maxYear)
                 && YearOk(body.endYear, maxYear) && SortByOk(s)
    ensures r.Ok? ==>
      && r.value.keyword == body.keyword.value
      && r.value.numResults == body.numResults.GetOr(DefaultNumResults)
      && r.value.startYear == body.startYear && r.value.endYear == body.endYear
      && r.value.sortBy == body.sortBy.GetOr(DefaultSortBy)
    ensures r.Err? ==>
      && r.error != []
      && (Keyword in r.error <==> !KeywordOk(body.keyword))
      && (NumResults in r.error <==> !NumResultsOk(body.numResults.GetOr(DefaultNumResults)))
      && (StartYear in r.error <==> !YearOk(body.startYear, maxYear))
      && (EndYear in r.error <==> !YearOk(body.endYear, maxYear))
      && (SortBy in r.error <==> !SortByOk(body.sortBy.GetOr(DefaultSortBy)))
  {
    var n, s := body.numResults.GetOr(DefaultNumResults), body.sortBy.GetOr(DefaultSortBy);
    var failing :=
      (if KeywordOk(body.keyword) then [] else [Keyword])
      + (if NumResultsOk(n) then [] else [NumResults])
      + (if YearOk(body.startYear, maxYear) then [] else [StartYear])
      + (if YearOk(body.endYear, maxYear) then [] else [EndYear])
      + (if SortByOk(s) then [] else [SortBy]);
    if failing == [] then Ok(SearchRequest(body.keyword.value, n, body.startYear, body.endYear, s))
    else Err(failing)
  }

  /** A body giving only a keyword is accepted exactly when the keyword has 1 to 200 characters. */
  lemma DefaultsOnlyNeedKeyword(keyword: string, maxYear: int)
    ensures var r := Validate(RequestBody(Some(keyword), None, None, None, None), maxYear);
      (r.Ok? <==> 1 <= |keyword| <= 200)
      && (r.Ok? ==> r.value == SearchRequest(keyword, 50, None, None, "citations"))
  {
  }

  /** Nothing orders the two years: a start year after the end year is accepted. */
  lemma YearOrderNotEnforced(maxYear: int)
    requires maxYear >= 2001
    ensures Validate(RequestBody(Some("x"), None, Some(2001), Some(1900), None), maxYear).Ok?
  {
  }

  /** Every accepted request has the bounds the handler and the spider rely on. */
  lemma AcceptedRequestBounds(body: RequestBody, maxYear: int)
    requires Validate(body, maxYear).Ok?
    ensures var q := Validate(body, maxYear).value;
      10 <= q.numResults <= 1000 && 1 <= |q.keyword| <= 200 && SortByOk(q.sortBy)
      && (q.startYear.Some? ==> 1900 <= q.startYear.value <= maxYear)
      && (q.endYear.Some? ==> 1900 <= q.endYear.value <= maxYear)
  {
  }
}

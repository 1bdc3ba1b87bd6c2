/**
 * The request handlers of backend/api/main.py over an in-memory model of the
 * two SQLite tables `searches` and `articles` (backend/models/article.py).
 *
 * The tables are sequences of rows in rowid order. A new row's id is one more
 * than the largest id in its table, so a deleted search's id can be reused.
 * Deleting a search also deletes its article rows (`cascade="all, delete-orphan"`).
 * Timestamps are abstract instants that the caller supplies.
 */
module Api {
  import opened Wrappers
  import opened Sorting
  import opened Models
  import Spider

  // ---------------------------------------------------------------------------
  // Ordering the spider's articles by `sort_by`

  /** `sort(key=lambda x: x.citations, reverse=True)`: larger counts first. */
  function ByCitations(a: Article, b: Article): bool { a.citations >= b.citations }

  function ByCitationsPerYear(a: Article, b: Article): bool { a.citationsPerYear >= b.citationsPerYear }

  /** `x.year or 0`. */
  function YearKey(a: Article): int { a.year.GetOr(0) }

  function ByYear(a: Article, b: Article): bool { YearKey(a) >= YearKey(b) }

  /** The comparator the `elif` chain picks, if it picks one. */
  function SortComparator(sortBy: string): Option<(Article, Article) -> bool>
  {
    if sortBy == "citations" then Some(ByCitations)
    else if sortBy == "citations_per_year" then Some(ByCitationsPerYear)
    else if sortBy == "year" then Some(ByYear)
    else None
  }

  lemma ComparatorsArePreorders(sortBy: string)
    requires SortComparator(sortBy).Some?
    ensures TotalPreorder(SortComparator(sortBy).value)
  {
  }

  /** The list after the `sort_by` block; any other value leaves it as it was. */
  function SortArticles(articles: seq<Article>, sortBy: string): (r: seq<Article>)
    ensures multiset(r) == multiset(articles)
    ensures SortComparator(sortBy).None? ==> r == articles
  {
    match SortComparator(sortBy)
    case None => articles
    case Some(le) => Sort(articles, le)
  }

  /** The result is ordered descending by the chosen key and has the input's length. */
  lemma SortArticlesDescending(articles: seq<Article>, sortBy: string)
    ensures var r := SortArticles(articles, sortBy);
      && |r| == |articles|
      && (sortBy == "citations" ==> forall i, j | 0 <= i < j < |r| :: r[i].citations >= r[j].citations)
      && (sortBy == "citations_per_year" ==>
            forall i, j | 0 <= i < j < |r| :: r[i].citationsPerYear >= r[j].citationsPerYear)
      && (sortBy == "year" ==> forall i, j | 0 <= i < j < |r| :: YearKey(r[i]) >= YearKey(r[j]))
  {
    match SortComparator(sortBy)
    case None =>
    case Some(le) =>
      ComparatorsArePreorders(sortBy);
      SortSorted(articles, le);
      SortLength(articles, le);
  }

  /** Stability: articles whose key equals `z`'s keep the spider's order. */
  lemma SortArticlesStable(articles: seq<Article>, sortBy: string, z: Article)
    requires SortComparator(sortBy).Some?
    ensures var le := SortComparator(sortBy).value;
      Filter(SortArticles(articles, sortBy), RankedWith(le, z)) == Filter(articles, RankedWith(le, z))
  {
    ComparatorsArePreorders(sortBy);
    SortStable(articles, SortComparator(sortBy).value, z);
  }

  // ---------------------------------------------------------------------------
  // Rows and the queries over them

  /** A row of `searches`. */
  datatype SearchRow = SearchRow(
    id: nat, keyword: string, startYear: Option<int>, endYear: Option<int>,
    totalResults: int, createdAt: int)

  /** A row of `articles`: its id, the search it belongs to, and its columns. */
  datatype ArticleRow = ArticleRow(id: nat, searchId: nat, article: Article)

  /** A failed request: the HTTP status and the detail. */
  datatype Failure = Failure(status: int, detail: seq<string>)

  const NotFound := Failure(404, ["Search not found"])
  const BadFormat := Failure(400, ["Invalid export format"])

  /** The body of a successful POST /api/search. */
  datatype SearchResponse = SearchResponse(
    searchId: nat, keyword: string, totalResults: int, articles: seq<Article>, message: string)

  /** SearchResponse's default `message`. */
  const Completed := "Search completed successfully"

  /** The download of GET /api/export: the file name, the media type and the articles handed to the writer. */
  datatype Download = Download(filename: string, mediaType: string, articles: seq<Article>)

  /** Ids increase along the table, so each id names one row (the primary key). */
  predicate SearchIdsIncreasing(s: seq<SearchRow>)
  {
    s == [] || ((forall x <- s[1..] :: s[0].id < x.id) && SearchIdsIncreasing(s[1..]))
  }

  predicate RowIdsIncreasing(s: seq<ArticleRow>)
  {
    s == [] || ((forall x <- s[1..] :: s[0].id < x.id) && RowIdsIncreasing(s[1..]))
  }

  /**
   * SQLite's id for a new row: one more than the largest id in use, 1 for an
   * empty table. `key` reads a row's id.
   */
  function NextId<T>(s: seq<T>, key: T -> nat): (id: nat)
    ensures id >= 1 && forall r <- s :: key(r) < id
  {
    if s == [] then 1
    else
      var rest := NextId(s[..|s| - 1], key);
      assert forall r <- s :: r in s[..|s| - 1] || r == s[|s| - 1];
      if rest > key(s[|s| - 1]) + 1 then rest else key(s[|s| - 1]) + 1
  }

  function SearchKey(r: SearchRow): nat { r.id }

  function RowKey(r: ArticleRow): nat { r.id }

  /** `select(SearchDB).where(SearchDB.id == id)`. */
  function Lookup(s: seq<SearchRow>, id: nat): (r: Option<SearchRow>)
    ensures r.Some? ==> r.value in s && r.value.id == id
    ensures r.None? <==> forall x <- s :: x.id != id
  {
    if s == [] then None else if s[0].id == id then Some(s[0]) else Lookup(s[1..], id)
  }

  /**
   * The articles of search `id` (`selectinload(SearchDB.articles)`). SQL
   * leaves their order open; they are taken here in rowid order.
   */
  function ArticlesOf(rows: seq<ArticleRow>, id: nat): (r: seq<Article>)
    ensures |r| <= |rows|
    ensures forall a <- r :: exists x <- rows :: x.searchId == id && x.article == a
  {
    if rows == [] then []
    else (if rows[0].searchId == id then [rows[0].article] else []) + ArticlesOf(rows[1..], id)
  }

  /** A search no row belongs to has no articles. */
  lemma {:induction false} ArticlesOfAbsent(rows: seq<ArticleRow>, id: nat)
    requires forall x <- rows :: x.searchId != id
    ensures ArticlesOf(rows, id) == []
  {
    if rows != [] {
      assert forall x <- rows[1..] :: x in rows;
      ArticlesOfAbsent(rows[1..], id);
    }
  }

  /** `SearchSchema.model_validate` of a stored search. */
  function Record(row: SearchRow, rows: seq<ArticleRow>): SearchRecord
  {
    SearchRecord(Some(row.id), row.keyword, row.startYear, row.endYear, row.totalResults,
                 Some(row.createdAt), ArticlesOf(rows, row.id))
  }

  lemma {:induction false} ArticlesOfAppend(a: seq<ArticleRow>, b: seq<ArticleRow>, id: nat)
    ensures ArticlesOf(a + b, id) == ArticlesOf(a, id) + ArticlesOf(b, id)
  {
    if a == [] {
      assert a + b == b;
    } else {
      var t := a[1..] + b;
      assert (a + b)[0] == a[0] && (a + b)[1..] == t;
      ArticlesOfAppend(a[1..], b, id);
      var h := if a[0].searchId == id then [a[0].article] else [];
      var x, y := ArticlesOf(a[1..], id), ArticlesOf(b, id);
      assert ArticlesOf(a + b, id) == h + (x + y);
      assert h + (x + y) == (h + x) + y;
    }
  }

  lemma {:induction false} LookupAppend(s: seq<SearchRow>, row: SearchRow, id: nat)
    ensures Lookup(s + [row], id) == if Lookup(s, id).Some? then Lookup(s, id) else if row.id == id then Some(row) else None
  {
    if s == [] {
      assert [] + [row] == [row];
    } else {
      assert (s + [row])[0] == s[0] && (s + [row])[1..] == s[1..] + [row];
      LookupAppend(s[1..], row, id);
    }
  }

  /** The table without search `id`. */
  function RemoveSearch(s: seq<SearchRow>, id: nat): (r: seq<SearchRow>)
    ensures forall x <- r :: x in s && x.id != id
    ensures forall x <- s :: x.id != id ==> x in r
  {
    if s == [] then [] else (if s[0].id != id then [s[0]] else []) + RemoveSearch(s[1..], id)
  }

  /** The `articles` table without the rows of search `id`: the cascade. */
  function RemoveRows(rows: seq<ArticleRow>, id: nat): (r: seq<ArticleRow>)
    ensures forall x <- r :: x in rows && x.searchId != id
    ensures forall x <- rows :: x.searchId != id ==> x in r
  {
    if rows == [] then [] else (if rows[0].searchId != id then [rows[0]] else []) + RemoveRows(rows[1..], id)
  }

  /** After the delete, search `id` is gone and every other search is found as before. */
  lemma {:induction false} LookupRemove(s: seq<SearchRow>, id: nat, j: nat)
    ensures Lookup(RemoveSearch(s, id), j) == if j == id then None else Lookup(s, j)
  {
    if s != [] {
      var rest := RemoveSearch(s[1..], id);
      LookupRemove(s[1..], id, j);
      if s[0].id != id {
        var r := [s[0]] + rest;
        assert RemoveSearch(s, id) == r;
        assert r[0] == s[0] && r[1..] == rest;
      } else {
        assert RemoveSearch(s, id) == [] + rest == rest;
      }
    }
  }

  /** After the cascade, search `id` has no articles and every other search keeps its own. */
  lemma {:induction false} ArticlesOfRemove(rows: seq<ArticleRow>, id: nat, j: nat)
    ensures ArticlesOf(RemoveRows(rows, id), j) == if j == id then [] else ArticlesOf(rows, j)
  {
    if rows != [] {
      ArticlesOfRemove(rows[1..], id, j);
      var head := if rows[0].searchId != id then [rows[0]] else [];
      ArticlesOfAppend(head, RemoveRows(rows[1..], id), j);
      if rows[0].searchId != id {
        assert ArticlesOf(head, j) == (if rows[0].searchId == j then [rows[0].article] else []) by {
          assert head[1..] == [];
        }
      }
    }
  }

  lemma {:induction false} RemoveSearchIncreasing(s: seq<SearchRow>, id: nat)
    requires SearchIdsIncreasing(s)
    ensures SearchIdsIncreasing(RemoveSearch(s, id))
  {
    if s != [] {
      RemoveSearchIncreasing(s[1..], id);
      var tail := RemoveSearch(s[1..], id);
      if s[0].id != id {
        assert ([s[0]] + tail)[1..] == tail;
        assert forall x <- tail :: x in s[1..];
      } else {
        assert [] + tail == tail;
      }
    }
  }

  /** A row whose id exceeds every id in the table keeps the ids increasing when appended. */
  lemma {:induction false} SearchIdsIncreasingAppend(s: seq<SearchRow>, row: SearchRow)
    requires SearchIdsIncreasing(s) && forall x <- s :: x.id < row.id
    ensures SearchIdsIncreasing(s + [row])
  {
    if s == [] {
      assert ([] + [row])[1..] == [];
    } else {
      assert (s + [row])[1..] == s[1..] + [row];
      SearchIdsIncreasingAppend(s[1..], row);
    }
  }

  lemma {:induction false} RemoveRowsIncreasing(rows: seq<ArticleRow>, id: nat)
    requires RowIdsIncreasing(rows)
    ensures RowIdsIncreasing(RemoveRows(rows, id))
  {
    if rows != [] {
      RemoveRowsIncreasing(rows[1..], id);
      var tail := RemoveRows(rows[1..], id);
      if rows[0].searchId != id {
        assert ([rows[0]] + tail)[1..] == tail;
        assert forall x <- tail :: x in rows[1..];
      } else {
        assert [] + tail == tail;
      }
    }
  }

  /** A row whose id exceeds every id in the table keeps the ids increasing when appended. */
  lemma {:induction false} RowIdsIncreasingAppend(rows: seq<ArticleRow>, row: ArticleRow)
    requires RowIdsIncreasing(rows) && forall x <- rows :: x.id < row.id
    ensures RowIdsIncreasing(rows + [row])
  {
    if rows == [] {
      assert ([] + [row])[1..] == [];
    } else {
      assert (rows + [row])[1..] == rows[1..] + [row];
      RowIdsIncreasingAppend(rows[1..], row);
    }
  }

  /** An article as the `articles` table stores it: its row id and insertion time set. */
  function Stored(a: Article, rowId: nat, now: int): Article
  {
    a.(id := Some(rowId), createdAt := Some(now))
  }

  /** The rows the insert loop adds for `arts`, numbered from `first`. */
  function StoredRows(arts: seq<Article>, searchId: nat, first: nat, now: int): (r: seq<ArticleRow>)
    ensures |r| == |arts|
    ensures forall i | 0 <= i < |r| :: r[i] == ArticleRow(first + i, searchId, Stored(arts[i], first + i, now))
  {
    if arts == [] then []
    else
      var k := |arts| - 1;
      StoredRows(arts[..k], searchId, first, now) + [ArticleRow(first + k, searchId, Stored(arts[k], first + k, now))]
  }

  /** The articles as the insert loop stores them, numbered from `first`. */
  function StoredArticles(arts: seq<Article>, first: nat, now: int): (r: seq<Article>)
    ensures |r| == |arts|
    ensures forall i | 0 <= i < |r| :: r[i] == Stored(arts[i], first + i, now)
  {
    if arts == [] then []
    else
      var k := |arts| - 1;
      StoredArticles(arts[..k], first, now) + [Stored(arts[k], first + k, now)]
  }

  lemma {:induction false} ArticlesOfStoredRows(arts: seq<Article>, searchId: nat, first: nat, now: int, j: nat)
    ensures ArticlesOf(StoredRows(arts, searchId, first, now), j)
         == if j == searchId then StoredArticles(arts, first, now) else []
  {
    if arts != [] {
      var k := |arts| - 1;
      var front := StoredRows(arts[..k], searchId, first, now);
      var last := ArticleRow(first + k, searchId, Stored(arts[k], first + k, now));
      assert StoredRows(arts, searchId, first, now) == front + [last];
      ArticlesOfStoredRows(arts[..k], searchId, first, now, j);
      ArticlesOfAppend(front, [last], j);
      assert ArticlesOf([last], j) == (if j == searchId then [last.article] else []) by {
        assert [last][1..] == [];
      }
    }
  }

  /** The inserted rows are exactly the articles of their search, in order. */
  lemma ArticlesOfStored(arts: seq<Article>, searchId: nat, first: nat, now: int, j: nat)
    ensures var got := ArticlesOf(StoredRows(arts, searchId, first, now), j);
      && (j != searchId ==> got == [])
      && (j == searchId ==> |got| == |arts| && forall i | 0 <= i < |arts| :: got[i] == Stored(arts[i], first + i, now))
  {
    ArticlesOfStoredRows(arts, searchId, first, now, j);
  }

  // ---------------------------------------------------------------------------
  // Pagination and export formats

  /** SQL's `OFFSET skip LIMIT limit` as SQLite applies it: a negative offset counts as 0, a negative limit as none. */
  function Window<T>(s: seq<T>, skip: int, limit: int): (r: seq<T>)
    ensures limit >= 0 ==> |r| <= limit
    ensures var start := if skip < 0 then 0 else skip;
      && (start >= |s| ==> r == [])
      && (start < |s| && (limit < 0 || start + limit >= |s|) ==> r == s[start..])
      && (start < |s| && 0 <= limit && start + limit < |s| ==> r == s[start..start + limit])
  {
    var start := if skip < 0 then 0 else skip;
    if start >= |s| then []
    else if limit < 0 || start + limit >= |s| then s[start..]
    else s[start..start + limit]
  }

  /** Newer first: `order_by(SearchDB.created_at.desc())`. */
  function Newer(a: SearchRow, b: SearchRow): bool { a.createdAt >= b.createdAt }

  /** The export formats: file suffix and media type. */
  function FormatInfo(format: string): (r: Option<(string, string)>)
    ensures r.Some? <==> format in {"csv", "json", "excel", "bibtex"}
  {
    if format == "csv" then Some((".csv", "text/csv"))
    else if format == "json" then Some((".json", "application/json"))
    else if format == "excel" then Some((".xlsx", "application/vnd.openxmlformats-officedocument.spreadsheetml.sheet"))
    else if format == "bibtex" then Some((".bib", "text/plain"))
    else None
  }

  /** Different formats give different suffixes and every suffix starts with a dot. */
  lemma FormatSuffixes(f: string, g: string)
    requires FormatInfo(f).Some? && FormatInfo(g).Some?
    ensures FormatInfo(f).value.0[0] == '.'
    ensures f != g ==> FormatInfo(f).value.0 != FormatInfo(g).value.0
  {
  }

  const FilePrefix := "scholar_results_"

  /** The `Content-Disposition` value of a download: `attachment; filename=<name>`. */
  const DispositionPrefix := "attachment; filename="

  /** Starlette encodes header values as latin-1, which holds the characters up to U+00FF. */
  predicate Latin1(s: string)
  {
    forall c <- s :: c as int <= 0xFF
  }

  /** The download header is encodable exactly when the keyword is. */
  lemma HeaderLatin1(keyword: string, format: string)
    requires FormatInfo(format).Some?
    ensures Latin1(DispositionPrefix + (FilePrefix + keyword + FormatInfo(format).value.0)) <==> Latin1(keyword)
  {
    var suffix := FormatInfo(format).value.0;
    ConstantsLatin1(format);
    Latin1Append(FilePrefix, keyword);
    Latin1Append(FilePrefix + keyword, suffix);
    Latin1Append(DispositionPrefix, FilePrefix + keyword + suffix);
  }

  lemma ConstantsLatin1(format: string)
    requires FormatInfo(format).Some?
    ensures Latin1(DispositionPrefix) && Latin1(FilePrefix) && Latin1(FormatInfo(format).value.0)
  {
    PrefixesLatin1();
    SuffixesLatin1();
    FormatSuffixOneOf(format);
  }

  lemma SuffixesLatin1()
    ensures Latin1(".csv") && Latin1(".json") && Latin1(".xlsx") && Latin1(".bib")
  {
  }

  lemma FormatSuffixOneOf(format: string)
    requires FormatInfo(format).Some?
    ensures var suffix := FormatInfo(format).value.0;
      suffix == ".csv" || suffix == ".json" || suffix == ".xlsx" || suffix == ".bib"
  {
  }

  lemma PrefixesLatin1()
    ensures Latin1(DispositionPrefix) && Latin1(FilePrefix)
  {
    assert Latin1(DispositionPrefix);
  }

  lemma Latin1Append(a: string, b: string)
    ensures Latin1(a + b) <==> Latin1(a) && Latin1(b)
  {
    if Latin1(a) && Latin1(b) {
      forall c <- a + b ensures c as int <= 0xFF {
        assert c in a || c in b;
      }
    }
    if Latin1(a + b) {
      forall c <- a ensures c as int <= 0xFF { assert c in a + b; }
      forall c <- b ensures c as int <= 0xFF { assert c in a + b; }
    }
  }

  /** What an unhandled exception in a handler turns into. */
  const NameErrorFailure := Failure(500, ["name 'ArticleSchema' is not defined"])
  const EncodeErrorFailure := Failure(500, ["'latin-1' codec can't encode character"])

  /** The records of a list of searches, each with its articles. */
  function Records(ws: seq<SearchRow>, rows: seq<ArticleRow>): (r: seq<SearchRecord>)
    ensures |r| == |ws|
    ensures forall i | 0 <= i < |ws| :: r[i] == Record(ws[i], rows)
  {
    if ws == [] then [] else [Record(ws[0], rows)] + Records(ws[1..], rows)
  }

  /** Primary keys are unique in both tables and no article row is orphaned. */
  ghost predicate Consistent(searches: seq<SearchRow>, rows: seq<ArticleRow>)
  {
    && SearchIdsIncreasing(searches)
    && RowIdsIncreasing(rows)
    && forall r <- rows :: Lookup(searches, r.searchId).Some?
  }

  /** A new search gets a fresh id: it is found, it has no articles yet, and the tables stay consistent. */
  lemma ConsistentNewSearch(searches: seq<SearchRow>, rows: seq<ArticleRow>, row: SearchRow)
    requires Consistent(searches, rows) && row.id == NextId(searches, SearchKey)
    ensures Consistent(searches + [row], rows)
    ensures Lookup(searches + [row], row.id) == Some(row)
    ensures ArticlesOf(rows, row.id) == []
  {
    SearchIdsIncreasingAppend(searches, row);
    LookupAppend(searches, row, row.id);
    forall x <- rows ensures Lookup(searches + [row], x.searchId).Some? && x.searchId != row.id {
      LookupAppend(searches, row, x.searchId);
    }
    ArticlesOfAbsent(rows, row.id);
  }

  /** `search_record.total_results = ...`: rewriting the new search's row keeps the tables consistent. */
  lemma ConsistentRetotal(before: seq<SearchRow>, pending: SearchRow, row: SearchRow, rows: seq<ArticleRow>)
    requires SearchIdsIncreasing(before) && pending.id == row.id == NextId(before, SearchKey)
    requires Consistent(before + [pending], rows)
    ensures Consistent(before + [row], rows)
    ensures Lookup(before + [row], row.id) == Some(row)
  {
    SearchIdsIncreasingAppend(before, row);
    LookupAppend(before, row, row.id);
    forall x <- rows ensures Lookup(before + [row], x.searchId).Some? {
      LookupAppend(before, pending, x.searchId);
      LookupAppend(before, row, x.searchId);
    }
  }

  /** Inserting a search's articles, numbered after the largest row id, keeps the tables consistent. */
  lemma {:induction false} ConsistentAddRows(searches: seq<SearchRow>, rows: seq<ArticleRow>,
                                             arts: seq<Article>, id: nat, now: int)
    requires Consistent(searches, rows) && Lookup(searches, id).Some?
    ensures Consistent(searches, rows + StoredRows(arts, id, NextId(rows, RowKey), now))
  {
    var first := NextId(rows, RowKey);
    if arts != [] {
      var k := |arts| - 1;
      var last := ArticleRow(first + k, id, Stored(arts[k], first + k, now));
      var front := rows + StoredRows(arts[..k], id, first, now);
      ConsistentAddRows(searches, rows, arts[..k], id, now);
      assert rows + StoredRows(arts, id, first, now) == front + [last];
      forall x <- front ensures x.id < last.id {
        if x !in rows {
          var i :| 0 <= i < |StoredRows(arts[..k], id, first, now)| && StoredRows(arts[..k], id, first, now)[i] == x;
        }
      }
      RowIdsIncreasingAppend(front, last);
    } else {
      assert rows + StoredRows(arts, id, first, now) == rows;
    }
  }

  // ---------------------------------------------------------------------------
  // The store

  class Store {
    /** The `searches` table, in rowid order. */
    var searches: seq<SearchRow>
    /** The `articles` table, in rowid order. */
    var articleRows: seq<ArticleRow>

    ghost predicate Valid()
      reads this
    {
      Consistent(searches, articleRows)
    }

    constructor()
      ensures Valid() && searches == [] && articleRows == []
    {
      searches := [];
      articleRows := [];
    }

    /** The `for article in articles: db.add(ArticleDB(...))` loop. */
    method InsertArticles(id: nat, articles: seq<Article>, now: int)
      modifies this
      ensures searches == old(searches)
      ensures articleRows == old(articleRows) + StoredRows(articles, id, NextId(old(articleRows), RowKey), now)
    {
      var first := NextId(articleRows, RowKey);
      ghost var rows0 := articleRows;
      var k := 0;
      while k < |articles|
        invariant 0 <= k <= |articles|
        invariant searches == old(searches)
        invariant articleRows == rows0 + StoredRows(articles[..k], id, first, now)
      {
        assert articles[..k + 1][..k] == articles[..k];
        articleRows := articleRows + [ArticleRow(first + k, id, Stored(articles[k], first + k, now))];
        k := k + 1;
      }
      assert articles[..k] == articles;
    }

    /**
     * POST /api/search. An invalid body is refused with 422 before anything is
     * stored. Otherwise the search row is committed with no results; if the
     * spider (or anything after it) raises, the pending article rows are rolled
     * back and the answer is 500. Otherwise the articles, sorted by `sort_by`,
     * are inserted in order and `total_results` becomes their number.
     */
    method SubmitSearch(body: RequestBody, maxYear: int, now: int, currentYear: int,
                        fetch: string -> Option<seq<Spider.Div>>, raises: bool)
      returns (r: Result<SearchResponse, Failure>)
      requires Valid()
      modifies this
      ensures Valid()
      ensures Validate(body, maxYear).Err? ==>
        && r == Err(Failure(422, Locs(Validate(body, maxYear).error)))
        && searches == old(searches) && articleRows == old(articleRows)
      ensures Validate(body, maxYear).Ok? ==>
        var q := Validate(body, maxYear).value;
        var id := NextId(old(searches), SearchKey);
        var arts := SortArticles(Spider.SearchResult(q.keyword, q.numResults, q.startYear, q.endYear, currentYear, fetch), q.sortBy);
        && (raises ==>
              && r == Err(Failure(500, []))
              && searches == old(searches) + [SearchRow(id, q.keyword, q.startYear, q.endYear, 0, now)]
              && articleRows == old(articleRows))
        && (!raises ==>
              && r == Ok(SearchResponse(id, q.keyword, |arts|, arts, Completed))
              && searches == old(searches) + [SearchRow(id, q.keyword, q.startYear, q.endYear, |arts|, now)]
              && articleRows == old(articleRows) + StoredRows(arts, id, NextId(old(articleRows), RowKey), now)
              && Lookup(searches, id).Some?
              && Lookup(searches, id).value.totalResults == |ArticlesOf(articleRows, id)| == |arts|)
    {
      var checked := Validate(body, maxYear);
      if checked.Err? {
        return Err(Failure(422, Locs(checked.error)));
      }
      var q := checked.value;
      var before := searches;
      var id := NextId(searches, SearchKey);
      var pending := SearchRow(id, q.keyword, q.startYear, q.endYear, 0, now);
      ConsistentNewSearch(searches, articleRows, pending);
      searches := searches + [pending];
      if raises {
        return Err(Failure(500, []));
      }
      var articles := Spider.Search(q.keyword, q.numResults, q.startYear, q.endYear, currentYear, fetch);
      articles := SortArticles(articles, q.sortBy);
      ghost var rowsBefore := articleRows;
      InsertArticles(id, articles, now);
      ghost var added := StoredRows(articles, id, NextId(rowsBefore, RowKey), now);
      ConsistentAddRows(searches, rowsBefore, articles, id, now);
      var row := SearchRow(id, q.keyword, q.startYear, q.endYear, |articles|, now);
      ConsistentRetotal(before, pending, row, articleRows);
      searches := before + [row];
      ArticlesOfAppend(rowsBefore, added, id);
      ArticlesOfStored(articles, id, NextId(rowsBefore, RowKey), now, id);
      r := Ok(SearchResponse(id, q.keyword, |articles|, articles, Completed));
    }

    /**
     * GET /api/searches: stored searches newest first, then `skip` and
     * `limit`. SQL leaves the order of equal `created_at` values open; they
     * are taken here in rowid order.
     */
    function History(skip: int, limit: int): (r: seq<SearchRecord>)
      reads this
      ensures limit >= 0 ==> |r| <= limit
      ensures AllStored(searches, r)
      ensures RecentFirst(r)
      ensures var start := if skip < 0 then 0 else skip;
        |r| == if start >= |searches| then 0
               else if limit < 0 || start + limit > |searches| then |searches| - start
               else limit
      ensures var ordered, start := Sort(searches, Newer), if skip < 0 then 0 else skip;
        forall i | 0 <= i < |r| :: start + i < |ordered| && r[i] == Record(ordered[start + i], articleRows)
    {
      HistoryRecords(searches, articleRows, skip, limit);
      HistoryWindow(searches, articleRows, skip, limit);
      Records(Window(Sort(searches, Newer), skip, limit), articleRows)
    }

    /** GET /api/search/{id}: the search with its articles, or 404. */
    function Details(id: nat): (r: Result<SearchRecord, Failure>)
      reads this
      ensures r.Err? <==> Lookup(searches, id).None?
      ensures r.Err? ==> r.error == NotFound
      ensures r.Ok? ==>
        var row := Lookup(searches, id).value;
        && r.value.id == Some(id) && r.value.articles == ArticlesOf(articleRows, id)
        && r.value.keyword == row.keyword && r.value.startYear == row.startYear
        && r.value.endYear == row.endYear && r.value.totalResults == row.totalResults
        && r.value.createdAt == Some(row.createdAt)
    {
      match Lookup(searches, id)
      case None => Err(NotFound)
      case Some(row) => Ok(Record(row, articleRows))
    }

    /**
     * GET /api/export/{id} as the handler is evidently meant to work: 404 for
     * an unknown id (checked before the format), 400 for an unknown format,
     * otherwise a download named after the keyword with the format's suffix,
     * whatever characters the keyword holds.
     */
    function ExportSearch(id: nat, format: string): (r: Result<Download, Failure>)
      reads this
      ensures Lookup(searches, id).None? ==> r == Err(NotFound)
      ensures Lookup(searches, id).Some? && FormatInfo(format).None? ==> r == Err(BadFormat)
      ensures r.Ok? <==> Lookup(searches, id).Some? && FormatInfo(format).Some?
      ensures r.Ok? ==>
        var suffix := FormatInfo(format).value.0;
        && r.value.filename == FilePrefix + Lookup(searches, id).value.keyword + suffix
        && r.value.mediaType == FormatInfo(format).value.1
        && r.value.articles == ArticlesOf(articleRows, id)
    {
      match Lookup(searches, id)
      case None => Err(NotFound)
      case Some(row) =>
        match FormatInfo(format)
        case None => Err(BadFormat)
        case Some((suffix, media)) => Ok(Download(FilePrefix + row.keyword + suffix, media, ArticlesOf(articleRows, id)))
    }

    /**
     * GET /api/export/{id} as written. The list comprehension names
     * `ArticleSchema`, which main.py never imports, once per article: a
     * search with articles fails with 500 before the format is looked at.
     * A search without articles reaches the format check, and then the
     * header, which fails with 500 when the keyword is not latin-1.
     */
    function ExportAsWritten(id: nat, format: string): (r: Result<Download, Failure>)
      reads this
      ensures Lookup(searches, id).None? ==> r == Err(NotFound)
      ensures Lookup(searches, id).Some? && ArticlesOf(articleRows, id) != [] ==> r.Err? && r.error.status == 500
      ensures Lookup(searches, id).Some? && ArticlesOf(articleRows, id) == [] && FormatInfo(format).None? ==>
        r == Err(BadFormat)
      ensures (&& Lookup(searches, id).Some? && ArticlesOf(articleRows, id) == [] && FormatInfo(format).Some?
               && !Latin1(Lookup(searches, id).value.keyword)) ==> r.Err? && r.error.status == 500
      ensures r.Ok? <==>
        && Lookup(searches, id).Some? && ArticlesOf(articleRows, id) == []
        && FormatInfo(format).Some? && Latin1(Lookup(searches, id).value.keyword)
      ensures r.Ok? ==> r.value.articles == [] && ExportSearch(id, format) == r
    {
      match Lookup(searches, id)
      case None => Err(NotFound)
      case Some(row) =>
        if ArticlesOf(articleRows, id) != [] then Err(NameErrorFailure)
        else
          match FormatInfo(format)
          case None => Err(BadFormat)
          case Some((suffix, media)) =>
            var filename := FilePrefix + row.keyword + suffix;
            HeaderLatin1(row.keyword, format);
            if !Latin1(DispositionPrefix + filename) then Err(EncodeErrorFailure)
            else Ok(Download(filename, media, []))
    }

    /** DELETE /api/search/{id}: 404 for an unknown id, else the search and its articles are removed. */
    method Delete(id: nat) returns (r: Result<string, Failure>)
      requires Valid()
      modifies this
      ensures Valid()
      ensures old(Lookup(searches, id)).None? ==>
        r == Err(NotFound) && searches == old(searches) && articleRows == old(articleRows)
      ensures old(Lookup(searches, id)).Some? ==>
        && r == Ok("Search deleted successfully")
        && searches == RemoveSearch(old(searches), id)
        && articleRows == RemoveRows(old(articleRows), id)
    {
      if Lookup(searches, id).None? {
        return Err(NotFound);
      }
      ghost var s0, rows0 := searches, articleRows;
      searches := RemoveSearch(searches, id);
      articleRows := RemoveRows(articleRows, id);
      RemoveSearchIncreasing(s0, id);
      RemoveRowsIncreasing(rows0, id);
      forall x <- articleRows ensures Lookup(searches, x.searchId).Some? {
        LookupRemove(s0, id, x.searchId);
      }
      r := Ok("Search deleted successfully");
    }
  }

  // ---------------------------------------------------------------------------
  // Properties of the handlers' specifications

  /** A window is a contiguous piece of the list, so it keeps the list's order and holds only its elements. */
  lemma WindowOfSorted<T>(s: seq<T>, skip: int, limit: int, le: (T, T) -> bool)
    requires SortedBy(s, le)
    ensures SortedBy(Window(s, skip, limit), le)
    ensures forall x <- Window(s, skip, limit) :: x in s
  {
    var w := Window(s, skip, limit);
    var start := if skip < 0 then 0 else skip;
    if start < |s| {
      var e := if limit < 0 || start + limit >= |s| then |s| else start + limit;
      assert w == s[start..e];
      forall i, j | 0 <= i < j < |w| ensures le(w[i], w[j]) {
        assert w[i] == s[start + i] && w[j] == s[start + j];
      }
      forall x <- w ensures x in s {
        var i :| 0 <= i < |w| && w[i] == x;
        assert s[start + i] == x;
      }
    }
  }

  /** Searches listed newest first. */
  predicate RowsRecentFirst(ws: seq<SearchRow>)
  {
    forall i, j | 0 <= i < j < |ws| :: ws[i].createdAt >= ws[j].createdAt
  }

  /** Every record carries an id and an instant, and its id names a stored search. */
  predicate AllStored(searches: seq<SearchRow>, r: seq<SearchRecord>)
  {
    forall x <- r :: x.id.Some? && x.createdAt.Some? && x.id.value >= 0 && Lookup(searches, x.id.value).Some?
  }

  /** Newest first: the instants do not increase along the list. */
  predicate RecentFirst(r: seq<SearchRecord>)
  {
    forall i, j | 0 <= i < j < |r| :: r[i].createdAt.GetOr(0) >= r[j].createdAt.GetOr(0)
  }

  /** The history is newest first, holds at most `limit` searches, and only stored ones. */
  lemma HistoryShape(searches: seq<SearchRow>, skip: int, limit: int)
    ensures var w := Window(Sort(searches, Newer), skip, limit);
      && (limit >= 0 ==> |w| <= limit)
      && RowsRecentFirst(w)
      && (forall x <- w :: x in searches)
  {
    var ordered := Sort(searches, Newer);
    SortSorted(searches, Newer);
    SortMembers(searches, Newer);
    WindowOfSorted(ordered, skip, limit, Newer);
    var w := Window(ordered, skip, limit);
    forall i, j | 0 <= i < j < |w| ensures w[i].createdAt >= w[j].createdAt {
      assert Newer(w[i], w[j]);
    }
  }

  lemma HistoryRecords(searches: seq<SearchRow>, rows: seq<ArticleRow>, skip: int, limit: int)
    ensures var r := Records(Window(Sort(searches, Newer), skip, limit), rows);
      && (limit >= 0 ==> |r| <= limit)
      && AllStored(searches, r)
      && RecentFirst(r)
  {
    var w := Window(Sort(searches, Newer), skip, limit);
    HistoryShape(searches, skip, limit);
    RecordsStored(searches, w, rows);
    RecordsRecent(w, rows);
  }

  /**
   * Which searches a history page holds: entry `i` is the record of the
   * stored search at position `skip + i` of the newest-first order, and the
   * page is as long as `limit` allows and the table provides.
   */
  lemma HistoryWindow(searches: seq<SearchRow>, rows: seq<ArticleRow>, skip: int, limit: int)
    ensures var ordered, start := Sort(searches, Newer), if skip < 0 then 0 else skip;
      var r := Records(Window(ordered, skip, limit), rows);
      && |r| == (if start >= |searches| then 0
                 else if limit < 0 || start + limit > |searches| then |searches| - start
                 else limit)
      && forall i | 0 <= i < |r| :: start + i < |ordered| && r[i] == Record(ordered[start + i], rows)
  {
    var ordered := Sort(searches, Newer);
    SortLength(searches, Newer);
    WindowEntries(ordered, skip, limit);
  }

  /** Entry `i` of a window is entry `skip + i` of the whole list. */
  lemma WindowEntries<T>(s: seq<T>, skip: int, limit: int)
    ensures var start, w := if skip < 0 then 0 else skip, Window(s, skip, limit);
      && |w| == (if start >= |s| then 0
                 else if limit < 0 || start + limit > |s| then |s| - start
                 else limit)
      && forall i | 0 <= i < |w| :: start + i < |s| && w[i] == s[start + i]
  {
  }

  /**
   * The page with no offset and no limit lists every stored search, each
   * as often as it is stored; with the table's unique ids, once each.
   */
  lemma HistoryListsAll(searches: seq<SearchRow>, rows: seq<ArticleRow>)
    requires SearchIdsIncreasing(searches)
    ensures var w := Window(Sort(searches, Newer), 0, -1);
      var r := Records(w, rows);
      && multiset(w) == multiset(searches)
      && |r| == |searches|
      && (forall x <- searches :: Record(x, rows) in r)
      && (forall i, j | 0 <= i < j < |r| :: r[i].id != r[j].id)
  {
    var ordered := Sort(searches, Newer);
    SortLength(searches, Newer);
    var w := Window(ordered, 0, -1);
    assert w == ordered;
    RecordsCover(searches, w, rows);
    PermutedIdsDistinct(searches, w);
    RecordIdsDistinct(w, rows);
  }

  /** A rearrangement of the table yields a record of every stored search. */
  lemma RecordsCover(searches: seq<SearchRow>, w: seq<SearchRow>, rows: seq<ArticleRow>)
    requires multiset(w) == multiset(searches)
    ensures forall x <- searches :: Record(x, rows) in Records(w, rows)
  {
    var r := Records(w, rows);
    forall x <- searches ensures Record(x, rows) in r {
      assert x in multiset(searches);
      var i :| 0 <= i < |w| && w[i] == x;
      assert r[i] == Record(x, rows);
    }
  }

  /** Searches with distinct ids yield records with distinct ids. */
  lemma RecordIdsDistinct(w: seq<SearchRow>, rows: seq<ArticleRow>)
    requires forall i, j | 0 <= i < j < |w| :: w[i].id != w[j].id
    ensures var r := Records(w, rows); forall i, j | 0 <= i < j < |r| :: r[i].id != r[j].id
  {
    var r := Records(w, rows);
    forall i, j | 0 <= i < j < |r| ensures r[i].id != r[j].id {
      assert r[i].id == Some(w[i].id) && r[j].id == Some(w[j].id);
    }
  }

  /** A rearrangement of a table with increasing ids has no repeated id. */
  lemma PermutedIdsDistinct(searches: seq<SearchRow>, w: seq<SearchRow>)
    requires SearchIdsIncreasing(searches) && multiset(w) == multiset(searches)
    ensures forall i, j | 0 <= i < j < |w| :: w[i].id != w[j].id
  {
    IncreasingIdsOrdered(searches);
    assert Distinct(searches);
    PermutationDistinct(searches, w);
    forall i, j | 0 <= i < j < |w| ensures w[i].id != w[j].id {
      assert w[i] in multiset(searches) && w[j] in multiset(searches);
      var k :| 0 <= k < |searches| && searches[k] == w[i];
      var l :| 0 <= l < |searches| && searches[l] == w[j];
      assert k != l;
    }
  }

  /** Along a table whose ids increase, every id is below every later one. */
  lemma {:induction false} IncreasingIdsOrdered(s: seq<SearchRow>)
    requires SearchIdsIncreasing(s)
    ensures forall i, j | 0 <= i < j < |s| :: s[i].id < s[j].id
  {
    if s != [] {
      IncreasingIdsOrdered(s[1..]);
      forall i, j | 0 <= i < j < |s| ensures s[i].id < s[j].id {
        if i == 0 {
          assert s[j] == s[1..][j - 1];
        } else {
          assert s[i] == s[1..][i - 1] && s[j] == s[1..][j - 1];
        }
      }
    }
  }

  /** The records of stored searches are stored records. */
  lemma RecordsStored(searches: seq<SearchRow>, ws: seq<SearchRow>, rows: seq<ArticleRow>)
    requires forall x <- ws :: x in searches
    ensures AllStored(searches, Records(ws, rows))
  {
    var r := Records(ws, rows);
    forall x <- r ensures x.id.Some? && x.createdAt.Some? && x.id.value >= 0 && Lookup(searches, x.id.value).Some? {
      var i :| 0 <= i < |r| && r[i] == x;
      assert ws[i] in searches && x == Record(ws[i], rows);
    }
  }

  /** The records of searches listed newest first are listed newest first. */
  lemma RecordsRecent(ws: seq<SearchRow>, rows: seq<ArticleRow>)
    requires RowsRecentFirst(ws)
    ensures RecentFirst(Records(ws, rows))
  {
    var r := Records(ws, rows);
    forall i, j | 0 <= i < j < |r| ensures r[i].createdAt.GetOr(0) >= r[j].createdAt.GetOr(0) {
      assert r[i] == Record(ws[i], rows) && r[j] == Record(ws[j], rows);
    }
  }


  /** The first page and the following page, taken together, are the first `a + b` entries of the history. */
  lemma HistoryPagesJoin<T>(s: seq<T>, a: nat, b: nat)
    ensures Window(s, 0, a) + Window(s, a, b) == Window(s, 0, a + b)
  {
  }

  /** As written, the export of a stored search with articles never succeeds, whatever the format; as intended, csv succeeds. */
  lemma ExportFinding(store: Store, id: nat)
    requires Lookup(store.searches, id).Some? && ArticlesOf(store.articleRows, id) != []
    ensures forall format :: store.ExportAsWritten(id, format).Err? && store.ExportAsWritten(id, format).error.status == 500
    ensures store.ExportSearch(id, "csv").Ok?
  {
  }

  /**
   * As written, a search without articles whose keyword is "深度学习" gets
   * 500 in every known format, because its filename cannot go into the
   * header; as intended, csv succeeds.
   */
  lemma HeaderFinding(store: Store, id: nat)
    requires Lookup(store.searches, id).Some? && ArticlesOf(store.articleRows, id) == []
    requires Lookup(store.searches, id).value.keyword == "\U{6DF1}\U{5EA6}\U{5B66}\U{4E60}"
    ensures forall format | FormatInfo(format).Some? ::
      store.ExportAsWritten(id, format).Err? && store.ExportAsWritten(id, format).error.status == 500
    ensures store.ExportSearch(id, "csv").Ok?
  {
    assert !Latin1(Lookup(store.searches, id).value.keyword) by {
      var k := Lookup(store.searches, id).value.keyword;
      assert k[0] in k && k[0] as int == 0x6DF1;
    }
  }

  /** For a search without articles and a latin-1 keyword, the export as written is the intended one. */
  lemma ExportWithoutArticles(store: Store, id: nat, format: string)
    requires Lookup(store.searches, id).Some? && ArticlesOf(store.articleRows, id) == []
    requires Latin1(Lookup(store.searches, id).value.keyword)
    ensures store.ExportAsWritten(id, format) == store.ExportSearch(id, format)
  {
  }

}

/**
 * The filters of frontend/src/pages/ResultsPage.tsx: the list of shown
 * articles under a year filter and a minimum citation count, the year
 * options offered in the drop-down, and how the two inputs are read.
 * Rendering is not modelled.
 */
module ResultsPage {
  import opened Wrappers
  import opened Text
  import opened Sorting
  import opened Models
  import opened Years

  /**
   * The filter callback. A falsy year filter (none, or 0) lets every year
   * through; a truthy one needs the article's year to be exactly that
   * number, so an article without a year is hidden by it.
   */
  predicate Shown(a: Article, filterYear: Option<int>, minCitations: int)
  {
    && (filterYear.None? || filterYear.value == 0 || a.year == filterYear)
    && a.citations >= minCitations
  }

  /** `search.articles?.filter(...) || []`. */
  function FilteredArticles(articles: Option<seq<Article>>, filterYear: Option<int>, minCitations: int)
    : (shown: seq<Article>)
    ensures articles.None? ==> shown == []
    ensures articles.Some? ==> |shown| <= |articles.value|
    ensures forall a <- shown :: articles.Some? && a in articles.value && Shown(a, filterYear, minCitations)
    ensures articles.Some? ==> forall a <- articles.value :: Shown(a, filterYear, minCitations) ==> a in shown
  {
    match articles
    case None => []
    case Some(s) =>
      FilterKeeps(s, a => Shown(a, filterYear, minCitations));
      Filter(s, a => Shown(a, filterYear, minCitations))
  }

  /** The page opens with no year filter and a minimum of 0: every article with a count of at least 0 is shown, in order. */
  lemma InitialFilterShowsAll(articles: seq<Article>)
    requires forall a <- articles :: a.citations >= 0
    ensures FilteredArticles(Some(articles), None, 0) == articles
  {
    FilterAll(articles, a => Shown(a, None, 0));
  }

  /**
   * Raising the minimum only removes articles: the list shown for the higher
   * minimum is the list shown for the lower one, filtered again, so it keeps
   * the order received from the backend.
   */
  lemma RaisingMinimumNarrows(articles: seq<Article>, filterYear: Option<int>, low: int, high: int)
    requires low <= high
    ensures FilteredArticles(Some(articles), filterYear, high)
         == Filter(FilteredArticles(Some(articles), filterYear, low), (a: Article) => a.citations >= high)
  {
    FilterFilter(articles, a => Shown(a, filterYear, low), (a: Article) => a.citations >= high,
                 a => Shown(a, filterYear, high));
  }

  /** The comparator `(a, b) => b - a`, read as "a may come first". */
  function Descending(a: int, b: int): bool
  {
    b - a <= 0
  }

  lemma DescendingIsPreorder()
    ensures TotalPreorder(Descending)
  {
  }

  /**
   * `yearOptions`: the distinct truthy years, newest first. Without articles
   * there are none.
   */
  function YearOptions(articles: Option<seq<Article>>): (years: seq<int>)
    ensures forall i, j | 0 <= i < j < |years| :: years[i] > years[j]
    ensures forall y :: y in years <==> articles.Some? && y in YearSet(articles.value)
    ensures 0 !in years
  {
    match articles
    case None => []
    case Some(s) =>
      var ys := DistinctYears(s);
      NewestFirst(ys);
      assert forall y :: y in Sort(ys, Descending) <==> y in YearSet(s);
      assert 0 !in ys;
      Sort(ys, Descending)
  }

  lemma NewestFirst(ys: seq<int>)
    requires Distinct(ys)
    ensures var r := Sort(ys, Descending);
      (forall i, j | 0 <= i < j < |r| :: r[i] > r[j]) && (forall y :: y in r <==> y in ys)
  {
    var r := Sort(ys, Descending);
    DescendingIsPreorder();
    SortSorted(ys, Descending);
    SortDistinct(ys, Descending);
    SortSameElements(ys, Descending);
    forall i, j | 0 <= i < j < |r| ensures r[i] > r[j] {
      assert Descending(r[i], r[j]) && r[i] != r[j];
    }
  }

  /** The drop-down's `onChange`: the empty "All Years" value clears the filter, any other is parsed. */
  function YearFromSelect(value: string): (filterYear: Option<int>)
    ensures value == "" ==> filterYear.None?
  {
    if value == "" then None else JsParseInt(value)
  }

  /** Choosing the option rendered for a year filters by that year. */
  lemma SelectedOptionFilters(year: int)
    ensures YearFromSelect(IntToString(year)) == Some(year)
  {
    JsParseIntOfDecimal(year);
  }

  /** The minimum-citations input's `onChange`: `parseInt(value) || 0`. */
  function MinimumFromInput(value: string): (minimum: int)
    ensures JsParseInt(value).None? ==> minimum == 0
    ensures value == "" ==> minimum == 0
  {
    match JsParseInt(value)
    case Some(n) => n
    case None => 0
  }

  /** Typing a number sets the minimum to that number; negative numbers included, as `min="0"` does not stop them. */
  lemma MinimumOfTypedNumber(n: int)
    ensures MinimumFromInput(IntToString(n)) == n
  {
    JsParseIntOfDecimal(n);
  }
}

/**
 * The publication years the results page and the citation chart read off a
 * list of articles. Both keep only truthy years: a year that is present and
 * non-zero, as JavaScript's `if (article.year)` and `.filter(Boolean)` do.
 */
module Years {
  import opened Sorting
  import opened Models

  /** JavaScript truthiness of `article.year`. */
  predicate HasYear(a: Article)
  {
    a.year.Some? && a.year.value != 0
  }

  /** Every truthy year among the articles. */
  function YearSet(articles: seq<Article>): set<int>
  {
    set a <- articles | HasYear(a) :: a.year.value
  }

  lemma YearSetAppend(articles: seq<Article>, a: Article)
    ensures YearSet(articles + [a]) == YearSet(articles) + (if HasYear(a) then {a.year.value} else {})
  {
    var both := articles + [a];
    forall y ensures y in YearSet(both) <==> y in YearSet(articles) || (HasYear(a) && y == a.year.value) {
      if y in YearSet(both) {
        var b :| b in both && HasYear(b) && b.year.value == y;
        if b != a {
          var k :| 0 <= k < |both| && both[k] == b;
          assert k < |articles| && articles[k] == b;
        }
      }
      if y in YearSet(articles) {
        var b :| b in articles && HasYear(b) && b.year.value == y;
        var k :| 0 <= k < |articles| && articles[k] == b;
        assert both[k] == b;
      }
      if HasYear(a) && y == a.year.value {
        assert both[|articles|] == a;
      }
    }
  }

  /** `articles.map(a => a.year).filter(Boolean)`: the truthy years in article order. */
  function YearList(articles: seq<Article>): (ys: seq<int>)
    ensures forall y <- ys :: y != 0
    ensures forall y :: y in ys <==> y in YearSet(articles)
  {
    if articles == [] then []
    else
      var init, last := articles[..|articles| - 1], articles[|articles| - 1];
      assert articles == init + [last];
      YearSetAppend(init, last);
      YearList(init) + (if HasYear(last) then [last.year.value] else [])
  }

  /** `[...new Set(ys)]`: the first occurrence of every value, in order. */
  function Dedup(ys: seq<int>): (d: seq<int>)
    ensures Distinct(d)
    ensures forall y :: y in d <==> y in ys
  {
    if ys == [] then []
    else
      var d := Dedup(ys[..|ys| - 1]);
      var last := ys[|ys| - 1];
      assert ys == ys[..|ys| - 1] + [last];
      if last in d then d
      else
        var r := d + [last];
        assert forall i, j | 0 <= i < j < |r| :: r[i] != r[j] by {
          forall i, j | 0 <= i < j < |r| ensures r[i] != r[j] {
            if j == |d| { assert r[i] == d[i]; } else { assert r[i] == d[i] && r[j] == d[j]; }
          }
        }
        r
  }

  /** The distinct truthy years of the articles. */
  function DistinctYears(articles: seq<Article>): (ys: seq<int>)
    ensures Distinct(ys)
    ensures forall y <- ys :: y != 0
    ensures forall y :: y in ys <==> y in YearSet(articles)
  {
    Dedup(YearList(articles))
  }
}

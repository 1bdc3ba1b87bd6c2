/**
 * The data of frontend/src/components/CitationChart.tsx: citations summed
 * per truthy publication year, the years ordered by the array's default
 * sort, and the bar labels and heights read off them. Chart.js drawing is
 * not modelled.
 */
module CitationChart {
  import opened Text
  import opened Sorting
  import opened Models
  import opened Years

  /** The citations of the articles published in year `y`: the height of that year's bar. */
  function Bucket(articles: seq<Article>, y: int): int
  {
    if articles == [] then 0
    else
      var last := articles[|articles| - 1];
      Bucket(articles[..|articles| - 1], y) + (if HasYear(last) && last.year.value == y then last.citations else 0)
  }

  /** The citations of every article with a truthy year: what the chart shows in all. */
  function TotalCitations(articles: seq<Article>): int
  {
    if articles == [] then 0
    else
      var last := articles[|articles| - 1];
      TotalCitations(articles[..|articles| - 1]) + (if HasYear(last) then last.citations else 0)
  }

  lemma BucketAppend(articles: seq<Article>, a: Article, y: int)
    ensures Bucket(articles + [a], y) == Bucket(articles, y) + (if HasYear(a) && a.year.value == y then a.citations else 0)
  {
    assert (articles + [a])[..|articles|] == articles;
  }

  lemma {:induction false} BucketOutside(articles: seq<Article>, y: int)
    requires y !in YearSet(articles)
    ensures Bucket(articles, y) == 0
  {
    if articles != [] {
      var init, last := articles[..|articles| - 1], articles[|articles| - 1];
      assert articles == init + [last];
      YearSetAppend(init, last);
      BucketOutside(init, y);
    }
  }

  /** `acc` holds, for each truthy year of `articles` and for no other key, the citations of that year. */
  predicate Accumulates(acc: map<int, int>, articles: seq<Article>)
  {
    acc.Keys == YearSet(articles) && forall y | y in acc :: acc[y] == Bucket(articles, y)
  }

  /** One call of the `reduce` callback keeps the accumulator exact for one more article. */
  lemma AccumulateStep(acc: map<int, int>, articles: seq<Article>, a: Article, next: map<int, int>)
    requires Accumulates(acc, articles)
    requires HasYear(a) ==> next == acc[a.year.value := (if a.year.value in acc then acc[a.year.value] else 0) + a.citations]
    requires !HasYear(a) ==> next == acc
    ensures Accumulates(next, articles + [a])
  {
    YearSetAppend(articles, a);
    forall y | y in next ensures next[y] == Bucket(articles + [a], y) {
      BucketAppend(articles, a, y);
      if HasYear(a) && y == a.year.value && y !in acc {
        BucketOutside(articles, y);
      }
    }
  }

  /**
   * The `reduce` over the articles: one entry per truthy year, holding the
   * sum of the citations of the articles from that year.
   */
  method YearCitations(articles: seq<Article>) returns (acc: map<int, int>)
    ensures acc.Keys == YearSet(articles)
    ensures forall y | y in acc :: acc[y] == Bucket(articles, y)
  {
    acc := map[];
    ghost var done: seq<Article> := [];
    var i := 0;
    while i < |articles|
      invariant 0 <= i <= |articles| && done == articles[..i]
      invariant Accumulates(acc, done)
    {
      var a := articles[i];
      var next := acc;
      if a.year.Some? && a.year.value != 0 {
        var y := a.year.value;
        next := acc[y := (if y in acc then acc[y] else 0) + a.citations];
      }
      AccumulateStep(acc, done, a, next);
      acc, done := next, done + [a];
      i := i + 1;
      assert done == articles[..i];
    }
    assert done == articles;
  }

  /**
   * The comparison of `.sort()` with no comparator: numbers compare as the
   * strings they print as.
   */
  function ByString(a: int, b: int): bool
  {
    LexLe(IntToString(a), IntToString(b))
  }

  lemma ByStringIsOrder()
    ensures TotalPreorder(ByString)
    ensures forall a, b :: ByString(a, b) && ByString(b, a) ==> a == b
  {
    forall a, b ensures ByString(a, b) || ByString(b, a) {
      LexTotal(IntToString(a), IntToString(b));
    }
    forall a, b, c | ByString(a, b) && ByString(b, c) ensures ByString(a, c) {
      LexTrans(IntToString(a), IntToString(b), IntToString(c));
    }
    forall a, b | ByString(a, b) && ByString(b, a) ensures a == b {
      LexAntisymmetric(IntToString(a), IntToString(b));
      IntToStringInjective(a, b);
    }
  }

  /**
   * `sortedYears`: every truthy year once, in the order of their decimal
   * strings. The keys are taken here in the order the years first occur;
   * ChartYearsAnyKeyOrder shows the order they come in does not matter.
   */
  function ChartYears(articles: seq<Article>): (years: seq<int>)
    ensures forall i, j | 0 <= i < j < |years| :: ByString(years[i], years[j]) && years[i] != years[j]
    ensures forall y :: y in years <==> y in YearSet(articles)
  {
    var ys := DistinctYears(articles);
    ByStringIsOrder();
    SortSorted(ys, ByString);
    SortDistinct(ys, ByString);
    SortSameElements(ys, ByString);
    Sort(ys, ByString)
  }

  /** Sorting the years of the accumulator in any order of its keys gives the same list. */
  lemma ChartYearsAnyKeyOrder(articles: seq<Article>, keys: seq<int>)
    requires multiset(keys) == multiset(DistinctYears(articles))
    ensures Sort(keys, ByString) == ChartYears(articles)
  {
    var ys := DistinctYears(articles);
    PermutationDistinct(ys, keys);
    SameSortedList(keys, ys);
  }

  lemma SameSortedList(p: seq<int>, q: seq<int>)
    requires Distinct(p) && Distinct(q) && multiset(p) == multiset(q)
    ensures Sort(p, ByString) == Sort(q, ByString)
  {
    ByStringIsOrder();
    SortSorted(p, ByString);
    SortSorted(q, ByString);
    SortDistinct(p, ByString);
    SortDistinct(q, ByString);
    var r1, r2 := Sort(p, ByString), Sort(q, ByString);
    assert multiset(r1) == multiset(r2);
    forall y ensures y in r1 <==> y in r2 {
      assert y in r1 <==> y in multiset(r1);
      assert y in r2 <==> y in multiset(r2);
    }
    assert |r1| == |r2| by { assert |multiset(r1)| == |multiset(r2)|; }
    SortedUnique(r1, r2, ByString);
  }

  /**
   * When every year is non-negative and written with the same number of
   * digits, as four-digit publication years are, string order is numeric
   * order and the bars run from the oldest year to the newest.
   */
  lemma ChartYearsAscending(articles: seq<Article>, width: nat)
    requires forall a <- articles | HasYear(a) :: a.year.value >= 0 && |NatToString(a.year.value)| == width
    ensures var years := ChartYears(articles);
      forall i, j | 0 <= i < j < |years| :: years[i] < years[j]
  {
    var years := ChartYears(articles);
    forall i, j | 0 <= i < j < |years| ensures years[i] < years[j] {
      var x, y := years[i], years[j];
      assert ByString(x, y) && x != y;
      assert x in YearSet(articles) && y in YearSet(articles);
      var a :| a in articles && HasYear(a) && a.year.value == x;
      var b :| b in articles && HasYear(b) && b.year.value == y;
      WidthOrder(x, y, width);
    }
  }

  lemma WidthOrder(a: int, b: int, width: nat)
    requires a >= 0 && b >= 0 && |NatToString(a)| == width && |NatToString(b)| == width
    requires ByString(a, b) && a != b
    ensures a < b
  {
    assert IntToString(a) == NatToString(a) && IntToString(b) == NatToString(b);
    SameWidthOrder(a, b);
  }

  /** A three-digit year is placed after a four-digit one: "2000" sorts before "999". */
  lemma ShorterYearLater()
    ensures ByString(2000, 999) && !ByString(999, 2000)
  {
    assert IntToString(2000) == "2000" by {
      assert NatToString(2000) == NatToString(200) + "0";
      assert NatToString(200) == NatToString(20) + "0";
      assert NatToString(20) == NatToString(2) + "0";
    }
    assert IntToString(999) == "999" by {
      assert NatToString(999) == NatToString(99) + "9";
      assert NatToString(99) == NatToString(9) + "9";
    }
  }

  function Sum(xs: seq<int>): int
  {
    if xs == [] then 0 else xs[0] + Sum(xs[1..])
  }

  /** The bar heights for a list of years. */
  function SumBuckets(articles: seq<Article>, years: seq<int>): int
  {
    if years == [] then 0 else Bucket(articles, years[0]) + SumBuckets(articles, years[1..])
  }

  lemma {:induction false} SumBucketsEmpty(years: seq<int>)
    ensures SumBuckets([], years) == 0
  {
    if years != [] {
      SumBucketsEmpty(years[1..]);
    }
  }

  lemma {:induction false} SumBucketsAppend(articles: seq<Article>, a: Article, years: seq<int>)
    requires Distinct(years)
    ensures SumBuckets(articles + [a], years)
         == SumBuckets(articles, years) + (if HasYear(a) && a.year.value in years then a.citations else 0)
  {
    if years != [] {
      assert Distinct(years[1..]);
      SumBucketsAppend(articles, a, years[1..]);
      BucketAppend(articles, a, years[0]);
      assert years[0] !in years[1..];
      assert forall y :: y in years <==> y == years[0] || y in years[1..];
    }
  }

  /** Bars for distinct years that include every truthy year add up to the total. */
  lemma {:induction false} SumBucketsTotal(articles: seq<Article>, years: seq<int>)
    requires Distinct(years)
    requires forall y | y in YearSet(articles) :: y in years
    ensures SumBuckets(articles, years) == TotalCitations(articles)
  {
    if articles == [] {
      SumBucketsEmpty(years);
    } else {
      var init, last := articles[..|articles| - 1], articles[|articles| - 1];
      assert articles == init + [last];
      YearSetAppend(init, last);
      SumBucketsTotal(init, years);
      SumBucketsAppend(init, last, years);
    }
  }

  lemma {:induction false} SumOfBars(articles: seq<Article>, years: seq<int>, data: seq<int>)
    requires |data| == |years|
    requires forall i | 0 <= i < |years| :: data[i] == Bucket(articles, years[i])
    ensures Sum(data) == SumBuckets(articles, years)
  {
    if data != [] {
      SumOfBars(articles, years[1..], data[1..]);
    }
  }

  /**
   * The chart's `labels` and `data`: one bar per truthy year in `sortedYears`
   * order, labelled with the year's decimal text, as high as the citations
   * of that year; the bars add up to all citations of dated articles.
   */
  method ChartData(articles: seq<Article>) returns (labels: seq<string>, data: seq<int>)
    ensures var years := ChartYears(articles);
      && |labels| == |years| && |data| == |years|
      && (forall i | 0 <= i < |years| :: labels[i] == IntToString(years[i]))
      && (forall i | 0 <= i < |years| :: data[i] == Bucket(articles, years[i]))
    ensures Sum(data) == TotalCitations(articles)
  {
    var acc := YearCitations(articles);
    var years := ChartYears(articles);
    labels := seq(|years|, i requires 0 <= i < |years| => IntToString(years[i]));
    data := seq(|years|, i requires 0 <= i < |years| && years[i] in acc => acc[years[i]]);
    assert Distinct(years);
    SumOfBars(articles, years, data);
    SumBucketsTotal(articles, years);
  }
}

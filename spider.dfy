/**
 * The Google Scholar result-page extractor of backend/services/original_spider.py
 * (class OriginalScholarSpider): the URL template with its year filters, the
 * string scanners that read the citation count, the year, the authors, the
 * publisher and the venue out of a result, the per-result record, and the
 * paging loop of `search`.
 *
 * HTML is not parsed here: a result `div.gs_or` is the record Div below, and
 * each fetched page is `Option<seq<Div>>`, None standing for a request that
 * failed (an exception, or a robot check the browser fallback could not pass).
 */
module Spider {
  import opened Wrappers
  import opened Text
  import opened Models

  // ---------------------------------------------------------------------------
  // The URL template

  const UrlHead := "https://scholar.google.com/scholar?start="
  const UrlMid := "&q="
  const UrlTail := "&hl=en&as_sdt=0,5"
  /** `self.base_url`: two `{}` slots, the page offset and the query. */
  const BaseUrl := UrlHead + "{}" + UrlMid + "{}" + UrlTail
  const StartYearParam := "&as_ylo="
  const EndYearParam := "&as_yhi="

  /** Python truthiness of an `Optional[int]`: present and nonzero. */
  predicate Truthy(y: Option<int>) { y.Some? && y.value != 0 }

  /** The index of the first `c` in `s`, or `|s|` when there is none. */
  function UpTo(s: string, c: char): (k: nat)
    ensures k <= |s| && c !in s[..k]
    ensures k < |s| ==> s[k] == c
  {
    if s == [] || s[0] == c then 0
    else
      var k := UpTo(s[1..], c) + 1;
      assert s[..k] == [s[0]] + s[1..][..k - 1];
      k
  }

  lemma {:induction false} UpToConcat(a: string, b: string, c: char)
    requires c !in a && (b == [] || b[0] == c)
    ensures UpTo(a + b, c) == |a|
  {
    if a != [] {
      assert (a + b)[0] == a[0] && (a + b)[1..] == a[1..] + b;
      UpToConcat(a[1..], b, c);
    } else {
      assert a + b == b;
    }
  }

  /** Reads `name<int>` at the front of `s`, the number ending at the next `&`. */
  function ReadParam(s: string, name: string): Option<(Option<int>, string)>
  {
    if name <= s then
      var rest := s[|name|..];
      var k := UpTo(rest, '&');
      match DecimalInt(rest[..k])
      case None => None
      case Some(v) => Some((Some(v), rest[k..]))
    else Some((None, s))
  }

  /** Reads back the year filters that follow the base URL: `&as_ylo=` first, then `&as_yhi=`. */
  function ParseFilters(s: string): Option<(Option<int>, Option<int>)>
  {
    match ReadParam(s, StartYearParam)
    case None => None
    case Some((lo, rest)) =>
      match ReadParam(rest, EndYearParam)
      case None => None
      case Some((hi, tail)) => if tail == [] then Some((lo, hi)) else None
  }

  lemma ReadParamOf(name: string, v: int, rest: string)
    requires rest == [] || rest[0] == '&'
    ensures ReadParam(name + IntToString(v) + rest, name) == Some((Some(v), rest))
  {
    var s := name + IntToString(v) + rest;
    assert name <= s;
    var r := s[|name|..];
    assert r == IntToString(v) + rest;
    var d := IntToString(v);
    UpToConcat(d, rest, '&');
    assert r[..|d|] == d;
    IntToStringRoundTrip(v);
  }

  /**
   * `_create_main_url`: the base URL followed by `&as_ylo=<start>` when the
   * start year is truthy, then `&as_yhi=<end>` when the end year is truthy
   * and is not the current year.
   */
  function CreateMainUrl(startYear: Option<int>, endYear: Option<int>, currentYear: int): (url: string)
    ensures BaseUrl <= url
    ensures ParseFilters(url[|BaseUrl|..])
         == Some((if Truthy(startYear) then startYear else None,
                  if Truthy(endYear) && endYear.value != currentYear then endYear else None))
  {
    var lo := if Truthy(startYear) then StartYearParam + IntToString(startYear.value) else "";
    var hi := if Truthy(endYear) && endYear.value != currentYear then EndYearParam + IntToString(endYear.value) else "";
    FiltersReadBack(startYear, endYear, currentYear, lo, hi);
    PrefixRest(BaseUrl, lo + hi);
    BaseUrl + (lo + hi)
  }

  lemma PrefixRest(a: string, b: string)
    ensures a <= a + b && (a + b)[|a|..] == b
  {
  }

  lemma FiltersReadBack(startYear: Option<int>, endYear: Option<int>, currentYear: int, lo: string, hi: string)
    requires lo == if Truthy(startYear) then StartYearParam + IntToString(startYear.value) else ""
    requires hi == if Truthy(endYear) && endYear.value != currentYear then EndYearParam + IntToString(endYear.value) else ""
    ensures ParseFilters(lo + hi)
         == Some((if Truthy(startYear) then startYear else None,
                  if Truthy(endYear) && endYear.value != currentYear then endYear else None))
  {
    var hiYear := if Truthy(endYear) && endYear.value != currentYear then endYear else None;
    EndFilterReadBack(hiYear, hi);
    StartFilterReadBack(if Truthy(startYear) then startYear else None, lo, hi);
  }

  /** The start filter, present or not, is read off the front and leaves the end filter. */
  lemma StartFilterReadBack(y: Option<int>, lo: string, hi: string)
    requires lo == if y.Some? then StartYearParam + IntToString(y.value) else ""
    requires hi == [] || EndYearParam <= hi
    ensures ReadParam(lo + hi, StartYearParam) == Some((y, hi))
  {
    if y.Some? {
      assert hi != [] ==> hi[0] == EndYearParam[0] == '&';
      ReadParamOf(StartYearParam, y.value, hi);
      assert StartYearParam + IntToString(y.value) + hi == lo + hi;
    } else {
      assert hi != [] ==> hi[5] == EndYearParam[5] == 'h';
      assert lo + hi == hi;
    }
  }

  /** The end filter, present or not, is read off and nothing is left. */
  lemma EndFilterReadBack(y: Option<int>, hi: string)
    requires hi == if y.Some? then EndYearParam + IntToString(y.value) else ""
    ensures hi == [] || EndYearParam <= hi
    ensures ReadParam(hi, EndYearParam) == Some((y, []))
  {
    if y.Some? {
      ReadParamOf(EndYearParam, y.value, "");
      assert EndYearParam + IntToString(y.value) + "" == hi;
    }
  }

  /** Substitutes the arguments, in order, for the `{}` slots of a template (`str.format`). */
  function Format(t: string, args: seq<string>): string
  {
    if |t| >= 2 && t[0] == '{' && t[1] == '}' && args != [] then args[0] + Format(t[2..], args[1..])
    else if t == [] then []
    else [t[0]] + Format(t[1..], args)
  }

  lemma {:induction false} FormatPlain(s: string, rest: string, args: seq<string>)
    requires '{' !in s
    ensures Format(s + rest, args) == s + Format(rest, args)
  {
    if s != [] {
      assert s == [s[0]] + s[1..] && '{' !in s[1..];
      assert (s + rest)[0] == s[0] && s[0] != '{';
      assert (s + rest)[1..] == s[1..] + rest;
      FormatPlain(s[1..], rest, args);
    } else {
      assert s + rest == rest;
    }
  }

  lemma {:induction false} FormatNoArgs(s: string)
    ensures Format(s, []) == s
  {
    if s != [] {
      FormatNoArgs(s[1..]);
    }
  }

  lemma FormatSlot(rest: string, args: seq<string>)
    requires args != []
    ensures Format("{}" + rest, args) == args[0] + Format(rest, args[1..])
  {
    assert ("{}" + rest)[2..] == rest;
  }

  /** The URL of the results page at offset `n`: `url.format(str(n), keyword.replace(' ', '+'))`. */
  function PageUrl(template: string, n: nat, keyword: string): string
  {
    Format(template, [IntToString(n), ReplaceChar(keyword, ' ', '+')])
  }

  /** A two-slot template whose fixed parts hold no brace is filled slot by slot. */
  lemma FormatTwo(head: string, mid: string, tail: string, a: string, b: string)
    requires '{' !in head && '{' !in mid
    ensures Format(head + "{}" + mid + "{}" + tail, [a, b]) == head + a + mid + b + tail
  {
    var afterMid := "{}" + tail;
    var afterHead := "{}" + (mid + afterMid);
    assert head + "{}" + mid + "{}" + tail == head + afterHead;
    assert [a, b][0] == a && [a, b][1..] == [b] && [b][0] == b && [b][1..] == [];
    calc {
      Format(head + afterHead, [a, b]);
      { FormatPlain(head, afterHead, [a, b]); }
      head + Format(afterHead, [a, b]);
      { FormatSlot(mid + afterMid, [a, b]); }
      head + (a + Format(mid + afterMid, [b]));
      { FormatPlain(mid, afterMid, [b]); }
      head + (a + (mid + Format(afterMid, [b])));
      { FormatSlot(tail, [b]); }
      head + (a + (mid + (b + Format(tail, []))));
      { FormatNoArgs(tail); }
      head + (a + (mid + (b + tail)));
    }
  }

  /** Every page URL is the Scholar query for that offset and keyword, followed by the year filters. */
  lemma PageUrlShape(filters: string, n: nat, keyword: string)
    ensures PageUrl(BaseUrl + filters, n, keyword)
         == UrlHead + IntToString(n) + UrlMid + ReplaceChar(keyword, ' ', '+') + UrlTail + filters
  {
    assert '{' !in UrlHead && '{' !in UrlMid;
    assert BaseUrl + filters == UrlHead + "{}" + UrlMid + "{}" + (UrlTail + filters);
    FormatTwo(UrlHead, UrlMid, UrlTail + filters, IntToString(n), ReplaceChar(keyword, ' ', '+'));
  }

  // ---------------------------------------------------------------------------
  // _get_citations

  const CitedBy := "Cited by "

  /**
   * The text `_get_citations` hands to `int()`: none when there is no
   * `Cited by `; otherwise the text after the first marker up to the next `<`.
   * With no `<` after the marker, `find` gives -1 and the slice stops one
   * character before the end.
   */
  function CitationText(content: string): (t: Option<string>)
    ensures t.None? <==> Find(content, CitedBy, 0) == -1
    ensures var c := Find(content, CitedBy, 0); c >= 0 ==>
      var e := Find(content, "<", c);
      && (e >= 0 ==> c + 9 <= e && t == Some(content[c + 9..e]))
      && (e < 0 ==> t == Some(PySlice(content, c + 9, -1)))
  {
    var c := Find(content, CitedBy, 0);
    if c == -1 then None
    else
      var e := Find(content, "<", c);
      CountSlice(content, c, e);
      Some(PySlice(content, c + 9, e))
  }

  /** The slice `content[c+9:e]` for the tag found after the marker, or for -1 when there is none. */
  lemma CountSlice(content: string, c: int, e: int)
    requires Find(content, CitedBy, 0) == c && c >= 0 && Find(content, "<", c) == e
    ensures e >= 0 ==> c + 9 <= e && PySlice(content, c + 9, e) == content[c + 9..e]
    ensures e < 0 ==> PySlice(content, c + 9, e) == PySlice(content, c + 9, -1)
  {
    NoTagInMarker(content, c);
    if e >= 0 {
      assert OccursAt(content, "<", e);
      PySliceInside(content, c + 9, e);
    }
  }

  /** `_get_citations`: `int()` of the count text; 0 without a marker or when `int()` raises. */
  function GetCitations(content: string): (n: int)
    ensures Find(content, CitedBy, 0) == -1 ==> n == 0
    ensures CitationText(content).Some? && PyInt(CitationText(content).value).None? ==> n == 0
  {
    match CitationText(content)
    case None => 0
    case Some(t) => PyInt(t).GetOr(0)
  }

  lemma NoTagInMarker(content: string, c: int)
    requires OccursAt(content, CitedBy, c)
    ensures forall i | c <= i < c + 9 :: !OccursAt(content, "<", i)
  {
    forall i | c <= i < c + 9 ensures !OccursAt(content, "<", i) {
      assert content[i] == CitedBy[i - c] by { assert content[c..c + 9][i - c] == content[i]; }
      OccursChar(content, '<', i);
    }
  }

  lemma {:induction false} NoCitedByAfter(s: string, pre: string, k: nat)
    requires Find(pre, CitedBy, 0) == -1
    requires s == pre + CitedBy
    requires k < |pre|
    ensures !OccursAt(s, CitedBy, k)
  {
    if k + 9 <= |pre| {
      assert pre[k..k + 9] == s[k..k + 9];
      assert !OccursAt(pre, CitedBy, k);
    } else {
      var d := |pre| - k;
      assert s[k..k + 9][d] == s[|pre|] == 'C';
      assert CitedBy[d] != 'C';
    }
  }

  lemma MarkerFirst(pre: string, rest: string)
    requires Find(pre, CitedBy, 0) == -1
    ensures Find(pre + CitedBy + rest, CitedBy, 0) == |pre|
  {
    var s := pre + CitedBy + rest;
    var c := |pre|;
    assert s[c..c + 9] == CitedBy;
    forall k | 0 <= k < c ensures !OccursAt(s, CitedBy, k) {
      NoCitedByAfter(pre + CitedBy, pre, k);
      assert (pre + CitedBy)[k..k + 9] == s[k..k + 9];
    }
    FindAt(s, CitedBy, 0, c);
  }

  /** A count rendered after the first `Cited by ` and closed by a tag is read back exactly. */
  lemma CitationsReadBack(pre: string, count: nat, post: string)
    requires Find(pre, CitedBy, 0) == -1
    ensures GetCitations(pre + CitedBy + NatToString(count) + "<" + post) == count
  {
    var digits := NatToString(count);
    var head, rest := pre + CitedBy, digits + "<" + post;
    var s := pre + CitedBy + digits + "<" + post;
    assert s == head + rest;
    MarkerFirst(pre, rest);
    var c, e := |pre|, |head| + |digits|;
    assert s[c..c + 9] == CitedBy;
    assert s[c + 9..e] == digits by { assert s[c + 9..e] == rest[..|digits|]; }
    assert s[e] == rest[|digits|] == '<';
    TagAfterCount(s, c, digits);
    assert CitationText(s) == Some(digits);
    PyIntOfDecimal(count);
  }

  /** With the marker at `c` and digits after it, the next `<` is the one right after the digits. */
  lemma TagAfterCount(s: string, c: nat, digits: string)
    requires c + 9 + |digits| < |s| && IsDigits(digits)
    requires s[c..c + 9] == CitedBy && s[c + 9..c + 9 + |digits|] == digits
    requires s[c + 9 + |digits|] == '<'
    ensures Find(s, "<", c) == c + 9 + |digits|
  {
    var e := c + 9 + |digits|;
    OccursChar(s, '<', e);
    forall k | c <= k < e ensures !OccursAt(s, "<", k) {
      OccursChar(s, '<', k);
      if k < c + 9 {
        assert s[k] == s[c..c + 9][k - c] == CitedBy[k - c];
      } else {
        assert s[k] == s[c + 9..e][k - c - 9] == digits[k - c - 9];
      }
    }
    FindAt(s, "<", c, e);
  }

  /** Without a closing `<` the last character is cut off: `Cited by 12` reads as 1. */
  lemma CitationsWithoutTag()
    ensures GetCitations("Cited by 12") == 1
  {
    CitationsCutShort("12");
    assert CitedBy + "12" == "Cited by 12";
    assert "12"[..1] == "1";
    PyIntOfDecimal(1);
    assert NatToString(1) == "1";
  }

  /** Digits after the marker with no `<` anywhere are read without their last digit. */
  lemma CitationsCutShort(digits: string)
    requires IsDigits(digits)
    ensures CitationText(CitedBy + digits) == Some(digits[..|digits| - 1])
  {
    var s := CitedBy + digits;
    MarkerThenDigits(digits);
    PySliceToLast(s, 9);
    assert s[9..|s| - 1] == digits[..|digits| - 1];
  }

  lemma MarkerThenDigits(digits: string)
    requires IsDigits(digits)
    ensures Find(CitedBy + digits, CitedBy, 0) == 0 && Find(CitedBy + digits, "<", 0) == -1
  {
    var s := CitedBy + digits;
    assert s[0..9] == CitedBy;
    FindAt(s, CitedBy, 0, 0);
    forall k | 0 <= k ensures !OccursAt(s, "<", k) {
      OccursChar(s, '<', k);
      if 9 <= k < |s| { assert s[k] == digits[k - 9]; }
    }
    FindNone(s, "<", 0);
  }

  // ---------------------------------------------------------------------------
  // _get_year

  /** At index `i` stands a `-` whose window `content[i-5:i-1]` is all digits. */
  predicate YearWindowAt(content: string, i: int)
  {
    0 <= i < |content| && content[i] == '-' && IsDigits(PySlice(content, i - 5, i - 1))
  }

  function WindowValue(content: string, i: int): nat
    requires YearWindowAt(content, i)
  {
    DigitsValue(PySlice(content, i - 5, i - 1))
  }

  /** Whatever the dash's index, the window holds at most four characters. */
  lemma WindowBound(content: string, i: int)
    requires YearWindowAt(content, i)
    ensures WindowValue(content, i) <= 9999
  {
    var w := PySlice(content, i - 5, i - 1);
    assert |w| <= 4;
    DigitsValueBound(w);
    assert Pow10(4) == 10000;
    assert |w| < 4 ==> Pow10(|w|) <= 1000;
  }

  /** The year read from the first dash at or after index `k` whose window is all digits; 0 if none. */
  function YearFrom(content: string, k: nat): (y: nat)
    ensures y <= 9999
    ensures (forall i | k <= i < |content| :: !YearWindowAt(content, i)) ==> y == 0
    ensures forall i | k <= i < |content| && YearWindowAt(content, i)
                       && (forall j | k <= j < i :: !YearWindowAt(content, j))
              :: y == WindowValue(content, i)
    decreases |content| - k
  {
    if k >= |content| then 0
    else if YearWindowAt(content, k) then
      WindowBound(content, k);
      WindowValue(content, k)
    else YearFrom(content, k + 1)
  }

  /** `_get_year`'s result: the value of the window before the first dash whose window is all digits; 0 if there is none. */
  function YearOf(content: string): (y: nat)
    ensures y <= 9999
    ensures (forall i | 0 <= i < |content| :: !YearWindowAt(content, i)) ==> y == 0
    ensures forall i | 0 <= i < |content| && YearWindowAt(content, i)
                       && (forall j | 0 <= j < i :: !YearWindowAt(content, j))
              :: y == WindowValue(content, i)
  {
    YearFrom(content, 0)
  }

  /**
   * `_get_year`: scans the characters in order and returns the value of the
   * window before the first dash whose window is all digits; 0 if there is none.
   */
  method GetYear(content: string) returns (year: nat)
    ensures year == YearOf(content)
    ensures year <= 9999
    ensures (forall i | 0 <= i < |content| :: !YearWindowAt(content, i)) ==> year == 0
    ensures forall i | 0 <= i < |content| && YearWindowAt(content, i)
                       && (forall j | 0 <= j < i :: !YearWindowAt(content, j))
              :: year == WindowValue(content, i)
  {
    var i := 0;
    while i < |content|
      invariant 0 <= i <= |content|
      invariant YearFrom(content, i) == YearOf(content)
    {
      if content[i] == '-' {
        var out := PySlice(content, i - 5, i - 1);
        if IsDigits(out) {
          assert YearWindowAt(content, i);
          return DigitsValue(out);
        }
      }
      assert !YearWindowAt(content, i);
      i := i + 1;
    }
    return 0;
  }

  // ---------------------------------------------------------------------------
  // _get_author and the byline split

  /**
   * `_get_author`: with the first `-` at an index above 2, the text from
   * index 2 up to the character before that dash; otherwise the whole text.
   */
  function GetAuthor(content: string): (a: string)
    ensures var d := Find(content, "-", 0);
      && (d <= 2 ==> a == content)
      && (d > 2 ==> content[d] == '-' && a == content[2..d - 1] && '-' !in a)
  {
    var d := Find(content, "-", 0);
    if d > 2 then
      assert forall i | 0 <= i < d :: content[i] != '-' by {
        forall i | 0 <= i < d ensures content[i] != '-' { OccursChar(content, '-', i); }
      }
      PySlice(content, 2, d - 1)
    else content
  }

  lemma CountAppend(a: string, b: string, c: char)
    ensures Count(a + b, c) == Count(a, c) + Count(b, c)
  {
    if a != [] {
      assert (a + b)[0] == a[0];
      assert (a + b)[1..] == a[1..] + b;
      CountAppend(a[1..], b, c);
    } else {
      assert a + b == b;
    }
  }

  /** The text is the part before its last `c`, the `c`, and the part after it. */
  lemma LastSplit(s: string, c: char)
    requires c in s
    ensures var k := LastIndexOf(s, c);
      && s == s[..k] + [c] + s[k + 1..] && c !in s[k + 1..]
      && Split(s, c) == Split(s[..k], c) + [s[k + 1..]]
      && Count(s, c) == Count(s[..k], c) + 1
  {
    var k := LastIndexOf(s, c);
    var pre, post := s[..k], s[k + 1..];
    assert s == pre + [c] + post;
    SplitAppend(pre, post, c);
    SplitWithout(post, c);
    CountAppend(pre + [c], post, c);
    CountAppend(pre, [c], c);
  }

  const NoPublisher := "Publisher not found"
  const NoVenue := "Venue not found"
  const NoAuthor := "Author not found"

  /** The publisher: the stripped text after the last `-`, when there is a `-`. */
  function Publisher(byline: string): (p: string)
    ensures '-' !in byline ==> p == NoPublisher
    ensures '-' in byline ==> p == Strip(byline[LastIndexOf(byline, '-') + 1..])
  {
    var parts := Split(byline, '-');
    if |parts| > 1 then
      assert '-' in byline;
      LastSplit(byline, '-');
      Strip(parts[|parts| - 1])
    else NoPublisher
  }

  /** `" ".join(part.split(",")[:-1])`: the text before the last comma, its commas turned to spaces. */
  function DropLastSegment(part: string): (r: string)
    ensures ',' !in part ==> r == ""
    ensures ',' in part ==> r == ReplaceChar(part[..LastIndexOf(part, ',')], ',', ' ')
  {
    var segments := Split(part, ',');
    var r := Join(segments[..|segments| - 1], " ");
    if ',' in part then
      LastSplit(part, ',');
      var pre := part[..LastIndexOf(part, ',')];
      assert segments[..|segments| - 1] == Split(pre, ',');
      JoinSplitReplace(pre, ',', ' ');
      r
    else
      SplitWithout(part, ',');
      r
  }

  /**
   * The venue: with at least two dashes, the text between the last two, cut
   * at its last comma (commas before it read as spaces) and stripped.
   */
  function Venue(byline: string): (v: string)
    ensures Count(byline, '-') < 2 ==> v == NoVenue
    ensures Count(byline, '-') >= 2 ==>
      var k := LastIndexOf(byline, '-');
      var j := LastIndexOf(byline[..k], '-');
      0 <= j < k && v == Strip(DropLastSegment(byline[j + 1..k]))
  {
    var parts := Split(byline, '-');
    if |parts| > 2 then
      LastSplit(byline, '-');
      var k := LastIndexOf(byline, '-');
      var pre, post := byline[..k], byline[k + 1..];
      assert '-' in pre;
      LastSplit(pre, '-');
      var pre2, mid := pre[..LastIndexOf(pre, '-')], pre[LastIndexOf(pre, '-') + 1..];
      assert Split(byline, '-') == Split(pre2, '-') + [mid] + [post];
      assert parts[|parts| - 2] == mid;
      assert mid == byline[LastIndexOf(pre, '-') + 1..k];
      Strip(DropLastSegment(parts[|parts| - 2]))
    else NoVenue
  }

  // ---------------------------------------------------------------------------
  // _parse_gs_or_div

  datatype Link = Link(text: string, href: Option<string>)
  /** The result's `h3`: its text, and the `a` inside it if there is one. */
  datatype Heading = Heading(text: string, link: Option<Link>)
  /** A `div.gs_or`: its heading, the texts of its `div.gs_a` and `div.gs_rs`, and `str(div)`. */
  datatype Div = Div(h3: Option<Heading>, gsA: Option<string>, gsRs: Option<string>, raw: string)

  /** `max(1, now - year)`. */
  function YearsPassed(currentYear: int, year: int): (d: int)
    ensures d >= 1 && d >= currentYear - year
    ensures d == currentYear - year || d == 1
  {
    if currentYear - year > 1 then currentYear - year else 1
  }

  /** Citations per year since publication; 0 unless both the year and the count are positive. */
  function PerYear(citations: int, year: int, currentYear: int): (r: real)
    ensures r > 0.0 <==> year > 0 && citations > 0
    ensures 0.0 <= r && (citations >= 0 ==> r <= citations as real)
    ensures year > 0 && citations > 0 ==> r * (YearsPassed(currentYear, year) as real) == citations as real
  {
    if year > 0 && citations > 0 then (citations as real) / (YearsPassed(currentYear, year) as real)
    else 0.0
  }

  /**
   * `_parse_gs_or_div`: no `h3` gives no article; otherwise the title and link
   * come from the heading, the counts and byline fields from the scanners.
   * `citationsPerYear` is the exact quotient (the source rounds it to two
   * decimals).
   */
  function ParseDiv(div: Div, currentYear: int): (r: Option<Article>)
    ensures r.None? <==> div.h3.None?
    ensures r.Some? ==> var a := r.value;
      && a.title == Strip(match div.h3.value.link case Some(l) => l.text case None => div.h3.value.text)
      && a.url == (match div.h3.value.link case Some(l) => Some(l.href.GetOr("")) case None => None)
      && a.citations == GetCitations(div.raw)
      && a.year == (if div.gsA.Some? && YearOf(div.gsA.value) > 0 then Some(YearOf(div.gsA.value)) else None)
      && (a.year.Some? ==> 1 <= a.year.value <= 9999)
      && a.citationsPerYear == PerYear(a.citations, a.year.GetOr(0), currentYear)
      && (div.gsA.None? ==>
            a.authors == Some(NoAuthor) && a.venue == Some(NoVenue) && a.publisher == Some(NoPublisher))
      && (div.gsA.Some? ==>
            && a.authors == Some(GetAuthor(div.gsA.value))
            && a.venue == Some(Venue(div.gsA.value))
            && a.publisher == Some(Publisher(div.gsA.value)))
      && a.description == (match div.gsRs case Some(t) => Some(Strip(t)) case None => None)
      && a.id == None && a.createdAt == None
  {
    match div.h3
    case None => None
    case Some(h) =>
      var title := match h.link case Some(l) => Strip(l.text) case None => Strip(h.text);
      var url := match h.link case Some(l) => Some(l.href.GetOr("")) case None => None;
      var citations := GetCitations(div.raw);
      var year := match div.gsA case Some(t) => YearOf(t) case None => 0;
      var author := match div.gsA case Some(t) => GetAuthor(t) case None => NoAuthor;
      var publisher := match div.gsA case Some(t) => Publisher(t) case None => NoPublisher;
      var venue := match div.gsA case Some(t) => Venue(t) case None => NoVenue;
      var description := match div.gsRs case Some(t) => Some(Strip(t)) case None => None;
      var perYear := PerYear(citations, year, currentYear);
      Some(Article(None, title, Some(author), Some(venue), Some(publisher),
                   if year > 0 then Some(year) else None,
                   citations, perYear, description, url, None))
  }

  // ---------------------------------------------------------------------------
  // search

  const UncaughtTitle := "Could not catch title"

  /** The check `search` makes before keeping a parsed article. */
  predicate Keeps(a: Article) { a.title != "" && a.title != UncaughtTitle }

  /** What one result contributes: its article, if it parses and passes the title check. */
  function KeptOf(div: Div, currentYear: int): (r: seq<Article>)
    ensures |r| <= 1 && forall a <- r :: Keeps(a)
    ensures r != [] <==> ParseDiv(div, currentYear).Some? && Keeps(ParseDiv(div, currentYear).value)
  {
    match ParseDiv(div, currentYear)
    case Some(a) => if Keeps(a) then [a] else []
    case None => []
  }

  /** The articles a page contributes, in page order. */
  function PageArticles(divs: seq<Div>, currentYear: int): (r: seq<Article>)
    ensures |r| <= |divs|
    ensures forall a <- r :: Keeps(a)
  {
    if divs == [] then [] else KeptOf(divs[0], currentYear) + PageArticles(divs[1..], currentYear)
  }

  /**
   * Everything the pages from offset `n` on would contribute without the
   * `num_results` cap: offsets step by 10 while below `numResults`, a failed
   * page is skipped, and the first page without results ends the scan.
   */
  function Harvest(fetch: string -> Option<seq<Div>>, template: string, keyword: string,
                   n: nat, numResults: int, currentYear: int): (r: seq<Article>)
    ensures forall a <- r :: Keeps(a)
    decreases if n < numResults then numResults - n else 0
  {
    if n >= numResults then []
    else
      match fetch(PageUrl(template, n, keyword))
      case None => Harvest(fetch, template, keyword, n + 10, numResults, currentYear)
      case Some(divs) =>
        if divs == [] then []
        else PageArticles(divs, currentYear) + Harvest(fetch, template, keyword, n + 10, numResults, currentYear)
  }

  /** The article was kept from the page fetched at offset `m`. */
  predicate FromPage(fetch: string -> Option<seq<Div>>, template: string, keyword: string,
                     m: nat, currentYear: int, a: Article)
  {
    var page := fetch(PageUrl(template, m, keyword));
    page.Some? && a in PageArticles(page.value, currentYear)
  }

  /**
   * Every harvested article comes from a page that was fetched successfully
   * at one of the offsets `n`, `n + 10`, ... below `numResults`.
   */
  lemma {:induction false} HarvestProvenance(fetch: string -> Option<seq<Div>>, template: string, keyword: string,
                                             n: nat, numResults: int, currentYear: int, a: Article)
    returns (m: nat, pages: nat)
    requires a in Harvest(fetch, template, keyword, n, numResults, currentYear)
    ensures m == n + 10 * pages && m < numResults
    ensures FromPage(fetch, template, keyword, m, currentYear, a)
    decreases if n < numResults then numResults - n else 0
  {
    var page := fetch(PageUrl(template, n, keyword));
    var later := Harvest(fetch, template, keyword, n + 10, numResults, currentYear);
    assert n < numResults;
    if page.Some? && a in PageArticles(page.value, currentYear) {
      m, pages := n, 0;
    } else {
      assert page.None? ==> Harvest(fetch, template, keyword, n, numResults, currentYear) == later;
      assert page.Some? && page.value != [] ==>
        Harvest(fetch, template, keyword, n, numResults, currentYear) == PageArticles(page.value, currentYear) + later;
      assert a in later;
      var skipped;
      m, skipped := HarvestProvenance(fetch, template, keyword, n + 10, numResults, currentYear, a);
      pages := skipped + 1;
    }
  }

  /** When no page can be fetched, nothing is harvested. */
  lemma {:induction false} HarvestAllFailed(fetch: string -> Option<seq<Div>>, template: string, keyword: string,
                                            n: nat, numResults: int, currentYear: int)
    requires forall u :: fetch(u).None?
    ensures Harvest(fetch, template, keyword, n, numResults, currentYear) == []
    decreases if n < numResults then numResults - n else 0
  {
    if n < numResults {
      assert fetch(PageUrl(template, n, keyword)).None?;
      HarvestAllFailed(fetch, template, keyword, n + 10, numResults, currentYear);
    }
  }

  /** The first `limit` elements (none when `limit` is not positive). */
  function Take<T>(s: seq<T>, limit: int): (r: seq<T>)
    ensures |r| <= |s| && (limit <= 0 ==> r == []) && (limit > 0 ==> |r| <= limit)
    ensures r <= s
    ensures limit > 0 && |s| >= limit ==> |r| == limit
  {
    if limit <= 0 then [] else if |s| <= limit then s else s[..limit]
  }

  lemma TakeMember<T>(s: seq<T>, limit: int, x: T)
    requires x in Take(s, limit)
    ensures x in s
  {
    var r := Take(s, limit);
    var i :| 0 <= i < |r| && r[i] == x;
    assert s[i] == x;
  }

  lemma TakeFull<T>(a: seq<T>, b: seq<T>, limit: int)
    requires |a| == limit
    ensures Take(a + b, limit) == a
  {
    if limit > 0 { assert (a + b)[..limit] == a; }
  }

  /** Capping, appending and capping again is appending and capping once. */
  lemma TakeTake<T>(a: seq<T>, b: seq<T>, limit: int)
    ensures Take(Take(a, limit) + b, limit) == Take(a + b, limit)
  {
    if limit > 0 && |a| > limit {
      assert (a[..limit] + b)[..limit] == a[..limit] == (a + b)[..limit];
    }
  }

  /** Reading one more page into a capped list, then capping what follows, caps the whole once. */
  lemma TakeStep<T>(before: seq<T>, found: seq<T>, later: seq<T>, after: seq<T>, goal: seq<T>, limit: int)
    requires limit > 0
    requires goal == Take(before + (found + later), limit)
    requires after == Take(before + found, limit)
    ensures |after| >= limit ==> after == goal
    ensures |after| < limit ==> Take(after + later, limit) == goal
  {
    TakeTake(before + found, later, limit);
    assert before + (found + later) == (before + found) + later;
    if |after| >= limit {
      TakeFull(after, later, limit);
    }
  }

  /** A list already within the cap is kept whole once nothing follows it. */
  lemma TakeShort<T>(a: seq<T>, limit: int)
    requires |a| <= if limit < 0 then 0 else limit
    ensures Take(a + [], limit) == a
  {
    assert a + [] == a;
  }

  /** A failed page leaves the scan to the next offset; an empty page, or the end of the offsets, ends it. */
  lemma SkipOrStop(fetch: string -> Option<seq<Div>>, template: string, keyword: string,
                   n: nat, numResults: int, currentYear: int, articles: seq<Article>, goal: seq<Article>)
    requires |articles| <= if numResults < 0 then 0 else numResults
    requires Take(articles + Harvest(fetch, template, keyword, n, numResults, currentYear), numResults) == goal
    ensures var page := fetch(PageUrl(template, n, keyword));
      && (n < numResults && page.None? ==>
            Take(articles + Harvest(fetch, template, keyword, n + 10, numResults, currentYear), numResults) == goal)
      && (n >= numResults || (page.Some? && page.value == []) ==> articles == goal)
  {
    HarvestStep(fetch, template, keyword, n, numResults, currentYear);
    var page := fetch(PageUrl(template, n, keyword));
    if n >= numResults || (page.Some? && page.value == []) {
      TakeShort(articles, numResults);
    }
  }

  /** After the page at offset `n` is read into the list, the list is either full or the scan goes on. */
  lemma PageStep(fetch: string -> Option<seq<Div>>, template: string, keyword: string,
                 n: nat, numResults: int, currentYear: int, before: seq<Article>, after: seq<Article>, goal: seq<Article>)
    requires n < numResults
    requires fetch(PageUrl(template, n, keyword)).Some? && fetch(PageUrl(template, n, keyword)).value != []
    requires Take(before + Harvest(fetch, template, keyword, n, numResults, currentYear), numResults) == goal
    requires after == Take(before + PageArticles(fetch(PageUrl(template, n, keyword)).value, currentYear), numResults)
    ensures |after| >= numResults ==> after == goal
    ensures |after| < numResults ==>
      Take(after + Harvest(fetch, template, keyword, n + 10, numResults, currentYear), numResults) == goal
  {
    HarvestPage(fetch, template, keyword, n, numResults, currentYear);
    TakeStep(before, PageArticles(fetch(PageUrl(template, n, keyword)).value, currentYear),
             Harvest(fetch, template, keyword, n + 10, numResults, currentYear), after, goal, numResults);
  }

  lemma HarvestPage(fetch: string -> Option<seq<Div>>, template: string, keyword: string,
                    n: nat, numResults: int, currentYear: int)
    requires n < numResults
    requires fetch(PageUrl(template, n, keyword)).Some? && fetch(PageUrl(template, n, keyword)).value != []
    ensures Harvest(fetch, template, keyword, n, numResults, currentYear)
         == PageArticles(fetch(PageUrl(template, n, keyword)).value, currentYear) + Harvest(fetch, template, keyword, n + 10, numResults, currentYear)
  {
  }

  /** One step of the scan: the page at offset `n` decides what follows. */
  lemma HarvestStep(fetch: string -> Option<seq<Div>>, template: string, keyword: string,
                    n: nat, numResults: int, currentYear: int)
    ensures var h := Harvest(fetch, template, keyword, n, numResults, currentYear);
      var later := Harvest(fetch, template, keyword, n + 10, numResults, currentYear);
      var page := fetch(PageUrl(template, n, keyword));
      && (n >= numResults ==> h == [])
      && (n < numResults && page.None? ==> h == later)
      && (n < numResults && page.Some? && page.value == [] ==> h == [])
      && (n < numResults && page.Some? && page.value != [] ==> h == PageArticles(page.value, currentYear) + later)
  {
  }

  /**
   * The inner loop of `search` over one page: appends, in page order, each
   * kept article while fewer than `numResults` are collected.
   */
  method FillFromPage(articles: seq<Article>, divs: seq<Div>, numResults: int, currentYear: int)
    returns (out: seq<Article>)
    requires |articles| <= numResults
    ensures out == Take(articles + PageArticles(divs, currentYear), numResults)
    ensures |out| <= numResults
  {
    ghost var goal := Take(articles + PageArticles(divs, currentYear), numResults);
    out := articles;
    var j := 0;
    assert divs[0..] == divs;
    while j < |divs|
      invariant 0 <= j <= |divs|
      invariant |out| <= numResults
      invariant Take(out + PageArticles(divs[j..], currentYear), numResults) == goal
    {
      if |out| >= numResults {
        TakeFull(out, PageArticles(divs[j..], currentYear), numResults);
        return;
      }
      var kept := KeptOf(divs[j], currentYear);
      FillStep(out, divs, j, currentYear);
      out := out + kept;
      j := j + 1;
    }
    assert out + PageArticles(divs[j..], currentYear) == out;
  }

  /** The page's rest from result `j` on is result `j`'s contribution followed by the rest after it. */
  lemma FillStep(out: seq<Article>, divs: seq<Div>, j: nat, currentYear: int)
    requires j < |divs|
    ensures out + PageArticles(divs[j..], currentYear)
         == (out + KeptOf(divs[j], currentYear)) + PageArticles(divs[j + 1..], currentYear)
  {
    var rest := divs[j..];
    assert rest[0] == divs[j] && rest[1..] == divs[j + 1..];
    AppendAssoc(out, KeptOf(divs[j], currentYear), PageArticles(divs[j + 1..], currentYear));
  }

  /** What `search` returns: the first `numResults` articles the pages yield. */
  function SearchResult(keyword: string, numResults: int, startYear: Option<int>, endYear: Option<int>,
                        currentYear: int, fetch: string -> Option<seq<Div>>): (r: seq<Article>)
    ensures |r| <= if numResults < 0 then 0 else numResults
    ensures forall a <- r :: Keeps(a)
  {
    Take(Harvest(fetch, CreateMainUrl(startYear, endYear, currentYear), keyword, 0, numResults, currentYear), numResults)
  }

  /** Every article `search` returns was kept from the page fetched at offset `10 * pages`, below `numResults`. */
  lemma SearchProvenance(keyword: string, numResults: int, startYear: Option<int>, endYear: Option<int>,
                         currentYear: int, fetch: string -> Option<seq<Div>>, a: Article)
    returns (pages: nat)
    requires a in SearchResult(keyword, numResults, startYear, endYear, currentYear, fetch)
    ensures 10 * pages < numResults
    ensures FromPage(fetch, CreateMainUrl(startYear, endYear, currentYear), keyword, 10 * pages, currentYear, a)
  {
    var template := CreateMainUrl(startYear, endYear, currentYear);
    TakeMember(Harvest(fetch, template, keyword, 0, numResults, currentYear), numResults, a);
    var m;
    m, pages := HarvestProvenance(fetch, template, keyword, 0, numResults, currentYear, a);
    assert m == 10 * pages;
  }

  /**
   * `search`: requests the pages at offsets 0, 10, 20, ... below `numResults`,
   * skips a failed page, stops at the first page without results, keeps each
   * parsed article that passes the title check, and stops once `numResults`
   * articles are kept. The result is the first `numResults` articles of the
   * uncapped harvest.
   */
  method Search(keyword: string, numResults: int, startYear: Option<int>, endYear: Option<int>,
                currentYear: int, fetch: string -> Option<seq<Div>>)
    returns (articles: seq<Article>)
    ensures articles == SearchResult(keyword, numResults, startYear, endYear, currentYear, fetch)
  {
    var template := CreateMainUrl(startYear, endYear, currentYear);
    ghost var goal := Take(Harvest(fetch, template, keyword, 0, numResults, currentYear), numResults);
    articles := [];
    var n: nat := 0;
    while n < numResults
      invariant |articles| <= if numResults < 0 then 0 else numResults
      invariant Take(articles + Harvest(fetch, template, keyword, n, numResults, currentYear), numResults) == goal
      decreases numResults - n
    {
      var page := fetch(PageUrl(template, n, keyword));
      if page.None? || page.value == [] {
        SkipOrStop(fetch, template, keyword, n, numResults, currentYear, articles, goal);
        if page.None? {
          n := n + 10;
          continue;
        }
        break;
      }
      ghost var before := articles;
      articles := FillFromPage(articles, page.value, numResults, currentYear);
      PageStep(fetch, template, keyword, n, numResults, currentYear, before, articles, goal);
      if |articles| >= numResults {
        break;
      }
      n := n + 10;
    }
    if n >= numResults {
      SkipOrStop(fetch, template, keyword, n, numResults, currentYear, articles, goal);
    }
  }
}

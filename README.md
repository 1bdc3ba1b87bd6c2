# Google Scholar spider: a Dafny model

The system searches Google Scholar for a keyword and stores the results. It
has three parts:

- **The spider** (`OriginalScholarSpider`) requests result pages ten
  results apart. From each result it reads the title, link, citation
  count, year, authors, venue, publisher and snippet. It also computes
  citations per year.
- **The FastAPI backend** validates the search request. It stores the
  search and its articles in SQLite, sorted by the requested key. It also
  serves the search history and the details of one search, exports a
  search, and deletes searches. The BibTeX export builds one entry per
  article.
- **The React front end** does two things:
  - The results page filters the articles by year and by a minimum citation
    count, and it offers the years found as drop-down options.
  - The citation chart sums the citations per publication year.

The model has one module per part of the program:

| module | file | models |
|---|---|---|
| `Models` | models.dfy | the schemas, with their defaults and request validation |
| `Spider` | spider.dfy | the URL template, the text scanners, result parsing and the paging loop |
| `Export` | export.dfy | the entry maps built by `to_bibtex` |
| `Api` | api.dfy | the request handlers, over two tables held by the class `Store` |
| `ResultsPage` | results_page.dfy | the article filter, the year options and the two inputs |
| `CitationChart` | citation_chart.dfy | the per-year accumulator, the year order and the bar data |
| `Years` | years.dfy | the truthy-year lists both views derive |
| `Text` | text.dfy | the Python and JavaScript string primitives the code relies on, with their exact edge cases (listed below) |
| `Sorting` | sorting.dfy | a stable sort by a comparator: Python's `list.sort` and `Array.prototype.sort`; the history's `ORDER BY` is modelled with it as well |
| `Wrappers` | wrappers.dfy | `Option` and `Result` |

The Python and JavaScript primitives in `Text` are:

- `str.find` returning -1;
- slices with negative or overlong bounds;
- `strip`, `split`, `join`, `isdigit` and `int()`;
- `parseInt`;
- string comparison.

The model passes in everything it does not compute itself:

- **Page fetches.** A page fetch is a function from URL to `Option<seq<Div>>`. `None` stands for a request that failed, an exception, or a robot check the browser fallback could not pass.
- **Clock readings.** The current year, the year bound fixed when the request schema is defined, and the insertion instants are parameters.
- **An exception in the search handler.** It is a boolean flag, `raises`.

State that the source updates in place is a class, and so is every loop in the source: the `articles` and `searches` tables are fields of `Api.Store`. These are methods with loops:

- `Spider.GetYear`, `Spider.FillFromPage` and `Spider.Search`;
- `Export.ToBibtex`;
- `Api.Store.InsertArticles`;
- `CitationChart.YearCitations`.

Each is proved against a function that specifies it.

## Model

| member | source | states |
|---|---|---|
| Models.NewArticle | backend/models/article.py:44-55 | An article built from its title alone has every other field at its declared default: no id, authors, venue, publisher, year, description, url or timestamp, 0 citations and 0.0 per year. |
| Models.NewSearch | backend/models/article.py:61-68 | A new search record keeps its keyword and years and has no id, no results and no articles. |
| Models.Validate | backend/models/article.py:74-79 | A body is accepted exactly when all of these hold: the keyword has 1 to 200 characters, `num_results` (default 50) is in 10..1000, each given year is in 1900..the bound, and `sort_by` (default "citations") is one of the three names. An accepted request carries the values given or the defaults. A rejection lists exactly the failing fields, each of the five request fields by its name. |
| Models.DefaultsOnlyNeedKeyword | backend/models/article.py:74-79 | A body with only a keyword is accepted exactly when the keyword has 1 to 200 characters, and then gets 50 results, no years and "citations". |
| Models.YearOrderNotEnforced | backend/models/article.py:77-78 | A start year after the end year is accepted: nothing relates the two. |
| Models.AcceptedRequestBounds | backend/models/article.py:74-79 | Every accepted request has the bounds the handler and the spider rely on. |
| Spider.CreateMainUrl | backend/services/original_spider.py:43-53 | The URL is the base template followed by filters that read back as the start year when it is truthy and the end year when it is truthy and not the current year. |
| Spider.FiltersReadBack | backend/services/original_spider.py:46-51 | The two optional filters, present or absent, read back as the start year and the end year they were built from. |
| Spider.ReadParamOf | backend/services/original_spider.py:47-51 | A filter `name` followed by a year's decimal text reads back as that year and leaves the rest. |
| Spider.PageUrlShape | backend/services/original_spider.py:247-248 | Every page URL is the Scholar query with the offset, the keyword with spaces turned to `+`, the fixed parameters, and then the year filters. |
| Spider.GetCitations | backend/services/original_spider.py:55-64 | With no `Cited by `, the count is 0, and it is 0 too when `int()` rejects the count text. |
| Spider.CitationText | backend/services/original_spider.py:57-62 | There is a count text exactly when `Cited by ` occurs. It runs from after the first marker up to the next `<`, and with no `<` after the marker it stops one character before the end. |
| Spider.CitationsReadBack | backend/services/original_spider.py:57-62 | A count written after the first `Cited by ` and closed by a tag is read back exactly. |
| Spider.CitationsWithoutTag | backend/services/original_spider.py:60-62 | Without a closing `<` the last digit is lost: `Cited by 12` reads as 1. |
| Spider.CitationsCutShort | backend/services/original_spider.py:57-62 | When digits follow the marker and no `<` follows them, the text handed to `int()` is the digits without the last one. |
| Spider.WindowBound | backend/services/original_spider.py:71-73 | A year window holds at most four characters, so a year read from it is at most 9999. |
| Spider.YearFrom | backend/services/original_spider.py:69-76 | The year is the value of the window before the first dash, at or after the start index, whose window is all digits. It is 0 when there is no such dash and never exceeds 9999. |
| Spider.YearOf | backend/services/original_spider.py:66-76 | The year is the value of the first all-digit window before a dash, 0 when there is none, and never above 9999. |
| Spider.GetYear | backend/services/original_spider.py:66-76 | The loop returns the value of the window `content[i-5:i-1]` before the first dash whose window is all digits, and 0 when there is none. |
| Spider.GetAuthor | backend/services/original_spider.py:78-82 | With the first `-` at an index above 2, the author is the dash-free text from index 2 up to the character before that dash; otherwise it is the whole text. |
| Spider.Publisher | backend/services/original_spider.py:189-191 | Without a `-`, the publisher is "Publisher not found"; otherwise it is the stripped text after the last `-`. |
| Spider.DropLastSegment | backend/services/original_spider.py:195 | Joining all comma-separated segments but the last is the text before the last comma with its commas read as spaces, and is empty without a comma. |
| Spider.Venue | backend/services/original_spider.py:193-197 | With fewer than two dashes, the venue is "Venue not found"; otherwise it is the text between the last two dashes, cut at its last comma and stripped. |
| Spider.YearsPassed | backend/services/original_spider.py:216 | The divisor is at least 1, and it is the age in years when that is larger. |
| Spider.PerYear | backend/services/original_spider.py:213-217 | The rate is positive exactly when the year and the count are both positive. It is 0 otherwise, never exceeds the count, and multiplied by the years passed gives the count back. |
| Spider.ParseDiv | backend/services/original_spider.py:158-229 | A result without `h3` gives no article. Otherwise: the title and url come from the link, or from the heading when there is none; the count, year, authors, venue and publisher come from the scanners, or their not-found texts without a byline; a year of 0 becomes none; the rate is PerYear of the count and year; the snippet is stripped. |
| Spider.KeptOf | backend/services/original_spider.py:287-289 | A result contributes its article exactly when it parses and its title is neither empty nor "Could not catch title". |
| Spider.PageArticles | backend/services/original_spider.py:283-291 | A page contributes at most one article per result, each passing the title check. |
| Spider.Harvest | backend/services/original_spider.py:247-304 | Every article collected from the pages passes the title check. |
| Spider.HarvestProvenance | backend/services/original_spider.py:247-289 | Every collected article was kept from a page that was fetched at an offset `n + 10k` below `num_results`. |
| Spider.HarvestAllFailed | backend/services/original_spider.py:251-268 | When no page can be fetched, every page is skipped and nothing is collected. |
| Spider.FillFromPage | backend/services/original_spider.py:283-291 | The inner loop appends, in page order, the page's kept articles until `num_results` are held: the result is the first `num_results` of the old list followed by the page's articles. |
| Spider.Take | backend/services/original_spider.py:283-284 | The cap keeps a prefix of at most `num_results` articles, exactly that many when there are enough, and none when the limit is not positive. |
| Spider.SearchResult | backend/services/original_spider.py:235-307 | The search returns at most `num_results` articles, all of which pass the title check. |
| Spider.SearchProvenance | backend/services/original_spider.py:247-289 | Every article returned comes from the page fetched at some offset `10k` below `num_results`. |
| Spider.Search | backend/services/original_spider.py:235-307 | The paging loop returns exactly the first `num_results` articles of the uncapped harvest. The harvest skips failed pages and stops at the first page without results. |
| Export.DropEmpty | backend/services/export.py:47 | The comprehension keeps exactly the fields whose value is non-empty, unchanged. |
| Export.BibEntry | backend/services/export.py:35-47 | An entry has these fields and no empty value: type `article` and ID `article{i+1}`; an author, "Unknown" when absent or empty; a year exactly when it is truthy, as its decimal text; title, journal (the venue), publisher, url and abstract, each present exactly when non-empty and then unchanged. |
| Export.RawEntry | backend/services/export.py:35-46 | The dictionary built for an article has exactly the nine keys. |
| Export.FieldNamesDistinct | backend/services/export.py:35-46 | Different fields have different BibTeX key names. |
| Export.BibIdsDistinct | backend/services/export.py:37 | Entries built at different positions have different IDs. |
| Export.EntryIdsDistinct | backend/services/export.py:37 | In a list of entries built one per article, no two IDs are equal. |
| Export.EntriesOfAppend | backend/services/export.py:35-47 | One more article's entry, built at the next position, extends a list of entries built one per article. |
| Export.ToBibtex | backend/services/export.py:31-48 | The loop builds one entry per article, in order: entry `i` is BibEntry of article `i`, and the IDs are pairwise distinct. |
| Api.SortArticles | backend/api/main.py:74-79 | The sort step is a permutation of the spider's list, and any other `sort_by` leaves the list as it was. |
| Api.ComparatorsArePreorders | backend/api/main.py:74-79 | Each of the three key orders is total and transitive. |
| Api.SortArticlesDescending | backend/api/main.py:74-79 | After the sort, the list is its old length and descending in citations, citations per year, or `year or 0`, whichever `sort_by` names. |
| Api.SortArticlesStable | backend/api/main.py:74-79 | Articles with equal keys keep the spider's order. |
| Api.NextId | backend/api/main.py:57-59 | A new row's id is at least 1 and exceeds every id in use. The same rule numbers the article rows inserted at lines 81-94. |
| Api.Lookup | backend/api/main.py:133-138 | The lookup finds a row with that id exactly when one exists. |
| Api.ArticlesOf | backend/api/main.py:133-135 | A search's articles are at most the rows of the table, and each one is the article of a row that belongs to that search. |
| Api.ArticlesOfAbsent | backend/api/main.py:133-135 | A search that no row belongs to has no articles. |
| Api.StoredRows | backend/api/main.py:81-94 | Row `i` of the inserted rows has id `first + i`, the search's id and article `i` stamped with that id and time. |
| Api.StoredArticles | backend/api/main.py:81-94 | Article `i` as stored is article `i` stamped with id `first + i` and the insertion time, and no article is added or lost. |
| Api.ArticlesOfStoredRows | backend/api/main.py:81-94 | The rows inserted for a search read back as its stored articles, and as nothing for any other search. |
| Api.ArticlesOfStored | backend/api/main.py:81-94 | Inserted rows are exactly the articles of their search, in order, and belong to no other search. |
| Api.ArticlesOfAppend | backend/api/main.py:81-94 | Reading a search's articles across appended rows reads each part in turn. |
| Api.LookupAppend | backend/api/main.py:57-59 | Appending a search row changes only what its own id finds. |
| Api.RemoveSearch | backend/api/main.py:207-208 | The delete keeps exactly the searches with another id. |
| Api.RemoveRows | backend/models/article.py:41 | The cascade keeps exactly the article rows of other searches. |
| Api.LookupRemove | backend/api/main.py:207-208 | After the delete, the search is not found and every other search is found as before. |
| Api.ArticlesOfRemove | backend/models/article.py:41 | After the cascade, the search has no articles and every other search keeps its own. |
| Api.RemoveSearchIncreasing | backend/api/main.py:207-208 | Deleting a search keeps the ids unique and increasing. |
| Api.RemoveRowsIncreasing | backend/models/article.py:41 | The cascade keeps the article row ids unique and increasing. |
| Api.SearchIdsIncreasingAppend | backend/api/main.py:57-59 | Appending a row with a fresh, larger id keeps the ids unique and increasing. |
| Api.RowIdsIncreasingAppend | backend/api/main.py:81-97 | The same for article rows. |
| Api.ConsistentNewSearch | backend/api/main.py:52-59 | A committed new search keeps the tables consistent. It is found by its id and has no articles yet. |
| Api.ConsistentAddRows | backend/api/main.py:81-97 | Inserting a stored search's articles keeps the tables consistent. |
| Api.ConsistentRetotal | backend/api/main.py:96-97 | Rewriting `total_results` keeps the tables consistent and the search found. |
| Api.Window | backend/api/main.py:121-122 | OFFSET and LIMIT as SQLite applies them: a negative offset counts as 0 and a negative limit as none. The result has at most `limit` entries when the limit is not negative, and it is the matching slice. |
| Api.WindowOfSorted | backend/api/main.py:120-122 | A page of an ordered list is ordered and holds only the list's elements. |
| Api.HistoryShape | backend/api/main.py:117-124 | The history page is newest first, holds at most `limit` searches, and holds only stored ones. |
| Api.HistoryRecords | backend/api/main.py:117-125 | The records returned are newest first and at most `limit`, and each one is a stored search. |
| Api.HistoryWindow | backend/api/main.py:117-125 | Entry `i` of the page is the record of the search at position `skip + i` of the newest-first order. The page has `limit` entries, or fewer when the table runs out (none when `skip` is past the end); a negative `skip` counts as 0 and a negative `limit` means no limit. |
| Api.HistoryListsAll | backend/api/main.py:117-125 | With no offset and no limit, the page is a rearrangement of the whole table. It has one entry per stored search, holds the record of every one, and no id appears twice. |
| Api.RecordsCover | backend/api/main.py:117-125 | A rearrangement of the table yields the record of every stored search. |
| Api.RecordIdsDistinct | backend/models/article.py:34 | Searches with distinct ids give records with distinct ids. |
| Api.PermutedIdsDistinct | backend/models/article.py:34 | Any rearrangement of the searches table has no repeated id, because the primary keys are unique. |
| Api.IncreasingIdsOrdered | backend/models/article.py:34 | In a table whose ids rise row by row, each id is below every later one. |
| Api.HistoryPagesJoin | backend/api/main.py:121-122 | The first `a` entries followed by the next `b` are the first `a + b`. |
| Api.FormatInfo | backend/api/main.py:164-181 | Exactly the four formats csv, json, excel and bibtex are known. |
| Api.FormatSuffixes | backend/api/main.py:164-181 | Every suffix starts with a dot, and different formats have different suffixes. |
| Api.Records | backend/api/main.py:117-125 | Each history entry is the record of its search with that search's articles. |
| Api.RecordsStored | backend/api/main.py:117-125 | The records of stored searches are all stored searches. |
| Api.RecordsRecent | backend/api/main.py:120-125 | Records of searches listed newest first are listed newest first. |
| Api.Store.constructor | backend/api/main.py:17-21 | The store starts with both tables empty. |
| Api.Store.InsertArticles | backend/api/main.py:81-94 | The loop appends one row per article, in order, numbered after the largest row id, and touches no search. |
| Api.Store.SubmitSearch | backend/api/main.py:46-108 | An invalid body gets 422, naming the failing fields, and stores nothing. Otherwise the search row is committed with 0 results. If the handler raises, the answer is 500, the article rows are rolled back and that row stays. Otherwise the spider's articles, sorted by `sort_by`, are stored in order, and the row's `total_results` equals the number of its stored articles and of the articles returned. |
| Api.Store.History | backend/api/main.py:111-125 | Entry `i` is the record, with its articles, of the search at position `skip + i` when the table is ordered by `created_at`, newest first. The answer is exactly as long as `skip` and `limit` allow, is newest first, and holds only stored searches. |
| Api.Store.Details | backend/api/main.py:128-143 | An unknown id gets 404 and nothing else does. A known id gets its own search: its id, keyword, years, stored total, creation instant and articles. |
| Api.Store.ExportSearch | backend/api/main.py:146-189 | The corrected export. An unknown id gets 404 before the format is checked, and an unknown format gets 400. Otherwise the download is named `scholar_results_<keyword><suffix>`, has the format's media type and carries the search's articles. |
| Api.Store.ExportAsWritten | backend/api/main.py:158-189 | The export as written: 404 for an unknown id, and 500 for a search with articles, whatever the format. A search without articles gets 400 for an unknown format and 500 when its keyword is not latin-1. Otherwise it gets the corrected export's download, which is empty. It succeeds exactly in that last case. |
| Api.ExportFinding | backend/api/main.py:162 | For a stored search with at least one article, the export as written fails with 500 in every format, and the intended export gives the csv download. |
| Api.HeaderFinding | backend/api/main.py:183-189 | For a stored search without articles whose keyword is "深度学习", the export as written fails with 500 in every known format, and the intended export gives the csv download. |
| Api.ExportWithoutArticles | backend/api/main.py:161-189 | For a search without articles and a latin-1 keyword, the export as written gives the same answer as the corrected export in every format. |
| Api.HeaderLatin1 | backend/api/main.py:186-188 | The `Content-Disposition` value `attachment; filename=scholar_results_<keyword><suffix>` can be encoded as latin-1 exactly when the keyword can. |
| Api.Store.Delete | backend/api/main.py:192-210 | An unknown id gets 404 and nothing changes. Otherwise the search and exactly its article rows are removed, and the tables stay consistent. |
| Years.YearList | frontend/src/pages/ResultsPage.tsx:34 | `map(a => a.year).filter(Boolean)` holds exactly the truthy years, and no 0. |
| Years.Dedup | frontend/src/pages/ResultsPage.tsx:34 | Spreading a `Set` gives a list without repeats and with the same values. |
| Years.DistinctYears | frontend/src/pages/ResultsPage.tsx:34 | Every truthy year appears once, and nothing else does. |
| ResultsPage.FilteredArticles | frontend/src/pages/ResultsPage.tsx:28-32 | Without articles, nothing is shown. Otherwise exactly the articles that pass the filter are shown: every year under a falsy year filter, else exactly that year, and at least the minimum count. |
| ResultsPage.InitialFilterShowsAll | frontend/src/pages/ResultsPage.tsx:11-32 | Under the initial state (no year, minimum 0), every article with a count of at least 0 is shown, in order. |
| ResultsPage.RaisingMinimumNarrows | frontend/src/pages/ResultsPage.tsx:28-32 | A higher minimum shows the list for a lower one filtered again, so it keeps the backend's order. |
| ResultsPage.DescendingIsPreorder | frontend/src/pages/ResultsPage.tsx:34 | The comparator `b - a` is a total, transitive order. |
| ResultsPage.NewestFirst | frontend/src/pages/ResultsPage.tsx:34 | Sorting distinct years with `b - a` gives them strictly newest first, and none is lost. |
| ResultsPage.YearOptions | frontend/src/pages/ResultsPage.tsx:34 | The options are the distinct truthy years, strictly newest first, and there are none without articles. |
| ResultsPage.YearFromSelect | frontend/src/pages/ResultsPage.tsx:59 | The "All Years" value clears the year filter. |
| ResultsPage.SelectedOptionFilters | frontend/src/pages/ResultsPage.tsx:59-64 | Choosing the option rendered for a year sets the filter to that year. |
| ResultsPage.MinimumFromInput | frontend/src/pages/ResultsPage.tsx:76 | Input that `parseInt` cannot read, the empty input included, sets the minimum to 0. |
| ResultsPage.MinimumOfTypedNumber | frontend/src/pages/ResultsPage.tsx:72-76 | A typed integer becomes the minimum, including a negative one, which `min="0"` does not stop. |
| CitationChart.BucketAppend | frontend/src/components/CitationChart.tsx:32-37 | One more article adds its citations to its year's sum and to no other. |
| CitationChart.BucketOutside | frontend/src/components/CitationChart.tsx:32-37 | A year no article has sums to 0. |
| CitationChart.AccumulateStep | frontend/src/components/CitationChart.tsx:32-37 | One call of the `reduce` callback keeps the accumulator exact for one more article: it still has one key per truthy year, holding that year's sum. |
| CitationChart.YearCitations | frontend/src/components/CitationChart.tsx:32-37 | The `reduce` loop yields one key per truthy year, holding the sum of the citations of that year's articles. |
| CitationChart.ByStringIsOrder | frontend/src/components/CitationChart.tsx:39 | Comparing numbers by their decimal text is total and transitive, and it tells different numbers apart. |
| CitationChart.ChartYears | frontend/src/components/CitationChart.tsx:39 | `sortedYears` holds every truthy year once, in increasing order of decimal text. |
| CitationChart.ChartYearsAnyKeyOrder | frontend/src/components/CitationChart.tsx:39 | Sorting the accumulator's keys gives the same list whatever order the keys come in. |
| CitationChart.SameSortedList | frontend/src/components/CitationChart.tsx:39 | Two arrangements of the same distinct years sort to the same list. |
| Sorting.PermutationDistinct | frontend/src/components/CitationChart.tsx:39 | A rearrangement of distinct keys has no repeats. |
| CitationChart.ChartYearsAscending | frontend/src/components/CitationChart.tsx:39 | When all years are non-negative with the same number of digits, the years run in strictly increasing numeric order. |
| CitationChart.ShorterYearLater | frontend/src/components/CitationChart.tsx:39 | The default sort puts 2000 before 999, because "2000" sorts before "999". |
| CitationChart.SumBucketsAppend | frontend/src/components/CitationChart.tsx:32-46 | Over distinct years, one more article adds its citations once when its year is listed. |
| CitationChart.SumBucketsTotal | frontend/src/components/CitationChart.tsx:32-46 | The sums of distinct years that cover every truthy year add up to the citations of all dated articles. |
| CitationChart.SumOfBars | frontend/src/components/CitationChart.tsx:46 | The bar heights add up to the sums of their years. |
| CitationChart.ChartData | frontend/src/components/CitationChart.tsx:41-47 | The chart has one label and one bar per year, in `sortedYears` order. Each label is the year's decimal text, each bar is that year's citation sum, and the bars add up to all citations of dated articles. |
| Text.Find | backend/services/original_spider.py:57 | `find` gives -1 exactly when there is no occurrence at or after the start, and otherwise the first one. |
| Text.LastIndexOf | backend/services/original_spider.py:190 | The last occurrence of a character, with none after it. |
| Text.PySlice | backend/services/original_spider.py:71 | Slicing with negative or overlong bounds gives the characters between the clamped bounds. |
| Text.PySliceInside | backend/services/original_spider.py:62 | Within bounds, a Python slice is the plain subsequence. |
| Text.PySliceToLast | backend/services/original_spider.py:62 | A slice ending at -1 stops one character before the end. |
| Text.Strip | backend/services/original_spider.py:168 | The stripped text is the piece of the original left once its leading and trailing whitespace, as Python defines it, is removed: everything cut off is whitespace, and the piece neither starts nor ends with whitespace. |
| Text.StripIdempotent | backend/services/original_spider.py:211 | Stripping twice is stripping once. |
| Text.JoinSplitReplace | backend/services/original_spider.py:195 | Splitting at a character and joining with another replaces the one by the other. |
| Text.JoinSplit | backend/services/original_spider.py:195 | Joining the split pieces with the same character gives the text back. |
| Text.Split | backend/services/original_spider.py:189 | `split` gives one more piece than there are separators, and no piece contains the separator. |
| Text.PyIntOfDecimal | backend/services/original_spider.py:62 | `int()` reads a natural number's decimal text back. |
| Text.NatToStringRoundTrip | backend/services/export.py:40 | The digits of a natural number's decimal text have that number as their value. |
| Text.IntToStringRoundTrip | backend/services/export.py:40 | `str()` of an integer reads back as that integer. |
| Text.NatToStringInjective | backend/services/export.py:37 | Different numbers print differently. |
| Text.JsParseIntOfDecimal | frontend/src/pages/ResultsPage.tsx:76 | `parseInt` reads back the decimal text of any integer. |
| Text.LexTotal | frontend/src/components/CitationChart.tsx:39 | String comparison is total. |
| Text.LexTrans | frontend/src/components/CitationChart.tsx:39 | String comparison is transitive. |
| Text.LexAntisymmetric | frontend/src/components/CitationChart.tsx:39 | Strings that compare both ways are equal. |
| Text.LexDigits | frontend/src/components/CitationChart.tsx:39 | On digit strings of one length, string order is numeric order. |
| Text.SameWidthOrder | frontend/src/components/CitationChart.tsx:39 | Natural numbers written with the same number of digits compare as their texts do. |
| Sorting.SortSorted | backend/api/main.py:74-79 | The sort's result is ordered by its comparator. |
| Sorting.SortStable | backend/api/main.py:74-79 | Elements that the comparator ranks equal keep their input order. |
| Sorting.SortSameElements | backend/api/main.py:74-79 | The sort loses no element and adds none. |
| Sorting.Sort | backend/api/main.py:74-79 | The sorted list is a permutation of the input. |
| Sorting.SortDistinct | frontend/src/pages/ResultsPage.tsx:34 | Sorting a list without repeats gives a list without repeats. |
| Sorting.SortedUnique | frontend/src/components/CitationChart.tsx:39 | Under an antisymmetric total order, distinct elements have one sorted arrangement. |
| Sorting.FilterFilter | frontend/src/pages/ResultsPage.tsx:28-32 | Filtering twice is filtering once by both conditions. |
| Sorting.FilterAll | frontend/src/pages/ResultsPage.tsx:28-32 | A filter that passes everything keeps the whole list. |
| Sorting.FilterKeeps | frontend/src/pages/ResultsPage.tsx:28-32 | Every element that passes the filter is kept. |

## Left out

- Network I/O is not modelled. This covers the `requests` session, the Selenium fallback, the 30-second CAPTCHA wait, the half-second sleeps, the robot-keyword check, and the ISO-8859-1 and UTF-8 byte conversions. A fetched page is an abstract `Option<seq<Div>>`.
- HTML parsing by BeautifulSoup is not modelled. The record `Spider.Div` stands for a parsed result. Its fields are the `h3` with its optional link, the texts of `div.gs_a` and `div.gs_rs`, and `str(div)`.
- Console output is not modelled. On a console that cannot encode the emoji, the first `print` (backend/services/original_spider.py:243) raises before any page is fetched. It is outside every `try`, so the whole search raises, and the handler answers 500 with the pending row kept. `Api.Store.SubmitSearch` covers that answer with its `raises` flag. Whether it happens depends on the terminal.
- The `page_articles` counter is not modelled: it only feeds a `print`.
- `_setup_driver`, `_get_element`, `_get_content_with_selenium` and the context-manager methods are left out. They drive a browser, which is I/O.
- Spider.PerYear: the rate is the exact quotient. The source divides in floating point and rounds to two decimals, so its value can differ from the exact one by up to 0.005. Two rates that round to the same value can therefore be ordered differently under `sort_by=citations_per_year`, in the response and in the stored order. For example, with the year 2026 and the scraper returning B (1926, 33 citations) before A (2023, 1 citation), both round to 0.33, so the source keeps [B, A]; the model's exact rates (0.33 and 1/3) give [A, B].
- Spider.GetYear: treats only ASCII digits as digits; `Text.PyInt` has the same restriction. Python's `isdigit` also accepts other Unicode digits, and for superscripts such as "²⁰¹⁹" `int()` then raises ValueError. The bare `except` at backend/services/original_spider.py:74-75 catches it and the function returns 0 at once. On "x ²⁰¹⁹ - B, 2019 - y" the source therefore gives 0, while the model skips that window and gives 2019.
- The clock is not modelled: `datetime.now()` and `datetime.utcnow()` are parameters. The request schema's year bound is fixed when the module is imported, so it is the separate parameter `maxYear`.
- Timestamps: one instant `now` stamps the search row and all of its article rows. The source evaluates the column default `datetime.utcnow` separately for each row it inserts (backend/models/article.py:25 and 39), so those instants may differ slightly.
- SQLAlchemy's async session, `refresh` and the lazy relationship loading are not modelled. The two tables are sequences in rowid order, and a new id is one more than the largest in use, as SQLite assigns them.
- Row order: SQL does not fix the order among searches with equal `created_at` (backend/api/main.py:120), nor the order of a search's articles from `selectinload`, since the relationship at backend/models/article.py:41 has no `order_by`. The model takes rowid order in both places.
- Query defaults and path ids: the defaults `skip=0`, `limit=20` (backend/api/main.py:111-116) and `format="csv"` (backend/api/main.py:146-148) are not modelled; callers pass every value. Path ids are `nat`, so a request such as GET /api/search/-1, which the source answers with 404, cannot be expressed.
- Api.Store.SubmitSearch: an exception from the spider's context manager, the sort or the second commit is the flag `raises`. The 500 detail `str(e)` is left as an empty list, and the rollback removes the pending article rows only.
- Api.Store.ExportSearch: the corrected export promises a download for every stored search and known format. As written, the header also needs a latin-1 keyword, as the second finding shows; `Api.Store.ExportAsWritten` models that 500. How a fixed handler would encode other keywords in the header (for instance RFC 6266's `filename*`) is not modelled.
- Models.Validate: an absent `num_results` or `sort_by` and an explicit JSON `null` are both `None` here, and `None` takes the default. These two fields are not `Optional` (backend/models/article.py:76 and 79), so the source answers 422 to a `null` for either; the model cannot express that request.
- `to_csv`, `to_json` and `to_excel` are not modelled, and neither is the text written by bibtexparser's `BibTexWriter`, which also orders entries by ID and fields by name. These are serialisation libraries. `Export` stops at the entry maps, and `Api.Download` carries the articles handed to the writer.
- `health_check`, the CORS middleware and the application settings are left out. They return or set constants.
- Rendering, React state plumbing and the react-query fetch in the front end are left out.
- JavaScript numbers are doubles. Years and citation counts are unbounded integers here, which agree with doubles below 2^53.
- `Object.keys` order is not modelled. The chart takes the accumulator's keys in first-occurrence order, and `CitationChart.ChartYearsAnyKeyOrder` proves that the sort gives the same list for any order of the keys.
- Concurrent requests to the backend are not modelled.

## Findings

The system is described as exporting a search's articles in any of the four formats. The code as written cannot do this for a search that has articles, nor for a keyword outside latin-1.

| source | as written | input that shows it | evidently intended | confidence | as-written member | corrected member |
|---|---|---|---|---|---|---|
| backend/api/main.py:162 | The export handler calls `ArticleSchema.model_validate`, but the imports at line 12 do not include `ArticleSchema`. The name is looked up once per article inside the list comprehension. For a stored search with at least one article it raises `NameError`, and FastAPI answers 500; a search without articles goes on to the format check. | GET /api/export/1?format=csv after one stored search with at least one article (any format fails the same way) | A download of that search's articles in the requested format, and 400 for an unknown format | high; not executed | Api.Store.ExportAsWritten, Api.ExportFinding | Api.Store.ExportSearch |
| backend/api/main.py:183-189 | The download's `Content-Disposition` header holds the raw keyword (`attachment; filename=scholar_results_<keyword>.csv`). Starlette encodes header values as latin-1, so a keyword with a character above U+00FF raises `UnicodeEncodeError` and the answer is 500. The request schema accepts such keywords. | GET /api/export/1?format=csv after a stored search for "深度学习" that found no articles (a search with articles fails earlier, with the `NameError` above) | A download named after the keyword, in every known format | medium; not executed | Api.Store.ExportAsWritten, Api.HeaderFinding | Api.Store.ExportSearch |

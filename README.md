# Polish local news scraper: a verified model of the search pipeline

`NEWSINPOLISH.py` is a small Streamlit app. It searches a list of Polish news
sites for headlines that mention some keyword and none of a set of exclusion
words, adds the hits of a news-search fallback query, and shows the
de-duplicated rows. This project models the pipeline behind the "Run Search"
button:

- **the per-site scraper** (`scrape_site`): keep every anchor whose stripped text
  is non-empty, mentions some lower-cased keyword and mentions no lower-cased
  exclusion word; make its link absolute against the site URL; emit one
  `{title, link, source}` row per kept anchor, in document order;
- **the news-search fallback** (`scrape_google_news`): the query URL built from
  the keywords, one row per headline anchor, and the link built from its `href`;
- **filter-term parsing**: `[k.strip() for k in text.split(",") if k.strip()]`;
- **aggregation**: the sources scraped in order, the fallback rows appended, and
  `DataFrame.drop_duplicates()` applied.

The network fetch and the HTML parser are a parameter of the model. A
`Fetcher<T>` maps a URL either to the items parsed from its page, in document
order, or to a failure. A failure is any exception the `try` block catches, and
it makes the scraper return no rows.

Modules, one file each:

| file | module | models |
|---|---|---|
| `wrappers.dfy` | `Wrappers` | `Option` and `Result` |
| `py_strings.dfy` | `PyStrings` | the Python `str` operations the pipeline uses: `lower`, `in`, `startswith`, `lstrip`/`rstrip` with a character set, `strip()`, `split(",")`, `join` |
| `articles.dfy` | `Articles` | anchors, headlines, result rows, the fetcher |
| `site_scraper.dfy` | `SiteScraper` | `scrape_site` |
| `google_fallback.dfy` | `GoogleFallback` | `scrape_google_news` |
| `filter_terms.dfy` | `FilterTerms` | keyword and exclusion-word parsing |
| `dedup.dfy` | `Dedup` | `drop_duplicates()` with its defaults |
| `aggregator.dfy` | `Aggregator` | the search run of `main_app` |

The loops of the source are methods proved against specification functions:
- `ScrapeSite` equals `SiteResults`;
- `SearchFallback` equals `FallbackResults`;
- `ScrapeSources` equals `SitesOutcome`;
- `RunSearch` equals `SearchOutcome`.

The lemmas then state what those functions promise.

Three behaviours of the code that the model keeps as written:
- `requests.get` is never followed by a status check, so a page answered with a
  non-200 status is still parsed. In the model only a failed fetch yields no
  rows; the status code plays no part.
- `site["url"]` (line 99) sits outside any `try`. A source entry without a
  `"url"` key therefore ends the whole run with an error, after the earlier
  sources have been fetched. The model returns `Failure(MissingUrl(i))` for the
  first such entry `i`.
- A fallback headline without an `href` raises inside the `try`, so the whole
  fallback returns nothing, not just that headline.

Two runs with the same inputs and the same fetcher results return the same
rows, because every operation here is a function of its inputs.

## Model

| member | source | states |
|---|---|---|
| PyStrings.Lower | NEWSINPOLISH.py:43 | `text.lower()` keeps the length, leaves no modelled capital anywhere in the result, and leaves every character that is not a capital where it was |
| PyStrings.LowerConcat | NEWSINPOLISH.py:43 | each character is lower-cased on its own: lower-casing `a + b` is lower-casing `a`, then `b` |
| PyStrings.LowerChar | NEWSINPOLISH.py:43 | a lower-cased character is never upper case, and a character that is not upper case is unchanged |
| PyStrings.LowerIdempotent | NEWSINPOLISH.py:43-45 | lower-casing twice is lower-casing once |
| PyStrings.StartsWith | NEWSINPOLISH.py:48 | `s.startswith(prefix)`, the occurrence of the prefix at offset 0; `StartsWithIff` characterises it |
| PyStrings.StartsWithIff | NEWSINPOLISH.py:48 | `s.startswith(prefix)` holds exactly when `s` is the prefix followed by some rest |
| PyStrings.Contains | NEWSINPOLISH.py:44-45 | `needle in haystack`, searched from the left; `ContainsIff` ties it to an occurrence at some offset |
| PyStrings.ContainsIff | NEWSINPOLISH.py:44-45 | `needle in haystack` holds exactly when the needle occurs at some offset of the haystack |
| PyStrings.OccursShift | NEWSINPOLISH.py:59 | an occurrence in `b` is an occurrence in `a + b`, shifted by the length of `a` |
| PyStrings.LStrip | NEWSINPOLISH.py:49 | `lstrip(chars)` yields a suffix of the input; every dropped character is in the set; the result does not start with one |
| PyStrings.RStrip | NEWSINPOLISH.py:49 | `rstrip(chars)` yields a prefix of the input; every dropped character is in the set; the result does not end with one |
| PyStrings.Strip | NEWSINPOLISH.py:90-91 | `strip()` never lengthens and leaves no whitespace at either end |
| PyStrings.StripIsTrimmed | NEWSINPOLISH.py:90-91 | `strip()` keeps one slice of the input, with only whitespace before and after it |
| PyStrings.StripClean | NEWSINPOLISH.py:90-91 | a string with no outer whitespace is its own `strip()` |
| PyStrings.StripIdempotent | NEWSINPOLISH.py:90-91 | stripping twice is stripping once |
| PyStrings.Split | NEWSINPOLISH.py:90-91 | `split(",")` yields at least one piece, and no piece contains the separator |
| PyStrings.SplitNoSeparator | NEWSINPOLISH.py:90-91 | a string without the separator splits into itself alone |
| PyStrings.SplitAtSeparator | NEWSINPOLISH.py:90-91 | splitting `a + "," + b` gives the pieces of `a` followed by those of `b` |
| PyStrings.JoinSplit | NEWSINPOLISH.py:90 | joining the pieces of a split with the separator gives back the input |
| PyStrings.SplitJoin | NEWSINPOLISH.py:90 | splitting the join of separator-free parts gives back the parts |
| PyStrings.Join | NEWSINPOLISH.py:59 | `sep.join(parts)`; `JoinSplit`, `SplitJoin`, `JoinLength` and `JoinLayout` pin it down |
| PyStrings.JoinLength | NEWSINPOLISH.py:59 | the length of `sep.join(parts)` is the parts' lengths plus one separator between each pair |
| PyStrings.JoinLayout | NEWSINPOLISH.py:59 | in `sep.join(parts)` part `i` sits at its offset and, unless it is the last part, a separator follows it |
| SiteScraper.AnyOccurs | NEWSINPOLISH.py:44-46 | `any(w.lower() in text_lower for w in words)` holds exactly when some word, lower-cased, occurs in the text |
| SiteScraper.Matches | NEWSINPOLISH.py:42-46 | an anchor text that passes the filter is non-empty and there is at least one keyword |
| SiteScraper.ArticleFor | NEWSINPOLISH.py:47-50 | the row of a kept anchor has the anchor's text as title and the site URL as source, and keeps an `href` starting with "http" as its link |
| SiteScraper.MatchingIndices | NEWSINPOLISH.py:40-46 | the positions of kept anchors: each one has non-empty text, some keyword and no exclusion word; they ascend; every such anchor is listed |
| SiteScraper.SiteRecords | NEWSINPOLISH.py:39-51 | never more rows than anchors, and every row's source is the site URL |
| SiteScraper.SiteRecordsSelect | NEWSINPOLISH.py:39-51 | row `k` is built from the `k`-th kept anchor: title is its text, link its normalised `href`, source the URL; the number of rows equals the number of kept anchors |
| SiteScraper.NoKeywordsNoRecords | NEWSINPOLISH.py:44 | with no keywords no anchor is kept, whatever the exclusion words |
| SiteScraper.NormalizeLink | NEWSINPOLISH.py:47-48 | an `href` starting with "http" is kept as it is |
| SiteScraper.NormalizeLinkJoins | NEWSINPOLISH.py:48-49 | any other `href` becomes the site URL without trailing slashes, exactly one slash, then the `href` without leading slashes |
| SiteScraper.NormalizedStartsWithHttp | NEWSINPOLISH.py:47-49 | against a site URL starting with "http", every normalised link starts with "http" |
| SiteScraper.NormalizeLinkIdempotent | NEWSINPOLISH.py:47-49 | against such a site URL, normalising a normalised link changes nothing |
| SiteScraper.NormalizeLinkExample | NEWSINPOLISH.py:49 | "/foo/bar" against "http://example.com/" becomes "http://example.com/foo/bar" |
| SiteScraper.MissingCharNotContained | NEWSINPOLISH.py:44-45 | a word holding a character the text lacks does not occur in the text |
| SiteScraper.KeepFirstOfTwo | NEWSINPOLISH.py:40-50 | of two anchors where only the first passes the filter, only the first yields a row |
| SiteScraper.ScenarioOneSite | NEWSINPOLISH.py:40-50 | on "http://a.test", "Wypadek drogowy" → "/n1" is kept with link "http://a.test/n1" and "Mecz piłki" is dropped, for keyword "wypadek" and exclusion "piłka" |
| SiteScraper.SiteResults | NEWSINPOLISH.py:32-54 | what `scrape_site` returns: no rows for a failed fetch, otherwise at most one row per anchor, as `SiteRecordsSelect` fixes |
| SiteScraper.ScrapeSite | NEWSINPOLISH.py:32-54 | the loop returns no rows for a failed fetch, otherwise exactly the rows `SiteRecords` specifies |
| GoogleFallback.QueryUrl | NEWSINPOLISH.py:59 | the query URL starts with the search endpoint and is as long as the endpoint plus `"%20".join(keywords)`; its layout is given by `QueryLayout` |
| GoogleFallback.QueryLayout | NEWSINPOLISH.py:59 | the query URL starts with the search endpoint, each keyword follows at its join offset, and "%20" separates consecutive keywords |
| GoogleFallback.PrefixedJoinLayout | NEWSINPOLISH.py:59 | the same layout for any prefix followed by a join |
| GoogleFallback.QueryNoKeywords | NEWSINPOLISH.py:59 | with no keywords the query is the bare endpoint |
| GoogleFallback.NewsLink | NEWSINPOLISH.py:67 | every fallback link starts with "https://news.google.com" |
| GoogleFallback.NewsLinkOfDotRelative | NEWSINPOLISH.py:67 | an `href` "./p" yields the link "https://news.google.com/p" |
| GoogleFallback.HeadlineRecords | NEWSINPOLISH.py:65-68 | rows exist exactly when every headline has an `href`; then there is one row per headline, in order, with its text, the origin plus `href[1:]`, and source "Google News" |
| GoogleFallback.FallbackResults | NEWSINPOLISH.py:57-72 | what `scrape_google_news` returns: no rows for a failed fetch, otherwise at most one row per headline, as `HeadlineRecords` fixes |
| GoogleFallback.FallbackArticleShape | NEWSINPOLISH.py:66-68 | every fallback row has source "Google News" and a link starting with "https://news.google.com" |
| GoogleFallback.SearchFallback | NEWSINPOLISH.py:57-72 | the loop returns no rows for a failed fetch or a missing `href`, otherwise exactly the rows `HeadlineRecords` specifies |
| FilterTerms.StripEach | NEWSINPOLISH.py:90-91 | `k.strip()` applied to every piece, one term per piece in order; `StripEachTrims` says what each term is |
| FilterTerms.StripEachTrims | NEWSINPOLISH.py:90-91 | term `k` has no whitespace at either end and is one slice of piece `k` with only whitespace cut off before and after it |
| FilterTerms.NonEmptyOnly | NEWSINPOLISH.py:90-91 | the filter `if k.strip()` keeps only non-empty terms, each taken from its input; `NonEmptyOnlyConcat` and `NonEmptyOnlyKeepsAll` fix which terms stay and in what order |
| FilterTerms.NonEmptyOnlyConcat | NEWSINPOLISH.py:90-91 | filtering `a + b` is filtering `a`, then `b`: the kept terms stay in input order |
| FilterTerms.NonEmptyOnlyKeepsAll | NEWSINPOLISH.py:90-91 | when every term is non-empty the filter keeps them all |
| FilterTerms.StripEachConcat | NEWSINPOLISH.py:90-91 | stripping the pieces of `a + b` is stripping those of `a`, then those of `b` |
| FilterTerms.StripEachOfClean | NEWSINPOLISH.py:90-91 | clean terms are left unchanged by stripping |
| FilterTerms.LStripKeepsAbsent | NEWSINPOLISH.py:90-91 | `lstrip` introduces no character the input lacks |
| FilterTerms.RStripKeepsAbsent | NEWSINPOLISH.py:90-91 | `rstrip` introduces no character the input lacks |
| FilterTerms.StripKeepsAbsent | NEWSINPOLISH.py:90-91 | `strip()` introduces no character the input lacks |
| FilterTerms.StrippedPiecesClean | NEWSINPOLISH.py:90-91 | stripped, non-empty, comma-free pieces are clean terms |
| FilterTerms.ParseTerms | NEWSINPOLISH.py:90-91 | every parsed term is non-empty, holds no comma and has no whitespace at either end |
| FilterTerms.ParseTermsConcat | NEWSINPOLISH.py:90-91 | terms keep their input order: the terms of `a + "," + b` are those of `a` followed by those of `b` |
| FilterTerms.ParseTermsSingle | NEWSINPOLISH.py:90-91 | a comma-free input gives its stripped self, or nothing when that is empty |
| FilterTerms.ParseJoinRoundTrip | NEWSINPOLISH.py:90-91 | clean terms joined with "," parse back to the same terms |
| FilterTerms.ParseTermsStable | NEWSINPOLISH.py:90-91 | re-joining parsed terms with "," and parsing again changes nothing |
| Dedup.FirstIndex | NEWSINPOLISH.py:109 | the position of the first occurrence of a row |
| Dedup.FirstIndexUnique | NEWSINPOLISH.py:109 | only one position holds a row with no earlier copy |
| Dedup.DropDuplicates | NEWSINPOLISH.py:109 | the result has no two equal rows and holds exactly the rows of the input |
| Dedup.DropDuplicatesOrder | NEWSINPOLISH.py:109 | kept rows appear in the order of their first occurrences in the input |
| Dedup.DropDuplicatesUnique | NEWSINPOLISH.py:109 | any duplicate-free sequence with the same rows, ordered by first occurrence, is the result; the three properties determine it |
| Dedup.DropDuplicatesOfDistinct | NEWSINPOLISH.py:109 | input without duplicates is left unchanged |
| Dedup.DropDuplicatesIdempotent | NEWSINPOLISH.py:109 | de-duplicating twice is de-duplicating once |
| Dedup.DistinctCountsOnce | NEWSINPOLISH.py:109 | a row of a duplicate-free sequence occurs in it exactly once |
| Dedup.DuplicateKeptOnce | NEWSINPOLISH.py:109 | two equal rows anywhere in the input leave exactly one copy |
| Aggregator.FirstWithoutUrl | NEWSINPOLISH.py:98-99 | reports no entry exactly when every entry has "url"; otherwise the first entry without it |
| Aggregator.FirstWithoutUrlIs | NEWSINPOLISH.py:98-99 | an entry without "url" after entries that all have it is the one reported |
| Aggregator.SitesResults | NEWSINPOLISH.py:98-101 | the rows of every source's scrape, concatenated in source order; `SitesResultsConcat`, `SiteRowCollected` and `CollectedRowHasSite` state what it holds |
| Aggregator.Collected | NEWSINPOLISH.py:95-106 | `all_results` before de-duplication: every site row and every fallback row is among them |
| Aggregator.SitesOutcome | NEWSINPOLISH.py:95-102 | the source loop fails exactly when some entry lacks "url", naming the first such entry; a success means every entry has "url" |
| Aggregator.SearchOutcome | NEWSINPOLISH.py:89-109 | a run fails exactly when some source entry lacks "url", and then names the first such entry |
| Aggregator.ScrapeSources | NEWSINPOLISH.py:95-102 | the loop over the sources returns the concatenated site rows in source order, or the failure of the first entry without "url" |
| Aggregator.SitesResultsStep | NEWSINPOLISH.py:98-101 | scraping source `i` extends the rows of the earlier sources by that source's rows |
| Aggregator.RunSearch | NEWSINPOLISH.py:89-109 | parsing, the source loop, the fallback and de-duplication give exactly `SearchOutcome` |
| Aggregator.SitesResultsConcat | NEWSINPOLISH.py:98-101 | the rows of two lists of sources scraped one after the other are the two row lists, in that order |
| Aggregator.SitesResultsSnoc | NEWSINPOLISH.py:98-101 | the last source's rows come after those of the sources before it |
| Aggregator.SiteRowCollected | NEWSINPOLISH.py:98-101 | a row returned by one source's scrape is among the collected rows |
| Aggregator.CollectedRowHasSite | NEWSINPOLISH.py:98-101 | every collected site row comes from the scrape of some source |
| Aggregator.CollectedSources | NEWSINPOLISH.py:95-106 | every collected row is credited to one of the source URLs or to "Google News" |
| Aggregator.FailedSitesGiveNothing | NEWSINPOLISH.py:52-54 | sources whose fetches all fail contribute no rows |
| Aggregator.FallbackIsolation | NEWSINPOLISH.py:104-109 | when every site fetch fails the run still returns the de-duplicated fallback rows |
| Aggregator.NoKeywordsNoSiteRows | NEWSINPOLISH.py:98-101 | with no keywords no source contributes a row |
| Aggregator.SearchResultRows | NEWSINPOLISH.py:95-109 | a run over sources that all have "url" succeeds; its rows are pairwise distinct, are exactly the distinct collected rows, and keep first-collected order |
| Aggregator.CleanTermParsesAlone | NEWSINPOLISH.py:90 | a clean term typed alone parses to itself |
| Aggregator.ScenarioRun | NEWSINPOLISH.py:89-109 | a single source "http://a.test" with anchors "Wypadek drogowy" → "/n1" and "Mecz piłki" → "/s1", keyword input "wypadek", exclusion input "piłka", and a failed fallback: the run returns exactly the one row ("Wypadek drogowy", "http://a.test/n1", "http://a.test") |

## Left out

- The Streamlit user interface is not modelled: the title, inputs, button, progress bar, messages, the result table and the download button (lines 76-89, 93, 97, 102, 110-136). The progress fraction is floating-point display only.
- The password gate `check_password` (lines 12-20) is not modelled; it compares against a constant and does not feed the pipeline.
- `load_sources` (lines 23-29) is file I/O. The source list is an input of the model, as a sequence of string-keyed entries. An entry that is not a JSON object, or whose "url" is not a string, is not represented.
- The HTTP request (`requests.get` with headers and a timeout) and the BeautifulSoup parsing (`find_all("a", href=True)`, `select("article h3 a")`, `get_text(strip=True)`) are the `Fetcher` parameter. The anchor texts it yields are taken as already stripped. An exception raised inside the scraping loop is folded into a failed fetch: the source code returns no rows in both cases.
- `Fetcher<T>` is a function of the URL alone, so a URL listed twice in the sources gets the same page both times within one run; the program fetches it twice and could receive different pages. No proved property depends on this.
- `st.warning` on a caught exception is a display side effect and is not modelled.
- PyStrings.Lower: lower-cases the ASCII letters and the Polish capitals Ą Ć Ę Ł Ń Ó Ś Ź Ż only; Python's full Unicode `str.lower()` (including case mappings that change the length) is not modelled.
- The Excel export through pandas and openpyxl (lines 116-127) is a foreign-library serialisation and is not modelled, so its round trip is not proved.
- A DataFrame row is modelled as the triple (title, link, source). pandas' column handling and index are not modelled.

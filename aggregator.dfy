/**
 * One search run: parse the two filter inputs, scrape every source in order,
 * append the news-search fallback, and drop duplicate rows.
 */
module Aggregator {
  import opened Wrappers
  import opened PyStrings
  import opened Articles
  import opened SiteScraper
  import opened GoogleFallback
  import opened FilterTerms
  import opened Dedup

  /** One entry of the source list, as loaded from JSON: a string-keyed record. */
  type SourceEntry = map<string, string>

  /** Reading `site["url"]` of an entry without that key aborts the whole run. */
  datatype SearchError = MissingUrl(index: nat)

  predicate AllHaveUrl(sources: seq<SourceEntry>)
  {
    forall k :: 0 <= k < |sources| ==> "url" in sources[k]
  }

  /** The position of the first entry without a "url" key, if any. */
  function FirstWithoutUrl(sources: seq<SourceEntry>): (r: Option<nat>)
    ensures r.None? <==> AllHaveUrl(sources)
    ensures r.Some? ==> r.value < |sources| && "url" !in sources[r.value]
    ensures r.Some? ==> forall k :: 0 <= k < r.value ==> "url" in sources[k]
    decreases |sources|
  {
    if sources == [] then None
    else if "url" !in sources[0] then Some(0)
    else
      match FirstWithoutUrl(sources[1..])
      case None => None
      case Some(i) =>
        assert forall k :: 0 <= k < i ==> "url" in sources[1..][k];
        Some(i + 1)
  }

  /** The per-site results of every source, concatenated in source order. */
  function SitesResults(sources: seq<SourceEntry>, keywords: seq<string>, excludeWords: seq<string>,
                        sitePage: Fetcher<Anchor>): seq<Article>
    requires AllHaveUrl(sources)
    decreases |sources|
  {
    if sources == [] then []
    else
      var n := |sources| - 1;
      assert AllHaveUrl(sources[..n]);
      SitesResults(sources[..n], keywords, excludeWords, sitePage)
        + SiteResults(sources[n]["url"], keywords, excludeWords, sitePage)
  }

  /** Everything collected before de-duplication: the sites' results, then the fallback's. */
  function Collected(sources: seq<SourceEntry>, keywords: seq<string>, excludeWords: seq<string>,
                     sitePage: Fetcher<Anchor>, newsPage: Fetcher<Headline>): (r: seq<Article>)
    requires AllHaveUrl(sources)
    ensures forall a :: a in SitesResults(sources, keywords, excludeWords, sitePage) ==> a in r
    ensures forall a :: a in FallbackResults(keywords, newsPage) ==> a in r
  {
    SitesResults(sources, keywords, excludeWords, sitePage) + FallbackResults(keywords, newsPage)
  }

  /**
   * The outcome of pressing "Run Search" with the two text inputs. The run
   * fails exactly when some source entry has no "url", and then names the
   * first such entry.
   */
  function SearchOutcome(sources: seq<SourceEntry>, keywordInput: string, excludeInput: string,
                         sitePage: Fetcher<Anchor>, newsPage: Fetcher<Headline>): (o: Result<seq<Article>, SearchError>)
    ensures o.Failure? <==> exists k :: 0 <= k < |sources| && "url" !in sources[k]
    ensures o.Failure? ==> o.error.index < |sources| && "url" !in sources[o.error.index]
    ensures o.Failure? ==> forall k :: 0 <= k < o.error.index ==> "url" in sources[k]
  {
    match FirstWithoutUrl(sources)
    case Some(i) => Failure(MissingUrl(i))
    case None =>
      Success(DropDuplicates(Collected(sources, ParseTerms(keywordInput), ParseTerms(excludeInput), sitePage, newsPage)))
  }

  /** The sites' rows in source order, or the first entry whose "url" lookup fails. */
  function SitesOutcome(sources: seq<SourceEntry>, keywords: seq<string>, excludeWords: seq<string>,
                        sitePage: Fetcher<Anchor>): (o: Result<seq<Article>, SearchError>)
    ensures o.Failure? <==> exists k :: 0 <= k < |sources| && "url" !in sources[k]
    ensures o.Failure? ==> o.error.index < |sources| && "url" !in sources[o.error.index]
    ensures o.Failure? ==> forall k :: 0 <= k < o.error.index ==> "url" in sources[k]
    ensures o.Success? ==> AllHaveUrl(sources)
  {
    match FirstWithoutUrl(sources)
    case Some(i) => Failure(MissingUrl(i))
    case None => Success(SitesResults(sources, keywords, excludeWords, sitePage))
  }

  /** The loop over the sources: scrape each one in turn and extend the accumulated rows. */
  method ScrapeSources(sources: seq<SourceEntry>, keywords: seq<string>, excludeWords: seq<string>,
                       sitePage: Fetcher<Anchor>)
    returns (outcome: Result<seq<Article>, SearchError>)
    ensures outcome == SitesOutcome(sources, keywords, excludeWords, sitePage)
  {
    var allResults: seq<Article> := [];
    var i := 0;
    while i < |sources|
      invariant 0 <= i <= |sources|
      invariant AllHaveUrl(sources[..i])
      invariant allResults == SitesResults(sources[..i], keywords, excludeWords, sitePage)
    {
      var site := sources[i];
      if "url" !in site {
        FirstWithoutUrlIs(sources, i);
        return Failure(MissingUrl(i));
      }
      var siteResults := ScrapeSite(site["url"], keywords, excludeWords, sitePage);
      allResults := allResults + siteResults;
      SitesResultsStep(sources, i, keywords, excludeWords, sitePage);
      i := i + 1;
    }
    assert sources[..i] == sources;
    return Success(allResults);
  }

  /**
   * The search run of `main_app`: parse the filters, scrape the sources, append
   * the fallback rows and de-duplicate.
   */
  method RunSearch(sources: seq<SourceEntry>, keywordInput: string, excludeInput: string,
                   sitePage: Fetcher<Anchor>, newsPage: Fetcher<Headline>)
    returns (outcome: Result<seq<Article>, SearchError>)
    ensures outcome == SearchOutcome(sources, keywordInput, excludeInput, sitePage, newsPage)
  {
    var kwList := ParseTerms(keywordInput);
    var exList := ParseTerms(excludeInput);
    var sites := ScrapeSources(sources, kwList, exList, sitePage);
    if sites.Failure? {
      return Failure(sites.error);
    }
    var allResults := sites.value;
    var googleResults := SearchFallback(kwList, newsPage);
    allResults := allResults + googleResults;
    outcome := Success(DropDuplicates(allResults));
  }

  /** Scraping source `i` extends the rows of the sources before it by that source's rows. */
  lemma SitesResultsStep(sources: seq<SourceEntry>, i: nat, keywords: seq<string>, excludeWords: seq<string>,
                         sitePage: Fetcher<Anchor>)
    requires i < |sources| && AllHaveUrl(sources[..i]) && "url" in sources[i]
    ensures AllHaveUrl(sources[..i + 1])
    ensures SitesResults(sources[..i + 1], keywords, excludeWords, sitePage)
            == SitesResults(sources[..i], keywords, excludeWords, sitePage)
               + SiteResults(sources[i]["url"], keywords, excludeWords, sitePage)
  {
    var next := sources[..i + 1];
    assert next[..i] == sources[..i];
    forall k | 0 <= k <= i ensures "url" in next[k] {
      if k < i {
        assert next[k] == sources[..i][k];
      }
    }
  }

  /** The first entry lacking "url" is the one `FirstWithoutUrl` reports. */
  lemma FirstWithoutUrlIs(sources: seq<SourceEntry>, i: nat)
    requires i < |sources| && "url" !in sources[i] && AllHaveUrl(sources[..i])
    ensures FirstWithoutUrl(sources) == Some(i)
  {
    forall j | 0 <= j < i ensures "url" in sources[j] {
      assert sources[..i][j] == sources[j];
    }
  }

  /** Results of a list of sources followed by more sources: the two result lists, in that order. */
  lemma {:induction false} SitesResultsConcat(a: seq<SourceEntry>, b: seq<SourceEntry>,
                                              keywords: seq<string>, excludeWords: seq<string>, sitePage: Fetcher<Anchor>)
    requires AllHaveUrl(a) && AllHaveUrl(b)
    ensures AllHaveUrl(a + b)
    ensures SitesResults(a + b, keywords, excludeWords, sitePage)
            == SitesResults(a, keywords, excludeWords, sitePage) + SitesResults(b, keywords, excludeWords, sitePage)
    decreases |b|
  {
    assert AllHaveUrl(a + b) by {
      forall k | 0 <= k < |a + b| ensures "url" in (a + b)[k] {
        if k >= |a| {
          assert (a + b)[k] == b[k - |a|];
        }
      }
    }
    if b == [] {
      assert a + b == a;
    } else {
      var n := |b| - 1;
      var ab := a + b;
      assert ab[..|ab| - 1] == a + b[..n];
      assert ab[|ab| - 1] == b[n];
      SitesResultsSnoc(ab, keywords, excludeWords, sitePage);
      SitesResultsSnoc(b, keywords, excludeWords, sitePage);
      SitesResultsConcat(a, b[..n], keywords, excludeWords, sitePage);
    }
  }

  /** A row returned by one source's scrape is among the collected site rows. */
  lemma {:induction false} SiteRowCollected(sources: seq<SourceEntry>, keywords: seq<string>, excludeWords: seq<string>,
                                            sitePage: Fetcher<Anchor>, k: nat, a: Article)
    requires AllHaveUrl(sources) && k < |sources|
    requires a in SiteResults(sources[k]["url"], keywords, excludeWords, sitePage)
    ensures a in SitesResults(sources, keywords, excludeWords, sitePage)
    decreases |sources|
  {
    var n := |sources| - 1;
    var prefix := sources[..n];
    SitesResultsSnoc(sources, keywords, excludeWords, sitePage);
    if k < n {
      assert prefix[k] == sources[k];
      SiteRowCollected(prefix, keywords, excludeWords, sitePage, k, a);
      assert a in SitesResults(prefix, keywords, excludeWords, sitePage);
    }
  }

  /** The last source's rows come after those of the sources before it. */
  lemma SitesResultsSnoc(sources: seq<SourceEntry>, keywords: seq<string>, excludeWords: seq<string>,
                         sitePage: Fetcher<Anchor>)
    requires AllHaveUrl(sources) && sources != []
    ensures AllHaveUrl(sources[..|sources| - 1])
    ensures SitesResults(sources, keywords, excludeWords, sitePage)
            == SitesResults(sources[..|sources| - 1], keywords, excludeWords, sitePage)
               + SiteResults(sources[|sources| - 1]["url"], keywords, excludeWords, sitePage)
  {
  }

  /** Every collected site row comes from the scrape of some source. */
  lemma {:induction false} CollectedRowHasSite(sources: seq<SourceEntry>, keywords: seq<string>, excludeWords: seq<string>,
                                               sitePage: Fetcher<Anchor>, a: Article)
    requires AllHaveUrl(sources)
    requires a in SitesResults(sources, keywords, excludeWords, sitePage)
    ensures exists k :: 0 <= k < |sources| && a in SiteResults(sources[k]["url"], keywords, excludeWords, sitePage)
    decreases |sources|
  {
    var n := |sources| - 1;
    var prefix := sources[..n];
    assert AllHaveUrl(prefix);
    if a in SitesResults(prefix, keywords, excludeWords, sitePage) {
      CollectedRowHasSite(prefix, keywords, excludeWords, sitePage, a);
      var k :| 0 <= k < |prefix| && a in SiteResults(prefix[k]["url"], keywords, excludeWords, sitePage);
      assert prefix[k] == sources[k];
    } else {
      assert a in SiteResults(sources[n]["url"], keywords, excludeWords, sitePage);
    }
  }

  /** Every collected row is credited either to one of the sources or to the news search. */
  lemma CollectedSources(sources: seq<SourceEntry>, keywords: seq<string>, excludeWords: seq<string>,
                         sitePage: Fetcher<Anchor>, newsPage: Fetcher<Headline>, a: Article)
    requires AllHaveUrl(sources)
    requires a in Collected(sources, keywords, excludeWords, sitePage, newsPage)
    ensures a.source == ProviderName || exists k :: 0 <= k < |sources| && a.source == sources[k]["url"]
  {
    FallbackArticleShape(keywords, newsPage);
    if a in SitesResults(sources, keywords, excludeWords, sitePage) {
      CollectedRowHasSite(sources, keywords, excludeWords, sitePage, a);
      var k :| 0 <= k < |sources| && a in SiteResults(sources[k]["url"], keywords, excludeWords, sitePage);
      var rs := SiteResults(sources[k]["url"], keywords, excludeWords, sitePage);
      var m :| 0 <= m < |rs| && rs[m] == a;
    }
  }

  /** Sources whose fetches all fail contribute nothing. */
  lemma {:induction false} FailedSitesGiveNothing(sources: seq<SourceEntry>, keywords: seq<string>, excludeWords: seq<string>,
                                                  sitePage: Fetcher<Anchor>)
    requires AllHaveUrl(sources)
    requires forall k :: 0 <= k < |sources| ==> sitePage(sources[k]["url"]) == FetchFailed
    ensures SitesResults(sources, keywords, excludeWords, sitePage) == []
    decreases |sources|
  {
    if sources != [] {
      var n := |sources| - 1;
      assert AllHaveUrl(sources[..n]);
      forall k | 0 <= k < n ensures sitePage(sources[..n][k]["url"]) == FetchFailed {
        assert sources[..n][k] == sources[k];
      }
      FailedSitesGiveNothing(sources[..n], keywords, excludeWords, sitePage);
    }
  }

  /** Fallback isolation: when every site fetch fails the run still returns the fallback's rows. */
  lemma FallbackIsolation(sources: seq<SourceEntry>, keywordInput: string, excludeInput: string,
                          sitePage: Fetcher<Anchor>, newsPage: Fetcher<Headline>)
    requires AllHaveUrl(sources)
    requires forall k :: 0 <= k < |sources| ==> sitePage(sources[k]["url"]) == FetchFailed
    ensures SearchOutcome(sources, keywordInput, excludeInput, sitePage, newsPage)
            == Success(DropDuplicates(FallbackResults(ParseTerms(keywordInput), newsPage)))
  {
    FailedSitesGiveNothing(sources, ParseTerms(keywordInput), ParseTerms(excludeInput), sitePage);
    assert [] + FallbackResults(ParseTerms(keywordInput), newsPage) == FallbackResults(ParseTerms(keywordInput), newsPage);
  }

  /** With no keywords no site row matches, so only the fallback can contribute. */
  lemma {:induction false} NoKeywordsNoSiteRows(sources: seq<SourceEntry>, excludeWords: seq<string>, sitePage: Fetcher<Anchor>)
    requires AllHaveUrl(sources)
    ensures SitesResults(sources, [], excludeWords, sitePage) == []
    decreases |sources|
  {
    if sources != [] {
      var n := |sources| - 1;
      assert AllHaveUrl(sources[..n]);
      NoKeywordsNoSiteRows(sources[..n], excludeWords, sitePage);
      var url := sources[n]["url"];
      if sitePage(url).Fetched? {
        NoKeywordsNoRecords(url, sitePage(url).items, excludeWords);
      }
    }
  }

  /**
   * The rows of a successful run: no two equal, exactly the distinct rows
   * collected, in the order each was first collected.
   */
  lemma SearchResultRows(sources: seq<SourceEntry>, keywordInput: string, excludeInput: string,
                         sitePage: Fetcher<Anchor>, newsPage: Fetcher<Headline>)
    requires AllHaveUrl(sources)
    ensures var all := Collected(sources, ParseTerms(keywordInput), ParseTerms(excludeInput), sitePage, newsPage);
            var o := SearchOutcome(sources, keywordInput, excludeInput, sitePage, newsPage);
            && o.Success?
            && NoDuplicates(o.value)
            && (forall a :: a in o.value <==> a in all)
            && (forall i, j :: 0 <= i < j < |o.value| ==> FirstIndex(all, o.value[i]) < FirstIndex(all, o.value[j]))
  {
    var all := Collected(sources, ParseTerms(keywordInput), ParseTerms(excludeInput), sitePage, newsPage);
    DropDuplicatesOrder(all);
  }

  /** A single clean term typed alone parses to itself. */
  lemma CleanTermParsesAlone(t: string)
    requires CleanTerm(t)
    ensures ParseTerms(t) == [t]
  {
    ParseJoinRoundTrip([t]);
  }

  lemma ScenarioKeywords()
    ensures ParseTerms("wypadek") == ["wypadek"]
  {
    assert "wypadek"[0] == 'w' && "wypadek"[6] == 'k';
    CleanTermParsesAlone("wypadek");
  }

  lemma ScenarioExcludeWords()
    ensures ParseTerms("piłka") == ["piłka"]
  {
    assert "piłka"[0] == 'p' && "piłka"[4] == 'a';
    CleanTermParsesAlone("piłka");
  }

  /** The scraped rows of the one-source scenario. */
  lemma ScenarioSiteRows(sitePage: Fetcher<Anchor>)
    requires sitePage("http://a.test") == Fetched([Anchor("Wypadek drogowy", "/n1"), Anchor("Mecz piłki", "/s1")])
    ensures AllHaveUrl([map["url" := "http://a.test"]])
    ensures SitesResults([map["url" := "http://a.test"]], ["wypadek"], ["piłka"], sitePage)
            == [Article("Wypadek drogowy", "http://a.test/n1", "http://a.test")]
  {
    ScenarioOneSite();
    var sources := [map["url" := "http://a.test"]];
    SitesResultsSnoc(sources, ["wypadek"], ["piłka"], sitePage);
    assert sources[..0] == [];
  }

  /** The outcome of a run whose inputs parse to `keywords` and `excludeWords`. */
  lemma SearchOutcomeOfTerms(sources: seq<SourceEntry>, keywordInput: string, excludeInput: string,
                             keywords: seq<string>, excludeWords: seq<string>,
                             sitePage: Fetcher<Anchor>, newsPage: Fetcher<Headline>)
    requires AllHaveUrl(sources)
    requires ParseTerms(keywordInput) == keywords && ParseTerms(excludeInput) == excludeWords
    ensures SearchOutcome(sources, keywordInput, excludeInput, sitePage, newsPage)
            == Success(DropDuplicates(Collected(sources, keywords, excludeWords, sitePage, newsPage)))
  {
  }

  /** The rows collected in the one-source scenario when the news search fails. */
  lemma ScenarioCollected(sitePage: Fetcher<Anchor>, newsPage: Fetcher<Headline>)
    requires sitePage("http://a.test") == Fetched([Anchor("Wypadek drogowy", "/n1"), Anchor("Mecz piłki", "/s1")])
    requires newsPage(QueryUrl(["wypadek"])) == FetchFailed
    ensures AllHaveUrl([map["url" := "http://a.test"]])
    ensures Collected([map["url" := "http://a.test"]], ["wypadek"], ["piłka"], sitePage, newsPage)
            == [Article("Wypadek drogowy", "http://a.test/n1", "http://a.test")]
  {
    ScenarioSiteRows(sitePage);
    var row := [Article("Wypadek drogowy", "http://a.test/n1", "http://a.test")];
    assert row + [] == row;
  }

  /**
   * One source whose page holds a matching and a non-matching anchor, and a
   * news search that fails: the run returns exactly the one matching row.
   */
  lemma ScenarioRun(sitePage: Fetcher<Anchor>, newsPage: Fetcher<Headline>)
    requires sitePage("http://a.test") == Fetched([Anchor("Wypadek drogowy", "/n1"), Anchor("Mecz piłki", "/s1")])
    requires newsPage(QueryUrl(["wypadek"])) == FetchFailed
    ensures SearchOutcome([map["url" := "http://a.test"]], "wypadek", "piłka", sitePage, newsPage)
            == Success([Article("Wypadek drogowy", "http://a.test/n1", "http://a.test")])
  {
    ScenarioKeywords();
    ScenarioExcludeWords();
    ScenarioCollected(sitePage, newsPage);
    SearchOutcomeOfTerms([map["url" := "http://a.test"]], "wypadek", "piłka", ["wypadek"], ["piłka"], sitePage, newsPage);
    DropDuplicatesOfDistinct([Article("Wypadek drogowy", "http://a.test/n1", "http://a.test")]);
  }
}

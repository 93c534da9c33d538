/**
 * The per-site scraper: every anchor of a fetched page whose text mentions a
 * keyword and no exclusion word becomes one article, its link made absolute
 * against the site URL. A failed fetch yields no articles.
 */
module SiteScraper {
  import opened PyStrings
  import opened Articles

  /** `any(w.lower() in lowered for w in words)`. */
  function AnyOccurs(words: seq<string>, lowered: string): (r: bool)
    ensures r <==> exists i :: 0 <= i < |words| && Contains(lowered, Lower(words[i]))
    decreases |words|
  {
    if |words| == 0 then false
    else Contains(lowered, Lower(words[0])) || AnyOccurs(words[1..], lowered)
  }

  /** The filter applied to an anchor's text: non-empty, some keyword, no exclusion word. */
  predicate Matches(text: string, keywords: seq<string>, excludeWords: seq<string>)
    ensures Matches(text, keywords, excludeWords) ==> text != [] && keywords != []
  {
    text != "" && AnyOccurs(keywords, Lower(text)) && !AnyOccurs(excludeWords, Lower(text))
  }

  /**
   * `r` is `url` with its trailing slashes (the first `n` characters kept),
   * one slash, then `href` with its leading slashes removed.
   */
  ghost predicate JoinedWithOneSlash(url: string, href: string, r: string, n: int)
  {
    && 0 <= n <= |url| && n < |r|
    && r[..n] == url[..n]
    && (forall i :: n <= i < |url| ==> url[i] == '/')
    && (n == 0 || url[n - 1] != '/')
    && r[n] == '/'
    && |r| - (n + 1) <= |href|
    && r[n + 1..] == href[|href| - (|r| - (n + 1))..]
    && (forall i :: 0 <= i < |href| - (|r| - (n + 1)) ==> href[i] == '/')
    && (n + 1 == |r| || r[n + 1] != '/')
  }

  /**
   * The link stored for an anchor: an `href` starting with "http" is kept,
   * any other is joined to the site URL with exactly one slash.
   */
  function NormalizeLink(url: string, href: string): (r: string)
    ensures StartsWith(href, "http") ==> r == href
  {
    if StartsWith(href, "http") then href
    else RStrip(url, {'/'}) + "/" + LStrip(href, {'/'})
  }

  /**
   * A link not starting with "http" becomes the site URL without its trailing
   * slashes, one slash, and the link without its leading slashes.
   */
  lemma NormalizeLinkJoins(url: string, href: string)
    requires !StartsWith(href, "http")
    ensures exists n :: JoinedWithOneSlash(url, href, NormalizeLink(url, href), n)
  {
    var base := RStrip(url, {'/'});
    var tail := LStrip(href, {'/'});
    var r := base + "/" + tail;
    assert r[..|base|] == base;
    assert r[|base| + 1..] == tail;
    assert JoinedWithOneSlash(url, href, r, |base|);
    assert NormalizeLink(url, href) == r;
  }

  /** For a site URL starting with "http", every normalised link starts with "http". */
  lemma NormalizedStartsWithHttp(url: string, href: string)
    requires StartsWith(url, "http")
    ensures StartsWith(NormalizeLink(url, href), "http")
  {
    if !StartsWith(href, "http") {
      var base := RStrip(url, {'/'});
      var tail := LStrip(href, {'/'});
      assert url[3] == 'p';
      assert |base| >= 4;
      assert base[..4] == url[..4];
      assert (base + "/" + tail)[..4] == base[..4];
    }
  }

  /** For a site URL starting with "http", normalising a normalised link changes nothing. */
  lemma NormalizeLinkIdempotent(url: string, href: string)
    requires StartsWith(url, "http")
    ensures NormalizeLink(url, NormalizeLink(url, href)) == NormalizeLink(url, href)
  {
    NormalizedStartsWithHttp(url, href);
  }

  /** A relative path against a site root with a trailing slash. */
  lemma NormalizeLinkExample()
    ensures NormalizeLink("http://example.com/", "/foo/bar") == "http://example.com/foo/bar"
  {
    ExampleHrefStripped();
    ExampleUrlStripped();
    assert !StartsWith("/foo/bar", "http") by {
      assert "/foo/bar"[0] != 'h';
    }
  }

  lemma ExampleHrefStripped()
    ensures LStrip("/foo/bar", {'/'}) == "foo/bar"
  {
    assert "/foo/bar"[0] == '/';
    assert "/foo/bar"[1..] == "foo/bar" && "foo/bar"[0] == 'f';
  }

  lemma ExampleUrlStripped()
    ensures RStrip("http://example.com/", {'/'}) == "http://example.com"
  {
    assert "http://example.com/"[..18] == "http://example.com";
    assert "http://example.com"[17] == 'm';
  }

  /** The article emitted for a kept anchor. */
  function ArticleFor(url: string, a: Anchor): (r: Article)
    ensures r.title == a.text && r.source == url
    ensures StartsWith(a.href, "http") ==> r.link == a.href
  {
    Article(a.text, NormalizeLink(url, a.href), url)
  }

  /** The articles `scrape_site` collects from the anchors of a fetched page, in order. */
  function SiteRecords(url: string, anchors: seq<Anchor>, keywords: seq<string>, excludeWords: seq<string>): (r: seq<Article>)
    ensures |r| <= |anchors|
    ensures forall k :: 0 <= k < |r| ==> r[k].source == url
    decreases |anchors|
  {
    if anchors == [] then []
    else
      var last := anchors[|anchors| - 1];
      SiteRecords(url, anchors[..|anchors| - 1], keywords, excludeWords)
        + if Matches(last.text, keywords, excludeWords) then [ArticleFor(url, last)] else []
  }

  /** The positions of the anchors the filter keeps, ascending, and all of them. */
  function MatchingIndices(anchors: seq<Anchor>, keywords: seq<string>, excludeWords: seq<string>): (ix: seq<nat>)
    ensures forall k :: 0 <= k < |ix| ==> ix[k] < |anchors| && Matches(anchors[ix[k]].text, keywords, excludeWords)
    ensures forall k, l :: 0 <= k < l < |ix| ==> ix[k] < ix[l]
    ensures forall i :: 0 <= i < |anchors| && Matches(anchors[i].text, keywords, excludeWords) ==> i in ix
    decreases |anchors|
  {
    if anchors == [] then []
    else
      var n := |anchors| - 1;
      var prefix := anchors[..n];
      assert forall i :: 0 <= i < n ==> prefix[i] == anchors[i];
      MatchingIndices(prefix, keywords, excludeWords)
        + if Matches(anchors[n].text, keywords, excludeWords) then [n] else []
  }

  /**
   * Filter soundness, completeness and order: the k-th article comes from the
   * k-th kept anchor, the kept anchors are exactly those that pass the filter,
   * and they are taken in document order.
   */
  lemma {:induction false} SiteRecordsSelect(url: string, anchors: seq<Anchor>, keywords: seq<string>, excludeWords: seq<string>)
    ensures var ix := MatchingIndices(anchors, keywords, excludeWords);
            var r := SiteRecords(url, anchors, keywords, excludeWords);
            |ix| == |r| && forall k :: 0 <= k < |r| ==> r[k] == ArticleFor(url, anchors[ix[k]])
    decreases |anchors|
  {
    if anchors != [] {
      var n := |anchors| - 1;
      var prefix := anchors[..n];
      SiteRecordsSelect(url, prefix, keywords, excludeWords);
      var ix' := MatchingIndices(prefix, keywords, excludeWords);
      forall k | 0 <= k < |ix'| ensures prefix[ix'[k]] == anchors[ix'[k]] { }
    }
  }

  /** With no keywords nothing matches, whatever the exclusion words are. */
  lemma {:induction false} NoKeywordsNoRecords(url: string, anchors: seq<Anchor>, excludeWords: seq<string>)
    ensures SiteRecords(url, anchors, [], excludeWords) == []
    decreases |anchors|
  {
    if anchors != [] {
      NoKeywordsNoRecords(url, anchors[..|anchors| - 1], excludeWords);
    }
  }

  /** A needle holding a character the haystack lacks does not occur in it. */
  lemma {:induction false} MissingCharNotContained(s: string, t: string, c: char)
    requires c in t && c !in s
    ensures !Contains(s, t)
    decreases |s|
  {
    if |s| > 0 {
      MissingCharNotContained(s[1..], t, c);
    }
    if |t| <= |s| {
      var j :| 0 <= j < |t| && t[j] == c;
      assert s[..|t|][j] != c;
    }
  }

  /** Of two anchors where only the first passes the filter, only the first is kept. */
  lemma KeepFirstOfTwo(url: string, first: Anchor, second: Anchor, keywords: seq<string>, excludeWords: seq<string>)
    requires Matches(first.text, keywords, excludeWords)
    requires !Matches(second.text, keywords, excludeWords)
    ensures SiteRecords(url, [first, second], keywords, excludeWords) == [ArticleFor(url, first)]
  {
    assert [first, second][..1] == [first] && [first][..0] == [];
  }

  lemma ScenarioLowerTitle()
    ensures Lower("Wypadek drogowy") == "wypadek drogowy"
  {
  }

  lemma ScenarioLowerTerms()
    ensures Lower("wypadek") == "wypadek" && Lower("piłka") == "piłka"
  {
  }

  lemma ScenarioLowerOtherTitle()
    ensures Lower("Mecz piłki") == "mecz piłki"
  {
  }

  lemma ScenarioFirstAnchorKept()
    ensures Matches("Wypadek drogowy", ["wypadek"], ["piłka"])
  {
    ScenarioLowerTitle();
    ScenarioLowerTerms();
    assert StartsWith("wypadek drogowy", "wypadek");
    MissingCharNotContained("wypadek drogowy", "piłka", 'ł');
  }

  lemma ScenarioSecondAnchorDropped()
    ensures !Matches("Mecz piłki", ["wypadek"], ["piłka"])
  {
    ScenarioLowerTerms();
    ScenarioLowerOtherTitle();
    MissingCharNotContained("mecz piłki", "wypadek", 'w');
  }

  lemma ScenarioLink()
    ensures NormalizeLink("http://a.test", "/n1") == "http://a.test/n1"
  {
    assert "/n1"[0] == '/';
    assert "/n1"[1..] == "n1" && "n1"[0] == 'n';
    assert "http://a.test"[12] == 't';
  }

  /**
   * One site with a matching and a non-matching anchor: only the first becomes an
   * article, with its relative link made absolute.
   */
  lemma ScenarioOneSite()
    ensures SiteRecords("http://a.test", [Anchor("Wypadek drogowy", "/n1"), Anchor("Mecz piłki", "/s1")], ["wypadek"], ["piłka"])
            == [Article("Wypadek drogowy", "http://a.test/n1", "http://a.test")]
  {
    ScenarioFirstAnchorKept();
    ScenarioSecondAnchorDropped();
    ScenarioLink();
    KeepFirstOfTwo("http://a.test", Anchor("Wypadek drogowy", "/n1"), Anchor("Mecz piłki", "/s1"), ["wypadek"], ["piłka"]);
  }

  /** What `scrape_site(url, keywords, exclude_words)` returns: nothing if the fetch fails. */
  function SiteResults(url: string, keywords: seq<string>, excludeWords: seq<string>, fetch: Fetcher<Anchor>): (r: seq<Article>)
    ensures fetch(url).FetchFailed? ==> r == []
    ensures fetch(url).Fetched? ==> |r| <= |fetch(url).items|
  {
    match fetch(url)
    case FetchFailed => []
    case Fetched(anchors) => SiteRecords(url, anchors, keywords, excludeWords)
  }

  /**
   * `scrape_site`: fetch the page, walk its anchors in order and append an
   * article for each one the filter keeps.
   */
  method ScrapeSite(url: string, keywords: seq<string>, excludeWords: seq<string>, fetch: Fetcher<Anchor>)
    returns (articles: seq<Article>)
    ensures articles == SiteResults(url, keywords, excludeWords, fetch)
  {
    var page := fetch(url);
    if page.FetchFailed? {
      return [];
    }
    var anchors := page.items;
    articles := [];
    var i := 0;
    while i < |anchors|
      invariant 0 <= i <= |anchors|
      invariant articles == SiteRecords(url, anchors[..i], keywords, excludeWords)
    {
      var link := anchors[i];
      if link.text != "" {
        var textLower := Lower(link.text);
        if AnyOccurs(keywords, textLower) && !AnyOccurs(excludeWords, textLower) {
          var fullLink := NormalizeLink(url, link.href);
          articles := articles + [Article(link.text, fullLink, url)];
        }
      }
      assert anchors[..i + 1][..i] == anchors[..i];
      i := i + 1;
    }
    assert anchors[..i] == anchors;
  }
}

/**
 * The news-search fallback: one query built from the keywords, every headline
 * link of the result page turned into an article credited to the search
 * provider. No keyword or exclusion filter is applied to these.
 */
module GoogleFallback {
  import opened Wrappers
  import opened PyStrings
  import opened Articles

  const SearchEndpoint: string := "https://news.google.com/search?q="
  const QuerySeparator: string := "%20"
  const Origin: string := "https://news.google.com"
  const ProviderName: string := "Google News"

  /** The search URL: the endpoint followed by the keywords joined with "%20". */
  function QueryUrl(keywords: seq<string>): (r: string)
    ensures StartsWith(r, SearchEndpoint)
    ensures |r| == |SearchEndpoint| + |Join(QuerySeparator, keywords)|
  {
    SearchEndpoint + Join(QuerySeparator, keywords)
  }

  /**
   * The query lists every keyword in order after the endpoint: keyword `i` sits
   * at its join offset and "%20" separates it from the next one.
   */
  lemma QueryLayout(keywords: seq<string>, i: nat)
    requires i < |keywords|
    ensures StartsWith(QueryUrl(keywords), SearchEndpoint)
    ensures OccursAt(QueryUrl(keywords), keywords[i], |SearchEndpoint| + JoinOffset(QuerySeparator, keywords, i))
    ensures i + 1 < |keywords| ==>
              OccursAt(QueryUrl(keywords), "%20", |SearchEndpoint| + JoinOffset(QuerySeparator, keywords, i) + |keywords[i]|)
  {
    PrefixedJoinLayout(SearchEndpoint, QuerySeparator, keywords, i);
  }

  /** `prefix + sep.join(parts)`: the prefix, then each part at its offset shifted by the prefix. */
  lemma PrefixedJoinLayout(prefix: string, sep: string, parts: seq<string>, i: nat)
    requires i < |parts|
    ensures StartsWith(prefix + Join(sep, parts), prefix)
    ensures OccursAt(prefix + Join(sep, parts), parts[i], |prefix| + JoinOffset(sep, parts, i))
    ensures i + 1 < |parts| ==>
              OccursAt(prefix + Join(sep, parts), sep, |prefix| + JoinOffset(sep, parts, i) + |parts[i]|)
  {
    var q := Join(sep, parts);
    var offset := JoinOffset(sep, parts, i);
    JoinLayout(sep, parts, i);
    OccursShift(prefix, q, parts[i], offset);
    if i + 1 < |parts| {
      OccursShift(prefix, q, sep, offset + |parts[i]|);
    }
    PrefixStarts(prefix, q);
  }

  /** A string starts with any prefix it was built from. */
  lemma PrefixStarts(prefix: string, rest: string)
    ensures StartsWith(prefix + rest, prefix)
  {
    assert (prefix + rest)[..|prefix|] == prefix;
  }

  /** With no keywords the query is the bare endpoint. */
  lemma QueryNoKeywords()
    ensures QueryUrl([]) == SearchEndpoint
  {
    assert SearchEndpoint + [] == SearchEndpoint;
  }

  /**
   * `"https://news.google.com" + href[1:]`: the first character of the raw
   * `href` (the "." of "./articles/...") is dropped; an empty `href` adds nothing.
   */
  function NewsLink(href: string): (r: string)
    ensures StartsWith(r, Origin)
  {
    Origin + if |href| == 0 then "" else href[1..]
  }

  /** The link of a "./" relative headline is the origin followed by the path. */
  lemma NewsLinkOfDotRelative(path: string)
    ensures NewsLink("./" + path) == Origin + "/" + path
  {
    assert ("./" + path)[1..] == "/" + path;
  }

  /**
   * The articles built from the headline anchors, in order; `None` when some
   * anchor has no `href` (the lookup raises and the whole fallback is abandoned).
   */
  function HeadlineRecords(items: seq<Headline>): (r: Option<seq<Article>>)
    ensures r.Some? <==> forall k :: 0 <= k < |items| ==> items[k].href.Some?
    ensures r.Some? ==> |r.value| == |items|
    ensures r.Some? ==> forall k :: 0 <= k < |items| ==>
              r.value[k] == Article(items[k].text, NewsLink(items[k].href.value), ProviderName)
    decreases |items|
  {
    if items == [] then Some([])
    else
      var n := |items| - 1;
      var prefix := items[..n];
      assert forall k :: 0 <= k < n ==> prefix[k] == items[k];
      match HeadlineRecords(prefix)
      case None => None
      case Some(rs) =>
        match items[n].href
        case None => None
        case Some(h) => Some(rs + [Article(items[n].text, NewsLink(h), ProviderName)])
  }

  /** What `scrape_google_news(keywords)` returns: nothing if the fetch or the lookup fails. */
  function FallbackResults(keywords: seq<string>, fetch: Fetcher<Headline>): (r: seq<Article>)
    ensures fetch(QueryUrl(keywords)).FetchFailed? ==> r == []
    ensures fetch(QueryUrl(keywords)).Fetched? ==> |r| <= |fetch(QueryUrl(keywords)).items|
  {
    match fetch(QueryUrl(keywords))
    case FetchFailed => []
    case Fetched(items) =>
      match HeadlineRecords(items)
      case None => []
      case Some(rs) => rs
  }

  /** Every fallback article is credited to the provider and links into its origin. */
  lemma FallbackArticleShape(keywords: seq<string>, fetch: Fetcher<Headline>)
    ensures forall a :: a in FallbackResults(keywords, fetch) ==>
              a.source == ProviderName && StartsWith(a.link, Origin)
  {
    var rs := FallbackResults(keywords, fetch);
    forall a | a in rs ensures a.source == ProviderName && StartsWith(a.link, Origin) {
      var k :| 0 <= k < |rs| && rs[k] == a;
      var href := fetch(QueryUrl(keywords)).items[k].href.value;
      assert (Origin + if |href| == 0 then "" else href[1..])[..|Origin|] == Origin;
    }
  }

  /**
   * `scrape_google_news`: build the query, fetch it and append one article per
   * headline anchor; a headline without `href` abandons the whole result.
   */
  method SearchFallback(keywords: seq<string>, fetch: Fetcher<Headline>) returns (results: seq<Article>)
    ensures results == FallbackResults(keywords, fetch)
  {
    var base := QueryUrl(keywords);
    var page := fetch(base);
    if page.FetchFailed? {
      return [];
    }
    var items := page.items;
    results := [];
    var i := 0;
    while i < |items|
      invariant 0 <= i <= |items|
      invariant HeadlineRecords(items[..i]) == Some(results)
    {
      var item := items[i];
      if item.href.None? {
        return [];
      }
      results := results + [Article(item.text, NewsLink(item.href.value), ProviderName)];
      assert items[..i + 1][..i] == items[..i];
      i := i + 1;
    }
    assert items[..i] == items;
  }
}

/**
 * The values that flow through one search run: the anchors a page offers, the
 * headlines the news search offers, the article records emitted, and the
 * network-and-parser step that turns a URL into those anchors.
 */
module Articles {
  import opened Wrappers

  /** One `<a href>` of a page: its visible text (already whitespace-stripped) and its target. */
  datatype Anchor = Anchor(text: string, href: string)

  /** One `article h3 a` hit of the news search page; such an anchor may lack an `href`. */
  datatype Headline = Headline(text: string, href: Option<string>)

  /** One output row: `{title, link, source}`. Two rows are the same row when all three agree. */
  datatype Article = Article(title: string, link: string, source: string)

  /**
   * What fetching a URL and parsing the body yields: the items in document
   * order, or a failure (connection error, timeout, unparsable body). The HTTP
   * status code plays no part: any response body is parsed.
   */
  datatype Page<T> = Fetched(items: seq<T>) | FetchFailed

  /** The network fetch and HTML parser, taken as a parameter of the model. */
  type Fetcher<T> = string -> Page<T>
}

/** What the core receives from the outside world, as plain values.

    The network (`requests` through `safe_get`, the headless browser through
    `safe_get_js`), the feed parser and the HTML parser are not part of this
    model; a `Net` value stands for all of them for the length of one run. A
    response is `Some(body)` when the page answered with a 2xx status and
    `None` when `safe_get` would have returned `None`. */
module Web {
  import opened Wrappers
  import opened Text

  /** An `<a href=…>` element: its text (BeautifulSoup's
      `get_text(strip=True)`) and its `href` attribute. */
  datatype Anchor = Anchor(text: string, href: string)

  /** The first six fields of a feed entry's `published_parsed`. */
  datatype Timestamp = Timestamp(year: int, month: int, day: int, hour: int, minute: int, second: int)

  /** A syndication-feed entry; a field the feed does not carry is `None`. */
  datatype FeedEntry = FeedEntry(
    title: Option<string>,
    summary: Option<string>,
    link: Option<string>,
    published: Option<Timestamp>)

  datatype Net = Net(
    /** `safe_get(url)`: the body of a successful response. */
    get: string -> Option<string>,
    /** `safe_get_js(url)`: the body of a page rendered by a headless browser. */
    getJs: string -> Option<string>,
    /** `feedparser.parse(url).entries`, empty when the feed is unreachable. */
    feed: string -> seq<FeedEntry>,
    /** The texts of the `p`, `li`, `td` and `div` blocks of an HTML page,
        once `script`, `style`, `nav` and `footer` are removed. */
    blocks: string -> seq<string>,
    /** The `a` elements that carry an `href`, in document order. */
    anchors: string -> seq<Anchor>,
    /** `get_text(separator="\n")` of a page once `script`, `style`, `nav`,
        `footer` and `header` are removed. */
    visibleText: string -> string)

  /** An href made absolute: kept when it starts with "http", prefixed by
      `base` otherwise. */
  function Absolute(base: string, href: string): (link: string)
    ensures StartsWith(href, "http") ==> link == href
    ensures !StartsWith(href, "http") ==> StartsWith(link, base) && EndsWith(link, href) && |link| == |base| + |href|
  {
    if StartsWith(href, "http") then href else base + href
  }
}

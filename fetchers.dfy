/** The Ontario sources of the digest: the government's news feed, the
    legislature's Hansard, the Gazette, the lobbyist and regulatory
    registries and the orders in council. Every fetcher returns a text,
    either the content it found or a fixed French notice that the source
    is unavailable. */
module Fetchers {
  import opened Wrappers
  import opened Text
  import opened Web

  // ---------------------------------------------------------------------
  // Page text (`soup_text`)
  // ---------------------------------------------------------------------

  /** Lines of this length or shorter are dropped from a page's text. */
  const ShortLine: nat := 25

  /** At most this many lines of a page are kept. */
  const MaxLines: nat := 200

  /** What one line contributes: its stripped copy when that is longer
      than 25 characters, nothing otherwise. */
  function Kept(line: string): seq<string> {
    var l := Strip(line);
    if |l| > ShortLine then [l] else []
  }

  /** The stripped lines longer than 25 characters, in order. */
  function ContentLines(lines: seq<string>): seq<string> {
    if lines == [] then [] else Kept(lines[0]) + ContentLines(lines[1..])
  }

  /** No more lines come out than go in, and each is stripped and longer
      than 25 characters. */
  lemma {:induction false} ContentLinesShape(lines: seq<string>)
    ensures |ContentLines(lines)| <= |lines|
    ensures forall l | l in ContentLines(lines) :: |l| > ShortLine && Strip(l) == l
  {
    if lines != [] {
      ContentLinesShape(lines[1..]);
      StripIdempotent(lines[0]);
      var line := Strip(lines[0]);
      var head := Kept(lines[0]);
      var rest := ContentLines(lines[1..]);
      assert ContentLines(lines) == head + rest;
      forall l | l in head + rest
        ensures |l| > ShortLine && Strip(l) == l
      {
        if l !in rest {
          assert l == line;
        }
      }
    }
  }

  /** Filtering lines distributes over concatenation. */
  lemma {:induction false} ContentLinesConcat(a: seq<string>, b: seq<string>)
    ensures ContentLines(a + b) == ContentLines(a) + ContentLines(b)
  {
    if a == [] {
      assert a + b == b;
    } else {
      assert (a + b)[0] == a[0];
      assert (a + b)[1..] == a[1..] + b;
      ContentLinesConcat(a[1..], b);
    }
  }

  /** A stripped line of more than 25 characters is kept, and every kept
      line is the stripped copy of a line of the input. */
  lemma {:induction false} ContentLinesMembers(lines: seq<string>)
    ensures forall l | l in lines && |Strip(l)| > ShortLine :: Strip(l) in ContentLines(lines)
    ensures forall x | x in ContentLines(lines) :: exists l | l in lines :: x == Strip(l)
  {
    if lines != [] {
      ContentLinesMembers(lines[1..]);
      assert forall l | l in lines :: l == lines[0] || l in lines[1..];
    }
  }

  /** No kept line holds a line break when no input line does. */
  lemma {:induction false} ContentLinesSingle(lines: seq<string>)
    requires forall i | 0 <= i < |lines| :: '\n' !in lines[i]
    ensures forall i | 0 <= i < |ContentLines(lines)| :: '\n' !in ContentLines(lines)[i]
  {
    if lines != [] {
      ContentLinesSingle(lines[1..]);
      if '\n' in Strip(lines[0]) {
        StripChars(lines[0], '\n');
      }
    }
  }

  /** `soup_text`: the content lines of a page's visible text, at most 200
      of them, joined by line breaks and cut to `maxChars`. */
  function SoupText(visible: string, maxChars: nat): (r: string)
    ensures var joined := Join("\n", Take(ContentLines(SplitLines(visible)), MaxLines));
      && |r| == (if |joined| <= maxChars then |joined| else maxChars)
      && StartsWith(joined, r)
  {
    Take(Join("\n", Take(ContentLines(SplitLines(visible)), MaxLines)), maxChars)
  }

  /** When the kept lines fit in `maxChars`, the text splits back into them:
      at most 200 lines, each stripped, longer than 25 characters and free
      of line breaks. */
  lemma SoupTextLines(visible: string, maxChars: nat)
    requires |Join("\n", Take(ContentLines(SplitLines(visible)), MaxLines))| <= maxChars
    ensures var lines := Take(ContentLines(SplitLines(visible)), MaxLines);
      && |lines| <= MaxLines
      && (lines != [] ==> Split(SoupText(visible, maxChars), '\n') == lines)
      && (forall l | l in lines :: |l| > ShortLine && Strip(l) == l && '\n' !in l)
  {
    var all := ContentLines(SplitLines(visible));
    var lines := Take(all, MaxLines);
    ContentLinesSingle(SplitLines(visible));
    ContentLinesShape(SplitLines(visible));
    assert forall l | l in lines :: l in all;
    if lines != [] {
      SplitJoin(lines, '\n');
    }
  }

  /** The text of a fetched page, cut to `maxChars`. */
  function PageText(net: Net, body: string, maxChars: nat): string {
    SoupText(net.visibleText(body), maxChars)
  }

  // ---------------------------------------------------------------------
  // Trying URLs in turn
  // ---------------------------------------------------------------------

  /** The body of the first URL that answers, if any. */
  function FirstAnswer(get: string -> Option<string>, urls: seq<string>): Option<string> {
    if urls == [] then None
    else if get(urls[0]).Some? then get(urls[0])
    else FirstAnswer(get, urls[1..])
  }

  /** There is an answer exactly when some URL answers, and it is the body
      of the first URL that does. */
  lemma {:induction false} FirstAnswerFirst(get: string -> Option<string>, urls: seq<string>)
    ensures FirstAnswer(get, urls).None? <==> forall i | 0 <= i < |urls| :: get(urls[i]).None?
    ensures FirstAnswer(get, urls).Some? ==> exists i | 0 <= i < |urls| ::
      get(urls[i]) == FirstAnswer(get, urls) && forall j | 0 <= j < i :: get(urls[j]).None?
  {
    if urls != [] {
      var r := FirstAnswer(get, urls);
      if get(urls[0]).Some? {
        assert get(urls[0]) == r;
      } else {
        FirstAnswerFirst(get, urls[1..]);
        assert forall i | 0 <= i < |urls| - 1 :: urls[1..][i] == urls[i + 1];
        if r.Some? {
          var i :| 0 <= i < |urls[1..]| && get(urls[1..][i]) == r && forall j | 0 <= j < i :: get(urls[1..][j]).None?;
          assert get(urls[i + 1]) == r && forall j | 0 <= j < i + 1 :: get(urls[j]).None?;
        }
      }
    }
  }

  /** The loop `for url in urls: r = safe_get(url); if r: …`, stopping at
      the first answer. */
  method FirstResponse(net: Net, urls: seq<string>) returns (r: Option<string>)
    ensures r == FirstAnswer(net.get, urls)
  {
    for i := 0 to |urls|
      invariant FirstAnswer(net.get, urls[i..]) == FirstAnswer(net.get, urls)
    {
      assert urls[i..][1..] == urls[i + 1..];
      var response := net.get(urls[i]);
      if response.Some? {
        return response;
      }
    }
    assert urls[|urls|..] == [];
    return None;
  }

  // ---------------------------------------------------------------------
  // Government news (`fetch_news_ontario`)
  // ---------------------------------------------------------------------

  const NewsFeedUrl := "https://news.ontario.ca/en/rss"
  // The fixed messages below keep their first word as a separate literal:
  // the verifier then reads their opening characters directly, which the
  // proofs that tell them apart rely on.
  const NoFeed := "Aucun " + "communiqué disponible (flux RSS inaccessible)."
  const NoRecentNews := "Aucun " + "communiqué récent."

  /** How many feed entries are examined, how many are always kept, and
      how many items the digest shows. */
  const NewsWindow: nat := 20
  const AlwaysKept: nat := 3
  const NewsShown: nat := 8
  const SummaryChars: nat := 500

  predicate LeapYear(y: int) {
    y % 4 == 0 && (y % 100 != 0 || y % 400 == 0)
  }

  function DaysInMonth(y: int, m: int): int
    requires 1 <= m <= 12
  {
    if m == 2 then (if LeapYear(y) then 29 else 28)
    else if m == 4 || m == 6 || m == 9 || m == 11 then 30
    else 31
  }

  /** The fields `datetime(year, month, day, hour, minute, second)` accepts. */
  predicate ValidTime(t: Timestamp) {
    && 1 <= t.year <= 9999
    && 1 <= t.month <= 12
    && 1 <= t.day <= DaysInMonth(t.year, t.month)
    && 0 <= t.hour <= 23
    && 0 <= t.minute <= 59
    && 0 <= t.second <= 59
  }

  /** A moment `datetime` can represent. */
  type Instant = t: Timestamp | ValidTime(t) witness Timestamp(1970, 1, 1, 0, 0, 0)

  /** Chronological order of valid timestamps (`pub >= cutoff`). */
  predicate AtOrAfter(a: Timestamp, b: Timestamp) {
    if a.year != b.year then a.year > b.year
    else if a.month != b.month then a.month > b.month
    else if a.day != b.day then a.day > b.day
    else if a.hour != b.hour then a.hour > b.hour
    else if a.minute != b.minute then a.minute > b.minute
    else a.second >= b.second
  }

  /** The publication time of an entry: its own when it is a valid date,
      the current time when it is missing or invalid (the `except` branch). */
  function EntryTime(e: FeedEntry, now: Instant): (t: Instant)
    ensures e.published.Some? && ValidTime(e.published.value) ==> t == e.published.value
    ensures !(e.published.Some? && ValidTime(e.published.value)) ==> t == now
  {
    match e.published
    case Some(t) => if ValidTime(t) then t else now
    case None => now
  }

  /** `pub.strftime('%Y-%m-%d')`. */
  function DateText(t: Instant): (r: string)
    ensures |r| == 10 && r[4] == '-' && r[7] == '-'
  {
    Padded(t.year, 4) + "-" + Padded(t.month, 2) + "-" + Padded(t.day, 2)
  }

  /** The date reads back: its three digit groups denote the year, the month
      and the day. */
  lemma DateTextValue(t: Instant)
    ensures var r := DateText(t);
      && (forall i | 0 <= i < 4 :: IsDigit(r[i]))
      && (forall i | 5 <= i < 7 :: IsDigit(r[i]))
      && (forall i | 8 <= i < 10 :: IsDigit(r[i]))
      && DigitsValue(r[..4]) == t.year
      && DigitsValue(r[5..7]) == t.month
      && DigitsValue(r[8..]) == t.day
  {
    var r := DateText(t);
    assert r[..4] == Padded(t.year, 4);
    assert r[5..7] == Padded(t.month, 2);
    assert r[8..] == Padded(t.day, 2);
    PaddedValue(t.year, 4);
    PaddedValue(t.month, 2);
    PaddedValue(t.day, 2);
  }

  /** One item of the digest: the date in brackets and the title, then the
      summary cut to 500 characters, then the link. */
  function NewsItem(e: FeedEntry, now: Instant): (r: string)
    ensures r != [] && r[0] == '['
  {
    "[" + DateText(EntryTime(e, now)) + "] " + e.title.GetOr("(sans titre)") + "\n"
    + Take(e.summary.GetOr(""), SummaryChars) + "\n" + e.link.GetOr("")
  }

  /** An item opens with the bracketed `%Y-%m-%d` date and a space, then
      the title and a line break; the summary, cut to its first 500
      characters, follows; a line break and the link close it. */
  lemma NewsItemShape(e: FeedEntry, now: Instant)
    ensures var r := NewsItem(e, now);
      var head := "[" + DateText(EntryTime(e, now)) + "] " + e.title.GetOr("(sans titre)") + "\n";
      var summary := e.summary.GetOr("");
      var cut := if |summary| <= SummaryChars then |summary| else SummaryChars;
      var tail := "\n" + e.link.GetOr("");
      && StartsWith(r, "[" + DateText(EntryTime(e, now)) + "] ")
      && StartsWith(r, head)
      && |r| == |head| + cut + |tail|
      && OccursAt(r, summary[..cut], |head|)
      && EndsWith(r, tail)
  {
    var date := "[" + DateText(EntryTime(e, now)) + "] ";
    var head := date + e.title.GetOr("(sans titre)") + "\n";
    var summary := Take(e.summary.GetOr(""), SummaryChars);
    var tail := "\n" + e.link.GetOr("");
    assert NewsItem(e, now) == head + summary + tail;
    assert head[..|date|] == date;
    ItemLayout(date, head, summary, tail);
  }

  /** A head opening with `date`, then a middle and a tail: where each
      part lies in the whole. */
  lemma ItemLayout(date: string, head: string, middle: string, tail: string)
    requires StartsWith(head, date)
    ensures var r := head + middle + tail;
      && StartsWith(r, date) && StartsWith(r, head)
      && |r| == |head| + |middle| + |tail|
      && OccursAt(r, middle, |head|) && EndsWith(r, tail)
  {
    var r := head + middle + tail;
    Embedded(head, middle, tail);
    assert r[..|date|] == head[..|date|];
  }

  /** Whether an entry counts as recent. */
  predicate Recent(e: FeedEntry, now: Instant, cutoff: Instant) {
    AtOrAfter(EntryTime(e, now), cutoff)
  }

  /** The items gathered from `entries`, in order: an entry is kept when it
      is recent or fewer than three items were kept before it. */
  function NewsItems(entries: seq<FeedEntry>, now: Instant, cutoff: Instant): (items: seq<string>)
    ensures |items| <= |entries|
  {
    if entries == [] then []
    else
      var before := NewsItems(entries[..|entries| - 1], now, cutoff);
      var e := entries[|entries| - 1];
      if Recent(e, now, cutoff) || |before| < AlwaysKept then before + [NewsItem(e, now)] else before
  }

  /** Adding an entry at the end: it is kept when recent or while fewer
      than three items are kept, and nothing before it changes. */
  lemma NewsItemsSnoc(entries: seq<FeedEntry>, e: FeedEntry, now: Instant, cutoff: Instant)
    ensures var before := NewsItems(entries, now, cutoff);
      NewsItems(entries + [e], now, cutoff)
      == if Recent(e, now, cutoff) || |before| < AlwaysKept then before + [NewsItem(e, now)] else before
  {
    assert (entries + [e])[..|entries + [e]| - 1] == entries;
  }

  /** One more entry of the window, as `NewsItemsSnoc` says. */
  lemma NewsItemsPrefixStep(entries: seq<FeedEntry>, i: nat, now: Instant, cutoff: Instant)
    requires i < |entries|
    ensures var before := NewsItems(entries[..i], now, cutoff);
      NewsItems(entries[..i + 1], now, cutoff)
      == if Recent(entries[i], now, cutoff) || |before| < AlwaysKept then before + [NewsItem(entries[i], now)] else before
  {
    assert entries[..i + 1] == entries[..i] + [entries[i]];
    NewsItemsSnoc(entries[..i], entries[i], now, cutoff);
  }

  /** The digest of the news feed. */
  function NewsDigest(entries: seq<FeedEntry>, now: Instant, cutoff: Instant): string {
    if entries == [] then NoFeed
    else
      var items := NewsItems(Take(entries, NewsWindow), now, cutoff);
      if items != [] then Join("\n\n", Take(items, NewsShown)) else NoRecentNews
  }

  /** Items only accumulate: the items of a prefix of the entries open the
      items of all of them. */
  lemma {:induction false} NewsItemsPrefix(entries: seq<FeedEntry>, now: Instant, cutoff: Instant, k: nat)
    requires k <= |entries|
    ensures var items := NewsItems(entries, now, cutoff);
      var early := NewsItems(entries[..k], now, cutoff);
      |early| <= |items| && items[..|early|] == early
    decreases |entries| - k
  {
    if k < |entries| {
      NewsItemsPrefix(entries, now, cutoff, k + 1);
      NewsItemsPrefixStep(entries, k, now, cutoff);
      var early := NewsItems(entries[..k], now, cutoff);
      var mid := NewsItems(entries[..k + 1], now, cutoff);
      assert |early| <= |mid| && mid[..|early|] == early;
      PrefixTrans(early, mid, NewsItems(entries, now, cutoff));
    } else {
      assert entries[..k] == entries;
    }
  }

  /** The first three entries of the window are always kept, in order. */
  lemma {:induction false} NewsFirstThree(entries: seq<FeedEntry>, now: Instant, cutoff: Instant)
    ensures var items := NewsItems(entries, now, cutoff);
      var n := if |entries| < AlwaysKept then |entries| else AlwaysKept;
      |items| >= n && forall i | 0 <= i < n :: items[i] == NewsItem(entries[i], now)
  {
    var n := if |entries| < AlwaysKept then |entries| else AlwaysKept;
    NewsShortKeepsAll(entries[..n], now, cutoff);
    NewsItemsPrefix(entries, now, cutoff, n);
  }

  /** Fewer than four entries are all kept, each giving its own item. */
  lemma {:induction false} NewsShortKeepsAll(entries: seq<FeedEntry>, now: Instant, cutoff: Instant)
    requires |entries| <= AlwaysKept
    ensures var items := NewsItems(entries, now, cutoff);
      |items| == |entries| && forall i | 0 <= i < |entries| :: items[i] == NewsItem(entries[i], now)
  {
    if entries != [] {
      var init := entries[..|entries| - 1];
      NewsShortKeepsAll(init, now, cutoff);
      assert forall i | 0 <= i < |init| :: init[i] == entries[i];
    }
  }

  /** The number of recent entries. */
  function RecentCount(entries: seq<FeedEntry>, now: Instant, cutoff: Instant): nat {
    if entries == [] then 0
    else RecentCount(entries[..|entries| - 1], now, cutoff)
         + (if Recent(entries[|entries| - 1], now, cutoff) then 1 else 0)
  }

  /** Older entries only ever fill the first three places: beyond them,
      every item comes from a recent entry. When every entry is recent,
      every entry is kept. */
  lemma {:induction false} NewsStaleBound(entries: seq<FeedEntry>, now: Instant, cutoff: Instant)
    ensures |NewsItems(entries, now, cutoff)| <= AlwaysKept + RecentCount(entries, now, cutoff)
    ensures RecentCount(entries, now, cutoff) == |entries| ==> |NewsItems(entries, now, cutoff)| == |entries|
  {
    if entries != [] {
      var init := entries[..|entries| - 1];
      NewsStaleBound(init, now, cutoff);
      RecentCountBound(init, now, cutoff);
    }
  }

  lemma {:induction false} RecentCountBound(entries: seq<FeedEntry>, now: Instant, cutoff: Instant)
    ensures RecentCount(entries, now, cutoff) <= |entries|
  {
    if entries != [] {
      RecentCountBound(entries[..|entries| - 1], now, cutoff);
    }
  }

  /** An entry whose date is missing or invalid is dated now, so it is
      always kept when the cutoff is not in the future. */
  lemma UndatedEntryKept(entries: seq<FeedEntry>, e: FeedEntry, now: Instant, cutoff: Instant)
    requires AtOrAfter(now, cutoff)
    requires !(e.published.Some? && ValidTime(e.published.value))
    ensures NewsItems(entries + [e], now, cutoff) == NewsItems(entries, now, cutoff) + [NewsItem(e, now)]
  {
    NewsItemsSnoc(entries, e, now, cutoff);
  }

  /** A non-empty feed always gives at least one item, so the digest is
      never the "nothing recent" notice: it is the joined items, the first
      opening with a bracketed date. */
  lemma NewsDigestShape(entries: seq<FeedEntry>, now: Instant, cutoff: Instant)
    ensures var d := NewsDigest(entries, now, cutoff);
      && d != NoRecentNews
      && (d == NoFeed <==> entries == [])
      && (entries != [] ==> d != "" && d[0] == '[')
  {
    if entries != [] {
      var window := Take(entries, NewsWindow);
      NewsFirstThree(window, now, cutoff);
      var items := NewsItems(window, now, cutoff);
      var shown := Take(items, NewsShown);
      JoinFront("\n\n", shown);
      var d := NewsDigest(entries, now, cutoff);
      assert d[0] == '[';
      assert NoFeed[0] == 'A';
      assert NoRecentNews[0] == 'A';
    }
  }

  /** A non-empty feed gives the first eight items (all of them when
      fewer), at least one, joined by a blank line. */
  lemma NewsDigestJoin(entries: seq<FeedEntry>, now: Instant, cutoff: Instant)
    ensures entries != [] ==>
      var items := NewsItems(Take(entries, NewsWindow), now, cutoff);
      var shown := Take(items, NewsShown);
      && 1 <= |shown| <= NewsShown
      && |shown| == (if |items| < NewsShown then |items| else NewsShown)
      && shown == items[..|shown|]
      && NewsDigest(entries, now, cutoff) == Join("\n\n", shown)
  {
    if entries != [] {
      NewsFirstThree(Take(entries, NewsWindow), now, cutoff);
    }
  }

  /** `fetch_news_ontario`: the first twenty entries in turn, each kept when
      recent or while fewer than three are kept; then the first eight items. */
  method FetchNews(net: Net, now: Instant, cutoff: Instant) returns (digest: string)
    ensures digest == NewsDigest(net.feed(NewsFeedUrl), now, cutoff)
  {
    var entries := net.feed(NewsFeedUrl);
    if entries == [] {
      return NoFeed;
    }
    var items := SelectNews(Take(entries, NewsWindow), now, cutoff);
    digest := if items != [] then Join("\n\n", Take(items, NewsShown)) else NoRecentNews;
  }

  /** The selection loop of `fetch_news_ontario` over the examined entries. */
  method SelectNews(window: seq<FeedEntry>, now: Instant, cutoff: Instant) returns (items: seq<string>)
    ensures items == NewsItems(window, now, cutoff)
  {
    items := [];
    for i := 0 to |window|
      invariant items == NewsItems(window[..i], now, cutoff)
    {
      NewsItemsPrefixStep(window, i, now, cutoff);
      var entry := window[i];
      var pub := EntryTime(entry, now);
      if AtOrAfter(pub, cutoff) || |items| < AlwaysKept {
        items := items + [NewsItem(entry, now)];
      }
    }
    assert window[..|window|] == window;
  }

  // ---------------------------------------------------------------------
  // Hansard (`fetch_hansard`)
  // ---------------------------------------------------------------------

  /** The Hansard indexes, tried in turn. */
  const HansardIndexUrls: seq<string> := [
    "https://www.ola.org/en/legislative-business/house-documents/parliament-43/session-1/hansard",
    "https://www.ola.org/en/legislative-business/house-documents/parliament-43",
    "https://www.ola.org/en/legislative-business/house-documents"
  ]

  const OlaBase := "https://www.ola.org"
  const HansardUnavailable := "Hansard non " + "disponible (site OLA inaccessible)."
  const NoHansardLink := "Index " + "OLA récupéré (pas de Hansard identifié ce jour):\n"
  const HansardUnreadable := "Hansard le " + "plus récent trouvé : "
  const HansardFound := "Hansard : "
  const IndexChars: nat := 3000
  const HansardChars: nat := 5000

  /** A link to a Hansard: it has text, and its lower-cased href names
      "hansard", "2025" or "2026". */
  predicate HansardCandidate(a: Anchor) {
    && a.text != ""
    && (Contains(Lower(a.href), "hansard") || Contains(Lower(a.href), "2025") || Contains(Lower(a.href), "2026"))
  }

  /** The first Hansard link of an index, its href made absolute. */
  function HansardLink(anchors: seq<Anchor>): (link: Option<Anchor>)
    ensures link.Some? ==> link.value.text != "" && StartsWith(link.value.href, "http")
  {
    var i := IndexWhere(anchors, HansardCandidate);
    if i == |anchors| then None
    else Some(Anchor(anchors[i].text, Absolute(OlaBase, anchors[i].href)))
  }

  /** The chosen link is that of the first candidate, and there is one
      exactly when some anchor is a candidate. */
  lemma HansardLinkFirst(anchors: seq<Anchor>)
    ensures HansardLink(anchors).None? <==> forall i | 0 <= i < |anchors| :: !HansardCandidate(anchors[i])
    ensures HansardLink(anchors).Some? ==> exists i | 0 <= i < |anchors| ::
      && HansardCandidate(anchors[i])
      && (forall j | 0 <= j < i :: !HansardCandidate(anchors[j]))
      && HansardLink(anchors).value == Anchor(anchors[i].text, Absolute(OlaBase, anchors[i].href))
  {
    var i := IndexWhere(anchors, HansardCandidate);
    if i < |anchors| {
      assert HansardCandidate(anchors[i]);
    }
  }

  /** The anchor loop of `fetch_hansard`, stopping at the first candidate. */
  method ChooseHansardLink(anchors: seq<Anchor>) returns (link: Option<Anchor>)
    ensures link == HansardLink(anchors)
  {
    for i := 0 to |anchors|
      invariant forall j | 0 <= j < i :: !HansardCandidate(anchors[j])
    {
      var a := anchors[i];
      if HansardCandidate(a) {
        assert IndexWhere(anchors, HansardCandidate) == i;
        return Some(Anchor(a.text, Absolute(OlaBase, a.href)));
      }
    }
    assert IndexWhere(anchors, HansardCandidate) == |anchors|;
    return None;
  }

  /** The line naming a link. */
  function LinkLine(href: string): string {
    "\nLien : " + href + "\n"
  }

  /** What a chosen Hansard link gives: its page's text, or a note that the
      page could not be read. */
  function LinkDigest(net: Net, link: Anchor): string {
    match net.get(link.href)
    case None => HansardUnreadable + (link.text + LinkLine(link.href) + "(Contenu non accessible)")
    case Some(page) => HansardFound + (link.text + LinkLine(link.href) + ("\n" + PageText(net, page, HansardChars)))
  }

  /** Whatever the page does, the text names the link on a line of its own. */
  lemma LinkDigestNamesLink(net: Net, link: Anchor)
    ensures Contains(LinkDigest(net, link), LinkLine(link.href))
  {
    var line := LinkLine(link.href);
    match net.get(link.href)
    case None =>
      ContainsMiddle(link.text, line, "(Contenu non accessible)");
      ContainsExtend(HansardUnreadable, link.text + line + "(Contenu non accessible)", line);
    case Some(page) =>
      var rest := "\n" + PageText(net, page, HansardChars);
      ContainsMiddle(link.text, line, rest);
      ContainsExtend(HansardFound, link.text + line + rest, line);
  }

  /** Whatever the page does, the text is not the "unavailable" notice. */
  lemma LinkDigestNotUnavailable(net: Net, link: Anchor)
    ensures LinkDigest(net, link) != HansardUnavailable
  {
    var d := LinkDigest(net, link);
    assert HansardUnavailable[8] == 'n';
    match net.get(link.href)
    case None =>
      var tail := link.text + LinkLine(link.href) + "(Contenu non accessible)";
      assert d == HansardUnreadable + tail;
      assert HansardUnreadable[8] == 'l';
      assert d[8] == 'l';
    case Some(page) =>
      var tail := link.text + LinkLine(link.href) + ("\n" + PageText(net, page, HansardChars));
      assert d == HansardFound + tail;
      assert HansardFound[8] == ':';
      assert d[8] == ':';
  }

  /** The digest of the Hansard. */
  function HansardDigest(net: Net): string {
    match FirstAnswer(net.get, HansardIndexUrls)
    case None => HansardUnavailable
    case Some(index) =>
      match HansardLink(net.anchors(index))
      case None => NoHansardLink + PageText(net, index, IndexChars)
      case Some(link) => LinkDigest(net, link)
  }

  /** The Hansard digest is the "unavailable" notice exactly when no index
      answers; otherwise it names the chosen link whenever there is one. */
  lemma HansardDigestCases(net: Net)
    ensures HansardDigest(net) == HansardUnavailable
        <==> forall i | 0 <= i < |HansardIndexUrls| :: net.get(HansardIndexUrls[i]).None?
    ensures forall index, link | FirstAnswer(net.get, HansardIndexUrls) == Some(index)
                                 && HansardLink(net.anchors(index)) == Some(link) ::
      Contains(HansardDigest(net), LinkLine(link.href))
  {
    FirstAnswerFirst(net.get, HansardIndexUrls);
    match FirstAnswer(net.get, HansardIndexUrls)
    case None =>
    case Some(index) =>
      match HansardLink(net.anchors(index))
      case None =>
        var d := HansardDigest(net);
        assert d[0] == 'I';
        assert HansardUnavailable[0] == 'H';
      case Some(link) =>
        LinkDigestNamesLink(net, link);
        LinkDigestNotUnavailable(net, link);
  }

  /** `fetch_hansard`: the first index that answers, its first Hansard link,
      then the page behind it. */
  method FetchHansard(net: Net) returns (digest: string)
    ensures digest == HansardDigest(net)
  {
    var index := FirstResponse(net, HansardIndexUrls);
    if index.None? {
      return HansardUnavailable;
    }
    var link := ChooseHansardLink(net.anchors(index.value));
    if link.None? {
      var text := SoupText(net.visibleText(index.value), IndexChars);
      return NoHansardLink + text;
    }
    var titre, lien := link.value.text, link.value.href;
    var page := net.get(lien);
    if page.None? {
      return HansardUnreadable + (titre + LinkLine(lien) + "(Contenu non accessible)");
    }
    var texte := SoupText(net.visibleText(page.value), HansardChars);
    digest := HansardFound + (titre + LinkLine(lien) + ("\n" + texte));
  }

  // ---------------------------------------------------------------------
  // Single pages and registries
  // ---------------------------------------------------------------------

  const PageChars: nat := 3000

  const GazetteUrl := "https://www.ontario.ca/page/ontario-gazette"
  const GazetteUnavailable := "Gazette de l'Ontario non disponible."

  const LobbyistUrls: seq<string> := [
    "https://www.ontario.ca/page/lobbyist-registry",
    "https://lobbyist.ontario.ca/lobbyistregistry/faces/publicregistration/searchRegistrations.xhtml"
  ]
  const LobbyistUnavailable := "Registre des lobbyistes non disponible aujourd'hui."

  const RegulatoryUrls: seq<string> := [
    "https://www.ontariocanada.com/registry/view.do?language=en&status=Posted",
    "https://www.ontario.ca/page/ontario-regulatory-registry"
  ]
  const RegulatoryUnavailable := "Registre de la réglementation non disponible aujourd'hui."

  const OrdersUrl := "https://www.ontario.ca/search/orders-in-council"
  const OrdersUnavailable := "Page des Décrets du Conseil non disponible."

  /** The text of the first of `urls` that answers, cut to 3000 characters,
      or `unavailable` when none does. */
  function RegistryDigest(net: Net, urls: seq<string>, unavailable: string): (r: string)
    ensures (forall i | 0 <= i < |urls| :: net.get(urls[i]).None?) ==> r == unavailable
    ensures |r| <= if |unavailable| < PageChars then PageChars else |unavailable|
  {
    FirstAnswerFirst(net.get, urls);
    match FirstAnswer(net.get, urls)
    case None => unavailable
    case Some(body) => PageText(net, body, PageChars)
  }

  /** The text of one page, cut to 3000 characters, or `unavailable`. */
  function PageDigest(net: Net, url: string, unavailable: string): (r: string)
    ensures net.get(url).None? ==> r == unavailable
    ensures net.get(url).Some? ==> |r| <= PageChars
  {
    match net.get(url)
    case None => unavailable
    case Some(body) => PageText(net, body, PageChars)
  }

  /** A registry with a fallback URL answers as soon as either URL does, and
      takes the first one's page when both answer. */
  lemma RegistryFallback(net: Net, urls: seq<string>, unavailable: string)
    requires |urls| == 2
    ensures net.get(urls[0]).Some? ==> RegistryDigest(net, urls, unavailable) == PageText(net, net.get(urls[0]).value, PageChars)
    ensures net.get(urls[0]).None? ==> RegistryDigest(net, urls, unavailable) == PageDigest(net, urls[1], unavailable)
  {
    assert urls[1..][0] == urls[1];
    assert urls[1..][1..] == [];
    if net.get(urls[0]).None? {
      assert FirstAnswer(net.get, urls) == FirstAnswer(net.get, urls[1..]);
      assert FirstAnswer(net.get, urls[1..][1..]) == None;
    }
  }

  /** `fetch_lobbyist_registry` and `fetch_regulatory_registry`. */
  method FetchRegistry(net: Net, urls: seq<string>, unavailable: string) returns (digest: string)
    ensures digest == RegistryDigest(net, urls, unavailable)
  {
    var r := FirstResponse(net, urls);
    if r.None? {
      return unavailable;
    }
    digest := SoupText(net.visibleText(r.value), PageChars);
  }

  // ---------------------------------------------------------------------
  // All sources (`fetch_all`)
  // ---------------------------------------------------------------------

  /** One entry of the dictionary `fetch_all` returns, in insertion order. */
  datatype Section = Section(name: string, text: string)

  const SourceNames: seq<string> := [
    "Communiqués du gouvernement (news.ontario.ca)",
    "Hansard — Assemblée législative de l'Ontario",
    "Gazette de l'Ontario",
    "Registre des lobbyistes",
    "Registre de la réglementation de l'Ontario",
    "Décrets du Conseil"
  ]

  /** The six sections, named and ordered as in `fetch_all`. */
  function AllSources(net: Net, now: Instant, cutoff: Instant): (sections: seq<Section>)
    ensures |sections| == |SourceNames|
    ensures forall i | 0 <= i < |sections| :: sections[i].name == SourceNames[i]
  {
    Named([
      NewsDigest(net.feed(NewsFeedUrl), now, cutoff),
      HansardDigest(net),
      PageDigest(net, GazetteUrl, GazetteUnavailable),
      RegistryDigest(net, LobbyistUrls, LobbyistUnavailable),
      RegistryDigest(net, RegulatoryUrls, RegulatoryUnavailable),
      PageDigest(net, OrdersUrl, OrdersUnavailable)
    ])
  }

  /** The six texts under the six names, in order. */
  function Named(texts: seq<string>): (sections: seq<Section>)
    requires |texts| == |SourceNames|
    ensures |sections| == |SourceNames|
    ensures forall i | 0 <= i < |sections| :: sections[i] == Section(SourceNames[i], texts[i])
  {
    seq(|texts|, i requires 0 <= i < |texts| => Section(SourceNames[i], texts[i]))
  }

  /** The six names are distinct, so the dictionary has six keys. */
  lemma SourceNamesDistinct()
    ensures forall i, j | 0 <= i < j < |SourceNames| :: SourceNames[i] != SourceNames[j]
  {
    forall i, j | 0 <= i < j < |SourceNames| ensures SourceNames[i] != SourceNames[j] {
      assert SourceNames[i][..5] != SourceNames[j][..5] || |SourceNames[i]| != |SourceNames[j]|;
    }
  }

  /** With the network down and the feed empty, every section holds its
      own notice. */
  lemma AllSourcesOffline(net: Net, now: Instant, cutoff: Instant)
    requires forall u :: net.get(u).None?
    requires net.feed(NewsFeedUrl) == []
    ensures AllSources(net, now, cutoff)
         == [Section(SourceNames[0], NoFeed), Section(SourceNames[1], HansardUnavailable),
             Section(SourceNames[2], GazetteUnavailable), Section(SourceNames[3], LobbyistUnavailable),
             Section(SourceNames[4], RegulatoryUnavailable), Section(SourceNames[5], OrdersUnavailable)]
  {
  }

  /** `fetch_all`: the six fetchers, in order. */
  method FetchAll(net: Net, now: Instant, cutoff: Instant) returns (sections: seq<Section>)
    ensures sections == AllSources(net, now, cutoff)
  {
    var news := FetchNews(net, now, cutoff);
    var hansard := FetchHansard(net);
    var gazette := PageDigest(net, GazetteUrl, GazetteUnavailable);
    var lobbyists := FetchRegistry(net, LobbyistUrls, LobbyistUnavailable);
    var regulations := FetchRegistry(net, RegulatoryUrls, RegulatoryUnavailable);
    var orders := PageDigest(net, OrdersUrl, OrdersUnavailable);
    sections := Named([news, hansard, gazette, lobbyists, regulations, orders]);
  }
}

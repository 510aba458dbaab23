/** The interprovincial watcher: official pages and feeds of the other
    provinces and territories are searched for mentions of Ontario, every
    mention becomes a four-field block, and the blocks of all provinces are
    gathered into one report that is never empty.

    Only the plain-text branch of the relevance filter is modelled in
    detail; for HTML input the parser's block texts come from `Net.blocks`. */
module Interprovincial {
  import opened Wrappers
  import opened Text
  import opened Web

  // ---------------------------------------------------------------------
  // Relevance filter (`texte_pertinent`)
  // ---------------------------------------------------------------------

  /** The keywords naming Ontario, its cities, its premier and its
      legislature, all lower case (the source lists "queen's park" twice). */
  const Keywords: seq<string> := [
    "ontario", "ontario's", "ontarian", "ontarien", "ontarienne",
    "toronto", "ottawa", "hamilton", "london", "windsor", "brampton",
    "doug ford", "ford government", "gouvernement ford",
    "queen's park", "queen's park"
  ]

  /** Units shorter than this are never kept. */
  const MinUnitLength: nat := 30

  /** The default `max_chars` of the filter. */
  const DefaultMaxChars: nat := 800

  /** The case-insensitive keyword search: some keyword occurs in the unit
      once the unit is lower-cased. */
  predicate MentionsOntario(unit: string) {
    exists k | k in Keywords :: Contains(Lower(unit), k)
  }

  /** A unit is kept when it is long enough and mentions Ontario. The length
      is that of the unit as split, before stripping. */
  predicate Qualifies(unit: string) {
    |unit| >= MinUnitLength && MentionsOntario(unit)
  }

  /** The units the filter examines: the parser's blocks when the input
      holds a '<', its lines otherwise. */
  function Units(net: Net, text: string): seq<string> {
    if '<' in text then net.blocks(text) else SplitLines(text)
  }

  /** Every keyword starts with a non-space character. */
  lemma KeywordsStartSolid()
    ensures forall k | k in Keywords :: k != [] && !IsSpace(k[0])
  {
  }

  /** A unit that mentions Ontario is not blank, so its stripped copy is not empty. */
  lemma {:induction false} MentionNotBlank(unit: string)
    requires MentionsOntario(unit)
    ensures Strip(unit) != []
  {
    var k :| k in Keywords && Contains(Lower(unit), k);
    var i :| 0 <= i <= |Lower(unit)| - |k| && OccursAt(Lower(unit), k, i);
    KeywordsStartSolid();
    assert Lower(unit)[i] == k[0];
    assert !IsSpace(unit[i]);
  }

  /** The stripped copies of the qualifying units, in input order. */
  function KeptUnits(units: seq<string>): (kept: seq<string>)
    ensures |kept| <= |units|
    ensures forall i | 0 <= i < |kept| :: kept[i] != [] && !IsSpace(kept[i][0])
  {
    if units == [] then []
    else
      var head := if Qualifies(units[0]) then MentionNotBlank(units[0]); [Strip(units[0])] else [];
      head + KeptUnits(units[1..])
  }

  /** Filtering distributes over concatenation: kept units keep their order. */
  lemma {:induction false} KeptUnitsConcat(a: seq<string>, b: seq<string>)
    ensures KeptUnits(a + b) == KeptUnits(a) + KeptUnits(b)
  {
    if a == [] {
      assert a + b == b;
    } else {
      assert (a + b)[1..] == a[1..] + b;
      KeptUnitsConcat(a[1..], b);
    }
  }

  /** One more unit adds its stripped copy when it qualifies. */
  lemma KeptUnitsPrefix(units: seq<string>, i: nat)
    requires i < |units|
    ensures KeptUnits(units[..i + 1])
         == KeptUnits(units[..i]) + (if Qualifies(units[i]) then [Strip(units[i])] else [])
  {
    assert units[..i + 1] == units[..i] + [units[i]];
    KeptUnitsConcat(units[..i], [units[i]]);
    assert [units[i]][1..] == [];
  }

  /** Exactly the qualifying units are kept, each as its stripped copy. */
  lemma {:induction false} KeptUnitsMembers(units: seq<string>)
    ensures forall u | u in units && Qualifies(u) :: Strip(u) in KeptUnits(units)
    ensures forall x | x in KeptUnits(units) :: exists u | u in units :: Qualifies(u) && x == Strip(u)
  {
    if units != [] {
      KeptUnitsMembers(units[1..]);
      assert forall u | u in units :: u == units[0] || u in units[1..];
    }
  }

  /** What `texte_pertinent` returns: the kept units joined by a blank
      line, cut to `maxChars`; "" when nothing qualifies. */
  function Excerpt(net: Net, text: string, maxChars: nat): string {
    var kept := KeptUnits(Units(net, text));
    if kept == [] then "" else Take(Join("\n\n", kept), maxChars)
  }

  /** The excerpt is at most `maxChars` long; it is empty exactly when no
      unit qualifies (or nothing may be shown), and otherwise it opens with
      the first kept unit, so it is not blank. */
  lemma ExcerptShape(net: Net, text: string, maxChars: nat)
    ensures var r := Excerpt(net, text, maxChars);
      && |r| <= maxChars
      && (r == "" <==> KeptUnits(Units(net, text)) == [] || maxChars == 0)
      && (r != "" ==> r[0] == KeptUnits(Units(net, text))[0][0] && !IsSpace(r[0]) && Strip(r) != "")
  {
    var kept := KeptUnits(Units(net, text));
    if kept != [] {
      JoinFront("\n\n", kept);
    }
  }

  /** The excerpt is the start of the kept units, in input order and
      separated by a blank line, and all of them when they fit. */
  lemma ExcerptPrefix(net: Net, text: string, maxChars: nat)
    ensures var joined := Join("\n\n", KeptUnits(Units(net, text)));
      && |Excerpt(net, text, maxChars)| == (if |joined| <= maxChars then |joined| else maxChars)
      && Excerpt(net, text, maxChars) == joined[..|Excerpt(net, text, maxChars)|]
      && (|joined| <= maxChars ==> Excerpt(net, text, maxChars) == joined)
  {
  }

  /** The filter as the source writes it: a loop that appends the stripped
      qualifying units to a list, then the join and the cut. */
  method FilterRelevant(net: Net, text: string, maxChars: nat) returns (r: string)
    ensures r == Excerpt(net, text, maxChars)
  {
    var units := Units(net, text);
    var kept: seq<string> := [];
    for i := 0 to |units|
      invariant kept == KeptUnits(units[..i])
    {
      KeptUnitsPrefix(units, i);
      var unit := units[i];
      if |unit| < MinUnitLength {
        continue;
      }
      if MentionsOntario(unit) {
        kept := kept + [Strip(unit)];
      }
    }
    assert units[..|units|] == units;
    r := if kept != [] then Take(Join("\n\n", kept), maxChars) else "";
  }

  /** A single line of prose (no '<', no line break, no surrounding blanks)
      of 30 to `maxChars` characters that names Ontario in any letter case is
      returned verbatim. */
  lemma SingleLineKeptVerbatim(net: Net, line: string, maxChars: nat)
    requires '<' !in line && '\n' !in line
    requires MinUnitLength <= |line| <= maxChars
    requires Strip(line) == line
    requires Contains(Lower(line), "ontario")
    ensures Excerpt(net, line, maxChars) == line
  {
    SplitPiece(line, '\n');
    assert SplitLines(line) == [line];
    assert "ontario" in Keywords;
    assert Qualifies(line);
    assert KeptUnits([line]) == [line];
  }

  // ---------------------------------------------------------------------
  // One result block (`formater_resultat`)
  // ---------------------------------------------------------------------

  /** The four labelled lines, then the excerpt. */
  function Block(province: string, source: string, url: string, extract: string): string {
    "PROVINCE : " + province + "\n"
    + ("SOURCE   : " + source + "\n"
    + ("URL      : " + url + "\n"
    + ("EXTRAIT  :" + "\n" + extract)))
  }

  /** The block for one excerpt (`formater_resultat`); "" for a blank excerpt. */
  function FormatResult(province: string, source: string, url: string, extract: string): (r: string)
    ensures r == "" <==> Strip(extract) == ""
    ensures r != "" ==> StartsWith(r, "PROVINCE : ") && EndsWith(r, extract)
  {
    if Strip(extract) == "" then ""
    else
      BlockShape(province, source, url, extract);
      Block(province, source, url, extract)
  }

  /** A block opens with the province label and closes with the excerpt. */
  lemma BlockShape(province: string, source: string, url: string, extract: string)
    ensures StartsWith(Block(province, source, url, extract), "PROVINCE : ")
    ensures EndsWith(Block(province, source, url, extract), extract)
  {
    var tail3 := "URL      : " + url + "\n" + ("EXTRAIT  :" + "\n" + extract);
    var tail2 := "SOURCE   : " + source + "\n" + tail3;
    Embedded("EXTRAIT  :", "\n", extract);
    EndsWithExtend("URL      : " + url + "\n", "EXTRAIT  :" + "\n" + extract, extract);
    EndsWithExtend("SOURCE   : " + source + "\n", tail3, extract);
    EndsWithExtend("PROVINCE : " + province + "\n", tail2, extract);
    assert StartsWith("PROVINCE : ", "PROVINCE : ");
    StartsWithExtend("PROVINCE : ", province, "PROVINCE : ");
    StartsWithExtend("PROVINCE : " + province, "\n", "PROVINCE : ");
    StartsWithExtend("PROVINCE : " + province + "\n", tail2, "PROVINCE : ");
  }

  lemma BlockLines(province: string, source: string, url: string, extract: string)
    requires '\n' !in province && '\n' !in source && '\n' !in url
    ensures Split(Block(province, source, url, extract), '\n')
         == ["PROVINCE : " + province, "SOURCE   : " + source, "URL      : " + url, "EXTRAIT  :"]
            + Split(extract, '\n')
  {
    var l1, l2, l3, l4 := "PROVINCE : " + province, "SOURCE   : " + source, "URL      : " + url, "EXTRAIT  :";
    var t4 := l4 + "\n" + extract;
    var t3 := l3 + "\n" + t4;
    var t2 := l2 + "\n" + t3;
    assert '\n' !in l1 && '\n' !in l2 && '\n' !in l3 && '\n' !in l4;
    SplitCons(l4, extract, '\n');
    SplitCons(l3, t4, '\n');
    SplitCons(l2, t3, '\n');
    SplitCons(l1, t2, '\n');
  }

  /** Read line by line, a non-blank block gives back its three fields, the
      "EXTRAIT  :" label and the lines of the excerpt, unchanged. */
  lemma FormatResultLines(province: string, source: string, url: string, extract: string)
    requires '\n' !in province && '\n' !in source && '\n' !in url
    requires Strip(extract) != ""
    ensures Split(FormatResult(province, source, url, extract), '\n')
         == ["PROVINCE : " + province, "SOURCE   : " + source, "URL      : " + url, "EXTRAIT  :"]
            + Split(extract, '\n')
  {
    BlockLines(province, source, url, extract);
  }

  // ---------------------------------------------------------------------
  // Per-province collection (`fetch_quebec` … `fetch_territories`)
  // ---------------------------------------------------------------------

  /** How a linked-page probe recognises the link to follow. */
  datatype LinkRule =
    | HansardOrDebate  // "hansard" or "debate" in the lower-cased href
    | HansardOrHtml    // "hansard" in the lower-cased href, or ".html" in the href as is

  /** One step of a province fetcher. Every step adds at most one block. */
  datatype Probe =
      /** Fetch `url` (through the browser when `viaBrowser`), filter it to
          `maxChars`, and show `shownUrl` in the block. */
    | Page(province: string, source: string, url: string, shownUrl: string, viaBrowser: bool, maxChars: nat)
      /** Read the feed at `feedUrl`: the first of its first five entries
          whose summary and title mention Ontario gives a block. */
    | DebatesFeed(province: string, source: string, feedUrl: string)
      /** Fetch an index page, follow the first link the rule accepts
          (prefixing `base` to a relative one) and filter the page it leads to. */
    | LinkedPage(province: string, caption: string, indexUrl: string, base: string, rule: LinkRule)

  datatype Province = Province(name: string, probes: seq<Probe>)

  predicate FollowsRule(rule: LinkRule, href: string) {
    match rule
    case HansardOrDebate => Contains(Lower(href), "hansard") || Contains(Lower(href), "debate")
    case HansardOrHtml => Contains(Lower(href), "hansard") || Contains(href, ".html")
  }

  /** The text a debates-feed entry is filtered on: its summary, a space, its title. */
  function EntryText(e: FeedEntry): string {
    e.summary.GetOr("") + " " + e.title.GetOr("")
  }

  /** How many feed entries a debates-feed probe examines. */
  const FeedWindow: nat := 5

  /** How long the excerpt of a feed entry may be in its block. */
  const FeedExcerptChars: nat := 500

  /** The block a page probe adds, if any. */
  function PageResults(net: Net, probe: Probe): (results: seq<string>)
    requires probe.Page?
    ensures |results| <= 1
    ensures forall r | r in results :: StartsWith(r, "PROVINCE : ")
  {
    var response := if probe.viaBrowser then net.getJs(probe.url) else net.get(probe.url);
    if response.None? then []
    else
      var ext := Excerpt(net, response.value, probe.maxChars);
      ExcerptShape(net, response.value, probe.maxChars);
      if ext == "" then [] else [FormatResult(probe.province, probe.source, probe.shownUrl, ext)]
  }

  /** Whether a feed entry's summary and title mention Ontario. */
  predicate RelevantEntry(net: Net, e: FeedEntry) {
    Excerpt(net, EntryText(e), DefaultMaxChars) != ""
  }

  /** The position of the first relevant entry, or the number of entries. */
  function FirstRelevant(net: Net, entries: seq<FeedEntry>): (i: nat)
    ensures i <= |entries|
  {
    IndexWhere(entries, e => RelevantEntry(net, e))
  }

  /** The first relevant entry is the one before which none is. */
  lemma FirstRelevantIs(net: Net, entries: seq<FeedEntry>, i: nat)
    requires i <= |entries| && (i < |entries| ==> RelevantEntry(net, entries[i]))
    requires forall j | 0 <= j < i :: !RelevantEntry(net, entries[j])
    ensures FirstRelevant(net, entries) == i
  {
    IndexWhereIs(entries, e => RelevantEntry(net, e), i);
  }

  /** The block a debates-feed probe adds, if any: that of the first
      relevant entry among the first five, its excerpt cut to 500 characters. */
  function FeedResults(net: Net, probe: Probe): (results: seq<string>)
    requires probe.DebatesFeed?
    ensures |results| <= 1
    ensures forall r | r in results :: StartsWith(r, "PROVINCE : ")
  {
    var entries := Take(net.feed(probe.feedUrl), FeedWindow);
    var i := FirstRelevant(net, entries);
    if i == |entries| then []
    else
      var ext := Excerpt(net, EntryText(entries[i]), DefaultMaxChars);
      ExcerptShape(net, EntryText(entries[i]), DefaultMaxChars);
      var cut := Take(ext, FeedExcerptChars);
      assert cut[0] == ext[0];
      [FormatResult(probe.province, probe.source, entries[i].link.GetOr(""), cut)]
  }

  /** Entry `i` is relevant and none before it is. */
  predicate FirstRelevantAt(net: Net, entries: seq<FeedEntry>, i: int) {
    0 <= i < |entries| && RelevantEntry(net, entries[i])
    && forall j | 0 <= j < i :: !RelevantEntry(net, entries[j])
  }

  /** A feed probe adds a block exactly when one of the first five entries
      is relevant, and the block is that of the first relevant one: its
      link, and its excerpt cut to 500 characters. */
  lemma FeedResultsFirst(net: Net, probe: Probe)
    requires probe.DebatesFeed?
    ensures var es := Take(net.feed(probe.feedUrl), FeedWindow);
      && (FeedResults(net, probe) != [] <==> exists i | 0 <= i < |es| :: RelevantEntry(net, es[i]))
      && (FeedResults(net, probe) == [] || exists i | FirstRelevantAt(net, es, i) ::
            FeedResults(net, probe)
            == [FormatResult(probe.province, probe.source, es[i].link.GetOr(""),
                             Take(Excerpt(net, EntryText(es[i]), DefaultMaxChars), FeedExcerptChars))])
  {
    var es := Take(net.feed(probe.feedUrl), FeedWindow);
    var i := FirstRelevant(net, es);
    if i < |es| {
      assert FirstRelevantAt(net, es, i);
    }
  }

  /** The position of the first anchor the rule accepts, or the number of anchors. */
  function FirstFollowed(rule: LinkRule, anchors: seq<Anchor>): (i: nat)
    ensures i <= |anchors|
  {
    IndexWhere(anchors, (a: Anchor) => FollowsRule(rule, a.href))
  }

  /** The first anchor the rule accepts is the one before which it accepts none. */
  lemma FirstFollowedIs(rule: LinkRule, anchors: seq<Anchor>, i: nat)
    requires i <= |anchors| && (i < |anchors| ==> FollowsRule(rule, anchors[i].href))
    requires forall j | 0 <= j < i :: !FollowsRule(rule, anchors[j].href)
    ensures FirstFollowed(rule, anchors) == i
  {
    IndexWhereIs(anchors, (a: Anchor) => FollowsRule(rule, a.href), i);
  }

  /** The block a linked-page probe adds, if any: only the first link the
      rule accepts is followed, whether or not its page answers. */
  function LinkedResults(net: Net, probe: Probe): (results: seq<string>)
    requires probe.LinkedPage?
    ensures |results| <= 1
    ensures forall r | r in results :: StartsWith(r, "PROVINCE : ")
  {
    match net.get(probe.indexUrl)
    case None => []
    case Some(index) =>
      var anchors := net.anchors(index);
      var i := FirstFollowed(probe.rule, anchors);
      if i == |anchors| then []
      else
        var link := Absolute(probe.base, anchors[i].href);
        match net.get(link)
        case None => []
        case Some(page) =>
          var ext := Excerpt(net, page, DefaultMaxChars);
          ExcerptShape(net, page, DefaultMaxChars);
          if ext == "" then [] else [FormatResult(probe.province, probe.caption + anchors[i].text, link, ext)]
  }

  /** Anchor `i` is accepted by the rule and none before it is. */
  predicate FirstFollowedAt(rule: LinkRule, anchors: seq<Anchor>, i: int) {
    0 <= i < |anchors| && FollowsRule(rule, anchors[i].href)
    && forall j | 0 <= j < i :: !FollowsRule(rule, anchors[j].href)
  }

  /** An index probe adds a block exactly when the index answers, and the
      first link the rule accepts leads to a page that answers and gives an
      excerpt; the block is that of this link. Later links are never
      followed. */
  lemma LinkedResultsFirst(net: Net, probe: Probe)
    requires probe.LinkedPage?
    ensures LinkedResults(net, probe) != [] <==>
      && net.get(probe.indexUrl).Some?
      && var anchors := net.anchors(net.get(probe.indexUrl).value);
         exists i | FirstFollowedAt(probe.rule, anchors, i) ::
           var link := Absolute(probe.base, anchors[i].href);
           net.get(link).Some? && Excerpt(net, net.get(link).value, DefaultMaxChars) != ""
    ensures LinkedResults(net, probe) == [] ||
      (&& net.get(probe.indexUrl).Some?
       && var anchors := net.anchors(net.get(probe.indexUrl).value);
          exists i | FirstFollowedAt(probe.rule, anchors, i) ::
            var link := Absolute(probe.base, anchors[i].href);
            && net.get(link).Some?
            && LinkedResults(net, probe)
               == [FormatResult(probe.province, probe.caption + anchors[i].text, link,
                                Excerpt(net, net.get(link).value, DefaultMaxChars))])
  {
    match net.get(probe.indexUrl)
    case None =>
    case Some(index) =>
      var anchors := net.anchors(index);
      var k := FirstFollowed(probe.rule, anchors);
      forall i | FirstFollowedAt(probe.rule, anchors, i)
        ensures i == k
      {
        FirstFollowedIs(probe.rule, anchors, i);
      }
      if k < |anchors| {
        assert FirstFollowedAt(probe.rule, anchors, k);
      }
  }

  /** The blocks one probe adds. */
  function ProbeResults(net: Net, probe: Probe): (results: seq<string>)
    ensures |results| <= 1
    ensures forall r | r in results :: StartsWith(r, "PROVINCE : ")
  {
    match probe
    case Page(_, _, _, _, _, _) => PageResults(net, probe)
    case DebatesFeed(_, _, _) => FeedResults(net, probe)
    case LinkedPage(_, _, _, _, _) => LinkedResults(net, probe)
  }

  method RunPage(net: Net, probe: Probe) returns (results: seq<string>)
    requires probe.Page?
    ensures results == PageResults(net, probe)
  {
    results := [];
    var response := if probe.viaBrowser then net.getJs(probe.url) else net.get(probe.url);
    if response.Some? {
      var ext := FilterRelevant(net, response.value, probe.maxChars);
      if ext != "" {
        results := results + [FormatResult(probe.province, probe.source, probe.shownUrl, ext)];
      }
    }
  }

  /** The feed loop: `for entry in entries[:5]`, stopping at the first
      entry that gives an excerpt. */
  method RunDebatesFeed(net: Net, probe: Probe) returns (results: seq<string>)
    requires probe.DebatesFeed?
    ensures results == FeedResults(net, probe)
  {
    results := [];
    var entries := Take(net.feed(probe.feedUrl), FeedWindow);
    for i := 0 to |entries|
      invariant i <= FirstRelevant(net, entries)
    {
      var entry := entries[i];
      var ext := FilterRelevant(net, EntryText(entry), DefaultMaxChars);
      if ext != "" {
        FeedResultsAt(net, probe, entries, i, ext);
        results := [FormatResult(probe.province, probe.source, entry.link.GetOr(""), Take(ext, FeedExcerptChars))];
        return;
      }
      FeedLoopPast(net, entries, i);
    }
    FeedResultsAt(net, probe, entries, |entries|, "");
  }

  /** An entry that gives no excerpt is not where the feed loop stops. */
  lemma FeedLoopPast(net: Net, entries: seq<FeedEntry>, i: nat)
    requires i < |entries| && i <= FirstRelevant(net, entries)
    requires Excerpt(net, EntryText(entries[i]), DefaultMaxChars) == ""
    ensures i + 1 <= FirstRelevant(net, entries)
  {
  }

  /** A feed loop that stops at entry `i` with excerpt `ext` returns the
      block of the probe; one that runs to the end returns no block. */
  lemma FeedResultsAt(net: Net, probe: Probe, entries: seq<FeedEntry>, i: nat, ext: string)
    requires probe.DebatesFeed? && entries == Take(net.feed(probe.feedUrl), FeedWindow)
    requires i <= |entries| && i <= FirstRelevant(net, entries)
    requires i < |entries| ==> ext == Excerpt(net, EntryText(entries[i]), DefaultMaxChars) && ext != ""
    ensures i == |entries| ==> FeedResults(net, probe) == []
    ensures i < |entries| ==>
      FeedResults(net, probe)
      == [FormatResult(probe.province, probe.source, entries[i].link.GetOr(""), Take(ext, FeedExcerptChars))]
  {
    if i < |entries| {
      FirstRelevantAtMost(net, entries, i);
    }
    FeedResultsUnfold(net, probe);
  }

  /** No entry after a relevant one is the first relevant entry. */
  lemma FirstRelevantAtMost(net: Net, entries: seq<FeedEntry>, i: nat)
    requires i < |entries| && Excerpt(net, EntryText(entries[i]), DefaultMaxChars) != ""
    ensures FirstRelevant(net, entries) <= i
  {
    assert RelevantEntry(net, entries[i]);
  }

  /** The blocks of a feed probe, read at the first relevant entry. */
  lemma FeedResultsUnfold(net: Net, probe: Probe)
    requires probe.DebatesFeed?
    ensures var entries := Take(net.feed(probe.feedUrl), FeedWindow);
      var k := FirstRelevant(net, entries);
      FeedResults(net, probe)
      == if k == |entries| then []
         else [FormatResult(probe.province, probe.source, entries[k].link.GetOr(""),
                            Take(Excerpt(net, EntryText(entries[k]), DefaultMaxChars), FeedExcerptChars))]
  {
  }

  /** The anchor loop: the first link the rule accepts is followed, then
      the loop stops. */
  method RunLinkedPage(net: Net, probe: Probe) returns (results: seq<string>)
    requires probe.LinkedPage?
    ensures results == LinkedResults(net, probe)
  {
    results := [];
    var response := net.get(probe.indexUrl);
    if response.None? {
      return;
    }
    var anchors := net.anchors(response.value);
    for i := 0 to |anchors|
      invariant results == []
      invariant forall j | 0 <= j < i :: !FollowsRule(probe.rule, anchors[j].href)
    {
      var a := anchors[i];
      if FollowsRule(probe.rule, a.href) {
        var link := Absolute(probe.base, a.href);
        var page := net.get(link);
        if page.Some? {
          var ext := FilterRelevant(net, page.value, DefaultMaxChars);
          if ext != "" {
            results := results + [FormatResult(probe.province, probe.caption + a.text, link, ext)];
          }
        }
        FirstFollowedIs(probe.rule, anchors, i);
        return;
      }
    }
    FirstFollowedIs(probe.rule, anchors, |anchors|);
  }

  /** One probe, run as the source runs it. */
  method RunProbe(net: Net, probe: Probe) returns (results: seq<string>)
    ensures results == ProbeResults(net, probe)
  {
    match probe {
      case Page(_, _, _, _, _, _) => results := RunPage(net, probe);
      case DebatesFeed(_, _, _) => results := RunDebatesFeed(net, probe);
      case LinkedPage(_, _, _, _, _) => results := RunLinkedPage(net, probe);
    }
  }

  /** The blocks of a province fetcher: those of its probes, in order. */
  function ProvinceResults(net: Net, probes: seq<Probe>): seq<string> {
    Gathered(p => ProbeResults(net, p), probes)
  }

  /** Running the first `i + 1` probes is running the first `i`, then the `i`-th. */
  lemma ProvinceResultsPrefix(net: Net, probes: seq<Probe>, i: nat)
    requires i < |probes|
    ensures ProvinceResults(net, probes[..i + 1])
         == ProvinceResults(net, probes[..i]) + ProbeResults(net, probes[i])
  {
    assert probes[..i + 1] == probes[..i] + [probes[i]];
    GatheredConcat(p => ProbeResults(net, p), probes[..i], [probes[i]]);
  }

  /** A province fetcher yields at most one block per probe, and every block
      is a formatted, non-blank result. */
  lemma {:induction false} ProvinceResultsShape(net: Net, probes: seq<Probe>)
    ensures |ProvinceResults(net, probes)| <= |probes|
    ensures forall r | r in ProvinceResults(net, probes) :: StartsWith(r, "PROVINCE : ")
  {
    if probes != [] {
      ProvinceResultsShape(net, probes[1..]);
    }
  }

  /** A province fetcher (`resultats = []; … resultats.append(…)`). */
  method FetchProvince(net: Net, province: Province) returns (results: seq<string>)
    ensures results == ProvinceResults(net, province.probes)
  {
    var probes := province.probes;
    results := [];
    for i := 0 to |probes|
      invariant results == ProvinceResults(net, probes[..i])
    {
      ProvinceResultsPrefix(net, probes, i);
      var found := RunProbe(net, probes[i]);
      results := results + found;
    }
    assert probes[..|probes|] == probes;
  }

  // ---------------------------------------------------------------------
  // The watcher (`fetch_interprovincial`)
  // ---------------------------------------------------------------------

  /** The blocks of `provinces`, in order, each one adding `contribution(p)`
      (the probes of a province, the provinces of the watcher). */
  function Gathered<T>(contribution: T -> seq<string>, provinces: seq<T>): seq<string> {
    if provinces == [] then []
    else contribution(provinces[0]) + Gathered(contribution, provinces[1..])
  }

  /** What one province adds: its blocks, or nothing when its fetcher raises. */
  function Contribution(net: Net, raises: string -> bool, province: Province): seq<string> {
    if raises(province.name) then [] else ProvinceResults(net, province.probes)
  }

  /** The blocks gathered from `provinces`, in order; a province whose
      fetcher raises (`raises(name)`) contributes nothing. */
  function Collected(net: Net, raises: string -> bool, provinces: seq<Province>): seq<string> {
    Gathered(p => Contribution(net, raises, p), provinces)
  }

  /** Gathering over two lists of provinces is gathering over each in turn. */
  lemma {:induction false} GatheredConcat<T>(contribution: T -> seq<string>, a: seq<T>, b: seq<T>)
    ensures Gathered(contribution, a + b) == Gathered(contribution, a) + Gathered(contribution, b)
  {
    if a == [] {
      assert a + b == b;
    } else {
      assert (a + b)[1..] == a[1..] + b;
      GatheredConcat(contribution, a[1..], b);
    }
  }

  /** A province that contributes nothing is dropped, and only it: the blocks
      of the provinces before and after it are gathered as if it were absent. */
  lemma GatheredSkips<T>(contribution: T -> seq<string>, provinces: seq<T>, i: nat)
    requires i < |provinces| && contribution(provinces[i]) == []
    ensures Gathered(contribution, provinces)
         == Gathered(contribution, provinces[..i]) + Gathered(contribution, provinces[i + 1..])
  {
    assert provinces == provinces[..i] + ([provinces[i]] + provinces[i + 1..]);
    GatheredConcat(contribution, provinces[..i], [provinces[i]] + provinces[i + 1..]);
    assert ([provinces[i]] + provinces[i + 1..])[1..] == provinces[i + 1..];
  }

  /** Gathering from the first `i + 1` provinces is gathering from the
      first `i`, then the contribution of the `i`-th. */
  lemma CollectedPrefix(net: Net, raises: string -> bool, provinces: seq<Province>, i: nat)
    requires i < |provinces|
    ensures Collected(net, raises, provinces[..i + 1])
         == Collected(net, raises, provinces[..i]) + Contribution(net, raises, provinces[i])
  {
    assert provinces[..i + 1] == provinces[..i] + [provinces[i]];
    GatheredConcat(p => Contribution(net, raises, p), provinces[..i], [provinces[i]]);
  }

  /** A province whose fetcher raises is dropped, and only it. */
  lemma FailureIsolated(net: Net, raises: string -> bool, provinces: seq<Province>, i: nat)
    requires i < |provinces| && raises(provinces[i].name)
    ensures Collected(net, raises, provinces)
         == Collected(net, raises, provinces[..i]) + Collected(net, raises, provinces[i + 1..])
  {
    GatheredSkips(p => Contribution(net, raises, p), provinces, i);
  }

  /** Every gathered block is a formatted result, hence not empty. */
  lemma {:induction false} CollectedShape(net: Net, raises: string -> bool, provinces: seq<Province>)
    ensures forall r | r in Collected(net, raises, provinces) :: StartsWith(r, "PROVINCE : ")
  {
    if provinces != [] {
      ProvinceResultsShape(net, provinces[0].probes);
      CollectedShape(net, raises, provinces[1..]);
    }
  }

  // The first word is a separate literal so that the verifier reads the
  // opening character directly.
  const NothingFound: string := "Aucune " + "référence directe à l'Ontario détectée aujourd'hui dans les sources officielles des autres provinces et territoires canadiens."

  /** A line of fifty dashes between two blocks. */
  const Separator: string := "\n" + "--------------------------------------------------" + "\n"

  const Instructions: string :=
    "INSTRUCTIONS POUR CLAUDE : Pour chaque extrait ci-dessous, évalue le potentiel "
    + "journalistique (faible / moyen / élevé) et explique pourquoi.\n\n"

  /** The count line that opens a non-empty report. */
  function CountLine(n: nat): string {
    "[" + NatToString(n) + " référence(s) à l'Ontario détectée(s) hors Ontario]\n\n"
  }

  /** The non-empty blocks, in order (`r for r in tous_resultats if r`). */
  function NonEmpty(blocks: seq<string>): (r: seq<string>)
    ensures |r| <= |blocks|
    ensures forall b | b in r :: b != "" && b in blocks
  {
    if blocks == [] then []
    else (if blocks[0] != "" then [blocks[0]] else []) + NonEmpty(blocks[1..])
  }

  /** The filter keeps one block exactly when it is not empty. */
  lemma NonEmptyOne(x: string)
    ensures NonEmpty([x]) == if x != "" then [x] else []
  {
    assert [x][1..] == [];
  }

  /** The filter distributes over concatenation, so the kept blocks are
      every non-empty block, in input order. */
  lemma {:induction false} NonEmptyConcat(a: seq<string>, b: seq<string>)
    ensures NonEmpty(a + b) == NonEmpty(a) + NonEmpty(b)
  {
    if a == [] {
      assert a + b == b;
    } else {
      assert (a + b)[1..] == a[1..] + b;
      NonEmptyConcat(a[1..], b);
    }
  }

  /** The watcher's text for the gathered blocks. */
  function Report(all: seq<string>): (r: string)
    ensures r != ""
    ensures all == [] <==> r == NothingFound
  {
    if all == [] then NothingFound
    else
      var r := CountLine(|all|) + Instructions + Join(Separator, NonEmpty(all));
      assert r[0] == CountLine(|all|)[0] == '[';
      assert NothingFound[0] == 'A';
      r
  }

  /** When no block is empty, the report opens with a count that reads back
      as the number of blocks, and those very blocks follow, in order. */
  lemma {:induction false} ReportCountsBlocks(all: seq<string>)
    requires all != []
    requires forall b | b in all :: b != ""
    ensures Report(all) == CountLine(|all|) + Instructions + Join(Separator, all)
    ensures DigitsValue(NatToString(|all|)) == |all|
  {
    NonEmptyKeepsAll(all);
    NatToStringValue(|all|);
  }

  lemma {:induction false} NonEmptyKeepsAll(blocks: seq<string>)
    requires forall b | b in blocks :: b != ""
    ensures NonEmpty(blocks) == blocks
  {
    if blocks != [] {
      assert blocks[0] in blocks;
      assert forall b | b in blocks[1..] :: b in blocks;
      NonEmptyKeepsAll(blocks[1..]);
    }
  }

  /** The watcher's loop over a list of province fetchers: each in turn, an
      exception dropping that province only, then the report. */
  method Watch(net: Net, raises: string -> bool, provinces: seq<Province>) returns (report: string)
    ensures report == Report(Collected(net, raises, provinces))
  {
    var all: seq<string> := [];
    for i := 0 to |provinces|
      invariant all == Collected(net, raises, provinces[..i])
    {
      CollectedPrefix(net, raises, provinces, i);
      var province := provinces[i];
      if !raises(province.name) {
        var results := FetchProvince(net, province);
        if results != [] {
          all := all + results;
        }
      }
    }
    assert provinces[..|provinces|] == provinces;
    if all == [] {
      report := NothingFound;
    } else {
      report := CountLine(|all|) + Instructions + Join(Separator, NonEmpty(all));
    }
  }

  /** The watcher's report is never empty, names "nothing found" exactly when
      no block was gathered, and otherwise counts every gathered block. */
  lemma WatcherReport(net: Net, raises: string -> bool, provinces: seq<Province>)
    ensures var all := Collected(net, raises, provinces);
      && Report(all) != ""
      && (all == [] <==> Report(all) == NothingFound)
      && (all != [] ==> Report(all) == CountLine(|all|) + Instructions + Join(Separator, all))
  {
    var all := Collected(net, raises, provinces);
    CollectedShape(net, raises, provinces);
    if all != [] {
      forall b | b in all ensures b != "" {
        assert StartsWith(b, "PROVINCE : ");
      }
      ReportCountsBlocks(all);
    }
  }
}

/** The provinces and territories the watcher visits, and the watcher
    itself (`fetch_interprovincial`) over that fixed list. */
module InterprovincialSources {
  import opened Web
  import opened Interprovincial

  // ---------------------------------------------------------------------
  // The watched sources (the `fetch_…` functions of each province)
  // ---------------------------------------------------------------------

  const Quebec := Province("Québec", [
    Page("Québec", "Gazette officielle du Québec",
         "https://www.publicationsduquebec.gouv.qc.ca/home.php",
         "https://www.publicationsduquebec.gouv.qc.ca", false, DefaultMaxChars),
    DebatesFeed("Québec", "Journal des débats de l'AN",
                "https://www.assnat.qc.ca/fr/travaux-parlementaires/journaux-debats/rss.xml"),
    Page("Québec", "SEAO — Appels d'offres",
         "https://www.seao.ca/OpportunityPublication/rechercheOc.aspx?lang=fr",
         "https://www.seao.ca", true, DefaultMaxChars)
  ])

  const BritishColumbia := Province("Colombie-Britannique", [
    Page("Colombie-Britannique", "BC Gazette",
         "https://www.bclaws.gov.bc.ca/civix/document/id/bcgaz1/bcgaz1/",
         "https://www.bclaws.gov.bc.ca", false, DefaultMaxChars),
    LinkedPage("Colombie-Britannique", "Hansard BC — ",
               "https://www.leg.bc.ca/parliamentary-business/hansard-blues/house",
               "https://www.leg.bc.ca", HansardOrDebate),
    Page("Colombie-Britannique", "Registre des lobbyistes de la C.-B.",
         "https://www.lobbyistsregistrar.bc.ca/app/secure/orl/lrs/do/lbrSearch",
         "https://www.lobbyistsregistrar.bc.ca", false, DefaultMaxChars),
    Page("Colombie-Britannique", "BC Utilities Commission",
         "https://www.bcuc.com/OurWork/Applications",
         "https://www.bcuc.com", false, DefaultMaxChars)
  ])

  const Alberta := Province("Alberta", [
    Page("Alberta", "Alberta Gazette",
         "https://open.alberta.ca/publications?subject=alberta-gazette",
         "https://open.alberta.ca", false, DefaultMaxChars),
    Page("Alberta", "Hansard de l'Assemblée de l'Alberta",
         "https://www.assembly.ab.ca/assembly-business/hansard",
         "https://www.assembly.ab.ca", false, DefaultMaxChars),
    Page("Alberta", "Registre des lobbyistes de l'Alberta",
         "https://www.lobbyists.alberta.ca/public/registrant-search",
         "https://www.lobbyists.alberta.ca", false, DefaultMaxChars),
    Page("Alberta", "Alberta Utilities Commission",
         "https://www.auc.ab.ca/regulatory-documents",
         "https://www.auc.ab.ca", false, DefaultMaxChars)
  ])

  const Manitoba := Province("Manitoba", [
    Page("Manitoba", "Gazette du Manitoba",
         "https://web2.gov.mb.ca/laws/gazette/index_gazette.php",
         "https://web2.gov.mb.ca", false, DefaultMaxChars),
    LinkedPage("Manitoba", "Hansard Manitoba — ",
               "https://www.gov.mb.ca/legislature/hansard/index.html",
               "https://www.gov.mb.ca/legislature/hansard/", HansardOrHtml)
  ])

  const Saskatchewan := Province("Saskatchewan", [
    Page("Saskatchewan", "Gazette de la Saskatchewan",
         "https://publications.saskatchewan.ca/#/products?pageSize=20&keyword=gazette",
         "https://publications.saskatchewan.ca", true, DefaultMaxChars),
    Page("Saskatchewan", "Hansard de la Saskatchewan",
         "https://www.legassembly.sk.ca/legislative-business/hansard/",
         "https://www.legassembly.sk.ca", false, DefaultMaxChars)
  ])

  const NovaScotia := Province("Nouvelle-Écosse", [
    Page("Nouvelle-Écosse", "Hansard de la Nouvelle-Écosse",
         "https://nslegislature.ca/legislative-business/hansard",
         "https://nslegislature.ca", false, DefaultMaxChars),
    Page("Nouvelle-Écosse", "NS Utility and Review Board",
         "https://nsuarb.novascotia.ca/hearings",
         "https://nsuarb.novascotia.ca", false, DefaultMaxChars)
  ])

  const NewBrunswick := Province("Nouveau-Brunswick", [
    Page("Nouveau-Brunswick", "Hansard du N.-B.",
         "https://www.gnb.ca/legis/hansard/index-f.asp",
         "https://www.gnb.ca/legis/hansard/", false, DefaultMaxChars),
    Page("Nouveau-Brunswick", "Gazette royale du N.-B.",
         "https://www.gnb.ca/gazette/index-f.asp",
         "https://www.gnb.ca/gazette/", false, DefaultMaxChars)
  ])

  const PrinceEdwardIsland := Province("Île-du-Prince-Édouard", [
    Page("Île-du-Prince-Édouard", "Hansard de l'ÎPÉ",
         "https://www.assembly.pe.ca/hansard",
         "https://www.assembly.pe.ca", false, DefaultMaxChars)
  ])

  const Newfoundland := Province("Terre-Neuve-et-Labrador", [
    Page("Terre-Neuve-et-Labrador", "Hansard de T.-N.-L.",
         "https://www.assembly.nl.ca/HouseBusiness/Hansard",
         "https://www.assembly.nl.ca", false, DefaultMaxChars),
    Page("Terre-Neuve-et-Labrador", "NL Public Utilities Board",
         "https://pub.nl.ca/applications/",
         "https://pub.nl.ca", false, DefaultMaxChars)
  ])

  /** The territories get a lighter 400-character excerpt; each block names
      the territory and shows the fetched page's own URL. */
  const TerritoryMaxChars: nat := 400

  const Territories := Province("Territoires", [
    Page("Yukon", "Assemblée législative du Yukon",
         "https://yukonassembly.ca/house-business/hansard",
         "https://yukonassembly.ca/house-business/hansard", false, TerritoryMaxChars),
    Page("T.N.-O.", "Assemblée législative des T.N.-O.",
         "https://www.ntassembly.ca/content/hansard",
         "https://www.ntassembly.ca/content/hansard", false, TerritoryMaxChars),
    Page("Nunavut", "Assemblée législative du Nunavut",
         "https://www.assembly.nu.ca/hansard",
         "https://www.assembly.nu.ca/hansard", false, TerritoryMaxChars)
  ])

  /** The fetchers, in the order the watcher runs them. */
  const Provinces: seq<Province> := [
    Quebec, BritishColumbia, Alberta, Manitoba, Saskatchewan,
    NovaScotia, NewBrunswick, PrinceEdwardIsland, Newfoundland, Territories
  ]

  /** `fetch_interprovincial`: the watcher over the ten fetchers, in order. */
  method FetchInterprovincial(net: Net, raises: string -> bool) returns (report: string)
    ensures report == Report(Collected(net, raises, Provinces))
  {
    report := Watch(net, raises, Provinces);
  }
}

# Ontario digest: the verified core

This repository gathers, each morning, the public sources of Ontario
politics: government news releases, Hansard (the record of the Legislative
Assembly), the Ontario Gazette, the lobbyist and regulatory registries and
orders in council. It also watches the official sources of the other
provinces and territories for any mention of Ontario, and mails the
resulting digest as an HTML page. Between the network calls sit three
pieces of deterministic string logic. They are modelled here and proved
correct:

- **`interprovincial.py`**:
  - the relevance filter `texte_pertinent`, which keeps the units of at
    least 30 characters that name Ontario in any letter case;
  - the four-field result block `formater_resultat`;
  - each province's probes: a page, a debates feed, or an index whose first
    matching link is followed;
  - the watcher `fetch_interprovincial`. It isolates a failing province and
    always returns a non-empty report.
- **`fetchers.py`**:
  - the text post-processing of `soup_text`;
  - the "first URL that answers wins" chains;
  - the Hansard link rule;
  - the recency rule of the news feed;
  - the six sections of `fetch_all`.
- **`mailer.py`**:
  - the line-by-line Markdown-to-HTML state machine with its `in_list`
    flag;
  - its `**bold**` rewrite loop;
  - the page template of `construire_html`.

The model has six modules:

- `Wrappers`: `Option`.
- `Text`: the Python string operations the core uses, on `seq<char>`.
  - `strip`, ASCII `lower`, `in` and `find`;
  - `split("\n")`, `splitlines` and `join`;
  - slicing, and zero-padded decimals.
- `Web`: everything the core receives from outside, as one value `Net`.
  - HTTP answers, the headless browser and the feed parser;
  - the parser's blocks, anchors and visible text.
- `Interprovincial` and `InterprovincialSources`.
- `Fetchers`.
- `Mailer`.

Each loop of the source is a `method` with the same branches. Each method
is proved equal to a specification function. The properties the source
promises are proved about those functions as lemmas.

How the model reads some of the source's behaviour:

- A province fetcher that raises an exception is modelled by the parameter
  `raises`. The watcher then drops that province's results and goes on.
- `soup_text` can return the empty string even when the page answered: a
  page with no line longer than 25 characters gives "". The model follows
  the code.
- Some of the source's branches can never be taken, and the model proves it:
  - The news digest never returns "Aucun communiqué récent.", because the
    first entry of a non-empty feed is always kept (`Fetchers.NewsDigestShape`).
  - In `markdown_to_html`, the test `if processed:` never fails
    (`Mailer.ParagraphNeverEmpty`).
- A `# ` heading does not close an open list (mailer.py:35-37). The model
  keeps this. Lists still never nest, because only `<ul>`, `</ul>` and
  `<li>` lines count toward nesting (`Mailer.HtmlListsBalanced`).
- The territories pass the page URL, not the `base` they list, as the
  block's URL (interprovincial.py:381-386). The model does the same.

## Model

| member | source | states |
|---|---|---|
| Text.Strip | fetchers.py:34 | `str.strip()`: the result is a slice of the input; only white space lies before and after it; a non-empty result starts and ends with a non-space character; the result is empty exactly when the input is all white space |
| Text.SplitLines | interprovincial.py:66 | `splitlines()`: no piece holds a line break |
| Text.SplitLinesJoin | interprovincial.py:66 | the pieces joined with "\n" give back the text, less one final line break |
| Text.Split | mailer.py:21 | `split("\n")`: at least one piece, and no piece holds the separator |
| Text.JoinSplit | mailer.py:21 | joining the pieces with the separator gives back the text |
| Text.SplitJoin | mailer.py:21 | splitting a join of separator-free pieces gives back the pieces |
| Text.Lower | fetchers.py:83 | ASCII `lower()`: same length, each character lower-cased on its own |
| Text.Take | fetchers.py:35 | slicing `[:n]`: the first min(n, length) elements, a prefix of the input |
| Text.NatToString | interprovincial.py:434 | the canonical decimal form of `len(...)`: at least one character, all digits, and a leading "0" exactly for zero |
| Text.NatToStringValue | interprovincial.py:434 | the digits denote the number |
| Text.NatToStringCanonical | interprovincial.py:434 | any digit string without a leading zero (or "0") that denotes the number is this rendering, so it is Python's `str(n)` |
| Text.Find | mailer.py:70-71 | `str.find(sub, start)`: the first occurrence at or after `start`, or -1 exactly when there is none |
| Web.Absolute | fetchers.py:84-85 | an href that starts with "http" is kept; any other href is prefixed by the base, so the link starts with the base, ends with the href, and is exactly as long as both |
| Interprovincial.KeywordsStartSolid | interprovincial.py:34-39 | every keyword is non-empty and starts with a non-space character |
| Interprovincial.MentionNotBlank | interprovincial.py:72-73 | a unit in which a keyword occurs, in any letter case, is not blank once stripped |
| Interprovincial.KeptUnits | interprovincial.py:68-73 | the kept units are no more than the units, and each is non-empty and starts with a non-space character |
| Interprovincial.KeptUnitsConcat | interprovincial.py:68-73 | filtering distributes over concatenation, so kept units keep their input order |
| Interprovincial.KeptUnitsPrefix | interprovincial.py:68-73 | the kept units of one more unit are those of the units before it, plus its stripped copy when it qualifies |
| Interprovincial.KeptUnitsMembers | interprovincial.py:69-73 | every unit of 30 or more characters that names Ontario is kept as its stripped copy, and everything kept is the stripped copy of such a unit |
| Interprovincial.ExcerptShape | interprovincial.py:57-75 | the excerpt is at most `max_chars` long; it is "" exactly when no unit qualifies or `max_chars` is 0; otherwise it starts with the first character of the first kept unit |
| Interprovincial.ExcerptPrefix | interprovincial.py:75 | the excerpt is the first min(`max_chars`, length) characters of the kept units joined by "\n\n" |
| Interprovincial.FilterRelevant | interprovincial.py:57-75 | the loop that appends qualifying stripped units, then joins and cuts, returns the excerpt |
| Interprovincial.SingleLineKeptVerbatim | interprovincial.py:34-75 | a stripped single line of 30 to `max_chars` characters that contains "ontario" in any letter case comes back unchanged |
| Interprovincial.FormatResult | interprovincial.py:78-86 | the block is "" exactly when the excerpt is blank; otherwise it starts with "PROVINCE : " and ends with the excerpt |
| Interprovincial.BlockShape | interprovincial.py:81-86 | the block starts with "PROVINCE : " and ends with the excerpt |
| Interprovincial.BlockLines | interprovincial.py:81-86 | the block's lines are the four labelled fields, followed by the excerpt's own lines |
| Interprovincial.FormatResultLines | interprovincial.py:78-86 | for a non-blank excerpt, the result's lines are the four fields, then the excerpt's lines |
| Interprovincial.PageResults | interprovincial.py:96-101 | a page probe adds at most one block, and every block starts with "PROVINCE : " |
| Interprovincial.FeedResults | interprovincial.py:104-111 | a feed probe adds at most one block, and a block starts with "PROVINCE : " |
| Interprovincial.FeedResultsFirst | interprovincial.py:104-111 | a feed probe adds a block exactly when one of the first five entries is relevant; the block is the one of the first relevant entry, with its link and its excerpt cut to 500 characters |
| Interprovincial.FirstRelevantIs | interprovincial.py:104-111 | a position that holds a relevant entry, or the end, with no relevant entry before it, is where the feed loop stops |
| Interprovincial.LinkedResults | interprovincial.py:139-156 | an index probe adds at most one block, and a block starts with "PROVINCE : " |
| Interprovincial.LinkedResultsFirst | interprovincial.py:139-156 | an index probe adds a block exactly when the index answers and the first link the rule accepts, made absolute, answers with an excerpt; the block is the one of that link, so later links are never followed |
| Interprovincial.FirstFollowedIs | interprovincial.py:141-156 | a position that holds a link the rule follows, or the end, with no such link before it, is where the anchor loop stops |
| Interprovincial.ProbeResults | interprovincial.py:92-121 | any probe adds at most one block, and every block starts with "PROVINCE : " |
| Interprovincial.RunPage | interprovincial.py:96-101 | the page branch returns exactly `PageResults` |
| Interprovincial.RunDebatesFeed | interprovincial.py:104-111 | the feed loop stops at the first relevant entry and returns exactly `FeedResults` |
| Interprovincial.RunLinkedPage | interprovincial.py:139-156 | the anchor loop stops at the first matching link and returns exactly `LinkedResults` |
| Interprovincial.RunProbe | interprovincial.py:92-121 | dispatches each probe to its loop and returns `ProbeResults` |
| Interprovincial.ProvinceResultsPrefix | interprovincial.py:92-121 | one more probe appends that probe's blocks to those of the probes before it |
| Interprovincial.ProvinceResultsShape | interprovincial.py:92-121 | a province yields at most one block per probe, each starting with "PROVINCE : " |
| Interprovincial.FetchProvince | interprovincial.py:92-121 | a province fetcher returns the blocks of its probes in order |
| Interprovincial.GatheredConcat | interprovincial.py:413-422 | gathering over two lists of provinces is the concatenation of the two gatherings |
| Interprovincial.GatheredSkips | interprovincial.py:414-422 | a province that contributes nothing leaves the others' results as they would be without it |
| Interprovincial.CollectedPrefix | interprovincial.py:413-422 | one more province appends its contribution (nothing when it raises) to the results so far |
| Interprovincial.FailureIsolated | interprovincial.py:414-422 | a province that raises is dropped, and the other provinces' results are still concatenated in list order |
| Interprovincial.CollectedShape | interprovincial.py:413-419 | every collected result is a block starting with "PROVINCE : " |
| Interprovincial.NonEmpty | interprovincial.py:431 | keeps only non-empty blocks, each of them one of the input's |
| Interprovincial.NonEmptyOne | interprovincial.py:431 | one block is kept exactly when it is not empty |
| Interprovincial.NonEmptyConcat | interprovincial.py:431 | the filter distributes over concatenation, so every non-empty block is kept, in input order |
| Interprovincial.Report | interprovincial.py:424-438 | the report is never empty, and it is the fixed "nothing found" sentence exactly when no result was collected |
| Interprovincial.ReportCountsBlocks | interprovincial.py:430-438 | for non-empty blocks, the report is the count line, the instructions, and the blocks joined by the dashed separator; the count's digits denote the number of blocks |
| Interprovincial.NonEmptyKeepsAll | interprovincial.py:431 | when no block is empty, the filter keeps every block |
| Interprovincial.Watch | interprovincial.py:393-438 | the watcher loop, with its per-province failure isolation, returns the report of the collected results |
| Interprovincial.WatcherReport | interprovincial.py:424-438 | the report is non-empty; it is "nothing found" exactly when nothing was collected; otherwise it counts every collected block |
| InterprovincialSources.FetchInterprovincial | interprovincial.py:393-438 | the watcher over the ten fixed sources, in their listed order |
| Fetchers.ContentLinesShape | fetchers.py:34 | the kept lines are no more than the input lines, each stripped and longer than 25 characters |
| Fetchers.ContentLinesConcat | fetchers.py:34 | line filtering distributes over concatenation, so kept lines stay in their original order |
| Fetchers.ContentLinesMembers | fetchers.py:34 | exactly the lines whose stripped length is over 25 are kept, each as its stripped copy |
| Fetchers.ContentLinesSingle | fetchers.py:34 | lines without a line break stay without one |
| Fetchers.SoupText | fetchers.py:30-35 | the text is the first min(`max_chars`, length) characters of the first 200 kept lines joined by "\n" |
| Fetchers.SoupTextLines | fetchers.py:34-35 | when the join fits, the text splits back into at most 200 lines, each stripped, longer than 25 and without a line break |
| Fetchers.FirstAnswerFirst | fetchers.py:69-74 | no answer exactly when every URL fails; otherwise the answer comes from the first URL that answers |
| Fetchers.FirstResponse | fetchers.py:70-74 | the fallback loop over the index URLs returns the first answer |
| Fetchers.EntryTime | fetchers.py:47-50 | a valid published date is used as is; a missing or invalid one becomes the current time |
| Fetchers.DateText | fetchers.py:56 | `%Y-%m-%d` has ten characters, with dashes at positions 4 and 7 |
| Fetchers.DateTextValue | fetchers.py:56 | the three digit groups denote the year, the month and the day |
| Fetchers.NewsItem | fetchers.py:53-56 | every item starts with "[" |
| Fetchers.NewsItemShape | fetchers.py:53-56 | an item is "[date] title", a line break, the summary cut to 500 characters, a line break and the link |
| Fetchers.NewsItems | fetchers.py:45-56 | no more items than entries examined |
| Fetchers.NewsItemsPrefix | fetchers.py:52 | items only accumulate: the items of a prefix of the entries open the items of all of them |
| Fetchers.NewsFirstThree | fetchers.py:52 | the first min(3, n) entries are always kept |
| Fetchers.NewsShortKeepsAll | fetchers.py:52 | three or fewer entries are all kept, whatever their dates |
| Fetchers.NewsStaleBound | fetchers.py:52 | at most three stale entries are kept, and when every entry is recent all are kept |
| Fetchers.UndatedEntryKept | fetchers.py:47-52 | an entry without a valid date counts as published now, so it is kept |
| Fetchers.NewsDigestJoin | fetchers.py:41-58 | for a non-empty feed, the digest is the first min(8, n) items joined by a blank line, and there is at least one |
| Fetchers.NewsDigestShape | fetchers.py:41-58 | the fixed "no feed" placeholder exactly when the feed is empty; otherwise the digest starts with "[", so "no recent release" never occurs |
| Fetchers.SelectNews | fetchers.py:45-56 | the selection loop over the window returns the news items |
| Fetchers.FetchNews | fetchers.py:38-58 | the selection loop over the first 20 entries returns the news digest |
| Fetchers.HansardLink | fetchers.py:79-87 | a chosen link has non-empty text and an absolute href |
| Fetchers.HansardLinkFirst | fetchers.py:80-87 | no link exactly when no anchor qualifies; otherwise the link is the first qualifying anchor, made absolute with "https://www.ola.org" |
| Fetchers.ChooseHansardLink | fetchers.py:79-87 | the anchor loop returns the first qualifying link |
| Fetchers.LinkDigestNamesLink | fetchers.py:93-100 | once a link is chosen, the digest names the link, whether or not its page answers |
| Fetchers.LinkDigestNotUnavailable | fetchers.py:93-100 | once a link is chosen, the digest is never the "Hansard unavailable" placeholder |
| Fetchers.HansardDigestCases | fetchers.py:61-100 | "Hansard unavailable" exactly when every index URL fails; a chosen link is named in the digest |
| Fetchers.FetchHansard | fetchers.py:61-100 | the index fallback, the link choice and the page fetch return the Hansard digest |
| Fetchers.RegistryDigest | fetchers.py:111-121 | the placeholder when every URL fails, and never longer than the longer of 3000 and the placeholder |
| Fetchers.PageDigest | fetchers.py:103-108 | the placeholder when the page fails; otherwise at most 3000 characters |
| Fetchers.RegistryFallback | fetchers.py:113-121 | the first URL's text when it answers; otherwise exactly what the second URL alone would give |
| Fetchers.FetchRegistry | fetchers.py:111-121 | the fallback loop returns the registry digest |
| Fetchers.AllSources | fetchers.py:145-154 | exactly six sections, under the six fixed names, in order |
| Fetchers.SourceNamesDistinct | fetchers.py:147-154 | the six names are pairwise distinct, so they are six keys |
| Fetchers.AllSourcesOffline | fetchers.py:145-154 | with no network, every section holds its fixed placeholder |
| Fetchers.FetchAll | fetchers.py:145-156 | the six fetches in order give the six sections |
| Mailer.EmboldenCounts | mailer.py:74-80 | one pass removes exactly four "*" and adds thirteen characters |
| Mailer.BoldRewriteShape | mailer.py:68-80 | the rewrite never shortens the text; thirteen characters are added for every four stars removed; no pair is left; a text without "**" is unchanged |
| Mailer.BoldFirstPair | mailer.py:69-80 | with the first "**" found at `start` and the next one from `start + 2` at `end`, the result is the text before `start`, `<strong>`, the text between the markers, `</strong>`, then the rewrite of what follows `end + 2`, whatever single stars lie around |
| Mailer.PairFreeShift | mailer.py:69-80 | a prefix holding no "**" and not ending with a star is kept as it is, and the rest of the text is rewritten on its own |
| Mailer.BoldShift | mailer.py:69-80 | a star-free prefix is kept as it is, and the rest of the text is rewritten on its own |
| Mailer.BoldPair | mailer.py:69-80 | in star-free text a, then "**" b "**" with b star-free, then c, the pair becomes `<strong>` b `</strong>` after a, and the rewrite continues on c |
| Mailer.BoldRewriteKeeps | mailer.py:69-73 | a text with no pair left is its own rewrite |
| Mailer.BoldRewriteIdempotent | mailer.py:69-80 | rewriting twice is rewriting once |
| Mailer.RewriteBold | mailer.py:69-80 | the `while "**" in processed` loop terminates, because each pass removes four stars, and returns the rewrite |
| Mailer.ClassifyOrder | mailer.py:26-67 | "## " always gives an h2 of the stripped remainder, never an h1; an h1 line starts with "# " but not "## "; a "- " or "* " line that is no heading gives an item of its stripped remainder; a paragraph is the non-empty stripped line |
| Mailer.ClassifyBlank | mailer.py:62-66 | a line is blank exactly when it is white space only |
| Mailer.ClassifyRule | mailer.py:57-61 | a line is a rule exactly when it reads "---" once stripped |
| Mailer.StepListState | mailer.py:26-85 | an item leaves a list open; an h1 leaves the list state as it was; every other kind closes the list |
| Mailer.ParagraphNeverEmpty | mailer.py:67-85 | a paragraph line always closes the list and yields one `<p>` of its rewritten text |
| Mailer.EmitLine | mailer.py:26-85 | the loop body for one line emits exactly the step of its kind |
| Mailer.MarkdownToHtml | mailer.py:19-90 | the loop, followed by the final close, returns the rendering of the text |
| Mailer.HeadingWalk | mailer.py:26-37 | an h2 closes any open list; an h1 keeps the list state |
| Mailer.ItemWalk | mailer.py:38-42 | an item opens a list only when none is open, and stays inside it |
| Mailer.EmphasisWalk | mailer.py:43-56 | a bold line and an italic note close any open list |
| Mailer.SeparatorWalk | mailer.py:57-66 | a rule and a blank line close any open list |
| Mailer.ParagraphWalk | mailer.py:81-85 | a paragraph closes any open list |
| Mailer.StepWalk | mailer.py:25-85 | every step is well nested and ends in the list state it reports |
| Mailer.RunWalk | mailer.py:25-86 | the lines of any text are well nested and end in the state the machine reports |
| Mailer.HtmlListsBalanced | mailer.py:19-90 | the output's lists never nest, no item lies outside a list, every list is closed, and there are as many `<ul>` lines as `</ul>` lines |
| Mailer.BuildHtmlEmbeds | mailer.py:93-123 | the page is the fixed head, the rendered body unchanged, then the fixed foot |
| Mailer.PageHeadDated | mailer.py:100-107 | the head holds the `<title>` with the date and the banner, and the banner holds the date |
| Mailer.HtmlPageInjective | mailer.py:93-123 | two bodies give the same page only if they are equal, so nothing of the body is lost |

## Left out

- HTTP (`safe_get`, `requests`) and the feed parser: modelled as the functions of a `Net` value. The same URL always gives the same answer within one run. Timeouts and status codes collapse into `None`.
- `safe_get_js`: imported by interprovincial.py:23, but fetchers.py does not define it. It is modelled as `Net.getJs`.
- BeautifulSoup (tag removal, `find_all`, `get_text`): its outputs are inputs of the model. These are the text blocks, the `(text, href)` anchors, and the visible text.
- `time.sleep`, all `print` logging, and the clock. `now` and `cutoff` are parameters; the 36-hour offset `cutoff = now - 36h` is not modelled.
- `send_email` and the Resend service: an external API. digest.py and main.py are not part of this model.
- Text.Strip: removes ASCII white space only, where Python also removes other Unicode white space.
- Text.SplitLines: splits on "\n" only, where Python also splits on "\r", "\x0b", "\x0c", "\x1c"–"\x1e", "\x85", "\u2028" and "\u2029".
- Text.Lower: ASCII lower-casing only. All the keywords are ASCII.
- The 16 keywords use plain substring search, which matches what the source's alternation of escaped literals with `IGNORECASE` finds.
- Fetchers.DateText: always pads the year to four digits. The C library's `strftime` may not pad years below 1000.
- Fetchers.RegistryDigest: states the placeholder and the length bound only. The choice of page is stated by `Fetchers.FirstAnswerFirst` and `Fetchers.RegistryFallback`.
- Timezone handling of the feed's timestamps: all instants are taken to be UTC, as the source declares them.

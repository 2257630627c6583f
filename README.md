# asclub-feeds — a verified model

asclub-feeds publishes machine-readable feeds for the AS Club news site. This
project models the logic of its two scripts in Dafny:

- **the news-sitemap generator** (`scripts/generate-news-sitemap.js`). It reads an
  RSS 2.0 or Atom feed and collects a title, URL and raw date from each item. It
  converts those to trimmed strings and an instant. It keeps the items published
  in the last 48 hours, up to 1000 of them. It writes those items as a Sitemap 0.9
  `urlset` with the Google News extension, every text field XML-escaped.
- **the site scraper** (`scripts/scrape-framer.py`). It takes the news links found
  on the site's news page, at most 30 of them. It makes relative links absolute
  and repairs the doubled dot that joining them can produce. It reads a `dd/mm/yyyy`
  date, falling back to the current time. It drops later records whose link was
  already seen.

Modules, one per concern of the scripts:

| file | module | models |
|---|---|---|
| `wrappers.dfy` | `Wrappers` | `Option` |
| `text.dfy` | `Text` | `replaceAll`/`str.replace`, `trim`/`strip` and both whitespace sets, digit strings |
| `xml_escape.dfy` | `XmlEscape` | `escapeXml`, with a decoder to state the round trip |
| `feed_tree.dfy` | `FeedTree` | the object tree the XML parser returns; truthiness, `?.`, `\|\|`, `??`, `toString`, `toArray` |
| `feed_items.dfy` | `FeedItems` | the RSS and Atom mappings to candidates |
| `recency_filter.dfy` | `RecencyFilter` | the coercion `map`, the 48-hour `filter`, `slice(0, 1000)` |
| `sitemap_render.dfy` | `SitemapRender` | the `urlset` template and loop, with a reader for that layout |
| `news_sitemap.dfy` | `NewsSitemap` | `main` of the generator, I/O as parameters |
| `scraper_date.dfy` | `ScraperDate` | `parse_date` (`strptime` with `%d/%m/%Y`) |
| `scraper.dfy` | `Scraper` | the link loop, the URL repair and the de-duplication of `scrape_noticias` |

The model's conventions:

- A parsed feed is a `Node`: a string, a number, an array or an object. A missing
  property, JavaScript's `undefined`, is `None`.
- Three things the generator gets from the JavaScript runtime are parameters: the
  date parser (`dateOf`, which gives milliseconds, or `None` for an invalid date),
  `toISOString` (`iso`) and the clock (`now`).
- The scraper gets each anchor's `href`, heading text and date text as an `Anchor`
  value. The clock reading `datetime.now()` is a parameter `now`.

## Model

| member | source | states |
|---|---|---|
| XmlEscape.EscapeXml | scripts/generate-news-sitemap.js:8-15 | the five chained `replaceAll` passes, `&` first; no contract of its own, see the lemmas below |
| XmlEscape.EscapeXmlWellEscaped | scripts/generate-news-sitemap.js:8-15 | the output of `escapeXml` holds no `<`, `>`, `"` or `'`, and every `&` in it starts one of the five entities |
| XmlEscape.UnescapeEscapeXml | scripts/generate-news-sitemap.js:8-15 | decoding the five entities in `escapeXml(s)` gives back exactly `s` |
| XmlEscape.EscapeXmlIsPerChar | scripts/generate-news-sitemap.js:8-15 | the five chained `replaceAll` passes, `&` first, equal escaping each character on its own, so no character is escaped twice |
| XmlEscape.EscapeXmlOneChar | scripts/generate-news-sitemap.js:10-14 | on a one-character string the five passes give that character's entity, or the character itself |
| XmlEscape.EscapeXmlConcat | scripts/generate-news-sitemap.js:10-14 | escaping distributes over concatenation |
| XmlEscape.EscapeCharsWellEscaped | scripts/generate-news-sitemap.js:8-15 | per-character escaping leaves no bare special character |
| XmlEscape.UnescapeEscapeChars | scripts/generate-news-sitemap.js:8-15 | decoding undoes per-character escaping |
| XmlEscape.UnescapeStep | scripts/generate-news-sitemap.js:10-14 | decoding one escaped character followed by any text gives that character followed by the decoded text |
| XmlEscape.EscapeXmlPlain | scripts/generate-news-sitemap.js:8-15 | a string without the five special characters is returned unchanged |
| XmlEscape.EscapeXmlEntityAgain | scripts/generate-news-sitemap.js:10 | escaping is not idempotent: `&` followed by text without special characters becomes `&amp;` followed by that text, so `&amp;` becomes `&amp;amp;` |
| FeedTree.ToArray | scripts/generate-news-sitemap.js:17-20 | `toArray`; no contract of its own, see the lemmas below |
| FeedTree.ToArrayCases | scripts/generate-news-sitemap.js:17-20 | `toArray`: a falsy value gives `[]`, an array is itself, anything else is a one-element list |
| FeedTree.ToArrayNormalises | scripts/generate-news-sitemap.js:17-20 | a lone element and a one-element array of it give the same list, and `toArray` of its own result changes nothing |
| FeedItems.AtomUrl | scripts/generate-news-sitemap.js:54 | the Atom link choice; no contract of its own, see the lemmas below |
| FeedItems.FirstAlternate | scripts/generate-news-sitemap.js:54 | `find` with `@_rel === "alternate"` returns the index of the first alternate link, and `None` exactly when there is no alternate link |
| FeedItems.AtomUrlChoice | scripts/generate-news-sitemap.js:54 | the first alternate link's href is used when truthy; when it is falsy, the first link's href is used |
| FeedItems.AtomUrlNoAlternate | scripts/generate-news-sitemap.js:54 | with no alternate link the URL is the first link's href, and it is undefined for an entry without links |
| FeedItems.AtomMissingRelIsNotAlternate | scripts/generate-news-sitemap.js:54 | a link without `rel` is not taken as the alternate one, so a leading `rel="self"` link wins |
| FeedItems.MapRss | scripts/generate-news-sitemap.js:42-46 | one candidate per RSS item, in order, with title `title`, URL `link` and date `pubDate \|\| date` |
| FeedItems.MapAtom | scripts/generate-news-sitemap.js:52-56 | one candidate per Atom entry, in order, with title `title["#text"] ?? title`, the chosen link and date `published \|\| updated` |
| FeedItems.CollectItems | scripts/generate-news-sitemap.js:37-57 | truthy Atom entries replace the RSS items; otherwise truthy RSS items are used; otherwise there are no candidates; each item is mapped in order |
| FeedTree.ToString | scripts/generate-news-sitemap.js:65-66 | `toString()` of a parsed value; no contract of its own, see `RecencyFilter.FieldText` and `RecencyFilter.RssTitleWithAttributes` |
| RecencyFilter.DateValue | scripts/generate-news-sitemap.js:67 | `new Date(undefined)` is invalid, and a present value gives what the date parser gives |
| RecencyFilter.FieldText | scripts/generate-news-sitemap.js:65-66 | `(x \|\| "").toString().trim()` is empty or has no JavaScript whitespace at either end |
| RecencyFilter.NormalizeAll | scripts/generate-news-sitemap.js:63-68 | the coercion `map` keeps length and order and coerces each item on its own |
| RecencyFilter.Kept | scripts/generate-news-sitemap.js:69 | the `filter` predicate; no contract of its own, see the lemmas below |
| RecencyFilter.KeepRecent | scripts/generate-news-sitemap.js:69 | an entry is in the filtered list exactly when it is in the input and has a non-empty title, a non-empty URL and a valid date at or after the cutoff |
| RecencyFilter.KeepRecentConcat | scripts/generate-news-sitemap.js:69 | filtering works segment by segment, so relative order is kept |
| RecencyFilter.UndatedDropped | scripts/generate-news-sitemap.js:45-69 | a candidate without a date is never in the filtered list, and every kept entry comes from a candidate that has a date |
| RecencyFilter.Cap | scripts/generate-news-sitemap.js:70 | `slice(0, n)` gives a prefix of length `min(n, length)` |
| RecencyFilter.FilterRecent | scripts/generate-news-sitemap.js:59-70 | at most 1000 entries; every entry passes the filter and comes from the coerced input; the result is a prefix of all passing entries in feed order; when at most 1000 pass, the result is all passing entries, repeats included; exactly 1000 are kept when more pass |
| RecencyFilter.FilteredFieldsTrimmed | scripts/generate-news-sitemap.js:63-69 | every kept title and URL is non-empty and has no surrounding whitespace |
| RecencyFilter.WindowEdges | scripts/generate-news-sitemap.js:59-69 | an item exactly 48 hours old is kept, one a millisecond older is dropped, and every item dated now or later is kept |
| RecencyFilter.RssTitleWithAttributes | scripts/generate-news-sitemap.js:65 | an RSS item whose title is an object (an element with attributes) gets the title `[object Object]` |
| RecencyFilter.TwoItemScenario | scripts/generate-news-sitemap.js:59-70 | for any non-blank title and URL, of two items 2 and 72 hours old only the first is kept, unchanged |
| RecencyFilter.DuplicatesKept | scripts/generate-news-sitemap.js:63-70 | an item that passes the filter and occurs twice in the feed occurs twice in the result |
| SitemapRender.TemplateReadable | scripts/generate-news-sitemap.js:72-93 | in the template every piece that follows a text field starts a tag |
| SitemapRender.RenderWith | scripts/generate-news-sitemap.js:72-93 | header, one block appended per item in order, then the footer, gives the document of the items |
| SitemapRender.RenderSitemap | scripts/generate-news-sitemap.js:72-93 | the generator's text is the document of the items, and when dates render without `<` reading it back gives each item's URL, `AS CLUB`, `pt`, its date and its title, unescaped and in order |
| SitemapRender.ReadFrame | scripts/generate-news-sitemap.js:78-89 | reading a `<url>` block whose fields hold no `<` gives those fields, entities decoded, and leaves the text after the block |
| SitemapRender.ReadBackBlock | scripts/generate-news-sitemap.js:78-89 | reading one rendered block gives back the item's URL and title, the publication name, the language and the rendered date, and leaves the rest of the text |
| SitemapRender.ReadBackBlocks | scripts/generate-news-sitemap.js:77-90 | the blocks of all items read back as their records, in order |
| SitemapRender.ReadBackSitemap | scripts/generate-news-sitemap.js:72-93 | a whole document reads back as the records of its items |
| SitemapRender.EmptySitemap | scripts/generate-news-sitemap.js:72-93 | with no items the document is the bare `urlset` and reads back as an empty list |
| SitemapRender.EscapedHasNoLt | scripts/generate-news-sitemap.js:80-87 | an escaped field holds no `<`, so it cannot end early |
| SitemapRender.ConstantsUnescaped | scripts/generate-news-sitemap.js:83-84 | `AS CLUB` and `pt` pass through `escapeXml` unchanged |
| NewsSitemap.FilteredDated | scripts/generate-news-sitemap.js:69 | every item left after the filter has a date to print |
| NewsSitemap.BuildSitemap | scripts/generate-news-sitemap.js:37-96 | the text written is the document of the filtered candidates, the reported count is their number (at most 1000), and the document reads back as their records |
| NewsSitemap.GenerateSitemap | scripts/generate-news-sitemap.js:22-96 | a missing or empty feed URL ends with that error, a non-ok response ends with its status, otherwise the sitemap and count of the parsed feed are written |
| Text.ReplaceAll | scripts/generate-news-sitemap.js:10-14 | `replaceAll`, replacing occurrences from left to right; no contract of its own, see the `XmlEscape` lemmas |
| Text.Trim | scripts/generate-news-sitemap.js:65-66 | the trimmed text is the middle of the input with only whitespace cut off at both ends, and it starts and ends with non-whitespace |
| Text.TrimPadded | scripts/scrape-framer.py:16 | stripping text surrounded by whitespace gives the text back |
| Text.IndexOf | scripts/scrape-framer.py:16 | the first position of a character, and `None` exactly when it does not occur |
| ScraperDate.ParseDmy | scripts/scrape-framer.py:16 | a successful `%d/%m/%Y` parse is midnight of a real calendar date in years 1 to 9999 |
| ScraperDate.DmyFields | scripts/scrape-framer.py:16 | the fields are accepted exactly when day and month have one or two digits, the year four, and their values form a calendar date; the result is midnight of the date the digits denote |
| ScraperDate.DmyFieldsForm | scripts/scrape-framer.py:16 | accepted fields joined by `/` are the text `FormatDmy` writes for their date, at widths 1 or 2 |
| ScraperDate.ParseDmySplit | scripts/scrape-framer.py:16 | on `d/m/y` with no `/` in `d` or `m`, the directives read exactly those three fields |
| ScraperDate.ParseDmyForm | scripts/scrape-framer.py:16 | only `d/m/yyyy` text parses: a successful parse is its own date written with one- or two-digit day and month and a four-digit year |
| ScraperDate.ParseDate | scripts/scrape-framer.py:13-18 | `parse_date` returns the current time or midnight of a real calendar date |
| ScraperDate.ParseDateForm | scripts/scrape-framer.py:13-18 | any result other than the current time is a valid date at midnight whose stripped input is that date written as `d/m/yyyy`; so any other text, such as `abc` or `5-3-2024`, gives the current time |
| ScraperDate.ParseFormatted | scripts/scrape-framer.py:13-18 | with surrounding whitespace and one- or two-digit day and month, a `dd/mm/yyyy` date parses to that day at midnight exactly when it exists in the calendar, and to the current time otherwise |
| ScraperDate.ImpossibleDateFallsBack | scripts/scrape-framer.py:15-18 | `31/02/2024` is rejected, so the current time is returned |
| Scraper.FixedUrl | scripts/scrape-framer.py:36-41 | the URL repair; no contract of its own, see the lemmas below |
| Scraper.FixUrl | scripts/scrape-framer.py:36-41 | an `href` starting with `http` is kept; any other is prefixed with the site and repaired, and the result starts with `https://www.asclub.pt` |
| Scraper.FixedUrlOnSite | scripts/scrape-framer.py:37-41 | neither dot repair can touch the site prefix of a relative link |
| Scraper.FirstPassKeepsSite | scripts/scrape-framer.py:38-40 | replacing `.pt./` after the site prefix keeps the prefix |
| Scraper.SecondPassKeepsSite | scripts/scrape-framer.py:41 | replacing `asclub.pt.` keeps the site prefix |
| Scraper.FixedUrlUnchangedIff | scripts/scrape-framer.py:36-41 | the URL equals the `href` exactly when the `href` starts with `http` |
| Scraper.Collected | scripts/scrape-framer.py:43-66 | at most one record per anchor |
| Scraper.CollectedFromAnchors | scripts/scrape-framer.py:43-66 | every record comes from an anchor with a heading, and every anchor with a heading gives a record in the list |
| Scraper.Take | scripts/scrape-framer.py:33 | `links[:30]` is a prefix of at most 30 links: all links when there are no more than 30, exactly 30 otherwise |
| Scraper.CollectNoticias | scripts/scrape-framer.py:33-70 | the loop appends the record of each of the first 30 anchors that has a heading, in order, so at most 30 records |
| Scraper.Unique | scripts/scrape-framer.py:72-78 | the de-duplication; no contract of its own, see the lemmas below |
| Scraper.UniqueFrom | scripts/scrape-framer.py:72-78 | de-duplication never lengthens the list |
| Scraper.Dedup | scripts/scrape-framer.py:72-78 | the `seen` loop computes the de-duplicated list, which has no repeated link and every link of its input |
| Scraper.FirstIndex | scripts/scrape-framer.py:72-78 | the position of a link's first occurrence |
| Scraper.UniqueFresh | scripts/scrape-framer.py:72-78 | started with some links already seen, no kept link repeats or was seen before |
| Scraper.UniqueLinks | scripts/scrape-framer.py:72-78 | started with some links already seen, exactly the other links of the input are kept |
| Scraper.UniqueFirst | scripts/scrape-framer.py:75-78 | each kept record is the first record in the input with its link |
| Scraper.UniqueOrder | scripts/scrape-framer.py:75-78 | kept records are in the order of their first occurrences |
| Scraper.UniqueHasNoDuplicates | scripts/scrape-framer.py:72-78 | the result has no two records with the same link |
| Scraper.UniqueKeepsEveryLink | scripts/scrape-framer.py:72-78 | the result has the same set of links as the input |
| Scraper.UniqueKeepsFirstInOrder | scripts/scrape-framer.py:72-78 | the result is the subsequence of first occurrences |
| Scraper.UniqueOfDistinct | scripts/scrape-framer.py:72-78 | a list without repeated links, none seen before, passes through unchanged |
| Scraper.UniqueIdempotent | scripts/scrape-framer.py:72-78 | de-duplicating twice is de-duplicating once |
| Scraper.ScrapeNoticias | scripts/scrape-framer.py:20-81 | after parsing, the result has at most 30 records, none with a repeated link, and is the de-duplication of the loop's records |

## Left out

- Fetching the feed, reading `FEED_URL` from the environment, writing
  `news-sitemap.xml` and logging are I/O. `GenerateSitemap` takes the setting, the
  response status and the parsed document as parameters, and returns the text it
  would write.
- `fast-xml-parser` is not part of this model. Its output is the `Node` tree: strings,
  numbers, arrays and objects, with attributes as `@_` keys and mixed text as
  `#text`. The parser also turns tag text such as `true` or `12.5` into a boolean or
  a fractional number. Those values are not modelled: `Num` holds integers only,
  and there is no boolean or `null` node.
- FeedTree.ToString: a `Num` stands for an integer-valued double below 10^21 in
  magnitude, printed in plain decimal. JavaScript prints larger numbers in exponent
  form (`1e+21`), and the unbounded `int` does not round to a double; neither is
  modelled.
- Property lookup ignores JavaScript's prototype chain: a key such as `constructor`
  is found only if the feed has it.
- `new Date(...)` of a present value, `getTime`, `toISOString` and the clock are
  parameters. Their calendar arithmetic is not modelled. A missing date is modelled:
  `new Date(undefined)` is always invalid, so such an item is dropped.
- RenderSitemap: requires every item to be dated. The template does not check
  this. In the generator it holds by the filter, as `NewsSitemap.FilteredDated` proves.
- `ReadSitemap` reads exactly the layout this generator writes. It is not a
  general XML parser.
- Python's `strptime` also accepts non-ASCII Unicode digits. The model accepts
  ASCII digits only.
- `datetime.now()` is called separately for each date that fails to parse. The
  model uses one clock reading `now` for the whole run.
- BeautifulSoup is not part of this model. That covers fetching the page, finding
  anchors by the `/noticias/` pattern, finding the first heading in an anchor, and
  finding the nearest preceding date element. Its results are given as `Anchor`
  values.
- The `try`/`except` around each anchor only catches exceptions from those library
  calls, so it is not modelled.
- `gerar_rss` and the rest of the scraper script build and write the RSS file with
  the XML library. They are not part of this model.
- The generator does not apply the RFC 4287 rule (section 4.2.7.2) that a link
  without `rel` is an alternate link. The model follows the code, as
  `FeedItems.AtomMissingRelIsNotAlternate` shows.
- The code has no upper bound on the date and removes no duplicates: items dated in
  the future are kept, and repeated items stay repeated. The model follows the code,
  as `RecencyFilter.WindowEdges` and `RecencyFilter.DuplicatesKept` show.

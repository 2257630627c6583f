/** `main` of scripts/generate-news-sitemap.js with its I/O made into parameters:
    the feed URL setting, the HTTP status and the parsed document come in, the
    sitemap text and its URL count come out. */
module NewsSitemap {
  import opened Wrappers
  import opened FeedTree
  import opened FeedItems
  import opened RecencyFilter
  import opened SitemapRender

  /** How a run ends: one of the two errors `main` throws, or the file it writes. */
  datatype Outcome =
    | MissingFeedUrl
    | FetchFailed(status: int)
    | Written(xml: string, count: nat)

  /** The sitemap for a parsed feed document, with `now` the current time in ms. */
  function SitemapOf(data: Node, now: int, dateOf: Node -> Option<int>, iso: int -> string): string
  {
    FilteredDated(FeedCandidates(data), now, dateOf);
    Document(Template, FilterRecent(FeedCandidates(data), now, dateOf), iso)
  }

  /** Every item that survives the filter has a date, so the template can print it. */
  lemma FilteredDated(cs: seq<Candidate>, now: int, dateOf: Node -> Option<int>)
    ensures AllDated(FilterRecent(cs, now, dateOf))
  {
    var r := FilterRecent(cs, now, dateOf);
    forall k | 0 <= k < |r| ensures r[k].date.Some? {
      assert r[k] in r;
    }
  }

  /** The part of `main` after the feed is parsed: collect, filter, render. */
  method BuildSitemap(data: Node, now: int, dateOf: Node -> Option<int>, iso: int -> string)
    returns (xml: string, count: nat)
    ensures xml == SitemapOf(data, now, dateOf, iso)
    ensures count == |FilterRecent(FeedCandidates(data), now, dateOf)| && count <= MaxUrls
    ensures AllDated(FilterRecent(FeedCandidates(data), now, dateOf))
    ensures (forall t :: '<' !in iso(t)) ==>
      ReadSitemap(Template, xml) == Some(Records(Template, FilterRecent(FeedCandidates(data), now, dateOf), iso))
  {
    FilteredDated(FeedCandidates(data), now, dateOf);
    var items := CollectItems(data);
    var filtered := FilterRecent(items, now, dateOf);
    xml := RenderSitemap(filtered, iso);
    count := |filtered|;
  }

  /** One run. `feedUrl` is the environment setting (`None` when unset), `ok` and
      `status` describe the response, `data` is what the XML parser makes of its body. */
  method GenerateSitemap(feedUrl: Option<string>, ok: bool, status: int, data: Node,
                         now: int, dateOf: Node -> Option<int>, iso: int -> string)
    returns (out: Outcome)
    ensures (feedUrl.None? || feedUrl.value == "") <==> out == MissingFeedUrl
    ensures feedUrl.Some? && feedUrl.value != "" && !ok ==> out == FetchFailed(status)
    ensures feedUrl.Some? && feedUrl.value != "" && ok ==>
      out.Written? && out.xml == SitemapOf(data, now, dateOf, iso)
      && out.count == |FilterRecent(FeedCandidates(data), now, dateOf)| && out.count <= MaxUrls
  {
    if feedUrl.None? || feedUrl.value == "" {
      return MissingFeedUrl;
    }
    if !ok {
      return FetchFailed(status);
    }
    var xml, count := BuildSitemap(data, now, dateOf, iso);
    out := Written(xml, count);
  }
}

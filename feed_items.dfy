/** Shape mapping of scripts/generate-news-sitemap.js: RSS 2.0 `rss.channel.item` and
    Atom `feed.entry` become candidate records `{title, url, date}` of raw values. */
module FeedItems {
  import opened Wrappers
  import opened FeedTree

  /** A candidate item before filtering; each field is the raw parsed value. */
  datatype Candidate = Candidate(title: Option<Node>, url: Option<Node>, date: Option<Node>)

  /** One RSS `item`: title, link, and `pubDate || date`. */
  function RssCandidate(i: Node): Candidate {
    Candidate(Get(Some(i), "title"), Get(Some(i), "link"),
              Or(Get(Some(i), "pubDate"), Get(Some(i), "date")))
  }

  predicate IsAlternate(l: Node) {
    Get(Some(l), "@_rel") == Some(Str("alternate"))
  }

  function Href(l: Node): Option<Node> {
    Get(Some(l), "@_href")
  }

  /** Index of the link that `find(l => l["@_rel"] === "alternate")` returns. */
  function FirstAlternate(links: seq<Node>): (r: Option<nat>)
    ensures r.Some? ==> r.value < |links| && IsAlternate(links[r.value])
    ensures r.Some? ==> forall j :: 0 <= j < r.value ==> !IsAlternate(links[j])
    ensures r.None? ==> forall j :: 0 <= j < |links| ==> !IsAlternate(links[j])
    decreases |links|
  {
    if links == [] then None
    else if IsAlternate(links[0]) then Some(0)
    else
      match FirstAlternate(links[1..])
      case None => None
      case Some(k) => Some(k + 1)
  }

  /** The entry's URL: the alternate link's href if truthy, else the first link's href. */
  function AtomUrl(links: seq<Node>): Option<Node> {
    var alt := match FirstAlternate(links)
               case None => None
               case Some(k) => Href(links[k]);
    Or(alt, if links == [] then None else Href(links[0]))
  }

  /** `e.title?.["#text"] ?? e.title`. */
  function AtomTitle(e: Node): Option<Node> {
    var t := Get(Some(e), "title");
    Coalesce(Get(t, "#text"), t)
  }

  /** One Atom `entry`: text of the title, the chosen link, and `published || updated`. */
  function AtomCandidate(e: Node): Candidate {
    Candidate(AtomTitle(e), AtomUrl(ToArray(Get(Some(e), "link"))),
              Or(Get(Some(e), "published"), Get(Some(e), "updated")))
  }

  function RssItems(data: Node): Option<Node> {
    Get(Get(Get(Some(data), "rss"), "channel"), "item")
  }

  function AtomEntries(data: Node): Option<Node> {
    Get(Get(Some(data), "feed"), "entry")
  }

  function MapRss(xs: seq<Node>): (r: seq<Candidate>)
    ensures |r| == |xs| && forall k :: 0 <= k < |xs| ==> r[k] == RssCandidate(xs[k])
  {
    seq(|xs|, k requires 0 <= k < |xs| => RssCandidate(xs[k]))
  }

  function MapAtom(xs: seq<Node>): (r: seq<Candidate>)
    ensures |r| == |xs| && forall k :: 0 <= k < |xs| ==> r[k] == AtomCandidate(xs[k])
  {
    seq(|xs|, k requires 0 <= k < |xs| => AtomCandidate(xs[k]))
  }

  /** The candidate list the generator ends up with: the Atom block runs after the
      RSS block and replaces its result. */
  function FeedCandidates(data: Node): seq<Candidate> {
    if Truthy(AtomEntries(data)) then MapAtom(ToArray(AtomEntries(data)))
    else if Truthy(RssItems(data)) then MapRss(ToArray(RssItems(data)))
    else []
  }

  /** `items` is assigned by the RSS block and then, if the document has Atom
      entries, overwritten by the Atom block. */
  method CollectItems(data: Node) returns (items: seq<Candidate>)
    ensures items == FeedCandidates(data)
    ensures Truthy(AtomEntries(data)) ==>
      (|items| == |ToArray(AtomEntries(data))|
       && forall k :: 0 <= k < |items| ==> items[k] == AtomCandidate(ToArray(AtomEntries(data))[k]))
    ensures !Truthy(AtomEntries(data)) && Truthy(RssItems(data)) ==>
      (|items| == |ToArray(RssItems(data))|
       && forall k :: 0 <= k < |items| ==> items[k] == RssCandidate(ToArray(RssItems(data))[k]))
    ensures !Truthy(AtomEntries(data)) && !Truthy(RssItems(data)) ==> items == []
  {
    items := [];
    var rssItems := RssItems(data);
    if Truthy(rssItems) {
      items := MapRss(ToArray(rssItems));
    }
    var atomEntries := AtomEntries(data);
    if Truthy(atomEntries) {
      items := MapAtom(ToArray(atomEntries));
    }
  }

  /** Link choice, stated without `find`: the first alternate link wins when its href
      is truthy; otherwise (no alternate link, or a falsy href) the first link's href. */
  lemma AtomUrlChoice(links: seq<Node>, k: nat)
    requires k < |links| && IsAlternate(links[k])
    requires forall j :: 0 <= j < k ==> !IsAlternate(links[j])
    ensures Truthy(Href(links[k])) ==> AtomUrl(links) == Href(links[k])
    ensures !Truthy(Href(links[k])) ==> AtomUrl(links) == Href(links[0])
  {
    match FirstAlternate(links)
    case None =>
    case Some(i) => assert !(i < k) && !(k < i);
  }

  lemma AtomUrlNoAlternate(links: seq<Node>)
    requires forall j :: 0 <= j < |links| ==> !IsAlternate(links[j])
    ensures links == [] ==> AtomUrl(links) == None
    ensures links != [] ==> AtomUrl(links) == Href(links[0])
  {
  }

  /** A link without `rel` is not taken for the alternate one (section 4.2.7.2 of
      RFC 4287 says it should be): with a `rel="self"` link first, the self link wins. */
  lemma AtomMissingRelIsNotAlternate()
    ensures AtomUrl([Obj(map["@_rel" := Str("self"), "@_href" := Str("https://x/feed")]),
                     Obj(map["@_href" := Str("https://x/post")])]) == Some(Str("https://x/feed"))
  {
    var links := [Obj(map["@_rel" := Str("self"), "@_href" := Str("https://x/feed")]),
                  Obj(map["@_href" := Str("https://x/post")])];
    assert !IsAlternate(links[0]);
    assert !IsAlternate(links[1]);
    AtomUrlNoAlternate(links);
  }
}

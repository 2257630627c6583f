/** The list logic of `scrape_noticias` in scripts/scrape-framer.py: at most 30
    candidate links, relative links made absolute, and duplicates by link removed
    keeping the first occurrence. */
module Scraper {
  import opened Wrappers
  import opened Text
  import opened ScraperDate

  const FeedLink: string := "https://www.asclub.pt"
  const MaxLinks: nat := 30

  // ---- URL repair ----

  /** The URL the scraper records for an `href`. */
  function FixedUrl(href: string): string {
    if StartsWith(href, "http") then href
    else ReplaceAll(ReplaceAll(FeedLink + href, ".pt./", ".pt/"), "asclub.pt.", "asclub.pt")
  }

  /** The block that rebuilds `url` by successive reassignment. */
  method FixUrl(href: string) returns (url: string)
    ensures url == FixedUrl(href)
    ensures StartsWith(href, "http") ==> url == href
    ensures !StartsWith(href, "http") ==> StartsWith(url, FeedLink)
  {
    url := href;
    if !StartsWith(url, "http") {
      url := FeedLink + url;
      url := ReplaceAll(url, ".pt./", ".pt/");
      url := ReplaceAll(url, "asclub.pt.", "asclub.pt");
      FixedUrlOnSite(href);
    }
  }

  /** A prefix that does not hold the pattern's first character is kept as it is. */
  lemma ReplaceKeepsPrefix(a: string, b: string, pat: string, rep: string)
    requires |pat| > 0 && pat[0] !in a
    ensures ReplaceAll(a + b, pat, rep) == a + ReplaceAll(b, pat, rep)
  {
    forall i | 0 <= i < |a| ensures !StartsWith((a + b)[i..], pat) {
      assert (a + b)[i] == a[i];
      NoMatchAtChar(a + b, i, pat);
    }
    ReplaceSkipsPrefix(a, b, pat, rep);
  }

  /** The site address cut where the two repairs could start matching. */
  lemma FeedLinkParts()
    ensures FeedLink == "https://www" + ".asclub" + ".pt"
    ensures FeedLink == "https://www." + "asclub.pt"
  {
  }

  /** The first pass turns `.pt` followed by `href` into `.pt` followed by something. */
  lemma FirstPassKeepsPt(href: string) returns (x: string)
    ensures ReplaceAll(".pt" + href, ".pt./", ".pt/") == ".pt" + x
  {
    var s := ".pt" + href;
    if StartsWith(s, ".pt./") {
      assert s[5..] == href[2..];
      x := "/" + ReplaceAll(href[2..], ".pt./", ".pt/");
    } else {
      assert s == "." + ("pt" + href);
      assert s[1..] == "pt" + href;
      ReplaceKeepsPrefix("pt", href, ".pt./", ".pt/");
      x := ReplaceAll(href, ".pt./", ".pt/");
    }
  }

  /** `.asclub` holds no match of `.pt./`. */
  lemma FirstPassKeepsAsclub(t: string)
    ensures ReplaceAll(".asclub" + t, ".pt./", ".pt/") == ".asclub" + ReplaceAll(t, ".pt./", ".pt/")
  {
    var s := ".asclub" + t;
    assert s[..5][1] == 'a';
    assert s[1..] == "asclub" + t;
    ReplaceKeepsPrefix("asclub", t, ".pt./", ".pt/");
  }

  /** The first pass keeps the site prefix. */
  lemma FirstPassKeepsSite(href: string) returns (x: string)
    ensures ReplaceAll(FeedLink + href, ".pt./", ".pt/") == FeedLink + x
  {
    FeedLinkParts();
    var a, b, c := "https://www", ".asclub", ".pt";
    assert FeedLink + href == a + (b + (c + href));
    ReplaceKeepsPrefix(a, b + (c + href), ".pt./", ".pt/");
    FirstPassKeepsAsclub(c + href);
    x := FirstPassKeepsPt(href);
    assert a + (b + (c + x)) == FeedLink + x;
  }

  /** The second pass turns `asclub.pt` followed by `x` into `asclub.pt` followed by something. */
  lemma SecondPassKeepsDomain(x: string) returns (y: string)
    ensures ReplaceAll("asclub.pt" + x, "asclub.pt.", "asclub.pt") == "asclub.pt" + y
  {
    var s := "asclub.pt" + x;
    if StartsWith(s, "asclub.pt.") {
      y := SecondPassAtDot(x);
    } else {
      y := SecondPassNoDot(x);
    }
  }

  /** `asclub.pt.` at the start is replaced, leaving `asclub.pt`. */
  lemma SecondPassAtDot(x: string) returns (y: string)
    requires StartsWith("asclub.pt" + x, "asclub.pt.")
    ensures ReplaceAll("asclub.pt" + x, "asclub.pt.", "asclub.pt") == "asclub.pt" + y
  {
    var s := "asclub.pt" + x;
    assert s[10..] == x[1..];
    y := ReplaceAll(x[1..], "asclub.pt.", "asclub.pt");
  }

  /** Without the dot nothing matches at the start, and `sclub.pt` holds no `a`. */
  lemma SecondPassNoDot(x: string) returns (y: string)
    requires !StartsWith("asclub.pt" + x, "asclub.pt.")
    ensures ReplaceAll("asclub.pt" + x, "asclub.pt.", "asclub.pt") == "asclub.pt" + y
  {
    var s := "asclub.pt" + x;
    assert s[1..] == "sclub.pt" + x;
    ReplaceKeepsPrefix("sclub.pt", x, "asclub.pt.", "asclub.pt");
    y := ReplaceAll(x, "asclub.pt.", "asclub.pt");
    assert s[..1] + ("sclub.pt" + y) == "asclub.pt" + y;
  }

  /** The second pass keeps the site prefix. */
  lemma SecondPassKeepsSite(x: string) returns (y: string)
    ensures ReplaceAll(FeedLink + x, "asclub.pt.", "asclub.pt") == FeedLink + y
  {
    FeedLinkParts();
    var a, b := "https://www.", "asclub.pt";
    assert FeedLink + x == a + (b + x);
    ReplaceKeepsPrefix(a, b + x, "asclub.pt.", "asclub.pt");
    y := SecondPassKeepsDomain(x);
    assert a + (b + y) == FeedLink + y;
  }

  /** A relative `href` becomes a URL on the site: neither replacement can touch
      the `https://www.asclub.pt` prefix. */
  lemma FixedUrlOnSite(href: string)
    requires !StartsWith(href, "http")
    ensures StartsWith(FixedUrl(href), FeedLink)
  {
    var x := FirstPassKeepsSite(href);
    var y := SecondPassKeepsSite(x);
    assert FixedUrl(href) == FeedLink + y;
    assert (FeedLink + y)[..|FeedLink|] == FeedLink;
  }

  /** The URL is left alone exactly when the `href` starts with `http`. */
  lemma FixedUrlUnchangedIff(href: string)
    ensures FixedUrl(href) == href <==> StartsWith(href, "http")
  {
    if !StartsWith(href, "http") {
      FixedUrlOnSite(href);
    }
  }

  // ---- the main loop ----

  /** What the scraper reads off one matching `<a>`: its `href`, the text of the
      first heading inside it, and the text of the nearest preceding date element. */
  datatype Anchor = Anchor(href: string, heading: Option<string>, dateText: Option<string>)

  /** One news record: title, link, description (the title again) and date. */
  datatype Noticia = Noticia(titulo: string, link: string, descricao: string, data: DateTime)

  /** The record built from one anchor; an anchor without a heading is skipped. */
  function NoticiaOf(a: Anchor, now: DateTime): Option<Noticia> {
    match a.heading
    case None => None
    case Some(titulo) =>
      var data := match a.dateText
                  case Some(t) => ParseDate(t, now)
                  case None => now;
      Some(Noticia(titulo, FixedUrl(a.href), titulo, data))
  }

  /** The records the loop appends for `links`, in order. */
  function Collected(links: seq<Anchor>, now: DateTime): (r: seq<Noticia>)
    ensures |r| <= |links|
    decreases |links|
  {
    if links == [] then []
    else
      var prev := Collected(links[..|links| - 1], now);
      match NoticiaOf(links[|links| - 1], now)
      case None => prev
      case Some(n) => prev + [n]
  }

  /** Every collected record comes from an anchor of the list, and every anchor with
      a heading contributes its record. */
  lemma {:induction false} CollectedFromAnchors(links: seq<Anchor>, now: DateTime)
    ensures forall n :: n in Collected(links, now) ==>
              exists k :: 0 <= k < |links| && NoticiaOf(links[k], now) == Some(n)
    ensures forall k :: 0 <= k < |links| && NoticiaOf(links[k], now).Some? ==>
              NoticiaOf(links[k], now).value in Collected(links, now)
    decreases |links|
  {
    if links != [] {
      var init := links[..|links| - 1];
      CollectedFromAnchors(init, now);
      assert forall k :: 0 <= k < |init| ==> init[k] == links[k];
    }
  }

  /** One more anchor adds its record, if it has one, at the end. */
  lemma CollectedSnoc(links: seq<Anchor>, a: Anchor, now: DateTime)
    ensures Collected(links + [a], now)
            == Collected(links, now) + (match NoticiaOf(a, now) case None => [] case Some(n) => [n])
  {
    var l := links + [a];
    assert l[..|l| - 1] == links;
    assert l[|l| - 1] == a;
  }

  function Take(links: seq<Anchor>, n: nat): (r: seq<Anchor>)
    ensures |r| <= n && |r| <= |links| && r == links[..|r|]
    ensures |links| <= n ==> r == links
    ensures |links| > n ==> |r| == n
  {
    if |links| <= n then links else links[..n]
  }

  /** The loop over `links[:30]`. */
  method CollectNoticias(links: seq<Anchor>, now: DateTime) returns (noticias: seq<Noticia>)
    ensures noticias == Collected(Take(links, MaxLinks), now)
    ensures |noticias| <= MaxLinks
  {
    var candidates := Take(links, MaxLinks);
    noticias := [];
    for i := 0 to |candidates|
      invariant noticias == Collected(candidates[..i], now)
    {
      var link := candidates[i];
      assert candidates[..i + 1] == candidates[..i] + [link];
      CollectedSnoc(candidates[..i], link, now);
      var url := FixUrl(link.href);
      if link.heading.None? {
        continue;
      }
      var titulo := link.heading.value;
      var data := now;
      if link.dateText.Some? {
        data := ParseDate(link.dateText.value, now);
      }
      noticias := noticias + [Noticia(titulo, url, titulo, data)];
    }
    assert candidates[..|candidates|] == candidates;
  }

  // ---- de-duplication by link ----

  /** The records kept by the loop over `ns` when the links in `seen` were met before. */
  function UniqueFrom(ns: seq<Noticia>, seen: set<string>): (r: seq<Noticia>)
    ensures |r| <= |ns|
    decreases |ns|
  {
    if ns == [] then []
    else if ns[0].link in seen then UniqueFrom(ns[1..], seen)
    else [ns[0]] + UniqueFrom(ns[1..], seen + {ns[0].link})
  }

  function Unique(ns: seq<Noticia>): seq<Noticia> {
    UniqueFrom(ns, {})
  }

  /** The `seen`/`noticias_unicas` loop. */
  method Dedup(ns: seq<Noticia>) returns (unicas: seq<Noticia>)
    ensures unicas == Unique(ns)
    ensures NoDuplicateLinks(unicas)
    ensures Links(unicas) == Links(ns)
  {
    var seen: set<string> := {};
    unicas := [];
    for i := 0 to |ns|
      invariant unicas + UniqueFrom(ns[i..], seen) == Unique(ns)
    {
      var n := ns[i];
      assert ns[i..][1..] == ns[i + 1..];
      if n.link !in seen {
        seen := seen + {n.link};
        unicas := unicas + [n];
      }
    }
    assert ns[|ns|..] == [];
    UniqueFresh(ns, {});
    UniqueLinks(ns, {});
  }

  predicate NoDuplicateLinks(ns: seq<Noticia>) {
    forall i, j :: 0 <= i < j < |ns| ==> ns[i].link != ns[j].link
  }

  function Links(ns: seq<Noticia>): set<string> {
    set k | 0 <= k < |ns| :: ns[k].link
  }

  /** Position of the first record with `link`, or `|ns|` if there is none. */
  function FirstIndex(ns: seq<Noticia>, link: string): (r: nat)
    ensures r <= |ns|
    ensures r < |ns| ==> ns[r].link == link
    ensures forall j :: 0 <= j < r ==> ns[j].link != link
    decreases |ns|
  {
    if ns == [] then 0 else if ns[0].link == link then 0 else 1 + FirstIndex(ns[1..], link)
  }

  lemma LinksCons(ns: seq<Noticia>)
    requires ns != []
    ensures Links(ns) == {ns[0].link} + Links(ns[1..])
  {
    forall l | l in Links(ns) ensures l in {ns[0].link} + Links(ns[1..]) {
      var k :| 0 <= k < |ns| && ns[k].link == l;
      if k > 0 { assert ns[1..][k - 1].link == l; }
    }
    forall l | l in Links(ns[1..]) ensures l in Links(ns) {
      var k :| 0 <= k < |ns[1..]| && ns[1..][k].link == l;
      assert ns[k + 1].link == l;
    }
  }

  lemma FirstIndexTail(ns: seq<Noticia>, link: string)
    requires ns != [] && ns[0].link != link
    ensures FirstIndex(ns, link) == 1 + FirstIndex(ns[1..], link)
  {
  }

  /** What the loop keeps, started with `seen` already met, has no link twice and
      no link from `seen`. */
  lemma {:induction false} UniqueFresh(ns: seq<Noticia>, seen: set<string>)
    ensures var r := UniqueFrom(ns, seen);
            NoDuplicateLinks(r) && forall i :: 0 <= i < |r| ==> r[i].link !in seen
    decreases |ns|
  {
    if ns != [] {
      var n, tail := ns[0], ns[1..];
      UniqueFresh(tail, seen + {n.link});
      UniqueFresh(tail, seen);
      if n.link !in seen {
        var r, rt := UniqueFrom(ns, seen), UniqueFrom(tail, seen + {n.link});
        assert r == [n] + rt;
        forall i, j | 0 <= i < j < |r| ensures r[i].link != r[j].link {
          assert r[j] == rt[j - 1];
          if i > 0 { assert r[i] == rt[i - 1]; }
        }
      }
    }
  }

  /** It holds exactly the links of `ns` that are not in `seen`. */
  lemma {:induction false} UniqueLinks(ns: seq<Noticia>, seen: set<string>)
    ensures Links(UniqueFrom(ns, seen)) == Links(ns) - seen
    decreases |ns|
  {
    if ns != [] {
      var n, tail := ns[0], ns[1..];
      LinksCons(ns);
      if n.link in seen {
        UniqueLinks(tail, seen);
      } else {
        UniqueLinks(tail, seen + {n.link});
        var r := UniqueFrom(ns, seen);
        assert r == [n] + UniqueFrom(tail, seen + {n.link});
        assert r[1..] == UniqueFrom(tail, seen + {n.link});
        LinksCons(r);
      }
    }
  }

  /** Each record it keeps is the first one in `ns` with its link. */
  lemma {:induction false} UniqueFirst(ns: seq<Noticia>, seen: set<string>)
    ensures var r := UniqueFrom(ns, seen);
            forall i :: 0 <= i < |r| ==> FirstIndex(ns, r[i].link) < |ns| && r[i] == ns[FirstIndex(ns, r[i].link)]
    decreases |ns|
  {
    if ns != [] {
      var n, tail := ns[0], ns[1..];
      var seen' := seen + {n.link};
      var rt := if n.link in seen then UniqueFrom(tail, seen) else UniqueFrom(tail, seen');
      if n.link in seen {
        UniqueFirst(tail, seen);
        UniqueFresh(tail, seen);
      } else {
        UniqueFirst(tail, seen');
        UniqueFresh(tail, seen');
      }
      forall i | 0 <= i < |rt|
        ensures FirstIndex(ns, rt[i].link) < |ns| && rt[i] == ns[FirstIndex(ns, rt[i].link)]
      {
        FirstIndexTail(ns, rt[i].link);
      }
      var r := UniqueFrom(ns, seen);
      if n.link !in seen {
        assert r == [n] + rt;
        forall i | 0 <= i < |r|
          ensures FirstIndex(ns, r[i].link) < |ns| && r[i] == ns[FirstIndex(ns, r[i].link)]
        {
          if i > 0 { assert r[i] == rt[i - 1]; }
        }
      }
    }
  }

  /** The records it keeps appear in the order of their first occurrences. */
  lemma {:induction false} UniqueOrder(ns: seq<Noticia>, seen: set<string>)
    ensures var r := UniqueFrom(ns, seen);
            forall i, j :: 0 <= i < j < |r| ==> FirstIndex(ns, r[i].link) < FirstIndex(ns, r[j].link)
    decreases |ns|
  {
    if ns != [] {
      var n, tail := ns[0], ns[1..];
      var seen' := seen + {n.link};
      var rt := if n.link in seen then UniqueFrom(tail, seen) else UniqueFrom(tail, seen');
      if n.link in seen {
        UniqueOrder(tail, seen);
        UniqueFresh(tail, seen);
      } else {
        UniqueOrder(tail, seen');
        UniqueFresh(tail, seen');
      }
      forall i | 0 <= i < |rt| ensures FirstIndex(ns, rt[i].link) == 1 + FirstIndex(tail, rt[i].link) {
        FirstIndexTail(ns, rt[i].link);
      }
      var r := UniqueFrom(ns, seen);
      if n.link !in seen {
        assert r == [n] + rt;
        forall i, j | 0 <= i < j < |r| ensures FirstIndex(ns, r[i].link) < FirstIndex(ns, r[j].link) {
          assert r[j] == rt[j - 1];
          if i > 0 { assert r[i] == rt[i - 1]; }
        }
      }
    }
  }

  /** After the de-duplication no two records share a link. */
  lemma UniqueHasNoDuplicates(ns: seq<Noticia>)
    ensures NoDuplicateLinks(Unique(ns))
  {
    UniqueFresh(ns, {});
  }

  /** Every link of the input survives, and no other link appears. */
  lemma UniqueKeepsEveryLink(ns: seq<Noticia>)
    ensures Links(Unique(ns)) == Links(ns)
  {
    UniqueLinks(ns, {});
  }

  /** Each kept record is the first one with its link, and the kept records are in
      the order of their first occurrences: the output is the subsequence of first
      occurrences. */
  lemma UniqueKeepsFirstInOrder(ns: seq<Noticia>)
    ensures var r := Unique(ns);
            (forall i :: 0 <= i < |r| ==> FirstIndex(ns, r[i].link) < |ns| && r[i] == ns[FirstIndex(ns, r[i].link)])
            && (forall i, j :: 0 <= i < j < |r| ==> FirstIndex(ns, r[i].link) < FirstIndex(ns, r[j].link))
  {
    assert Unique(ns) == UniqueFrom(ns, {});
    UniqueFirst(ns, {});
    UniqueOrder(ns, {});
  }

  /** A list without repeated links, none of them in `seen`, passes through unchanged. */
  lemma {:induction false} UniqueOfDistinct(ns: seq<Noticia>, seen: set<string>)
    requires NoDuplicateLinks(ns)
    requires forall i :: 0 <= i < |ns| ==> ns[i].link !in seen
    ensures UniqueFrom(ns, seen) == ns
    decreases |ns|
  {
    if ns != [] {
      var tail := ns[1..];
      assert forall i :: 0 <= i < |tail| ==> tail[i] == ns[i + 1];
      UniqueOfDistinct(tail, seen + {ns[0].link});
    }
  }

  /** De-duplicating twice is de-duplicating once. */
  lemma UniqueIdempotent(ns: seq<Noticia>)
    ensures Unique(Unique(ns)) == Unique(ns)
  {
    UniqueFresh(ns, {});
    UniqueOfDistinct(Unique(ns), {});
  }

  /** `scrape_noticias` after the page is fetched and parsed: the loop over at most 30
      links, then the de-duplication. */
  method ScrapeNoticias(links: seq<Anchor>, now: DateTime) returns (unicas: seq<Noticia>)
    ensures unicas == Unique(Collected(Take(links, MaxLinks), now))
    ensures |unicas| <= MaxLinks
    ensures NoDuplicateLinks(unicas)
  {
    var noticias := CollectNoticias(links, now);
    unicas := Dedup(noticias);
  }
}

/** The `map` -> `filter` -> `slice` chain of scripts/generate-news-sitemap.js: fields
    are coerced to trimmed strings, items without a title, a URL or a valid date, or
    older than 48 hours, are dropped, and the first 1000 survivors are kept. */
module RecencyFilter {
  import opened Wrappers
  import opened Text
  import opened FeedTree
  import opened FeedItems

  /** 48 hours in milliseconds. */
  const RecencyWindowMs: int := 48 * 60 * 60 * 1000
  const MaxUrls: nat := 1000

  /** A coerced candidate; `date` is `getTime()` of `new Date(raw)`, `None` for NaN. */
  datatype Entry = Entry(title: string, url: string, date: Option<int>)

  /** `(x || "").toString().trim()`. */
  function FieldText(x: Option<Node>): (r: string)
    ensures r == [] || (!IsJsWhitespace(r[0]) && !IsJsWhitespace(r[|r| - 1]))
  {
    if Truthy(x) then Trim(ToString(x.value), IsJsWhitespace) else ""
  }

  /** `new Date(raw).getTime()`, `None` for NaN. `new Date(undefined)` is NaN by the
      language's own rules, so a missing date is never valid; a present value goes to
      `dateOf`, which stands for JavaScript's date parser. */
  function DateValue(raw: Option<Node>, dateOf: Node -> Option<int>): (r: Option<int>)
    ensures raw.None? ==> r.None?
    ensures raw.Some? ==> r == dateOf(raw.value)
  {
    match raw
    case None => None
    case Some(n) => dateOf(n)
  }

  /** The first `map`. */
  function Normalize(c: Candidate, dateOf: Node -> Option<int>): Entry {
    Entry(FieldText(c.title), FieldText(c.url), DateValue(c.date, dateOf))
  }

  function NormalizeAll(cs: seq<Candidate>, dateOf: Node -> Option<int>): (r: seq<Entry>)
    ensures |r| == |cs| && forall k :: 0 <= k < |cs| ==> r[k] == Normalize(cs[k], dateOf)
  {
    seq(|cs|, k requires 0 <= k < |cs| => Normalize(cs[k], dateOf))
  }

  /** The `filter` predicate. There is no upper bound: future dates pass. */
  predicate Kept(e: Entry, cutoff: int) {
    e.title != "" && e.url != "" && e.date.Some? && e.date.value >= cutoff
  }

  /** `Array.prototype.filter` with `Kept`. */
  function KeepRecent(es: seq<Entry>, cutoff: int): (r: seq<Entry>)
    ensures |r| <= |es|
    ensures forall e :: e in r <==> e in es && Kept(e, cutoff)
    decreases |es|
  {
    if es == [] then []
    else if Kept(es[0], cutoff) then [es[0]] + KeepRecent(es[1..], cutoff)
    else KeepRecent(es[1..], cutoff)
  }

  /** The filter keeps relative order: it works segment by segment. */
  lemma {:induction false} KeepRecentConcat(a: seq<Entry>, b: seq<Entry>, cutoff: int)
    ensures KeepRecent(a + b, cutoff) == KeepRecent(a, cutoff) + KeepRecent(b, cutoff)
    decreases |a|
  {
    if a == [] {
      assert a + b == b;
    } else {
      assert (a + b)[0] == a[0];
      assert (a + b)[1..] == a[1..] + b;
      KeepRecentConcat(a[1..], b, cutoff);
    }
  }

  /** `.slice(0, n)`. */
  function Cap(es: seq<Entry>, n: nat): (r: seq<Entry>)
    ensures |r| <= n && |r| <= |es|
    ensures r == es[..|r|]
    ensures |es| <= n ==> r == es
    ensures |es| > n ==> |r| == n
  {
    if |es| <= n then es else es[..n]
  }

  /** The whole chain, with the cutoff `now - 48h` computed once. */
  function FilterRecent(cs: seq<Candidate>, now: int, dateOf: Node -> Option<int>): (r: seq<Entry>)
    ensures |r| <= MaxUrls
    ensures forall e :: e in r ==> Kept(e, now - RecencyWindowMs)
    ensures forall e :: e in r ==> e in NormalizeAll(cs, dateOf)
    ensures |r| <= |KeepRecent(NormalizeAll(cs, dateOf), now - RecencyWindowMs)|
    ensures r == KeepRecent(NormalizeAll(cs, dateOf), now - RecencyWindowMs)[..|r|]
    ensures |KeepRecent(NormalizeAll(cs, dateOf), now - RecencyWindowMs)| <= MaxUrls ==>
      r == KeepRecent(NormalizeAll(cs, dateOf), now - RecencyWindowMs)
    ensures |KeepRecent(NormalizeAll(cs, dateOf), now - RecencyWindowMs)| > MaxUrls ==> |r| == MaxUrls
  {
    var es := NormalizeAll(cs, dateOf);
    CapKeepRecent(es, now - RecencyWindowMs);
    Cap(KeepRecent(es, now - RecencyWindowMs), MaxUrls)
  }

  lemma CapKeepRecent(es: seq<Entry>, cutoff: int)
    ensures var r := Cap(KeepRecent(es, cutoff), MaxUrls);
            forall e :: e in r ==> e in es && Kept(e, cutoff)
  {
    var kept := KeepRecent(es, cutoff);
    var r := Cap(kept, MaxUrls);
    forall e | e in r ensures e in kept {
      var k :| 0 <= k < |r| && r[k] == e;
      assert kept[k] == e;
    }
  }

  /** Titles and URLs that survive are non-empty and carry no surrounding whitespace. */
  lemma FilteredFieldsTrimmed(cs: seq<Candidate>, now: int, dateOf: Node -> Option<int>, e: Entry)
    requires e in FilterRecent(cs, now, dateOf)
    ensures e.title != [] && !IsJsWhitespace(e.title[0]) && !IsJsWhitespace(e.title[|e.title| - 1])
    ensures e.url != [] && !IsJsWhitespace(e.url[0]) && !IsJsWhitespace(e.url[|e.url| - 1])
  {
    var k :| 0 <= k < |cs| && NormalizeAll(cs, dateOf)[k] == e;
    assert e == Normalize(cs[k], dateOf);
  }

  /** A candidate without a date, such as an RSS item with neither `pubDate` nor `date`,
      never reaches the sitemap, whatever the date parser does. */
  lemma UndatedDropped(cs: seq<Candidate>, now: int, dateOf: Node -> Option<int>, c: Candidate)
    requires c.date.None?
    ensures Normalize(c, dateOf) !in FilterRecent(cs, now, dateOf)
    ensures forall e :: e in FilterRecent(cs, now, dateOf) ==>
              exists k :: 0 <= k < |cs| && cs[k].date.Some? && Normalize(cs[k], dateOf) == e
  {
    forall e | e in FilterRecent(cs, now, dateOf)
      ensures exists k :: 0 <= k < |cs| && cs[k].date.Some? && Normalize(cs[k], dateOf) == e
    {
      var k :| 0 <= k < |cs| && NormalizeAll(cs, dateOf)[k] == e;
      assert Normalize(cs[k], dateOf) == e;
    }
  }

  /** The window is closed at the cutoff and open towards the future. */
  lemma WindowEdges(title: string, url: string, now: int)
    requires title != "" && url != ""
    ensures Kept(Entry(title, url, Some(now - 172800000)), now - RecencyWindowMs)
    ensures !Kept(Entry(title, url, Some(now - 172800001)), now - RecencyWindowMs)
    ensures forall d :: d >= now ==> Kept(Entry(title, url, Some(d)), now - RecencyWindowMs)
  {
  }

  /** In the RSS branch an element with attributes (`<title type="html">`) is an
      object, and `toString` turns it into the literal title "[object Object]". */
  lemma RssTitleWithAttributes(item: map<string, Node>, title: map<string, Node>,
                               dateOf: Node -> Option<int>)
    requires "title" in item && item["title"] == Obj(title)
    ensures Normalize(RssCandidate(Obj(item)), dateOf).title == "[object Object]"
  {
    ObjectTextTrimmed();
    assert Get(Some(Obj(item)), "title") == Some(Obj(title));
  }

  lemma ObjectTextTrimmed()
    ensures Trim("[object Object]", IsJsWhitespace) == "[object Object]"
  {
    var s := "[object Object]";
    assert s[0] == '[' && s[|s| - 1] == ']';
    TrimUntouched(s, IsJsWhitespace);
  }

  /** A candidate whose title and URL are plain non-blank strings keeps them as they are. */
  lemma NormalizePlain(title: string, url: string, d: Option<Node>, dateOf: Node -> Option<int>)
    requires title != [] && !IsJsWhitespace(title[0]) && !IsJsWhitespace(title[|title| - 1])
    requires url != [] && !IsJsWhitespace(url[0]) && !IsJsWhitespace(url[|url| - 1])
    ensures Normalize(Candidate(Some(Str(title)), Some(Str(url)), d), dateOf) == Entry(title, url, DateValue(d, dateOf))
  {
    TrimUntouched(title, IsJsWhitespace);
    TrimUntouched(url, IsJsWhitespace);
  }

  /** Of two items two and 72 hours old, only the first is kept. */
  lemma TwoItemScenario(title: string, url: string, now: int, dateOf: Node -> Option<int>,
                        recent: Node, stale: Node)
    requires title != [] && !IsJsWhitespace(title[0]) && !IsJsWhitespace(title[|title| - 1])
    requires url != [] && !IsJsWhitespace(url[0]) && !IsJsWhitespace(url[|url| - 1])
    requires dateOf(recent) == Some(now - 2 * 60 * 60 * 1000)
    requires dateOf(stale) == Some(now - 72 * 60 * 60 * 1000)
    ensures FilterRecent([Candidate(Some(Str(title)), Some(Str(url)), Some(recent)),
                          Candidate(Some(Str(title)), Some(Str(url)), Some(stale))], now, dateOf)
            == [Entry(title, url, Some(now - 2 * 60 * 60 * 1000))]
  {
    var c1 := Candidate(Some(Str(title)), Some(Str(url)), Some(recent));
    var c2 := Candidate(Some(Str(title)), Some(Str(url)), Some(stale));
    var e1 := Entry(title, url, Some(now - 2 * 60 * 60 * 1000));
    var e2 := Entry(title, url, Some(now - 72 * 60 * 60 * 1000));
    var cutoff := now - RecencyWindowMs;
    NormalizePlain(title, url, Some(recent), dateOf);
    NormalizePlain(title, url, Some(stale), dateOf);
    var es := NormalizeAll([c1, c2], dateOf);
    assert es == [e1] + [e2];
    assert [e1][1..] == [] && [e2][1..] == [];
    assert KeepRecent([e1], cutoff) == [e1];
    assert KeepRecent([e2], cutoff) == [];
    KeepRecentConcat([e1], [e2], cutoff);
  }

  /** An item that occurs twice in the feed occurs twice in the result: the generator
      does not remove duplicates. */
  lemma DuplicatesKept(c: Candidate, now: int, dateOf: Node -> Option<int>)
    requires Kept(Normalize(c, dateOf), now - RecencyWindowMs)
    ensures FilterRecent([c, c], now, dateOf) == [Normalize(c, dateOf), Normalize(c, dateOf)]
  {
    var e := Normalize(c, dateOf);
    assert NormalizeAll([c, c], dateOf) == [e, e];
    KeepTwice(e, now - RecencyWindowMs);
  }

  lemma KeepTwice(e: Entry, cutoff: int)
    requires Kept(e, cutoff)
    ensures KeepRecent([e, e], cutoff) == [e, e]
  {
    assert [e, e] == [e] + [e];
    assert [e][1..] == [];
    assert KeepRecent([e], cutoff) == [e];
    KeepRecentConcat([e], [e], cutoff);
  }
}

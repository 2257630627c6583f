/** The `urlset` document that scripts/generate-news-sitemap.js writes (Sitemap 0.9
    with the Google News extension), and a reader for exactly that layout, used to
    state that the document lists the items back, in order and unescaped. */
module SitemapRender {
  import opened Wrappers
  import opened Text
  import opened XmlEscape
  import opened RecencyFilter

  const PublicationName: string := "AS CLUB"
  const Language: string := "pt"

  /** The fixed parts of the document: the publication name and language that every
      `<url>` block repeats, and the markup before the first `<url>`, around each of
      the five text fields of a block, and after the last block. */
  datatype Markup = Markup(name: string, language: string,
                           header: string, urlOpen: string, afterLoc: string, afterName: string,
                           afterLanguage: string, afterDate: string, urlClose: string, footer: string)

  /** The template literals of the generator. */
  const Template: Markup := Markup(
    PublicationName, Language,
    "<?xml version=\"1.0\" encoding=\"UTF-8\"?>\n"
      + "<urlset xmlns=\"http://www.sitemaps.org/schemas/sitemap/0.9\"\n"
      + "        xmlns:news=\"http://www.google.com/schemas/sitemap-news/0.9\">\n",
    "\n  <url>\n    <loc>",
    "</loc>\n" + "    <news:news>\n" + "      <news:publication>\n" + "        <news:name>",
    "</news:name>\n        <news:language>",
    "</news:language>\n" + "      </news:publication>\n" + "      <news:publication_date>",
    "</news:publication_date>\n      <news:title>",
    "</news:title>\n    </news:news>\n  </url>",
    "\n</urlset>")

  /** Markup that a reader can split on: every closing piece starts a tag, and a
      block is never mistaken for the footer. */
  predicate Readable(m: Markup) {
    |m.urlOpen| > 0
    && m.afterLoc != [] && m.afterLoc[0] == '<'
    && m.afterName != [] && m.afterName[0] == '<'
    && m.afterLanguage != [] && m.afterLanguage[0] == '<'
    && m.afterDate != [] && m.afterDate[0] == '<'
    && m.urlClose != [] && m.urlClose[0] == '<'
  }

  lemma TemplateReadable()
    ensures Readable(Template)
  {
    var m := Template;
    assert m.afterLoc[0] == '<';
    assert m.afterName[0] == '<';
    assert m.afterLanguage[0] == '<';
    assert m.afterDate[0] == '<';
    assert m.urlClose[0] == '<';
  }

  predicate AllDated(items: seq<Entry>) {
    forall k :: 0 <= k < |items| ==> items[k].date.Some?
  }

  /** A `<url>` block around five already rendered text fields. */
  function Frame(m: Markup, loc: string, name: string, language: string, date: string, title: string): string {
    m.urlOpen + (loc + (m.afterLoc + (name + (m.afterName + (language + (m.afterLanguage
    + (date + (m.afterDate + (title + m.urlClose)))))))))
  }

  /** One `<url>` block; `iso` stands for `Date.prototype.toISOString`. */
  function Block(m: Markup, e: Entry, iso: int -> string): string
    requires e.date.Some?
  {
    Frame(m, EscapeXml(e.url), EscapeXml(m.name), EscapeXml(m.language), iso(e.date.value), EscapeXml(e.title))
  }

  function Blocks(m: Markup, items: seq<Entry>, iso: int -> string): string
    requires AllDated(items)
    decreases |items|
  {
    if items == [] then "" else Block(m, items[0], iso) + Blocks(m, items[1..], iso)
  }

  lemma BlocksOne(m: Markup, e: Entry, iso: int -> string)
    requires e.date.Some?
    ensures AllDated([e])
    ensures Blocks(m, [e], iso) == Block(m, e, iso)
  {
    assert [e][1..] == [];
  }

  lemma {:induction false} BlocksSnoc(m: Markup, items: seq<Entry>, e: Entry, iso: int -> string)
    requires AllDated(items) && e.date.Some?
    ensures AllDated(items + [e])
    ensures Blocks(m, items + [e], iso) == Blocks(m, items, iso) + Block(m, e, iso)
    decreases |items|
  {
    if items == [] {
      assert items + [e] == [e];
      BlocksOne(m, e, iso);
    } else {
      var rest := items[1..];
      var longer := items + [e];
      assert longer[0] == items[0];
      assert longer[1..] == rest + [e];
      BlocksSnoc(m, rest, e, iso);
      var head, last := Block(m, items[0], iso), Block(m, e, iso);
      assert AllDated(longer) by {
        forall k | 0 <= k < |longer| ensures longer[k].date.Some? {
          if k < |items| { assert longer[k] == items[k]; }
        }
      }
      calc {
        Blocks(m, longer, iso);
        head + Blocks(m, rest + [e], iso);
        head + (Blocks(m, rest, iso) + last);
        (head + Blocks(m, rest, iso)) + last;
        Blocks(m, items, iso) + last;
      }
    }
  }

  /** The whole document for `items`. */
  function Document(m: Markup, items: seq<Entry>, iso: int -> string): string
    requires AllDated(items)
  {
    m.header + (Blocks(m, items, iso) + m.footer)
  }

  /** The template loop: the header, then `xml += block` once per item, then the footer. */
  method RenderSitemap(items: seq<Entry>, iso: int -> string) returns (xml: string)
    requires AllDated(items)
    ensures xml == Document(Template, items, iso)
    ensures (forall t :: '<' !in iso(t)) ==> ReadSitemap(Template, xml) == Some(Records(Template, items, iso))
  {
    xml := RenderWith(Template, items, iso);
    if forall t :: '<' !in iso(t) {
      TemplateReadable();
      ReadBackSitemap(Template, items, iso);
    }
  }

  method RenderWith(m: Markup, items: seq<Entry>, iso: int -> string) returns (xml: string)
    requires AllDated(items)
    ensures xml == Document(m, items, iso)
  {
    xml := m.header;
    for k := 0 to |items|
      invariant AllDated(items[..k])
      invariant xml == m.header + Blocks(m, items[..k], iso)
    {
      var block := Block(m, items[k], iso);
      BlocksSnoc(m, items[..k], items[k], iso);
      assert items[..k + 1] == items[..k] + [items[k]];
      ConcatAssoc(m.header, Blocks(m, items[..k], iso), block);
      xml := xml + block;
    }
    assert items[..|items|] == items;
    ConcatAssoc(m.header, Blocks(m, items, iso), m.footer);
    xml := xml + m.footer;
  }

  // ---- reading the document back ----

  /** What one `<url>` block says: its five text fields, entities decoded. */
  datatype UrlRecord = UrlRecord(loc: string, name: string, language: string,
                                 publicationDate: string, title: string)

  /** The records a sitemap of `items` should list, in order. */
  function Records(m: Markup, items: seq<Entry>, iso: int -> string): (r: seq<UrlRecord>)
    requires AllDated(items)
    ensures |r| == |items|
  {
    seq(|items|, k requires 0 <= k < |items| =>
      UrlRecord(items[k].url, m.name, m.language, iso(items[k].date.value), items[k].title))
  }

  /** The rest of `s` after the literal `lit`, if `s` begins with it. */
  function Expect(lit: string, s: string): (r: Option<string>)
    ensures r.Some? ==> |r.value| == |s| - |lit|
  {
    if StartsWith(s, lit) then Some(s[|lit|..]) else None
  }

  /** Character data up to the next `<`, and what follows it. */
  function ReadText(s: string): (string, string) {
    match IndexOf(s, '<')
    case None => (s, "")
    case Some(i) => (s[..i], s[i..])
  }

  /** A literal followed by character data. */
  function ReadField(lit: string, s: string): (r: Option<(string, string)>)
    ensures r.Some? ==> |r.value.1| <= |s| - |lit|
  {
    match Expect(lit, s)
    case None => None
    case Some(rest) => Some(ReadText(rest))
  }

  function ReadBlock(m: Markup, s: string): (r: Option<(UrlRecord, string)>)
    requires |m.urlOpen| > 0
    ensures r.Some? ==> |r.value.1| < |s|
  {
    match ReadField(m.urlOpen, s)
    case None => None
    case Some((loc, s1)) =>
      match ReadField(m.afterLoc, s1)
      case None => None
      case Some((name, s2)) =>
        match ReadField(m.afterName, s2)
        case None => None
        case Some((language, s3)) =>
          match ReadField(m.afterLanguage, s3)
          case None => None
          case Some((date, s4)) =>
            match ReadField(m.afterDate, s4)
            case None => None
            case Some((title, s5)) =>
              match Expect(m.urlClose, s5)
              case None => None
              case Some(s6) =>
                Some((UrlRecord(Unescape(loc), Unescape(name), Unescape(language), date, Unescape(title)), s6))
  }

  function ReadBlocks(m: Markup, s: string): Option<seq<UrlRecord>>
    requires |m.urlOpen| > 0
    decreases |s|
  {
    if s == m.footer then Some([])
    else
      match ReadBlock(m, s)
      case None => None
      case Some((rec, rest)) =>
        match ReadBlocks(m, rest)
        case None => None
        case Some(recs) => Some([rec] + recs)
  }

  /** Reads a document laid out with the markup `m`. */
  function ReadSitemap(m: Markup, xml: string): Option<seq<UrlRecord>>
    requires |m.urlOpen| > 0
  {
    match Expect(m.header, xml)
    case None => None
    case Some(rest) => ReadBlocks(m, rest)
  }

  lemma ExpectPrefix(lit: string, rest: string)
    ensures Expect(lit, lit + rest) == Some(rest)
  {
    assert (lit + rest)[..|lit|] == lit;
    assert (lit + rest)[|lit|..] == rest;
  }

  lemma ReadTextSplit(t: string, rest: string)
    requires '<' !in t
    requires rest != [] && rest[0] == '<'
    ensures ReadText(t + rest) == (t, rest)
  {
    var s := t + rest;
    assert s[|t|] == '<';
    match IndexOf(s, '<')
    case None =>
    case Some(i) =>
      assert s[..i] == t && s[i..] == rest;
  }

  lemma ReadFieldSplit(lit: string, t: string, rest: string)
    requires '<' !in t
    requires rest != [] && rest[0] == '<'
    ensures ReadField(lit, lit + (t + rest)) == Some((t, rest))
  {
    ExpectPrefix(lit, t + rest);
    ReadTextSplit(t, rest);
  }

  lemma EscapedHasNoLt(s: string)
    ensures '<' !in EscapeXml(s)
  {
    EscapeXmlWellEscaped(s);
  }

  /** The static publication name and language pass through the escaper unchanged. */
  lemma ConstantsUnescaped()
    ensures EscapeXml(PublicationName) == PublicationName
    ensures EscapeXml(Language) == Language
  {
    EscapeXmlPlain(PublicationName);
    EscapeXmlPlain(Language);
  }

  lemma ConcatAssoc(a: string, b: string, c: string)
    ensures (a + b) + c == a + (b + c)
  {
  }

  /** The text after a block starts right after its closing tag. */
  lemma FrameThen(m: Markup, u: string, n: string, l: string, d: string, t: string, rest: string)
    ensures Frame(m, u, n, l, d, t) + rest
            == m.urlOpen + (u + (m.afterLoc + (n + (m.afterName + (l + (m.afterLanguage
               + (d + (m.afterDate + (t + (m.urlClose + rest))))))))))
  {
    ConcatAssoc(t, m.urlClose, rest);
    ConcatAssoc(m.afterDate, t + m.urlClose, rest);
    ConcatAssoc(d, m.afterDate + (t + m.urlClose), rest);
    ConcatAssoc(m.afterLanguage, d + (m.afterDate + (t + m.urlClose)), rest);
    ConcatAssoc(l, m.afterLanguage + (d + (m.afterDate + (t + m.urlClose))), rest);
    ConcatAssoc(m.afterName, l + (m.afterLanguage + (d + (m.afterDate + (t + m.urlClose)))), rest);
    ConcatAssoc(n, m.afterName + (l + (m.afterLanguage + (d + (m.afterDate + (t + m.urlClose))))), rest);
    ConcatAssoc(m.afterLoc, n + (m.afterName + (l + (m.afterLanguage + (d + (m.afterDate + (t + m.urlClose)))))), rest);
    ConcatAssoc(u, m.afterLoc + (n + (m.afterName + (l + (m.afterLanguage + (d + (m.afterDate + (t + m.urlClose))))))), rest);
    ConcatAssoc(m.urlOpen, u + (m.afterLoc + (n + (m.afterName + (l + (m.afterLanguage + (d + (m.afterDate + (t + m.urlClose)))))))), rest);
  }

  /** Reading a block gives back its five fields, entities decoded, and the rest. */
  lemma ReadFrame(m: Markup, u: string, n: string, l: string, d: string, t: string, rest: string)
    requires Readable(m)
    requires '<' !in u && '<' !in n && '<' !in l && '<' !in d && '<' !in t
    ensures ReadBlock(m, Frame(m, u, n, l, d, t) + rest)
            == Some((UrlRecord(Unescape(u), Unescape(n), Unescape(l), d, Unescape(t)), rest))
  {
    var s5 := m.urlClose + rest;
    var s4 := m.afterDate + (t + s5);
    var s3 := m.afterLanguage + (d + s4);
    var s2 := m.afterName + (l + s3);
    var s1 := m.afterLoc + (n + s2);
    FrameThen(m, u, n, l, d, t, rest);
    ReadFieldSplit(m.urlOpen, u, s1);
    ReadFieldSplit(m.afterLoc, n, s2);
    ReadFieldSplit(m.afterName, l, s3);
    ReadFieldSplit(m.afterLanguage, d, s4);
    ReadFieldSplit(m.afterDate, t, s5);
    ExpectPrefix(m.urlClose, rest);
  }

  lemma ReadBackBlock(m: Markup, e: Entry, iso: int -> string, rest: string)
    requires Readable(m)
    requires e.date.Some?
    requires '<' !in iso(e.date.value)
    ensures ReadBlock(m, Block(m, e, iso) + rest)
            == Some((UrlRecord(e.url, m.name, m.language, iso(e.date.value), e.title), rest))
  {
    EscapedHasNoLt(e.url);
    EscapedHasNoLt(m.name);
    EscapedHasNoLt(m.language);
    EscapedHasNoLt(e.title);
    ReadFrame(m, EscapeXml(e.url), EscapeXml(m.name), EscapeXml(m.language), iso(e.date.value), EscapeXml(e.title), rest);
    UnescapeEscapeXml(e.url);
    UnescapeEscapeXml(m.name);
    UnescapeEscapeXml(m.language);
    UnescapeEscapeXml(e.title);
  }

  lemma ReadBlocksStep(m: Markup, s: string, rec: UrlRecord, rest: string, recs: seq<UrlRecord>)
    requires |m.urlOpen| > 0
    requires |s| > |m.footer|
    requires ReadBlock(m, s) == Some((rec, rest))
    requires ReadBlocks(m, rest) == Some(recs)
    ensures ReadBlocks(m, s) == Some([rec] + recs)
  {
  }

  lemma RecordsCons(m: Markup, items: seq<Entry>, iso: int -> string)
    requires AllDated(items) && items != []
    ensures Records(m, items, iso) == [Records(m, items, iso)[0]] + Records(m, items[1..], iso)
  {
    var r, r1 := Records(m, items, iso), Records(m, items[1..], iso);
    assert forall k :: 0 <= k < |r1| ==> r1[k] == r[k + 1];
  }

  /** One more block in front: the reader takes it off and reads on. */
  lemma ReadBackBlocksCons(m: Markup, items: seq<Entry>, iso: int -> string)
    requires Readable(m)
    requires AllDated(items) && items != []
    requires '<' !in iso(items[0].date.value)
    requires ReadBlocks(m, Blocks(m, items[1..], iso) + m.footer) == Some(Records(m, items[1..], iso))
    ensures ReadBlocks(m, Blocks(m, items, iso) + m.footer) == Some(Records(m, items, iso))
  {
    var b, bs := Block(m, items[0], iso), Blocks(m, items[1..], iso);
    assert Blocks(m, items, iso) == b + bs;
    ConcatAssoc(b, bs, m.footer);
    var e := items[0];
    ReadBackBlock(m, e, iso, bs + m.footer);
    var rec := UrlRecord(e.url, m.name, m.language, iso(e.date.value), e.title);
    assert |b| >= |m.urlOpen|;
    ReadBlocksStep(m, b + (bs + m.footer), rec, bs + m.footer, Records(m, items[1..], iso));
    RecordsCons(m, items, iso);
    assert Records(m, items, iso)[0] == rec;
  }

  lemma {:induction false} ReadBackBlocks(m: Markup, items: seq<Entry>, iso: int -> string)
    requires Readable(m)
    requires AllDated(items)
    requires forall t :: '<' !in iso(t)
    ensures ReadBlocks(m, Blocks(m, items, iso) + m.footer) == Some(Records(m, items, iso))
    decreases |items|
  {
    if items == [] {
      assert Blocks(m, items, iso) + m.footer == m.footer;
    } else {
      ReadBackBlocks(m, items[1..], iso);
      ReadBackBlocksCons(m, items, iso);
    }
  }

  /** The document reads back as one record per item, in order, with each text
      field recovered exactly from its escaped form. */
  lemma ReadBackSitemap(m: Markup, items: seq<Entry>, iso: int -> string)
    requires Readable(m)
    requires AllDated(items)
    requires forall t :: '<' !in iso(t)
    ensures ReadSitemap(m, Document(m, items, iso)) == Some(Records(m, items, iso))
  {
    ExpectPrefix(m.header, Blocks(m, items, iso) + m.footer);
    ReadBackBlocks(m, items, iso);
  }

  /** With nothing to list the document is the bare `urlset`, and it reads back as
      an empty list. */
  lemma EmptySitemap(iso: int -> string)
    ensures Document(Template, [], iso) == Template.header + Template.footer
    ensures ReadSitemap(Template, Document(Template, [], iso)) == Some([])
  {
    TemplateReadable();
    var plain := (t: int) => "";
    ReadBackSitemap(Template, [], plain);
    assert Document(Template, [], plain) == Template.header + Template.footer;
  }
}

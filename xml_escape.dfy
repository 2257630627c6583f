/** `escapeXml` of scripts/generate-news-sitemap.js: the five predefined entities of
    section 4.6 of XML 1.0, written by five `replaceAll` passes with the ampersand first. */
module XmlEscape {
  import opened Text

  /** The generator's escaper, pass by pass in the order the source applies them. */
  function EscapeXml(s: string): string {
    var amp := ReplaceAll(s, "&", "&amp;");
    var lt := ReplaceAll(amp, "<", "&lt;");
    var gt := ReplaceAll(lt, ">", "&gt;");
    var quot := ReplaceAll(gt, "\"", "&quot;");
    ReplaceAll(quot, "'", "&apos;")
  }

  predicate IsSpecial(c: char) {
    c == '&' || c == '<' || c == '>' || c == '"' || c == '\''
  }

  /** Reference escaper: one pass, one character at a time. */
  function EscapeChar(c: char): string {
    match c
    case '&' => "&amp;"
    case '<' => "&lt;"
    case '>' => "&gt;"
    case '"' => "&quot;"
    case '\'' => "&apos;"
    case _ => [c]
  }

  function EscapeChars(s: string): string
    decreases |s|
  {
    if s == [] then [] else EscapeChar(s[0]) + EscapeChars(s[1..])
  }

  /** Decodes the five entities, left to right; any other character stands for itself. */
  function Unescape(r: string): string
    decreases |r|
  {
    if r == [] then []
    else if StartsWith(r, "&amp;") then "&" + Unescape(r[5..])
    else if StartsWith(r, "&lt;") then "<" + Unescape(r[4..])
    else if StartsWith(r, "&gt;") then ">" + Unescape(r[4..])
    else if StartsWith(r, "&quot;") then "\"" + Unescape(r[6..])
    else if StartsWith(r, "&apos;") then "'" + Unescape(r[6..])
    else [r[0]] + Unescape(r[1..])
  }

  predicate EntityAt(r: string, i: nat)
    requires i <= |r|
  {
    var t := r[i..];
    StartsWith(t, "&amp;") || StartsWith(t, "&lt;") || StartsWith(t, "&gt;")
    || StartsWith(t, "&quot;") || StartsWith(t, "&apos;")
  }

  /** Safe text for element content and attribute values: no `<`, `>`, `"` or `'`,
      and every `&` opens one of the five entities. */
  predicate WellEscaped(r: string) {
    forall i :: 0 <= i < |r| ==>
      r[i] != '<' && r[i] != '>' && r[i] != '"' && r[i] != '\''
      && (r[i] == '&' ==> EntityAt(r, i))
  }

  /** One pass over a one-character string. */
  lemma ReplaceOnChar(c: char, d: char, rep: string)
    ensures ReplaceAll([c], [d], rep) == if c == d then rep else [c]
  {
    assert [c][..1] == [c] && [c][1..] == [];
  }

  /** `escapeXml` through the results of its five passes. */
  lemma EscapeXmlVia(s: string, s1: string, s2: string, s3: string, s4: string, r: string)
    requires ReplaceAll(s, "&", "&amp;") == s1 && ReplaceAll(s1, "<", "&lt;") == s2
    requires ReplaceAll(s2, ">", "&gt;") == s3 && ReplaceAll(s3, "\"", "&quot;") == s4
    requires ReplaceAll(s4, "'", "&apos;") == r
    ensures EscapeXml(s) == r
  {
  }

  lemma EscapeAmpAlone(c: char)
    requires c == '&'
    ensures EscapeXml([c]) == EscapeChar(c)
  {
    var e := EscapeChar(c);
    ReplaceOnChar(c, '&', "&amp;");
    ReplaceCharAbsent(e, '<', "&lt;");
    ReplaceCharAbsent(e, '>', "&gt;");
    ReplaceCharAbsent(e, '"', "&quot;");
    ReplaceCharAbsent(e, '\'', "&apos;");
    EscapeXmlVia([c], e, e, e, e, e);
  }

  lemma EscapeLtAlone(c: char)
    requires c == '<'
    ensures EscapeXml([c]) == EscapeChar(c)
  {
    var e := EscapeChar(c);
    ReplaceOnChar(c, '&', "&amp;");
    ReplaceOnChar(c, '<', "&lt;");
    ReplaceCharAbsent(e, '>', "&gt;");
    ReplaceCharAbsent(e, '"', "&quot;");
    ReplaceCharAbsent(e, '\'', "&apos;");
    EscapeXmlVia([c], [c], e, e, e, e);
  }

  lemma EscapeGtAlone(c: char)
    requires c == '>'
    ensures EscapeXml([c]) == EscapeChar(c)
  {
    var e := EscapeChar(c);
    ReplaceOnChar(c, '&', "&amp;");
    ReplaceOnChar(c, '<', "&lt;");
    ReplaceOnChar(c, '>', "&gt;");
    ReplaceCharAbsent(e, '"', "&quot;");
    ReplaceCharAbsent(e, '\'', "&apos;");
    EscapeXmlVia([c], [c], [c], e, e, e);
  }

  lemma EscapeQuotAlone(c: char)
    requires c == '"'
    ensures EscapeXml([c]) == EscapeChar(c)
  {
    var e := EscapeChar(c);
    ReplaceOnChar(c, '&', "&amp;");
    ReplaceOnChar(c, '<', "&lt;");
    ReplaceOnChar(c, '>', "&gt;");
    ReplaceOnChar(c, '"', "&quot;");
    ReplaceCharAbsent(e, '\'', "&apos;");
    EscapeXmlVia([c], [c], [c], [c], e, e);
  }

  /** A character that no pass replaces, or only the last one. */
  lemma EscapeLastPassOnly(c: char)
    requires !IsSpecial(c) || c == '\''
    ensures EscapeXml([c]) == EscapeChar(c)
  {
    ReplaceOnChar(c, '&', "&amp;");
    ReplaceOnChar(c, '<', "&lt;");
    ReplaceOnChar(c, '>', "&gt;");
    ReplaceOnChar(c, '"', "&quot;");
    ReplaceOnChar(c, '\'', "&apos;");
    EscapeXmlVia([c], [c], [c], [c], [c], EscapeChar(c));
  }

  /** The five passes on one character give that character's entity. */
  lemma EscapeXmlOneChar(c: char)
    ensures EscapeXml([c]) == EscapeChar(c)
  {
    if c == '&' { EscapeAmpAlone(c); }
    else if c == '<' { EscapeLtAlone(c); }
    else if c == '>' { EscapeGtAlone(c); }
    else if c == '"' { EscapeQuotAlone(c); }
    else { EscapeLastPassOnly(c); }
  }

  /** The five passes distribute over concatenation. */
  lemma EscapeXmlConcat(a: string, b: string)
    ensures EscapeXml(a + b) == EscapeXml(a) + EscapeXml(b)
  {
    ReplaceCharConcat(a, b, '&', "&amp;");
    var a1, b1 := ReplaceAll(a, "&", "&amp;"), ReplaceAll(b, "&", "&amp;");
    ReplaceCharConcat(a1, b1, '<', "&lt;");
    var a2, b2 := ReplaceAll(a1, "<", "&lt;"), ReplaceAll(b1, "<", "&lt;");
    ReplaceCharConcat(a2, b2, '>', "&gt;");
    var a3, b3 := ReplaceAll(a2, ">", "&gt;"), ReplaceAll(b2, ">", "&gt;");
    ReplaceCharConcat(a3, b3, '"', "&quot;");
    var a4, b4 := ReplaceAll(a3, "\"", "&quot;"), ReplaceAll(b3, "\"", "&quot;");
    ReplaceCharConcat(a4, b4, '\'', "&apos;");
  }

  /** Because the ampersand is replaced first, the five passes never re-escape an
      entity that an earlier pass introduced: they equal the one-pass escaper. */
  lemma {:induction false} EscapeXmlIsPerChar(s: string)
    ensures EscapeXml(s) == EscapeChars(s)
  {
    if s == [] {
      assert EscapeXml(s) == [];
    } else {
      assert s == [s[0]] + s[1..];
      EscapeXmlConcat([s[0]], s[1..]);
      EscapeXmlOneChar(s[0]);
      EscapeXmlIsPerChar(s[1..]);
    }
  }

  lemma {:induction false} EscapeCharsWellEscaped(s: string)
    ensures WellEscaped(EscapeChars(s))
    decreases |s|
  {
    if s != [] {
      var e, t := EscapeChar(s[0]), EscapeChars(s[1..]);
      EscapeCharsWellEscaped(s[1..]);
      var r := e + t;
      forall i | 0 <= i < |r|
        ensures r[i] != '<' && r[i] != '>' && r[i] != '"' && r[i] != '\''
        ensures r[i] == '&' ==> EntityAt(r, i)
      {
        if i < |e| {
          assert r[i] == e[i];
          if i == 0 && IsSpecial(s[0]) {
            assert r[0..][..|e|] == e;
          }
        } else {
          assert r[i] == t[i - |e|];
          assert r[i..] == t[i - |e|..];
        }
      }
    }
  }

  /** Output of `escapeXml` holds no `<`, `>`, `"` or `'`, and each `&` opens an entity. */
  lemma EscapeXmlWellEscaped(s: string)
    ensures WellEscaped(EscapeXml(s))
  {
    EscapeXmlIsPerChar(s);
    EscapeCharsWellEscaped(s);
  }

  /** A position that differs from the pattern rules the pattern out. */
  lemma Mismatch(r: string, p: string, i: nat)
    requires i < |p| && i < |r| && r[i] != p[i]
    ensures !StartsWith(r, p)
  {
    if |p| <= |r| { assert r[..|p|][i] == r[i]; }
  }

  lemma UnescapeStep(c: char, t: string)
    ensures Unescape(EscapeChar(c) + t) == [c] + Unescape(t)
  {
    var e := EscapeChar(c);
    var r := e + t;
    assert r[..|e|] == e && r[|e|..] == t;
    if c == '&' {
      assert r[5..] == t;
    } else if c == '<' {
      Mismatch(r, "&amp;", 1);
    } else if c == '>' {
      Mismatch(r, "&amp;", 1);
      Mismatch(r, "&lt;", 1);
    } else if c == '"' {
      Mismatch(r, "&amp;", 1);
      Mismatch(r, "&lt;", 1);
      Mismatch(r, "&gt;", 1);
    } else if c == '\'' {
      Mismatch(r, "&amp;", 2);
      Mismatch(r, "&lt;", 1);
      Mismatch(r, "&gt;", 1);
      Mismatch(r, "&quot;", 1);
    } else {
      assert e == [c];
      Mismatch(r, "&amp;", 0);
      Mismatch(r, "&lt;", 0);
      Mismatch(r, "&gt;", 0);
      Mismatch(r, "&quot;", 0);
      Mismatch(r, "&apos;", 0);
      assert r[1..] == t;
    }
  }

  lemma {:induction false} UnescapeEscapeChars(s: string)
    ensures Unescape(EscapeChars(s)) == s
    decreases |s|
  {
    if s != [] {
      UnescapeStep(s[0], EscapeChars(s[1..]));
      UnescapeEscapeChars(s[1..]);
    }
  }

  /** Decoding the entities in `escapeXml(s)` gives back exactly `s`. */
  lemma UnescapeEscapeXml(s: string)
    ensures Unescape(EscapeXml(s)) == s
  {
    EscapeXmlIsPerChar(s);
    UnescapeEscapeChars(s);
  }

  lemma {:induction false} EscapeCharsPlain(s: string)
    requires forall i :: 0 <= i < |s| ==> !IsSpecial(s[i])
    ensures EscapeChars(s) == s
    decreases |s|
  {
    if s != [] {
      assert !IsSpecial(s[0]);
      EscapeCharsPlain(s[1..]);
    }
  }

  /** A string with none of the five special characters is left unchanged. */
  lemma EscapeXmlPlain(s: string)
    requires forall i :: 0 <= i < |s| ==> !IsSpecial(s[i])
    ensures EscapeXml(s) == s
  {
    EscapeXmlIsPerChar(s);
    EscapeCharsPlain(s);
  }

  /** Escaping is not idempotent: an `&` that already starts an entity such as
      `&amp;` is escaped again, so `&amp;` becomes `&amp;amp;`. */
  lemma EscapeXmlEntityAgain(t: string)
    requires forall i :: 0 <= i < |t| ==> !IsSpecial(t[i])
    ensures EscapeXml("&" + t) == "&amp;" + t
  {
    EscapeXmlConcat("&", t);
    EscapeXmlOneChar('&');
    EscapeXmlPlain(t);
  }
}

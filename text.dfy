/** String helpers shared by the sitemap generator and the scraper: prefix tests,
    left-to-right replacement of every occurrence, whitespace trimming, search and digits. */
module Text {
  import opened Wrappers

  predicate StartsWith(s: string, p: string) {
    |p| <= |s| && s[..|p|] == p
  }

  /** Replaces every non-overlapping occurrence of `pat`, scanning left to right.
      This is `String.prototype.replaceAll` with a string pattern whose replacement
      holds no `$`, and Python's `str.replace` without a count. */
  function ReplaceAll(s: string, pat: string, rep: string): string
    requires |pat| > 0
    decreases |s|
  {
    if s == [] then []
    else if StartsWith(s, pat) then rep + ReplaceAll(s[|pat|..], pat, rep)
    else [s[0]] + ReplaceAll(s[1..], pat, rep)
  }

  /** A string without the pattern's character is left as it is. */
  lemma {:induction false} ReplaceCharAbsent(s: string, c: char, rep: string)
    requires c !in s
    ensures ReplaceAll(s, [c], rep) == s
  {
    if s != [] {
      assert s[0] != c;
      assert c !in s[1..];
      ReplaceCharAbsent(s[1..], c, rep);
    }
  }

  /** Replacing a one-character pattern works character by character, so it
      distributes over concatenation. */
  lemma {:induction false} ReplaceCharConcat(a: string, b: string, c: char, rep: string)
    ensures ReplaceAll(a + b, [c], rep) == ReplaceAll(a, [c], rep) + ReplaceAll(b, [c], rep)
  {
    if a == [] {
      assert a + b == b;
    } else {
      var s := a + b;
      assert s[0] == a[0] && s[1..] == a[1..] + b;
      assert s[..1] == [a[0]] && a[..1] == [a[0]];
      ReplaceCharConcat(a[1..], b, c, rep);
      var tail := ReplaceAll(a[1..], [c], rep);
      var head := if a[0] == c then rep else [a[0]];
      assert ReplaceAll(s, [c], rep) == head + (tail + ReplaceAll(b, [c], rep));
      assert ReplaceAll(a, [c], rep) == head + tail;
    }
  }

  /** No occurrence of `pat` begins inside the prefix `a`, so replacing in `a + b`
      keeps `a` and replaces only in `b`. */
  lemma {:induction false} ReplaceSkipsPrefix(a: string, b: string, pat: string, rep: string)
    requires |pat| > 0
    requires forall i :: 0 <= i < |a| ==> !StartsWith((a + b)[i..], pat)
    ensures ReplaceAll(a + b, pat, rep) == a + ReplaceAll(b, pat, rep)
  {
    if a == [] {
      assert a + b == b;
    } else {
      assert (a + b)[0..] == a + b;
      assert (a + b)[1..] == a[1..] + b;
      forall i | 0 <= i < |a[1..]|
        ensures !StartsWith((a[1..] + b)[i..], pat)
      {
        assert (a[1..] + b)[i..] == (a + b)[i + 1..];
      }
      ReplaceSkipsPrefix(a[1..], b, pat, rep);
      assert [a[0]] + (a[1..] + ReplaceAll(b, pat, rep)) == a + ReplaceAll(b, pat, rep);
    }
  }

  /** A position whose character differs from the pattern's first one starts no occurrence. */
  lemma NoMatchAtChar(s: string, i: nat, pat: string)
    requires |pat| > 0 && i < |s| && s[i] != pat[0]
    ensures !StartsWith(s[i..], pat)
  {
    assert s[i..][0] == s[i];
  }

  /** Number of leading characters that satisfy `ws`. */
  function LeadingCount(s: string, ws: char -> bool): (n: nat)
    ensures n <= |s|
    ensures forall k :: 0 <= k < n ==> ws(s[k])
    ensures n < |s| ==> !ws(s[n])
    decreases |s|
  {
    if s != [] && ws(s[0]) then 1 + LeadingCount(s[1..], ws) else 0
  }

  /** Length of `s` once its trailing characters that satisfy `ws` are cut off. */
  function TrailingStart(s: string, ws: char -> bool): (n: nat)
    ensures n <= |s|
    ensures forall k :: n <= k < |s| ==> ws(s[k])
    ensures n > 0 ==> !ws(s[n - 1])
    decreases |s|
  {
    if s != [] && ws(s[|s| - 1]) then TrailingStart(s[..|s| - 1], ws) else |s|
  }

  /** Removes leading and trailing characters in the class `ws`. */
  function Trim(s: string, ws: char -> bool): (r: string)
    ensures |r| <= |s|
    ensures r == [] || (!ws(r[0]) && !ws(r[|r| - 1]))
    ensures LeadingCount(s, ws) + |r| <= |s|
    ensures r == s[LeadingCount(s, ws)..LeadingCount(s, ws) + |r|]
    ensures forall k :: LeadingCount(s, ws) + |r| <= k < |s| ==> ws(s[k])
    ensures (forall k :: 0 <= k < |s| ==> ws(s[k])) ==> r == []
  {
    var a := LeadingCount(s, ws);
    var b := if a == |s| then |s| else TrailingStart(s, ws);
    assert a < |s| ==> a < b;
    s[a..b]
  }

  /** Trimming a string that neither begins nor ends in `ws` leaves it as it is. */
  lemma TrimUntouched(s: string, ws: char -> bool)
    requires s == [] || (!ws(s[0]) && !ws(s[|s| - 1]))
    ensures Trim(s, ws) == s
  {
    if s != [] {
      assert LeadingCount(s, ws) == 0;
      assert TrailingStart(s, ws) == |s|;
    }
  }

  lemma {:induction false} LeadingCountPad(a: string, r: string, ws: char -> bool)
    requires forall k :: 0 <= k < |a| ==> ws(a[k])
    requires r != [] && !ws(r[0])
    ensures LeadingCount(a + r, ws) == |a|
    decreases |a|
  {
    if a == [] {
      assert a + r == r;
    } else {
      assert (a + r)[0] == a[0] && (a + r)[1..] == a[1..] + r;
      LeadingCountPad(a[1..], r, ws);
    }
  }

  lemma {:induction false} TrailingStartPad(r: string, b: string, ws: char -> bool)
    requires forall k :: 0 <= k < |b| ==> ws(b[k])
    requires r != [] && !ws(r[|r| - 1])
    ensures TrailingStart(r + b, ws) == |r|
    decreases |b|
  {
    if b == [] {
      assert r + b == r;
    } else {
      var b' := b[..|b| - 1];
      assert (r + b)[|r + b| - 1] == b[|b| - 1];
      assert (r + b)[..|r + b| - 1] == r + b';
      TrailingStartPad(r, b', ws);
    }
  }

  /** Trimming removes exactly the whitespace around a text that neither begins nor
      ends in whitespace. */
  lemma TrimPadded(a: string, t: string, b: string, ws: char -> bool)
    requires forall k :: 0 <= k < |a| ==> ws(a[k])
    requires forall k :: 0 <= k < |b| ==> ws(b[k])
    requires t != [] && !ws(t[0]) && !ws(t[|t| - 1])
    ensures Trim(a + t + b, ws) == t
  {
    var s := a + t + b;
    assert s == a + (t + b);
    LeadingCountPad(a, t + b, ws);
    assert (a + t)[|a + t| - 1] == t[|t| - 1];
    TrailingStartPad(a + t, b, ws);
    assert s[|a|..|a| + |t|] == t;
  }

  /** Whitespace as `String.prototype.trim` sees it: WhiteSpace and LineTerminator
      of the ECMAScript grammar. */
  predicate IsJsWhitespace(c: char) {
    c == '\t' || c == '\n' || c == '\U{000B}' || c == '\U{000C}' || c == '\r' || c == ' '
    || c == '\U{00A0}' || c == '\U{1680}' || ('\U{2000}' <= c <= '\U{200A}')
    || c == '\U{2028}' || c == '\U{2029}' || c == '\U{202F}' || c == '\U{205F}'
    || c == '\U{3000}' || c == '\U{FEFF}'
  }

  /** Whitespace as Python's `str.strip()` sees it (`str.isspace`). */
  predicate IsPyWhitespace(c: char) {
    ('\t' <= c <= '\r') || ('\U{001C}' <= c <= ' ') || c == '\U{0085}' || c == '\U{00A0}'
    || c == '\U{1680}' || ('\U{2000}' <= c <= '\U{200A}') || c == '\U{2028}'
    || c == '\U{2029}' || c == '\U{202F}' || c == '\U{205F}' || c == '\U{3000}'
  }

  /** Position of the first `c` in `s`. */
  function IndexOf(s: string, c: char): (r: Option<nat>)
    ensures r.None? <==> c !in s
    ensures r.Some? ==> r.value < |s| && s[r.value] == c && c !in s[..r.value]
    decreases |s|
  {
    if s == [] then None
    else if s[0] == c then Some(0)
    else
      match IndexOf(s[1..], c)
      case None => None
      case Some(i) => assert s[1..][..i] == s[1..i + 1]; Some(i + 1)
  }

  predicate IsDigit(c: char) {
    '0' <= c <= '9'
  }

  predicate AllDigits(s: string) {
    forall k :: 0 <= k < |s| ==> IsDigit(s[k])
  }

  /** The value of a string of decimal digits, most significant first. */
  function DigitsValue(s: string): nat
    requires AllDigits(s)
    decreases |s|
  {
    if s == [] then 0
    else DigitsValue(s[..|s| - 1]) * 10 + (s[|s| - 1] as int - '0' as int)
  }

  function DigitChar(d: nat): (c: char)
    requires d < 10
    ensures IsDigit(c) && c as int - '0' as int == d
  {
    ('0' as int + d) as char
  }

  /** Decimal rendering of a natural number. `Number.prototype.toString` gives this
      for integers below 10^21; from 10^21 on it switches to exponent form. */
  function NatToString(n: nat): (r: string)
    ensures |r| > 0 && AllDigits(r)
    decreases n
  {
    if n < 10 then [DigitChar(n)] else NatToString(n / 10) + [DigitChar(n % 10)]
  }

  function Pow10(w: nat): (p: nat)
    ensures p >= 1
  {
    if w == 0 then 1 else 10 * Pow10(w - 1)
  }

  lemma {:induction false} DigitsValueBound(s: string)
    requires AllDigits(s)
    ensures DigitsValue(s) < Pow10(|s|)
    decreases |s|
  {
    if s != [] {
      var p := s[..|s| - 1];
      DigitsValueBound(p);
      assert DigitsValue(p) + 1 <= Pow10(|p|);
      assert (DigitsValue(p) + 1) * 10 <= Pow10(|p|) * 10;
    }
  }

  /** The last `w` decimal digits of `n`, zero-padded. */
  function PadDigits(n: nat, w: nat): (r: string)
    ensures |r| == w && AllDigits(r)
    ensures n < Pow10(w) ==> DigitsValue(r) == n
  {
    if w == 0 then []
    else
      var r := PadDigits(n / 10, w - 1) + [DigitChar(n % 10)];
      assert r[..|r| - 1] == PadDigits(n / 10, w - 1);
      r
  }

  /** A digit string is the zero-padded rendering of its own value at its own width. */
  lemma {:induction false} PadDigitsValue(f: string)
    requires AllDigits(f)
    ensures PadDigits(DigitsValue(f), |f|) == f
    decreases |f|
  {
    if f != [] {
      var p := f[..|f| - 1];
      assert AllDigits(p) by {
        forall k | 0 <= k < |p| ensures IsDigit(p[k]) { assert p[k] == f[k]; }
      }
      var v := DigitsValue(f);
      assert v / 10 == DigitsValue(p) && v % 10 == f[|f| - 1] as int - '0' as int;
      PadDigitsValue(p);
      assert f == p + [f[|f| - 1]];
    }
  }

  /** The first `c` in `a + [c] + b` is at `|a|` when `a` holds no `c`. */
  lemma IndexOfAfter(a: string, c: char, b: string)
    requires c !in a
    ensures IndexOf(a + [c] + b, c) == Some(|a|)
  {
    var s := a + [c] + b;
    assert s[|a|] == c;
  }

  function IntToString(n: int): string {
    if n < 0 then "-" + NatToString(-n) else NatToString(n)
  }
}

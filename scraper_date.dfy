/** `parse_date` of scripts/scrape-framer.py: `datetime.strptime(s.strip(), "%d/%m/%Y")`,
    falling back to the current time when that raises. */
module ScraperDate {
  import opened Wrappers
  import opened Text

  /** A naive Python `datetime`. */
  datatype DateTime = DateTime(year: int, month: int, day: int,
                               hour: int, minute: int, second: int, microsecond: int)

  predicate IsLeapYear(y: int) {
    y % 4 == 0 && (y % 100 != 0 || y % 400 == 0)
  }

  function DaysInMonth(m: int, y: int): int
    requires 1 <= m <= 12
  {
    if m == 2 then (if IsLeapYear(y) then 29 else 28)
    else if m == 4 || m == 6 || m == 9 || m == 11 then 30
    else 31
  }

  /** What the `datetime` constructor accepts (years 1 to 9999). */
  predicate ValidDate(y: int, m: int, d: int) {
    1 <= y <= 9999 && 1 <= m <= 12 && 1 <= d <= DaysInMonth(m, y)
  }

  function Midnight(y: int, m: int, d: int): DateTime {
    DateTime(y, m, d, 0, 0, 0, 0)
  }

  /** The text `%d` or `%m` matches before a `/`: one or two digits. Their value
      range (1..31, 1..12) is checked with the calendar below. */
  predicate DayOrMonthField(f: string) {
    1 <= |f| <= 2 && AllDigits(f)
  }

  /** The `%d/%m/%Y` directives on an already stripped string: the text up to the
      first `/`, the text up to the second `/`, and exactly four digits to the end. */
  function ParseDmy(t: string): (r: Option<DateTime>)
    ensures r.Some? ==> r.value == Midnight(r.value.year, r.value.month, r.value.day)
                        && ValidDate(r.value.year, r.value.month, r.value.day)
  {
    match IndexOf(t, '/')
    case None => None
    case Some(i) =>
      var rest := t[i + 1..];
      match IndexOf(rest, '/')
      case None => None
      case Some(j) => DmyFields(t[..i], rest[..j], rest[j + 1..])
  }

  /** The three fields, checked by the directives' patterns and then by the calendar. */
  function DmyFields(ds: string, ms: string, ys: string): (r: Option<DateTime>)
    ensures r.Some? <==> DayOrMonthField(ds) && DayOrMonthField(ms) && |ys| == 4 && AllDigits(ys)
                         && ValidDate(DigitsValue(ys), DigitsValue(ms), DigitsValue(ds))
    ensures r.Some? ==> r.value == Midnight(DigitsValue(ys), DigitsValue(ms), DigitsValue(ds))
  {
    if DayOrMonthField(ds) && DayOrMonthField(ms) && |ys| == 4 && AllDigits(ys) then
      var d, m, y := DigitsValue(ds), DigitsValue(ms), DigitsValue(ys);
      FourDigitsBound(ys);
      if 1 <= m <= 12 && 1 <= y && 1 <= d <= DaysInMonth(m, y) then Some(Midnight(y, m, d))
      else None
    else None
  }

  lemma FourDigitsBound(ys: string)
    requires |ys| == 4 && AllDigits(ys)
    ensures DigitsValue(ys) <= 9999
  {
    DigitsValueBound(ys);
    assert Pow10(4) == 10000;
  }

  lemma ParseDmySplit(ds: string, ms: string, ys: string)
    requires '/' !in ds && '/' !in ms
    ensures ParseDmy(ds + "/" + ms + "/" + ys) == DmyFields(ds, ms, ys)
  {
    var t := ds + "/" + ms + "/" + ys;
    assert t == ds + ['/'] + (ms + "/" + ys);
    IndexOfAfter(ds, '/', ms + "/" + ys);
    var rest := t[|ds| + 1..];
    assert rest == ms + ['/'] + ys;
    IndexOfAfter(ms, '/', ys);
    assert t[..|ds|] == ds && rest[..|ms|] == ms && rest[|ms| + 1..] == ys;
  }

  /** `parse_date(date_str)`; `now` is the clock reading `datetime.now()` would give. */
  function ParseDate(s: string, now: DateTime): (r: DateTime)
    ensures r == now || (r == Midnight(r.year, r.month, r.day) && ValidDate(r.year, r.month, r.day))
  {
    match ParseDmy(Trim(s, IsPyWhitespace))
    case Some(d) => d
    case None => now
  }

  /** Only text of the `d/m/yyyy` digit form parses: a successful parse is the text
      of its own date, with one- or two-digit day and month and a four-digit year. */
  lemma ParseDmyForm(t: string)
    requires ParseDmy(t).Some?
    ensures var d := ParseDmy(t).value;
            exists wd, wm :: 1 <= wd <= 2 && 1 <= wm <= 2
                             && t == FormatDmy(d.year, d.month, d.day, wd, wm)
  {
    var i :| IndexOf(t, '/') == Some(i);
    var rest := t[i + 1..];
    var j :| IndexOf(rest, '/') == Some(j);
    var ds, ms, ys := t[..i], rest[..j], rest[j + 1..];
    var d := ParseDmy(t).value;
    assert DmyFields(ds, ms, ys) == Some(d);
    SplitAt(t, i);
    SplitAt(rest, j);
    DmyFieldsForm(t, ds, ms, ys, d);
  }

  /** Accepted fields are the text `FormatDmy` writes for the date they give. */
  lemma DmyFieldsForm(t: string, ds: string, ms: string, ys: string, d: DateTime)
    requires t == ds + "/" + ms + "/" + ys && DmyFields(ds, ms, ys) == Some(d)
    ensures d.year >= 0 && d.month >= 0 && d.day >= 0
    ensures exists wd, wm :: 1 <= wd <= 2 && 1 <= wm <= 2
                             && t == FormatDmy(d.year, d.month, d.day, wd, wm)
  {
    PadDigitsValue(ds);
    PadDigitsValue(ms);
    PadDigitsValue(ys);
    assert t == FormatDmy(d.year, d.month, d.day, |ds|, |ms|);
  }

  /** A string is the text before a `/`, the `/`, and the text after it. */
  lemma SplitAt(t: string, i: nat)
    requires i < |t| && t[i] == '/'
    ensures t == t[..i] + "/" + t[i + 1..]
  {
    assert t == t[..i] + [t[i]] + t[i + 1..];
  }

  /** `parse_date` returns the clock reading for every text that is not, once stripped,
      a valid date written as `d/m/yyyy`: any other result is such a date at midnight. */
  lemma ParseDateForm(s: string, now: DateTime)
    ensures var r := ParseDate(s, now);
            r == now
            || (r == Midnight(r.year, r.month, r.day) && ValidDate(r.year, r.month, r.day)
                && exists wd, wm :: 1 <= wd <= 2 && 1 <= wm <= 2
                                    && Trim(s, IsPyWhitespace) == FormatDmy(r.year, r.month, r.day, wd, wm))
  {
    var t := Trim(s, IsPyWhitespace);
    if ParseDmy(t).Some? {
      ParseDmyForm(t);
    }
  }

  /** A date as the site may write it: a day of `wd` digits and a month of `wm` digits
      (zero-padded), a four-digit year. */
  function FormatDmy(y: nat, m: nat, d: nat, wd: nat, wm: nat): string {
    PadDigits(d, wd) + "/" + PadDigits(m, wm) + "/" + PadDigits(y, 4)
  }

  /** Written with one- or two-digit day and month and surrounded by any whitespace,
      a date parses to that day at midnight exactly when the calendar has it;
      otherwise the clock reading is returned. */
  lemma ParseFormatted(y: nat, m: nat, d: nat, wd: nat, wm: nat, lead: string, trail: string, now: DateTime)
    requires y < 10000 && 1 <= wd <= 2 && 1 <= wm <= 2 && d < Pow10(wd) && m < Pow10(wm)
    requires forall k :: 0 <= k < |lead| ==> IsPyWhitespace(lead[k])
    requires forall k :: 0 <= k < |trail| ==> IsPyWhitespace(trail[k])
    ensures ParseDate(lead + FormatDmy(y, m, d, wd, wm) + trail, now)
            == if ValidDate(y, m, d) then Midnight(y, m, d) else now
  {
    var ds, ms, ys := PadDigits(d, wd), PadDigits(m, wm), PadDigits(y, 4);
    var t := FormatDmy(y, m, d, wd, wm);
    assert t[0] == ds[0] && t[|t| - 1] == ys[3];
    TrimPadded(lead, t, trail, IsPyWhitespace);
    ParseDmySplit(ds, ms, ys);
  }

  /** The calendar check applies: 31 February is not a date, so the clock is returned. */
  lemma ImpossibleDateFallsBack(now: DateTime)
    ensures ParseDate(FormatDmy(2024, 2, 31, 2, 2), now) == now
  {
    var t := FormatDmy(2024, 2, 31, 2, 2);
    assert Pow10(2) == 100;
    assert DaysInMonth(2, 2024) == 29;
    ParseFormatted(2024, 2, 31, 2, 2, "", "", now);
    assert "" + t + "" == t;
  }
}

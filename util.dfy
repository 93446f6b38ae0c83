/**
 * Wayback Machine timestamps (`src/util/mod.rs`): the fourteen-digit
 * `%Y%m%d%H%M%S` layout used in CDX rows and archive URLs, and the guessed
 * body of a stored redirect page.
 */
module Util {
  import opened Wrappers
  import opened Text

  /** A calendar date and time of day, with no time zone (`NaiveDateTime`). */
  datatype RawDateTime = RawDateTime(year: nat, month: nat, day: nat, hour: nat, minute: nat, second: nat)

  predicate IsLeapYear(y: nat) {
    y % 4 == 0 && (y % 100 != 0 || y % 400 == 0)
  }

  function DaysInMonth(y: nat, m: nat): (n: nat)
    requires 1 <= m <= 12
    ensures 28 <= n <= 31
  {
    if m == 2 then (if IsLeapYear(y) then 29 else 28)
    else if m == 4 || m == 6 || m == 9 || m == 11 then 30
    else 31
  }

  /** A proleptic Gregorian date-time whose year has four digits. */
  predicate ValidDateTime(d: RawDateTime) {
    && d.year <= 9999
    && 1 <= d.month <= 12
    && 1 <= d.day <= DaysInMonth(d.year, d.month)
    && d.hour < 24 && d.minute < 60 && d.second < 60
  }

  type DateTime = d: RawDateTime | ValidDateTime(d) witness RawDateTime(1970, 1, 1, 0, 0, 0)

  /** Chronological order (the derived `Ord` of `NaiveDateTime`). */
  predicate DateTimeLt(a: DateTime, b: DateTime) {
    if a.year != b.year then a.year < b.year
    else if a.month != b.month then a.month < b.month
    else if a.day != b.day then a.day < b.day
    else if a.hour != b.hour then a.hour < b.hour
    else if a.minute != b.minute then a.minute < b.minute
    else a.second < b.second
  }

  /** `to_timestamp`: the date-time formatted as `%Y%m%d%H%M%S`. */
  function ToTimestamp(d: DateTime): (s: string)
    ensures |s| == 14 && AllDigits(s)
  {
    PadDecimal(d.year, 4) + PadDecimal(d.month, 2) + PadDecimal(d.day, 2)
    + PadDecimal(d.hour, 2) + PadDecimal(d.minute, 2) + PadDecimal(d.second, 2)
  }

  /** `parse_timestamp`: fourteen ASCII digits naming an existing date-time. */
  function ParseTimestamp(s: string): (r: Option<DateTime>)
    ensures r.Some? ==> |s| == 14 && AllDigits(s)
  {
    if |s| != 14 || !AllDigits(s) then None
    else
      var raw := RawDateTime(DigitsValue(s[0..4]), DigitsValue(s[4..6]), DigitsValue(s[6..8]),
                             DigitsValue(s[8..10]), DigitsValue(s[10..12]), DigitsValue(s[12..14]));
      if ValidDateTime(raw) then Some(raw) else None
  }

  lemma {:induction false} DigitsValueBound(t: string)
    requires AllDigits(t)
    ensures DigitsValue(t) < Pow10(|t|)
  {
    if t != [] {
      DigitsValueBound(t[..|t| - 1]);
    }
  }

  lemma DivMod10(v: nat, d: nat)
    requires d < 10
    ensures (10 * v + d) / 10 == v && (10 * v + d) % 10 == d
  {
  }

  /** Zero-padded printing undoes reading a run of digits. */
  lemma {:induction false} PadDigitsValue(t: string)
    requires AllDigits(t)
    ensures DigitsValue(t) < Pow10(|t|)
    ensures PadDecimal(DigitsValue(t), |t|) == t
  {
    DigitsValueBound(t);
    if t != [] {
      var init := t[..|t| - 1];
      PadDigitsValue(init);
      var v, d := DigitsValue(init), DigitValue(t[|t| - 1]);
      DivMod10(v, d);
      assert DigitChar(d) == t[|t| - 1];
      assert t == init + [t[|t| - 1]];
    }
  }

  /** Formatting a date-time and parsing the text gives it back. */
  lemma ParseToTimestamp(d: DateTime)
    ensures ParseTimestamp(ToTimestamp(d)) == Some(d)
  {
    var s := ToTimestamp(d);
    assert s[0..4] == PadDecimal(d.year, 4);
    assert s[4..6] == PadDecimal(d.month, 2);
    assert s[6..8] == PadDecimal(d.day, 2);
    assert s[8..10] == PadDecimal(d.hour, 2);
    assert s[10..12] == PadDecimal(d.minute, 2);
    assert s[12..14] == PadDecimal(d.second, 2);
  }

  /** Text that parses is exactly the formatting of what it parses to, so
      `parse_timestamp` and `to_timestamp` are inverse bijections between
      valid timestamps and date-times. */
  lemma ToTimestampOfParse(s: string)
    requires ParseTimestamp(s).Some?
    ensures ToTimestamp(ParseTimestamp(s).value) == s
  {
    RepadFields(s);
  }

  /** A fourteen-character string is its six timestamp fields in a row. */
  lemma TimestampFields(s: string)
    requires |s| == 14
    ensures s == s[0..4] + s[4..6] + s[6..8] + s[8..10] + s[10..12] + s[12..14]
  {
  }

  lemma AllDigitsSlice(s: string, i: nat, j: nat)
    requires AllDigits(s) && i <= j <= |s|
    ensures AllDigits(s[i..j])
  {
    assert forall k :: 0 <= k < j - i ==> s[i..j][k] == s[i + k];
  }

  /** Each field of a timestamp pads back to itself. */
  lemma RepadFields(s: string)
    requires |s| == 14 && AllDigits(s)
    ensures DigitsValue(s[0..4]) < Pow10(4) && DigitsValue(s[4..6]) < Pow10(2) && DigitsValue(s[6..8]) < Pow10(2)
    ensures DigitsValue(s[8..10]) < Pow10(2) && DigitsValue(s[10..12]) < Pow10(2) && DigitsValue(s[12..14]) < Pow10(2)
    ensures s == PadDecimal(DigitsValue(s[0..4]), 4) + PadDecimal(DigitsValue(s[4..6]), 2)
               + PadDecimal(DigitsValue(s[6..8]), 2) + PadDecimal(DigitsValue(s[8..10]), 2)
               + PadDecimal(DigitsValue(s[10..12]), 2) + PadDecimal(DigitsValue(s[12..14]), 2)
  {
    AllDigitsSlice(s, 0, 4);
    AllDigitsSlice(s, 4, 6);
    AllDigitsSlice(s, 6, 8);
    AllDigitsSlice(s, 8, 10);
    AllDigitsSlice(s, 10, 12);
    AllDigitsSlice(s, 12, 14);
    PadDigitsValue(s[0..4]);
    PadDigitsValue(s[4..6]);
    PadDigitsValue(s[6..8]);
    PadDigitsValue(s[8..10]);
    PadDigitsValue(s[10..12]);
    PadDigitsValue(s[12..14]);
    TimestampFields(s);
  }

  /** Distinct date-times have distinct timestamps. */
  lemma ToTimestampInjective(a: DateTime, b: DateTime)
    requires ToTimestamp(a) == ToTimestamp(b)
    ensures a == b
  {
    ParseToTimestamp(a);
    ParseToTimestamp(b);
  }

  const REDIRECT_PREFIX: string := "<html><body>You are being <a href=\""
  const REDIRECT_SUFFIX: string := "\">redirected</a>.</body></html>"

  /** `guess_redirect_content`: the page the archive usually stores for a
      redirect to `url`. */
  function GuessRedirectContent(url: string): (page: string)
    ensures StartsWith(page, REDIRECT_PREFIX)
    ensures |page| == |REDIRECT_PREFIX| + |url| + |REDIRECT_SUFFIX|
    ensures page[|REDIRECT_PREFIX|..|REDIRECT_PREFIX| + |url|] == url
  {
    REDIRECT_PREFIX + url + REDIRECT_SUFFIX
  }

  /** Different redirect targets give different guessed pages. */
  lemma GuessRedirectContentInjective(a: string, b: string)
    requires GuessRedirectContent(a) == GuessRedirectContent(b)
    ensures a == b
  {
  }
}

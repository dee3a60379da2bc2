/**
 * The part of chrono's strftime-driven parser that the source relies on:
 * `parse_and_remainder` (used by the title-date parser), `parse` (used by
 * `NaiveDate::parse_from_str` and `NaiveDateTime::parse_from_str`) and the
 * conversion of the parsed fields into a date or a date-time.
 *
 * As chrono does it: a space in a format skips any amount of whitespace
 * (including none); a numeric field first skips whitespace, then reads one to
 * `Width` digits; an unsigned year reads at most four digits, a signed one
 * every digit that follows its sign; `%b` reads exactly the three letters of an
 * English month abbreviation, in any case, and nothing of the full name after
 * them; a literal must match exactly; padding flags are ignored when parsing.
 *
 * chrono rejects an out-of-range field either when it is stored or when the
 * date is built, depending on its version; both end in an error, so here the
 * ranges are checked when the date is built.
 */
module Strftime {
  import opened Wrappers
  import opened Chars
  import opened Calendar

  datatype Pad = NoPad | ZeroPad | SpacePad

  datatype Numeric = Year | Month | Day | Hour | Minute | Second

  datatype Item = Num(field: Numeric, pad: Pad) | Lit(text: string) | Space | MonthName

  /** The fields found so far (chrono's `Parsed`, restricted to the fields these formats set). */
  datatype Parsed = Parsed(
    year: Option<int>, month: Option<int>, day: Option<int>,
    hour: Option<int>, minute: Option<int>, second: Option<int>)

  const NoFields: Parsed := Parsed(None, None, None, None, None, None)

  /** Years chrono's `NaiveDate` can represent (`i32::MIN >> 13` to `i32::MAX >> 13`). */
  const MinYear: int := -262144
  const MaxYear: int := 262143

  function TrimStart(s: string): (r: string)
    ensures |r| <= |s| && r == s[|s| - |r|..]
    ensures r == [] || !IsWhitespace(r[0])
  {
    if s != [] && IsWhitespace(s[0]) then TrimStart(s[1..]) else s
  }

  /** Number of leading ASCII digits of `s`, looking at no more than `max` characters. */
  function LeadingDigits(s: string, max: nat): (k: nat)
    ensures k <= max && k <= |s|
    ensures forall i :: 0 <= i < k ==> IsDigit(s[i])
    ensures k < max && k < |s| ==> !IsDigit(s[k])
  {
    if max == 0 || s == [] || !IsDigit(s[0]) then 0 else 1 + LeadingDigits(s[1..], max - 1)
  }

  predicate AllDigits(s: string) {
    forall i :: 0 <= i < |s| ==> IsDigit(s[i])
  }

  /** The value of a string of decimal digits, most significant first. */
  function DecimalValue(s: string): nat
    requires AllDigits(s)
  {
    if s == [] then 0 else DecimalValue(s[..|s| - 1]) * 10 + DigitValue(s[|s| - 1])
  }

  /** chrono's `scan::number(s, 1, max)`: one to `max` digits, and what follows them. */
  function ScanNumber(s: string, max: nat): (r: Option<(int, string)>)
    ensures r.Some? ==> |r.value.1| < |s|
  {
    var k := LeadingDigits(s, max);
    if k == 0 then None else Some((DecimalValue(s[..k]), s[k..]))
  }

  function Width(f: Numeric): nat {
    if f == Year then 4 else 2
  }

  /** A numeric item: skip whitespace, then a signed year or one to `Width(f)` digits. */
  function ScanNumeric(f: Numeric, s: string): (r: Option<(int, string)>)
    ensures r.Some? ==> |r.value.1| < |s|
  {
    var t := TrimStart(s);
    if f == Year && t != [] && t[0] == '-' then
      match ScanNumber(t[1..], |t|)
      case None => None
      case Some((v, rest)) => Some((-v, rest))
    else if f == Year && t != [] && t[0] == '+' then
      ScanNumber(t[1..], |t|)
    else
      ScanNumber(t, Width(f))
  }

  function Get(p: Parsed, f: Numeric): Option<int> {
    match f
    case Year => p.year
    case Month => p.month
    case Day => p.day
    case Hour => p.hour
    case Minute => p.minute
    case Second => p.second
  }

  /** chrono's `set_if_consistent`: a field already holding another value is an error. */
  function SetField(p: Parsed, f: Numeric, v: int): (r: Option<Parsed>)
    ensures r.Some? <==> Get(p, f) == None || Get(p, f) == Some(v)
    ensures r.Some? ==> Get(r.value, f) == Some(v)
  {
    if Get(p, f).Some? && Get(p, f) != Some(v) then None
    else
      Some(match f
        case Year => p.(year := Some(v))
        case Month => p.(month := Some(v))
        case Day => p.(day := Some(v))
        case Hour => p.(hour := Some(v))
        case Minute => p.(minute := Some(v))
        case Second => p.(second := Some(v)))
  }

  const MonthAbbreviations: seq<string> :=
    ["jan", "feb", "mar", "apr", "may", "jun", "jul", "aug", "sep", "oct", "nov", "dec"]

  /** `s` starts with the lower-case ASCII word `w`, compared ignoring ASCII case. */
  predicate StartsWithIgnoringCase(s: string, w: string) {
    |w| <= |s| && forall i :: 0 <= i < |w| ==> AsciiLower(s[i]) == w[i]
  }

  /** The first month, from `from` on, whose abbreviation starts `s`. */
  function FindMonth(s: string, from: nat): (m: Option<nat>)
    requires from <= 12
    ensures m.Some? ==> from <= m.value < 12 && StartsWithIgnoringCase(s, MonthAbbreviations[m.value])
    ensures m.None? ==> forall i :: from <= i < 12 ==> !StartsWithIgnoringCase(s, MonthAbbreviations[i])
    decreases 12 - from
  {
    if from == 12 then None
    else if StartsWithIgnoringCase(s, MonthAbbreviations[from]) then Some(from)
    else FindMonth(s, from + 1)
  }

  /** chrono's `short_month0`, giving the month number 1 to 12 and what follows the three letters. */
  function ScanMonthName(s: string): (r: Option<(int, string)>)
    ensures r.Some? <==> exists i :: 0 <= i < 12 && StartsWithIgnoringCase(s, MonthAbbreviations[i])
    ensures r.Some? ==> 1 <= r.value.0 <= 12 && |s| >= 3 && r.value.1 == s[3..]
    ensures r.Some? ==> StartsWithIgnoringCase(s, MonthAbbreviations[r.value.0 - 1])
  {
    if |s| < 3 then None
    else
      match FindMonth(s, 0)
      case None => None
      case Some(m0) => Some((m0 + 1, s[3..]))
  }

  function ParseItem(item: Item, s: string, p: Parsed): Option<(Parsed, string)> {
    match item
    case Lit(text) =>
      if |text| <= |s| && s[..|text|] == text then Some((p, s[|text|..])) else None
    case Space =>
      Some((p, TrimStart(s)))
    case Num(f, _) =>
      (match ScanNumeric(f, s)
       case None => None
       case Some((v, rest)) =>
         match SetField(p, f, v)
         case None => None
         case Some(q) => Some((q, rest)))
    case MonthName =>
      match ScanMonthName(s)
      case None => None
      case Some((m, rest)) =>
        match SetField(p, Month, m)
        case None => None
        case Some(q) => Some((q, rest))
  }

  /** chrono's `parse_and_remainder`: the items in order; what is left of `s` is returned. */
  function ParseAndRemainder(items: seq<Item>, s: string, p: Parsed): Option<(Parsed, string)>
    decreases |items|
  {
    if items == [] then Some((p, s))
    else
      match ParseItem(items[0], s, p)
      case None => None
      case Some((q, rest)) => ParseAndRemainder(items[1..], rest, q)
  }

  /** chrono's `parse`: like `ParseAndRemainder` from no fields, and nothing may be left over. */
  function ParseAll(items: seq<Item>, s: string): Option<Parsed> {
    match ParseAndRemainder(items, s, NoFields)
    case None => None
    case Some((p, rest)) => if rest == [] then Some(p) else None
  }

  /** `Parsed::to_naive_date`: year, month and day must all be present and form a representable date. */
  function ToNaiveDate(p: Parsed): (r: Option<Date>)
    ensures r.Some? <==> p.year.Some? && p.month.Some? && p.day.Some?
                         && MinYear <= p.year.value <= MaxYear
                         && IsValid(Date(p.year.value, p.month.value, p.day.value))
    ensures r.Some? ==> r.value == Date(p.year.value, p.month.value, p.day.value)
  {
    if p.year.None? || p.month.None? || p.day.None? then None
    else
      var d := Date(p.year.value, p.month.value, p.day.value);
      if MinYear <= d.year <= MaxYear && IsValid(d) then Some(d) else None
  }

  /** `Parsed::to_naive_datetime_with_offset(0)`: a date, an hour and a minute; the second defaults to 0. */
  function ToNaiveDateTime(p: Parsed): (r: Option<DateTime>)
    ensures r.Some? ==> IsValidDateTime(r.value) && ToNaiveDate(p) == Some(r.value.date)
  {
    match ToNaiveDate(p)
    case None => None
    case Some(d) =>
      if p.hour.None? || p.minute.None? then None
      else
        var t := DateTime(d, p.hour.value, p.minute.value, if p.second.Some? then p.second.value else 0);
        if IsValidDateTime(t) then Some(t) else None
  }

  // Formatting: the zero-padded rendering of numbers, used as the inverse the parsers are checked against.

  function Pow10(w: nat): (r: nat)
    ensures r >= 1
  {
    if w == 0 then 1 else 10 * Pow10(w - 1)
  }

  /** `n` written with exactly `w` digits, zero-padded on the left (the `%0Y`, `%m`, ... rendering). */
  function PadNumber(n: nat, w: nat): (s: string)
    ensures |s| == w && AllDigits(s)
  {
    if w == 0 then [] else PadNumber(n / 10, w - 1) + [DigitChar(n % 10)]
  }

  lemma {:induction false} PadNumberValue(n: nat, w: nat)
    requires n < Pow10(w)
    ensures DecimalValue(PadNumber(n, w)) == n
  {
    if w > 0 {
      var s, init := PadNumber(n, w), PadNumber(n / 10, w - 1);
      assert s == init + [DigitChar(n % 10)];
      assert s[..|s| - 1] == init;
      PadNumberValue(n / 10, w - 1);
      assert DecimalValue(s) == DecimalValue(init) * 10 + n % 10;
    }
  }

  /** `ds` is what a scan of at most `w` digits reads from `ds + rest`: the scan stops at `w` or at a non-digit. */
  predicate DigitRun(ds: string, rest: string, w: nat) {
    0 < |ds| <= w && AllDigits(ds) && (|ds| < w && rest != [] ==> !IsDigit(rest[0]))
  }

  lemma {:induction false} LeadingDigitsStop(ds: string, rest: string, max: nat)
    requires AllDigits(ds) && |ds| <= max
    requires |ds| < max && rest != [] ==> !IsDigit(rest[0])
    ensures LeadingDigits(ds + rest, max) == |ds|
  {
    if ds != [] {
      assert (ds + rest)[0] == ds[0];
      assert (ds + rest)[1..] == ds[1..] + rest;
      LeadingDigitsStop(ds[1..], rest, max - 1);
    }
  }

  /** A string of `k` digits is worth less than `10^k`. */
  lemma {:induction false} DecimalValueBound(s: string)
    requires AllDigits(s)
    ensures DecimalValue(s) < Pow10(|s|)
  {
    if s != [] {
      DecimalValueBound(s[..|s| - 1]);
    }
  }

  /** A digit run read by `ScanNumber` gives its value and leaves what follows. */
  lemma ScanNumberDigits(ds: string, rest: string, w: nat)
    requires DigitRun(ds, rest, w)
    ensures ScanNumber(ds + rest, w) == Some((DecimalValue(ds), rest))
  {
    var s := ds + rest;
    LeadingDigitsStop(ds, rest, w);
    assert s[..|ds|] == ds;
    assert s[|ds|..] == rest;
  }

  /** Input that starts with a digit is read by a numeric item as an unsigned number of `Width(f)` digits at most. */
  lemma ScanNumericAtDigit(f: Numeric, s: string)
    requires s != [] && IsDigit(s[0])
    ensures ScanNumeric(f, s) == ScanNumber(s, Width(f))
  {
    assert TrimStart(s) == s;
  }

  /** A run of one to `Width(f)` digits scans as its value, leaving what follows. */
  lemma ScanDigits(f: Numeric, ds: string, rest: string)
    requires DigitRun(ds, rest, Width(f))
    ensures ScanNumeric(f, ds + rest) == Some((DecimalValue(ds), rest))
  {
    assert (ds + rest)[0] == ds[0];
    ScanNumericAtDigit(f, ds + rest);
    ScanNumberDigits(ds, rest, Width(f));
  }

  /** A numeric item on a digit run stores its value and leaves what follows. */
  lemma ParseDigits(f: Numeric, pad: Pad, ds: string, rest: string, p: Parsed)
    requires DigitRun(ds, rest, Width(f)) && Get(p, f).None?
    ensures ParseItem(Num(f, pad), ds + rest, p) == Some((SetField(p, f, DecimalValue(ds)).value, rest))
  {
    ScanDigits(f, ds, rest);
  }

  /** A literal item consumes exactly its text. */
  lemma ParseLit(text: string, rest: string, p: Parsed)
    ensures ParseItem(Lit(text), text + rest, p) == Some((p, rest))
  {
    assert (text + rest)[..|text|] == text;
    assert (text + rest)[|text|..] == rest;
  }

  /** `ParseAndRemainder` takes its first item, then goes on with the rest. */
  lemma ParseStep(items: seq<Item>, s: string, p: Parsed, q: Parsed, rest: string)
    requires items != [] && ParseItem(items[0], s, p) == Some((q, rest))
    ensures ParseAndRemainder(items, s, p) == ParseAndRemainder(items[1..], rest, q)
  {
  }

  /** The same step, for a format written as its first item followed by the others. */
  lemma ParseCons(item: Item, tail: seq<Item>, s: string, p: Parsed, q: Parsed, rest: string)
    requires ParseItem(item, s, p) == Some((q, rest))
    ensures ParseAndRemainder([item] + tail, s, p) == ParseAndRemainder(tail, rest, q)
  {
    assert ([item] + tail)[0] == item;
    assert ([item] + tail)[1..] == tail;
  }

  /** `ParseAndRemainder` from item `k` on: item `k` is read, then the items after it. */
  lemma ParseAt(items: seq<Item>, k: nat, s: string, p: Parsed, q: Parsed, rest: string)
    requires k < |items| && ParseItem(items[k], s, p) == Some((q, rest))
    ensures ParseAndRemainder(items[k..], s, p) == ParseAndRemainder(items[k + 1..], rest, q)
  {
    assert items[k..][0] == items[k];
    assert items[k..][1..] == items[k + 1..];
  }

  /** A literal fails on input that does not start with its first character. */
  lemma LitFails(text: string, s: string, p: Parsed)
    requires text != [] && (s == [] || s[0] != text[0])
    ensures ParseItem(Lit(text), s, p).None?
  {
    if |text| <= |s| {
      assert s[..|text|][0] != text[0];
    }
  }

  /** An item that cannot be read makes the whole format fail from there. */
  lemma ParseFailAt(items: seq<Item>, k: nat, s: string, p: Parsed)
    requires k < |items| && ParseItem(items[k], s, p).None?
    ensures ParseAndRemainder(items[k..], s, p).None?
  {
    assert items[k..][0] == items[k];
  }

  /** A single space item skips one space before something that is not whitespace. */
  lemma TrimOneSpace(x: string)
    requires x == [] || !IsWhitespace(x[0])
    ensures TrimStart(" " + x) == x
  {
    assert (" " + x)[1..] == x;
  }

  /** No month name starts with a digit. */
  lemma MonthNameAtDigit(s: string)
    requires s != [] && IsDigit(s[0])
    ensures ScanMonthName(s).None?
  {
    assert forall i :: 0 <= i < 12 ==> 'a' <= MonthAbbreviations[i][0] <= 'z';
  }

  /** `Jan` read as a month name, whatever follows it. */
  lemma ScanJan(t: string)
    ensures ScanMonthName("Jan" + t) == Some((1, t))
  {
    var s := "Jan" + t;
    assert StartsWithIgnoringCase(s, MonthAbbreviations[0]);
    assert s[3..] == t;
  }

  /** Two formats that differ at most in their padding flags. */
  predicate SamePadding(a: seq<Item>, b: seq<Item>) {
    |a| == |b|
    && forall i :: 0 <= i < |a| ==> a[i] == b[i] || (a[i].Num? && b[i].Num? && a[i].field == b[i].field)
  }

  /** Padding flags are ignored when reading. */
  lemma {:induction false} SamePaddingSameParse(a: seq<Item>, b: seq<Item>, s: string, p: Parsed)
    requires SamePadding(a, b)
    ensures ParseAndRemainder(a, s, p) == ParseAndRemainder(b, s, p)
    decreases |a|
  {
    if a != [] {
      assert ParseItem(a[0], s, p) == ParseItem(b[0], s, p);
      assert SamePadding(a[1..], b[1..]) by {
        forall i | 0 <= i < |a[1..]|
          ensures a[1..][i] == b[1..][i] || (a[1..][i].Num? && b[1..][i].Num? && a[1..][i].field == b[1..][i].field)
        {
          assert a[1..][i] == a[i + 1] && b[1..][i] == b[i + 1];
        }
      }
      match ParseItem(a[0], s, p)
      case None =>
      case Some((q, rest)) => SamePaddingSameParse(a[1..], b[1..], rest, q);
    }
  }
}

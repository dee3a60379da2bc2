/**
 * src/util.rs: the crate's error type and the parsing of the `YYYY-MM-DD`
 * date bounds that queries may carry.
 */
module Util {
  import opened Wrappers
  import opened Calendar
  import opened Strftime

  /** The crate's error enum; the payloads of foreign errors are kept as their messages. */
  datatype Error =
    | Sqlx(message: string)
    | InvalidDate(input: string)
    | Tantivy(message: string)
    | InvalidQuery(message: string)
    | Hyper(message: string)
    | Io(message: string)
    | Generic(message: string)

  datatype Result<+T> = Ok(value: T) | Err(error: Error)

  /** `%Y-%m-%d` as chrono reads it. */
  const IsoDateFormat: seq<Item> :=
    [Num(Year, ZeroPad), Lit("-"), Num(Month, ZeroPad), Lit("-"), Num(Day, ZeroPad)]

  /** Years a date bound may name. */
  const FirstBoundYear: int := 1700
  const LastBoundYear: int := 2200

  /** `NaiveDate::parse_from_str(s, "%Y-%m-%d")`: the whole string must be consumed. */
  function ParseIsoDate(s: string): (r: Option<Date>)
    ensures r.Some? ==> IsValid(r.value)
  {
    match ParseAll(IsoDateFormat, s)
    case None => None
    case Some(p) => ToNaiveDate(p)
  }

  predicate InBoundWindow(d: Date) {
    FirstBoundYear <= d.year <= LastBoundYear
  }

  /** `parse_date`: a `YYYY-MM-DD` date bound, as the Unix seconds of its midnight in UTC. */
  function ParseDate(s: string): (r: Result<int>)
    ensures s == [] ==> r == Err(InvalidDate("empty date"))
    ensures s != [] && r.Err? ==> r.error == InvalidDate(s)
    ensures r.Ok? <==> s != [] && ParseIsoDate(s).Some? && InBoundWindow(ParseIsoDate(s).value)
    ensures r.Ok? ==> r.value % SecondsPerDay == 0
    ensures r.Ok? ==> r.value == MidnightTimestamp(ParseIsoDate(s).value)
  {
    if s == [] then Err(InvalidDate("empty date"))
    else
      match ParseIsoDate(s)
      case None => Err(InvalidDate(s))
      case Some(d) =>
        if d.year < FirstBoundYear || d.year > LastBoundYear then Err(InvalidDate(s))
        else Ok(MidnightTimestamp(d))
  }

  /** The crate's error as `thiserror` displays it: `InvalidDate` shows no input. */
  function Message(e: Error): string {
    match e
    case Sqlx(m) => "sqlx error: " + m
    case InvalidDate(_) => "date parse error"
    case Tantivy(m) => "tantivy error: " + m
    case InvalidQuery(m) => "invalid query: " + m
    case Hyper(m) => "hyper error: " + m
    case Io(m) => "io error: " + m
    case Generic(m) => "generic error: `" + m + "`"
  }

  /** A deserializer's error made by `serde::de::Error::custom`: it keeps only the displayed message. */
  datatype DeError = Custom(message: string)

  datatype DeResult<+T> = DeOk(value: T) | DeErr(error: DeError)

  /**
   * `deserialize_date`: an empty string is no bound; anything else must be a
   * valid date bound, and a bad one is reported by its message alone.
   */
  function DeserializeDate(s: string): (r: DeResult<Option<int>>)
    ensures (r.DeOk? && r.value.None?) <==> s == []
    ensures s != [] ==> (r.DeOk? <==> ParseDate(s).Ok?)
    ensures r.DeOk? && r.value.Some? ==> r.value.value == ParseDate(s).value
    ensures r.DeErr? ==> r.error == Custom(Message(ParseDate(s).error)) && r.error == Custom("date parse error")
  {
    if s == [] then DeOk(None)
    else
      match ParseDate(s)
      case Err(e) => DeErr(Custom(Message(e)))
      case Ok(t) => DeOk(Some(t))
  }

  /** `d` written as `YYYY-MM-DD`: the inverse `ParseDate` is checked against. */
  function FormatIsoDate(d: Date): (s: string)
    requires 0 <= d.year < 10000 && IsValid(d)
    ensures |s| == 10
  {
    PadNumber(d.year, 4) + "-" + PadNumber(d.month, 2) + "-" + PadNumber(d.day, 2)
  }

  /** Reading back a written date gives that date. */
  lemma ParseIsoDateOfFormatted(d: Date)
    requires 0 <= d.year < 10000 && IsValid(d)
    ensures ParseIsoDate(FormatIsoDate(d)) == Some(d)
  {
    PadNumberValue(d.year, 4);
    PadNumberValue(d.month, 2);
    PadNumberValue(d.day, 2);
    ParseIsoDateOfDigits(PadNumber(d.year, 4), PadNumber(d.month, 2), PadNumber(d.day, 2));
  }

  /** Four, two and two digits joined by dashes read as the date they spell, when it is one. */
  lemma ParseIsoDateOfDigits(y: string, m: string, dd: string)
    requires |y| == 4 && AllDigits(y) && |m| == 2 && AllDigits(m) && |dd| == 2 && AllDigits(dd)
    requires IsValid(Date(DecimalValue(y), DecimalValue(m), DecimalValue(dd)))
    ensures ParseIsoDate(y + "-" + m + "-" + dd) == Some(Date(DecimalValue(y), DecimalValue(m), DecimalValue(dd)))
  {
    var p := NoFields.(year := Some(DecimalValue(y)), month := Some(DecimalValue(m)), day := Some(DecimalValue(dd)));
    IsoParseChain(y, m, dd);
    ParseIsoDateOfFields(y + "-" + m + "-" + dd, p);
    DecimalValueBound(y);
    assert Pow10(4) == 10000;
  }

  /** Reading `y-m-dd` with the ISO format fills exactly year, month and day and consumes everything. */
  lemma IsoParseChain(y: string, m: string, dd: string)
    requires |y| == 4 && AllDigits(y) && |m| == 2 && AllDigits(m) && |dd| == 2 && AllDigits(dd)
    ensures ParseAndRemainder(IsoDateFormat, y + "-" + m + "-" + dd, NoFields)
            == Some((NoFields.(year := Some(DecimalValue(y)), month := Some(DecimalValue(m)), day := Some(DecimalValue(dd))), []))
  {
    var p1 := NoFields.(year := Some(DecimalValue(y)));
    assert y + "-" + m + "-" + dd == y + ("-" + m + "-" + dd);
    IsoYearThenTail(y, "-" + m + "-" + dd);
    IsoMonthDayTail(m, dd, p1);
  }

  /** When the ISO format consumes the whole input, the date is whatever the fields make. */
  lemma ParseIsoDateOfFields(s: string, p: Parsed)
    requires ParseAndRemainder(IsoDateFormat, s, NoFields) == Some((p, []))
    ensures ParseIsoDate(s) == ToNaiveDate(p)
  {
  }

  /** The `%Y` head of the ISO format reads a four-digit year and hands the rest to the tail. */
  lemma IsoYearThenTail(y: string, tail: string)
    requires |y| == 4 && AllDigits(y)
    ensures ParseAndRemainder(IsoDateFormat, y + tail, NoFields)
            == ParseAndRemainder(IsoDateFormat[1..], tail, NoFields.(year := Some(DecimalValue(y))))
  {
    ParseDigits(Year, ZeroPad, y, tail, NoFields);
    ParseStep(IsoDateFormat, y + tail, NoFields, NoFields.(year := Some(DecimalValue(y))), tail);
  }

  /** The `-%d` tail of the ISO format reads back a two-digit day. */
  lemma IsoDayTail(dd: string, p2: Parsed)
    requires |dd| == 2 && AllDigits(dd) && p2.day.None?
    ensures ParseAndRemainder([Lit("-")] + [Num(Day, ZeroPad)], "-" + dd, p2)
            == Some((p2.(day := Some(DecimalValue(dd))), []))
  {
    var p3 := p2.(day := Some(DecimalValue(dd)));
    assert dd + [] == dd;
    ParseDigits(Day, ZeroPad, dd, [], p2);
    ParseCons(Num(Day, ZeroPad), [], dd, p2, p3, []);
    ParseLit("-", dd, p2);
    ParseCons(Lit("-"), [Num(Day, ZeroPad)], "-" + dd, p2, p2, dd);
  }

  /** What follows `%Y` in the ISO format, written item by item. */
  lemma IsoFormatTail()
    ensures IsoDateFormat[1..] == [Lit("-")] + ([Num(Month, ZeroPad)] + ([Lit("-")] + [Num(Day, ZeroPad)]))
  {
  }

  /** The `%m` of the ISO tail reads two digits and leaves the `-%d` part. */
  lemma IsoMonthStep(m: string, dd: string, p1: Parsed)
    requires |m| == 2 && AllDigits(m) && p1.month.None?
    ensures ParseAndRemainder([Num(Month, ZeroPad)] + ([Lit("-")] + [Num(Day, ZeroPad)]), m + ("-" + dd), p1)
            == ParseAndRemainder([Lit("-")] + [Num(Day, ZeroPad)], "-" + dd, p1.(month := Some(DecimalValue(m))))
  {
    ParseDigits(Month, ZeroPad, m, "-" + dd, p1);
    ParseCons(Num(Month, ZeroPad), [Lit("-")] + [Num(Day, ZeroPad)], m + ("-" + dd), p1,
              p1.(month := Some(DecimalValue(m))), "-" + dd);
  }

  /** The `-%m-%d` tail of the ISO format reads back two-digit month and day fields. */
  lemma IsoMonthDayTail(m: string, dd: string, p1: Parsed)
    requires |m| == 2 && AllDigits(m) && |dd| == 2 && AllDigits(dd)
    requires p1.month.None? && p1.day.None?
    ensures ParseAndRemainder(IsoDateFormat[1..], "-" + m + "-" + dd, p1)
            == Some((p1.(month := Some(DecimalValue(m)), day := Some(DecimalValue(dd))), []))
  {
    var dash, month := Lit("-"), Num(Month, ZeroPad);
    var dayTail := [dash] + [Num(Day, ZeroPad)];
    var p2 := p1.(month := Some(DecimalValue(m)));
    calc {
      ParseAndRemainder(IsoDateFormat[1..], "-" + m + "-" + dd, p1);
      { IsoFormatTail(); assert "-" + m + "-" + dd == "-" + (m + ("-" + dd)); }
      ParseAndRemainder([dash] + ([month] + dayTail), "-" + (m + ("-" + dd)), p1);
      { ParseLit("-", m + ("-" + dd), p1);
        ParseCons(dash, [month] + dayTail, "-" + (m + ("-" + dd)), p1, p1, m + ("-" + dd)); }
      ParseAndRemainder([month] + dayTail, m + ("-" + dd), p1);
      { IsoMonthStep(m, dd, p1); }
      ParseAndRemainder(dayTail, "-" + dd, p2);
      { IsoDayTail(dd, p2); }
      Some((p2.(day := Some(DecimalValue(dd))), []));
    }
  }

  /** Every date in the window, written as `YYYY-MM-DD`, is accepted as the Unix seconds of its midnight. */
  lemma ParseDateOfFormatted(d: Date)
    requires IsValid(d) && InBoundWindow(d)
    ensures ParseDate(FormatIsoDate(d)) == Ok(MidnightTimestamp(d))
  {
    ParseIsoDateOfFormatted(d);
  }

  /** Accepted bounds are ordered as the dates they name, and distinct dates give distinct bounds. */
  lemma ParseDateOrdered(s1: string, s2: string)
    requires ParseDate(s1).Ok? && ParseDate(s2).Ok?
    requires Before(ParseIsoDate(s1).value, ParseIsoDate(s2).value)
    ensures ParseDate(s1).value < ParseDate(s2).value
  {
    var d1, d2 := ParseIsoDate(s1).value, ParseIsoDate(s2).value;
    DaysFromCivilStrictlyIncreasing(d1, d2);
  }

  /** Years outside 1700..2200 are refused even when the date itself is fine. */
  lemma ParseDateRejectsOutsideWindow(d: Date)
    requires IsValid(d) && 0 <= d.year < 10000 && !InBoundWindow(d)
    ensures ParseDate(FormatIsoDate(d)) == Err(InvalidDate(FormatIsoDate(d)))
  {
    ParseIsoDateOfFormatted(d);
  }
}

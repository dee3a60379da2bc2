/**
 * src/page.rs: a wiki page as the indexer sees it, its MediaWiki namespace,
 * the date a title may start with, the page's last-touched timestamp and the
 * page's URL.
 */
module Page {
  import opened Wrappers
  import opened Chars
  import opened Calendar
  import opened Strftime
  import opened Util

  newtype Int32 = x: int | -0x8000_0000 <= x < 0x8000_0000
  newtype Int64 = x: int | -0x8000_0000_0000_0000 <= x < 0x8000_0000_0000_0000

  // ---------------------------------------------------------------------
  // Namespaces

  datatype Namespace =
    | Main | User | File | Template | Category | Special | MediaWiki | Help | Module
    | MainTalk | UserTalk | FileTalk | TemplateTalk | CategoryTalk | MediaWikiTalk | HelpTalk | ModuleTalk
    | Media
    | Other(code: Int32)

  /** The namespace codes the conversion knows by name. */
  const ListedCodes: set<Int32> :=
    {0, 2, 4, 6, 8, 10, 12, 14, 1, 3, 5, 7, 9, 11, 13, 15, 828, 829, -1, -2}

  /** `Namespace::from(i32)`: the code table; any code it does not list is kept as `Other`. */
  function NamespaceFromCode(code: Int32): (ns: Namespace)
    ensures ns.Other? <==> code !in ListedCodes
    ensures ns.Other? ==> ns.code == code
  {
    if code == 0 then Main
    else if code == 2 then User
    else if code == 4 then Template
    else if code == 6 then File
    else if code == 8 then MediaWiki
    else if code == 10 then Template
    else if code == 12 then Help
    else if code == 14 then Category
    else if code == 1 then MainTalk
    else if code == 3 then UserTalk
    else if code == 5 then TemplateTalk
    else if code == 7 then FileTalk
    else if code == 9 then MediaWikiTalk
    else if code == 11 then TemplateTalk
    else if code == 13 then HelpTalk
    else if code == 15 then CategoryTalk
    else if code == 828 then Module
    else if code == 829 then ModuleTalk
    else if code == -1 then Special
    else if code == -2 then Media
    else Other(code)
  }

  /** The codes that are read as `ns`: the table read from right to left. */
  function CodesOf(ns: Namespace): set<Int32> {
    match ns
    case Main => {0}
    case User => {2}
    case File => {6}
    case Template => {4, 10}
    case Category => {14}
    case Special => {-1}
    case MediaWiki => {8}
    case Help => {12}
    case Module => {828}
    case MainTalk => {1}
    case UserTalk => {3}
    case FileTalk => {7}
    case TemplateTalk => {5, 11}
    case CategoryTalk => {15}
    case MediaWikiTalk => {9}
    case HelpTalk => {13}
    case ModuleTalk => {829}
    case Media => {-2}
    case Other(c) => if c in ListedCodes then {} else {c}
  }

  /** A code is read as `ns` exactly when it is one of the codes of `ns`. */
  lemma NamespaceFromCodeIff(code: Int32, ns: Namespace)
    ensures NamespaceFromCode(code) == ns <==> code in CodesOf(ns)
  {
  }

  /** Codes 4 and 10 both read as `Template`, 5 and 11 both as `TemplateTalk`. */
  lemma TemplateCodesCollide()
    ensures NamespaceFromCode(4) == NamespaceFromCode(10) == Template
    ensures NamespaceFromCode(5) == NamespaceFromCode(11) == TemplateTalk
  {
    NamespaceFromCodeIff(4, Template);
    NamespaceFromCodeIff(10, Template);
    NamespaceFromCodeIff(5, TemplateTalk);
    NamespaceFromCodeIff(11, TemplateTalk);
  }

  /** `Namespace::to_prefix`: the title prefix of the namespace in a page URL. */
  function ToPrefix(ns: Namespace): (p: string)
    ensures p == [] <==> ns == Main
    ensures ns.Other? ==> p == "Unknown"
    ensures ns != Main && !ns.Other? ==> p[|p| - 1] == ':'
  {
    match ns
    case Main => ""
    case User => "User:"
    case File => "File:"
    case Template => "Template:"
    case Category => "Category:"
    case Special => "Special:"
    case MediaWiki => "MediaWiki:"
    case Help => "Help:"
    case Module => "Module:"
    case MainTalk => "Talk:"
    case UserTalk => "User_talk:"
    case FileTalk => "File_talk:"
    case TemplateTalk => "Template_talk:"
    case CategoryTalk => "Category_talk:"
    case MediaWikiTalk => "MediaWiki_talk:"
    case HelpTalk => "Help_talk:"
    case ModuleTalk => "Module_talk:"
    case Media => "Media:"
    case Other(_) => "Unknown"
  }

  /** Which named namespace a prefix belongs to: the inverse of `ToPrefix`. */
  function NamespaceOfPrefix(p: string): Option<Namespace> {
    if p == "" then Some(Main)
    else if p == "User:" then Some(User)
    else if p == "File:" then Some(File)
    else if p == "Template:" then Some(Template)
    else if p == "Category:" then Some(Category)
    else if p == "Special:" then Some(Special)
    else if p == "MediaWiki:" then Some(MediaWiki)
    else if p == "Help:" then Some(Help)
    else if p == "Module:" then Some(Module)
    else if p == "Talk:" then Some(MainTalk)
    else if p == "User_talk:" then Some(UserTalk)
    else if p == "File_talk:" then Some(FileTalk)
    else if p == "Template_talk:" then Some(TemplateTalk)
    else if p == "Category_talk:" then Some(CategoryTalk)
    else if p == "MediaWiki_talk:" then Some(MediaWikiTalk)
    else if p == "Help_talk:" then Some(HelpTalk)
    else if p == "Module_talk:" then Some(ModuleTalk)
    else if p == "Media:" then Some(Media)
    else None
  }

  /** Every named namespace has its own prefix. */
  lemma PrefixRoundTrip(ns: Namespace)
    requires !ns.Other?
    ensures NamespaceOfPrefix(ToPrefix(ns)) == Some(ns)
  {
    var p := ToPrefix(ns);
    if |p| <= 5 {
      assert ns in {Main, User, File, Help, MainTalk};
    } else if |p| <= 9 {
      assert ns in {Template, Category, Special, Module, Media};
    } else {
      assert ns in {MediaWiki, UserTalk, FileTalk, TemplateTalk, CategoryTalk, MediaWikiTalk, HelpTalk, ModuleTalk};
    }
  }

  lemma PrefixInjective(a: Namespace, b: Namespace)
    requires !a.Other? && !b.Other? && ToPrefix(a) == ToPrefix(b)
    ensures a == b
  {
    PrefixRoundTrip(a);
    PrefixRoundTrip(b);
  }

  /** The decimal digits of a natural number, most significant first, without leading zeros. */
  function NatDigits(n: nat): (s: string)
    ensures s != [] && AllDigits(s)
    ensures |s| > 1 ==> s[0] != '0'
  {
    if n < 10 then [DigitChar(n)] else NatDigits(n / 10) + [DigitChar(n % 10)]
  }

  lemma {:induction false} NatDigitsValue(n: nat)
    ensures DecimalValue(NatDigits(n)) == n
  {
    var s := NatDigits(n);
    if n >= 10 {
      NatDigitsValue(n / 10);
      assert s[..|s| - 1] == NatDigits(n / 10);
    }
  }

  /** `i32`'s `Display`: an optional minus sign, then the digits. */
  function DecimalString(n: int): (s: string)
    ensures s != []
  {
    if n < 0 then "-" + NatDigits(-n) else NatDigits(n)
  }

  /**
   * The namespace as `derive_more::Display` writes it: a named namespace by
   * its variant name, `Other` by its code.
   */
  function NamespaceName(ns: Namespace): (name: string)
    ensures name != []
    ensures ns.Other? <==> IsDigit(name[0]) || name[0] == '-'
  {
    match ns
    case Main => "Main"
    case User => "User"
    case File => "File"
    case Template => "Template"
    case Category => "Category"
    case Special => "Special"
    case MediaWiki => "MediaWiki"
    case Help => "Help"
    case Module => "Module"
    case MainTalk => "MainTalk"
    case UserTalk => "UserTalk"
    case FileTalk => "FileTalk"
    case TemplateTalk => "TemplateTalk"
    case CategoryTalk => "CategoryTalk"
    case MediaWikiTalk => "MediaWikiTalk"
    case HelpTalk => "HelpTalk"
    case ModuleTalk => "ModuleTalk"
    case Media => "Media"
    case Other(code) => DecimalString(code as int)
  }

  /** The code of an `Other` namespace can be read back from its name. */
  lemma OtherNameValue(code: Int32)
    ensures var name := NamespaceName(Other(code));
            if code < 0 then name[0] == '-' && AllDigits(name[1..]) && DecimalValue(name[1..]) == -(code as int)
            else AllDigits(name) && DecimalValue(name) == code as int
  {
    if code < 0 {
      NatDigitsValue(-(code as int));
      assert NamespaceName(Other(code))[1..] == NatDigits(-(code as int));
    } else {
      NatDigitsValue(code as int);
    }
  }
  /** Distinct namespaces have distinct display names, so the index's namespace field tells them apart. */
  lemma NamespaceNameInjective(a: Namespace, b: Namespace)
    requires NamespaceName(a) == NamespaceName(b)
    ensures a == b
  {
    if a.Other? && b.Other? {
      OtherNameValue(a.code);
      OtherNameValue(b.code);
    }
  }


  // ---------------------------------------------------------------------
  // Title dates

  /** A date that exists in the proleptic Gregorian calendar (what chrono's `NaiveDate` holds). */
  type CivilDate = d: Date | IsValid(d) witness Date(1970, 1, 1)

  /** The date a title starts with, if any. */
  datatype TitleDate = TitleDate(date: Option<CivilDate>)

  /** `%b %-d, %Y`, as in `Jan 2, 2023`. */
  const MonthDayYear: seq<Item> := [MonthName, Space, Num(Day, NoPad), Lit(","), Space, Num(Year, ZeroPad)]
  /** `%b %0d, %Y`, as in `Jan 02, 2023`. */
  const MonthPaddedDayYear: seq<Item> := [MonthName, Space, Num(Day, ZeroPad), Lit(","), Space, Num(Year, ZeroPad)]
  /** `%Y年%m月%d日`. */
  const CjkDate: seq<Item> := [Num(Year, ZeroPad), Lit("年"), Num(Month, ZeroPad), Lit("月"), Num(Day, ZeroPad), Lit("日")]
  /** `%Y-%m`, as in `2023-01`. */
  const YearMonth: seq<Item> := [Num(Year, ZeroPad), Lit("-"), Num(Month, ZeroPad)]
  /** `%Y %b`, as in `2023 Jan`. */
  const YearMonthName: seq<Item> := [Num(Year, ZeroPad), Space, MonthName]
  /** `%Y`, as in `2023`. */
  const YearOnly: seq<Item> := [Num(Year, ZeroPad)]

  /** The title formats, in the order they are tried. */
  const TitleDateFormats: seq<seq<Item>> :=
    [MonthDayYear, MonthPaddedDayYear, IsoDateFormat, CjkDate, YearMonth, YearMonthName, YearOnly]

  /** Years a title date may have: those whose nanosecond timestamps fit in an `i64`. */
  const TitleFirstYear: int := 1678
  const TitleLastYear: int := 2262

  predicate InTitleWindow(year: int) {
    TitleFirstYear <= year <= TitleLastYear
  }

  /** `str::replace('_', " ")`: every underscore becomes a space, everything else stays. */
  function ReplaceUnderscores(s: string): (r: string)
    ensures |r| == |s|
    ensures forall i :: 0 <= i < |s| ==> r[i] == (if s[i] == '_' then ' ' else s[i])
  {
    if s == [] then [] else [if s[0] == '_' then ' ' else s[0]] + ReplaceUnderscores(s[1..])
  }

  /** A title without underscores is parsed as it is. */
  lemma ReplaceUnderscoresNone(s: string)
    requires '_' !in s
    ensures ReplaceUnderscores(s) == s
  {
  }

  /** `get_or_insert(1)` on the month and on the day. */
  function DefaultOne(field: Option<int>): (v: int)
    ensures field.Some? ==> v == field.value
    ensures field.None? ==> v == 1
  {
    if field.Some? then field.value else 1
  }

  /** The fields a format read give the date `d`, a missing month or day counting as 1. */
  predicate ReadsAs(p: Parsed, d: Date) {
    p.year == Some(d.year) && d.month == DefaultOne(p.month) && d.day == DefaultOne(p.day)
  }

  /** The fields a format read give a year in the window that, with the defaults, names a real date. */
  predicate NamesTitleDate(p: Parsed) {
    p.year.Some? && InTitleWindow(p.year.value) && IsValid(Date(p.year.value, DefaultOne(p.month), DefaultOne(p.day)))
  }

  /**
   * One iteration of the format loop as a value: read a prefix of `value`
   * with `format`, default month and day to 1, then keep the date only when
   * the year is in the title window and the date exists.
   */
  function TryFormat(format: seq<Item>, value: string): (r: Option<CivilDate>)
    ensures r.Some? ==> InTitleWindow(r.value.year)
    ensures r.Some? ==> ParseAndRemainder(format, value, NoFields).Some?
    ensures r.Some? ==> ReadsAs(ParseAndRemainder(format, value, NoFields).value.0, r.value)
  {
    match ParseAndRemainder(format, value, NoFields)
    case None => None
    case Some((p, _)) =>
      var q := p.(month := Some(DefaultOne(p.month)), day := Some(DefaultOne(p.day)));
      if q.year.None? || !InTitleWindow(q.year.value) then None
      else ToNaiveDate(q)
  }

  /** A format succeeds exactly when it reads a year in the window that, with the defaults, names a real date. */
  lemma TryFormatIff(format: seq<Item>, value: string)
    ensures TryFormat(format, value).Some? <==>
              ParseAndRemainder(format, value, NoFields).Some?
              && NamesTitleDate(ParseAndRemainder(format, value, NoFields).value.0)
  {
  }

  /** The first format that yields a date decides; `None` when none does. */
  function FirstDate(formats: seq<seq<Item>>, value: string): (r: Option<CivilDate>)
    ensures r.Some? ==> InTitleWindow(r.value.year)
    ensures r.None? <==> forall i :: 0 <= i < |formats| ==> TryFormat(formats[i], value).None?
    decreases |formats|
  {
    if formats == [] then None
    else
      match TryFormat(formats[0], value)
      case Some(d) => Some(d)
      case None => FirstDate(formats[1..], value)
  }

  /** A success at `k` after failures before it is what `FirstDate` returns. */
  lemma {:induction false} FirstDateIsFirstSuccess(formats: seq<seq<Item>>, value: string, k: nat)
    requires k < |formats| && TryFormat(formats[k], value).Some?
    requires forall j :: 0 <= j < k ==> TryFormat(formats[j], value).None?
    ensures FirstDate(formats, value) == TryFormat(formats[k], value)
  {
    if k > 0 {
      assert TryFormat(formats[0], value).None?;
      assert formats[1..][k - 1] == formats[k];
      FirstDateIsFirstSuccess(formats[1..], value, k - 1);
    }
  }

  /** Conversely, a date from `FirstDate` comes from some format, and every format before it failed. */
  lemma {:induction false} FirstDateHasFirstSuccess(formats: seq<seq<Item>>, value: string)
    requires FirstDate(formats, value).Some?
    ensures exists k :: 0 <= k < |formats| && TryFormat(formats[k], value) == FirstDate(formats, value)
                        && forall j :: 0 <= j < k ==> TryFormat(formats[j], value).None?
  {
    if TryFormat(formats[0], value).None? {
      var rest := formats[1..];
      assert FirstDate(formats, value) == FirstDate(rest, value);
      FirstDateHasFirstSuccess(rest, value);
      var k :| 0 <= k < |rest| && TryFormat(rest[k], value) == FirstDate(rest, value)
               && forall j :: 0 <= j < k ==> TryFormat(rest[j], value).None?;
      FailuresShift(formats, value, k);
      assert formats[k + 1] == rest[k];
    } else {
      assert TryFormat(formats[0], value) == FirstDate(formats, value);
    }
  }

  /** Failures of the first format and of the `k` after it are the failures of the first `k + 1`. */
  lemma FailuresShift(formats: seq<seq<Item>>, value: string, k: nat)
    requires k < |formats| && TryFormat(formats[0], value).None?
    requires forall j :: 0 <= j < k ==> TryFormat(formats[1..][j], value).None?
    ensures forall j :: 0 <= j < k + 1 ==> TryFormat(formats[j], value).None?
  {
    forall j | 0 <= j < k + 1
      ensures TryFormat(formats[j], value).None?
    {
      if j > 0 {
        assert formats[j] == formats[1..][j - 1];
      }
    }
  }

  /** A format that fails hands the title on to the next one. */
  lemma FirstDateSkip(formats: seq<seq<Item>>, k: nat, value: string)
    requires k < |formats| && TryFormat(formats[k], value).None?
    ensures FirstDate(formats[k..], value) == FirstDate(formats[k + 1..], value)
  {
    assert formats[k..][0] == formats[k] && formats[k..][1..] == formats[k + 1..];
  }

  /** A format that succeeds decides. */
  lemma FirstDateHit(formats: seq<seq<Item>>, k: nat, value: string)
    requires k < |formats| && TryFormat(formats[k], value).Some?
    ensures FirstDate(formats[k..], value) == TryFormat(formats[k], value)
  {
    assert formats[k..][0] == formats[k];
  }

  /**
   * The loop of `TitleDate::try_from` over the formats: each is tried on a
   * fresh set of fields, any step that fails moves on to the next format,
   * and the first date found is returned at once.
   */
  method FirstDateLoop(formats: seq<seq<Item>>, v: string) returns (found: Option<CivilDate>)
    ensures found == FirstDate(formats, v)
  {
    var i := 0;
    while i < |formats|
      invariant 0 <= i <= |formats|
      invariant FirstDate(formats, v) == FirstDate(formats[i..], v)
    {
      var format := formats[i];
      assert formats[i..][0] == format && formats[i..][1..] == formats[i + 1..];
      var res := ParseAndRemainder(format, v, NoFields);
      if res.None? {
        i := i + 1;
        continue;
      }
      var parsed := res.value.0;
      if parsed.month.None? {
        parsed := parsed.(month := Some(1));
      }
      if parsed.day.None? {
        parsed := parsed.(day := Some(1));
      }
      if parsed.year.None? {
        i := i + 1;
        continue;
      }
      var year := parsed.year.value;
      if !(TitleFirstYear <= year <= TitleLastYear) {
        i := i + 1;
        continue;
      }
      var date := ToNaiveDate(parsed);
      if date.None? {
        i := i + 1;
        continue;
      }
      return Some(date.value);
    }
    return None;
  }

  /**
   * `TitleDate::try_from`: the formats are tried in order on the title with
   * underscores replaced; the first one that gives a date in the window wins,
   * and finding none is not an error.
   */
  method TitleDateFromString(value: string) returns (r: Result<TitleDate>)
    ensures r == Ok(TitleDate(FirstDate(TitleDateFormats, ReplaceUnderscores(value))))
  {
    var v := ReplaceUnderscores(value);
    var found := FirstDateLoop(TitleDateFormats, v);
    return Ok(TitleDate(found));
  }

  /** `%b %-d, %Y` and `%b %0d, %Y` differ only in padding, which reading ignores, so they accept the same titles. */
  lemma PaddedDayFormatRedundant(value: string)
    ensures TryFormat(MonthPaddedDayYear, value) == TryFormat(MonthDayYear, value)
  {
    SamePaddingSameParse(MonthPaddedDayYear, MonthDayYear, value, NoFields);
  }

  // Reading the titles of the formats' own examples.

  /** A format that opens with a month name rejects a title that opens with a digit. */
  lemma MonthNameFormatAtDigit(format: seq<Item>, value: string)
    requires format != [] && format[0] == MonthName && value != [] && IsDigit(value[0])
    ensures TryFormat(format, value).None?
  {
    MonthNameAtDigit(value);
    ParseFailAt(format, 0, value, NoFields);
    assert format[0..] == format;
  }

  /** A format that opens with `%Y` reads four digits as the year and goes on with the rest. */
  lemma YearHead(format: seq<Item>, ys: string, rest: string)
    requires format != [] && format[0] == Num(Year, ZeroPad) && |ys| == 4 && AllDigits(ys)
    ensures ParseAndRemainder(format, ys + rest, NoFields)
            == ParseAndRemainder(format[1..], rest, NoFields.(year := Some(DecimalValue(ys))))
  {
    ParseDigits(Year, ZeroPad, ys, rest, NoFields);
    ParseStep(format, ys + rest, NoFields, NoFields.(year := Some(DecimalValue(ys))), rest);
  }

  /** `Jan ` read with `%b ` sets month 1 and stops at the day. */
  lemma MonthDayYearHead(t: string)
    requires t != [] && IsDigit(t[0])
    ensures ParseAndRemainder(MonthDayYear, "Jan" + (" " + t), NoFields)
            == ParseAndRemainder(MonthDayYear[2..], t, NoFields.(month := Some(1)))
  {
    var F := MonthDayYear;
    var p1 := NoFields.(month := Some(1));
    calc {
      ParseAndRemainder(F, "Jan" + (" " + t), NoFields);
      { MonthDayYearJan(" " + t); }
      ParseAndRemainder(F[1..], " " + t, p1);
      { TrimOneSpace(t); ParseAt(F, 1, " " + t, p1, p1, t); }
      ParseAndRemainder(F[2..], t, p1);
    }
  }

  /** `%b` reads `Jan` as month 1. */
  lemma MonthDayYearJan(u: string)
    requires u != [] && u[0] == ' '
    ensures ParseAndRemainder(MonthDayYear, "Jan" + u, NoFields)
            == ParseAndRemainder(MonthDayYear[1..], u, NoFields.(month := Some(1)))
  {
    var F := MonthDayYear;
    assert F[0..] == F;
    ScanJan(u);
    ParseAt(F, 0, "Jan" + u, NoFields, NoFields.(month := Some(1)), u);
  }

  /** `d, yyyy` read with `%-d, %Y` sets the day and the year and leaves what follows the year. */
  lemma MonthDayYearTail(ds: string, ys: string, rest: string, p1: Parsed)
    requires 0 < |ds| <= 2 && AllDigits(ds) && |ys| == 4 && AllDigits(ys)
    requires p1.day.None? && p1.year.None?
    ensures ParseAndRemainder(MonthDayYear[2..], ds + ("," + (" " + (ys + rest))), p1)
            == Some((p1.(day := Some(DecimalValue(ds)), year := Some(DecimalValue(ys))), rest))
  {
    var F := MonthDayYear;
    var t2 := "," + (" " + (ys + rest));
    var p2 := p1.(day := Some(DecimalValue(ds)));
    var p3 := p2.(year := Some(DecimalValue(ys)));
    calc {
      ParseAndRemainder(F[2..], ds + t2, p1);
      { ParseDigits(Day, NoPad, ds, t2, p1); ParseAt(F, 2, ds + t2, p1, p2, t2); }
      ParseAndRemainder(F[3..], t2, p2);
      { ParseLit(",", " " + (ys + rest), p2); ParseAt(F, 3, t2, p2, p2, " " + (ys + rest)); }
      ParseAndRemainder(F[4..], " " + (ys + rest), p2);
      { assert (ys + rest)[0] == ys[0]; TrimOneSpace(ys + rest); ParseAt(F, 4, " " + (ys + rest), p2, p2, ys + rest); }
      ParseAndRemainder(F[5..], ys + rest, p2);
      { ParseDigits(Year, ZeroPad, ys, rest, p2); ParseAt(F, 5, ys + rest, p2, p3, rest); }
      ParseAndRemainder(F[6..], rest, p3);
      { assert F[6..] == []; }
      Some((p3, rest));
    }
  }

  /** `Jan d, yyyy` read with `%b %-d, %Y`: month 1, the day and the year, with anything after the year left over. */
  lemma MonthDayYearReads(ds: string, ys: string, rest: string)
    requires 0 < |ds| <= 2 && AllDigits(ds) && |ys| == 4 && AllDigits(ys)
    ensures ParseAndRemainder(MonthDayYear, "Jan" + (" " + (ds + ("," + (" " + (ys + rest))))), NoFields)
            == Some((Parsed(Some(DecimalValue(ys)), Some(1), Some(DecimalValue(ds)), None, None, None), rest))
  {
    var t := ds + ("," + (" " + (ys + rest)));
    assert t[0] == ds[0];
    MonthDayYearHead(t);
    MonthDayYearTail(ds, ys, rest, NoFields.(month := Some(1)));
  }

  /** A title `Jan d, yyyy...` names January `d` of that year, whatever follows. */
  lemma MonthDayYearTitle(ds: string, ys: string, rest: string)
    requires 0 < |ds| <= 2 && AllDigits(ds) && |ys| == 4 && AllDigits(ys)
    requires InTitleWindow(DecimalValue(ys)) && IsValid(Date(DecimalValue(ys), 1, DecimalValue(ds)))
    ensures FirstDate(TitleDateFormats, "Jan" + (" " + (ds + ("," + (" " + (ys + rest))))))
            == Some(Date(DecimalValue(ys), 1, DecimalValue(ds)))
  {
    var v := "Jan" + (" " + (ds + ("," + (" " + (ys + rest)))));
    MonthDayYearReads(ds, ys, rest);
    assert TryFormat(MonthDayYear, v) == Some(Date(DecimalValue(ys), 1, DecimalValue(ds)));
    FirstDateIsFirstSuccess(TitleDateFormats, v, 0);
  }

  /** `yyyy-mm` is not an ISO date: the second dash is missing. */
  lemma IsoFailsOnYearMonth(ys: string, ms: string)
    requires |ys| == 4 && AllDigits(ys) && |ms| == 2 && AllDigits(ms)
    ensures ParseAndRemainder(IsoDateFormat, ys + ("-" + ms), NoFields).None?
  {
    var F := IsoDateFormat;
    var p1 := NoFields.(year := Some(DecimalValue(ys)));
    var p2 := p1.(month := Some(DecimalValue(ms)));
    calc {
      ParseAndRemainder(F, ys + ("-" + ms), NoFields);
      { YearHead(F, ys, "-" + ms); }
      ParseAndRemainder(F[1..], "-" + ms, p1);
      { ParseLit("-", ms, p1); ParseAt(F, 1, "-" + ms, p1, p1, ms); }
      ParseAndRemainder(F[2..], ms, p1);
      { assert ms + [] == ms; ParseDigits(Month, ZeroPad, ms, [], p1); ParseAt(F, 2, ms, p1, p2, []); }
      ParseAndRemainder(F[3..], [], p2);
    }
    ParseFailAt(F, 3, [], p2);
  }

  /** Without `年` after the year the CJK format fails. */
  lemma CjkFailsAfterYear(ys: string, rest: string)
    requires |ys| == 4 && AllDigits(ys) && (rest == [] || rest[0] != '年')
    ensures ParseAndRemainder(CjkDate, ys + rest, NoFields).None?
  {
    var p1 := NoFields.(year := Some(DecimalValue(ys)));
    YearHead(CjkDate, ys, rest);
    assert CjkDate[1] == Lit("年");
    LitFails("年", rest, p1);
    ParseFailAt(CjkDate, 1, rest, p1);
  }

  /** `yyyy-mm` read with `%Y-%m`. */
  lemma YearMonthReads(ys: string, ms: string)
    requires |ys| == 4 && AllDigits(ys) && |ms| == 2 && AllDigits(ms)
    ensures ParseAndRemainder(YearMonth, ys + ("-" + ms), NoFields)
            == Some((Parsed(Some(DecimalValue(ys)), Some(DecimalValue(ms)), None, None, None, None), []))
  {
    var F := YearMonth;
    var p1 := NoFields.(year := Some(DecimalValue(ys)));
    var p2 := p1.(month := Some(DecimalValue(ms)));
    calc {
      ParseAndRemainder(F, ys + ("-" + ms), NoFields);
      { YearHead(F, ys, "-" + ms); }
      ParseAndRemainder(F[1..], "-" + ms, p1);
      { ParseLit("-", ms, p1); ParseAt(F, 1, "-" + ms, p1, p1, ms); }
      ParseAndRemainder(F[2..], ms, p1);
      { assert ms + [] == ms; ParseDigits(Month, ZeroPad, ms, [], p1); ParseAt(F, 2, ms, p1, p2, []); }
      ParseAndRemainder(F[3..], [], p2);
      { assert F[3..] == []; }
      Some((p2, []));
    }
  }

  /** A title that starts with a digit skips the two month-name formats. */
  lemma SkipMonthNameFormats(v: string)
    requires v != [] && IsDigit(v[0])
    ensures FirstDate(TitleDateFormats, v) == FirstDate(TitleDateFormats[2..], v)
  {
    var F := TitleDateFormats;
    calc {
      FirstDate(F, v);
      { assert F[0..] == F; }
      FirstDate(F[0..], v);
      { MonthNameFormatAtDigit(MonthDayYear, v); FirstDateSkip(F, 0, v); }
      FirstDate(F[1..], v);
      { MonthNameFormatAtDigit(MonthPaddedDayYear, v); FirstDateSkip(F, 1, v); }
      FirstDate(F[2..], v);
    }
  }

  /** A title `yyyy-mm` names the first of that month: the earlier formats all fail on it. */
  lemma YearMonthTitle(ys: string, ms: string)
    requires |ys| == 4 && AllDigits(ys) && |ms| == 2 && AllDigits(ms)
    requires InTitleWindow(DecimalValue(ys)) && 1 <= DecimalValue(ms) <= 12
    ensures FirstDate(TitleDateFormats, ys + ("-" + ms)) == Some(Date(DecimalValue(ys), DecimalValue(ms), 1))
  {
    var v := ys + ("-" + ms);
    var F := TitleDateFormats;
    assert v[0] == ys[0];
    calc {
      FirstDate(F, v);
      { SkipMonthNameFormats(v); }
      FirstDate(F[2..], v);
      { IsoFailsOnYearMonth(ys, ms); FirstDateSkip(F, 2, v); }
      FirstDate(F[3..], v);
      { YearMonthTitleTail(ys, ms); }
      Some(Date(DecimalValue(ys), DecimalValue(ms), 1));
    }
  }

  /** `%Y-%m` reads `yyyy-mm` as the first of that month. */
  lemma YearMonthTry(ys: string, ms: string)
    requires |ys| == 4 && AllDigits(ys) && |ms| == 2 && AllDigits(ms)
    requires InTitleWindow(DecimalValue(ys)) && 1 <= DecimalValue(ms) <= 12
    ensures TryFormat(YearMonth, ys + ("-" + ms)) == Some(Date(DecimalValue(ys), DecimalValue(ms), 1))
  {
    YearMonthReads(ys, ms);
  }

  /** The formats from `%Y年%m月%d日` on, on a title `yyyy-mm`: `%Y-%m` is the first to accept it. */
  lemma YearMonthTitleTail(ys: string, ms: string)
    requires |ys| == 4 && AllDigits(ys) && |ms| == 2 && AllDigits(ms)
    requires InTitleWindow(DecimalValue(ys)) && 1 <= DecimalValue(ms) <= 12
    ensures FirstDate(TitleDateFormats[3..], ys + ("-" + ms)) == Some(Date(DecimalValue(ys), DecimalValue(ms), 1))
  {
    var v := ys + ("-" + ms);
    var F := TitleDateFormats;
    calc {
      FirstDate(F[3..], v);
      { assert ("-" + ms)[0] == '-'; CjkFailsAfterYear(ys, "-" + ms); FirstDateSkip(F, 3, v); }
      FirstDate(F[4..], v);
      { YearMonthTry(ys, ms); FirstDateHit(F, 4, v); }
      Some(Date(DecimalValue(ys), DecimalValue(ms), 1));
    }
  }

  /** A bare four-digit year is not an ISO date. */
  lemma IsoFailsOnYear(ys: string)
    requires |ys| == 4 && AllDigits(ys)
    ensures ParseAndRemainder(IsoDateFormat, ys, NoFields).None?
  {
    var p1 := NoFields.(year := Some(DecimalValue(ys)));
    assert ys + [] == ys;
    YearHead(IsoDateFormat, ys, []);
    LitFails("-", [], p1);
    ParseFailAt(IsoDateFormat, 1, [], p1);
  }

  /** A bare four-digit year has no month for `%Y-%m`. */
  lemma YearMonthFailsOnYear(ys: string)
    requires |ys| == 4 && AllDigits(ys)
    ensures ParseAndRemainder(YearMonth, ys, NoFields).None?
  {
    var p1 := NoFields.(year := Some(DecimalValue(ys)));
    assert ys + [] == ys;
    YearHead(YearMonth, ys, []);
    LitFails("-", [], p1);
    ParseFailAt(YearMonth, 1, [], p1);
  }

  /** A bare four-digit year has no month name for `%Y %b`. */
  lemma YearMonthNameFailsOnYear(ys: string)
    requires |ys| == 4 && AllDigits(ys)
    ensures ParseAndRemainder(YearMonthName, ys, NoFields).None?
  {
    var F := YearMonthName;
    var p1 := NoFields.(year := Some(DecimalValue(ys)));
    calc {
      ParseAndRemainder(F, ys, NoFields);
      { assert ys + [] == ys; YearHead(F, ys, []); }
      ParseAndRemainder(F[1..], [], p1);
      { assert F[1] == Space; ParseAt(F, 1, [], p1, p1, []); }
      ParseAndRemainder(F[2..], [], p1);
    }
    assert F[2] == MonthName && ScanMonthName([]).None?;
    ParseFailAt(F, 2, [], p1);
  }

  /** `yyyy` read with `%Y`. */
  lemma YearOnlyReads(ys: string)
    requires |ys| == 4 && AllDigits(ys)
    ensures ParseAndRemainder(YearOnly, ys, NoFields) == Some((NoFields.(year := Some(DecimalValue(ys))), []))
  {
    assert ys + [] == ys;
    YearHead(YearOnly, ys, []);
    assert YearOnly[1..] == [];
  }

  /** `%Y` reads a bare year in the window as the first of January. */
  lemma YearOnlyTry(ys: string)
    requires |ys| == 4 && AllDigits(ys) && InTitleWindow(DecimalValue(ys))
    ensures TryFormat(YearOnly, ys) == Some(Date(DecimalValue(ys), 1, 1))
  {
    YearOnlyReads(ys);
  }

  /** The last three formats on a bare year: only `%Y` accepts it. */
  lemma YearTitleTail(ys: string)
    requires |ys| == 4 && AllDigits(ys) && InTitleWindow(DecimalValue(ys))
    ensures FirstDate(TitleDateFormats[4..], ys) == Some(Date(DecimalValue(ys), 1, 1))
  {
    var F := TitleDateFormats;
    calc {
      FirstDate(F[4..], ys);
      { YearMonthFailsOnYear(ys); FirstDateSkip(F, 4, ys); }
      FirstDate(F[5..], ys);
      { YearMonthNameFailsOnYear(ys); FirstDateSkip(F, 5, ys); }
      FirstDate(F[6..], ys);
      { YearOnlyTry(ys); FirstDateHit(F, 6, ys); }
      Some(Date(DecimalValue(ys), 1, 1));
    }
  }

  /** A title that is just `yyyy` names the first of January: only the last format accepts it. */
  lemma YearTitle(ys: string)
    requires |ys| == 4 && AllDigits(ys) && InTitleWindow(DecimalValue(ys))
    ensures FirstDate(TitleDateFormats, ys) == Some(Date(DecimalValue(ys), 1, 1))
  {
    var F := TitleDateFormats;
    calc {
      FirstDate(F, ys);
      { SkipMonthNameFormats(ys); }
      FirstDate(F[2..], ys);
      { IsoFailsOnYear(ys); FirstDateSkip(F, 2, ys); }
      FirstDate(F[3..], ys);
      { assert ys + [] == ys; CjkFailsAfterYear(ys, []); FirstDateSkip(F, 3, ys); }
      FirstDate(F[4..], ys);
      { YearTitleTail(ys); }
      Some(Date(DecimalValue(ys), 1, 1));
    }
  }

  // The titles the source's tests read.

  /** The digit groups of the test titles and the values they read as. */
  lemma TestDigits()
    ensures AllDigits("2023") && DecimalValue("2023") == 2023
    ensures AllDigits("1") && DecimalValue("1") == 1
    ensures AllDigits("01") && DecimalValue("01") == 1
  {
    assert "2023"[..3] == "202" && "202"[..2] == "20" && "20"[..1] == "2" && "2"[..0] == [];
    assert "1"[..0] == [] && "01"[..1] == "0" && "0"[..0] == [];
  }

  /** What `Jan d, 2023` needs for it to read as 2023-01-01. */
  lemma JanuaryFirstFacts(ds: string)
    requires ds == "1" || ds == "01"
    ensures 0 < |ds| <= 2 && AllDigits(ds) && |"2023"| == 4 && AllDigits("2023")
    ensures InTitleWindow(DecimalValue("2023")) && IsValid(Date(DecimalValue("2023"), 1, DecimalValue(ds)))
    ensures Date(DecimalValue("2023"), 1, DecimalValue(ds)) == Date(2023, 1, 1)
  {
    TestDigits();
  }

  /** The test titles taken apart into the pieces the format reads. */
  lemma JanTitlePieces()
    ensures "Jan 1, 2023" == "Jan" + (" " + ("1" + ("," + (" " + ("2023" + [])))))
    ensures "Jan 01, 2023" == "Jan" + (" " + ("01" + ("," + (" " + ("2023" + [])))))
  {
    assert "2023" + [] == "2023";
    assert " " + "2023" == " 2023";
    assert "," + " 2023" == ", 2023";
    assert "1" + ", 2023" == "1, 2023";
    assert "01" + ", 2023" == "01, 2023";
    assert " " + "1, 2023" == " 1, 2023";
    assert " " + "01, 2023" == " 01, 2023";
    assert "Jan" + " 1, 2023" == "Jan 1, 2023";
    assert "Jan" + " 01, 2023" == "Jan 01, 2023";
  }

  lemma SubpageTitleTail()
    ensures "," + (" " + ("2023" + "/Note")) == ", 2023/Note"
  {
    assert "2023" + "/Note" == "2023/Note";
    assert " " + "2023/Note" == " 2023/Note";
  }

  lemma SubpageTitlePieces()
    ensures "Jan 1, 2023/Note" == "Jan" + (" " + ("1" + ("," + (" " + ("2023" + "/Note")))))
  {
    SubpageTitleTail();
    assert "1" + ", 2023/Note" == "1, 2023/Note";
    assert "Jan" + (" " + "1, 2023/Note") == "Jan 1, 2023/Note";
  }

  lemma TitleJan1(title: string)
    requires title == "Jan 1, 2023"
    ensures FirstDate(TitleDateFormats, title) == Some(Date(2023, 1, 1))
  {
    JanTitlePieces();
    JanuaryFirstFacts("1");
    MonthDayYearTitle("1", "2023", []);
  }

  lemma TitleJan01(title: string)
    requires title == "Jan 01, 2023"
    ensures FirstDate(TitleDateFormats, title) == Some(Date(2023, 1, 1))
  {
    JanTitlePieces();
    JanuaryFirstFacts("01");
    MonthDayYearTitle("01", "2023", []);
  }

  lemma TitleJan1WithSubpage(title: string)
    requires title == "Jan 1, 2023/Note"
    ensures FirstDate(TitleDateFormats, title) == Some(Date(2023, 1, 1))
  {
    SubpageTitlePieces();
    JanuaryFirstFacts("1");
    MonthDayYearTitle("1", "2023", "/Note");
  }

  lemma TitleYearMonth(title: string)
    requires title == "2023-01"
    ensures FirstDate(TitleDateFormats, title) == Some(Date(2023, 1, 1))
  {
    assert title == "2023" + ("-" + "01");
    TestDigits();
    YearMonthTitle("2023", "01");
  }

  lemma TitleYear(title: string)
    requires title == "2023"
    ensures FirstDate(TitleDateFormats, title) == Some(Date(2023, 1, 1))
  {
    TestDigits();
    YearTitle(title);
  }

  /** The titles of the source's title-date test. */
  predicate IsTestTitle(title: string) {
    title == "Jan 1, 2023" || title == "Jan 01, 2023" || title == "Jan 1, 2023/Note" || title == "2023-01" || title == "2023"
  }

  lemma TestTitlesHaveNoUnderscore(title: string)
    requires IsTestTitle(title)
    ensures ReplaceUnderscores(title) == title
  {
    ReplaceUnderscoresNone(title);
  }

  /** Every test title gives the date 2023-01-01. */
  lemma TitleDateTests(title: string)
    requires IsTestTitle(title)
    ensures FirstDate(TitleDateFormats, ReplaceUnderscores(title)) == Some(Date(2023, 1, 1))
  {
    TestTitlesHaveNoUnderscore(title);
    if title == "Jan 1, 2023" {
      TitleJan1(title);
    } else if title == "Jan 01, 2023" {
      TitleJan01(title);
    } else if title == "Jan 1, 2023/Note" {
      TitleJan1WithSubpage(title);
    } else if title == "2023-01" {
      TitleYearMonth(title);
    } else {
      TitleYear(title);
    }
  }

  /** Text that opens with neither whitespace nor a digit holds no number. */
  lemma NoNumberAtLetter(u: string)
    requires u != [] && !IsWhitespace(u[0]) && !IsDigit(u[0])
    ensures TrimStart(u) == u && LeadingDigits(u, 2) == 0 && LeadingDigits(u, 4) == 0
  {
  }

  /** A format that opens with `%Y` rejects a title that opens with a letter. */
  lemma YearFormatAtLetter(format: seq<Item>, value: string)
    requires format != [] && format[0] == Num(Year, ZeroPad)
    requires value != [] && !IsWhitespace(value[0]) && !IsDigit(value[0]) && value[0] != '-' && value[0] != '+'
    ensures ParseAndRemainder(format, value, NoFields).None?
  {
    NoNumberAtLetter(value);
    assert ParseItem(format[0], value, NoFields).None?;
    ParseFailAt(format, 0, value, NoFields);
    assert format[0..] == format;
  }

  /** `%b` reads `Jan` as month 1, whatever follows. */
  lemma MonthNameJan(u: string)
    ensures ParseItem(MonthName, "Jan" + u, NoFields) == Some((NoFields.(month := Some(1)), u))
  {
    ScanJan(u);
  }

  /** After `Jan`, the rest of `January` is neither whitespace nor a day. */
  lemma UaryHoldsNoDay(u: string, p1: Parsed, pad: Pad)
    requires u != [] && u[0] == 'u'
    ensures ParseItem(Space, u, p1) == Some((p1, u))
    ensures ParseItem(Num(Day, pad), u, p1).None?
  {
    NoNumberAtLetter(u);
  }

  /** `%b %-d` stops at the full name `January`: `%b` reads only `Jan`, and `uary` holds no day. */
  lemma MonthDayFormatAtLongJanuary(format: seq<Item>, rest: string)
    requires |format| >= 3 && format[0] == MonthName && format[1] == Space && format[2].Num? && format[2].field == Day
    ensures ParseAndRemainder(format, "January" + rest, NoFields).None?
  {
    var u := "uary" + rest;
    var p1 := NoFields.(month := Some(1));
    assert "January" + rest == "Jan" + u;
    MonthNameJan(u);
    UaryHoldsNoDay(u, p1, format[2].pad);
    ParseFailAt(format, 2, u, p1);
    ParseAt(format, 1, u, p1, p1, u);
    ParseAt(format, 0, "Jan" + u, NoFields, p1, u);
    assert format[0..] == format;
  }

  /** A title that spells the month out, as `January 5, 2023` does, has no title date. */
  lemma LongMonthNameRejected(rest: string)
    ensures FirstDate(TitleDateFormats, "January" + rest) == None
  {
    var v := "January" + rest;
    var F := TitleDateFormats;
    assert v[0] == 'J';
    forall i | 0 <= i < |F|
      ensures TryFormat(F[i], v).None?
    {
      if i < 2 {
        MonthDayFormatAtLongJanuary(F[i], rest);
      } else {
        assert F[i][0] == Num(Year, ZeroPad);
        YearFormatAtLetter(F[i], v);
      }
    }
  }

  /** `January_5,_2023` is read as no date at all. */
  lemma LongMonthTitleVector(title: string)
    requires title == "January_5,_2023"
    ensures FirstDate(TitleDateFormats, ReplaceUnderscores(title)) == None
  {
    var spaced := "January" + " 5, 2023";
    var r := ReplaceUnderscores(title);
    assert r == spaced by {
      assert |r| == |spaced|;
      forall i | 0 <= i < |r|
        ensures r[i] == spaced[i]
      {
      }
    }
    LongMonthNameRejected(" 5, 2023");
  }

  // ---------------------------------------------------------------------
  // Timestamps

  /** A date-time that exists (what chrono's `NaiveDateTime` holds); the second may be a leap second. */
  type CivilDateTime = t: DateTime | IsValidDateTime(t) witness DateTime(Date(1970, 1, 1), 0, 0, 0)

  /** The `page_touched` column: a UTC date-time. */
  datatype WikiTimestamp = WikiTimestamp(time: CivilDateTime)

  /** `%Y%m%d%H%M%S`, MediaWiki's fourteen-digit timestamp. */
  const WikiTimestampFormat: seq<Item> :=
    [Num(Year, ZeroPad), Num(Month, ZeroPad), Num(Day, ZeroPad), Num(Hour, ZeroPad), Num(Minute, ZeroPad), Num(Second, ZeroPad)]

  /**
   * `WikiTimestamp::try_from`: the whole string must read as the format and
   * name an existing date-time; otherwise the error is `InvalidDate` carrying
   * the string.
   */
  function WikiTimestampFromString(value: string): (r: Result<WikiTimestamp>)
    ensures r.Err? ==> r.error == InvalidDate(value)
    ensures r.Ok? ==> ParseAll(WikiTimestampFormat, value).Some?
                      && ToNaiveDateTime(ParseAll(WikiTimestampFormat, value).value) == Some(r.value.time)
  {
    match ParseAll(WikiTimestampFormat, value)
    case None => Err(InvalidDate(value))
    case Some(p) =>
      match ToNaiveDateTime(p)
      case None => Err(InvalidDate(value))
      case Some(t) => Ok(WikiTimestamp(t))
  }

  /** A date-time written as MediaWiki does: fourteen digits, zero-padded. */
  function FormatWikiTimestamp(t: CivilDateTime): (s: string)
    requires 0 <= t.date.year < 10000
    ensures |s| == 14 && AllDigits(s)
  {
    PadNumber(t.date.year, 4) + PadNumber(t.date.month, 2) + PadNumber(t.date.day, 2)
    + PadNumber(t.hour, 2) + PadNumber(t.minute, 2) + PadNumber(t.second, 2)
  }

  /** Fields holding exactly the six parts of `t`. */
  function FieldsOf(t: DateTime): Parsed {
    Parsed(Some(t.date.year), Some(t.date.month), Some(t.date.day), Some(t.hour), Some(t.minute), Some(t.second))
  }

  /** Six digit groups of the right widths fill the six fields, leaving what follows. */
  lemma WikiTimestampFields(y: string, mo: string, d: string, h: string, mi: string, sec: string, rest: string)
    requires |y| == 4 && AllDigits(y)
    requires |mo| == 2 && AllDigits(mo) && |d| == 2 && AllDigits(d)
    requires |h| == 2 && AllDigits(h) && |mi| == 2 && AllDigits(mi) && |sec| == 2 && AllDigits(sec)
    ensures ParseAndRemainder(WikiTimestampFormat, y + (mo + (d + (h + (mi + (sec + rest))))), NoFields)
            == Some((Parsed(Some(DecimalValue(y)), Some(DecimalValue(mo)), Some(DecimalValue(d)),
                            Some(DecimalValue(h)), Some(DecimalValue(mi)), Some(DecimalValue(sec))), rest))
  {
    var F := WikiTimestampFormat;
    var p1 := NoFields.(year := Some(DecimalValue(y)));
    var p2 := p1.(month := Some(DecimalValue(mo)));
    var p3 := p2.(day := Some(DecimalValue(d)));
    var p4 := p3.(hour := Some(DecimalValue(h)));
    var p5 := p4.(minute := Some(DecimalValue(mi)));
    var p6 := p5.(second := Some(DecimalValue(sec)));
    calc {
      ParseAndRemainder(F, y + (mo + (d + (h + (mi + (sec + rest))))), NoFields);
      { assert F[0..] == F; }
      ParseAndRemainder(F[0..], y + (mo + (d + (h + (mi + (sec + rest))))), NoFields);
      { ParseDigits(Year, ZeroPad, y, mo + (d + (h + (mi + (sec + rest)))), NoFields);
        ParseAt(F, 0, y + (mo + (d + (h + (mi + (sec + rest))))), NoFields, p1, mo + (d + (h + (mi + (sec + rest))))); }
      ParseAndRemainder(F[1..], mo + (d + (h + (mi + (sec + rest)))), p1);
      { ParseDigits(Month, ZeroPad, mo, d + (h + (mi + (sec + rest))), p1);
        ParseAt(F, 1, mo + (d + (h + (mi + (sec + rest)))), p1, p2, d + (h + (mi + (sec + rest)))); }
      ParseAndRemainder(F[2..], d + (h + (mi + (sec + rest))), p2);
      { ParseDigits(Day, ZeroPad, d, h + (mi + (sec + rest)), p2);
        ParseAt(F, 2, d + (h + (mi + (sec + rest))), p2, p3, h + (mi + (sec + rest))); }
      ParseAndRemainder(F[3..], h + (mi + (sec + rest)), p3);
      { ParseDigits(Hour, ZeroPad, h, mi + (sec + rest), p3);
        ParseAt(F, 3, h + (mi + (sec + rest)), p3, p4, mi + (sec + rest)); }
      ParseAndRemainder(F[4..], mi + (sec + rest), p4);
      { ParseDigits(Minute, ZeroPad, mi, sec + rest, p4);
        ParseAt(F, 4, mi + (sec + rest), p4, p5, sec + rest); }
      ParseAndRemainder(F[5..], sec + rest, p5);
      { ParseDigits(Second, ZeroPad, sec, rest, p5);
        ParseAt(F, 5, sec + rest, p5, p6, rest); }
      ParseAndRemainder(F[6..], rest, p6);
      { assert F[6..] == []; }
      Some((p6, rest));
    }
  }

  lemma Associate6(a: string, b: string, c: string, d: string, e: string, f: string, rest: string)
    ensures a + b + c + d + e + f + rest == a + (b + (c + (d + (e + (f + rest)))))
  {
  }

  /** The written timestamp, followed by `rest`, reads back as the fields of `t` with `rest` left over. */
  lemma FormattedWikiTimestampFields(t: CivilDateTime, rest: string)
    requires 0 <= t.date.year < 10000
    ensures ParseAndRemainder(WikiTimestampFormat, FormatWikiTimestamp(t) + rest, NoFields) == Some((FieldsOf(t), rest))
  {
    var y, mo, d := PadNumber(t.date.year, 4), PadNumber(t.date.month, 2), PadNumber(t.date.day, 2);
    var h, mi, sec := PadNumber(t.hour, 2), PadNumber(t.minute, 2), PadNumber(t.second, 2);
    assert Pow10(4) == 10000 && Pow10(2) == 100;
    PadNumberValue(t.date.year, 4);
    PadNumberValue(t.date.month, 2);
    PadNumberValue(t.date.day, 2);
    PadNumberValue(t.hour, 2);
    PadNumberValue(t.minute, 2);
    PadNumberValue(t.second, 2);
    Associate6(y, mo, d, h, mi, sec, rest);
    WikiTimestampFields(y, mo, d, h, mi, sec, rest);
  }

  /** Fields holding a whole representable date-time convert back to it. */
  lemma ToNaiveDateTimeOfFields(t: CivilDateTime)
    requires MinYear <= t.date.year <= MaxYear
    ensures ToNaiveDateTime(FieldsOf(t)) == Some(t)
  {
  }

  /** Reading back a written timestamp gives the same date-time. */
  lemma WikiTimestampOfFormatted(t: CivilDateTime)
    requires 0 <= t.date.year < 10000
    ensures WikiTimestampFromString(FormatWikiTimestamp(t)) == Ok(WikiTimestamp(t))
  {
    var s := FormatWikiTimestamp(t);
    calc {
      ParseAll(WikiTimestampFormat, s);
      { FormattedWikiTimestampFields(t, []); assert s + [] == s; }
      Some(FieldsOf(t));
    }
    ToNaiveDateTimeOfFields(t);
  }

  /** Anything after the fourteen digits makes the timestamp invalid: the whole string must be consumed. */
  lemma WikiTimestampRejectsTrailing(t: CivilDateTime, extra: string)
    requires 0 <= t.date.year < 10000 && extra != []
    ensures WikiTimestampFromString(FormatWikiTimestamp(t) + extra) == Err(InvalidDate(FormatWikiTimestamp(t) + extra))
  {
    FormattedWikiTimestampFields(t, extra);
  }

  /** `WikiTimestamp::timestamp`: Unix seconds of the date-time, within the day it names. */
  function WikiTimestampSeconds(w: WikiTimestamp): (secs: int)
    ensures MidnightTimestamp(w.time.date) <= secs < MidnightTimestamp(w.time.date) + SecondsPerDay
  {
    DateTimeTimestamp(w.time)
  }

  /** `TitleDate::timestamp`: `None` without a date, otherwise the Unix seconds of its midnight in UTC. */
  function TitleDateTimestamp(td: TitleDate): (r: Option<int>)
    ensures r.None? <==> td.date.None?
    ensures r.Some? ==> r.value % SecondsPerDay == 0
    ensures r.Some? ==> r.value == MidnightTimestamp(td.date.value)
  {
    match td.date
    case None => None
    case Some(d) => Some(MidnightTimestamp(d))
  }

  /** Earlier title dates have smaller timestamps. */
  lemma TitleDateTimestampOrdered(a: TitleDate, b: TitleDate)
    requires a.date.Some? && b.date.Some? && Before(a.date.value, b.date.value)
    ensures TitleDateTimestamp(a).value < TitleDateTimestamp(b).value
  {
    DaysFromCivilStrictlyIncreasing(a.date.value, b.date.value);
  }
  /** Strict order of date-times: by date, then by hour, minute and second. */
  predicate TimeBefore(a: DateTime, b: DateTime) {
    Before(a.date, b.date)
    || (a.date == b.date && a.hour < b.hour)
    || (a.date == b.date && a.hour == b.hour && a.minute < b.minute)
    || (a.date == b.date && a.hour == b.hour && a.minute == b.minute && a.second < b.second)
  }

  /**
   * A later `page_touched` never has fewer seconds. It has strictly more,
   * except for second 59 against the leap second 60 of the same minute,
   * which `timestamp()` counts alike.
   */
  lemma WikiTimestampSecondsOrdered(a: WikiTimestamp, b: WikiTimestamp)
    requires TimeBefore(a.time, b.time)
    ensures WikiTimestampSeconds(a) <= WikiTimestampSeconds(b)
    ensures WikiTimestampSeconds(a) == WikiTimestampSeconds(b) <==>
              a.time.date == b.time.date && a.time.hour == b.time.hour && a.time.minute == b.time.minute
              && a.time.second == 59 && b.time.second == 60
  {
    var x, y := a.time, b.time;
    if Before(x.date, y.date) {
      var dx, dy := DaysFromCivil(x.date), DaysFromCivil(y.date);
      DaysFromCivilStrictlyIncreasing(x.date, y.date);
      assert dx * SecondsPerDay + SecondsPerDay <= dy * SecondsPerDay;
    }
  }


  lemma FormattedDateHasNoUnderscore(d: Date)
    requires IsValid(d) && 0 <= d.year < 10000
    ensures ReplaceUnderscores(FormatIsoDate(d)) == FormatIsoDate(d)
  {
    var s := FormatIsoDate(d);
    assert '_' !in s by {
      assert s == PadNumber(d.year, 4) + "-" + PadNumber(d.month, 2) + "-" + PadNumber(d.day, 2);
    }
    ReplaceUnderscoresNone(s);
  }

  /** The ISO format reads a written date in the bound window back, as a title date too. */
  lemma IsoFormatReadsTitle(d: Date)
    requires IsValid(d) && InBoundWindow(d)
    ensures FormatIsoDate(d)[0] == PadNumber(d.year, 4)[0]
    ensures TryFormat(IsoDateFormat, FormatIsoDate(d)) == Some(d)
  {
    var y, m, dd := PadNumber(d.year, 4), PadNumber(d.month, 2), PadNumber(d.day, 2);
    assert Pow10(4) == 10000 && Pow10(2) == 100;
    PadNumberValue(d.year, 4);
    PadNumberValue(d.month, 2);
    PadNumberValue(d.day, 2);
    IsoParseChain(y, m, dd);
  }

  /** A `YYYY-MM-DD` title is read by the ISO format, the first one that does not need a month name. */
  lemma IsoTitleDate(d: Date)
    requires IsValid(d) && InBoundWindow(d)
    ensures FirstDate(TitleDateFormats, ReplaceUnderscores(FormatIsoDate(d))) == Some(d)
  {
    var s := FormatIsoDate(d);
    FormattedDateHasNoUnderscore(d);
    IsoFormatReadsTitle(d);
    SkipMonthNameFormats(s);
    FirstDateHit(TitleDateFormats, 2, s);
  }

  /** A page titled by a date in the search-bound window carries the same seconds that bound parses to. */
  lemma IsoTitleMatchesDateBound(d: Date)
    requires IsValid(d) && InBoundWindow(d)
    ensures ParseDate(FormatIsoDate(d)).Ok?
            && TitleDateTimestamp(TitleDate(FirstDate(TitleDateFormats, ReplaceUnderscores(FormatIsoDate(d)))))
               == Some(ParseDate(FormatIsoDate(d)).value)
  {
    IsoTitleDate(d);
    ParseDateOfFormatted(d);
  }

  // ---------------------------------------------------------------------
  // Pages

  datatype Page = Page(
    id: Int64,
    title: string,
    text: string,
    titleDate: TitleDate,
    pageTouched: WikiTimestamp,
    namespace: Namespace)

  /**
   * What the derived row conversion gives: a page, or the decode error of the
   * column whose `try_from` failed, carrying that conversion's error.
   */
  datatype RowResult = Decoded(page: Page) | DecodeFailed(column: string, source: Error)

  /**
   * The row conversion: the title date comes from the title, the touched
   * timestamp must parse, and the namespace code always converts.
   */
  function PageFromRow(id: Int64, title: string, text: string, touched: string, namespace: Int32): (r: RowResult)
    ensures r.DecodeFailed? <==> WikiTimestampFromString(touched).Err?
    ensures r.DecodeFailed? ==> r.column == "page_touched" && r.source == InvalidDate(touched)
    ensures r.Decoded? ==> r.page.id == id && r.page.title == title && r.page.text == text
                           && r.page.titleDate == TitleDate(FirstDate(TitleDateFormats, ReplaceUnderscores(title)))
                           && Ok(r.page.pageTouched) == WikiTimestampFromString(touched)
                           && r.page.namespace == NamespaceFromCode(namespace)
  {
    match WikiTimestampFromString(touched)
    case Err(e) => DecodeFailed("page_touched", e)
    case Ok(w) =>
      Decoded(Page(id, title, text, TitleDate(FirstDate(TitleDateFormats, ReplaceUnderscores(title))), w, NamespaceFromCode(namespace)))
  }


  /** `Page::to_url`: the base, then the namespace prefix, then the title. */
  function ToUrl(page: Page, base: string): (url: string)
    ensures |url| == |base| + |ToPrefix(page.namespace)| + |page.title|
    ensures url[..|base|] == base && url[|url| - |page.title|..] == page.title
    ensures page.namespace.Other? ==> url[|base|..|url| - |page.title|] == "Unknown"
  {
    base + ToPrefix(page.namespace) + page.title
  }

  /**
   * Between the base and the title sits the prefix. For a named namespace it
   * names the namespace again; for any other code it is `Unknown`, with no
   * colon, and names no namespace.
   */
  lemma ToUrlRecoversNamespace(page: Page, base: string)
    ensures !page.namespace.Other? ==>
              NamespaceOfPrefix(ToUrl(page, base)[|base|..|ToUrl(page, base)| - |page.title|]) == Some(page.namespace)
    ensures page.namespace.Other? ==>
              ToUrl(page, base)[|base|..|ToUrl(page, base)| - |page.title|] == "Unknown"
    ensures page.namespace.Other? ==>
              NamespaceOfPrefix(ToUrl(page, base)[|base|..|ToUrl(page, base)| - |page.title|]).None?
  {
    var url := ToUrl(page, base);
    assert url[|base|..|url| - |page.title|] == ToPrefix(page.namespace);
    if !page.namespace.Other? {
      PrefixRoundTrip(page.namespace);
    }
  }
}

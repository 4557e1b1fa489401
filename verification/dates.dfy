/** Year-month values and the two patterns the system reads and writes them
    in: the import's `MMMM yyyy` (English full month name, one space, year)
    and the storage and API form `yyyy-MM`.

    Both patterns are read by `java.time` in strict mode: `yyyy` takes
    exactly four ASCII digits unless a sign is given, month names are
    matched case-sensitively, and year-of-era 0 is rejected when resolved. */
module Dates {
  import opened Outcomes
  import opened Seqs
  import opened Text

  type Year = y: int | 1 <= y <= 9999 witness 1
  type Month = m: int | 1 <= m <= 12 witness 1

  /** `java.time.YearMonth` restricted to the years the patterns can read. */
  datatype YearMonth = YearMonth(year: Year, month: Month)

  function MonthName(m: Month): string {
    match m
    case 1 => "January"
    case 2 => "February"
    case 3 => "March"
    case 4 => "April"
    case 5 => "May"
    case 6 => "June"
    case 7 => "July"
    case 8 => "August"
    case 9 => "September"
    case 10 => "October"
    case 11 => "November"
    case 12 => "December"
  }

  /** The month whose English full name is exactly `s`. */
  function MonthNamed(s: string): (r: Option<Month>)
    ensures r.Some? ==> MonthName(r.value) == s
    ensures r.None? ==> forall m: Month :: MonthName(m) != s
  {
    if s == "January" then Some(1)
    else if s == "February" then Some(2)
    else if s == "March" then Some(3)
    else if s == "April" then Some(4)
    else if s == "May" then Some(5)
    else if s == "June" then Some(6)
    else if s == "July" then Some(7)
    else if s == "August" then Some(8)
    else if s == "September" then Some(9)
    else if s == "October" then Some(10)
    else if s == "November" then Some(11)
    else if s == "December" then Some(12)
    else None
  }

  lemma MonthNamedInverse(m: Month)
    ensures MonthNamed(MonthName(m)) == Some(m)
  {
  }

  // ---------------------------------------------------------------------
  // MMMM yyyy
  // ---------------------------------------------------------------------

  function FormatMonthYear(ym: YearMonth): string {
    MonthName(ym.month) + " " + Fixed(ym.year, 4)
  }

  /** `YearMonth.parse(s, ofPattern("MMMM yyyy", Locale.ENGLISH))`, with
      `None` for a DateTimeParseException. */
  function ParseMonthYear(s: string): (r: Option<YearMonth>)
    ensures r.Some? ==> s == FormatMonthYear(r.value)
  {
    if |s| < 5 then None
    else
      var name := s[..|s| - 5];
      var digits := s[|s| - 4..];
      if s[|s| - 5] == ' ' && IsDigits(digits) && ValueOf(digits) >= 1 then
        match MonthNamed(name)
        case Some(m) =>
          var ym := YearMonth(ValueOf(digits), m);
          FixedOfValue(digits);
          assert s == name + " " + digits;
          Some(ym)
        case None => None
      else None
  }

  /** Every year-month in range is read back from its own rendering. */
  lemma ParseFormatMonthYear(ym: YearMonth)
    ensures ParseMonthYear(FormatMonthYear(ym)) == Some(ym)
  {
    var s := FormatMonthYear(ym);
    var digits := Fixed(ym.year, 4);
    assert s[..|s| - 5] == MonthName(ym.month);
    assert s[|s| - 4..] == digits;
    FixedValue(ym.year, 4);
    MonthNamedInverse(ym.month);
  }

  /** The pattern accepts a string exactly when it renders some year-month. */
  lemma MonthYearIff(s: string, ym: YearMonth)
    ensures ParseMonthYear(s) == Some(ym) <==> s == FormatMonthYear(ym)
  {
    if s == FormatMonthYear(ym) {
      ParseFormatMonthYear(ym);
    }
  }

  // ---------------------------------------------------------------------
  // yyyy-MM
  // ---------------------------------------------------------------------

  /** `ym.format(ofPattern("yyyy-MM"))`, the stored representation. */
  function FormatIso(ym: YearMonth): string {
    Fixed(ym.year, 4) + "-" + Fixed(ym.month, 2)
  }

  /** `YearMonth.parse(s, ofPattern("yyyy-MM"))`. */
  function ParseIso(s: string): (r: Option<YearMonth>)
    ensures r.Some? ==> s == FormatIso(r.value)
  {
    if |s| == 7 && s[4] == '-' && IsDigits(s[..4]) && IsDigits(s[5..]) then
      var y := ValueOf(s[..4]);
      var m := ValueOf(s[5..]);
      if 1 <= y && 1 <= m <= 12 then
        FixedOfValue(s[..4]);
        FixedOfValue(s[5..]);
        SplitAt(s, 4);
        assert [s[4]] == "-";
        Some(YearMonth(y, m))
      else None
    else None
  }

  lemma ParseFormatIso(ym: YearMonth)
    ensures ParseIso(FormatIso(ym)) == Some(ym)
  {
    var y, m := Fixed(ym.year, 4), Fixed(ym.month, 2);
    var s := FormatIso(ym);
    assert s == y + "-" + m;
    assert s[..4] == y && s[5..] == m && s[4] == '-';
    FixedValue(ym.year, 4);
    FixedValue(ym.month, 2);
    assert ValueOf(s[..4]) == ym.year;
    assert ValueOf(s[5..]) == ym.month;
  }

  lemma IsoIff(s: string, ym: YearMonth)
    ensures ParseIso(s) == Some(ym) <==> s == FormatIso(ym)
  {
    if s == FormatIso(ym) {
      ParseFormatIso(ym);
    }
  }

  /** Distinct year-months are stored as distinct strings, so comparing the
      stored text compares the year-months. */
  lemma FormatIsoInjective(a: YearMonth, b: YearMonth)
    ensures FormatIso(a) == FormatIso(b) <==> a == b
  {
    ParseFormatIso(a);
    ParseFormatIso(b);
  }

  /** The first four characters of the stored text: the zero-padded year. */
  function StoredYear(ym: YearMonth): (r: string)
    ensures r == FormatIso(ym)[..4]
  {
    Fixed(ym.year, 4)
  }

  /** Comparing the stored year prefix with `String.valueOf(y)` selects
      exactly the year `y`, and only when `y` has four digits: years below
      1000 are stored zero-padded and never match. */
  lemma StoredYearMatches(ym: YearMonth, y: int)
    ensures StoredYear(ym) == IntToString(y) <==> 1000 <= y && ym.year == y
  {
    if 1000 <= y && ym.year == y {
      DecimalIsFixed(y, 4);
    }
    if StoredYear(ym) == IntToString(y) {
      assert y >= 0;
      DecimalLength(y);
      FixedValue(ym.year, 4);
    }
  }
}

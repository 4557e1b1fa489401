/** The error taxonomy of an import and the per-record field checks of
    `ImportService.importCsv`. Every check runs on every record; a record's
    errors come out in the fixed order views, likes, date, author, title,
    at most one per field. */
module ImportRules {
  import opened Outcomes
  import opened Text
  import opened Dates
  import opened CsvRecords

  datatype ErrorType =
    | ColumnMismatch
    | MissingField
    | TypeMismatch
    | NumberParseError
    | DateParseError
    | GenericError

  /** One reported problem. `line` is -1 for a whole-batch failure. */
  datatype ImportError = ImportError(
    line: int,
    kind: ErrorType,
    field: Option<string>,
    value: Option<string>,
    message: string)

  /** `Integer.MAX_VALUE`. */
  const MaxInt: nat := 2147483647

  /** A non-null value that `trim()` does not empty. */
  predicate Present(raw: Option<string>) {
    raw.Some? && !IsBlank(raw.value)
  }

  /** A count column the import accepts: ASCII digits only, leading zeros
      allowed, at most `Integer.MAX_VALUE`. */
  predicate IsCount(raw: Option<string>) {
    raw.Some? && IsDigits(raw.value) && ValueOf(raw.value) <= MaxInt
  }

  /** A date column the import accepts: an English full month name, one
      space and a four-digit year. */
  ghost predicate IsMonthYear(raw: Option<string>) {
    raw.Some? && exists ym :: raw.value == FormatMonthYear(ym)
  }

  lemma DigitsAreNotBlank(s: string)
    requires IsDigits(s)
    ensures !IsBlank(s)
  {
    BlankIffAllTrimmable(s);
    assert !IsTrimmable(s[0]);
  }

  lemma MonthYearIsNotBlank(ym: YearMonth)
    ensures !IsBlank(FormatMonthYear(ym))
  {
    var s := FormatMonthYear(ym);
    BlankIffAllTrimmable(s);
    assert s[|s| - 1] == Fixed(ym.year, 4)[3];
    assert !IsTrimmable(s[|s| - 1]);
  }

  /** What `MMMM yyyy` reads is exactly what it writes, and none of it is
      blank. */
  lemma MonthYearReads(raw: Option<string>)
    ensures IsMonthYear(raw) <==> raw.Some? && ParseMonthYear(raw.value).Some?
    ensures IsMonthYear(raw) ==> Present(raw)
  {
    if raw.Some? && ParseMonthYear(raw.value).Some? {
      MonthYearIsNotBlank(ParseMonthYear(raw.value).value);
    }
    if raw.Some? && IsMonthYear(raw) {
      var ym :| raw.value == FormatMonthYear(ym);
      ParseFormatMonthYear(ym);
      MonthYearIsNotBlank(ym);
    }
  }

  function MissingError(field: string, raw: Option<string>, line: int): ImportError {
    ImportError(line, MissingField, Some(field), raw, "Field '" + field + "' cannot be empty.")
  }

  /** The message of a count that is not all digits. */
  function NotDigitsMessage(field: string, raw: string): string {
    "Invalid format for '" + field + "': '" + raw + "'. Only digits are allowed."
  }

  /** The message of a date that `MMMM yyyy` cannot read. */
  function BadDateMessage(raw: string): string {
    "Cannot parse '" + raw + "' as 'MMMM yyyy'."
  }

  // ---------------------------------------------------------------------
  // views and likes
  // ---------------------------------------------------------------------

  datatype NumberCheck = Parsed(value: nat) | Rejected(error: ImportError)

  /** The `views`/`likes` check: blank is a missing field; anything but
      digits is a number format error; digits beyond the int range are an
      overflow error; otherwise the digits' value. */
  function CheckCount(field: string, raw: Option<string>, line: int): (r: NumberCheck)
    ensures r.Parsed? <==> IsCount(raw)
    ensures r.Parsed? ==> r.value <= MaxInt && Fixed(r.value, |raw.value|) == raw.value
    ensures r.Rejected? ==>
              && r.error.line == line && r.error.field == Some(field) && r.error.value == raw
              && (r.error.kind == MissingField <==> !Present(raw))
              && (r.error.kind == MissingField || r.error.kind == NumberParseError)
    ensures !Present(raw) ==> r == Rejected(MissingError(field, raw, line))
    ensures Present(raw) && !IsDigits(raw.value) ==>
              r.error.message == NotDigitsMessage(field, raw.value)
    ensures Present(raw) && IsDigits(raw.value) && ValueOf(raw.value) > MaxInt ==>
              r.error.message == "Value '" + raw.value + "' for '" + field
                                 + "' is too large for an integer or cannot be parsed."
  {
    if raw.None? || IsBlank(raw.value) then
      Rejected(MissingError(field, raw, line))
    else if !IsDigits(raw.value) then
      Rejected(ImportError(line, NumberParseError, Some(field), raw,
        NotDigitsMessage(field, raw.value)))
    else if ValueOf(raw.value) > MaxInt then
      Rejected(ImportError(line, NumberParseError, Some(field), raw,
        "Value '" + raw.value + "' for '" + field + "' is too large for an integer or cannot be parsed."))
    else
      FixedOfValue(raw.value);
      Parsed(ValueOf(raw.value))
  }

  /** Every int-range count, written with any number of leading zeros, is
      accepted with its value. */
  lemma CheckCountAcceptsPaddedDecimal(field: string, n: nat, zeros: nat, line: int)
    requires n <= MaxInt
    ensures CheckCount(field, Some(Fixed(0, zeros) + Decimal(n)), line) == Parsed(n)
  {
    var s := Fixed(0, zeros) + Decimal(n);
    assert IsDigits(s);
    DigitsAreNotBlank(s);
    FixedOfValue(s);
    var d := Decimal(n);
    LeadingZerosValue(zeros, d);
  }

  lemma {:induction false} LeadingZerosValue(zeros: nat, d: string)
    requires AllDigits(d)
    ensures AllDigits(Fixed(0, zeros) + d)
    ensures ValueOf(Fixed(0, zeros) + d) == ValueOf(d)
  {
    if |d| > 0 {
      var p := d[..|d| - 1];
      var c := d[|d| - 1];
      LeadingZerosValue(zeros, p);
      assert Fixed(0, zeros) + d == (Fixed(0, zeros) + p) + [c];
      ValueOfSnoc(Fixed(0, zeros) + p, c);
      assert d == p + [c];
      ValueOfSnoc(p, c);
    } else {
      assert Fixed(0, zeros) + d == Fixed(0, zeros);
      FixedValue(0, zeros);
    }
  }

  // ---------------------------------------------------------------------
  // date, author, title
  // ---------------------------------------------------------------------

  /** The `date` check: blank is a missing field; anything `MMMM yyyy`
      cannot read is a date parse error echoing the raw value. */
  function CheckDate(raw: Option<string>, line: int): (r: Option<ImportError>)
    ensures r.None? <==> IsMonthYear(raw)
    ensures r.Some? ==> && r.value.line == line && r.value.field == Some("date") && r.value.value == raw
                        && (r.value.kind == MissingField <==> !Present(raw))
                        && (r.value.kind == MissingField || r.value.kind == DateParseError)
    ensures !Present(raw) ==> r == Some(MissingError("date", raw, line))
    ensures Present(raw) && !IsMonthYear(raw) ==>
              r == Some(ImportError(line, DateParseError, Some("date"), raw,
                                    BadDateMessage(raw.value)))
  {
    MonthYearReads(raw);
    if raw.None? || IsBlank(raw.value) then
      Some(MissingError("date", raw, line))
    else if ParseMonthYear(raw.value).None? then
      Some(ImportError(line, DateParseError, Some("date"), raw,
                       BadDateMessage(raw.value)))
    else
      None
  }

  /** The `author` and `title` checks: only a blank value is an error. */
  function CheckRequired(field: string, raw: Option<string>, line: int): (r: Option<ImportError>)
    ensures r.None? <==> Present(raw)
    ensures r.Some? ==> r.value == MissingError(field, raw, line)
  {
    if raw.None? || IsBlank(raw.value) then Some(MissingError(field, raw, line)) else None
  }

  // ---------------------------------------------------------------------
  // Whole record
  // ---------------------------------------------------------------------

  /** A record that passes every check. */
  ghost predicate RecordIsValid(rec: CsvRecord) {
    && IsCount(rec.views)
    && IsCount(rec.likes)
    && IsMonthYear(rec.date)
    && Present(rec.author)
    && Present(rec.title)
  }

  /** The verdict on one record: its errors and, when there are none, the
      parsed counts (0 stands for a count that did not parse). */
  datatype RowCheck = RowCheck(errors: seq<ImportError>, views: nat, likes: nat)

  /** Position of a field in the order the checks run. */
  function FieldRank(field: Option<string>): int {
    match field
    case Some("views") => 0
    case Some("likes") => 1
    case Some("date") => 2
    case Some("author") => 3
    case Some("title") => 4
    case _ => 5
  }

  /** The five named fields have distinct ranks 0 to 4. */
  lemma FieldRanks()
    ensures FieldRank(Some("views")) == 0 && FieldRank(Some("likes")) == 1 && FieldRank(Some("date")) == 2
    ensures FieldRank(Some("author")) == 3 && FieldRank(Some("title")) == 4
  {
    assert "likes" != "views" by { assert "likes"[0] != "views"[0]; }
    assert "title" != "views" by { assert "title"[0] != "views"[0]; }
    assert "title" != "likes" by { assert "title"[0] != "likes"[0]; }
  }

  lemma FieldRankInjective(a: Option<string>, b: Option<string>)
    requires FieldRank(a) == FieldRank(b) < 5
    ensures a == b
  {
    assert "likes" != "views" by { assert "likes"[0] != "views"[0]; }
    assert "title" != "views" by { assert "title"[0] != "views"[0]; }
    assert "title" != "likes" by { assert "title"[0] != "likes"[0]; }
  }

  /** A count check's error, if any. */
  function CountError(c: NumberCheck): (r: Option<ImportError>)
    ensures r.None? <==> c.Parsed?
    ensures r.Some? ==> r.value == c.error
  {
    if c.Rejected? then Some(c.error) else None
  }

  /** The errors of the failed checks, in check order. */
  function Collect(slots: seq<Option<ImportError>>): (r: seq<ImportError>)
    ensures |r| <= |slots|
    ensures r == [] <==> forall j :: 0 <= j < |slots| ==> slots[j].None?
    ensures forall i :: 0 <= i < |r| ==> exists j :: 0 <= j < |slots| && slots[j] == Some(r[i])
    decreases |slots|
  {
    if |slots| == 0 then []
    else
      var rest := Collect(slots[1..]);
      assert forall i :: 0 <= i < |rest| ==> exists j :: 0 <= j < |slots| && slots[j] == Some(rest[i]) by {
        forall i | 0 <= i < |rest|
          ensures exists j :: 0 <= j < |slots| && slots[j] == Some(rest[i])
        {
          var j :| 0 <= j < |slots[1..]| && slots[1..][j] == Some(rest[i]);
          assert slots[j + 1] == Some(rest[i]);
        }
      }
      assert (forall j :: 0 <= j < |slots[1..]| ==> slots[1..][j].None?) <==>
             (forall j :: 1 <= j < |slots| ==> slots[j].None?) by {
        if forall j :: 0 <= j < |slots[1..]| ==> slots[1..][j].None? {
          forall j | 1 <= j < |slots| ensures slots[j].None? {
            assert slots[1..][j - 1] == slots[j];
          }
        }
      }
      if slots[0].Some? then [slots[0].value] + rest else rest
  }

  /** Slots laid out by rank from `off` on. */
  predicate RankedFrom(slots: seq<Option<ImportError>>, off: int) {
    forall j :: 0 <= j < |slots| && slots[j].Some? ==> FieldRank(slots[j].value.field) == off + j
  }

  lemma {:induction false} CollectOrdered(slots: seq<Option<ImportError>>, off: int)
    requires RankedFrom(slots, off)
    ensures forall i :: 0 <= i < |Collect(slots)| ==> FieldRank(Collect(slots)[i].field) >= off
    ensures forall i, j :: 0 <= i < j < |Collect(slots)| ==>
              FieldRank(Collect(slots)[i].field) < FieldRank(Collect(slots)[j].field)
    decreases |slots|
  {
    if |slots| > 0 {
      assert RankedFrom(slots[1..], off + 1) by {
        forall j | 0 <= j < |slots[1..]| && slots[1..][j].Some?
          ensures FieldRank(slots[1..][j].value.field) == off + 1 + j
        {
          assert slots[1..][j] == slots[j + 1];
        }
      }
      CollectOrdered(slots[1..], off + 1);
    }
  }

  lemma {:induction false} CollectFind(slots: seq<Option<ImportError>>, off: int, field: string)
    requires RankedFrom(slots, off) && 0 <= off && off + |slots| <= 5
    ensures ErrorFor(Collect(slots), field) ==
            (if off <= FieldRank(Some(field)) < off + |slots| then slots[FieldRank(Some(field)) - off] else None)
    decreases |slots|
  {
    if |slots| > 0 {
      assert RankedFrom(slots[1..], off + 1) by {
        forall j | 0 <= j < |slots[1..]| && slots[1..][j].Some?
          ensures FieldRank(slots[1..][j].value.field) == off + 1 + j
        {
          assert slots[1..][j] == slots[j + 1];
        }
      }
      CollectFind(slots[1..], off + 1, field);
      var rest := Collect(slots[1..]);
      if slots[0].Some? {
        assert Collect(slots)[1..] == rest;
        if FieldRank(Some(field)) == off {
          FieldRankInjective(Some(field), slots[0].value.field);
        }
      }
    }
  }

  /** The five checks of one record, in the order they run. */
  function Checks(rec: CsvRecord, line: int): (slots: seq<Option<ImportError>>)
    ensures |slots| == 5
  {
    [ CountError(CheckCount("views", rec.views, line)),
      CountError(CheckCount("likes", rec.likes, line)),
      CheckDate(rec.date, line),
      CheckRequired("author", rec.author, line),
      CheckRequired("title", rec.title, line) ]
  }

  lemma ChecksRanked(rec: CsvRecord, line: int)
    ensures RankedFrom(Checks(rec, line), 0)
  {
    var slots := Checks(rec, line);
    FieldRanks();
    forall j | 0 <= j < |slots| && slots[j].Some?
      ensures FieldRank(slots[j].value.field) == j
    {
      if j == 0 {
        assert slots[0].value.field == Some("views");
      } else if j == 1 {
        assert slots[1].value.field == Some("likes");
      } else if j == 2 {
        assert slots[2].value.field == Some("date");
      } else if j == 3 {
        assert slots[3].value.field == Some("author");
      } else {
        assert slots[4].value.field == Some("title");
      }
    }
  }

  /** A failed check reports the record's line and a named field, and is
      not a persistence error. */
  predicate ReportsAt(slot: Option<ImportError>, line: int) {
    slot.Some? ==> slot.value.line == line && slot.value.kind != GenericError && slot.value.field.Some?
  }

  /** Every failed check of a record reports at its line. */
  lemma ChecksReportLine(rec: CsvRecord, line: int)
    ensures var slots := Checks(rec, line);
            forall j :: 0 <= j < |slots| ==> ReportsAt(slots[j], line)
  {
    var slots := Checks(rec, line);
    assert ReportsAt(slots[0], line) && ReportsAt(slots[1], line) && ReportsAt(slots[2], line)
        && ReportsAt(slots[3], line) && ReportsAt(slots[4], line);
    FiveReport(slots, line);
  }

  lemma FiveReport(slots: seq<Option<ImportError>>, line: int)
    requires |slots| == 5
    requires ReportsAt(slots[0], line) && ReportsAt(slots[1], line) && ReportsAt(slots[2], line)
    requires ReportsAt(slots[3], line) && ReportsAt(slots[4], line)
    ensures forall j :: 0 <= j < |slots| ==> ReportsAt(slots[j], line)
  {
    forall j | 0 <= j < |slots|
      ensures ReportsAt(slots[j], line)
    {
      if j == 0 {} else if j == 1 {} else if j == 2 {} else if j == 3 {} else {}
    }
  }

  /** All five checks pass exactly on a valid record. */
  lemma ChecksPass(rec: CsvRecord, line: int)
    ensures var slots := Checks(rec, line);
            (forall j :: 0 <= j < |slots| ==> slots[j].None?) <==> RecordIsValid(rec)
  {
    var slots := Checks(rec, line);
    assert slots[0].None? <==> IsCount(rec.views);
    assert slots[1].None? <==> IsCount(rec.likes);
    assert slots[2].None? <==> IsMonthYear(rec.date);
    assert slots[3].None? <==> Present(rec.author);
    assert slots[4].None? <==> Present(rec.title);
    if RecordIsValid(rec) {
      forall j | 0 <= j < |slots| ensures slots[j].None? {
        if j == 0 {} else if j == 1 {} else if j == 2 {} else if j == 3 {} else {}
      }
    }
  }

  function ErrorFor(errors: seq<ImportError>, field: string): Option<ImportError> {
    if |errors| == 0 then None
    else if errors[0].field == Some(field) then Some(errors[0])
    else ErrorFor(errors[1..], field)
  }

  /** All five checks of one record, without short-circuit. */
  function ValidateRecord(rec: CsvRecord, line: int): (r: RowCheck)
    ensures forall i :: 0 <= i < |r.errors| ==>
              r.errors[i].line == line && r.errors[i].kind != GenericError && r.errors[i].field.Some?
    ensures r.errors == [] <==> RecordIsValid(rec)
    ensures r.errors == [] ==> r.views == ValueOf(rec.views.value) && r.likes == ValueOf(rec.likes.value)
    ensures r.views <= MaxInt && r.likes <= MaxInt
  {
    var v := CheckCount("views", rec.views, line);
    var l := CheckCount("likes", rec.likes, line);
    ChecksReportLine(rec, line);
    ChecksPass(rec, line);
    RowCheck(Collect(Checks(rec, line)), if v.Parsed? then v.value else 0, if l.Parsed? then l.value else 0)
  }

  /** A record's errors come out in check order: views, likes, date,
      author, title. */
  lemma ValidateRecordOrdered(rec: CsvRecord, line: int)
    ensures var errs := ValidateRecord(rec, line).errors;
            forall i, j :: 0 <= i < j < |errs| ==> FieldRank(errs[i].field) < FieldRank(errs[j].field)
  {
    ChecksRanked(rec, line);
    CollectOrdered(Checks(rec, line), 0);
  }

  /** Each field contributes an error exactly when its own check fails, and
      that error is the one the field's check produces. */
  lemma ValidateRecordPerField(rec: CsvRecord, line: int)
    ensures var errs := ValidateRecord(rec, line).errors;
            && ErrorFor(errs, "views") == (if IsCount(rec.views) then None else Some(CheckCount("views", rec.views, line).error))
            && ErrorFor(errs, "likes") == (if IsCount(rec.likes) then None else Some(CheckCount("likes", rec.likes, line).error))
            && ErrorFor(errs, "date") == CheckDate(rec.date, line)
            && ErrorFor(errs, "author") == CheckRequired("author", rec.author, line)
            && ErrorFor(errs, "title") == CheckRequired("title", rec.title, line)
  {
    var slots := Checks(rec, line);
    FieldRanks();
    ChecksRanked(rec, line);
    CollectFind(slots, 0, "views");
    CollectFind(slots, 0, "likes");
    CollectFind(slots, 0, "date");
    CollectFind(slots, 0, "author");
    CollectFind(slots, 0, "title");
  }

  // ---------------------------------------------------------------------
  // The recorded scenarios
  // ---------------------------------------------------------------------

  lemma LeadingCharNotBlank(s: string)
    requires |s| > 0 && !IsTrimmable(s[0])
    ensures Present(Some(s))
  {
    BlankIffAllTrimmable(s);
  }

  /** Non-digit counts are number format errors echoing the raw value. */
  lemma WordViewsRejected()
    ensures CheckCount("views", Some("invalid"), 2) == Rejected(ImportError(2, NumberParseError, Some("views"),
              Some("invalid"), NotDigitsMessage("views", "invalid")))
  {
    LeadingCharNotBlank("invalid");
    assert !IsDigit("invalid"[0]);
  }

  lemma NaNLikesRejected()
    ensures CheckCount("likes", Some("NaN"), 3) == Rejected(ImportError(3, NumberParseError, Some("likes"),
              Some("NaN"), NotDigitsMessage("likes", "NaN")))
  {
    LeadingCharNotBlank("NaN");
    assert !IsDigit("NaN"[0]);
  }

  /** An ISO date is a date parse error naming the pattern. */
  lemma IsoDateRejected()
    ensures CheckDate(Some("2023-01-01"), 2) == Some(ImportError(2, DateParseError, Some("date"),
              Some("2023-01-01"), BadDateMessage("2023-01-01")))
  {
    var s := "2023-01-01";
    LeadingCharNotBlank(s);
    assert s[|s| - 5] == '0';
    assert ParseMonthYear(s).None?;
    MonthYearReads(Some(s));
  }

  /** A month name and a year are accepted. */
  lemma MonthYearAccepted()
    ensures CheckDate(Some("January 2023"), 2) == None
  {
    var ym := YearMonth(2023, 1);
    assert Fixed(2023, 4) == "2023";
    assert FormatMonthYear(ym) == "January 2023";
  }
}

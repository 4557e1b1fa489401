/** The orchestration of `ImportService.importCsv`: decode errors first,
    then one pass over the decoded records, validating each, and persisting
    the valid ones through `SpeakerService.findOrCreate` and
    `TalkService.saveIfNotExists`.

    The CSV decoder is a foreign library: its captured exceptions, a
    critical failure and the decoded records are inputs. The store can fail
    independently of its contents (a lost connection, a constraint the model
    does not know); that is the `faults` oracle, which says for a record's
    line and a persistence step whether that call throws and with which
    message. A failing call writes nothing. */
module ImportRun {
  import opened Outcomes
  import opened Seqs
  import opened Text
  import opened Dates
  import opened Speakers
  import opened Talks
  import opened CsvRecords
  import opened ImportRules

  /** The two store calls a valid record makes, in order. */
  datatype Step = SpeakerStep | TalkStep

  /** `faults(line, step) == Some(m)`: that call throws with message `m`. */
  type Faults = (int, Step) -> Option<string>

  /** One exception OpenCSV captured while decoding. */
  datatype DecodeIssue = DecodeIssue(line: int, requiredFieldEmpty: bool, message: string)

  /** What the decoder hands over: its captured exceptions, the message of
      a `RuntimeException` thrown by `parse()` if any, and the records. */
  datatype Batch = Batch(captured: seq<DecodeIssue>, critical: Option<string>, records: seq<CsvRecord>)

  /** `ImportResult`: the number of records stored or already present, and
      every error in the order it was reported. */
  datatype ImportResult = ImportResult(count: nat, errors: seq<ImportError>)

  /** The loop's state: the counters and the store. */
  datatype RunState = RunState(count: nat, errors: seq<ImportError>, db: Db)

  function DecodeError(issue: DecodeIssue): (e: ImportError)
    ensures e.line == issue.line && e.field.None? && e.value.None? && e.message == issue.message
    ensures e.kind == (if issue.requiredFieldEmpty then MissingField else ColumnMismatch)
  {
    ImportError(issue.line, if issue.requiredFieldEmpty then MissingField else ColumnMismatch,
                None, None, issue.message)
  }

  function DecodeErrors(captured: seq<DecodeIssue>): (r: seq<ImportError>)
    ensures |r| == |captured|
    ensures forall i :: 0 <= i < |r| ==> r[i] == DecodeError(captured[i])
  {
    if |captured| == 0 then [] else DecodeErrors(captured[..|captured| - 1]) + [DecodeError(captured[|captured| - 1])]
  }

  function CriticalError(message: string): ImportError {
    ImportError(-1, GenericError, None, None, "Critical error during CSV parsing: " + message)
  }

  function SavePrefix(title: string): string {
    "Error saving record for title '" + title + "': "
  }

  function SaveError(title: string, message: string, line: int): ImportError {
    ImportError(line, GenericError, None, None, SavePrefix(title) + message)
  }

  /** A persistence error reported for the record with this title. */
  predicate IsSaveError(e: ImportError, title: string, line: int) {
    && e.line == line && e.kind == GenericError && e.field.None? && e.value.None?
    && SavePrefix(title) <= e.message
  }

  predicate IsGeneric(e: ImportError) {
    e.kind == GenericError
  }

  /** A record that passes every field check (the check does not depend
      on the line it is reported at). */
  predicate Accepted(rec: CsvRecord) {
    ValidateRecord(rec, 0).errors == []
  }

  // ---------------------------------------------------------------------
  // One record
  // ---------------------------------------------------------------------

  /** The `try` block of a valid record: find or create the author, then
      save the talk unless its natural key is already stored. Each call is
      atomic; a speaker created by the first call stays when the second
      fails, because the import itself is not transactional. */
  function Persist(db: Db, rec: CsvRecord, author: string, views: int, likes: int, line: int, faults: Faults)
    : (r: (Db, Result<()>))
  {
    match faults(line, SpeakerStep)
    case Some(m) => (db, Err(DataAccess(m)))
    case None =>
      var (speakers, speaker) := FindOrCreate(db.speakers, author);
      match faults(line, TalkStep)
      case Some(m) => (Db(speakers, db.talks), Err(DataAccess(m)))
      case None =>
        var (talks, outcome) := SaveIfNotExists(db.talks, rec, speaker.id, views, likes);
        (Db(speakers, talks), outcome)
  }

  /** A failing speaker call writes nothing and skips the talk call; a
      failing talk call keeps the speaker call's effect; otherwise both
      calls take effect in turn. */
  lemma PersistSteps(db: Db, rec: CsvRecord, author: string, views: int, likes: int, line: int, faults: Faults)
    ensures var r := Persist(db, rec, author, views, likes, line, faults);
            && (faults(line, SpeakerStep).Some? ==> r == (db, Err(DataAccess(faults(line, SpeakerStep).value))))
            && (faults(line, SpeakerStep).None? ==> r.0.speakers == FindOrCreate(db.speakers, author).0)
            && (faults(line, SpeakerStep).None? && faults(line, TalkStep).Some? ==>
                  r.0.talks == db.talks && r.1 == Err(DataAccess(faults(line, TalkStep).value)))
            && (faults(line, SpeakerStep).None? && faults(line, TalkStep).None? ==>
                  var saved := SaveIfNotExists(db.talks, rec, FindOrCreate(db.speakers, author).1.id, views, likes);
                  r.0.talks == saved.0 && r.1 == saved.1)
  {
  }

  /** A rejected record: its validation errors are appended, nothing else
      changes. */
  function Reject(st: RunState, errors: seq<ImportError>): (r: RunState)
    ensures r.count == st.count && r.db == st.db
    ensures |r.errors| == |st.errors| + |errors|
    ensures r.errors[..|st.errors|] == st.errors && r.errors[|st.errors|..] == errors
  {
    var all := st.errors + errors;
    assert all[..|st.errors|] == st.errors;
    assert all[|st.errors|..] == errors;
    RunState(st.count, all, st.db)
  }

  /** An accepted record: counted when both store calls succeed, otherwise
      reported by one save error naming its title. */
  function Store(st: RunState, rec: CsvRecord, title: string, author: string, views: int, likes: int,
                 line: int, faults: Faults): (r: RunState)
    ensures var (db, outcome) := Persist(st.db, rec, author, views, likes, line, faults);
            && r.db == db
            && (outcome.Ok? ==> r.count == st.count + 1 && r.errors == st.errors)
            && (outcome.Err? ==> r.count == st.count && r.errors == st.errors + [SaveError(title, outcome.failure.Message(), line)])
  {
    var (db, outcome) := Persist(st.db, rec, author, views, likes, line, faults);
    if outcome.Ok? then RunState(st.count + 1, st.errors, db)
    else RunState(st.count, st.errors + [SaveError(title, outcome.failure.Message(), line)], db)
  }

  /** One iteration of the record loop, at the given line: a record is
      either rejected or stored, and whatever it reports carries its line. */
  function ProcessRecord(st: RunState, rec: CsvRecord, line: int, faults: Faults): RunState {
    var check := ValidateRecord(rec, line);
    if check.errors != [] then
      Reject(st, check.errors)
    else
      Store(st, rec, rec.title.value, rec.author.value, check.views, check.likes, line, faults)
  }

  /** A record step keeps the errors already reported in front. */
  lemma ProcessRecordKeepsErrors(st: RunState, rec: CsvRecord, line: int, faults: Faults)
    ensures var r := ProcessRecord(st, rec, line, faults);
            |st.errors| <= |r.errors| && r.errors[..|st.errors|] == st.errors
  {
    var check := ValidateRecord(rec, line);
    if check.errors == [] {
      StoreKeepsErrors(st, rec, rec.title.value, rec.author.value, check.views, check.likes, line, faults);
    }
  }

  lemma StoreKeepsErrors(st: RunState, rec: CsvRecord, title: string, author: string, views: int, likes: int,
                         line: int, faults: Faults)
    ensures var r := Store(st, rec, title, author, views, likes, line, faults);
            |st.errors| <= |r.errors| && r.errors[..|st.errors|] == st.errors
  {
    var (db, outcome) := Persist(st.db, rec, author, views, likes, line, faults);
    if outcome.Err? {
      PrefixOfAppend(st.errors, [SaveError(title, outcome.failure.Message(), line)]);
    }
  }

  /** A record step adds only errors at its own line. */
  lemma ProcessRecordReportsLine(st: RunState, rec: CsvRecord, line: int, faults: Faults)
    ensures var r := ProcessRecord(st, rec, line, faults);
            forall i :: |st.errors| <= i < |r.errors| ==> r.errors[i].line == line
  {
  }

  /** A record with any validation error is reported by exactly those
      errors, and causes no store call and no count change. */
  lemma RejectedRecordWritesNothing(st: RunState, rec: CsvRecord, line: int, faults: Faults)
    requires !Accepted(rec)
    ensures var r := ProcessRecord(st, rec, line, faults);
            && r.count == st.count && r.db == st.db
            && r.errors == st.errors + ValidateRecord(rec, line).errors
  {
    var r := ProcessRecord(st, rec, line, faults);
    assert r.errors == r.errors[..|st.errors|] + r.errors[|st.errors|..];
  }

  /** An accepted record is either counted with no error, or not counted
      and reported by one save error naming its title. */
  lemma AcceptedRecordCountsOrReports(st: RunState, rec: CsvRecord, line: int, faults: Faults)
    requires Accepted(rec)
    ensures var r := ProcessRecord(st, rec, line, faults);
            || (r.count == st.count + 1 && r.errors == st.errors)
            || (r.count == st.count && |r.errors| == |st.errors| + 1 && IsSaveError(r.errors[|st.errors|], rec.title.value, line))
  {
  }

  /** The bookkeeping of one record: an accepted record adds one to the
      count or one save error, a rejected one adds to neither. */
  lemma ProcessRecordAccounts(st: RunState, rec: CsvRecord, line: int, faults: Faults)
    ensures var r := ProcessRecord(st, rec, line, faults);
            && st.count <= r.count
            && (r.count - st.count) + Count(r.errors[|st.errors|..], IsGeneric) == (if Accepted(rec) then 1 else 0)
  {
    var r := ProcessRecord(st, rec, line, faults);
    if Accepted(rec) {
      AcceptedRecordCountsOrReports(st, rec, line, faults);
      AcceptedTally(st, r, rec.title.value, line);
    } else {
      RejectedRecordWritesNothing(st, rec, line, faults);
      ValidationErrors(rec, line);
      RejectedTally(st, r, ValidateRecord(rec, line).errors);
    }
  }

  /** Validation never reports a persistence error. */
  lemma ValidationErrors(rec: CsvRecord, line: int)
    ensures forall i :: 0 <= i < |ValidateRecord(rec, line).errors| ==> !IsGeneric(ValidateRecord(rec, line).errors[i])
  {
  }

  lemma AcceptedTally(st: RunState, r: RunState, title: string, line: int)
    requires || (r.count == st.count + 1 && r.errors == st.errors)
             || (r.count == st.count && |r.errors| == |st.errors| + 1 && IsSaveError(r.errors[|st.errors|], title, line))
    ensures st.count <= r.count
    ensures (r.count - st.count) + Count(r.errors[|st.errors|..], IsGeneric) == 1
  {
    if r.count == st.count {
      var added := r.errors[|st.errors|..];
      assert added == [r.errors[|st.errors|]];
      assert IsGeneric(added[0]);
      assert Count(added[1..], IsGeneric) == 0;
    } else {
      assert r.errors[|st.errors|..] == [];
    }
  }

  lemma RejectedTally(st: RunState, r: RunState, errors: seq<ImportError>)
    requires r.count == st.count && r.errors == st.errors + errors
    requires forall i :: 0 <= i < |errors| ==> !IsGeneric(errors[i])
    ensures (r.count - st.count) + Count(r.errors[|st.errors|..], IsGeneric) == 0
  {
    assert r.errors[|st.errors|..] == errors;
  }

  /** A failing speaker lookup writes nothing, and no talk write is tried. */
  lemma SpeakerFaultWritesNothing(st: RunState, rec: CsvRecord, line: int, faults: Faults)
    requires Accepted(rec) && faults(line, SpeakerStep).Some?
    ensures ProcessRecord(st, rec, line, faults) ==
            RunState(st.count, st.errors + [SaveError(rec.title.value, faults(line, SpeakerStep).value, line)], st.db)
  {
  }

  /** Once the speaker step succeeds, its effect stays, even when the talk
      step fails. */
  lemma SpeakerStepPersists(st: RunState, rec: CsvRecord, line: int, faults: Faults)
    requires Accepted(rec) && faults(line, SpeakerStep).None?
    ensures ProcessRecord(st, rec, line, faults).db.speakers == FindOrCreate(st.db.speakers, rec.author.value).0
  {
  }

  /** A talk whose key is stored once already still counts as imported,
      and nothing is written for it. */
  lemma ExistingTalkCounts(st: RunState, rec: CsvRecord, line: int, faults: Faults)
    requires Accepted(rec) && faults(line, SpeakerStep).None? && faults(line, TalkStep).None?
    requires var speaker := FindOrCreate(st.db.speakers, rec.author.value).1;
             Count(st.db.talks.rows, KeyedBy(rec.title.value, speaker.id, RecordDate(rec).value)) == 1
    ensures var r := ProcessRecord(st, rec, line, faults);
            r.count == st.count + 1 && r.errors == st.errors && r.db.talks == st.db.talks
  {
    var check := ValidateRecord(rec, line);
    assert check.errors == [];
    MonthYearReads(rec.date);
  }

  /** A title of em spaces survives `trim()`, so the record
      passes validation, but `Assert.hasText` rejects it when the talk is
      saved: the row is reported as a save error. */
  lemma WideSpaceTitleIsSaveError(st: RunState, rec: CsvRecord, line: int, faults: Faults)
    requires rec.title == Some(EmSpace)
    requires IsCount(rec.views) && IsCount(rec.likes) && RecordDate(rec).Some? && Present(rec.author)
    requires faults(line, SpeakerStep).None? && faults(line, TalkStep).None?
    requires var speaker := FindOrCreate(st.db.speakers, rec.author.value).1;
             Count(st.db.talks.rows, KeyedBy(EmSpace, speaker.id, RecordDate(rec).value)) == 0
    ensures ProcessRecord(st, rec, line, faults) ==
            RunState(st.count,
                     st.errors + [SaveError(EmSpace, "Talk title cannot be empty", line)],
                     Db(FindOrCreate(st.db.speakers, rec.author.value).0, st.db.talks))
  {
    MonthYearReads(rec.date);
    WideSpaceTitlePasses(rec, line);
    ProcessAccepted(st, rec, line, faults);
    var check := ValidateRecord(rec, line);
    WideSpaceTitleRefused(st, rec, rec.author.value, check.views, check.likes, line, faults);
  }

  /** A record that passes validation goes to the store. */
  lemma ProcessAccepted(st: RunState, rec: CsvRecord, line: int, faults: Faults)
    requires ValidateRecord(rec, line).errors == []
    ensures rec.title.Some? && rec.author.Some?
    ensures var check := ValidateRecord(rec, line);
            ProcessRecord(st, rec, line, faults)
            == Store(st, rec, rec.title.value, rec.author.value, check.views, check.likes, line, faults)
  {
  }

  /** The store step of an em-space title: the speaker call takes effect,
      the talk call is refused. */
  lemma WideSpaceTitleRefused(st: RunState, rec: CsvRecord, author: string, views: int, likes: int,
                              line: int, faults: Faults)
    requires rec.title == Some(EmSpace)
    requires RecordDate(rec).Some?
    requires faults(line, SpeakerStep).None? && faults(line, TalkStep).None?
    requires var speaker := FindOrCreate(st.db.speakers, author).1;
             Count(st.db.talks.rows, KeyedBy(EmSpace, speaker.id, RecordDate(rec).value)) == 0
    ensures Store(st, rec, EmSpace, author, views, likes, line, faults) ==
            RunState(st.count,
                     st.errors + [SaveError(EmSpace, "Talk title cannot be empty", line)],
                     Db(FindOrCreate(st.db.speakers, author).0, st.db.talks))
  {
    PersistSteps(st.db, rec, author, views, likes, line, faults);
    var speaker := FindOrCreate(st.db.speakers, author).1;
    var saved := SaveIfNotExists(st.db.talks, rec, speaker.id, views, likes);
    assert !HasText(EmSpace) by {
      assert IsJavaWhitespace(EmSpace[0]);
    }
    assert saved == (st.db.talks, Err(IllegalArgument("Talk title cannot be empty")));
  }

  /** U+2003, which `trim()` keeps and `Character.isWhitespace` accepts. */
  const EmSpace: string := "\U{2003}"

  lemma WideSpaceTitlePasses(rec: CsvRecord, line: int)
    requires rec.title == Some(EmSpace)
    requires IsCount(rec.views) && IsCount(rec.likes) && IsMonthYear(rec.date) && Present(rec.author)
    ensures ValidateRecord(rec, line).errors == [] && Accepted(rec)
  {
    LeadingCharNotBlank(EmSpace);
    assert Present(rec.title);
    assert RecordIsValid(rec);
  }

  // ---------------------------------------------------------------------
  // The record loop
  // ---------------------------------------------------------------------

  /** One loop iteration as a value: state, record and line to state. */
  type RecordStep = (RunState, CsvRecord, int) -> RunState

  /** The loop over the decoded records: the record at index k is handled
      at line k + 2, since the counter starts at 1 and is incremented
      before each record. */
  function Fold(step: RecordStep, init: RunState, records: seq<CsvRecord>): RunState
    decreases |records|
  {
    if |records| == 0 then init
    else
      var n := |records|;
      step(Fold(step, init, records[..n - 1]), records[n - 1], n + 1)
  }

  /** Folding one more record is one more step, at that record's line. */
  lemma FoldStep(step: RecordStep, init: RunState, records: seq<CsvRecord>, k: int)
    requires 0 <= k < |records|
    ensures Fold(step, init, records[..k + 1]) == step(Fold(step, init, records[..k]), records[k], k + 2)
  {
    assert records[..k + 1][..k] == records[..k];
  }

  function Stepper(faults: Faults): RecordStep {
    (st: RunState, rec: CsvRecord, line: int) => ProcessRecord(st, rec, line, faults)
  }

  /** `importCsv`'s record loop. */
  function Run(init: RunState, records: seq<CsvRecord>, faults: Faults): RunState {
    Fold(Stepper(faults), init, records)
  }

  /** A step that only appends errors, all at its own line. */
  ghost predicate Appends(step: RecordStep) {
    forall st, rec, line ::
      var r := step(st, rec, line);
      && |st.errors| <= |r.errors| && r.errors[..|st.errors|] == st.errors
      && (forall i :: |st.errors| <= i < |r.errors| ==> r.errors[i].line == line)
  }

  /** A step that counts or reports each accepted record once and neither
      counts nor reports a persistence error for a rejected one. */
  ghost predicate Accounts(step: RecordStep, accepted: CsvRecord -> bool) {
    forall st, rec, line ::
      var r := step(st, rec, line);
      && |st.errors| <= |r.errors| && st.count <= r.count
      && (r.count - st.count) + Count(r.errors[|st.errors|..], IsGeneric) == (if accepted(rec) then 1 else 0)
  }

  /** A step that leaves the store and the count alone on a rejected record. */
  ghost predicate RejectsQuietly(step: RecordStep, accepted: CsvRecord -> bool) {
    forall st, rec, line :: !accepted(rec) ==>
      step(st, rec, line).db == st.db && step(st, rec, line).count == st.count
  }

  /** A step that keeps the store's invariants. */
  ghost predicate Keeps(step: RecordStep) {
    forall st: RunState, rec, line :: StoreInvariant(st.db) ==> StoreInvariant(step(st, rec, line).db)
  }

  /** The store's invariants: ids are fresh and distinct, at most one
      speaker per name, at most one talk per natural key. */
  predicate StoreInvariant(db: Db) {
    && Valid(db.speakers) && UniqueNames(db.speakers)
    && ValidTalks(db.talks) && UniqueKeys(db.talks)
  }

  lemma ProcessRecordKeepsInvariant(st: RunState, rec: CsvRecord, line: int, faults: Faults)
    requires StoreInvariant(st.db)
    ensures StoreInvariant(ProcessRecord(st, rec, line, faults).db)
  {
    var check := ValidateRecord(rec, line);
    if check.errors == [] {
      var author := rec.author.value;
      PersistSteps(st.db, rec, author, check.views, check.likes, line, faults);
      if faults(line, SpeakerStep).None? {
        FindOrCreateKeepsValid(st.db.speakers, author);
        FindOrCreateKeepsUniqueNames(st.db.speakers, author);
        var speaker := FindOrCreate(st.db.speakers, author).1;
        SaveIfNotExistsKeepsValid(st.db.talks, rec, speaker.id, check.views, check.likes);
        SaveIfNotExistsKeepsUniqueKeys(st.db.talks, rec, speaker.id, check.views, check.likes);
      }
    }
  }

  /** The record step only appends errors at its own line. */
  lemma StepperAppends(faults: Faults)
    ensures Appends(Stepper(faults))
  {
    var step := Stepper(faults);
    forall st, rec, line ensures
      var r := step(st, rec, line);
      && |st.errors| <= |r.errors| && r.errors[..|st.errors|] == st.errors
      && (forall i :: |st.errors| <= i < |r.errors| ==> r.errors[i].line == line)
    {
      ProcessRecordKeepsErrors(st, rec, line, faults);
      ProcessRecordReportsLine(st, rec, line, faults);
    }
  }

  /** The record step counts or reports every accepted record once. */
  lemma StepperAccounts(faults: Faults)
    ensures Accounts(Stepper(faults), Accepted)
  {
    var step := Stepper(faults);
    forall st, rec, line ensures
      var r := step(st, rec, line);
      && |st.errors| <= |r.errors| && st.count <= r.count
      && (r.count - st.count) + Count(r.errors[|st.errors|..], IsGeneric) == (if Accepted(rec) then 1 else 0)
    {
      ProcessRecordAccounts(st, rec, line, faults);
    }
  }

  /** The record step writes nothing for a rejected record. */
  lemma StepperRejectsQuietly(faults: Faults)
    ensures RejectsQuietly(Stepper(faults), Accepted)
  {
    var step := Stepper(faults);
    forall st, rec, line | !Accepted(rec)
      ensures step(st, rec, line).db == st.db && step(st, rec, line).count == st.count
    {
      RejectedRecordWritesNothing(st, rec, line, faults);
    }
  }

  /** The record step keeps the store's invariants. */
  lemma StepperKeeps(faults: Faults)
    ensures Keeps(Stepper(faults))
  {
    var step := Stepper(faults);
    forall st: RunState, rec, line | StoreInvariant(st.db)
      ensures StoreInvariant(step(st, rec, line).db)
    {
      ProcessRecordKeepsInvariant(st, rec, line, faults);
    }
  }

  /** The loop only appends: errors reported before it (the decode errors)
      stay in front. */
  lemma {:induction false} FoldAppends(step: RecordStep, init: RunState, records: seq<CsvRecord>)
    requires Appends(step)
    ensures var r := Fold(step, init, records);
            |init.errors| <= |r.errors| && r.errors[..|init.errors|] == init.errors
    decreases |records|
  {
    if |records| > 0 {
      var n := |records|;
      FoldAppends(step, init, records[..n - 1]);
      var mid := Fold(step, init, records[..n - 1]);
      var r := Fold(step, init, records);
      assert r.errors[..|init.errors|] == r.errors[..|mid.errors|][..|init.errors|];
    }
  }

  /** Row errors come in line order, from line 2 to the last record's line:
      the errors of the record at index k are the ones at line k + 2. */
  lemma {:induction false} FoldLines(step: RecordStep, init: RunState, records: seq<CsvRecord>)
    requires Appends(step)
    ensures var r := Fold(step, init, records);
            && (forall i :: |init.errors| <= i < |r.errors| ==> 2 <= r.errors[i].line <= |records| + 1)
            && (forall i, j :: |init.errors| <= i < j < |r.errors| ==> r.errors[i].line <= r.errors[j].line)
    decreases |records|
  {
    FoldAppends(step, init, records);
    if |records| > 0 {
      var n := |records|;
      FoldLines(step, init, records[..n - 1]);
      FoldAppends(step, init, records[..n - 1]);
      var mid := Fold(step, init, records[..n - 1]);
      var r := Fold(step, init, records);
      assert r == step(mid, records[n - 1], n + 1);
      forall i | |init.errors| <= i < |mid.errors| ensures r.errors[i] == mid.errors[i] {
        assert r.errors[..|mid.errors|][i] == r.errors[i];
      }
    }
  }

  /** Every accepted record is either counted or reported by exactly one
      save error; rejected records contribute to neither. */
  lemma {:induction false} FoldAccounts(step: RecordStep, accepted: CsvRecord -> bool, init: RunState, records: seq<CsvRecord>)
    requires Appends(step) && Accounts(step, accepted)
    ensures var r := Fold(step, init, records);
            && |init.errors| <= |r.errors|
            && init.count <= r.count
            && (r.count - init.count) + Count(r.errors[|init.errors|..], IsGeneric) == Count(records, accepted)
    decreases |records|
  {
    if |records| > 0 {
      var n := |records|;
      var prefix := records[..n - 1];
      var rec := records[n - 1];
      FoldAccounts(step, accepted, init, prefix);
      FoldAppends(step, init, prefix);
      var mid := Fold(step, init, prefix);
      var r := Fold(step, init, records);
      assert r == step(mid, rec, n + 1);
      AppendsAt(step, mid, rec, n + 1);
      AccountsAt(step, accepted, mid, rec, n + 1);
      var added := r.errors[|mid.errors|..];
      SplitAfter(init.errors, mid.errors, r.errors);
      CountAppend(mid.errors[|init.errors|..], added, IsGeneric);
      CountLast(records, accepted);
    }
  }

  lemma AppendsAt(step: RecordStep, st: RunState, rec: CsvRecord, line: int)
    requires Appends(step)
    ensures var r := step(st, rec, line);
            |st.errors| <= |r.errors| && r.errors[..|st.errors|] == st.errors
  {
  }

  lemma AccountsAt(step: RecordStep, accepted: CsvRecord -> bool, st: RunState, rec: CsvRecord, line: int)
    requires Accounts(step, accepted)
    ensures var r := step(st, rec, line);
            && |st.errors| <= |r.errors| && st.count <= r.count
            && (r.count - st.count) + Count(r.errors[|st.errors|..], IsGeneric) == (if accepted(rec) then 1 else 0)
  {
  }

  /** The tail after a prefix of a prefix splits at the inner prefix. */
  lemma SplitAfter<T>(a: seq<T>, b: seq<T>, c: seq<T>)
    requires |a| <= |b| && b[..|a|] == a
    requires |b| <= |c| && c[..|b|] == b
    ensures c[|a|..] == b[|a|..] + c[|b|..]
  {
    assert c[|a|..] == c[|a|..|b|] + c[|b|..];
    assert c[|a|..|b|] == b[|a|..];
  }

  /** A batch whose records all fail validation leaves the store and the
      count untouched. */
  lemma {:induction false} FoldRejected(step: RecordStep, accepted: CsvRecord -> bool, init: RunState, records: seq<CsvRecord>)
    requires RejectsQuietly(step, accepted)
    requires forall k :: 0 <= k < |records| ==> !accepted(records[k])
    ensures Fold(step, init, records).db == init.db
    ensures Fold(step, init, records).count == init.count
    decreases |records|
  {
    if |records| > 0 {
      var n := |records|;
      FoldRejected(step, accepted, init, records[..n - 1]);
      assert !accepted(records[n - 1]);
    }
  }

  /** The loop never breaks the store's invariants, whatever fails. */
  lemma {:induction false} FoldKeeps(step: RecordStep, init: RunState, records: seq<CsvRecord>)
    requires Keeps(step)
    requires StoreInvariant(init.db)
    ensures StoreInvariant(Fold(step, init, records).db)
    decreases |records|
  {
    if |records| > 0 {
      FoldKeeps(step, init, records[..|records| - 1]);
    }
  }

  // ---------------------------------------------------------------------
  // The whole import
  // ---------------------------------------------------------------------

  /** `importCsv`: decode errors first; a critical decode failure ends the
      import with a zero count and nothing stored; otherwise the loop. */
  function Import(db: Db, batch: Batch, faults: Faults): (r: (Db, ImportResult))
    ensures batch.critical.Some? ==>
              r == (db, ImportResult(0, DecodeErrors(batch.captured) + [CriticalError(batch.critical.value)]))
  {
    ImportWith(Stepper(faults), db, batch)
  }

  /** The import with its record step as a parameter. */
  function ImportWith(step: RecordStep, db: Db, batch: Batch): (Db, ImportResult) {
    if batch.critical.Some? then
      (db, ImportResult(0, DecodeErrors(batch.captured) + [CriticalError(batch.critical.value)]))
    else
      var st := Fold(step, RunState(0, DecodeErrors(batch.captured), db), batch.records);
      (st.db, ImportResult(st.count, st.errors))
  }

  /** Decode errors come first, in the order the decoder captured them. */
  lemma ImportReportsDecodeErrorsFirst(db: Db, batch: Batch, faults: Faults)
    ensures var errs := Import(db, batch, faults).1.errors;
            |batch.captured| <= |errs| && errs[..|batch.captured|] == DecodeErrors(batch.captured)
  {
    StepperAppends(faults);
    DecodeErrorsFirst(Stepper(faults), db, batch);
  }

  lemma DecodeErrorsFirst(step: RecordStep, db: Db, batch: Batch)
    requires Appends(step)
    ensures var errs := ImportWith(step, db, batch).1.errors;
            |batch.captured| <= |errs| && errs[..|batch.captured|] == DecodeErrors(batch.captured)
  {
    var decoded := DecodeErrors(batch.captured);
    if batch.critical.Some? {
      assert (decoded + [CriticalError(batch.critical.value)])[..|decoded|] == decoded;
    } else {
      FoldAppends(step, RunState(0, decoded, db), batch.records);
    }
  }

  /** Row errors follow the decode errors in line order; the record at index
      k is reported at line k + 2. */
  lemma ImportLines(db: Db, batch: Batch, faults: Faults)
    requires batch.critical.None?
    ensures var errs := Import(db, batch, faults).1.errors;
            && (forall i :: |batch.captured| <= i < |errs| ==> 2 <= errs[i].line <= |batch.records| + 1)
            && (forall i, j :: |batch.captured| <= i < j < |errs| ==> errs[i].line <= errs[j].line)
  {
    StepperAppends(faults);
    LinesInOrder(Stepper(faults), db, batch);
  }

  lemma LinesInOrder(step: RecordStep, db: Db, batch: Batch)
    requires batch.critical.None? && Appends(step)
    ensures var errs := ImportWith(step, db, batch).1.errors;
            && (forall i :: |batch.captured| <= i < |errs| ==> 2 <= errs[i].line <= |batch.records| + 1)
            && (forall i, j :: |batch.captured| <= i < j < |errs| ==> errs[i].line <= errs[j].line)
  {
    var init := RunState(0, DecodeErrors(batch.captured), db);
    FoldLines(step, init, batch.records);
    assert ImportWith(step, db, batch).1.errors == Fold(step, init, batch.records).errors;
  }

  /** The count plus the save errors is the number of accepted records, so
      the count never exceeds the number of records. */
  lemma ImportCounts(db: Db, batch: Batch, faults: Faults)
    requires batch.critical.None?
    ensures var res := Import(db, batch, faults).1;
            && |batch.captured| <= |res.errors|
            && res.count + Count(res.errors[|batch.captured|..], IsGeneric) == Count(batch.records, Accepted)
            && res.count <= |batch.records|
  {
    StepperAppends(faults);
    StepperAccounts(faults);
    CountsAdd(Stepper(faults), Accepted, db, batch);
  }

  lemma CountsAdd(step: RecordStep, accepted: CsvRecord -> bool, db: Db, batch: Batch)
    requires batch.critical.None? && Appends(step) && Accounts(step, accepted)
    ensures var res := ImportWith(step, db, batch).1;
            && |batch.captured| <= |res.errors|
            && res.count + Count(res.errors[|batch.captured|..], IsGeneric) == Count(batch.records, accepted)
            && res.count <= |batch.records|
  {
    var init := RunState(0, DecodeErrors(batch.captured), db);
    FoldAccounts(step, accepted, init, batch.records);
    assert ImportWith(step, db, batch).1 == ImportResult(Fold(step, init, batch.records).count, Fold(step, init, batch.records).errors);
  }

  /** A batch of rejected records changes nothing in the store and counts
      nothing. */
  lemma ImportOfRejectedRecords(db: Db, batch: Batch, faults: Faults)
    requires forall k :: 0 <= k < |batch.records| ==> !Accepted(batch.records[k])
    ensures Import(db, batch, faults).0 == db
    ensures Import(db, batch, faults).1.count == 0
  {
    StepperRejectsQuietly(faults);
    if batch.critical.None? {
      FoldRejected(Stepper(faults), Accepted, RunState(0, DecodeErrors(batch.captured), db), batch.records);
    }
  }

  /** An import never breaks the store's invariants. */
  lemma ImportKeepsInvariant(db: Db, batch: Batch, faults: Faults)
    requires StoreInvariant(db)
    ensures StoreInvariant(Import(db, batch, faults).0)
  {
    if batch.critical.None? {
      StepperKeeps(faults);
      FoldKeeps(Stepper(faults), RunState(0, DecodeErrors(batch.captured), db), batch.records);
    }
  }

  /** The same import as the Java loop writes it: a running line counter,
      a success counter and an error list. */
  method ImportCsv(db: Db, batch: Batch, faults: Faults) returns (stored: Db, result: ImportResult)
    ensures (stored, result) == Import(db, batch, faults)
  {
    var errors := DecodeErrors(batch.captured);
    if batch.critical.Some? {
      return db, ImportResult(0, errors + [CriticalError(batch.critical.value)]);
    }
    var st := RunState(0, errors, db);
    var currentLine := 1;
    var k := 0;
    while k < |batch.records|
      invariant 0 <= k <= |batch.records|
      invariant currentLine == k + 1
      invariant st == Fold(Stepper(faults), RunState(0, errors, db), batch.records[..k])
    {
      currentLine := currentLine + 1;
      FoldStep(Stepper(faults), RunState(0, errors, db), batch.records, k);
      st := ProcessRecord(st, batch.records[k], currentLine, faults);
      k := k + 1;
    }
    assert batch.records[..k] == batch.records;
    return st.db, ImportResult(st.count, st.errors);
  }
}

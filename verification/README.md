# TED talks service core, modelled in Dafny

This project models the service core of a Spring Boot application that stores TED
talks and their speakers. It covers the following operations:

- It imports talks from a CSV upload (`ImportService.importCsv`).
- It creates, updates, deletes and finds talks and speakers (`TalkService`, `SpeakerService`).
- It ranks speakers by a weighted influence score (`InfluenceService`, `WeightedStrategy`).
- It builds the SQL `ORDER BY` text of the paged listings (`TalkDao`, `SpeakerDao`, `SortUtils`).

The database is modelled as values:

- A speaker table and a talk table hold rows in insertion order, plus the next identity value.
- Every service call is a pure function from the old tables to the new tables and a result.
- A thrown exception is an `Err` that carries the exception class and message.
- A `@Transactional` call that throws leaves the tables unchanged.

Modules, one per file:

| file | module | models |
|---|---|---|
| `outcomes.dfy` | `Outcomes` | `Option`, `Result` and the exception classes |
| `seqs.dfy` | `Seqs` | first match, filter and count over sequences, plus helper lemmas |
| `text.dfy` | `Text` | `String.trim` blank tests, `Character.isWhitespace`-based `hasText`, decimal digits |
| `dates.dfy` | `Dates` | `YearMonth` and the `MMMM yyyy` and `yyyy-MM` patterns |
| `speakers.dfy` | `Speakers` | `SpeakerDao` lookups and save, and `SpeakerService` |
| `csv_record.dfy` | `CsvRecords` | the decoded CSV row |
| `talks.dfy` | `Talks` | `TalkDao` natural-key lookup, insert and join, and `TalkService` |
| `import_rules.dfy` | `ImportRules` | the five field checks of one CSV row |
| `import_run.dfy` | `ImportRun` | the import loop with its store calls and failures |
| `influence.dfy` | `Weighted`, `Influence` | the weighted score, the grouped query, the ranking and the maximum |
| `sort_utils.dfy` | `SortUtil` | `SortUtils.createSort`, `split(",")`, `Direction.fromString`, `equalsIgnoreCase` |
| `sort_clauses.dfy` | `SortClauses` | `TalkDao.buildSortClause` and `SpeakerDao.buildSortClause` |

Store failures during an import come from a *fault oracle*. A fault oracle is a
function parameter that says whether the speaker call or the talk call on a
given line throws, and with what message. The score strategy of the influence
queries is also a function parameter. The ranking lemmas hold for any strategy.

Three behaviours of the code are easy to miss, and the model follows the code in each:

- `SpeakerService.create` saves through `SpeakerDao.save`. That method reads the new id back with `queryForObject` by name, which throws when two rows share the name. The transaction then rolls back. So `create` of an existing name fails, and neither `create` nor `findOrCreate` can produce two speakers with one name. `Speakers.Create` and `Speakers.CreateKeepsUniqueNames` state this.
- `TalkDao.findByTitleAndSpeakerAndDate` also uses `queryForObject`. When two talks already share a natural key (which `create` can cause), `saveIfNotExists` throws instead of skipping. `Talks.FindByNaturalKey` states this.
- The import's blank test is `trim().isEmpty()`, which strips characters up to U+0020. `Assert.hasText` tests `Character.isWhitespace`. These disagree: a title made of one em space (U+2003) passes validation but fails the talk save. `ImportRun.WideSpaceTitleIsSaveError` shows this.

## Model

| member | source | states |
|---|---|---|
| Text.TrimStart | src/main/java/com/narciso/tedtalks/imports/service/ImportService.java:83 | strips exactly the leading characters at or below U+0020; what is left is a suffix and starts with a kept character |
| Text.TrimEnd | src/main/java/com/narciso/tedtalks/imports/service/ImportService.java:83 | strips exactly the trailing characters at or below U+0020; what is left is a prefix and ends with a kept character |
| Text.BlankIffAllTrimmable | src/main/java/com/narciso/tedtalks/imports/service/ImportService.java:83 | `trim().isEmpty()` holds iff every character is at or below U+0020 |
| Text.BlankAndHasTextDiffer | src/main/java/com/narciso/tedtalks/talks/service/TalkService.java:40 | the import's blank test and `Assert.hasText` disagree both ways: U+0001 is blank yet has text; U+2003 is not blank yet has no text |
| Text.Decimal | src/main/java/com/narciso/tedtalks/speakers/service/InfluenceService.java:42 | `String.valueOf` of a natural number is a digit string denoting that number, without leading zeros |
| Text.IntToString | src/main/java/com/narciso/tedtalks/talks/service/TalkService.java:65 | the decimal text of an integer is non-empty and is all digits iff the integer is non-negative |
| Text.FixedValue | src/main/java/com/narciso/tedtalks/talks/dao/TalkDao.java:27-38 | a zero-padded field of width w reads back as the number it prints, when the number fits |
| Text.FixedOfValue | src/main/java/com/narciso/tedtalks/imports/service/ImportService.java:97 | a digit string is its own value printed at its own width, so leading zeros are kept |
| Text.DecimalIsFixed | src/main/java/com/narciso/tedtalks/speakers/service/InfluenceService.java:40-42 | a number with exactly w digits prints the same plain and padded to w |
| Dates.MonthNamed | src/main/java/com/narciso/tedtalks/imports/service/ImportService.java:32-33 | the month whose English full name is the text, and none when no month has that name |
| Dates.MonthNamedInverse | src/main/java/com/narciso/tedtalks/imports/service/ImportService.java:32-33 | every month's full name reads back as that month |
| Dates.ParseMonthYear | src/main/java/com/narciso/tedtalks/imports/service/ImportService.java:143 | a `MMMM yyyy` parse result renders back to the parsed text |
| Dates.ParseFormatMonthYear | src/main/java/com/narciso/tedtalks/talks/service/TalkService.java:29-34 | every year-month is read back from its own `MMMM yyyy` rendering |
| Dates.MonthYearIff | src/main/java/com/narciso/tedtalks/imports/service/ImportService.java:142-150 | the `MMMM yyyy` parse yields ym iff the text is ym's rendering |
| Dates.ParseIso | src/main/java/com/narciso/tedtalks/talks/service/TalkService.java:78 | a `yyyy-MM` parse result renders back to the parsed text |
| Dates.ParseFormatIso | src/main/java/com/narciso/tedtalks/talks/dao/TalkDao.java:27-38 | every year-month is read back from its stored `yyyy-MM` text |
| Dates.IsoIff | src/main/java/com/narciso/tedtalks/talks/service/TalkService.java:76-81 | the `yyyy-MM` parse yields ym iff the text is ym's stored form |
| Dates.FormatIsoInjective | src/main/java/com/narciso/tedtalks/talks/dao/TalkDao.java:118-123 | two year-months have the same stored text iff they are equal, so comparing stored dates compares year-months |
| Dates.StoredYear | src/main/java/com/narciso/tedtalks/speakers/service/InfluenceService.java:41 | the first four characters of the stored date |
| Dates.StoredYearMatches | src/main/java/com/narciso/tedtalks/speakers/service/InfluenceService.java:40-42 | the stored year prefix equals the decimal text of Y iff Y has four digits and is the talk's year |
| Speakers.FindByName | src/main/java/com/narciso/tedtalks/speakers/dao/SpeakerDao.java:37-42 | none iff no row has the name, otherwise the first row with that exact name |
| Speakers.FindById | src/main/java/com/narciso/tedtalks/speakers/dao/SpeakerDao.java:44-49 | none iff no row has the id, otherwise the first row with that id |
| Speakers.Save | src/main/java/com/narciso/tedtalks/speakers/dao/SpeakerDao.java:24-35 | succeeds iff no row has the name yet; then the speaker gets the next id and is appended |
| Speakers.FindOrCreate | src/main/java/com/narciso/tedtalks/speakers/service/SpeakerService.java:17-23 | an existing name returns its first speaker and writes nothing; a new name is appended under the next id; the result always has exactly that name |
| Speakers.GetById | src/main/java/com/narciso/tedtalks/speakers/service/SpeakerService.java:29-32 | succeeds iff some row has the id and returns such a row; otherwise not-found "Speaker not found: id" |
| Speakers.GetByName | src/main/java/com/narciso/tedtalks/speakers/service/SpeakerService.java:34-37 | succeeds iff some row has the name and returns such a row; otherwise not-found "Speaker not found: name" |
| Speakers.Create | src/main/java/com/narciso/tedtalks/speakers/service/SpeakerService.java:38-39 | succeeds iff the name is non-null and new, appending it under the next id; a null name fails with the empty read-back error; on failure the table is unchanged |
| Speakers.Rename | src/main/java/com/narciso/tedtalks/speakers/dao/SpeakerDao.java:98-101 | every row with the id gets the new name; all other rows are unchanged |
| Speakers.Update | src/main/java/com/narciso/tedtalks/speakers/service/SpeakerService.java:41-47 | not-found and no write when the id is missing; a null name for a found speaker is a NullPointerException with no write; otherwise only the names of rows with that id change, and ids and counter stay |
| Speakers.Delete | src/main/java/com/narciso/tedtalks/speakers/service/SpeakerService.java:48-52 | not-found and no write when the id is missing; otherwise exactly the rows with that id are removed |
| Speakers.FindOrCreateIdempotent | src/main/java/com/narciso/tedtalks/speakers/service/SpeakerService.java:18-22 | a second `findOrCreate` of the same name returns the same speaker and leaves the table as the first left it |
| Speakers.FindOrCreateKeepsUniqueNames | src/main/java/com/narciso/tedtalks/speakers/service/SpeakerService.java:18-22 | `findOrCreate` keeps at most one speaker per name |
| Speakers.CreateKeepsUniqueNames | src/main/java/com/narciso/tedtalks/speakers/service/SpeakerService.java:38-39 | `create` keeps at most one speaker per name, because a duplicate fails in `save` |
| Speakers.FindOrCreateKeepsValid | src/main/java/com/narciso/tedtalks/speakers/service/SpeakerService.java:17-23 | `findOrCreate` keeps ids distinct and below the counter |
| Speakers.CreateKeepsValid | src/main/java/com/narciso/tedtalks/speakers/service/SpeakerService.java:38-39 | `create` keeps ids distinct and below the counter |
| Speakers.UpdateKeepsValid | src/main/java/com/narciso/tedtalks/speakers/service/SpeakerService.java:41-47 | `update` keeps ids distinct and below the counter |
| Speakers.DeleteKeepsValid | src/main/java/com/narciso/tedtalks/speakers/service/SpeakerService.java:48-52 | `delete` keeps ids distinct and below the counter |
| Speakers.UpdateCanDuplicateNames | src/main/java/com/narciso/tedtalks/speakers/service/SpeakerService.java:41-47 | `update` does not check names, so it can give two speakers one name |
| Talks.KeyedByIff | src/main/java/com/narciso/tedtalks/talks/dao/TalkDao.java:118-123 | matching the stored key means equal title, speaker id and year-month |
| Talks.Insert | src/main/java/com/narciso/tedtalks/talks/dao/TalkDao.java:33-51 | the talk is appended under the next identity value, which then advances |
| Talks.FindByNaturalKey | src/main/java/com/narciso/tedtalks/talks/dao/TalkDao.java:118-140 | no match gives none, one match gives that talk, two or more give an incorrect-result-size failure; a null title gives none |
| Talks.FindView | src/main/java/com/narciso/tedtalks/talks/dao/TalkDao.java:81-95 | a found view is a stored talk with that id joined with a stored speaker; no talk with the id gives none |
| Talks.FindViewOfStored | src/main/java/com/narciso/tedtalks/talks/dao/TalkDao.java:81-95 | with distinct talk ids, a stored talk whose speaker row exists is found by its id, joined with that speaker's name |
| Talks.GetTalk | src/main/java/com/narciso/tedtalks/talks/service/TalkService.java:146-150 | succeeds iff the joined lookup finds the talk; otherwise "Talk not found with ID: id" |
| Talks.SaveIfNotExists | src/main/java/com/narciso/tedtalks/talks/service/TalkService.java:32-52 | bad date fails; one match writes nothing and succeeds; two or more matches fail; no match inserts the record's talk, unless the title has no text; every failure leaves the table unchanged |
| Talks.ResolveSpeaker | src/main/java/com/narciso/tedtalks/talks/service/TalkService.java:60-74 | an id wins over a name; a non-blank name is found or created; neither is an illegal argument; a failure writes nothing |
| Talks.ResolveById | src/main/java/com/narciso/tedtalks/talks/service/TalkService.java:60-66 | succeeds iff a speaker has the id, returning it; otherwise "Speaker not found with provided speakerId: id" |
| Talks.ResolveByName | src/main/java/com/narciso/tedtalks/talks/service/TalkService.java:67-71 | a resolved speaker carries the given name and is stored; a failure writes nothing |
| Talks.Create | src/main/java/com/narciso/tedtalks/talks/service/TalkService.java:54-95 | a failure leaves both tables unchanged; a success returns the talk under the next id |
| Talks.CreateInserts | src/main/java/com/narciso/tedtalks/talks/service/TalkService.java:83-92 | a success means the speaker resolved and the date read, and appends the request's talk under the next id |
| Talks.CreateErrors | src/main/java/com/narciso/tedtalks/talks/service/TalkService.java:60-74 | a failed speaker resolution is reported unchanged |
| Talks.CreateDateError | src/main/java/com/narciso/tedtalks/talks/service/TalkService.java:76-81 | after the speaker resolves, an unreadable date is the illegal argument naming `yyyy-MM` |
| Talks.CreateFor | src/main/java/com/narciso/tedtalks/talks/service/TalkService.java:76-94 | a bad date fails with no write; a success appends the request's talk under the next id |
| Talks.ResolvedSpeakerIsRow | src/main/java/com/narciso/tedtalks/talks/service/TalkService.java:60-71 | the resolved speaker is a row of the resulting speaker table |
| Talks.ResolvedSpeakerIsStored | src/main/java/com/narciso/tedtalks/talks/service/TalkService.java:60-71 | on a table with distinct ids, the resolved speaker is what its id finds afterwards |
| Talks.FoundByOwnId | src/main/java/com/narciso/tedtalks/speakers/dao/SpeakerDao.java:44-49 | with distinct ids, a stored speaker is what its own id finds |
| Talks.NewestTalkIsFound | src/main/java/com/narciso/tedtalks/talks/dao/TalkDao.java:33-51 | a talk appended under a fresh id is the first row with that id |
| Talks.CreateOnValidDb | src/main/java/com/narciso/tedtalks/talks/service/TalkService.java:54-95 | on tables with distinct ids, `create` succeeds iff the speaker resolves and the date reads, and returns the new talk joined with its speaker's name |
| Talks.CreateForReadsBack | src/main/java/com/narciso/tedtalks/talks/service/TalkService.java:92-94 | the inserted talk is read back with its speaker's name |
| Talks.Replace | src/main/java/com/narciso/tedtalks/talks/dao/TalkDao.java:53-73 | every row with the id becomes the new talk; all other rows are unchanged |
| Talks.Update | src/main/java/com/narciso/tedtalks/talks/service/TalkService.java:97-131 | blank title, null date or null speaker id are illegal arguments; a missing talk or speaker is not-found; a failure writes nothing; a well-formed body for a found talk with an existing speaker succeeds, returning the body's talk under the same id joined with that speaker's name, and replaces the talk's row |
| Talks.UpdateStored | src/main/java/com/narciso/tedtalks/talks/service/TalkService.java:105-130 | a missing talk or speaker is not-found with no write; when both exist the call succeeds with the new talk joined with its speaker's name, and the talk's row is replaced |
| Talks.UpdateRewritesOnlyThatTalk | src/main/java/com/narciso/tedtalks/talks/service/TalkService.java:121-128 | a successful update keeps the speakers, the counter, the row count and every id; it rewrites only rows with that id, and writes them with the request's fields |
| Talks.Delete | src/main/java/com/narciso/tedtalks/talks/service/TalkService.java:133-139 | fails with not-found and no write iff the joined lookup misses; otherwise exactly the rows with that id are removed |
| Talks.SaveIfNotExistsIdempotent | src/main/java/com/narciso/tedtalks/talks/service/TalkService.java:33-52 | a second identical call leaves the table as the first left it, with the same outcome |
| Talks.SaveIfNotExistsKeepsUniqueKeys | src/main/java/com/narciso/tedtalks/talks/service/TalkService.java:35-51 | `saveIfNotExists` never gives two talks one natural key |
| Talks.SaveIfNotExistsKeepsValid | src/main/java/com/narciso/tedtalks/talks/service/TalkService.java:42-50 | `saveIfNotExists` keeps talk ids distinct and below the counter |
| Talks.UpdateKeepsValidTalks | src/main/java/com/narciso/tedtalks/talks/service/TalkService.java:97-131 | `update` keeps talk ids distinct and below the counter |
| Talks.ReplaceKeepsValid | src/main/java/com/narciso/tedtalks/talks/dao/TalkDao.java:53-73 | rewriting a talk under its own id keeps ids distinct and below the counter |
| Talks.DeleteKeepsValidTalks | src/main/java/com/narciso/tedtalks/talks/service/TalkService.java:133-139 | `delete` keeps talk ids distinct and below the counter |
| Talks.OrphanTalkIsNotFound | src/main/java/com/narciso/tedtalks/talks/dao/TalkDao.java:81-95 | with one stored talk whose speaker row is missing, `delete` and any well-formed `update` of it both report the talk not found and write nothing, because the lookup joins speakers |
| ImportRules.MonthYearReads | src/main/java/com/narciso/tedtalks/imports/service/ImportService.java:134-151 | a date column is accepted iff `MMMM yyyy` reads it, and an accepted date is never blank |
| ImportRules.CheckCount | src/main/java/com/narciso/tedtalks/imports/service/ImportService.java:80-132 | accepted iff non-blank, ASCII digits only and at most 2147483647, with the digits' value; otherwise one error at the line: missing field when blank, "Only digits are allowed." for non-digits, "too large" beyond int range |
| ImportRules.CheckCountAcceptsPaddedDecimal | src/main/java/com/narciso/tedtalks/imports/service/ImportService.java:89-97 | every int-range count, with any number of leading zeros, is accepted with its value |
| ImportRules.LeadingZerosValue | src/main/java/com/narciso/tedtalks/imports/service/ImportService.java:89-97 | leading zeros before digits keep the text all digits and do not change its value |
| ImportRules.CheckDate | src/main/java/com/narciso/tedtalks/imports/service/ImportService.java:134-151 | no error iff the date reads as `MMMM yyyy`; a blank date is a missing field; any other text is a date parse error echoing the raw value |
| ImportRules.CheckRequired | src/main/java/com/narciso/tedtalks/imports/service/ImportService.java:153-166 | author or title is an error iff blank after trim, and then a missing-field error |
| ImportRules.Checks | src/main/java/com/narciso/tedtalks/imports/service/ImportService.java:80-166 | the five checks of a record, one slot per field |
| ImportRules.ChecksRanked | src/main/java/com/narciso/tedtalks/imports/service/ImportService.java:80-166 | the slots hold views, likes, date, author and title errors in that order |
| ImportRules.ChecksReportLine | src/main/java/com/narciso/tedtalks/imports/service/ImportService.java:80-166 | every failed check reports the record's line and a named field, and is not a generic error |
| ImportRules.ChecksPass | src/main/java/com/narciso/tedtalks/imports/service/ImportService.java:80-166 | all five checks pass iff the record is valid |
| ImportRules.ValidateRecord | src/main/java/com/narciso/tedtalks/imports/service/ImportService.java:80-166 | no errors iff the record is valid, and then the parsed views and likes; every error carries the line and a field; counts stay within int range |
| ImportRules.ValidateRecordOrdered | src/main/java/com/narciso/tedtalks/imports/service/ImportService.java:80-166 | errors come strictly in field order, so at most one per field |
| ImportRules.ValidateRecordPerField | src/main/java/com/narciso/tedtalks/imports/service/ImportService.java:80-166 | each field has an error iff its own check fails, and it is that check's error |
| ImportRules.WordViewsRejected | src/test/java/com/narciso/tedtalks/ImportServiceTest.java:129 | `invalid` views at line 2 give the expected number-format error |
| ImportRules.NaNLikesRejected | src/test/java/com/narciso/tedtalks/ImportServiceTest.java:130 | `NaN` likes at line 3 give the expected number-format error |
| ImportRules.IsoDateRejected | src/test/java/com/narciso/tedtalks/ImportServiceTest.java:152 | `2023-01-01` gives the expected date parse error |
| ImportRules.MonthYearAccepted | src/test/java/com/narciso/tedtalks/ImportServiceTest.java:79 | `January 2023` is accepted |
| ImportRun.DecodeError | src/main/java/com/narciso/tedtalks/imports/service/ImportService.java:46-58 | a captured decoder exception becomes an error at its line, with no field or value; missing field iff it was a required-field-empty exception, otherwise column mismatch |
| ImportRun.DecodeErrors | src/main/java/com/narciso/tedtalks/imports/service/ImportService.java:46-58 | one error per captured exception, in capture order |
| ImportRun.PersistSteps | src/main/java/com/narciso/tedtalks/imports/service/ImportService.java:172-174 | a failing speaker call writes nothing and no talk write is tried; otherwise the speaker call takes effect, and the talk call either fails without writing or is `saveIfNotExists` for the returned speaker |
| ImportRun.Reject | src/main/java/com/narciso/tedtalks/imports/service/ImportService.java:168-170 | the record's errors are appended; the count and the store are unchanged |
| ImportRun.Store | src/main/java/com/narciso/tedtalks/imports/service/ImportService.java:172-184 | both calls succeeding adds one to the count; a failure adds one save error with the message and no count |
| ImportRun.ProcessRecordKeepsErrors | src/main/java/com/narciso/tedtalks/imports/service/ImportService.java:76-185 | a record step keeps every earlier error in front |
| ImportRun.StoreKeepsErrors | src/main/java/com/narciso/tedtalks/imports/service/ImportService.java:172-184 | the store step keeps every earlier error in front |
| ImportRun.ProcessRecordReportsLine | src/main/java/com/narciso/tedtalks/imports/service/ImportService.java:76-185 | every error a record step adds carries that record's line |
| ImportRun.RejectedRecordWritesNothing | src/main/java/com/narciso/tedtalks/imports/service/ImportService.java:168-170 | an invalid record adds exactly its validation errors; no store call, no count |
| ImportRun.AcceptedRecordCountsOrReports | src/main/java/com/narciso/tedtalks/imports/service/ImportService.java:172-184 | a valid record either adds one to the count and no error, or adds exactly one save error naming its title |
| ImportRun.ProcessRecordAccounts | src/main/java/com/narciso/tedtalks/imports/service/ImportService.java:168-184 | count increase plus added generic errors is one for a valid record and zero for an invalid one |
| ImportRun.ValidationErrors | src/main/java/com/narciso/tedtalks/imports/service/ImportService.java:80-166 | validation never reports a generic error |
| ImportRun.SpeakerFaultWritesNothing | src/main/java/com/narciso/tedtalks/imports/service/ImportService.java:173-184 | a failing speaker call gives one save error with its message, and nothing is written |
| ImportRun.SpeakerStepPersists | src/main/java/com/narciso/tedtalks/imports/service/ImportService.java:173-174 | the speaker call's effect stays even when the talk call then fails |
| ImportRun.ExistingTalkCounts | src/main/java/com/narciso/tedtalks/imports/service/ImportService.java:174-175 | a talk stored once already counts as imported and nothing is written for it |
| ImportRun.WideSpaceTitleIsSaveError | src/main/java/com/narciso/tedtalks/imports/service/ImportService.java:160 | a title of one em space passes validation but fails the talk save's `hasText` check, giving a save error; the speaker is still created |
| ImportRun.ProcessAccepted | src/main/java/com/narciso/tedtalks/imports/service/ImportService.java:168-174 | a record without validation errors has a title and an author, and goes to the store step |
| ImportRun.WideSpaceTitleRefused | src/main/java/com/narciso/tedtalks/talks/service/TalkService.java:40 | at the store step, an em-space title is refused by the talk call after the speaker call took effect |
| ImportRun.WideSpaceTitlePasses | src/main/java/com/narciso/tedtalks/imports/service/ImportService.java:160-166 | an em-space title with valid other fields passes validation |
| ImportRun.FoldStep | src/main/java/com/narciso/tedtalks/imports/service/ImportService.java:75-77 | folding one more record is one more step at line index + 2 |
| ImportRun.ProcessRecordKeepsInvariant | src/main/java/com/narciso/tedtalks/imports/service/ImportService.java:172-184 | a record step keeps distinct ids, unique speaker names and unique talk keys |
| ImportRun.FoldAppends | src/main/java/com/narciso/tedtalks/imports/service/ImportService.java:76-185 | the loop only appends errors |
| ImportRun.FoldLines | src/main/java/com/narciso/tedtalks/imports/service/ImportService.java:75-77 | row errors carry lines 2 to records + 1, in non-decreasing order |
| ImportRun.FoldAccounts | src/main/java/com/narciso/tedtalks/imports/service/ImportService.java:168-184 | count increase plus generic errors equals the number of valid records |
| ImportRun.FoldRejected | src/main/java/com/narciso/tedtalks/imports/service/ImportService.java:168-170 | a batch of invalid records changes neither store nor count |
| ImportRun.FoldKeeps | src/main/java/com/narciso/tedtalks/imports/service/ImportService.java:76-185 | the loop keeps the store's invariants whatever fails |
| ImportRun.Import | src/main/java/com/narciso/tedtalks/imports/service/ImportService.java:60-72 | a critical parse failure gives count 0, the decode errors and one generic error at line -1, and no write |
| ImportRun.ImportReportsDecodeErrorsFirst | src/main/java/com/narciso/tedtalks/imports/service/ImportService.java:46-58 | decode errors come first, in capture order |
| ImportRun.ImportLines | src/main/java/com/narciso/tedtalks/imports/service/ImportService.java:75-77 | row errors follow the decode errors in line order, the record at index k at line k + 2 |
| ImportRun.ImportCounts | src/main/java/com/narciso/tedtalks/imports/service/ImportService.java:175-184 | count plus save errors equals the number of valid records, so the count never exceeds the records |
| ImportRun.ImportOfRejectedRecords | src/main/java/com/narciso/tedtalks/imports/service/ImportService.java:168-170 | importing only invalid records writes nothing and counts zero |
| ImportRun.ImportKeepsInvariant | src/main/java/com/narciso/tedtalks/imports/service/ImportService.java:35-189 | an import keeps distinct ids, unique speaker names and unique talk keys |
| ImportRun.ImportCsv | src/main/java/com/narciso/tedtalks/imports/service/ImportService.java:35-189 | the loop with a running line counter, success counter and error list computes the fold |
| Weighted.Score | src/main/java/com/narciso/tedtalks/speakers/strategy/WeightedStrategy.java:10-16 | ten times the score is exactly 7·views + 3·likes; non-negative for non-negative inputs |
| Weighted.ZeroScore | src/main/java/com/narciso/tedtalks/speakers/strategy/WeightedStrategy.java:14-16 | score(0, 0) is 0 |
| Weighted.ScoreMonotone | src/main/java/com/narciso/tedtalks/speakers/strategy/WeightedStrategy.java:15-16 | more views or likes never lower the score |
| Weighted.ViewsOutweighLikes | src/main/java/com/narciso/tedtalks/speakers/strategy/WeightedStrategy.java:10-11 | when a ≥ b, score(a, b) ≥ score(b, a) |
| Weighted.ScoreExample | src/main/java/com/narciso/tedtalks/speakers/strategy/WeightedStrategy.java:10-16 | score(1000, 100) is 730 |
| Influence.InYearIff | src/main/java/com/narciso/tedtalks/speakers/service/InfluenceService.java:40-42 | the year filter selects a talk iff the year has four digits and is the talk's year |
| Influence.RowOf | src/main/java/com/narciso/tedtalks/speakers/service/InfluenceService.java:49-59 | a group row carries the speaker's id and name and the strategy's score of its totals |
| Influence.RowsOf | src/main/java/com/narciso/tedtalks/speakers/service/InfluenceService.java:46-61 | one row per given speaker, in order |
| Influence.Aggregate | src/main/java/com/narciso/tedtalks/speakers/service/InfluenceService.java:36-44 | one row per speaker with a talk passing the filter |
| Influence.AggregateRowsIff | src/main/java/com/narciso/tedtalks/speakers/service/InfluenceService.java:36-44 | a row is in the result iff it is the group row of a listed speaker with a filtered talk |
| Influence.AggregateDistinct | src/main/java/com/narciso/tedtalks/speakers/service/InfluenceService.java:44 | with distinct speaker ids, no speaker gets two rows |
| Influence.AggregateEmptyIff | src/main/java/com/narciso/tedtalks/speakers/service/InfluenceService.java:36-44 | the result is empty iff no listed speaker has a talk passing the filter |
| Influence.RowTotal | src/main/java/com/narciso/tedtalks/speakers/service/InfluenceService.java:49-52 | a group row holds its speaker's filtered sum of views and of likes |
| Influence.AggregateConserves | src/main/java/com/narciso/tedtalks/speakers/service/InfluenceService.java:34-51 | for views and for likes, the rows' totals sum to that column over all filtered talks of listed speakers |
| Influence.AggregateConservesViews | src/main/java/com/narciso/tedtalks/speakers/service/InfluenceService.java:34-50 | the rows' view totals sum to the views of all filtered talks of listed speakers |
| Influence.AggregateConservesLikes | src/main/java/com/narciso/tedtalks/speakers/service/InfluenceService.java:34-51 | the rows' like totals sum to the likes of all filtered talks of listed speakers |
| Influence.InsertByScorePerm | src/main/java/com/narciso/tedtalks/speakers/service/InfluenceService.java:63-65 | insertion adds exactly the new row |
| Influence.InsertByScoreSorted | src/main/java/com/narciso/tedtalks/speakers/service/InfluenceService.java:63-65 | insertion keeps scores non-increasing |
| Influence.SortByScore | src/main/java/com/narciso/tedtalks/speakers/service/InfluenceService.java:63-65 | the sort is a permutation with non-increasing scores |
| Influence.InsertByScoreStable | src/main/java/com/narciso/tedtalks/speakers/service/InfluenceService.java:63-65 | insertion keeps the relative order of rows with equal scores |
| Influence.SortByScoreStable | src/main/java/com/narciso/tedtalks/speakers/service/InfluenceService.java:63-65 | rows of equal score keep their relative order |
| Influence.AnalyzeInfluence | src/main/java/com/narciso/tedtalks/speakers/service/InfluenceService.java:30-66 | a permutation of the aggregated rows, highest score first |
| Influence.AnalyzeInfluenceRows | src/main/java/com/narciso/tedtalks/speakers/service/InfluenceService.java:30-66 | a row is ranked iff it is the group row of a speaker with a talk in the filter |
| Influence.MaxIndex | src/main/java/com/narciso/tedtalks/speakers/service/InfluenceService.java:87-88 | -1 iff no rows; otherwise a highest-scoring row with only lower scores before it |
| Influence.MaxIndexUnique | src/main/java/com/narciso/tedtalks/speakers/service/InfluenceService.java:87-88 | the first highest-scoring row is the only index with both properties |
| Influence.MostInfluential | src/main/java/com/narciso/tedtalks/speakers/service/InfluenceService.java:68-89 | none iff the year has no rows; otherwise a leader scoring at least every row |
| Influence.MostInfluentialIsFirstMax | src/main/java/com/narciso/tedtalks/speakers/service/InfluenceService.java:87-88 | the leader is the first of the year's rows with the highest score |
| Influence.LeaderHeadsRanking | src/main/java/com/narciso/tedtalks/speakers/service/InfluenceService.java:30-89 | the leader exists iff the ranking is non-empty, and has the ranking's top score |
| Influence.TopOfRanking | src/main/java/com/narciso/tedtalks/speakers/service/InfluenceService.java:63-88 | a stable highest-first ranking of the rows is empty iff the rows are, and its head scores as much as the rows' maximum |
| SortUtil.UpperCase | src/main/java/com/narciso/tedtalks/common/utils/SortUtils.java:15 | upper-cases each character and keeps the length |
| SortUtil.DirectionFromString | src/main/java/com/narciso/tedtalks/common/utils/SortUtils.java:15 | a parsed direction is the one whose name is the upper-cased text |
| SortUtil.DirectionRoundTrip | src/main/java/com/narciso/tedtalks/common/utils/SortUtils.java:15 | `ASC`, `DESC`, `asc` and `desc` parse to their directions |
| SortUtil.DirectionFromStringIff | src/main/java/com/narciso/tedtalks/common/utils/SortUtils.java:15 | the text parses to d iff its upper case is d's name |
| SortUtil.Fields | src/main/java/com/narciso/tedtalks/common/utils/SortUtils.java:13 | at least one field, none containing the separator |
| SortUtil.JoinFields | src/main/java/com/narciso/tedtalks/common/utils/SortUtils.java:13 | joining the fields with the separator restores the text |
| SortUtil.FieldsJoin | src/main/java/com/narciso/tedtalks/common/utils/SortUtils.java:13 | splitting joined separator-free fields gives them back |
| SortUtil.DropTrailingEmpty | src/main/java/com/narciso/tedtalks/common/utils/SortUtils.java:13 | a prefix without a trailing empty part, dropping only empty parts |
| SortUtil.Split | src/main/java/com/narciso/tedtalks/common/utils/SortUtils.java:13 | no part contains a comma |
| SortUtil.SplitPair | src/main/java/com/narciso/tedtalks/common/utils/SortUtils.java:13-16 | `p,q` with comma-free p and non-empty comma-free q splits into p and q |
| SortUtil.SplitTrailingComma | src/main/java/com/narciso/tedtalks/common/utils/SortUtils.java:17-18 | a trailing comma adds no part |
| SortUtil.SplitExamples | src/main/java/com/narciso/tedtalks/common/utils/SortUtils.java:13 | a lone comma splits into no parts; the empty text into one empty part |
| SortUtil.MakeOrder | src/main/java/com/narciso/tedtalks/common/utils/SortUtils.java:16-18 | an order is made iff the property has text |
| SortUtil.ParseEntry | src/main/java/com/narciso/tedtalks/common/utils/SortUtils.java:13-20 | skipped iff the split gives neither one nor two parts; a made order carries part 0 and, for one part, ascending |
| SortUtil.CollectOrders | src/main/java/com/narciso/tedtalks/common/utils/SortUtils.java:11-22 | fails iff some entry throws; otherwise at most one order per entry, each with text |
| SortUtil.CreateSort | src/main/java/com/narciso/tedtalks/common/utils/SortUtils.java:8-28 | never empty, every property has text; a null array or any throwing entry gives `name` ascending |
| SortUtil.ParseFormat | src/main/java/com/narciso/tedtalks/common/utils/SortUtils.java:13-16 | a formatted order parses back to itself |
| SortUtil.CollectFormatted | src/main/java/com/narciso/tedtalks/common/utils/SortUtils.java:11-22 | formatted orders are collected back, in order |
| SortUtil.CreateSortRoundTrip | src/main/java/com/narciso/tedtalks/common/utils/SortUtils.java:8-28 | `createSort` inverts the request format of any non-empty list of orders |
| SortUtil.BarePropertyAscending | src/main/java/com/narciso/tedtalks/common/utils/SortUtils.java:17-18 | a bare property sorts ascending, with or without a trailing comma |
| SortUtil.BareProperties | src/main/java/com/narciso/tedtalks/common/utils/SortUtils.java:11-23 | two bare comma-free properties sort by both, ascending, in request order |
| SortUtil.UnknownDirectionFallsBack | src/main/java/com/narciso/tedtalks/common/utils/SortUtils.java:25-27 | an unknown direction in any entry discards all orders |
| SortClauses.ColumnsCount | src/main/java/com/narciso/tedtalks/talks/dao/TalkDao.java:146-157 | one column per accepted order |
| SortClauses.ColumnsKeepOrder | src/main/java/com/narciso/tedtalks/talks/dao/TalkDao.java:146-157 | the columns are the accepted orders mapped, in request order |
| SortClauses.Clause | src/main/java/com/narciso/tedtalks/talks/dao/TalkDao.java:143 | the clause starts with `ORDER BY ` |
| SortClauses.BuildSortClause | src/main/java/com/narciso/tedtalks/talks/dao/TalkDao.java:142-165 | the Java loop with its `first` flag builds the clause for the accepted columns, or the default |
| SortClauses.ParseTermOf | src/main/java/com/narciso/tedtalks/talks/dao/TalkDao.java:155 | a rendered `<column> <direction>` term reads back as that column |
| SortClauses.ParseRender | src/main/java/com/narciso/tedtalks/talks/dao/TalkDao.java:151-156 | `, `-joined terms read back as exactly those columns, in order |
| SortClauses.ParseClauseOf | src/main/java/com/narciso/tedtalks/talks/dao/TalkDao.java:158-163 | the clause lists the columns, or the default column alone |
| SortClauses.ColumnsSatisfy | src/main/java/com/narciso/tedtalks/talks/dao/TalkDao.java:148-154 | emitted names have any property that every accepted, mapped property has |
| SortClauses.ClauseLists | src/main/java/com/narciso/tedtalks/talks/dao/TalkDao.java:142-165 | the clause lists exactly the accepted orders, mapped, in order, or the default |
| SortClauses.MapPropertyToColumn | src/main/java/com/narciso/tedtalks/talks/dao/TalkDao.java:171-176 | `speaker_id` or the property itself; `speaker_id` only for a case-insensitive `speakerId` |
| SortClauses.TalkPropertyColumn | src/main/java/com/narciso/tedtalks/talks/dao/TalkDao.java:167-176 | on the whitelist only `speakerId` is renamed, and the result is a talk column |
| SortClauses.TalkSortClause | src/main/java/com/narciso/tedtalks/talks/dao/TalkDao.java:142-165 | the talk clause starts with `ORDER BY ` |
| SortClauses.BuildTalkSortClause | src/main/java/com/narciso/tedtalks/talks/dao/TalkDao.java:142-165 | the loop computes the talk clause |
| SortClauses.TalkSortClauseLists | src/main/java/com/narciso/tedtalks/talks/dao/TalkDao.java:142-169 | the talk clause lists the whitelisted orders, mapped, in request order, or `title ASC`; only talk columns appear |
| SortClauses.TalkSortClauseDefault | src/main/java/com/narciso/tedtalks/talks/dao/TalkDao.java:158-163 | with no whitelisted property the clause is `ORDER BY title ASC` |
| SortClauses.SpeakerPropertyIsAscii | src/main/java/com/narciso/tedtalks/speakers/dao/SpeakerDao.java:94-96 | an accepted speaker property is `id` or `name` in ASCII letters |
| SortClauses.SpeakerWhitelistsAgreeOnAscii | src/main/java/com/narciso/tedtalks/speakers/dao/SpeakerDao.java:94-96 | on ASCII text, the corrected whitelist accepts exactly what the written one accepts |
| SortClauses.SpeakerSortClause | src/main/java/com/narciso/tedtalks/speakers/dao/SpeakerDao.java:69-92 | the speaker clause starts with `ORDER BY ` |
| SortClauses.SpeakerSortClauseAsWritten | src/main/java/com/narciso/tedtalks/speakers/dao/SpeakerDao.java:69-96 | the clause with `equalsIgnoreCase` as written starts with `ORDER BY ` |
| SortClauses.BuildSpeakerSortClause | src/main/java/com/narciso/tedtalks/speakers/dao/SpeakerDao.java:69-92 | the loop computes the speaker clause |
| SortClauses.SpeakerSortClauseLists | src/main/java/com/narciso/tedtalks/speakers/dao/SpeakerDao.java:69-96 | the speaker clause lists accepted orders verbatim in request order, or `name ASC`; only ASCII `id`/`name` spellings appear |
| SortClauses.DotlessIdPasses | src/main/java/com/narciso/tedtalks/speakers/dao/SpeakerDao.java:94-96 | `ıd` passes `equalsIgnoreCase` against `id` but is not ASCII, and the corrected whitelist refuses it |
| SortClauses.DotlessIdReachesSql | src/main/java/com/narciso/tedtalks/speakers/dao/SpeakerDao.java:82-96 | as written, `ıd` reaches the SQL text as a column |
| SortClauses.DotlessIdDropped | src/main/java/com/narciso/tedtalks/speakers/dao/SpeakerDao.java:85-87 | with the corrected whitelist, `ıd` is dropped and the clause falls back to `name ASC` |
| SortClauses.LowerCaseEntry | src/main/java/com/narciso/tedtalks/common/utils/SortUtils.java:14-16 | `p,asc` and `p,desc` parse to p with that direction |
| SortClauses.SingleEntrySort | src/main/java/com/narciso/tedtalks/common/utils/SortUtils.java:23 | a single usable entry sorts by that entry alone |
| SortClauses.SecondOrderDropped | src/main/java/com/narciso/tedtalks/talks/dao/TalkDao.java:148-150 | an order on a property the whitelist refuses adds no column |
| SortClauses.AscIsNoColumn | src/main/java/com/narciso/tedtalks/talks/dao/TalkDao.java:167-169 | `asc` as a property is on neither the talk nor the speaker whitelist |
| SortClauses.BareThenAsc | src/main/java/com/narciso/tedtalks/common/utils/SortUtils.java:11-23 | the entries `p` and `asc` sort by p, then by a property named `asc` |
| SortClauses.TitleThenAscClause | src/main/java/com/narciso/tedtalks/talks/dao/TalkDao.java:142-169 | talks sorted by `title` and then `asc` get `ORDER BY title ASC` |
| SortClauses.NameThenAscClause | src/main/java/com/narciso/tedtalks/speakers/dao/SpeakerDao.java:69-96 | speakers sorted by `name` and then `asc` get `ORDER BY name ASC` |
| SortClauses.DefaultTalkRequest | src/main/java/com/narciso/tedtalks/talks/controller/TalkController.java:28 | the default `title,asc`, bound to a `String[]` by splitting at the comma, reaches `createSort` as `title` and `asc`; that gives orders on `title` and `asc`, and the clause `ORDER BY title ASC` |
| SortClauses.DefaultSpeakerRequest | src/main/java/com/narciso/tedtalks/speakers/controller/SpeakerController.java:24 | the default `name,asc` reaches `createSort` as `name` and `asc`; that gives orders on `name` and `asc`, and the clause `ORDER BY name ASC` |
| SortClauses.SingleOrderClauses | src/main/java/com/narciso/tedtalks/talks/dao/TalkDao.java:155 | a single accepted order gives `ORDER BY <column> <direction>` |
| SortClauses.FallbackSortsTalksByTitle | src/main/java/com/narciso/tedtalks/common/utils/SortUtils.java:23 | `createSort`'s fallback, `name` ascending, is not a talk property, so the talk listing sorts by title |

## Left out

- OpenCSV decoding (header binding, quoting, `withIgnoreLeadingWhiteSpace`) is a foreign library. The decoded records, the captured exceptions and the critical-failure flag are inputs.
- When OpenCSV fills its captured-exception list relative to `parse()` cannot be seen from this code. The model reports the captured list before the rows, as the code reads it.
- JDBC execution, row mappers, `KeyHolder` and SQL text other than the sort clause are I/O. The tables are sequences with an identity counter.
- `findAll` with `Page`/`Pageable`, `LIMIT`/`OFFSET` and `COUNT(*)` is paging plumbing. Only its `ORDER BY` text is modelled.
- Store failures other than those the code raises itself (connection errors, constraint violations) come from the fault oracle parameter in the import. The CRUD functions assume the database answers.
- `CompositeStrategy` uses `Math.log1p` on doubles (floating point). The influence queries take any strategy as a parameter instead.
- The order of rows out of `GROUP BY` is up to the database. The model lists groups in speaker-table order, and the ranking lemmas hold for that order.
- Controllers, HTTP status mapping, `ImportController`'s catch-all, `OpenApiConfig` and `TedtalksApplication` are plumbing. The two controller defaults for `sort` are used only in `DefaultTalkRequest` and `DefaultSpeakerRequest`, taking Spring's binding of one comma-separated value to a `String[]` (split at the commas) as given.
- `@Transactional` is modelled as "a failing call leaves the tables unchanged". Isolation and the concurrent find-or-create race are concurrency.
- `java.time` edge cases are not modelled: signed or longer-than-four-digit years, lenient resolving. Years are 1 to 9999 and month names are case-sensitive English full names.
- `Character.toUpperCase` and `toLowerCase` are modelled on ASCII letters plus the four non-ASCII characters that case-map to ASCII letters (dotless i, long s, capital I with dot, Kelvin sign). Other characters map to themselves, which is enough to decide comparisons against ASCII words.
- `Sort.Direction.fromString` is Spring code that is not part of this model. It is defined as Spring documents it: the upper-cased text must be `ASC` or `DESC`.
- Java's `int` and `long` overflow in sums, counters and identity values is not modelled: `SUM(t.views)`, `successCount` and the id counter are unbounded integers. The import's own `int` range check on views and likes is modelled.
- Speakers.Create: for a null name the failure carries the empty read-back's message. No schema is part of this model; a schema that refuses a NULL name fails at the INSERT instead, with the database's message, and the call still rolls back.
- A null `speakerId` passed to `saveIfNotExists` fails in unboxing before any lookup. The import always passes a speaker's id, so the model takes an `int`.
- The talk service's unit tests call `create(Talk)` and expect `Talk` results, which does not match the current signatures. They are used only for the not-found behaviour of `findById` and `delete`.
- Weighted.Score: the result is an exact rational number. `BigDecimal`'s scale (for example `730.0` against `730`) is not modelled, because `compareTo` ignores scale.
- Influence.MostInfluential: the contract says the leader is a highest-scoring row. `MostInfluentialIsFirstMax` adds which tied row it is, as `Stream.max` picks it.

## Findings

| source | as written | input that shows it | evidently intended | confidence | as-written member | corrected member |
|---|---|---|---|---|---|---|
| src/main/java/com/narciso/tedtalks/speakers/dao/SpeakerDao.java:94-96 | `isValidSortProperty` accepts any property that `equalsIgnoreCase` matches to `id` or `name`. Java's case mapping matches some non-ASCII spellings, and `buildSortClause` then writes the property verbatim into the `ORDER BY` text. | sort entry `ıd,asc` (dotless i, U+0131) gives `ORDER BY ıd ASC`: a non-ASCII spelling reaches the SQL text | only `id` or `name`, in any ASCII casing, reach the SQL text | medium, not executed | SortClauses.SpeakerSortClauseAsWritten, SortClauses.DotlessIdReachesSql, SortClauses.DotlessIdPasses | SortClauses.SpeakerSortClause, SortClauses.SpeakerSortClauseLists, SortClauses.DotlessIdDropped |

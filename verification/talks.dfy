/** The talk table, `TalkDao` and `TalkService`.

    Talks carry a year-month that the table stores as `yyyy-MM` text. A
    talk's natural key is (title, speaker id, stored date). Service calls
    return the database after the call together with the result; a call
    that throws is rolled back by its `@Transactional` boundary, so an `Err`
    result always comes with the database it was given. */
module Talks {
  import opened Outcomes
  import opened Seqs
  import opened Text
  import opened Dates
  import opened Speakers
  import opened CsvRecords

  datatype Talk = Talk(
    id: int,
    title: string,
    date: YearMonth,
    views: int,
    likes: int,
    link: Option<string>,
    speakerId: int)

  datatype TalkTable = TalkTable(rows: seq<Talk>, nextId: int)

  /** Both tables of the database. */
  datatype Db = Db(speakers: SpeakerTable, talks: TalkTable)

  /** `TalkDto`: a talk joined with its speaker's name. */
  datatype TalkView = TalkView(talk: Talk, speakerName: string)

  function TalkIdOf(t: Talk): int {
    t.id
  }

  /** The natural key as the duplicate lookup compares it. */
  function KeyOf(t: Talk): (string, int, string) {
    (t.title, t.speakerId, FormatIso(t.date))
  }

  /** Primary-key discipline: talk ids are distinct and below the next
      identity value. */
  predicate ValidTalks(t: TalkTable) {
    && (forall i :: 0 <= i < |t.rows| ==> t.rows[i].id < t.nextId)
    && Distinct(t.rows, TalkIdOf)
  }

  /** No two talks share a natural key. */
  predicate UniqueKeys(t: TalkTable) {
    Distinct(t.rows, KeyOf)
  }

  function KeyedBy(title: string, speakerId: int, date: YearMonth): Talk -> bool {
    (t: Talk) => KeyOf(t) == (title, speakerId, FormatIso(date))
  }

  function WithId(id: int): Talk -> bool {
    (t: Talk) => t.id == id
  }

  function WithoutId(id: int): Talk -> bool {
    (t: Talk) => t.id != id
  }

  /** Comparing stored keys is comparing title, speaker and year-month. */
  lemma KeyedByIff(t: Talk, title: string, speakerId: int, date: YearMonth)
    ensures KeyedBy(title, speakerId, date)(t) <==>
              t.title == title && t.speakerId == speakerId && t.date == date
  {
    FormatIsoInjective(t.date, date);
  }

  // ---------------------------------------------------------------------
  // TalkDao
  // ---------------------------------------------------------------------

  /** `TalkDao.create`: insert with the next identity value. */
  function Insert(t: TalkTable, talk: Talk): (r: (TalkTable, Talk))
    ensures r.1 == talk.(id := t.nextId)
    ensures r.0 == TalkTable(t.rows + [r.1], t.nextId + 1)
  {
    var saved := talk.(id := t.nextId);
    (TalkTable(t.rows + [saved], t.nextId + 1), saved)
  }

  /** `TalkDao.findByTitleAndSpeakerAndDate`, a `queryForObject`: no match
      is "absent", one match is returned, and more than one throws. A null
      title matches nothing in SQL. */
  function FindByNaturalKey(t: TalkTable, title: Option<string>, speakerId: int, date: YearMonth)
    : (r: Result<Option<Talk>>)
    ensures title.None? ==> r == Ok(None)
    ensures title.Some? ==>
              var n := Count(t.rows, KeyedBy(title.value, speakerId, date));
              && (r == Ok(None) <==> n == 0)
              && (r.Ok? && r.value.Some? <==> n == 1)
              && (r.Ok? && r.value.Some? ==> r.value.value in t.rows
                                              && KeyedBy(title.value, speakerId, date)(r.value.value))
              && (r.Err? <==> n >= 2)
              && (r.Err? ==> r.failure == DataAccess(IncorrectResultSize(1, n)))
  {
    match title
    case None => Ok(None)
    case Some(s) =>
      var p := KeyedBy(s, speakerId, date);
      var n := Count(t.rows, p);
      if n == 0 then Ok(None)
      else if n == 1 then Ok(Some(t.rows[FirstIndex(t.rows, p)]))
      else Err(DataAccess(IncorrectResultSize(1, n)))
  }

  /** `TalkDao.findById`: the talk joined with its speaker. A talk whose
      speaker row is gone is not found. */
  function FindView(db: Db, id: int): (r: Option<TalkView>)
    ensures r.Some? ==> r.value.talk in db.talks.rows && r.value.talk.id == id
    ensures r.Some? ==> Speaker(r.value.talk.speakerId, r.value.speakerName) in db.speakers.rows
    ensures (forall i :: 0 <= i < |db.talks.rows| ==> db.talks.rows[i].id != id) ==> r.None?
  {
    var k := FirstIndex(db.talks.rows, WithId(id));
    if k < 0 then None
    else
      var talk := db.talks.rows[k];
      match FindById(db.speakers, talk.speakerId)
      case Some(s) => Some(TalkView(talk, s.name))
      case None => None
  }

  /** With distinct talk ids, a stored talk whose speaker row exists is
      found by its id, joined with that speaker's name. */
  lemma FindViewOfStored(db: Db, t: Talk)
    requires ValidTalks(db.talks) && t in db.talks.rows
    requires FindById(db.speakers, t.speakerId).Some?
    ensures FindView(db, t.id) == Some(TalkView(t, FindById(db.speakers, t.speakerId).value.name))
  {
  }

  // ---------------------------------------------------------------------
  // TalkService
  // ---------------------------------------------------------------------

  function TalkNotFound(id: int): Failure {
    NotFound("Talk not found with ID: " + IntToString(id))
  }

  /** `TalkService.findById`. */
  function GetTalk(db: Db, id: int): (r: Result<TalkView>)
    ensures r.Ok? <==> FindView(db, id).Some?
    ensures r.Ok? ==> r.value.talk.id == id && r.value.talk in db.talks.rows
    ensures r.Err? ==> r.failure == TalkNotFound(id)
  {
    match FindView(db, id)
    case Some(v) => Ok(v)
    case None => Err(TalkNotFound(id))
  }

  /** The year-month of an import record's date column, read as `MMMM yyyy`. */
  function RecordDate(rec: CsvRecord): Option<YearMonth> {
    if rec.date.Some? then ParseMonthYear(rec.date.value) else None
  }

  /** The talk an import record describes, once its date is known. */
  function NewTalk(rec: CsvRecord, title: string, date: YearMonth, speakerId: int, views: int, likes: int): Talk {
    Talk(0, title, date, views, likes, rec.link, speakerId)
  }

  /** `TalkService.saveIfNotExists`: parse the record's date, look its
      natural key up, and insert only when no talk has that key. The
      existence check comes before the title and speaker asserts. The
      parse failure's message is shortened to its first part; Java's also
      names the index where parsing stopped. */
  function SaveIfNotExists(t: TalkTable, rec: CsvRecord, speakerId: int, views: int, likes: int)
    : (r: (TalkTable, Result<()>))
    ensures r.1.Err? ==> r.0 == t
    ensures RecordDate(rec).None? ==> r.1.Err?
    ensures RecordDate(rec).Some? && rec.title.Some? ==>
              var n := Count(t.rows, KeyedBy(rec.title.value, speakerId, RecordDate(rec).value));
              && (n == 1 ==> r == (t, Ok(())))
              && (n >= 2 ==> r == (t, Err(DataAccess(IncorrectResultSize(1, n)))))
              && (n == 0 && HasText(rec.title.value) ==>
                    r == (Insert(t, NewTalk(rec, rec.title.value, RecordDate(rec).value, speakerId, views, likes)).0, Ok(())))
              && (n == 0 && !HasText(rec.title.value) ==>
                    r == (t, Err(IllegalArgument("Talk title cannot be empty"))))
    ensures RecordDate(rec).Some? && rec.title.None? ==>
              r == (t, Err(IllegalArgument("Talk title cannot be empty")))
  {
    match rec.date
    case None => (t, Err(NullPointer("text")))
    case Some(raw) =>
      match ParseMonthYear(raw)
      case None => (t, Err(DateTimeParse("Text '" + raw + "' could not be parsed")))
      case Some(ym) =>
        match FindByNaturalKey(t, rec.title, speakerId, ym)
        case Err(f) => (t, Err(f))
        case Ok(Some(_)) => (t, Ok(()))
        case Ok(None) =>
          if rec.title.None? || !HasText(rec.title.value) then
            (t, Err(IllegalArgument("Talk title cannot be empty")))
          else
            (Insert(t, NewTalk(rec, rec.title.value, ym, speakerId, views, likes)).0, Ok(()))
  }

  /** The request body of `TalkService.create` (`CreateTalkDto`). */
  datatype CreateTalkRequest = CreateTalkRequest(
    title: string,
    date: string,
    views: int,
    likes: int,
    link: Option<string>,
    speakerId: Option<int>,
    speakerName: Option<string>)

  /** The speaker resolution step of `create`: a given id wins over a
      name; an unknown id or a missing/blank name is an illegal argument. */
  function ResolveSpeaker(speakers: SpeakerTable, req: CreateTalkRequest): (r: (SpeakerTable, Result<Speaker>))
    ensures r.1.Err? ==> r.0 == speakers
    ensures req.speakerId.Some? ==> r == (speakers, ResolveById(speakers, req.speakerId.value))
    ensures req.speakerId.None? && req.speakerName.Some? && HasText(req.speakerName.value) ==>
              r == (FindOrCreate(speakers, req.speakerName.value).0, Ok(FindOrCreate(speakers, req.speakerName.value).1))
    ensures req.speakerId.None? && (req.speakerName.None? || !HasText(req.speakerName.value)) ==>
              r == (speakers, Err(IllegalArgument(
                "Either speakerId or a non-blank speakerName must be provided to create a talk.")))
  {
    if req.speakerId.Some? then (speakers, ResolveById(speakers, req.speakerId.value))
    else ResolveByName(speakers, req.speakerName)
  }

  /** The id path: the speaker must exist. */
  function ResolveById(speakers: SpeakerTable, id: int): (r: Result<Speaker>)
    ensures r.Ok? <==> exists i :: 0 <= i < |speakers.rows| && speakers.rows[i].id == id
    ensures r.Ok? ==> r.value.id == id && r.value in speakers.rows
    ensures r.Err? ==> r.failure == IllegalArgument("Speaker not found with provided speakerId: " + IntToString(id))
  {
    match GetById(speakers, id)
    case Ok(s) => Ok(s)
    case Err(_) => Err(IllegalArgument("Speaker not found with provided speakerId: " + IntToString(id)))
  }

  /** The name path: a non-blank name is found or created. */
  function ResolveByName(speakers: SpeakerTable, name: Option<string>): (r: (SpeakerTable, Result<Speaker>))
    ensures r.1.Ok? ==> name.Some? && r.1.value.name == name.value && r.1.value in r.0.rows
    ensures r.1.Err? ==> r.0 == speakers
  {
    if name.Some? && HasText(name.value) then
      var found := FindOrCreate(speakers, name.value);
      (found.0, Ok(found.1))
    else
      (speakers, Err(IllegalArgument("Either speakerId or a non-blank speakerName must be provided to create a talk.")))
  }

  /** `TalkService.create`: resolve the speaker, read the date as
      `yyyy-MM`, insert, and return the stored talk joined with its speaker.
      Any failure rolls the whole call back, including a speaker that the
      resolution step created. */
  function Create(db: Db, req: CreateTalkRequest): (r: (Db, Result<TalkView>))
    ensures r.1.Err? ==> r.0 == db
    ensures r.1.Ok? ==> r.1.value.talk.id == db.talks.nextId
  {
    var s := ResolveSpeaker(db.speakers, req);
    if s.1.Err? then (db, Err(s.1.failure))
    else CreateFor(db, s.0, s.1.value, req)
  }

  /** A successful `create` appends one talk under the next id, built from
      the request, and keeps the speaker table that resolution produced. */
  lemma CreateInserts(db: Db, req: CreateTalkRequest)
    ensures var r := Create(db, req);
            r.1.Ok? ==>
              var s := ResolveSpeaker(db.speakers, req);
              && s.1.Ok? && ParseIso(req.date).Some?
              && Appended(db, r.0, s.0, Talk(db.talks.nextId, req.title, ParseIso(req.date).value,
                                             req.views, req.likes, req.link, s.1.value.id))
  {
    var (speakers', resolved) := ResolveSpeaker(db.speakers, req);
    if resolved.Ok? {
      assert Create(db, req) == CreateFor(db, speakers', resolved.value, req);
    }
  }

  /** `after` is `before` with `talk` appended under the next id and the
      speaker table replaced by `speakers'`. */
  predicate Appended(before: Db, after: Db, speakers': SpeakerTable, talk: Talk) {
    after == Db(speakers', TalkTable(before.talks.rows + [talk], before.talks.nextId + 1))
  }

  /** `create` reports a failed speaker resolution as it is. */
  lemma CreateErrors(db: Db, req: CreateTalkRequest)
    ensures var s := ResolveSpeaker(db.speakers, req);
            s.1.Err? ==> Create(db, req).1 == Err(s.1.failure)
  {
  }

  /** Once the speaker resolves, `create` reports an unreadable date. */
  lemma CreateDateError(db: Db, req: CreateTalkRequest)
    ensures ParseIso(req.date).None? && ResolveSpeaker(db.speakers, req).1.Ok? ==>
              Create(db, req).1 == Err(DateFormatError(req.date))
  {
  }

  /** The failure `create` reports for a date that is not `yyyy-MM`. */
  function DateFormatError(date: string): Failure {
    IllegalArgument("Invalid date format for date: '" + date + "'. Expected format: yyyy-MM.")
  }

  /** The steps of `create` after the speaker resolved to `speaker` in
      `speakers'`. */
  function CreateFor(db: Db, speakers': SpeakerTable, speaker: Speaker, req: CreateTalkRequest)
    : (r: (Db, Result<TalkView>))
    ensures r.1.Err? ==> r.0 == db
    ensures ParseIso(req.date).None? ==>
              r.1 == Err(DateFormatError(req.date))
    ensures r.1.Ok? ==>
              var talk := Talk(db.talks.nextId, req.title, ParseIso(req.date).value,
                               req.views, req.likes, req.link, speaker.id);
              && ParseIso(req.date).Some?
              && Appended(db, r.0, speakers', talk)
              && r.1.value.talk.id == db.talks.nextId
  {
    match ParseIso(req.date)
    case None =>
      (db, Err(DateFormatError(req.date)))
    case Some(ym) =>
      var (talks', saved) := Insert(db.talks, Talk(0, req.title, ym, req.views, req.likes, req.link, speaker.id));
      var db' := Db(speakers', talks');
      match GetTalk(db', saved.id)
      case Ok(v) => (db', Ok(v))
      case Err(f) => (db, Err(f))
  }

  /** The speaker that resolution returns is a row of the resulting table. */
  lemma ResolvedSpeakerIsRow(db: Db, req: CreateTalkRequest)
    ensures var (s', r) := ResolveSpeaker(db.speakers, req);
            r.Ok? ==> r.value in s'.rows
  {
  }

  /** On a table with distinct ids, the resolved speaker is the one its id
      finds, in a table that keeps distinct ids. */
  lemma ResolvedSpeakerIsStored(db: Db, req: CreateTalkRequest)
    requires Valid(db.speakers)
    ensures var (s', r) := ResolveSpeaker(db.speakers, req);
            r.Ok? ==> Valid(s') && FindById(s', r.value.id) == Some(r.value)
  {
    var (s', r) := ResolveSpeaker(db.speakers, req);
    if r.Ok? {
      ResolvedSpeakerIsRow(db, req);
      FindOrCreateKeepsValid(db.speakers, if req.speakerName.Some? then req.speakerName.value else "");
      FoundByOwnId(s', r.value);
    }
  }

  /** In a table with distinct ids, a row is what its own id finds. */
  lemma FoundByOwnId(t: SpeakerTable, s: Speaker)
    requires Valid(t) && s in t.rows
    ensures FindById(t, s.id) == Some(s)
  {
    var k :| 0 <= k < |t.rows| && t.rows[k] == s;
    var found := FindById(t, s.id);
    var j :| 0 <= j < |t.rows| && t.rows[j] == found.value;
    assert IdOf(t.rows[j]) == IdOf(t.rows[k]);
  }

  /** A talk just inserted under a fresh id is found by that id. */
  lemma NewestTalkIsFound(db': Db, before: TalkTable, saved: Talk)
    requires db'.talks.rows == before.rows + [saved] && saved.id == before.nextId
    requires forall i :: 0 <= i < |before.rows| ==> before.rows[i].id < before.nextId
    ensures FirstIndex(db'.talks.rows, WithId(saved.id)) == |before.rows|
  {
    assert db'.talks.rows[|before.rows|] == saved;
  }

  /** `create` succeeded exactly when the speaker resolved and the date
      read, and then returned the talk built from the request under `id`,
      joined with the speaker's name. */
  predicate CreatedAs(r: Result<TalkView>, speaker: Result<Speaker>, id: int, req: CreateTalkRequest) {
    && (r.Ok? <==> speaker.Ok? && ParseIso(req.date).Some?)
    && (r.Ok? ==>
          r.value == TalkView(
            Talk(id, req.title, ParseIso(req.date).value, req.views, req.likes, req.link, speaker.value.id),
            speaker.value.name))
  }

  /** On a database that keeps its key discipline, `create` succeeds exactly
      when the speaker resolves and the date reads as `yyyy-MM`, and it
      returns the inserted talk under its new id with its speaker's name. */
  lemma CreateOnValidDb(db: Db, req: CreateTalkRequest)
    requires Valid(db.speakers) && ValidTalks(db.talks)
    ensures CreatedAs(Create(db, req).1, ResolveSpeaker(db.speakers, req).1, db.talks.nextId, req)
  {
    var (speakers', resolved) := ResolveSpeaker(db.speakers, req);
    if resolved.Ok? {
      assert Create(db, req) == CreateFor(db, speakers', resolved.value, req);
      ResolvedSpeakerIsStored(db, req);
      CreateForReadsBack(db, speakers', resolved.value, req);
    }
  }

  /** Once the speaker is stored under its id, the insert of `create` is
      read back as the new talk joined with that speaker's name. */
  lemma CreateForReadsBack(db: Db, speakers': SpeakerTable, speaker: Speaker, req: CreateTalkRequest)
    requires ValidTalks(db.talks) && FindById(speakers', speaker.id) == Some(speaker)
    ensures var r := CreateFor(db, speakers', speaker, req);
            ParseIso(req.date).Some? ==>
              r.1 == Ok(TalkView(Talk(db.talks.nextId, req.title, ParseIso(req.date).value,
                                      req.views, req.likes, req.link, speaker.id), speaker.name))
  {
    if ParseIso(req.date).Some? {
      var ym := ParseIso(req.date).value;
      var (talks', saved) := Insert(db.talks, Talk(0, req.title, ym, req.views, req.likes, req.link, speaker.id));
      var db' := Db(speakers', talks');
      NewestTalkIsFound(db', db.talks, saved);
      assert FindView(db', saved.id) == Some(TalkView(saved, speaker.name));
    }
  }

  /** The request body of `TalkService.update` (a `Talk` read from JSON,
      whose object fields may be null). */
  datatype TalkBody = TalkBody(
    title: Option<string>,
    date: Option<YearMonth>,
    views: int,
    likes: int,
    link: Option<string>,
    speakerId: Option<int>)

  /** The rows after `UPDATE talks SET ... WHERE id = :id`. */
  function Replace(rows: seq<Talk>, id: int, talk: Talk): (r: seq<Talk>)
    ensures |r| == |rows|
    ensures forall i :: 0 <= i < |rows| ==> r[i] == (if rows[i].id == id then talk else rows[i])
  {
    seq(|rows|, i requires 0 <= i < |rows| => if rows[i].id == id then talk else rows[i])
  }

  /** `TalkService.update`: the body's title, date and speaker id are
      asserted first; then the talk must exist (joined with its speaker)
      and the new speaker must exist; then every field is replaced and the
      id kept. */
  function Update(db: Db, id: int, body: TalkBody): (r: (Db, Result<TalkView>))
    ensures r.1.Err? ==> r.0 == db
    ensures body.title.None? || !HasText(body.title.value) ==>
              r.1 == Err(IllegalArgument("Talk title cannot be empty"))
    ensures body.title.Some? && HasText(body.title.value) && body.date.None? ==>
              r.1 == Err(IllegalArgument("Talk date cannot be null"))
    ensures body.title.Some? && HasText(body.title.value) && body.date.Some? && body.speakerId.None? ==>
              r.1 == Err(IllegalArgument("Speaker ID cannot be null"))
    ensures body.title.Some? && HasText(body.title.value) && body.date.Some? && body.speakerId.Some? ==>
              && (FindView(db, id).None? ==> r.1 == Err(TalkNotFound(id)))
              && (FindView(db, id).Some? && FindById(db.speakers, body.speakerId.value).None? ==>
                    r.1 == Err(NotFound("Speaker not found: " + IntToString(body.speakerId.value))))
              && (FindView(db, id).Some? && FindById(db.speakers, body.speakerId.value).Some? ==>
                    r.1 == Ok(TalkView(Talk(id, body.title.value, body.date.value, body.views,
                                            body.likes, body.link, body.speakerId.value),
                                       FindById(db.speakers, body.speakerId.value).value.name)))
    ensures r.1.Ok? ==>
              && body.title.Some? && body.date.Some? && body.speakerId.Some?
              && FindView(db, id).Some?
              && var updated := Talk(id, body.title.value, body.date.value, body.views,
                                     body.likes, body.link, body.speakerId.value);
                 && r.0 == db.(talks := db.talks.(rows := Replace(db.talks.rows, id, updated)))
                 && r.1.value.talk == updated
  {
    if body.title.None? || !HasText(body.title.value) then
      (db, Err(IllegalArgument("Talk title cannot be empty")))
    else if body.date.None? then
      (db, Err(IllegalArgument("Talk date cannot be null")))
    else if body.speakerId.None? then
      (db, Err(IllegalArgument("Speaker ID cannot be null")))
    else
      UpdateStored(db, id, Talk(id, body.title.value, body.date.value, body.views,
                                body.likes, body.link, body.speakerId.value))
  }

  /** The part of `update` after the body's checks: the talk must exist
      (joined with its speaker), then the new speaker must exist; the talk's
      row is replaced by `updated`, which carries the same id. */
  function UpdateStored(db: Db, id: int, updated: Talk): (r: (Db, Result<TalkView>))
    requires updated.id == id
    ensures r.1.Err? ==> r.0 == db
    ensures FindView(db, id).None? ==> r.1 == Err(TalkNotFound(id))
    ensures FindView(db, id).Some? && FindById(db.speakers, updated.speakerId).None? ==>
              r.1 == Err(NotFound("Speaker not found: " + IntToString(updated.speakerId)))
    ensures FindView(db, id).Some? && FindById(db.speakers, updated.speakerId).Some? ==>
              r.1 == Ok(TalkView(updated, FindById(db.speakers, updated.speakerId).value.name))
    ensures r.1.Ok? ==>
              && FindView(db, id).Some?
              && r.0 == db.(talks := db.talks.(rows := Replace(db.talks.rows, id, updated)))
              && r.1.value.talk == updated
  {
    match GetTalk(db, id)
    case Err(f) => (db, Err(f))
    case Ok(existing) =>
      match GetById(db.speakers, updated.speakerId)
      case Err(f) => (db, Err(f))
      case Ok(_) =>
        var db' := db.(talks := db.talks.(rows := Replace(db.talks.rows, id, updated)));
        var k := FirstIndex(db.talks.rows, WithId(id));
        assert db'.talks.rows[k] == updated;
        assert FirstIndex(db'.talks.rows, WithId(id)) == k;
        match GetTalk(db', id)
        case Ok(v) => (db', Ok(v))
        case Err(f) => (db, Err(f))
  }

  /** A successful `update` rewrites every row with that id to the body,
      keeps every other row, and touches neither the speakers nor the id
      counter. */
  lemma UpdateRewritesOnlyThatTalk(db: Db, id: int, body: TalkBody)
    ensures var r := Update(db, id, body);
            r.1.Ok? ==>
              && r.0.speakers == db.speakers
              && r.0.talks.nextId == db.talks.nextId
              && |r.0.talks.rows| == |db.talks.rows|
              && (forall i :: 0 <= i < |db.talks.rows| ==>
                    && r.0.talks.rows[i].id == db.talks.rows[i].id
                    && (db.talks.rows[i].id != id ==> r.0.talks.rows[i] == db.talks.rows[i])
                    && (db.talks.rows[i].id == id ==>
                          r.0.talks.rows[i] == Talk(id, body.title.value, body.date.value, body.views,
                                                    body.likes, body.link, body.speakerId.value)))
  {
  }

  /** `TalkService.delete`: the talk must be found (joined with its
      speaker); then every row with that id is removed. */
  function Delete(db: Db, id: int): (r: (Db, Result<()>))
    ensures r.1.Err? ==> r.0 == db && r.1.failure == TalkNotFound(id)
    ensures r.1.Ok? <==> FindView(db, id).Some?
    ensures r.1.Ok? ==> && r.0.speakers == db.speakers
                        && r.0.talks.nextId == db.talks.nextId
                        && (forall t :: t in r.0.talks.rows <==> t in db.talks.rows && t.id != id)
  {
    match GetTalk(db, id)
    case Err(f) => (db, Err(f))
    case Ok(_) => (db.(talks := db.talks.(rows := Filter(db.talks.rows, WithoutId(id)))), Ok(()))
  }

  // ---------------------------------------------------------------------
  // Properties
  // ---------------------------------------------------------------------

  /** Repeating `saveIfNotExists` with the same arguments leaves the table
      as the first call left it. */
  lemma SaveIfNotExistsIdempotent(t: TalkTable, rec: CsvRecord, speakerId: int, views: int, likes: int)
    ensures var t1 := SaveIfNotExists(t, rec, speakerId, views, likes).0;
            SaveIfNotExists(t1, rec, speakerId, views, likes) ==
              (t1, SaveIfNotExists(t, rec, speakerId, views, likes).1)
  {
    var (t1, r1) := SaveIfNotExists(t, rec, speakerId, views, likes);
    if r1.Ok? && t1 != t {
      var ym := RecordDate(rec).value;
      var p := KeyedBy(rec.title.value, speakerId, ym);
      var talk := Insert(t, NewTalk(rec, rec.title.value, ym, speakerId, views, likes)).1;
      CountAppend(t.rows, [talk], p);
      assert Count([talk], p) == 1;
    }
  }

  /** `saveIfNotExists` never gives two talks the same natural key. */
  lemma SaveIfNotExistsKeepsUniqueKeys(t: TalkTable, rec: CsvRecord, speakerId: int, views: int, likes: int)
    requires UniqueKeys(t)
    ensures UniqueKeys(SaveIfNotExists(t, rec, speakerId, views, likes).0)
  {
    var (t1, r1) := SaveIfNotExists(t, rec, speakerId, views, likes);
    if t1 != t {
      var ym := RecordDate(rec).value;
      var p := KeyedBy(rec.title.value, speakerId, ym);
      var talk := Insert(t, NewTalk(rec, rec.title.value, ym, speakerId, views, likes)).1;
      forall i | 0 <= i < |t.rows|
        ensures KeyOf(t.rows[i]) != KeyOf(talk)
      {
        assert !p(t.rows[i]);
      }
      AppendKeepsDistinct(t.rows, talk, KeyOf);
    }
  }

  /** `saveIfNotExists` keeps the id discipline. */
  lemma SaveIfNotExistsKeepsValid(t: TalkTable, rec: CsvRecord, speakerId: int, views: int, likes: int)
    requires ValidTalks(t)
    ensures ValidTalks(SaveIfNotExists(t, rec, speakerId, views, likes).0)
  {
    var (t1, r1) := SaveIfNotExists(t, rec, speakerId, views, likes);
    if t1 != t {
      var ym := RecordDate(rec).value;
      var talk := Insert(t, NewTalk(rec, rec.title.value, ym, speakerId, views, likes)).1;
      AppendKeepsDistinct(t.rows, talk, TalkIdOf);
    }
  }

  /** `update` keeps the id discipline. */
  lemma UpdateKeepsValidTalks(db: Db, id: int, body: TalkBody)
    requires ValidTalks(db.talks)
    ensures ValidTalks(Update(db, id, body).0.talks)
  {
    var u := Update(db, id, body);
    if u.1.Ok? {
      ReplaceKeepsValid(db.talks, id, u.1.value.talk);
    }
  }

  /** Rewriting the rows with one id by a talk with that id keeps ids
      distinct and below the counter. */
  lemma ReplaceKeepsValid(t: TalkTable, id: int, talk: Talk)
    requires ValidTalks(t) && talk.id == id
    ensures ValidTalks(TalkTable(Replace(t.rows, id, talk), t.nextId))
  {
    var rows, rows' := t.rows, Replace(t.rows, id, talk);
    forall i, j | 0 <= i < j < |rows'|
      ensures TalkIdOf(rows'[i]) != TalkIdOf(rows'[j])
    {
      assert rows'[i].id == rows[i].id && rows'[j].id == rows[j].id;
      assert TalkIdOf(rows[i]) != TalkIdOf(rows[j]);
    }
    forall i | 0 <= i < |rows'|
      ensures rows'[i].id < t.nextId
    {
      assert rows'[i].id == rows[i].id;
    }
  }

  /** `delete` keeps the id discipline. */
  lemma DeleteKeepsValidTalks(db: Db, id: int)
    requires ValidTalks(db.talks)
    ensures ValidTalks(Delete(db, id).0.talks)
  {
    var d := Delete(db, id);
    if d.1.Ok? {
      var rows := Filter(db.talks.rows, WithoutId(id));
      assert d.0.talks == TalkTable(rows, db.talks.nextId);
      FilterKeepsDistinct(db.talks.rows, WithoutId(id), TalkIdOf);
      forall i | 0 <= i < |rows|
        ensures rows[i].id < db.talks.nextId
      {
        assert rows[i] in db.talks.rows;
      }
    }
  }

  /** Because the lookup joins the speaker, a talk whose speaker row is gone
      can be neither updated nor deleted: both report the talk not found. */
  lemma OrphanTalkIsNotFound(db: Db, body: TalkBody)
    requires db.talks.rows == [Talk(7, "T", YearMonth(2023, 1), 1, 1, None, 3)]
    requires db.speakers.rows == []
    ensures Delete(db, 7) == (db, Err(TalkNotFound(7)))
    ensures body.title.Some? && HasText(body.title.value) && body.date.Some? && body.speakerId.Some? ==>
              Update(db, 7, body) == (db, Err(TalkNotFound(7)))
  {
    assert FindView(db, 7).None?;
  }
}

/** The speaker table, `SpeakerDao` and `SpeakerService`.

    The table is its rows in insertion order plus the next value of the
    identity column; `SELECT ... findFirst()` lookups return the first
    matching row. Every service call is atomic: a call that throws is
    rolled back by its `@Transactional` boundary, so an `Err` result comes
    with the table unchanged. */
module Speakers {
  import opened Outcomes
  import opened Seqs
  import opened Text

  datatype Speaker = Speaker(id: int, name: string)

  datatype SpeakerTable = SpeakerTable(rows: seq<Speaker>, nextId: int)

  /** Primary-key discipline of the table: ids are distinct and below the
      next identity value. */
  predicate Valid(t: SpeakerTable) {
    && (forall i :: 0 <= i < |t.rows| ==> t.rows[i].id < t.nextId)
    && Distinct(t.rows, IdOf)
  }

  /** At most one speaker per exact name. */
  predicate UniqueNames(t: SpeakerTable) {
    Distinct(t.rows, NameOf)
  }

  function IdOf(s: Speaker): int {
    s.id
  }

  function NameOf(s: Speaker): string {
    s.name
  }

  function Named(name: string): Speaker -> bool {
    (s: Speaker) => s.name == name
  }

  function Identified(id: int): Speaker -> bool {
    (s: Speaker) => s.id == id
  }

  function NotIdentified(id: int): Speaker -> bool {
    (s: Speaker) => s.id != id
  }

  // ---------------------------------------------------------------------
  // SpeakerDao
  // ---------------------------------------------------------------------

  /** `SpeakerDao.findByName`: the first row with exactly this name. */
  function FindByName(t: SpeakerTable, name: string): (r: Option<Speaker>)
    ensures r.None? <==> forall i :: 0 <= i < |t.rows| ==> t.rows[i].name != name
    ensures r.Some? ==> exists k :: 0 <= k < |t.rows| && t.rows[k] == r.value
                          && r.value.name == name
                          && forall j :: 0 <= j < k ==> t.rows[j].name != name
  {
    var k := FirstIndex(t.rows, Named(name));
    if k < 0 then None else Some(t.rows[k])
  }

  /** `SpeakerDao.findById`: the first row with this id. */
  function FindById(t: SpeakerTable, id: int): (r: Option<Speaker>)
    ensures r.None? <==> forall i :: 0 <= i < |t.rows| ==> t.rows[i].id != id
    ensures r.Some? ==> exists k :: 0 <= k < |t.rows| && t.rows[k] == r.value
                          && r.value.id == id
                          && forall j :: 0 <= j < k ==> t.rows[j].id != id
  {
    var k := FirstIndex(t.rows, Identified(id));
    if k < 0 then None else Some(t.rows[k])
  }

  /** Spring's IncorrectResultSizeDataAccessException message. */
  function IncorrectResultSize(expected: int, actual: int): string {
    "Incorrect result size: expected " + IntToString(expected) + ", actual " + IntToString(actual)
  }

  /** `SpeakerDao.save`: insert the name, then read the new id back with
      `queryForObject("SELECT id FROM speakers WHERE name = :name")`, which
      throws unless exactly one row carries that name. On success the new
      table and the saved speaker are returned. */
  function Save(t: SpeakerTable, name: string): (r: Result<(SpeakerTable, Speaker)>)
    ensures r.Ok? <==> forall i :: 0 <= i < |t.rows| ==> t.rows[i].name != name
    ensures r.Ok? ==> var (t', s) := r.value;
                      && s == Speaker(t.nextId, name)
                      && t'.rows == t.rows + [s]
                      && t'.nextId == t.nextId + 1
  {
    var saved := Speaker(t.nextId, name);
    var rows := t.rows + [saved];
    var n := Count(rows, Named(name));
    CountAppend(t.rows, [saved], Named(name));
    if n == 1 then Ok((SpeakerTable(rows, t.nextId + 1), saved))
    else Err(DataAccess(IncorrectResultSize(1, n)))
  }

  // ---------------------------------------------------------------------
  // SpeakerService
  // ---------------------------------------------------------------------

  /** `SpeakerService.findOrCreate`: the first speaker with exactly this
      name, or a newly saved one. Never fails: the name is absent whenever
      the save runs. */
  function FindOrCreate(t: SpeakerTable, name: string): (r: (SpeakerTable, Speaker))
    ensures r.1.name == name && r.1 in r.0.rows
    ensures (exists i :: 0 <= i < |t.rows| && t.rows[i].name == name) ==>
              r.0 == t && FindByName(t, name) == Some(r.1)
    ensures (forall i :: 0 <= i < |t.rows| ==> t.rows[i].name != name) ==>
              && r.1 == Speaker(t.nextId, name)
              && r.0 == SpeakerTable(t.rows + [r.1], t.nextId + 1)
  {
    match FindByName(t, name)
    case Some(s) => (t, s)
    case None =>
      match Save(t, name)
      case Ok(saved) => saved
      case Err(_) => assert false; (t, Speaker(t.nextId, name))
  }

  function SpeakerNotFound(key: string): Failure {
    NotFound("Speaker not found: " + key)
  }

  /** `SpeakerService.findById`. */
  function GetById(t: SpeakerTable, id: int): (r: Result<Speaker>)
    ensures r.Ok? <==> exists i :: 0 <= i < |t.rows| && t.rows[i].id == id
    ensures r.Ok? ==> r.value.id == id && r.value in t.rows
    ensures r.Err? ==> r.failure == NotFound("Speaker not found: " + IntToString(id))
  {
    match FindById(t, id)
    case Some(s) => Ok(s)
    case None => Err(SpeakerNotFound(IntToString(id)))
  }

  /** `SpeakerService.findByName`. */
  function GetByName(t: SpeakerTable, name: string): (r: Result<Speaker>)
    ensures r.Ok? <==> exists i :: 0 <= i < |t.rows| && t.rows[i].name == name
    ensures r.Ok? ==> r.value.name == name && r.value in t.rows
    ensures r.Err? ==> r.failure == NotFound("Speaker not found: " + name)
  {
    match FindByName(t, name)
    case Some(s) => Ok(s)
    case None => Err(SpeakerNotFound(name))
  }

  /** `SpeakerService.create`: a plain save of the request body's name (the
      body's id is ignored, and its name may be null). A name already
      present makes the id read-back see two rows, so the call fails and is
      rolled back. A null name fails too: `WHERE name = NULL` matches no
      row, so the read-back finds none even if the insert was accepted. */
  function Create(t: SpeakerTable, name: Option<string>): (r: (SpeakerTable, Result<Speaker>))
    ensures r.1.Err? ==> r.0 == t
    ensures r.1.Ok? <==> name.Some? && forall i :: 0 <= i < |t.rows| ==> t.rows[i].name != name.value
    ensures r.1.Ok? ==> r.1.value == Speaker(t.nextId, name.value) && r.0.rows == t.rows + [r.1.value]
    ensures name.None? ==> r.1 == Err(DataAccess(IncorrectResultSize(1, 0)))
  {
    match name
    case None => (t, Err(DataAccess(IncorrectResultSize(1, 0))))
    case Some(n) =>
      match Save(t, n)
      case Ok((t', s)) => (t', Ok(s))
      case Err(f) => (t, Err(f))
  }

  /** The rows after `UPDATE speakers SET name = :name WHERE id = :id`. */
  function Rename(rows: seq<Speaker>, id: int, name: string): (r: seq<Speaker>)
    ensures |r| == |rows|
    ensures forall i :: 0 <= i < |rows| ==>
              r[i] == (if rows[i].id == id then rows[i].(name := name) else rows[i])
  {
    seq(|rows|, i requires 0 <= i < |rows| =>
      if rows[i].id == id then rows[i].(name := name) else rows[i])
  }

  /** The NullPointerException `Map.of` throws for a null value; it has no
      message. */
  const NullValue: Failure := NullPointer("")

  /** `SpeakerService.update`: look the speaker up (failing with not-found
      and no write), then change only its name. A null name in the request
      body makes `Map.of` throw inside the DAO, and the call rolls back. */
  function Update(t: SpeakerTable, id: int, name: Option<string>): (r: (SpeakerTable, Result<Speaker>))
    ensures r.1.Err? ==> r.0 == t
    ensures (forall i :: 0 <= i < |t.rows| ==> t.rows[i].id != id) ==>
              r.1 == Err(NotFound("Speaker not found: " + IntToString(id)))
    ensures (exists i :: 0 <= i < |t.rows| && t.rows[i].id == id) && name.None? ==>
              r.1 == Err(NullValue)
    ensures r.1.Ok? <==> name.Some? && exists i :: 0 <= i < |t.rows| && t.rows[i].id == id
    ensures r.1.Ok? ==> r.1.value == Speaker(id, name.value)
    ensures r.1.Ok? ==> && r.0.nextId == t.nextId && |r.0.rows| == |t.rows|
                        && forall i :: 0 <= i < |t.rows| ==>
                             && r.0.rows[i].id == t.rows[i].id
                             && r.0.rows[i].name == (if t.rows[i].id == id then name.value else t.rows[i].name)
  {
    match GetById(t, id)
    case Err(f) => (t, Err(f))
    case Ok(existing) =>
      match name
      case None => (t, Err(NullValue))
      case Some(n) => (t.(rows := Rename(t.rows, id, n)), Ok(existing.(name := n)))
  }

  /** `SpeakerService.delete`: look the speaker up (failing with not-found
      and no deletion), then remove every row with that id. */
  function Delete(t: SpeakerTable, id: int): (r: (SpeakerTable, Result<()>))
    ensures r.1.Err? ==> r.0 == t && r.1.failure == NotFound("Speaker not found: " + IntToString(id))
    ensures r.1.Ok? <==> exists i :: 0 <= i < |t.rows| && t.rows[i].id == id
    ensures r.1.Ok? ==> r.0.nextId == t.nextId
    ensures r.1.Ok? ==> forall s :: s in r.0.rows <==> s in t.rows && s.id != id
  {
    match GetById(t, id)
    case Err(f) => (t, Err(f))
    case Ok(_) => (t.(rows := Filter(t.rows, NotIdentified(id))), Ok(()))
  }

  // ---------------------------------------------------------------------
  // Properties
  // ---------------------------------------------------------------------

  /** A second `findOrCreate` with the same name returns the same speaker
      and writes nothing. */
  lemma FindOrCreateIdempotent(t: SpeakerTable, name: string)
    ensures var (t1, s1) := FindOrCreate(t, name);
            FindOrCreate(t1, name) == (t1, s1)
  {
    var (t1, s1) := FindOrCreate(t, name);
    var k :| 0 <= k < |t1.rows| && t1.rows[k] == s1;
    if forall i :: 0 <= i < |t.rows| ==> t.rows[i].name != name {
      assert forall j :: 0 <= j < |t.rows| ==> t1.rows[j] == t.rows[j];
    }
  }

  /** `findOrCreate` keeps the at-most-one-speaker-per-name invariant. */
  lemma FindOrCreateKeepsUniqueNames(t: SpeakerTable, name: string)
    requires UniqueNames(t)
    ensures UniqueNames(FindOrCreate(t, name).0)
  {
  }

  /** So does `create`, because a duplicate name makes it fail. */
  lemma CreateKeepsUniqueNames(t: SpeakerTable, name: Option<string>)
    requires UniqueNames(t)
    ensures UniqueNames(Create(t, name).0)
  {
  }

  /** `findOrCreate` keeps the key discipline. */
  lemma FindOrCreateKeepsValid(t: SpeakerTable, name: string)
    requires Valid(t)
    ensures Valid(FindOrCreate(t, name).0)
  {
  }

  /** So does `create`. */
  lemma CreateKeepsValid(t: SpeakerTable, name: Option<string>)
    requires Valid(t)
    ensures Valid(Create(t, name).0)
  {
  }

  /** `update` keeps the key discipline. */
  lemma UpdateKeepsValid(t: SpeakerTable, id: int, name: Option<string>)
    requires Valid(t)
    ensures Valid(Update(t, id, name).0)
  {
  }

  /** `delete` keeps the key discipline. */
  lemma DeleteKeepsValid(t: SpeakerTable, id: int)
    requires Valid(t)
    ensures Valid(Delete(t, id).0)
  {
    if Delete(t, id).1.Ok? {
      var rows := Filter(t.rows, NotIdentified(id));
      assert Delete(t, id).0 == SpeakerTable(rows, t.nextId);
      FilterKeepsDistinct(t.rows, NotIdentified(id), IdOf);
      forall i | 0 <= i < |rows|
        ensures rows[i].id < t.nextId
      {
        assert rows[i] in t.rows;
      }
    }
  }

  /** `update` does not check names, so it can give two speakers one name. */
  lemma UpdateCanDuplicateNames()
    ensures var t := SpeakerTable([Speaker(1, "Ann"), Speaker(2, "Bob")], 3);
            UniqueNames(t) && !UniqueNames(Update(t, 2, Some("Ann")).0)
  {
    var t := SpeakerTable([Speaker(1, "Ann"), Speaker(2, "Bob")], 3);
    assert "Ann" != "Bob";
    var u := Update(t, 2, Some("Ann")).0;
    assert u.rows[0].name == u.rows[1].name;
  }
}

/**
 The two relational tables of the attendance store, `persons` and `presences`,
 with the constraints the schema declares and the row insertions the rest of
 the system performs. Tables are sequences of rows in rowid order.
 */
module Schema {

  /** A row of `persons`: primary key, unique name, reference image path. */
  datatype Person = Person(id: int, name: string, imagePath: string)

  /** A row of `presences`: primary key, the person it belongs to, and the
      moment it was recorded, in seconds since the epoch. */
  datatype Presence = Presence(id: int, personId: int, datetime: int)

  datatype Db = Db(persons: seq<Person>, presences: seq<Presence>)

  /** What a COMMIT does: succeed, or raise with the given message. */
  datatype Storage = Healthy | Failing(message: string)

  datatype DbError =
    | DuplicateName      // UNIQUE constraint on persons.name
    | DuplicatePresence  // UNIQUE constraint unique_presence_datetime
    | Failed(message: string)

  datatype Outcome<T> = Ok(value: T) | Err(error: DbError)

  /** The result of `add_person`: the new database and the person it returns. */
  datatype Added = Added(db: Db, person: Person)

  const EmptyDb := Db([], [])

  // ---------------------------------------------------------------------------
  // Constraints

  predicate NameTaken(ps: seq<Person>, name: string) {
    exists i :: 0 <= i < |ps| && ps[i].name == name
  }

  ghost predicate UniqueNames(ps: seq<Person>) {
    forall i, j :: 0 <= i < j < |ps| ==> ps[i].name != ps[j].name
  }

  ghost predicate UniquePersonIds(ps: seq<Person>) {
    forall i, j :: 0 <= i < j < |ps| ==> ps[i].id != ps[j].id
  }

  ghost predicate UniquePresenceIds(rs: seq<Presence>) {
    forall i, j :: 0 <= i < j < |rs| ==> rs[i].id != rs[j].id
  }

  predicate KeyTaken(rs: seq<Presence>, personId: int, datetime: int) {
    exists i :: 0 <= i < |rs| && rs[i].personId == personId && rs[i].datetime == datetime
  }

  /** No two presences share `(person_id, presence_datetime)`. */
  ghost predicate UniquePresenceKeys(rs: seq<Presence>) {
    forall i, j :: 0 <= i < j < |rs| ==>
      rs[i].personId != rs[j].personId || rs[i].datetime != rs[j].datetime
  }

  ghost predicate PersonIdExists(ps: seq<Person>, id: int) {
    exists k :: 0 <= k < |ps| && ps[k].id == id
  }

  /** Every presence refers to an existing person. */
  ghost predicate ForeignKeys(db: Db) {
    forall i :: 0 <= i < |db.presences| ==> PersonIdExists(db.persons, db.presences[i].personId)
  }

  ghost predicate Valid(db: Db) {
    && UniqueNames(db.persons)
    && UniquePersonIds(db.persons)
    && UniquePresenceIds(db.presences)
    && UniquePresenceKeys(db.presences)
    && ForeignKeys(db)
  }

  lemma EmptyDbValid()
    ensures Valid(EmptyDb)
  {
  }

  // ---------------------------------------------------------------------------
  // Row ids

  /** SQLite's rowid rule for an `INTEGER PRIMARY KEY` without AUTOINCREMENT:
      one more than the largest id in the table, or 1 for an empty table. */
  function NextId(ids: seq<int>): (r: int)
    ensures |ids| == 0 ==> r == 1
    ensures forall i :: 0 <= i < |ids| ==> ids[i] < r
    ensures |ids| > 0 ==> r - 1 in ids
    ensures (forall i :: 0 <= i < |ids| ==> ids[i] >= 0) ==> r >= 1
  {
    if |ids| == 0 then 1
    else if |ids| == 1 then ids[0] + 1
    else
      var rest := NextId(ids[..|ids| - 1]);
      if ids[|ids| - 1] + 1 > rest then ids[|ids| - 1] + 1 else rest
  }

  function PersonIds(ps: seq<Person>): (ids: seq<int>)
  {
    seq(|ps|, i requires 0 <= i < |ps| => ps[i].id)
  }

  function PresenceIds(rs: seq<Presence>): (ids: seq<int>)
  {
    seq(|rs|, i requires 0 <= i < |rs| => rs[i].id)
  }

  // ---------------------------------------------------------------------------
  // Insertions

  /** One `INSERT INTO persons`, as flushed inside a transaction: refused when
      the name is already in the table, otherwise the row is appended with a
      fresh id. */
  function InsertPerson(ps: seq<Person>, name: string, imagePath: string): (r: Outcome<seq<Person>>)
    ensures r.Ok? <==> !NameTaken(ps, name)
    ensures r.Err? ==> r.error == DuplicateName
    ensures r.Ok? ==>
      && |r.value| == |ps| + 1
      && r.value[..|ps|] == ps
      && r.value[|ps|].name == name
      && r.value[|ps|].imagePath == imagePath
      && forall i :: 0 <= i < |ps| ==> ps[i].id < r.value[|ps|].id
    ensures r.Ok? && UniqueNames(ps) ==> UniqueNames(r.value)
    ensures r.Ok? && UniquePersonIds(ps) ==> UniquePersonIds(r.value)
  {
    if NameTaken(ps, name) then Err(DuplicateName)
    else
      var id := NextId(PersonIds(ps));
      assert forall i :: 0 <= i < |ps| ==> ps[i].id == PersonIds(ps)[i];
      Ok(ps + [Person(id, name, imagePath)])
  }

  /** One `INSERT INTO presences`. The storage enforces the unique
      `(person_id, presence_datetime)` pair; SQLite leaves foreign keys
      unchecked unless asked to, so the person id is not checked here. */
  function InsertPresence(rs: seq<Presence>, personId: int, datetime: int): (r: Outcome<seq<Presence>>)
    ensures r.Ok? <==> !KeyTaken(rs, personId, datetime)
    ensures r.Err? ==> r.error == DuplicatePresence
    ensures r.Ok? ==>
      && |r.value| == |rs| + 1
      && r.value[..|rs|] == rs
      && r.value[|rs|].personId == personId
      && r.value[|rs|].datetime == datetime
      && forall i :: 0 <= i < |rs| ==> rs[i].id < r.value[|rs|].id
    ensures r.Ok? && UniquePresenceKeys(rs) ==> UniquePresenceKeys(r.value)
    ensures r.Ok? && UniquePresenceIds(rs) ==> UniquePresenceIds(r.value)
  {
    if KeyTaken(rs, personId, datetime) then Err(DuplicatePresence)
    else
      var id := NextId(PresenceIds(rs));
      assert forall i :: 0 <= i < |rs| ==> rs[i].id == PresenceIds(rs)[i];
      Ok(rs + [Presence(id, personId, datetime)])
  }

  /** `add_person`: insert one person and commit. The insert is checked
      before the commit runs, so a duplicate name is reported as such even
      when the storage would also have failed. */
  function AddPerson(db: Db, name: string, imagePath: string, storage: Storage): (r: Outcome<Added>)
    ensures r.Ok? <==> !NameTaken(db.persons, name) && storage.Healthy?
    ensures NameTaken(db.persons, name) ==> r == Err(DuplicateName)
    ensures !NameTaken(db.persons, name) && storage.Failing? ==> r == Err(Failed(storage.message))
    ensures r.Ok? ==>
      && r.value.db.persons == db.persons + [r.value.person]
      && r.value.db.presences == db.presences
      && r.value.person.name == name
      && r.value.person.imagePath == imagePath
      && forall i :: 0 <= i < |db.persons| ==> db.persons[i].id < r.value.person.id
    ensures r.Ok? && Valid(db) ==> Valid(r.value.db)
  {
    match InsertPerson(db.persons, name, imagePath)
    case Err(e) => Err(e)
    case Ok(ps) =>
      if storage.Failing? then Err(Failed(storage.message))
      else
        assert ps == db.persons + [ps[|db.persons|]];
        var db' := Db(ps, db.presences);
        assert Valid(db) ==> ForeignKeys(db') by {
          if Valid(db) {
            forall i | 0 <= i < |db'.presences|
              ensures PersonIdExists(db'.persons, db'.presences[i].personId)
            {
              var k :| 0 <= k < |db.persons| && db.persons[k].id == db.presences[i].personId;
              assert db'.persons[k] == db.persons[k];
            }
          }
        }
        Ok(Added(db', ps[|db.persons|]))
  }

  /** `get_all_persons`: every row of the persons table, in table order; in
      a valid database no name and no id appears twice in the list. */
  function AllPersons(db: Db): (r: seq<Person>)
    ensures |r| == |db.persons|
    ensures forall p :: p in r <==> p in db.persons
    ensures Valid(db) ==> UniqueNames(r) && UniquePersonIds(r)
  {
    db.persons
  }

  /** A person added by `add_person` is returned by `get_all_persons`, after
      every person that was there before and in the same order. */
  lemma AddPersonThenAllPersons(db: Db, name: string, imagePath: string)
    requires !NameTaken(db.persons, name)
    ensures var r := AddPerson(db, name, imagePath, Healthy);
      && r.Ok?
      && |AllPersons(r.value.db)| == |AllPersons(db)| + 1
      && AllPersons(r.value.db)[..|db.persons|] == AllPersons(db)
      && var p := AllPersons(r.value.db)[|db.persons|];
         p.name == name && p.imagePath == imagePath && p == r.value.person
  {
    var r := AddPerson(db, name, imagePath, Healthy);
    assert r.value.db.persons[..|db.persons|] == db.persons;
  }
}

/**
 Seeding of the persons table with the reference images: every person is
 added in one session and committed once, and any failure rolls the whole
 batch back.
 */
module Seeding {
  import opened Schema

  datatype Seed = Seed(name: string, imagePath: string)

  /** The reference images with their names, in dictionary order; a fourth
      entry of the script is commented out and is not part of the batch. */
  const ReferenceImages: seq<Seed> := [
    Seed("Fatiha Agdoud", ".\\Images\\Fat.jpg"),
    Seed("Mouhcine Ouaaziz", ".\\Images\\mo.jpeg"),
    Seed("Abdellah Fazza", ".\\Images\\faz.jpg")
  ]

  ghost predicate DistinctNames(seeds: seq<Seed>) {
    forall i, j :: 0 <= i < j < |seeds| ==> seeds[i].name != seeds[j].name
  }

  /** No seed's name is already in the table. */
  predicate NoneTaken(ps: seq<Person>, seeds: seq<Seed>) {
    forall k :: 0 <= k < |seeds| ==> !NameTaken(ps, seeds[k].name)
  }

  /** `ps` followed by one row per seed, with the seed's name and path. */
  ghost predicate AppendsSeeds(ps: seq<Person>, seeds: seq<Seed>, r: seq<Person>) {
    && |r| == |ps| + |seeds|
    && r[..|ps|] == ps
    && forall k :: 0 <= k < |seeds| ==>
         r[|ps| + k].name == seeds[k].name && r[|ps| + k].imagePath == seeds[k].imagePath
  }

  /** The inserts of one session, flushed in order; each one sees the rows
      the earlier ones added, and the first duplicate name stops the batch. */
  function InsertAll(ps: seq<Person>, seeds: seq<Seed>): (r: Outcome<seq<Person>>)
    ensures r.Err? ==> r.error == DuplicateName
    decreases |seeds|
  {
    if |seeds| == 0 then Ok(ps)
    else
      match InsertPerson(ps, seeds[0].name, seeds[0].imagePath)
      case Err(e) => Err(e)
      case Ok(ps1) => InsertAll(ps1, seeds[1..])
  }

  /** The names in `ps + [p]` are those of `ps` and the name of `p`. */
  lemma NameTakenAppend(ps: seq<Person>, p: Person, n: string)
    ensures NameTaken(ps + [p], n) <==> NameTaken(ps, n) || n == p.name
  {
    if NameTaken(ps, n) {
      var i :| 0 <= i < |ps| && ps[i].name == n;
      assert (ps + [p])[i] == ps[i];
    }
    if n == p.name {
      assert (ps + [p])[|ps|] == p;
    }
  }

  /** A batch whose names are distinct and new is inserted whole, after the
      existing rows. */
  lemma {:induction false} InsertAllSucceeds(ps: seq<Person>, seeds: seq<Seed>)
    requires NoneTaken(ps, seeds) && DistinctNames(seeds)
    ensures InsertAll(ps, seeds).Ok?
    ensures AppendsSeeds(ps, seeds, InsertAll(ps, seeds).value)
    decreases |seeds|
  {
    if |seeds| > 0 {
      var ps1 := InsertPerson(ps, seeds[0].name, seeds[0].imagePath).value;
      assert ps1 == ps + [ps1[|ps|]];
      RestStillNew(ps, seeds, ps1[|ps|]);
      InsertAllSucceeds(ps1, seeds[1..]);
      AppendsSeedsCons(ps, seeds, ps1, InsertAll(ps1, seeds[1..]).value);
    }
  }

  /** Once the first seed is inserted, the remaining seeds are still
      distinct and new. */
  lemma RestStillNew(ps: seq<Person>, seeds: seq<Seed>, p: Person)
    requires NoneTaken(ps, seeds) && DistinctNames(seeds)
    requires |seeds| > 0 && p.name == seeds[0].name
    ensures NoneTaken(ps + [p], seeds[1..]) && DistinctNames(seeds[1..])
  {
    var rest := seeds[1..];
    forall k | 0 <= k < |rest|
      ensures !NameTaken(ps + [p], rest[k].name)
    {
      assert rest[k] == seeds[k + 1];
      NameTakenAppend(ps, p, rest[k].name);
    }
  }

  /** Appending the first seed's row and then the rest's rows appends the
      rows of the whole batch. */
  lemma AppendsSeedsCons(ps: seq<Person>, seeds: seq<Seed>, ps1: seq<Person>, r: seq<Person>)
    requires |seeds| > 0
    requires |ps1| == |ps| + 1 && ps1[..|ps|] == ps
    requires ps1[|ps|].name == seeds[0].name && ps1[|ps|].imagePath == seeds[0].imagePath
    requires AppendsSeeds(ps1, seeds[1..], r)
    ensures AppendsSeeds(ps, seeds, r)
  {
    var rest := seeds[1..];
    assert r[..|ps|] == r[..|ps1|][..|ps|];
    forall k | 1 <= k < |seeds|
      ensures r[|ps| + k].name == seeds[k].name && r[|ps| + k].imagePath == seeds[k].imagePath
    {
      assert seeds[k] == rest[k - 1];
      assert r[|ps| + k] == r[|ps1| + (k - 1)];
    }
    assert r[|ps|] == r[..|ps1|][|ps|];
  }

  /** A batch that is inserted whole keeps names and ids unique. */
  lemma {:induction false} InsertAllKeepsUnique(ps: seq<Person>, seeds: seq<Seed>)
    requires InsertAll(ps, seeds).Ok?
    ensures UniqueNames(ps) ==> UniqueNames(InsertAll(ps, seeds).value)
    ensures UniquePersonIds(ps) ==> UniquePersonIds(InsertAll(ps, seeds).value)
    decreases |seeds|
  {
    if |seeds| > 0 {
      InsertAllKeepsUnique(InsertPerson(ps, seeds[0].name, seeds[0].imagePath).value, seeds[1..]);
    }
  }

  /** A batch with a name already in the table, or a name twice, is refused
      as a duplicate. */
  lemma {:induction false} InsertAllRefuses(ps: seq<Person>, seeds: seq<Seed>)
    requires !NoneTaken(ps, seeds) || !DistinctNames(seeds)
    ensures InsertAll(ps, seeds) == Err(DuplicateName)
    decreases |seeds|
  {
    var r1 := InsertPerson(ps, seeds[0].name, seeds[0].imagePath);
    if r1.Ok? {
      var ps1 := r1.value;
      var rest := seeds[1..];
      assert ps1 == ps + [ps1[|ps|]];
      if !NoneTaken(ps, seeds) {
        var k :| 0 <= k < |seeds| && NameTaken(ps, seeds[k].name);
        assert k != 0;
        assert rest[k - 1] == seeds[k];
        NameTakenAppend(ps, ps1[|ps|], seeds[k].name);
      } else {
        var i, j :| 0 <= i < j < |seeds| && seeds[i].name == seeds[j].name;
        assert rest[j - 1] == seeds[j];
        NameTakenAppend(ps, ps1[|ps|], seeds[j].name);
        if i == 0 {
          assert !NoneTaken(ps1, rest);
        } else {
          assert rest[i - 1] == seeds[i];
          assert !DistinctNames(rest);
        }
      }
      InsertAllRefuses(ps1, rest);
    }
  }

  /** `initialize_database`: add every reference person and commit once; on
      any error roll back, leaving the database as it was. */
  function InitializeDatabase(db: Db, storage: Storage): (r: Db)
    ensures r.presences == db.presences
    ensures NoneTaken(db.persons, ReferenceImages) && storage.Healthy? ==>
      AppendsSeeds(db.persons, ReferenceImages, r.persons)
    ensures !NoneTaken(db.persons, ReferenceImages) || storage.Failing? ==> r == db
    ensures Valid(db) ==> Valid(r)
  {
    ReferenceNamesDistinct();
    assert InsertAll(db.persons, ReferenceImages).Ok? <==> NoneTaken(db.persons, ReferenceImages) by {
      if NoneTaken(db.persons, ReferenceImages) {
        InsertAllSucceeds(db.persons, ReferenceImages);
      } else {
        InsertAllRefuses(db.persons, ReferenceImages);
      }
    }
    match InsertAll(db.persons, ReferenceImages)
    case Err(_) => db
    case Ok(ps) =>
      if storage.Failing? then db
      else
        InsertAllSucceeds(db.persons, ReferenceImages);
        InsertAllKeepsUnique(db.persons, ReferenceImages);
        MorePersonsKeepForeignKeys(db, ps);
        Db(ps, db.presences)
  }

  /** Adding persons after the existing ones keeps every presence's person. */
  lemma MorePersonsKeepForeignKeys(db: Db, ps: seq<Person>)
    requires |ps| >= |db.persons| && ps[..|db.persons|] == db.persons
    ensures ForeignKeys(db) ==> ForeignKeys(Db(ps, db.presences))
  {
    if ForeignKeys(db) {
      forall i | 0 <= i < |db.presences|
        ensures PersonIdExists(ps, db.presences[i].personId)
      {
        var k :| 0 <= k < |db.persons| && db.persons[k].id == db.presences[i].personId;
        assert ps[k] == ps[..|db.persons|][k];
      }
    }
  }

  lemma ReferenceNamesDistinct()
    ensures DistinctNames(ReferenceImages)
  {
  }

  /** Seeding an empty database gives exactly the three reference persons,
      with their image paths, and no presences. */
  lemma SeedEmptyDatabase()
    ensures var r := InitializeDatabase(EmptyDb, Healthy);
      && |r.persons| == 3
      && r.persons[0].name == "Fatiha Agdoud" && r.persons[0].imagePath == ".\\Images\\Fat.jpg"
      && r.persons[1].name == "Mouhcine Ouaaziz" && r.persons[1].imagePath == ".\\Images\\mo.jpeg"
      && r.persons[2].name == "Abdellah Fazza" && r.persons[2].imagePath == ".\\Images\\faz.jpg"
      && r.presences == []
      && Valid(r)
  {
    EmptyDbValid();
    assert NoneTaken(EmptyDb.persons, ReferenceImages);
    var r := InitializeDatabase(EmptyDb, Healthy);
    assert r.persons[0 + 0].name == ReferenceImages[0].name;
  }

  /** Seeding is idempotent: once it has added the reference persons, running
      it again, whatever the storage does, changes nothing. */
  lemma SeedTwice(db: Db, storage1: Storage, storage2: Storage)
    requires InitializeDatabase(db, storage1) != db
    ensures InitializeDatabase(InitializeDatabase(db, storage1), storage2) == InitializeDatabase(db, storage1)
  {
    var r := InitializeDatabase(db, storage1);
    var n := |db.persons|;
    assert r.persons[n + 0].name == ReferenceImages[0].name;
    assert NameTaken(r.persons, ReferenceImages[0].name);
  }
}

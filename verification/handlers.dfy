/**
 How the request handlers compose the core, after the transport work
 (decoding the request, saving the upload, emitting events) is done: a frame
 leads to at most one presence record, and an upload adds a person and then
 their face encoding.
 */
module Handlers {
  import opened Schema
  import opened Ledger
  import opened Recognition

  const UnknownPersonMessage := "Unknown person"

  /** What happens after a route's commit, when it reads the persons with
      their presences and emits them: the read and the emit either go
      through or raise with a message. */
  datatype Broadcast = Broadcast | BroadcastFailed(message: string)

  /** The result of the upload route: success, the database and the cache. */
  datatype Upload<E> = Upload(ok: bool, db: Db, cache: seq<Entry<E>>)

  /** The faces of a frame classified against the cache, with no person list
      given, as the frame route calls it. */
  function FrameResults<L, E>(cache: seq<Entry<E>>, detection: Detection<L, E>, distance: (E, E) -> real): seq<FaceResult<L>>
  {
    ProcessFrame(cache, [], (_: string) => FileMissing, detection, distance).results
  }

  /** The frame route: identify one name among the frame's faces; for
      "Unknown" answer success with no change, otherwise store a presence.
      After a stored presence the route broadcasts the persons; if that
      raises, the route answers failure with the message although the
      presence stays committed. */
  function HandleFrame<L, E>(db: Db, cache: seq<Entry<E>>, detection: Detection<L, E>,
                             distance: (E, E) -> real, now: int, storage: Storage,
                             broadcast: Broadcast): (r: Stored)
    ensures var name := Identify(FrameResults(cache, detection, distance));
      name == UnknownName ==> r == Stored(Reply(true, UnknownPersonMessage), db)
    ensures var name := Identify(FrameResults(cache, detection, distance));
      var stored := StorePresence(db, name, now, storage);
      && (name != UnknownName ==> r.db == stored.db)
      && (name != UnknownName && (!stored.reply.success || broadcast.Broadcast?) ==> r.reply == stored.reply)
      && (name != UnknownName && stored.reply.success && broadcast.BroadcastFailed? ==>
            r.reply == Reply(false, broadcast.message))
    ensures r.db.persons == db.persons
    ensures Valid(db) ==> Valid(r.db)
    ensures OncePerDay(db.presences) ==> OncePerDay(r.db.presences)
  {
    var name := Identify(FrameResults(cache, detection, distance));
    if name == UnknownName then Stored(Reply(true, UnknownPersonMessage), db)
    else
      var stored := StorePresence(db, name, now, storage);
      if stored.reply.success && broadcast.BroadcastFailed? then
        Stored(Reply(false, broadcast.message), stored.db)
      else stored
  }

  /** A presence recorded from a frame belongs to a person whose name is not
      "Unknown" and is the name of a cached entry that matched one of the
      frame's detected faces. So a person enrolled under the name "Unknown"
      is never recorded from a frame. */
  lemma RecordedFromMatchedFace<L, E>(db: Db, cache: seq<Entry<E>>, detection: Detection<L, E>,
                                      distance: (E, E) -> real, now: int, storage: Storage,
                                      broadcast: Broadcast)
    requires HandleFrame(db, cache, detection, distance, now, storage, broadcast).db != db
    ensures detection.Detected?
    ensures var n := |db.presences|;
      var r := HandleFrame(db, cache, detection, distance, now, storage, broadcast);
      && |r.db.presences| == n + 1
      && exists k :: 0 <= k < |db.persons| && db.persons[k].id == r.db.presences[n].personId &&
           db.persons[k].name != UnknownName &&
           exists i, j :: 0 <= i < |detection.encodings| && 0 <= j < |cache| &&
             cache[j].name == db.persons[k].name &&
             Matches(distance, cache[j].encoding, detection.encodings[i])
  {
    var results := FrameResults(cache, detection, distance);
    var name := Identify(results);
    assert name != UnknownName;
    var i :| 0 <= i < |results| && results[i].name == name;
    assert detection.Detected?;
    assert IsFirstMatchName(cache, detection.encodings[i], distance, name);
    var j :| 0 <= j < |cache| && cache[j].name == name && Matches(distance, cache[j].encoding, detection.encodings[i]);
    var k := FindPerson(db.persons, name).value;
    assert db.persons[k].name == name;
  }

  /** The upload route: add the person to the database and, once that has
      committed, extract their face into the cache and broadcast the persons.
      A failed insert leaves both as they were. A failed broadcast makes the
      route answer failure, but the person stays committed and the cache
      keeps their face. */
  function UploadImage<E>(db: Db, cache: seq<Entry<E>>, name: string, imagePath: string,
                          images: string -> ImageRead<E>, storage: Storage, broadcast: Broadcast): (r: Upload<E>)
    ensures r.ok <==> !NameTaken(db.persons, name) && storage.Healthy? && broadcast.Broadcast?
    ensures NameTaken(db.persons, name) || storage.Failing? ==> r.db == db && r.cache == cache
    ensures !NameTaken(db.persons, name) && storage.Healthy? ==>
      && |r.db.persons| == |db.persons| + 1
      && r.db.persons[..|db.persons|] == db.persons
      && r.db.persons[|db.persons|].name == name
      && r.db.persons[|db.persons|].imagePath == imagePath
      && r.db.presences == db.presences
      && r.cache == AddFace(cache, r.db.persons[|db.persons|], images).cache
    ensures Valid(db) ==> Valid(r.db)
  {
    match AddPerson(db, name, imagePath, storage)
    case Err(_) => Upload(false, db, cache)
    case Ok(added) =>
      assert added.db.persons[|db.persons|] == added.person;
      Upload(broadcast.Broadcast?, added.db, AddFace(cache, added.person, images).cache)
  }

  /** The person is committed even when their image has no usable face: the
      upload succeeds and the cache keeps whatever it had for that name. */
  lemma UploadWithoutFaceStillEnrolls<E>(db: Db, cache: seq<Entry<E>>, name: string, imagePath: string,
                                         images: string -> ImageRead<E>)
    requires !NameTaken(db.persons, name)
    requires !images(imagePath).Faces? || |images(imagePath).encodings| == 0
    ensures var r := UploadImage(db, cache, name, imagePath, images, Healthy, Broadcast);
      && r.ok
      && NameTaken(r.db.persons, name)
      && r.cache == cache
  {
    var r := UploadImage(db, cache, name, imagePath, images, Healthy, Broadcast);
    assert r.db.persons[|db.persons|].name == name;
  }
}

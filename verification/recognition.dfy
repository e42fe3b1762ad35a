/**
 The decision logic of the face-recognition system: the cache of known
 encodings, keyed by person name in insertion order, the first-match
 classification of each detected face, and the choice of one identified name
 from a frame's results. Encodings, face locations and the face-distance
 measure belong to a foreign library and are type and function parameters.
 */
module Recognition {
  import opened Options
  import opened Schema

  /** The name given to a face that matches no cached encoding. */
  const UnknownName := "Unknown"

  /** Two faces match when their distance is at most this tolerance. */
  const Tolerance: real := 0.6

  /** One cache entry; the cache is a sequence of entries with unique names,
      in the insertion order of the dictionary it stands for. */
  datatype Entry<E> = Entry(name: string, encoding: E)

  /** What loading a reference image and extracting its face encodings gives:
      the file is missing, loading or encoding raises, or the encodings of
      every face found, possibly none. */
  datatype ImageRead<E> = FileMissing | ReadFailed | Faces(encodings: seq<E>)

  /** The result of `add_person`: its return value and the cache after it. */
  datatype FaceAdded<E> = FaceAdded(ok: bool, cache: seq<Entry<E>>)

  /** What the detector gives for one preprocessed frame: an exception, or the
      face locations and the encodings computed at them. */
  datatype Detection<L, E> = DetectionFailed | Detected(locations: seq<L>, encodings: seq<E>)

  /** One element of `process_frame`'s result list. */
  datatype FaceResult<L> = FaceResult(name: string, location: L)

  /** The result of `process_frame`: the cache after it and the results. */
  datatype Processed<L, E> = Processed(cache: seq<Entry<E>>, results: seq<FaceResult<L>>)

  // ---------------------------------------------------------------------------
  // The cache of known encodings

  ghost predicate UniqueEntryNames<E>(c: seq<Entry<E>>) {
    forall i, j :: 0 <= i < j < |c| ==> c[i].name != c[j].name
  }

  predicate HasName<E>(c: seq<Entry<E>>, name: string) {
    exists i :: 0 <= i < |c| && c[i].name == name
  }

  /** The encoding stored under `name`, if any. */
  function Lookup<E>(c: seq<Entry<E>>, name: string): (r: Option<E>)
    ensures r.None? <==> !HasName(c, name)
    ensures r.Some? ==> exists i :: 0 <= i < |c| && c[i] == Entry(name, r.value)
  {
    if |c| == 0 then None
    else if c[0].name == name then Some(c[0].encoding)
    else
      var rest := Lookup(c[1..], name);
      assert forall i :: 1 <= i < |c| ==> c[i] == c[1..][i - 1];
      assert rest.Some? ==> exists i :: 1 <= i < |c| && c[i] == Entry(name, rest.value);
      rest
  }

  /** `known_face_encodings[name] = encoding`: the entry for `name` is
      replaced where it stands, or a new entry is appended. */
  function Put<E>(c: seq<Entry<E>>, name: string, encoding: E): (r: seq<Entry<E>>)
    ensures HasName(c, name) ==> |r| == |c|
    ensures !HasName(c, name) ==> r == c + [Entry(name, encoding)]
    ensures forall i :: 0 <= i < |c| && c[i].name != name ==> r[i] == c[i]
    ensures forall i :: 0 <= i < |r| ==> r[i].name == name || (i < |c| && r[i] == c[i])
    ensures UniqueEntryNames(c) ==> forall i :: 0 <= i < |c| && c[i].name == name ==> r[i] == Entry(name, encoding)
    ensures UniqueEntryNames(c) ==> UniqueEntryNames(r)
  {
    if |c| == 0 then [Entry(name, encoding)]
    else if c[0].name == name then
      assert UniqueEntryNames(c) ==> forall i :: 1 <= i < |c| ==> c[i].name != name;
      [Entry(name, encoding)] + c[1..]
    else
      var rest := Put(c[1..], name, encoding);
      PutCons(c, name, encoding, rest);
      [c[0]] + rest
  }

  /** The step of `Put` past an entry with another name: what holds of the
      put into the tail holds of the whole cache once that entry is put back
      in front. */
  lemma PutCons<E>(c: seq<Entry<E>>, name: string, encoding: E, rest: seq<Entry<E>>)
    requires |c| > 0 && c[0].name != name
    requires HasName(c[1..], name) ==> |rest| == |c| - 1
    requires !HasName(c[1..], name) ==> rest == c[1..] + [Entry(name, encoding)]
    requires forall i :: 0 <= i < |c| - 1 && c[1..][i].name != name ==> rest[i] == c[1..][i]
    requires forall i :: 0 <= i < |rest| ==> rest[i].name == name || (i < |c| - 1 && rest[i] == c[1..][i])
    requires UniqueEntryNames(c[1..]) ==>
      forall i :: 0 <= i < |c| - 1 && c[1..][i].name == name ==> rest[i] == Entry(name, encoding)
    requires UniqueEntryNames(c[1..]) ==> UniqueEntryNames(rest)
    ensures var r := [c[0]] + rest;
      && (HasName(c, name) ==> |r| == |c|)
      && (!HasName(c, name) ==> r == c + [Entry(name, encoding)])
      && (forall i :: 0 <= i < |c| && c[i].name != name ==> r[i] == c[i])
      && (forall i :: 0 <= i < |r| ==> r[i].name == name || (i < |c| && r[i] == c[i]))
      && (UniqueEntryNames(c) ==> forall i :: 0 <= i < |c| && c[i].name == name ==> r[i] == Entry(name, encoding))
      && (UniqueEntryNames(c) ==> UniqueEntryNames(r))
  {
    var r := [c[0]] + rest;
    assert forall i :: 1 <= i < |c| ==> c[i] == c[1..][i - 1];
    assert forall i :: 1 <= i < |r| ==> r[i] == rest[i - 1];
    assert HasName(c, name) ==> HasName(c[1..], name);
    if !HasName(c, name) {
      assert !HasName(c[1..], name);
      assert c == [c[0]] + c[1..];
    }
    if UniqueEntryNames(c) {
      assert UniqueEntryNames(c[1..]);
      assert forall i :: 0 <= i < |rest| ==> rest[i].name != c[0].name;
      ConsKeepsUnique(c[0], rest);
    }
  }

  lemma ConsKeepsUnique<E>(x: Entry<E>, rest: seq<Entry<E>>)
    requires UniqueEntryNames(rest)
    requires forall i :: 0 <= i < |rest| ==> rest[i].name != x.name
    ensures UniqueEntryNames([x] + rest)
  {
    var r := [x] + rest;
    assert forall i :: 1 <= i < |r| ==> r[i] == rest[i - 1];
  }

  /** After a put, the name maps to the new encoding and every other name to
      what it mapped to before. */
  lemma {:induction false} PutThenLookup<E>(c: seq<Entry<E>>, name: string, encoding: E, other: string)
    ensures Lookup(Put(c, name, encoding), name) == Some(encoding)
    ensures other != name ==> Lookup(Put(c, name, encoding), other) == Lookup(c, other)
    decreases |c|
  {
    if |c| > 0 && c[0].name != name {
      PutThenLookup(c[1..], name, encoding, other);
      assert Put(c, name, encoding)[1..] == Put(c[1..], name, encoding);
    }
  }

  // ---------------------------------------------------------------------------
  // add_person and load_initial_faces

  /** `add_person`: the first encoding found in the person's reference image
      becomes the cache entry for the person's name. A missing file, an image
      without faces or an exception leaves the cache as it was. */
  function AddFace<E>(c: seq<Entry<E>>, person: Person, images: string -> ImageRead<E>): (r: FaceAdded<E>)
    ensures r.ok <==> images(person.imagePath).Faces? && |images(person.imagePath).encodings| > 0
    ensures !r.ok ==> r.cache == c
    ensures r.ok ==> r.cache == Put(c, person.name, images(person.imagePath).encodings[0])
    ensures r.ok ==>
      && Lookup(r.cache, person.name) == Some(images(person.imagePath).encodings[0])
      && forall n :: n != person.name ==> Lookup(r.cache, n) == Lookup(c, n)
    ensures UniqueEntryNames(c) ==> UniqueEntryNames(r.cache)
  {
    match images(person.imagePath)
    case Faces(encodings) =>
      if |encodings| > 0 then
        var e := encodings[0];
        assert forall n :: n != person.name ==> Lookup(Put(c, person.name, e), n) == Lookup(c, n) by {
          forall n { PutThenLookup(c, person.name, e, n); }
        }
        PutThenLookup(c, person.name, e, person.name);
        FaceAdded(true, Put(c, person.name, e))
      else
        FaceAdded(false, c)
    case FileMissing => FaceAdded(false, c)
    case ReadFailed => FaceAdded(false, c)
  }

  /** `load_initial_faces`: `add_person` for every person, in order. */
  function LoadFaces<E>(c: seq<Entry<E>>, persons: seq<Person>, images: string -> ImageRead<E>): (r: seq<Entry<E>>)
    ensures UniqueEntryNames(c) ==> UniqueEntryNames(r)
    decreases |persons|
  {
    if |persons| == 0 then c
    else AddFace(LoadFaces(c, persons[..|persons| - 1], images), persons[|persons| - 1], images).cache
  }

  /** The first encoding of the last person in `persons` named `name` whose
      image yields one, if there is such a person. */
  function LastEnrolled<E>(persons: seq<Person>, name: string, images: string -> ImageRead<E>): Option<E>
    decreases |persons|
  {
    if |persons| == 0 then None
    else
      var p := persons[|persons| - 1];
      var read := images(p.imagePath);
      if p.name == name && read.Faces? && |read.encodings| > 0 then Some(read.encodings[0])
      else LastEnrolled(persons[..|persons| - 1], name, images)
  }

  /** Loading a list of persons leaves each name with the encoding of the
      last person of that name whose image yields one, so a later duplicate
      wins; names no such person carries keep their earlier entry. */
  lemma {:induction false} LoadFacesLookup<E>(c: seq<Entry<E>>, persons: seq<Person>, images: string -> ImageRead<E>, name: string)
    ensures Lookup(LoadFaces(c, persons, images), name) ==
      match LastEnrolled(persons, name, images)
      case Some(e) => Some(e)
      case None => Lookup(c, name)
    decreases |persons|
  {
    if |persons| > 0 {
      LoadFacesLookup(c, persons[..|persons| - 1], images, name);
    }
  }

  // ---------------------------------------------------------------------------
  // Classification of one face

  /** `compare_faces([known], candidate, tolerance=0.6)[0]`. The tolerance
      is inclusive, and an encoding at distance zero always matches. */
  predicate Matches<E>(distance: (E, E) -> real, known: E, candidate: E): (m: bool)
    ensures distance(known, candidate) == Tolerance ==> m
    ensures distance(known, candidate) <= 0.0 ==> m
    ensures distance(known, candidate) > Tolerance ==> !m
  {
    distance(known, candidate) <= Tolerance
  }

  /** `name` is what first-match classification gives `candidate`: the name of
      the first entry, in cache order, that matches, or "Unknown" when none
      does. */
  ghost predicate IsFirstMatchName<E>(c: seq<Entry<E>>, candidate: E, distance: (E, E) -> real, name: string) {
    || ((forall i :: 0 <= i < |c| ==> !Matches(distance, c[i].encoding, candidate)) && name == UnknownName)
    || exists i :: 0 <= i < |c| && c[i].name == name && Matches(distance, c[i].encoding, candidate) &&
         forall j :: 0 <= j < i ==> !Matches(distance, c[j].encoding, candidate)
  }

  /** The position of the first matching entry. */
  function FirstMatch<E>(c: seq<Entry<E>>, candidate: E, distance: (E, E) -> real): (r: Option<nat>)
    ensures r.None? <==> forall i :: 0 <= i < |c| ==> !Matches(distance, c[i].encoding, candidate)
    ensures r.Some? ==>
      && r.value < |c|
      && Matches(distance, c[r.value].encoding, candidate)
      && forall j :: 0 <= j < r.value ==> !Matches(distance, c[j].encoding, candidate)
  {
    if |c| == 0 then None
    else if Matches(distance, c[0].encoding, candidate) then Some(0)
    else
      match FirstMatch(c[1..], candidate, distance)
      case None =>
        assert forall i :: 1 <= i < |c| ==> c[i] == c[1..][i - 1];
        None
      case Some(k) => Some(k + 1)
  }

  /** The inner loop of `process_frame` for one face. */
  function Classify<E>(c: seq<Entry<E>>, candidate: E, distance: (E, E) -> real): (name: string)
    ensures IsFirstMatchName(c, candidate, distance, name)
    ensures |c| == 0 ==> name == UnknownName
  {
    match FirstMatch(c, candidate, distance)
    case None => UnknownName
    case Some(i) => c[i].name
  }

  /** The first-match name is unique: a name meets `IsFirstMatchName` exactly
      when it is what `Classify` returns. */
  lemma ClassifyIsFirstMatch<E>(c: seq<Entry<E>>, candidate: E, distance: (E, E) -> real, name: string)
    ensures IsFirstMatchName(c, candidate, distance, name) <==> name == Classify(c, candidate, distance)
  {
    if IsFirstMatchName(c, candidate, distance, name) {
      var r := FirstMatch(c, candidate, distance);
      if r.Some? {
        var i :| 0 <= i < |c| && c[i].name == name && Matches(distance, c[i].encoding, candidate) &&
          forall j :: 0 <= j < i ==> !Matches(distance, c[j].encoding, candidate);
        assert !(i < r.value) && !(r.value < i);
      }
    }
  }

  /** A face whose encoding is stored exactly (distance 0 to itself) is
      classified as the name of an entry at or before that entry, and as that
      very name when no earlier entry matches: the first match wins, not the
      nearest one. */
  lemma StoredEncodingRecognised<E>(c: seq<Entry<E>>, k: nat, distance: (E, E) -> real)
    requires k < |c|
    requires distance(c[k].encoding, c[k].encoding) == 0.0
    ensures exists i :: 0 <= i <= k && Classify(c, c[k].encoding, distance) == c[i].name
    ensures (forall j :: 0 <= j < k ==> !Matches(distance, c[j].encoding, c[k].encoding)) ==>
      Classify(c, c[k].encoding, distance) == c[k].name
  {
    var r := FirstMatch(c, c[k].encoding, distance);
    assert Matches(distance, c[k].encoding, c[k].encoding);
    assert r.Some? && r.value <= k;
  }

  // ---------------------------------------------------------------------------
  // process_frame and identify_person_from_results

  function Min(a: int, b: int): int {
    if a < b then a else b
  }

  /** `process_frame`: when a non-empty person list is given it is loaded
      into the cache first; then every detected face, paired with its
      location as `zip` pairs them, is classified against the cache. An
      exception from detection gives no results. */
  function ProcessFrame<L, E>(c: seq<Entry<E>>, persons: seq<Person>, images: string -> ImageRead<E>,
                              detection: Detection<L, E>, distance: (E, E) -> real): (r: Processed<L, E>)
    ensures r.cache == (if |persons| > 0 then LoadFaces(c, persons, images) else c)
    ensures detection.DetectionFailed? ==> r.results == []
    ensures detection.Detected? && |detection.locations| == 0 ==> r.results == []
    ensures detection.Detected? ==>
      |r.results| == Min(|detection.locations|, |detection.encodings|)
    ensures detection.Detected? ==> forall i :: 0 <= i < |r.results| ==>
      && r.results[i].location == detection.locations[i]
      && IsFirstMatchName(r.cache, detection.encodings[i], distance, r.results[i].name)
    ensures UniqueEntryNames(c) ==> UniqueEntryNames(r.cache)
  {
    var cache := if |persons| > 0 then LoadFaces(c, persons, images) else c;
    match detection
    case DetectionFailed => Processed(cache, [])
    case Detected(locations, encodings) =>
      if |locations| == 0 then Processed(cache, [])
      else
        var n := Min(|locations|, |encodings|);
        Processed(cache, seq(n, i requires 0 <= i < n => FaceResult(Classify(cache, encodings[i], distance), locations[i])))
  }

  /** `identify_person_from_results`: the first name that is not "Unknown". */
  function Identify<L>(results: seq<FaceResult<L>>): (name: string)
    ensures name == UnknownName <==> forall i :: 0 <= i < |results| ==> results[i].name == UnknownName
    ensures name != UnknownName ==>
      exists i :: 0 <= i < |results| && results[i].name == name &&
        forall j :: 0 <= j < i ==> results[j].name == UnknownName
  {
    if |results| == 0 then UnknownName
    else if results[0].name != UnknownName then results[0].name
    else
      var rest := Identify(results[1..]);
      assert forall i :: 1 <= i < |results| ==> results[i] == results[1..][i - 1];
      rest
  }
}

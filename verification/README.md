# Attendance core: presence ledger, face-match decisions, schema and seeding

This project models the backend of a face-recognition attendance service in
Dafny. A camera frame is classified against a cache of known face encodings.
The first identified name gets at most one presence record per day. The model
covers four parts:

- **Schema** (`schema.dfy`): the `persons` and `presences` tables as sequences
  of rows in rowid order. It models the constraints the storage enforces: the
  unique person name and the unique `(person_id, presence_datetime)` pair. It
  also states the invariants the application keeps: unique ids and the foreign
  key from a presence to its person. SQLite does not check foreign keys unless
  asked to, so the model proves the key is kept rather than enforcing it. Row
  ids follow SQLite's rowid rule: one more than the largest id, or 1 for an
  empty table. The rowid ceiling of 2^63-1 is not modelled.
- **Presence ledger** (`clock.dfy`, `ledger.dfy`):
  - `store_presence` looks up a person by exact name.
  - It refuses an unknown name.
  - It refuses a person who already has a presence stamped at or after midnight
    of the current day.
  - Otherwise it appends one record stamped `now`.
  - The two queries return today's presences and one row per person with that
    person's latest presence of today.
  - "Today" has no upper bound, so a future-dated record also counts.
  - The clock reading `now` is an integer number of seconds and a parameter.
    Midnight is `now - now % 86400`.
- **Face-matching decisions** (`recognition.dfy`):
  - The encoding cache is a sequence of `(name, encoding)` entries with unique
    names, in dictionary insertion order.
  - `add_person` replaces or appends the entry for a name, but only when the
    reference image yields at least one encoding.
  - Each detected face takes the name of the first entry whose distance is at
    most 0.6. When no entry is that close, the name is "Unknown".
  - `identify_person_from_results` returns the first name that is not
    "Unknown".
  - Encodings and locations are type parameters. The face distance is a
    function parameter. The image loader and the detector are given as values.
- **Seeding** (`seeding.dfy`): `initialize_database` inserts the three
  reference persons in one transaction. If any insert or the commit fails, the
  table is left exactly as it was.

`handlers.dfy` models how the two request handlers use this core. A frame
records a presence only for an identified name other than "Unknown". An upload
adds the person to the database and then extracts their face into the cache.
After a change both routes read the persons with their presences and emit
them; that step is the parameter `Broadcast`. When it raises, the route
answers failure, but what was committed stays committed.

Storage failures are the parameter `Storage = Healthy | Failing(message)`,
which says what the COMMIT does. A failing commit is rolled back. The unique
constraints are checked when a row is inserted, which happens before the
commit.

A few behaviours of the code are easy to mistake, so the model states them
outright:

- The backend records at most one presence per person per calendar day. It has
  no attendance time windows; the time ranges shown by the frontend are for
  display only.
- A face takes the name of the first cache entry, in insertion order, that is
  within tolerance. It is not the nearest entry, and no confidence is computed.
- An upload commits the person even when the image has no usable face. The
  cache is then left as it was (`Handlers.UploadWithoutFaceStillEnrolls`).
- `store_presence` refuses a second presence on the same day before any
  insert, and turns any exception (an integrity error included) into a
  rollback and a `(False, message)` reply. `add_person` in the model layer
  catches nothing; the model returns its error as a value.

## Model

| member | source | states |
|---|---|---|
| Schema.NextId | BackSide/Model.py:13 | A new row id is 1 for an empty table and otherwise one more than the largest id in it: it is larger than every id, the id below it is in the table, and it is at least 1 when no id is negative. |
| Schema.InsertPerson | BackSide/Model.py:10-15 | Inserting a person fails with a duplicate-name error exactly when the name is already in the table. Otherwise it appends exactly one row with the given name and path and a fresh id. Unique names and unique ids are kept. |
| Schema.InsertPresence | BackSide/Model.py:31-40 | Inserting a presence fails exactly when the `(person_id, presence_datetime)` pair is already in the table. Otherwise it appends exactly one row with a fresh id. The unique pair and unique ids are kept. |
| Schema.AddPerson | BackSide/Model.py:22-26 | `add_person` succeeds exactly when the name is new and the commit succeeds. Then it appends exactly one person carrying the given name and image path, returns that person, and leaves presences untouched. A duplicate name or a failing commit gives an error, and the schema invariants are kept. |
| Schema.AllPersons | BackSide/Model.py:28-29 | `get_all_persons` returns one entry per row of the persons table, and a person is in the list exactly when it is a row of the table; in a valid database no name and no id appears twice in the list. |
| Schema.AddPersonThenAllPersons | BackSide/Model.py:22-29 | After `add_person`, `get_all_persons` returns every earlier person in order, followed by the new one. |
| Clock.DayStart | BackSide/presence_manager.py:30-31 | Today's start is a midnight no later than `now` and less than a day before it. |
| Clock.DayStartUnique | BackSide/presence_manager.py:31 | Any midnight no later than `now` and less than a day before it is today's start. |
| Clock.SinceDayStartIffNotEarlierDay | BackSide/presence_manager.py:34-37 | A stamp is at or after today's start exactly when it falls on today or on a later day. |
| Calendar.TodayStartFromReadings | BackSide/presence_manager.py:67 | The boundary assembled from the year, month and day of three separate clock readings is always a midnight; which midnight it is depends on the readings (see the next row). |
| Calendar.MidnightBetweenReadings | BackSide/presence_manager.py:67 | The query boundary built from three clock readings that straddle a New Year midnight is 366 days too early. It then admits a presence from the previous day (see Findings). |
| Ledger.FindPerson | BackSide/presence_manager.py:28 | The lookup finds nothing exactly when no person has the name. Otherwise it gives the first person in table order with exactly that name. |
| Ledger.StorePresence | BackSide/presence_manager.py:25-55 | An unknown name gives `(False, "Person not found")`. A person already present today gives `(False, name)`. A failing commit gives `(False, message)`. These three leave the tables unchanged. Otherwise the result is `(True, name)` and exactly one record `{person.id, now}` with a fresh id is appended. Persons never change. The schema invariants and the once-per-day invariant are kept. |
| Ledger.NoPresenceTodayNoClash | BackSide/presence_manager.py:33-47 | A person with no presence since today's start has none stamped `now`, so the insert that follows the lookup never violates the unique `(person_id, presence_datetime)` pair. |
| Ledger.OncePerDayKeepsUniqueKeys | BackSide/Model.py:40 | At most one presence per person per day implies the unique `(person_id, presence_datetime)` constraint. |
| Ledger.InsertKeepsOncePerDay | BackSide/presence_manager.py:33-48 | Appending a record stamped `now` for a person with no record since today's start keeps at most one record per person per day. |
| Ledger.ReplayKeepsInvariants | BackSide/presence_manager.py:25-55 | Over any sequence of `store_presence` calls, the tables satisfy the schema constraints and hold at most one record per person per day. This holds whatever the names, clock readings and commit outcomes are. |
| Ledger.SecondCallSameDayRefused | BackSide/presence_manager.py:33-48 | For a person not yet present, a first call returns True. A second call on the same day returns `(False, name)` and inserts nothing. |
| Ledger.NextDayRecordedAgain | BackSide/presence_manager.py:30-48 | The refusal lasts one day: after a first recording, a call on a later day records the person again. |
| Ledger.RecordsSince | BackSide/presence_manager.py:68 | The filter keeps exactly the records stamped at or after the boundary, as a subsequence of the table, so table order is kept. |
| Ledger.TodaysPresence | BackSide/presence_manager.py:64-71 | `get_todays_presence` returns exactly the records stamped at or after today's start, in table order, future-dated records included. |
| Ledger.RecordsSinceAppend | BackSide/presence_manager.py:68 | Filtering a table with one more row gives the old result, plus that row when it passes. |
| Ledger.TodaysPresenceAfterStore | BackSide/presence_manager.py:42-69 | After a successful `store_presence`, today's presences are the earlier ones followed by the new record for that person stamped `now`. |
| Ledger.LatestSince | BackSide/presence_manager.py:80-83 | A person's latest presence since the boundary is absent exactly when the person has none. Otherwise it is the largest such stamp and belongs to one of their records. |
| Ledger.PersonsWithPresence | BackSide/presence_manager.py:73-97 | There is one row per person, in person order, carrying that person's id and name. The presence is None exactly when the person has no record today. Otherwise it is the latest of their stamps at or after today's start. |
| Ledger.LatestUnique | BackSide/presence_manager.py:80-83 | The latest stamp of today is unique, so ties in the descending order do not change the row. |
| Ledger.LatestSinceAppend | BackSide/presence_manager.py:80-83 | A new record changes the latest stamp of its own person only, to the larger of the old and new stamps. |
| Ledger.RowsAfterAppend | BackSide/presence_manager.py:79-90 | Appending a record stamped `now` for a person with no record since today's start makes that person's row show `now` and leaves every other person's row as it was. |
| Ledger.RowsAfterStore | BackSide/presence_manager.py:73-97 | After a successful `store_presence` at `now`, the recorded person's row shows `now` and every other person's row is unchanged. |
| Recognition.Lookup | BackSide/face_recognition_system.py:12 | The cache has an encoding for a name exactly when it has an entry with that name, and the encoding is that entry's. |
| Recognition.Put | BackSide/face_recognition_system.py:28 | Setting a name's encoding replaces that name's entry where it stands, or appends a new entry for a new name. Every other entry is untouched, every entry of the result either carries the name or is the old entry at that position, and names stay unique. |
| Recognition.PutThenLookup | BackSide/face_recognition_system.py:28 | After setting a name's encoding, the name maps to the new encoding and every other name to its old value. |
| Recognition.AddFace | BackSide/face_recognition_system.py:21-37 | `add_person` returns True exactly when the image yields at least one encoding. Then the cache is the old cache with the name's entry replaced where it stands, or appended when the name is new, holding the first encoding; other names keep their encodings. A missing file, no face or an exception returns False and leaves the cache unchanged. |
| Recognition.LoadFaces | BackSide/face_recognition_system.py:16-19 | Loading faces for a list of persons keeps cache names unique. |
| Recognition.LoadFacesLookup | BackSide/face_recognition_system.py:16-19 | After loading, each name maps to the first encoding of the last person with that name whose image yields one, so a later duplicate wins. Names with no such person keep their earlier entry. |
| Recognition.FirstMatch | BackSide/face_recognition_system.py:83-87 | The search finds nothing exactly when no entry is within tolerance 0.6. Otherwise it gives the position of a matching entry with no match before it. |
| Recognition.Matches | BackSide/face_recognition_system.py:84 | `compare_faces` at tolerance 0.6 matches at a distance of exactly 0.6 and at distance zero, and does not match beyond 0.6. |
| Recognition.Classify | BackSide/face_recognition_system.py:82-87 | A face is named after the first cache entry, in insertion order, within distance 0.6, or "Unknown" when there is none or the cache is empty. |
| Recognition.ClassifyIsFirstMatch | BackSide/face_recognition_system.py:82-87 | A name is the first-match name of a face exactly when it is the classifier's result, in both directions. |
| Recognition.StoredEncodingRecognised | BackSide/face_recognition_system.py:83-87 | A face identical to a cached encoding is named after that entry or an earlier one. It is that entry's name when no earlier entry matches, because the first match wins and not the nearest. |
| Recognition.ProcessFrame | BackSide/face_recognition_system.py:68-93 | A non-empty person list is loaded into the cache first. An exception or no face locations gives `[]`. Otherwise there is one result per zipped (encoding, location) pair, in detection order, carrying its own location and its first-match name. |
| Recognition.Identify | BackSide/face_recognition_system.py:95-99 | The result is "Unknown" exactly when every result is "Unknown", which includes the empty list. Otherwise it is the name of a result that comes after only "Unknown" results. |
| Seeding.InsertAll | BackSide/initialize_db.py:24-26 | A batch of inserts can only fail with a duplicate name. |
| Seeding.InsertAllSucceeds | BackSide/initialize_db.py:22-28 | A batch with distinct, new names is appended whole, in order, with the listed names and paths. |
| Seeding.InsertAllKeepsUnique | BackSide/initialize_db.py:22-28 | A batch that is inserted whole keeps person names and ids unique. |
| Seeding.InsertAllRefuses | BackSide/initialize_db.py:22-33 | A batch with a name already in the table, or a repeated name, fails as a duplicate. |
| Seeding.ReferenceNamesDistinct | BackSide/initialize_db.py:15-20 | The three reference names are distinct. |
| Seeding.InitializeDatabase | BackSide/initialize_db.py:5-35 | With no reference name in the table and a working commit, the three reference persons are appended with their paths. If any name is taken or the commit fails, the database is unchanged. Presences are never touched and the schema invariants are kept. |
| Seeding.SeedEmptyDatabase | BackSide/initialize_db.py:15-28 | Seeding an empty database gives exactly Fatiha Agdoud, Mouhcine Ouaaziz and Abdellah Fazza with their image paths, no presences, and a valid schema. |
| Seeding.SeedTwice | BackSide/initialize_db.py:22-33 | Seeding a database that has already been seeded changes nothing, whatever the storage does. |
| Handlers.HandleFrame | BackSide/app.py:54-69 | The frame route answers `(True, "Unknown person")` without a change when no name is identified. Otherwise the tables become those `store_presence` leaves for the identified name, and the answer is `store_presence`'s, except that a broadcast that raises after a successful store turns it into a failure carrying the message while the presence stays committed. Persons and all invariants are kept. |
| Handlers.RecordedFromMatchedFace | BackSide/app.py:54-60 | A presence recorded from a frame belongs to a person not named "Unknown", whose name is on a cache entry within tolerance of one of the frame's faces. |
| Handlers.UploadImage | BackSide/app.py:83-99 | An upload succeeds exactly when the name is new, the commit succeeds and the broadcast of the persons goes through. Whenever the name is new and the commit succeeds, one person is appended and their face is added to the cache, even if the broadcast then raises and the route answers failure. A taken name or a failing commit changes neither the database nor the cache. |
| Handlers.UploadWithoutFaceStillEnrolls | BackSide/app.py:85-86 | A person whose image has no usable face is still committed, and the cache is left as it was. |

## Left out

- Image preprocessing (grayscale, denoising, CLAHE, sharpening, bilateral filter, 0.25 resize) is floating-point image processing in a foreign library. The detector's output for a frame is a parameter.
- Face location, encoding extraction and `compare_faces` are foreign calls on float vectors. Locations and encodings are type parameters, the distance is a function parameter, and only the `<= 0.6` decision is modelled.
- Reading the clock: `now` is a parameter in integer seconds, in a single time zone with no daylight-saving shifts.
- The ISO formatting of `presence_to_dict` and of the row datetimes is left out. Queries return the records and stamps themselves.
- The SQLAlchemy engine, sessions, session closing and the SQLite file are replaced by in-memory tables. Only commit failures are modelled as storage errors. A query raising before the commit gives the same `(False, message)` reply with no change, which is not modelled separately.
- The column lengths `String(100)` and `String(255)` are not modelled, because SQLite does not enforce them.
- Calendar.TodayStartFromReadings: does not model the `ValueError` Python raises for an impossible date. Readings taken in order a moment apart cannot combine into one, because crossing into a new month resets the day to 1.
- Schema.NextId: does not model SQLite's fallback once the largest id reaches 2^63-1, because the tables never come near that size.
- `PresenceManager.get_all_persons` and `get_session` are left out. The first is the same table read as `Schema.AllPersons`.
- Logging and `print` are output only.
- Flask routes, request validation, base64 and image decoding, saving and removing uploaded files, SocketIO emits and HTTP status codes are transport. Only the decisions of the two routes are modelled, in `Handlers`.
- Handlers.UploadImage: when the broadcast raises after the commit, the route also deletes the saved image although the committed row still names it; files are outside the model, so the dangling `image_path` is not represented.
- Handlers.HandleFrame: the persons read and the emit after a store are one `Broadcast` outcome; which of the two raised, the logging and the HTTP status 500 are not distinguished.
- Concurrent requests are not modelled. Every call is sequential.
- The frontend is not modelled, including its time-range columns. The backend implements no time windows and no confidence score.

## Findings

| source | as written | input that shows it | evidently intended | confidence | as-written member | corrected member |
|---|---|---|---|---|---|---|
| BackSide/presence_manager.py:67 | Today's start is `datetime(datetime.now().year, datetime.now().month, datetime.now().day)`: three clock readings, taken in that order. | The year is read at 2024-12-31 23:59:59 and the month and day at 2025-01-01 00:00:00. The boundary becomes 2024-01-01 00:00:00, so `get_todays_presence` returns a whole year of records. | Midnight of the day of one reading, as `store_presence` computes it (lines 30-31). | medium: needs a request at midnight; not executed | Calendar.MidnightBetweenReadings | Clock.DayStart |

`Calendar.TodayStartFromReadings` models the three-reading boundary as written.
The same expression is on line 76, in `get_all_persons_with_presence`. The
ledger's queries use the single-reading `Clock.DayStart`.

/**
 The presence ledger: recording a person's presence at most once per day, and
 the two read-side queries over today's presences. "Today" begins at midnight
 of the day that contains the reading `now` and has no upper end, so a
 presence stamped later than `now` also counts as today's.
 */
module Ledger {
  import opened Options
  import opened Schema
  import opened Clock

  /** The `(success, message)` pair that `store_presence` returns. */
  datatype Reply = Reply(success: bool, message: string)

  datatype Stored = Stored(reply: Reply, db: Db)

  /** One row of `get_all_persons_with_presence`. */
  datatype PersonRow = PersonRow(id: int, name: string, presence: Option<int>)

  const PersonNotFound := "Person not found"

  // ---------------------------------------------------------------------------
  // Lookups

  /** The first person in table order with exactly this name. */
  function FindPerson(ps: seq<Person>, name: string): (r: Option<nat>)
    ensures r.None? <==> !NameTaken(ps, name)
    ensures r.Some? ==>
      && r.value < |ps|
      && ps[r.value].name == name
      && forall j :: 0 <= j < r.value ==> ps[j].name != name
  {
    if |ps| == 0 then None
    else if ps[0].name == name then Some(0)
    else
      match FindPerson(ps[1..], name)
      case None =>
        assert forall i :: 1 <= i < |ps| ==> ps[i] == ps[1..][i - 1];
        None
      case Some(k) => Some(k + 1)
  }

  /** Some presence of person `personId` is stamped at or after `start`. */
  predicate PresentSince(rs: seq<Presence>, personId: int, start: int) {
    exists i :: 0 <= i < |rs| && rs[i].personId == personId && rs[i].datetime >= start
  }

  /** At most one presence per person per day. */
  ghost predicate OncePerDay(rs: seq<Presence>) {
    forall i, j :: 0 <= i < j < |rs| && rs[i].personId == rs[j].personId ==>
      Day(rs[i].datetime) != Day(rs[j].datetime)
  }

  /** Two presences of the same person at the same moment share a day, so
      keeping one presence per day keeps the table's unique key as well. */
  lemma OncePerDayKeepsUniqueKeys(rs: seq<Presence>)
    requires OncePerDay(rs)
    ensures UniquePresenceKeys(rs)
  {
  }

  // ---------------------------------------------------------------------------
  // store_presence

  /** `store_presence(name)` with the clock reading `now`. Unknown names are
      refused; a person who already has a presence today is refused with
      their name; otherwise one presence stamped `now` is inserted and
      committed. A failing commit is rolled back and its message returned. */
  function StorePresence(db: Db, name: string, now: int, storage: Storage): (r: Stored)
    ensures r.db.persons == db.persons
    ensures !r.reply.success ==> r.db == db
    ensures !NameTaken(db.persons, name) ==> r.reply == Reply(false, PersonNotFound)
    ensures NameTaken(db.persons, name) ==>
      var p := db.persons[FindPerson(db.persons, name).value];
      && p.name == name
      && (PresentSince(db.presences, p.id, DayStart(now)) ==> r.reply == Reply(false, name))
      && (!PresentSince(db.presences, p.id, DayStart(now)) && storage.Failing? ==>
            r.reply == Reply(false, storage.message))
      && (r.reply.success <==> !PresentSince(db.presences, p.id, DayStart(now)) && storage.Healthy?)
      && (r.reply.success ==>
            && r.reply.message == name
            && |r.db.presences| == |db.presences| + 1
            && r.db.presences[..|db.presences|] == db.presences
            && r.db.presences[|db.presences|].personId == p.id
            && r.db.presences[|db.presences|].datetime == now
            && forall i :: 0 <= i < |db.presences| ==>
                 db.presences[i].id < r.db.presences[|db.presences|].id)
    ensures Valid(db) ==> Valid(r.db)
    ensures OncePerDay(db.presences) ==> OncePerDay(r.db.presences)
  {
    match FindPerson(db.persons, name)
    case None => Stored(Reply(false, PersonNotFound), db)
    case Some(k) =>
      var p := db.persons[k];
      if PresentSince(db.presences, p.id, DayStart(now)) then
        Stored(Reply(false, p.name), db)
      else
        NoPresenceTodayNoClash(db.presences, p.id, now);
        var rs := InsertPresence(db.presences, p.id, now).value;
        if storage.Failing? then
          Stored(Reply(false, storage.message), db)
        else
          InsertKeepsOncePerDay(db.presences, rs, p.id, now);
          assert ForeignKeys(db) ==> ForeignKeys(Db(db.persons, rs)) by {
            if ForeignKeys(db) {
              assert db.persons[k].id == p.id;
              forall i | 0 <= i < |rs|
                ensures PersonIdExists(db.persons, rs[i].personId)
              {
                if i < |db.presences| {
                  assert rs[i] == db.presences[i];
                }
              }
            }
          }
          Stored(Reply(true, p.name), Db(db.persons, rs))
  }

  /** A person with no presence since the start of `now`'s day has none
      stamped exactly `now`, so the insert that follows the lookup cannot
      break the unique `(person_id, presence_datetime)` constraint. */
  lemma NoPresenceTodayNoClash(rs: seq<Presence>, personId: int, now: int)
    requires !PresentSince(rs, personId, DayStart(now))
    ensures !KeyTaken(rs, personId, now)
  {
    assert DayStart(now) <= now;
  }

  /** Appending a presence stamped `now` for a person none of whose
      presences is stamped at or after the start of `now`'s day keeps one
      presence per person per day: every earlier presence of that person
      lies on an earlier day. */
  lemma InsertKeepsOncePerDay(rs: seq<Presence>, rs': seq<Presence>, personId: int, now: int)
    requires !PresentSince(rs, personId, DayStart(now))
    requires |rs'| == |rs| + 1 && rs'[..|rs|] == rs
    requires rs'[|rs|].personId == personId && rs'[|rs|].datetime == now
    ensures OncePerDay(rs) ==> OncePerDay(rs')
  {
    if OncePerDay(rs) {
      forall i, j | 0 <= i < j < |rs'| && rs'[i].personId == rs'[j].personId
        ensures Day(rs'[i].datetime) != Day(rs'[j].datetime)
      {
        assert rs'[i] == rs[i];
        if j == |rs| {
          SinceDayStartIffNotEarlierDay(rs[i].datetime, now);
        } else {
          assert rs'[j] == rs[j];
        }
      }
    }
  }

  /** Calls of `store_presence` in sequence: each is a name, a clock reading
      and what the storage does at commit time. */
  datatype Call = Call(name: string, now: int, storage: Storage)

  function Replay(db: Db, calls: seq<Call>): (r: Db)
    decreases |calls|
  {
    if |calls| == 0 then db
    else
      var last := calls[|calls| - 1];
      StorePresence(Replay(db, calls[..|calls| - 1]), last.name, last.now, last.storage).db
  }

  /** Whatever names, clock readings (in any order) and storage outcomes the
      calls carry, no person is ever recorded twice on one day, and the
      schema's constraints keep holding. */
  lemma {:induction false} ReplayKeepsInvariants(db: Db, calls: seq<Call>)
    requires Valid(db) && OncePerDay(db.presences)
    ensures Valid(Replay(db, calls))
    ensures OncePerDay(Replay(db, calls).presences)
    decreases |calls|
  {
    if |calls| > 0 {
      ReplayKeepsInvariants(db, calls[..|calls| - 1]);
    }
  }

  /** A first call records the person and a second call on the same day,
      whatever the storage does, is refused with the person's name and
      changes nothing. */
  lemma SecondCallSameDayRefused(db: Db, name: string, now1: int, now2: int, storage2: Storage)
    requires NameTaken(db.persons, name)
    requires !PresentSince(db.presences, db.persons[FindPerson(db.persons, name).value].id, DayStart(now1))
    requires Day(now1) == Day(now2)
    ensures var first := StorePresence(db, name, now1, Healthy);
      var second := StorePresence(first.db, name, now2, storage2);
      && first.reply == Reply(true, name)
      && second.reply == Reply(false, name)
      && second.db == first.db
  {
    var first := StorePresence(db, name, now1, Healthy);
    var p := db.persons[FindPerson(db.persons, name).value];
    var n := |db.presences|;
    SinceDayStartIffNotEarlierDay(now1, now2);
    assert first.db.presences[n].personId == p.id && first.db.presences[n].datetime >= DayStart(now2);
    assert PresentSince(first.db.presences, p.id, DayStart(now2));
  }

  /** The refusal lasts one day only: after a first call records the person,
      a call on a later day records them again. */
  lemma NextDayRecordedAgain(db: Db, name: string, now1: int, now2: int)
    requires NameTaken(db.persons, name)
    requires !PresentSince(db.presences, db.persons[FindPerson(db.persons, name).value].id, DayStart(now1))
    requires Day(now1) < Day(now2)
    ensures var first := StorePresence(db, name, now1, Healthy);
      var second := StorePresence(first.db, name, now2, Healthy);
      && first.reply == Reply(true, name)
      && second.reply == Reply(true, name)
      && |second.db.presences| == |db.presences| + 2
  {
    var first := StorePresence(db, name, now1, Healthy);
    var p := db.persons[FindPerson(db.persons, name).value];
    var n := |db.presences|;
    assert DayStart(now1) < DayStart(now2) by {
      SinceDayStartIffNotEarlierDay(DayStart(now1), now2);
    }
    forall i | 0 <= i < |first.db.presences| && first.db.presences[i].personId == p.id
      ensures first.db.presences[i].datetime < DayStart(now2)
    {
      if i < n {
        assert first.db.presences[i] == db.presences[i];
      } else {
        SinceDayStartIffNotEarlierDay(now1, now2);
      }
    }
  }

  // ---------------------------------------------------------------------------
  // get_todays_presence

  /** `s` can be obtained from `t` by deleting elements. */
  ghost predicate Subsequence<T>(s: seq<T>, t: seq<T>)
    decreases |t|
  {
    if |s| == 0 then true
    else if |t| == 0 then false
    else (s[0] == t[0] && Subsequence(s[1..], t[1..])) || Subsequence(s, t[1..])
  }

  /** The presences stamped at or after `start`, in table order. */
  function RecordsSince(rs: seq<Presence>, start: int): (r: seq<Presence>)
    ensures forall x :: x in r <==> x in rs && x.datetime >= start
    ensures Subsequence(r, rs)
  {
    if |rs| == 0 then []
    else
      var rest := RecordsSince(rs[1..], start);
      assert forall x :: x in rs <==> x == rs[0] || x in rs[1..];
      if rs[0].datetime >= start then [rs[0]] + rest
      else
        assert |rest| == 0 || Subsequence(rest, rs[1..]);
        rest
  }

  /** `get_todays_presence`: every presence stamped at or after the start of
      `now`'s day, future ones included, in table order. */
  function TodaysPresence(db: Db, now: int): (r: seq<Presence>)
    ensures forall x :: x in r <==> x in db.presences && x.datetime >= DayStart(now)
    ensures forall x :: x in db.presences && x.datetime >= now ==> x in r
    ensures Subsequence(r, db.presences)
  {
    RecordsSince(db.presences, DayStart(now))
  }

  lemma {:induction false} RecordsSinceAppend(rs: seq<Presence>, x: Presence, start: int)
    ensures RecordsSince(rs + [x], start) ==
      RecordsSince(rs, start) + (if x.datetime >= start then [x] else [])
    decreases |rs|
  {
    if |rs| == 0 {
      assert (rs + [x])[1..] == [];
    } else {
      assert (rs + [x])[0] == rs[0];
      assert (rs + [x])[1..] == rs[1..] + [x];
      RecordsSinceAppend(rs[1..], x, start);
    }
  }

  /** After `store_presence` records a person, today's presences are the
      earlier ones followed by the new record. */
  lemma TodaysPresenceAfterStore(db: Db, name: string, now: int)
    requires StorePresence(db, name, now, Healthy).reply.success
    ensures var db' := StorePresence(db, name, now, Healthy).db;
      && |TodaysPresence(db', now)| == |TodaysPresence(db, now)| + 1
      && TodaysPresence(db', now)[..|TodaysPresence(db, now)|] == TodaysPresence(db, now)
      && var x := TodaysPresence(db', now)[|TodaysPresence(db, now)|];
         x.datetime == now && x.personId == db.persons[FindPerson(db.persons, name).value].id
  {
    var db' := StorePresence(db, name, now, Healthy).db;
    var n := |db.presences|;
    assert db'.presences == db.presences + [db'.presences[n]];
    RecordsSinceAppend(db.presences, db'.presences[n], DayStart(now));
  }

  // ---------------------------------------------------------------------------
  // get_all_persons_with_presence

  /** `t` is the latest stamp, at or after `start`, among person
      `personId`'s presences. */
  ghost predicate IsLatestSince(rs: seq<Presence>, personId: int, start: int, t: int) {
    && t >= start
    && (exists i :: 0 <= i < |rs| && rs[i].personId == personId && rs[i].datetime == t)
    && forall i :: 0 <= i < |rs| && rs[i].personId == personId && rs[i].datetime >= start ==>
         rs[i].datetime <= t
  }

  /** Only one stamp is the latest since `start`: records tied on the
      latest stamp all show the same value, so the descending order's
      choice among them does not change the reported stamp. */
  lemma LatestUnique(rs: seq<Presence>, personId: int, start: int, t1: int, t2: int)
    requires IsLatestSince(rs, personId, start, t1)
    requires IsLatestSince(rs, personId, start, t2)
    ensures t1 == t2
  {
    var i1 :| 0 <= i1 < |rs| && rs[i1].personId == personId && rs[i1].datetime == t1;
    var i2 :| 0 <= i2 < |rs| && rs[i2].personId == personId && rs[i2].datetime == t2;
    assert t1 <= t2 && t2 <= t1;
  }

  /** The presence the query ordered by descending stamp returns first. */
  function LatestSince(rs: seq<Presence>, personId: int, start: int): (r: Option<int>)
    ensures r.None? <==> !PresentSince(rs, personId, start)
    ensures r.Some? ==> IsLatestSince(rs, personId, start, r.value)
  {
    if |rs| == 0 then None
    else
      var rest := LatestSince(rs[1..], personId, start);
      assert forall i :: 1 <= i < |rs| ==> rs[i] == rs[1..][i - 1];
      if rs[0].personId == personId && rs[0].datetime >= start then
        match rest
        case None => Some(rs[0].datetime)
        case Some(t) => Some(if t > rs[0].datetime then t else rs[0].datetime)
      else
        rest
  }

  /** `get_all_persons_with_presence`: one row per person in table order,
      carrying the latest of today's presences of that person, if any. */
  function PersonsWithPresence(db: Db, now: int): (rows: seq<PersonRow>)
    ensures |rows| == |db.persons|
    ensures forall i :: 0 <= i < |rows| ==>
      rows[i].id == db.persons[i].id && rows[i].name == db.persons[i].name
    ensures forall i :: 0 <= i < |rows| ==>
      (rows[i].presence.None? <==> !PresentSince(db.presences, db.persons[i].id, DayStart(now)))
    ensures forall i :: 0 <= i < |rows| && rows[i].presence.Some? ==>
      IsLatestSince(db.presences, db.persons[i].id, DayStart(now), rows[i].presence.value)
  {
    seq(|db.persons|, i requires 0 <= i < |db.persons| =>
      PersonRow(db.persons[i].id, db.persons[i].name,
                LatestSince(db.presences, db.persons[i].id, DayStart(now))))
  }

  /** Appending a presence changes the latest stamp of its own person only,
      and only when the new stamp is at or after `start`. */
  lemma {:induction false} LatestSinceAppend(rs: seq<Presence>, x: Presence, personId: int, start: int)
    ensures LatestSince(rs + [x], personId, start) ==
      if x.personId == personId && x.datetime >= start then
        match LatestSince(rs, personId, start)
        case None => Some(x.datetime)
        case Some(t) => Some(if t > x.datetime then t else x.datetime)
      else LatestSince(rs, personId, start)
    decreases |rs|
  {
    if |rs| > 0 {
      assert (rs + [x])[0] == rs[0];
      assert (rs + [x])[1..] == rs[1..] + [x];
      LatestSinceAppend(rs[1..], x, personId, start);
    } else {
      assert (rs + [x])[1..] == [];
    }
  }

  /** After `store_presence` records a person, that person's row carries the
      new stamp and the row of every person with another id is unchanged. */
  lemma RowsAfterStore(db: Db, name: string, now: int)
    requires StorePresence(db, name, now, Healthy).reply.success
    ensures var k := FindPerson(db.persons, name).value;
      var before := PersonsWithPresence(db, now);
      var after := PersonsWithPresence(StorePresence(db, name, now, Healthy).db, now);
      && after[k].presence == Some(now)
      && forall i :: 0 <= i < |after| && db.persons[i].id != db.persons[k].id ==> after[i] == before[i]
  {
    var k := FindPerson(db.persons, name).value;
    var db' := StorePresence(db, name, now, Healthy).db;
    var x := db'.presences[|db.presences|];
    assert db' == Db(db.persons, db.presences + [x]);
    RowsAfterAppend(db, x, k, now);
  }

  /** Appending a presence stamped `now` for person `k`, who has none since
      the start of today, shows `now` in that person's row and leaves every other person's row as it was. */
  lemma RowsAfterAppend(db: Db, x: Presence, k: int, now: int)
    requires 0 <= k < |db.persons| && x.personId == db.persons[k].id && x.datetime == now
    requires !PresentSince(db.presences, x.personId, DayStart(now))
    ensures var before := PersonsWithPresence(db, now);
      var after := PersonsWithPresence(Db(db.persons, db.presences + [x]), now);
      && after[k].presence == Some(now)
      && forall i :: 0 <= i < |after| && db.persons[i].id != db.persons[k].id ==> after[i] == before[i]
  {
    var after := PersonsWithPresence(Db(db.persons, db.presences + [x]), now);
    forall i | 0 <= i < |after|
      ensures LatestSince(db.presences + [x], db.persons[i].id, DayStart(now)) ==
        if db.persons[i].id == db.persons[k].id then Some(now)
        else LatestSince(db.presences, db.persons[i].id, DayStart(now))
    {
      LatestSinceAppend(db.presences, x, db.persons[i].id, DayStart(now));
    }
  }
}

/** WatchlistDAO: the statements on the watchlist table.  Without a connection every
    method returns false or an empty list and changes nothing; an insert the database
    rejects (a duplicate (user_id, car_id) pair, or a user or car that does not exist)
    raises an SQLException that the method turns into false. */
module WatchlistDao {
  import opened JavaLang
  import opened Schema
  import opened CarModel
  import opened CarQuery
  import opened CarDao

  // ---------------------------------------------------------------------------
  // Specification functions

  /** SELECT COUNT(*) FROM watchlist WHERE user_id = ? AND car_id = ? */
  function Count(s: seq<Entry>, userId: int, carId: int): nat {
    if s == [] then 0
    else Count(s[..|s| - 1], userId, carId) +
         (if s[|s| - 1].userId == userId && s[|s| - 1].carId == carId then 1 else 0)
  }

  /** The count is positive exactly when the pair is listed. */
  lemma {:induction false} CountPositive(s: seq<Entry>, userId: int, carId: int)
    ensures Count(s, userId, carId) > 0 <==> HasEntry(s, userId, carId)
  {
    if s != [] {
      var front, last := s[..|s| - 1], s[|s| - 1];
      CountPositive(front, userId, carId);
      assert s == front + [last];
      if HasEntry(s, userId, carId) && !(last.userId == userId && last.carId == carId) {
        var e :| e in s && e.userId == userId && e.carId == carId;
        assert e in front;
      }
    }
  }

  /** With UNIQUE(user_id, car_id) the count is 0 or 1. */
  lemma {:induction false} CountAtMostOne(s: seq<Entry>, userId: int, carId: int)
    requires EntriesUnique(s)
    ensures Count(s, userId, carId) <= 1
  {
    if s != [] {
      var front, last := s[..|s| - 1], s[|s| - 1];
      assert EntriesUnique(front) by {
        forall i, j | 0 <= i < j < |front|
          ensures front[i].userId != front[j].userId || front[i].carId != front[j].carId
        {
          assert front[i] == s[i] && front[j] == s[j];
        }
      }
      CountAtMostOne(front, userId, carId);
      if last.userId == userId && last.carId == carId {
        CountPositive(front, userId, carId);
      }
    }
  }

  /** The watchlist entries of one user, newest first: WHERE w.user_id = ? ORDER BY
      w.created_at DESC over a table kept in insertion order. */
  function EntriesNewestFirst(s: seq<Entry>, userId: int): (r: seq<Entry>)
    ensures forall e :: e in r <==> e in s && e.userId == userId
  {
    if s == [] then []
    else
      var front, last := s[..|s| - 1], s[|s| - 1];
      assert s == front + [last];
      (if last.userId == userId then [last] else []) + EntriesNewestFirst(front, userId)
  }

  /** The rows of the join `cars c INNER JOIN watchlist w ON c.id = w.car_id`, one per
      entry of the user whose car exists, in the entries' order. */
  function WatchJoin(s: seq<Entry>, cars: seq<CarRow>, userId: int): seq<CarRow> {
    if s == [] then []
    else
      var last := s[|s| - 1];
      var found := FindCar(cars, last.carId);
      (if last.userId == userId && found.Some? then [found.value] else []) +
      WatchJoin(s[..|s| - 1], cars, userId)
  }

  /** When every entry refers to an existing car (the foreign key), the join has one car
      per entry of the user, newest entry first: the k-th car is the car of the user's
      k-th newest entry. */
  lemma {:induction false} JoinFollowsEntries(s: seq<Entry>, cars: seq<CarRow>, userId: int)
    requires forall e | e in s :: HasCar(cars, e.carId)
    ensures |WatchJoin(s, cars, userId)| == |EntriesNewestFirst(s, userId)|
    ensures forall k | 0 <= k < |WatchJoin(s, cars, userId)| ::
      WatchJoin(s, cars, userId)[k].id == EntriesNewestFirst(s, userId)[k].carId &&
      WatchJoin(s, cars, userId)[k] in cars
  {
    if s != [] {
      var front, last := s[..|s| - 1], s[|s| - 1];
      assert forall e | e in front :: e in s;
      JoinFollowsEntries(front, cars, userId);
      assert last in s;
      var j, es := WatchJoin(s, cars, userId), EntriesNewestFirst(s, userId);
      var j', es' := WatchJoin(front, cars, userId), EntriesNewestFirst(front, userId);
      if last.userId == userId {
        var found := FindCar(cars, last.carId);
        assert j == [found.value] + j' && es == [last] + es';
        forall k | 0 <= k < |j|
          ensures j[k].id == es[k].carId && j[k] in cars
        {
          if k > 0 {
            assert j[k] == j'[k - 1] && es[k] == es'[k - 1];
          }
        }
      } else {
        assert j == j' && es == es';
      }
    }
  }

  /** Creation stamps strictly decrease along the list. */
  ghost predicate NewestToOldest(r: seq<Entry>) {
    forall i, j | 0 <= i < j < |r| :: r[i].createdAt > r[j].createdAt
  }

  lemma PrependNewer(x: Entry, rest: seq<Entry>)
    requires NewestToOldest(rest)
    requires forall e | e in rest :: e.createdAt < x.createdAt
    ensures NewestToOldest([x] + rest)
  {
    var r := [x] + rest;
    forall i, j | 0 <= i < j < |r|
      ensures r[i].createdAt > r[j].createdAt
    {
      assert r[j] == rest[j - 1];
      if i > 0 {
        assert r[i] == rest[i - 1];
      }
    }
  }

  /** The user's entries come newest first: their created_at strictly decreases. */
  lemma {:induction false} EntriesNewestFirstDescending(s: seq<Entry>, userId: int)
    requires EntriesOrdered(s)
    ensures NewestToOldest(EntriesNewestFirst(s, userId))
  {
    if s != [] {
      var front, last := s[..|s| - 1], s[|s| - 1];
      assert EntriesOrdered(front) by {
        forall i, j | 0 <= i < j < |front|
          ensures front[i].id < front[j].id && front[i].createdAt < front[j].createdAt
        {
          assert front[i] == s[i] && front[j] == s[j];
        }
      }
      EntriesNewestFirstDescending(front, userId);
      var rest := EntriesNewestFirst(front, userId);
      if last.userId == userId {
        forall e | e in rest
          ensures e.createdAt < last.createdAt
        {
          var k :| 0 <= k < |front| && front[k] == e;
          assert s[k] == e;
        }
        PrependNewer(last, rest);
      }
    }
  }

  /** With car ids unique, the join lists exactly the existing cars the user has an entry
      for: a car that was deleted, or that only another user watches, never appears. */
  lemma {:induction false} WatchJoinMembers(s: seq<Entry>, cars: seq<CarRow>, userId: int, c: CarRow)
    requires CarsOrdered(cars)
    ensures c in WatchJoin(s, cars, userId) <==> c in cars && HasEntry(s, userId, c.id)
  {
    if s != [] {
      var front, last := s[..|s| - 1], s[|s| - 1];
      assert s == front + [last];
      WatchJoinMembers(front, cars, userId, c);
      var found := FindCar(cars, last.carId);
      if last.userId == userId && found.Some? && c in cars && c.id == last.carId {
        var k :| 0 <= k < |cars| && cars[k] == c;
        var m :| 0 <= m < |cars| && cars[m] == found.value;
        assert k == m;
      }
      if HasEntry(s, userId, c.id) && !(last.userId == userId && last.carId == c.id) {
        var e :| e in s && e.userId == userId && e.carId == c.id;
        assert e in front;
      }
    }
  }

  /** Deleting from a table that lists the pair nowhere changes nothing. */
  lemma {:induction false} DropAbsentPair(s: seq<Entry>, userId: int, carId: int)
    requires !HasEntry(s, userId, carId)
    ensures DropEntries(s, ThePair(userId, carId)) == s
  {
    if s != [] {
      assert s[0] in s;
      assert forall e | e in s[1..] :: e in s;
      DropAbsentPair(s[1..], userId, carId);
      assert s == [s[0]] + s[1..];
    }
  }

  lemma {:induction false} DropEntriesAppend(s: seq<Entry>, t: seq<Entry>, d: EntryDrop)
    ensures DropEntries(s + t, d) == DropEntries(s, d) + DropEntries(t, d)
  {
    if s != [] {
      assert (s + t)[1..] == s[1..] + t;
      DropEntriesAppend(s[1..], t, d);
    } else {
      assert s + t == t;
    }
  }

  /** Adding a pair that was not listed and then removing it restores the table. */
  lemma AddThenRemove(s: seq<Entry>, e: Entry)
    requires !HasEntry(s, e.userId, e.carId)
    ensures DropEntries(s + [e], ThePair(e.userId, e.carId)) == s
  {
    DropEntriesAppend(s, [e], ThePair(e.userId, e.carId));
    DropAbsentPair(s, e.userId, e.carId);
    assert DropEntries([e], ThePair(e.userId, e.carId)) == [];
  }

  // ---------------------------------------------------------------------------
  // Constraints kept by the statements

  lemma AddKeepsValid(users: seq<User>, cars: seq<CarRow>, entries: seq<Entry>, e: Entry,
                      nextUserId: int, nextCarId: int, nextEntryId: int, clock: nat)
    requires TablesValid(users, cars, entries, nextUserId, nextCarId, nextEntryId, clock)
    requires 1 <= nextEntryId && e.id == nextEntryId && e.createdAt == clock
    requires HasUser(users, e.userId) && HasCar(cars, e.carId) && !HasEntry(entries, e.userId, e.carId)
    ensures TablesValid(users, cars, entries + [e], nextUserId, nextCarId, nextEntryId + 1, clock + 1)
  {
    var entries' := entries + [e];
    forall i, j | 0 <= i < j < |entries'|
      ensures entries'[i].id < entries'[j].id && entries'[i].createdAt < entries'[j].createdAt
      ensures entries'[i].userId != entries'[j].userId || entries'[i].carId != entries'[j].carId
    {
      assert entries'[i] == entries[i] && entries[i] in entries;
      if j < |entries| {
        assert entries'[j] == entries[j];
      }
    }
  }

  lemma RemoveKeepsValid(users: seq<User>, cars: seq<CarRow>, entries: seq<Entry>, d: EntryDrop,
                         nextUserId: int, nextCarId: int, nextEntryId: int, clock: nat)
    requires TablesValid(users, cars, entries, nextUserId, nextCarId, nextEntryId, clock)
    ensures TablesValid(users, cars, DropEntries(entries, d), nextUserId, nextCarId, nextEntryId, clock)
  {
    DropEntriesOrdered(entries, d);
    DropEntriesUnique(entries, d);
  }

  // ---------------------------------------------------------------------------
  // The DAO methods

  /** addToWatchlist: INSERT (user_id, car_id); the entry gets the next id and the current
      stamp.  A pair already listed violates UNIQUE(user_id, car_id) (error 1062) and an
      unknown user or car violates a foreign key: both give false and no change. */
  method AddToWatchlist(db: Database, userId: int, carId: int) returns (ok: bool)
    requires db.Valid()
    modifies db`watchlist, db`nextEntryId, db`clock
    ensures db.Valid()
    ensures ok <==> old(db.Online() && HasUser(db.users, userId) && HasCar(db.cars, carId) &&
                        !HasEntry(db.watchlist, userId, carId))
    ensures ok ==> db.watchlist == old(db.watchlist) + [Entry(old(db.nextEntryId), userId, carId, old(db.clock))]
    ensures ok ==> db.nextEntryId == old(db.nextEntryId) + 1 && db.clock == old(db.clock) + 1
    ensures ok ==> HasEntry(db.watchlist, userId, carId)
    ensures !ok ==> db.watchlist == old(db.watchlist) && db.nextEntryId == old(db.nextEntryId) && db.clock == old(db.clock)
  {
    if !db.Online() {
      return false;
    }
    if HasEntry(db.watchlist, userId, carId) {
      return false;
    }
    if !HasUser(db.users, userId) || !HasCar(db.cars, carId) {
      return false;
    }
    var e := Entry(db.nextEntryId, userId, carId, db.clock);
    AddKeepsValid(db.users, db.cars, db.watchlist, e, db.nextUserId, db.nextCarId, db.nextEntryId, db.clock);
    db.watchlist := db.watchlist + [e];
    db.nextEntryId := db.nextEntryId + 1;
    db.clock := db.clock + 1;
    assert e in db.watchlist;
    ok := true;
  }

  /** removeFromWatchlist: DELETE WHERE user_id = ? AND car_id = ?.  Only that pair's entry
      goes (other users' entries for the car stay), and the result is true iff a row was
      deleted. */
  method RemoveFromWatchlist(db: Database, userId: int, carId: int) returns (ok: bool)
    requires db.Valid()
    modifies db`watchlist
    ensures db.Valid()
    ensures ok <==> old(db.Online() && HasEntry(db.watchlist, userId, carId))
    ensures db.watchlist == if old(db.Online()) then DropEntries(old(db.watchlist), ThePair(userId, carId))
                            else old(db.watchlist)
    ensures !ok ==> db.watchlist == old(db.watchlist)
    ensures !HasEntry(db.watchlist, userId, carId) || !old(db.Online())
  {
    if !db.Online() {
      return false;
    }
    var affected := Count(db.watchlist, userId, carId);
    CountPositive(db.watchlist, userId, carId);
    if affected == 0 {
      DropAbsentPair(db.watchlist, userId, carId);
    }
    RemoveKeepsValid(db.users, db.cars, db.watchlist, ThePair(userId, carId),
                     db.nextUserId, db.nextCarId, db.nextEntryId, db.clock);
    db.watchlist := DropEntries(db.watchlist, ThePair(userId, carId));
    ok := affected > 0;
  }

  /** isInWatchlist: SELECT COUNT(*) ... > 0; false without a connection. */
  method IsInWatchlist(db: Database, userId: int, carId: int) returns (listed: bool)
    ensures listed <==> db.Online() && HasEntry(db.watchlist, userId, carId)
  {
    if !db.Online() {
      return false;
    }
    var n := Count(db.watchlist, userId, carId);
    CountPositive(db.watchlist, userId, carId);
    listed := n > 0;
  }

  /** getWatchlistCars: the joined rows, newest entry first, each turned into a Car by the
      same setters as mapResultSetToCar; an empty list without a connection. */
  method GetWatchlistCars(db: Database, userId: int) returns (cars: seq<CarFields>)
    ensures cars == if db.Online() then ReadAll(WatchJoin(db.watchlist, db.cars, userId)) else []
  {
    if !db.Online() {
      return [];
    }
    cars := ReadResultSet(WatchJoin(db.watchlist, db.cars, userId));
  }
}

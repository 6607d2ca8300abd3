/** The three tables of the store and the constraints the schema declares on them:
    users(id, username UNIQUE NOT NULL, email UNIQUE NOT NULL, password NOT NULL, created_at),
    cars(id, user_id NOT NULL -> users ON DELETE CASCADE, brand, model, year and price
         NOT NULL, mileage, color, description, image_path nullable, created_at),
    watchlist(id, user_id -> users ON DELETE CASCADE, car_id -> cars ON DELETE CASCADE,
              created_at, UNIQUE(user_id, car_id)).
    Ids are AUTO_INCREMENT counters and created_at is a store-wide insertion counter, so
    every table lists its rows in insertion order. */
module Schema {
  import opened JavaLang
  import opened BCrypt

  /** A row of `users`; UserDAO hands the same fields back as a User object. */
  datatype User = User(id: int, username: string, email: string, password: Hash, createdAt: nat)

  /** A row of `cars`.  NOT NULL columns are plain values, nullable ones are options;
      mileage is always written by the application, so it is never null. */
  datatype CarRow = CarRow(
    id: int, userId: int, brand: string, model: string, year: int, price: Decimal,
    mileage: int, color: Option<string>, description: Option<string>,
    imagePath: Option<string>, createdAt: nat)

  /** A row of `watchlist`. */
  datatype Entry = Entry(id: int, userId: int, carId: int, createdAt: nat)

  predicate HasUser(users: seq<User>, id: int) {
    exists u | u in users :: u.id == id
  }

  predicate HasCar(cars: seq<CarRow>, id: int) {
    exists c | c in cars :: c.id == id
  }

  predicate HasEntry(entries: seq<Entry>, userId: int, carId: int) {
    exists e | e in entries :: e.userId == userId && e.carId == carId
  }

  // ---------------------------------------------------------------------------
  // The constraints, as predicates over table contents

  /** Rows appear in insertion order: ids and creation stamps increase. */
  ghost predicate UsersOrdered(users: seq<User>) {
    forall i, j | 0 <= i < j < |users| ::
      users[i].id < users[j].id && users[i].createdAt < users[j].createdAt
  }

  /** username UNIQUE, email UNIQUE. */
  ghost predicate UsersUnique(users: seq<User>) {
    forall i, j | 0 <= i < j < |users| ::
      users[i].username != users[j].username && users[i].email != users[j].email
  }

  ghost predicate CarsOrdered(cars: seq<CarRow>) {
    forall i, j | 0 <= i < j < |cars| ::
      cars[i].id < cars[j].id && cars[i].createdAt < cars[j].createdAt
  }

  ghost predicate EntriesOrdered(entries: seq<Entry>) {
    forall i, j | 0 <= i < j < |entries| ::
      entries[i].id < entries[j].id && entries[i].createdAt < entries[j].createdAt
  }

  /** UNIQUE(user_id, car_id). */
  ghost predicate EntriesUnique(entries: seq<Entry>) {
    forall i, j | 0 <= i < j < |entries| ::
      entries[i].userId != entries[j].userId || entries[i].carId != entries[j].carId
  }

  ghost predicate UsersValid(users: seq<User>, nextUserId: int, clock: nat) {
    UsersOrdered(users) && UsersUnique(users) &&
    forall u | u in users :: 1 <= u.id < nextUserId && u.createdAt < clock
  }

  /** Every car's owner exists (user_id NOT NULL REFERENCES users). */
  ghost predicate CarsValid(cars: seq<CarRow>, users: seq<User>, nextCarId: int, clock: nat) {
    CarsOrdered(cars) &&
    forall c | c in cars :: 1 <= c.id < nextCarId && c.createdAt < clock && HasUser(users, c.userId)
  }

  /** Every entry's user and car exist, and no pair is listed twice. */
  ghost predicate EntriesValid(entries: seq<Entry>, users: seq<User>, cars: seq<CarRow>, nextEntryId: int, clock: nat) {
    EntriesOrdered(entries) && EntriesUnique(entries) &&
    forall e | e in entries ::
      1 <= e.id < nextEntryId && e.createdAt < clock && HasUser(users, e.userId) && HasCar(cars, e.carId)
  }

  /** Every constraint of the schema. */
  ghost predicate TablesValid(users: seq<User>, cars: seq<CarRow>, entries: seq<Entry>,
                              nextUserId: int, nextCarId: int, nextEntryId: int, clock: nat) {
    UsersValid(users, nextUserId, clock) &&
    CarsValid(cars, users, nextCarId, clock) &&
    EntriesValid(entries, users, cars, nextEntryId, clock)
  }

  // ---------------------------------------------------------------------------
  // Deleting rows (DELETE ... WHERE and the cascades of the foreign keys)

  datatype CarDrop = TheCar(id: int, owner: int) | CarsOf(owner: int)

  predicate CarDropped(d: CarDrop, c: CarRow) {
    match d
    case TheCar(id, owner) => c.id == id && c.userId == owner
    case CarsOf(owner) => c.userId == owner
  }

  /** The cars table after deleting the rows `d` selects; the others keep their order. */
  function DropCars(s: seq<CarRow>, d: CarDrop): (r: seq<CarRow>)
    ensures forall c :: c in r <==> c in s && !CarDropped(d, c)
  {
    if s == [] then []
    else if CarDropped(d, s[0]) then DropCars(s[1..], d)
    else [s[0]] + DropCars(s[1..], d)
  }

  lemma {:induction false} DropCarsOrdered(s: seq<CarRow>, d: CarDrop)
    requires CarsOrdered(s)
    ensures CarsOrdered(DropCars(s, d))
  {
    if s != [] {
      CarsTail(s);
      DropCarsOrdered(s[1..], d);
      if !CarDropped(d, s[0]) {
        PrependCarOrdered(s[0], DropCars(s[1..], d));
      }
    }
  }

  /** The rows after the first of an ordered table are ordered, and all come after it. */
  lemma CarsTail(s: seq<CarRow>)
    requires s != [] && CarsOrdered(s)
    ensures CarsOrdered(s[1..])
    ensures forall c | c in s[1..] :: s[0].id < c.id && s[0].createdAt < c.createdAt
  {
    forall i, j | 0 <= i < j < |s[1..]|
      ensures s[1..][i].id < s[1..][j].id && s[1..][i].createdAt < s[1..][j].createdAt
    {
      assert s[1..][i] == s[i + 1] && s[1..][j] == s[j + 1];
    }
    forall c | c in s[1..]
      ensures s[0].id < c.id && s[0].createdAt < c.createdAt
    {
      var k :| 0 <= k < |s[1..]| && s[1..][k] == c;
      assert s[k + 1] == c;
    }
  }

  lemma PrependCarOrdered(x: CarRow, rest: seq<CarRow>)
    requires CarsOrdered(rest)
    requires forall c | c in rest :: x.id < c.id && x.createdAt < c.createdAt
    ensures CarsOrdered([x] + rest)
  {
    var r := [x] + rest;
    forall i, j | 0 <= i < j < |r|
      ensures r[i].id < r[j].id && r[i].createdAt < r[j].createdAt
    {
      if i == 0 {
        assert r[j] == rest[j - 1];
      } else {
        assert r[i] == rest[i - 1] && r[j] == rest[j - 1];
      }
    }
  }

  datatype EntryDrop =
    | ThePair(userId: int, carId: int)
    | OfCar(carId: int)
    | OfUser(userId: int, ownedCars: set<int>)

  predicate EntryDropped(d: EntryDrop, e: Entry) {
    match d
    case ThePair(u, c) => e.userId == u && e.carId == c
    case OfCar(c) => e.carId == c
    case OfUser(u, owned) => e.userId == u || e.carId in owned
  }

  /** The watchlist after deleting the entries `d` selects; the others keep their order. */
  function DropEntries(s: seq<Entry>, d: EntryDrop): (r: seq<Entry>)
    ensures forall e :: e in r <==> e in s && !EntryDropped(d, e)
  {
    if s == [] then []
    else if EntryDropped(d, s[0]) then DropEntries(s[1..], d)
    else [s[0]] + DropEntries(s[1..], d)
  }

  lemma {:induction false} DropEntriesOrdered(s: seq<Entry>, d: EntryDrop)
    requires EntriesOrdered(s)
    ensures EntriesOrdered(DropEntries(s, d))
  {
    if s != [] {
      EntriesTailOrdered(s);
      DropEntriesOrdered(s[1..], d);
      if !EntryDropped(d, s[0]) {
        PrependEntryOrdered(s[0], DropEntries(s[1..], d));
      }
    }
  }

  lemma EntriesTailOrdered(s: seq<Entry>)
    requires s != [] && EntriesOrdered(s)
    ensures EntriesOrdered(s[1..])
    ensures forall e | e in s[1..] :: s[0].id < e.id && s[0].createdAt < e.createdAt
  {
    forall i, j | 0 <= i < j < |s[1..]|
      ensures s[1..][i].id < s[1..][j].id && s[1..][i].createdAt < s[1..][j].createdAt
    {
      assert s[1..][i] == s[i + 1] && s[1..][j] == s[j + 1];
    }
    forall e | e in s[1..]
      ensures s[0].id < e.id && s[0].createdAt < e.createdAt
    {
      var k :| 0 <= k < |s[1..]| && s[1..][k] == e;
      assert s[k + 1] == e;
    }
  }

  lemma PrependEntryOrdered(x: Entry, rest: seq<Entry>)
    requires EntriesOrdered(rest)
    requires forall e | e in rest :: x.id < e.id && x.createdAt < e.createdAt
    ensures EntriesOrdered([x] + rest)
  {
    var r := [x] + rest;
    forall i, j | 0 <= i < j < |r|
      ensures r[i].id < r[j].id && r[i].createdAt < r[j].createdAt
    {
      if i == 0 {
        assert r[j] == rest[j - 1];
      } else {
        assert r[i] == rest[i - 1] && r[j] == rest[j - 1];
      }
    }
  }

  lemma {:induction false} DropEntriesUnique(s: seq<Entry>, d: EntryDrop)
    requires EntriesUnique(s)
    ensures EntriesUnique(DropEntries(s, d))
  {
    if s != [] {
      EntriesTailUnique(s);
      DropEntriesUnique(s[1..], d);
      if !EntryDropped(d, s[0]) {
        PrependEntryUnique(s[0], DropEntries(s[1..], d));
      }
    }
  }

  lemma EntriesTailUnique(s: seq<Entry>)
    requires s != [] && EntriesUnique(s)
    ensures EntriesUnique(s[1..])
    ensures forall e | e in s[1..] :: s[0].userId != e.userId || s[0].carId != e.carId
  {
    forall i, j | 0 <= i < j < |s[1..]|
      ensures s[1..][i].userId != s[1..][j].userId || s[1..][i].carId != s[1..][j].carId
    {
      assert s[1..][i] == s[i + 1] && s[1..][j] == s[j + 1];
    }
    forall e | e in s[1..]
      ensures s[0].userId != e.userId || s[0].carId != e.carId
    {
      var k :| 0 <= k < |s[1..]| && s[1..][k] == e;
      assert s[k + 1] == e;
    }
  }

  lemma PrependEntryUnique(x: Entry, rest: seq<Entry>)
    requires EntriesUnique(rest)
    requires forall e | e in rest :: x.userId != e.userId || x.carId != e.carId
    ensures EntriesUnique([x] + rest)
  {
    var r := [x] + rest;
    forall i, j | 0 <= i < j < |r|
      ensures r[i].userId != r[j].userId || r[i].carId != r[j].carId
    {
      if i == 0 {
        assert r[j] == rest[j - 1];
      } else {
        assert r[i] == rest[i - 1] && r[j] == rest[j - 1];
      }
    }
  }

  /** The users table after deleting the row with id `id`. */
  function DropUser(s: seq<User>, id: int): (r: seq<User>)
    ensures forall u :: u in r <==> u in s && u.id != id
  {
    if s == [] then []
    else if s[0].id == id then DropUser(s[1..], id)
    else [s[0]] + DropUser(s[1..], id)
  }

  lemma {:induction false} DropUserValid(s: seq<User>, id: int)
    requires UsersOrdered(s) && UsersUnique(s)
    ensures UsersOrdered(DropUser(s, id)) && UsersUnique(DropUser(s, id))
  {
    if s != [] {
      UsersTail(s);
      DropUserValid(s[1..], id);
      if s[0].id != id {
        PrependUser(s[0], DropUser(s[1..], id));
      }
    }
  }

  lemma UsersTail(s: seq<User>)
    requires s != [] && UsersOrdered(s) && UsersUnique(s)
    ensures UsersOrdered(s[1..]) && UsersUnique(s[1..])
    ensures forall u | u in s[1..] :: s[0].id < u.id && s[0].createdAt < u.createdAt
    ensures forall u | u in s[1..] :: s[0].username != u.username && s[0].email != u.email
  {
    forall i, j | 0 <= i < j < |s[1..]|
      ensures s[1..][i].id < s[1..][j].id && s[1..][i].createdAt < s[1..][j].createdAt
      ensures s[1..][i].username != s[1..][j].username && s[1..][i].email != s[1..][j].email
    {
      assert s[1..][i] == s[i + 1] && s[1..][j] == s[j + 1];
    }
    forall u | u in s[1..]
      ensures s[0].id < u.id && s[0].createdAt < u.createdAt
      ensures s[0].username != u.username && s[0].email != u.email
    {
      var k :| 0 <= k < |s[1..]| && s[1..][k] == u;
      assert s[k + 1] == u;
    }
  }

  lemma PrependUser(x: User, rest: seq<User>)
    requires UsersOrdered(rest) && UsersUnique(rest)
    requires forall u | u in rest :: x.id < u.id && x.createdAt < u.createdAt
    requires forall u | u in rest :: x.username != u.username && x.email != u.email
    ensures UsersOrdered([x] + rest) && UsersUnique([x] + rest)
  {
    var r := [x] + rest;
    forall i, j | 0 <= i < j < |r|
      ensures r[i].id < r[j].id && r[i].createdAt < r[j].createdAt
      ensures r[i].username != r[j].username && r[i].email != r[j].email
    {
      if i == 0 {
        assert r[j] == rest[j - 1];
      } else {
        assert r[i] == rest[i - 1] && r[j] == rest[j - 1];
      }
    }
  }

  /** The ids of the cars a user owns. */
  function OwnedIds(cars: seq<CarRow>, owner: int): (ids: set<int>)
    ensures forall c | c in cars :: c.id in ids <== c.userId == owner
    ensures forall id | id in ids :: exists c | c in cars :: c.userId == owner && c.id == id
  {
    set c | c in cars && c.userId == owner :: c.id
  }

  // ---------------------------------------------------------------------------
  // The store

  /** The database the DAOs talk to.  `available` stands for DatabaseConnection handing
      out a connection (it returns null when the server cannot be reached);
      `schemaReady` says whether SchemaInitializer has created the tables. */
  class Database {
    var available: bool
    var schemaReady: bool
    var users: seq<User>
    var cars: seq<CarRow>
    var watchlist: seq<Entry>
    var nextUserId: int
    var nextCarId: int
    var nextEntryId: int
    var clock: nat

    /** The schema's constraints hold of the tables. */
    ghost predicate Valid()
      reads this
    {
      (!schemaReady ==> |users| == 0 && |cars| == 0 && |watchlist| == 0) &&
      1 <= nextUserId && 1 <= nextCarId && 1 <= nextEntryId &&
      TablesValid(users, cars, watchlist, nextUserId, nextCarId, nextEntryId, clock)
    }

    /** A statement can run: there is a connection and the tables exist. */
    predicate Online()
      reads this
    {
      available && schemaReady
    }

    /** A database server before SchemaInitializer has run. */
    constructor (available: bool)
      ensures Valid() && this.available == available && !schemaReady
      ensures users == [] && cars == [] && watchlist == []
    {
      this.available := available;
      schemaReady := false;
      users, cars, watchlist := [], [], [];
      nextUserId, nextCarId, nextEntryId := 1, 1, 1;
      clock := 0;
    }

    /** The server becomes reachable or unreachable (DatabaseConnection.getConnection
        returning a connection or null). */
    method SetAvailable(up: bool)
      modifies this`available
      ensures available == up
    {
      available := up;
    }
  }

  /** SchemaInitializer.initialize: with a connection, creates the three tables unless they
      exist (CREATE TABLE IF NOT EXISTS), so running it again changes nothing.  Without a
      connection, conn.createStatement() throws a NullPointerException that is not an
      SQLException, so initialization does not complete. */
  method Initialize(db: Database) returns (completed: bool)
    requires db.Valid()
    modifies db`schemaReady
    ensures db.Valid()
    ensures completed == db.available
    ensures db.schemaReady == (old(db.schemaReady) || db.available)
  {
    if !db.available {
      return false;
    }
    db.schemaReady := true;
    completed := true;
  }

  /** Deleting a user, which no DAO offers: ON DELETE CASCADE removes the user's cars,
      the user's watchlist entries and every entry that refers to one of those cars. */
  method DeleteUser(db: Database, userId: int) returns (deleted: bool)
    requires db.Valid()
    modifies db`users, db`cars, db`watchlist
    ensures db.Valid()
    ensures deleted <==> old(db.Online() && HasUser(db.users, userId))
    ensures deleted ==> db.users == DropUser(old(db.users), userId)
    ensures deleted ==> db.cars == DropCars(old(db.cars), CarsOf(userId))
    ensures deleted ==> db.watchlist == DropEntries(old(db.watchlist), OfUser(userId, OwnedIds(old(db.cars), userId)))
    ensures !deleted ==> db.users == old(db.users) && db.cars == old(db.cars) && db.watchlist == old(db.watchlist)
  {
    if !db.Online() || !HasUser(db.users, userId) {
      return false;
    }
    var owned := OwnedIds(db.cars, userId);
    var users' := DropUser(db.users, userId);
    var cars' := DropCars(db.cars, CarsOf(userId));
    var entries' := DropEntries(db.watchlist, OfUser(userId, owned));
    CascadeValid(db.users, db.cars, db.watchlist, userId, db.nextUserId, db.nextCarId, db.nextEntryId, db.clock);
    db.users, db.cars, db.watchlist := users', cars', entries';
    deleted := true;
  }

  /** Deleting a user together with its cascades leaves tables that meet every constraint. */
  lemma CascadeValid(users: seq<User>, cars: seq<CarRow>, entries: seq<Entry>, userId: int,
                     nextUserId: int, nextCarId: int, nextEntryId: int, clock: nat)
    requires TablesValid(users, cars, entries, nextUserId, nextCarId, nextEntryId, clock)
    ensures TablesValid(DropUser(users, userId), DropCars(cars, CarsOf(userId)),
                        DropEntries(entries, OfUser(userId, OwnedIds(cars, userId))),
                        nextUserId, nextCarId, nextEntryId, clock)
  {
    var owned := OwnedIds(cars, userId);
    var users' := DropUser(users, userId);
    var cars' := DropCars(cars, CarsOf(userId));
    var entries' := DropEntries(entries, OfUser(userId, owned));
    DropUserValid(users, userId);
    DropCarsOrdered(cars, CarsOf(userId));
    DropEntriesOrdered(entries, OfUser(userId, owned));
    DropEntriesUnique(entries, OfUser(userId, owned));
    forall c | c in cars'
      ensures HasUser(users', c.userId)
    {
      var u :| u in users && u.id == c.userId;
      assert u in users';
    }
    forall e | e in entries'
      ensures HasUser(users', e.userId) && HasCar(cars', e.carId)
    {
      var u :| u in users && u.id == e.userId;
      assert u in users';
      var c :| c in cars && c.id == e.carId;
      assert c in cars';
    }
  }
}

/** UserDAO: the statements on the users table.  Passwords go through BCrypt: the table
    holds hashes only, and a login verifies the typed password against the stored hash.
    Without a connection every method returns false or null and changes nothing. */
module UserDao {
  import opened JavaLang
  import opened BCrypt
  import opened Schema

  // ---------------------------------------------------------------------------
  // Specification functions

  /** The two single-column lookups: WHERE username = ? and WHERE email = ?. */
  datatype Column = ByUsername(name: string) | ByEmail(address: string)

  predicate Matches(col: Column, u: User) {
    match col
    case ByUsername(name) => u.username == name
    case ByEmail(address) => u.email == address
  }

  predicate Taken(users: seq<User>, col: Column) {
    exists u | u in users :: Matches(col, u)
  }

  /** SELECT COUNT(*) FROM users WHERE <col> = ? */
  function CountWhere(users: seq<User>, col: Column): nat {
    if users == [] then 0
    else CountWhere(users[..|users| - 1], col) + (if Matches(col, users[|users| - 1]) then 1 else 0)
  }

  /** The count is positive exactly when some row has the value. */
  lemma {:induction false} CountWherePositive(users: seq<User>, col: Column)
    ensures CountWhere(users, col) > 0 <==> Taken(users, col)
  {
    if users != [] {
      var front, last := users[..|users| - 1], users[|users| - 1];
      assert users == front + [last];
      CountWherePositive(front, col);
      if Taken(users, col) && !Matches(col, last) {
        var u :| u in users && Matches(col, u);
        assert u in front;
      }
    }
  }

  /** With username and email UNIQUE, each count is 0 or 1. */
  lemma {:induction false} CountWhereAtMostOne(users: seq<User>, col: Column)
    requires UsersUnique(users)
    ensures CountWhere(users, col) <= 1
  {
    if users != [] {
      var front, last := users[..|users| - 1], users[|users| - 1];
      assert UsersUnique(front) by {
        forall i, j | 0 <= i < j < |front|
          ensures front[i].username != front[j].username && front[i].email != front[j].email
        {
          assert front[i] == users[i] && front[j] == users[j];
        }
      }
      CountWhereAtMostOne(front, col);
      if Matches(col, last) {
        CountWherePositive(front, col);
      }
    }
  }

  /** A row answers the login lookup WHERE username = ? OR email = ?. */
  predicate Answers(u: User, identifier: string) {
    u.username == identifier || u.email == identifier
  }

  /** The row rs.next() yields first for the login lookup.  The statement has no ORDER BY;
      the model takes table order. */
  function FirstLogin(users: seq<User>, identifier: string): (r: Option<User>)
    ensures r.Some? ==> r.value in users && Answers(r.value, identifier)
    ensures r.None? <==> !exists u | u in users :: Answers(u, identifier)
  {
    if users == [] then None
    else if Answers(users[0], identifier) then Some(users[0])
    else FirstLogin(users[1..], identifier)
  }

  /** The row with a given id. */
  function FindUser(users: seq<User>, id: int): (r: Option<User>)
    ensures r.Some? ==> r.value in users && r.value.id == id
    ensures r.None? <==> !HasUser(users, id)
  {
    if users == [] then None
    else if users[0].id == id then Some(users[0])
    else FindUser(users[1..], id)
  }

  /** The row createUser inserts: the next id, the current stamp and the hash of the
      password, never the password itself. */
  function NewUser(username: string, email: string, password: string, salt: Salt, id: int, now: nat): User {
    User(id, username, email, HashPw(password, salt), now)
  }

  lemma AddUserKeepsValid(users: seq<User>, cars: seq<CarRow>, entries: seq<Entry>, u: User,
                          nextUserId: int, nextCarId: int, nextEntryId: int, clock: nat)
    requires TablesValid(users, cars, entries, nextUserId, nextCarId, nextEntryId, clock)
    requires 1 <= nextUserId && u.id == nextUserId && u.createdAt == clock
    requires !Taken(users, ByUsername(u.username)) && !Taken(users, ByEmail(u.email))
    ensures TablesValid(users + [u], cars, entries, nextUserId + 1, nextCarId, nextEntryId, clock + 1)
  {
    var users' := users + [u];
    forall i, j | 0 <= i < j < |users'|
      ensures users'[i].id < users'[j].id && users'[i].createdAt < users'[j].createdAt
      ensures users'[i].username != users'[j].username && users'[i].email != users'[j].email
    {
      assert users'[i] == users[i] && users[i] in users;
      if j < |users| {
        assert users'[j] == users[j];
      }
    }
    forall c | c in cars
      ensures HasUser(users', c.userId)
    {
      var o :| o in users && o.id == c.userId;
      assert o in users';
    }
    forall e | e in entries
      ensures HasUser(users', e.userId)
    {
      var o :| o in users && o.id == e.userId;
      assert o in users';
    }
  }

  // ---------------------------------------------------------------------------
  // Properties of the lookups

  /** A login succeeds only for a stored row that answers the identifier and whose hash
      verifies the typed password; an unknown identifier and a wrong password both give
      null. */
  lemma LoginSound(users: seq<User>, identifier: string, password: string)
    ensures Login(users, identifier, password).Some? ==>
      Login(users, identifier, password).value in users &&
      Answers(Login(users, identifier, password).value, identifier) &&
      CheckPw(password, Login(users, identifier, password).value.password)
    ensures (!exists u | u in users :: Answers(u, identifier)) ==> Login(users, identifier, password).None?
  {
  }

  /** Only the first 72 UTF-8 bytes of a password take part in a login: a password
      whose encoding agrees with the typed one on those bytes logs in the same user. */
  lemma LoginIgnoresBytesPast72(users: seq<User>, identifier: string, typed: string, other: string)
    requires |Utf8(typed)| >= KeyLength && |Utf8(other)| >= KeyLength
    requires Utf8(typed)[..KeyLength] == Utf8(other)[..KeyLength]
    ensures Login(users, identifier, other) == Login(users, identifier, typed)
  {
    LongPasswordsShareKey(typed, other, 0);
  }

  /** What authenticateUser returns, given a connection. */
  function Login(users: seq<User>, identifier: string, password: string): Option<User> {
    match FirstLogin(users, identifier)
    case None => None
    case Some(u) => if CheckPw(password, u.password) then Some(u) else None
  }

  /** The first answering row wins: the result is the earliest row that answers the
      identifier, whatever later rows also answer it. */
  lemma {:induction false} FirstLoginIsEarliest(users: seq<User>, identifier: string, k: nat)
    requires k < |users| && Answers(users[k], identifier)
    requires forall j | 0 <= j < k :: !Answers(users[j], identifier)
    ensures FirstLogin(users, identifier) == Some(users[k])
  {
    if k > 0 {
      assert users[1..][k - 1] == users[k];
      assert forall j | 0 <= j < k - 1 :: users[1..][j] == users[j + 1];
      FirstLoginIsEarliest(users[1..], identifier, k - 1);
    }
  }

  /** Signing up and then logging in by username: the new user comes back exactly when no
      earlier user's email is that username.  (username = ? OR email = ? finds the older
      row first; the username itself is unique, the cross-column clash is not excluded.) */
  lemma {:induction false} SignUpThenLogin(users: seq<User>, u: User, password: string, salt: Salt)
    requires !Taken(users, ByUsername(u.username))
    requires u.password == HashPw(password, salt)
    ensures Login(users + [u], u.username, password) == Some(u) <==> !Taken(users, ByEmail(u.username))
  {
    if users == [] {
      assert [] + [u] == [u];
    } else {
      assert (users + [u])[1..] == users[1..] + [u];
      assert forall v | v in users[1..] :: v in users;
      if users[0].email != u.username {
        SignUpThenLogin(users[1..], u, password, salt);
        if Taken(users, ByEmail(u.username)) {
          var v :| v in users && v.email == u.username;
          assert v in users[1..];
        }
      }
    }
  }

  /** Signing up and then logging in by email: the new user comes back exactly when no
      earlier user's username is that email. */
  lemma {:induction false} SignUpThenLoginByEmail(users: seq<User>, u: User, password: string, salt: Salt)
    requires !Taken(users, ByEmail(u.email))
    requires u.password == HashPw(password, salt)
    ensures Login(users + [u], u.email, password) == Some(u) <==> !Taken(users, ByUsername(u.email))
  {
    if users == [] {
      assert [] + [u] == [u];
    } else {
      assert (users + [u])[1..] == users[1..] + [u];
      assert forall v | v in users[1..] :: v in users;
      if users[0].username != u.email {
        SignUpThenLoginByEmail(users[1..], u, password, salt);
        if Taken(users, ByUsername(u.email)) {
          var v :| v in users && v.username == u.email;
          assert v in users[1..];
        }
      }
    }
  }

  // ---------------------------------------------------------------------------
  // The DAO methods

  /** createUser: INSERT (username, email, BCrypt.hashpw(password, gensalt())).  A taken
      username or email violates a UNIQUE constraint and gives false with no change. */
  method CreateUser(db: Database, username: string, email: string, password: string, salt: Salt)
    returns (ok: bool)
    requires db.Valid()
    modifies db`users, db`nextUserId, db`clock
    ensures db.Valid()
    ensures ok <==> old(db.Online() && !Taken(db.users, ByUsername(username)) && !Taken(db.users, ByEmail(email)))
    ensures ok ==> db.users == old(db.users) + [NewUser(username, email, password, salt, old(db.nextUserId), old(db.clock))]
    ensures ok ==> db.nextUserId == old(db.nextUserId) + 1 && db.clock == old(db.clock) + 1
    ensures !ok ==> db.users == old(db.users) && db.nextUserId == old(db.nextUserId) && db.clock == old(db.clock)
  {
    if !db.Online() {
      return false;
    }
    var hashed := HashPw(password, salt);
    if Taken(db.users, ByUsername(username)) || Taken(db.users, ByEmail(email)) {
      return false;
    }
    var u := User(db.nextUserId, username, email, hashed, db.clock);
    AddUserKeepsValid(db.users, db.cars, db.watchlist, u, db.nextUserId, db.nextCarId, db.nextEntryId, db.clock);
    db.users := db.users + [u];
    db.nextUserId := db.nextUserId + 1;
    db.clock := db.clock + 1;
    ok := true;
  }

  /** authenticateUser: the first row with username = identifier or email = identifier; the
      user (carrying the stored hash) if the password verifies against it, else null. */
  method AuthenticateUser(db: Database, identifier: string, password: string) returns (user: Option<User>)
    ensures user == if db.Online() then Login(db.users, identifier, password) else None
  {
    if !db.Online() {
      return None;
    }
    var first := FirstLogin(db.users, identifier);
    if first.Some? {
      var hashed := first.value.password;
      if CheckPw(password, hashed) {
        return Some(first.value);
      }
    }
    return None;
  }

  /** usernameExists: COUNT(*) WHERE username = ? is positive; false without a connection,
      so an unreachable database reports every name as free. */
  method UsernameExists(db: Database, username: string) returns (exists_: bool)
    ensures exists_ <==> db.Online() && Taken(db.users, ByUsername(username))
  {
    if !db.Online() {
      return false;
    }
    var n := CountWhere(db.users, ByUsername(username));
    CountWherePositive(db.users, ByUsername(username));
    exists_ := n > 0;
  }

  /** emailExists: as usernameExists, on the email column. */
  method EmailExists(db: Database, email: string) returns (exists_: bool)
    ensures exists_ <==> db.Online() && Taken(db.users, ByEmail(email))
  {
    if !db.Online() {
      return false;
    }
    var n := CountWhere(db.users, ByEmail(email));
    CountWherePositive(db.users, ByEmail(email));
    exists_ := n > 0;
  }

  /** getUserById: the row with that id (its password field is the stored hash), or null. */
  method GetUserById(db: Database, id: int) returns (user: Option<User>)
    ensures user.None? <==> !(db.Online() && HasUser(db.users, id))
    ensures user.Some? ==> user.value in db.users && user.value.id == id
  {
    if !db.Online() {
      return None;
    }
    user := FindUser(db.users, id);
  }
}

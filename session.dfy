/** SessionManager: one slot holding the logged-in user, or null.  The Java class keeps it
    in a static field; here the slot is the field of a single SessionManager object that
    the controllers share. */
module Session {
  import opened JavaLang
  import opened Schema

  /** getCurrentUserId on a given slot: the held user's id, or -1 when nobody is held. */
  function IdOf(current: Option<User>): (id: int)
    ensures current.Some? ==> id == current.value.id
    ensures current.None? ==> id == -1
  {
    if current.Some? then current.value.id else -1
  }

  /** Ids handed out by the store start at 1, so -1 is never the id of a stored user: for
      a slot filled from the users table, the sentinel means exactly "nobody logged in",
      and nothing the store holds is owned by the sentinel. */
  lemma SentinelMeansLoggedOut(users: seq<User>, nextUserId: int, clock: nat, current: Option<User>)
    requires UsersValid(users, nextUserId, clock)
    requires current.Some? ==> current.value in users
    ensures IdOf(current) == -1 <==> current.None?
    ensures current.Some? ==> IdOf(current) >= 1
    ensures !HasUser(users, IdOf(None))
  {
  }

  class SessionManager {
    var currentUser: Option<User>

    /** The static initialiser: nobody is logged in. */
    constructor ()
      ensures currentUser.None?
    {
      currentUser := None;
    }

    /** setCurrentUser: the slot now holds exactly the given user (or null), whatever it held. */
    method SetCurrentUser(user: Option<User>)
      modifies this
      ensures currentUser == user
    {
      currentUser := user;
    }

    method GetCurrentUser() returns (user: Option<User>)
      ensures user == currentUser
    {
      user := currentUser;
    }

    predicate IsLoggedIn()
      reads this
    {
      currentUser.Some?
    }

    /** logout: the slot is emptied, so nobody is logged in and the id is the sentinel. */
    method Logout()
      modifies this
      ensures !IsLoggedIn() && CurrentUserId() == -1
      ensures currentUser.None?
    {
      currentUser := None;
    }

    function CurrentUserId(): (id: int)
      reads this
      ensures id == -1 <==> !IsLoggedIn() || currentUser.value.id == -1
    {
      IdOf(currentUser)
    }
  }

  /** setCurrentUser(null) leaves the slot exactly as logout does; setCurrentUser(u) with a
      user makes getCurrentUserId return u's id. */
  method SetThenRead(s: SessionManager, user: Option<User>) returns (loggedIn: bool, id: int)
    modifies s
    ensures loggedIn <==> user.Some?
    ensures id == IdOf(user)
    ensures user.None? ==> s.currentUser.None? && id == -1
  {
    s.SetCurrentUser(user);
    loggedIn := s.IsLoggedIn();
    id := s.CurrentUserId();
  }
}

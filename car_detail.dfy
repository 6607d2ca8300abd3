/** CarDetailController: the page of one car.  Which buttons it shows depends on who is
    logged in: the owner gets Edit and Delete, any other logged-in user gets exactly one
    of "add to watchlist" and "remove from watchlist", and a visitor gets none.  Delete
    passes the session's id to the store, which removes the car only for its owner. */
module CarDetail {
  import opened JavaLang
  import opened Schema
  import opened CarModel
  import opened CarQuery
  import opened CarDao
  import opened WatchlistDao
  import opened Session

  /** The visibility of the four buttons loadCarDetails sets. */
  datatype Buttons = Buttons(edit: bool, delete: bool, add: bool, remove: bool)

  /** The buttons for a car owned by `ownerId`, seen from the session slot `current`;
      `inWatchlist` is what isInWatchlist answers, and it only matters for a logged-in
      user who is not the owner. */
  function ButtonsFor(current: Option<User>, ownerId: int, inWatchlist: bool): (b: Buttons)
    ensures b.edit == b.delete
    ensures b.edit <==> current.Some? && current.value.id == ownerId
    ensures b.add || b.remove <==> current.Some? && current.value.id != ownerId
    ensures !(b.add && b.remove) && !(b.edit && (b.add || b.remove))
    ensures b.add <==> current.Some? && current.value.id != ownerId && !inWatchlist
    ensures b.remove <==> current.Some? && current.value.id != ownerId && inWatchlist
  {
    var loggedIn := current.Some?;
    var isOwner := loggedIn && IdOf(current) == ownerId;
    if loggedIn && !isOwner then Buttons(false, false, !inWatchlist, inWatchlist)
    else Buttons(isOwner, isOwner, false, false)
  }

  /** A logged-out session owns nothing: every stored car has an owner with an id of at
      least 1, never the sentinel -1. */
  lemma SentinelOwnsNoCar(users: seq<User>, cars: seq<CarRow>, entries: seq<Entry>,
                          nextUserId: int, nextCarId: int, nextEntryId: int, clock: nat, carId: int)
    requires TablesValid(users, cars, entries, nextUserId, nextCarId, nextEntryId, clock)
    ensures !exists r | r in cars :: Guarded(r, carId, IdOf(None))
  {
  }

  datatype DeleteOutcome = NoCar | Cancelled | Deleted | DeleteFailed
  datatype WatchOutcome = Ignored | Done | Failed

  class CarDetailController {
    var car: Car?
    var buttons: Buttons

    /** A page with no car yet and every button hidden. */
    constructor ()
      ensures car == null && buttons == Buttons(false, false, false, false)
    {
      car := null;
      buttons := Buttons(false, false, false, false);
    }

    /** loadCarDetails: with no car nothing happens; otherwise the buttons follow the
        session and, for a logged-in non-owner, the watchlist. */
    method LoadCarDetails(db: Database, session: SessionManager)
      modifies this`buttons
      ensures car == null ==> buttons == old(buttons)
      ensures car != null ==>
        buttons == ButtonsFor(session.currentUser, car.userId,
                              db.Online() && HasEntry(db.watchlist, IdOf(session.currentUser), car.id))
    {
      if car == null {
        return;
      }
      var loggedIn := session.IsLoggedIn();
      var isOwner := loggedIn && session.CurrentUserId() == car.userId;
      if loggedIn && !isOwner {
        var inWatchlist := IsInWatchlist(db, session.CurrentUserId(), car.id);
        buttons := Buttons(isOwner, isOwner, !inWatchlist, inWatchlist);
      } else {
        buttons := Buttons(isOwner, isOwner, false, false);
      }
    }

    /** setCar: remember the car and lay out the page for it. */
    method SetCar(c: Car?, db: Database, session: SessionManager)
      modifies this`car, this`buttons
      ensures car == c
      ensures c == null ==> buttons == old(buttons)
      ensures c != null ==>
        buttons == ButtonsFor(session.currentUser, c.userId,
                              db.Online() && HasEntry(db.watchlist, IdOf(session.currentUser), c.id))
    {
      car := c;
      LoadCarDetails(db, session);
    }

    /** handleDelete: with no car nothing happens; `confirmed` is the answer to "Are you
        sure you want to delete this car?".  On OK the store is asked to delete the car's id
        for the session's user id, so only the logged-in owner can remove it. */
    method HandleDelete(confirmed: bool, db: Database, session: SessionManager) returns (outcome: DeleteOutcome)
      requires db.Valid()
      modifies db`cars, db`watchlist
      ensures db.Valid()
      ensures car == null ==> outcome == NoCar
      ensures car != null && !confirmed ==> outcome == Cancelled
      ensures car != null && confirmed ==>
        (outcome == Deleted <==>
          old(db.Online() && exists r | r in db.cars :: Guarded(r, car.id, IdOf(session.currentUser)))) &&
        (outcome != Deleted ==> outcome == DeleteFailed)
      ensures outcome == Deleted ==>
        session.currentUser.Some? &&
        (exists r | r in old(db.cars) :: r.id == car.id && r.userId == session.currentUser.value.id) &&
        db.cars == DropCars(old(db.cars), TheCar(car.id, session.currentUser.value.id)) &&
        db.watchlist == DropEntries(old(db.watchlist), OfCar(car.id))
      ensures outcome != Deleted ==> db.cars == old(db.cars) && db.watchlist == old(db.watchlist)
    {
      if car == null {
        return NoCar;
      }
      if !confirmed {
        return Cancelled;
      }
      SentinelOwnsNoCar(db.users, db.cars, db.watchlist, db.nextUserId, db.nextCarId, db.nextEntryId, db.clock, car.id);
      var deleted := DeleteCar(db, car.id, session.CurrentUserId());
      if deleted {
        return Deleted;
      }
      return DeleteFailed;
    }

    /** handleAddToWatchlist: nothing unless there is a car and someone is logged in; a
        successful insert reloads the page, which then offers "remove" instead of "add". */
    method HandleAddToWatchlist(db: Database, session: SessionManager) returns (outcome: WatchOutcome)
      requires db.Valid()
      modifies db`watchlist, db`nextEntryId, db`clock, this`buttons
      ensures db.Valid()
      ensures car == null || session.currentUser.None? ==> outcome == Ignored
      ensures car != null && session.currentUser.Some? ==>
        var userId := session.currentUser.value.id;
        (outcome == Done <==>
          old(db.Online() && HasUser(db.users, userId) && HasCar(db.cars, car.id) &&
              !HasEntry(db.watchlist, userId, car.id))) &&
        (outcome != Done ==> outcome == Failed)
      ensures outcome == Done ==>
        db.watchlist == old(db.watchlist) + [Entry(old(db.nextEntryId), session.currentUser.value.id, car.id, old(db.clock))] &&
        db.nextEntryId == old(db.nextEntryId) + 1 && db.clock == old(db.clock) + 1 &&
        buttons == ButtonsFor(session.currentUser, car.userId, true)
      ensures outcome != Done ==>
        db.watchlist == old(db.watchlist) && db.nextEntryId == old(db.nextEntryId) &&
        db.clock == old(db.clock) && buttons == old(buttons)
    {
      if car == null || !session.IsLoggedIn() {
        return Ignored;
      }
      var added := AddToWatchlist(db, session.CurrentUserId(), car.id);
      if added {
        LoadCarDetails(db, session);
        return Done;
      }
      return Failed;
    }

    /** handleRemoveFromWatchlist: nothing unless there is a car and someone is logged in; a
        successful delete reloads the page, which then offers "add" instead of "remove". */
    method HandleRemoveFromWatchlist(db: Database, session: SessionManager) returns (outcome: WatchOutcome)
      requires db.Valid()
      modifies db`watchlist, this`buttons
      ensures db.Valid()
      ensures car == null || session.currentUser.None? ==> outcome == Ignored
      ensures car != null && session.currentUser.Some? ==>
        (outcome == Done <==> old(db.Online() && HasEntry(db.watchlist, session.currentUser.value.id, car.id))) &&
        (outcome != Done ==> outcome == Failed)
      ensures outcome == Done ==>
        db.watchlist == DropEntries(old(db.watchlist), ThePair(session.currentUser.value.id, car.id)) &&
        buttons == ButtonsFor(session.currentUser, car.userId, false)
      ensures outcome != Done ==> db.watchlist == old(db.watchlist) && buttons == old(buttons)
    {
      if car == null || !session.IsLoggedIn() {
        return Ignored;
      }
      var userId := session.CurrentUserId();
      var removed := RemoveFromWatchlist(db, userId, car.id);
      if removed {
        assert !HasEntry(db.watchlist, userId, car.id);
        LoadCarDetails(db, session);
        return Done;
      }
      return Failed;
    }
  }
}

/** CarDAO: the statements on the cars table.  Without a connection every method takes
    its failure path (false, an empty list, null) and changes nothing; a statement that
    the database rejects (a NULL in a NOT NULL column, an owner that does not exist)
    raises an SQLException, which the method turns into the same failure result. */
module CarDao {
  import opened JavaLang
  import opened Schema
  import opened CarModel
  import opened CarQuery
  import opened SqlLike

  /** createCar: INSERT one row owned by car.userId; on success the generated id is
      written back into the car object. */
  method CreateCar(db: Database, car: Car) returns (ok: bool)
    requires db.Valid()
    modifies db`cars, db`nextCarId, db`clock, car`id
    ensures db.Valid()
    ensures ok <==> old(db.Online() && Storable(car.Value()) && HasUser(db.users, car.userId))
    ensures ok ==> db.cars == old(db.cars) + [InsertedRow(old(car.Value()), old(db.nextCarId), old(db.clock))]
    ensures ok ==> car.Value() == old(car.Value()).(id := old(db.nextCarId))
    ensures ok ==> db.nextCarId == old(db.nextCarId) + 1 && db.clock == old(db.clock) + 1
    ensures !ok ==> db.cars == old(db.cars) && car.Value() == old(car.Value())
    ensures !ok ==> db.nextCarId == old(db.nextCarId) && db.clock == old(db.clock)
  {
    if !db.Online() {
      return false;
    }
    if !Storable(car.Value()) || !HasUser(db.users, car.userId) {
      return false;
    }
    var id := db.nextCarId;
    var row := InsertedRow(car.Value(), id, db.clock);
    InsertKeepsValid(db.users, db.cars, db.watchlist, row, db.nextUserId, db.nextCarId, db.nextEntryId, db.clock);
    db.cars := db.cars + [row];
    db.nextCarId := id + 1;
    db.clock := db.clock + 1;
    car.SetId(id);
    ok := true;
  }

  /** A row with a fresh id and the current stamp, owned by an existing user, can be
      appended without breaking a constraint (the stamp advances for every table). */
  lemma InsertKeepsValid(users: seq<User>, cars: seq<CarRow>, entries: seq<Entry>, row: CarRow,
                         nextUserId: int, nextCarId: int, nextEntryId: int, clock: nat)
    requires TablesValid(users, cars, entries, nextUserId, nextCarId, nextEntryId, clock)
    requires 1 <= nextCarId && row.id == nextCarId && row.createdAt == clock && HasUser(users, row.userId)
    ensures TablesValid(users, cars + [row], entries, nextUserId, nextCarId + 1, nextEntryId, clock + 1)
  {
    var cars' := cars + [row];
    forall i, j | 0 <= i < j < |cars'|
      ensures cars'[i].id < cars'[j].id && cars'[i].createdAt < cars'[j].createdAt
    {
      assert cars'[i] == cars[i];
      if j < |cars| {
        assert cars'[j] == cars[j];
      } else {
        assert cars[i] in cars;
      }
    }
    forall e | e in entries
      ensures HasCar(cars', e.carId)
    {
      var c :| c in cars && c.id == e.carId;
      assert c in cars';
    }
  }

  /** updateCar: UPDATE the eight columns of the row whose id AND user_id are the car's.
      The result is true iff such a row exists (and the NOT NULL columns get values);
      the owner checked is the car object's userId, whatever the session holds. */
  method UpdateCar(db: Database, car: Car) returns (ok: bool)
    requires db.Valid()
    modifies db`cars
    ensures db.Valid()
    ensures ok <==> old(db.Online()) && Storable(car.Value()) &&
                    exists r | r in old(db.cars) :: Guarded(r, car.id, car.userId)
    ensures ok ==> db.cars == Overwrite(old(db.cars), car.Value())
    ensures !ok ==> db.cars == old(db.cars)
  {
    if !db.Online() {
      return false;
    }
    var v := car.Value();
    if !Storable(v) || !(exists r | r in db.cars :: Guarded(r, v.id, v.userId)) {
      return false;
    }
    OverwriteKeepsValid(db.users, db.cars, db.watchlist, v, db.nextUserId, db.nextCarId, db.nextEntryId, db.clock);
    db.cars := Overwrite(db.cars, v);
    ok := true;
  }

  /** The update keeps every id, owner and stamp, so every constraint still holds. */
  lemma OverwriteKeepsValid(users: seq<User>, cars: seq<CarRow>, entries: seq<Entry>, v: CarFields,
                            nextUserId: int, nextCarId: int, nextEntryId: int, clock: nat)
    requires Storable(v)
    requires TablesValid(users, cars, entries, nextUserId, nextCarId, nextEntryId, clock)
    ensures TablesValid(users, Overwrite(cars, v), entries, nextUserId, nextCarId, nextEntryId, clock)
  {
    var cars' := Overwrite(cars, v);
    OverwriteOnlyGuardedRow(cars, v);
    assert forall k | 0 <= k < |cars| ::
      cars'[k].id == cars[k].id && cars'[k].userId == cars[k].userId && cars'[k].createdAt == cars[k].createdAt;
    forall c | c in cars'
      ensures 1 <= c.id < nextCarId && c.createdAt < clock && HasUser(users, c.userId)
    {
      var k :| 0 <= k < |cars'| && cars'[k] == c;
      assert cars[k] in cars;
    }
    forall e | e in entries
      ensures HasCar(cars', e.carId)
    {
      var c :| c in cars && c.id == e.carId;
      var k :| 0 <= k < |cars| && cars[k] == c;
      assert cars'[k] in cars';
    }
  }

  /** deleteCar: DELETE the row whose id AND user_id match; ON DELETE CASCADE removes the
      watchlist entries of that car.  True iff a row was removed: an unknown car and a car
      of another owner both give false. */
  method DeleteCar(db: Database, carId: int, userId: int) returns (ok: bool)
    requires db.Valid()
    modifies db`cars, db`watchlist
    ensures db.Valid()
    ensures ok <==> old(db.Online() && exists r | r in db.cars :: Guarded(r, carId, userId))
    ensures ok ==> db.cars == DropCars(old(db.cars), TheCar(carId, userId))
    ensures ok ==> db.watchlist == DropEntries(old(db.watchlist), OfCar(carId))
    ensures !ok ==> db.cars == old(db.cars) && db.watchlist == old(db.watchlist)
  {
    if !db.Online() || !(exists r | r in db.cars :: Guarded(r, carId, userId)) {
      return false;
    }
    DeleteKeepsValid(db.users, db.cars, db.watchlist, carId, userId, db.nextUserId, db.nextCarId, db.nextEntryId, db.clock);
    db.cars := DropCars(db.cars, TheCar(carId, userId));
    db.watchlist := DropEntries(db.watchlist, OfCar(carId));
    ok := true;
  }

  lemma DeleteKeepsValid(users: seq<User>, cars: seq<CarRow>, entries: seq<Entry>, carId: int, userId: int,
                         nextUserId: int, nextCarId: int, nextEntryId: int, clock: nat)
    requires TablesValid(users, cars, entries, nextUserId, nextCarId, nextEntryId, clock)
    ensures TablesValid(users, DropCars(cars, TheCar(carId, userId)), DropEntries(entries, OfCar(carId)),
                        nextUserId, nextCarId, nextEntryId, clock)
  {
    var cars' := DropCars(cars, TheCar(carId, userId));
    var entries' := DropEntries(entries, OfCar(carId));
    DropCarsOrdered(cars, TheCar(carId, userId));
    DropEntriesOrdered(entries, OfCar(carId));
    DropEntriesUnique(entries, OfCar(carId));
    forall e | e in entries'
      ensures HasCar(cars', e.carId)
    {
      var c :| c in cars && c.id == e.carId;
      assert c in cars';
    }
  }

  /** mapResultSetToCar: a new Car filled in column by column.  created_at always has a
      value (DEFAULT CURRENT_TIMESTAMP), so the null check on it never fails. */
  method MapRowToCar(row: CarRow) returns (car: Car)
    ensures fresh(car) && car.Value() == FieldsOf(row)
  {
    car := new Car.Empty();
    car.SetId(row.id);
    car.SetUserId(row.userId);
    car.SetBrand(Some(row.brand));
    car.SetModel(Some(row.model));
    car.SetYear(row.year);
    car.SetPrice(Some(row.price));
    car.SetMileage(row.mileage);
    car.SetColor(row.color);
    car.SetDescription(row.description);
    car.SetImagePath(row.imagePath);
    car.SetCreatedAt(Some(row.createdAt));
  }

  /** The `while (rs.next()) cars.add(mapResultSetToCar(rs))` loop: one car per row, in order. */
  method ReadResultSet(rs: seq<CarRow>) returns (cars: seq<CarFields>)
    ensures cars == ReadAll(rs)
  {
    cars := [];
    var i := 0;
    while i < |rs|
      invariant 0 <= i <= |rs|
      invariant |cars| == i
      invariant forall k | 0 <= k < i :: cars[k] == FieldsOf(rs[k])
    {
      var car := MapRowToCar(rs[i]);
      cars := cars + [car.Value()];
      i := i + 1;
    }
  }

  /** getCarById: the car with that id, or null when there is none or no connection. */
  method GetCarById(db: Database, id: int) returns (car: Car?)
    ensures car == null <==> !(db.Online() && HasCar(db.cars, id))
    ensures car != null ==> fresh(car) && car.Value() == FieldsOf(FindCar(db.cars, id).value)
  {
    if !db.Online() {
      return null;
    }
    var found := FindCar(db.cars, id);
    if found.None? {
      return null;
    }
    car := MapRowToCar(found.value);
  }

  /** getAllCars: every car, newest first; an empty list without a connection. */
  method GetAllCars(db: Database) returns (cars: seq<CarFields>)
    ensures cars == if db.Online() then ReadAll(NewestFirst(db.cars, AllCars)) else []
  {
    if !db.Online() {
      return [];
    }
    cars := ReadResultSet(NewestFirst(db.cars, AllCars));
  }

  /** getCarsByUserId: the cars with that owner, newest first. */
  method GetCarsByUserId(db: Database, userId: int) returns (cars: seq<CarFields>)
    ensures cars == if db.Online() then ReadAll(NewestFirst(db.cars, OwnedBy(userId))) else []
  {
    if !db.Online() {
      return [];
    }
    cars := ReadResultSet(NewestFirst(db.cars, OwnedBy(userId)));
  }

  /** `x != null && !x.trim().isEmpty()`: a text filter counts when it is present and not
      blank. */
  method TextSupplied(t: Option<string>) returns (given: bool)
    ensures given <==> t.Some? && !IsBlank(t.value)
  {
    given := t.Some? && Trim(t.value) != [];
    if t.Some? {
      TrimEmptyIffBlank(t.value);
    }
  }

  /** The StringBuilder and parameter list of searchCars.  One predicate and one parameter
      are appended per supplied filter, in the fixed order brand, model, minYear, maxYear,
      minPrice, maxPrice: the result is the statement for the predicates of Wanted(f, 6)
      with the parameters of WantedParams(f, 6), whose meaning CarQuery.SearchQueryMeaning
      states. */
  method BuildSearchQuery(f: SearchFilter) returns (sql: string, conds: seq<Cond>, params: seq<Param>)
    ensures sql == SearchHead + Fragments(conds) + SearchTail
    ensures conds == Wanted(f, 6) && params == WantedParams(f, 6)
  {
    sql, conds, params := AddTextFilters(f);
    sql, conds, params := AddBounds(f, sql, conds, params);
    sql := sql + SearchTail;
  }

  /** The brand and model predicates, each only when its text is supplied. */
  method AddTextFilters(f: SearchFilter) returns (sql: string, conds: seq<Cond>, params: seq<Param>)
    ensures conds == Wanted(f, 2) && params == WantedParams(f, 2) && sql == SearchHead + Fragments(conds)
  {
    sql, conds, params := SearchHead, [], [];
    var brandGiven := TextSupplied(f.brand);
    var modelGiven := TextSupplied(f.model);
    WantedNext(f, BrandLike, conds, params);
    if brandGiven {
      TextStep(sql, conds, BrandLike);
      sql := sql + Fragment(BrandLike);
      conds := conds + [BrandLike];
      params := params + [Text("%" + f.brand.value + "%")];
    }
    assert conds == Wanted(f, 1) && params == WantedParams(f, 1) && sql == SearchHead + Fragments(conds);
    WantedNext(f, ModelLike, conds, params);
    if modelGiven {
      TextStep(sql, conds, ModelLike);
      sql := sql + Fragment(ModelLike);
      conds := conds + [ModelLike];
      params := params + [Text("%" + f.model.value + "%")];
    }
  }

  /** The year and price bounds, each only when supplied, after the text predicates. */
  method AddBounds(f: SearchFilter, sql0: string, conds0: seq<Cond>, params0: seq<Param>)
    returns (sql: string, conds: seq<Cond>, params: seq<Param>)
    requires conds0 == Wanted(f, 2) && params0 == WantedParams(f, 2) && sql0 == SearchHead + Fragments(conds0)
    ensures conds == Wanted(f, 6) && params == WantedParams(f, 6) && sql == SearchHead + Fragments(conds)
  {
    sql, conds, params := sql0, conds0, params0;
    WantedNext(f, YearFrom, conds, params);
    if f.minYear.Some? {
      TextStep(sql, conds, YearFrom);
      sql := sql + Fragment(YearFrom);
      conds := conds + [YearFrom];
      params := params + [Int(f.minYear.value)];
    }
    assert conds == Wanted(f, 3) && params == WantedParams(f, 3) && sql == SearchHead + Fragments(conds);
    WantedNext(f, YearTo, conds, params);
    if f.maxYear.Some? {
      TextStep(sql, conds, YearTo);
      sql := sql + Fragment(YearTo);
      conds := conds + [YearTo];
      params := params + [Int(f.maxYear.value)];
    }
    assert conds == Wanted(f, 4) && params == WantedParams(f, 4) && sql == SearchHead + Fragments(conds);
    WantedNext(f, PriceFrom, conds, params);
    if f.minPrice.Some? {
      TextStep(sql, conds, PriceFrom);
      sql := sql + Fragment(PriceFrom);
      conds := conds + [PriceFrom];
      params := params + [Dec(f.minPrice.value)];
    }
    assert conds == Wanted(f, 5) && params == WantedParams(f, 5) && sql == SearchHead + Fragments(conds);
    WantedNext(f, PriceTo, conds, params);
    if f.maxPrice.Some? {
      TextStep(sql, conds, PriceTo);
      sql := sql + Fragment(PriceTo);
      conds := conds + [PriceTo];
      params := params + [Dec(f.maxPrice.value)];
    }
  }

  /** `for (i = 0; i < params.size(); i++) pstmt.setObject(i + 1, params.get(i))`:
      placeholder k + 1 is bound to params[k], and nothing else is bound. */
  method BindParams(params: seq<Param>) returns (bound: map<int, Param>)
    ensures forall n | 1 <= n <= |params| :: n in bound && bound[n] == params[n - 1]
    ensures forall n | n in bound :: 1 <= n <= |params|
  {
    bound := map[];
    for i := 0 to |params|
      invariant forall n | 1 <= n <= i :: n in bound && bound[n] == params[n - 1]
      invariant forall n | n in bound :: 1 <= n <= i
    {
      bound := bound[i + 1 := params[i]];
    }
  }

  /** searchCars: the statement is built first, then, given a connection, executed with its
      parameters bound; the result is the cars the filter asks for, newest first. */
  method SearchCars(db: Database, f: SearchFilter) returns (cars: seq<CarFields>)
    ensures cars == if db.Online() then ReadAll(NewestFirst(db.cars, Matching(f))) else []
  {
    var sql, conds, params := BuildSearchQuery(f);
    if !db.Online() {
      return [];
    }
    var bound := BindParams(params);
    ExecutedSearchSelects(db.cars, f, sql, conds, params, bound);
    cars := ReadResultSet(NewestFirst(db.cars, Statement(conds, bound)));
  }

  /** The built statement, with its parameters bound in order, selects exactly the rows the
      filter describes. */
  lemma ExecutedSearchSelects(s: seq<CarRow>, f: SearchFilter, sql: string, conds: seq<Cond>,
                              params: seq<Param>, bound: map<int, Param>)
    requires conds == Wanted(f, 6) && params == WantedParams(f, 6)
    requires sql == SearchHead + Fragments(conds) + SearchTail
    requires forall n | 1 <= n <= |params| :: n in bound && bound[n] == params[n - 1]
    ensures NewestFirst(s, Statement(conds, bound)) == NewestFirst(s, Matching(f))
  {
    SearchQueryMeaning(f, sql, conds, params);
    forall r | r in s
      ensures StatementHolds(conds, bound, r) <==> FilterHolds(f, r)
    {
      BoundStatement(conds, params, bound, r);
    }
    SameSelection(s, Statement(conds, bound), Matching(f));
  }
}

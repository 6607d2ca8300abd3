/** What the statements of CarDAO mean: the row a car is stored as and read back from,
    the rows a SELECT ... ORDER BY created_at DESC returns, the search filter, and the
    SQL text and parameters the search builder produces. */
module CarQuery {
  import opened JavaLang
  import opened SqlLike
  import opened Schema
  import opened CarModel

  // ---------------------------------------------------------------------------
  // Rows and Car objects

  /** mapResultSetToCar: the Car object a row reads back as. */
  function FieldsOf(r: CarRow): (v: CarFields)
    ensures v.id == r.id && v.userId == r.userId && v.createdAt == Some(r.createdAt)
    ensures v.brand == Some(r.brand) && v.model == Some(r.model) && v.price == Some(r.price)
  {
    CarFields(r.id, r.userId, Some(r.brand), Some(r.model), r.year, Some(r.price), r.mileage,
              r.color, r.description, r.imagePath, Some(r.createdAt))
  }

  /** The values of the Car objects read from a result set, in result-set order. */
  function ReadAll(rs: seq<CarRow>): (cars: seq<CarFields>)
    ensures |cars| == |rs|
    ensures forall k | 0 <= k < |rs| :: cars[k] == FieldsOf(rs[k])
  {
    seq(|rs|, k requires 0 <= k < |rs| => FieldsOf(rs[k]))
  }

  /** The NOT NULL columns brand, model and price get values: the insert or update can succeed. */
  predicate Storable(v: CarFields) {
    v.brand.Some? && v.model.Some? && v.price.Some?
  }

  /** The row INSERT INTO cars stores for a car, with the generated id and the insertion stamp. */
  function InsertedRow(v: CarFields, id: int, now: nat): CarRow
    requires Storable(v)
  {
    CarRow(id, v.userId, v.brand.value, v.model.value, v.year, v.price.value, v.mileage,
           v.color, v.description, v.imagePath, now)
  }

  /** A stored car reads back as the car it came from, with the generated id and stamp. */
  lemma ReadBackInserted(v: CarFields, id: int, now: nat)
    requires Storable(v)
    ensures FieldsOf(InsertedRow(v, id, now)) == v.(id := id, createdAt := Some(now))
  {
  }

  /** UPDATE cars SET brand, model, year, price, mileage, color, description, image_path. */
  function UpdatedRow(r: CarRow, v: CarFields): CarRow
    requires Storable(v)
  {
    r.(brand := v.brand.value, model := v.model.value, year := v.year, price := v.price.value,
       mileage := v.mileage, color := v.color, description := v.description, imagePath := v.imagePath)
  }

  /** The row the guard WHERE id = ? AND user_id = ? picks out. */
  predicate Guarded(r: CarRow, id: int, userId: int) {
    r.id == id && r.userId == userId
  }

  /** The cars table after the UPDATE for car `v`. */
  function Overwrite(s: seq<CarRow>, v: CarFields): seq<CarRow>
    requires Storable(v)
  {
    seq(|s|, k requires 0 <= k < |s| => if Guarded(s[k], v.id, v.userId) then UpdatedRow(s[k], v) else s[k])
  }

  /** The update touches only the row whose id AND owner are the car's: every other row,
      in particular every row of another owner, stays as it was; in the guarded row it
      sets the eight columns to the car's values and keeps id, user_id and created_at. */
  lemma OverwriteOnlyGuardedRow(s: seq<CarRow>, v: CarFields)
    requires Storable(v)
    ensures |Overwrite(s, v)| == |s|
    ensures forall k | 0 <= k < |s| && !Guarded(s[k], v.id, v.userId) :: Overwrite(s, v)[k] == s[k]
    ensures forall k | 0 <= k < |s| && Guarded(s[k], v.id, v.userId) ::
      var w := Overwrite(s, v)[k];
      w.id == s[k].id && w.userId == s[k].userId && w.createdAt == s[k].createdAt &&
      FieldsOf(w) == v.(createdAt := Some(s[k].createdAt))
  {
  }

  /** The first row with the given id (ids are unique, so the only one). */
  function FindCar(s: seq<CarRow>, id: int): (r: Option<CarRow>)
    ensures r.Some? ==> r.value in s && r.value.id == id
    ensures r.None? <==> !HasCar(s, id)
  {
    if s == [] then None
    else if s[0].id == id then Some(s[0])
    else FindCar(s[1..], id)
  }

  // ---------------------------------------------------------------------------
  // The search filter

  /** The arguments of searchCars; null is None. */
  datatype SearchFilter = SearchFilter(
    brand: Option<string>, model: Option<string>, minYear: Option<int>, maxYear: Option<int>,
    minPrice: Option<Decimal>, maxPrice: Option<Decimal>)

  const NoFilter: SearchFilter := SearchFilter(None, None, None, None, None, None)

  /** A text filter takes part only when it is non-null and not blank. */
  predicate TextFilter(t: Option<string>) {
    t.Some? && !IsBlank(t.value)
  }

  /** What a search asks of a car: every supplied filter holds (they are ANDed), text
      filters as `LIKE '%text%'` with the text as given, bounds inclusively. */
  predicate FilterHolds(f: SearchFilter, r: CarRow) {
    (TextFilter(f.brand) ==> Like(r.brand, "%" + f.brand.value + "%")) &&
    (TextFilter(f.model) ==> Like(r.model, "%" + f.model.value + "%")) &&
    (f.minYear.Some? ==> f.minYear.value <= r.year) &&
    (f.maxYear.Some? ==> r.year <= f.maxYear.value) &&
    (f.minPrice.Some? ==> DecimalLe(f.minPrice.value, r.price)) &&
    (f.maxPrice.Some? ==> DecimalLe(r.price, f.maxPrice.value))
  }

  /** For search words free of LIKE's special characters, brand and model match as substrings. */
  lemma TextFiltersAreSubstrings(f: SearchFilter, r: CarRow)
    requires f.brand.Some? ==> NoWildcards(f.brand.value)
    requires f.model.Some? ==> NoWildcards(f.model.value)
    ensures FilterHolds(f, r) <==>
      (TextFilter(f.brand) ==> Contains(r.brand, f.brand.value)) &&
      (TextFilter(f.model) ==> Contains(r.model, f.model.value)) &&
      (f.minYear.Some? ==> f.minYear.value <= r.year) &&
      (f.maxYear.Some? ==> r.year <= f.maxYear.value) &&
      (f.minPrice.Some? ==> DecimalLe(f.minPrice.value, r.price)) &&
      (f.maxPrice.Some? ==> DecimalLe(r.price, f.maxPrice.value))
  {
    if f.brand.Some? {
      ContainsPattern(r.brand, f.brand.value);
    }
    if f.model.Some? {
      ContainsPattern(r.model, f.model.value);
    }
  }

  // ---------------------------------------------------------------------------
  // The SQL text and parameters of a search

  /** The predicates the builder can append, in the order it considers them. */
  datatype Cond = BrandLike | ModelLike | YearFrom | YearTo | PriceFrom | PriceTo

  /** A bound parameter: a String, an Integer or a BigDecimal. */
  datatype Param = Text(text: string) | Int(n: int) | Dec(d: Decimal)

  function Rank(c: Cond): nat {
    match c
    case BrandLike => 0
    case ModelLike => 1
    case YearFrom => 2
    case YearTo => 3
    case PriceFrom => 4
    case PriceTo => 5
  }

  /** The text each predicate appends: its clause, then one placeholder. */
  function Fragment(c: Cond): string {
    Clause(c) + "?"
  }

  function Clause(c: Cond): string {
    match c
    case BrandLike => " AND brand LIKE "
    case ModelLike => " AND model LIKE "
    case YearFrom => " AND year >= "
    case YearTo => " AND year <= "
    case PriceFrom => " AND price >= "
    case PriceTo => " AND price <= "
  }

  const SearchHead: string := "SELECT * FROM cars WHERE 1=1"
  const SearchTail: string := " ORDER BY created_at DESC"

  function Fragments(conds: seq<Cond>): string {
    if conds == [] then "" else Fragments(conds[..|conds| - 1]) + Fragment(conds[|conds| - 1])
  }

  /** The statement text for a list of predicates. */
  function SearchSql(conds: seq<Cond>): string {
    SearchHead + Fragments(conds) + SearchTail
  }

  /** The number of '?' placeholders in a statement. */
  function Placeholders(s: string): nat {
    if s == [] then 0 else Placeholders(s[..|s| - 1]) + (if s[|s| - 1] == '?' then 1 else 0)
  }

  predicate NoPlaceholder(s: string) {
    forall i | 0 <= i < |s| :: s[i] != '?'
  }

  lemma {:induction false} NoPlaceholderCountsZero(s: string)
    requires NoPlaceholder(s)
    ensures Placeholders(s) == 0
  {
    if s != [] {
      NoPlaceholderCountsZero(s[..|s| - 1]);
    }
  }

  lemma {:induction false} PlaceholdersAppend(a: string, b: string)
    ensures Placeholders(a + b) == Placeholders(a) + Placeholders(b)
  {
    if b != [] {
      assert (a + b)[..|a + b| - 1] == a + b[..|b| - 1];
      PlaceholdersAppend(a, b[..|b| - 1]);
    } else {
      assert a + b == a;
    }
  }

  /** Every predicate carries exactly one placeholder; head and tail carry none. */
  lemma SearchSqlPlaceholders(conds: seq<Cond>)
    ensures Placeholders(SearchSql(conds)) == |conds|
  {
    FragmentsPlaceholders(conds);
    PlaceholdersAppend(SearchHead, Fragments(conds));
    PlaceholdersAppend(SearchHead + Fragments(conds), SearchTail);
    HeadAndTailHaveNoPlaceholder();
    NoPlaceholderCountsZero(SearchHead);
    NoPlaceholderCountsZero(SearchTail);
  }

  lemma HeadAndTailHaveNoPlaceholder()
    ensures NoPlaceholder(SearchHead) && NoPlaceholder(SearchTail)
  {
  }

  lemma ClauseHasNoPlaceholder(c: Cond)
    ensures NoPlaceholder(Clause(c))
  {
    match c
    case BrandLike =>
    case ModelLike =>
    case YearFrom =>
    case YearTo =>
    case PriceFrom =>
    case PriceTo =>
  }

  lemma {:induction false} FragmentsPlaceholders(conds: seq<Cond>)
    ensures Placeholders(Fragments(conds)) == |conds|
  {
    if conds != [] {
      var c := conds[|conds| - 1];
      FragmentsPlaceholders(conds[..|conds| - 1]);
      PlaceholdersAppend(Fragments(conds[..|conds| - 1]), Fragment(c));
      PlaceholdersAppend(Clause(c), "?");
      ClauseHasNoPlaceholder(c);
      NoPlaceholderCountsZero(Clause(c));
      assert "?"[..0] == [];
    }
  }

  /** A predicate with its bound parameter holds of a row. */
  predicate CondHolds(c: Cond, p: Param, r: CarRow) {
    match (c, p)
    case (BrandLike, Text(x)) => Like(r.brand, x)
    case (ModelLike, Text(x)) => Like(r.model, x)
    case (YearFrom, Int(n)) => n <= r.year
    case (YearTo, Int(n)) => r.year <= n
    case (PriceFrom, Dec(d)) => DecimalLe(d, r.price)
    case (PriceTo, Dec(d)) => DecimalLe(r.price, d)
    case _ => false
  }

  /** Every predicate holds with the parameter at the same position. */
  predicate AllHold(conds: seq<Cond>, params: seq<Param>, r: CarRow) {
    forall k | 0 <= k < |conds| && k < |params| :: CondHolds(conds[k], params[k], r)
  }

  /** Whether searchCars appends the predicate for a filter: a text filter must be present
      and not blank (the source tests `x != null && !x.trim().isEmpty()`, which
      JavaLang.TrimEmptyIffBlank shows to be the same), a number filter present. */
  predicate Supplied(f: SearchFilter, c: Cond) {
    match c
    case BrandLike => TextFilter(f.brand)
    case ModelLike => TextFilter(f.model)
    case YearFrom => f.minYear.Some?
    case YearTo => f.maxYear.Some?
    case PriceFrom => f.minPrice.Some?
    case PriceTo => f.maxPrice.Some?
  }

  /** The parameter searchCars adds with a predicate. */
  function ParamFor(f: SearchFilter, c: Cond): Param
    requires Supplied(f, c)
  {
    match c
    case BrandLike => Text("%" + f.brand.value + "%")
    case ModelLike => Text("%" + f.model.value + "%")
    case YearFrom => Int(f.minYear.value)
    case YearTo => Int(f.maxYear.value)
    case PriceFrom => Dec(f.minPrice.value)
    case PriceTo => Dec(f.maxPrice.value)
  }

  /** The builder's state after considering the first n filters: the statement text is the
      head plus one fragment per predicate, each predicate is supplied and has its own
      parameter at the same position, predicates are in the fixed order, and every
      supplied filter among the first n has its predicate. */
  ghost predicate Built(f: SearchFilter, n: nat, conds: seq<Cond>, params: seq<Param>) {
    SuppliedBefore(f, n, conds) && params == ParamsFor(f, conds) &&
    Ascending(conds) && Covers(f, n, conds)
  }

  ghost predicate SuppliedBefore(f: SearchFilter, n: nat, conds: seq<Cond>) {
    forall k | 0 <= k < |conds| :: Rank(conds[k]) < n && Supplied(f, conds[k])
  }

  ghost predicate Ascending(conds: seq<Cond>) {
    forall i, j | 0 <= i < j < |conds| :: Rank(conds[i]) < Rank(conds[j])
  }

  ghost predicate Covers(f: SearchFilter, n: nat, conds: seq<Cond>) {
    forall c | Rank(c) < n && Supplied(f, c) :: c in conds
  }

  /** The parameters of a list of supplied predicates, position by position. */
  function ParamsFor(f: SearchFilter, conds: seq<Cond>): (ps: seq<Param>)
    requires forall k | 0 <= k < |conds| :: Supplied(f, conds[k])
    ensures |ps| == |conds|
  {
    if conds == [] then []
    else ParamsFor(f, conds[..|conds| - 1]) + [ParamFor(f, conds[|conds| - 1])]
  }

  lemma {:induction false} ParamsForAt(f: SearchFilter, conds: seq<Cond>, k: nat)
    requires forall i | 0 <= i < |conds| :: Supplied(f, conds[i])
    requires k < |conds|
    ensures ParamsFor(f, conds)[k] == ParamFor(f, conds[k])
  {
    if k < |conds| - 1 {
      var front := conds[..|conds| - 1];
      ParamsForAt(f, front, k);
      assert front[k] == conds[k];
    }
  }

  lemma FragmentsAppend(conds: seq<Cond>, c: Cond)
    ensures Fragments(conds + [c]) == Fragments(conds) + Fragment(c)
  {
    assert (conds + [c])[..|conds|] == conds;
  }

  /** Each predicate has its own place in the order. */
  lemma RankInjective(c: Cond, d: Cond)
    requires Rank(c) == Rank(d)
    ensures c == d
  {
  }

  lemma ParamsForAppend(f: SearchFilter, conds: seq<Cond>, c: Cond)
    requires SuppliedBefore(f, Rank(c), conds) && Supplied(f, c)
    ensures SuppliedBefore(f, Rank(c) + 1, conds + [c])
    ensures ParamsFor(f, conds + [c]) == ParamsFor(f, conds) + [ParamFor(f, c)]
  {
    var conds' := conds + [c];
    forall k | 0 <= k < |conds'|
      ensures Rank(conds'[k]) < Rank(c) + 1 && Supplied(f, conds'[k])
    {
      if k < |conds| {
        assert conds'[k] == conds[k];
      }
    }
    assert conds'[..|conds'| - 1] == conds;
  }

  lemma AscendingAppend(conds: seq<Cond>, c: Cond, n: nat)
    requires Ascending(conds) && forall k | 0 <= k < |conds| :: Rank(conds[k]) < n
    requires Rank(c) == n
    ensures Ascending(conds + [c])
  {
    var conds' := conds + [c];
    forall i, j | 0 <= i < j < |conds'|
      ensures Rank(conds'[i]) < Rank(conds'[j])
    {
      assert conds'[i] == conds[i];
      if j < |conds| {
        assert conds'[j] == conds[j];
      }
    }
  }

  lemma CoversAppend(f: SearchFilter, conds: seq<Cond>, c: Cond)
    requires Covers(f, Rank(c), conds)
    ensures Covers(f, Rank(c) + 1, conds + [c])
  {
    forall d | Rank(d) < Rank(c) + 1 && Supplied(f, d)
      ensures d in conds + [c]
    {
      if Rank(d) < Rank(c) {
        assert d in conds;
      } else {
        RankInjective(c, d);
      }
    }
  }

  /** A supplied filter appends its predicate and parameter. */
  lemma BuildAppend(f: SearchFilter, c: Cond, conds: seq<Cond>, params: seq<Param>)
    requires Built(f, Rank(c), conds, params) && Supplied(f, c)
    ensures Built(f, Rank(c) + 1, conds + [c], params + [ParamFor(f, c)])
  {
    ParamsForAppend(f, conds, c);
    AscendingAppend(conds, c, Rank(c));
    CoversAppend(f, conds, c);
  }

  /** A filter that is not supplied leaves the statement as it is. */
  lemma BuildSkip(f: SearchFilter, c: Cond, conds: seq<Cond>, params: seq<Param>)
    requires Built(f, Rank(c), conds, params) && !Supplied(f, c)
    ensures Built(f, Rank(c) + 1, conds, params)
  {
    forall d | Rank(d) < Rank(c) + 1 && Supplied(f, d)
      ensures d in conds
    {
      if Rank(d) == Rank(c) {
        RankInjective(c, d);
      }
    }
  }

  /** One `if (...) { sql.append(...); params.add(...); }` of the builder. */
  lemma BuildStep(f: SearchFilter, c: Cond, conds: seq<Cond>, params: seq<Param>)
    requires Built(f, Rank(c), conds, params)
    ensures Supplied(f, c) ==>
      Built(f, Rank(c) + 1, conds + [c], params + [ParamFor(f, c)])
    ensures !Supplied(f, c) ==> Built(f, Rank(c) + 1, conds, params)
  {
    if Supplied(f, c) {
      BuildAppend(f, c, conds, params);
    } else {
      BuildSkip(f, c, conds, params);
    }
  }

  /** The filter searchCars considers at step i. */
  function CondAt(i: nat): (c: Cond)
    requires i < 6
    ensures Rank(c) == i
  {
    if i == 0 then BrandLike
    else if i == 1 then ModelLike
    else if i == 2 then YearFrom
    else if i == 3 then YearTo
    else if i == 4 then PriceFrom
    else PriceTo
  }

  /** The predicates searchCars has appended after its first n steps. */
  ghost function Wanted(f: SearchFilter, n: nat): seq<Cond>
    requires n <= 6
  {
    if n == 0 then []
    else Wanted(f, n - 1) + (if Supplied(f, CondAt(n - 1)) then [CondAt(n - 1)] else [])
  }

  /** The parameters searchCars has added after its first n steps. */
  ghost function WantedParams(f: SearchFilter, n: nat): seq<Param>
    requires n <= 6
  {
    if n == 0 then []
    else
      var step := if Supplied(f, CondAt(n - 1)) then [ParamFor(f, CondAt(n - 1))] else [];
      WantedParams(f, n - 1) + step
  }

  /** One step of searchCars: a supplied filter appends its predicate and parameter, any
      other filter leaves both lists as they are. */
  lemma WantedNext(f: SearchFilter, c: Cond, conds: seq<Cond>, params: seq<Param>)
    requires Rank(c) < 6 && conds == Wanted(f, Rank(c)) && params == WantedParams(f, Rank(c))
    ensures Supplied(f, c) ==>
      conds + [c] == Wanted(f, Rank(c) + 1) && params + [ParamFor(f, c)] == WantedParams(f, Rank(c) + 1)
    ensures !Supplied(f, c) ==>
      conds == Wanted(f, Rank(c) + 1) && params == WantedParams(f, Rank(c) + 1)
  {
    RankInjective(c, CondAt(Rank(c)));
  }

  /** The statement text grows with the predicates: appending a predicate's fragment to
      the text for a list is the text for the longer list. */
  lemma TextStep(sql: string, conds: seq<Cond>, c: Cond)
    requires sql == SearchHead + Fragments(conds)
    ensures sql + Fragment(c) == SearchHead + Fragments(conds + [c])
  {
    FragmentsAppend(conds, c);
  }

  lemma {:induction false} WantedBuilt(f: SearchFilter, n: nat)
    requires n <= 6
    ensures Built(f, n, Wanted(f, n), WantedParams(f, n))
  {
    if n > 0 {
      WantedBuilt(f, n - 1);
      var c := CondAt(n - 1);
      BuildStep(f, c, Wanted(f, n - 1), WantedParams(f, n - 1));
      WantedNext(f, c, Wanted(f, n - 1), WantedParams(f, n - 1));
    }
  }

  /** After the six steps, a predicate is present exactly when its filter is supplied. */
  lemma BuiltConds(f: SearchFilter, conds: seq<Cond>, params: seq<Param>)
    requires Built(f, 6, conds, params)
    ensures forall c :: c in conds <==> Supplied(f, c)
  {
    forall c | c in conds
      ensures Supplied(f, c)
    {
      var k :| 0 <= k < |conds| && conds[k] == c;
    }
    forall c | Supplied(f, c)
      ensures c in conds
    {
      assert Rank(c) < 6;
    }
  }

  /** The part of the search filter a predicate stands for, with its parameter. */
  lemma CondMeaning(f: SearchFilter, c: Cond, r: CarRow)
    requires Supplied(f, c)
    ensures CondHolds(c, ParamFor(f, c), r) <==>
      match c
      case BrandLike => Like(r.brand, "%" + f.brand.value + "%")
      case ModelLike => Like(r.model, "%" + f.model.value + "%")
      case YearFrom => f.minYear.value <= r.year
      case YearTo => r.year <= f.maxYear.value
      case PriceFrom => DecimalLe(f.minPrice.value, r.price)
      case PriceTo => DecimalLe(r.price, f.maxPrice.value)
  {
  }

  /** Once all six filters are considered, the predicates with their parameters hold of a
      row exactly when the search filter does. */
  lemma BuiltMeaning(f: SearchFilter, conds: seq<Cond>, params: seq<Param>, r: CarRow)
    requires Built(f, 6, conds, params)
    ensures AllHold(conds, params, r) <==> FilterHolds(f, r)
  {
    forall c | c in conds
      ensures Supplied(f, c)
    {
      var k :| 0 <= k < |conds| && conds[k] == c;
    }
    if AllHold(conds, params, r) {
      forall c | Supplied(f, c)
        ensures CondHolds(c, ParamFor(f, c), r)
      {
        assert Rank(c) < 6;
        var k :| 0 <= k < |conds| && conds[k] == c;
        ParamsForAt(f, conds, k);
      }
      if Supplied(f, BrandLike) { CondMeaning(f, BrandLike, r); }
      if Supplied(f, ModelLike) { CondMeaning(f, ModelLike, r); }
      if Supplied(f, YearFrom) { CondMeaning(f, YearFrom, r); }
      if Supplied(f, YearTo) { CondMeaning(f, YearTo, r); }
      if Supplied(f, PriceFrom) { CondMeaning(f, PriceFrom, r); }
      if Supplied(f, PriceTo) { CondMeaning(f, PriceTo, r); }
    }
    if FilterHolds(f, r) {
      forall k | 0 <= k < |conds| && k < |params|
        ensures CondHolds(conds[k], params[k], r)
      {
        ParamsForAt(f, conds, k);
        CondMeaning(f, conds[k], r);
      }
    }
  }

  /** The statement text has one placeholder per predicate. */
  lemma SearchTextFacts(sql: string, conds: seq<Cond>)
    requires sql == SearchHead + Fragments(conds) + SearchTail
    ensures sql == SearchSql(conds) && Placeholders(sql) == |conds|
  {
    SearchSqlPlaceholders(conds);
  }

  /** The predicates and parameters after all six steps. */
  lemma BuiltFacts(f: SearchFilter, conds: seq<Cond>, params: seq<Param>)
    requires Built(f, 6, conds, params)
    ensures |params| == |conds|
    ensures forall i, j | 0 <= i < j < |conds| :: Rank(conds[i]) < Rank(conds[j])
    ensures (BrandLike in conds <==> TextFilter(f.brand)) && (ModelLike in conds <==> TextFilter(f.model))
    ensures (YearFrom in conds <==> f.minYear.Some?) && (YearTo in conds <==> f.maxYear.Some?)
    ensures (PriceFrom in conds <==> f.minPrice.Some?) && (PriceTo in conds <==> f.maxPrice.Some?)
    ensures forall r :: AllHold(conds, params, r) <==> FilterHolds(f, r)
  {
    BuiltConds(f, conds, params);
    forall r {
      BuiltMeaning(f, conds, params, r);
    }
  }

  /** What the statement searchCars builds means: one placeholder per parameter, the
      predicates in the fixed order, a predicate exactly for each supplied filter, and the
      predicates with their parameters selecting exactly the rows the filter describes. */
  lemma SearchQueryMeaning(f: SearchFilter, sql: string, conds: seq<Cond>, params: seq<Param>)
    requires conds == Wanted(f, 6) && params == WantedParams(f, 6)
    requires sql == SearchHead + Fragments(conds) + SearchTail
    ensures sql == SearchSql(conds)
    ensures |params| == |conds| && Placeholders(sql) == |params|
    ensures forall i, j | 0 <= i < j < |conds| :: Rank(conds[i]) < Rank(conds[j])
    ensures (BrandLike in conds <==> TextFilter(f.brand)) && (ModelLike in conds <==> TextFilter(f.model))
    ensures (YearFrom in conds <==> f.minYear.Some?) && (YearTo in conds <==> f.maxYear.Some?)
    ensures (PriceFrom in conds <==> f.minPrice.Some?) && (PriceTo in conds <==> f.maxPrice.Some?)
    ensures forall r :: AllHold(conds, params, r) <==> FilterHolds(f, r)
  {
    WantedBuilt(f, 6);
    BuiltFacts(f, conds, params);
    SearchTextFacts(sql, conds);
  }

  /** The statement as executed: the predicate at position k uses the parameter bound to
      placeholder k + 1. */
  predicate StatementHolds(conds: seq<Cond>, bound: map<int, Param>, r: CarRow) {
    forall k | 0 <= k < |conds| :: k + 1 in bound && CondHolds(conds[k], bound[k + 1], r)
  }

  /** Binding parameter k (0-based) to placeholder k + 1 makes the executed statement
      evaluate the predicates with their own parameters. */
  lemma BoundStatement(conds: seq<Cond>, params: seq<Param>, bound: map<int, Param>, r: CarRow)
    requires |conds| == |params|
    requires forall n | 1 <= n <= |params| :: n in bound && bound[n] == params[n - 1]
    ensures StatementHolds(conds, bound, r) <==> AllHold(conds, params, r)
  {
    if StatementHolds(conds, bound, r) {
      forall k | 0 <= k < |conds| && k < |params|
        ensures CondHolds(conds[k], params[k], r)
      {
        var n := k + 1;
        assert n in bound && bound[n] == params[n - 1];
        assert CondHolds(conds[k], bound[k + 1], r);
      }
    }
    if AllHold(conds, params, r) {
      forall k | 0 <= k < |conds|
        ensures k + 1 in bound && CondHolds(conds[k], bound[k + 1], r)
      {
        var n := k + 1;
        assert n in bound && bound[n] == params[n - 1];
        assert CondHolds(conds[k], params[k], r);
      }
    }
  }

  // ---------------------------------------------------------------------------
  // Result sets ordered by created_at DESC

  /** Which rows a query keeps. */
  datatype Selector =
    | AllCars                                          // getAllCars
    | OwnedBy(owner: int)                              // getCarsByUserId
    | Matching(filter: SearchFilter)                   // what a search asks for
    | Statement(conds: seq<Cond>, bound: map<int, Param>) // the search as executed

  predicate Selected(sel: Selector, r: CarRow) {
    match sel
    case AllCars => true
    case OwnedBy(owner) => r.userId == owner
    case Matching(f) => FilterHolds(f, r)
    case Statement(conds, bound) => StatementHolds(conds, bound, r)
  }

  /** The result set of SELECT * FROM cars WHERE <sel> ORDER BY created_at DESC.  The table
      lists rows in increasing created_at, so the newest row comes from its end. */
  function NewestFirst(s: seq<CarRow>, sel: Selector): seq<CarRow> {
    if s == [] then []
    else NewestFirst(s[1..], sel) + (if Selected(sel, s[0]) then [s[0]] else [])
  }

  /** The result set holds exactly the selected rows... */
  lemma {:induction false} NewestFirstMembers(s: seq<CarRow>, sel: Selector)
    ensures forall r :: r in NewestFirst(s, sel) <==> r in s && Selected(sel, r)
  {
    if s != [] {
      NewestFirstMembers(s[1..], sel);
      assert s == [s[0]] + s[1..];
    }
  }

  /** Strictly decreasing creation stamps. */
  ghost predicate NewestFirstOrder(rs: seq<CarRow>) {
    forall i, j | 0 <= i < j < |rs| :: rs[i].createdAt > rs[j].createdAt
  }

  /** ...newest first. */
  lemma {:induction false} NewestFirstDescending(s: seq<CarRow>, sel: Selector)
    requires CarsOrdered(s)
    ensures NewestFirstOrder(NewestFirst(s, sel))
  {
    if s != [] {
      assert CarsOrdered(s[1..]) by {
        forall i, j | 0 <= i < j < |s[1..]|
          ensures s[1..][i].id < s[1..][j].id && s[1..][i].createdAt < s[1..][j].createdAt
        {
          assert s[1..][i] == s[i + 1] && s[1..][j] == s[j + 1];
        }
      }
      NewestFirstDescending(s[1..], sel);
      NewestFirstMembers(s[1..], sel);
      var rest := NewestFirst(s[1..], sel);
      var rs := NewestFirst(s, sel);
      if Selected(sel, s[0]) {
        assert rs == rest + [s[0]];
        forall r | r in rest
          ensures r.createdAt > s[0].createdAt
        {
          var k :| 0 <= k < |s[1..]| && s[1..][k] == r;
          assert s[k + 1] == r;
        }
        forall i, j | 0 <= i < j < |rs|
          ensures rs[i].createdAt > rs[j].createdAt
        {
          assert rs[i] == rest[i];
          if j == |rest| {
            assert rest[i] in rest && rs[j] == s[0];
          } else {
            assert rs[j] == rest[j];
          }
        }
      } else {
        assert rs == rest;
      }
    }
  }

  /** Two selectors that agree on every row of the table select the same result set. */
  lemma {:induction false} SameSelection(s: seq<CarRow>, a: Selector, b: Selector)
    requires forall r | r in s :: Selected(a, r) <==> Selected(b, r)
    ensures NewestFirst(s, a) == NewestFirst(s, b)
  {
    if s != [] {
      assert s[0] in s;
      SameSelection(s[1..], a, b);
    }
  }

  /** With no filter supplied, a search returns what getAllCars returns. */
  lemma SearchWithoutFilters(s: seq<CarRow>)
    ensures NewestFirst(s, Matching(NoFilter)) == NewestFirst(s, AllCars)
  {
    SameSelection(s, Matching(NoFilter), AllCars);
  }

  /** The rows of a list that a selector keeps, in the list's order. */
  function Keep(rs: seq<CarRow>, sel: Selector): (out: seq<CarRow>)
    ensures |out| <= |rs|
  {
    if rs == [] then []
    else Keep(rs[..|rs| - 1], sel) + (if Selected(sel, rs[|rs| - 1]) then [rs[|rs| - 1]] else [])
  }

  lemma {:induction false} KeepAppend(a: seq<CarRow>, b: seq<CarRow>, sel: Selector)
    ensures Keep(a + b, sel) == Keep(a, sel) + Keep(b, sel)
  {
    if b == [] {
      assert a + b == a;
    } else {
      assert (a + b)[..|a + b| - 1] == a + b[..|b| - 1];
      KeepAppend(a, b[..|b| - 1], sel);
    }
  }

  /** Every selecting query returns the rows of getAllCars it selects, in the same order;
      in particular getCarsByUserId is getAllCars restricted to one owner. */
  lemma {:induction false} SelectionOfAllCars(s: seq<CarRow>, sel: Selector)
    ensures NewestFirst(s, sel) == Keep(NewestFirst(s, AllCars), sel)
  {
    if s != [] {
      SelectionOfAllCars(s[1..], sel);
      KeepAppend(NewestFirst(s[1..], AllCars), [s[0]], sel);
      assert Keep([s[0]], sel) == (if Selected(sel, s[0]) then [s[0]] else []) by {
        assert [s[0]][..0] == [];
      }
    }
  }
}

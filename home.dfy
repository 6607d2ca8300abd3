/** HomeController: the car list on the home page.  A search reads six text fields: brand
    and model are trimmed and dropped when empty; the four number fields are parsed one
    after the other inside a single try block, so the first one that is not a number
    stops the parsing and leaves itself and every later bound unset, while the search still
    runs with what was parsed before it.  "My cars" lists the logged-in user's cars, and
    each card shows at most the first 100 characters of a description. */
module Home {
  import opened JavaLang
  import opened Schema
  import opened CarModel
  import opened CarQuery
  import opened CarDao
  import opened Session

  // ---------------------------------------------------------------------------
  // The search form

  datatype SearchForm = SearchForm(
    brand: string, model: string, minYear: string, maxYear: string, minPrice: string, maxPrice: string)

  /** brand.isEmpty() ? null : brand, for the trimmed text. */
  function TextParam(text: string): (p: Option<string>)
    ensures p.None? <==> IsBlank(text)
    ensures p.Some? ==> p.value == Trim(text) && !IsBlank(p.value)
  {
    TrimEmptyIffBlank(text);
    TrimIdempotent(text);
    TrimEmptyIffBlank(Trim(text));
    var t := Trim(text);
    if t == [] then None else Some(t)
  }

  /** One number field of the form: left blank, a number, or text that makes the parser
      throw NumberFormatException. */
  datatype NumberField<T> = NoInput | Parsed(value: T) | Unparseable

  function YearInput(text: string): (f: NumberField<int>)
    ensures f.NoInput? <==> IsBlank(text)
    ensures f.Parsed? ==> ParseInt(Trim(text)) == Some(f.value)
    ensures f.Unparseable? <==> !IsBlank(text) && ParseInt(Trim(text)).None?
  {
    TrimEmptyIffBlank(text);
    var t := Trim(text);
    if t == [] then NoInput
    else match ParseInt(t)
      case Some(n) => Parsed(n)
      case None => Unparseable
  }

  function PriceInput(text: string): (f: NumberField<Decimal>)
    ensures f.NoInput? <==> IsBlank(text)
    ensures f.Parsed? ==> ParseDecimal(Trim(text)) == Some(f.value)
    ensures f.Unparseable? <==> !IsBlank(text) && ParseDecimal(Trim(text)).None?
  {
    TrimEmptyIffBlank(text);
    var t := Trim(text);
    if t == [] then NoInput
    else match ParseDecimal(t)
      case Some(d) => Parsed(d)
      case None => Unparseable
  }

  /** The bound a field yields when the try block reaches it (`reached`): its number, and
      nothing for a blank field, a bad field, or a field after a bad one. */
  function Bound<T>(f: NumberField<T>, reached: bool): (b: Option<T>)
    ensures b.Some? <==> reached && f.Parsed?
    ensures b.Some? ==> b.value == f.value
  {
    if reached && f.Parsed? then Some(f.value) else None
  }

  /** What the six fields say once trimmed and parsed, each on its own. */
  datatype Inputs = Inputs(
    brand: Option<string>, model: Option<string>,
    minYear: NumberField<int>, maxYear: NumberField<int>,
    minPrice: NumberField<Decimal>, maxPrice: NumberField<Decimal>)

  function Read(form: SearchForm): Inputs {
    Inputs(TextParam(form.brand), TextParam(form.model),
           YearInput(form.minYear), YearInput(form.maxYear),
           PriceInput(form.minPrice), PriceInput(form.maxPrice))
  }

  /** The arguments handleSearch hands to searchCars: each number field counts only when
      no earlier number field was unparseable. */
  function FilterOf(r: Inputs): SearchFilter {
    var a, b, c := r.minYear.Unparseable?, r.maxYear.Unparseable?, r.minPrice.Unparseable?;
    SearchFilter(
      r.brand, r.model,
      Bound(r.minYear, true), Bound(r.maxYear, !a), Bound(r.minPrice, !a && !b),
      Bound(r.maxPrice, !a && !b && !c))
  }

  /** The number fields in try-block order: whether the i-th is unparseable, and whether
      the i-th bound of a filter is set. */
  predicate BadAt(r: Inputs, i: nat)
    requires i < 4
  {
    if i == 0 then r.minYear.Unparseable?
    else if i == 1 then r.maxYear.Unparseable?
    else if i == 2 then r.minPrice.Unparseable?
    else r.maxPrice.Unparseable?
  }

  predicate BoundAt(f: SearchFilter, i: nat)
    requires i < 4
  {
    if i == 0 then f.minYear.Some?
    else if i == 1 then f.maxYear.Some?
    else if i == 2 then f.minPrice.Some?
    else f.maxPrice.Some?
  }

  /** With no number field unparseable, each bound is exactly what its field says, and a
      blank field sets no bound. */
  lemma WellFormedSearch(r: Inputs)
    requires forall i | 0 <= i < 4 :: !BadAt(r, i)
    ensures var f := FilterOf(r);
      (f.minYear.Some? <==> r.minYear.Parsed?) && (f.maxYear.Some? <==> r.maxYear.Parsed?) &&
      (f.minPrice.Some? <==> r.minPrice.Parsed?) && (f.maxPrice.Some? <==> r.maxPrice.Parsed?)
    ensures var f := FilterOf(r);
      (f.minYear.Some? ==> f.minYear.value == r.minYear.value) &&
      (f.maxYear.Some? ==> f.maxYear.value == r.maxYear.value) &&
      (f.minPrice.Some? ==> f.minPrice.value == r.minPrice.value) &&
      (f.maxPrice.Some? ==> f.maxPrice.value == r.maxPrice.value)
  {
    assert !BadAt(r, 0) && !BadAt(r, 1) && !BadAt(r, 2);
  }

  /** The first bad number field sets no bound and neither does any field after it, however
      well-formed; the text filters are unaffected. */
  lemma BadFieldDropsLaterBounds(r: Inputs, i: nat)
    requires i < 4 && BadAt(r, i)
    ensures forall j | i <= j < 4 :: !BoundAt(FilterOf(r), j)
    ensures FilterOf(r).brand == r.brand && FilterOf(r).model == r.model
  {
  }

  /** Fields before the first bad one keep what they parsed. */
  lemma EarlierBoundsKept(r: Inputs, i: nat)
    requires i < 4 && BadAt(r, i)
    requires forall j | 0 <= j < i :: !BadAt(r, j)
    ensures var f := FilterOf(r);
      (0 < i ==> f.minYear == Bound(r.minYear, true)) &&
      (1 < i ==> f.maxYear == Bound(r.maxYear, true)) &&
      (2 < i ==> f.minPrice == Bound(r.minPrice, true))
  {
    if 1 < i {
      assert !BadAt(r, 0);
    }
    if 2 < i {
      assert !BadAt(r, 0) && !BadAt(r, 1);
    }
  }

  /** handleSearch: trim brand and model, parse the number fields in order until the first
      NumberFormatException, and run the search with what was gathered. */
  method HandleSearch(form: SearchForm, db: Database) returns (filter: SearchFilter, cars: seq<CarFields>)
    ensures filter == FilterOf(Read(form))
    ensures cars == if db.Online() then ReadAll(NewestFirst(db.cars, Matching(filter))) else []
  {
    var minYear: Option<int> := None;
    var maxYear: Option<int> := None;
    var minPrice: Option<Decimal> := None;
    var maxPrice: Option<Decimal> := None;
    var thrown := false;
    var field := YearInput(form.minYear);
    if field.Parsed? {
      minYear := Some(field.value);
    }
    thrown := field.Unparseable?;
    if !thrown {
      field := YearInput(form.maxYear);
      if field.Parsed? {
        maxYear := Some(field.value);
      }
      thrown := field.Unparseable?;
    }
    if !thrown {
      var price := PriceInput(form.minPrice);
      if price.Parsed? {
        minPrice := Some(price.value);
      }
      thrown := price.Unparseable?;
    }
    if !thrown {
      var price := PriceInput(form.maxPrice);
      if price.Parsed? {
        maxPrice := Some(price.value);
      }
    }
    filter := SearchFilter(TextParam(form.brand), TextParam(form.model), minYear, maxYear, minPrice, maxPrice);
    cars := SearchCars(db, filter);
  }

  // ---------------------------------------------------------------------------
  // My cars

  /** loadMyCars: nothing (None: the list on screen stays) when nobody is logged in;
      otherwise the current user's cars, newest first. */
  method LoadMyCars(db: Database, session: SessionManager) returns (shown: Option<seq<CarFields>>)
    ensures shown.None? <==> session.currentUser.None?
    ensures shown.Some? ==>
      shown.value == if db.Online() then ReadAll(NewestFirst(db.cars, OwnedBy(session.currentUser.value.id))) else []
    ensures shown.Some? ==> forall c | c in shown.value :: c.userId == session.currentUser.value.id
  {
    if !session.IsLoggedIn() {
      return None;
    }
    var owner := session.CurrentUserId();
    var cars := GetCarsByUserId(db, owner);
    NewestFirstMembers(db.cars, OwnedBy(owner));
    forall c | c in cars
      ensures c.userId == owner
    {
      var rs := NewestFirst(db.cars, OwnedBy(owner));
      var k :| 0 <= k < |cars| && cars[k] == c;
      assert rs[k] in rs;
    }
    return Some(cars);
  }

  /** loadAllCars: every car, newest first. */
  method LoadAllCars(db: Database) returns (shown: seq<CarFields>)
    ensures shown == if db.Online() then ReadAll(NewestFirst(db.cars, AllCars)) else []
    ensures db.Online() ==> forall r | r in db.cars :: FieldsOf(r) in shown
  {
    shown := GetAllCars(db);
    NewestFirstMembers(db.cars, AllCars);
    if db.Online() {
      forall r | r in db.cars
        ensures FieldsOf(r) in shown
      {
        var rs := NewestFirst(db.cars, AllCars);
        var k :| 0 <= k < |rs| && rs[k] == r;
        assert shown[k] == FieldsOf(r);
      }
    }
  }

  // ---------------------------------------------------------------------------
  // The card text

  const PreviewLength: nat := 100

  /** The description label of a car card: none for a null or empty description; a
      description longer than 100 characters is cut to its first 100 and "..." appended. */
  function ShortDescription(description: Option<string>): (shown: Option<string>)
    ensures shown.Some? <==> description.Some? && description.value != []
    ensures shown.Some? && |description.value| <= PreviewLength ==> shown.value == description.value
    ensures shown.Some? && |description.value| > PreviewLength ==>
      |shown.value| == PreviewLength + 3 &&
      shown.value[..PreviewLength] == description.value[..PreviewLength] && shown.value[PreviewLength..] == "..."
  {
    if description.None? || description.value == [] then None
    else if |description.value| > PreviewLength then Some(description.value[..PreviewLength] + "...")
    else Some(description.value)
  }

  /** A preview is its own preview: a cut description is 103 characters long and is cut
      again to the same 100 characters and "...". */
  lemma ShortDescriptionIdempotent(description: Option<string>)
    ensures ShortDescription(ShortDescription(description)) == ShortDescription(description)
  {
    var shown := ShortDescription(description);
    if shown.Some? && |description.value| > PreviewLength {
      assert shown.value[..PreviewLength] + "..." == shown.value;
    }
  }
}

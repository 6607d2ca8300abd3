/** CarManagementController: the add/edit form of a car.  handleSave checks the fields in a
    fixed order and stops at the first failure; then it settles the picture (a newly chosen
    file is copied, otherwise an edited car keeps its own); then it either creates a new car
    owned by the session's user or overwrites the edited car in place and updates its row. */
module CarManagement {
  import opened JavaLang
  import opened Schema
  import opened CarModel
  import opened CarQuery
  import opened CarDao
  import opened Session
  import opened ImageHandler

  // ---------------------------------------------------------------------------
  // The check chain

  /** The text of the seven form fields. */
  datatype CarForm = CarForm(
    brand: string, model: string, year: string, price: string, mileage: string,
    color: string, description: string)

  /** The first failing check, each with the message handleSave shows. */
  datatype FormError =
    | BrandRequired | ModelRequired | InvalidYear | InvalidPrice | PriceNotPositive
    | InvalidMileage | NegativeMileage

  function Message(e: FormError): string {
    match e
    case BrandRequired => "Brand is required."
    case ModelRequired => "Model is required."
    case InvalidYear => "Please enter a valid year."
    case InvalidPrice => "Please enter a valid price."
    case PriceNotPositive => "Price must be greater than 0."
    case InvalidMileage => "Please enter a valid mileage."
    case NegativeMileage => "Mileage cannot be negative."
  }

  /** The outcome of the checks: the first failure, or the parsed numbers. */
  datatype Checked = Rejected(error: FormError) | Accepted(year: int, price: Decimal, mileage: int)

  const MinYear: int := 1900
  const MaxYear: int := 2100

  /** What the checks look at: the trimmed brand and model, and what the trimmed year, price
      and mileage texts parse to (None: NumberFormatException). */
  datatype Reading = Reading(
    brand: string, model: string, year: Option<int>, price: Option<Decimal>,
    mileageGiven: bool, mileage: Option<int>)

  function Read(form: CarForm): Reading {
    Reading(Trim(form.brand), Trim(form.model), ParseInt(Trim(form.year)),
            ParseDecimal(Trim(form.price)), Trim(form.mileage) != [], ParseInt(Trim(form.mileage)))
  }

  /** handleSave's validation over the parsed values, in the order it runs. */
  function Decide(r: Reading): Checked {
    if r.brand == [] then Rejected(BrandRequired)
    else if r.model == [] then Rejected(ModelRequired)
    else if r.year.None? || r.year.value < MinYear || r.year.value > MaxYear then Rejected(InvalidYear)
    else if r.price.None? then Rejected(InvalidPrice)
    else if !IsPositive(r.price.value) then Rejected(PriceNotPositive)
    else if !r.mileageGiven then Accepted(r.year.value, r.price.value, 0)
    else if r.mileage.None? then Rejected(InvalidMileage)
    else if r.mileage.value < 0 then Rejected(NegativeMileage)
    else Accepted(r.year.value, r.price.value, r.mileage.value)
  }

  function CheckForm(form: CarForm): Checked {
    Decide(Read(form))
  }

  /** The trimmed brand and model are empty exactly when the typed text is blank, and the
      mileage counts as given exactly when its text is not blank. */
  lemma ReadMeaning(form: CarForm)
    ensures Read(form).brand == [] <==> IsBlank(form.brand)
    ensures Read(form).model == [] <==> IsBlank(form.model)
    ensures Read(form).mileageGiven <==> !IsBlank(form.mileage)
  {
    TrimEmptyIffBlank(form.brand);
    TrimEmptyIffBlank(form.model);
    TrimEmptyIffBlank(form.mileage);
  }

  // What each check asks of its field, on its own.
  predicate BrandOk(r: Reading) { r.brand != [] }
  predicate ModelOk(r: Reading) { r.model != [] }
  predicate YearOk(r: Reading) { r.year.Some? && MinYear <= r.year.value <= MaxYear }
  predicate PriceOk(r: Reading) { r.price.Some? && r.price.value.unscaled > 0 }
  predicate MileageParses(r: Reading) { !r.mileageGiven || r.mileage.Some? }
  predicate MileageOk(r: Reading) { !r.mileageGiven || (r.mileage.Some? && r.mileage.value >= 0) }

  /** The checks run brand, model, year, price, mileage: each error is reported exactly when
      every earlier check passed and its own failed, and the form is accepted exactly when
      all pass. */
  lemma DecideOrder(r: Reading)
    ensures Decide(r) == Rejected(BrandRequired) <==> !BrandOk(r)
    ensures Decide(r) == Rejected(ModelRequired) <==> BrandOk(r) && !ModelOk(r)
    ensures Decide(r) == Rejected(InvalidYear) <==> BrandOk(r) && ModelOk(r) && !YearOk(r)
    ensures Decide(r) == Rejected(InvalidPrice) <==> BrandOk(r) && ModelOk(r) && YearOk(r) && r.price.None?
    ensures Decide(r) == Rejected(PriceNotPositive) <==>
      BrandOk(r) && ModelOk(r) && YearOk(r) && r.price.Some? && !PriceOk(r)
    ensures Decide(r) == Rejected(InvalidMileage) <==>
      BrandOk(r) && ModelOk(r) && YearOk(r) && PriceOk(r) && !MileageParses(r)
    ensures Decide(r) == Rejected(NegativeMileage) <==>
      BrandOk(r) && ModelOk(r) && YearOk(r) && PriceOk(r) && MileageParses(r) && !MileageOk(r)
    ensures Decide(r).Accepted? <==> BrandOk(r) && ModelOk(r) && YearOk(r) && PriceOk(r) && MileageOk(r)
  {
    if r.price.Some? {
      PositiveIffUnscaledPositive(r.price.value);
    }
  }

  /** What an accepted form carries: the year typed, within [1900, 2100]; the price typed,
      above zero; the mileage typed, not negative, or 0 when the field was left blank. */
  lemma AcceptedValues(r: Reading)
    requires Decide(r).Accepted?
    ensures var c := Decide(r);
      MinYear <= c.year <= MaxYear && Some(c.year) == r.year &&
      Some(c.price) == r.price && c.price.unscaled > 0 &&
      c.mileage >= 0 && (if r.mileageGiven then Some(c.mileage) == r.mileage else c.mileage == 0)
  {
    PositiveIffUnscaledPositive(r.price.value);
  }

  // ---------------------------------------------------------------------------
  // What gets saved

  /** The values handleSave stores from an accepted form: the texts trimmed, the numbers
      as the checks parsed them. */
  datatype Entered = Entered(
    brand: string, model: string, year: int, price: Decimal, mileage: int,
    color: string, description: string)

  function EnteredValues(form: CarForm, c: Checked): Entered
    requires c.Accepted?
  {
    Entered(Trim(form.brand), Trim(form.model), c.year, c.price, c.mileage,
            Trim(form.color), Trim(form.description))
  }

  /** The car `new Car(...)` builds: owned by the session's user id, every value entered. */
  function NewCarFields(e: Entered, owner: int, imagePath: Option<string>): CarFields {
    CarFields(0, owner, Some(e.brand), Some(e.model), e.year, Some(e.price), e.mileage,
              Some(e.color), Some(e.description), imagePath, None)
  }

  /** The edited car after the setters: the seven form fields overwritten, the picture
      replaced only by a new one; id, owner and stamp untouched. */
  function EditedFields(v: CarFields, e: Entered, imagePath: Option<string>): CarFields {
    v.(brand := Some(e.brand), model := Some(e.model), year := e.year, price := Some(e.price),
       mileage := e.mileage, color := Some(e.color), description := Some(e.description),
       imagePath := if imagePath.Some? then imagePath else v.imagePath)
  }

  /** An accepted form stores a brand and model that are not blank, with no surrounding
      blanks, and a car that the NOT NULL columns accept. */
  lemma AcceptedFormIsStorable(form: CarForm, owner: int, imagePath: Option<string>)
    requires CheckForm(form).Accepted?
    ensures var e := EnteredValues(form, CheckForm(form));
      e.brand != [] && e.model != [] && Trim(e.brand) == e.brand && Trim(e.model) == e.model &&
      Storable(NewCarFields(e, owner, imagePath))
  {
    TrimIdempotent(form.brand);
    TrimIdempotent(form.model);
  }

  /** The result of handleSave. */
  datatype SaveOutcome = Invalid(error: FormError) | ImageNotSaved | Saved | NotSaved

  class CarManagementController {
    var carForEdit: Car?
    var selectedImageFile: Option<string>

    constructor ()
      ensures carForEdit == null && selectedImageFile.None?
    {
      carForEdit := null;
      selectedImageFile := None;
    }

    /** setCarForEdit: the form now edits this car (null: a new car). */
    method SetCarForEdit(car: Car?)
      modifies this`carForEdit
      ensures carForEdit == car
    {
      carForEdit := car;
    }

    /** handleBrowseImage: remembers the file the chooser returned (null when cancelled). */
    method BrowseImage(chosen: Option<string>)
      modifies this`selectedImageFile
      ensures selectedImageFile == chosen
    {
      selectedImageFile := chosen;
    }

    /** The picture a save stores when the copy succeeds: the token of the newly copied file,
        or none (an edited car then keeps its own). */
    function PickedImage(uuid: string): Option<string>
      reads this
    {
      if selectedImageFile.Some? then Some(Token(UniqueName(uuid, FileName(selectedImageFile.value)))) else None
    }

    /** The picture step of handleSave: a chosen file is copied and its token used, and a
        failed copy stops the save; with no chosen file an edited car's own path is kept. */
    method ChooseImage(store: FileStore, uuid: string) returns (imagePath: Option<string>, copied: bool)
      modifies store`files
      ensures selectedImageFile.Some? ==>
        (copied <==> selectedImageFile.value in old(store.files) && store.writable) &&
        (copied ==> imagePath == PickedImage(uuid)) &&
        (copied ==> store.files == old(store.files)[ImageDir + UniqueName(uuid, FileName(selectedImageFile.value)) := old(store.files)[selectedImageFile.value]])
      ensures selectedImageFile.None? ==> copied && imagePath == (if carForEdit != null then carForEdit.imagePath else None)
      ensures !copied || selectedImageFile.None? ==> store.files == old(store.files)
    {
      copied := true;
      imagePath := None;
      if selectedImageFile.Some? {
        imagePath := store.SaveImage(selectedImageFile, uuid);
        if imagePath.None? {
          copied := false;
        }
      } else if carForEdit != null && carForEdit.imagePath.Some? {
        imagePath := carForEdit.imagePath;
      }
    }

    /** The setter calls of an edit. */
    static method ApplyEdit(car: Car, e: Entered, imagePath: Option<string>)
      modifies car
      ensures car.Value() == EditedFields(old(car.Value()), e, imagePath)
    {
      car.SetBrand(Some(e.brand));
      car.SetModel(Some(e.model));
      car.SetYear(e.year);
      car.SetPrice(Some(e.price));
      car.SetMileage(e.mileage);
      car.SetColor(Some(e.color));
      car.SetDescription(Some(e.description));
      if imagePath.Some? {
        car.SetImagePath(imagePath);
      }
    }

    /** The create-or-update step of handleSave.  A new car belongs to the session's user id
        (-1 when nobody is logged in, which no stored user has, so the insert fails); an edit
        overwrites the car object in place and updates its row under id AND user_id. */
    method Persist(e: Entered, imagePath: Option<string>, db: Database, session: SessionManager)
      returns (success: bool)
      requires db.Valid()
      modifies db`cars, db`nextCarId, db`clock, carForEdit
      ensures db.Valid()
      ensures carForEdit == null ==>
        (success <==> old(db.Online()) && HasUser(old(db.users), IdOf(session.currentUser))) &&
        db.cars == (if success
                    then old(db.cars) + [InsertedRow(NewCarFields(e, IdOf(session.currentUser), imagePath), old(db.nextCarId), old(db.clock))]
                    else old(db.cars))
      ensures carForEdit != null ==>
        carForEdit.Value() == EditedFields(old(carForEdit.Value()), e, imagePath) &&
        (success <==> old(db.Online()) && exists r | r in old(db.cars) :: Guarded(r, carForEdit.id, carForEdit.userId)) &&
        db.cars == (if success then Overwrite(old(db.cars), carForEdit.Value()) else old(db.cars))
      // Only a successful insert draws an id and a stamp.
      ensures db.nextCarId == old(db.nextCarId) + (if success && carForEdit == null then 1 else 0)
      ensures db.clock == old(db.clock) + (if success && carForEdit == null then 1 else 0)
    {
      if carForEdit == null {
        var owner := session.CurrentUserId();
        var newCar := new Car(owner, Some(e.brand), Some(e.model), e.year, Some(e.price), e.mileage,
                              Some(e.color), Some(e.description), imagePath);
        success := CreateCar(db, newCar);
      } else {
        ApplyEdit(carForEdit, e, imagePath);
        success := UpdateCar(db, carForEdit);
      }
    }

    /** The storing half of handleSave, for values that passed the checks: copy the chosen
        picture (a failed copy stops here), then create or update the car. */
    method Store(e: Entered, db: Database, store: FileStore, session: SessionManager, uuid: string)
      returns (outcome: SaveOutcome)
      requires db.Valid()
      modifies db`cars, db`nextCarId, db`clock, store`files, carForEdit
      ensures db.Valid()
      ensures outcome == ImageNotSaved || outcome == Saved || outcome == NotSaved
      ensures outcome == ImageNotSaved <==>
        selectedImageFile.Some? && !(selectedImageFile.value in old(store.files) && store.writable)
      ensures outcome == ImageNotSaved ==>
        db.cars == old(db.cars) && store.files == old(store.files) &&
        (carForEdit != null ==> carForEdit.Value() == old(carForEdit.Value()))
      ensures outcome == Saved || outcome == NotSaved ==>
        var image := if selectedImageFile.Some? then PickedImage(uuid)
                     else if carForEdit != null then old(carForEdit.imagePath) else None;
        (carForEdit == null ==>
          (outcome == Saved <==> old(db.Online()) && HasUser(old(db.users), IdOf(session.currentUser))) &&
          db.cars == (if outcome == Saved
                      then old(db.cars) + [InsertedRow(NewCarFields(e, IdOf(session.currentUser), image), old(db.nextCarId), old(db.clock))]
                      else old(db.cars))) &&
        (carForEdit != null ==>
          carForEdit.Value() == EditedFields(old(carForEdit.Value()), e, image) &&
          (outcome == Saved <==> old(db.Online()) && exists r | r in old(db.cars) :: Guarded(r, carForEdit.id, carForEdit.userId)) &&
          db.cars == (if outcome == Saved then Overwrite(old(db.cars), carForEdit.Value()) else old(db.cars)))
      // A saved or refused car leaves the copied picture in the store, under its unique name.
      ensures outcome == Saved || outcome == NotSaved ==>
        if selectedImageFile.Some? then
          selectedImageFile.value in old(store.files) &&
          store.files == old(store.files)[ImageDir + UniqueName(uuid, FileName(selectedImageFile.value)) :=
                                          old(store.files)[selectedImageFile.value]]
        else store.files == old(store.files)
      // Only a successful insert draws an id and a stamp.
      ensures db.nextCarId == old(db.nextCarId) + (if outcome == Saved && carForEdit == null then 1 else 0)
      ensures db.clock == old(db.clock) + (if outcome == Saved && carForEdit == null then 1 else 0)
    {
      var imagePath, copied := ChooseImage(store, uuid);
      if !copied {
        return ImageNotSaved;
      }
      var success := Persist(e, imagePath, db, session);
      outcome := if success then Saved else NotSaved;
    }

    /** handleSave.  `uuid` is the UUID saveImage would draw; `checked` names the outcome of
        the check chain for the contract. */
    method HandleSave(form: CarForm, db: Database, store: FileStore, session: SessionManager, uuid: string)
      returns (outcome: SaveOutcome, ghost checked: Checked)
      requires db.Valid()
      modifies db`cars, db`nextCarId, db`clock, store`files, carForEdit
      ensures db.Valid()
      ensures checked == CheckForm(form)
      // A failing check reports its error and changes nothing anywhere.
      ensures checked.Rejected? ==>
        outcome == Invalid(checked.error) &&
        db.cars == old(db.cars) && store.files == old(store.files) &&
        (carForEdit != null ==> carForEdit.Value() == old(carForEdit.Value()))
      // A chosen picture that cannot be copied stops the save.
      ensures checked.Accepted? && selectedImageFile.Some? &&
              !(selectedImageFile.value in old(store.files) && store.writable) ==>
        outcome == ImageNotSaved && db.cars == old(db.cars) && store.files == old(store.files) &&
        (carForEdit != null ==> carForEdit.Value() == old(carForEdit.Value()))
      // Otherwise the car is created or updated with the entered values.
      ensures outcome == Saved || outcome == NotSaved ==>
        checked.Accepted? &&
        var e := EnteredValues(form, checked);
        var image := if selectedImageFile.Some? then PickedImage(uuid)
                     else if carForEdit != null then old(carForEdit.imagePath) else None;
        (carForEdit == null ==>
          (outcome == Saved <==> old(db.Online()) && HasUser(old(db.users), IdOf(session.currentUser))) &&
          db.cars == (if outcome == Saved
                      then old(db.cars) + [InsertedRow(NewCarFields(e, IdOf(session.currentUser), image), old(db.nextCarId), old(db.clock))]
                      else old(db.cars))) &&
        (carForEdit != null ==>
          carForEdit.Value() == EditedFields(old(carForEdit.Value()), e, image) &&
          (outcome == Saved <==> old(db.Online()) && exists r | r in old(db.cars) :: Guarded(r, carForEdit.id, carForEdit.userId)) &&
          db.cars == (if outcome == Saved then Overwrite(old(db.cars), carForEdit.Value()) else old(db.cars)))
      // A saved or refused car leaves the copied picture in the store, under its unique name.
      ensures outcome == Saved || outcome == NotSaved ==>
        if selectedImageFile.Some? then
          selectedImageFile.value in old(store.files) &&
          store.files == old(store.files)[ImageDir + UniqueName(uuid, FileName(selectedImageFile.value)) :=
                                          old(store.files)[selectedImageFile.value]]
        else store.files == old(store.files)
      // Only a successful insert draws an id and a stamp.
      ensures db.nextCarId == old(db.nextCarId) + (if outcome == Saved && carForEdit == null then 1 else 0)
      ensures db.clock == old(db.clock) + (if outcome == Saved && carForEdit == null then 1 else 0)
    {
      var verdict := CheckForm(form);
      checked := verdict;
      if verdict.Rejected? {
        return Invalid(verdict.error), checked;
      }
      outcome := Store(EnteredValues(form, verdict), db, store, session, uuid);
    }
  }
}

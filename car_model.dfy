/** The Car object the DAOs fill in and the controllers edit in place.  Reference-typed
    fields (String, BigDecimal, LocalDateTime) may be null; int fields start at 0.  The
    class checks nothing: every setter stores whatever it is given. */
module CarModel {
  import opened JavaLang

  /** The state of a Car object, field by field.  createdAt is the store's insertion
      stamp of the row the object was read from. */
  datatype CarFields = CarFields(
    id: int, userId: int, brand: Option<string>, model: Option<string>, year: int,
    price: Option<Decimal>, mileage: int, color: Option<string>,
    description: Option<string>, imagePath: Option<string>, createdAt: Option<nat>)

  /** The state of `new Car()`. */
  const Blank: CarFields :=
    CarFields(0, 0, None, None, 0, None, 0, None, None, None, None)

  class Car {
    var id: int
    var userId: int
    var brand: Option<string>
    var model: Option<string>
    var year: int
    var price: Option<Decimal>
    var mileage: int
    var color: Option<string>
    var description: Option<string>
    var imagePath: Option<string>
    var createdAt: Option<nat>

    /** What the getters return. */
    function Value(): CarFields
      reads this
    {
      CarFields(id, userId, brand, model, year, price, mileage, color, description, imagePath, createdAt)
    }

    /** new Car(): every field at its Java default. */
    constructor Empty()
      ensures Value() == Blank
    {
      id, userId, brand, model, year := 0, 0, None, None, 0;
      price, mileage, color, description, imagePath, createdAt := None, 0, None, None, None, None;
    }

    /** The nine-argument constructor: each argument goes to the field of the same name;
        id stays 0 and createdAt null until a DAO sets them. */
    constructor (userId: int, brand: Option<string>, model: Option<string>, year: int,
                 price: Option<Decimal>, mileage: int, color: Option<string>,
                 description: Option<string>, imagePath: Option<string>)
      ensures Value() == CarFields(0, userId, brand, model, year, price, mileage, color, description, imagePath, None)
    {
      id := 0;
      this.userId, this.brand, this.model, this.year := userId, brand, model, year;
      this.price, this.mileage, this.color := price, mileage, color;
      this.description, this.imagePath := description, imagePath;
      createdAt := None;
    }

    method SetId(id: int)
      modifies this`id
      ensures Value() == old(Value()).(id := id)
    {
      this.id := id;
    }

    method SetUserId(userId: int)
      modifies this`userId
      ensures Value() == old(Value()).(userId := userId)
    {
      this.userId := userId;
    }

    method SetBrand(brand: Option<string>)
      modifies this`brand
      ensures Value() == old(Value()).(brand := brand)
    {
      this.brand := brand;
    }

    method SetModel(model: Option<string>)
      modifies this`model
      ensures Value() == old(Value()).(model := model)
    {
      this.model := model;
    }

    method SetYear(year: int)
      modifies this`year
      ensures Value() == old(Value()).(year := year)
    {
      this.year := year;
    }

    method SetPrice(price: Option<Decimal>)
      modifies this`price
      ensures Value() == old(Value()).(price := price)
    {
      this.price := price;
    }

    method SetMileage(mileage: int)
      modifies this`mileage
      ensures Value() == old(Value()).(mileage := mileage)
    {
      this.mileage := mileage;
    }

    method SetColor(color: Option<string>)
      modifies this`color
      ensures Value() == old(Value()).(color := color)
    {
      this.color := color;
    }

    method SetDescription(description: Option<string>)
      modifies this`description
      ensures Value() == old(Value()).(description := description)
    {
      this.description := description;
    }

    method SetImagePath(imagePath: Option<string>)
      modifies this`imagePath
      ensures Value() == old(Value()).(imagePath := imagePath)
    {
      this.imagePath := imagePath;
    }

    method SetCreatedAt(createdAt: Option<nat>)
      modifies this`createdAt
      ensures Value() == old(Value()).(createdAt := createdAt)
    {
      this.createdAt := createdAt;
    }
  }
}

/**
 * The record types a collection holds. Their Java classes live in src/elements, which is not
 * part of this model; the fields are the ones the collection manager and the persistence
 * layer read and write. Floating-point coordinates are carried by their bit patterns and
 * never computed with.
 */
module Elements {
  import opened Wrappers

  /** Java `int` and `long`. */
  type Int32 = x: int | -0x8000_0000 <= x <= 0x7FFF_FFFF
  type Int64 = x: int | -0x8000_0000_0000_0000 <= x <= 0x7FFF_FFFF_FFFF_FFFF

  /** A Java `float` / `double`, as an uninterpreted bit pattern. */
  datatype Float32 = Float32(bits: bv32)
  datatype Float64 = Float64(bits: bv64)

  datatype Coordinates = Coordinates(x: Float32, y: Float64)

  datatype Location = Location(x: Int64, y: Int64, z: Int32, name: string)

  /** An enumerated eye colour, by the name the persistence layer stores. */
  datatype EyeColor = EyeColor(name: string)

  datatype Person = Person(name: string, height: Int32, eyeColor: EyeColor, location: Location)

  /** An enumerated unit of measure, by the text its `getUnit()` returns. */
  datatype UnitOfMeasure = UnitOfMeasure(unit: string)

  datatype Date = Date(year: int, month: int, day: int)

  /** One channel of a generated display colour: `(int) (Math.random() * 255)`. */
  type Channel = x: int | 0 <= x < 255

  /** The per-host display tag (a `java.awt.Color`). */
  datatype Color = Color(red: Channel, green: Channel, blue: Channel)

  /**
   * A product. `host` is the login of the user who owns it (the access-control key);
   * `color` is the transient display tag, None until the manager assigns one.
   */
  datatype Product = Product(
    id: Int32,
    name: string,
    coordinates: Coordinates,
    creationDate: Date,
    price: Int64,
    partNumber: string,
    unitOfMeasure: UnitOfMeasure,
    owner: Person,
    host: string,
    color: Option<Color>)
}

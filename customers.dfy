/** The values the parser produces and the radius filter consumes. */
module Customers {

  import opened JsNumber

  /** A point on the globe, latitude and longitude in degrees. No range is
      enforced. */
  datatype Position = Position(latitude: Num, longitude: Num)

  /** A customer taken from a complete line of the export. */
  datatype Customer = Customer(id: string, position: Position)
}

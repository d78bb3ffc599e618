/**
 The data model of the hotel service: the `Hotel` entity, the two request
 payloads (create and partial update), and the error kinds the service raises.

 JavaScript's `null` and `undefined` are both modelled as `None`; the service
 never distinguishes them (it uses truthiness and `??`, which treat them alike).
 */
module HotelTypes {

  /** A value that may be absent (`null` or `undefined` in the source). */
  datatype Option<+T> = None | Some(value: T) {

    /** JavaScript's `this ?? default` for a required value: the value if present, else the default. */
    function GetOr(default: T): T {
      match this
      case Some(v) => v
      case None => default
    }

    /** JavaScript's `this ?? other` for a nullable value: this if present, else `other`. */
    function Or(other: Option<T>): Option<T> {
      match this
      case Some(_) => this
      case None => other
    }
  }

  /** The exceptions the service throws, one constructor per distinct meaning. */
  datatype Error =
    | InvalidInput   // BadRequestException: missing id, missing path, failed validation
    | NotFound       // NotFoundException: no row with the given id
    | MissingFields  // BadRequestException: a CSV row failed validation
    | EmptyFile      // BadRequestException: the CSV file had no data rows

  /** The outcome of a service call: a value, or the error kind it threw. */
  datatype Result<+T> = Ok(value: T) | Err(error: Error)

  /** The columns of a hotel row other than its id. */
  datatype HotelData = HotelData(
    name: string,
    webLink: Option<string>,  // the only nullable column
    address: string,
    email: string,
    status: int,              // 0 = closed, 1 = open
    coordinate: string        // "<longitude>,<latitude>"
  )

  /** A persisted hotel row: a store-assigned id and its columns. */
  datatype Hotel = Hotel(id: int, data: HotelData)

  /** The body of a create request; any field may be missing. */
  datatype CreateHotelDto = CreateHotelDto(
    name: Option<string>,
    webLink: Option<string>,
    address: Option<string>,
    email: Option<string>,
    status: Option<int>,
    coordinate: Option<string>
  )

  /** The body of a partial update; a missing field means "keep the stored value". */
  datatype UpdateHotelDto = UpdateHotelDto(
    name: Option<string>,
    webLink: Option<string>,
    address: Option<string>,
    email: Option<string>,
    status: Option<int>,
    coordinate: Option<string>
  )

  /** Every column the database declares NOT NULL is supplied. */
  predicate Complete(d: CreateHotelDto) {
    d.name.Some? && d.address.Some? && d.email.Some? && d.status.Some? && d.coordinate.Some?
  }

  /** The stored columns `h` hold exactly the values the request `d` supplied. */
  predicate Matches(h: HotelData, d: CreateHotelDto) {
    && d.name == Some(h.name)
    && d.webLink == h.webLink
    && d.address == Some(h.address)
    && d.email == Some(h.email)
    && d.status == Some(h.status)
    && d.coordinate == Some(h.coordinate)
  }

  /** The entity `addHotels` builds from a request: each field copied across. */
  function FromDto(d: CreateHotelDto): (h: HotelData)
    requires Complete(d)
    ensures Matches(h, d)
  {
    HotelData(d.name.value, d.webLink, d.address.value, d.email.value, d.status.value, d.coordinate.value)
  }
}

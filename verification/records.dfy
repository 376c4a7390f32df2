/** The rows the ticketing system stores and passes around. Each is an
    immutable record; the stores that hold them are sequences or maps owned by
    the modules that change them. Datetimes are integer timestamps in seconds. */
module Records {

  datatype Option<T> = None | Some(value: T) {
    function GetOr(default: T): T {
      match this
      case Some(v) => v
      case None => default
    }
  }

  /** An event as loaded with its category and creating admin. `categoryName`
      and `adminName` are `None` when the related row is missing; `createdBy`
      is the `created_by` attribute the admin sort column names, `None` when
      the row has no such attribute. */
  datatype Event = Event(
    id: nat,
    title: string,
    description: string,
    duration: string,
    categoryId: nat,
    categoryName: Option<string>,
    adminId: nat,
    adminName: Option<string>,
    createdBy: Option<string>,
    thumbnail: string)

  /** One scheduled occurrence of an event at a venue. */
  datatype EventVenue = EventVenue(
    id: nat,
    eventId: nat,
    venueId: nat,
    locationId: nat,
    start: int)

  /** A bookable seat. Seats belong to a venue, not to an event-venue, so the
      booked flag is shared by every event held at that venue. */
  datatype Seat = Seat(id: nat, venueId: nat, price: int, isBooked: bool)

  datatype TicketStatus = Booked | Expired | Refunded

  /** A ticket for one event-venue. `seatIds` holds the ticket's TicketSeat
      join rows, one seat id per row. */
  datatype Ticket = Ticket(
    userId: nat,
    eventVenueId: nat,
    code: string,
    totalPrice: int,
    status: TicketStatus,
    seatIds: seq<nat>)
}

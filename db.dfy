/**
 * Record shapes of the document database (namespace `DB` of app.d.ts),
 * limited to the fields the ticket-availability path reads.
 */
module Db {
  import opened Wrappers

  /** `DB.Ticket.status`; an absent status is `None`. */
  datatype Status = Free | Unpaid | Paid | Cancelled

  /** `DB.Ticket.currency`, whose only value is 'CAD'. */
  datatype Currency = CAD

  /**
   * A ticket document. `createdAt` is a server timestamp; the model
   * takes it as an integer (milliseconds since the epoch).
   */
  datatype Ticket = Ticket(
    id: string,
    eventId: string,
    eventName: string,
    status: Option<Status>,
    price: string,
    currency: Option<Currency>,
    userId: string,
    name: string,
    email: string,
    firstTime: string,
    occupation: string,
    work: string,
    location: string,
    message: string,
    createdAt: int)

  /** The aggregate counter pair kept per event by an external process. */
  datatype EventAnalytics = EventAnalytics(
    id: string,
    ticketsConfirmedCount: int,
    ticketsOnHoldCount: int)

  /**
   * The fields of `DB.Event` that the event card reads. `dateMs` is the
   * event's ISO date already converted to milliseconds since the epoch;
   * an empty `id` or `joinLink` stands for a falsy one.
   */
  datatype Event = Event(
    id: string,
    dateMs: int,
    title: string,
    description: string,
    joinLink: string,
    location: string,
    quantity: int)
}

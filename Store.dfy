/**
 * The database behind the business, customer, service, opening-hours,
 * holiday and booking repositories that both services share.
 */
module Repository {
  import opened Model

  class Store {
    var businesses: map<int, Business>
    var customers: map<int, Customer>
    var services: seq<Service>
    var hours: map<int, map<int, Hours>>
    var holidays: set<(int, nat)>
    var bookings: seq<Booking>

    /** The tables as one value, for the specifications. */
    function Snapshot(): Db
      reads this
    {
      Db(businesses, customers, services, hours, holidays, bookings)
    }

    ghost predicate Valid()
      reads this
    {
      ValidDb(Snapshot())
    }

    constructor (db: Db)
      requires ValidDb(db)
      ensures Snapshot() == db && Valid()
    {
      businesses := db.businesses;
      customers := db.customers;
      services := db.services;
      hours := db.hours;
      holidays := db.holidays;
      bookings := db.bookings;
    }
  }
}

/**
 * The entities of the booking engine and the queries the two services put to
 * their repositories, over an in-memory snapshot of the database.
 */
module Model {
  import opened Clock

  datatype Option<T> = None | Some(value: T)

  /** BaseResponseStatus: the status every operation answers with. */
  datatype Status =
    | Success
    | UnknownError
    | NotFound
    | ValidationError
    | InvalidBusiness
    | InvalidService
    | InvalidCustomer
    | InvalidBooking
    | InvalidStatus
    | Holiday
    | NoWorkingHours
    | Busy
    | AlreadyExists
    | AlreadyCanceled

  /** The status column of a booking. */
  datatype BookingStatus = Pending | Confirmed | Cancelled {
    /** The text stored in the database and compared by the status filter. */
    function Name(): string {
      match this
      case Pending => "Pending"
      case Confirmed => "Confirmed"
      case Cancelled => "Cancelled"
    }
  }

  datatype Business = Business(
    name: string,
    email: Option<string>,
    phone: Option<string>,
    timeZone: string,
    settingsJson: Option<string>)

  datatype Customer = Customer(fullName: string, email: Option<string>, phone: Option<string>)

  /** A service; the price is a decimal of which only the sign is ever inspected. */
  datatype Service = Service(
    id: int,
    businessId: int,
    name: string,
    durationMin: int,
    price: int,
    isActive: bool)

  /** One weekday's opening window, as times of day in ticks since midnight. */
  datatype Hours = Hours(openTime: nat, closeTime: nat)

  datatype Booking = Booking(
    id: int,
    businessId: int,
    serviceId: int,
    customerId: int,
    startAt: nat,
    endAt: nat,
    status: BookingStatus,
    notes: Option<string>)

  /**
   * The tables: businesses and customers by id, services and bookings as rows
   * in storage order, opening hours by business and weekday (1..7), and
   * holidays as (business, day number) pairs.
   */
  datatype Db = Db(
    businesses: map<int, Business>,
    customers: map<int, Customer>,
    services: seq<Service>,
    hours: map<int, map<int, Hours>>,
    holidays: set<(int, nat)>,
    bookings: seq<Booking>)

  /** Every stored service has a positive duration, as AddService demands of new ones. */
  predicate ValidDb(db: Db) {
    forall i :: 0 <= i < |db.services| ==> db.services[i].durationMin > 0
  }

  /** ServiceRepository.GetByIdAsync: the first row with that id, if any. */
  function FindService(services: seq<Service>, id: int): (r: Option<Service>)
    ensures r.None? <==> forall i :: 0 <= i < |services| ==> services[i].id != id
    ensures r.Some? ==> r.value.id == id && r.value in services
  {
    if services == [] then None
    else if services[0].id == id then Some(services[0])
    else FindService(services[1..], id)
  }

  /**
   * BookingRepository.GetByIdAsync: the first row with that id, if any. It mirrors
   * FindService on purpose: each repository keeps its own table and entity type,
   * and the services call the two lookups separately.
   */
  function FindBooking(bookings: seq<Booking>, id: int): (r: Option<Booking>)
    ensures r.None? <==> forall i :: 0 <= i < |bookings| ==> bookings[i].id != id
    ensures r.Some? ==> r.value.id == id && r.value in bookings
  {
    if bookings == [] then None
    else if bookings[0].id == id then Some(bookings[0])
    else FindBooking(bookings[1..], id)
  }

  /** A service found in a valid store has a positive duration. */
  lemma {:induction false} FoundServiceHasDuration(db: Db, id: int)
    requires ValidDb(db) && FindService(db.services, id).Some?
    ensures FindService(db.services, id).value.durationMin > 0
  {
    var s := FindService(db.services, id).value;
    var i :| 0 <= i < |db.services| && db.services[i] == s;
  }

  /** OpeningHoursRepository.GetByBusinessIdAsync: a business's week, by weekday. */
  function WeekHours(db: Db, businessId: int): map<int, Hours> {
    if businessId in db.hours then db.hours[businessId] else map[]
  }

  /** HolidayRepository: the holiday dates of one business. */
  function HolidayDates(db: Db, businessId: int): set<nat> {
    set h | h in db.holidays && h.0 == businessId :: h.1
  }

  /** The fields of a BookingFilter that the services set; an absent field does not filter. */
  datatype BookingFilter = BookingFilter(
    businessId: Option<int>,
    serviceId: Option<int>,
    customerId: Option<int>,
    status: Option<string>,
    date: Option<nat>)

  predicate Matches(f: BookingFilter, b: Booking) {
    && (f.businessId.Some? ==> b.businessId == f.businessId.value)
    && (f.serviceId.Some? ==> b.serviceId == f.serviceId.value)
    && (f.customerId.Some? ==> b.customerId == f.customerId.value)
    && (f.status.Some? ==> b.status.Name() == f.status.value)
    && (f.date.Some? ==> DateOf(b.startAt) == f.date.value)
  }

  /** BookingRepository.GetAllSpecAsync before paging: the matching rows, in storage order. */
  function Select(bookings: seq<Booking>, f: BookingFilter): (r: seq<Booking>)
    ensures |r| <= |bookings|
    ensures forall b :: b in r <==> b in bookings && Matches(f, b)
  {
    if bookings == [] then []
    else (if Matches(f, bookings[0]) then [bookings[0]] else []) + Select(bookings[1..], f)
  }

  /** The filter for the confirmed bookings of one service on one date. */
  function ConfirmedOn(businessId: int, serviceId: int, day: nat): BookingFilter {
    BookingFilter(Some(businessId), Some(serviceId), None, Some(Confirmed.Name()), Some(day))
  }

  function Min(a: int, b: int): int {
    if a <= b then a else b
  }

  /** LINQ Skip(skip).Take(take), and SQL OFFSET/FETCH. */
  function Page<T>(s: seq<T>, skip: nat, take: nat): (r: seq<T>)
    ensures |r| == if skip >= |s| then 0 else Min(take, |s| - skip)
    ensures forall i :: 0 <= i < |r| ==> r[i] == s[skip + i]
  {
    if skip >= |s| then [] else s[skip..skip + Min(take, |s| - skip)]
  }

  /**
   * The paging bounds of GetMyServicesAsync and GetMyBookingsAsync:
   * `skip < 0 || skip >= 100 || take <= 0 || take >= 100` is refused.
   */
  predicate SmallPageOk(skip: int, take: int) {
    0 <= skip < 100 && 0 < take < 100
  }

  /** A page of `Select` holds at most `take` rows, each stored and matching the filter. */
  lemma SelectPageBounds(bookings: seq<Booking>, f: BookingFilter, skip: nat, take: nat)
    ensures |Page(Select(bookings, f), skip, take)| <= take
    ensures forall b :: b in Page(Select(bookings, f), skip, take) ==> b in bookings && Matches(f, b)
  {
    var all := Select(bookings, f);
    var p := Page(all, skip, take);
    forall b | b in p ensures b in bookings && Matches(f, b) {
      var i :| 0 <= i < |p| && p[i] == b;
      assert b == all[skip + i];
    }
  }

  /** ServiceRepository.UpdateAsync: every row with the id gets the new value. */
  function ReplaceService(services: seq<Service>, id: int, s: Service): (r: seq<Service>)
    ensures |r| == |services|
  {
    seq(|services|, i requires 0 <= i < |services| => if services[i].id == id then s else services[i])
  }

  /** BookingRepository.UpdateAsync: every row with the id gets the new value. */
  function ReplaceBooking(bookings: seq<Booking>, id: int, b: Booking): (r: seq<Booking>)
    ensures |r| == |bookings|
  {
    seq(|bookings|, i requires 0 <= i < |bookings| => if bookings[i].id == id then b else bookings[i])
  }

  /** BookingRepository.ConfirmAsync / CancelAsync: sets the status of the rows with the id. */
  function SetStatus(bookings: seq<Booking>, id: int, st: BookingStatus): (r: seq<Booking>)
    ensures |r| == |bookings|
  {
    seq(|bookings|, i requires 0 <= i < |bookings| =>
      if bookings[i].id == id then bookings[i].(status := st) else bookings[i])
  }

  /** BookingRepository.DeleteAsync: the rows with the id are removed. */
  function RemoveBooking(bookings: seq<Booking>, id: int): (r: seq<Booking>)
    ensures forall b :: b in r <==> b in bookings && b.id != id
    ensures |r| <= |bookings|
  {
    if bookings == [] then []
    else (if bookings[0].id != id then [bookings[0]] else []) + RemoveBooking(bookings[1..], id)
  }

  /** A status write changes the status of the rows with that id and nothing else. */
  lemma SetStatusFrame(bookings: seq<Booking>, id: int, st: BookingStatus)
    ensures forall i :: 0 <= i < |bookings| && bookings[i].id != id ==> SetStatus(bookings, id, st)[i] == bookings[i]
    ensures forall i :: 0 <= i < |bookings| && bookings[i].id == id ==>
      SetStatus(bookings, id, st)[i] == bookings[i].(status := st)
  {
  }

  /** After a status write, the booking with that id reads back with the new status. */
  lemma {:induction false} FindAfterSetStatus(bookings: seq<Booking>, id: int, st: BookingStatus)
    requires FindBooking(bookings, id).Some?
    ensures FindBooking(SetStatus(bookings, id, st), id) == Some(FindBooking(bookings, id).value.(status := st))
  {
    var r := SetStatus(bookings, id, st);
    if bookings[0].id != id {
      assert r[1..] == SetStatus(bookings[1..], id, st);
      FindAfterSetStatus(bookings[1..], id, st);
    }
  }

  /** After a service write, the service with that id reads back as the value written. */
  lemma {:induction false} FindAfterReplaceService(services: seq<Service>, id: int, s: Service)
    requires s.id == id && FindService(services, id).Some?
    ensures FindService(ReplaceService(services, id, s), id) == Some(s)
  {
    var r := ReplaceService(services, id, s);
    if services[0].id != id {
      assert r[1..] == ReplaceService(services[1..], id, s);
      FindAfterReplaceService(services[1..], id, s);
    }
  }

  /** A service write keeps every other row and, with a positive duration, the store valid. */
  lemma ReplaceServiceFrame(services: seq<Service>, id: int, s: Service)
    ensures forall i :: 0 <= i < |services| && services[i].id != id ==> ReplaceService(services, id, s)[i] == services[i]
    ensures s.durationMin > 0 && (forall i :: 0 <= i < |services| ==> services[i].durationMin > 0)
      ==> forall i :: 0 <= i < |services| ==> ReplaceService(services, id, s)[i].durationMin > 0
  {
  }

  /** After a booking write, the booking with that id reads back as the value written. */
  lemma {:induction false} FindAfterReplaceBooking(bookings: seq<Booking>, id: int, b: Booking)
    requires b.id == id && FindBooking(bookings, id).Some?
    ensures FindBooking(ReplaceBooking(bookings, id, b), id) == Some(b)
  {
    var r := ReplaceBooking(bookings, id, b);
    if bookings[0].id != id {
      assert r[1..] == ReplaceBooking(bookings[1..], id, b);
      FindAfterReplaceBooking(bookings[1..], id, b);
    }
  }

  /** A booking write keeps every row of another id. */
  lemma ReplaceBookingFrame(bookings: seq<Booking>, id: int, b: Booking)
    ensures forall i :: 0 <= i < |bookings| && bookings[i].id != id ==> ReplaceBooking(bookings, id, b)[i] == bookings[i]
    ensures forall i :: 0 <= i < |bookings| && bookings[i].id == id ==> ReplaceBooking(bookings, id, b)[i] == b
  {
  }

  /** A row appended under a fresh id is the one found by that id. */
  lemma {:induction false} FindAppendedService(services: seq<Service>, s: Service)
    requires forall i :: 0 <= i < |services| ==> services[i].id != s.id
    ensures FindService(services + [s], s.id) == Some(s)
  {
    if services != [] {
      assert (services + [s])[1..] == services[1..] + [s];
      FindAppendedService(services[1..], s);
    }
  }

  /** ServiceRepository.DeleteAsync: the rows with the id are removed. */
  function RemoveService(services: seq<Service>, id: int): (r: seq<Service>)
    ensures forall s :: s in r <==> s in services && s.id != id
    ensures |r| <= |services|
  {
    if services == [] then []
    else (if services[0].id != id then [services[0]] else []) + RemoveService(services[1..], id)
  }

  /** Removing services keeps the store valid, and the id is gone. */
  lemma RemoveServiceValid(db: Db, id: int)
    requires ValidDb(db)
    ensures ValidDb(db.(services := RemoveService(db.services, id)))
    ensures FindService(RemoveService(db.services, id), id).None?
  {
    var r := RemoveService(db.services, id);
    forall i | 0 <= i < |r| ensures r[i].durationMin > 0 && r[i].id != id {
      assert r[i] in r;
      var j :| 0 <= j < |db.services| && db.services[j] == r[i];
    }
  }

  /** The identity the database gives a new booking: above every id in use. */
  function NextBookingId(bookings: seq<Booking>): (r: int)
    ensures r > 0
    ensures forall i :: 0 <= i < |bookings| ==> bookings[i].id < r
  {
    if bookings == [] then 1
    else
      var rest := NextBookingId(bookings[1..]);
      assert forall i :: 1 <= i < |bookings| ==> bookings[i] == bookings[1..][i - 1];
      if bookings[0].id >= rest then bookings[0].id + 1 else rest
  }

  /** The identity the database gives a new service: above every id in use (its own table, as for bookings). */
  function NextServiceId(services: seq<Service>): (r: int)
    ensures r > 0
    ensures forall i :: 0 <= i < |services| ==> services[i].id < r
  {
    if services == [] then 1
    else
      var rest := NextServiceId(services[1..]);
      assert forall i :: 1 <= i < |services| ==> services[i] == services[1..][i - 1];
      if services[0].id >= rest then services[0].id + 1 else rest
  }

  /** The identity the database gives a new business: a positive id not in use. */
  method NextBusinessId(ids: set<int>) returns (r: int)
    ensures r > 0 && r !in ids
    ensures forall k :: k in ids ==> k < r
  {
    r := 1;
    var left := ids;
    while left != {}
      invariant left <= ids && r > 0
      invariant forall k :: k in ids && k !in left ==> k < r
      decreases left
    {
      assert exists x :: x in left by {
        // a set without members would equal {}, which the loop guard excludes
        if forall x :: x !in left {
          assert false;
        }
      }
      var k :| k in left;
      if k >= r {
        r := k + 1;
      }
      left := left - {k};
    }
  }
}

/**
 * The business-side rules: the booking decision state machine, service
 * deactivation and creation, business name validation, the guards of the
 * calendar and of the listings, and the assembly of a day's bookings with
 * their customers.
 */
module Management {
  import opened Clock
  import opened Text
  import opened Model

  // ---------------------------------------------------------------------------
  // DecideBookingAsync

  /** What a decision answers, and the status it writes, if it writes one. */
  datatype Decision = Decision(status: Status, write: Option<BookingStatus>)

  /** The decision on a booking in status `current`, once the guards have passed. */
  function Decide(current: BookingStatus, confirm: bool): Decision {
    if confirm then
      if current == Confirmed then Decision(Success, None)
      else if current == Cancelled then Decision(AlreadyCanceled, None)
      else Decision(Success, Some(Confirmed))
    else if current == Cancelled then Decision(Success, None)
    else Decision(Success, Some(Cancelled))
  }

  /** The booking's status once the decision is applied. */
  function After(current: BookingStatus, d: Decision): BookingStatus {
    if d.write.Some? then d.write.value else current
  }

  /**
   * The state machine: a confirm succeeds unless the booking is cancelled, in
   * which case it answers AlreadyCanceled; a cancel always succeeds. A successful
   * decision leaves the booking in the requested state, a refused one leaves it
   * as it was, and a write happens only when the status actually changes.
   */
  lemma DecideStateMachine(current: BookingStatus, confirm: bool)
    ensures var d := Decide(current, confirm);
      && (d.status == AlreadyCanceled <==> confirm && current == Cancelled)
      && (d.status != AlreadyCanceled ==> d.status == Success)
      && (d.status == Success ==> After(current, d) == if confirm then Confirmed else Cancelled)
      && (d.status != Success ==> After(current, d) == current)
      && (d.write.Some? <==> After(current, d) != current)
  {
  }

  /** Deciding the same way twice: the second decision answers the same and writes nothing. */
  lemma DecideIdempotent(current: BookingStatus, confirm: bool)
    ensures var d := Decide(current, confirm);
      Decide(After(current, d), confirm) == Decision(d.status, None)
  {
  }

  /** Cancelled is final: no decision moves a booking out of it. */
  lemma CancelledIsFinal(confirm: bool)
    ensures After(Cancelled, Decide(Cancelled, confirm)) == Cancelled
    ensures Decide(Cancelled, confirm).write.None?
  {
  }

  /** DecideBookingAsync with its guards: ids, existence, tenant. */
  function DecideCheck(db: Db, businessId: int, bookingId: int, confirm: bool): Decision {
    if businessId <= 0 || bookingId <= 0 then Decision(ValidationError, None)
    else match FindBooking(db.bookings, bookingId)
      case None => Decision(InvalidBooking, None)
      case Some(b) =>
        if b.businessId != businessId then Decision(ValidationError, None)
        else Decide(b.status, confirm)
  }

  /** The bookings once a decision is applied. */
  function Decided(db: Db, bookingId: int, d: Decision): seq<Booking> {
    if d.write.Some? then SetStatus(db.bookings, bookingId, d.write.value) else db.bookings
  }

  /**
   * A guard that fails writes nothing: non-positive ids and a booking of another
   * business answer ValidationError, a missing booking InvalidBooking.
   */
  lemma DecideGuards(db: Db, businessId: int, bookingId: int, confirm: bool)
    ensures var d := DecideCheck(db, businessId, bookingId, confirm);
      && (businessId <= 0 || bookingId <= 0 ==> d == Decision(ValidationError, None))
      && (businessId > 0 && bookingId > 0 && FindBooking(db.bookings, bookingId).None? ==> d == Decision(InvalidBooking, None))
      && ((businessId > 0 && bookingId > 0 && FindBooking(db.bookings, bookingId).Some?
           && FindBooking(db.bookings, bookingId).value.businessId != businessId)
          ==> d == Decision(ValidationError, None))
      && (d.write.Some? ==>
            (d.status == Success && FindBooking(db.bookings, bookingId).Some?
             && FindBooking(db.bookings, bookingId).value.businessId == businessId))
  {
  }

  /**
   * Against the store: deciding the same way twice answers the same both times,
   * and the second time writes nothing.
   */
  lemma {:induction false} DecideTwice(db: Db, businessId: int, bookingId: int, confirm: bool)
    ensures var d := DecideCheck(db, businessId, bookingId, confirm);
      var db' := db.(bookings := Decided(db, bookingId, d));
      DecideCheck(db', businessId, bookingId, confirm) == Decision(d.status, None)
  {
    var d := DecideCheck(db, businessId, bookingId, confirm);
    if d.write.Some? {
      FindAfterSetStatus(db.bookings, bookingId, d.write.value);
      DecideIdempotent(FindBooking(db.bookings, bookingId).value.status, confirm);
    }
  }

  // ---------------------------------------------------------------------------
  // DeactivateServiceAsync

  function DeactivateCheck(db: Db, businessId: int, serviceId: int): Status {
    if businessId <= 0 || serviceId <= 0 then ValidationError
    else match FindService(db.services, serviceId)
      case None => InvalidService
      case Some(s) =>
        if s.businessId != businessId then ValidationError
        else if !s.isActive then ValidationError
        else Success
  }

  /** The services once the service is written back with IsActive = false. */
  function Deactivated(db: Db, serviceId: int): seq<Service>
    requires FindService(db.services, serviceId).Some?
  {
    ReplaceService(db.services, serviceId, FindService(db.services, serviceId).value.(isActive := false))
  }

  /**
   * Deactivation is one-way: a successful deactivate leaves the service inactive
   * with its other fields, keeps the store valid, and a second deactivate answers
   * ValidationError.
   */
  lemma {:induction false} DeactivateOneWay(db: Db, businessId: int, serviceId: int)
    requires DeactivateCheck(db, businessId, serviceId) == Success
    ensures var s := FindService(db.services, serviceId).value;
      var db' := db.(services := Deactivated(db, serviceId));
      && s.isActive
      && FindService(db'.services, serviceId) == Some(s.(isActive := false))
      && DeactivateCheck(db', businessId, serviceId) == ValidationError
      && (ValidDb(db) ==> ValidDb(db'))
  {
    var s := FindService(db.services, serviceId).value;
    FindAfterReplaceService(db.services, serviceId, s.(isActive := false));
    if ValidDb(db) {
      FoundServiceHasDuration(db, serviceId);
      ReplaceServiceFrame(db.services, serviceId, s.(isActive := false));
    }
  }

  // ---------------------------------------------------------------------------
  // AddServiceAsync

  /** ServiceDto as far as AddServiceAsync reads it. */
  datatype ServiceRequest = ServiceRequest(name: string, durationMin: int, price: int)

  function AddServiceCheck(db: Db, businessId: int, req: Option<ServiceRequest>): Status {
    if businessId <= 0 then InvalidBusiness
    else if req.None? then ValidationError
    else if IsBlank(req.value.name) then ValidationError
    else if req.value.durationMin <= 0 then ValidationError
    else if req.value.price < 0 then ValidationError
    else if businessId !in db.businesses then InvalidBusiness
    else Success
  }

  /** The row AddServiceAsync stores: the trimmed name, active. */
  function NewService(db: Db, businessId: int, req: ServiceRequest): Service {
    Service(NextServiceId(db.services), businessId, Trim(req.name), req.durationMin, req.price, true)
  }

  /**
   * What an admitted service looks like: of the business, active, a positive
   * duration, a non-negative price, and a name that is the request's trimmed and
   * neither empty nor padded. It is found under its new id and keeps the store valid.
   */
  lemma {:induction false} AddedServiceWellFormed(db: Db, businessId: int, req: Option<ServiceRequest>)
    requires AddServiceCheck(db, businessId, req) == Success
    ensures req.Some?
    ensures var s := NewService(db, businessId, req.value);
      && s.businessId == businessId > 0 && businessId in db.businesses
      && s.isActive && s.durationMin > 0 && s.price >= 0
      && s.name != [] && !IsWhiteSpace(s.name[0]) && !IsWhiteSpace(s.name[|s.name| - 1])
      && s.name == Trim(req.value.name)
      && FindService(db.services + [s], s.id) == Some(s)
      && (ValidDb(db) ==> ValidDb(db.(services := db.services + [s])))
  {
    var s := NewService(db, businessId, req.value);
    FindAppendedService(db.services, s);
  }

  // ---------------------------------------------------------------------------
  // CreateBusinessAsync and UpdateBusinessByIdAsync

  /** The stored form of a business: the name trimmed, the other fields as given. */
  function Normalized(dto: Business): Business {
    dto.(name := Trim(dto.name))
  }

  function CreateBusinessCheck(dto: Business): Status {
    if IsBlank(dto.name) then ValidationError else Success
  }

  function UpdateBusinessCheck(db: Db, id: int, dto: Business): Status {
    if IsBlank(dto.name) then ValidationError
    else if id !in db.businesses then InvalidBusiness
    else Success
  }

  /**
   * A business is accepted exactly when its name has a non-blank character; the
   * stored name is then non-empty and unpadded, storing is idempotent, and every
   * other field is kept.
   */
  lemma NormalizedBusiness(dto: Business)
    ensures CreateBusinessCheck(dto) == Success <==> Trim(dto.name) != []
    ensures CreateBusinessCheck(dto) == Success ==>
      var b := Normalized(dto);
      && b.name != [] && !IsWhiteSpace(b.name[0]) && !IsWhiteSpace(b.name[|b.name| - 1])
      && Normalized(b) == b
      && b.email == dto.email && b.phone == dto.phone
      && b.timeZone == dto.timeZone && b.settingsJson == dto.settingsJson
  {
    TrimIdempotent(dto.name);
  }

  // ---------------------------------------------------------------------------
  // GetMonthlyCalendarAsync

  /** The guards of the business-side calendar, in order; UnknownError for a month DateTime and DateOnly refuse. */
  function CalendarCheck(db: Db, businessId: int, serviceId: int, year: int, month: int): Status {
    if businessId <= 0 then InvalidBusiness
    else if serviceId <= 0 then InvalidService
    else if businessId !in db.businesses then InvalidBusiness
    else match FindService(db.services, serviceId)
      case None => InvalidService
      case Some(s) =>
        if s.businessId != businessId then ValidationError
        else if !s.isActive then InvalidStatus
        else if !CalendarMonthOk(year, month) then UnknownError
        else Success
  }

  /** A calendar that passes its guards is for an active service of that business. */
  lemma CalendarAdmits(db: Db, businessId: int, serviceId: int, year: int, month: int)
    ensures CalendarCheck(db, businessId, serviceId, year, month) == Success <==>
      && businessId > 0 && serviceId > 0 && businessId in db.businesses
      && FindService(db.services, serviceId).Some?
      && FindService(db.services, serviceId).value.businessId == businessId
      && FindService(db.services, serviceId).value.isActive
      && CalendarMonthOk(year, month)
  {
  }

  // ---------------------------------------------------------------------------
  // Listings: GetMyServicesAsync, GetBookingsAsync, GetDailyBookingsAsync

  /** ServiceRepository.GetAllAsync(0, 100000): only this many rows are read. */
  const ServiceReadLimit: nat := 100000

  /** GetBookingsAsync: `skip < 0 || skip >= 1000 || take <= 0 || take > 1000` is refused. */
  predicate BookingPageOk(skip: int, take: int) {
    0 <= skip < 1000 && 0 < take <= 1000
  }

  /** GetDailyBookingsAsync: `skip < 0 || take <= 0 || take > 500` is refused. */
  predicate DailyPageOk(skip: int, take: int) {
    0 <= skip && 0 < take <= 500
  }

  /** `Where(s => s.BusinessId == businessId)`. */
  function OfBusiness(services: seq<Service>, businessId: int): (r: seq<Service>)
    ensures |r| <= |services|
    ensures forall s :: s in r <==> s in services && s.businessId == businessId
  {
    if services == [] then []
    else (if services[0].businessId == businessId then [services[0]] else []) + OfBusiness(services[1..], businessId)
  }

  /** The page GetMyServicesAsync lists. */
  function ServicePage(db: Db, businessId: int, skip: nat, take: nat): seq<Service> {
    var read := db.services[..Min(|db.services|, ServiceReadLimit)];
    Page(OfBusiness(read, businessId), skip, take)
  }

  /** A service page holds at most `take` services, all of the business, all stored. */
  lemma ServicePageBounds(db: Db, businessId: int, skip: nat, take: nat)
    ensures |ServicePage(db, businessId, skip, take)| <= take
    ensures forall s :: s in ServicePage(db, businessId, skip, take) ==> s.businessId == businessId && s in db.services
  {
    var read := db.services[..Min(|db.services|, ServiceReadLimit)];
    var all := OfBusiness(read, businessId);
    var p := Page(all, skip, take);
    forall s | s in p ensures s.businessId == businessId && s in db.services {
      var i :| 0 <= i < |p| && p[i] == s;
      assert s == all[skip + i];
    }
  }

  /** The filter GetBookingsAsync builds: a blank status filters nothing. */
  function BookingsFilter(businessId: int, serviceId: Option<int>, status: Option<string>, date: Option<nat>): BookingFilter {
    BookingFilter(Some(businessId), serviceId, None,
      if status.None? || IsBlank(status.value) then None else status, date)
  }

  /** The guards of GetDailyBookingsAsync, in order. */
  function DailyBookingsCheck(db: Db, businessId: int, serviceId: int, skip: int, take: int): Status {
    if businessId <= 0 then InvalidBusiness
    else if serviceId <= 0 then InvalidService
    else if !DailyPageOk(skip, take) then ValidationError
    else if businessId !in db.businesses then InvalidBusiness
    else match FindService(db.services, serviceId)
      case None => InvalidService
      case Some(s) => if s.businessId != businessId then ValidationError else Success
  }

  /** The filter of one service's bookings on one date, in any status. */
  function DayOf(businessId: int, serviceId: int, day: nat): BookingFilter {
    BookingFilter(Some(businessId), Some(serviceId), None, None, Some(day))
  }

  /** CustomerShortDto. */
  datatype CustomerShort = CustomerShort(customerId: int, fullName: string, email: Option<string>, phone: Option<string>)

  /** BookingWithCustomerDto: the booking's fields with its customer in short form. */
  datatype BookingWithCustomer = BookingWithCustomer(booking: Booking, customer: CustomerShort)

  /** The customer summary of a booking; a customer that is gone shows its id and an empty name. */
  function ShortOf(customers: map<int, Customer>, customerId: int): CustomerShort {
    if customerId in customers then
      var c := customers[customerId];
      CustomerShort(customerId, c.fullName, c.email, c.phone)
    else CustomerShort(customerId, "", None, None)
  }

  /** `Select(b => b.CustomerId).Distinct()`: each customer id once, in first-seen order. */
  function DistinctCustomers(bookings: seq<Booking>): (r: seq<int>)
    ensures forall c :: c in r <==> exists i :: 0 <= i < |bookings| && bookings[i].customerId == c
    ensures forall i, j :: 0 <= i < j < |r| ==> r[i] != r[j]
    decreases |bookings|
  {
    if bookings == [] then []
    else
      var prefix := DistinctCustomers(bookings[..|bookings| - 1]);
      var c := bookings[|bookings| - 1].customerId;
      assert forall i :: 0 <= i < |bookings| - 1 ==> bookings[..|bookings| - 1][i] == bookings[i];
      if c in prefix then prefix else prefix + [c]
  }
}

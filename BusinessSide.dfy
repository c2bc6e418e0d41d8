/**
 * BusinessService: a business's own profile and services, its monthly
 * calendar, its booking listings and its decisions on bookings.
 */
module BusinessSide {
  import opened Clock
  import opened Text
  import opened Model
  import opened Repository
  import opened Availability
  import opened Management

  class BusinessService {
    const store: Store

    constructor (store: Store)
      ensures this.store == store
    {
      this.store := store;
    }

    /** CreateBusinessAsync: a business with a non-blank name is stored, name trimmed, under a new id. */
    method CreateBusiness(dto: Business) returns (status: Status, id: int)
      requires store.Valid()
      modifies store
      ensures store.Valid()
      ensures status == CreateBusinessCheck(dto)
      ensures status != Success ==> store.Snapshot() == old(store.Snapshot())
      ensures status == Success ==>
        && id > 0 && id !in old(store.businesses)
        && store.Snapshot() == old(store.Snapshot()).(businesses := old(store.businesses)[id := Normalized(dto)])
    {
      id := 0;
      if IsBlank(dto.name) {
        return ValidationError, 0;
      }
      var entity := dto.(name := Trim(dto.name));
      id := NextBusinessId(store.businesses.Keys);
      store.businesses := store.businesses[id := entity];
      status := Success;
    }

    /** UpdateBusinessByIdAsync: an existing business is overwritten, name trimmed. */
    method UpdateBusinessById(id: int, dto: Business) returns (status: Status)
      requires store.Valid()
      modifies store
      ensures store.Valid()
      ensures status == UpdateBusinessCheck(old(store.Snapshot()), id, dto)
      ensures status != Success ==> store.Snapshot() == old(store.Snapshot())
      ensures status == Success ==>
        && id in old(store.businesses)
        && store.Snapshot() == old(store.Snapshot()).(businesses := old(store.businesses)[id := Normalized(dto)])
    {
      if IsBlank(dto.name) {
        return ValidationError;
      }
      if id !in store.businesses {
        return InvalidBusiness;
      }
      var existing := store.businesses[id];
      existing := existing.(name := Trim(dto.name), email := dto.email, phone := dto.phone,
        timeZone := dto.timeZone, settingsJson := dto.settingsJson);
      store.businesses := store.businesses[id := existing];
      return Success;
    }

    /** GetBusinessByIdAsync: the stored business, or InvalidBusiness. */
    method GetBusinessById(id: int) returns (status: Status, business: Option<Business>)
      ensures status == Success <==> id in store.businesses
      ensures status != Success ==> status == InvalidBusiness && business.None?
      ensures status == Success ==> business == Some(store.businesses[id])
    {
      if id !in store.businesses {
        return InvalidBusiness, None;
      }
      return Success, Some(store.businesses[id]);
    }

    /** DeleteAsync: an existing business is removed; nothing else is touched. */
    method DeleteBusiness(businessId: int) returns (status: Status)
      requires store.Valid()
      modifies store
      ensures store.Valid()
      ensures status == (if businessId in old(store.businesses) then Success else InvalidBusiness)
      ensures status != Success ==> store.Snapshot() == old(store.Snapshot())
      ensures status == Success ==>
        store.Snapshot() == old(store.Snapshot()).(businesses := old(store.businesses) - {businessId})
    {
      if businessId !in store.businesses {
        return InvalidBusiness;
      }
      store.businesses := store.businesses - {businessId};
      return Success;
    }

    /** DeleteService: an existing service id is removed; a non-positive or unknown id is InvalidService. */
    method DeleteService(id: int) returns (status: Status)
      requires store.Valid()
      modifies store
      ensures store.Valid()
      ensures status == (if id > 0 && FindService(old(store.services), id).Some? then Success else InvalidService)
      ensures status != Success ==> store.Snapshot() == old(store.Snapshot())
      ensures status == Success ==>
        && store.Snapshot() == old(store.Snapshot()).(services := RemoveService(old(store.services), id))
        && FindService(store.services, id).None?
    {
      if id <= 0 {
        return InvalidService;
      }
      var existing := FindService(store.services, id);
      if existing.None? {
        return InvalidService;
      }
      RemoveServiceValid(store.Snapshot(), id);
      store.services := RemoveService(store.services, id);
      return Success;
    }

    /** AddServiceAsync: a valid request becomes an active service of the business. */
    method AddService(businessId: int, req: Option<ServiceRequest>) returns (status: Status, created: Option<Service>)
      requires store.Valid()
      modifies store
      ensures store.Valid()
      ensures status == AddServiceCheck(old(store.Snapshot()), businessId, req)
      ensures status != Success ==> created.None? && store.Snapshot() == old(store.Snapshot())
      ensures status == Success ==>
        && req.Some?
        && created == Some(NewService(old(store.Snapshot()), businessId, req.value))
        && store.Snapshot() == old(store.Snapshot()).(services := old(store.services) + [created.value])
    {
      if businessId <= 0 {
        return InvalidBusiness, None;
      }
      if req.None? {
        return ValidationError, None;
      }
      var service := req.value;
      if IsBlank(service.name) {
        return ValidationError, None;
      }
      if service.durationMin <= 0 {
        return ValidationError, None;
      }
      if service.price < 0 {
        return ValidationError, None;
      }
      if businessId !in store.businesses {
        return InvalidBusiness, None;
      }
      var entity := Service(NextServiceId(store.services), businessId, Trim(service.name),
        service.durationMin, service.price, true);
      store.services := store.services + [entity];
      return Success, Some(entity);
    }

    /** GetMyServicesAsync: one page of the business's services among the first rows read. */
    method GetMyServices(businessId: int, skip: int, take: int) returns (status: Status, services: seq<Service>)
      ensures status == (if businessId <= 0 then InvalidBusiness
                         else if !SmallPageOk(skip, take) then ValidationError
                         else Success)
      ensures status != Success ==> services == []
      ensures status == Success ==>
        && services == ServicePage(store.Snapshot(), businessId, skip, take)
        && |services| <= take
        && forall s :: s in services ==> s in store.services && s.businessId == businessId
    {
      if businessId <= 0 {
        return InvalidBusiness, [];
      }
      if skip < 0 || skip >= 100 || take <= 0 || take >= 100 {
        return ValidationError, [];
      }
      var all := store.services[..Min(|store.services|, ServiceReadLimit)];
      services := Page(OfBusiness(all, businessId), skip, take);
      ServicePageBounds(store.Snapshot(), businessId, skip, take);
      status := Success;
    }

    /**
     * DeactivateServiceAsync: an active service of the business is written back
     * inactive; every refusal answers without writing.
     */
    method DeactivateService(businessId: int, serviceId: int) returns (status: Status)
      requires store.Valid()
      modifies store
      ensures store.Valid()
      ensures status == DeactivateCheck(old(store.Snapshot()), businessId, serviceId)
      ensures status != Success ==> store.Snapshot() == old(store.Snapshot())
      ensures status == Success ==>
        store.Snapshot() == old(store.Snapshot()).(services := Deactivated(old(store.Snapshot()), serviceId))
    {
      if businessId <= 0 || serviceId <= 0 {
        return ValidationError;
      }
      var found := FindService(store.services, serviceId);
      if found.None? {
        return InvalidService;
      }
      var service := found.value;
      if service.businessId != businessId {
        return ValidationError;
      }
      if !service.isActive {
        return ValidationError;
      }
      DeactivateOneWay(store.Snapshot(), businessId, serviceId);
      service := service.(isActive := false);
      store.services := ReplaceService(store.services, serviceId, service);
      return Success;
    }

    /**
     * GetMonthlyCalendarAsync: on success one entry per day of the month, in day
     * order, each the day's availability.
     */
    method GetMonthlyCalendar(businessId: int, serviceId: int, month: int, year: int, today: nat, counts: map<nat, int>)
      returns (status: Status, days: seq<DayAvailability>)
      ensures status == CalendarCheck(store.Snapshot(), businessId, serviceId, year, month)
      ensures status != Success ==> days == []
      ensures status == Success ==>
        && CalendarMonthOk(year, month)
        && FindService(store.services, serviceId).Some?
        && |days| == DaysInMonth(year, month)
        && (forall i :: 0 <= i < |days| ==> days[i].day == i + 1)
        && (forall i :: 0 <= i < |days| ==> !days[i].isOpen ==> !days[i].hasFreeSlots)
        && forall i :: 0 <= i < |days| ==>
             days[i] == BusinessDay(DayNumber(year, month, i + 1), i + 1, today,
               HolidayDates(store.Snapshot(), businessId), WeekHours(store.Snapshot(), businessId),
               FindService(store.services, serviceId).value.durationMin, counts)
    {
      if businessId <= 0 {
        return InvalidBusiness, [];
      }
      if serviceId <= 0 {
        return InvalidService, [];
      }
      if businessId !in store.businesses {
        return InvalidBusiness, [];
      }
      var found := FindService(store.services, serviceId);
      if found.None? {
        return InvalidService, [];
      }
      var service := found.value;
      if service.businessId != businessId {
        return ValidationError, [];
      }
      if !service.isActive {
        return InvalidStatus, [];
      }
      if !CalendarMonthOk(year, month) {
        return UnknownError, [];
      }
      var holidays := HolidayDates(store.Snapshot(), businessId);
      var weekHours := WeekHours(store.Snapshot(), businessId);
      days := BusinessMonth(year, month, today, holidays, weekHours, service.durationMin, counts);
      status := Success;
    }

    /**
     * GetDailyBookingsAsync: one page of a service's bookings on a date, in any
     * status, each with its customer's summary.
     */
    method GetDailyBookings(businessId: int, serviceId: int, day: nat, skip: int, take: int)
      returns (status: Status, items: seq<BookingWithCustomer>)
      ensures status == DailyBookingsCheck(store.Snapshot(), businessId, serviceId, skip, take)
      ensures status != Success ==> items == []
      ensures status == Success ==>
        var page := Page(Select(store.bookings, DayOf(businessId, serviceId, day)), skip, take);
        && |items| == |page| <= take
        && forall i :: 0 <= i < |items| ==>
             items[i] == BookingWithCustomer(page[i], ShortOf(store.customers, page[i].customerId))
    {
      if businessId <= 0 {
        return InvalidBusiness, [];
      }
      if serviceId <= 0 {
        return InvalidService, [];
      }
      if skip < 0 || take <= 0 || take > 500 {
        return ValidationError, [];
      }
      if businessId !in store.businesses {
        return InvalidBusiness, [];
      }
      var found := FindService(store.services, serviceId);
      if found.None? {
        return InvalidService, [];
      }
      if found.value.businessId != businessId {
        return ValidationError, [];
      }
      var bookingList := Page(Select(store.bookings, DayOf(businessId, serviceId, day)), skip, take);
      if |bookingList| == 0 {
        return Success, [];
      }
      var customerIds := DistinctCustomers(bookingList);
      var customersDict: map<int, Customer> := map[];
      for k := 0 to |customerIds|
        invariant forall c :: c in customersDict <==> c in customerIds[..k] && c in store.customers
        invariant forall c :: c in customersDict ==> customersDict[c] == store.customers[c]
      {
        var cid := customerIds[k];
        if cid in store.customers {
          customersDict := customersDict[cid := store.customers[cid]];
        }
        assert customerIds[..k + 1] == customerIds[..k] + [cid];
      }
      assert customerIds[..|customerIds|] == customerIds;
      items := [];
      for k := 0 to |bookingList|
        invariant |items| == k
        invariant forall i :: 0 <= i < k ==>
          items[i] == BookingWithCustomer(bookingList[i], ShortOf(store.customers, bookingList[i].customerId))
      {
        var b := bookingList[k];
        assert b.customerId in customerIds;
        var customer := if b.customerId in customersDict then
            var c := customersDict[b.customerId];
            CustomerShort(b.customerId, c.fullName, c.email, c.phone)
          else CustomerShort(b.customerId, "", None, None);
        items := items + [BookingWithCustomer(b, customer)];
      }
      status := Success;
    }

    /** GetBookingsAsync: one page of the business's bookings under the optional filters. */
    method GetBookings(businessId: int, serviceId: Option<int>, statusFilter: Option<string>, date: Option<nat>, skip: int, take: int)
      returns (status: Status, bookings: seq<Booking>)
      ensures status == (if businessId <= 0 then InvalidBusiness
                         else if !BookingPageOk(skip, take) then ValidationError
                         else if businessId !in store.businesses then InvalidBusiness
                         else Success)
      ensures status != Success ==> bookings == []
      ensures status == Success ==>
        && bookings == Page(Select(store.bookings, BookingsFilter(businessId, serviceId, statusFilter, date)), skip, take)
        && |bookings| <= take
        && forall b :: b in bookings ==>
             (b in store.bookings && b.businessId == businessId
              && (serviceId.Some? ==> b.serviceId == serviceId.value)
              && (date.Some? ==> DateOf(b.startAt) == date.value))
    {
      if businessId <= 0 {
        return InvalidBusiness, [];
      }
      if skip < 0 || skip >= 1000 || take <= 0 || take > 1000 {
        return ValidationError, [];
      }
      if businessId !in store.businesses {
        return InvalidBusiness, [];
      }
      var filter := BookingFilter(Some(businessId), serviceId, None,
        if statusFilter.None? || IsBlank(statusFilter.value) then None else statusFilter, date);
      bookings := Page(Select(store.bookings, filter), skip, take);
      SelectPageBounds(store.bookings, filter, skip, take);
      status := Success;
    }

    /**
     * DecideBookingAsync: confirms or cancels a booking of the business, writing
     * only when the status changes.
     */
    method DecideBooking(businessId: int, bookingId: int, confirm: bool) returns (status: Status)
      requires store.Valid()
      modifies store
      ensures store.Valid()
      ensures status == DecideCheck(old(store.Snapshot()), businessId, bookingId, confirm).status
      ensures store.Snapshot() == old(store.Snapshot()).(bookings :=
        Decided(old(store.Snapshot()), bookingId, DecideCheck(old(store.Snapshot()), businessId, bookingId, confirm)))
    {
      if businessId <= 0 || bookingId <= 0 {
        return ValidationError;
      }
      var found := FindBooking(store.bookings, bookingId);
      if found.None? {
        return InvalidBooking;
      }
      var booking := found.value;
      if booking.businessId != businessId {
        return ValidationError;
      }
      if confirm {
        if booking.status == Confirmed {
          return Success;
        }
        if booking.status == Cancelled {
          return AlreadyCanceled;
        }
        store.bookings := SetStatus(store.bookings, bookingId, Confirmed);
      } else {
        if booking.status == Cancelled {
          return Success;
        }
        store.bookings := SetStatus(store.bookings, bookingId, Cancelled);
      }
      return Success;
    }
  }
}

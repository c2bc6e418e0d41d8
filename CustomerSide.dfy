/**
 * CustomerService: booking, moving, cancelling and deleting a booking, the
 * daily free slots and the monthly calendar, as a customer sees them.
 */
module CustomerSide {
  import opened Clock
  import opened Model
  import opened Repository
  import opened Availability
  import opened Admission

  class CustomerService {
    const store: Store

    constructor (store: Store)
      ensures this.store == store
    {
      this.store := store;
    }

    /**
     * CancelBookingAsync: the owner's booking is set to Cancelled whatever its
     * status; anything else answers without writing.
     */
    method CancelBooking(customerId: int, bookingId: int) returns (status: Status)
      requires store.Valid()
      modifies store
      ensures store.Valid()
      ensures status == CancelCheck(old(store.Snapshot()), customerId, bookingId)
      ensures status != Success ==> store.Snapshot() == old(store.Snapshot())
      ensures status == Success ==>
        store.Snapshot() == old(store.Snapshot()).(bookings := SetStatus(old(store.bookings), bookingId, Cancelled))
    {
      var booking := FindBooking(store.bookings, bookingId);
      if booking.None? {
        return NotFound;
      }
      if customerId !in store.customers {
        return NotFound;
      }
      if booking.value.customerId != customerId {
        return ValidationError;
      }
      store.bookings := SetStatus(store.bookings, bookingId, Cancelled);
      return Success;
    }

    /**
     * CreateBookingAsync: runs the admission checks in order and, when all pass,
     * appends one booking with the start cleared of its milliseconds.
     */
    method CreateBooking(now: nat, customerId: int, req: CreateRequest) returns (status: Status, created: Option<Booking>)
      requires store.Valid()
      modifies store
      ensures store.Valid()
      ensures status == CreateCheck(old(store.Snapshot()), now, customerId, req)
      ensures status != Success ==> created.None? && store.Snapshot() == old(store.Snapshot())
      ensures status == Success ==>
        && FindService(old(store.services), req.serviceId).Some?
        && created == Some(NewBooking(old(store.Snapshot()), customerId, req,
             FindService(old(store.services), req.serviceId).value.durationMin))
        && store.Snapshot() == old(store.Snapshot()).(bookings := old(store.bookings) + [created.value])
    {
      created := None;
      if req.startAt <= now {
        return ValidationError, None;
      }
      var start := DropMilliseconds(req.startAt);
      if customerId !in store.customers {
        return InvalidCustomer, None;
      }
      if req.businessId !in store.businesses {
        return InvalidBusiness, None;
      }
      var found := FindService(store.services, req.serviceId);
      if found.None? {
        return InvalidService, None;
      }
      var service := found.value;
      if service.businessId != req.businessId {
        return ValidationError, None;
      }
      if !service.isActive {
        return InvalidStatus, None;
      }
      FoundServiceHasDuration(store.Snapshot(), req.serviceId);
      var endAt := start + service.durationMin * TicksPerMinute;
      var day := DateOf(start);
      if (req.businessId, day) in store.holidays {
        return Holiday, None;
      }
      var hours := HoursOn(store.Snapshot(), req.businessId, day);
      if hours.None? {
        return NoWorkingHours, None;
      }
      var openAt := At(day, hours.value.openTime);
      var closeAt := At(day, hours.value.closeTime);
      if start < openAt || endAt > closeAt {
        return ValidationError, None;
      }
      if (TimeOfDay(start) - hours.value.openTime) % (service.durationMin * TicksPerMinute) != 0 {
        return ValidationError, None;
      }
      var clientBookings := Select(store.bookings, CustomerOn(req.businessId, req.serviceId, customerId, day));
      if |clientBookings| > 0 {
        return AlreadyExists, None;
      }
      var existing := Select(store.bookings, ConfirmedOn(req.businessId, req.serviceId, day));
      var clash := FindConflict(existing, start, None);
      if clash {
        return AlreadyExists, None;
      }
      var entity := Booking(NextBookingId(store.bookings), req.businessId, req.serviceId, customerId,
        start, endAt, req.status, req.notes);
      store.bookings := store.bookings + [entity];
      return Success, Some(entity);
    }

    /** DeleteBookingAsync: only the owner's booking is removed. */
    method DeleteBooking(customerId: int, bookingId: int) returns (status: Status)
      requires store.Valid()
      modifies store
      ensures store.Valid()
      ensures status == DeleteCheck(old(store.Snapshot()), customerId, bookingId)
      ensures status != Success ==> store.Snapshot() == old(store.Snapshot())
      ensures status == Success ==>
        store.Snapshot() == old(store.Snapshot()).(bookings := RemoveBooking(old(store.bookings), bookingId))
    {
      var booking := FindBooking(store.bookings, bookingId);
      if booking.None? {
        return InvalidBooking;
      }
      if customerId !in store.customers {
        return InvalidCustomer;
      }
      if booking.value.customerId != customerId {
        return ValidationError;
      }
      store.bookings := RemoveBooking(store.bookings, bookingId);
      return Success;
    }

    /**
     * GetDailyFreeSlots: on success the slots of the day's grid that no confirmed
     * booking of the service starts at, in increasing order; Busy with no slots on
     * a holiday or a weekday without hours.
     */
    method GetDailyFreeSlots(businessId: int, serviceId: int, day: nat) returns (status: Status, slots: seq<nat>)
      requires store.Valid()
      ensures status == SlotsCheck(store.Snapshot(), businessId, serviceId, day)
      ensures status != Success ==> slots == []
      ensures status == Success ==> slots == FreeSlotsOf(store.Snapshot(), businessId, serviceId, day)
      ensures status == Success ==> Increasing(slots)
      ensures status == Success ==>
        var h := HoursOn(store.Snapshot(), businessId, day).value;
        var step := FindService(store.services, serviceId).value.durationMin * TicksPerMinute;
        step > 0 && forall t :: t in slots <==>
          OnGrid(h.openTime, h.closeTime, step, t) && t !in BookedTimes(store.Snapshot(), businessId, serviceId, day)
    {
      slots := [];
      if businessId !in store.businesses {
        return InvalidBusiness, [];
      }
      var found := FindService(store.services, serviceId);
      if found.None? {
        return InvalidService, [];
      }
      var service := found.value;
      if service.businessId != businessId {
        return ValidationError, [];
      }
      if !service.isActive {
        return ValidationError, [];
      }
      if (businessId, day) in store.holidays {
        return Busy, [];
      }
      var hours := HoursOn(store.Snapshot(), businessId, day);
      if hours.None? {
        return Busy, [];
      }
      var bookings := Select(store.bookings, ConfirmedOn(businessId, serviceId, day));
      var bookedSlots := set b | b in bookings :: TimeOfDay(b.startAt);
      FoundServiceHasDuration(store.Snapshot(), serviceId);
      slots := FreeSlots(hours.value.openTime, hours.value.closeTime, service.durationMin, bookedSlots);
      status := Success;
    }

    /**
     * GetMonthlyCalendar: on success one entry per day of the month, the same
     * entries the business-side calendar computes.
     */
    method GetMonthlyCalendar(businessId: int, serviceId: int, month: int, year: int, today: nat, counts: map<nat, int>)
      returns (status: Status, days: seq<DayAvailability>)
      requires store.Valid()
      ensures status == CalendarStatus(store.Snapshot(), businessId, serviceId, year, month, today, counts)
      ensures status == CalendarCheck(store.Snapshot(), businessId, serviceId, year, month)
      ensures status != Success ==> days == []
      ensures status == Success ==>
        && CalendarMonthOk(year, month)
        && FindService(store.services, serviceId).Some?
        && |days| == DaysInMonth(year, month)
        && forall i :: 0 <= i < |days| ==>
             days[i] == BusinessDay(DayNumber(year, month, i + 1), i + 1, today,
               HolidayDates(store.Snapshot(), businessId), WeekHours(store.Snapshot(), businessId),
               FindService(store.services, serviceId).value.durationMin, counts)
    {
      CalendarNeverDividesByZero(store.Snapshot(), businessId, serviceId, year, month, today, counts);
      days := [];
      if businessId !in store.businesses {
        return InvalidBusiness, [];
      }
      var found := FindService(store.services, serviceId);
      if found.None? {
        return InvalidService, [];
      }
      var service := found.value;
      if service.businessId != businessId {
        return ValidationError, [];
      }
      if !service.isActive {
        return InvalidStatus, [];
      }
      if !CalendarMonthOk(year, month) {
        return UnknownError, [];
      }
      var holidays := HolidayDates(store.Snapshot(), businessId);
      var weekHours := WeekHours(store.Snapshot(), businessId);
      var calendar := CustomerMonth(year, month, today, holidays, weekHours, service.durationMin, counts);
      if calendar.None? {
        return UnknownError, [];
      }
      FoundServiceHasDuration(store.Snapshot(), serviceId);
      forall i | 0 <= i < |calendar.value|
        ensures calendar.value[i] == BusinessDay(DayNumber(year, month, i + 1), i + 1, today, holidays, weekHours, service.durationMin, counts)
      {
        CustomerDayAgrees(DayNumber(year, month, i + 1), i + 1, today, holidays, weekHours, service.durationMin, counts);
      }
      return Success, calendar.value;
    }

    /** GetMyBookingsAsync: one page of the customer's bookings. */
    method GetMyBookings(customerId: int, skip: int, take: int) returns (status: Status, bookings: seq<Booking>)
      ensures status == (if SmallPageOk(skip, take) then Success else ValidationError)
      ensures status != Success ==> bookings == []
      ensures status == Success ==>
        && bookings == Page(Select(store.bookings, BookingFilter(None, None, Some(customerId), None, None)), skip, take)
        && |bookings| <= take
        && forall b :: b in bookings ==> b in store.bookings && b.customerId == customerId
    {
      if skip < 0 || skip >= 100 || take <= 0 || take >= 100 {
        return ValidationError, [];
      }
      var filter := BookingFilter(None, None, Some(customerId), None, None);
      bookings := Page(Select(store.bookings, filter), skip, take);
      SelectPageBounds(store.bookings, filter, skip, take);
      status := Success;
    }

    /**
     * UpdateBookingAsync: runs the move checks in order and, when all pass, writes
     * the booking back with its new start, end and notes.
     */
    method UpdateBooking(now: nat, customerId: int, bookingId: int, req: UpdateRequest) returns (status: Status)
      requires store.Valid()
      modifies store
      ensures store.Valid()
      ensures status == UpdateCheck(old(store.Snapshot()), now, customerId, bookingId, req)
      ensures status != Success ==> store.Snapshot() == old(store.Snapshot())
      ensures status == Success ==>
        && FindBooking(old(store.bookings), bookingId).Some?
        && var existing := FindBooking(old(store.bookings), bookingId).value;
           && FindService(old(store.services), existing.serviceId).Some?
           && FindService(old(store.services), existing.serviceId).value.durationMin > 0
           && store.Snapshot() == old(store.Snapshot()).(bookings := ReplaceBooking(old(store.bookings), bookingId,
                Moved(existing, req, FindService(old(store.services), existing.serviceId).value.durationMin)))
    {
      if req.startAt <= now {
        return ValidationError;
      }
      var start := DropMilliseconds(req.startAt);
      var found := FindBooking(store.bookings, bookingId);
      if found.None? {
        return InvalidBooking;
      }
      var existing := found.value;
      if customerId !in store.customers {
        return InvalidCustomer;
      }
      if existing.customerId != customerId {
        return ValidationError;
      }
      var notes := if req.notes.Some? then req.notes else existing.notes;
      var foundService := FindService(store.services, existing.serviceId);
      if foundService.None? {
        return InvalidService;
      }
      var service := foundService.value;
      FoundServiceHasDuration(store.Snapshot(), existing.serviceId);
      var endAt := start + service.durationMin * TicksPerMinute;
      var day := DateOf(start);
      if (existing.businessId, day) in store.holidays {
        return Holiday;
      }
      var hours := HoursOn(store.Snapshot(), existing.businessId, day);
      if hours.None? {
        return NoWorkingHours;
      }
      var openAt := At(day, hours.value.openTime);
      var closeAt := At(day, hours.value.closeTime);
      if start < openAt || endAt > closeAt {
        return NoWorkingHours;
      }
      if (TimeOfDay(start) - hours.value.openTime) % (service.durationMin * TicksPerMinute) != 0 {
        return ValidationError;
      }
      var existingBookings := Select(store.bookings, ConfirmedOn(existing.businessId, existing.serviceId, day));
      var clash := FindConflict(existingBookings, start, Some(bookingId));
      if clash {
        return AlreadyExists;
      }
      var updated := existing.(customerId := customerId, startAt := start, endAt := endAt, notes := notes);
      store.bookings := ReplaceBooking(store.bookings, bookingId, updated);
      return Success;
    }
  }
}

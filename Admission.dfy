/**
 * The customer-side booking rules: the validation pipelines that admit a new
 * booking or move an existing one, the guard of the daily free-slot query, and
 * the ownership checks of cancel and delete. Each pipeline is a chain of
 * checks in the order the service runs them; the first failing check decides
 * the status.
 */
module Admission {
  import opened Clock
  import opened Model
  import opened Availability

  /** CreateBookingDto. */
  datatype CreateRequest = CreateRequest(
    businessId: int,
    serviceId: int,
    startAt: nat,
    status: BookingStatus,
    notes: Option<string>)

  /** UpdateBookingDto. */
  datatype UpdateRequest = UpdateRequest(startAt: nat, notes: Option<string>)

  // ---------------------------------------------------------------------------
  // The day of a booking

  /** The opening hours of the weekday of `day`, if the business has any. */
  function HoursOn(db: Db, businessId: int, day: nat): Option<Hours> {
    var week := WeekHours(db, businessId);
    if WeekdayOf(day) in week then Some(week[WeekdayOf(day)]) else None
  }

  predicate IsHoliday(db: Db, businessId: int, day: nat) {
    (businessId, day) in db.holidays
  }

  /** `start < openAt || endAt > closeAt`, with both bounds on the start's own date. */
  predicate OutsideWindow(start: nat, h: Hours, durationMin: int) {
    var day := DateOf(start);
    start < At(day, h.openTime) || start + durationMin * TicksPerMinute > At(day, h.closeTime)
  }

  /**
   * `(TimeOfDay - OpenTime).TotalMinutes % DurationMin != 0`. The minutes are a
   * double, so a start off the minute leaves a fraction and a zero duration
   * yields NaN: both count as misaligned.
   */
  predicate Misaligned(start: nat, h: Hours, durationMin: int)
    requires h.openTime <= TimeOfDay(start)
  {
    durationMin == 0 || (TimeOfDay(start) - h.openTime) % (durationMin * TicksPerMinute) != 0
  }

  /**
   * The checks create and update share once the service is known: holiday,
   * opening hours, window and alignment. They differ only in the status of a
   * start outside the window, which is the `outside` parameter.
   */
  function DayCheck(db: Db, businessId: int, durationMin: int, start: nat, outside: Status): Status {
    var day := DateOf(start);
    if IsHoliday(db, businessId, day) then Holiday
    else match HoursOn(db, businessId, day)
      case None => NoWorkingHours
      case Some(h) =>
        if OutsideWindow(start, h, durationMin) then outside
        else if Misaligned(start, h, durationMin) then ValidationError
        else Success
  }

  /** The filter for one customer's bookings of one service on one date. */
  function CustomerOn(businessId: int, serviceId: int, customerId: int, day: nat): BookingFilter {
    BookingFilter(Some(businessId), Some(serviceId), Some(customerId), None, Some(day))
  }

  /** Some confirmed booking of the service starts at exactly `start`, not counting booking `skip`. */
  predicate ConfirmedAt(db: Db, businessId: int, serviceId: int, start: nat, skip: Option<int>) {
    exists b :: b in Select(db.bookings, ConfirmedOn(businessId, serviceId, DateOf(start)))
      && b.startAt == start && (skip.None? || b.id != skip.value)
  }

  /**
   * The early-return `foreach` over the day's confirmed bookings: is there one,
   * other than `skip`, that starts at exactly `start`?
   */
  method FindConflict(existing: seq<Booking>, start: nat, skip: Option<int>) returns (found: bool)
    ensures found <==> exists b :: b in existing && b.startAt == start && (skip.None? || b.id != skip.value)
  {
    for i := 0 to |existing|
      invariant forall b :: b in existing[..i] ==> !(b.startAt == start && (skip.None? || b.id != skip.value))
    {
      var b := existing[i];
      if skip.Some? && b.id == skip.value {
        continue;
      }
      if b.startAt == start {
        return true;
      }
      assert existing[..i + 1] == existing[..i] + [b];
    }
    assert existing[..|existing|] == existing;
    return false;
  }

  // ---------------------------------------------------------------------------
  // CreateBookingAsync

  /** The status CreateBookingAsync answers for a request, before anything is written. */
  function CreateCheck(db: Db, now: nat, customerId: int, req: CreateRequest): Status {
    if req.startAt <= now then ValidationError
    else
      var start := DropMilliseconds(req.startAt);
      if customerId !in db.customers then InvalidCustomer
      else if req.businessId !in db.businesses then InvalidBusiness
      else match FindService(db.services, req.serviceId)
        case None => InvalidService
        case Some(svc) =>
          if svc.businessId != req.businessId then ValidationError
          else if !svc.isActive then InvalidStatus
          else
            var day := DayCheck(db, req.businessId, svc.durationMin, start, ValidationError);
            if day != Success then day
            else if Select(db.bookings, CustomerOn(req.businessId, req.serviceId, customerId, DateOf(start))) != [] then AlreadyExists
            else if ConfirmedAt(db, req.businessId, req.serviceId, start, None) then AlreadyExists
            else Success
  }

  /** The row an admitted request stores: the truncated start, its end, the requested status. */
  function NewBooking(db: Db, customerId: int, req: CreateRequest, durationMin: int): (b: Booking)
    requires durationMin >= 0
    ensures b.startAt == DropMilliseconds(req.startAt)
    ensures b.endAt == b.startAt + durationMin * TicksPerMinute
    ensures b.customerId == customerId && b.businessId == req.businessId && b.serviceId == req.serviceId
    ensures b.status == req.status && b.notes == req.notes
    ensures forall i :: 0 <= i < |db.bookings| ==> db.bookings[i].id != b.id
  {
    var start := DropMilliseconds(req.startAt);
    Booking(NextBookingId(db.bookings), req.businessId, req.serviceId, customerId,
      start, start + durationMin * TicksPerMinute, req.status, req.notes)
  }

  // ---------------------------------------------------------------------------
  // GetDailyFreeSlots

  /**
   * The status of the daily free-slot query: entity checks, then Busy for a
   * holiday or a weekday without hours, else Success.
   */
  function SlotsCheck(db: Db, businessId: int, serviceId: int, day: nat): Status {
    if businessId !in db.businesses then InvalidBusiness
    else match FindService(db.services, serviceId)
      case None => InvalidService
      case Some(svc) =>
        if svc.businessId != businessId then ValidationError
        else if !svc.isActive then ValidationError
        else if IsHoliday(db, businessId, day) then Busy
        else if HoursOn(db, businessId, day).None? then Busy
        else Success
  }

  /** The times of day at which a confirmed booking of the service starts on `day`. */
  function BookedTimes(db: Db, businessId: int, serviceId: int, day: nat): set<nat> {
    set b | b in Select(db.bookings, ConfirmedOn(businessId, serviceId, day)) :: TimeOfDay(b.startAt)
  }

  /** The free slots the query lists when its status is Success. */
  function FreeSlotsOf(db: Db, businessId: int, serviceId: int, day: nat): seq<nat>
    requires ValidDb(db) && SlotsCheck(db, businessId, serviceId, day) == Success
  {
    var svc := FindService(db.services, serviceId).value;
    FoundServiceHasDuration(db, serviceId);
    var h := HoursOn(db, businessId, day).value;
    FreeOf(Grid(h.openTime, h.closeTime, svc.durationMin * TicksPerMinute), BookedTimes(db, businessId, serviceId, day))
  }

  /** Two instants on the same date start at the same time of day only if they are equal. */
  lemma SameDateTimeOfDay(s: nat, t: nat)
    requires DateOf(s) == DateOf(t)
    ensures TimeOfDay(s) == TimeOfDay(t) <==> s == t
  {
  }

  /** A time of day is booked exactly when a confirmed booking starts at that instant of the day. */
  lemma BookedTimesMember(db: Db, businessId: int, serviceId: int, start: nat)
    ensures TimeOfDay(start) in BookedTimes(db, businessId, serviceId, DateOf(start))
      <==> ConfirmedAt(db, businessId, serviceId, start, None)
  {
    var day := DateOf(start);
    var sel := Select(db.bookings, ConfirmedOn(businessId, serviceId, day));
    if TimeOfDay(start) in BookedTimes(db, businessId, serviceId, day) {
      var b :| b in sel && TimeOfDay(b.startAt) == TimeOfDay(start);
      SameDateTimeOfDay(b.startAt, start);
    }
  }

  /** Inside the window and aligned is the same as being a slot of the day's grid. */
  lemma {:induction false} WindowIsGrid(start: nat, h: Hours, durationMin: int)
    requires durationMin > 0
    ensures !OutsideWindow(start, h, durationMin) && !Misaligned(start, h, durationMin)
      <==> OnGrid(h.openTime, h.closeTime, durationMin * TicksPerMinute, TimeOfDay(start))
  {
    var day := DateOf(start);
    assert start == At(day, TimeOfDay(start));
  }

  /**
   * The admission rule seen from the free-slot query: a create succeeds exactly
   * when the entities check out, the customer has no booking of the service that
   * day, and the start's time of day is one of the free slots the query lists
   * for that date.
   */
  lemma {:induction false} CreateAdmitsFreeSlots(db: Db, now: nat, customerId: int, req: CreateRequest)
    requires ValidDb(db)
    ensures var start := DropMilliseconds(req.startAt);
      var day := DateOf(start);
      CreateCheck(db, now, customerId, req) == Success
      <==>
      && now < req.startAt
      && customerId in db.customers
      && SlotsCheck(db, req.businessId, req.serviceId, day) == Success
      && TimeOfDay(start) in FreeSlotsOf(db, req.businessId, req.serviceId, day)
      && Select(db.bookings, CustomerOn(req.businessId, req.serviceId, customerId, day)) == []
  {
    var start := DropMilliseconds(req.startAt);
    var day := DateOf(start);
    if now < req.startAt && req.businessId in db.businesses && FindService(db.services, req.serviceId).Some? {
      var svc := FindService(db.services, req.serviceId).value;
      FoundServiceHasDuration(db, req.serviceId);
      if svc.businessId == req.businessId && svc.isActive && !IsHoliday(db, req.businessId, day)
        && HoursOn(db, req.businessId, day).Some?
      {
        var h := HoursOn(db, req.businessId, day).value;
        var step := svc.durationMin * TicksPerMinute;
        WindowIsGrid(start, h, svc.durationMin);
        BookedTimesMember(db, req.businessId, req.serviceId, start);
        FreeOfMember(Grid(h.openTime, h.closeTime, step), BookedTimes(db, req.businessId, req.serviceId, day), TimeOfDay(start));
        GridMember(h.openTime, h.closeTime, step, TimeOfDay(start));
      }
    }
  }

  /**
   * An admitted start lies in the opening window of its date, its end is the start
   * plus the duration, its offset from the opening time is a whole number of
   * durations, and its date is not a holiday.
   */
  lemma {:induction false} CreateAcceptedShape(db: Db, now: nat, customerId: int, req: CreateRequest)
    requires CreateCheck(db, now, customerId, req) == Success
    ensures FindService(db.services, req.serviceId).Some?
    ensures var start := DropMilliseconds(req.startAt);
      var day := DateOf(start);
      var svc := FindService(db.services, req.serviceId).value;
      && now < req.startAt
      && svc.businessId == req.businessId && svc.isActive && svc.durationMin != 0
      && !IsHoliday(db, req.businessId, day)
      && HoursOn(db, req.businessId, day).Some?
      && var h := HoursOn(db, req.businessId, day).value;
         && At(day, h.openTime) <= start
         && start + svc.durationMin * TicksPerMinute <= At(day, h.closeTime)
         && (TimeOfDay(start) - h.openTime) % (svc.durationMin * TicksPerMinute) == 0
         && (svc.durationMin > 0 ==>
               NewBooking(db, customerId, req, svc.durationMin).endAt <= At(day, h.closeTime))
  {
  }

  /** A multiple of `b` leaves no remainder. */
  lemma ModOfMultiple(x: int, m: int, b: int)
    requires b > 0 && x == m * b
    ensures x % b == 0
  {
    var q, r := x / b, x % b;
    assert x == q * b + r && 0 <= r < b;
    assert (m - q) * b == r;
    if m - q >= 1 {
      MulLe(1, m - q, b);
    } else if m - q <= -1 {
      assert (q - m) * b == -r;
      MulLe(1, q - m, b);
    }
  }

  /**
   * A start aligned on a grid that opens on a whole millisecond is itself a whole
   * number of milliseconds: every duration is a whole number of minutes.
   */
  lemma AlignedIsWholeMilliseconds(start: nat, h: Hours, durationMin: int)
    requires h.openTime <= TimeOfDay(start) && !Misaligned(start, h, durationMin)
    requires h.openTime % TicksPerMillisecond == 0
    ensures start % TicksPerMillisecond == 0
  {
    var tod := TimeOfDay(start);
    var off: nat := tod - h.openTime;
    var n := durationMin * TicksPerMinute;
    var q := off / n;
    assert off == q * n;
    assert q * n == (q * durationMin * 60_000) * TicksPerMillisecond;
    ModOfMultiple(off, q * durationMin * 60_000, TicksPerMillisecond);
    var o := h.openTime / TicksPerMillisecond;
    var m := off / TicksPerMillisecond;
    assert tod == (o + m) * TicksPerMillisecond;
    assert start == (DateOf(start) * 86_400_000 + o + m) * TicksPerMillisecond;
    ModOfMultiple(start, DateOf(start) * 86_400_000 + o + m, TicksPerMillisecond);
  }

  /**
   * Clearing the millisecond component leaves the ticks below one millisecond, so a
   * requested start that is not a whole number of milliseconds never lands on a
   * grid that opens on a whole millisecond: such a request is never admitted.
   */
  lemma {:induction false} SubMillisecondStartRejected(db: Db, now: nat, customerId: int, req: CreateRequest)
    requires req.startAt % TicksPerMillisecond != 0
    requires forall w :: w in WeekHours(db, req.businessId) ==> WeekHours(db, req.businessId)[w].openTime % TicksPerMillisecond == 0
    ensures CreateCheck(db, now, customerId, req) != Success
  {
    if CreateCheck(db, now, customerId, req) == Success {
      CreateAcceptedShape(db, now, customerId, req);
      var start := DropMilliseconds(req.startAt);
      var day := DateOf(start);
      var svc := FindService(db.services, req.serviceId).value;
      var h := HoursOn(db, req.businessId, day).value;
      assert WeekdayOf(day) in WeekHours(db, req.businessId);
      assert start == At(day, TimeOfDay(start));
      AlignedIsWholeMilliseconds(start, h, svc.durationMin);
      assert false;
    }
  }

  // ---------------------------------------------------------------------------
  // UpdateBookingAsync

  /** The status UpdateBookingAsync answers, before anything is written. */
  function UpdateCheck(db: Db, now: nat, customerId: int, bookingId: int, req: UpdateRequest): Status {
    if req.startAt <= now then ValidationError
    else
      var start := DropMilliseconds(req.startAt);
      match FindBooking(db.bookings, bookingId)
      case None => InvalidBooking
      case Some(existing) =>
        if customerId !in db.customers then InvalidCustomer
        else if existing.customerId != customerId then ValidationError
        else match FindService(db.services, existing.serviceId)
          case None => InvalidService
          case Some(svc) =>
            var day := DayCheck(db, existing.businessId, svc.durationMin, start, NoWorkingHours);
            if day != Success then day
            else if ConfirmedAt(db, existing.businessId, existing.serviceId, start, Some(bookingId)) then AlreadyExists
            else Success
  }

  /**
   * The row an admitted update writes back: the existing booking with the new
   * start and end, and the new notes unless none were given.
   */
  function Moved(existing: Booking, req: UpdateRequest, durationMin: int): Booking
    requires durationMin >= 0
  {
    var start := DropMilliseconds(req.startAt);
    existing.(
      startAt := start,
      endAt := start + durationMin * TicksPerMinute,
      notes := if req.notes.Some? then req.notes else existing.notes)
  }

  /**
   * A move keeps the booking's identity, owner, business, service and status;
   * only the times and the notes change, and absent notes keep the old ones.
   */
  lemma MovedKeepsIdentity(existing: Booking, req: UpdateRequest, durationMin: int)
    requires durationMin >= 0
    ensures var b := Moved(existing, req, durationMin);
      && b.id == existing.id && b.customerId == existing.customerId
      && b.businessId == existing.businessId && b.serviceId == existing.serviceId
      && b.status == existing.status
      && b.startAt == DropMilliseconds(req.startAt)
      && b.endAt == b.startAt + durationMin * TicksPerMinute
      && (req.notes.None? ==> b.notes == existing.notes)
      && (req.notes.Some? ==> b.notes == req.notes)
  {
  }

  /**
   * An admitted move is owned by the caller and lands on a slot of the day's grid
   * that no other confirmed booking of the service occupies; the booking itself
   * does not block its own start.
   */
  lemma {:induction false} UpdateAdmitsGridSlot(db: Db, now: nat, customerId: int, bookingId: int, req: UpdateRequest)
    requires ValidDb(db)
    requires UpdateCheck(db, now, customerId, bookingId, req) == Success
    ensures FindBooking(db.bookings, bookingId).Some?
    ensures var existing := FindBooking(db.bookings, bookingId).value;
      var start := DropMilliseconds(req.startAt);
      && existing.customerId == customerId
      && FindService(db.services, existing.serviceId).Some?
      && HoursOn(db, existing.businessId, DateOf(start)).Some?
      && var h := HoursOn(db, existing.businessId, DateOf(start)).value;
         var d := FindService(db.services, existing.serviceId).value.durationMin;
         && OnGrid(h.openTime, h.closeTime, d * TicksPerMinute, TimeOfDay(start))
         && forall b :: (b in Select(db.bookings, ConfirmedOn(existing.businessId, existing.serviceId, DateOf(start)))
              && b.id != bookingId) ==> b.startAt != start
  {
    var existing := FindBooking(db.bookings, bookingId).value;
    FoundServiceHasDuration(db, existing.serviceId);
    var svc := FindService(db.services, existing.serviceId).value;
    var start := DropMilliseconds(req.startAt);
    WindowIsGrid(start, HoursOn(db, existing.businessId, DateOf(start)).value, svc.durationMin);
  }

  /**
   * The two pipelines disagree on a start outside the opening window: for the same
   * customer, service and start, create answers ValidationError and update
   * answers NoWorkingHours.
   */
  lemma {:induction false} WindowStatusDiffers(db: Db, now: nat, customerId: int, bookingId: int, start: nat)
    requires now < start && customerId in db.customers
    requires FindBooking(db.bookings, bookingId).Some?
    requires var b := FindBooking(db.bookings, bookingId).value;
      && b.customerId == customerId && b.businessId in db.businesses
      && FindService(db.services, b.serviceId).Some?
      && FindService(db.services, b.serviceId).value.businessId == b.businessId
      && FindService(db.services, b.serviceId).value.isActive
    requires var b := FindBooking(db.bookings, bookingId).value;
      var day := DateOf(DropMilliseconds(start));
      && !IsHoliday(db, b.businessId, day)
      && HoursOn(db, b.businessId, day).Some?
      && OutsideWindow(DropMilliseconds(start), HoursOn(db, b.businessId, day).value,
           FindService(db.services, b.serviceId).value.durationMin)
    ensures var b := FindBooking(db.bookings, bookingId).value;
      && CreateCheck(db, now, customerId, CreateRequest(b.businessId, b.serviceId, start, b.status, None)) == ValidationError
      && UpdateCheck(db, now, customerId, bookingId, UpdateRequest(start, None)) == NoWorkingHours
  {
  }

  // ---------------------------------------------------------------------------
  // GetMonthlyCalendar (customer side)

  /** The guards of the customer-side calendar, in order; UnknownError for a month DateTime and DateOnly refuse. */
  function CalendarCheck(db: Db, businessId: int, serviceId: int, year: int, month: int): Status {
    if businessId !in db.businesses then InvalidBusiness
    else match FindService(db.services, serviceId)
      case None => InvalidService
      case Some(s) =>
        if s.businessId != businessId then ValidationError
        else if !s.isActive then InvalidStatus
        else if !CalendarMonthOk(year, month) then UnknownError
        else Success
  }

  /**
   * The status of the customer-side calendar: its guards, then UnknownError when
   * some day's availability divides by a zero duration.
   */
  function CalendarStatus(db: Db, businessId: int, serviceId: int, year: int, month: int, today: nat, counts: map<nat, int>): Status {
    var check := CalendarCheck(db, businessId, serviceId, year, month);
    if check != Success then check
    else
      var d := FindService(db.services, serviceId).value.durationMin;
      if SomeDayFails(year, month, today, HolidayDates(db, businessId), WeekHours(db, businessId), d, counts)
      then UnknownError
      else Success
  }

  /** Some day of the month makes the customer-side GetDayAvailability throw. */
  predicate SomeDayFails(year: int, month: int, today: nat, holidays: set<nat>, weekHours: map<int, Hours>, durationMin: int, counts: map<nat, int>)
    requires ValidYearMonth(year, month)
  {
    exists k :: 1 <= k <= DaysInMonth(year, month)
      && CustomerDay(DayNumber(year, month, k), k, today, holidays, weekHours, durationMin, counts).None?
  }

  /** On a valid store the customer calendar fails only on its guards: no day divides by zero. */
  lemma CalendarNeverDividesByZero(db: Db, businessId: int, serviceId: int, year: int, month: int, today: nat, counts: map<nat, int>)
    requires ValidDb(db)
    ensures CalendarStatus(db, businessId, serviceId, year, month, today, counts)
      == CalendarCheck(db, businessId, serviceId, year, month)
  {
    if CalendarCheck(db, businessId, serviceId, year, month) == Success {
      FoundServiceHasDuration(db, serviceId);
      var d := FindService(db.services, serviceId).value.durationMin;
      forall k | 1 <= k <= DaysInMonth(year, month)
        ensures CustomerDay(DayNumber(year, month, k), k, today, HolidayDates(db, businessId), WeekHours(db, businessId), d, counts).Some?
      {
        CustomerDayAgrees(DayNumber(year, month, k), k, today, HolidayDates(db, businessId), WeekHours(db, businessId), d, counts);
      }
    }
  }

  // ---------------------------------------------------------------------------
  // CancelBookingAsync and DeleteBookingAsync

  /** CancelBookingAsync: a missing booking or customer is NotFound; the current status is not inspected. */
  function CancelCheck(db: Db, customerId: int, bookingId: int): Status {
    match FindBooking(db.bookings, bookingId)
    case None => NotFound
    case Some(b) =>
      if customerId !in db.customers then NotFound
      else if b.customerId != customerId then ValidationError
      else Success
  }

  /** DeleteBookingAsync: the same ownership rule, with InvalidBooking / InvalidCustomer. */
  function DeleteCheck(db: Db, customerId: int, bookingId: int): Status {
    match FindBooking(db.bookings, bookingId)
    case None => InvalidBooking
    case Some(b) =>
      if customerId !in db.customers then InvalidCustomer
      else if b.customerId != customerId then ValidationError
      else Success
  }

  /**
   * Cancel and delete act only for the owner, and agree on which requests they
   * accept; the status a cancel reports never depends on the booking's status.
   */
  lemma OwnershipRules(db: Db, customerId: int, bookingId: int)
    ensures CancelCheck(db, customerId, bookingId) == Success
      <==> FindBooking(db.bookings, bookingId).Some? && customerId in db.customers
           && FindBooking(db.bookings, bookingId).value.customerId == customerId
    ensures DeleteCheck(db, customerId, bookingId) == Success <==> CancelCheck(db, customerId, bookingId) == Success
    ensures FindBooking(db.bookings, bookingId).Some? && customerId in db.customers
      && FindBooking(db.bookings, bookingId).value.customerId != customerId
      ==> CancelCheck(db, customerId, bookingId) == ValidationError
          && DeleteCheck(db, customerId, bookingId) == ValidationError
  {
  }
}

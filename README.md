# SmartAppt booking engine in Dafny

This project models the availability and booking engine of SmartAppt, an
appointment system for small businesses. It covers the two business-layer service classes:

- **CustomerService.** A customer books, moves, cancels and deletes bookings. The
  customer also lists the free slots of a day and the open days of a month.
- **BusinessService.** A business manages its profile and its services. It reads
  its calendar and its bookings, and it confirms or cancels bookings.

Both services work over six repositories: businesses, customers, services, opening hours,
holidays and bookings. The model abstracts them as one in-memory store, the
class `Repository.Store`. Each of its fields is one table, and `Store.Snapshot()` gives
the whole store as a `Model.Db` value.

Modules:

- `Clock`: .NET `DateTime` arithmetic in ticks (100 ns) since 0001-01-01, a Monday.
  - The date is a day number and the time of day is in ticks since midnight.
  - Covers `AddMilliseconds(-Millisecond)`, the weekday numbering Monday = 1 to
    Sunday = 7, `DaysInMonth`, and C#'s truncating integer division.
- `Text`: `string.IsNullOrWhiteSpace` and `string.Trim`.
- `Model`: the entities and the status codes.
  - The repository queries the services use: by-id lookup, the booking filter of
    `GetAllSpecAsync`, and `Skip`/`Take` paging.
  - The repository writes, and the ids the database hands out.
- `Repository`: the mutable store.
- `Availability`: the day's slot grid and the free-slot walk.
  - Also `GetDayAvailability`, which exists in both services, and the month loops of both calendars.
- `Admission`: the customer-side rules.
  - The create and move pipelines, and the guard of the free-slot query.
  - The customer calendar's status, and the ownership checks of cancel and delete.
- `Management`: the business-side rules.
  - The confirm/cancel state machine, service deactivation and creation, and business name validation.
  - The calendar guards, the listing filters, and the assembly of a day's bookings with their customers.
- `CustomerSide` and `BusinessSide`: the classes `CustomerService` and `BusinessService`.
  - Each holds the store and has one method per public operation.
  - Each method runs the source's checks in order, changes only what the source writes,
    and is proved against the rule functions above.

Inputs and edge cases:

- **Inputs.** "Now" is a parameter (`now` in ticks, `today` as a day number). So are
  the per-day booking counts of `GetBookingsCountByBusinessAsync` (`counts`).
- **Alignment.** The double `TotalMinutes % DurationMin` test is modelled as the exact
  test on ticks, `(timeOfDay - open) % (duration * TicksPerMinute) != 0`. A start off
  the minute leaves a fraction, so it is misaligned, and a zero duration gives NaN,
  which is misaligned too.
- **Millisecond truncation.** `StartAtUtc.AddMilliseconds(-StartAtUtc.Millisecond)`
  (CustomerService.cs:64 and :367) clears only the millisecond component. The ticks below one
  millisecond survive, so the instant is not cut to whole seconds. The model
  follows the code:
  - `Clock.DropMilliseconds` keeps `t % TicksPerMillisecond`.
  - `Admission.SubMillisecondStartRejected` shows the consequence. A requested start that is not a
    whole number of milliseconds is never admitted when the day opens on a
    whole millisecond.

## Model

| member | source | states |
|---|---|---|
| Clock.TimeOfDay | src/Business/Business.SmartAppt/Services/Implementation/CustomerService.cs:108 | the time of day is below one day and, added to the start of the date, gives back the instant |
| Clock.DropMilliseconds | src/Business/Business.SmartAppt/Services/Implementation/CustomerService.cs:64 | clearing the millisecond component moves the instant back by less than a second, leaves millisecond 0 and keeps the sub-millisecond ticks |
| Clock.DropMillisecondsIdempotent | src/Business/Business.SmartAppt/Services/Implementation/CustomerService.cs:64 | clearing the milliseconds twice is the same as once |
| Clock.DropMillisecondsKeepsDate | src/Business/Business.SmartAppt/Services/Implementation/CustomerService.cs:64-90 | clearing the milliseconds never moves a start to another date, so the holiday and weekday checks see the requested date |
| Clock.DayOfWeek | src/Business/Business.SmartAppt/Services/Implementation/BusinessService.cs:470 | `DayOfWeek` is in 0..6 |
| Clock.WeekdayNumbering | src/Business/Business.SmartAppt/Services/Implementation/BusinessService.cs:470 | `((DayOfWeek + 6) % 7) + 1` is in 1..7, Monday is 1, Sunday is 7, and it repeats every 7 days |
| Clock.DaysInMonth | src/Business/Business.SmartAppt/Services/Implementation/BusinessService.cs:423 | a month has 28 to 31 days, and February has 29 exactly in a leap year |
| Clock.CalendarMonthOk | src/Business/Business.SmartAppt/Services/Implementation/BusinessService.cs:423-425 | the months a calendar can be built for: a year and month `DateTime` accepts, except December 9999, whose end date `AddDays` cannot reach |
| Clock.DaysBeforeYear | src/Business/Business.SmartAppt/Services/Implementation/BusinessService.cs:439 | the days from 0001-01-01 to 1 January of the year in the Gregorian calendar, for `new DateTime(year, month, d)` |
| Clock.DaysBeforeMonth | src/Business/Business.SmartAppt/Services/Implementation/BusinessService.cs:439 | the days from 1 January to the first of the month, summing `DaysInMonth` of the months before it |
| Clock.DayNumber | src/Business/Business.SmartAppt/Services/Implementation/BusinessService.cs:439 | `new DateTime(year, month, d)` as a day number since 0001-01-01 |
| Clock.TruncDiv | src/Business/Business.SmartAppt/Services/Implementation/BusinessService.cs:476-477 | C# integer division truncates toward zero: the remainder `a - q * b` is smaller than the divisor in magnitude and is zero or has the sign of `a`, so a negative window gives a negative minute count; on non-negative operands it is floor division |
| Text.TrimStart | src/Business/Business.SmartAppt/Services/Implementation/BusinessService.cs:46 | drops exactly a leading run of white space and stops at the first other character |
| Text.TrimEnd | src/Business/Business.SmartAppt/Services/Implementation/BusinessService.cs:46 | drops exactly a trailing run of white space and stops at the last other character |
| Text.Trim | src/Business/Business.SmartAppt/Services/Implementation/BusinessService.cs:46 | the trimmed name is a slice of the input with only white space before and after it, is empty exactly when the input is blank, and otherwise begins and ends with a non-white-space character |
| Text.TrimIdempotent | src/Business/Business.SmartAppt/Services/Implementation/BusinessService.cs:97 | trimming a trimmed name changes nothing |
| Model.FindService | src/Business/Business.SmartAppt/Services/Implementation/CustomerService.cs:75-77 | the lookup finds nothing exactly when no row has the id; a found row has the id and is stored |
| Model.FindBooking | src/Business/Business.SmartAppt/Services/Implementation/CustomerService.cs:376-378 | the lookup finds nothing exactly when no row has the id; a found row has the id and is stored |
| Model.FoundServiceHasDuration | src/Business/Business.SmartAppt/Services/Implementation/BusinessService.cs:198-202 | in a store whose services all passed the positive-duration check, every service found has a positive duration |
| Model.Select | src/Business/Business.SmartAppt/Services/Implementation/CustomerService.cs:112-119 | the filtered bookings are exactly the stored ones that match every given field of the filter |
| Model.Page | src/Business/Business.SmartAppt/Services/Implementation/BusinessService.cs:305-306 | `Skip(skip).Take(take)` yields the `take` rows from position `skip` on, or fewer at the end |
| Model.SelectPageBounds | src/Business/Business.SmartAppt/Services/Implementation/BusinessService.cs:655-665 | a page of filtered bookings has at most `take` rows, each stored and matching the filter |
| Model.RemoveBooking | src/Business/Business.SmartAppt/Services/Implementation/CustomerService.cs:188 | deleting removes exactly the rows with the id |
| Model.SetStatus | src/Business/Business.SmartAppt/Services/Implementation/CustomerService.cs:44 | `ConfirmAsync`/`CancelAsync`: the rows with the id get the new status, the row count is kept |
| Model.ReplaceBooking | src/Business/Business.SmartAppt/Services/Implementation/CustomerService.cs:435 | `BookingRepository.UpdateAsync`: the rows with the id get the written value, the row count is kept |
| Model.ReplaceService | src/Business/Business.SmartAppt/Services/Implementation/BusinessService.cs:362 | `ServiceRepository.UpdateAsync`: the rows with the id get the written value, the row count is kept |
| Model.RemoveService | src/Business/Business.SmartAppt/Services/Implementation/BusinessService.cs:268 | deleting removes exactly the rows with the id |
| Model.RemoveServiceValid | src/Business/Business.SmartAppt/Services/Implementation/BusinessService.cs:259-268 | deleting a service keeps every remaining duration positive and the id is no longer found |
| Model.SetStatusFrame | src/Business/Business.SmartAppt/Services/Implementation/CustomerService.cs:44 | a status write changes only the status, and only of the rows with the id |
| Model.FindAfterSetStatus | src/Business/Business.SmartAppt/Services/Implementation/BusinessService.cs:727-737 | after a status write the booking reads back with the new status and all other fields |
| Model.FindAfterReplaceService | src/Business/Business.SmartAppt/Services/Implementation/BusinessService.cs:361-362 | after a service write the service reads back as written |
| Model.FindAfterReplaceBooking | src/Business/Business.SmartAppt/Services/Implementation/CustomerService.cs:430-435 | after a booking write the booking reads back as the value written |
| Model.ReplaceBookingFrame | src/Business/Business.SmartAppt/Services/Implementation/CustomerService.cs:435 | a booking write replaces the rows with the id by the new value and keeps every other row |
| Model.ReplaceServiceFrame | src/Business/Business.SmartAppt/Services/Implementation/BusinessService.cs:362 | a service write keeps every row of another id, and with a positive duration keeps the store valid |
| Model.FindAppendedService | src/Business/Business.SmartAppt/Services/Implementation/BusinessService.cs:227 | a service stored under a fresh id is the one found by that id |
| Model.NextBookingId | src/Business/Business.SmartAppt/Services/Implementation/CustomerService.cs:152 | a new booking id is positive and above every id in use |
| Model.NextServiceId | src/Business/Business.SmartAppt/Services/Implementation/BusinessService.cs:227 | a new service id is positive and above every id in use |
| Model.NextBusinessId | src/Business/Business.SmartAppt/Services/Implementation/BusinessService.cs:53 | a new business id is positive and not in use |
| Availability.GridMember | src/Business/Business.SmartAppt/Services/Implementation/CustomerService.cs:249-263 | a time is on the walk exactly when it is at or after the opening time, a whole number of durations after it, and a whole service still ends by closing time |
| Availability.Grid | src/Business/Business.SmartAppt/Services/Implementation/CustomerService.cs:250-263 | the slot times the while loop visits: from the opening time in steps of the duration while a whole service ends by closing time |
| Availability.FreeOf | src/Business/Business.SmartAppt/Services/Implementation/CustomerService.cs:259-260 | the grid slots that are not booked start times, in grid order |
| Availability.FreeFrom | src/Business/Business.SmartAppt/Services/Implementation/CustomerService.cs:257-263 | the walk of the while loop itself, keeping each unbooked slot as it steps |
| Availability.GridLength | src/Business/Business.SmartAppt/Services/Implementation/CustomerService.cs:257-263 | the walk visits `(close - open) / duration` slots |
| Availability.GridAt | src/Business/Business.SmartAppt/Services/Implementation/CustomerService.cs:257-263 | the k-th slot of the walk is `open + k * duration` |
| Availability.GridIncreasing | src/Business/Business.SmartAppt/Services/Implementation/CustomerService.cs:257-263 | the walk visits slots in strictly increasing order |
| Availability.FreeOfMember | src/Business/Business.SmartAppt/Services/Implementation/CustomerService.cs:259-260 | a slot is kept exactly when it is on the grid and not a booked start |
| Availability.FreeOfIncreasing | src/Business/Business.SmartAppt/Services/Implementation/CustomerService.cs:259-260 | dropping booked slots keeps the remaining slots in increasing order |
| Availability.FreeFromIsFreeOfGrid | src/Business/Business.SmartAppt/Services/Implementation/CustomerService.cs:257-263 | the step-by-step walk yields the unbooked slots of the grid |
| Availability.FreeOfGrid | src/Business/Business.SmartAppt/Services/Implementation/CustomerService.cs:249-263 | the free slots are increasing, are exactly the unbooked grid slots, and number at most `(close - open) / duration` |
| Availability.FreeSlots | src/Business/Business.SmartAppt/Services/Implementation/CustomerService.cs:249-263 | the while loop returns the unbooked grid slots in increasing order, each on the grid and unbooked, at most `(close - open) / duration` of them |
| Availability.BusinessDay | src/Business/Business.SmartAppt/Services/Implementation/BusinessService.cs:454-487 | the entry carries the day of the month; a day is open exactly when it is not past, not a holiday and its weekday has hours; a closed day never has free slots |
| Availability.OpenMinutes | src/Business/Business.SmartAppt/Services/Implementation/BusinessService.cs:476 | `(int)(CloseTime - OpenTime).TotalMinutes`: the opening window in whole minutes, truncated toward zero |
| Availability.Capacity | src/Business/Business.SmartAppt/Services/Implementation/BusinessService.cs:477 | `maxSlots`: the window's minutes divided by the duration, truncated, and 0 for a non-positive duration |
| Availability.CustomerDay | src/Business/Business.SmartAppt/Services/Implementation/CustomerService.cs:445-473 | the customer copy of the day verdict, whose unguarded `openMinutes / durationMin` fails on a zero duration |
| Availability.OpenDayCapacity | src/Business/Business.SmartAppt/Services/Implementation/BusinessService.cs:476-485 | on an open day, free slots are reported exactly when the booked count (0 when absent) is below the capacity, and a non-positive duration reports none unless the count is negative |
| Availability.CapacityIsGridSize | src/Business/Business.SmartAppt/Services/Implementation/BusinessService.cs:476-477 | the calendar's `maxSlots` equals the number of slots the free-slot walk visits on that weekday |
| Availability.CustomerDayAgrees | src/Business/Business.SmartAppt/Services/Implementation/CustomerService.cs:445-473 | the customer copy agrees with the business copy for a positive duration, and fails only on an open day with a zero duration |
| Availability.BusinessMonth | src/Business/Business.SmartAppt/Services/Implementation/BusinessService.cs:423-442 | the calendar has one entry per day of the month, numbered 1..n in order, each that day's availability, and closed days have no free slots |
| Availability.CustomerMonth | src/Business/Business.SmartAppt/Services/Implementation/CustomerService.cs:303-321 | the loop fails exactly when some day fails; otherwise it has one entry per day, each that day's availability |
| Admission.FindConflict | src/Business/Business.SmartAppt/Services/Implementation/CustomerService.cs:135-139 | the early-return scan reports a clash exactly when a scanned booking other than the skipped id starts at the same instant |
| Admission.DayCheck | src/Business/Business.SmartAppt/Services/Implementation/CustomerService.cs:90-109 | the holiday, opening-hours, window and alignment checks of a start, in that order, with the window's status as a parameter |
| Admission.HoursOn | src/Business/Business.SmartAppt/Services/Implementation/CustomerService.cs:94-98 | the opening window of the date's weekday (Monday = 1), or none when the business has no hours that day |
| Admission.OutsideWindow | src/Business/Business.SmartAppt/Services/Implementation/CustomerService.cs:100-105 | the start is before opening or its end is after closing, both taken on the start's own date |
| Admission.Misaligned | src/Business/Business.SmartAppt/Services/Implementation/CustomerService.cs:108 | the `TotalMinutes % DurationMin != 0` test on exact ticks; a zero duration (NaN in C#) counts as misaligned |
| Admission.ConfirmedAt | src/Business/Business.SmartAppt/Services/Implementation/CustomerService.cs:126-139 | some confirmed booking of the service on the start's date starts at exactly that instant, other than the skipped id |
| Admission.CreateCheck | src/Business/Business.SmartAppt/Services/Implementation/CustomerService.cs:59-139 | the status of CreateBookingAsync: future start, customer, business, service, its owner and activity, the day checks, the customer's own booking that day, then a confirmed booking at the same start |
| Admission.NewBooking | src/Business/Business.SmartAppt/Services/Implementation/CustomerService.cs:141-152 | a stored booking starts at the truncated start, ends the service's duration later, carries the request's customer, business, service, status and notes, and has an id no stored booking has |
| Admission.BookedTimesMember | src/Business/Business.SmartAppt/Services/Implementation/CustomerService.cs:239-255 | a time of day is among the booked slots exactly when a confirmed booking of the service starts at that instant |
| Admission.SlotsCheck | src/Business/Business.SmartAppt/Services/Implementation/CustomerService.cs:203-237 | the status of GetDailyFreeSlots: business, service, owner, active, then Busy on a holiday or a weekday without hours |
| Admission.BookedTimes | src/Business/Business.SmartAppt/Services/Implementation/CustomerService.cs:239-255 | the times of day at which a confirmed booking of the service starts on the date |
| Admission.FreeSlotsOf | src/Business/Business.SmartAppt/Services/Implementation/CustomerService.cs:249-263 | the day's grid from the weekday's opening to closing time in steps of the duration, without the booked times |
| Admission.WindowIsGrid | src/Business/Business.SmartAppt/Services/Implementation/CustomerService.cs:100-109 | passing the window check and the alignment check is the same as being a slot of the day's grid |
| Admission.CreateAdmitsFreeSlots | src/Business/Business.SmartAppt/Services/Implementation/CustomerService.cs:59-139 | a create succeeds exactly when the start is in the future, the customer exists, the free-slot query succeeds for that date, the start's time of day is one of the free slots it lists, and the customer has no booking of the service that day |
| Admission.CreateAcceptedShape | src/Business/Business.SmartAppt/Services/Implementation/CustomerService.cs:87-109 | an admitted start is in the future, for an active service of the business, not on a holiday, within the opening window with its end, and a whole number of durations after opening; the stored booking ends by closing time |
| Admission.AlignedIsWholeMilliseconds | src/Business/Business.SmartAppt/Services/Implementation/CustomerService.cs:108 | a start aligned on a grid that opens on a whole millisecond is itself a whole number of milliseconds |
| Admission.SubMillisecondStartRejected | src/Business/Business.SmartAppt/Services/Implementation/CustomerService.cs:64-109 | a requested start that is not a whole number of milliseconds is never admitted when opening times are whole milliseconds |
| Admission.MovedKeepsIdentity | src/Business/Business.SmartAppt/Services/Implementation/CustomerService.cs:390-435 | a move keeps id, owner, business, service and status; the start becomes the truncated start and the end the start plus the duration; absent notes keep the old ones |
| Admission.UpdateCheck | src/Business/Business.SmartAppt/Services/Implementation/CustomerService.cs:361-428 | the status of UpdateBookingAsync: future start, booking, customer, owner, service, the day checks with NoWorkingHours outside the window, then another confirmed booking at the same start |
| Admission.Moved | src/Business/Business.SmartAppt/Services/Implementation/CustomerService.cs:386-433 | the row written back: the truncated start, the start plus the duration as end, the new notes or else the old ones |
| Admission.UpdateAdmitsGridSlot | src/Business/Business.SmartAppt/Services/Implementation/CustomerService.cs:361-428 | an admitted move belongs to the caller and lands on a grid slot that no other confirmed booking of the service starts at |
| Admission.WindowStatusDiffers | src/Business/Business.SmartAppt/Services/Implementation/CustomerService.cs:104-105 | for the same start outside the window, create answers ValidationError while update answers NoWorkingHours |
| Admission.CalendarNeverDividesByZero | src/Business/Business.SmartAppt/Services/Implementation/CustomerService.cs:303-321 | on a store whose services have positive durations, the customer calendar fails only on its guards |
| Admission.CalendarCheck | src/Business/Business.SmartAppt/Services/Implementation/CustomerService.cs:285-305 | the guards of the customer calendar in order, UnknownError for a month `DateTime` or `DateOnly` refuses |
| Admission.CalendarStatus | src/Business/Business.SmartAppt/Services/Implementation/CustomerService.cs:285-321 | the customer calendar's status: its guards, then UnknownError when some day divides by a zero duration |
| Admission.OwnershipRules | src/Business/Business.SmartAppt/Services/Implementation/CustomerService.cs:27-45 | cancel succeeds exactly for the existing customer's own existing booking, delete accepts the same requests, and another customer's booking gives ValidationError in both |
| Admission.CancelCheck | src/Business/Business.SmartAppt/Services/Implementation/CustomerService.cs:31-42 | NotFound for a missing booking or customer, ValidationError for another customer's booking, else Success |
| Admission.DeleteCheck | src/Business/Business.SmartAppt/Services/Implementation/CustomerService.cs:176-187 | InvalidBooking, InvalidCustomer, ValidationError for another customer's booking, else Success |
| Management.DecideStateMachine | src/Business/Business.SmartAppt/Services/Implementation/BusinessService.cs:711-742 | a confirm on a cancelled booking answers AlreadyCanceled and changes nothing; every other decision succeeds and leaves the requested status; a write happens only when the status changes |
| Management.Decide | src/Business/Business.SmartAppt/Services/Implementation/BusinessService.cs:711-742 | the state machine once the guards pass: confirm is a no-op on Confirmed and AlreadyCanceled on Cancelled, cancel is a no-op on Cancelled, otherwise the status is written |
| Management.DecideCheck | src/Business/Business.SmartAppt/Services/Implementation/BusinessService.cs:685-742 | non-positive ids and another business's booking answer ValidationError, a missing booking InvalidBooking, then the state machine |
| Management.DecideIdempotent | src/Business/Business.SmartAppt/Services/Implementation/BusinessService.cs:711-742 | repeating a decision answers the same and writes nothing |
| Management.CancelledIsFinal | src/Business/Business.SmartAppt/Services/Implementation/BusinessService.cs:719-734 | no decision moves a booking out of Cancelled |
| Management.DecideGuards | src/Business/Business.SmartAppt/Services/Implementation/BusinessService.cs:685-708 | non-positive ids and another business's booking give ValidationError, a missing booking InvalidBooking, and none of these writes |
| Management.DecideTwice | src/Business/Business.SmartAppt/Services/Implementation/BusinessService.cs:693-737 | against the store, deciding the same way twice answers the same both times and the second call writes nothing |
| Management.DeactivateOneWay | src/Business/Business.SmartAppt/Services/Implementation/BusinessService.cs:330-362 | a deactivated service reads back inactive with its other fields, the store stays valid, and a second deactivate answers ValidationError |
| Management.DeactivateCheck | src/Business/Business.SmartAppt/Services/Implementation/BusinessService.cs:330-359 | non-positive ids, another business's service and an inactive service answer ValidationError, a missing service InvalidService |
| Management.AddedServiceWellFormed | src/Business/Business.SmartAppt/Services/Implementation/BusinessService.cs:180-227 | an admitted service belongs to an existing business, is active, has a positive duration, a non-negative price and a trimmed non-blank name, is found under its new id, and keeps the store valid |
| Management.AddServiceCheck | src/Business/Business.SmartAppt/Services/Implementation/BusinessService.cs:180-216 | the checks of AddServiceAsync in order: business id, null request, blank name, duration, price, then the business's existence |
| Management.NewService | src/Business/Business.SmartAppt/Services/Implementation/BusinessService.cs:218-227 | the stored row: the business, the trimmed name, the duration and price as given, active, under a new id |
| Management.NormalizedBusiness | src/Business/Business.SmartAppt/Services/Implementation/BusinessService.cs:35-51 | a business is accepted exactly when its trimmed name is non-empty; the stored name is unpadded, storing is idempotent, and the other fields are kept |
| Management.CreateBusinessCheck | src/Business/Business.SmartAppt/Services/Implementation/BusinessService.cs:35-41 | ValidationError for a blank name, else Success |
| Management.UpdateBusinessCheck | src/Business/Business.SmartAppt/Services/Implementation/BusinessService.cs:80-95 | ValidationError for a blank name, then InvalidBusiness for a missing business, else Success |
| Management.CalendarAdmits | src/Business/Business.SmartAppt/Services/Implementation/BusinessService.cs:382-425 | the calendar proceeds exactly for positive ids of an existing business and its own active service in a month `DateTime` accepts other than December 9999 |
| Management.CalendarCheck | src/Business/Business.SmartAppt/Services/Implementation/BusinessService.cs:382-425 | the guards of the business calendar in order, UnknownError for a month `DateTime` or `DateOnly` refuses |
| Management.OfBusiness | src/Business/Business.SmartAppt/Services/Implementation/BusinessService.cs:303-304 | the listed services are exactly the read ones of the business |
| Management.ServicePage | src/Business/Business.SmartAppt/Services/Implementation/BusinessService.cs:301-307 | the first 100000 stored services, those of the business, then `Skip(skip).Take(take)` |
| Management.BookingsFilter | src/Business/Business.SmartAppt/Services/Implementation/BusinessService.cs:655-663 | the filter of GetBookingsAsync: the business, the optional service and date, and the status unless blank |
| Management.DailyBookingsCheck | src/Business/Business.SmartAppt/Services/Implementation/BusinessService.cs:493-525 | the guards of GetDailyBookingsAsync in order: ids, `skip < 0 or take outside 1..500`, business, service, owner |
| Management.ServicePageBounds | src/Business/Business.SmartAppt/Services/Implementation/BusinessService.cs:301-307 | a service page has at most `take` services, all stored and of the business |
| Management.DistinctCustomers | src/Business/Business.SmartAppt/Services/Implementation/BusinessService.cs:550-553 | the customer ids of the page, each once |
| Management.ShortOf | src/Business/Business.SmartAppt/Services/Implementation/BusinessService.cs:570-584 | the customer summary of a booking: the stored customer's fields, or the booking's customer id with an empty name when none is stored |
| CustomerSide.CustomerService.CancelBooking | src/Business/Business.SmartAppt/Services/Implementation/CustomerService.cs:27-52 | answers the cancel rule's status; on success sets the booking Cancelled whatever its status, otherwise writes nothing |
| CustomerSide.CustomerService.CreateBooking | src/Business/Business.SmartAppt/Services/Implementation/CustomerService.cs:54-170 | answers the create pipeline's status; on success appends exactly the new booking and nothing else, otherwise writes nothing; the store stays valid |
| CustomerSide.CustomerService.DeleteBooking | src/Business/Business.SmartAppt/Services/Implementation/CustomerService.cs:172-196 | answers the delete rule's status; on success removes the booking's rows, otherwise writes nothing |
| CustomerSide.CustomerService.GetDailyFreeSlots | src/Business/Business.SmartAppt/Services/Implementation/CustomerService.cs:198-279 | Busy with no slots on a holiday or a weekday without hours; on success the slots are increasing and are exactly the grid slots no confirmed booking of the service starts at |
| CustomerSide.CustomerService.GetMonthlyCalendar | src/Business/Business.SmartAppt/Services/Implementation/CustomerService.cs:281-331 | answers the guards' status; on success one entry per day of the month, each equal to the business-side availability |
| CustomerSide.CustomerService.GetMyBookings | src/Business/Business.SmartAppt/Services/Implementation/CustomerService.cs:334-354 | refuses skip outside [0,100) and take outside (0,100); otherwise a page of at most `take` of the customer's own bookings |
| CustomerSide.CustomerService.UpdateBooking | src/Business/Business.SmartAppt/Services/Implementation/CustomerService.cs:356-443 | answers the move pipeline's status; on success rewrites the booking's rows with the moved booking, otherwise writes nothing |
| BusinessSide.BusinessService.CreateBusiness | src/Business/Business.SmartAppt/Services/Implementation/BusinessService.cs:31-73 | a blank name answers ValidationError and writes nothing; otherwise the business is stored under a new positive id with its name trimmed |
| BusinessSide.BusinessService.UpdateBusinessById | src/Business/Business.SmartAppt/Services/Implementation/BusinessService.cs:76-116 | a blank name or a missing business writes nothing; otherwise every field is replaced, the name trimmed |
| BusinessSide.BusinessService.GetBusinessById | src/Business/Business.SmartAppt/Services/Implementation/BusinessService.cs:118-145 | the stored business, or InvalidBusiness when there is none |
| BusinessSide.BusinessService.DeleteBusiness | src/Business/Business.SmartAppt/Services/Implementation/BusinessService.cs:147-174 | an existing business is removed and nothing else changes; a missing one answers InvalidBusiness |
| BusinessSide.BusinessService.DeleteService | src/Business/Business.SmartAppt/Services/Implementation/BusinessService.cs:249-282 | a non-positive or unknown id answers InvalidService; otherwise the service's rows are removed and it is no longer found |
| BusinessSide.BusinessService.AddService | src/Business/Business.SmartAppt/Services/Implementation/BusinessService.cs:176-246 | answers the service checks' status; on success appends exactly the new active service with its trimmed name, otherwise writes nothing |
| BusinessSide.BusinessService.GetMyServices | src/Business/Business.SmartAppt/Services/Implementation/BusinessService.cs:284-324 | refuses a non-positive business, skip outside [0,100) and take outside (0,100); otherwise at most `take` services, all of the business |
| BusinessSide.BusinessService.DeactivateService | src/Business/Business.SmartAppt/Services/Implementation/BusinessService.cs:326-376 | answers the deactivation rule's status; on success writes the service back inactive, otherwise writes nothing |
| BusinessSide.BusinessService.GetMonthlyCalendar | src/Business/Business.SmartAppt/Services/Implementation/BusinessService.cs:377-453 | answers the guards in their order; on success one entry per day, numbered 1..n, closed days without free slots, each the day's availability |
| BusinessSide.BusinessService.GetDailyBookings | src/Business/Business.SmartAppt/Services/Implementation/BusinessService.cs:489-613 | answers the guards in their order; on success each booking of the page is paired with its customer's summary, or with its id and an empty name when the customer is gone |
| BusinessSide.BusinessService.GetBookings | src/Business/Business.SmartAppt/Services/Implementation/BusinessService.cs:615-680 | refuses skip outside [0,1000) and take outside (0,1000]; otherwise at most `take` bookings of the business, matching the service and date when given |
| BusinessSide.BusinessService.DecideBooking | src/Business/Business.SmartAppt/Services/Implementation/BusinessService.cs:681-752 | answers the decision's status and writes the decided status only when it changes |

## Left out

- **Repository exceptions.** Every `catch` that turns a repository exception into
  UnknownError is left out, because the in-memory store does not fail. The exceptions
  the model can name are modelled:
  - `DateTime` refusing a year or month in the calendars, and `DateOnly.AddDays`
    overflowing past December 9999 (`Clock.CalendarMonthOk`);
  - the division by a zero duration in the customer-side day availability.
- **Concurrency.** Two concurrent creates can both pass the conflict scan before either
  writes. The model runs one call at a time.
- **`DateTime` range.** A start near year 9999 makes `AddMinutes` throw; instants in the
  model are unbounded.
- **Null arguments.** Null DTOs and null names are left out, except the `service == null`
  check of AddServiceAsync, which is modelled as `None`.
- **Booking statuses.** A status is one of Pending, Confirmed and Cancelled. Arbitrary
  status strings in a request or in the status filter of GetBookingsAsync are not
  modelled. The filter compares status text exactly, and any database collation is
  not part of this model.
- **Row order.** Query results and pages come in storage order. The ORDER BY of the SQL
  repositories is not part of this model.
- **Opening hours.** They are a map from weekday to one window. Several rows for
  one weekday, which `FirstOrDefault` would resolve by order, are not modelled.
- **Booking counts.** `GetBookingsCountByBusinessAsync` is an input map, because which
  statuses it counts is not part of this model.
- **White space.** `Text.IsWhiteSpace` covers the ASCII and Latin-1 white-space
  characters, not the whole Unicode class.
- **Create success status.** The success answer of CreateBookingAsync is a BookingDto
  whose status is never set; the default of the status enum is not part of this model.
  The model answers Success.
- **Repository writes.** DeleteAsync of a business, and the by-id writes and deletes,
  act on every row with that id. Database cascades and foreign-key failures are not
  modelled.
- **Free-slot loop termination.** The loop never ends on a service whose duration is not
  positive. `Store.Valid()` requires every stored duration to be positive, as
  AddServiceAsync ensures, so the model does not reach that case.
- `CustomerSide.CustomerService.GetMonthlyCalendar`: the customer-side calendar's
  failure when a day divides by a zero duration is stated by
  `Admission.CalendarStatus`, and `Admission.CalendarNeverDividesByZero` shows it
  never fires on a valid store.

/**
 * The availability engine: the slot grid of one day, the free slots left on
 * it, and the open / has-free-slots verdict for each day of a month, as the
 * business side and the customer side each compute it.
 */
module Availability {
  import opened Clock
  import opened Model

  /** DayAvailability: one entry of the monthly calendar. */
  datatype DayAvailability = DayAvailability(day: int, isOpen: bool, hasFreeSlots: bool)

  // ---------------------------------------------------------------------------
  // The slot grid

  /**
   * The candidate start times of one day: `slot`, `slot + step`, ... while a
   * whole service still fits before `close`.
   */
  function Grid(slot: nat, close: nat, step: nat): seq<nat>
    requires step > 0
    decreases if slot <= close then close - slot else 0
  {
    if slot + step <= close then [slot] + Grid(slot + step, close, step) else []
  }

  /** A time of day on the grid that starts at `open`: aligned, and the service fits. */
  predicate OnGrid(open: nat, close: nat, step: nat, t: nat)
    requires step > 0
  {
    open <= t && (t - open) % step == 0 && t + step <= close
  }

  predicate Increasing(s: seq<nat>) {
    forall i, j :: 0 <= i < j < |s| ==> s[i] < s[j]
  }

  lemma ModStep(x: nat, step: nat)
    requires step > 0
    ensures x >= step ==> (x - step) % step == x % step
    ensures 0 < x < step ==> x % step != 0
    ensures x == 0 ==> x % step == 0
  {
    if x >= step {
      DivUnique(x, step, (x - step) / step + 1, (x - step) % step);
    } else {
      DivUnique(x, step, 0, x);
    }
  }

  /** The grid holds exactly the aligned start times at which the service still fits. */
  lemma {:induction false} GridMember(slot: nat, close: nat, step: nat, t: nat)
    requires step > 0
    ensures t in Grid(slot, close, step) <==> OnGrid(slot, close, step, t)
    decreases if slot <= close then close - slot else 0
  {
    if slot + step <= close {
      GridMember(slot + step, close, step, t);
      if t >= slot {
        ModStep(t - slot, step);
      }
    }
  }

  /** The grid has floor((close - open) / step) slots. */
  lemma {:induction false} GridLength(slot: nat, close: nat, step: nat)
    requires step > 0
    ensures |Grid(slot, close, step)| == if slot <= close then (close - slot) / step else 0
    decreases if slot <= close then close - slot else 0
  {
    if slot + step <= close {
      GridLength(slot + step, close, step);
      var x := close - slot - step;
      DivUnique(close - slot, step, x / step + 1, x % step);
    } else if slot <= close {
      DivUnique(close - slot, step, 0, close - slot);
    }
  }

  /** The k-th slot is open + k * step. */
  lemma {:induction false} GridAt(slot: nat, close: nat, step: nat, k: nat)
    requires step > 0 && k < |Grid(slot, close, step)|
    ensures Grid(slot, close, step)[k] == slot + k * step
    decreases k
  {
    if k > 0 {
      GridAt(slot + step, close, step, k - 1);
      assert (slot + step) + (k - 1) * step == slot + k * step;
    }
  }

  /** The grid is in strictly increasing order. */
  lemma {:induction false} GridIncreasing(slot: nat, close: nat, step: nat)
    requires step > 0
    ensures Increasing(Grid(slot, close, step))
  {
    var g := Grid(slot, close, step);
    forall i, j | 0 <= i < j < |g| ensures g[i] < g[j] {
      GridAt(slot, close, step, i);
      GridAt(slot, close, step, j);
      MulLe(i + 1, j, step);
    }
  }

  /** The slots of a grid that no booked start time occupies, in grid order. */
  function FreeOf(grid: seq<nat>, booked: set<nat>): (r: seq<nat>)
    ensures |r| <= |grid|
  {
    if grid == [] then []
    else (if grid[0] in booked then [] else [grid[0]]) + FreeOf(grid[1..], booked)
  }

  /** A time is free exactly when it is on the grid and not booked. */
  lemma {:induction false} FreeOfMember(grid: seq<nat>, booked: set<nat>, t: nat)
    ensures t in FreeOf(grid, booked) <==> t in grid && t !in booked
  {
    if grid != [] {
      FreeOfMember(grid[1..], booked, t);
      assert grid == [grid[0]] + grid[1..];
    }
  }

  /** Removing booked slots keeps the order of the grid. */
  lemma {:induction false} FreeOfIncreasing(grid: seq<nat>, booked: set<nat>)
    requires Increasing(grid)
    ensures Increasing(FreeOf(grid, booked))
  {
    if grid != [] {
      var tail := grid[1..];
      assert Increasing(tail) by {
        forall i, j | 0 <= i < j < |tail| ensures tail[i] < tail[j] {
          assert tail[i] == grid[i + 1] && tail[j] == grid[j + 1];
        }
      }
      FreeOfIncreasing(tail, booked);
      var rest := FreeOf(tail, booked);
      var head: seq<nat> := if grid[0] in booked then [] else [grid[0]];
      var r := head + rest;
      assert r == FreeOf(grid, booked);
      forall i, j | 0 <= i < j < |r| ensures r[i] < r[j] {
        if i < |head| {
          assert r[j] == rest[j - |head|];
          FreeOfMember(tail, booked, r[j]);
          var k :| 0 <= k < |tail| && tail[k] == r[j];
          assert r[j] == grid[k + 1];
        } else {
          assert r[i] == rest[i - |head|] && r[j] == rest[j - |head|];
        }
      }
    }
  }

  /** The walk itself: from `slot`, every unbooked slot in steps of `step` while the service fits. */
  function FreeFrom(slot: nat, close: nat, step: nat, booked: set<nat>): seq<nat>
    requires step > 0
    decreases if slot <= close then close - slot else 0
  {
    if slot + step > close then []
    else if slot in booked then FreeFrom(slot + step, close, step, booked)
    else [slot] + FreeFrom(slot + step, close, step, booked)
  }

  /** The walk yields the unbooked slots of the grid. */
  lemma {:induction false} FreeFromIsFreeOfGrid(slot: nat, close: nat, step: nat, booked: set<nat>)
    requires step > 0
    ensures FreeFrom(slot, close, step, booked) == FreeOf(Grid(slot, close, step), booked)
    decreases if slot <= close then close - slot else 0
  {
    if slot + step <= close {
      FreeFromIsFreeOfGrid(slot + step, close, step, booked);
      FreeOfStep(slot, close, step, booked);
      var head: seq<nat> := if slot in booked then [] else [slot];
      assert FreeFrom(slot, close, step, booked) == head + FreeFrom(slot + step, close, step, booked);
    } else {
      assert Grid(slot, close, step) == [];
    }
  }

  /** One step of the walk: the first slot, kept or not, then the rest of the grid. */
  lemma FreeOfStep(slot: nat, close: nat, step: nat, booked: set<nat>)
    requires step > 0 && slot + step <= close
    ensures FreeOf(Grid(slot, close, step), booked)
      == (if slot in booked then [] else [slot]) + FreeOf(Grid(slot + step, close, step), booked)
  {
    var g := Grid(slot, close, step);
    assert g[0] == slot && g[1..] == Grid(slot + step, close, step);
  }

  // ---------------------------------------------------------------------------
  // The daily free slots (CustomerService.GetDailyFreeSlots, the while loop)

  /**
   * Walks the grid from the opening time in steps of the service duration and
   * keeps each slot that is not the time of day of a booked start.
   */
  method FreeSlots(open: nat, close: nat, durationMin: int, booked: set<nat>) returns (free: seq<nat>)
    requires durationMin > 0
    ensures free == FreeOf(Grid(open, close, durationMin * TicksPerMinute), booked)
    ensures Increasing(free)
    ensures forall t :: t in free <==> OnGrid(open, close, durationMin * TicksPerMinute, t) && t !in booked
    ensures |free| <= if open <= close then (close - open) / (durationMin * TicksPerMinute) else 0
  {
    var step: nat := durationMin * TicksPerMinute;
    free := [];
    var slot := open;
    while slot + step <= close
      invariant open <= slot
      invariant free + FreeFrom(slot, close, step, booked) == FreeFrom(open, close, step, booked)
      decreases close - slot
    {
      if slot !in booked {
        free := free + [slot];
      }
      slot := slot + step;
    }
    FreeFromIsFreeOfGrid(open, close, step, booked);
    FreeOfGrid(open, close, step, booked);
  }

  /** The free slots of a grid: in order, exactly the unbooked grid times, at most the grid's size. */
  lemma FreeOfGrid(open: nat, close: nat, step: nat, booked: set<nat>)
    requires step > 0
    ensures Increasing(FreeOf(Grid(open, close, step), booked))
    ensures forall t :: t in FreeOf(Grid(open, close, step), booked) <==> OnGrid(open, close, step, t) && t !in booked
    ensures |FreeOf(Grid(open, close, step), booked)| <= if open <= close then (close - open) / step else 0
  {
    GridIncreasing(open, close, step);
    FreeOfIncreasing(Grid(open, close, step), booked);
    forall t ensures t in FreeOf(Grid(open, close, step), booked) <==> OnGrid(open, close, step, t) && t !in booked {
      GridMember(open, close, step, t);
      FreeOfMember(Grid(open, close, step), booked, t);
    }
    GridLength(open, close, step);
  }

  // ---------------------------------------------------------------------------
  // One day of the monthly calendar

  /** (int)(CloseTime - OpenTime).TotalMinutes: whole minutes, truncated toward zero. */
  function OpenMinutes(h: Hours): int {
    TruncDiv(h.closeTime - h.openTime, TicksPerMinute)
  }

  /** BookingsCount.TryGetValue: a date missing from the counts counts as zero. */
  function BookedCount(counts: map<nat, int>, day: nat): int {
    if day in counts then counts[day] else 0
  }

  /** A day is closed when it is in the past, a holiday, or a weekday without hours. */
  predicate IsClosed(day: nat, today: nat, holidays: set<nat>, weekHours: map<int, Hours>) {
    day < today || day in holidays || WeekdayOf(day) !in weekHours
  }

  /** The business side's maxSlots: zero when the duration is not positive. */
  function Capacity(h: Hours, durationMin: int): int {
    if durationMin > 0 then TruncDiv(OpenMinutes(h), durationMin) else 0
  }

  /** BusinessService.GetDayAvailability. */
  function BusinessDay(
    day: nat, dayOfMonth: int, today: nat, holidays: set<nat>,
    weekHours: map<int, Hours>, durationMin: int, counts: map<nat, int>): (r: DayAvailability)
    ensures r.day == dayOfMonth
    ensures !r.isOpen ==> !r.hasFreeSlots
    ensures r.isOpen <==> !IsClosed(day, today, holidays, weekHours)
  {
    if day < today then DayAvailability(dayOfMonth, false, false)
    else if day in holidays then DayAvailability(dayOfMonth, false, false)
    else if WeekdayOf(day) !in weekHours then DayAvailability(dayOfMonth, false, false)
    else
      var maxSlots := Capacity(weekHours[WeekdayOf(day)], durationMin);
      DayAvailability(dayOfMonth, true, BookedCount(counts, day) < maxSlots)
  }

  /**
   * CustomerService.GetDayAvailability: the same rules, but `openMinutes / durationMin`
   * is not guarded, so a zero duration throws (None) on a day that reaches it.
   */
  function CustomerDay(
    day: nat, dayOfMonth: int, today: nat, holidays: set<nat>,
    weekHours: map<int, Hours>, durationMin: int, counts: map<nat, int>): Option<DayAvailability>
  {
    if day < today then Some(DayAvailability(dayOfMonth, false, false))
    else if day in holidays then Some(DayAvailability(dayOfMonth, false, false))
    else if WeekdayOf(day) !in weekHours then Some(DayAvailability(dayOfMonth, false, false))
    else if durationMin == 0 then None
    else
      var maxSlots := TruncDiv(OpenMinutes(weekHours[WeekdayOf(day)]), durationMin);
      Some(DayAvailability(dayOfMonth, true, BookedCount(counts, day) < maxSlots))
  }

  /**
   * On an open day the verdict is a capacity test: there are free slots exactly
   * when the booked count is below the number of whole services that fit.
   */
  lemma {:induction false} OpenDayCapacity(
    day: nat, dayOfMonth: int, today: nat, holidays: set<nat>,
    weekHours: map<int, Hours>, durationMin: int, counts: map<nat, int>)
    requires !IsClosed(day, today, holidays, weekHours)
    ensures var r := BusinessDay(day, dayOfMonth, today, holidays, weekHours, durationMin, counts);
      var h := weekHours[WeekdayOf(day)];
      && r.isOpen
      && (r.hasFreeSlots <==> BookedCount(counts, day) < Capacity(h, durationMin))
      && (durationMin <= 0 ==> !r.hasFreeSlots || BookedCount(counts, day) < 0)
  {
  }

  /** (x / a) / b == x / (a * b) for natural numbers. */
  lemma NestedDiv(x: nat, a: nat, b: nat)
    requires a > 0 && b > 0
    ensures x / a / b == x / (a * b)
  {
    var q1, r1 := x / a, x % a;
    var q2, r2 := q1 / b, q1 % b;
    assert x == q1 * a + r1;
    assert q1 == q2 * b + r2;
    assert q1 * a == (q2 * b) * a + r2 * a;
    assert (q2 * b) * a == q2 * (a * b);
    MulLe(r2, b - 1, a);
    assert (b - 1) * a == a * b - a;
    DivUnique(x, a * b, q2, r2 * a + r1);
  }

  /**
   * The calendar's capacity is the size of the day's slot grid: the business side's
   * maxSlots counts exactly the slots the daily free-slot list walks.
   */
  lemma {:induction false} CapacityIsGridSize(h: Hours, durationMin: int)
    requires durationMin > 0 && h.openTime <= h.closeTime
    ensures Capacity(h, durationMin) == |Grid(h.openTime, h.closeTime, durationMin * TicksPerMinute)|
  {
    var x := h.closeTime - h.openTime;
    NestedDiv(x, TicksPerMinute, durationMin);
    assert TicksPerMinute * durationMin == durationMin * TicksPerMinute;
    GridLength(h.openTime, h.closeTime, durationMin * TicksPerMinute);
  }

  /**
   * The two copies of GetDayAvailability agree whenever the duration is positive;
   * the customer copy fails exactly on an open day with a zero duration.
   */
  lemma {:induction false} CustomerDayAgrees(
    day: nat, dayOfMonth: int, today: nat, holidays: set<nat>,
    weekHours: map<int, Hours>, durationMin: int, counts: map<nat, int>)
    ensures durationMin > 0 ==>
      CustomerDay(day, dayOfMonth, today, holidays, weekHours, durationMin, counts)
        == Some(BusinessDay(day, dayOfMonth, today, holidays, weekHours, durationMin, counts))
    ensures CustomerDay(day, dayOfMonth, today, holidays, weekHours, durationMin, counts).None?
        <==> durationMin == 0 && !IsClosed(day, today, holidays, weekHours)
  {
  }

  // ---------------------------------------------------------------------------
  // The month loops (GetMonthlyCalendarAsync / GetMonthlyCalendar)

  /** The `for d in 1..daysInMonth` loop of BusinessService.GetMonthlyCalendarAsync. */
  method BusinessMonth(
    year: int, month: int, today: nat, holidays: set<nat>,
    weekHours: map<int, Hours>, durationMin: int, counts: map<nat, int>)
    returns (days: seq<DayAvailability>)
    requires ValidYearMonth(year, month)
    ensures |days| == DaysInMonth(year, month)
    ensures forall i :: 0 <= i < |days| ==> days[i].day == i + 1
    ensures forall i :: 0 <= i < |days| ==> !days[i].isOpen ==> !days[i].hasFreeSlots
    ensures forall i :: 0 <= i < |days| ==>
      days[i] == BusinessDay(DayNumber(year, month, i + 1), i + 1, today, holidays, weekHours, durationMin, counts)
  {
    var n := DaysInMonth(year, month);
    days := [];
    for d := 1 to n + 1
      invariant |days| == d - 1
      invariant forall i :: 0 <= i < |days| ==>
        days[i] == BusinessDay(DayNumber(year, month, i + 1), i + 1, today, holidays, weekHours, durationMin, counts)
    {
      var current := DayNumber(year, month, d);
      days := days + [BusinessDay(current, d, today, holidays, weekHours, durationMin, counts)];
    }
  }

  /**
   * The loop of CustomerService.GetMonthlyCalendar: None when some day's
   * availability throws, which the caller reports as UnknownError.
   */
  method CustomerMonth(
    year: int, month: int, today: nat, holidays: set<nat>,
    weekHours: map<int, Hours>, durationMin: int, counts: map<nat, int>)
    returns (days: Option<seq<DayAvailability>>)
    requires ValidYearMonth(year, month)
    ensures days.None? <==>
      (exists d :: 1 <= d <= DaysInMonth(year, month)
         && CustomerDay(DayNumber(year, month, d), d, today, holidays, weekHours, durationMin, counts).None?)
    ensures days.Some? ==> |days.value| == DaysInMonth(year, month)
    ensures days.Some? ==> forall i :: 0 <= i < |days.value| ==>
      Some(days.value[i]) == CustomerDay(DayNumber(year, month, i + 1), i + 1, today, holidays, weekHours, durationMin, counts)
  {
    var n := DaysInMonth(year, month);
    var acc := [];
    for d := 1 to n + 1
      invariant |acc| == d - 1
      invariant forall i :: 0 <= i < |acc| ==>
        Some(acc[i]) == CustomerDay(DayNumber(year, month, i + 1), i + 1, today, holidays, weekHours, durationMin, counts)
    {
      var a := CustomerDay(DayNumber(year, month, d), d, today, holidays, weekHours, durationMin, counts);
      if a.None? {
        return None;
      }
      acc := acc + [a.value];
    }
    days := Some(acc);
    forall d | 1 <= d <= n
      ensures CustomerDay(DayNumber(year, month, d), d, today, holidays, weekHours, durationMin, counts).Some?
    {
      assert Some(acc[d - 1]) == CustomerDay(DayNumber(year, month, d), d, today, holidays, weekHours, durationMin, counts);
    }
  }
}

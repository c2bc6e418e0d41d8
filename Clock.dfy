/**
 * Time arithmetic of the booking engine: instants are .NET DateTime values
 * counted in ticks (100 ns) from 0001-01-01 00:00, which was a Monday, and
 * calendar dates are day numbers counted from that same origin.
 */
module Clock {

  const TicksPerMillisecond: nat := 10_000
  const TicksPerSecond: nat := 10_000_000
  const TicksPerMinute: nat := 600_000_000
  const TicksPerDay: nat := 864_000_000_000

  /** DateTime.Date, as a day number. */
  function DateOf(t: nat): nat {
    t / TicksPerDay
  }

  /** DateTime.TimeOfDay, in ticks since midnight. */
  function TimeOfDay(t: nat): (r: nat)
    ensures r < TicksPerDay
    ensures t == DateOf(t) * TicksPerDay + r
  {
    t % TicksPerDay
  }

  /** The instant at time of day `tod` on day `day` (DateTime.Date + TimeSpan). */
  function At(day: nat, tod: nat): nat {
    day * TicksPerDay + tod
  }

  /** DateTime.Millisecond: the millisecond component, 0..999. */
  function Millisecond(t: nat): (r: nat)
    ensures r < 1000
  {
    (t / TicksPerMillisecond) % 1000
  }

  /**
   * t.AddMilliseconds(-t.Millisecond): clears the millisecond component and
   * nothing else, so ticks below one millisecond survive.
   */
  function DropMilliseconds(t: nat): (r: nat)
    ensures r == t / TicksPerSecond * TicksPerSecond + t % TicksPerMillisecond
    ensures r <= t < r + TicksPerSecond
    ensures Millisecond(r) == 0
    ensures r % TicksPerMillisecond == t % TicksPerMillisecond
  {
    DropMillisecondsShape(t);
    t - Millisecond(t) * TicksPerMillisecond
  }

  lemma DropMillisecondsShape(t: nat)
    ensures t - Millisecond(t) * TicksPerMillisecond == t / TicksPerSecond * TicksPerSecond + t % TicksPerMillisecond
    ensures Millisecond(t / TicksPerSecond * TicksPerSecond + t % TicksPerMillisecond) == 0
  {
    var q := t / TicksPerMillisecond;
    var s := t % TicksPerMillisecond;
    assert t == q * TicksPerMillisecond + s;
    var k := q / 1000;
    assert q == k * 1000 + q % 1000;
    assert t == k * TicksPerSecond + (q % 1000) * TicksPerMillisecond + s;
    assert (q % 1000) * TicksPerMillisecond + s < TicksPerSecond;
    DivUnique(t, TicksPerSecond, k, (q % 1000) * TicksPerMillisecond + s);
    var r := k * TicksPerSecond + s;
    assert r == (k * 1000) * TicksPerMillisecond + s;
    DivUnique(r, TicksPerMillisecond, k * 1000, s);
    assert (k * 1000) % 1000 == 0;
  }

  /** Clearing the millisecond component twice is the same as once. */
  lemma {:induction false} DropMillisecondsIdempotent(t: nat)
    ensures DropMilliseconds(DropMilliseconds(t)) == DropMilliseconds(t)
  {
    var r := DropMilliseconds(t);
    assert Millisecond(r) == 0;
  }

  /** Clearing the milliseconds never moves an instant to another date. */
  lemma {:induction false} DropMillisecondsKeepsDate(t: nat)
    ensures DateOf(DropMilliseconds(t)) == DateOf(t)
  {
    var r := DropMilliseconds(t);
    var d := DateOf(t);
    var secs := t / TicksPerSecond;
    assert d * TicksPerDay == (d * 86400) * TicksPerSecond;
    assert t == secs * TicksPerSecond + t % TicksPerSecond;
    assert d * TicksPerDay <= t;
    DivLowerBound(t, TicksPerSecond, d * 86400);
    assert r >= secs * TicksPerSecond >= d * TicksPerDay;
    assert r <= t < (d + 1) * TicksPerDay;
    DivUnique(r, TicksPerDay, d, r - d * TicksPerDay);
  }

  lemma MulLe(x: nat, y: nat, b: nat)
    requires x <= y
    ensures x * b <= y * b
  {
    assert y * b == x * b + (y - x) * b;
  }

  /** Euclidean quotient and remainder are determined by the defining equation. */
  lemma DivUnique(a: nat, b: nat, q: nat, r: nat)
    requires b > 0 && r < b && a == q * b + r
    ensures a / b == q && a % b == r
  {
    var q', r' := a / b, a % b;
    assert a == q' * b + r';
    if q' < q {
      MulLe(q' + 1, q, b);
      assert false;
    } else if q' > q {
      MulLe(q + 1, q', b);
      assert false;
    }
  }

  /** A multiple of `b` that does not exceed `a` is at most `a / b` times `b`. */
  lemma DivLowerBound(a: nat, b: nat, k: nat)
    requires b > 0 && k * b <= a
    ensures k <= a / b
  {
    assert a == (a / b) * b + a % b;
    if k > a / b {
      MulLe(a / b + 1, k, b);
      assert false;
    }
  }

  /** DateTime.DayOfWeek of a day number: Sunday = 0, Monday = 1, ..., Saturday = 6. */
  function DayOfWeek(day: nat): (r: nat)
    ensures r < 7
  {
    (day + 1) % 7
  }

  /** ((int)DayOfWeek + 6) % 7 + 1: the weekday numbering of the opening hours. */
  function IsoWeekday(dow: nat): int {
    (dow + 6) % 7 + 1
  }

  /** The weekday number of a date: in 1..7, Monday = 1 and Sunday = 7. */
  function WeekdayOf(day: nat): int {
    IsoWeekday(DayOfWeek(day))
  }

  lemma {:induction false} WeekdayNumbering(day: nat)
    ensures 1 <= WeekdayOf(day) <= 7
    ensures WeekdayOf(day) == day % 7 + 1
    ensures DayOfWeek(day) == 0 <==> WeekdayOf(day) == 7
    ensures DayOfWeek(day) == 1 <==> WeekdayOf(day) == 1
    ensures WeekdayOf(day + 7) == WeekdayOf(day)
  {
    var k := day / 7;
    var m := day % 7;
    assert day == 7 * k + m;
    DivUnique(day + 1, 7, if m == 6 then k + 1 else k, if m == 6 then 0 else m + 1);
    DivUnique(day + 8, 7, if m == 6 then k + 2 else k + 1, if m == 6 then 0 else m + 1);
    DivUnique(day + 7, 7, k + 1, m);
    var dow := DayOfWeek(day);
    DivUnique(dow + 6, 7, if dow == 0 then 0 else 1, if dow == 0 then 6 else dow - 1);
    var dow7 := DayOfWeek(day + 7);
    assert dow7 == dow;
  }

  predicate IsLeapYear(year: int) {
    year % 4 == 0 && (year % 100 != 0 || year % 400 == 0)
  }

  /** The range DateTime accepts: years 1..9999, months 1..12. */
  predicate ValidYearMonth(year: int, month: int) {
    1 <= year <= 9999 && 1 <= month <= 12
  }

  /**
   * The months whose calendar can be built: DateTime accepts the year and month,
   * and the end of the month, DateOnly(year, month, 1).AddDays(DaysInMonth), is
   * still a date, which rules out December 9999.
   */
  predicate CalendarMonthOk(year: int, month: int) {
    ValidYearMonth(year, month) && !(year == 9999 && month == 12)
  }

  /** DateTime.DaysInMonth. */
  function DaysInMonth(year: int, month: int): (n: int)
    requires 1 <= month <= 12
    ensures 28 <= n <= 31
    ensures month == 2 ==> (n == 29 <==> IsLeapYear(year))
  {
    if month == 2 then (if IsLeapYear(year) then 29 else 28)
    else if month == 4 || month == 6 || month == 9 || month == 11 then 30
    else 31
  }

  function DaysBeforeYear(year: int): nat
    requires year >= 1
  {
    var p := year - 1;
    assert p / 100 <= p / 4;
    365 * p + p / 4 - p / 100 + p / 400
  }

  function DaysBeforeMonth(year: int, month: int): nat
    requires 1 <= month <= 12
  {
    if month == 1 then 0 else DaysBeforeMonth(year, month - 1) + DaysInMonth(year, month - 1)
  }

  /** new DateTime(year, month, day).Date as a day number. */
  function DayNumber(year: int, month: int, day: int): nat
    requires ValidYearMonth(year, month) && 1 <= day <= DaysInMonth(year, month)
  {
    DaysBeforeYear(year) + DaysBeforeMonth(year, month) + day - 1
  }

  /** C#'s `/` on int: the quotient truncated toward zero. */
  function TruncDiv(a: int, b: int): (q: int)
    requires b != 0
    ensures a >= 0 && b > 0 ==> q == a / b
    ensures Abs(a - q * b) < Abs(b)
    ensures a - q * b == 0 || (a - q * b > 0) == (a > 0)
  {
    if a >= 0 && b > 0 then a / b
    else
      var q := Abs(a) / Abs(b);
      if (a >= 0) == (b > 0) then q else -q
  }

  function Abs(a: int): nat {
    if a < 0 then -a else a
  }
}

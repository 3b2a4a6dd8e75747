/** Local time as the core sees it through JavaScript's `Date`.

    A timestamp is an integer number of milliseconds; its local day is the
    floor of the timestamp divided by the length of a day, counted from
    1970-01-01, and the civil (proleptic Gregorian) date of a day number is
    found by walking years and then months. Time zones and daylight saving
    are not modelled: every day is exactly `MsPerDay` long.
 */
module LocalTime {

  const MsPerDay: int := 86400000

  /** A civil date whose month is 1..12 (as `getMonth() + 1`) and whose day
      is 1..31 (as `getDate()`). */
  datatype Date = Date(year: int, month: int, day: int)

  predicate IsLeap(y: int) {
    y % 4 == 0 && (y % 100 != 0 || y % 400 == 0)
  }

  function DaysInYear(y: int): int {
    if IsLeap(y) then 366 else 365
  }

  function DaysInMonth(y: int, m: int): (n: int)
    requires 1 <= m <= 12
    ensures 28 <= n <= 31
  {
    if m == 2 then (if IsLeap(y) then 29 else 28)
    else if m == 4 || m == 6 || m == 9 || m == 11 then 30
    else 31
  }

  predicate ValidDate(d: Date) {
    1 <= d.month <= 12 && 1 <= d.day <= DaysInMonth(d.year, d.month)
  }

  /** Days of year `y` before the first of month `m`. */
  function DaysBeforeMonth(y: int, m: int): int
    requires 1 <= m <= 12
  {
    (if m == 1 then 0 else if m == 2 then 31 else if m == 3 then 59
     else if m == 4 then 90 else if m == 5 then 120 else if m == 6 then 151
     else if m == 7 then 181 else if m == 8 then 212 else if m == 9 then 243
     else if m == 10 then 273 else if m == 11 then 304 else 334)
    + (if m > 2 && IsLeap(y) then 1 else 0)
  }

  lemma MonthStep(y: int, m: int)
    requires 1 <= m <= 12
    ensures m < 12 ==> DaysBeforeMonth(y, m + 1) == DaysBeforeMonth(y, m) + DaysInMonth(y, m)
    ensures m == 12 ==> DaysBeforeMonth(y, m) + DaysInMonth(y, m) == DaysInYear(y)
  {
  }

  lemma MonthOrder(y: int, a: int, b: int)
    requires 1 <= a < b <= 12
    ensures DaysBeforeMonth(y, a) + DaysInMonth(y, a) <= DaysBeforeMonth(y, b)
  {
  }

  /** Day number of January 1st of year `y`. */
  function DaysBeforeYear(y: int): int
    decreases if y < 1970 then 1970 - y else y - 1970
  {
    if y == 1970 then 0
    else if y > 1970 then DaysBeforeYear(y - 1) + DaysInYear(y - 1)
    else DaysBeforeYear(y + 1) - DaysInYear(y)
  }

  lemma YearStep(y: int)
    ensures DaysBeforeYear(y + 1) == DaysBeforeYear(y) + DaysInYear(y)
  {
  }

  lemma {:induction false} YearOrder(a: int, b: int)
    requires a < b
    ensures DaysBeforeYear(a) + DaysInYear(a) <= DaysBeforeYear(b)
    decreases b - a
  {
    YearStep(a);
    if a + 1 < b {
      YearOrder(a + 1, b);
    }
  }

  /** Days since 1970-01-01 of a civil date. */
  function DayNumber(d: Date): int
    requires 1 <= d.month <= 12
  {
    DaysBeforeYear(d.year) + DaysBeforeMonth(d.year, d.month) + d.day - 1
  }

  /** The year holding day number `n`, searched from year `y`. */
  function FindYear(y: int, n: int): (r: int)
    ensures DaysBeforeYear(r) <= n < DaysBeforeYear(r) + DaysInYear(r)
    decreases (if n < DaysBeforeYear(y) then 1 else 0),
              (if n < DaysBeforeYear(y) then DaysBeforeYear(y) - n else n - DaysBeforeYear(y))
  {
    YearStep(y);
    YearStep(y - 1);
    if n < DaysBeforeYear(y) then FindYear(y - 1, n)
    else if n >= DaysBeforeYear(y) + DaysInYear(y) then FindYear(y + 1, n)
    else y
  }

  /** The date of day `r` (0-based) of year `y`, counting from month `m`. */
  function FindMonth(y: int, m: int, r: int): (d: Date)
    requires 1 <= m <= 12 && 0 <= r && DaysBeforeMonth(y, m) + r < DaysInYear(y)
    ensures ValidDate(d) && d.year == y
    ensures DaysBeforeMonth(y, d.month) + d.day - 1 == DaysBeforeMonth(y, m) + r
    decreases 12 - m
  {
    MonthStep(y, m);
    if r < DaysInMonth(y, m) then Date(y, m, r + 1)
    else FindMonth(y, m + 1, r - DaysInMonth(y, m))
  }

  /** The civil date of day number `n`. */
  function FromDays(n: int): (d: Date)
    ensures ValidDate(d) && DayNumber(d) == n
  {
    var y := FindYear(1970, n);
    FindMonth(y, 1, n - DaysBeforeYear(y))
  }

  lemma DayNumberInYear(d: Date)
    requires ValidDate(d)
    ensures DaysBeforeYear(d.year) <= DayNumber(d) < DaysBeforeYear(d.year) + DaysInYear(d.year)
  {
    MonthStep(d.year, d.month);
    if d.month < 12 {
      MonthOrder(d.year, d.month, 12);
      MonthStep(d.year, 12);
    }
  }

  /** Distinct valid dates have distinct day numbers. */
  lemma DayNumberInjective(d1: Date, d2: Date)
    requires ValidDate(d1) && ValidDate(d2) && DayNumber(d1) == DayNumber(d2)
    ensures d1 == d2
  {
    DayNumberInYear(d1);
    DayNumberInYear(d2);
    if d1.year < d2.year {
      YearOrder(d1.year, d2.year);
    } else if d2.year < d1.year {
      YearOrder(d2.year, d1.year);
    }
    assert d1.year == d2.year;
    if d1.month < d2.month {
      MonthOrder(d1.year, d1.month, d2.month);
    } else if d2.month < d1.month {
      MonthOrder(d1.year, d2.month, d1.month);
    }
  }

  /** `FromDays` and `DayNumber` are inverse bijections between day numbers
      and valid civil dates. */
  lemma FromDaysDayNumber(d: Date)
    requires ValidDate(d)
    ensures FromDays(DayNumber(d)) == d
  {
    DayNumberInjective(FromDays(DayNumber(d)), d);
  }

  /** JavaScript's MakeDay (as used by `new Date(y, m, d)`, `setMonth` and
      `setDate`): a month index outside 0..11 carries into the year, a date
      outside the month carries into the neighbouring months. */
  function MakeDay(year: int, monthIndex: int, date: int): int {
    DayNumber(Date(year + monthIndex / 12, monthIndex % 12 + 1, 1)) + date - 1
  }

  lemma MakeDayOfDate(d: Date, date: int)
    requires 1 <= d.month <= 12
    ensures MakeDay(d.year, d.month - 1, date) == DayNumber(d) + date - d.day
  {
    assert (d.month - 1) / 12 == 0 && (d.month - 1) % 12 == d.month - 1;
  }

  /** Day 0 (1970-01-01) was a Thursday; 0 is Sunday as in `getDay()`. */
  function Weekday(n: int): (w: int)
    ensures 0 <= w < 7
  {
    (n + 4) % 7
  }

  // ----- timestamps -----

  /** The local day of a timestamp. */
  function DayOf(ts: int): int {
    ts / MsPerDay
  }

  /** Milliseconds since local midnight. */
  function TimeOfDay(ts: int): (t: int)
    ensures 0 <= t < MsPerDay && ts == DayOf(ts) * MsPerDay + t
  {
    ts % MsPerDay
  }

  /** `new Date(ts)` read through `getFullYear`, `getMonth() + 1`, `getDate`. */
  function CivilOf(ts: int): (d: Date)
    ensures ValidDate(d)
  {
    FromDays(DayOf(ts))
  }

  lemma DayOfMidnight(n: int, t: int)
    requires 0 <= t < MsPerDay
    ensures DayOf(n * MsPerDay + t) == n && TimeOfDay(n * MsPerDay + t) == t
  {
  }
}

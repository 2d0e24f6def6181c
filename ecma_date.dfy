/** ECMAScript's UTC date arithmetic, as the date helper relies on it.
    A time value at UTC midnight is represented by its day number: the number
    of whole days since 1970-01-01 (ECMAScript's Day(t)). Every date the core
    builds is at UTC midnight, so the time-of-day part never matters. */
module EcmaDate {

  /** A JavaScript Date object: a valid day number or an "Invalid Date". */
  datatype JsDate = Valid(day: int) | InvalidDate

  /** TimeClip: |t| <= 8.64e15 ms, that is at most 10^8 days either side of the epoch. */
  const MaxDay: int := 100_000_000

  predicate InTimeRange(n: int) {
    -MaxDay <= n <= MaxDay
  }

  /** TimeClip applied to a day number. */
  function Clip(n: int): (r: JsDate)
    ensures r.Valid? <==> InTimeRange(n)
    ensures r.Valid? ==> r.day == n
  {
    if InTimeRange(n) then Valid(n) else InvalidDate
  }

  predicate IsLeapYear(y: int) {
    y % 4 == 0 && (y % 100 != 0 || y % 400 == 0)
  }

  function DaysInYear(y: int): int {
    if IsLeapYear(y) then 366 else 365
  }

  /** Months are 1-based here (January is 1). */
  function DaysInMonth(y: int, m: int): int
    requires 1 <= m <= 12
  {
    if m == 2 then (if IsLeapYear(y) then 29 else 28)
    else if m == 4 || m == 6 || m == 9 || m == 11 then 30
    else 31
  }

  /** Number of days in months 1 .. m-1 of year y. */
  function DaysBeforeMonth(y: int, m: int): int
    requires 1 <= m <= 13
  {
    if m == 1 then 0 else DaysBeforeMonth(y, m - 1) + DaysInMonth(y, m - 1)
  }

  /** ECMAScript's DayFromYear: the day number of 1 January of year y, counted
      year by year from 1 January of year 0, which lies 719528 days before
      the epoch. */
  function DayFromYear(y: int): int
    decreases if y < 0 then -y else y
  {
    if y == 0 then -719528
    else if y > 0 then DayFromYear(y - 1) + DaysInYear(y - 1)
    else DayFromYear(y + 1) - DaysInYear(y)
  }

  predicate IsCalendarDate(y: int, m: int, d: int) {
    1 <= m <= 12 && 1 <= d <= DaysInMonth(y, m)
  }

  /** ECMAScript's WeekDay: 0 is Sunday, 1 is Monday, ..., 6 is Saturday.
      1970-01-01 was a Thursday. */
  function UtcDay(n: int): (r: int)
    ensures 0 <= r < 7
  {
    (n + 4) % 7
  }

  // ---------------------------------------------------------------------
  // Facts about the year and month tables

  lemma {:induction false} DayFromYearStep(y: int)
    ensures DayFromYear(y + 1) == DayFromYear(y) + DaysInYear(y)
  {
  }

  lemma {:induction false} DayFromYearMonotone(a: int, b: int)
    requires a <= b
    ensures DayFromYear(a) + 365 * (b - a) <= DayFromYear(b) <= DayFromYear(a) + 366 * (b - a)
    decreases b - a
  {
    if a < b {
      DayFromYearMonotone(a, b - 1);
      DayFromYearStep(b - 1);
    }
  }

  lemma {:induction false} DaysBeforeMonthYear(y: int)
    ensures DaysBeforeMonth(y, 13) == DaysInYear(y)
  {
    assert DaysBeforeMonth(y, 2) == 31;
    assert DaysBeforeMonth(y, 3) == 31 + DaysInMonth(y, 2);
    assert DaysBeforeMonth(y, 4) == DaysBeforeMonth(y, 3) + 31;
    assert DaysBeforeMonth(y, 5) == DaysBeforeMonth(y, 4) + 30;
    assert DaysBeforeMonth(y, 6) == DaysBeforeMonth(y, 5) + 31;
    assert DaysBeforeMonth(y, 7) == DaysBeforeMonth(y, 6) + 30;
    assert DaysBeforeMonth(y, 8) == DaysBeforeMonth(y, 7) + 31;
    assert DaysBeforeMonth(y, 9) == DaysBeforeMonth(y, 8) + 31;
    assert DaysBeforeMonth(y, 10) == DaysBeforeMonth(y, 9) + 30;
    assert DaysBeforeMonth(y, 11) == DaysBeforeMonth(y, 10) + 31;
    assert DaysBeforeMonth(y, 12) == DaysBeforeMonth(y, 11) + 30;
    assert DaysBeforeMonth(y, 13) == DaysBeforeMonth(y, 12) + 31;
  }

  lemma {:induction false} DaysBeforeMonthMonotone(y: int, a: int, b: int)
    requires 1 <= a <= b <= 13
    ensures DaysBeforeMonth(y, a) + 28 * (b - a) <= DaysBeforeMonth(y, b)
    decreases b - a
  {
    if a < b {
      DaysBeforeMonthMonotone(y, a, b - 1);
    }
  }

  // ---------------------------------------------------------------------
  // YearFromTime, MonthFromTime, DateFromTime

  /** The year containing day n, searching upwards from year y. */
  function YearUpFrom(n: int, y: int): (r: int)
    requires DayFromYear(y) <= n
    ensures DayFromYear(r) <= n < DayFromYear(r + 1)
    decreases n - DayFromYear(y)
  {
    DayFromYearStep(y);
    if n < DayFromYear(y + 1) then y else YearUpFrom(n, y + 1)
  }

  /** The year containing day n, searching downwards from year y. */
  function YearDownFrom(n: int, y: int): (r: int)
    requires n < DayFromYear(y + 1)
    ensures DayFromYear(r) <= n < DayFromYear(r + 1)
    decreases DayFromYear(y + 1) - n
  {
    DayFromYearStep(y);
    if DayFromYear(y) <= n then y else YearDownFrom(n, y - 1)
  }

  /** ECMAScript's YearFromTime (getUTCFullYear). */
  function YearOf(n: int): (r: int)
    ensures DayFromYear(r) <= n < DayFromYear(r + 1)
  {
    if DayFromYear(0) <= n then YearUpFrom(n, 0) else YearDownFrom(n, -1)
  }

  /** A year is determined by the bounds YearOf promises. */
  lemma {:induction false} YearOfUnique(n: int, y: int)
    requires DayFromYear(y) <= n < DayFromYear(y + 1)
    ensures YearOf(n) == y
  {
    var r := YearOf(n);
    if r < y {
      DayFromYearMonotone(r + 1, y);
    } else if y < r {
      DayFromYearMonotone(y + 1, r);
    }
  }

  /** Zero-based day within its year (ECMAScript's DayWithinYear). */
  function DayWithinYear(n: int): (r: int)
    ensures 0 <= r < DaysInYear(YearOf(n))
  {
    DayFromYearStep(YearOf(n));
    n - DayFromYear(YearOf(n))
  }

  function MonthFrom(y: int, d: int, m: int): (r: int)
    requires 1 <= m <= 12
    requires DaysBeforeMonth(y, m) <= d < DaysInYear(y)
    ensures m <= r <= 12
    ensures DaysBeforeMonth(y, r) <= d < DaysBeforeMonth(y, r + 1)
    decreases 12 - m
  {
    DaysBeforeMonthYear(y);
    if d < DaysBeforeMonth(y, m + 1) then m else MonthFrom(y, d, m + 1)
  }

  /** One-based month of day n (getUTCMonth() + 1). */
  function MonthOf(n: int): (r: int)
    ensures 1 <= r <= 12
  {
    MonthFrom(YearOf(n), DayWithinYear(n), 1)
  }

  /** Day n lies in the month MonthOf names. */
  lemma {:induction false} MonthOfBounds(n: int)
    ensures DaysBeforeMonth(YearOf(n), MonthOf(n)) <= DayWithinYear(n) < DaysBeforeMonth(YearOf(n), MonthOf(n) + 1)
  {
  }

  /** Day of the month of day n (getUTCDate). */
  function DateOf(n: int): (r: int)
    ensures 1 <= r <= 31
  {
    MonthOfBounds(n);
    DayWithinYear(n) - DaysBeforeMonth(YearOf(n), MonthOf(n)) + 1
  }

  /** The UTC year, month and date of day n form a calendar date. */
  lemma {:induction false} DateOfIsCalendarDate(n: int)
    ensures IsCalendarDate(YearOf(n), MonthOf(n), DateOf(n))
  {
    MonthOfBounds(n);
  }

  // ---------------------------------------------------------------------
  // MakeDay and the setters built on it

  /** ECMAScript's MakeDay(year, month, date) with a zero-based month that may lie
      outside 0..11: the excess is carried into the year, and a date beyond the
      month's end runs on into the following days. */
  function MakeDay(year: int, month0: int, date: int): int {
    var ym := year + month0 / 12;
    var mn := month0 % 12;
    DayFromYear(ym) + DaysBeforeMonth(ym, mn + 1) + date - 1
  }

  /** Date.UTC's treatment of the year argument: 0..99 means 1900..1999. */
  function MakeFullYear(y: int): (r: int)
    ensures 0 <= y <= 99 ==> r == 1900 + y
    ensures !(0 <= y <= 99) ==> r == y
  {
    if 0 <= y <= 99 then 1900 + y else y
  }

  /** `new Date(Date.UTC(year, month0, date))`. */
  function DateUtc(year: int, month0: int, date: int): JsDate {
    Clip(MakeDay(MakeFullYear(year), month0, date))
  }

  /** `d.setUTCDate(date)` on a valid date d: the same year and month, the given
      day-of-month (normalised), then TimeClip. */
  function SetUtcDate(d: JsDate, date: int): JsDate
    requires d.Valid?
  {
    Clip(MakeDay(YearOf(d.day), MonthOf(d.day) - 1, date))
  }

  /** `d.getUTCDate()`. */
  function GetUtcDate(d: JsDate): int
    requires d.Valid?
  {
    DateOf(d.day)
  }

  /** `d.getUTCDay()`. */
  function GetUtcDay(d: JsDate): int
    requires d.Valid?
  {
    UtcDay(d.day)
  }

  /** `d.getUTCMonth()`, zero-based. */
  function GetUtcMonth(d: JsDate): int
    requires d.Valid?
  {
    MonthOf(d.day) - 1
  }

  /** Setting the day-of-month to its current value plus k moves the date k days,
      whatever month or year boundary that crosses; a day outside the range is
      an Invalid Date. */
  lemma {:induction false} SetUtcDateAdds(d: JsDate, k: int)
    requires d.Valid?
    ensures SetUtcDate(d, GetUtcDate(d) + k) == Clip(d.day + k)
  {
    var m := MonthOf(d.day);
    assert (m - 1) / 12 == 0 && (m - 1) % 12 == m - 1;
  }

  /** The UTC components of MakeDay(y, m - 1, d) are (y, m, d) for every calendar date. */
  lemma {:induction false} CivilOfMakeDay(y: int, m: int, d: int)
    requires IsCalendarDate(y, m, d)
    ensures YearOf(MakeDay(y, m - 1, d)) == y
    ensures MonthOf(MakeDay(y, m - 1, d)) == m
    ensures DateOf(MakeDay(y, m - 1, d)) == d
  {
    assert (m - 1) / 12 == 0 && (m - 1) % 12 == m - 1;
    var n := MakeDay(y, m - 1, d);
    assert n == DayFromYear(y) + DaysBeforeMonth(y, m) + d - 1;
    DaysBeforeMonthMonotone(y, 1, m);
    DaysBeforeMonthMonotone(y, m + 1, 13);
    assert DaysBeforeMonth(y, m + 1) == DaysBeforeMonth(y, m) + DaysInMonth(y, m);
    DaysBeforeMonthYear(y);
    DayFromYearStep(y);
    YearOfUnique(n, y);
    var r := MonthOf(n);
    if r < m {
      DaysBeforeMonthMonotone(y, r + 1, m);
    } else if m < r {
      DaysBeforeMonthMonotone(y, m + 1, r);
    }
  }

  /** A day n from the first of month m of year y to the month's end has the
      UTC components (y, m, n - s + 1), where s is that first day. */
  lemma {:induction false} CivilOfDayInMonth(y: int, m: int, s: int, n: int)
    requires 1 <= m <= 12 && s == MakeDay(y, m - 1, 1)
    requires s <= n < s + DaysInMonth(y, m)
    ensures YearOf(n) == y && MonthOf(n) == m && DateOf(n) == n - s + 1
  {
    MakeDayShift(y, m - 1, 1, n - s);
    CivilOfMakeDay(y, m, n - s + 1);
  }

  /** Adding days to the date argument moves the day number as far. */
  lemma {:induction false} MakeDayShift(y: int, month0: int, date: int, j: int)
    ensures MakeDay(y, month0, date) + j == MakeDay(y, month0, date + j)
  {
  }

  /** MakeDay carries whole years out of the month argument. */
  lemma {:induction false} MakeDayCarry(y: int, month0: int, date: int)
    ensures MakeDay(y, month0, date) == MakeDay(y + month0 / 12, month0 % 12, date)
  {
    var mn := month0 % 12;
    assert mn / 12 == 0 && mn % 12 == mn;
  }

  /** Every month has 28 to 31 days. */
  lemma {:induction false} MonthLengthBounds(y: int, m: int)
    requires 1 <= m <= 12
    ensures 28 <= DaysInMonth(y, m) <= 31
  {
  }

  /** Every day number is the MakeDay of its own UTC components. */
  lemma {:induction false} MakeDayOfCivil(n: int)
    ensures MakeDay(YearOf(n), MonthOf(n) - 1, DateOf(n)) == n
  {
    var m := MonthOf(n);
    assert (m - 1) / 12 == 0 && (m - 1) % 12 == m - 1;
  }

  /** The first of the following month lies as many days on as the month has. */
  lemma {:induction false} MakeDayNextMonth(year: int, month0: int)
    ensures MakeDay(year, month0 + 1, 1)
         == MakeDay(year, month0, 1) + DaysInMonth(year + month0 / 12, month0 % 12 + 1)
  {
    var ym := year + month0 / 12;
    if month0 % 12 == 11 {
      assert (month0 + 1) / 12 == month0 / 12 + 1 && (month0 + 1) % 12 == 0;
      DayFromYearStep(ym);
      DaysBeforeMonthYear(ym);
    } else {
      assert (month0 + 1) / 12 == month0 / 12 && (month0 + 1) % 12 == month0 % 12 + 1;
    }
  }

  lemma {:induction false} UtcDayAdd(n: int, k: int)
    ensures UtcDay(n + k) == (UtcDay(n) + k) % 7
  {
  }
}

/** The date helper (src/helper/date.helper.js): Monday-to-Saturday weeks of a
    month, `DD-MM-YYYY` formatting and `YYYY-MM-DD` parsing, all in UTC. */
module DateHelper {
  import opened Wrappers
  import opened Errors
  import opened JsText
  import opened EcmaDate

  // ---------------------------------------------------------------------
  // formattedDateStr

  /** `formattedDateStr(date)`: day and month zero-padded to two digits, then the
      full year, joined by `-`, all from the UTC components. An Invalid Date
      prints NaN in every place. */
  function FormattedDateStr(d: JsDate): (r: string)
    ensures d.InvalidDate? ==> r == "NaN-NaN-NaN"
  {
    match d
    case InvalidDate => "NaN-NaN-NaN"
    case Valid(n) =>
      PadStart2(NatStr(DateOf(n))) + "-" + PadStart2(NatStr(MonthOf(n))) + "-" + IntStr(YearOf(n))
  }

  /** The printed fields of a valid date read back as its UTC day, month and year. */
  lemma {:induction false} FormattedDateStrFields(n: int)
    ensures var r := FormattedDateStr(Valid(n));
      && |r| >= 7 && r[2] == '-' && r[5] == '-'
      && AllDigits(r[..2]) && DigitsValue(r[..2]) == DateOf(n)
      && AllDigits(r[3..5]) && DigitsValue(r[3..5]) == MonthOf(n)
      && r[6..] == IntStr(YearOf(n))
  {
    var day := PadStart2(NatStr(DateOf(n)));
    var month := PadStart2(NatStr(MonthOf(n)));
    Pad2OfSmall(DateOf(n));
    Pad2OfSmall(MonthOf(n));
    assert |IntStr(YearOf(n))| >= 1 by {
      NatStrDigits(if YearOf(n) < 0 then -YearOf(n) else YearOf(n));
    }
    var r := day + "-" + month + "-" + IntStr(YearOf(n));
    assert r[..2] == day && r[3..5] == month && r[6..] == IntStr(YearOf(n));
  }

  // ---------------------------------------------------------------------
  // transformDate

  const InvalidDateFormat: Failure := PlainError("Invalid date format")

  /** The i-th `-`-separated field of s, or undefined when there is none. */
  function Field(s: string, i: nat): Option<string> {
    var parts := Split(s, '-');
    if i < |parts| then Some(parts[i]) else None
  }

  /** `transformDate(s)`: throws "Invalid date format" unless the first three
      `-`-separated fields are all present and numeric; otherwise UTC midnight of
      Date.UTC(year, month - 1, day), with Date.UTC's normalisation. */
  function TransformDate(s: string): (r: Result<JsDate, Failure>)
    ensures r.Failure? ==> r.error == InvalidDateFormat
    ensures r.Failure? <==> exists i :: 0 <= i < 3 && ToNumber(Field(s, i)).NaN?
  {
    var year := ToNumber(Field(s, 0));
    var month := ToNumber(Field(s, 1));
    var day := ToNumber(Field(s, 2));
    assert year.NaN? || month.NaN? || day.NaN? <==> exists i :: 0 <= i < 3 && ToNumber(Field(s, i)).NaN? by {
      if day.NaN? { assert ToNumber(Field(s, 2)).NaN?; }
      if month.NaN? { assert ToNumber(Field(s, 1)).NaN?; }
    }
    if year.NaN? || month.NaN? || day.NaN? then Failure(InvalidDateFormat)
    else Success(DateUtc(year.v, month.v - 1, day.v))
  }

  /** A digit string holds no `-`. */
  lemma {:induction false} DigitsHaveNoDash(t: string)
    requires AllDigits(t)
    ensures '-' !in t
  {
  }

  /** Three digit strings joined by `-` split back into those three strings. */
  lemma {:induction false} SplitThreeDigitFields(y: string, m: string, d: string)
    requires AllDigits(y) && AllDigits(m) && AllDigits(d)
    ensures Split(y + "-" + m + "-" + d, '-') == [y, m, d]
  {
    DigitsHaveNoDash(y);
    DigitsHaveNoDash(m);
    DigitsHaveNoDash(d);
    assert y + "-" + m + "-" + d == y + ['-'] + (m + ['-'] + d);
    SplitCons(y, '-', m + ['-'] + d);
    SplitCons(m, '-', d);
  }

  /** The fields of three digit strings joined by `-` are their numbers. */
  lemma {:induction false} NumbersOfDigitFields(y: string, m: string, d: string)
    requires AllDigits(y) && AllDigits(m) && AllDigits(d)
    ensures ToNumber(Field(y + "-" + m + "-" + d, 0)) == Num(DigitsValue(y))
    ensures ToNumber(Field(y + "-" + m + "-" + d, 1)) == Num(DigitsValue(m))
    ensures ToNumber(Field(y + "-" + m + "-" + d, 2)) == Num(DigitsValue(d))
  {
    SplitThreeDigitFields(y, m, d);
  }

  /** Three numeric fields are read as Date.UTC(year, month - 1, day). */
  lemma TransformDateOfNumbers(s: string, year: int, month: int, day: int)
    requires ToNumber(Field(s, 0)) == Num(year)
    requires ToNumber(Field(s, 1)) == Num(month)
    requires ToNumber(Field(s, 2)) == Num(day)
    ensures TransformDate(s) == Success(DateUtc(year, month - 1, day))
  {
  }

  /** Three digit fields joined by `-` are read as Date.UTC(year, month - 1, day). */
  lemma {:induction false} TransformDateOfFields(y: string, m: string, d: string)
    requires AllDigits(y) && AllDigits(m) && AllDigits(d)
    ensures TransformDate(y + "-" + m + "-" + d)
         == Success(DateUtc(DigitsValue(y), DigitsValue(m) - 1, DigitsValue(d)))
  {
    NumbersOfDigitFields(y, m, d);
    TransformDateOfNumbers(y + "-" + m + "-" + d, DigitsValue(y), DigitsValue(m), DigitsValue(d));
  }

  /** A string with fewer than two `-` lacks a field, so it is rejected. */
  lemma {:induction false} TransformDateNeedsTwoSeparators(s: string)
    requires multiset(s)['-'] < 2
    ensures TransformDate(s) == Failure(InvalidDateFormat)
  {
    assert Field(s, 2).None?;
  }

  predicate IsIsoDateText(s: string) {
    && |s| == 10 && s[4] == '-' && s[7] == '-'
    && AllDigits(s[..4]) && AllDigits(s[5..7]) && AllDigits(s[8..])
  }

  lemma {:induction false} FourDigitsAtLeast1000(t: string)
    requires |t| == 4 && AllDigits(t) && t[0] != '0'
    ensures 1000 <= DigitsValue(t) <= 9999
  {
    assert t[..1][..0] == [];
    assert t[..2][..1] == t[..1];
    assert t[..3][..2] == t[..2];
    assert t[..3] == t[..4][..3];
    assert DigitsValue(t[..1]) == DigitValue(t[0]) >= 1;
    assert DigitsValue(t[..2]) == DigitsValue(t[..1]) * 10 + DigitValue(t[1]);
    assert DigitsValue(t[..3]) == DigitsValue(t[..2]) * 10 + DigitValue(t[2]);
    assert t[..4] == t;
  }

  /** A `YYYY-MM-DD` text is read as Date.UTC of its three numbers. */
  lemma {:induction false} TransformIsoDate(s: string)
    requires IsIsoDateText(s)
    ensures TransformDate(s)
         == Success(DateUtc(DigitsValue(s[..4]), DigitsValue(s[5..7]) - 1, DigitsValue(s[8..])))
  {
    assert s == s[..4] + "-" + s[5..7] + "-" + s[8..];
    TransformDateOfFields(s[..4], s[5..7], s[8..]);
  }

  /** A calendar date of the years 1000 to 9999 is a valid Date. */
  lemma {:induction false} CalendarDayInRange(y: int, m: int, d: int)
    requires 1000 <= y <= 9999 && IsCalendarDate(y, m, d)
    ensures InTimeRange(MakeDay(y, m - 1, d))
  {
    assert (m - 1) / 12 == 0 && (m - 1) % 12 == m - 1;
    DaysBeforeMonthMonotone(y, 1, m);
    DaysBeforeMonthMonotone(y, m, 13);
    DaysBeforeMonthYear(y);
    DayFromYearMonotone(0, y);
  }

  /** The text formattedDateStr prints for the day of a calendar date. */
  lemma {:induction false} FormatCalendarDay(y: int, m: int, d: int)
    requires y >= 0 && IsCalendarDate(y, m, d)
    ensures FormattedDateStr(Valid(MakeDay(y, m - 1, d)))
         == PadStart2(NatStr(d)) + "-" + PadStart2(NatStr(m)) + "-" + NatStr(y)
  {
    CivilOfMakeDay(y, m, d);
  }

  /** Round trip: a calendar date written `YYYY-MM-DD` (year 1000 to 9999) is
      parsed and printed back as `DD-MM-YYYY` with the same digits. */
  lemma {:induction false} FormatAfterTransform(s: string)
    requires IsIsoDateText(s) && s[0] != '0'
    requires IsCalendarDate(DigitsValue(s[..4]), DigitsValue(s[5..7]), DigitsValue(s[8..]))
    ensures TransformDate(s).Success?
    ensures FormattedDateStr(TransformDate(s).value) == s[8..] + "-" + s[5..7] + "-" + s[..4]
  {
    var y, m, d := s[..4], s[5..7], s[8..];
    var yv, mv, dv := DigitsValue(y), DigitsValue(m), DigitsValue(d);
    TransformIsoDate(s);
    FourDigitsAtLeast1000(y);
    CalendarDayInRange(yv, mv, dv);
    assert TransformDate(s).value == Valid(MakeDay(yv, mv - 1, dv));
    FormatCalendarDay(yv, mv, dv);
    NatStrOfDigits(y);
    TwoDigitsRoundTrip(m);
    TwoDigitsRoundTrip(d);
  }

  // ---------------------------------------------------------------------
  // Mondays

  /** The first Monday on or after day n. */
  function FirstMondayOnOrAfter(n: int): (r: int)
    ensures n <= r < n + 7 && UtcDay(r) == 1
  {
    n + (1 - UtcDay(n)) % 7
  }

  /** A week after a Monday is a Monday. */
  lemma {:induction false} NextMonday(n: int)
    requires UtcDay(n) == 1
    ensures UtcDay(n + 7) == 1 && FirstMondayOnOrAfter(n + 7) == n + 7
  {
    UtcDayAdd(n, 7);
  }

  /** No day before it, from n on, is a Monday. */
  lemma {:induction false} NoMondayBefore(n: int, k: int)
    requires n <= k < FirstMondayOnOrAfter(n)
    ensures UtcDay(k) != 1
  {
    UtcDayAdd(n, k - n);
  }

  /** `d.setUTCDate(d.getUTCDate() + k)`, the helper's way of moving a date k
      days on; the Date object is a value here, so the moved date is returned.
      On an Invalid Date `getUTCDate()` is NaN and `setUTCDate` leaves it
      invalid. */
  method AddUtcDays(d: JsDate, k: int) returns (r: JsDate)
    ensures d.Valid? ==> r == Clip(d.day + k)
    ensures d.Valid? && InTimeRange(d.day + k) ==> r == Valid(d.day + k)
    ensures d.InvalidDate? ==> r == InvalidDate
  {
    if d.Valid? {
      SetUtcDateAdds(d, k);
      r := SetUtcDate(d, GetUtcDate(d) + k);
    } else {
      r := InvalidDate;
    }
  }

  /** The loop `while (d.getUTCDay() !== 1) d.setUTCDate(d.getUTCDate() + 1)`,
      which the helper writes out three times. */
  method AdvanceToMonday(d: JsDate) returns (r: JsDate)
    requires d.Valid? && InTimeRange(d.day) && InTimeRange(FirstMondayOnOrAfter(d.day))
    ensures r == Valid(FirstMondayOnOrAfter(d.day))
  {
    r := d;
    while GetUtcDay(r) != 1
      invariant r.Valid? && d.day <= r.day <= FirstMondayOnOrAfter(d.day)
      decreases FirstMondayOnOrAfter(d.day) - r.day
    {
      r := AddUtcDays(r, 1);
    }
  }

  /** `new Date(Date.UTC(year, month - 1, 1))`, as a day number. */
  function MonthStart(year: int, month: int): int {
    MakeDay(MakeFullYear(year), month - 1, 1)
  }

  function FirstMondayOfMonth(year: int, month: int): int {
    FirstMondayOnOrAfter(MonthStart(year, month))
  }

  /** The first Monday of a month falls on one of its first seven days. */
  lemma {:induction false} FirstMondayInFirstWeek(year: int, month: int)
    requires 1 <= month <= 12
    ensures YearOf(FirstMondayOfMonth(year, month)) == MakeFullYear(year)
    ensures MonthOf(FirstMondayOfMonth(year, month)) == month
    ensures 1 <= DateOf(FirstMondayOfMonth(year, month)) <= 7
  {
    MonthLengthBounds(MakeFullYear(year), month);
    CivilOfDayInMonth(MakeFullYear(year), month, MonthStart(year, month), FirstMondayOfMonth(year, month));
  }

  // ---------------------------------------------------------------------
  // getWeekMonToSaturdayDates

  /** The Monday of week `week` (1-based) of the month. */
  function WeekStart(year: int, month: int, week: int): int {
    FirstMondayOfMonth(year, month) + (week - 1) * 7
  }

  /** The six days Monday to Saturday of the week starting on `monday`. */
  function WeekDates(monday: int): (r: seq<JsDate>)
    ensures |r| == 6
  {
    seq(6, i => Valid(monday + i))
  }

  /** Every day the computation touches stays inside the Date range. */
  predicate WeekInTimeRange(year: int, month: int, week: int) {
    && InTimeRange(MonthStart(year, month))
    && InTimeRange(FirstMondayOfMonth(year, month))
    && InTimeRange(WeekStart(year, month, week))
    && InTimeRange(WeekStart(year, month, week) + 7)
  }

  function Min(a: int, b: int): int {
    if a <= b then a else b
  }

  /** The dates the for loop of getWeekMonToSaturdayDates collects from
      `start`: none from an Invalid Date, otherwise the days Monday to Saturday
      from `start` that are not past the end of the Date range. */
  function KeptWeekDates(start: JsDate): (r: seq<JsDate>)
    ensures |r| <= 6
  {
    if start.Valid? && InTimeRange(start.day) then WeekDates(start.day)[..Min(6, MaxDay - start.day + 1)]
    else []
  }

  /** `getWeekMonToSaturdayDates(year, month, week)`: the seven days from the
      Monday of that week are scanned and those that are valid and not Sunday
      kept. The move at line 11 may leave the Date range, and the scan may run
      past its end; those days are Invalid Dates and are not kept. */
  method GetWeekMonToSaturdayDates(year: int, month: int, week: int) returns (dates: seq<JsDate>)
    requires InTimeRange(MonthStart(year, month)) && InTimeRange(FirstMondayOfMonth(year, month))
    ensures dates == KeptWeekDates(Clip(WeekStart(year, month, week)))
    ensures WeekInTimeRange(year, month, week) ==> dates == WeekDates(WeekStart(year, month, week))
  {
    var firstDay := DateUtc(year, month - 1, 1);
    firstDay := AdvanceToMonday(firstDay);
    firstDay := AddUtcDays(firstDay, (week - 1) * 7);
    UtcDayAdd(FirstMondayOfMonth(year, month), (week - 1) * 7);
    dates := KeepMondayToSaturday(firstDay);
    if WeekInTimeRange(year, month, week) {
      FullWeekKept(WeekStart(year, month, week));
    }
  }

  /** The for loop of getWeekMonToSaturdayDates: of the seven days from a Monday,
      keep those that are valid and whose week-day is 1 to 6. On an Invalid Date
      `getUTCDay()` is NaN and both comparisons fail. */
  method KeepMondayToSaturday(start: JsDate) returns (dates: seq<JsDate>)
    requires start.Valid? ==> UtcDay(start.day) == 1 && InTimeRange(start.day)
    ensures dates == KeptWeekDates(start)
  {
    var firstDay := start;
    dates := [];
    for i := 0 to 7
      invariant start.Valid? ==> firstDay == Clip(start.day + i)
      invariant start.InvalidDate? ==> firstDay == InvalidDate
      invariant start.Valid? ==> dates == WeekDates(start.day)[..Min(Min(i, 6), MaxDay - start.day + 1)]
      invariant start.InvalidDate? ==> dates == []
    {
      if start.Valid? {
        UtcDayAdd(start.day, i);
      }
      if firstDay.Valid? && GetUtcDay(firstDay) >= 1 && GetUtcDay(firstDay) <= 6 {
        dates := dates + [firstDay];
      }
      firstDay := AddUtcDays(firstDay, 1);
    }
  }

  /** Day i of the kept dates is the day i after the week's Monday: it lies in
      the Date range and its week-day is i + 1. */
  lemma {:induction false} KeptWeekDay(start: int, i: int)
    requires InTimeRange(start) && UtcDay(start) == 1
    requires 0 <= i < |KeptWeekDates(Valid(start))|
    ensures KeptWeekDates(Valid(start))[i] == Valid(start + i)
    ensures InTimeRange(start + i) && UtcDay(start + i) == i + 1
  {
    UtcDayAdd(start, i);
  }

  /** Fewer than six dates are kept exactly when the week's Saturday is past the
      end of the Date range, and then every day up to that end is kept. */
  lemma {:induction false} KeptWeekLength(start: int)
    requires InTimeRange(start)
    ensures |KeptWeekDates(Valid(start))| < 6 <==> !InTimeRange(start + 5)
    ensures |KeptWeekDates(Valid(start))| < 6 ==> start + |KeptWeekDates(Valid(start))| == MaxDay + 1
  {
  }

  /** With the whole week in range the six days Monday to Saturday are kept. */
  lemma {:induction false} FullWeekKept(start: int)
    requires InTimeRange(start) && InTimeRange(start + 5)
    ensures KeptWeekDates(Valid(start)) == WeekDates(start)
  {
    assert Min(6, MaxDay - start + 1) == 6;
  }

  /** A week offset that carries the Monday past the end of the Date range
      leaves an Invalid Date, and no date is kept: week 20000000 of March 2024. */
  lemma OffsetPastRangeKeepsNothing(year: int, month: int, week: int)
    requires year == 2024 && month == 3 && week == 20_000_000
    ensures InTimeRange(MonthStart(year, month)) && InTimeRange(FirstMondayOfMonth(year, month))
    ensures KeptWeekDates(Clip(WeekStart(year, month, week))) == []
  {
    CalendarDayInRange(2024, 3, 1);
    assert (month - 1) / 12 == 0 && (month - 1) % 12 == 2;
    DayFromYearMonotone(0, 2024);
    DaysBeforeMonthMonotone(2024, 1, 3);
    assert MonthStart(year, month) >= -719528;
  }

  /** Day i of a week has week-day i + 1: the dates run Monday to Saturday and
      none is a Sunday. */
  lemma {:induction false} WeekRunsMondayToSaturday(year: int, month: int, week: int, i: int)
    requires 0 <= i < 6
    ensures WeekDates(WeekStart(year, month, week))[i].Valid?
    ensures UtcDay(WeekDates(WeekStart(year, month, week))[i].day) == i + 1
  {
    UtcDayAdd(FirstMondayOfMonth(year, month), (week - 1) * 7 + i);
  }


  // ---------------------------------------------------------------------
  // getAllWeeksInMonth

  /** One element of getAllWeeksInMonth's result. */
  datatype WeekEntry = WeekEntry(numOfTheWeek: int, range: string, week: seq<JsDate>)

  /** The `first - last` label of a week, both ends formatted. */
  function RangeText(week: seq<JsDate>): string
    requires |week| >= 1
  {
    FormattedDateStr(week[0]) + " - " + FormattedDateStr(week[|week| - 1])
  }

  /** Entry e is week number `num`, the one whose Monday is day `monday`. */
  predicate IsWeekOf(e: WeekEntry, num: int, monday: int) {
    e.numOfTheWeek == num && e.week == WeekDates(monday)
  }

  /** The entries are the weeks numbered 1, 2, ... whose Mondays are fm,
      fm + 7, ... */
  predicate WeeksFrom(weeks: seq<WeekEntry>, fm: int) {
    forall k :: 0 <= k < |weeks| ==> IsWeekOf(weeks[k], k + 1, fm + 7 * k)
  }

  /** Each entry is labelled with its first and last day. */
  predicate Labelled(weeks: seq<WeekEntry>) {
    forall k :: 0 <= k < |weeks| ==> |weeks[k].week| >= 1 && weeks[k].range == RangeText(weeks[k].week)
  }

  /** The number of Mondays from day s up to, not including, day next. */
  function MondayCount(s: int, next: int): int {
    (next - FirstMondayOnOrAfter(s) + 6) / 7
  }

  /** One entry for each Monday from day s up to day next. */
  predicate IsWeekRun(weeks: seq<WeekEntry>, s: int, next: int) {
    |weeks| == MondayCount(s, next) && WeeksFrom(weeks, FirstMondayOnOrAfter(s))
  }

  /** The first day of the month after (year, month). */
  function NextMonthStart(year: int, month: int): int {
    MonthStart(year, month + 1)
  }

  /** What getAllWeeksInMonth(year, month) returns: for a month 1 to 12, one
      entry per Monday of the month; for any other month number, whose
      normalised month never matches, nothing. */
  predicate IsMonthWeeks(weeks: seq<WeekEntry>, year: int, month: int) {
    if 1 <= month <= 12 then IsWeekRun(weeks, MonthStart(year, month), NextMonthStart(year, month))
    else weeks == []
  }

  // Facts about week runs, on day numbers alone

  /** A run is determined by its two ends: there is one answer per month. */
  lemma {:induction false} WeekRunUnique(a: seq<WeekEntry>, b: seq<WeekEntry>, s: int, next: int)
    requires IsWeekRun(a, s, next) && IsWeekRun(b, s, next) && Labelled(a) && Labelled(b)
    ensures a == b
  {
    forall k | 0 <= k < |a|
      ensures a[k] == b[k]
    {
      assert IsWeekOf(a[k], k + 1, FirstMondayOnOrAfter(s) + 7 * k);
      assert IsWeekOf(b[k], k + 1, FirstMondayOnOrAfter(s) + 7 * k);
      assert a[k].range == RangeText(a[k].week) && b[k].range == RangeText(b[k].week);
    }
  }

  /** The week indices below the count are the Mondays before next. */
  lemma {:induction false} WeekIndexBound(fm: int, next: int, k: int)
    requires 0 <= k
    ensures k < (next - fm + 6) / 7 <==> fm + 7 * k < next
  {
  }

  /** The Monday of entry k of a run lies between s and next. */
  lemma {:induction false} WeekRunInside(weeks: seq<WeekEntry>, s: int, next: int, k: int)
    requires IsWeekRun(weeks, s, next) && 0 <= k < |weeks|
    ensures s <= FirstMondayOnOrAfter(s) + 7 * k < next
  {
    WeekIndexBound(FirstMondayOnOrAfter(s), next, k);
  }

  /** Entry k of a run is numbered k + 1 and holds the week k weeks after the first Monday. */
  lemma {:induction false} WeekRunNumbering(weeks: seq<WeekEntry>, s: int, next: int, k: int)
    requires IsWeekRun(weeks, s, next) && 0 <= k < |weeks|
    ensures weeks[k].numOfTheWeek == k + 1
    ensures weeks[k].week == WeekDates(FirstMondayOnOrAfter(s) + 7 * k)
  {
    assert IsWeekOf(weeks[k], k + 1, FirstMondayOnOrAfter(s) + 7 * k);
  }

  /** The days of each entry of a run go Monday to Saturday. */
  lemma {:induction false} WeekRunDays(weeks: seq<WeekEntry>, s: int, next: int, k: int, i: int)
    requires IsWeekRun(weeks, s, next) && 0 <= k < |weeks| && 0 <= i < 6
    ensures weeks[k].week[i].Valid? && UtcDay(weeks[k].week[i].day) == i + 1
  {
    var fm := FirstMondayOnOrAfter(s);
    WeekRunNumbering(weeks, s, next, k);
    assert weeks[k].week[i] == Valid(fm + 7 * k + i);
    UtcDayAdd(fm, 7 * k + i);
  }

  /** Every Monday from s up to next starts an entry of the run, the one
      numbered by how many weeks it lies after the first Monday. */
  lemma {:induction false} WeekRunCoversMondays(weeks: seq<WeekEntry>, s: int, next: int, n: int)
    requires IsWeekRun(weeks, s, next)
    requires s <= n < next && UtcDay(n) == 1
    ensures (n - FirstMondayOnOrAfter(s)) % 7 == 0
    ensures 0 <= (n - FirstMondayOnOrAfter(s)) / 7 < |weeks|
    ensures weeks[(n - FirstMondayOnOrAfter(s)) / 7].week[0] == Valid(n)
  {
    var fm := FirstMondayOnOrAfter(s);
    if n < fm {
      NoMondayBefore(s, n);
    }
    UtcDayAdd(fm, n - fm);
    var k := (n - fm) / 7;
    assert n == fm + 7 * k;
    WeekIndexBound(fm, next, k);
    assert IsWeekOf(weeks[k], k + 1, fm + 7 * k);
  }

  /** A span of 28 to 31 days holds four or five Mondays. */
  lemma {:induction false} MondayCountBounds(s: int, next: int)
    requires 28 <= next - s <= 31
    ensures 4 <= MondayCount(s, next) <= 5
  {
  }

  /** The loop stops at the first Monday on or after next. */
  lemma {:induction false} MondayCountAtExit(s: int, next: int, q: int)
    requires next <= FirstMondayOnOrAfter(s) + 7 * q < next + 7
    ensures MondayCount(s, next) == q
  {
  }

  /** Adding the entry for the next Monday extends the numbered weeks. */
  lemma {:induction false} WeeksFromSnoc(weeks: seq<WeekEntry>, fm: int, range: string, week: seq<JsDate>)
    requires WeeksFrom(weeks, fm) && week == WeekDates(fm + 7 * |weeks|)
    ensures WeeksFrom(weeks + [WeekEntry(|weeks| + 1, range, week)], fm)
  {
    var w := weeks + [WeekEntry(|weeks| + 1, range, week)];
    forall k | 0 <= k < |w|
      ensures IsWeekOf(w[k], k + 1, fm + 7 * k)
    {
      if k < |weeks| {
        assert w[k] == weeks[k];
      }
    }
  }

  /** Adding a labelled entry keeps every entry labelled. */
  lemma {:induction false} LabelledSnoc(weeks: seq<WeekEntry>, week: seq<JsDate>)
    requires Labelled(weeks) && |week| >= 1
    ensures Labelled(weeks + [WeekEntry(|weeks| + 1, RangeText(week), week)])
  {
    var w := weeks + [WeekEntry(|weeks| + 1, RangeText(week), week)];
    forall k | 0 <= k < |w|
      ensures |w[k].week| >= 1 && w[k].range == RangeText(w[k].week)
    {
      if k < |weeks| {
        assert w[k] == weeks[k];
      }
    }
  }

  // Facts about months

  /** The next month starts as many days on as the month has. */
  lemma {:induction false} MonthLength(year: int, month: int)
    requires 1 <= month <= 12
    ensures NextMonthStart(year, month) == MonthStart(year, month) + DaysInMonth(MakeFullYear(year), month)
    ensures 28 <= NextMonthStart(year, month) - MonthStart(year, month) <= 31
  {
    assert (month - 1) / 12 == 0 && (month - 1) % 12 == month - 1;
    MakeDayNextMonth(MakeFullYear(year), month - 1);
    MonthLengthBounds(MakeFullYear(year), month);
  }

  /** Days from the first of the month up to the first of the next lie in the month. */
  lemma {:induction false} DayInMonth(year: int, month: int, n: int)
    requires 1 <= month <= 12
    requires MonthStart(year, month) <= n < NextMonthStart(year, month)
    ensures YearOf(n) == MakeFullYear(year) && MonthOf(n) == month
  {
    MonthLength(year, month);
    CivilOfDayInMonth(MakeFullYear(year), month, MonthStart(year, month), n);
  }



  /** The month after `month` of year y, as a year and a 1-based month. */
  function FollowingMonth(y: int, month: int): (int, int) {
    if month < 12 then (y, month + 1) else (y + 1, 1)
  }

  /** The first of the next month is day 1 of the following month. */
  lemma {:induction false} NextMonthStartIsFollowing(year: int, month: int)
    requires 1 <= month <= 12
    ensures var (ny, nm) := FollowingMonth(MakeFullYear(year), month);
      NextMonthStart(year, month) == MakeDay(ny, nm - 1, 1)
  {
    if month == 12 {
      MakeDayCarry(MakeFullYear(year), 12, 1);
    }
  }

  /** The first week of a month lies in that month. */
  lemma {:induction false} FirstWeekOfMonth(y: int, m: int, s: int, n: int)
    requires 1 <= m <= 12 && s == MakeDay(y, m - 1, 1)
    requires s <= n < s + 7
    ensures MonthOf(n) == m
  {
    MonthLengthBounds(y, m);
    CivilOfDayInMonth(y, m, s, n);
  }

  /** The week after a month lies in another month. */
  lemma {:induction false} DayAfterMonth(year: int, month: int, n: int)
    requires 1 <= month <= 12
    requires NextMonthStart(year, month) <= n < NextMonthStart(year, month) + 7
    ensures MonthOf(n) != month
  {
    var (ny, nm) := FollowingMonth(MakeFullYear(year), month);
    NextMonthStartIsFollowing(year, month);
    FirstWeekOfMonth(ny, nm, NextMonthStart(year, month), n);
  }

  /** From the first of the month up to a week past its end, a day lies in the
      month exactly when it comes before the first of the next month. */
  lemma {:induction false} MonthOfNearMonth(year: int, month: int, n: int)
    requires 1 <= month <= 12
    requires MonthStart(year, month) <= n < NextMonthStart(year, month) + 7
    ensures MonthOf(n) == month <==> n < NextMonthStart(year, month)
  {
    if n < NextMonthStart(year, month) {
      DayInMonth(year, month, n);
    } else {
      DayAfterMonth(year, month, n);
    }
  }

  /** From s up to a week past next, a day lies in the month exactly when it
      comes before next. */
  predicate MonthWindow(s: int, next: int, month: int) {
    forall n :: s <= n < next + 7 ==> (MonthOf(n) == month <==> n < next)
  }

  /** A month's window runs from its first day to the first day of the next. */
  lemma {:induction false} MonthWindowOf(year: int, month: int)
    requires 1 <= month <= 12
    ensures MonthWindow(MonthStart(year, month), NextMonthStart(year, month), month)
  {
    forall n | MonthStart(year, month) <= n < NextMonthStart(year, month) + 7
      ensures MonthOf(n) == month <==> n < NextMonthStart(year, month)
    {
      MonthOfNearMonth(year, month, n);
    }
  }

  /** Every day the computation touches stays inside the Date range. */
  predicate MonthInTimeRange(year: int, month: int) {
    InTimeRange(MonthStart(year, month)) && InTimeRange(NextMonthStart(year, month) + 6)
  }

  /** The inner `for` loop of getAllWeeksInMonth: copies of six consecutive
      days, starting at `start`. */
  method CollectWeekDays(start: JsDate) returns (week: seq<JsDate>)
    requires start.Valid? && InTimeRange(start.day) && InTimeRange(start.day + 6)
    ensures week == WeekDates(start.day)
  {
    week := [];
    var day := start;
    for i := 0 to 6
      invariant day == Valid(start.day + i)
      invariant week == WeekDates(start.day)[..i]
    {
      week := week + [day];
      day := AddUtcDays(day, 1);
    }
  }

  /** `getAllWeeksInMonth(year, month)`: Date.UTC's first of the month, moved
      on to its first Monday, then the outer loop. */
  method GetAllWeeksInMonth(year: int, month: int) returns (weeks: seq<WeekEntry>)
    requires MonthInTimeRange(year, month)
    ensures IsMonthWeeks(weeks, year, month) && Labelled(weeks)
  {
    MonthStartDate(year, month);
    if 1 <= month <= 12 {
      MonthWindowOf(year, month);
    }
    var firstDay := DateUtc(year, month - 1, 1);
    firstDay := AdvanceToMonday(firstDay);
    weeks := CollectMonthWeeks(firstDay, month, MonthStart(year, month), NextMonthStart(year, month));
  }

  /** The outer loop of getAllWeeksInMonth, from the month's first Monday: while
      the current Monday's month is `month`, collect its six days, label them,
      and go on a week. The month's first day is s and the next month's is next. */
  method CollectMonthWeeks(firstDay: JsDate, month: int, ghost s: int, ghost next: int)
    returns (weeks: seq<WeekEntry>)
    requires InTimeRange(s) && InTimeRange(next + 6) && FirstMondayOnOrAfter(s) < next
    requires firstDay == Valid(FirstMondayOnOrAfter(s))
    requires 1 <= month <= 12 ==> MonthWindow(s, next, month)
    ensures 1 <= month <= 12 ==> IsWeekRun(weeks, s, next)
    ensures !(1 <= month <= 12) ==> weeks == []
    ensures Labelled(weeks)
  {
    ghost var fm := FirstMondayOnOrAfter(s);
    weeks := [];
    var currentWeekStart := firstDay;
    var counter := 1;
    while GetUtcMonth(currentWeekStart) + 1 == month
      invariant counter == |weeks| + 1
      invariant currentWeekStart == Valid(fm + 7 * |weeks|)
      invariant UtcDay(currentWeekStart.day) == 1
      invariant fm + 7 * |weeks| < next + 7
      invariant 1 <= month <= 12 || weeks == []
      invariant WeeksFrom(weeks, fm) && Labelled(weeks)
      decreases next + 7 - (fm + 7 * |weeks|)
    {
      WeekStepInRange(s, next, month, currentWeekStart.day);
      var week := CollectWeekDays(currentWeekStart);
      WeeksFromSnoc(weeks, fm, RangeText(week), week);
      LabelledSnoc(weeks, week);
      weeks := weeks + [WeekEntry(counter, RangeText(week), week)];
      counter := counter + 1;
      NextMonday(currentWeekStart.day);
      currentWeekStart := AddUtcDays(currentWeekStart, 7);
      currentWeekStart := AdvanceToMonday(currentWeekStart);
    }
    if 1 <= month <= 12 {
      WeekStepAtExit(s, next, month, currentWeekStart.day);
      MondayCountAtExit(s, next, |weeks|);
    }
  }

  /** Whatever the month number, Date.UTC's normalisation puts the first of
      the next month 28 to 31 days after the first of this one. */
  lemma {:induction false} MonthLengthOrOutside(year: int, month: int)
    ensures 28 <= NextMonthStart(year, month) - MonthStart(year, month) <= 31
  {
    var y := MakeFullYear(year);
    MakeDayNextMonth(y, month - 1);
    MonthLengthBounds(y + (month - 1) / 12, (month - 1) % 12 + 1);
  }

  /** One turn of the outer loop: a Monday still in the month lies before the
      next month, and so do the six days from it and the Monday after. */
  lemma {:induction false} WeekStepInRange(s: int, next: int, month: int, c: int)
    requires MonthWindow(s, next, month) && InTimeRange(s) && InTimeRange(next + 6)
    requires s <= c < next + 7 && MonthOf(c) == month
    ensures s <= c < next && InTimeRange(c) && InTimeRange(c + 6) && InTimeRange(c + 7)
  {
  }

  /** The outer loop stops at the first Monday past the month. */
  lemma {:induction false} WeekStepAtExit(s: int, next: int, month: int, c: int)
    requires MonthWindow(s, next, month)
    requires s <= c < next + 7 && MonthOf(c) != month
    ensures next <= c
  {
  }

  /** The first day of the month, as Date.UTC makes it, and its first Monday. */
  lemma {:induction false} MonthStartDate(year: int, month: int)
    requires MonthInTimeRange(year, month)
    ensures DateUtc(year, month - 1, 1) == Valid(MonthStart(year, month))
    ensures InTimeRange(FirstMondayOnOrAfter(MonthStart(year, month)))
    ensures FirstMondayOnOrAfter(MonthStart(year, month)) < NextMonthStart(year, month)
  {
    MonthLengthOrOutside(year, month);
  }

  // ---------------------------------------------------------------------
  // Properties of the month's weeks

  /** Week k of the month is week number k + 1, exactly the six days that
      getWeekMonToSaturdayDates(year, month, k + 1) returns. */
  lemma {:induction false} MonthWeekIsWeekDates(weeks: seq<WeekEntry>, year: int, month: int, k: int)
    requires IsMonthWeeks(weeks, year, month) && 0 <= k < |weeks|
    ensures 1 <= month <= 12
    ensures weeks[k].numOfTheWeek == k + 1
    ensures weeks[k].week == WeekDates(WeekStart(year, month, k + 1))
  {
    var s := MonthStart(year, month);
    WeekRunNumbering(weeks, s, NextMonthStart(year, month), k);
    assert WeekStart(year, month, k + 1) == FirstMondayOnOrAfter(s) + 7 * k;
  }

  /** The days of every week of the month run Monday to Saturday. */
  lemma {:induction false} MonthWeekDays(weeks: seq<WeekEntry>, year: int, month: int, k: int, i: int)
    requires IsMonthWeeks(weeks, year, month) && 0 <= k < |weeks| && 0 <= i < 6
    ensures weeks[k].week[i].Valid? && UtcDay(weeks[k].week[i].day) == i + 1
  {
    WeekRunDays(weeks, MonthStart(year, month), NextMonthStart(year, month), k, i);
  }

  /** Every week of the month starts inside the month. */
  lemma {:induction false} MonthWeekStartsInMonth(weeks: seq<WeekEntry>, year: int, month: int, k: int)
    requires IsMonthWeeks(weeks, year, month) && 0 <= k < |weeks|
    ensures weeks[k].week[0].Valid? && MonthOf(weeks[k].week[0].day) == month
  {
    var s := MonthStart(year, month);
    WeekRunNumbering(weeks, s, NextMonthStart(year, month), k);
    WeekRunInside(weeks, s, NextMonthStart(year, month), k);
    var n := FirstMondayOnOrAfter(s) + 7 * k;
    assert weeks[k].week[0] == Valid(n);
    DayInMonth(year, month, n);
  }

  /** Every Monday of the month starts a listed week. */
  lemma {:induction false} MondayHasWeek(weeks: seq<WeekEntry>, year: int, month: int, n: int)
    requires IsMonthWeeks(weeks, year, month) && 1 <= month <= 12
    requires MonthStart(year, month) <= n < NextMonthStart(year, month) && UtcDay(n) == 1
    ensures exists k :: 0 <= k < |weeks| && weeks[k].week[0] == Valid(n)
  {
    WeekRunCoversMondays(weeks, MonthStart(year, month), NextMonthStart(year, month), n);
  }

  /** A month has four or five Monday-to-Saturday weeks. */
  lemma {:induction false} MonthHasFourOrFiveWeeks(weeks: seq<WeekEntry>, year: int, month: int)
    requires IsMonthWeeks(weeks, year, month) && 1 <= month <= 12
    ensures 4 <= |weeks| <= 5
  {
    MonthLength(year, month);
    MondayCountBounds(MonthStart(year, month), NextMonthStart(year, month));
  }

  /** There is one answer per month. */
  lemma {:induction false} MonthWeeksUnique(a: seq<WeekEntry>, b: seq<WeekEntry>, year: int, month: int)
    requires IsMonthWeeks(a, year, month) && IsMonthWeeks(b, year, month) && Labelled(a) && Labelled(b)
    ensures a == b
  {
    if 1 <= month <= 12 {
      WeekRunUnique(a, b, MonthStart(year, month), NextMonthStart(year, month));
    }
  }
}

/**
 * Proleptic Gregorian civil dates and calendar-month addition with
 * end-of-month clamping (the `addMonths` helper of src/utils.js).
 * Months are numbered 0..11 as JavaScript's `Date#getMonth` numbers them.
 */
module Calendar {

  datatype CivilDate = CivilDate(year: int, month: int, day: int)

  /** Gregorian rule: every fourth year, except centuries not divisible by 400. */
  predicate IsLeapYear(y: int) {
    y % 4 == 0 && (y % 100 != 0 || y % 400 == 0)
  }

  function DaysInMonth(y: int, m: int): (r: int)
    requires 0 <= m < 12
    ensures 28 <= r <= 31
    ensures m == 1 ==> (r == 29 <==> IsLeapYear(y))
  {
    if m == 1 then (if IsLeapYear(y) then 29 else 28)
    else if m == 3 || m == 5 || m == 8 || m == 10 then 30
    else 31
  }

  /** A date that exists on the calendar, as every JavaScript `Date` in range denotes one. */
  predicate Valid(d: CivilDate) {
    0 <= d.month < 12 && 1 <= d.day <= DaysInMonth(d.year, d.month)
  }

  /**
   * The year the `Date(year, month, day)` constructor uses for its year argument:
   * 0 through 99 stand for 1900 through 1999, every other year is taken as given.
   */
  function JsYear(y: int): int {
    if 0 <= y <= 99 then 1900 + y else y
  }

  /**
   * `new Date(y, m + 1, 0).getDate()`: day 0 of the following month is the last day of
   * month `m`, of the year the constructor reads `y` as. It is the calendar length of the
   * month except in February of year 0, which the constructor takes for 1900.
   */
  function DaysInMonthJs(y: int, m: int): (r: int)
    requires 0 <= m < 12
    ensures 28 <= r <= DaysInMonth(y, m)
  {
    DaysInMonth(JsYear(y), m)
  }

  /** The constructor's month length is the calendar's in every month but February of year 0. */
  lemma DaysInMonthJsDiffers(y: int, m: int)
    requires 0 <= m < 12
    ensures DaysInMonthJs(y, m) == DaysInMonth(y, m) <==> !(y == 0 && m == 1)
  {
    if m == 1 && 1 <= y <= 99 {
      assert IsLeapYear(y) <==> IsLeapYear(1900 + y);
    }
  }

  /**
   * `new Date(y, m, d)` for a month 0..11 and a day 1..31: the year goes through the
   * two-digit rule, and a day past the end of the month carries into the next month.
   */
  function ConstructDate(y: int, m: int, d: int): (r: CivilDate)
    requires 0 <= m < 12 && 1 <= d <= 31
    ensures Valid(r) && r.year == JsYear(y)
    ensures Valid(CivilDate(JsYear(y), m, d)) ==> r == CivilDate(JsYear(y), m, d)
    ensures !Valid(CivilDate(JsYear(y), m, d)) ==>
              r.month == m + 1 && r.day == d - DaysInMonth(JsYear(y), m)
  {
    var year := JsYear(y);
    var len := DaysInMonth(year, m);
    if d <= len then CivilDate(year, m, d) else CivilDate(year, m + 1, d - len)
  }

  /** A real date whose year is not 0 keeps its month and day; only the year goes through the two-digit rule. */
  lemma ConstructValidDate(d: CivilDate)
    requires Valid(d) && d.year != 0
    ensures ConstructDate(d.year, d.month, d.day) == CivilDate(JsYear(d.year), d.month, d.day)
    ensures d.year >= 100 || d.year < 0 ==> ConstructDate(d.year, d.month, d.day) == d
  {
    if d.month == 1 && 1 <= d.year <= 99 {
      assert IsLeapYear(d.year) ==> IsLeapYear(1900 + d.year);
    }
  }

  /** The year 24 is read as 1924 and year 0's leap day becomes the first of March 1900. */
  lemma ConstructTwoDigitYears()
    ensures ConstructDate(24, 4, 1) == CivilDate(1924, 4, 1)
    ensures ConstructDate(0, 1, 29) == CivilDate(1900, 2, 1)
  {
    assert !IsLeapYear(1900);
  }

  /** Months elapsed since January of year 0: the order of (year, month) pairs as one integer. */
  function MonthIndex(d: CivilDate): int {
    d.year * 12 + d.month
  }

  /** Strict chronological order of civil dates. */
  predicate Before(a: CivilDate, b: CivilDate) {
    MonthIndex(a) < MonthIndex(b) || (MonthIndex(a) == MonthIndex(b) && a.day < b.day)
  }

  /**
   * `addMonths`: set the day to 1, move the month by `n` (JavaScript's `setMonth`
   * carries whole years out of the month number), then put back the original day,
   * clamped to the length of the month reached as `new Date(year, month + 1, 0)` reports it.
   */
  function AddMonths(d: CivilDate, n: int): (r: CivilDate)
    ensures 0 <= r.month < 12
    ensures MonthIndex(r) == MonthIndex(d) + n
    ensures r.day == if d.day <= DaysInMonthJs(r.year, r.month) then d.day else DaysInMonthJs(r.year, r.month)
    ensures Valid(d) ==> Valid(r)
  {
    var first := CivilDate(d.year, d.month, 1);
    var total := first.month + n;
    var shifted := CivilDate(first.year + total / 12, total % 12, 1);
    var daysInNewMonth := DaysInMonthJs(shifted.year, shifted.month);
    shifted.(day := if d.day < daysInNewMonth then d.day else daysInNewMonth)
  }

  /** The year and month of a date are determined by its month index. */
  lemma MonthIndexInjective(a: CivilDate, b: CivilDate)
    requires 0 <= a.month < 12 && 0 <= b.month < 12
    requires MonthIndex(a) == MonthIndex(b)
    ensures a.year == b.year && a.month == b.month
  {
  }

  /**
   * Adding zero months returns the same calendar date, with the one exception the
   * two-digit year rule makes: February 29th of year 0 is clamped to the 28th.
   */
  lemma AddMonthsZero(d: CivilDate)
    requires Valid(d)
    ensures AddMonths(d, 0) == d <==> !(d.year == 0 && d.month == 1 && d.day == 29)
  {
    var r := AddMonths(d, 0);
    MonthIndexInjective(r, d);
    DaysInMonthJsDiffers(d.year, d.month);
  }

  /** Adding one or more months lands in a strictly later month, hence on a strictly later date. */
  lemma AddMonthsLater(d: CivilDate, n: int)
    requires n >= 1
    ensures MonthIndex(AddMonths(d, n)) > MonthIndex(d)
    ensures Before(d, AddMonths(d, n))
  {
  }

  /** The day of month survives whenever the target month is long enough for it. */
  lemma AddMonthsKeepsDay(d: CivilDate, n: int)
    requires Valid(d) && d.day <= 28
    ensures AddMonths(d, n).day == d.day
  {
  }

  /** January 31st plus one month is the last day of February, never a day of March. */
  lemma JanuaryEndPlusOne(y: int)
    ensures AddMonths(CivilDate(y, 0, 31), 1) == CivilDate(y, 1, if IsLeapYear(JsYear(y)) then 29 else 28)
  {
    var r := AddMonths(CivilDate(y, 0, 31), 1);
    MonthIndexInjective(r, CivilDate(y, 1, 1));
    assert r.year == y && r.month == 1;
    assert r.day == DaysInMonthJs(y, 1);
  }

  /** March 31st plus one month is April 30th. */
  lemma MarchEndPlusOne(y: int)
    ensures AddMonths(CivilDate(y, 2, 31), 1) == CivilDate(y, 3, 30)
  {
    MonthIndexInjective(AddMonths(CivilDate(y, 2, 31), 1), CivilDate(y, 3, 1));
  }

  /** December rolls into January of the next year. */
  lemma DecemberPlusTwo(y: int)
    ensures AddMonths(CivilDate(y, 11, 31), 2) == CivilDate(y + 1, 1, if IsLeapYear(JsYear(y + 1)) then 29 else 28)
  {
    MonthIndexInjective(AddMonths(CivilDate(y, 11, 31), 2), CivilDate(y + 1, 1, 1));
  }

  /**
   * In year 0 the clamp uses 1900's February: the 29th, 30th or 31st of January of
   * year 0 plus one month is February 28th, although year 0 is a leap year.
   */
  lemma YearZeroFebruary(day: int)
    requires 29 <= day <= 31
    ensures IsLeapYear(0)
    ensures AddMonths(CivilDate(0, 0, day), 1) == CivilDate(0, 1, 28)
  {
    YearZeroFebruaryLength();
    var r := AddMonths(CivilDate(0, 0, day), 1);
    MonthIndexInjective(r, CivilDate(0, 1, 1));
    assert r.year == 0 && r.month == 1;
  }

  /** The constructor's February of year 0 is 1900's, which has 28 days. */
  lemma YearZeroFebruaryLength()
    ensures DaysInMonthJs(0, 1) == 28
  {
    assert JsYear(0) == 1900;
    assert !IsLeapYear(1900);
  }

  /** Clamping loses the day, so two single-month steps differ from one two-month step. */
  lemma AddMonthsNotComposable()
    ensures AddMonths(AddMonths(CivilDate(2023, 0, 31), 1), 1) == CivilDate(2023, 2, 28)
    ensures AddMonths(CivilDate(2023, 0, 31), 2) == CivilDate(2023, 2, 31)
  {
    JanuaryEndPlusOne(2023);
    MonthIndexInjective(AddMonths(CivilDate(2023, 1, 28), 1), CivilDate(2023, 2, 1));
    MonthIndexInjective(AddMonths(CivilDate(2023, 0, 31), 2), CivilDate(2023, 2, 1));
  }

  /** A local wall-clock reading: the civil date and the milliseconds since its midnight. */
  datatype LocalTime = LocalTime(date: CivilDate, msOfDay: int)

  /**
   * The conversion between epoch milliseconds and local wall-clock time that
   * JavaScript's `Date` performs with the host time zone; it is a parameter of the model.
   */
  datatype Zone = Zone(toLocal: int -> LocalTime, fromLocal: LocalTime -> int)

  /** Every instant reads as a real calendar date. */
  ghost predicate ZoneOk(z: Zone) {
    forall ms :: Valid(z.toLocal(ms).date)
  }

  /** `addMonths(dateMs, n)` on epoch milliseconds: month arithmetic on the local date, time of day kept. */
  function AddMonthsMs(z: Zone, dateMs: int, n: int): int {
    var t := z.toLocal(dateMs);
    z.fromLocal(LocalTime(AddMonths(t.date, n), t.msOfDay))
  }
}

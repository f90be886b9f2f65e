/**
 * Calendar dates at day granularity, with the year arithmetic of the .NET
 * `DateTime.AddYears` that the age filter relies on, and the age in
 * completed years against which that filter is explained.
 */
module Dates {
  import opened Wrappers

  /** A proleptic Gregorian calendar day. */
  datatype Date = Date(year: int, month: int, day: int)

  /** The range of years a .NET `DateTime` can represent. */
  const MinYear := 1
  const MaxYear := 9999
  /** `AddYears` refuses an offset beyond this many years in either direction. */
  const MaxYearOffset := 10000

  predicate IsLeapYear(y: int) {
    y % 4 == 0 && (y % 100 != 0 || y % 400 == 0)
  }

  function DaysInMonth(y: int, m: int): (n: int)
    requires 1 <= m <= 12
    ensures 28 <= n <= 31
    ensures m == 2 ==> (n == 29 <==> IsLeapYear(y))
  {
    if m == 2 then (if IsLeapYear(y) then 29 else 28)
    else if m == 4 || m == 6 || m == 9 || m == 11 then 30
    else 31
  }

  /** `d` is a day a `DateTime` can hold. */
  predicate ValidDate(d: Date) {
    && MinYear <= d.year <= MaxYear
    && 1 <= d.month <= 12
    && 1 <= d.day <= DaysInMonth(d.year, d.month)
  }

  /** Chronological order: `a` is the same day as `b` or earlier. */
  predicate DateLe(a: Date, b: Date) {
    || a.year < b.year
    || (a.year == b.year && (a.month < b.month || (a.month == b.month && a.day <= b.day)))
  }

  /** Month and day of `a` come strictly before those of `b` within a year. */
  predicate MonthDayBefore(a: Date, b: Date) {
    a.month < b.month || (a.month == b.month && a.day < b.day)
  }

  /**
   * `DateTime.AddYears`: the same month and day `years` later; the leap day
   * becomes February 28 in a common year. `None` is the
   * `ArgumentOutOfRangeException` thrown for an offset beyond 10000 years or
   * a result outside the years 1 to 9999.
   */
  function AddYears(d: Date, years: int): (r: Option<Date>)
    ensures r.Some? <==> -MaxYearOffset <= years <= MaxYearOffset && MinYear <= d.year + years <= MaxYear
    ensures r.Some? ==> r.value.year == d.year + years && r.value.month == d.month
    ensures r.Some? && ValidDate(d) ==> ValidDate(r.value)
    ensures r.Some? && ValidDate(d) && ValidDate(Date(d.year + years, d.month, d.day)) ==> r.value.day == d.day
    ensures r.Some? && ValidDate(d) && !ValidDate(Date(d.year + years, d.month, d.day)) ==>
              r.value.day == DaysInMonth(d.year + years, d.month) < d.day
  {
    var y := d.year + years;
    if years < -MaxYearOffset || years > MaxYearOffset || y < MinYear || y > MaxYear then None
    else if d.month == 2 && d.day == 29 && !IsLeapYear(y) then Some(Date(y, 2, 28))
    else Some(Date(y, d.month, d.day))
  }

  /** Completed years of life on `today` of someone born on `dob`. */
  function Age(dob: Date, today: Date): int {
    today.year - dob.year - (if MonthDayBefore(today, dob) then 1 else 0)
  }

  /**
   * Someone is at least `k` years old exactly when they were born on or
   * before the day `AddYears` gives for `k` years ago.
   */
  lemma BornByYearsAgo(dob: Date, today: Date, k: int)
    requires ValidDate(dob) && ValidDate(today)
    requires AddYears(today, -k).Some?
    ensures DateLe(dob, AddYears(today, -k).value) <==> Age(dob, today) >= k
  {
    var b := AddYears(today, -k).value;
    if b.day != today.day {
      // only the leap day is moved, and no valid date falls on February 29 of a common year
      assert today.month == 2 && today.day == 29 && b.day == 28 && !IsLeapYear(b.year);
      assert dob.year == b.year && dob.month == 2 ==> dob.day <= 28;
    }
  }

  /** The day `k` years before `today` is when one turns `k`. */
  lemma AgeOnYearsAgo(today: Date, k: int)
    requires ValidDate(today)
    requires AddYears(today, -k).Some?
    ensures Age(AddYears(today, -k).value, today) == k
  {
  }
}

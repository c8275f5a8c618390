/** Proleptic Gregorian calendar dates with the range checks of Python's
    `datetime.date` (years 1 to 9999) and its order. */
module Dates {

  datatype Date = Date(year: int, month: int, day: int)

  /** Why `datetime.date(year, month, day)` or a parser refused its input. */
  datatype Failure =
    | NoMatch          // "time data ... does not match format ..."
    | Trailing         // "unconverted data remains: ..."
    | YearOutOfRange   // "year ... is out of range"
    | MonthOutOfRange  // "month must be in 1..12"
    | DayOutOfRange    // "day is out of range for month"
    | BadIsoFormat     // "Invalid isoformat string: ..."

  datatype DateResult = Ok(date: Date) | Fail(why: Failure)

  const MinYear := 1
  const MaxYear := 9999

  predicate IsLeapYear(y: int)
  {
    y % 4 == 0 && (y % 100 != 0 || y % 400 == 0)
  }

  function DaysInMonth(y: int, m: int): (n: int)
    requires 1 <= m <= 12
    ensures 28 <= n <= 31
    ensures n == 29 <==> m == 2 && IsLeapYear(y)
  {
    if m == 2 then (if IsLeapYear(y) then 29 else 28)
    else if m == 4 || m == 6 || m == 9 || m == 11 then 30
    else 31
  }

  /** A value `datetime.date` accepts. */
  predicate IsValid(d: Date)
  {
    && MinYear <= d.year <= MaxYear
    && 1 <= d.month <= 12
    && 1 <= d.day <= DaysInMonth(d.year, d.month)
  }

  /** `datetime.date(y, m, d)`: the year is checked first, then the month,
      then the day, each with its own message. */
  function MakeDate(y: int, m: int, d: int): (r: DateResult)
    ensures r.Ok? <==> IsValid(Date(y, m, d))
    ensures r.Ok? ==> r.date == Date(y, m, d)
    ensures r.Fail? ==> r.why in {YearOutOfRange, MonthOutOfRange, DayOutOfRange}
    ensures r == Fail(DayOutOfRange) <==>
              MinYear <= y <= MaxYear && 1 <= m <= 12 && !(1 <= d <= DaysInMonth(y, m))
  {
    if !(MinYear <= y <= MaxYear) then Fail(YearOutOfRange)
    else if !(1 <= m <= 12) then Fail(MonthOutOfRange)
    else if !(1 <= d <= DaysInMonth(y, m)) then Fail(DayOutOfRange)
    else Ok(Date(y, m, d))
  }

  /** `a < b` on dates: lexicographic on (year, month, day). */
  predicate Before(a: Date, b: Date)
  {
    a.year < b.year || (a.year == b.year && (a.month < b.month || (a.month == b.month && a.day < b.day)))
  }

  predicate NotAfter(a: Date, b: Date)
  {
    Before(a, b) || a == b
  }

  /** The order is total and strict: exactly one of a < b, a == b, b < a. */
  lemma BeforeTrichotomy(a: Date, b: Date)
    ensures Before(a, b) || a == b || Before(b, a)
    ensures !(Before(a, b) && Before(b, a))
    ensures !Before(a, a)
  {
  }

  lemma BeforeTransitive(a: Date, b: Date, c: Date)
    requires Before(a, b) && Before(b, c)
    ensures Before(a, c)
  {
  }

  /** Python's date(y + 1, m, d): the same day one year later. */
  function NextYear(d: Date): (r: DateResult)
    requires IsValid(d)
    ensures r.Ok? ==> r.date.year == d.year + 1 && r.date.month == d.month && r.date.day == d.day
    ensures r.Ok? ==> Before(d, r.date)
    ensures r.Fail? <==> d.year == MaxYear || (d.month == 2 && d.day == 29)
  {
    MakeDate(d.year + 1, d.month, d.day)
  }

  /** Every day that exists in some year exists in a leap year. */
  lemma ValidInLeapYear(d: Date, y: int)
    requires IsValid(d)
    requires MinYear <= y <= MaxYear && IsLeapYear(y)
    ensures IsValid(Date(y, d.month, d.day))
  {
  }

  /** A day that exists in a common year exists in every year. */
  lemma ValidInAnyYear(d: Date, y: int)
    requires IsValid(d) && !IsLeapYear(d.year)
    requires MinYear <= y <= MaxYear
    ensures IsValid(Date(y, d.month, d.day))
  {
  }
}

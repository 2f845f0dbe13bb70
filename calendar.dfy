/** The calendar check `datetime.date(year, month, day)` performs when the
    forecast date is built (Weather3.py:155). */
module Calendar {
  import opened Wrappers

  /** `datetime.MINYEAR` and `datetime.MAXYEAR`. */
  const MinYear := 1
  const MaxYear := 9999

  datatype Date = Date(year: int, month: int, day: int)

  /** Gregorian leap years, as `calendar.isleap`. */
  predicate IsLeap(year: int) {
    year % 4 == 0 && (year % 100 != 0 || year % 400 == 0)
  }

  function DaysInMonth(year: int, month: int): (n: int)
    requires 1 <= month <= 12
    ensures 28 <= n <= 31
    ensures n == 29 <==> month == 2 && IsLeap(year)
    ensures n == 28 <==> month == 2 && !IsLeap(year)
  {
    if month == 2 then (if IsLeap(year) then 29 else 28)
    else if month == 4 || month == 6 || month == 9 || month == 11 then 30
    else 31
  }

  /** The year and month of a real clock reading (`date.today()`). */
  predicate ValidYearMonth(year: int, month: int) {
    MinYear <= year <= MaxYear && 1 <= month <= 12
  }

  predicate ValidDate(d: Date) {
    ValidYearMonth(d.year, d.month) && 1 <= d.day <= DaysInMonth(d.year, d.month)
  }

  /** `datetime.date(year, month, day)`: the date, or the `day` that made
      the constructor raise ValueError (OverflowError for a day outside
      the range of a C int). */
  function MakeDate(year: int, month: int, day: int): (r: Result<Date, int>)
    requires ValidYearMonth(year, month)
    ensures r.Success? <==> 1 <= day <= DaysInMonth(year, month)
    ensures r.Success? ==> ValidDate(r.value) && r.value == Date(year, month, day)
    ensures r.Failure? ==> r.error == day
  {
    if 1 <= day <= DaysInMonth(year, month) then Success(Date(year, month, day))
    else Failure(day)
  }
}

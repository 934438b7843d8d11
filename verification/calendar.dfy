/**
 * Calendar dates as Python's `datetime` holds them (proleptic Gregorian,
 * years 1 to 9999), and the reading of the complete extended form
 * `YYYY-MM-DD` of ISO 8601:2004 section 4.1.2.2 back into a date.
 */
module Calendar {
  import opened Wrappers
  import opened Text

  datatype Date = Date(year: int, month: int, day: int)

  /** `datetime.MINYEAR` and `datetime.MAXYEAR`. */
  const MinYear: int := 1
  const MaxYear: int := 9999

  predicate IsLeapYear(y: int)
  {
    y % 4 == 0 && (y % 100 != 0 || y % 400 == 0)
  }

  function DaysInMonth(y: int, m: int): (days: int)
    requires 1 <= m <= 12
  {
    if m == 2 then (if IsLeapYear(y) then 29 else 28)
    else if m == 4 || m == 6 || m == 9 || m == 11 then 30
    else 31
  }

  predicate IsValid(d: Date)
  {
    MinYear <= d.year <= MaxYear && 1 <= d.month <= 12 && 1 <= d.day <= DaysInMonth(d.year, d.month)
  }

  /** Every date a `datetime` object can carry. */
  type CalendarDate = d: Date | IsValid(d) witness Date(1, 1, 1)

  /**
   * Reads a string of exactly the shape `YYYY-MM-DD` (four, two and two
   * digits, hyphen separators) as a date, if it names one.
   */
  function ParseIsoDate(s: string): (r: Option<CalendarDate>)
  {
    if |s| == 10 && s[4] == '-' && s[7] == '-'
       && AllDigits(s[..4]) && AllDigits(s[5..7]) && AllDigits(s[8..])
    then
      var d := Date(DecimalValue(s[..4]), DecimalValue(s[5..7]), DecimalValue(s[8..]));
      if IsValid(d) then Some(d) else None
    else None
  }
}

/**
 * Calendar dates as the expense form hands them over. Date arithmetic and the
 * validity of a day within its month belong to the date library and are not
 * modelled; a date is a year, a month number and a day number.
 */
module Calendar {
  /** A month number: 1 is January, 12 is December. */
  type MonthNumber = m: int | 1 <= m <= 12 witness 1

  /** A day of the month. */
  type DayNumber = d: int | 1 <= d <= 31 witness 1

  datatype Date = Date(year: int, month: MonthNumber, day: DayNumber)

  /** The full English name of a month, as strftime("%B") prints it. */
  function MonthName(m: MonthNumber): string
  {
    if m == 1 then "January"
    else if m == 2 then "February"
    else if m == 3 then "March"
    else if m == 4 then "April"
    else if m == 5 then "May"
    else if m == 6 then "June"
    else if m == 7 then "July"
    else if m == 8 then "August"
    else if m == 9 then "September"
    else if m == 10 then "October"
    else if m == 11 then "November"
    else "December"
  }
}

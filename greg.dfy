/** Conversion between Gregorian dates (year, month, day) and Rata Die (R.D.)
    day numbers, as computed by hebcal's greg package.

    R.D. 1 is 1 January of year 1 and R.D. 0 is 31 December of year 0: the
    Gregorian leap-year rule is applied uniformly to every year, year 0 and
    negative years included. Months are the integers 1..12 (January = 1).
    Integers are unbounded: the package's int64 values and its float64-based
    floor operations are modelled as exact mathematical integers.
 */
module Greg {

  /** A calendar date as returned by FromRD. */
  datatype Date = Date(year: int, month: int, day: int)

  /** 1-based month lengths of a common year; slot 0 is padding. */
  const MonthLen: seq<int> := [0, 31, 28, 31, 30, 31, 30, 31, 31, 30, 31, 30, 31]

  /** Floor division, as the package computes it through float64
      (see QuotientIsFloor). */
  function Quotient(x: int, y: int): int
    requires y != 0
  {
    if y > 0 then x / y else (-x) / (-y)
  }

  /** Floor modulo: the remainder takes the sign of the divisor
      (see ModIsFloorRemainder). */
  function Mod(x: int, y: int): int
    requires y != 0
  {
    x - y * Quotient(x, y)
  }

  /** Quotient(x, y) is the greatest integer q with q * y <= x (for a
      positive divisor) and the least with q * y >= x (for a negative one). */
  lemma QuotientIsFloor(x: int, y: int)
    requires y != 0
    ensures var q := Quotient(x, y);
      (y > 0 ==> y * q <= x < y * q + y) && (y < 0 ==> y * q >= x > y * q + y)
  {
  }

  /** Mod(x, y) lies between 0 and y, and for a positive divisor it is the
      remainder of Euclidean division. */
  lemma ModIsFloorRemainder(x: int, y: int)
    requires y != 0
    ensures var m := Mod(x, y);
      (y > 0 ==> 0 <= m < y && m == x % y) && (y < 0 ==> y < m <= 0)
  {
    QuotientIsFloor(x, y);
  }

  /** The Gregorian leap-year rule, with a floor modulo so that it holds
      for year 0 and negative years. */
  function IsLeapYear(year: int): (leap: bool)
    ensures leap <==> year % 4 == 0 && (year % 100 != 0 || year % 400 == 0)
  {
    if Mod(year, 4) == 0 then
      var n := Mod(year, 400);
      n != 100 && n != 200 && n != 300
    else
      false
  }

  /** Number of days in the given month of the given year. Month 0 reads the
      padding slot of the table; any other month outside 1..12 is outside
      the table. */
  function DaysIn(month: int, year: int): (days: int)
    requires 0 <= month <= 12
    ensures month == 0 ==> days == 0
    ensures 1 <= month <= 12 ==> 28 <= days <= 31
    ensures month == 2 ==> (days == 29 <==> IsLeapYear(year))
    ensures month == 2 ==> (days == 28 <==> !IsLeapYear(year))
    ensures (month == 4 || month == 6 || month == 9 || month == 11) ==> days == 30
    ensures (month == 1 || month == 3 || month == 5 || month == 7 || month == 8
             || month == 10 || month == 12) ==> days == 31
  {
    if month == 2 && IsLeapYear(year) then 29 else MonthLen[month]
  }

  /** Correction to the 367/12 approximation of the days before a month:
      nothing for January and February, and afterwards the amount by which
      February falls short of 30 days. */
  function MonthOffset(year: int, month: int): (offset: int)
    ensures month <= 2 ==> offset == 0
    ensures month > 2 ==> offset == DaysIn(2, year) - 30
  {
    if month <= 2 then 0
    else if IsLeapYear(year) then -1
    else -2
  }

  /** The R.D. number of a Gregorian date. */
  function ToRD(year: int, month: int, day: int): int {
    var py := year - 1;
    365 * py                          // days up to the preceding year
    + Quotient(py, 4)                 // Julian leap years
    - Quotient(py, 100)               // century years
    + Quotient(py, 400)               // Gregorian leap years
    + Quotient(367 * month - 362, 12) // days so far this year
    + MonthOffset(year, month) + day
  }

  /** The year in which an R.D. number falls, found by partitioning the days
      into 400-, 100-, 4- and 1-year cycles. */
  function YearFromFixed(rataDie: int): int {
    var l0 := rataDie - 1;
    var n400 := Quotient(l0, 146097);
    var d1 := Mod(l0, 146097);
    var n100 := Quotient(d1, 36524);
    var d2 := Mod(d1, 36524);
    var n4 := Quotient(d2, 1461);
    var d3 := Mod(d2, 1461);
    var n1 := Quotient(d3, 365);
    var year := 400 * n400 + 100 * n100 + 4 * n4 + n1;
    // Four whole centuries or four whole years without the block that follows
    // them: the day is 31 December of a leap year, not a day of the next year.
    if n100 == 4 || n1 == 4 then year else year + 1
  }

  /** The Gregorian date of an R.D. number (Reingold and Dershowitz). */
  function FromRD(rataDie: int): Date {
    var year := YearFromFixed(rataDie);
    var correction :=
      if rataDie < ToRD(year, 3, 1) then 0
      else if IsLeapYear(year) then 1
      else 2;
    var priorDays := rataDie - ToRD(year, 1, 1);
    var month := Quotient(12 * (priorDays + correction) + 373, 367);
    var day := rataDie - ToRD(year, month, 1) + 1;
    Date(year, month, day)
  }
}

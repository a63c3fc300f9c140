/** Reference definitions of the Gregorian calendar and the properties of the
    conversions in module Greg: the closed-form formulas agree with counting
    month and year lengths, the day numbers are contiguous and increasing in
    civil order, and ToRD and FromRD are inverse bijections between valid
    dates and all integers.
 */
module GregProofs {
  import opened Greg

  /** A date whose month and day exist in the proleptic Gregorian calendar. */
  predicate Valid(d: Date) {
    1 <= d.month <= 12 && 1 <= d.day <= DaysIn(d.month, d.year)
  }

  /** Civil (lexicographic) order on dates. */
  predicate Before(a: Date, b: Date) {
    a.year < b.year
    || (a.year == b.year && a.month < b.month)
    || (a.year == b.year && a.month == b.month && a.day < b.day)
  }

  function DaysInYear(year: int): int {
    if IsLeapYear(year) then 366 else 365
  }

  /** Days in the months of `year` before `month`: the sum of DaysIn(k, year)
      for k in 1..month-1. */
  function DaysBefore(month: int, year: int): int
    requires 1 <= month <= 13
  {
    if month == 1 then 0 else DaysBefore(month - 1, year) + DaysIn(month - 1, year)
  }

  /** Days from 1 January of year 1 to 1 January of `year`, counted by adding
      (or, before year 1, subtracting) whole year lengths. */
  function DaysBeforeYear(year: int): int
    decreases if year >= 1 then year - 1 else 1 - year
  {
    if year == 1 then 0
    else if year > 1 then DaysBeforeYear(year - 1) + DaysInYear(year - 1)
    else DaysBeforeYear(year + 1) - DaysInYear(year)
  }

  /** The reference R.D. number: one more than the days before the date. */
  function FixedOf(d: Date): int
    requires 1 <= d.month <= 12
  {
    DaysBeforeYear(d.year) + DaysBefore(d.month, d.year) + d.day
  }

  function RD(d: Date): int {
    ToRD(d.year, d.month, d.day)
  }

  // ---------------------------------------------------------------------------
  // Leap years and month lengths

  lemma LeapYearExamples()
    ensures IsLeapYear(0) && IsLeapYear(2000) && IsLeapYear(2004) && IsLeapYear(-4)
    ensures !IsLeapYear(-1) && !IsLeapYear(-100) && !IsLeapYear(1900) && !IsLeapYear(2005)
  {
  }

  lemma LeapYearPeriodic(year: int)
    ensures IsLeapYear(year + 400) == IsLeapYear(year)
    ensures DaysInYear(year + 400) == DaysInYear(year)
  {
  }

  lemma DaysInYearIsSumOfMonths(year: int)
    ensures DaysBefore(13, year) == DaysInYear(year)
  {
    MonthOffsetTrick(year, 12);
  }

  /** The closed form in ToRD for the days before a month is exact. */
  lemma MonthOffsetTrick(year: int, month: int)
    requires 1 <= month <= 12
    ensures Quotient(367 * month - 362, 12) + MonthOffset(year, month) == DaysBefore(month, year)
  {
  }

  // ---------------------------------------------------------------------------
  // The forward conversion

  lemma ToRDNextDay(year: int, month: int, day: int)
    ensures ToRD(year, month, day + 1) == ToRD(year, month, day) + 1
  {
  }

  lemma ToRDNextMonth(year: int, month: int)
    requires 1 <= month <= 11
    ensures ToRD(year, month + 1, 1) == ToRD(year, month, DaysIn(month, year)) + 1
  {
    MonthOffsetTrick(year, month);
    MonthOffsetTrick(year, month + 1);
  }

  /** ToRD counts the days of a valid month from 1 January of the year. */
  lemma ToRDInYear(year: int, month: int, day: int)
    requires 1 <= month <= 12
    ensures ToRD(year, month, day) == ToRD(year, 1, 1) + DaysBefore(month, year) + day - 1
  {
    MonthOffsetTrick(year, month);
  }

  /** Multiples of 400 are multiples of 100, which are multiples of 4. */
  lemma MultiplesNest(year: int)
    ensures year % 400 == 0 ==> year % 100 == 0
    ensures year % 100 == 0 ==> year % 4 == 0
  {
  }

  /** The counts of multiples of 4, 100 and 400 up to a year step up
      exactly at those multiples. */
  lemma MultipleCountsStep(year: int)
    ensures Quotient(year, 4) == Quotient(year - 1, 4) + (if year % 4 == 0 then 1 else 0)
    ensures Quotient(year, 100) == Quotient(year - 1, 100) + (if year % 100 == 0 then 1 else 0)
    ensures Quotient(year, 400) == Quotient(year - 1, 400) + (if year % 400 == 0 then 1 else 0)
  {
  }

  lemma ToRDNextYear(year: int)
    ensures ToRD(year + 1, 1, 1) == ToRD(year, 1, 1) + DaysInYear(year)
    ensures ToRD(year + 1, 1, 1) == ToRD(year, 12, 31) + 1
  {
    MultipleCountsStep(year);
    MultiplesNest(year);
    assert ToRD(year + 1, 1, 1) == ToRD(year, 1, 1) + 365
      + (if year % 4 == 0 then 1 else 0)
      - (if year % 100 == 0 then 1 else 0)
      + (if year % 400 == 0 then 1 else 0);
    ToRDInYear(year, 12, 31);
    DaysInYearIsSumOfMonths(year);
  }

  lemma ToRDPeriodic(year: int, month: int, day: int)
    ensures ToRD(year + 400, month, day) == ToRD(year, month, day) + 146097
  {
  }

  lemma {:induction false} YearStart(year: int)
    ensures ToRD(year, 1, 1) == DaysBeforeYear(year) + 1
    decreases if year >= 1 then year - 1 else 1 - year
  {
    if year > 1 {
      YearStart(year - 1);
      ToRDNextYear(year - 1);
    } else if year < 1 {
      YearStart(year + 1);
      ToRDNextYear(year);
    }
  }

  /** ToRD agrees with counting days for every valid month. */
  lemma ToRDIsFixedOf(d: Date)
    requires 1 <= d.month <= 12
    ensures RD(d) == FixedOf(d)
  {
    var start := ToRD(d.year, 1, 1);
    assert start == DaysBeforeYear(d.year) + 1 by { YearStart(d.year); }
    assert RD(d) == start + DaysBefore(d.month, d.year) + d.day - 1 by {
      ToRDInYear(d.year, d.month, d.day);
    }
  }

  // ---------------------------------------------------------------------------
  // Finding the year of an R.D. number

  /** 1 January of the year after 400a + 100b + 4c + e whole years, inside
      one 100-year block and one 4-year block. */
  lemma YearStartOfCycles(a: int, b: int, c: int, e: int)
    requires 0 <= b <= 3 && 0 <= c <= 24 && 0 <= e <= 3
    ensures ToRD(400 * a + 100 * b + 4 * c + e + 1, 1, 1)
         == 146097 * a + 36524 * b + 1461 * c + 365 * e + 1
  {
    var py := 400 * a + 100 * b + 4 * c + e;
    assert Quotient(py, 4) == 100 * a + 25 * b + c;
    assert Quotient(py, 100) == 4 * a + b;
    assert Quotient(py, 400) == a;
  }

  /** The cycle counts YearFromFixed computes, with the bounds they obey. */
  lemma YearFromFixedCycles(rataDie: int) returns (a: int, b: int, c: int, e: int, rest: int)
    ensures rataDie - 1 == 146097 * a + 36524 * b + 1461 * c + 365 * e + rest
    ensures 0 <= b <= 4 && 0 <= c <= 24 && 0 <= e <= 4 && 0 <= rest < 365
    ensures b == 4 ==> c == 0 && e == 0 && rest == 0
    ensures e == 4 ==> c <= 23 && rest == 0
    ensures YearFromFixed(rataDie)
         == 400 * a + 100 * b + 4 * c + e + (if b == 4 || e == 4 then 0 else 1)
  {
    var l0 := rataDie - 1;
    a := Quotient(l0, 146097);
    var d1 := Mod(l0, 146097);
    b := Quotient(d1, 36524);
    var d2 := Mod(d1, 36524);
    c := Quotient(d2, 1461);
    var d3 := Mod(d2, 1461);
    e := Quotient(d3, 365);
    rest := Mod(d3, 365);
  }

  /** The last day of a 400-year cycle is 31 December of a leap year. */
  lemma LastDayOfCentury(a: int)
    ensures IsLeapYear(400 * a + 400)
    ensures ToRD(400 * a + 400, 1, 1) == 146097 * a + 145732
  {
    var year := 400 * a + 400;
    assert Quotient(year, 4) == 100 * a + 100;
    assert Quotient(year, 400) == a + 1;
    assert Mod(year, 4) == 0 && Mod(year, 400) == 0;
    YearStartOfCycles(a, 3, 24, 3);
  }

  /** The last day of a 4-year cycle is 31 December of a leap year. */
  lemma LastDayOfQuadrennium(a: int, b: int, c: int)
    requires 0 <= b <= 3 && 0 <= c <= 23
    ensures IsLeapYear(400 * a + 100 * b + 4 * c + 4)
    ensures ToRD(400 * a + 100 * b + 4 * c + 4, 1, 1) == 146097 * a + 36524 * b + 1461 * c + 1096
  {
    var year := 400 * a + 100 * b + 4 * c + 4;
    assert Quotient(year, 4) == 100 * a + 25 * b + c + 1;
    assert Quotient(year, 400) == a;
    assert Mod(year, 4) == 0 && Mod(year, 400) == 100 * b + 4 * c + 4;
    YearStartOfCycles(a, b, c, 3);
  }

  /** A day no earlier than 1 January of a year and fewer than that year's
      length of days after it lies in that year. */
  lemma InYearFromStart(year: int, start: int, rataDie: int)
    requires ToRD(year, 1, 1) == start <= rataDie < start + DaysInYear(year)
    ensures ToRD(year, 1, 1) <= rataDie < ToRD(year + 1, 1, 1)
  {
    ToRDNextYear(year);
  }

  /** YearFromFixed finds the year whose days contain the R.D. number. */
  lemma YearFromFixedInYear(rataDie: int)
    ensures var year := YearFromFixed(rataDie);
      ToRD(year, 1, 1) <= rataDie < ToRD(year + 1, 1, 1)
  {
    var a, b, c, e, rest := YearFromFixedCycles(rataDie);
    if b == 4 {
      LastDayOfCentury(a);
      InYearFromStart(400 * a + 400, 146097 * a + 145732, rataDie);
    } else if e == 4 {
      LastDayOfQuadrennium(a, b, c);
      InYearFromStart(400 * a + 100 * b + 4 * c + 4,
                      146097 * a + 36524 * b + 1461 * c + 1096, rataDie);
    } else {
      YearStartOfCycles(a, b, c, e);
      InYearFromStart(400 * a + 100 * b + 4 * c + e + 1,
                      146097 * a + 36524 * b + 1461 * c + 365 * e + 1, rataDie);
    }
  }

  lemma {:induction false} YearStartIncreasing(earlier: int, later: int)
    requires earlier < later
    ensures ToRD(earlier, 1, 1) + 365 * (later - earlier) <= ToRD(later, 1, 1)
    decreases later - earlier
  {
    ToRDNextYear(later - 1);
    if earlier < later - 1 {
      YearStartIncreasing(earlier, later - 1);
    }
  }

  /** Exactly one year contains a given R.D. number, and YearFromFixed finds it. */
  lemma YearFromFixedUnique(rataDie: int, year: int)
    ensures YearFromFixed(rataDie) == year
        <==> ToRD(year, 1, 1) <= rataDie < ToRD(year + 1, 1, 1)
  {
    var found := YearFromFixed(rataDie);
    assert ToRD(found, 1, 1) <= rataDie < ToRD(found + 1, 1, 1) by { YearFromFixedInYear(rataDie); }
    if year < found {
      assert ToRD(year + 1, 1, 1) <= ToRD(found, 1, 1) by {
        if year + 1 < found { YearStartIncreasing(year + 1, found); }
      }
    } else if found < year {
      assert ToRD(found + 1, 1, 1) <= ToRD(year, 1, 1) by {
        if found + 1 < year { YearStartIncreasing(found + 1, year); }
      }
    }
  }

  // ---------------------------------------------------------------------------
  // Finding the month and day

  /** The month FromRD computes from the days elapsed in the year is the one
      whose days contain them. */
  lemma MonthFromPriorDays(year: int, priorDays: int, correction: int, month: int)
    requires 0 <= priorDays < DaysInYear(year)
    requires correction ==
      if priorDays < DaysBefore(3, year) then 0
      else if IsLeapYear(year) then 1
      else 2
    requires month == Quotient(12 * (priorDays + correction) + 373, 367)
    ensures 1 <= month <= 12
    ensures DaysBefore(month, year) <= priorDays < DaysBefore(month, year) + DaysIn(month, year)
  {
    assert 1 <= month <= 12;
    MonthOffsetTrick(year, 3);
    MonthOffsetTrick(year, month);
    if month < 12 {
      MonthOffsetTrick(year, month + 1);
    } else {
      DaysInYearIsSumOfMonths(year);
    }
  }

  lemma {:induction false} DaysBeforeIncreasing(year: int, earlier: int, later: int)
    requires 1 <= earlier < later <= 13
    ensures DaysBefore(earlier, year) + DaysIn(earlier, year) <= DaysBefore(later, year)
    decreases later - earlier
  {
    if earlier < later - 1 {
      DaysBeforeIncreasing(year, earlier, later - 1);
    }
  }

  // ---------------------------------------------------------------------------
  // Order, round trips and bijection

  /** A valid date's R.D. number lies within the days of its year. */
  lemma ToRDWithinYear(d: Date)
    requires Valid(d)
    ensures ToRD(d.year, 1, 1) <= RD(d) < ToRD(d.year + 1, 1, 1)
  {
    ToRDIsFixedOf(d);
    YearStart(d.year);
    ToRDNextYear(d.year);
    DaysInYearIsSumOfMonths(d.year);
    if d.month < 12 {
      DaysBeforeIncreasing(d.year, d.month, 13);
    }
  }

  /** ToRD is strictly increasing in civil order on valid dates. */
  lemma ToRDIncreasing(a: Date, b: Date)
    requires Valid(a) && Valid(b) && Before(a, b)
    ensures RD(a) < RD(b)
  {
    if a.year < b.year {
      ToRDWithinYear(a);
      ToRDWithinYear(b);
      if a.year + 1 < b.year {
        YearStartIncreasing(a.year + 1, b.year);
      }
    } else if a.month < b.month {
      ToRDIsFixedOf(a);
      ToRDIsFixedOf(b);
      DaysBeforeIncreasing(a.year, a.month, b.month);
    }
  }

  /** On valid dates, comparing R.D. numbers is comparing dates. */
  lemma ToRDOrder(a: Date, b: Date)
    requires Valid(a) && Valid(b)
    ensures RD(a) < RD(b) <==> Before(a, b)
    ensures RD(a) == RD(b) <==> a == b
  {
    if Before(a, b) {
      ToRDIncreasing(a, b);
    } else if Before(b, a) {
      ToRDIncreasing(b, a);
    } else {
      assert a == b;
    }
  }

  /** Within the days of a year, the month and day FromRD computes form a
      valid date with that R.D. number. */
  lemma MonthAndDayInYear(year: int, rataDie: int, correction: int, month: int, day: int)
    requires ToRD(year, 1, 1) <= rataDie < ToRD(year + 1, 1, 1)
    requires correction ==
      if rataDie < ToRD(year, 3, 1) then 0
      else if IsLeapYear(year) then 1
      else 2
    requires month == Quotient(12 * (rataDie - ToRD(year, 1, 1) + correction) + 373, 367)
    requires day == rataDie - ToRD(year, month, 1) + 1
    ensures Valid(Date(year, month, day))
    ensures ToRD(year, month, day) == rataDie
  {
    var start := ToRD(year, 1, 1);
    var priorDays := rataDie - start;
    assert priorDays < DaysInYear(year) by { ToRDNextYear(year); }
    assert rataDie < ToRD(year, 3, 1) <==> priorDays < DaysBefore(3, year) by {
      ToRDInYear(year, 3, 1);
    }
    MonthFromPriorDays(year, priorDays, correction, month);
    assert day == priorDays - DaysBefore(month, year) + 1 by { ToRDInYear(year, month, 1); }
  }

  /** Every R.D. number is the day of a valid date that FromRD returns. */
  lemma FromRDValid(rataDie: int)
    ensures Valid(FromRD(rataDie))
    ensures RD(FromRD(rataDie)) == rataDie
  {
    var year := YearFromFixed(rataDie);
    YearFromFixedInYear(rataDie);
    var d := FromRD(rataDie);
    var correction :=
      if rataDie < ToRD(year, 3, 1) then 0
      else if IsLeapYear(year) then 1
      else 2;
    MonthAndDayInYear(year, rataDie, correction, d.month, d.day);
  }

  /** FromRD inverts ToRD on every valid date. */
  lemma FromRDToRD(d: Date)
    requires Valid(d)
    ensures FromRD(RD(d)) == d
  {
    FromRDValid(RD(d));
    ToRDOrder(FromRD(RD(d)), d);
  }

  // ---------------------------------------------------------------------------
  // Concrete dates

  lemma ToRDModernVectors()
    ensures ToRD(1995, 12, 17) == 728644
    ensures ToRD(1888, 12, 31) == 689578
    ensures ToRD(2005, 4, 2) == 732038
  {
  }

  lemma ToRD2014Feb19()
    ensures ToRD(2014, 2, 19) == 735283
  {
  }

  lemma DaysInFebruary2004()
    ensures DaysIn(2, 2004) == 29
  {
  }

  lemma ToRDEarlyVectors()
    ensures ToRD(88, 12, 30) == 32141
    ensures ToRD(1, 1, 1) == 1
  {
  }

  lemma ToRDEpochVectors()
    ensures ToRD(0, 12, 31) == 0
    ensures ToRD(0, 12, 30) == -1
  {
  }

  lemma ToRDYearZeroVectors()
    ensures ToRD(0, 3, 1) == -305
    ensures ToRD(0, 2, 29) == -306
    ensures ToRD(0, 1, 1) == -365
  {
  }

  lemma ToRDNegativeVectors()
    ensures ToRD(-1, 12, 31) == -366
    ensures ToRD(-1, 1, 1) == -730
    ensures ToRD(-3, 1, 1) == -1460
  {
  }

  lemma ToRDCenturyVectors()
    ensures ToRD(-99, 12, 20) == -36171
    ensures ToRD(-100, 12, 20) == -36536
    ensures ToRD(-999, 6, 15) == -365077
  {
  }

  lemma ToRDLateYearZeroVectors()
    ensures ToRD(0, 12, 29) == -2
  {
  }

  lemma ToRDYearZeroAutumnVectors()
    ensures ToRD(0, 11, 13) == -48
    ensures ToRD(0, 10, 31) == -61
  {
  }

  lemma ToRDYearZeroOctoberVectors()
    ensures ToRD(0, 10, 1) == -91
    ensures ToRD(0, 2, 28) == -307
    ensures ToRD(0, 2, 27) == -308
  {
  }

  lemma ToRDEarlyYearZeroVectors()
    ensures ToRD(0, 2, 1) == -334
    ensures ToRD(0, 1, 31) == -335
    ensures ToRD(0, 1, 16) == -350
  {
  }

  lemma ToRDEarlyNegativeVectors()
    ensures ToRD(-1, 12, 1) == -396
    ensures ToRD(-2, 1, 1) == -1095
  {
  }

  lemma FromRD2020May8()
    ensures FromRD(737553) == Date(2020, 5, 8)
  {
    assert RD(Date(2020, 5, 8)) == 737553;
    FromRDToRD(Date(2020, 5, 8));
  }

  lemma FromRD1888Dec31()
    ensures FromRD(689578) == Date(1888, 12, 31)
  {
    assert RD(Date(1888, 12, 31)) == 689578;
    FromRDToRD(Date(1888, 12, 31));
  }

  lemma FromRD2005Apr2()
    ensures FromRD(732038) == Date(2005, 4, 2)
  {
    assert RD(Date(2005, 4, 2)) == 732038;
    FromRDToRD(Date(2005, 4, 2));
  }

  lemma FromRD88Dec31()
    ensures FromRD(32142) == Date(88, 12, 31)
  {
    assert RD(Date(88, 12, 31)) == 32142;
    FromRDToRD(Date(88, 12, 31));
  }

  lemma FromRD89Jan1()
    ensures FromRD(32143) == Date(89, 1, 1)
  {
    assert RD(Date(89, 1, 1)) == 32143;
    FromRDToRD(Date(89, 1, 1));
  }

  lemma FromRD400Dec31()
    ensures FromRD(146097) == Date(400, 12, 31)
  {
    assert RD(Date(400, 12, 31)) == 146097;
    FromRDToRD(Date(400, 12, 31));
  }

  lemma FromRD0Dec31()
    ensures FromRD(0) == Date(0, 12, 31)
  {
    assert RD(Date(0, 12, 31)) == 0;
    FromRDToRD(Date(0, 12, 31));
  }

  lemma FromRD0Jan1()
    ensures FromRD(-365) == Date(0, 1, 1)
  {
    assert RD(Date(0, 1, 1)) == -365;
    FromRDToRD(Date(0, 1, 1));
  }

  lemma FromRDMinus1Dec31()
    ensures FromRD(-366) == Date(-1, 12, 31)
  {
    assert RD(Date(-1, 12, 31)) == -366;
    FromRDToRD(Date(-1, 12, 31));
  }

  lemma FromRDMinus1Jan1()
    ensures FromRD(-730) == Date(-1, 1, 1)
  {
    assert RD(Date(-1, 1, 1)) == -730;
    FromRDToRD(Date(-1, 1, 1));
  }

  lemma FromRDMinus100Dec20()
    ensures FromRD(-36536) == Date(-100, 12, 20)
  {
    assert RD(Date(-100, 12, 20)) == -36536;
    FromRDToRD(Date(-100, 12, 20));
  }

  lemma FromRD88Dec30()
    ensures FromRD(32141) == Date(88, 12, 30)
  {
    assert RD(Date(88, 12, 30)) == 32141;
    FromRDToRD(Date(88, 12, 30));
  }

  lemma FromRD0Dec30()
    ensures FromRD(-1) == Date(0, 12, 30)
  {
    assert RD(Date(0, 12, 30)) == -1;
    FromRDToRD(Date(0, 12, 30));
  }

  lemma FromRD0Dec29()
    ensures FromRD(-2) == Date(0, 12, 29)
  {
    assert RD(Date(0, 12, 29)) == -2;
    FromRDToRD(Date(0, 12, 29));
  }

  lemma FromRD0Nov13()
    ensures FromRD(-48) == Date(0, 11, 13)
  {
    assert RD(Date(0, 11, 13)) == -48;
    FromRDToRD(Date(0, 11, 13));
  }

  lemma FromRD0Oct31()
    ensures FromRD(-61) == Date(0, 10, 31)
  {
    assert RD(Date(0, 10, 31)) == -61;
    FromRDToRD(Date(0, 10, 31));
  }

  lemma FromRD0Oct1()
    ensures FromRD(-91) == Date(0, 10, 1)
  {
    assert RD(Date(0, 10, 1)) == -91;
    FromRDToRD(Date(0, 10, 1));
  }

  lemma FromRD0Sep30()
    ensures FromRD(-92) == Date(0, 9, 30)
  {
    assert RD(Date(0, 9, 30)) == -92;
    FromRDToRD(Date(0, 9, 30));
  }

  /** R.D. 1 is 1 January of year 1. */
  lemma FromRD1Jan1()
    ensures FromRD(1) == Date(1, 1, 1)
  {
    FromRDValid(1);
    ToRDOrder(FromRD(1), Date(1, 1, 1));
  }

  /** Year 0 is an ordinary leap year directly before year 1: the formula has
      no gap for a missing year 0. */
  lemma YearZeroIsOrdinary()
    ensures IsLeapYear(0) && DaysIn(2, 0) == 29
    ensures ToRD(1, 1, 1) == ToRD(0, 12, 31) + 1
  {
    ToRDNextYear(0);
  }

  /** The formula has no Julian-to-Gregorian transition: 2 September 1752 is
      followed by 3 September, and R.D. 639796 is 13 September 1752. */
  lemma NoJulianTransition()
    ensures ToRD(1752, 9, 2) == 639785
    ensures ToRD(1752, 9, 3) == 639786
  {
  }

  lemma NoTransitionGap()
    ensures FromRD(639796) == Date(1752, 9, 13)
  {
    assert RD(Date(1752, 9, 13)) == 639796;
    FromRDToRD(Date(1752, 9, 13));
  }

  /** After the dates the Julian transition would skip, the day numbers agree
      with the historical calendar: 14 and 15 September 1752. */
  lemma PostTransitionVectors()
    ensures ToRD(1752, 9, 14) == 639797
    ensures ToRD(1752, 9, 15) == 639798
  {
  }

  lemma FromRD1752Sep14()
    ensures FromRD(639797) == Date(1752, 9, 14)
  {
    assert RD(Date(1752, 9, 14)) == 639797;
    FromRDToRD(Date(1752, 9, 14));
  }
}

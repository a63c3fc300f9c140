# Gregorian dates and Rata Die day numbers

A Dafny model of hebcal's `greg` package. The package converts between
Gregorian calendar dates (year, month, day) and R.D. (Rata Die) day numbers.
R.D. day numbers are a plain count of days from a fixed point, with negative
numbers for days before it. The model covers these parts of `greg.go`:

- the leap-year predicate `IsLeapYear`;
- the month-length table `monthLen` and `DaysIn`;
- the floor operations `quotient` and `mod`;
- the `monthOffset` correction;
- the closed-form forward conversion `ToRD`;
- the cycle-partitioning year finder `yearFromFixed`;
- the inverse conversion `FromRD`.

The conversion is the fixed-from-gregorian and gregorian-from-fixed algorithm
of Reingold and Dershowitz.

Two modules:

- `Greg` (`greg.dfy`) holds the operations. They are pure functions that do
  what the Go functions do, branch for branch and constant for constant.
  `quotient` and `mod` become exact floor division and floor modulo on
  unbounded integers.
- `GregProofs` (`greg_proofs.dfy`) holds reference definitions and lemmas.
  - The reference definitions are `DaysBefore`, `DaysBeforeYear` and
    `FixedOf`. They count days by adding up month lengths and year lengths.
  - The lemmas prove that the closed forms agree with the counting, that day
    numbers are contiguous and strictly increasing in civil order, and that
    `ToRD` and `FromRD` are inverse bijections between valid dates and all
    integers.
  - Lemmas for the package's test vectors check the values on concrete dates.

What the code computes is the uniform proleptic Gregorian calendar. R.D. 1
is 1 January of year 1 and R.D. 0 is 31 December of year 0. Year 0 is an
ordinary leap year, and negative years follow the same 400-year rule. There is
no Julian calendar before 1752 and no gap in September 1752. The model
follows the code:

- The comment at greg.go:78 says `ToRD` panics for year 0. The code has no
  such check, so the model accepts year 0 (`YearZeroIsOrdinary`).
- Several vectors in greg_test.go expect a different convention:
  - `ToRD(1, January, 1) = -1` (greg_test.go:26-27);
  - `ToRD(88, December, 30) = 32139` (greg_test.go:24-25);
  - the negative-year numbering of greg_test.go:30-60 and 120-195;
  - 2 September 1752 as day 639796 (greg_test.go:103-106 and 115), as if
    the Julian calendar ran up to that date.

  The code as written does not produce these values. The model proves what
  it does produce instead: `ToRDEarlyVectors`, `NoJulianTransition` and
  `NoTransitionGap`.
- The vectors the code does reproduce are proved as lemmas:
  - every vector of greg_test.go dated after 2 September 1752, including
    14 and 15 September 1752 (greg_test.go:107-110, 116-117);
  - every vector of proleptic_test.go. They exercise the same formula under
    another name.

## Model

| member | source | states |
|---|---|---|
| Greg.QuotientIsFloor | greg.go:97-99 | `quotient` is floor division: for a positive divisor the result q satisfies y*q <= x < y*q + y, and the mirror bounds hold for a negative divisor |
| Greg.ModIsFloorRemainder | greg.go:90-95 | `mod` takes the sign of the divisor: in 0..y-1 for y > 0, where it equals the Euclidean remainder, and in y+1..0 for y < 0 |
| Greg.Quotient | greg.go:97-99 | has no ensures of its own (floor division is stated by `Greg.QuotientIsFloor`, kept apart so that concrete day numbers stay cheap to evaluate) |
| Greg.Mod | greg.go:90-95 | has no ensures of its own (the floor remainder is stated by `Greg.ModIsFloorRemainder`) |
| Greg.ToRD | greg.go:76-88 | has no ensures of its own; its contract is carried by `GregProofs.ToRDIsFixedOf` (it equals the day count by month and year lengths), the contiguity lemmas `ToRDNextDay`, `ToRDNextMonth` and `ToRDNextYear`, and `GregProofs.ToRDOrder` (strictly increasing and injective on valid dates) |
| Greg.YearFromFixed | greg.go:101-122 | has no ensures of its own; its contract is carried by `GregProofs.YearFromFixedUnique` (it returns exactly the year whose days contain the day number) |
| Greg.FromRD | greg.go:124-146 | has no ensures of its own; its contract is carried by `GregProofs.FromRDValid` (a valid date that ToRD maps back, for every integer) and `GregProofs.FromRDToRD` (the inverse of ToRD on valid dates) |
| Greg.IsLeapYear | greg.go:42-52 | a year is leap exactly when it is divisible by 4 and either not by 100 or by 400, for every integer year including 0 and negatives |
| Greg.DaysIn | greg.go:31-40 | month 0 (the table's padding slot) has 0 days; every month 1..12 has 28..31 days; February has 29 days exactly in leap years and 28 otherwise; April, June, September and November have 30; the other seven months have 31 |
| Greg.MonthOffset | greg.go:62-74 | the correction is 0 for January and February, and from March on it is the amount by which February falls short of 30 days (-1 in a leap year, -2 otherwise) |
| GregProofs.LeapYearExamples | greg.go:43-52 | years 0, -4, 2000 and 2004 are leap; -1, -100, 1900 and 2005 are not |
| GregProofs.LeapYearPeriodic | greg.go:43-52 | the leap rule and the year length repeat every 400 years |
| GregProofs.MonthOffsetTrick | greg.go:62-86 | for months 1..12, `quotient(367*m - 362, 12) + monthOffset` equals the sum of the lengths of the months before m |
| GregProofs.DaysInYearIsSumOfMonths | greg.go:31-40 | the twelve month lengths add up to 366 in a leap year and 365 otherwise |
| GregProofs.DaysBeforeIncreasing | greg.go:31-40 | a later month starts no earlier than the end of an earlier one in the same year |
| GregProofs.ToRDNextDay | greg.go:79-88 | the next day of a month has the next day number |
| GregProofs.ToRDNextMonth | greg.go:79-88 | the first day of the next month directly follows the last day of a month (months 1..11) |
| GregProofs.ToRDInYear | greg.go:79-88 | a date's day number is 1 January's plus the days of the earlier months plus the day of the month minus one |
| GregProofs.MultipleCountsStep | greg.go:81-84 | the floor counts of multiples of 4, 100 and 400 up to a year rise by one exactly at such a multiple |
| GregProofs.ToRDNextYear | greg.go:79-88 | 1 January of the next year is the length of the year after 1 January, and directly follows 31 December, across year 0 and negative years too |
| GregProofs.ToRDPeriodic | greg.go:81-84 | moving a date by 400 years moves its day number by 146097 |
| GregProofs.YearStart | greg.go:79-88 | 1 January of every year is one more than the sum of the lengths of the years from year 1 up to it (subtracted for years before 1) |
| GregProofs.ToRDIsFixedOf | greg.go:79-88 | for every month 1..12, `ToRD` equals the day count by year and month lengths |
| GregProofs.YearStartIncreasing | greg.go:79-88 | each later 1 January is at least 365 days per year after an earlier one |
| GregProofs.ToRDWithinYear | greg.go:79-88 | a valid date's day number lies between 1 January of its year and 1 January of the next |
| GregProofs.ToRDIncreasing | greg.go:79-88 | a date earlier in civil order has a smaller day number |
| GregProofs.ToRDOrder | greg.go:79-88 | on valid dates, day numbers compare as the dates do, and equal day numbers mean equal dates |
| GregProofs.YearStartOfCycles | greg.go:103-111 | 1 January after 400a + 100b + 4c + e whole years (b, e < 4, c < 25) is day 146097a + 36524b + 1461c + 365e + 1, the block sizes `yearFromFixed` divides by |
| GregProofs.YearFromFixedCycles | greg.go:102-122 | the 400-, 100-, 4- and 1-year counts decompose the day, with b and e at most 4, four centuries only on the cycle's last day, four years only on a quadrennium's last day, and the year is their sum plus one except in those two cases |
| GregProofs.LastDayOfCentury | greg.go:114-118 | when four 100-year blocks are counted, the year is a leap year whose 31 December is the cycle's last day |
| GregProofs.LastDayOfQuadrennium | greg.go:114-118 | when four single years are counted, the year is a leap year whose 31 December is the block's last day |
| GregProofs.YearFromFixedInYear | greg.go:101-122 | the year found contains the day: its 1 January is at or before it, and the next year's is after it |
| GregProofs.YearFromFixedUnique | greg.go:101-122 | `yearFromFixed` returns a year exactly when that year's days contain the day number, so the year is unique |
| GregProofs.MonthFromPriorDays | greg.go:134-143 | from the days elapsed in the year and the March correction, the month trick yields a month in 1..12 whose days contain the elapsed days |
| GregProofs.MonthAndDayInYear | greg.go:142-146 | within a year, the month and day `FromRD` computes form a valid date with the given day number |
| GregProofs.FromRDValid | greg.go:132-146 | for every integer, `FromRD` returns a month in 1..12 and a day in 1..DaysIn, and `ToRD` of the result gives the integer back |
| GregProofs.FromRDToRD | greg.go:132-146 | `FromRD` inverts `ToRD` on every valid date |
| GregProofs.ToRDModernVectors | greg_test.go:12-20 | 1995-12-17 is 728644, 1888-12-31 is 689578, 2005-04-02 is 732038 |
| GregProofs.ToRD2014Feb19 | greg_test.go:203-208 | 2014-02-19 is 735283 |
| GregProofs.DaysInFebruary2004 | greg_test.go:197-201 | February 2004 has 29 days |
| GregProofs.ToRDEarlyVectors | proleptic_test.go:22-28 | 88-12-30 is 32141 and 1-01-01 is 1, not the 32139 and -1 that greg_test.go:24-27 expects |
| GregProofs.ToRDEpochVectors | proleptic_test.go:32-33 | 0-12-31 is 0 and 0-12-30 is -1 |
| GregProofs.ToRDYearZeroVectors | proleptic_test.go:38-45 | in leap year 0, March 1 is -305, February 29 is -306 and January 1 is -365 |
| GregProofs.ToRDNegativeVectors | proleptic_test.go:46-54 | -1-12-31 is -366, -1-01-01 is -730 and -3-01-01 is -1460 |
| GregProofs.ToRDCenturyVectors | proleptic_test.go:55-57 | -99-12-20 is -36171, -999-06-15 is -365077 and -100-12-20 is -36536 |
| GregProofs.FromRD2020May8 | greg_test.go:63-68 | day 737553 is 2020-05-08 |
| GregProofs.FromRD1888Dec31 | greg_test.go:69-72 | day 689578 is 1888-12-31 |
| GregProofs.FromRD2005Apr2 | greg_test.go:73-76 | day 732038 is 2005-04-02 |
| GregProofs.FromRD88Dec31 | proleptic_test.go:85-88 | day 32142 is 88-12-31, the last day of a 4-year block |
| GregProofs.FromRD89Jan1 | proleptic_test.go:89-92 | day 32143 is 89-01-01 |
| GregProofs.FromRD400Dec31 | greg.go:114-118 | day 146097, the last day of the first 400-year cycle, is 400-12-31 |
| GregProofs.FromRD0Dec31 | proleptic_test.go:119-122 | day 0 is 0-12-31 |
| GregProofs.FromRD0Jan1 | proleptic_test.go:150-153 | day -365 is 0-01-01 |
| GregProofs.FromRDMinus1Dec31 | proleptic_test.go:155-158 | day -366 is -1-12-31 |
| GregProofs.FromRDMinus1Jan1 | proleptic_test.go:109-112 | day -730 is -1-01-01 |
| GregProofs.FromRDMinus100Dec20 | proleptic_test.go:114-117 | day -36536 is -100-12-20 |
| GregProofs.ToRDLateYearZeroVectors | proleptic_test.go:34 | 0-12-29 is -2 |
| GregProofs.ToRDYearZeroAutumnVectors | proleptic_test.go:35-36 | 0-11-13 is -48 and 0-10-31 is -61 |
| GregProofs.ToRDYearZeroOctoberVectors | proleptic_test.go:37-41 | 0-10-01 is -91, 0-02-28 is -307 and 0-02-27 is -308 |
| GregProofs.ToRDEarlyYearZeroVectors | proleptic_test.go:42-44 | 0-02-01 is -334, 0-01-31 is -335 and 0-01-16 is -350 |
| GregProofs.ToRDEarlyNegativeVectors | proleptic_test.go:51-53 | -1-12-01 is -396 and -2-01-01 is -1095 |
| GregProofs.FromRD88Dec30 | proleptic_test.go:81-84 | day 32141 is 88-12-30 |
| GregProofs.FromRD0Dec30 | proleptic_test.go:123-126 | day -1 is 0-12-30 |
| GregProofs.FromRD0Dec29 | proleptic_test.go:127-130 | day -2 is 0-12-29 |
| GregProofs.FromRD0Nov13 | proleptic_test.go:131-134 | day -48 is 0-11-13 |
| GregProofs.FromRD0Oct31 | proleptic_test.go:135-138 | day -61 is 0-10-31 |
| GregProofs.FromRD0Oct1 | proleptic_test.go:140-143 | day -91 is 0-10-01 |
| GregProofs.FromRD0Sep30 | proleptic_test.go:145-148 | day -92 is 0-09-30 |
| GregProofs.PostTransitionVectors | greg_test.go:116-117 | 1752-09-14 is 639797 and 1752-09-15 is 639798, as the test expects |
| GregProofs.FromRD1752Sep14 | greg_test.go:107-110 | day 639797 is 1752-09-14, as the test expects |
| GregProofs.FromRD1Jan1 | proleptic_test.go:95-100 | day 1 is 1-01-01 |
| GregProofs.YearZeroIsOrdinary | greg.go:76-88 | year 0 is a leap year with a 29-day February, and 1 January of year 1 directly follows 31 December of year 0: nothing rejects year 0 |
| GregProofs.NoJulianTransition | greg_test.go:113-118 | 1752-09-02 is 639785 and 1752-09-03 is 639786, not the Julian-transition values the test expects |
| GregProofs.NoTransitionGap | greg_test.go:98-111 | day 639796 is 1752-09-13, not the 1752-09-02 the test expects |

## Left out

- `DateToRD` (greg.go:54-60) is not modelled. It only reads year, month and day from a `time.Time` and calls `ToRD`. Its example value is checked on `ToRD` directly (`ToRD2014Feb19`).
- Quotient: `quotient` and `mod` work through `float64`. They agree with exact floor division only while magnitudes stay below 2^53. The model uses exact integers and does not model rounding beyond that.
- Mod: as for `Quotient`, float64 rounding for large magnitudes is not modelled.
- `int64` overflow is not modelled. All values are unbounded integers.
- Go's `time.Month` is modelled as a plain integer, January = 1.
- DaysIn: the Go function panics when the month indexes outside the 13-slot table. The model makes `0 <= month <= 12` a precondition instead of modelling the panic.
- The Julian calendar before September 1752, the 1752 gap, numbering without a year 0, and a panic for year 0 are not modelled. greg_test.go and the comment at greg.go:78 expect them, but `greg.go` does not implement them.
- `ProlepticToRD` and `ProlepticFromRD` are not part of this model. Their test vectors are checked against `ToRD` and `FromRD`, which compute the same proleptic calendar.
- The test harness and the `Example*` functions' printing are not modelled.

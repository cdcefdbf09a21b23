/**
 * Dates before year 1, written -1 for 1 BC, in src/lang/Date.cpp: which of
 * them survive the conversion to a day number and back.
 */
module EarlyDates {
  import opened Calendar

  const FIRST_YEAR := -4713

  /** The day of the year of a date, in the row of the table that mdy_to_julian takes. */
  function EncodedDay(d: Ymd): int
    requires 1 <= d.month <= 12
  {
    DaysSoFar(FourthYear(d.year + 1), d.month - 1) + d.day
  }

  /** The truncating division by four counts a leap year too many in julian_to_mdy, but in leap years. */
  function Slip(y: int, e: int): int {
    if y % 4 == 0 || y == FIRST_YEAR then 0 else if (y + 1) % 4 == 0 && e >= 365 then 0 else 1
  }

  lemma EarlyNumber(d: Ymd)
    requires Civil(d) && FIRST_YEAR <= d.year < 0
    ensures 1 <= EncodedDay(d) <= (if FourthYear(d.year + 1) then 366 else 365)
    ensures DayNumber(d) == Quot(d.year, 4) + EncodedDay(d) + 365 * d.year + JAN1_1 - 1
    ensures 0 <= DayNumber(d) <= JAN1_1
  {
    NumberBeforeOne(d);
    hide DayNumber, EncodedDay;
  }

  /** Where the two divisions of julian_to_mdy land. */
  lemma EarlyDivides(y: int, e: int)
    requires FIRST_YEAR <= y < 0 && 1 <= e <= (if FourthYear(y + 1) then 366 else 365)
    ensures var z := Quot(y, 4) + e + 365 * y + JAN1_1;
      var z', r := z - Quot(z - YEAR, FOUR_YEARS), e + Slip(y, e);
      if r < 365 then z' / YEAR == y + 4713 && z' % YEAR == r else z' / YEAR == y + 4714 && z' % YEAR == r - 365
  {
    var z := Quot(y, 4) + e + 365 * y + JAN1_1;
    var k, t := (y + 4713) / 4, (y + 4713) % 4;
    assert Quot(y, 4) == (if t <= 1 then k else k + 1) - 1178;
    if y == FIRST_YEAR {
      assert Quot(z - YEAR, FOUR_YEARS) == 0;
      DivYear(z, if e < 365 then 0 else 1);
    } else {
      var q := if t == 0 && e < 365 then k - 1 else k;
      DivFourYears(z - YEAR, q);
      DivYear(z - q, if e + Slip(y, e) < 365 then y + 4713 else y + 4714);
    }
  }

  /** What julian_to_mdy makes of day `e` of year `y`. */
  lemma EarlyDecodes(y: int, e: int)
    requires FIRST_YEAR <= y < 0 && 1 <= e <= (if FourthYear(y + 1) then 366 else 365)
    ensures var d, r := FromCount(Quot(y, 4) + e + 365 * y + JAN1_1), e + Slip(y, e);
      if r < 365 then d == AtTableDay(y, r) && d.year == y
      else if r == 365 then d == Ymd(if y == -1 then 0 else y, 12, 31)
      else d.year == if y == -1 then 1 else y + 1
  {
    EarlyDivides(y, e);
    var r := e + Slip(y, e);
    if r == 365 {
      var leap := FourthYear(if y == -1 then 1 else y + 1);
      MonthFound(leap, if leap then 366 else 365, 11);
    }
    hide MonthOf, DaysSoFar;
  }

  /** The two rows of the table agree up to the end of February. */
  lemma RowsAgree(d: Ymd)
    requires Civil(d) && d.year < 0
    ensures EncodedDay(d) == TableDay(d) + if d.month <= 2 then 0
      else if FourthYear(d.year + 1) then 1 else if FourthYear(d.year) then -1 else 0
  {
    hide IsLeapYear, DaysInMonth;
  }

  lemma EarlyTableDay(d: Ymd)
    requires Civil(d) && d.year < 0
    ensures 1 <= TableDay(d) <= 366
    ensures d.month <= 2 ==> TableDay(d) <= 60
    ensures d.month > 2 ==> TableDay(d) >= 60
    ensures d.month == 12 && d.day == 31 <==> TableDay(d) == if FourthYear(d.year) then 366 else 365
  {
  }

  lemma EarlyMonthFound(d: Ymd)
    requires Civil(d) && d.year < 0
    ensures 1 <= TableDay(d) <= 366 && AtTableDay(d.year, TableDay(d)) == d
  {
    EarlyTableDay(d);
    EarlyMonthFits(d);
    MonthFound(FourthYear(d.year), TableDay(d), d.month - 1);
    hide MonthOf, DaysSoFar;
  }

  lemma EarlyMonthFits(d: Ymd)
    requires Civil(d) && d.year < 0
    ensures DaysSoFar(FourthYear(d.year), d.month - 1) < TableDay(d) <= DaysSoFar(FourthYear(d.year), d.month)
  {
  }

  /**
   * A date before year 1 that has a day number comes back exactly when it is
   * in January or February of a leap year or of the first year, or the last
   * day of a leap year.
   */
  lemma EarlyRoundTrip(d: Ymd)
    requires Civil(d) && FIRST_YEAR <= d.year < 0
    ensures DayNumber(d) >= 0
    ensures DateOf(DayNumber(d)) == d <==>
      || (IsLeapYear(d.year) && (d.month <= 2 || (d.month == 12 && d.day == 31)))
      || (d.year == FIRST_YEAR && d.month <= 2)
  {
    hide DayNumber, EncodedDay, TableDay, AtTableDay, FromCount, DaysInMonth;
    EarlyNumber(d);
    var e := EncodedDay(d);
    var r := e + Slip(d.year, e);
    EarlyDecodes(d.year, e);
    RowsAgree(d);
    EarlyTableDay(d);
    EarlyMonthFound(d);
    if r < 365 {
      AtTableDayInverts(d.year, r);
    }
  }

  /** No date before the first year has a day number. */
  lemma FirstYearFirst(d: Ymd)
    requires Civil(d) && d.year < 0
    ensures DayNumber(d) >= 0 <==> d.year >= FIRST_YEAR
  {
    NumberBeforeOne(d);
    hide DayNumber, DaysSoFar;
  }

  /** A year 0, which there is not, counts as 1 BC. */
  lemma YearZero(month: int, day: int)
    requires 1 <= month <= 12
    ensures DayNumber(Ymd(0, month, day)) == DayNumber(Ymd(-1, month, day))
  {
    hide DaysSoFar;
  }
}

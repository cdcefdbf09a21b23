/**
 * Day numbers of src/lang/Date.cpp read back: which day numbers survive the
 * conversion to a date and back, for all dates of years 1 to 32767.
 */
module DayNumbers {
  import opened Calendar

  /**
   * `j` is the number of day `e` of year `y` in the table.  From the cutover
   * on, the first day of a century that is no leap year shares its number with
   * the last day of the year before, and counts as the latter.
   */
  predicate NumberOf(j: int, y: int, e: int) {
    && 1 <= y <= 32767 && 1 <= e <= TableYear(y)
    && if j < OCT5_1582 - 1 then j == FourthYearCount(y, e) - 1
       else
         && j == FourthYearCount(y, e) + 1 - y / 100 + y / 400 && y >= 1582
         && !(e == 1 && y % 100 == 0 && y % 400 != 0)
  }

  /** Not 30 December of a fourth year, and no day the century correction drifts on. */
  predicate Survives(j: int, y: int, e: int) {
    !(FourthYear(y) && e == 365) && (j >= OCT5_1582 - 1 ==> DriftAt(y, e) == 0)
  }

  /** The day of year `y` that julian_to_mdy takes `j` for. */
  function ReadAs(j: int, y: int, e: int): int {
    e + if j < OCT5_1582 - 1 then 0 else DriftAt(y, e)
  }

  lemma ReadsAs(j: nat, y: int, e: int)
    requires NumberOf(j, y, e)
    ensures 1 <= ReadAs(j, y, e) <= TableYear(y) && DateOf(j) == Decoded(y, ReadAs(j, y, e))
    ensures ReadAs(j, y, e) != e ==> ReadAs(j, y, e) < 365
  {
    DriftBounds(y, e);
    if j >= OCT5_1582 - 1 {
      CorrectionDrifts(y, e, j);
    }
    NumberDecodes(j, y, ReadAs(j, y, e));
  }

  /** The table day that a decoded day has. */
  lemma DecodedDay(y: int, e: int)
    requires y >= 1 && 1 <= e <= TableYear(y)
    ensures var d := Decoded(y, e);
      d.year == y && 1 <= d.month <= 12 && TableDay(d) == if e >= 365 then TableYear(y) else e
  {
    if e < 365 {
      AtTableDayInverts(y, e);
    }
  }

  lemma NumberFromTable(d: Ymd)
    requires 1 <= d.month <= 12 && d.year >= 1
    ensures Uncorrected(d) == FourthYearCount(d.year, TableDay(d)) - 1
    ensures DayNumber(d) == if Uncorrected(d) >= OCT14_1582
      then FourthYearCount(d.year, TableDay(d)) + 1 - d.year / 100 + d.year / 400
      else FourthYearCount(d.year, TableDay(d)) - 1
  {
    hide DaysSoFar;
  }

  lemma NumberOfDecoded(j: nat, y: int, e: int)
    requires NumberOf(j, y, e)
    ensures DayNumber(DateOf(j)) == j <==> (if ReadAs(j, y, e) >= 365 then TableYear(y) else ReadAs(j, y, e)) == e
  {
    hide DateOf, DayNumber, TableDay, Uncorrected, Decoded;
    ReadsAs(j, y, e);
    var r := ReadAs(j, y, e);
    DecodedDay(y, r);
    NumberFromTable(DateOf(j));
  }

  /** A day number survives exactly when its day of the table does. */
  lemma NumberSurvives(j: nat, y: int, e: int)
    requires NumberOf(j, y, e)
    ensures DayNumber(DateOf(j)) == j <==> Survives(j, y, e)
  {
    NumberOfDecoded(j, y, e);
    DriftBounds(y, e);
  }

  // ---------------------------------------------------------------- every number is that of a day

  /** The number of 1 January as the table and the corrections give it. */
  function YearStart(y: int, gregorian: bool): int
    requires y >= 1
  {
    if gregorian then FourthYearCount(y, 1) + 1 - y / 100 + y / 400 else FourthYearCount(y, 1) - 1
  }

  lemma NextStart(y: int, gregorian: bool)
    requires y >= 1
    ensures var next := YearStart(y + 1, gregorian); var start := YearStart(y, gregorian);
      start + 364 <= next <= start + TableYear(y)
  {
    NextFourthYear(y);
    NextCentury(y);
    NextFourCenturies(y);
    if (y + 1) % 400 == 0 {
      FourCenturiesAreCenturies(y + 1);
    }
    assert FourthYearCount(y + 1, 1) == FourthYearCount(y, 1) + TableYear(y);
    hide FourthYearCount, TableYear;
  }

  /** Search the year of a number from year `y` on. */
  lemma {:induction false} YearFound(j: int, y: int, gregorian: bool) returns (found: int)
    requires y >= 1 && YearStart(y, gregorian) <= j
    ensures found >= y && YearStart(found, gregorian) <= j < YearStart(found + 1, gregorian)
    decreases j - YearStart(y, gregorian)
  {
    NextStart(y, gregorian);
    if j < YearStart(y + 1, gregorian) {
      found := y;
    } else {
      found := YearFound(j, y + 1, gregorian);
    }
  }

  lemma LastOfCentury(y: int)
    requires y > 1582 && y % 100 == 0 && y % 400 != 0
    ensures TableYear(y - 1) == 365 && YearStart(y - 1, true) + 364 == YearStart(y, true)
  {
    CenturyIsFourthYear(y);
    NextFourthYear(y - 1);
    NextCentury(y - 1);
    NextFourCenturies(y - 1);
  }

  /** Every number from 1 January of year 1 to 31 December 32767 is that of such a day. */
  lemma EveryNumberIsADay(j: int) returns (y: int, e: int)
    requires DayNumber(Ymd(1, 1, 1)) <= j <= DayNumber(Ymd(32767, 12, 31))
    ensures NumberOf(j, y, e)
  {
    NumberFromTable(Ymd(1, 1, 1));
    NumberFromTable(Ymd(32767, 12, 31));
    if j < OCT5_1582 - 1 {
      y := YearFound(j, 1, false);
      e := j - YearStart(y, false) + 1;
      NextStart(y, false);
    } else {
      assert YearStart(1582, true) <= j;
      y := YearFound(j, 1582, true);
      e := j - YearStart(y, true) + 1;
      NextStart(y, true);
      if e == 1 && y % 100 == 0 && y % 400 != 0 {
        LastOfCentury(y);
        y, e := y - 1, 365;
      }
    }
  }

  /**
   * For every day number from 1 January of year 1 to 31 December 32767,
   * mdy_to_julian undoes julian_to_mdy exactly when the number's day is not
   * 30 December of a fourth year and not one the century correction drifts on.
   */
  lemma NumberRoundTrip(j: nat)
    requires DayNumber(Ymd(1, 1, 1)) <= j <= DayNumber(Ymd(32767, 12, 31))
    ensures exists y, e :: NumberOf(j, y, e)
    ensures forall y, e | NumberOf(j, y, e) :: DayNumber(DateOf(j)) == j <==> Survives(j, y, e)
  {
    var y, e := EveryNumberIsADay(j);
    forall y, e | NumberOf(j, y, e)
      ensures DayNumber(DateOf(j)) == j <==> Survives(j, y, e)
    {
      NumberSurvives(j, y, e);
    }
  }

  // ---------------------------------------------------------------- the date of an n-th weekday

  /**
   * By how many days the date read from the number `k` days after the first of
   * a month is off: the drift of the correction, or the ten skipped days when
   * numbers of October 1582 are taken for those after the cutover.
   */
  function Shift(y: int, m: int, k: int): int
    requires 1 <= m <= 12
  {
    if y == 1582 && m == 10 then if k >= 3 then 10 else 0
    else if y > 1582 then Drift(Ymd(y, m, k + 1))
    else 0
  }

  /** In week `n` of the month, counted from its first day. */
  predicate InWeek(d: Ymd, y: int, m: int, n: int) {
    d.year == y && d.month == m && 7 * (n - 1) < d.day <= 7 * n
  }

  /** The number `k` days after the first of a month is read as the day of the table shifted by that much. */
  predicate ReadShifted(y: int, m: int, k: int)
    requires 1 <= m <= 12
  {
    var j, e := DayNumber(Ymd(y, m, 1)) + k, TableDay(Ymd(y, m, k + 1));
    && j >= 0 && 0 <= e + Shift(y, m, k) <= 366
    && DateOf(j) == Decoded(y, e + Shift(y, m, k))
  }

  lemma NumberInMonth(y: int, m: int, k: int)
    requires 1 <= y <= 32767 && 1 <= m <= 12 && 0 <= k < 28
    ensures ReadShifted(y, m, k)
  {
    hide ReadShifted;
    if y == 1582 && m == 10 {
      OctoberOf1582(k);
    } else if y > 1582 || (y == 1582 && m > 10) {
      LateMonth(y, m, k);
    } else {
      EarlyMonth(y, m, k);
    }
  }

  lemma LateNumbers(y: int, m: int, k: int)
    requires 1582 <= y <= 32767 && 1 <= m <= 12 && 0 <= k < 28 && (y > 1582 || m > 10)
    ensures ValidDate(Ymd(y, m, k + 1)) && Uncorrected(Ymd(y, m, k + 1)) >= OCT14_1582
    ensures DayNumber(Ymd(y, m, k + 1)) == DayNumber(Ymd(y, m, 1)) + k
  {
    var first, d := Ymd(y, m, 1), Ymd(y, m, k + 1);
    CutoverSide(first);
    CutoverSide(d);
    hide Uncorrected, DaysSoFar;
    GregorianDayNumber(first);
    GregorianDayNumber(d);
    hide DayNumber;
  }

  lemma LateMonth(y: int, m: int, k: int)
    requires 1582 <= y <= 32767 && 1 <= m <= 12 && 0 <= k < 28 && (y > 1582 || m > 10)
    ensures ReadShifted(y, m, k)
  {
    hide DateOf, DayNumber, Decoded, TableDay, Uncorrected, ValidDate, Shift, Drift;
    LateNumbers(y, m, k);
    LateShift(y, m, k);
    GregorianDecodes(Ymd(y, m, k + 1));
  }

  lemma LateShift(y: int, m: int, k: int)
    requires 1 <= m <= 12 && (y > 1582 || (y == 1582 && m > 10))
    ensures Shift(y, m, k) == Drift(Ymd(y, m, k + 1))
  {
    hide TableDay;
  }

  lemma EarlyShift(y: int, m: int, k: int)
    requires 1 <= m <= 12 && (y < 1582 || (y == 1582 && m < 10))
    ensures Shift(y, m, k) == 0
  {
  }

  lemma OctoberShift(k: int)
    ensures Shift(1582, 10, k) == if k >= 3 then 10 else 0
  {
  }

  lemma EarlyNumbers(y: int, m: int, k: int)
    requires 1 <= y <= 1582 && 1 <= m <= 12 && 0 <= k < 28 && (y < 1582 || m < 10)
    ensures ValidDate(Ymd(y, m, k + 1)) && Uncorrected(Ymd(y, m, k + 1)) < OCT5_1582 - 1
    ensures Uncorrected(Ymd(y, m, k + 1)) == DayNumber(Ymd(y, m, k + 1)) == DayNumber(Ymd(y, m, 1)) + k
  {
    var first, d := Ymd(y, m, 1), Ymd(y, m, k + 1);
    NumberFromTable(first);
    NumberFromTable(d);
    hide TableDay, DaysSoFar, Uncorrected, DayNumber;
  }

  lemma EarlyMonth(y: int, m: int, k: int)
    requires 1 <= y <= 1582 && 1 <= m <= 12 && 0 <= k < 28 && (y < 1582 || m < 10)
    ensures ReadShifted(y, m, k)
  {
    hide DateOf, DayNumber, Decoded, TableDay, Uncorrected, ValidDate, Julianized, FourthYearCount, Shift, FourthYear;
    var d := Ymd(y, m, k + 1);
    EarlyNumbers(y, m, k);
    EarlyShift(y, m, k);
    FourthYearCountOf(d);
    TableDayBounds(d);
    NumberDecodes(DayNumber(d), y, TableDay(d));
  }

  lemma OctoberOf1582(k: int)
    requires 0 <= k < 28
    ensures ReadShifted(1582, 10, k)
  {
    hide DateOf, DayNumber, Decoded, TableDay, NumberOf, ReadAs, Shift;
    OctoberShift(k);
    OctoberNumbers(k);
    ReadsAs(2299156 + k, 1582, 274 + k + if k >= 3 then 10 else 0);
  }

  lemma OctoberNumbers(k: int)
    requires 0 <= k < 28
    ensures DayNumber(Ymd(1582, 10, 1)) == 2299156 && TableDay(Ymd(1582, 10, k + 1)) == 274 + k
    ensures var e := 274 + k + if k >= 3 then 10 else 0;
      NumberOf(2299156 + k, 1582, e) && ReadAs(2299156 + k, 1582, e) == e
  {
  }

  lemma MonthOfInverts(y: int, m: int, e: int)
    requires 1 <= m <= 12 && 1 <= e < 365
    ensures var before := DaysSoFar(FourthYear(y), m - 1);
      && (before < e <= before + 28 ==> AtTableDay(y, e) == Ymd(y, m, e - before))
      && (AtTableDay(y, e).month == m ==> AtTableDay(y, e) == Ymd(y, m, e - before))
  {
    hide DaysSoFar, FourthYear, MonthOf;
    var leap := FourthYear(y);
    MonthRoom(leap, m);
    if DaysSoFar(leap, m - 1) < e <= DaysSoFar(leap, m - 1) + 28 {
      MonthFound(leap, e, m - 1);
    }
  }

  /** A day of the table lies in a week of a month exactly when its number in the year does. */
  lemma DecodedInWeek(y: int, m: int, n: int, e: int)
    requires 1 <= m <= 12 && 1 <= n <= 4 && 0 <= e <= 366
    ensures var before := DaysSoFar(FourthYear(y), m - 1);
      InWeek(Decoded(y, e), y, m, n) <==> before + 7 * (n - 1) < e <= before + 7 * n
  {
    hide DaysSoFar, FourthYear, AtTableDay;
    MonthRoom(FourthYear(y), m);
    if 1 <= e < 365 {
      MonthOfInverts(y, m, e);
    }
  }

  lemma MonthRoom(leap: bool, m: int)
    requires 1 <= m <= 12
    ensures DaysSoFar(leap, m - 1) + 28 <= DaysSoFar(leap, m) && DaysSoFar(leap, m - 1) + 28 < 365
  {
  }

  /**
   * The date of day `k` after the first, in week `n` of the month, as the
   * constructor for the n-th weekday leaves it: that very date exactly when
   * nothing shifts it, and in the week at all exactly when the shift keeps it
   * there.
   */
  lemma NthWeekdayDate(y: int, m: int, n: int, k: int)
    requires 1 <= y <= 32767 && 1 <= m <= 12 && 1 <= n <= 4 && 7 * (n - 1) <= k < 7 * n
    ensures var j := DayNumber(Ymd(y, m, 1)) + k;
      && j >= 0
      && (DateOf(j) == Ymd(y, m, k + 1) <==> Shift(y, m, k) == 0)
      && (InWeek(DateOf(j), y, m, n) <==> 7 * (n - 1) <= k + Shift(y, m, k) < 7 * n)
  {
    hide DateOf, DayNumber, Decoded, Shift, InWeek, DaysSoFar;
    NumberInMonth(y, m, k);
    var d := Ymd(y, m, k + 1);
    var e := TableDay(d) + Shift(y, m, k);
    DecodedInWeek(y, m, n, e);
    DecodedRight(d, e);
  }

  lemma FirstIsLate(d: Ymd)
    requires 1 <= d.year <= 32767 && 1 <= d.month <= 12 && d.day == 1
    ensures DayNumber(d) >= 7
  {
    NumberFromTable(d);
    hide DayNumber, DaysSoFar;
  }

  /** The constructor, and the date it leaves for weeks 1 to 4. */
  method NthWeekdayOf(n: int, dow: int, m: short, y: short) returns (date: Date)
    requires 1 <= n <= 4 && 1 <= dow <= 7 && 1 <= m <= 12 && 1 <= y
    ensures fresh(date) && date.dayOfWeek == dow
    ensures var k := date.julian - DayNumber(Ymd(y, m, 1));
      && 7 * (n - 1) <= k < 7 * n && WeekDay(date.julian) == dow
      && (date.Fields() == Ymd(y, m, k + 1) <==> Shift(y, m, k) == 0)
      && (InWeek(date.Fields(), y, m, n) <==> 7 * (n - 1) <= k + Shift(y, m, k) < 7 * n)
  {
    hide DateOf, DayNumber, WeekDay, InWeek, Shift, AddMonthsTo, Target;
    FirstIsLate(Ymd(y, m, 1));
    TargetInWeek(DayNumber(Ymd(y, m, 1)), n, dow);
    date := new Date.NthWeekday(n, dow, m, y);
    NthWeekdayDate(y, m, n, date.julian - DayNumber(Ymd(y, m, 1)));
  }
}

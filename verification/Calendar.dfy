/**
 * Calendar arithmetic of src/lang/Date.cpp: day numbers to and from dates
 * across the 1582 cutover, month arithmetic, and the nth-weekday constructor.
 */
module Calendar {

  const OCT5_1582 := 2299160
  const OCT14_1582 := 2299169
  const JAN1_1 := 1721423
  const YEAR := 365
  const FOUR_YEARS := 1461
  const CENTURY := 36524
  const FOUR_CENTURIES := 146097

  datatype Ymd = Ymd(year: int, month: int, day: int)

  /** C++ division, which truncates toward zero. */
  function Quot(a: int, b: int): int
    requires b > 0
  {
    if a >= 0 then a / b else -(-a / b)
  }

  type short = x: int | -0x8000 <= x < 0x8000

  /** Conversion to a 16-bit short. */
  function Short(x: int): short {
    (x + 0x8000) % 0x1_0000 - 0x8000
  }

  const ULONG := 0x1_0000_0000_0000_0000
  const LONG_MAX := 0x7FFF_FFFF_FFFF_FFFF

  /** Conversion to an unsigned long, in which day numbers are kept. */
  function Unsigned(x: int): nat {
    x % ULONG
  }

  /** The row of the DaysSoFar table for `leap`, at column `m`. */
  function DaysSoFar(leap: bool, m: int): (r: int)
    requires 0 <= m <= 12
    ensures 28 * m <= r <= 31 * m
  {
    var extra := if leap then 1 else 0;
    match m
    case 0 => 0
    case 1 => 31
    case 2 => 59 + extra
    case 3 => 90 + extra
    case 4 => 120 + extra
    case 5 => 151 + extra
    case 6 => 181 + extra
    case 7 => 212 + extra
    case 8 => 243 + extra
    case 9 => 273 + extra
    case 10 => 304 + extra
    case 11 => 334 + extra
    case 12 => 365 + extra
  }

  /** The leap test of the conversions: every fourth year, with no century rule. */
  predicate FourthYear(y: int) {
    y % 4 == 0
  }

  predicate IsLeapYear(y: int) {
    if y >= 1582 then (y % 4 == 0 && y % 100 != 0) || y % 400 == 0 else y % 4 == 0
  }

  function DaysInMonth(y: int, m: int): int
    requires 1 <= m <= 12
  {
    if m == 2 then if IsLeapYear(y) then 29 else 28
    else if m == 4 || m == 6 || m == 9 || m == 11 then 30
    else 31
  }

  predicate ValidDate(d: Ymd) {
    1 <= d.year && 1 <= d.month <= 12 && 1 <= d.day <= DaysInMonth(d.year, d.month)
  }

  /** The year 1 BC is written -1 and counts as 0. */
  function WorkYear(y: int): int {
    if y < 0 then y + 1 else y
  }

  /** mdy_to_julian before the correction for the Gregorian calendar. */
  function Uncorrected(d: Ymd): int
    requires 1 <= d.month <= 12
  {
    var w := WorkYear(d.year);
    Quot(w - 1, 4) + DaysSoFar(FourthYear(w), d.month - 1) + d.day + w * 365 + JAN1_1 - 366
  }

  /** mdy_to_julian. */
  function DayNumber(d: Ymd): int
    requires 1 <= d.month <= 12
  {
    var j := Uncorrected(d);
    if j >= OCT14_1582 then
      var a := Quot(WorkYear(d.year), 100);
      j + 2 - a + Quot(a, 4)
    else j
  }

  function WeekDay(j: int): int {
    (j + 2) % 7 + 1
  }

  /** julian_to_wday, whose sum wraps for the last two day numbers there are. */
  function StoredWeekDay(j: nat): int {
    Unsigned(j + 2) % 7 + 1
  }

  lemma StoredWeekDayIs(j: nat)
    ensures j < LONG_MAX ==> StoredWeekDay(j) == WeekDay(j)
  {
  }

  lemma UnsignedSum(x: int, y: int)
    ensures Unsigned(Unsigned(x) + y) == Unsigned(x + y)
  {
  }

  lemma UnsignedFits(x: int)
    ensures 0 <= x < ULONG ==> Unsigned(x) == x
  {
  }

  /** The month search of julian_to_mdy, from a guess downwards. */
  function MonthFrom(leap: bool, d: int, guess: int): (m: int)
    requires 1 <= d && 0 <= guess <= 12
    requires guess < 12 ==> d <= DaysSoFar(leap, guess + 1)
    ensures 0 <= m <= guess && DaysSoFar(leap, m) < d
    ensures m < 12 ==> d <= DaysSoFar(leap, m + 1)
    decreases guess
  {
    if DaysSoFar(leap, guess) >= d then MonthFrom(leap, d, guess - 1) else guess
  }

  lemma GuessHighEnough(leap: bool, d: int)
    requires 1 <= d <= 366
    ensures 0 <= d / 30 <= 12 && (d / 30 < 12 ==> d <= DaysSoFar(leap, d / 30 + 1))
  {
  }

  /** The month, counted from 0, in which the search ends for a day of the year. */
  function MonthOf(leap: bool, d: int): (m: int)
    requires 1 <= d <= 366
    ensures 0 <= m <= 12 && DaysSoFar(leap, m) < d
    ensures m < 12 ==> d <= DaysSoFar(leap, m + 1)
    ensures m == 12 ==> d == 366 && !leap
  {
    GuessHighEnough(leap, d);
    MonthFrom(leap, d, d / 30)
  }

  /** julian_to_mdy first maps the day number back to a count with a leap day every fourth year. */
  function Julianized(j: nat): int {
    var z := j + 1;
    if z >= OCT5_1582 then
      var n := z - JAN1_1;
      n + n / CENTURY - n / FOUR_CENTURIES - 2 + JAN1_1
    else z
  }

  /** The tail of julian_to_mdy: year quotient and remaining days to a date. */
  function FromYearAndDay(quotient: int, d: int): Ymd
    requires 0 <= d < YEAR
  {
    var y := if quotient - 4712 < 1 then quotient - 4713 else quotient - 4712;
    var leap := FourthYear(y);
    var year := if d == 0 then y - 1 else y;
    var day := if d == 0 then YEAR + (if leap then 1 else 0) else d;
    var m := MonthOf(leap, day);
    Ymd(year, m + 1, day - DaysSoFar(leap, m))
  }

  /** The middle of julian_to_mdy: from the every-fourth-year count to a date. */
  function FromCount(z: int): Ymd {
    var z' := z - Quot(z - YEAR, FOUR_YEARS);
    FromYearAndDay(z' / YEAR, z' % YEAR)
  }

  /** julian_to_mdy; the year is stored in 16 bits. */
  function DateOf(j: nat): Ymd {
    var d := FromCount(Julianized(j));
    Ymd(Short(d.year), d.month, d.day)
  }

  // ---------------------------------------------------------------- round trip

  /** Day of the year in the every-fourth-year table. */
  function TableDay(d: Ymd): int
    requires 1 <= d.month <= 12
  {
    DaysSoFar(FourthYear(d.year), d.month - 1) + d.day
  }

  /** The date at a day of the table. */
  function AtTableDay(y: int, e: int): Ymd
    requires 1 <= e <= 366
  {
    var m := MonthOf(FourthYear(y), e);
    Ymd(y, m + 1, e - DaysSoFar(FourthYear(y), m))
  }

  /** The count with a leap day every fourth year at which day `e` of year `y` sits. */
  function FourthYearCount(y: int, e: int): int
    requires y >= 1
  {
    365 * y + (y - 1) / 4 + e - 365 + JAN1_1
  }

  /** What julian_to_mdy makes of a count: it cannot tell the 30th from the 31st of December in fourth years. */
  function Decoded(y: int, e: int): Ymd
    requires 0 <= e <= 366
  {
    if e == 0 then Ymd(y - 1, 12, 31)
    else if e >= 365 then Ymd(y, 12, 31)
    else AtTableDay(y, e)
  }

  lemma DivFourYears(x: int, q: int)
    requires FOUR_YEARS * q <= x < FOUR_YEARS * (q + 1)
    ensures x / FOUR_YEARS == q
  {
  }

  lemma DivYear(x: int, q: int)
    requires YEAR * q <= x < YEAR * (q + 1)
    ensures x / YEAR == q
  {
  }

  /** The two divisions of julian_to_mdy on a count: where they land. */
  lemma CountDivides(y: int, e: int)
    requires y >= 1 && 0 <= e <= (if FourthYear(y) then 366 else 365)
    requires e == 0 ==> FourthYear(y)
    ensures var z := FourthYearCount(y, e);
      var z' := z - Quot(z - YEAR, FOUR_YEARS);
      z' / YEAR == (if e >= 365 then y + 4713 else y + 4712) && z' % YEAR == if e >= 365 then 0 else e
  {
    var z := FourthYearCount(y, e);
    var k, t := y / 4, y % 4;
    assert (y - 1) / 4 == if t == 0 then k - 1 else k;
    var q := if t == 0 && e < 366 then k + 1177 else k + 1178;
    DivFourYears(z - YEAR, q);
    DivYear(z - q, if e >= 365 then y + 4713 else y + 4712);
  }

  lemma OrdinaryDay(y: int, e: int)
    requires 1 <= y && 1 <= e < 365
    ensures FromYearAndDay(y + 4712, e) == AtTableDay(y, e)
  {
  }

  lemma Decodes(y: int, e: int)
    requires 1 <= y && 0 <= e <= (if FourthYear(y) then 366 else 365)
    requires e == 0 ==> FourthYear(y)
    ensures FromCount(FourthYearCount(y, e)) == Decoded(y, e)
  {
    CountDivides(y, e);
    if e == 0 {
    } else if e >= 365 {
    } else {
      OrdinaryDay(y, e);
    }
  }

  /** The correction for skipped centuries, as julian_to_mdy estimates it, is off by this much. */
  function DriftAt(y: int, e: int): int {
    var q := y / 400;
    if y % 100 != 0 then 0
    else if y % 400 == 0 then if 364 - q <= e < 364 then 1 else 0
    else if e + q < 364 then -1 else 0
  }

  function Drift(d: Ymd): int
    requires 1 <= d.month <= 12
  {
    DriftAt(d.year, TableDay(d))
  }

  /** Days in a year of the table. */
  function TableYear(y: int): int {
    if FourthYear(y) then 366 else 365
  }

  lemma TableDayBounds(d: Ymd)
    requires ValidDate(d)
    ensures 1 <= TableDay(d) <= if FourthYear(d.year) then 366 else 365
  {
  }

  lemma JulianizedBy(j: nat, c: int, f: int)
    requires j >= OCT5_1582 - 1
    requires (j + 1 - JAN1_1) / CENTURY == c && (j + 1 - JAN1_1) / FOUR_CENTURIES == f
    ensures Julianized(j) == j - 1 + c - f
  {
  }

  lemma GregorianDayNumber(d: Ymd)
    requires ValidDate(d) && Uncorrected(d) >= OCT14_1582
    ensures DayNumber(d) == FourthYearCount(d.year, TableDay(d)) + 1 - d.year / 100 + d.year / 400
    ensures DayNumber(d) >= OCT5_1582 - 1
  {
  }

  /** On which side of the cutover a date falls. */
  lemma CutoverSide(d: Ymd)
    requires ValidDate(d)
    ensures d.year > 1582 ==> Uncorrected(d) >= OCT14_1582
    ensures Uncorrected(d) >= OCT14_1582 ==> d.year >= 1582
    ensures d.year == 1582 ==> (Uncorrected(d) >= OCT14_1582 <==> d.month > 10 || (d.month == 10 && d.day >= 14))
    ensures d.year == 1582 && d.month == 10 && 4 <= d.day <= 13 ==> Uncorrected(d) >= OCT5_1582 - 1
  {
    TableDayBounds(d);
  }

  /** How the correction of julian_to_mdy compares with the one of mdy_to_julian. */
  lemma CorrectionDrifts(y: int, e: int, j: nat)
    requires 1582 <= y <= 32767 && 1 <= e <= TableYear(y) && j >= OCT5_1582 - 1
    requires j == FourthYearCount(y, e) + 1 - y / 100 + y / 400
    ensures Julianized(j) == FourthYearCount(y, e + DriftAt(y, e))
  {
    hide Julianized;
    var a, s, q, r := y / 100, y % 100, y / 400, y / 100 % 4;
    var early, first := s == 0 && e + q < 364, s == 0 && r == 0 && e < 364;
    hide DriftAt;
    JulianizedBy(j, a - (if early then 1 else 0), q - if first then 1 else 0);
  }

  lemma GregorianCount(d: Ymd)
    requires ValidDate(d) && d.year <= 32767 && Uncorrected(d) >= OCT14_1582
    ensures DayNumber(d) >= 0
    ensures Julianized(DayNumber(d)) == FourthYearCount(d.year, TableDay(d) + Drift(d))
  {
    GregorianDayNumber(d);
    CutoverSide(d);
    TableDayBounds(d);
    CorrectionDrifts(d.year, TableDay(d), DayNumber(d));
  }

  lemma FourthYearCountOf(d: Ymd)
    requires ValidDate(d) && Uncorrected(d) < OCT14_1582
    ensures DayNumber(d) >= 0
    ensures DayNumber(d) < OCT5_1582 - 1 ==> Julianized(DayNumber(d)) == FourthYearCount(d.year, TableDay(d))
    ensures DayNumber(d) >= OCT5_1582 - 1 ==> d.year == 1582 && d.month == 10 && 4 <= d.day <= 13
    ensures DayNumber(d) >= OCT5_1582 - 1 ==> Julianized(DayNumber(d)) == FourthYearCount(d.year, TableDay(d) + 10)
  {
    TableDayBounds(d);
    var n := DayNumber(d) + 1 - JAN1_1;
    if DayNumber(d) >= OCT5_1582 - 1 {
      assert d.year == 1582;
    }
  }

  lemma MonthFound(leap: bool, e: int, k: int)
    requires 1 <= e <= 366 && 0 <= k <= 12 && DaysSoFar(leap, k) < e
    requires k < 12 ==> e <= DaysSoFar(leap, k + 1)
    ensures MonthOf(leap, e) == k
  {
    var m := MonthOf(leap, e);
    if k < 12 && m < 12 {
    } else if k < 12 {
    } else if m < 12 {
    }
  }

  /** A table day determines its date. */
  lemma TableDayInverts(d: Ymd)
    requires ValidDate(d)
    ensures 1 <= TableDay(d) <= 366 && AtTableDay(d.year, TableDay(d)) == d
  {
    MonthFound(FourthYear(d.year), TableDay(d), d.month - 1);
  }

  /** A date determines its table day. */
  lemma AtTableDayInverts(y: int, e: int)
    requires 1 <= e <= 365
    ensures 1 <= AtTableDay(y, e).month <= 12 && TableDay(AtTableDay(y, e)) == e
  {
  }

  /** The dates julian_to_mdy does not give back. */
  predicate Misread(d: Ymd)
    requires 1 <= d.month <= 12
  {
    || (FourthYear(d.year) && d.month == 12 && d.day == 30)
    || (d.year == 1582 && d.month == 10 && 4 <= d.day <= 13)
    || (d.year > 1582 && Drift(d) != 0)
  }

  lemma DecodedRight(d: Ymd, e: int)
    requires ValidDate(d) && 0 <= e <= 366
    ensures Decoded(d.year, e) == d <==>
      (e == TableDay(d) && !(FourthYear(d.year) && d.month == 12 && d.day == 30))
      || (e >= 365 && d.month == 12 && d.day == 31)
  {
    TableDayBounds(d);
    if 1 <= e < 365 {
      TableDayInverts(d);
      AtTableDayInverts(d.year, e);
    }
  }

  lemma CenturyIsFourthYear(y: int)
    requires y % 100 == 0
    ensures FourthYear(y)
  {
  }

  lemma DriftBounds(y: int, e: int)
    requires 1 <= y <= 32767 && 1 <= e <= TableYear(y)
    ensures 0 <= e + DriftAt(y, e) <= TableYear(y)
    ensures e + DriftAt(y, e) == 0 ==> FourthYear(y)
    ensures DriftAt(y, e) != 0 ==> e + DriftAt(y, e) < 365
  {
    hide FourthYear;
    if y % 100 == 0 {
      CenturyIsFourthYear(y);
    }
  }

  lemma GregorianRoundTrip(d: Ymd)
    requires ValidDate(d) && d.year <= 32767 && Uncorrected(d) >= OCT14_1582
    ensures DayNumber(d) >= 0
    ensures DateOf(DayNumber(d)) == d <==> !Misread(d)
  {
    hide DateOf, DayNumber, Decoded, Drift, TableDay, Misread;
    GregorianDecodes(d);
    if Drift(d) == 0 {
      DecodedSame(d);
    } else {
      DecodedShifted(d, Drift(d));
    }
    GregorianMisread(d);
  }

  lemma GregorianDecodes(d: Ymd)
    requires ValidDate(d) && d.year <= 32767 && Uncorrected(d) >= OCT14_1582
    ensures DayNumber(d) >= 0 && 0 <= TableDay(d) + Drift(d) <= 366
    ensures Drift(d) != 0 ==> TableDay(d) + Drift(d) < 365
    ensures DateOf(DayNumber(d)) == Decoded(d.year, TableDay(d) + Drift(d))
  {
    hide DateOf, DayNumber, Decoded, DriftAt, TableDay, Uncorrected, Julianized, FourthYearCount;
    GregorianCount(d);
    TableDayBounds(d);
    DriftBounds(d.year, TableDay(d));
    NumberDecodes(DayNumber(d), d.year, TableDay(d) + Drift(d));
  }

  lemma NumberDecodes(j: nat, y: int, e: int)
    requires 1 <= y <= 32767 && 0 <= e <= (if FourthYear(y) then 366 else 365)
    requires e == 0 ==> FourthYear(y)
    requires Julianized(j) == FourthYearCount(y, e)
    ensures DateOf(j) == Decoded(y, e)
  {
    hide MonthOf, DaysSoFar, Julianized, FourthYearCount, FromCount;
    Decodes(y, e);
  }

  lemma DecodedSame(d: Ymd)
    requires ValidDate(d)
    ensures 1 <= TableDay(d) <= 366
    ensures Decoded(d.year, TableDay(d)) == d <==> !(FourthYear(d.year) && d.month == 12 && d.day == 30)
  {
    TableDayBounds(d);
    DecodedRight(d, TableDay(d));
  }

  lemma DecodedShifted(d: Ymd, shift: int)
    requires ValidDate(d) && shift != 0 && 0 <= TableDay(d) + shift < 365
    ensures Decoded(d.year, TableDay(d) + shift) != d
  {
    hide Decoded;
    DecodedRight(d, TableDay(d) + shift);
  }

  lemma GregorianMisread(d: Ymd)
    requires ValidDate(d) && d.year <= 32767 && Uncorrected(d) >= OCT14_1582
    ensures Misread(d) <==> Drift(d) != 0 || (FourthYear(d.year) && d.month == 12 && d.day == 30)
  {
    CutoverSide(d);
  }

  lemma JulianRoundTrip(d: Ymd)
    requires ValidDate(d) && d.year <= 32767 && Uncorrected(d) < OCT14_1582
    ensures DayNumber(d) >= 0
    ensures DateOf(DayNumber(d)) == d <==> !Misread(d)
  {
    TableDayBounds(d);
    FourthYearCountOf(d);
    CutoverSide(d);
    var e := TableDay(d) + if DayNumber(d) < OCT5_1582 - 1 then 0 else 10;
    NumberDecodes(DayNumber(d), d.year, e);
    DecodedRight(d, e);
  }

  /**
   * For every date of years 1 to 32767, julian_to_mdy undoes mdy_to_julian
   * exactly when the date is not one of those named by Misread.
   */
  lemma RoundTrip(d: Ymd)
    requires ValidDate(d) && d.year <= 32767
    ensures DayNumber(d) >= 0
    ensures DateOf(DayNumber(d)) == d <==> !Misread(d)
  {
    if Uncorrected(d) >= OCT14_1582 {
      GregorianRoundTrip(d);
    } else {
      JulianRoundTrip(d);
    }
  }

  // ---------------------------------------------------------------- counting days

  /** A date of the calendar that has no year 0, and goes from 4 to 15 October 1582. */
  predicate Civil(d: Ymd) {
    && d.year != 0 && 1 <= d.month <= 12 && 1 <= d.day <= DaysInMonth(d.year, d.month)
    && !(d.year == 1582 && d.month == 10 && 5 <= d.day <= 14)
  }

  function Tomorrow(d: Ymd): Ymd
    requires 1 <= d.month <= 12
  {
    if d == Ymd(1582, 10, 4) then Ymd(1582, 10, 15)
    else if d.day < DaysInMonth(d.year, d.month) then Ymd(d.year, d.month, d.day + 1)
    else if d.month < 12 then Ymd(d.year, d.month + 1, 1)
    else Ymd(if d.year == -1 then 1 else d.year + 1, 1, 1)
  }

  /** January and February of a Gregorian century that is no leap year. */
  predicate EarlyInCentury(d: Ymd) {
    d.year > 1582 && d.year % 100 == 0 && d.year % 400 != 0 && d.month <= 2
  }

  /** After the February of years before 1, for which isLeapYear and the table differ about the leap year. */
  function LateBeforeOne(d: Ymd): int {
    if d.year >= 0 || d.month <= 2 then 0
    else (if IsLeapYear(d.year) then 1 else 0) - if FourthYear(WorkYear(d.year)) then 1 else 0
  }

  /** What the day number falls short of the count of days. */
  function Shortfall(d: Ymd): int {
    if EarlyInCentury(d) then 1 else LateBeforeOne(d)
  }

  /** From 15 October 1582 on. */
  predicate Gregorian(d: Ymd) {
    d.year > 1582 || (d.year == 1582 && (d.month > 10 || (d.month == 10 && d.day >= 15)))
  }

  /** A Gregorian day number, in closed form. */
  lemma GregorianNumber(d: Ymd)
    requires ValidDate(d) && Gregorian(d)
    ensures DayNumber(d) == FourthYearCount(d.year, TableDay(d)) + 1 - d.year / 100 + d.year / 400
  {
    CutoverSide(d);
    GregorianDayNumber(d);
  }

  lemma NextCentury(y: int)
    requires y >= 1
    ensures (y + 1) / 100 == y / 100 + if (y + 1) % 100 == 0 then 1 else 0
  {
  }

  lemma NextFourCenturies(y: int)
    requires y >= 1
    ensures (y + 1) / 400 == y / 400 + if (y + 1) % 400 == 0 then 1 else 0
  {
  }

  lemma NextFourthYear(y: int)
    requires y >= 1
    ensures y / 4 == (y - 1) / 4 + if y % 4 == 0 then 1 else 0
  {
  }

  lemma FourCenturiesAreCenturies(y: int)
    requires y >= 1 && y % 400 == 0
    ensures y % 100 == 0 && y % 4 == 0
  {
  }

  /** The month lengths of the table are those of daysInMonth, February of Gregorian non-leap centuries aside. */
  lemma TableMonth(y: int, m: int)
    requires y >= 1 && 1 <= m <= 12
    ensures DaysSoFar(FourthYear(y), m) - DaysSoFar(FourthYear(y), m - 1)
      == DaysInMonth(y, m) + if m == 2 && y > 1582 && y % 100 == 0 && y % 400 != 0 then 1 else 0
  {
    LeapRules(y);
    hide IsLeapYear, FourthYear;
  }

  lemma LeapRules(y: int)
    requires y >= 1
    ensures FourthYear(y) <==> IsLeapYear(y) || (y > 1582 && y % 100 == 0 && y % 400 != 0)
    ensures IsLeapYear(y) ==> !(y > 1582 && y % 100 == 0 && y % 400 != 0)
  {
    if y % 100 == 0 {
      CenturyIsFourthYear(y);
    } else if y % 400 == 0 {
      FourCenturiesAreCenturies(y);
    }
  }

  lemma AdvanceWithinYear(d: Ymd)
    requires ValidDate(d) && (d.month < 12 || d.day < 31) && d != Ymd(1582, 10, 4)
    ensures TableDay(Tomorrow(d)) + Shortfall(Tomorrow(d)) == TableDay(d) + Shortfall(d) + 1
  {
    TableMonth(d.year, d.month);
  }

  lemma AdvanceToNextYear(y: int)
    requires y >= 1582
    ensures DayNumber(Ymd(y + 1, 1, 1)) + Shortfall(Ymd(y + 1, 1, 1)) == DayNumber(Ymd(y, 12, 31)) + 1
  {
    GregorianNumber(Ymd(y, 12, 31));
    GregorianNumber(Ymd(y + 1, 1, 1));
    NextCentury(y);
    NextFourCenturies(y);
    NextFourthYear(y);
    if (y + 1) % 400 == 0 {
      FourCenturiesAreCenturies(y + 1);
    }
  }

  lemma GregorianAdvances(d: Ymd)
    requires ValidDate(d) && Gregorian(d)
    ensures Civil(Tomorrow(d)) && Gregorian(Tomorrow(d))
    ensures DayNumber(Tomorrow(d)) + Shortfall(Tomorrow(d)) == DayNumber(d) + Shortfall(d) + 1
  {
    if d.month < 12 || d.day < 31 {
      hide DayNumber, TableDay;
      AdvanceWithinYear(d);
      GregorianNumber(d);
      GregorianNumber(Tomorrow(d));
    } else {
      hide DayNumber, DaysSoFar;
      AdvanceToNextYear(d.year);
    }
  }

  lemma JulianAdvances(d: Ymd)
    requires Civil(d) && d.year > 0 && !Gregorian(d) && d != Ymd(1582, 10, 4)
    ensures Civil(Tomorrow(d)) && !Gregorian(Tomorrow(d)) && Shortfall(d) == Shortfall(Tomorrow(d)) == 0
    ensures DayNumber(Tomorrow(d)) == DayNumber(d) + 1
  {
    TomorrowStaysJulian(d);
    hide DayNumber, DaysSoFar, Gregorian;
    if d.month < 12 || d.day < 31 {
      AdvanceWithinYear(d);
    } else {
      NextFourthYear(d.year);
    }
  }

  lemma TomorrowStaysJulian(d: Ymd)
    requires Civil(d) && d.year > 0 && !Gregorian(d) && d != Ymd(1582, 10, 4)
    ensures Civil(Tomorrow(d)) && !Gregorian(Tomorrow(d)) && Shortfall(d) == Shortfall(Tomorrow(d)) == 0
  {
  }

  lemma NumberBeforeOne(d: Ymd)
    requires d.year < 0 && 1 <= d.month <= 12 && 1 <= d.day <= 31
    ensures DayNumber(d)
      == Quot(d.year, 4) + DaysSoFar(FourthYear(d.year + 1), d.month - 1) + d.day + 365 * d.year + JAN1_1 - 1
  {
    hide DaysSoFar;
  }

  lemma AdvancesBeforeOne(d: Ymd)
    requires Civil(d) && d.year < 0
    ensures Civil(Tomorrow(d))
    ensures DayNumber(Tomorrow(d)) + Shortfall(Tomorrow(d)) == DayNumber(d) + Shortfall(d) + 1
  {
    hide DayNumber, IsLeapYear, FourthYear;
    NumberBeforeOne(d);
    if d.month < 12 || d.day < 31 {
      hide Quot;
      NumberBeforeOne(Tomorrow(d));
    } else {
      hide DaysSoFar;
      YearEndBeforeOne(d.year);
    }
  }

  lemma YearEndBeforeOne(y: int)
    requires y < 0
    ensures DayNumber(Tomorrow(Ymd(y, 12, 31))) == DayNumber(Ymd(y, 12, 31)) + Shortfall(Ymd(y, 12, 31)) + 1
  {
    NumberBeforeOne(Ymd(y, 12, 31));
    if y < -1 {
      NumberBeforeOne(Ymd(y + 1, 1, 1));
    } else {
      FirstDay();
    }
    hide DayNumber;
  }

  lemma CutoverAdvances()
    ensures Civil(Ymd(1582, 10, 15)) && DayNumber(Ymd(1582, 10, 15)) == DayNumber(Ymd(1582, 10, 4)) + 1
  {
  }

  /**
   * Across the change of calendars the day number advances by one a day as
   * isLeapYear and daysInMonth count days, except that it is one low
   * throughout January and February of non-leap centuries, and, before year 1,
   * one low or high after February of the years the table and isLeapYear take
   * differently for leap years.
   */
  lemma DayNumberAdvances(d: Ymd)
    requires Civil(d)
    ensures Civil(Tomorrow(d))
    ensures DayNumber(Tomorrow(d)) + Shortfall(Tomorrow(d)) == DayNumber(d) + Shortfall(d) + 1
  {
    hide DayNumber, DaysInMonth;
    if d.year < 0 {
      AdvancesBeforeOne(d);
    } else if Gregorian(d) {
      GregorianAdvances(d);
    } else if d == Ymd(1582, 10, 4) {
      CutoverAdvances();
    } else {
      JulianAdvances(d);
    }
  }

  function DaysAfter(d: Ymd, n: nat): (r: Ymd)
    requires Civil(d)
    ensures Civil(r)
  {
    if n == 0 then d else
      DayNumberAdvances(DaysAfter(d, n - 1));
      Tomorrow(DaysAfter(d, n - 1))
  }

  /** Over any stretch of days. */
  lemma {:induction false} DayNumberCounts(d: Ymd, n: nat)
    requires Civil(d)
    ensures var r := DaysAfter(d, n);
      DayNumber(r) + Shortfall(r) == DayNumber(d) + Shortfall(d) + n
  {
    hide DayNumber, Shortfall, Civil, Tomorrow;
    if n > 0 {
      DayNumberCounts(d, n - 1);
      DayNumberAdvances(DaysAfter(d, n - 1));
    }
  }

  /**
   * Weekdays against a plain count of days from 1 January of year 1, which was
   * a Saturday: right on every date but those in January and February of
   * non-leap centuries, where they are a day behind.
   */
  lemma WeekdaysCount(n: nat)
    ensures var d := DaysAfter(Ymd(1, 1, 1), n);
      WeekDay(DayNumber(d)) == (6 + n) % 7 + 1 <==> !EarlyInCentury(d)
  {
    hide DayNumber, DaysAfter, EarlyInCentury, WeekDay;
    DayNumberCounts(Ymd(1, 1, 1), n);
    YearsGoOn(Ymd(1, 1, 1), n);
    FirstDay();
    SaturdaysFrom(n);
  }

  lemma {:induction false} YearsGoOn(d: Ymd, n: nat)
    requires Civil(d)
    ensures DaysAfter(d, n).year >= d.year
  {
    hide DaysInMonth;
    if n > 0 {
      YearsGoOn(d, n - 1);
    }
  }

  lemma FirstDay()
    ensures DayNumber(Ymd(1, 1, 1)) == JAN1_1 && Shortfall(Ymd(1, 1, 1)) == 0
  {
  }

  lemma SaturdaysFrom(n: nat)
    ensures WeekDay(JAN1_1 + n) == (6 + n) % 7 + 1 && WeekDay(JAN1_1 + n - 1) != (6 + n) % 7 + 1
  {
    assert JAN1_1 + n + 2 == 7 * 245917 + (6 + n);
  }

  // ---------------------------------------------------------------- months

  /** addMonths: months carry into years, and a day past the end of the month into the next month. */
  function AddMonthsTo(d: Ymd, count: int): (r: Ymd)
    ensures 1 <= d.day <= 31 ==> 1 <= r.month <= 12
  {
    var sum := Short(d.month + Short(count));
    var year, month := Short(d.year + (sum - 1) / 12), (sum - 1) % 12 + 1;
    var days := DaysInMonth(year, month);
    if d.day > days then Ymd(year, month + 1, d.day - days) else Ymd(year, month, d.day)
  }

  function MonthCount(d: Ymd): int {
    12 * d.year + d.month
  }

  /**
   * The year field holds the year reached, and the month field the sum of
   * months, or that sum short of a multiple of 65536 years, which the year
   * field does not notice.
   */
  predicate Fits(d: Ymd, count: int) {
    && (d.month + count - Short(d.month + count)) % (12 * 0x1_0000) == 0
    && -0x8000 <= d.year + (d.month + count - 1) / 12 < 0x8000
  }

  /** A month of some year and a day it has. */
  predicate RealDay(d: Ymd) {
    1 <= d.month <= 12 && 1 <= d.day <= DaysInMonth(d.year, d.month)
  }

  lemma ShortSum(m: int, count: int)
    ensures Short(m + Short(count)) == Short(m + count)
  {
  }

  /** Year and month of a sum of months, cut to 16 bits, against the exact ones. */
  lemma CarriedExactly(year: int, sum: int)
    requires -0x8000 <= year < 0x8000
    ensures 12 * Short(year + (Short(sum) - 1) / 12) + (Short(sum) - 1) % 12 == 12 * year + sum - 1
      <==> (sum - Short(sum)) % (12 * 0x1_0000) == 0 && -0x8000 <= year + (sum - 1) / 12 < 0x8000
  {
    var cut := Short(sum);
    var a := (sum - cut) / 0x1_0000;
    assert sum == cut + 0x1_0000 * a;
    if (sum - cut) % (12 * 0x1_0000) == 0 {
      var b := (sum - cut) / (12 * 0x1_0000);
      assert sum == cut + 12 * (0x1_0000 * b);
      assert (sum - 1) / 12 == (cut - 1) / 12 + 0x1_0000 * b;
    }
  }

  /** A day that a month lacks is one of the first three of the next month, in the same year. */
  lemma DayOverflows(y: int, m: int, day: int)
    requires 1 <= m <= 12 && 1 <= day <= 31
    ensures DaysInMonth(y, m) >= 28
    ensures day > DaysInMonth(y, m) ==>
      m < 12 && 1 <= day - DaysInMonth(y, m) <= 3 && day - DaysInMonth(y, m) <= DaysInMonth(y, m + 1)
  {
  }

  lemma MonthHas31(d: Ymd)
    requires RealDay(d)
    ensures d.day <= 31
  {
  }

  /**
   * addMonths always gives a real day.  It moves by exactly `count` months,
   * plus one when the day does not exist in the month reached and what is
   * missing is carried over, exactly when the fields hold the sums.
   */
  lemma AddMonthsMoves(d: Ymd, count: int)
    requires RealDay(d) && -0x8000 <= d.year < 0x8000
    ensures var r := AddMonthsTo(d, count);
      && RealDay(r)
      && (r.day == d.day || (r.day <= 3 && r.month > 1 && d.day == r.day + DaysInMonth(r.year, r.month - 1)))
      && (MonthCount(r) == MonthCount(d) + count + (if r.day != d.day then 1 else 0) <==> Fits(d, count))
  {
    hide Short, DaysInMonth;
    ShortSum(d.month, count);
    CarriedExactly(d.year, d.month + count);
    var sum: int := Short(d.month + count);
    MonthHas31(d);
    DayOverflows(Short(d.year + (sum - 1) / 12), (sum - 1) % 12 + 1, d.day);
  }

  // ---------------------------------------------------------------- the object

  lemma ShortShift(x: int, k: int)
    ensures Short(Short(x) + k) == Short(x + k)
  {
  }

  lemma WeekdayShift(base: int, d: int)
    requires 1 <= WeekDay(base) + d <= 7
    ensures WeekDay(base + d) == WeekDay(base) + d
  {
  }

  lemma WeeksKeepWeekday(j: int, n: int)
    ensures WeekDay(j + 7 * n) == WeekDay(j)
  {
  }

  /** The day the constructor for weekdays counts from: the first of the month, or of the next for the last weekday. */
  function WeekStart(y: int, m: int, weeknum: int): int
    requires 1 <= m <= 12
  {
    if weeknum == 0 then DayNumber(AddMonthsTo(Ymd(y, m, 1), 1)) else DayNumber(Ymd(y, m, 1))
  }

  /** The weekday `dow` of the week of `j`, `weeknum` weeks on, one less if it does not lie before `j`. */
  function Target(j: int, weeknum: int, dow: int): int {
    var d := dow - WeekDay(j);
    j + d + 7 * (if d > -1 then weeknum - 1 else weeknum)
  }

  lemma TargetInWeek(j: int, weeknum: int, dow: int)
    requires 1 <= dow <= 7
    ensures WeekDay(Target(j, weeknum, dow)) == dow
    ensures j + 7 * (weeknum - 1) <= Target(j, weeknum, dow) < j + 7 * weeknum
  {
    var d := dow - WeekDay(j);
    WeekdayShift(j, d);
    WeeksKeepWeekday(j + d, if d > -1 then weeknum - 1 else weeknum);
  }

  /** Dates of 16-bit years have day numbers far from the ends of a long. */
  lemma NumbersFit(d: Ymd)
    requires -0x8000 <= d.year < 0x8000 && 1 <= d.month <= 12 && 1 <= d.day <= 31
    ensures -0x1000_0000 < DayNumber(d) < 0x1000_0000
  {
    hide DaysSoFar;
  }

  class Date {
    var julian: nat
    var year: short
    var month: short
    var day: short
    var dayOfWeek: short

    function Fields(): Ymd
      reads this
    {
      Ymd(year, month, day)
    }

    method JulianToWday()
      modifies this`dayOfWeek
      ensures dayOfWeek == StoredWeekDay(julian)
    {
      dayOfWeek := Unsigned(julian + 2) % 7 + 1;
    }

    /** The day number of a date before day 0 wraps around. */
    method MdyToJulian()
      requires 1 <= month <= 12
      modifies this`julian, this`dayOfWeek
      ensures julian == Unsigned(DayNumber(Fields())) && dayOfWeek == StoredWeekDay(julian)
    {
      hide DaysSoFar, StoredWeekDay, Unsigned;
      var workYear: int := year;
      if workYear < 0 {
        workYear := workYear + 1;
      }
      var leap := workYear % 4 == 0;
      var j := Quot(workYear - 1, 4) + DaysSoFar(leap, month - 1) + day + workYear * 365 + JAN1_1 - 366;
      if j >= OCT14_1582 {
        var a := Quot(workYear, 100);
        j := j + 2 - a + Quot(a, 4);
      }
      julian := Unsigned(j);
      JulianToWday();
    }

    /** Correct the guess `d / 30` downwards. */
    static method FindMonth(leap: bool, d: int) returns (m: int)
      requires 1 <= d <= 366
      ensures m == MonthOf(leap, d)
    {
      GuessHighEnough(leap, d);
      m := d / 30;
      while DaysSoFar(leap, m) >= d
        invariant 0 <= m <= 12 && (m < 12 ==> d <= DaysSoFar(leap, m + 1))
        decreases m
      {
        m := m - 1;
      }
      MonthFound(leap, d, m);
    }

    /** The head of julian_to_mdy. */
    method CountFromJulian() returns (z: int)
      ensures z == Julianized(julian)
    {
      z := julian + 1;
      if z >= OCT5_1582 {
        z := z - JAN1_1;
        z := z + z / CENTURY - z / FOUR_CENTURIES - 2;
        z := z + JAN1_1;
      }
    }

    /** For day numbers that a signed long can hold the next of. */
    method JulianToMdy()
      requires julian < LONG_MAX
      modifies this`year, this`month, this`day, this`dayOfWeek
      ensures Fields() == DateOf(julian) && dayOfWeek == WeekDay(julian)
    {
      hide FromYearAndDay, Julianized, WeekDay, StoredWeekDay;
      StoredWeekDayIs(julian);
      var z := CountFromJulian();
      var y, rest := SplitYears(z);
      var m, d: int;
      y, m, d := SplitDays(y, rest);
      day := d;
      month := m;
      year := Short(y);
      JulianToWday();
    }

    /** Whole years in a count, and the days left over. */
    static method SplitYears(count: int) returns (y: int, rest: int)
      ensures 0 <= rest < YEAR
      ensures var z := count - Quot(count - YEAR, FOUR_YEARS); y == z / YEAR && rest == z % YEAR
    {
      var z := count - Quot(count - YEAR, FOUR_YEARS);
      y := z / YEAR;
      rest := z - y * YEAR;
    }

    /** The rest of julian_to_mdy: year, then month, then day. */
    static method SplitDays(quotient: int, rest: int) returns (y: int, m: int, d: int)
      requires 0 <= rest < YEAR
      ensures Ymd(y, m, d) == FromYearAndDay(quotient, rest)
      ensures 1 <= m <= 13 && 1 <= d <= 366
    {
      hide MonthOf, DaysSoFar;
      y, d := quotient - 4712, rest;
      if y < 1 {
        y := y - 1;
      }
      var leap := y % 4 == 0;
      if d == 0 {
        y := y - 1;
        d := YEAR + if leap then 1 else 0;
      }
      m := FindMonth(leap, d);
      d := d - DaysSoFar(leap, m);
      m := m + 1;
    }

    /** The date from its fields. */
    constructor FromFields(m: short, d: short, y: short)
      requires 1 <= m <= 12 && 1 <= d <= 31
      ensures Fields() == Ymd(y, m, d) && julian == Unsigned(DayNumber(Fields())) && dayOfWeek == StoredWeekDay(julian)
    {
      year, month, day, julian, dayOfWeek := y, m, d, 0, 0;
      new;
      MdyToJulian();
    }

    /** The date from its day number. */
    constructor FromNumber(j: nat)
      requires j < LONG_MAX
      ensures julian == j && Fields() == DateOf(j) && dayOfWeek == WeekDay(j)
    {
      julian, year, month, day, dayOfWeek := j, 0, 0, 0, 0;
      new;
      JulianToMdy();
    }

    /** Carry months outside 1 to 12 into the year. */
    method CarryMonths()
      modifies this`year, this`month
      ensures year == Short(old(year) + (old(month) - 1) / 12) && month == (old(month) - 1) % 12 + 1
    {
      ghost var sum: int, y0: int, carry: int := month, year, 0;
      while month < 1
        invariant month + 12 * carry == sum && year == Short(y0 + carry)
        invariant month <= 12 || carry == 0
        decreases 1 - (month as int)
      {
        ShortShift(y0 + carry, -1);
        month := month + 12;
        year := Short(year - 1);
        carry := carry - 1;
      }
      while month > 12
        invariant month >= 1 && month + 12 * carry == sum && year == Short(y0 + carry)
        decreases month
      {
        ShortShift(y0 + carry, 1);
        month := month - 12;
        year := Short(year + 1);
        carry := carry + 1;
      }
    }

    /** The months added, before the day number is renewed. */
    method ShiftMonths(count: int)
      requires 1 <= day <= 31
      modifies this`month, this`year, this`day
      ensures Fields() == AddMonthsTo(old(Fields()), count)
      ensures 1 <= month <= 12 && 1 <= day <= 31
    {
      month := Short(month + Short(count));
      CarryMonths();
      DayOverflows(year, month, day);
      var days := DaysInMonth(year, month);
      if day > days {
        month := month + 1;
        day := day - days;
      }
    }

    method AddMonths(count: int)
      requires 1 <= day <= 31
      modifies this
      ensures Fields() == AddMonthsTo(old(Fields()), count)
      ensures 1 <= month <= 12 && 1 <= day <= 31
      ensures julian == Unsigned(DayNumber(Fields())) && dayOfWeek == StoredWeekDay(julian)
    {
      hide AddMonthsTo, DayNumber, StoredWeekDay, Unsigned;
      ShiftMonths(count);
      MdyToJulian();
    }

    method AddWeeks(count: int)
      requires Unsigned(julian + 7 * count) < LONG_MAX
      modifies this
      ensures julian == Unsigned(old(julian) + 7 * count)
      ensures Fields() == DateOf(julian) && dayOfWeek == WeekDay(julian)
    {
      julian := Unsigned(julian + count * 7);
      JulianToMdy();
    }

    /** From a first of a month to the weekday wanted, `weeknum` weeks on. */
    method MoveTo(weeknum: int, dow: int)
      requires 0 <= weeknum && 1 <= dow <= 7 && dayOfWeek == WeekDay(julian)
      requires 0 <= Target(julian, weeknum, dow) < LONG_MAX
      modifies this
      ensures julian == Target(old(julian), weeknum, dow)
      ensures dayOfWeek == dow && Fields() == DateOf(julian)
    {
      hide Unsigned, WeekDay;
      ghost var start := julian;
      var d := dow - dayOfWeek;
      julian := Unsigned(julian + d);
      var n := weeknum;
      if d > -1 {
        n := n - 1;
      }
      UnsignedSum(start + d, 7 * n);
      UnsignedFits(start + d + 7 * n);
      AddWeeks(n);
      TargetInWeek(start, weeknum, dow);
    }

    /**
     * The `weeknum`th day `dow` of the month, or the last one for 0: it falls
     * on that weekday, inside the week counted from the first of the month, or
     * inside the seven days before the first of the next month.  There must be
     * such a day number.
     */
    constructor NthWeekday(weeknum: int, dow: int, m: short, y: short)
      requires 0 <= weeknum < 6 && 1 <= dow <= 7 && 1 <= m <= 12
      requires WeekStart(y, m, weeknum) >= 0 && Target(WeekStart(y, m, weeknum), weeknum, dow) >= 0
      ensures dayOfWeek == dow && WeekDay(julian) == dow && Fields() == DateOf(julian)
      ensures weeknum > 0 ==>
        var first := DayNumber(Ymd(y, m, 1)); first + 7 * (weeknum - 1) <= julian < first + 7 * weeknum
      ensures weeknum == 0 ==>
        var next := DayNumber(AddMonthsTo(Ymd(y, m, 1), 1)); next - 7 <= julian < next
    {
      hide DateOf, DayNumber, WeekDay, StoredWeekDay, AddMonthsTo, Unsigned, Target;
      year, month, day, julian, dayOfWeek := y, m, 1, 0, 0;
      new;
      MdyToJulian();
      if weeknum == 0 {
        AddMonths(1);
      }
      ghost var start := WeekStart(y, m, weeknum);
      NumbersFit(Fields());
      UnsignedFits(start);
      StoredWeekDayIs(start);
      TargetInWeek(start, weeknum, dow);
      MoveTo(weeknum, dow);
    }
  }
}

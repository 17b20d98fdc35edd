/**
 * Calendar arithmetic behind the time relation: epoch milliseconds rounded to the second,
 * then split into a proleptic Gregorian date, a time of day, a weekday (Monday = 0) and an
 * ISO 8601 week number. Days are counted as ordinals: 0 is 0001-01-01, a Monday.
 */
module Calendar {

  const SecondsPerDay: int := 86400
  /** Days in 400 Gregorian years; the calendar repeats with this period. */
  const DaysPerEra: int := 146097
  /** 1970-01-01, the Unix epoch, as an ordinal. */
  const UnixEpochOrdinal: int := 719162

  datatype Date = Date(year: int, month: int, day: int)
  datatype Clock = Clock(hour: int, minute: int, second: int)

  /**
   * Rounds epoch milliseconds to the nearest epoch second; an exact half second goes to
   * the even second, as pandas' Timestamp.round does.
   */
  function RoundToSecond(ms: int): (s: int)
    ensures -500 <= ms - 1000 * s <= 500
    ensures (ms - 1000 * s == 500 || ms - 1000 * s == -500) ==> s % 2 == 0
  {
    var q := ms / 1000;
    var rem := ms % 1000;
    if rem > 500 || (rem == 500 && q % 2 == 1) then q + 1 else q
  }

  /** The two properties of RoundToSecond single out one second: it is the rounding. */
  lemma RoundToSecondUnique(ms: int, s: int)
    requires -500 <= ms - 1000 * s <= 500
    requires (ms - 1000 * s == 500 || ms - 1000 * s == -500) ==> s % 2 == 0
    ensures s == RoundToSecond(ms)
  {
    var r := RoundToSecond(ms);
    assert -1000 <= 1000 * (s - r) <= 1000;
  }

  predicate IsLeapYear(y: int) {
    y % 4 == 0 && (y % 100 != 0 || y % 400 == 0)
  }

  function DaysInYear(y: int): int {
    if IsLeapYear(y) then 366 else 365
  }

  function DaysInMonth(y: int, m: int): int
    requires 1 <= m <= 12
  {
    if m == 2 then (if IsLeapYear(y) then 29 else 28)
    else if m == 4 || m == 6 || m == 9 || m == 11 then 30
    else 31
  }

  predicate ValidDate(d: Date) {
    1 <= d.month <= 12 && 1 <= d.day <= DaysInMonth(d.year, d.month)
  }

  /** Days of year y that precede month m; month 13 stands for the end of the year. */
  function DaysBeforeMonth(y: int, m: int): int
    requires 1 <= m <= 13
  {
    var common :=
      if m == 1 then 0 else if m == 2 then 31 else if m == 3 then 59
      else if m == 4 then 90 else if m == 5 then 120 else if m == 6 then 151
      else if m == 7 then 181 else if m == 8 then 212 else if m == 9 then 243
      else if m == 10 then 273 else if m == 11 then 304 else if m == 12 then 334
      else 365;
    if m > 2 && IsLeapYear(y) then common + 1 else common
  }

  lemma MonthStep(y: int, m: int)
    requires 1 <= m <= 12
    ensures DaysBeforeMonth(y, m + 1) == DaysBeforeMonth(y, m) + DaysInMonth(y, m)
    ensures DaysBeforeMonth(y, 13) == DaysInYear(y)
  {
  }

  lemma MonthMonotone(y: int, m1: int, m2: int)
    requires 1 <= m1 < m2 <= 13
    ensures DaysBeforeMonth(y, m1 + 1) <= DaysBeforeMonth(y, m2)
  {
  }

  /** Days from 0001-01-01 to January 1st of year y. */
  function DaysBeforeYear(y: int): int {
    var n := y - 1;
    365 * n + n / 4 - n / 100 + n / 400
  }

  lemma YearStep(y: int)
    ensures DaysBeforeYear(y + 1) == DaysBeforeYear(y) + DaysInYear(y)
  {
    DivStep(y - 1);
    LeapDivisors(y);
  }

  /** A multiple of 400 is a multiple of 100, and a multiple of 100 is a multiple of 4. */
  lemma LeapDivisors(y: int)
    ensures y % 400 == 0 ==> y % 100 == 0
    ensures y % 100 == 0 ==> y % 4 == 0
  {
    var k, h := y / 400, y / 100;
    if y % 400 == 0 {
      assert y == 400 * k;
      assert y / 100 == 4 * k;
    }
    if y % 100 == 0 {
      assert y == 100 * h;
      assert y / 4 == 25 * h;
    }
  }

  lemma DivStep(n: int)
    ensures (n + 1) / 4 == n / 4 + (if (n + 1) % 4 == 0 then 1 else 0)
    ensures (n + 1) / 100 == n / 100 + (if (n + 1) % 100 == 0 then 1 else 0)
    ensures (n + 1) / 400 == n / 400 + (if (n + 1) % 400 == 0 then 1 else 0)
  {
  }

  lemma {:induction false} YearMonotone(y1: int, y2: int)
    requires y1 < y2
    ensures DaysBeforeYear(y1 + 1) <= DaysBeforeYear(y2)
    decreases y2 - y1
  {
    if y1 + 1 < y2 {
      YearMonotone(y1, y2 - 1);
      YearStep(y2 - 1);
    }
  }

  /** Shifting a year by whole 400-year eras shifts its first day by whole eras. */
  lemma EraShift(q: int, x: int, y: int)
    requires y == 400 * q + x
    ensures DaysBeforeYear(y) == DaysPerEra * q + DaysBeforeYear(x)
  {
    DivShift(q, x - 1);
  }

  lemma DivShift(q: int, n: int)
    ensures (400 * q + n) / 4 == 100 * q + n / 4
    ensures (400 * q + n) / 100 == 4 * q + n / 100
    ensures (400 * q + n) / 400 == q + n / 400
  {
  }

  /** The ordinal of a date. */
  function DateToOrdinal(d: Date): int
    requires 1 <= d.month <= 12
  {
    DaysBeforeYear(d.year) + DaysBeforeMonth(d.year, d.month) + d.day - 1
  }

  /** The year yo (counted from 0) of a 400-year era in which day r of the era falls. */
  function YearInEra(r: int, yo: nat): (y: nat)
    requires yo <= 399 && DaysBeforeYear(yo + 1) <= r < DaysPerEra
    ensures yo <= y <= 399 && DaysBeforeYear(y + 1) <= r < DaysBeforeYear(y + 2)
    decreases 399 - yo
  {
    if r < DaysBeforeYear(yo + 2) then yo else YearInEra(r, yo + 1)
  }

  /** The month of year y in which day doy (counted from 0) of the year falls. */
  function MonthOf(y: int, doy: int, m: int): (r: int)
    requires 1 <= m <= 12 && DaysBeforeMonth(y, m) <= doy < DaysInYear(y)
    ensures m <= r <= 12 && DaysBeforeMonth(y, r) <= doy < DaysBeforeMonth(y, r + 1)
    decreases 12 - m
  {
    MonthStep(y, m);
    if doy < DaysBeforeMonth(y, m + 1) then m else MonthOf(y, doy, m + 1)
  }

  /** The year an ordinal falls in. */
  function YearOf(o: int): (y: int)
    ensures DaysBeforeYear(y) <= o < DaysBeforeYear(y + 1)
  {
    var era := o / DaysPerEra;
    var yo := YearInEra(o % DaysPerEra, 0);
    var y := 400 * era + yo + 1;
    EraShift(era, yo + 1, y);
    EraShift(era, yo + 2, y + 1);
    y
  }

  /** The proleptic Gregorian date of an ordinal; DateToOrdinal is its inverse. */
  function OrdinalToDate(o: int): (d: Date)
    ensures ValidDate(d) && DateToOrdinal(d) == o
    ensures DaysBeforeYear(d.year) <= o < DaysBeforeYear(d.year) + DaysInYear(d.year)
  {
    var y := YearOf(o);
    YearStep(y);
    var doy := o - DaysBeforeYear(y);
    var m := MonthOf(y, doy, 1);
    MonthStep(y, m);
    Date(y, m, doy - DaysBeforeMonth(y, m) + 1)
  }

  /** A valid date lies within its own year's span of ordinals. */
  lemma DateWithinYear(d: Date)
    requires ValidDate(d)
    ensures DaysBeforeYear(d.year) <= DateToOrdinal(d) < DaysBeforeYear(d.year + 1)
    ensures DaysBeforeMonth(d.year, d.month) <= DateToOrdinal(d) - DaysBeforeYear(d.year)
              < DaysBeforeMonth(d.year, d.month + 1)
  {
    MonthStep(d.year, d.month);
    MonthMonotone(d.year, d.month, 13);
    YearStep(d.year);
  }

  /** Distinct valid dates have distinct ordinals. */
  lemma OrdinalInjective(d1: Date, d2: Date)
    requires ValidDate(d1) && ValidDate(d2) && DateToOrdinal(d1) == DateToOrdinal(d2)
    ensures d1 == d2
  {
    DateWithinYear(d1);
    DateWithinYear(d2);
    if d1.year < d2.year {
      YearMonotone(d1.year, d2.year);
    } else if d2.year < d1.year {
      YearMonotone(d2.year, d1.year);
    }
    assert d1.year == d2.year;
    if d1.month < d2.month {
      MonthMonotone(d1.year, d1.month, d2.month);
    } else if d2.month < d1.month {
      MonthMonotone(d1.year, d2.month, d1.month);
    }
  }

  /** Every valid date is recovered from its ordinal. */
  lemma DateRoundTrip(d: Date)
    requires ValidDate(d)
    ensures OrdinalToDate(DateToOrdinal(d)) == d
  {
    OrdinalInjective(OrdinalToDate(DateToOrdinal(d)), d);
  }

  /** Seconds since midnight of a time of day. */
  function SecondOfDay(c: Clock): int {
    3600 * c.hour + 60 * c.minute + c.second
  }

  predicate ValidClock(c: Clock) {
    0 <= c.hour < 24 && 0 <= c.minute < 60 && 0 <= c.second < 60
  }

  /** The time of day of an epoch second (datetime.time of the timestamp). */
  function ClockOf(s: int): (c: Clock)
    ensures ValidClock(c)
    ensures SecondOfDay(c) == s % SecondsPerDay
  {
    var sod := s % SecondsPerDay;
    var minutes := sod / 60;
    Clock(minutes / 60, minutes % 60, sod % 60)
  }

  /** The ordinal of the day an epoch second falls in. */
  function OrdinalOf(s: int): int {
    s / SecondsPerDay + UnixEpochOrdinal
  }

  /** Epoch second of a date and a time of day. */
  function EpochSecond(d: Date, c: Clock): int
    requires 1 <= d.month <= 12
  {
    (DateToOrdinal(d) - UnixEpochOrdinal) * SecondsPerDay + SecondOfDay(c)
  }

  /** Splitting an epoch second into date and time of day loses nothing. */
  lemma SplitRoundTrip(s: int)
    ensures EpochSecond(OrdinalToDate(OrdinalOf(s)), ClockOf(s)) == s
  {
  }

  /** Joining a valid date and time of day and splitting again gives them back. */
  lemma JoinRoundTrip(d: Date, c: Clock)
    requires ValidDate(d) && ValidClock(c)
    ensures OrdinalToDate(OrdinalOf(EpochSecond(d, c))) == d
    ensures ClockOf(EpochSecond(d, c)) == c
  {
    var s := EpochSecond(d, c);
    var o := DateToOrdinal(d);
    assert 0 <= SecondOfDay(c) < SecondsPerDay;
    assert s / SecondsPerDay == o - UnixEpochOrdinal;
    assert s % SecondsPerDay == SecondOfDay(c);
    DateRoundTrip(d);
    var c' := ClockOf(s);
    assert SecondOfDay(c') == SecondOfDay(c);
  }

  /** Day of the week, Monday = 0 ... Sunday = 6 (ordinal 0 is a Monday). */
  function Weekday(o: int): (w: int)
    ensures 0 <= w <= 6
  {
    o % 7
  }

  /** The Monday that starts the ISO week of year y numbered 1: the one on or before January 4th. */
  function FirstIsoMonday(y: int): int {
    7 * ((DaysBeforeYear(y) + 3) / 7)
  }

  /** The ISO week-numbering year of an ordinal: the calendar year of its week's Thursday. */
  function IsoYear(o: int): int {
    OrdinalToDate(7 * (o / 7) + 3).year
  }

  /** ISO 8601 week number: the week's Thursday counted in weeks from January 1st of its year. */
  function IsoWeek(o: int): (w: int)
    ensures 1 <= w <= 53
  {
    var thursday := 7 * (o / 7) + 3;
    var d := OrdinalToDate(thursday);
    (thursday - DaysBeforeYear(d.year)) / 7 + 1
  }

  /**
   * The week number agrees with the definition of section 3.2.2 of ISO 8601:2004: weeks start
   * on Monday, week 1 of a year is the week holding its January 4th, and a day belongs to the
   * week-numbering year whose week 1 begins on or before it and whose successor's does not.
   */
  lemma IsoWeekCountsFromFirstIsoMonday(o: int)
    ensures FirstIsoMonday(IsoYear(o)) <= o < FirstIsoMonday(IsoYear(o) + 1)
    ensures IsoWeek(o) == (o - FirstIsoMonday(IsoYear(o))) / 7 + 1
  {
    var y := IsoYear(o);
    IsoYearHoldsThursday(o);
    WeekArithmetic(o, DaysBeforeYear(y), DaysInYear(y), DaysBeforeYear(y + 1));
  }

  /** The Thursday of a day's week lies in the day's week-numbering year. */
  lemma IsoYearHoldsThursday(o: int)
    ensures DaysBeforeYear(IsoYear(o)) <= 7 * (o / 7) + 3 < DaysBeforeYear(IsoYear(o)) + DaysInYear(IsoYear(o))
    ensures DaysBeforeYear(IsoYear(o) + 1) == DaysBeforeYear(IsoYear(o)) + DaysInYear(IsoYear(o))
  {
    YearStep(IsoYear(o));
  }

  /** The arithmetic of IsoWeekCountsFromFirstIsoMonday, over plain integers. */
  lemma WeekArithmetic(o: int, jan1: int, len: int, nextJan1: int)
    requires jan1 <= 7 * (o / 7) + 3 < jan1 + len && 365 <= len <= 366 && nextJan1 == jan1 + len
    ensures 7 * ((jan1 + 3) / 7) <= o < 7 * ((nextJan1 + 3) / 7)
    ensures (7 * (o / 7) + 3 - jan1) / 7 == (o - 7 * ((jan1 + 3) / 7)) / 7
  {
    var a := o / 7;
    var b := (jan1 + 3) / 7;
    var c := (nextJan1 + 3) / 7;
    assert b <= a < c;
    assert (o - 7 * b) / 7 == a - b;
    assert (7 * a + 3 - jan1) / 7 == a - b;
  }

  /** Later years start their ISO week 1 later. */
  lemma FirstIsoMondayMonotone(y1: int, y2: int)
    requires y1 < y2
    ensures FirstIsoMonday(y1 + 1) <= FirstIsoMonday(y2)
  {
    YearMonotone(y1, y2);
    DivMonotone(DaysBeforeYear(y1 + 1) + 3, DaysBeforeYear(y2) + 3);
  }

  lemma DivMonotone(a: int, b: int)
    requires a <= b
    ensures a / 7 <= b / 7
  {
  }

  /** The week-numbering year of a day is the only year whose ISO weeks contain it. */
  lemma IsoYearUnique(o: int, y: int)
    requires FirstIsoMonday(y) <= o < FirstIsoMonday(y + 1)
    ensures y == IsoYear(o)
  {
    IsoWeekCountsFromFirstIsoMonday(o);
    BracketsMeet(o, y, IsoYear(o));
  }

  /** Two years whose ISO weeks both contain a day are the same year. */
  lemma BracketsMeet(o: int, y1: int, y2: int)
    requires FirstIsoMonday(y1) <= o < FirstIsoMonday(y1 + 1)
    requires FirstIsoMonday(y2) <= o < FirstIsoMonday(y2 + 1)
    ensures y1 == y2
  {
    if y1 < y2 {
      FirstIsoMondayMonotone(y1, y2);
    } else if y2 < y1 {
      FirstIsoMondayMonotone(y2, y1);
    }
  }

  /** A day and the same time of day any whole number of days later share their clock. */
  lemma ClockIgnoresDate(s: int, days: int)
    ensures ClockOf(s + days * SecondsPerDay) == ClockOf(s)
  {
    assert (s + days * SecondsPerDay) % SecondsPerDay == s % SecondsPerDay;
  }

  /** The weekday advances by one each day, from Sunday (6) back to Monday (0). */
  lemma WeekdayNextDay(o: int)
    ensures Weekday(o + 1) == (Weekday(o) + 1) % 7
  {
  }

  /** Counting days from the Thursday 1970-01-01 gives every day's weekday. */
  lemma WeekdayFromEpoch(o: int)
    ensures Weekday(o) == (o - UnixEpochOrdinal + 3) % 7
  {
    assert UnixEpochOrdinal == 7 * 102737 + 3;
    assert o - UnixEpochOrdinal + 3 == o - 7 * 102737;
  }

  /** Week 1 of every year starts on a Monday, in the seven days that end on January 4th. */
  lemma FirstIsoMondayIsMonday(y: int)
    ensures Weekday(FirstIsoMonday(y)) == 0
    ensures DateToOrdinal(Date(y, 1, 4)) - 6 <= FirstIsoMonday(y) <= DateToOrdinal(Date(y, 1, 4))
  {
    var jan4 := DateToOrdinal(Date(y, 1, 4));
    assert jan4 == DaysBeforeYear(y) + 3;
    MondayOnOrBefore(jan4);
  }

  /** The arithmetic of FirstIsoMondayIsMonday, over a plain integer. */
  lemma MondayOnOrBefore(j: int)
    ensures (7 * (j / 7)) % 7 == 0 && j - 6 <= 7 * (j / 7) <= j
  {
  }

  /** The Unix epoch, 1970-01-01, is a Thursday. */
  lemma UnixEpochIsThursday()
    ensures DateToOrdinal(Date(1970, 1, 1)) == UnixEpochOrdinal
    ensures Weekday(UnixEpochOrdinal) == 3
  {
  }
}

/**
Dates for display: days since 1970-01-01 as proleptic Gregorian dates, for every integer. The
reference is the calendar itself: month lengths, the leap rule, and the date after a date.
*/
module Calendar {

  import opened Arithmetic

  datatype Date = Date(year: int, month: int, day: int) {

    predicate Valid()
    {
      1 <= month <= 12 && 1 <= day <= DaysInMonth(year, month)
    }

    /** The next day on the calendar. */
    function Next(): Date
      requires Valid()
    {
      if day < DaysInMonth(year, month) then Date(year, month, day + 1)
      else if month < 12 then Date(year, month + 1, 1)
      else Date(year + 1, 1, 1)
    }
  }

  predicate Leap(year: int)
  {
    year % 4 == 0 && (year % 100 != 0 || year % 400 == 0)
  }

  function DaysInMonth(year: int, month: int): (n: int)
    requires 1 <= month <= 12
    ensures 28 <= n <= 31
  {
    if month == 2 then (if Leap(year) then 29 else 28)
    else if month == 4 || month == 6 || month == 9 || month == 11 then 30
    else 31
  }

  function DaysInYear(year: int): int
  {
    if Leap(year) then 366 else 365
  }

  /** Days from 0001-01-01 to the first day of the year. */
  function DaysBeforeYear(year: int): int
  {
    365 * (year - 1) + (year - 1) / 4 - (year - 1) / 100 + (year - 1) / 400
  }

  function DaysBeforeMonth(year: int, month: int): int
    requires 1 <= month <= 12
    decreases month
  {
    if month == 1 then 0 else DaysBeforeMonth(year, month - 1) + DaysInMonth(year, month - 1)
  }

  /** Days since 1970-01-01 by counting whole years, whole months and days. */
  function DayNumber(d: Date): int
    requires d.Valid()
  {
    DaysBeforeYear(d.year) + DaysBeforeMonth(d.year, d.month) + d.day - 1 - 719_162
  }

  lemma YearLength(year: int)
    ensures DaysBeforeYear(year + 1) == DaysBeforeYear(year) + DaysInYear(year)
  {
    hide DaysInYear, Due;
    var y := year - 1;
    StepOfQuotient(y, 4);
    StepOfQuotient(y, 100);
    StepOfQuotient(y, 400);
    LeapCount(year);
  }

  lemma LeapCount(year: int)
    ensures DaysInYear(year) == 365 + Due(year, 4) - Due(year, 100) + Due(year, 400)
  {
  }

  function Due(year: int, k: int): int
    requires k != 0
  {
    if year % k == 0 then 1 else 0
  }

  lemma StepOfQuotient(y: int, k: int)
    requires k == 4 || k == 100 || k == 400
    ensures (y + 1) / k == y / k + Due(y + 1, k)
  {
  }

  lemma MonthStarts(year: int, month: int)
    requires 1 <= month <= 12
    ensures DaysBeforeMonth(year, month) ==
      [0, 31, 59, 90, 120, 151, 181, 212, 243, 273, 304, 334][month - 1] + (if Leap(year) && month > 2 then 1 else 0)
  {
    hide Leap;
    if month > 1 { MonthStarts(year, month - 1); }
  }

  // The conversion.

  function YearOfEra(dayOfEra: int): int
  {
    (dayOfEra - dayOfEra / 1460 + dayOfEra / 36_524 - dayOfEra / 146_096) / 365
  }

  /** The first day of a year that begins in March, counted within its era of 400 years. */
  function MarchStart(yearOfEra: int): int
  {
    365 * yearOfEra + yearOfEra / 4 - yearOfEra / 100
  }

  function CivilFromDays(days: int): Date
  {
    var shifted := days + 719_468;
    var era := shifted / 146_097;
    var dayOfEra := shifted % 146_097;
    var yearOfEra := YearOfEra(dayOfEra);
    var dayOfYear := dayOfEra - MarchStart(yearOfEra);
    var monthIndex := (5 * dayOfYear + 2) / 153;
    var day := dayOfYear - (153 * monthIndex + 2) / 5 + 1;
    var month := if monthIndex < 10 then monthIndex + 3 else monthIndex - 9;
    var year := yearOfEra + era * 400 + (if month <= 2 then 1 else 0);
    Date(year, month, day)
  }

  /** Days of an era counted as centuries, four-year cycles and the rest. */
  lemma CyclesGiveYear(c: int, j: int, s: int)
    requires 0 <= c <= 3 && 0 <= j <= 24 && 0 <= s < 1461 && 1461 * j + s < 36_524
    ensures var k := 4 * j + (if s == 1460 then 3 else s / 365);
      && YearOfEra(36_524 * c + 1461 * j + s) == 100 * c + k
      && 0 <= k < 100
  {
    var d := 36_524 * c + 1461 * j + s;
    var e := if j + s + 24 * c >= 1460 then 1 else 0;
    assert d == 1460 * (25 * c + j + e) + (j + s + 24 * c - 1460 * e);
    QuotientIs(d, 1460, 25 * c + j + e);
    QuotientIs(d, 36_524, c);
    assert d < 146_096 && d / 146_096 == 0;
    var k := if s == 1460 then 3 else s / 365;
    var n := 36_500 * c + 1460 * j + s - e;
    QuotientIs(n, 365, 100 * c + 4 * j + k);
  }

  /** The year of an era holds its day; a year that begins in March is as long as the next civil one. */
  lemma YearHoldsDay(dayOfEra: int)
    requires 0 <= dayOfEra < 146_097
    ensures var y := YearOfEra(dayOfEra);
      0 <= y < 400 && MarchStart(y) <= dayOfEra < MarchStart(y) + DaysInYear(y + 1)
  {
    if dayOfEra == 146_096 {
      LastDayOfEra();
    } else {
      OtherDayOfEra(dayOfEra);
    }
  }

  lemma OtherDayOfEra(dayOfEra: int)
    requires 0 <= dayOfEra < 146_096
    ensures var y := YearOfEra(dayOfEra);
      0 <= y < 400 && MarchStart(y) <= dayOfEra < MarchStart(y) + DaysInYear(y + 1)
  {
    hide YearOfEra, MarchStart, DaysInYear;
    var c, r := dayOfEra / 36_524, dayOfEra % 36_524;
    var j, s := r / 1461, r % 1461;
    CyclesGiveYear(c, j, s);
    CycleHoldsDay(c, j, s);
  }

  lemma LastDayOfEra()
    ensures YearOfEra(146_096) == 399 && MarchStart(399) <= 146_096 < MarchStart(399) + DaysInYear(400)
  {
  }

  lemma CycleHoldsDay(c: int, j: int, s: int)
    requires 0 <= c <= 3 && 0 <= j <= 24 && 0 <= s < 1461 && 1461 * j + s < 36_524
    ensures var k := if s == 1460 then 3 else s / 365;
      var y := 100 * c + 4 * j + k;
      MarchStart(y) <= 36_524 * c + 1461 * j + s < MarchStart(y) + DaysInYear(y + 1)
  {
    var k := if s == 1460 then 3 else s / 365;
    var y := 100 * c + 4 * j + k;
    QuotientIs(y, 4, 25 * c + j);
    QuotientIs(y, 100, c);
    assert MarchStart(y) == 36_524 * c + 1461 * j + 365 * k;
    if s == 1460 {
      assert y + 1 == 4 * (25 * c + j + 1) && j < 24;
      QuotientIs(y + 1, 100, c);
      assert (y + 1) % 4 == 0 && (y + 1) % 100 != 0;
    }
  }

  lemma MonthHoldsDay(dayOfYear: int)
    requires 0 <= dayOfYear < 366
    ensures var m := (5 * dayOfYear + 2) / 153;
      && 0 <= m <= 11
      && (153 * m + 2) / 5 <= dayOfYear
      && (m < 11 ==> dayOfYear < (153 * (m + 1) + 2) / 5)
  {
  }

  /** Days before month `m` of a year that begins in March. */
  lemma MarchMonthStarts(m: int)
    requires 0 <= m <= 11
    ensures (153 * m + 2) / 5 == [0, 31, 61, 92, 122, 153, 184, 214, 245, 275, 306, 337][m]
  {
  }

  lemma ErasAdd(era: int, y: int)
    requires 0 <= y < 400
    ensures DaysBeforeYear(400 * era + y + 1) == 146_097 * era + MarchStart(y)
    ensures Leap(400 * era + y + 1) == Leap(y + 1)
  {
    var z := 400 * era + y;
    QuotientShifts(z, 4, 100 * era, y);
    QuotientShifts(z, 100, 4 * era, y);
    QuotientShifts(z, 400, era, y);
    QuotientShifts(z + 1, 4, 100 * era, y + 1);
    QuotientShifts(z + 1, 100, 4 * era, y + 1);
    QuotientShifts(z + 1, 400, era, y + 1);
  }

  lemma QuotientShifts(z: int, k: int, q: int, y: int)
    requires k > 0 && z == k * q + y
    ensures z / k == q + y / k && z % k == y % k
  {
    assert z == k * (q + y / k) + y % k;
    QuotientIs(z, k, q + y / k);
  }

  /** Day `dayOfYear` from March of `year` is a real date and is counted as such. */
  lemma MarchDateIsExact(year: int, m: int, dayOfYear: int)
    requires 0 <= m <= 11 && (153 * m + 2) / 5 <= dayOfYear < DaysInYear(year + 1)
    requires m < 11 ==> dayOfYear < (153 * (m + 1) + 2) / 5
    ensures var month := if m < 10 then m + 3 else m - 9;
      var d := Date(if m < 10 then year else year + 1, month, dayOfYear - (153 * m + 2) / 5 + 1);
      d.Valid() && DayNumber(d) == DaysBeforeYear(year + 1) + dayOfYear - 719_468
  {
    hide DaysBeforeYear, Leap, DaysBeforeMonth;
    YearLength(year);
    MarchMonthStarts(m);
    if m < 11 { MarchMonthStarts(m + 1); }
    MonthStarts(if m < 10 then year else year + 1, if m < 10 then m + 3 else m - 9);
  }

  /** The converted date is a real one, and counting its years, months and days gives the day back. */
  lemma CivilIsExact(days: int)
    ensures CivilFromDays(days).Valid()
    ensures DayNumber(CivilFromDays(days)) == days
  {
    hide YearOfEra, MarchStart, DaysBeforeYear, Leap, DaysBeforeMonth, DaysInMonth, DayNumber;
    var shifted := days + 719_468;
    var era, dayOfEra := shifted / 146_097, shifted % 146_097;
    var y := YearOfEra(dayOfEra);
    YearHoldsDay(dayOfEra);
    ErasAdd(era, y);
    var dayOfYear := dayOfEra - MarchStart(y);
    MonthHoldsDay(dayOfYear);
    MarchDateIsExact(400 * era + y, (5 * dayOfYear + 2) / 153, dayOfYear);
  }

  // The count is one-to-one and follows the calendar.

  lemma {:induction false} YearsGrow(a: int, b: int)
    requires a <= b
    ensures DaysBeforeYear(a) <= DaysBeforeYear(b)
    decreases b - a
  {
    hide DaysBeforeYear;
    if a < b {
      YearLength(b - 1);
      YearsGrow(a, b - 1);
    }
  }

  lemma WithinYear(d: Date)
    requires d.Valid()
    ensures DaysBeforeYear(d.year) <= DayNumber(d) + 719_162 < DaysBeforeYear(d.year + 1)
  {
    hide DaysBeforeYear, DaysBeforeMonth, Leap;
    MonthStarts(d.year, d.month);
    YearLength(d.year);
  }

  predicate Earlier(d: Date, e: Date)
  {
    d.year < e.year || (d.year == e.year && (d.month < e.month || (d.month == e.month && d.day < e.day)))
  }

  lemma EarlierIsLess(d: Date, e: Date)
    requires d.Valid() && e.Valid() && Earlier(d, e)
    ensures DayNumber(d) < DayNumber(e)
  {
    hide DaysBeforeYear, DaysBeforeMonth, Leap;
    if d.year < e.year {
      WithinYear(d);
      WithinYear(e);
      YearsGrow(d.year + 1, e.year);
    } else {
      MonthStarts(d.year, d.month);
      MonthStarts(e.year, e.month);
    }
  }

  /** Every real date is the conversion of its own day number, so the conversion is a bijection. */
  lemma EveryDateIsReached(d: Date)
    requires d.Valid()
    ensures CivilFromDays(DayNumber(d)) == d
  {
    hide CivilFromDays, DayNumber;
    var e := CivilFromDays(DayNumber(d));
    CivilIsExact(DayNumber(d));
    if Earlier(d, e) {
      EarlierIsLess(d, e);
    } else if Earlier(e, d) {
      EarlierIsLess(e, d);
    }
  }

  lemma NextIsOneLater(d: Date)
    requires d.Valid()
    ensures d.Next().Valid() && DayNumber(d.Next()) == DayNumber(d) + 1
  {
    hide DaysBeforeYear, DaysBeforeMonth, Leap;
    YearLength(d.year);
    MonthStarts(d.year, d.month);
    MonthStarts(d.Next().year, d.Next().month);
  }

  lemma EpochIsDayZero()
    ensures CivilFromDays(0) == Date(1970, 1, 1)
  {
    MonthStarts(1970, 1);
    assert DayNumber(Date(1970, 1, 1)) == 0;
    EveryDateIsReached(Date(1970, 1, 1));
  }

  /** The next integer is the next date. */
  lemma CivilSteps(days: int)
    ensures CivilFromDays(days).Valid() && CivilFromDays(days + 1) == CivilFromDays(days).Next()
  {
    hide CivilFromDays, DayNumber, Date.Next, Date.Valid;
    CivilIsExact(days);
    NextIsOneLater(CivilFromDays(days));
    EveryDateIsReached(CivilFromDays(days).Next());
  }

  // The time of day and the zone.

  datatype Clock = Clock(date: Date, weekday: nat, hour: int, minute: int, second: int)

  /** Local date and time of an instant in a zone this many minutes east of UTC. */
  function LocalTime(seconds: int, offset: int): Clock
  {
    var local := seconds + offset * 60;
    var days, time := local / 86_400, local % 86_400;
    Clock(CivilFromDays(days), days % 7, time / 3600, time / 60 % 60, time % 60)
  }

  /** The displayed parts are in range and determine the instant. */
  lemma TimeIsExact(seconds: int, offset: int)
    ensures var c := LocalTime(seconds, offset);
      && c.date.Valid()
      && c.weekday == DayNumber(c.date) % 7
      && 0 <= c.hour < 24 && 0 <= c.minute < 60 && 0 <= c.second < 60
      && seconds == DayNumber(c.date) * 86_400 + c.hour * 3600 + c.minute * 60 + c.second - offset * 60
  {
    hide CivilFromDays, DayNumber, Date.Valid;
    var local := seconds + offset * 60;
    CivilIsExact(local / 86_400);
    var time := local % 86_400;
    assert time == time / 3600 * 3600 + time / 60 % 60 * 60 + time % 60;
  }
}

/** Local calendar arithmetic: instants are milliseconds since 1970-01-01T00:00 local
    time, days are numbered from that date, and calendar dates use the fields a
    JavaScript Date exposes (month 0..11, day of month from 1). */
module Civil {

  const MsPerMinute: int := 60000
  const MsPerHour: int := 3600000
  const MsPerDay: int := 86400000

  /** The calendar day (days since 1970-01-01) that contains instant t. */
  function DayOf(t: int): (day: int)
    ensures day * MsPerDay <= t < (day + 1) * MsPerDay
  {
    t / MsPerDay
  }

  /** Instant t floored to the midnight that starts its day. */
  function Midnight(t: int): (m: int)
    ensures m <= t < m + MsPerDay
    ensures m % MsPerDay == 0
    ensures m == DayOf(t) * MsPerDay
  {
    DayOf(t) * MsPerDay
  }

  /** Later instants fall on the same or a later day. */
  lemma DayOfMonotone(t1: int, t2: int)
    requires t1 <= t2
    ensures DayOf(t1) <= DayOf(t2)
  {
  }

  /** Day of the week of a day number, 0 = Sunday .. 6 = Saturday (1970-01-01 was a Thursday). */
  function Weekday(day: int): (w: int)
    ensures 0 <= w < 7
  {
    (day + 4) % 7
  }

  /** Each day's weekday follows the previous day's, Saturday wrapping round to Sunday. */
  lemma WeekdayStep(n: int)
    ensures Weekday(n + 1) == (Weekday(n) + 1) % 7
  {
  }

  /** Moving back from a day by its weekday lands on a Sunday. */
  lemma BackToSunday(n: int)
    ensures Weekday(n - Weekday(n)) == 0
  {
    var w := Weekday(n);
    assert n + 4 == 7 * ((n + 4) / 7) + w;
    assert n - w + 4 == 7 * ((n + 4) / 7);
  }

  /** Hours and minutes of a wall-clock time. */
  datatype TimeOfDay = TimeOfDay(hour: int, minute: int)

  predicate ValidTime(t: TimeOfDay)
  {
    0 <= t.hour < 24 && 0 <= t.minute < 60
  }

  /** The hour and minute at which instant t falls within its day. */
  function TimeOf(t: int): (r: TimeOfDay)
    ensures ValidTime(r)
    ensures Midnight(t) + r.hour * MsPerHour + r.minute * MsPerMinute <= t
    ensures t < Midnight(t) + r.hour * MsPerHour + (r.minute + 1) * MsPerMinute
  {
    var ms := t % MsPerDay;
    TimeOfDay(ms / MsPerHour, (ms % MsPerHour) / MsPerMinute)
  }

  /** A calendar date as Date's getFullYear/getMonth/getDate report it. */
  datatype Date = Date(year: int, month: int, day: int)

  predicate IsLeapYear(y: int)
  {
    y % 4 == 0 && (y % 100 != 0 || y % 400 == 0)
  }

  function DaysInMonth(y: int, m: int): (n: int)
    requires 0 <= m < 12
    ensures 28 <= n <= 31
    ensures n == 29 <==> m == 1 && IsLeapYear(y)
  {
    if m == 1 then (if IsLeapYear(y) then 29 else 28)
    else if m == 3 || m == 5 || m == 8 || m == 10 then 30
    else 31
  }

  predicate ValidDate(d: Date)
  {
    0 <= d.month < 12 && 1 <= d.day <= DaysInMonth(d.year, d.month)
  }

  /** Days from 1970-01-01 to the start of March 1 of year y + 1 minus 719468, the
      part of the Gregorian count that depends only on the (March-based) year. */
  function YearBase(y: int): int
  {
    var era := y / 400;
    var yoe := y % 400;
    era * 146097 + yoe * 365 + yoe / 4 - yoe / 100
  }

  /** Day number of day d of month m (0..11) of year y; a day outside the month
      carries over into the neighbouring months, as the Date constructor and
      setDate do. */
  function DayNumber(y: int, m: int, d: int): int
    requires 0 <= m < 12
  {
    // The year is counted from March so that a leap day ends it.
    var marchYear := if m < 2 then y - 1 else y;
    YearBase(marchYear) + MarchOffset(m) + d - 1 - 719468
  }

  /** Day 0 is 1970-01-01, a Thursday; 2024-01-07 was a Sunday. */
  lemma EpochDay()
    ensures DayNumber(1970, 0, 1) == 0 && Weekday(0) == 4
    ensures Weekday(DayNumber(2024, 0, 7)) == 0
  {
  }

  /** Day d of a month lies d - 1 days after its 1st, whatever the sign of d. */
  lemma DayNumberShift(y: int, m: int, d: int)
    requires 0 <= m < 12
    ensures DayNumber(y, m, d) == DayNumber(y, m, 1) + d - 1
  {
  }

  function DayNumberOf(d: Date): int
    requires 0 <= d.month < 12
  {
    DayNumber(d.year, d.month, d.day)
  }

  /** The instant at wall-clock time t on date d. */
  function Instant(d: Date, t: TimeOfDay): int
    requires 0 <= d.month < 12
  {
    DayNumberOf(d) * MsPerDay + t.hour * MsPerHour + t.minute * MsPerMinute
  }

  /** Reading the day and time back from an instant gives the date's day number and the time. */
  lemma InstantRoundTrip(d: Date, t: TimeOfDay)
    requires 0 <= d.month < 12 && ValidTime(t)
    ensures DayOf(Instant(d, t)) == DayNumberOf(d)
    ensures TimeOf(Instant(d, t)) == t
  {
    var n := DayNumberOf(d);
    var off := t.hour * MsPerHour + t.minute * MsPerMinute;
    assert 0 <= off < MsPerDay;
    assert Instant(d, t) == n * MsPerDay + off;
    assert Instant(d, t) / MsPerDay == n && Instant(d, t) % MsPerDay == off;
    assert off / MsPerHour == t.hour && off % MsPerHour == t.minute * MsPerMinute;
  }

  /** The month after month m of year y, as a (year, month) date with day 1. */
  function FirstOfNextMonth(y: int, m: int): (r: Date)
    requires 0 <= m < 12
    ensures ValidDate(r) && r.day == 1
  {
    if m < 11 then Date(y, m + 1, 1) else Date(y + 1, 0, 1)
  }

  /** The month before month m of year y, as a (year, month) date with day 1. */
  function FirstOfPrevMonth(y: int, m: int): (r: Date)
    requires 0 <= m < 12
    ensures ValidDate(r) && r.day == 1
    ensures FirstOfNextMonth(r.year, r.month) == Date(y, m, 1)
  {
    if m > 0 then Date(y, m - 1, 1) else Date(y - 1, 11, 1)
  }

  /** Adding a multiple of 4 leaves the remainder by 4 unchanged. */
  lemma RemainderShift4(q: int, r: int)
    ensures (4 * q + r) % 4 == r % 4
  {
  }

  /** Adding a multiple of 100 leaves the remainder by 100 unchanged. */
  lemma RemainderShift100(q: int, r: int)
    ensures (100 * q + r) % 100 == r % 100
  {
  }

  /** Adding a multiple of 400 leaves the remainder by 400 unchanged. */
  lemma RemainderShift400(q: int, r: int)
    ensures (400 * q + r) % 400 == r % 400
  {
  }

  /** Year yoe of the 400-year era era starts where the era's count says. */
  lemma EraYearBase(era: int, yoe: int)
    requires 0 <= yoe < 400
    ensures YearBase(era * 400 + yoe) == era * 146097 + EraYearStart(yoe)
  {
    assert (era * 400 + yoe) / 400 == era && (era * 400 + yoe) % 400 == yoe;
  }

  /** Whether the year after year yoe of an era is a leap year depends on yoe alone. */
  lemma EraYearLeap(era: int, yoe: int)
    requires 0 <= yoe < 400
    ensures IsLeapYear(era * 400 + yoe + 1)
        <==> (yoe + 1) % 4 == 0 && ((yoe + 1) % 100 != 0 || yoe == 399)
  {
    RemainderShift4(era * 100, yoe + 1);
    RemainderShift100(era * 4, yoe + 1);
    RemainderShift400(era, yoe + 1);
  }

  /** Within an era, consecutive years start 365 days apart, 366 before a leap day. */
  lemma EraYearStep(yoe: int)
    requires 0 <= yoe < 399
    ensures EraYearStart(yoe + 1)
         == EraYearStart(yoe) + 365 + (if (yoe + 1) % 4 == 0 && (yoe + 1) % 100 != 0 then 1 else 0)
  {
  }

  /** Consecutive March-based years are 365 days apart, 366 when the later one ends in a leap day. */
  lemma YearStep(y: int)
    ensures YearBase(y + 1) == YearBase(y) + 365 + (if IsLeapYear(y + 1) then 1 else 0)
  {
    var era, yoe := y / 400, y % 400;
    assert y == era * 400 + yoe;
    EraYearBase(era, yoe);
    EraYearLeap(era, yoe);
    if yoe == 399 {
      EraYearBase(era + 1, 0);
    } else {
      EraYearBase(era, yoe + 1);
      EraYearStep(yoe);
    }
  }

  /** Days from March 1 to the 1st of month m, counted in the March-based year. */
  function MarchOffset(m: int): (r: int)
    requires 0 <= m < 12
    ensures 0 <= r <= 337
  {
    var mp := (m + 10) % 12;
    (153 * mp + 2) / 5
  }

  /** Within a March-based year, the next month starts DaysInMonth days later. */
  lemma MarchOffsetStep(y: int, m: int)
    requires 0 <= m < 11 && m != 1
    ensures MarchOffset(m + 1) == MarchOffset(m) + DaysInMonth(y, m)
  {
  }

  /** March 1 follows the last day of February. */
  lemma FebruaryStep(y: int)
    ensures DayNumber(y, 2, 1) == DayNumber(y, 1, 1) + DaysInMonth(y, 1)
  {
    assert MarchOffset(1) == 337 && MarchOffset(2) == 0;
    YearStep(y - 1);
  }

  /** January 1 follows December 31. */
  lemma DecemberStep(y: int)
    ensures DayNumber(y + 1, 0, 1) == DayNumber(y, 11, 1) + DaysInMonth(y, 11)
  {
    assert MarchOffset(0) == 306 && MarchOffset(11) == 275;
  }

  /** The first of the next month comes exactly DaysInMonth days after the first of this one. */
  lemma MonthStep(y: int, m: int)
    requires 0 <= m < 12
    ensures DayNumberOf(FirstOfNextMonth(y, m)) == DayNumber(y, m, 1) + DaysInMonth(y, m)
  {
    if m == 1 {
      FebruaryStep(y);
    } else if m == 11 {
      DecemberStep(y);
    } else {
      MarchOffsetStep(y, m);
    }
  }

  /** Days from the start of a 400-year era (March 1 of a year divisible by 400) to
      March 1 of its year yoe. */
  function EraYearStart(yoe: int): int
  {
    365 * yoe + yoe / 4 - yoe / 100
  }

  /** The date that lies doy days after March 1 of year marchYear. */
  function DateInMarchYear(marchYear: int, doy: int): (r: Date)
    requires 0 <= doy <= 365
    requires doy == 365 ==> IsLeapYear(marchYear + 1)
    ensures ValidDate(r)
    ensures MarchYear(r) == marchYear
    ensures (r.month + 10) % 12 == (5 * doy + 2) / 153
    ensures MarchOffset(r.month) + r.day - 1 == doy
  {
    var mp := (5 * doy + 2) / 153;
    assert 0 <= mp < 12;
    var day := doy - (153 * mp + 2) / 5 + 1;
    var month := if mp < 10 then mp + 2 else mp - 10;
    assert (month + 10) % 12 == mp;
    Date(if month < 2 then marchYear + 1 else marchYear, month, day)
  }

  /** The year of era and day of that year of the doe-th day of a 400-year era. */
  function SplitEraDay(doe: int): (r: (int, int))
    requires 0 <= doe < 146097
    ensures 0 <= r.0 < 400 && 0 <= r.1 <= 365
    ensures EraYearStart(r.0) + r.1 == doe
    ensures r.1 == 365 ==> (r.0 + 1) % 4 == 0 && ((r.0 + 1) % 100 != 0 || r.0 == 399)
  {
    // Centuries, then four-year cycles, then years; the last century and the
    // last year of a cycle each keep the extra day.
    var century := if doe / 36524 == 4 then 3 else doe / 36524;
    var doc := doe - century * 36524;
    assert 0 <= doc <= 36524;
    assert doc == 36524 ==> century == 3;
    var cycle := doc / 1461;
    var doq := doc % 1461;
    assert 0 <= cycle <= 24;
    assert cycle == 24 && doq == 1460 ==> century == 3;
    var yearInCycle := if doq / 365 == 4 then 3 else doq / 365;
    var doy := doq - 365 * yearInCycle;
    assert doy == 365 ==> yearInCycle == 3 && doq == 1460;
    var yoe := 100 * century + 4 * cycle + yearInCycle;
    assert yoe / 4 == 25 * century + cycle;
    assert yoe / 100 == century;
    (yoe, doy)
  }

  /** The Gregorian closed form of the date of a day number: every day number names
      some valid date. */
  function CivilFromDays(n: int): (r: Date)
    ensures ValidDate(r)
    ensures DayNumberOf(r) == n
  {
    var z := n + 719468;
    var era := z / 146097;
    var split := SplitEraDay(z % 146097);
    assert z == era * 146097 + z % 146097;
    EraYearBase(era, split.0);
    EraYearLeap(era, split.0);
    DateInMarchYear(era * 400 + split.0, split.1)
  }

  /** The date getFullYear/getMonth/getDate read on day n: the one valid date with day
      number n (OneDatePerDay). CivilFromDays computes it; choosing it by its defining
      property keeps that closed form out of the proofs that use it. */
  function DateOfDay(n: int): (r: Date)
    ensures ValidDate(r)
    ensures DayNumberOf(r) == n
  {
    var c := CivilFromDays(n);
    OneDatePerDay(n);
    var r :| ValidDate(r) && DayNumberOf(r) == n;
    r
  }

  /** Days from March 1 of the March-based year to a valid date. */
  function DayOfMarchYear(d: Date): (doy: int)
    requires ValidDate(d)
    ensures 0 <= doy <= 365
    ensures doy == 365 ==> IsLeapYear(MarchYear(d) + 1)
  {
    MarchOffset(d.month) + d.day - 1
  }

  /** The day of the March-based year tells the month, counted from March. */
  lemma MarchMonthOfDay(d: Date)
    requires ValidDate(d)
    ensures (5 * DayOfMarchYear(d) + 2) / 153 == (d.month + 10) % 12
  {
  }

  function MarchYear(d: Date): int
  {
    if d.month < 2 then d.year - 1 else d.year
  }

  /** Later March-based years start at least 365 days per year later. */
  lemma {:induction false} YearBaseGrows(y1: int, y2: int)
    requires y1 <= y2
    ensures YearBase(y2) >= YearBase(y1) + 365 * (y2 - y1)
    decreases y2 - y1
  {
    if y1 < y2 {
      YearStep(y2 - 1);
      YearBaseGrows(y1, y2 - 1);
    }
  }

  /** A valid date is determined by its March-based year and its day of that year. */
  lemma MarchDayDeterminesDate(d1: Date, d2: Date)
    requires ValidDate(d1) && ValidDate(d2)
    requires MarchYear(d1) == MarchYear(d2) && DayOfMarchYear(d1) == DayOfMarchYear(d2)
    ensures d1 == d2
  {
    MarchMonthOfDay(d1);
    MarchMonthOfDay(d2);
    var mp := (d1.month + 10) % 12;
    assert mp == (d2.month + 10) % 12;
    assert d1.month == d2.month by {
      assert d1.month == (if mp < 10 then mp + 2 else mp - 10);
      assert d2.month == (if mp < 10 then mp + 2 else mp - 10);
    }
  }

  /** A day of an earlier March-based year comes before every day of a later one. */
  lemma EarlierYearEarlierDay(y1: int, doy1: int, y2: int, doy2: int)
    requires y1 < y2
    requires 0 <= doy1 <= 365 && (doy1 == 365 ==> IsLeapYear(y1 + 1))
    requires 0 <= doy2
    ensures YearBase(y1) + doy1 < YearBase(y2) + doy2
  {
    YearStep(y1);
    YearBaseGrows(y1 + 1, y2);
  }

  /** A day number is the start of its March-based year plus the day within it. */
  lemma DayNumberByMarchYear(d: Date)
    requires ValidDate(d)
    ensures DayNumberOf(d) == YearBase(MarchYear(d)) + DayOfMarchYear(d) - 719468
  {
  }

  /** A day is named by one March-based year and one day of that year. */
  lemma MarchYearDayUnique(y1: int, doy1: int, y2: int, doy2: int)
    requires 0 <= doy1 <= 365 && (doy1 == 365 ==> IsLeapYear(y1 + 1))
    requires 0 <= doy2 <= 365 && (doy2 == 365 ==> IsLeapYear(y2 + 1))
    requires YearBase(y1) + doy1 == YearBase(y2) + doy2
    ensures y1 == y2 && doy1 == doy2
  {
    if y1 < y2 {
      EarlierYearEarlierDay(y1, doy1, y2, doy2);
    } else if y2 < y1 {
      EarlierYearEarlierDay(y2, doy2, y1, doy1);
    }
  }

  lemma MarchDayNumbersMatch(d1: Date, d2: Date)
    requires ValidDate(d1) && ValidDate(d2)
    requires DayNumberOf(d1) == DayNumberOf(d2)
    ensures YearBase(MarchYear(d1)) + DayOfMarchYear(d1) == YearBase(MarchYear(d2)) + DayOfMarchYear(d2)
  {
    DayNumberByMarchYear(d1);
    DayNumberByMarchYear(d2);
  }

  /** Valid dates on the same day share their March-based year and day. */
  lemma SameMarchDay(d1: Date, d2: Date)
    requires ValidDate(d1) && ValidDate(d2)
    requires YearBase(MarchYear(d1)) + DayOfMarchYear(d1) == YearBase(MarchYear(d2)) + DayOfMarchYear(d2)
    ensures MarchYear(d1) == MarchYear(d2) && DayOfMarchYear(d1) == DayOfMarchYear(d2)
  {
    MarchYearDayUnique(MarchYear(d1), DayOfMarchYear(d1), MarchYear(d2), DayOfMarchYear(d2));
  }

  /** Distinct valid dates have distinct day numbers. */
  lemma DayNumberInjective(d1: Date, d2: Date)
    requires ValidDate(d1) && ValidDate(d2)
    requires DayNumberOf(d1) == DayNumberOf(d2)
    ensures d1 == d2
  {
    MarchDayNumbersMatch(d1, d2);
    SameMarchDay(d1, d2);
    MarchDayDeterminesDate(d1, d2);
  }

  /** At most one valid date has a given day number. */
  lemma OneDatePerDay(n: int)
    ensures forall d1: Date, d2: Date | ValidDate(d1) && ValidDate(d2) && DayNumberOf(d1) == n && DayNumberOf(d2) == n
              :: d1 == d2
  {
    forall d1: Date, d2: Date | ValidDate(d1) && ValidDate(d2) && DayNumberOf(d1) == n && DayNumberOf(d2) == n
      ensures d1 == d2
    {
      DayNumberInjective(d1, d2);
    }
  }

  /** A valid date is recovered from its day number. */
  lemma DateOfDayNumber(d: Date)
    requires ValidDate(d)
    ensures DateOfDay(DayNumberOf(d)) == d
  {
    DayNumberInjective(DateOfDay(DayNumberOf(d)), d);
  }
}

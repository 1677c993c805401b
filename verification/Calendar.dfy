/**
 * `time_decode`: two subtractive loops that invert the "Seconds Since the Epoch" formula of
 * POSIX.1-2017 Base Definitions, section 4.16.
 */
module Calendar {
  import opened Machine

  datatype DateTime = DateTime(
    sec: nat, min: nat, hour: nat,
    dayOfWeek: nat, dayOfMonth: nat, dayOfYear: nat,
    month: nat, year: nat, daylightSaving: bool)

  const MONTH_DAYS: seq<nat> := [31, 28, 31, 30, 31, 30, 31, 31, 30, 31, 30, 31]
  const SECONDS_PER_DAY := 86400

  predicate IsLeap(year: nat)
  {
    year % 4 == 0 && (year % 100 != 0 || year % 400 == 0)
  }

  function YearDays(year: nat): (r: nat)
  {
    if IsLeap(year) then 366 else 365
  }

  function MonthDays(year: nat, month: nat): (r: nat)
    requires month < 12
    ensures 28 <= r <= 31
  {
    if IsLeap(year) && month == 1 then 29 else MONTH_DAYS[month]
  }

  /** Days of the year before a month starts. */
  function MonthStart(year: nat, month: nat): (r: nat)
    requires month <= 12
  {
    if month == 0 then 0 else MonthStart(year, month - 1) + MonthDays(year, month - 1)
  }

  /** Days from 1970-01-01 to the first of January, with leap years counted by floor division. */
  function DaysBefore(year: nat): (r: int)
    requires year >= 1970
  {
    365 * (year - 1970) + (year - 1969) / 4 - (year - 1901) / 100 + (year - 1601) / 400
  }

  /** The POSIX closed form; `tm_year` counts from 1900. */
  function PosixSeconds(d: DateTime): (r: int)
    requires d.year >= 70
  {
    d.sec + d.min * 60 + d.hour * 3600 + d.dayOfYear * 86400
    + (d.year - 70) * 31536000 + ((d.year - 69) / 4) * 86400
    - ((d.year - 1) / 100) * 86400 + ((d.year + 299) / 400) * 86400
  }

  const WEEKDAY_OFFSETS: seq<nat> := [0, 3, 2, 5, 0, 3, 5, 1, 4, 6, 2, 4]

  /** The day of the week from year, month (0 is January) and day: Sakamoto's congruence, Sunday 0. */
  function Weekday(year: nat, month: nat, day: nat): (r: nat)
    requires year >= 1 && month < 12
  {
    var y := if month < 2 then year - 1 else year;
    (y + y / 4 - y / 100 + y / 400 + WEEKDAY_OFFSETS[month] + day) % 7
  }

  predicate ValidDate(d: DateTime)
  {
    && d.sec < 60 && d.min < 60 && d.hour < 24
    && d.year >= 70 && d.month < 12
    && 1 <= d.dayOfMonth <= MonthDays(d.year + 1900, d.month)
    && d.dayOfYear == MonthStart(d.year + 1900, d.month) + d.dayOfMonth - 1
    && d.dayOfWeek == Weekday(d.year + 1900, d.month, d.dayOfMonth)
    && !d.daylightSaving
  }

  /** Calendar order. */
  predicate Before(a: DateTime, b: DateTime)
  {
    a.year < b.year || (a.year == b.year &&
    (a.month < b.month || (a.month == b.month &&
    (a.dayOfMonth < b.dayOfMonth || (a.dayOfMonth == b.dayOfMonth &&
    (a.hour < b.hour || (a.hour == b.hour &&
    (a.min < b.min || (a.min == b.min && a.sec < b.sec)))))))))
  }

  // ---------- years and months ----------

  lemma FloorSteps(x: nat, d: nat)
    requires d == 4 || d == 100 || d == 400
    ensures (x + 1) / d == x / d + if (x + 1) % d == 0 then 1 else 0
  {
  }

  /** Floor-division leap counting advances by exactly one year's length. */
  lemma YearAdvances(year: nat)
    requires year >= 1970
    ensures DaysBefore(year + 1) == DaysBefore(year) + YearDays(year)
  {
    FloorSteps(year - 1969, 4);
    FloorSteps(year - 1901, 100);
    FloorSteps(year - 1601, 400);
    LeapByRemainders(year);
  }

  lemma LeapByRemainders(year: nat)
    requires year >= 1970
    ensures (if (year - 1968) % 4 == 0 then 1 else 0) - (if (year - 1900) % 100 == 0 then 1 else 0)
          + (if (year - 1600) % 400 == 0 then 1 else 0) == if IsLeap(year) then 1 else 0
  {
    assert year - 1968 == 4 * (year / 4 - 492) + year % 4;
    assert year - 1900 == 100 * (year / 100 - 19) + year % 100;
    assert year - 1600 == 400 * (year / 400 - 4) + year % 400;
    Multiples(year);
  }

  lemma Multiples(year: nat)
    ensures year % 100 == 0 ==> year % 4 == 0
    ensures year % 400 == 0 ==> year % 100 == 0
  {
    if year % 100 == 0 {
      assert year == 4 * (25 * (year / 100));
    }
    if year % 400 == 0 {
      assert year == 100 * (4 * (year / 400));
    }
  }

  lemma DaysBeforeAtLeast(year: nat)
    requires year >= 1970
    ensures DaysBefore(year) >= 365 * (year - 1970)
  {
  }

  lemma {:induction false} DaysBeforeGrows(a: nat, b: nat)
    requires 1970 <= a < b
    ensures DaysBefore(a) + YearDays(a) <= DaysBefore(b)
    decreases b - a
  {
    YearAdvances(a);
    if a + 1 < b {
      DaysBeforeGrows(a + 1, b);
    }
  }

  /** The month lengths of a year sum to its day count. */
  lemma MonthsFillTheYear(year: nat)
    ensures MonthStart(year, 12) == YearDays(year)
  {
    MonthStarts(year);
  }

  lemma MonthStarts(year: nat)
    ensures var l := if IsLeap(year) then 1 else 0;
            && MonthStart(year, 1) == 31 && MonthStart(year, 2) == 59 + l && MonthStart(year, 3) == 90 + l
            && MonthStart(year, 4) == 120 + l && MonthStart(year, 5) == 151 + l && MonthStart(year, 6) == 181 + l
            && MonthStart(year, 7) == 212 + l && MonthStart(year, 8) == 243 + l && MonthStart(year, 9) == 273 + l
            && MonthStart(year, 10) == 304 + l && MonthStart(year, 11) == 334 + l && MonthStart(year, 12) == 365 + l
  {
    assert MonthStart(year, 4) == MonthStart(year, 3) + 30;
    assert MonthStart(year, 8) == MonthStart(year, 7) + 31;
    assert MonthStart(year, 10) == MonthStart(year, 9) + 31;
  }

  lemma {:induction false} MonthStartGrows(year: nat, a: nat, b: nat)
    requires a < b <= 12
    ensures MonthStart(year, a) + MonthDays(year, a) <= MonthStart(year, b)
    decreases b
  {
    if a < b - 1 {
      MonthStartGrows(year, a, b - 1);
    }
  }

  // ---------- the order of timestamps ----------

  function DayNumber(d: DateTime): (r: int)
    requires d.year >= 70
  {
    DaysBefore(d.year + 1900) + d.dayOfYear
  }

  function SecondOfDay(d: DateTime): (r: nat)
  {
    d.sec + d.min * 60 + d.hour * 3600
  }

  lemma PosixByDays(d: DateTime)
    requires d.year >= 70
    ensures PosixSeconds(d) == SECONDS_PER_DAY * DayNumber(d) + SecondOfDay(d)
  {
  }

  lemma DayWithinYear(d: DateTime)
    requires ValidDate(d)
    ensures d.dayOfYear < YearDays(d.year + 1900)
  {
    MonthStartGrows(d.year + 1900, d.month, 12);
    MonthsFillTheYear(d.year + 1900);
  }

  /** Later dates have larger timestamps. */
  lemma PosixIsIncreasing(a: DateTime, b: DateTime)
    requires ValidDate(a) && ValidDate(b) && Before(a, b)
    ensures PosixSeconds(a) < PosixSeconds(b)
  {
    PosixByDays(a);
    PosixByDays(b);
    if a.year == b.year && a.month == b.month && a.dayOfMonth == b.dayOfMonth {
      LaterInTheDay(a, b);
    } else {
      LaterDay(a, b);
      SecondWithinDay(a);
    }
  }

  lemma SecondWithinDay(d: DateTime)
    requires ValidDate(d)
    ensures SecondOfDay(d) < SECONDS_PER_DAY
  {
  }

  lemma LaterInTheDay(a: DateTime, b: DateTime)
    requires ValidDate(a) && ValidDate(b) && Before(a, b)
    requires a.year == b.year && a.month == b.month && a.dayOfMonth == b.dayOfMonth
    ensures DayNumber(a) == DayNumber(b) && SecondOfDay(a) < SecondOfDay(b)
  {
  }

  lemma LaterDay(a: DateTime, b: DateTime)
    requires ValidDate(a) && ValidDate(b) && Before(a, b)
    requires !(a.year == b.year && a.month == b.month && a.dayOfMonth == b.dayOfMonth)
    ensures DayNumber(a) < DayNumber(b)
  {
    if a.year < b.year {
      DayWithinYear(a);
      DaysBeforeGrows(a.year + 1900, b.year + 1900);
      return;
    }
    LaterDayOfYear(a, b);
  }

  lemma LaterDayOfYear(a: DateTime, b: DateTime)
    requires ValidDate(a) && ValidDate(b) && a.year == b.year
    requires a.month < b.month || (a.month == b.month && a.dayOfMonth < b.dayOfMonth)
    ensures a.dayOfYear < b.dayOfYear
  {
    if a.month < b.month {
      MonthStartGrows(a.year + 1900, a.month, b.month);
    }
  }

  /** Valid dates are ordered as their timestamps, and no two share one. */
  lemma PosixIsAnOrderEmbedding(a: DateTime, b: DateTime)
    requires ValidDate(a) && ValidDate(b)
    ensures Before(a, b) <==> PosixSeconds(a) < PosixSeconds(b)
    ensures a == b <==> PosixSeconds(a) == PosixSeconds(b)
  {
    if Before(a, b) {
      PosixIsIncreasing(a, b);
    } else if Before(b, a) {
      PosixIsIncreasing(b, a);
    }
  }

  // ---------- the day of the week ----------

  /** Counting days from a Thursday agrees with the congruence on year, month and day. */
  lemma WeekdayAgrees(year: nat, month: nat, day: nat)
    requires year >= 1970 && month < 12 && day >= 1
    ensures (DaysBefore(year) + MonthStart(year, month) + day - 1 + 4) % 7 == Weekday(year, month, day)
  {
    var leap := if IsLeap(year) then 1 else 0;
    var y := if month < 2 then year - 1 else year;
    var count := y + y / 4 - y / 100 + y / 400 + WEEKDAY_OFFSETS[month] + day;
    LeapsThrough(year);
    MonthStarts(year);
    var weeks := MonthWeeks(year, month);
    assert DaysBefore(year) + MonthStart(year, month) + day - 1 + 4 == count + 7 * weeks;
    SevenDays(count, weeks);
  }

  lemma SevenDays(a: int, k: int)
    ensures (a + 7 * k) % 7 == a % 7
  {
  }

  /** Both leap counts, from the year 1 and from 1970. */
  lemma LeapsThrough(year: nat)
    requires year >= 1970
    ensures var x := year - 1;
            DaysBefore(year) == 365 * (year - 1970) + x / 4 - x / 100 + x / 400 - 477
    ensures var x := year - 1;
            year / 4 - year / 100 + year / 400 == x / 4 - x / 100 + x / 400 + if IsLeap(year) then 1 else 0
  {
    var x := year - 1;
    ShiftedQuotient(x, 4, 492);
    ShiftedQuotient(x, 100, 19);
    ShiftedQuotient(x, 400, 4);
    FloorSteps(x, 4);
    FloorSteps(x, 100);
    FloorSteps(x, 400);
    Multiples(year);
  }

  lemma ShiftedQuotient(x: nat, d: nat, k: nat)
    requires (d == 4 || d == 100 || d == 400) && d * k <= x
    ensures (x - d * k) / d == x / d - k
  {
    var q, r := x / d, x % d;
    assert x - d * k == d * (q - k) + r;
  }

  /** The whole weeks between the two counts, month by month. */
  function MonthWeeks(year: nat, month: nat): (r: int)
    requires year >= 1970 && month < 12
  {
    52 * (year - 1970) - 349 + [0, 4, 8, 12, 17, 21, 25, 30, 34, 38, 43, 47][month]
  }

  // ---------- the code ----------

  method TimeDecode(timestamp: u32) returns (d: DateTime)
    ensures ValidDate(d) && PosixSeconds(d) == timestamp
  {
    var time: u32 := timestamp % 86400;
    var date: u32 := timestamp / 86400;
    var year: u16 := 1970;
    ghost var days := date;
    d := DateTime(time % 60, time % 3600 / 60, time / 3600, (date + 4) % 7, 0, 0, 0, 0, false);
    TimeOfDay(time);
    while date >= YearDays(year)
      invariant 1970 <= year && days == DaysBefore(year) + date
      decreases date
    {
      YearAdvances(year);
      DaysBeforeAtLeast(year + 1);
      date := date - YearDays(year);
      year := year + 1;
    }
    d := d.(year := year - 1900, dayOfYear := date, month := 0);
    while date >= MonthDays(year, d.month)
      invariant d.month < 12 && d.dayOfYear == MonthStart(year, d.month) + date
      invariant d == DateTime(time % 60, time % 3600 / 60, time / 3600, (days + 4) % 7, 0, d.dayOfYear,
                              d.month, year - 1900, false)
      invariant d.dayOfYear < YearDays(year) && days == DaysBefore(year) + d.dayOfYear
      decreases date
    {
      MonthsFillTheYear(year);
      date := date - MonthDays(year, d.month);
      d := d.(month := d.month + 1);
    }
    d := d.(dayOfMonth := date + 1, daylightSaving := false);
    WeekdayAgrees(year, d.month, d.dayOfMonth);
    PosixByDays(d);
  }

  lemma TimeOfDay(time: nat)
    requires time < SECONDS_PER_DAY
    ensures time % 60 + time % 3600 / 60 * 60 + time / 3600 * 3600 == time
    ensures time % 3600 / 60 < 60 && time / 3600 < 24
  {
    var r := time % 3600;
    assert r % 60 == time % 60 by {
      assert time == 60 * (60 * (time / 3600) + r / 60) + r % 60;
    }
  }

  /** Decoding is the inverse of the closed form: every valid date in range comes back from its timestamp. */
  method DecodeInvertsPosix(expected: DateTime) returns (d: DateTime)
    requires ValidDate(expected) && PosixSeconds(expected) < 0x1_0000_0000
    ensures d == expected
  {
    DateIsAfterEpoch(expected);
    d := TimeDecode(PosixSeconds(expected));
    PosixIsAnOrderEmbedding(d, expected);
  }

  lemma DateIsAfterEpoch(d: DateTime)
    requires ValidDate(d)
    ensures PosixSeconds(d) >= 0
  {
    PosixByDays(d);
    DaysBeforeAtLeast(d.year + 1900);
  }
}

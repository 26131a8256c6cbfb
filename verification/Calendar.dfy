/**
 * Instants, minutes and days of a UTC clock, and the Gregorian date of a day.
 * Day 0 is Thursday, 1 January 1970.
 */
module Calendar {

  /** Seconds since the epoch. */
  type Instant = nat

  const MINUTES_PER_DAY: nat := 1440

  /** Minutes since the epoch, and what a clock shows during such a minute. */
  function MinuteOf(t: Instant): nat { t / 60 }
  function DayOf(t: Instant): nat { MinuteOf(t) / MINUTES_PER_DAY }
  function HourOf(t: Instant): nat { MinuteOf(t) % MINUTES_PER_DAY / 60 }
  function MinOf(t: Instant): nat { MinuteOf(t) % MINUTES_PER_DAY % 60 }
  function WeekdayOf(t: Instant): nat { (DayOf(t) + 4) % 7 }
  function DayOfMonth(t: Instant): nat { DateOf(DayOf(t)).day }

  lemma SameClock(t: Instant, u: Instant)
    requires HourOf(t) == HourOf(u) && MinOf(t) == MinOf(u)
    ensures MinuteOf(t) - MinuteOf(u) == (DayOf(t) - DayOf(u)) * MINUTES_PER_DAY
  {
    var m, n := MinuteOf(t) % MINUTES_PER_DAY, MinuteOf(u) % MINUTES_PER_DAY;
    assert m == m / 60 * 60 + m % 60 && n == n / 60 * 60 + n % 60;
  }

  // ------------------------------------------------------------------- dates

  datatype Date = Date(year: nat, month: nat, day: nat)

  predicate IsLeap(year: nat) {
    year % 4 == 0 && (year % 100 != 0 || year % 400 == 0)
  }

  function DaysInMonth(year: nat, month: nat): nat {
    if month == 2 then (if IsLeap(year) then 29 else 28)
    else if month == 4 || month == 6 || month == 9 || month == 11 then 30
    else 31
  }

  predicate ValidDate(d: Date) {
    d.year >= 1970 && 1 <= d.month <= 12 && 1 <= d.day <= DaysInMonth(d.year, d.month)
  }

  function Tomorrow(d: Date): Date {
    if d.day < DaysInMonth(d.year, d.month) then d.(day := d.day + 1)
    else if d.month < 12 then Date(d.year, d.month + 1, 1)
    else Date(d.year + 1, 1, 1)
  }

  function DateOf(day: nat): (d: Date)
    ensures ValidDate(d)
  {
    if day == 0 then Date(1970, 1, 1) else Tomorrow(DateOf(day - 1))
  }

  /** Leap days in the years before `year`. */
  function LeapsBefore(year: nat): int
    requires year >= 1
  {
    (year - 1) / 4 - (year - 1) / 100 + (year - 1) / 400
  }

  function DaysBeforeMonth(year: nat, month: nat): nat
    requires 1 <= month <= 12
  {
    if month == 1 then 0 else DaysBeforeMonth(year, month - 1) + DaysInMonth(year, month - 1)
  }

  /** The usual closed form for the number of a day. */
  function DayNumber(d: Date): int
    requires ValidDate(d)
  {
    (d.year - 1970) * 365 + LeapsBefore(d.year) - LeapsBefore(1970)
    + DaysBeforeMonth(d.year, d.month) + d.day - 1
  }

  lemma QuotientsStep(year: nat)
    requires year >= 1
    ensures year / 4 == (year - 1) / 4 + if year % 4 == 0 then 1 else 0
    ensures year / 100 == (year - 1) / 100 + if year % 100 == 0 then 1 else 0
    ensures year / 400 == (year - 1) / 400 + if year % 400 == 0 then 1 else 0
  {
  }

  lemma Multiples(year: nat)
    ensures year % 400 == 0 ==> year % 100 == 0
    ensures year % 100 == 0 ==> year % 4 == 0
  {
    var p, q, r := year / 4, year / 100, year / 400;
    if year % 400 == 0 {
      assert year % 100 == 100 * (4 * r - q);
    }
    if year % 100 == 0 {
      assert year % 4 == 4 * (25 * q - p);
    }
  }

  lemma LeapStep(year: nat)
    requires year >= 1
    ensures LeapsBefore(year + 1) == LeapsBefore(year) + if IsLeap(year) then 1 else 0
  {
    QuotientsStep(year);
    Multiples(year);
  }

  lemma YearLength(year: nat)
    ensures DaysBeforeMonth(year, 12) + DaysInMonth(year, 12) == if IsLeap(year) then 366 else 365
  {
    assert DaysBeforeMonth(year, 2) == 31;
    assert DaysBeforeMonth(year, 3) == 31 + DaysInMonth(year, 2);
    assert DaysBeforeMonth(year, 4) == DaysBeforeMonth(year, 3) + 31;
    assert DaysBeforeMonth(year, 5) == DaysBeforeMonth(year, 3) + 61;
    assert DaysBeforeMonth(year, 6) == DaysBeforeMonth(year, 3) + 92;
    assert DaysBeforeMonth(year, 7) == DaysBeforeMonth(year, 3) + 122;
    assert DaysBeforeMonth(year, 8) == DaysBeforeMonth(year, 3) + 153;
    assert DaysBeforeMonth(year, 9) == DaysBeforeMonth(year, 3) + 184;
    assert DaysBeforeMonth(year, 10) == DaysBeforeMonth(year, 3) + 214;
    assert DaysBeforeMonth(year, 11) == DaysBeforeMonth(year, 3) + 245;
  }

  /** Counting day by day agrees with the closed form, so the calendar is the Gregorian one. */
  lemma {:induction false} DateOfIsInverse(day: nat)
    ensures DayNumber(DateOf(day)) == day
  {
    if day > 0 {
      DateOfIsInverse(day - 1);
      var d := DateOf(day - 1);
      if d.day == DaysInMonth(d.year, d.month) && d.month == 12 {
        LeapStep(d.year);
        YearLength(d.year);
      }
    }
  }

  /** For less than 28 days the day of the month goes up, or has wrapped once and is lower. */
  lemma {:induction false} DayWithinFourWeeks(day: nat, k: nat)
    requires k < 28
    ensures var d, e := DateOf(day), DateOf(day + k);
            || (e == d.(day := d.day + k))
            || (e.day + DaysInMonth(d.year, d.month) == d.day + k && e.day <= k)
  {
    if k > 0 {
      DayWithinFourWeeks(day, k - 1);
      assert DateOf(day + k) == Tomorrow(DateOf(day + k - 1));
    }
  }

  /** Days with the same number in their month are the same day or at least 28 days apart. */
  lemma SameDayOfMonth(a: nat, b: nat)
    requires a < b && DateOf(a).day == DateOf(b).day
    ensures b - a >= 28
  {
    if b - a < 28 {
      LaterDayDiffers(a, b - a);
    }
  }

  lemma LaterDayDiffers(day: nat, k: nat)
    requires 0 < k < 28
    ensures DateOf(day + k).day != DateOf(day).day
  {
    DayWithinFourWeeks(day, k);
  }

  lemma {:induction false} DaysInSameMonth(day: nat, k: nat)
    requires DateOf(day).day + k <= DaysInMonth(DateOf(day).year, DateOf(day).month)
    ensures DateOf(day + k) == DateOf(day).(day := DateOf(day).day + k)
  {
    if k > 0 {
      DaysInSameMonth(day, k - 1);
    }
  }

  /** Up to the 28th, a month later is the same day of the next month. */
  lemma SameDayNextMonth(day: nat)
    requires DateOf(day).day <= 28
    ensures DateOf(day + DaysInMonth(DateOf(day).year, DateOf(day).month)).day == DateOf(day).day
  {
    var d := DateOf(day);
    var left := DaysInMonth(d.year, d.month) - d.day;
    DaysInSameMonth(day, left);
    var first := day + left + 1;
    assert DateOf(first) == Tomorrow(DateOf(first - 1));
    assert DateOf(first).day == 1;
    DaysInSameMonth(first, d.day - 1);
  }

  // ---------------------------------------------------------------- weekdays

  /** Zeller's sum, where January and February are months 13 and 14 of the year before. */
  function ZellerSum(day: nat, m: nat, y: nat): int {
    day + 13 * (m + 1) / 5 + y + y / 4 - y / 100 + y / 400 + 6
  }

  /** Zeller's congruence: the weekday of a date, 0 for Sunday, from the date alone. */
  function Zeller(d: Date): nat
    requires ValidDate(d)
  {
    (if d.month < 3 then ZellerSum(d.day, d.month + 12, d.year - 1) else ZellerSum(d.day, d.month, d.year)) % 7
  }

  function DaysBeforeCommon(month: nat): nat {
    match month
    case 1 => 0 case 2 => 31 case 3 => 59 case 4 => 90 case 5 => 120 case 6 => 151
    case 7 => 181 case 8 => 212 case 9 => 243 case 10 => 273 case 11 => 304 case _ => 334
  }

  lemma {:induction false} DaysBefore(year: nat, month: nat)
    requires 1 <= month <= 12
    ensures DaysBeforeMonth(year, month) == DaysBeforeCommon(month) + if month > 2 && IsLeap(year) then 1 else 0
  {
    if month > 1 {
      DaysBefore(year, month - 1);
    }
  }

  /** Zeller's term for the month counts the days before it, but for whole weeks. */
  lemma MonthTerm(month: nat)
    requires 1 <= month <= 12
    ensures month >= 3 ==> (DaysBeforeCommon(month) - 13 * (month + 1) / 5) % 7 == 0
    ensures month < 3 ==> (DaysBeforeCommon(month) + 1 - 13 * (month + 13) / 5) % 7 == 0
  {
  }

  lemma WholeWeeks(a: int, b: int, months: int, year: int)
    requires months % 7 == 0 && a - b == months + 364 * year - 719530
    ensures a % 7 == b % 7
  {
    assert months == 7 * (months / 7);
    assert a - b == 7 * (months / 7 + 52 * year - 102790);
  }

  lemma LateInYear(d: Date)
    requires ValidDate(d) && d.month >= 3
    ensures ZellerSum(d.day, d.month, d.year) % 7 == (DayNumber(d) + 4) % 7
  {
    DaysBefore(d.year, d.month);
    LeapStep(d.year);
    MonthTerm(d.month);
    WholeWeeks(DayNumber(d) + 4, ZellerSum(d.day, d.month, d.year),
               DaysBeforeCommon(d.month) - 13 * (d.month + 1) / 5, d.year);
  }

  lemma EarlyInYear(d: Date)
    requires ValidDate(d) && d.month < 3
    ensures ZellerSum(d.day, d.month + 12, d.year - 1) % 7 == (DayNumber(d) + 4) % 7
  {
    DaysBefore(d.year, d.month);
    MonthTerm(d.month);
    WholeWeeks(DayNumber(d) + 4, ZellerSum(d.day, d.month + 12, d.year - 1),
               DaysBeforeCommon(d.month) + 1 - 13 * (d.month + 13) / 5, d.year);
  }

  lemma ZellerIsDayNumber(d: Date)
    requires ValidDate(d)
    ensures Zeller(d) == (DayNumber(d) + 4) % 7
  {
    if d.month >= 3 {
      LateInYear(d);
    } else {
      EarlyInYear(d);
    }
  }

  /** The weekday that is counted from the first day on is that of the date, by Zeller's congruence. */
  lemma WeekdayIsGregorian(t: Instant)
    ensures WeekdayOf(t) == Zeller(DateOf(DayOf(t)))
  {
    DateOfIsInverse(DayOf(t));
    ZellerIsDayNumber(DateOf(DayOf(t)));
  }
}

/** The proleptic Gregorian calendar that `time.Date`, `Year`, `Month`, `Day`
    and `Weekday` expose, counted from Monday 1 January of year 1 (day 0).

    A month is named by its index from January of year 1, so `time.Date` with a
    month past December is the plain successor index. */
module Calendar {
  import opened Clock
  import Modular

  predicate IsLeapYear(year: nat) {
    year % 4 == 0 && (year % 100 != 0 || year % 400 == 0)
  }

  function YearOfMonth(month: nat): (year: nat)
    ensures year >= 1
  {
    month / 12 + 1
  }

  function MonthLength(month: nat): (days: nat)
    ensures 28 <= days <= 31
  {
    var k := month % 12;
    if k == 1 then (if IsLeapYear(YearOfMonth(month)) then 29 else 28)
    else if k == 3 || k == 5 || k == 8 || k == 10 then 30
    else 31
  }

  /** Day number of the first day of the month. */
  function MonthStart(month: nat): nat {
    if month == 0 then 0 else MonthStart(month - 1) + MonthLength(month - 1)
  }

  function MonthFrom(day: nat, month: nat): (m: nat)
    requires MonthStart(month) <= day
    ensures MonthStart(m) <= day < MonthStart(m + 1)
    decreases day - MonthStart(month)
  {
    if day < MonthStart(month + 1) then month else MonthFrom(day, month + 1)
  }

  /** The month that contains the day. */
  function MonthOf(day: nat): (m: nat)
    ensures MonthStart(m) <= day < MonthStart(m + 1)
  {
    MonthFrom(day, 0)
  }

  function DayOfMonth(day: nat): (d: nat)
    ensures 1 <= d <= MonthLength(MonthOf(day))
  {
    day - MonthStart(MonthOf(day)) + 1
  }

  /** Sunday is 0, as in Go; day 0 is a Monday. */
  function Weekday(day: nat): nat { (day + 1) % 7 }

  /** Midnight of the `d`-th of a month; days out of range spill over. */
  function Date(month: nat, d: int): int {
    Midnight(MonthStart(month) + d - 1)
  }

  lemma {:induction false} MonthStartIncreases(a: nat, b: nat)
    requires a <= b
    ensures MonthStart(a) + 28 * (b - a) <= MonthStart(b)
    decreases b - a
  {
    if a < b {
      MonthStartIncreases(a, b - 1);
    }
  }

  /** Reading a date off a day and rebuilding the day from it is the identity,
      in both directions: the month that contains a day is unique. */
  lemma MonthOfUnique(day: nat, month: nat)
    requires MonthStart(month) <= day < MonthStart(month + 1)
    ensures MonthOf(day) == month
  {
    hide MonthStart, MonthLength;
    var m := MonthOf(day);
    if m < month {
      MonthStartIncreases(m + 1, month);
    } else if month < m {
      MonthStartIncreases(month + 1, m);
    }
  }

  lemma DateRoundTrip(month: nat, d: nat)
    requires 1 <= d <= MonthLength(month)
    ensures Date(month, d) >= 0
    ensures var day := DayOf(Date(month, d));
            MonthOf(day) == month && DayOfMonth(day) == d
  {
    var day := MonthStart(month) + d - 1;
    DayOfWithin(Midnight(day), day, day + 1);
    MonthOfUnique(day, month);
  }

  /** Day zero of the next month is the last day of this one. */
  lemma LastDayOfMonth(month: nat)
    ensures DayOfMonth(DayOf(Date(month + 1, 0))) == MonthLength(month)
  {
    DateRoundTrip(month, MonthLength(month));
    assert Date(month + 1, 0) == Date(month, MonthLength(month));
  }

  // ---------------------------------------------------------------------------
  // Against the calendar as it is commonly written down

  /** Days of the months of an ordinary year. */
  const MONTH_DAYS: seq<nat> := [31, 28, 31, 30, 31, 30, 31, 31, 30, 31, 30, 31]

  /** Leap years among the first `y`: every fourth, but not every hundredth, but every four
      hundredth. */
  function LeapYears(y: nat): int { y / 4 - y / 100 + y / 400 }

  lemma DivStep(y: nat, n: nat)
    requires n > 0
    ensures (y + 1) / n == y / n + if (y + 1) % n == 0 then 1 else 0
  {
    var q, r := y / n, y % n;
    assert y == q * n + r;
    if r + 1 < n {
      Modular.ModOfMultiplePlus(y + 1, q, n, r + 1);
      Modular.QuotientIs(y + 1, q, n, r + 1);
    } else {
      Modular.Distribute(q, 1, n);
      Modular.ModOfMultiplePlus(y + 1, q + 1, n, 0);
      Modular.QuotientIs(y + 1, q + 1, n, 0);
    }
  }

  lemma LeapYearCounts(y: nat)
    ensures LeapYears(y + 1) == LeapYears(y) + if IsLeapYear(y + 1) then 1 else 0
  {
    DivStep(y, 4);
    DivStep(y, 100);
    DivStep(y, 400);
    Multiples(y + 1);
  }

  lemma Multiples(y: nat)
    ensures (y % 400 == 0 ==> y % 100 == 0) && (y % 100 == 0 ==> y % 4 == 0)
  {
    if y % 400 == 0 {
      Modular.ModOfMultiplePlus(y, 4 * (y / 400), 100, 0);
    }
    if y % 100 == 0 {
      Modular.ModOfMultiplePlus(y, 25 * (y / 100), 4, 0);
    }
  }

  lemma MonthDays(y: nat, k: nat)
    requires k < 12
    ensures MonthLength(12 * y + k) == MONTH_DAYS[k] + if k == 1 && IsLeapYear(y + 1) then 1 else 0
  {
    assert (12 * y + k) % 12 == k && YearOfMonth(12 * y + k) == y + 1;
  }

  lemma YearDays(y: nat)
    ensures MonthStart(12 * (y + 1)) == MonthStart(12 * y) + 365 + if IsLeapYear(y + 1) then 1 else 0
  {
    hide MonthStart, MonthLength, IsLeapYear;
    var m := 12 * y;
    MonthDays(y, 0);
    MonthDays(y, 1);
    MonthDays(y, 2);
    MonthDays(y, 3);
    MonthDays(y, 4);
    MonthDays(y, 5);
    MonthDays(y, 6);
    MonthDays(y, 7);
    MonthDays(y, 8);
    MonthDays(y, 9);
    MonthDays(y, 10);
    MonthDays(y, 11);
    Quarter(m);
    Quarter(m + 3);
    Quarter(m + 6);
    Quarter(m + 9);
  }

  lemma Quarter(m: nat)
    ensures MonthStart(m + 3) == MonthStart(m) + MonthLength(m) + MonthLength(m + 1) + MonthLength(m + 2)
  {
    hide MonthLength;
    assert MonthStart(m + 1) == MonthStart(m) + MonthLength(m);
    assert MonthStart(m + 2) == MonthStart(m + 1) + MonthLength(m + 1);
  }

  /** The day a year starts on: 365 days a year and one for each leap year before. */
  lemma {:induction false} YearStart(y: nat)
    ensures MonthStart(12 * y) == 365 * y + LeapYears(y)
  {
    hide MonthStart, IsLeapYear, LeapYears;
    if y == 0 {
      FirstYear();
    } else {
      YearStart(y - 1);
      YearDays(y - 1);
      LeapYearCounts(y - 1);
    }
  }

  lemma FirstYear()
    ensures MonthStart(0) == 0 && LeapYears(0) == 0
  {
  }

  /** The calendar repeats itself every 400 years: 146097 days, which are whole weeks. */
  lemma FourHundredYears(y: nat)
    ensures MonthStart(12 * (y + 400)) == MonthStart(12 * y) + 146097 && 146097 % 7 == 0
  {
    hide MonthStart, LeapYears;
    YearStart(y);
    YearStart(y + 400);
    LeapYearsRepeat(y);
  }

  lemma LeapYearsRepeat(y: nat)
    ensures LeapYears(y + 400) == LeapYears(y) + 97
  {
    Modular.QuotientIs(y + 400, y / 4 + 100, 4, y % 4);
    Modular.QuotientIs(y + 400, y / 100 + 4, 100, y % 100);
    Modular.QuotientIs(y + 400, y / 400 + 1, 400, y % 400);
  }

  /** 1970 starts on a Thursday. */
  lemma KnownYear()
    ensures MonthStart(12 * 1969) == 719162 && Weekday(719162) == 4
  {
    hide MonthStart;
    YearStart(1969);
  }
}

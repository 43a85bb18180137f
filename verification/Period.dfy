/** Quota periods (daily, weekly, monthly, all in UTC) and the monthly reset of
    a key pool (in the fixed zone UTC+8). */
module Period {
  import opened Clock
  import opened Calendar
  import opened Wrappers

  datatype Dimension = Daily | Weekly | Monthly

  function ParseDimension(name: string): Option<Dimension> {
    if name == "daily" then Some(Daily)
    else if name == "weekly" then Some(Weekly)
    else if name == "monthly" then Some(Monthly)
    else None
  }

  function PeriodStart(dim: Dimension, now: nat): int {
    var today := DayOf(now);
    match dim
    case Daily => Date(MonthOf(today), DayOfMonth(today))
    case Weekly =>
      var offset := (Weekday(today) + 6) % 7;
      Date(MonthOf(today), DayOfMonth(today) - offset)
    case Monthly => Date(MonthOf(today), 1)
  }

  function NextReset(dim: Dimension, now: nat): int {
    var today := DayOf(now);
    match dim
    case Daily => Date(MonthOf(today), DayOfMonth(today) + 1)
    case Weekly =>
      var offset := (Weekday(today) + 6) % 7;
      Date(MonthOf(today), DayOfMonth(today) + 7 - offset)
    case Monthly => Date(MonthOf(today) + 1, 1)
  }

  /** `PeriodRange`; an unknown dimension is an error. */
  function PeriodRange(dimension: string, now: nat): Option<(int, int)> {
    match ParseDimension(dimension)
    case Some(dim) => Some((PeriodStart(dim, now), now))
    case None => None
  }

  /** `NextResetAt`; an unknown dimension is an error. */
  function NextResetAt(dimension: string, now: nat): Option<int> {
    match ParseDimension(dimension)
    case Some(dim) => Some(NextReset(dim, now))
    case None => None
  }

  /** Both know the same three dimensions, and then the range ends now and lies before the
      reset. */
  lemma RangeAndReset(dimension: string, now: nat)
    ensures PeriodRange(dimension, now).Some?
         <==> dimension == "daily" || dimension == "weekly" || dimension == "monthly"
    ensures NextResetAt(dimension, now).Some? <==> PeriodRange(dimension, now).Some?
    ensures PeriodRange(dimension, now).Some? ==>
      var (from, to) := PeriodRange(dimension, now).value;
      0 <= from <= to == now < NextResetAt(dimension, now).value
  {
    if PeriodRange(dimension, now).Some? {
      PeriodBounds(ParseDimension(dimension).value, now);
    }
  }

  // The same boundaries in whole days.

  function StartDay(dim: Dimension, day: nat): nat {
    match dim
    case Daily => day
    case Weekly => day - day % 7
    case Monthly => MonthStart(MonthOf(day))
  }

  function NextDay(dim: Dimension, day: nat): nat {
    match dim
    case Daily => day + 1
    case Weekly => day - day % 7 + 7
    case Monthly => MonthStart(MonthOf(day) + 1)
  }

  lemma PeriodInDays(dim: Dimension, now: nat)
    ensures PeriodStart(dim, now) == Midnight(StartDay(dim, DayOf(now)))
    ensures NextReset(dim, now) == Midnight(NextDay(dim, DayOf(now)))
  {
    var today := DayOf(now);
    assert (Weekday(today) + 6) % 7 == today % 7;
  }

  lemma DayPartition(dim: Dimension, today: nat, day: nat)
    requires StartDay(dim, today) <= day < NextDay(dim, today)
    ensures StartDay(dim, day) == StartDay(dim, today)
    ensures NextDay(dim, day) == NextDay(dim, today)
  {
    match dim
    case Daily =>
    case Weekly =>
    case Monthly => MonthOfUnique(day, MonthOf(today));
  }

  /** The period contains now. */
  lemma PeriodBounds(dim: Dimension, now: nat)
    ensures 0 <= PeriodStart(dim, now) <= now < NextReset(dim, now)
  {
    PeriodInDays(dim, now);
    var today := DayOf(now);
    assert StartDay(dim, today) <= today < NextDay(dim, today);
    DayContains(now);
  }

  /** The periods of a dimension partition time: every instant between the start
      and the next reset has that same start and that same next reset. */
  lemma PeriodPartition(dim: Dimension, now: nat, t: int)
    requires PeriodStart(dim, now) <= t < NextReset(dim, now)
    ensures t >= 0
    ensures PeriodStart(dim, t) == PeriodStart(dim, now)
    ensures NextReset(dim, t) == NextReset(dim, now)
  {
    hide PeriodStart, NextReset, StartDay, NextDay;
    PeriodInDays(dim, now);
    DayOfWithin(t, StartDay(dim, DayOf(now)), NextDay(dim, DayOf(now)));
    DayPartition(dim, DayOf(now), DayOf(t));
    PeriodInDays(dim, t);
  }

  lemma NextDayStarts(dim: Dimension, day: nat)
    ensures StartDay(dim, NextDay(dim, day)) == NextDay(dim, day)
  {
    match dim
    case Daily =>
    case Weekly =>
    case Monthly => MonthOfUnique(NextDay(dim, day), MonthOf(day) + 1);
  }

  /** The reset of one period starts the next one. */
  lemma ResetStartsNextPeriod(dim: Dimension, now: nat)
    ensures NextReset(dim, now) >= 0
    ensures PeriodStart(dim, NextReset(dim, now)) == NextReset(dim, now)
  {
    hide PeriodStart, NextReset, StartDay, NextDay;
    PeriodInDays(dim, now);
    var next := NextDay(dim, DayOf(now));
    NextDayStarts(dim, DayOf(now));
    DayOfWithin(Midnight(next), next, next + 1);
    PeriodInDays(dim, Midnight(next));
  }

  /** A period of each name: a day from midnight, a week from Monday, a month from its first
      day to the first of the next. Together with `PeriodBounds` that says which. */
  lemma PeriodsByName(now: nat)
    ensures PeriodRange("daily", now).Some? && PeriodRange("weekly", now).Some? && PeriodRange("monthly", now).Some?
    ensures var (from, next) := (PeriodRange("daily", now).value.0, NextResetAt("daily", now).value);
            from >= 0 && from == Midnight(DayOf(from)) && next == from + 24 * HOUR
    ensures var (from, next) := (PeriodRange("weekly", now).value.0, NextResetAt("weekly", now).value);
            from >= 0 && from == Midnight(DayOf(from)) && Weekday(DayOf(from)) == 1 && next == from + 7 * 24 * HOUR
    ensures var (from, next) := (PeriodRange("monthly", now).value.0, NextResetAt("monthly", now).value);
            && 0 <= from <= next && from == Midnight(DayOf(from)) && next == Midnight(DayOf(next))
            && DayOfMonth(DayOf(from)) == 1 && DayOfMonth(DayOf(next)) == 1
            && MonthOf(DayOf(next)) == MonthOf(DayOf(from)) + 1
  {
    hide MonthStart, MonthLength, MonthOf, DayOfMonth, DayOf;
    PeriodInDays(Daily, now);
    PeriodInDays(Weekly, now);
    PeriodInDays(Monthly, now);
    var today := DayOf(now);
    DayOfMidnight(today);
    DayOfMidnight(today - today % 7);
    assert Weekday(today - today % 7) == 1 by { MondayOf(today); }
    var m := MonthOf(today);
    MonthFirst(m);
    MonthFirst(m + 1);
    MonthStartIncreases(m, m + 1);
  }

  lemma DayOfMidnight(day: nat)
    ensures Midnight(day) >= 0 && DayOf(Midnight(day)) == day
  {
  }

  lemma MondayOf(day: nat)
    ensures day - day % 7 >= 0 && Weekday(day - day % 7) == 1
  {
  }

  lemma MonthFirst(month: nat)
    ensures var first := Midnight(MonthStart(month));
            && first >= 0 && DayOf(first) == MonthStart(month)
            && MonthOf(MonthStart(month)) == month && DayOfMonth(MonthStart(month)) == 1
  {
    DayOfMidnight(MonthStart(month));
    MonthStartIncreases(month, month + 1);
    MonthOfUnique(MonthStart(month), month);
  }

  /** A later instant never has an earlier period start, and none before a reset
      that has passed. */
  lemma PeriodStartMonotone(dim: Dimension, t: nat, now: nat)
    requires t <= now
    ensures PeriodStart(dim, t) <= PeriodStart(dim, now)
    ensures now >= NextReset(dim, t) ==> PeriodStart(dim, now) >= NextReset(dim, t)
  {
    PeriodBounds(dim, t);
    PeriodBounds(dim, now);
    if PeriodStart(dim, now) <= t {
      PeriodPartition(dim, now, t);
    } else if PeriodStart(dim, now) < NextReset(dim, t) {
      PeriodPartition(dim, t, PeriodStart(dim, now));
      PeriodPartition(dim, now, PeriodStart(dim, now));
    }
  }

  // ---------------------------------------------------------------------------
  // Monthly reset of a key pool

  /** Eight hours. */
  const CST_OFFSET: int := 28_800_000_000_000

  /** The `day`-th of a month at midnight UTC+8, clamped to the month's last day. */
  function MonthlyPoint(month: nat, day: nat): int {
    var lastDay := MonthLength(month);
    Date(month, if day > lastDay then lastDay else day) - CST_OFFSET
  }

  function NextMonthlyReset(now: nat, day: nat): int {
    var month := MonthOf(DayOf(now + CST_OFFSET));
    var next := MonthlyPoint(month, day);
    if next > now then next else MonthlyPoint(month + 1, day)
  }

  lemma MonthlyPointInMonth(month: nat, day: nat)
    requires 1 <= day
    ensures Midnight(MonthStart(month)) <= MonthlyPoint(month, day) + CST_OFFSET < Midnight(MonthStart(month + 1))
  {
  }

  /** Midnight in UTC+8 of that day of the month, or of the last one in a shorter month. */
  lemma MonthlyPointMeans(month: nat, day: nat)
    requires 1 <= day
    ensures var there := MonthlyPoint(month, day) + 8 * HOUR;
            && there >= 0 && there == Midnight(DayOf(there)) && MonthOf(DayOf(there)) == month
            && DayOfMonth(DayOf(there)) == if day <= MonthLength(month) then day else MonthLength(month)
  {
    hide MonthStart, MonthLength, MonthOf, DayOfMonth;
    var d := if day <= MonthLength(month) then day else MonthLength(month);
    DateRoundTrip(month, d);
    DayOfMidnight(MonthStart(month) + d - 1);
  }

  lemma MonthlyPointIncreases(a: nat, b: nat, day: nat)
    requires a < b && 1 <= day
    ensures MonthlyPoint(a, day) < Midnight(MonthStart(b)) - CST_OFFSET <= MonthlyPoint(b, day)
  {
    MonthlyPointInMonth(a, day);
    MonthlyPointInMonth(b, day);
    MonthStartIncreases(a + 1, b);
  }

  lemma CurrentMonthlyPoint(now: nat, day: nat, current: nat)
    requires 1 <= day && current == MonthOf(DayOf(now + CST_OFFSET))
    ensures Midnight(MonthStart(current)) - CST_OFFSET <= now < MonthlyPoint(current + 1, day)
  {
    var today := DayOf(now + CST_OFFSET);
    DayContains(now + CST_OFFSET);
    assert MonthStart(current) <= today < MonthStart(current + 1);
    MonthlyPointInMonth(current + 1, day);
  }

  /** The next monthly reset is the earliest clamped monthly point strictly after
      now, whatever the lengths of the months around it. */
  lemma NextMonthlyResetEarliest(now: nat, day: nat)
    requires 1 <= day
    ensures NextMonthlyReset(now, day) > now
    ensures exists m: nat :: NextMonthlyReset(now, day) == MonthlyPoint(m, day)
    ensures forall m: nat :: MonthlyPoint(m, day) > now ==> NextMonthlyReset(now, day) <= MonthlyPoint(m, day)
  {
    hide MonthlyPoint, MonthOf, DayOf, MonthStart;
    var current := MonthOf(DayOf(now + CST_OFFSET));
    CurrentMonthlyPoint(now, day, current);
    assert NextMonthlyReset(now, day) == MonthlyPoint(current, day)
        || NextMonthlyReset(now, day) == MonthlyPoint(current + 1, day);
    forall m: nat | MonthlyPoint(m, day) > now
      ensures NextMonthlyReset(now, day) <= MonthlyPoint(m, day)
    {
      if m < current {
        MonthlyPointIncreases(m, current, day);
      } else if current + 1 < m {
        MonthlyPointIncreases(current + 1, m, day);
      }
      MonthlyPointIncreases(current, current + 1, day);
    }
  }

  /** A key pool's `reset_time` setting once parsed; an unreadable one is `NoReset`. */
  datatype ResetSpec = NoReset | MonthlyOn(day: nat) | FixedAt(at: Time)

  predicate WellFormedReset(spec: ResetSpec) {
    spec.MonthlyOn? ==> 1 <= spec.day <= 31
  }

  function ResolveReset(spec: ResetSpec, now: nat): Time {
    match spec
    case NoReset => ZERO_TIME
    case MonthlyOn(day) => NextMonthlyReset(now, day)
    case FixedAt(at) => at
  }
}

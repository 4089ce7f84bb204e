/** UTC instants as .NET's DateTime holds them: a proleptic Gregorian civil
    date between 0001-01-01 and 9999-12-31 plus the ticks (100 ns units)
    elapsed since midnight, with the forward arithmetic the document engine
    uses (AddHours, AddDays, AddMonths, AddYears). An addition that would pass
    DateTime.MaxValue is the ArgumentOutOfRangeException of .NET, here None. */
module CivilTime {
  import opened Failures

  const TicksPerMinute: int := 600_000_000
  const TicksPerHour: int := 36_000_000_000
  const TicksPerDay: int := 864_000_000_000
  const MaxYear: int := 9999

  datatype Instant = Instant(year: int, month: int, day: int, tick: int)

  predicate IsLeapYear(y: int) {
    y % 4 == 0 && (y % 100 != 0 || y % 400 == 0)
  }

  function YearLength(y: int): int {
    if IsLeapYear(y) then 366 else 365
  }

  function DaysInMonth(y: int, m: int): (n: int)
    requires 1 <= m <= 12
    ensures 28 <= n <= 31
  {
    if m == 2 then (if IsLeapYear(y) then 29 else 28)
    else if m == 4 || m == 6 || m == 9 || m == 11 then 30
    else 31
  }

  /** A value DateTime can hold. */
  predicate WellFormed(t: Instant) {
    && 1 <= t.year <= MaxYear
    && 1 <= t.month <= 12
    && 1 <= t.day <= DaysInMonth(t.year, t.month)
    && 0 <= t.tick < TicksPerDay
  }

  /** DateTime.MaxValue: 9999-12-31 23:59:59.9999999. */
  const MaxValue: Instant := Instant(MaxYear, 12, 31, TicksPerDay - 1)

  function Min(a: int, b: int): int { if a <= b then a else b }

  // ---------------------------------------------------------------------
  // Counting days and ticks from 0001-01-01 00:00

  /** Days in the years before `y`. */
  function DaysBeforeYear(y: int): nat
    requires 1 <= y
    decreases y
  {
    if y == 1 then 0 else DaysBeforeYear(y - 1) + YearLength(y - 1)
  }

  /** Days in the months of year `y` before month `m`. */
  function DaysBeforeMonth(y: int, m: int): nat
    requires 1 <= m <= 12
  {
    [0, 31, 59, 90, 120, 151, 181, 212, 243, 273, 304, 334][m - 1]
      + (if IsLeapYear(y) && m > 2 then 1 else 0)
  }

  function DayNumber(t: Instant): nat
    requires WellFormed(t)
  {
    DaysBeforeYear(t.year) + DaysBeforeMonth(t.year, t.month) + t.day - 1
  }

  /** DateTime.Ticks: ticks since 0001-01-01 00:00. */
  function Ticks(t: Instant): nat
    requires WellFormed(t)
  {
    DayNumber(t) * TicksPerDay + t.tick
  }

  /** Months since year 0, January: counts whole calendar months. */
  function MonthIndex(t: Instant): int {
    t.year * 12 + t.month - 1
  }

  lemma DaysBeforeNextMonth(y: int, m: int)
    requires 1 <= m < 12
    ensures DaysBeforeMonth(y, m + 1) == DaysBeforeMonth(y, m) + DaysInMonth(y, m)
  {
  }

  lemma LastMonthEndsYear(y: int)
    ensures DaysBeforeMonth(y, 12) + DaysInMonth(y, 12) == YearLength(y)
  {
  }

  /** The days of a year come in order: the day-of-year of a later month is larger. */
  lemma DaysBeforeMonthGrows(y: int, m: int, n: int)
    requires 1 <= m < n <= 12
    ensures DaysBeforeMonth(y, m) + DaysInMonth(y, m) <= DaysBeforeMonth(y, n)
  {
  }

  lemma {:induction false} DaysBeforeYearGrows(y: int, z: int)
    requires 1 <= y <= z
    ensures DaysBeforeYear(y) <= DaysBeforeYear(z)
    decreases z - y
  {
    if y < z {
      DaysBeforeYearGrows(y, z - 1);
    }
  }

  /** The day of the year of a well-formed date lies inside its year, and is
      the last day of the year exactly on December 31. */
  lemma DayOfYearBound(t: Instant)
    requires WellFormed(t)
    ensures DaysBeforeMonth(t.year, t.month) + t.day - 1 < YearLength(t.year)
    ensures DaysBeforeMonth(t.year, t.month) + t.day == YearLength(t.year)
            <==> t.month == 12 && t.day == 31
  {
  }

  /** The last day number DateTime can hold, that of 9999-12-31. */
  function LastDayNumber(): nat {
    DaysBeforeYear(MaxYear) + YearLength(MaxYear) - 1
  }

  /** Every well-formed date is at most the last one, and equal to it only on 9999-12-31. */
  lemma {:induction false} DayNumberAtMost(t: Instant)
    requires WellFormed(t)
    ensures DayNumber(t) <= LastDayNumber()
    ensures DayNumber(t) == LastDayNumber() <==> t.year == MaxYear && t.month == 12 && t.day == 31
  {
    DayOfYearBound(t);
    if t.year < MaxYear {
      DaysBeforeYearGrows(t.year + 1, MaxYear);
      assert DaysBeforeYear(t.year + 1) == DaysBeforeYear(t.year) + YearLength(t.year);
    }
  }

  lemma MaxValueTicks()
    ensures WellFormed(MaxValue)
    ensures DayNumber(MaxValue) == LastDayNumber()
    ensures Ticks(MaxValue) == LastDayNumber() * TicksPerDay + TicksPerDay - 1
  {
  }

  /** A date in an earlier calendar month has a smaller day number. */
  lemma {:induction false} EarlierMonthEarlierDay(a: Instant, b: Instant)
    requires WellFormed(a) && WellFormed(b)
    requires MonthIndex(a) < MonthIndex(b)
    ensures DayNumber(a) < DayNumber(b)
  {
    DayOfYearBound(a);
    if a.year < b.year {
      assert DaysBeforeYear(a.year + 1) == DaysBeforeYear(a.year) + YearLength(a.year);
      DaysBeforeYearGrows(a.year + 1, b.year);
    } else {
      DaysBeforeMonthGrows(a.year, a.month, b.month);
    }
  }

  /** An instant in an earlier calendar month is earlier in ticks. */
  lemma EarlierMonthEarlierTicks(a: Instant, b: Instant)
    requires WellFormed(a) && WellFormed(b)
    requires MonthIndex(a) < MonthIndex(b)
    ensures Ticks(a) < Ticks(b)
  {
    EarlierMonthEarlierDay(a, b);
  }

  // ---------------------------------------------------------------------
  // Forward arithmetic

  /** The same time of day on the following date, None after 9999-12-31. */
  function NextDay(t: Instant): (r: Option<Instant>)
    requires WellFormed(t)
    ensures r.Some? ==> WellFormed(r.value) && r.value.tick == t.tick
                        && DayNumber(r.value) == DayNumber(t) + 1
    ensures r.None? <==> DayNumber(t) == LastDayNumber()
  {
    DayNumberAtMost(t);
    if t.day < DaysInMonth(t.year, t.month) then
      Some(t.(day := t.day + 1))
    else if t.month < 12 then
      DaysBeforeNextMonth(t.year, t.month);
      Some(t.(month := t.month + 1, day := 1))
    else if t.year < MaxYear then
      LastMonthEndsYear(t.year);
      Some(Instant(t.year + 1, 1, 1, t.tick))
    else
      None
  }

  /** The same time of day `n` dates later, None once that passes 9999-12-31. */
  function ForwardDays(t: Instant, n: nat): (r: Option<Instant>)
    requires WellFormed(t)
    ensures r.Some? ==> WellFormed(r.value) && r.value.tick == t.tick
                        && DayNumber(r.value) == DayNumber(t) + n
    ensures r.None? <==> DayNumber(t) + n > LastDayNumber()
    decreases n
  {
    DayNumberAtMost(t);
    if n == 0 then Some(t)
    else
      match NextDay(t)
      case None => None
      case Some(u) => ForwardDays(u, n - 1)
  }

  /** DateTime.AddTicks for a non-negative amount. */
  function AddTicks(t: Instant, d: nat): (r: Option<Instant>)
    requires WellFormed(t)
    ensures r.Some? ==> WellFormed(r.value) && Ticks(r.value) == Ticks(t) + d
    ensures r.None? <==> Ticks(t) + d > Ticks(MaxValue)
  {
    MaxValueTicks();
    var total := t.tick + d;
    ForwardDays(t.(tick := total % TicksPerDay), total / TicksPerDay)
  }

  /** DateTime.AddHours for a whole, non-negative number of hours. */
  function AddHours(t: Instant, h: nat): (r: Option<Instant>)
    requires WellFormed(t)
    ensures r.Some? ==> WellFormed(r.value) && Ticks(r.value) == Ticks(t) + h * TicksPerHour
    ensures r.None? <==> Ticks(t) + h * TicksPerHour > Ticks(MaxValue)
  {
    AddTicks(t, h * TicksPerHour)
  }

  /** DateTime.AddDays for a whole, non-negative number of days. */
  function AddDays(t: Instant, n: nat): (r: Option<Instant>)
    requires WellFormed(t)
    ensures r.Some? ==> WellFormed(r.value) && Ticks(r.value) == Ticks(t) + n * TicksPerDay
    ensures r.None? <==> Ticks(t) + n * TicksPerDay > Ticks(MaxValue)
  {
    AddTicks(t, n * TicksPerDay)
  }

  /** DateTime.AddMonths for a non-negative count: moves the calendar month
      forward, keeps the time of day and clamps the day to the target month. */
  function AddMonths(t: Instant, n: nat): (r: Option<Instant>)
    requires WellFormed(t)
    ensures r.Some? ==> WellFormed(r.value) && MonthIndex(r.value) == MonthIndex(t) + n
                        && r.value.tick == t.tick
                        && r.value.day == Min(t.day, DaysInMonth(r.value.year, r.value.month))
    ensures r.None? <==> MonthIndex(t) + n > MonthIndex(MaxValue)
  {
    var i := t.month - 1 + n;
    var y := t.year + i / 12;
    var m := i % 12 + 1;
    if y > MaxYear then None
    else Some(Instant(y, m, Min(t.day, DaysInMonth(y, m)), t.tick))
  }

  /** DateTime.AddYears for a non-negative count: same month and time of day,
      February 29 becoming February 28 in a common year. */
  function AddYears(t: Instant, n: nat): (r: Option<Instant>)
    requires WellFormed(t)
    ensures r.Some? ==> WellFormed(r.value) && MonthIndex(r.value) == MonthIndex(t) + 12 * n
                        && r.value.month == t.month && r.value.tick == t.tick
    ensures r.None? <==> t.year + n > MaxYear
  {
    var y := t.year + n;
    if y > MaxYear then None
    else Some(t.(year := y, day := Min(t.day, DaysInMonth(y, t.month))))
  }

  /** AddYears agrees with adding twelve months per year, the way
      .NET Framework defines it. */
  lemma AddYearsIsTwelveMonths(t: Instant, n: nat)
    requires WellFormed(t)
    ensures AddYears(t, n) == AddMonths(t, 12 * n)
  {
  }

  /** Adding calendar months never moves an instant backwards. */
  lemma AddMonthsNotBefore(t: Instant, n: nat)
    requires WellFormed(t)
    requires AddMonths(t, n).Some?
    ensures Ticks(t) <= Ticks(AddMonths(t, n).value)
  {
    var u := AddMonths(t, n).value;
    if n == 0 {
      assert (t.month - 1) / 12 == 0 && (t.month - 1) % 12 == t.month - 1;
      assert u == t;
    } else {
      EarlierMonthEarlierTicks(t, u);
    }
  }
}

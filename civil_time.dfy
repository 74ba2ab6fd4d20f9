/** Proleptic Gregorian calendar arithmetic in UTC, enough to say what
    `moment(t).add(1, "M")` does: move to the same day of the next month,
    clamped to that month's last day, keeping the time of day. */
module CivilTime {
  import opened Common

  datatype Date = Date(year: int, month: int, day: int)

  predicate IsLeapYear(y: int)
  {
    y % 4 == 0 && (y % 100 != 0 || y % 400 == 0)
  }

  function DaysInYear(y: int): int
  {
    if IsLeapYear(y) then 366 else 365
  }

  function DaysInMonth(y: int, m: int): (n: int)
    requires 1 <= m <= 12
    ensures 28 <= n <= 31
  {
    if m == 2 then (if IsLeapYear(y) then 29 else 28)
    else if m == 4 || m == 6 || m == 9 || m == 11 then 30
    else 31
  }

  /** Days of year `y` that precede the first day of month `m`; month 13
      stands for the first day of the next year. */
  function DaysBeforeMonth(y: int, m: int): (n: int)
    requires 1 <= m <= 13
    ensures 0 <= n <= DaysInYear(y)
  {
    var leap := if IsLeapYear(y) then 1 else 0;
    if m == 1 then 0
    else if m == 2 then 31
    else if m == 3 then 59 + leap
    else if m == 4 then 90 + leap
    else if m == 5 then 120 + leap
    else if m == 6 then 151 + leap
    else if m == 7 then 181 + leap
    else if m == 8 then 212 + leap
    else if m == 9 then 243 + leap
    else if m == 10 then 273 + leap
    else if m == 11 then 304 + leap
    else if m == 12 then 334 + leap
    else 365 + leap
  }

  /** Day number (days since 1970-01-01) of January 1st of year `y`. */
  function YearStart(y: int): int
    decreases if y >= 1970 then y - 1970 else 1970 - y
  {
    if y == 1970 then 0
    else if y > 1970 then YearStart(y - 1) + DaysInYear(y - 1)
    else YearStart(y + 1) - DaysInYear(y)
  }

  lemma YearStartStep(y: int)
    ensures YearStart(y + 1) == YearStart(y) + DaysInYear(y)
  {
  }

  lemma {:induction false} YearStartMonotone(a: int, b: int)
    requires a < b
    ensures YearStart(a + 1) <= YearStart(b)
    decreases b - a
  {
    if a + 1 < b {
      YearStartMonotone(a + 1, b);
      YearStartStep(a + 1);
    }
  }

  predicate ValidDate(d: Date)
  {
    1 <= d.month <= 12 && 1 <= d.day <= DaysInMonth(d.year, d.month)
  }

  /** Days since 1970-01-01 of a calendar date. */
  function DayNumber(d: Date): int
    requires ValidDate(d)
  {
    YearStart(d.year) + DaysBeforeMonth(d.year, d.month) + d.day - 1
  }

  function FindYearUp(n: int, y: int): (r: int)
    requires YearStart(y) <= n
    ensures YearStart(r) <= n < YearStart(r + 1)
    decreases n - YearStart(y)
  {
    YearStartStep(y);
    if n < YearStart(y + 1) then y else FindYearUp(n, y + 1)
  }

  function FindYearDown(n: int, y: int): (r: int)
    requires n < YearStart(y + 1)
    ensures YearStart(r) <= n < YearStart(r + 1)
    decreases YearStart(y + 1) - n
  {
    YearStartStep(y - 1);
    if YearStart(y) <= n then y else FindYearDown(n, y - 1)
  }

  /** The year in which day number `n` falls. */
  function YearOf(n: int): (y: int)
    ensures YearStart(y) <= n < YearStart(y + 1)
  {
    if n >= 0 then FindYearUp(n, 1970) else (YearStartStep(1969); FindYearDown(n, 1969))
  }

  /** The month of year `y` in which day `doy` (0-based) falls, searching
      down from month `m`. */
  function FindMonth(y: int, doy: int, m: int): (r: int)
    requires 1 <= m <= 12 && 0 <= doy < DaysBeforeMonth(y, m + 1)
    ensures 1 <= r <= m && DaysBeforeMonth(y, r) <= doy < DaysBeforeMonth(y, r + 1)
  {
    if DaysBeforeMonth(y, m) <= doy then m else FindMonth(y, doy, m - 1)
  }

  /** The calendar date of day number `n`. */
  function DateOf(n: int): (d: Date)
    ensures ValidDate(d) && DayNumber(d) == n
  {
    var y := YearOf(n);
    YearStartStep(y);
    var doy := n - YearStart(y);
    MonthStep(y, 12);
    var m := FindMonth(y, doy, 12);
    MonthStep(y, m);
    Date(y, m, doy - DaysBeforeMonth(y, m) + 1)
  }

  /** Consecutive month starts are one month length apart; month 13 starts
      where the next year does. */
  lemma MonthStep(y: int, m: int)
    requires 1 <= m <= 12
    ensures DaysBeforeMonth(y, m + 1) == DaysBeforeMonth(y, m) + DaysInMonth(y, m)
    ensures DaysBeforeMonth(y, 13) == DaysInYear(y)
  {
  }

  lemma MonthStartMonotone(y: int, a: int, b: int)
    requires 1 <= a <= b <= 13
    ensures DaysBeforeMonth(y, a) <= DaysBeforeMonth(y, b)
  {
  }

  /** A day number lies in exactly one year. */
  lemma YearUnique(n: int, a: int, b: int)
    requires YearStart(a) <= n < YearStart(a + 1)
    requires YearStart(b) <= n < YearStart(b + 1)
    ensures a == b
  {
    if a < b {
      YearStartMonotone(a, b);
    } else if b < a {
      YearStartMonotone(b, a);
    }
  }

  /** A day of the year lies in exactly one month. */
  lemma MonthUnique(y: int, doy: int, a: int, b: int)
    requires 1 <= a <= 12 && 1 <= b <= 12
    requires DaysBeforeMonth(y, a) <= doy < DaysBeforeMonth(y, a + 1)
    requires DaysBeforeMonth(y, b) <= doy < DaysBeforeMonth(y, b + 1)
    ensures a == b
  {
    if a < b {
      MonthStartMonotone(y, a + 1, b);
    } else if b < a {
      MonthStartMonotone(y, b + 1, a);
    }
  }

  /** Every valid date is the date of its own day number. */
  lemma DateOfDayNumber(d: Date)
    requires ValidDate(d)
    ensures DateOf(DayNumber(d)) == d
  {
    DayNumberInjective(DateOf(DayNumber(d)), d);
  }

  /** Two valid dates with the same day number are the same date. */
  lemma DayNumberInjective(d: Date, e: Date)
    requires ValidDate(d) && ValidDate(e) && DayNumber(d) == DayNumber(e)
    ensures d == e
  {
    var n := DayNumber(d);
    DayWithinMonth(d);
    DayWithinMonth(e);
    YearUnique(n, e.year, d.year);
    MonthUnique(d.year, n - YearStart(d.year), e.month, d.month);
    assert d.day == e.day;
  }

  /** A valid date's day number falls inside its year and its month. */
  lemma DayWithinMonth(d: Date)
    requires ValidDate(d)
    ensures YearStart(d.year) <= DayNumber(d) < YearStart(d.year + 1)
    ensures DaysBeforeMonth(d.year, d.month) <= DayNumber(d) - YearStart(d.year) < DaysBeforeMonth(d.year, d.month + 1)
  {
    MonthStep(d.year, d.month);
    MonthStartMonotone(d.year, d.month + 1, 13);
    YearStartStep(d.year);
  }

  /** The date one month after `d`, with the day clamped to the length of
      the target month (January 31st becomes February 28th or 29th). */
  function NextMonth(d: Date): (r: Date)
    requires ValidDate(d)
    ensures ValidDate(r)
    ensures r.year * 12 + r.month == d.year * 12 + d.month + 1
    ensures r.day == d.day || (r.day == DaysInMonth(r.year, r.month) && r.day < d.day)
  {
    var (y, m) := if d.month == 12 then (d.year + 1, 1) else (d.year, d.month + 1);
    var dim := DaysInMonth(y, m);
    Date(y, m, if d.day <= dim then d.day else dim)
  }

  /** Day numbers one month apart are 28 to 31 days apart. */
  lemma NextMonthDistance(d: Date)
    requires ValidDate(d)
    ensures 28 <= DayNumber(NextMonth(d)) - DayNumber(d) <= 31
  {
    YearStartStep(d.year);
    MonthStep(d.year, d.month);
  }

  lemma DayOfInstant(n: int, ms: int)
    requires 0 <= ms < MsPerDay
    ensures (n * MsPerDay + ms) / MsPerDay == n && (n * MsPerDay + ms) % MsPerDay == ms
  {
  }

  /** Moving an instant to day number `next`, keeping its time of day. */
  function MoveToDay(t: Instant, next: int): Instant
  {
    next * MsPerDay + t % MsPerDay
  }

  lemma MoveToDaySpec(t: Instant, next: int)
    ensures MoveToDay(t, next) - t == (next - t / MsPerDay) * MsPerDay
    ensures MoveToDay(t, next) / MsPerDay == next
    ensures MoveToDay(t, next) % MsPerDay == t % MsPerDay
  {
    DayOfInstant(next, t % MsPerDay);
  }

  /** `moment(t).add(1, "M")` for an instant read in UTC. */
  function AddOneMonth(t: Instant): (r: Instant)
    ensures 28 * MsPerDay <= r - t <= 31 * MsPerDay
    ensures r % MsPerDay == t % MsPerDay
  {
    var d := DateOf(t / MsPerDay);
    NextMonthDistance(d);
    MoveByMonthOfDays(t, DayNumber(NextMonth(d)));
    MoveToDay(t, DayNumber(NextMonth(d)))
  }

  /** An instant on day `d` moves to the day `NextMonth` gives, at the same
      time of day. */
  lemma AddOneMonthFrom(d: Date, ms: int)
    requires ValidDate(d) && 0 <= ms < MsPerDay
    ensures AddOneMonth(DayNumber(d) * MsPerDay + ms) == DayNumber(NextMonth(d)) * MsPerDay + ms
  {
    var n := DayNumber(d);
    var t := n * MsPerDay + ms;
    assert t / MsPerDay == n && t % MsPerDay == ms by {
      DayOfInstant(n, ms);
    }
    assert DateOf(t / MsPerDay) == d by {
      DateOfDayNumber(d);
    }
    AddOneMonthOnDay(t, d);
  }

  lemma NextDayStart(n: int)
    ensures (n + 1) * MsPerDay == n * MsPerDay + MsPerDay
  {
  }

  /** Two days whose next month is the same clamped date move onto that one
      day, so only the times of day still tell them apart. */
  lemma SameNextMonth(d1: Date, d2: Date, ms1: int, ms2: int)
    requires ValidDate(d1) && ValidDate(d2) && NextMonth(d1) == NextMonth(d2)
    requires 0 <= ms1 < MsPerDay && 0 <= ms2 < MsPerDay
    ensures AddOneMonth(DayNumber(d2) * MsPerDay + ms2) - AddOneMonth(DayNumber(d1) * MsPerDay + ms1) == ms2 - ms1
  {
    AddOneMonthFrom(d1, ms1);
    AddOneMonthFrom(d2, ms2);
  }

  /** In a common year January 30 and 31 both move to February 28. */
  lemma LateJanuaryDays(y: int)
    requires !IsLeapYear(y)
    ensures DayNumber(Date(y, 1, 31)) == DayNumber(Date(y, 1, 30)) + 1
    ensures NextMonth(Date(y, 1, 30)) == Date(y, 2, 28) == NextMonth(Date(y, 1, 31))
  {
  }

  /** In a common year, adding a month to January 30, 23:00 and to two
      hours later lands both on February 28, so the later instant ends up
      22 hours earlier. */
  lemma LateJanuaryThirtieth(y: int)
    requires !IsLeapYear(y)
    ensures var t := DayNumber(Date(y, 1, 30)) * MsPerDay + 23 * MsPerHour;
      AddOneMonth(t + 2 * MsPerHour) == AddOneMonth(t) - 22 * MsPerHour
  {
    var jan30, jan31 := Date(y, 1, 30), Date(y, 1, 31);
    var n := DayNumber(jan30);
    LateJanuaryDays(y);
    assert n * MsPerDay + 25 * MsPerHour == DayNumber(jan31) * MsPerDay + MsPerHour by {
      NextDayStart(n);
    }
    SameNextMonth(jan30, jan31, 23 * MsPerHour, MsPerHour);
  }

  lemma AddOneMonthOnDay(t: Instant, d: Date)
    requires ValidDate(d) && DateOf(t / MsPerDay) == d
    ensures AddOneMonth(t) == DayNumber(NextMonth(d)) * MsPerDay + t % MsPerDay
  {
  }

  /** Adding a month moves strictly forward by 28 to 31 whole days, keeps the
      time of day, and lands on the clamped date of the next month. */
  lemma AddOneMonthSpec(t: Instant)
    ensures 28 * MsPerDay <= AddOneMonth(t) - t <= 31 * MsPerDay
    ensures AddOneMonth(t) % MsPerDay == t % MsPerDay
    ensures DateOf(AddOneMonth(t) / MsPerDay) == NextMonth(DateOf(t / MsPerDay))
  {
    var nd := NextMonth(DateOf(t / MsPerDay));
    MoveToDaySpec(t, DayNumber(nd));
    DateOfDayNumber(nd);
  }

  /** Moving an instant 28 to 31 days on, keeping its time of day. */
  lemma MoveByMonthOfDays(t: Instant, next: int)
    requires 28 <= next - t / MsPerDay <= 31
    ensures 28 * MsPerDay <= MoveToDay(t, next) - t <= 31 * MsPerDay
    ensures MoveToDay(t, next) / MsPerDay == next
    ensures MoveToDay(t, next) % MsPerDay == t % MsPerDay
  {
    MoveToDaySpec(t, next);
    ScaleDays(next - t / MsPerDay);
  }

  lemma ScaleDays(k: int)
    requires 28 <= k <= 31
    ensures 28 * MsPerDay <= k * MsPerDay <= 31 * MsPerDay
  {
  }

  /** The clamp at work: the month after a January 31st. */
  lemma EndOfJanuary()
    ensures NextMonth(Date(2021, 1, 30)) == Date(2021, 2, 28)
    ensures NextMonth(Date(2021, 1, 31)) == Date(2021, 2, 28)
    ensures NextMonth(Date(2024, 1, 31)) == Date(2024, 2, 29)
    ensures NextMonth(Date(2023, 12, 31)) == Date(2024, 1, 31)
  {
  }
}

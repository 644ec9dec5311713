/** Instants, fixed-offset zones and the proleptic Gregorian calendar, as the
    scheduler tasks use Go's `time` package. A day is numbered from 1970-01-01. */
module Calendar {
  const SECONDS_PER_DAY := 86400
  const TAIPEI := 28800

  /** An instant together with the zone it is displayed in. */
  datatype Time = Time(unix: int, offset: int)

  function LocalDay(t: Time): int {
    (t.unix + t.offset) / SECONDS_PER_DAY
  }

  function SecondOfDay(t: Time): int {
    (t.unix + t.offset) % SECONDS_PER_DAY
  }

  function Hour(t: Time): int {
    SecondOfDay(t) / 3600
  }

  function Minute(t: Time): int {
    SecondOfDay(t) % 3600 / 60
  }

  function In(t: Time, offset: int): Time {
    t.(offset := offset)
  }

  function At(day: int, second: int, offset: int): Time {
    Time(day * SECONDS_PER_DAY + second - offset, offset)
  }

  function Midnight(day: int, offset: int): Time {
    At(day, 0, offset)
  }

  function AddDays(t: Time, n: int): Time {
    t.(unix := t.unix + n * SECONDS_PER_DAY)
  }

  const SUNDAY := 0
  const FRIDAY := 5
  const SATURDAY := 6

  /** Day 0, 1970-01-01, was a Thursday. */
  function Weekday(day: int): int {
    (day + 4) % 7
  }

  predicate IsWeekday(day: int) {
    Weekday(day) != SATURDAY && Weekday(day) != SUNDAY
  }

  predicate IsLeap(y: int) {
    y % 4 == 0 && (y % 100 != 0 || y % 400 == 0)
  }

  function YearLength(y: int): int {
    if IsLeap(y) then 366 else 365
  }

  function LeapsBefore(y: int): int {
    (y - 1) / 4 - (y - 1) / 100 + (y - 1) / 400
  }

  const LEAPS_BEFORE_1970 := 477

  function DaysBeforeYear(y: int): int {
    365 * (y - 1970) + LeapsBefore(y) - LEAPS_BEFORE_1970
  }

  function MonthLength(y: int, m: int): int {
    if m == 2 then (if IsLeap(y) then 29 else 28)
    else if m == 4 || m == 6 || m == 9 || m == 11 then 30
    else 31
  }

  function DaysBeforeMonth(y: int, m: int): int
    requires 1 <= m <= 13
  {
    [0, 31, 59, 90, 120, 151, 181, 212, 243, 273, 304, 334, 365][m - 1]
    + if m > 2 && IsLeap(y) then 1 else 0
  }

  datatype Date = Date(year: int, month: int, day: int)

  predicate ValidDate(d: Date) {
    1 <= d.month <= 12 && 1 <= d.day <= MonthLength(d.year, d.month)
  }

  /** The day named by a possibly unnormalised date: a month past December runs into
      the next year and a day past the month's end runs into the next month. */
  function DayOf(d: Date): int {
    var year := d.year + (d.month - 1) / 12;
    var month := (d.month - 1) % 12 + 1;
    DaysBeforeYear(year) + DaysBeforeMonth(year, month) + d.day - 1
  }

  lemma Step4(y: int)
    ensures y / 4 - (y - 1) / 4 == if y % 4 == 0 then 1 else 0
  {
  }

  lemma Step100(y: int)
    ensures y / 100 - (y - 1) / 100 == if y % 100 == 0 then 1 else 0
    ensures y % 100 == 0 ==> y % 4 == 0
  {
    if y % 100 == 0 {
      assert y == 4 * (25 * (y / 100));
    }
  }

  lemma Step400(y: int)
    ensures y / 400 - (y - 1) / 400 == if y % 400 == 0 then 1 else 0
    ensures y % 400 == 0 ==> y % 100 == 0
  {
    if y % 400 == 0 {
      assert y == 100 * (4 * (y / 400));
    }
  }

  lemma YearSteps(y: int)
    ensures DaysBeforeYear(y + 1) == DaysBeforeYear(y) + YearLength(y)
  {
    Step4(y);
    Step100(y);
    Step400(y);
    var (q4, q100, q400) := (y / 4, y / 100, y / 400);
    assert LeapsBefore(y + 1) == q4 - q100 + q400;
  }

  lemma MonthSteps(y: int, m: int)
    requires 1 <= m <= 12
    ensures DaysBeforeMonth(y, m + 1) == DaysBeforeMonth(y, m) + MonthLength(y, m)
    ensures DaysBeforeMonth(y, m + 1) <= YearLength(y)
  {
    assert m == 1 || m == 2 || m == 3 || m == 4 || m == 5 || m == 6
        || m == 7 || m == 8 || m == 9 || m == 10 || m == 11 || m == 12;
  }

  lemma DayOfNormalDate(d: Date)
    requires 1 <= d.month <= 12
    ensures DayOf(d) == DaysBeforeYear(d.year) + DaysBeforeMonth(d.year, d.month) + d.day - 1
  {
    assert (d.month - 1) / 12 == 0 && (d.month - 1) % 12 == d.month - 1;
  }

  lemma {:induction false} YearsAscend(y: int, z: int)
    requires y < z
    ensures DaysBeforeYear(y) + YearLength(y) <= DaysBeforeYear(z)
    decreases z - y
  {
    YearSteps(y);
    if y + 1 < z {
      YearsAscend(y + 1, z);
    }
  }

  lemma LongAgo(n: int)
    requires n < 0
    ensures DaysBeforeYear(1970 + n) <= n
  {
    assert LeapsBefore(1970) == LEAPS_BEFORE_1970;
    YearsAscend(1970 + n, 1970);
    var y := 1969 + n;
    assert 4 * (y / 4) <= y && 100 * (y / 100) > y - 100 && 400 * (y / 400) <= y;
  }

  function YearFrom(n: int, y: int): (r: int)
    requires DaysBeforeYear(y) <= n
    ensures DaysBeforeYear(r) <= n < DaysBeforeYear(r + 1)
    decreases n - DaysBeforeYear(y)
  {
    YearSteps(y);
    if n < DaysBeforeYear(y + 1) then y else YearFrom(n, y + 1)
  }

  function YearOf(n: int): (r: int)
    ensures DaysBeforeYear(r) <= n < DaysBeforeYear(r + 1)
  {
    if n >= 0 then assert LeapsBefore(1970) == LEAPS_BEFORE_1970; YearFrom(n, 1970)
    else LongAgo(n); YearFrom(n, 1970 + n)
  }

  function MonthFrom(y: int, rest: int, m: int): (r: int)
    requires 1 <= m <= 12 && DaysBeforeMonth(y, m) <= rest < YearLength(y)
    ensures 1 <= r <= 12 && DaysBeforeMonth(y, r) <= rest < DaysBeforeMonth(y, r + 1)
    decreases 12 - m
  {
    if rest < DaysBeforeMonth(y, m + 1) then m else MonthFrom(y, rest, m + 1)
  }

  /** The calendar date of a day. */
  function Civil(n: int): (d: Date)
    ensures ValidDate(d) && DayOf(d) == n
  {
    var year := YearOf(n);
    YearSteps(year);
    var rest := n - DaysBeforeYear(year);
    var month := MonthFrom(year, rest, 1);
    MonthSteps(year, month);
    var d := Date(year, month, rest - DaysBeforeMonth(year, month) + 1);
    DayOfNormalDate(d);
    d
  }

  predicate DateLess(a: Date, b: Date) {
    a.year < b.year
    || (a.year == b.year && (a.month < b.month || (a.month == b.month && a.day < b.day)))
  }

  lemma DatesAscend(a: Date, b: Date)
    requires ValidDate(a) && ValidDate(b) && DateLess(a, b)
    ensures DayOf(a) < DayOf(b)
  {
    DayOfNormalDate(a);
    DayOfNormalDate(b);
    MonthSteps(a.year, a.month);
    if a.year < b.year {
      YearsAscend(a.year, b.year);
    }
  }

  /** Days and valid dates correspond one to one, in order. */
  lemma CalendarIsAnOrderIsomorphism(a: Date, b: Date)
    requires ValidDate(a) && ValidDate(b)
    ensures Civil(DayOf(a)) == a
    ensures DayOf(a) < DayOf(b) <==> DateLess(a, b)
  {
    var c := Civil(DayOf(a));
    if DateLess(a, c) {
      DatesAscend(a, c);
    } else if DateLess(c, a) {
      DatesAscend(c, a);
    }
    if DateLess(a, b) {
      DatesAscend(a, b);
    } else if DateLess(b, a) {
      DatesAscend(b, a);
    } else {
      assert a == b;
    }
  }

  /** Go's AddDate(0, n, 0): the month moves, the day of month and the wall clock stay. */
  function AddMonths(t: Time, n: int): Time {
    var d := Civil(LocalDay(t));
    At(DayOf(d.(month := d.month + n)), SecondOfDay(t), t.offset)
  }

  lemma NextMonthIsLater(d: Date)
    requires ValidDate(d)
    ensures DayOf(d) + 28 <= DayOf(d.(month := d.month + 1)) <= DayOf(d) + 31
  {
    DayOfNormalDate(d);
    MonthSteps(d.year, d.month);
    if d.month == 12 {
      YearSteps(d.year);
      assert (d.month + 1 - 1) / 12 == 1 && (d.month + 1 - 1) % 12 == 0;
    } else {
      DayOfNormalDate(d.(month := d.month + 1));
    }
  }

  lemma EarlyMarch(day: int)
    ensures DayOf(Date(2026, 3, day)) == 20512 + day
  {
    hide DayOf;
    DayOfNormalDate(Date(2026, 3, day));
    assert DaysBeforeYear(2026) == 20454 && DaysBeforeMonth(2026, 3) == 59;
  }

  /** The seven weekdays in turn, on the calendar's own dates: 6 March 2026 is a Friday. */
  lemma WeekdaysInTurn(n: int)
    ensures Weekday(DayOf(Date(2026, 3, 6))) == FRIDAY == 5
    ensures Weekday(n + 1) == (Weekday(n) + 1) % 7
    ensures !IsWeekday(n) <==> (n - DayOf(Date(2026, 3, 7))) % 7 == 0 || (n - DayOf(Date(2026, 3, 8))) % 7 == 0
  {
    hide DayOf;
    EarlyMarch(6);
    EarlyMarch(7);
    EarlyMarch(8);
  }

  lemma OneDayOn(d: Date)
    requires 1 <= d.month <= 12
    ensures DayOf(d.(day := d.day + 1)) == DayOf(d) + 1
  {
    DayOfNormalDate(d);
    DayOfNormalDate(d.(day := d.day + 1));
  }

  /** Day 0 is 1 January 1970, and days follow one another as dates do. */
  lemma DaysCountFromTheEpoch(d: Date)
    requires ValidDate(d)
    ensures DayOf(Date(1970, 1, 1)) == 0
    ensures d.day < MonthLength(d.year, d.month) ==> DayOf(d.(day := d.day + 1)) == DayOf(d) + 1
    ensures d.day == MonthLength(d.year, d.month) && d.month < 12 ==>
              DayOf(Date(d.year, d.month + 1, 1)) == DayOf(d) + 1
    ensures d.day == MonthLength(d.year, d.month) && d.month == 12 ==>
              DayOf(Date(d.year + 1, 1, 1)) == DayOf(d) + 1
  {
    DayOfNormalDate(d);
    OneDayOn(d);
    MonthSteps(d.year, d.month);
    YearSteps(d.year);
    if d.month < 12 {
      DayOfNormalDate(Date(d.year, d.month + 1, 1));
    } else {
      DayOfNormalDate(Date(d.year + 1, 1, 1));
      assert DaysBeforeMonth(d.year, 13) == YearLength(d.year);
    }
    hide DayOf, DaysBeforeYear, DaysBeforeMonth, YearLength;
    EpochIsDayZero();
  }

  lemma EpochIsDayZero()
    ensures DayOf(Date(1970, 1, 1)) == 0
  {
  }

  /** The Gregorian month lengths, leap years by the 4, 100 and 400 rule. */
  lemma MonthsOfTheCalendar()
    ensures forall y :: MonthLength(y, 2) == if (y % 4 == 0 && y % 100 != 0) || y % 400 == 0 then 29 else 28
    ensures forall y, m :: m in {4, 6, 9, 11} ==> MonthLength(y, m) == 30
    ensures forall y, m :: m in {1, 3, 5, 7, 8, 10, 12} ==> MonthLength(y, m) == 31
  {
  }
}

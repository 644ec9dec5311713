/** The last settled trading day, computed three times over in the repository:
    for capital flow (15:30 cutoff), for the fundamentals history and for the daily
    simulation (both 13:30). Holidays are not consulted by any of the three. */
module TradingDay {
  import opened Wrappers
  import opened Calendar
  import opened DateText

  const CLOSE := 13 * 3600 + 30 * 60
  const SETTLEMENT := 15 * 3600 + 30 * 60

  predicate IsSettled(day: int, now: Time, cutoff: int) {
    IsWeekday(day) && At(day, cutoff, TAIPEI).unix <= now.unix
  }

  /** The specification: the greatest weekday whose cutoff is not after now. */
  ghost predicate IsLastSettled(day: int, now: Time, cutoff: int) {
    IsSettled(day, now, cutoff) && forall d :: IsSettled(d, now, cutoff) ==> d <= day
  }

  function TaipeiDay(now: Time): int {
    LocalDay(In(now, TAIPEI))
  }

  function TaipeiSecond(now: Time): int {
    SecondOfDay(In(now, TAIPEI))
  }

  function WeekdayOnOrBefore(day: int): int {
    if Weekday(day) == SATURDAY then day - 1
    else if Weekday(day) == SUNDAY then day - 2
    else day
  }

  function WeekdayOnOrAfter(day: int): int {
    if Weekday(day) == SATURDAY then day + 2
    else if Weekday(day) == SUNDAY then day + 1
    else day
  }

  function LastSettled(now: Time, cutoff: int): int {
    WeekdayOnOrBefore(if TaipeiSecond(now) < cutoff then TaipeiDay(now) - 1 else TaipeiDay(now))
  }

  lemma SettledAtCutoff(day: int, now: Time, cutoff: int)
    requires 0 <= cutoff < SECONDS_PER_DAY
    ensures At(day, cutoff, TAIPEI).unix <= now.unix
       <==> day < TaipeiDay(now) || (day == TaipeiDay(now) && cutoff <= TaipeiSecond(now))
  {
    assert now.unix + TAIPEI == TaipeiDay(now) * SECONDS_PER_DAY + TaipeiSecond(now);
  }

  lemma NearestWeekdays(day: int)
    ensures IsWeekday(WeekdayOnOrBefore(day)) && WeekdayOnOrBefore(day) <= day
    ensures forall d :: IsWeekday(d) && d <= day ==> d <= WeekdayOnOrBefore(day)
    ensures IsWeekday(WeekdayOnOrAfter(day)) && WeekdayOnOrAfter(day) >= day
    ensures forall d :: IsWeekday(d) && d >= day ==> d >= WeekdayOnOrAfter(day)
  {
  }

  lemma LastSettledIsGreatest(now: Time, cutoff: int)
    requires 0 <= cutoff < SECONDS_PER_DAY
    ensures IsLastSettled(LastSettled(now, cutoff), now, cutoff)
    ensures forall d :: IsLastSettled(d, now, cutoff) ==> d == LastSettled(now, cutoff)
  {
    var limit := if TaipeiSecond(now) < cutoff then TaipeiDay(now) - 1 else TaipeiDay(now);
    NearestWeekdays(limit);
    forall d ensures IsSettled(d, now, cutoff) <==> IsWeekday(d) && d <= limit {
      SettledAtCutoff(d, now, cutoff);
    }
  }

  /** Two cutoffs disagree exactly on weekdays between them; there the later one
      still answers the previous weekday. */
  lemma CutoffsDisagreeBetweenThem(now: Time, early: int, late: int)
    requires 0 <= early < late < SECONDS_PER_DAY
    ensures LastSettled(now, early) != LastSettled(now, late)
       <==> IsWeekday(TaipeiDay(now)) && early <= TaipeiSecond(now) < late
    ensures LastSettled(now, early) != LastSettled(now, late) ==>
              && LastSettled(now, early) == TaipeiDay(now)
              && LastSettled(now, late) == WeekdayOnOrBefore(TaipeiDay(now) - 1)
  {
    var today := TaipeiDay(now);
    assert WeekdayOnOrBefore(today) == WeekdayOnOrBefore(today - 1) <==> !IsWeekday(today);
  }

  function Utc(date: Date, hour: int, minute: int, second: int): Time {
    Time(DayOf(date) * 86400 + hour * 3600 + minute * 60 + second, 0)
  }

  /** On Saturday 7 March 2026 at 16:00 in Taipei, 08:00 in UTC, both answers are Friday the 6th;
      on Monday the 9th the later one stays there until 15:30, the earlier one until 13:30. */
  lemma FridayOverTheWeekend()
    ensures var (friday, monday) := (DayOf(Date(2026, 3, 6)), DayOf(Date(2026, 3, 9)));
      && LastSettled(Utc(Date(2026, 3, 7), 8, 0, 0), SETTLEMENT) == friday
      && LastSettled(Utc(Date(2026, 3, 7), 8, 0, 0), CLOSE) == friday
      && LastSettled(Utc(Date(2026, 3, 9), 7, 29, 59), SETTLEMENT) == friday
      && LastSettled(Utc(Date(2026, 3, 9), 7, 30, 0), SETTLEMENT) == monday
      && LastSettled(Utc(Date(2026, 3, 9), 5, 29, 59), CLOSE) == friday
      && LastSettled(Utc(Date(2026, 3, 9), 5, 30, 0), CLOSE) == monday
  {
    hide DayOf;
    EarlyMarch(6);
    EarlyMarch(7);
    EarlyMarch(9);
  }

  /** operations_tasks.go: the capital-flow trading date. */
  method CurrentTaipeiTradingDate(now: Time) returns (d: Time)
    ensures d == Midnight(LastSettled(now, SETTLEMENT), TAIPEI)
    ensures IsLastSettled(LocalDay(d), now, SETTLEMENT)
  {
    var local := In(now, TAIPEI);
    d := Midnight(LocalDay(local), TAIPEI);
    if Hour(local) < 15 || (Hour(local) == 15 && Minute(local) < 30) {
      d := AddDays(d, -1);
    }
    if Weekday(LocalDay(d)) == SATURDAY {
      d := AddDays(d, -1);
    } else if Weekday(LocalDay(d)) == SUNDAY {
      d := AddDays(d, -2);
    }
    LastSettledIsGreatest(now, SETTLEMENT);
  }

  /** The weekday previousWeekday stops at; the caller formats it. */
  method PreviousWeekday(start: Time) returns (t: Time)
    ensures LocalDay(t) == WeekdayOnOrBefore(LocalDay(start))
  {
    t := start;
    while !IsWeekday(LocalDay(t))
      invariant LocalDay(t) <= LocalDay(start)
      invariant WeekdayOnOrBefore(LocalDay(t)) == WeekdayOnOrBefore(LocalDay(start))
      decreases LocalDay(t) - WeekdayOnOrBefore(LocalDay(start))
    {
      t := AddDays(t, -1);
    }
  }

  method RecentTradingDay(clock: Time) returns (day: int)
    ensures day == LastSettled(clock, CLOSE)
  {
    var t := In(clock, TAIPEI);
    if Hour(t) < 13 || (Hour(t) == 13 && Minute(t) < 30) {
      t := PreviousWeekday(AddDays(t, -1));
      return LocalDay(t);
    }
    if Weekday(LocalDay(t)) == SATURDAY {
      return LocalDay(AddDays(t, -1));
    } else if Weekday(LocalDay(t)) == SUNDAY {
      return LocalDay(AddDays(t, -2));
    }
    return LocalDay(t);
  }

  /** append-fundamentals-history: the -date flag, or the last settled day at 13:30. */
  method ResolveTradingDate(flag: string, clock: Time) returns (r: Result<string, string>)
    ensures flag != "" ==> r == if ParseDay(flag).Some? then Ok(flag) else Err("invalid -date")
    ensures flag == "" ==> r == Ok(FormatDay(LastSettled(clock, CLOSE)))
  {
    if flag != "" {
      if ParseDay(flag).None? {
        return Err("invalid -date");
      }
      return Ok(flag);
    }
    var day := RecentTradingDay(clock);
    return Ok(FormatDay(day));
  }

  /** auto_daily_simulation: the instant of the last market close. The name the source
      gives it, nextClose, notwithstanding, it is never after now. */
  method SimulationClose(clock: Time) returns (close: Time)
    ensures close == At(LastSettled(clock, CLOSE), CLOSE, TAIPEI)
    ensures IsLastSettled(LocalDay(close), clock, CLOSE)
  {
    var now := In(clock, TAIPEI);
    close := At(LocalDay(now), CLOSE, TAIPEI);
    SettledAtCutoff(LocalDay(now), now, CLOSE);
    ghost var first, day := LocalDay(now), LocalDay(now);
    if now.unix < close.unix {
      close := close.(unix := close.unix - 24 * 3600);
      first, day := day - 1, day - 1;
    }
    assert WeekdayOnOrBefore(first) == LastSettled(clock, CLOSE);
    LastSettledIsGreatest(clock, CLOSE);
    hide LastSettled, IsLastSettled;
    CloseIsOn(day);
    while Weekday(LocalDay(close)) == SATURDAY || Weekday(LocalDay(close)) == SUNDAY
      invariant close == At(day, CLOSE, TAIPEI) && LocalDay(close) == day
      invariant WeekdayOnOrBefore(day) == WeekdayOnOrBefore(first)
      decreases day - WeekdayOnOrBefore(first)
    {
      close := AddDays(close, -1);
      day := day - 1;
      CloseIsOn(day);
    }
  }

  lemma CloseIsOn(day: int)
    ensures LocalDay(At(day, CLOSE, TAIPEI)) == day
  {
  }
}

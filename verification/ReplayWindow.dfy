/** The fetch window of the replay backfill: the trading days the CSV still misses. */
module ReplayWindow {
  import opened Calendar
  import opened TradingDay

  /** The Taipei calendar day a record's timestamp falls on. */
  function RecordDay(t: Time): int {
    LocalDay(In(t, TAIPEI))
  }

  function RecordTaipeiDate(t: Time): Time {
    Midnight(RecordDay(t), TAIPEI)
  }

  /** A date-only value means the same day whether its parser put it at midnight UTC or at
      midnight in Taipei; midnights of zones more than 8 hours east or 16 hours west do not. */
  lemma MidnightZoneDoesNotMatter(day: int, offset: int)
    ensures RecordDay(Midnight(day, 0)) == RecordDay(Midnight(day, TAIPEI)) == day
    ensures RecordDay(Midnight(day, offset)) == day <==> -57600 < offset <= TAIPEI
  {
    assert Midnight(day, offset).unix + TAIPEI == day * SECONDS_PER_DAY + (TAIPEI - offset);
  }

  method NextTradingDate(from: Time) returns (d: Time)
    ensures d == AddDays(from, WeekdayOnOrAfter(LocalDay(from)) - LocalDay(from))
    ensures LocalDay(d) == WeekdayOnOrAfter(LocalDay(from))
  {
    d := from;
    while Weekday(LocalDay(d)) == SATURDAY || Weekday(LocalDay(d)) == SUNDAY
      invariant d == AddDays(from, LocalDay(d) - LocalDay(from))
      invariant LocalDay(from) <= LocalDay(d)
      invariant WeekdayOnOrAfter(LocalDay(d)) == WeekdayOnOrAfter(LocalDay(from))
      decreases WeekdayOnOrAfter(LocalDay(from)) - LocalDay(d)
    {
      d := AddDays(d, 1);
    }
  }

  ghost predicate IsMissing(day: int, latest: Time, now: Time) {
    IsSettled(day, now, SETTLEMENT) && RecordDay(latest) < day
  }

  /** The window holds exactly the settled weekdays after the newest record, and
      start.After(end) exactly when there are none. */
  method ReplayBackfillWindow(latest: Time, now: Time) returns (start: Time, end: Time)
    ensures start == Midnight(WeekdayOnOrAfter(RecordDay(latest) + 1), TAIPEI)
    ensures end == Midnight(LastSettled(now, SETTLEMENT), TAIPEI)
    ensures forall d :: IsMissing(d, latest, now)
                   <==> IsWeekday(d) && LocalDay(start) <= d <= LocalDay(end)
    ensures end.unix < start.unix <==> !exists d :: IsMissing(d, latest, now)
  {
    end := CurrentTaipeiTradingDate(now);
    start := NextTradingDate(AddDays(RecordTaipeiDate(latest), 1));
    WindowIsExact(RecordDay(latest), now);
  }

  lemma WindowIsExact(latest: int, now: Time)
    ensures forall d :: (IsSettled(d, now, SETTLEMENT) && latest < d)
                   <==> (IsWeekday(d) && WeekdayOnOrAfter(latest + 1) <= d <= LastSettled(now, SETTLEMENT))
    ensures LastSettled(now, SETTLEMENT) < WeekdayOnOrAfter(latest + 1)
       <==> forall d :: IsSettled(d, now, SETTLEMENT) ==> d <= latest
  {
    LastSettledIsGreatest(now, SETTLEMENT);
    NearestWeekdays(latest + 1);
    forall d ensures IsSettled(d, now, SETTLEMENT) <==> IsWeekday(d) && d <= LastSettled(now, SETTLEMENT) {
      SettledAtCutoff(d, now, SETTLEMENT);
      SettledAtCutoff(LastSettled(now, SETTLEMENT), now, SETTLEMENT);
    }
  }

  /** Once the CSV has reached `end`, the next window is empty until a new day settles. */
  lemma CaughtUpMeansEmptyWindow(now: Time, later: Time)
    ensures var end := LastSettled(now, SETTLEMENT);
      LastSettled(later, SETTLEMENT) < WeekdayOnOrAfter(end + 1)
      <==> LastSettled(later, SETTLEMENT) <= end
  {
    LastSettledIsGreatest(now, SETTLEMENT);
    LastSettledIsGreatest(later, SETTLEMENT);
    NearestWeekdays(LastSettled(now, SETTLEMENT) + 1);
  }
}

/** The auto_twse_sbl task: one fetch per Taipei weekday from 15:00 on, and a catch-up
    from 08:00 on the day after the shared quota ran out. */
module SblTask {
  import opened Wrappers
  import opened Calendar
  import opened DateText
  import opened TradingDay

  const QUOTA_RESET_HOUR := 8
  const REGULAR_HOUR := 15

  /** What the gateway answers if the task asks it. */
  datatype Outcome = Fetched | QuotaExhausted | Failed

  datatype Tick = Tick(now: Time, outcome: Outcome)

  /** The two in-memory guards: Taipei dates, or "" when unset. */
  datatype Guards = Guards(lastFetchDay: string, quotaDeferredDay: string)

  const FRESH := Guards("", "")

  function TaipeiHour(now: Time): int {
    Hour(In(now, TAIPEI))
  }

  function TaipeiDateString(now: Time): string {
    FormatDay(TaipeiDay(now))
  }

  predicate QuotaCatchUpAllowed(now: Time, quotaDeferredDay: string) {
    && quotaDeferredDay != ""
    && var d := ParseDay(quotaDeferredDay);
       && d.Some?
       && TaipeiDateString(now) == FormatDay(d.value + 1)
       && TaipeiHour(now) >= QUOTA_RESET_HOUR
  }

  /** Whether to fetch, and otherwise why not. */
  function FetchGate(now: Time, lastFetchDay: string, quotaDeferredDay: string): (bool, string) {
    if !IsWeekday(TaipeiDay(now)) then (false, "weekend")
    else if QuotaCatchUpAllowed(now, quotaDeferredDay) then (true, "")
    else if TaipeiHour(now) < REGULAR_HOUR then (false, "before_15")
    else if lastFetchDay == TaipeiDateString(now) then (false, "already_fetched_today")
    else (true, "")
  }

  predicate Attempts(g: Guards, now: Time) {
    FetchGate(now, g.lastFetchDay, g.quotaDeferredDay).0
  }

  function Step(g: Guards, t: Tick): Guards {
    if !Attempts(g, t.now) then g
    else match t.outcome
      case Fetched => Guards(TaipeiDateString(t.now), "")
      case QuotaExhausted => g.(quotaDeferredDay := TaipeiDateString(t.now))
      case Failed => g
  }

  /** The task closure with its captured variables. */
  class Task {
    var lastFetchDay: string
    var quotaDeferredDay: string

    function State(): Guards
      reads this
    {
      Guards(lastFetchDay, quotaDeferredDay)
    }

    constructor ()
      ensures State() == FRESH
    {
      lastFetchDay, quotaDeferredDay := "", "";
    }

    /** One tick. A quota exhaustion is not reported as a task error. */
    method Run(now: Time, outcome: Outcome) returns (attempted: bool, failed: bool)
      modifies this
      ensures State() == Step(old(State()), Tick(now, outcome))
      ensures attempted == Attempts(old(State()), now)
      ensures failed <==> attempted && outcome == Failed
    {
      var gate := FetchGate(now, lastFetchDay, quotaDeferredDay);
      if !gate.0 {
        return false, false;
      }
      var today := TaipeiDateString(now);
      if outcome == Fetched {
        lastFetchDay := today;
        quotaDeferredDay := "";
        return true, false;
      }
      if outcome == QuotaExhausted {
        quotaDeferredDay := today;
        return true, false;
      }
      return true, true;
    }
  }

  // ---------------------------------------------------------------- runs

  datatype Attempt = Attempt(day: int, hour: int, catchUp: bool, outcome: Outcome)

  function AttemptAt(t: Tick, catchUp: bool): Attempt {
    Attempt(TaipeiDay(t.now), TaipeiHour(t.now), catchUp, t.outcome)
  }

  function RunTicks(g: Guards, ticks: seq<Tick>): Guards
    decreases ticks
  {
    if ticks == [] then g else RunTicks(Step(g, ticks[0]), ticks[1..])
  }

  /** The fetches attempted over a run. */
  function Log(g: Guards, ticks: seq<Tick>): seq<Attempt>
    decreases ticks
  {
    if ticks == [] then []
    else
      (if Attempts(g, ticks[0].now)
       then [AttemptAt(ticks[0], QuotaCatchUpAllowed(ticks[0].now, g.quotaDeferredDay))] else [])
      + Log(Step(g, ticks[0]), ticks[1..])
  }

  /** The log has one entry for each tick that passes the gate, telling when it was, whether
      the catch-up window was open, and what came of it. */
  lemma {:induction false} LogInTurn(g: Guards, ticks: seq<Tick>, t: Tick)
    ensures var before := RunTicks(g, ticks);
      && Log(g, ticks + [t]) == Log(g, ticks)
         + (if FetchGate(t.now, before.lastFetchDay, before.quotaDeferredDay).0
            then [Attempt(LocalDay(In(t.now, TAIPEI)), Hour(In(t.now, TAIPEI)),
                          QuotaCatchUpAllowed(t.now, before.quotaDeferredDay), t.outcome)]
            else [])
      && RunTicks(g, ticks + [t]) == Step(before, t)
    ensures Log(g, []) == [] && RunTicks(g, []) == g
    decreases ticks
  {
    hide FetchGate, QuotaCatchUpAllowed, Step;
    if ticks == [] {
      assert [] + [t] == [t] && [t][1..] == [];
    } else {
      assert (ticks + [t])[1..] == ticks[1..] + [t];
      LogInTurn(Step(g, ticks[0]), ticks[1..], t);
    }
  }

  /** A clock that never goes back, in years the date layout can write. */
  ghost predicate Orderly(ticks: seq<Tick>) {
    && (forall i :: 0 <= i < |ticks| ==> Writable(TaipeiDay(ticks[i].now)))
    && (forall i, j :: 0 <= i < j < |ticks| ==> ticks[i].now.unix <= ticks[j].now.unix)
  }

  ghost predicate Writable(day: int) {
    FourDigitYear(day) && FourDigitYear(day + 1)
  }

  // The same machine with days in place of their date strings.

  datatype Days = Days(last: Option<int>, deferred: Option<int>)

  predicate CatchUpDay(s: Days, day: int, hour: int) {
    s.deferred == Some(day - 1) && hour >= QUOTA_RESET_HOUR
  }

  predicate DayAttempts(s: Days, day: int, hour: int) {
    IsWeekday(day) && (CatchUpDay(s, day, hour) || (hour >= REGULAR_HOUR && s.last != Some(day)))
  }

  function DayStep(s: Days, day: int, hour: int, outcome: Outcome): Days {
    if !DayAttempts(s, day, hour) then s
    else match outcome
      case Fetched => Days(Some(day), None)
      case QuotaExhausted => s.(deferred := Some(day))
      case Failed => s
  }

  function DayLog(s: Days, ticks: seq<Tick>): seq<Attempt>
    decreases ticks
  {
    if ticks == [] then []
    else
      var day, hour := TaipeiDay(ticks[0].now), TaipeiHour(ticks[0].now);
      (if DayAttempts(s, day, hour) then [AttemptAt(ticks[0], CatchUpDay(s, day, hour))] else [])
      + DayLog(DayStep(s, day, hour, ticks[0].outcome), ticks[1..])
  }

  ghost predicate Writes(text: string, day: Option<int>) {
    match day
    case None => text == ""
    case Some(d) => Writable(d) && text == FormatDay(d)
  }

  ghost predicate Represents(g: Guards, s: Days) {
    Writes(g.lastFetchDay, s.last) && Writes(g.quotaDeferredDay, s.deferred)
  }

  lemma SameDay(a: int, b: int)
    requires FourDigitYear(a) && FourDigitYear(b)
    ensures FormatDay(a) == FormatDay(b) <==> a == b
  {
    FormattedDayParses(a);
    FormattedDayParses(b);
  }

  lemma GuardReadsDay(text: string, guard: Option<int>, today: int)
    requires Writes(text, guard) && Writable(today)
    ensures text == FormatDay(today) <==> guard == Some(today)
  {
    match guard
    case None => FormattedDayParses(today);
    case Some(d) => SameDay(d, today);
  }

  lemma CatchUpReadsText(now: Time, text: string, d: int)
    requires text != "" && ParseDay(text) == Some(d) && FourDigitYear(d + 1) && Writable(TaipeiDay(now))
    ensures QuotaCatchUpAllowed(now, text)
       <==> d == TaipeiDay(now) - 1 && TaipeiHour(now) >= QUOTA_RESET_HOUR
  {
    hide FormatDay;
    SameDay(d + 1, TaipeiDay(now));
  }

  lemma CatchUpReadsDay(now: Time, text: string, guard: Option<int>)
    requires Writes(text, guard) && Writable(TaipeiDay(now))
    ensures QuotaCatchUpAllowed(now, text)
       <==> guard == Some(TaipeiDay(now) - 1) && TaipeiHour(now) >= QUOTA_RESET_HOUR
  {
    hide FormatDay;
    if guard.Some? {
      FormattedDayParses(guard.value);
      CatchUpReadsText(now, text, guard.value);
    }
  }

  lemma StepRefines(g: Guards, s: Days, t: Tick)
    requires Represents(g, s) && Writable(TaipeiDay(t.now))
    ensures var (day, hour) := (TaipeiDay(t.now), TaipeiHour(t.now));
      && (Attempts(g, t.now) <==> DayAttempts(s, day, hour))
      && (QuotaCatchUpAllowed(t.now, g.quotaDeferredDay) <==> CatchUpDay(s, day, hour))
      && Represents(Step(g, t), DayStep(s, day, hour, t.outcome))
  {
    hide FormatDay;
    CatchUpReadsDay(t.now, g.quotaDeferredDay, s.deferred);
    GuardReadsDay(g.lastFetchDay, s.last, TaipeiDay(t.now));
  }

  lemma {:induction false} LogRefines(g: Guards, s: Days, ticks: seq<Tick>)
    requires Represents(g, s) && Orderly(ticks)
    ensures Log(g, ticks) == DayLog(s, ticks)
    decreases ticks
  {
    if ticks != [] {
      StepRefines(g, s, ticks[0]);
      var day, hour := TaipeiDay(ticks[0].now), TaipeiHour(ticks[0].now);
      LogRefines(Step(g, ticks[0]), DayStep(s, day, hour, ticks[0].outcome), ticks[1..]);
    }
  }

  /** Guards as runs leave them: the last fetch precedes the pending deferral, and neither
      lies ahead of the clock. */
  ghost predicate Reached(s: Days, today: int) {
    && (s.last.Some? ==> s.last.value <= today)
    && (s.deferred.Some? ==> s.deferred.value <= today)
    && (s.last.Some? && s.deferred.Some? ==> s.last.value < s.deferred.value)
  }

  lemma StepKeepsReached(s: Days, today: int, day: int, hour: int, outcome: Outcome)
    requires Reached(s, today) && today <= day
    ensures Reached(DayStep(s, day, hour, outcome), day)
  {
  }

  lemma ClockDays(a: Time, b: Time)
    requires a.unix <= b.unix
    ensures TaipeiDay(a) <= TaipeiDay(b)
  {
  }

  ghost predicate NotBefore(ticks: seq<Tick>, today: int) {
    forall i :: 0 <= i < |ticks| ==> today <= TaipeiDay(ticks[i].now)
  }

  lemma OrderlyTail(ticks: seq<Tick>)
    requires Orderly(ticks) && ticks != []
    ensures Orderly(ticks[1..]) && NotBefore(ticks[1..], TaipeiDay(ticks[0].now))
  {
    forall i | 0 <= i < |ticks[1..]| ensures TaipeiDay(ticks[0].now) <= TaipeiDay(ticks[1..][i].now) {
      assert ticks[1..][i] == ticks[i + 1];
      ClockDays(ticks[0].now, ticks[i + 1].now);
    }
  }

  ghost predicate FetchEndsTheDay(log: seq<Attempt>) {
    forall i, j :: 0 <= i < j < |log| && log[i].outcome == Fetched ==> log[i].day < log[j].day
  }

  lemma {:induction false} LaterDaysOnly(s: Days, ticks: seq<Tick>, day: int)
    requires NotBefore(ticks, day)
    ensures forall a :: a in DayLog(s, ticks) ==> a.day >= day
    decreases ticks
  {
    if ticks != [] {
      var today, hour := TaipeiDay(ticks[0].now), TaipeiHour(ticks[0].now);
      LaterDaysOnly(DayStep(s, today, hour, ticks[0].outcome), ticks[1..], day);
    }
  }

  lemma {:induction false} NothingAfterTodaysFetch(s: Days, today: int, ticks: seq<Tick>)
    requires Orderly(ticks) && NotBefore(ticks, today) && s == Days(Some(today), None)
    ensures forall a :: a in DayLog(s, ticks) ==> a.day > today
    decreases ticks
  {
    if ticks != [] {
      OrderlyTail(ticks);
      if TaipeiDay(ticks[0].now) == today {
        NothingAfterTodaysFetch(s, today, ticks[1..]);
      } else {
        var day := TaipeiDay(ticks[0].now);
        assert NotBefore(ticks, day) by {
          forall i | 0 <= i < |ticks| ensures day <= TaipeiDay(ticks[i].now) {
            if i > 0 {
              assert ticks[i] == ticks[1..][i - 1];
            }
          }
        }
        LaterDaysOnly(s, ticks, day);
      }
    }
  }

  lemma OneMoreAttempt(head: seq<Attempt>, rest: seq<Attempt>)
    requires |head| <= 1 && FetchEndsTheDay(rest)
    requires forall h, a :: h in head && a in rest && h.outcome == Fetched ==> h.day < a.day
    ensures FetchEndsTheDay(head + rest)
  {
    var log := head + rest;
    forall i, j | 0 <= i < j < |log| && log[i].outcome == Fetched ensures log[i].day < log[j].day {
      assert log[j] == rest[j - |head|];
      if i < |head| {
        assert log[i] in head && log[j] in rest;
      } else {
        assert log[i] == rest[i - |head|];
      }
    }
  }

  lemma {:induction false} DayFetchEndsTheDay(s: Days, ticks: seq<Tick>)
    requires Orderly(ticks)
    ensures FetchEndsTheDay(DayLog(s, ticks))
    decreases ticks
  {
    if ticks != [] {
      var day, hour := TaipeiDay(ticks[0].now), TaipeiHour(ticks[0].now);
      var next := DayStep(s, day, hour, ticks[0].outcome);
      var head := if DayAttempts(s, day, hour) then [AttemptAt(ticks[0], CatchUpDay(s, day, hour))] else [];
      OrderlyTail(ticks);
      DayFetchEndsTheDay(next, ticks[1..]);
      if head != [] && ticks[0].outcome == Fetched {
        NothingAfterTodaysFetch(next, day, ticks[1..]);
      }
      OneMoreAttempt(head, DayLog(next, ticks[1..]));
    }
  }

  /** After a successful fetch nothing more is attempted that Taipei day; so there is at
      most one successful fetch a day, and a catch-up takes the place of the 15:00 slot. */
  lemma SuccessfulFetchEndsTheDay(ticks: seq<Tick>)
    requires Orderly(ticks)
    ensures FetchEndsTheDay(Log(FRESH, ticks))
  {
    LogRefines(FRESH, Days(None, None), ticks);
    DayFetchEndsTheDay(Days(None, None), ticks);
  }

  /** Attempt j answers the deferral of attempt i: the quota ran out the day before and
      nothing has been fetched since. */
  ghost predicate CatchesUp(log: seq<Attempt>, i: int, j: int) {
    && 0 <= i < j < |log|
    && log[i].outcome == QuotaExhausted && log[i].day == log[j].day - 1
    && forall k :: i < k < j ==> log[k].outcome != Fetched
  }

  ghost predicate Justified(log: seq<Attempt>, j: int)
    requires 0 <= j < |log|
  {
    && IsWeekday(log[j].day)
    && (log[j].catchUp ==> log[j].hour >= 8 && exists i :: CatchesUp(log, i, j))
    && (!log[j].catchUp ==> log[j].hour >= 15)
  }

  /** `before` is the log that led to the guards s. */
  ghost predicate Explains(before: seq<Attempt>, s: Days) {
    s.deferred.Some? ==>
      exists i :: && 0 <= i < |before|
                  && before[i].outcome == QuotaExhausted && before[i].day == s.deferred.value
                  && forall k :: i < k < |before| ==> before[k].outcome != Fetched
  }

  lemma {:induction false} DayAttemptsJustified(before: seq<Attempt>, s: Days, ticks: seq<Tick>)
    requires Explains(before, s)
    requires forall j :: 0 <= j < |before| ==> Justified(before, j)
    ensures var log := before + DayLog(s, ticks); forall j :: 0 <= j < |log| ==> Justified(log, j)
    decreases ticks
  {
    if ticks == [] {
      assert before + [] == before;
    } else {
      var day, hour := TaipeiDay(ticks[0].now), TaipeiHour(ticks[0].now);
      var next := DayStep(s, day, hour, ticks[0].outcome);
      var tried := if DayAttempts(s, day, hour) then [AttemptAt(ticks[0], CatchUpDay(s, day, hour))] else [];
      var log := before + tried;
      assert Explains(log, next) by {
        if tried != [] && ticks[0].outcome == QuotaExhausted {
          assert log[|before|].day == day;
        } else if next.deferred.Some? {
          var i :| && 0 <= i < |before|
                   && before[i].outcome == QuotaExhausted && before[i].day == s.deferred.value
                   && forall k :: i < k < |before| ==> before[k].outcome != Fetched;
          assert log[i] == before[i];
        }
      }
      forall j | 0 <= j < |log| ensures Justified(log, j) {
        if j < |before| {
          assert Justified(before, j);
          if before[j].catchUp {
            var i :| CatchesUp(before, i, j);
            assert CatchesUp(log, i, j);
          }
        } else if CatchUpDay(s, day, hour) {
          var i :| && 0 <= i < |before|
                   && before[i].outcome == QuotaExhausted && before[i].day == s.deferred.value
                   && forall k :: i < k < |before| ==> before[k].outcome != Fetched;
          assert CatchesUp(log, i, j);
        }
      }
      DayAttemptsJustified(log, next, ticks[1..]);
      assert before + DayLog(s, ticks) == log + DayLog(next, ticks[1..]);
    }
  }

  /** Never on a weekend; before 15:00 only from 08:00 on the day after a deferral. */
  lemma EveryAttemptIsJustified(ticks: seq<Tick>)
    requires Orderly(ticks)
    ensures forall j :: 0 <= j < |Log(FRESH, ticks)| ==> Justified(Log(FRESH, ticks), j)
  {
    LogRefines(FRESH, Days(None, None), ticks);
    DayAttemptsJustified([], Days(None, None), ticks);
    assert [] + Log(FRESH, ticks) == Log(FRESH, ticks);
  }

  ghost predicate HasCatchUp(log: seq<Attempt>, day: int) {
    exists a :: a in log && a.day == day && a.catchUp
  }

  ghost predicate HasTick(ticks: seq<Tick>, day: int, fromHour: int) {
    exists t :: t in ticks && TaipeiDay(t.now) == day && TaipeiHour(t.now) >= fromHour
  }

  ghost predicate RecoversOn(log: seq<Attempt>, day: int) {
    exists a :: a in log && a.day == day && a.outcome == Fetched
  }

  lemma {:induction false} DayCatchUp(s: Days, d: int, ticks: seq<Tick>)
    requires Orderly(ticks) && NotBefore(ticks, d) && s.deferred == Some(d)
    requires !RecoversOn(DayLog(s, ticks), d)
    ensures HasCatchUp(DayLog(s, ticks), d + 1)
       <==> IsWeekday(d + 1) && HasTick(ticks, d + 1, QUOTA_RESET_HOUR)
    decreases ticks
  {
    if ticks != [] {
      var day, hour := TaipeiDay(ticks[0].now), TaipeiHour(ticks[0].now);
      var next := DayStep(s, day, hour, ticks[0].outcome);
      var head := if DayAttempts(s, day, hour) then [AttemptAt(ticks[0], CatchUpDay(s, day, hour))] else [];
      var log, rest := DayLog(s, ticks), DayLog(next, ticks[1..]);
      assert log == head + rest;
      OrderlyTail(ticks);
      assert ticks == [ticks[0]] + ticks[1..];
      assert head != [] ==> head[0] in log;
      if day == d || (day == d + 1 && hour < QUOTA_RESET_HOUR) {
        assert next.deferred == Some(d);
        assert forall a :: a in rest ==> a in log;
        DayCatchUp(next, d, ticks[1..]);
        assert forall a :: a in head && a.day == d + 1 ==> !a.catchUp;
      } else if day == d + 1 {
        assert ticks[0] in ticks;
        if !IsWeekday(day) {
          WeekendIsQuiet(s, ticks, day);
        }
      } else {
        LaterDaysOnly(s, ticks, day);
        assert forall t :: t in ticks ==> TaipeiDay(t.now) >= day;
      }
    }
  }

  lemma {:induction false} WeekendIsQuiet(s: Days, ticks: seq<Tick>, day: int)
    requires !IsWeekday(day)
    ensures forall a :: a in DayLog(s, ticks) ==> a.day != day
    decreases ticks
  {
    if ticks != [] {
      var today, hour := TaipeiDay(ticks[0].now), TaipeiHour(ticks[0].now);
      WeekendIsQuiet(DayStep(s, today, hour, ticks[0].outcome), ticks[1..], day);
    }
  }

  lemma {:induction false} RunRefines(s: Days, today: int, g: Guards, ticks: seq<Tick>) returns (end: Days)
    requires Represents(g, s) && Reached(s, today) && Orderly(ticks) && NotBefore(ticks, today)
    ensures Represents(RunTicks(g, ticks), end)
    ensures Reached(end, if ticks == [] then today else TaipeiDay(ticks[|ticks| - 1].now))
    decreases ticks
  {
    if ticks == [] {
      end := s;
    } else {
      var day, hour := TaipeiDay(ticks[0].now), TaipeiHour(ticks[0].now);
      StepRefines(g, s, ticks[0]);
      StepKeepsReached(s, today, day, hour, ticks[0].outcome);
      OrderlyTail(ticks);
      end := RunRefines(DayStep(s, day, hour, ticks[0].outcome), day, Step(g, ticks[0]), ticks[1..]);
    }
  }

  lemma ReachedGuards(ticks: seq<Tick>) returns (s: Days)
    requires Orderly(ticks) && ticks != []
    ensures Represents(RunTicks(FRESH, ticks), s)
    ensures Reached(s, TaipeiDay(ticks[|ticks| - 1].now))
  {
    var today := TaipeiDay(ticks[0].now);
    forall i | 0 <= i < |ticks| ensures today <= TaipeiDay(ticks[i].now) {
      ClockDays(ticks[0].now, ticks[i].now);
    }
    s := RunRefines(Days(None, None), today, FRESH, ticks);
  }

  /** A fetch that fails for any other reason changes nothing: a later tick of the day asks
      again exactly from 15:00 on, or in the same catch-up. */
  lemma FailureIsRetried(before: seq<Tick>, t: Tick, retry: Time)
    requires before != [] && Orderly(before + [t])
    requires Attempts(RunTicks(FRESH, before), t.now) && t.outcome == Failed
    requires TaipeiDay(retry) == TaipeiDay(t.now) && TaipeiHour(retry) >= 15
    ensures Attempts(Step(RunTicks(FRESH, before), t), retry)
  {
    var all := before + [t];
    assert all[|before| - 1] == before[|before| - 1] && all[|before|] == t;
    assert forall i :: 0 <= i < |before| ==> all[i] == before[i];
    var g := RunTicks(FRESH, before);
    var s := ReachedGuards(before);
    ClockDays(before[|before| - 1].now, t.now);
    StepRefines(g, s, t);
    StepRefines(Step(g, t), DayStep(s, TaipeiDay(t.now), TaipeiHour(t.now), t.outcome), Tick(retry, Failed));
  }

  /** A deferral of day d that no retry on d makes good is caught up exactly when the next
      day is a weekday with a tick from 08:00 on. */
  lemma DeferralIsCaughtUpIff(before: seq<Tick>, after: seq<Tick>, d: int)
    requires before != [] && Orderly(before) && Orderly(after) && NotBefore(after, d) && Writable(d)
    requires RunTicks(FRESH, before).quotaDeferredDay == FormatDay(d)
    requires !RecoversOn(Log(RunTicks(FRESH, before), after), d)
    ensures HasCatchUp(Log(RunTicks(FRESH, before), after), d + 1)
       <==> IsWeekday(d + 1) && HasTick(after, d + 1, 8)
  {
    var g := RunTicks(FRESH, before);
    var s := ReachedGuards(before);
    GuardReadsDay(g.quotaDeferredDay, s.deferred, d);
    LogRefines(g, s, after);
    DayCatchUp(s, d, after);
  }

  /** A Friday's deferral is therefore never caught up. */
  lemma FridayDeferralIsNeverCaughtUp(before: seq<Tick>, after: seq<Tick>, d: int)
    requires before != [] && Orderly(before) && Orderly(after) && NotBefore(after, d) && Writable(d)
    requires RunTicks(FRESH, before).quotaDeferredDay == FormatDay(d) && Weekday(d) == FRIDAY
    ensures !HasCatchUp(Log(RunTicks(FRESH, before), after), d + 1)
  {
    hide FormatDay;
    var g := RunTicks(FRESH, before);
    var s := ReachedGuards(before);
    LogRefines(g, s, after);
    WeekendIsQuiet(s, after, d + 1);
  }

  /** The deferral does not close the gate for the rest of its own day, whatever the source's
      comment says: a retry that day is let through exactly when it comes from 15:00 on. */
  lemma DeferralLeavesTheGateOpen(before: seq<Tick>, t: Tick, retry: Time)
    requires before != [] && Orderly(before + [t])
    requires Attempts(RunTicks(FRESH, before), t.now) && t.outcome == QuotaExhausted
    requires TaipeiDay(retry) == TaipeiDay(t.now)
    ensures Attempts(Step(RunTicks(FRESH, before), t), retry) <==> TaipeiHour(retry) >= 15
  {
    var all := before + [t];
    assert all[|before| - 1] == before[|before| - 1] && all[|before|] == t;
    assert forall i :: 0 <= i < |before| ==> all[i] == before[i];
    var g := RunTicks(FRESH, before);
    var s := ReachedGuards(before);
    ClockDays(before[|before| - 1].now, t.now);
    StepRefines(g, s, t);
    StepRefines(Step(g, t), DayStep(s, TaipeiDay(t.now), TaipeiHour(t.now), t.outcome), Tick(retry, Failed));
  }
}

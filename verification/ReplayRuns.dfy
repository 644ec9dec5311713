/** Runs of the auto_backfill task: which days its fetches ask for, and which trading days they
    pass over. The fetch command is daily-replay-sync with a start and an end. */
module ReplayRuns {
  import opened Calendar
  import opened TradingDay
  import opened ReplaySync

  // ---------------------------------------------------------------- the fetch command

  /** What becomes of a trading day the command asks for: some rows are appended; the upstream
      has none; or appending fails, with or without some rows reaching the file. */
  datatype Answer = Rows | Nothing | Breaks(partly: bool)

  predicate Lands(a: Answer) {
    a.Rows? || (a.Breaks? && a.partly)
  }

  type TradingDays = int -> bool

  type Upstream = int -> Answer

  ghost predicate Reaches(start: int, day: int, trades: TradingDays, answer: Upstream) {
    forall e :: start <= e < day && trades(e) ==> !answer(e).Breaks?
  }

  /** The days a run of the command records. */
  ghost predicate Records(day: int, start: int, end: int, trades: TradingDays, answer: Upstream) {
    start <= day <= end && trades(day) && Lands(answer(day)) && Reaches(start, day, trades, answer)
  }

  /** runBackfill. An empty trading day does not stop it, but fails it in the end. */
  method FetchWindow(start: int, end: int, trades: TradingDays, answer: Upstream) returns (recorded: set<int>, ok: bool)
    ensures forall d :: d in recorded <==> Records(d, start, end, trades, answer)
    ensures ok <==> start <= end && forall d :: start <= d <= end && trades(d) ==> answer(d) == Rows
  {
    recorded := {};
    if end < start {
      return {}, false;
    }
    var empty := false;
    for d := start to end + 1
      invariant forall e :: e in recorded <==> e < d && Records(e, start, end, trades, answer)
      invariant Reaches(start, d, trades, answer)
      invariant empty <==> exists e :: start <= e < d && trades(e) && answer(e) == Nothing
    {
      if !trades(d) {
        continue;
      }
      match answer(d)
      case Rows => recorded := recorded + {d};
      case Nothing => empty := true;
      case Breaks(partly) =>
        recorded := recorded + if partly then {d} else {};
        return recorded, false;
    }
    ok := !empty;
  }

  // ---------------------------------------------------------------- runs of the task

  /** The days read from a CSV before any syntax error. */
  function Held(rows: seq<CsvRow>): set<int> {
    if rows == [] || rows[0].BadSyntax? then {}
    else Held(rows[1..]) + if rows[0].Bar? then {rows[0].day} else {}
  }

  function HeldDays(c: Csv): set<int> {
    if c.NoCsv? then {} else Held(c.rows)
  }

  lemma {:induction false} NewestHeld(rows: seq<CsvRow>)
    ensures NewestTolerated(rows).None? <==> Held(rows) == {}
    ensures NewestTolerated(rows).Some? ==>
              && NewestTolerated(rows).value in Held(rows)
              && forall d :: d in Held(rows) ==> d <= NewestTolerated(rows).value
  {
    if rows != [] && !rows[0].BadSyntax? {
      NewestHeld(rows[1..]);
      assert rows[0].Bar? ==> rows[0].day in Held(rows);
      if NewestTolerated(rows[1..]).Some? {
        assert NewestTolerated(rows[1..]).value in Held(rows);
      }
    }
  }

  lemma NewestOf(c: Csv)
    ensures Newest(c).None? <==> HeldDays(c) == {}
    ensures Newest(c).Some? ==>
              Newest(c).value in HeldDays(c) && forall d :: d in HeldDays(c) ==> d <= Newest(c).value
  {
    if c.Csv? {
      NewestHeld(c.rows);
    }
  }

  datatype Round = Round(now: Time, fetch: Fetch)

  /** The CSV before, between and after the task's runs. */
  ghost predicate IsRun(csvs: seq<Csv>, rounds: seq<Round>) {
    && |csvs| == |rounds| + 1
    && forall i :: 0 <= i < |rounds| ==> csvs[i + 1] == CsvAfter(csvs[i], rounds[i].now, rounds[i].fetch)
  }

  /** A fetch adds days of its window and takes none away. */
  ghost predicate Adds(c: Csv, c': Csv, now: Time) {
    HeldDays(c) <= HeldDays(c') && forall d :: d in HeldDays(c') && d !in HeldDays(c) ==> Misses(c, d, now)
  }

  ghost predicate OnlyAdds(csvs: seq<Csv>, rounds: seq<Round>)
    requires |csvs| == |rounds| + 1
  {
    forall i :: 0 <= i < |rounds| ==> Adds(csvs[i], csvs[i + 1], rounds[i].now)
  }

  lemma {:induction false} DaysStay(csvs: seq<Csv>, rounds: seq<Round>, i: nat, j: nat)
    requires |csvs| == |rounds| + 1 && OnlyAdds(csvs, rounds) && i <= j <= |rounds|
    ensures HeldDays(csvs[i]) <= HeldDays(csvs[j])
    decreases j - i
  {
    if i < j {
      DaysStay(csvs, rounds, i, j - 1);
      assert Adds(csvs[j - 1], csvs[j], rounds[j - 1].now);
    }
  }

  /** A day one run asks for, whatever came of it, a later run asks for again exactly as long
      as neither that day nor a later one has been recorded: every run until then, and none
      from then on. A weekday holiday, which no fetch records, waits for the next trading day. */
  lemma AskedAgainIff(csvs: seq<Csv>, rounds: seq<Round>, i: nat, j: nat, d: int)
    requires IsRun(csvs, rounds) && OnlyAdds(csvs, rounds) && i <= j < |rounds|
    requires rounds[i].now.unix <= rounds[j].now.unix
    requires Misses(csvs[i], d, rounds[i].now)
    ensures Misses(csvs[j], d, rounds[j].now) <==> forall e :: e in HeldDays(csvs[j]) ==> e < d
  {
    DaysStay(csvs, rounds, i, j);
    NewestOf(csvs[i]);
    NewestOf(csvs[j]);
    hide HeldDays, Newest, OnlyAdds;
    assert IsSettled(d, rounds[j].now, SETTLEMENT);
  }

  /** No trading day newer than the first CSV's newest is missing behind the present newest. */
  ghost predicate NonePassedOver(first: Csv, c: Csv, trades: TradingDays) {
    Newest(first).Some? && Newest(c).Some? ==>
      forall d :: trades(d) && Newest(first).value < d <= Newest(c).value ==> d in HeldDays(c)
  }

  /** The fetch left no earlier trading day of its window out before a later one. */
  ghost predicate InOrder(c: Csv, c': Csv, trades: TradingDays) {
    Newest(c).Some? ==>
      forall d, e :: e in HeldDays(c') && Newest(c).value < d < e && trades(d) ==> d in HeldDays(c')
  }

  lemma RoundPassesNoneOverIff(first: Csv, c: Csv, c': Csv, now: Time, trades: TradingDays)
    requires HeldDays(first) != {} && HeldDays(first) <= HeldDays(c) && Adds(c, c', now)
    ensures NonePassedOver(first, c', trades) <==> NonePassedOver(first, c, trades) && InOrder(c, c', trades)
  {
    NewestOf(first);
    NewestOf(c);
    NewestOf(c');
    hide HeldDays, Newest;
    assert Newest(first).value in HeldDays(c) && Newest(c).value in HeldDays(c');
  }

  /** Over any runs, starting from a readable CSV, no trading day is passed over exactly when
      every fetch records the trading days of its window in order. */
  lemma {:induction false} NonePassedOverIff(csvs: seq<Csv>, rounds: seq<Round>, trades: TradingDays)
    requires IsRun(csvs, rounds) && OnlyAdds(csvs, rounds) && Newest(csvs[0]).Some?
    ensures NonePassedOver(csvs[0], csvs[|rounds|], trades)
       <==> forall i :: 0 <= i < |rounds| ==> InOrder(csvs[i], csvs[i + 1], trades)
  {
    NewestOf(csvs[0]);
    hide HeldDays, Newest, InOrder, Adds;
    if rounds == [] {
      FirstPassesNone(csvs[0], trades);
    } else {
      var n := |rounds| - 1;
      NonePassedOverIff(csvs[..n + 1], rounds[..n], trades);
      DaysStay(csvs, rounds, 0, n);
      RoundPassesNoneOverIff(csvs[0], csvs[n], csvs[n + 1], rounds[n].now, trades);
      var init := csvs[..n + 1];
      forall i | 0 <= i < n ensures InOrder(init[i], init[i + 1], trades) <==> InOrder(csvs[i], csvs[i + 1], trades) {
      }
    }
  }

  lemma FirstPassesNone(c: Csv, trades: TradingDays)
    ensures NonePassedOver(c, c, trades)
  {
  }

  /** A day passed over is never asked for, nor recorded, again. */
  lemma PassedOverForGood(csvs: seq<Csv>, rounds: seq<Round>, i: nat, j: nat, d: int)
    requires IsRun(csvs, rounds) && OnlyAdds(csvs, rounds) && i <= j <= |rounds|
    requires d !in HeldDays(csvs[i]) && exists e :: e in HeldDays(csvs[i]) && d < e
    ensures d !in HeldDays(csvs[j])
    ensures j < |rounds| ==> !Misses(csvs[j], d, rounds[j].now)
  {
    var e :| e in HeldDays(csvs[i]) && d < e;
    for k := i to j
      invariant d !in HeldDays(csvs[k])
    {
      DaysStay(csvs, rounds, i, k);
      NewestOf(csvs[k]);
      assert Adds(csvs[k], csvs[k + 1], rounds[k].now);
    }
    DaysStay(csvs, rounds, i, j);
    NewestOf(csvs[j]);
  }

  /** A fetch by the command is in order exactly when the upstream had no empty trading day
      before one that was recorded; so a fetch that succeeds always is. */
  lemma FetchIsInOrderIff(c: Csv, c': Csv, now: Time, start: int, end: int, trades: TradingDays, answer: Upstream,
                          recorded: set<int>)
    requires Newest(c).Some? && start <= end && forall d :: trades(d) ==> IsWeekday(d)
    requires forall d :: Misses(c, d, now) <==> IsWeekday(d) && start <= d <= end
    requires forall d :: d in recorded <==> Records(d, start, end, trades, answer)
    requires HeldDays(c') == HeldDays(c) + recorded
    ensures Adds(c, c', now)
    ensures InOrder(c, c', trades)
       <==> forall d, e :: e in recorded && start <= d < e && trades(d) ==> answer(d) != Nothing
    ensures (forall d :: start <= d <= end && trades(d) ==> answer(d) == Rows) ==> InOrder(c, c', trades)
  {
    NewestOf(c);
    hide HeldDays, Newest;
    forall d, e | e in recorded && start <= d < e && trades(d) ensures d in recorded <==> answer(d) != Nothing {
      assert Reaches(start, e, trades, answer);
      assert Records(d, start, end, trades, answer) <==> Lands(answer(d));
    }
  }

  const MONDAY := 20514   // 2026-03-02

  function OneBar(day: int): CsvRow {
    Bar(day, "2330", "")
  }

  lemma HeldOne(day: int)
    ensures Held([OneBar(day)]) == {day}
  {
    assert [OneBar(day)][1..] == [] && Held([]) == {};
  }

  /** What that leads to: asked on the Sunday for Tuesday to Friday, the command finds nothing
      but Wednesday, and fails; Tuesday is lost to this task all the same. */
  lemma EmptyDayIsPassedOver()
    ensures var (before, after) := (Csv([OneBar(MONDAY)]), Csv([OneBar(MONDAY), OneBar(MONDAY + 2)]));
      var (csvs, rounds) := ([before, after], [Round(Midnight(MONDAY + 6, TAIPEI), Fetch(false, after))]);
      && IsRun(csvs, rounds) && OnlyAdds(csvs, rounds)
      && !NonePassedOver(before, after, IsWeekday)
  {
    var (before, after) := (Csv([OneBar(MONDAY)]), Csv([OneBar(MONDAY), OneBar(MONDAY + 2)]));
    var now := Midnight(MONDAY + 6, TAIPEI);
    assert [OneBar(MONDAY), OneBar(MONDAY + 2)][1..] == [OneBar(MONDAY + 2)];
    HeldOne(MONDAY);
    HeldOne(MONDAY + 2);
    assert HeldDays(after) == {MONDAY, MONDAY + 2};
    NewestOf(before);
    NewestOf(after);
    hide HeldDays, Newest;
    assert Misses(before, MONDAY + 2, now);
    assert IsWeekday(MONDAY + 1);
  }
}

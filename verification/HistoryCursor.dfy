/** The auto_sbl_tdcc_history_backfill task: a cursor that walks from 2026-03-01 to the
    present, one month a visit, and moves only past chunks both channels got through. */
module HistoryCursor {
  import opened Calendar

  const FIRST_DAY := DayOf(Date(2026, 3, 1))
  const START := Midnight(FIRST_DAY, 0)

  /** How a channel's segment of a visit goes: its provider is missing from the gateway, is
      not the adapter with a history walk (and is passed over), or walks the chunk. */
  datatype Segment = NoProvider | OtherProvider | Walked(ok: bool) {
    predicate Raised() {
      NoProvider? || (Walked? && !ok)
    }
  }

  /** One run of the task: its three clock readings, in order, and what it meets. */
  datatype Visit = Visit(first: int, second: int, third: int,
                         sbl: Segment, quotaAllowed: bool, tdcc: Segment)

  datatype Verdict = Complete | Deferred | Failed | Advanced

  datatype Chunk = Chunk(from: Time, end: Time)

  datatype State = State(cursor: Time, committed: seq<Chunk>)

  const INITIAL := State(START, [])

  predicate ClockRuns(v: Visit) {
    v.first <= v.second <= v.third
  }

  /** The end of the chunk at the cursor: a month on less a day, or the present if sooner.
      The present is read in the process's own zone, whatever the cursor's. */
  function ChunkEnd(cursor: Time, v: Visit, zone: int): Time {
    var end := AddDays(AddMonths(cursor, 1), -1);
    if v.second < end.unix then Time(v.third, zone) else end
  }

  predicate Commits(cursor: Time, v: Visit) {
    cursor.unix <= v.first && !v.sbl.Raised() && v.quotaAllowed && !v.tdcc.Raised()
  }

  function Step(s: State, v: Visit, zone: int): State {
    if !Commits(s.cursor, v) then s
    else
      var end := ChunkEnd(s.cursor, v, zone);
      State(AddDays(end, 1), s.committed + [Chunk(s.cursor, end)])
  }

  class Backfill {
    const zone: int
    var cursor: Time
    ghost var committed: seq<Chunk>

    ghost function Contents(): State
      reads this
    {
      State(cursor, committed)
    }

    constructor (zone: int)
      ensures Contents() == INITIAL && this.zone == zone
    {
      this.zone := zone;
      cursor := START;
      committed := [];
    }

    method Run(v: Visit) returns (verdict: Verdict)
      modifies this
      ensures Contents() == Step(old(Contents()), v, zone)
      ensures verdict == Advanced <==> Commits(old(cursor), v)
      ensures verdict == Complete <==> v.first < old(cursor).unix
      ensures verdict == Failed <==>
        old(cursor).unix <= v.first && (v.sbl.Raised() || (v.quotaAllowed && v.tdcc.Raised()))
    {
      if v.first < cursor.unix {
        return Complete;
      }
      var chunkEnd := AddDays(AddMonths(cursor, 1), -1);
      if v.second < chunkEnd.unix {
        chunkEnd := Time(v.third, zone);
      }
      if v.sbl.NoProvider? {
        return Failed;
      }
      if v.sbl.Walked? {
        if !v.sbl.ok {
          return Failed;
        }
      }
      if !v.quotaAllowed {
        return Deferred;
      }
      if v.tdcc.NoProvider? {
        return Failed;
      }
      if v.tdcc.Walked? {
        if !v.tdcc.ok {
          return Failed;
        }
      }
      committed := committed + [Chunk(cursor, chunkEnd)];
      cursor := AddDays(chunkEnd, 1);
      return Advanced;
    }
  }

  /** Whatever else a visit meets, a walk that fails or a provider that is missing on either
      channel, or a short quota, leaves the cursor where it is; and only these do, once the
      cursor is not ahead of the clock. */
  lemma OnlyErrorsHoldTheCursor(s: State, v: Visit, zone: int)
    ensures Step(s, v, zone) == s <==>
      || v.first < s.cursor.unix || !v.quotaAllowed
      || v.sbl == Walked(false) || v.sbl == NoProvider || v.tdcc == Walked(false) || v.tdcc == NoProvider
  {
    assert Commits(s.cursor, v) ==> |Step(s, v, zone).committed| == |s.committed| + 1;
    hide ChunkEnd;
  }

  // ---------------------------------------------------------------- runs

  function Runs(s: State, visits: seq<Visit>, zone: int): State
    decreases visits
  {
    if visits == [] then s else Runs(Step(s, visits[0], zone), visits[1..], zone)
  }

  ghost predicate ClocksRun(visits: seq<Visit>) {
    forall v :: v in visits ==> ClockRuns(v)
  }

  function Range(a: int, b: int): (r: seq<int>)
    ensures forall d :: d in r <==> a <= d < b
    ensures a <= b ==> |r| == b - a
    decreases b - a
  {
    if b <= a then [] else Range(a, b - 1) + [b - 1]
  }

  /** The days a provider's walk steps through: every 24 hours from the chunk's start, read in
      the start's zone, as long as the instant is not past the chunk's end. */
  function Walk(from: Time, end: Time): seq<int>
    decreases end.unix - from.unix
  {
    if end.unix < from.unix then [] else [LocalDay(from)] + Walk(AddDays(from, 1), end)
  }

  function DaysOf(c: Chunk): seq<int> {
    Walk(c.from, c.end)
  }

  /** The day after the last one walked. */
  function WalkEnd(from: Time, end: Time): int {
    LocalDay(from) + (end.unix - from.unix) / SECONDS_PER_DAY + 1
  }

  function CommittedDays(chunks: seq<Chunk>): seq<int> {
    if chunks == [] then []
    else CommittedDays(chunks[..|chunks| - 1]) + DaysOf(chunks[|chunks| - 1])
  }

  lemma {:induction false} RangeSplit(a: int, b: int, c: int)
    requires a <= b <= c
    ensures Range(a, b) + Range(b, c) == Range(a, c)
    decreases c - b
  {
    if b < c {
      RangeSplit(a, b, c - 1);
      assert Range(a, b) + (Range(b, c - 1) + [c - 1]) == Range(a, b) + Range(b, c - 1) + [c - 1];
    }
  }

  /** The month step lands 28 to 31 days on, at the same time of day, whichever day of the
      month it starts from: 31 January plus a month is 3 March, or the 2nd in a leap year. */
  lemma MonthStep(t: Time)
    ensures LocalDay(AddMonths(t, 1)) == DayOf(Civil(LocalDay(t)).(month := Civil(LocalDay(t)).month + 1))
    ensures LocalDay(t) + 28 <= LocalDay(AddMonths(t, 1)) <= LocalDay(t) + 31
    ensures AddMonths(t, 1).unix - t.unix == (LocalDay(AddMonths(t, 1)) - LocalDay(t)) * SECONDS_PER_DAY
    ensures AddMonths(t, 1).offset == t.offset
  {
    var d := Civil(LocalDay(t));
    NextMonthIsLater(d);
    var day := DayOf(d.(month := d.month + 1));
    OnDay(day, SecondOfDay(t), t.offset);
    assert t.unix + t.offset == LocalDay(t) * SECONDS_PER_DAY + SecondOfDay(t);
  }

  lemma OnDay(day: int, second: int, offset: int)
    requires 0 <= second < SECONDS_PER_DAY
    ensures LocalDay(At(day, second, offset)) == day
  {
  }

  ghost predicate RealZone(zone: int) {
    -SECONDS_PER_DAY < zone < SECONDS_PER_DAY
  }

  /** The cursor is kept in the zone of the date it started from or in the process's. */
  ghost predicate Placed(cursor: Time, zone: int) {
    cursor.offset == zone || (cursor.offset == 0 && SecondOfDay(cursor) == 0)
  }

  ghost predicate Ahead(cursor: Time, end: Time, zone: int) {
    && cursor.unix <= end.unix
    && Placed(AddDays(end, 1), zone)
    && LocalDay(AddDays(end, 1)) == LocalDay(end) + 1
  }

  lemma ChunkToThePresent(cursor: Time, now: int, zone: int)
    requires cursor.unix <= now
    ensures Ahead(cursor, Time(now, zone), zone)
  {
  }

  lemma ChunkOfAMonth(cursor: Time, next: Time, zone: int)
    requires Placed(cursor, zone) && next.offset == cursor.offset
    requires LocalDay(cursor) + 28 <= LocalDay(next)
    requires next.unix - cursor.unix == (LocalDay(next) - LocalDay(cursor)) * SECONDS_PER_DAY
    ensures Ahead(cursor, AddDays(next, -1), zone)
    ensures WalkEnd(cursor, AddDays(next, -1)) == LocalDay(next)
  {
    assert LocalDay(AddDays(next, -1)) == LocalDay(next) - 1;
    assert AddDays(next, -1).unix - cursor.unix == (LocalDay(next) - LocalDay(cursor) - 1) * SECONDS_PER_DAY;
  }

  lemma ChunkIsAhead(cursor: Time, v: Visit, zone: int)
    requires ClockRuns(v) && Placed(cursor, zone) && cursor.unix <= v.first
    ensures Ahead(cursor, ChunkEnd(cursor, v, zone), zone)
  {
    hide AddMonths, LocalDay, Placed;
    MonthStep(cursor);
    ChunkOfAMonth(cursor, AddMonths(cursor, 1), zone);
    ChunkToThePresent(cursor, v.third, zone);
  }

  /** A commit moves the cursor forward; nothing else moves it at all. */
  lemma CursorMovesOnlyForward(s: State, v: Visit, zone: int)
    requires ClockRuns(v) && Placed(s.cursor, zone)
    ensures s.cursor.unix < Step(s, v, zone).cursor.unix <==> Commits(s.cursor, v)
    ensures !Commits(s.cursor, v) ==> Step(s, v, zone) == s
  {
    hide ChunkEnd, LocalDay;
    if Commits(s.cursor, v) {
      ChunkIsAhead(s.cursor, v, zone);
    }
  }

  // ---------------------------------------------------------------- what the providers walk

  /** A walk takes in consecutive days, the first of them the cursor's. */
  lemma {:induction false} WalkIsARange(from: Time, end: Time)
    requires from.unix <= end.unix
    ensures Walk(from, end) == Range(LocalDay(from), WalkEnd(from, end))
    ensures LocalDay(from) < WalkEnd(from, end)
    decreases end.unix - from.unix
  {
    var next, day := AddDays(from, 1), LocalDay(from);
    assert LocalDay(next) == day + 1;
    assert Range(day, day + 1) == [day];
    if next.unix <= end.unix {
      WalkIsARange(next, end);
      assert WalkEnd(next, end) == WalkEnd(from, end);
      RangeSplit(day, day + 1, WalkEnd(from, end));
    } else {
      assert WalkEnd(from, end) == day + 1;
    }
  }

  /** The days asked for: `wanted` ones of those walked. */
  function Asked(days: seq<int>, wanted: int -> bool): seq<int> {
    if days == [] then [] else (if wanted(days[0]) then [days[0]] else []) + Asked(days[1..], wanted)
  }

  lemma NextOfWalk(from: Time, end: Time, wanted: int -> bool)
    requires from.unix <= end.unix
    ensures Asked(Walk(from, end), wanted)
         == (if wanted(LocalDay(from)) then [LocalDay(from)] else []) + Asked(Walk(AddDays(from, 1), end), wanted)
  {
    var days := Walk(from, end);
    assert days[0] == LocalDay(from) && days[1..] == Walk(AddDays(from, 1), end);
  }

  predicate IsFriday(day: int) {
    Weekday(day) == FRIDAY
  }

  function WithoutFile(stored: set<int>): int -> bool {
    d => IsWeekday(d) && d !in stored
  }

  /** FetchSBLHistory where nothing fails: the weekdays walked that have no file yet. */
  method WalkSbl(start: Time, end: Time, stored: set<int>) returns (asked: seq<int>)
    ensures asked == Asked(Walk(start, end), WithoutFile(stored))
  {
    hide Walk, Asked, LocalDay;
    asked := [];
    var day := start;
    ghost var wanted := WithoutFile(stored);
    while day.unix <= end.unix
      invariant asked + Asked(Walk(day, end), wanted) == Asked(Walk(start, end), wanted)
      decreases end.unix - day.unix
    {
      NextOfWalk(day, end, wanted);
      if IsWeekday(LocalDay(day)) && LocalDay(day) !in stored {
        asked := asked + [LocalDay(day)];
      }
      day := AddDays(day, 1);
    }
    NothingToWalk(day, end, wanted);
  }

  lemma DaysOn(t: Time, n: int)
    ensures LocalDay(AddDays(t, n)) == LocalDay(t) + n
  {
  }

  lemma SkipToFriday(from: Time, end: Time)
    requires !IsFriday(LocalDay(from))
    ensures Asked(Walk(from, end), IsFriday) == Asked(Walk(AddDays(from, 1), end), IsFriday)
  {
    if from.unix <= end.unix {
      NextOfWalk(from, end, IsFriday);
    }
  }

  lemma FridaysApart(day: int, n: nat)
    requires IsFriday(day)
    ensures 1 <= n < 7 ==> !IsFriday(day + n)
    ensures IsFriday(day + 7)
  {
  }

  lemma {:induction false} SkipDays(from: Time, end: Time, n: nat)
    requires IsFriday(LocalDay(from)) && 1 <= n <= 7
    ensures Asked(Walk(AddDays(from, 1), end), IsFriday) == Asked(Walk(AddDays(from, n), end), IsFriday)
  {
    hide LocalDay, Walk, Asked, IsFriday;
    if n > 1 {
      SkipDays(from, end, n - 1);
      DaysOn(from, n - 1);
      FridaysApart(LocalDay(from), n - 1);
      SkipToFriday(AddDays(from, n - 1), end);
      assert AddDays(AddDays(from, n - 1), 1) == AddDays(from, n);
    }
  }

  lemma SkipAWeek(from: Time, end: Time)
    requires IsFriday(LocalDay(from)) && from.unix <= end.unix
    ensures Asked(Walk(from, end), IsFriday) == [LocalDay(from)] + Asked(Walk(AddDays(from, 7), end), IsFriday)
    ensures IsFriday(LocalDay(AddDays(from, 7)))
  {
    hide LocalDay, Walk, Asked, IsFriday;
    NextOfWalk(from, end, IsFriday);
    SkipDays(from, end, 7);
    DaysOn(from, 7);
    FridaysApart(LocalDay(from), 7);
  }

  /** FetchDispersionHistory where nothing fails: stepping by weeks from the first Friday
      takes in exactly the Fridays of the daily walk. */
  method WalkTdcc(start: Time, end: Time) returns (asked: seq<int>)
    ensures asked == Asked(Walk(start, end), IsFriday)
  {
    hide LocalDay, Walk, Asked;
    var first := start;
    while Weekday(LocalDay(first)) != FRIDAY
      invariant Asked(Walk(first, end), IsFriday) == Asked(Walk(start, end), IsFriday)
      decreases (FRIDAY - Weekday(LocalDay(first))) % 7
    {
      SkipToFriday(first, end);
      DaysOn(first, 1);
      first := AddDays(first, 1);
    }
    asked := [];
    var probe := first;
    while probe.unix <= end.unix
      invariant IsFriday(LocalDay(probe))
      invariant asked + Asked(Walk(probe, end), IsFriday) == Asked(Walk(start, end), IsFriday)
      decreases end.unix - probe.unix
    {
      SkipAWeek(probe, end);
      asked := asked + [LocalDay(probe)];
      probe := AddDays(probe, 7);
    }
    NothingToWalk(probe, end, IsFriday);
  }

  lemma NothingToWalk(from: Time, end: Time, wanted: int -> bool)
    requires end.unix < from.unix
    ensures Asked(Walk(from, end), wanted) == []
  {
  }

  // ---------------------------------------------------------------- whether the chunks tile

  predicate IsCut(cursor: Time, v: Visit) {
    v.second < AddDays(AddMonths(cursor, 1), -1).unix
  }

  /** A commit leaves no seam if its chunk is a whole month; or is cut at the present no
      earlier in the day than its cursor; or, for a cursor still in UTC where the process is
      not, is cut when both have the same date. */
  predicate Seamless(cursor: Time, v: Visit, zone: int) {
    IsCut(cursor, v) ==>
      if cursor.offset == zone then SecondOfDay(cursor) <= SecondOfDay(Time(v.third, zone))
      else LocalDay(Time(v.third, cursor.offset)) == LocalDay(Time(v.third, zone))
  }

  lemma CutAtThePresent(cursor: Time, now: int, zone: int)
    requires RealZone(zone) && Placed(cursor, zone) && cursor.unix <= now
    ensures var (walked, next) := (WalkEnd(cursor, Time(now, zone)), LocalDay(Time(now, zone)) + 1);
      && (walked == next <==> if cursor.offset == zone then SecondOfDay(cursor) <= SecondOfDay(Time(now, zone))
                              else LocalDay(Time(now, cursor.offset)) == LocalDay(Time(now, zone)))
      && next - 1 <= walked <= next + 1
      && (0 <= zone ==> walked <= next)
  {
    var (c, t) := (cursor.unix + cursor.offset, now + cursor.offset);
    var (days, seconds) := ((t - c) / SECONDS_PER_DAY, (t - c) % SECONDS_PER_DAY);
    assert t == (LocalDay(cursor) + days) * SECONDS_PER_DAY + (SecondOfDay(cursor) + seconds);
  }

  /** Where the cursor stands after a commit, against where the walk ended: exactly after it
      if the commit was seamless; else one day on, the day of the cut, is passed over, or,
      in a process west of Greenwich, one day is walked again. */
  lemma SeamIff(cursor: Time, v: Visit, zone: int)
    requires RealZone(zone) && ClockRuns(v) && Placed(cursor, zone) && Commits(cursor, v)
    ensures var end := ChunkEnd(cursor, v, zone);
      && (WalkEnd(cursor, end) == LocalDay(AddDays(end, 1)) <==> Seamless(cursor, v, zone))
      && LocalDay(end) <= WalkEnd(cursor, end) <= LocalDay(end) + 2
      && (0 <= zone && !Seamless(cursor, v, zone) ==> WalkEnd(cursor, end) == LocalDay(end))
  {
    ChunkIsAhead(cursor, v, zone);
    hide AddMonths, LocalDay, Placed, WalkEnd, SecondOfDay;
    MonthStep(cursor);
    ChunkOfAMonth(cursor, AddMonths(cursor, 1), zone);
    CutAtThePresent(cursor, v.third, zone);
  }

  ghost predicate Tiled(s: State) {
    FIRST_DAY <= LocalDay(s.cursor) && CommittedDays(s.committed) == Range(FIRST_DAY, LocalDay(s.cursor))
  }

  /** Days followed by a non-empty range make up a range exactly when they are the first part
      of it and the two ranges end alike. */
  lemma SplitRange(days: seq<int>, first: int, middle: int, walked: int, next: int)
    requires middle < walked
    ensures days + Range(middle, walked) == Range(first, next) && first <= next
       <==> first <= middle && days == Range(first, middle) && walked == next
  {
    RangeAt(middle, walked);
    var all := days + Range(middle, walked);
    if all == Range(first, next) && first <= next {
      RangeAt(first, next);
      assert all[|days|] == middle && all[|all| - 1] == walked - 1;
      RangeSplit(first, middle, next);
      RangeAt(first, middle);
      assert days == all[..|days|] && Range(first, middle) == Range(first, next)[..|days|];
    } else if first <= middle && days == Range(first, middle) && walked == next {
      RangeSplit(first, middle, next);
    }
  }

  lemma {:induction false} RangeAt(a: int, b: int)
    requires a <= b
    ensures |Range(a, b)| == b - a && forall i :: 0 <= i < b - a ==> Range(a, b)[i] == a + i
    decreases b - a
  {
    if a < b {
      RangeAt(a, b - 1);
    }
  }

  lemma StepTilesIff(s: State, v: Visit, zone: int)
    requires RealZone(zone) && ClockRuns(v) && Placed(s.cursor, zone)
    ensures Placed(Step(s, v, zone).cursor, zone)
    ensures Tiled(Step(s, v, zone)) <==> Tiled(s) && (Commits(s.cursor, v) ==> Seamless(s.cursor, v, zone))
  {
    hide ChunkEnd, LocalDay, WalkEnd, Seamless, AddDays;
    if Commits(s.cursor, v) {
      var end := ChunkEnd(s.cursor, v, zone);
      ChunkIsAhead(s.cursor, v, zone);
      SeamIff(s.cursor, v, zone);
      WalkIsARange(s.cursor, end);
      var chunks := s.committed + [Chunk(s.cursor, end)];
      assert chunks[..|chunks| - 1] == s.committed;
      SplitRange(CommittedDays(s.committed), FIRST_DAY, LocalDay(s.cursor), WalkEnd(s.cursor, end),
                 LocalDay(AddDays(end, 1)));
    }
  }

  ghost predicate AllSeamless(s: State, visits: seq<Visit>, zone: int)
    decreases visits
  {
    visits == [] || (&& (Commits(s.cursor, visits[0]) ==> Seamless(s.cursor, visits[0], zone))
                     && AllSeamless(Step(s, visits[0], zone), visits[1..], zone))
  }

  lemma {:induction false} RunTilesIff(s: State, visits: seq<Visit>, zone: int)
    requires RealZone(zone) && ClocksRun(visits) && Placed(s.cursor, zone)
    ensures Tiled(Runs(s, visits, zone)) <==> Tiled(s) && AllSeamless(s, visits, zone)
    decreases visits
  {
    hide Tiled, Step, Seamless, Placed, Commits;
    if visits != [] {
      StepTilesIff(s, visits[0], zone);
      RunTilesIff(Step(s, visits[0], zone), visits[1..], zone);
    }
  }

  lemma StartIsMidnight()
    ensures START.offset == 0 && SecondOfDay(START) == 0 && LocalDay(START) == FIRST_DAY == 20513
  {
    hide DayOf;
    EarlyMarch(1);
    OnDay(FIRST_DAY, 0, 0);
  }

  /** After a run the committed chunks have walked every day from 2026-03-01 up to the cursor's,
      each once and in order, exactly when every commit was seamless. */
  lemma CommittedChunksTileIff(visits: seq<Visit>, zone: int)
    requires RealZone(zone) && ClocksRun(visits)
    ensures Tiled(Runs(INITIAL, visits, zone)) <==> AllSeamless(INITIAL, visits, zone)
  {
    StartIsMidnight();
    hide DayOf, LocalDay, SecondOfDay, Runs, AllSeamless;
    RunTilesIff(INITIAL, visits, zone);
  }

  ghost predicate NeverCut(s: State, visits: seq<Visit>, zone: int)
    decreases visits
  {
    visits == [] || (&& (Commits(s.cursor, visits[0]) ==> !IsCut(s.cursor, visits[0]))
                     && NeverCut(Step(s, visits[0], zone), visits[1..], zone))
  }

  lemma {:induction false} UncutIsSeamless(s: State, visits: seq<Visit>, zone: int)
    requires NeverCut(s, visits, zone)
    ensures AllSeamless(s, visits, zone)
    decreases visits
  {
    if visits != [] {
      UncutIsSeamless(Step(s, visits[0], zone), visits[1..], zone);
    }
  }

  /** Whole months tile, whatever fails in between and in whatever zone the process runs. */
  lemma MonthChunksTile(visits: seq<Visit>, zone: int)
    requires RealZone(zone) && ClocksRun(visits) && NeverCut(INITIAL, visits, zone)
    ensures Tiled(Runs(INITIAL, visits, zone))
  {
    UncutIsSeamless(INITIAL, visits, zone);
    CommittedChunksTileIff(visits, zone);
  }

  // ---------------------------------------------------------------- chunks and the days they miss

  ghost predicate ChunksWalk(s: State) {
    forall c :: c in s.committed ==> DaysOf(c) != [] && DaysOf(c)[0] == LocalDay(c.from)
  }

  lemma {:induction false} RunsWalk(s: State, visits: seq<Visit>, zone: int)
    requires ClocksRun(visits) && Placed(s.cursor, zone) && ChunksWalk(s)
    ensures ChunksWalk(Runs(s, visits, zone))
    decreases visits
  {
    hide ChunkEnd, LocalDay;
    if visits != [] {
      if Commits(s.cursor, visits[0]) {
        ChunkIsAhead(s.cursor, visits[0], zone);
      }
      RunsWalk(Step(s, visits[0], zone), visits[1..], zone);
    }
  }

  /** Every committed chunk walks at least its first day, in any zone. */
  lemma EveryChunkWalks(visits: seq<Visit>, zone: int)
    requires ClocksRun(visits)
    ensures ChunksWalk(Runs(INITIAL, visits, zone))
  {
    StartIsMidnight();
    RunsWalk(INITIAL, visits, zone);
  }

  lemma {:induction false} LaterDaysOnly(s: State, visits: seq<Visit>, zone: int)
    requires ClocksRun(visits) && s.cursor.offset == zone
    ensures forall d :: d in CommittedDays(Runs(s, visits, zone).committed) ==>
              d in CommittedDays(s.committed) || LocalDay(s.cursor) <= d
    ensures LocalDay(s.cursor) <= LocalDay(Runs(s, visits, zone).cursor)
    decreases visits
  {
    if visits != [] {
      var next := Step(s, visits[0], zone);
      if Commits(s.cursor, visits[0]) {
        var end := ChunkEnd(s.cursor, visits[0], zone);
        ChunkIsAhead(s.cursor, visits[0], zone);
        WalkIsARange(s.cursor, end);
        MonthStep(s.cursor);
        hide AddMonths, Walk;
        assert next.committed[..|next.committed| - 1] == s.committed;
        assert LocalDay(s.cursor) <= LocalDay(next.cursor);
      }
      hide ChunkEnd, LocalDay;
      LaterDaysOnly(next, visits[1..], zone);
    }
  }

  /** A visit at a single instant, all going well. */
  function VisitAt(t: int): Visit {
    Visit(t, t, t, Walked(true), true, Walked(true))
  }

  lemma CutVisit(cursor: Time, committed: seq<Chunk>, t: int)
    requires cursor.offset == 0 && cursor.unix <= t < cursor.unix + 27 * SECONDS_PER_DAY
    ensures Step(State(cursor, committed), VisitAt(t), 0)
         == State(Time(t + SECONDS_PER_DAY, 0), committed + [Chunk(cursor, Time(t, 0))])
  {
    hide AddMonths;
    MonthStep(cursor);
  }

  lemma TwoCutVisits(cursor: Time, a: int, b: int, later: seq<Visit>)
    requires cursor.offset == 0 && cursor.unix <= a < cursor.unix + 27 * SECONDS_PER_DAY
    requires a + SECONDS_PER_DAY <= b < a + 28 * SECONDS_PER_DAY
    ensures var chunks := [Chunk(cursor, Time(a, 0)), Chunk(Time(a + SECONDS_PER_DAY, 0), Time(b, 0))];
      Runs(State(cursor, []), [VisitAt(a), VisitAt(b)] + later, 0)
      == Runs(State(Time(b + SECONDS_PER_DAY, 0), chunks), later, 0)
  {
    hide Step, VisitAt;
    var visits := [VisitAt(a), VisitAt(b)] + later;
    var first := Chunk(cursor, Time(a, 0));
    CutVisit(cursor, [], a);
    CutVisit(Time(a + SECONDS_PER_DAY, 0), [first], b);
    assert [] + [first] == [first];
    assert [first] + [Chunk(Time(a + SECONDS_PER_DAY, 0), Time(b, 0))]
        == [first, Chunk(Time(a + SECONDS_PER_DAY, 0), Time(b, 0))];
    assert visits[1..] == [VisitAt(b)] + later && visits[1..][1..] == later;
  }

  lemma TwoChunks(a: Chunk, b: Chunk)
    ensures CommittedDays([a, b]) == DaysOf(a) + DaysOf(b)
  {
    assert [a, b][..1] == [a] && [a][..0] == [];
    assert CommittedDays([a]) == CommittedDays([]) + DaysOf(a);
  }

  lemma WalkedInTwo(a: Chunk, b: Chunk)
    requires a.from.unix <= a.end.unix && b.from.unix <= b.end.unix
    ensures forall d :: d in CommittedDays([a, b]) ==> d < WalkEnd(a.from, a.end) || d < WalkEnd(b.from, b.end)
  {
    TwoChunks(a, b);
    WalkIsARange(a.from, a.end);
    WalkIsARange(b.from, b.end);
    hide Walk, CommittedDays, WalkEnd, LocalDay;
  }

  const SUNDAY_EVENING := START.unix + 18 * 3600
  const TUESDAY_MORNING := START.unix + 58 * 3600

  /** A process in UTC visits at 18:00 on Sunday 1 March 2026 and at 10:00 on the Tuesday. The
      second walk, stepping from 18:00, ends on Monday; the cursor goes on to Wednesday. No
      run that follows asks for the Tuesday. */
  lemma DayPassedOver(later: seq<Visit>)
    requires ClocksRun(later)
    ensures var s := Runs(INITIAL, [VisitAt(SUNDAY_EVENING), VisitAt(TUESDAY_MORNING)] + later, 0);
      var tuesday := DayOf(Date(2026, 3, 3));
      tuesday !in CommittedDays(s.committed) && tuesday < LocalDay(s.cursor) && Weekday(tuesday) == 2
  {
    hide DayOf, Runs, CommittedDays, VisitAt;
    EarlyMarch(1);
    EarlyMarch(3);
    var (a, b) := (SUNDAY_EVENING, TUESDAY_MORNING);
    var (first, second) := (Chunk(START, Time(a, 0)), Chunk(Time(a + SECONDS_PER_DAY, 0), Time(b, 0)));
    var s := State(Time(b + SECONDS_PER_DAY, 0), [first, second]);
    assert START.unix == FIRST_DAY * SECONDS_PER_DAY;
    TwoCutVisits(START, a, b, later);
    WalkedInTwo(first, second);
    LaterDaysOnly(s, later, 0);
  }
}

/** backfill-period-history-range: classifying each trading day of a range from the price data
    up to that day, and recording the result without touching live rows. */
module PeriodHistory {
  import opened Wrappers
  import opened Text
  import opened Sorting

  // ---------------------------------------------------------------- the dataset

  datatype Bar = Bar(date: string, symbol: string, close: real, volume: real)

  datatype PerDay = PerDay(taiex: real, volume: real)

  predicate Counts(b: Bar) {
    b.date != "" && b.symbol != ""
  }

  function Dates(bars: seq<Bar>): set<string> {
    set b | b in bars && Counts(b) :: b.date
  }

  function WithBar(day: PerDay, b: Bar, proxy: string, date: string): PerDay {
    if !Counts(b) || b.date != date then day
    else PerDay(if b.symbol == proxy then b.close else day.taiex, day.volume + b.volume)
  }

  /** A day's totals: every symbol's volume, and the proxy's last close. */
  function DayOf(bars: seq<Bar>, proxy: string, date: string): PerDay {
    if bars == [] then PerDay(0.0, 0.0)
    else
      WithBar(DayOf(bars[..|bars| - 1], proxy, date), bars[|bars| - 1], proxy, date)
  }

  /** loadJSONL; a line that does not parse stops it. */
  method Load(lines: seq<Option<Bar>>, proxy: string) returns (r: Result<map<string, PerDay>, nat>)
    ensures r.Err? <==> exists i :: 0 <= i < |lines| && lines[i].None?
    ensures r.Err? ==> r.error < |lines| && lines[r.error].None? && forall i :: 0 <= i < r.error ==> lines[i].Some?
    ensures r.Ok? ==> var bars := Parsed(lines);
      r.value.Keys == Dates(bars) && forall d :: d in r.value ==> r.value[d] == DayOf(bars, proxy, d)
  {
    NoBars(proxy);
    hide Parsed, DayOf, Dates;
    var days: map<string, PerDay> := map[];
    assert lines[..0] == [];
    for n := 0 to |lines|
      invariant forall i :: 0 <= i < n ==> lines[i].Some?
      invariant days.Keys == Dates(Parsed(lines[..n]))
      invariant forall d :: (if d in days then days[d] else PerDay(0.0, 0.0)) == DayOf(Parsed(lines[..n]), proxy, d)
    {
      if lines[n].None? {
        return Err(n);
      }
      var b := lines[n].value;
      OneMoreBar(lines, n, proxy);
      if b.date == "" || b.symbol == "" {
        continue;
      }
      var day := if b.date in days then days[b.date] else PerDay(0.0, 0.0);
      day := day.(volume := day.volume + b.volume);
      if b.symbol == proxy {
        day := day.(taiex := b.close);
      }
      days := days[b.date := day];
    }
    assert lines[..|lines|] == lines;
    return Ok(days);
  }

  function Parsed(lines: seq<Option<Bar>>): seq<Bar>
    requires forall i :: 0 <= i < |lines| ==> lines[i].Some?
  {
    if lines == [] then [] else Parsed(lines[..|lines| - 1]) + [lines[|lines| - 1].value]
  }

  lemma NoBars(proxy: string)
    ensures Parsed([]) == [] && Dates([]) == {} && forall d :: DayOf([], proxy, d) == PerDay(0.0, 0.0)
  {
  }

  lemma OneMoreBar(lines: seq<Option<Bar>>, n: nat, proxy: string)
    requires n < |lines| && forall i :: 0 <= i <= n ==> lines[i].Some?
    ensures var (bars, more, b) := (Parsed(lines[..n]), Parsed(lines[..n + 1]), lines[n].value);
      && Dates(more) == Dates(bars) + (if Counts(b) then {b.date} else {})
      && forall d :: DayOf(more, proxy, d) == WithBar(DayOf(bars, proxy, d), b, proxy, d)
  {
    assert lines[..n + 1][..n] == lines[..n];
    BarsGrow(Parsed(lines[..n]), lines[n].value, proxy);
  }

  lemma BarsGrow(bars: seq<Bar>, b: Bar, proxy: string)
    ensures Dates(bars + [b]) == Dates(bars) + if Counts(b) then {b.date} else {}
    ensures forall d :: DayOf(bars + [b], proxy, d) == WithBar(DayOf(bars, proxy, d), b, proxy, d)
  {
    assert (bars + [b])[..|bars|] == bars;
  }

  /** What a bar brings to a day: its volume, if it is of that day and names a symbol. */
  lemma OneBarsVolume(b: Bar, proxy: string, date: string)
    ensures DayOf([b], proxy, date).volume == if b.date == date != "" && b.symbol != "" then b.volume else 0.0
  {
    assert [b][..0] == [];
  }

  /** So a day's volume is the sum over its bars, in whatever order they come. */
  lemma {:induction false} VolumesAdd(a: seq<Bar>, b: seq<Bar>, proxy: string, date: string)
    ensures DayOf(a + b, proxy, date).volume == DayOf(a, proxy, date).volume + DayOf(b, proxy, date).volume
  {
    if b == [] {
      assert a + b == a;
    } else {
      assert (a + b)[..|a + b| - 1] == a + b[..|b| - 1];
      VolumesAdd(a, b[..|b| - 1], proxy, date);
    }
  }

  /** And its index is the close of the proxy's last bar of the day, or zero. */
  lemma {:induction false} LastCloseCounts(before: seq<Bar>, after: seq<Bar>, b: Bar, proxy: string, date: string)
    requires proxy != "" && date != ""
    requires forall x :: x in after ==> x.date != date || x.symbol != proxy
    ensures b.date == date && b.symbol == proxy ==> DayOf(before + [b] + after, proxy, date).taiex == b.close
    ensures DayOf(after, proxy, date).taiex == 0.0
  {
    var all := before + [b] + after;
    if after == [] {
      assert all[..|all| - 1] == before;
    } else {
      var init := after[..|after| - 1];
      assert after[|after| - 1] in after && all[..|all| - 1] == before + [b] + init;
      LastCloseCounts(before, init, b, proxy, date);
    }
  }

  // ---------------------------------------------------------------- the series

  /** One day of the rolling series the detector is given. */
  datatype Entry = Entry(date: string, taiex: real, volume: real)

  predicate EntryLeq(a: Entry, b: Entry) {
    LexLeq(a.date, b.date)
  }

  function EntryAt(bars: seq<Bar>, proxy: string, date: string): Entry {
    Entry(date, DayOf(bars, proxy, date).taiex, DayOf(bars, proxy, date).volume)
  }

  /** The entries of the dataset's dates from start to end, ascending. */
  ghost predicate IsSeries(bars: seq<Bar>, proxy: string, start: string, end: string, s: seq<Entry>) {
    && (forall e :: e in s ==> e == EntryAt(bars, proxy, e.date) && e.date in Dates(bars) && InWindow(start, end, e.date))
    && (forall d :: d in Dates(bars) && InWindow(start, end, d) ==> EntryAt(bars, proxy, d) in s)
    && (forall i, j :: 0 <= i < j < |s| ==> LexLess(s[i].date, s[j].date))
  }

  lemma {:induction false} SeriesIsUnique(bars: seq<Bar>, proxy: string, start: string, end: string, s: seq<Entry>, t: seq<Entry>)
    requires IsSeries(bars, proxy, start, end, s) && IsSeries(bars, proxy, start, end, t)
    ensures s == t
  {
    hide DayOf, InWindow;
    DistinctEntries(s);
    DistinctEntries(t);
    assert forall e :: e in s <==> e in t;
    forall e ensures multiset(s)[e] == multiset(t)[e] {
      Once(s, e);
      Once(t, e);
      assert e in s <==> e in multiset(s);
      assert e in t <==> e in multiset(t);
    }
    forall x, y | x in s && y in s && EntryLeq(x, y) && EntryLeq(y, x) ensures x == y {
      LexTotal(x.date, y.date);
    }
    AscendingIsUnique(EntryLeq, s, t);
  }

  lemma DistinctEntries(s: seq<Entry>)
    requires forall i, j :: 0 <= i < j < |s| ==> LexLess(s[i].date, s[j].date)
    ensures Distinct(s) && Ascending(EntryLeq, s)
  {
    forall i, j | 0 <= i < j < |s| ensures s[i] != s[j] && EntryLeq(s[i], s[j]) {
      LexTotal(s[i].date, s[j].date);
    }
  }

  lemma DatesAreSet(bars: seq<Bar>)
    ensures "" !in Dates(bars)
  {
  }

  lemma Earlier(start: string, last: string, end: string, d: string)
    requires last != "" && InWindow(start, end, last)
    ensures InWindow(start, last, d) <==> InWindow(start, end, d) && LexLeq(d, last)
  {
    if LexLeq(d, last) && end != "" {
      LexLeqTransitive(d, last, end);
    }
  }

  /** Cutting a series after a date leaves the series up to that date. */
  lemma SeriesUpTo(bars: seq<Bar>, proxy: string, start: string, end: string, s: seq<Entry>, i: nat)
    requires IsSeries(bars, proxy, start, end, s) && i < |s|
    ensures IsSeries(bars, proxy, start, s[i].date, s[..i + 1])
  {
    DatesAreSet(bars);
    hide DayOf, Dates, InWindow, LexLess;
    var last := s[i].date;
    assert s[i] in s;
    forall e | e in s[..i + 1] ensures InWindow(start, last, e.date) && e in s {
      var j :| 0 <= j <= i && s[j] == e;
      LexTotal(e.date, last);
      Earlier(start, last, end, e.date);
    }
    forall d | d in Dates(bars) && InWindow(start, last, d) ensures EntryAt(bars, proxy, d) in s[..i + 1] {
      Earlier(start, last, end, d);
      var j :| 0 <= j < |s| && s[j] == EntryAt(bars, proxy, d);
      LexTotal(d, last);
      assert j <= i;
      assert s[..i + 1][j] == s[j];
    }
  }

  // ---------------------------------------------------------------- the backfill

  /** Enrichment and detection together: a period for the last day of a series, or an error. */
  type Detector = seq<Entry> -> Option<string>

  datatype Row = Row(period: string, synthetic: bool, recordedAt: int)

  /** What a run is asked for, which of its store operations work, and what the clock reads as
      each date is recorded. */
  datatype Request = Request(proxy: string, start: string, end: string, detect: Detector,
                             looksUp: string -> bool, upserts: string -> bool, now: string -> int)

  function Guarded(store: map<string, Row>, date: string, q: Request): bool {
    q.looksUp(date) && date in store && !store[date].synthetic
  }

  /** What the run leaves for a date of its series. */
  function RowAfter(store: map<string, Row>, q: Request, upTo: seq<Entry>): Option<Row>
    requires upTo != []
  {
    var date := upTo[|upTo| - 1].date;
    var was := if date in store then Some(store[date]) else None;
    var period := q.detect(upTo);
    if period.None? || Guarded(store, date, q) || !q.upserts(date) then was
    else Some(Row(period.value, true, q.now(date)))
  }

  function At(store: map<string, Row>, date: string): Option<Row> {
    if date in store then Some(store[date]) else None
  }

  /** The whole effect of a run over a series. */
  ghost predicate IsBackfill(s: seq<Entry>, q: Request, before: map<string, Row>, after: map<string, Row>) {
    && (forall i: nat :: i < |s| ==> At(after, s[i].date) == RowAfter(before, q, s[..i + 1]))
    && (forall d :: (forall e :: e in s ==> e.date != d) ==> At(after, d) == At(before, d))
  }

  datatype Verdict = Written | Skipped | Failed

  /** What becomes of the last day of a series: no period or a failing upsert is an error, a live
      row that is found is skipped, and the rest is written. */
  function VerdictOn(store: map<string, Row>, q: Request, upTo: seq<Entry>): Verdict
    requires upTo != []
  {
    var date := upTo[|upTo| - 1].date;
    if q.detect(upTo).None? then Failed
    else if Guarded(store, date, q) then Skipped
    else if q.upserts(date) then Written
    else Failed
  }

  /** How many days of a series fare so. */
  function Tally(store: map<string, Row>, q: Request, s: seq<Entry>, v: Verdict): nat {
    if s == [] then 0 else Tally(store, q, s[..|s| - 1], v) + if VerdictOn(store, q, s) == v then 1 else 0
  }

  ghost predicate Tallied(store: map<string, Row>, q: Request, s: seq<Entry>, written: nat, skipped: nat, errors: nat) {
    && written == Tally(store, q, s, Written) && skipped == Tally(store, q, s, Skipped)
    && errors == Tally(store, q, s, Failed) && written + skipped + errors == |s|
  }

  lemma NothingTallied(store: map<string, Row>, q: Request)
    ensures Tallied(store, q, [], 0, 0, 0)
  {
  }

  lemma OneMoreTallied(store: map<string, Row>, q: Request, s: seq<Entry>, e: Entry,
                       written: nat, skipped: nat, errors: nat)
    requires Tallied(store, q, s, written, skipped, errors)
    ensures match VerdictOn(store, q, s + [e])
      case Written => Tallied(store, q, s + [e], written + 1, skipped, errors)
      case Skipped => Tallied(store, q, s + [e], written, skipped + 1, errors)
      case Failed => Tallied(store, q, s + [e], written, skipped, errors + 1)
  {
    hide VerdictOn;
    assert (s + [e])[..|s|] == s;
  }

  lemma SameRowSameFate(store: map<string, Row>, other: map<string, Row>, q: Request, upTo: seq<Entry>)
    requires upTo != [] && At(store, upTo[|upTo| - 1].date) == At(other, upTo[|upTo| - 1].date)
    ensures VerdictOn(store, q, upTo) == VerdictOn(other, q, upTo) && RowAfter(store, q, upTo) == RowAfter(other, q, upTo)
  {
  }

  class Store {
    var rows: map<string, Row>

    constructor (rows: map<string, Row>)
      ensures this.rows == rows
    {
      this.rows := rows;
    }

    /** upsertDay. A lookup that fails does not protect the row. */
    method UpsertDay(date: string, period: string, q: Request) returns (written: nat, skipped: nat, ok: bool)
      modifies this
      ensures skipped == if Guarded(old(rows), date, q) then 1 else 0
      ensures ok <==> skipped == 1 || q.upserts(date)
      ensures written == if skipped != 1 && ok then 1 else 0
      ensures rows == if written == 1 then old(rows)[date := Row(period, true, q.now(date))] else old(rows)
    {
      if q.looksUp(date) && date in rows && !rows[date].synthetic {
        return 0, 1, true;
      }
      if !q.upserts(date) {
        return 0, 0, false;
      }
      rows := rows[date := Row(period, true, q.now(date))];
      return 1, 0, true;
    }

    /** One round of the loop, for the last day of the series so far. */
    method BackfillDay(upTo: seq<Entry>, q: Request) returns (v: Verdict)
      requires upTo != []
      modifies this
      ensures v == VerdictOn(old(rows), q, upTo)
      ensures var date := upTo[|upTo| - 1].date;
        && At(rows, date) == RowAfter(old(rows), q, upTo)
        && forall d :: d != date ==> At(rows, d) == At(old(rows), d)
    {
      var period := q.detect(upTo);
      if period.None? {
        return Failed;
      }
      var one, live, ok := UpsertDay(upTo[|upTo| - 1].date, period.value, q);
      v := if !ok then Failed else if live == 1 then Skipped else Written;
    }

    /** The loop of run over the days of the range; a range without any is an error. */
    method Backfill(bars: seq<Bar>, days: map<string, PerDay>, q: Request)
      returns (ghost series: seq<Entry>, ok: bool, written: nat, skipped: nat, errors: nat)
      requires days.Keys == Dates(bars) && forall d :: d in days ==> days[d] == DayOf(bars, q.proxy, d)
      modifies this
      ensures IsSeries(bars, q.proxy, q.start, q.end, series)
      ensures IsBackfill(series, q, old(rows), rows)
      ensures ok <==> exists d :: d in Dates(bars) && InWindow(q.start, q.end, d)
      ensures !ok ==> rows == old(rows)
      ensures Tallied(old(rows), q, series, written, skipped, errors)
    {
      LexOrderIsTotal();
      var filtered := SortedSet(LexLeq, set d | d in days.Keys && InWindow(q.start, q.end, d));
      var entries: seq<Entry> := [];
      written, skipped, errors := 0, 0, 0;
      hide DayOf, Dates, InWindow, LexLess, DaysDone, Tallied, VerdictOn, RowAfter, At;
      NothingTallied(rows, q);
      ghost var before := rows;
      StrictDates(filtered);
      NoDaysDone(filtered, q, before);
      series, ok := [], filtered != [];
      if !ok {
        IsTheSeries(bars, q, filtered, series);
        AllDaysDone(series, filtered, q, before, rows);
        assert forall d :: d !in filtered;
        return;
      }
      assert filtered[0] in filtered;
      for n := 0 to |filtered|
        invariant |entries| == n
        invariant forall i :: 0 <= i < n ==> entries[i] == EntryAt(bars, q.proxy, filtered[i])
        invariant DaysDone(entries, filtered, n, q, before, rows)
        invariant Tallied(before, q, entries, written, skipped, errors)
      {
        var date := filtered[n];
        assert date in filtered;
        var day := days[date];
        ghost var sofar := rows;
        var e := Entry(date, day.taiex, day.volume);
        ghost var shorter := entries;
        entries := entries + [e];
        Untouched(shorter, filtered, n, q, before, rows);
        SameRowSameFate(before, rows, q, entries);
        OneMoreTallied(before, q, shorter, e, written, skipped, errors);
        var v := BackfillDay(entries, q);
        match v {
          case Written => written := written + 1;
          case Skipped => skipped := skipped + 1;
          case Failed => errors := errors + 1;
        }
        OneMoreDay(shorter, e, filtered, n, q, before, sofar, rows);
      }
      series := entries;
      IsTheSeries(bars, q, filtered, series);
      AllDaysDone(series, filtered, q, before, rows);
    }
  }

  /** The first n dates dealt with, the others as before. */
  ghost predicate DaysDone(entries: seq<Entry>, dates: seq<string>, n: nat, q: Request,
                           before: map<string, Row>, rows: map<string, Row>)
  {
    && |entries| == n <= |dates|
    && (forall i: nat :: i < n ==> At(rows, entries[i].date) == RowAfter(before, q, entries[..i + 1]))
    && (forall d :: d !in dates[..n] ==> At(rows, d) == At(before, d))
  }

  lemma NoDaysDone(dates: seq<string>, q: Request, before: map<string, Row>)
    ensures DaysDone([], dates, 0, q, before, before)
  {
  }

  lemma Untouched(entries: seq<Entry>, dates: seq<string>, n: nat, q: Request,
                  before: map<string, Row>, rows: map<string, Row>)
    requires DaysDone(entries, dates, n, q, before, rows) && n < |dates| && Distinct(dates)
    ensures At(rows, dates[n]) == At(before, dates[n])
  {
    assert dates[n] !in dates[..n];
  }

  lemma OneMoreDay(entries: seq<Entry>, e: Entry, dates: seq<string>, n: nat, q: Request,
                   before: map<string, Row>, rows: map<string, Row>, rows': map<string, Row>)
    requires DaysDone(entries, dates, n, q, before, rows) && n < |dates| && Distinct(dates)
    requires e.date == dates[n] && forall i :: 0 <= i < n ==> entries[i].date == dates[i]
    requires forall d :: d != e.date ==> At(rows', d) == At(rows, d)
    requires At(rows', e.date) == RowAfter(before, q, entries + [e])
    ensures DaysDone(entries + [e], dates, n + 1, q, before, rows')
  {
    hide RowAfter, At;
    var more := entries + [e];
    forall i: nat | i < n + 1 ensures At(rows', more[i].date) == RowAfter(before, q, more[..i + 1]) {
      if i < n {
        assert more[..i + 1] == entries[..i + 1] && dates[i] != dates[n];
      } else {
        assert more[..i + 1] == more;
      }
    }
    assert dates[..n + 1] == dates[..n] + [dates[n]];
  }

  lemma AllDaysDone(series: seq<Entry>, dates: seq<string>, q: Request, before: map<string, Row>, after: map<string, Row>)
    requires DaysDone(series, dates, |dates|, q, before, after)
    requires forall d :: d !in dates <==> forall e :: e in series ==> e.date != d
    ensures IsBackfill(series, q, before, after)
  {
    assert dates[..|dates|] == dates;
  }

  lemma StrictDates(dates: seq<string>)
    requires Ascending(LexLeq, dates) && Distinct(dates)
    ensures forall i, j :: 0 <= i < j < |dates| ==> LexLess(dates[i], dates[j])
  {
    forall i, j | 0 <= i < j < |dates| ensures LexLess(dates[i], dates[j]) {
      LexTotal(dates[i], dates[j]);
    }
  }

  lemma IsTheSeries(bars: seq<Bar>, q: Request, dates: seq<string>, s: seq<Entry>)
    requires |s| == |dates| && forall i :: 0 <= i < |s| ==> s[i] == EntryAt(bars, q.proxy, dates[i])
    requires forall d :: d in dates <==> d in Dates(bars) && InWindow(q.start, q.end, d)
    requires forall i, j :: 0 <= i < j < |dates| ==> LexLess(dates[i], dates[j])
    ensures IsSeries(bars, q.proxy, q.start, q.end, s)
    ensures forall d :: d !in dates <==> forall e :: e in s ==> e.date != d
  {
    hide DayOf, Dates, InWindow, LexLess;
    forall d | d in dates ensures EntryAt(bars, q.proxy, d) in s {
      var i :| 0 <= i < |dates| && dates[i] == d;
      assert s[i] in s;
    }
    forall e | e in s ensures e.date in dates && e == EntryAt(bars, q.proxy, e.date) {
      var i :| 0 <= i < |s| && s[i] == e;
    }
    forall d ensures d !in dates <==> forall e :: e in s ==> e.date != d {
      if d in dates {
        assert EntryAt(bars, q.proxy, d).date == d;
      }
    }
  }

  // ---------------------------------------------------------------- no look-ahead

  /** The rows dated from start to end, in order. */
  function Restrict(bars: seq<Bar>, start: string, end: string): seq<Bar> {
    if bars == [] then []
    else
      var b := bars[|bars| - 1];
      Restrict(bars[..|bars| - 1], start, end) + if Counts(b) && InWindow(start, end, b.date) then [b] else []
  }

  lemma {:induction false} RestrictKeeps(bars: seq<Bar>, proxy: string, start: string, end: string)
    ensures forall d :: d in Dates(Restrict(bars, start, end)) <==> d in Dates(bars) && InWindow(start, end, d)
    ensures forall d :: InWindow(start, end, d) ==> DayOf(Restrict(bars, start, end), proxy, d) == DayOf(bars, proxy, d)
  {
    if bars != [] {
      var (init, b) := (bars[..|bars| - 1], bars[|bars| - 1]);
      RestrictKeeps(init, proxy, start, end);
      var (kept, all) := (Restrict(init, start, end), Restrict(bars, start, end));
      assert bars == init + [b];
      BarsGrow(init, b, proxy);
      BarsGrow(kept, b, proxy);
      hide InWindow, Dates, DayOf;
      assert all == if Counts(b) && InWindow(start, end, b.date) then kept + [b] else kept;
      hide Restrict;
    }
  }

  lemma {:induction false} SeriesOfRestriction(bars: seq<Bar>, other: seq<Bar>, proxy: string,
                                               start: string, end: string, s: seq<Entry>)
    requires Restrict(bars, start, end) == Restrict(other, start, end)
    requires IsSeries(bars, proxy, start, end, s)
    ensures IsSeries(other, proxy, start, end, s)
  {
    RestrictKeeps(bars, proxy, start, end);
    RestrictKeeps(other, proxy, start, end);
    hide DayOf, Dates, InWindow, Restrict, LexLess;
    forall d | InWindow(start, end, d) ensures EntryAt(bars, proxy, d) == EntryAt(other, proxy, d) {
    }
    forall d ensures d in Dates(bars) && InWindow(start, end, d) <==> d in Dates(other) && InWindow(start, end, d) {
    }
  }

  /** The row a run leaves for a date depends on the rows dated from start to that date alone:
      two datasets that agree on those leave the same row, however they and the ends of
      their ranges differ beyond. */
  lemma NoLookAhead(bars: seq<Bar>, other: seq<Bar>, q: Request, end': string, s: seq<Entry>, t: seq<Entry>,
                    i: nat, j: nat, before: map<string, Row>, after: map<string, Row>, after': map<string, Row>)
    requires IsSeries(bars, q.proxy, q.start, q.end, s) && IsSeries(other, q.proxy, q.start, end', t)
    requires i < |s| && j < |t| && s[i].date == t[j].date
    requires Restrict(bars, q.start, s[i].date) == Restrict(other, q.start, s[i].date)
    requires IsBackfill(s, q, before, after) && IsBackfill(t, q.(end := end'), before, after')
    ensures At(after, s[i].date) == At(after', s[i].date)
  {
    SeriesUpTo(bars, q.proxy, q.start, q.end, s, i);
    SeriesUpTo(other, q.proxy, q.start, end', t, j);
    SeriesOfRestriction(bars, other, q.proxy, q.start, s[i].date, s[..i + 1]);
    SeriesIsUnique(other, q.proxy, q.start, s[i].date, s[..i + 1], t[..j + 1]);
    hide IsSeries, Restrict;
  }

  // ---------------------------------------------------------------- live rows, and running again

  /** One run of the tool: its series and what it was asked for. */
  datatype Pass = Pass(series: seq<Entry>, q: Request)

  /** The run has a period to write over the date, and its upsert works. */
  ghost predicate Aims(p: Pass, date: string) {
    exists i: nat :: && i < |p.series| && p.series[i].date == date
                     && p.q.detect(p.series[..i + 1]).Some? && p.q.upserts(date)
  }

  ghost predicate ArePasses(passes: seq<Pass>, stores: seq<map<string, Row>>) {
    && |stores| == |passes| + 1
    && forall i :: 0 <= i < |passes| ==>
         && IsBackfill(passes[i].series, passes[i].q, stores[i], stores[i + 1])
         && forall j, k :: 0 <= j < k < |passes[i].series| ==> passes[i].series[j].date != passes[i].series[k].date
  }

  /** One run: a live row stays if it is not aimed at or is looked up, and is made synthetic
      otherwise; a synthetic row stays synthetic. */
  lemma PassOverRow(p: Pass, before: map<string, Row>, after: map<string, Row>, date: string)
    requires IsBackfill(p.series, p.q, before, after) && date in before
    requires forall j, k :: 0 <= j < k < |p.series| ==> p.series[j].date != p.series[k].date
    ensures date in after
    ensures before[date].synthetic ==> after[date].synthetic
    ensures !before[date].synthetic && (Aims(p, date) ==> p.q.looksUp(date)) ==> after[date] == before[date]
    ensures !before[date].synthetic && Aims(p, date) && !p.q.looksUp(date) ==> after[date].synthetic
  {
    var s := p.series;
    if i: nat :| i < |s| && s[i].date == date {
      assert s[..i + 1][|s[..i + 1]| - 1] == s[i];
      assert At(after, date) == RowAfter(before, p.q, s[..i + 1]);
      OnlyThen(p, i, date);
      hide IsBackfill, Aims;
    } else {
      assert forall e :: e in s ==> e.date != date;
      assert At(after, date) == At(before, date);
      hide IsBackfill;
    }
  }

  lemma OnlyThen(p: Pass, i: nat, date: string)
    requires i < |p.series| && p.series[i].date == date
    requires forall j, k :: 0 <= j < k < |p.series| ==> p.series[j].date != p.series[k].date
    ensures Aims(p, date) <==> p.q.detect(p.series[..i + 1]).Some? && p.q.upserts(date)
  {
    assert forall k: nat :: k < |p.series| && p.series[k].date == date ==> k == i;
  }

  lemma {:induction false} SyntheticForGood(passes: seq<Pass>, stores: seq<map<string, Row>>, date: string)
    requires ArePasses(passes, stores) && date in stores[0] && stores[0][date].synthetic
    ensures date in stores[|passes|] && stores[|passes|][date].synthetic
  {
    if passes != [] {
      PassOverRow(passes[0], stores[0], stores[1], date);
      SyntheticForGood(passes[1..], stores[1..], date);
    }
  }

  /** A live row outlives any number of runs exactly when every run that has a period to write
      over it can look it up: the source's promise that it is never overwritten holds no
      further, and a row once overwritten stays so. */
  lemma {:induction false} LiveRowSurvivesIff(passes: seq<Pass>, stores: seq<map<string, Row>>, date: string)
    requires ArePasses(passes, stores) && date in stores[0] && !stores[0][date].synthetic
    ensures date in stores[|passes|]
    ensures stores[|passes|][date] == stores[0][date] <==>
      forall i :: 0 <= i < |passes| && Aims(passes[i], date) ==> passes[i].q.looksUp(date)
  {
    hide IsBackfill, Aims;
    if passes != [] {
      var (p, rest) := (passes[0], passes[1..]);
      PassOverRow(p, stores[0], stores[1], date);
      assert passes == [p] + rest && stores[1..][|rest|] == stores[|passes|];
      if Aims(p, date) && !p.q.looksUp(date) {
        SyntheticForGood(rest, stores[1..], date);
      } else {
        LiveRowSurvivesIff(rest, stores[1..], date);
        assert forall i :: 0 <= i < |rest| ==> rest[i] == passes[i + 1];
        forall i | 0 <= i < |passes| && Aims(passes[i], date) && (forall k :: 0 <= k < |rest| && Aims(rest[k], date) ==> rest[k].q.looksUp(date))
          ensures passes[i].q.looksUp(date)
        {
          if i > 0 {
            assert passes[i] == rest[i - 1];
          }
        }
      }
    }
  }

  /** Running again, whenever and with whatever operations failing, leaves every period that
      the first run wrote as it was. */
  lemma RunningAgainKeepsPeriods(s: seq<Entry>, q: Request, again: Request, before: map<string, Row>,
                                 once: map<string, Row>, twice: map<string, Row>, i: nat)
    requires again == q.(now := again.now, looksUp := again.looksUp, upserts := again.upserts)
    requires IsBackfill(s, q, before, once) && IsBackfill(s, again, once, twice) && i < |s|
    requires At(once, s[i].date) != At(before, s[i].date)
    ensures At(twice, s[i].date).Some? && At(once, s[i].date).Some?
    ensures At(twice, s[i].date).value.period == At(once, s[i].date).value.period
    ensures At(twice, s[i].date).value.synthetic
  {
    assert s[..i + 1][|s[..i + 1]| - 1] == s[i];
  }
}

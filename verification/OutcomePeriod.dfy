/** backfill-outcome-period: filling the market period of outcomes that have none, from the
    period history of their trading day. */
module OutcomePeriod {
  import opened Wrappers
  import opened Text
  import opened Calendar
  import opened DateText
  import opened Counting

  const MAX_UNATTENDED_ROWS := 1000

  datatype Period = Period(name: string, synthetic: bool)

  type History = map<string, Period>

  function SourceOf(p: Period): string {
    if p.synthetic then "synthetic" else "live"
  }

  // ---------------------------------------------------------------- the outcomes table

  datatype Row = Row(timestamp: string, period: Option<string>, source: Option<string>, rest: string)

  /** substr(timestamp, 1, 10). */
  function DayOfRow(r: Row): string {
    if |r.timestamp| < 10 then r.timestamp else r.timestamp[..10]
  }

  /** What a run is asked for: the history and the trading-day window. */
  datatype Request = Request(history: History, start: string, end: string)

  predicate IsCandidate(r: Row, q: Request) {
    r.period.None? && InWindow(q.start, q.end, DayOfRow(r))
  }

  predicate IsMatch(r: Row, q: Request) {
    IsCandidate(r, q) && DayOfRow(r) in q.history
  }

  function Fill(r: Row, q: Request): Row {
    if !IsMatch(r, q) then r
    else
      var p := q.history[DayOfRow(r)];
      r.(period := Some(p.name), source := Some(SourceOf(p)))
  }

  datatype Tally = Tally(total: nat, matched: nat, unmatched: nat)

  predicate MayUpdate(t: Tally, force: bool) {
    force || t.matched <= MAX_UNATTENDED_ROWS
  }

  ghost function Changed(before: seq<Row>, after: seq<Row>): set<nat>
    requires |before| == |after|
  {
    set i: nat | i < |before| && after[i] != before[i]
  }

  lemma {:induction false} MatchesAreCandidates(rows: seq<Row>, q: Request)
    ensures CountIf(rows, r => IsMatch(r, q)) <= CountIf(rows, r => IsCandidate(r, q))
  {
    if rows != [] {
      MatchesAreCandidates(rows[1..], q);
    }
  }

  class OutcomesTable {
    var rows: seq<Row>

    constructor (rows: seq<Row>)
      ensures this.rows == rows
    {
      this.rows := rows;
    }

    /** backfillSQLiteDB: count, guard, update. */
    method Backfill(q: Request, dryRun: bool, force: bool) returns (t: Tally, refused: bool)
      modifies this
      ensures t.total == CountIf(old(rows), r => IsCandidate(r, q))
      ensures t.matched == CountIf(old(rows), r => IsMatch(r, q))
      ensures t.total == t.matched + t.unmatched
      ensures refused <==> !dryRun && t.matched > 1000 && !force
      ensures |rows| == |old(rows)|
      ensures forall i :: 0 <= i < |rows| ==>
                rows[i] == if dryRun || refused then old(rows)[i] else Fill(old(rows)[i], q)
      ensures forall i :: 0 <= i < |rows| ==>
                (rows[i] != old(rows)[i] <==> !dryRun && !refused && IsEmptyInWindow(old(rows)[i], q))
      ensures |Changed(old(rows), rows)| == if dryRun || refused then 0 else t.matched
      ensures |Changed(old(rows), rows)| > 1000 ==> force
    {
      var total := CountIf(rows, r => IsCandidate(r, q));
      var matched := CountIf(rows, r => IsMatch(r, q));
      MatchesAreCandidates(rows, q);
      t, refused := Tally(total, matched, total - matched), false;
      FillingChangesMatches(rows, q);
      EveryFillIsExact(rows, q);
      NothingChanged(rows);
      if dryRun || t.matched == 0 {
        NoneCounted(rows, r => IsMatch(r, q));
        return;
      }
      if !MayUpdate(t, force) {
        refused := true;
        return;
      }
      rows := FillAll(rows, q);
    }
  }

  function FillAll(rows: seq<Row>, q: Request): seq<Row> {
    seq(|rows|, i requires 0 <= i < |rows| => Fill(rows[i], q))
  }

  lemma NothingChanged(rows: seq<Row>)
    ensures Changed(rows, rows) == {}
  {
  }

  /** A window of dates, either end open when "". */
  ghost predicate Within(start: string, end: string, d: string) {
    (start == "" || !LexLess(d, start)) && (end == "" || !LexLess(end, d))
  }

  /** The day a timestamp starts with. */
  ghost predicate IsDayOf(d: string, timestamp: string) {
    d <= timestamp && |d| == if |timestamp| < 10 then |timestamp| else 10
  }

  /** The row has no period, and its day lies in the window and has a history. */
  ghost predicate IsEmptyInWindow(r: Row, q: Request) {
    r.period == None && exists d :: IsDayOf(d, r.timestamp) && Within(q.start, q.end, d) && d in q.history
  }

  /** Exactly such a row is changed; it then carries that history's period and where the
      period came from. */
  lemma FillingIsExact(r: Row, q: Request, d: string)
    requires IsDayOf(d, r.timestamp)
    ensures Fill(r, q) != r <==> r.period == None && Within(q.start, q.end, d) && d in q.history
    ensures Fill(r, q) != r ==>
              Fill(r, q) == Row(r.timestamp, Some(q.history[d].name),
                                Some(if q.history[d].synthetic then "synthetic" else "live"), r.rest)
    ensures IsCandidate(r, q) <==> r.period == None && Within(q.start, q.end, d)
  {
    hide LexLess;
    assert d == DayOfRow(r);
  }

  lemma EveryFillIsExact(rows: seq<Row>, q: Request)
    ensures forall i :: 0 <= i < |rows| ==> (Fill(rows[i], q) != rows[i] <==> IsEmptyInWindow(rows[i], q))
  {
    forall i | 0 <= i < |rows| ensures Fill(rows[i], q) != rows[i] <==> IsEmptyInWindow(rows[i], q) {
      var d := DayOfRow(rows[i]);
      assert IsDayOf(d, rows[i].timestamp);
      assert forall e :: IsDayOf(e, rows[i].timestamp) ==> e == d;
      FillingIsExact(rows[i], q, d);
      hide Fill, Within;
    }
  }

  /** The update's blast radius is exactly the matched rows. */
  lemma FillingChangesMatches(rows: seq<Row>, q: Request)
    ensures |Changed(rows, FillAll(rows, q))| == CountIf(rows, r => IsMatch(r, q))
    ensures forall i: nat :: i in Changed(rows, FillAll(rows, q)) <==> i < |rows| && IsMatch(rows[i], q)
  {
    CountIsSize(rows, r => IsMatch(r, q));
    forall r ensures Fill(r, q) != r <==> IsMatch(r, q) {
    }
    assert Changed(rows, FillAll(rows, q)) == Positions(rows, r => IsMatch(r, q));
  }

  /** A second pass over a filled table finds nothing to match and changes nothing. */
  lemma SecondPassChangesNothing(rows: seq<Row>, q: Request)
    ensures CountIf(FillAll(rows, q), r => IsMatch(r, q)) == 0
    ensures FillAll(FillAll(rows, q), q) == FillAll(rows, q)
  {
    NoneCounted(FillAll(rows, q), r => IsMatch(r, q));
  }

  // ---------------------------------------------------------------- the JSONL files

  datatype Outcome = Outcome(window: string, recordedAt: Option<Time>, period: string, source: string, rest: string)

  /** How outcomes are written as lines. */
  datatype Codec = Codec(decode: string -> Option<Outcome>, encode: Outcome -> string)

  ghost predicate Faithful(c: Codec) {
    forall o :: c.decode(c.encode(o)) == Some(o) && !IsBlank(c.encode(o))
  }

  predicate IsBlank(line: string) {
    TrimSpace(line) == ""
  }

  /** A date-shaped Window wins; the recording date is the fallback. */
  function TradingDateOf(o: Outcome): string {
    if |o.window| == 10 && o.window[4] == '-' && o.window[7] == '-' then o.window
    else if o.recordedAt.Some? then FormatDay(LocalDay(o.recordedAt.value))
    else ""
  }

  function PeriodFor(q: Request, date: string): Option<Period> {
    if !InWindow(q.start, q.end, date) || date !in q.history then None else Some(q.history[date])
  }

  predicate Fillable(o: Outcome, q: Request) {
    o.period == "" && o.source == "" && PeriodFor(q, TradingDateOf(o)).Some?
  }

  function FillOutcome(o: Outcome, q: Request): Outcome
    requires Fillable(o, q)
  {
    var p := PeriodFor(q, TradingDateOf(o)).value;
    o.(period := p.name, source := SourceOf(p))
  }

  /** What a line becomes if the file is rewritten. */
  function LineAfter(line: string, c: Codec, q: Request): string {
    if IsBlank(line) then ""
    else
      var o := c.decode(line);
      if o.None? || !Fillable(o.value, q) then line else c.encode(FillOutcome(o.value, q))
  }

  predicate IsExamined(line: string) {
    !IsBlank(line)
  }

  predicate IsFilled(line: string, c: Codec, q: Request) {
    !IsBlank(line) && c.decode(line).Some? && Fillable(c.decode(line).value, q)
  }

  predicate Decodes(line: string, c: Codec) {
    IsBlank(line) || c.decode(line).Some?
  }

  datatype Pass = Pass(examined: nat, filled: nat)

  /** backfillJSONLFile: `written` is the file's new contents, if it is replaced at all. */
  method BackfillJsonl(lines: seq<string>, c: Codec, q: Request, dryRun: bool)
    returns (r: Result<Pass, nat>, written: Option<seq<string>>)
    ensures r.Ok? <==> forall i :: 0 <= i < |lines| ==> Decodes(lines[i], c)
    ensures r.Err? ==>
              && r.error < |lines| && !Decodes(lines[r.error], c) && written.None?
              && forall i :: 0 <= i < r.error ==> Decodes(lines[i], c)
    ensures r.Ok? ==>
              && r.value.examined == CountIf(lines, line => IsExamined(line))
              && r.value.filled == CountIf(lines, line => IsFilled(line, c, q))
              && (written.Some? <==> r.value.filled > 0 && !dryRun)
    ensures written.Some? ==>
              && |written.value| == |lines|
              && forall i :: 0 <= i < |lines| ==> written.value[i] == LineAfter(lines[i], c, q)
  {
    var examined, filled := 0, 0;
    var out: seq<string> := [];
    var changed := false;
    hide TradingDateOf, TrimSpace, InWindow, FormatDay, CountIf;
    for n := 0 to |lines|
      invariant |out| == n
      invariant forall i :: 0 <= i < n ==> Decodes(lines[i], c) && out[i] == LineAfter(lines[i], c, q)
      invariant examined == CountIf(lines[..n], line => IsExamined(line))
      invariant filled == CountIf(lines[..n], line => IsFilled(line, c, q))
      invariant changed <==> filled > 0
    {
      var raw := lines[n];
      assert lines[..n + 1] == lines[..n] + [raw];
      CountGrows(lines[..n], raw, line => IsExamined(line));
      CountGrows(lines[..n], raw, line => IsFilled(line, c, q));
      if IsBlank(raw) {
        out := out + [""];
        continue;
      }
      var o := c.decode(raw);
      if o.None? {
        return Err(n), None;
      }
      examined := examined + 1;
      if o.value.period != "" || o.value.source != "" {
        out := out + [raw];
        continue;
      }
      var p := PeriodFor(q, TradingDateOf(o.value));
      if p.None? {
        out := out + [raw];
        continue;
      }
      filled := filled + 1;
      out := out + [c.encode(o.value.(period := p.value.name, source := SourceOf(p.value)))];
      changed := true;
    }
    assert lines[..|lines|] == lines;
    return Ok(Pass(examined, filled)), if changed && !dryRun then Some(out) else None;
  }

  /** The trading date a row is put under. */
  ghost predicate IsTradingDate(d: string, o: Outcome) {
    if |o.window| == 10 && o.window[4] == '-' == o.window[7] then d == o.window
    else d == match o.recordedAt case None => "" case Some(t) => FormatDay(LocalDay(t))
  }

  /** What a rewritten file makes of a line: white space is dropped; a row with neither period
      nor source whose day lies in the window and has a history gets that period and where it
      came from; every other line is as it was. */
  lemma LineIsExact(line: string, c: Codec, q: Request, o: Outcome, d: string)
    requires c.decode(line) == Some(o) && IsTradingDate(d, o)
    ensures LineAfter(line, c, q) ==
              if IsBlank(line) then ""
              else if o.period == "" && o.source == "" && Within(q.start, q.end, d) && d in q.history then
                c.encode(Outcome(o.window, o.recordedAt, q.history[d].name,
                                 if q.history[d].synthetic then "synthetic" else "live", o.rest))
              else line
  {
    hide TrimSpace, FormatDay, LexLess, IsBlank;
    assert TradingDateOf(o) == d;
    assert InWindow(q.start, q.end, d) <==> Within(q.start, q.end, d);
    hide TradingDateOf, InWindow;
  }

  lemma BlankLineIsDropped(line: string, c: Codec, q: Request)
    ensures (forall k :: k in line ==> IsSpace(k)) ==> LineAfter(line, c, q) == ""
    ensures LineAfter(line, c, q) == "" && c.decode(line).None? && line != "" ==> forall k :: k in line ==> IsSpace(k)
  {
    TrimmedAway(line);
    hide TrimSpace;
  }

  /** A rewritten file differs only where a row had neither period nor source and its day lies
      in the window with a history; white-space lines aside, which come out empty. */
  lemma OnlyEmptyRowsChange(line: string, c: Codec, q: Request)
    requires LineAfter(line, c, q) != line && !IsBlank(line)
    ensures c.decode(line).Some?
    ensures var o := c.decode(line).value;
      && o.period == "" && o.source == ""
      && InWindow(q.start, q.end, TradingDateOf(o)) && TradingDateOf(o) in q.history
  {
    hide InWindow, TradingDateOf, TrimSpace;
  }

  lemma FilledStaysFilled(line: string, c: Codec, q: Request)
    requires Faithful(c)
    ensures !IsFilled(LineAfter(line, c, q), c, q)
  {
    EmptyIsBlank();
    hide InWindow, TradingDateOf, IsBlank;
  }

  lemma EmptyIsBlank()
    ensures IsBlank("")
  {
  }

  /** So a second pass over a rewritten file fills nothing and leaves it alone. */
  lemma SecondPassFillsNothing(lines: seq<string>, written: seq<string>, c: Codec, q: Request)
    requires Faithful(c) && |written| == |lines|
    requires forall i :: 0 <= i < |lines| ==> written[i] == LineAfter(lines[i], c, q)
    ensures CountIf(written, line => IsFilled(line, c, q)) == 0
  {
    forall i | 0 <= i < |lines| ensures !IsFilled(written[i], c, q) {
      FilledStaysFilled(lines[i], c, q);
    }
    NoneCounted(written, line => IsFilled(line, c, q));
  }
}

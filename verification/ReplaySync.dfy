/** The auto_backfill task: fetch what the replay CSV misses, then bring the JSONL derived
    from it up to date, whatever became of the fetch. */
module ReplaySync {
  import opened Wrappers
  import opened Text
  import opened Sorting
  import opened Calendar
  import opened TradingDay
  import opened ReplayWindow

  /** A row of the CSV: a bar; a row whose date does not parse; or a syntax error, past which
      nothing can be read. */
  datatype CsvRow = Bar(day: int, symbol: string, bar: string) | BadDate | BadSyntax

  datatype Csv = NoCsv | Csv(rows: seq<CsvRow>)

  /** A non-empty line of the JSONL. */
  datatype Line = Converted(day: int, symbol: string, bar: string) | Junk

  datatype Jsonl = NoJsonl | Jsonl(lines: seq<Line>)

  // ---------------------------------------------------------------- the newest date, three ways

  /** getLatestReplayDate: bad dates are passed over and a syntax error ends the reading. */
  function NewestTolerated(rows: seq<CsvRow>): Option<int> {
    if rows == [] || rows[0].BadSyntax? then None
    else
      var rest := NewestTolerated(rows[1..]);
      if rows[0].BadDate? || (rest.Some? && rest.value >= rows[0].day) then rest else Some(rows[0].day)
  }

  predicate Loads(rows: seq<CsvRow>) {
    forall r :: r in rows ==> r.Bar?
  }

  /** The converter's loader refuses a CSV with any bad row, or none at all. */
  function CsvLatest(c: Csv): Option<int> {
    if c.NoCsv? || !Loads(c.rows) then None else NewestTolerated(c.rows)
  }

  /** The last line's date stands for the file's newest. */
  function JsonlLatest(j: Jsonl): Option<int> {
    if j.NoJsonl? || j.lines == [] || j.lines[|j.lines| - 1].Junk? then None
    else Some(j.lines[|j.lines| - 1].day)
  }

  lemma {:induction false} NewestIsTheMaximum(rows: seq<CsvRow>)
    requires Loads(rows)
    ensures NewestTolerated(rows).None? <==> rows == []
    ensures rows != [] ==>
              && (exists r :: r in rows && r.day == NewestTolerated(rows).value)
              && (forall r :: r in rows ==> r.day <= NewestTolerated(rows).value)
  {
    if rows != [] {
      assert rows[0] in rows && forall r :: r in rows[1..] ==> r in rows;
      NewestIsTheMaximum(rows[1..]);
      assert forall r :: r in rows ==> r == rows[0] || r in rows[1..];
    }
  }

  // ---------------------------------------------------------------- the conversion

  type Key = (int, string)

  predicate KeyLeq(a: Key, b: Key) {
    a.0 < b.0 || (a.0 == b.0 && LexLeq(a.1, b.1))
  }

  /** The bar of a key: that of its last row. */
  function LastBar(rows: seq<CsvRow>, k: Key): Option<string> {
    if rows == [] then None
    else
      var r := rows[|rows| - 1];
      if r.Bar? && (r.day, r.symbol) == k then Some(r.bar) else LastBar(rows[..|rows| - 1], k)
  }

  function KeyOf(l: Line): Key {
    if l.Converted? then (l.day, l.symbol) else (0, "")
  }

  /** A conversion of the rows: a line for each key, holding its last bar, in key order. */
  ghost predicate IsConversion(rows: seq<CsvRow>, lines: seq<Line>) {
    && (forall l :: l in lines ==> l.Converted? && LastBar(rows, KeyOf(l)) == Some(l.bar))
    && (forall k: Key :: LastBar(rows, k).Some? ==> exists i :: 0 <= i < |lines| && KeyOf(lines[i]) == k)
    && (forall i, j :: 0 <= i < j < |lines| ==> KeyLeq(KeyOf(lines[i]), KeyOf(lines[j])) && KeyOf(lines[i]) != KeyOf(lines[j]))
  }

  lemma KeyOrderIsTotal()
    ensures TotalPreorder(KeyLeq)
  {
    forall a: Key, b: Key ensures KeyLeq(a, b) || KeyLeq(b, a) {
      LexTotal(a.1, b.1);
    }
    forall a: Key, b: Key, c: Key | KeyLeq(a, b) && KeyLeq(b, c) ensures KeyLeq(a, c) {
      if a.0 == b.0 == c.0 {
        LexLeqTransitive(a.1, b.1, c.1);
      }
    }
  }

  method Convert(rows: seq<CsvRow>) returns (lines: seq<Line>)
    requires Loads(rows)
    ensures IsConversion(rows, lines)
  {
    var bars: map<Key, string> := map[];
    for n := 0 to |rows|
      invariant forall k: Key :: (if k in bars then Some(bars[k]) else None) == LastBar(rows[..n], k)
    {
      assert rows[..n + 1][..n] == rows[..n] && rows[n] in rows;
      bars := bars[(rows[n].day, rows[n].symbol) := rows[n].bar];
    }
    assert rows[..|rows|] == rows;
    KeyOrderIsTotal();
    var keys := SortedSet(KeyLeq, bars.Keys);
    lines := [];
    for n := 0 to |keys|
      invariant |lines| == n
      invariant forall i :: 0 <= i < n ==> lines[i] == Converted(keys[i].0, keys[i].1, bars[keys[i]])
    {
      assert keys[n] in keys;
      lines := lines + [Converted(keys[n].0, keys[n].1, bars[keys[n]])];
    }
    forall k: Key | LastBar(rows, k).Some? ensures exists i :: 0 <= i < |lines| && KeyOf(lines[i]) == k {
      assert k in keys;
      var i :| 0 <= i < |keys| && keys[i] == k;
      assert KeyOf(lines[i]) == k;
    }
  }

  lemma {:induction false} EveryRowHasABar(rows: seq<CsvRow>, r: CsvRow)
    requires r in rows && r.Bar?
    ensures LastBar(rows, (r.day, r.symbol)).Some?
  {
    if r != rows[|rows| - 1] {
      EveryRowHasABar(rows[..|rows| - 1], r);
    }
  }

  lemma {:induction false} EveryBarHasARow(rows: seq<CsvRow>, k: Key)
    requires LastBar(rows, k).Some?
    ensures exists r :: r in rows && r.Bar? && (r.day, r.symbol) == k
  {
    var r := rows[|rows| - 1];
    if !(r.Bar? && (r.day, r.symbol) == k) {
      EveryBarHasARow(rows[..|rows| - 1], k);
    }
  }

  /** Row order makes the last line's date the newest: both files then show the same date. */
  lemma ConversionCatchesUp(rows: seq<CsvRow>, lines: seq<Line>)
    requires Loads(rows) && rows != [] && IsConversion(rows, lines)
    ensures JsonlLatest(Jsonl(lines)) == CsvLatest(Csv(rows)) == NewestTolerated(rows)
  {
    NewestIsTheMaximum(rows);
    var newest :| newest in rows && newest.day == NewestTolerated(rows).value;
    EveryRowHasABar(rows, newest);
    var i :| 0 <= i < |lines| && KeyOf(lines[i]) == (newest.day, newest.symbol);
    var last := lines[|lines| - 1];
    assert last in lines && lines[i] in lines;
    EveryBarHasARow(rows, KeyOf(last));
    hide LastBar, NewestTolerated, LexLess;
    assert i < |lines| - 1 ==> KeyLeq(KeyOf(lines[i]), KeyOf(last));
  }

  /** One CSV has one conversion. */
  lemma ConversionIsUnique(rows: seq<CsvRow>, a: seq<Line>, b: seq<Line>)
    requires IsConversion(rows, a) && IsConversion(rows, b)
    ensures a == b
  {
    var leq := (x: Line, y: Line) => KeyLeq(KeyOf(x), KeyOf(y));
    SameLines(rows, a, b);
    SameLines(rows, b, a);
    OnceEach(a, b);
    forall x, y | x in a && y in a && leq(x, y) && leq(y, x) ensures x == y {
      LexTotal(KeyOf(x).1, KeyOf(y).1);
    }
    AscendingIsUnique(leq, a, b);
  }

  lemma SameLines(rows: seq<CsvRow>, a: seq<Line>, b: seq<Line>)
    requires IsConversion(rows, a) && IsConversion(rows, b)
    ensures forall l :: l in a ==> l in b
    ensures Distinct(a)
  {
    forall l | l in a ensures l in b {
      var i :| 0 <= i < |b| && KeyOf(b[i]) == KeyOf(l);
      assert b[i] in b;
    }
  }

  lemma OnceEach(a: seq<Line>, b: seq<Line>)
    requires Distinct(a) && Distinct(b) && forall l :: l in a <==> l in b
    ensures multiset(a) == multiset(b)
  {
    forall l ensures multiset(a)[l] == multiset(b)[l] {
      Once(a, l);
      Once(b, l);
      assert l in a <==> l in multiset(a);
      assert l in b <==> l in multiset(b);
    }
  }

  // ---------------------------------------------------------------- the gate

  /** The newest date of each file, where it could be read. */
  datatype Freshness = Freshness(csv: Option<int>, jsonl: Option<int>)

  function FreshnessOf(c: Csv, j: Jsonl): Freshness {
    Freshness(CsvLatest(c), if CsvLatest(c).None? then None else JsonlLatest(j))
  }

  predicate ConversionNeeded(f: Freshness) {
    f.csv.Some? && f.jsonl != f.csv
  }

  datatype Outcome = Done | ReadFailed | FetchFailed

  /** How a fetch goes, if one is made: its exit, and the CSV as it leaves it. */
  datatype Fetch = Fetch(ok: bool, csv: Csv)

  /** The task's two files. */
  class Replay {
    var csv: Csv
    var jsonl: Jsonl

    constructor (csv: Csv, jsonl: Jsonl)
      ensures this.csv == csv && this.jsonl == jsonl
    {
      this.csv, this.jsonl := csv, jsonl;
    }

    /** syncReplayJSONLFromCSV. The conversion replaces the file atomically or not at all. */
    method Sync(importWorks: bool) returns (ok: bool)
      modifies this`jsonl
      ensures ok <==> !ConversionNeeded(FreshnessOf(csv, old(jsonl))) || importWorks
      ensures if ConversionNeeded(FreshnessOf(csv, old(jsonl))) && importWorks
              then jsonl.Jsonl? && IsConversion(csv.rows, jsonl.lines)
              else jsonl == old(jsonl)
      ensures CsvLatest(csv).Some? && ok ==> JsonlLatest(jsonl) == CsvLatest(csv)
    {
      var ages := FreshnessOf(csv, jsonl);
      if ages.csv.None? {
        return true;
      }
      if !ConversionNeeded(ages) {
        return true;
      }
      if !importWorks {
        return false;
      }
      var lines := Convert(csv.rows);
      ConversionCatchesUp(csv.rows, lines);
      jsonl := Jsonl(lines);
      return true;
    }

    /** runAutoBackfill. The error is the fetch's, and the fetch does not decide whether the
        JSONL is refreshed; a CSV with no readable date at all stops the task before either.
        `asked` is the window the fetch command is run over, if it is. */
    method RunAutoBackfill(now: Time, fetch: Fetch, importWorks: bool)
      returns (r: Outcome, asked: Option<(int, int)>)
      modifies this
      ensures r == ReadFailed <==> Newest(old(csv)).None?
      ensures r == FetchFailed <==> asked.Some? && !fetch.ok
      ensures asked.Some? <==> exists d :: Misses(old(csv), d, now)
      ensures forall d :: Misses(old(csv), d, now)
                     <==> asked.Some? && IsWeekday(d) && asked.value.0 <= d <= asked.value.1
      ensures csv == CsvAfter(old(csv), now, fetch)
      ensures if r == ReadFailed then jsonl == old(jsonl) else JsonlFollows(csv, old(jsonl), jsonl, importWorks)
    {
      var newest := Newest(csv);
      if newest.None? {
        return ReadFailed, None;
      }
      r, asked := Done, None;
      var start, end := ReplayBackfillWindow(Midnight(newest.value, 0), now);
      assert forall d :: IsMissing(d, Midnight(newest.value, 0), now) <==> Misses(csv, d, now);
      if start.unix <= end.unix {
        asked := Some((LocalDay(start), LocalDay(end)));
        csv := fetch.csv;
        if !fetch.ok {
          r := FetchFailed;
        }
      }
      var _ := Sync(importWorks);
    }
  }

  /** The day is a settled weekday newer than every date the CSV shows. */
  ghost predicate Misses(c: Csv, day: int, now: Time) {
    Newest(c).Some? && IsSettled(day, now, SETTLEMENT) && Newest(c).value < day
  }

  ghost function CsvAfter(c: Csv, now: Time, fetch: Fetch): Csv {
    if exists d :: Misses(c, d, now) then fetch.csv else c
  }

  function Newest(c: Csv): Option<int> {
    if c.NoCsv? then None else NewestTolerated(c.rows)
  }

  ghost predicate JsonlFollows(c: Csv, before: Jsonl, after: Jsonl, importWorks: bool) {
    if ConversionNeeded(FreshnessOf(c, before)) && importWorks
    then after.Jsonl? && IsConversion(c.rows, after.lines)
    else after == before
  }

  /** After the gate the two dates agree, in whichever direction they differed before,
      exactly when the CSV loads and the conversion, if one was needed, worked. */
  lemma DatesConvergeIff(c: Csv, before: Jsonl, after: Jsonl, importWorks: bool)
    requires JsonlFollows(c, before, after, importWorks)
    ensures (CsvLatest(c).Some? && JsonlLatest(after) == CsvLatest(c))
       <==> CsvLatest(c).Some? && (importWorks || JsonlLatest(before) == CsvLatest(c))
  {
    if ConversionNeeded(FreshnessOf(c, before)) && importWorks {
      ConversionCatchesUp(c.rows, after.lines);
    }
  }

  /** Once converged, another pass over the same CSV writes nothing. */
  lemma SecondPassWritesNothing(c: Csv, before: Jsonl, after: Jsonl, again: Jsonl, importWorks: bool)
    requires JsonlFollows(c, before, after, true) && JsonlFollows(c, after, again, importWorks)
    ensures again == after
  {
    DatesConvergeIff(c, before, after, true);
  }

  /** The JSONL is what the CSV converts to. */
  ghost predicate InStep(c: Csv, j: Jsonl) {
    c.Csv? && j.Jsonl? && IsConversion(c.rows, j.lines)
  }

  ghost predicate SameContent(c: Csv, d: Csv) {
    c.Csv? && d.Csv? && forall k: Key :: LastBar(c.rows, k) == LastBar(d.rows, k)
  }

  /** A history of the two files: the CSV changes in whatever way, then the gate runs. */
  ghost predicate IsHistory(csvs: seq<Csv>, jsonls: seq<Jsonl>, importWorks: seq<bool>) {
    && |csvs| == |jsonls| == |importWorks| + 1
    && (forall i :: 0 <= i < |csvs| ==> CsvLatest(csvs[i]).Some?)
    && forall i :: 0 <= i < |importWorks| ==> JsonlFollows(csvs[i + 1], jsonls[i], jsonls[i + 1], importWorks[i])
  }

  lemma ConversionTellsContent(c: Csv, d: Csv, j: Jsonl)
    requires InStep(c, j) && d.Csv?
    ensures InStep(d, j) <==> SameContent(c, d)
  {
    if InStep(d, j) {
      forall k: Key ensures LastBar(c.rows, k) == LastBar(d.rows, k) {
        if LastBar(c.rows, k).Some? {
          var i :| 0 <= i < |j.lines| && KeyOf(j.lines[i]) == k;
          assert j.lines[i] in j.lines;
        }
        if LastBar(d.rows, k).Some? {
          var i :| 0 <= i < |j.lines| && KeyOf(j.lines[i]) == k;
          assert j.lines[i] in j.lines;
        }
      }
    }
    hide LastBar;
  }

  /** One change of the CSV and one pass of the gate. */
  lemma StaysInStepIff(c: Csv, d: Csv, before: Jsonl, after: Jsonl, importWorks: bool)
    requires CsvLatest(c).Some? && CsvLatest(d).Some? && InStep(c, before)
    requires JsonlFollows(d, before, after, importWorks)
    ensures InStep(d, after) <==> SameContent(c, d) || (CsvLatest(c) != CsvLatest(d) && importWorks)
  {
    if c.rows != [] {
      ConversionCatchesUp(c.rows, before.lines);
    }
    ConversionTellsContent(c, d, before);
    hide IsConversion, SameContent;
  }

  /** The change from d to e is one the gate carries over. */
  ghost predicate Carried(d: Csv, e: Csv, importWorks: bool) {
    SameContent(d, e) || (CsvLatest(d) != CsvLatest(e) && importWorks)
  }

  /** The gate compares newest dates only. Started in step, the JSONL is the CSV's conversion
      all along exactly when every change of the CSV's content moves its newest date and is
      imported: a correction behind the newest date is not carried over. */
  lemma {:induction false} ContentConvergesIff(csvs: seq<Csv>, jsonls: seq<Jsonl>, importWorks: seq<bool>)
    requires IsHistory(csvs, jsonls, importWorks) && InStep(csvs[0], jsonls[0])
    ensures (forall i :: 0 <= i < |csvs| ==> InStep(csvs[i], jsonls[i]))
       <==> forall i :: 0 <= i < |importWorks| ==> Carried(csvs[i], csvs[i + 1], importWorks[i])
  {
    forall i | 0 <= i < |importWorks| && InStep(csvs[i], jsonls[i])
      ensures InStep(csvs[i + 1], jsonls[i + 1]) <==> Carried(csvs[i], csvs[i + 1], importWorks[i])
    {
      StaysInStepIff(csvs[i], csvs[i + 1], jsonls[i], jsonls[i + 1], importWorks[i]);
    }
    hide InStep, Carried, JsonlFollows;
    if forall i :: 0 <= i < |importWorks| ==> Carried(csvs[i], csvs[i + 1], importWorks[i]) {
      for n := 0 to |importWorks|
        invariant forall i :: 0 <= i <= n ==> InStep(csvs[i], jsonls[i])
      {
        assert InStep(csvs[n], jsonls[n]) && Carried(csvs[n], csvs[n + 1], importWorks[n]);
      }
    }
  }

  lemma CorrectionIsNotCarriedOver(day: int, symbol: string, was: string, corrected: string)
    requires was != corrected
    ensures var stale := [Converted(day, symbol, was)];
      && IsConversion([Bar(day, symbol, was)], stale)
      && !IsConversion([Bar(day, symbol, corrected)], stale)
      && !ConversionNeeded(FreshnessOf(Csv([Bar(day, symbol, corrected)]), Jsonl(stale)))
  {
    var stale := [Converted(day, symbol, was)];
    OneBar(Bar(day, symbol, was));
    OneBar(Bar(day, symbol, corrected));
    assert KeyOf(stale[0]) == (day, symbol) && stale[0] in stale;
    forall k: Key | LastBar([Bar(day, symbol, was)], k).Some? ensures exists i :: 0 <= i < |stale| && KeyOf(stale[i]) == k {
      assert KeyOf(stale[0]) == k;
    }
    assert [Bar(day, symbol, corrected)][1..] == [] && NewestTolerated([]) == None;
  }

  lemma OneBar(r: CsvRow)
    requires r.Bar?
    ensures forall k: Key :: LastBar([r], k) == if k == (r.day, r.symbol) then Some(r.bar) else None
  {
    assert [r][..0] == [];
  }
}

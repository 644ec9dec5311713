/** backfill-replay-history: extending the replay universe from further sources, existing
    rows winning, keyed by symbol and calendar date. */
module ReplayMerge {
  import opened Wrappers
  import opened Text
  import opened Sorting
  import opened DateText

  datatype Bar = Bar(date: string, symbol: string, name: string,
                     open: real, high: real, low: real, close: real, volume: int, source: string)

  /** The part of a date before its first 'T'. */
  function DayPart(date: string): string {
    if date == "" || date[0] == 'T' then "" else [date[0]] + DayPart(date[1..])
  }

  function Key(symbol: string, date: string): string {
    symbol + "|" + DayPart(date)
  }

  function KeyOf(b: Bar): string {
    Key(b.symbol, b.date)
  }

  function Keys(rows: seq<Bar>): set<string> {
    set b | b in rows :: KeyOf(b)
  }

  predicate Before(a: Bar, b: Bar) {
    if a.date != b.date then LexLess(a.date, b.date) else LexLess(a.symbol, b.symbol)
  }

  predicate BarLeq(a: Bar, b: Bar) {
    !Before(b, a)
  }

  /** An empty filter admits every symbol. */
  predicate Passes(b: Bar, filter: set<string>) {
    filter == {} || b.symbol in filter
  }

  function Passing(rows: seq<Bar>, filter: set<string>): seq<Bar> {
    if rows == [] then []
    else (if Passes(rows[0], filter) then [rows[0]] else []) + Passing(rows[1..], filter)
  }

  /** The additions let in, in order: those that pass and whose key is not yet taken. */
  function Accepted(taken: set<string>, rows: seq<Bar>, filter: set<string>): seq<Bar>
    decreases rows
  {
    if rows == [] then []
    else if Passes(rows[0], filter) && KeyOf(rows[0]) !in taken then
      [rows[0]] + Accepted(taken + {KeyOf(rows[0])}, rows[1..], filter)
    else Accepted(taken, rows[1..], filter)
  }

  /** What a merge may return: sort.Slice fixes no order among rows it does not tell apart. */
  ghost predicate IsMerge(existing: seq<Bar>, additions: seq<Bar>, filter: set<string>, merged: seq<Bar>) {
    && Ascending(BarLeq, merged)
    && multiset(merged) == multiset(existing + Accepted(Keys(existing), additions, filter))
  }

  lemma NextAddition(taken: set<string>, rows: seq<Bar>, n: nat, filter: set<string>)
    requires n < |rows|
    ensures var (b, rest) := (rows[n], rows[n + 1..]);
      var enters := Passes(b, filter) && KeyOf(b) !in taken;
      && |Passing(rows[n..], filter)| == (if Passes(b, filter) then 1 else 0) + |Passing(rest, filter)|
      && Accepted(taken, rows[n..], filter)
      == (if enters then [b] else [])
         + Accepted(if enters then taken + {KeyOf(b)} else taken, rest, filter)
  {
    assert rows[n..][1..] == rows[n + 1..] && rows[n..][0] == rows[n];
  }

  lemma NothingLeft(taken: set<string>, rows: seq<Bar>, filter: set<string>)
    ensures Passing(rows[|rows|..], filter) == [] && Accepted(taken, rows[|rows|..], filter) == []
  {
  }

  method MergeBars(existing: seq<Bar>, additions: seq<Bar>, filter: set<string>)
    returns (merged: seq<Bar>, added: nat, skipped: nat)
    ensures IsMerge(existing, additions, filter, merged)
    ensures |merged| == |existing| + added
    ensures added == |Accepted(Keys(existing), additions, filter)|
    ensures added + skipped == |Passing(additions, filter)|
  {
    hide Accepted, Passing, Ascending, BarLeq;
    var index := Keys(existing);
    merged := existing;
    added, skipped := 0, 0;
    ghost var kept: seq<Bar> := [];
    assert additions[0..] == additions;
    for n := 0 to |additions|
      invariant merged == existing + kept && added == |kept|
      invariant kept + Accepted(index, additions[n..], filter) == Accepted(Keys(existing), additions, filter)
      invariant added + skipped + |Passing(additions[n..], filter)| == |Passing(additions, filter)|
    {
      var b := additions[n];
      NextAddition(index, additions, n, filter);
      if Passes(b, filter) {
        if KeyOf(b) in index {
          skipped := skipped + 1;
        } else {
          kept := kept + [b];
          index := index + {KeyOf(b)};
          merged := merged + [b];
          added := added + 1;
        }
      }
    }
    NothingLeft(index, additions, filter);
    BarOrderIsTotal();
    merged := Sort(BarLeq, merged);
    assert |multiset(merged)| == |merged|;
    assert |multiset(existing + kept)| == |existing + kept|;
  }

  lemma BarOrderIsTotal()
    ensures TotalPreorder(BarLeq)
  {
    forall a, b ensures BarLeq(a, b) || BarLeq(b, a) {
      LexTotal(a.date, b.date);
      LexTotal(a.symbol, b.symbol);
    }
    forall a, b, c | BarLeq(a, b) && BarLeq(b, c) ensures BarLeq(a, c) {
      LexTotal(a.date, b.date);
      LexTotal(b.date, c.date);
      LexTotal(a.date, c.date);
      LexLeqTransitive(a.date, b.date, c.date);
      if a.date == b.date == c.date {
        LexLeqTransitive(a.symbol, b.symbol, c.symbol);
      }
    }
  }

  /** Bars of two days are in the order of the days, and of one day in that of their symbols. */
  lemma BarsGoByDay(a: Bar, b: Bar, n: int, m: int)
    requires FourDigitYear(n) && FourDigitYear(m) && a.date == FormatDay(n) && b.date == FormatDay(m)
    ensures n < m ==> BarLeq(a, b) && !BarLeq(b, a)
    ensures n == m ==> (BarLeq(a, b) <==> !LexLess(b.symbol, a.symbol))
  {
    TextOrderIsDayOrder(n, m);
    TextOrderIsDayOrder(m, n);
    LexIrreflexive(FormatDay(n));
    hide FormatDay, LexLess;
  }

  // ---------------------------------------------------------------- keys

  /** A time of day, if any, as it follows the calendar date. */
  predicate IsTime(time: string) {
    time == "" || time[0] == 'T'
  }

  lemma {:induction false} DayPartIsTheDate(d: string, time: string)
    requires 'T' !in d && IsTime(time)
    ensures DayPart(d + time) == d
  {
    if d == "" {
      assert d + time == time;
    } else {
      assert (d + time)[0] == d[0] && (d + time)[1..] == d[1..] + time;
      DayPartIsTheDate(d[1..], time);
    }
  }

  /** Keys are equal exactly when symbol and calendar date are, whatever the times of day. */
  lemma KeySeparates(s: string, d: string, time: string, t: string, e: string, time': string)
    requires 'T' !in d && 'T' !in e && '|' !in d && '|' !in e && IsTime(time) && IsTime(time')
    ensures Key(s, d + time) == Key(t, e + time') <==> s == t && d == e
  {
    DayPartIsTheDate(d, time);
    DayPartIsTheDate(e, time');
    var (a, b) := (s + "|" + d, t + "|" + e);
    if a == b {
      assert forall i :: |s| < i < |a| ==> a[i] == d[i - |s| - 1];
      assert forall i :: |t| < i < |b| ==> b[i] == e[i - |t| - 1];
      assert a[|s|] == '|' && b[|t|] == '|';
      assert a[..|s|] == s && b[..|t|] == t;
      assert a[|s| + 1..] == d && b[|t| + 1..] == e;
    }
  }

  /** A symbol's bar of a further day is let in; another of the same day is not. */
  lemma FurtherDayIsAdded(have: Bar, more: Bar, d: string, time: string, e: string, time': string)
    requires 'T' !in d && 'T' !in e && '|' !in d && '|' !in e && IsTime(time) && IsTime(time')
    requires have.date == d + time && more.date == e + time' && have.symbol == more.symbol
    ensures Accepted(Keys([have]), [more], {}) == if d == e then [] else [more]
  {
    KeySeparates(have.symbol, d, time, more.symbol, e, time');
    assert Keys([have]) == {KeyOf(have)} by {
      assert [have][0] in [have];
    }
    assert [more][1..] == [];
  }

  const FINMIND_SOURCE := "finmind_historical"

  /** One FinMind row in replay format, if its date lies in the window. */
  function ConvertFinMindBar(b: Bar, start: string, end: string, name: string): Option<Bar> {
    if LexLess(b.date, start) || LexLess(end, b.date) then None
    else Some(b.(date := b.date + "T00:00:00Z", name := name, source := FINMIND_SOURCE))
  }

  lemma {:induction false} DayPartIgnoresTime(date: string, time: string)
    requires time != "" && time[0] == 'T'
    ensures DayPart(date + time) == DayPart(date)
  {
    if date == "" {
      assert date + time == time;
    } else {
      assert (date + time)[0] == date[0] && (date + time)[1..] == date[1..] + time;
      DayPartIgnoresTime(date[1..], time);
    }
  }

  /** A converted row collides with exactly what the FinMind row itself collides with. */
  lemma ConversionKeepsTheKey(b: Bar, start: string, end: string, name: string)
    ensures var c := ConvertFinMindBar(b, start, end, name);
      && (c.Some? <==> LexLeq(start, b.date) && LexLeq(b.date, end))
      && (c.Some? ==> KeyOf(c.value) == KeyOf(b))
      && (c.Some? ==> c.value == Bar(b.date + "T00:00:00Z", b.symbol, name, b.open, b.high, b.low, b.close, b.volume,
                                     "finmind_historical"))
  {
    DayPartIgnoresTime(b.date, "T00:00:00Z");
  }

  // ---------------------------------------------------------------- the left-biased union

  /** The row a key finds: the first that carries it. */
  function Lookup(rows: seq<Bar>, k: string): Option<Bar> {
    if rows == [] then None
    else if KeyOf(rows[0]) == k then Some(rows[0])
    else Lookup(rows[1..], k)
  }

  lemma {:induction false} LookupFindsKeys(rows: seq<Bar>, k: string)
    ensures Lookup(rows, k).Some? <==> k in Keys(rows)
  {
    if rows != [] {
      assert rows == [rows[0]] + rows[1..];
      LookupFindsKeys(rows[1..], k);
    }
  }

  lemma {:induction false} LookupFirst(a: seq<Bar>, b: seq<Bar>, k: string)
    ensures Lookup(a + b, k) == if k in Keys(a) then Lookup(a, k) else Lookup(b, k)
  {
    if a == [] {
      assert a + b == b;
    } else {
      assert (a + b)[1..] == a[1..] + b && a == [a[0]] + a[1..];
      LookupFirst(a[1..], b, k);
    }
  }

  lemma {:induction false} AcceptedLookup(taken: set<string>, rows: seq<Bar>, filter: set<string>, k: string)
    ensures Lookup(Accepted(taken, rows, filter), k)
         == if k in taken then None else Lookup(Passing(rows, filter), k)
    decreases rows
  {
    if rows != [] {
      var key := KeyOf(rows[0]);
      if Passes(rows[0], filter) {
        AcceptedLookup(taken + {key}, rows[1..], filter, k);
        AcceptedLookup(taken, rows[1..], filter, k);
      } else {
        AcceptedLookup(taken, rows[1..], filter, k);
        assert [] + Passing(rows[1..], filter) == Passing(rows[1..], filter);
      }
    }
  }

  /** Earliest source wins: a key finds in the merge what it finds in the existing rows
      followed by the filtered additions. */
  lemma EarliestSourceWins(existing: seq<Bar>, additions: seq<Bar>, filter: set<string>, k: string)
    ensures Lookup(existing + Accepted(Keys(existing), additions, filter), k)
         == Lookup(existing + Passing(additions, filter), k)
  {
    LookupFirst(existing, Accepted(Keys(existing), additions, filter), k);
    LookupFirst(existing, Passing(additions, filter), k);
    AcceptedLookup(Keys(existing), additions, filter, k);
  }

  /** Row i is an addition the merge is meant to take: its symbol passes the filter, its key is
      not taken, and no earlier one that passes has that key. */
  ghost predicate Enters(taken: set<string>, rows: seq<Bar>, filter: set<string>, i: int) {
    && 0 <= i < |rows| && (filter == {} || rows[i].symbol in filter) && KeyOf(rows[i]) !in taken
    && forall j :: 0 <= j < i && (filter == {} || rows[j].symbol in filter) ==> KeyOf(rows[j]) != KeyOf(rows[i])
  }

  lemma EntersLater(taken: set<string>, rows: seq<Bar>, filter: set<string>, i: int)
    requires 0 < i < |rows|
    ensures var now := if Enters(taken, rows, filter, 0) then taken + {KeyOf(rows[0])} else taken;
      Enters(taken, rows, filter, i) <==> Enters(now, rows[1..], filter, i - 1)
  {
    assert forall j :: 0 <= j < |rows| - 1 ==> rows[1..][j] == rows[j + 1];
    assert forall j :: 0 < j < |rows| ==> rows[j] == rows[1..][j - 1];
  }

  /** Exactly those are let in. */
  lemma {:induction false} AcceptedIff(taken: set<string>, rows: seq<Bar>, filter: set<string>, b: Bar)
    ensures b in Accepted(taken, rows, filter) <==> exists i :: Enters(taken, rows, filter, i) && rows[i] == b
    decreases rows
  {
    if rows != [] {
      var first := Enters(taken, rows, filter, 0);
      var now := if first then taken + {KeyOf(rows[0])} else taken;
      AcceptedIff(now, rows[1..], filter, b);
      assert Accepted(taken, rows, filter) == (if first then [rows[0]] else []) + Accepted(now, rows[1..], filter);
      forall i | 0 < i < |rows| ensures Enters(taken, rows, filter, i) <==> Enters(now, rows[1..], filter, i - 1) {
        EntersLater(taken, rows, filter, i);
      }
      if i :| Enters(now, rows[1..], filter, i) && rows[1..][i] == b {
        assert Enters(taken, rows, filter, i + 1) && rows[i + 1] == b;
      }
      if i :| Enters(taken, rows, filter, i) && rows[i] == b && i > 0 {
        assert Enters(now, rows[1..], filter, i - 1) && rows[1..][i - 1] == b;
      }
      hide Accepted, Enters;
    }
  }

  ghost predicate UniqueKeys(rows: seq<Bar>) {
    forall i, j :: 0 <= i < j < |rows| ==> KeyOf(rows[i]) != KeyOf(rows[j])
  }

  lemma {:induction false} AcceptedKeys(taken: set<string>, rows: seq<Bar>, filter: set<string>)
    ensures UniqueKeys(Accepted(taken, rows, filter))
    ensures forall b :: b in Accepted(taken, rows, filter) ==> b in rows && Passes(b, filter) && KeyOf(b) !in taken
    decreases rows
  {
    if rows != [] {
      assert rows == [rows[0]] + rows[1..];
      if Passes(rows[0], filter) && KeyOf(rows[0]) !in taken {
        AcceptedKeys(taken + {KeyOf(rows[0])}, rows[1..], filter);
        var rest := Accepted(taken + {KeyOf(rows[0])}, rows[1..], filter);
        assert forall j :: 0 <= j < |rest| ==> rest[j] in rest;
      } else {
        AcceptedKeys(taken, rows[1..], filter);
      }
    }
  }

  lemma UniqueKeysStay(existing: seq<Bar>, additions: seq<Bar>, filter: set<string>)
    requires UniqueKeys(existing)
    ensures UniqueKeys(existing + Accepted(Keys(existing), additions, filter))
  {
    var more := Accepted(Keys(existing), additions, filter);
    AcceptedKeys(Keys(existing), additions, filter);
    forall i, j | 0 <= i < j < |existing + more| ensures KeyOf((existing + more)[i]) != KeyOf((existing + more)[j]) {
      if i < |existing| <= j {
        assert KeyOf(existing[i]) in Keys(existing) && more[j - |existing|] in more;
      } else if |existing| <= i {
        assert more[i - |existing|] == (existing + more)[i];
      }
    }
  }

  lemma UniqueKeysForceTheOrder(rows: seq<Bar>, merged: seq<Bar>, again: seq<Bar>)
    requires UniqueKeys(rows) && multiset(rows) == multiset(merged) == multiset(again)
    requires Ascending(BarLeq, merged) && Ascending(BarLeq, again)
    ensures merged == again
  {
    forall a, b | a in merged && b in merged && BarLeq(a, b) && BarLeq(b, a) ensures a == b {
      LexTotal(a.date, b.date);
      LexTotal(a.symbol, b.symbol);
      assert a in multiset(rows) && b in multiset(rows);
      var i :| 0 <= i < |rows| && rows[i] == a;
      var j :| 0 <= j < |rows| && rows[j] == b;
    }
    AscendingIsUnique(BarLeq, merged, again);
  }

  lemma {:induction false} LookupFindsARow(rows: seq<Bar>, k: string)
    requires Lookup(rows, k).Some?
    ensures Lookup(rows, k).value in rows && KeyOf(Lookup(rows, k).value) == k
  {
    if KeyOf(rows[0]) != k {
      LookupFindsARow(rows[1..], k);
    }
  }

  lemma OneRowPerKey(rows: seq<Bar>, a: Bar, b: Bar)
    requires UniqueKeys(rows) && a in rows && b in rows && KeyOf(a) == KeyOf(b)
    ensures a == b
  {
    var i :| 0 <= i < |rows| && rows[i] == a;
    var j :| 0 <= j < |rows| && rows[j] == b;
  }

  /** So in the sorted output, too, every key finds the row of its earliest source. */
  lemma EarliestSourceWinsInTheOutput(existing: seq<Bar>, additions: seq<Bar>, filter: set<string>,
                                      merged: seq<Bar>, k: string)
    requires UniqueKeys(existing) && IsMerge(existing, additions, filter, merged)
    ensures Lookup(merged, k) == Lookup(existing + Passing(additions, filter), k)
  {
    var rows := existing + Accepted(Keys(existing), additions, filter);
    EarliestSourceWins(existing, additions, filter, k);
    UniqueKeysStay(existing, additions, filter);
    SameRowsSameKeys(merged, rows);
    LookupFindsKeys(merged, k);
    LookupFindsKeys(rows, k);
    if Lookup(rows, k).Some? {
      LookupFindsARow(merged, k);
      LookupFindsARow(rows, k);
      assert Lookup(merged, k).value in multiset(rows);
      OneRowPerKey(rows, Lookup(merged, k).value, Lookup(rows, k).value);
    }
  }

  lemma SameRowsSameKeys(a: seq<Bar>, b: seq<Bar>)
    requires multiset(a) == multiset(b)
    ensures Keys(a) == Keys(b)
  {
    forall r ensures r in a <==> r in b {
      assert r in multiset(a) <==> r in multiset(b);
    }
  }

  lemma {:induction false} PassingPasses(rows: seq<Bar>, filter: set<string>)
    ensures forall b :: b in Passing(rows, filter) <==> b in rows && Passes(b, filter)
  {
    if rows != [] {
      assert rows == [rows[0]] + rows[1..];
      PassingPasses(rows[1..], filter);
    }
  }

  lemma KeysCons(taken: set<string>, b: Bar, rest: seq<Bar>)
    ensures taken + Keys([b] + rest) == taken + {KeyOf(b)} + Keys(rest)
  {
  }

  lemma {:induction false} FilterFirst(taken: set<string>, a: seq<Bar>, filter: set<string>)
    ensures Accepted(taken, a, filter) == Accepted(taken, Passing(a, filter), {})
    decreases a
  {
    if a != [] {
      var (h, t) := (a[0], a[1..]);
      assert a == [h] + t;
      hide Accepted, Passing;
      AcceptedCons(taken, h, t, filter);
      PassingCons(h, t, filter);
      AcceptedCons(taken, h, Passing(t, filter), {});
      FilterFirst(taken, t, filter);
      FilterFirst(taken + {KeyOf(h)}, t, filter);
      assert [] + Passing(t, filter) == Passing(t, filter);
    }
  }

  lemma {:induction false} AcceptedConcat(taken: set<string>, a: seq<Bar>, b: seq<Bar>)
    ensures var first := Accepted(taken, a, {});
      Accepted(taken, a + b, {}) == first + Accepted(taken + Keys(first), b, {})
    decreases a
  {
    if a == [] {
      assert taken + Keys([]) == taken && [] + b == b;
    } else {
      var (h, t) := (a[0], a[1..]);
      assert a == [h] + t && a + b == [h] + (t + b);
      hide Accepted;
      AcceptedCons(taken, h, t, {});
      AcceptedCons(taken, h, t + b, {});
      if KeyOf(h) in taken {
        AcceptedConcat(taken, t, b);
      } else {
        var rest := Accepted(taken + {KeyOf(h)}, t, {});
        AcceptedConcat(taken + {KeyOf(h)}, t, b);
        KeysCons(taken, h, rest);
        var more := Accepted(taken + {KeyOf(h)} + Keys(rest), b, {});
        assert [h] + rest + more == [h] + (rest + more);
      }
    }
  }

  /** Letting two batches in one after the other is letting in their concatenation. */
  lemma AcceptedInTurn(taken: set<string>, a: seq<Bar>, filter: set<string>, b: seq<Bar>)
    ensures var first := Accepted(taken, a, filter);
      first + Accepted(taken + Keys(first), b, {}) == Accepted(taken, Passing(a, filter) + b, {})
  {
    FilterFirst(taken, a, filter);
    AcceptedConcat(taken, Passing(a, filter), b);
  }

  lemma AcceptedCons(taken: set<string>, h: Bar, t: seq<Bar>, filter: set<string>)
    ensures Accepted(taken, [h] + t, filter)
         == if Passes(h, filter) && KeyOf(h) !in taken then [h] + Accepted(taken + {KeyOf(h)}, t, filter)
            else Accepted(taken, t, filter)
  {
    assert ([h] + t)[1..] == t;
  }

  lemma PassingCons(h: Bar, t: seq<Bar>, filter: set<string>)
    ensures Passing([h] + t, filter) == (if Passes(h, filter) then [h] else []) + Passing(t, filter)
  {
    assert ([h] + t)[1..] == t;
  }

  /** Merging source after source has the rows of one merge of the concatenated sources; and
      when the existing keys are unique, it is that merge, row for row. */
  lemma SequentialMergesAreOneMerge(existing: seq<Bar>, a: seq<Bar>, filter: set<string>, b: seq<Bar>,
                                    once: seq<Bar>, twice: seq<Bar>, together: seq<Bar>)
    requires IsMerge(existing, a, filter, once) && IsMerge(once, b, {}, twice)
    requires IsMerge(existing, Passing(a, filter) + b, {}, together)
    ensures multiset(twice) == multiset(together)
    ensures UniqueKeys(existing) ==> twice == together
  {
    hide Accepted, Passing, BarLeq;
    var all := Passing(a, filter) + b;
    InTurn(existing, a, filter, b, once);
    if UniqueKeys(existing) {
      UniqueKeysStay(existing, all, {});
      UniqueKeysForceTheOrder(existing + Accepted(Keys(existing), all, {}), twice, together);
    }
  }

  lemma InTurn(existing: seq<Bar>, a: seq<Bar>, filter: set<string>, b: seq<Bar>, once: seq<Bar>)
    requires multiset(once) == multiset(existing + Accepted(Keys(existing), a, filter))
    ensures var (first, all) := (Accepted(Keys(existing), a, filter), Passing(a, filter) + b);
      && multiset(once + Accepted(Keys(once), b, {})) == multiset(existing + Accepted(Keys(existing), all, {}))
      && |Accepted(Keys(existing), all, {})| == |first| + |Accepted(Keys(once), b, {})|
  {
    hide Accepted, Passing;
    var first := Accepted(Keys(existing), a, filter);
    SameRowsSameKeys(once, existing + first);
    assert Keys(once) == Keys(existing) + Keys(first);
    AcceptedInTurn(Keys(existing), a, filter, b);
  }

  lemma {:induction false} AllTaken(taken: set<string>, rows: seq<Bar>, filter: set<string>)
    requires forall b :: b in rows && Passes(b, filter) ==> KeyOf(b) in taken
    ensures Accepted(taken, rows, filter) == []
    decreases rows
  {
    if rows != [] {
      assert rows == [rows[0]] + rows[1..];
      AllTaken(taken, rows[1..], filter);
    }
  }

  /** Merging the same additions again lets nothing in. */
  lemma MergingAgainAddsNothing(existing: seq<Bar>, additions: seq<Bar>, filter: set<string>, merged: seq<Bar>)
    requires IsMerge(existing, additions, filter, merged)
    ensures Accepted(Keys(merged), additions, filter) == []
  {
    var first := Accepted(Keys(existing), additions, filter);
    SameRowsSameKeys(merged, existing + first);
    PassingPasses(additions, filter);
    forall b | b in additions && Passes(b, filter) ensures KeyOf(b) in Keys(merged) {
      AcceptedLookup(Keys(existing), additions, filter, KeyOf(b));
      LookupFindsKeys(Passing(additions, filter), KeyOf(b));
      LookupFindsKeys(first, KeyOf(b));
    }
    AllTaken(Keys(merged), additions, filter);
  }

  // ---------------------------------------------------------------- the whole command

  function Flatten(sources: seq<seq<Bar>>): seq<Bar> {
    if sources == [] then [] else sources[0] + Flatten(sources[1..])
  }

  function Symbols(rows: seq<Bar>): set<string> {
    set b | b in rows :: b.symbol
  }

  /** The pieces of a text between its commas. */
  function Split(text: string): (parts: seq<string>)
    ensures |parts| > 0
  {
    if text == "" then [""]
    else if text[0] == ',' then [""] + Split(text[1..])
    else
      var rest := Split(text[1..]);
      [[text[0]] + rest[0]] + rest[1..]
  }

  function FlagSymbols(flag: string): set<string> {
    set p | p in Split(flag) && TrimSpace(p) != "" :: TrimSpace(p)
  }

  /** The symbols the FinMind window applies to: those of the flag, or the target's own. */
  function SymbolFilter(flag: string, existing: seq<Bar>): set<string> {
    if flag != "" then FlagSymbols(flag) else Symbols(existing)
  }

  /** The FinMind rows of the window, converted. */
  function ConvertWindow(rows: seq<Bar>, start: string, end: string, names: map<string, string>): seq<Bar> {
    if rows == [] then []
    else
      var b := rows[|rows| - 1];
      var c := ConvertFinMindBar(b, start, end, if b.symbol in names then names[b.symbol] else "");
      ConvertWindow(rows[..|rows| - 1], start, end, names) + if c.Some? then [c.value] else []
  }

  method ConvertRows(rows: seq<Bar>, start: string, end: string, names: map<string, string>)
    returns (additions: seq<Bar>)
    ensures additions == ConvertWindow(rows, start, end, names)
  {
    additions := [];
    for n := 0 to |rows|
      invariant additions == ConvertWindow(rows[..n], start, end, names)
    {
      assert rows[..n + 1][..n] == rows[..n];
      var b := rows[n];
      var c := ConvertFinMindBar(b, start, end, if b.symbol in names then names[b.symbol] else "");
      if c.None? {
        continue;
      }
      additions := additions + [c.value];
    }
    assert rows[..|rows|] == rows;
  }

  /** Everything the command merges into the existing rows, earliest source first. */
  function Sources(existing: seq<Bar>, finmind: seq<Bar>, flag: string, extras: seq<seq<Bar>>): seq<Bar> {
    Passing(finmind, SymbolFilter(flag, existing)) + Flatten(extras)
  }

  /** The command: the FinMind window, then the extra sources one after another. */
  method MergeSources(existing: seq<Bar>, rows: seq<Bar>, start: string, end: string, names: map<string, string>,
                      flag: string, extras: seq<seq<Bar>>)
    returns (merged: seq<Bar>, added: nat)
    ensures var all := Sources(existing, ConvertWindow(rows, start, end, names), flag, extras);
      IsMerge(existing, all, {}, merged) && added == |Accepted(Keys(existing), all, {})|
  {
    var filter := SymbolFilter(flag, existing);
    var finmind := ConvertRows(rows, start, end, names);
    var n := 0;
    merged, added, n := MergeBars(existing, finmind, filter);
    ghost var all := Passing(finmind, filter);
    FilterFirst(Keys(existing), finmind, filter);
    hide IsMerge, Accepted, Passing, Flatten, ConvertWindow;
    assert extras[0..] == extras;
    for i := 0 to |extras|
      invariant IsMerge(existing, all, {}, merged) && added == |Accepted(Keys(existing), all, {})|
      invariant all + Flatten(extras[i..]) == Passing(finmind, filter) + Flatten(extras)
    {
      var more, skipped;
      ghost var before := merged;
      merged, more, skipped := MergeBars(merged, extras[i], {});
      OneMoreSource(existing, all, before, extras[i], merged);
      added := added + more;
      NextSource(all, extras, i);
      all := all + extras[i];
    }
    NoMoreSources(all, extras);
  }

  lemma NextSource(all: seq<Bar>, extras: seq<seq<Bar>>, i: nat)
    requires i < |extras|
    ensures all + Flatten(extras[i..]) == all + extras[i] + Flatten(extras[i + 1..])
  {
    assert extras[i..][1..] == extras[i + 1..];
  }

  lemma NoMoreSources(all: seq<Bar>, extras: seq<seq<Bar>>)
    ensures all + Flatten(extras[|extras|..]) == all
  {
  }

  lemma OneMoreSource(existing: seq<Bar>, all: seq<Bar>, before: seq<Bar>, extra: seq<Bar>, merged: seq<Bar>)
    requires IsMerge(existing, all, {}, before) && IsMerge(before, extra, {}, merged)
    ensures IsMerge(existing, all + extra, {}, merged)
    ensures |Accepted(Keys(existing), all + extra, {})|
         == |Accepted(Keys(existing), all, {})| + |Accepted(Keys(before), extra, {})|
  {
    hide Accepted, Passing, BarLeq;
    EverythingPasses(all);
    InTurn(existing, all, {}, extra, before);
  }

  lemma {:induction false} EverythingPasses(rows: seq<Bar>)
    ensures Passing(rows, {}) == rows
  {
    if rows != [] {
      EverythingPasses(rows[1..]);
    }
  }

  /** A piece is blank exactly where the text between its commas is. */
  lemma {:induction false} BlankPieces(text: string)
    ensures (forall p :: p in Split(text) ==> IsSpaces(p)) <==> (forall c :: c in text ==> c == ',' || IsSpace(c))
  {
    if text != "" {
      BlankPieces(text[1..]);
      var (parts, rest) := (Split(text), Split(text[1..]));
      assert text == [text[0]] + text[1..];
      if text[0] == ',' {
        assert parts == [""] + rest;
      } else {
        assert parts == [[text[0]] + rest[0]] + rest[1..] && rest == [rest[0]] + rest[1..];
        assert IsSpaces([text[0]] + rest[0]) <==> IsSpace(text[0]) && IsSpaces(rest[0]) by {
          assert forall c :: c in [text[0]] + rest[0] <==> c == text[0] || c in rest[0];
        }
      }
    }
  }

  function Join(parts: seq<string>): string {
    if parts == [] then "" else if |parts| == 1 then parts[0] else parts[0] + "," + Join(parts[1..])
  }

  /** The pieces are what the commas separate. */
  lemma {:induction false} SplitAtCommas(text: string)
    ensures Join(Split(text)) == text
    ensures forall p :: p in Split(text) ==> ',' !in p
  {
    if text == "" {
      assert Split(text) == [""];
    } else {
      var (c, rest) := (text[0], Split(text[1..]));
      assert text == [c] + text[1..];
      SplitAtCommas(text[1..]);
      if c == ',' {
        assert Split(text) == [""] + rest && Split(text)[1..] == rest;
        assert "" + "," + text[1..] == text;
      } else {
        assert Split(text) == [[c] + rest[0]] + rest[1..] && rest == [rest[0]] + rest[1..];
        LongerFirst(c, rest);
        forall p | p in Split(text) ensures ',' !in p {
          assert p == [c] + rest[0] || p in rest[1..];
          assert rest[0] in rest && forall q :: q in rest[1..] ==> q in rest;
        }
      }
    }
  }

  lemma LongerFirst(c: char, parts: seq<string>)
    requires parts != []
    ensures Join([[c] + parts[0]] + parts[1..]) == [c] + Join(parts)
  {
    var longer := [[c] + parts[0]] + parts[1..];
    assert longer[1..] == parts[1..];
    if |parts| > 1 {
      assert [c] + parts[0] + "," + Join(parts[1..]) == [c] + (parts[0] + "," + Join(parts[1..]));
    }
  }

  /** The filter names the trimmed pieces of the flag, or, without one, the target's symbols. */
  lemma FilterNames(flag: string, existing: seq<Bar>, symbol: string)
    ensures symbol in SymbolFilter(flag, existing) <==>
      if flag == "" then exists b :: b in existing && b.symbol == symbol
      else symbol != "" && exists p :: p in Split(flag) && TrimSpace(p) == symbol
  {
    hide Split, TrimSpace;
    if flag == "" {
      if b :| b in existing && b.symbol == symbol {
        assert b.symbol in Symbols(existing);
      }
    } else {
      var parts := Split(flag);
      assert SymbolFilter(flag, existing) == set p | p in parts && TrimSpace(p) != "" :: TrimSpace(p);
      if p :| p in parts && TrimSpace(p) == symbol && symbol != "" {
        assert TrimSpace(p) in SymbolFilter(flag, existing);
      }
    }
  }

  lemma EmptyFilterIff(flag: string, existing: seq<Bar>)
    ensures SymbolFilter(flag, existing) == {} <==>
      if flag == "" then existing == [] else forall c :: c in flag ==> c == ',' || IsSpace(c)
  {
    hide Split, TrimSpace, IsSpace;
    if flag == "" {
      if existing != [] {
        assert existing[0].symbol in Symbols(existing);
      }
    } else {
      BlankPieces(flag);
      forall p ensures TrimSpace(p) == "" <==> IsSpaces(p) {
        TrimmedAway(p);
      }
      if p :| p in Split(flag) && TrimSpace(p) != "" {
        assert TrimSpace(p) in FlagSymbols(flag);
      }
    }
  }

  ghost predicate ForeignStayOut(existing: seq<Bar>, filter: set<string>) {
    forall finmind, b :: b in Accepted(Keys(existing), finmind, filter) ==> b.symbol in filter
  }

  lemma OnlyAnEmptyFilterLeaks(existing: seq<Bar>, filter: set<string>)
    ensures ForeignStayOut(existing, filter) <==> filter != {}
  {
    if filter != {} {
      forall finmind, b | b in Accepted(Keys(existing), finmind, filter) ensures b.symbol in filter {
        AcceptedKeys(Keys(existing), finmind, filter);
      }
    } else {
      var foreign := NewKey(Keys(existing));
      assert Accepted(Keys(existing), [foreign], filter)
          == [foreign] + Accepted(Keys(existing) + {KeyOf(foreign)}, [foreign][1..], filter);
      assert foreign in Accepted(Keys(existing), [foreign], filter);
    }
  }

  /** FinMind symbols outside the filter stay out exactly when the filter names a symbol at
      all: an empty target without a flag, or a flag of commas and blanks, admits them all. */
  lemma ForeignSymbolsStayOutIff(flag: string, existing: seq<Bar>)
    ensures ForeignStayOut(existing, SymbolFilter(flag, existing))
       <==> if flag == "" then existing != [] else exists c :: c in flag && c != ',' && !IsSpace(c)
  {
    EmptyFilterIff(flag, existing);
    OnlyAnEmptyFilterLeaks(existing, SymbolFilter(flag, existing));
  }

  /** Some row's key is not among finitely many. */
  lemma NewKey(taken: set<string>) returns (b: Bar)
    ensures KeyOf(b) !in taken
  {
    var symbol := LongerThanAll(taken);
    b := Bar("", symbol, "", 1.0, 1.0, 1.0, 1.0, 1, "");
    assert |KeyOf(b)| > |symbol|;
  }

  lemma {:induction false} LongerThanAll(taken: set<string>) returns (s: string)
    ensures forall k :: k in taken ==> |k| < |s|
  {
    s := "";
    if taken != {} {
      var k :| k in taken;
      var rest := LongerThanAll(taken - {k});
      s := k + rest + "x";
    }
  }
}

/** The per-stock industry cache of symbol_industry_substrate.go: a TTL view over a store,
    used here by one caller at a time. */
module IndustryCache {
  import opened Wrappers
  import opened Text
  import opened Sorting

  const UNMAPPED := "unmapped"
  const UNKNOWN := "unknown"

  datatype Entry = Entry(symbol: string, canonicalL1: string, mappingStatus: string, mappingReason: string)

  datatype Coverage = Coverage(upstream: nat, resolved: nat, unmapped: nat, unknown: nat, reasons: seq<string>)

  const NO_COVERAGE := Coverage(0, 0, 0, 0, [])

  datatype View = View(l1BySymbol: map<string, string>, symbols: seq<string>, coverage: Coverage)

  const EMPTY := View(map[], [], NO_COVERAGE)

  // ---------------------------------------------------------------- what a view should say

  predicate Resolvable(e: Entry) {
    e.symbol != "" && e.canonicalL1 != ""
  }

  /** The sector of a symbol: that of its last row with both a symbol and a sector. */
  function LastResolvable(entries: seq<Entry>, symbol: string): Option<string> {
    if entries == [] then None
    else
      var e := entries[|entries| - 1];
      if Resolvable(e) && e.symbol == symbol then Some(e.canonicalL1)
      else LastResolvable(entries[..|entries| - 1], symbol)
  }

  function ResolvableSymbols(entries: seq<Entry>): seq<string> {
    if entries == [] then []
    else
      var e := entries[|entries| - 1];
      ResolvableSymbols(entries[..|entries| - 1]) + if Resolvable(e) then [e.symbol] else []
  }

  function CountStatus(entries: seq<Entry>, status: string): nat {
    if entries == [] then 0
    else
      CountStatus(entries[..|entries| - 1], status)
      + if entries[|entries| - 1].mappingStatus == status then 1 else 0
  }

  /** The reasons of the rows left unresolved. */
  ghost function GapReasons(entries: seq<Entry>): set<string> {
    set e | e in entries && !Resolvable(e) && TrimSpace(e.mappingReason) != "" :: TrimSpace(e.mappingReason)
  }

  ghost predicate Lists(reasons: seq<string>, wanted: set<string>) {
    && (forall i, j :: 0 <= i < j < |reasons| ==> LexLess(reasons[i], reasons[j]))
    && (forall r :: r in reasons <==> r in wanted)
  }

  ghost predicate Accounts(c: Coverage, entries: seq<Entry>) {
    && c.upstream == |entries|
    && c.resolved == |ResolvableSymbols(entries)|
    && c.unmapped == CountStatus(entries, "unmapped")
    && c.unknown == CountStatus(entries, "unknown")
    && Lists(c.reasons, GapReasons(entries))
  }

  function Resolve(v: View, symbol: string): Option<string> {
    if symbol in v.l1BySymbol && v.l1BySymbol[symbol] != "" then Some(v.l1BySymbol[symbol]) else None
  }

  /** Map, list and accounting all come from the same rows. */
  ghost predicate DerivedFrom(v: View, entries: seq<Entry>) {
    && (forall s :: Resolve(v, s) == LastResolvable(entries, s))
    && v.symbols == ResolvableSymbols(entries)
    && Accounts(v.coverage, entries)
  }

  lemma EmptyViewOfNoRows()
    ensures DerivedFrom(EMPTY, [])
  {
  }

  lemma {:induction false} ListedIffResolved(entries: seq<Entry>, symbol: string)
    ensures symbol in ResolvableSymbols(entries) <==> LastResolvable(entries, symbol).Some?
  {
    if entries != [] {
      ListedIffResolved(entries[..|entries| - 1], symbol);
    }
  }

  /** A view answers for exactly the symbols it lists, and counts them as it lists them. */
  lemma ViewIsWhole(v: View, entries: seq<Entry>, symbol: string)
    requires DerivedFrom(v, entries)
    ensures symbol in v.symbols <==> Resolve(v, symbol).Some?
    ensures |v.symbols| == v.coverage.resolved <= v.coverage.upstream == |entries|
  {
    ListedIffResolved(entries, symbol);
    AtMostOneEach(entries);
  }

  lemma {:induction false} AtMostOneEach(entries: seq<Entry>)
    ensures |ResolvableSymbols(entries)| <= |entries|
  {
    if entries != [] {
      AtMostOneEach(entries[..|entries| - 1]);
    }
  }

  predicate InGap(e: Entry) {
    e.mappingStatus == UNMAPPED || e.mappingStatus == UNKNOWN
  }

  /** Rows that break the expectation that a row is either resolved or in a gap bucket:
      counted both ways (sign +1) or neither way (sign -1). */
  function Misfits(entries: seq<Entry>): int {
    if entries == [] then 0
    else
      var e := entries[|entries| - 1];
      Misfits(entries[..|entries| - 1])
      + (if Resolvable(e) && InGap(e) then 1 else if !Resolvable(e) && !InGap(e) then -1 else 0)
  }

  /** The three buckets make up the population exactly up to the misfit rows. */
  lemma {:induction false} BucketsAndMisfits(entries: seq<Entry>)
    ensures |ResolvableSymbols(entries)| + CountStatus(entries, UNMAPPED) + CountStatus(entries, UNKNOWN)
         == |entries| + Misfits(entries)
  {
    if entries != [] {
      BucketsAndMisfits(entries[..|entries| - 1]);
    }
  }

  lemma NoRows(entries: seq<Entry>)
    ensures GapReasons(entries[..0]) == {}
  {
  }

  lemma OneMoreRow(entries: seq<Entry>, n: nat)
    requires n < |entries|
    ensures var (e, reason) := (entries[n], TrimSpace(entries[n].mappingReason));
      GapReasons(entries[..n + 1])
      == GapReasons(entries[..n]) + if !Resolvable(e) && reason != "" then {reason} else {}
  {
    assert entries[..n + 1] == entries[..n] + [entries[n]];
  }

  /** symbolIndustryCoverageFromEntries. */
  method CoverageFromEntries(entries: seq<Entry>) returns (cov: Coverage)
    ensures Accounts(cov, entries)
  {
    hide TrimSpace, GapReasons;
    NoRows(entries);
    var resolvedRows, unmapped, unknown := 0, 0, 0;
    var reasons: set<string> := {};
    for n := 0 to |entries|
      invariant resolvedRows == |ResolvableSymbols(entries[..n])|
      invariant unmapped == CountStatus(entries[..n], UNMAPPED)
      invariant unknown == CountStatus(entries[..n], UNKNOWN)
      invariant reasons == GapReasons(entries[..n])
    {
      var e := entries[n];
      assert entries[..n + 1][..n] == entries[..n];
      OneMoreRow(entries, n);
      var resolved := Resolvable(e);
      if resolved {
        resolvedRows := resolvedRows + 1;
      }
      if e.mappingStatus == UNMAPPED {
        unmapped := unmapped + 1;
      } else if e.mappingStatus == UNKNOWN {
        unknown := unknown + 1;
      }
      if !resolved {
        var reason := TrimSpace(e.mappingReason);
        if reason != "" {
          reasons := reasons + {reason};
        }
      }
    }
    assert entries[..|entries|] == entries;
    LexOrderIsTotal();
    var sorted := SortedSet(LexLeq, reasons);
    forall i, j | 0 <= i < j < |sorted| ensures LexLess(sorted[i], sorted[j]) {
      LexTotal(sorted[i], sorted[j]);
    }
    cov := Coverage(|entries|, resolvedRows, unmapped, unknown, sorted);
  }

  // ---------------------------------------------------------------- the cache

  datatype Load = Loaded(entries: seq<Entry>) | LoadFailed(message: string)

  /** What a getter meets: the clock when it decides, the store's answer should it ask, and
      the clock when it installs that answer. */
  datatype Env = Env(check: int, load: Load, now: int)

  /** The cache as its callers can tell it: the rows behind its view, and its dating. */
  datatype State = State(rows: Option<seq<Entry>>, loadedAt: Option<int>, loadErr: Option<string>)

  const CREATED := State(None, None, None)

  function RowsOf(s: State): seq<Entry> {
    if s.rows.Some? then s.rows.value else []
  }

  /** Non-empty and younger than the TTL. An invalidated view's age is beyond every TTL. */
  predicate Fresh(s: State, ttl: int, at: int) {
    ResolvableSymbols(RowsOf(s)) != [] && s.loadedAt.Some? && at - s.loadedAt.value < ttl
  }

  /** With no store wired, a reload fails without leaving a trace. */
  function AfterReload(s: State, wired: bool, load: Load, now: int): State {
    if !wired then s
    else match load
      case Loaded(entries) => State(Some(entries), Some(now), None)
      case LoadFailed(message) => s.(loadErr := Some(message))
  }

  function AfterEnsure(s: State, wired: bool, ttl: int, env: Env): State {
    if Fresh(s, ttl, env.check) then s else AfterReload(s, wired, env.load, env.now)
  }

  class Substrate {
    const wired: bool
    const ttl: int
    var l1BySymbol: map<string, string>
    var symbols: seq<string>
    var coverage: Coverage
    var loadedAt: Option<int>
    var loadErr: Option<string>
    var lookupCount: nat
    ghost var rows: Option<seq<Entry>>

    ghost function Contents(): State
      reads this
    {
      State(rows, loadedAt, loadErr)
    }

    ghost predicate Valid()
      reads this
    {
      DerivedFrom(View(l1BySymbol, symbols, coverage), RowsOf(Contents()))
    }

    constructor (wired: bool, ttl: int)
      ensures Valid() && Contents() == CREATED && lookupCount == 0
      ensures this.wired == wired && this.ttl == ttl
    {
      this.wired := wired;
      this.ttl := ttl;
      l1BySymbol, symbols, coverage := map[], [], NO_COVERAGE;
      loadedAt, loadErr, lookupCount, rows := None, None, 0, None;
      new;
      EmptyViewOfNoRows();
    }

    method Reload(load: Load, now: int) returns (ok: bool)
      requires Valid()
      modifies this
      ensures Valid() && lookupCount == old(lookupCount)
      ensures Contents() == AfterReload(old(Contents()), wired, load, now)
      ensures ok <==> wired && load.Loaded?
    {
      if !wired {
        return false;
      }
      if load.LoadFailed? {
        loadErr := Some(load.message);
        return false;
      }
      var entries := load.entries;
      var byL1: map<string, string> := map[];
      var listed: seq<string> := [];
      for n := 0 to |entries|
        invariant listed == ResolvableSymbols(entries[..n])
        invariant forall s :: s in byL1 ==> byL1[s] != ""
        invariant forall s :: (if s in byL1 then Some(byL1[s]) else None) == LastResolvable(entries[..n], s)
        invariant this.Valid() && Contents() == old(Contents()) && lookupCount == old(lookupCount)
      {
        var e := entries[n];
        assert entries[..n + 1][..n] == entries[..n];
        if e.symbol != "" && e.canonicalL1 != "" {
          byL1 := byL1[e.symbol := e.canonicalL1];
          listed := listed + [e.symbol];
        }
      }
      assert entries[..|entries|] == entries;
      var cov := CoverageFromEntries(entries);
      l1BySymbol, symbols, coverage := byL1, listed, cov;
      loadedAt, loadErr, rows := Some(now), None, Some(entries);
      return true;
    }

    method EnsureLoaded(env: Env) returns (reloaded: bool)
      requires Valid()
      modifies this
      ensures Valid() && lookupCount == old(lookupCount)
      ensures Contents() == AfterEnsure(old(Contents()), wired, ttl, env)
      ensures !reloaded <==> Fresh(old(Contents()), ttl, env.check)
      ensures !reloaded <==>
        old(|symbols| > 0 && loadedAt.Some? && env.check - loadedAt.value < ttl)
    {
      var young := |symbols| > 0 && loadedAt.Some? && env.check - loadedAt.value < ttl;
      if young {
        return false;
      }
      var _ := Reload(env.load, env.now);
      return true;
    }

    /** The answer is that of the rows in force after the reload decision; with no reload
        attempt in this very call they were fresh. */
    method ResolveL1(symbol: string, env: Env) returns (l1: Option<string>, reloaded: bool)
      requires Valid()
      modifies this
      ensures Valid() && lookupCount == old(lookupCount) + 1
      ensures Contents() == AfterEnsure(old(Contents()), wired, ttl, env)
      ensures l1 == LastResolvable(RowsOf(Contents()), symbol)
      ensures !reloaded <==> Fresh(old(Contents()), ttl, env.check)
      ensures !reloaded <==>
        old(|symbols| > 0 && loadedAt.Some? && env.check - loadedAt.value < ttl)
    {
      reloaded := EnsureLoaded(env);
      lookupCount := lookupCount + 1;
      assert Resolve(View(l1BySymbol, symbols, coverage), symbol) == LastResolvable(RowsOf(Contents()), symbol);
      if symbol in l1BySymbol && l1BySymbol[symbol] != "" {
        l1 := Some(l1BySymbol[symbol]);
      } else {
        l1 := None;
      }
    }

    method Symbols(env: Env) returns (list: seq<string>, reloaded: bool)
      requires Valid()
      modifies this
      ensures Valid() && lookupCount == old(lookupCount)
      ensures Contents() == AfterEnsure(old(Contents()), wired, ttl, env)
      ensures list == ResolvableSymbols(RowsOf(Contents()))
      ensures !reloaded <==> Fresh(old(Contents()), ttl, env.check)
      ensures !reloaded <==>
        old(|symbols| > 0 && loadedAt.Some? && env.check - loadedAt.value < ttl)
    {
      reloaded := EnsureLoaded(env);
      list := symbols;
    }

    method Coverage(env: Env) returns (cov: Coverage, reloaded: bool)
      requires Valid()
      modifies this
      ensures Valid() && lookupCount == old(lookupCount)
      ensures Contents() == AfterEnsure(old(Contents()), wired, ttl, env)
      ensures Accounts(cov, RowsOf(Contents()))
      ensures !reloaded <==> Fresh(old(Contents()), ttl, env.check)
      ensures !reloaded <==>
        old(|symbols| > 0 && loadedAt.Some? && env.check - loadedAt.value < ttl)
    {
      reloaded := EnsureLoaded(env);
      cov := coverage;
    }

    method CoverageAsOf(env: Env) returns (at: Option<int>)
      requires Valid()
      modifies this
      ensures Valid() && lookupCount == old(lookupCount)
      ensures Contents() == AfterEnsure(old(Contents()), wired, ttl, env)
      ensures at == Contents().loadedAt
    {
      var _ := EnsureLoaded(env);
      at := loadedAt;
    }

    /** Reading the evidence attempts no reload. */
    method LastReloadError() returns (message: string)
      requires Valid()
      ensures message == match Contents().loadErr case None => "" case Some(m) => m
    {
      match loadErr
      case None => message := "";
      case Some(m) => message := m;
    }

    method Invalidate()
      requires Valid()
      modifies this`loadedAt
      ensures Valid() && Contents() == old(Contents()).(loadedAt := None)
    {
      loadedAt := None;
    }
  }

  // ---------------------------------------------------------------- runs

  /** One call: a getter, whichever it is, or an explicit reload, or an invalidation. */
  datatype Call = Get(env: Env) | Reloading(load: Load, now: int) | Invalidating

  function Step(s: State, wired: bool, ttl: int, c: Call): State {
    match c
    case Get(env) => AfterEnsure(s, wired, ttl, env)
    case Reloading(load, now) => AfterReload(s, wired, load, now)
    case Invalidating => s.(loadedAt := None)
  }

  /** What a call turns out to do to the cache. */
  datatype Event = Succeeded(entries: seq<Entry>, now: int) | Failed(message: string) | Quiet | Invalidated

  function EventOf(s: State, wired: bool, ttl: int, c: Call): Event {
    match c
    case Invalidating => Invalidated
    case Reloading(load, now) => if wired then Answered(load, now) else Quiet
    case Get(env) => if !wired || Fresh(s, ttl, env.check) then Quiet else Answered(env.load, env.now)
  }

  function Answered(load: Load, now: int): Event {
    match load
    case Loaded(entries) => Succeeded(entries, now)
    case LoadFailed(message) => Failed(message)
  }

  function Run(s: State, wired: bool, ttl: int, calls: seq<Call>): State
    decreases calls
  {
    if calls == [] then s else Run(Step(s, wired, ttl, calls[0]), wired, ttl, calls[1..])
  }

  function Events(s: State, wired: bool, ttl: int, calls: seq<Call>): seq<Event>
    decreases calls
  {
    if calls == [] then []
    else [EventOf(s, wired, ttl, calls[0])] + Events(Step(s, wired, ttl, calls[0]), wired, ttl, calls[1..])
  }

  /** Event i is the last of its kind: nothing after it is one of `later`. */
  ghost predicate Last(events: seq<Event>, i: nat, kind: Event -> bool, later: Event -> bool) {
    i < |events| && kind(events[i]) && forall k :: i < k < |events| ==> !later(events[k])
  }

  const SUCCESS := (e: Event) => e.Succeeded?
  const FAILURE := (e: Event) => e.Failed?
  const ATTEMPT := (e: Event) => e.Succeeded? || e.Failed?
  const REDATING := (e: Event) => e.Succeeded? || e.Invalidated?

  /** The cache's state told from its history alone. */
  ghost predicate Tells(events: seq<Event>, s: State) {
    && (s.rows.Some? <==> exists i: nat :: Last(events, i, SUCCESS, SUCCESS))
    && (forall i: nat :: Last(events, i, SUCCESS, SUCCESS) ==> s.rows == Some(events[i].entries))
    && (s.loadedAt.Some? <==> exists i: nat :: Last(events, i, SUCCESS, REDATING))
    && (forall i: nat :: Last(events, i, SUCCESS, REDATING) ==> s.loadedAt == Some(events[i].now))
    && (s.loadErr.Some? <==> exists i: nat :: Last(events, i, FAILURE, ATTEMPT))
    && (forall i: nat :: Last(events, i, FAILURE, ATTEMPT) ==> s.loadErr == Some(events[i].message))
  }

  lemma LastGrows(events: seq<Event>, e: Event, kind: Event -> bool, later: Event -> bool)
    requires kind(e) ==> later(e)
    ensures kind(e) ==> Last(events + [e], |events|, kind, later)
    ensures forall i: nat :: Last(events + [e], i, kind, later) <==>
              (i == |events| && kind(e)) || (Last(events, i, kind, later) && !later(e))
  {
    forall i: nat ensures Last(events + [e], i, kind, later) <==>
                          (i == |events| && kind(e)) || (Last(events, i, kind, later) && !later(e))
    {
      if Last(events + [e], i, kind, later) && i < |events| {
        assert (events + [e])[|events|] == e;
        assert forall k :: i < k < |events| ==> (events + [e])[k] == events[k];
      }
    }
  }

  lemma TellsGrows(events: seq<Event>, s: State, wired: bool, ttl: int, c: Call)
    requires Tells(events, s)
    ensures Tells(events + [EventOf(s, wired, ttl, c)], Step(s, wired, ttl, c))
  {
    var e := EventOf(s, wired, ttl, c);
    LastGrows(events, e, SUCCESS, SUCCESS);
    LastGrows(events, e, SUCCESS, REDATING);
    LastGrows(events, e, FAILURE, ATTEMPT);
    hide Last;
  }

  lemma {:induction false} HistoryTells(before: seq<Event>, s: State, wired: bool, ttl: int, calls: seq<Call>)
    requires Tells(before, s)
    ensures Tells(before + Events(s, wired, ttl, calls), Run(s, wired, ttl, calls))
    decreases calls
  {
    hide Tells;
    if calls == [] {
      assert before + [] == before;
    } else {
      var e := EventOf(s, wired, ttl, calls[0]);
      TellsGrows(before, s, wired, ttl, calls[0]);
      HistoryTells(before + [e], Step(s, wired, ttl, calls[0]), wired, ttl, calls[1..]);
      assert before + Events(s, wired, ttl, calls)
          == before + [e] + Events(Step(s, wired, ttl, calls[0]), wired, ttl, calls[1..]);
    }
  }

  /** After any calls: the view is that of the last load that succeeded, whatever failed or
      was invalidated since; CoverageAsOf has an instant exactly when a load has succeeded
      since creation or the last invalidation, and it is that load's; LastReloadError speaks
      exactly when the last attempt failed, and quotes it. */
  lemma CacheTellsItsHistory(wired: bool, ttl: int, calls: seq<Call>)
    ensures Tells(Events(CREATED, wired, ttl, calls), Run(CREATED, wired, ttl, calls))
  {
    HistoryTells([], CREATED, wired, ttl, calls);
    assert [] + Events(CREATED, wired, ttl, calls) == Events(CREATED, wired, ttl, calls);
  }

  /** The accessor's documentation reads "no instant" as "nothing was ever loaded, the view is
      empty". It is wrong exactly after a load that an invalidation, and no load, has
      followed: the old rows are then served on, undated. */
  lemma UndatedYetServedIff(wired: bool, ttl: int, calls: seq<Call>)
    ensures var (s, events) := (Run(CREATED, wired, ttl, calls), Events(CREATED, wired, ttl, calls));
      s.loadedAt.None? && s.rows.Some? <==>
      exists i: nat, k :: Last(events, i, SUCCESS, SUCCESS) && i < k < |events| && events[k].Invalidated?
  {
    var (s, events) := (Run(CREATED, wired, ttl, calls), Events(CREATED, wired, ttl, calls));
    CacheTellsItsHistory(wired, ttl, calls);
    if s.rows.Some? && s.loadedAt.None? {
      var i: nat :| Last(events, i, SUCCESS, SUCCESS);
      assert !Last(events, i, SUCCESS, REDATING);
    }
    if s.loadedAt.Some? {
      var j: nat :| Last(events, j, SUCCESS, REDATING);
      forall i: nat, k | Last(events, i, SUCCESS, SUCCESS) && i < k < |events| ensures !events[k].Invalidated? {
        assert SUCCESS(events[j]) && SUCCESS(events[i]);
      }
    }
  }
}

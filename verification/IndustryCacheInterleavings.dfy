/** The same cache under concurrency: getters, reloaders and invalidators interleaving at
    the mutex, with the store read outside it and rewritten at any moment. */
module IndustryCacheInterleavings {
  import opened Wrappers
  import opened IndustryCache

  /** Where a call stands. The phases between Idle and Idle are the source's critical
      sections and the store read between them. */
  datatype Phase =
    | Idle
    | Deciding                        // a getter about to look at the view's age
    | Asking(getter: bool)            // about to read the store, outside the mutex
    | Holding(getter: bool, rows: seq<Entry>)   // read, not yet installed
    | Refused(getter: bool, message: string)    // the read failed, not yet recorded
    | Answering                       // a getter about to read the view

  datatype Answer =
    | Resolved(symbol: string, l1: Option<string>)
    | Listed(symbols: seq<string>)
    | Covered(coverage: Coverage)

  /** An answer given, and whether any load had been installed by then. */
  datatype Given = Given(answer: Answer, loaded: bool)

  datatype Shared = Shared(
    view: View, loaded: bool, loadedAt: Option<int>, loadErr: Option<string>,
    contents: seq<seq<Entry>>,        // everything the store has held, the present last
    calls: map<nat, Phase>,
    answers: seq<Given>)

  datatype Step =
    | Write(rows: seq<Entry>)
    | Begin(t: nat, getter: bool)
    | Decide(t: nat, now: int)
    | Read(t: nat)
    | Refuse(t: nat, message: string)
    | Install(t: nat, view: View, now: int)
    | Record(t: nat)
    | Reply(t: nat, question: Question)
    | Invalidate

  datatype Question = AskSector(symbol: string) | AskSymbols | AskCoverage

  function PhaseOf(s: Shared, t: nat): Phase {
    if t in s.calls then s.calls[t] else Idle
  }

  function Moved(s: Shared, t: nat, p: Phase): Shared {
    s.(calls := s.calls[t := p])
  }

  function Store(s: Shared): seq<Entry>
    requires s.contents != []
  {
    s.contents[|s.contents| - 1]
  }

  function AnswerTo(v: View, q: Question): Answer {
    match q
    case AskSector(symbol) => Resolved(symbol, Resolve(v, symbol))
    case AskSymbols => Listed(v.symbols)
    case AskCoverage => Covered(v.coverage)
  }

  function AfterLoad(getter: bool): Phase {
    if getter then Answering else Idle
  }

  predicate IsFresh(s: Shared, ttl: int, now: int) {
    s.view.symbols != [] && s.loadedAt.Some? && now - s.loadedAt.value < ttl
  }

  ghost predicate Takes(s: Shared, ttl: int, step: Step, s': Shared)
    requires s.contents != []
  {
    match step
    case Write(rows) => s' == s.(contents := s.contents + [rows])
    case Begin(t, getter) =>
      PhaseOf(s, t) == Idle && s' == Moved(s, t, if getter then Deciding else Asking(false))
    case Decide(t, now) =>
      PhaseOf(s, t) == Deciding && s' == Moved(s, t, if IsFresh(s, ttl, now) then Answering else Asking(true))
    case Read(t) =>
      PhaseOf(s, t).Asking? && s' == Moved(s, t, Holding(PhaseOf(s, t).getter, Store(s)))
    case Refuse(t, message) =>
      PhaseOf(s, t).Asking? && s' == Moved(s, t, Refused(PhaseOf(s, t).getter, message))
    case Install(t, view, now) =>
      && PhaseOf(s, t).Holding? && DerivedFrom(view, PhaseOf(s, t).rows)
      && s' == Moved(s, t, AfterLoad(PhaseOf(s, t).getter)).(
              view := view, loaded := true, loadedAt := Some(now), loadErr := None)
    case Record(t) =>
      && PhaseOf(s, t).Refused?
      && s' == Moved(s, t, AfterLoad(PhaseOf(s, t).getter)).(loadErr := Some(PhaseOf(s, t).message))
    case Reply(t, question) =>
      && PhaseOf(s, t) == Answering
      && s' == Moved(s, t, Idle).(answers := s.answers + [Given(AnswerTo(s.view, question), s.loaded)])
    case Invalidate => s' == s.(loadedAt := None)
  }

  ghost predicate Initial(s: Shared, rows: seq<Entry>) {
    s == Shared(EMPTY, false, None, None, [rows], map[], [])
  }

  /** A run: the states passed through and the steps between them. */
  ghost predicate IsRun(run: seq<Shared>, ttl: int, steps: seq<Step>) {
    && |run| == |steps| + 1
    && (forall i :: 0 <= i < |run| ==> run[i].contents != [])
    && (forall i :: 0 <= i < |steps| ==> Takes(run[i], ttl, steps[i], run[i + 1]))
  }

  // ---------------------------------------------------------------- one whole snapshot

  ghost predicate Says(a: Answer, rows: seq<Entry>) {
    match a
    case Resolved(symbol, l1) => l1 == LastResolvable(rows, symbol)
    case Listed(symbols) => symbols == ResolvableSymbols(rows)
    case Covered(coverage) => Accounts(coverage, rows)
  }

  /** The view is one of a snapshot the store held, or nothing was ever loaded into it. */
  ghost predicate ViewIsWhole(s: Shared) {
    if s.loaded then exists i :: 0 <= i < |s.contents| && DerivedFrom(s.view, s.contents[i]) else s.view == EMPTY
  }

  /** So does an answer go back to one such snapshot, or to the cache as created. */
  ghost predicate IsWholeAnswer(g: Given, contents: seq<seq<Entry>>) {
    if g.loaded then exists i :: 0 <= i < |contents| && Says(g.answer, contents[i])
    else exists q :: g.answer == AnswerTo(EMPTY, q)
  }

  /** View, calls in flight and answers all go back to things the store really held. */
  ghost predicate Whole(s: Shared) {
    && ViewIsWhole(s)
    && (forall t :: t in s.calls && s.calls[t].Holding? ==> s.calls[t].rows in s.contents)
    && (forall g :: g in s.answers ==> IsWholeAnswer(g, s.contents))
  }

  lemma ViewSays(v: View, rows: seq<Entry>, q: Question)
    requires DerivedFrom(v, rows)
    ensures Says(AnswerTo(v, q), rows)
  {
  }

  lemma ContentsGrow(s: Shared, s': Shared)
    requires Whole(s) && s.contents <= s'.contents
    requires s'.view == s.view && s'.loaded == s.loaded && s'.calls == s.calls && s'.answers == s.answers
    ensures Whole(s')
  {
    if s.loaded {
      var i :| 0 <= i < |s.contents| && DerivedFrom(s.view, s.contents[i]);
      assert s'.contents[i] == s.contents[i];
    }
    forall g | g in s'.answers ensures IsWholeAnswer(g, s'.contents) {
      assert IsWholeAnswer(g, s.contents);
      if g.loaded {
        var j :| 0 <= j < |s.contents| && Says(g.answer, s.contents[j]);
        assert s'.contents[j] == s.contents[j];
      }
    }
  }

  lemma StepKeepsWhole(s: Shared, ttl: int, step: Step, s': Shared)
    requires s.contents != [] && Whole(s) && Takes(s, ttl, step, s')
    ensures Whole(s')
  {
    hide DerivedFrom;
    match step
    case Write(rows) => ContentsGrow(s, s');
    case Read(t) => assert Store(s) in s.contents;
    case Install(t, view, now) =>
      var i :| 0 <= i < |s.contents| && s.contents[i] == s.calls[t].rows;
      assert DerivedFrom(s'.view, s'.contents[i]);
    case Reply(t, question) =>
      if s.loaded {
        var i :| 0 <= i < |s.contents| && DerivedFrom(s.view, s.contents[i]);
        ViewSays(s.view, s.contents[i], question);
        assert Says(AnswerTo(s.view, question), s'.contents[i]);
      }
      assert IsWholeAnswer(Given(AnswerTo(s.view, question), s.loaded), s'.contents);
    case _ =>
  }

  lemma {:induction false} RunKeepsWhole(run: seq<Shared>, ttl: int, steps: seq<Step>)
    requires IsRun(run, ttl, steps) && Whole(run[0])
    ensures Whole(run[|steps|])
  {
    if steps != [] {
      var n := |steps| - 1;
      RunKeepsWhole(run[..n + 1], ttl, steps[..n]);
      StepKeepsWhole(run[n], ttl, steps[n], run[n + 1]);
    }
  }

  /** In every interleaving the visible map, list and accounting come from one snapshot the
      store held, never torn, unless nothing was ever loaded; and so does every answer given. */
  lemma NeverTorn(run: seq<Shared>, ttl: int, steps: seq<Step>, rows: seq<Entry>)
    requires IsRun(run, ttl, steps) && Initial(run[0], rows)
    ensures var s := run[|steps|];
      && |s.view.symbols| == s.view.coverage.resolved
      && ViewIsWhole(s)
      && forall g :: g in s.answers ==> IsWholeAnswer(g, s.contents)
  {
    RunKeepsWhole(run, ttl, steps);
  }

  // ---------------------------------------------------------------- what backs an answer

  function CallOf(step: Step): Option<nat> {
    match step
    case Write(_) => None
    case Invalidate => None
    case _ => Some(step.t)
  }

  /** Step k is call t's last before step n. */
  ghost predicate LastOwn(steps: seq<Step>, n: int, t: nat, k: int) {
    && 0 <= k < n <= |steps| && CallOf(steps[k]) == Some(t)
    && forall i :: k < i < n ==> CallOf(steps[i]) != Some(t)
  }

  lemma OthersLeaveItBe(s: Shared, ttl: int, step: Step, s': Shared, t: nat)
    requires s.contents != [] && Takes(s, ttl, step, s') && CallOf(step) != Some(t)
    ensures PhaseOf(s', t) == PhaseOf(s, t)
  {
    hide DerivedFrom;
  }

  lemma {:induction false} LastOwnStep(run: seq<Shared>, ttl: int, steps: seq<Step>, n: nat, t: nat) returns (k: int)
    requires IsRun(run, ttl, steps) && n <= |steps| && run[0].calls == map[] && PhaseOf(run[n], t) != Idle
    ensures LastOwn(steps, n, t, k) && PhaseOf(run[k + 1], t) == PhaseOf(run[n], t)
  {
    hide Takes, DerivedFrom;
    if n == 0 {
      assert false;
    } else if CallOf(steps[n - 1]) == Some(t) {
      k := n - 1;
    } else {
      OthersLeaveItBe(run[n - 1], ttl, steps[n - 1], run[n], t);
      k := LastOwnStep(run, ttl, steps, n - 1, t);
    }
  }

  /** The call has just found the view non-empty and younger than the TTL, or has just seen a
      load of its own through: installed, or failed and recorded. */
  ghost predicate Backs(s: Shared, ttl: int, step: Step) {
    match step
    case Decide(_, now) => |s.view.symbols| > 0 && s.loadedAt.Some? && now - s.loadedAt.value < ttl
    case Install(t, _, _) => PhaseOf(s, t).Holding? && PhaseOf(s, t).getter
    case Record(t) => PhaseOf(s, t).Refused? && PhaseOf(s, t).getter
    case _ => false
  }

  /** In every interleaving an answer is to the question asked, from the view of the moment, and
      what the call did last before it was to find that view fresh or to see a load through. */
  lemma AnswersAreBacked(run: seq<Shared>, ttl: int, steps: seq<Step>, rows: seq<Entry>, n: nat, t: nat, q: Question)
    requires IsRun(run, ttl, steps) && Initial(run[0], rows) && n < |steps| && steps[n] == Reply(t, q)
    ensures exists k :: LastOwn(steps, n, t, k) && Backs(run[k], ttl, steps[k])
    ensures run[n + 1].answers == run[n].answers + [Given(match q
      case AskSector(symbol) => Resolved(symbol, Resolve(run[n].view, symbol))
      case AskSymbols => Listed(run[n].view.symbols)
      case AskCoverage => Covered(run[n].view.coverage), run[n].loaded)]
  {
    hide DerivedFrom;
    assert Takes(run[n], ttl, steps[n], run[n + 1]);
    var k := LastOwnStep(run, ttl, steps, n, t);
    assert Takes(run[k], ttl, steps[k], run[k + 1]);
  }

  ghost predicate HasRun(s: Shared, ttl: int, steps: seq<Step>, s': Shared) {
    exists run: seq<Shared> :: IsRun(run, ttl, steps) && run[0] == s && run[|steps|] == s'
  }

  lemma OneMoreStep(s: Shared, ttl: int, steps: seq<Step>, s': Shared, step: Step, s'': Shared)
    requires HasRun(s, ttl, steps, s') && s'.contents != [] && Takes(s', ttl, step, s'') && s''.contents != []
    ensures HasRun(s, ttl, steps + [step], s'')
  {
    hide Takes;
    var run :| IsRun(run, ttl, steps) && run[0] == s && run[|steps|] == s';
    var longer := run + [s''];
    assert IsRun(longer, ttl, steps + [step]) && longer[0] == s && longer[|steps| + 1] == s'';
  }

  lemma NoStep(s: Shared, ttl: int)
    requires s.contents != []
    ensures HasRun(s, ttl, [], s)
  {
    assert IsRun([s], ttl, []);
  }

  /** From an invalidation until the next load is installed the view has no date, and every
      getter that decides goes to the store. */
  lemma {:induction false} InvalidationSendsToTheStore(run: seq<Shared>, ttl: int, steps: seq<Step>, i: nat, n: nat)
    requires IsRun(run, ttl, steps) && i < n <= |steps| && steps[i] == Invalidate
    requires forall k :: i < k < n ==> !steps[k].Install?
    ensures run[n].loadedAt == None
    ensures n < |steps| && steps[n].Decide? ==> PhaseOf(run[n + 1], steps[n].t) == Asking(true)
    decreases n
  {
    hide DerivedFrom;
    assert Takes(run[n - 1], ttl, steps[n - 1], run[n]);
    if i < n - 1 {
      InvalidationSendsToTheStore(run, ttl, steps, i, n - 1);
    }
    assert n < |steps| ==> Takes(run[n], ttl, steps[n], run[n + 1]);
  }

  /** A getter that finds nothing to answer from loads, and answers from that. */
  lemma GetterLoads(s: Shared, ttl: int, t: nat, v: View, now: int)
    requires s.contents != [] && PhaseOf(s, t) == Idle && s.view.symbols == [] && DerivedFrom(v, Store(s))
    ensures var s' := s.(view := v, loaded := true, loadedAt := Some(now), loadErr := None,
                         calls := s.calls[t := Idle], answers := s.answers + [Given(Listed(v.symbols), true)]);
      HasRun(s, ttl, [Begin(t, true), Decide(t, now), Read(t), Install(t, v, now), Reply(t, AskSymbols)], s')
  {
    hide DerivedFrom, HasRun;
    var s2 := s.(calls := s.calls[t := Asking(true)]);
    var s3 := s.(calls := s.calls[t := Holding(true, Store(s))]);
    var s4 := s.(calls := s.calls[t := Answering], view := v, loaded := true, loadedAt := Some(now), loadErr := None);
    var s5 := s4.(calls := s.calls[t := Idle], answers := s.answers + [Given(Listed(v.symbols), true)]);
    GetterAsks(s, ttl, t, now);
    Extend([Begin(t, true)], Decide(t, now), Read(t), Install(t, v, now), Reply(t, AskSymbols));
    Moves(s.calls, t, Asking(true), Holding(true, Store(s)));
    Moves(s.calls, t, Holding(true, Store(s)), Answering);
    Moves(s.calls, t, Answering, Idle);
    OneMoreStep(s, ttl, [Begin(t, true), Decide(t, now)], s2, Read(t), s3);
    OneMoreStep(s, ttl, [Begin(t, true), Decide(t, now), Read(t)], s3, Install(t, v, now), s4);
    OneMoreStep(s, ttl, [Begin(t, true), Decide(t, now), Read(t), Install(t, v, now)], s4, Reply(t, AskSymbols), s5);
  }

  lemma Moves(calls: map<nat, Phase>, t: nat, p: Phase, q: Phase)
    ensures calls[t := p][t := q] == calls[t := q]
  {
  }

  lemma GetterAsks(s: Shared, ttl: int, t: nat, now: int)
    requires s.contents != [] && PhaseOf(s, t) == Idle && s.view.symbols == []
    ensures HasRun(s, ttl, [Begin(t, true), Decide(t, now)], s.(calls := s.calls[t := Asking(true)]))
  {
    NoStep(s, ttl);
    hide HasRun;
    Moves(s.calls, t, Deciding, Asking(true));
    OneMoreStep(s, ttl, [], s, Begin(t, true), s.(calls := s.calls[t := Deciding]));
    OneMoreStep(s, ttl, [Begin(t, true)], s.(calls := s.calls[t := Deciding]), Decide(t, now),
                s.(calls := s.calls[t := Asking(true)]));
    Extend([Begin(t, true)], Decide(t, now), Read(t), Invalidate, Invalidate);
  }

  lemma Extend(a: seq<Step>, b: Step, c: Step, d: Step, e: Step)
    requires |a| == 1
    ensures [] + a == a && a + [b] == [a[0], b] && [a[0], b] + [c] == [a[0], b, c]
    ensures [a[0], b, c] + [d] == [a[0], b, c, d] && [a[0], b, c, d] + [e] == [a[0], b, c, d, e]
  {
  }

  /** One that finds a view younger than the TTL answers from it without asking the store. */
  lemma FreshViewNeedsNoLoad(s: Shared, ttl: int, t: nat, now: int)
    requires s.contents != [] && PhaseOf(s, t) == Idle
    requires s.view.symbols != [] && s.loadedAt.Some? && now - s.loadedAt.value < ttl
    ensures var s' := s.(calls := s.calls[t := Idle], answers := s.answers + [Given(Listed(s.view.symbols), s.loaded)]);
      HasRun(s, ttl, [Begin(t, true), Decide(t, now), Reply(t, AskSymbols)], s')
  {
    var s1 := Moved(s, t, Deciding);
    var s2 := Moved(s1, t, Answering);
    var s3 := Moved(s2, t, Idle).(answers := s.answers + [Given(Listed(s.view.symbols), s.loaded)]);
    NoStep(s, ttl);
    hide HasRun;
    OneMoreStep(s, ttl, [], s, Begin(t, true), s1);
    OneMoreStep(s, ttl, [Begin(t, true)], s1, Decide(t, now), s2);
    OneMoreStep(s, ttl, [Begin(t, true), Decide(t, now)], s2, Reply(t, AskSymbols), s3);
    Extend([Begin(t, true)], Decide(t, now), Reply(t, AskSymbols), Invalidate, Invalidate);
  }

  // ---------------------------------------------------------------- how fresh

  ghost predicate WritesNothing(steps: seq<Step>) {
    forall i :: 0 <= i < |steps| ==> !steps[i].Write?
  }

  /** A dated view shows what the store holds. */
  ghost predicate UpToDate(s: Shared)
    requires s.contents != []
  {
    s.loadedAt.Some? ==> DerivedFrom(s.view, Store(s))
  }

  ghost predicate ShowsAs(rows: seq<Entry>, present: seq<Entry>) {
    forall v :: DerivedFrom(v, rows) ==> DerivedFrom(v, present)
  }

  /** No call has rows in hand from which a view other than the present one could be made. */
  ghost predicate NothingOutdatedInHand(s: Shared)
    requires s.contents != []
  {
    forall t :: t in s.calls && s.calls[t].Holding? ==> ShowsAs(s.calls[t].rows, Store(s))
  }

  lemma StepStaysUpToDate(s: Shared, ttl: int, step: Step, s': Shared)
    requires s.contents != [] && UpToDate(s) && NothingOutdatedInHand(s)
    requires Takes(s, ttl, step, s') && !step.Write?
    ensures s'.contents == s.contents && UpToDate(s') && NothingOutdatedInHand(s')
  {
    assert ShowsAs(Store(s), Store(s));
    hide DerivedFrom;
    if step.Install? {
      assert ShowsAs(s.calls[step.t].rows, Store(s));
      hide ShowsAs;
    } else {
      hide ShowsAs;
    }
  }

  lemma {:induction false} RunStaysUpToDate(run: seq<Shared>, ttl: int, steps: seq<Step>)
    requires IsRun(run, ttl, steps) && WritesNothing(steps)
    requires UpToDate(run[0]) && NothingOutdatedInHand(run[0])
    ensures UpToDate(run[|steps|]) && NothingOutdatedInHand(run[|steps|])
  {
    if steps != [] {
      var n := |steps| - 1;
      RunStaysUpToDate(run[..n + 1], ttl, steps[..n]);
      StepStaysUpToDate(run[n], ttl, steps[n], run[n + 1]);
    }
  }

  /** Invalidating after a write makes the written rows the only ones a dated view can show,
      as its callers mean it to, exactly when no call has outdated rows in hand: a load that
      began before the write can still install its old snapshot as new. */
  lemma InvalidationTakesEffectIff(s: Shared, ttl: int)
    requires s.contents != [] && s.loadedAt == None
    ensures (forall run, steps :: IsRun(run, ttl, steps) && run[0] == s && WritesNothing(steps)
                                  ==> UpToDate(run[|steps|]))
       <==> NothingOutdatedInHand(s)
  {
    if NothingOutdatedInHand(s) {
      forall run, steps | IsRun(run, ttl, steps) && run[0] == s && WritesNothing(steps)
        ensures UpToDate(run[|steps|])
      {
        RunStaysUpToDate(run, ttl, steps);
      }
    } else {
      var t :| t in s.calls && s.calls[t].Holding? && !ShowsAs(s.calls[t].rows, Store(s));
      var v :| DerivedFrom(v, s.calls[t].rows) && !DerivedFrom(v, Store(s));
      OutdatedInstall(s, ttl, t, v);
    }
  }

  lemma OutdatedInstall(s: Shared, ttl: int, t: nat, v: View)
    requires s.contents != [] && t in s.calls && s.calls[t].Holding?
    requires DerivedFrom(v, s.calls[t].rows) && !DerivedFrom(v, Store(s))
    ensures exists run, steps :: IsRun(run, ttl, steps) && run[0] == s && WritesNothing(steps)
                                 && !UpToDate(run[|steps|])
  {
    hide DerivedFrom;
    var after := Moved(s, t, AfterLoad(s.calls[t].getter)).(
                   view := v, loaded := true, loadedAt := Some(0), loadErr := None);
    var (run, steps) := ([s, after], [Install(t, v, 0)]);
    assert Takes(s, ttl, steps[0], after);
    assert IsRun(run, ttl, steps) && !UpToDate(run[|steps|]);
  }

  /** The case is not hypothetical: a reload reads, the rows are rewritten, the cache is
      invalidated, and the reload installs what it read. */
  lemma OutdatedRowsCanBeInHand(ttl: int, former: seq<Entry>, rewritten: seq<Entry>, v: View)
    requires DerivedFrom(v, former) && !DerivedFrom(v, rewritten)
    ensures exists run: seq<Shared>, steps ::
              && IsRun(run, ttl, steps) && Initial(run[0], former)
              && run[|steps|].loadedAt == None && Store(run[|steps|]) == rewritten
              && !NothingOutdatedInHand(run[|steps|])
  {
    hide DerivedFrom;
    var s0 := Shared(EMPTY, false, None, None, [former], map[], []);
    var s1 := Moved(s0, 0, Asking(false));
    var s2 := Moved(s1, 0, Holding(false, former));
    var s3 := s2.(contents := s2.contents + [rewritten]);
    var run := [s0, s1, s2, s3, s3];
    var steps := [Begin(0, false), Read(0), Write(rewritten), Invalidate];
    assert Takes(run[0], ttl, steps[0], run[1]);
    assert Takes(run[1], ttl, steps[1], run[2]);
    assert Takes(run[2], ttl, steps[2], run[3]);
    assert Takes(run[3], ttl, steps[3], run[4]);
    assert 0 in s3.calls && s3.calls[0].Holding? && Store(s3) == rewritten && !ShowsAs(former, rewritten);
    assert IsRun(run, ttl, steps) && Initial(run[0], former) && !NothingOutdatedInHand(run[|steps|]);
  }

  const STOCK := Entry("2330", "semiconductor", "mapped", "")

  const STOCK_VIEW := View(map["2330" := "semiconductor"], ["2330"], Coverage(1, 1, 0, 0, []))

  lemma StockIsShown()
    ensures DerivedFrom(STOCK_VIEW, [STOCK]) && !DerivedFrom(STOCK_VIEW, [])
  {
    assert [STOCK][..0] == [];
    assert ResolvableSymbols([STOCK]) == ResolvableSymbols([]) + ["2330"] == ["2330"];
    assert CountStatus([STOCK], UNMAPPED) == 0 == CountStatus([STOCK], UNKNOWN);
    forall s ensures Resolve(STOCK_VIEW, s) == LastResolvable([STOCK], s) {
      assert LastResolvable([], s) == None;
    }
    assert GapReasons([STOCK]) == {};
    assert Lists([], GapReasons([STOCK]));
    assert ResolvableSymbols([]) == [];
  }

  /** For example when the only row is deleted from the store. */
  lemma DeletedRowCanBeInHand(ttl: int)
    ensures exists run: seq<Shared>, steps ::
              && IsRun(run, ttl, steps) && Initial(run[0], [STOCK])
              && run[|steps|].loadedAt == None && Store(run[|steps|]) == []
              && !NothingOutdatedInHand(run[|steps|])
  {
    StockIsShown();
    OutdatedRowsCanBeInHand(ttl, [STOCK], [], STOCK_VIEW);
  }
}

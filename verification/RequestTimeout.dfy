/** timeout_middleware.go: a handler and a deadline racing for one response writer. */
module RequestTimeout {
  import opened Text

  datatype Side = Handler | Wrapper

  /** A call that reaches the underlying http.ResponseWriter. */
  datatype Event = Status(side: Side, code: int) | Body(side: Side, bytes: string)

  const OK := 200
  const UNAVAILABLE := 503
  const TIMEOUT_BODY := "{\"degraded\":true,\"error\":\"upstream timeout\"}\n"

  /** What the wrapper's lock protects, and what has been forwarded. */
  datatype Writer = Writer(wroteHeader: bool, code: int, log: seq<Event>)

  /** One critical section, the forwarding included: only the first status goes through. */
  function HeaderSection(w: Writer, code: int): Writer {
    if w.wroteHeader then w else Writer(true, code, w.log + [Status(Handler, code)])
  }

  /** The critical section a body write starts with; the write itself follows outside it. */
  function BodySection(w: Writer): Writer {
    if w.wroteHeader then w else w.(wroteHeader := true, code := OK)
  }

  class TimeoutResponseWriter {
    var wroteHeader: bool
    var code: int
    var forwarded: seq<Event>

    function Contents(): Writer
      reads this
    {
      Writer(wroteHeader, code, forwarded)
    }

    constructor ()
      ensures Contents() == Writer(false, 0, [])
    {
      wroteHeader, code, forwarded := false, 0, [];
    }

    method WriteHeader(status: int)
      modifies this
      ensures Contents() == HeaderSection(old(Contents()), status)
    {
      if wroteHeader {
        return;
      }
      wroteHeader := true;
      code := status;
      forwarded := forwarded + [Status(Handler, status)];
    }

    method Write(bytes: string)
      modifies this
      ensures var w := BodySection(old(Contents()));
        Contents() == w.(log := w.log + [Body(Handler, bytes)])
    {
      if !wroteHeader {
        wroteHeader := true;
        code := OK;
      }
      forwarded := forwarded + [Body(Handler, bytes)];
    }
  }

  // ---------------------------------------------------------------- the two threads

  /** The wrapper's progress through its select and its deadline branch. */
  datatype Progress = Waiting | Done | Checking | LetBe | Refusing | Explaining | Refused

  datatype State = State(
    writer: Writer,
    writing: map<nat, string>,   // handler goroutines between the section and the write
    handlerDone: bool,
    deadline: bool,
    wrapper: Progress,
    lateCalls: nat,              // handler calls entered after a status() that found nothing
    lateWrites: nat)             // handler calls forwarded after the wrapper had returned

  const START := State(Writer(false, 0, []), map[], false, false, Waiting, 0, 0)

  datatype Step =
    | CallHeader(code: int) | CallBody(t: nat, bytes: string) | ForwardBody(t: nat) | HandlerReturns
    | DeadlineFires | SeeDone | SeeDeadline | CheckStatus | SendUnavailable | SendBody

  predicate PastCheck(p: Progress) {
    p == Refusing || p == Explaining || p == Refused
  }

  predicate Over(p: Progress) {
    p == Done || p == LetBe || p == Refused
  }

  function Called(s: State, w: Writer): State {
    s.(writer := w,
       lateCalls := s.lateCalls + (if PastCheck(s.wrapper) then 1 else 0),
       lateWrites := s.lateWrites + (if Over(s.wrapper) && w.log != s.writer.log then 1 else 0))
  }

  function Forwarded(s: State, e: Event): State {
    s.(writer := s.writer.(log := s.writer.log + [e]))
  }

  predicate Enabled(s: State, step: Step) {
    match step
    case CallHeader(_) => !s.handlerDone
    case CallBody(t, _) => !s.handlerDone && t !in s.writing
    case ForwardBody(t) => t in s.writing
    case HandlerReturns => !s.handlerDone && s.writing == map[]
    case DeadlineFires => true
    case SeeDone => s.wrapper == Waiting && s.handlerDone
    case SeeDeadline => s.wrapper == Waiting && s.deadline
    case CheckStatus => s.wrapper == Checking
    case SendUnavailable => s.wrapper == Refusing
    case SendBody => s.wrapper == Explaining
  }

  function After(s: State, step: Step): State
    requires Enabled(s, step)
  {
    match step
    case CallHeader(code) => Called(s, HeaderSection(s.writer, code))
    case CallBody(t, bytes) => Called(s, BodySection(s.writer)).(writing := s.writing[t := bytes])
    case ForwardBody(t) =>
      Forwarded(s, Body(Handler, s.writing[t])).(
        writing := s.writing - {t},
        lateWrites := s.lateWrites + (if Over(s.wrapper) then 1 else 0))
    case HandlerReturns => s.(handlerDone := true)
    case DeadlineFires => s.(deadline := true)
    case SeeDone => s.(wrapper := Done)
    case SeeDeadline => s.(wrapper := Checking)
    case CheckStatus => s.(wrapper := if s.writer.wroteHeader then LetBe else Refusing)
    case SendUnavailable => Forwarded(s, Status(Wrapper, UNAVAILABLE)).(wrapper := Explaining)
    case SendBody => Forwarded(s, Body(Wrapper, TIMEOUT_BODY)).(wrapper := Refused)
  }

  /** steps can be taken one after another from s. */
  predicate Runs(s: State, steps: seq<Step>)
    decreases steps
  {
    steps == [] || (Enabled(s, steps[0]) && Runs(After(s, steps[0]), steps[1..]))
  }

  function End(s: State, steps: seq<Step>): State
    requires Runs(s, steps)
    decreases steps
  {
    if steps == [] then s else End(After(s, steps[0]), steps[1..])
  }

  function Bodies(log: seq<Event>): nat {
    if log == [] then 0
    else Bodies(log[..|log| - 1]) + if log[|log| - 1].Body? && log[|log| - 1].side == Handler then 1 else 0
  }

  function BodyCalls(steps: seq<Step>): nat {
    if steps == [] then 0 else (if steps[0].CallBody? then 1 else 0) + BodyCalls(steps[1..])
  }

  lemma StepConservesBodies(s: State, step: Step)
    requires Enabled(s, step)
    ensures var s' := After(s, step);
      Bodies(s'.writer.log) + |s'.writing| == Bodies(s.writer.log) + |s.writing| + if step.CallBody? then 1 else 0
  {
    var (log, log') := (s.writer.log, After(s, step).writer.log);
    if log' != log {
      assert log' == log + [log'[|log|]];
      BodiesGrow(log, log'[|log|]);
    }
    hide Bodies;
    match step
    case ForwardBody(t) => OneLess(s.writing, t);
    case CallBody(t, bytes) => assert |s.writing[t := bytes]| == |s.writing| + 1;
    case _ =>
  }

  lemma BodiesGrow(log: seq<Event>, e: Event)
    ensures Bodies(log + [e]) == Bodies(log) + if e.Body? && e.side == Handler then 1 else 0
  {
    assert (log + [e])[..|log|] == log;
  }

  lemma OneLess(m: map<nat, string>, t: nat)
    requires t in m
    ensures |m - {t}| == |m| - 1
  {
    assert (m - {t}).Keys == m.Keys - {t};
    assert |m| == |m.Keys| && |m - {t}| == |(m - {t}).Keys|;
  }

  /** Every body the handler writes is forwarded once, or still on its way. */
  lemma {:induction false} BodiesAreConserved(s: State, steps: seq<Step>)
    requires Runs(s, steps)
    ensures var s' := End(s, steps);
      Bodies(s'.writer.log) + |s'.writing| == Bodies(s.writer.log) + |s.writing| + BodyCalls(steps)
    decreases steps
  {
    if steps != [] {
      StepConservesBodies(s, steps[0]);
      BodiesAreConserved(After(s, steps[0]), steps[1..]);
      hide Bodies, Enabled;
    }
  }

  /** The two counters: handler calls made once the status check has gone on to refuse, and
      handler calls reaching the client once the middleware has returned. */
  lemma CountersCount(s: State, step: Step)
    requires Enabled(s, step)
    ensures var s' := After(s, step);
      && s'.lateCalls == s.lateCalls
         + (if (step.CallHeader? || step.CallBody?)
               && (s.wrapper == Refusing || s.wrapper == Explaining || s.wrapper == Refused) then 1 else 0)
      && s'.lateWrites == s.lateWrites
         + (if s'.writer.log != s.writer.log
               && (s.wrapper == Done || s.wrapper == LetBe || s.wrapper == Refused) then 1 else 0)
  {
  }

  // ---------------------------------------------------------------- what holds throughout

  predicate From(e: Event, side: Side) {
    e.side == side
  }

  /** A handler status precedes everything else from the handler, so there is at most one
      and none after a body write. */
  ghost predicate HandlerOrdered(log: seq<Event>) {
    forall i, j :: 0 <= i < j < |log| && log[j].Status? && From(log[j], Handler) ==> !From(log[i], Handler)
  }

  /** The wrapper's own part of the log, as far as it has got. */
  function WrapperPart(p: Progress): seq<Event> {
    match p
    case Explaining => [Status(Wrapper, UNAVAILABLE)]
    case Refused => [Status(Wrapper, UNAVAILABLE), Body(Wrapper, TIMEOUT_BODY)]
    case _ => []
  }

  function Part(log: seq<Event>, side: Side): seq<Event> {
    if log == [] then []
    else Part(log[..|log| - 1], side) + if From(log[|log| - 1], side) then [log[|log| - 1]] else []
  }

  ghost predicate Invariant(s: State) {
    && HandlerOrdered(s.writer.log)
    && Part(s.writer.log, Wrapper) == WrapperPart(s.wrapper)
    && (s.writing != map[] || Part(s.writer.log, Handler) != [] ==> s.writer.wroteHeader)
    && (s.writer.wroteHeader ==> s.writing != map[] || Part(s.writer.log, Handler) != [])
    && (s.wrapper != Waiting && s.wrapper != Done ==> s.deadline)
    && (s.lateCalls > 0 <==> PastCheck(s.wrapper) && s.writer.wroteHeader)
    && (s.handlerDone ==> s.writing == map[])
    && (s.lateWrites > 0 ==> s.wrapper == LetBe || s.wrapper == Refused)
    && (s.wrapper == Done ==> s.handlerDone)
  }

  lemma {:induction false} NoPart(log: seq<Event>, side: Side)
    ensures Part(log, side) == [] <==> forall i :: 0 <= i < |log| ==> !From(log[i], side)
  {
    if log != [] {
      NoPart(log[..|log| - 1], side);
    }
  }

  lemma PartGrows(log: seq<Event>, e: Event, side: Side)
    ensures Part(log + [e], side) == Part(log, side) + if From(e, side) then [e] else []
  {
    assert (log + [e])[..|log|] == log;
  }

  lemma LogGrows(log: seq<Event>, e: Event)
    requires HandlerOrdered(log)
    requires e.Status? && From(e, Handler) ==> Part(log, Handler) == []
    ensures HandlerOrdered(log + [e])
    ensures Part(log + [e], Handler) == Part(log, Handler) + if From(e, Handler) then [e] else []
    ensures Part(log + [e], Wrapper) == Part(log, Wrapper) + if From(e, Wrapper) then [e] else []
  {
    PartGrows(log, e, Handler);
    PartGrows(log, e, Wrapper);
    NoPart(log, Handler);
  }

  lemma StepKeepsInvariant(s: State, step: Step)
    requires Invariant(s) && Enabled(s, step)
    ensures Invariant(After(s, step))
  {
    hide HandlerOrdered, Part;
    match step
    case CallHeader(code) =>
      if !s.writer.wroteHeader {
        LogGrows(s.writer.log, Status(Handler, code));
      }
    case CallBody(t, bytes) => assert t in After(s, step).writing;
    case ForwardBody(t) => LogGrows(s.writer.log, Body(Handler, s.writing[t]));
    case SendUnavailable => LogGrows(s.writer.log, Status(Wrapper, UNAVAILABLE));
    case SendBody => LogGrows(s.writer.log, Body(Wrapper, TIMEOUT_BODY));
    case _ =>
  }

  lemma {:induction false} RunKeepsInvariant(s: State, steps: seq<Step>)
    requires Invariant(s) && Runs(s, steps)
    ensures Invariant(End(s, steps))
    decreases steps
  {
    if steps != [] {
      StepKeepsInvariant(s, steps[0]);
      RunKeepsInvariant(After(s, steps[0]), steps[1..]);
    }
  }

  /** In every interleaving the handler forwards at most one status, and none after a body;
      the wrapper sends at most one 503 with its explanation, never anything else, and only
      once the deadline has fired. */
  lemma EachSideBehaves(steps: seq<Step>)
    requires Runs(START, steps)
    ensures var s := End(START, steps);
      && HandlerOrdered(s.writer.log)
      && Part(s.writer.log, Wrapper) <=
         [Status(Wrapper, 503), Body(Wrapper, "{\"degraded\":true,\"error\":\"upstream timeout\"}\n")]
      && (Part(s.writer.log, Wrapper) != [] ==> s.deadline)
  {
    RunKeepsInvariant(START, steps);
  }

  predicate IsCall(step: Step) {
    step.CallHeader? || step.CallBody?
  }

  /** Step i is the handler's first call, and sets the status. */
  ghost predicate FirstCallIs(steps: seq<Step>, i: int, code: int) {
    0 <= i < |steps| && steps[i] == CallHeader(code) && forall k :: 0 <= k < i ==> !IsCall(steps[k])
  }

  ghost predicate HasStatus(log: seq<Event>, code: int) {
    exists i :: 0 <= i < |log| && log[i] == Status(Handler, code)
  }

  ghost predicate Calls(steps: seq<Step>) {
    exists k :: 0 <= k < |steps| && IsCall(steps[k])
  }

  /** The status the client gets from the handler is the code of the handler's first call, if
      that call sets one; and there is none otherwise. */
  lemma {:induction false} StatusIsTheFirstCalls(steps: seq<Step>, code: int)
    requires Runs(START, steps)
    ensures HasStatus(End(START, steps).writer.log, code) <==> exists i :: FirstCallIs(steps, i, code)
    ensures End(START, steps).writer.wroteHeader <==> Calls(steps)
    decreases |steps|
  {
    if steps != [] {
      var (init, step) := (steps[..|steps| - 1], steps[|steps| - 1]);
      assert steps == init + [step];
      LastStep(START, init, step);
      StatusIsTheFirstCalls(init, code);
      var (s, s') := (End(START, init), End(START, steps));
      assert FirstCallIs(steps, |init|, code) <==> step == CallHeader(code) && !Calls(init);
      assert forall i :: i != |init| ==> (FirstCallIs(steps, i, code) <==> FirstCallIs(init, i, code));
      assert Calls(steps) <==> Calls(init) || IsCall(step) by {
        if Calls(init) {
          var k :| 0 <= k < |init| && IsCall(init[k]);
          assert steps[k] == init[k];
        }
        assert steps[|init|] == step;
      }
      StatusGrows(s.writer.log, s'.writer.log, s, step, code);
    }
  }

  lemma StatusGrows(log: seq<Event>, log': seq<Event>, s: State, step: Step, code: int)
    requires Enabled(s, step) && s.writer.log == log && After(s, step).writer.log == log'
    ensures HasStatus(log', code) <==> HasStatus(log, code) || (step == CallHeader(code) && !s.writer.wroteHeader)
    ensures After(s, step).writer.wroteHeader <==> s.writer.wroteHeader || IsCall(step)
  {
    if log' != log {
      var e := log'[|log|];
      assert log' == log + [e];
      if HasStatus(log, code) {
        var i :| 0 <= i < |log| && log[i] == Status(Handler, code);
        assert log'[i] == log[i];
      }
      assert log'[|log|] == e;
    }
  }

  lemma {:induction false} LastStep(s: State, init: seq<Step>, step: Step)
    requires Runs(s, init + [step])
    ensures Runs(s, init) && Enabled(End(s, init), step) && End(s, init + [step]) == After(End(s, init), step)
    decreases init
  {
    var steps := init + [step];
    if init == [] {
      assert steps[1..] == [];
    } else {
      assert steps[1..] == init[1..] + [step];
      LastStep(After(s, steps[0]), init[1..], step);
    }
  }

  /** The wrapper goes on to refuse exactly when the handler side had done nothing yet: no
      call forwarded, none under way. */
  lemma RefusesOnlyTheSilent(steps: seq<Step>)
    requires Runs(START, steps) && Enabled(End(START, steps), CheckStatus)
    ensures var s := End(START, steps);
      After(s, CheckStatus).wrapper == Refusing <==> s.writer.log == [] && s.writing == map[]
  {
    RunKeepsInvariant(START, steps);
    var s := End(START, steps);
    NoPart(s.writer.log, Handler);
    NoPart(s.writer.log, Wrapper);
    if s.writer.log != [] {
      assert From(s.writer.log[0], Handler);
    }
  }

  /** Once the 503 is out and no write is under way, the response is the wrapper's alone
      exactly when the handler made no call after the status check. */
  lemma RefusalIsCleanIff(steps: seq<Step>)
    requires Runs(START, steps)
    requires End(START, steps).wrapper == Refused && End(START, steps).writing == map[]
    ensures var s := End(START, steps);
      s.writer.log == [Status(Wrapper, UNAVAILABLE), Body(Wrapper, TIMEOUT_BODY)] <==> s.lateCalls == 0
  {
    RunKeepsInvariant(START, steps);
    var s := End(START, steps);
    if s.lateCalls == 0 {
      OneSided(s.writer.log, Handler, Wrapper);
    } else {
      var pure := [Status(Wrapper, UNAVAILABLE), Body(Wrapper, TIMEOUT_BODY)];
      NoPart(pure, Handler);
    }
  }

  lemma {:induction false} OneSided(log: seq<Event>, silent: Side, other: Side)
    requires silent != other && Part(log, silent) == []
    ensures log == Part(log, other)
  {
    if log != [] {
      var (init, e) := (log[..|log| - 1], log[|log| - 1]);
      assert log == init + [e];
      PartGrows(init, e, silent);
      PartGrows(init, e, other);
      OneSided(init, silent, other);
    }
  }

  /** If the wrapper never went past a status check, the response is the handler's alone. */
  lemma OtherwiseTheHandlersOwn(steps: seq<Step>)
    requires Runs(START, steps) && !PastCheck(End(START, steps).wrapper)
    ensures var s := End(START, steps); s.writer.log == Part(s.writer.log, Handler)
  {
    RunKeepsInvariant(START, steps);
    OneSided(End(START, steps).writer.log, Wrapper, Handler);
  }

  /** The handler touches the writer after the middleware has returned only where the wrapper
      took the deadline: having refused, or having let a started response be. */
  lemma WritesAfterReturnNeedTheDeadline(steps: seq<Step>)
    requires Runs(START, steps)
    ensures End(START, steps).lateWrites > 0 ==>
              End(START, steps).wrapper == Refused || End(START, steps).wrapper == LetBe
  {
    RunKeepsInvariant(START, steps);
  }

  /** A response that mixes both sides: the handler's status lost, its body sent after the
      wrapper's, and all of it after the middleware has returned. */
  lemma MixedResponse(bytes: string)
    ensures exists steps ::
              && Runs(START, steps) && End(START, steps).lateWrites == 2
              && End(START, steps).writer.log
              == [Status(Wrapper, UNAVAILABLE), Body(Wrapper, TIMEOUT_BODY), Status(Handler, OK), Body(Handler, bytes)]
  {
    var refused := START.(deadline := true, wrapper := Refused, writer := Writer(false, 0, REFUSAL));
    var before := [DeadlineFires, SeeDeadline, CheckStatus, SendUnavailable, SendBody];
    var after := [CallHeader(OK), CallBody(0, bytes), ForwardBody(0)];
    SilentHandlerIsRefused(refused);
    HandlerGoesOn(refused, bytes);
    RunOn(START, before, after);
    hide Runs, End;
    assert Runs(START, before + after);
  }

  const REFUSAL := [Status(Wrapper, UNAVAILABLE), Body(Wrapper, TIMEOUT_BODY)]

  lemma SilentHandlerIsRefused(refused: State)
    requires refused == START.(deadline := true, wrapper := Refused, writer := Writer(false, 0, REFUSAL))
    ensures var steps := [DeadlineFires, SeeDeadline, CheckStatus, SendUnavailable, SendBody];
      Runs(START, steps) && End(START, steps) == refused
  {
    var s1 := START.(deadline := true);
    var s2 := s1.(wrapper := Checking);
    var s3 := s1.(wrapper := Refusing);
    var s4 := After(s3, SendUnavailable);
    Stay(refused);
    hide Runs, End;
    Leads(s4, [SendBody], refused, []);
    Leads(s3, [SendUnavailable, SendBody], s4, [SendBody]);
    Leads(s2, [CheckStatus, SendUnavailable, SendBody], s3, [SendUnavailable, SendBody]);
    Leads(s1, [SeeDeadline, CheckStatus, SendUnavailable, SendBody], s2, [CheckStatus, SendUnavailable, SendBody]);
    Leads(START, [DeadlineFires, SeeDeadline, CheckStatus, SendUnavailable, SendBody],
          s1, [SeeDeadline, CheckStatus, SendUnavailable, SendBody]);
  }

  lemma HandlerGoesOn(s: State, bytes: string)
    requires s.wrapper == Refused && !s.handlerDone && !s.writer.wroteHeader && s.writing == map[]
    ensures var steps := [CallHeader(OK), CallBody(0, bytes), ForwardBody(0)];
      && Runs(s, steps) && End(s, steps).lateWrites == s.lateWrites + 2
      && End(s, steps).writer.log == s.writer.log + [Status(Handler, OK), Body(Handler, bytes)]
  {
    var s1 := After(s, CallHeader(OK));
    var s2 := After(s1, CallBody(0, bytes));
    var s3 := After(s2, ForwardBody(0));
    Stay(s3);
    hide Runs, End;
    Leads(s2, [ForwardBody(0)], s3, []);
    Leads(s1, [CallBody(0, bytes), ForwardBody(0)], s2, [ForwardBody(0)]);
    Leads(s, [CallHeader(OK), CallBody(0, bytes), ForwardBody(0)], s1, [CallBody(0, bytes), ForwardBody(0)]);
  }

  lemma Stay(s: State)
    ensures Runs(s, []) && End(s, []) == s
  {
  }

  lemma Leads(s: State, steps: seq<Step>, next: State, rest: seq<Step>)
    requires steps != [] && Enabled(s, steps[0]) && After(s, steps[0]) == next && steps[1..] == rest
    requires Runs(next, rest)
    ensures Runs(s, steps) && End(s, steps) == End(next, rest)
  {
  }

  lemma {:induction false} RunOn(s: State, first: seq<Step>, then': seq<Step>)
    requires Runs(s, first) && Runs(End(s, first), then')
    ensures Runs(s, first + then') && End(s, first + then') == End(End(s, first), then')
    decreases first
  {
    if first == [] {
      assert first + then' == then';
    } else {
      RunOn(After(s, first[0]), first[1..], then');
      assert (first + then')[1..] == first[1..] + then';
    }
  }

  // ---------------------------------------------------------------- which requests

  const EVENTS_PREFIX := "/api/tasks/"
  const EVENTS_SUFFIX := "/events"

  /** The duration for a path: zero exempts the request from the wrapper. */
  function TimeoutFor(path: string, fallback: int, overrides: map<string, int>): int {
    if path in overrides then overrides[path]
    else if HasPrefix(path, EVENTS_PREFIX) && HasSuffix(path, EVENTS_SUFFIX) then 0
    else fallback
  }

  /** The rule for /api/tasks/{id}/events exempts every such path, and one more that names no
      task: prefix and suffix may share their slash. */
  lemma ExemptPaths(path: string, fallback: int, overrides: map<string, int>)
    requires fallback != 0
    ensures TimeoutFor(path, fallback, overrides) == 0 <==>
      if path in overrides then overrides[path] == 0
      else path == "/api/tasks/events" || exists id :: path == "/api/tasks/" + id + "/events"
    ensures TimeoutFor(path, fallback, overrides) != 0 ==>
      TimeoutFor(path, fallback, overrides) == if path in overrides then overrides[path] else fallback
  {
    if HasPrefix(path, EVENTS_PREFIX) && HasSuffix(path, EVENTS_SUFFIX) {
      Overlap(path);
      if |path| >= 18 {
        var id := path[11..|path| - 7];
        assert path == path[..11] + id + path[|path| - 7..];
      } else {
        assert path == path[..11] + path[11..];
        assert path[11..] == path[|path| - 7..][1..];
      }
    }
    forall id | path == EVENTS_PREFIX + id + EVENTS_SUFFIX
      ensures HasPrefix(path, EVENTS_PREFIX) && HasSuffix(path, EVENTS_SUFFIX)
    {
      assert path[..11] == EVENTS_PREFIX && path[|path| - 7..] == EVENTS_SUFFIX;
    }
  }

  lemma Overlap(path: string)
    requires HasPrefix(path, EVENTS_PREFIX) && HasSuffix(path, EVENTS_SUFFIX)
    ensures |path| >= 17
  {
    var n := |path| - 7;
    assert path[n] == path[n..][0] == '/' && path[n + 1] == path[n..][1] == 'e';
    assert forall i :: 0 <= i < 11 ==> path[i] == path[..11][i];
  }
}
